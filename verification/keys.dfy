/** Number theory behind RSA key blobs: extended Euclid, modular inverses, big-endian integers. */
module Keys {
  import opened Bits
  import opened Bytes
  import opened Wrappers

  // ----------------------------------------------------------------- divisibility

  ghost predicate Divides(d: int, n: int) {
    exists q: int :: Multiple(q, d, n)
  }

  ghost predicate Multiple(q: int, d: int, n: int) { n == q * d }

  lemma DividesBy(q: int, d: int, n: int)
    requires n == q * d
    ensures Divides(d, n)
  {
    assert Multiple(q, d, n);
  }

  lemma DividesCombination(d: int, a: int, b: int, x: int, y: int)
    requires Divides(d, a) && Divides(d, b)
    ensures Divides(d, a * x + b * y)
  {
    var p: int :| Multiple(p, d, a);
    var q: int :| Multiple(q, d, b);
    assert a * x + b * y == (p * x + q * y) * d by {
      assert a * x == p * x * d && b * y == q * y * d;
    }
    DividesBy(p * x + q * y, d, a * x + b * y);
  }

  ghost predicate CommonDivisor(d: int, a: int, b: int) {
    Divides(d, a) && Divides(d, b)
  }

  ghost predicate IsGcd(g: nat, a: nat, b: nat) {
    CommonDivisor(g, a, b) && forall d: int :: CommonDivisor(d, a, b) ==> Divides(d, g)
  }

  // --------------------------------------------------------------- extended Euclid

  function Max(a: int, b: int): int { if a < b then b else a }

  function Abs(a: int): nat { if a < 0 then -a else a }

  function Egcd(a: nat, b: nat): (nat, int, int) {
    if a == 0 then (b, 0, 1)
    else Backwards(b / a, Egcd(b % a, a))
  }

  /** From (g, y, x) for (b % a, a) to the result for (a, b), where q is b / a. */
  function Backwards(q: nat, r: (nat, int, int)): (nat, int, int) {
    var (g, y, x) := r;
    (g, x - q * y, y)
  }

  ghost predicate EgcdSpec(a: nat, b: nat, r: (nat, int, int)) {
    && a * r.1 + b * r.2 == r.0
    && IsGcd(r.0, a, b)
    && Abs(r.1) <= Max(1, b) && Abs(r.2) <= Max(1, a)
  }

  /** (g, x, y) with g the greatest common divisor, a*x + b*y == g, and small coefficients. */
  lemma {:induction false} EgcdCorrect(a: nat, b: nat)
    ensures EgcdSpec(a, b, Egcd(a, b))
    decreases a
  {
    if a == 0 {
      GcdWithZero(b);
    } else {
      EgcdCorrect(b % a, a);
      EgcdUnfold(a, b);
    }
  }

  lemma EuclidStep(a: nat, q: nat, r: nat, b: nat, t: (nat, int, int))
    requires a > 0 && b == q * a + r && EgcdSpec(r, a, t)
    requires r == 0 ==> t == (a, 0, 1)
    ensures EgcdSpec(a, b, Backwards(q, t))
  {
    var (g, y, x) := t;
    EuclidBezout(a, q, r, b, x, y);
    EuclidGcd(a, q, r, b, g);
    EuclidBound(a, q, r, x, y);
  }

  lemma EgcdUnfold(a: nat, b: nat)
    requires a > 0 && EgcdSpec(b % a, a, Egcd(b % a, a))
    ensures EgcdSpec(a, b, Egcd(a, b))
  {
    hide EgcdSpec, Backwards;
    DivModSum(b, a);
    EuclidStep(a, b / a, b % a, b, Egcd(b % a, a));
  }

  lemma DivModSum(b: nat, a: nat)
    requires a > 0
    ensures b == (b / a) * a + b % a
  {
  }

  lemma GcdWithZero(b: nat)
    ensures IsGcd(b, 0, b)
  {
    DividesBy(0, b, 0);
    DividesBy(1, b, b);
  }

  lemma EuclidBezout(a: int, q: int, r: int, b: int, x: int, y: int)
    requires b == q * a + r
    ensures a * (x - q * y) + b * y == r * y + a * x
  {
    assert b * y == q * a * y + r * y;
    assert a * (x - q * y) == a * x - a * (q * y);
    assert a * (q * y) == q * a * y;
  }

  lemma EuclidGcd(a: nat, q: int, r: nat, b: nat, g: nat)
    requires b == q * a + r && IsGcd(g, r, a)
    ensures IsGcd(g, a, b)
  {
    DividesCombination(g, a, r, q, 1);
    assert a * q + r * 1 == b;
    forall d: int | CommonDivisor(d, a, b)
      ensures Divides(d, g)
    {
      DividesCombination(d, b, a, 1, -q);
      assert b * 1 + a * -q == r;
      assert CommonDivisor(d, r, a);
    }
  }

  lemma EuclidBound(a: nat, q: nat, r: nat, x: int, y: int)
    requires a > 0 && Abs(y) <= a && Abs(x) <= Max(1, r)
    requires r == 0 ==> x == 1 && y == 0
    ensures Abs(x - q * y) <= Max(1, q * a + r)
  {
    if r == 0 {
      assert q * y == 0;
    } else {
      MulAtMost(q, y, a);
      MulAtMost(q, -y, a);
      assert q * -y == -(q * y);
    }
  }

  lemma MulAtMost(q: nat, y: int, a: nat)
    requires y <= a
    ensures q * y <= q * a
  {
  }

  // --------------------------------------------------------------- modular inverse

  function ModInv(a: nat, m: nat): Option<nat>
    requires m > 0
  {
    var (gcd, x, _) := Egcd(a, m);
    if gcd != 1 then None else Some(x % m)
  }

  ghost predicate IsInverse(x: int, a: nat, m: nat)
    requires m > 0
  {
    (a * x) % m == 1 % m
  }

  lemma ModOfSum(x: int, k: int, m: nat)
    requires m > 0
    ensures (x + k * m) % m == x % m
  {
    var q, r := x / m, x % m;
    assert x + k * m == (q + k) * m + r;
    var y := x + k * m;
    QuotientUnique(m, y / m, y % m, q + k, r);
  }

  lemma BezoutInverse(a: nat, m: nat, x: int, y: int)
    requires m > 0 && a * x + m * y == 1
    ensures IsInverse(x % m, a, m)
  {
    var q := x / m;
    assert a * x == a * (q * m + x % m) == a * (q * m) + a * (x % m);
    assert a * (q * m) == (a * q) * m;
    assert m * y == y * m;
    assert (a * q) * m + y * m == (a * q + y) * m;
    var k := -(a * q + y);
    assert a * (x % m) == 1 + k * m;
    ModOfSum(1, k, m);
  }

  /** An inverse exists exactly when ModInv returns one, and then it returns the one in [0, m). */
  lemma ModInvCorrect(a: nat, m: nat)
    requires m > 0
    ensures ModInv(a, m).Some? ==> IsInverse(ModInv(a, m).value, a, m) && ModInv(a, m).value < m
    ensures ModInv(a, m).Some? <==> exists x: int :: IsInverse(x, a, m)
  {
    var (g, x, y) := Egcd(a, m);
    EgcdCorrect(a, m);
    if g == 1 {
      BezoutInverse(a, m, x, y);
    }
    if exists z: int :: IsInverse(z, a, m) {
      var z: int :| IsInverse(z, a, m);
      InverseMakesCoprime(a, m, z, g);
    }
  }

  lemma InverseMakesCoprime(a: nat, m: nat, z: int, g: nat)
    requires m > 0 && IsInverse(z, a, m) && IsGcd(g, a, m)
    ensures g == 1
  {
    hide IsInverse, Divides;
    if m == 1 {
      DividesOne(g);
    } else {
      InverseCombination(a, m, z);
      DividesCombination(g, a, m, z, -((a * z) / m));
      DividesOne(g);
    }
  }

  lemma InverseCombination(a: nat, m: nat, z: int)
    requires m > 1 && IsInverse(z, a, m)
    ensures a * z + m * -((a * z) / m) == 1
  {
    var x := a * z;
    assert x == m * (x / m) + 1;
  }

  lemma DividesOne(g: nat)
    requires Divides(g, 1)
    ensures g == 1
  {
    var q: int :| Multiple(q, g, 1);
    if q > 1 && g > 0 { MulGap(1, q, g); }
  }

  // --------------------------------------------------- Montgomery constants of a key


  lemma {:induction false} OddDivisorOfPow2(d: nat, k: nat)
    requires d % 2 == 1 && Divides(d, Pow2(k))
    ensures d == 1
  {
    if k == 0 {
      DividesOne(d);
    } else {
      var q: int :| Multiple(q, d, Pow2(k));
      if q % 2 == 1 { OddTimesOdd(q, d); }
      assert Pow2(k - 1) == (q / 2) * d by {
        assert q == 2 * (q / 2);
        assert q * d == 2 * ((q / 2) * d);
      }
      DividesBy(q / 2, d, Pow2(k - 1));
      OddDivisorOfPow2(d, k - 1);
    }
  }

  lemma OddTimesOdd(q: int, d: int)
    requires q % 2 == 1 && d % 2 == 1
    ensures (q * d) % 2 == 1
  {
    var i, j := q / 2, d / 2;
    assert q * d == (2 * i + 1) * d == 2 * (i * d) + d;
  }

  lemma EvenTimesAny(q: int, d: int)
    requires d % 2 == 0
    ensures (q * d) % 2 == 0
  {
    assert d == 2 * (d / 2);
    assert q * d == 2 * (q * (d / 2));
  }

  /** A modulus has an inverse modulo 2^32 exactly when it is odd. */
  lemma InvertibleIffOdd(n: nat)
    ensures ModInv(n, UINT32).Some? <==> n % 2 == 1
  {
    var g := Egcd(n, UINT32).0;
    EgcdCorrect(n, UINT32);
    if n % 2 == 1 {
      OddGcd(n, g);
    } else {
      EvenGcd(n, g);
    }
  }

  lemma OddGcd(n: nat, g: nat)
    requires n % 2 == 1 && IsGcd(g, n, UINT32)
    ensures g == 1
  {
    var q: int :| Multiple(q, g, n);
    if g % 2 == 0 { EvenTimesAny(q, g); }
    Pow2Of32();
    OddDivisorOfPow2(g, 32);
  }

  lemma EvenGcd(n: nat, g: nat)
    requires n % 2 == 0 && IsGcd(g, n, UINT32)
    ensures g != 1
  {
    DividesBy(n / 2, 2, n);
    DividesBy(UINT32 / 2, 2, UINT32);
    assert CommonDivisor(2, n, UINT32);
    var q: int :| Multiple(q, 2, g);
  }

  lemma Pow2Of32()
    ensures Pow2(32) == UINT32
  {
    assert Pow2(8) == 256;
    assert Pow2(16) == 0x1_0000;
    assert Pow2(24) == 0x100_0000;
  }

  function N0Inv(modulus: nat): Option<nat> {
    match ModInv(modulus, UINT32)
    case None => None
    case Some(inv) => Some(UINT32 - inv)
  }

  /** n0inv is -1/N modulo 2^32 and fits its 32-bit field; it exists exactly for odd moduli. */
  lemma N0InvCorrect(modulus: nat)
    ensures N0Inv(modulus).Some? <==> modulus % 2 == 1
    ensures N0Inv(modulus).Some? ==>
              && 0 < N0Inv(modulus).value < UINT32
              && (N0Inv(modulus).value * modulus + 1) % UINT32 == 0
  {
    InvertibleIffOdd(modulus);
    if ModInv(modulus, UINT32).Some? {
      ModInvCorrect(modulus, UINT32);
      NegatedInverse(modulus, ModInv(modulus, UINT32).value);
    }
  }

  lemma NegatedInverse(n: nat, inv: nat)
    requires IsInverse(inv, n, UINT32) && inv < UINT32
    ensures 0 < inv && ((UINT32 - inv) * n + 1) % UINT32 == 0
  {
    var p := n * inv;
    var q := p / UINT32;
    assert p == q * UINT32 + 1;
    assert (UINT32 - inv) * n == UINT32 * n - p;
    assert (UINT32 - inv) * n + 1 == 0 + (n - q) * UINT32;
    ModOfSum(0, n - q, UINT32);
  }

  // ------------------------------------------------------ encode_long and decode_long

  /** encode_long; None models the negative shift Python rejects when num_bits is not a multiple of 8. */
  method EncodeLong(numBits: nat, value: nat) returns (r: Option<seq<byte>>)
    ensures r == if numBits % 8 == 0 then Some(BE(value, numBits / 8)) else None
  {
    var out: seq<byte> := [];
    var bitPos: int := numBits;
    while bitPos > 0
      invariant bitPos <= numBits && (numBits - bitPos) % 8 == 0
      invariant bitPos <= 0 ==> numBits % 8 == 0 && bitPos == 0
      invariant |out| == (numBits - bitPos) / 8
      invariant BE(ShiftRight(value, if bitPos > 0 then bitPos else 0), |out|) == out
    {
      if bitPos < 8 { return None; }
      var octet := ShiftRight(value, bitPos - 8) % 256;
      ShiftByEight(value, bitPos - 8);
      out := out + [octet];
      bitPos := bitPos - 8;
    }
    return Some(out);
  }

  lemma ShiftByEight(value: nat, k: nat)
    ensures ShiftRight(value, k + 8) == ShiftRight(value, k) / 256
  {
    ShiftRightStep(value, k);
    ShiftRightStep(value, k + 1);
    ShiftRightStep(value, k + 2);
    ShiftRightStep(value, k + 3);
    ShiftRightStep(value, k + 4);
    ShiftRightStep(value, k + 5);
    ShiftRightStep(value, k + 6);
    ShiftRightStep(value, k + 7);
  }

  method DecodeLong(blob: seq<byte>) returns (r: nat)
    ensures r == DecodeBE(blob)
  {
    r := 0;
    for i := 0 to |blob|
      invariant r == DecodeBE(blob[..i])
    {
      assert blob[..i + 1][..i] == blob[..i];
      r := r * 256;
      r := r + blob[i];
    }
    assert blob[..|blob|] == blob;
  }

  // ------------------------------------------------------------- the key blob

  datatype PublicKey = PublicKey(numBits: nat, modulus: nat, exponent: nat)

  /** rr = r*r mod N with r = 2^bit_length(N). */
  function RRModN(modulus: nat): nat
    requires modulus > 0
  {
    (Pow2(BitLength(modulus)) * Pow2(BitLength(modulus))) % modulus
  }

  /** The bytes RSAPublicKey.encode returns; None where it raises. */
  function KeyBlob(key: PublicKey): Option<seq<byte>>
    requires key.modulus > 0
  {
    if key.exponent != 65537 || key.numBits >= UINT32 || key.numBits % 8 != 0 then None
    else match N0Inv(key.modulus)
      case None => None
      case Some(n0inv) =>
        Some(BE(key.numBits, 4) + BE(n0inv, 4)
             + BE(key.modulus, key.numBits / 8) + BE(RRModN(key.modulus), key.numBits / 8))
  }

  /** How RSAPublicKey.encode fails: its own check, None in a subtraction, a too wide word, a negative shift. */
  function KeyError(key: PublicKey): Error {
    if key.exponent != 65537 then AvbError
    else if N0Inv(key.modulus).None? then TypeError
    else if key.numBits >= UINT32 then StructError
    else ValueError
  }

  method EncodeKey(key: PublicKey) returns (r: Result<seq<byte>>)
    requires key.modulus > 0
    ensures r == match KeyBlob(key) case Some(blob) => Ok(blob) case None => Raised(KeyError(key))
  {
    if key.exponent != 65537 { return Raised(AvbError); }
    var b := UINT32;
    var inv := ModInv(key.modulus, b);
    if inv.None? { return Raised(TypeError); }
    var n0inv := b - inv.value;
    var rr := Pow2(BitLength(key.modulus));
    rr := (rr * rr) % key.modulus;
    if key.numBits >= UINT32 { return Raised(StructError); }
    N0InvCorrect(key.modulus);
    var modulus := EncodeLong(key.numBits, key.modulus);
    if modulus.None? { return Raised(ValueError); }
    var montgomery := EncodeLong(key.numBits, rr);
    if montgomery.None? { return Raised(ValueError); }
    return Ok(BE(key.numBits, 4) + BE(n0inv, 4) + modulus.value + montgomery.value);
  }

  /** The modulus as verify_vbmeta_signature slices it out of the embedded key. */
  function EmbeddedModulus(blob: seq<byte>): Option<nat> {
    if |blob| < 4 then None
    else
      var len := DecodeBE(blob[0..4]) / 8;
      var end := if 8 + len <= |blob| then 8 + len else |blob|;
      Some(DecodeBE(if end <= 8 then [] else blob[8..end]))
  }

  lemma {:induction false} Pow256IsPow2(n: nat)
    ensures Pow256(n) == Pow2(8 * n)
  {
    if n > 0 {
      Pow256IsPow2(n - 1);
      var k := 8 * (n - 1);
      assert Pow2(k + 2) == 4 * Pow2(k);
      assert Pow2(k + 4) == 4 * Pow2(k + 2);
      assert Pow2(k + 6) == 4 * Pow2(k + 4);
      assert Pow2(k + 8) == 4 * Pow2(k + 6);
    }
  }

  lemma FourParts(a: seq<byte>, b: seq<byte>, c: seq<byte>, d: seq<byte>)
    ensures var s := a + b + c + d;
            var i, j, k := |a|, |a| + |b|, |a| + |b| + |c|;
            s[0..i] == a && s[i..j] == b && s[j..k] == c && s[k..] == d
  {
  }

  lemma KeyBlobFields(numBits: nat, n0inv: nat, modulus: nat, rr: nat, w: nat)
    requires numBits < UINT32 && n0inv < UINT32 && modulus < Pow256(w) && rr < Pow256(w)
    ensures var blob := BE(numBits, 4) + BE(n0inv, 4) + BE(modulus, w) + BE(rr, w);
            && |blob| == 8 + 2 * w
            && DecodeBE(blob[0..4]) == numBits && DecodeBE(blob[4..8]) == n0inv
            && DecodeBE(blob[8..8 + w]) == modulus && DecodeBE(blob[8 + w..]) == rr
  {
    Pow256Values();
    DecodeOfBE(numBits, 4);
    DecodeOfBE(n0inv, 4);
    DecodeOfBE(modulus, w);
    DecodeOfBE(rr, w);
    FourParts(BE(numBits, 4), BE(n0inv, 4), BE(modulus, w), BE(rr, w));
  }

  /**
   * For a modulus of at most num_bits bits the verifier decodes the modulus that was encoded, and
   * the two Montgomery constants that libavb reads are -1/N mod 2^32 and r^2 mod N.
   */
  lemma KeyBlobRoundTrip(key: PublicKey)
    requires key.modulus > 0 && KeyBlob(key).Some?
    requires key.modulus < Pow2(key.numBits)
    ensures var blob := KeyBlob(key).value; var w := key.numBits / 8;
            && |blob| == 8 + 2 * w
            && EmbeddedModulus(blob) == Some(key.modulus)
            && DecodeBE(blob[0..4]) == key.numBits
            && (DecodeBE(blob[4..8]) * key.modulus + 1) % UINT32 == 0
            && DecodeBE(blob[8 + w..]) == RRModN(key.modulus)
  {
    var w := key.numBits / 8;
    N0InvCorrect(key.modulus);
    Pow256IsPow2(w);
    KeyBlobFields(key.numBits, N0Inv(key.modulus).value, key.modulus, RRModN(key.modulus), w);
  }

  lemma {:induction false} Pow2OfSum(i: nat, j: nat)
    ensures Pow2(i + j) == Pow2(i) * Pow2(j)
  {
    if i > 0 {
      Pow2OfSum(i - 1, j);
    }
  }

  /**
   * The last number of a key blob, for a modulus that has the bits it claims: 2 to the power of twice their number,
   * modulo the modulus.
   */
  lemma MontgomeryConstant(key: PublicKey)
    requires key.modulus > 0 && KeyBlob(key).Some?
    requires key.numBits > 0 && Pow2(key.numBits - 1) <= key.modulus < Pow2(key.numBits)
    ensures var blob, w := KeyBlob(key).value, key.numBits / 8;
            && |blob| == 8 + 2 * w && DecodeBE(blob[8..8 + w]) == key.modulus
            && DecodeBE(blob[8 + w..8 + 2 * w]) == Pow2(2 * key.numBits) % key.modulus
  {
    hide KeyBlob, BitLength, Pow2;
    KeyBlobRoundTrip(key);
    BitsOf(key.modulus, key.numBits);
    Pow2OfSum(key.numBits, key.numBits);
    var blob, w := KeyBlob(key).value, key.numBits / 8;
    assert blob[8 + w..8 + 2 * w] == blob[8 + w..];
  }

  lemma BitsOf(a: nat, n: nat)
    requires n > 0 && Pow2(n - 1) <= a < Pow2(n)
    ensures BitLength(a) == n
  {
    hide BitLength;
    BitLengthBounds(a);
    if BitLength(a) < n {
      Pow2Monotone(BitLength(a), n - 1);
    } else if BitLength(a) > n {
      Pow2Monotone(n, BitLength(a) - 1);
    }
  }
}
