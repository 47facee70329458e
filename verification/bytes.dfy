/** Byte strings, rounding, and the fixed-width integer fields of Python's `struct` module. */
module Bytes {

  type byte = x: int | 0 <= x < 256

  const UINT32: nat := 0x1_0000_0000
  const UINT64: nat := 0x1_0000_0000_0000_0000

  lemma TakeMore<T>(s: seq<T>, i: nat)
    requires i < |s|
    ensures s[..i + 1] == s[..i] + [s[i]]
  {
  }

  lemma SliceOfSlice<T>(s: seq<T>, a: nat, b: nat, i: nat, j: nat)
    requires a <= b <= |s| && i <= j <= b - a
    ensures s[a..b][i..j] == s[a + i..a + j]
  {
    assert forall k :: 0 <= k < j - i ==> s[a..b][i..j][k] == s[a..b][i + k] == s[a + i + k];
  }

  lemma SliceJoin<T>(s: seq<T>, a: nat, b: nat, c: nat)
    requires a <= b <= c <= |s|
    ensures s[a..b] + s[b..c] == s[a..c]
  {
  }

  function Zeros(n: nat): (s: seq<byte>)
    ensures |s| == n
    ensures forall i :: 0 <= i < n ==> s[i] == 0
  {
    seq(n, _ => 0)
  }

  /** Python's s[i:j] for 0 <= i <= j: both ends stop at the end of the string. */
  function Slice(s: seq<byte>, i: nat, j: nat): (r: seq<byte>)
    requires i <= j
    ensures j <= |s| ==> r == s[i..j]
  {
    if i >= |s| then [] else if j > |s| then s[i..] else s[i..j]
  }

  /** The least multiple of `size` that is not below `number`. */
  function RoundToMultiple(number: nat, size: nat): (r: nat)
    requires size > 0
    ensures number <= r < number + size && r % size == 0
    ensures number % size == 0 ==> r == number
  {
    var remainder := number % size;
    if remainder == 0 then number
    else
      RoundUpIsMultiple(number, size);
      number + size - remainder
  }

  function CeilDiv(a: nat, b: nat): (q: nat)
    requires b > 0
  {
    (a + b - 1) / b
  }

  lemma RoundUpIsMultiple(number: nat, size: nat)
    requires size > 0
    ensures (number + size - number % size) % size == 0
  {
    var q := number / size;
    assert number + size - number % size == (q + 1) * size;
    MultipleMod(q + 1, size);
  }

  lemma {:induction false} MultipleMod(q: nat, size: nat)
    requires size > 0
    ensures (q * size) % size == 0 && (q * size) / size == q
  {
    if q > 0 {
      MultipleMod(q - 1, size);
      assert q * size == (q - 1) * size + size;
      ModAddSelf((q - 1) * size, size);
    }
  }

  lemma ModAddSelf(x: nat, size: nat)
    requires size > 0
    ensures (x + size) % size == x % size && (x + size) / size == x / size + 1
  {
    var q, r := x / size, x % size;
    assert x + size == (q + 1) * size + r;
    DivModUnique(x + size, size, q + 1, r);
  }

  lemma DivModUnique(x: nat, d: nat, q: int, r: nat)
    requires d > 0 && r < d && x == q * d + r
    ensures x / d == q && x % d == r
  {
    QuotientUnique(d, x / d, x % d, q, r);
  }

  lemma QuotientUnique(d: nat, q: int, r: nat, q': int, r': nat)
    requires r < d && r' < d && q * d + r == q' * d + r'
    ensures q == q' && r == r'
  {
    if q < q' {
      MulGap(q, q', d);
    } else if q' < q {
      MulGap(q', q, d);
    }
  }

  lemma MulGap(a: int, b: int, d: nat)
    requires a < b
    ensures b * d >= a * d + d
  {
    var k := b - a - 1;
    assert b * d == (a + 1 + k) * d == a * d + d + k * d;
  }

  lemma DivAtLeast(y: nat, b: nat, k: nat)
    requires b > 0 && k * b <= y
    ensures k <= y / b
  {
    if y / b < k { MulGap(y / b, k, b); }
  }

  /** The size of `blocks` blocks: their product, by repeated addition so that most proofs stay linear. */
  function Span(blocks: nat, blockSize: nat): (size: nat) {
    if blocks == 0 then 0 else Span(blocks - 1, blockSize) + blockSize
  }

  lemma {:induction false} SpanIsProduct(blocks: nat, blockSize: nat)
    ensures Span(blocks, blockSize) == blocks * blockSize
  {
    if blocks > 0 {
      SpanIsProduct(blocks - 1, blockSize);
      assert blocks * blockSize == (blocks - 1) * blockSize + blockSize;
    }
  }

  lemma {:induction false} SpanOfSum(a: nat, b: nat, blockSize: nat)
    ensures Span(a + b, blockSize) == Span(a, blockSize) + Span(b, blockSize)
  {
    if b > 0 {
      SpanOfSum(a, b - 1, blockSize);
    }
  }

  /** `s` followed by zero bytes up to a multiple of `size`. */
  function PadTo(s: seq<byte>, size: nat): (r: seq<byte>)
    requires size > 0
    ensures |r| == RoundToMultiple(|s|, size) && s <= r
  {
    s + Zeros(RoundToMultiple(|s|, size) - |s|)
  }

  /** struct's '32s' and the like: cut or zero-filled to `n` bytes. */
  function Fixed(s: seq<byte>, n: nat): (r: seq<byte>)
    ensures |r| == n
  {
    if |s| >= n then s[..n] else s + Zeros(n - |s|)
  }

  function Pow256(n: nat): (p: nat)
    ensures p > 0
  {
    if n == 0 then 1 else 256 * Pow256(n - 1)
  }

  // ------------------------------------------------------------- writing in place

  /** `mem` with `data` written over it at index `at`. */
  function Write(mem: seq<byte>, at: nat, data: seq<byte>): (r: seq<byte>)
    requires at + |data| <= |mem|
    ensures |r| == |mem|
  {
    seq(|mem|, i requires 0 <= i < |mem| => if at <= i < at + |data| then data[i - at] else mem[i])
  }

  lemma WriteParts(mem: seq<byte>, at: nat, data: seq<byte>, from: nat)
    requires from <= at && at + |data| <= |mem|
    ensures var r := Write(mem, at, data);
            && r[..from] == mem[..from]
            && r[from..at] == mem[from..at]
            && r[at..at + |data|] == data
            && r[from..at + |data|] == mem[from..at] + data
  {
  }

  lemma WriteAtFront(mem: seq<byte>, data: seq<byte>)
    requires |data| <= |mem|
    ensures Write(mem, 0, data) == data + mem[|data|..]
  {
  }

  method WriteInto(mem: array<byte>, at: nat, data: seq<byte>)
    requires at + |data| <= mem.Length
    modifies mem
    ensures mem[..] == Write(old(mem[..]), at, data)
  {
    for i := 0 to |data|
      invariant mem[..at] == old(mem[..at])
      invariant mem[at..at + i] == data[..i]
      invariant mem[at + i..] == old(mem[at + i..])
    {
      mem[at + i] := data[i];
    }
    assert mem[..] == mem[..at] + mem[at..at + |data|] + mem[at + |data|..];
  }

  // --------------------------------------------------------- integer fields

  /** Big-endian encoding of `v` modulo 256^n in `n` bytes. */
  function BE(v: nat, n: nat): (s: seq<byte>)
    ensures |s| == n
    decreases n, v
  {
    if n == 0 then [] else BE(v / 256, n - 1) + [v % 256]
  }

  function DecodeBE(s: seq<byte>): (v: nat)
  {
    if s == [] then 0 else DecodeBE(s[..|s| - 1]) * 256 + s[|s| - 1]
  }

  /** Little-endian encoding of `v` modulo 256^n in `n` bytes. */
  function LE(v: nat, n: nat): (s: seq<byte>)
    ensures |s| == n
    decreases n, v
  {
    if n == 0 then [] else [v % 256] + LE(v / 256, n - 1)
  }

  function DecodeLE(s: seq<byte>): (v: nat)
  {
    if s == [] then 0 else s[0] + 256 * DecodeLE(s[1..])
  }

  lemma {:induction false} DecodeOfBE(v: nat, n: nat)
    requires v < Pow256(n)
    ensures DecodeBE(BE(v, n)) == v
  {
    if n > 0 {
      DecodeOfBE(v / 256, n - 1);
      assert BE(v, n)[..n - 1] == BE(v / 256, n - 1);
    }
  }

  lemma {:induction false} BEOfDecode(s: seq<byte>)
    ensures DecodeBE(s) < Pow256(|s|)
    ensures BE(DecodeBE(s), |s|) == s
  {
    if s != [] {
      var front := s[..|s| - 1];
      BEOfDecode(front);
      assert s == front + [s[|s| - 1]];
    }
  }

  lemma {:induction false} DecodeOfLE(v: nat, n: nat)
    requires v < Pow256(n)
    ensures DecodeLE(LE(v, n)) == v
  {
    if n > 0 {
      DecodeOfLE(v / 256, n - 1);
      assert LE(v, n)[1..] == LE(v / 256, n - 1);
    }
  }

  lemma {:induction false} LEOfDecode(s: seq<byte>)
    ensures DecodeLE(s) < Pow256(|s|)
    ensures LE(DecodeLE(s), |s|) == s
  {
    if s != [] {
      LEOfDecode(s[1..]);
      assert s == [s[0]] + s[1..];
    }
  }

  /** A little-endian field: its first byte counts least. */
  lemma LittleEndian(s: seq<byte>)
    ensures |s| == 2 ==> DecodeLE(s) == s[0] as int + 0x100 * s[1] as int
    ensures |s| == 4 ==>
              DecodeLE(s) == s[0] as int + 0x100 * s[1] as int + 0x1_0000 * s[2] as int + 0x100_0000 * s[3] as int
  {
    if |s| == 2 {
      assert DecodeLE(s[1..]) == s[1] + 256 * DecodeLE(s[1..][1..]);
    } else if |s| == 4 {
      LittleEndian(s[2..]);
      assert s[1..][1..] == s[2..] && DecodeLE(s[1..]) == s[1] + 256 * DecodeLE(s[2..]);
    }
  }

  /** A big-endian field: its first byte counts most. */
  lemma BigEndian(s: seq<byte>)
    ensures |s| == 4 ==>
              DecodeBE(s) == 0x100_0000 * s[0] as int + 0x1_0000 * s[1] as int + 0x100 * s[2] as int + s[3] as int
    ensures |s| == 8 ==> DecodeBE(s) == UINT32 * DecodeBE(s[..4]) + DecodeBE(s[4..])
  {
    if |s| == 4 {
      assert s[..3][..2] == s[..2] && s[..2][..1] == s[..1] && s[..1][..0] == [];
      assert DecodeBE(s[..3]) == DecodeBE(s[..2]) * 256 + s[2] && DecodeBE(s[..2]) == DecodeBE(s[..1]) * 256 + s[1];
      assert DecodeBE(s[..1]) == s[0];
    } else if |s| == 8 {
      DecodeSum(s[..4], s[4..]);
      Pow256Values();
      assert s == s[..4] + s[4..];
    }
  }

  lemma {:induction false} DecodeSum(a: seq<byte>, b: seq<byte>)
    ensures DecodeBE(a + b) == DecodeBE(a) * Pow256(|b|) + DecodeBE(b)
  {
    if b == [] {
      assert a + b == a;
    } else {
      var front := b[..|b| - 1];
      DecodeSum(a, front);
      assert (a + b)[..|a + b| - 1] == a + front;
      assert DecodeBE(a) * Pow256(|front|) * 256 == DecodeBE(a) * Pow256(|b|);
    }
  }

  lemma Pow256Values()
    ensures Pow256(2) == 0x1_0000
    ensures Pow256(4) == UINT32
    ensures Pow256(8) == UINT64
  {
    assert Pow256(1) == 256;
    assert Pow256(3) == 256 * Pow256(2);
    assert Pow256(5) == 256 * Pow256(4);
    assert Pow256(6) == 256 * Pow256(5);
    assert Pow256(7) == 256 * Pow256(6);
  }

  // -------------------------------------------------------- packed records

  function Sum(widths: seq<nat>): (n: nat)
  {
    if widths == [] then 0 else widths[0] + Sum(widths[1..])
  }

  function Concat(fields: seq<seq<byte>>): (s: seq<byte>)
  {
    if fields == [] then [] else fields[0] + Concat(fields[1..])
  }

  /** Cuts a record into consecutive fields of the given widths. */
  function Split(widths: seq<nat>, s: seq<byte>): (fields: seq<seq<byte>>)
    requires |s| == Sum(widths)
    ensures |fields| == |widths|
    ensures forall i :: 0 <= i < |widths| ==> |fields[i]| == widths[i]
  {
    if widths == [] then []
    else [s[..widths[0]]] + Split(widths[1..], s[widths[0]..])
  }

  ghost predicate Fits(widths: seq<nat>, fields: seq<seq<byte>>)
  {
    |fields| == |widths| && forall i :: 0 <= i < |widths| ==> |fields[i]| == widths[i]
  }

  lemma {:induction false} SplitOfConcat(widths: seq<nat>, fields: seq<seq<byte>>)
    requires Fits(widths, fields)
    ensures |Concat(fields)| == Sum(widths)
    ensures Split(widths, Concat(fields)) == fields
  {
    if widths != [] {
      SplitOfConcat(widths[1..], fields[1..]);
      assert Concat(fields)[..widths[0]] == fields[0];
      assert Concat(fields)[widths[0]..] == Concat(fields[1..]);
    }
  }

  /** Splitting finds each field behind the widths of the fields before it. */
  lemma {:induction false} FieldAt(widths: seq<nat>, s: seq<byte>, i: nat)
    requires |s| == Sum(widths) && i < |widths|
    ensures Sum(widths[..i]) + widths[i] <= |s|
    ensures Split(widths, s)[i] == s[Sum(widths[..i])..Sum(widths[..i]) + widths[i]]
  {
    hide Sum, Split;
    if i == 0 {
      FirstField(widths, s);
    } else {
      LaterField(widths, s, i);
      FieldAt(widths[1..], s[widths[0]..], i - 1);
      SliceOfRest(s, widths[0], Sum(widths[1..][..i - 1]), widths[i]);
    }
  }

  lemma FirstField(widths: seq<nat>, s: seq<byte>)
    requires |s| == Sum(widths) && widths != []
    ensures Sum(widths[..0]) == 0 && widths[0] <= |s|
    ensures Split(widths, s)[0] == s[0..widths[0]]
  {
    assert widths[..0] == [];
  }

  lemma LaterField(widths: seq<nat>, s: seq<byte>, i: nat)
    requires |s| == Sum(widths) && 0 < i < |widths|
    ensures widths[0] <= |s| && |s[widths[0]..]| == Sum(widths[1..])
    ensures Split(widths, s)[i] == Split(widths[1..], s[widths[0]..])[i - 1]
    ensures Sum(widths[..i]) == widths[0] + Sum(widths[1..][..i - 1])
  {
    assert widths[..i][1..] == widths[1..][..i - 1];
  }

  lemma SliceOfRest(s: seq<byte>, w: nat, at: nat, n: nat)
    requires w + at + n <= |s|
    ensures s[w..][at..at + n] == s[w + at..w + at + n]
  {
  }

  lemma {:induction false} SumOfFront(widths: seq<nat>, i: nat)
    requires i < |widths|
    ensures Sum(widths[..i + 1]) == Sum(widths[..i]) + widths[i]
  {
    if i == 0 {
      assert widths[..0] == [] && widths[..1] == [widths[0]] && [widths[0]][1..] == [];
    } else {
      SumOfFront(widths[1..], i - 1);
      assert widths[..i + 1][1..] == widths[1..][..i] && widths[..i][1..] == widths[1..][..i - 1];
    }
  }

  /** Field `i` of the record in front of `s` lies at `at`, and the next one behind it. */
  lemma NextField(widths: seq<nat>, fields: seq<seq<byte>>, s: seq<byte>, i: nat, at: nat)
    requires i < |widths| == |fields| && Sum(widths) <= |s| && Split(widths, s[..Sum(widths)]) == fields
    requires at == Sum(widths[..i])
    ensures at + widths[i] == Sum(widths[..i + 1]) && at + widths[i] <= |s|
    ensures s[at..at + widths[i]] == fields[i]
  {
    hide Sum, Split;
    FieldAt(widths, s[..Sum(widths)], i);
    SumOfFront(widths, i);
    SliceOfSlice(s, 0, Sum(widths), at, at + widths[i]);
    assert s[0..Sum(widths)] == s[..Sum(widths)];
  }

  lemma NoWidths(widths: seq<nat>)
    ensures Sum(widths[..0]) == 0
  {
    assert widths[..0] == [];
  }
}
