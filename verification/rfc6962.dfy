/**
 * Inclusion proofs over a Merkle tree: the bit-level verifier of avbtool against the recursive
 * definitions of sections 2.1 and 2.1.1 of RFC 6962.
 *
 * The hash function is a parameter.  Nothing is assumed about it but, where stated, its output
 * length; soundness therefore hands back two different inputs with equal hashes.
 */
module Rfc6962 {
  import opened Bits
  import opened Bytes
  import opened Hashing
  import opened Wrappers

  function LeafInput(leaf: seq<byte>): seq<byte> { [0] + leaf }

  function ChildrenInput(l: Digest, r: Digest): seq<byte> { [1] + l + r }

  function HashLeaf(hash: HashFn, leaf: seq<byte>): Digest { hash(LeafInput(leaf)) }

  function HashChildren(hash: HashFn, l: Digest, r: Digest): Digest { hash(ChildrenInput(l, r)) }

  // ------------------------------------------ the recursive definitions of RFC 6962

  /** 2^SplitExponent(n) is the largest power of two strictly below n. */
  function SplitExponent(n: nat): (j: nat)
    requires n >= 2
    ensures Pow2(j) < n <= Pow2(j + 1)
  {
    if n == 2 then 0 else 1 + SplitExponent((n + 1) / 2)
  }

  /** MTH(D[n]) of section 2.1, for a non-empty list. */
  function TreeHash(hash: HashFn, leaves: seq<seq<byte>>): Digest
    requires leaves != []
  {
    if |leaves| == 1 then HashLeaf(hash, leaves[0])
    else
      var k := Pow2(SplitExponent(|leaves|));
      HashChildren(hash, TreeHash(hash, leaves[..k]), TreeHash(hash, leaves[k..]))
  }

  /** PATH(m, D[n]) of section 2.1.1. */
  function AuditPath(hash: HashFn, m: nat, leaves: seq<seq<byte>>): seq<Digest>
    requires m < |leaves|
    decreases |leaves|
  {
    if |leaves| == 1 then []
    else
      var k := Pow2(SplitExponent(|leaves|));
      if m < k then AuditPath(hash, m, leaves[..k]) + [TreeHash(hash, leaves[k..])]
      else AuditPath(hash, m - k, leaves[k..]) + [TreeHash(hash, leaves[..k])]
  }

  // ------------------------------------------------- the verifier's bit operations

  function BitXor(a: nat, b: nat): nat {
    if a == 0 && b == 0 then 0
    else (if a % 2 == b % 2 then 0 else 1) + 2 * BitXor(a / 2, b / 2)
  }

  function PopCount(a: nat): nat {
    if a == 0 then 0 else a % 2 + PopCount(a / 2)
  }

  /** Where the verifier cuts the proof: below this level the two paths to m and to n-1 differ. */
  function InnerLength(m: nat, n: nat): nat
    requires m < n
  {
    BitLength(BitXor(m, n - 1))
  }

  /** The proof length RFC 6962 prescribes for leaf m of n. */
  function ProofLength(m: nat, n: nat): nat
    requires m < n
  {
    InnerLength(m, n) + PopCount(ShiftRight(m, InnerLength(m, n)))
  }

  // -------------------------------------------------------------------- the folds

  function ChainBorder(hash: HashFn, seed: Digest, proof: seq<Digest>): Digest
    decreases |proof|
  {
    if proof == [] then seed
    else ChainBorder(hash, HashChildren(hash, proof[0], seed), proof[1..])
  }

  function Combine(hash: HashFn, seed: Digest, h: Digest, right: bool): Digest {
    if right then HashChildren(hash, h, seed) else HashChildren(hash, seed, h)
  }

  function ChainIn(hash: HashFn, seed: Digest, proof: seq<Digest>, m: nat): Digest
    decreases |proof|
  {
    if proof == [] then seed
    else ChainIn(hash, Combine(hash, seed, proof[0], m % 2 == 1), proof[1..], m / 2)
  }

  /** The digest that `RootFromIcp` computes for in-range arguments. */
  function FoldedRoot(hash: HashFn, m: nat, n: nat, proof: seq<Digest>, leafHash: Digest): Digest
    requires m < n
  {
    var cut := if InnerLength(m, n) <= |proof| then InnerLength(m, n) else |proof|;
    ChainBorder(hash, ChainIn(hash, leafHash, proof[..cut], m), proof[cut..])
  }

  method ChainBorderRight(hash: HashFn, seed: Digest, proof: seq<Digest>) returns (r: Digest)
    ensures r == ChainBorder(hash, seed, proof)
  {
    r := seed;
    for i := 0 to |proof|
      invariant ChainBorder(hash, r, proof[i..]) == ChainBorder(hash, seed, proof)
    {
      assert proof[i..][1..] == proof[i + 1..];
      r := HashChildren(hash, proof[i], r);
    }
  }

  method ChainInner(hash: HashFn, seed: Digest, proof: seq<Digest>, leafIndex: nat) returns (r: Digest)
    ensures r == ChainIn(hash, seed, proof, leafIndex)
  {
    r := seed;
    for i := 0 to |proof|
      invariant ChainIn(hash, r, proof[i..], ShiftRight(leafIndex, i))
             == ChainIn(hash, seed, proof, leafIndex)
    {
      assert proof[i..][1..] == proof[i + 1..];
      ShiftRightStep(leafIndex, i);
      if ShiftRight(leafIndex, i) % 2 == 0 {
        r := HashChildren(hash, r, proof[i]);
      } else {
        r := HashChildren(hash, proof[i], r);
      }
    }
  }

  method RootFromIcp(hash: HashFn, leafIndex: int, treeSize: int, proof: seq<Digest>, leafHash: Digest)
    returns (r: Result<Digest>)
    ensures if 0 <= leafIndex < treeSize then r.Ok? else r == Raised(AvbError)
    ensures r.Ok? ==> r.value == FoldedRoot(hash, leafIndex, treeSize, proof, leafHash)
  {
    if leafIndex < 0 { return Raised(AvbError); }
    if treeSize < 0 { return Raised(AvbError); }
    if leafIndex >= treeSize { return Raised(AvbError); }
    var inner := BitLength(BitXor(leafIndex, treeSize - 1));
    var cut := if inner <= |proof| then inner else |proof|;
    var result := ChainInner(hash, leafHash, proof[..cut], leafIndex);
    result := ChainBorderRight(hash, result, proof[cut..]);
    return Ok(result);
  }

  // ------------------------------------------------------------- facts about bits

  lemma {:induction false} XorBelow(a: nat, b: nat, j: nat)
    requires a < Pow2(j) && b < Pow2(j)
    ensures BitLength(BitXor(a, b)) <= j
  {
    if j > 0 {
      XorBelow(a / 2, b / 2, j - 1);
    }
  }

  lemma {:induction false} XorTopBitDiffers(a: nat, b: nat, j: nat)
    requires a < Pow2(j) && b < Pow2(j)
    ensures BitLength(BitXor(a, b + Pow2(j))) == j + 1
  {
    if j > 0 {
      XorTopBitDiffers(a / 2, b / 2, j - 1);
      var c := b + Pow2(j);
      assert c / 2 == b / 2 + Pow2(j - 1) && c > 0;
      assert BitXor(a, c) / 2 == BitXor(a / 2, c / 2) && BitXor(a, c) > 0;
    }
  }

  lemma {:induction false} XorTopBitAgrees(a: nat, b: nat, j: nat)
    requires a < Pow2(j) && b < Pow2(j)
    ensures BitXor(a + Pow2(j), b + Pow2(j)) == BitXor(a, b)
  {
    if j > 0 {
      XorTopBitAgrees(a / 2, b / 2, j - 1);
      assert (a + Pow2(j)) / 2 == a / 2 + Pow2(j - 1);
      assert (b + Pow2(j)) / 2 == b / 2 + Pow2(j - 1);
    } else {
      assert BitXor(1, 1) == 2 * BitXor(0, 0);
    }
  }

  lemma {:induction false} PopCountTopBit(a: nat, j: nat)
    requires a < Pow2(j)
    ensures PopCount(a + Pow2(j)) == PopCount(a) + 1
  {
    if j > 0 {
      PopCountTopBit(a / 2, j - 1);
      assert (a + Pow2(j)) / 2 == a / 2 + Pow2(j - 1);
    }
  }

  lemma {:induction false} ShiftedPopCountTopBit(a: nat, j: nat, i: nat)
    requires a < Pow2(j) && i <= j
    ensures PopCount(ShiftRight(a + Pow2(j), i)) == PopCount(ShiftRight(a, i)) + 1
  {
    if i == 0 {
      PopCountTopBit(a, j);
    } else {
      ShiftedPopCountTopBit(a / 2, j - 1, i - 1);
      assert (a + Pow2(j)) / 2 == a / 2 + Pow2(j - 1);
    }
  }

  lemma {:induction false} ShiftAllOut(a: nat, j: nat)
    requires a < Pow2(j)
    ensures ShiftRight(a, j) == 0
  {
    if j > 0 {
      ShiftAllOut(a / 2, j - 1);
    }
  }

  // ----------------------------------------------------------- facts about the folds

  lemma {:induction false} ChainBorderLast(hash: HashFn, seed: Digest, proof: seq<Digest>, h: Digest)
    ensures ChainBorder(hash, seed, proof + [h]) == HashChildren(hash, h, ChainBorder(hash, seed, proof))
    decreases |proof|
  {
    if proof != [] {
      assert (proof + [h])[1..] == proof[1..] + [h];
      ChainBorderLast(hash, HashChildren(hash, proof[0], seed), proof[1..], h);
    } else {
      assert (proof + [h])[1..] == [];
    }
  }

  lemma {:induction false} ChainInLast(hash: HashFn, seed: Digest, proof: seq<Digest>, h: Digest, m: nat)
    ensures ChainIn(hash, seed, proof + [h], m)
         == Combine(hash, ChainIn(hash, seed, proof, m), h, ShiftRight(m, |proof|) % 2 == 1)
    decreases |proof|
  {
    if proof != [] {
      assert (proof + [h])[1..] == proof[1..] + [h];
      ChainInLast(hash, Combine(hash, seed, proof[0], m % 2 == 1), proof[1..], h, m / 2);
    } else {
      assert (proof + [h])[1..] == [];
    }
  }

  /** Bits of the index above the chain do not matter. */
  lemma {:induction false} ChainInLowBits(hash: HashFn, seed: Digest, proof: seq<Digest>, m: nat, j: nat)
    requires m < Pow2(j) && |proof| <= j
    ensures ChainIn(hash, seed, proof, m + Pow2(j)) == ChainIn(hash, seed, proof, m)
    decreases |proof|
  {
    if proof != [] {
      assert (m + Pow2(j)) / 2 == m / 2 + Pow2(j - 1);
      assert (m + Pow2(j)) % 2 == m % 2;
      ChainInLowBits(hash, Combine(hash, seed, proof[0], m % 2 == 1), proof[1..], m / 2, j - 1);
    }
  }

  /** In a perfect tree, the level below has one inner digest less, or both have none. */
  lemma PerfectInner(m: nat, j: nat)
    requires j > 0 && m < Pow2(j)
    ensures m / 2 < Pow2(j - 1)
    ensures var inner, below := InnerLength(m, Pow2(j)), InnerLength(m / 2, Pow2(j - 1));
            if inner > 0 then below == inner - 1 else m % 2 == 1 && below == 0
    ensures InnerLength(m, Pow2(j)) <= j
  {
    var top := Pow2(j) - 1;
    XorBelow(m, top, j);
    assert top / 2 == Pow2(j - 1) - 1 && top % 2 == 1;
    assert m == top || BitXor(m, top) / 2 == BitXor(m / 2, top / 2);
  }

  /** A proof in a perfect tree has one digest for each of the j levels. */
  lemma {:induction false} PerfectProofLength(m: nat, j: nat)
    requires m < Pow2(j)
    ensures ProofLength(m, Pow2(j)) == j
  {
    if j > 0 {
      hide InnerLength;
      PerfectInner(m, j);
      PerfectProofLength(m / 2, j - 1);
    }
  }

  /** In a perfect tree the verifier's two folds amount to one chain over all j levels. */
  lemma {:induction false} PerfectTreeFold(hash: HashFn, m: nat, j: nat, proof: seq<Digest>, seed: Digest)
    requires m < Pow2(j) && |proof| == j
    ensures FoldedRoot(hash, m, Pow2(j), proof, seed) == ChainIn(hash, seed, proof, m)
  {
    if j > 0 {
      hide InnerLength, HashChildren;
      PerfectInner(m, j);
      PerfectTreeFold(hash, m / 2, j - 1, proof[1..], Combine(hash, seed, proof[0], m % 2 == 1));
      var inner := InnerLength(m, Pow2(j));
      if inner > 0 {
        assert proof[..inner][1..] == proof[1..][..inner - 1] && proof[inner..] == proof[1..][inner - 1..];
      } else {
        assert proof[..0] == proof[1..][..0] == [] && proof[0..] == proof && proof[1..][0..] == proof[1..];
      }
    } else {
      assert proof == [];
    }
  }

  /** A leaf in the left (perfect) subtree has one digest more, and all of them are inner. */
  lemma LengthLeft(m: nat, n: nat)
    requires n >= 2 && m < Pow2(SplitExponent(n))
    ensures var j := SplitExponent(n);
            InnerLength(m, n) == j + 1 == ProofLength(m, n) && ProofLength(m, Pow2(j)) == j
  {
    hide BitXor, ShiftRight, BitLength, Pow2;
    var j := SplitExponent(n);
    PerfectProofLength(m, j);
    XorTopBitDiffers(m, n - 1 - Pow2(j), j);
    ShiftAllOut(m, j);
    ShiftRightStep(m, j);
  }

  /** A leaf in the right subtree has as many inner digests there, and one digest more in all. */
  lemma LengthRight(m: nat, n: nat)
    requires n >= 2 && Pow2(SplitExponent(n)) <= m < n
    ensures var j := SplitExponent(n);
            && InnerLength(m, n) == InnerLength(m - Pow2(j), n - Pow2(j)) <= j && m - Pow2(j) < Pow2(j)
            && ProofLength(m, n) == ProofLength(m - Pow2(j), n - Pow2(j)) + 1
  {
    hide PopCount, Pow2, BitXor, ShiftRight, BitLength;
    var j := SplitExponent(n);
    var m', n' := m - Pow2(j), n - Pow2(j);
    XorBelow(m', n' - 1, j);
    XorTopBitAgrees(m', n' - 1, j);
    assert InnerLength(m' + Pow2(j), n) == InnerLength(m', n');
    ShiftedPopCountTopBit(m', j, InnerLength(m', n'));
  }

  lemma ProofLengthStep(m: nat, n: nat)
    requires n >= 2 && m < n
    ensures var k := Pow2(SplitExponent(n));
            ProofLength(m, n) == 1 + if m < k then ProofLength(m, k) else ProofLength(m - k, n - k)
  {
    if m < Pow2(SplitExponent(n)) { LengthLeft(m, n); } else { LengthRight(m, n); }
  }

  /** The last proof element when the leaf lies in the left subtree. */
  lemma FoldLeft(hash: HashFn, m: nat, n: nat, proof: seq<Digest>, h: Digest, seed: Digest)
    requires n >= 2
    requires m < Pow2(SplitExponent(n)) && |proof| == ProofLength(m, Pow2(SplitExponent(n)))
    ensures FoldedRoot(hash, m, n, proof + [h], seed)
         == HashChildren(hash, FoldedRoot(hash, m, Pow2(SplitExponent(n)), proof, seed), h)
    ensures ProofLength(m, n) == |proof| + 1
  {
    hide InnerLength, ProofLength, Pow2, SplitExponent;
    var j := SplitExponent(n);
    LengthLeft(m, n);
    PerfectTreeFold(hash, m, j, proof, seed);
    ShiftAllOut(m, j);
    ChainInLast(hash, seed, proof, h, m);
    assert (proof + [h])[..j + 1] == proof + [h];
    assert (proof + [h])[j + 1..] == [];
  }

  /** The last proof element when the leaf lies in the right subtree. */
  lemma FoldRight(hash: HashFn, m: nat, n: nat, proof: seq<Digest>, h: Digest, seed: Digest)
    requires n >= 2
    requires Pow2(SplitExponent(n)) <= m < n
    requires |proof| == ProofLength(m - Pow2(SplitExponent(n)), n - Pow2(SplitExponent(n)))
    ensures FoldedRoot(hash, m, n, proof + [h], seed)
         == HashChildren(hash, h, FoldedRoot(hash, m - Pow2(SplitExponent(n)), n - Pow2(SplitExponent(n)), proof, seed))
    ensures ProofLength(m, n) == |proof| + 1
  {
    hide ChainIn, ChainBorder, Pow2, InnerLength, PopCount, ShiftRight, SplitExponent;
    var j := SplitExponent(n);
    var m', n' := m - Pow2(j), n - Pow2(j);
    LengthRight(m, n);
    var i := InnerLength(m', n');
    var low := proof[..i];
    ChainInLowBits(hash, seed, low, m', j);
    assert (proof + [h])[..i] == low;
    assert (proof + [h])[i..] == proof[i..] + [h];
    ChainBorderLast(hash, ChainIn(hash, seed, low, m'), proof[i..], h);
  }

  // ------------------------------------------------------------------ main theorems

  lemma NoProof()
    ensures ProofLength(0, 1) == 0
  {
  }

  /** A path has the length inner + popcount(m >> inner). */
  lemma {:induction false} AuditPathLength(hash: HashFn, m: nat, leaves: seq<seq<byte>>)
    requires m < |leaves|
    ensures |AuditPath(hash, m, leaves)| == ProofLength(m, |leaves|)
    decreases |leaves|
  {
    hide ProofLength, TreeHash, Pow2, SplitExponent;
    var n := |leaves|;
    if n == 1 {
      NoProof();
    } else {
      var k := Pow2(SplitExponent(n));
      ProofLengthStep(m, n);
      if m < k {
        AuditPathLength(hash, m, leaves[..k]);
        assert ProofLength(m, n) == |AuditPath(hash, m, leaves[..k])| + 1;
        assert |AuditPath(hash, m, leaves)| == |AuditPath(hash, m, leaves[..k])| + 1;
      } else {
        AuditPathLength(hash, m - k, leaves[k..]);
        assert |AuditPath(hash, m, leaves)| == |AuditPath(hash, m - k, leaves[k..])| + 1;
      }
    }
  }

  /** Completeness: the RFC's own path always folds to the RFC's root. */
  lemma {:induction false} Completeness(hash: HashFn, m: nat, leaves: seq<seq<byte>>)
    requires m < |leaves|
    ensures FoldedRoot(hash, m, |leaves|, AuditPath(hash, m, leaves), HashLeaf(hash, leaves[m]))
         == TreeHash(hash, leaves)
    decreases |leaves|
  {
    hide FoldedRoot, ProofLength, TreeHash, HashLeaf, Pow2, SplitExponent;
    var n := |leaves|;
    if n == 1 {
      SingleLeaf(hash, leaves);
    } else {
      var k := Pow2(SplitExponent(n));
      var left, right := leaves[..k], leaves[k..];
      if m < k {
        Completeness(hash, m, left);
        AuditPathLength(hash, m, left);
        CompletenessLeft(hash, m, leaves, AuditPath(hash, m, left));
      } else {
        Completeness(hash, m - k, right);
        AuditPathLength(hash, m - k, right);
        CompletenessRight(hash, m, leaves, AuditPath(hash, m - k, right));
      }
    }
  }

  lemma SingleLeaf(hash: HashFn, leaves: seq<seq<byte>>)
    requires |leaves| == 1
    ensures FoldedRoot(hash, 0, 1, [], HashLeaf(hash, leaves[0])) == TreeHash(hash, leaves)
  {
  }

  lemma CompletenessLeft(hash: HashFn, m: nat, leaves: seq<seq<byte>>, path: seq<Digest>)
    requires |leaves| >= 2 && m < Pow2(SplitExponent(|leaves|))
    requires var k := Pow2(SplitExponent(|leaves|));
             && |path| == ProofLength(m, k)
             && FoldedRoot(hash, m, k, path, HashLeaf(hash, leaves[m])) == TreeHash(hash, leaves[..k])
    ensures var k := Pow2(SplitExponent(|leaves|));
            FoldedRoot(hash, m, |leaves|, path + [TreeHash(hash, leaves[k..])], HashLeaf(hash, leaves[m]))
            == TreeHash(hash, leaves)
  {
    hide FoldedRoot, ProofLength, HashLeaf, SplitExponent, Pow2, TreeHash, HashChildren;
    TreeHashSplits(hash, leaves);
    var k := Pow2(SplitExponent(|leaves|));
    FoldLeft(hash, m, |leaves|, path, TreeHash(hash, leaves[k..]), HashLeaf(hash, leaves[m]));
  }

  lemma CompletenessRight(hash: HashFn, m: nat, leaves: seq<seq<byte>>, path: seq<Digest>)
    requires |leaves| >= 2 && Pow2(SplitExponent(|leaves|)) <= m < |leaves|
    requires var k := Pow2(SplitExponent(|leaves|));
             && |path| == ProofLength(m - k, |leaves| - k)
             && FoldedRoot(hash, m - k, |leaves| - k, path, HashLeaf(hash, leaves[m])) == TreeHash(hash, leaves[k..])
    ensures var k := Pow2(SplitExponent(|leaves|));
            FoldedRoot(hash, m, |leaves|, path + [TreeHash(hash, leaves[..k])], HashLeaf(hash, leaves[m]))
            == TreeHash(hash, leaves)
  {
    hide FoldedRoot, ProofLength, HashLeaf, SplitExponent, Pow2, TreeHash, HashChildren;
    TreeHashSplits(hash, leaves);
    var k := Pow2(SplitExponent(|leaves|));
    FoldRight(hash, m, |leaves|, path, TreeHash(hash, leaves[..k]), HashLeaf(hash, leaves[m]));
  }

  /**
   * Walks from the root towards leaf m and returns the first pair of node inputs, one from the
   * proof and one from the tree, that differ.
   */
  function FindCollision(hash: HashFn, m: nat, leaves: seq<seq<byte>>, proof: seq<Digest>, leafHash: Digest): Collision
    requires m < |leaves| && |proof| == ProofLength(m, |leaves|)
    decreases |leaves|
  {
    var n := |leaves|;
    if n == 1 then NoCollision
    else
      ProofLengthStep(m, n);
      var k := Pow2(SplitExponent(n));
      var rest, h := proof[..|proof| - 1], proof[|proof| - 1];
      var left, right := TreeHash(hash, leaves[..k]), TreeHash(hash, leaves[k..]);
      if m < k then
        var given := ChildrenInput(FoldedRoot(hash, m, k, rest, leafHash), h);
        if given != ChildrenInput(left, right) then Collision(given, ChildrenInput(left, right))
        else FindCollision(hash, m, leaves[..k], rest, leafHash)
      else
        var given := ChildrenInput(h, FoldedRoot(hash, m - k, n - k, rest, leafHash));
        if given != ChildrenInput(left, right) then Collision(given, ChildrenInput(left, right))
        else FindCollision(hash, m - k, leaves[k..], rest, leafHash)
  }

  lemma ChildrenInputInjective(a: Digest, b: Digest, c: Digest, d: Digest)
    requires |a| == |c| && ChildrenInput(a, b) == ChildrenInput(c, d)
    ensures a == c && b == d
  {
    assert a == ChildrenInput(a, b)[1..1 + |a|];
    assert c == ChildrenInput(c, d)[1..1 + |c|];
    assert b == ChildrenInput(a, b)[1 + |a|..];
    assert d == ChildrenInput(c, d)[1 + |c|..];
  }

  lemma TreeHashSplits(hash: HashFn, leaves: seq<seq<byte>>)
    requires |leaves| >= 2
    ensures var k := Pow2(SplitExponent(|leaves|));
            TreeHash(hash, leaves) == HashChildren(hash, TreeHash(hash, leaves[..k]), TreeHash(hash, leaves[k..]))
  {
  }

  lemma TreeHashLength(hash: HashFn, leaves: seq<seq<byte>>, w: nat)
    requires leaves != [] && OutputLength(hash, w)
    ensures |TreeHash(hash, leaves)| == w
  {
  }

  lemma FoldedRootLength(hash: HashFn, m: nat, n: nat, proof: seq<Digest>, leafHash: Digest, w: nat)
    requires m < n && OutputLength(hash, w) && |leafHash| == w
    ensures |FoldedRoot(hash, m, n, proof, leafHash)| == w
  {
    var cut := if InnerLength(m, n) <= |proof| then InnerLength(m, n) else |proof|;
    ChainInLength(hash, leafHash, proof[..cut], m, w);
    ChainBorderLength(hash, ChainIn(hash, leafHash, proof[..cut], m), proof[cut..], w);
  }

  lemma {:induction false} ChainInLength(hash: HashFn, seed: Digest, proof: seq<Digest>, m: nat, w: nat)
    requires OutputLength(hash, w) && |seed| == w
    ensures |ChainIn(hash, seed, proof, m)| == w
    decreases |proof|
  {
    if proof != [] {
      ChainInLength(hash, Combine(hash, seed, proof[0], m % 2 == 1), proof[1..], m / 2, w);
    }
  }

  lemma {:induction false} ChainBorderLength(hash: HashFn, seed: Digest, proof: seq<Digest>, w: nat)
    requires OutputLength(hash, w) && |seed| == w
    ensures |ChainBorder(hash, seed, proof)| == w
    decreases |proof|
  {
    if proof != [] {
      ChainBorderLength(hash, HashChildren(hash, proof[0], seed), proof[1..], w);
    }
  }

  ghost predicate AllOfWidth(proof: seq<Digest>, w: nat) {
    forall i :: 0 <= i < |proof| ==> |proof[i]| == w
  }

  /**
   * Soundness: digests of the right number and length that fold to the tree's root are exactly
   * the leaf hash and the audit path, or `FindCollision` breaks the hash function.
   */
  lemma {:induction false} Soundness(hash: HashFn, w: nat, m: nat, leaves: seq<seq<byte>>,
                                     proof: seq<Digest>, leafHash: Digest)
    requires OutputLength(hash, w)
    requires m < |leaves| && |proof| == ProofLength(m, |leaves|)
    requires |leafHash| == w && AllOfWidth(proof, w)
    requires FoldedRoot(hash, m, |leaves|, proof, leafHash) == TreeHash(hash, leaves)
    ensures var c := FindCollision(hash, m, leaves, proof, leafHash);
            if c == NoCollision
            then leafHash == HashLeaf(hash, leaves[m]) && proof == AuditPath(hash, m, leaves)
            else Breaks(hash, c)
    decreases |leaves|
  {
    var n := |leaves|;
    if n == 1 {
      assert proof[..0] == proof && proof[0..] == proof;
    } else if m < Pow2(SplitExponent(n)) {
      SoundLeft(hash, w, m, leaves, proof, leafHash);
    } else {
      SoundRight(hash, w, m, leaves, proof, leafHash);
    }
  }

  ghost predicate Sound(hash: HashFn, m: nat, leaves: seq<seq<byte>>, proof: seq<Digest>, leafHash: Digest)
    requires m < |leaves| && |proof| == ProofLength(m, |leaves|)
  {
    var c := FindCollision(hash, m, leaves, proof, leafHash);
    if c == NoCollision
    then leafHash == HashLeaf(hash, leaves[m]) && proof == AuditPath(hash, m, leaves)
    else Breaks(hash, c)
  }

  lemma {:induction false} SoundLeft(hash: HashFn, w: nat, m: nat, leaves: seq<seq<byte>>, proof: seq<Digest>,
                                     leafHash: Digest)
    requires OutputLength(hash, w) && |leafHash| == w && AllOfWidth(proof, w)
    requires |leaves| >= 2 && m < Pow2(SplitExponent(|leaves|)) && |proof| == ProofLength(m, |leaves|)
    requires FoldedRoot(hash, m, |leaves|, proof, leafHash) == TreeHash(hash, leaves)
    ensures Sound(hash, m, leaves, proof, leafHash)
    decreases |leaves|, 0
  {
    hide FoldedRoot, ProofLength, SplitExponent, OutputLength, TreeHash, ChildrenInput;
    ProofLengthStep(m, |leaves|);
    var k := Pow2(SplitExponent(|leaves|));
    var rest, h := proof[..|proof| - 1], proof[|proof| - 1];
    assert proof == rest + [h];
    FoldsThroughLeft(hash, w, m, leaves, rest, h, leafHash);
    if ChildrenInput(FoldedRoot(hash, m, k, rest, leafHash), h)
      == ChildrenInput(TreeHash(hash, leaves[..k]), TreeHash(hash, leaves[k..])) {
      Soundness(hash, w, m, leaves[..k], rest, leafHash);
    }
  }

  lemma {:induction false} SoundRight(hash: HashFn, w: nat, m: nat, leaves: seq<seq<byte>>, proof: seq<Digest>,
                                      leafHash: Digest)
    requires OutputLength(hash, w) && |leafHash| == w && AllOfWidth(proof, w)
    requires |leaves| >= 2 && Pow2(SplitExponent(|leaves|)) <= m < |leaves| && |proof| == ProofLength(m, |leaves|)
    requires FoldedRoot(hash, m, |leaves|, proof, leafHash) == TreeHash(hash, leaves)
    ensures Sound(hash, m, leaves, proof, leafHash)
    decreases |leaves|, 0
  {
    hide FoldedRoot, ProofLength, SplitExponent, OutputLength, TreeHash, ChildrenInput;
    ProofLengthStep(m, |leaves|);
    var k := Pow2(SplitExponent(|leaves|));
    var rest, h := proof[..|proof| - 1], proof[|proof| - 1];
    assert proof == rest + [h];
    FoldsThroughRight(hash, w, m, leaves, rest, h, leafHash);
    if ChildrenInput(h, FoldedRoot(hash, m - k, |leaves| - k, rest, leafHash))
      == ChildrenInput(TreeHash(hash, leaves[..k]), TreeHash(hash, leaves[k..])) {
      Soundness(hash, w, m - k, leaves[k..], rest, leafHash);
    }
  }

  /** A proof for a leaf in the left subtree folds through the root's two children. */
  lemma FoldsThroughLeft(hash: HashFn, w: nat, m: nat, leaves: seq<seq<byte>>, rest: seq<Digest>, h: Digest,
                         leafHash: Digest)
    requires OutputLength(hash, w) && |leafHash| == w
    requires |leaves| >= 2 && m < Pow2(SplitExponent(|leaves|))
    requires |rest| == ProofLength(m, Pow2(SplitExponent(|leaves|)))
    requires FoldedRoot(hash, m, |leaves|, rest + [h], leafHash) == TreeHash(hash, leaves)
    ensures var k := Pow2(SplitExponent(|leaves|));
            var left, right := TreeHash(hash, leaves[..k]), TreeHash(hash, leaves[k..]);
            var sub := FoldedRoot(hash, m, k, rest, leafHash);
            && HashChildren(hash, sub, h) == HashChildren(hash, left, right)
            && (ChildrenInput(sub, h) == ChildrenInput(left, right) ==> sub == left && h == right)
  {
    hide FoldedRoot, ProofLength, SplitExponent, Pow2, ChildrenInput, OutputLength, TreeHash, HashChildren;
    var k := Pow2(SplitExponent(|leaves|));
    TreeHashSplits(hash, leaves);
    var left, right := TreeHash(hash, leaves[..k]), TreeHash(hash, leaves[k..]);
    var sub := FoldedRoot(hash, m, k, rest, leafHash);
    FoldLeft(hash, m, |leaves|, rest, h, leafHash);
    FoldedRootLength(hash, m, k, rest, leafHash, w);
    TreeHashLength(hash, leaves[..k], w);
    SplitInputs(sub, h, left, right);
  }

  lemma FoldsThroughRight(hash: HashFn, w: nat, m: nat, leaves: seq<seq<byte>>, rest: seq<Digest>, h: Digest,
                          leafHash: Digest)
    requires OutputLength(hash, w) && |h| == w
    requires |leaves| >= 2 && Pow2(SplitExponent(|leaves|)) <= m < |leaves|
    requires |rest| == ProofLength(m - Pow2(SplitExponent(|leaves|)), |leaves| - Pow2(SplitExponent(|leaves|)))
    requires FoldedRoot(hash, m, |leaves|, rest + [h], leafHash) == TreeHash(hash, leaves)
    ensures var k := Pow2(SplitExponent(|leaves|));
            var left, right := TreeHash(hash, leaves[..k]), TreeHash(hash, leaves[k..]);
            var sub := FoldedRoot(hash, m - k, |leaves| - k, rest, leafHash);
            && HashChildren(hash, h, sub) == HashChildren(hash, left, right)
            && (ChildrenInput(h, sub) == ChildrenInput(left, right) ==> h == left && sub == right)
  {
    hide FoldedRoot, ProofLength, SplitExponent, Pow2, ChildrenInput, OutputLength, TreeHash, HashChildren;
    var k := Pow2(SplitExponent(|leaves|));
    TreeHashSplits(hash, leaves);
    var left, right := TreeHash(hash, leaves[..k]), TreeHash(hash, leaves[k..]);
    var sub := FoldedRoot(hash, m - k, |leaves| - k, rest, leafHash);
    FoldRight(hash, m, |leaves|, rest, h, leafHash);
    assert TreeHash(hash, leaves) == HashChildren(hash, left, right) == HashChildren(hash, h, sub);
    TreeHashLength(hash, leaves[..k], w);
    SplitInputs(h, sub, left, right);
  }

  lemma SplitInputs(a: Digest, b: Digest, c: Digest, d: Digest)
    requires |a| == |c|
    ensures ChildrenInput(a, b) == ChildrenInput(c, d) ==> a == c && b == d
  {
    if ChildrenInput(a, b) == ChildrenInput(c, d) {
      ChildrenInputInjective(a, b, c, d);
    }
  }

  /** Two leaf lists of one size with one root agree on every leaf, or the hash breaks. */
  lemma RootBindsLeaf(hash: HashFn, w: nat, m: nat, a: seq<seq<byte>>, b: seq<seq<byte>>)
    requires OutputLength(hash, w)
    requires m < |a| == |b| && TreeHash(hash, a) == TreeHash(hash, b)
    ensures var c := (AuditPathLength(hash, m, a);
                      FindCollision(hash, m, b, AuditPath(hash, m, a), HashLeaf(hash, a[m])));
            Breaks(hash, c) || a[m] == b[m] || Breaks(hash, Collision(LeafInput(a[m]), LeafInput(b[m])))
  {
    Completeness(hash, m, a);
    AuditPathLength(hash, m, a);
    AuditPathWidths(hash, w, m, a);
    Soundness(hash, w, m, b, AuditPath(hash, m, a), HashLeaf(hash, a[m]));
    if a[m] != b[m] {
      assert LeafInput(a[m])[1..] == a[m] && LeafInput(b[m])[1..] == b[m];
    }
  }

  lemma {:induction false} AuditPathWidths(hash: HashFn, w: nat, m: nat, leaves: seq<seq<byte>>)
    requires OutputLength(hash, w) && m < |leaves|
    ensures AllOfWidth(AuditPath(hash, m, leaves), w)
    decreases |leaves|
  {
    hide AuditPath, TreeHash, OutputLength, Pow2, SplitExponent;
    AuditPathUnfolds(hash, m, leaves);
    if |leaves| > 1 {
      hide AllOfWidth;
      var k := Pow2(SplitExponent(|leaves|));
      if m < k {
        AuditPathWidths(hash, w, m, leaves[..k]);
        TreeHashLength(hash, leaves[k..], w);
        OneMoreOfWidth(AuditPath(hash, m, leaves[..k]), TreeHash(hash, leaves[k..]), w);
      } else {
        AuditPathWidths(hash, w, m - k, leaves[k..]);
        TreeHashLength(hash, leaves[..k], w);
        OneMoreOfWidth(AuditPath(hash, m - k, leaves[k..]), TreeHash(hash, leaves[..k]), w);
      }
    }
  }

  lemma AuditPathUnfolds(hash: HashFn, m: nat, leaves: seq<seq<byte>>)
    requires m < |leaves|
    ensures |leaves| == 1 ==> AuditPath(hash, m, leaves) == []
    ensures |leaves| >= 2 ==>
              var k := Pow2(SplitExponent(|leaves|));
              AuditPath(hash, m, leaves)
              == if m < k then AuditPath(hash, m, leaves[..k]) + [TreeHash(hash, leaves[k..])]
                 else AuditPath(hash, m - k, leaves[k..]) + [TreeHash(hash, leaves[..k])]
  {
    hide TreeHash, Pow2, SplitExponent;
  }

  lemma OneMoreOfWidth(proof: seq<Digest>, h: Digest, w: nat)
    requires AllOfWidth(proof, w) && |h| == w
    ensures AllOfWidth(proof + [h], w)
  {
  }

  // ------------------------------------------------- the hashed bytes, written out

  /** The root of one leaf is the hash of a zero byte and the leaf. */
  lemma LeafRoot(hash: HashFn, leaf: seq<byte>)
    ensures TreeHash(hash, [leaf]) == hash([0] + leaf)
  {
  }

  lemma {:induction false} SplitIsUnique(n: nat, j: nat)
    requires n >= 2 && Pow2(j) < n <= 2 * Pow2(j)
    ensures SplitExponent(n) == j
  {
    var i := SplitExponent(n);
    if i < j {
      Pow2Monotone(i + 1, j);
    } else if j < i {
      Pow2Monotone(j + 1, i);
    }
  }

  /**
   * The root of two or more leaves: with k the largest power of two below their number, the hash of a one byte, the
   * root of the first k leaves and the root of the others.
   */
  lemma NodeRoot(hash: HashFn, leaves: seq<seq<byte>>, j: nat, k: nat)
    requires |leaves| >= 2 && k == Pow2(j) && k < |leaves| <= 2 * k
    ensures TreeHash(hash, leaves) == hash([1] + TreeHash(hash, leaves[..k]) + TreeHash(hash, leaves[k..]))
  {
    hide TreeHash;
    SplitIsUnique(|leaves|, j);
    TreeHashSplits(hash, leaves);
  }

  /** The root that the verifier computes for either of two leaves. */
  method RootOfTwo(hash: HashFn, leafIndex: int, sibling: Digest, leafHash: Digest) returns (r: Result<Digest>)
    requires 0 <= leafIndex <= 1
    ensures r == Ok(if leafIndex == 0 then hash([1] + leafHash + sibling) else hash([1] + sibling + leafHash))
  {
    r := RootFromIcp(hash, leafIndex, 2, [sibling], leafHash);
    assert BitXor(0, 1) == 1 && BitXor(1, 1) == 0;
    FoldOfOne(hash, leafIndex, sibling, leafHash);
  }

  lemma FoldOfOne(hash: HashFn, m: nat, sibling: Digest, leafHash: Digest)
    requires m <= 1
    ensures FoldedRoot(hash, m, 2, [sibling], leafHash)
         == hash(if m == 0 then [1] + leafHash + sibling else [1] + sibling + leafHash)
  {
    var proof := [sibling];
    assert BitXor(0, 1) == 1 + 2 * BitXor(0, 0) && BitXor(1, 1) == 2 * BitXor(0, 0);
    assert proof[..1] == proof && proof[1..] == [] && proof[..0] == [] && proof[0..] == proof;
    assert ChainIn(hash, leafHash, [], m) == leafHash;
    assert ChainIn(hash, leafHash, proof, 0) == Combine(hash, leafHash, sibling, false);
    assert ChainBorder(hash, leafHash, proof) == HashChildren(hash, sibling, leafHash);
  }

  /** What is hashed at the root of a tree. */
  function RootInput(hash: HashFn, leaves: seq<seq<byte>>): (x: seq<byte>)
    requires leaves != []
    ensures hash(x) == TreeHash(hash, leaves)
  {
    if |leaves| == 1 then LeafInput(leaves[0])
    else
      var k := Pow2(SplitExponent(|leaves|));
      ChildrenInput(TreeHash(hash, leaves[..k]), TreeHash(hash, leaves[k..]))
  }

  /** Walks down two trees of any sizes and returns the first pair of inputs that differ. */
  function FirstDifference(hash: HashFn, a: seq<seq<byte>>, b: seq<seq<byte>>): Collision
    requires a != [] && b != []
    decreases |a|
  {
    if RootInput(hash, a) != RootInput(hash, b) then Collision(RootInput(hash, a), RootInput(hash, b))
    else if |a| == 1 || |b| == 1 then NoCollision
    else
      var i, k := Pow2(SplitExponent(|a|)), Pow2(SplitExponent(|b|));
      var c := FirstDifference(hash, a[..i], b[..k]);
      if c.Collision? then c else FirstDifference(hash, a[i..], b[k..])
  }

  /**
   * Two leaf lists of any sizes with one root are equal, or a pair of different inputs with one digest is computed: a
   * leaf cannot stand for an inner node, because their inputs begin with different bytes.
   */
  lemma {:induction false} RootBindsLeaves(hash: HashFn, w: nat, a: seq<seq<byte>>, b: seq<seq<byte>>)
    requires OutputLength(hash, w) && a != [] && b != [] && TreeHash(hash, a) == TreeHash(hash, b)
    ensures var c := FirstDifference(hash, a, b);
            if c == NoCollision then a == b else c.x != c.y && hash(c.x) == hash(c.y)
    decreases |a|
  {
    hide OutputLength, SplitExponent, Pow2, TreeHash, RootInput, FirstDifference;
    DifferenceUnfolds(hash, a, b);
    if RootInput(hash, a) == RootInput(hash, b) {
      SameInput(hash, w, a, b);
      if |a| > 1 {
        var i, k := Pow2(SplitExponent(|a|)), Pow2(SplitExponent(|b|));
        RootBindsLeaves(hash, w, a[..i], b[..k]);
        RootBindsLeaves(hash, w, a[i..], b[k..]);
        SameHalves(a, b, i, k);
      }
    }
  }

  lemma DifferenceUnfolds(hash: HashFn, a: seq<seq<byte>>, b: seq<seq<byte>>)
    requires a != [] && b != []
    ensures RootInput(hash, a) != RootInput(hash, b) ==>
              FirstDifference(hash, a, b) == Collision(RootInput(hash, a), RootInput(hash, b))
    ensures RootInput(hash, a) == RootInput(hash, b) && (|a| == 1 || |b| == 1) ==>
              FirstDifference(hash, a, b) == NoCollision
    ensures RootInput(hash, a) == RootInput(hash, b) && |a| > 1 && |b| > 1 ==>
              var i, k := Pow2(SplitExponent(|a|)), Pow2(SplitExponent(|b|));
              var c := FirstDifference(hash, a[..i], b[..k]);
              FirstDifference(hash, a, b) == if c.Collision? then c else FirstDifference(hash, a[i..], b[k..])
  {
    hide TreeHash, RootInput, SplitExponent, Pow2;
  }

  lemma SameHalves(a: seq<seq<byte>>, b: seq<seq<byte>>, i: nat, k: nat)
    requires i <= |a| && k <= |b|
    ensures a[..i] == b[..k] && a[i..] == b[k..] ==> a == b
  {
    assert a == a[..i] + a[i..] && b == b[..k] + b[k..];
  }

  lemma SameInput(hash: HashFn, w: nat, a: seq<seq<byte>>, b: seq<seq<byte>>)
    requires OutputLength(hash, w) && a != [] && b != [] && RootInput(hash, a) == RootInput(hash, b)
    ensures |a| == 1 <==> |b| == 1
    ensures |a| == 1 ==> a == b
    ensures |a| > 1 ==>
              var i, k := Pow2(SplitExponent(|a|)), Pow2(SplitExponent(|b|));
              TreeHash(hash, a[..i]) == TreeHash(hash, b[..k]) && TreeHash(hash, a[i..]) == TreeHash(hash, b[k..])
  {
    hide TreeHash, OutputLength, SplitExponent, Pow2;
    if |a| == 1 {
      assert RootInput(hash, a)[0] == 0 && RootInput(hash, b)[0] == 0;
      assert RootInput(hash, a)[1..] == a[0] && RootInput(hash, b)[1..] == b[0];
    } else {
      assert RootInput(hash, a)[0] == 1 && RootInput(hash, b)[0] == 1;
      var i, k := Pow2(SplitExponent(|a|)), Pow2(SplitExponent(|b|));
      TreeHashLength(hash, a[..i], w);
      TreeHashLength(hash, b[..k], w);
      SplitInputs(TreeHash(hash, a[..i]), TreeHash(hash, a[i..]), TreeHash(hash, b[..k]), TreeHash(hash, b[k..]));
    }
  }
}
