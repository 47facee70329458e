/** The dm-verity hash tree: its sizes, its bytes and its root by recursion, and what the root binds. */
module HashTree {
  import opened Bits
  import opened Bytes
  import opened Hashing

  /**
   * hash(salt ++ data) is a digest of `digestSize` bytes; in the tree it is followed by `padding`
   * zero bytes.
   */
  datatype Params = Params(hash: HashFn, salt: seq<byte>, blockSize: nat, digestSize: nat, padding: nat)

  function EntrySize(p: Params): nat { p.digestSize + p.padding }

  /** At least two entries fit a block. */
  ghost predicate Usable(p: Params) {
    OutputLength(p.hash, p.digestSize) && 0 < EntrySize(p) && 2 * EntrySize(p) <= p.blockSize
  }

  lemma UsableSizes(p: Params)
    requires Usable(p)
    ensures 0 < EntrySize(p) && 2 * EntrySize(p) <= p.blockSize
  {
  }

  // ------------------------------------------------------------------------- sizes

  lemma CeilDivIs(a: nat, b: nat, q: nat)
    requires b > 0 && Span(q, b) >= a && (q > 0 ==> Span(q - 1, b) < a)
    ensures CeilDiv(a, b) == q
  {
    SpanIsProduct(q, b);
    if q == 0 {
      DivModUnique(a + b - 1, b, 0, b - 1);
    } else {
      SpanIsProduct(q - 1, b);
      DivModUnique(a + b - 1, b, q, a + b - 1 - q * b);
    }
  }

  lemma CeilDivBounds(a: nat, b: nat)
    requires b > 0
    ensures Span(CeilDiv(a, b), b) >= a && (CeilDiv(a, b) > 0 ==> Span(CeilDiv(a, b) - 1, b) < a)
  {
    var q := CeilDiv(a, b);
    SpanIsProduct(q, b);
    if q > 0 { SpanIsProduct(q - 1, b); }
  }

  /** The padded size of the level above `size` bytes. */
  function LevelSize(size: nat, blockSize: nat, entrySize: nat): nat
    requires blockSize > 0
  {
    RoundToMultiple(Span(CeilDiv(size, blockSize), entrySize), blockSize)
  }

  lemma RoundIsBlocks(size: nat, blockSize: nat)
    requires blockSize > 0
    ensures RoundToMultiple(size, blockSize) == Span(CeilDiv(size, blockSize), blockSize)
  {
    CeilDivBounds(size, blockSize);
    var q, r := CeilDiv(size, blockSize), RoundToMultiple(size, blockSize);
    assert r == (r / blockSize) * blockSize;
    SpanIsProduct(r / blockSize, blockSize);
    if r / blockSize > 0 {
      SpanIsProduct(r / blockSize - 1, blockSize);
      assert Span(r / blockSize - 1, blockSize) == r - blockSize;
    }
    CeilDivIs(size, blockSize, r / blockSize);
  }

  /** With two entries to a block, `n` >= 2 blocks hash to at most half as many, rounded up. */
  lemma BlocksHalve(n: nat, blockSize: nat, entrySize: nat)
    requires 0 < entrySize && 2 * entrySize <= blockSize && n > 0
    ensures 0 < CeilDiv(Span(n, entrySize), blockSize) <= (n + 1) / 2
  {
    var half := (n + 1) / 2;
    HalfSpan(half, entrySize, blockSize);
    SpanMonotone(n, 2 * half, entrySize);
    CeilDivBounds(Span(n, entrySize), blockSize);
    var q := CeilDiv(Span(n, entrySize), blockSize);
    if q > half { SpanMonotone(half, q - 1, blockSize); }
    assert Span(n, entrySize) >= entrySize;
  }

  lemma {:induction false} HalfSpan(half: nat, entrySize: nat, blockSize: nat)
    requires 2 * entrySize <= blockSize
    ensures Span(2 * half, entrySize) <= Span(half, blockSize)
  {
    if half > 0 {
      HalfSpan(half - 1, entrySize, blockSize);
      assert Span(2 * half, entrySize) == Span(2 * half - 1, entrySize) + entrySize;
      assert Span(2 * half - 1, entrySize) == Span(2 * half - 2, entrySize) + entrySize;
    }
  }

  lemma {:induction false} SpanMonotone(a: nat, b: nat, k: nat)
    requires a <= b
    ensures Span(a, k) <= Span(b, k)
  {
    if a < b { SpanMonotone(a, b - 1, k); }
  }

  /** The number of blocks of the next level up. */
  function NextBlocks(n: nat, blockSize: nat, entrySize: nat): nat
    requires blockSize > 0
  {
    CeilDiv(Span(n, entrySize), blockSize)
  }

  /** A level is a positive number of whole blocks, at most half as many as below and fewer bytes. */
  lemma LevelShrinks(size: nat, blockSize: nat, entrySize: nat)
    requires 0 < entrySize && 2 * entrySize <= blockSize < size
    ensures var n, n' := CeilDiv(size, blockSize), NextBlocks(CeilDiv(size, blockSize), blockSize, entrySize);
            && 2 <= n && 0 < n' <= (n + 1) / 2
            && LevelSize(size, blockSize, entrySize) == Span(n', blockSize)
            && CeilDiv(Span(n', blockSize), blockSize) == n'
            && blockSize <= LevelSize(size, blockSize, entrySize) < size
  {
    var n := CeilDiv(size, blockSize);
    CeilDivBounds(size, blockSize);
    BlocksHalve(n, blockSize, entrySize);
    var n' := NextBlocks(n, blockSize, entrySize);
    RoundIsBlocks(Span(n, entrySize), blockSize);
    SpanMonotone(n', n - 1, blockSize);
    SpanMonotone(1, n', blockSize);
    CeilDivIs(Span(n', blockSize), blockSize, n');
  }

  /**
   * When two entries do not fit a block, the level above two or more blocks has two or more blocks: no level is the
   * last.
   */
  lemma LevelsNeverEnd(size: nat, blockSize: nat, entrySize: nat)
    requires 0 < blockSize < size && blockSize < 2 * entrySize
    ensures LevelSize(size, blockSize, entrySize) > blockSize
  {
    var n := CeilDiv(size, blockSize);
    CeilDivBounds(size, blockSize);
    SpanMonotone(2, n, entrySize);
    assert Span(2, entrySize) == Span(1, entrySize) + entrySize;
  }

  /** The level sizes from the leaves' level up. */
  function LevelSizes(size: nat, blockSize: nat, entrySize: nat): (sizes: seq<nat>)
    requires 0 < entrySize && 2 * entrySize <= blockSize
    decreases size
  {
    if size <= blockSize then []
    else
      LevelShrinks(size, blockSize, entrySize);
      var levelSize := LevelSize(size, blockSize, entrySize);
      [levelSize] + LevelSizes(levelSize, blockSize, entrySize)
  }

  function Total(sizes: seq<nat>): nat {
    if sizes == [] then 0 else sizes[0] + Total(sizes[1..])
  }

  function TreeSize(size: nat, blockSize: nat, entrySize: nat): nat
    requires 0 < entrySize && 2 * entrySize <= blockSize
  {
    Total(LevelSizes(size, blockSize, entrySize))
  }

  /** Level `n` lies behind all levels above it. */
  function LevelOffset(sizes: seq<nat>, n: nat): nat
    requires n < |sizes|
  {
    Total(sizes[n + 1..])
  }

  /** Every level is a positive number of whole blocks and the last is exactly one block. */
  lemma {:induction false} LevelsAreBlocks(size: nat, blockSize: nat, entrySize: nat)
    requires 0 < entrySize && 2 * entrySize <= blockSize
    ensures var sizes := LevelSizes(size, blockSize, entrySize);
            && (forall i :: 0 <= i < |sizes| ==> sizes[i] >= blockSize && sizes[i] % blockSize == 0)
            && (sizes != [] <==> size > blockSize) && (sizes != [] ==> sizes[|sizes| - 1] == blockSize)
    decreases size
  {
    if size > blockSize {
      LevelShrinks(size, blockSize, entrySize);
      LevelsAreBlocks(LevelSize(size, blockSize, entrySize), blockSize, entrySize);
    }
  }

  /** At most ceil(log2(blocks)) levels. */
  lemma {:induction false} LevelCount(size: nat, blockSize: nat, entrySize: nat)
    requires 0 < entrySize && 2 * entrySize <= blockSize < size
    ensures |LevelSizes(size, blockSize, entrySize)| <= BitLength(CeilDiv(size, blockSize) - 1)
    decreases size
  {
    LevelShrinks(size, blockSize, entrySize);
    var n, levelSize := CeilDiv(size, blockSize), LevelSize(size, blockSize, entrySize);
    if levelSize > blockSize {
      LevelCount(levelSize, blockSize, entrySize);
      BitLengthMonotone(CeilDiv(levelSize, blockSize) - 1, (n - 1) / 2);
    }
  }

  lemma {:induction false} BitLengthMonotone(a: nat, b: nat)
    requires a <= b
    ensures BitLength(a) <= BitLength(b)
  {
    if a > 0 { BitLengthMonotone(a / 2, b / 2); }
  }

  /** The levels tile the tree from the last one at offset 0 to the first one at the end. */
  lemma LevelsTile(sizes: seq<nat>, n: nat)
    requires n < |sizes|
    ensures LevelOffset(sizes, n) + sizes[n] == if n == 0 then Total(sizes) else LevelOffset(sizes, n - 1)
    ensures n == |sizes| - 1 ==> LevelOffset(sizes, n) == 0
  {
    assert sizes[n..][1..] == sizes[n + 1..] && sizes[0..] == sizes;
  }

  lemma CeilDivMonotone(a: nat, b: nat, d: nat)
    requires d > 0 && a <= b
    ensures CeilDiv(a, d) <= CeilDiv(b, d)
  {
    CeilDivBounds(a, d);
    CeilDivBounds(b, d);
    if CeilDiv(a, d) > CeilDiv(b, d) { SpanMonotone(CeilDiv(b, d), CeilDiv(a, d) - 1, d); }
  }

  lemma LevelSizeMonotone(a: nat, b: nat, blockSize: nat, entrySize: nat)
    requires blockSize > 0 && a <= b
    ensures LevelSize(a, blockSize, entrySize) <= LevelSize(b, blockSize, entrySize)
  {
    CeilDivMonotone(a, b, blockSize);
    var m, n := CeilDiv(a, blockSize), CeilDiv(b, blockSize);
    SpanMonotone(m, n, entrySize);
    CeilDivMonotone(Span(m, entrySize), Span(n, entrySize), blockSize);
    RoundIsBlocks(Span(m, entrySize), blockSize);
    RoundIsBlocks(Span(n, entrySize), blockSize);
    SpanMonotone(CeilDiv(Span(m, entrySize), blockSize), CeilDiv(Span(n, entrySize), blockSize), blockSize);
  }

  /** A larger image never has a smaller tree. */
  lemma {:induction false} TreeSizeMonotone(a: nat, b: nat, blockSize: nat, entrySize: nat)
    requires 0 < entrySize && 2 * entrySize <= blockSize && a <= b
    ensures TreeSize(a, blockSize, entrySize) <= TreeSize(b, blockSize, entrySize)
    decreases b
  {
    if a > blockSize {
      LevelShrinks(b, blockSize, entrySize);
      LevelSizeMonotone(a, b, blockSize, entrySize);
      TreeSizeMonotone(LevelSize(a, blockSize, entrySize), LevelSize(b, blockSize, entrySize), blockSize, entrySize);
    }
  }

  // ---------------------------------------------------------------- bytes and root

  /** Block `i` of the source; only the last block may be short. */
  function Block(src: seq<byte>, blockSize: nat, i: nat): (b: seq<byte>)
    requires blockSize > 0
    ensures |b| <= blockSize
  {
    var at := Span(i, blockSize);
    if at >= |src| then [] else if at + blockSize > |src| then src[at..] else src[at..at + blockSize]
  }

  /** What is hashed for a block: the salt, the block, zeros up to the block size. */
  function BlockInput(p: Params, block: seq<byte>): seq<byte>
    requires |block| <= p.blockSize
  {
    p.salt + block + Zeros(p.blockSize - |block|)
  }

  function Entry(p: Params, block: seq<byte>): (e: seq<byte>)
    requires |block| <= p.blockSize
    ensures Usable(p) ==> |e| == EntrySize(p)
  {
    p.hash(BlockInput(p, block)) + Zeros(p.padding)
  }

  /** The entries of the first `n` blocks. */
  function Entries(p: Params, src: seq<byte>, n: nat): (s: seq<byte>)
    requires Usable(p)
    ensures |s| == Span(n, EntrySize(p))
  {
    if n == 0 then [] else Entries(p, src, n - 1) + Entry(p, Block(src, p.blockSize, n - 1))
  }

  /** The level above `src`: the entry of every block, padded to whole blocks. */
  function Level(p: Params, src: seq<byte>): (l: seq<byte>)
    requires Usable(p)
    ensures |l| == LevelSize(|src|, p.blockSize, EntrySize(p))
  {
    PadTo(Entries(p, src, CeilDiv(|src|, p.blockSize)), p.blockSize)
  }

  /** Hash each padded block, pad the digests, pad the level, and start over until one block is left. */
  function Root(p: Params, src: seq<byte>): Digest
    requires Usable(p)
    decreases |src|
  {
    if |src| <= p.blockSize then p.hash(BlockInput(p, src))
    else
      LevelShrinks(|src|, p.blockSize, EntrySize(p));
      Root(p, Level(p, src))
  }

  /** All levels, the top level first. */
  function Tree(p: Params, src: seq<byte>): (t: seq<byte>)
    requires Usable(p)
    ensures |t| == TreeSize(|src|, p.blockSize, EntrySize(p))
    decreases |src|
  {
    if |src| <= p.blockSize then []
    else
      LevelShrinks(|src|, p.blockSize, EntrySize(p));
      Tree(p, Level(p, src)) + Level(p, src)
  }

  /** Level `n` occupies its own range of the tree. */
  function Levels(p: Params, src: seq<byte>): (levels: seq<seq<byte>>)
    requires Usable(p)
    decreases |src|
  {
    if |src| <= p.blockSize then []
    else
      LevelShrinks(|src|, p.blockSize, EntrySize(p));
      [Level(p, src)] + Levels(p, Level(p, src))
  }

  lemma {:induction false} LevelInTree(p: Params, src: seq<byte>, n: nat)
    requires Usable(p) && n < |LevelSizes(|src|, p.blockSize, EntrySize(p))|
    ensures var sizes := LevelSizes(|src|, p.blockSize, EntrySize(p));
            && |Levels(p, src)| == |sizes| && |Levels(p, src)[n]| == sizes[n]
            && LevelOffset(sizes, n) + sizes[n] <= |Tree(p, src)|
            && Tree(p, src)[LevelOffset(sizes, n)..LevelOffset(sizes, n) + sizes[n]] == Levels(p, src)[n]
    decreases |src|
  {
    hide Level, LevelSizes, Tree, Levels, LevelOffset, Usable, TreeSize;
    UsableSizes(p);
    LevelsUnfold(p, src);
    var level := Level(p, src);
    LevelsMatchSizes(p, src);
    if n > 0 {
      LevelInTree(p, level, n - 1);
      var sizes := LevelSizes(|src|, p.blockSize, EntrySize(p));
      OffsetsShift(sizes, n);
      InPrefix(Tree(p, level), level, LevelOffset(sizes, n), sizes[n]);
    }
  }

  /** One level down: the first level is last in the tree, and the others are those of the smaller tree. */
  lemma LevelsUnfold(p: Params, src: seq<byte>)
    requires Usable(p) && LevelSizes(|src|, p.blockSize, EntrySize(p)) != []
    ensures var sizes, level := LevelSizes(|src|, p.blockSize, EntrySize(p)), Level(p, src);
            && |level| < |src| && sizes == [|level|] + LevelSizes(|level|, p.blockSize, EntrySize(p))
            && Levels(p, src) == [level] + Levels(p, level) && Tree(p, src) == Tree(p, level) + level
            && LevelOffset(sizes, 0) == |Tree(p, level)|
  {
    hide Level;
    LevelShrinks(|src|, p.blockSize, EntrySize(p));
    var sizes := LevelSizes(|src|, p.blockSize, EntrySize(p));
    assert sizes[0 + 1..] == LevelSizes(|Level(p, src)|, p.blockSize, EntrySize(p));
  }

  lemma OffsetsShift(sizes: seq<nat>, n: nat)
    requires 0 < n < |sizes|
    ensures LevelOffset(sizes, n) == LevelOffset(sizes[1..], n - 1) && sizes[1..][n - 1] == sizes[n]
  {
    assert sizes[1..][n - 1 + 1..] == sizes[n + 1..];
  }

  lemma InPrefix(a: seq<byte>, b: seq<byte>, at: nat, n: nat)
    requires at + n <= |a|
    ensures (a + b)[at..at + n] == a[at..at + n]
  {
  }

  lemma {:induction false} LevelsMatchSizes(p: Params, src: seq<byte>)
    requires Usable(p)
    ensures |Levels(p, src)| == |LevelSizes(|src|, p.blockSize, EntrySize(p))|
    decreases |src|
  {
    if |src| > p.blockSize {
      LevelShrinks(|src|, p.blockSize, EntrySize(p));
      LevelsMatchSizes(p, Level(p, src));
    }
  }

  // ---------------------------------------------------------------- what a root binds

  function Compare(p: Params, a: seq<byte>, b: seq<byte>): Collision
    requires |a| <= p.blockSize && |b| <= p.blockSize
  {
    if BlockInput(p, a) == BlockInput(p, b) then NoCollision else Collision(BlockInput(p, a), BlockInput(p, b))
  }

  /** The first of the blocks from `i` on whose hash inputs differ. */
  function FirstDifference(p: Params, a: seq<byte>, b: seq<byte>, i: nat, n: nat): Collision
    requires p.blockSize > 0
    decreases n - i
  {
    if i >= n then NoCollision
    else
      var c := Compare(p, Block(a, p.blockSize, i), Block(b, p.blockSize, i));
      if c.Collision? then c else FirstDifference(p, a, b, i + 1, n)
  }

  /** Walks from the root down to the first level where two trees differ. */
  function FindCollision(p: Params, a: seq<byte>, b: seq<byte>): Collision
    requires Usable(p) && |a| == |b|
    decreases |a|
  {
    if |a| <= p.blockSize then Compare(p, a, b)
    else
      LevelShrinks(|a|, p.blockSize, EntrySize(p));
      var above := FindCollision(p, Level(p, a), Level(p, b));
      if above.Collision? then above else FirstDifference(p, a, b, 0, CeilDiv(|a|, p.blockSize))
  }

  lemma SamePadded(p: Params, a: seq<byte>, b: seq<byte>)
    requires |a| == |b| <= p.blockSize && BlockInput(p, a) == BlockInput(p, b)
    ensures a == b
  {
    var x, y := BlockInput(p, a), BlockInput(p, b);
    assert x[|p.salt|..|p.salt| + |a|] == a && y[|p.salt|..|p.salt| + |b|] == b;
  }

  lemma PrefixEqual(a: seq<byte>, x: seq<byte>, b: seq<byte>, y: seq<byte>)
    requires |a| == |b| && a + x == b + y
    ensures a == b && x == y
  {
    assert (a + x)[..|a|] == a && (b + y)[..|b|] == b && (a + x)[|a|..] == x && (b + y)[|b|..] == y;
  }

  /** Equal entries come from equal digests. */
  lemma {:induction false} EntriesEqual(p: Params, a: seq<byte>, b: seq<byte>, n: nat, i: nat)
    requires Usable(p) && Entries(p, a, n) == Entries(p, b, n) && i < n
    ensures p.hash(BlockInput(p, Block(a, p.blockSize, i))) == p.hash(BlockInput(p, Block(b, p.blockSize, i)))
  {
    PrefixEqual(Entries(p, a, n - 1), Entry(p, Block(a, p.blockSize, n - 1)),
                Entries(p, b, n - 1), Entry(p, Block(b, p.blockSize, n - 1)));
    if i == n - 1 {
      PrefixEqual(p.hash(BlockInput(p, Block(a, p.blockSize, i))), Zeros(p.padding),
                  p.hash(BlockInput(p, Block(b, p.blockSize, i))), Zeros(p.padding));
    } else {
      EntriesEqual(p, a, b, n - 1, i);
    }
  }

  /** Position `k` lies in block `k / blockSize`. */
  lemma InBlock(size: nat, blockSize: nat, k: nat)
    requires blockSize > 0 && k < size
    ensures k / blockSize < CeilDiv(size, blockSize)
    ensures Span(k / blockSize, blockSize) <= k < Span(k / blockSize, blockSize) + blockSize
  {
    var i, n := k / blockSize, CeilDiv(size, blockSize);
    SpanIsProduct(i, blockSize);
    CeilDivBounds(size, blockSize);
    if i >= n { SpanMonotone(n, i, blockSize); }
  }

  /** Strings of one size with equal blocks are equal. */
  lemma BlocksDecide(a: seq<byte>, b: seq<byte>, blockSize: nat)
    requires blockSize > 0 && |a| == |b|
    requires forall i: nat :: i < CeilDiv(|a|, blockSize) ==> Block(a, blockSize, i) == Block(b, blockSize, i)
    ensures a == b
  {
    forall k | 0 <= k < |a|
      ensures a[k] == b[k]
    {
      hide CeilDiv, Span;
      InBlock(|a|, blockSize, k);
      var i := k / blockSize;
      assert Block(a, blockSize, i)[k - Span(i, blockSize)] == a[k];
      assert Block(b, blockSize, i)[k - Span(i, blockSize)] == b[k];
    }
  }

  lemma {:induction false} NoDifference(p: Params, a: seq<byte>, b: seq<byte>, i: nat, n: nat, k: nat)
    requires p.blockSize > 0 && |a| == |b| && i <= k < n && FirstDifference(p, a, b, i, n) == NoCollision
    ensures Block(a, p.blockSize, k) == Block(b, p.blockSize, k)
    decreases n - i
  {
    if i == k {
      SamePadded(p, Block(a, p.blockSize, i), Block(b, p.blockSize, i));
    } else {
      NoDifference(p, a, b, i + 1, n, k);
    }
  }

  lemma {:induction false} DifferenceBreaks(p: Params, a: seq<byte>, b: seq<byte>, i: nat, n: nat)
    requires Usable(p) && i <= n && Entries(p, a, n) == Entries(p, b, n)
    ensures FirstDifference(p, a, b, i, n).Collision? ==> Breaks(p.hash, FirstDifference(p, a, b, i, n))
    decreases n - i
  {
    if i < n {
      EntriesEqual(p, a, b, n, i);
      DifferenceBreaks(p, a, b, i + 1, n);
    }
  }

  /** Two images of one size with one root are equal, or the walk down their trees breaks the hash. */
  lemma {:induction false} RootBinds(p: Params, a: seq<byte>, b: seq<byte>)
    requires Usable(p) && |a| == |b| && Root(p, a) == Root(p, b)
    ensures var c := FindCollision(p, a, b);
            if c == NoCollision then a == b else Breaks(p.hash, c)
    decreases |a|
  {
    if |a| <= p.blockSize {
      if Compare(p, a, b) == NoCollision { SamePadded(p, a, b); }
    } else {
      LevelShrinks(|a|, p.blockSize, EntrySize(p));
      RootBinds(p, Level(p, a), Level(p, b));
      if FindCollision(p, Level(p, a), Level(p, b)) == NoCollision {
        LevelBinds(p, a, b);
      }
    }
  }

  lemma SameLevel(p: Params, a: seq<byte>, b: seq<byte>, n: nat)
    requires Usable(p) && n == CeilDiv(|a|, p.blockSize) == CeilDiv(|b|, p.blockSize) && Level(p, a) == Level(p, b)
    ensures Entries(p, a, n) == Entries(p, b, n)
  {
    hide CeilDiv, Entries;
    var pad := Zeros(RoundToMultiple(Span(n, EntrySize(p)), p.blockSize) - Span(n, EntrySize(p)));
    PrefixEqual(Entries(p, a, n), pad, Entries(p, b, n), pad);
  }

  lemma LevelBinds(p: Params, a: seq<byte>, b: seq<byte>)
    requires Usable(p) && |a| == |b| && Level(p, a) == Level(p, b)
    ensures var c := FirstDifference(p, a, b, 0, CeilDiv(|a|, p.blockSize));
            if c == NoCollision then a == b else Breaks(p.hash, c)
  {
    hide CeilDiv, Entries, Block, BlockInput, FirstDifference;
    var n := CeilDiv(|a|, p.blockSize);
    SameLevel(p, a, b, n);
    DifferenceBreaks(p, a, b, 0, n);
    if FirstDifference(p, a, b, 0, n) == NoCollision {
      forall i: nat | i < n
        ensures Block(a, p.blockSize, i) == Block(b, p.blockSize, i)
      {
        NoDifference(p, a, b, 0, n, i);
      }
      BlocksDecide(a, b, p.blockSize);
    }
  }
}
