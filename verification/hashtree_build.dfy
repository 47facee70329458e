/** calc_hash_level_offsets and generate_hash_tree: the loops over one flat buffer. */
module HashTreeBuild {
  import opened Bytes
  import opened Hashing
  import opened HashTree
  import opened Images
  import opened Wrappers

  import opened SparseEdit
  import opened SparseFormat

  ghost predicate AreOffsets(offsets: seq<nat>, sizes: seq<nat>) {
    |offsets| == |sizes| && forall n :: 0 <= n < |sizes| ==> offsets[n] == LevelOffset(sizes, n)
  }

  method CalcHashLevelOffsets(imageSize: nat, blockSize: nat, digestSize: nat)
    returns (levelOffsets: seq<nat>, treeSize: nat)
    requires 0 < digestSize && 2 * digestSize <= blockSize
    ensures treeSize == TreeSize(imageSize, blockSize, digestSize)
    ensures AreOffsets(levelOffsets, LevelSizes(imageSize, blockSize, digestSize))
  {
    hide LevelSizes, TreeSize, OneLevelUp;
    var levelSizes: seq<nat> := [];
    treeSize := 0;
    var size: nat := imageSize;
    while size > blockSize
      invariant levelSizes + LevelSizes(size, blockSize, digestSize) == LevelSizes(imageSize, blockSize, digestSize)
      invariant treeSize + TreeSize(size, blockSize, digestSize) == TreeSize(imageSize, blockSize, digestSize)
      decreases size
    {
      OneLevel(size, blockSize, digestSize);
      var levelSize := OneLevelUp(size, blockSize, digestSize);
      levelSizes := levelSizes + [levelSize];
      treeSize := treeSize + levelSize;
      size := levelSize;
    }
    NoLevel(size, blockSize, digestSize);
    assert levelSizes + [] == levelSizes;
    levelOffsets := SumBehind(levelSizes);
  }

  function OneLevelUp(size: nat, blockSize: nat, digestSize: nat): nat
    requires blockSize > 0
  {
    var numBlocks := (size + blockSize - 1) / blockSize;
    SpanIsProduct(numBlocks, digestSize);
    RoundToMultiple(numBlocks * digestSize, blockSize)
  }

  lemma OneLevel(size: nat, blockSize: nat, entrySize: nat)
    requires 0 < entrySize && 2 * entrySize <= blockSize < size
    ensures var levelSize := OneLevelUp(size, blockSize, entrySize);
            && levelSize < size
            && LevelSizes(size, blockSize, entrySize) == [levelSize] + LevelSizes(levelSize, blockSize, entrySize)
            && TreeSize(size, blockSize, entrySize) == levelSize + TreeSize(levelSize, blockSize, entrySize)
  {
    LevelShrinks(size, blockSize, entrySize);
    SpanIsProduct((size + blockSize - 1) / blockSize, entrySize);
  }

  lemma NoLevel(size: nat, blockSize: nat, entrySize: nat)
    requires 0 < entrySize && 2 * entrySize <= blockSize && size <= blockSize
    ensures LevelSizes(size, blockSize, entrySize) == [] && TreeSize(size, blockSize, entrySize) == 0
  {
  }

  /** The second pass: the offset of a level is the sum of the sizes of the levels above it. */
  method SumBehind(levelSizes: seq<nat>) returns (levelOffsets: seq<nat>)
    ensures AreOffsets(levelOffsets, levelSizes)
  {
    levelOffsets := [];
    for n := 0 to |levelSizes|
      invariant |levelOffsets| == n
      invariant forall k :: 0 <= k < n ==> levelOffsets[k] == LevelOffset(levelSizes, k)
    {
      var offset := 0;
      for m := n + 1 to |levelSizes|
        invariant offset + Total(levelSizes[m..]) == LevelOffset(levelSizes, n)
      {
        assert levelSizes[m..][1..] == levelSizes[m + 1..];
        offset := offset + levelSizes[m];
      }
      levelOffsets := levelOffsets + [offset];
    }
  }

  /** Where the bytes to hash lie: level 0 in the image, every other level in the buffer at `base`. */
  ghost predicate Readable(image: ImageHandler, hashRet: array<byte>, levelNum: nat, base: nat, src: seq<byte>)
    requires image.Loaded()
    reads image, hashRet
  {
    if levelNum == 0 then base == 0 && src <= image.Content()
    else base + |src| <= hashRet.Length && hashRet[base..base + |src|] == src
  }

  method GenerateHashTree(image: ImageHandler, p: Params, imageSize: nat, hashLevelOffsets: seq<nat>, treeSize: nat)
    returns (r: Result<(Digest, seq<byte>)>)
    requires image.Loaded() && HashTree.Usable(p) && imageSize <= image.imageSize
    requires treeSize == TreeSize(imageSize, p.blockSize, EntrySize(p))
    requires AreOffsets(hashLevelOffsets, LevelSizes(imageSize, p.blockSize, EntrySize(p)))
    modifies image`filePos
    ensures imageSize < p.blockSize ==> r == Raised(UnboundLocalError)
    ensures imageSize >= p.blockSize ==>
              imageSize <= |image.Content()|
              && r == Ok((Root(p, image.Content()[..imageSize]), Tree(p, image.Content()[..imageSize])))
  {
    image.ContentSize();
    ghost var content := image.Content();
    var hashRet := new byte[treeSize](_ => 0);
    if imageSize == p.blockSize {
      var data := ReadImage(image, 0, p.blockSize);
      assert data == content[..imageSize] && BlockInput(p, data) == p.salt + data;
      assert hashRet[..] == [];
      return Ok((p.hash(p.salt + data), hashRet[..]));
    }
    // The last digest is taken of a level that was never built.
    if imageSize < p.blockSize { return Raised(UnboundLocalError); }
    var digest := BuildLevels(image, p, imageSize, hashLevelOffsets, hashRet, content[..imageSize]);
    return Ok((digest, hashRet[..]));
  }

  method ReadImage(image: ImageHandler, offset: nat, size: nat) returns (data: seq<byte>)
    requires image.Loaded() && size > 0 && offset + size <= image.imageSize
    modifies image`filePos
    ensures offset + size <= |image.Content()| && data == image.Content()[offset..offset + size]
  {
    hide Begins, Expand, WellFormed;
    image.ContentSize();
    if image.isSparse {
      image.LoadedTable();
      SomeChunk(image.image.chunks, image.blockSize);
    }
    var _ := image.Seek(offset);
    var r := image.Read(size);
    data := r.value;
  }

  /** The outer loop: one level after the other, each in front of those below it. */
  method BuildLevels(image: ImageHandler, p: Params, imageSize: nat, hashLevelOffsets: seq<nat>, hashRet: array<byte>,
                     ghost src: seq<byte>)
    returns (digest: Digest)
    requires image.Loaded() && HashTree.Usable(p) && imageSize == |src| > p.blockSize && src <= image.Content()
    requires hashRet.Length == TreeSize(imageSize, p.blockSize, EntrySize(p))
    requires AreOffsets(hashLevelOffsets, LevelSizes(imageSize, p.blockSize, EntrySize(p)))
    modifies image`filePos, hashRet
    ensures digest == Root(p, src) && hashRet[..] == Tree(p, src)
  {
    hide Begins, Expand, WellFormed, Describes, Entries, TreeSize, Tree, Root, LevelSizes, Built, LevelOffset,
      HashTree.Usable, Write;
    UsableSizes(p);
    var hashSrcSize: nat, levelNum: nat, base: nat := imageSize, 0, 0;
    var levelOutput: seq<byte> := [];
    ghost var cur, start := src, hashRet.Length;
    ghost var sizes := LevelSizes(imageSize, p.blockSize, EntrySize(p));
    NothingBuilt(p, src, hashRet[..][start..]);
    while hashSrcSize > p.blockSize
      invariant image.Loaded() && image.Content() == old(image.Content())
      invariant |cur| == hashSrcSize >= p.blockSize && start == |Tree(p, cur)| <= hashRet.Length
      invariant Built(p, src, cur, hashRet[..][start..], sizes, levelNum)
      invariant Readable(image, hashRet, levelNum, base, cur)
      invariant if levelNum > 0 then cur == levelOutput && hashSrcSize % p.blockSize == 0 else cur == src
      decreases hashSrcSize
    {
      var levelOutputList := HashLevel(image, p, hashRet, levelNum, base, hashSrcSize, cur);
      levelOutput := PadTo(levelOutputList, p.blockSize);
      BuildTurn(p, src, cur, hashRet[..], start, sizes, levelNum);
      var offset := hashLevelOffsets[levelNum];
      WriteInto(hashRet, offset, levelOutput);
      cur, start, base := levelOutput, offset, offset;
      hashSrcSize := |levelOutput|;
      levelNum := levelNum + 1;
      assert hashRet[..][base..base + |cur|] == hashRet[base..base + |cur|];
    }
    AllBuilt(p, src, cur, hashRet[..][start..], sizes, levelNum);
    assert hashRet[..][0..] == hashRet[..];
    digest := p.hash(p.salt + levelOutput);
  }

  /** `cur` is the level reached from `src`, and the rest of the tree is `done`. */
  ghost predicate Built(p: Params, src: seq<byte>, cur: seq<byte>, done: seq<byte>, sizes: seq<nat>, levelNum: nat)
    requires HashTree.Usable(p)
  {
    && Root(p, cur) == Root(p, src) && Tree(p, cur) + done == Tree(p, src)
    && levelNum <= |sizes| && sizes[levelNum..] == LevelSizes(|cur|, p.blockSize, EntrySize(p))
    && |LevelSizes(|src|, p.blockSize, EntrySize(p))| == |sizes|
  }

  lemma NothingBuilt(p: Params, src: seq<byte>, done: seq<byte>)
    requires HashTree.Usable(p) && done == []
    ensures Built(p, src, src, done, LevelSizes(|src|, p.blockSize, EntrySize(p)), 0)
    ensures |Tree(p, src)| == TreeSize(|src|, p.blockSize, EntrySize(p))
  {
    hide Tree, Root, LevelSizes, HashTree.Usable;
    UsableSizes(p);
    assert Tree(p, src) + [] == Tree(p, src);
  }

  /** Writing the next level in front of what is there. */
  lemma BuildTurn(p: Params, src: seq<byte>, cur: seq<byte>, before: seq<byte>, start: nat, sizes: seq<nat>,
                  levelNum: nat)
    requires HashTree.Usable(p) && |cur| > p.blockSize && start == |Tree(p, cur)| <= |before|
    requires Built(p, src, cur, before[start..], sizes, levelNum)
    ensures levelNum < |sizes|
    ensures var level, offset := Level(p, cur), LevelOffset(sizes, levelNum);
            && p.blockSize <= |level| < |cur| && |level| % p.blockSize == 0
            && offset == |Tree(p, level)| && offset + |level| == start
            && var after := Write(before, offset, level);
            after[offset..offset + |level|] == level && Built(p, src, level, after[offset..], sizes, levelNum + 1)
  {
    hide Tree, Root, LevelSizes, Entries, LevelOffset, HashTree.Usable, Write;
    UsableSizes(p);
    NextLevel(p, cur, sizes, levelNum);
    var level, offset := Level(p, cur), LevelOffset(sizes, levelNum);
    InFront(before, offset, level, start, Tree(p, level), Tree(p, cur));
  }

  lemma AllBuilt(p: Params, src: seq<byte>, cur: seq<byte>, done: seq<byte>, sizes: seq<nat>, levelNum: nat)
    requires HashTree.Usable(p) && |cur| == p.blockSize && Built(p, src, cur, done, sizes, levelNum)
    ensures Root(p, src) == p.hash(p.salt + cur) && Tree(p, src) == done && |Tree(p, cur)| == 0
  {
    hide LevelSizes, HashTree.Usable;
    LastLevel(p, cur);
    assert [] + done == done;
  }

  /** The level above `cur` and where it goes. */
  lemma NextLevel(p: Params, cur: seq<byte>, sizes: seq<nat>, levelNum: nat)
    requires HashTree.Usable(p) && |cur| > p.blockSize
    requires levelNum <= |sizes| && sizes[levelNum..] == LevelSizes(|cur|, p.blockSize, EntrySize(p))
    ensures var level := Level(p, cur);
            && p.blockSize <= |level| < |cur| && |level| % p.blockSize == 0
            && Root(p, cur) == Root(p, level) && Tree(p, cur) == Tree(p, level) + level
            && levelNum < |sizes| && LevelOffset(sizes, levelNum) == |Tree(p, level)|
            && sizes[levelNum + 1..] == LevelSizes(|level|, p.blockSize, EntrySize(p))
  {
    hide Entries;
    LevelShrinks(|cur|, p.blockSize, EntrySize(p));
    assert sizes[levelNum..][1..] == sizes[levelNum + 1..];
  }

  lemma InFront(before: seq<byte>, offset: nat, level: seq<byte>, start: nat, above: seq<byte>, tree: seq<byte>)
    requires offset + |level| == start <= |before| && tree == above + level
    ensures var after := Write(before, offset, level);
            after[offset..start] == level && above + after[offset..] == tree + before[start..]
  {
    var after := Write(before, offset, level);
    assert after[offset..] == level + before[start..];
  }

  lemma LastLevel(p: Params, cur: seq<byte>)
    requires HashTree.Usable(p) && |cur| == p.blockSize
    ensures Root(p, cur) == p.hash(p.salt + cur) && Tree(p, cur) == []
  {
    assert BlockInput(p, cur) == p.salt + cur;
  }

  /** The inner loop: one digest, and its padding, for every block of a level. */
  method HashLevel(image: ImageHandler, p: Params, hashRet: array<byte>, levelNum: nat, base: nat, hashSrcSize: nat,
                   ghost src: seq<byte>)
    returns (levelOutput: seq<byte>)
    requires image.Loaded() && HashTree.Usable(p) && |src| == hashSrcSize
    requires Readable(image, hashRet, levelNum, base, src) && (levelNum > 0 ==> hashSrcSize % p.blockSize == 0)
    modifies image`filePos
    ensures levelOutput == Entries(p, src, CeilDiv(hashSrcSize, p.blockSize))
  {
    hide Begins, Expand, WellFormed, Describes, CeilDiv, Span, AtBlock, Entries, Block, HashTree.Usable;
    PositiveBlock(p);
    levelOutput := [];
    var remaining: nat := hashSrcSize;
    ghost var i: nat := 0;
    BlocksStart(hashSrcSize, p.blockSize);
    while remaining > 0
      invariant image.Loaded() && Readable(image, hashRet, levelNum, base, src)
      invariant levelOutput == Entries(p, src, i)
      invariant AtBlock(hashSrcSize, p.blockSize, i, remaining)
      decreases remaining
    {
      BlockStep(src, p.blockSize, i, remaining);
      if levelNum > 0 { WholeBlock(hashSrcSize, p.blockSize, i, remaining); }
      var data := ReadSource(image, hashRet, levelNum, base, hashSrcSize - remaining,
                             if remaining < p.blockSize then remaining else p.blockSize, src);
      remaining := remaining - |data|;
      var digest := p.hash(p.salt + data + Zeros(p.blockSize - |data|));
      OneEntry(p, src, i, data);
      levelOutput := levelOutput + (digest + Zeros(p.padding));
      i := i + 1;
    }
    AllBlocks(hashSrcSize, p.blockSize, i);
  }

  /** The next bytes to hash. */
  method ReadSource(image: ImageHandler, hashRet: array<byte>, levelNum: nat, base: nat, at: nat, n: nat,
                    ghost src: seq<byte>)
    returns (data: seq<byte>)
    requires image.Loaded() && Readable(image, hashRet, levelNum, base, src) && 0 < n && at + n <= |src|
    modifies image`filePos
    ensures data == src[at..at + n]
  {
    hide Begins, Expand, WellFormed, Describes;
    if levelNum == 0 {
      image.ContentSize();
      SliceOfSlice(image.Content(), 0, |src|, at, at + n);
      data := ReadImage(image, at, n);
    } else {
      SliceOfSlice(hashRet[..], base, base + |src|, at, at + n);
      data := hashRet[base + at..base + at + n];
    }
  }

  lemma AllBlocks(size: nat, blockSize: nat, i: nat)
    requires blockSize > 0 && AtBlock(size, blockSize, i, 0)
    ensures i == CeilDiv(size, blockSize)
  {
  }

  lemma PositiveBlock(p: Params)
    requires HashTree.Usable(p)
    ensures p.blockSize > 0 && Entries(p, [], 0) == []
  {
  }

  lemma OneEntry(p: Params, src: seq<byte>, i: nat, data: seq<byte>)
    requires HashTree.Usable(p) && |data| <= p.blockSize && data == Block(src, p.blockSize, i)
    ensures Entries(p, src, i + 1) == Entries(p, src, i)
            + (p.hash(p.salt + data + Zeros(p.blockSize - |data|)) + Zeros(p.padding))
  {
    hide Block, HashTree.Usable;
  }

  /** `remaining` bytes are left after `i` blocks. */
  ghost predicate AtBlock(size: nat, blockSize: nat, i: nat, remaining: nat)
    requires blockSize > 0
  {
    && remaining <= size
    && if remaining > 0 then size - remaining == Span(i, blockSize) && i < CeilDiv(size, blockSize)
       else i == CeilDiv(size, blockSize)
  }

  lemma BlocksStart(size: nat, blockSize: nat)
    requires blockSize > 0
    ensures AtBlock(size, blockSize, 0, size)
  {
    CeilDivBounds(size, blockSize);
  }

  lemma BlockStep(src: seq<byte>, blockSize: nat, i: nat, remaining: nat)
    requires blockSize > 0 && remaining > 0 && AtBlock(|src|, blockSize, i, remaining)
    ensures var n, at := if remaining < blockSize then remaining else blockSize, |src| - remaining;
            && Block(src, blockSize, i) == src[at..at + n]
            && AtBlock(|src|, blockSize, i + 1, remaining - n)
  {
    CeilDivBounds(|src|, blockSize);
    if i + 1 < CeilDiv(|src|, blockSize) {
      SpanMonotone(i + 1, CeilDiv(|src|, blockSize) - 1, blockSize);
    }
  }

  lemma WholeBlock(size: nat, blockSize: nat, i: nat, remaining: nat)
    requires blockSize > 0 && remaining > 0 && AtBlock(size, blockSize, i, remaining) && size % blockSize == 0
    ensures remaining >= blockSize
  {
    RoundIsBlocks(size, blockSize);
    SpanMonotone(i + 1, CeilDiv(size, blockSize), blockSize);
  }
}
