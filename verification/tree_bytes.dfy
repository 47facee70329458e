/**
 * Hash trees written out: which bytes are hashed, where each digest lies and what stands between digests, in terms of
 * hash function, salt, block size and digest size alone.
 */
module TreeBytes {
  import opened Bits
  import opened Bytes
  import opened FooterCommands
  import opened FooterLayout
  import opened FooterRuns
  import opened HashFooters
  import opened Hashing
  import opened HashtreeFooters
  import opened HashtreeVerify
  import opened Images
  import opened TreeRuns
  import opened Vbmeta
  import opened VbmetaBytes
  import opened Wrappers

  import B = VbmetaBlob
  import D = Descriptors
  import H = HashTree

  /** Block `i` of the source, whose last block is filled up with zeros. */
  function FullBlock(src: seq<byte>, blockSize: nat, i: nat): (b: seq<byte>)
    ensures |b| == blockSize
  {
    seq(blockSize, k requires 0 <= k < blockSize =>
      if Span(i, blockSize) + k < |src| then src[Span(i, blockSize) + k] else 0)
  }

  /**
   * One level over the source: the digest of every block behind the salt, each followed by zeros up to the width of an
   * entry, and behind the last one zeros up to whole blocks.
   */
  ghost predicate IsLevel(level: seq<byte>, src: seq<byte>, hash: HashFn, salt: seq<byte>, digestSize: nat, width: nat,
                          blockSize: nat)
    requires blockSize > 0 && digestSize <= width
  {
    var end := Span(CeilDiv(|src|, blockSize), width);
    && |level| == RoundToMultiple(end, blockSize)
    && (forall i :: 0 <= i < CeilDiv(|src|, blockSize) ==>
          && Span(i, width) + width <= end
          && level[Span(i, width)..Span(i, width) + width]
             == hash(salt + FullBlock(src, blockSize, i)) + Zeros(width - digestSize))
    && level[end..] == Zeros(|level| - end)
  }

  /** The levels over the source, the topmost first; a source of one block needs none. */
  ghost predicate IsTree(tree: seq<byte>, src: seq<byte>, hash: HashFn, salt: seq<byte>, digestSize: nat, width: nat,
                         blockSize: nat)
    requires blockSize > 0 && digestSize <= width
    decreases |tree|
  {
    if |src| <= blockSize then tree == []
    else
      var n := RoundToMultiple(Span(CeilDiv(|src|, blockSize), width), blockSize);
      && 0 < n <= |tree|
      && IsLevel(tree[|tree| - n..], src, hash, salt, digestSize, width, blockSize)
      && IsTree(tree[..|tree| - n], tree[|tree| - n..], hash, salt, digestSize, width, blockSize)
  }

  /** The block whose digest is the root: the topmost level, or without a level the source itself. */
  function TopBlock(tree: seq<byte>, src: seq<byte>, blockSize: nat): seq<byte> {
    FullBlock(if tree == [] then src else tree, blockSize, 0)
  }

  // -------------------------------------------------------------- what the recursion computes

  lemma BlockFilled(p: H.Params, src: seq<byte>, i: nat)
    requires p.blockSize > 0
    ensures H.BlockInput(p, H.Block(src, p.blockSize, i)) == p.salt + FullBlock(src, p.blockSize, i)
  {
    var b := H.Block(src, p.blockSize, i);
    assert b + Zeros(p.blockSize - |b|) == FullBlock(src, p.blockSize, i);
    assert p.salt + b + Zeros(p.blockSize - |b|) == p.salt + (b + Zeros(p.blockSize - |b|));
  }

  lemma EntryWritten(p: H.Params, src: seq<byte>, i: nat)
    requires H.Usable(p)
    ensures H.Entry(p, H.Block(src, p.blockSize, i))
         == p.hash(p.salt + FullBlock(src, p.blockSize, i)) + Zeros(H.EntrySize(p) - p.digestSize)
  {
    BlockFilled(p, src, i);
  }

  lemma {:induction false} EntryAt(p: H.Params, src: seq<byte>, n: nat, i: nat)
    requires H.Usable(p) && i < n
    ensures Span(i, H.EntrySize(p)) + H.EntrySize(p) <= Span(n, H.EntrySize(p))
    ensures H.Entries(p, src, n)[Span(i, H.EntrySize(p))..Span(i, H.EntrySize(p)) + H.EntrySize(p)]
         == H.Entry(p, H.Block(src, p.blockSize, i))
  {
    hide H.Entry, H.Block, H.Usable;
    H.UsableSizes(p);
    var w := H.EntrySize(p);
    var front := H.Entries(p, src, n - 1);
    EntriesUnfold(p, src, n);
    if i < n - 1 {
      EntryAt(p, src, n - 1, i);
      var at := Span(i, w);
      H.InPrefix(front, H.Entry(p, H.Block(src, p.blockSize, n - 1)), at, w);
    }
  }

  lemma EntriesUnfold(p: H.Params, src: seq<byte>, n: nat)
    requires H.Usable(p) && n > 0
    ensures H.Entries(p, src, n) == H.Entries(p, src, n - 1) + H.Entry(p, H.Block(src, p.blockSize, n - 1))
    ensures |H.Entry(p, H.Block(src, p.blockSize, n - 1))| == H.EntrySize(p)
  {
    hide H.Entry, H.Block;
  }

  lemma LevelWritten(p: H.Params, src: seq<byte>)
    requires H.Usable(p)
    ensures IsLevel(H.Level(p, src), src, p.hash, p.salt, p.digestSize, H.EntrySize(p), p.blockSize)
  {
    hide H.Entry, H.Block, FullBlock, H.Usable;
    H.UsableSizes(p);
    var n, w := CeilDiv(|src|, p.blockSize), H.EntrySize(p);
    var entries, level := H.Entries(p, src, n), H.Level(p, src);
    LevelIsPadded(p, src);
    forall i | 0 <= i < n
      ensures Span(i, w) + w <= Span(n, w)
      ensures level[Span(i, w)..Span(i, w) + w]
           == p.hash(p.salt + FullBlock(src, p.blockSize, i)) + Zeros(w - p.digestSize)
    {
      EntryAt(p, src, n, i);
      EntryWritten(p, src, i);
      H.InPrefix(entries, Zeros(|level| - |entries|), Span(i, w), w);
    }
  }

  lemma LevelIsPadded(p: H.Params, src: seq<byte>)
    requires H.Usable(p)
    ensures var entries := H.Entries(p, src, CeilDiv(|src|, p.blockSize));
            && |entries| == Span(CeilDiv(|src|, p.blockSize), H.EntrySize(p))
            && |H.Level(p, src)| == RoundToMultiple(|entries|, p.blockSize)
            && H.Level(p, src) == entries + Zeros(|H.Level(p, src)| - |entries|)
  {
    hide H.Entries, CeilDiv;
  }

  /** A level is determined by what IsLevel says. */
  lemma SameLevel(a: seq<byte>, b: seq<byte>, src: seq<byte>, hash: HashFn, salt: seq<byte>, digestSize: nat,
                  width: nat, blockSize: nat)
    requires blockSize > 0 && digestSize <= width && width > 0
    requires IsLevel(a, src, hash, salt, digestSize, width, blockSize)
    requires IsLevel(b, src, hash, salt, digestSize, width, blockSize)
    ensures a == b
  {
    hide FullBlock, CeilDiv;
    var n := CeilDiv(|src|, blockSize);
    var end := Span(n, width);
    forall k | 0 <= k < end
      ensures a[k] == b[k]
    {
      var i := k / width;
      InEntry(k, n, width);
      assert a[k] == a[Span(i, width)..Span(i, width) + width][k - Span(i, width)];
      assert b[k] == b[Span(i, width)..Span(i, width) + width][k - Span(i, width)];
    }
    forall k | end <= k < |a|
      ensures a[k] == b[k]
    {
      assert a[k] == a[end..][k - end] && b[k] == b[end..][k - end];
    }
  }

  lemma InEntry(k: nat, n: nat, width: nat)
    requires width > 0 && k < Span(n, width)
    ensures k / width < n && Span(k / width, width) <= k < Span(k / width, width) + width
  {
    var i := k / width;
    SpanIsProduct(i, width);
    if i >= n { H.SpanMonotone(n, i, width); }
  }

  /** The recursion computes the one tree that IsTree describes, and the root is the digest of its topmost block. */
  lemma {:induction false} TreeWritten(p: H.Params, src: seq<byte>)
    requires H.Usable(p)
    ensures IsTree(H.Tree(p, src), src, p.hash, p.salt, p.digestSize, H.EntrySize(p), p.blockSize)
    ensures H.Root(p, src) == p.hash(p.salt + TopBlock(H.Tree(p, src), src, p.blockSize))
    decreases |src|
  {
    hide H.Level, H.Usable, FullBlock, IsLevel;
    H.UsableSizes(p);
    TreeUnfolds(p, src);
    if |src| > p.blockSize {
      var level := H.Level(p, src);
      TreeWritten(p, level);
      LevelWritten(p, src);
      var tree := H.Tree(p, src);
      assert tree[|tree| - |level|..] == level && tree[..|tree| - |level|] == H.Tree(p, level);
      TopOfLonger(H.Tree(p, level), level, p.blockSize);
    } else {
      BlockFilled(p, src, 0);
      FirstBlock(p, src);
    }
  }

  lemma FirstBlock(p: H.Params, src: seq<byte>)
    requires H.Usable(p) && |src| <= p.blockSize
    ensures H.Block(src, p.blockSize, 0) == src
  {
    assert Span(0, p.blockSize) == 0;
  }

  lemma TopOfLonger(tree: seq<byte>, level: seq<byte>, blockSize: nat)
    requires tree == [] || blockSize <= |tree|
    ensures TopBlock(tree, level, blockSize) == FullBlock(tree + level, blockSize, 0)
  {
    assert Span(0, blockSize) == 0;
  }

  lemma TreeUnfolds(p: H.Params, src: seq<byte>)
    requires H.Usable(p)
    ensures |src| <= p.blockSize ==> H.Tree(p, src) == [] && H.Root(p, src) == p.hash(H.BlockInput(p, src))
    ensures |src| > p.blockSize ==>
              var level := H.Level(p, src);
              && |level| < |src| && H.Tree(p, src) == H.Tree(p, level) + level && H.Root(p, src) == H.Root(p, level)
              && |level| == RoundToMultiple(Span(CeilDiv(|src|, p.blockSize), H.EntrySize(p)), p.blockSize)
              && p.blockSize <= |level| && (H.Tree(p, level) == [] || p.blockSize <= |H.Tree(p, level)|)
              && (H.Tree(p, level) == [] ==> |level| == p.blockSize)
  {
    hide H.Level;
    if |src| > p.blockSize {
      var w := H.EntrySize(p);
      H.LevelShrinks(|src|, p.blockSize, w);
      var level := H.Level(p, src);
      if |level| > p.blockSize { H.LevelShrinks(|level|, p.blockSize, w); }
    }
  }

  lemma {:induction false} TreeIsUnique(a: seq<byte>, b: seq<byte>, src: seq<byte>, hash: HashFn, salt: seq<byte>,
                                        digestSize: nat, width: nat, blockSize: nat)
    requires blockSize > 0 && digestSize <= width && width > 0
    requires IsTree(a, src, hash, salt, digestSize, width, blockSize)
    requires IsTree(b, src, hash, salt, digestSize, width, blockSize)
    ensures a == b
    decreases |a|
  {
    hide IsLevel, CeilDiv;
    if |src| > blockSize {
      var n := RoundToMultiple(Span(CeilDiv(|src|, blockSize), width), blockSize);
      SameLevel(a[|a| - n..], b[|b| - n..], src, hash, salt, digestSize, width, blockSize);
      TreeIsUnique(a[..|a| - n], b[..|b| - n], a[|a| - n..], hash, salt, digestSize, width, blockSize);
      assert a == a[..|a| - n] + a[|a| - n..] && b == b[..|b| - n] + b[|b| - n..];
    }
  }

  // ----------------------------------------------------------------------- entry widths

  /** `width` is the least power of two that is not below the digest size. */
  ghost predicate IsWidth(width: nat, digestSize: nat) {
    digestSize <= width && exists j: nat :: width == Pow2(j) && (j == 0 || Pow2(j - 1) < digestSize)
  }

  lemma WidthIsEntry(hash: HashFn, salt: seq<byte>, blockSize: nat, digestSize: nat, width: nat)
    requires digestSize > 0 && IsWidth(width, digestSize)
    ensures var p := ParamsOf(hash, salt, blockSize, digestSize);
            && p.hash == hash && p.salt == salt && p.blockSize == blockSize && p.digestSize == digestSize
            && H.EntrySize(p) == width
  {
    RoundToPow2IsLeast(digestSize);
    var j: nat :| width == Pow2(j) && (j == 0 || Pow2(j - 1) < digestSize);
    var i := BitLength(digestSize - 1);
    if i < j { Pow2Monotone(i, j - 1); } else { Pow2Monotone(j, i); }
  }

  // ------------------------------------------------------------------------- verifying

  /**
   * What the hashtree descriptor checks: with `tree` the hash tree of the image, the root digest, if there is one, is
   * the digest of the topmost block, and unless a zeroed tree is accepted, the tree on disk is `tree`.
   */
  lemma JudgedMeans(content: seq<byte>, onDisk: seq<byte>, d: D.Descriptor, hash: HashFn, digestSize: nat,
                    acceptZeroed: bool, width: nat, tree: seq<byte>)
    requires Checkable(d, hash, digestSize) && d.dataBlockSize <= d.imageSize <= |content|
    requires IsWidth(width, digestSize) && d.dataBlockSize > 0
    requires IsTree(tree, content[..d.imageSize], hash, d.salt, digestSize, width, d.dataBlockSize)
    ensures Judged(content, Ok(onDisk), d, hash, digestSize, acceptZeroed)
         == Ok(&& (d.rootDigest == []
                   || d.rootDigest == hash(d.salt + TopBlock(tree, content[..d.imageSize], d.dataBlockSize)))
               && (onDisk == tree
                   || (acceptZeroed && (d.treeSize == 0
                                        || (|onDisk| >= 8 && onDisk[..8] == [90, 101, 82, 111, 72, 97, 83, 72])))))
  {
    hide IsTree, TopBlock, H.Tree, H.Root, H.Usable;
    var p, data := ParamsOf(hash, d.salt, d.dataBlockSize, digestSize), content[..d.imageSize];
    WidthIsEntry(hash, d.salt, d.dataBlockSize, digestSize, width);
    H.UsableSizes(p);
    TreeWritten(p, data);
    TreeIsUnique(tree, H.Tree(p, data), data, hash, d.salt, digestSize, width, d.dataBlockSize);
    MarkerRead(onDisk);
  }

  lemma MarkerRead(s: seq<byte>)
    ensures Slice(s, 0, |ZERO_MARKER|) == ZERO_MARKER
       <==> |s| >= 8 && s[..8] == [90, 101, 82, 111, 72, 97, 83, 72]
  {
  }

  // ------------------------------------------------------- what a finished image shows

  /** The root digest is that of the topmost block of the source's hash tree, or left out. */
  ghost predicate IsRoot(root: seq<byte>, data: seq<byte>, a: TreeArgs, width: nat)
    requires a.blockSize > 0 && a.digestSize <= width
  {
    if a.persistentRootDigest then root == []
    else
      forall tree :: IsTree(tree, data, a.hash, a.salt, a.digestSize, width, a.blockSize) ==>
                       root == a.hash(a.salt + TopBlock(tree, data, a.blockSize))
  }

  /**
   * A parsed image shows the hashtree footer that was asked for: in front the content, zeros up to whole hash blocks
   * and the hash tree, and a descriptor that says so.
   */
  ghost predicate ShowsTree(p: Parsed, image: seq<byte>, content: seq<byte>, a: TreeArgs, width: nat)
    requires a.blockSize > 0 && a.digestSize <= width
  {
    var data := PadTo(content, a.blockSize);
    && p.footer.Some? && p.footer.value.originalImageSize == |content|
    && Shows(p.header, a.input, a.persistentRootDigest || a.doNotUseAb || a.checkAtMostOnce)
    && |p.descriptors| == 1 + |a.input.descriptors|
    && p.descriptors[0].Hashtree? && Tells(p.descriptors[0], data, a, width)
    && HoldsTree(image, p.descriptors[0].treeSize, data, a, width)
  }

  /** The descriptor of the tree over the data. */
  ghost predicate Tells(d: D.Descriptor, data: seq<byte>, a: TreeArgs, width: nat)
    requires d.Hashtree? && a.blockSize > 0 && a.digestSize <= width
  {
    && d.version == 1 && d.imageSize == |data| && d.treeOffset == |data|
    && d.dataBlockSize == a.blockSize && d.hashBlockSize == a.blockSize
    && d.fecNumRoots == 0 && d.fecOffset == 0 && d.fecSize == 0
    && d.hashAlgorithm == a.algorithm && d.partitionName == a.partitionName && d.salt == a.salt
    && d.flags == (if a.doNotUseAb then 1 else 0) + (if a.checkAtMostOnce then 2 else 0)
    && IsRoot(d.rootDigest, data, a, width)
  }

  /** The data are in front, and behind them the tree, unless it is left out. */
  ghost predicate HoldsTree(image: seq<byte>, treeSize: nat, data: seq<byte>, a: TreeArgs, width: nat)
    requires a.blockSize > 0 && a.digestSize <= width
  {
    && |data| + treeSize <= |image| && image[..|data|] == data
    && if a.noHashtree then treeSize == 0
       else IsTree(image[|data|..|data| + treeSize], data, a.hash, a.salt, a.digestSize, width, a.blockSize)
  }

  lemma RootWritten(data: seq<byte>, a: TreeArgs, width: nat)
    requires a.digestSize > 0 && H.Usable(Params(a)) && IsWidth(width, a.digestSize) && a.blockSize > 0
    ensures IsTree(H.Tree(Params(a), data), data, a.hash, a.salt, a.digestSize, width, a.blockSize)
    ensures TreeDescriptor(data, a).Hashtree? && Tells(TreeDescriptor(data, a), data, a, width)
  {
    hide IsTree, TopBlock, H.Tree, H.Root, H.Usable;
    WidthIsEntry(a.hash, a.salt, a.blockSize, a.digestSize, width);
    TreeWritten(Params(a), data);
    forall tree | IsTree(tree, data, a.hash, a.salt, a.digestSize, width, a.blockSize)
      ensures tree == H.Tree(Params(a), data)
    {
      TreeIsUnique(tree, H.Tree(Params(a), data), data, a.hash, a.salt, a.digestSize, width, a.blockSize);
    }
  }

  lemma TreeInFront(image: seq<byte>, data: seq<byte>, tree: seq<byte>, padded: seq<byte>)
    requires tree <= padded && |data| + |padded| <= |image| && image[..|data| + |padded|] == data + padded
    ensures image[..|data|] == data && image[|data|..|data| + |tree|] == tree
  {
    var n := |data| + |padded|;
    SliceOfSlice(image, 0, n, |data|, |data| + |tree|);
    SliceOfSlice(image, 0, n, 0, |data|);
    assert image[0..n] == image[..n];
    assert (data + padded)[|data|..|data| + |tree|] == padded[..|tree|];
  }

  /** Every finished image with room for its parts shows what was asked for. */
  lemma FinishedShows(image: seq<byte>, content: seq<byte>, a: TreeArgs, c: Crypto, partitionSize: nat,
                      blockSize: nat, sizes: D.DigestSizes, width: nat)
    requires FOOTER_SIZE <= blockSize && ArgsFit(a, blockSize) && IsWidth(width, a.digestSize) && a.blockSize > 0
    requires HasHashtreeFooter(image, content, a, c, partitionSize, blockSize)
    requires TreeRoom(content, a, c, partitionSize, blockSize) && TreeParses(PadTo(content, a.blockSize), a, c, sizes)
    ensures ParseContent(image, sizes).Ok? && ShowsTree(ParseContent(image, sizes).value, image, content, a, width)
  {
    hide ParseContent, OffsetsInside, HasHashtreeFooter, TreeRoom, B.Generate, Lengths, H.Tree, H.Root, H.Usable, PadTo,
      IsTree, IsRoot, Shows, B.Assemble, Verdict, Checkable, IsVbmeta, Tells, HoldsTree, ArgsFit, TreeDescriptor,
      D.NormalizeAll, TreeParses, TreeBlob;
    var data := PadTo(content, a.blockSize);
    FinishedImageParses(image, content, a, c, partitionSize, blockSize, sizes);
    FinishedImage(image, content, a, c, partitionSize, blockSize, true);
    Positive(a, blockSize);
    RootWritten(data, a, width);
    ImageHolds(image, data, a, blockSize, width);
    var p := ParseContent(image, sizes).value;
    TreeInputShows(data, a, c, sizes, p.header, p.descriptors);
    FirstOfAll(TreeDescriptor(data, a), a.input.descriptors);
  }

  lemma ImageHolds(image: seq<byte>, data: seq<byte>, a: TreeArgs, blockSize: nat, width: nat)
    requires a.digestSize > 0 && H.Usable(Params(a)) && a.blockSize > 0 && blockSize > 0 && IsWidth(width, a.digestSize)
    requires |Base(data, a, blockSize)| <= |image| && image[..|Base(data, a, blockSize)|] == Base(data, a, blockSize)
    requires IsTree(H.Tree(Params(a), data), data, a.hash, a.salt, a.digestSize, width, a.blockSize)
    ensures HoldsTree(image, TreeDescriptor(data, a).treeSize, data, a, width)
  {
    hide IsTree, H.Tree, H.Root, H.Usable, PadTo;
    TreePadded(data, a, blockSize);
    TreeInFront(image, data, Tree(data, a), PadTo(Tree(data, a), blockSize));
  }

  lemma TreePadded(data: seq<byte>, a: TreeArgs, blockSize: nat)
    requires a.digestSize > 0 && H.Usable(Params(a)) && blockSize > 0
    ensures Tree(data, a) <= PadTo(Tree(data, a), blockSize)
    ensures |Base(data, a, blockSize)| == |data| + |PadTo(Tree(data, a), blockSize)|
  {
    hide H.Usable, H.Tree;
  }

  lemma FirstOfAll(d: D.Descriptor, rest: seq<D.Descriptor>)
    requires d.Hashtree?
    ensures |D.NormalizeAll([d] + rest)| == 1 + |rest| && D.NormalizeAll([d] + rest)[0] == d
  {
    assert ([d] + rest)[0] == d;
  }

  lemma TreeInputShows(data: seq<byte>, a: TreeArgs, c: Crypto, sizes: D.DigestSizes, h: Header,
                       ds: seq<D.Descriptor>)
    requires a.digestSize > 0 && H.Usable(Params(a)) && Encodable(a.input) && TreeParses(data, a, c, sizes)
    requires TreeBlob(data, a, c).Ok? && IsVbmeta(TreeBlob(data, a, c).value, h, ds, sizes)
    ensures Shows(h, a.input, a.persistentRootDigest || a.doNotUseAb || a.checkAtMostOnce)
  {
    hide B.Generate, Lengths, Shows, H.Usable, B.Assemble, ParseHeader, D.ParseAll, B.KeyBytes, B.SignatureBytes,
      B.SignedBytes, D.EncodeAll, TreeDescriptor, B.InRange;
    B.LayoutInverse(TreeInput(data, a), c.hashes, c.signer);
    GeneratedShows(TreeInput(data, a), c.hashes, c.signer, a.input,
                   a.persistentRootDigest || a.doNotUseAb || a.checkAtMostOnce);
    assert Slice(TreeBlob(data, a, c).value, 0, SIZE) == TreeBlob(data, a, c).value[..SIZE];
  }

  /** Parsing the image that add_hashtree_footer finished shows what was asked for. */
  method AddTreeThenParse(image: ImageHandler, partitionSize: nat, a: TreeArgs, c: Crypto, sizes: D.DigestSizes,
                          ghost width: nat)
    returns (first: Option<Error>, parsed: Result<Parsed>)
    requires Writable(image) && SaneFooter(StateOf(image), image.blockSize) && ArgsFit(a, image.blockSize)
    requires IsWidth(width, a.digestSize) && a.blockSize > 0
    requires ParsesBack(image.isSparse, Trim(image.Content()), a, c, partitionSize, image.blockSize, sizes)
    modifies image
    ensures image.isSparse == old(image.isSparse) && image.blockSize == old(image.blockSize) >= FOOTER_SIZE
    ensures TreeAdded(old(StateOf(image)), image.Content(), first, partitionSize, a, c, image.blockSize)
    ensures first == None ==>
              parsed.Ok? && ShowsTree(parsed.value, image.Content(), Trim(old(image.Content())), a, width)
  {
    hide Describes, TreeAdded, SaneFooter, Trim, ArgsFit, TreeRoom, TreeParses, ParseContent, OffsetsInside,
      HasHashtreeFooter, ParsesBack, ShowsTree, ParsedBy, IsWidth, FooterOf, Aligned, WholeOrLong, CleanCut,
      TrimmedChunks, Opens, TreeAddSticks, DataChunks;
    ghost var s, bs := StateOf(image), image.blockSize;
    WritableSize(image);
    if CleanCut(s, bs) { TrimmedIsWhole(image); }
    first := AddHashtreeFooter(image, partitionSize, a, c);
    parsed := Raised(AvbError);
    if first != None { return; }
    WritableSize(image);
    ghost var t := StateOf(image);
    TreeAddedIsReady(s, t, partitionSize, a, c, bs);
    AddedParses(s, t, partitionSize, a, c, bs, sizes);
    AddedShows(s, t, partitionSize, a, c, bs, sizes, width);
    ParsedInside(image, sizes);
    parsed := ParseImage(image, sizes);
  }

  lemma AddedShows(s: State, t: State, partitionSize: nat, a: TreeArgs, c: Crypto, blockSize: nat,
                   sizes: D.DigestSizes, width: nat)
    requires FOOTER_SIZE <= blockSize && ArgsFit(a, blockSize) && IsWidth(width, a.digestSize) && a.blockSize > 0
    requires TreeAdded(s, t.content, None, partitionSize, a, c, blockSize)
    requires ParsesBack(s.isSparse, Trim(s.content), a, c, partitionSize, blockSize, sizes)
    requires TreeRoom(Trim(s.content), a, c, partitionSize, blockSize)
    ensures ParseContent(t.content, sizes).Ok?
    ensures ShowsTree(ParseContent(t.content, sizes).value, t.content, Trim(s.content), a, width)
  {
    hide Trim, TrimmedChunks, CleanCut, CanAddTree, ArgsFit, HasHashtreeFooter, ParseContent, TreeRoom, TreeParses,
      ShowsTree, IsWidth;
    FinishedShows(t.content, Trim(s.content), a, c, partitionSize, blockSize, sizes, width);
  }

  // ------------------------------------------------------------------------- refusals

  /**
   * What the command refuses: a partition size that is no block multiple or, without one, such an image; less than a
   * hash block of data; and data that leave no room for a tree of the whole partition, 64 KiB and 4096 bytes.
   */
  lemma Refuses(s: State, after: seq<byte>, r: Option<Error>, partitionSize: nat, a: TreeArgs, c: Crypto,
                blockSize: nat, width: nat)
    requires FOOTER_SIZE <= blockSize && ArgsFit(a, blockSize) && IsWidth(width, a.digestSize) && a.blockSize > 0
    requires 2 * width <= a.blockSize && width > 0
    requires TreeAdded(s, after, r, partitionSize, a, c, blockSize)
    ensures (if partitionSize > 0 then partitionSize else |s.content|) % blockSize != 0 ==>
              r == Some(AvbError) && after == s.content
    ensures r == None ==> a.blockSize <= |PadTo(Trim(s.content), a.blockSize)|
    ensures var tree := if a.noHashtree then 0 else H.TreeSize(partitionSize, a.blockSize, width);
            && MaxSize(partitionSize, a) == partitionSize - tree - 69632
            && (r == None && partitionSize > 0 ==>
                  |PadTo(Trim(s.content), a.blockSize)| + tree + 69632 <= partitionSize)
  {
    hide CleanCut, Trim, TrimmedChunks, TreeBlob, H.TreeSize, HasHashtreeFooter, H.Usable, ChunksFit, PadTo, Tree;
    WidthIsEntry(a.hash, a.salt, a.blockSize, a.digestSize, width);
  }
}
