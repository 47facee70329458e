/** Runs in which zero_hashtree follows add_hashtree_footer, and then the image is verified or erased. */
module ZeroRuns {
  import opened Bytes
  import opened FooterCommands
  import opened FooterEdits
  import opened FooterLayout
  import opened FooterRuns
  import opened HashFooters
  import opened HashtreeFooters
  import opened HashtreeVerify
  import opened Hashing
  import opened Images
  import opened TreeRuns
  import opened Vbmeta
  import opened Wrappers

  import D = Descriptors
  import H = HashTree
  import SparseFormat

  // ---------------------------------------------------------------- what zeroing leaves

  /** Everything in front of the tree and everything behind it stays where it was. */
  ghost predicate OnlyTreeChanged(before: seq<byte>, after: seq<byte>, d: D.Descriptor)
    requires d.Hashtree?
  {
    var end := d.treeOffset + d.treeSize;
    && |after| == |before| && end <= |before|
    && after[..d.treeOffset] == before[..d.treeOffset] && after[end..] == before[end..]
  }

  lemma ZeroedKeeps(content: seq<byte>, d: D.Descriptor, blockSize: nat)
    requires d.Hashtree? && |ZERO_MARKER| <= blockSize && Aligned(content, d, blockSize)
    requires d.treeSize > 0 && d.fecOffset == 0
    ensures d.treeOffset + d.treeSize <= |content|
    ensures OnlyTreeChanged(content, WithoutTree(content, d, blockSize), d)
    ensures WithoutTree(content, d, blockSize)[d.treeOffset..d.treeOffset + d.treeSize] == Zeroed(d.treeSize, blockSize)
  {
    hide Zeroed;
    ZeroingKeepsTheRest(content, d, blockSize);
    BlockOrNothing(d.treeSize, blockSize);
  }

  lemma SameTail(before: seq<byte>, after: seq<byte>, end: nat)
    requires |before| == |after| && end + FOOTER_SIZE <= |before| && before[end..] == after[end..]
    ensures FooterOf(after) == FooterOf(before)
  {
    hide ParseFooter;
    var at := |before| - FOOTER_SIZE;
    assert before[at..] == before[end..][at - end..] && after[at..] == after[end..][at - end..];
  }

  /** The zeroed image parses to the same footer, header and descriptors. */
  lemma ZeroedParses(before: seq<byte>, after: seq<byte>, d: D.Descriptor, f: Footer, blob: seq<byte>, h: Header,
                     ds: seq<D.Descriptor>, sizes: D.DigestSizes)
    requires d.Hashtree? && OnlyTreeChanged(before, after, d)
    requires d.treeOffset + d.treeSize + FOOTER_SIZE <= |before| && FooterOf(before) == Some(f)
    requires d.treeOffset + d.treeSize <= f.vbmetaOffset && f.vbmetaOffset + |blob| <= |before|
    requires before[f.vbmetaOffset..f.vbmetaOffset + |blob|] == blob && IsVbmeta(blob, h, ds, sizes)
    ensures ParseContent(after, sizes) == Ok(Parsed(Some(f), h, ds, |after|)) && OffsetsInside(after)
  {
    hide FooterOf, IsVbmeta, ParseContent, OffsetsInside;
    var end, at := d.treeOffset + d.treeSize, f.vbmetaOffset;
    SameTail(before, after, end);
    SliceOfSlice(before, end, |before|, at - end, at - end + |blob|);
    SliceOfSlice(after, end, |after|, at - end, at - end + |blob|);
    ParsesTo(after, f, blob, h, ds, sizes);
  }

  /**
   * The verdict on a zeroed image whose data match the root: accepted if zeroed trees are, and otherwise only if the
   * tree itself is what zeroing writes.
   */
  lemma ZeroedVerdict(after: seq<byte>, data: seq<byte>, a: TreeArgs, blockSize: nat, acceptZeroed: bool)
    requires a.digestSize > 0 && H.Usable(Params(a)) && a.blockSize <= |data| && |ZERO_MARKER| <= blockSize
    requires !a.noHashtree && H.Tree(Params(a), data) != []
    requires blockSize <= |H.Tree(Params(a), data)| && |data| + |H.Tree(Params(a), data)| <= |after|
    requires after[..|data|] == data
    requires after[|data|..|data| + |H.Tree(Params(a), data)|] == Zeroed(|H.Tree(Params(a), data)|, blockSize)
    ensures Checkable(TreeDescriptor(data, a), a.hash, a.digestSize)
    ensures Verdict(after, TreeDescriptor(data, a), a.hash, a.digestSize, acceptZeroed)
         == Ok(acceptZeroed || H.Tree(Params(a), data) == Zeroed(|H.Tree(Params(a), data)|, blockSize))
  {
    hide H.Root, H.Tree, H.Usable, Zeroed;
    var n := |H.Tree(Params(a), data)|;
    WholeRead(after, |data|, n);
    ZeroedBegins(n, blockSize);
  }

  lemma ZeroedBegins(size: nat, blockSize: nat)
    requires |ZERO_MARKER| <= blockSize <= size
    ensures Slice(Zeroed(size, blockSize), 0, |ZERO_MARKER|) == ZERO_MARKER
  {
  }

  // ------------------------------------------------------------------------ the run

  /** The argument makes a tree: it is wanted, and the data are more than one block. */
  ghost predicate MakesTree(content: seq<byte>, a: TreeArgs, blockSize: nat)
    requires blockSize > 0 && ArgsFit(a, blockSize)
  {
    !a.noHashtree && |PadTo(content, a.blockSize)| > a.blockSize
  }

  /** What follows the tree fits one chunk of a sparse image. */
  ghost predicate TailFits(once: seq<byte>, isSparse: bool, content: seq<byte>, a: TreeArgs, blockSize: nat)
    requires blockSize > 0 && ArgsFit(a, blockSize)
  {
    var data := PadTo(content, a.blockSize);
    isSparse ==> |data| + |Tree(data, a)| <= |once| && ChunkFits(|once| - |data| - |Tree(data, a)|)
  }

  /** zero_hashtree after add_hashtree_footer: only the tree changes, and the image parses as before. */
  ghost predicate TreeZeroed(once: seq<byte>, after: seq<byte>, content: seq<byte>, a: TreeArgs, c: Crypto,
                             partitionSize: nat, blockSize: nat, sizes: D.DigestSizes)
    requires FOOTER_SIZE <= blockSize && ArgsFit(a, blockSize)
  {
    var data := PadTo(content, a.blockSize);
    var d := TreeDescriptor(data, a);
    && OnlyTreeChanged(once, after, d) && d.treeOffset == |data| && once[..|data|] == data
    && after[d.treeOffset..d.treeOffset + d.treeSize] == Zeroed(d.treeSize, blockSize)
    && ParseContent(after, sizes) == ParseContent(once, sizes) && OffsetsInside(after)
    && ParseContent(after, sizes).Ok? && FirstHashtree(ParseContent(after, sizes).value.descriptors) == Some(d)
    && FooterOf(after) == FooterOf(once) && FooterOf(after).Some?
    && FooterOf(after).value.originalImageSize == |content|
  }

  /**
   * On every sparse image, and on every plain one with room, the tree that add_hashtree_footer wrote can be zeroed,
   * unless what follows the tree is too long for one chunk.
   */
  method AddThenZero(image: ImageHandler, partitionSize: nat, a: TreeArgs, c: Crypto, sizes: D.DigestSizes)
    returns (first: Option<Error>, second: Option<Error>, ghost once: seq<byte>)
    requires Writable(image) && SaneFooter(StateOf(image), image.blockSize) && image.blockSize % 4 == 0
    requires ArgsFit(a, image.blockSize) && MakesTree(Trim(image.Content()), a, image.blockSize)
    requires ParsesBack(image.isSparse, Trim(image.Content()), a, c, partitionSize, image.blockSize, sizes)
    modifies image
    ensures image.isSparse == old(image.isSparse) && image.blockSize == old(image.blockSize) >= FOOTER_SIZE
    ensures TreeAdded(old(StateOf(image)), once, first, partitionSize, a, c, image.blockSize)
    ensures first == None ==>
              (second == None <==> TailFits(once, image.isSparse, Trim(old(image.Content())), a, image.blockSize))
    ensures first == None && second == None ==>
              && Writable(image)
              && TreeZeroed(once, image.Content(), Trim(old(image.Content())), a, c, partitionSize, image.blockSize,
                            sizes)
  {
    hide Describes, TreeAdded, Trim, PadTo, ArgsFit, ZeroOutcome, ParseContent, OffsetsInside, ParsesBack, CleanCut,
      HasHashtreeFooter, Aligned, H.Usable, TreeDescriptor, WithoutTree, SaneFooter, TreeToZero, WholeOrLong, FooterOf,
      Opens, TrimmedChunks, TreeRoom, DataChunks, ParsedBy, MakesTree, TailFits, TreeZeroed, FirstHashtree;
    ghost var s, bs := StateOf(image), image.blockSize;
    WritableSize(image);
    if CleanCut(s, bs) { TrimmedIsWhole(image); }
    first := AddHashtreeFooter(image, partitionSize, a, c);
    once, second := image.Content(), first;
    if first != None { return; }
    WritableSize(image);
    ghost var t := StateOf(image);
    TreeAddedIsReady(s, t, partitionSize, a, c, bs);
    AddedParses(s, t, partitionSize, a, c, bs, sizes);
    ParsedInside(image, sizes);
    second := ZeroHashtree(image, sizes);
    ZeroingEnds(s, t, image.Content(), Opens(image.file), second, partitionSize, a, c, bs, sizes);
  }

  lemma ZeroingEnds(s: State, t: State, after: seq<byte>, opens: bool, r: Option<Error>, partitionSize: nat,
                    a: TreeArgs, c: Crypto, blockSize: nat, sizes: D.DigestSizes)
    requires FOOTER_SIZE <= blockSize && ArgsFit(a, blockSize) && t.isSparse == s.isSparse
    requires s.isSparse || blockSize == PLAIN_BLOCK_SIZE
    requires TreeAdded(s, t.content, None, partitionSize, a, c, blockSize)
    requires MakesTree(Trim(s.content), a, blockSize)
    requires ParsesBack(s.isSparse, Trim(s.content), a, c, partitionSize, blockSize, sizes)
    requires s.isSparse ==> a.blockSize > 0 && DataChunks(t, TrimmedChunks(s), Trim(s.content), a.blockSize)
    requires var d := TreeDescriptor(PadTo(Trim(s.content), a.blockSize), a);
             && Aligned(t.content, d, blockSize) && ZeroOutcome(t, after, opens, r, d, blockSize)
    ensures r == None <==> TailFits(t.content, s.isSparse, Trim(s.content), a, blockSize)
    ensures r == None ==> TreeZeroed(t.content, after, Trim(s.content), a, c, partitionSize, blockSize, sizes)
  {
    hide Trim, PadTo, ArgsFit, ZeroOutcome, ParseContent, OffsetsInside, CleanCut, HasHashtreeFooter, H.Usable, H.Root,
      H.Tree, WithoutTree, FooterOf, TrimmedChunks, TreeRoom, TreeParses, DataChunks, TreeAdded, Zeroed, CanAddTree,
      TreeBlob, FooterPackable, WithFooter, MaxSize, IsVbmeta, D.NormalizeAll, ChunkFits, OnlyTreeChanged, Aligned;
    Positive(a, blockSize);
    var content := Trim(s.content);
    var data := PadTo(content, a.blockSize);
    var d := TreeDescriptor(data, a);
    AlignedRanges(t.content, d, blockSize);
    MadeTree(data, a, blockSize);
    ZeroRoom(s, t, partitionSize, a, c, blockSize);
    ZeroesIff(t, after, opens, r, d, blockSize);
    ZeroedIsWithoutTree(t, after, opens, r, d, blockSize);
    if r == None {
      ZeroedKeeps(t.content, d, blockSize);
      ZeroedInPlace(s, t, after, partitionSize, a, c, blockSize, sizes);
    }
  }

  /** The counts and sizes that a finished image has room for are enough for zeroing its tree. */
  lemma ZeroRoom(s: State, t: State, partitionSize: nat, a: TreeArgs, c: Crypto, blockSize: nat)
    requires FOOTER_SIZE <= blockSize && ArgsFit(a, blockSize) && t.isSparse == s.isSparse
    requires s.isSparse || blockSize == PLAIN_BLOCK_SIZE
    requires TreeAdded(s, t.content, None, partitionSize, a, c, blockSize)
    requires a.blockSize > 0 && Tree(PadTo(Trim(s.content), a.blockSize), a) != []
    requires s.isSparse ==> DataChunks(t, TrimmedChunks(s), Trim(s.content), a.blockSize)
    ensures CountsFit(t.isSparse, 0, |t.content|, blockSize)
    ensures var data := PadTo(Trim(s.content), a.blockSize);
            if s.isSparse then ChunkFits(blockSize) && ChunksAfter(t, |data|) + 3 < UINT32
            else SparseFormat.HEADER_SIZE <= |data|
  {
    hide CleanCut, PadTo, Trim, TrimmedChunks, ChunksAfter, H.Usable, H.Tree, TreeBlob, MaxSize, FooterPackable,
      ChunkFits, WithFooter;
    Positive(a, blockSize);
    BlockOrNothing(a.blockSize, blockSize);
  }

  /** Where a finished image has its data, its blob and its footer, and what they parse to. */
  ghost predicate InPlace(once: seq<byte>, content: seq<byte>, d: D.Descriptor, blob: seq<byte>, f: Footer, h: Header,
                          ds: seq<D.Descriptor>, sizes: D.DigestSizes)
    requires d.Hashtree?
  {
    && d.treeOffset + d.treeSize == f.vbmetaOffset && f.vbmetaOffset + |blob| + FOOTER_SIZE <= |once|
    && once[f.vbmetaOffset..f.vbmetaOffset + |blob|] == blob
    && FooterOf(once) == Some(f) && f.originalImageSize == |content|
    && IsVbmeta(blob, h, ds, sizes) && FirstHashtree(ds) == Some(d)
    && ParseContent(once, sizes) == Ok(Parsed(Some(f), h, ds, |once|))
  }

  lemma AddedInPlace(once: seq<byte>, content: seq<byte>, a: TreeArgs, c: Crypto, partitionSize: nat, blockSize: nat,
                     sizes: D.DigestSizes)
    requires FOOTER_SIZE <= blockSize && ArgsFit(a, blockSize)
    requires HasHashtreeFooter(once, content, a, c, partitionSize, blockSize)
    requires TreeRoom(content, a, c, partitionSize, blockSize) && TreeParses(PadTo(content, a.blockSize), a, c, sizes)
    requires Aligned(once, TreeDescriptor(PadTo(content, a.blockSize), a), blockSize)
    ensures var data := PadTo(content, a.blockSize);
            && |data| <= |once| && once[..|data|] == data
            && TreeBlob(data, a, c).Ok? && ParseContent(once, sizes).Ok?
            && var p, blob := ParseContent(once, sizes).value, TreeBlob(data, a, c).value;
            InPlace(once, content, TreeDescriptor(data, a), blob, FooterFor(content, Base(data, a, blockSize), blob),
                    p.header, p.descriptors, sizes)
  {
    hide PadTo, ArgsFit, ParseContent, HasHashtreeFooter, H.Usable, H.Root, H.Tree, FooterOf, TreeRoom, TreeParses,
      TreeBlob, IsVbmeta, FirstHashtree, Aligned, Base;
    Positive(a, blockSize);
    PartsInPlace(once, content, a, c, partitionSize, blockSize);
    ParsedInPlace(once, content, a, c, partitionSize, blockSize, sizes);
  }

  lemma PartsInPlace(once: seq<byte>, content: seq<byte>, a: TreeArgs, c: Crypto, partitionSize: nat, blockSize: nat)
    requires FOOTER_SIZE <= blockSize && ArgsFit(a, blockSize)
    requires HasHashtreeFooter(once, content, a, c, partitionSize, blockSize)
    requires TreeRoom(content, a, c, partitionSize, blockSize)
    requires Aligned(once, TreeDescriptor(PadTo(content, a.blockSize), a), blockSize)
    ensures var data := PadTo(content, a.blockSize);
            && |data| <= |once| && once[..|data|] == data && TreeBlob(data, a, c).Ok?
            && var end, blob := |data| + |Tree(data, a)|, TreeBlob(data, a, c).value;
            && |Base(data, a, blockSize)| == end && end + |blob| + FOOTER_SIZE <= |once|
            && once[end..end + |blob|] == blob
  {
    hide PadTo, ArgsFit, HasHashtreeFooter, H.Usable, H.Root, H.Tree, TreeRoom, TreeBlob, Verdict, Checkable, Trim,
      Base, Tree, Aligned;
    Positive(a, blockSize);
    var data := PadTo(content, a.blockSize);
    FinishedImage(once, content, a, c, partitionSize, blockSize, true);
    BlobInPlace(once, content, a, c, partitionSize, blockSize);
    BaseIsTreeEnd(once, data, a, blockSize);
    DataStays(once, data, a, blockSize);
  }

  lemma ParsedInPlace(once: seq<byte>, content: seq<byte>, a: TreeArgs, c: Crypto, partitionSize: nat, blockSize: nat,
                      sizes: D.DigestSizes)
    requires FOOTER_SIZE <= blockSize && ArgsFit(a, blockSize)
    requires HasHashtreeFooter(once, content, a, c, partitionSize, blockSize)
    requires TreeRoom(content, a, c, partitionSize, blockSize) && TreeParses(PadTo(content, a.blockSize), a, c, sizes)
    ensures var data := PadTo(content, a.blockSize);
            && TreeBlob(data, a, c).Ok? && ParseContent(once, sizes).Ok?
            && var p, blob := ParseContent(once, sizes).value, TreeBlob(data, a, c).value;
            var f := FooterFor(content, Base(data, a, blockSize), blob);
            && FooterOf(once) == Some(f) && p == Parsed(Some(f), p.header, p.descriptors, |once|)
            && IsVbmeta(blob, p.header, p.descriptors, sizes)
            && FirstHashtree(p.descriptors) == Some(TreeDescriptor(data, a))
  {
    hide PadTo, ArgsFit, ParseContent, OffsetsInside, HasHashtreeFooter, H.Usable, H.Root, H.Tree, FooterOf, TreeRoom,
      TreeParses, TreeBlob, IsVbmeta, D.NormalizeAll, FirstHashtree, Base, FooterFor;
    Positive(a, blockSize);
    FinishedImageParses(once, content, a, c, partitionSize, blockSize, sizes);
    FirstStays(TreeDescriptor(PadTo(content, a.blockSize), a), a.input.descriptors);
    FooterParsed(once, sizes);
    SizeParsed(once, sizes);
  }

  lemma ZeroedInPlace(s: State, t: State, after: seq<byte>, partitionSize: nat, a: TreeArgs, c: Crypto, blockSize: nat,
                      sizes: D.DigestSizes)
    requires FOOTER_SIZE <= blockSize && ArgsFit(a, blockSize) && t.isSparse == s.isSparse
    requires TreeAdded(s, t.content, None, partitionSize, a, c, blockSize)
    requires ParsesBack(s.isSparse, Trim(s.content), a, c, partitionSize, blockSize, sizes)
    requires var d := TreeDescriptor(PadTo(Trim(s.content), a.blockSize), a);
             && Aligned(t.content, d, blockSize) && OnlyTreeChanged(t.content, after, d)
             && after[d.treeOffset..d.treeOffset + d.treeSize] == Zeroed(d.treeSize, blockSize)
    ensures TreeZeroed(t.content, after, Trim(s.content), a, c, partitionSize, blockSize, sizes)
  {
    hide Trim, PadTo, ArgsFit, ParseContent, OffsetsInside, CleanCut, HasHashtreeFooter, H.Usable, H.Root, H.Tree,
      FooterOf, TrimmedChunks, TreeRoom, TreeParses, Zeroed, CanAddTree, TreeBlob, IsVbmeta, Aligned, FirstHashtree,
      FooterFor, Base;
    Positive(a, blockSize);
    var content := Trim(s.content);
    var data := PadTo(content, a.blockSize);
    if s.isSparse { RoomWhen(true, TrimmedChunks(s), content, a, c, partitionSize, blockSize); }
    AddedInPlace(t.content, content, a, c, partitionSize, blockSize, sizes);
    var p, blob := ParseContent(t.content, sizes).value, TreeBlob(data, a, c).value;
    ZeroedParses(t.content, after, TreeDescriptor(data, a), FooterFor(content, Base(data, a, blockSize), blob), blob,
                 p.header, p.descriptors, sizes);
    SameTail(t.content, after, |data| + |Tree(data, a)|);
  }

  lemma SizeParsed(content: seq<byte>, sizes: D.DigestSizes)
    ensures ParseContent(content, sizes).Ok? ==> ParseContent(content, sizes).value.imageSize == |content|
  {
  }

  /** A tree of whole blocks needs no padding. */
  lemma BaseIsTreeEnd(image: seq<byte>, data: seq<byte>, a: TreeArgs, blockSize: nat)
    requires blockSize > 0 && ArgsFit(a, blockSize) && Aligned(image, TreeDescriptor(data, a), blockSize)
    ensures |Base(data, a, blockSize)| == |data| + |Tree(data, a)|
  {
    hide H.Usable, H.Tree, H.Root;
    PaddedWhole(Tree(data, a), blockSize);
  }

  lemma DataStays(image: seq<byte>, data: seq<byte>, a: TreeArgs, blockSize: nat)
    requires blockSize > 0 && ArgsFit(a, blockSize)
    requires var base := Base(data, a, blockSize); |base| <= |image| && image[..|base|] == base
    ensures |data| <= |image| && image[..|data|] == data
  {
    hide PadTo, H.Usable, H.Tree;
    DataInFront(image, data, PadTo(Tree(data, a), blockSize));
  }

  lemma BlobInPlace(image: seq<byte>, content: seq<byte>, a: TreeArgs, c: Crypto, partitionSize: nat, blockSize: nat)
    requires FOOTER_SIZE <= blockSize && ArgsFit(a, blockSize)
    requires HasHashtreeFooter(image, content, a, c, partitionSize, blockSize)
    requires TreeRoom(content, a, c, partitionSize, blockSize)
    ensures var data := PadTo(content, a.blockSize);
            && TreeBlob(data, a, c).Ok?
            && var at, blob := |Base(data, a, blockSize)|, TreeBlob(data, a, c).value;
            at + |blob| + FOOTER_SIZE <= |image| && image[at..at + |blob|] == blob
  {
    hide FooterPackable, TreeBlob, H.Tree, H.Usable, MaxSize, PadTo, FooterBlock;
    var data := PadTo(content, a.blockSize);
    var base, blob := Base(data, a, blockSize), TreeBlob(data, a, c).value;
    PaddedBegins(blob, blockSize);
    ClosedKeeps(base + PadTo(blob, blockSize), FinalSize(base, blob, partitionSize, blockSize), blockSize,
                FooterFor(content, base, blob), |base| + |blob|);
    BlobBehind(image, base, blob, PadTo(blob, blockSize));
  }

  lemma PaddedBegins(s: seq<byte>, blockSize: nat)
    requires blockSize > 0
    ensures s <= PadTo(s, blockSize)
  {
  }

  /** The tree is not empty. */
  lemma MadeTree(data: seq<byte>, a: TreeArgs, blockSize: nat)
    requires a.digestSize > 0 && H.Usable(Params(a)) && !a.noHashtree && |data| > a.blockSize
    ensures Tree(data, a) == H.Tree(Params(a), data) != []
  {
    hide H.Level, H.Usable;
    EmptyTree(Params(a), data);
  }

  /** The verdict on a zeroed image: as on any image, but for the tree. */
  method AddZeroThenCheck(image: ImageHandler, partitionSize: nat, a: TreeArgs, c: Crypto, sizes: D.DigestSizes,
                          acceptZeroed: bool)
    returns (first: Option<Error>, second: Option<Error>, verdict: Result<bool>)
    requires Writable(image) && SaneFooter(StateOf(image), image.blockSize) && image.blockSize % 4 == 0
    requires ArgsFit(a, image.blockSize) && MakesTree(Trim(image.Content()), a, image.blockSize)
    requires ParsesBack(image.isSparse, Trim(image.Content()), a, c, partitionSize, image.blockSize, sizes)
    modifies image
    ensures image.isSparse == old(image.isSparse) && image.blockSize == old(image.blockSize) >= FOOTER_SIZE
    ensures first == None && second == None ==>
              var tree := Tree(PadTo(Trim(old(image.Content())), a.blockSize), a);
              verdict == Ok(acceptZeroed || tree == Zeroed(|tree|, image.blockSize))
  {
    hide Describes, TreeAdded, Trim, ArgsFit, ParsesBack, SaneFooter, MakesTree, TailFits, TreeZeroed, Verdict,
      Checkable, ParseContent, OffsetsInside, PadTo, TreeDescriptor, Tree, FirstHashtree, Zeroed;
    ghost var content, bs := Trim(image.Content()), image.blockSize;
    ghost var once;
    first, second, once := AddThenZero(image, partitionSize, a, c, sizes);
    verdict := Raised(AvbError);
    if first != None || second != None { return; }
    image.ContentSize();
    Positive(a, bs);
    ZeroedChecks(once, image.Content(), content, a, c, partitionSize, bs, sizes, acceptZeroed);
    verdict := CheckTree(image, sizes, a.hash, a.digestSize, acceptZeroed,
                         TreeDescriptor(PadTo(content, a.blockSize), a));
  }

  lemma ZeroedChecks(once: seq<byte>, after: seq<byte>, content: seq<byte>, a: TreeArgs, c: Crypto,
                     partitionSize: nat, blockSize: nat, sizes: D.DigestSizes, acceptZeroed: bool)
    requires FOOTER_SIZE <= blockSize && ArgsFit(a, blockSize) && MakesTree(content, a, blockSize)
    requires TreeZeroed(once, after, content, a, c, partitionSize, blockSize, sizes)
    ensures OffsetsInside(after) && ParseContent(after, sizes).Ok?
    ensures var d := TreeDescriptor(PadTo(content, a.blockSize), a);
            var tree := Tree(PadTo(content, a.blockSize), a);
            && FirstHashtree(ParseContent(after, sizes).value.descriptors) == Some(d)
            && Checkable(d, a.hash, a.digestSize) && d.imageSize == d.treeOffset <= |after|
            && Verdict(after, d, a.hash, a.digestSize, acceptZeroed)
               == Ok(acceptZeroed || tree == Zeroed(|tree|, blockSize))
  {
    hide ParseContent, OffsetsInside, H.Usable, H.Tree, H.Root, PadTo, Zeroed, Verdict, ArgsFit, FooterOf;
    Positive(a, blockSize);
    var data := PadTo(content, a.blockSize);
    MadeTree(data, a, blockSize);
    TreeTakesABlock(data, a, blockSize);
    ZeroedVerdict(after, data, a, blockSize, acceptZeroed);
  }

  lemma TreeTakesABlock(data: seq<byte>, a: TreeArgs, blockSize: nat)
    requires blockSize > 0 && ArgsFit(a, blockSize) && !a.noHashtree && Tree(data, a) != []
    ensures blockSize <= |Tree(data, a)|
  {
    hide H.Usable, H.TreeSize;
    Positive(a, blockSize);
    HashBlockFits(a, blockSize);
    H.UsableSizes(Params(a));
    TreeIsBlocks(|data|, a.blockSize, H.EntrySize(Params(a)));
    BlockOrNothing(|Tree(data, a)|, a.blockSize);
    BlockOrNothing(a.blockSize, blockSize);
  }

  /** Erasing a zeroed image gives the original content back. */
  method AddZeroThenErase(image: ImageHandler, partitionSize: nat, a: TreeArgs, c: Crypto, sizes: D.DigestSizes)
    returns (first: Option<Error>, second: Option<Error>, third: Option<Error>)
    requires Writable(image) && SaneFooter(StateOf(image), image.blockSize) && image.blockSize % 4 == 0
    requires ArgsFit(a, image.blockSize) && MakesTree(Trim(image.Content()), a, image.blockSize)
    requires ParsesBack(image.isSparse, Trim(image.Content()), a, c, partitionSize, image.blockSize, sizes)
    modifies image
    ensures image.isSparse == old(image.isSparse) && image.blockSize == old(image.blockSize) >= FOOTER_SIZE
    ensures first == None && second == None ==>
              third == None && Writable(image) && image.Content() == Trim(old(image.Content()))
  {
    hide Describes, TreeAdded, Trim, ArgsFit, ParsesBack, SaneFooter, MakesTree, TailFits, TreeZeroed, Erased,
      ParseContent, OffsetsInside, WholeOrLong, CleanCut, FooterOf, TrimmedChunks;
    ghost var s, content, bs := StateOf(image), Trim(image.Content()), image.blockSize;
    WritableSize(image);
    if CleanCut(s, bs) { TrimmedIsWhole(image); }
    ghost var once;
    first, second, once := AddThenZero(image, partitionSize, a, c, sizes);
    third := second;
    if first != None || second != None { return; }
    ghost var t := StateOf(image);
    AddedIsWhole(s, once, partitionSize, a, c, bs);
    ZeroedErases(once, t.content, content, a, c, partitionSize, bs, sizes);
    ParsedInside(image, sizes);
    third := EraseFooter(image, false, sizes);
    ParsedErases(t, image.Content(), third, content, bs, sizes);
  }

  lemma AddedIsWhole(s: State, once: seq<byte>, partitionSize: nat, a: TreeArgs, c: Crypto, blockSize: nat)
    requires FOOTER_SIZE <= blockSize && ArgsFit(a, blockSize)
    requires TreeAdded(s, once, None, partitionSize, a, c, blockSize)
    requires CleanCut(s, blockSize) ==> WholeOrLong(s.isSparse, Trim(s.content), blockSize)
    ensures WholeOrLong(s.isSparse, Trim(s.content), blockSize)
  {
    hide CleanCut, WholeOrLong, Trim, TrimmedChunks, CanAddTree, HasHashtreeFooter, ArgsFit;
  }

  lemma ZeroedErases(once: seq<byte>, after: seq<byte>, content: seq<byte>, a: TreeArgs, c: Crypto,
                     partitionSize: nat, blockSize: nat, sizes: D.DigestSizes)
    requires FOOTER_SIZE <= blockSize && ArgsFit(a, blockSize)
    requires TreeZeroed(once, after, content, a, c, partitionSize, blockSize, sizes)
    ensures OffsetsInside(after) && ParseContent(after, sizes).Ok? && Trim(after) == content && |content| <= |after|
    ensures FooterOf(after).Some? && FooterOf(after).value.originalImageSize == |content|
  {
    hide ParseContent, OffsetsInside, H.Usable, H.Tree, H.Root, Zeroed, FooterOf, PadTo;
    var data := PadTo(content, a.blockSize);
    PaddedBegins(content, a.blockSize);
    assert after[..|data|][..|content|] == after[..|content|];
  }
}
