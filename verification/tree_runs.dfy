/** Runs of add_hashtree_footer with itself, with erase_footer and with the hashtree descriptor's verify. */
module TreeRuns {
  import opened Bytes
  import opened FooterCommands
  import opened FooterEdits
  import opened FooterLayout
  import opened FooterRuns
  import opened HashFooters
  import opened HashtreeFooters
  import opened HashtreeVerify
  import opened Hashing
  import opened Images
  import opened Vbmeta
  import opened Wrappers

  import D = Descriptors
  import H = HashTree

  /** A finished image shows its footer, erasing it gives the content back, and its size is whole blocks. */
  lemma TreeErases(isSparse: bool, chunks: nat, once: seq<byte>, content: seq<byte>, a: TreeArgs, c: Crypto,
                   partitionSize: nat, blockSize: nat)
    requires FOOTER_SIZE <= blockSize && ArgsFit(a, blockSize) && (isSparse || blockSize == PLAIN_BLOCK_SIZE)
    requires partitionSize % blockSize == 0 && HasHashtreeFooter(once, content, a, c, partitionSize, blockSize)
    requires CanAddTree(isSparse, chunks, content, a, c, partitionSize, blockSize)
    ensures Trim(once) == content && |content| <= |once| && |once| % blockSize == 0
    ensures FooterOf(once).Some? && FooterOf(once).value.originalImageSize == |content|
  {
    hide FooterPackable, PadTo, Fit, CountsFit, ChunkFits, TreeBlob, Tree, H.Usable, MaxSize, ArgsFit, FooterOf,
      Trim, WithFooter;
    Positive(a, blockSize);
    var data := PadTo(content, a.blockSize);
    var base, blob := Base(data, a, blockSize), TreeBlob(data, a, c).value;
    HashBlockFits(a, blockSize);
    BaseIsBlocks(data, Tree(data, a), a.blockSize, blockSize);
    PaddedIsBlocks(base, blob, blockSize);
    SumIsBlocks(|base + PadTo(blob, blockSize)|, blockSize, blockSize);
    MetadataRoom(partitionSize, a, |data|);
    EraseUndoesAdd(content, base, blob, FinalSize(base, blob, partitionSize, blockSize), blockSize);
  }

  lemma TreeAddedIsReady(s: State, t: State, partitionSize: nat, a: TreeArgs, c: Crypto, blockSize: nat)
    requires FOOTER_SIZE <= blockSize && ArgsFit(a, blockSize) && (s.isSparse || blockSize == PLAIN_BLOCK_SIZE)
    requires t.isSparse == s.isSparse && TreeAdded(s, t.content, None, partitionSize, a, c, blockSize)
    requires CleanCut(s, blockSize) ==> WholeOrLong(s.isSparse, Trim(s.content), blockSize)
    ensures SaneFooter(t, blockSize) && CleanCut(t, blockSize) && Trim(t.content) == Trim(s.content)
    ensures |t.content| % blockSize == 0 && WholeOrLong(s.isSparse, Trim(s.content), blockSize)
    ensures FooterOf(t.content).Some? && FooterOf(t.content).value.originalImageSize == |Trim(s.content)| <= |t.content|
    ensures HasHashtreeFooter(t.content, Trim(s.content), a, c, partitionSize, blockSize)
  {
    hide SaneFooter, CleanCut, FooterOf, Trim, TrimmedChunks, WholeOrLong, HasHashtreeFooter, CanAddTree, ArgsFit;
    var content := Trim(s.content);
    ZeroIsBlocks(blockSize);
    TreeErases(s.isSparse, TrimmedChunks(s), t.content, content, a, c, partitionSize, blockSize);
    ReadyAgain(t, content, blockSize);
  }

  lemma TreeAddedTwice(s: State, t: State, after: seq<byte>, r: Option<Error>, partitionSize: nat,
                       a: TreeArgs, c: Crypto, blockSize: nat)
    requires FOOTER_SIZE <= blockSize && ArgsFit(a, blockSize) && t.isSparse == s.isSparse && CleanCut(t, blockSize)
    requires Trim(t.content) == Trim(s.content) && TrimmedChunks(t) == TrimmedChunks(s) && |t.content| % blockSize == 0
    requires TreeAdded(s, t.content, None, partitionSize, a, c, blockSize)
    requires TreeAdded(t, after, r, partitionSize, a, c, blockSize)
    ensures r == None && after == t.content
  {
    hide CleanCut, Trim, TrimmedChunks, CanAddTree, ArgsFit, TreeBlob, Base, WithFooter, FooterPackable, PadTo,
      H.Usable, DataFits, FinalSize;
    Positive(a, blockSize);
  }

  /** Running add_hashtree_footer a second time succeeds and changes nothing. */
  method AddTreeTwice(image: ImageHandler, partitionSize: nat, a: TreeArgs, c: Crypto)
    returns (first: Option<Error>, second: Option<Error>, ghost once: seq<byte>)
    requires Writable(image) && SaneFooter(StateOf(image), image.blockSize) && ArgsFit(a, image.blockSize)
    modifies image
    ensures image.isSparse == old(image.isSparse) && image.blockSize == old(image.blockSize) >= FOOTER_SIZE
    ensures TreeAdded(old(StateOf(image)), once, first, partitionSize, a, c, image.blockSize)
    ensures image.Content() == once
    ensures first == None ==> second == None && Writable(image)
  {
    hide Describes, TreeAdded, SaneFooter, CleanCut, Trim, TrimmedChunks, WholeOrLong, ArgsFit, HasHashtreeFooter;
    ghost var s, bs := StateOf(image), image.blockSize;
    WritableSize(image);
    if CleanCut(s, bs) { TrimmedIsWhole(image); }
    first := AddHashtreeFooter(image, partitionSize, a, c);
    once, second := image.Content(), first;
    if first != None { return; }
    ghost var t := StateOf(image);
    TreeAddedIsReady(s, t, partitionSize, a, c, bs);
    second := AddHashtreeFooter(image, partitionSize, a, c);
    TreeAddedTwice(s, t, image.Content(), second, partitionSize, a, c, bs);
  }

  /**
   * The conditions under which a finished image parses: the descriptors can be parsed, and a plain image has room for
   * data, tree, blob and footer block.
   */
  ghost predicate ParsesBack(isSparse: bool, content: seq<byte>, a: TreeArgs, c: Crypto, partitionSize: nat,
                             blockSize: nat, sizes: D.DigestSizes)
    requires blockSize > 0 && ArgsFit(a, blockSize)
  {
    && TreeParses(PadTo(content, a.blockSize), a, c, sizes)
    && (isSparse || TreeRoom(content, a, c, partitionSize, blockSize))
  }

  /** add_hashtree_footer and then erase_footer give the original content back. */
  method AddTreeThenErase(image: ImageHandler, partitionSize: nat, a: TreeArgs, c: Crypto, sizes: D.DigestSizes)
    returns (first: Option<Error>, second: Option<Error>, ghost once: seq<byte>)
    requires Writable(image) && SaneFooter(StateOf(image), image.blockSize) && ArgsFit(a, image.blockSize)
    modifies image
    ensures image.isSparse == old(image.isSparse) && image.blockSize == old(image.blockSize) >= FOOTER_SIZE
    ensures TreeAdded(old(StateOf(image)), once, first, partitionSize, a, c, image.blockSize)
    ensures first == None && second == None ==> Writable(image) && image.Content() == Trim(old(image.Content()))
    ensures first == None
            && ParsesBack(image.isSparse, Trim(old(image.Content())), a, c, partitionSize, image.blockSize, sizes) ==>
              second == None
  {
    hide Describes, TreeAdded, SaneFooter, CleanCut, Trim, TrimmedChunks, WholeOrLong, ArgsFit, HasHashtreeFooter,
      Erased, OffsetsInside, ParseContent, ParsesBack;
    ghost var s, bs := StateOf(image), image.blockSize;
    WritableSize(image);
    if CleanCut(s, bs) { TrimmedIsWhole(image); }
    first := AddHashtreeFooter(image, partitionSize, a, c);
    once, second := image.Content(), first;
    if first != None { return; }
    ghost var t := StateOf(image);
    TreeAddedIsReady(s, t, partitionSize, a, c, bs);
    ParsedInside(image, sizes);
    second := EraseFooter(image, false, sizes);
    if ParsesBack(s.isSparse, Trim(s.content), a, c, partitionSize, bs, sizes) {
      AddedParses(s, t, partitionSize, a, c, bs, sizes);
      ParsedErases(t, image.Content(), second, Trim(s.content), bs, sizes);
    }
  }

  lemma ParsedErases(t: State, after: seq<byte>, r: Option<Error>, content: seq<byte>, blockSize: nat,
                     sizes: D.DigestSizes)
    requires blockSize > 0 && WholeOrLong(t.isSparse, content, blockSize) && |content| <= |t.content|
    requires FooterOf(t.content).Some? && FooterOf(t.content).value.originalImageSize == |content|
    requires ParseContent(t.content, sizes).Ok? && Erased(t, after, r, ParseContent(t.content, sizes), false, blockSize)
    ensures r == None
  {
    hide FooterOf, Erased, WholeOrLong;
    var p := ParseContent(t.content, sizes).value;
    FooterParsed(t.content, sizes);
    FinishedIsErasable(t, after, r, content, p.footer.value, p.header, p.descriptors, blockSize);
  }

  /** What parsing finds in an image with a hashtree footer: the descriptor of its tree first, and whole blocks. */
  lemma AddedParses(s: State, t: State, partitionSize: nat, a: TreeArgs, c: Crypto, blockSize: nat,
                    sizes: D.DigestSizes)
    requires FOOTER_SIZE <= blockSize && ArgsFit(a, blockSize) && t.isSparse == s.isSparse
    requires TreeAdded(s, t.content, None, partitionSize, a, c, blockSize) && |t.content| % blockSize == 0
    requires ParsesBack(s.isSparse, Trim(s.content), a, c, partitionSize, blockSize, sizes)
    ensures OffsetsInside(t.content) && ParseContent(t.content, sizes).Ok?
    ensures TreeRoom(Trim(s.content), a, c, partitionSize, blockSize)
    ensures var d := TreeDescriptor(PadTo(Trim(s.content), a.blockSize), a);
            && FirstHashtree(ParseContent(t.content, sizes).value.descriptors) == Some(d)
            && TreeToZero(ParseContent(t.content, sizes)) == Ok(d) && Aligned(t.content, d, blockSize)
  {
    hide Trim, TrimmedChunks, CleanCut, CanAddTree, ArgsFit, HasHashtreeFooter, OffsetsInside, ParseContent, TreeRoom,
      TreeParses, H.Root, H.Tree, H.Usable, PadTo, D.NormalizeAll, TreeBlob, IsVbmeta, Aligned;
    Positive(a, blockSize);
    var content := Trim(s.content);
    if s.isSparse { RoomWhen(true, TrimmedChunks(s), content, a, c, partitionSize, blockSize); }
    FinishedImageParses(t.content, content, a, c, partitionSize, blockSize, sizes);
    FinishedImage(t.content, content, a, c, partitionSize, blockSize, true);
    FirstStays(TreeDescriptor(PadTo(content, a.blockSize), a), a.input.descriptors);
    TreeAligned(t.content, PadTo(content, a.blockSize), a, blockSize);
  }

  lemma FirstStays(d: D.Descriptor, rest: seq<D.Descriptor>)
    requires d.Hashtree?
    ensures FirstHashtree(D.NormalizeAll([d] + rest)) == Some(d)
  {
    assert ([d] + rest)[0] == d;
  }

  /** The tree takes whole blocks behind whole blocks. */
  lemma TreeAligned(image: seq<byte>, data: seq<byte>, a: TreeArgs, blockSize: nat)
    requires blockSize > 0 && ArgsFit(a, blockSize) && |image| % blockSize == 0 && |data| % a.blockSize == 0
    requires |Base(data, a, blockSize)| <= |image|
    ensures Aligned(image, TreeDescriptor(data, a), blockSize)
  {
    hide H.Root, H.Usable, H.TreeSize;
    Positive(a, blockSize);
    HashBlockFits(a, blockSize);
    RoundingIsBlocks(0, |data|, a.blockSize, blockSize);
    if !a.noHashtree {
      H.UsableSizes(Params(a));
      TreeIsBlocks(|data|, a.blockSize, H.EntrySize(Params(a)));
    }
    RoundingIsBlocks(0, |Tree(data, a)|, a.blockSize, blockSize);
    PaddedWhole(Tree(data, a), blockSize);
  }

  /** The verdict on an image that has just been given its tree: accepted, unless the tree was left out. */
  function FreshVerdict(data: seq<byte>, a: TreeArgs, acceptZeroed: bool): bool {
    !a.noHashtree || acceptZeroed || |data| == a.blockSize
  }

  /**
   * The hashtree descriptor accepts the tree that add_hashtree_footer wrote, on every sparse image, and on every
   * plain one with room for data, tree, blob and footer block.
   */
  method AddTreeThenVerify(image: ImageHandler, partitionSize: nat, a: TreeArgs, c: Crypto, d: D.Descriptor,
                           acceptZeroed: bool)
    returns (first: Option<Error>, verdict: Result<bool>)
    requires Writable(image) && SaneFooter(StateOf(image), image.blockSize) && ArgsFit(a, image.blockSize)
    requires d == TreeDescriptor(PadTo(Trim(image.Content()), a.blockSize), a)
    modifies image
    ensures image.isSparse == old(image.isSparse) && image.blockSize == old(image.blockSize) >= FOOTER_SIZE
    ensures TreeAdded(old(StateOf(image)), image.Content(), first, partitionSize, a, c, image.blockSize)
    ensures first == None
            && (image.isSparse || TreeRoom(Trim(old(image.Content())), a, c, partitionSize, image.blockSize)) ==>
              verdict == Ok(FreshVerdict(PadTo(Trim(old(image.Content())), a.blockSize), a, acceptZeroed))
  {
    hide Describes, TreeAdded, SaneFooter, CleanCut, Trim, TrimmedChunks, ArgsFit, TreeRoom, Verdict, Judged,
      H.Usable, PadTo, TreeDescriptor, Checkable, ReadsAt;
    ghost var s, bs := StateOf(image), image.blockSize;
    Positive(a, bs);
    WritableSize(image);
    first := AddHashtreeFooter(image, partitionSize, a, c);
    verdict := Raised(AvbError);
    if first != None { return; }
    WritableSize(image);
    ghost var t := StateOf(image);
    FreshIsCheckable(s, t, partitionSize, a, c, bs);
    verdict := Verify(image, d, a.hash, a.digestSize, acceptZeroed);
    if s.isSparse || TreeRoom(Trim(s.content), a, c, partitionSize, bs) {
      FreshIsAccepted(s, t, partitionSize, a, c, bs, acceptZeroed);
    }
  }

  lemma FreshIsCheckable(s: State, t: State, partitionSize: nat, a: TreeArgs, c: Crypto, blockSize: nat)
    requires FOOTER_SIZE <= blockSize && ArgsFit(a, blockSize) && (s.isSparse || blockSize == PLAIN_BLOCK_SIZE)
    requires TreeAdded(s, t.content, None, partitionSize, a, c, blockSize)
    ensures var d := TreeDescriptor(PadTo(Trim(s.content), a.blockSize), a);
            Checkable(d, a.hash, a.digestSize) && d.imageSize == d.treeOffset <= |t.content|
  {
    hide Trim, TrimmedChunks, CleanCut, CanAddTree, PadTo, H.Usable, H.Tree, H.Root, MaxSize, FooterPackable, TreeBlob,
      WithFooter;
    var data := PadTo(Trim(s.content), a.blockSize);
    MetadataRoom(partitionSize, a, |data|);
  }

  lemma FreshIsAccepted(s: State, t: State, partitionSize: nat, a: TreeArgs, c: Crypto, blockSize: nat,
                        acceptZeroed: bool)
    requires FOOTER_SIZE <= blockSize && ArgsFit(a, blockSize)
    requires TreeAdded(s, t.content, None, partitionSize, a, c, blockSize)
    requires s.isSparse || TreeRoom(Trim(s.content), a, c, partitionSize, blockSize)
    ensures var data := PadTo(Trim(s.content), a.blockSize);
            && |data| <= |t.content| && Checkable(TreeDescriptor(data, a), a.hash, a.digestSize)
            && Verdict(t.content, TreeDescriptor(data, a), a.hash, a.digestSize, acceptZeroed)
               == Ok(FreshVerdict(data, a, acceptZeroed))
  {
    hide Trim, TrimmedChunks, CleanCut, CanAddTree, ArgsFit, HasHashtreeFooter, TreeRoom, H.Usable, PadTo, Verdict,
      TreeDescriptor, Checkable;
    Positive(a, blockSize);
    var content := Trim(s.content);
    if s.isSparse { RoomWhen(true, TrimmedChunks(s), content, a, c, partitionSize, blockSize); }
    FinishedImage(t.content, content, a, c, partitionSize, blockSize, acceptZeroed);
  }

  /** Parses the image and lets the hashtree descriptor that is found verify it. */
  method CheckTree(image: ImageHandler, sizes: D.DigestSizes, hash: HashFn, digestSize: nat, acceptZeroed: bool,
                   ghost d: D.Descriptor)
    returns (verdict: Result<bool>)
    requires image.Loaded() && OffsetsInside(image.Content()) && ParseContent(image.Content(), sizes).Ok?
    requires FirstHashtree(ParseContent(image.Content(), sizes).value.descriptors) == Some(d)
    requires Checkable(d, hash, digestSize) && d.imageSize == d.treeOffset <= |image.Content()|
    modifies image`filePos
    ensures verdict == Verdict(image.Content(), d, hash, digestSize, acceptZeroed)
  {
    hide Describes, ParseContent, OffsetsInside, Checkable, Verdict, Judged, ReadsAt, FirstHashtree, ParsedBy, FooterOf;
    image.ContentSize();
    ParsedInside(image, sizes);
    var parsed := ParseImage(image, sizes);
    var found := FindHashtree(parsed.value.descriptors);
    verdict := Verify(image, found.value, hash, digestSize, acceptZeroed);
  }

  /** The same with the descriptor that is parsed from the finished image. */
  method AddTreeThenCheck(image: ImageHandler, partitionSize: nat, a: TreeArgs, c: Crypto, sizes: D.DigestSizes,
                          acceptZeroed: bool)
    returns (first: Option<Error>, verdict: Result<bool>)
    requires Writable(image) && SaneFooter(StateOf(image), image.blockSize) && ArgsFit(a, image.blockSize)
    requires ParsesBack(image.isSparse, Trim(image.Content()), a, c, partitionSize, image.blockSize, sizes)
    modifies image
    ensures image.isSparse == old(image.isSparse) && image.blockSize == old(image.blockSize) >= FOOTER_SIZE
    ensures TreeAdded(old(StateOf(image)), image.Content(), first, partitionSize, a, c, image.blockSize)
    ensures first == None ==>
              verdict == Ok(FreshVerdict(PadTo(Trim(old(image.Content())), a.blockSize), a, acceptZeroed))
  {
    hide Describes, TreeAdded, SaneFooter, CleanCut, Trim, TrimmedChunks, ArgsFit, TreeRoom, TreeParses, Verdict,
      Judged, H.Usable, PadTo, TreeDescriptor, Checkable, ReadsAt, ParseContent, OffsetsInside, Aligned, WholeOrLong,
      FooterOf, HasHashtreeFooter, FirstHashtree, TreeToZero, ParsesBack;
    ghost var s, bs := StateOf(image), image.blockSize;
    Positive(a, bs);
    WritableSize(image);
    if CleanCut(s, bs) { TrimmedIsWhole(image); }
    first := AddHashtreeFooter(image, partitionSize, a, c);
    verdict := Raised(AvbError);
    if first != None { return; }
    WritableSize(image);
    ghost var t := StateOf(image);
    TreeAddedIsReady(s, t, partitionSize, a, c, bs);
    AddedParses(s, t, partitionSize, a, c, bs, sizes);
    FreshIsCheckable(s, t, partitionSize, a, c, bs);
    FreshIsAccepted(s, t, partitionSize, a, c, bs, acceptZeroed);
    verdict := CheckTree(image, sizes, a.hash, a.digestSize, acceptZeroed,
                         TreeDescriptor(PadTo(Trim(s.content), a.blockSize), a));
  }
}
