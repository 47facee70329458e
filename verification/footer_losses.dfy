/** Runs on which the footer commands lose data, as counterparts of the conditions proved about them. */
module FooterLosses {
  import opened Bytes
  import opened FooterCommands
  import opened FooterEdits
  import opened FooterLayout
  import opened FooterRuns
  import opened HashFooters
  import opened HashtreeFooters
  import opened HashtreeVerify
  import opened Hashing
  import opened Images
  import opened TreeRuns
  import opened Vbmeta
  import opened Wrappers

  import B = VbmetaBlob
  import D = Descriptors
  import H = HashTree
  import SparseFormat

  // ----------------------------------------------------------------- append_vbmeta_image

  /** Two blocks of ones: a plain image. */
  function Ones(): (s: seq<byte>)
    ensures |s| == 8192 && forall i :: 0 <= i < |s| ==> s[i] == 1
  {
    seq(8192, _ => 1)
  }

  /** A vbmeta image: the header of an empty blob, and bytes that are no footer. */
  function EmptyVbmeta(): seq<byte> {
    HeaderBytes(DefaultHeader()) + Zeros(FOOTER_SIZE)
  }

  method OpenPlain(content: seq<byte>) returns (image: ImageHandler)
    requires SparseFormat.HEADER_SIZE <= |content| && !SparseFormat.HasMagic(content)
    ensures fresh(image) && Writable(image) && !image.isSparse && image.Content() == content
    ensures image.blockSize == PLAIN_BLOCK_SIZE
  {
    hide Describes;
    var r := ImageHandler.Open(content, false);
    image := r.value;
  }

  lemma FirstBytes(content: seq<byte>)
    requires 4 <= |content|
    ensures content[0..4] in {[1, 1, 1, 1], MAGIC} ==> !SparseFormat.HasMagic(content)
  {
    var s := content[0..4];
    assert DecodeLE(s) == s[0] + 256 * DecodeLE(s[1..]);
    assert DecodeLE(s[1..]) == s[1] + 256 * DecodeLE(s[2..]) by { assert s[1..][1..] == s[2..]; }
    assert DecodeLE(s[2..]) == s[2] + 256 * DecodeLE(s[3..]) by { assert s[2..][1..] == s[3..]; }
    assert DecodeLE(s[3..]) == s[3] by { assert s[3..][1..] == []; }
  }

  lemma NoFooterIn(content: seq<byte>)
    requires FOOTER_SIZE <= |content| && content[|content| - FOOTER_SIZE] != FOOTER_MAGIC[0]
    ensures FooterOf(content) == None
  {
    hide Sum;
    var tail := content[|content| - FOOTER_SIZE..];
    FooterWidthsSum();
    assert Split(FOOTER_WIDTHS, tail)[0] == tail[..4];
    assert tail[..4][0] != FOOTER_MAGIC[0];
  }

  /** What append_vbmeta_image loads from the small vbmeta image. */
  lemma EmptyVbmetaLoads()
    ensures |HeaderBytes(DefaultHeader())| == SIZE && HeaderBytes(DefaultHeader())[0..4] == MAGIC
    ensures BlobIn(EmptyVbmeta()) == Ok(HeaderBytes(DefaultHeader()))
  {
    hide ParseHeader, Concat, FooterOf, HeaderFields;
    ReleaseIsText();
    HeaderRoundTrip(DefaultHeader());
    HeaderStarts();
    NoFooterIn(EmptyVbmeta());
    assert EmptyVbmeta()[..SIZE] == HeaderBytes(DefaultHeader());
  }

  lemma HeaderStarts()
    ensures |HeaderBytes(DefaultHeader())| >= 4 && HeaderBytes(DefaultHeader())[0..4] == MAGIC
  {
    hide BE;
    var f := HeaderFields(DefaultHeader());
    assert Concat(f) == f[0] + Concat(f[1..]);
  }

  /** Appends the small vbmeta image to the ones. */
  method AppendTo(partitionSize: nat) returns (image: ImageHandler, r: Option<Error>)
    ensures fresh(image) && image.blockSize == PLAIN_BLOCK_SIZE
    ensures Appended(State(false, Ones(), []), image.Content(), r, Ok(HeaderBytes(DefaultHeader())), partitionSize,
                     PLAIN_BLOCK_SIZE)
    ensures FooterOf(Ones()) == None
  {
    hide Describes, FooterOf, HeaderBytes, BlobIn, Appended;
    EmptyVbmetaLoads();
    FirstBytes(Ones());
    FirstBytes(EmptyVbmeta());
    NoFooterIn(Ones());
    assert Ones()[0..4] == [1, 1, 1, 1] && EmptyVbmeta()[0..4] == HeaderBytes(DefaultHeader())[0..4];
    image := OpenPlain(Ones());
    var vbmetaImage := OpenPlain(EmptyVbmeta());
    BlobInside(vbmetaImage);
    r := AppendVbmetaImage(image, vbmetaImage, partitionSize);
  }

  /**
   * Two blocks of content in a partition of two blocks: the command reports success, and neither blob nor content is
   * there.
   */
  method AppendWithoutRoom() returns (image: ImageHandler, r: Option<Error>)
    ensures fresh(image) && r == None
    ensures !StoredAt(image.Content(), |Ones()|, HeaderBytes(DefaultHeader()))
    ensures Trim(image.Content()) != Ones()
  {
    hide FooterOf, Trim, HeaderBytes, Appended;
    image, r := AppendTo(8192);
    WithoutRoom(image.Content(), r);
  }

  lemma WithoutRoom(after: seq<byte>, r: Option<Error>)
    requires Appended(State(false, Ones(), []), after, r, Ok(HeaderBytes(DefaultHeader())), 8192, PLAIN_BLOCK_SIZE)
    requires FooterOf(Ones()) == None
    ensures r == None && !StoredAt(after, |Ones()|, HeaderBytes(DefaultHeader())) && Trim(after) != Ones()
  {
    hide FooterOf, HeaderBytes, WithFooter, Restored, FooterBlock, Zeros, StoredAt;
    EmptyVbmetaLoads();
    PaddedWhole(Ones(), PLAIN_BLOCK_SIZE);
    OnesAreCut(FooterFor(Ones(), Ones(), HeaderBytes(DefaultHeader())));
  }

  /** The last block of a partition of two blocks is the footer block, neither blob nor ones. */
  lemma OnesAreCut(f: Footer)
    requires f == FooterFor(Ones(), Ones(), HeaderBytes(DefaultHeader()))
    requires |HeaderBytes(DefaultHeader())| == SIZE
    ensures FooterPackable(f)
    ensures var w := WithFooter(Ones(), Ones(), HeaderBytes(DefaultHeader()), 8192, PLAIN_BLOCK_SIZE);
            !StoredAt(w, |Ones()|, HeaderBytes(DefaultHeader())) && Trim(w) != Ones()
  {
    hide FooterOf, HeaderBytes, WithFooter, FooterBlock, StoredAt, Trim;
    var base, blob := Ones(), HeaderBytes(DefaultHeader());
    var block := FooterBlock(PLAIN_BLOCK_SIZE, f);
    BlobStoredIff(base, base, blob, 8192, PLAIN_BLOCK_SIZE);
    ContentErasedIff(base, base, blob, 8192, PLAIN_BLOCK_SIZE);
    StartsWithZero(PLAIN_BLOCK_SIZE, f);
    assert base[4096..][0] == 1 && Resize(block, 4096)[0] == block[0];
  }

  lemma StartsWithZero(blockSize: nat, f: Footer)
    requires FOOTER_SIZE < blockSize && FooterPackable(f)
    ensures FooterBlock(blockSize, f)[0] == 0
  {
    hide FooterPackable, EncodeFooter;
    FooterRoundTrip(f);
  }

  /** In a partition of one block the command fails, and what it restores is the size but not the content. */
  method AppendToOneBlock() returns (image: ImageHandler, r: Option<Error>)
    ensures fresh(image) && r == Some(AvbError) && image.Content() == Zeros(|Ones()|)
  {
    hide FooterOf, HeaderBytes, Appended, Zeros;
    image, r := AppendTo(4096);
    OneBlockIsTooSmall(image.Content(), r);
  }

  lemma OneBlockIsTooSmall(after: seq<byte>, r: Option<Error>)
    requires Appended(State(false, Ones(), []), after, r, Ok(HeaderBytes(DefaultHeader())), 4096, PLAIN_BLOCK_SIZE)
    requires FooterOf(Ones()) == None
    ensures r == Some(AvbError) && after == Zeros(|Ones()|)
  {
    hide FooterOf, HeaderBytes, WithFooter, Zeros;
    PaddedWhole(Ones(), PLAIN_BLOCK_SIZE);
    assert Ones()[..0] + Zeros(8192) == Zeros(8192);
  }

  // ---------------------------------------------------------------------- zero_hashtree

  /**
   * Zeroing an image made with --no_hashtree: a plain one grows by a block; on a sparse one the command fails when
   * blob and footer are gone, and leaves a file that does not open.
   */
  method ZeroUnhashed(image: ImageHandler, partitionSize: nat, a: TreeArgs, c: Crypto, sizes: D.DigestSizes)
    returns (first: Option<Error>, second: Option<Error>, ghost finished: seq<byte>)
    requires Writable(image) && SaneFooter(StateOf(image), image.blockSize) && image.blockSize % 4 == 0
    requires ArgsFit(a, image.blockSize) && a.noHashtree
    requires ParsesBack(image.isSparse, Trim(image.Content()), a, c, partitionSize, image.blockSize, sizes)
    modifies image
    ensures image.isSparse == old(image.isSparse) && image.blockSize == old(image.blockSize) >= FOOTER_SIZE
    ensures TreeAdded(old(StateOf(image)), finished, first, partitionSize, a, c, image.blockSize)
    ensures first == None && !image.isSparse ==>
              second == None && |image.Content()| == |finished| + image.blockSize
    ensures first == None && image.isSparse ==>
              && second == Some(StructError) && !Opens(image.file)
              && image.Content() == PadTo(Trim(old(image.Content())), a.blockSize) + MarkerBlock(image.blockSize)
              && FooterOf(image.Content()) == None
  {
    hide Describes, TreeAdded, Trim, PadTo, ArgsFit, ZeroOutcome, ParseContent, OffsetsInside, ParsesBack, CleanCut,
      HasHashtreeFooter, Aligned, H.Usable, TreeDescriptor, WithoutTree, SaneFooter, TreeToZero, WholeOrLong, FooterOf,
      Opens, MarkerBlock, TrimmedChunks, TreeRoom, DataChunks, ParsedBy;
    ghost var s, bs := StateOf(image), image.blockSize;
    WritableSize(image);
    if CleanCut(s, bs) { TrimmedIsWhole(image); }
    first := AddHashtreeFooter(image, partitionSize, a, c);
    finished, second := image.Content(), first;
    if first != None { return; }
    WritableSize(image);
    ghost var t := StateOf(image);
    TreeAddedIsReady(s, t, partitionSize, a, c, bs);
    AddedParses(s, t, partitionSize, a, c, bs, sizes);
    ParsedInside(image, sizes);
    second := ZeroHashtree(image, sizes);
    ZeroedUnhashed(s, t, image.Content(), Opens(image.file), second, partitionSize, a, c, bs);
  }

  lemma ZeroedUnhashed(s: State, t: State, after: seq<byte>, opens: bool, r: Option<Error>, partitionSize: nat,
                       a: TreeArgs, c: Crypto, blockSize: nat)
    requires FOOTER_SIZE <= blockSize && blockSize % 4 == 0 && ArgsFit(a, blockSize) && a.noHashtree
    requires t.isSparse == s.isSparse && (s.isSparse || blockSize == PLAIN_BLOCK_SIZE)
    requires TreeAdded(s, t.content, None, partitionSize, a, c, blockSize)
    requires s.isSparse ==> a.blockSize > 0 && DataChunks(t, TrimmedChunks(s), Trim(s.content), a.blockSize)
    requires var d := TreeDescriptor(PadTo(Trim(s.content), a.blockSize), a);
             Aligned(t.content, d, blockSize) && ZeroOutcome(t, after, opens, r, d, blockSize)
    ensures !t.isSparse ==> r == None && |after| == |t.content| + blockSize
    ensures t.isSparse ==>
              && r == Some(StructError) && !opens && FooterOf(after) == None
              && after == PadTo(Trim(s.content), a.blockSize) + MarkerBlock(blockSize)
  {
    hide ZeroOutcome, TreeAdded, PadTo, Trim, TrimmedChunks, ArgsFit, Aligned, ChunkFits, DataChunks, H.Root, FooterOf,
      MarkerBlock, WithoutTree;
    Positive(a, blockSize);
    var content := Trim(s.content);
    var d := TreeDescriptor(PadTo(content, a.blockSize), a);
    if t.isSparse {
      UnhashedCounts(s, t, partitionSize, a, c, blockSize);
      EmptyTreeLosesFooter(t, after, opens, r, d, blockSize);
    } else {
      UnhashedPlain(s, t, partitionSize, a, c, blockSize);
      ZeroesIff(t, after, opens, r, d, blockSize);
      AlignedRanges(t.content, d, blockSize);
      ZeroedIsWithoutTree(t, after, opens, r, d, blockSize);
      GrownByBlock(t.content, d, blockSize);
    }
  }

  lemma GrownByBlock(content: seq<byte>, d: D.Descriptor, blockSize: nat)
    requires d.Hashtree? && |ZERO_MARKER| <= blockSize
    requires d.treeOffset <= |content| && d.treeSize == 0 && d.fecOffset == 0
    ensures |WithoutTree(content, d, blockSize)| == |content| + blockSize
  {
  }

  /** The data stay in front, and the chunks of marker block and zeros could be counted. */
  lemma UnhashedCounts(s: State, t: State, partitionSize: nat, a: TreeArgs, c: Crypto, blockSize: nat)
    requires FOOTER_SIZE <= blockSize && ArgsFit(a, blockSize) && a.noHashtree && a.blockSize > 0
    requires t.isSparse && s.isSparse && TreeAdded(s, t.content, None, partitionSize, a, c, blockSize)
    requires DataChunks(t, TrimmedChunks(s), Trim(s.content), a.blockSize)
    ensures var data := PadTo(Trim(s.content), a.blockSize);
            && |data| <= |t.content| && t.content[..|data|] == data && ChunkFits(blockSize)
            && ChunksAfter(t, |data|) + 2 < UINT32 && CountsFit(true, 0, |t.content|, blockSize)
            && CountsFit(true, ChunksAfter(t, |data|) + 1, |data| + blockSize, blockSize)
  {
    hide CleanCut, PadTo, Trim, TrimmedChunks, ChunksAfter, H.Usable, H.Tree, TreeBlob, MaxSize, FooterPackable,
      ChunkFits, WithFooter, ArgsFit;
    Positive(a, blockSize);
    var content := Trim(s.content);
    var data := PadTo(content, a.blockSize);
    RoomWhen(true, TrimmedChunks(s), content, a, c, partitionSize, blockSize);
    FinishedImage(t.content, content, a, c, partitionSize, blockSize, true);
    var base := Base(data, a, blockSize);
    assert base[..|data|] == data && t.content[..|base|][..|data|] == t.content[..|data|];
    QuotientOrder(|data| + blockSize, |t.content|, blockSize);
  }

  lemma UnhashedPlain(s: State, t: State, partitionSize: nat, a: TreeArgs, c: Crypto, blockSize: nat)
    requires FOOTER_SIZE <= blockSize == PLAIN_BLOCK_SIZE && ArgsFit(a, blockSize) && !t.isSparse && !s.isSparse
    requires TreeAdded(s, t.content, None, partitionSize, a, c, blockSize) && a.blockSize > 0
    ensures CountsFit(t.isSparse, 0, |t.content|, blockSize)
    ensures SparseFormat.HEADER_SIZE <= |PadTo(Trim(s.content), a.blockSize)|
  {
    hide CleanCut, PadTo, Trim, TrimmedChunks, H.Usable, H.Tree, TreeBlob, MaxSize, FooterPackable, WithFooter;
    BlockOrNothing(a.blockSize, blockSize);
  }
}
