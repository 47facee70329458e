/** The commands that change images with a footer: erase_footer, resize_image and zero_hashtree. */
module FooterEdits {
  import opened Bytes
  import opened FooterCommands
  import opened FooterLayout
  import opened Images
  import opened Vbmeta
  import opened Wrappers

  import D = Descriptors
  import SparseEdit
  import SparseFormat

  /** The first hashtree descriptor. */
  function FirstHashtree(ds: seq<D.Descriptor>): (r: Option<D.Descriptor>)
    ensures r.Some? ==> r.value.Hashtree?
  {
    if ds == [] then None else if ds[0].Hashtree? then Some(ds[0]) else FirstHashtree(ds[1..])
  }

  /** The loops that look for it. */
  method FindHashtree(ds: seq<D.Descriptor>) returns (r: Option<D.Descriptor>)
    ensures r == FirstHashtree(ds)
  {
    for i := 0 to |ds|
      invariant FirstHashtree(ds[i..]) == FirstHashtree(ds)
    {
      assert ds[i..][1..] == ds[i + 1..];
      if ds[i].Hashtree? { return Some(ds[i]); }
    }
    return None;
  }

  /** What is left: the original image, or everything up to the end of hash tree and FEC data. */
  function ErasedSize(p: Parsed, keepHashtree: bool): Option<nat>
    requires p.footer.Some?
  {
    if !keepHashtree then Some(p.footer.value.originalImageSize)
    else match FirstHashtree(p.descriptors)
      case None => None
      case Some(d) =>
        var treeEnd, fecEnd := d.treeOffset + d.treeSize, d.fecOffset + d.fecSize;
        var size := if d.fecOffset > 0 && fecEnd > treeEnd then fecEnd else treeEnd;
        if size == 0 then None else Some(size)
  }

  /** The image must have a footer. */
  function WithItsFooter(r: Result<Parsed>): (p: Result<Parsed>)
    ensures p.Ok? ==> p == r && p.value.footer.Some?
  {
    match r
    case Raised(e) => Raised(e)
    case Ok(p) => if p.footer.None? then Raised(AvbError) else Ok(p)
  }

  method SizeToKeep(p: Parsed, keepHashtree: bool) returns (size: Option<nat>)
    requires p.footer.Some?
    ensures size == ErasedSize(p, keepHashtree)
  {
    hide FirstHashtree;
    if !keepHashtree { return Some(p.footer.value.originalImageSize); }
    var found := FindHashtree(p.descriptors);
    if found.None? { return None; }
    var d := found.value;
    var newImageSize := d.treeOffset + d.treeSize;
    if d.fecOffset > 0 {
      var fecEnd := d.fecOffset + d.fecSize;
      newImageSize := if fecEnd > newImageSize then fecEnd else newImageSize;
    }
    return if newImageSize == 0 then None else Some(newImageSize);
  }

  /** The outcomes of erase_footer. */
  ghost predicate Erased(s: State, after: seq<byte>, r: Option<Error>, parsed: Result<Parsed>, keepHashtree: bool,
                         blockSize: nat)
    requires blockSize > 0
  {
    match WithItsFooter(parsed)
    case Raised(e) => r == Some(e) && after == s.content
    case Ok(p) =>
      match ErasedSize(p, keepHashtree)
      case None => r == Some(AvbError) && after == s.content
      case Some(size) => CutTo(s, after, r, size, blockSize)
  }

  method EraseFooter(image: ImageHandler, keepHashtree: bool, sizes: D.DigestSizes) returns (r: Option<Error>)
    requires Writable(image)
    modifies image
    ensures image.isSparse == old(image.isSparse) && image.blockSize == old(image.blockSize) >= FOOTER_SIZE
    ensures image.Sound()
    ensures Erased(old(StateOf(image)), image.Content(), r, old(ParsedBy(image, sizes)), keepHashtree, image.blockSize)
    ensures r == None ==> Writable(image) && (!keepHashtree ==> image.Content() == Trim(old(image.Content())))
    ensures r != None && image.isSparse ==> image.file == old(image.file) && image.Content() == old(image.Content())
  {
    hide Describes, ParsedBy, FooterOf, ErasedSize, CutTo;
    var parsed := ParseImage(image, sizes);
    if parsed.Raised? { return Some(parsed.error); }
    if parsed.value.footer.None? { return Some(AvbError); }
    var newImageSize := SizeToKeep(parsed.value, keepHashtree);
    if newImageSize.None? { return Some(AvbError); }
    ghost var s := StateOf(image);
    r := TruncateTo(image, newImageSize.value);
    CutResizes(s, image.Content(), r, newImageSize.value, image.blockSize);
    ErasedToOriginal(parsed.value);
  }

  lemma CutResizes(s: State, after: seq<byte>, r: Option<Error>, size: nat, blockSize: nat)
    requires blockSize > 0 && CutTo(s, after, r, size, blockSize)
    ensures r == None ==> after == Resize(s.content, size)
    ensures r != None && s.isSparse ==> after == s.content
  {
  }

  lemma ErasedToOriginal(p: Parsed)
    requires p.footer.Some?
    ensures ErasedSize(p, false) == Some(p.footer.value.originalImageSize)
  {
  }

  lemma FooterParsed(content: seq<byte>, sizes: D.DigestSizes)
    ensures ParseContent(content, sizes).Ok? ==>
              ParseContent(content, sizes).value.footer == FooterOf(content) && FOOTER_SIZE <= |content|
  {
  }

  // ------------------------------------------------------------------- resize_image

  lemma ParsedFooterPackable(content: seq<byte>)
    requires FooterOf(content).Some?
    ensures FooterPackable(FooterOf(content).value)
  {
    var data := content[|content| - FOOTER_SIZE..];
    FooterWidthsSum();
    var f := Split(FOOTER_WIDTHS, data);
    Pow256Values();
    BEOfDecode(f[1]);
    BEOfDecode(f[2]);
    BEOfDecode(f[3]);
    BEOfDecode(f[4]);
    BEOfDecode(f[5]);
  }

  /** Where the last block of the vbmeta blob ends. */
  function VbmetaEnd(f: Footer, blockSize: nat): nat
    requires blockSize > 0
  {
    RoundToMultiple(f.vbmetaOffset + f.vbmetaSize, blockSize)
  }

  /**
   * The outcomes of moving the footer, in the order in which cut, gap and footer block can fail, and whether the file
   * that is left opens.
   */
  ghost predicate MovedTo(s: State, after: seq<byte>, opens: bool, r: Option<Error>, f: Footer, partitionSize: nat,
                          blockSize: nat)
    requires FOOTER_SIZE <= blockSize && FooterPackable(f) && VbmetaEnd(f, blockSize) + blockSize <= partitionSize
  {
    var end := VbmetaEnd(f, blockSize);
    var cut, chunks := Resize(s.content, end), ChunksAfter(s, end);
    if s.isSparse && |s.content| < end && !CountsFit(true, chunks, end, blockSize)
    then r == Some(StructError) && after == s.content && opens
    else if (if s.isSparse then !CountsFit(true, chunks + 1, partitionSize - blockSize, blockSize) else end == 0)
    then r == Some(StructError) && after == cut && opens == s.isSparse
    else if s.isSparse && !(ChunkFits(blockSize) && CountsFit(true, chunks + 2, partitionSize, blockSize))
    then
      && r == Some(StructError) && after == Resize(cut, partitionSize - blockSize)
      && (opens <==> !CountsFit(true, chunks + 2, partitionSize, blockSize))
    else r == None && after == Resized(s.content, f, partitionSize, blockSize) && opens
  }

  /**
   * The footer can be moved exactly when the counts of the resized image fit and a plain image is not cut to nothing.
   */
  lemma MovesIff(s: State, after: seq<byte>, opens: bool, r: Option<Error>, f: Footer, partitionSize: nat,
                 blockSize: nat)
    requires FOOTER_SIZE <= blockSize && FooterPackable(f) && VbmetaEnd(f, blockSize) + blockSize <= partitionSize
    requires MovedTo(s, after, opens, r, f, partitionSize, blockSize)
    ensures r == None <==>
              if s.isSparse
              then ChunkFits(blockSize)
                   && CountsFit(true, ChunksAfter(s, VbmetaEnd(f, blockSize)) + 2, partitionSize, blockSize)
              else VbmetaEnd(f, blockSize) > 0
  {
    hide FooterPackable, Resized, ChunksAfter;
    QuotientOrder(VbmetaEnd(f, blockSize), partitionSize, blockSize);
    QuotientOrder(partitionSize - blockSize, partitionSize, blockSize);
  }

  /**
   * The outcomes of resize_image on an aligned partition size: an error before any change, or an attempt to move the
   * footer.
   */
  ghost predicate Moved(s: State, after: seq<byte>, opens: bool, r: Option<Error>, parsed: Result<Parsed>,
                        partitionSize: nat, blockSize: nat)
    requires FOOTER_SIZE <= blockSize
  {
    match WithItsFooter(parsed)
    case Raised(e) => r == Some(e) && after == s.content && opens
    case Ok(p) =>
      var f := p.footer.value;
      if partitionSize < VbmetaEnd(f, blockSize) + blockSize then r == Some(AvbError) && after == s.content && opens
      else FooterPackable(f) && MovedTo(s, after, opens, r, f, partitionSize, blockSize)
  }

  /** The image ends in its footer's block at the end of the partition. */
  ghost predicate Finished(s: State, t: State, f: Footer, partitionSize: nat, blockSize: nat)
    requires FOOTER_SIZE <= blockSize
  {
    var end := VbmetaEnd(f, blockSize);
    && end + blockSize <= partitionSize && FooterPackable(f)
    && t.isSparse == s.isSparse && t.content == Resized(s.content, f, partitionSize, blockSize)
    && (s.isSparse ==>
          exists cut: seq<nat> ::
            |cut| == ChunksAfter(s, end) && t.offsets == cut + [end] + [partitionSize - blockSize])
  }

  method ResizeImage(image: ImageHandler, partitionSize: nat, sizes: D.DigestSizes) returns (r: Option<Error>)
    requires Writable(image)
    modifies image
    ensures image.isSparse == old(image.isSparse) && image.blockSize == old(image.blockSize) >= FOOTER_SIZE
    ensures image.Sound()
    ensures partitionSize % image.blockSize != 0 ==> r == Some(AvbError) && image.file == old(image.file)
    ensures partitionSize % image.blockSize == 0 ==>
              Moved(old(StateOf(image)), image.Content(), Opens(image.file), r, old(ParsedBy(image, sizes)),
                    partitionSize, image.blockSize)
    ensures r == None ==>
              && Writable(image) && FooterOf(old(image.Content())).Some?
              && Finished(old(StateOf(image)), StateOf(image), FooterOf(old(image.Content())).value, partitionSize,
                          image.blockSize)
  {
    hide Describes, FooterPackable, ParsedBy, FooterOf, Finished, VbmetaEnd, MovedTo, Opens;
    OpensWhen(image);
    if partitionSize % image.blockSize != 0 { return Some(AvbError); }
    var parsed := ParseImage(image, sizes);
    if parsed.Raised? { return Some(parsed.error); }
    if parsed.value.footer.None? { return Some(AvbError); }
    ParsedFooterPackable(image.Content());
    var vbmetaEndOffset := VbmetaEnd(parsed.value.footer.value, image.blockSize);
    if partitionSize < vbmetaEndOffset + image.blockSize { return Some(AvbError); }
    r := MoveFooter(image, partitionSize, parsed.value.footer.value, vbmetaEndOffset);
  }

  /** Cuts behind the vbmeta blob and writes the footer at the end of the partition. */
  method MoveFooter(image: ImageHandler, partitionSize: nat, f: Footer, vbmetaEndOffset: nat) returns (r: Option<Error>)
    requires Writable(image) && FooterPackable(f) && partitionSize % image.blockSize == 0
    requires vbmetaEndOffset == VbmetaEnd(f, image.blockSize)
    requires vbmetaEndOffset + image.blockSize <= partitionSize
    modifies image
    ensures image.isSparse == old(image.isSparse) && image.blockSize == old(image.blockSize) && image.Sound()
    ensures MovedTo(old(StateOf(image)), image.Content(), Opens(image.file), r, f, partitionSize, image.blockSize)
    ensures r == None ==>
              Writable(image) && Finished(old(StateOf(image)), StateOf(image), f, partitionSize, image.blockSize)
  {
    hide Describes, FooterPackable, FooterBlock, CutTo, Gapped, Cut, GapFits, FooterFits, Extended, MovedTo,
      Finished, ChunksAfter, Opens, GapCountable, Stuck;
    ghost var s, bs := StateOf(image), image.blockSize;
    OpensWhen(image);
    r := TruncateTo(image, vbmetaEndOffset);
    ghost var t := StateOf(image);
    OpensWhen(image);
    MoveCut(s, t, Opens(image.file), r, f, partitionSize, bs);
    if r != None { return; }
    image.ContentSize();
    r := AppendGap(image, partitionSize);
    ghost var u := StateOf(image);
    OpensWhen(image);
    MoveGap(s, t, u, Opens(image.file), r, f, partitionSize, bs);
    if r != None { return; }
    r := AppendFooter(image, f);
    OpensWhen(image);
    MoveEnds(s, t, u, StateOf(image), Opens(image.file), r, f, partitionSize, bs);
  }

  /** The cut image, and how many chunks it has. */
  ghost predicate IsCut(s: State, t: State, f: Footer, blockSize: nat)
    requires blockSize > 0
  {
    && t.isSparse == s.isSparse && t.content == Resize(s.content, VbmetaEnd(f, blockSize))
    && |t.offsets| == ChunksAfter(s, VbmetaEnd(f, blockSize))
    && (s.isSparse && |s.content| < VbmetaEnd(f, blockSize) ==>
          CountsFit(true, |t.offsets|, VbmetaEnd(f, blockSize), blockSize))
    && (!s.isSparse ==> VbmetaEnd(f, blockSize) > 0)
  }

  lemma MoveCut(s: State, t: State, opens: bool, r: Option<Error>, f: Footer, partitionSize: nat, blockSize: nat)
    requires FOOTER_SIZE <= blockSize && FooterPackable(f) && VbmetaEnd(f, blockSize) + blockSize <= partitionSize
    requires CutTo(s, t.content, r, VbmetaEnd(f, blockSize), blockSize) && t.isSparse == s.isSparse
    requires r == None ==> |t.offsets| == ChunksAfter(s, VbmetaEnd(f, blockSize))
    requires r != None ==> (opens <==> s.isSparse || SparseFormat.HEADER_SIZE <= |t.content|)
    ensures r == None ==> IsCut(s, t, f, blockSize)
    ensures r != None ==> MovedTo(s, t.content, opens, r, f, partitionSize, blockSize)
  {
    hide FooterPackable, Resized, SparseEdit.KeptChunks;
    BlockOrNothing(VbmetaEnd(f, blockSize), blockSize);
  }

  lemma MoveGap(s: State, t: State, u: State, opens: bool, r: Option<Error>, f: Footer, partitionSize: nat,
                blockSize: nat)
    requires FOOTER_SIZE <= blockSize && FooterPackable(f) && VbmetaEnd(f, blockSize) + blockSize <= partitionSize
    requires IsCut(s, t, f, blockSize) && (r == None <==> GapFits(t, partitionSize, blockSize))
    requires r != None ==> r == Some(StructError) && Cut(t.content, u.content, t.isSparse, partitionSize, blockSize)
    requires r != None && s.isSparse ==> (opens <==> !GapCountable(t, partitionSize, blockSize))
    requires !s.isSparse ==> blockSize >= PLAIN_BLOCK_SIZE
    ensures r != None ==> MovedTo(s, u.content, opens, r, f, partitionSize, blockSize)
  {
    hide FooterPackable, Resized, ChunksAfter;
    BlockOrNothing(VbmetaEnd(f, blockSize), blockSize);
  }

  lemma MoveEnds(s: State, t: State, u: State, v: State, opens: bool, r: Option<Error>, f: Footer, partitionSize: nat,
                 blockSize: nat)
    requires FOOTER_SIZE <= blockSize && FooterPackable(f) && VbmetaEnd(f, blockSize) + blockSize <= partitionSize
    requires IsCut(s, t, f, blockSize) && GapFits(t, partitionSize, blockSize) && Gapped(t, u, partitionSize, blockSize)
    requires r == None <==> FooterFits(u, f, blockSize)
    requires r == None ==> Extended(u, v, FooterBlock(blockSize, f))
    requires r != None ==> r == Some(StructError) && v.content == u.content
    requires if r == None then opens
             else opens <==> !Stuck(u.isSparse, |u.offsets|, |u.content|, blockSize, blockSize)
    ensures MovedTo(s, v.content, opens, r, f, partitionSize, blockSize)
    ensures r == None ==> Finished(s, v, f, partitionSize, blockSize)
  {
    hide FooterPackable, FooterBlock, ChunksAfter;
    assert r == None && s.isSparse ==> v.offsets == t.offsets + [VbmetaEnd(f, blockSize)] + [partitionSize - blockSize];
  }

  // ------------------------------------------------------------------ zero_hashtree

  /** What zero_hashtree appends: bytes, or zeros by append_fill, whose size may come out negative. */
  datatype Piece = Bytes(data: seq<byte>) | Fill(size: int)

  function PieceBytes(p: Piece): seq<byte> {
    match p
    case Bytes(data) => data
    case Fill(size) => Zeros(if size >= 0 then size else 0)
  }

  predicate PieceFits(isSparse: bool, chunks: nat, size: nat, p: Piece, blockSize: nat)
    requires blockSize > 0
  {
    isSparse ==>
      && CountsFit(true, chunks + 1, size + |PieceBytes(p)|, blockSize)
      && match p
         case Bytes(data) => ChunkFits(|data|)
         case Fill(n) => n >= 0
  }

  function NextChunk(isSparse: bool, chunks: nat): nat {
    if isSparse then chunks + 1 else chunks
  }

  /** Appends piece after piece and stops at the first that does not fit. */
  function AppendAll(isSparse: bool, chunks: nat, content: seq<byte>, pieces: seq<Piece>, blockSize: nat)
    : (r: (seq<byte>, Option<Error>))
    requires blockSize > 0
    decreases |pieces|
  {
    if pieces == [] then (content, None)
    else if !PieceFits(isSparse, chunks, |content|, pieces[0], blockSize) then (content, Some(StructError))
    else AppendAll(isSparse, NextChunk(isSparse, chunks), content + PieceBytes(pieces[0]), pieces[1..], blockSize)
  }

  /** The counts in the header can take a chunk for the piece. */
  predicate PieceCountable(chunks: nat, size: nat, p: Piece, blockSize: nat)
    requires blockSize > 0
  {
    var n: int := match p case Bytes(data) => |data| case Fill(size) => size;
    size + n >= 0 && CountsFit(true, chunks + 1, size + n, blockSize)
  }

  /** Whether a sparse file opens when the pieces have been appended as far as they fit: not if one more was counted. */
  predicate OpensAfter(chunks: nat, size: nat, pieces: seq<Piece>, blockSize: nat)
    requires blockSize > 0
    decreases |pieces|
  {
    pieces != [] ==>
      if PieceFits(true, chunks, size, pieces[0], blockSize)
      then OpensAfter(chunks + 1, size + |PieceBytes(pieces[0])|, pieces[1..], blockSize)
      else !PieceCountable(chunks, size, pieces[0], blockSize)
  }

  lemma {:induction false} OpensJoin(chunks: nat, content: seq<byte>, a: seq<Piece>, b: seq<Piece>, blockSize: nat)
    requires blockSize > 0
    ensures var (c, e) := AppendAll(true, chunks, content, a, blockSize);
            OpensAfter(chunks, |content|, a + b, blockSize)
            <==> if e == None then OpensAfter(chunks + |a|, |c|, b, blockSize)
                 else OpensAfter(chunks, |content|, a, blockSize)
    decreases |a|
  {
    hide PieceCountable;
    if a == [] {
      assert a + b == b;
    } else {
      assert (a + b)[1..] == a[1..] + b;
      if PieceFits(true, chunks, |content|, a[0], blockSize) {
        OpensJoin(chunks + 1, content + PieceBytes(a[0]), a[1..], b, blockSize);
      }
    }
  }

  /** The pieces were appended to the first image, as far as they fit; `opens` says what is left on disk. */
  ghost predicate Ran(s: State, t: State, opens: bool, r: Option<Error>, pieces: seq<Piece>, blockSize: nat)
    requires blockSize > 0
  {
    && t.isSparse == s.isSparse
    && (s.isSparse ==> (opens <==> OpensAfter(|s.offsets|, |s.content|, pieces, blockSize)))
    && (t.content, r) == AppendAll(s.isSparse, |s.offsets|, s.content, pieces, blockSize)
    && (r == None ==> |t.offsets| == |s.offsets| + if s.isSparse then |pieces| else 0)
  }

  lemma {:induction false} AppendJoin(isSparse: bool, chunks: nat, content: seq<byte>, a: seq<Piece>, b: seq<Piece>,
                                      blockSize: nat)
    requires blockSize > 0
    ensures var (c, e) := AppendAll(isSparse, chunks, content, a, blockSize);
            AppendAll(isSparse, chunks, content, a + b, blockSize)
            == if e == None then AppendAll(isSparse, chunks + (if isSparse then |a| else 0), c, b, blockSize)
               else (c, e)
    decreases |a|
  {
    if a == [] {
      assert a + b == b;
    } else {
      assert (a + b)[1..] == a[1..] + b;
      if PieceFits(isSparse, chunks, |content|, a[0], blockSize) {
        AppendJoin(isSparse, NextChunk(isSparse, chunks), content + PieceBytes(a[0]), a[1..], b, blockSize);
      }
    }
  }

  lemma RanJoin(s: State, t: State, u: State, opens0: bool, opens: bool, r: Option<Error>, a: seq<Piece>,
                b: seq<Piece>, blockSize: nat)
    requires blockSize > 0 && Ran(s, t, opens0, None, a, blockSize) && Ran(t, u, opens, r, b, blockSize)
    ensures Ran(s, u, opens, r, a + b, blockSize)
  {
    hide AppendAll, OpensAfter;
    AppendJoin(s.isSparse, |s.offsets|, s.content, a, b, blockSize);
    OpensJoin(|s.offsets|, s.content, a, b, blockSize);
  }

  lemma RanStops(s: State, t: State, opens: bool, r: Option<Error>, a: seq<Piece>, b: seq<Piece>, blockSize: nat)
    requires blockSize > 0 && Ran(s, t, opens, r, a, blockSize) && r != None
    ensures Ran(s, t, opens, r, a + b, blockSize)
  {
    hide AppendAll, OpensAfter;
    AppendJoin(s.isSparse, |s.offsets|, s.content, a, b, blockSize);
    OpensJoin(|s.offsets|, s.content, a, b, blockSize);
  }

  function JoinPieces(pieces: seq<Piece>): seq<byte> {
    if pieces == [] then [] else PieceBytes(pieces[0]) + JoinPieces(pieces[1..])
  }

  predicate OwnSizeFits(p: Piece) {
    match p
    case Bytes(data) => ChunkFits(|data|)
    case Fill(n) => n >= 0
  }

  /** All pieces go in exactly when each has a size of its own that fits and the counts fit in the end. */
  lemma {:induction false} AllFitIff(isSparse: bool, chunks: nat, content: seq<byte>, pieces: seq<Piece>,
                                     blockSize: nat)
    requires blockSize > 0
    ensures var (after, r) := AppendAll(isSparse, chunks, content, pieces, blockSize);
            && (r == None ==> after == content + JoinPieces(pieces))
            && (r == None <==>
                  isSparse && pieces != [] ==>
                    && (forall i :: 0 <= i < |pieces| ==> OwnSizeFits(pieces[i]))
                    && CountsFit(true, chunks + |pieces|, |content| + |JoinPieces(pieces)|, blockSize))
    decreases |pieces|
  {
    hide ChunkFits;
    if pieces != [] {
      var next := content + PieceBytes(pieces[0]);
      AllFitIff(isSparse, NextChunk(isSparse, chunks), next, pieces[1..], blockSize);
      QuotientOrder(|next|, |content| + |JoinPieces(pieces)|, blockSize);
      assert next + JoinPieces(pieces[1..]) == content + JoinPieces(pieces);
      assert forall i :: 0 <= i < |pieces| ==> pieces[i] == if i == 0 then pieces[0] else pieces[1..][i - 1];
    }
  }

  /** A block with the marker, then zeros for the rest of a range. */
  function MarkedZeros(size: nat, blockSize: nat): seq<Piece>
    requires |ZERO_MARKER| <= blockSize
  {
    [Bytes(MarkerBlock(blockSize))] + [Fill(size - blockSize)]
  }

  function MarkerBlock(blockSize: nat): (s: seq<byte>)
    requires |ZERO_MARKER| <= blockSize
    ensures |s| == blockSize
  {
    ZERO_MARKER + Zeros(blockSize - |ZERO_MARKER|)
  }

  function RangePieces(d: D.Descriptor, blockSize: nat): seq<Piece>
    requires d.Hashtree? && |ZERO_MARKER| <= blockSize
  {
    MarkedZeros(d.treeSize, blockSize) + (if d.fecOffset > 0 then MarkedZeros(d.fecSize, blockSize) else [])
  }

  lemma RanOne(s: State, t: State, opens: bool, r: Option<Error>, p: Piece, blockSize: nat)
    requires blockSize > 0 && t.isSparse == s.isSparse && (!s.isSparse ==> s.offsets == [])
    requires if PieceFits(s.isSparse, |s.offsets|, |s.content|, p, blockSize)
             then r == None && Extended(s, t, PieceBytes(p))
             else r == Some(StructError) && t.content == s.content
    requires s.isSparse ==>
               (opens <==> r == None || !PieceCountable(|s.offsets|, |s.content|, p, blockSize))
    ensures Ran(s, t, opens, r, [p], blockSize)
  {
    hide PieceFits, PieceBytes, PieceCountable;
    var next := s.content + PieceBytes(p);
    assert [p][0] == p && [p][1..] == [];
    assert AppendAll(s.isSparse, NextChunk(s.isSparse, |s.offsets|), next, [], blockSize) == (next, None);
    assert OpensAfter(|s.offsets| + 1, |next|, [], blockSize);
  }

  method AppendBytes(image: ImageHandler, data: seq<byte>) returns (r: Option<Error>)
    requires Writable(image) && Whole(|data|, image.blockSize)
    modifies image
    ensures image.isSparse == old(image.isSparse) && image.blockSize == old(image.blockSize) && image.Sound()
    ensures Ran(old(StateOf(image)), StateOf(image), Opens(image.file), r, [Bytes(data)], image.blockSize)
    ensures (r == None ==> Writable(image))
  {
    hide Describes, Ran, BytesFit, Extended, Opens, Stuck;
    ghost var s := StateOf(image);
    r := AppendBlocks(image, data);
    OpensWhen(image);
    RanBytes(s, StateOf(image), Opens(image.file), r, data, image.blockSize);
  }

  lemma RanBytes(s: State, t: State, opens: bool, r: Option<Error>, data: seq<byte>, blockSize: nat)
    requires blockSize > 0 && t.isSparse == s.isSparse && (!s.isSparse ==> s.offsets == [])
    requires r == None <==> BytesFit(s, |data|, blockSize)
    requires if r == None then Extended(s, t, data) else r == Some(StructError) && t.content == s.content
    requires if r == None then opens
             else opens <==> !Stuck(s.isSparse, |s.offsets|, |s.content|, |data|, blockSize)
    ensures Ran(s, t, opens, r, [Bytes(data)], blockSize)
  {
    hide CountsFit, Ran, Extended, ChunkFits;
    RanOne(s, t, opens, r, Bytes(data), blockSize);
  }

  method AppendZeros(image: ImageHandler, size: int) returns (r: Option<Error>)
    requires Writable(image) && Fillable(Zeros(4), size, image.blockSize)
    modifies image
    ensures image.isSparse == old(image.isSparse) && image.blockSize == old(image.blockSize) && image.Sound()
    ensures Ran(old(StateOf(image)), StateOf(image), Opens(image.file), r, [Fill(size)], image.blockSize)
    ensures (r == None ==> Writable(image))
  {
    hide Describes, Ran, CountsFit, SparseEdit.FillBytes, Fillable, BlocksIn, Whole, Opens, Countable, CountedOnly,
      LeftBehind;
    image.ContentSize();
    OpensWhen(image);
    ghost var file0 := image.file;
    ghost var s := StateOf(image);
    FillableIsWhole(size, image.blockSize);
    ghost var fits := image.isSparse ==>
                        size >= 0 && CountsFit(s.isSparse, |s.offsets| + 1, |s.content| + size, image.blockSize);
    if image.isSparse {
      CountableIff(image, size);
      if size >= 0 { GrowIff(image, size, SparseFormat.CHUNK_HEADER_SIZE + 4); }
    }
    ZeroFill(if size >= 0 then size else 0);
    r := image.AppendFill(Zeros(4), size);
    assert r == None <==> fits;
    OpensWhen(image);
    if r != None { FailedAppendOpensIff(file0, image.file, image.image, BlocksIn(size, image.blockSize)); }
    RanZeros(s, StateOf(image), Opens(image.file), r, size, image.blockSize);
  }

  lemma RanZeros(s: State, t: State, opens: bool, r: Option<Error>, size: int, blockSize: nat)
    requires blockSize > 0 && t.isSparse == s.isSparse && (!s.isSparse ==> s.offsets == [])
    requires r == None <==>
              (s.isSparse ==> size >= 0 && CountsFit(s.isSparse, |s.offsets| + 1, |s.content| + size, blockSize))
    requires if r == None then Extended(s, t, Zeros(if size >= 0 then size else 0))
             else r == Some(StructError) && t.content == s.content
    requires s.isSparse ==>
               (opens <==>
                  r == None || !(|s.content| + size >= 0
                                 && CountsFit(s.isSparse, |s.offsets| + 1, |s.content| + size, blockSize)))
    ensures Ran(s, t, opens, r, [Fill(size)], blockSize)
  {
    hide CountsFit, Ran, Extended;
    RanOne(s, t, opens, r, Fill(size), blockSize);
  }

  lemma FillableIsWhole(size: int, blockSize: nat)
    requires blockSize > 0 && Fillable(Zeros(4), size, blockSize)
    ensures Whole(size, blockSize)
  {
  }

  lemma ZerosFillable(size: int, blockSize: nat)
    requires blockSize > 0 && blockSize % 4 == 0 && size % blockSize == 0
    ensures Fillable(Zeros(4), size, blockSize)
  {
    FourDivides(size, blockSize);
  }

  lemma FourDivides(size: int, blockSize: nat)
    requires blockSize > 0 && blockSize % 4 == 0 && size % blockSize == 0
    ensures size % 4 == 0
  {
    var k := size / blockSize;
    assert size == k * blockSize == (k * (blockSize / 4)) * 4;
  }

  lemma ZeroFill(n: nat)
    ensures SparseEdit.FillBytes(Zeros(4), n) == Zeros(n)
  {
  }

  method AppendMarkedZeros(image: ImageHandler, size: nat) returns (r: Option<Error>)
    requires Writable(image) && image.blockSize % 4 == 0 && size % image.blockSize == 0
    modifies image
    ensures image.isSparse == old(image.isSparse) && image.blockSize == old(image.blockSize) && image.Sound()
    ensures Ran(old(StateOf(image)), StateOf(image), Opens(image.file), r, MarkedZeros(size, image.blockSize),
                image.blockSize)
    ensures r == None ==> Writable(image)
  {
    hide Describes, Ran, Opens;
    ghost var s, bs := StateOf(image), image.blockSize;
    ghost var first, second := [Bytes(MarkerBlock(bs))], [Fill(size - bs)];
    RestIsBlocks(size, bs);
    r := AppendBytes(image, MarkerBlock(image.blockSize));
    ghost var t, opens := StateOf(image), Opens(image.file);
    if r != None {
      RanStops(s, t, opens, r, first, second, bs);
      return;
    }
    ZerosFillable(size - bs, bs);
    r := AppendZeros(image, size - image.blockSize);
    RanJoin(s, t, StateOf(image), opens, Opens(image.file), r, first, second, bs);
  }

  lemma RestIsBlocks(size: nat, blockSize: nat)
    requires blockSize > 0 && size % blockSize == 0
    ensures (size - blockSize) % blockSize == 0 && blockSize % blockSize == 0
  {
    var k := size / blockSize - 1;
    assert size - blockSize == k * blockSize;
    IntMultiple(k, blockSize);
    IntMultiple(1, blockSize);
  }

  /** The zeroed hash tree and, if there are any, the zeroed FEC data. */
  method WriteRanges(image: ImageHandler, d: D.Descriptor) returns (r: Option<Error>)
    requires Writable(image) && image.blockSize % 4 == 0 && d.Hashtree?
    requires d.treeSize % image.blockSize == 0 && FecSize(d) % image.blockSize == 0
    modifies image
    ensures image.isSparse == old(image.isSparse) && image.blockSize == old(image.blockSize) && image.Sound()
    ensures Ran(old(StateOf(image)), StateOf(image), Opens(image.file), r, RangePieces(d, image.blockSize),
                image.blockSize)
    ensures r == None ==> Writable(image)
  {
    hide Describes, Ran, MarkedZeros, Opens;
    ghost var s, bs := StateOf(image), image.blockSize;
    ghost var tree, fec := MarkedZeros(d.treeSize, bs), if d.fecOffset > 0 then MarkedZeros(d.fecSize, bs) else [];
    r := AppendMarkedZeros(image, d.treeSize);
    ghost var t, opens := StateOf(image), Opens(image.file);
    if r != None {
      RanStops(s, t, opens, r, tree, fec, bs);
    } else if d.fecOffset > 0 {
      r := AppendMarkedZeros(image, d.fecSize);
      RanJoin(s, t, StateOf(image), opens, Opens(image.file), r, tree, fec, bs);
    } else {
      assert tree + [] == tree;
    }
  }

  /** What zero_hashtree looks for: a footer and a hashtree descriptor whose FEC data follow the tree. */
  function TreeToZero(parsed: Result<Parsed>): Result<D.Descriptor> {
    match WithItsFooter(parsed)
    case Raised(e) => Raised(e)
    case Ok(p) =>
      match FirstHashtree(p.descriptors)
      case None => Raised(AvbError)
      case Some(d) => if d.fecOffset > 0 && d.fecOffset != d.treeOffset + d.treeSize then Raised(AvbError) else Ok(d)
  }

  /** Everything that is appended once the image has been cut in front of the hash tree. */
  function ZeroPieces(content: seq<byte>, d: D.Descriptor, blockSize: nat): seq<Piece>
    requires d.Hashtree? && |ZERO_MARKER| <= blockSize && d.treeOffset + d.treeSize + FecSize(d) <= |content|
  {
    RangePieces(d, blockSize) + [Bytes(content[d.treeOffset + d.treeSize + FecSize(d)..])]
  }

  /**
   * The outcomes of zeroing: the image is cut in front of the tree, and pieces are appended while they fit. The file
   * of a plain image opens if it is long enough, that of a sparse one unless a piece was counted and not written.
   */
  ghost predicate ZeroOutcome(s: State, after: seq<byte>, opens: bool, r: Option<Error>, d: D.Descriptor,
                              blockSize: nat)
    requires d.Hashtree? && |ZERO_MARKER| <= blockSize && d.treeOffset + d.treeSize + FecSize(d) <= |s.content|
  {
    && (opens <==>
          if s.isSparse then
            OpensAfter(ChunksAfter(s, d.treeOffset), d.treeOffset, ZeroPieces(s.content, d, blockSize), blockSize)
          else SparseFormat.HEADER_SIZE <= |after|)
    && if !s.isSparse && d.treeOffset < SparseFormat.HEADER_SIZE
       then r == Some(StructError) && after == s.content[..d.treeOffset]
       else (after, r) == AppendAll(s.isSparse, ChunksAfter(s, d.treeOffset), s.content[..d.treeOffset],
                                    ZeroPieces(s.content, d, blockSize), blockSize)
  }

  method ZeroHashtree(image: ImageHandler, sizes: D.DigestSizes) returns (r: Option<Error>)
    requires Writable(image) && image.blockSize % 4 == 0
    requires TreeToZero(ParsedBy(image, sizes)).Ok? ==>
               TreeToZero(ParsedBy(image, sizes)).value.Hashtree? &&
               Aligned(image.Content(), TreeToZero(ParsedBy(image, sizes)).value, image.blockSize)
    modifies image
    ensures image.isSparse == old(image.isSparse) && image.blockSize == old(image.blockSize) >= FOOTER_SIZE
    ensures image.Sound()
    ensures match TreeToZero(old(ParsedBy(image, sizes)))
            case Raised(e) => r == Some(e) && image.file == old(image.file)
            case Ok(d) =>
              && d.Hashtree? && d.treeOffset + d.treeSize + FecSize(d) <= |old(image.Content())|
              && ZeroOutcome(old(StateOf(image)), image.Content(), Opens(image.file), r, d, image.blockSize)
              && (r == None ==>
                    Writable(image) && image.Content() == WithoutTree(old(image.Content()), d, image.blockSize))
  {
    hide Describes, ParsedBy, Zeroed, WithoutTree, ZeroOutcome, Aligned, FecSize, Opens;
    var parsed := ParseImage(image, sizes);
    if parsed.Raised? { return Some(parsed.error); }
    if parsed.value.footer.None? { return Some(AvbError); }
    var found := FindHashtree(parsed.value.descriptors);
    if found.None? { return Some(AvbError); }
    var d := found.value;
    if d.fecOffset > 0 && d.fecOffset != d.treeOffset + d.treeSize { return Some(AvbError); }
    ghost var s := StateOf(image);
    r := ZeroRanges(image, d);
    ZeroedIsWithoutTree(s, image.Content(), Opens(image.file), r, d, image.blockSize);
  }

  /** Saves what follows the ranges, cuts there, writes the zeroed ranges and puts the rest back. */
  method ZeroRanges(image: ImageHandler, d: D.Descriptor) returns (r: Option<Error>)
    requires Writable(image) && image.blockSize % 4 == 0 && d.Hashtree? && Aligned(image.Content(), d, image.blockSize)
    modifies image
    ensures image.isSparse == old(image.isSparse) && image.blockSize == old(image.blockSize) && image.Sound()
    ensures d.treeOffset + d.treeSize + FecSize(d) <= |old(image.Content())|
    ensures ZeroOutcome(old(StateOf(image)), image.Content(), Opens(image.file), r, d, image.blockSize)
    ensures r == None ==> Writable(image)
  {
    hide Describes, Aligned, WholeRanges, FecSize, Ran, RangePieces, ZeroOutcome, CutAtTree, Opens;
    ghost var s, bs := StateOf(image), image.blockSize;
    AlignedRanges(s.content, d, bs);
    var data;
    data, r := CutBehind(image, d);
    if r != None { return; }
    ghost var t := StateOf(image);
    r := WriteAll(image, d, data);
    OpensWhen(image);
    ZeroEnds(s, t, StateOf(image), Opens(image.file), r, d, data, bs);
  }

  /** The image is cut where the tree starts, and `data` is what followed the ranges. */
  ghost predicate CutAtTree(s: State, t: State, d: D.Descriptor, data: seq<byte>)
    requires d.Hashtree?
  {
    && d.treeOffset + d.treeSize + FecSize(d) <= |s.content|
    && t.isSparse == s.isSparse && t.content == s.content[..d.treeOffset] && |t.offsets| == ChunksAfter(s, d.treeOffset)
    && (!s.isSparse ==> SparseFormat.HEADER_SIZE <= d.treeOffset)
    && data == s.content[d.treeOffset + d.treeSize + FecSize(d)..]
  }

  method CutBehind(image: ImageHandler, d: D.Descriptor) returns (data: seq<byte>, r: Option<Error>)
    requires Writable(image) && image.blockSize % 4 == 0 && d.Hashtree? && Aligned(image.Content(), d, image.blockSize)
    modifies image
    ensures image.isSparse == old(image.isSparse) && image.blockSize == old(image.blockSize) && image.Sound()
    ensures r == None ==> Writable(image) && CutAtTree(old(StateOf(image)), StateOf(image), d, data)
    ensures r == None ==> WholeRanges(d, |data|, image.blockSize)
    ensures r != None ==> ZeroOutcome(old(StateOf(image)), image.Content(), Opens(image.file), r, d, image.blockSize)
  {
    hide Describes, Aligned, WholeRanges, FecSize, CutTo, ZeroOutcome, ChunksAfter, CutAtTree, Opens;
    ghost var s, bs := StateOf(image), image.blockSize;
    AlignedRanges(s.content, d, bs);
    var end := d.treeOffset + d.treeSize + FecSize(d);
    data := ReadTailFrom(image, end);
    assert data == s.content[end..];
    r := TruncateTo(image, d.treeOffset);
    OpensWhen(image);
    CutInFront(s, StateOf(image), Opens(image.file), r, d, data, bs);
  }

  /** The zeroed ranges and what followed them. */
  method WriteAll(image: ImageHandler, d: D.Descriptor, data: seq<byte>) returns (r: Option<Error>)
    requires Writable(image) && d.Hashtree? && WholeRanges(d, |data|, image.blockSize)
    modifies image
    ensures image.isSparse == old(image.isSparse) && image.blockSize == old(image.blockSize) && image.Sound()
    ensures Ran(old(StateOf(image)), StateOf(image), Opens(image.file), r,
                RangePieces(d, image.blockSize) + [Bytes(data)], image.blockSize)
    ensures r == None ==> Writable(image)
  {
    hide Describes, FecSize, Ran, RangePieces, Opens;
    ghost var s, bs := StateOf(image), image.blockSize;
    r := WriteRanges(image, d);
    ghost var t, opens := StateOf(image), Opens(image.file);
    if r != None {
      RanStops(s, t, opens, r, RangePieces(d, bs), [Bytes(data)], bs);
      return;
    }
    r := AppendBytes(image, data);
    RanJoin(s, t, StateOf(image), opens, Opens(image.file), r, RangePieces(d, bs), [Bytes(data)], bs);
  }

  lemma CutInFront(s: State, t: State, opens: bool, r: Option<Error>, d: D.Descriptor, data: seq<byte>, blockSize: nat)
    requires blockSize >= |ZERO_MARKER| && d.Hashtree? && Aligned(s.content, d, blockSize)
    requires CutTo(s, t.content, r, d.treeOffset, blockSize) && t.isSparse == s.isSparse
    requires r == None ==> |t.offsets| == ChunksAfter(s, d.treeOffset)
    requires d.treeOffset + d.treeSize + FecSize(d) <= |s.content|
    requires data == s.content[d.treeOffset + d.treeSize + FecSize(d)..]
    requires !s.isSparse ==> (opens <==> SparseFormat.HEADER_SIZE <= |t.content|)
    ensures r == None ==> CutAtTree(s, t, d, data)
    ensures r != None ==> ZeroOutcome(s, t.content, opens, r, d, blockSize)
  {
    hide ChunksAfter, AppendAll, OpensAfter, RangePieces;
  }

  lemma ZeroEnds(s: State, t: State, u: State, opens: bool, r: Option<Error>, d: D.Descriptor, data: seq<byte>,
                 blockSize: nat)
    requires blockSize >= |ZERO_MARKER| && d.Hashtree? && CutAtTree(s, t, d, data)
    requires Ran(t, u, opens, r, RangePieces(d, blockSize) + [Bytes(data)], blockSize)
    requires !s.isSparse ==> (opens <==> SparseFormat.HEADER_SIZE <= |u.content|)
    ensures ZeroOutcome(s, u.content, opens, r, d, blockSize)
  {
    hide ChunksAfter, AppendAll, OpensAfter, RangePieces;
  }

  /** Everything from an offset on. */
  method ReadTailFrom(image: ImageHandler, at: nat) returns (data: seq<byte>)
    requires Writable(image) && at <= |image.Content()|
    modifies image`filePos
    ensures Writable(image) && StateOf(image) == old(StateOf(image)) && data == image.Content()[at..]
  {
    hide Describes, SparseFormat.ReadAt;
    image.ContentSize();
    ReadsInside(image, at, image.imageSize - at);
    var r := ReadRange(image, at, image.imageSize - at);
    TailRead(image.Content(), at);
    data := r.value;
  }

  /** The ranges and this many bytes behind them are whole blocks. */
  ghost predicate WholeRanges(d: D.Descriptor, n: nat, blockSize: nat)
    requires d.Hashtree? && blockSize > 0
  {
    blockSize % 4 == 0 && d.treeSize % blockSize == 0 && FecSize(d) % blockSize == 0 && n % blockSize == 0
  }

  lemma AlignedRanges(content: seq<byte>, d: D.Descriptor, blockSize: nat)
    requires d.Hashtree? && blockSize > 0 && Aligned(content, d, blockSize)
    ensures d.treeOffset + d.treeSize + FecSize(d) <= |content|
    ensures blockSize % 4 == 0 ==> WholeRanges(d, |content| - (d.treeOffset + d.treeSize + FecSize(d)), blockSize)
  {
    TailIsBlocks(|content|, d.treeOffset, d.treeSize, FecSize(d), blockSize);
  }

  lemma TailRead(content: seq<byte>, at: nat)
    requires at <= |content|
    ensures SparseFormat.ReadAt(content, at, |content| - at) == content[at..]
  {
  }

  lemma TailIsBlocks(size: nat, a: nat, b: nat, c: nat, blockSize: nat)
    requires blockSize > 0 && size % blockSize == 0 && a % blockSize == 0 && b % blockSize == 0 && c % blockSize == 0
    ensures (size - (a + b + c)) % blockSize == 0
  {
    var k := size / blockSize - a / blockSize - b / blockSize - c / blockSize;
    assert size == (size / blockSize) * blockSize && a == (a / blockSize) * blockSize;
    assert b == (b / blockSize) * blockSize && c == (c / blockSize) * blockSize;
    assert size - (a + b + c) == k * blockSize;
    IntMultiple(k, blockSize);
  }

  // ---------------------------------------------------------------- when zeroing works

  lemma MarkedZerosJoin(size: nat, blockSize: nat)
    requires |ZERO_MARKER| <= blockSize
    ensures JoinPieces(MarkedZeros(size, blockSize)) == Zeroed(size, blockSize)
  {
    var n := if size >= blockSize then size - blockSize else 0;
    var pieces := MarkedZeros(size, blockSize);
    assert pieces[1..] == [Fill(size - blockSize)] && pieces[1..][1..] == [];
    assert JoinPieces(pieces[1..]) == Zeros(n) + [] == Zeros(n);
    assert Zeros(blockSize - |ZERO_MARKER|) + Zeros(n) == Zeros(blockSize - |ZERO_MARKER| + n);
  }

  lemma {:induction false} JoinOfSum(a: seq<Piece>, b: seq<Piece>)
    ensures JoinPieces(a + b) == JoinPieces(a) + JoinPieces(b)
  {
    if a == [] {
      assert a + b == b;
    } else {
      assert (a + b)[1..] == a[1..] + b;
      JoinOfSum(a[1..], b);
    }
  }

  lemma ZeroPiecesJoin(content: seq<byte>, d: D.Descriptor, blockSize: nat)
    requires d.Hashtree? && |ZERO_MARKER| <= blockSize && d.treeOffset + d.treeSize + FecSize(d) <= |content|
    ensures content[..d.treeOffset] + JoinPieces(ZeroPieces(content, d, blockSize))
            == WithoutTree(content, d, blockSize)
  {
    hide Zeroed, MarkedZeros, JoinPieces, RangePieces, FecSize;
    var kept, rest := content[..d.treeOffset], content[d.treeOffset + d.treeSize + FecSize(d)..];
    var tree, fec := Zeroed(d.treeSize, blockSize), if d.fecOffset > 0 then Zeroed(d.fecSize, blockSize) else [];
    RangesJoin(d, blockSize);
    JoinOfOne(Bytes(rest));
    JoinOfSum(RangePieces(d, blockSize), [Bytes(rest)]);
    FourParts(kept, tree, fec, rest);
  }

  lemma RangesJoin(d: D.Descriptor, blockSize: nat)
    requires d.Hashtree? && |ZERO_MARKER| <= blockSize
    ensures JoinPieces(RangePieces(d, blockSize))
            == Zeroed(d.treeSize, blockSize) + (if d.fecOffset > 0 then Zeroed(d.fecSize, blockSize) else [])
  {
    hide Zeroed, MarkedZeros;
    MarkedZerosJoin(d.treeSize, blockSize);
    if d.fecOffset > 0 { MarkedZerosJoin(d.fecSize, blockSize); }
    JoinOfSum(MarkedZeros(d.treeSize, blockSize), if d.fecOffset > 0 then MarkedZeros(d.fecSize, blockSize) else []);
  }

  lemma JoinOfOne(p: Piece)
    ensures JoinPieces([p]) == PieceBytes(p)
  {
    assert [p][1..] == [];
  }

  lemma FourParts(a: seq<byte>, b: seq<byte>, c: seq<byte>, d: seq<byte>)
    ensures a + (b + c + d) == a + b + c + d
  {
  }

  lemma ZeroedIsWithoutTree(s: State, after: seq<byte>, opens: bool, r: Option<Error>, d: D.Descriptor, blockSize: nat)
    requires d.Hashtree? && |ZERO_MARKER| <= blockSize && d.treeOffset + d.treeSize + FecSize(d) <= |s.content|
    requires ZeroOutcome(s, after, opens, r, d, blockSize)
    ensures r == None ==> after == WithoutTree(s.content, d, blockSize)
  {
    hide AppendAll, OpensAfter, WithoutTree, ChunksAfter, ZeroPieces;
    ZeroPiecesJoin(s.content, d, blockSize);
    AllFitIff(s.isSparse, ChunksAfter(s, d.treeOffset), s.content[..d.treeOffset],
              ZeroPieces(s.content, d, blockSize), blockSize);
  }

  /** How many chunks zeroing appends. */
  function NumPieces(d: D.Descriptor): nat
    requires d.Hashtree?
  {
    if d.fecOffset > 0 then 5 else 3
  }

  lemma SizesOfPieces(content: seq<byte>, d: D.Descriptor, blockSize: nat)
    requires d.Hashtree? && |ZERO_MARKER| <= blockSize && d.treeOffset + d.treeSize + FecSize(d) <= |content|
    ensures |ZeroPieces(content, d, blockSize)| == NumPieces(d)
    ensures (forall i :: 0 <= i < NumPieces(d) ==> OwnSizeFits(ZeroPieces(content, d, blockSize)[i])) <==>
              && blockSize <= d.treeSize && (d.fecOffset > 0 ==> blockSize <= d.fecSize)
              && ChunkFits(blockSize) && ChunkFits(|content| - (d.treeOffset + d.treeSize + FecSize(d)))
  {
    hide ChunkFits;
    var p := ZeroPieces(content, d, blockSize);
    assert p[0] == Bytes(MarkerBlock(blockSize)) && p[1] == Fill(d.treeSize - blockSize);
    assert d.fecOffset > 0 ==> p[2] == Bytes(MarkerBlock(blockSize)) && p[3] == Fill(d.fecSize - blockSize);
    assert p[NumPieces(d) - 1] == Bytes(content[d.treeOffset + d.treeSize + FecSize(d)..]);
  }

  /**
   * Zeroing a sparse image succeeds exactly when neither range is empty, the data behind them fit one
   * chunk and the header can count the chunks; on a plain image only a tree at its very front fails.
   */
  lemma ZeroesIff(s: State, after: seq<byte>, opens: bool, r: Option<Error>, d: D.Descriptor, blockSize: nat)
    requires d.Hashtree? && |ZERO_MARKER| <= blockSize && Aligned(s.content, d, blockSize)
    requires ZeroOutcome(s, after, opens, r, d, blockSize) && CountsFit(s.isSparse, 0, |s.content|, blockSize)
    ensures r == None <==>
              if s.isSparse
              then
                && d.treeSize > 0 && (d.fecOffset > 0 ==> d.fecSize > 0)
                && ChunkFits(blockSize) && ChunkFits(|s.content| - (d.treeOffset + d.treeSize + FecSize(d)))
                && ChunksAfter(s, d.treeOffset) + NumPieces(d) < UINT32
              else SparseFormat.HEADER_SIZE <= d.treeOffset
  {
    hide AppendAll, OpensAfter, WithoutTree, ChunksAfter, ZeroPieces, ChunkFits, OwnSizeFits;
    var pieces, kept := ZeroPieces(s.content, d, blockSize), s.content[..d.treeOffset];
    ZeroPiecesJoin(s.content, d, blockSize);
    SizesOfPieces(s.content, d, blockSize);
    AllFitIff(s.isSparse, ChunksAfter(s, d.treeOffset), kept, pieces, blockSize);
    BlockOrNothing(d.treeSize, blockSize);
    BlockOrNothing(FecSize(d), blockSize);
    if d.treeSize > 0 && (d.fecOffset > 0 ==> d.fecSize > 0) { ZeroingKeepsTheRest(s.content, d, blockSize); }
    assert |kept + JoinPieces(pieces)| == |kept| + |JoinPieces(pieces)|;
  }

  /**
   * On a sparse image with an empty hash tree the command fails after it has cut off blob and footer, and the file it
   * leaves does not open, unless the chunks cannot even be counted.
   */
  lemma EmptyTreeLosesFooter(s: State, after: seq<byte>, opens: bool, r: Option<Error>, d: D.Descriptor, blockSize: nat)
    requires d.Hashtree? && FOOTER_SIZE <= blockSize && blockSize % 4 == 0 && Aligned(s.content, d, blockSize)
    requires ZeroOutcome(s, after, opens, r, d, blockSize) && s.isSparse && d.treeSize == 0
    requires CountsFit(s.isSparse, 0, |s.content|, blockSize)
    ensures r == Some(StructError)
    ensures var kept, chunks := s.content[..d.treeOffset], ChunksAfter(s, d.treeOffset);
            var marked := CountsFit(true, chunks + 1, d.treeOffset + blockSize, blockSize);
            if ChunkFits(blockSize) && marked
            then after == kept + MarkerBlock(blockSize) && FooterOf(after) == None && (opens <==> chunks + 2 >= UINT32)
            else after == kept && (opens <==> !marked)
  {
    hide ChunksAfter, ChunkFits, MarkerBlock, FooterOf;
    var kept, pieces := s.content[..d.treeOffset], ZeroPieces(s.content, d, blockSize);
    var chunks := ChunksAfter(s, d.treeOffset);
    assert pieces[0] == Bytes(MarkerBlock(blockSize)) && pieces[1..][0] == Fill(d.treeSize - blockSize);
    var next := kept + MarkerBlock(blockSize);
    assert !PieceFits(true, chunks + 1, |next|, pieces[1..][0], blockSize);
    assert AppendAll(true, chunks + 1, next, pieces[1..], blockSize) == (next, Some(StructError));
    QuotientOrder(d.treeOffset, |s.content|, blockSize);
    assert PieceCountable(chunks + 1, |next|, pieces[1..][0], blockSize) <==> chunks + 2 < UINT32;
    assert OpensAfter(chunks + 1, |next|, pieces[1..], blockSize) <==> chunks + 2 >= UINT32;
    assert |kept| == d.treeOffset && |next| == d.treeOffset + |PieceBytes(pieces[0])|;
    MarkerIsNoFooter(kept, blockSize);
  }

  lemma MarkerIsNoFooter(kept: seq<byte>, blockSize: nat)
    requires FOOTER_SIZE <= blockSize && blockSize % 4 == 0
    ensures FooterOf(kept + MarkerBlock(blockSize)) == None
  {
    hide Sum;
    var content := kept + MarkerBlock(blockSize);
    var tail := content[|content| - FOOTER_SIZE..];
    FooterWidthsSum();
    assert tail[0] == MarkerBlock(blockSize)[blockSize - FOOTER_SIZE];
    assert Split(FOOTER_WIDTHS, tail)[0] == tail[..4];
    assert tail[..4][0] != FOOTER_MAGIC[0];
  }
}
