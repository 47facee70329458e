/** What the footer commands make of an image's content, on byte strings. */
module FooterLayout {
  import opened Bytes
  import opened Hashing
  import opened Images
  import opened Utf8
  import opened Vbmeta
  import opened Wrappers

  import D = Descriptors
  import HashTree
  import SparseFormat

  const MAX_VBMETA_SIZE: nat := 64 * 1024
  const MAX_FOOTER_SIZE: nat := 4096

  // ----------------------------------------------------------------- reading content

  /** The footer at the end of the content, if there is one. */
  function FooterOf(content: seq<byte>): Option<Footer> {
    if |content| < FOOTER_SIZE then None
    else match ParseFooter(content[|content| - FOOTER_SIZE..])
      case Ok(f) => Some(f)
      case Raised(_) => None
  }

  /** The content without footer and metadata. */
  function Trim(content: seq<byte>): seq<byte> {
    match FooterOf(content)
    case None => content
    case Some(f) => Resize(content, f.originalImageSize)
  }

  datatype Parsed = Parsed(footer: Option<Footer>, header: Header, descriptors: seq<D.Descriptor>, imageSize: nat)

  function DescriptorsAt(h: Header, vbmetaOffset: nat): nat {
    vbmetaOffset + SIZE + h.authSize + h.descriptorsOffset
  }

  /** _parse_image, on the content. */
  function ParseContent(content: seq<byte>, sizes: D.DigestSizes): Result<Parsed> {
    if |content| < FOOTER_SIZE then Raised(RuntimeError)
    else
      var footer := FooterOf(content);
      var at := if footer.Some? then footer.value.vbmetaOffset else 0;
      match ParseHeader(SparseFormat.ReadAt(content, at, SIZE))
      case Raised(e) => Raised(e)
      case Ok(h) =>
        match D.ParseAll(SparseFormat.ReadAt(content, DescriptorsAt(h, at), h.descriptorsSize), sizes)
        case Raised(e) => Raised(e)
        case Ok(ds) => Ok(Parsed(footer, h, ds, |content|))
  }

  /** The parser reads from inside the image only; plain files may also be read behind their end. */
  ghost predicate OffsetsInside(content: seq<byte>) {
    |content| >= FOOTER_SIZE ==>
      var at := if FooterOf(content).Some? then FooterOf(content).value.vbmetaOffset else 0;
      && at <= |content|
      && match ParseHeader(SparseFormat.ReadAt(content, at, SIZE))
         case Raised(_) => true
         case Ok(h) => h.descriptorsSize == 0 || DescriptorsAt(h, at) <= |content|
  }

  /** _load_vbmeta_blob, on the content. */
  function BlobIn(content: seq<byte>): Result<seq<byte>> {
    if |content| < FOOTER_SIZE then Raised(RuntimeError)
    else
      var at := if FooterOf(content).Some? then FooterOf(content).value.vbmetaOffset else 0;
      match ParseHeader(SparseFormat.ReadAt(content, at, SIZE))
      case Raised(e) => Raised(e)
      case Ok(h) => Ok(SparseFormat.ReadAt(content, at, SIZE + h.authSize + h.auxSize))
  }

  // ----------------------------------------------------------------- writing content

  /** One block that ends in the footer. */
  function FooterBlock(blockSize: nat, f: Footer): (s: seq<byte>)
    requires FOOTER_SIZE <= blockSize && FooterPackable(f)
    ensures |s| == blockSize
  {
    FooterRoundTrip(f);
    Zeros(blockSize - FOOTER_SIZE) + EncodeFooter(f).value
  }

  /** The body brought to the partition size less one block, and the footer block. */
  function Closed(body: seq<byte>, partitionSize: nat, blockSize: nat, f: Footer): (s: seq<byte>)
    requires FOOTER_SIZE <= blockSize <= partitionSize && FooterPackable(f)
    ensures |s| == partitionSize
  {
    Resize(body, partitionSize - blockSize) + FooterBlock(blockSize, f)
  }

  function FooterFor(content: seq<byte>, base: seq<byte>, blob: seq<byte>): Footer {
    NewFooter(|content|, |base|, |blob|)
  }

  /** Image content, padded; vbmeta blob, padded; zeros; footer block. */
  function WithFooter(content: seq<byte>, base: seq<byte>, blob: seq<byte>, partitionSize: nat, blockSize: nat)
    : (s: seq<byte>)
    requires FOOTER_SIZE <= blockSize <= partitionSize && FooterPackable(FooterFor(content, base, blob))
    ensures |s| == partitionSize
  {
    Closed(base + PadTo(blob, blockSize), partitionSize, blockSize, FooterFor(content, base, blob))
  }

  /** The content with blob and footer. */
  ghost predicate HasFooter(image: seq<byte>, content: seq<byte>, base: seq<byte>, blob: seq<byte>, partitionSize: nat,
                            blockSize: nat)
    requires FOOTER_SIZE <= blockSize
  {
    && blockSize <= partitionSize && FooterPackable(FooterFor(content, base, blob))
    && image == WithFooter(content, base, blob, partitionSize, blockSize)
  }

  // --------------------------------------------------------------- footer round trips

  lemma FooterIsFound(body: seq<byte>, blockSize: nat, f: Footer)
    requires FOOTER_SIZE <= blockSize && FooterPackable(f)
    ensures FooterOf(body + FooterBlock(blockSize, f)) == Some(f)
  {
    hide ParseFooter, FooterFields;
    FooterRoundTrip(f);
    var content := body + FooterBlock(blockSize, f);
    assert content[|content| - FOOTER_SIZE..] == EncodeFooter(f).value;
  }

  lemma WithFooterShows(content: seq<byte>, base: seq<byte>, blob: seq<byte>, partitionSize: nat, blockSize: nat)
    requires FOOTER_SIZE <= blockSize <= partitionSize && FooterPackable(FooterFor(content, base, blob))
    ensures FooterOf(WithFooter(content, base, blob, partitionSize, blockSize)) == Some(FooterFor(content, base, blob))
  {
    hide FooterOf, FooterBlock, PadTo;
    FooterIsFound(Resize(base + PadTo(blob, blockSize), partitionSize - blockSize), blockSize,
                  FooterFor(content, base, blob));
  }

  lemma ResizeKeeps(body: seq<byte>, size: nat, n: nat)
    requires n <= |body| && n <= size
    ensures Resize(body, size)[..n] == body[..n]
  {
  }

  lemma PrefixOfSum(a: seq<byte>, b: seq<byte>, n: nat)
    requires n <= |a|
    ensures (a + b)[..n] == a[..n]
  {
  }

  /** The first `n` bytes of the body survive if they fit in front of the footer block. */
  lemma ClosedKeeps(body: seq<byte>, partitionSize: nat, blockSize: nat, f: Footer, n: nat)
    requires FOOTER_SIZE <= blockSize <= partitionSize && FooterPackable(f)
    requires n <= |body| && n <= partitionSize - blockSize
    ensures Closed(body, partitionSize, blockSize, f)[..n] == body[..n]
  {
    hide FooterBlock;
    ResizeKeeps(body, partitionSize - blockSize, n);
    PrefixOfSum(Resize(body, partitionSize - blockSize), FooterBlock(blockSize, f), n);
  }

  /** Erasing undoes adding: dropping what the footer says was added gives back exactly the original content. */
  lemma EraseUndoesAdd(content: seq<byte>, base: seq<byte>, blob: seq<byte>, partitionSize: nat, blockSize: nat)
    requires FOOTER_SIZE <= blockSize <= partitionSize && FooterPackable(FooterFor(content, base, blob))
    requires |content| <= |base| && base[..|content|] == content && |content| <= partitionSize - blockSize
    ensures FooterOf(WithFooter(content, base, blob, partitionSize, blockSize)) == Some(FooterFor(content, base, blob))
    ensures Trim(WithFooter(content, base, blob, partitionSize, blockSize)) == content
  {
    hide FooterOf, FooterBlock, PadTo;
    var f, body := FooterFor(content, base, blob), base + PadTo(blob, blockSize);
    FooterIsFound(Resize(body, partitionSize - blockSize), blockSize, f);
    ClosedKeeps(body, partitionSize, blockSize, f, |content|);
    PrefixOfSum(base, PadTo(blob, blockSize), |content|);
  }

  ghost predicate StoredAt(image: seq<byte>, at: nat, data: seq<byte>) {
    at + |data| <= |image| && image[at..at + |data|] == data
  }

  /** How many of the blob's bytes lie in front of its last block. */
  function InFront(blob: seq<byte>, blockSize: nat): (n: nat)
    requires blockSize > 0 && blob != []
    ensures n < |blob| <= n + blockSize && |PadTo(blob, blockSize)| == n + blockSize && n % blockSize == 0
  {
    BlocksDiffer(|PadTo(blob, blockSize)|, 0, blockSize);
    ModMinus(|PadTo(blob, blockSize)|, blockSize);
    |PadTo(blob, blockSize)| - blockSize
  }

  lemma ModMinus(x: nat, size: nat)
    requires size > 0 && x % size == 0 && x >= size
    ensures (x - size) % size == 0
  {
    ModAddSelf(x - size, size);
  }

  /** Different multiples of the block size are at least a block apart. */
  lemma BlocksDiffer(a: nat, b: nat, size: nat)
    requires size > 0 && a % size == 0 && b % size == 0 && a > b
    ensures a >= b + size
  {
    assert a == (a / size) * size && b == (b / size) * size;
    if a / size <= b / size {
      if a / size < b / size { MulGap(a / size, b / size, size); }
    } else {
      MulGap(b / size, a / size, size);
    }
  }

  /**
   * The blob is stored where the footer says exactly when a block is left for the footer behind it, or when
   * the footer block takes the place of the blob's last block and happens to start with the same bytes.
   */
  lemma BlobStoredIff(content: seq<byte>, base: seq<byte>, blob: seq<byte>, partitionSize: nat, blockSize: nat)
    requires FOOTER_SIZE <= blockSize <= partitionSize && FooterPackable(FooterFor(content, base, blob))
    requires partitionSize % blockSize == 0 && |base| % blockSize == 0 && blob != []
    ensures var n, block := InFront(blob, blockSize), FooterBlock(blockSize, FooterFor(content, base, blob));
            var end := |base| + |PadTo(blob, blockSize)|;
            StoredAt(WithFooter(content, base, blob, partitionSize, blockSize), |base|, blob) <==>
              || end + blockSize <= partitionSize
              || (end == partitionSize && blob[n..] == block[..|blob| - n])
  {
    hide FooterBlock, PadTo, RoundToMultiple;
    var f, padded := FooterFor(content, base, blob), PadTo(blob, blockSize);
    var n, end, block := InFront(blob, blockSize), |base| + |PadTo(blob, blockSize)|, FooterBlock(blockSize, f);
    var w := WithFooter(content, base, blob, partitionSize, blockSize);
    SumIsBlocks(|base|, |padded|, blockSize);
    if partitionSize >= end {
      if partitionSize > end {
        BlocksDiffer(partitionSize, end, blockSize);
        ClosedKeeps(base + padded, partitionSize, blockSize, f, |base| + |blob|);
        BlobBehind(w, base, blob, padded);
      } else {
        assert Resize(base + padded, partitionSize - blockSize) == base + blob[..n];
        LastBlockDecides(w, base, blob, n, block);
      }
    } else {
      BlocksDiffer(end, partitionSize, blockSize);
    }
  }

  lemma SumIsBlocks(a: nat, b: nat, size: nat)
    requires size > 0 && a % size == 0 && b % size == 0
    ensures (a + b) % size == 0
  {
    assert a + b == (a / size + b / size) * size;
    MultipleMod(a / size + b / size, size);
  }

  lemma LastBlockDecides(w: seq<byte>, base: seq<byte>, blob: seq<byte>, n: nat, block: seq<byte>)
    requires n <= |blob| <= n + |block| && w == base + blob[..n] + block
    ensures StoredAt(w, |base|, blob) <==> blob[n..] == block[..|blob| - n]
  {
    var range := w[|base|..|base| + |blob|];
    assert range == blob[..n] + block[..|blob| - n];
    assert blob == blob[..n] + blob[n..];
    assert range[n..] == block[..|blob| - n];
  }

  /** Erasing gives the content back exactly when it ends in front of the footer block or ends like it. */
  lemma ContentErasedIff(content: seq<byte>, base: seq<byte>, blob: seq<byte>, partitionSize: nat, blockSize: nat)
    requires FOOTER_SIZE <= blockSize <= partitionSize && FooterPackable(FooterFor(content, base, blob))
    requires content <= base
    ensures var front := partitionSize - blockSize;
            var block := FooterBlock(blockSize, FooterFor(content, base, blob));
            Trim(WithFooter(content, base, blob, partitionSize, blockSize)) == content <==>
              |content| > front ==> content[front..] == Resize(block, |content| - front)
  {
    hide FooterOf, FooterBlock, PadTo;
    var f, front := FooterFor(content, base, blob), partitionSize - blockSize;
    var body, block := base + PadTo(blob, blockSize), FooterBlock(blockSize, FooterFor(content, base, blob));
    FooterIsFound(Resize(body, front), blockSize, f);
    if |content| <= front {
      EraseUndoesAdd(content, base, blob, partitionSize, blockSize);
    } else {
      var cut := Resize(body[..front] + block, |content|);
      assert body[..front] == content[..front];
      assert cut == content[..front] + Resize(block, |content| - front);
      assert content == content[..front] + content[front..];
      assert cut[front..] == Resize(block, |content| - front);
    }
  }

  /** Attaching the same blob to what erasing gives back makes the same image, even if content was lost. */
  lemma AttachingAgain(content: seq<byte>, blob: seq<byte>, partitionSize: nat, blockSize: nat)
    requires FOOTER_SIZE <= blockSize <= partitionSize
    requires FooterPackable(FooterFor(content, PadTo(content, blockSize), blob))
    ensures var w := WithFooter(content, PadTo(content, blockSize), blob, partitionSize, blockSize);
            var left := Trim(w);
            && |left| == |content|
            && FooterFor(left, PadTo(left, blockSize), blob) == FooterFor(content, PadTo(content, blockSize), blob)
            && WithFooter(left, PadTo(left, blockSize), blob, partitionSize, blockSize) == w
            && (|content| + blockSize <= partitionSize ==> left == content)
  {
    hide FooterOf, FooterBlock, PadTo, RoundToMultiple;
    var base, front := PadTo(content, blockSize), partitionSize - blockSize;
    var w := WithFooter(content, base, blob, partitionSize, blockSize);
    WithFooterShows(content, base, blob, partitionSize, blockSize);
    var left := Trim(w);
    if |content| <= front {
      EraseUndoesAdd(content, base, blob, partitionSize, blockSize);
    } else {
      FrontOnly(content, left, w, base + PadTo(blob, blockSize), PadTo(left, blockSize) + PadTo(blob, blockSize), front,
                FooterBlock(blockSize, FooterFor(content, base, blob)));
    }
  }

  lemma FrontOnly(content: seq<byte>, left: seq<byte>, w: seq<byte>, body: seq<byte>, body': seq<byte>, front: nat,
                  block: seq<byte>)
    requires front < |content| && content <= body && left <= body' && w == Resize(body, front) + block
    requires left == Resize(w, |content|)
    ensures Resize(body', front) == Resize(body, front)
  {
    assert forall i :: 0 <= i < front ==> body'[i] == left[i] == w[i] == body[i];
  }

  // ------------------------------------------------------------ parsing what was added

  /** The blob's own header and descriptor range. */
  ghost predicate IsVbmeta(blob: seq<byte>, h: Header, ds: seq<D.Descriptor>, sizes: D.DigestSizes) {
    && SIZE <= |blob| && ParseHeader(blob[..SIZE]) == Ok(h)
    && DescriptorsAt(h, 0) + h.descriptorsSize <= |blob|
    && D.ParseAll(blob[DescriptorsAt(h, 0)..DescriptorsAt(h, 0) + h.descriptorsSize], sizes) == Ok(ds)
  }

  lemma ReadInside(content: seq<byte>, at: nat, blob: seq<byte>, i: nat, n: nat)
    requires at + |blob| <= |content| && content[at..at + |blob|] == blob && i + n <= |blob| && 0 < n
    ensures SparseFormat.ReadAt(content, at + i, n) == blob[i..i + n]
  {
    SliceOfSlice(content, at, at + |blob|, i, i + n);
  }

  lemma ReadNothing(content: seq<byte>, at: nat)
    ensures SparseFormat.ReadAt(content, at, 0) == []
  {
  }

  /** An image that holds a vbmeta blob where its footer points to parses to that blob's header and descriptors. */
  lemma ParsesTo(content: seq<byte>, f: Footer, blob: seq<byte>, h: Header, ds: seq<D.Descriptor>, sizes: D.DigestSizes)
    requires FooterOf(content) == Some(f) && IsVbmeta(blob, h, ds, sizes)
    requires f.vbmetaOffset + |blob| <= |content| && content[f.vbmetaOffset..f.vbmetaOffset + |blob|] == blob
    ensures ParseContent(content, sizes) == Ok(Parsed(Some(f), h, ds, |content|)) && OffsetsInside(content)
  {
    hide ParseHeader, D.ParseAll, ParseFooter;
    ReadInside(content, f.vbmetaOffset, blob, 0, SIZE);
    assert blob[0..SIZE] == blob[..SIZE];
    if h.descriptorsSize > 0 {
      ReadInside(content, f.vbmetaOffset, blob, DescriptorsAt(h, 0), h.descriptorsSize);
    } else {
      ReadNothing(content, DescriptorsAt(h, f.vbmetaOffset));
      assert blob[DescriptorsAt(h, 0)..DescriptorsAt(h, 0)] == [];
    }
  }

  /** The finished image parses to what was put in, if there was room. */
  lemma ParsesAsAdded(content: seq<byte>, base: seq<byte>, blob: seq<byte>, partitionSize: nat, blockSize: nat,
                      h: Header, ds: seq<D.Descriptor>, sizes: D.DigestSizes)
    requires FOOTER_SIZE <= blockSize <= partitionSize && FooterPackable(FooterFor(content, base, blob))
    requires |base| + |PadTo(blob, blockSize)| + blockSize <= partitionSize && IsVbmeta(blob, h, ds, sizes)
    ensures ParseContent(WithFooter(content, base, blob, partitionSize, blockSize), sizes)
         == Ok(Parsed(Some(FooterFor(content, base, blob)), h, ds, partitionSize))
    ensures OffsetsInside(WithFooter(content, base, blob, partitionSize, blockSize))
  {
    hide IsVbmeta, FooterOf, ParseContent, FooterBlock, OffsetsInside;
    var f, body := FooterFor(content, base, blob), base + PadTo(blob, blockSize);
    var final := WithFooter(content, base, blob, partitionSize, blockSize);
    FooterIsFound(Resize(body, partitionSize - blockSize), blockSize, f);
    ClosedKeeps(body, partitionSize, blockSize, f, |base| + |blob|);
    BlobBehind(final, base, blob, PadTo(blob, blockSize));
    ParsesTo(final, f, blob, h, ds, sizes);
  }

  lemma BlobBehind(final: seq<byte>, base: seq<byte>, blob: seq<byte>, padded: seq<byte>)
    requires blob <= padded && |base| + |blob| <= |final|
    requires final[..|base| + |blob|] == (base + padded)[..|base| + |blob|]
    ensures final[|base|..|base| + |blob|] == blob
  {
    var n := |base| + |blob|;
    assert final[|base|..n] == final[..n][|base|..] && (base + padded)[..n][|base|..] == padded[..|blob|];
  }

  // -------------------------------------------------------------------------- resizing

  /** What resize_image leaves of an image whose footer is `f`. */
  function Resized(content: seq<byte>, f: Footer, partitionSize: nat, blockSize: nat): (s: seq<byte>)
    requires FOOTER_SIZE <= blockSize && FooterPackable(f)
    requires RoundToMultiple(f.vbmetaOffset + f.vbmetaSize, blockSize) + blockSize <= partitionSize
    ensures |s| == partitionSize
  {
    Closed(Resize(content, RoundToMultiple(f.vbmetaOffset + f.vbmetaSize, blockSize)), partitionSize, blockSize, f)
  }

  lemma ResizedKeeps(content: seq<byte>, f: Footer, partitionSize: nat, blockSize: nat)
    requires FOOTER_SIZE <= blockSize && FooterPackable(f)
    requires RoundToMultiple(f.vbmetaOffset + f.vbmetaSize, blockSize) + blockSize <= partitionSize
    ensures var end := RoundToMultiple(f.vbmetaOffset + f.vbmetaSize, blockSize);
            && end <= partitionSize && Resized(content, f, partitionSize, blockSize)[..end] == Resize(content, end)
            && FooterOf(Resized(content, f, partitionSize, blockSize)) == Some(f)
  {
    hide FooterOf, FooterBlock, RoundToMultiple;
    var end := RoundToMultiple(f.vbmetaOffset + f.vbmetaSize, blockSize);
    FooterIsFound(Resize(Resize(content, end), partitionSize - blockSize), blockSize, f);
    ClosedKeeps(Resize(content, end), partitionSize, blockSize, f, end);
    assert Resize(content, end)[..end] == Resize(content, end);
  }

  /** Resizing keeps what the image parses to, but for its size. */
  lemma ResizedParsesTheSame(content: seq<byte>, f: Footer, blob: seq<byte>, h: Header, ds: seq<D.Descriptor>,
                             partitionSize: nat, blockSize: nat, sizes: D.DigestSizes)
    requires FOOTER_SIZE <= blockSize && FooterPackable(f) && FooterOf(content) == Some(f)
    requires |blob| == f.vbmetaSize && f.vbmetaOffset + |blob| <= |content|
    requires content[f.vbmetaOffset..f.vbmetaOffset + |blob|] == blob && IsVbmeta(blob, h, ds, sizes)
    requires RoundToMultiple(f.vbmetaOffset + f.vbmetaSize, blockSize) + blockSize <= partitionSize
    ensures ParseContent(content, sizes) == Ok(Parsed(Some(f), h, ds, |content|))
    ensures ParseContent(Resized(content, f, partitionSize, blockSize), sizes)
            == Ok(Parsed(Some(f), h, ds, partitionSize))
    ensures OffsetsInside(content) && OffsetsInside(Resized(content, f, partitionSize, blockSize))
  {
    hide OffsetsInside, IsVbmeta, FooterOf, ParseContent, Resized;
    ParsesTo(content, f, blob, h, ds, sizes);
    ResizedKeeps(content, f, partitionSize, blockSize);
    var end := RoundToMultiple(f.vbmetaOffset + f.vbmetaSize, blockSize);
    var r := Resized(content, f, partitionSize, blockSize);
    SameRange(content, end, r, f.vbmetaOffset, |blob|);
    ParsesTo(r, f, blob, h, ds, sizes);
  }

  lemma SameRange(content: seq<byte>, end: nat, r: seq<byte>, at: nat, n: nat)
    requires at + n <= |content| && at + n <= end <= |r| && r[..end] == Resize(content, end)
    ensures r[at..at + n] == content[at..at + n]
  {
    assert forall k :: at <= k < at + n ==> r[k] == r[..end][k] == content[k];
  }

  /** Resizing twice is resizing once to the second size. */
  lemma ResizingTwice(content: seq<byte>, f: Footer, p1: nat, p2: nat, blockSize: nat)
    requires FOOTER_SIZE <= blockSize && FooterPackable(f)
    requires RoundToMultiple(f.vbmetaOffset + f.vbmetaSize, blockSize) + blockSize <= p1
    requires RoundToMultiple(f.vbmetaOffset + f.vbmetaSize, blockSize) + blockSize <= p2
    ensures FooterOf(Resized(content, f, p1, blockSize)) == Some(f)
    ensures Resized(Resized(content, f, p1, blockSize), f, p2, blockSize) == Resized(content, f, p2, blockSize)
  {
    hide FooterOf, RoundToMultiple, Closed;
    ResizedKeeps(content, f, p1, blockSize);
  }

  // -------------------------------------------------------------------------- capacity

  /** The largest image add_hashtree_footer takes for a partition, when that is not negative. */
  function MaxImageSize(partitionSize: nat, blockSize: nat, entrySize: nat): int
    requires 0 < entrySize && 2 * entrySize <= blockSize
  {
    partitionSize - (HashTree.TreeSize(partitionSize, blockSize, entrySize) + MAX_VBMETA_SIZE + MAX_FOOTER_SIZE)
  }

  /** With 4096-byte blocks, whatever passes the size check leaves room for tree, blob and footer. */
  lemma HashtreeFits(imageSize: nat, blobSize: nat, partitionSize: nat, entrySize: nat)
    requires 0 < entrySize && 2 * entrySize <= 4096
    requires imageSize <= MaxImageSize(partitionSize, 4096, entrySize) && blobSize <= MAX_VBMETA_SIZE
    ensures imageSize + HashTree.TreeSize(imageSize, 4096, entrySize) + RoundToMultiple(blobSize, 4096) + 4096
            <= partitionSize
  {
    HashTree.TreeSizeMonotone(imageSize, partitionSize, 4096, entrySize);
    RoundedWithin(blobSize, MAX_VBMETA_SIZE);
  }

  lemma RoundedWithin(size: nat, limit: nat)
    requires size <= limit && limit % 4096 == 0
    ensures RoundToMultiple(size, 4096) <= limit
  {
  }

  /** The same for add_hash_footer, whose image need not be a multiple of the block size. */
  lemma HashFits(imageSize: nat, blobSize: nat, partitionSize: nat)
    requires partitionSize % 4096 == 0 && imageSize + MAX_VBMETA_SIZE + MAX_FOOTER_SIZE <= partitionSize
    requires blobSize <= MAX_VBMETA_SIZE
    ensures RoundToMultiple(imageSize, 4096) + RoundToMultiple(blobSize, 4096) + 4096 <= partitionSize
  {
    RoundedWithin(imageSize, partitionSize - MAX_VBMETA_SIZE - MAX_FOOTER_SIZE);
    RoundedWithin(blobSize, MAX_VBMETA_SIZE);
  }

  // ------------------------------------------------------------------------ zero_hashtree

  /** "ZeRoHaSH" */
  const ZERO_MARKER: seq<byte> := [90, 101, 82, 111, 72, 97, 83, 72]

  /** The blocks that zero_hashtree writes over a range: at least one, and the marker in front. */
  function Zeroed(size: nat, blockSize: nat): (s: seq<byte>)
    requires |ZERO_MARKER| <= blockSize
    ensures |s| == if size >= blockSize then size else blockSize
  {
    ZERO_MARKER + Zeros((if size >= blockSize then size else blockSize) - |ZERO_MARKER|)
  }

  function FecSize(d: D.Descriptor): nat
    requires d.Hashtree?
  {
    if d.fecOffset > 0 then d.fecSize else 0
  }

  /** Hash tree and FEC data are whole blocks inside an image of whole blocks. */
  ghost predicate Aligned(content: seq<byte>, d: D.Descriptor, blockSize: nat)
    requires d.Hashtree? && blockSize > 0
  {
    && d.treeOffset % blockSize == 0 && d.treeSize % blockSize == 0 && FecSize(d) % blockSize == 0
    && |content| % blockSize == 0
    && d.treeOffset + d.treeSize + FecSize(d) <= |content|
  }

  /** The image after zero_hashtree. */
  function WithoutTree(content: seq<byte>, d: D.Descriptor, blockSize: nat): seq<byte>
    requires d.Hashtree? && |ZERO_MARKER| <= blockSize && d.treeOffset + d.treeSize + FecSize(d) <= |content|
  {
    content[..d.treeOffset] + Zeroed(d.treeSize, blockSize)
    + (if d.fecOffset > 0 then Zeroed(d.fecSize, blockSize) else [])
    + content[d.treeOffset + d.treeSize + FecSize(d)..]
  }

  /**
   * Zeroing keeps the image's size exactly when neither range is empty, and then every byte outside
   * the two ranges; an empty hash tree makes the image grow by a block.
   */
  lemma ZeroingKeepsTheRest(content: seq<byte>, d: D.Descriptor, blockSize: nat)
    requires d.Hashtree? && |ZERO_MARKER| <= blockSize && Aligned(content, d, blockSize)
    ensures var r, end := WithoutTree(content, d, blockSize), d.treeOffset + d.treeSize + FecSize(d);
            && (|r| == |content| <==> d.treeSize > 0 && (d.fecOffset > 0 ==> d.fecSize > 0))
            && |content| - end <= |r| && d.treeOffset <= |r|
            && r[..d.treeOffset] == content[..d.treeOffset] && r[|r| - (|content| - end)..] == content[end..]
  {
    hide Zeroed;
    BlockOrNothing(d.treeSize, blockSize);
    BlockOrNothing(FecSize(d), blockSize);
    var a, b, c, e := content[..d.treeOffset], Zeroed(d.treeSize, blockSize),
                      if d.fecOffset > 0 then Zeroed(d.fecSize, blockSize) else [],
                      content[d.treeOffset + d.treeSize + FecSize(d)..];
    Ends(a, b, c, e);
  }

  lemma BlockOrNothing(size: nat, blockSize: nat)
    requires blockSize > 0 && size % blockSize == 0
    ensures size == 0 || size >= blockSize
  {
  }

  lemma Ends(a: seq<byte>, b: seq<byte>, c: seq<byte>, e: seq<byte>)
    ensures var s := a + b + c + e; s[..|a|] == a && s[|s| - |e|..] == e
  {
  }

  /**
   * A zeroed range: the eight bytes "ZeRoHaSH", and zeros; in an image the tree's range becomes one, and the range of
   * the error correction data another.
   */
  lemma ZeroedBytes(content: seq<byte>, d: D.Descriptor, blockSize: nat)
    requires d.Hashtree? && 8 <= blockSize && d.treeSize >= blockSize && (d.fecOffset > 0 ==> d.fecSize >= blockSize)
    requires d.treeOffset + d.treeSize + (if d.fecOffset > 0 then d.fecSize else 0) <= |content|
    ensures var after, at, fec := WithoutTree(content, d, blockSize), d.treeOffset, d.treeOffset + d.treeSize;
            && |after| == |content|
            && after[at..at + 8] == Ascii("ZeRoHaSH") && (forall i :: at + 8 <= i < fec ==> after[i] == 0)
            && (d.fecOffset > 0 ==>
                  && after[fec..fec + 8] == Ascii("ZeRoHaSH")
                  && forall i :: fec + 8 <= i < fec + d.fecSize ==> after[i] == 0)
            && (forall i :: 0 <= i < |content| && !(at <= i < fec + FecSize(d)) ==> after[i] == content[i])
  {
  }
}
