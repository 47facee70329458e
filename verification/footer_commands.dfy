/** The commands that add, move and erase footers, on ImageHandler objects. */
module FooterCommands {
  import opened Bytes
  import opened FooterLayout
  import opened Hashing
  import opened Images
  import opened Vbmeta
  import opened Wrappers

  import D = Descriptors
  import SparseEdit
  import SparseFormat

  // ------------------------------------------------------------------------ reading

  /** What seek(at) and read(n) give: a slice of the content, or what a sparse image shows behind its end. */
  ghost function ReadsAt(image: ImageHandler, at: nat, n: nat): Result<seq<byte>>
    requires image.Loaded()
    reads image`file, image`isSparse, image`blockSize, image`imageSize, image`chunks, image`chunkOutputOffsets,
      image`sparseEnd, image`image
  {
    if !image.isSparse || n == 0 || (image.chunks != [] && at <= image.imageSize)
    then Ok(SparseFormat.ReadAt(image.Content(), at, n))
    else if image.chunks == [] then Raised(IndexError)
    else
      var last := image.chunks[|image.chunks| - 1];
      BeyondData(last, at - last.outputOffset, image.imageSize - at)
  }

  method ReadRange(image: ImageHandler, at: nat, n: nat) returns (r: Result<seq<byte>>)
    requires image.Loaded()
    modifies image`filePos
    ensures r == ReadsAt(image, at, n)
  {
    hide Describes, SparseFormat.ReadAt, BeyondData;
    var _ := image.Seek(at);
    r := image.Read(n);
  }

  /** Inside a sparse image that is not empty, reading gives a slice of the content. */
  lemma ReadsInside(image: ImageHandler, at: nat, n: nat)
    requires image.Loaded()
    ensures !image.isSparse || n == 0 || (at <= image.imageSize && image.imageSize > 0) ==>
              ReadsAt(image, at, n) == Ok(SparseFormat.ReadAt(image.Content(), at, n))
  {
    hide Describes, SparseFormat.ReadAt, SparseEdit.IsTable, BeyondData;
    if image.isSparse && image.imageSize > 0 {
      image.LoadedTable();
      SomeChunk(image.image.chunks, image.blockSize);
    }
  }

  /** The last 64 bytes. */
  method ReadTail(image: ImageHandler) returns (tail: seq<byte>)
    requires image.Loaded() && FOOTER_SIZE <= image.imageSize
    modifies image`filePos
    ensures FOOTER_SIZE <= |image.Content()| && tail == image.Content()[|image.Content()| - FOOTER_SIZE..]
  {
    hide Describes, SparseFormat.ReadAt, ReadsAt;
    image.ContentSize();
    ReadsInside(image, image.imageSize - FOOTER_SIZE, FOOTER_SIZE);
    var r := ReadRange(image, image.imageSize - FOOTER_SIZE, FOOTER_SIZE);
    WholeRead(image.Content(), image.imageSize - FOOTER_SIZE, FOOTER_SIZE);
    tail := r.value;
  }

  lemma WholeRead(content: seq<byte>, at: nat, n: nat)
    requires at + n <= |content|
    ensures SparseFormat.ReadAt(content, at, n) == content[at..at + n]
  {
  }

  /** What _parse_image makes of an image. */
  ghost function ParsedBy(image: ImageHandler, sizes: D.DigestSizes): Result<Parsed>
    requires image.Loaded()
    reads image`file, image`isSparse, image`blockSize, image`imageSize, image`chunks, image`chunkOutputOffsets,
      image`sparseEnd, image`image
  {
    var content := image.Content();
    if |content| < FOOTER_SIZE then Raised(RuntimeError)
    else
      var at := VbmetaAt(content);
      match ReadsAt(image, at, SIZE)
      case Raised(e) => Raised(e)
      case Ok(header) =>
        match ParseHeader(header)
        case Raised(e) => Raised(e)
        case Ok(h) =>
          match ReadsAt(image, DescriptorsAt(h, at), h.descriptorsSize)
          case Raised(e) => Raised(e)
          case Ok(data) =>
            match D.ParseAll(data, sizes)
            case Raised(e) => Raised(e)
            case Ok(ds) => Ok(Parsed(FooterOf(content), h, ds, |content|))
  }

  /** Where the vbmeta blob is: where the footer says, or at the start. */
  function VbmetaAt(content: seq<byte>): nat {
    if FooterOf(content).Some? then FooterOf(content).value.vbmetaOffset else 0
  }

  /** If no offset lies behind a sparse image, parsing depends on the content alone. */
  lemma ParsedInside(image: ImageHandler, sizes: D.DigestSizes)
    requires image.Loaded()
    ensures !image.isSparse || OffsetsInside(image.Content()) ==>
              ParsedBy(image, sizes) == ParseContent(image.Content(), sizes)
  {
    hide Describes, ParseHeader, D.ParseAll, SparseFormat.ReadAt, ReadsAt, FooterOf, DescriptorsAt;
    image.ContentSize();
    var content := image.Content();
    if |content| >= FOOTER_SIZE {
      var at := VbmetaAt(content);
      ReadsInside(image, at, SIZE);
      var header := ParseHeader(SparseFormat.ReadAt(content, at, SIZE));
      if header.Ok? { ReadsInside(image, DescriptorsAt(header.value, at), header.value.descriptorsSize); }
    }
  }

  /** _parse_image */
  method ParseImage(image: ImageHandler, sizes: D.DigestSizes) returns (r: Result<Parsed>)
    requires image.Loaded()
    modifies image`filePos
    ensures r == ParsedBy(image, sizes)
    ensures r.Ok? ==> r.value.footer == FooterOf(image.Content())
  {
    hide Describes, ParseFooter, ParseHeader, D.ParseAll, SparseFormat.ReadAt, DescriptorsAt, ReadsAt;
    image.ContentSize();
    if image.imageSize < FOOTER_SIZE { return Raised(RuntimeError); }
    var tail := ReadTail(image);
    var footer := ParseFooter(tail);
    var vbmetaOffset := if footer.Ok? then footer.value.vbmetaOffset else 0;
    var header := ReadRange(image, vbmetaOffset, SIZE);
    if header.Raised? { return Raised(header.error); }
    var h := ParseHeader(header.value);
    if h.Raised? { return Raised(h.error); }
    var data := ReadRange(image, DescriptorsAt(h.value, vbmetaOffset), h.value.descriptorsSize);
    if data.Raised? { return Raised(data.error); }
    var descriptors := D.ParseDescriptors(data.value, sizes);
    if descriptors.Raised? { return Raised(descriptors.error); }
    return Ok(Parsed(if footer.Ok? then Some(footer.value) else None, h.value, descriptors.value, image.imageSize));
  }

  /** What _load_vbmeta_blob makes of an image. */
  ghost function BlobBy(image: ImageHandler): Result<seq<byte>>
    requires image.Loaded()
    reads image`file, image`isSparse, image`blockSize, image`imageSize, image`chunks, image`chunkOutputOffsets,
      image`sparseEnd, image`image
  {
    var content := image.Content();
    if |content| < FOOTER_SIZE then Raised(RuntimeError)
    else
      var at := VbmetaAt(content);
      match ReadsAt(image, at, SIZE)
      case Raised(e) => Raised(e)
      case Ok(header) =>
        match ParseHeader(header)
        case Raised(e) => Raised(e)
        case Ok(h) => ReadsAt(image, at, SIZE + h.authSize + h.auxSize)
  }

  lemma BlobInside(image: ImageHandler)
    requires image.Loaded()
    ensures !image.isSparse || OffsetsInside(image.Content()) ==> BlobBy(image) == BlobIn(image.Content())
  {
    hide Describes, ParseHeader, SparseFormat.ReadAt, ReadsAt, FooterOf, DescriptorsAt;
    image.ContentSize();
    var content := image.Content();
    if |content| >= FOOTER_SIZE {
      var at := VbmetaAt(content);
      ReadsInside(image, at, SIZE);
      var header := ParseHeader(SparseFormat.ReadAt(content, at, SIZE));
      if header.Ok? { ReadsInside(image, at, SIZE + header.value.authSize + header.value.auxSize); }
    }
  }

  /** _load_vbmeta_blob */
  method LoadVbmetaBlob(image: ImageHandler) returns (r: Result<seq<byte>>)
    requires image.Loaded()
    modifies image`filePos
    ensures r == BlobBy(image)
  {
    hide Describes, ParseFooter, ParseHeader, SparseFormat.ReadAt, ReadsAt;
    image.ContentSize();
    if image.imageSize < FOOTER_SIZE { return Raised(RuntimeError); }
    var tail := ReadTail(image);
    var footer := ParseFooter(tail);
    var vbmetaOffset := if footer.Ok? then footer.value.vbmetaOffset else 0;
    var header := ReadRange(image, vbmetaOffset, SIZE);
    if header.Raised? { return Raised(header.error); }
    var h := ParseHeader(header.value);
    if h.Raised? { return Raised(h.error); }
    r := ReadRange(image, vbmetaOffset, SIZE + h.value.authSize + h.value.auxSize);
  }

  // ------------------------------------------------------------------------ writing

  /** What the commands see of an image: its content and, for a sparse one, where the chunks' outputs begin. */
  datatype State = State(isSparse: bool, content: seq<byte>, offsets: seq<nat>)

  ghost function StateOf(image: ImageHandler): State
    reads image
  {
    State(image.isSparse, image.Content(), if image.isSparse then image.chunkOutputOffsets else [])
  }

  /** How many chunks a sparse image has after a truncation to this size. */
  function ChunksAfter(s: State, size: nat): nat {
    if !s.isSparse then 0
    else if size < |s.content| then SparseEdit.KeptChunks(s.offsets, size)
    else |s.offsets| + if size == |s.content| then 0 else 1
  }

  /** How many chunks are left when an existing footer has been dropped. */
  function TrimmedChunks(s: State): nat {
    match FooterOf(s.content)
    case None => |s.offsets|
    case Some(f) => ChunksAfter(s, f.originalImageSize)
  }

  /** The header fields of a sparse file can hold this many chunks and an image of this size. */
  predicate CountsFit(isSparse: bool, chunks: nat, size: nat, blockSize: nat)
    requires blockSize > 0
  {
    isSparse ==> size / blockSize < UINT32 && chunks < UINT32
  }

  /** An existing footer leaves a plain file a header's length, and a sparse one has room for the original size. */
  predicate SaneFooter(s: State, blockSize: nat)
    requires blockSize > 0
  {
    FooterOf(s.content).Some? ==>
      var size := FooterOf(s.content).value.originalImageSize;
      if s.isSparse then size <= |s.content| || CountsFit(s.isSparse, |s.offsets| + 1, size, blockSize)
      else SparseFormat.HEADER_SIZE <= size
  }

  /** The original size in the footer of a sparse image is a multiple of the block size. */
  predicate CleanCut(s: State, blockSize: nat)
    requires blockSize > 0
  {
    s.isSparse && FooterOf(s.content).Some? ==> FooterOf(s.content).value.originalImageSize % blockSize == 0
  }

  /** Images the commands can write to, with blocks large enough for a footer. */
  ghost predicate Writable(image: ImageHandler)
    reads image
  {
    image.Valid() && !image.readOnly && FOOTER_SIZE <= image.blockSize
  }

  /** Drops an existing footer and everything it says was added. */
  method TrimToOriginal(image: ImageHandler) returns (error: Option<Error>, originalImageSize: nat)
    requires Writable(image) && SaneFooter(StateOf(image), image.blockSize)
    modifies image
    ensures image.isSparse == old(image.isSparse) && image.blockSize == old(image.blockSize) && Writable(image)
    ensures error == None ==>
              && image.Content() == Trim(old(image.Content())) && originalImageSize == image.imageSize
              && |StateOf(image).offsets| == TrimmedChunks(old(StateOf(image)))
    ensures error != None ==> image.isSparse && error == Some(ValueError) && image.Content() == old(image.Content())
    ensures error == None <==> CleanCut(old(StateOf(image)), image.blockSize)
  {
    hide Describes, ParseFooter, SparseEdit.KeptChunks;
    image.ContentSize();
    originalImageSize := image.imageSize;
    if image.isSparse { ChunkCount(image); }
    if image.imageSize >= FOOTER_SIZE {
      var tail := ReadTail(image);
      var footer := ParseFooter(tail);
      if footer.Ok? {
        originalImageSize := footer.value.originalImageSize;
        if image.isSparse && image.imageSize < originalImageSize { GrowthFits(image, originalImageSize); }
        error := image.Truncate(originalImageSize);
        image.ContentSize();
        if image.isSparse { ChunkCount(image); }
        return;
      }
    }
    return None, originalImageSize;
  }

  lemma ChunkCount(image: ImageHandler)
    requires image.Loaded() && image.isSparse
    ensures |image.image.chunks| == |image.chunkOutputOffsets|
  {
    hide Describes, SparseEdit.IsTable, SparseEdit.Sorted, SparseEdit.Usable;
    image.LoadedTable();
  }

  /** A plain image is grown to whole blocks; a sparse one always has whole blocks. */
  method Grow(image: ImageHandler)
    requires Writable(image)
    modifies image
    ensures image.isSparse == old(image.isSparse) && image.blockSize == old(image.blockSize) && Writable(image)
    ensures image.Content() == PadTo(old(image.Content()), image.blockSize) && image.imageSize % image.blockSize == 0
    ensures StateOf(image).offsets == old(StateOf(image).offsets)
  {
    hide Describes;
    image.ContentSize();
    if image.isSparse { WholeBlocks(image); }
    ghost var before := image.Content();
    Padded(before, image.blockSize);
    if image.imageSize % image.blockSize != 0 {
      var paddingNeeded := image.blockSize - image.imageSize % image.blockSize;
      var r := image.Truncate(image.imageSize + paddingNeeded);
    }
    image.ContentSize();
  }

  lemma WholeBlocks(image: ImageHandler)
    requires image.Loaded() && image.isSparse
    ensures image.blockSize > 0 && image.imageSize % image.blockSize == 0
  {
    SparseEdit.TotalOutIsBlocks(image.image.chunks, image.blockSize);
    SpanDivides(SparseFormat.Blocks(image.image.chunks), image.blockSize);
  }

  lemma Padded(s: seq<byte>, size: nat)
    requires size > 0
    ensures PadTo(s, size) == Resize(s, |s| + if |s| % size == 0 then 0 else size - |s| % size)
  {
  }

  /** The size field of a chunk that holds these bytes does not overflow. */
  predicate ChunkFits(size: nat) {
    SparseFormat.CHUNK_HEADER_SIZE + size < UINT32
  }

  /** A footer block and a padded blob each fit a chunk. */
  predicate Fit(blockSize: nat, blob: seq<byte>)
    requires blockSize > 0
  {
    ChunkFits(blockSize) && ChunkFits(|PadTo(blob, blockSize)|)
  }

  /** The counts in the header can take one more chunk of `n` bytes, but its own size field cannot. */
  predicate Stuck(isSparse: bool, chunks: nat, size: nat, n: nat, blockSize: nat)
    requires blockSize > 0
  {
    isSparse && !ChunkFits(n) && CountsFit(isSparse, chunks + 1, size + n, blockSize)
  }

  /** The counts that one more chunk needs, if its bytes are a whole number of blocks, or a negative one. */
  lemma CountableIff(image: ImageHandler, n: int)
    requires image.Loaded() && image.isSparse && image.blockSize > 0 && Whole(n, image.blockSize)
    ensures Countable(image.image, BlocksIn(n, image.blockSize))
       <==> image.imageSize + n >= 0
            && CountsFit(image.isSparse, |StateOf(image).offsets| + 1, image.imageSize + n, image.blockSize)
  {
    hide Describes, SparseFormat.Blocks;
    BlockCount(image);
    WholeBlocks(image);
    ChunkCount(image);
    SumOfQuotients(image.imageSize, n, image.blockSize);
  }

  /** One more chunk fits exactly when the counts of the longer image and the chunk's own size do. */
  lemma GrowIff(image: ImageHandler, n: nat, totalSize: nat)
    requires image.Loaded() && image.isSparse && image.blockSize > 0 && Whole(n, image.blockSize)
    ensures image.CanGrow(BlocksIn(n, image.blockSize), totalSize)
       <==> CountsFit(image.isSparse, |StateOf(image).offsets| + 1, image.imageSize + n, image.blockSize)
            && totalSize < UINT32
  {
    hide Describes, CountsFit, Whole, Countable;
    CountableIff(image, n);
    QuotientOrder(0, n, image.blockSize);
  }

  /** A sum of whole blocks has as many blocks as its parts; a negative sum a negative number. */
  lemma SumOfQuotients(a: nat, b: int, d: nat)
    requires d > 0 && a % d == 0 && b % d == 0
    ensures a / d + b / d >= 0 <==> a + b >= 0
    ensures a + b >= 0 ==> (a + b) / d == a / d + b / d
  {
    var k := a / d + b / d;
    assert a + b == k * d;
    if k < 0 {
      MulGap(k, 0, d);
    } else {
      MulGap(-1, k, d);
      MultipleMod(k, d);
    }
  }

  lemma GrowthFits(image: ImageHandler, size: nat)
    requires image.Loaded() && image.isSparse && image.blockSize > 0 && image.imageSize < size
    ensures size % image.blockSize == 0 ==>
              (image.CanGrow(BlocksIn(size - image.imageSize, image.blockSize), SparseFormat.CHUNK_HEADER_SIZE)
               <==> CountsFit(image.isSparse, |StateOf(image).offsets| + 1, size, image.blockSize))
  {
    hide Describes;
    if size % image.blockSize == 0 {
      WholeBlocks(image);
      ModOfDifference(size, image.imageSize, image.blockSize);
      GrowIff(image, size - image.imageSize, SparseFormat.CHUNK_HEADER_SIZE);
    }
  }

  lemma QuotientOrder(a: nat, b: nat, d: nat)
    requires d > 0 && a <= b
    ensures a / d <= b / d
  {
    DivAtLeast(b, d, a / d);
  }

  /** The outcomes of a truncation: sizes of sparse images are whole blocks, plain files keep a header's length. */
  ghost predicate CutTo(s: State, after: seq<byte>, r: Option<Error>, size: nat, blockSize: nat)
    requires blockSize > 0
  {
    if !s.isSparse
    then after == Resize(s.content, size) && r == if SparseFormat.HEADER_SIZE <= size then None else Some(StructError)
    else if size % blockSize != 0 then r == Some(ValueError) && after == s.content
    else if size <= |s.content| || CountsFit(s.isSparse, |s.offsets| + 1, size, blockSize)
    then r == None && after == Resize(s.content, size)
    else r == Some(StructError) && after == s.content
  }

  method TruncateTo(image: ImageHandler, size: nat) returns (r: Option<Error>)
    requires Writable(image)
    modifies image
    ensures image.isSparse == old(image.isSparse) && image.blockSize == old(image.blockSize) && image.Sound()
    ensures CutTo(old(StateOf(image)), image.Content(), r, size, image.blockSize)
    ensures r == None ==> Writable(image) && |StateOf(image).offsets| == ChunksAfter(old(StateOf(image)), size)
    ensures r != None && image.isSparse ==> image.file == old(image.file)
  {
    hide Describes, SparseEdit.KeptChunks;
    image.ContentSize();
    if image.isSparse {
      ChunkCount(image);
      if image.imageSize < size { GrowthFits(image, size); }
    }
    r := image.Truncate(size);
    image.ContentSize();
    if image.isSparse { ChunkCount(image); }
  }

  // ----------------------------------------------------------- the parts of a footer

  /** The image is longer by these bytes and, if it is sparse, by one chunk. */
  ghost predicate Extended(s: State, t: State, data: seq<byte>) {
    t == State(s.isSparse, s.content + data, if s.isSparse then s.offsets + [|s.content|] else [])
  }

  /** This many bytes fit a chunk of their own. */
  predicate BytesFit(s: State, n: nat, blockSize: nat)
    requires blockSize > 0
  {
    s.isSparse ==> ChunkFits(n) && CountsFit(s.isSparse, |s.offsets| + 1, |s.content| + n, blockSize)
  }

  /** Appends whole blocks. */
  method AppendBlocks(image: ImageHandler, data: seq<byte>) returns (r: Option<Error>)
    requires Writable(image) && Whole(|data|, image.blockSize)
    modifies image
    ensures image.isSparse == old(image.isSparse) && image.blockSize == old(image.blockSize) && image.Sound()
    ensures r == None ==> Writable(image) && Extended(old(StateOf(image)), StateOf(image), data)
    ensures r != None ==> r == Some(StructError) && image.Content() == old(image.Content())
    ensures r == None <==> BytesFit(old(StateOf(image)), |data|, image.blockSize)
    ensures r != None ==>
              (Opens(image.file) <==>
                 !Stuck(image.isSparse, |old(StateOf(image)).offsets|, |old(image.Content())|, |data|, image.blockSize))
  {
    hide Describes, CountsFit, Whole, BlocksIn, Opens, Countable, CountedOnly, LeftBehind;
    image.ContentSize();
    OpensWhen(image);
    ghost var file0 := image.file;
    if image.isSparse {
      GrowIff(image, |data|, SparseFormat.CHUNK_HEADER_SIZE + |data|);
      CountableIff(image, |data|);
    }
    r := image.AppendRaw(data, true);
    if r != None { FailedAppendOpensIff(file0, image.file, image.image, BlocksIn(|data|, image.blockSize)); }
  }

  predicate BlobFits(s: State, blob: seq<byte>, blockSize: nat)
    requires blockSize > 0
  {
    BytesFit(s, |PadTo(blob, blockSize)|, blockSize)
  }

  method AppendPadded(image: ImageHandler, blob: seq<byte>) returns (r: Option<Error>)
    requires Writable(image)
    modifies image
    ensures image.isSparse == old(image.isSparse) && image.blockSize == old(image.blockSize) && image.Sound()
    ensures r == None ==> Writable(image) && Extended(old(StateOf(image)), StateOf(image), PadTo(blob, image.blockSize))
    ensures r != None ==> r == Some(StructError) && image.Content() == old(image.Content())
    ensures r == None <==> BlobFits(old(StateOf(image)), blob, image.blockSize)
    ensures r != None ==>
              (Opens(image.file) <==>
                 !Stuck(image.isSparse, |old(StateOf(image)).offsets|, |old(image.Content())|,
                        |PadTo(blob, image.blockSize)|, image.blockSize))
  {
    hide Describes, BytesFit, Extended, StateOf, Stuck, Opens;
    r := AppendBlocks(image, PadTo(blob, image.blockSize));
  }

  /** The content is brought to one block less than the partition; that takes one chunk. */
  ghost predicate Gapped(s: State, t: State, partitionSize: nat, blockSize: nat) {
    && blockSize <= partitionSize
    && t == State(s.isSparse, Resize(s.content, partitionSize - blockSize),
                  if s.isSparse then s.offsets + [|s.content|] else [])
  }

  predicate GapFits(s: State, partitionSize: nat, blockSize: nat)
    requires blockSize > 0
  {
    if s.isSparse
    then |s.content| + blockSize <= partitionSize
         && CountsFit(s.isSparse, |s.offsets| + 1, partitionSize - blockSize, blockSize)
    else blockSize + SparseFormat.HEADER_SIZE <= partitionSize
  }

  /** What a failure leaves behind: a plain image may have been cut already. */
  ghost predicate Cut(before: seq<byte>, after: seq<byte>, isSparse: bool, partitionSize: nat, blockSize: nat) {
    after == if isSparse || partitionSize < blockSize then before else Resize(before, partitionSize - blockSize)
  }

  /** Zeros up to one block before the end of the partition; a plain image that is too long is cut there. */
  method AppendGap(image: ImageHandler, partitionSize: nat) returns (r: Option<Error>)
    requires Writable(image) && image.imageSize % image.blockSize == 0 && partitionSize % image.blockSize == 0
    modifies image
    ensures image.isSparse == old(image.isSparse) && image.blockSize == old(image.blockSize) && image.Sound()
    ensures r == None ==> Writable(image) && Gapped(old(StateOf(image)), StateOf(image), partitionSize, image.blockSize)
    ensures r != None ==> Cut(old(image.Content()), image.Content(), image.isSparse, partitionSize, image.blockSize)
    ensures r != None && (image.isSparse || image.blockSize <= partitionSize) ==> r == Some(StructError)
    ensures r == None <==> GapFits(old(StateOf(image)), partitionSize, image.blockSize)
    ensures r != None && image.isSparse ==>
              (Opens(image.file) <==> !GapCountable(old(StateOf(image)), partitionSize, image.blockSize))
  {
    hide Describes, Holed, HoleFits, GapFits, Gapped, Cut, Opens;
    image.ContentSize();
    ghost var s := StateOf(image);
    GapIsBlocks(partitionSize, image.imageSize, image.blockSize);
    var gap := partitionSize - image.imageSize - image.blockSize;
    r := AppendHole(image, gap);
    GapIsHole(s, StateOf(image), r, partitionSize, gap, image.blockSize);
  }

  /** The counts in the header can take a gap, even one of a negative number of blocks. */
  predicate GapCountable(s: State, partitionSize: nat, blockSize: nat)
    requires blockSize > 0
  {
    blockSize <= partitionSize && CountsFit(s.isSparse, |s.offsets| + 1, partitionSize - blockSize, blockSize)
  }

  /** The counts in the header can take a hole, even one of a negative number of blocks. */
  predicate HoleCountable(s: State, numBytes: int, blockSize: nat)
    requires blockSize > 0
  {
    |s.content| + numBytes >= 0 && CountsFit(s.isSparse, |s.offsets| + 1, |s.content| + numBytes, blockSize)
  }

  predicate HoleFits(s: State, numBytes: int, blockSize: nat)
    requires blockSize > 0
  {
    if s.isSparse then numBytes >= 0 && CountsFit(s.isSparse, |s.offsets| + 1, |s.content| + numBytes, blockSize)
    else SparseFormat.HEADER_SIZE <= |s.content| + numBytes
  }

  /** The outcomes of append_dont_care; a negative amount cuts a plain file, unless nothing at all would be left. */
  ghost predicate Holed(s: State, t: State, r: Option<Error>, numBytes: int, blockSize: nat)
    requires blockSize > 0
  {
    && (r == None <==> HoleFits(s, numBytes, blockSize))
    && t.isSparse == s.isSparse && (!s.isSparse ==> t.offsets == [])
    && (r == None && s.isSparse ==> t.offsets == s.offsets + [|s.content|])
    && if r == None then |s.content| + numBytes >= 0 && t.content == Resize(s.content, |s.content| + numBytes)
       else if s.isSparse then r == Some(StructError) && t.content == s.content
       else if |s.content| + numBytes < 0 then r == Some(OSError) && t.content == s.content
       else r == Some(StructError) && t.content == Resize(s.content, |s.content| + numBytes)
  }

  method AppendHole(image: ImageHandler, numBytes: int) returns (r: Option<Error>)
    requires Writable(image) && Whole(numBytes, image.blockSize)
    modifies image
    ensures image.isSparse == old(image.isSparse) && image.blockSize == old(image.blockSize) && image.Sound()
    ensures Holed(old(StateOf(image)), StateOf(image), r, numBytes, image.blockSize) && (r == None ==> Writable(image))
    ensures r != None && image.isSparse ==>
              (Opens(image.file) <==> !HoleCountable(old(StateOf(image)), numBytes, image.blockSize))
  {
    hide Describes, Holed, HoleFits, Whole, Opens, HoleCountable;
    ghost var s := StateOf(image);
    if image.isSparse {
      r := AppendHoleToSparse(image, numBytes);
      SparseHole(s, StateOf(image), r, numBytes, image.blockSize);
    } else {
      r := AppendHoleToPlain(image, numBytes);
    }
  }

  lemma SparseHole(s: State, t: State, r: Option<Error>, numBytes: int, blockSize: nat)
    requires blockSize > 0 && s.isSparse && t.isSparse
    requires r == if HoleFits(s, numBytes, blockSize) then None else Some(StructError)
    requires r == None ==> |s.content| + numBytes >= 0 && t.content == Resize(s.content, |s.content| + numBytes)
    requires r == None ==> t.offsets == s.offsets + [|s.content|]
    requires r != None ==> t.content == s.content
    ensures Holed(s, t, r, numBytes, blockSize)
  {
    hide HoleFits, Resize;
  }

  method AppendHoleToPlain(image: ImageHandler, numBytes: int) returns (r: Option<Error>)
    requires Writable(image) && !image.isSparse && Whole(numBytes, image.blockSize)
    modifies image
    ensures !image.isSparse && image.blockSize == old(image.blockSize) && image.Sound()
    ensures Holed(old(StateOf(image)), StateOf(image), r, numBytes, image.blockSize) && (r == None ==> Writable(image))
  {
    hide Describes, CountsFit, Resize, Whole, BlocksIn;
    image.ContentSize();
    r := image.AppendDontCare(numBytes);
  }

  method AppendHoleToSparse(image: ImageHandler, numBytes: int) returns (r: Option<Error>)
    requires Writable(image) && image.isSparse && Whole(numBytes, image.blockSize)
    modifies image
    ensures image.isSparse && image.blockSize == old(image.blockSize) && image.Sound()
    ensures r == if HoleFits(old(StateOf(image)), numBytes, image.blockSize) then None else Some(StructError)
    ensures r == None ==>
              && Writable(image) && numBytes >= 0
              && image.Content() == Resize(old(image.Content()), |old(image.Content())| + numBytes)
              && image.chunkOutputOffsets == old(image.chunkOutputOffsets) + [|old(image.Content())|]
    ensures r != None ==> image.Content() == old(image.Content())
    ensures r != None ==>
              (Opens(image.file) <==> !HoleCountable(old(StateOf(image)), numBytes, image.blockSize))
  {
    hide Describes, CountsFit, Resize, Whole, BlocksIn, Opens, Countable, CountedOnly, LeftBehind;
    image.ContentSize();
    OpensWhen(image);
    CountableIff(image, numBytes);
    ghost var file0 := image.file;
    if numBytes >= 0 {
      GrowIff(image, numBytes, SparseFormat.CHUNK_HEADER_SIZE);
      GrownIsResize(image.Content(), numBytes);
    }
    ghost var fits := HoleFits(StateOf(image), numBytes, image.blockSize);
    assert fits <==>
      numBytes >= 0 && image.CanGrow(BlocksIn(numBytes, image.blockSize), SparseFormat.CHUNK_HEADER_SIZE);
    hide HoleFits;
    r := image.AppendDontCare(numBytes);
    if r != None { FailedAppendOpensIff(file0, image.file, image.image, BlocksIn(numBytes, image.blockSize)); }
  }

  lemma GrownIsResize(content: seq<byte>, n: nat)
    ensures Resize(content, |content| + n) == content + Zeros(n)
  {
  }

  lemma GapIsHole(s: State, t: State, r: Option<Error>, partitionSize: nat, gap: int, blockSize: nat)
    requires blockSize > 0 && gap == partitionSize - |s.content| - blockSize && Holed(s, t, r, gap, blockSize)
    ensures r == None <==> GapFits(s, partitionSize, blockSize)
    ensures r == None ==> Gapped(s, t, partitionSize, blockSize)
    ensures r != None ==> Cut(s.content, t.content, s.isSparse, partitionSize, blockSize)
    ensures r != None && (s.isSparse || blockSize <= partitionSize) ==> r == Some(StructError)
  {
    hide CountsFit;
  }

  predicate FooterFits(s: State, footer: Footer, blockSize: nat)
    requires blockSize > 0
  {
    FooterPackable(footer) && BytesFit(s, blockSize, blockSize)
  }

  method AppendFooter(image: ImageHandler, footer: Footer) returns (r: Option<Error>)
    requires Writable(image)
    modifies image
    ensures image.isSparse == old(image.isSparse) && image.blockSize == old(image.blockSize) && image.Sound()
    ensures r == None ==>
              && Writable(image) && FooterPackable(footer)
              && Extended(old(StateOf(image)), StateOf(image), FooterBlock(image.blockSize, footer))
    ensures r != None ==> r == Some(StructError) && image.Content() == old(image.Content())
    ensures r == None <==> FooterFits(old(StateOf(image)), footer, image.blockSize)
    ensures r != None ==>
              (Opens(image.file) <==>
                 !(FooterPackable(footer)
                   && Stuck(image.isSparse, |old(StateOf(image)).offsets|, |old(image.Content())|, image.blockSize,
                            image.blockSize)))
  {
    hide Describes, FooterPackable, FooterBlock, BytesFit, Extended, Opens, Stuck;
    OpensWhen(image);
    if !FooterPackable(footer) { return Some(StructError); }
    IntMultiple(1, image.blockSize);
    r := AppendBlocks(image, FooterBlock(image.blockSize, footer));
  }

  /** Gap and footer block can be added; a plain image is cut if it has to. */
  predicate Closes(s: State, footer: Footer, partitionSize: nat, blockSize: nat)
    requires blockSize > 0
  {
    && FooterPackable(footer)
    && if s.isSparse
       then |s.content| + blockSize <= partitionSize && ChunkFits(blockSize)
            && CountsFit(s.isSparse, |s.offsets| + 2, partitionSize, blockSize)
       else blockSize + SparseFormat.HEADER_SIZE <= partitionSize
  }

  /** Gap and footer block have been added. */
  ghost predicate ClosedWith(s: State, t: State, footer: Footer, partitionSize: nat, blockSize: nat)
    requires FOOTER_SIZE <= blockSize
  {
    && blockSize <= partitionSize && FooterPackable(footer)
    && t == State(s.isSparse, Closed(s.content, partitionSize, blockSize, footer),
                  if s.isSparse then s.offsets + [|s.content|] + [partitionSize - blockSize] else [])
  }

  /** What a failure to close leaves behind. */
  ghost predicate HalfClosed(before: seq<byte>, after: seq<byte>, isSparse: bool, partitionSize: nat, blockSize: nat) {
    if isSparse then before <= after else Cut(before, after, false, partitionSize, blockSize)
  }

  /** The gap, then the footer block. */
  method Close(image: ImageHandler, partitionSize: nat, footer: Footer) returns (r: Option<Error>)
    requires Writable(image) && image.imageSize % image.blockSize == 0 && partitionSize % image.blockSize == 0
    modifies image
    ensures image.isSparse == old(image.isSparse) && image.blockSize == old(image.blockSize) && image.Sound()
    ensures r == None ==>
              Writable(image) && ClosedWith(old(StateOf(image)), StateOf(image), footer, partitionSize, image.blockSize)
    ensures r != None ==>
              HalfClosed(old(image.Content()), image.Content(), image.isSparse, partitionSize, image.blockSize)
    ensures r == None <==> Closes(old(StateOf(image)), footer, partitionSize, image.blockSize)
    ensures r != None && image.isSparse ==>
              EndsUp(|old(image.Content())|, image.Content(), Opens(image.file),
                     CloseSticks(image.isSparse, |old(StateOf(image)).offsets|, |old(image.Content())|, footer,
                                 partitionSize, image.blockSize))
  {
    hide Describes, FooterPackable, FooterBlock, GapFits, Gapped, Cut, Closes, ClosedWith, HalfClosed,
      FooterFits, Extended, Opens, EndsUp, CloseSticks, Stuck, GapCountable;
    ghost var s, bs := StateOf(image), image.blockSize;
    r := AppendGap(image, partitionSize);
    GapEnds(s, image.Content(), r == None, footer, partitionSize, bs);
    if r != None {
      if s.isSparse { GapEndsUp(s, image.Content(), Opens(image.file), footer, partitionSize, bs); }
      return;
    }
    ghost var t := StateOf(image);
    CloseEnds(s, t, footer, partitionSize, bs);
    r := AppendFooter(image, footer);
    if r == None {
      CloseDone(s, t, StateOf(image), footer, partitionSize, bs);
    } else if s.isSparse {
      FooterEndsUp(s, t, image.Content(), Opens(image.file), footer, partitionSize, bs);
    }
  }

  /** A negative gap is counted, or behind no gap the footer block, and then cannot be written. */
  predicate CloseSticks(isSparse: bool, chunks: nat, size: nat, footer: Footer, partitionSize: nat, blockSize: nat)
    requires blockSize > 0
  {
    && isSparse && blockSize <= partitionSize
    && (|| (partitionSize < size + blockSize && CountsFit(isSparse, chunks + 1, partitionSize - blockSize, blockSize))
        || (partitionSize == size + blockSize && FooterPackable(footer)
            && Stuck(isSparse, chunks + 1, size, blockSize, blockSize)))
  }

  /** A failure leaves a longer image, or one as long as before whose file opens unless a chunk is stuck. */
  predicate EndsUp(size: nat, after: seq<byte>, opens: bool, stuck: bool) {
    if |after| > size then !stuck else |after| == size && (opens <==> !stuck)
  }

  lemma GapEndsUp(s: State, after: seq<byte>, opens: bool, footer: Footer, partitionSize: nat, blockSize: nat)
    requires blockSize > 0 && s.isSparse && !GapFits(s, partitionSize, blockSize)
    requires Cut(s.content, after, s.isSparse, partitionSize, blockSize)
    requires opens <==> !GapCountable(s, partitionSize, blockSize)
    ensures EndsUp(|s.content|, after, opens,
                   CloseSticks(s.isSparse, |s.offsets|, |s.content|, footer, partitionSize, blockSize))
  {
    hide FooterPackable, ChunkFits;
    if partitionSize == |s.content| + blockSize { QuotientOrder(|s.content|, partitionSize, blockSize); }
  }

  lemma FooterEndsUp(s: State, t: State, after: seq<byte>, opens: bool, footer: Footer, partitionSize: nat,
                     blockSize: nat)
    requires blockSize > 0 && s.isSparse && GapFits(s, partitionSize, blockSize)
    requires Gapped(s, t, partitionSize, blockSize) && after == t.content && !FooterFits(t, footer, blockSize)
    requires opens <==>
               !(FooterPackable(footer) && Stuck(t.isSparse, |t.offsets|, |t.content|, blockSize, blockSize))
    ensures EndsUp(|s.content|, after, opens,
                   CloseSticks(s.isSparse, |s.offsets|, |s.content|, footer, partitionSize, blockSize))
  {
    hide FooterPackable, ChunkFits, CountsFit;
  }

  lemma GapEnds(s: State, after: seq<byte>, done: bool, footer: Footer, partitionSize: nat, blockSize: nat)
    requires blockSize > 0 && (done <==> GapFits(s, partitionSize, blockSize))
    requires !done ==> Cut(s.content, after, s.isSparse, partitionSize, blockSize)
    ensures !done ==>
              !Closes(s, footer, partitionSize, blockSize)
              && HalfClosed(s.content, after, s.isSparse, partitionSize, blockSize)
  {
    hide FooterPackable, ChunkFits;
    if blockSize <= partitionSize { QuotientOrder(partitionSize - blockSize, partitionSize, blockSize); }
  }

  lemma CloseEnds(s: State, t: State, footer: Footer, partitionSize: nat, blockSize: nat)
    requires blockSize > 0 && GapFits(s, partitionSize, blockSize) && Gapped(s, t, partitionSize, blockSize)
    ensures FooterFits(t, footer, blockSize) <==> Closes(s, footer, partitionSize, blockSize)
    ensures HalfClosed(s.content, t.content, s.isSparse, partitionSize, blockSize)
  {
    hide FooterPackable, ChunkFits;
  }

  lemma CloseDone(s: State, t: State, u: State, footer: Footer, partitionSize: nat, blockSize: nat)
    requires FOOTER_SIZE <= blockSize && FooterPackable(footer) && Gapped(s, t, partitionSize, blockSize)
    requires Extended(t, u, FooterBlock(blockSize, footer))
    ensures ClosedWith(s, u, footer, partitionSize, blockSize)
  {
    hide FooterPackable, FooterBlock;
  }

  lemma GapIsBlocks(partitionSize: nat, imageSize: nat, blockSize: nat)
    requires blockSize > 0 && partitionSize % blockSize == 0 && imageSize % blockSize == 0
    ensures (partitionSize - imageSize - blockSize) % blockSize == 0 && blockSize % blockSize == 0
    ensures partitionSize > 0 ==> blockSize <= partitionSize
  {
    var a, b := partitionSize / blockSize, imageSize / blockSize;
    assert partitionSize == a * blockSize && imageSize == b * blockSize;
    assert partitionSize - imageSize - blockSize == (a - b - 1) * blockSize;
    IntMultiple(a - b - 1, blockSize);
    IntMultiple(1, blockSize);
    if a > 0 { MulGap(0, a, blockSize); }
  }

  lemma IntMultiple(k: int, d: nat)
    requires d > 0
    ensures (k * d) % d == 0
  {
    var x := k * d;
    var q := x / d;
    assert x == q * d + x % d;
    if k < q { MulGap(k, q, d); }
    if q < k { MulGap(q, k, d); }
  }

  // ----------------------------------------------------------------------- commands

  /** Blob, gap and footer block fit behind an image of whole blocks; a plain image is cut if it has to. */
  predicate Takes(isSparse: bool, chunks: nat, size: nat, blob: seq<byte>, footer: Footer, partitionSize: nat,
                  blockSize: nat)
    requires blockSize > 0
  {
    && FooterPackable(footer)
    && if isSparse
       then
         && size + |PadTo(blob, blockSize)| + blockSize <= partitionSize
         && Fit(blockSize, blob) && CountsFit(isSparse, chunks + 3, partitionSize, blockSize)
       else blockSize + SparseFormat.HEADER_SIZE <= partitionSize
  }

  /** Blob, gap and footer block have been added. */
  ghost predicate Attached(s: State, t: State, blob: seq<byte>, footer: Footer, partitionSize: nat, blockSize: nat)
    requires FOOTER_SIZE <= blockSize
  {
    && blockSize <= partitionSize && FooterPackable(footer)
    && t == State(s.isSparse, Closed(s.content + PadTo(blob, blockSize), partitionSize, blockSize, footer),
                  if s.isSparse then s.offsets + AddedAt(|s.content|, blob, partitionSize, blockSize) else [])
  }

  /** Where the outputs of the three new chunks begin. */
  function AddedAt(size: nat, blob: seq<byte>, partitionSize: nat, blockSize: nat): seq<nat>
    requires 0 < blockSize <= partitionSize
  {
    [size, size + |PadTo(blob, blockSize)|, partitionSize - blockSize]
  }

  /** What a failure leaves behind: a longer sparse image, or a plain one that may have been cut already. */
  ghost predicate HalfDone(base: seq<byte>, blob: seq<byte>, after: seq<byte>, isSparse: bool, partitionSize: nat,
                           blockSize: nat)
    requires blockSize > 0
  {
    if isSparse then base <= after else Cut(base + PadTo(blob, blockSize), after, false, partitionSize, blockSize)
  }

  /**
   * The first of the new chunks that makes the image longer is counted and cannot be written: the blob's, or behind an
   * empty blob a negative gap, or behind no gap the footer block's.
   */
  predicate AttachSticks(isSparse: bool, chunks: nat, size: nat, blob: seq<byte>, footer: Footer, partitionSize: nat,
                         blockSize: nat)
    requires blockSize > 0
  {
    if blob != [] then Stuck(isSparse, chunks, size, |PadTo(blob, blockSize)|, blockSize)
    else
      && CountsFit(isSparse, chunks + 1, size, blockSize)
      && CloseSticks(isSparse, chunks + 1, size, footer, partitionSize, blockSize)
  }

  /** Padded blob, gap and footer block behind whole blocks. */
  method AttachBehind(image: ImageHandler, blob: seq<byte>, partitionSize: nat, originalImageSize: nat)
    returns (r: Option<Error>)
    requires Writable(image) && image.imageSize % image.blockSize == 0 && partitionSize % image.blockSize == 0
    modifies image
    ensures image.isSparse == old(image.isSparse) && image.blockSize == old(image.blockSize) && image.Sound()
    ensures r == None ==>
              && Writable(image)
              && Attached(old(StateOf(image)), StateOf(image), blob,
                          NewFooter(originalImageSize, |old(image.Content())|, |blob|), partitionSize, image.blockSize)
    ensures r != None ==>
              HalfDone(old(image.Content()), blob, image.Content(), image.isSparse, partitionSize, image.blockSize)
    ensures r == None <==>
              Takes(image.isSparse, |old(StateOf(image)).offsets|, |old(image.Content())|, blob,
                    NewFooter(originalImageSize, |old(image.Content())|, |blob|), partitionSize, image.blockSize)
    ensures r != None && image.isSparse ==>
              EndsUp(|old(image.Content())|, image.Content(), Opens(image.file),
                     AttachSticks(image.isSparse, |old(StateOf(image)).offsets|, |old(image.Content())|, blob,
                                  NewFooter(originalImageSize, |old(image.Content())|, |blob|), partitionSize,
                                  image.blockSize))
  {
    hide Describes, FooterPackable, NewFooter, PadTo, BlobFits, Extended, Closes, ClosedWith, Takes, Attached,
      HalfClosed, HalfDone, Opens, EndsUp, Stuck, AttachSticks, CloseSticks;
    image.ContentSize();
    ghost var s, bs := StateOf(image), image.blockSize;
    var vbmetaOffset := image.imageSize;
    var footer := NewFooter(originalImageSize, vbmetaOffset, |blob|);
    r := AppendPadded(image, blob);
    BlobEnds(s, image.Content(), r == None, blob, footer, partitionSize, bs);
    if r != None {
      BlobEndsUp(s, image.Content(), Opens(image.file), blob, footer, partitionSize, bs);
      return;
    }
    image.ContentSize();
    ghost var t := StateOf(image);
    AttachEnds(s, t, blob, footer, partitionSize, bs);
    r := Close(image, partitionSize, footer);
    AttachDone(s, t, StateOf(image), r == None, blob, footer, partitionSize, bs);
    if r != None && s.isSparse {
      RestEndsUp(s, t, image.Content(), Opens(image.file), blob, footer, partitionSize, bs);
    }
  }

  lemma BlobEndsUp(s: State, after: seq<byte>, opens: bool, blob: seq<byte>, footer: Footer, partitionSize: nat,
                   blockSize: nat)
    requires blockSize > 0 && !BlobFits(s, blob, blockSize) && after == s.content
    requires opens <==> !Stuck(s.isSparse, |s.offsets|, |s.content|, |PadTo(blob, blockSize)|, blockSize)
    ensures EndsUp(|s.content|, after, opens,
                   AttachSticks(s.isSparse, |s.offsets|, |s.content|, blob, footer, partitionSize, blockSize))
  {
    hide PadTo, CloseSticks;
    PaddedWhole(blob, blockSize);
  }

  lemma RestEndsUp(s: State, t: State, after: seq<byte>, opens: bool, blob: seq<byte>, footer: Footer,
                   partitionSize: nat, blockSize: nat)
    requires blockSize > 0 && s.isSparse
    requires BlobFits(s, blob, blockSize) && Extended(s, t, PadTo(blob, blockSize))
    requires EndsUp(|t.content|, after, opens,
                    CloseSticks(t.isSparse, |t.offsets|, |t.content|, footer, partitionSize, blockSize))
    ensures EndsUp(|s.content|, after, opens,
                   AttachSticks(s.isSparse, |s.offsets|, |s.content|, blob, footer, partitionSize, blockSize))
  {
    hide PadTo, CloseSticks, CountsFit;
    PaddedWhole(blob, blockSize);
  }

  lemma BlobEnds(s: State, after: seq<byte>, done: bool, blob: seq<byte>, footer: Footer, partitionSize: nat,
                 blockSize: nat)
    requires blockSize > 0 && (done <==> BlobFits(s, blob, blockSize)) && (!done ==> after == s.content)
    ensures !done ==>
              && !Takes(s.isSparse, |s.offsets|, |s.content|, blob, footer, partitionSize, blockSize)
              && HalfDone(s.content, blob, after, s.isSparse, partitionSize, blockSize)
  {
    hide FooterPackable, PadTo;
    var end := |s.content| + |PadTo(blob, blockSize)|;
    if end <= partitionSize { QuotientOrder(end, partitionSize, blockSize); }
  }

  lemma AttachEnds(s: State, t: State, blob: seq<byte>, footer: Footer, partitionSize: nat, blockSize: nat)
    requires blockSize > 0 && |s.content| % blockSize == 0
    requires BlobFits(s, blob, blockSize) && Extended(s, t, PadTo(blob, blockSize))
    ensures Closes(t, footer, partitionSize, blockSize) <==>
              Takes(s.isSparse, |s.offsets|, |s.content|, blob, footer, partitionSize, blockSize)
    ensures |t.content| % blockSize == 0
  {
    hide FooterPackable, PadTo;
    PaddedIsBlocks(s.content, blob, blockSize);
  }

  lemma AttachDone(s: State, t: State, u: State, done: bool, blob: seq<byte>, footer: Footer, partitionSize: nat,
                   blockSize: nat)
    requires FOOTER_SIZE <= blockSize && Extended(s, t, PadTo(blob, blockSize))
    requires done ==> ClosedWith(t, u, footer, partitionSize, blockSize)
    requires !done ==> HalfClosed(t.content, u.content, t.isSparse, partitionSize, blockSize)
    ensures done ==> Attached(s, u, blob, footer, partitionSize, blockSize)
    ensures !done ==> HalfDone(s.content, blob, u.content, s.isSparse, partitionSize, blockSize)
  {
    hide FooterPackable, Closed, PadTo;
    if done && s.isSparse {
      var a, b, c := |s.content|, |s.content| + |PadTo(blob, blockSize)|, partitionSize - blockSize;
      assert s.offsets + [a] + [b] + [c] == s.offsets + [a, b, c];
    }
  }

  lemma WholeBody(s: seq<byte>)
    ensures Resize(s, |s|) == s
  {
  }

  lemma PaddedWhole(s: seq<byte>, blockSize: nat)
    requires blockSize > 0
    ensures |s| % blockSize == 0 ==> PadTo(s, blockSize) == s
    ensures s != [] <==> |PadTo(s, blockSize)| > 0
  {
  }

  /** A writable image is a whole number of blocks, or at least as long as a header. */
  lemma WritableSize(image: ImageHandler)
    requires Writable(image)
    ensures |image.Content()| == image.imageSize
    ensures if image.isSparse then image.imageSize % image.blockSize == 0
            else SparseFormat.HEADER_SIZE <= image.imageSize && image.blockSize == PLAIN_BLOCK_SIZE
  {
    image.ContentSize();
    if image.isSparse { WholeBlocks(image); }
  }

  lemma PaddedIsBlocks(base: seq<byte>, blob: seq<byte>, blockSize: nat)
    requires blockSize > 0 && |base| % blockSize == 0
    ensures |base + PadTo(blob, blockSize)| % blockSize == 0
  {
    SumIsBlocks(|base|, |PadTo(blob, blockSize)|, blockSize);
  }

  /** The image is padded to whole blocks first. */
  method Attach(image: ImageHandler, blob: seq<byte>, partitionSize: nat, originalImageSize: nat)
    returns (r: Option<Error>)
    requires Writable(image) && partitionSize % image.blockSize == 0
    modifies image
    ensures image.isSparse == old(image.isSparse) && image.blockSize == old(image.blockSize) && image.Sound()
    ensures var s := Padding(old(StateOf(image)), image.blockSize);
            var f := NewFooter(originalImageSize, |s.content|, |blob|);
            && (r == None ==> Writable(image) && Attached(s, StateOf(image), blob, f, partitionSize, image.blockSize))
            && (r != None ==>
                  HalfDone(s.content, blob, image.Content(), image.isSparse, partitionSize, image.blockSize))
            && (r == None <==> Takes(s.isSparse, |s.offsets|, |s.content|, blob, f, partitionSize, image.blockSize))
            && (r != None && image.isSparse ==>
                  EndsUp(|s.content|, image.Content(), Opens(image.file),
                         AttachSticks(s.isSparse, |s.offsets|, |s.content|, blob, f, partitionSize, image.blockSize)))
  {
    hide Describes, FooterPackable, PadTo, Takes, HalfDone, Attached, Opens, EndsUp, AttachSticks;
    Grow(image);
    r := AttachBehind(image, blob, partitionSize, originalImageSize);
  }

  function Padding(s: State, blockSize: nat): State
    requires blockSize > 0
  {
    s.(content := PadTo(s.content, blockSize))
  }

  /** The handler that undoes a failed command; its own truncation may fail too. */
  method Restore(image: ImageHandler, originalImageSize: nat) returns (e: Error)
    requires image.Sound() && !image.readOnly && (image.isSparse ==> originalImageSize <= image.imageSize)
    modifies image
    ensures image.isSparse == old(image.isSparse) && image.blockSize == old(image.blockSize) && image.Sound()
    ensures !image.isSparse || originalImageSize % image.blockSize == 0 ==>
              && image.Content() == Resize(old(image.Content()), originalImageSize)
              && e == (if image.isSparse || SparseFormat.HEADER_SIZE <= originalImageSize then AvbError
                       else StructError)
              && if image.isSparse && originalImageSize == old(image.imageSize) then image.file == old(image.file)
                 else image.isSparse || SparseFormat.HEADER_SIZE <= originalImageSize ==> image.Valid()
  {
    hide Describes;
    image.ContentSize();
    var r := image.Truncate(originalImageSize);
    e := if r.Some? then r.value else AvbError;
  }

  /** What is restored: the original content, unless a plain image had been cut inside it. */
  ghost predicate Restored(content: seq<byte>, base: seq<byte>, blob: seq<byte>, after: seq<byte>, isSparse: bool,
                           partitionSize: nat, blockSize: nat)
    requires blockSize > 0 && |content| <= |base|
  {
    if isSparse || partitionSize < blockSize || |content| + blockSize <= partitionSize then after == content
    else after == Resize(base[..partitionSize - blockSize], |content|)
  }

  lemma RestoredFromHalf(content: seq<byte>, base: seq<byte>, blob: seq<byte>, half: seq<byte>, isSparse: bool,
                         partitionSize: nat, blockSize: nat)
    requires blockSize > 0 && content <= base && HalfDone(base, blob, half, isSparse, partitionSize, blockSize)
    ensures |content| <= |base|
    ensures Restored(content, base, blob, Resize(half, |content|), isSparse, partitionSize, blockSize)
  {
  }

  /** The outcomes of attaching a blob to trimmed content: the finished image, or an error and what is restored. */
  ghost predicate Added(isSparse: bool, chunks: nat, content: seq<byte>, after: seq<byte>, r: Option<Error>,
                        blob: Result<seq<byte>>, partitionSize: nat, blockSize: nat)
    requires FOOTER_SIZE <= blockSize
  {
    if blob.Raised? then r == Some(AvbError) && after == content
    else
      var base := PadTo(content, blockSize);
      && (r == None <==>
            Takes(isSparse, chunks, |base|, blob.value, FooterFor(content, base, blob.value), partitionSize, blockSize))
      && (r == None ==> HasFooter(after, content, base, blob.value, partitionSize, blockSize))
      && (r != None ==>
            r == Some(AvbError)
            && Restored(content, base, blob.value, after, isSparse, partitionSize, blockSize))
  }

  /** Attaches the blob, if there is one, and restores the image when that fails. */
  method AttachOrRestore(image: ImageHandler, blob: Result<seq<byte>>, partitionSize: nat, originalImageSize: nat)
    returns (r: Option<Error>)
    requires Writable(image) && partitionSize % image.blockSize == 0 && originalImageSize == |image.Content()|
    modifies image
    ensures image.isSparse == old(image.isSparse) && image.blockSize == old(image.blockSize) >= FOOTER_SIZE
    ensures image.Sound()
    ensures Added(image.isSparse, |old(StateOf(image)).offsets|, old(image.Content()), image.Content(), r, blob,
                  partitionSize, image.blockSize)
    ensures r == None ==>
              Writable(image) && (blob != Ok([]) ==> TrimmedChunks(StateOf(image)) == |old(StateOf(image).offsets)|)
    ensures r != None ==>
              (Opens(image.file) <==>
                 !AddSticks(image.isSparse, |old(StateOf(image)).offsets|, old(image.Content()), blob, partitionSize,
                            image.blockSize))
  {
    hide Describes, HalfDone, TrimmedChunks, PadTo, Added, Resize, Takes, Attached, Opens, AddSticks, AttachSticks,
      EndsUp;
    WritableSize(image);
    OpensWhen(image);
    ghost var s, bs := StateOf(image), image.blockSize;
    if blob.Ok? {
      r := Attach(image, blob.value, partitionSize, originalImageSize);
      if r == None {
        DoneIsAdded(s, StateOf(image), blob.value, partitionSize, bs);
        return;
      }
      HalfIsAdded(s, image.Content(), blob.value, partitionSize, bs);
    } else {
      WholeBody(s.content);
      NothingIsAdded(s, blob, partitionSize, bs);
    }
    image.ContentSize();
    ghost var half, opensHalf := image.Content(), Opens(image.file);
    var e := Restore(image, originalImageSize);
    OpensWhen(image);
    RestoredOpens(s, half, opensHalf, Opens(image.file), blob, partitionSize, bs);
    return Some(e);
  }

  /** What restoring does not undo on disk, because the image is no longer than it was: a chunk that is stuck. */
  predicate AddSticks(isSparse: bool, chunks: nat, content: seq<byte>, blob: Result<seq<byte>>, partitionSize: nat,
                      blockSize: nat)
    requires blockSize > 0
  {
    && isSparse && blob.Ok?
    && AttachSticks(isSparse, chunks, |content|, blob.value, FooterFor(content, content, blob.value), partitionSize,
                    blockSize)
  }

  lemma RestoredOpens(s: State, half: seq<byte>, opensHalf: bool, opens: bool, blob: Result<seq<byte>>,
                      partitionSize: nat, blockSize: nat)
    requires blockSize > 0 && (s.isSparse ==> |s.content| % blockSize == 0)
    requires if s.isSparse && |half| == |s.content| then opens == opensHalf else opens
    requires blob.Raised? ==> opensHalf && half == s.content
    requires blob.Ok? && s.isSparse ==>
               EndsUp(|PadTo(s.content, blockSize)|, half, opensHalf,
                      AttachSticks(s.isSparse, |s.offsets|, |PadTo(s.content, blockSize)|, blob.value,
                                   FooterFor(s.content, PadTo(s.content, blockSize), blob.value), partitionSize,
                                   blockSize))
    ensures opens <==> !AddSticks(s.isSparse, |s.offsets|, s.content, blob, partitionSize, blockSize)
  {
    hide PadTo, AttachSticks;
    PaddedWhole(s.content, blockSize);
  }

  lemma NothingIsAdded(s: State, blob: Result<seq<byte>>, partitionSize: nat, blockSize: nat)
    requires FOOTER_SIZE <= blockSize && blob.Raised?
    ensures Added(s.isSparse, |s.offsets|, s.content, s.content, Some(AvbError), blob, partitionSize, blockSize)
  {
  }

  lemma HalfIsAdded(s: State, half: seq<byte>, blob: seq<byte>, partitionSize: nat, blockSize: nat)
    requires FOOTER_SIZE <= blockSize
    requires HalfDone(PadTo(s.content, blockSize), blob, half, s.isSparse, partitionSize, blockSize)
    requires !Takes(s.isSparse, |s.offsets|, |PadTo(s.content, blockSize)|, blob,
                    FooterFor(s.content, PadTo(s.content, blockSize), blob), partitionSize, blockSize)
    ensures s.isSparse ==> |s.content| <= |half|
    ensures Added(s.isSparse, |s.offsets|, s.content, Resize(half, |s.content|), Some(AvbError), Ok(blob),
                  partitionSize, blockSize)
  {
    hide Takes, HasFooter, Restored, PadTo, Resize;
    RestoredFromHalf(s.content, PadTo(s.content, blockSize), blob, half, s.isSparse, partitionSize, blockSize);
  }

  lemma DoneIsAdded(s: State, t: State, blob: seq<byte>, partitionSize: nat, blockSize: nat)
    requires FOOTER_SIZE <= blockSize && (if s.isSparse then |s.content| % blockSize == 0 else s.offsets == [])
    requires Takes(s.isSparse, |s.offsets|, |PadTo(s.content, blockSize)|, blob,
                   FooterFor(s.content, PadTo(s.content, blockSize), blob), partitionSize, blockSize)
    requires Attached(Padding(s, blockSize), t, blob, FooterFor(s.content, PadTo(s.content, blockSize), blob),
                      partitionSize, blockSize)
    ensures Added(s.isSparse, |s.offsets|, s.content, t.content, None, Ok(blob), partitionSize, blockSize)
    ensures blob != [] ==> TrimmedChunks(t) == |s.offsets|
  {
    hide FooterPackable, PadTo, Restored, TrimmedChunks, Fit, CountsFit, Closed, AddedAt;
    if blob != [] {
      if s.isSparse { TrimsBack(s, t, blob, partitionSize, blockSize); } else { NoChunks(t); }
    }
  }

  lemma NoChunks(t: State)
    requires !t.isSparse && t.offsets == []
    ensures TrimmedChunks(t) == 0
  {
    hide FooterOf;
  }

  /** Truncating an image with a new footer to its original size leaves the chunks that were there before. */
  lemma TrimsBack(s: State, t: State, blob: seq<byte>, partitionSize: nat, blockSize: nat)
    requires s.isSparse && FOOTER_SIZE <= blockSize && blob != [] && |s.content| % blockSize == 0
    requires |PadTo(s.content, blockSize)| + |PadTo(blob, blockSize)| + blockSize <= partitionSize
    requires Attached(Padding(s, blockSize), t, blob, FooterFor(s.content, PadTo(s.content, blockSize), blob),
                      partitionSize, blockSize)
    ensures TrimmedChunks(t) == |s.offsets|
  {
    hide FooterOf, FooterPackable, Closed, SparseEdit.KeptChunks, PadTo;
    PaddedWhole(s.content, blockSize);
    PaddedWhole(blob, blockSize);
    EraseUndoesAdd(s.content, PadTo(s.content, blockSize), blob, partitionSize, blockSize);
    SparseEdit.KeptInFront(s.offsets, |s.content|, AddedAt(|s.content|, blob, partitionSize, blockSize));
  }

  /** The outcomes of append_vbmeta_image. */
  ghost predicate Appended(s: State, after: seq<byte>, r: Option<Error>, blob: Result<seq<byte>>, partitionSize: nat,
                           blockSize: nat)
    requires FOOTER_SIZE <= blockSize
  {
    if partitionSize % blockSize != 0 then r == Some(AvbError) && after == s.content
    else if !CleanCut(s, blockSize) then r == Some(ValueError) && after == s.content
    else Added(s.isSparse, TrimmedChunks(s), Trim(s.content), after, r, blob, partitionSize, blockSize)
  }

  /** When a failed append_vbmeta_image leaves a file that does not open. */
  ghost predicate AppendSticks(s: State, blob: Result<seq<byte>>, partitionSize: nat, blockSize: nat)
    requires blockSize > 0
  {
    && partitionSize % blockSize == 0 && CleanCut(s, blockSize)
    && AddSticks(s.isSparse, TrimmedChunks(s), Trim(s.content), blob, partitionSize, blockSize)
  }

  /** append_vbmeta_image */
  method AppendVbmetaImage(image: ImageHandler, vbmetaImage: ImageHandler, partitionSize: nat)
    returns (r: Option<Error>)
    requires Writable(image) && SaneFooter(StateOf(image), image.blockSize) && vbmetaImage.Loaded()
    requires vbmetaImage != image
    modifies image, vbmetaImage`filePos
    ensures image.isSparse == old(image.isSparse) && image.blockSize == old(image.blockSize) >= FOOTER_SIZE
    ensures image.Sound()
    ensures Appended(old(StateOf(image)), image.Content(), r, old(BlobBy(vbmetaImage)), partitionSize, image.blockSize)
    ensures r == None ==>
              && Writable(image)
              && (old(BlobBy(vbmetaImage)) != Ok([]) ==>
                    TrimmedChunks(StateOf(image)) == TrimmedChunks(old(StateOf(image))))
    ensures r != None ==>
              (Opens(image.file) <==>
                 !AppendSticks(old(StateOf(image)), old(BlobBy(vbmetaImage)), partitionSize, image.blockSize))
  {
    hide Describes, BlobBy, FooterOf, Added, TrimmedChunks, Trim, Opens, AddSticks;
    OpensWhen(image);
    if partitionSize % image.blockSize != 0 { return Some(AvbError); }
    var error, originalImageSize := TrimToOriginal(image);
    OpensWhen(image);
    if error != None { return error; }
    image.ContentSize();
    var blob := LoadVbmetaBlob(vbmetaImage);
    r := AttachOrRestore(image, blob, partitionSize, originalImageSize);
  }
}
