/** ImageHandler: reading and editing an image that is either a plain file or an Android sparse file. */
module Images {
  import opened Bytes
  import opened SparseFormat
  import opened SparseEdit
  import opened Wrappers

  const PLAIN_BLOCK_SIZE: nat := 4096

  /** A file truncated, or grown with zero bytes, to a size. */
  function Resize(content: seq<byte>, size: nat): (r: seq<byte>)
    ensures |r| == size
  {
    if size <= |content| then content[..size] else content + Zeros(size - |content|)
  }

  function BlocksIn(numBytes: int, blockSize: nat): int
    requires blockSize > 0
  {
    numBytes / blockSize
  }

  predicate Whole(numBytes: int, blockSize: nat)
    requires blockSize > 0
  {
    numBytes % blockSize == 0
  }

  /** What append_fill asserts about its arguments. */
  predicate Fillable(fillData: seq<byte>, size: int, blockSize: nat)
    requires blockSize > 0
  {
    |fillData| == 4 && size % 4 == 0 && Whole(size, blockSize)
  }

  /** Python's slice s[i:j] for i >= 0; a negative j counts from the end. */
  function PySlice(s: seq<byte>, i: nat, j: int): seq<byte> {
    var stop := if j < 0 then |s| + j else if j > |s| then |s| else j;
    if i <= stop then s[i..stop] else []
  }

  /**
   * What read() collects when the cursor lies `n` < 0 bytes behind the end of the last chunk: a file's read(n) is
   * refused below -1, a byte string repeated n times is empty, and the fill pattern is sliced with a negative end.
   */
  function BeyondData(e: ImageChunk, d: int, n: int): (r: Result<seq<byte>>) {
    if e.chunkType == TYPE_RAW then if n < -1 then Raised(ValueError) else Ok([])
    else if e.chunkType == TYPE_FILL && e.fillData.Some? && |e.fillData.value| == 4 then
      Ok(PySlice(if n / 4 + 2 > 0 then Repeat(e.fillData.value, n / 4 + 2) else [], d % 4, d % 4 + n))
    else Ok([])
  }

  /** One turn of the loop in _read_header: the new table entries, the chunk's blocks, the new cursor. */
  method ReadChunkHeader(file: seq<byte>, blockSize: nat, pos: nat, outputOffset: nat)
    returns (r: Result<(seq<ImageChunk>, nat, nat)>)
    ensures match ParseChunk(file, blockSize, pos)
            case Raised(e) => r == Raised(e)
            case Ok((c, pos')) => r == Ok((LastEntry(c, blockSize, pos, outputOffset), c.blocks, pos'))
  {
    if pos + CHUNK_HEADER_SIZE > |file| { return Raised(StructError); }
    var f := FieldsAt(file, pos);
    var data := pos + CHUNK_HEADER_SIZE;
    var outputSize := Span(f.blocks, blockSize);
    if f.chunkType == TYPE_RAW {
      if f.dataSize != outputSize { return Raised(ValueError); }
      return Ok(([ImageChunk(TYPE_RAW, pos, outputOffset, outputSize, Some(data), None)], f.blocks, data + f.dataSize));
    } else if f.chunkType == TYPE_FILL {
      if f.dataSize != 4 { return Raised(ValueError); }
      var fillData := ReadAt(file, data, 4);
      return Ok(([ImageChunk(TYPE_FILL, pos, outputOffset, outputSize, None, Some(fillData))], f.blocks,
                 data + |fillData|));
    } else if f.chunkType == TYPE_DONT_CARE {
      if f.dataSize != 0 { return Raised(ValueError); }
      return Ok(([ImageChunk(TYPE_DONT_CARE, pos, outputOffset, outputSize, None, None)], f.blocks, data));
    } else if f.chunkType == TYPE_CRC32 {
      if f.dataSize != 4 { return Raised(ValueError); }
      return Ok(([], f.blocks, data + |ReadAt(file, data, 4)|));
    }
    return Raised(ValueError);
  }

  /** What the chunk loop leaves: the table, the cursor and the two running sums. */
  datatype ChunkScan = ChunkScan(table: seq<ImageChunk>, pos: nat, offset: nat, outputOffset: nat)

  function ScanResult(scan: Scan, blockSize: nat): ChunkScan {
    ChunkScan(Table(scan.chunks, blockSize), scan.pos, Blocks(scan.chunks), TotalOut(scan.chunks, blockSize))
  }

  method ReadChunks(file: seq<byte>, blockSize: nat, n: nat) returns (r: Result<ChunkScan>)
    requires HEADER_SIZE <= |file|
    ensures match ParseChunks(file, blockSize, n)
            case Raised(e) => r == Raised(e)
            case Ok(scan) => r == Ok(ScanResult(scan, blockSize))
  {
    var table: seq<ImageChunk> := [];
    var pos: nat, offset: nat, outputOffset: nat := HEADER_SIZE, 0, 0;
    for i := 0 to n
      invariant ParseChunks(file, blockSize, i).Ok?
      invariant ChunkScan(table, pos, offset, outputOffset)
                == ScanResult(ParseChunks(file, blockSize, i).value, blockSize)
    {
      var next := ReadChunkHeader(file, blockSize, pos, outputOffset);
      ParseFailureStays(file, blockSize, i, n);
      if next.Raised? { return Raised(next.error); }
      TurnStart(file, blockSize, i);
      TurnEffect(file, blockSize, i);
      table := table + next.value.0;
      offset := offset + next.value.1;
      outputOffset := outputOffset + Span(next.value.1, blockSize);
      pos := next.value.2;
    }
    return Ok(ChunkScan(table, pos, offset, outputOffset));
  }

  /** The sparse file stores the image, but for its two counts, and the other values are what the parser computes. */
  ghost predicate Describes(file: seq<byte>, image: SparseImage, blockSize: nat, imageSize: nat,
                            chunks: seq<ImageChunk>, chunkOutputOffsets: seq<nat>, sparseEnd: nat)
  {
    && WellFormed(image) && NoCrc(image.chunks) && blockSize == image.blockSize > 0
    && Begins(file, image) && |file| == HEADER_SIZE + |Body(image.chunks)| == sparseEnd
    && chunks == Table(image.chunks, blockSize) && chunkOutputOffsets == Offsets(chunks)
    && imageSize == TotalOut(image.chunks, blockSize)
  }

  /** A sparse file that is as long as its chunk headers say, with positive block size and no CRC32 chunk. */
  predicate Supported(file: seq<byte>) {
    ParseFile(file).Sparse? &&
    var img := ParseFile(file).img;
    && DeclaredEnd(img.chunks, img.blockSize) == |file| && img.blockSize > 0
    && forall i :: 0 <= i < |img.chunks| ==> !img.chunks[i].Crc32?
  }

  lemma SupportedIsStored(file: seq<byte>)
    requires Supported(file)
    ensures var img := ParseFile(file).img;
            && WellFormed(img) && NoCrc(img.chunks) && img.blockSize > 0 && ParseFile(file).end == |file|
            && Begins(file, img) && |file| == HEADER_SIZE + |Body(img.chunks)|
            && file[COUNTS_OFFSET..24] == Counts(Blocks(img.chunks), |img.chunks|)
  {
    var img := ParseFile(file).img;
    AcceptedIsStoredIff(file);
    ParseOfSerialize(img);
    StoresIsSerialize(file, img);
  }

  lemma PlainHasNoMagic(file: seq<byte>)
    requires ParseFile(file) == Plain
    ensures HEADER_SIZE <= |file| && !HasMagic(file)
  {
  }

  /** _read_header accepts the file. */
  predicate Opens(file: seq<byte>) {
    !ParseFile(file).Bad?
  }

  /** The two counts in a sparse file's header can hold one more chunk with this many blocks. */
  ghost predicate Countable(img: SparseImage, blocks: int) {
    0 <= Blocks(img.chunks) + blocks < UINT32 && |img.chunks| + 1 < UINT32
  }

  /** A sparse file as it is when the counts of one more chunk have been written, and the chunk has not. */
  ghost function CountedOnly(file: seq<byte>, img: SparseImage, blocks: int): seq<byte>
    requires HEADER_SIZE <= |file| && Countable(img, blocks)
  {
    Write(file, COUNTS_OFFSET, Counts(Blocks(img.chunks) + blocks, |img.chunks| + 1))
  }

  /** What a failed append leaves on disk: nothing happened, or a file that does not open any more. */
  ghost predicate LeftBehind(file0: seq<byte>, file: seq<byte>, img: SparseImage, blocks: int) {
    if Countable(img, blocks)
    then HEADER_SIZE <= |file0| && file == CountedOnly(file0, img, blocks) && ParseFile(file) == Bad(StructError)
    else file == file0
  }

  /** A sparse file with one RAW chunk more whose data are not whole blocks. */
  ghost function TornFile(file: seq<byte>, img: SparseImage, blocks: nat, data: seq<byte>): seq<byte>
    requires HEADER_SIZE <= |file| && Countable(img, blocks)
  {
    CountedOnly(file, img, blocks) + ChunkHeader(TYPE_RAW, Zeros(2), blocks, CHUNK_HEADER_SIZE + |data|) + data
  }

  class ImageHandler {
    var file: seq<byte>
    const readOnly: bool
    var isSparse: bool
    var blockSize: nat
    var imageSize: nat
    var filePos: nat
    var numTotalBlocks: int
    var numTotalChunks: nat
    var chunks: seq<ImageChunk>
    var chunkOutputOffsets: seq<nat>
    var sparseEnd: nat
    ghost var image: SparseImage

    /** The object agrees with its file, the two counts in the file's header aside. */
    ghost predicate Loaded()
      reads this`file, this`isSparse, this`blockSize, this`imageSize, this`chunks, this`chunkOutputOffsets,
        this`sparseEnd,
            this`image
    {
      if isSparse then Describes(file, image, blockSize, imageSize, chunks, chunkOutputOffsets, sparseEnd)
      else blockSize == PLAIN_BLOCK_SIZE && imageSize == |file|
    }

    ghost predicate CountsMatch()
      reads this`file, this`image, this`numTotalBlocks, this`numTotalChunks
    {
      && 24 <= |file| && file[COUNTS_OFFSET..24] == Counts(Blocks(image.chunks), |image.chunks|)
      && numTotalBlocks == Blocks(image.chunks) && numTotalChunks == |image.chunks|
    }

    /** What a successful _read_header establishes, for sparse files in their complete stored form. */
    ghost predicate Valid()
      reads this`file, this`isSparse, this`blockSize, this`imageSize, this`chunks, this`chunkOutputOffsets,
        this`sparseEnd,
            this`image, this`numTotalBlocks, this`numTotalChunks
    {
      && Loaded()
      && if isSparse then CountsMatch() else HEADER_SIZE <= |file| && !HasMagic(file)
    }

    /** What even a failed operation keeps: a plain file never turns into one with the sparse magic. */
    ghost predicate Sound()
      reads this`file, this`isSparse, this`blockSize, this`imageSize, this`chunks, this`chunkOutputOffsets,
        this`sparseEnd,
            this`image
    {
      Loaded() && (!isSparse ==> NoMagic(file))
    }

    /** The unsparsified content. */
    ghost function Content(): (c: seq<byte>)
      reads this`file, this`isSparse, this`image
    {
      if isSparse then Expand(image.chunks, image.blockSize) else file
    }

    lemma ContentSize()
      requires Loaded()
      ensures |Content()| == imageSize
    {
      if isSparse { ExpandSize(image.chunks, image.blockSize); }
    }

    constructor (content: seq<byte>, readOnly: bool)
      ensures file == content && this.readOnly == readOnly
    {
      file, this.readOnly := content, readOnly;
      isSparse, blockSize, imageSize, filePos := false, 0, 0, 0;
      numTotalBlocks, numTotalChunks, chunks, chunkOutputOffsets, sparseEnd := 0, 0, [], [], 0;
      image := SparseImage(0, [], []);
    }

    /** Opening a file fails as its header does; a complete sparse file without CRC32 chunks gives a usable object. */
    static method Open(content: seq<byte>, readOnly: bool) returns (r: Result<ImageHandler>)
      ensures r.Raised? ==> ParseFile(content) == Bad(r.error)
      ensures r.Ok? ==>
                fresh(r.value) && r.value.file == content && r.value.readOnly == readOnly && r.value.filePos == 0
      ensures r.Ok? && !r.value.isSparse ==> ParseFile(content) == Plain && r.value.Valid()
      ensures r.Ok? && r.value.isSparse ==>
                && ParseFile(content).Sparse? && r.value.image == ParseFile(content).img
                && (Supported(content) ==> r.value.Valid())
    {
      hide ParseFile, Supported, WellFormed, NoCrc, Begins, Table, Body, TotalOut, Offsets;
      var h := new ImageHandler(content, readOnly);
      var error := h.ReadHeader();
      if error.Some? { return Raised(error.value); }
      if !h.isSparse {
        PlainHasNoMagic(content);
      } else if Supported(content) {
        SupportedIsStored(content);
      }
      return Ok(h);
    }

    // ------------------------------------------------------------------ _read_header

    /** The fields of a sparse object hold what the parser found. */
    ghost predicate HoldsParse(img: SparseImage, end: nat)
      reads this
    {
      && isSparse && image == img && blockSize == img.blockSize
      && chunks == Table(img.chunks, img.blockSize) && chunkOutputOffsets == Offsets(chunks)
      && sparseEnd == end && imageSize == TotalOut(img.chunks, img.blockSize)
      && numTotalBlocks == Blocks(img.chunks) && numTotalChunks == |img.chunks|
    }

    method ReadHeader() returns (r: Option<Error>)
      modifies this`isSparse, this`blockSize, this`filePos, this`imageSize, this`numTotalBlocks, this`numTotalChunks,
               this`chunks, this`chunkOutputOffsets, this`sparseEnd, this`image
      ensures filePos == 0
      ensures match ParseFile(file)
              case Plain => r == None && !isSparse && blockSize == PLAIN_BLOCK_SIZE && imageSize == |file|
              case Sparse(img, end) => r == None && HoldsParse(img, end)
              case Bad(e) => r == Some(e) && !isSparse && imageSize == |file|
      ensures |file| < HEADER_SIZE ==> blockSize == PLAIN_BLOCK_SIZE
    {
      isSparse := false;
      blockSize := PLAIN_BLOCK_SIZE;
      filePos := 0;
      imageSize := |file|;
      if |file| < HEADER_SIZE { return Some(StructError); }
      numTotalBlocks, numTotalChunks := HeaderBlocks(file), HeaderChunks(file);
      if !HasMagic(file) { return None; }
      var error := HeaderError(file);
      if error.Some? { return error; }
      r := ReadSparse();
    }

    /** The part of _read_header behind the checks of a sparse header. */
    method ReadSparse() returns (r: Option<Error>)
      requires HEADER_SIZE <= |file| && !isSparse
      requires numTotalBlocks == HeaderBlocks(file) && numTotalChunks == HeaderChunks(file)
      modifies this`isSparse, this`blockSize, this`imageSize, this`chunks, this`chunkOutputOffsets,
        this`sparseEnd, this`image
      ensures match ParseSparse(file)
              case Plain => false
              case Sparse(img, end) => r == None && HoldsParse(img, end)
              case Bad(e) => r == Some(e) && !isSparse && imageSize == old(imageSize)
    {
      var scan := ReadChunks(file, HeaderBlockSize(file), numTotalChunks);
      if scan.Raised? { return Some(scan.error); }
      if numTotalBlocks != scan.value.offset { return Some(ValueError); }
      if scan.value.pos < |file| { return Some(ValueError); }
      FinishHeader(scan.value, ParseSparse(file).img);
      return None;
    }

    method FinishHeader(scan: ChunkScan, ghost img: SparseImage)
      requires HEADER_SIZE <= |file| && HeaderBlockSize(file) == img.blockSize
      requires scan == ScanResult(Scan(img.chunks, scan.pos), img.blockSize)
      requires numTotalBlocks == Blocks(img.chunks) && numTotalChunks == |img.chunks|
      modifies this`isSparse, this`blockSize, this`imageSize, this`chunks, this`chunkOutputOffsets,
        this`sparseEnd, this`image
      ensures HoldsParse(img, scan.pos)
    {
      blockSize := HeaderBlockSize(file);
      chunks := scan.table;
      sparseEnd := scan.pos;
      imageSize := scan.outputOffset;
      chunkOutputOffsets := Offsets(chunks);
      isSparse := true;
      image := img;
    }

    /** Re-reading a file that stores `img` makes the object describe `img`. */
    method Reload(ghost img: SparseImage)
      requires img.blockSize > 0 && WellFormed(img) && NoCrc(img.chunks)
      requires Stores(file, img, Blocks(img.chunks), |img.chunks|)
      modifies this`isSparse, this`blockSize, this`filePos, this`imageSize, this`numTotalBlocks, this`numTotalChunks,
               this`chunks, this`chunkOutputOffsets, this`sparseEnd, this`image
      ensures Valid() && isSparse && image == img && filePos == 0
    {
      StoresIsSerialize(file, img);
      ParseOfSerialize(img);
      var r := ReadHeader();
    }

    method ReloadPlain() returns (r: Option<Error>)
      requires NoMagic(file)
      modifies this`isSparse, this`blockSize, this`filePos, this`imageSize, this`numTotalBlocks, this`numTotalChunks,
               this`chunks, this`chunkOutputOffsets, this`sparseEnd, this`image
      ensures !isSparse && Sound() && filePos == 0
      ensures r == if HEADER_SIZE <= |file| then None else Some(StructError)
      ensures r == None ==> Valid()
    {
      r := ReadHeader();
    }

    // ---------------------------------------------------------------- appending chunks

    /** How an append refuses: its assertions come first, then the read-only mode. */
    ghost function Refusal(asserted: bool): Option<Error> {
      if asserted then Some(OSError) else Some(AssertionError)
    }

    ghost predicate Writes(asserted: bool) {
      asserted && !readOnly
    }

    /** One more chunk, whose output begins where the image ended. */
    ghost predicate OneMore(image0: SparseImage, offsets0: seq<nat>, imageSize0: nat)
      reads this`image, this`chunkOutputOffsets
    {
      |image.chunks| == |image0.chunks| + 1 && chunkOutputOffsets == offsets0 + [imageSize0]
    }

    /** Both counts fit their 32-bit fields; otherwise struct.pack raises before anything is written. */
    method UpdateChunksAndBlocks() returns (r: Option<Error>)
      requires HEADER_SIZE <= |file|
      modifies this`file
      ensures r == if 0 <= numTotalBlocks < UINT32 && numTotalChunks < UINT32 then None else Some(StructError)
      ensures file == if r == None then Write(old(file), COUNTS_OFFSET, Counts(numTotalBlocks, numTotalChunks))
                      else old(file)
    {
      if numTotalBlocks < 0 || numTotalBlocks >= UINT32 || numTotalChunks >= UINT32 { return Some(StructError); }
      file := Write(file, COUNTS_OFFSET, Counts(numTotalBlocks, numTotalChunks));
      return None;
    }

    /** One more chunk of this many blocks and bytes keeps every 32-bit field in range. */
    ghost predicate CanGrow(blocks: int, totalSize: nat)
      requires Loaded() && isSparse
      reads this
    {
      0 <= blocks && Countable(image, blocks) && totalSize < UINT32
    }

    /** What the three append methods do to a sparse file; `c` is the chunk that is written. */
    method AppendChunk(chunkType: nat, blocks: int, totalSize: nat, payload: seq<byte>, ghost c: Chunk)
      returns (r: Option<Error>)
      requires Valid() && isSparse
      requires 0 <= blocks ==> IsChunk(c, chunkType, blocks, totalSize, payload, blockSize)
      modifies this
      ensures Loaded() && isSparse && blockSize == old(blockSize)
      ensures r == if old(CanGrow(blocks, totalSize)) then None else Some(StructError)
      ensures r == None ==> Valid() && image == old(image).(chunks := old(image).chunks + [c]) && filePos == 0
      ensures r == None ==> chunkOutputOffsets == old(chunkOutputOffsets) + [old(imageSize)]
      ensures r != None ==> image == old(image) && filePos == old(filePos)
      ensures r != None ==> LeftBehind(old(file), file, image, blocks)
    {
      hide Begins, WellFormed, Table, TotalOut, Offsets, Body, Blocks, Counts, ParseFile;
      ghost var file0, chunks0 := file, image.chunks;
      r := BumpCounts(blocks);
      if r != None { return; }
      CountedDoesNotOpen(file0, image, blocks);
      if blocks < 0 || totalSize >= UINT32 { return Some(StructError); }
      WriteChunk(chunkType, blocks, totalSize, payload, c, file0);
      OffsetsAppended(chunks0, c, blockSize);
    }

    /** Counts one more chunk and writes the new counts, as every append begins. */
    method BumpCounts(blocks: int) returns (r: Option<Error>)
      requires Valid() && isSparse
      modifies this`numTotalChunks, this`numTotalBlocks, this`file
      ensures Loaded()
      ensures r == if Countable(image, blocks) then None else Some(StructError)
      ensures HEADER_SIZE <= |old(file)|
      ensures file == if r == None then CountedOnly(old(file), image, blocks) else old(file)
    {
      hide Begins, WellFormed, NoCrc, Table, TotalOut, Offsets, Body, Blocks, Write, Counts;
      ghost var file0 := file;
      numTotalChunks := numTotalChunks + 1;
      numTotalBlocks := numTotalBlocks + blocks;
      r := UpdateChunksAndBlocks();
      if r == None {
        BeginsKept(file0, image, numTotalBlocks, numTotalChunks);
      }
    }

    method WriteChunk(chunkType: nat, blocks: nat, totalSize: nat, payload: seq<byte>, ghost c: Chunk,
                      ghost file0: seq<byte>)
      requires Loaded() && isSparse && IsChunk(c, chunkType, blocks, totalSize, payload, blockSize)
      requires Begins(file0, image) && |file0| == |file|
      requires HEADER_SIZE <= |file0| && Countable(image, blocks) && totalSize < UINT32
      requires file == CountedOnly(file0, image, blocks)
      modifies this
      ensures Valid() && isSparse && blockSize == old(blockSize) && filePos == 0
      ensures image == old(image).(chunks := old(image).chunks + [c])
    {
      hide Begins, WellFormed, NoCrc, Table, TotalOut, Offsets, Body, Blocks, Write, Counts, ChunkHeader;
      ghost var img := image;
      GrownImage(img, c);
      ChunkStored(file, file0, img, c, chunkType, blocks, totalSize, payload);
      file := WriteAt(file, sparseEnd, ChunkHeader(chunkType, Zeros(2), blocks, totalSize));
      file := file + payload;
      Reload(img.(chunks := img.chunks + [c]));
    }

    method AppendDontCare(numBytes: int) returns (r: Option<Error>)
      requires Valid()
      modifies this
      ensures isSparse == old(isSparse) && blockSize == old(blockSize) && Sound()
      ensures readOnly || !Whole(numBytes, blockSize) ==>
                r == Refusal(Whole(numBytes, blockSize)) && Kept(old(file), old(image), old(filePos))
      ensures Writes(Whole(numBytes, blockSize)) && isSparse ==>
                r == if numBytes >= 0 && old(CanGrow(BlocksIn(numBytes, blockSize), CHUNK_HEADER_SIZE)) then None
                     else Some(StructError)
      ensures isSparse && r != None ==> Content() == old(Content()) && filePos == old(filePos)
      ensures Writes(Whole(numBytes, blockSize)) && isSparse && r != None ==>
                image == old(image) && LeftBehind(old(file), file, image, BlocksIn(numBytes, blockSize))
      ensures Writes(Whole(numBytes, blockSize)) && !isSparse && |old(file)| + numBytes < 0 ==>
                r == Some(OSError) && Kept(old(file), old(image), old(filePos))
      ensures Writes(Whole(numBytes, blockSize)) && !isSparse && |old(file)| + numBytes >= 0 ==>
                && file == Resize(old(file), |old(file)| + numBytes) && filePos == 0
                && r == if HEADER_SIZE <= |file| then None else Some(StructError)
      ensures r == None ==>
                Valid() && filePos == 0 && (isSparse ==> OneMore(old(image), old(chunkOutputOffsets), old(imageSize)))
      ensures r == None && numBytes >= 0 ==> Content() == old(Content()) + Zeros(numBytes)
    {
      hide Begins, WellFormed, NoCrc, Table, TotalOut, Offsets, Body, Blocks, Expand, Counts, Span;
      if numBytes % blockSize != 0 { return Some(AssertionError); }
      if readOnly { return Some(OSError); }
      if !isSparse {
        if |file| + numBytes < 0 { return Some(OSError); }
        MagicKept(file, |file| + numBytes);
        file := Resize(file, |file| + numBytes);
        r := ReloadPlain();
        return;
      }
      ghost var c := DontCare(Zeros(2), if numBytes >= 0 then numBytes / blockSize else 0);
      ExactBlocks(numBytes, blockSize);
      r := AppendChunk(TYPE_DONT_CARE, numBytes / blockSize, CHUNK_HEADER_SIZE, [], c);
      if r == None {
        AddedChunk(old(image).chunks, c, blockSize);
      }
    }

    /** The data are not whole blocks, which goes unnoticed until the file is parsed again. */
    ghost predicate Tears(n: nat, multipleBlockSize: bool)
      requires blockSize > 0
      reads this`isSparse, this`blockSize
    {
      !readOnly && isSparse && !multipleBlockSize && !Whole(n, blockSize)
    }

    method AppendRaw(data: seq<byte>, multipleBlockSize: bool) returns (r: Option<Error>)
      requires Valid()
      modifies this
      ensures old(blockSize) > 0
      ensures old(Tears(|data|, multipleBlockSize)) ==>
                var blocks := BlocksIn(|data|, old(blockSize));
                if old(CanGrow(blocks, CHUNK_HEADER_SIZE + |data|))
                then
                  && r == Some(ValueError) && ParseFile(file) == Bad(ValueError)
                  && HEADER_SIZE <= |old(file)| && file == TornFile(old(file), old(image), blocks, data)
                else r == Some(StructError) && LeftBehind(old(file), file, old(image), blocks)
      ensures !old(Tears(|data|, multipleBlockSize)) ==>
                isSparse == old(isSparse) && blockSize == old(blockSize) && Sound()
      ensures readOnly || (multipleBlockSize && !Whole(|data|, old(blockSize))) ==>
                && r == Refusal(!multipleBlockSize || Whole(|data|, old(blockSize)))
                && Kept(old(file), old(image), old(filePos))
      ensures Writes(Whole(|data|, old(blockSize))) && old(isSparse) ==>
                r == if old(CanGrow(BlocksIn(|data|, blockSize), CHUNK_HEADER_SIZE + |data|)) then None
                     else Some(StructError)
      ensures Writes(!multipleBlockSize || Whole(|data|, old(blockSize))) && !old(isSparse) ==> r == None
      ensures !old(Tears(|data|, multipleBlockSize)) && r != None ==>
                Content() == old(Content()) && filePos == old(filePos)
      ensures Writes(Whole(|data|, old(blockSize))) && r != None ==>
                image == old(image) && LeftBehind(old(file), file, image, BlocksIn(|data|, blockSize))
      ensures r == None ==>
                Valid() && filePos == 0 && (isSparse ==> OneMore(old(image), old(chunkOutputOffsets), old(imageSize)))
      ensures r == None ==> Content() == old(Content()) + data
    {
      hide Begins, WellFormed, NoCrc, Table, TotalOut, Offsets, Body, Blocks, Expand, Counts, Span, ParseFile;
      if multipleBlockSize && |data| % blockSize != 0 { return Some(AssertionError); }
      if readOnly { return Some(OSError); }
      if !isSparse {
        MagicOfLonger(file, data);
        file := file + data;
        r := ReloadPlain();
        return;
      }
      // The same steps for whole blocks and for others: only parsing what has been written tells them apart.
      if |data| % blockSize != 0 {
        r := AppendTorn(data);
        return;
      }
      ghost var c := Raw(Zeros(2), |data| / blockSize, data);
      ExactBlocks(|data|, blockSize);
      r := AppendChunk(TYPE_RAW, |data| / blockSize, CHUNK_HEADER_SIZE + |data|, data, c);
      if r == None {
        AddedChunk(old(image).chunks, c, blockSize);
      }
    }

    method AppendTorn(data: seq<byte>) returns (r: Option<Error>)
      requires Valid() && isSparse && blockSize > 0 && !Whole(|data|, blockSize)
      modifies this
      ensures var blocks := BlocksIn(|data|, old(blockSize));
              if old(CanGrow(blocks, CHUNK_HEADER_SIZE + |data|))
              then
                && r == Some(ValueError) && ParseFile(file) == Bad(ValueError)
                && HEADER_SIZE <= |old(file)| && file == TornFile(old(file), old(image), blocks, data)
              else r == Some(StructError) && LeftBehind(old(file), file, old(image), blocks)
    {
      hide Begins, WellFormed, NoCrc, Table, TotalOut, Offsets, Body, Blocks, Counts, ParseFile, ChunkHeader, Write,
        Whole, TornFile;
      ghost var file0, img := file, image;
      var blocks, totalSize := |data| / blockSize, CHUNK_HEADER_SIZE + |data|;
      r := BumpCounts(blocks);
      if r != None { return; }
      CountedDoesNotOpen(file0, img, blocks);
      if totalSize >= UINT32 { return Some(StructError); }
      TornDoesNotOpen(file0, img, blocks, data);
      file := WriteAt(file, sparseEnd, ChunkHeader(TYPE_RAW, Zeros(2), blocks, totalSize));
      file := file + data;
      r := ReadHeader();
    }

    method AppendFill(fillData: seq<byte>, size: int) returns (r: Option<Error>)
      requires Valid()
      modifies this
      ensures isSparse == old(isSparse) && blockSize == old(blockSize) && Sound()
      ensures readOnly || !Fillable(fillData, size, blockSize) ==>
                r == Refusal(Fillable(fillData, size, blockSize)) && Kept(old(file), old(image), old(filePos))
      ensures Writes(Fillable(fillData, size, blockSize)) && isSparse ==>
                r == if size >= 0 && old(CanGrow(BlocksIn(size, blockSize), CHUNK_HEADER_SIZE + 4)) then None
                     else Some(StructError)
      ensures Writes(Fillable(fillData, size, blockSize)) && !isSparse ==> r == None
      ensures r != None ==> Content() == old(Content()) && filePos == old(filePos)
      ensures Writes(Fillable(fillData, size, blockSize)) && r != None ==>
                image == old(image) && LeftBehind(old(file), file, image, BlocksIn(size, blockSize))
      ensures r == None ==>
                Valid() && filePos == 0 && (isSparse ==> OneMore(old(image), old(chunkOutputOffsets), old(imageSize)))
      ensures r == None ==> Content() == old(Content()) + FillBytes(fillData, if size >= 0 then size else 0)
    {
      hide Begins, WellFormed, NoCrc, Table, TotalOut, Offsets, Body, Blocks, Expand, Counts, Span;
      if !Fillable(fillData, size, blockSize) { return Some(AssertionError); }
      if readOnly { return Some(OSError); }
      if !isSparse {
        // Python repeats a string a negative number of times to the empty string.
        var data := if size >= 0 then Repeat(fillData, size / 4) else [];
        assert data == FillBytes(fillData, if size >= 0 then size else 0);
        MagicOfLonger(file, data);
        file := file + data;
        r := ReloadPlain();
        return;
      }
      ghost var c := Fill(Zeros(2), if size >= 0 then size / blockSize else 0, fillData);
      ExactBlocks(size, blockSize);
      r := AppendChunk(TYPE_FILL, size / blockSize, CHUNK_HEADER_SIZE + 4, fillData, c);
      if r == None {
        AddedChunk(old(image).chunks, c, blockSize);
      }
    }

    // ------------------------------------------------------------------------ reading

    method Seek(offset: int) returns (r: Option<Error>)
      modifies this`filePos
      ensures r == if offset < 0 then Some(RuntimeError) else None
      ensures filePos == if offset < 0 then old(filePos) else offset
    {
      if offset < 0 { return Some(RuntimeError); }
      filePos := offset;
      return None;
    }

    method Tell() returns (pos: nat)
      ensures pos == filePos
    {
      return filePos;
    }

    method Read(size: nat) returns (r: Result<seq<byte>>)
      requires Loaded()
      modifies this`filePos
      ensures ReadsFlat(size, old(filePos)) ==>
                r == Ok(ReadAt(Content(), old(filePos), size))
                && filePos == old(filePos) + |ReadAt(Content(), old(filePos), size)|
      ensures !ReadsFlat(size, old(filePos)) && chunks == [] ==> r == Raised(IndexError) && filePos == old(filePos)
      ensures !ReadsFlat(size, old(filePos)) && chunks != [] ==>
                && r == BeyondData(chunks[|chunks| - 1], old(filePos) - chunks[|chunks| - 1].outputOffset,
                                   imageSize - old(filePos))
                && filePos == if r.Ok? then imageSize else old(filePos)
    {
      hide Describes, Expand, TotalOut, IsTable, Usable, Body, BeyondData, ReadAt;
      if !isSparse {
        var data := ReadAt(file, filePos, size);
        filePos := filePos + |data|;
        return Ok(data);
      }
      LoadedTable();
      if size == 0 { return Ok([]); }
      if chunks == [] { return Raised(IndexError); }
      if filePos <= imageSize {
        var data := ReadInside(size, Content());
        return Ok(data);
      }
      r := ReadBeyond();
    }

    /** A read that does what reading a flat file does: in particular, not from beyond the end of a sparse image. */
    ghost predicate ReadsFlat(size: nat, pos: nat)
      reads this
    {
      !isSparse || size == 0 || (chunks != [] && pos <= imageSize)
    }

    /** The loop of read() from a position inside the output. */
    method ReadInside(size: nat, ghost content: seq<byte>) returns (data: seq<byte>)
      requires Loaded() && isSparse && chunks != [] && filePos <= imageSize && content == Content()
      modifies this`filePos
      ensures data == ReadAt(content, old(filePos), size) && filePos == old(filePos) + |data|
    {
      hide Describes, Expand, TotalOut, IsTable, Usable, Body, BisectRight, Sorted, Offsets;
      var pos0, table, input := filePos, chunks, file;
      LoadedTable();
      FirstChunk(table, image.chunks, blockSize, pos0);
      var chunkIdx: nat := BisectRight(chunkOutputOffsets, pos0) - 1;
      data := [];
      var toGo: nat := size;
      while toGo > 0
        invariant toGo + |data| == size && filePos == pos0 + |data| <= |content|
        invariant data == content[pos0..filePos]
        invariant toGo > 0 ==> InChunk(table, chunkIdx, filePos)
        decreases |table| - chunkIdx
      {
        var chunk := table[chunkIdx];
        var d := filePos - chunk.outputOffset;
        var n := if chunk.outputSize - d < toGo then chunk.outputSize - d else toGo;
        var piece := ReadPiece(input, chunk, d, n, table, image.chunks, blockSize, chunkIdx, filePos);
        SliceJoin(content, pos0, filePos, filePos + n);
        data := data + piece;
        toGo := toGo - n;
        filePos := filePos + n;
        chunkIdx := chunkIdx + 1;
        if chunkIdx >= |table| {
          assert toGo == 0 || filePos == |content|;
          break;
        }
      }
      ReadIsSlice(content, pos0, size, filePos);
    }

    /** read() from beyond the output: the last chunk is asked for a negative number of bytes. */
    method ReadBeyond() returns (r: Result<seq<byte>>)
      requires Loaded() && isSparse && chunks != [] && filePos > imageSize
      modifies this`filePos
      ensures r == BeyondData(chunks[|chunks| - 1], old(filePos) - chunks[|chunks| - 1].outputOffset,
                              imageSize - old(filePos))
      ensures filePos == if r.Ok? then imageSize else old(filePos)
    {
      hide Describes, Expand, TotalOut, IsTable, Usable, Body, BisectRight, Sorted, BeyondData;
      LoadedTable();
      FirstChunk(chunks, image.chunks, blockSize, filePos);
      var chunkIdx: nat := BisectRight(chunkOutputOffsets, filePos) - 1;
      var chunk := chunks[chunkIdx];
      var d := filePos - chunk.outputOffset;
      var n := chunk.outputSize - d;
      assert chunkIdx == |chunks| - 1 && n == imageSize - filePos;
      r := BeyondData(chunk, d, n);
      if r.Ok? { filePos := filePos + n; }
    }

    // --------------------------------------------------------------------- truncating

    method Truncate(size: nat) returns (r: Option<Error>)
      requires Sound() && (Valid() || !isSparse || size <= imageSize)
      modifies this
      ensures isSparse == old(isSparse) && blockSize == old(blockSize) && Sound()
      ensures readOnly ==> r == Some(OSError) && Kept(old(file), old(image), old(filePos))
      ensures !readOnly && !isSparse ==>
                && file == Resize(old(file), size) && filePos == 0
                && r == if HEADER_SIZE <= size then None else Some(StructError)
      ensures !readOnly && isSparse && size % blockSize != 0 ==>
                r == Some(ValueError) && Kept(old(file), old(image), old(filePos))
      ensures !readOnly && isSparse && size == old(imageSize) && size % blockSize == 0 ==>
                && r == None && Kept(old(file), old(image), old(filePos)) && CountsMatch() == old(CountsMatch())
                && chunkOutputOffsets == old(chunkOutputOffsets)
      ensures !readOnly && isSparse && size < old(imageSize) && size % blockSize == 0 ==>
                && r == None && Valid() && filePos == 0
                && |image.chunks| == KeptChunks(old(chunkOutputOffsets), size) <= |old(image).chunks|
                && chunkOutputOffsets == old(chunkOutputOffsets)[..KeptChunks(old(chunkOutputOffsets), size)]
      ensures !readOnly && isSparse && size > old(imageSize) && size % blockSize == 0 ==>
                r == if old(CanGrow(BlocksIn(size - imageSize, blockSize), CHUNK_HEADER_SIZE)) then None
                     else Some(StructError)
      ensures isSparse && r == None && size > old(imageSize) ==>
                Valid() && filePos == 0 && OneMore(old(image), old(chunkOutputOffsets), old(imageSize))
      ensures isSparse && r != None ==> Content() == old(Content()) && filePos == old(filePos) && file == old(file)
      ensures r == None && (!isSparse || old(Valid())) ==> Valid()
      ensures r == Some(ValueError) ==> image == old(image) && (old(Valid()) ==> Valid())
      ensures r == None ==> Content() == Resize(old(Content()), size)
    {
      hide Begins, WellFormed, NoCrc, Table, TotalOut, Offsets, Body, Blocks, Expand, HasMagic;
      if readOnly { return Some(OSError); }
      ContentSize();
      if !isSparse {
        MagicKept(file, size);
        file := Resize(file, size);
        r := ReloadPlain();
        return;
      }
      if size % blockSize != 0 { return Some(ValueError); }
      if size == imageSize { return None; }
      if size < imageSize {
        CutSparse(size);
        return None;
      }
      GrowBy(size - imageSize, blockSize, imageSize, image.chunks);
      r := AppendDontCare(size - imageSize);
    }

    /** Truncating a sparse file below its size. */
    method CutSparse(size: nat)
      requires Loaded() && isSparse && size % blockSize == 0 && size < imageSize
      modifies this
      ensures Valid() && isSparse && blockSize == old(blockSize) && filePos == 0
      ensures |old(Content())| == old(imageSize) && Content() == old(Content())[..size]
      ensures |image.chunks| == KeptChunks(old(chunkOutputOffsets), size) <= |old(image).chunks|
      ensures chunkOutputOffsets == old(chunkOutputOffsets)[..KeptChunks(old(chunkOutputOffsets), size)]
    {
      hide Begins, WellFormed, NoCrc, Usable, Table, IsTable, Sorted, TotalOut, Offsets, Body, Blocks, CutChunks, Write,
        Expand, Stores, InChunk, BisectRight, Counts;
      ghost var img := image;
      LoadedTable();
      SomeChunk(img.chunks, blockSize);
      FirstChunk(chunks, img.chunks, blockSize, size);
      var chunkIdx: nat := BisectRight(chunkOutputOffsets, size) - 1;
      var numToKeep := size - chunks[chunkIdx].outputOffset;
      var keep := numToKeep / blockSize;
      CutPoint(chunks, img.chunks, blockSize, chunkIdx, size, numToKeep, keep);
      KeptByBisection(chunkOutputOffsets, size);
      CutImage(img, chunkIdx, keep);
      CutExpands(img.chunks, blockSize, chunkIdx, keep, numToKeep, size);
      ghost var cut := img.(chunks := CutChunks(img.chunks, blockSize, chunkIdx, keep));
      var truncateAt, chunkIdxForUpdate;
      if numToKeep != 0 {
        truncateAt := KeepPart(chunkIdx, numToKeep, keep);
        chunkIdxForUpdate := chunkIdx + 1;
      } else {
        BoundaryCut(file, chunks, img, chunkIdx, keep);
        truncateAt, chunkIdxForUpdate := chunks[chunkIdx].chunkOffset, chunkIdx;
      }
      numTotalChunks := chunkIdxForUpdate;
      CountBlocks(chunkIdxForUpdate, cut.chunks);
      CountsAndCut(file, cut, numTotalBlocks, numTotalChunks);
      var r := UpdateChunksAndBlocks();
      file := file[..truncateAt];
      Reload(cut);
      CutOffsets(img, chunkIdx, keep);
    }

    /** Rewrites the header of the chunk that is cut; returns where its kept data end. */
    method KeepPart(chunkIdx: nat, numToKeep: nat, keep: nat) returns (truncateAt: nat)
      requires Loaded() && isSparse && chunkIdx < |chunks| && keep == numToKeep / blockSize
      requires IsTable(chunks, image.chunks, blockSize) && CanKeep(image.chunks, blockSize, chunkIdx, keep)
      requires numToKeep == Span(keep, blockSize)
      modifies this`file, this`chunks
      ensures var cut := CutChunks(image.chunks, blockSize, chunkIdx, keep);
              && Begins(file, image.(chunks := cut)) && truncateAt == HEADER_SIZE + |Body(cut)| <= |file|
              && HoldsBlocks(chunks, cut, blockSize, chunkIdx + 1)
    {
      hide Begins, WellFormed, NoCrc, Table, TotalOut, Offsets, Body, CutChunks, ChunkHeader, Write;
      var chunk := chunks[chunkIdx];
      assert chunk == EntryAt(image.chunks, blockSize, chunkIdx);
      var dataSize := if chunk.chunkType == TYPE_RAW then numToKeep else if chunk.chunkType == TYPE_FILL then 4 else 0;
      truncateAt := chunk.chunkOffset + CHUNK_HEADER_SIZE + dataSize;
      KeptSize(image.chunks, blockSize, chunkIdx, keep, dataSize);
      HeaderRewritten(file, image, chunkIdx, keep);
      file := Write(file, chunk.chunkOffset,
                    ChunkHeader(chunk.chunkType, Zeros(2), keep, dataSize + CHUNK_HEADER_SIZE));
      BeginsWithin(file, image.(chunks := CutChunks(image.chunks, blockSize, chunkIdx, keep)));
      CutTable(chunks, image.chunks, blockSize, chunkIdx, keep, chunk.(outputSize := numToKeep));
      chunks := chunks[chunkIdx := chunk.(outputSize := numToKeep)];
    }

    /** Adds up the blocks of the first `n` chunks. */
    method CountBlocks(n: nat, ghost cut: seq<Chunk>)
      requires blockSize > 0 && n <= |chunks| && |cut| == n && HoldsBlocks(chunks, cut, blockSize, n)
      modifies this`numTotalBlocks
      ensures numTotalBlocks == Blocks(cut)
    {
      numTotalBlocks := 0;
      assert cut[..0] == [] && cut[..n] == cut;
      for i := 0 to n
        invariant numTotalBlocks == Blocks(cut[..i])
      {
        StepSizes(cut, blockSize, i);
        SpanDivides(cut[i].blocks, blockSize);
        numTotalBlocks := numTotalBlocks + chunks[i].outputSize / blockSize;
      }
    }

    lemma LoadedTable()
      requires Loaded() && isSparse
      ensures IsTable(chunks, image.chunks, blockSize) && Sorted(chunkOutputOffsets)
      ensures |Content()| == imageSize == TotalOut(image.chunks, blockSize)
      ensures Content() == Expand(image.chunks, blockSize) && chunkOutputOffsets == Offsets(chunks)
      ensures |image.chunks| == |chunks|
      ensures Usable(image.chunks, blockSize) && HEADER_SIZE <= |file| && file[HEADER_SIZE..] == Body(image.chunks)
    {
      assert file[HEADER_SIZE..] == file[HEADER_SIZE..HEADER_SIZE + |Body(image.chunks)|];
      TableFacts(chunks, image.chunks, blockSize);
      ContentSize();
    }

    /** The file, the read cursor and the content are as before. */
    ghost predicate Kept(file0: seq<byte>, image0: SparseImage, filePos0: nat)
      reads this`file, this`image, this`filePos
    {
      file == file0 && image == image0 && filePos == filePos0
    }
  }

  lemma TableFacts(table: seq<ImageChunk>, chunks: seq<Chunk>, blockSize: nat)
    requires NoCrc(chunks) && table == Table(chunks, blockSize)
    ensures IsTable(table, chunks, blockSize) && Sorted(Offsets(table))
  {
    TableEntries(chunks, blockSize);
    OffsetsSorted(table, chunks, blockSize);
  }

  /** What a valid object means on disk: _read_header accepts the file as it is and finds the same image in it. */
  lemma ValidReopens(h: ImageHandler)
    requires h.Valid()
    ensures if h.isSparse then ParseFile(h.file) == Sparse(h.image, |h.file|) && Supported(h.file)
            else ParseFile(h.file) == Plain
  {
    hide WellFormed, Table, TotalOut, Offsets, Body, Blocks, Counts, DeclaredEnd;
    if h.isSparse {
      BeginsStores(h.file, h.image);
      StoresIsSerialize(h.file, h.image);
      ParseOfSerialize(h.image);
      AcceptedIsStoredIff(h.file);
    }
  }

  /** A failed append on a valid sparse object leaves a file that opens exactly if the counts could not be raised. */
  lemma FailedAppendOpensIff(file0: seq<byte>, file: seq<byte>, img: SparseImage, blocks: int)
    requires Opens(file0) && LeftBehind(file0, file, img, blocks)
    ensures Opens(file) <==> !Countable(img, blocks)
  {
    hide ParseFile, Countable;
  }

  /** The file of a valid object opens, and so does any plain one that is as long as a header. */
  lemma OpensWhen(h: ImageHandler)
    requires h.Sound()
    ensures h.Valid() ==> Opens(h.file)
    ensures !h.isSparse ==> (Opens(h.file) <==> HEADER_SIZE <= |h.file|)
  {
    hide Describes;
    if h.isSparse && h.Valid() { ValidReopens(h); }
  }

  lemma BeginsStores(file: seq<byte>, img: SparseImage)
    requires Begins(file, img) && |file| == HEADER_SIZE + |Body(img.chunks)|
    requires file[COUNTS_OFFSET..24] == Counts(Blocks(img.chunks), |img.chunks|)
    ensures Stores(file, img, Blocks(img.chunks), |img.chunks|)
  {
    assert file[HEADER_SIZE..] == file[HEADER_SIZE..|file|];
  }

  ghost predicate InChunk(table: seq<ImageChunk>, idx: nat, pos: nat) {
    idx < |table| && table[idx].outputOffset <= pos <= table[idx].outputOffset + table[idx].outputSize
  }

  /** The bisection ends at a chunk that holds the position, or at the last one. */
  lemma FirstChunk(table: seq<ImageChunk>, chunks: seq<Chunk>, blockSize: nat, pos: nat)
    requires IsTable(table, chunks, blockSize) && Sorted(Offsets(table)) && chunks != []
    ensures var idx := BisectRight(Offsets(table), pos) - 1;
            && 0 <= idx < |table| && table[idx].outputOffset <= pos
            && if pos <= TotalOut(chunks, blockSize) then InChunk(table, idx, pos)
               else idx == |table| - 1 && table[idx].outputOffset + table[idx].outputSize == TotalOut(chunks, blockSize)
  {
    BisectFindsChunk(table, chunks, blockSize, pos);
    NextChunk(table, chunks, blockSize, BisectRight(Offsets(table), pos) - 1);
  }

  /** Each chunk's output ends where the next one's begins; the last one's ends the image. */
  lemma NextChunk(table: seq<ImageChunk>, chunks: seq<Chunk>, blockSize: nat, idx: nat)
    requires IsTable(table, chunks, blockSize) && idx < |table|
    ensures table[idx].outputOffset == TotalOut(chunks[..idx], blockSize)
    ensures table[idx].outputOffset + table[idx].outputSize
            == TotalOut(chunks[..idx + 1], blockSize) <= TotalOut(chunks, blockSize)
    ensures table[idx].outputOffset + table[idx].outputSize
         == if idx + 1 < |table| then table[idx + 1].outputOffset else TotalOut(chunks, blockSize)
  {
    StepSizes(chunks, blockSize, idx);
    SizesMonotone(chunks, blockSize, idx + 1, |chunks|);
    assert chunks[..|chunks|] == chunks;
    assert table[idx] == EntryAt(chunks, blockSize, idx);
    if idx + 1 < |table| {
      assert table[idx + 1] == EntryAt(chunks, blockSize, idx + 1);
    }
  }

  /** One turn of the read loop: it collects the next `n` bytes of the expansion and moves on to the next chunk. */
  lemma ReadTurn(file: seq<byte>, table: seq<ImageChunk>, chunks: seq<Chunk>, blockSize: nat, idx: nat,
                 pos: nat, n: nat)
    requires IsTable(table, chunks, blockSize) && Usable(chunks, blockSize) && InChunk(table, idx, pos)
    requires HEADER_SIZE <= |file| && file[HEADER_SIZE..] == Body(chunks)
    requires pos + n <= table[idx].outputOffset + table[idx].outputSize
    ensures pos + n <= |Expand(chunks, blockSize)|
    ensures |ReadChunk(file, table[idx], pos - table[idx].outputOffset, n)| == n
    ensures ReadChunk(file, table[idx], pos - table[idx].outputOffset, n) == Expand(chunks, blockSize)[pos..pos + n]
    ensures pos + n == table[idx].outputOffset + table[idx].outputSize ==>
              if idx + 1 < |table| then InChunk(table, idx + 1, pos + n) else pos + n == |Expand(chunks, blockSize)|
  {
    hide Expand, TotalOut, Body, ReadChunk;
    NextChunk(table, chunks, blockSize, idx);
    ExpandSize(chunks, blockSize);
    assert table[idx] == EntryAt(chunks, blockSize, idx);
    ReadChunkIsExpansion(file, chunks, blockSize, idx, pos - table[idx].outputOffset, n, table[idx].outputOffset);
  }

  /** The part of one turn that touches the file. */
  method ReadPiece(file: seq<byte>, chunk: ImageChunk, d: nat, n: nat, ghost table: seq<ImageChunk>,
                   ghost chunks: seq<Chunk>, ghost blockSize: nat, ghost idx: nat, ghost pos: nat)
    returns (data: seq<byte>)
    requires IsTable(table, chunks, blockSize) && Usable(chunks, blockSize) && idx < |table| && chunk == table[idx]
    requires HEADER_SIZE <= |file| && file[HEADER_SIZE..] == Body(chunks)
    requires pos == chunk.outputOffset + d && pos + n <= chunk.outputOffset + chunk.outputSize
    ensures |data| == n && pos + n <= |Expand(chunks, blockSize)| && data == Expand(chunks, blockSize)[pos..pos + n]
    ensures d + n == chunk.outputSize ==>
              if idx + 1 < |table| then InChunk(table, idx + 1, pos + n) else pos + n == |Expand(chunks, blockSize)|
  {
    ReadTurn(file, table, chunks, blockSize, idx, pos, n);
    data := ReadChunk(file, chunk, d, n);
  }

  /** The first `n` table entries have the output sizes of these chunks. */
  ghost predicate HoldsBlocks(table: seq<ImageChunk>, chunks: seq<Chunk>, blockSize: nat, n: nat) {
    n <= |table| && n <= |chunks| && forall i :: 0 <= i < n ==> table[i].outputSize == OutSize(chunks[i], blockSize)
  }

  lemma SpanDivides(blocks: nat, blockSize: nat)
    requires blockSize > 0
    ensures Span(blocks, blockSize) / blockSize == blocks && Span(blocks, blockSize) % blockSize == 0
  {
    SpanIsProduct(blocks, blockSize);
    MultipleMod(blocks, blockSize);
  }

  lemma BlockCount(h: ImageHandler)
    requires h.Loaded() && h.isSparse
    ensures h.blockSize > 0 && h.imageSize / h.blockSize == Blocks(h.image.chunks)
  {
    TotalOutIsBlocks(h.image.chunks, h.blockSize);
    SpanDivides(Blocks(h.image.chunks), h.blockSize);
  }

  lemma ModOfDifference(a: nat, b: nat, d: nat)
    requires d > 0 && a >= b && a % d == 0 && b % d == 0
    ensures (a - b) % d == 0
  {
    assert a == (a / d) * d && b == (b / d) * d;
    DivModUnique(a, d, a / d, 0);
    var k := a / d - b / d;
    assert a - b == k * d;
    if k < 0 { MulGap(k, 0, d); } else { MultipleMod(k, d); }
  }

  lemma SpanOrder(a: nat, b: nat, blockSize: nat)
    requires blockSize > 0 && Span(a, blockSize) <= Span(b, blockSize)
    ensures a <= b
  {
    if b < a {
      SpanOfSum(b, a - b, blockSize);
    }
  }

  /** A size that is a multiple of the block size cuts a chunk at a block boundary. */
  lemma CutPoint(table: seq<ImageChunk>, chunks: seq<Chunk>, blockSize: nat, i: nat, size: nat, n: nat, keep: nat)
    requires blockSize > 0 && size % blockSize == 0 && IsTable(table, chunks, blockSize) && InChunk(table, i, size)
    requires n == size - table[i].outputOffset && keep == n / blockSize
    ensures n == Span(keep, blockSize) <= OutSize(chunks[i], blockSize) && keep <= chunks[i].blocks
    ensures size == TotalOut(chunks[..i], blockSize) + n
  {
    assert table[i] == EntryAt(chunks, blockSize, i);
    TotalOutIsBlocks(chunks[..i], blockSize);
    SpanDivides(Blocks(chunks[..i]), blockSize);
    ModOfDifference(size, table[i].outputOffset, blockSize);
    ExactBlocks(n, blockSize);
    SpanOrder(keep, chunks[i].blocks, blockSize);
  }

  lemma SomeChunk(chunks: seq<Chunk>, blockSize: nat)
    requires TotalOut(chunks, blockSize) > 0
    ensures chunks != []
  {
  }

  lemma BeginsWithin(file: seq<byte>, img: SparseImage)
    requires Begins(file, img)
    ensures HEADER_SIZE + |Body(img.chunks)| <= |file|
  {
  }

  lemma CutImage(img: SparseImage, i: nat, keep: nat)
    requires WellFormed(img) && NoCrc(img.chunks) && i < |img.chunks|
    requires keep <= img.chunks[i].blocks && Span(keep, img.blockSize) <= OutSize(img.chunks[i], img.blockSize)
    ensures var img' := img.(chunks := CutChunks(img.chunks, img.blockSize, i, keep));
            WellFormed(img') && NoCrc(img'.chunks) && |img'.chunks| == i + (if keep == 0 then 0 else 1) <= |img.chunks|
  {
    CutUsable(img.chunks, img.blockSize, i, keep);
    StepSizes(img.chunks, img.blockSize, i);
    SizesMonotone(img.chunks, img.blockSize, i + 1, |img.chunks|);
    assert img.chunks[..|img.chunks|] == img.chunks;
  }

  /** The chunks that stay begin where they did. */
  lemma CutOffsets(img: SparseImage, i: nat, keep: nat)
    requires NoCrc(img.chunks) && i < |img.chunks| && NoCrc(CutChunks(img.chunks, img.blockSize, i, keep))
    ensures var cut := CutChunks(img.chunks, img.blockSize, i, keep);
            && |cut| <= |img.chunks| == |Offsets(Table(img.chunks, img.blockSize))|
            && Offsets(Table(cut, img.blockSize)) == Offsets(Table(img.chunks, img.blockSize))[..|cut|]
  {
    hide Table, NoCrc, TotalOut, Body;
    var chunks, cut := img.chunks, CutChunks(img.chunks, img.blockSize, i, keep);
    TableEntries(chunks, img.blockSize);
    TableEntries(cut, img.blockSize);
    var a, b := Offsets(Table(cut, img.blockSize)), Offsets(Table(chunks, img.blockSize));
    forall k | 0 <= k < |cut|
      ensures a[k] == b[k]
    {
      assert cut[..k] == chunks[..k];
      assert Table(cut, img.blockSize)[k] == EntryAt(cut, img.blockSize, k);
      assert Table(chunks, img.blockSize)[k] == EntryAt(chunks, img.blockSize, k);
    }
  }

  lemma BoundaryCut(file: seq<byte>, table: seq<ImageChunk>, img: SparseImage, i: nat, keep: nat)
    requires Begins(file, img) && IsTable(table, img.chunks, img.blockSize) && i < |table| && keep == 0
    ensures var cut := CutChunks(img.chunks, img.blockSize, i, keep);
            && Begins(file, img.(chunks := cut)) && HoldsBlocks(table, cut, img.blockSize, i)
            && table[i].chunkOffset == HEADER_SIZE + |Body(cut)| <= |file|
  {
    BodyPrefix(img.chunks, i);
    SliceOfSlice(file, HEADER_SIZE, HEADER_SIZE + |Body(img.chunks)|, 0, |Body(img.chunks[..i])|);
    assert table[i] == EntryAt(img.chunks, img.blockSize, i);
    forall k | 0 <= k < i
      ensures table[k].outputSize == OutSize(img.chunks[..i][k], img.blockSize)
    {
      assert table[k] == EntryAt(img.chunks, img.blockSize, k);
    }
  }

  lemma KeptSize(chunks: seq<Chunk>, blockSize: nat, i: nat, keep: nat, dataSize: nat)
    requires CanKeep(chunks, blockSize, i, keep)
    requires dataSize == match chunks[i]
                         case Raw(_, _, _) => Span(keep, blockSize)
                         case Fill(_, _, _) => 4
                         case _ => 0
    ensures ShrunkHeader(chunks[i], keep, blockSize)
         == ChunkHeader(ChunkType(chunks[i]), Zeros(2), keep, dataSize + CHUNK_HEADER_SIZE)
    ensures |Body(CutChunks(chunks, blockSize, i, keep))| == |Body(chunks[..i])| + CHUNK_HEADER_SIZE + dataSize
  {
    hide CutChunks, Body, Span;
    assert WellFormedChunk(chunks[i], blockSize) && !chunks[i].Crc32?;
    CutBody(chunks, blockSize, i, keep);
  }

  lemma CutTable(table: seq<ImageChunk>, chunks: seq<Chunk>, blockSize: nat, i: nat, keep: nat, e: ImageChunk)
    requires IsTable(table, chunks, blockSize) && i < |chunks| && keep > 0 && e.outputSize == Span(keep, blockSize)
    ensures HoldsBlocks(table[i := e], CutChunks(chunks, blockSize, i, keep), blockSize, i + 1)
  {
    var cut := CutChunks(chunks, blockSize, i, keep);
    forall k | 0 <= k < i + 1
      ensures table[i := e][k].outputSize == OutSize(cut[k], blockSize)
    {
      if k < i { assert table[k] == EntryAt(chunks, blockSize, k); }
    }
  }

  /** The bytes missing to a larger size are whole blocks. */
  lemma GrowBy(n: nat, blockSize: nat, imageSize: nat, chunks: seq<Chunk>)
    requires blockSize > 0 && imageSize == TotalOut(chunks, blockSize) && (n + imageSize) % blockSize == 0
    ensures n % blockSize == 0
  {
    TotalOutIsBlocks(chunks, blockSize);
    SpanDivides(Blocks(chunks), blockSize);
    ModOfDifference(n + imageSize, imageSize, blockSize);
  }

  lemma ReadIsSlice(content: seq<byte>, pos: nat, size: nat, end: nat)
    requires pos <= end <= |content| && end <= pos + size && (end == pos + size || end == |content|)
    ensures content[pos..end] == ReadAt(content, pos, size)
  {
  }

  lemma ExactBlocks(numBytes: int, blockSize: nat)
    requires blockSize > 0 && numBytes % blockSize == 0
    ensures numBytes >= 0 <==> numBytes / blockSize >= 0
    ensures numBytes >= 0 ==> numBytes == Span(numBytes / blockSize, blockSize)
  {
    var q := numBytes / blockSize;
    assert numBytes == q * blockSize + numBytes % blockSize;
    if q < 0 {
      MulGap(q, 0, blockSize);
    } else {
      SpanIsProduct(q, blockSize);
    }
  }

  ghost predicate NoMagic(file: seq<byte>) {
    4 <= |file| ==> !HasMagic(file)
  }

  /** Resizing a plain file keeps its first bytes; the magic does not end in a zero byte. */
  lemma MagicKept(file: seq<byte>, size: nat)
    requires NoMagic(file)
    ensures NoMagic(Resize(file, size))
  {
    var r := Resize(file, size);
    if 4 <= size {
      if 4 <= |file| {
        assert r[0..4] == file[0..4];
      } else {
        ZeroTop(r[0..4]);
      }
    }
  }

  lemma ZeroTop(s: seq<byte>)
    requires |s| == 4 && s[3] == 0
    ensures DecodeLE(s) != MAGIC
  {
    assert s[1..][1..] == s[2..] && s[2..][1..] == s[3..] && s[3..][1..] == [];
    assert DecodeLE(s[3..]) == 0;
    assert DecodeLE(s[2..]) < 256;
    assert DecodeLE(s[1..]) < 256 * 256;
  }

  lemma MagicOfLonger(file: seq<byte>, data: seq<byte>)
    requires HEADER_SIZE <= |file| && !HasMagic(file)
    ensures !HasMagic(file + data)
  {
    assert (file + data)[0..4] == file[0..4];
  }

  lemma ChunkStored(file: seq<byte>, file0: seq<byte>, img: SparseImage, c: Chunk,
                    chunkType: nat, blocks: nat, totalSize: nat, payload: seq<byte>)
    requires Begins(file0, img) && |file0| == |file| == HEADER_SIZE + |Body(img.chunks)|
    requires IsChunk(c, chunkType, blocks, totalSize, payload, img.blockSize)
    requires file == Write(file0, COUNTS_OFFSET, Counts(Blocks(img.chunks) + blocks, |img.chunks| + 1))
    ensures var img' := img.(chunks := img.chunks + [c]);
            Stores(WriteAt(file, |file|, ChunkHeader(chunkType, Zeros(2), blocks, totalSize)) + payload,
                   img', Blocks(img'.chunks), |img'.chunks|)
  {
    hide Begins, Stores, Blocks, Body, Write, Counts, ChunkHeader, Payload, ChunkType, WriteAt;
    ChunkAppended(file0, img, c, Blocks(img.chunks) + blocks, |img.chunks| + 1);
    AddedChunk(img.chunks, c, img.blockSize);
    TwoWrites(file, ChunkHeader(chunkType, Zeros(2), blocks, totalSize), payload);
  }

  lemma TwoWrites(file: seq<byte>, header: seq<byte>, payload: seq<byte>)
    requires |header| > 0
    ensures WriteAt(file, |file|, header) + payload == file + (header + payload)
  {
  }

  /** The chunk with this header and payload. */
  ghost predicate IsChunk(c: Chunk, chunkType: nat, blocks: nat, totalSize: nat, payload: seq<byte>, blockSize: nat) {
    && c.reserved == Zeros(2) && c.blocks == blocks && ChunkType(c) == chunkType && Payload(c) == payload && !c.Crc32?
    && totalSize == CHUNK_HEADER_SIZE + |payload|
    && (c.Raw? ==> |payload| == Span(blocks, blockSize)) && (c.Fill? ==> |payload| == 4)
  }

  lemma BeginsKept(file: seq<byte>, img: SparseImage, blocks: nat, chunks: nat)
    requires Begins(file, img) && |file| == HEADER_SIZE + |Body(img.chunks)|
    ensures Begins(Write(file, COUNTS_OFFSET, Counts(blocks, chunks)), img)
  {
    CountsWritten(file, Counts(blocks, chunks), |file|);
    var r := Write(file, COUNTS_OFFSET, Counts(blocks, chunks));
    assert r[..|file|] == r;
  }

  /** Without its new chunk the file is refused. */
  lemma TornDoesNotOpen(file: seq<byte>, img: SparseImage, blocks: nat, data: seq<byte>)
    requires WellFormed(img) && Begins(file, img) && |file| == HEADER_SIZE + |Body(img.chunks)| && img.blockSize > 0
    requires Countable(img, blocks) && CHUNK_HEADER_SIZE + |data| < UINT32
    requires blocks == |data| / img.blockSize && !Whole(|data|, img.blockSize)
    ensures HEADER_SIZE <= |file| && ParseFile(TornFile(file, img, blocks, data)) == Bad(ValueError)
    ensures |CountedOnly(file, img, blocks)| == |file|
    ensures WriteAt(CountedOnly(file, img, blocks), |file|,
                    ChunkHeader(TYPE_RAW, Zeros(2), blocks, CHUNK_HEADER_SIZE + |data|)) + data
         == TornFile(file, img, blocks, data)
  {
    hide WellFormed, Begins, Stores, Body, Counts, Write, ParseFile, Blocks, ChunkHeader;
    var c := Raw(Zeros(2), blocks, data);
    ChunkAppended(file, img, c, Blocks(img.chunks) + blocks, |img.chunks| + 1);
    var header := ChunkHeader(TYPE_RAW, Zeros(2), blocks, CHUNK_HEADER_SIZE + |data|);
    TwoWrites(CountedOnly(file, img, blocks), header, data);
    assert ChunkBytes(c) == header + data;
    assert TornFile(file, img, blocks, data) == CountedOnly(file, img, blocks) + (header + data);
    NoWholeSpan(|data|, img.blockSize);
    TornChunk(TornFile(file, img, blocks, data), img, c, Blocks(img.chunks) + blocks);
  }

  lemma NoWholeSpan(n: nat, blockSize: nat)
    requires blockSize > 0 && !Whole(n, blockSize)
    ensures n != Span(n / blockSize, blockSize)
  {
    SpanIsProduct(n / blockSize, blockSize);
    assert n == n / blockSize * blockSize + n % blockSize;
  }

  lemma CountedDoesNotOpen(file: seq<byte>, img: SparseImage, blocks: int)
    requires WellFormed(img) && Begins(file, img) && |file| == HEADER_SIZE + |Body(img.chunks)|
    requires Countable(img, blocks)
    ensures HEADER_SIZE <= |file| && ParseFile(CountedOnly(file, img, blocks)) == Bad(StructError)
  {
    hide WellFormed, Begins, Stores, Body, Counts, Write, ParseFile, Blocks;
    var after := CountedOnly(file, img, blocks);
    CountsAndCut(file, img, Blocks(img.chunks) + blocks, |img.chunks| + 1);
    assert after[..HEADER_SIZE + |Body(img.chunks)|] == after;
    OneTooMany(after, img, Blocks(img.chunks) + blocks);
  }

  lemma GrownImage(img: SparseImage, c: Chunk)
    requires WellFormed(img) && NoCrc(img.chunks) && WellFormedChunk(c, img.blockSize) && !c.Crc32?
    requires Blocks(img.chunks) + c.blocks < UINT32 && |img.chunks| + 1 < UINT32
    ensures var img' := img.(chunks := img.chunks + [c]);
            WellFormed(img') && NoCrc(img'.chunks) && Blocks(img'.chunks) == Blocks(img.chunks) + c.blocks
  {
    AddedChunk(img.chunks, c, img.blockSize);
    AddedChunkUsable(img.chunks, c, img.blockSize);
  }

  lemma {:induction false} ParseFailureStays(file: seq<byte>, blockSize: nat, i: nat, n: nat)
    requires i < n && ParseChunks(file, blockSize, i).Ok?
    ensures match ParseChunk(file, blockSize, ParseChunks(file, blockSize, i).value.pos)
            case Raised(e) => ParseChunks(file, blockSize, n) == Raised(e)
            case Ok(_) => true
    decreases n
  {
    if i < n - 1 {
      ParseFailureStays(file, blockSize, i, n - 1);
    }
  }

  lemma TurnEffect(file: seq<byte>, blockSize: nat, i: nat)
    requires ParseChunks(file, blockSize, i).Ok?
    requires ParseChunk(file, blockSize, ParseChunks(file, blockSize, i).value.pos).Ok?
    requires ParseChunks(file, blockSize, i).value.pos
             == HEADER_SIZE + |Body(ParseChunks(file, blockSize, i).value.chunks)|
    ensures ParseChunks(file, blockSize, i + 1).Ok?
    ensures var scan, next := ParseChunks(file, blockSize, i).value, ParseChunks(file, blockSize, i + 1).value;
            var (c, pos') := ParseChunk(file, blockSize, scan.pos).value;
            && next.pos == pos' && Blocks(next.chunks) == Blocks(scan.chunks) + c.blocks
            && TotalOut(next.chunks, blockSize) == TotalOut(scan.chunks, blockSize) + Span(c.blocks, blockSize)
            && Table(next.chunks, blockSize)
               == Table(scan.chunks, blockSize) + LastEntry(c, blockSize, scan.pos, TotalOut(scan.chunks, blockSize))
  {
    var scan := ParseChunks(file, blockSize, i).value;
    assert ParseChunks(file, blockSize, i + 1) == ParseOneMore(file, blockSize, scan);
    TableAppend(scan.chunks, ParseChunk(file, blockSize, scan.pos).value.0, blockSize, scan.pos);
  }

  lemma TableAppend(chunks: seq<Chunk>, c: Chunk, blockSize: nat, start: nat)
    requires start == HEADER_SIZE + |Body(chunks)|
    ensures Blocks(chunks + [c]) == Blocks(chunks) + c.blocks
    ensures TotalOut(chunks + [c], blockSize) == TotalOut(chunks, blockSize) + Span(c.blocks, blockSize)
    ensures Table(chunks + [c], blockSize)
         == Table(chunks, blockSize) + LastEntry(c, blockSize, start, TotalOut(chunks, blockSize))
  {
    assert (chunks + [c])[..|chunks|] == chunks;
  }

  /**
   * Reading behind the end of a sparse image gives no bytes, or raises if the last chunk is RAW and the cursor more
   * than one byte behind; only chunks whose size is no multiple of four give something else.
   */
  lemma BeyondIsEmpty(e: ImageChunk, d: int, n: int)
    requires n < 0 && d + n == e.outputSize && e.outputSize % 4 == 0
    ensures BeyondData(e, d, n) == if e.chunkType == 0xcac1 && n < -1 then Raised(ValueError) else Ok([])
  {
    if e.chunkType == TYPE_FILL && e.fillData.Some? && |e.fillData.value| == 4 {
      NothingSliced(e.fillData.value, e.outputSize / 4, -n);
    }
  }

  lemma NothingSliced(pattern: seq<byte>, q: nat, m: nat)
    requires |pattern| == 4 && m > 0
    ensures var d, n: int := 4 * q + m, -(m as int);
            PySlice(if n / 4 + 2 > 0 then Repeat(pattern, n / 4 + 2) else [], d % 4, d % 4 + n) == []
  {
    assert (4 * q + m) % 4 == m % 4;
    if m > 4 {
      assert -(m as int) / 4 + 2 <= 0;
    } else {
      assert -(m as int) / 4 + 2 == 1;
    }
  }
}
