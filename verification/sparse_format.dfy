/** The Android sparse image format: chunks, their bytes, their expansion, and the parser. */
module SparseFormat {
  import opened Bytes
  import opened Wrappers

  const MAGIC: nat := 0xed26ff3a
  const HEADER_SIZE: nat := 28
  const CHUNK_HEADER_SIZE: nat := 12
  const COUNTS_OFFSET: nat := 16
  const TYPE_RAW: nat := 0xcac1
  const TYPE_FILL: nat := 0xcac2
  const TYPE_DONT_CARE: nat := 0xcac3
  const TYPE_CRC32: nat := 0xcac4

  /** A chunk as it is stored; the two reserved bytes are carried along but never interpreted. */
  datatype Chunk =
    | Raw(reserved: seq<byte>, blocks: nat, data: seq<byte>)
    | Fill(reserved: seq<byte>, blocks: nat, pattern: seq<byte>)
    | DontCare(reserved: seq<byte>, blocks: nat)
    | Crc32(reserved: seq<byte>, blocks: nat, crc: seq<byte>)

  datatype SparseImage = SparseImage(blockSize: nat, checksum: seq<byte>, chunks: seq<Chunk>)

  // ------------------------------------------------------------------- stored form

  function ChunkType(c: Chunk): nat {
    match c
    case Raw(_, _, _) => TYPE_RAW
    case Fill(_, _, _) => TYPE_FILL
    case DontCare(_, _) => TYPE_DONT_CARE
    case Crc32(_, _, _) => TYPE_CRC32
  }

  function Payload(c: Chunk): seq<byte> {
    match c
    case Raw(_, _, data) => data
    case Fill(_, _, pattern) => pattern
    case DontCare(_, _) => []
    case Crc32(_, _, crc) => crc
  }

  function ChunkHeader(chunkType: nat, reserved: seq<byte>, blocks: nat, totalSize: nat): (s: seq<byte>)
    ensures |s| == 2 + |reserved| + 8
  {
    LE(chunkType, 2) + reserved + LE(blocks, 4) + LE(totalSize, 4)
  }

  function ChunkBytes(c: Chunk): (s: seq<byte>)
    ensures |s| == 10 + |c.reserved| + |Payload(c)|
  {
    ChunkHeader(ChunkType(c), c.reserved, c.blocks, CHUNK_HEADER_SIZE + |Payload(c)|) + Payload(c)
  }

  function Body(chunks: seq<Chunk>): (s: seq<byte>) {
    if chunks == [] then [] else Body(chunks[..|chunks| - 1]) + ChunkBytes(chunks[|chunks| - 1])
  }

  function Header(blockSize: nat, blocks: nat, chunks: nat, checksum: seq<byte>): (s: seq<byte>)
    ensures |s| == 24 + |checksum|
  {
    HeaderStart(blockSize) + Counts(blocks, chunks) + checksum
  }

  /** Everything before the two counts: magic, version 1.0, the two header sizes, the block size. */
  function HeaderStart(blockSize: nat): (s: seq<byte>)
    ensures |s| == COUNTS_OFFSET
  {
    LE(MAGIC, 4) + LE(1, 2) + LE(0, 2) + LE(HEADER_SIZE, 2) + LE(CHUNK_HEADER_SIZE, 2) + LE(blockSize, 4)
  }

  function Counts(blocks: nat, chunks: nat): (s: seq<byte>)
    ensures |s| == 8
  {
    LE(blocks, 4) + LE(chunks, 4)
  }

  function Blocks(chunks: seq<Chunk>): nat {
    if chunks == [] then 0 else Blocks(chunks[..|chunks| - 1]) + chunks[|chunks| - 1].blocks
  }

  function Serialize(img: SparseImage): seq<byte> {
    Header(img.blockSize, Blocks(img.chunks), |img.chunks|, img.checksum) + Body(img.chunks)
  }

  ghost predicate WellFormedChunk(c: Chunk, blockSize: nat) {
    && |c.reserved| == 2 && c.blocks < UINT32 && CHUNK_HEADER_SIZE + |Payload(c)| < UINT32
    && match c
       case Raw(_, blocks, data) => |data| == Span(blocks, blockSize)
       case Fill(_, _, pattern) => |pattern| == 4
       case DontCare(_, _) => true
       case Crc32(_, _, crc) => |crc| == 4
  }

  ghost predicate WellFormedChunks(chunks: seq<Chunk>, blockSize: nat) {
    forall i :: 0 <= i < |chunks| ==> WellFormedChunk(chunks[i], blockSize)
  }

  ghost predicate WellFormed(img: SparseImage) {
    && img.blockSize < UINT32 && |img.checksum| == 4
    && |img.chunks| < UINT32 && Blocks(img.chunks) < UINT32
    && WellFormedChunks(img.chunks, img.blockSize)
  }

  // --------------------------------------------------------------------- the parser

  /** What _read_header makes of a file; `end` is where its last read or seek left the file cursor. */
  datatype Parsed = Plain | Sparse(img: SparseImage, end: nat) | Bad(error: Error)

  datatype Scan = Scan(chunks: seq<Chunk>, pos: nat)

  /** read(n) at `pos`: fewer bytes at the end of the file, none beyond it. */
  function ReadAt(file: seq<byte>, pos: nat, n: nat): (s: seq<byte>)
    ensures |s| <= n
  {
    if pos >= |file| then [] else if pos + n > |file| then file[pos..] else file[pos..pos + n]
  }

  /** The fields of the 12-byte chunk header at `pos`. */
  datatype Fields = Fields(chunkType: nat, reserved: seq<byte>, blocks: nat, dataSize: int)

  function FieldsAt(file: seq<byte>, pos: nat): Fields
    requires pos + CHUNK_HEADER_SIZE <= |file|
  {
    Fields(DecodeLE(file[pos..pos + 2]), file[pos + 2..pos + 4], DecodeLE(file[pos + 4..pos + 8]),
           DecodeLE(file[pos + 8..pos + 12]) - CHUNK_HEADER_SIZE)
  }

  /** One turn of the parsing loop: the chunk at `pos` and where the cursor goes. */
  function ParseChunk(file: seq<byte>, blockSize: nat, pos: nat): Result<(Chunk, nat)> {
    if pos + CHUNK_HEADER_SIZE > |file| then Raised(StructError)
    else
      var f := FieldsAt(file, pos);
      var data := pos + CHUNK_HEADER_SIZE;
      if f.chunkType == TYPE_RAW then
        if f.dataSize != Span(f.blocks, blockSize) then Raised(ValueError)
        // The data is skipped by a relative seek, which may go beyond the end of the file.
        else Ok((Raw(f.reserved, f.blocks, ReadAt(file, data, f.dataSize)), data + f.dataSize))
      else if f.chunkType == TYPE_FILL then
        if f.dataSize != 4 then Raised(ValueError)
        else Ok((Fill(f.reserved, f.blocks, ReadAt(file, data, 4)), data + |ReadAt(file, data, 4)|))
      else if f.chunkType == TYPE_DONT_CARE then
        if f.dataSize != 0 then Raised(ValueError)
        else Ok((DontCare(f.reserved, f.blocks), data))
      else if f.chunkType == TYPE_CRC32 then
        if f.dataSize != 4 then Raised(ValueError)
        else Ok((Crc32(f.reserved, f.blocks, ReadAt(file, data, 4)), data + |ReadAt(file, data, 4)|))
      else Raised(ValueError)
  }

  function ParseOneMore(file: seq<byte>, blockSize: nat, scan: Scan): (r: Result<Scan>)
    ensures r.Ok? ==> |r.value.chunks| == |scan.chunks| + 1
  {
    match ParseChunk(file, blockSize, scan.pos)
    case Raised(e) => Raised(e)
    case Ok((c, pos)) => Ok(Scan(scan.chunks + [c], pos))
  }

  function ParseChunks(file: seq<byte>, blockSize: nat, n: nat): (r: Result<Scan>)
    ensures r.Ok? ==> |r.value.chunks| == n
  {
    if n == 0 then Ok(Scan([], HEADER_SIZE))
    else match ParseChunks(file, blockSize, n - 1)
      case Raised(e) => Raised(e)
      case Ok(scan) => ParseOneMore(file, blockSize, scan)
  }

  /** The checks on the file header once its magic matched. */
  function HeaderError(file: seq<byte>): Option<Error>
    requires HEADER_SIZE <= |file|
  {
    if DecodeLE(file[4..6]) != 1 || DecodeLE(file[6..8]) != 0 then Some(ValueError)
    else if DecodeLE(file[8..10]) != HEADER_SIZE then Some(ValueError)
    else if DecodeLE(file[10..12]) != CHUNK_HEADER_SIZE then Some(ValueError)
    else None
  }

  function HeaderBlockSize(file: seq<byte>): nat requires HEADER_SIZE <= |file| { DecodeLE(file[12..16]) }

  function HeaderBlocks(file: seq<byte>): nat requires HEADER_SIZE <= |file| { DecodeLE(file[16..20]) }

  function HeaderChunks(file: seq<byte>): nat requires HEADER_SIZE <= |file| { DecodeLE(file[20..24]) }

  predicate HasMagic(file: seq<byte>)
    requires 4 <= |file|
  {
    DecodeLE(file[0..4]) == MAGIC
  }

  function ParseFile(file: seq<byte>): Parsed {
    if |file| < HEADER_SIZE then Bad(StructError)
    else if !HasMagic(file) then Plain
    else if HeaderError(file).Some? then Bad(HeaderError(file).value)
    else ParseSparse(file)
  }

  function ParseSparse(file: seq<byte>): Parsed
    requires HEADER_SIZE <= |file|
  {
    match ParseChunks(file, HeaderBlockSize(file), HeaderChunks(file))
    case Raised(e) => Bad(e)
    case Ok(scan) =>
      if HeaderBlocks(file) != Blocks(scan.chunks) then Bad(ValueError)
      else if scan.pos < |file| then Bad(ValueError)
      else Sparse(SparseImage(HeaderBlockSize(file), file[24..28], scan.chunks), scan.pos)
  }

  // ------------------------------------------------------- reading what was written

  lemma ChunkHeaderFields(chunkType: nat, reserved: seq<byte>, blocks: nat, totalSize: nat, file: seq<byte>, pos: nat)
    requires chunkType < 0x1_0000 && |reserved| == 2 && blocks < UINT32 && totalSize < UINT32
    requires pos + 12 <= |file| && file[pos..pos + 12] == ChunkHeader(chunkType, reserved, blocks, totalSize)
    ensures FieldsAt(file, pos) == Fields(chunkType, reserved, blocks, totalSize - CHUNK_HEADER_SIZE)
  {
    var h := ChunkHeader(chunkType, reserved, blocks, totalSize);
    HeaderParts(LE(chunkType, 2), reserved, LE(blocks, 4), LE(totalSize, 4));
    SliceOfSlice(file, pos, pos + 12, 0, 2);
    SliceOfSlice(file, pos, pos + 12, 2, 4);
    SliceOfSlice(file, pos, pos + 12, 4, 8);
    SliceOfSlice(file, pos, pos + 12, 8, 12);
    Pow256Values();
    DecodeOfLE(chunkType, 2);
    DecodeOfLE(blocks, 4);
    DecodeOfLE(totalSize, 4);
  }

  lemma HeaderParts(a: seq<byte>, b: seq<byte>, c: seq<byte>, d: seq<byte>)
    requires |a| == 2 && |b| == 2 && |c| == 4 && |d| == 4
    ensures var h := a + b + c + d; h[0..2] == a && h[2..4] == b && h[4..8] == c && h[8..12] == d
  {
  }

  lemma ParseOfChunk(file: seq<byte>, blockSize: nat, pos: nat, c: Chunk)
    requires WellFormedChunk(c, blockSize)
    requires pos + |ChunkBytes(c)| <= |file| && file[pos..pos + |ChunkBytes(c)|] == ChunkBytes(c)
    ensures ParseChunk(file, blockSize, pos) == Ok((c, pos + |ChunkBytes(c)|))
  {
    hide LE, ChunkHeader, FieldsAt;
    var b := ChunkBytes(c);
    var h := ChunkHeader(ChunkType(c), c.reserved, c.blocks, CHUNK_HEADER_SIZE + |Payload(c)|);
    assert file[pos..pos + 12] == b[..12] == h;
    assert file[pos + 12..pos + |b|] == b[12..] == Payload(c);
    ChunkHeaderFields(ChunkType(c), c.reserved, c.blocks, CHUNK_HEADER_SIZE + |Payload(c)|, file, pos);
    assert ReadAt(file, pos + 12, |Payload(c)|) == Payload(c);
  }

  /** The first `i` chunks end where the parser's cursor stands after `i` turns. */
  lemma {:induction false} BodyPrefix(chunks: seq<Chunk>, i: nat)
    requires i <= |chunks|
    ensures |Body(chunks[..i])| <= |Body(chunks)| && Body(chunks)[..|Body(chunks[..i])|] == Body(chunks[..i])
  {
    var n := |chunks|;
    if i < n {
      BodyPrefix(chunks[..n - 1], i);
      assert chunks[..n - 1][..i] == chunks[..i];
    } else {
      assert chunks[..n] == chunks;
    }
  }

  lemma BodyStep(chunks: seq<Chunk>, i: nat)
    requires i < |chunks|
    ensures Body(chunks[..i + 1]) == Body(chunks[..i]) + ChunkBytes(chunks[i])
  {
    assert chunks[..i + 1][..i] == chunks[..i];
  }

  lemma PieceInFile(file: seq<byte>, base: nat, body: seq<byte>, before: seq<byte>, piece: seq<byte>)
    requires base <= |file| && file[base..] == body
    requires |before| + |piece| <= |body| && body[..|before| + |piece|] == before + piece
    ensures base + |before| + |piece| <= |file|
    ensures file[base + |before|..base + |before| + |piece|] == piece
  {
    var at := base + |before|;
    forall k | 0 <= k < |piece|
      ensures file[at + k] == piece[k]
    {
      assert file[at + k] == body[|before| + k] == body[..|before| + |piece|][|before| + k];
    }
  }

  /** Chunk `i` of a body that starts at `base` in the file. */
  lemma ChunkInFile(file: seq<byte>, base: nat, chunks: seq<Chunk>, i: nat)
    requires base <= |file| && file[base..] == Body(chunks) && i < |chunks|
    ensures base + |Body(chunks[..i])| + |ChunkBytes(chunks[i])| <= |file|
    ensures file[base + |Body(chunks[..i])|..base + |Body(chunks[..i])| + |ChunkBytes(chunks[i])|]
            == ChunkBytes(chunks[i])
  {
    hide Body, ChunkBytes;
    BodyPrefix(chunks, i + 1);
    BodyStep(chunks, i);
    PieceInFile(file, base, Body(chunks), Body(chunks[..i]), ChunkBytes(chunks[i]));
  }

  ghost predicate ScanIs(r: Result<Scan>, chunks: seq<Chunk>, pos: nat) {
    r.Ok? && r.value.chunks == chunks && r.value.pos == pos
  }

  lemma ScanOneMore(file: seq<byte>, blockSize: nat, scan: Scan, chunks: seq<Chunk>, n: nat)
    requires n < |chunks| && WellFormedChunk(chunks[n], blockSize)
    requires HEADER_SIZE <= |file| && file[HEADER_SIZE..] == Body(chunks)
    requires scan.chunks == chunks[..n] && scan.pos == HEADER_SIZE + |Body(chunks[..n])|
    ensures ScanIs(ParseOneMore(file, blockSize, scan), chunks[..n + 1], HEADER_SIZE + |Body(chunks[..n + 1])|)
  {
    ChunkInFile(file, HEADER_SIZE, chunks, n);
    ParseOfChunk(file, blockSize, scan.pos, chunks[n]);
    TakeMore(chunks, n);
    BodyStep(chunks, n);
  }

  lemma {:induction false} ParseOfBody(file: seq<byte>, blockSize: nat, chunks: seq<Chunk>, n: nat)
    requires HEADER_SIZE <= |file| && file[HEADER_SIZE..] == Body(chunks) && n <= |chunks|
    requires forall i :: 0 <= i < n ==> WellFormedChunk(chunks[i], blockSize)
    ensures ScanIs(ParseChunks(file, blockSize, n), chunks[..n], HEADER_SIZE + |Body(chunks[..n])|)
  {
    if n > 0 {
      ParseOfBody(file, blockSize, chunks, n - 1);
      ScanOneMore(file, blockSize, ParseChunks(file, blockSize, n - 1).value, chunks, n - 1);
    }
  }

  lemma HeaderStartFields(file: seq<byte>, blockSize: nat)
    requires HEADER_SIZE <= |file| && file[..COUNTS_OFFSET] == HeaderStart(blockSize) && blockSize < UINT32
    ensures HasMagic(file) && HeaderError(file).None? && HeaderBlockSize(file) == blockSize
  {
    StartParts(LE(MAGIC, 4), LE(1, 2), LE(0, 2), LE(HEADER_SIZE, 2), LE(CHUNK_HEADER_SIZE, 2), LE(blockSize, 4), file);
    Pow256Values();
    DecodeOfLE(MAGIC, 4);
    DecodeOfLE(1, 2);
    DecodeOfLE(0, 2);
    DecodeOfLE(HEADER_SIZE, 2);
    DecodeOfLE(CHUNK_HEADER_SIZE, 2);
    DecodeOfLE(blockSize, 4);
  }

  lemma StartParts(a: seq<byte>, b: seq<byte>, c: seq<byte>, d: seq<byte>, e: seq<byte>, f: seq<byte>, file: seq<byte>)
    requires |a| == 4 && |b| == 2 && |c| == 2 && |d| == 2 && |e| == 2 && |f| == 4 && 16 <= |file|
    requires file[..16] == a + b + c + d + e + f
    ensures file[0..4] == a && file[4..6] == b && file[6..8] == c && file[8..10] == d && file[10..12] == e
    ensures file[12..16] == f
  {
    var h := a + b + c + d + e + f;
    SliceOfSlice(file, 0, 16, 0, 4);
    SliceOfSlice(file, 0, 16, 4, 6);
    SliceOfSlice(file, 0, 16, 6, 8);
    SliceOfSlice(file, 0, 16, 8, 10);
    SliceOfSlice(file, 0, 16, 10, 12);
    SliceOfSlice(file, 0, 16, 12, 16);
    assert h[0..4] == a && h[4..6] == b && h[6..8] == c && h[8..10] == d && h[10..12] == e && h[12..16] == f;
  }

  lemma CountsFields(file: seq<byte>, blocks: nat, chunks: nat)
    requires HEADER_SIZE <= |file| && file[COUNTS_OFFSET..24] == Counts(blocks, chunks) && blocks < UINT32
    requires chunks < UINT32
    ensures HeaderBlocks(file) == blocks && HeaderChunks(file) == chunks
  {
    SliceOfSlice(file, 16, 24, 0, 4);
    SliceOfSlice(file, 16, 24, 4, 8);
    assert Counts(blocks, chunks)[0..4] == LE(blocks, 4) && Counts(blocks, chunks)[4..8] == LE(chunks, 4);
    Pow256Values();
    DecodeOfLE(blocks, 4);
    DecodeOfLE(chunks, 4);
  }

  /** A file in four parts: start of the header, the two counts, the checksum field, the chunks. */
  ghost predicate Stores(file: seq<byte>, img: SparseImage, blocks: nat, chunks: nat) {
    && |img.checksum| == 4 && |file| == HEADER_SIZE + |Body(img.chunks)|
    && file[..COUNTS_OFFSET] == HeaderStart(img.blockSize)
    && file[COUNTS_OFFSET..24] == Counts(blocks, chunks)
    && file[24..HEADER_SIZE] == img.checksum
    && file[HEADER_SIZE..] == Body(img.chunks)
  }

  lemma StoresIsSerialize(file: seq<byte>, img: SparseImage)
    requires |img.checksum| == 4
    ensures Stores(file, img, Blocks(img.chunks), |img.chunks|) <==> file == Serialize(img)
  {
    FileInParts(file, HeaderStart(img.blockSize), Counts(Blocks(img.chunks), |img.chunks|), img.checksum,
                Body(img.chunks));
  }

  lemma FileInParts(file: seq<byte>, a: seq<byte>, b: seq<byte>, c: seq<byte>, d: seq<byte>)
    requires |a| == 16 && |b| == 8 && |c| == 4
    ensures file == a + b + c + d <==>
              |file| == 28 + |d| && file[..16] == a && file[16..24] == b && file[24..28] == c && file[28..] == d
  {
    if |file| == 28 + |d| && file[..16] == a && file[16..24] == b && file[24..28] == c && file[28..] == d {
      assert file == file[..16] + file[16..24] + file[24..28] + file[28..];
    }
  }

  /** Round trip: the parser accepts every stored image and recovers it exactly. */
  lemma ParseOfSerialize(img: SparseImage)
    requires WellFormed(img)
    ensures ParseFile(Serialize(img)) == Sparse(img, |Serialize(img)|)
  {
    hide Body, HeaderStart, Counts, ParseChunks;
    var file := Serialize(img);
    StoresIsSerialize(file, img);
    HeaderStartFields(file, img.blockSize);
    CountsFields(file, Blocks(img.chunks), |img.chunks|);
    ParseOfBody(file, img.blockSize, img.chunks, |img.chunks|);
    assert img.chunks[..|img.chunks|] == img.chunks;
  }

  /** A stored image whose header counts one chunk too many is refused: the file ends where that chunk should begin. */
  lemma OneTooMany(file: seq<byte>, img: SparseImage, blocks: nat)
    requires WellFormed(img) && Stores(file, img, blocks, |img.chunks| + 1)
    requires blocks < UINT32 && |img.chunks| + 1 < UINT32
    ensures ParseFile(file) == Bad(StructError)
  {
    hide Body, HeaderStart, Counts, ParseChunks;
    var n := |img.chunks|;
    HeaderStartFields(file, img.blockSize);
    CountsFields(file, blocks, n + 1);
    ParseOfBody(file, img.blockSize, img.chunks, n);
    assert img.chunks[..n] == img.chunks;
    LastChunkMissing(file, img.blockSize, n);
  }

  /** A RAW chunk whose data are no whole number of blocks is rejected. */
  lemma TornChunk(file: seq<byte>, img: SparseImage, c: Chunk, blocks: nat)
    requires WellFormed(img) && Stores(file, img.(chunks := img.chunks + [c]), blocks, |img.chunks| + 1)
    requires blocks < UINT32 && |img.chunks| + 1 < UINT32
    requires c.Raw? && |c.reserved| == 2 && c.blocks < UINT32 && CHUNK_HEADER_SIZE + |c.data| < UINT32
    requires |c.data| != Span(c.blocks, img.blockSize)
    ensures ParseFile(file) == Bad(ValueError)
  {
    hide Body, HeaderStart, Counts, ParseChunks, Span, FieldsAt, ChunkHeader;
    var n, chunks := |img.chunks|, img.chunks + [c];
    HeaderStartFields(file, img.blockSize);
    CountsFields(file, blocks, n + 1);
    ParseOfBody(file, img.blockSize, chunks, n);
    ChunkInFile(file, HEADER_SIZE, chunks, n);
    var pos := HEADER_SIZE + |Body(chunks[..n])|;
    HeaderOfChunk(file, pos, c);
    ChunkHeaderFields(TYPE_RAW, c.reserved, c.blocks, CHUNK_HEADER_SIZE + |c.data|, file, pos);
    LastChunkRejected(file, img.blockSize, n);
  }

  lemma HeaderOfChunk(file: seq<byte>, pos: nat, c: Chunk)
    requires |c.reserved| == 2
    requires pos + |ChunkBytes(c)| <= |file| && file[pos..pos + |ChunkBytes(c)|] == ChunkBytes(c)
    ensures pos + CHUNK_HEADER_SIZE <= |file|
    ensures file[pos..pos + CHUNK_HEADER_SIZE]
         == ChunkHeader(ChunkType(c), c.reserved, c.blocks, CHUNK_HEADER_SIZE + |Payload(c)|)
  {
    var b := ChunkBytes(c);
    assert file[pos..pos + 12] == file[pos..pos + |b|][..12];
  }

  lemma LastChunkRejected(file: seq<byte>, blockSize: nat, n: nat)
    requires ParseChunks(file, blockSize, n).Ok?
    requires var pos := ParseChunks(file, blockSize, n).value.pos;
             && pos + CHUNK_HEADER_SIZE <= |file| && FieldsAt(file, pos).chunkType == TYPE_RAW
             && FieldsAt(file, pos).dataSize != Span(FieldsAt(file, pos).blocks, blockSize)
    ensures ParseChunks(file, blockSize, n + 1) == Raised(ValueError)
  {
  }

  lemma LastChunkMissing(file: seq<byte>, blockSize: nat, n: nat)
    requires ParseChunks(file, blockSize, n).Ok? && ParseChunks(file, blockSize, n).value.pos == |file|
    ensures ParseChunks(file, blockSize, n + 1) == Raised(StructError)
  {
  }

  // ------------------------------------------------ accepted files are stored images

  /** The payload size the chunk's header declares; a payload is shorter only if the file ends inside it. */
  function DeclaredPayload(c: Chunk, blockSize: nat): nat {
    match c
    case Raw(_, blocks, _) => Span(blocks, blockSize)
    case Fill(_, _, _) => 4
    case DontCare(_, _) => 0
    case Crc32(_, _, _) => 4
  }

  function DeclaredEnd(chunks: seq<Chunk>, blockSize: nat): nat {
    if chunks == [] then HEADER_SIZE
    else DeclaredEnd(chunks[..|chunks| - 1], blockSize) + CHUNK_HEADER_SIZE
         + DeclaredPayload(chunks[|chunks| - 1], blockSize)
  }

  lemma FieldsAreHeader(file: seq<byte>, pos: nat)
    requires pos + 12 <= |file|
    ensures var f := FieldsAt(file, pos);
            && f.chunkType < 0x1_0000 && |f.reserved| == 2 && f.blocks < UINT32 && -12 <= f.dataSize
            && f.dataSize + 12 < UINT32
            && file[pos..pos + 12] == ChunkHeader(f.chunkType, f.reserved, f.blocks, f.dataSize + 12)
  {
    Pow256Values();
    LEOfDecode(file[pos..pos + 2]);
    LEOfDecode(file[pos + 4..pos + 8]);
    LEOfDecode(file[pos + 8..pos + 12]);
    SliceJoin(file, pos, pos + 2, pos + 4);
    SliceJoin(file, pos, pos + 4, pos + 8);
    SliceJoin(file, pos, pos + 8, pos + 12);
  }

  /** A parsed chunk is complete, or the file ends inside its payload. */
  lemma ChunkOfParse(file: seq<byte>, blockSize: nat, pos: nat)
    requires ParseChunk(file, blockSize, pos).Ok?
    ensures var (c, pos') := ParseChunk(file, blockSize, pos).value;
            var full := pos + CHUNK_HEADER_SIZE + DeclaredPayload(c, blockSize);
            && (full <= |file| ==> WellFormedChunk(c, blockSize) && pos' == full && file[pos..full] == ChunkBytes(c))
            && (full > |file| ==> !WellFormedChunk(c, blockSize) && pos' >= |file|)
  {
    FieldsAreHeader(file, pos);
    var f := FieldsAt(file, pos);
    var (c, _) := ParseChunk(file, blockSize, pos).value;
    var full := pos + CHUNK_HEADER_SIZE + DeclaredPayload(c, blockSize);
    assert f.dataSize == DeclaredPayload(c, blockSize);
    if full <= |file| {
      assert Payload(c) == file[pos + 12..full];
      SliceJoin(file, pos, pos + 12, full);
    }
  }

  ghost predicate ScannedWhole(file: seq<byte>, blockSize: nat, scan: Scan) {
    && WellFormedChunks(scan.chunks, blockSize)
    && HEADER_SIZE <= scan.pos == DeclaredEnd(scan.chunks, blockSize) <= |file|
    && file[HEADER_SIZE..scan.pos] == Body(scan.chunks)
  }

  ghost predicate ScannedCut(file: seq<byte>, blockSize: nat, scan: Scan) {
    && !WellFormedChunks(scan.chunks, blockSize)
    && scan.pos >= |file| && DeclaredEnd(scan.chunks, blockSize) > |file|
  }

  lemma ScanStep(file: seq<byte>, blockSize: nat, scan: Scan, n: nat)
    requires HEADER_SIZE <= |file| && ParseOneMore(file, blockSize, scan).Ok?
    requires ScannedWhole(file, blockSize, scan) && HEADER_SIZE <= scan.pos
    ensures var next := ParseOneMore(file, blockSize, scan).value;
            HEADER_SIZE <= next.pos && (ScannedWhole(file, blockSize, next) || ScannedCut(file, blockSize, next))
  {
    hide ParseChunk, WellFormedChunk, ChunkBytes;
    ChunkOfParse(file, blockSize, scan.pos);
    var (c, pos') := ParseChunk(file, blockSize, scan.pos).value;
    var next := Scan(scan.chunks + [c], pos');
    assert next.chunks[..|scan.chunks|] == scan.chunks && next.chunks[|scan.chunks|] == c;
    if WellFormedChunk(c, blockSize) {
      SliceJoin(file, HEADER_SIZE, scan.pos, pos');
    }
  }

  lemma {:induction false} ScanInvariant(file: seq<byte>, blockSize: nat, n: nat)
    requires HEADER_SIZE <= |file| && ParseChunks(file, blockSize, n).Ok?
    ensures var scan := ParseChunks(file, blockSize, n).value;
            HEADER_SIZE <= scan.pos && (ScannedWhole(file, blockSize, scan) || ScannedCut(file, blockSize, scan))
  {
    if n > 0 {
      ScanInvariant(file, blockSize, n - 1);
      ScanStep(file, blockSize, ParseChunks(file, blockSize, n - 1).value, n);
    }
  }

  lemma HeaderOfFields(file: seq<byte>)
    requires HEADER_SIZE <= |file| && HasMagic(file) && HeaderError(file).None?
    ensures file[..COUNTS_OFFSET] == HeaderStart(HeaderBlockSize(file))
    ensures file[COUNTS_OFFSET..24] == Counts(HeaderBlocks(file), HeaderChunks(file))
    ensures HeaderBlockSize(file) < UINT32 && HeaderBlocks(file) < UINT32 && HeaderChunks(file) < UINT32
  {
    Pow256Values();
    LEOfDecode(file[0..4]);
    LEOfDecode(file[4..6]);
    LEOfDecode(file[6..8]);
    LEOfDecode(file[8..10]);
    LEOfDecode(file[10..12]);
    LEOfDecode(file[12..16]);
    LEOfDecode(file[16..20]);
    LEOfDecode(file[20..24]);
    SliceJoin(file, 0, 4, 6);
    SliceJoin(file, 0, 6, 8);
    SliceJoin(file, 0, 8, 10);
    SliceJoin(file, 0, 10, 12);
    SliceJoin(file, 0, 12, 16);
    SliceJoin(file, 16, 20, 24);
  }

  /**
   * An accepted sparse file is the stored form of what was parsed exactly when it is as long as
   * its chunk headers declare; acceptance alone does not make sure of that.
   */
  lemma AcceptedIsStoredIff(file: seq<byte>)
    requires ParseFile(file).Sparse?
    ensures var img := ParseFile(file).img;
            && (DeclaredEnd(img.chunks, img.blockSize) == |file| ==> WellFormed(img) && file == Serialize(img))
            && (WellFormed(img) ==> DeclaredEnd(img.chunks, img.blockSize) == |file|)
  {
    var img := ParseFile(file).img;
    var scan := ParseChunks(file, HeaderBlockSize(file), HeaderChunks(file)).value;
    HeaderOfFields(file);
    ScanInvariant(file, HeaderBlockSize(file), HeaderChunks(file));
    if DeclaredEnd(img.chunks, img.blockSize) == |file| {
      assert file[HEADER_SIZE..] == file[HEADER_SIZE..scan.pos];
      StoresIsSerialize(file, img);
    }
  }

  /** A RAW chunk at the end may lose its data unnoticed: these files promise blocks and hold none. */
  lemma CutRawIsAccepted(blockSize: nat, blocks: nat, file: seq<byte>)
    requires blockSize < UINT32 && blocks < UINT32 && CHUNK_HEADER_SIZE + Span(blocks, blockSize) < UINT32
    requires file == Header(blockSize, blocks, 1, Zeros(4))
                   + ChunkHeader(TYPE_RAW, Zeros(2), blocks, CHUNK_HEADER_SIZE + Span(blocks, blockSize))
    ensures ParseFile(file).Sparse?
    ensures ParseFile(file).img.chunks == [Raw(Zeros(2), blocks, [])]
    ensures ParseFile(file).end == |file| + Span(blocks, blockSize)
  {
    hide HeaderError, HasMagic, HeaderBlockSize, HeaderBlocks, HeaderChunks, ParseChunks, ParseChunk,
      ChunkHeader, Header, Span;
    CutRawHeader(blockSize, blocks, file);
    CutRawChunk(blockSize, blocks, file);
    OneChunkScan(file, blockSize, Raw(Zeros(2), blocks, []), 40 + Span(blocks, blockSize));
  }

  lemma CutRawHeader(blockSize: nat, blocks: nat, file: seq<byte>)
    requires blockSize < UINT32 && blocks < UINT32 && CHUNK_HEADER_SIZE + Span(blocks, blockSize) < UINT32
    requires file == Header(blockSize, blocks, 1, Zeros(4))
                   + ChunkHeader(TYPE_RAW, Zeros(2), blocks, CHUNK_HEADER_SIZE + Span(blocks, blockSize))
    ensures HasMagic(file) && HeaderError(file).None? && HeaderBlockSize(file) == blockSize
    ensures HeaderBlocks(file) == blocks && HeaderChunks(file) == 1
    ensures |file| == 40
    ensures file[28..40] == ChunkHeader(TYPE_RAW, Zeros(2), blocks, CHUNK_HEADER_SIZE + Span(blocks, blockSize))
  {
    hide LE, HeaderStart, Counts, ChunkHeader;
    FileInParts(file, HeaderStart(blockSize), Counts(blocks, 1), Zeros(4),
                ChunkHeader(TYPE_RAW, Zeros(2), blocks, CHUNK_HEADER_SIZE + Span(blocks, blockSize)));
    HeaderStartFields(file, blockSize);
    CountsFields(file, blocks, 1);
    assert file[28..40] == file[28..];
  }

  lemma CutRawChunk(blockSize: nat, blocks: nat, file: seq<byte>)
    requires blocks < UINT32 && CHUNK_HEADER_SIZE + Span(blocks, blockSize) < UINT32
    requires |file| == 40
    requires file[28..40] == ChunkHeader(TYPE_RAW, Zeros(2), blocks, CHUNK_HEADER_SIZE + Span(blocks, blockSize))
    ensures ParseChunk(file, blockSize, HEADER_SIZE) == Ok((Raw(Zeros(2), blocks, []), 40 + Span(blocks, blockSize)))
  {
    ChunkHeaderFields(TYPE_RAW, Zeros(2), blocks, CHUNK_HEADER_SIZE + Span(blocks, blockSize), file, 28);
  }

  lemma OneChunkScan(file: seq<byte>, blockSize: nat, c: Chunk, pos: nat)
    requires ParseChunk(file, blockSize, HEADER_SIZE) == Ok((c, pos))
    ensures ScanIs(ParseChunks(file, blockSize, 1), [c], pos) && Blocks([c]) == c.blocks
  {
    hide ParseChunk;
    assert ParseChunks(file, blockSize, 0) == Ok(Scan([], HEADER_SIZE));
    assert [c][..0] == [];
  }
}
