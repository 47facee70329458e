/** Sparse files written out byte by byte, and what opening and reading them gives. */
module SparseFiles {
  import opened Bytes
  import opened Images
  import opened SparseEdit
  import opened SparseFormat
  import opened Wrappers

  // ------------------------------------------------------------------ the file header

  /** The files that are taken for sparse ones are those that begin with these four bytes. */
  lemma MagicBytes(file: seq<byte>)
    requires 4 <= |file|
    ensures HasMagic(file) <==> file[..4] == [0x3a, 0xff, 0x26, 0xed]
  {
    LittleEndian(file[0..4]);
    LittleEndian([0x3a, 0xff, 0x26, 0xed]);
    if HasMagic(file) {
      LEOfDecode(file[..4]);
      LEOfDecode([0x3a, 0xff, 0x26, 0xed]);
      assert file[0..4] == file[..4];
    }
  }

  /** Version 1.0 and headers of 28 and 12 bytes; anything else is refused. */
  lemma VersionBytes(file: seq<byte>)
    requires 28 <= |file|
    ensures HeaderError(file)
         == if file[4..12] == [1, 0, 0, 0, 28, 0, 12, 0] then None else Some(ValueError)
  {
    hide DecodeLE;
    LittleEndian(file[4..6]);
    LittleEndian(file[6..8]);
    LittleEndian(file[8..10]);
    LittleEndian(file[10..12]);
    var s, t := file[4..12], [1, 0, 0, 0, 28, 0, 12, 0];
    assert s[0] == file[4] && s[1] == file[5] && s[2] == file[6] && s[3] == file[7];
    assert s[4] == file[8] && s[5] == file[9] && s[6] == file[10] && s[7] == file[11];
    if HeaderError(file) == None {
      assert forall i :: 0 <= i < 8 ==> s[i] == t[i];
    }
  }

  /** The two bytes that select the kind of a chunk, for every chunk header in every file. */
  lemma TypeBytes(file: seq<byte>, pos: nat)
    requires pos + 12 <= |file|
    ensures FieldsAt(file, pos).chunkType == TYPE_RAW <==> file[pos..pos + 2] == [0xc1, 0xca]
    ensures FieldsAt(file, pos).chunkType == TYPE_FILL <==> file[pos..pos + 2] == [0xc2, 0xca]
    ensures FieldsAt(file, pos).chunkType == TYPE_DONT_CARE <==> file[pos..pos + 2] == [0xc3, 0xca]
    ensures FieldsAt(file, pos).chunkType == TYPE_CRC32 <==> file[pos..pos + 2] == [0xc4, 0xca]
  {
    LittleEndian(file[pos..pos + 2]);
  }

  // ------------------------------------------------------ a file with three kinds of chunk

  /** Blocks of four bytes: one with the data `d`, two filled with `p`, and one nobody cares about. */
  function Mixed(d: seq<byte>, p: seq<byte>): (file: seq<byte>) {
    [0x3a, 0xff, 0x26, 0xed, 1, 0, 0, 0, 28, 0, 12, 0, 4, 0, 0, 0, 4, 0, 0, 0, 3, 0, 0, 0, 0, 0, 0, 0]
    + ([0xc1, 0xca, 0, 0, 1, 0, 0, 0, 16, 0, 0, 0] + d)
    + ([0xc2, 0xca, 0, 0, 2, 0, 0, 0, 16, 0, 0, 0] + p)
    + [0xc3, 0xca, 0, 0, 1, 0, 0, 0, 12, 0, 0, 0]
  }

  function MixedImage(d: seq<byte>, p: seq<byte>): SparseImage {
    SparseImage(4, [0, 0, 0, 0], [Raw([0, 0], 1, d), Fill([0, 0], 2, p), DontCare([0, 0], 1)])
  }

  lemma FieldOf(s: seq<byte>, v: nat)
    requires DecodeLE(s) == v
    ensures LE(v, |s|) == s
  {
    LEOfDecode(s);
  }

  lemma Field2(a: byte, b: byte)
    ensures LE(a + 0x100 * b, 2) == [a, b]
  {
    LittleEndian([a, b]);
    FieldOf([a, b], a + 0x100 * b);
  }

  lemma Field4(a: byte, b: byte, c: byte, d: byte)
    ensures LE(a + 0x100 * b + 0x1_0000 * c + 0x100_0000 * d, 4) == [a, b, c, d]
  {
    LittleEndian([a, b, c, d]);
    FieldOf([a, b, c, d], a + 0x100 * b + 0x1_0000 * c + 0x100_0000 * d);
  }

  /** A header for four-byte blocks, with small counts. */
  lemma HeaderWritten(blocks: byte, chunks: byte)
    ensures Header(4, blocks, chunks, [0, 0, 0, 0])
         == [0x3a, 0xff, 0x26, 0xed, 1, 0, 0, 0, 28, 0, 12, 0, 4, 0, 0, 0, blocks, 0, 0, 0, chunks, 0, 0, 0, 0, 0, 0, 0]
  {
    hide LE;
    Field4(0x3a, 0xff, 0x26, 0xed);
    Field2(1, 0);
    Field2(0, 0);
    Field2(28, 0);
    Field2(12, 0);
    Field4(4, 0, 0, 0);
    Field4(blocks, 0, 0, 0);
    Field4(chunks, 0, 0, 0);
  }

  lemma ChunkHeaderWritten(low: byte, blocks: byte, size: byte)
    ensures ChunkHeader(low + 0xca00, [0, 0], blocks, size) == [low, 0xca, 0, 0, blocks, 0, 0, 0, size, 0, 0, 0]
  {
    hide LE;
    Field2(low, 0xca);
    Field4(blocks, 0, 0, 0);
    Field4(size, 0, 0, 0);
  }

  lemma MixedBody(d: seq<byte>, p: seq<byte>)
    requires |d| == 4 && |p| == 4
    ensures var chunks := MixedImage(d, p).chunks;
            && Body(chunks) == ChunkBytes(chunks[0]) + ChunkBytes(chunks[1]) + ChunkBytes(chunks[2])
            && Blocks(chunks) == 4 && Expand(chunks, 4) == d + p + p + [0, 0, 0, 0]
            && TotalOut(chunks, 4) == 16
  {
    hide ChunkBytes;
    var chunks := MixedImage(d, p).chunks;
    assert chunks[..2][..1] == chunks[..1] && chunks[..1][..0] == [];
    assert Body(chunks[..1]) == [] + ChunkBytes(chunks[0]) && Blocks(chunks[..1]) == 1;
    assert Body(chunks[..2]) == Body(chunks[..1]) + ChunkBytes(chunks[1]) && Blocks(chunks[..2]) == 3;
    SpanIsProduct(1, 4);
    SpanIsProduct(2, 4);
    assert Contents(chunks[0], 4) == d && Contents(chunks[1], 4) == p + p && Contents(chunks[2], 4) == [0, 0, 0, 0];
    assert Expand(chunks[..1], 4) == [] + d && TotalOut(chunks[..1], 4) == 4;
    assert Expand(chunks[..2], 4) == Expand(chunks[..1], 4) + (p + p) && TotalOut(chunks[..2], 4) == 12;
  }

  lemma MixedIsStored(d: seq<byte>, p: seq<byte>)
    requires |d| == 4 && |p| == 4
    ensures Mixed(d, p) == Serialize(MixedImage(d, p)) && WellFormed(MixedImage(d, p))
  {
    hide ChunkHeader, Header, Body, Blocks, ChunkBytes;
    HeaderWritten(4, 3);
    MixedChunks(d, p);
    MixedBody(d, p);
    SpanIsProduct(1, 4);
  }

  lemma MixedChunks(d: seq<byte>, p: seq<byte>)
    requires |d| == 4 && |p| == 4
    ensures ChunkBytes(Raw([0, 0], 1, d)) == [0xc1, 0xca, 0, 0, 1, 0, 0, 0, 16, 0, 0, 0] + d
    ensures ChunkBytes(Fill([0, 0], 2, p)) == [0xc2, 0xca, 0, 0, 2, 0, 0, 0, 16, 0, 0, 0] + p
    ensures ChunkBytes(DontCare([0, 0], 1)) == [0xc3, 0xca, 0, 0, 1, 0, 0, 0, 12, 0, 0, 0]
  {
    hide ChunkHeader;
    ChunkHeaderWritten(0xc1, 1, 16);
    ChunkHeaderWritten(0xc2, 2, 16);
    ChunkHeaderWritten(0xc3, 1, 12);
  }

  /** The parser finds the three chunks. */
  lemma MixedParses(d: seq<byte>, p: seq<byte>)
    requires |d| == 4 && |p| == 4
    ensures ParseFile(Mixed(d, p))
         == Sparse(SparseImage(4, [0, 0, 0, 0], [Raw([0, 0], 1, d), Fill([0, 0], 2, p), DontCare([0, 0], 1)]), 72)
    ensures Supported(Mixed(d, p))
  {
    hide ParseFile, Serialize, DeclaredEnd, WellFormed;
    MixedIsStored(d, p);
    ParseOfSerialize(MixedImage(d, p));
    AcceptedIsStoredIff(Mixed(d, p));
  }

  /** Opening and reading the file gives the data, the pattern twice, and zeros. */
  method ReadMixed(d: seq<byte>, p: seq<byte>)
    returns (h: ImageHandler, all: Result<seq<byte>>, some: Result<seq<byte>>)
    requires |d| == 4 && |p| == 4
    ensures fresh(h) && h.file == Mixed(d, p) && h.isSparse && h.blockSize == 4 && h.imageSize == 16
    ensures all == Ok(d + p + p + [0, 0, 0, 0])
    ensures some == Ok([d[3], p[0], p[1], p[2], p[3], p[0]])
  {
    hide ParseFile, Supported, Mixed, Expand, Describes, TotalOut, ReadAt;
    MixedParses(d, p);
    MixedBody(d, p);
    MixedParts(d, p);
    var r := ImageHandler.Open(Mixed(d, p), false);
    h := r.value;
    assert h.image == MixedImage(d, p);
    ImageSizes(h);
    all := h.Read(16);
    var _ := h.Seek(3);
    some := h.Read(6);
  }

  lemma MixedParts(d: seq<byte>, p: seq<byte>)
    requires |d| == 4 && |p| == 4
    ensures var content := d + p + p + [0, 0, 0, 0];
            ReadAt(content, 0, 16) == content && ReadAt(content, 3, 6) == [d[3], p[0], p[1], p[2], p[3], p[0]]
  {
  }

  lemma ImageSizes(h: ImageHandler)
    requires h.Loaded() && h.isSparse && h.image.chunks != []
    ensures h.blockSize == h.image.blockSize && h.imageSize == TotalOut(h.image.chunks, h.blockSize) && h.chunks != []
    ensures |h.Content()| == h.imageSize
  {
    hide Begins, WellFormed, Table, TotalOut, Body, Expand;
    h.LoadedTable();
    h.ContentSize();
  }

  // ------------------------------------------------------------- two more files

  /** One block of four bytes that nobody cares about. */
  function Hole(): seq<byte> {
    [0x3a, 0xff, 0x26, 0xed, 1, 0, 0, 0, 28, 0, 12, 0, 4, 0, 0, 0, 1, 0, 0, 0, 1, 0, 0, 0, 0, 0, 0, 0,
     0xc3, 0xca, 0, 0, 1, 0, 0, 0, 12, 0, 0, 0]
  }

  method ReadHole() returns (h: ImageHandler, data: Result<seq<byte>>)
    ensures fresh(h) && h.file == Hole() && h.isSparse && h.blockSize == 4 && h.imageSize == 4
    ensures data == Ok([0, 0, 0, 0])
  {
    hide ParseFile, Supported, Serialize, Expand, Describes, TotalOut;
    HoleIsStored();
    var r := ImageHandler.Open(Hole(), false);
    h := r.value;
    assert h.image.chunks == [DontCare(Zeros(2), 1)];
    ImageSizes(h);
    data := h.Read(4);
    assert h.Content()[0..4] == h.Content();
  }

  lemma HoleIsStored()
    ensures ParseFile(Hole()).Sparse? && ParseFile(Hole()).img == SparseImage(4, Zeros(4), [DontCare(Zeros(2), 1)])
    ensures Supported(Hole()) && Expand([DontCare(Zeros(2), 1)], 4) == [0, 0, 0, 0]
    ensures TotalOut([DontCare(Zeros(2), 1)], 4) == 4
  {
    hide ParseFile, DeclaredEnd, ChunkHeader, Header;
    HeaderWritten(1, 1);
    ChunkHeaderWritten(0xc3, 1, 12);
    var chunks := [DontCare(Zeros(2), 1)];
    assert chunks[..0] == [] && Zeros(2) == [0, 0] && Zeros(4) == [0, 0, 0, 0];
    assert Body(chunks) == [] + ChunkBytes(chunks[0]) && Blocks(chunks) == 1;
    var img := SparseImage(4, Zeros(4), chunks);
    assert Hole() == Serialize(img);
    ParseOfSerialize(img);
    AcceptedIsStoredIff(Hole());
    SpanIsProduct(1, 4);
    assert Expand(chunks, 4) == [] + Contents(chunks[0], 4);
  }

  /** A file whose one chunk is a checksum, which counts no block. */
  function Checksum(crc: seq<byte>): seq<byte> {
    [0x3a, 0xff, 0x26, 0xed, 1, 0, 0, 0, 28, 0, 12, 0, 4, 0, 0, 0, 0, 0, 0, 0, 1, 0, 0, 0, 0, 0, 0, 0]
    + ([0xc4, 0xca, 0, 0, 0, 0, 0, 0, 16, 0, 0, 0] + crc)
  }

  lemma ChecksumParses(crc: seq<byte>)
    requires |crc| == 4
    ensures ParseFile(Checksum(crc)) == Sparse(SparseImage(4, [0, 0, 0, 0], [Crc32([0, 0], 0, crc)]), 44)
  {
    hide ParseFile, ChunkHeader, Header;
    HeaderWritten(0, 1);
    ChunkHeaderWritten(0xc4, 0, 16);
    var chunks := [Crc32([0, 0], 0, crc)];
    assert chunks[..0] == [];
    assert Body(chunks) == [] + ChunkBytes(chunks[0]) && Blocks(chunks) == 0;
    var img := SparseImage(4, [0, 0, 0, 0], chunks);
    assert Checksum(crc) == Serialize(img);
    ParseOfSerialize(img);
  }

  /** Any other file of 28 bytes or more is a plain image of 4096-byte blocks. */
  method OpenPlain(file: seq<byte>, readOnly: bool) returns (r: Result<ImageHandler>)
    requires 28 <= |file| && file[..4] != [0x3a, 0xff, 0x26, 0xed]
    ensures r.Ok? && fresh(r.value) && !r.value.isSparse && r.value.blockSize == 4096
    ensures r.value.imageSize == |file| && r.value.Content() == file
  {
    hide ParseSparse, Describes;
    MagicBytes(file);
    r := ImageHandler.Open(file, readOnly);
  }
}
