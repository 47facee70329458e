/** What a sparse image expands to, and how truncating and appending change it, on values. */
module SparseEdit {
  import opened Bytes
  import opened SparseFormat
  import opened Wrappers

  // --------------------------------------------------------------------- expansion

  /** `count` copies of a four-byte string, one after the other. */
  function Repeat(s: seq<byte>, count: nat): (r: seq<byte>)
    requires |s| == 4
    ensures |r| == 4 * count
  {
    seq(4 * count, i requires 0 <= i < 4 * count => s[i % 4])
  }

  function FillBytes(pattern: seq<byte>, n: nat): (r: seq<byte>)
    requires |pattern| == 4
    ensures |r| == n
  {
    seq(n, i requires 0 <= i < n => pattern[i % 4])
  }

  function OutSize(c: Chunk, blockSize: nat): nat {
    Span(c.blocks, blockSize)
  }

  /** The output of one chunk. */
  function Contents(c: Chunk, blockSize: nat): (s: seq<byte>)
    ensures WellFormedChunk(c, blockSize) ==> |s| == OutSize(c, blockSize)
  {
    if c.Raw? then c.data
    else if c.Fill? && |c.pattern| == 4 then FillBytes(c.pattern, OutSize(c, blockSize))
    else Zeros(OutSize(c, blockSize))
  }

  function TotalOut(chunks: seq<Chunk>, blockSize: nat): nat {
    if chunks == [] then 0
    else TotalOut(chunks[..|chunks| - 1], blockSize) + OutSize(chunks[|chunks| - 1], blockSize)
  }

  function Expand(chunks: seq<Chunk>, blockSize: nat): seq<byte> {
    if chunks == [] then []
    else Expand(chunks[..|chunks| - 1], blockSize) + Contents(chunks[|chunks| - 1], blockSize)
  }

  lemma {:induction false} ExpandSize(chunks: seq<Chunk>, blockSize: nat)
    requires WellFormedChunks(chunks, blockSize)
    ensures |Expand(chunks, blockSize)| == TotalOut(chunks, blockSize)
  {
    if chunks != [] {
      var n := |chunks| - 1;
      ExpandSize(chunks[..n], blockSize);
      assert WellFormedChunk(chunks[n], blockSize);
    }
  }

  lemma {:induction false} TotalOutIsBlocks(chunks: seq<Chunk>, blockSize: nat)
    ensures TotalOut(chunks, blockSize) == Span(Blocks(chunks), blockSize)
  {
    if chunks != [] {
      TotalOutIsBlocks(chunks[..|chunks| - 1], blockSize);
      SpanOfSum(Blocks(chunks[..|chunks| - 1]), chunks[|chunks| - 1].blocks, blockSize);
    }
  }

  lemma StepSizes(chunks: seq<Chunk>, blockSize: nat, i: nat)
    requires i < |chunks|
    ensures TotalOut(chunks[..i + 1], blockSize) == TotalOut(chunks[..i], blockSize) + OutSize(chunks[i], blockSize)
    ensures Blocks(chunks[..i + 1]) == Blocks(chunks[..i]) + chunks[i].blocks
  {
    assert chunks[..i + 1][..i] == chunks[..i];
  }

  lemma {:induction false} SizesMonotone(chunks: seq<Chunk>, blockSize: nat, i: nat, j: nat)
    requires i <= j <= |chunks|
    ensures TotalOut(chunks[..i], blockSize) <= TotalOut(chunks[..j], blockSize)
    ensures Blocks(chunks[..i]) <= Blocks(chunks[..j])
    decreases j - i
  {
    hide TotalOut, Blocks;
    if i < j {
      SizesMonotone(chunks, blockSize, i, j - 1);
      StepSizes(chunks, blockSize, j - 1);
    }
  }

  lemma ExpandStep(chunks: seq<Chunk>, blockSize: nat, i: nat)
    requires i < |chunks|
    ensures Expand(chunks[..i + 1], blockSize) == Expand(chunks[..i], blockSize) + Contents(chunks[i], blockSize)
  {
    assert chunks[..i + 1][..i] == chunks[..i];
  }

  ghost predicate IsPrefix(a: seq<byte>, b: seq<byte>) {
    |a| <= |b| && b[..|a|] == a
  }

  lemma PrefixGrows(a: seq<byte>, b: seq<byte>, c: seq<byte>)
    requires IsPrefix(a, b)
    ensures IsPrefix(a, b + c)
  {
    assert (b + c)[..|a|] == b[..|a|];
  }

  lemma {:induction false} ExpandPrefix(chunks: seq<Chunk>, blockSize: nat, i: nat, j: nat)
    requires i <= j <= |chunks|
    ensures IsPrefix(Expand(chunks[..i], blockSize), Expand(chunks[..j], blockSize))
    decreases j - i
  {
    if i < j {
      ExpandPrefix(chunks, blockSize, i, j - 1);
      ExpandStep(chunks, blockSize, j - 1);
      PrefixGrows(Expand(chunks[..i], blockSize), Expand(chunks[..j - 1], blockSize),
                  Contents(chunks[j - 1], blockSize));
    }
  }

  /** The expansion begins with the chunks before `i` and chunk `i` itself. */
  lemma ExpansionBegins(chunks: seq<Chunk>, blockSize: nat, i: nat)
    requires i < |chunks|
    ensures IsPrefix(Expand(chunks[..i], blockSize) + Contents(chunks[i], blockSize), Expand(chunks, blockSize))
  {
    assert chunks[..|chunks|] == chunks;
    ExpandStep(chunks, blockSize, i);
    ExpandPrefix(chunks, blockSize, i + 1, |chunks|);
  }

  lemma PrefixSizes(chunks: seq<Chunk>, blockSize: nat, i: nat)
    requires WellFormedChunks(chunks, blockSize) && i < |chunks|
    ensures |Expand(chunks[..i], blockSize)| == TotalOut(chunks[..i], blockSize)
    ensures |Contents(chunks[i], blockSize)| == OutSize(chunks[i], blockSize)
    ensures |Expand(chunks, blockSize)| == TotalOut(chunks, blockSize)
    ensures TotalOut(chunks[..i], blockSize) + OutSize(chunks[i], blockSize) <= TotalOut(chunks, blockSize)
  {
    ExpandSize(chunks, blockSize);
    ExpandSize(chunks[..i], blockSize);
    assert WellFormedChunk(chunks[i], blockSize);
    assert chunks[..|chunks|] == chunks;
    StepSizes(chunks, blockSize, i);
    SizesMonotone(chunks, blockSize, i + 1, |chunks|);
  }

  /** Bytes `d..d+n` of chunk `i` are the bytes of the expansion that far behind the chunk's offset. */
  lemma ChunkInExpansion(chunks: seq<Chunk>, blockSize: nat, i: nat, d: nat, n: nat, at: nat)
    requires WellFormedChunks(chunks, blockSize) && i < |chunks|
    requires d + n <= OutSize(chunks[i], blockSize) && at == TotalOut(chunks[..i], blockSize)
    ensures at + d + n <= |Expand(chunks, blockSize)| && d + n <= |Contents(chunks[i], blockSize)|
    ensures Expand(chunks, blockSize)[at + d..at + d + n] == Contents(chunks[i], blockSize)[d..d + n]
  {
    PrefixSizes(chunks, blockSize, i);
    ExpansionBegins(chunks, blockSize, i);
    InnerSlice(Expand(chunks, blockSize), Expand(chunks[..i], blockSize), Contents(chunks[i], blockSize), at, d, n);
  }

  lemma InnerSlice(whole: seq<byte>, before: seq<byte>, piece: seq<byte>, at: nat, d: nat, n: nat)
    requires IsPrefix(before + piece, whole) && at == |before| && d + n <= |piece|
    ensures at + d + n <= |whole| && whole[at + d..at + d + n] == piece[d..d + n]
  {
    SliceOfSlice(whole, 0, |before + piece|, |before| + d, |before| + d + n);
    SliceOfSum(before, piece, d, n);
  }

  lemma SliceOfSum(a: seq<byte>, b: seq<byte>, d: nat, n: nat)
    requires d + n <= |b|
    ensures (a + b)[|a| + d..|a| + d + n] == b[d..d + n]
  {
    var x, y := (a + b)[|a| + d..|a| + d + n], b[d..d + n];
    assert forall k :: 0 <= k < n ==> x[k] == y[k];
  }

  // --------------------------------------------------------------- the chunk table

  /** ImageChunk: where a chunk lies in the sparse file and in the output. */
  datatype ImageChunk = ImageChunk(
    chunkType: nat,
    chunkOffset: nat,
    outputOffset: nat,
    outputSize: nat,
    inputOffset: Option<nat>,
    fillData: Option<seq<byte>>)

  function Entry(c: Chunk, blockSize: nat, chunkOffset: nat, outputOffset: nat): ImageChunk {
    ImageChunk(ChunkType(c), chunkOffset, outputOffset, OutSize(c, blockSize),
               if c.Raw? then Some(chunkOffset + CHUNK_HEADER_SIZE) else None,
               if c.Fill? then Some(c.pattern) else None)
  }

  ghost predicate NoCrc(chunks: seq<Chunk>) {
    forall i :: 0 <= i < |chunks| ==> !chunks[i].Crc32?
  }

  /** Chunks the handler can work on. */
  ghost predicate Usable(chunks: seq<Chunk>, blockSize: nat) {
    WellFormedChunks(chunks, blockSize) && NoCrc(chunks)
  }

  /** The table of a body that starts after the file header; CRC32 chunks get no entry. */
  function Table(chunks: seq<Chunk>, blockSize: nat): (t: seq<ImageChunk>) {
    if chunks == [] then []
    else
      Table(chunks[..|chunks| - 1], blockSize)
      + LastEntry(chunks[|chunks| - 1], blockSize, HEADER_SIZE + |Body(chunks[..|chunks| - 1])|,
                  TotalOut(chunks[..|chunks| - 1], blockSize))
  }

  function LastEntry(c: Chunk, blockSize: nat, chunkOffset: nat, outputOffset: nat): seq<ImageChunk> {
    if c.Crc32? then [] else [Entry(c, blockSize, chunkOffset, outputOffset)]
  }

  function Offsets(table: seq<ImageChunk>): (r: seq<nat>)
    ensures |r| == |table| && forall i :: 0 <= i < |r| ==> r[i] == table[i].outputOffset
  {
    seq(|table|, i requires 0 <= i < |table| => table[i].outputOffset)
  }

  function EntryAt(chunks: seq<Chunk>, blockSize: nat, i: nat): ImageChunk
    requires i < |chunks|
  {
    Entry(chunks[i], blockSize, HEADER_SIZE + |Body(chunks[..i])|, TotalOut(chunks[..i], blockSize))
  }

  ghost predicate IsTable(table: seq<ImageChunk>, chunks: seq<Chunk>, blockSize: nat) {
    |table| == |chunks| && forall i :: 0 <= i < |chunks| ==> table[i] == EntryAt(chunks, blockSize, i)
  }

  /** Without CRC32 chunks, entry `i` describes chunk `i`. */
  lemma {:induction false} TableEntries(chunks: seq<Chunk>, blockSize: nat)
    requires NoCrc(chunks)
    ensures IsTable(Table(chunks, blockSize), chunks, blockSize)
  {
    if chunks != [] {
      var n := |chunks| - 1;
      TableEntries(chunks[..n], blockSize);
      assert !chunks[n].Crc32?;
      TableGrows(Table(chunks[..n], blockSize), Table(chunks, blockSize), chunks, blockSize);
    }
  }

  lemma TableGrows(t: seq<ImageChunk>, t': seq<ImageChunk>, chunks: seq<Chunk>, blockSize: nat)
    requires chunks != [] && IsTable(t, chunks[..|chunks| - 1], blockSize)
    requires t' == t + [EntryAt(chunks, blockSize, |chunks| - 1)]
    ensures IsTable(t', chunks, blockSize)
  {
    var n := |chunks| - 1;
    forall i | 0 <= i < |chunks|
      ensures t'[i] == EntryAt(chunks, blockSize, i)
    {
      if i < n {
        assert chunks[..n][..i] == chunks[..i];
        assert t[i] == EntryAt(chunks[..n], blockSize, i);
      }
    }
  }

  ghost predicate Sorted(s: seq<nat>) {
    forall i, j :: 0 <= i <= j < |s| ==> s[i] <= s[j]
  }

  lemma OffsetsSorted(table: seq<ImageChunk>, chunks: seq<Chunk>, blockSize: nat)
    requires IsTable(table, chunks, blockSize)
    ensures Sorted(Offsets(table))
  {
    forall i, j | 0 <= i <= j < |chunks|
      ensures Offsets(table)[i] <= Offsets(table)[j]
    {
      SizesMonotone(chunks, blockSize, i, j);
    }
  }

  /** bisect.bisect_right on a sorted list. */
  function BisectRight(s: seq<nat>, x: nat): (r: nat)
    requires Sorted(s)
    ensures r <= |s|
    ensures forall i :: 0 <= i < r ==> s[i] <= x
    ensures forall i :: r <= i < |s| ==> x < s[i]
  {
    if s == [] then 0
    else if s[|s| - 1] <= x then |s|
    else BisectRight(s[..|s| - 1], x)
  }

  /** How many chunks are left of a file whose chunks' output begins at these offsets when it is cut at `size`. */
  function KeptChunks(offsets: seq<nat>, size: nat): (n: nat)
    ensures n <= |offsets|
  {
    if offsets == [] then 0
    else
      var n := |offsets| - 1;
      if offsets[n] < size then n + 1 else if offsets[n] == size then n else KeptChunks(offsets[..n], size)
  }

  lemma {:induction false} KeptByBisection(offsets: seq<nat>, size: nat)
    requires Sorted(offsets)
    ensures var i := BisectRight(offsets, size);
            KeptChunks(offsets, size) == if i > 0 && offsets[i - 1] == size then i - 1 else i
  {
    if offsets != [] {
      KeptByBisection(offsets[..|offsets| - 1], size);
    }
  }

  /** A cut at the end of the old content drops what was appended behind it, if the first chunk of that is not empty. */
  lemma KeptInFront(offsets: seq<nat>, size: nat, rest: seq<nat>)
    requires rest != [] && rest[0] == size && forall i :: 1 <= i < |rest| ==> size < rest[i]
    ensures KeptChunks(offsets + rest, size) == |offsets|
  {
    var n := |rest| - 1;
    assert (offsets + rest)[..|offsets| + n] == offsets + rest[..n];
    if n > 0 {
      KeptInFront(offsets, size, rest[..n]);
    }
  }

  /** Chunk `i` covers output position `pos`; only the last chunk covers its own end. */
  ghost predicate Covers(chunks: seq<Chunk>, blockSize: nat, i: nat, pos: nat) {
    && i < |chunks|
    && TotalOut(chunks[..i], blockSize) <= pos
    && (i + 1 < |chunks| ==> pos < TotalOut(chunks[..i + 1], blockSize))
  }

  lemma BisectFindsChunk(table: seq<ImageChunk>, chunks: seq<Chunk>, blockSize: nat, pos: nat)
    requires IsTable(table, chunks, blockSize) && chunks != [] && Sorted(Offsets(table))
    ensures BisectRight(Offsets(table), pos) > 0
    ensures Covers(chunks, blockSize, BisectRight(Offsets(table), pos) - 1, pos)
  {
    assert chunks[..0] == [];
    assert Offsets(table)[0] == EntryAt(chunks, blockSize, 0).outputOffset == 0;
    var r := BisectRight(Offsets(table), pos);
    assert Offsets(table)[r - 1] == EntryAt(chunks, blockSize, r - 1).outputOffset;
    if r < |chunks| {
      assert Offsets(table)[r] == EntryAt(chunks, blockSize, r).outputOffset;
    }
  }

  // ------------------------------------------------------------ reading from a chunk

  lemma FillSlice(pattern: seq<byte>, size: nat, d: nat, n: nat)
    requires |pattern| == 4 && d + n <= size
    ensures d % 4 + n <= |Repeat(pattern, n / 4 + 2)|
    ensures Repeat(pattern, n / 4 + 2)[d % 4..d % 4 + n] == FillBytes(pattern, size)[d..d + n]
  {
    var all, o := Repeat(pattern, n / 4 + 2), d % 4;
    assert |all| == 4 * (n / 4 + 2);
    var a, b := all[o..o + n], FillBytes(pattern, size)[d..d + n];
    forall k | 0 <= k < n
      ensures a[k] == b[k]
    {
      SameResidue(d, k);
      assert a[k] == all[o + k] && b[k] == FillBytes(pattern, size)[d + k];
    }
  }

  lemma SameResidue(d: nat, k: nat)
    ensures (d % 4 + k) % 4 == (d + k) % 4
  {
  }

  /** What reading `n` bytes at `d` inside a chunk yields: file bytes, the repeated pattern, or zeros. */
  function ReadChunk(file: seq<byte>, e: ImageChunk, d: nat, n: nat): seq<byte> {
    if e.chunkType == TYPE_RAW && e.inputOffset.Some? then SparseFormat.ReadAt(file, e.inputOffset.value + d, n)
    else if e.chunkType == TYPE_FILL && e.fillData.Some? && |e.fillData.value| == 4 then
      Repeat(e.fillData.value, n / 4 + 2)[d % 4..d % 4 + n]
    else Zeros(n)
  }

  lemma ReadChunkIsContents(file: seq<byte>, chunks: seq<Chunk>, blockSize: nat, i: nat, d: nat, n: nat)
    requires WellFormedChunks(chunks, blockSize) && NoCrc(chunks) && i < |chunks|
    requires HEADER_SIZE <= |file| && file[HEADER_SIZE..] == Body(chunks)
    requires d + n <= OutSize(chunks[i], blockSize)
    ensures d + n <= |Contents(chunks[i], blockSize)|
    ensures ReadChunk(file, EntryAt(chunks, blockSize, i), d, n) == Contents(chunks[i], blockSize)[d..d + n]
  {
    hide Body, Zeros;
    assert WellFormedChunk(chunks[i], blockSize) && !chunks[i].Crc32?;
    match chunks[i]
    case Raw(_, _, _) => RawSlice(file, chunks, blockSize, i, d, n);
    case Fill(_, _, pattern) => FillSlice(pattern, OutSize(chunks[i], blockSize), d, n);
    case DontCare(_, _) => ZeroSlice(OutSize(chunks[i], blockSize), d, n);
  }

  lemma ZeroSlice(size: nat, d: nat, n: nat)
    requires d + n <= size
    ensures Zeros(n) == Zeros(size)[d..d + n]
  {
  }

  /** Reading through the table gives the bytes of the expansion. */
  lemma ReadChunkIsExpansion(file: seq<byte>, chunks: seq<Chunk>, blockSize: nat, i: nat, d: nat, n: nat, at: nat)
    requires Usable(chunks, blockSize) && i < |chunks|
    requires HEADER_SIZE <= |file| && file[HEADER_SIZE..] == Body(chunks)
    requires d + n <= OutSize(chunks[i], blockSize) && at == TotalOut(chunks[..i], blockSize)
    ensures at + d + n <= |Expand(chunks, blockSize)|
    ensures ReadChunk(file, EntryAt(chunks, blockSize, i), d, n) == Expand(chunks, blockSize)[at + d..at + d + n]
  {
    ChunkInExpansion(chunks, blockSize, i, d, n, at);
    ReadChunkIsContents(file, chunks, blockSize, i, d, n);
  }

  lemma RawSlice(file: seq<byte>, chunks: seq<Chunk>, blockSize: nat, i: nat, d: nat, n: nat)
    requires WellFormedChunks(chunks, blockSize) && i < |chunks| && chunks[i].Raw?
    requires HEADER_SIZE <= |file| && file[HEADER_SIZE..] == Body(chunks)
    requires d + n <= |chunks[i].data|
    ensures SparseFormat.ReadAt(file, HEADER_SIZE + |Body(chunks[..i])| + CHUNK_HEADER_SIZE + d, n)
            == chunks[i].data[d..d + n]
  {
    hide Body, ChunkHeader;
    ChunkInFile(file, HEADER_SIZE, chunks, i);
    var c := chunks[i];
    DataSlice(file, HEADER_SIZE + |Body(chunks[..i])|,
              ChunkHeader(ChunkType(c), c.reserved, c.blocks, CHUNK_HEADER_SIZE + |Payload(c)|), Payload(c), d, n);
  }

  lemma DataSlice(file: seq<byte>, pos: nat, header: seq<byte>, data: seq<byte>, d: nat, n: nat)
    requires pos + |header + data| <= |file| && file[pos..pos + |header + data|] == header + data && d + n <= |data|
    ensures file[pos + |header| + d..pos + |header| + d + n] == data[d..d + n]
  {
    SliceOfSlice(file, pos, pos + |header + data|, |header| + d, |header| + d + n);
    SliceBehind(header, data, d, n);
  }

  lemma SliceBehind(header: seq<byte>, data: seq<byte>, d: nat, n: nat)
    requires d + n <= |data|
    ensures (header + data)[|header| + d..|header| + d + n] == data[d..d + n]
  {
    assert (header + data)[|header| + d..|header| + d + n] == data[d..d + n];
  }

  // ---------------------------------------------------------------------- truncating

  /** The chunk cut down to its first `blocks` blocks, as truncate() rewrites it. */
  function Shrunk(c: Chunk, blocks: nat, blockSize: nat): Chunk {
    match c
    case Raw(_, _, data) =>
      Raw(Zeros(2), blocks, if Span(blocks, blockSize) <= |data| then data[..Span(blocks, blockSize)] else data)
    case Fill(_, _, pattern) => Fill(Zeros(2), blocks, pattern)
    case DontCare(_, _) => DontCare(Zeros(2), blocks)
    case Crc32(_, _, crc) => Crc32(Zeros(2), blocks, crc)
  }

  lemma ShrunkFacts(c: Chunk, blocks: nat, blockSize: nat)
    requires WellFormedChunk(c, blockSize) && !c.Crc32? && Span(blocks, blockSize) <= OutSize(c, blockSize)
    requires blocks <= c.blocks
    ensures WellFormedChunk(Shrunk(c, blocks, blockSize), blockSize) && !Shrunk(c, blocks, blockSize).Crc32?
    ensures OutSize(Shrunk(c, blocks, blockSize), blockSize) == Span(blocks, blockSize) <= |Contents(c, blockSize)|
    ensures Contents(Shrunk(c, blocks, blockSize), blockSize) == Contents(c, blockSize)[..Span(blocks, blockSize)]
    ensures |Payload(Shrunk(c, blocks, blockSize))| <= |Payload(c)|
    ensures Payload(Shrunk(c, blocks, blockSize)) == Payload(c)[..|Payload(Shrunk(c, blocks, blockSize))|]
  {
  }

  /** The chunks up to `keep` blocks into chunk `i`. */
  function CutChunks(chunks: seq<Chunk>, blockSize: nat, i: nat, keep: nat): seq<Chunk>
    requires i < |chunks|
  {
    if keep == 0 then chunks[..i] else chunks[..i] + [Shrunk(chunks[i], keep, blockSize)]
  }

  lemma AddedChunk(chunks: seq<Chunk>, c: Chunk, blockSize: nat)
    ensures Expand(chunks + [c], blockSize) == Expand(chunks, blockSize) + Contents(c, blockSize)
    ensures Body(chunks + [c]) == Body(chunks) + ChunkBytes(c)
    ensures Blocks(chunks + [c]) == Blocks(chunks) + c.blocks
  {
    assert (chunks + [c])[..|chunks|] == chunks;
  }

  lemma OffsetsAppended(chunks: seq<Chunk>, c: Chunk, blockSize: nat)
    requires !c.Crc32?
    ensures Offsets(Table(chunks + [c], blockSize)) == Offsets(Table(chunks, blockSize)) + [TotalOut(chunks, blockSize)]
  {
    assert (chunks + [c])[..|chunks|] == chunks;
  }

  lemma AddedChunkUsable(chunks: seq<Chunk>, c: Chunk, blockSize: nat)
    requires Usable(chunks, blockSize) && WellFormedChunk(c, blockSize) && !c.Crc32?
    ensures Usable(chunks + [c], blockSize)
  {
  }

  lemma PrefixUsable(chunks: seq<Chunk>, blockSize: nat, i: nat)
    requires Usable(chunks, blockSize) && i <= |chunks|
    ensures Usable(chunks[..i], blockSize)
  {
  }

  lemma PrefixJoin(whole: seq<byte>, before: seq<byte>, piece: seq<byte>, n: nat)
    requires IsPrefix(before + piece, whole) && n <= |piece|
    ensures |before| + n <= |whole| && whole[..|before| + n] == before + piece[..n]
  {
    SliceOfSlice(whole, 0, |before + piece|, 0, |before| + n);
    assert (before + piece)[..|before| + n] == before + piece[..n];
  }

  lemma CutUsable(chunks: seq<Chunk>, blockSize: nat, i: nat, keep: nat)
    requires Usable(chunks, blockSize) && i < |chunks| && keep <= chunks[i].blocks
    requires Span(keep, blockSize) <= OutSize(chunks[i], blockSize)
    ensures Usable(CutChunks(chunks, blockSize, i, keep), blockSize)
    ensures Blocks(CutChunks(chunks, blockSize, i, keep)) == Blocks(chunks[..i]) + keep
  {
    PrefixUsable(chunks, blockSize, i);
    if keep > 0 {
      assert WellFormedChunk(chunks[i], blockSize) && !chunks[i].Crc32?;
      ShrunkFacts(chunks[i], keep, blockSize);
      AddedChunkUsable(chunks[..i], Shrunk(chunks[i], keep, blockSize), blockSize);
      AddedChunk(chunks[..i], Shrunk(chunks[i], keep, blockSize), blockSize);
    }
  }

  lemma ExpansionUpTo(chunks: seq<Chunk>, blockSize: nat, i: nat, n: nat, size: nat)
    requires WellFormedChunks(chunks, blockSize) && i < |chunks| && n <= OutSize(chunks[i], blockSize)
    requires size == TotalOut(chunks[..i], blockSize) + n
    ensures n <= |Contents(chunks[i], blockSize)| && size <= |Expand(chunks, blockSize)|
    ensures Expand(chunks, blockSize)[..size] == Expand(chunks[..i], blockSize) + Contents(chunks[i], blockSize)[..n]
  {
    PrefixSizes(chunks, blockSize, i);
    ExpansionBegins(chunks, blockSize, i);
    PrefixJoin(Expand(chunks, blockSize), Expand(chunks[..i], blockSize), Contents(chunks[i], blockSize), n);
  }

  /** Truncation inside or at the start of chunk `i` keeps exactly the prefix of the expansion. */
  lemma CutExpands(chunks: seq<Chunk>, blockSize: nat, i: nat, keep: nat, n: nat, size: nat)
    requires Usable(chunks, blockSize) && i < |chunks| && keep <= chunks[i].blocks && n <= OutSize(chunks[i], blockSize)
    requires n == Span(keep, blockSize) && size == TotalOut(chunks[..i], blockSize) + n
    ensures size <= |Expand(chunks, blockSize)|
    ensures Expand(CutChunks(chunks, blockSize, i, keep), blockSize) == Expand(chunks, blockSize)[..size]
  {
    ExpansionUpTo(chunks, blockSize, i, n, size);
    CutContents(chunks, blockSize, i, keep, n);
  }

  lemma CutContents(chunks: seq<Chunk>, blockSize: nat, i: nat, keep: nat, n: nat)
    requires Usable(chunks, blockSize) && i < |chunks| && keep <= chunks[i].blocks && n <= OutSize(chunks[i], blockSize)
    requires n == Span(keep, blockSize) && n <= |Contents(chunks[i], blockSize)|
    ensures Expand(CutChunks(chunks, blockSize, i, keep), blockSize)
         == Expand(chunks[..i], blockSize) + Contents(chunks[i], blockSize)[..n]
  {
    assert WellFormedChunk(chunks[i], blockSize) && !chunks[i].Crc32?;
    if keep > 0 {
      ReplacedContents(chunks[..i], chunks[i], blockSize, keep, n);
    } else {
      EmptySlice(Expand(chunks[..i], blockSize), Contents(chunks[i], blockSize));
    }
  }

  lemma ReplacedContents(before: seq<Chunk>, c: Chunk, blockSize: nat, keep: nat, n: nat)
    requires WellFormedChunk(c, blockSize) && !c.Crc32? && keep <= c.blocks
    requires n == Span(keep, blockSize) <= OutSize(c, blockSize)
    ensures n <= |Contents(c, blockSize)|
    ensures Expand(before + [Shrunk(c, keep, blockSize)], blockSize)
            == Expand(before, blockSize) + Contents(c, blockSize)[..n]
  {
    ShrunkContents(c, keep, blockSize, n);
    AddedChunk(before, Shrunk(c, keep, blockSize), blockSize);
    SumOfEqual(Expand(before, blockSize), Contents(Shrunk(c, keep, blockSize), blockSize), Contents(c, blockSize)[..n]);
  }

  lemma ShrunkContents(c: Chunk, keep: nat, blockSize: nat, n: nat)
    requires WellFormedChunk(c, blockSize) && !c.Crc32? && keep <= c.blocks
    requires n == Span(keep, blockSize) <= OutSize(c, blockSize)
    ensures n <= |Contents(c, blockSize)|
    ensures Contents(Shrunk(c, keep, blockSize), blockSize) == Contents(c, blockSize)[..n]
  {
    ShrunkFacts(c, keep, blockSize);
  }

  lemma SumOfEqual(a: seq<byte>, x: seq<byte>, y: seq<byte>)
    requires x == y
    ensures a + x == a + y
  {
  }

  lemma EmptySlice(a: seq<byte>, b: seq<byte>)
    ensures a + b[..0] == a
  {
  }

  // ------------------------------------------------------------------ the file's bytes

  /** seek(at) and write(data) in a file that reaches at least to `at`. */
  function WriteAt(file: seq<byte>, at: nat, data: seq<byte>): (r: seq<byte>)
    requires at <= |file|
    ensures |r| == if at + |data| <= |file| then |file| else at + |data|
  {
    if at + |data| <= |file| then Write(file, at, data) else file[..at] + data
  }

  /** A file that holds the header (but for its two counts) and the chunks, and maybe more. */
  ghost predicate Begins(file: seq<byte>, img: SparseImage) {
    && |img.checksum| == 4 && HEADER_SIZE + |Body(img.chunks)| <= |file|
    && file[..COUNTS_OFFSET] == HeaderStart(img.blockSize)
    && file[24..HEADER_SIZE] == img.checksum
    && file[HEADER_SIZE..HEADER_SIZE + |Body(img.chunks)|] == Body(img.chunks)
  }

  /** Rewriting the counts and cutting behind the chunks leaves a stored image. */
  lemma CountsAndCut(file: seq<byte>, img: SparseImage, blocks: nat, chunks: nat)
    requires Begins(file, img)
    ensures Stores(Write(file, COUNTS_OFFSET, Counts(blocks, chunks))[..HEADER_SIZE + |Body(img.chunks)|], img,
                   blocks, chunks)
  {
    var r := Write(file, COUNTS_OFFSET, Counts(blocks, chunks));
    var end := HEADER_SIZE + |Body(img.chunks)|;
    CountsWritten(file, Counts(blocks, chunks), end);
  }

  lemma CountsWritten(file: seq<byte>, counts: seq<byte>, end: nat)
    requires |counts| == 8 && 28 <= end <= |file|
    ensures var r := Write(file, 16, counts)[..end];
            && r[..16] == file[..16] && r[16..24] == counts && r[24..28] == file[24..28] && r[28..] == file[28..end]
  {
    var r := Write(file, 16, counts)[..end];
    assert forall k :: 0 <= k < end ==> r[k] == if 16 <= k < 24 then counts[k - 16] else file[k];
    assert r[28..] == file[28..end];
    assert r[24..28] == file[24..28];
    assert r[16..24] == counts;
  }

  ghost predicate CanKeep(chunks: seq<Chunk>, blockSize: nat, i: nat, keep: nat) {
    && Usable(chunks, blockSize) && i < |chunks|
    && 0 < keep <= chunks[i].blocks && Span(keep, blockSize) <= OutSize(chunks[i], blockSize)
  }

  /** Rewriting the header of chunk `i` in place turns it into its shrunken form. */
  lemma HeaderRewritten(file: seq<byte>, img: SparseImage, i: nat, keep: nat)
    requires CanKeep(img.chunks, img.blockSize, i, keep)
    requires Begins(file, img) && |file| == HEADER_SIZE + |Body(img.chunks)|
    ensures HEADER_SIZE + |Body(img.chunks[..i])| + CHUNK_HEADER_SIZE <= |file|
    ensures Begins(Write(file, HEADER_SIZE + |Body(img.chunks[..i])|, ShrunkHeader(img.chunks[i], keep, img.blockSize)),
                   img.(chunks := CutChunks(img.chunks, img.blockSize, i, keep)))
  {
    hide Begins, CutChunks, Body, ShrunkHeader;
    BodyRewritten(file, img, i, keep);
    FrontKept(file, HEADER_SIZE + |Body(img.chunks[..i])|, ShrunkHeader(img.chunks[i], keep, img.blockSize));
    BeginsSame(file, Write(file, HEADER_SIZE + |Body(img.chunks[..i])|,
                           ShrunkHeader(img.chunks[i], keep, img.blockSize)),
               img, CutChunks(img.chunks, img.blockSize, i, keep));
  }

  lemma BeginsSame(file: seq<byte>, file': seq<byte>, img: SparseImage, chunks: seq<Chunk>)
    requires Begins(file, img) && HEADER_SIZE + |Body(chunks)| <= |file'|
    requires file'[..COUNTS_OFFSET] == file[..COUNTS_OFFSET] && file'[24..HEADER_SIZE] == file[24..HEADER_SIZE]
    requires file'[HEADER_SIZE..HEADER_SIZE + |Body(chunks)|] == Body(chunks)
    ensures Begins(file', img.(chunks := chunks))
  {
  }

  lemma BodyRewritten(file: seq<byte>, img: SparseImage, i: nat, keep: nat)
    requires CanKeep(img.chunks, img.blockSize, i, keep)
    requires Begins(file, img) && |file| == HEADER_SIZE + |Body(img.chunks)|
    ensures HEADER_SIZE + |Body(img.chunks[..i])| + CHUNK_HEADER_SIZE <= |file|
    ensures HEADER_SIZE + |Body(CutChunks(img.chunks, img.blockSize, i, keep))| <= |file|
    ensures Write(file, HEADER_SIZE + |Body(img.chunks[..i])|, ShrunkHeader(img.chunks[i], keep, img.blockSize))
              [HEADER_SIZE..HEADER_SIZE + |Body(CutChunks(img.chunks, img.blockSize, i, keep))|]
         == Body(CutChunks(img.chunks, img.blockSize, i, keep))
  {
    hide Write, CutChunks, Body, ShrunkHeader, ChunkBytes;
    assert WellFormedChunk(img.chunks[i], img.blockSize) && !img.chunks[i].Crc32?;
    BodyThrough(file, img, i);
    CutBody(img.chunks, img.blockSize, i, keep);
    BodyOverwritten(file, Body(img.chunks[..i]), img.chunks[i], ShrunkHeader(img.chunks[i], keep, img.blockSize),
                    |Payload(Shrunk(img.chunks[i], keep, img.blockSize))|);
  }

  lemma BodyOverwritten(file: seq<byte>, before: seq<byte>, c: Chunk, header: seq<byte>, n: nat)
    requires |c.reserved| == 2 && |header| == CHUNK_HEADER_SIZE && n <= |Payload(c)|
    requires HEADER_SIZE + |before| + |ChunkBytes(c)| <= |file|
    requires file[HEADER_SIZE..HEADER_SIZE + |before| + |ChunkBytes(c)|] == before + ChunkBytes(c)
    ensures var r := Write(file, HEADER_SIZE + |before|, header);
            r[HEADER_SIZE..HEADER_SIZE + |before| + CHUNK_HEADER_SIZE + n] == before + (header + Payload(c)[..n])
  {
    Overwritten(file, before, ChunkHeader(ChunkType(c), c.reserved, c.blocks, CHUNK_HEADER_SIZE + |Payload(c)|),
                Payload(c), header, n);
  }

  lemma FrontKept(file: seq<byte>, at: nat, data: seq<byte>)
    requires 28 <= at && at + |data| <= |file|
    ensures var r := Write(file, at, data);
            r[..16] == file[..16] && r[24..28] == file[24..28]
  {
  }

  lemma BodyThrough(file: seq<byte>, img: SparseImage, i: nat)
    requires i < |img.chunks|
    requires Begins(file, img) && |file| == HEADER_SIZE + |Body(img.chunks)|
    ensures HEADER_SIZE + |Body(img.chunks[..i])| + |ChunkBytes(img.chunks[i])| <= |file|
    ensures file[HEADER_SIZE..HEADER_SIZE + |Body(img.chunks[..i])| + |ChunkBytes(img.chunks[i])|]
         == Body(img.chunks[..i]) + ChunkBytes(img.chunks[i])
  {
    BodyPrefix(img.chunks, i + 1);
    BodyStep(img.chunks, i);
    PartialSlice(file, HEADER_SIZE, Body(img.chunks), Body(img.chunks[..i]) + ChunkBytes(img.chunks[i]));
  }

  lemma PartialSlice(file: seq<byte>, base: nat, body: seq<byte>, part: seq<byte>)
    requires |file| == base + |body| && file[base..] == body && |part| <= |body| && body[..|part|] == part
    ensures file[base..base + |part|] == part
  {
    SliceOfSlice(file, base, |file|, 0, |part|);
  }

  lemma CutBody(chunks: seq<Chunk>, blockSize: nat, i: nat, keep: nat)
    requires CanKeep(chunks, blockSize, i, keep)
    ensures |Payload(Shrunk(chunks[i], keep, blockSize))| <= |Payload(chunks[i])|
    ensures Body(CutChunks(chunks, blockSize, i, keep))
         == Body(chunks[..i]) + (ShrunkHeader(chunks[i], keep, blockSize)
                                 + Payload(chunks[i])[..|Payload(Shrunk(chunks[i], keep, blockSize))|])
  {
    assert WellFormedChunk(chunks[i], blockSize) && !chunks[i].Crc32?;
    ShrunkFacts(chunks[i], keep, blockSize);
    AddedChunk(chunks[..i], Shrunk(chunks[i], keep, blockSize), blockSize);
  }

  function ShrunkHeader(c: Chunk, keep: nat, blockSize: nat): (h: seq<byte>)
    ensures |h| == CHUNK_HEADER_SIZE
  {
    ChunkHeader(ChunkType(c), Zeros(2), keep, CHUNK_HEADER_SIZE + |Payload(Shrunk(c, keep, blockSize))|)
  }

  lemma Overwritten(file: seq<byte>, before: seq<byte>, header: seq<byte>, data: seq<byte>, header': seq<byte>, n: nat)
    requires |header| == |header'| && n <= |data| && 28 + |before| + |header| + |data| <= |file|
    requires file[28..28 + |before| + |header| + |data|] == before + (header + data)
    ensures var r := Write(file, 28 + |before|, header');
            && r[..28] == file[..28]
            && r[28..28 + |before| + |header| + n] == before + (header' + data[..n])
  {
    var r := Write(file, 28 + |before|, header');
    var whole := before + (header + data);
    var a, b := r[28..28 + |before| + |header| + n], before + (header' + data[..n]);
    forall k | 0 <= k < |a|
      ensures a[k] == b[k]
    {
      assert a[k] == r[28 + k];
      assert file[28 + k] == file[28..28 + |before| + |header| + |data|][k] == whole[k];
    }
  }

  /** Rewriting the counts and writing one more chunk at the end. */
  lemma ChunkAppended(file: seq<byte>, img: SparseImage, c: Chunk, blocks: nat, chunks: nat)
    requires Begins(file, img) && |file| == HEADER_SIZE + |Body(img.chunks)|
    ensures Stores(Write(file, COUNTS_OFFSET, Counts(blocks, chunks)) + ChunkBytes(c), img.(chunks := img.chunks + [c]),
                   blocks, chunks)
  {
    CountsWritten(file, Counts(blocks, chunks), |file|);
    var r := Write(file, COUNTS_OFFSET, Counts(blocks, chunks));
    assert r[..|file|] == r && file[HEADER_SIZE..|file|] == Body(img.chunks);
    AddedChunk(img.chunks, c, img.blockSize);
    PartsOfLonger(r, ChunkBytes(c));
  }

  lemma PartsOfLonger(a: seq<byte>, b: seq<byte>)
    requires |a| >= 28
    ensures (a + b)[..16] == a[..16] && (a + b)[16..24] == a[16..24] && (a + b)[24..28] == a[24..28]
    ensures (a + b)[28..] == a[28..] + b
  {
  }

  lemma {:induction false} BodyIsDeclared(chunks: seq<Chunk>, blockSize: nat)
    requires WellFormedChunks(chunks, blockSize)
    ensures HEADER_SIZE + |Body(chunks)| == DeclaredEnd(chunks, blockSize)
  {
    if chunks != [] {
      BodyIsDeclared(chunks[..|chunks| - 1], blockSize);
    }
  }

  /** The cursor at the start of a turn that succeeds is where the table says the chunk lies. */
  lemma TurnStart(file: seq<byte>, blockSize: nat, n: nat)
    requires HEADER_SIZE <= |file| && ParseChunks(file, blockSize, n).Ok?
    requires ParseChunk(file, blockSize, ParseChunks(file, blockSize, n).value.pos).Ok?
    ensures ParseChunks(file, blockSize, n).value.pos
            == HEADER_SIZE + |Body(ParseChunks(file, blockSize, n).value.chunks)|
  {
    ScanInvariant(file, blockSize, n);
    BodyIsDeclared(ParseChunks(file, blockSize, n).value.chunks, blockSize);
  }
}
