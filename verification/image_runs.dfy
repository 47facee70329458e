/** Runs of ImageHandler operations against the same operations on a flat byte string. */
module ImageRuns {
  import opened Bytes
  import opened Images
  import opened SparseEdit
  import opened SparseFormat
  import opened Wrappers

  datatype Op =
    | Seek(offset: int)
    | Tell
    | Read(size: nat)
    | Truncate(size: nat)
    | AppendRaw(data: seq<byte>)
    | AppendFill(pattern: seq<byte>, fillSize: int)
    | AppendDontCare(numBytes: int)

  datatype Reply = Done | Position(pos: nat) | Data(data: seq<byte>) | Failed(error: Error)

  /** What a caller can observe: the unsparsified content and the read cursor. */
  datatype View = View(content: seq<byte>, pos: nat)

  /** The operation on a flat byte string. */
  function FlatStep(v: View, op: Op): (View, Reply) {
    match op
    case Seek(offset) => if offset < 0 then (v, Failed(RuntimeError)) else (View(v.content, offset), Done)
    case Tell => (v, Position(v.pos))
    case Read(size) =>
      var data := ReadAt(v.content, v.pos, size);
      (View(v.content, v.pos + |data|), Data(data))
    case Truncate(size) => (View(Resize(v.content, size), 0), Done)
    case AppendRaw(data) => (View(v.content + data, 0), Done)
    case AppendFill(pattern, size) =>
      (View(v.content + (if |pattern| == 4 && size >= 0 then FillBytes(pattern, size) else []), 0), Done)
    case AppendDontCare(numBytes) =>
      if |v.content| + numBytes < 0 then (v, Failed(OSError))
      else (View(Resize(v.content, |v.content| + numBytes), 0), Done)
  }

  function FlatRun(v: View, ops: seq<Op>): (View, seq<Reply>)
    decreases |ops|
  {
    if ops == [] then (v, [])
    else
      var (v', reply) := FlatStep(v, ops[0]);
      var (v'', replies) := FlatRun(v', ops[1..]);
      (v'', [reply] + replies)
  }

  /** What the methods assert about their arguments. */
  predicate Legal(op: Op, blockSize: nat)
    requires blockSize > 0
  {
    match op
    case AppendRaw(data) => |data| % blockSize == 0
    case AppendFill(pattern, size) => |pattern| == 4 && size % 4 == 0 && size % blockSize == 0
    case AppendDontCare(numBytes) => numBytes % blockSize == 0
    case _ => true
  }

  /** There is room in the 32-bit fields for one more chunk of this many bytes of output and of file. */
  predicate Fits(size: nat, added: int, blockSize: nat, chunks: nat, totalSize: nat)
    requires blockSize > 0
  {
    0 <= added && size / blockSize + added / blockSize < UINT32 && chunks + 1 < UINT32 && totalSize < UINT32
  }

  /** On a sparse file of `chunks` chunks the operation does what it does on a flat byte string. */
  predicate SparseAgrees(v: View, op: Op, blockSize: nat, chunks: nat)
    requires blockSize > 0
  {
    match op
    case Seek(_) => true
    case Tell => true
    case Read(size) => size == 0 || (chunks > 0 && v.pos <= |v.content|)
    case Truncate(size) =>
      && size % blockSize == 0
      && (size == |v.content| ==> v.pos == 0)
      && (size > |v.content| ==> Fits(|v.content|, size - |v.content|, blockSize, chunks, CHUNK_HEADER_SIZE))
    case AppendRaw(data) => Fits(|v.content|, |data|, blockSize, chunks, CHUNK_HEADER_SIZE + |data|)
    case AppendFill(_, size) => Fits(|v.content|, size, blockSize, chunks, CHUNK_HEADER_SIZE + 4)
    case AppendDontCare(numBytes) => Fits(|v.content|, numBytes, blockSize, chunks, CHUNK_HEADER_SIZE)
  }

  /** On a plain file the operation must not leave fewer bytes than a header. */
  predicate PlainAgrees(v: View, op: Op) {
    match op
    case Truncate(size) => HEADER_SIZE <= size
    case AppendDontCare(numBytes) => HEADER_SIZE <= |v.content| + numBytes || |v.content| + numBytes < 0
    case _ => true
  }

  ghost function ViewOf(h: ImageHandler): View
    reads h`file, h`isSparse, h`image, h`filePos
  {
    View(h.Content(), h.filePos)
  }

  ghost predicate Same(v: View, reply: Reply, flat: (View, Reply)) {
    v.content == flat.0.content && v.pos == flat.0.pos && reply == flat.1
  }

  function ReplyOf(r: Option<Error>): Reply {
    match r
    case None => Done
    case Some(e) => Failed(e)
  }

  ghost predicate Agrees(h: ImageHandler, v: View, op: Op)
    requires h.blockSize > 0
    reads h`isSparse, h`blockSize, h`chunkOutputOffsets
  {
    && Legal(op, h.blockSize)
    && if h.isSparse then SparseAgrees(v, op, h.blockSize, |h.chunkOutputOffsets|) else PlainAgrees(v, op)
  }

  /** Where the chunks' outputs begin after the operation, if it does what it does on a flat byte string. */
  function NextOffsets(v: View, op: Op, offsets: seq<nat>): seq<nat> {
    match op
    case Truncate(size) =>
      if size < |v.content| then offsets[..KeptChunks(offsets, size)]
      else if size == |v.content| then offsets
      else offsets + [|v.content|]
    case AppendRaw(_) => offsets + [|v.content|]
    case AppendFill(_, _) => offsets + [|v.content|]
    case AppendDontCare(_) => offsets + [|v.content|]
    case _ => offsets
  }

  ghost predicate Follows(h: ImageHandler, v: View, op: Op, offsets: seq<nat>)
    reads h`isSparse, h`chunkOutputOffsets
  {
    h.isSparse ==> h.chunkOutputOffsets == NextOffsets(v, op, offsets)
  }

  /** One operation on a writable handler: the same as on a flat byte string exactly when the guard holds. */
  method Step(h: ImageHandler, op: Op) returns (reply: Reply)
    requires h.Valid() && !h.readOnly
    modifies h
    ensures h.isSparse == old(h.isSparse) && h.blockSize == old(h.blockSize)
    ensures Same(ViewOf(h), reply, FlatStep(old(ViewOf(h)), op)) <==> old(Agrees(h, ViewOf(h), op))
    ensures old(Agrees(h, ViewOf(h), op)) ==> h.Valid() && Follows(h, old(ViewOf(h)), op, old(h.chunkOutputOffsets))
  {
    hide Fits, Expand, Describes;
    match op {
      case Seek(offset) =>
        var r := h.Seek(offset);
        reply := ReplyOf(r);
      case Tell =>
        var pos := h.Tell();
        reply := Position(pos);
      case Read(size) =>
        reply := StepRead(h, size);
      case Truncate(size) =>
        reply := StepTruncate(h, size);
      case AppendRaw(data) =>
        reply := StepRaw(h, data);
      case AppendFill(pattern, size) =>
        reply := StepFill(h, pattern, size);
      case AppendDontCare(numBytes) =>
        reply := StepDontCare(h, numBytes);
    }
  }

  lemma GrowFits(h: ImageHandler, added: int, totalSize: nat)
    requires h.Loaded() && h.isSparse
    ensures h.blockSize > 0
    ensures (added >= 0 && h.CanGrow(BlocksIn(added, h.blockSize), totalSize))
       <==> Fits(h.imageSize, added, h.blockSize, |h.chunkOutputOffsets|, totalSize)
  {
    hide Describes, IsTable, Sorted, Usable;
    BlockCount(h);
    h.LoadedTable();
  }

  method StepRead(h: ImageHandler, size: nat) returns (reply: Reply)
    requires h.Valid()
    modifies h`filePos
    ensures Same(ViewOf(h), reply, FlatStep(old(ViewOf(h)), Read(size))) <==> old(Agrees(h, ViewOf(h), Read(size)))
  {
    hide Describes, Expand;
    h.ContentSize();
    if h.isSparse { h.LoadedTable(); }
    var r := h.Read(size);
    reply := match r case Ok(data) => Data(data) case Raised(e) => Failed(e);
  }

  method StepTruncate(h: ImageHandler, size: nat) returns (reply: Reply)
    requires h.Valid() && !h.readOnly
    modifies h
    ensures h.isSparse == old(h.isSparse) && h.blockSize == old(h.blockSize)
    ensures Same(ViewOf(h), reply, FlatStep(old(ViewOf(h)), Truncate(size))) <==>
              old(Agrees(h, ViewOf(h), Truncate(size)))
    ensures old(Agrees(h, ViewOf(h), Truncate(size))) ==>
              h.Valid() && Follows(h, old(ViewOf(h)), Truncate(size), old(h.chunkOutputOffsets))
  {
    hide Describes, Expand, Fits, BlocksIn;
    h.ContentSize();
    if h.isSparse && size > h.imageSize { GrowFits(h, size - h.imageSize, CHUNK_HEADER_SIZE); }
    var r := h.Truncate(size);
    reply := ReplyOf(r);
  }

  method StepRaw(h: ImageHandler, data: seq<byte>) returns (reply: Reply)
    requires h.Valid() && !h.readOnly
    modifies h
    ensures h.isSparse == old(h.isSparse) && h.blockSize == old(h.blockSize)
    ensures Same(ViewOf(h), reply, FlatStep(old(ViewOf(h)), AppendRaw(data))) <==>
              old(Agrees(h, ViewOf(h), AppendRaw(data)))
    ensures old(Agrees(h, ViewOf(h), AppendRaw(data))) ==>
              h.Valid() && Follows(h, old(ViewOf(h)), AppendRaw(data), old(h.chunkOutputOffsets))
  {
    hide Describes, Expand, Fits, BlocksIn;
    h.ContentSize();
    if h.isSparse { GrowFits(h, |data|, CHUNK_HEADER_SIZE + |data|); }
    var r := h.AppendRaw(data, true);
    reply := ReplyOf(r);
  }

  method StepFill(h: ImageHandler, pattern: seq<byte>, size: int) returns (reply: Reply)
    requires h.Valid() && !h.readOnly
    modifies h
    ensures h.isSparse == old(h.isSparse) && h.blockSize == old(h.blockSize)
    ensures Same(ViewOf(h), reply, FlatStep(old(ViewOf(h)), AppendFill(pattern, size)))
       <==> old(Agrees(h, ViewOf(h), AppendFill(pattern, size)))
    ensures old(Agrees(h, ViewOf(h), AppendFill(pattern, size))) ==>
              h.Valid() && Follows(h, old(ViewOf(h)), AppendFill(pattern, size), old(h.chunkOutputOffsets))
  {
    hide Describes, Expand, FillBytes, Fits, BlocksIn;
    h.ContentSize();
    if h.isSparse { GrowFits(h, size, CHUNK_HEADER_SIZE + 4); }
    var r := h.AppendFill(pattern, size);
    reply := ReplyOf(r);
  }

  method StepDontCare(h: ImageHandler, numBytes: int) returns (reply: Reply)
    requires h.Valid() && !h.readOnly
    modifies h
    ensures h.isSparse == old(h.isSparse) && h.blockSize == old(h.blockSize)
    ensures Same(ViewOf(h), reply, FlatStep(old(ViewOf(h)), AppendDontCare(numBytes)))
       <==> old(Agrees(h, ViewOf(h), AppendDontCare(numBytes)))
    ensures old(Agrees(h, ViewOf(h), AppendDontCare(numBytes))) ==>
              h.Valid() && Follows(h, old(ViewOf(h)), AppendDontCare(numBytes), old(h.chunkOutputOffsets))
  {
    hide Describes, Expand, Fits, BlocksIn;
    h.ContentSize();
    if h.isSparse { GrowFits(h, numBytes, CHUNK_HEADER_SIZE); }
    var r := h.AppendDontCare(numBytes);
    reply := ReplyOf(r);
  }

  // --------------------------------------------------------------------- whole runs

  /** Every operation meets its guard, the chunk table being followed along the run. */
  predicate Smooth(v: View, ops: seq<Op>, sparse: bool, blockSize: nat, offsets: seq<nat>)
    requires blockSize > 0
    decreases |ops|
  {
    ops == [] ||
    (&& Legal(ops[0], blockSize)
     && (if sparse then SparseAgrees(v, ops[0], blockSize, |offsets|) else PlainAgrees(v, ops[0]))
     && Smooth(FlatStep(v, ops[0]).0, ops[1..], sparse, blockSize, NextOffsets(v, ops[0], offsets)))
  }

  /** For a plain file the table plays no part. */
  lemma {:induction false} SmoothPlain(v: View, ops: seq<Op>, blockSize: nat, offsets: seq<nat>, offsets': seq<nat>)
    requires blockSize > 0 && Smooth(v, ops, false, blockSize, offsets)
    ensures Smooth(v, ops, false, blockSize, offsets')
    decreases |ops|
  {
    hide Legal, PlainAgrees, FlatStep, NextOffsets;
    if ops != [] {
      SmoothPlain(FlatStep(v, ops[0]).0, ops[1..], blockSize, NextOffsets(v, ops[0], offsets),
                  NextOffsets(v, ops[0], offsets'));
    }
  }

  lemma NoSteps()
    ensures forall w :: FlatRun(w, []) == (w, [])
  {
  }

  /** What the first of the operations left to do makes of a run. */
  lemma SmoothTail(v: View, ops: seq<Op>, i: nat, sparse: bool, blockSize: nat, offsets: seq<nat>)
    requires i < |ops| && blockSize > 0 && Smooth(v, ops[i..], sparse, blockSize, offsets)
    ensures Legal(ops[i], blockSize)
    ensures if sparse then SparseAgrees(v, ops[i], blockSize, |offsets|) else PlainAgrees(v, ops[i])
    ensures Smooth(FlatStep(v, ops[i]).0, ops[i + 1..], sparse, blockSize, NextOffsets(v, ops[i], offsets))
    ensures FlatRun(v, ops[i..]).0 == FlatRun(FlatStep(v, ops[i]).0, ops[i + 1..]).0
    ensures FlatRun(v, ops[i..]).1 == [FlatStep(v, ops[i]).1] + FlatRun(FlatStep(v, ops[i]).0, ops[i + 1..]).1
  {
    assert ops[i..][1..] == ops[i + 1..];
  }

  lemma HasBlocks(h: ImageHandler)
    requires h.Valid()
    ensures h.blockSize > 0
  {
  }

  /** The next operation of a run within the guards: what is left to do is again a run within the guards. */
  method NextStep(h: ImageHandler, ops: seq<Op>, i: nat) returns (reply: Reply)
    requires h.Valid() && !h.readOnly && h.blockSize > 0 && i < |ops|
    requires Smooth(ViewOf(h), ops[i..], h.isSparse, h.blockSize, h.chunkOutputOffsets)
    modifies h
    ensures h.Valid() && h.isSparse == old(h.isSparse) && h.blockSize == old(h.blockSize)
    ensures Smooth(ViewOf(h), ops[i + 1..], h.isSparse, h.blockSize, h.chunkOutputOffsets)
    ensures FlatRun(old(ViewOf(h)), ops[i..]).0 == FlatRun(ViewOf(h), ops[i + 1..]).0
    ensures FlatRun(old(ViewOf(h)), ops[i..]).1 == [reply] + FlatRun(ViewOf(h), ops[i + 1..]).1
  {
    hide SparseAgrees, PlainAgrees, FlatStep, FlatRun, Smooth, NextOffsets, Expand, Legal, Describes;
    ghost var v, offsets := ViewOf(h), h.chunkOutputOffsets;
    SmoothTail(v, ops, i, h.isSparse, h.blockSize, offsets);
    reply := Step(h, ops[i]);
    if !h.isSparse {
      SmoothPlain(ViewOf(h), ops[i + 1..], h.blockSize, NextOffsets(v, ops[i], offsets), h.chunkOutputOffsets);
    }
  }

  /** Any run within the guards gives the replies, the content and the cursor of the same run on a flat byte string. */
  method Run(h: ImageHandler, ops: seq<Op>) returns (replies: seq<Reply>)
    requires h.Valid() && !h.readOnly
    requires Smooth(ViewOf(h), ops, h.isSparse, h.blockSize, h.chunkOutputOffsets)
    modifies h
    ensures h.Valid() && h.isSparse == old(h.isSparse) && h.blockSize == old(h.blockSize)
    ensures replies == FlatRun(old(ViewOf(h)), ops).1
    ensures ViewOf(h) == FlatRun(old(ViewOf(h)), ops).0
  {
    hide FlatRun, Smooth, Expand, Describes;
    HasBlocks(h);
    replies := [];
    ghost var v0 := ViewOf(h);
    NoSteps();
    assert ops[0..] == ops && [] + FlatRun(v0, ops).1 == FlatRun(v0, ops).1;
    for i := 0 to |ops|
      invariant h.Valid() && h.isSparse == old(h.isSparse) && h.blockSize == old(h.blockSize)
      invariant h.blockSize > 0 && Smooth(ViewOf(h), ops[i..], h.isSparse, h.blockSize, h.chunkOutputOffsets)
      invariant FlatRun(v0, ops).0 == FlatRun(ViewOf(h), ops[i..]).0
      invariant FlatRun(v0, ops).1 == replies + FlatRun(ViewOf(h), ops[i..]).1
    {
      var reply := NextStep(h, ops, i);
      replies := replies + [reply];
    }
    assert ops[|ops|..] == [];
  }

  // ------------------------------------------------- runs on which the guard does not hold

  /** A sparse image of one block of four bytes that nobody cares about. */
  function OneHole(): SparseImage {
    SparseImage(4, Zeros(4), [DontCare(Zeros(2), 1)])
  }

  lemma HoleIsStored()
    ensures ParseFile(Serialize(OneHole())).Sparse? && ParseFile(Serialize(OneHole())).img == OneHole()
    ensures Supported(Serialize(OneHole())) && Expand(OneHole().chunks, 4) == Zeros(4)
  {
    hide ParseFile, Serialize, DeclaredEnd;
    var chunks := OneHole().chunks;
    assert chunks[..0] == [] && WellFormedChunk(chunks[0], 4);
    assert Blocks(chunks) == 1 && WellFormed(OneHole());
    ParseOfSerialize(OneHole());
    AcceptedIsStoredIff(Serialize(OneHole()));
    assert Expand(chunks[..0], 4) == [] && Expand(chunks, 4) == Contents(chunks[0], 4);
    assert Span(1, 4) == Span(0, 4) + 4 && Contents(chunks[0], 4) == Zeros(4);
  }

  method OpenHole() returns (h: ImageHandler)
    ensures fresh(h) && h.Valid() && h.isSparse && !h.readOnly && h.imageSize == 4 && h.blockSize == 4 && h.filePos == 0
    ensures h.Content() == Zeros(4) && h.image == OneHole() && h.chunks != []
  {
    hide ParseFile, Supported, Serialize, Expand, Describes;
    HoleIsStored();
    var r := ImageHandler.Open(Serialize(OneHole()), false);
    h := r.value;
    h.ContentSize();
    h.LoadedTable();
    HoleSize(h);
  }

  lemma HoleSize(h: ImageHandler)
    requires h.Loaded() && h.isSparse && h.image == OneHole()
    ensures h.blockSize == 4
  {
  }

  /**
   * Truncating to its own size leaves a sparse file's cursor where it is; on a flat byte string it goes to the start.
   */
  method TruncateKeepsCursor() returns (h: ImageHandler, reply: Reply)
    ensures fresh(h) && h.isSparse && reply == Done && ViewOf(h) == View(Zeros(4), 2)
    ensures FlatStep(View(Zeros(4), 2), Truncate(4)) == (View(Zeros(4), 0), Done)
  {
    hide Describes, Expand;
    h := OpenHole();
    var _ := h.Seek(2);
    var r := h.Truncate(4);
    reply := ReplyOf(r);
    assert Resize(Zeros(4), 4) == Zeros(4);
  }

  /** Reading behind the end moves a sparse file's cursor back to it; on a flat byte string it stays. */
  method ReadMovesBack() returns (h: ImageHandler, reply: Reply)
    ensures fresh(h) && h.isSparse && reply == Data([]) && ViewOf(h) == View(Zeros(4), 4)
    ensures FlatStep(View(Zeros(4), 9), Read(1)) == (View(Zeros(4), 9), Data([]))
  {
    hide Describes, Expand;
    h := OpenHole();
    var _ := h.Seek(9);
    HoleEntry(h);
    var r := h.Read(1);
    reply := match r case Ok(data) => Data(data) case Raised(e) => Failed(e);
  }

  lemma HoleEntry(h: ImageHandler)
    requires h.Loaded() && h.isSparse && h.image == OneHole() && h.chunks != []
    ensures h.chunks[|h.chunks| - 1].chunkType == TYPE_DONT_CARE
  {
    hide Describes;
    h.LoadedTable();
    assert h.chunks[0] == EntryAt(h.image.chunks, h.blockSize, 0);
  }

  /**
   * append_fill with a negative size: the object still shows the old content, but on disk there is a file that does not
   * open.
   */
  method NegativeFillBreaksFile() returns (h: ImageHandler, r: Option<Error>)
    ensures fresh(h) && h.isSparse && r == Some(StructError) && h.Content() == Zeros(4)
    ensures ParseFile(h.file) == Bad(StructError)
  {
    hide Describes, Expand, ParseFile;
    h := OpenHole();
    r := h.AppendFill(Zeros(4), -4);
  }

  /** Cutting a plain file below a header's length fails after the file has been cut. */
  method ShortPlainFails() returns (h: ImageHandler, reply: Reply)
    ensures fresh(h) && !h.isSparse && reply == Failed(StructError) && ViewOf(h) == View(Zeros(8), 0)
    ensures FlatStep(View(Zeros(64), 0), Truncate(8)) == (View(Zeros(8), 0), Done)
  {
    hide Describes, ParseFile;
    PlainZeros();
    var file := ImageHandler.Open(Zeros(64), false);
    h := file.value;
    var r := h.Truncate(8);
    reply := ReplyOf(r);
    assert Resize(Zeros(64), 8) == Zeros(8);
  }

  lemma PlainZeros()
    ensures ParseFile(Zeros(64)) == Plain
  {
    ZeroTop(Zeros(64)[0..4]);
  }
}
