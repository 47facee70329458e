/**
 * The walk over the used blocks of an F2FS file system: metadata blocks, then main-area blocks
 * whose bit is set in their segment's SIT entry, empty segments being skipped whole.
 */
module F2fs {
  import opened Bits
  import opened Bytes
  import opened Wrappers

  /** One segment: its valid-block count and its validity bitmap. */
  datatype SitEntry = SitEntry(validBlocks: nat, validMap: seq<byte>)

  datatype JournalEntry = JournalEntry(segno: nat, entry: SitEntry)

  /** `entriesPerBlock` stands for SIT_ENTRY_PER_BLOCK, which f2fs_fs.h defines. */
  datatype Info = Info(
    blocksPerSegment: nat,
    entriesPerBlock: nat,
    mainBlkaddr: nat,
    totalBlocks: nat,
    totalUserUsed: nat,
    sitBlkaddr: nat,
    blocksPerSit: nat,
    sitBmp: seq<byte>,
    sitBlocks: seq<seq<SitEntry>>,
    journal: seq<JournalEntry>)


  /** Sizes the superblock gives: no 64-bit sum below wraps around. */
  ghost predicate Sized(info: Info) {
    && info.blocksPerSegment > 0 && info.entriesPerBlock > 0
    && info.mainBlkaddr <= info.totalBlocks
    && info.totalBlocks + info.blocksPerSegment <= UINT64
  }

  ghost predicate CoversSegment(entry: SitEntry, info: Info) {
    info.blocksPerSegment <= 8 * |entry.validMap|
  }

  ghost predicate FullSitBlock(block: seq<SitEntry>, info: Info) {
    && |block| == info.entriesPerBlock
    && forall j :: 0 <= j < |block| ==> CoversSegment(block[j], info)
  }

  /** The state generate_f2fs_info leaves: all SIT blocks read, bitmaps as long as a segment. */
  ghost predicate Loaded(info: Info) {
    && Sized(info)
    && |info.sitBlocks| == NumSitBlocks(info)
    && (forall i :: 0 <= i < |info.sitBlocks| ==> FullSitBlock(info.sitBlocks[i], info))
    && (forall i :: 0 <= i < |info.journal| ==> CoversSegment(info.journal[i].entry, info))
  }

  function NumSitBlocks(info: Info): nat
    requires info.blocksPerSegment > 0 && info.entriesPerBlock > 0 && info.mainBlkaddr <= info.totalBlocks
  {
    CeilDiv(CeilDiv(info.totalBlocks - info.mainBlkaddr, info.blocksPerSegment), info.entriesPerBlock)
  }

  /** f2fs_test_bit: bits are numbered from the most significant bit of each byte. */
  predicate TestBit(nr: nat, bits: seq<byte>)
    requires nr < 8 * |bits|
  {
    ShiftRight(bits[nr / 8], 7 - nr % 8) % 2 == 1
  }

  // -------------------------------------------------------------- index arithmetic

  lemma BelowCeil(x: nat, a: nat, b: nat)
    requires b > 0 && x < a
    ensures x / b < CeilDiv(a, b)
  {
    assert (x / b + 1) * b == (x / b) * b + b <= a + b - 1;
    DivAtLeast(a + b - 1, b, x / b + 1);
  }

  lemma BelowBothCeils(x: nat, a: nat, d: nat, e: nat)
    requires d > 0 && e > 0 && x < a
    ensures (x / d) / e < CeilDiv(CeilDiv(a, d), e)
  {
    BelowCeil(x, a, d);
    BelowCeil(x / d, CeilDiv(a, d), e);
  }

  /** Every main-area block's SIT entry lies inside the table gather_sit_info allocates. */
  lemma SegmentInTable(info: Info, block: nat)
    requires Sized(info) && info.mainBlkaddr <= block < info.totalBlocks
    ensures ((block - info.mainBlkaddr) / info.blocksPerSegment) / info.entriesPerBlock < NumSitBlocks(info)
  {
    BelowBothCeils(block - info.mainBlkaddr, info.totalBlocks - info.mainBlkaddr,
                   info.blocksPerSegment, info.entriesPerBlock);
  }

  /** Where gather_sit_info reads SIT block `i`: in the first or the second copy. */
  function SitAddress(info: Info, i: nat): nat
    requires i < 8 * |info.sitBmp|
  {
    info.sitBlkaddr + i + if TestBit(i, info.sitBmp) then info.blocksPerSit else 0
  }

  method GatherSitInfo(info: Info, read: nat -> Option<seq<SitEntry>>) returns (r: Option<seq<seq<SitEntry>>>)
    requires Sized(info) && NumSitBlocks(info) <= 8 * |info.sitBmp|
    ensures r.Some? <==> forall i :: 0 <= i < NumSitBlocks(info) ==> read(SitAddress(info, i)).Some?
    ensures r.Some? ==> |r.value| == NumSitBlocks(info)
    ensures r.Some? ==> forall i :: 0 <= i < |r.value| ==> read(SitAddress(info, i)) == Some(r.value[i])
  {
    var numSegments := (info.totalBlocks - info.mainBlkaddr + info.blocksPerSegment - 1) / info.blocksPerSegment;
    var numSitBlocks := (numSegments + info.entriesPerBlock - 1) / info.entriesPerBlock;
    var sitBlocks: seq<seq<SitEntry>> := [];
    for sitBlock := 0 to numSitBlocks
      invariant |sitBlocks| == sitBlock
      invariant forall i :: 0 <= i < sitBlock ==> read(SitAddress(info, i)) == Some(sitBlocks[i])
    {
      var address := info.sitBlkaddr + sitBlock;
      if TestBit(sitBlock, info.sitBmp) { address := address + info.blocksPerSit; }
      assert address == SitAddress(info, sitBlock);
      match read(address) {
        case None => return None;
        case Some(b) => sitBlocks := sitBlocks + [b];
      }
    }
    return Some(sitBlocks);
  }

  // ------------------------------------------------------------- which blocks are used

  function Segment(info: Info, block: nat): nat
    requires info.blocksPerSegment > 0 && info.mainBlkaddr <= block
  {
    (block - info.mainBlkaddr) / info.blocksPerSegment
  }

  function OffsetInSegment(info: Info, block: nat): nat
    requires info.blocksPerSegment > 0 && info.mainBlkaddr <= block
  {
    (block - info.mainBlkaddr) % info.blocksPerSegment
  }

  /** The first journal entry for the segment, if any. */
  function InJournal(journal: seq<JournalEntry>, segno: nat): Option<SitEntry> {
    if journal == [] then None
    else if journal[0].segno == segno then Some(journal[0].entry)
    else InJournal(journal[1..], segno)
  }

  lemma {:induction false} InJournalCovers(info: Info, journal: seq<JournalEntry>, segno: nat)
    requires forall i :: 0 <= i < |journal| ==> CoversSegment(journal[i].entry, info)
    ensures InJournal(journal, segno).Some? ==> CoversSegment(InJournal(journal, segno).value, info)
  {
    if journal != [] {
      InJournalCovers(info, journal[1..], segno);
    }
  }

  /** The journal overrides the SIT area. */
  function Entry(info: Info, block: nat): (e: SitEntry)
    requires Loaded(info) && info.mainBlkaddr <= block < info.totalBlocks
    ensures CoversSegment(e, info)
  {
    InJournalCovers(info, info.journal, Segment(info, block));
    SegmentInTable(info, block);
    match InJournal(info.journal, Segment(info, block))
    case Some(e) => e
    case None => SitAreaEntry(info, Segment(info, block))
  }

  function SitAreaEntry(info: Info, segnum: nat): (e: SitEntry)
    requires Loaded(info) && segnum / info.entriesPerBlock < |info.sitBlocks|
    ensures CoversSegment(e, info)
  {
    var i, j := segnum / info.entriesPerBlock, segnum % info.entriesPerBlock;
    assert FullSitBlock(info.sitBlocks[i], info);
    info.sitBlocks[i][j]
  }

  predicate Used(info: Info, block: nat)
    requires Loaded(info) && block < info.totalBlocks
  {
    block < info.mainBlkaddr || TestBit(OffsetInSegment(info, block), Entry(info, block).validMap)
  }

  /** The block's segment starts at or after `start` and has a zero count. */
  predicate Skipped(info: Info, start: nat, block: nat)
    requires Loaded(info) && block < info.totalBlocks
  {
    && info.mainBlkaddr <= block
    && start <= block - OffsetInSegment(info, block)
    && Entry(info, block).validBlocks == 0
  }

  function UsedFrom(info: Info, block: nat): seq<nat>
    requires Loaded(info)
    decreases info.totalBlocks - block
  {
    if block >= info.totalBlocks then []
    else (if Used(info, block) then [block] else []) + UsedFrom(info, block + 1)
  }

  /** The blocks the walk from `start` calls back on, from `block` onwards. */
  function CallsFrom(info: Info, start: nat, block: nat): seq<nat>
    requires Loaded(info)
    decreases info.totalBlocks - block
  {
    if block >= info.totalBlocks then []
    else (if Used(info, block) && !Skipped(info, start, block) then [block] else []) + CallsFrom(info, start, block + 1)
  }

  ghost predicate AllSucceed(fails: nat -> bool, calls: seq<nat>) {
    forall i :: 0 <= i < |calls| ==> !fails(calls[i])
  }

  /** Calls are made in order up to and including the first that fails. */
  ghost predicate Delivered(fails: nat -> bool, planned: seq<nat>, calls: seq<nat>, ret: int) {
    if ret == 0 then calls == planned && AllSucceed(fails, calls)
    else
      && ret == -1 && calls <= planned && calls != []
      && AllSucceed(fails, calls[..|calls| - 1]) && fails(calls[|calls| - 1])
  }

  // ------------------------------------------------------------------------ the walk

  method FindInJournal(journal: seq<JournalEntry>, segno: nat) returns (found: Option<SitEntry>)
    ensures found == InJournal(journal, segno)
  {
    for i := 0 to |journal|
      invariant InJournal(journal[i..], segno) == InJournal(journal, segno)
    {
      assert journal[i..][1..] == journal[i + 1..];
      if journal[i].segno == segno { return Some(journal[i].entry); }
    }
    return None;
  }

  method LookUpEntry(info: Info, block: nat) returns (sitEntry: SitEntry)
    requires Loaded(info) && info.mainBlkaddr <= block < info.totalBlocks
    ensures sitEntry == Entry(info, block)
  {
    var found := FindInJournal(info.journal, Segment(info, block));
    SegmentInTable(info, block);
    if found.Some? {
      sitEntry := found.value;
    } else {
      sitEntry := SitAreaEntry(info, Segment(info, block));
    }
  }

  method RunOnUsedBlocks(start: nat, info: Info, fails: nat -> bool) returns (ret: int, calls: seq<nat>)
    requires Loaded(info) && start < UINT64
    ensures Delivered(fails, CallsFrom(info, start, start), calls, ret)
  {
    hide NumSitBlocks, FullSitBlock, Used, Skipped, Entry, CallsFrom, ReachedUnskipped;
    calls := [];
    var block := start;
    WalkStarts(info, start);
    while block < info.totalBlocks
      invariant start <= block < UINT64
      invariant calls + CallsFrom(info, start, block) == CallsFrom(info, start, start)
      invariant AllSucceed(fails, calls)
      invariant ReachedUnskipped(info, start, block)
      decreases info.totalBlocks - block
    {
      var call := true;
      if block >= info.mainBlkaddr {
        var sitEntry := LookUpEntry(info, block);
        var blockOffset := OffsetInSegment(info, block);
        if blockOffset == 0 && sitEntry.validBlocks == 0 {
          WalkJumps(info, start, block);
          block := block + info.blocksPerSegment;
          continue;
        }
        call := TestBit(blockOffset, sitEntry.validMap);
      }
      WalkSteps(info, start, block, call);
      if call {
        Extend(calls, block, CallsFrom(info, start, block + 1));
        calls := calls + [block];
        if fails(block) { return -1, calls; }
      }
      block := block + 1;
    }
    WalkEnds(info, start, block, calls);
    return 0, calls;
  }

  lemma WalkStarts(info: Info, start: nat)
    requires Loaded(info)
    ensures ReachedUnskipped(info, start, start)
  {
  }

  lemma WalkJumps(info: Info, start: nat, block: nat)
    requires Loaded(info) && start <= block && info.mainBlkaddr <= block < info.totalBlocks
    requires OffsetInSegment(info, block) == 0 && Entry(info, block).validBlocks == 0
    ensures CallsFrom(info, start, block) == CallsFrom(info, start, block + info.blocksPerSegment)
    ensures ReachedUnskipped(info, start, block + info.blocksPerSegment)
    ensures info.blocksPerSegment > 0 && block + info.blocksPerSegment < UINT64
  {
    SegmentSkipped(info, start, block, block);
    NextSegment(info, block);
  }

  lemma WalkSteps(info: Info, start: nat, block: nat, call: bool)
    requires Loaded(info) && start <= block < info.totalBlocks && ReachedUnskipped(info, start, block)
    requires info.mainBlkaddr <= block && OffsetInSegment(info, block) == 0 ==> Entry(info, block).validBlocks != 0
    requires call <==> block < info.mainBlkaddr || TestBit(OffsetInSegment(info, block), Entry(info, block).validMap)
    ensures ReachedUnskipped(info, start, block + 1)
    ensures CallsFrom(info, start, block) == (if call then [block] else []) + CallsFrom(info, start, block + 1)
  {
    hide Skipped, Entry, OffsetInSegment;
    StepStaysUnskipped(info, start, block);
  }

  lemma WalkEnds(info: Info, start: nat, block: nat, calls: seq<nat>)
    requires Loaded(info) && block >= info.totalBlocks
    ensures calls + CallsFrom(info, start, block) == calls
  {
  }

  lemma Extend(calls: seq<nat>, block: nat, rest: seq<nat>)
    ensures calls + ([block] + rest) == (calls + [block]) + rest
  {
  }

  /** The walk never stands inside a segment it should have jumped over. */
  ghost predicate ReachedUnskipped(info: Info, start: nat, block: nat)
    requires Loaded(info)
  {
    info.mainBlkaddr <= block < info.totalBlocks && OffsetInSegment(info, block) != 0 ==> !Skipped(info, start, block)
  }

  lemma StepStaysUnskipped(info: Info, start: nat, block: nat)
    requires Loaded(info) && start <= block < info.totalBlocks && ReachedUnskipped(info, start, block)
    requires info.mainBlkaddr <= block && OffsetInSegment(info, block) == 0 ==> Entry(info, block).validBlocks != 0
    ensures !Skipped(info, start, block)
    ensures ReachedUnskipped(info, start, block + 1)
  {
    if info.mainBlkaddr <= block && block + 1 < info.totalBlocks && OffsetInSegment(info, block + 1) != 0 {
      StepInsideSegment(info, start, block);
    }
  }

  lemma SameSegment(info: Info, first: nat, block: nat)
    requires info.blocksPerSegment > 0 && info.mainBlkaddr <= first <= block < first + info.blocksPerSegment
    requires OffsetInSegment(info, first) == 0
    ensures Segment(info, block) == Segment(info, first) && OffsetInSegment(info, block) == block - first
  {
    var d := info.blocksPerSegment;
    assert first - info.mainBlkaddr == Segment(info, first) * d;
    DivModUnique(block - info.mainBlkaddr, d, Segment(info, first), block - first);
  }

  lemma {:induction false} SegmentSkipped(info: Info, start: nat, first: nat, block: nat)
    requires Loaded(info) && info.mainBlkaddr <= first < info.totalBlocks && start <= first
    requires OffsetInSegment(info, first) == 0 && Entry(info, first).validBlocks == 0
    requires first <= block <= first + info.blocksPerSegment
    ensures CallsFrom(info, start, block) == CallsFrom(info, start, first + info.blocksPerSegment)
    decreases first + info.blocksPerSegment - block
  {
    if block < first + info.blocksPerSegment {
      SegmentSkipped(info, start, first, block + 1);
      SameSegment(info, first, block);
      if block < info.totalBlocks {
        assert Entry(info, block) == Entry(info, first);
        assert Skipped(info, start, block);
      }
    }
  }

  /** Leaving an unskipped block never enters the middle of a skipped segment. */
  lemma StepInsideSegment(info: Info, start: nat, block: nat)
    requires Loaded(info) && info.mainBlkaddr <= block && block + 1 < info.totalBlocks
    requires OffsetInSegment(info, block + 1) != 0 && !Skipped(info, start, block)
    ensures !Skipped(info, start, block + 1)
  {
    var d := info.blocksPerSegment;
    var x := block - info.mainBlkaddr;
    assert x == (x / d) * d + x % d;
    if x % d == d - 1 {
      assert x + 1 == (x / d + 1) * d + 0;
      DivModUnique(x + 1, d, x / d + 1, 0);
    }
    DivModUnique(x + 1, d, x / d, x % d + 1);
  }

  lemma NextSegment(info: Info, first: nat)
    requires info.blocksPerSegment > 0 && info.mainBlkaddr <= first && OffsetInSegment(info, first) == 0
    ensures OffsetInSegment(info, first + info.blocksPerSegment) == 0
  {
    ModAddSelf(first - info.mainBlkaddr, info.blocksPerSegment);
  }

  // ------------------------------------------------------------------ main theorems

  /** UsedFrom lists exactly the used blocks from `block` up, each once, in increasing order. */
  lemma {:induction false} UsedFromMeaning(info: Info, block: nat)
    requires Loaded(info)
    ensures forall b: nat :: b in UsedFrom(info, block) <==> block <= b < info.totalBlocks && Used(info, b)
    ensures forall i, j :: 0 <= i < j < |UsedFrom(info, block)| ==> UsedFrom(info, block)[i] < UsedFrom(info, block)[j]
    decreases info.totalBlocks - block
  {
    hide Used;
    if block < info.totalBlocks {
      UsedFromMeaning(info, block + 1);
      var rest := UsedFrom(info, block + 1);
      assert forall i :: 0 <= i < |rest| ==> rest[i] in rest;
    }
  }

  /** Every segment that starts in range with a zero count has no valid bit. */
  ghost predicate CountsTrusted(info: Info, start: nat)
    requires Loaded(info)
  {
    forall b: nat :: start <= b < info.totalBlocks && Skipped(info, start, b) ==>
      !TestBit(OffsetInSegment(info, b), Entry(info, b).validMap)
  }

  lemma {:induction false} SkippedBlocksAreMissing(info: Info, start: nat, block: nat)
    requires Loaded(info) && start <= block
    ensures forall b: nat :: b in CallsFrom(info, start, block) <==>
              block <= b < info.totalBlocks && Used(info, b) && !Skipped(info, start, b)
    decreases info.totalBlocks - block
  {
    if block < info.totalBlocks {
      SkippedBlocksAreMissing(info, start, block + 1);
    }
  }

  lemma {:induction false} TrustedCallsAreUsed(info: Info, start: nat, block: nat)
    requires Loaded(info) && start <= block && CountsTrusted(info, start)
    ensures CallsFrom(info, start, block) == UsedFrom(info, block)
    decreases info.totalBlocks - block
  {
    if block < info.totalBlocks {
      TrustedCallsAreUsed(info, start, block + 1);
    }
  }

  /** The skipping walk visits exactly the used blocks if and only if zero counts can be trusted. */
  lemma WalkIsExactIff(info: Info, start: nat)
    requires Loaded(info)
    ensures CallsFrom(info, start, start) == UsedFrom(info, start) <==> CountsTrusted(info, start)
  {
    if CountsTrusted(info, start) {
      TrustedCallsAreUsed(info, start, start);
    } else {
      var b: nat :| start <= b < info.totalBlocks && Skipped(info, start, b)
                    && TestBit(OffsetInSegment(info, b), Entry(info, b).validMap);
      SkippedIsMissed(info, start, b);
    }
  }

  /** One segment of eight blocks whose count is zero although its first bit is set. */
  function Miscounted(): (info: Info)
    ensures Loaded(info) && info.mainBlkaddr == 0 && info.totalBlocks == 8 && info.blocksPerSegment == 8
    ensures info.journal == [] && info.entriesPerBlock == 1 && info.sitBlocks == [[SitEntry(0, [0x80])]]
  {
    var info := Info(8, 1, 0, 8, 0, 0, 1, [0], [[SitEntry(0, [0x80])]], []);
    assert FullSitBlock(info.sitBlocks[0], info);
    info
  }

  /** On that file system the walk makes no call for block 0, which is used. */
  lemma MiscountedBlockIsMissed()
    ensures !CountsTrusted(Miscounted(), 0)
    ensures 0 in UsedFrom(Miscounted(), 0) && 0 !in CallsFrom(Miscounted(), 0, 0)
  {
    hide UsedFrom, CallsFrom, CountsTrusted, Used, Skipped, Loaded, Miscounted;
    FirstBlock(Miscounted());
    SkippedIsMissed(Miscounted(), 0, 0);
  }

  lemma FirstBlock(info: Info)
    requires Loaded(info) && info.mainBlkaddr == 0 && info.totalBlocks == 8 && info.blocksPerSegment == 8
    requires info.journal == [] && info.entriesPerBlock == 1 && info.sitBlocks == [[SitEntry(0, [0x80])]]
    ensures Used(info, 0) && Skipped(info, 0, 0)
  {
    assert Segment(info, 0) == 0 && OffsetInSegment(info, 0) == 0;
    FirstBitSet();
  }

  /** A used block in a skipped segment is missed, and shows that zero counts cannot be trusted. */
  lemma SkippedIsMissed(info: Info, start: nat, block: nat)
    requires Loaded(info) && info.mainBlkaddr <= block && start <= block < info.totalBlocks
    requires Used(info, block) && Skipped(info, start, block)
    ensures !CountsTrusted(info, start) && block in UsedFrom(info, start) && block !in CallsFrom(info, start, start)
  {
    hide UsedFrom, CallsFrom, Skipped, Loaded;
    UsedFromMeaning(info, start);
    SkippedBlocksAreMissing(info, start, start);
  }

  lemma FirstBitSet()
    ensures TestBit(0, [0x80])
  {
    assert ShiftRight(0x80, 7) == 1 by {
      assert ShiftRight(0x80, 3) == 16;
      assert ShiftRight(0x80, 5) == 4;
    }
  }

  function NumBlocksUsed(info: Info): nat {
    info.mainBlkaddr + info.totalUserUsed
  }

  lemma {:induction false} MetadataAllUsed(info: Info, block: nat)
    requires Loaded(info) && block <= info.mainBlkaddr
    ensures |UsedFrom(info, block)| == info.mainBlkaddr - block + |UsedFrom(info, info.mainBlkaddr)|
    decreases info.mainBlkaddr - block
  {
    if block < info.mainBlkaddr {
      MetadataAllUsed(info, block + 1);
    }
  }

  /**
   * get_num_blocks_used counts the callbacks of a full walk exactly when the checkpoint's count is that of the
   * bitmaps.
   */
  lemma NumBlocksUsedIsWalkLength(info: Info)
    requires Loaded(info) && CountsTrusted(info, 0)
    ensures NumBlocksUsed(info) == |CallsFrom(info, 0, 0)| <==> info.totalUserUsed == |UsedFrom(info, info.mainBlkaddr)|
  {
    TrustedCallsAreUsed(info, 0, 0);
    MetadataAllUsed(info, 0);
  }

  // ------------------------------------------------------------- which bit, which entry

  /** The first block of eight has the highest bit of its byte. */
  lemma BitOfByte(nr: nat, bits: seq<byte>)
    requires nr < 8 * |bits|
    ensures var b := bits[nr / 8];
            && (nr % 8 == 0 ==> (TestBit(nr, bits) <==> b / 128 == 1))
            && (nr % 8 == 1 ==> (TestBit(nr, bits) <==> b / 64 % 2 == 1))
            && (nr % 8 == 2 ==> (TestBit(nr, bits) <==> b / 32 % 2 == 1))
            && (nr % 8 == 3 ==> (TestBit(nr, bits) <==> b / 16 % 2 == 1))
            && (nr % 8 == 4 ==> (TestBit(nr, bits) <==> b / 8 % 2 == 1))
            && (nr % 8 == 5 ==> (TestBit(nr, bits) <==> b / 4 % 2 == 1))
            && (nr % 8 == 6 ==> (TestBit(nr, bits) <==> b / 2 % 2 == 1))
            && (nr % 8 == 7 ==> (TestBit(nr, bits) <==> b % 2 == 1))
  {
    Shifted(bits[nr / 8]);
  }

  lemma Shifted(b: nat)
    ensures ShiftRight(b, 0) == b && ShiftRight(b, 1) == b / 2 && ShiftRight(b, 2) == b / 4 && ShiftRight(b, 3) == b / 8
    ensures ShiftRight(b, 4) == b / 16 && ShiftRight(b, 5) == b / 32 && ShiftRight(b, 6) == b / 64
    ensures ShiftRight(b, 7) == b / 128
  {
    ShiftRightStep(b, 0);
    ShiftRightStep(b, 1);
    ShiftRightStep(b, 2);
    ShiftRightStep(b, 3);
    ShiftRightStep(b, 4);
    ShiftRightStep(b, 5);
    ShiftRightStep(b, 6);
  }

  /**
   * Four segments of sixteen blocks behind three blocks of metadata, two entries to a SIT block; the journal has a
   * newer entry for the last segment.
   */
  function FourSegments(): (info: Info)
    ensures Loaded(info)
  {
    var first, none, two := SitEntry(1, [0x80, 0]), SitEntry(0, [0, 0]), SitEntry(2, [0x01, 0x80]);
    var info := Info(16, 2, 3, 67, 0, 0, 1, [0], [[first, none], [two, none]],
                     [JournalEntry(3, SitEntry(1, [0, 0x01]))]);
    assert FullSitBlock(info.sitBlocks[0], info) && FullSitBlock(info.sitBlocks[1], info);
    info
  }

  /** Used are the metadata, one block of the first segment, two of the third and, by the journal, one of the last. */
  lemma FourSegmentsUsed(block: nat)
    requires block < 67
    ensures Used(FourSegments(), block) <==> block in {0, 1, 2, 3, 3 + 32 + 7, 3 + 32 + 8, 3 + 48 + 15}
  {
    hide TestBit;
    if 3 <= block {
      var info := FourSegments();
      var n, k := (block - 3) / 16, (block - 3) % 16;
      assert block == 3 + 16 * n + k;
      JournalFirst(info.journal[0], n);
      BitOfByte(k, [0x80, 0]);
      BitOfByte(k, [0, 0]);
      BitOfByte(k, [0x01, 0x80]);
      BitOfByte(k, [0, 0x01]);
    }
  }

  lemma JournalFirst(e: JournalEntry, segno: nat)
    ensures InJournal([e], segno) == if e.segno == segno then Some(e.entry) else None
  {
    assert [e][1..] == [];
  }

  /** The SIT blocks that are read have an entry for every segment, and no block more than that takes. */
  lemma SitBlocksNeeded(info: Info)
    requires Sized(info)
    ensures var segments, n := CeilDiv(info.totalBlocks - info.mainBlkaddr, info.blocksPerSegment), NumSitBlocks(info);
            segments <= n * info.entriesPerBlock < segments + info.entriesPerBlock
  {
    var segments := CeilDiv(info.totalBlocks - info.mainBlkaddr, info.blocksPerSegment);
    Rounded(segments, info.entriesPerBlock);
  }

  lemma Rounded(a: nat, b: nat)
    requires b > 0
    ensures a <= CeilDiv(a, b) * b < a + b
  {
    assert a + b - 1 == CeilDiv(a, b) * b + (a + b - 1) % b;
  }
}
