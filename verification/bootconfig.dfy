/**
 * The bootconfig section: parameters followed by one trailer (length, checksum, magic), edited in
 * place in memory.  Memory is an array of bytes and an address is an index into it.
 */
module BootConfig {
  import opened Bytes
  import opened Wrappers

  /** "#BOOTCONFIG\n" */
  const MAGIC: seq<byte> := [35, 66, 79, 79, 84, 67, 79, 78, 70, 73, 71, 10]
  const MAGIC_SIZE: nat := 12
  const SIZE_SIZE: nat := 4
  const CHECKSUM_SIZE: nat := 4
  const TRAILER_SIZE: nat := 20
  const INT32_LIMIT: nat := 0x8000_0000

  function ByteSum(s: seq<byte>): nat {
    if s == [] then 0 else ByteSum(s[..|s| - 1]) + s[|s| - 1]
  }

  function Trailer(text: seq<byte>): (t: seq<byte>)
    ensures |t| == TRAILER_SIZE
  {
    LE(|text|, SIZE_SIZE) + LE(ByteSum(text) % UINT32, CHECKSUM_SIZE) + MAGIC
  }

  /** The magic directly precedes address `end`. */
  predicate MagicBefore(mem: seq<byte>, end: nat)
    requires MAGIC_SIZE <= end <= |mem|
  {
    mem[end - MAGIC_SIZE..end] == MAGIC
  }

  // --------------------------------------------------- what one call does to memory

  /** The call stays inside memory; it writes behind the section only where there is no trailer yet. */
  predicate CanAddTrailer(mem: seq<byte>, start: nat, size: nat) {
    start > 0 ==>
      && MAGIC_SIZE <= start && start + size <= |mem|
      && (size > 0 && !MagicBefore(mem, start + size) ==> start + size + TRAILER_SIZE <= |mem|)
  }

  function AddTrailer(mem: seq<byte>, start: nat, size: nat): (r: (seq<byte>, int))
    requires CanAddTrailer(mem, start, size)
    ensures |r.0| == |mem|
  {
    if start == 0 then (mem, -1)
    else if size == 0 || MagicBefore(mem, start + size) then (mem, 0)
    else (Write(mem, start + size, Trailer(mem[start..start + size])), TRAILER_SIZE)
  }


  /** The section size without its trailer, if it shows one. */
  function TextSize(mem: seq<byte>, start: nat, size: nat): nat
    requires MAGIC_SIZE <= start && start + size <= |mem|
    requires MagicBefore(mem, start + size) ==> TRAILER_SIZE <= size
  {
    if MagicBefore(mem, start + size) then size - TRAILER_SIZE else size
  }

  /** Room for the new parameters and for what the trailer needs then, and for the trailer an existing magic implies. */
  predicate CanAdd(mem: seq<byte>, start: nat, size: nat, params: seq<byte>) {
    start > 0 ==>
      && MAGIC_SIZE <= start && start + size <= |mem|
      && (MagicBefore(mem, start + size) ==> TRAILER_SIZE <= size)
      && var textSize := TextSize(mem, start, size);
      && start + textSize + |params| <= |mem| && textSize + |params| + TRAILER_SIZE < INT32_LIMIT
      && (params != [] ==> CanAddTrailer(Write(mem, start + textSize, params), start, textSize + |params|))
  }

  function AddParameters(mem: seq<byte>, start: nat, size: nat, params: seq<byte>): (r: (seq<byte>, int))
    requires CanAdd(mem, start, size, params)
    ensures |r.0| == |mem|
  {
    if start == 0 then (mem, -1)
    else if params == [] then (mem, 0)
    else
      var textSize := TextSize(mem, start, size);
      var r := AddTrailer(Write(mem, start + textSize, params), start, textSize + |params|);
      (r.0, textSize - size + |params| + r.1)
  }

  // ------------------------------------------------------------------ the C functions

  method Checksum(mem: array<byte>, buffer: nat, size: nat) returns (sum: nat)
    requires buffer + size <= mem.Length
    ensures sum == ByteSum(mem[buffer..buffer + size]) % UINT32
  {
    sum := 0;
    for i := 0 to size
      invariant sum == ByteSum(mem[buffer..buffer + i]) % UINT32
    {
      assert mem[buffer..buffer + i + 1][..i] == mem[buffer..buffer + i];
      sum := (sum + mem[buffer + i]) % UINT32;
    }
  }

  /** The magic holds no NUL, so strncmp over its length is plain equality. */
  method IsTrailerPresent(mem: array<byte>, end: nat) returns (present: bool)
    requires MAGIC_SIZE <= end <= mem.Length
    ensures present == MagicBefore(mem[..], end)
  {
    assert mem[..][end - MAGIC_SIZE..end] == mem[end - MAGIC_SIZE..end];
    present := mem[end - MAGIC_SIZE..end] == MAGIC;
  }

  method AddBootConfigTrailer(mem: array<byte>, start: nat, size: nat) returns (added: int)
    requires CanAddTrailer(mem[..], start, size) && size < UINT32
    modifies mem
    ensures mem[..] == AddTrailer(old(mem[..]), start, size).0
    ensures added == AddTrailer(old(mem[..]), start, size).1
  {
    hide Write, Trailer;
    if start == 0 { return -1; }
    if size == 0 { return 0; }
    var end := start + size;
    var present := IsTrailerPresent(mem, end);
    if present { return 0; }
    WriteTrailer(mem, start, size);
    return TRAILER_SIZE;
  }

  /** The part of addBootConfigTrailer that writes. */
  method WriteTrailer(mem: array<byte>, start: nat, size: nat)
    requires start + size + TRAILER_SIZE <= mem.Length && size < UINT32
    modifies mem
    ensures mem[..] == Write(old(mem[..]), start + size, Trailer(old(mem[..])[start..start + size]))
  {
    hide Write, ByteSum, LE;
    ghost var before := mem[..];
    var end := start + size;
    WriteInto(mem, end, LE(size, SIZE_SIZE));
    WriteParts(before, end, LE(size, SIZE_SIZE), start);
    assert mem[start..end] == mem[..][start..end];
    var sum := Checksum(mem, start, size);
    WriteInto(mem, end + SIZE_SIZE, LE(sum, CHECKSUM_SIZE));
    WriteInto(mem, end + SIZE_SIZE + CHECKSUM_SIZE, MAGIC);
    ThreeWrites(before, end, LE(size, SIZE_SIZE), LE(sum, CHECKSUM_SIZE), MAGIC);
    assert Trailer(before[start..end]) == LE(size, SIZE_SIZE) + LE(sum, CHECKSUM_SIZE) + MAGIC;
  }

  lemma ThreeWrites(mem: seq<byte>, at: nat, a: seq<byte>, b: seq<byte>, c: seq<byte>)
    requires at + |a| + |b| + |c| <= |mem|
    ensures Write(Write(Write(mem, at, a), at + |a|, b), at + |a| + |b|, c) == Write(mem, at, a + b + c)
  {
  }

  method AddBootConfigParameters(params: Option<seq<byte>>, mem: array<byte>, start: nat, size: nat)
    returns (applied: int)
    requires params.Some? ==> CanAdd(mem[..], start, size, params.value)
    modifies mem
    ensures params.None? ==> applied == -1 && mem[..] == old(mem[..])
    ensures params.Some? ==> mem[..] == AddParameters(old(mem[..]), start, size, params.value).0
    ensures params.Some? ==> applied == AddParameters(old(mem[..]), start, size, params.value).1
  {
    if params.None? || start == 0 { return -1; }
    if |params.value| == 0 { return 0; }
    applied := Apply(params.value, mem, start, size, mem[..]);
  }

  /** The part of addBootConfigParameters after its argument checks. */
  method Apply(params: seq<byte>, mem: array<byte>, start: nat, size: nat, ghost before: seq<byte>)
    returns (applied: int)
    requires before == mem[..] && start > 0 && params != [] && CanAdd(before, start, size, params)
    modifies mem
    ensures mem[..] == AddParameters(before, start, size, params).0
    ensures applied == AddParameters(before, start, size, params).1
  {
    hide Write, AddTrailer;
    applied := 0;
    var end := start + size;
    var present := IsTrailerPresent(mem, end);
    if present {
      end := end - TRAILER_SIZE;
      applied := applied - TRAILER_SIZE;
    }
    WriteInto(mem, end, params);
    assert end == start + TextSize(before, start, size);
    ghost var mem1 := mem[..];
    applied := applied + |params|;
    var added := AddBootConfigTrailer(mem, start, size + applied);
    TwoSteps(before, start, size, params, mem1, size + applied);
    applied := applied + added;
  }

  lemma TwoSteps(mem: seq<byte>, start: nat, size: nat, params: seq<byte>, mem1: seq<byte>, n: nat)
    requires start > 0 && CanAdd(mem, start, size, params) && params != []
    requires mem1 == Write(mem, start + TextSize(mem, start, size), params)
    requires n == TextSize(mem, start, size) + |params|
    ensures AddParameters(mem, start, size, params).0 == AddTrailer(mem1, start, n).0
    ensures AddParameters(mem, start, size, params).1 == n - size + AddTrailer(mem1, start, n).1
  {
  }

  // ------------------------------------------------------------- layout of a section

  /** The section at `start` holds exactly `text` and, unless it is empty, one trailer for it. */
  ghost predicate Layout(mem: seq<byte>, start: nat, size: nat, text: seq<byte>) {
    && MAGIC_SIZE <= start && start + size <= |mem|
    && mem[start..start + size] == if text == [] then [] else text + Trailer(text)
  }

  /** Whether `text` placed after the given bytes looks as if it ended in a trailer. */
  ghost predicate LooksTerminated(before: seq<byte>, text: seq<byte>)
    requires |before| >= MAGIC_SIZE
  {
    var s := before + text;
    s[|s| - MAGIC_SIZE..] == MAGIC
  }

  lemma MagicSeen(mem: seq<byte>, start: nat, text: seq<byte>)
    requires MAGIC_SIZE <= start && start + |text| <= |mem| && mem[start..start + |text|] == text
    ensures MagicBefore(mem, start + |text|) <==> LooksTerminated(mem[..start], text)
  {
    var end := start + |text|;
    assert mem[..end] == mem[..start] + text;
    assert mem[end - MAGIC_SIZE..end] == mem[..end][end - MAGIC_SIZE..];
  }

  lemma LayoutShowsMagic(mem: seq<byte>, start: nat, size: nat, text: seq<byte>)
    requires Layout(mem, start, size, text) && text != []
    ensures size == |text| + TRAILER_SIZE && MagicBefore(mem, start + size)
    ensures mem[start..start + |text|] == text
  {
    var section := mem[start..start + size];
    assert section[|text| + 8..] == MAGIC;
    assert mem[start + size - MAGIC_SIZE..start + size] == section[|text| + 8..];
    assert mem[start..start + |text|] == section[..|text|];
  }

  lemma LayoutMatchesMagic(mem: seq<byte>, start: nat, size: nat, text: seq<byte>)
    requires Layout(mem, start, size, text)
    requires text == [] ==> !LooksTerminated(mem[..start], [])
    ensures MagicBefore(mem, start + size) <==> text != []
    ensures size == |text| + if text == [] then 0 else TRAILER_SIZE
    ensures mem[start..start + |text|] == text
  {
    if text != [] {
      LayoutShowsMagic(mem, start, size, text);
    } else {
      MagicSeen(mem, start, []);
    }
  }

  /**
   * One call: the old text is extended, everything before the section is untouched, and the result
   * has one trailer exactly when the extended text does not itself look terminated.
   */
  lemma AddKeepsLayout(mem: seq<byte>, start: nat, size: nat, text: seq<byte>, params: seq<byte>)
    requires start > 0 && CanAdd(mem, start, size, params) && params != []
    requires Layout(mem, start, size, text)
    requires text == [] ==> !LooksTerminated(mem[..start], [])
    ensures var r := AddParameters(mem, start, size, params);
            && r.0[..start] == mem[..start]
            && 0 <= size + r.1 && start + size + r.1 <= |r.0|
            && r.0[start..start + |text + params|] == text + params
            && (Layout(r.0, start, size + r.1, text + params) <==> !LooksTerminated(mem[..start], text + params))
  {
    hide Layout, LooksTerminated, MagicBefore, Write, AddTrailer;
    LayoutMatchesMagic(mem, start, size, text);
    WriteParts(mem, start + TextSize(mem, start, size), params, start);
    TrailerDecision(Write(mem, start + TextSize(mem, start, size), params), start,
                    TextSize(mem, start, size) + |params|, text + params, mem[..start]);
  }

  lemma TrailerDecision(mem: seq<byte>, start: nat, n: nat, text: seq<byte>, before: seq<byte>)
    requires MAGIC_SIZE <= start && n == |text| > 0 && start + n <= |mem| && CanAddTrailer(mem, start, n)
    requires mem[..start] == before && mem[start..start + n] == text
    ensures var r := AddTrailer(mem, start, n);
            && r.0[..start] == before
            && r.0[start..start + n] == text
            && (r.1 == 0 || r.1 == TRAILER_SIZE) && start + n + r.1 <= |r.0|
            && (Layout(r.0, start, n + r.1, text) <==> !LooksTerminated(before, text))
  {
    hide LooksTerminated, Write, MagicBefore, Trailer;
    MagicSeen(mem, start, text);
    if LooksTerminated(mem[..start], text) {
      assert AddTrailer(mem, start, n) == (mem, 0);
      assert |text + Trailer(text)| != |mem[start..start + n]|;
    } else {
      TrailerWritten(mem, start, text);
    }
  }

  lemma TrailerWritten(mem: seq<byte>, start: nat, text: seq<byte>)
    requires MAGIC_SIZE <= start && text != [] && start + |text| + TRAILER_SIZE <= |mem|
    requires mem[start..start + |text|] == text
    ensures var mem' := Write(mem, start + |text|, Trailer(text));
            && mem'[..start] == mem[..start]
            && mem'[start..start + |text|] == text
            && mem'[start..start + |text| + TRAILER_SIZE] == text + Trailer(text)
  {
    var end := start + |text|;
    WriteParts(mem, end, Trailer(text), start);
  }

  /** A second addBootConfigTrailer on a section with a trailer, or on an empty one, changes nothing. */
  lemma TrailerIsIdempotent(mem: seq<byte>, start: nat, size: nat, text: seq<byte>)
    requires Layout(mem, start, size, text)
    ensures CanAddTrailer(mem, start, size) && AddTrailer(mem, start, size) == (mem, 0)
  {
    if text != [] {
      LayoutShowsMagic(mem, start, size, text);
    }
  }

  // ------------------------------------------------------------------- whole runs

  function Join(parts: seq<seq<byte>>): seq<byte> {
    if parts == [] then [] else Join(parts[..|parts| - 1]) + parts[|parts| - 1]
  }

  datatype Section = Section(mem: seq<byte>, size: nat)

  /** Memory and section size after the calls, the caller adding each result to the size. */
  ghost function Run(mem: seq<byte>, start: nat, parts: seq<seq<byte>>): (r: Option<Section>) {
    if parts == [] then Some(Section(mem, 0))
    else match Run(mem, start, parts[..|parts| - 1])
      case None => None
      case Some(s) => Step(s, start, parts[|parts| - 1])
  }

  ghost function Step(s: Section, start: nat, params: seq<byte>): Option<Section> {
    if CanAdd(s.mem, start, s.size, params) && 0 <= s.size + AddParameters(s.mem, start, s.size, params).1
    then Some(Section(AddParameters(s.mem, start, s.size, params).0,
                      s.size + AddParameters(s.mem, start, s.size, params).1))
    else None
  }

  ghost predicate Holds(s: Section, start: nat, before: seq<byte>, text: seq<byte>) {
    && Layout(s.mem, start, s.size, text)
    && s.mem[..start] == before
    && s.size == |text| + if text == [] then 0 else TRAILER_SIZE
  }

  lemma StepKeepsLayout(s: Section, start: nat, before: seq<byte>, text: seq<byte>, params: seq<byte>)
    requires Holds(s, start, before, text) && params != []
    requires !LooksTerminated(before, text + params) && (text == [] ==> !LooksTerminated(before, []))
    requires start + |text| + |params| + TRAILER_SIZE <= |s.mem|
    requires |text| + |params| + TRAILER_SIZE < INT32_LIMIT
    ensures Step(s, start, params).Some?
    ensures Holds(Step(s, start, params).value, start, before, text + params)
    ensures |Step(s, start, params).value.mem| == |s.mem|
  {
    hide LooksTerminated, MagicBefore, Write, AddTrailer;
    LayoutMatchesMagic(s.mem, start, s.size, text);
    AddKeepsLayout(s.mem, start, s.size, text, params);
    LayoutShowsMagic(AddParameters(s.mem, start, s.size, params).0, start,
                     s.size + AddParameters(s.mem, start, s.size, params).1, text + params);
  }

  /**
   * From an empty section with no magic before it, any run of non-empty parameters whose text so
   * far never looks terminated leaves the joined parameters and a single trailer for them; the
   * deltas the calls return add up to the size of the section.
   */
  lemma {:induction false} RunInvariant(mem: seq<byte>, start: nat, parts: seq<seq<byte>>)
    requires MAGIC_SIZE <= start && (parts != [] ==> start + |Join(parts)| + TRAILER_SIZE <= |mem|) && start <= |mem|
    requires |Join(parts)| + TRAILER_SIZE < INT32_LIMIT
    requires forall i :: 0 <= i < |parts| ==> parts[i] != []
    requires forall i :: 0 <= i <= |parts| ==> !LooksTerminated(mem[..start], Join(parts[..i]))
    ensures Run(mem, start, parts).Some?
    ensures |Run(mem, start, parts).value.mem| == |mem|
    ensures Holds(Run(mem, start, parts).value, start, mem[..start], Join(parts))
  {
    assert parts[..|parts|] == parts;
    if parts != [] {
      var front, last := parts[..|parts| - 1], parts[|parts| - 1];
      assert forall i :: 0 <= i <= |front| ==> front[..i] == parts[..i];
      RunInvariant(mem, start, front);
      if Join(front) == [] { assert parts[..0] == []; }
      StepKeepsLayout(Run(mem, start, front).value, start, mem[..start], Join(front), last);
    }
  }

  /** Parameters that are the magic get no trailer: whatever the text, the section is not laid out for it. */
  lemma MagicTextLosesTrailer(mem: seq<byte>, start: nat, text: seq<byte>)
    requires MAGIC_SIZE <= start && start + |MAGIC| <= |mem| && !MagicBefore(mem, start)
    ensures CanAdd(mem, start, 0, MAGIC)
    ensures var r := AddParameters(mem, start, 0, MAGIC);
            && r.1 == |MAGIC| && r.0 == Write(mem, start, MAGIC)
            && !Layout(r.0, start, |MAGIC|, text)
  {
    var mem1 := Write(mem, start, MAGIC);
    assert MagicBefore(mem1, start + |MAGIC|);
  }

  // --------------------------------------------------------------- the trailer's bytes

  /** Four bytes of a number, the lowest first. */
  function Word(v: nat): (s: seq<byte>)
    ensures |s| == 4
  {
    [v % 256, v / 256 % 256, v / 256 / 256 % 256, v / 256 / 256 / 256 % 256]
  }

  lemma WordWritten(v: nat)
    ensures LE(v, 4) == Word(v)
  {
    assert LE(v / 256 / 256 / 256, 1) == [v / 256 / 256 / 256 % 256];
    assert LE(v / 256 / 256, 2) == [v / 256 / 256 % 256] + LE(v / 256 / 256 / 256, 1);
    assert LE(v / 256, 3) == [v / 256 % 256] + LE(v / 256 / 256, 2);
  }

  /** A section: the text, its length, the sum of its bytes, and "#BOOTCONFIG" with a newline. */
  lemma SectionBytes(mem: seq<byte>, start: nat, size: nat, text: seq<byte>)
    requires Layout(mem, start, size, text) && text != []
    ensures size == |text| + 20
    ensures var end := start + |text|;
            && mem[start..end] == text && mem[end..end + 4] == Word(|text|)
            && mem[end + 4..end + 8] == Word(ByteSum(text) % 0x1_0000_0000)
            && mem[end + 8..end + 20] == [0x23, 0x42, 0x4f, 0x4f, 0x54, 0x43, 0x4f, 0x4e, 0x46, 0x49, 0x47, 0x0a]
  {
    hide Layout, Word, ByteSum;
    SectionIs(mem, start, size, text);
    PartsOfSection(mem, start, text, Word(|text|), Word(ByteSum(text) % UINT32), MAGIC);
  }

  lemma SectionIs(mem: seq<byte>, start: nat, size: nat, text: seq<byte>)
    requires Layout(mem, start, size, text) && text != []
    ensures size == |text| + 20 && start + size <= |mem|
    ensures mem[start..start + size] == text + Word(|text|) + Word(ByteSum(text) % UINT32) + MAGIC
  {
    hide Trailer, Word, ByteSum;
    TrailerIs(text);
    SizeOf(mem[start..start + size], text, Trailer(text));
  }

  lemma SizeOf(s: seq<byte>, a: seq<byte>, b: seq<byte>)
    requires s == a + b
    ensures |s| == |a| + |b|
  {
  }

  lemma TrailerIs(text: seq<byte>)
    ensures text + Trailer(text) == text + Word(|text|) + Word(ByteSum(text) % UINT32) + MAGIC
  {
    hide LE, Word, ByteSum;
    WordWritten(|text|);
    WordWritten(ByteSum(text) % UINT32);
    Joined(text, Word(|text|), Word(ByteSum(text) % UINT32), MAGIC);
  }

  lemma Joined(a: seq<byte>, b: seq<byte>, c: seq<byte>, d: seq<byte>)
    ensures a + (b + c + d) == a + b + c + d
  {
  }

  lemma PartsOfSection(mem: seq<byte>, start: nat, a: seq<byte>, b: seq<byte>, c: seq<byte>, d: seq<byte>)
    requires start + |a| + |b| + |c| + |d| <= |mem|
    requires mem[start..start + |a| + |b| + |c| + |d|] == a + b + c + d
    ensures var i, j, k := start + |a|, start + |a| + |b|, start + |a| + |b| + |c|;
            mem[start..i] == a && mem[i..j] == b && mem[j..k] == c && mem[k..k + |d|] == d
  {
    var end, i, j, k := start + |a| + |b| + |c| + |d|, |a|, |a| + |b|, |a| + |b| + |c|;
    FourParts(a, b, c, d);
    SliceOfSlice(mem, start, end, 0, i);
    SliceOfSlice(mem, start, end, i, j);
    SliceOfSlice(mem, start, end, j, k);
    SliceOfSlice(mem, start, end, k, k + |d|);
  }

  lemma FourParts(a: seq<byte>, b: seq<byte>, c: seq<byte>, d: seq<byte>)
    ensures var s, i, j, k := a + b + c + d, |a|, |a| + |b|, |a| + |b| + |c|;
            s[0..i] == a && s[i..j] == b && s[j..k] == c && s[k..k + |d|] == d
  {
  }

  /** A call on a section of two letters writes these twenty bytes behind them. */
  lemma TwoLetters(mem: seq<byte>, start: nat)
    requires 12 <= start && start + 22 <= |mem| && mem[start..start + 2] == [0x61, 0x62]
    ensures var r := AddTrailer(mem, start, 2);
            && r.1 == 20
            && r.0[start + 2..start + 22]
               == [2, 0, 0, 0, 0xc3, 0, 0, 0, 0x23, 0x42, 0x4f, 0x4f, 0x54, 0x43, 0x4f, 0x4e, 0x46, 0x49, 0x47, 0x0a]
  {
    hide LE, Write, Trailer;
    var text := [0x61, 0x62];
    assert mem[start + 1] == mem[start..start + 2][1] == 0x62;
    assert mem[start + 2 - MAGIC_SIZE..start + 2][11] == mem[start + 1];
    TrailerOfTwo();
    Written(mem, start + 2, Trailer(text));
  }

  lemma TrailerOfTwo()
    ensures Trailer([0x61, 0x62])
         == [2, 0, 0, 0, 0xc3, 0, 0, 0, 0x23, 0x42, 0x4f, 0x4f, 0x54, 0x43, 0x4f, 0x4e, 0x46, 0x49, 0x47, 0x0a]
  {
    hide LE;
    var text: seq<byte> := [0x61, 0x62];
    assert text[..1][..0] == [] && ByteSum(text[..1]) == 0x61 && ByteSum(text) == 0xc3;
    WordWritten(2);
    WordWritten(0xc3);
  }

  lemma Written(mem: seq<byte>, at: nat, data: seq<byte>)
    requires at + |data| <= |mem|
    ensures Write(mem, at, data)[at..at + |data|] == data
  {
  }
}
