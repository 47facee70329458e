/** The DTBO image tool: adding entries, writing the image, reading it back, extracting entries. */
module Dtbo {
  import opened Bytes
  import opened DtboFormat
  import opened Wrappers

  const DTBO_MAGIC: nat := 0xd7b7ab1e
  const ACPIO_MAGIC: nat := 0x41435049
  const HEADER_SIZE: nat := 32
  const ENTRY_SIZE: nat := 32
  const HEADER_INTS: nat := 8
  const ENTRY_INTS: nat := 8
  const COMPRESSION_FORMAT_MASK: nat := 0x0f

  /** The numeric fields of an entry; flags exist in version 1 only, custom3 in version 0 only. */
  datatype Fields = Fields(id: nat, rev: nat, flags: nat, custom0: nat, custom1: nat, custom2: nat, custom3: nat)

  class DtEntry {
    const version: nat
    const path: string
    const pos: nat
    const fields: Fields
    var dtOffset: nat
    var dtSize: nat

    constructor (version: nat, path: string, pos: nat, dtOffset: nat, dtSize: nat, fields: Fields)
      ensures this.version == version && this.path == path && this.pos == pos && this.fields == fields
      ensures this.dtOffset == dtOffset && this.dtSize == dtSize
    {
      this.version := version;
      this.path := path;
      this.pos := pos;
      this.fields := fields;
      this.dtOffset := dtOffset;
      this.dtSize := dtSize;
    }

    function CompressionInfo(): nat {
      if version == 0 then NO_COMPRESSION else fields.flags % (COMPRESSION_FORMAT_MASK + 1)
    }

    function AsSource(): Source {
      Source(path, pos, CompressionInfo())
    }

    function AsExtent(): Extent
      reads this
    {
      Extent(dtOffset, dtSize)
    }

    /** The eight words of the entry header. */
    function Words(): (w: seq<nat>)
      reads this
      ensures |w| == ENTRY_INTS
    {
      [dtSize, dtOffset] + FieldWords(version, fields)
    }
  }

  function FieldWords(version: nat, f: Fields): (w: seq<nat>)
    ensures |w| == 6
  {
    if version == 0 then [f.id, f.rev, f.custom0, f.custom1, f.custom2, f.custom3]
    else [f.id, f.rev, f.flags, f.custom0, f.custom1, f.custom2]
  }

  /** The reader passes every word through str() and back through the number parser. */
  function Reparse(w: nat): Result<nat> {
    GetNumberOrProp(Decimal(w))
  }

  function FieldsFromWords(version: nat, w: seq<nat>): Result<Fields>
    requires |w| == 6
  {
    if version !in {0, 1} then Raised(TypeError)
    else
      var a, b, c, d, e, f := Reparse(w[0]), Reparse(w[1]), Reparse(w[2]), Reparse(w[3]), Reparse(w[4]), Reparse(w[5]);
      if a.Raised? || b.Raised? || c.Raised? || d.Raised? || e.Raised? || f.Raised? then Raised(ValueError)
      else if version == 0 then Ok(Fields(a.value, b.value, 0, c.value, d.value, e.value, f.value))
      else Ok(Fields(a.value, b.value, c.value, d.value, e.value, f.value, 0))
  }

  lemma FieldsSurviveReading(version: nat, w: seq<nat>)
    requires |w| == 6
    ensures FieldsFromWords(version, w).Ok? <==> version in {0, 1}
    ensures version in {0, 1} ==> FieldWords(version, FieldsFromWords(version, w).value) == w
  {
    DecimalSurvivesParser(w[0]);
    DecimalSurvivesParser(w[1]);
    DecimalSurvivesParser(w[2]);
    DecimalSurvivesParser(w[3]);
    DecimalSurvivesParser(w[4]);
    DecimalSurvivesParser(w[5]);
  }

  function Sources(entries: seq<DtEntry>): (r: seq<Source>)
    ensures |r| == |entries|
    ensures forall i :: 0 <= i < |entries| ==> r[i] == entries[i].AsSource()
  {
    seq(|entries|, i requires 0 <= i < |entries| => entries[i].AsSource())
  }

  /** The entry table, one row of words per entry. */
  function Rows(entries: seq<DtEntry>): (rows: seq<seq<nat>>)
    reads entries
    ensures |rows| == |entries|
    ensures forall i :: 0 <= i < |rows| ==> rows[i] == entries[i].Words()
  {
    seq(|entries|, i requires 0 <= i < |entries| reads entries => entries[i].Words())
  }

  function Flatten(rows: seq<seq<nat>>): (w: seq<nat>) {
    if rows == [] then [] else Flatten(rows[..|rows| - 1]) + rows[|rows| - 1]
  }

  /** Writing an entry's row raises when the image's version asks for a field the entry's does not have. */
  ghost function RowError(e: DtEntry, version: nat): Option<Error>
    reads e
  {
    if e.version != version then Some(AttributeError)
    else if !AllWords(e.Words()) then Some(StructError)
    else None
  }

  /** The error of the first row that cannot be written. */
  ghost function FirstError(entries: seq<DtEntry>, version: nat): Option<Error>
    reads entries
  {
    if entries == [] then None
    else if FirstError(entries[..|entries| - 1], version).Some? then FirstError(entries[..|entries| - 1], version)
    else RowError(entries[|entries| - 1], version)
  }

  ghost predicate OfVersion(entries: seq<DtEntry>, version: nat) {
    forall i :: 0 <= i < |entries| ==> entries[i].version == version
  }

  /** Rows can be written exactly if all entries are of the image's version and all numbers fit. */
  lemma {:induction false} NoErrorIff(entries: seq<DtEntry>, version: nat)
    ensures FirstError(entries, version) == None <==> OfVersion(entries, version) && AllWords(Flatten(Rows(entries)))
  {
    hide AllWords, Flatten, OfVersion, RowError;
    if entries != [] {
      var front, last := entries[..|entries| - 1], entries[|entries| - 1];
      NoErrorIff(front, version);
      TableGrows(entries);
      VersionGrows(entries, version);
      AllWordsOfSum(Flatten(Rows(front)), last.Words());
      RowErrorIff(last, version);
    } else {
      NothingWrong(entries, version);
    }
  }

  lemma TableGrows(entries: seq<DtEntry>)
    requires entries != []
    ensures Flatten(Rows(entries)) == Flatten(Rows(entries[..|entries| - 1])) + entries[|entries| - 1].Words()
  {
    assert Rows(entries)[..|entries| - 1] == Rows(entries[..|entries| - 1]);
  }

  lemma VersionGrows(entries: seq<DtEntry>, version: nat)
    requires entries != []
    ensures OfVersion(entries, version)
       <==> OfVersion(entries[..|entries| - 1], version) && entries[|entries| - 1].version == version
  {
    assert entries == entries[..|entries| - 1] + [entries[|entries| - 1]];
  }

  lemma RowErrorIff(e: DtEntry, version: nat)
    ensures RowError(e, version) == None <==> e.version == version && AllWords(e.Words())
  {
  }

  lemma NothingWrong(entries: seq<DtEntry>, version: nat)
    requires entries == []
    ensures OfVersion(entries, version) && AllWords(Flatten(Rows(entries)))
  {
  }

  lemma NoErrorYet(entries: seq<DtEntry>, version: nat)
    ensures FirstError(entries[..0], version) == None
  {
  }

  lemma NothingPacked(rows: seq<seq<nat>>)
    ensures PackWords(Flatten(rows[..0])) == []
  {
  }

  lemma NextError(entries: seq<DtEntry>, version: nat, i: nat)
    requires i < |entries| && FirstError(entries[..i], version) == None
    ensures FirstError(entries[..i + 1], version) == RowError(entries[i], version)
  {
    TakeMore(entries, i);
    assert entries[..i + 1][..i] == entries[..i];
  }

  lemma {:induction false} ErrorStays(entries: seq<DtEntry>, version: nat, i: nat)
    requires i <= |entries| && FirstError(entries[..i], version).Some?
    ensures FirstError(entries, version) == FirstError(entries[..i], version)
    decreases |entries|
  {
    if i < |entries| {
      assert entries[..|entries| - 1][..i] == entries[..i];
      ErrorStays(entries[..|entries| - 1], version, i);
    } else {
      assert entries[..i] == entries;
    }
  }

  ghost predicate Distinct(entries: seq<DtEntry>) {
    forall i, j :: 0 <= i < |entries| && 0 <= j < |entries| && i != j ==> entries[i] != entries[j]
  }

  /** add_dt_entries accepts a non-empty list once, and only formats it can compress. */
  ghost predicate CanAddEntries(present: seq<DtEntry>, entries: seq<DtEntry>) {
    |entries| > 0 && |present| == 0 && AllSupported(Sources(entries))
  }

  ghost predicate Placed(entries: seq<DtEntry>, extents: seq<Extent>)
    reads entries
  {
    && |extents| == |entries|
    && forall i :: 0 <= i < |entries| ==> entries[i].AsExtent() == extents[i]
  }

  lemma PackExtends(files: Files, compress: Compressor, sources: seq<Source>, i: nat, base: nat)
    requires i < |sources|
    ensures Pack(files, compress, sources[..i + 1], base)
         == PackOne(files, compress, Pack(files, compress, sources[..i], base), sources[..i], sources[i], base)
  {
    assert sources[..i + 1][..i] == sources[..i];
  }

  lemma PlacedExtends(entries: seq<DtEntry>, i: nat, extents: seq<Extent>)
    requires i < |entries| && Placed(entries[..i], extents)
    ensures Placed(entries[..i + 1], extents + [entries[i].AsExtent()])
  {
  }

  ghost predicate Table(rows: seq<seq<nat>>) {
    forall i :: 0 <= i < |rows| ==> |rows[i]| == ENTRY_INTS
  }

  lemma {:induction false} FlattenSize(rows: seq<seq<nat>>)
    requires Table(rows)
    ensures |Flatten(rows)| == ENTRY_INTS * |rows|
  {
    if rows != [] {
      FlattenSize(rows[..|rows| - 1]);
    }
  }

  lemma FlattenExtends(rows: seq<seq<nat>>, i: nat)
    requires i < |rows|
    ensures Flatten(rows[..i + 1]) == Flatten(rows[..i]) + rows[i]
    ensures PackWords(Flatten(rows[..i + 1])) == PackWords(Flatten(rows[..i])) + PackWords(rows[i])
    ensures AllWords(Flatten(rows[..i + 1])) <==> AllWords(Flatten(rows[..i])) && AllWords(rows[i])
  {
    assert rows[..i + 1][..i] == rows[..i];
    PackOfSum(Flatten(rows[..i]), rows[i]);
    AllWordsOfSum(Flatten(rows[..i]), rows[i]);
  }

  lemma AllWordsOfSum(a: seq<nat>, b: seq<nat>)
    ensures AllWords(a + b) <==> AllWords(a) && AllWords(b)
  {
    assert forall i :: 0 <= i < |a| ==> (a + b)[i] == a[i];
    assert forall i :: 0 <= i < |b| ==> (a + b)[|a| + i] == b[i];
  }

  /** Writing at position 0 without truncating first. */
  function WriteFromStart(file: seq<byte>, data: seq<byte>): seq<byte> {
    data + if |data| < |file| then file[|data|..] else []
  }

  /** What the reader insists on before it looks at the entries. */
  predicate Readable(file: seq<byte>) {
    && HEADER_SIZE <= |file|
    && var h := UnpackWords(file[..HEADER_SIZE]);
    && HeaderError(h, |file|) == None
    && (h[4] == 0 || h[7] in {0, 1})
  }

  function HeaderError(h: seq<nat>, fileSize: nat): Option<Error>
    requires |h| == HEADER_INTS
  {
    if h[0] != DTBO_MAGIC && h[0] != ACPIO_MAGIC then Some(ValueError)
    else if h[2] != HEADER_SIZE then Some(ValueError)
    else if h[3] != ENTRY_SIZE then Some(ValueError)
    // The message of this error is built from two values but formatted with one.
    else if fileSize < h[2] + h[4] * h[3] then Some(TypeError)
    // A larger offset makes the number of integers in the format string a float.
    else if h[5] > HEADER_SIZE then Some(StructError)
    else None
  }

  /** zlib.decompress; None where it raises. */
  type Inflater = seq<byte> -> Option<seq<byte>>

  function Inflated(data: Option<seq<byte>>): Result<seq<byte>> {
    if data.Some? then Ok(data.value) else Raised(ZlibError)
  }

  class DtboImage {
    var file: seq<byte>
    var dtEntries: seq<DtEntry>
    var metadataSize: nat
    var magic: nat
    var totalSize: nat
    var headerSize: nat
    var dtEntrySize: nat
    var dtEntryCount: nat
    var dtEntriesOffset: nat
    var pageSize: nat
    var version: nat

    ghost predicate Valid()
      reads this
    {
      && headerSize == dtEntriesOffset == HEADER_SIZE && dtEntrySize == ENTRY_SIZE
      && dtEntryCount == |dtEntries| && metadataSize == HEADER_SIZE + ENTRY_SIZE * |dtEntries|
      && version in {0, 1}
    }

    function HeaderWords(): (w: seq<nat>)
      reads this
      ensures |w| == HEADER_INTS
    {
      [magic, totalSize, headerSize, dtEntrySize, dtEntryCount, dtEntriesOffset, pageSize, version]
    }

    lemma HeaderIsCanonical()
      requires Valid() && magic in {DTBO_MAGIC, ACPIO_MAGIC}
      ensures Canonical(HeaderWords(), |dtEntries|)
    {
    }

    /** Dtbo(file_handle, dt_type, page_size, version) with a page size, that is, for writing. */
    constructor Create(file: seq<byte>, acpi: bool, pageSize: nat, version: nat)
      requires pageSize > 0 && version in {0, 1}
      ensures Valid() && dtEntries == [] && this.file == file && totalSize == HEADER_SIZE
      ensures magic == (if acpi then ACPIO_MAGIC else DTBO_MAGIC) && this.pageSize == pageSize
      ensures this.version == version
    {
      this.file := file;
      dtEntries := [];
      magic := if acpi then ACPIO_MAGIC else DTBO_MAGIC;
      totalSize := HEADER_SIZE;
      headerSize := HEADER_SIZE;
      dtEntrySize := ENTRY_SIZE;
      dtEntryCount := 0;
      dtEntriesOffset := HEADER_SIZE;
      this.pageSize := pageSize;
      this.version := version;
      metadataSize := HEADER_SIZE;
    }

    /** The object Dtbo(file_handle) ends up as once the file has been parsed. */
    constructor Parsed(file: seq<byte>, h: seq<nat>, entries: seq<DtEntry>)
      requires |h| == HEADER_INTS
      ensures this.file == file && dtEntries == entries && HeaderWords() == h
    {
      this.file := file;
      dtEntries := entries;
      magic := h[0];
      totalSize := h[1];
      headerSize := h[2];
      dtEntrySize := h[3];
      dtEntryCount := h[4];
      dtEntriesOffset := h[5];
      pageSize := h[6];
      version := h[7];
      metadataSize := h[2] + h[4] * h[3];
    }

    method FindDtEntryWithSameFile(dtEntry: DtEntry) returns (found: Option<nat>)
      ensures var j := FirstWithPath(Sources(dtEntries), dtEntry.path);
              found == if j < |dtEntries| then Some(j) else None
    {
      var sources := Sources(dtEntries);
      for i := 0 to |dtEntries|
        invariant FirstWithPath(sources, dtEntry.path) == i + FirstWithPath(sources[i..], dtEntry.path)
      {
        assert sources[i..][1..] == sources[i + 1..];
        if dtEntries[i].path == dtEntry.path { return Some(i); }
      }
      return None;
    }

    /** Gives the entry its extent; returns the bytes to append to the data, none if reused. */
    method PlaceEntry(dtEntry: DtEntry, files: Files, compress: Compressor, dtOffset: nat, ghost p: Packed,
                      ghost base: nat)
      returns (r: Result<seq<byte>>)
      requires dtEntry !in dtEntries
      requires Placed(dtEntries, p.extents) && dtOffset == base + |p.buf|
      requires AllSupported(Sources(dtEntries))
      modifies dtEntry
      ensures r.Ok? <==> Supported(dtEntry.AsSource())
      ensures r.Ok? ==>
                var q := PackOne(files, compress, p, Sources(dtEntries), dtEntry.AsSource(), base);
                q.extents == p.extents + [dtEntry.AsExtent()] && q.buf == p.buf + r.value
    {
      var found := FindDtEntryWithSameFile(dtEntry);
      var format := dtEntry.CompressionInfo();
      if found.Some? && dtEntries[found.value].CompressionInfo() == format {
        assert Reuses(Sources(dtEntries), dtEntry.AsSource()) == found;
        assert Supported(Sources(dtEntries)[found.value]);
        dtEntry.dtOffset := dtEntries[found.value].dtOffset;
        dtEntry.dtSize := dtEntries[found.value].dtSize;
        assert p.buf + [] == p.buf;
        return Ok([]);
      } else {
        assert Reuses(Sources(dtEntries), dtEntry.AsSource()) == None;
        if format !in {NO_COMPRESSION, ZLIB_COMPRESSION, GZIP_COMPRESSION} { return Raised(LookupError); }
        var stored := Payload(files, compress, dtEntry.AsSource());
        dtEntry.dtOffset := dtOffset;
        dtEntry.dtSize := |stored|;
        return Ok(stored);
      }
    }

    /** Counts an entry whose extent is set, with `stored` new bytes of data. */
    method Register(dtEntry: DtEntry, stored: nat)
      requires Valid()
      modifies this
      ensures Valid() && dtEntries == old(dtEntries) + [dtEntry]
      ensures HeaderKept(old(file), old(magic), old(pageSize), old(version))
      ensures totalSize == old(totalSize) + ENTRY_SIZE + stored
    {
      totalSize := totalSize + stored;
      dtEntries := dtEntries + [dtEntry];
      dtEntryCount := dtEntryCount + 1;
      metadataSize := metadataSize + dtEntrySize;
      totalSize := totalSize + dtEntrySize;
    }

    /** The first `i` entries have been placed as `p` says and counted. */
    ghost predicate Added(entries: seq<DtEntry>, i: nat, p: Packed, total0: nat)
      reads this, entries
    {
      && i <= |entries|
      && Valid() && dtEntries == entries[..i] && AllSupported(Sources(entries)[..i])
      && Placed(entries[..i], p.extents)
      && totalSize == total0 + i * ENTRY_SIZE + |p.buf|
    }

    method AddOne(entries: seq<DtEntry>, i: nat, files: Files, compress: Compressor, dtOffset: nat,
                  ghost p: Packed, ghost base: nat, ghost total0: nat)
      returns (r: Result<seq<byte>>)
      requires Distinct(entries) && i < |entries| && Added(entries, i, p, total0) && dtOffset == base + |p.buf|
      modifies this, entries[i]
      ensures r.Ok? ==> HeaderKept(old(file), old(magic), old(pageSize), old(version))
      ensures r.Ok? <==> Supported(Sources(entries)[i])
      ensures r.Ok? ==>
                var q := PackOne(files, compress, p, Sources(entries)[..i], Sources(entries)[i], base);
                Added(entries, i + 1, q, total0) && q.buf == p.buf + r.value
    {
      assert Sources(entries[..i]) == Sources(entries)[..i];
      TakeMore(entries, i);
      TakeMore(Sources(entries), i);
      r := PlaceEntry(entries[i], files, compress, dtOffset, p, base);
      if r.Raised? { return; }
      PlacedExtends(entries, i, p.extents);
      Register(entries[i], |r.value|);
    }

    /** The loop of add_dt_entries over a list that passed its checks. */
    method AddAll(entries: seq<DtEntry>, files: Files, compress: Compressor, base: nat) returns (r: Result<seq<byte>>)
      requires Valid() && Distinct(entries) && dtEntries == []
      modifies this, entries
      ensures r.Ok? <==> AllSupported(Sources(entries))
      ensures r.Ok? ==> HeaderKept(old(file), old(magic), old(pageSize), old(version))
      ensures r.Ok? ==> Added(entries, |entries|, Pack(files, compress, Sources(entries), base), old(totalSize))
      ensures r.Ok? ==> r.value == Pack(files, compress, Sources(entries), base).buf
    {
      var dtOffset := base;
      var buf: seq<byte> := [];
      ghost var sources := Sources(entries);
      ghost var p := Packed([], []);
      for i := 0 to |entries|
        invariant HeaderKept(old(file), old(magic), old(pageSize), old(version))
        invariant Added(entries, i, p, old(totalSize))
        invariant p == Pack(files, compress, sources[..i], base)
        invariant buf == p.buf && dtOffset == base + |buf|
      {
        r := AddOne(entries, i, files, compress, dtOffset, p, base, old(totalSize));
        if r.Raised? { return; }
        PackExtends(files, compress, sources, i, base);
        p := PackOne(files, compress, p, sources[..i], sources[i], base);
        buf := buf + r.value;
        dtOffset := dtOffset + |r.value|;
      }
      assert sources[..|entries|] == sources;
      return Ok(buf);
    }

    method AddDtEntries(entries: seq<DtEntry>, files: Files, compress: Compressor) returns (r: Result<seq<byte>>)
      requires Valid() && Distinct(entries)
      modifies this, entries
      ensures r.Ok? <==> CanAddEntries(old(dtEntries), entries)
      ensures r.Ok? ==>
                && HeaderKept(old(file), old(magic), old(pageSize), old(version))
                && Added(entries, |entries|,
                         Pack(files, compress, Sources(entries), HEADER_SIZE + |entries| * ENTRY_SIZE), old(totalSize))
                && r.value == Pack(files, compress, Sources(entries), HEADER_SIZE + |entries| * ENTRY_SIZE).buf
    {
      hide Pack, Placed, AllSupported, AllWords;
      if |entries| == 0 { return Raised(ValueError); }
      if |dtEntries| != 0 { return Raised(ValueError); }
      var dtOffset := headerSize + |entries| * dtEntrySize;
      assert dtOffset == HEADER_SIZE + |entries| * ENTRY_SIZE;
      r := AddAll(entries, files, compress, dtOffset);
    }

    /** struct.pack_into of the words at an offset; False models the struct.error of a too wide word. */
    method PackInto(metadata: array<byte>, offset: nat, words: seq<nat>) returns (ok: bool)
      requires offset + 4 * |words| <= metadata.Length
      modifies metadata
      ensures ok <==> AllWords(words)
      ensures metadata[..] == if ok then Write(old(metadata[..]), offset, PackWords(words)) else old(metadata[..])
    {
      if exists i :: 0 <= i < |words| && words[i] >= UINT32 { return false; }
      WriteInto(metadata, offset, PackWords(words));
      return true;
    }

    method PackEntries(metadata: array<byte>) returns (error: Option<Error>)
      requires Valid() && metadata.Length == HEADER_SIZE + ENTRY_SIZE * |dtEntries|
      modifies metadata
      ensures error == FirstError(dtEntries, version)
      ensures error == None ==> metadata[HEADER_SIZE..] == PackWords(Flatten(Rows(dtEntries)))
    {
      hide AllWords, RowError, FirstError, Flatten, PackWords;
      ghost var rows := Rows(dtEntries);
      NoErrorYet(dtEntries, version);
      NothingPacked(rows);
      var metadataOffset := HEADER_SIZE;
      for i := 0 to |dtEntries|
        invariant metadataOffset == HEADER_SIZE + i * ENTRY_SIZE
        invariant FirstError(dtEntries[..i], version) == None
        invariant metadata[HEADER_SIZE..metadataOffset] == PackWords(Flatten(rows[..i]))
      {
        ghost var before := metadata[..];
        FlattenExtends(rows, i);
        NextError(dtEntries, version, i);
        error := PackEntry(metadata, dtEntries[i], metadataOffset);
        if error != None {
          ErrorStays(dtEntries, version, i + 1);
          return;
        }
        WriteParts(before, metadataOffset, PackWords(rows[i]), HEADER_SIZE);
        metadataOffset := metadataOffset + ENTRY_SIZE;
      }
      assert rows[..|rows|] == rows && dtEntries[..|dtEntries|] == dtEntries;
      return None;
    }

    /** _update_dt_entry_header: the image's version decides which fields are written. */
    method PackEntry(metadata: array<byte>, dtEntry: DtEntry, metadataOffset: nat) returns (error: Option<Error>)
      requires metadataOffset + ENTRY_SIZE <= metadata.Length
      modifies metadata
      ensures error == RowError(dtEntry, version)
      ensures error == None ==> metadata[..] == Write(old(metadata[..]), metadataOffset, PackWords(dtEntry.Words()))
    {
      if dtEntry.version != version { return Some(AttributeError); }
      var ok := PackInto(metadata, metadataOffset, dtEntry.Words());
      return if ok then None else Some(StructError);
    }

    /** The first error of _update_metadata: of an entry, or of the header, which is packed last. */
    ghost function MetadataError(): Option<Error>
      reads this, dtEntries
    {
      if FirstError(dtEntries, version).Some? then FirstError(dtEntries, version)
      else if !AllWords(HeaderWords()) then Some(StructError)
      else None
    }

    method UpdateMetadata() returns (metadata: array<byte>, error: Option<Error>)
      requires Valid()
      ensures error == MetadataError()
      ensures error == None ==> metadata[..] == PackWords(HeaderWords() + Flatten(Rows(dtEntries)))
    {
      hide AllWords, RowError, FirstError;
      metadata := new byte[metadataSize](_ => 32);
      error := PackEntries(metadata);
      if error != None { return; }
      ghost var before := metadata[..];
      assert before[HEADER_SIZE..] == metadata[HEADER_SIZE..];
      var ok := PackInto(metadata, 0, HeaderWords());
      if !ok { return metadata, Some(StructError); }
      WriteAtFront(before, PackWords(HeaderWords()));
      PackOfSum(HeaderWords(), Flatten(Rows(dtEntries)));
    }

    method Commit(buf: seq<byte>) returns (r: Result<()>)
      requires Valid()
      modifies this`file
      ensures r == if dtEntries == [] then Raised(ValueError)
                   else if old(MetadataError()).Some? then Raised(old(MetadataError()).value)
                   else Ok(())
      ensures file == if r.Ok? then WriteFromStart(old(file), PackWords(HeaderWords() + Flatten(Rows(dtEntries))) + buf)
                      else old(file)
    {
      if dtEntries == [] { return Raised(ValueError); }
      hide FirstError, AllWords;
      var metadata, error := UpdateMetadata();
      if error.Some? { return Raised(error.value); }
      file := WriteFromStart(file, metadata[..] + buf);
      return Ok(());
    }

    ghost predicate HeaderKept(file0: seq<byte>, magic0: nat, pageSize0: nat, version0: nat)
      reads this
    {
      file == file0 && magic == magic0 && pageSize == pageSize0 && version == version0
    }

    /** Dtbo(file_handle) without a page size, that is, for reading. */
    static method Read(file: seq<byte>) returns (r: Result<DtboImage>)
      ensures r.Ok? <==> Readable(file)
      ensures r.Ok? ==>
                && fresh(r.value) && r.value.file == file
                && r.value.HeaderWords() == UnpackWords(file[..HEADER_SIZE])
                && TableOf(file) == Flatten(Rows(r.value.dtEntries))
                && |r.value.dtEntries| == r.value.dtEntryCount
                && (forall i :: 0 <= i < |r.value.dtEntries| ==> r.value.dtEntries[i].version == r.value.version)
    {
      hide UnpackWords, Flatten;
      if |file| < HEADER_SIZE { return Raised(ValueError); }
      var h := UnpackWords(file[..HEADER_SIZE]);
      var error := HeaderError(h, |file|);
      if error.Some? { return Raised(error.value); }
      var metadata := UnpackWords(file[..HEADER_SIZE + h[4] * ENTRY_SIZE]);
      var entries := ReadDtEntries(metadata, h[5] / 4, h[4], h[7]);
      if entries.Raised? { return Raised(entries.error); }
      var image := new DtboImage.Parsed(file, h, entries.value);
      return Ok(image);
    }

    static method ReadDtEntry(row: seq<nat>, version: nat) returns (r: Result<DtEntry>)
      requires |row| == ENTRY_INTS
      ensures r.Ok? <==> version in {0, 1}
      ensures r.Ok? ==> fresh(r.value) && r.value.version == version && r.value.Words() == row
    {
      FieldsSurviveReading(version, row[2..]);
      var fields := FieldsFromWords(version, row[2..]);
      if fields.Raised? { return Raised(fields.error); }
      var entry := new DtEntry(version, "", 0, row[1], row[0], fields.value);
      assert row == [row[0], row[1]] + row[2..];
      return Ok(entry);
    }

    static method ReadDtEntries(metadata: seq<nat>, first: nat, count: nat, version: nat)
      returns (r: Result<seq<DtEntry>>)
      requires first + count * ENTRY_INTS <= |metadata|
      ensures r.Ok? <==> count == 0 || version in {0, 1}
      ensures r.Ok? ==> |r.value| == count
      ensures r.Ok? ==> Flatten(Rows(r.value)) == metadata[first..first + count * ENTRY_INTS]
      ensures r.Ok? ==> forall i :: 0 <= i < count ==> r.value[i].version == version
    {
      var entries: seq<DtEntry> := [];
      var offset := first;
      for i := 0 to count
        invariant |entries| == i && offset == first + i * ENTRY_INTS
        invariant i > 0 ==> version in {0, 1}
        invariant forall k :: 0 <= k < i ==> entries[k].version == version
        invariant forall k :: 0 <= k < i ==> entries[k].Words() == RowAt(metadata, first, k)
      {
        var entry := ReadDtEntry(metadata[offset..offset + ENTRY_INTS], version);
        if entry.Raised? { return Raised(entry.error); }
        entries := entries + [entry.value];
        offset := offset + ENTRY_INTS;
      }
      RowsMakeTable(Rows(entries), metadata, first);
      return Ok(entries);
    }

    /**
     * The bytes written to the output file; a negative index counts from the end; `inflate` stands for
     * zlib.decompress, and gives None where that raises.
     */
    method ExtractDtFile(idx: int, decompress: bool, inflate: Inflater) returns (r: Result<seq<byte>>)
      requires |dtEntries| == dtEntryCount
      ensures idx > |dtEntries| ==> r == Raised(ValueError)
      ensures idx == |dtEntries| || idx < -|dtEntries| ==> r == Raised(IndexError)
      ensures -|dtEntries| <= idx < |dtEntries| ==>
                var e := dtEntries[if idx < 0 then |dtEntries| + idx else idx];
                var data := ReadAt(file, e.AsExtent());
                r == if !decompress || e.CompressionInfo() == NO_COMPRESSION then Ok(data)
                     else if e.CompressionInfo() in {ZLIB_COMPRESSION, GZIP_COMPRESSION} then Inflated(inflate(data))
                     else Raised(ValueError)
    {
      if idx > dtEntryCount { return Raised(ValueError); }
      var i := if idx < 0 then |dtEntries| + idx else idx;
      if i < 0 || i >= |dtEntries| { return Raised(IndexError); }
      var data := ReadAt(file, dtEntries[i].AsExtent());
      var format := dtEntries[i].CompressionInfo();
      if decompress && format != NO_COMPRESSION {
        if format == ZLIB_COMPRESSION || format == GZIP_COMPRESSION { return Inflated(inflate(data)); }
        return Raised(ValueError);
      }
      return Ok(data);
    }
  }

  /** seek(offset) and read(size): reading stops at the end of the file. */
  function ReadAt(file: seq<byte>, e: Extent): seq<byte> {
    if e.offset >= |file| then []
    else if e.offset + e.size > |file| then file[e.offset..]
    else file[e.offset..e.offset + e.size]
  }

  /** The words of the entry table a readable file's header points to. */
  function TableOf(file: seq<byte>): seq<nat>
    requires Readable(file)
  {
    var h := UnpackWords(file[..HEADER_SIZE]);
    var metadata := UnpackWords(file[..HEADER_SIZE + h[4] * ENTRY_SIZE]);
    metadata[h[5] / 4..h[5] / 4 + h[4] * ENTRY_INTS]
  }

  function RowAt(metadata: seq<nat>, first: nat, k: nat): seq<nat>
    requires first + k * ENTRY_INTS + ENTRY_INTS <= |metadata|
  {
    metadata[first + k * ENTRY_INTS..first + k * ENTRY_INTS + ENTRY_INTS]
  }

  lemma {:induction false} RowsMakeTable(rows: seq<seq<nat>>, metadata: seq<nat>, first: nat)
    requires first + |rows| * ENTRY_INTS <= |metadata|
    requires forall k :: 0 <= k < |rows| ==> rows[k] == RowAt(metadata, first, k)
    ensures Flatten(rows) == metadata[first..first + |rows| * ENTRY_INTS]
  {
    if rows != [] {
      var n := |rows| - 1;
      var end := first + n * ENTRY_INTS;
      var front := rows[..n];
      assert front == rows[..|rows| - 1] && end + ENTRY_INTS == first + |rows| * ENTRY_INTS;
      RowsMakeTable(front, metadata, first);
      assert rows[n] == RowAt(metadata, first, n) == metadata[end..end + ENTRY_INTS];
      SliceJoin(metadata, first, end, end + ENTRY_INTS);
    }
  }

  // --------------------------------------------------------------- written and read back

  lemma {:induction false} UnpackOfPrefix(words: seq<nat>, rest: seq<byte>, n: nat)
    requires AllWords(words) && n <= |words|
    ensures UnpackWords((PackWords(words) + rest)[..4 * n]) == words[..n]
  {
    assert words == words[..n] + words[n..];
    PackOfSum(words[..n], words[n..]);
    assert (PackWords(words) + rest)[..4 * n] == PackWords(words[..n]);
    UnpackOfPack(words[..n]);
  }

  /** The header of an image with `n` entries. */
  ghost predicate Canonical(h: seq<nat>, n: nat) {
    && |h| == HEADER_INTS
    && h[0] in {DTBO_MAGIC, ACPIO_MAGIC} && h[2] == HEADER_SIZE && h[3] == ENTRY_SIZE
    && h[4] == n && h[5] == HEADER_SIZE && h[7] in {0, 1}
  }

  /** The reader accepts a committed file and recovers the very words of its header and entry table. */
  lemma CommittedFileReadsBack(h: seq<nat>, table: seq<nat>, n: nat, buf: seq<byte>, file: seq<byte>)
    requires Canonical(h, n) && |table| == ENTRY_INTS * n && AllWords(h) && AllWords(table)
    requires file == PackWords(h + table) + buf
    ensures Readable(file) && UnpackWords(file[..HEADER_SIZE]) == h && TableOf(file) == table
    ensures |file| == HEADER_SIZE + n * ENTRY_SIZE + |buf| && file[HEADER_SIZE + n * ENTRY_SIZE..] == buf
  {
    AllWordsOfSum(h, table);
    UnpackOfPrefix(h + table, buf, HEADER_INTS);
    UnpackOfPrefix(h + table, buf, HEADER_INTS + |table|);
    assert (h + table)[..HEADER_INTS] == h;
    assert (h + table)[..HEADER_INTS + |table|] == h + table;
    assert (h + table)[HEADER_INTS..] == table;
  }

  /** Every entry reads back as its own payload; extents coincide or are disjoint. */
  ghost predicate Intact(extents: seq<Extent>, file: seq<byte>, payloads: seq<seq<byte>>) {
    && |extents| == |payloads|
    && (forall i :: 0 <= i < |extents| ==> ReadAt(file, extents[i]) == payloads[i])
    && (forall i, j :: 0 <= i < |extents| && 0 <= j < |extents| ==> SameOrDisjoint(extents[i], extents[j]))
  }

  lemma ExtentsReadBack(files: Files, compress: Compressor, sources: seq<Source>, base: nat, extents: seq<Extent>,
                        file: seq<byte>)
    requires FreshHandles(sources) && base <= |file|
    requires extents == Pack(files, compress, sources, base).extents
    requires file[base..] == Pack(files, compress, sources, base).buf
    ensures Intact(extents, file, Payloads(files, compress, sources))
  {
    PackIsSound(files, compress, sources, base);
    assert file == file[..base] + file[base..];
    SoundIsIntact(file[..base], Packed(extents, file[base..]), Payloads(files, compress, sources));
  }

  lemma SoundIsIntact(metadata: seq<byte>, p: Packed, payloads: seq<seq<byte>>)
    requires Sound(payloads, |metadata|, p)
    ensures Intact(p.extents, metadata + p.buf, payloads)
  {
    forall i | 0 <= i < |payloads|
      ensures ReadAt(metadata + p.buf, p.extents[i]) == payloads[i]
    {
      ExtentInFile(metadata, p.buf, p.extents[i], payloads[i]);
    }
  }

  lemma ExtentInFile(metadata: seq<byte>, buf: seq<byte>, e: Extent, payload: seq<byte>)
    requires Holds(buf, |metadata|, e, payload)
    ensures ReadAt(metadata + buf, e) == payload
  {
    var file := metadata + buf;
    assert e.size > 0 ==>
      file[e.offset..e.offset + e.size] == buf[e.offset - |metadata|..e.offset - |metadata| + e.size];
  }

  /** What is left of a payload when it is decompressed as its format says: the entry's whole file. */
  lemma PayloadInflates(files: Files, compress: Compressor, inflate: Inflater, s: Source)
    requires Supported(s) && (s.format == NO_COMPRESSION ==> s.pos == 0)
    requires s.format != NO_COMPRESSION ==> inflate(compress(s.format, files(s.path))) == Some(files(s.path))
    ensures var data := Payload(files, compress, s);
            (if s.format == NO_COMPRESSION then Ok(data) else Inflated(inflate(data))) == Ok(files(s.path))
  {
    assert files(s.path)[0..] == files(s.path);
  }

  /** Two tables with the same words have the same rows. */
  lemma {:induction false} SameRows(a: seq<seq<nat>>, b: seq<seq<nat>>)
    requires Table(a) && Table(b) && |a| == |b| && Flatten(a) == Flatten(b)
    ensures a == b
  {
    if a != [] {
      var n := |a| - 1;
      FlattenSize(a[..n]);
      FlattenSize(b[..n]);
      SameHalves(Flatten(a[..n]), a[n], Flatten(b[..n]), b[n]);
      SameRows(a[..n], b[..n]);
      assert a == a[..n] + [a[n]] && b == b[..n] + [b[n]];
    }
  }

  lemma SameHalves(a: seq<nat>, b: seq<nat>, c: seq<nat>, d: seq<nat>)
    requires |a| == |c| && a + b == c + d
    ensures a == c && b == d
  {
    assert a == (a + b)[..|a|] && c == (c + d)[..|c|];
    assert b == (a + b)[|a|..] && d == (c + d)[|c|..];
  }

  /** Entries of one version with the same words have the same extent and the same format. */
  lemma SameWords(a: DtEntry, b: DtEntry)
    requires a.version == b.version && a.Words() == b.Words()
    ensures a.AsExtent() == b.AsExtent() && a.CompressionInfo() == b.CompressionInfo()
  {
    var v, w := a.Words(), b.Words();
    assert v[0] == a.dtSize && v[1] == a.dtOffset && v[2..] == FieldWords(a.version, a.fields);
    assert w[0] == b.dtSize && w[1] == b.dtOffset && w[2..] == FieldWords(b.version, b.fields);
  }

  function Extents(entries: seq<DtEntry>): (r: seq<Extent>)
    reads entries
    ensures |r| == |entries|
    ensures forall i :: 0 <= i < |entries| ==> r[i] == entries[i].AsExtent()
  {
    seq(|entries|, i requires 0 <= i < |entries| reads entries => entries[i].AsExtent())
  }

  /** The file reads back as the header and entry table of this object and has the size it declares. */
  ghost predicate ReadsBack(dtbo: DtboImage)
    reads dtbo, dtbo.dtEntries
  {
    && dtbo.dtEntryCount == |dtbo.dtEntries| && dtbo.dtEntriesOffset == HEADER_SIZE
    && OfVersion(dtbo.dtEntries, dtbo.version)
    && Readable(dtbo.file)
    && UnpackWords(dtbo.file[..HEADER_SIZE]) == dtbo.HeaderWords()
    && TableOf(dtbo.file) == Flatten(Rows(dtbo.dtEntries))
    && |dtbo.file| == dtbo.totalSize
  }

  /** What create_dtbo_image promises about its output. */
  ghost predicate ImageOf(dtbo: DtboImage, entries: seq<DtEntry>, files: Files, compress: Compressor)
    reads dtbo, dtbo.dtEntries, entries
  {
    && dtbo.dtEntries == entries
    && ReadsBack(dtbo)
    && (FreshHandles(Sources(entries)) ==>
          Intact(Extents(entries), dtbo.file, Payloads(files, compress, Sources(entries))))
  }

  /** create_dtbo_image after argument parsing; the output file was opened for writing, hence empty. */
  method CreateDtboImage(entries: seq<DtEntry>, acpi: bool, pageSize: nat, version: nat, files: Files,
                         compress: Compressor)
    returns (r: Result<DtboImage>)
    requires Distinct(entries) && pageSize > 0 && version in {0, 1}
    modifies entries
    ensures r.Ok? <==> CanCreate(entries, pageSize, version, files, compress)
    ensures r.Ok? ==>
              && ImageOf(r.value, entries, files, compress) && r.value.version == version
              && r.value.pageSize == pageSize && r.value.magic == if acpi then ACPIO_MAGIC else DTBO_MAGIC
  {
    hide Flatten, Pack, Intact, Readable, ImageOf, CanCreate, FirstError, AllWords;
    var dtbo := new DtboImage.Create([], acpi, pageSize, version);
    var buf := dtbo.AddDtEntries(entries, files, compress);
    NeedsEntries(entries, pageSize, version, files, compress);
    if buf.Raised? { return Raised(buf.error); }
    WordsOfAdded(dtbo, entries, files, compress);
    r := CommitAdded(dtbo, entries, files, compress, buf.value, HEADER_SIZE + |entries| * ENTRY_SIZE);
  }

  /**
   * There are entries, of the image's version and in formats it can compress, and their numbers, the page size and the
   * total size fit 32 bits.
   */
  ghost predicate CanCreate(entries: seq<DtEntry>, pageSize: nat, version: nat, files: Files, compress: Compressor) {
    && CanAddEntries([], entries) && OfVersion(entries, version) && pageSize < UINT32
    && TotalSize(entries, files, compress) < UINT32
    && forall i :: 0 <= i < |entries| ==> AllWords(FieldWords(entries[i].version, entries[i].fields))
  }

  function TotalSize(entries: seq<DtEntry>, files: Files, compress: Compressor): nat {
    var base := HEADER_SIZE + |entries| * ENTRY_SIZE;
    base + |Pack(files, compress, Sources(entries), base).buf|
  }

  lemma NeedsEntries(entries: seq<DtEntry>, pageSize: nat, version: nat, files: Files, compress: Compressor)
    ensures CanCreate(entries, pageSize, version, files, compress) ==> CanAddEntries([], entries)
  {
  }

  /** A table fits 32-bit words exactly when each of its rows does. */
  lemma {:induction false} RowsFit(rows: seq<seq<nat>>)
    ensures AllWords(Flatten(rows)) <==> forall i :: 0 <= i < |rows| ==> AllWords(rows[i])
  {
    if rows != [] {
      var n := |rows| - 1;
      RowsFit(rows[..n]);
      AllWordsOfSum(Flatten(rows[..n]), rows[n]);
      assert forall i :: 0 <= i < n ==> rows[..n][i] == rows[i];
    }
  }

  lemma HeaderFits(magic: nat, total: nat, count: nat, pageSize: nat, version: nat)
    requires magic < UINT32 && version < UINT32
    ensures AllWords([magic, total, HEADER_SIZE, ENTRY_SIZE, count, HEADER_SIZE, pageSize, version])
       <==> total < UINT32 && count < UINT32 && pageSize < UINT32
  {
    var w := [magic, total, HEADER_SIZE, ENTRY_SIZE, count, HEADER_SIZE, pageSize, version];
    assert w[0] == magic && w[1] == total && w[4] == count && w[6] == pageSize && w[7] == version;
  }

  lemma RowFits(size: nat, offset: nat, fields: seq<nat>)
    ensures AllWords([size, offset] + fields) <==> size < UINT32 && offset < UINT32 && AllWords(fields)
  {
    AllWordsOfSum([size, offset], fields);
    assert [size, offset][0] == size && [size, offset][1] == offset;
  }

  /** The words to be stored fit exactly when the image can be created. */
  lemma WordsOfAdded(dtbo: DtboImage, entries: seq<DtEntry>, files: Files, compress: Compressor)
    requires CanAddEntries([], entries) && dtbo.magic in {DTBO_MAGIC, ACPIO_MAGIC}
    requires dtbo.Added(entries, |entries|,
                        Pack(files, compress, Sources(entries), HEADER_SIZE + |entries| * ENTRY_SIZE), HEADER_SIZE)
    ensures dtbo.MetadataError() == None <==> CanCreate(entries, dtbo.pageSize, dtbo.version, files, compress)
  {
    hide Pack, Flatten, Payload, CanAddEntries, AllWords, FirstError, OfVersion;
    NoErrorIff(entries, dtbo.version);
    var base := HEADER_SIZE + |entries| * ENTRY_SIZE;
    var p := Pack(files, compress, Sources(entries), base);
    assert entries[..|entries|] == entries;
    RowsFit(Rows(entries));
    PackWithin(files, compress, Sources(entries), base);
    HeaderFits(dtbo.magic, dtbo.totalSize, |entries|, dtbo.pageSize, dtbo.version);
    forall i | 0 <= i < |entries|
      ensures dtbo.totalSize < UINT32 ==>
                (AllWords(Rows(entries)[i]) <==> AllWords(FieldWords(entries[i].version, entries[i].fields)))
    {
      assert entries[i].AsExtent() == p.extents[i];
      RowFits(entries[i].dtSize, entries[i].dtOffset, FieldWords(entries[i].version, entries[i].fields));
    }
  }

  method CommitAdded(dtbo: DtboImage, entries: seq<DtEntry>, files: Files, compress: Compressor, buf: seq<byte>,
                     ghost base: nat)
    returns (r: Result<DtboImage>)
    requires dtbo.file == [] && dtbo.magic in {DTBO_MAGIC, ACPIO_MAGIC} && base == HEADER_SIZE + |entries| * ENTRY_SIZE
    requires dtbo.Added(entries, |entries|, Pack(files, compress, Sources(entries), base), HEADER_SIZE)
    requires buf == Pack(files, compress, Sources(entries), base).buf
    modifies dtbo`file
    ensures r.Ok? <==> entries != [] && old(dtbo.MetadataError()) == None
    ensures r.Ok? ==> r.value == dtbo && ImageOf(dtbo, entries, files, compress)
  {
    hide Flatten, Pack, Intact, PackWords, FirstError, AllWords;
    NoErrorIff(entries, dtbo.version);
    assert entries[..|entries|] == entries;
    ghost var h, table, extents := dtbo.HeaderWords(), Flatten(Rows(entries)), Extents(entries);
    dtbo.HeaderIsCanonical();
    FlattenSize(Rows(entries));
    assert extents == Pack(files, compress, Sources(entries), base).extents;
    var done := dtbo.Commit(buf);
    if done.Raised? { return Raised(done.error); }
    assert dtbo.HeaderWords() == h && Flatten(Rows(entries)) == table && Extents(entries) == extents;
    CommittedFileReadsBack(h, table, |entries|, buf, dtbo.file);
    if FreshHandles(Sources(entries)) {
      ExtentsReadBack(files, compress, Sources(entries), base, extents, dtbo.file);
    }
    return Ok(dtbo);
  }

  /**
   * From the command line's point of view: creating an image, reading its file and extracting entry `i` with
   * decompression gives back the file that the entry was made from.
   */
  method CreateThenExtract(entries: seq<DtEntry>, acpi: bool, pageSize: nat, version: nat, files: Files,
                           compress: Compressor, inflate: Inflater, i: nat)
    returns (r: Result<seq<byte>>)
    requires Distinct(entries) && pageSize > 0 && version in {0, 1} && i < |entries|
    requires CanCreate(entries, pageSize, version, files, compress) && FreshHandles(Sources(entries))
    requires var s := entries[i].AsSource();
             s.format != NO_COMPRESSION ==> inflate(compress(s.format, files(s.path))) == Some(files(s.path))
    modifies entries
    ensures r == Ok(files(entries[i].path))
  {
    hide Flatten, Pack, Readable, CanCreate, TableOf, UnpackWords, FreshHandles, Payload, AllWords;
    var created := CreateDtboImage(entries, acpi, pageSize, version, files, compress);
    var dtbo := created.value;
    ghost var rows := Rows(entries);
    var again := DtboImage.Read(dtbo.file);
    var image := again.value;
    assert Rows(entries) == rows;
    EntriesReadBack(dtbo, image, i);
    EntryIsSupported(entries, pageSize, version, files, compress, i);
    r := image.ExtractDtFile(i, true, inflate);
    PayloadInflates(files, compress, inflate, entries[i].AsSource());
  }

  /** An entry of a list that an image can be made from is in a format it can compress. */
  lemma EntryIsSupported(entries: seq<DtEntry>, pageSize: nat, version: nat, files: Files, compress: Compressor, i: nat)
    requires CanCreate(entries, pageSize, version, files, compress) && FreshHandles(Sources(entries)) && i < |entries|
    ensures Supported(entries[i].AsSource()) && entries[i].pos == 0
  {
    assert Sources(entries)[i] == entries[i].AsSource();
  }

  /** Reading back the file of a created image gives entries with the same extents and formats. */
  lemma EntriesReadBack(dtbo: DtboImage, image: DtboImage, i: nat)
    requires ReadsBack(dtbo) && image.file == dtbo.file && i < |dtbo.dtEntries|
    requires image.HeaderWords() == UnpackWords(image.file[..HEADER_SIZE])
    requires TableOf(image.file) == Flatten(Rows(image.dtEntries)) && |image.dtEntries| == image.dtEntryCount
    requires OfVersion(image.dtEntries, image.version)
    ensures i < |image.dtEntries|
    ensures image.dtEntries[i].AsExtent() == dtbo.dtEntries[i].AsExtent()
    ensures image.dtEntries[i].CompressionInfo() == dtbo.dtEntries[i].CompressionInfo()
  {
    hide Flatten, TableOf, UnpackWords, Readable;
    var a, b := image.HeaderWords(), dtbo.HeaderWords();
    assert a[4] == image.dtEntryCount && b[4] == dtbo.dtEntryCount && a[7] == image.version && b[7] == dtbo.version;
    SameRows(Rows(image.dtEntries), Rows(dtbo.dtEntries));
    assert Rows(image.dtEntries)[i] == Rows(dtbo.dtEntries)[i];
    SameWords(image.dtEntries[i], dtbo.dtEntries[i]);
  }

  // -------------------------------------------------------------- the bytes of an image

  /** The header of an image in its file: magic, sizes, count, offset, page size and version. */
  ghost predicate HeaderAt(file: seq<byte>, acpi: bool, count: nat, pageSize: nat, version: nat) {
    && 32 <= |file|
    && file[0..4] == (if acpi then [0x41, 0x43, 0x50, 0x49] else [0xd7, 0xb7, 0xab, 0x1e])
    && DecodeBE(file[4..8]) == |file| && DecodeBE(file[8..12]) == 32 && DecodeBE(file[12..16]) == 32
    && DecodeBE(file[16..20]) == count && DecodeBE(file[20..24]) == 32 && DecodeBE(file[24..28]) == pageSize
    && DecodeBE(file[28..32]) == version
  }

  /** The 32 bytes of an entry at `at`. */
  ghost predicate EntryAt(file: seq<byte>, at: nat, e: Extent, version: nat, f: Fields) {
    && at + 32 <= |file|
    && DecodeBE(file[at..at + 4]) == e.size && DecodeBE(file[at + 4..at + 8]) == e.offset
    && DecodeBE(file[at + 8..at + 12]) == f.id && DecodeBE(file[at + 12..at + 16]) == f.rev
    && (version == 0 ==>
          && DecodeBE(file[at + 16..at + 20]) == f.custom0 && DecodeBE(file[at + 20..at + 24]) == f.custom1
          && DecodeBE(file[at + 24..at + 28]) == f.custom2 && DecodeBE(file[at + 28..at + 32]) == f.custom3)
    && (version == 1 ==>
          && DecodeBE(file[at + 16..at + 20]) == f.flags && DecodeBE(file[at + 20..at + 24]) == f.custom0
          && DecodeBE(file[at + 24..at + 28]) == f.custom1 && DecodeBE(file[at + 28..at + 32]) == f.custom2)
  }

  /** A created image: every number of header and entries at its place in the file. */
  method CreateThenInspect(entries: seq<DtEntry>, acpi: bool, pageSize: nat, version: nat, files: Files,
                           compress: Compressor)
    returns (r: Result<DtboImage>)
    requires Distinct(entries) && pageSize > 0 && version in {0, 1}
    modifies entries
    ensures r.Ok? <==> CanCreate(entries, pageSize, version, files, compress)
    ensures r.Ok? ==>
              && HeaderAt(r.value.file, acpi, |entries|, pageSize, version)
              && forall i :: 0 <= i < |entries| ==>
                   EntryAt(r.value.file, 32 + 32 * i, entries[i].AsExtent(), version, entries[i].fields)
  {
    hide CanCreate, HeaderAt, EntryAt, Readable, Flatten, TableOf, UnpackWords, Intact;
    r := CreateDtboImage(entries, acpi, pageSize, version, files, compress);
    if r.Raised? { return; }
    HeaderBytes(r.value, acpi);
    forall i | 0 <= i < |entries|
      ensures EntryAt(r.value.file, 32 + 32 * i, entries[i].AsExtent(), version, entries[i].fields)
    {
      EntryBytes(r.value, i);
    }
  }

  lemma HeaderBytes(dtbo: DtboImage, acpi: bool)
    requires ReadsBack(dtbo) && dtbo.magic == if acpi then ACPIO_MAGIC else DTBO_MAGIC
    ensures HeaderAt(dtbo.file, acpi, |dtbo.dtEntries|, dtbo.pageSize, dtbo.version)
  {
    hide UnpackWords, DecodeBE, TableOf, Flatten;
    var s, w := dtbo.file[..32], dtbo.HeaderWords();
    WordInFile(dtbo.file, 32, 0);
    WordInFile(dtbo.file, 32, 1);
    WordInFile(dtbo.file, 32, 2);
    WordInFile(dtbo.file, 32, 3);
    WordInFile(dtbo.file, 32, 4);
    WordInFile(dtbo.file, 32, 5);
    WordInFile(dtbo.file, 32, 6);
    WordInFile(dtbo.file, 32, 7);
    assert w[0] == dtbo.magic && w[1] == dtbo.totalSize && w[2] == dtbo.headerSize && w[3] == dtbo.dtEntrySize;
    assert w[4] == dtbo.dtEntryCount && w[5] == dtbo.dtEntriesOffset && w[6] == dtbo.pageSize && w[7] == dtbo.version;
    MagicIff(dtbo.file[0..4]);
  }

  lemma WordInFile(file: seq<byte>, n: nat, i: nat)
    requires n <= |file| && n % 4 == 0 && 4 * i + 4 <= n
    ensures UnpackWords(file[..n])[i] == DecodeBE(file[4 * i..4 * i + 4])
  {
    hide DecodeBE;
    WordAt(file[..n], i);
    SliceOfSlice(file, 0, n, 4 * i, 4 * i + 4);
    assert file[0..n] == file[..n];
  }

  lemma {:induction false} RowInTable(rows: seq<seq<nat>>, i: nat)
    requires Table(rows) && i < |rows|
    ensures 8 * i + 8 <= |Flatten(rows)| && Flatten(rows)[8 * i..8 * i + 8] == rows[i]
  {
    var n := |rows| - 1;
    FlattenSize(rows[..n]);
    if i < n {
      RowInTable(rows[..n], i);
    }
  }

  lemma EntryBytes(dtbo: DtboImage, i: nat)
    requires ReadsBack(dtbo) && i < |dtbo.dtEntries| && dtbo.version in {0, 1}
    ensures EntryAt(dtbo.file, 32 + 32 * i, dtbo.dtEntries[i].AsExtent(), dtbo.version, dtbo.dtEntries[i].fields)
  {
    hide UnpackWords, DecodeBE, Flatten;
    var file, n := dtbo.file, 32 + 32 * |dtbo.dtEntries|;
    var words := UnpackWords(file[..n]);
    RowInTable(Rows(dtbo.dtEntries), i);
    TableWords(dtbo);
    var row := dtbo.dtEntries[i].Words();
    assert row == words[8..][8 * i..8 * i + 8];
    forall k | 0 <= k < 8
      ensures row[k] == DecodeBE(file[32 + 32 * i + 4 * k..32 + 32 * i + 4 * k + 4])
    {
      assert row[k] == words[8..][8 * i..8 * i + 8][k] == words[8 + 8 * i + k];
      WordInFile(file, n, 8 + 8 * i + k);
    }
    RowIsEntry(file, 32 + 32 * i, dtbo.dtEntries[i]);
  }

  /** The table of a file that reads back is the words behind the header. */
  lemma TableWords(dtbo: DtboImage)
    requires ReadsBack(dtbo)
    ensures 32 + 32 * |dtbo.dtEntries| <= |dtbo.file|
    ensures Flatten(Rows(dtbo.dtEntries)) == UnpackWords(dtbo.file[..32 + 32 * |dtbo.dtEntries|])[8..]
  {
    hide UnpackWords, Flatten;
    var w := dtbo.HeaderWords();
    assert w[4] == dtbo.dtEntryCount && w[5] == dtbo.dtEntriesOffset;
  }

  lemma RowIsEntry(file: seq<byte>, at: nat, e: DtEntry)
    requires at + 32 <= |file| && e.version in {0, 1}
    requires forall k :: 0 <= k < 8 ==> e.Words()[k] == DecodeBE(file[at + 4 * k..at + 4 * k + 4])
    ensures EntryAt(file, at, e.AsExtent(), e.version, e.fields)
  {
    hide DecodeBE;
    var w := e.Words();
    assert w[0] == e.dtSize && w[1] == e.dtOffset && w[2..] == FieldWords(e.version, e.fields);
    assert w[2] == w[2..][0] && w[3] == w[2..][1] && w[4] == w[2..][2] && w[5] == w[2..][3] && w[6] == w[2..][4]
        && w[7] == w[2..][5];
  }

  /** The low four bits of the flags of a version 1 entry name its format, 1 for zlib and 2 for gzip. */
  lemma FormatBits(e: DtEntry)
    ensures e.CompressionInfo() == if e.version == 0 then 0 else e.fields.flags % 16
    ensures Supported(e.AsSource()) <==> e.CompressionInfo() <= 2
  {
  }

  /** The output file is overwritten from its start and not cut. */
  lemma OverwrittenFromStart(file: seq<byte>, data: seq<byte>)
    ensures var after := WriteFromStart(file, data);
            && |after| == (if |data| < |file| then |file| else |data|) && after[..|data|] == data
            && after[|data|..] == if |data| < |file| then file[|data|..] else []
  {
  }

  /** Which files can be read, by the bytes of their headers. */
  lemma ReadableIff(file: seq<byte>)
    ensures Readable(file) <==>
              && |file| >= 32 && (file[0..4] == [0x41, 0x43, 0x50, 0x49] || file[0..4] == [0xd7, 0xb7, 0xab, 0x1e])
              && DecodeBE(file[8..12]) == 32 && DecodeBE(file[12..16]) == 32 && DecodeBE(file[20..24]) <= 32
              && 32 + 32 * DecodeBE(file[16..20]) <= |file|
              && (DecodeBE(file[16..20]) == 0 || DecodeBE(file[28..32]) <= 1)
  {
    hide UnpackWords, DecodeBE;
    if |file| >= 32 {
      WordInFile(file, 32, 0);
      WordInFile(file, 32, 2);
      WordInFile(file, 32, 3);
      WordInFile(file, 32, 4);
      WordInFile(file, 32, 5);
      WordInFile(file, 32, 7);
      MagicIff(file[0..4]);
    }
  }

  lemma MagicIff(s: seq<byte>)
    requires |s| == 4
    ensures DecodeBE(s) == ACPIO_MAGIC <==> s == [0x41, 0x43, 0x50, 0x49]
    ensures DecodeBE(s) == DTBO_MAGIC <==> s == [0xd7, 0xb7, 0xab, 0x1e]
  {
    hide DecodeBE;
    var acpio, dtbo: seq<byte> := [0x41, 0x43, 0x50, 0x49], [0xd7, 0xb7, 0xab, 0x1e];
    BigEndian(acpio);
    BigEndian(dtbo);
    BEOfDecode(s);
    BEOfDecode(acpio);
    BEOfDecode(dtbo);
  }
}
