/** Values behind a DTBO image: 32-bit words, number arguments, and the packing of entries. */
module DtboFormat {
  import opened Bytes
  import opened Wrappers


  // ------------------------------------------------------- big-endian 32-bit words

  ghost predicate AllWords(words: seq<nat>) {
    forall i :: 0 <= i < |words| ==> words[i] < UINT32
  }

  function PackWords(words: seq<nat>): (s: seq<byte>)
    ensures |s| == 4 * |words|
  {
    if words == [] then [] else BE(words[0], 4) + PackWords(words[1..])
  }

  function UnpackWords(s: seq<byte>): (words: seq<nat>)
    requires |s| % 4 == 0
    ensures |words| == |s| / 4
  {
    if s == [] then [] else [DecodeBE(s[..4])] + UnpackWords(s[4..])
  }

  lemma {:induction false} UnpackOfPack(words: seq<nat>)
    requires AllWords(words)
    ensures UnpackWords(PackWords(words)) == words
  {
    hide BE, DecodeBE;
    if words != [] {
      UnpackOfPack(words[1..]);
      var s := PackWords(words);
      assert s[..4] == BE(words[0], 4) && s[4..] == PackWords(words[1..]);
      Pow256Values();
      DecodeOfBE(words[0], 4);
    }
  }

  lemma {:induction false} PackOfSum(a: seq<nat>, b: seq<nat>)
    ensures PackWords(a + b) == PackWords(a) + PackWords(b)
  {
    hide BE;
    if a == [] {
      assert a + b == b;
    } else {
      PackOfSum(a[1..], b);
      assert (a + b)[1..] == a[1..] + b && (a + b)[0] == a[0];
      assert PackWords(a + b) == BE(a[0], 4) + PackWords(a[1..] + b);
    }
  }

  /** Word `i` of a file is what its four bytes say, the first counting most. */
  lemma {:induction false} WordAt(s: seq<byte>, i: nat)
    requires |s| % 4 == 0 && 4 * i + 4 <= |s|
    ensures UnpackWords(s)[i] == DecodeBE(s[4 * i..4 * i + 4])
  {
    hide DecodeBE;
    if i > 0 {
      WordAt(s[4..], i - 1);
      SliceOfSlice(s, 4, |s|, 4 * (i - 1), 4 * i);
      assert s[4..|s|] == s[4..];
    } else {
      assert s[0..4] == s[..4];
    }
  }

  // ---------------------------------------------------------------- number arguments

  /** Value of one digit, if the character is a digit of the base. */
  function Digit(c: char, base: nat): Option<nat> {
    var v := if '0' <= c <= '9' then c as int - '0' as int
             else if 'a' <= c <= 'f' then c as int - 'a' as int + 10
             else if 'A' <= c <= 'F' then c as int - 'A' as int + 10
             else base;
    if v < base then Some(v) else None
  }

  function Digits(s: string, base: nat): Option<nat> {
    if s == "" then Some(0)
    else match (Digits(s[..|s| - 1], base), Digit(s[|s| - 1], base))
      case (Some(v), Some(d)) => Some(v * base + d)
      case _ => None
  }

  /** int(s, base) for ASCII digits with the base's own prefix. */
  function ParseInt(s: string, base: nat): Result<nat> {
    var digits := if |s| >= 2 && s[0] == '0' && ((base == 16 && s[1] in "xX") || (base == 8 && s[1] in "oO"))
                  then s[2..] else s;
    match Digits(digits, base)
    case Some(v) => if digits == "" then Raised(ValueError) else Ok(v)
    case None => Raised(ValueError)
  }

  /** A leading 0x means hexadecimal, any other leading 0 means octal. */
  function GetNumberOrProp(arg: string): Result<nat> {
    if arg == "" || arg[0] == '+' || arg[0] == '-' || arg[0] == '/' then Raised(ValueError)
    else if "0x" <= arg || "0X" <= arg then ParseInt(arg, 16)
    else if "0" <= arg then ParseInt(arg, 8)
    else ParseInt(arg, 10)
  }

  /** str(n) */
  function Decimal(n: nat): (s: string)
    ensures |s| > 0
  {
    if n < 10 then [DigitChar(n)] else Decimal(n / 10) + [DigitChar(n % 10)]
  }

  function DigitChar(d: nat): char
    requires d < 10
  {
    '0' + d as char
  }

  lemma {:induction false} DecimalDigits(n: nat)
    ensures Digits(Decimal(n), 10) == Some(n)
    ensures n > 0 ==> '1' <= Decimal(n)[0] <= '9'
  {
    if n < 10 {
      assert Decimal(n)[..0] == "";
    } else {
      hide Digits;
      DecimalDigits(n / 10);
      OneMoreDigit(Decimal(n / 10), n / 10, n % 10);
    }
  }

  lemma OneMoreDigit(s: string, v: nat, d: nat)
    requires |s| > 0 && d < 10 && Digits(s, 10) == Some(v)
    ensures Digits(s + [DigitChar(d)], 10) == Some(10 * v + d)
    ensures (s + [DigitChar(d)])[0] == s[0]
  {
    assert (s + [DigitChar(d)])[..|s|] == s;
    assert Digit(DigitChar(d), 10) == Some(d);
  }

  /** The reader turns every stored word into a decimal string and parses it; that is the identity. */
  lemma DecimalSurvivesParser(n: nat)
    ensures GetNumberOrProp(Decimal(n)) == Ok(n)
  {
    DecimalDigits(n);
    if n == 0 {
      assert Decimal(0) == "0";
      assert "0"[..0] == "";
      assert Digits("0", 8) == Some(0);
    }
  }

  /** Decimal, hexadecimal behind 0x, octal behind another leading zero. */
  lemma NumbersRead()
    ensures GetNumberOrProp("19") == Ok(19) && GetNumberOrProp("0x1F") == Ok(31) && GetNumberOrProp("0Xa9") == Ok(169)
    ensures GetNumberOrProp("017") == Ok(15) && GetNumberOrProp("0o17") == Ok(15)
  {
    hide Digits;
    TwoDigits('1', '9', 10);
    TwoDigits('1', 'F', 16);
    TwoDigits('a', '9', 16);
    TwoDigits('1', '7', 8);
    assert "0x1F"[2..] == ['1', 'F'] && "0Xa9"[2..] == ['a', '9'] && "0o17"[2..] == ['1', '7'];
    assert "19" == ['1', '9'];
    LeadingZero();
  }

  lemma LeadingZero()
    ensures Digits("017", 8) == Some(15)
  {
    TwoDigits('0', '1', 8);
    assert "017"[..2] == ['0', '1'];
  }

  /** Signs, digits of another base and missing digits raise. */
  lemma NumbersRefused()
    ensures GetNumberOrProp("019") == Raised(ValueError) && GetNumberOrProp("1f") == Raised(ValueError)
    ensures GetNumberOrProp("0x") == Raised(ValueError) && GetNumberOrProp("-1") == Raised(ValueError)
    ensures GetNumberOrProp("") == Raised(ValueError)
  {
    TwoDigits('1', 'f', 10);
    TwoDigits('0', '1', 8);
    assert "0x"[2..] == "" && "019"[..2] == ['0', '1'] && "1f" == ['1', 'f'];
  }

  lemma TwoDigits(a: char, b: char, base: nat)
    ensures Digits([a, b], base)
         == if Digit(a, base).Some? && Digit(b, base).Some?
            then Some(Digit(a, base).value * base + Digit(b, base).value) else None
  {
    assert [a, b][..1] == [a] && [a][..0] == "";
    assert Digits([a], base) == if Digit(a, base).Some? then Some(0 * base + Digit(a, base).value) else None;
  }

  // ------------------------------------------------------------------ packing entries

  const NO_COMPRESSION: nat := 0
  const ZLIB_COMPRESSION: nat := 1
  const GZIP_COMPRESSION: nat := 2

  type Files = string -> seq<byte>
  type Compressor = (nat, seq<byte>) -> seq<byte>

  /** A file handle opened on `path` (resolved), its read position, and the entry's format. */
  datatype Source = Source(path: string, pos: nat, format: nat)

  datatype Extent = Extent(offset: nat, size: nat)

  /** compress_dt_entry: only compressing rewinds the handle first. */
  function Payload(files: Files, compress: Compressor, s: Source): seq<byte> {
    var content := files(s.path);
    if s.format == NO_COMPRESSION then (if s.pos <= |content| then content[s.pos..] else [])
    else compress(s.format, content)
  }

  ghost predicate Supported(s: Source) {
    s.format in {NO_COMPRESSION, ZLIB_COMPRESSION, GZIP_COMPRESSION}
  }

  ghost predicate AllSupported(sources: seq<Source>) {
    forall i :: 0 <= i < |sources| ==> Supported(sources[i])
  }

  function FirstWithPath(sources: seq<Source>, path: string): (j: nat)
    ensures j <= |sources|
    ensures j < |sources| ==> sources[j].path == path
  {
    if sources == [] then 0
    else if sources[0].path == path then 0
    else 1 + FirstWithPath(sources[1..], path)
  }

  datatype Packed = Packed(extents: seq<Extent>, buf: seq<byte>)

  /** Whether the newest entry reuses the extent of the first entry with its path, and which. */
  function Reuses(sources: seq<Source>, s: Source): Option<nat> {
    var j := FirstWithPath(sources, s.path);
    if j < |sources| && sources[j].format == s.format then Some(j) else None
  }

  /** Adds one more entry: it reuses an extent or its payload is appended to the data. */
  function PackOne(files: Files, compress: Compressor, p: Packed, before: seq<Source>, s: Source, base: nat)
    : (q: Packed)
    requires |p.extents| == |before|
    ensures |q.extents| == |before| + 1
  {
    match Reuses(before, s)
    case Some(j) => Packed(p.extents + [p.extents[j]], p.buf)
    case None =>
      Packed(p.extents + [Extent(base + |p.buf|, |Payload(files, compress, s)|)], p.buf + Payload(files, compress, s))
  }

  /** Extents and data after adding all `sources` in order, the data starting at file offset `base`. */
  function Pack(files: Files, compress: Compressor, sources: seq<Source>, base: nat): (p: Packed)
    ensures |p.extents| == |sources|
  {
    if sources == [] then Packed([], [])
    else
      PackOne(files, compress, Pack(files, compress, sources[..|sources| - 1], base),
              sources[..|sources| - 1], sources[|sources| - 1], base)
  }

  /** The extent lies in the data and holds exactly these bytes. */
  ghost predicate Holds(buf: seq<byte>, base: nat, e: Extent, payload: seq<byte>) {
    && base <= e.offset && e.offset + e.size <= base + |buf|
    && buf[e.offset - base..e.offset - base + e.size] == payload
  }

  ghost predicate SameOrDisjoint(a: Extent, b: Extent) {
    a == b || a.offset + a.size <= b.offset || b.offset + b.size <= a.offset
  }

  ghost predicate FreshHandles(sources: seq<Source>) {
    forall i :: 0 <= i < |sources| ==> sources[i].pos == 0
  }

  function Payloads(files: Files, compress: Compressor, sources: seq<Source>): (r: seq<seq<byte>>)
    ensures |r| == |sources|
    ensures forall i :: 0 <= i < |sources| ==> r[i] == Payload(files, compress, sources[i])
  {
    if sources == [] then []
    else Payloads(files, compress, sources[..|sources| - 1]) + [Payload(files, compress, sources[|sources| - 1])]
  }

  /** Every extent holds its entry's payload, and any two extents coincide or are disjoint. */
  ghost predicate Sound(payloads: seq<seq<byte>>, base: nat, p: Packed) {
    && |p.extents| == |payloads|
    && (forall i :: 0 <= i < |payloads| ==> Holds(p.buf, base, p.extents[i], payloads[i]))
    && (forall i, j :: 0 <= i < |payloads| && 0 <= j < |payloads| ==> SameOrDisjoint(p.extents[i], p.extents[j]))
  }

  lemma ReuseKeepsSound(payloads: seq<seq<byte>>, base: nat, p: Packed, j: nat, payload: seq<byte>)
    requires Sound(payloads, base, p) && j < |payloads| && payload == payloads[j]
    ensures Sound(payloads + [payload], base, Packed(p.extents + [p.extents[j]], p.buf))
  {
    assert Holds(p.buf, base, p.extents[j], payloads[j]);
  }

  lemma AppendKeepsSound(payloads: seq<seq<byte>>, base: nat, p: Packed, payload: seq<byte>)
    requires Sound(payloads, base, p)
    ensures Sound(payloads + [payload], base, Packed(p.extents + [Extent(base + |p.buf|, |payload|)], p.buf + payload))
  {
    var extents, buf := p.extents + [Extent(base + |p.buf|, |payload|)], p.buf + payload;
    forall i | 0 <= i < |payloads|
      ensures Holds(buf, base, extents[i], payloads[i])
      ensures extents[i].offset + extents[i].size <= base + |p.buf|
    {
      assert Holds(p.buf, base, p.extents[i], payloads[i]);
      HoldsInLonger(p.buf, buf, base, p.extents[i], payloads[i]);
    }
    assert buf[|p.buf|..|p.buf| + |payload|] == payload;
    assert Holds(buf, base, extents[|payloads|], payload);
  }

  lemma SamePayload(files: Files, compress: Compressor, before: seq<Source>, s: Source, j: nat)
    requires FreshHandles(before) && s.pos == 0 && Reuses(before, s) == Some(j)
    ensures j < |before| && Payload(files, compress, s) == Payloads(files, compress, before)[j]
  {
    assert before[j] == s;
  }

  lemma PackReusedKeepsSound(files: Files, compress: Compressor, p: Packed, before: seq<Source>, s: Source, base: nat)
    requires Sound(Payloads(files, compress, before), base, p)
    requires FreshHandles(before) && s.pos == 0 && Reuses(before, s).Some?
    ensures Sound(Payloads(files, compress, before) + [Payload(files, compress, s)], base,
                  PackOne(files, compress, p, before, s, base))
  {
    SamePayload(files, compress, before, s, Reuses(before, s).value);
    ReuseKeepsSound(Payloads(files, compress, before), base, p, Reuses(before, s).value, Payload(files, compress, s));
  }

  lemma PackNewKeepsSound(files: Files, compress: Compressor, p: Packed, before: seq<Source>, s: Source, base: nat)
    requires Sound(Payloads(files, compress, before), base, p) && Reuses(before, s).None?
    ensures Sound(Payloads(files, compress, before) + [Payload(files, compress, s)], base,
                  PackOne(files, compress, p, before, s, base))
  {
    hide Sound, Payloads, Payload;
    AppendKeepsSound(Payloads(files, compress, before), base, p, Payload(files, compress, s));
  }

  lemma PackOneKeepsSound(files: Files, compress: Compressor, p: Packed, before: seq<Source>, s: Source, base: nat)
    requires Sound(Payloads(files, compress, before), base, p)
    requires FreshHandles(before) && s.pos == 0
    ensures Sound(Payloads(files, compress, before) + [Payload(files, compress, s)], base,
                  PackOne(files, compress, p, before, s, base))
  {
    if Reuses(before, s).Some? {
      PackReusedKeepsSound(files, compress, p, before, s, base);
    } else {
      PackNewKeepsSound(files, compress, p, before, s, base);
    }
  }

  /** Packing fresh handles is sound: de-duplication never hands out someone else's bytes. */
  lemma {:induction false} PackIsSound(files: Files, compress: Compressor, sources: seq<Source>, base: nat)
    requires FreshHandles(sources)
    ensures Sound(Payloads(files, compress, sources), base, Pack(files, compress, sources, base))
  {
    if sources != [] {
      PackIsSound(files, compress, sources[..|sources| - 1], base);
      PackOneKeepsSound(files, compress, Pack(files, compress, sources[..|sources| - 1], base),
                        sources[..|sources| - 1], sources[|sources| - 1], base);
    }
  }

  ghost predicate Within(p: Packed, base: nat) {
    forall i :: 0 <= i < |p.extents| ==> p.extents[i].offset + p.extents[i].size <= base + |p.buf|
  }

  /** No extent reaches beyond the data, whatever the handles' positions. */
  lemma {:induction false} PackWithin(files: Files, compress: Compressor, sources: seq<Source>, base: nat)
    ensures Within(Pack(files, compress, sources, base), base)
  {
    if sources != [] {
      var n := |sources| - 1;
      PackWithin(files, compress, sources[..n], base);
      OneMoreWithin(files, compress, Pack(files, compress, sources[..n], base), sources[..n], sources[n], base);
    }
  }

  lemma OneMoreWithin(files: Files, compress: Compressor, p: Packed, before: seq<Source>, s: Source, base: nat)
    requires |p.extents| == |before| && Within(p, base)
    ensures Within(PackOne(files, compress, p, before, s, base), base)
  {
    hide Payload;
    var q := PackOne(files, compress, p, before, s, base);
    assert |p.buf| <= |q.buf|;
    assert forall i :: 0 <= i < |before| ==> q.extents[i] == p.extents[i];
  }

  lemma HoldsInLonger(buf: seq<byte>, buf': seq<byte>, base: nat, e: Extent, payload: seq<byte>)
    requires buf <= buf' && Holds(buf, base, e, payload)
    ensures Holds(buf', base, e, payload)
  {
    var i, j := e.offset - base, e.offset - base + e.size;
    assert buf'[..|buf|] == buf;
    assert buf'[i..j] == buf'[..|buf|][i..j];
  }

  /** An uncompressed entry is stored whole exactly when its handle stood at the start of the file. */
  lemma StoredWholeIff(files: Files, compress: Compressor, s: Source)
    requires s.format == NO_COMPRESSION
    ensures Payload(files, compress, s) == files(s.path) <==> s.pos == 0 || files(s.path) == []
  {
    var content := files(s.path);
    if 0 < s.pos <= |content| {
      assert |content[s.pos..]| < |content|;
    }
  }

  /** A handle that stands behind the first of two bytes: only the second is packed. */
  lemma ReadHandleLosesBytes(files: Files, compress: Compressor, base: nat)
    requires files("a.dtb") == [1, 2]
    ensures Pack(files, compress, [Source("a.dtb", 1, NO_COMPRESSION)], base) == Packed([Extent(base, 1)], [2])
  {
    var sources := [Source("a.dtb", 1, NO_COMPRESSION)];
    assert sources[..0] == [];
    assert Payload(files, compress, sources[0]) == [2];
    assert Pack(files, compress, [], base) == Packed([], []);
  }
}
