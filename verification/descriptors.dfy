/**
 * Descriptors: the five known kinds and unknown ones, their encodings, and the parser.
 *
 * Names and command lines are kept as the bytes of their UTF-8 encoding, algorithm names as the
 * bytes of their ASCII encoding; parsing raises where these cannot be decoded.  The digest sizes of the
 * algorithms that hashlib knows are a parameter.
 */
module Descriptors {
  import opened Bytes
  import opened Utf8
  import opened Wrappers

  const HEADER_SIZE: nat := 16

  datatype Descriptor =
    | Property(key: seq<byte>, value: seq<byte>)
    | Hashtree(version: nat, imageSize: nat, treeOffset: nat, treeSize: nat, dataBlockSize: nat, hashBlockSize: nat,
               fecNumRoots: nat, fecOffset: nat, fecSize: nat, hashAlgorithm: seq<byte>, partitionName: seq<byte>,
               salt: seq<byte>, rootDigest: seq<byte>, flags: nat)
    | Hash(imageSize: nat, hashAlgorithm: seq<byte>, partitionName: seq<byte>, salt: seq<byte>,
           digest: seq<byte>, flags: nat)
    | KernelCmdline(flags: nat, kernelCmdline: seq<byte>)
    | ChainPartition(rollbackIndexLocation: nat, partitionName: seq<byte>, publicKey: seq<byte>)
    | Unknown(tag: nat, data: seq<byte>)

  /** The digest size of a hash algorithm, or None when hashlib does not know the name. */
  type DigestSizes = seq<byte> -> Option<nat>

  function Tag(d: Descriptor): nat {
    match d
    case Property(_, _) => 0
    case Hashtree(_, _, _, _, _, _, _, _, _, _, _, _, _, _) => 1
    case Hash(_, _, _, _, _, _) => 2
    case KernelCmdline(_, _) => 3
    case ChainPartition(_, _, _) => 4
    case Unknown(tag, _) => tag
  }

  /** The widths of the fixed fields, tag and num_bytes_following first. */
  function Widths(tag: nat): (w: seq<nat>)
    ensures |w| >= 2 && w[0] == 8 && w[1] == 8
  {
    if tag == 0 then [8, 8, 8, 8]
    else if tag == 1 then [8, 8, 4, 8, 8, 8, 4, 4, 4, 8, 8, 32, 4, 4, 4, 4, 60]
    else if tag == 2 then [8, 8, 8, 32, 4, 4, 4, 4, 60]
    else if tag == 3 then [8, 8, 4, 4]
    else if tag == 4 then [8, 8, 4, 4, 4, 64]
    else [8, 8]
  }

  function FixedSize(tag: nat): (n: nat)
    ensures n >= HEADER_SIZE
  {
    if tag == 0 then 32 else if tag == 1 then 180 else if tag == 2 then 132 else if tag == 3 then 24
    else if tag == 4 then 92
    else HEADER_SIZE
  }

  // ------------------------------------------------------------------------ encode

  /** The fixed fields behind tag and num_bytes_following. */
  function Fields(d: Descriptor): seq<seq<byte>> {
    match d
    case Property(key, value) => [BE(|key|, 8), BE(|value|, 8)]
    case Hashtree(version, imageSize, treeOffset, treeSize, dataBlockSize, hashBlockSize, fecNumRoots,
                  fecOffset, fecSize, hashAlgorithm, partitionName, salt, rootDigest, flags) =>
      [BE(version, 4), BE(imageSize, 8), BE(treeOffset, 8), BE(treeSize, 8), BE(dataBlockSize, 4), BE(hashBlockSize, 4),
       BE(fecNumRoots, 4), BE(fecOffset, 8), BE(fecSize, 8), Fixed(hashAlgorithm, 32), BE(|partitionName|, 4),
       BE(|salt|, 4), BE(|rootDigest|, 4), BE(flags, 4), Zeros(60)]
    case Hash(imageSize, hashAlgorithm, partitionName, salt, digest, flags) =>
      [BE(imageSize, 8), Fixed(hashAlgorithm, 32), BE(|partitionName|, 4), BE(|salt|, 4), BE(|digest|, 4),
       BE(flags, 4), Zeros(60)]
    case KernelCmdline(flags, kernelCmdline) => [BE(flags, 4), BE(|kernelCmdline|, 4)]
    case ChainPartition(rollbackIndexLocation, partitionName, publicKey) =>
      [BE(rollbackIndexLocation, 4), BE(|partitionName|, 4), BE(|publicKey|, 4), Zeros(64)]
    case Unknown(_, _) => []
  }

  /** The strings behind the fixed fields. */
  function Body(d: Descriptor): seq<byte> {
    match d
    case Property(key, value) => key + [0] + value + [0]
    case Hashtree(_, _, _, _, _, _, _, _, _, _, partitionName, salt, rootDigest, _) => partitionName + salt + rootDigest
    case Hash(_, _, partitionName, salt, digest, _) => partitionName + salt + digest
    case KernelCmdline(_, kernelCmdline) => kernelCmdline
    case ChainPartition(_, partitionName, publicKey) => partitionName + publicKey
    case Unknown(_, data) => data
  }

  function NumBytesFollowing(d: Descriptor): (n: nat)
    ensures n % 8 == 0
  {
    RoundToMultiple(FixedSize(Tag(d)) - HEADER_SIZE + |Body(d)|, 8)
  }

  /** Every integer fits its field, else struct.pack raises. */
  predicate Packable(d: Descriptor) {
    && Tag(d) < UINT64 && NumBytesFollowing(d) < UINT64
    && match d
       case Property(key, value) => true
       case Hashtree(version, imageSize, treeOffset, treeSize, dataBlockSize, hashBlockSize, fecNumRoots,
                     fecOffset, fecSize, _, partitionName, salt, rootDigest, flags) =>
         && version < UINT32 && imageSize < UINT64 && treeOffset < UINT64 && treeSize < UINT64 && dataBlockSize < UINT32
         && hashBlockSize < UINT32 && fecNumRoots < UINT32 && fecOffset < UINT64 && fecSize < UINT64
         && |partitionName| < UINT32 && |salt| < UINT32 && |rootDigest| < UINT32 && flags < UINT32
       case Hash(imageSize, _, partitionName, salt, digest, flags) =>
         imageSize < UINT64 && |partitionName| < UINT32 && |salt| < UINT32 && |digest| < UINT32 && flags < UINT32
       case KernelCmdline(flags, kernelCmdline) => flags < UINT32 && |kernelCmdline| < UINT32
       case ChainPartition(rollbackIndexLocation, partitionName, publicKey) =>
         rollbackIndexLocation < UINT32 && |partitionName| < UINT32 && |publicKey| < UINT32
       case Unknown(_, _) => true
  }

  function Header(d: Descriptor): seq<byte> {
    Concat([BE(Tag(d), 8), BE(NumBytesFollowing(d), 8)] + Fields(d))
  }

  function Padding(d: Descriptor): seq<byte> {
    Zeros(NumBytesFollowing(d) - (FixedSize(Tag(d)) - HEADER_SIZE + |Body(d)|))
  }

  function Encode(d: Descriptor): Result<seq<byte>> {
    if Packable(d) then Ok(Header(d) + Body(d) + Padding(d)) else Raised(StructError)
  }

  // ------------------------------------------------------------------------- parse

  /** rstrip(b'\0') */
  function RStrip(s: seq<byte>): seq<byte> {
    if s != [] && s[|s| - 1] == 0 then RStrip(s[..|s| - 1]) else s
  }

  function Int(fields: seq<seq<byte>>, i: nat): nat
    requires i < |fields|
  {
    DecodeBE(fields[i])
  }

  /** Tag and length must be those the parsed string lengths imply. */
  predicate Looks(fields: seq<seq<byte>>, tag: nat, lengths: nat)
    requires |fields| >= 2
  {
    Int(fields, 0) == tag && Int(fields, 1) == RoundToMultiple(FixedSize(tag) - HEADER_SIZE + lengths, 8)
  }

  /** bytes.lower(), on ASCII letters. */
  function Lower(s: seq<byte>): (r: seq<byte>)
    ensures |r| == |s|
  {
    seq(|s|, i requires 0 <= i < |s| => if 65 <= s[i] <= 90 then s[i] + 32 else s[i])
  }

  /** "blake2b-256" and "blake2b" */
  const BLAKE2B_256: seq<byte> := [98, 108, 97, 107, 101, 50, 98, 45, 50, 53, 54]
  const BLAKE2B: seq<byte> := [98, 108, 97, 107, 101, 50, 98]

  /** The digest size of create_avb_hashtree_hasher, which knows one algorithm more than hashlib does. */
  function TreeDigestSize(sizes: DigestSizes, algorithm: seq<byte>): Option<nat> {
    if Lower(algorithm) == BLAKE2B_256 then (if sizes(BLAKE2B).Some? then Some(32) else None) else sizes(algorithm)
  }

  /** The stated digest length is zero or the algorithm's. */
  function CheckDigest(size: Option<nat>, length: nat): Option<Error> {
    match size
    case None => Some(ValueError)
    case Some(n) => if length != n && length != 0 then Some(LookupError) else None
  }

  function ParseProperty(f: seq<seq<byte>>, data: seq<byte>): Result<Descriptor>
    requires |f| == 4
  {
    var keySize, valueSize := Int(f, 2), Int(f, 3);
    if !Looks(f, 0, keySize + 1 + valueSize + 1) || !IsUtf8(Slice(data, 32, 32 + keySize)) then Raised(LookupError)
    else Ok(Property(Slice(data, 32, 32 + keySize), Slice(data, 32 + keySize + 1, 32 + keySize + 1 + valueSize)))
  }

  function ParseHashtree(f: seq<seq<byte>>, data: seq<byte>, sizes: DigestSizes): Result<Descriptor>
    requires |f| == 17
  {
    var n, s, r := Int(f, 12), Int(f, 13), Int(f, 14);
    if !Looks(f, 1, n + s + r) then Raised(LookupError)
    else
      var algorithm := RStrip(f[11]);
      if !IsAscii(algorithm) then Raised(UnicodeDecodeError)
      else if !IsUtf8(Slice(data, 180, 180 + n)) then Raised(LookupError)
      else if CheckDigest(TreeDigestSize(sizes, algorithm), r).Some?
      then Raised(CheckDigest(TreeDigestSize(sizes, algorithm), r).value)
      else
        Ok(Hashtree(Int(f, 2), Int(f, 3), Int(f, 4), Int(f, 5), Int(f, 6), Int(f, 7), Int(f, 8), Int(f, 9), Int(f, 10),
                    algorithm, Slice(data, 180, 180 + n), Slice(data, 180 + n, 180 + n + s),
                    Slice(data, 180 + n + s, 180 + n + s + r), Int(f, 15)))
  }

  function ParseHash(f: seq<seq<byte>>, data: seq<byte>, sizes: DigestSizes): Result<Descriptor>
    requires |f| == 9
  {
    var n, s, r := Int(f, 4), Int(f, 5), Int(f, 6);
    if !Looks(f, 2, n + s + r) then Raised(LookupError)
    else
      var algorithm := RStrip(f[3]);
      if !IsAscii(algorithm) then Raised(UnicodeDecodeError)
      else if !IsUtf8(Slice(data, 132, 132 + n)) then Raised(LookupError)
      else if CheckDigest(sizes(algorithm), r).Some? then Raised(CheckDigest(sizes(algorithm), r).value)
      else
        Ok(Hash(Int(f, 2), algorithm, Slice(data, 132, 132 + n), Slice(data, 132 + n, 132 + n + s),
                Slice(data, 132 + n + s, 132 + n + s + r), Int(f, 7)))
  }

  function ParseKernelCmdline(f: seq<seq<byte>>, data: seq<byte>): Result<Descriptor>
    requires |f| == 4
  {
    var n := Int(f, 3);
    if !Looks(f, 3, n) || !IsUtf8(Slice(data, 24, 24 + n)) then Raised(LookupError)
    else Ok(KernelCmdline(Int(f, 2), Slice(data, 24, 24 + n)))
  }

  function ParseChainPartition(f: seq<seq<byte>>, data: seq<byte>): Result<Descriptor>
    requires |f| == 6
  {
    var n, k := Int(f, 3), Int(f, 4);
    if !Looks(f, 4, n + k) || !IsUtf8(Slice(data, 92, 92 + n)) then Raised(LookupError)
    else Ok(ChainPartition(Int(f, 2), Slice(data, 92, 92 + n), Slice(data, 92 + n, 92 + n + k)))
  }

  lemma SumOfFour(a: nat, b: nat, c: nat, d: nat, rest: seq<nat>)
    ensures Sum([a, b, c, d] + rest) == a + b + c + d + Sum(rest)
  {
    assert ([d] + rest)[1..] == rest && Sum([d] + rest) == d + Sum(rest);
    assert ([c, d] + rest)[1..] == [d] + rest && Sum([c, d] + rest) == c + Sum([d] + rest);
    assert ([b, c, d] + rest)[1..] == [c, d] + rest && Sum([b, c, d] + rest) == b + Sum([c, d] + rest);
    assert ([a, b, c, d] + rest)[1..] == [b, c, d] + rest;
  }

  lemma WidthsSum(tag: nat)
    ensures Sum(Widths(tag)) == FixedSize(tag)
  {
    if tag == 1 {
      HashtreeWidthsSum();
    } else if tag == 2 {
      SumOfFour(4, 4, 4, 4, [60]);
      SumOfFour(8, 8, 8, 32, [4, 4, 4, 4] + [60]);
      assert Widths(2) == [8, 8, 8, 32] + ([4, 4, 4, 4] + [60]);
    } else if tag == 4 {
      SumOfFour(8, 8, 4, 4, [4, 64]);
      assert Widths(4) == [8, 8, 4, 4] + [4, 64];
    } else if tag == 0 || tag == 3 {
      SumOfFour(8, 8, Widths(tag)[2], Widths(tag)[3], []);
      assert Widths(tag) == [8, 8, Widths(tag)[2], Widths(tag)[3]] + [];
    }
  }

  lemma HashtreeWidthsSum()
    ensures Sum(Widths(1)) == FixedSize(1)
  {
    hide Sum;
    SumOfFour(4, 4, 4, 4, [60]);
    SumOfFour(4, 8, 8, 32, [4, 4, 4, 4] + [60]);
    SumOfFour(8, 8, 4, 4, [4, 8, 8, 32] + ([4, 4, 4, 4] + [60]));
    SumOfFour(8, 8, 4, 8, [8, 8, 4, 4] + ([4, 8, 8, 32] + ([4, 4, 4, 4] + [60])));
    assert Widths(1) == [8, 8, 4, 8] + ([8, 8, 4, 4] + ([4, 8, 8, 32] + ([4, 4, 4, 4] + [60])));
    SumOfOne(60);
  }

  lemma SumOfOne(a: nat)
    ensures Sum([a]) == a
  {
    assert [a][1..] == [];
  }

  /** The constructor of the class for the tag, given the bytes that the loop cut out. */
  function ParseOne(tag: nat, data: seq<byte>, sizes: DigestSizes): Result<Descriptor> {
    if |data| < FixedSize(tag) then Raised(StructError)
    else
      WidthsSum(tag);
      var f := Split(Widths(tag), data[..FixedSize(tag)]);
      if tag == 0 then ParseProperty(f, data)
      else if tag == 1 then ParseHashtree(f, data, sizes)
      else if tag == 2 then ParseHash(f, data, sizes)
      else if tag == 3 then ParseKernelCmdline(f, data)
      else if tag == 4 then ParseChainPartition(f, data)
      else Ok(Unknown(Int(f, 0), Slice(data, HEADER_SIZE, HEADER_SIZE + Int(f, 1))))
  }

  /** What is behind the first `n` bytes. */
  function Rest(blob: seq<byte>, n: nat): (r: seq<byte>)
    ensures n > 0 && blob != [] ==> |r| < |blob|
  {
    if n <= |blob| then blob[n..] else []
  }

  function ParseAll(blob: seq<byte>, sizes: DigestSizes): Result<seq<Descriptor>>
    decreases |blob|
  {
    if blob == [] then Ok([])
    else if |blob| < HEADER_SIZE then Raised(StructError)
    else
      var tag, following := DecodeBE(blob[..8]), DecodeBE(blob[8..16]);
      match ParseOne(tag, Slice(blob, 0, HEADER_SIZE + following), sizes)
      case Raised(e) => Raised(e)
      case Ok(d) =>
        match ParseAll(Rest(blob, HEADER_SIZE + following), sizes)
        case Raised(e) => Raised(e)
        case Ok(ds) => Ok([d] + ds)
  }

  /** The descriptors found so far, followed by what `rest` parses to, are what `data` parses to. */
  ghost predicate Continues(data: seq<byte>, found: seq<Descriptor>, rest: seq<byte>, sizes: DigestSizes) {
    match ParseAll(rest, sizes)
    case Raised(e) => ParseAll(data, sizes) == Raised(e)
    case Ok(ds) => ParseAll(data, sizes).Ok? && ParseAll(data, sizes).value == found + ds
  }

  /** parse_descriptors */
  method ParseDescriptors(data: seq<byte>, sizes: DigestSizes) returns (r: Result<seq<Descriptor>>)
    ensures r == ParseAll(data, sizes)
  {
    hide ParseOne, ParseAll, Continues, Rest, Slice, DecodeBE;
    var o: nat := 0;
    var ret: seq<Descriptor> := [];
    Begins(data, sizes);
    while o < |data|
      invariant Continues(data, ret, Rest(data, o), sizes)
      decreases |data| - o
    {
      var blob := data[o..];
      RestOfRest(data, o, 0);
      TurnParses(data, ret, blob, sizes);
      if |blob| < HEADER_SIZE { return Raised(StructError); }
      var tag, following := DecodeBE(blob[..8]), DecodeBE(blob[8..16]);
      var d := ParseOne(tag, Slice(blob, 0, HEADER_SIZE + following), sizes);
      if d.Raised? { return Raised(d.error); }
      RestOfRest(data, o, HEADER_SIZE + following);
      ret := ret + [d.value];
      o := o + HEADER_SIZE + following;
    }
    Ends(data, o, ret, sizes);
    return Ok(ret);
  }

  /** One turn of the loop: the errors it can meet, or one more descriptor. */
  lemma TurnParses(data: seq<byte>, found: seq<Descriptor>, blob: seq<byte>, sizes: DigestSizes)
    requires blob != [] && Continues(data, found, blob, sizes)
    ensures |blob| < HEADER_SIZE ==> ParseAll(data, sizes) == Raised(StructError)
    ensures |blob| >= HEADER_SIZE ==>
              var tag, n := DecodeBE(blob[..8]), HEADER_SIZE + DecodeBE(blob[8..16]);
              match ParseOne(tag, Slice(blob, 0, n), sizes)
              case Raised(e) => ParseAll(data, sizes) == Raised(e)
              case Ok(d) => Continues(data, found + [d], Rest(blob, n), sizes)
  {
    hide ParseOne, ParseAll, Slice, DecodeBE, Continues, Rest;
    Unfold(blob, sizes);
    ErrorStays(data, found, blob, sizes);
    if |blob| >= HEADER_SIZE {
      var n := HEADER_SIZE + DecodeBE(blob[8..16]);
      var d := ParseOne(DecodeBE(blob[..8]), Slice(blob, 0, n), sizes);
      if d.Ok? { OneMore(data, found, blob, d.value, Rest(blob, n), sizes); }
    }
  }

  lemma ErrorStays(data: seq<byte>, found: seq<Descriptor>, blob: seq<byte>, sizes: DigestSizes)
    requires Continues(data, found, blob, sizes)
    ensures ParseAll(blob, sizes).Raised? ==> ParseAll(data, sizes) == ParseAll(blob, sizes)
  {
    hide ParseAll;
  }

  lemma Begins(data: seq<byte>, sizes: DigestSizes)
    ensures Continues(data, [], Rest(data, 0), sizes)
  {
    assert Rest(data, 0) == data;
  }

  lemma Ends(data: seq<byte>, o: nat, found: seq<Descriptor>, sizes: DigestSizes)
    requires o >= |data| && Continues(data, found, Rest(data, o), sizes)
    ensures ParseAll(data, sizes) == Ok(found)
  {
    assert found + [] == found;
  }

  lemma RestOfRest(data: seq<byte>, o: nat, n: nat)
    requires o < |data|
    ensures Rest(data, o) == data[o..] && Rest(data[o..], n) == Rest(data, o + n)
  {
  }

  /** One turn of the loop, as ParseAll sees it. */
  lemma Unfold(blob: seq<byte>, sizes: DigestSizes)
    requires blob != []
    ensures |blob| < HEADER_SIZE ==> ParseAll(blob, sizes) == Raised(StructError)
    ensures |blob| >= HEADER_SIZE ==>
              var tag, following := DecodeBE(blob[..8]), DecodeBE(blob[8..16]);
              match ParseOne(tag, Slice(blob, 0, HEADER_SIZE + following), sizes)
              case Raised(e) => ParseAll(blob, sizes) == Raised(e)
              case Ok(d) =>
                match ParseAll(Rest(blob, HEADER_SIZE + following), sizes)
                case Raised(e) => ParseAll(blob, sizes) == Raised(e)
                case Ok(ds) => ParseAll(blob, sizes) == Ok([d] + ds)
  {
    hide ParseOne;
  }

  lemma OneMore(data: seq<byte>, found: seq<Descriptor>, blob: seq<byte>, d: Descriptor, rest: seq<byte>,
                sizes: DigestSizes)
    requires Continues(data, found, blob, sizes)
    requires match ParseAll(rest, sizes)
             case Raised(e) => ParseAll(blob, sizes) == Raised(e)
             case Ok(ds) => ParseAll(blob, sizes) == Ok([d] + ds)
    ensures Continues(data, found + [d], rest, sizes)
  {
    hide ParseAll;
  }

  // -------------------------------------------------------------------- round trip

  /** An algorithm name that survives its 32-byte field. */
  ghost predicate NameFits(s: seq<byte>) {
    |s| <= 32 && (s == [] || s[|s| - 1] != 0)
  }

  /** The names are what encoding a string gives. */
  ghost predicate IsText(d: Descriptor) {
    match d
    case Property(key, _) => IsUtf8(key)
    case Hashtree(_, _, _, _, _, _, _, _, _, hashAlgorithm, partitionName, _, _, _) =>
      IsAscii(hashAlgorithm) && IsUtf8(partitionName)
    case Hash(_, hashAlgorithm, partitionName, _, _, _) => IsAscii(hashAlgorithm) && IsUtf8(partitionName)
    case KernelCmdline(_, kernelCmdline) => IsUtf8(kernelCmdline)
    case ChainPartition(_, partitionName, _) => IsUtf8(partitionName)
    case Unknown(_, _) => true
  }

  /** Descriptors of the five kinds that their own class accepts, and descriptors with an unknown tag. */
  ghost predicate WellFormed(d: Descriptor, sizes: DigestSizes) {
    Packable(d) && IsText(d) &&
    match d
    case Property(_, _) => true
    case Hashtree(_, _, _, _, _, _, _, _, _, hashAlgorithm, _, _, rootDigest, _) =>
      NameFits(hashAlgorithm) && CheckDigest(TreeDigestSize(sizes, hashAlgorithm), |rootDigest|) == None
    case Hash(_, hashAlgorithm, _, _, digest, _) =>
      NameFits(hashAlgorithm) && CheckDigest(sizes(hashAlgorithm), |digest|) == None
    case KernelCmdline(_, _) => true
    case ChainPartition(_, _, _) => true
    case Unknown(tag, _) => tag >= 5
  }

  /** What comes back: only unknown descriptors change, their data being padded to a multiple of 8. */
  function Normalize(d: Descriptor): Descriptor {
    if d.Unknown? then Unknown(d.tag, PadTo(d.data, 8)) else d
  }

  lemma {:induction false} RStripOfPadded(s: seq<byte>, n: nat)
    requires s == [] || s[|s| - 1] != 0
    ensures RStrip(s + Zeros(n)) == s
  {
    if n > 0 {
      RStripOfPadded(s, n - 1);
      assert (s + Zeros(n))[..|s| + n - 1] == s + Zeros(n - 1);
    } else {
      assert s + Zeros(0) == s;
    }
  }

  lemma NameSurvives(s: seq<byte>)
    requires NameFits(s)
    ensures RStrip(Fixed(s, 32)) == s
  {
    RStripOfPadded(s, 32 - |s|);
    if |s| == 32 { assert s[..32] == s + Zeros(0); }
  }

  function AllFields(d: Descriptor): (f: seq<seq<byte>>)
    ensures |f| == 2 + |Fields(d)|
  {
    [BE(Tag(d), 8), BE(NumBytesFollowing(d), 8)] + Fields(d)
  }

  lemma HeaderSplits(d: Descriptor)
    requires d.Unknown? ==> d.tag >= 5
    ensures |Header(d)| == FixedSize(Tag(d)) == Sum(Widths(Tag(d)))
    ensures Split(Widths(Tag(d)), Header(d)) == AllFields(d)
  {
    hide BE, Sum, Concat, Split;
    WidthsSum(Tag(d));
    FieldsFit(d);
    SplitOfConcat(Widths(Tag(d)), AllFields(d));
  }

  lemma FieldsFit(d: Descriptor)
    requires d.Unknown? ==> d.tag >= 5
    ensures Fits(Widths(Tag(d)), AllFields(d))
  {
    hide BE, NumBytesFollowing, Zeros, Fixed;
  }

  lemma DecodeField(v: nat, n: nat)
    requires (n == 4 && v < UINT32) || (n == 8 && v < UINT64)
    ensures DecodeBE(BE(v, n)) == v
  {
    Pow256Values();
    DecodeOfBE(v, n);
  }

  /** Three strings behind a header, and whatever follows, are found by their lengths. */
  lemma PartsBehind(h: seq<byte>, a: seq<byte>, b: seq<byte>, c: seq<byte>, rest: seq<byte>, data: seq<byte>)
    requires data == h + (a + b + c + rest)
    ensures Slice(data, |h|, |h| + |a|) == a
    ensures Slice(data, |h| + |a|, |h| + |a| + |b|) == b
    ensures Slice(data, |h| + |a| + |b|, |h| + |a| + |b| + |c|) == c
  {
    assert data[|h|..|h| + |a|] == a;
    assert data[|h| + |a|..|h| + |a| + |b|] == b;
    assert data[|h| + |a| + |b|..|h| + |a| + |b| + |c|] == c;
  }

  lemma LooksAlike(d: Descriptor, lengths: nat)
    requires Packable(d) && lengths == |Body(d)|
    ensures Looks(AllFields(d), Tag(d), lengths)
  {
    DecodeField(Tag(d), 8);
    DecodeField(NumBytesFollowing(d), 8);
  }

  lemma PropertyReturns(d: Descriptor, data: seq<byte>)
    requires d.Property? && Packable(d) && IsText(d)
    requires data == Header(d) + Body(d) + Padding(d) && |Header(d)| == 32
    ensures ParseProperty(AllFields(d), data) == Ok(d)
  {
    hide Header, AllFields, Padding, Body, IsUtf8;
    PropertyAccepted(d, data);
  }

  lemma PropertyFields(d: Descriptor)
    requires d.Property? && Packable(d)
    ensures var f := AllFields(d); |f| == 4 && Int(f, 2) == |d.key| && Int(f, 3) == |d.value|
  {
    hide BE, DecodeBE;
    assert |d.key| + |d.value| < NumBytesFollowing(d);
    DecodeField(|d.key|, 8);
    DecodeField(|d.value|, 8);
  }

  /** Two strings that end in a NUL each. */
  lemma TwoTerminated(h: seq<byte>, a: seq<byte>, b: seq<byte>, rest: seq<byte>, data: seq<byte>)
    requires data == h + (a + [0] + b + [0]) + rest
    ensures Slice(data, |h|, |h| + |a|) == a
    ensures Slice(data, |h| + |a| + 1, |h| + |a| + 1 + |b|) == b
  {
    hide Slice;
    assert data == h + (a + [0] + b + ([0] + rest));
    PartsBehind(h, a, [0], b, [0] + rest, data);
  }

  lemma HashtreeReturns(d: Descriptor, data: seq<byte>, sizes: DigestSizes)
    requires d.Hashtree? && Packable(d) && IsText(d) && NameFits(d.hashAlgorithm)
    requires CheckDigest(TreeDigestSize(sizes, d.hashAlgorithm), |d.rootDigest|) == None
    requires data == Header(d) + Body(d) + Padding(d) && |Header(d)| == 180
    ensures ParseHashtree(AllFields(d), data, sizes) == Ok(d)
  {
    hide Header, Body, Padding, AllFields, Packable, NameFits, HashtreeRead, CheckDigest, TreeDigestSize;
    HashtreePlaced(d, data);
    HashtreeParsed(AllFields(d), d, data, sizes);
  }

  lemma HashtreePlaced(d: Descriptor, data: seq<byte>)
    requires d.Hashtree? && Packable(d) && NameFits(d.hashAlgorithm)
    requires data == Header(d) + Body(d) + Padding(d) && |Header(d)| == 180
    ensures |AllFields(d)| == 17 && HashtreeRead(AllFields(d), d, data)
  {
    hide Header, Body, Looks, RStrip, Fixed, Slice, Padding, AllFields, Packable, NameFits, Int, HashtreeIn;
    ThreeParts(d);
    LooksAlike(d, |d.partitionName| + |d.salt| + |d.rootDigest|);
    HashtreeFields(d);
    NameSurvives(d.hashAlgorithm);
    PartsInBody(Header(d), d.partitionName, d.salt, d.rootDigest, Padding(d), data);
  }

  lemma ThreeParts(d: Descriptor)
    requires d.Hashtree? || d.Hash?
    ensures var digest := if d.Hashtree? then d.rootDigest else d.digest;
            && Body(d) == d.partitionName + d.salt + digest
            && |Body(d)| == |d.partitionName| + |d.salt| + |digest|
  {
  }

  /** The fields, and the three parts behind them, are those of the descriptor. */
  ghost predicate HashtreeRead(f: seq<seq<byte>>, d: Descriptor, data: seq<byte>)
    requires |f| == 17 && d.Hashtree?
  {
    var n, s := 180 + |d.partitionName|, 180 + |d.partitionName| + |d.salt|;
    && Looks(f, 1, |d.partitionName| + |d.salt| + |d.rootDigest|) && HashtreeIn(f, d)
    && RStrip(f[11]) == d.hashAlgorithm
    && Slice(data, 180, n) == d.partitionName && Slice(data, n, s) == d.salt
    && Slice(data, s, s + |d.rootDigest|) == d.rootDigest
  }

  lemma HashtreeParsed(f: seq<seq<byte>>, d: Descriptor, data: seq<byte>, sizes: DigestSizes)
    requires |f| == 17 && d.Hashtree? && IsText(d) && HashtreeRead(f, d, data)
    requires CheckDigest(TreeDigestSize(sizes, d.hashAlgorithm), |d.rootDigest|) == None
    ensures ParseHashtree(f, data, sizes) == Ok(d)
  {
    hide Looks, RStrip, CheckDigest, TreeDigestSize, Slice, Int, IsAscii, IsUtf8;
  }

  lemma PartsInBody(h: seq<byte>, a: seq<byte>, b: seq<byte>, c: seq<byte>, rest: seq<byte>, data: seq<byte>)
    requires data == h + (a + b + c) + rest
    ensures Slice(data, |h|, |h| + |a|) == a
    ensures Slice(data, |h| + |a|, |h| + |a| + |b|) == b
    ensures Slice(data, |h| + |a| + |b|, |h| + |a| + |b| + |c|) == c
  {
    hide Slice;
    assert data == h + (a + b + c + rest);
    PartsBehind(h, a, b, c, rest, data);
  }

  /** The numbers in the fields of a hashtree descriptor. */
  ghost predicate HashtreeIn(f: seq<seq<byte>>, d: Descriptor)
    requires |f| == 17 && d.Hashtree?
  {
    && Int(f, 2) == d.version && Int(f, 3) == d.imageSize && Int(f, 4) == d.treeOffset && Int(f, 5) == d.treeSize
    && Int(f, 6) == d.dataBlockSize && Int(f, 7) == d.hashBlockSize && Int(f, 8) == d.fecNumRoots
    && Int(f, 9) == d.fecOffset && Int(f, 10) == d.fecSize && Int(f, 12) == |d.partitionName|
    && Int(f, 13) == |d.salt| && Int(f, 14) == |d.rootDigest| && Int(f, 15) == d.flags
  }

  lemma HashtreeFields(d: Descriptor)
    requires d.Hashtree? && Packable(d)
    ensures |AllFields(d)| == 17 && HashtreeIn(AllFields(d), d) && AllFields(d)[11] == Fixed(d.hashAlgorithm, 32)
  {
    hide BE, DecodeBE, NumBytesFollowing;
    DecodeField(d.version, 4);
    DecodeField(d.imageSize, 8);
    DecodeField(d.treeOffset, 8);
    DecodeField(d.treeSize, 8);
    DecodeField(d.dataBlockSize, 4);
    DecodeField(d.hashBlockSize, 4);
    DecodeField(d.fecNumRoots, 4);
    DecodeField(d.fecOffset, 8);
    DecodeField(d.fecSize, 8);
    DecodeField(|d.partitionName|, 4);
    DecodeField(|d.salt|, 4);
    DecodeField(|d.rootDigest|, 4);
    DecodeField(d.flags, 4);
  }

  lemma HashFields(d: Descriptor)
    requires d.Hash? && Packable(d)
    ensures var f := AllFields(d);
            && |f| == 9 && Int(f, 2) == d.imageSize && f[3] == Fixed(d.hashAlgorithm, 32)
            && Int(f, 4) == |d.partitionName|
            && Int(f, 5) == |d.salt| && Int(f, 6) == |d.digest| && Int(f, 7) == d.flags
  {
    hide BE, DecodeBE, Fixed, NumBytesFollowing;
    DecodeField(d.imageSize, 8);
    DecodeField(|d.partitionName|, 4);
    DecodeField(|d.salt|, 4);
    DecodeField(|d.digest|, 4);
    DecodeField(d.flags, 4);
  }

  lemma HashReturns(d: Descriptor, data: seq<byte>, sizes: DigestSizes)
    requires d.Hash? && Packable(d) && IsText(d) && NameFits(d.hashAlgorithm)
    requires CheckDigest(sizes(d.hashAlgorithm), |d.digest|) == None
    requires data == Header(d) + Body(d) + Padding(d) && |Header(d)| == 132
    ensures ParseHash(AllFields(d), data, sizes) == Ok(d)
  {
    hide Header, Body, Looks, RStrip, Fixed, CheckDigest, Slice, Padding, AllFields, Packable, NameFits, Int, IsAscii,
      IsUtf8;
    ThreeParts(d);
    LooksAlike(d, |d.partitionName| + |d.salt| + |d.digest|);
    HashFields(d);
    NameSurvives(d.hashAlgorithm);
    assert |AllFields(d)| == 9;
    PartsInBody(Header(d), d.partitionName, d.salt, d.digest, Padding(d), data);
  }

  lemma KernelCmdlineReturns(d: Descriptor, data: seq<byte>)
    requires d.KernelCmdline? && Packable(d) && IsText(d)
    requires data == Header(d) + Body(d) + Padding(d) && |Header(d)| == 24
    ensures ParseKernelCmdline(AllFields(d), data) == Ok(d)
  {
    hide Header, AllFields, Padding, Body, IsUtf8;
    KernelCmdlineAccepted(d, data);
  }

  lemma ChainPartitionReturns(d: Descriptor, data: seq<byte>)
    requires d.ChainPartition? && Packable(d) && IsText(d)
    requires data == Header(d) + Body(d) + Padding(d) && |Header(d)| == 92
    ensures ParseChainPartition(AllFields(d), data) == Ok(d)
  {
    hide Header, AllFields, Padding, Body, IsUtf8;
    ChainPartitionAccepted(d, data);
  }

  lemma UnknownReturns(d: Descriptor, data: seq<byte>)
    requires d.Unknown? && d.tag >= 5 && Packable(d)
    requires data == Header(d) + Body(d) + Padding(d) && |Header(d)| == HEADER_SIZE
    ensures Unknown(Int(AllFields(d), 0), Slice(data, HEADER_SIZE, HEADER_SIZE + Int(AllFields(d), 1))) == Normalize(d)
  {
    hide Header, BE, DecodeBE;
    DecodeField(d.tag, 8);
    DecodeField(NumBytesFollowing(d), 8);
    assert data == Header(d) + (PadTo(d.data, 8) + [] + [] + []);
    PartsBehind(Header(d), PadTo(d.data, 8), [], [], [], data);
  }

  /** One descriptor: its class parses its encoding back. */
  lemma ParseOfEncoding(d: Descriptor, sizes: DigestSizes)
    requires WellFormed(d, sizes)
    ensures ParseOne(Tag(d), Encode(d).value, sizes) == Ok(Normalize(d))
    ensures |Encode(d).value| == HEADER_SIZE + NumBytesFollowing(d)
    ensures DecodeBE(Encode(d).value[..8]) == Tag(d) && DecodeBE(Encode(d).value[8..16]) == NumBytesFollowing(d)
  {
    hide Header, Body, Padding, ParseProperty, ParseHashtree, ParseHash, ParseKernelCmdline, ParseChainPartition, BE,
      DecodeBE, Widths, Fields, Split, AllFields;
    var data := Header(d) + Body(d) + Padding(d);
    HeaderSplits(d);
    HeaderStarts(d);
    EncodedSize(d);
    assert data[..FixedSize(Tag(d))] == Header(d);
    match d
    case Property(_, _) => PropertyReturns(d, data);
    case Hashtree(_, _, _, _, _, _, _, _, _, _, _, _, _, _) => HashtreeReturns(d, data, sizes);
    case Hash(_, _, _, _, _, _) => HashReturns(d, data, sizes);
    case KernelCmdline(_, _) => KernelCmdlineReturns(d, data);
    case ChainPartition(_, _, _) => ChainPartitionReturns(d, data);
    case Unknown(_, _) => UnknownReturns(d, data);
  }

  lemma EncodedSize(d: Descriptor)
    requires |Header(d)| == FixedSize(Tag(d))
    ensures |Header(d) + Body(d) + Padding(d)| == HEADER_SIZE + NumBytesFollowing(d)
  {
  }

  lemma HeaderStarts(d: Descriptor)
    requires Packable(d) && |Header(d)| >= HEADER_SIZE
    ensures DecodeBE((Header(d) + Body(d) + Padding(d))[..8]) == Tag(d)
    ensures DecodeBE((Header(d) + Body(d) + Padding(d))[8..16]) == NumBytesFollowing(d)
  {
    hide BE, DecodeBE, Body, Padding, Fields;
    DecodeField(Tag(d), 8);
    DecodeField(NumBytesFollowing(d), 8);
    var a, b := BE(Tag(d), 8), BE(NumBytesFollowing(d), 8);
    var f := AllFields(d);
    assert f[0] == a && f[1..][0] == b && f[1..][1..] == f[2..];
    assert Concat(f) == a + (b + Concat(f[2..]));
    TwoAtStart(a, b, Concat(f[2..]), Body(d), Padding(d));
  }

  lemma TwoAtStart(a: seq<byte>, b: seq<byte>, x: seq<byte>, y: seq<byte>, z: seq<byte>)
    requires |a| == 8 && |b| == 8
    ensures var s := a + (b + x) + y + z; s[..8] == a && s[8..16] == b
  {
  }

  function EncodeAll(ds: seq<Descriptor>): Result<seq<byte>> {
    if ds == [] then Ok([])
    else if Encode(ds[0]).Raised? then Raised(StructError)
    else if EncodeAll(ds[1..]).Raised? then Raised(StructError)
    else Ok(Encode(ds[0]).value + EncodeAll(ds[1..]).value)
  }

  function NormalizeAll(ds: seq<Descriptor>): (r: seq<Descriptor>)
    ensures |r| == |ds| && forall i :: 0 <= i < |ds| ==> r[i] == Normalize(ds[i])
  {
    seq(|ds|, i requires 0 <= i < |ds| => Normalize(ds[i]))
  }

  /** Parsing the encodings of any list of well-formed descriptors gives the list back, in order. */
  lemma {:induction false} StreamRoundTrip(ds: seq<Descriptor>, sizes: DigestSizes)
    requires forall i :: 0 <= i < |ds| ==> WellFormed(ds[i], sizes)
    ensures EncodeAll(ds).Ok? && ParseAll(EncodeAll(ds).value, sizes) == Ok(NormalizeAll(ds))
    decreases |ds|
  {
    if ds != [] {
      hide WellFormed, Encode, ParseAll, EncodeAll, Normalize, NormalizeAll;
      assert WellFormed(ds[0], sizes);
      StreamRoundTrip(ds[1..], sizes);
      HeadAndRest(ds[0], EncodeAll(ds[1..]).value, NormalizeAll(ds[1..]), sizes);
      Encodes(ds[0], sizes);
      StreamStep(ds);
    }
  }

  lemma StreamStep(ds: seq<Descriptor>)
    requires ds != [] && Encode(ds[0]).Ok? && EncodeAll(ds[1..]).Ok?
    ensures EncodeAll(ds) == Ok(Encode(ds[0]).value + EncodeAll(ds[1..]).value)
    ensures NormalizeAll(ds) == [Normalize(ds[0])] + NormalizeAll(ds[1..])
  {
    hide Encode, Normalize;
  }

  lemma HeadAndRest(d: Descriptor, rest: seq<byte>, ds: seq<Descriptor>, sizes: DigestSizes)
    requires WellFormed(d, sizes) && ParseAll(rest, sizes) == Ok(ds)
    ensures ParseAll(Encode(d).value + rest, sizes) == Ok([Normalize(d)] + ds)
  {
    hide WellFormed, Encode, ParseOne, DecodeBE;
    assert Encode(d).Ok? by { Encodes(d, sizes); }
    ParseOfEncoding(d, sizes);
    var e := Encode(d).value;
    var blob := e + rest;
    assert blob[..8] == e[..8] && blob[8..16] == e[8..16];
    assert Slice(blob, 0, |e|) == e && Rest(blob, |e|) == rest;
  }

  lemma Encodes(d: Descriptor, sizes: DigestSizes)
    requires WellFormed(d, sizes)
    ensures Encode(d).Ok?
  {
  }

  /** Padding happens once: a normalized descriptor encodes to the same bytes and comes back unchanged. */
  lemma NormalizedIsStable(d: Descriptor, sizes: DigestSizes)
    requires WellFormed(d, sizes)
    ensures WellFormed(Normalize(d), sizes) && Encode(Normalize(d)) == Encode(d)
    ensures Normalize(Normalize(d)) == Normalize(d)
  {
    if d.Unknown? {
      hide Concat, BE;
      assert Header(Normalize(d)) == Header(d);
      assert Padding(Normalize(d)) == [];
      PaddingMoves(Header(d), d.data, Padding(d), PadTo(d.data, 8));
    }
  }

  lemma PaddingMoves(h: seq<byte>, data: seq<byte>, padding: seq<byte>, padded: seq<byte>)
    requires data + padding == padded
    ensures h + data + padding == h + padded + []
  {
  }

  // ----------------------------------------------------------------- what is accepted

  /** An algorithm and digest that the class accepts. */
  ghost predicate DigestMatches(d: Descriptor, sizes: DigestSizes) {
    && (d.Hashtree? ==> CheckDigest(TreeDigestSize(sizes, d.hashAlgorithm), |d.rootDigest|) == None)
    && (d.Hash? ==> CheckDigest(sizes(d.hashAlgorithm), |d.digest|) == None)
  }

  /**
   * An encoding is accepted by its class exactly if its names are text and a digest, if it is not left out, has the
   * size of a known algorithm.
   */
  lemma AcceptedIff(d: Descriptor, sizes: DigestSizes)
    requires Packable(d) && !d.Unknown? && (d.Hash? || d.Hashtree? ==> NameFits(d.hashAlgorithm))
    ensures ParseOne(Tag(d), Encode(d).value, sizes).Ok? <==> IsText(d) && DigestMatches(d, sizes)
    ensures !IsText(d) && (d.Hash? || d.Hashtree? ==> IsAscii(d.hashAlgorithm)) ==>
              ParseOne(Tag(d), Encode(d).value, sizes) == Raised(LookupError)
  {
    hide Header, Body, Padding, Looks, BE, DecodeBE, Widths, Fields, Split, AllFields, IsUtf8, IsAscii, CheckDigest,
      TreeDigestSize, RStrip, Fixed, Packable, NameFits;
    var data := Header(d) + Body(d) + Padding(d);
    HeaderSplits(d);
    EncodedSize(d);
    assert data[..FixedSize(Tag(d))] == Header(d);
    match d
    case Property(_, _) => PropertyAccepted(d, data);
    case Hashtree(_, _, _, _, _, _, _, _, _, _, _, _, _, _) => HashtreeAccepted(d, data, sizes);
    case Hash(_, _, _, _, _, _) => HashAccepted(d, data, sizes);
    case KernelCmdline(_, _) => KernelCmdlineAccepted(d, data);
    case ChainPartition(_, _, _) => ChainPartitionAccepted(d, data);
  }

  lemma PropertyAccepted(d: Descriptor, data: seq<byte>)
    requires d.Property? && Packable(d) && data == Header(d) + Body(d) + Padding(d) && |Header(d)| == 32
    ensures ParseProperty(AllFields(d), data) == if IsUtf8(d.key) then Ok(d) else Raised(LookupError)
  {
    hide Header, Looks, Slice, Padding, AllFields, Packable, Int, IsUtf8;
    LooksAlike(d, |d.key| + 1 + |d.value| + 1);
    PropertyFields(d);
    TwoTerminated(Header(d), d.key, d.value, Padding(d), data);
  }

  lemma KernelCmdlineAccepted(d: Descriptor, data: seq<byte>)
    requires d.KernelCmdline? && Packable(d) && data == Header(d) + Body(d) + Padding(d) && |Header(d)| == 24
    ensures ParseKernelCmdline(AllFields(d), data) == if IsUtf8(d.kernelCmdline) then Ok(d) else Raised(LookupError)
  {
    hide Header, Looks, BE, DecodeBE, IsUtf8;
    LooksAlike(d, |d.kernelCmdline|);
    DecodeField(d.flags, 4);
    DecodeField(|d.kernelCmdline|, 4);
    assert data == Header(d) + (d.kernelCmdline + [] + [] + Padding(d));
    PartsBehind(Header(d), d.kernelCmdline, [], [], Padding(d), data);
  }

  lemma ChainPartitionAccepted(d: Descriptor, data: seq<byte>)
    requires d.ChainPartition? && Packable(d) && data == Header(d) + Body(d) + Padding(d) && |Header(d)| == 92
    ensures ParseChainPartition(AllFields(d), data) == if IsUtf8(d.partitionName) then Ok(d) else Raised(LookupError)
  {
    hide Header, Looks, BE, DecodeBE, IsUtf8;
    LooksAlike(d, |d.partitionName| + |d.publicKey|);
    DecodeField(d.rollbackIndexLocation, 4);
    DecodeField(|d.partitionName|, 4);
    DecodeField(|d.publicKey|, 4);
    assert data == Header(d) + (d.partitionName + d.publicKey + [] + Padding(d));
    PartsBehind(Header(d), d.partitionName, d.publicKey, [], Padding(d), data);
  }

  lemma HashAccepted(d: Descriptor, data: seq<byte>, sizes: DigestSizes)
    requires d.Hash? && Packable(d) && NameFits(d.hashAlgorithm)
    requires data == Header(d) + Body(d) + Padding(d) && |Header(d)| == 132
    ensures var r := ParseHash(AllFields(d), data, sizes);
            && |AllFields(d)| == 9 && (r.Ok? <==> IsText(d) && CheckDigest(sizes(d.hashAlgorithm), |d.digest|) == None)
            && (IsAscii(d.hashAlgorithm) && !IsUtf8(d.partitionName) ==> r == Raised(LookupError))
  {
    hide Header, Body, Looks, RStrip, Fixed, CheckDigest, Slice, Padding, AllFields, Packable, NameFits, Int, IsAscii,
      IsUtf8;
    ThreeParts(d);
    LooksAlike(d, |d.partitionName| + |d.salt| + |d.digest|);
    HashFields(d);
    NameSurvives(d.hashAlgorithm);
    PartsInBody(Header(d), d.partitionName, d.salt, d.digest, Padding(d), data);
  }

  lemma HashtreeAccepted(d: Descriptor, data: seq<byte>, sizes: DigestSizes)
    requires d.Hashtree? && Packable(d) && NameFits(d.hashAlgorithm)
    requires data == Header(d) + Body(d) + Padding(d) && |Header(d)| == 180
    ensures var r := ParseHashtree(AllFields(d), data, sizes);
            && |AllFields(d)| == 17
            && (r.Ok? <==> IsText(d) && CheckDigest(TreeDigestSize(sizes, d.hashAlgorithm), |d.rootDigest|) == None)
            && (IsAscii(d.hashAlgorithm) && !IsUtf8(d.partitionName) ==> r == Raised(LookupError))
  {
    hide Header, Body, Padding, AllFields, Packable, NameFits, HashtreeRead, CheckDigest, TreeDigestSize, IsAscii,
      IsUtf8, ParseHashtree;
    HashtreePlaced(d, data);
    HashtreeJudged(AllFields(d), d, data, sizes);
  }

  lemma HashtreeJudged(f: seq<seq<byte>>, d: Descriptor, data: seq<byte>, sizes: DigestSizes)
    requires |f| == 17 && d.Hashtree? && HashtreeRead(f, d, data)
    ensures var r := ParseHashtree(f, data, sizes);
            && (r.Ok? <==> IsText(d) && CheckDigest(TreeDigestSize(sizes, d.hashAlgorithm), |d.rootDigest|) == None)
            && (IsAscii(d.hashAlgorithm) && !IsUtf8(d.partitionName) ==> r == Raised(LookupError))
  {
    hide Looks, RStrip, CheckDigest, TreeDigestSize, Slice, Int, IsAscii, IsUtf8;
  }

  /** The digest may be left out; otherwise its size must be that of the algorithm. */
  lemma DigestSizesMatter(size: Option<nat>, length: nat)
    ensures CheckDigest(size, length) == None <==> size.Some? && (length == 0 || length == size.value)
  {
  }

  /** What a class accepts says its own tag and its own length. */
  lemma AcceptedIsComplete(tag: nat, data: seq<byte>, sizes: DigestSizes)
    requires tag < 5 && 16 <= |data| && |data| == 16 + DecodeBE(data[8..16]) && ParseOne(tag, data, sizes).Ok?
    ensures DecodeBE(data[0..8]) == tag
    ensures Tag(ParseOne(tag, data, sizes).value) == tag
    ensures NumBytesFollowing(ParseOne(tag, data, sizes).value) == |data| - 16
  {
    hide Split, DecodeBE, Sum, ParseProperty, ParseHashtree, ParseHash, ParseKernelCmdline, ParseChainPartition,
      NumBytesFollowing;
    WidthsSum(tag);
    var n := FixedSize(tag);
    var f := Split(Widths(tag), data[..n]);
    NoWidths(Widths(tag));
    NextField(Widths(tag), f, data, 0, 0);
    NextField(Widths(tag), f, data, 1, 8);
    if tag == 0 {
      PropertyComplete(f, data);
    } else if tag == 1 {
      HashtreeComplete(f, data, sizes);
    } else if tag == 2 {
      HashComplete(f, data, sizes);
    } else if tag == 3 {
      KernelCmdlineComplete(f, data);
    } else {
      ChainPartitionComplete(f, data);
    }
  }

  lemma PropertyComplete(f: seq<seq<byte>>, data: seq<byte>)
    requires |f| == 4 && |data| == 16 + Int(f, 1) && ParseProperty(f, data).Ok?
    ensures var d := ParseProperty(f, data).value;
            Int(f, 0) == 0 && d.Property? && NumBytesFollowing(d) == Int(f, 1)
  {
    hide DecodeBE, IsUtf8, IsAscii, CheckDigest, TreeDigestSize, RStrip, Slice, Int;
    Slices(data, 32, Int(f, 2), 0, 0);
    Slices(data, 32 + Int(f, 2) + 1, Int(f, 3), 0, 0);
  }

  lemma HashtreeComplete(f: seq<seq<byte>>, data: seq<byte>, sizes: DigestSizes)
    requires |f| == 17 && |data| == 16 + Int(f, 1) && ParseHashtree(f, data, sizes).Ok?
    ensures var d := ParseHashtree(f, data, sizes).value;
            Int(f, 0) == 1 && d.Hashtree? && NumBytesFollowing(d) == Int(f, 1)
  {
    hide DecodeBE, IsUtf8, IsAscii, CheckDigest, TreeDigestSize, RStrip, Slice, Int;
    Slices(data, 180, Int(f, 12), Int(f, 13), Int(f, 14));
  }

  lemma HashComplete(f: seq<seq<byte>>, data: seq<byte>, sizes: DigestSizes)
    requires |f| == 9 && |data| == 16 + Int(f, 1) && ParseHash(f, data, sizes).Ok?
    ensures var d := ParseHash(f, data, sizes).value;
            Int(f, 0) == 2 && d.Hash? && NumBytesFollowing(d) == Int(f, 1)
  {
    hide DecodeBE, IsUtf8, IsAscii, CheckDigest, TreeDigestSize, RStrip, Slice, Int;
    Slices(data, 132, Int(f, 4), Int(f, 5), Int(f, 6));
  }

  lemma KernelCmdlineComplete(f: seq<seq<byte>>, data: seq<byte>)
    requires |f| == 4 && |data| == 16 + Int(f, 1) && ParseKernelCmdline(f, data).Ok?
    ensures var d := ParseKernelCmdline(f, data).value;
            Int(f, 0) == 3 && d.KernelCmdline? && NumBytesFollowing(d) == Int(f, 1)
  {
    hide DecodeBE, IsUtf8, IsAscii, CheckDigest, TreeDigestSize, RStrip, Slice, Int;
    Slices(data, 24, Int(f, 3), 0, 0);
  }

  lemma ChainPartitionComplete(f: seq<seq<byte>>, data: seq<byte>)
    requires |f| == 6 && |data| == 16 + Int(f, 1) && ParseChainPartition(f, data).Ok?
    ensures var d := ParseChainPartition(f, data).value;
            Int(f, 0) == 4 && d.ChainPartition? && NumBytesFollowing(d) == Int(f, 1)
  {
    hide DecodeBE, IsUtf8, IsAscii, CheckDigest, TreeDigestSize, RStrip, Slice, Int;
    Slices(data, 92, Int(f, 3), Int(f, 4), 0);
  }

  lemma Slices(data: seq<byte>, at: nat, a: nat, b: nat, c: nat)
    ensures at + a <= |data| ==> |Slice(data, at, at + a)| == a
    ensures at + a + b <= |data| ==> |Slice(data, at + a, at + a + b)| == b
    ensures at + a + b + c <= |data| ==> |Slice(data, at + a + b, at + a + b + c)| == c
  {
  }
}
