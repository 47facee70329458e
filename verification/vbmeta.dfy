/** The vbmeta blob: header, footer, the blob's layout, and signature verification. */
module Vbmeta {
  import opened Bytes
  import opened Hashing
  import opened Utf8
  import opened Wrappers

  import Descriptors

  const SIZE: nat := 256
  const FOOTER_SIZE: nat := 64
  /** "AVB0" */
  const MAGIC: seq<byte> := [65, 86, 66, 48]
  /** "AVBf" */
  const FOOTER_MAGIC: seq<byte> := [65, 86, 66, 102]
  /** "avbtool 1.2.0" */
  const RELEASE: seq<byte> := [97, 118, 98, 116, 111, 111, 108, 32, 49, 46, 50, 46, 48]

  // -------------------------------------------------------------------- algorithms

  /** The PKCS1-v1.5 padding in front of the digest. */
  datatype Algorithm = Algorithm(algorithmType: nat, hashNumBytes: nat, signatureNumBytes: nat, publicKeyNumBytes: nat,
                                 padding: seq<byte>)

  const ASN1_SHA256: seq<byte> := [0x30, 0x31, 0x30, 0x0d, 0x06, 0x09, 0x60, 0x86, 0x48, 0x01, 0x65, 0x03, 0x04,
                                   0x02, 0x01, 0x05, 0x00, 0x04, 0x20]
  const ASN1_SHA512: seq<byte> := [0x30, 0x51, 0x30, 0x0d, 0x06, 0x09, 0x60, 0x86, 0x48, 0x01, 0x65, 0x03, 0x04,
                                   0x02, 0x03, 0x05, 0x00, 0x04, 0x40]

  function Pkcs1(ff: nat, asn1: seq<byte>): (s: seq<byte>)
    ensures |s| == ff + |asn1| + 3
  {
    [0x00, 0x01] + seq(ff, _ => 0xff) + [0x00] + asn1
  }

  /** The table ALGORITHMS, by type: NONE, SHA256_RSA2048/4096/8192, SHA512_RSA2048/4096/8192. */
  function LookUp(algorithmType: nat): Option<Algorithm> {
    if algorithmType == 0 then Some(Algorithm(0, 0, 0, 0, []))
    else if algorithmType == 1 then Some(Algorithm(1, 32, 256, 8 + 2 * 2048 / 8, Pkcs1(202, ASN1_SHA256)))
    else if algorithmType == 2 then Some(Algorithm(2, 32, 512, 8 + 2 * 4096 / 8, Pkcs1(458, ASN1_SHA256)))
    else if algorithmType == 3 then Some(Algorithm(3, 32, 1024, 8 + 2 * 8192 / 8, Pkcs1(970, ASN1_SHA256)))
    else if algorithmType == 4 then Some(Algorithm(4, 64, 256, 8 + 2 * 2048 / 8, Pkcs1(170, ASN1_SHA512)))
    else if algorithmType == 5 then Some(Algorithm(5, 64, 512, 8 + 2 * 4096 / 8, Pkcs1(426, ASN1_SHA512)))
    else if algorithmType == 6 then Some(Algorithm(6, 64, 1024, 8 + 2 * 8192 / 8, Pkcs1(938, ASN1_SHA512)))
    else None
  }

  /** Padding and digest fill the signature, and the key blob holds two numbers of the signature's size. */
  lemma TableConsistent(algorithmType: nat)
    requires 1 <= algorithmType <= 6
    ensures var a := LookUp(algorithmType).value;
            && |a.padding| + a.hashNumBytes == a.signatureNumBytes && a.publicKeyNumBytes == 8 + 2 * a.signatureNumBytes
  {
  }

  datatype Hashes = Hashes(sha256: HashFn, sha512: HashFn)

  ghost predicate Lengths(hashes: Hashes) {
    OutputLength(hashes.sha256, 32) && OutputLength(hashes.sha512, 64)
  }

  function HashOf(hashes: Hashes, a: Algorithm): HashFn {
    if a.hashNumBytes == 32 then hashes.sha256 else hashes.sha512
  }

  // ------------------------------------------------------------------------ header

  datatype Header = Header(
    major: nat, minor: nat, authSize: nat, auxSize: nat, algorithmType: nat, hashOffset: nat, hashSize: nat,
    signatureOffset: nat, signatureSize: nat, publicKeyOffset: nat, publicKeySize: nat,
    metadataOffset: nat, metadataSize: nat, descriptorsOffset: nat, descriptorsSize: nat,
    rollbackIndex: nat, flags: nat, rollbackIndexLocation: nat, releaseString: seq<byte>)

  const WIDTHS: seq<nat> := [4, 4, 4, 8, 8, 4, 8, 8, 8, 8, 8, 8, 8, 8, 8, 8, 8, 4, 4, 47, 1, 80]

  function HeaderFields(h: Header): seq<seq<byte>> {
    [MAGIC, BE(h.major, 4), BE(h.minor, 4), BE(h.authSize, 8), BE(h.auxSize, 8), BE(h.algorithmType, 4),
     BE(h.hashOffset, 8), BE(h.hashSize, 8), BE(h.signatureOffset, 8), BE(h.signatureSize, 8),
     BE(h.publicKeyOffset, 8), BE(h.publicKeySize, 8),
     BE(h.metadataOffset, 8), BE(h.metadataSize, 8), BE(h.descriptorsOffset, 8), BE(h.descriptorsSize, 8),
     BE(h.rollbackIndex, 8), BE(h.flags, 4), BE(h.rollbackIndexLocation, 4), Fixed(h.releaseString, 47), [0], Zeros(80)]
  }

  predicate Packable(h: Header) {
    && h.major < UINT32 && h.minor < UINT32 && h.authSize < UINT64 && h.auxSize < UINT64 && h.algorithmType < UINT32
    && h.hashOffset < UINT64 && h.hashSize < UINT64 && h.signatureOffset < UINT64 && h.signatureSize < UINT64
    && h.publicKeyOffset < UINT64 && h.publicKeySize < UINT64 && h.metadataOffset < UINT64 && h.metadataSize < UINT64
    && h.descriptorsOffset < UINT64 && h.descriptorsSize < UINT64 && h.rollbackIndex < UINT64 && h.flags < UINT32
    && h.rollbackIndexLocation < UINT32
  }

  function HeaderBytes(h: Header): seq<byte> {
    Concat(HeaderFields(h))
  }

  function EncodeHeader(h: Header): Result<seq<byte>> {
    if Packable(h) then Ok(HeaderBytes(h)) else Raised(StructError)
  }

  /** The object the constructor makes without data; it is also made for empty data. */
  function DefaultHeader(): Header {
    Header(1, 0, 0, 0, 0, 0, 0, 0, 0, 0, 0, 0, 0, 0, 0, 0, 0, 0, RELEASE)
  }

  function HeaderOf(f: seq<seq<byte>>): Result<Header>
    requires |f| == |WIDTHS|
  {
    if f[0] != MAGIC then Raised(AvbError)
    else if !IsUtf8(Descriptors.RStrip(f[19])) then Raised(UnicodeDecodeError)
    else
      Ok(Header(DecodeBE(f[1]), DecodeBE(f[2]), DecodeBE(f[3]), DecodeBE(f[4]), DecodeBE(f[5]), DecodeBE(f[6]),
                DecodeBE(f[7]), DecodeBE(f[8]), DecodeBE(f[9]), DecodeBE(f[10]), DecodeBE(f[11]), DecodeBE(f[12]),
                DecodeBE(f[13]), DecodeBE(f[14]), DecodeBE(f[15]), DecodeBE(f[16]), DecodeBE(f[17]), DecodeBE(f[18]),
                Descriptors.RStrip(f[19])))
  }

  lemma WidthsSum()
    ensures Sum(WIDTHS) == SIZE
  {
    hide Sum;
    Descriptors.SumOfFour(47, 1, 80, 0, []);
    Descriptors.SumOfFour(8, 4, 4, 47, [1, 80, 0, 0] + []);
    EndsInEighty();
    Descriptors.SumOfFour(8, 8, 8, 8, [8, 4, 4, 47] + [1, 80]);
    Descriptors.SumOfFour(8, 8, 8, 8, [8, 8, 8, 8] + ([8, 4, 4, 47] + [1, 80]));
    Descriptors.SumOfFour(8, 4, 8, 8, [8, 8, 8, 8] + ([8, 8, 8, 8] + ([8, 4, 4, 47] + [1, 80])));
    Descriptors.SumOfFour(4, 4, 4, 8, [8, 4, 8, 8] + ([8, 8, 8, 8] + ([8, 8, 8, 8] + ([8, 4, 4, 47] + [1, 80]))));
    assert WIDTHS == [4, 4, 4, 8] + ([8, 4, 8, 8] + ([8, 8, 8, 8] + ([8, 8, 8, 8] + ([8, 4, 4, 47] + [1, 80]))));
  }

  lemma EndsInEighty()
    ensures Sum([8, 4, 4, 47] + [1, 80]) == 63 + 81
  {
    Descriptors.SumOfFour(8, 4, 4, 47, [1, 80]);
    assert [1, 80][1..] == [80] && [80][1..] == [];
  }

  function ParseHeader(data: seq<byte>): Result<Header> {
    if data == [] then Ok(DefaultHeader())
    else if |data| != SIZE then Raised(StructError)
    else
      WidthsSum();
      HeaderOf(Split(WIDTHS, data))
  }

  /** A release string that survives its 47-byte field, and is text. */
  ghost predicate ReleaseFits(s: seq<byte>) {
    |s| <= 47 && (s == [] || s[|s| - 1] != 0) && IsUtf8(s)
  }

  lemma ReleaseIsText()
    ensures ReleaseFits(RELEASE)
  {
    AsciiIsUtf8(RELEASE);
  }

  lemma HeaderFieldsFit(h: Header)
    ensures Fits(WIDTHS, HeaderFields(h))
  {
    hide BE;
  }

  lemma HeaderSplits(h: Header)
    ensures |HeaderBytes(h)| == Sum(WIDTHS) && Sum(WIDTHS) == SIZE
    ensures Split(WIDTHS, HeaderBytes(h)) == HeaderFields(h)
  {
    hide HeaderFields, Sum, Split, Concat;
    WidthsSum();
    HeaderFieldsFit(h);
    SplitOfConcat(WIDTHS, HeaderFields(h));
  }

  lemma FirstFields(h: Header)
    requires Packable(h)
    ensures var f := HeaderFields(h);
            && f[0] == MAGIC && DecodeBE(f[1]) == h.major && DecodeBE(f[2]) == h.minor && DecodeBE(f[3]) == h.authSize
            && DecodeBE(f[4]) == h.auxSize
  {
    hide BE, DecodeBE;
    Descriptors.DecodeField(h.major, 4);
    Descriptors.DecodeField(h.minor, 4);
    Descriptors.DecodeField(h.authSize, 8);
    Descriptors.DecodeField(h.auxSize, 8);
  }

  lemma MiddleFields(h: Header)
    requires Packable(h)
    ensures var f := HeaderFields(h);
            && DecodeBE(f[5]) == h.algorithmType && DecodeBE(f[6]) == h.hashOffset && DecodeBE(f[7]) == h.hashSize
            && DecodeBE(f[8]) == h.signatureOffset && DecodeBE(f[9]) == h.signatureSize
  {
    hide BE, DecodeBE;
    Descriptors.DecodeField(h.algorithmType, 4);
    Descriptors.DecodeField(h.hashOffset, 8);
    Descriptors.DecodeField(h.hashSize, 8);
    Descriptors.DecodeField(h.signatureOffset, 8);
    Descriptors.DecodeField(h.signatureSize, 8);
  }

  lemma LastFields(h: Header)
    requires Packable(h)
    ensures var f := HeaderFields(h);
            && DecodeBE(f[10]) == h.publicKeyOffset && DecodeBE(f[11]) == h.publicKeySize
            && DecodeBE(f[12]) == h.metadataOffset
            && DecodeBE(f[13]) == h.metadataSize && DecodeBE(f[14]) == h.descriptorsOffset
            && DecodeBE(f[15]) == h.descriptorsSize
            && DecodeBE(f[16]) == h.rollbackIndex && DecodeBE(f[17]) == h.flags
            && DecodeBE(f[18]) == h.rollbackIndexLocation
            && f[19] == Fixed(h.releaseString, 47)
  {
    hide BE, DecodeBE;
    Descriptors.DecodeField(h.publicKeyOffset, 8);
    Descriptors.DecodeField(h.publicKeySize, 8);
    Descriptors.DecodeField(h.metadataOffset, 8);
    Descriptors.DecodeField(h.metadataSize, 8);
    Descriptors.DecodeField(h.descriptorsOffset, 8);
    Descriptors.DecodeField(h.descriptorsSize, 8);
    Descriptors.DecodeField(h.rollbackIndex, 8);
    Descriptors.DecodeField(h.flags, 4);
    Descriptors.DecodeField(h.rollbackIndexLocation, 4);
  }

  /** What was packed is what is unpacked. */
  lemma HeaderRoundTrip(h: Header)
    requires Packable(h) && ReleaseFits(h.releaseString)
    ensures |EncodeHeader(h).value| == SIZE && ParseHeader(EncodeHeader(h).value) == Ok(h)
  {
    hide HeaderFields, HeaderBytes, Split, Sum, Concat, Fixed, DecodeBE, Packable;
    HeaderSplits(h);
    FirstFields(h);
    MiddleFields(h);
    LastFields(h);
    ReleaseSurvives(h.releaseString);
  }

  lemma ReleaseSurvives(s: seq<byte>)
    requires ReleaseFits(s)
    ensures Descriptors.RStrip(Fixed(s, 47)) == s
  {
    Descriptors.RStripOfPadded(s, 47 - |s|);
    if |s| == 47 { assert s[..47] == s + Zeros(0); }
  }

  // ------------------------------------------------------------------------ footer

  datatype Footer = Footer(major: nat, minor: nat, originalImageSize: nat, vbmetaOffset: nat, vbmetaSize: nat)

  const FOOTER_WIDTHS: seq<nat> := [4, 4, 4, 8, 8, 8, 28]

  function FooterFields(f: Footer): seq<seq<byte>> {
    [FOOTER_MAGIC, BE(f.major, 4), BE(f.minor, 4), BE(f.originalImageSize, 8), BE(f.vbmetaOffset, 8),
     BE(f.vbmetaSize, 8), Zeros(28)]
  }

  predicate FooterPackable(f: Footer) {
    && f.major < UINT32 && f.minor < UINT32 && f.originalImageSize < UINT64
    && f.vbmetaOffset < UINT64 && f.vbmetaSize < UINT64
  }

  function EncodeFooter(f: Footer): Result<seq<byte>> {
    if FooterPackable(f) then Ok(Concat(FooterFields(f))) else Raised(StructError)
  }

  function NewFooter(originalImageSize: nat, vbmetaOffset: nat, vbmetaSize: nat): Footer {
    Footer(1, 0, originalImageSize, vbmetaOffset, vbmetaSize)
  }

  lemma FooterWidthsSum()
    ensures Sum(FOOTER_WIDTHS) == FOOTER_SIZE
  {
    Descriptors.SumOfFour(4, 4, 4, 8, [8, 8, 28]);
    assert FOOTER_WIDTHS == [4, 4, 4, 8] + [8, 8, 28];
    assert [8, 8, 28][1..] == [8, 28] && [8, 28][1..] == [28] && [28][1..] == [];
  }

  function ParseFooter(data: seq<byte>): Result<Footer> {
    if data == [] then Ok(NewFooter(0, 0, 0))
    else if |data| != FOOTER_SIZE then Raised(StructError)
    else
      FooterWidthsSum();
      var f := Split(FOOTER_WIDTHS, data);
      if f[0] != FOOTER_MAGIC then Raised(LookupError)
      else Ok(Footer(DecodeBE(f[1]), DecodeBE(f[2]), DecodeBE(f[3]), DecodeBE(f[4]), DecodeBE(f[5])))
  }

  lemma FooterRoundTrip(f: Footer)
    requires FooterPackable(f)
    ensures |EncodeFooter(f).value| == FOOTER_SIZE && ParseFooter(EncodeFooter(f).value) == Ok(f)
  {
    hide BE, DecodeBE, Sum, Split, Concat;
    FooterWidthsSum();
    assert Fits(FOOTER_WIDTHS, FooterFields(f));
    SplitOfConcat(FOOTER_WIDTHS, FooterFields(f));
    Descriptors.DecodeField(f.major, 4);
    Descriptors.DecodeField(f.minor, 4);
    Descriptors.DecodeField(f.originalImageSize, 8);
    Descriptors.DecodeField(f.vbmetaOffset, 8);
    Descriptors.DecodeField(f.vbmetaSize, 8);
  }
}
