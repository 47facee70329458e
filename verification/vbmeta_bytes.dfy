/** The vbmeta header, footer and descriptors byte by byte: which number stands at which offset. */
module VbmetaBytes {
  import opened Bytes
  import opened FooterLayout
  import opened Hashing
  import opened Images
  import opened Utf8
  import opened Vbmeta
  import opened Wrappers

  import B = VbmetaBlob
  import D = Descriptors
  import Keys

  // ------------------------------------------------------------------------- header

  /** The numbers in the 256 bytes of a vbmeta header. */
  ghost predicate HeaderAt(s: seq<byte>, h: Header) {
    && 256 <= |s| && s[0..4] == [65, 86, 66, 48]
    && DecodeBE(s[4..8]) == h.major && DecodeBE(s[8..12]) == h.minor
    && DecodeBE(s[12..20]) == h.authSize && DecodeBE(s[20..28]) == h.auxSize && DecodeBE(s[28..32]) == h.algorithmType
    && DecodeBE(s[32..40]) == h.hashOffset && DecodeBE(s[40..48]) == h.hashSize
    && DecodeBE(s[48..56]) == h.signatureOffset && DecodeBE(s[56..64]) == h.signatureSize
    && DecodeBE(s[64..72]) == h.publicKeyOffset && DecodeBE(s[72..80]) == h.publicKeySize
    && DecodeBE(s[80..88]) == h.metadataOffset && DecodeBE(s[88..96]) == h.metadataSize
    && DecodeBE(s[96..104]) == h.descriptorsOffset && DecodeBE(s[104..112]) == h.descriptorsSize
    && DecodeBE(s[112..120]) == h.rollbackIndex && DecodeBE(s[120..124]) == h.flags
    && DecodeBE(s[124..128]) == h.rollbackIndexLocation
  }

  ghost predicate FrontAt(s: seq<byte>, f: seq<seq<byte>>) {
    && |f| >= 5 && 28 <= |s| && s[0..4] == f[0] && s[4..8] == f[1] && s[8..12] == f[2] && s[12..20] == f[3]
    && s[20..28] == f[4]
  }

  ghost predicate MiddleAt(s: seq<byte>, f: seq<seq<byte>>) {
    && |f| >= 10 && 64 <= |s| && s[28..32] == f[5] && s[32..40] == f[6] && s[40..48] == f[7] && s[48..56] == f[8]
    && s[56..64] == f[9]
  }

  ghost predicate BackAt(s: seq<byte>, f: seq<seq<byte>>) {
    && |f| == 22 && 256 <= |s| && s[64..72] == f[10] && s[72..80] == f[11] && s[80..88] == f[12] && s[88..96] == f[13]
    && s[96..104] == f[14] && s[104..112] == f[15] && s[112..120] == f[16] && s[120..124] == f[17]
    && s[124..128] == f[18] && s[128..175] == f[19] && s[175..176] == f[20] && s[176..256] == f[21]
  }

  lemma HeaderFront(f: seq<seq<byte>>, s: seq<byte>)
    requires |f| == 22 && Sum(WIDTHS) <= |s| && Split(WIDTHS, s[..Sum(WIDTHS)]) == f
    ensures FrontAt(s, f) && Sum(WIDTHS[..5]) == 28
  {
    hide Sum, Split;
    NoWidths(WIDTHS);
    NextField(WIDTHS, f, s, 0, 0);
    NextField(WIDTHS, f, s, 1, 4);
    NextField(WIDTHS, f, s, 2, 8);
    NextField(WIDTHS, f, s, 3, 12);
    NextField(WIDTHS, f, s, 4, 20);
  }

  lemma HeaderMiddle(f: seq<seq<byte>>, s: seq<byte>)
    requires |f| == 22 && Sum(WIDTHS) <= |s| && Split(WIDTHS, s[..Sum(WIDTHS)]) == f && Sum(WIDTHS[..5]) == 28
    ensures MiddleAt(s, f) && Sum(WIDTHS[..10]) == 64
  {
    hide Sum, Split;
    NextField(WIDTHS, f, s, 5, 28);
    NextField(WIDTHS, f, s, 6, 32);
    NextField(WIDTHS, f, s, 7, 40);
    NextField(WIDTHS, f, s, 8, 48);
    NextField(WIDTHS, f, s, 9, 56);
  }

  lemma HeaderBack(f: seq<seq<byte>>, s: seq<byte>)
    requires |f| == 22 && Sum(WIDTHS) <= |s| && Split(WIDTHS, s[..Sum(WIDTHS)]) == f && Sum(WIDTHS[..10]) == 64
    ensures BackAt(s, f)
  {
    hide Sum, Split;
    NextField(WIDTHS, f, s, 10, 64);
    NextField(WIDTHS, f, s, 11, 72);
    NextField(WIDTHS, f, s, 12, 80);
    NextField(WIDTHS, f, s, 13, 88);
    NextField(WIDTHS, f, s, 14, 96);
    NextField(WIDTHS, f, s, 15, 104);
    NextField(WIDTHS, f, s, 16, 112);
    NextField(WIDTHS, f, s, 17, 120);
    NextField(WIDTHS, f, s, 18, 124);
    NextField(WIDTHS, f, s, 19, 128);
    NextField(WIDTHS, f, s, 20, 175);
    NextField(WIDTHS, f, s, 21, 176);
  }

  /** A packed header holds its numbers big-endian at fixed offsets, then the release string, and zeros behind it. */
  lemma HeaderIsAt(h: Header, s: seq<byte>)
    requires Packable(h) && |h.releaseString| <= 47 && |HeaderBytes(h)| <= |s|
    requires s[..|HeaderBytes(h)|] == HeaderBytes(h)
    ensures HeaderAt(s, h)
    ensures s[128..128 + |h.releaseString|] == h.releaseString
    ensures forall i :: 128 + |h.releaseString| <= i < 256 ==> s[i] == 0
  {
    hide HeaderFields, HeaderBytes, Sum, Split, DecodeBE, Packable, FrontAt, MiddleAt, BackAt, Fixed;
    HeaderSplits(h);
    var f := HeaderFields(h);
    HeaderHasFields(h);
    HeaderFront(f, s);
    HeaderMiddle(f, s);
    HeaderBack(f, s);
    FieldsDecoded(h, s);
    ReleaseAt(h, s);
  }

  lemma HeaderHasFields(h: Header)
    ensures |HeaderFields(h)| == 22
  {
  }

  lemma FieldsDecoded(h: Header, s: seq<byte>)
    requires Packable(h)
    requires FrontAt(s, HeaderFields(h)) && MiddleAt(s, HeaderFields(h)) && BackAt(s, HeaderFields(h))
    ensures HeaderAt(s, h)
  {
    hide DecodeBE, BE;
    FirstFields(h);
    MiddleFields(h);
    LastFields(h);
  }

  lemma ReleaseAt(h: Header, s: seq<byte>)
    requires |h.releaseString| <= 47 && BackAt(s, HeaderFields(h))
    ensures s[128..128 + |h.releaseString|] == h.releaseString
    ensures forall i :: 128 + |h.releaseString| <= i < 256 ==> s[i] == 0
  {
    hide BE;
    var n := |h.releaseString|;
    var field := s[128..175];
    assert field == h.releaseString + Zeros(47 - n);
    assert s[128..128 + n] == field[..n];
    forall i | 128 + n <= i < 256
      ensures s[i] == 0
    {
      if i < 175 {
        assert s[i] == field[i - 128];
      } else if i == 175 {
        assert s[i] == s[175..176][0];
      } else {
        assert s[i] == s[176..256][i - 176];
      }
    }
  }

  // ------------------------------------------------------------------------- footer

  /** The numbers in the 64 bytes of a footer at the end of an image. */
  ghost predicate FooterAt(image: seq<byte>, f: Footer) {
    && 64 <= |image|
    && var s := image[|image| - 64..];
    && s[0..4] == [65, 86, 66, 102] && DecodeBE(s[4..8]) == f.major && DecodeBE(s[8..12]) == f.minor
    && DecodeBE(s[12..20]) == f.originalImageSize && DecodeBE(s[20..28]) == f.vbmetaOffset
    && DecodeBE(s[28..36]) == f.vbmetaSize && s[36..64] == Zeros(28)
  }

  lemma FooterIsAt(f: Footer, image: seq<byte>, front: seq<byte>)
    requires FooterPackable(f) && image == front + EncodeFooter(f).value
    ensures FooterAt(image, f)
  {
    hide BE, DecodeBE, Sum, Split, Concat;
    FooterWidthsSum();
    var fields, s := FooterFields(f), EncodeFooter(f).value;
    assert Fits(FOOTER_WIDTHS, fields);
    SplitOfConcat(FOOTER_WIDTHS, fields);
    FooterFieldsAt(fields, s);
    assert image[|image| - 64..] == s;
    D.DecodeField(f.major, 4);
    D.DecodeField(f.minor, 4);
    D.DecodeField(f.originalImageSize, 8);
    D.DecodeField(f.vbmetaOffset, 8);
    D.DecodeField(f.vbmetaSize, 8);
  }

  lemma FooterFieldsAt(f: seq<seq<byte>>, s: seq<byte>)
    requires |f| == 7 && |s| == Sum(FOOTER_WIDTHS) && Split(FOOTER_WIDTHS, s) == f
    ensures 64 <= |s| && s[0..4] == f[0] && s[4..8] == f[1] && s[8..12] == f[2] && s[12..20] == f[3]
    ensures s[20..28] == f[4] && s[28..36] == f[5] && s[36..64] == f[6]
  {
    hide Sum, Split;
    var w := FOOTER_WIDTHS;
    NoWidths(w);
    assert s[..Sum(w)] == s;
    NextField(w, f, s, 0, 0);
    NextField(w, f, s, 1, 4);
    NextField(w, f, s, 2, 8);
    NextField(w, f, s, 3, 12);
    NextField(w, f, s, 4, 20);
    NextField(w, f, s, 5, 28);
    NextField(w, f, s, 6, 36);
  }

  // ------------------------------------------------------------------- generated blobs

  /**
   * Everything in a blob, from what it was generated from: the numbers of its header, the release string, and the two
   * blocks behind it.
   */
  ghost predicate Holds(blob: seq<byte>, input: B.Input, p: B.Parts) {
    var n := |input.releaseString|;
    var auth, aux := PadTo(p.digest + p.signature, 64), PadTo(p.descriptors + p.key + p.metadata, 64);
    && |blob| == 256 + |auth| + |aux| && blob[256..] == auth + aux && blob[0..4] == [65, 86, 66, 48]
    && DecodeBE(blob[4..8]) == 1 && DecodeBE(blob[8..12]) == input.minor
    && DecodeBE(blob[12..20]) == |auth| && DecodeBE(blob[20..28]) == |aux|
    && DecodeBE(blob[28..32]) == input.algorithmType
    && DecodeBE(blob[32..40]) == 0 && DecodeBE(blob[40..48]) == |p.digest|
    && DecodeBE(blob[48..56]) == |p.digest| && DecodeBE(blob[56..64]) == |p.signature|
    && DecodeBE(blob[64..72]) == |p.descriptors| && DecodeBE(blob[72..80]) == |p.key|
    && DecodeBE(blob[80..88]) == |p.descriptors| + |p.key| && DecodeBE(blob[88..96]) == |input.metadata|
    && DecodeBE(blob[96..104]) == 0 && DecodeBE(blob[104..112]) == |p.descriptors|
    && DecodeBE(blob[112..120]) == input.rollbackIndex && DecodeBE(blob[120..124]) == input.flags
    && DecodeBE(blob[124..128]) == input.rollbackIndexLocation
    && n <= 47 && blob[128..128 + n] == input.releaseString && forall i :: 128 + n <= i < 256 ==> blob[i] == 0
  }

  /** Every generated blob holds its input's numbers at their places. */
  lemma GeneratedBlob(input: B.Input, hashes: Hashes, signer: B.Signer)
    requires B.InputFits(input) && Lengths(hashes) && B.Generate(input, hashes, signer).Ok?
    ensures Holds(B.Assemble(B.Generate(input, hashes, signer).value), input, B.Generate(input, hashes, signer).value)
  {
    hide B.Generate, Made, Holds, B.Assemble, Packable, Lengths;
    GeneratedIsMade(input, hashes, signer);
    MadeBlob(input, B.Generate(input, hashes, signer).value);
  }

  lemma GeneratedIsMade(input: B.Input, hashes: Hashes, signer: B.Signer)
    requires B.InputFits(input) && Lengths(hashes) && B.Generate(input, hashes, signer).Ok?
    ensures var p := B.Generate(input, hashes, signer).value;
            Made(p.header, input, p) && Packable(p.header) && |input.releaseString| <= 47
  {
    hide B.Generate, LookUp, HeaderBytes, Packable, PadTo, D.EncodeAll, Keys.KeyBlob, HashOf, B.Ordered, B.MakeHeader,
      B.AuxBlock, Made;
    var p := B.Generate(input, hashes, signer).value;
    B.Measured(input, hashes, signer, p);
    var a := LookUp(input.algorithmType).value;
    B.InOrder(input, a, p);
    MadeHeader(input, a, p);
  }

  lemma MadeBlob(input: B.Input, p: B.Parts)
    requires Made(p.header, input, p) && Packable(p.header) && |input.releaseString| <= 47
    ensures Holds(B.Assemble(p), input, p)
  {
    hide HeaderBytes, Packable, DecodeBE, PadTo, B.AuthBlock, B.AuxBlock, Made, HeaderAt, Holds;
    HeaderSplits(p.header);
    var blob, header := B.Assemble(p), HeaderBytes(p.header);
    BlobParts(header, B.AuthBlock(p.digest, p.signature), B.AuxBlock(p.descriptors, p.key, p.metadata), blob);
    MadeRelease(p.header, input, p);
    HeaderIsAt(p.header, blob);
    MadeHolds(blob, input, p);
  }

  lemma BlobParts(header: seq<byte>, auth: seq<byte>, aux: seq<byte>, blob: seq<byte>)
    requires |header| == 256 && blob == header + auth + aux
    ensures |blob| == 256 + |auth| + |aux| && blob[..256] == header && blob[256..] == auth + aux
  {
  }

  /** The header for an input and the parts that were made from it. */
  ghost predicate Made(h: Header, input: B.Input, p: B.Parts) {
    var d, k := |p.descriptors|, |p.key|;
    && h.major == 1 && h.minor == input.minor && h.algorithmType == input.algorithmType
    && h.authSize == |PadTo(p.digest + p.signature, 64)|
    && h.auxSize == |PadTo(p.descriptors + p.key + p.metadata, 64)|
    && h.hashOffset == 0 && h.hashSize == |p.digest|
    && h.signatureOffset == |p.digest| && h.signatureSize == |p.signature|
    && h.publicKeyOffset == d && h.publicKeySize == k && h.metadataOffset == d + k
    && h.metadataSize == |input.metadata| && h.descriptorsOffset == 0 && h.descriptorsSize == d
    && h.rollbackIndex == input.rollbackIndex && h.flags == input.flags
    && h.rollbackIndexLocation == input.rollbackIndexLocation && h.releaseString == input.releaseString
  }

  lemma MadeHeader(input: B.Input, a: Algorithm, p: B.Parts)
    requires B.Ordered(p) && p.header == B.MakeHeader(input, a, |p.descriptors|, |p.key|)
    requires a.algorithmType == input.algorithmType && p.metadata == input.metadata
    ensures Made(p.header, input, p)
  {
    hide PadTo;
  }

  /** A parsed header shows what the arguments of a command asked for, and the version of libavb that it needs. */
  ghost predicate Shows(h: Header, input: B.Input, flagged: bool) {
    && h.major == 1 && h.minor == (if input.rollbackIndexLocation > 0 then 2 else if flagged then 1 else 0)
    && h.algorithmType == input.algorithmType && h.rollbackIndex == input.rollbackIndex && h.flags == input.flags
    && h.rollbackIndexLocation == input.rollbackIndexLocation && h.releaseString == input.releaseString
  }

  lemma GeneratedShows(input: B.Input, hashes: Hashes, signer: B.Signer, asked: B.Input, flagged: bool)
    requires B.InputFits(input) && Lengths(hashes) && B.Generate(input, hashes, signer).Ok?
    requires input.minor == if asked.rollbackIndexLocation > 0 then 2 else if flagged then 1 else 0
    requires input.algorithmType == asked.algorithmType && input.rollbackIndex == asked.rollbackIndex
    requires input.flags == asked.flags && input.rollbackIndexLocation == asked.rollbackIndexLocation
    requires input.releaseString == asked.releaseString
    ensures Shows(B.Generate(input, hashes, signer).value.header, asked, flagged)
  {
    hide B.Generate, LookUp, Packable, PadTo, D.EncodeAll, Keys.KeyBlob, B.Ordered, B.MakeHeader, B.AuxBlock,
      HeaderBytes, HashOf;
    var p := B.Generate(input, hashes, signer).value;
    B.Measured(input, hashes, signer, p);
    var a := LookUp(input.algorithmType).value;
    B.InOrder(input, a, p);
    MadeHeader(input, a, p);
  }

  lemma MadeRelease(h: Header, input: B.Input, p: B.Parts)
    requires Made(h, input, p)
    ensures h.releaseString == input.releaseString
  {
    hide PadTo;
  }

  lemma MadeHolds(blob: seq<byte>, input: B.Input, p: B.Parts)
    requires HeaderAt(blob, p.header) && Made(p.header, input, p) && |input.releaseString| <= 47
    requires var auth, aux := B.AuthBlock(p.digest, p.signature), B.AuxBlock(p.descriptors, p.key, p.metadata);
             |blob| == 256 + |auth| + |aux| && blob[256..] == auth + aux
    requires blob[128..128 + |input.releaseString|] == input.releaseString
    requires forall i :: 128 + |input.releaseString| <= i < 256 ==> blob[i] == 0
    ensures Holds(blob, input, p)
  {
    hide PadTo, DecodeBE;
  }

  // ----------------------------------------------------------------------- signatures

  /** What stands before a digest of `n` bytes in a DigestInfo of RFC 8017; the last arc of the identifier is `arc`. */
  function DigestInfo(n: byte, arc: byte): seq<byte>
    requires n <= 64
  {
    // 2.16.840.1.101.3.4.2.arc, in base 128
    var identifier := [2 * 40 + 16, 0x80 + 840 / 128, 840 % 128, 1, 101, 3, 4, 2, arc];
    [0x30, 17 + n, 0x30, 13, 6, 9] + identifier + [5, 0, 4, n]
  }

  /** The block that is signed: 00 01 ff .. ff 00 and the DigestInfo, as long as the signature. */
  function Padded(algorithmType: nat, digest: seq<byte>): seq<byte>
    requires 1 <= algorithmType <= 6
  {
    var info := if algorithmType <= 3 then DigestInfo(32, 1) else DigestInfo(64, 3);
    var n := SignatureBytes(algorithmType) - |info| - (if algorithmType <= 3 then 32 else 64) - 3;
    [0, 1] + seq(n, _ => 0xff) + [0] + info + digest
  }

  /** RSA keys of 2048, 4096 and 8192 bits, with SHA-256 and then with SHA-512. */
  function SignatureBytes(algorithmType: nat): (n: nat)
    ensures n >= 256
  {
    if algorithmType == 1 || algorithmType == 4 then 256
    else if algorithmType == 2 || algorithmType == 5 then 512
    else 1024
  }

  /** SHA-256 for the first three algorithms, SHA-512 for the others. */
  function HashFor(hashes: Hashes, algorithmType: nat): HashFn {
    if algorithmType <= 3 then hashes.sha256 else hashes.sha512
  }

  /** Key, signature and digest sizes of the six algorithms, and the padded digest that is signed. */
  lemma AlgorithmTable(t: nat, digest: seq<byte>)
    ensures LookUp(t).Some? <==> t <= 6
    ensures 1 <= t <= 6 ==>
              var a := LookUp(t).value;
              && a.algorithmType == t && a.hashNumBytes == (if t <= 3 then 32 else 64)
              && a.signatureNumBytes == SignatureBytes(t) && a.publicKeyNumBytes == 8 + 2 * SignatureBytes(t)
              && a.padding + digest == Padded(t, digest)
  {
    hide Pkcs1, DigestInfo, Padded;
    if 1 <= t <= 6 {
      var info := if t <= 3 then ASN1_SHA256 else ASN1_SHA512;
      var n := SignatureBytes(t) - 22 - LookUp(t).value.hashNumBytes;
      assert LookUp(t).value.padding == Pkcs1(n, info);
      PaddedIs(t, n, digest);
    }
  }

  lemma PaddedIs(t: nat, n: nat, digest: seq<byte>)
    requires 1 <= t <= 6 && n == SignatureBytes(t) - 22 - (if t <= 3 then 32 else 64)
    ensures Pkcs1(n, if t <= 3 then ASN1_SHA256 else ASN1_SHA512) + digest == Padded(t, digest)
  {
    assert DigestInfo(32, 1) == ASN1_SHA256 && DigestInfo(64, 3) == ASN1_SHA512;
  }

  /** The digest is over header and auxiliary block, and the signature is what the signer makes of the padded digest. */
  ghost predicate SignedBy(input: B.Input, hashes: Hashes, signer: B.Signer, p: B.Parts, header: seq<byte>,
                           aux: seq<byte>) {
    var t := input.algorithmType;
    if t == 0 then p.digest == [] && p.signature == [] && p.key == []
    else
      && t <= 6 && p.digest == HashFor(hashes, t)(header + aux)
      && signer(Padded(t, p.digest)) == Some(p.signature)
      && input.key.Some? && input.key.value.modulus > 0 && Keys.KeyBlob(input.key.value) == Some(p.key)
  }

  /** Every generated blob is signed over its first 256 bytes and its last block. */
  lemma GeneratedSignature(input: B.Input, hashes: Hashes, signer: B.Signer)
    requires B.InputFits(input) && Lengths(hashes) && B.Generate(input, hashes, signer).Ok?
    ensures var p := B.Generate(input, hashes, signer).value;
            var blob, n := B.Assemble(p), |PadTo(p.digest + p.signature, 64)|;
            256 + n <= |blob| && SignedBy(input, hashes, signer, p, blob[..256], blob[256 + n..])
  {
    hide B.Generate, LookUp, HeaderBytes, PadTo, D.EncodeAll, Keys.KeyBlob, B.Ordered, B.MakeHeader, Padded,
      B.AuthBlock, B.AuxBlock, SignedBy, Packable;
    var p := B.Generate(input, hashes, signer).value;
    PartsSigned(input, hashes, signer);
    B.Measured(input, hashes, signer, p);
    HeaderSplits(p.header);
    var auth, aux := B.AuthBlock(p.digest, p.signature), B.AuxBlock(p.descriptors, p.key, p.metadata);
    PaddedParts(p);
    BlobParts(HeaderBytes(p.header), auth, aux, B.Assemble(p));
    assert B.Assemble(p)[256 + |auth|..] == aux;
  }

  lemma PaddedParts(p: B.Parts)
    ensures B.AuthBlock(p.digest, p.signature) == PadTo(p.digest + p.signature, 64)
  {
  }

  lemma PartsSigned(input: B.Input, hashes: Hashes, signer: B.Signer)
    requires B.InputFits(input) && B.Generate(input, hashes, signer).Ok?
    ensures var p := B.Generate(input, hashes, signer).value;
            SignedBy(input, hashes, signer, p, HeaderBytes(p.header), B.AuxBlock(p.descriptors, p.key, p.metadata))
  {
    hide LookUp, Padded, D.EncodeAll, B.MakeHeader, Packable, Keys.KeyBlob, HeaderBytes, B.AuxBlock, Keys.N0Inv;
    var p, t := B.Generate(input, hashes, signer).value, input.algorithmType;
    AlgorithmTable(t, p.digest);
    NoAlgorithm();
  }

  lemma NoAlgorithm()
    ensures LookUp(0) == Some(Algorithm(0, 0, 0, 0, []))
  {
  }

  // ------------------------------------------------------------------- finished images

  /**
   * A finished image with room for its parts: content and what the command put behind it, the blob, zeros, and in the
   * last 64 bytes the footer.
   */
  lemma FinishedBytes(image: seq<byte>, content: seq<byte>, base: seq<byte>, blob: seq<byte>, partitionSize: nat,
                      blockSize: nat)
    requires 64 <= blockSize && HasFooter(image, content, base, blob, partitionSize, blockSize)
    requires |base| + |PadTo(blob, blockSize)| + blockSize <= partitionSize
    ensures |image| == partitionSize && |base| + |blob| + 64 <= partitionSize
    ensures image[..|base|] == base && image[|base|..|base| + |blob|] == blob
    ensures forall i :: |base| + |blob| <= i < partitionSize - 64 ==> image[i] == 0
    ensures FooterAt(image, Footer(1, 0, |content|, |base|, |blob|))
  {
    hide FooterPackable, FooterAt, EncodeFooter, FooterBlock, PadTo;
    var f := FooterFor(content, base, blob);
    LastBlock(blockSize, f);
    var gap := partitionSize - 64 - |base| - |blob|;
    var front := base + blob + Zeros(gap);
    ZerosBehind(base, blob, blockSize, partitionSize, EncodeFooter(f).value);
    FooterIsAt(f, image, front);
    FrontOfImage(base, blob, gap, image, EncodeFooter(f).value);
  }

  lemma LastBlock(blockSize: nat, f: Footer)
    requires 64 <= blockSize && FooterPackable(f)
    ensures EncodeFooter(f).Ok? && |EncodeFooter(f).value| == 64
    ensures FooterBlock(blockSize, f) == Zeros(blockSize - 64) + EncodeFooter(f).value
  {
    FooterRoundTrip(f);
  }

  lemma ZerosBehind(base: seq<byte>, blob: seq<byte>, blockSize: nat, partitionSize: nat, tail: seq<byte>)
    requires 64 <= blockSize && |base| + |PadTo(blob, blockSize)| + blockSize <= partitionSize && |tail| == 64
    ensures |base| + |blob| + 64 <= partitionSize
    ensures Resize(base + PadTo(blob, blockSize), partitionSize - blockSize) + (Zeros(blockSize - 64) + tail)
         == base + blob + Zeros(partitionSize - 64 - |base| - |blob|) + tail
  {
    var n := |PadTo(blob, blockSize)|;
    var rest := partitionSize - blockSize - |base| - n;
    assert PadTo(blob, blockSize) == blob + Zeros(n - |blob|);
    assert Resize(base + PadTo(blob, blockSize), partitionSize - blockSize) == base + blob + Zeros(n - |blob| + rest);
    assert Zeros(n - |blob| + rest) + Zeros(blockSize - 64) == Zeros(partitionSize - 64 - |base| - |blob|);
    FourJoined(base + blob, Zeros(n - |blob| + rest), Zeros(blockSize - 64), tail);
  }

  lemma FourJoined(a: seq<byte>, b: seq<byte>, c: seq<byte>, d: seq<byte>)
    ensures a + b + (c + d) == a + (b + c) + d
  {
  }

  lemma FrontOfImage(base: seq<byte>, blob: seq<byte>, gap: nat, image: seq<byte>, tail: seq<byte>)
    requires image == base + blob + Zeros(gap) + tail && |tail| == 64
    ensures image[..|base|] == base && image[|base|..|base| + |blob|] == blob
    ensures forall i :: |base| + |blob| <= i < |image| - 64 ==> image[i] == 0
  {
    forall i | |base| + |blob| <= i < |image| - 64
      ensures image[i] == 0
    {
      assert image[i] == Zeros(gap)[i - |base| - |blob|];
    }
  }

  /** The magic bytes and names, as text. */
  lemma Names()
    ensures MAGIC == Ascii("AVB0") && FOOTER_MAGIC == Ascii("AVBf") && RELEASE == Ascii("avbtool 1.2.0")
    ensures D.BLAKE2B_256 == Ascii("blake2b-256") && D.BLAKE2B == Ascii("blake2b")
  {
  }

  /** Trees may also use BLAKE2b with 32 bytes of output, if the library knows BLAKE2b; the name's case is ignored. */
  lemma TreeDigests(sizes: D.DigestSizes, algorithm: seq<byte>)
    ensures D.Lower(algorithm) == Ascii("blake2b-256") ==>
              D.TreeDigestSize(sizes, algorithm) == if sizes(Ascii("blake2b")).Some? then Some(32) else None
    ensures D.Lower(algorithm) != Ascii("blake2b-256") ==> D.TreeDigestSize(sizes, algorithm) == sizes(algorithm)
    ensures D.Lower(Ascii("BLAKE2b-256")) == Ascii("blake2b-256")
  {
    Names();
  }

  /**
   * A blob is generated exactly when the algorithm is known, descriptors and header can be packed, and for a signed one
   * the key is given and has the algorithm's size, and the signer returns as many bytes.
   */
  lemma GeneratesIff(input: B.Input, hashes: Hashes, signer: B.Signer)
    requires B.InputFits(input)
    ensures B.Generate(input, hashes, signer).Ok? <==>
              var t, encoded := input.algorithmType, D.EncodeAll(input.descriptors);
              && t <= 6 && encoded.Ok?
              && var key := if t == 0 then [] else if input.key.Some? then Keys.KeyBlob(input.key.value).value else [];
              && (t > 0 ==>
                    && input.key.Some? && |key| == 8 + 2 * SignatureBytes(t)
                    && input.key.value.numBits == 8 * SignatureBytes(t))
              && var h := B.MakeHeader(input, LookUp(t).value, |encoded.value|, |key|);
              && Packable(h)
              && (t > 0 ==>
                    var message := HeaderBytes(h) + PadTo(encoded.value + key + input.metadata, 64);
                    var signature :=
                      signer(Padded(t, HashFor(hashes, t)(message)));
                    signature.Some? && |signature.value| == SignatureBytes(t))
  {
    hide LookUp, Padded, D.EncodeAll, B.MakeHeader, Packable, Keys.KeyBlob, HeaderBytes, PadTo, Keys.N0Inv;
    NoAlgorithm();
    var t, encoded := input.algorithmType, D.EncodeAll(input.descriptors);
    AlgorithmTable(t, []);
    if 1 <= t <= 6 && encoded.Ok? && input.key.Some? {
      var key := Keys.KeyBlob(input.key.value).value;
      var h := B.MakeHeader(input, LookUp(t).value, |encoded.value|, |key|);
      AlgorithmTable(t, HashFor(hashes, t)(HeaderBytes(h) + PadTo(encoded.value + key + input.metadata, 64)));
      assert HashOf(hashes, LookUp(t).value) == HashFor(hashes, t);
    }
  }

  /** The verifier accepts a signed blob exactly if the stored digest is right and the signature recovers to it. */
  lemma VerifiesIff(h: Header, blob: seq<byte>, hashes: Hashes, recover: B.Recover)
    requires 1 <= h.algorithmType <= 6 && 256 + h.authSize + h.auxSize <= |blob|
    requires h.hashOffset + h.hashSize <= h.authSize && h.signatureOffset + h.signatureSize <= h.authSize
    requires h.publicKeyOffset + h.publicKeySize <= h.auxSize
    ensures var t, aux := h.algorithmType, 256 + h.authSize;
            var digest := HashFor(hashes, t)(blob[..256] + blob[aux..aux + h.auxSize]);
            var modulus :=
              Keys.EmbeddedModulus(blob[aux + h.publicKeyOffset..aux + h.publicKeyOffset + h.publicKeySize]);
            B.VerifySignature(h, blob, hashes, recover) == Ok(true) <==>
              && blob[256 + h.hashOffset..256 + h.hashOffset + h.hashSize] == digest
              && modulus.Some?
              && recover(modulus.value, blob[256 + h.signatureOffset..256 + h.signatureOffset + h.signatureSize])
                 == Some(Padded(t, digest))
  {
    hide LookUp, Padded, Keys.EmbeddedModulus, HashFor, HashOf, B.SignedBytes, B.KeyBytes;
    var t := h.algorithmType;
    PartsCovered(h, blob);
    HashIs(hashes, t);
    AlgorithmTable(t, HashFor(hashes, t)(B.SignedBytes(h, blob)));
  }

  /** What is signed, and the key, when header and parts lie inside the blob. */
  lemma PartsCovered(h: Header, blob: seq<byte>)
    requires 256 + h.authSize + h.auxSize <= |blob| && h.publicKeyOffset + h.publicKeySize <= h.auxSize
    ensures var aux := 256 + h.authSize;
            && B.SignedBytes(h, blob) == blob[..256] + blob[aux..aux + h.auxSize]
            && B.KeyBytes(h, blob) == blob[aux + h.publicKeyOffset..aux + h.publicKeyOffset + h.publicKeySize]
  {
    assert blob[0..256] == blob[..256];
  }

  lemma HashIs(hashes: Hashes, t: nat)
    requires 1 <= t <= 6
    ensures LookUp(t).Some? && HashOf(hashes, LookUp(t).value) == HashFor(hashes, t)
  {
    hide LookUp;
    AlgorithmTable(t, []);
  }

  // ------------------------------------------------------------------ what is accepted

  /** Any 256 bytes that begin with the magic, and with text as release string, are a header with these numbers. */
  lemma HeaderAccepted(data: seq<byte>)
    requires |data| == 256
    ensures data[0..4] != [65, 86, 66, 48] ==> ParseHeader(data) == Raised(AvbError)
    ensures data[0..4] == [65, 86, 66, 48] ==>
              var release := D.RStrip(data[128..175]);
              if IsUtf8(release)
              then
                && ParseHeader(data).Ok? && HeaderAt(data, ParseHeader(data).value)
                && ParseHeader(data).value.releaseString == release
              else ParseHeader(data) == Raised(UnicodeDecodeError)
  {
    hide Sum, Split, DecodeBE, IsUtf8, D.RStrip;
    WidthsSum();
    var f := Split(WIDTHS, data);
    assert data[..Sum(WIDTHS)] == data;
    HeaderFront(f, data);
    HeaderMiddle(f, data);
    HeaderBack(f, data);
  }

  /** Any 64 bytes that begin with the magic are a footer with these numbers. */
  lemma FooterAccepted(data: seq<byte>)
    requires |data| == 64
    ensures if data[0..4] == [65, 86, 66, 102]
            then
              && ParseFooter(data).Ok?
              && var f := ParseFooter(data).value;
              && DecodeBE(data[4..8]) == f.major && DecodeBE(data[8..12]) == f.minor
              && DecodeBE(data[12..20]) == f.originalImageSize && DecodeBE(data[20..28]) == f.vbmetaOffset
              && DecodeBE(data[28..36]) == f.vbmetaSize
            else ParseFooter(data) == Raised(LookupError)
  {
    hide Sum, Split, DecodeBE;
    FooterWidthsSum();
    FooterFieldsAt(Split(FOOTER_WIDTHS, data), data);
  }

  /** An image has a footer exactly if its last 64 bytes begin with the magic. */
  lemma FooterIff(content: seq<byte>)
    ensures FooterOf(content).Some? <==>
              |content| >= 64 && content[|content| - 64..][0..4] == [65, 86, 66, 102]
    ensures FooterOf(content).Some? ==>
              DecodeBE(content[|content| - 64..][12..20]) == FooterOf(content).value.originalImageSize
  {
    hide ParseFooter, DecodeBE;
    if |content| >= 64 { FooterAccepted(content[|content| - 64..]); }
  }

  /** From a finished image, and from a file that holds no more than it, a generated blob is loaded whole. */
  lemma BlobLoaded(image: seq<byte>, content: seq<byte>, base: seq<byte>, partitionSize: nat, blockSize: nat,
                   input: B.Input, hashes: Hashes, signer: B.Signer)
    requires B.InputFits(input) && Lengths(hashes) && B.Generate(input, hashes, signer).Ok?
    requires var blob := B.Assemble(B.Generate(input, hashes, signer).value);
             || (image == blob && FooterOf(image) == None)
             || (64 <= blockSize && HasFooter(image, content, base, blob, partitionSize, blockSize)
                 && |base| + |PadTo(blob, blockSize)| + blockSize <= partitionSize)
    ensures BlobIn(image) == Ok(B.Assemble(B.Generate(input, hashes, signer).value))
  {
    hide B.Generate, B.Assemble, Lengths, HasFooter, FooterOf, ParseHeader, B.KeyBytes, B.SignatureBytes, PadTo,
      B.SignedBytes, D.EncodeAll;
    var p := B.Generate(input, hashes, signer).value;
    var blob := B.Assemble(p);
    B.LayoutInverse(input, hashes, signer);
    if FooterOf(image) == None && image == blob {
      WholeBlob(image, 0, blob, p.header);
    } else {
      FinishedFooter(image, content, base, blob, partitionSize, blockSize);
      WholeBlob(image, |base|, blob, p.header);
    }
  }

  lemma FinishedFooter(image: seq<byte>, content: seq<byte>, base: seq<byte>, blob: seq<byte>, partitionSize: nat,
                       blockSize: nat)
    requires 64 <= blockSize && HasFooter(image, content, base, blob, partitionSize, blockSize)
    requires |base| + |PadTo(blob, blockSize)| + blockSize <= partitionSize
    ensures FooterOf(image) == Some(Footer(1, 0, |content|, |base|, |blob|))
    ensures |base| + |blob| <= |image| && image[|base|..|base| + |blob|] == blob
  {
    hide FooterOf, FooterAt, WithFooter, FooterPackable, PadTo;
    WithFooterShows(content, base, blob, partitionSize, blockSize);
    FinishedBytes(image, content, base, blob, partitionSize, blockSize);
  }

  lemma WholeBlob(image: seq<byte>, at: nat, blob: seq<byte>, h: Header)
    requires at + |blob| <= |image| && image[at..at + |blob|] == blob && ParseHeader(Slice(blob, 0, SIZE)) == Ok(h)
    requires |blob| == SIZE + h.authSize + h.auxSize
    requires if FooterOf(image).Some? then at == FooterOf(image).value.vbmetaOffset else at == 0
    ensures BlobIn(image) == Ok(blob)
  {
    hide ParseHeader, FooterOf;
    SliceOfSlice(image, at, at + |blob|, 0, SIZE);
  }
}
