/** Building a vbmeta blob, finding its parts again, and verifying its signature. */
module VbmetaBlob {
  import opened Bits
  import opened Bytes
  import opened Hashing
  import opened Vbmeta
  import opened Wrappers

  import D = Descriptors
  import Keys

  /** The arguments of _generate_vbmeta_blob that reach the blob; the algorithm is named by its type. */
  datatype Input = Input(algorithmType: nat, key: Option<Keys.PublicKey>, descriptors: seq<D.Descriptor>,
                         metadata: seq<byte>, rollbackIndex: nat, flags: nat, rollbackIndexLocation: nat,
                         minor: nat, releaseString: seq<byte>)

  /** The private-key operation on padding ++ digest; None when the signing program fails. */
  type Signer = seq<byte> -> Option<seq<byte>>

  /** The public-key operation on a signature. */
  type Recover = (nat, seq<byte>) -> Option<seq<byte>>

  datatype Parts = Parts(header: Header, descriptors: seq<byte>, key: seq<byte>, metadata: seq<byte>,
                         digest: seq<byte>, signature: seq<byte>)

  /** A key that RSAPublicKey.encode can encode, and a release string that fits the header. */
  ghost predicate InputFits(input: Input) {
    && (input.key.Some? ==>
          0 < input.key.value.modulus < Pow2(input.key.value.numBits) && Keys.KeyBlob(input.key.value).Some?)
    && ReleaseFits(input.releaseString)
  }

  function MakeHeader(input: Input, a: Algorithm, descriptorsSize: nat, keySize: nat): Header {
    Header(1, input.minor, RoundToMultiple(a.hashNumBytes + a.signatureNumBytes, 64),
           RoundToMultiple(descriptorsSize + keySize + |input.metadata|, 64), a.algorithmType,
           0, a.hashNumBytes, a.hashNumBytes, a.signatureNumBytes,
           descriptorsSize, keySize, descriptorsSize + keySize, |input.metadata|, 0, descriptorsSize,
           input.rollbackIndex, input.flags, input.rollbackIndexLocation, input.releaseString)
  }

  function AuxBlock(descriptors: seq<byte>, key: seq<byte>, metadata: seq<byte>): seq<byte> {
    PadTo(descriptors + key + metadata, 64)
  }

  function AuthBlock(digest: seq<byte>, signature: seq<byte>): seq<byte> {
    PadTo(digest + signature, 64)
  }

  function Assemble(p: Parts): seq<byte> {
    HeaderBytes(p.header) + AuthBlock(p.digest, p.signature) + AuxBlock(p.descriptors, p.key, p.metadata)
  }

  // ---------------------------------------------------------------------- generate

  function KeyFor(a: Algorithm, key: Option<Keys.PublicKey>): Result<seq<byte>>
    requires key.Some? ==> key.value.modulus > 0 && Keys.KeyBlob(key.value).Some?
  {
    if a.publicKeyNumBytes == 0 then Ok([])
    else if key.None? || |Keys.KeyBlob(key.value).value| != a.publicKeyNumBytes then Raised(AvbError)
    else Ok(Keys.KeyBlob(key.value).value)
  }

  /** RSAPublicKey.sign: the signature of padding ++ digest, if key and signature have the algorithm's size. */
  function SignatureFor(a: Algorithm, key: Option<Keys.PublicKey>, digest: seq<byte>, signer: Signer)
    : Result<seq<byte>>
  {
    if key.None? || key.value.numBits != a.signatureNumBytes * 8 then Raised(AvbError)
    else match signer(a.padding + digest)
      case None => Raised(AvbError)
      case Some(s) => if |s| == a.signatureNumBytes then Ok(s) else Raised(AvbError)
  }

  /** The parts of the blob, or the first error. */
  function Generate(input: Input, hashes: Hashes, signer: Signer): Result<Parts>
    requires input.key.Some? ==> input.key.value.modulus > 0 && Keys.KeyBlob(input.key.value).Some?
  {
    match LookUp(input.algorithmType)
    case None => Raised(AvbError)
    case Some(a) =>
      match D.EncodeAll(input.descriptors)
      case Raised(e) => Raised(e)
      case Ok(descriptors) =>
        match KeyFor(a, input.key)
        case Raised(e) => Raised(e)
        case Ok(key) => Complete(input, a, descriptors, key, hashes, signer)
  }

  function Complete(input: Input, a: Algorithm, descriptors: seq<byte>, key: seq<byte>, hashes: Hashes, signer: Signer)
    : Result<Parts>
  {
    var h := MakeHeader(input, a, |descriptors|, |key|);
    if !Packable(h) then Raised(StructError)
    else if a.algorithmType == 0 then Ok(Parts(h, descriptors, key, input.metadata, [], []))
    else
      var digest := HashOf(hashes, a)(HeaderBytes(h) + AuxBlock(descriptors, key, input.metadata));
      match SignatureFor(a, input.key, digest, signer)
      case Raised(e) => Raised(e)
      case Ok(signature) => Ok(Parts(h, descriptors, key, input.metadata, digest, signature))
  }

  function Blob(parts: Result<Parts>): Result<seq<byte>> {
    match parts
    case Raised(e) => Raised(e)
    case Ok(p) => Ok(Assemble(p))
  }

  /** The loop over the descriptors. */
  method EncodeDescriptors(descriptors: seq<D.Descriptor>) returns (r: Result<seq<byte>>)
    ensures r == D.EncodeAll(descriptors)
  {
    hide D.Encode, D.EncodeAll;
    var encoded: seq<byte> := [];
    EncodingStarts(descriptors);
    for i := 0 to |descriptors|
      invariant Encoding(descriptors, encoded, descriptors[i..])
    {
      assert descriptors[i..][1..] == descriptors[i + 1..];
      EncodingStep(descriptors, encoded, descriptors[i..]);
      var e := D.Encode(descriptors[i]);
      if e.Raised? { return Raised(StructError); }
      encoded := encoded + e.value;
    }
    EncodingEnds(descriptors, encoded, descriptors[|descriptors|..]);
    return Ok(encoded);
  }

  /** The bytes so far, followed by the encoding of the rest, encode all descriptors. */
  ghost predicate Encoding(all: seq<D.Descriptor>, encoded: seq<byte>, rest: seq<D.Descriptor>) {
    match D.EncodeAll(rest)
    case Ok(bytes) => D.EncodeAll(all).Ok? && D.EncodeAll(all).value == encoded + bytes
    case Raised(e) => D.EncodeAll(all) == Raised(e)
  }

  lemma EncodingStarts(all: seq<D.Descriptor>)
    ensures Encoding(all, [], all[0..])
  {
    hide D.EncodeAll;
    assert all[0..] == all;
  }

  lemma EncodingStep(all: seq<D.Descriptor>, encoded: seq<byte>, rest: seq<D.Descriptor>)
    requires rest != [] && Encoding(all, encoded, rest)
    ensures if D.Encode(rest[0]).Ok? then Encoding(all, encoded + D.Encode(rest[0]).value, rest[1..])
            else D.EncodeAll(all) == Raised(StructError)
  {
    hide D.Encode;
    if D.Encode(rest[0]).Ok? && D.EncodeAll(rest[1..]).Ok? {
      assert encoded + (D.Encode(rest[0]).value + D.EncodeAll(rest[1..]).value)
          == encoded + D.Encode(rest[0]).value + D.EncodeAll(rest[1..]).value;
    }
  }

  lemma EncodingEnds(all: seq<D.Descriptor>, encoded: seq<byte>, rest: seq<D.Descriptor>)
    requires Encoding(all, encoded, rest) && rest == []
    ensures D.EncodeAll(all) == Ok(encoded)
  {
    assert encoded + [] == encoded;
  }

  method GenerateVbmetaBlob(input: Input, hashes: Hashes, signer: Signer) returns (r: Result<seq<byte>>)
    requires input.key.Some? ==> input.key.value.modulus > 0 && Keys.KeyBlob(input.key.value).Some?
    ensures r == Blob(Generate(input, hashes, signer))
  {
    hide Packable, HeaderBytes, LookUp, MakeHeader, PadTo, D.EncodeAll, Keys.KeyBlob;
    var alg := LookUp(input.algorithmType);
    if alg.None? { return Raised(AvbError); }
    var a := alg.value;
    var descriptors := EncodeDescriptors(input.descriptors);
    if descriptors.Raised? { return Raised(descriptors.error); }
    var key: seq<byte> := [];
    if a.publicKeyNumBytes > 0 {
      if input.key.None? { return Raised(AvbError); }
      var encoded := Keys.EncodeKey(input.key.value);
      key := encoded.value;
      if |key| != a.publicKeyNumBytes { return Raised(AvbError); }
    }
    var h := MakeHeader(input, a, |descriptors.value|, |key|);
    var header := EncodeHeader(h);
    if header.Raised? { return Raised(header.error); }
    var aux := AuxBlock(descriptors.value, key, input.metadata);
    var digest, signature: seq<byte> := [], [];
    if a.algorithmType != 0 {
      digest := HashOf(hashes, a)(header.value + aux);
      var signed := SignatureFor(a, input.key, digest, signer);
      if signed.Raised? { return Raised(signed.error); }
      signature := signed.value;
    }
    return Ok(header.value + AuthBlock(digest, signature) + aux);
  }

  // ------------------------------------------------------------------------ layout

  /** Cutting the blob by its own header's fields gives the parts; the ranges are in order and inside their block. */
  ghost predicate LaidOut(blob: seq<byte>, p: Parts) {
    var h := p.header;
    var aux := SIZE + h.authSize;
    && ParseHeader(Slice(blob, 0, SIZE)) == Ok(h) && InRange(blob, h)
    && Slice(blob, SIZE + h.hashOffset, SIZE + h.hashOffset + h.hashSize) == p.digest
    && Slice(blob, SIZE + h.signatureOffset, SIZE + h.signatureOffset + h.signatureSize) == p.signature
    && Slice(blob, aux + h.descriptorsOffset, aux + h.descriptorsOffset + h.descriptorsSize) == p.descriptors
    && Slice(blob, aux + h.publicKeyOffset, aux + h.publicKeyOffset + h.publicKeySize) == p.key
    && Slice(blob, aux + h.metadataOffset, aux + h.metadataOffset + h.metadataSize) == p.metadata
  }

  /**
   * The blob is header, authentication block and auxiliary block, both whole multiples of 64, and no two ranges
   * overlap.
   */
  ghost predicate InRange(blob: seq<byte>, h: Header) {
    && |blob| == SIZE + h.authSize + h.auxSize && h.authSize % 64 == 0 && h.auxSize % 64 == 0
    && h.hashOffset + h.hashSize <= h.signatureOffset && h.signatureOffset + h.signatureSize <= h.authSize
    && h.descriptorsOffset + h.descriptorsSize <= h.publicKeyOffset
    && h.publicKeyOffset + h.publicKeySize <= h.metadataOffset && h.metadataOffset + h.metadataSize <= h.auxSize
  }

  lemma LayoutInverse(input: Input, hashes: Hashes, signer: Signer)
    requires InputFits(input) && Lengths(hashes) && Generate(input, hashes, signer).Ok?
    ensures var p := Generate(input, hashes, signer).value;
            && LaidOut(Assemble(p), p) && KeyBytes(p.header, Assemble(p)) == p.key
            && SignatureBytes(p.header, Assemble(p)) == p.signature
            && D.EncodeAll(input.descriptors) == Ok(p.descriptors) && p.metadata == input.metadata
            && (input.algorithmType != 0 ==>
                  p.digest == HashOf(hashes, LookUp(input.algorithmType).value)(SignedBytes(p.header, Assemble(p))))
  {
    hide HeaderBytes, Pow2, Keys.KeyBlob, ParseHeader, HashOf, MakeHeader, Generate, AuxBlock, AuthBlock, LookUp,
      D.EncodeAll, Slice;
    var p := Generate(input, hashes, signer).value;
    Measured(input, hashes, signer, p);
    InOrder(input, LookUp(input.algorithmType).value, p);
    OrderedIsLaidOut(p);
  }

  lemma OrderedIsLaidOut(p: Parts)
    requires Ordered(p) && Packable(p.header) && ReleaseFits(p.header.releaseString)
    ensures LaidOut(Assemble(p), p)
    ensures KeyBytes(p.header, Assemble(p)) == p.key && SignatureBytes(p.header, Assemble(p)) == p.signature
    ensures SignedBytes(p.header, Assemble(p))
         == HeaderBytes(p.header) + AuxBlock(p.descriptors, p.key, p.metadata)
  {
    hide HeaderBytes, ParseHeader, AuxBlock, AuthBlock, Slice, Packable;
    HeaderRoundTrip(p.header);
    Cut(HeaderBytes(p.header), p.digest, p.signature, p.descriptors, p.key, p.metadata);
  }

  lemma Measured(input: Input, hashes: Hashes, signer: Signer, p: Parts)
    requires InputFits(input) && Lengths(hashes) && Generate(input, hashes, signer) == Ok(p)
    ensures LookUp(input.algorithmType).Some?
    ensures var a := LookUp(input.algorithmType).value;
            && |p.digest| == a.hashNumBytes && |p.signature| == a.signatureNumBytes
            && p.header == MakeHeader(input, a, |p.descriptors|, |p.key|) && Packable(p.header)
            && a.algorithmType == input.algorithmType && p.metadata == input.metadata
            && D.EncodeAll(input.descriptors) == Ok(p.descriptors)
            && (a.algorithmType != 0 ==>
                 && input.key.Some? && Keys.KeyBlob(input.key.value) == Some(p.key)
                 && p.digest == HashOf(hashes, a)(HeaderBytes(p.header) + AuxBlock(p.descriptors, p.key, p.metadata))
                 && signer(a.padding + p.digest) == Some(p.signature))
  {
    hide HeaderBytes, Packable, Pkcs1, Keys.KeyBlob, MakeHeader, D.EncodeAll, AuxBlock;
  }

  /** The header's sizes and offsets are those of the parts, in the order in which they are written. */
  ghost predicate Ordered(p: Parts) {
    var h := p.header;
    && h.authSize == |AuthBlock(p.digest, p.signature)|
    && h.auxSize == |AuxBlock(p.descriptors, p.key, p.metadata)|
    && h.authSize % 64 == 0 && h.auxSize % 64 == 0
    && h.hashOffset == 0 && h.hashSize == h.signatureOffset == |p.digest| && h.signatureSize == |p.signature|
    && |p.digest| + |p.signature| <= h.authSize
    && h.descriptorsOffset == 0 && h.descriptorsSize == h.publicKeyOffset == |p.descriptors|
    && h.publicKeySize == |p.key|
    && h.metadataOffset == |p.descriptors| + |p.key| && h.metadataSize == |p.metadata|
    && |p.descriptors| + |p.key| + |p.metadata| <= h.auxSize
  }

  lemma InOrder(input: Input, a: Algorithm, p: Parts)
    requires |p.digest| == a.hashNumBytes && |p.signature| == a.signatureNumBytes && p.metadata == input.metadata
    requires p.header == MakeHeader(input, a, |p.descriptors|, |p.key|)
    ensures Ordered(p) && p.header.algorithmType == a.algorithmType && p.header.releaseString == input.releaseString
  {
  }

  /** The slices of header ++ auth block ++ aux block. */
  lemma Cut(h: seq<byte>, digest: seq<byte>, signature: seq<byte>, d: seq<byte>, k: seq<byte>, m: seq<byte>)
    requires |h| == SIZE
    ensures var blob := h + AuthBlock(digest, signature) + AuxBlock(d, k, m);
            var aux := SIZE + |AuthBlock(digest, signature)|;
            && Slice(blob, 0, SIZE) == h && |blob| == aux + |AuxBlock(d, k, m)|
            && Slice(blob, aux, aux + |AuxBlock(d, k, m)|) == AuxBlock(d, k, m)
            && Slice(blob, SIZE, SIZE + |digest|) == digest
            && Slice(blob, SIZE + |digest|, SIZE + |digest| + |signature|) == signature
            && Slice(blob, aux, aux + |d|) == d && Slice(blob, aux + |d|, aux + |d| + |k|) == k
            && Slice(blob, aux + |d| + |k|, aux + |d| + |k| + |m|) == m
  {
    hide Slice, AuthBlock, AuxBlock;
    CutAuth(h, digest, signature, AuxBlock(d, k, m));
    CutAux(h + AuthBlock(digest, signature), d, k, m);
  }

  lemma CutAuth(h: seq<byte>, digest: seq<byte>, signature: seq<byte>, last: seq<byte>)
    ensures var blob := h + AuthBlock(digest, signature) + last;
            && Slice(blob, 0, |h|) == h && Slice(blob, |h|, |h| + |digest|) == digest
            && Slice(blob, |h| + |digest|, |h| + |digest| + |signature|) == signature
  {
    hide Slice, PadTo;
    var auth := AuthBlock(digest, signature);
    var pad := auth[|digest + signature|..];
    assert h + auth + last == h + (digest + signature + [] + (pad + last));
    D.PartsBehind(h, digest, signature, [], pad + last, h + auth + last);
    assert h + auth + last == [] + (h + [] + [] + (auth + last));
    D.PartsBehind([], h, [], [], auth + last, h + auth + last);
  }

  lemma CutAux(before: seq<byte>, d: seq<byte>, k: seq<byte>, m: seq<byte>)
    ensures var blob, aux := before + AuxBlock(d, k, m), |before|;
            && Slice(blob, aux, aux + |AuxBlock(d, k, m)|) == AuxBlock(d, k, m)
            && Slice(blob, aux, aux + |d|) == d && Slice(blob, aux + |d|, aux + |d| + |k|) == k
            && Slice(blob, aux + |d| + |k|, aux + |d| + |k| + |m|) == m
  {
    hide Slice, PadTo;
    var last := AuxBlock(d, k, m);
    var pad := last[|d + k + m|..];
    assert last == d + k + m + pad;
    D.PartsBehind(before, d, k, m, pad, before + last);
    assert last == last + [] + [] + [];
    D.PartsBehind(before, last, [], [], [], before + last);
  }

  // ------------------------------------------------------------------------ verify

  /** verify_vbmeta_signature, with openssl's public-key operation as a parameter. */
  function VerifySignature(h: Header, blob: seq<byte>, hashes: Hashes, recover: Recover): Result<bool> {
    match LookUp(h.algorithmType)
    case None => Raised(AvbError)
    case Some(a) =>
      if a.algorithmType == 0 then Ok(true)
      else
        var aux := SIZE + h.authSize;
        var digest := HashOf(hashes, a)(SignedBytes(h, blob));
        if digest != Slice(blob, SIZE + h.hashOffset, SIZE + h.hashOffset + h.hashSize) then Ok(false)
        else
          match Keys.EmbeddedModulus(KeyBytes(h, blob))
          case None => Raised(StructError)
          case Some(modulus) =>
            match recover(modulus, SignatureBytes(h, blob))
            case None => Raised(AvbError)
            case Some(pout) => Ok(pout == a.padding + digest)
  }

  function SignedBytes(h: Header, blob: seq<byte>): seq<byte> {
    Slice(blob, 0, SIZE) + Slice(blob, SIZE + h.authSize, SIZE + h.authSize + h.auxSize)
  }

  function KeyBytes(h: Header, blob: seq<byte>): seq<byte> {
    var at := SIZE + h.authSize + h.publicKeyOffset;
    Slice(blob, at, at + h.publicKeySize)
  }

  function SignatureBytes(h: Header, blob: seq<byte>): seq<byte> {
    var at := SIZE + h.signatureOffset;
    Slice(blob, at, at + h.signatureSize)
  }

  /** The verifier accepts what the generator wrote, if recovering undoes signing. */
  lemma GeneratedVerifies(input: Input, hashes: Hashes, signer: Signer, recover: Recover)
    requires InputFits(input) && Lengths(hashes) && Generate(input, hashes, signer).Ok?
    requires input.key.Some? ==> forall m, s :: signer(m) == Some(s) ==> recover(input.key.value.modulus, s) == Some(m)
    ensures var p := Generate(input, hashes, signer).value;
            VerifySignature(p.header, Assemble(p), hashes, recover) == Ok(true)
  {
    hide HeaderBytes, Pow2, Generate, Assemble, SignedBytes, KeyBytes, SignatureBytes, Slice, ParseHeader, InRange,
      MakeHeader, AuxBlock, AuthBlock, HashOf, Keys.KeyBlob, Keys.EmbeddedModulus, LookUp, D.EncodeAll;
    var p := Generate(input, hashes, signer).value;
    LayoutInverse(input, hashes, signer);
    Measured(input, hashes, signer, p);
    InOrder(input, LookUp(input.algorithmType).value, p);
    if input.algorithmType != 0 {
      Keys.KeyBlobRoundTrip(input.key.value);
    }
  }

  /** Two accepted blobs with one key, algorithm and signature sign the same bytes, or the hash breaks. */
  lemma SignatureBinds(h1: Header, b1: seq<byte>, h2: Header, b2: seq<byte>, hashes: Hashes, recover: Recover)
    requires h1.algorithmType == h2.algorithmType && LookUp(h1.algorithmType).Some? && h1.algorithmType != 0
    requires VerifySignature(h1, b1, hashes, recover) == Ok(true)
    requires VerifySignature(h2, b2, hashes, recover) == Ok(true)
    requires KeyBytes(h1, b1) == KeyBytes(h2, b2) && SignatureBytes(h1, b1) == SignatureBytes(h2, b2)
    ensures var c := if SignedBytes(h1, b1) == SignedBytes(h2, b2) then NoCollision
                     else Collision(SignedBytes(h1, b1), SignedBytes(h2, b2));
            c == NoCollision || Breaks(HashOf(hashes, LookUp(h1.algorithmType).value), c)
  {
    hide SignedBytes, KeyBytes, SignatureBytes, Keys.EmbeddedModulus, Pkcs1, HashOf;
    var a := LookUp(h1.algorithmType).value;
    var d1, d2 := HashOf(hashes, a)(SignedBytes(h1, b1)), HashOf(hashes, a)(SignedBytes(h2, b2));
    assert (a.padding + d1)[|a.padding|..] == d1 && (a.padding + d2)[|a.padding|..] == d2;
  }
}
