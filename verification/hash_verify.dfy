/** The hash descriptor's verify, and what it says about images with a hash footer. */
module HashVerify {
  import opened Bytes
  import opened FooterCommands
  import opened FooterLayout
  import opened FooterRuns
  import opened HashFooters
  import opened Hashing
  import opened Images
  import opened Vbmeta
  import opened VbmetaBytes
  import opened Wrappers

  import B = VbmetaBlob
  import D = Descriptors
  import SparseFormat

  /** Whether the descriptor vouches for the data that were read; without a digest it does for any. */
  function Judged(data: Result<seq<byte>>, d: D.Descriptor, hash: HashFn): Result<bool>
    requires d.Hash?
  {
    match data
    case Raised(e) => Raised(e)
    case Ok(bytes) => Ok(d.digest == [] || hash(d.salt + bytes) == d.digest)
  }

  /** AvbHashDescriptor.verify on the handler that it reads from, which it does from the cursor on. */
  method Verify(image: ImageHandler, d: D.Descriptor, hash: HashFn) returns (r: Result<bool>)
    requires image.Loaded() && d.Hash?
    modifies image`filePos
    ensures r == Judged(ReadsAt(image, old(image.filePos), d.imageSize), d, hash)
  {
    hide SparseFormat.ReadAt, BeyondData;
    var data := image.Read(d.imageSize);
    if data.Raised? { return Raised(data.error); }
    var digest := hash(d.salt + data.value);
    if d.digest != [] && digest != d.digest { return Ok(false); }
    return Ok(true);
  }

  /** Data that verify against a digest are the original data, or two different inputs with one digest are at hand. */
  lemma VerifiedIsOriginal(data: seq<byte>, original: seq<byte>, d: D.Descriptor, hash: HashFn)
    requires d.Hash? && d.digest != [] && d.digest == hash(d.salt + original)
    ensures Judged(Ok(original), d, hash) == Ok(true)
    ensures Judged(Ok(data), d, hash) == Ok(true) ==>
              data == original || (d.salt + data != d.salt + original && hash(d.salt + data) == hash(d.salt + original))
  {
    if d.salt + data == d.salt + original {
      assert data == (d.salt + data)[|d.salt|..] && original == (d.salt + original)[|d.salt|..];
    }
  }

  // ------------------------------------------------------- what a finished image shows

  /**
   * A parsed image shows the hash footer that was asked for: footer, header and, as the first descriptor, size, salt
   * and digest of the content.
   */
  ghost predicate ShowsHash(p: Parsed, content: seq<byte>, a: HashArgs, blockSize: nat)
    requires blockSize > 0
  {
    && p.footer.Some? && p.footer.value.originalImageSize == |content|
    && p.footer.value.vbmetaOffset == RoundToMultiple(|content|, blockSize)
    && p.footer.value.vbmetaSize == 256 + p.header.authSize + p.header.auxSize
    && p.footer.value.vbmetaOffset + p.footer.value.vbmetaSize <= p.imageSize
    && Shows(p.header, a.input, a.persistentDigest || a.doNotUseAb)
    && |p.descriptors| == 1 + |a.input.descriptors|
    && var d := p.descriptors[0];
    && d.Hash? && d.imageSize == |content| && d.hashAlgorithm == a.algorithm && d.partitionName == a.partitionName
    && d.salt == a.salt && d.digest == (if a.persistentDigest then [] else a.hash(a.salt + content))
    && d.flags == if a.doNotUseAb then 1 else 0
  }

  /** Hash functions, key and descriptors are such that the image can be parsed, and a plain image has room. */
  ghost predicate ParsesBack(isSparse: bool, content: seq<byte>, a: HashArgs, c: Crypto, sizes: D.DigestSizes)
    requires Encodable(a.input)
  {
    && Parses(content, a, c, sizes) && HashBlob(content, a, c).Ok?
    && (isSparse || |HashBlob(content, a, c).value| <= MAX_VBMETA_SIZE)
  }

  lemma AddedShows(s: State, t: State, partitionSize: nat, dynamicSize: bool, a: HashArgs, c: Crypto, blockSize: nat,
                   sizes: D.DigestSizes)
    requires FOOTER_SIZE <= blockSize && Encodable(a.input) && t.isSparse == s.isSparse
    requires HashAdded(s, t.content, None, partitionSize, dynamicSize, a, c, blockSize)
    requires !s.isSparse ==> blockSize == PLAIN_BLOCK_SIZE
    requires ParsesBack(s.isSparse, Trim(s.content), a, c, sizes)
    ensures OffsetsInside(t.content) && ParseContent(t.content, sizes).Ok?
    ensures ShowsHash(ParseContent(t.content, sizes).value, Trim(s.content), a, blockSize)
    ensures ParseContent(t.content, sizes).value.footer == FooterOf(t.content)
    ensures ParseContent(t.content, sizes).value.imageSize == |t.content|
    ensures var content := Trim(s.content);
            |content| <= |t.content| && t.content[..|content|] == content && |t.content| > 0
  {
    hide CleanCut, Trim, TrimmedChunks, OffsetsInside, ParseContent, HashBlob, PartitionSizeFor, Parses, WithFooter,
      FooterPackable, PadTo, Fit, CountsFit, Restored, B.Generate, FooterOf, Shows;
    HashAddedMeans(s, t.content, None, partitionSize, dynamicSize, a, c, blockSize);
    var content := Trim(s.content);
    var size := PartitionSizeFor(content, partitionSize, dynamicSize, blockSize);
    HashFooterParses(content, a, c, size, blockSize, sizes);
    HashFooterRoundTrip(t.content, content, HashBlob(content, a, c).value, size, blockSize);
    ContentInFront(t.content, content, FooterFor(content, PadTo(content, blockSize), HashBlob(content, a, c).value));
    InputShows(content, a, c, sizes);
    FirstDescriptor(content, a);
    BlobSize(content, a, c, sizes);
    if !s.isSparse { HashFits(|content|, |HashBlob(content, a, c).value|, size); }
    BlobInside(|PadTo(content, blockSize)|, HashBlob(content, a, c).value, size, blockSize);
  }

  lemma BlobInside(base: nat, blob: seq<byte>, size: nat, blockSize: nat)
    requires blockSize > 0 && base + |PadTo(blob, blockSize)| + blockSize <= size
    ensures base + |blob| <= size
  {
  }

  lemma BlobSize(content: seq<byte>, a: HashArgs, c: Crypto, sizes: D.DigestSizes)
    requires Encodable(a.input) && Parses(content, a, c, sizes) && HashBlob(content, a, c).Ok?
    ensures B.Generate(HashInput(content, a), c.hashes, c.signer).Ok?
    ensures var h := B.Generate(HashInput(content, a), c.hashes, c.signer).value.header;
            |HashBlob(content, a, c).value| == 256 + h.authSize + h.auxSize
  {
    hide B.Generate, Lengths, ParseHeader, B.Assemble, B.KeyBytes, B.SignatureBytes, B.SignedBytes, D.EncodeAll;
    B.LayoutInverse(HashInput(content, a), c.hashes, c.signer);
  }

  lemma ContentInFront(image: seq<byte>, content: seq<byte>, f: Footer)
    requires Trim(image) == content && FooterOf(image) == Some(f) && f.originalImageSize == |content|
    requires |content| <= |image|
    ensures image[..|content|] == content
  {
    hide FooterOf;
  }

  lemma InputShows(content: seq<byte>, a: HashArgs, c: Crypto, sizes: D.DigestSizes)
    requires Encodable(a.input) && Parses(content, a, c, sizes) && HashBlob(content, a, c).Ok?
    ensures B.Generate(HashInput(content, a), c.hashes, c.signer).Ok?
    ensures Shows(B.Generate(HashInput(content, a), c.hashes, c.signer).value.header, a.input,
                  a.persistentDigest || a.doNotUseAb)
  {
    hide B.Generate, Lengths, Shows;
    GeneratedShows(HashInput(content, a), c.hashes, c.signer, a.input, a.persistentDigest || a.doNotUseAb);
  }

  lemma FirstDescriptor(content: seq<byte>, a: HashArgs)
    ensures var ds := D.NormalizeAll([HashDescriptor(content, a)] + a.input.descriptors);
            |ds| == 1 + |a.input.descriptors| && ds[0] == HashDescriptor(content, a)
  {
    assert ([HashDescriptor(content, a)] + a.input.descriptors)[0] == HashDescriptor(content, a);
  }

  // --------------------------------------------------------------------------- runs

  /** Parsing the image that add_hash_footer finished shows what was asked for. */
  method AddThenParse(image: ImageHandler, partitionSize: nat, dynamicSize: bool, a: HashArgs, c: Crypto,
                      sizes: D.DigestSizes)
    returns (first: Option<Error>, parsed: Result<Parsed>)
    requires Writable(image) && SaneFooter(StateOf(image), image.blockSize) && Encodable(a.input)
    modifies image
    ensures image.isSparse == old(image.isSparse) && image.blockSize == old(image.blockSize) >= FOOTER_SIZE
    ensures HashAdded(old(StateOf(image)), image.Content(), first, partitionSize, dynamicSize, a, c, image.blockSize)
    ensures first == None ==> Writable(image)
    ensures first == None && ParsesBack(image.isSparse, Trim(old(image.Content())), a, c, sizes) ==>
              && parsed.Ok? && ShowsHash(parsed.value, Trim(old(image.Content())), a, image.blockSize)
              && parsed.value.footer == FooterOf(image.Content()) && parsed.value.imageSize == |image.Content()|
  {
    hide Describes, HashAdded, SaneFooter, Trim, OffsetsInside, ParseContent, ParsesBack, ShowsHash, FooterOf, ParsedBy,
      HashSticks, Opens, TrimmedChunks;
    ghost var s, bs := StateOf(image), image.blockSize;
    WritableSize(image);
    first := AddHashFooter(image, partitionSize, dynamicSize, a, c);
    parsed := Raised(AvbError);
    if first != None { return; }
    ghost var t := StateOf(image);
    ParsedInside(image, sizes);
    parsed := ParseImage(image, sizes);
    if ParsesBack(s.isSparse, Trim(s.content), a, c, sizes) {
      AddedShows(s, t, partitionSize, dynamicSize, a, c, bs, sizes);
    }
  }

  /** Another handler on the file that this one leaves. */
  method Reopen(image: ImageHandler) returns (h: ImageHandler)
    requires image.Valid()
    ensures fresh(h) && h.Valid() && h.isSparse == image.isSparse && h.Content() == image.Content() && h.filePos == 0
  {
    hide Describes;
    ValidReopens(image);
    var r := ImageHandler.Open(image.file, true);
    h := r.value;
  }

  /** What verifying does with a partition's name: it opens the file anew. */
  method VerifyAnew(image: ImageHandler, d: D.Descriptor, hash: HashFn) returns (verdict: Result<bool>)
    requires image.Valid() && d.Hash? && 0 < |image.Content()| && d.imageSize <= |image.Content()|
    ensures verdict == Judged(Ok(image.Content()[..d.imageSize]), d, hash)
  {
    hide Describes, SparseFormat.ReadAt, ReadsAt;
    var other := Reopen(image);
    other.ContentSize();
    ReadsInside(other, 0, d.imageSize);
    WholeRead(other.Content(), 0, d.imageSize);
    verdict := Verify(other, d, hash);
  }

  /**
   * The descriptor that is found in a finished image accepts it when the image is looked up by its partition name, that
   * is, opened anew.
   */
  method AddThenVerify(image: ImageHandler, partitionSize: nat, dynamicSize: bool, a: HashArgs, c: Crypto,
                       sizes: D.DigestSizes)
    returns (first: Option<Error>, verdict: Result<bool>)
    requires Writable(image) && SaneFooter(StateOf(image), image.blockSize) && Encodable(a.input)
    requires ParsesBack(image.isSparse, Trim(image.Content()), a, c, sizes)
    modifies image
    ensures first == None ==> verdict == Ok(true)
  {
    hide Describes, HashAdded, SaneFooter, Trim, OffsetsInside, ParseContent, ParsesBack, FooterOf, SparseFormat.ReadAt,
      ReadsAt, Shows;
    ghost var s, bs := StateOf(image), image.blockSize;
    WritableSize(image);
    var parsed;
    first, parsed := AddThenParse(image, partitionSize, dynamicSize, a, c, sizes);
    verdict := Raised(AvbError);
    if first != None { return; }
    ghost var t := StateOf(image);
    AddedShows(s, t, partitionSize, dynamicSize, a, c, bs, sizes);
    verdict := VerifyAnew(image, parsed.value.descriptors[0], a.hash);
  }

  /** What verify_image does with its handler: it reads the vbmeta blob, and then the descriptor reads on. */
  method ReadThenVerify(h: ImageHandler, offset: nat, size: nat, d: D.Descriptor, hash: HashFn)
    returns (verdict: Result<bool>)
    requires h.Loaded() && d.Hash? && offset + size <= |h.Content()| && h.Content() != []
    modifies h`filePos
    ensures verdict == Judged(Ok(SparseFormat.ReadAt(h.Content(), offset + size, d.imageSize)), d, hash)
  {
    hide Describes, SparseFormat.ReadAt, BeyondData, SparseEdit.IsTable;
    h.ContentSize();
    ReadsInside(h, offset, size);
    ReadsInside(h, offset + size, d.imageSize);
    WholeRead(h.Content(), offset, size);
    var _ := h.Seek(offset);
    var blob := h.Read(size);
    if h.isSparse { h.LoadedTable(); }
    verdict := Verify(h, d, hash);
  }

  /**
   * verify_image hands its own handler to a descriptor without a partition name, and its cursor stands behind the
   * vbmeta blob: what is hashed begins there, and not with the content.
   */
  method AddThenVerifyNameless(image: ImageHandler, partitionSize: nat, dynamicSize: bool, a: HashArgs, c: Crypto,
                               sizes: D.DigestSizes)
    returns (first: Option<Error>, verdict: Result<bool>, ghost at: nat)
    requires Writable(image) && SaneFooter(StateOf(image), image.blockSize) && Encodable(a.input)
    requires ParsesBack(image.isSparse, Trim(image.Content()), a, c, sizes)
    modifies image
    ensures first == None ==>
              var content := Trim(old(image.Content()));
              && FooterOf(image.Content()).Some?
              && at == FooterOf(image.Content()).value.vbmetaOffset + FooterOf(image.Content()).value.vbmetaSize
              && verdict == Ok(|| a.persistentDigest || a.hash(a.salt + content) == []
                               || a.hash(a.salt + SparseFormat.ReadAt(image.Content(), at, |content|))
                                  == a.hash(a.salt + content))
  {
    hide Describes, HashAdded, SaneFooter, Trim, OffsetsInside, ParseContent, ParsesBack, FooterOf, SparseFormat.ReadAt,
      Shows;
    ghost var s, bs := StateOf(image), image.blockSize;
    WritableSize(image);
    var parsed;
    first, parsed := AddThenParse(image, partitionSize, dynamicSize, a, c, sizes);
    verdict, at := Raised(AvbError), 0;
    if first != None { return; }
    ghost var t := StateOf(image);
    AddedShows(s, t, partitionSize, dynamicSize, a, c, bs, sizes);
    var other := Reopen(image);
    var f := parsed.value.footer.value;
    at := f.vbmetaOffset + f.vbmetaSize;
    verdict := ReadThenVerify(other, f.vbmetaOffset, 256 + parsed.value.header.authSize + parsed.value.header.auxSize,
                              parsed.value.descriptors[0], a.hash);
  }

  /** Without a partition name a finished image is rejected, unless the bytes behind the blob happen to hash alike. */
  lemma NamelessIsRejected(image: seq<byte>, content: seq<byte>, at: nat, a: HashArgs)
    requires var data := SparseFormat.ReadAt(image, at, |content|);
             data != content && a.hash(a.salt + data) == a.hash(a.salt + content)
    ensures Breaks(a.hash, Collision(a.salt + SparseFormat.ReadAt(image, at, |content|), a.salt + content))
  {
    var data := SparseFormat.ReadAt(image, at, |content|);
    assert (a.salt + data)[|a.salt|..] == data && (a.salt + content)[|a.salt|..] == content;
  }

  // ------------------------------------------------------------------------- refusals

  /** What the command refuses, which is no more than the allowance of 64 KiB and 4096 bytes that it keeps free. */
  lemma Refuses(s: State, after: seq<byte>, r: Option<Error>, partitionSize: nat, a: HashArgs, c: Crypto,
                blockSize: nat)
    requires FOOTER_SIZE <= blockSize && Encodable(a.input)
    requires HashAdded(s, after, r, partitionSize, false, a, c, blockSize)
    ensures partitionSize < 69632 ==> r == Some(AvbError) && after == s.content
    ensures CleanCut(s, blockSize) && (partitionSize % blockSize != 0 || partitionSize < |Trim(s.content)| + 69632) ==>
              r == Some(AvbError)
    ensures CleanCut(s, blockSize) && partitionSize % blockSize == 0 && |Trim(s.content)| + 69632 <= partitionSize ==>
              Added(s.isSparse, TrimmedChunks(s), Trim(s.content), after, r, HashBlob(Trim(s.content), a, c),
                    partitionSize, blockSize)
  {
    hide CleanCut, Trim, TrimmedChunks, HashBlob, Added;
  }
}
