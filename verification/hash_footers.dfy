/** add_hash_footer: what it makes of an image, that it is undone by erasing and does nothing more when repeated. */
module HashFooters {
  import opened Bytes
  import opened FooterCommands
  import opened FooterLayout
  import opened Hashing
  import opened Images
  import opened Vbmeta
  import opened Wrappers

  import B = VbmetaBlob
  import D = Descriptors
  import Keys
  import SparseFormat

  const MAX_METADATA_SIZE: nat := MAX_VBMETA_SIZE + MAX_FOOTER_SIZE

  /** The arguments that describe the hash; the salt is given, and further descriptors come with the input. */
  datatype HashArgs = HashArgs(algorithm: seq<byte>, hash: HashFn, salt: seq<byte>, partitionName: seq<byte>,
                               persistentDigest: bool, doNotUseAb: bool, input: B.Input)

  /** Hash functions and private key of the run. */
  datatype Crypto = Crypto(hashes: Hashes, signer: B.Signer)

  ghost predicate Encodable(input: B.Input) {
    input.key.Some? ==> input.key.value.modulus > 0 && Keys.KeyBlob(input.key.value).Some?
  }

  function RequiredMinor(flagged: bool, rollbackIndexLocation: nat): nat {
    if rollbackIndexLocation > 0 then 2 else if flagged then 1 else 0
  }

  function HashDescriptor(content: seq<byte>, a: HashArgs): D.Descriptor {
    D.Hash(|content|, a.algorithm, a.partitionName, a.salt, if a.persistentDigest then [] else a.hash(a.salt + content),
           if a.doNotUseAb then 1 else 0)
  }

  function HashInput(content: seq<byte>, a: HashArgs): B.Input {
    a.input.(descriptors := [HashDescriptor(content, a)] + a.input.descriptors,
             minor := RequiredMinor(a.persistentDigest || a.doNotUseAb, a.input.rollbackIndexLocation))
  }

  /** The vbmeta blob for the content. */
  function HashBlob(content: seq<byte>, a: HashArgs, c: Crypto): Result<seq<byte>>
    requires a.input.key.Some? ==> a.input.key.value.modulus > 0 && Keys.KeyBlob(a.input.key.value).Some?
  {
    B.Blob(B.Generate(HashInput(content, a), c.hashes, c.signer))
  }

  function PartitionSizeFor(content: seq<byte>, partitionSize: nat, dynamicSize: bool, blockSize: nat): nat
    requires blockSize > 0
  {
    if dynamicSize then RoundToMultiple(|content| + MAX_METADATA_SIZE, blockSize) else partitionSize
  }

  /** The content with its hash footer. */
  ghost predicate HasHashFooter(image: seq<byte>, content: seq<byte>, blob: seq<byte>, partitionSize: nat,
                                blockSize: nat)
    requires FOOTER_SIZE <= blockSize
  {
    && |content| + MAX_METADATA_SIZE <= partitionSize && partitionSize % blockSize == 0
    && HasFooter(image, content, PadTo(content, blockSize), blob, partitionSize, blockSize)
  }

  /** Hashes the image and generates the blob. */
  method MakeHashBlob(image: ImageHandler, a: HashArgs, c: Crypto) returns (r: Result<seq<byte>>)
    requires image.Loaded() && Encodable(a.input)
    modifies image`filePos
    ensures r == HashBlob(image.Content(), a, c)
  {
    hide Describes, B.Generate;
    image.ContentSize();
    ReadsInside(image, 0, image.imageSize);
    var data := ReadRange(image, 0, image.imageSize);
    assert SparseFormat.ReadAt(image.Content(), 0, |image.Content()|) == image.Content();
    r := B.GenerateVbmetaBlob(HashInput(data.value, a), c.hashes, c.signer);
  }

  /** The outcomes of add_hash_footer; the alignment is checked only after an old footer has been dropped. */
  ghost predicate HashAdded(s: State, after: seq<byte>, r: Option<Error>, partitionSize: nat, dynamicSize: bool,
                            a: HashArgs, c: Crypto, blockSize: nat)
    requires FOOTER_SIZE <= blockSize && Encodable(a.input)
  {
    if !dynamicSize && partitionSize < MAX_METADATA_SIZE then r == Some(AvbError) && after == s.content
    else if !CleanCut(s, blockSize) then r == Some(ValueError) && after == s.content
    else
      var content := Trim(s.content);
      var size := PartitionSizeFor(content, partitionSize, dynamicSize, blockSize);
      if size % blockSize != 0 || size < |content| + MAX_METADATA_SIZE then r == Some(AvbError) && after == content
      else Added(s.isSparse, TrimmedChunks(s), content, after, r, HashBlob(content, a, c), size, blockSize)
  }

  method AddHashFooter(image: ImageHandler, partitionSize: nat, dynamicSize: bool, a: HashArgs, c: Crypto)
    returns (r: Option<Error>)
    requires Writable(image) && SaneFooter(StateOf(image), image.blockSize) && Encodable(a.input)
    modifies image
    ensures image.isSparse == old(image.isSparse) && image.blockSize == old(image.blockSize) >= FOOTER_SIZE
    ensures image.Sound()
    ensures HashAdded(old(StateOf(image)), image.Content(), r, partitionSize, dynamicSize, a, c, image.blockSize)
    ensures r == None ==> Writable(image) && TrimmedChunks(StateOf(image)) == TrimmedChunks(old(StateOf(image)))
    ensures r != None ==>
              (Opens(image.file) <==>
                 !HashSticks(old(StateOf(image)), partitionSize, dynamicSize, a, c, image.blockSize))
  {
    hide Describes, HashBlob, FooterOf, Trim, TrimmedChunks, Added, B.Generate, CleanCut, SaneFooter, PartitionSizeFor,
      Opens, AddSticks;
    OpensWhen(image);
    if !dynamicSize && partitionSize < MAX_METADATA_SIZE { return Some(AvbError); }
    ghost var content := Trim(image.Content());
    var error, originalImageSize := TrimToOriginal(image);
    OpensWhen(image);
    if error != None { return error; }
    image.ContentSize();
    var size := FinalPartitionSize(partitionSize, dynamicSize, image.blockSize, originalImageSize, content);
    if size % image.blockSize != 0 { return Some(AvbError); }
    var blob := Raised(AvbError);
    if size >= image.imageSize + MAX_METADATA_SIZE {
      blob := MakeHashBlob(image, a, c);
      HashBlobNotEmpty(content, a, c);
    }
    r := AttachOrRestore(image, blob, size, originalImageSize);
    RefusedIsRestored(image.isSparse, content, image.Content(), r, blob, size, image.blockSize);
    NothingSticks(image.isSparse, content, blob, size, image.blockSize);
  }

  /** When a failed add_hash_footer leaves a file that does not open. */
  ghost predicate HashSticks(s: State, partitionSize: nat, dynamicSize: bool, a: HashArgs, c: Crypto, blockSize: nat)
    requires blockSize > 0 && Encodable(a.input)
  {
    var content := Trim(s.content);
    var size := PartitionSizeFor(content, partitionSize, dynamicSize, blockSize);
    && (dynamicSize || MAX_METADATA_SIZE <= partitionSize) && CleanCut(s, blockSize)
    && size % blockSize == 0 && |content| + MAX_METADATA_SIZE <= size
    && AddSticks(s.isSparse, TrimmedChunks(s), content, HashBlob(content, a, c), size, blockSize)
  }

  lemma NothingSticks(isSparse: bool, content: seq<byte>, blob: Result<seq<byte>>, partitionSize: nat, blockSize: nat)
    requires blockSize > 0
    ensures blob.Raised? ==> forall n: nat :: !AddSticks(isSparse, n, content, blob, partitionSize, blockSize)
  {
  }

  method FinalPartitionSize(partitionSize: nat, dynamicSize: bool, blockSize: nat, originalImageSize: nat,
                            ghost content: seq<byte>)
    returns (size: nat)
    requires blockSize > 0 && originalImageSize == |content|
    ensures size == PartitionSizeFor(content, partitionSize, dynamicSize, blockSize)
  {
    return if dynamicSize then RoundToMultiple(originalImageSize + MAX_METADATA_SIZE, blockSize) else partitionSize;
  }

  lemma RefusedIsRestored(isSparse: bool, content: seq<byte>, after: seq<byte>, r: Option<Error>,
                          blob: Result<seq<byte>>, partitionSize: nat, blockSize: nat)
    requires FOOTER_SIZE <= blockSize
    requires exists chunks :: Added(isSparse, chunks, content, after, r, blob, partitionSize, blockSize)
    ensures blob.Raised? ==> r == Some(AvbError) && after == content
  {
  }

  lemma HashBlobNotEmpty(content: seq<byte>, a: HashArgs, c: Crypto)
    requires Encodable(a.input)
    ensures HashBlob(content, a, c) != Ok([])
  {
    hide B.Generate, B.Blob;
    BlobNotEmpty(B.Generate(HashInput(content, a), c.hashes, c.signer));
  }

  lemma BlobNotEmpty(parts: Result<B.Parts>)
    ensures B.Blob(parts) != Ok([])
  {
    hide HeaderBytes, B.AuthBlock, B.AuxBlock;
    if parts.Ok? { HeaderSplits(parts.value.header); }
  }

  /** A successful run, and what a failed one leaves: the content as it was, or without an old footer. */
  lemma HashAddedMeans(s: State, after: seq<byte>, r: Option<Error>, partitionSize: nat, dynamicSize: bool,
                       a: HashArgs, c: Crypto, blockSize: nat)
    requires FOOTER_SIZE <= blockSize && Encodable(a.input) && (s.isSparse || blockSize <= MAX_METADATA_SIZE)
    requires HashAdded(s, after, r, partitionSize, dynamicSize, a, c, blockSize)
    ensures r == None ==>
              var content := Trim(s.content);
              var size := PartitionSizeFor(content, partitionSize, dynamicSize, blockSize);
              && CleanCut(s, blockSize) && HashBlob(content, a, c).Ok? && |content| + blockSize <= size
              && HasHashFooter(after, content, HashBlob(content, a, c).value, size, blockSize)
    ensures r != None ==> after == Trim(s.content) || after == s.content
  {
    hide HashBlob, FooterOf, Trim, TrimmedChunks, CleanCut, HasFooter, Fit, CountsFit, FooterPackable, PadTo;
  }

  // -------------------------------------------------------------------- round trips

  /** The image with its footer, as a function of the content alone. */
  function WithHashFooter(content: seq<byte>, a: HashArgs, c: Crypto, partitionSize: nat, blockSize: nat): seq<byte>
    requires FOOTER_SIZE <= blockSize <= partitionSize
    requires a.input.key.Some? ==> a.input.key.value.modulus > 0 && Keys.KeyBlob(a.input.key.value).Some?
    requires HashBlob(content, a, c).Ok?
    requires FooterPackable(FooterFor(content, PadTo(content, blockSize), HashBlob(content, a, c).value))
  {
    WithFooter(content, PadTo(content, blockSize), HashBlob(content, a, c).value, partitionSize, blockSize)
  }

  /** The finished image shows its footer, and dropping what the footer says was added gives back the content. */
  lemma HashFooterRoundTrip(image: seq<byte>, content: seq<byte>, blob: seq<byte>, partitionSize: nat, blockSize: nat)
    requires FOOTER_SIZE <= blockSize && HasHashFooter(image, content, blob, partitionSize, blockSize)
    requires |content| + blockSize <= partitionSize
    ensures FooterOf(image) == Some(FooterFor(content, PadTo(content, blockSize), blob))
    ensures Trim(image) == content
  {
    hide FooterPackable, WithFooter, Trim, FooterOf;
    EraseUndoesAdd(content, PadTo(content, blockSize), blob, partitionSize, blockSize);
  }

  /** Hash functions, key and descriptors are such that the blob can be parsed again. */
  ghost predicate Parses(content: seq<byte>, a: HashArgs, c: Crypto, sizes: D.DigestSizes) {
    && B.InputFits(HashInput(content, a)) && Encodable(a.input) && Lengths(c.hashes)
    && forall i :: 0 <= i < |HashInput(content, a).descriptors| ==>
                     D.WellFormed(HashInput(content, a).descriptors[i], sizes)
  }

  /**
   * The finished image parses to what was put in, if there is room; with 4096-byte blocks there is, up to blobs of 64
   * KiB.
   */
  lemma HashFooterParses(content: seq<byte>, a: HashArgs, c: Crypto, partitionSize: nat, blockSize: nat,
                         sizes: D.DigestSizes)
    requires FOOTER_SIZE <= blockSize <= partitionSize && Parses(content, a, c, sizes) && HashBlob(content, a, c).Ok?
    requires FooterPackable(FooterFor(content, PadTo(content, blockSize), HashBlob(content, a, c).value))
    requires var blob := HashBlob(content, a, c).value;
             || |PadTo(content, blockSize)| + |PadTo(blob, blockSize)| + blockSize <= partitionSize
             || (blockSize == 4096 && |content| + MAX_METADATA_SIZE <= partitionSize && |blob| <= MAX_VBMETA_SIZE
                 && partitionSize % 4096 == 0)
    ensures var blob := HashBlob(content, a, c).value;
            var parsed := ParseContent(WithHashFooter(content, a, c, partitionSize, blockSize), sizes);
            && parsed.Ok? && parsed.value.footer == Some(FooterFor(content, PadTo(content, blockSize), blob))
            && parsed.value.imageSize == partitionSize
            && parsed.value.descriptors == D.NormalizeAll([HashDescriptor(content, a)] + a.input.descriptors)
            && parsed.value.header == B.Generate(HashInput(content, a), c.hashes, c.signer).value.header
    ensures OffsetsInside(WithHashFooter(content, a, c, partitionSize, blockSize))
  {
    hide ParseContent, OffsetsInside, FooterPackable, WithFooter, B.Generate, Lengths, PadTo;
    var input, blob := HashInput(content, a), HashBlob(content, a, c).value;
    var p := B.Generate(input, c.hashes, c.signer).value;
    B.LayoutInverse(input, c.hashes, c.signer);
    D.StreamRoundTrip(input.descriptors, sizes);
    BlobIsVbmeta(blob, p, D.NormalizeAll(input.descriptors), sizes);
    if |PadTo(content, blockSize)| + |PadTo(blob, blockSize)| + blockSize > partitionSize {
      HashFits(|content|, |blob|, partitionSize);
    }
    ParsesAsAdded(content, PadTo(content, blockSize), blob, partitionSize, blockSize, p.header,
                  D.NormalizeAll(input.descriptors), sizes);
  }

  /** A laid-out blob is one that parses where it lies. */
  lemma BlobIsVbmeta(blob: seq<byte>, p: B.Parts, ds: seq<D.Descriptor>, sizes: D.DigestSizes)
    requires B.LaidOut(blob, p) && D.ParseAll(p.descriptors, sizes) == Ok(ds)
    ensures IsVbmeta(blob, p.header, ds, sizes)
  {
    hide ParseHeader, D.ParseAll;
    assert Slice(blob, 0, SIZE) == blob[..SIZE];
  }
}
