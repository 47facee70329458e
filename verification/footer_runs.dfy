/** Runs of several footer commands on one image: repeating and undoing them. */
module FooterRuns {
  import opened Bytes
  import opened FooterCommands
  import opened FooterEdits
  import opened FooterLayout
  import opened HashFooters
  import opened Hashing
  import opened Images
  import opened Vbmeta
  import opened Wrappers

  import D = Descriptors
  import SparseEdit
  import SparseFormat

  // ------------------------------------------------------------------- between two runs

  /** The trimmed content of an image that the commands can write to. */
  ghost predicate WholeOrLong(isSparse: bool, content: seq<byte>, blockSize: nat)
    requires blockSize > 0
  {
    if isSparse then |content| % blockSize == 0 else SparseFormat.HEADER_SIZE <= |content|
  }

  /** Dropping a sane footer that can be dropped leaves whole blocks, or at least a header's length. */
  lemma TrimmedIsWhole(image: ImageHandler)
    requires Writable(image) && SaneFooter(StateOf(image), image.blockSize) && CleanCut(StateOf(image), image.blockSize)
    ensures WholeOrLong(image.isSparse, Trim(image.Content()), image.blockSize)
  {
    hide FooterOf;
    WritableSize(image);
  }

  /** An image whose footer names a content it still has is ready for the next command. */
  lemma ReadyAgain(s: State, content: seq<byte>, blockSize: nat)
    requires blockSize > 0 && WholeOrLong(s.isSparse, content, blockSize) && (s.isSparse ==> |content| <= |s.content|)
    requires FooterOf(s.content).Some? && FooterOf(s.content).value.originalImageSize == |content|
    ensures SaneFooter(s, blockSize) && CleanCut(s, blockSize)
  {
    hide FooterOf;
  }

  // --------------------------------------------------------------------- add_hash_footer

  lemma HashAddedIsReady(s: State, t: State, partitionSize: nat, dynamicSize: bool, a: HashArgs, c: Crypto,
                         blockSize: nat)
    requires FOOTER_SIZE <= blockSize && Encodable(a.input) && t.isSparse == s.isSparse
    requires HashAdded(s, t.content, None, partitionSize, dynamicSize, a, c, blockSize)
    requires !s.isSparse ==> blockSize == PLAIN_BLOCK_SIZE
    requires CleanCut(s, blockSize) ==> WholeOrLong(s.isSparse, Trim(s.content), blockSize)
    ensures SaneFooter(t, blockSize) && CleanCut(t, blockSize) && Trim(t.content) == Trim(s.content)
    ensures WholeOrLong(s.isSparse, Trim(s.content), blockSize) && HashBlob(Trim(s.content), a, c).Ok?
    ensures var size := PartitionSizeFor(Trim(s.content), partitionSize, dynamicSize, blockSize);
            && |Trim(s.content)| + blockSize <= size
            && HasHashFooter(t.content, Trim(s.content), HashBlob(Trim(s.content), a, c).value, size, blockSize)
  {
    hide HashAdded, SaneFooter, CleanCut, FooterOf, Trim, HashBlob, PartitionSizeFor, WholeOrLong,
      FooterPackable, WithFooter;
    var content := Trim(s.content);
    HashAddedMeans(s, t.content, None, partitionSize, dynamicSize, a, c, blockSize);
    HashFooterRoundTrip(t.content, content, HashBlob(content, a, c).value,
                        PartitionSizeFor(content, partitionSize, dynamicSize, blockSize), blockSize);
    ReadyAgain(t, content, blockSize);
  }

  lemma HashAddedTwice(s: State, t: State, after: seq<byte>, r: Option<Error>, partitionSize: nat, dynamicSize: bool,
                       a: HashArgs, c: Crypto, blockSize: nat)
    requires FOOTER_SIZE <= blockSize && Encodable(a.input) && t.isSparse == s.isSparse && CleanCut(t, blockSize)
    requires Trim(t.content) == Trim(s.content) && TrimmedChunks(t) == TrimmedChunks(s)
    requires HashAdded(s, t.content, None, partitionSize, dynamicSize, a, c, blockSize)
    requires HashAdded(t, after, r, partitionSize, dynamicSize, a, c, blockSize)
    ensures r == None && after == t.content
  {
    hide CleanCut, Trim, TrimmedChunks, HashBlob, PartitionSizeFor, Encodable, Takes, Restored, WithFooter,
      FooterPackable, PadTo;
  }

  /** Running add_hash_footer a second time succeeds and changes nothing. */
  method AddTwice(image: ImageHandler, partitionSize: nat, dynamicSize: bool, a: HashArgs, c: Crypto)
    returns (first: Option<Error>, second: Option<Error>, ghost once: seq<byte>)
    requires Writable(image) && SaneFooter(StateOf(image), image.blockSize) && Encodable(a.input)
    modifies image
    ensures image.isSparse == old(image.isSparse) && image.blockSize == old(image.blockSize) >= FOOTER_SIZE
    ensures HashAdded(old(StateOf(image)), once, first, partitionSize, dynamicSize, a, c, image.blockSize)
    ensures image.Content() == once
    ensures first == None ==> second == None && Writable(image)
  {
    hide Describes, HashAdded, SaneFooter, CleanCut, Trim, TrimmedChunks, WholeOrLong;
    ghost var s, bs := StateOf(image), image.blockSize;
    WritableSize(image);
    if CleanCut(s, bs) { TrimmedIsWhole(image); }
    first := AddHashFooter(image, partitionSize, dynamicSize, a, c);
    once, second := image.Content(), first;
    if first != None { return; }
    ghost var t := StateOf(image);
    HashAddedIsReady(s, t, partitionSize, dynamicSize, a, c, bs);
    second := AddHashFooter(image, partitionSize, dynamicSize, a, c);
    HashAddedTwice(s, t, image.Content(), second, partitionSize, dynamicSize, a, c, bs);
  }

  /** What erasing the finished image finds: its footer, and a size it can be cut to. */
  lemma FinishedIsErasable(s: State, after: seq<byte>, r: Option<Error>, content: seq<byte>, f: Footer, h: Header,
                           ds: seq<D.Descriptor>, blockSize: nat)
    requires blockSize > 0 && WholeOrLong(s.isSparse, content, blockSize) && (s.isSparse ==> |content| <= |s.content|)
    requires f.originalImageSize == |content|
    requires Erased(s, after, r, Ok(Parsed(Some(f), h, ds, |s.content|)), false, blockSize)
    ensures r == None
  {
  }

  /**
   * add_hash_footer and then erase_footer give the original content back; erasing succeeds if the blob can be parsed.
   */
  method AddThenErase(image: ImageHandler, partitionSize: nat, dynamicSize: bool, a: HashArgs, c: Crypto,
                      sizes: D.DigestSizes)
    returns (first: Option<Error>, second: Option<Error>, ghost once: seq<byte>)
    requires Writable(image) && SaneFooter(StateOf(image), image.blockSize) && Encodable(a.input)
    modifies image
    ensures image.isSparse == old(image.isSparse) && image.blockSize == old(image.blockSize) >= FOOTER_SIZE
    ensures HashAdded(old(StateOf(image)), once, first, partitionSize, dynamicSize, a, c, image.blockSize)
    ensures first == None && second == None ==> Writable(image) && image.Content() == Trim(old(image.Content()))
    ensures first == None && Parses(Trim(old(image.Content())), a, c, sizes) ==>
              image.isSparse || |HashBlob(Trim(old(image.Content())), a, c).value| <= MAX_VBMETA_SIZE ==> second == None
    ensures first != None ==> image.Content() == once
  {
    hide Describes, HashAdded, SaneFooter, CleanCut, Trim, TrimmedChunks, WholeOrLong, Erased,
      OffsetsInside, ParseContent, HasHashFooter, HashBlob, PartitionSizeFor, Parses;
    ghost var s, bs := StateOf(image), image.blockSize;
    WritableSize(image);
    if CleanCut(s, bs) { TrimmedIsWhole(image); }
    first := AddHashFooter(image, partitionSize, dynamicSize, a, c);
    once, second := image.Content(), first;
    if first != None { return; }
    ghost var t := StateOf(image);
    HashAddedIsReady(s, t, partitionSize, dynamicSize, a, c, bs);
    ParsedInside(image, sizes);
    second := EraseFooter(image, false, sizes);
    if Parses(Trim(s.content), a, c, sizes)
       && (s.isSparse || |HashBlob(Trim(s.content), a, c).value| <= MAX_VBMETA_SIZE) {
      HashErases(s, t, image.Content(), second, partitionSize, dynamicSize, a, c, bs, sizes);
    }
  }

  lemma HashErases(s: State, t: State, after: seq<byte>, r: Option<Error>, partitionSize: nat, dynamicSize: bool,
                   a: HashArgs, c: Crypto, blockSize: nat, sizes: D.DigestSizes)
    requires FOOTER_SIZE <= blockSize && Encodable(a.input) && t.isSparse == s.isSparse
    requires HashAdded(s, t.content, None, partitionSize, dynamicSize, a, c, blockSize)
    requires !s.isSparse ==> blockSize == PLAIN_BLOCK_SIZE
    requires CleanCut(s, blockSize) ==> WholeOrLong(s.isSparse, Trim(s.content), blockSize)
    requires Parses(Trim(s.content), a, c, sizes)
    requires s.isSparse || |HashBlob(Trim(s.content), a, c).value| <= MAX_VBMETA_SIZE
    requires !t.isSparse || OffsetsInside(t.content) ==>
              Erased(t, after, r, ParseContent(t.content, sizes), false, blockSize)
    ensures r == None
  {
    hide SaneFooter, CleanCut, Trim, TrimmedChunks, WholeOrLong, Erased, OffsetsInside, ParseContent, HashBlob,
      PartitionSizeFor, Parses, WithFooter, FooterPackable, PadTo, Fit, CountsFit, Restored;
    HashAddedIsReady(s, t, partitionSize, dynamicSize, a, c, blockSize);
    var content := Trim(s.content);
    var size := PartitionSizeFor(content, partitionSize, dynamicSize, blockSize);
    HashFooterParses(content, a, c, size, blockSize, sizes);
    var p := ParseContent(t.content, sizes).value;
    FinishedIsErasable(t, after, r, content, p.footer.value, p.header, p.descriptors, blockSize);
  }

  // ----------------------------------------------------------------- append_vbmeta_image

  lemma AppendedIsReady(s: State, t: State, blob: Result<seq<byte>>, partitionSize: nat, blockSize: nat)
    requires FOOTER_SIZE <= blockSize && t.isSparse == s.isSparse
    requires Appended(s, t.content, None, blob, partitionSize, blockSize)
    requires CleanCut(s, blockSize) ==> WholeOrLong(s.isSparse, Trim(s.content), blockSize)
    ensures SaneFooter(t, blockSize) && CleanCut(t, blockSize) && WholeOrLong(s.isSparse, Trim(s.content), blockSize)
    ensures var content := Trim(s.content);
            && blob.Ok?
            && HasFooter(t.content, content, PadTo(content, blockSize), blob.value, partitionSize, blockSize)
            && FooterOf(t.content) == Some(FooterFor(content, PadTo(content, blockSize), blob.value))
            && (s.isSparse ==>
                  |PadTo(content, blockSize)| + |PadTo(blob.value, blockSize)| + blockSize <= partitionSize)
  {
    hide SaneFooter, CleanCut, FooterOf, Trim, TrimmedChunks, WholeOrLong, FooterPackable, WithFooter, PadTo, Fit,
      CountsFit, Restored;
    var content := Trim(s.content);
    WithFooterShows(content, PadTo(content, blockSize), blob.value, partitionSize, blockSize);
    ReadyAgain(t, content, blockSize);
  }

  lemma AppendedTwice(s: State, t: State, after: seq<byte>, r: Option<Error>, blob: Result<seq<byte>>,
                      partitionSize: nat, blockSize: nat)
    requires FOOTER_SIZE <= blockSize && t.isSparse == s.isSparse && CleanCut(t, blockSize)
    requires s.isSparse ==> TrimmedChunks(t) == TrimmedChunks(s)
    requires Appended(s, t.content, None, blob, partitionSize, blockSize)
    requires Appended(t, after, r, blob, partitionSize, blockSize)
    ensures r == None && after == t.content
  {
    hide CleanCut, FooterOf, Trim, TrimmedChunks, FooterPackable, WithFooter, PadTo, Fit, CountsFit, Restored;
    AttachingAgain(Trim(s.content), blob.value, partitionSize, blockSize);
  }

  /**
   * Running append_vbmeta_image a second time with the same blob changes nothing, and succeeds unless the blob is
   * empty.
   */
  method AppendTwice(image: ImageHandler, vbmetaImage: ImageHandler, partitionSize: nat)
    returns (first: Option<Error>, second: Option<Error>, ghost once: seq<byte>)
    requires Writable(image) && SaneFooter(StateOf(image), image.blockSize) && vbmetaImage.Loaded()
    requires vbmetaImage != image
    modifies image, vbmetaImage`filePos
    ensures image.isSparse == old(image.isSparse) && image.blockSize == old(image.blockSize) >= FOOTER_SIZE
    ensures Appended(old(StateOf(image)), once, first, old(BlobBy(vbmetaImage)), partitionSize, image.blockSize)
    ensures first == None && (image.isSparse ==> old(BlobBy(vbmetaImage)) != Ok([])) ==>
              second == None && image.Content() == once && Writable(image)
  {
    hide Describes, Appended, SaneFooter, CleanCut, Trim, TrimmedChunks, WholeOrLong, BlobBy, OffsetsInside,
      HasFooter, PadTo;
    ghost var s, bs, blob := StateOf(image), image.blockSize, BlobBy(vbmetaImage);
    WritableSize(image);
    if CleanCut(s, bs) { TrimmedIsWhole(image); }
    first := AppendVbmetaImage(image, vbmetaImage, partitionSize);
    once, second := image.Content(), first;
    if first != None { return; }
    ghost var t := StateOf(image);
    AppendedIsReady(s, t, blob, partitionSize, bs);
    second := AppendVbmetaImage(image, vbmetaImage, partitionSize);
    if s.isSparse ==> blob != Ok([]) { AppendedTwice(s, t, image.Content(), second, blob, partitionSize, bs); }
  }

  /**
   * Erasing an appended footer gives the content back exactly when no part of it had to make room for the footer
   * block.
   */
  ghost predicate Spared(content: seq<byte>, blob: seq<byte>, partitionSize: nat, blockSize: nat)
    requires FOOTER_SIZE <= blockSize <= partitionSize
    requires FooterPackable(FooterFor(content, PadTo(content, blockSize), blob))
  {
    var front := partitionSize - blockSize;
    var block := FooterBlock(blockSize, FooterFor(content, PadTo(content, blockSize), blob));
    |content| > front ==> content[front..] == Resize(block, |content| - front)
  }

  /**
   * append_vbmeta_image and then erase_footer give the original content back, but for a plain image without
   * room; erasing succeeds if there was room and the blob parses to `h` and `ds`.
   */
  method AppendThenErase(image: ImageHandler, vbmetaImage: ImageHandler, partitionSize: nat, sizes: D.DigestSizes,
                         ghost h: Header, ghost ds: seq<D.Descriptor>)
    returns (first: Option<Error>, second: Option<Error>, ghost once: seq<byte>)
    requires Writable(image) && SaneFooter(StateOf(image), image.blockSize) && vbmetaImage.Loaded()
    requires vbmetaImage != image
    modifies image, vbmetaImage`filePos
    ensures image.isSparse == old(image.isSparse) && image.blockSize == old(image.blockSize) >= FOOTER_SIZE
    ensures Appended(old(StateOf(image)), once, first, old(BlobBy(vbmetaImage)), partitionSize, image.blockSize)
    ensures first == None && second == None ==>
              var content, blob := Trim(old(image.Content())), old(BlobBy(vbmetaImage)).value;
              && image.blockSize <= partitionSize
              && FooterPackable(FooterFor(content, PadTo(content, image.blockSize), blob))
              && Writable(image)
              && (image.Content() == content <==> Spared(content, blob, partitionSize, image.blockSize))
              && (image.isSparse ==> image.Content() == content)
    ensures first == None ==>
              var content, blob, bs := Trim(old(image.Content())), old(BlobBy(vbmetaImage)).value, image.blockSize;
              IsVbmeta(blob, h, ds, sizes) && |PadTo(content, bs)| + |PadTo(blob, bs)| + bs <= partitionSize ==>
                second == None
  {
    hide Describes, Appended, SaneFooter, CleanCut, Trim, TrimmedChunks, WholeOrLong, BlobBy, OffsetsInside, HasFooter,
      PadTo, Erased, ParseContent, IsVbmeta, Spared, FooterPackable, FooterOf;
    ghost var s, bs, blob := StateOf(image), image.blockSize, BlobBy(vbmetaImage);
    WritableSize(image);
    if CleanCut(s, bs) { TrimmedIsWhole(image); }
    first := AppendVbmetaImage(image, vbmetaImage, partitionSize);
    once, second := image.Content(), first;
    if first != None { return; }
    ghost var t := StateOf(image);
    AppendedIsReady(s, t, blob, partitionSize, bs);
    ParsedInside(image, sizes);
    second := EraseFooter(image, false, sizes);
    AppendedErases(s, t, image.Content(), second, blob.value, partitionSize, bs, h, ds, sizes);
  }

  lemma AppendedErases(s: State, t: State, after: seq<byte>, r: Option<Error>, blob: seq<byte>, partitionSize: nat,
                       blockSize: nat, h: Header, ds: seq<D.Descriptor>, sizes: D.DigestSizes)
    requires FOOTER_SIZE <= blockSize && t.isSparse == s.isSparse
    requires var content := Trim(s.content);
             && HasFooter(t.content, content, PadTo(content, blockSize), blob, partitionSize, blockSize)
             && WholeOrLong(s.isSparse, content, blockSize)
             && (s.isSparse ==> |PadTo(content, blockSize)| + |PadTo(blob, blockSize)| + blockSize <= partitionSize)
    requires !t.isSparse || OffsetsInside(t.content) ==>
              Erased(t, after, r, ParseContent(t.content, sizes), false, blockSize)
    requires r == None ==> after == Trim(t.content)
    ensures var content := Trim(s.content);
            && blockSize <= partitionSize && FooterPackable(FooterFor(content, PadTo(content, blockSize), blob))
            && (r == None ==> (after == content <==> Spared(content, blob, partitionSize, blockSize)))
            && (r == None && s.isSparse ==> after == content)
            && (IsVbmeta(blob, h, ds, sizes)
                && |PadTo(content, blockSize)| + |PadTo(blob, blockSize)| + blockSize <= partitionSize ==>
                  r == None)
  {
    hide Trim, WholeOrLong, OffsetsInside, PadTo, Erased, ParseContent, IsVbmeta, FooterBlock, FooterPackable,
      FooterOf, WithFooter;
    var content := Trim(s.content);
    var base := PadTo(content, blockSize);
    ContentErasedIff(content, base, blob, partitionSize, blockSize);
    if IsVbmeta(blob, h, ds, sizes) && |base| + |PadTo(blob, blockSize)| + blockSize <= partitionSize {
      ParsesAsAdded(content, base, blob, partitionSize, blockSize, h, ds, sizes);
      FinishedIsErasable(t, after, r, content, FooterFor(content, base, blob), h, ds, blockSize);
    }
  }

  // ------------------------------------------------------------------------ resize_image

  /** The footer points to a vbmeta blob inside the image. */
  ghost predicate VbmetaInPlace(content: seq<byte>, f: Footer, h: Header, ds: seq<D.Descriptor>, sizes: D.DigestSizes) {
    && FooterOf(content) == Some(f) && f.vbmetaOffset + f.vbmetaSize <= |content|
    && IsVbmeta(content[f.vbmetaOffset..f.vbmetaOffset + f.vbmetaSize], h, ds, sizes)
  }

  /** A gap of no bytes stays behind as a chunk when the image is resized again. */
  lemma ChunksLeft(s: State, t: State, f: Footer, partitionSize: nat, blockSize: nat)
    requires FOOTER_SIZE <= blockSize && s.isSparse && Finished(s, t, f, partitionSize, blockSize)
    ensures var end := VbmetaEnd(f, blockSize);
            ChunksAfter(t, end) == ChunksAfter(s, end) + if partitionSize == end + blockSize then 1 else 0
  {
    hide FooterPackable, Resized, VbmetaEnd, SparseEdit.KeptChunks;
    var end, front := VbmetaEnd(f, blockSize), partitionSize - blockSize;
    var cut: seq<nat> :| |cut| == ChunksAfter(s, end) && t.offsets == cut + [end] + [front];
    assert |t.content| == partitionSize;
    KeptOfTwo(cut, end, front);
  }

  lemma KeptOfTwo(cut: seq<nat>, end: nat, front: nat)
    requires end <= front
    ensures SparseEdit.KeptChunks(cut + [end] + [front], end) == |cut| + if front == end then 1 else 0
  {
    var offsets := cut + [end] + [front];
    assert offsets[..|cut| + 1] == cut + [end];
    assert offsets[|cut| + 1] == front && (cut + [end])[|cut|] == end;
    assert SparseEdit.KeptChunks(cut + [end], end) == |cut|;
  }

  /**
   * A second resize succeeds exactly when the new size is aligned, large enough and leaves room for a sparse image's
   * chunks.
   */
  ghost predicate ResizesAgain(s: State, f: Footer, size1: nat, size2: nat, blockSize: nat)
    requires blockSize > 0
  {
    var end := VbmetaEnd(f, blockSize);
    && size2 % blockSize == 0 && end + blockSize <= size2
    && (s.isSparse ==>
          CountsFit(true, ChunksAfter(s, end) + (if size1 == end + blockSize then 3 else 2), size2, blockSize))
  }

  /** What resizing to one size makes of the content. */
  ghost predicate IsResized(content: seq<byte>, after: seq<byte>, f: Footer, partitionSize: nat, blockSize: nat)
    requires FOOTER_SIZE <= blockSize
  {
    && FooterPackable(f) && VbmetaEnd(f, blockSize) + blockSize <= partitionSize
    && after == Resized(content, f, partitionSize, blockSize)
  }

  /** Resizing twice gives what resizing to the second size gives. */
  method ResizeTwice(image: ImageHandler, size1: nat, size2: nat, sizes: D.DigestSizes, ghost f: Footer,
                     ghost h: Header, ghost ds: seq<D.Descriptor>)
    returns (first: Option<Error>, second: Option<Error>)
    requires Writable(image) && VbmetaInPlace(image.Content(), f, h, ds, sizes)
    modifies image
    ensures image.isSparse == old(image.isSparse) && image.blockSize == old(image.blockSize) >= FOOTER_SIZE
    ensures first == None && second == None ==>
              Writable(image) && IsResized(old(image.Content()), image.Content(), f, size2, image.blockSize)
    ensures first == None ==> (second == None <==> ResizesAgain(old(StateOf(image)), f, size1, size2, image.blockSize))
  {
    hide Describes, VbmetaInPlace, Finished, VbmetaEnd, FooterPackable, OffsetsInside, ParseContent, FooterOf,
      Moved, IsResized, ResizesAgain, Opens;
    ghost var s, bs := StateOf(image), image.blockSize;
    InPlaceParses(s.content, f, h, ds, sizes);
    ParsedInside(image, sizes);
    first := ResizeImage(image, size1, sizes);
    second := first;
    if first != None { return; }
    OpensWhen(image);
    ghost var t := StateOf(image);
    ResizedInPlace(s, t, f, size1, bs, h, ds, sizes);
    ParsedInside(image, sizes);
    second := ResizeImage(image, size2, sizes);
    SecondResize(s, t, StateOf(image), Opens(image.file), second, f, size1, size2, bs, h, ds);
  }

  lemma InPlaceParses(content: seq<byte>, f: Footer, h: Header, ds: seq<D.Descriptor>, sizes: D.DigestSizes)
    requires VbmetaInPlace(content, f, h, ds, sizes)
    ensures FooterOf(content) == Some(f) && OffsetsInside(content)
    ensures ParseContent(content, sizes) == Ok(Parsed(Some(f), h, ds, |content|))
  {
    hide FooterOf, IsVbmeta, ParseContent, OffsetsInside;
    ParsesTo(content, f, content[f.vbmetaOffset..f.vbmetaOffset + f.vbmetaSize], h, ds, sizes);
  }

  lemma ResizedInPlace(s: State, t: State, f: Footer, partitionSize: nat, blockSize: nat, h: Header,
                       ds: seq<D.Descriptor>, sizes: D.DigestSizes)
    requires FOOTER_SIZE <= blockSize && VbmetaInPlace(s.content, f, h, ds, sizes)
    requires Finished(s, t, f, partitionSize, blockSize)
    ensures FooterOf(t.content) == Some(f) && OffsetsInside(t.content)
    ensures ParseContent(t.content, sizes) == Ok(Parsed(Some(f), h, ds, |t.content|))
  {
    hide FooterOf, IsVbmeta, ParseContent, OffsetsInside, Resized, FooterPackable;
    ResizedKeeps(s.content, f, partitionSize, blockSize);
    ResizedParsesTheSame(s.content, f, s.content[f.vbmetaOffset..f.vbmetaOffset + f.vbmetaSize], h, ds, partitionSize,
                         blockSize, sizes);
  }

  lemma SecondResize(s: State, t: State, u: State, opens: bool, r: Option<Error>, f: Footer, size1: nat, size2: nat,
                     blockSize: nat, h: Header, ds: seq<D.Descriptor>)
    requires FOOTER_SIZE <= blockSize && t.isSparse == s.isSparse
    requires Finished(s, t, f, size1, blockSize)
    requires Moved(s, t.content, true, None, Ok(Parsed(Some(f), h, ds, |s.content|)), size1, blockSize)
    requires size2 % blockSize != 0 ==> r == Some(AvbError)
    requires size2 % blockSize == 0 ==>
              Moved(t, u.content, opens, r, Ok(Parsed(Some(f), h, ds, |t.content|)), size2, blockSize)
    requires r == None ==> Finished(t, u, f, size2, blockSize)
    ensures r == None ==> IsResized(s.content, u.content, f, size2, blockSize)
    ensures r == None <==> ResizesAgain(s, f, size1, size2, blockSize)
  {
    hide FooterPackable, Resized, VbmetaEnd, ChunksAfter, CountsFit, ChunkFits, MovedTo;
    var end := VbmetaEnd(f, blockSize);
    MovesIff(s, t.content, true, None, f, size1, blockSize);
    if s.isSparse { ChunksLeft(s, t, f, size1, blockSize); }
    if size2 % blockSize == 0 && end + blockSize <= size2 {
      MovesIff(t, u.content, opens, r, f, size2, blockSize);
      SameEnd(f, blockSize);
      ResizingTwice(s.content, f, size1, size2, blockSize);
    }
  }

  lemma SameEnd(f: Footer, blockSize: nat)
    requires blockSize > 0
    ensures VbmetaEnd(f, blockSize) == RoundToMultiple(f.vbmetaOffset + f.vbmetaSize, blockSize)
  {
  }
}
