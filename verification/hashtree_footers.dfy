/** add_hashtree_footer without FEC, and the hashtree descriptor's verify. */
module HashtreeFooters {
  import opened Bits
  import opened Bytes
  import opened FooterCommands
  import opened FooterLayout
  import opened HashFooters
  import opened Hashing
  import opened Images
  import opened Vbmeta
  import opened Wrappers

  import B = VbmetaBlob
  import D = Descriptors
  import H = HashTree
  import T = HashTreeBuild
  import Keys
  import SparseEdit
  import SparseFormat

  /** The arguments that describe the tree; the salt is given, and further descriptors come with the input. */
  datatype TreeArgs = TreeArgs(algorithm: seq<byte>, hash: HashFn, digestSize: nat, blockSize: nat, salt: seq<byte>,
                               partitionName: seq<byte>, persistentRootDigest: bool, doNotUseAb: bool,
                               checkAtMostOnce: bool, noHashtree: bool, input: B.Input)

  function ParamsOf(hash: HashFn, salt: seq<byte>, blockSize: nat, digestSize: nat): H.Params
    requires digestSize > 0
  {
    RoundToPow2IsLeast(digestSize);
    H.Params(hash, salt, blockSize, digestSize, RoundToPow2(digestSize) - digestSize)
  }

  function Params(a: TreeArgs): H.Params
    requires a.digestSize > 0
  {
    ParamsOf(a.hash, a.salt, a.blockSize, a.digestSize)
  }

  ghost predicate ArgsFit(a: TreeArgs, blockSize: nat)
    requires blockSize > 0
  {
    a.digestSize > 0 && H.Usable(Params(a)) && a.blockSize % blockSize == 0 && Encodable(a.input)
  }

  function Tree(data: seq<byte>, a: TreeArgs): seq<byte>
    requires a.digestSize > 0 && H.Usable(Params(a))
  {
    if a.noHashtree then [] else H.Tree(Params(a), data)
  }

  function TreeDescriptor(data: seq<byte>, a: TreeArgs): D.Descriptor
    requires a.digestSize > 0 && H.Usable(Params(a))
  {
    D.Hashtree(1, |data|, |data|, |Tree(data, a)|, a.blockSize, a.blockSize, 0, 0, 0, a.algorithm,
               a.partitionName, a.salt, if a.persistentRootDigest then [] else H.Root(Params(a), data),
               (if a.doNotUseAb then 1 else 0) + (if a.checkAtMostOnce then 2 else 0))
  }

  function TreeInput(data: seq<byte>, a: TreeArgs): B.Input
    requires a.digestSize > 0 && H.Usable(Params(a))
  {
    a.input.(descriptors := [TreeDescriptor(data, a)] + a.input.descriptors,
             minor := RequiredMinor(a.persistentRootDigest || a.doNotUseAb || a.checkAtMostOnce,
                                    a.input.rollbackIndexLocation))
  }

  function TreeBlob(data: seq<byte>, a: TreeArgs, c: Crypto): Result<seq<byte>>
    requires a.digestSize > 0 && H.Usable(Params(a))
    requires a.input.key.Some? ==> a.input.key.value.modulus > 0 && Keys.KeyBlob(a.input.key.value).Some?
  {
    B.Blob(B.Generate(TreeInput(data, a), c.hashes, c.signer))
  }

  /** Padded data and padded tree: everything in front of the vbmeta blob. */
  function Base(data: seq<byte>, a: TreeArgs, blockSize: nat): seq<byte>
    requires a.digestSize > 0 && H.Usable(Params(a)) && blockSize > 0
  {
    data + PadTo(Tree(data, a), blockSize)
  }

  /** The given partition size, or the smallest that holds everything. */
  function FinalSize(base: seq<byte>, blob: seq<byte>, partitionSize: nat, blockSize: nat): nat
    requires blockSize > 0
  {
    if partitionSize > 0 then partitionSize else |base| + |PadTo(blob, blockSize)| + blockSize
  }

  /** The largest image for a partition size, hash tree and metadata taken off. */
  function MaxSize(partitionSize: nat, a: TreeArgs): int
    requires a.digestSize > 0 && H.Usable(Params(a))
  {
    partitionSize - ((if a.noHashtree then 0 else H.TreeSize(partitionSize, a.blockSize, H.EntrySize(Params(a))))
                     + MAX_METADATA_SIZE)
  }

  /** The content with hash tree and footer. */
  ghost predicate HasHashtreeFooter(image: seq<byte>, content: seq<byte>, a: TreeArgs, c: Crypto, partitionSize: nat,
                                    blockSize: nat)
    requires FOOTER_SIZE <= blockSize && ArgsFit(a, blockSize)
  {
    var data := PadTo(content, a.blockSize);
    && DataFits(data, a, c, partitionSize)
    && var base, blob := Base(data, a, blockSize), TreeBlob(data, a, c).value;
    HasFooter(image, content, base, blob, FinalSize(base, blob, partitionSize, blockSize), blockSize)
  }

  /** All that the command wants of the padded data: a tree over at least one block, room, and a blob. */
  predicate DataFits(data: seq<byte>, a: TreeArgs, c: Crypto, partitionSize: nat)
    requires a.digestSize > 0 && H.Usable(Params(a))
    requires a.input.key.Some? ==> a.input.key.value.modulus > 0 && Keys.KeyBlob(a.input.key.value).Some?
  {
    a.blockSize <= |data| && (partitionSize > 0 ==> |data| <= MaxSize(partitionSize, a)) && TreeBlob(data, a, c).Ok?
  }

  // ------------------------------------------------------------------------ the steps

  function Missing(s: State, hashBlock: nat): nat
    requires hashBlock > 0
  {
    |PadTo(s.content, hashBlock)| - |s.content|
  }

  /** The image after rounding up, which takes a chunk unless nothing is missing. */
  function RoundedUp(s: State, hashBlock: nat): State
    requires hashBlock > 0
  {
    State(s.isSparse, PadTo(s.content, hashBlock),
          if s.isSparse && Missing(s, hashBlock) > 0 then s.offsets + [|s.content|] else s.offsets)
  }

  /** Zero bytes up to a multiple of the hash block size. */
  method RoundUp(image: ImageHandler, hashBlock: nat) returns (r: Option<Error>)
    requires Writable(image) && hashBlock > 0 && hashBlock % image.blockSize == 0
    modifies image
    ensures image.isSparse == old(image.isSparse) && image.blockSize == old(image.blockSize) && image.Sound()
    ensures r == None ==> Writable(image) && StateOf(image) == RoundedUp(old(StateOf(image)), hashBlock)
    ensures r != None ==> image.Content() == old(image.Content())
    ensures r == None <==>
              (Missing(old(StateOf(image)), hashBlock) > 0 ==>
                 BytesFit(old(StateOf(image)), Missing(old(StateOf(image)), hashBlock), image.blockSize))
    ensures r != None ==>
              (Opens(image.file) <==>
                 !Stuck(image.isSparse, |old(StateOf(image)).offsets|, |old(image.Content())|,
                        Missing(old(StateOf(image)), hashBlock), image.blockSize))
  {
    hide Describes, CountsFit, Opens, Countable, CountedOnly, LeftBehind;
    image.ContentSize();
    OpensWhen(image);
    ghost var s, file0 := StateOf(image), image.file;
    if image.isSparse { WholeBlocks(image); }
    var rounded := RoundToMultiple(image.imageSize, hashBlock);
    var n := rounded - image.imageSize;
    assert PadTo(s.content, hashBlock) == s.content + Zeros(n);
    if n == 0 { return None; }
    if image.isSparse {
      RoundingIsBlocks(image.imageSize, rounded, hashBlock, image.blockSize);
      GrowIff(image, n, SparseFormat.CHUNK_HEADER_SIZE + n);
      CountableIff(image, n);
    }
    r := image.AppendRaw(Zeros(n), false);
    if r != None { FailedAppendOpensIff(file0, image.file, image.image, BlocksIn(n, image.blockSize)); }
  }

  lemma RoundingIsBlocks(size: nat, rounded: nat, hashBlock: nat, blockSize: nat)
    requires blockSize > 0 && hashBlock % blockSize == 0 && hashBlock > 0
    requires size % blockSize == 0 && rounded % hashBlock == 0 && size <= rounded
    ensures (rounded - size) % blockSize == 0
  {
    var k := (rounded / hashBlock) * (hashBlock / blockSize) - size / blockSize;
    assert rounded == (rounded / hashBlock) * hashBlock && hashBlock == (hashBlock / blockSize) * blockSize;
    assert rounded == ((rounded / hashBlock) * (hashBlock / blockSize)) * blockSize;
    assert size == (size / blockSize) * blockSize;
    assert rounded - size == k * blockSize;
    IntMultiple(k, blockSize);
  }

  /** The image with the padded tree behind it, which takes a chunk unless there is no tree. */
  function Treed(s: State, tree: seq<byte>, blockSize: nat): State
    requires blockSize > 0
  {
    State(s.isSparse, s.content + PadTo(tree, blockSize),
          if s.isSparse && tree != [] then s.offsets + [|s.content|] else s.offsets)
  }

  method AppendTree(image: ImageHandler, tree: seq<byte>) returns (r: Option<Error>)
    requires Writable(image)
    modifies image
    ensures image.isSparse == old(image.isSparse) && image.blockSize == old(image.blockSize) && image.Sound()
    ensures r == None ==> Writable(image) && StateOf(image) == Treed(old(StateOf(image)), tree, image.blockSize)
    ensures r != None ==> image.Content() == old(image.Content())
    ensures r == None <==> (tree != [] ==> BlobFits(old(StateOf(image)), tree, image.blockSize))
    ensures r != None ==>
              (Opens(image.file) <==>
                 !Stuck(image.isSparse, |old(StateOf(image)).offsets|, |old(image.Content())|,
                        |PadTo(tree, image.blockSize)|, image.blockSize))
  {
    hide Describes, BlobFits, PadTo, Opens, Stuck;
    if tree == [] {
      NothingToPad(image.Content(), image.blockSize);
      return None;
    }
    r := AppendPadded(image, tree);
  }

  lemma NothingToPad(content: seq<byte>, blockSize: nat)
    requires blockSize > 0
    ensures content + PadTo([], blockSize) == content
  {
    assert PadTo([], blockSize) == [];
  }

  /** Blob, gap if a partition size is given, and footer fit behind the image. */
  predicate Finishes(s: State, blob: seq<byte>, footer: Footer, partitionSize: nat, blockSize: nat)
    requires blockSize > 0
  {
    if partitionSize > 0 then Takes(s.isSparse, |s.offsets|, |s.content|, blob, footer, partitionSize, blockSize)
    else
      var size := FinalSize(s.content, blob, 0, blockSize);
      && FooterPackable(footer)
      && (s.isSparse ==> Fit(blockSize, blob) && CountsFit(s.isSparse, |s.offsets| + 2, size, blockSize))
  }

  /** Where the outputs of blob, gap and footer block begin. */
  function FinishedAt(size: nat, blob: seq<byte>, partitionSize: nat, blockSize: nat): seq<nat>
    requires blockSize > 0
  {
    if partitionSize >= blockSize then AddedAt(size, blob, partitionSize, blockSize)
    else [size, size + |PadTo(blob, blockSize)|]
  }

  /** Blob, gap if a partition size is given, and footer block have been added. */
  ghost predicate FinishedWith(s: State, t: State, blob: seq<byte>, footer: Footer, partitionSize: nat, blockSize: nat)
    requires FOOTER_SIZE <= blockSize
  {
    var size := FinalSize(s.content, blob, partitionSize, blockSize);
    && blockSize <= size && FooterPackable(footer)
    && t == State(s.isSparse, Closed(s.content + PadTo(blob, blockSize), size, blockSize, footer),
                  if s.isSparse then s.offsets + FinishedAt(|s.content|, blob, partitionSize, blockSize) else [])
  }

  /** Blob, gap if a partition size is given, and footer. */
  method Finish(image: ImageHandler, blob: seq<byte>, partitionSize: nat, originalImageSize: nat)
    returns (r: Option<Error>)
    requires Writable(image) && partitionSize % image.blockSize == 0 && image.imageSize % image.blockSize == 0
    requires blob != []
    modifies image
    ensures image.isSparse == old(image.isSparse) && image.blockSize == old(image.blockSize) && image.Sound()
    ensures r == None ==>
              && Writable(image)
              && FinishedWith(old(StateOf(image)), StateOf(image), blob,
                              NewFooter(originalImageSize, |old(image.Content())|, |blob|), partitionSize,
                              image.blockSize)
    ensures r != None ==>
              if partitionSize > 0
              then HalfDone(old(image.Content()), blob, image.Content(), image.isSparse, partitionSize, image.blockSize)
              else old(image.Content()) <= image.Content()
    ensures r == None <==>
              Finishes(old(StateOf(image)), blob, NewFooter(originalImageSize, |old(image.Content())|, |blob|),
                                    partitionSize, image.blockSize)
    ensures r != None && image.isSparse ==>
              EndsUp(|old(image.Content())|, image.Content(), Opens(image.file),
                     Stuck(image.isSparse, |old(StateOf(image)).offsets|, |old(image.Content())|,
                           |PadTo(blob, image.blockSize)|, image.blockSize))
  {
    hide Describes, FooterPackable, Closed, Takes, HalfDone, PadTo, AddedAt, Opens, EndsUp, Stuck, CloseSticks;
    if partitionSize > 0 {
      r := AttachBehind(image, blob, partitionSize, originalImageSize);
    } else {
      r := FinishTight(image, blob, originalImageSize);
    }
  }

  /** Blob and footer without a gap. */
  method FinishTight(image: ImageHandler, blob: seq<byte>, originalImageSize: nat) returns (r: Option<Error>)
    requires Writable(image) && image.imageSize % image.blockSize == 0 && blob != []
    modifies image
    ensures image.isSparse == old(image.isSparse) && image.blockSize == old(image.blockSize) && image.Sound()
    ensures r == None ==>
              && Writable(image)
              && FinishedWith(old(StateOf(image)), StateOf(image), blob,
                              NewFooter(originalImageSize, |old(image.Content())|, |blob|), 0, image.blockSize)
    ensures r != None ==> old(image.Content()) <= image.Content()
    ensures r == None <==>
              Finishes(old(StateOf(image)), blob, NewFooter(originalImageSize, |old(image.Content())|, |blob|), 0,
                                    image.blockSize)
    ensures r != None && image.isSparse ==>
              EndsUp(|old(image.Content())|, image.Content(), Opens(image.file),
                     Stuck(image.isSparse, |old(StateOf(image)).offsets|, |old(image.Content())|,
                           |PadTo(blob, image.blockSize)|, image.blockSize))
  {
    hide Describes, FooterPackable, FooterBlock, PadTo, NewFooter, Finishes, BlobFits, FooterFits, Closed, Extended,
      FinishedWith, Opens, Stuck;
    image.ContentSize();
    ghost var s, bs := StateOf(image), image.blockSize;
    var footer := NewFooter(originalImageSize, image.imageSize, |blob|);
    r := AppendPadded(image, blob);
    TightBlob(s, blob, footer, bs);
    if r != None { return; }
    NotStuck(s, blob, bs);
    ghost var t := StateOf(image);
    r := AppendFooter(image, footer);
    TightFooter(s, t, StateOf(image), blob, footer, bs);
  }

  /** What has been appended was not stuck, and has made the image longer. */
  lemma NotStuck(s: State, blob: seq<byte>, blockSize: nat)
    requires blockSize > 0 && BlobFits(s, blob, blockSize)
    ensures !Stuck(s.isSparse, |s.offsets|, |s.content|, |PadTo(blob, blockSize)|, blockSize)
    ensures blob != [] ==> |PadTo(blob, blockSize)| > 0
  {
    hide PadTo, CountsFit;
    PaddedWhole(blob, blockSize);
  }

  lemma TightBlob(s: State, blob: seq<byte>, footer: Footer, blockSize: nat)
    requires blockSize > 0
    ensures !BlobFits(s, blob, blockSize) ==> !Finishes(s, blob, footer, 0, blockSize)
  {
    hide FooterPackable, PadTo;
    var end := |s.content| + |PadTo(blob, blockSize)|;
    QuotientOrder(end, end + blockSize, blockSize);
  }

  lemma TightFooter(s: State, t: State, u: State, blob: seq<byte>, footer: Footer, blockSize: nat)
    requires FOOTER_SIZE <= blockSize && BlobFits(s, blob, blockSize) && Extended(s, t, PadTo(blob, blockSize))
    ensures FooterFits(t, footer, blockSize) <==> Finishes(s, blob, footer, 0, blockSize)
    ensures s.content <= t.content && |t.content| == |s.content| + |PadTo(blob, blockSize)|
    ensures FooterPackable(footer) && Extended(t, u, FooterBlock(blockSize, footer)) ==>
              FinishedWith(s, u, blob, footer, 0, blockSize)
  {
    hide FooterPackable, FooterBlock, PadTo;
    WholeBody(t.content);
    var a, b := |s.content|, |t.content|;
    assert s.offsets + [a] + [b] == s.offsets + [a, b];
  }

  /** Tree and root of the image's whole content. */
  method MakeTree(image: ImageHandler, a: TreeArgs) returns (r: Result<(Digest, seq<byte>)>)
    requires image.Loaded() && a.digestSize > 0 && H.Usable(Params(a))
    modifies image`filePos
    ensures r == if |image.Content()| < a.blockSize then Raised(UnboundLocalError)
                 else Ok((H.Root(Params(a), image.Content()), H.Tree(Params(a), image.Content())))
  {
    hide Describes, H.Root, H.Tree, H.LevelSizes;
    image.ContentSize();
    var p := Params(a);
    var offsets, treeSize := T.CalcHashLevelOffsets(image.imageSize, a.blockSize, H.EntrySize(p));
    r := T.GenerateHashTree(image, p, image.imageSize, offsets, treeSize);
    assert image.Content()[..|image.Content()|] == image.Content();
  }

  /** The tree to store, and the descriptor of it. */
  method DescribeTree(image: ImageHandler, a: TreeArgs) returns (r: Result<(D.Descriptor, seq<byte>)>)
    requires image.Loaded() && a.digestSize > 0 && H.Usable(Params(a))
    modifies image`filePos
    ensures r == if |image.Content()| < a.blockSize then Raised(UnboundLocalError)
                 else Ok((TreeDescriptor(image.Content(), a), Tree(image.Content(), a)))
  {
    hide Describes, H.Root, H.Tree, H.Usable, Params;
    var made := MakeTree(image, a);
    if made.Raised? { return Raised(made.error); }
    image.ContentSize();
    var tree := if a.noHashtree then [] else made.value.1;
    var rootDigest := if a.persistentRootDigest then [] else made.value.0;
    var d := D.Hashtree(1, image.imageSize, image.imageSize, |tree|, a.blockSize, a.blockSize, 0, 0, 0, a.algorithm,
                        a.partitionName, a.salt, rootDigest,
                        (if a.doNotUseAb then 1 else 0) + (if a.checkAtMostOnce then 2 else 0));
    return Ok((d, tree));
  }

  /** Everything that decides whether tree, blob and footer can be added to an image of whole hash blocks. */
  predicate TreeFinishes(s: State, a: TreeArgs, c: Crypto, originalImageSize: nat, partitionSize: nat, blockSize: nat)
    requires blockSize > 0 && a.digestSize > 0 && H.Usable(Params(a))
    requires a.input.key.Some? ==> a.input.key.value.modulus > 0 && Keys.KeyBlob(a.input.key.value).Some?
  {
    var tree, blob := Tree(s.content, a), TreeBlob(s.content, a, c);
    && a.blockSize <= |s.content| && blob.Ok?
    && (tree != [] ==> BlobFits(s, tree, blockSize))
    && Finishes(Treed(s, tree, blockSize), blob.value,
                NewFooter(originalImageSize, |Base(s.content, a, blockSize)|, |blob.value|), partitionSize, blockSize)
  }

  /** Tree, blob and footer have been added to an image of whole hash blocks. */
  ghost predicate TreeAttached(s: State, t: State, a: TreeArgs, c: Crypto, originalImageSize: nat, partitionSize: nat,
                               blockSize: nat)
    requires FOOTER_SIZE <= blockSize && a.digestSize > 0 && H.Usable(Params(a)) && Encodable(a.input)
  {
    && a.blockSize <= |s.content| && TreeBlob(s.content, a, c).Ok?
    && var blob := TreeBlob(s.content, a, c).value;
    FinishedWith(Treed(s, Tree(s.content, a), blockSize), t, blob,
                 NewFooter(originalImageSize, |Base(s.content, a, blockSize)|, |blob|), partitionSize, blockSize)
  }

  /** Tree, descriptor, blob and footer for an image of whole hash blocks. */
  method AttachTree(image: ImageHandler, partitionSize: nat, a: TreeArgs, c: Crypto, originalImageSize: nat)
    returns (r: Option<Error>)
    requires Writable(image) && ArgsFit(a, image.blockSize) && partitionSize % image.blockSize == 0
    requires |image.Content()| % a.blockSize == 0
    requires partitionSize > 0 ==> |image.Content()| + MAX_METADATA_SIZE <= partitionSize
    modifies image
    ensures image.isSparse == old(image.isSparse) && image.blockSize == old(image.blockSize) && image.Sound()
    ensures r == None ==>
              && Writable(image)
              && TreeAttached(old(StateOf(image)), StateOf(image), a, c, originalImageSize, partitionSize,
                              image.blockSize)
    ensures r != None ==> old(image.Content()) <= image.Content()
    ensures r == None <==> TreeFinishes(old(StateOf(image)), a, c, originalImageSize, partitionSize, image.blockSize)
    ensures a.digestSize > 0 && H.Usable(Params(a)) && Encodable(a.input)
    ensures r != None && image.isSparse ==>
              EndsUp(|old(image.Content())|, image.Content(), Opens(image.file),
                     TreeSticks(image.isSparse, |old(StateOf(image)).offsets|, old(image.Content()), a, c,
                                image.blockSize))
  {
    hide Describes, FooterPackable, Closed, PadTo, TreeBlob, RoundToPow2, TreeDescriptor, Tree, H.Usable, NewFooter,
      Finishes, HalfDone, BlobFits, Treed, ArgsFit, FinishedWith, Opens, Stuck, EndsUp, TreeSticks;
    ghost var s, bs := StateOf(image), image.blockSize;
    OpensWhen(image);
    Positive(a, bs);
    NothingEndsUp(s, a, c, bs);
    var made := DescribeTree(image, a);
    if made.Raised? { return Some(made.error); }
    var (d, tree) := made.value;
    r := AppendTree(image, tree);
    if r != None {
      TreeEndsUp(s, Opens(image.file), a, c, bs);
      return;
    }
    TreedContent(s, tree, bs);
    OpensWhen(image);
    var blob := MakeTreeBlob(s.content, a, c, d);
    if blob.Raised? {
      NoBlobEndsUp(s, tree, a, c, bs);
      return Some(blob.error);
    }
    TreeBlobNotEmpty(s.content, a, c);
    image.ContentSize();
    HashBlockFits(a, bs);
    BaseIsBlocks(s.content, tree, a.blockSize, bs);
    WritableSize(image);
    r := Finish(image, blob.value, partitionSize, originalImageSize);
    if r != None {
      KeptInHalf(s, tree, blob.value, image.Content(), partitionSize, bs);
      if s.isSparse { BlobEndsUpBehindTree(s, tree, image.Content(), Opens(image.file), blob.value, a, c, bs); }
    }
  }

  /** The first chunk behind the data, the tree's or without a tree the blob's, is counted and cannot be written. */
  predicate TreeSticks(isSparse: bool, chunks: nat, data: seq<byte>, a: TreeArgs, c: Crypto, blockSize: nat)
    requires blockSize > 0 && a.digestSize > 0 && H.Usable(Params(a))
    requires a.input.key.Some? ==> a.input.key.value.modulus > 0 && Keys.KeyBlob(a.input.key.value).Some?
  {
    && a.blockSize <= |data|
    && if Tree(data, a) != [] then Stuck(isSparse, chunks, |data|, |PadTo(Tree(data, a), blockSize)|, blockSize)
       else
         && TreeBlob(data, a, c).Ok?
         && Stuck(isSparse, chunks, |data|, |PadTo(TreeBlob(data, a, c).value, blockSize)|, blockSize)
  }

  lemma NothingEndsUp(s: State, a: TreeArgs, c: Crypto, blockSize: nat)
    requires blockSize > 0 && a.digestSize > 0 && H.Usable(Params(a)) && Encodable(a.input)
    ensures |s.content| < a.blockSize ==>
              EndsUp(|s.content|, s.content, true, TreeSticks(s.isSparse, |s.offsets|, s.content, a, c, blockSize))
  {
    hide H.Usable;
  }

  lemma TreeEndsUp(s: State, opens: bool, a: TreeArgs, c: Crypto, blockSize: nat)
    requires blockSize > 0 && a.digestSize > 0 && H.Usable(Params(a)) && Encodable(a.input)
    requires a.blockSize <= |s.content| && Tree(s.content, a) != []
    requires opens <==>
               !Stuck(s.isSparse, |s.offsets|, |s.content|, |PadTo(Tree(s.content, a), blockSize)|, blockSize)
    ensures EndsUp(|s.content|, s.content, opens, TreeSticks(s.isSparse, |s.offsets|, s.content, a, c, blockSize))
  {
    hide H.Usable, Tree, TreeBlob, PadTo, Stuck;
  }

  lemma NoBlobEndsUp(s: State, tree: seq<byte>, a: TreeArgs, c: Crypto, blockSize: nat)
    requires blockSize > 0 && a.digestSize > 0 && H.Usable(Params(a)) && Encodable(a.input)
    requires tree == Tree(s.content, a) && (tree != [] ==> BlobFits(s, tree, blockSize))
    requires TreeBlob(s.content, a, c).Raised?
    ensures EndsUp(|s.content|, s.content + PadTo(tree, blockSize), true,
                   TreeSticks(s.isSparse, |s.offsets|, s.content, a, c, blockSize))
  {
    hide H.Usable, Tree, TreeBlob, PadTo, Stuck, BlobFits;
    if tree != [] { NotStuck(s, tree, blockSize); } else { PaddedSize(tree, blockSize); }
  }

  lemma BlobEndsUpBehindTree(s: State, tree: seq<byte>, after: seq<byte>, opens: bool, blob: seq<byte>, a: TreeArgs,
                             c: Crypto, blockSize: nat)
    requires blockSize > 0 && a.digestSize > 0 && H.Usable(Params(a)) && Encodable(a.input)
    requires tree == Tree(s.content, a) && (tree != [] ==> BlobFits(s, tree, blockSize))
    requires a.blockSize <= |s.content| && TreeBlob(s.content, a, c) == Ok(blob)
    requires var t := Treed(s, tree, blockSize);
             EndsUp(|t.content|, after, opens,
                    Stuck(t.isSparse, |t.offsets|, |t.content|, |PadTo(blob, blockSize)|, blockSize))
    ensures EndsUp(|s.content|, after, opens, TreeSticks(s.isSparse, |s.offsets|, s.content, a, c, blockSize))
  {
    hide H.Usable, Tree, TreeBlob, PadTo, Stuck, BlobFits;
    if tree != [] { NotStuck(s, tree, blockSize); } else { PaddedSize(tree, blockSize); }
  }

  method MakeTreeBlob(ghost data: seq<byte>, a: TreeArgs, c: Crypto, d: D.Descriptor) returns (r: Result<seq<byte>>)
    requires a.digestSize > 0 && H.Usable(Params(a)) && Encodable(a.input) && d == TreeDescriptor(data, a)
    ensures r == TreeBlob(data, a, c)
  {
    hide B.Generate, B.Blob, H.Usable, TreeDescriptor;
    var input := a.input.(descriptors := [d] + a.input.descriptors,
                          minor := RequiredMinor(a.persistentRootDigest || a.doNotUseAb || a.checkAtMostOnce,
                                                 a.input.rollbackIndexLocation));
    r := B.GenerateVbmetaBlob(input, c.hashes, c.signer);
  }

  lemma TreedContent(s: State, tree: seq<byte>, blockSize: nat)
    requires blockSize > 0
    ensures Treed(s, tree, blockSize).content == s.content + PadTo(tree, blockSize)
  {
  }

  /** A failure to finish leaves the data, because the size check left room for metadata. */
  lemma KeptInHalf(s: State, tree: seq<byte>, blob: seq<byte>, after: seq<byte>, partitionSize: nat, blockSize: nat)
    requires blockSize > 0 && (s.isSparse || blockSize <= MAX_METADATA_SIZE)
    requires partitionSize > 0 ==> |s.content| + MAX_METADATA_SIZE <= partitionSize
    requires var base := s.content + PadTo(tree, blockSize);
             if partitionSize > 0 then HalfDone(base, blob, after, s.isSparse, partitionSize, blockSize)
             else base <= after
    ensures s.content <= after
  {
    hide PadTo;
  }

  lemma BaseIsBlocks(data: seq<byte>, tree: seq<byte>, hashBlock: nat, blockSize: nat)
    requires blockSize > 0 && hashBlock > 0 && hashBlock % blockSize == 0 && |data| % hashBlock == 0
    ensures |data + PadTo(tree, blockSize)| % blockSize == 0
  {
    RoundingIsBlocks(0, |data|, hashBlock, blockSize);
    PaddedIsBlocks(data, tree, blockSize);
  }

  /** What passes the size check leaves more than a block for the footer. */
  lemma MetadataRoom(partitionSize: nat, a: TreeArgs, dataSize: nat)
    requires a.digestSize > 0 && H.Usable(Params(a))
    requires partitionSize > 0 ==> dataSize <= MaxSize(partitionSize, a)
    ensures partitionSize > 0 ==> dataSize + MAX_METADATA_SIZE <= partitionSize
  {
  }

  /** The size that has to be a multiple of the block size: the partition's, or else the file's. */
  function SizeToCheck(partitionSize: nat, imageSize: nat): nat {
    if partitionSize > 0 then partitionSize else imageSize
  }

  /** The partition size less hash tree and metadata. */
  method MaxImageSizeFor(partitionSize: nat, a: TreeArgs) returns (size: int)
    requires a.digestSize > 0 && H.Usable(Params(a))
    ensures size == if partitionSize == 0 then 0 else MaxSize(partitionSize, a)
  {
    if partitionSize == 0 { return 0; }
    var maxTreeSize := 0;
    if !a.noHashtree {
      var _, treeSize := T.CalcHashLevelOffsets(partitionSize, a.blockSize, H.EntrySize(Params(a)));
      maxTreeSize := treeSize;
    }
    return partitionSize - (maxTreeSize + MAX_METADATA_SIZE);
  }

  // ------------------------------------------------------------------------ the command

  /** Room for the new chunks of a sparse image: padding, tree, blob, gap and footer. */
  predicate ChunksFit(chunks: nat, content: nat, data: nat, tree: seq<byte>, base: nat, blob: seq<byte>,
                      partitionSize: nat, size: nat, blockSize: nat)
    requires blockSize > 0 && content <= data <= base
  {
    var added := (if data > content then 1 else 0) + (if tree != [] then 1 else 0) + if partitionSize > 0 then 3 else 2;
    && base + |PadTo(blob, blockSize)| + blockSize <= size
    && ChunkFits(data - content) && ChunkFits(base - data) && Fit(blockSize, blob)
    && CountsFit(true, chunks + added, size, blockSize)
  }

  /**
   * The conditions of add_hashtree_footer on trimmed content: data, partition and blob fit, the footer's
   * fields hold their values, and a sparse image has room for the new chunks.
   */
  predicate CanAddTree(isSparse: bool, chunks: nat, content: seq<byte>, a: TreeArgs, c: Crypto, partitionSize: nat,
                       blockSize: nat)
    requires blockSize > 0 && a.digestSize > 0 && H.Usable(Params(a))
    requires a.input.key.Some? ==> a.input.key.value.modulus > 0 && Keys.KeyBlob(a.input.key.value).Some?
  {
    var data := PadTo(content, a.blockSize);
    && DataFits(data, a, c, partitionSize)
    && var base, blob := Base(data, a, blockSize), TreeBlob(data, a, c).value;
    && FooterPackable(FooterFor(content, base, blob))
    && (isSparse ==> ChunksFit(chunks, |content|, |data|, Tree(data, a), |base|, blob, partitionSize,
                               FinalSize(base, blob, partitionSize, blockSize), blockSize))
  }

  /** The counts and sizes fit step by step exactly when they fit in the end. */
  lemma StepsFit(chunks: nat, content: nat, data: nat, base: nat, end: nat, padded: nat, treed: nat, last: nat,
                 blockSize: nat)
    requires blockSize > 0 && content <= data <= base <= end && last > 0
    requires padded == (if data > content then 1 else 0) && (if base > data then treed == 1 else treed <= 1)
    ensures
      && (padded > 0 ==> ChunkFits(data - content) && CountsFit(true, chunks + 1, data, blockSize))
      && (treed > 0 ==> ChunkFits(base - data) && CountsFit(true, chunks + padded + 1, base, blockSize))
      && CountsFit(true, chunks + padded + treed + last, end, blockSize)
      <==>
      && ChunkFits(data - content) && ChunkFits(base - data)
      && CountsFit(true, chunks + padded + treed + last, end, blockSize)
  {
    QuotientOrder(data, end, blockSize);
    QuotientOrder(base, end, blockSize);
  }

  /** The conditions of the last step, with nothing said about counts before it. */
  lemma FinishesIff(s: State, blob: seq<byte>, footer: Footer, partitionSize: nat, blockSize: nat)
    requires blockSize > 0
    ensures var size := FinalSize(s.content, blob, partitionSize, blockSize);
            Finishes(s, blob, footer, partitionSize, blockSize) <==>
              && FooterPackable(footer)
              && if s.isSparse
                 then
                   && |s.content| + |PadTo(blob, blockSize)| + blockSize <= size && Fit(blockSize, blob)
                   && CountsFit(true, |s.offsets| + (if partitionSize > 0 then 3 else 2), size, blockSize)
                 else partitionSize > 0 ==> blockSize + SparseFormat.HEADER_SIZE <= partitionSize
  {
    hide FooterPackable, PadTo, Fit, CountsFit;
  }

  lemma ChunksFitIff(s: State, t: State, u: State, hashBlock: nat, tree: seq<byte>, blob: seq<byte>, footer: Footer,
                     partitionSize: nat, blockSize: nat)
    requires blockSize > 0 && hashBlock > 0 && s.isSparse && t == RoundedUp(s, hashBlock)
    requires u == Treed(t, tree, blockSize)
    ensures
      && (Missing(s, hashBlock) > 0 ==> BytesFit(s, Missing(s, hashBlock), blockSize))
      && (tree != [] ==> BlobFits(t, tree, blockSize))
      && Finishes(u, blob, footer, partitionSize, blockSize)
      <==>
      && FooterPackable(footer)
      && ChunksFit(|s.offsets|, |s.content|, |t.content|, tree, |u.content|, blob, partitionSize,
                   FinalSize(u.content, blob, partitionSize, blockSize), blockSize)
  {
    hide FooterPackable, PadTo, Fit, CountsFit, ChunkFits, Finishes, FinalSize, BytesFit, BlobFits, RoundedUp, Treed,
      Missing;
    var size := FinalSize(u.content, blob, partitionSize, blockSize);
    StepSizes(s, t, u, hashBlock, tree, blockSize);
    ChunkBytesFit(s, |t.content| - |s.content|, blockSize);
    TreeBytesFit(t, tree, blockSize);
    FinishesIff(u, blob, footer, partitionSize, blockSize);
    if |u.content| + |PadTo(blob, blockSize)| + blockSize <= size {
      StepsFit(|s.offsets|, |s.content|, |t.content|, |u.content|, size, if |t.content| > |s.content| then 1 else 0,
               if tree != [] then 1 else 0, if partitionSize > 0 then 3 else 2, blockSize);
    }
  }

  lemma StepSizes(s: State, t: State, u: State, hashBlock: nat, tree: seq<byte>, blockSize: nat)
    requires blockSize > 0 && hashBlock > 0 && s.isSparse && t == RoundedUp(s, hashBlock)
    requires u == Treed(t, tree, blockSize)
    ensures t.isSparse && u.isSparse && Missing(s, hashBlock) == |t.content| - |s.content|
    ensures |s.content| <= |t.content| <= |u.content| && (|u.content| > |t.content| ==> tree != [])
    ensures |t.offsets| == |s.offsets| + if |t.content| > |s.content| then 1 else 0
    ensures |u.offsets| == |t.offsets| + if tree != [] then 1 else 0
  {
    hide PadTo;
    PaddedSize(tree, blockSize);
  }

  lemma PaddedSize(s: seq<byte>, size: nat)
    requires size > 0
    ensures s == [] ==> PadTo(s, size) == []
  {
  }

  lemma ChunkBytesFit(s: State, n: nat, blockSize: nat)
    requires blockSize > 0 && s.isSparse
    ensures BytesFit(s, n, blockSize) <==> ChunkFits(n) && CountsFit(true, |s.offsets| + 1, |s.content| + n, blockSize)
  {
  }

  lemma TreeBytesFit(t: State, tree: seq<byte>, blockSize: nat)
    requires blockSize > 0 && t.isSparse
    ensures var end := |Treed(t, tree, blockSize).content|;
            (BlobFits(t, tree, blockSize) <==>
               ChunkFits(end - |t.content|) && CountsFit(true, |t.offsets| + 1, end, blockSize))
  {
    hide PadTo, ChunkFits, CountsFit;
  }

  /** Step by step or all at once: the same images can take a tree. */
  lemma CanAddTreeIff(s: State, a: TreeArgs, c: Crypto, partitionSize: nat, blockSize: nat)
    requires blockSize > 0 && ArgsFit(a, blockSize) && (!s.isSparse ==> blockSize == PLAIN_BLOCK_SIZE)
    ensures CanAddTree(s.isSparse, |s.offsets|, s.content, a, c, partitionSize, blockSize) <==>
              && (Missing(s, a.blockSize) > 0 ==> BytesFit(s, Missing(s, a.blockSize), blockSize))
              && (partitionSize > 0 ==> |PadTo(s.content, a.blockSize)| <= MaxSize(partitionSize, a))
              && TreeFinishes(RoundedUp(s, a.blockSize), a, c, |s.content|, partitionSize, blockSize)
  {
    hide FooterPackable, PadTo, Finishes, TreeBlob, Tree, H.Usable, MaxSize, ArgsFit, FinalSize, ChunksFit,
      BytesFit, BlobFits;
    Positive(a, blockSize);
    var data := PadTo(s.content, a.blockSize);
    var tree, base := Tree(data, a), Base(data, a, blockSize);
    var t := RoundedUp(s, a.blockSize);
    var u := Treed(t, tree, blockSize);
    if partitionSize > 0 && |data| <= MaxSize(partitionSize, a) { MetadataRoom(partitionSize, a, |data|); }
    if TreeBlob(data, a, c).Ok? {
      var blob := TreeBlob(data, a, c).value;
      var footer := FooterFor(s.content, base, blob);
      if s.isSparse {
        ChunksFitIff(s, t, u, a.blockSize, tree, blob, footer, partitionSize, blockSize);
      } else {
        PlainFits(s, t, u, a.blockSize, tree, blob, footer, partitionSize, blockSize);
      }
    }
  }

  lemma PlainFits(s: State, t: State, u: State, hashBlock: nat, tree: seq<byte>, blob: seq<byte>, footer: Footer,
                  partitionSize: nat, blockSize: nat)
    requires blockSize > 0 && hashBlock > 0 && !s.isSparse && t == RoundedUp(s, hashBlock)
    requires u == Treed(t, tree, blockSize)
    ensures BytesFit(s, Missing(s, hashBlock), blockSize) && BlobFits(t, tree, blockSize)
    ensures (partitionSize > 0 ==> blockSize + SparseFormat.HEADER_SIZE <= partitionSize) ==>
              (Finishes(u, blob, footer, partitionSize, blockSize) <==> FooterPackable(footer))
  {
    hide FooterPackable, PadTo, Finishes;
    FinishesIff(u, blob, footer, partitionSize, blockSize);
  }

  /**
   * The outcomes of add_hashtree_footer: an error that leaves the content, with or without an old footer, or the
   * finished image.
   */
  ghost predicate TreeAdded(s: State, after: seq<byte>, r: Option<Error>, partitionSize: nat, a: TreeArgs, c: Crypto,
                            blockSize: nat)
    requires FOOTER_SIZE <= blockSize && ArgsFit(a, blockSize)
  {
    if SizeToCheck(partitionSize, |s.content|) % blockSize != 0 then r == Some(AvbError) && after == s.content
    else if !CleanCut(s, blockSize) then r == Some(ValueError) && after == s.content
    else
      var content := Trim(s.content);
      && (r == None <==> CanAddTree(s.isSparse, TrimmedChunks(s), content, a, c, partitionSize, blockSize))
      && if r == None then HasHashtreeFooter(after, content, a, c, partitionSize, blockSize)
         else r == Some(AvbError) && after == content
  }

  /** The part of the command that is undone when it fails. */
  method BuildAndAttach(image: ImageHandler, partitionSize: nat, maxImageSize: int, a: TreeArgs, c: Crypto,
                        originalImageSize: nat)
    returns (r: Option<Error>)
    requires Writable(image) && ArgsFit(a, image.blockSize) && partitionSize % image.blockSize == 0
    requires originalImageSize == |image.Content()|
    requires partitionSize > 0 ==> maxImageSize == MaxSize(partitionSize, a)
    modifies image
    ensures image.isSparse == old(image.isSparse) && image.blockSize == old(image.blockSize) && image.Sound()
    ensures FOOTER_SIZE <= image.blockSize
    ensures r == None ==>
              && Writable(image) && TrimmedChunks(StateOf(image)) == |old(StateOf(image)).offsets|
              && HasHashtreeFooter(image.Content(), old(image.Content()), a, c, partitionSize, image.blockSize)
              && a.blockSize > 0
              && (image.isSparse ==>
                    DataChunks(StateOf(image), |old(StateOf(image)).offsets|, old(image.Content()), a.blockSize))
    ensures r != None ==> old(image.Content()) <= image.Content()
    ensures r == None <==>
              CanAddTree(image.isSparse, |old(StateOf(image)).offsets|, old(image.Content()), a, c, partitionSize,
                         image.blockSize)
    ensures a.digestSize > 0 && H.Usable(Params(a)) && Encodable(a.input) && a.blockSize > 0
    ensures r != None && image.isSparse ==>
              EndsUp(|old(image.Content())|, image.Content(), Opens(image.file),
                     AddTreeSticks(image.isSparse, |old(StateOf(image)).offsets|, old(image.Content()), a, c,
                                   partitionSize, image.blockSize))
  {
    hide Describes, FooterPackable, Closed, PadTo, TreeBlob, Base, H.TreeSize, TreeFinishes, CanAddTree, MaxSize,
      BytesFit, ArgsFit, HasHashtreeFooter, TreeAttached, TrimmedChunks, Opens, Stuck, EndsUp, TreeSticks,
      AddTreeSticks, DataChunks;
    WritableSize(image);
    ghost var s, bs := StateOf(image), image.blockSize;
    Positive(a, bs);
    CanAddTreeIff(s, a, c, partitionSize, bs);
    HashBlockFits(a, bs);
    r := RoundUp(image, a.blockSize);
    if r != None {
      PaddingEndsUp(s, Opens(image.file), a, c, partitionSize, bs);
      return;
    }
    image.ContentSize();
    OpensWhen(image);
    if partitionSize > 0 && image.imageSize > maxImageSize {
      TooLargeEndsUp(s, a, c, partitionSize, bs);
      return Some(AvbError);
    }
    MetadataRoom(partitionSize, a, image.imageSize);
    r := AttachTree(image, partitionSize, a, c, originalImageSize);
    if r == None {
      TreeIsAdded(s, StateOf(image), a, c, partitionSize, bs);
    } else if s.isSparse {
      AllEndsUp(s, image.Content(), Opens(image.file), a, c, partitionSize, bs);
    }
  }

  /** The first chunk behind the content is counted and cannot be written: padding, tree or blob. */
  predicate AddTreeSticks(isSparse: bool, chunks: nat, content: seq<byte>, a: TreeArgs, c: Crypto, partitionSize: nat,
                          blockSize: nat)
    requires blockSize > 0 && a.digestSize > 0 && H.Usable(Params(a)) && a.blockSize > 0
    requires a.input.key.Some? ==> a.input.key.value.modulus > 0 && Keys.KeyBlob(a.input.key.value).Some?
  {
    var missing := |PadTo(content, a.blockSize)| - |content|;
    if missing > 0 then Stuck(isSparse, chunks, |content|, missing, blockSize)
    else
      && (partitionSize > 0 ==> |content| <= MaxSize(partitionSize, a))
      && TreeSticks(isSparse, chunks, content, a, c, blockSize)
  }

  lemma PaddingEndsUp(s: State, opens: bool, a: TreeArgs, c: Crypto, partitionSize: nat, blockSize: nat)
    requires blockSize > 0 && a.digestSize > 0 && H.Usable(Params(a)) && Encodable(a.input) && a.blockSize > 0
    requires Missing(s, a.blockSize) > 0
    requires opens <==> !Stuck(s.isSparse, |s.offsets|, |s.content|, Missing(s, a.blockSize), blockSize)
    ensures EndsUp(|s.content|, s.content, opens,
                   AddTreeSticks(s.isSparse, |s.offsets|, s.content, a, c, partitionSize, blockSize))
  {
    hide H.Usable, PadTo, Stuck, TreeSticks, MaxSize;
  }

  lemma TooLargeEndsUp(s: State, a: TreeArgs, c: Crypto, partitionSize: nat, blockSize: nat)
    requires blockSize > 0 && a.digestSize > 0 && H.Usable(Params(a)) && Encodable(a.input) && a.blockSize > 0
    requires Missing(s, a.blockSize) > 0 ==> BytesFit(s, Missing(s, a.blockSize), blockSize)
    requires partitionSize > 0 && |PadTo(s.content, a.blockSize)| > MaxSize(partitionSize, a)
    ensures EndsUp(|s.content|, PadTo(s.content, a.blockSize), true,
                   AddTreeSticks(s.isSparse, |s.offsets|, s.content, a, c, partitionSize, blockSize))
  {
    hide H.Usable, PadTo, TreeSticks, MaxSize, CountsFit;
  }

  lemma AllEndsUp(s: State, after: seq<byte>, opens: bool, a: TreeArgs, c: Crypto, partitionSize: nat, blockSize: nat)
    requires blockSize > 0 && a.digestSize > 0 && H.Usable(Params(a)) && Encodable(a.input) && a.blockSize > 0
    requires Missing(s, a.blockSize) > 0 ==> BytesFit(s, Missing(s, a.blockSize), blockSize)
    requires partitionSize > 0 ==> |PadTo(s.content, a.blockSize)| <= MaxSize(partitionSize, a)
    requires var t := RoundedUp(s, a.blockSize);
             EndsUp(|t.content|, after, opens, TreeSticks(t.isSparse, |t.offsets|, t.content, a, c, blockSize))
    ensures EndsUp(|s.content|, after, opens,
                   AddTreeSticks(s.isSparse, |s.offsets|, s.content, a, c, partitionSize, blockSize))
  {
    hide H.Usable, PadTo, TreeSticks, MaxSize, CountsFit;
    if Missing(s, a.blockSize) == 0 { PaddedPrefix(s.content, a.blockSize); }
  }

  lemma PaddedPrefix(s: seq<byte>, size: nat)
    requires size > 0
    ensures |PadTo(s, size)| == |s| ==> PadTo(s, size) == s
  {
  }

  lemma HashBlockFits(a: TreeArgs, blockSize: nat)
    requires blockSize > 0 && ArgsFit(a, blockSize)
    ensures a.blockSize % blockSize == 0
  {
  }

  lemma TreeBlobNotEmpty(data: seq<byte>, a: TreeArgs, c: Crypto)
    requires a.digestSize > 0 && H.Usable(Params(a)) && Encodable(a.input)
    ensures TreeBlob(data, a, c) != Ok([])
  {
    hide B.Generate, B.Blob, H.Usable, TreeDescriptor;
    BlobNotEmpty(B.Generate(TreeInput(data, a), c.hashes, c.signer));
  }

  lemma TreeIsAdded(s: State, t: State, a: TreeArgs, c: Crypto, partitionSize: nat, blockSize: nat)
    requires FOOTER_SIZE <= blockSize && ArgsFit(a, blockSize)
    requires if s.isSparse then |s.content| % blockSize == 0 else s.offsets == []
    requires CanAddTree(s.isSparse, |s.offsets|, s.content, a, c, partitionSize, blockSize)
    requires TreeAttached(RoundedUp(s, a.blockSize), t, a, c, |s.content|, partitionSize, blockSize)
    ensures HasHashtreeFooter(t.content, s.content, a, c, partitionSize, blockSize)
    ensures TrimmedChunks(t) == |s.offsets|
    ensures s.isSparse ==> DataChunks(t, |s.offsets|, s.content, a.blockSize)
  {
    hide FooterPackable, PadTo, ChunksFit, TreeBlob, Tree, H.Usable, MaxSize, FinalSize, Closed,
      TrimmedChunks, FinishedAt, DataChunks;
    if s.isSparse { TreeTrimsBack(s, t, a, c, partitionSize, blockSize); } else { NoChunks(t); }
  }

  /** A truncation to the data leaves the chunks that were there before, and one for the padding. */
  predicate DataChunks(t: State, chunks: nat, content: seq<byte>, hashBlock: nat)
    requires hashBlock > 0
  {
    var data := PadTo(content, hashBlock);
    ChunksAfter(t, |data|) == chunks + if |data| > |content| then 1 else 0
  }

  /**
   * Truncating to the original size leaves the chunks that were there before, whichever of the new chunks comes first.
   */
  lemma TreeTrimsBack(s: State, t: State, a: TreeArgs, c: Crypto, partitionSize: nat, blockSize: nat)
    requires FOOTER_SIZE <= blockSize && ArgsFit(a, blockSize) && s.isSparse
    requires CanAddTree(s.isSparse, |s.offsets|, s.content, a, c, partitionSize, blockSize)
    requires TreeAttached(RoundedUp(s, a.blockSize), t, a, c, |s.content|, partitionSize, blockSize)
    ensures TrimmedChunks(t) == |s.offsets|
    ensures a.blockSize > 0 && DataChunks(t, |s.offsets|, s.content, a.blockSize)
  {
    hide FooterPackable, PadTo, ChunksFit, TreeBlob, Tree, H.Usable, MaxSize, Closed, ArgsFit, FooterOf,
      FinishedAt, NewOffsets, RoundedUp, Treed, SparseEdit.KeptChunks;
    Positive(a, blockSize);
    StepContents(s, a, blockSize);
    var data := RoundedUp(s, a.blockSize);
    var tree, blob := Tree(data.content, a), TreeBlob(data.content, a, c).value;
    var base := Base(data.content, a, blockSize);
    var size, last := FinalSize(base, blob, partitionSize,
                                blockSize), FinishedAt(|base|, blob, partitionSize, blockSize);
    TreeBlobNotEmpty(data.content, a, c);
    WithFooterShows(s.content, base, blob, size, blockSize);
    TreePadding(tree, blockSize);
    LastOffsets(|s.offsets|, |s.content|, |data.content|, tree, |base|, blob, partitionSize, size, blockSize);
    OffsetsJoin(s.offsets, |s.content|, |data.content|, |base|, tree != [], last);
    NewOffsetsKept(s.offsets, |s.content|, |data.content|, |base|, tree != [], last);
    DataOffsetsKept(s.offsets, |s.content|, |data.content|, |base|, tree != [], last);
  }

  /** The two steps in front of the blob, for a sparse image. */
  lemma StepContents(s: State, a: TreeArgs, blockSize: nat)
    requires blockSize > 0 && ArgsFit(a, blockSize) && s.isSparse && a.blockSize > 0
    ensures a.digestSize > 0 && H.Usable(Params(a))
    ensures var data := RoundedUp(s, a.blockSize);
            var tree := Tree(data.content, a);
            && data.isSparse && data.content == PadTo(s.content, a.blockSize)
            && data.offsets == (if |data.content| > |s.content| then s.offsets + [|s.content|] else s.offsets)
            && Treed(data, tree, blockSize) == State(true, Base(data.content, a, blockSize),
                 if tree != [] then data.offsets + [|data.content|] else data.offsets)
  {
    hide PadTo, Tree, H.Usable;
  }

  lemma TreePadding(tree: seq<byte>, blockSize: nat)
    requires blockSize > 0
    ensures tree == [] <==> |PadTo(tree, blockSize)| == 0
  {
    PaddedWhole(tree, blockSize);
    PaddedSize(tree, blockSize);
  }

  lemma LastOffsets(chunks: nat, content: nat, data: nat, tree: seq<byte>, base: nat, blob: seq<byte>,
                    partitionSize: nat, size: nat, blockSize: nat)
    requires blockSize > 0 && content <= data <= base && blob != []
    requires ChunksFit(chunks, content, data, tree, base, blob, partitionSize, size, blockSize)
    requires partitionSize > 0 ==> size == partitionSize
    ensures Rising(FinishedAt(base, blob, partitionSize, blockSize), base) && base < size
  {
    hide PadTo, Fit, CountsFit, ChunkFits;
    PaddedWhole(blob, blockSize);
  }

  ghost predicate Rising(offsets: seq<nat>, first: nat) {
    offsets != [] && offsets[0] == first && forall i :: 1 <= i < |offsets| ==> first < offsets[i]
  }

  lemma PutInFront(first: nat, next: nat, offsets: seq<nat>)
    requires Rising(offsets, next) && first < next
    ensures Rising(InFront(first, offsets), first)
  {
    var all := InFront(first, offsets);
    assert forall i :: 1 <= i < |all| ==> all[i] == offsets[i - 1];
  }

  lemma NewOffsetsKept(offsets: seq<nat>, content: nat, data: nat, base: nat, treed: bool, last: seq<nat>)
    requires content <= data <= base && (treed <==> base > data) && Rising(last, base)
    ensures SparseEdit.KeptChunks(offsets + NewOffsets(content, data, base, treed, last), content) == |offsets|
  {
    hide SparseEdit.KeptChunks, Rising, InFront;
    var tail := if treed then InFront(data, last) else last;
    if treed { PutInFront(data, base, last); }
    if data > content { PutInFront(content, data, tail); }
    RisingKept(offsets, NewOffsets(content, data, base, treed, last), content);
  }

  lemma DataOffsetsKept(offsets: seq<nat>, content: nat, data: nat, base: nat, treed: bool, last: seq<nat>)
    requires content <= data <= base && (treed <==> base > data) && Rising(last, base)
    ensures SparseEdit.KeptChunks(offsets + NewOffsets(content, data, base, treed, last), data)
         == |offsets| + if data > content then 1 else 0
  {
    hide SparseEdit.KeptChunks, Rising, InFront;
    var tail := if treed then InFront(data, last) else last;
    if treed { PutInFront(data, base, last); }
    if data > content {
      FrontJoins(offsets, content, tail);
      RisingKept(offsets + [content], tail, data);
    } else {
      RisingKept(offsets, tail, data);
    }
  }

  lemma FrontJoins(offsets: seq<nat>, first: nat, rest: seq<nat>)
    ensures offsets + InFront(first, rest) == offsets + [first] + rest
  {
  }

  lemma RisingKept(offsets: seq<nat>, rest: seq<nat>, first: nat)
    requires Rising(rest, first)
    ensures SparseEdit.KeptChunks(offsets + rest, first) == |offsets|
  {
    SparseEdit.KeptInFront(offsets, first, rest);
  }

  /** The offsets of the chunks added to a sparse image. */
  function NewOffsets(content: nat, data: nat, base: nat, treed: bool, last: seq<nat>): seq<nat> {
    var tail := if treed then InFront(data, last) else last;
    if data > content then InFront(content, tail) else tail
  }

  function InFront(offset: nat, rest: seq<nat>): seq<nat> {
    [offset] + rest
  }

  lemma OffsetsJoin(offsets: seq<nat>, content: nat, data: nat, base: nat, treed: bool, last: seq<nat>)
    ensures (var padded := if data > content then offsets + [content] else offsets;
             if treed then padded + [data] else padded) + last
         == offsets + NewOffsets(content, data, base, treed, last)
  {
  }

  /** When a failed add_hashtree_footer leaves a file that does not open. */
  ghost predicate TreeAddSticks(s: State, partitionSize: nat, a: TreeArgs, c: Crypto, blockSize: nat)
    requires blockSize > 0 && ArgsFit(a, blockSize)
  {
    && s.isSparse && SizeToCheck(partitionSize, |s.content|) % blockSize == 0 && CleanCut(s, blockSize)
    && AddTreeSticks(s.isSparse, TrimmedChunks(s), Trim(s.content), a, c, partitionSize, blockSize)
  }

  /** add_hashtree_footer */
  method AddHashtreeFooter(image: ImageHandler, partitionSize: nat, a: TreeArgs, c: Crypto) returns (r: Option<Error>)
    requires Writable(image) && SaneFooter(StateOf(image), image.blockSize) && ArgsFit(a, image.blockSize)
    modifies image
    ensures image.isSparse == old(image.isSparse) && image.blockSize == old(image.blockSize) >= FOOTER_SIZE
    ensures image.Sound()
    ensures TreeAdded(old(StateOf(image)), image.Content(), r, partitionSize, a, c, image.blockSize)
    ensures r == None ==> Writable(image) && TrimmedChunks(StateOf(image)) == TrimmedChunks(old(StateOf(image)))
    ensures a.blockSize > 0
    ensures r == None && image.isSparse ==>
              DataChunks(StateOf(image), TrimmedChunks(old(StateOf(image))), Trim(old(image.Content())), a.blockSize)
    ensures r != None ==>
              (Opens(image.file) <==> !TreeAddSticks(old(StateOf(image)), partitionSize, a, c, image.blockSize))
  {
    hide Describes, ArgsFit, CanAddTree, HasHashtreeFooter, Trim, TrimmedChunks, CleanCut, SaneFooter, Opens,
      AddTreeSticks, DataChunks;
    OpensWhen(image);
    Positive(a, image.blockSize);
    var maxImageSize := MaxImageSizeFor(partitionSize, a);
    image.ContentSize();
    if SizeToCheck(partitionSize, image.imageSize) % image.blockSize != 0 { return Some(AvbError); }
    var error, originalImageSize := TrimToOriginal(image);
    OpensWhen(image);
    if error != None { return error; }
    WritableSize(image);
    ghost var s := StateOf(image);
    ZeroIsBlocks(image.blockSize);
    r := BuildAndAttach(image, partitionSize, maxImageSize, a, c, originalImageSize);
    if r != None {
      PrefixRestored(s.content, image.Content());
      image.ContentSize();
      var e := Restore(image, originalImageSize);
      OpensWhen(image);
      r := Some(e);
    }
  }

  lemma PrefixRestored(content: seq<byte>, half: seq<byte>)
    requires content <= half
    ensures |content| <= |half| && Resize(half, |content|) == content
  {
  }

  lemma Positive(a: TreeArgs, blockSize: nat)
    requires blockSize > 0 && ArgsFit(a, blockSize)
    ensures a.digestSize > 0 && H.Usable(Params(a)) && a.blockSize > 0 && Encodable(a.input)
  {
  }

  lemma ZeroIsBlocks(blockSize: nat)
    requires blockSize > 0
    ensures 0 % blockSize == 0
  {
  }
}
