/** The hashtree descriptor's verify, and what it says about images with a hashtree footer. */
module HashtreeVerify {
  import opened Bytes
  import opened FooterCommands
  import opened FooterLayout
  import opened HashFooters
  import opened HashtreeFooters
  import opened Hashing
  import opened Images
  import opened Vbmeta
  import opened Wrappers

  import B = VbmetaBlob
  import D = Descriptors
  import H = HashTree
  import T = HashTreeBuild
  import SparseFormat

  ghost predicate Checkable(d: D.Descriptor, hash: HashFn, digestSize: nat) {
    d.Hashtree? && digestSize > 0 && H.Usable(ParamsOf(hash, d.salt, d.dataBlockSize, digestSize))
  }

  /** Whether the descriptor vouches for the content when `onDisk` is what reading the tree gives. */
  ghost function Judged(content: seq<byte>, onDisk: Result<seq<byte>>, d: D.Descriptor, hash: HashFn, digestSize: nat,
                        acceptZeroed: bool): Result<bool>
    requires Checkable(d, hash, digestSize) && d.imageSize <= |content|
  {
    var p := ParamsOf(hash, d.salt, d.dataBlockSize, digestSize);
    var data := content[..d.imageSize];
    if d.imageSize < d.dataBlockSize then Raised(UnboundLocalError)
    else if d.rootDigest != [] && H.Root(p, data) != d.rootDigest then Ok(false)
    else if onDisk.Raised? then Raised(onDisk.error)
    else if acceptZeroed && (d.treeSize == 0 || Slice(onDisk.value, 0, |ZERO_MARKER|) == ZERO_MARKER) then Ok(true)
    else Ok(H.Tree(p, data) == onDisk.value)
  }

  /** Whether the descriptor vouches for a flat file. */
  ghost function Verdict(content: seq<byte>, d: D.Descriptor, hash: HashFn, digestSize: nat, acceptZeroed: bool)
    : Result<bool>
    requires Checkable(d, hash, digestSize) && d.imageSize <= |content|
  {
    Judged(content, Ok(SparseFormat.ReadAt(content, d.treeOffset, d.treeSize)), d, hash, digestSize, acceptZeroed)
  }

  /** AvbHashtreeDescriptor.verify on the image that the descriptor is about. */
  method Verify(image: ImageHandler, d: D.Descriptor, hash: HashFn, digestSize: nat, acceptZeroed: bool)
    returns (r: Result<bool>)
    requires image.Loaded() && Checkable(d, hash, digestSize) && d.imageSize <= image.imageSize
    modifies image`filePos
    ensures d.imageSize <= |image.Content()|
    ensures r == Judged(image.Content(), ReadsAt(image, d.treeOffset, d.treeSize), d, hash, digestSize, acceptZeroed)
    ensures !image.isSparse || d.treeSize == 0 || d.treeOffset <= image.imageSize ==>
              r == Verdict(image.Content(), d, hash, digestSize, acceptZeroed)
  {
    hide Describes, H.Root, H.Tree, H.LevelSizes, H.Usable, ReadsAt;
    image.ContentSize();
    var p := ParamsOf(hash, d.salt, d.dataBlockSize, digestSize);
    H.UsableSizes(p);
    ReadsInside(image, d.treeOffset, d.treeSize);
    var offsets, treeSize := T.CalcHashLevelOffsets(d.imageSize, d.dataBlockSize, H.EntrySize(p));
    var made := T.GenerateHashTree(image, p, d.imageSize, offsets, treeSize);
    if made.Raised? { return Raised(made.error); }
    var (rootDigest, hashTree) := made.value;
    if d.rootDigest != [] && rootDigest != d.rootDigest { return Ok(false); }
    var onDisk := ReadRange(image, d.treeOffset, d.treeSize);
    if onDisk.Raised? { return Raised(onDisk.error); }
    var isZeroed := d.treeSize == 0 || Slice(onDisk.value, 0, |ZERO_MARKER|) == ZERO_MARKER;
    if isZeroed && acceptZeroed { return Ok(true); }
    return Ok(hashTree == onDisk.value);
  }

  /** An image that starts with data and padded tree is accepted, unless its tree was left out and is not empty. */
  lemma AcceptsWhatWasAdded(image: seq<byte>, data: seq<byte>, a: TreeArgs, blockSize: nat, acceptZeroed: bool)
    requires blockSize > 0 && a.digestSize > 0 && H.Usable(Params(a)) && a.blockSize <= |data|
    requires |Base(data, a, blockSize)| <= |image| && image[..|Base(data, a, blockSize)|] == Base(data, a, blockSize)
    ensures |data| <= |image| && Checkable(TreeDescriptor(data, a), a.hash, a.digestSize)
    ensures Verdict(image, TreeDescriptor(data, a), a.hash, a.digestSize, acceptZeroed)
         == Ok(!a.noHashtree || acceptZeroed || |data| == a.blockSize)
  {
    hide H.Root, H.Usable, H.Level, FooterLayout.ZERO_MARKER;
    var n := |Base(data, a, blockSize)|;
    var tree := Tree(data, a);
    DataInFront(image, data, PadTo(tree, blockSize));
    OnDisk(image, data, tree, PadTo(tree, blockSize), n);
    EmptyTree(Params(a), data);
  }

  lemma DataInFront(image: seq<byte>, data: seq<byte>, padded: seq<byte>)
    requires |data + padded| <= |image| && image[..|data + padded|] == data + padded
    ensures image[..|data|] == data
  {
    SliceOfSlice(image, 0, |data + padded|, 0, |data|);
    PrefixOfSum(data, padded, |data|);
  }

  lemma OnDisk(image: seq<byte>, data: seq<byte>, tree: seq<byte>, padded: seq<byte>, n: nat)
    requires tree <= padded && n == |data + padded| <= |image| && image[..n] == data + padded
    ensures SparseFormat.ReadAt(image, |data|, |tree|) == tree
  {
    if tree != [] {
      SliceOfSlice(image, 0, n, |data|, |data| + |tree|);
      assert (data + padded)[|data|..|data| + |tree|] == padded[..|tree|];
    }
  }

  lemma EmptyTree(p: H.Params, data: seq<byte>)
    requires H.Usable(p) && p.blockSize <= |data|
    ensures H.Tree(p, data) == [] <==> |data| == p.blockSize
  {
    hide H.Level;
    if |data| > p.blockSize {
      H.LevelShrinks(|data|, p.blockSize, H.EntrySize(p));
    }
  }

  /** Content of the right size that verifies against an embedded root is the original data, or the hash breaks. */
  lemma VerifiedIsOriginal(content: seq<byte>, data: seq<byte>, a: TreeArgs, acceptZeroed: bool)
    requires a.digestSize > 0 && H.Usable(Params(a)) && a.blockSize <= |data| <= |content| && !a.persistentRootDigest
    requires Checkable(TreeDescriptor(data, a), a.hash, a.digestSize)
    requires Verdict(content, TreeDescriptor(data, a), a.hash, a.digestSize, acceptZeroed) == Ok(true)
    ensures var c := H.FindCollision(Params(a), content[..|data|], data);
            if c == NoCollision then content[..|data|] == data else Breaks(a.hash, c)
  {
    hide H.Tree, H.Level;
    RootHasSize(Params(a), data);
    H.RootBinds(Params(a), content[..|data|], data);
  }

  lemma {:induction false} RootHasSize(p: H.Params, src: seq<byte>)
    requires H.Usable(p)
    ensures |H.Root(p, src)| == p.digestSize
    decreases |src|
  {
    if |src| > p.blockSize {
      H.LevelShrinks(|src|, p.blockSize, H.EntrySize(p));
      RootHasSize(p, H.Level(p, src));
    }
  }

  // ------------------------------------------------------------------- whole commands

  /** The size check leaves room for everything when all blocks are 4096 bytes and the blob at most 64 KiB. */
  lemma EverythingFits(data: seq<byte>, a: TreeArgs, blob: seq<byte>, partitionSize: nat)
    requires a.digestSize > 0 && H.Usable(Params(a)) && a.blockSize == 4096
    requires |data| <= MaxSize(partitionSize, a) && |blob| <= MAX_VBMETA_SIZE
    ensures |Base(data, a, 4096)| + |PadTo(blob, 4096)| + 4096 <= partitionSize
  {
    hide H.Tree, H.TreeSize;
    var entrySize := H.EntrySize(Params(a));
    H.UsableSizes(Params(a));
    RoundedWithin(|blob|, MAX_VBMETA_SIZE);
    if a.noHashtree {
      assert |PadTo(Tree(data, a), 4096)| == 0;
    } else {
      HashtreeFits(|data|, |blob|, partitionSize, entrySize);
      TreeIsBlocks(|data|, 4096, entrySize);
    }
  }

  lemma TreeIsBlocks(size: nat, blockSize: nat, entrySize: nat)
    requires 0 < entrySize && 2 * entrySize <= blockSize
    ensures H.TreeSize(size, blockSize, entrySize) % blockSize == 0
  {
    H.LevelsAreBlocks(size, blockSize, entrySize);
    SumOfBlocks(H.LevelSizes(size, blockSize, entrySize), blockSize);
  }

  lemma {:induction false} SumOfBlocks(sizes: seq<nat>, blockSize: nat)
    requires blockSize > 0 && forall i :: 0 <= i < |sizes| ==> sizes[i] % blockSize == 0
    ensures H.Total(sizes) % blockSize == 0
  {
    if sizes != [] {
      SumOfBlocks(sizes[1..], blockSize);
      SumIsBlocks(sizes[0], H.Total(sizes[1..]), blockSize);
    }
  }

  /** Base, padded blob and footer block have room in the partition. */
  ghost predicate TreeRoom(content: seq<byte>, a: TreeArgs, c: Crypto, partitionSize: nat, blockSize: nat)
    requires blockSize > 0 && ArgsFit(a, blockSize)
  {
    var data := PadTo(content, a.blockSize);
    TreeBlob(data, a, c).Ok? && partitionSize > 0 ==>
      |Base(data, a, blockSize)| + |PadTo(TreeBlob(data, a, c).value, blockSize)| + blockSize <= partitionSize
  }

  /** A sparse image that took the tree has room, and so has any one with 4096-byte blocks and a blob up to 64 KiB. */
  lemma RoomWhen(isSparse: bool, chunks: nat, content: seq<byte>, a: TreeArgs, c: Crypto, partitionSize: nat,
                 blockSize: nat)
    requires blockSize > 0 && ArgsFit(a, blockSize)
    requires CanAddTree(isSparse, chunks, content, a, c, partitionSize, blockSize)
    requires isSparse
          || (blockSize == a.blockSize == 4096 && |TreeBlob(PadTo(content, 4096), a, c).value| <= MAX_VBMETA_SIZE)
    ensures TreeRoom(content, a, c, partitionSize, blockSize)
  {
    hide FooterPackable, PadTo, TreeBlob, Tree, H.Usable, MaxSize, Fit, CountsFit, ChunkFits;
    if !isSparse && partitionSize > 0 {
      EverythingFits(PadTo(content, 4096), a, TreeBlob(PadTo(content, 4096), a, c).value, partitionSize);
    }
  }

  /**
   * A finished image with room: erasing its footer gives the original content back, it has exactly the partition
   * size, it begins with data and tree, and its own descriptor accepts it unless the tree was left out.
   */
  lemma FinishedImage(image: seq<byte>, content: seq<byte>, a: TreeArgs, c: Crypto, partitionSize: nat, blockSize: nat,
                      acceptZeroed: bool)
    requires FOOTER_SIZE <= blockSize && ArgsFit(a, blockSize)
    requires HasHashtreeFooter(image, content, a, c, partitionSize, blockSize)
    requires TreeRoom(content, a, c, partitionSize, blockSize)
    ensures Trim(image) == content
    ensures partitionSize > 0 ==> |image| == partitionSize
    ensures var data := PadTo(content, a.blockSize);
            var base := Base(data, a, blockSize);
            && |data| <= |image| && Checkable(TreeDescriptor(data, a), a.hash, a.digestSize)
            && |base| <= |image| && image[..|base|] == base
            && Verdict(image, TreeDescriptor(data, a), a.hash, a.digestSize, acceptZeroed)
               == Ok(!a.noHashtree || acceptZeroed || |data| == a.blockSize)
  {
    hide FooterOf, Trim, FooterPackable, WithFooter, TreeBlob, H.Tree, H.Root, MaxSize, H.Usable, Verdict, PadTo;
    var data := PadTo(content, a.blockSize);
    var base, blob := Base(data, a, blockSize), TreeBlob(data, a, c).value;
    var size := FinalSize(base, blob, partitionSize, blockSize);
    EraseUndoesAdd(content, base, blob, size, blockSize);
    BaseInFront(content, base, blob, size, blockSize);
    AcceptsWhatWasAdded(image, data, a, blockSize, acceptZeroed);
  }

  lemma BaseInFront(content: seq<byte>, base: seq<byte>, blob: seq<byte>, size: nat, blockSize: nat)
    requires FOOTER_SIZE <= blockSize <= size && FooterPackable(FooterFor(content, base, blob))
    requires |base| + |PadTo(blob, blockSize)| + blockSize <= size
    ensures WithFooter(content, base, blob, size, blockSize)[..|base|] == base
  {
    hide FooterBlock, FooterPackable, PadTo;
    ClosedKeeps(base + PadTo(blob, blockSize), size, blockSize, FooterFor(content, base, blob), |base|);
    PrefixOfSum(base, PadTo(blob, blockSize), |base|);
    assert base[..|base|] == base;
  }

  /** Key, hash functions and descriptors are such that the blob can be parsed again where it is stored. */
  ghost predicate TreeParses(data: seq<byte>, a: TreeArgs, c: Crypto, sizes: D.DigestSizes)
    requires a.digestSize > 0 && H.Usable(Params(a))
  {
    && B.InputFits(TreeInput(data, a)) && Lengths(c.hashes)
    && forall i :: 0 <= i < |TreeInput(data, a).descriptors| ==> D.WellFormed(TreeInput(data, a).descriptors[i], sizes)
  }

  /** A finished image with room parses to the descriptors that were put in, the hashtree descriptor first. */
  lemma FinishedImageParses(image: seq<byte>, content: seq<byte>, a: TreeArgs, c: Crypto, partitionSize: nat,
                            blockSize: nat, sizes: D.DigestSizes)
    requires FOOTER_SIZE <= blockSize && ArgsFit(a, blockSize)
    requires HasHashtreeFooter(image, content, a, c, partitionSize, blockSize)
    requires TreeRoom(content, a, c, partitionSize, blockSize) && TreeParses(PadTo(content, a.blockSize), a, c, sizes)
    ensures OffsetsInside(image)
    ensures var data := PadTo(content, a.blockSize);
            && TreeBlob(data, a, c).Ok?
            && var base, blob, p := Base(data, a, blockSize), TreeBlob(data, a, c).value, ParseContent(image, sizes);
            && p.Ok? && p.value.footer == Some(FooterFor(content, base, blob))
            && p.value.descriptors == D.NormalizeAll([TreeDescriptor(data, a)] + a.input.descriptors)
            && IsVbmeta(blob, p.value.header, p.value.descriptors, sizes)
  {
    hide ParseContent, OffsetsInside, FooterPackable, WithFooter, B.Generate, Lengths, H.Tree, H.Root, MaxSize,
      H.Usable, PadTo, D.NormalizeAll, D.WellFormed, IsVbmeta;
    var data := PadTo(content, a.blockSize);
    var base, blob, input := Base(data, a, blockSize), TreeBlob(data, a, c).value, TreeInput(data, a);
    var p := B.Generate(input, c.hashes, c.signer).value;
    B.LayoutInverse(input, c.hashes, c.signer);
    D.StreamRoundTrip(input.descriptors, sizes);
    BlobIsVbmeta(blob, p, D.NormalizeAll(input.descriptors), sizes);
    ParsesAsAdded(content, base, blob, FinalSize(base, blob, partitionSize, blockSize), blockSize, p.header,
                  D.NormalizeAll(input.descriptors), sizes);
  }
}
