# Verified model of the Android image tools

The recovery scripts of this repository rely on vendored copies of Android image tools.  This project
models the logic of five of them in Dafny and proves what they promise:

- **RFC 6962 inclusion proofs** (`rfc6962.dfy`): the bit-level verifier of avbtool 1.1 against the
  recursive tree and path of sections 2.1 and 2.1.1 of RFC 6962, both directions.
- **Sparse images** (`sparse_format.dfy`, `sparse_edit.dfy`, `image_handler.dfy`, `image_runs.dfy`,
  `sparse_files.dfy`): the class `ImageHandler` over a byte file, in the imperative form of its source.
  Its docstring says the operations do the same on sparse and plain files; `ImageRuns` proves for which
  operations that is so, step by step as an equivalence and for whole runs.
- **Hash trees, vbmeta blobs and footers** (`hashtree.dfy`, `hashtree_build.dfy`, `descriptors.dfy`,
  `vbmeta.dfy`, `vbmeta_blob.dfy`, `footer_layout.dfy`, `footer_commands.dfy`, `footer_edits.dfy`,
  `hash_footers.dfy`, `hash_verify.dfy`, `hashtree_footers.dfy`, `hashtree_verify.dfy`): level layout, the
  tree built in one flat buffer, codecs, the signed blob, and the commands that add, erase, move and zero,
  as methods on `ImageHandler` objects, each with its exact condition for success on plain and on sparse
  images; after a failure it is stated exactly when the file left behind still opens.  `footer_runs.dfy`,
  `tree_runs.dfy` and `zero_runs.dfy` chain the commands on one object: twice is once, erasing undoes
  adding, the descriptor found in a finished or zeroed image verifies it.  `footer_losses.dfy` holds runs
  on which the commands lose data.
- **Key arithmetic** (`keys.dfy`, `bits.dfy`): extended Euclid, modular inverse, the key blob.
- **Three smaller engines**: the DTBO packer (`dtbo_format.dfy`, `dtbo.dfy`), the F2FS used-block walk
  (`f2fs.dfy`) and the bootconfig trailer (`bootconfig.dfy`).

`vbmeta_bytes.dfy`, `descriptor_bytes.dfy`, `tree_bytes.dfy` and `sparse_files.dfy` say what single bytes
are: which number stands at which offset, which bytes are hashed in which order, and what a file that is
written out byte by byte is read as.  They state it without the model's own encodings, so that a format
that is wrong on both sides shows.

`bytes.dfy`, `utf8.dfy`, `hashing.dfy` and `wrappers.dfy` hold byte strings and fixed-width fields, text as
bytes, hash functions as parameters, and results that carry the exception the program would raise.

A file is a byte sequence held by the object; reopening and re-parsing after every change is kept.
Hash, signing, public-key and decompression functions are parameters.  About a hash function nothing is
assumed but the length of its output, so binding results are stated as "equal, or here are two
different inputs with one digest", the pair being computed by a function.  Some proofs hide function
bodies they do not need, to stay quick.

## Findings

Where the code does less than its documentation says, the model follows the code:

- A sparse handler differs from a plain one when it truncates to its own size (the cursor stays), reads
  behind the end (the cursor moves back, or the read raises), reads without any chunk, truncates to a
  size that is no multiple of the block size, or runs out of 32-bit fields; plain files differ from a
  byte string when fewer than 28 bytes are left.  `ImageRuns.Step` is the equivalence;
  `ImageRuns.TruncateKeepsCursor`, `ReadMovesBack` and `ShortPlainFails` are runs that show it.
- `_read_header` accepts a sparse file whose last RAW chunk has lost its data
  (`SparseFormat.CutRawIsAccepted`; the exact condition is `SparseFormat.AcceptedIsStoredIff`).
- `append_vbmeta_image` on a plain image without room reports success and cuts the end of what it
  appended, because appending a negative gap truncates.  The blob survives exactly when the bytes cut off
  are those the footer block puts there (`FooterLayout.BlobStoredIff`), the content after erasing under a
  like condition (`FooterLayout.ContentErasedIff`); `FooterLosses.AppendWithoutRoom` loses both.  In a
  partition of one block it fails, and the content it restores is zeros (`FooterLosses.AppendToOneBlock`).
  On a sparse image without room it fails and restores the image.
- An append to a sparse file raises the counts in its header before it writes the chunk.  When the chunk's
  own header cannot be packed, as for a negative `append_fill`, the counts stay raised, and `_read_header`
  rejects the file (`Images.FailedAppendOpensIff`; `ImageRuns.NegativeFillBreaksFile` is a run).  Restoring
  after a failure repairs this only if it has something to cut off: `FooterCommands.AppendVbmetaImage`,
  `HashFooters.AddHashFooter` and `HashtreeFooters.AddHashtreeFooter` state exactly when it does not.
- Appending a part of a block to a sparse file with `multiple_block_size=False` writes it, and then raises
  because `_read_header` rejects the file (`Images.ImageHandler.AppendRaw`).
- `zero_hashtree` on an image without a hash tree makes a plain image grow by a block.  A sparse image
  fails after blob and footer have been cut off, and unless one more chunk cannot be counted, the file it
  leaves does not open (`FooterEdits.EmptyTreeLosesFooter`, `FooterLosses.ZeroUnhashed`).
- `resize_image` on a sparse image whose counts do not fit can fail after the footer has been cut
  off (`FooterEdits.MovesIff`).  A gap of no bytes leaves a chunk behind, so resizing again and again uses up
  the chunk count (`FooterRuns.ChunksLeft`).
- The level computation does not end when two digests do not fit a block (`HashTree.LevelsNeverEnd`).
- `generate_hash_tree` raises on images below one block (`HashTreeBuild.GenerateHashTree`).
- `verify_image` hands its own handler to a hash descriptor without a partition name, and the descriptor
  reads on from the cursor, which then stands behind the vbmeta blob.  An image that `add_hash_footer` has
  just finished is rejected, unless the bytes behind the blob have the content's digest
  (`HashVerify.AddThenVerifyNameless`); with a partition name it is accepted (`HashVerify.AddThenVerify`).
- `add_hash_footer` checks the alignment of the partition size only after it dropped an existing footer
  (`HashFooters.AddHashFooter`).
- Bootconfig text that ends in the magic gets no trailer (`BootConfig.AddKeepsLayout`,
  `BootConfig.MagicTextLosesTrailer`).
- The F2FS walk misses used blocks of segments whose count is zero (`F2fs.WalkIsExactIff`,
  `F2fs.MiscountedBlockIsMissed`).
- Writing an entry of one version into a DTBO image of the other raises `AttributeError`
  (`Dtbo.DtboImage.UpdateMetadata`).
- The DTBO packer stores only the rest of an uncompressed file whose handle has been read from
  (`DtboFormat.StoredWholeIff`, `DtboFormat.ReadHandleLosesBytes`).

## Model

| member | source | states |
|---|---|---|
| `Rfc6962.RootFromIcp` | aosp/avb/avbtool.v1.1.py:2730-2758 | refuses exactly the index/size pairs outside 0 <= index < size; otherwise the split by xor and bit length and the two loops compute the fold that the lemmas below are about |
| `Rfc6962.ChainInner` | aosp/avb/avbtool.v1.1.py:2711-2727 | the loop with `leaf_index >> i & 1` is the bit-by-bit fold from the leaf up |
| `Rfc6962.ChainBorderRight` | aosp/avb/avbtool.v1.1.py:2696-2708 | the second loop is the fold that always puts the proof digest on the left |
| `Rfc6962.AuditPathLength` | aosp/avb/avbtool.v1.1.py:2753-2757 | the audit path of section 2.1.1 of RFC 6962 has inner + popcount(m >> inner) digests |
| `Rfc6962.Completeness` | aosp/avb/avbtool.v1.1.py:2730-2758 | for every non-empty leaf list and every index, folding the path of section 2.1.1 from the leaf hash gives the tree hash of section 2.1 |
| `Rfc6962.FoldLeft` | aosp/avb/avbtool.v1.1.py:2753-2757 | a proof for a leaf in the left subtree: its last digest is the right sibling under the root, for every tree size |
| `Rfc6962.FoldRight` | aosp/avb/avbtool.v1.1.py:2753-2757 | the same for the right subtree, whose size need not be a power of two |
| `Rfc6962.Soundness` | aosp/avb/avbtool.v1.1.py:2658-2758 | a leaf hash and proof of the right number and width that fold to the root of D are the leaf hash and the path of D, or a pair of different inputs with one digest is computed |
| `Rfc6962.RootBindsLeaf` | aosp/avb/avbtool.v1.1.py:2658-2758 | two leaf lists of one size with one root agree at every index, or the hash is broken by a computed pair |
| `Rfc6962.LeafRoot` | aosp/avb/avbtool.v1.1.py:2658-2673 | the root of one leaf is the hash of a zero byte and the leaf |
| `Rfc6962.NodeRoot` | aosp/avb/avbtool.v1.1.py:2676-2693 | the root of more leaves is, for the largest power of two k below their number, the hash of a one byte, the root of the first k and the root of the others |
| `Rfc6962.RootOfTwo` | aosp/avb/avbtool.v1.1.py:2711-2758 | on two leaves the verifier computes the hash of a one byte, left and right digest, for either index |
| `Rfc6962.RootBindsLeaves` | aosp/avb/avbtool.v1.1.py:2658-2693 | leaf lists of any two sizes with one root are equal, or two different inputs with one digest are computed: a leaf cannot stand for an inner node |
| `Keys.EgcdCorrect` | aosp/avb/avbtool.v1.2.py:277-294 | for all naturals: g is the greatest common divisor, a*x + b*y == g, |x| <= max(1, b), |y| <= max(1, a) |
| `Keys.ModInvCorrect` | aosp/avb/avbtool.v1.2.py:297-315 | an inverse below the modulus is returned exactly when one exists |
| `Keys.InvertibleIffOdd` | aosp/avb/avbtool.v1.2.py:414-416 | the modulus has an inverse modulo 2^32 exactly when it is odd |
| `Keys.N0InvCorrect` | aosp/avb/avbtool.v1.2.py:414-416 | n0inv exists exactly for odd N, lies in (0, 2^32) and n0inv * N + 1 is a multiple of 2^32 |
| `Keys.EncodeLong` | aosp/avb/avbtool.v1.2.py:234-253 | the shift loop writes the value modulo 2^bits big-endian, or fails by a negative shift when the bit count is no multiple of 8 |
| `Keys.DecodeLong` | aosp/avb/avbtool.v1.2.py:256-274 | the shift loop reads a big-endian number of any length |
| `Bytes.DecodeOfBE` | aosp/avb/avbtool.v1.2.py:234-274 | decoding undoes encoding for every value that fits |
| `Bytes.BEOfDecode` | aosp/avb/avbtool.v1.2.py:234-274 | encoding undoes decoding for every byte string |
| `Bytes.BigEndian` | aosp/avb/avbtool.v1.2.py:256-274 | in a big-endian field the first byte counts most |
| `Bytes.LittleEndian` | aosp/avb/avbtool.v1.2.py:738-743 | in a little-endian field the first byte counts least |
| `Keys.EncodeKey` | aosp/avb/avbtool.v1.2.py:399-423 | the header words, the modulus and r^2 mod N in the order of the key blob, or the error of the first step that fails |
| `Keys.KeyBlobRoundTrip` | aosp/avb/avbtool.v1.2.py:399-423 | the verifier decodes the encoded modulus from the blob, and the stored constants are -1/N mod 2^32 and (2^bits)^2 mod N |
| `Keys.MontgomeryConstant` | aosp/avb/avbtool.v1.2.py:417-423 | for a modulus with the bits it claims: the modulus lies behind the first eight bytes, and the last number is 2 to the power of twice their number modulo it |
| `Bits.RoundToPow2IsLeast` | aosp/avb/avbtool.v1.2.py:220-231 | the result is a power of two, not below the number, and the least such |
| `Bytes.RoundToMultiple` | aosp/avb/avbtool.v1.2.py:203-217 | the least multiple of the size that is not below the number |
| `SparseFormat.ParseOfSerialize` | aosp/avb/avbtool.v1.2.py:762-881 | _read_header accepts the stored form of every well-formed sparse image and recovers it exactly |
| `SparseFormat.AcceptedIsStoredIff` | aosp/avb/avbtool.v1.2.py:799-881 | an accepted file is the stored form of what was parsed exactly when it is as long as its chunk headers declare |
| `SparseFormat.CutRawIsAccepted` | aosp/avb/avbtool.v1.2.py:818-830 | the case that shows acceptance is not enough: a RAW chunk at the end may have lost its data |
| `SparseFormat.ScanInvariant` | aosp/avb/avbtool.v1.2.py:808-862 | after any number of turns the scanned part is the stored form of whole chunks, or the file ended inside a chunk |
| `SparseFormat.OneTooMany` | aosp/avb/avbtool.v1.2.py:808-816 | a stored image whose header counts one chunk more than there is, is rejected: unpacking the missing chunk header raises |
| `SparseFormat.TornChunk` | aosp/avb/avbtool.v1.2.py:815-823 | a file whose last RAW chunk is no whole number of blocks is rejected |
| `SparseFiles.MagicBytes` | aosp/avb/avbtool.v1.2.py:783-787 | exactly the files that begin with 3a ff 26 ed are taken for sparse ones |
| `SparseFiles.VersionBytes` | aosp/avb/avbtool.v1.2.py:788-798 | exactly the headers with version 1.0 and sizes 28 and 12 are accepted, byte by byte |
| `SparseFiles.TypeBytes` | aosp/avb/avbtool.v1.2.py:810-858 | the two bytes that select each kind of chunk |
| `SparseFiles.MixedParses` | aosp/avb/avbtool.v1.2.py:762-881 | a file of 72 bytes with a RAW, a FILL and a DONT_CARE chunk, written out byte by byte, parses to these chunks |
| `SparseFiles.ReadMixed` | aosp/avb/avbtool.v1.2.py:1024-1073 | opening and reading that file gives its data, its pattern twice, and zeros, across the chunks as well |
| `SparseFiles.ReadHole` | aosp/avb/avbtool.v1.2.py:1024-1073 | opening and reading a 40-byte file with one DONT_CARE chunk gives four zeros |
| `SparseFiles.ChecksumParses` | aosp/avb/avbtool.v1.2.py:853-858 | a file with a CRC32 chunk, written out byte by byte, parses to it |
| `SparseFiles.OpenPlain` | aosp/avb/avbtool.v1.2.py:775-787 | any other file of 28 bytes or more is a plain image with 4096-byte blocks and its own bytes as content |
| `Images.ReadChunkHeader` | aosp/avb/avbtool.v1.2.py:810-862 | one turn of the parsing loop: same checks, same table entry, same cursor, for all five kinds of chunk header |
| `Images.ReadChunks` | aosp/avb/avbtool.v1.2.py:803-865 | the chunk loop builds the table, cursor and running sums of the recursive parse, or raises its error |
| `Images.ImageHandler.constructor` | aosp/avb/avbtool.v1.2.py:745-760 | a fresh object on the given file and mode |
| `Images.ImageHandler.Open` | aosp/avb/avbtool.v1.2.py:745-760 | opening raises the parser's error; plain files, and complete sparse files without CRC32 chunks, give an object that agrees with its file |
| `Images.ImageHandler.ReadHeader` | aosp/avb/avbtool.v1.2.py:762-881 | plain, sparse and malformed files leave the object in exactly the state the parse of the file says |
| `Images.ImageHandler.Reload` | aosp/avb/avbtool.v1.2.py:762-881 | re-reading a stored image restores agreement between object and file |
| `SparseEdit.BisectFindsChunk` | aosp/avb/avbtool.v1.2.py:1047-1048 | bisection on the offset list finds the chunk that holds the position, zero-length chunks included |
| `SparseEdit.FillSlice` | aosp/avb/avbtool.v1.2.py:1058-1061 | slicing the repeated fill pattern gives the pattern at any phase |
| `SparseEdit.ReadChunkIsExpansion` | aosp/avb/avbtool.v1.2.py:1052-1064 | what is read inside a chunk, of each kind, is that slice of the expanded image |
| `Images.ReadTurn` | aosp/avb/avbtool.v1.2.py:1050-1069 | one turn of the read loop collects the next bytes of the expansion and stands at the next chunk or at the end |
| `Images.ImageHandler.ReadInside` | aosp/avb/avbtool.v1.2.py:1046-1073 | the loop over chunks returns what a flat file would, across chunks, inside patterns and at the end of the image |
| `Images.ImageHandler.ReadBeyond` | aosp/avb/avbtool.v1.2.py:1046-1073 | from behind the end: the negative read of the last chunk, and the cursor moves back to the end |
| `Images.BeyondIsEmpty` | aosp/avb/avbtool.v1.2.py:1052-1069 | behind the end nothing is read, or reading raises for a RAW chunk, when chunk sizes are multiples of four |
| `Images.ImageHandler.Read` | aosp/avb/avbtool.v1.2.py:1024-1073 | agrees with a flat file exactly where it can; behind the end of a sparse image and without chunks it is the stated other result |
| `Images.ImageHandler.Seek` | aosp/avb/avbtool.v1.2.py:1011-1022 | negative offsets raise and leave the cursor, others set it |
| `Images.ImageHandler.Tell` | aosp/avb/avbtool.v1.2.py:1075-1081 | returns the cursor |
| `Images.ImageHandler.UpdateChunksAndBlocks` | aosp/avb/avbtool.v1.2.py:883-894 | both counts are written in place, or nothing when one does not fit 32 bits |
| `SparseEdit.ChunkAppended` | aosp/avb/avbtool.v1.2.py:919-931 | counts rewritten and one chunk written at the end give the stored form of the longer image |
| `Images.ImageHandler.AppendChunk` | aosp/avb/avbtool.v1.2.py:919-931 | the common part of the appends: exactly when all fields fit, one more chunk; otherwise the object still describes the old image, and the file is untouched if the counts do not fit, or holds the raised counts without the chunk and is rejected by _read_header |
| `Images.FailedAppendOpensIff` | aosp/avb/avbtool.v1.2.py:919-931 | the file that a failed append leaves opens exactly when the two counts did not fit their fields |
| `Images.ImageHandler.AppendDontCare` | aosp/avb/avbtool.v1.2.py:896-931 | content extended by zeros; on plain files a negative amount cuts, on sparse ones it raises; an amount that is no block multiple is refused by the assertion; the file left by every failure |
| `Images.ImageHandler.AppendRaw` | aosp/avb/avbtool.v1.2.py:933-971 | content extended by the data, or unchanged with the stated error, the assertion on block multiples included, and the file left by every failure; without that assertion, a part of a block on a sparse file is written as it is, and the command raises because the file written is rejected |
| `Images.ImageHandler.AppendFill` | aosp/avb/avbtool.v1.2.py:973-1009 | content extended by the repeated pattern, or unchanged with the stated error, both assertions included, and the file left by every failure |
| `SparseEdit.CutExpands` | aosp/avb/avbtool.v1.2.py:1109-1152 | keeping the chunks before one and part of it keeps exactly that prefix of the expansion |
| `SparseEdit.HeaderRewritten` | aosp/avb/avbtool.v1.2.py:1118-1138 | rewriting one chunk header in place turns the file into the one with the shorter chunk |
| `SparseEdit.CountsAndCut` | aosp/avb/avbtool.v1.2.py:1144-1152 | rewriting the counts and cutting behind the last chunk leaves a stored image |
| `Images.CutPoint` | aosp/avb/avbtool.v1.2.py:1110-1117 | a multiple of the block size cuts a chunk at a block boundary |
| `Images.ImageHandler.KeepPart` | aosp/avb/avbtool.v1.2.py:1112-1138 | the branch inside a chunk, for RAW, FILL and DONT_CARE |
| `Images.ImageHandler.CountBlocks` | aosp/avb/avbtool.v1.2.py:1144-1147 | the loop over the kept chunks adds up the blocks of the shorter image |
| `Images.ImageHandler.CutSparse` | aosp/avb/avbtool.v1.2.py:1109-1152 | a smaller size leaves a file that parses, with matching counts, exactly the prefix of the content and the offsets of the chunks that start before it |
| `Images.ImageHandler.Truncate` | aosp/avb/avbtool.v1.2.py:1083-1155 | every branch: read-only, plain, misaligned, same size, smaller, larger; success means the content resized to the size, and a failure on a sparse image leaves its file alone |
| `Images.ValidReopens` | aosp/avb/avbtool.v1.2.py:762-881 | the objects that truncating and appending leave are on disk as well: _read_header accepts the file as it is and finds the same image in it |
| `ImageRuns.Step` | aosp/avb/avbtool.v1.2.py:714-1155 | one operation gives the reply, content and cursor of the same operation on a flat byte string if and only if its guard holds, on sparse and on plain files |
| `ImageRuns.Run` | aosp/avb/avbtool.v1.2.py:714-1155 | any run of seek, tell, read, truncate and the appends within the guards, which follow the chunk table, gives all replies and the final content and cursor of the run on a flat byte string |
| `ImageRuns.TruncateKeepsCursor` | aosp/avb/avbtool.v1.2.py:1105-1107 | a run on a concrete sparse file that shows it: truncating to its own size keeps the cursor |
| `ImageRuns.ReadMovesBack` | aosp/avb/avbtool.v1.2.py:1046-1073 | a run on a concrete sparse file that shows it: reading behind the end moves the cursor back |
| `ImageRuns.ShortPlainFails` | aosp/avb/avbtool.v1.2.py:1097-1100 | a run on a concrete plain file that shows it: truncating below 28 bytes fails after the file has been cut |
| `ImageRuns.NegativeFillBreaksFile` | aosp/avb/avbtool.v1.2.py:1000-1009 | a run on a concrete sparse file that shows it: append_fill of a negative size fails, and _read_header rejects the file it leaves |
| `HashTree.LevelShrinks` | aosp/avb/avbtool.v1.2.py:4014-4024 | with two entries to a block, a level is a positive number of whole blocks, at most half as many as below |
| `HashTree.LevelsNeverEnd` | aosp/avb/avbtool.v1.2.py:4014-4024 | when two entries do not fit a block, two or more blocks never become one: the loop does not end |
| `HashTree.LevelsAreBlocks` | aosp/avb/avbtool.v1.2.py:4014-4024 | every level size is a positive multiple of the block size and the last is one block |
| `HashTree.LevelCount` | aosp/avb/avbtool.v1.2.py:4014-4024 | at most ceil(log2(blocks)) levels |
| `HashTree.LevelsTile` | aosp/avb/avbtool.v1.2.py:4026-4032 | levels lie side by side from offset 0, the last first, up to the tree size |
| `HashTree.TreeSizeMonotone` | aosp/avb/avbtool.v1.2.py:4014-4032 | a larger image never has a smaller tree |
| `HashTreeBuild.CalcHashLevelOffsets` | aosp/avb/avbtool.v1.2.py:3998-4032 | the loops return the tree size and every level's offset |
| `HashTreeBuild.SumBehind` | aosp/avb/avbtool.v1.2.py:4026-4032 | the nested loops sum the sizes of the levels above each level |
| `HashTreeBuild.HashLevel` | aosp/avb/avbtool.v1.2.py:4129-4150 | the inner loop hashes every padded block, from the image or from the buffer |
| `HashTreeBuild.BuildLevels` | aosp/avb/avbtool.v1.2.py:4128-4166 | filling the flat buffer in place gives the root and tree of the recursion; no level overwrites another |
| `HashTreeBuild.GenerateHashTree` | aosp/avb/avbtool.v1.2.py:4098-4166 | root and tree of the recursion for every size of at least one block, the one-block image included; below one block it raises |
| `HashTree.LevelInTree` | aosp/avb/avbtool.v1.2.py:4156-4158 | each level is found in the tree at its own offset |
| `HashTree.RootBinds` | aosp/avb/avbtool.v1.2.py:4098-4166 | two images of one size with one root are equal, or a walk down the levels computes two inputs with one digest |
| `TreeBytes.TreeWritten` | aosp/avb/avbtool.v1.2.py:4098-4166 | the recursion computes the tree whose levels hold, for every block filled up with zeros, the digest behind the salt and zeros up to the entry width; the root is the digest of the topmost block |
| `TreeBytes.TreeIsUnique` | aosp/avb/avbtool.v1.2.py:4098-4166 | there is only one such tree |
| `TreeBytes.WidthIsEntry` | aosp/avb/avbtool.v1.2.py:3629-3631 | the entry width is the least power of two that is not below the digest size |
| `Utf8.DecodeOfEncode` | aosp/avb/avbtool.v1.2.py:1275-1313 | every string of code points that are no surrogates is decoded back from its UTF-8 encoding |
| `Utf8.EncodeOfDecode` | aosp/avb/avbtool.v1.2.py:1275-1313 | bytes that can be decoded are the encoding of the string they decode to, so that a name kept as bytes is its string |
| `Utf8.OneOfEach` | aosp/avb/avbtool.v1.2.py:1313 | one character of each encoded length, with its bytes |
| `Descriptors.ParseDescriptors` | aosp/avb/avbtool.v1.2.py:1938-1958 | the loop is the recursive parse of the blob, errors included, those of decoding names as well, and it ends |
| `Descriptors.PropertyReturns` | aosp/avb/avbtool.v1.2.py:1258-1322 | a property descriptor whose key is text is parsed back from its encoding |
| `Descriptors.HashtreeReturns` | aosp/avb/avbtool.v1.2.py:1389-1496 | a hashtree descriptor with all its fields, whose names are text, is parsed back from its encoding |
| `Descriptors.HashReturns` | aosp/avb/avbtool.v1.2.py:1585-1664 | a hash descriptor whose names are text is parsed back from its encoding |
| `Descriptors.KernelCmdlineReturns` | aosp/avb/avbtool.v1.2.py:1723-1777 | a kernel command-line descriptor whose command line is text is parsed back from its encoding |
| `Descriptors.ChainPartitionReturns` | aosp/avb/avbtool.v1.2.py:1819-1886 | a chain partition descriptor whose name is text is parsed back from its encoding |
| `Descriptors.UnknownReturns` | aosp/avb/avbtool.v1.2.py:1171-1216 | an unknown descriptor comes back with its data padded to a multiple of 8 |
| `Descriptors.ParseOfEncoding` | aosp/avb/avbtool.v1.2.py:1932-1958 | the class chosen by the tag parses the encoding back, and the encoding has the size its header says |
| `Descriptors.StreamRoundTrip` | aosp/avb/avbtool.v1.2.py:1938-1958 | parsing the concatenated encodings of any list of well-formed descriptors gives that list in order |
| `Descriptors.NormalizedIsStable` | aosp/avb/avbtool.v1.2.py:1204-1216 | padding happens once: the padded descriptor encodes to the same bytes and returns unchanged |
| `Descriptors.AcceptedIff` | aosp/avb/avbtool.v1.2.py:1258-1886 | an encoding is accepted by its class exactly if its names are text and the digest size is the algorithm's; text errors raise LookupError |
| `Descriptors.AcceptedIsComplete` | aosp/avb/avbtool.v1.2.py:1258-1886 | what a class accepts has its own tag and states its own length |
| `DescriptorBytes.PropertyBytes` | aosp/avb/avbtool.v1.2.py:1258-1322 | the encoding of a property: tag, length, two string lengths, the strings each with a NUL, zeros up to a multiple of 8 |
| `DescriptorBytes.HashtreeBytes` | aosp/avb/avbtool.v1.2.py:1389-1496 | the encoding of a hashtree descriptor: every number at its offset, then name, salt and root digest |
| `DescriptorBytes.HashBytes` | aosp/avb/avbtool.v1.2.py:1585-1664 | the encoding of a hash descriptor: every number at its offset, then name, salt and digest |
| `DescriptorBytes.KernelCmdlineBytes` | aosp/avb/avbtool.v1.2.py:1723-1777 | the encoding of a kernel command line |
| `DescriptorBytes.ChainPartitionBytes` | aosp/avb/avbtool.v1.2.py:1819-1886 | the encoding of a chain partition |
| `Vbmeta.TableConsistent` | aosp/avb/avbtool.v1.2.py:110-192 | in all six signed algorithms padding and digest fill the signature and the key blob holds two numbers of that size |
| `Vbmeta.HeaderRoundTrip` | aosp/avb/avbtool.v1.2.py:2090-2172 | the 256-byte header parses back to the same header, if its release string is text |
| `Vbmeta.FooterRoundTrip` | aosp/avb/avbtool.v1.2.py:1988-2022 | the 64-byte footer parses back to the same footer |
| `VbmetaBytes.AlgorithmTable` | aosp/avb/avbtool.v1.2.py:110-192 | digest, signature and key sizes of the six algorithms, and the padded digest of RFC 8017 that is signed, byte by byte |
| `VbmetaBytes.HeaderIsAt` | aosp/avb/avbtool.v1.2.py:2155-2172 | a packed header holds each number big-endian at its offset, then the release string and zeros |
| `VbmetaBytes.HeaderAccepted` | aosp/avb/avbtool.v1.2.py:2098-2117 | any 256 bytes with the magic and text as release string are a header with the numbers at these offsets; otherwise the error |
| `VbmetaBytes.FooterIsAt` | aosp/avb/avbtool.v1.2.py:2014-2022 | a packed footer holds magic, version, original size, offset and size of the blob at these offsets |
| `VbmetaBytes.FooterAccepted` | aosp/avb/avbtool.v1.2.py:1988-2012 | any 64 bytes with the magic are a footer with the numbers at these offsets; otherwise LookupError |
| `VbmetaBytes.TreeDigests` | aosp/avb/avbtool.v1.2.py:645-651 | trees may use BLAKE2b with 32 bytes, whatever the case of its name |
| `VbmetaBlob.EncodeDescriptors` | aosp/avb/avbtool.v1.2.py:3082-3085 | the loop extends the blob by every descriptor in order, or raises |
| `VbmetaBlob.GenerateVbmetaBlob` | aosp/avb/avbtool.v1.2.py:3057-3240 | the blob assembled from the parts, or the first error |
| `VbmetaBlob.LayoutInverse` | aosp/avb/avbtool.v1.2.py:3172-3240 | cutting a generated blob by its own header's fields gives back digest, signature, descriptors, key and metadata; ranges are in order, blocks are multiples of 64, the digest is over header and auxiliary block |
| `VbmetaBlob.GeneratedVerifies` | aosp/avb/avbtool.v1.2.py:536-643 | the verifier accepts every generated blob when recovering undoes signing; the modulus it decodes is the signing key's |
| `VbmetaBlob.SignatureBinds` | aosp/avb/avbtool.v1.2.py:536-643 | two accepted blobs with one key, algorithm and signature sign the same bytes, or the hash is broken |
| `VbmetaBytes.GeneratedBlob` | aosp/avb/avbtool.v1.2.py:3172-3240 | every generated blob, from its input: version, minor version, algorithm, rollback index, flags, location, release string, sizes and offsets at their places, and the two blocks behind the header |
| `VbmetaBytes.GeneratedSignature` | aosp/avb/avbtool.v1.2.py:3210-3233 | the digest is over the first 256 bytes and the last block, the signature is that of the padded digest |
| `VbmetaBytes.GeneratesIff` | aosp/avb/avbtool.v1.2.py:3057-3240 | a blob is generated exactly when algorithm, descriptors, key and header fit and the signer returns a signature of the right size |
| `VbmetaBytes.VerifiesIff` | aosp/avb/avbtool.v1.2.py:536-643 | a signed blob is accepted exactly if the stored digest is right and the signature recovers to the padded digest |
| `FooterLayout.EraseUndoesAdd` | aosp/avb/avbtool.v1.2.py:2235-2272 | what adding a footer wrote is undone by cutting to the footer's original size, unaligned content included |
| `FooterLayout.BlobStoredIff` | aosp/avb/avbtool.v1.2.py:3310-3317 | the finished image holds the blob where the footer says exactly when a block is left for the footer, or nothing but the footer block fits and the bytes it writes over happen to be its own |
| `FooterLayout.AttachingAgain` | aosp/avb/avbtool.v1.2.py:3254-3334 | attaching the same blob to what erasing gives back makes the same image, even where content was lost |
| `FooterLayout.ContentErasedIff` | aosp/avb/avbtool.v1.2.py:2235-2272 | erasing gives the content back exactly when the footer block does not reach into it, or writes over it the bytes it had |
| `FooterLayout.ParsesAsAdded` | aosp/avb/avbtool.v1.2.py:2743-2783 | the finished image parses to the footer, header and descriptors that were put in |
| `FooterLayout.ResizedParsesTheSame` | aosp/avb/avbtool.v1.2.py:2329-2374 | resizing keeps footer, header and descriptors and gives exactly the partition size |
| `FooterLayout.ResizingTwice` | aosp/avb/avbtool.v1.2.py:2329-2374 | resizing to one size and then to another equals resizing to the second |
| `FooterLayout.HashtreeFits` | aosp/avb/avbtool.v1.2.py:3637-3650 | an image that passes the size check leaves room for tree, blob and footer, with 4096-byte blocks and a blob of at most 64 KiB |
| `FooterLayout.HashFits` | aosp/avb/avbtool.v1.2.py:3407-3458 | the same for a hash footer |
| `FooterLayout.ZeroingKeepsTheRest` | aosp/avb/avbtool.v1.2.py:2299-2327 | zeroing keeps the size exactly when the ranges are not empty, and every byte outside them |
| `FooterLayout.ZeroedBytes` | aosp/avb/avbtool.v1.2.py:2299-2327 | the zeroed ranges hold the eight bytes of the marker and zeros, and every other byte is the old one |
| `VbmetaBytes.FinishedBytes` | aosp/avb/avbtool.v1.2.py:3294-3329 | a finished image with room: content and tree, the blob, zeros, and the footer in its last 64 bytes with its numbers |
| `FooterCommands.ParseImage` | aosp/avb/avbtool.v1.2.py:2743-2783 | the reads and parses in order, on plain and sparse images, offsets behind the end included |
| `FooterCommands.ParsedInside` | aosp/avb/avbtool.v1.2.py:2743-2783 | on plain images, and on sparse ones whose offsets lie inside, that is the parse of the content as a flat byte string |
| `FooterCommands.LoadVbmetaBlob` | aosp/avb/avbtool.v1.2.py:2785-2816 | header, then header and both blocks, offsets behind the end included |
| `VbmetaBytes.BlobLoaded` | aosp/avb/avbtool.v1.2.py:2785-2816 | a generated blob is loaded whole, from a file of its own and from every finished image |
| `FooterCommands.TrimToOriginal` | aosp/avb/avbtool.v1.2.py:3273-3286 | an existing footer is dropped with all it added, exactly unless a sparse image has an original size that is no block multiple; then the image is left as it is |
| `FooterCommands.Grow` | aosp/avb/avbtool.v1.2.py:3294-3299 | a plain image is padded to whole blocks |
| `FooterCommands.AppendGap` | aosp/avb/avbtool.v1.2.py:3314-3317 | zeros up to the last block; a plain image that is too long is cut there instead; it succeeds exactly when the gap fits |
| `FooterCommands.Attach` | aosp/avb/avbtool.v1.2.py:3294-3329 | padding, blob, gap and footer; on sparse images exactly when there is room and every count fits its field, on plain ones always; on failure what is left is a beginning of it |
| `FooterCommands.Restore` | aosp/avb/avbtool.v1.2.py:3331-3334 | the undo of a failed command: the content cut or grown to its original size and a file that opens, except that a sparse image already of that size keeps its file; or the error that the undo itself raises |
| `FooterCommands.AppendVbmetaImage` | aosp/avb/avbtool.v1.2.py:3254-3334 | success exactly when the blob loads, the sizes are aligned and blob, gap and footer fit; then the finished image, written so that the next command can run; on failure the original content, except where a plain image had no block left, in a file that opens exactly unless the first chunk that lengthens a sparse image was counted and could not be written |
| `FooterRuns.AppendTwice` | aosp/avb/avbtool.v1.2.py:3254-3334 | on one object, append_vbmeta_image a second time with the same blob succeeds and changes nothing; a sparse image needs a non-empty blob |
| `FooterRuns.AppendThenErase` | aosp/avb/avbtool.v1.2.py:2235-3334 | on one object, erase_footer after append_vbmeta_image gives the content back, always on sparse images and on plain ones exactly when no part of it made room for the footer block; it succeeds if the blob parses and a block is left |
| `FooterLosses.AppendWithoutRoom` | aosp/avb/avbtool.v1.2.py:3314-3317 | a run on a concrete plain image: two blocks of ones in a partition of two blocks report success, the blob is not stored and erasing does not give the ones back |
| `FooterLosses.AppendToOneBlock` | aosp/avb/avbtool.v1.2.py:3331-3334 | a run on a concrete plain image: in a partition of one block the command fails, and the content it restores is zeros |
| `FooterEdits.FindHashtree` | aosp/avb/avbtool.v1.2.py:2257-2269 | the loop returns the first hashtree descriptor |
| `FooterEdits.EraseFooter` | aosp/avb/avbtool.v1.2.py:2235-2272 | every outcome, with the exact condition for success; without keep_hashtree the original content, with it everything up to the end of tree and FEC data; a failure on a sparse image leaves the content, success leaves an image the next command can use |
| `FooterEdits.ResizeImage` | aosp/avb/avbtool.v1.2.py:2329-2374 | every outcome, with the content left by a failure and whether its file opens; success means blob and footer block at the ends of the resized image |
| `FooterRuns.ChunksLeft` | aosp/avb/avbtool.v1.2.py:2365-2367 | cutting a resized sparse image at the end of its blob leaves one chunk more than before when the gap was empty |
| `FooterEdits.MovesIff` | aosp/avb/avbtool.v1.2.py:2365-2374 | once the checks have passed, resizing succeeds exactly when the chunk counts of the resized sparse image fit, or the plain image is not cut to nothing |
| `FooterRuns.ResizeTwice` | aosp/avb/avbtool.v1.2.py:2329-2374 | on one object, resizing to one size and then to another gives the footer, blob and content of resizing to the second; the second succeeds exactly when it is aligned, large enough and the counts fit |
| `FooterEdits.ZeroHashtree` | aosp/avb/avbtool.v1.2.py:2274-2327 | every outcome, with the content left by a failure at any step and whether its file opens; success means marker and zeros in the ranges and the old bytes around them |
| `FooterEdits.ZeroesIff` | aosp/avb/avbtool.v1.2.py:2299-2327 | once the checks have passed, zeroing a sparse image succeeds exactly when no range is empty, what follows them fits one chunk and the chunks can be counted; a plain image exactly when the tree is not at its very front |
| `FooterEdits.EmptyTreeLosesFooter` | aosp/avb/avbtool.v1.2.py:2320-2323 | on every sparse image with an empty tree the command fails after it cut blob and footer off, and the file it leaves opens exactly if the chunk that could not be written could not be counted either |
| `FooterLosses.ZeroUnhashed` | aosp/avb/avbtool.v1.2.py:2299-2327 | on one object, zero_hashtree after add_hashtree_footer with no_hashtree: a plain image grows by a block; a sparse one fails, has no footer any more, and its file does not open |
| `HashFooters.AddHashFooter` | aosp/avb/avbtool.v1.2.py:3336-3549 | every outcome, with the exact condition for success; success means the finished image with the blob for the trimmed content, written so that the next command can run; after a failure the exact condition under which the file opens |
| `HashFooters.MakeHashBlob` | aosp/avb/avbtool.v1.2.py:3473-3501 | the blob generated for the hash descriptor of the whole content, in front of the further descriptors; `HashVerify.AddThenParse` says what the digest is over |
| `HashFooters.HashFooterRoundTrip` | aosp/avb/avbtool.v1.2.py:3427-3549 | the finished bytes show the footer with the original size, and dropping what it says was added gives the content back |
| `HashFooters.HashAddedMeans` | aosp/avb/avbtool.v1.2.py:3427-3549 | what success and failure say, for fixed and for dynamic partition sizes: room for the content and the finished image, or the content as it was, at most without an old footer |
| `FooterRuns.AddTwice` | aosp/avb/avbtool.v1.2.py:3336-3549 | on one object, plain or sparse, add_hash_footer a second time succeeds and leaves the content of the first |
| `FooterRuns.AddThenErase` | aosp/avb/avbtool.v1.2.py:2235-3549 | on one object, plain or sparse, erase_footer after add_hash_footer gives the original content back; it succeeds if the blob parses, which on plain images means at most 64 KiB |
| `HashFooters.HashFooterParses` | aosp/avb/avbtool.v1.2.py:2743-2783 | the finished image parses to the hash descriptor and the further descriptors whenever there is room |
| `HashVerify.AddThenParse` | aosp/avb/avbtool.v1.2.py:3336-3549 | on one object, parsing the image that add_hash_footer finished gives size, salt and digest over salt and content, the flags, and a header with rollback index, flags, location and required minor version from the arguments |
| `HashVerify.Verify` | aosp/avb/avbtool.v1.2.py:1666-1703 | the digest over the salt and what is read from the cursor on must match, unless there is none |
| `HashVerify.VerifiedIsOriginal` | aosp/avb/avbtool.v1.2.py:1666-1703 | data that verify against a digest are the original, or two different inputs with one digest are at hand |
| `HashVerify.AddThenVerify` | aosp/avb/avbtool.v1.2.py:1666-3549 | opened anew, the finished image is accepted by the descriptor that is found in it |
| `HashVerify.AddThenVerifyNameless` | aosp/avb/avbtool.v1.2.py:2538-2583 | without a partition name it is accepted exactly if there is no digest or what follows the blob has the digest of the content |
| `HashVerify.NamelessIsRejected` | aosp/avb/avbtool.v1.2.py:2538-2583 | that takes the content itself behind the blob, or two different inputs with one digest |
| `HashVerify.Refuses` | aosp/avb/avbtool.v1.2.py:3407-3458 | partition sizes below 69632 bytes, unaligned ones, and contents that leave less than 69632 bytes are refused |
| `HashtreeFooters.MaxImageSizeFor` | aosp/avb/avbtool.v1.2.py:3637-3650 | partition size less tree and metadata allowance; nothing for partition size 0 |
| `HashtreeFooters.RoundUp` | aosp/avb/avbtool.v1.2.py:3688-3696 | content padded to the hash block size; on sparse images exactly when the counts fit |
| `HashtreeFooters.AttachTree` | aosp/avb/avbtool.v1.2.py:3718-3828 | tree, descriptor, blob, gap and footer behind the data, on plain and sparse images, with the exact condition for success |
| `HashtreeFooters.AddHashtreeFooter` | aosp/avb/avbtool.v1.2.py:3551-3833 | every outcome; success exactly when arguments, sizes, blob and, on sparse images, the fields of all new chunks fit; then data, tree, blob and footer are in place and the next command can run; failure leaves the content, and the file opens exactly unless the first chunk behind it was counted and could not be written |
| `HashtreeFooters.CanAddTreeIff` | aosp/avb/avbtool.v1.2.py:3688-3833 | the condition for success, written over the sizes a caller knows, is that every step on the way has its room |
| `TreeRuns.AddTreeTwice` | aosp/avb/avbtool.v1.2.py:3551-3833 | on one object, plain or sparse, add_hashtree_footer a second time succeeds and leaves the content of the first |
| `TreeRuns.AddTreeThenErase` | aosp/avb/avbtool.v1.2.py:2235-3833 | on one object, erase_footer after add_hashtree_footer gives the original content back; it succeeds if the descriptors parse and, on plain images, data, tree, blob and footer block have room |
| `TreeRuns.AddTreeThenVerify` | aosp/avb/avbtool.v1.2.py:1498-3833 | on one object, the descriptor add_hashtree_footer made verifies the finished image, with any block size: accepted unless the tree was left out, zeroed trees are not accepted and there is more than one block; plain images need room for all parts |
| `TreeRuns.AddTreeThenCheck` | aosp/avb/avbtool.v1.2.py:1498-3833 | the same with the descriptor that parsing the finished image finds |
| `ZeroRuns.AddThenZero` | aosp/avb/avbtool.v1.2.py:2274-3833 | on one object, zero_hashtree after add_hashtree_footer succeeds exactly when what follows the tree fits one chunk of a sparse image; only the tree changes, to marker and zeros, and the image parses to the same footer, header and descriptors |
| `ZeroRuns.AddZeroThenCheck` | aosp/avb/avbtool.v1.2.py:1498-3833 | on one object, the descriptor found in the zeroed image verifies it exactly if zeroed trees are accepted, or the tree was the marker and zeros to begin with |
| `ZeroRuns.AddZeroThenErase` | aosp/avb/avbtool.v1.2.py:2235-3833 | on one object, erase_footer after zero_hashtree gives the original content back |
| `HashtreeVerify.Verify` | aosp/avb/avbtool.v1.2.py:1498-1556 | the root must match unless it is absent, and the stored tree must match unless it is zeroed and that is accepted; a tree behind the end of a sparse image gives what reading there gives |
| `HashtreeVerify.AcceptsWhatWasAdded` | aosp/avb/avbtool.v1.2.py:1498-1556 | the descriptor accepts the image it was written into; with no_hashtree only if zeroed trees are accepted or the image is one block |
| `HashtreeVerify.VerifiedIsOriginal` | aosp/avb/avbtool.v1.2.py:1498-1556 | content that verifies against an embedded root is the original data, or the hash is broken by a computed pair |
| `TreeBytes.JudgedMeans` | aosp/avb/avbtool.v1.2.py:1498-1556 | the verdict, written out: root digest absent or that of the topmost block of the image's tree, and the tree on disk is that tree or, if accepted, zeroed |
| `TreeBytes.AddTreeThenParse` | aosp/avb/avbtool.v1.2.py:3551-3833 | on one object, the image that add_hashtree_footer finished holds data and tree written out, and parses to a descriptor and header with all numbers from the arguments |
| `TreeBytes.Refuses` | aosp/avb/avbtool.v1.2.py:3637-3686 | unaligned sizes are refused, and success leaves room for the tree of a whole partition and 69632 bytes |
| `HashtreeVerify.FinishedImage` | aosp/avb/avbtool.v1.2.py:3551-3833 | with room for all parts and any block size, the finished image has exactly the partition size, holds data and tree whole, erasing gives the content back, and its own descriptor accepts it unless the tree was left out |
| `HashtreeVerify.FinishedImageParses` | aosp/avb/avbtool.v1.2.py:2743-2783 | with room for all parts and any block size, the finished image parses to the hashtree descriptor and the further descriptors |
| `HashtreeVerify.RoomWhen` | aosp/avb/avbtool.v1.2.py:3637-3833 | a sparse image that meets the condition for success has that room; a plain one of 4096-byte blocks has it if the blob is at most 64 KiB |
| `DtboFormat.UnpackOfPack` | aosp/system/libufdt/utils/src/mkdtboimg.py:238-264 | the big-endian words of header and table are read back |
| `DtboFormat.DecimalSurvivesParser` | aosp/system/libufdt/utils/src/mkdtboimg.py:54-76 | every number written in decimal comes back through the number-or-property parser, zero despite the octal rule |
| `DtboFormat.NumbersRead` | aosp/system/libufdt/utils/src/mkdtboimg.py:54-76 | decimal, hexadecimal and octal arguments, read |
| `DtboFormat.NumbersRefused` | aosp/system/libufdt/utils/src/mkdtboimg.py:54-76 | signs, foreign digits and missing digits raise |
| `DtboFormat.PackIsSound` | aosp/system/libufdt/utils/src/mkdtboimg.py:478-525 | de-duplication never hands out someone else's bytes: every extent holds its own payload, and two extents are equal or disjoint |
| `DtboFormat.StoredWholeIff` | aosp/system/libufdt/utils/src/mkdtboimg.py:444-476 | an uncompressed file is stored whole exactly when its handle stands at the start or the file is empty |
| `DtboFormat.ReadHandleLosesBytes` | aosp/system/libufdt/utils/src/mkdtboimg.py:444-476 | a concrete case that shows it: of a file of two bytes whose handle stands behind the first, only the second is packed |
| `Dtbo.DtboImage.FindDtEntryWithSameFile` | aosp/system/libufdt/utils/src/mkdtboimg.py:370-386 | the first earlier entry with the same path and compression, if any |
| `Dtbo.DtboImage.AddDtEntries` | aosp/system/libufdt/utils/src/mkdtboimg.py:478-525 | offsets, sizes and total size of all entries, and the packed bytes |
| `Dtbo.DtboImage.UpdateMetadata` | aosp/system/libufdt/utils/src/mkdtboimg.py:270-282 | the array filled in loops is header and entry table, or the first error: a number does not fit its word, or an entry lacks a field that the version of the image asks for |
| `Dtbo.DtboImage.Commit` | aosp/system/libufdt/utils/src/mkdtboimg.py:558-581 | the file is overwritten from its start by metadata and packed entries, or is untouched after the stated error |
| `Dtbo.DtboImage.Read` | aosp/system/libufdt/utils/src/mkdtboimg.py:284-368 | exactly the readable files give an object with the file's header and entries |
| `Dtbo.DtboImage.ExtractDtFile` | aosp/system/libufdt/utils/src/mkdtboimg.py:527-556 | the entry's extent, decompressed on request, or the error of decompressing; a negative index counts from the end, out-of-range indexes raise, one past the end differently |
| `Dtbo.FieldsSurviveReading` | aosp/system/libufdt/utils/src/mkdtboimg.py:344-368 | the words of an entry pass through the parser unchanged for versions 0 and 1 |
| `Dtbo.CommittedFileReadsBack` | aosp/system/libufdt/utils/src/mkdtboimg.py:270-368 | the committed file is readable and gives the same header words and table, and is as long as header, table and packed bytes |
| `Dtbo.ExtentsReadBack` | aosp/system/libufdt/utils/src/mkdtboimg.py:478-556 | each extent of the committed file holds exactly its entry's bytes |
| `Dtbo.CreateDtboImage` | aosp/system/libufdt/utils/src/mkdtboimg.py:840-855 | succeeds exactly when there are entries, all of the version of the image and of known formats, and every number fits its word; then the image reads back as its own header and entries, has the size it declares and holds every payload |
| `Dtbo.EntriesReadBack` | aosp/system/libufdt/utils/src/mkdtboimg.py:284-368 | the object read from a created file has entries with the extents and formats of those put in |
| `Dtbo.CreateThenExtract` | aosp/system/libufdt/utils/src/mkdtboimg.py:527-855 | creating an image, reading its file and extracting entry i with decompression gives the file that entry was made from, if decompressing undoes compressing |
| `Dtbo.CreateThenInspect` | aosp/system/libufdt/utils/src/mkdtboimg.py:220-264 | the file of a created image, word by word: magic, sizes, count, offset, page size and version, and for every entry size, offset, id, revision and the fields of its version |
| `Dtbo.ReadableIff` | aosp/system/libufdt/utils/src/mkdtboimg.py:284-342 | which files can be read, by the bytes of their headers |
| `Dtbo.FormatBits` | aosp/system/libufdt/utils/src/mkdtboimg.py:139-148 | the low four bits of a version 1 entry's flags name its format |
| `Dtbo.OverwrittenFromStart` | aosp/system/libufdt/utils/src/mkdtboimg.py:558-581 | the output file is overwritten from its start and not cut |
| `F2fs.GatherSitInfo` | aosp/system/extras/f2fs_utils/f2fs_sparseblock.c:300-325 | every SIT block is read from the copy its bitmap bit selects, or the read fails |
| `F2fs.SegmentInTable` | aosp/system/extras/f2fs_utils/f2fs_sparseblock.c:300-307 | every block of the main area has its SIT index below the number of blocks allocated |
| `F2fs.SitBlocksNeeded` | aosp/system/extras/f2fs_utils/f2fs_sparseblock.c:300-307 | the SIT blocks that are read hold an entry for every segment and are no more than that takes |
| `F2fs.LookUpEntry` | aosp/system/extras/f2fs_utils/f2fs_sparseblock.c:488-504 | the journal overrides the SIT area |
| `F2fs.RunOnUsedBlocks` | aosp/system/extras/f2fs_utils/f2fs_sparseblock.c:467-518 | the walk with segment skipping makes exactly the planned calls in order, up to the first that fails |
| `F2fs.UsedFromMeaning` | aosp/system/extras/f2fs_utils/f2fs_sparseblock.c:467-518 | the used blocks are those below the main area or with their valid bit set, each once, in increasing order |
| `F2fs.BitOfByte` | aosp/system/extras/f2fs_utils/f2fs_sparseblock.c:458-465 | the first of eight blocks has the highest bit of its byte |
| `F2fs.FourSegmentsUsed` | aosp/system/extras/f2fs_utils/f2fs_sparseblock.c:467-518 | a concrete file system of four segments, two entries to a block and one in the journal, with its used blocks |
| `F2fs.WalkIsExactIff` | aosp/system/extras/f2fs_utils/f2fs_sparseblock.c:506-511 | the skipping walk calls back on exactly the used blocks if and only if every skipped segment has an empty bitmap |
| `F2fs.MiscountedBlockIsMissed` | aosp/system/extras/f2fs_utils/f2fs_sparseblock.c:506-511 | a concrete file system that shows it: one segment with count zero and its first bit set, whose block gets no call |
| `F2fs.NumBlocksUsedIsWalkLength` | aosp/system/extras/f2fs_utils/f2fs_sparseblock.c:454-456 | the reported number of used blocks is the number of calls exactly when the checkpoint's count is the number of valid bits |
| `BootConfig.Checksum` | aosp/libxbc/libxbc.c:33-39 | the loop sums the bytes modulo 2^32 |
| `BootConfig.IsTrailerPresent` | aosp/libxbc/libxbc.c:48-51 | whether the magic precedes the address |
| `BootConfig.AddBootConfigTrailer` | aosp/libxbc/libxbc.c:89-118 | memory and result of the call for every branch |
| `BootConfig.AddBootConfigParameters` | aosp/libxbc/libxbc.c:56-84 | memory and result of the call for every branch |
| `BootConfig.AddKeepsLayout` | aosp/libxbc/libxbc.c:56-118 | one call extends the text, leaves everything before the section alone, and leaves exactly one trailer if and only if the longer text does not itself look terminated |
| `BootConfig.TrailerIsIdempotent` | aosp/libxbc/libxbc.c:99-102 | a second trailer call changes nothing |
| `BootConfig.RunInvariant` | aosp/libxbc/libxbc.c:56-118 | any run from an empty section holds the joined parameters and one trailer with their length, byte sum and magic; the results add up to the section size; room for one trailer is enough |
| `BootConfig.SectionBytes` | aosp/libxbc/libxbc.c:89-118 | a section, byte by byte: the text, its length and the sum of its bytes, lowest byte first, and the magic text |
| `BootConfig.TwoLetters` | aosp/libxbc/libxbc.c:89-118 | the twenty bytes that a call writes behind two letters |
| `BootConfig.MagicTextLosesTrailer` | aosp/libxbc/libxbc.c:99-102 | the case that shows why: text that is the magic gets no trailer, and what is left is no section of that size with any text |

## Left out

- Images.ImageHandler.Open: a sparse file with CRC32 chunks, with block size zero, or shorter than its headers say is opened as in the code, but nothing is promised about the operations on it.
- HashTreeBuild.GenerateHashTree: an image shorter than the given size; on a plain file the code would read on without end.
- VbmetaBlob.GenerateVbmetaBlob: chain partitions, properties, command lines and descriptors of other images arrive as one list of descriptors; the release string is given.
- FooterCommands.AppendVbmetaImage: the two images are different files.
- FooterCommands.TrimToOriginal: a footer whose original size leaves a plain file of fewer than 28 bytes, or makes a sparse one grow beyond its fields, is not modelled, in this and in the commands that add a footer.
- HashtreeFooters.AddHashtreeFooter: no FEC; the hash block size is a multiple of the image's block size, and a block holds two digests.
- HashVerify.Verify: the handler to read from is given; finding a partition's file by its name is left out.
- HashtreeVerify.Verify: the descriptor describes the image it is in and no more of it than there is; looking up another partition's file is left out.
- FooterEdits.ZeroHashtree: only images of whole blocks whose ranges are whole blocks inside the image.
- HashFooters.AddHashFooter: blocks of fewer than 64 bytes, which cannot hold a footer, are left out in all footer commands.
- DtboFormat.DecimalSurvivesParser: the number parser accepts decimal, octal and hexadecimal digits, without the underscores and blanks that Python also allows.
- Dtbo.CreateDtboImage: argument and configuration parsing, and entry offsets larger than the header, are left out.
- BootConfig.AddBootConfigParameters: addresses are indexes into one array, the call must stay inside it, and sizes stay below 2^31.
- F2fs.GatherSitInfo: the bitmap has a bit for every SIT block, as the code reads behind it otherwise; the on-disk structures come from a header that is not part of this model; their sizes are fields of the state.
- FEC data, openssl, temporary files, random salts, command-line parsing and printing are foreign or user interface.
- make_vbmeta_image, verify_image's loop over descriptors, certificates, A/B metadata and DTBO configuration files would only add easier members.
- mkbootimg, skipcpio, the scripts and the tools of other directories are not modelled.
