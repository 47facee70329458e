/** The encodings of the five descriptors byte by byte: which number or string stands at which offset. */
module DescriptorBytes {
  import opened Bytes
  import opened Descriptors
  import opened Wrappers

  /** What all descriptors begin with: their tag, and the number of bytes behind the first 16. */
  ghost predicate Tagged(e: seq<byte>, tag: nat) {
    16 <= |e| && |e| % 8 == 0 && DecodeBE(e[0..8]) == tag && DecodeBE(e[8..16]) == |e| - 16
  }

  /** The strings behind the fixed part, and zeros up to a multiple of 8. */
  ghost predicate Behind(e: seq<byte>, at: nat, body: seq<byte>) {
    && at + |body| <= |e| < at + |body| + 8 && e[at..at + |body|] == body
    && forall i :: at + |body| <= i < |e| ==> e[i] == 0
  }

  lemma Encoded(d: Descriptor, e: seq<byte>)
    requires Encode(d) == Ok(e) && (d.Unknown? ==> d.tag >= 5)
    ensures Tagged(e, Tag(d)) && Behind(e, FixedSize(Tag(d)), Body(d))
    ensures Sum(Widths(Tag(d))) == FixedSize(Tag(d)) <= |e|
    ensures Split(Widths(Tag(d)), e[..FixedSize(Tag(d))]) == AllFields(d)
  {
    hide Header, Body, BE, DecodeBE, Widths, Split, AllFields, Sum, Fields;
    HeaderSplits(d);
    HeaderStarts(d);
    EncodedSize(d);
    HeadAndTail(Header(d), Body(d), Padding(d), e);
  }

  lemma HeadAndTail(header: seq<byte>, body: seq<byte>, padding: seq<byte>, e: seq<byte>)
    requires e == header + body + padding && |header| >= 16 && forall i :: 0 <= i < |padding| ==> padding[i] == 0
    ensures e[..|header|] == header && e[|header|..|header| + |body|] == body
    ensures forall i :: |header| + |body| <= i < |e| ==> e[i] == 0
    ensures e[0..8] == e[..8]
  {
    forall i | |header| + |body| <= i < |e|
      ensures e[i] == 0
    {
      assert e[i] == padding[i - |header| - |body|];
    }
  }

  /** A property: two lengths, then key and value, each with a NUL behind it. */
  lemma PropertyBytes(d: Descriptor, e: seq<byte>)
    requires d.Property? && Encode(d) == Ok(e)
    ensures Tagged(e, 0) && Behind(e, 32, d.key + [0] + d.value + [0])
    ensures DecodeBE(e[16..24]) == |d.key| && DecodeBE(e[24..32]) == |d.value|
  {
    hide Header, Padding, DecodeBE, AllFields, Split, Sum, Int;
    Encoded(d, e);
    PropertyFields(d);
    var f, w := AllFields(d), Widths(0);
    FirstTwo(w, f, e);
    NextField(w, f, e, 2, 16);
    NextField(w, f, e, 3, 24);
    IntOf(f, 2);
    IntOf(f, 3);
  }

  lemma FirstTwo(w: seq<nat>, f: seq<seq<byte>>, e: seq<byte>)
    requires 2 <= |w| == |f| && w[0] == 8 && w[1] == 8 && Sum(w) <= |e| && Split(w, e[..Sum(w)]) == f
    ensures Sum(w[..2]) == 16
  {
    hide Sum, Split;
    NoWidths(w);
    NextField(w, f, e, 0, 0);
    NextField(w, f, e, 1, 8);
  }

  lemma IntOf(f: seq<seq<byte>>, i: nat)
    requires i < |f|
    ensures Int(f, i) == DecodeBE(f[i])
  {
  }

  /** A kernel command line. */
  lemma KernelCmdlineBytes(d: Descriptor, e: seq<byte>)
    requires d.KernelCmdline? && Encode(d) == Ok(e)
    ensures Tagged(e, 3) && Behind(e, 24, d.kernelCmdline)
    ensures DecodeBE(e[16..20]) == d.flags && DecodeBE(e[20..24]) == |d.kernelCmdline|
  {
    hide Header, Padding, DecodeBE, Split, Sum, BE;
    Encoded(d, e);
    var f, w := AllFields(d), Widths(3);
    FirstTwo(w, f, e);
    NextField(w, f, e, 2, 16);
    NextField(w, f, e, 3, 20);
    DecodeField(d.flags, 4);
    DecodeField(|d.kernelCmdline|, 4);
  }

  /** A chain partition. */
  lemma ChainPartitionBytes(d: Descriptor, e: seq<byte>)
    requires d.ChainPartition? && Encode(d) == Ok(e)
    ensures Tagged(e, 4) && Behind(e, 92, d.partitionName + d.publicKey)
    ensures DecodeBE(e[16..20]) == d.rollbackIndexLocation && DecodeBE(e[20..24]) == |d.partitionName|
    ensures DecodeBE(e[24..28]) == |d.publicKey| && e[28..92] == Zeros(64)
  {
    hide Header, Padding, DecodeBE, Split, Sum, BE;
    Encoded(d, e);
    var f, w := AllFields(d), Widths(4);
    FirstTwo(w, f, e);
    NextField(w, f, e, 2, 16);
    NextField(w, f, e, 3, 20);
    NextField(w, f, e, 4, 24);
    NextField(w, f, e, 5, 28);
    DecodeField(d.rollbackIndexLocation, 4);
    DecodeField(|d.partitionName|, 4);
    DecodeField(|d.publicKey|, 4);
  }

  /** A hash descriptor. */
  lemma HashBytes(d: Descriptor, e: seq<byte>)
    requires d.Hash? && Encode(d) == Ok(e)
    ensures Tagged(e, 2) && Behind(e, 132, d.partitionName + d.salt + d.digest)
    ensures DecodeBE(e[16..24]) == d.imageSize && e[24..56] == Fixed(d.hashAlgorithm, 32)
    ensures DecodeBE(e[56..60]) == |d.partitionName| && DecodeBE(e[60..64]) == |d.salt|
    ensures DecodeBE(e[64..68]) == |d.digest| && DecodeBE(e[68..72]) == d.flags && e[72..132] == Zeros(60)
  {
    hide Header, Padding, DecodeBE, Split, Sum, AllFields, Int;
    Encoded(d, e);
    var f, w := AllFields(d), Widths(2);
    HashFields(d);
    Reserved(d);
    FirstTwo(w, f, e);
    NextField(w, f, e, 2, 16);
    NextField(w, f, e, 3, 24);
    NextField(w, f, e, 4, 56);
    NextField(w, f, e, 5, 60);
    NextField(w, f, e, 6, 64);
    NextField(w, f, e, 7, 68);
    NextField(w, f, e, 8, 72);
    forall i | 0 <= i < |f|
      ensures Int(f, i) == DecodeBE(f[i])
    {
      IntOf(f, i);
    }
  }

  lemma Reserved(d: Descriptor)
    ensures d.Hash? ==> |AllFields(d)| == 9 && AllFields(d)[8] == Zeros(60)
    ensures d.Hashtree? ==> |AllFields(d)| == 17 && AllFields(d)[16] == Zeros(60)
  {
    hide BE, Fixed;
  }

  /** A hashtree descriptor. */
  lemma HashtreeBytes(d: Descriptor, e: seq<byte>)
    requires d.Hashtree? && Encode(d) == Ok(e)
    ensures Tagged(e, 1) && Behind(e, 180, d.partitionName + d.salt + d.rootDigest)
    ensures DecodeBE(e[16..20]) == d.version && DecodeBE(e[20..28]) == d.imageSize
    ensures DecodeBE(e[28..36]) == d.treeOffset
    ensures DecodeBE(e[36..44]) == d.treeSize && DecodeBE(e[44..48]) == d.dataBlockSize
    ensures DecodeBE(e[48..52]) == d.hashBlockSize && DecodeBE(e[52..56]) == d.fecNumRoots
    ensures DecodeBE(e[56..64]) == d.fecOffset && DecodeBE(e[64..72]) == d.fecSize
    ensures e[72..104] == Fixed(d.hashAlgorithm, 32) && DecodeBE(e[104..108]) == |d.partitionName|
    ensures DecodeBE(e[108..112]) == |d.salt| && DecodeBE(e[112..116]) == |d.rootDigest|
    ensures DecodeBE(e[116..120]) == d.flags && e[120..180] == Zeros(60)
  {
    hide Header, Padding, DecodeBE, Split, Sum, AllFields, Int, FrontAt, BackAt, HashtreeIn;
    Encoded(d, e);
    HashtreeFields(d);
    Reserved(d);
    HashtreeFront(AllFields(d), e);
    HashtreeBack(AllFields(d), e);
    HashtreeRead(d, AllFields(d), e);
  }

  ghost predicate FrontAt(e: seq<byte>, f: seq<seq<byte>>) {
    && |f| == 17 && 64 <= |e| && e[16..20] == f[2] && e[20..28] == f[3] && e[28..36] == f[4] && e[36..44] == f[5]
    && e[44..48] == f[6] && e[48..52] == f[7] && e[52..56] == f[8] && e[56..64] == f[9]
  }

  ghost predicate BackAt(e: seq<byte>, f: seq<seq<byte>>) {
    && |f| == 17 && 180 <= |e| && e[64..72] == f[10] && e[72..104] == f[11] && e[104..108] == f[12]
    && e[108..112] == f[13] && e[112..116] == f[14] && e[116..120] == f[15] && e[120..180] == f[16]
  }

  lemma HashtreeFront(f: seq<seq<byte>>, e: seq<byte>)
    requires |f| == 17 && Sum(Widths(1)) <= |e| && Split(Widths(1), e[..Sum(Widths(1))]) == f
    ensures FrontAt(e, f) && Sum(Widths(1)[..10]) == 64
  {
    hide Sum, Split;
    var w := Widths(1);
    FirstTwo(w, f, e);
    NextField(w, f, e, 2, 16);
    NextField(w, f, e, 3, 20);
    NextField(w, f, e, 4, 28);
    NextField(w, f, e, 5, 36);
    NextField(w, f, e, 6, 44);
    NextField(w, f, e, 7, 48);
    NextField(w, f, e, 8, 52);
    NextField(w, f, e, 9, 56);
  }

  lemma HashtreeBack(f: seq<seq<byte>>, e: seq<byte>)
    requires |f| == 17 && Sum(Widths(1)) <= |e| && Split(Widths(1), e[..Sum(Widths(1))]) == f
    requires Sum(Widths(1)[..10]) == 64
    ensures BackAt(e, f)
  {
    hide Sum, Split;
    var w := Widths(1);
    NextField(w, f, e, 10, 64);
    NextField(w, f, e, 11, 72);
    NextField(w, f, e, 12, 104);
    NextField(w, f, e, 13, 108);
    NextField(w, f, e, 14, 112);
    NextField(w, f, e, 15, 116);
    NextField(w, f, e, 16, 120);
  }

  lemma HashtreeRead(d: Descriptor, f: seq<seq<byte>>, e: seq<byte>)
    requires d.Hashtree? && |f| == 17 && HashtreeIn(f, d) && FrontAt(e, f) && BackAt(e, f)
    requires f[11] == Fixed(d.hashAlgorithm, 32) && f[16] == Zeros(60)
    ensures DecodeBE(e[16..20]) == d.version && DecodeBE(e[20..28]) == d.imageSize
    ensures DecodeBE(e[28..36]) == d.treeOffset
    ensures DecodeBE(e[36..44]) == d.treeSize && DecodeBE(e[44..48]) == d.dataBlockSize
    ensures DecodeBE(e[48..52]) == d.hashBlockSize && DecodeBE(e[52..56]) == d.fecNumRoots
    ensures DecodeBE(e[56..64]) == d.fecOffset && DecodeBE(e[64..72]) == d.fecSize
    ensures e[72..104] == Fixed(d.hashAlgorithm, 32) && DecodeBE(e[104..108]) == |d.partitionName|
    ensures DecodeBE(e[108..112]) == |d.salt| && DecodeBE(e[112..116]) == |d.rootDigest|
    ensures DecodeBE(e[116..120]) == d.flags && e[120..180] == Zeros(60)
  {
    hide DecodeBE, Fixed;
  }
}
