/** Whole-image decoding: every inode, shared attribute and directory of the written image
    reads back as what the inode table says. */
module ErofsRoundTrip {
  import opened Bytes
  import opened ErofsFormat
  import opened ErofsImage
  import opened ErofsReader
  import opened ErofsDecode
  import opened ErofsWriter

  // ---- what is written stays ----

  lemma {:induction false} InodesStay(inodes: seq<Inode>, m: nat, pos: Pos, k: nat, l: nat)
    requires inodes != [] && k <= l <= |inodes| && Covers(pos, |inodes|, m)
    requires forall i :: 0 <= i < |inodes| ==> WritableInode(inodes[i], |inodes|, m)
    ensures AfterInodes(inodes, m, k, pos) <= AfterInodes(inodes, m, l, pos)
  {
    hide Preamble, WithInode, EndAfter, WritableInode;
    if k < l {
      InodesStay(inodes, m, pos, k, l - 1);
      Extends(AfterInodes(inodes, m, l - 1, pos), inodes[l - 1], pos.blocks[l - 1], pos);
    }
  }

  lemma Extends(before: bytes, inode: Inode, blockOffset: nat, pos: Pos)
    requires WritableInode(inode, |pos.inodes|, |pos.xattrs|)
    ensures before <= WithInode(before, inode, blockOffset, pos)
  {
    hide InodeBytes, InodeStart, WritableInode;
  }

  lemma {:induction false} XattrsStay(inodes: seq<Inode>, xattrs: seq<XAttr>, pos: Pos, i: nat, j: nat)
    requires Writable(inodes, xattrs) && Covers(pos, |inodes|, |xattrs|) && i <= j <= |xattrs|
    ensures AfterXattrs(inodes, xattrs, i, pos) <= AfterXattrs(inodes, xattrs, j, pos)
  {
    hide AfterInodes, XAttrBytes, Writable;
    if i < j {
      XattrsStay(inodes, xattrs, pos, i, j - 1);
    }
  }

  lemma {:induction false} BlocksStay(inodes: seq<Inode>, xattrs: seq<XAttr>, pos: Pos, k: nat, l: nat)
    requires Writable(inodes, xattrs) && Covers(pos, |inodes|, |xattrs|) && k <= l <= |inodes|
    ensures AfterBlocks(inodes, xattrs, k, pos) <= AfterBlocks(inodes, xattrs, l, pos)
  {
    hide AfterXattrs, StoredBlocks, WritableBlock;
    if k < l {
      BlocksStay(inodes, xattrs, pos, k, l - 1);
    }
  }

  lemma InodesInImage(inodes: seq<Inode>, xattrs: seq<XAttr>, pos: Pos, k: nat)
    requires Writable(inodes, xattrs) && Covers(pos, |inodes|, |xattrs|) && k <= |inodes|
    ensures AfterInodes(inodes, |xattrs|, k, pos) <= Image(inodes, xattrs, pos)
  {
    hide AfterInodes, WritableInode, StoredBlocks, XAttrBytes;
    InodesStay(inodes, |xattrs|, pos, k, |inodes|);
    XattrsInImage(inodes, xattrs, pos, 0);
  }

  lemma XattrsInImage(inodes: seq<Inode>, xattrs: seq<XAttr>, pos: Pos, j: nat)
    requires Writable(inodes, xattrs) && Covers(pos, |inodes|, |xattrs|) && j <= |xattrs|
    ensures AfterXattrs(inodes, xattrs, j, pos) <= Image(inodes, xattrs, pos)
  {
    hide AfterXattrs, Writable, StoredBlocks;
    XattrsStay(inodes, xattrs, pos, j, |xattrs|);
    BlocksStay(inodes, xattrs, pos, 0, |inodes|);
  }

  // ---- each structure is where `TruePos` says ----

  lemma PlacedSlice(before: bytes, at: nat, body: bytes)
    requires at >= |before|
    ensures |PlacedAt(before, at, body)| >= at + |body|
    ensures PlacedAt(before, at, body)[at..at + |body|] == body
  {
  }

  lemma InodeInImage(inodes: seq<Inode>, xattrs: seq<XAttr>, k: nat)
    requires Writable(inodes, xattrs) && k < |inodes|
    ensures
      var pos, image := TruePos(inodes, xattrs), FinalImage(inodes, xattrs);
      var at := pos.inodes[k];
      && WritableInode(inodes[k], |inodes|, |xattrs|)
      && at + InodeSize(inodes[k]) <= |image|
      && image[at..at + InodeSize(inodes[k])] == InodeBytes(inodes[k], at, pos.blocks[k], pos)
  {
    hide TruePos, AfterInodes, InodeBytes, InodeSize, WritableInode, Image, FinalImage, PlacedAt,
      Writable;
    var pos, m := TruePos(inodes, xattrs), |xattrs|;
    InodeStep(inodes, xattrs, k);
    var before := AfterInodes(inodes, m, k, pos);
    var at := pos.inodes[k];
    PlacedSlice(before, at, InodeBytes(inodes[k], at, pos.blocks[k], pos));
    InodesInImage(inodes, xattrs, pos, k + 1);
    SliceOfPrefix(AfterInodes(inodes, m, k + 1, pos), Image(inodes, xattrs, pos), at,
                  at + InodeSize(inodes[k]));
    FinalImageIs(inodes, xattrs);
  }

  lemma InodeStep(inodes: seq<Inode>, xattrs: seq<XAttr>, k: nat)
    requires Writable(inodes, xattrs) && k < |inodes|
    ensures
      var pos, m := TruePos(inodes, xattrs), |xattrs|;
      var at := pos.inodes[k];
      && inodes != [] && WritableInode(inodes[k], |inodes|, m)
      && (forall i :: 0 <= i < |inodes| ==> WritableInode(inodes[i], |inodes|, m))
      && |AfterInodes(inodes, m, k, pos)| <= at
      && AfterInodes(inodes, m, k + 1, pos)
         == PlacedAt(AfterInodes(inodes, m, k, pos), at,
                     InodeBytes(inodes[k], at, pos.blocks[k], pos))
  {
    hide InodeStart, InodeBytes, WritableInode, PlacedAt;
  }

  lemma FinalImageIs(inodes: seq<Inode>, xattrs: seq<XAttr>)
    requires Writable(inodes, xattrs)
    ensures FinalImage(inodes, xattrs) == Image(inodes, xattrs, TruePos(inodes, xattrs))
  {
  }

  lemma XattrInImage(inodes: seq<Inode>, xattrs: seq<XAttr>, j: nat)
    requires Writable(inodes, xattrs) && j < |xattrs|
    ensures
      var pos, image := TruePos(inodes, xattrs), FinalImage(inodes, xattrs);
      var at := pos.xattrs[j];
      at + XAttrSize(xattrs[j]) <= |image|
      && image[at..at + XAttrSize(xattrs[j])] == XAttrBytes(xattrs[j])
  {
    hide XAttrBytes, XAttrSize, Writable, Image, AfterBlocks, BlocksEnd, InodesEnd, AfterInodes;
    var pos := TruePos(inodes, xattrs);
    var at := |AfterXattrs(inodes, xattrs, j, pos)|;
    XattrsInImage(inodes, xattrs, pos, j + 1);
    SliceRight(AfterXattrs(inodes, xattrs, j, pos), XAttrBytes(xattrs[j]), 0, XAttrSize(xattrs[j]));
    SliceOfPrefix(AfterXattrs(inodes, xattrs, j + 1, pos), FinalImage(inodes, xattrs), at,
                  at + XAttrSize(xattrs[j]));
  }

  /** Blocks as `from_entries` makes them: non-empty and no larger than a block. */
  ghost predicate OneBlockEach(blocks: seq<seq<DirEnt>>) {
    forall b :: 0 <= b < |blocks| ==> 0 < BlockSize(blocks[b]) <= 4096
  }

  lemma {:induction false} StoredSizeOf(blocks: seq<seq<DirEnt>>)
    requires OneBlockEach(blocks)
    ensures StoredSize(blocks) == 4096 * |blocks|
  {
    if blocks != [] {
      assert UpBlock(BlockSize(blocks[0])) == 4096;
      StoredSizeOf(blocks[1..]);
    }
  }

  lemma {:induction false} StoredBlockAt(blocks: seq<seq<DirEnt>>, pos: Pos, b: nat)
    requires OneBlockEach(blocks) && b < |blocks|
    requires forall i :: 0 <= i < |blocks| ==> WritableBlock(blocks[i], |pos.inodes|)
    ensures |StoredBlocks(blocks, pos)| == 4096 * |blocks|
    ensures StoredBlocks(blocks, pos)[4096 * b..4096 * b + 4096] == StoredBlock(blocks[b], pos)
  {
    hide StoredBlock, WritableBlock, BlockSize;
    StoredSizeOf(blocks);
    var head, tail := StoredBlock(blocks[0], pos), StoredBlocks(blocks[1..], pos);
    assert |head| == 4096;
    if b == 0 {
      assert (head + tail)[0..4096] == head;
    } else {
      StoredBlockAt(blocks[1..], pos, b - 1);
      SliceRight(head, tail, 4096 * (b - 1), 4096 * (b - 1) + 4096);
    }
  }

  lemma BlockInImage(inodes: seq<Inode>, xattrs: seq<XAttr>, k: nat, b: nat)
    requires Writable(inodes, xattrs) && k < |inodes| && inodes[k].content.DirContent?
    requires OneBlockEach(inodes[k].content.dir.blocks) && b < |inodes[k].content.dir.blocks|
    ensures
      var pos, image := TruePos(inodes, xattrs), FinalImage(inodes, xattrs);
      var block := inodes[k].content.dir.blocks[b];
      var at := pos.blocks[k] + 4096 * b;
      && at + 4096 <= |image| && WritableBlock(block, |inodes|)
      && image[at..at + 4096] == StoredBlock(block, pos)
  {
    hide StoredBlock, WritableBlock, BlockSize, AfterXattrs, XattrsEnd, StoredBlocks, StoredSize, TruePos,
      AfterBlocks, BlocksEnd, Writable, FinalImage, Image;
    var pos, blocks := TruePos(inodes, xattrs), inodes[k].content.dir.blocks;
    RunStep(inodes, xattrs, k);
    var before := AfterBlocks(inodes, xattrs, k, pos);
    StoredBlockAt(blocks, pos, b);
    BlocksStay(inodes, xattrs, pos, k + 1, |inodes|);
    SliceRight(before, StoredBlocks(blocks, pos), 4096 * b, 4096 * b + 4096);
    SliceOfPrefix(AfterBlocks(inodes, xattrs, k + 1, pos), FinalImage(inodes, xattrs),
                  |before| + 4096 * b, |before| + 4096 * b + 4096);
  }

  lemma RunStep(inodes: seq<Inode>, xattrs: seq<XAttr>, k: nat)
    requires Writable(inodes, xattrs) && k < |inodes| && inodes[k].content.DirContent?
    ensures
      var pos, blocks := TruePos(inodes, xattrs), inodes[k].content.dir.blocks;
      && (forall i :: 0 <= i < |blocks| ==> WritableBlock(blocks[i], |inodes|))
      && |AfterBlocks(inodes, xattrs, k, pos)| == pos.blocks[k]
      && AfterBlocks(inodes, xattrs, k + 1, pos)
         == AfterBlocks(inodes, xattrs, k, pos) + StoredBlocks(blocks, pos)
      && FinalImage(inodes, xattrs) == AfterBlocks(inodes, xattrs, |inodes|, pos)
  {
    hide WritableBlock, AfterXattrs, XattrsEnd, StoredBlocks, StoredSize;
    assert WritableInode(inodes[k], |inodes|, |xattrs|);
  }

  // ---- opening ----

  /** Field sizes that the rest of the decoding needs. */
  ghost predicate Decodable(inodes: seq<Inode>, xattrs: seq<XAttr>) {
    && Writable(inodes, xattrs)
    && |FinalImage(inodes, xattrs)| < 0x1_0000_0000
    && (forall k :: 0 <= k < |inodes| ==> DecodableInode(inodes[k]))
    && (forall j :: 0 <= j < |xattrs| ==> FitsXattr(xattrs[j]))
  }

  ghost predicate DecodableInode(inode: Inode) {
    && FitsInode(inode)
    && (inode.xattrs.filter == 0 ==> inode.xattrs.shared == [] && inode.xattrs.local == [])
    && (inode.content.DirContent? ==> DecodableDir(inode.content.dir))
  }

  /** A directory as `from_entries` makes it, with NUL-free names. */
  ghost predicate DecodableDir(dir: ErofsImage.Directory) {
    && OneBlockEach(dir.blocks)
    && BlockSize(dir.inline) <= 2048
    && dir.size == 4096 * |dir.blocks| + BlockSize(dir.inline)
    && (forall b, i :: 0 <= b < |dir.blocks| && 0 <= i < |dir.blocks[b]| ==>
          NulFree(dir.blocks[b][i].name))
    && (forall i :: 0 <= i < |dir.inline| ==> NulFree(dir.inline[i].name))
  }

  function OpenedImage(inodes: seq<Inode>, xattrs: seq<XAttr>): Img
    requires Writable(inodes, xattrs)
  {
    var image := FinalImage(inodes, xattrs);
    Img(image, 12, TruePos(inodes, xattrs).inodes[0] / 32, image, image)
  }

  lemma {:induction false} InodesTakeRoom(inodes: seq<Inode>, k: nat)
    requires k <= |inodes|
    ensures InodesEnd(inodes, k) >= 1152 + 64 * k
  {
    hide InodeStart;
    if k > 0 {
      InodesTakeRoom(inodes, k - 1);
    }
  }

  /** The root inode number fits its 16 bits: only padding can come before it. */
  lemma RootNidFits(inode: Inode)
    ensures StartOf(INODES_AT, inode) / 32 < 0x1_0000
  {
    var at := StartOf(INODES_AT, inode);
    assert at <= 1152 + 31 + 4096 + 31;
  }

  lemma OpenRoundTrip(inodes: seq<Inode>, xattrs: seq<XAttr>)
    requires Decodable(inodes, xattrs)
    ensures Open(FinalImage(inodes, xattrs)) == Some(OpenedImage(inodes, xattrs))
  {
    hide TruePos, FinalImage, DecodableInode, FitsXattr, SuperblockRecord, Open, OpenedImage;
    var pos, image := TruePos(inodes, xattrs), FinalImage(inodes, xattrs);
    var vs := SuperblockFields(pos.inodes[0] / 32, |inodes|, pos.end / 4096);
    SuperblockSlice(inodes, xattrs);
    SuperblockFits(inodes, xattrs);
    OpenParts(image, vs, image[1152..]);
    OpenedParts(inodes, xattrs);
  }

  lemma OpenParts(image: bytes, vs: seq<nat>, rest: bytes)
    requires |image| >= 1152 && |vs| == 13 && image[1024..] == SuperblockRecord(vs) + rest
    requires Fits(SUPERBLOCK_WIDTHS, vs)
    requires vs[3] == 12 && vs[10] == vs[11] == 0
    ensures Open(image) == Some(Img(image, 12, vs[5], image, image))
  {
    hide Unpack;
    SuperblockWidthSum();
    RecordOfPack(SUPERBLOCK_WIDTHS, vs, rest);
    assert image[0..] == image;
  }

  lemma OpenedParts(inodes: seq<Inode>, xattrs: seq<XAttr>)
    requires Writable(inodes, xattrs)
    ensures
      var image, nid := FinalImage(inodes, xattrs), TruePos(inodes, xattrs).inodes[0] / 32;
      OpenedImage(inodes, xattrs) == Img(image, 12, nid, image, image)
  {
  }

  lemma SuperblockSlice(inodes: seq<Inode>, xattrs: seq<XAttr>)
    requires Writable(inodes, xattrs)
    ensures
      var pos, image := TruePos(inodes, xattrs), FinalImage(inodes, xattrs);
      var vs := SuperblockFields(pos.inodes[0] / 32, |inodes|, pos.end / 4096);
      |image| >= 1152 && image[1024..] == SuperblockRecord(vs) + image[1152..]
  {
    hide TruePos, Image, FinalImage, WritableInode;
    var pos, image := TruePos(inodes, xattrs), FinalImage(inodes, xattrs);
    var vs := SuperblockFields(pos.inodes[0] / 32, |inodes|, pos.end / 4096);
    FinalImageIs(inodes, xattrs);
    InodesInImage(inodes, xattrs, pos, 0);
    hide SuperblockRecord, SuperblockFields;
    PrefixParts(ComposefsHeaderRecord([0xd078629a, 1, 0, 2, 0]) + Zeros(992),
                SuperblockRecord(vs), image);
  }

  lemma PrefixParts(a: bytes, b: bytes, image: bytes)
    requires a + b <= image
    ensures |image| >= |a| + |b| && image[|a|..] == b + image[|a| + |b|..]
  {
    assert image == (a + b) + image[|a| + |b|..];
  }

  lemma ImageBounds(inodes: seq<Inode>, xattrs: seq<XAttr>)
    requires Writable(inodes, xattrs) && |FinalImage(inodes, xattrs)| < 0x1_0000_0000
    ensures TruePos(inodes, xattrs).end < 0x1_0000_0000 && |inodes| < 0x1_0000_0000
    ensures TruePos(inodes, xattrs).inodes[0] / 32 < 0x1_0000
  {
    hide InodeStart, Image, XAttrSize, StoredSize, EndAfter, WritableInode;
    RootNidFits(inodes[0]);
    InodesTakeRoom(inodes, |inodes|);
    XattrsEndGrows(inodes, xattrs, 0, |xattrs|);
    BlocksEndGrows(inodes, xattrs, 0, |inodes|);
  }

  lemma SuperblockFits(inodes: seq<Inode>, xattrs: seq<XAttr>)
    requires Decodable(inodes, xattrs)
    ensures
      var pos := TruePos(inodes, xattrs);
      Fits(SUPERBLOCK_WIDTHS, SuperblockFields(pos.inodes[0] / 32, |inodes|, pos.end / 4096))
  {
    hide TruePos, FinalImage, Writable, DecodableInode, FitsXattr;
    ImageBounds(inodes, xattrs);
    Pow256Values();
    assert Pow256(80) > 0;
  }

  // ---- inodes ----

  /** The inode number of the k-th inode of the table. */
  function Nid(inodes: seq<Inode>, k: nat): nat
    requires k < |inodes|
  {
    TruePos(inodes, []).inodes[k] / 32
  }

  function InodeView(inodes: seq<Inode>, xattrs: seq<XAttr>, k: nat): View
    requires Writable(inodes, xattrs) && k < |inodes|
  {
    assert WritableInode(inodes[k], |inodes|, |xattrs|);
    ViewOf(inodes[k], TruePos(inodes, xattrs).blocks[k], TruePos(inodes, xattrs))
  }

  lemma PosBound(inodes: seq<Inode>, xattrs: seq<XAttr>, k: nat)
    requires Writable(inodes, xattrs) && k < |inodes|
    requires |FinalImage(inodes, xattrs)| < 0x1_0000_0000
    ensures var pos := TruePos(inodes, xattrs);
      && pos.inodes[k] < 0x1_0000_0000 && pos.inodes[k] % 32 == 0
      && pos.inodes[k] / 32 == Nid(inodes, k)
  {
    hide InodeBytes, Image, WritableInode, XattrsEnd, BlocksEnd;
    InodeInImage(inodes, xattrs, k);
  }

  /** Reading inode number `Nid(k)` of the written image gives the k-th inode. */
  lemma ReadInodeRoundTrip(inodes: seq<Inode>, xattrs: seq<XAttr>, k: nat)
    requires Decodable(inodes, xattrs) && k < |inodes|
    ensures ReadInode(OpenedImage(inodes, xattrs), Nid(inodes, k))
         == Some(InodeView(inodes, xattrs, k))
  {
    hide TruePos, FinalImage, Nid, InodeBytes, ViewOf, InodeSize, DecodableInode, WritableInode,
      ReadExtended, ReadCompact, FitsXattr;
    var pos, image := TruePos(inodes, xattrs), FinalImage(inodes, xattrs);
    var at, size := pos.inodes[k], InodeSize(inodes[k]);
    InodeInImage(inodes, xattrs, k);
    PosBound(inodes, xattrs, k);
    DecodableParts(inodes[k]);
    assert image[at..] == image[at..at + size] + image[at + size..];
    InodeRoundTrip(inodes[k], at, pos.blocks[k], pos, image[at + size..]);
    assert Nid(inodes, k) * 32 == at;
    assert Drop(image, at) == Some(image[at..]);
  }

  lemma DecodableParts(inode: Inode)
    requires DecodableInode(inode)
    ensures FitsInode(inode) && FitsXattrs(inode.xattrs)
    ensures inode.xattrs.filter == 0 ==> inode.xattrs.shared == [] && inode.xattrs.local == []
    ensures inode.content.DirContent? ==> DecodableDir(inode.content.dir)
  {
  }

  // ---- attributes ----

  /** The attributes the inode stands for: its shared ones, looked up in the table, then its
      local ones. */
  function Resolved(x: InodeXAttrs, xattrs: seq<XAttr>): seq<XAttr>
    requires forall i :: 0 <= i < |x.shared| ==> x.shared[i] < |xattrs|
  {
    Pick(x.shared, xattrs) + x.local
  }

  function Pick(ids: seq<nat>, xattrs: seq<XAttr>): (r: seq<XAttr>)
    requires forall i :: 0 <= i < |ids| ==> ids[i] < |xattrs|
    ensures |r| == |ids| && forall i :: 0 <= i < |ids| ==> r[i] == xattrs[ids[i]]
  {
    seq(|ids|, i requires 0 <= i < |ids| => xattrs[ids[i]])
  }

  lemma SharedXattrRoundTrip(inodes: seq<Inode>, xattrs: seq<XAttr>, j: nat)
    requires Decodable(inodes, xattrs) && j < |xattrs|
    ensures SharedXattr(OpenedImage(inodes, xattrs), TruePos(inodes, xattrs).xattrs[j] / 4)
         == Some(xattrs[j])
  {
    hide TruePos, FinalImage, XAttrBytes, XAttrSize, DecodableInode, Writable, ParseXattr,
      FitsXattr;
    var image, at, size := FinalImage(inodes, xattrs), TruePos(inodes, xattrs).xattrs[j],
      XAttrSize(xattrs[j]);
    XattrInImage(inodes, xattrs, j);
    assert image[at..] == XAttrBytes(xattrs[j]) + image[at + size..];
    XattrRoundTrip(xattrs[j], image[at + size..]);
    assert at / 4 * 4 == at;
  }

  lemma {:induction false} SharedXattrsRoundTrip(inodes: seq<Inode>, xattrs: seq<XAttr>, ids: seq<nat>)
    requires Decodable(inodes, xattrs)
    requires forall i :: 0 <= i < |ids| ==> ids[i] < |xattrs|
    ensures SharedXattrs(OpenedImage(inodes, xattrs), IdsOf(ids, TruePos(inodes, xattrs)))
         == Some(Pick(ids, xattrs))
  {
    hide TruePos, FinalImage, DecodableInode, Writable, SharedXattr, OpenedImage, FitsXattr;
    var pos := TruePos(inodes, xattrs);
    if ids != [] {
      SharedXattrRoundTrip(inodes, xattrs, ids[0]);
      SharedXattrsRoundTrip(inodes, xattrs, ids[1..]);
      assert IdsOf(ids, pos)[1..] == IdsOf(ids[1..], pos);
      assert Pick(ids, xattrs) == [xattrs[ids[0]]] + Pick(ids[1..], xattrs);
    }
  }

  lemma SectionRoundTrip(inodes: seq<Inode>, xattrs: seq<XAttr>, k: nat)
    requires Decodable(inodes, xattrs) && k < |inodes|
    ensures
      var x, pos := inodes[k].xattrs, TruePos(inodes, xattrs);
      && (forall i :: 0 <= i < |x.shared| ==> x.shared[i] < |xattrs|)
      && ReadXattrs(InodeView(inodes, xattrs, k))
         == Some(if x.filter == 0 then None
                 else Some(XattrsView(Complement(x.filter), IdsOf(x.shared, pos), x.local)))
  {
    hide TruePos, FinalImage, DecodableInode, FitsXattr, ParseXattrs, FitsXattrs, TailBytes,
      XattrsBytes, IdsOf, Icount;
    var x, pos := inodes[k].xattrs, TruePos(inodes, xattrs);
    assert WritableInode(inodes[k], |inodes|, |xattrs|);
    var v := InodeView(inodes, xattrs, k);
    DecodableParts(inodes[k]);
    IcountInverts(x);
    assert v.icount == 0 <==> x.filter == 0 by {
      IcountZero(x);
    }
    if x.filter != 0 {
      assert v.data[0..XattrsSize(x)] == XattrsBytes(x, pos);
      XattrIdsFit(inodes, xattrs);
      XattrsRoundTrip(x, pos);
    }
  }

  lemma IcountZero(x: InodeXAttrs)
    ensures Icount(XattrsSize(x)) == 0 <==> x.filter == 0
  {
  }

  lemma XattrIdsFit(inodes: seq<Inode>, xattrs: seq<XAttr>)
    requires Writable(inodes, xattrs) && |FinalImage(inodes, xattrs)| < 0x1_0000_0000
    ensures forall i :: 0 <= i < |xattrs| ==> TruePos(inodes, xattrs).xattrs[i] / 4 < 0x1_0000_0000
  {
    hide TruePos, Image, Writable;
    TruePosAligned(inodes, xattrs);
  }

  /** All attributes of an inode read back: shared ones through the table, then local ones. */
  lemma XattrsOfInodeRoundTrip(inodes: seq<Inode>, xattrs: seq<XAttr>, k: nat)
    requires Decodable(inodes, xattrs) && k < |inodes|
    ensures forall i :: 0 <= i < |inodes[k].xattrs.shared| ==> inodes[k].xattrs.shared[i] < |xattrs|
    ensures AllXattrs(OpenedImage(inodes, xattrs), InodeView(inodes, xattrs, k))
         == Some(Resolved(inodes[k].xattrs, xattrs))
  {
    hide TruePos, FinalImage, FitsXattr, InodeView, OpenedImage, ReadXattrs, IdsOf, SharedXattrs,
      FitsXattrs, FitsInode;
    SectionRoundTrip(inodes, xattrs, k);
    SharedXattrsRoundTrip(inodes, xattrs, inodes[k].xattrs.shared);
    if inodes[k].xattrs.filter == 0 {
      assert Resolved(inodes[k].xattrs, xattrs) == [];
    }
  }

  // ---- directories ----

  function Concat(blocks: seq<seq<DirEnt>>): seq<DirEnt> {
    if blocks == [] then [] else blocks[0] + Concat(blocks[1..])
  }

  function AllEntries(dir: ErofsImage.Directory): seq<DirEnt> {
    Concat(dir.blocks) + dir.inline
  }

  lemma {:induction false} ConcatWritable(blocks: seq<seq<DirEnt>>, n: nat)
    requires forall b :: 0 <= b < |blocks| ==> WritableBlock(blocks[b], n)
    ensures WritableBlock(Concat(blocks), n)
  {
    if blocks != [] {
      ConcatWritable(blocks[1..], n);
    }
  }

  lemma EntriesOfConcat(a: seq<DirEnt>, b: seq<DirEnt>, pos: Pos)
    requires WritableBlock(a, |pos.inodes|) && WritableBlock(b, |pos.inodes|)
    ensures WritableBlock(a + b, |pos.inodes|)
    ensures EntriesOf(a + b, pos) == EntriesOf(a, pos) + EntriesOf(b, pos)
  {
  }

  lemma FitsStored(block: seq<DirEnt>, pos: Pos)
    requires WritableBlock(block, |pos.inodes|) && 0 < BlockSize(block) <= 4096
    requires forall i :: 0 <= i < |block| ==> NulFree(block[i].name)
    requires forall i :: 0 <= i < |pos.inodes| ==> pos.inodes[i] / 32 < 0x1_0000_0000
    ensures FitsBlock(block, pos)
  {
    assert block != [];
  }

  lemma NidsFit(inodes: seq<Inode>, xattrs: seq<XAttr>)
    requires Writable(inodes, xattrs) && |FinalImage(inodes, xattrs)| < 0x1_0000_0000
    ensures forall i :: 0 <= i < |inodes| ==> TruePos(inodes, xattrs).inodes[i] / 32 < 0x1_0000_0000
  {
    hide TruePos, FinalImage, Writable;
    forall i | 0 <= i < |inodes|
      ensures TruePos(inodes, xattrs).inodes[i] / 32 < 0x1_0000_0000
    {
      PosBound(inodes, xattrs, i);
    }
  }

  /** Block `b` of directory `k`, read by number, parses to the entries stored in it. */
  lemma StoredBlockRoundTrip(inodes: seq<Inode>, xattrs: seq<XAttr>, k: nat, b: nat)
    requires Decodable(inodes, xattrs) && k < |inodes| && inodes[k].content.DirContent?
    requires b < |inodes[k].content.dir.blocks|
    ensures
      var pos, img := TruePos(inodes, xattrs), OpenedImage(inodes, xattrs);
      var block := inodes[k].content.dir.blocks[b];
      && WritableBlock(block, |inodes|)
      && ReadBlock(img, pos.blocks[k] / 4096 + b) == Some(StoredBlock(block, pos))
      && BlockEntries(StoredBlock(block, pos)) == Some(EntriesOf(block, pos))
  {
    hide TruePos, FinalImage, FitsXattr, BlockEntries, BlockBytes, EntriesOf, WritableBlock,
      FitsInode, Writable, BlockSize;
    var pos, image := TruePos(inodes, xattrs), FinalImage(inodes, xattrs);
    var block := inodes[k].content.dir.blocks[b];
    BlockInImage(inodes, xattrs, k, b);
    NidsFit(inodes, xattrs);
    FitsStored(block, pos);
    BlockRoundTrip(block, pos, UpBlock(BlockSize(block)) - BlockSize(block));
    Pow2Values();
    BlockNumber(pos.blocks[k], b);
  }

  lemma BlockNumber(at: nat, b: nat)
    requires at % 4096 == 0
    ensures (at / 4096 + b) * 4096 == at + 4096 * b
    ensures (at / 4096 + b + 1) * 4096 == at + 4096 * b + 4096
  {
  }

  lemma {:induction false} BlockRangeRoundTrip(inodes: seq<Inode>, xattrs: seq<XAttr>, k: nat, b: nat)
    requires Decodable(inodes, xattrs) && k < |inodes| && inodes[k].content.DirContent?
    requires b <= |inodes[k].content.dir.blocks|
    ensures
      var pos, img := TruePos(inodes, xattrs), OpenedImage(inodes, xattrs);
      var blocks := inodes[k].content.dir.blocks;
      var start := pos.blocks[k] / 4096;
      && WritableBlock(Concat(blocks[b..]), |inodes|)
      && BlockRangeEntries(img, start + b, start + |blocks|)
         == Some(EntriesOf(Concat(blocks[b..]), pos))
    decreases |inodes[k].content.dir.blocks| - b
  {
    hide TruePos, FinalImage, FitsXattr, BlockEntries, EntriesOf, WritableBlock, ReadBlock,
      OpenedImage, StoredBlock, DecodableInode;
    var pos, blocks := TruePos(inodes, xattrs), inodes[k].content.dir.blocks;
    assert WritableInode(inodes[k], |inodes|, |xattrs|);
    ConcatWritable(blocks[b..], |inodes|);
    if b < |blocks| {
      StoredBlockRoundTrip(inodes, xattrs, k, b);
      BlockRangeRoundTrip(inodes, xattrs, k, b + 1);
      assert blocks[b..][1..] == blocks[b + 1..];
      EntriesOfConcat(blocks[b], Concat(blocks[b + 1..]), pos);
    } else {
      EntriesOfNone(pos);
    }
  }

  lemma EntriesOfNone(pos: Pos)
    ensures WritableBlock([], |pos.inodes|) && EntriesOf([], pos) == []
  {
  }

  /** The block range of a directory is exactly its stored blocks. */
  lemma DirBlocks(inodes: seq<Inode>, xattrs: seq<XAttr>, k: nat)
    requires Decodable(inodes, xattrs) && k < |inodes| && inodes[k].content.DirContent?
    ensures
      var r := BlocksOf(InodeView(inodes, xattrs, k), 12);
      var n := |inodes[k].content.dir.blocks|;
      && r.end == r.start + n
      && (n > 0 ==> r.start == TruePos(inodes, xattrs).blocks[k] / 4096)
  {
    hide TruePos, FinalImage, FitsXattr, XattrsBytes, TailBytes, FitsInode, BlockSize, Writable;
    var dir, pos := inodes[k].content.dir, TruePos(inodes, xattrs);
    Pow2Values();
    BlocksPosBound(inodes, xattrs, k);
    assert DecodableDir(dir);
    assert dir.inline == [] ==> BlockSize(dir.inline) == 0 by {
      EmptyBlockSize();
    }
    CeilBlocks(|dir.blocks|);
    FloorBlocks(|dir.blocks|, BlockSize(dir.inline));
  }

  lemma EmptyBlockSize()
    ensures BlockSize([]) == 0
  {
  }

  lemma CeilBlocks(n: nat)
    ensures (4096 * n + 4096 - 1) / 4096 == n
  {
  }

  lemma FloorBlocks(n: nat, r: nat)
    requires r < 4096
    ensures (4096 * n + r) / 4096 == n
  {
  }

  lemma BlocksPosBound(inodes: seq<Inode>, xattrs: seq<XAttr>, k: nat)
    requires Writable(inodes, xattrs) && k < |inodes|
    requires |FinalImage(inodes, xattrs)| < 0x1_0000_0000
    ensures TruePos(inodes, xattrs).blocks[k] < 0x1_0000_0000
  {
    hide AfterBlocks, StoredSize, XattrsEnd, InodesEnd, Writable;
    BlocksEndGrows(inodes, xattrs, k, |inodes|);
  }

  /** The inline slice of an inode is exactly the written tail. */
  lemma InlineRoundTrip(inodes: seq<Inode>, xattrs: seq<XAttr>, k: nat)
    requires Decodable(inodes, xattrs) && k < |inodes|
    ensures WritableInode(inodes[k], |inodes|, |xattrs|)
    ensures InlineOf(InodeView(inodes, xattrs, k))
         == Some(TailBytes(inodes[k].content, TruePos(inodes, xattrs)))
  {
    hide TruePos, FinalImage, FitsXattr, XattrsBytes, TailBytes, FitsInode, XattrsSize, Icount,
      XattrSize;
    var inode, pos := inodes[k], TruePos(inodes, xattrs);
    assert WritableInode(inode, |inodes|, |xattrs|);
    IcountInverts(inode.xattrs);
    var xs, tail := XattrsBytes(inode.xattrs, pos), TailBytes(inode.content, pos);
    assert (xs + tail)[|xs|..] == tail;
  }

  lemma InlineBlockRoundTrip(inodes: seq<Inode>, xattrs: seq<XAttr>, k: nat)
    requires Decodable(inodes, xattrs) && k < |inodes| && inodes[k].content.DirContent?
    requires inodes[k].content.dir.inline != []
    ensures
      var inline, pos := inodes[k].content.dir.inline, TruePos(inodes, xattrs);
      && WritableBlock(inline, |inodes|) && BlockBytes(inline, pos) != []
      && BlockEntries(BlockBytes(inline, pos)) == Some(EntriesOf(inline, pos))
  {
    hide TruePos, FinalImage, FitsXattr, BlockBytes, EntriesOf, FitsInode, BlockEntries, Writable;
    var inline, pos := inodes[k].content.dir.inline, TruePos(inodes, xattrs);
    InlineRoundTrip(inodes, xattrs, k);
    NidsFit(inodes, xattrs);
    assert DecodableDir(inodes[k].content.dir);
    FitsStored(inline, pos);
    BlockRoundTrip(inline, pos, 0);
    assert BlockBytes(inline, pos) + Zeros(0) == BlockBytes(inline, pos);
  }

  /** A directory of the image reads back as exactly its entries, in order. */
  lemma DirRoundTrip(inodes: seq<Inode>, xattrs: seq<XAttr>, k: nat)
    requires Decodable(inodes, xattrs) && k < |inodes| && inodes[k].content.DirContent?
    ensures WritableBlock(AllEntries(inodes[k].content.dir), |inodes|)
    ensures DirEntries(OpenedImage(inodes, xattrs), InodeView(inodes, xattrs, k))
         == Some(EntriesOf(AllEntries(inodes[k].content.dir), TruePos(inodes, xattrs)))
  {
    hide TruePos, FinalImage, FitsXattr, EntriesOf, BlockEntries, InlineOf, BlocksOf, InodeView,
      DecodableInode, WritableBlock, BlockRangeEntries, BlockBytes, Writable;
    var dir, pos := inodes[k].content.dir, TruePos(inodes, xattrs);
    DirBlocks(inodes, xattrs, k);
    BlockRangeRoundTrip(inodes, xattrs, k, 0);
    assert dir.blocks[0..] == dir.blocks;
    InlineRoundTrip(inodes, xattrs, k);
    EntriesOfNone(pos);
    NoBlocks(OpenedImage(inodes, xattrs), BlocksOf(InodeView(inodes, xattrs, k), 12));
    if dir.inline == [] {
      assert TailBytes(inodes[k].content, pos) == [] by {
        EmptyTail(pos);
      }
      assert AllEntries(dir) == Concat(dir.blocks);
    } else {
      InlineBlockRoundTrip(inodes, xattrs, k);
      EntriesOfConcat(Concat(dir.blocks), dir.inline, pos);
    }
  }

  lemma EmptyTail(pos: Pos)
    ensures WritableBlock([], |pos.inodes|) && BlockBytes([], pos) == []
  {
  }

  lemma NoBlocks(img: Img, r: Range)
    ensures r.start == r.end ==> BlockRangeEntries(img, r.start, r.end) == Some([])
  {
  }
}
