/** The reader inverts the writer, structure by structure. */
module ErofsDecode {
  import opened Bytes
  import opened Tree
  import opened ErofsFormat
  import opened ErofsImage
  import opened ErofsReader

  lemma RecordOfPack(ws: seq<nat>, vs: seq<nat>, rest: bytes)
    requires |ws| == |vs| && Fits(ws, vs)
    ensures |Pack(ws, vs)| == Sum(ws) && Record(ws, Pack(ws, vs) + rest) == Some(vs)
  {
    UnpackPack(ws, vs, rest);
  }

  // ---- extended attributes ----

  /** Field sizes of an attribute entry. */
  ghost predicate FitsXattr(x: XAttr) {
    x.prefix < 256 && |x.suffix| < 256 && |x.value| < 0x1_0000
  }

  lemma XattrRoundTrip(x: XAttr, rest: bytes)
    requires FitsXattr(x)
    ensures ParseXattr(XAttrBytes(x) + rest) == Some(Parsed(x, rest))
  {
    hide Unpack, LE, FromLE, Pack, Record, Up4, Sum;
    var vs := [|x.suffix|, x.prefix, |x.value|];
    var n := |x.suffix| + |x.value|;
    Up4Of(n);
    var padding := Zeros(Up4(n) - n);
    var data := XAttrBytes(x) + rest;
    XattrSlices(XattrRecord(vs), x.suffix, x.value, padding, rest, data);
    XattrFits(vs, x.suffix + x.value + padding + rest);
  }

  lemma XattrSlices(head: bytes, suffix: bytes, value: bytes, padding: bytes, rest: bytes, data: bytes)
    requires |head| == 4 && data == head + suffix + value + padding + rest
    ensures data == head + (suffix + value + padding + rest)
    ensures data[4..4 + |suffix|] == suffix
    ensures data[4 + |suffix|..4 + |suffix| + |value|] == value
    ensures data[4 + |suffix| + |value| + |padding|..] == rest
  {
  }

  lemma XattrFits(vs: seq<nat>, rest: bytes)
    requires |vs| == 3 && vs[0] < 256 && vs[1] < 256 && vs[2] < 0x1_0000
    ensures Record(XATTR_WIDTHS, XattrRecord(vs) + rest) == Some(vs)
  {
    ShortWidthSums();
    Pow256Values();
    RecordOfPack(XATTR_WIDTHS, vs, rest);
  }

  lemma Up4Of(n: nat)
    ensures Up4(4 + n) == 4 + Up4(n)
  {
  }

  lemma {:induction false} LocalsRoundTrip(xs: seq<XAttr>)
    requires forall i :: 0 <= i < |xs| ==> FitsXattr(xs[i])
    ensures LocalXattrs(Locals(xs)) == Some(xs)
  {
    hide XAttrBytes, FitsXattr, ParseXattr;
    if xs != [] {
      XattrRoundTrip(xs[0], Locals(xs[1..]));
      LocalsRoundTrip(xs[1..]);
      assert Locals(xs) != [];
      assert xs == [xs[0]] + xs[1..];
    }
  }

  function IdsOf(ids: seq<nat>, pos: Pos): (r: seq<nat>)
    requires forall i :: 0 <= i < |ids| ==> ids[i] < |pos.xattrs|
    ensures |r| == |ids|
    ensures forall i :: 0 <= i < |ids| ==> r[i] == pos.xattrs[ids[i]] / 4
  {
    seq(|ids|, i requires 0 <= i < |ids| => pos.xattrs[ids[i]] / 4)
  }

  lemma {:induction false} IdsRoundTrip(ids: seq<nat>, pos: Pos, rest: bytes)
    requires forall i :: 0 <= i < |ids| ==> ids[i] < |pos.xattrs|
    requires forall i :: 0 <= i < |pos.xattrs| ==> pos.xattrs[i] / 4 < 0x1_0000_0000
    ensures Ids(|ids|, SharedIds(ids, pos) + rest) == Some(Parsed(IdsOf(ids, pos), rest))
  {
    if ids == [] {
      assert SharedIds(ids, pos) + rest == rest;
    } else {
      var id := LE(pos.xattrs[ids[0]] / 4, 4);
      var data := SharedIds(ids, pos) + rest;
      assert data == id + (SharedIds(ids[1..], pos) + rest);
      assert data[..4] == id && data[4..] == SharedIds(ids[1..], pos) + rest;
      Pow256Values();
      LERoundTrip(pos.xattrs[ids[0]] / 4, 4);
      IdsRoundTrip(ids[1..], pos, rest);
      assert IdsOf(ids, pos) == [pos.xattrs[ids[0]] / 4] + IdsOf(ids[1..], pos);
    }
  }

  /** Field sizes of an attribute section. */
  ghost predicate FitsXattrs(x: InodeXAttrs) {
    && |x.shared| < 256
    && (forall i :: 0 <= i < |x.local| ==> FitsXattr(x.local[i]))
    && Icount(XattrsSize(x)) < 0x1_0000
  }

  lemma XattrsRoundTrip(x: InodeXAttrs, pos: Pos)
    requires x.filter != 0 && FitsXattrs(x)
    requires forall i :: 0 <= i < |x.shared| ==> x.shared[i] < |pos.xattrs|
    requires forall i :: 0 <= i < |pos.xattrs| ==> pos.xattrs[i] / 4 < 0x1_0000_0000
    ensures ParseXattrs(XattrsBytes(x, pos))
         == Some(XattrsView(Complement(x.filter), IdsOf(x.shared, pos), x.local))
  {
    hide LocalXattrs, Ids, FitsXattr;
    var vs := [Complement(x.filter), |x.shared|, 0];
    var head, tail := XattrsRecord(vs), SharedIds(x.shared, pos) + Locals(x.local);
    assert XattrsBytes(x, pos) == head + tail;
    ShortWidthSums();
    Pow256Values();
    RecordOfPack(XATTRS_WIDTHS, vs, tail);
    assert (head + tail)[12..] == tail;
    IdsRoundTrip(x.shared, pos, Locals(x.local));
    LocalsRoundTrip(x.local);
  }

  /** `xattr_icount` says the size of the section. */
  lemma IcountInverts(x: InodeXAttrs)
    ensures XattrSize(Icount(XattrsSize(x))) == XattrsSize(x)
  {
    LocalsAligned(x.local);
    IcountArith(XattrsSize(x));
  }

  lemma IcountArith(n: nat)
    requires n == 0 || (n >= 12 && n % 4 == 0)
    ensures XattrSize(Icount(n)) == n
  {
  }

  lemma {:induction false} LocalsAligned(xs: seq<XAttr>)
    ensures LocalsSize(xs) % 4 == 0
  {
    if xs != [] {
      LocalsAligned(xs[1..]);
    }
  }

  // ---- directory blocks ----

  ghost predicate NulFree(name: bytes) {
    forall i :: 0 <= i < |name| ==> name[i] != 0
  }

  function NamesBefore(block: seq<DirEnt>, i: nat): nat
    requires i <= |block|
  {
    if i == 0 then 0 else NamesBefore(block, i - 1) + |block[i - 1].name|
  }

  lemma {:induction false} NamesBeforeTail(block: seq<DirEnt>, i: nat)
    requires 0 < i <= |block|
    ensures NamesBefore(block, i) == |block[0].name| + NamesBefore(block[1..], i - 1)
  {
    if i > 1 {
      NamesBeforeTail(block, i - 1);
      assert block[1..][i - 2] == block[i - 1];
    }
  }

  lemma {:induction false} NameAt(block: seq<DirEnt>, i: nat)
    requires i < |block|
    ensures NamesBefore(block, i + 1) <= NamesSize(block)
    ensures NamesBefore(block, i) + |block[i].name| == NamesBefore(block, i + 1)
    ensures i + 1 == |block| ==> NamesBefore(block, i + 1) == NamesSize(block)
    ensures DirNames(block)[NamesBefore(block, i)..NamesBefore(block, i + 1)] == block[i].name
  {
    NamesBeforeTail(block, i + 1);
    if i == 0 {
      assert DirNames(block)[..|block[0].name|] == block[0].name;
    } else {
      NamesBeforeTail(block, i);
      NameAt(block[1..], i - 1);
      var k, lo := |block[0].name|, NamesBefore(block[1..], i - 1);
      var hi := NamesBefore(block[1..], i);
      assert block[1..][i - 1] == block[i];
      SliceRight(block[0].name, DirNames(block[1..]), lo, hi);
    }
  }

  lemma {:induction false} HeaderAt(block: seq<DirEnt>, nameOffset: nat, pos: Pos, i: nat)
    requires WritableBlock(block, |pos.inodes|) && i < |block|
    ensures DirHeaders(block, nameOffset, pos)[12 * i..12 * i + 12]
         == DirHeader(block[i], nameOffset + NamesBefore(block, i), pos)
  {
    hide DirHeader;
    var head := DirHeader(block[0], nameOffset, pos);
    var tail := DirHeaders(block[1..], nameOffset + |block[0].name|, pos);
    assert DirHeaders(block, nameOffset, pos) == head + tail;
    if i > 0 {
      NamesBeforeTail(block, i);
      HeaderAt(block[1..], nameOffset + |block[0].name|, pos, i - 1);
      assert (head + tail)[12 * i..12 * i + 12] == tail[12 * (i - 1)..12 * (i - 1) + 12];
    }
  }

  /** What a written entry reads back as. */
  function EntryOf(e: DirEnt, pos: Pos): Entry
    requires e.inode < |pos.inodes|
  {
    Entry(e.name, pos.inodes[e.inode] / 32, e.fileType.Number())
  }

  function EntriesOf(block: seq<DirEnt>, pos: Pos): (es: seq<Entry>)
    requires WritableBlock(block, |pos.inodes|)
    ensures |es| == |block|
    ensures forall i :: 0 <= i < |block| ==> es[i] == EntryOf(block[i], pos)
  {
    seq(|block|, i requires 0 <= i < |block| => EntryOf(block[i], pos))
  }

  /** A directory block that can be stored: some entries, NUL-free names, 16-bit offsets, and
      inode numbers that fit. */
  ghost predicate FitsBlock(block: seq<DirEnt>, pos: Pos) {
    && block != [] && WritableBlock(block, |pos.inodes|)
    && BlockSize(block) < 0x1_0000
    && (forall i :: 0 <= i < |block| ==> NulFree(block[i].name))
    && forall i :: 0 <= i < |pos.inodes| ==> pos.inodes[i] / 32 < 0x1_0000_0000
  }

  lemma EntryHeaderOf(block: seq<DirEnt>, pos: Pos, padding: nat, i: nat)
    requires FitsBlock(block, pos) && i < |block|
    ensures EntryHeader(BlockBytes(block, pos) + Zeros(padding), i)
         == Some([pos.inodes[block[i].inode] / 32, 12 * |block| + NamesBefore(block, i),
                  block[i].fileType.Number(), 0])
  {
    hide FirstZero, Record, Slice, BlockBytes, DirentRecord, NamesBefore, NamesSize;
    var vs := [pos.inodes[block[i].inode] / 32, 12 * |block| + NamesBefore(block, i),
               block[i].fileType.Number(), 0];
    OffsetFits(block, pos, i);
    HeaderSlice(block, pos, padding, i);
    DirentFits(vs);
  }

  lemma OffsetFits(block: seq<DirEnt>, pos: Pos, i: nat)
    requires FitsBlock(block, pos) && i < |block|
    ensures 12 * |block| + NamesBefore(block, i) < 0x1_0000
    ensures pos.inodes[block[i].inode] / 32 < 0x1_0000_0000
  {
    hide DirNames, NamesBefore, NamesSize, NulFree;
    NameAt(block, i);
  }

  lemma HeaderSlice(block: seq<DirEnt>, pos: Pos, padding: nat, i: nat)
    requires WritableBlock(block, |pos.inodes|) && i < |block|
    ensures Slice(BlockBytes(block, pos) + Zeros(padding), i * 12, (i + 1) * 12)
         == Some(DirentRecord([pos.inodes[block[i].inode] / 32,
                               12 * |block| + NamesBefore(block, i),
                               block[i].fileType.Number(), 0]))
  {
    hide DirHeaders, DirNames, NamesBefore, DirentRecord;
    var headers := DirHeaders(block, 12 * |block|, pos);
    SliceLeft(headers, DirNames(block), 12 * i, 12 * i + 12);
    SliceLeft(BlockBytes(block, pos), Zeros(padding), 12 * i, 12 * i + 12);
    HeaderAt(block, 12 * |block|, pos, i);
  }

  lemma DirentFits(vs: seq<nat>)
    requires |vs| == 4 && vs[0] < 0x1_0000_0000 && vs[1] < 0x1_0000 && vs[2] < 256 && vs[3] == 0
    ensures Record(DIRENT_WIDTHS, DirentRecord(vs)) == Some(vs)
  {
    ShortWidthSums();
    Pow256Values();
    RecordOfPack(DIRENT_WIDTHS, vs, []);
    assert DirentRecord(vs) + [] == DirentRecord(vs);
  }

  lemma EntryAtOf(block: seq<DirEnt>, pos: Pos, padding: nat, i: nat)
    requires FitsBlock(block, pos) && i < |block|
    ensures EntryAt(BlockBytes(block, pos) + Zeros(padding), |block|, i)
         == Some(EntryOf(block[i], pos))
  {
    hide EntryHeader, BlockBytes, FirstZero;
    var n, data := 12 * |block|, BlockBytes(block, pos) + Zeros(padding);
    var lo, hi := NamesBefore(block, i), NamesBefore(block, i + 1);
    EntryHeaderOf(block, pos, padding, i);
    NameSlice(block, pos, padding, i);
    if i + 1 == |block| {
      FirstZeroAfter(block[i].name, padding);
    } else {
      EntryHeaderOf(block, pos, padding, i + 1);
    }
  }

  lemma NameSlice(block: seq<DirEnt>, pos: Pos, padding: nat, i: nat)
    requires WritableBlock(block, |pos.inodes|) && i < |block|
    ensures
      var n, data := 12 * |block|, BlockBytes(block, pos) + Zeros(padding);
      var lo, hi := n + NamesBefore(block, i), n + NamesBefore(block, i + 1);
      && lo <= hi <= |data| && data[lo..hi] == block[i].name
      && (i + 1 == |block| ==> data[lo..] == block[i].name + Zeros(padding))
  {
    hide DirHeaders, DirNames, NamesBefore;
    var lo, hi := NamesBefore(block, i), NamesBefore(block, i + 1);
    var headers, names := DirHeaders(block, 12 * |block|, pos), DirNames(block);
    NameAt(block, i);
    SliceRight(headers, names, lo, hi);
    SliceLeft(BlockBytes(block, pos), Zeros(padding), 12 * |block| + lo, 12 * |block| + hi);
    var data := BlockBytes(block, pos) + Zeros(padding);
    if i + 1 == |block| {
      assert data[12 * |block| + lo..]
          == data[12 * |block| + lo..12 * |block| + hi] + Zeros(padding);
    }
  }

  lemma FirstZeroAfter(name: bytes, padding: nat)
    requires NulFree(name)
    ensures FirstZero(name + Zeros(padding)) == |name|
    ensures (name + Zeros(padding))[..|name|] == name
  {
    var b := name + Zeros(padding);
    assert padding > 0 ==> b[|name|] == 0;
    assert forall i :: 0 <= i < |name| ==> b[i] == name[i];
  }

  lemma {:induction false} EntriesFromOf(block: seq<DirEnt>, pos: Pos, padding: nat, i: nat)
    requires FitsBlock(block, pos) && i <= |block|
    ensures EntriesFrom(BlockBytes(block, pos) + Zeros(padding), |block|, i)
         == Some(EntriesOf(block, pos)[i..])
    decreases |block| - i
  {
    hide BlockBytes, EntryAt;
    if i < |block| {
      EntryAtOf(block, pos, padding, i);
      EntriesFromOf(block, pos, padding, i + 1);
      var es := EntriesOf(block, pos);
      assert es[i..] == [es[i]] + es[i + 1..];
    } else {
      assert EntriesOf(block, pos)[i..] == [];
    }
  }

  /** Parsing a written directory block gives its entries back, whatever the zero padding. */
  lemma BlockRoundTrip(block: seq<DirEnt>, pos: Pos, padding: nat)
    requires FitsBlock(block, pos)
    ensures BlockEntries(BlockBytes(block, pos) + Zeros(padding)) == Some(EntriesOf(block, pos))
  {
    hide BlockBytes, EntriesFrom, EntryHeader;
    EntryHeaderOf(block, pos, padding, 0);
    EntriesFromOf(block, pos, padding, 0);
    assert EntriesOf(block, pos)[0..] == EntriesOf(block, pos);
    MulMod(|block|, 12);
    DivUnique(12 * |block|, 12, |block|, 0);
  }

  // ---- inodes ----

  /** The reader's view of a written inode. */
  function ViewOf(inode: Inode, blockOffset: nat, pos: Pos): View
    requires WritableInode(inode, |pos.inodes|, |pos.xattrs|)
  {
    View(true, LayoutOf(inode.content), Icount(XattrsSize(inode.xattrs)),
         ModeOf(inode.content.FileType(), inode.stat.mode), SizeOf(inode.content),
         UnionOf(inode.content, blockOffset), inode.stat.uid, inode.stat.gid,
         AsU64(inode.stat.mtime), LinksOf(inode.content),
         XattrsBytes(inode.xattrs, pos) + TailBytes(inode.content, pos))
  }

  /** Field sizes of an inode. */
  ghost predicate FitsHeader(inode: Inode) {
    && FitsXattrs(inode.xattrs)
    && SizeOf(inode.content) < 0x1_0000_0000_0000_0000
    && LinksOf(inode.content) < 0x1_0000_0000
  }

  /** The fields fit and the stored tail is as long as the layout says. */
  ghost predicate FitsInode(inode: Inode) {
    && FitsHeader(inode)
    && (LayoutOf(inode.content) == FlatInline ==>
          TailSize(inode.content) == SizeOf(inode.content) % 4096)
  }

  lemma HeaderFits(inode: Inode, at: nat, blockOffset: nat)
    requires FitsHeader(inode) && at / 32 < 0x1_0000_0000
    ensures Fits(INODE_WIDTHS, HeaderFields(inode, XattrsSize(inode.xattrs), at, blockOffset))
  {
    hide XattrsSize, LayoutOf, SizeOf, LinksOf, TailSize, FitsXattr, BitOr;
    Pow256Values();
    ModeBelow(inode.content.FileType(), inode.stat.mode);
    var vs := HeaderFields(inode, XattrsSize(inode.xattrs), at, blockOffset);
    assert vs[3] == vs[10] == vs[12] == 0;
    assert Pow256(16) > 0;
  }

  lemma ModeBelow(t: FileType, mode: u32)
    ensures ModeOf(t, mode) < 0x1_0000
  {
    Pow2Values();
    OrBelow(t.Ifmt(), mode % 0x1_0000, 16);
  }

  lemma FormatInverts(layout: DataLayout)
    ensures DataLayoutOf(FormatOf(layout)) == Some(layout) && IsExtended(FormatOf(layout) % 256)
  {
  }

  /** Reading the header of a written inode; the data after it is still to be cut. */
  lemma HeaderRoundTrip(inode: Inode, at: nat, blockOffset: nat, pos: Pos, rest: bytes)
    requires WritableInode(inode, |pos.inodes|, |pos.xattrs|)
    requires FitsHeader(inode) && at / 32 < 0x1_0000_0000
    ensures
      var data, v := InodeBytes(inode, at, blockOffset, pos) + rest, ViewOf(inode, blockOffset, pos);
      && data != [] && IsExtended(data[0])
      && ReadExtended(data, 12)
         == WithData(v.(layout := FlatPlain, data := []), FormatOf(v.layout), v.data + rest, 12)
  {
    hide ModeOf, UnionOf, Icount, LayoutOf, SizeOf, LinksOf, XattrsSize, XattrsBytes, TailBytes,
      WithData, FormatOf, IsExtended, Unpack, FitsXattr;
    var vs := HeaderFields(inode, XattrsSize(inode.xattrs), at, blockOffset);
    var head := InodeRecord(vs);
    var body := XattrsBytes(inode.xattrs, pos) + TailBytes(inode.content, pos);
    var data := InodeBytes(inode, at, blockOffset, pos) + rest;
    assert data == head + (body + rest) by {
      hide HeaderFields, XattrsBytes, TailBytes;
    }
    HeaderFits(inode, at, blockOffset);
    InodeWidthSum();
    RecordOfPack(INODE_WIDTHS, vs, body + rest);
    assert data[64..] == body + rest;
    assert data[0] == FormatOf(LayoutOf(inode.content)) % 256 by {
      FirstByte(vs);
    }
    FormatInverts(LayoutOf(inode.content));
  }

  lemma FirstByte(vs: seq<nat>)
    requires |vs| == 13
    ensures InodeRecord(vs)[0] == vs[0] % 256
  {
  }

  /** Reading the bytes of an inode gives the view of what was written, for each layout. */
  lemma InodeRoundTrip(inode: Inode, at: nat, blockOffset: nat, pos: Pos, rest: bytes)
    requires WritableInode(inode, |pos.inodes|, |pos.xattrs|)
    requires FitsInode(inode) && at / 32 < 0x1_0000_0000
    ensures
      var data := InodeBytes(inode, at, blockOffset, pos) + rest;
      && data != [] && IsExtended(data[0])
      && ReadExtended(data, 12) == Some(ViewOf(inode, blockOffset, pos))
  {
    hide ModeOf, UnionOf, Icount, LayoutOf, SizeOf, LinksOf, XattrsSize, XattrsBytes, TailBytes,
      WithData, FormatOf, IsExtended, Unpack, InodeBytes, ReadExtended, FitsXattrs, ViewOf;
    HeaderRoundTrip(inode, at, blockOffset, pos, rest);
    DataOf(inode, blockOffset, pos, rest);
  }

  lemma DataOf(inode: Inode, blockOffset: nat, pos: Pos, rest: bytes)
    requires WritableInode(inode, |pos.inodes|, |pos.xattrs|) && FitsInode(inode)
    ensures
      var v := ViewOf(inode, blockOffset, pos);
      WithData(v.(layout := FlatPlain, data := []), FormatOf(v.layout), v.data + rest, 12) == Some(v)
  {
    var v := ViewOf(inode, blockOffset, pos);
    FormatInverts(v.layout);
    IcountInverts(inode.xattrs);
    Pow2Values();
    assert |v.data| == AdditionalBytes(v.layout, v.icount, v.size, 4096);
    assert (v.data + rest)[0..|v.data|] == v.data;
  }

  /** A file body that is stored inline. */
  ghost predicate InlineBody(c: Content, body: bytes) {
    && c.LeafContent?
    && (c.content == Inline(body) || c.content == Symlink(body)) && body != []
  }

  function ReadBody(data: bytes): Option<bytes> {
    match ReadExtended(data, 12)
    case None => None
    case Some(v) => InlineOf(v)
  }

  /** As many bytes as do not fill whole blocks. */
  function LastPart(body: bytes): bytes {
    body[..|body| % 4096]
  }

  /** The reader takes the size of the inline part modulo the block size, so a body or symlink
      target reads back exactly when it is shorter than a block. */
  lemma BodyReadsBackIff(inode: Inode, body: bytes, at: nat, blockOffset: nat, pos: Pos, rest: bytes)
    requires WritableInode(inode, |pos.inodes|, |pos.xattrs|)
    requires FitsHeader(inode) && at / 32 < 0x1_0000_0000
    requires InlineBody(inode.content, body)
    ensures
      var r := ReadBody(InodeBytes(inode, at, blockOffset, pos) + rest);
      r == Some(LastPart(body)) && (r == Some(body) <==> |body| < 4096)
  {
    hide ModeOf, UnionOf, Icount, XattrsSize, XattrsBytes, Unpack, InodeBytes, ReadExtended,
      FitsXattrs, FormatOf, XattrSize, LinksOf;
    HeaderRoundTrip(inode, at, blockOffset, pos, rest);
    var v, xs := ViewOf(inode, blockOffset, pos), XattrsBytes(inode.xattrs, pos);
    FormatInverts(v.layout);
    IcountInverts(inode.xattrs);
    Pow2Values();
    var n := |body| % 4096;
    assert v.data == xs + body && |xs| == XattrSize(v.icount);
    assert (v.data + rest)[0..|xs| + n] == xs + body[..n];
    assert (xs + body[..n])[|xs|..] == body[..n];
  }
}
