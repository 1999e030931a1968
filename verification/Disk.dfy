/** Where the fields of an image are, byte by byte: the reader of `ErofsReader` looks at these
    places, whatever the image, and numbers have their least byte first. */
module Disk {
  import opened Bytes
  import opened ErofsFormat
  import opened LittleEndian
  import R = ErofsReader

  // ---- fields of a record ----

  /** Where field `i` starts. */
  function Before(ws: seq<nat>, i: nat): nat
    requires i <= |ws|
  {
    if i == 0 then 0 else Before(ws, i - 1) + ws[i - 1]
  }

  lemma {:induction false} BeforeTail(ws: seq<nat>, i: nat)
    requires 0 < i <= |ws|
    ensures Before(ws, i) == ws[0] + Before(ws[1..], i - 1)
  {
    if i > 1 {
      BeforeTail(ws, i - 1);
    }
  }

  lemma {:induction false} FieldAt(ws: seq<nat>, b: bytes, i: nat)
    requires Sum(ws) <= |b| && i < |ws|
    ensures Before(ws, i) + ws[i] <= |b|
    ensures Unpack(ws, b)[i] == FromLE(b[Before(ws, i)..Before(ws, i) + ws[i]])
  {
    hide FromLE;
    if i == 0 {
      assert b[0..ws[0]] == b[..ws[0]];
    } else {
      BeforeTail(ws, i);
      FieldAt(ws[1..], b[ws[0]..], i - 1);
      var at := Before(ws[1..], i - 1);
      assert b[ws[0]..][at..at + ws[i]] == b[ws[0] + at..ws[0] + at + ws[i]];
    }
  }

  lemma FieldOf(ws: seq<nat>, b: bytes, i: nat, at: nat)
    requires Sum(ws) <= |b| && i < |ws| && Before(ws, i) == at && ws[i] in {1, 2, 4, 8}
    ensures Has(b, at, ws[i])
    ensures
      Unpack(ws, b)[i]
      == (if ws[i] == 1 then b[at] else if ws[i] == 2 then U16(b, at) else if ws[i] == 4 then U32(b, at) else U64(b, at))
  {
    hide FromLE, Unpack, Before;
    FieldAt(ws, b, i);
    if ws[i] == 1 {
      assert b[at..at + 1] == [b[at]];
      OneByte(b[at]);
    } else if ws[i] == 2 {
      Two(b, at);
    } else if ws[i] == 4 {
      Four(b, at);
    } else {
      Eight(b, at);
    }
  }

  lemma ExtendedPlaces()
    ensures Before(INODE_WIDTHS, 1) == 2 && Before(INODE_WIDTHS, 2) == 4 && Before(INODE_WIDTHS, 4) == 8
    ensures Before(INODE_WIDTHS, 5) == 16 && Before(INODE_WIDTHS, 7) == 24 && Before(INODE_WIDTHS, 8) == 28
    ensures Before(INODE_WIDTHS, 9) == 32 && Before(INODE_WIDTHS, 11) == 44 && Before(INODE_WIDTHS, 0) == 0
  {
    assert Before(INODE_WIDTHS, 2) == 4;
    assert Before(INODE_WIDTHS, 4) == 8;
    assert Before(INODE_WIDTHS, 6) == 20;
    assert Before(INODE_WIDTHS, 8) == 28;
    assert Before(INODE_WIDTHS, 10) == 40;
  }

  lemma CompactPlaces()
    ensures Before(COMPACT_WIDTHS, 0) == 0 && Before(COMPACT_WIDTHS, 1) == 2 && Before(COMPACT_WIDTHS, 2) == 4
    ensures Before(COMPACT_WIDTHS, 3) == 6 && Before(COMPACT_WIDTHS, 4) == 8 && Before(COMPACT_WIDTHS, 6) == 16
    ensures Before(COMPACT_WIDTHS, 8) == 24 && Before(COMPACT_WIDTHS, 9) == 26
  {
    assert Before(COMPACT_WIDTHS, 2) == 4;
    assert Before(COMPACT_WIDTHS, 4) == 8;
    assert Before(COMPACT_WIDTHS, 6) == 16;
    assert Before(COMPACT_WIDTHS, 8) == 24;
  }

  lemma CompactSum()
    ensures Sum(COMPACT_WIDTHS) == 32
  {
    SumIsBefore(COMPACT_WIDTHS);
    CompactPlaces();
    assert Before(COMPACT_WIDTHS, 11) == Before(COMPACT_WIDTHS, 9) + 6;
  }

  lemma {:induction false} SumIsBefore(ws: seq<nat>)
    ensures Sum(ws) == Before(ws, |ws|)
  {
    if ws != [] {
      SumIsBefore(ws[1..]);
      BeforeTail(ws, |ws|);
    }
  }

  // ---- inodes ----

  /** The layout in bits 1 to 3 of the format. */
  predicate LayoutIs(format: nat, layout: DataLayout) {
    match layout
    case FlatPlain => format / 2 % 8 == 0
    case FlatInline => format / 2 % 8 == 2
    case ChunkBased => format / 2 % 8 == 4
  }

  function AttributesSize(icount: nat): nat {
    if icount == 0 then 0 else 8 + 4 * icount
  }

  /** What stands behind the header: the attributes, then the inline part or four bytes of chunk. */
  function Behind(layout: DataLayout, icount: nat, size: nat, blockSize: nat): nat
    requires blockSize > 0
  {
    AttributesSize(icount)
    + (match layout case FlatPlain => 0 case FlatInline => size % blockSize case ChunkBased => 4)
  }

  /** A 64-byte header at `at` with what follows, or a 32-byte one, as bit 0 of the format says. */
  ghost predicate InodeAt(b: bytes, at: nat, blkszbits: nat, v: R.View) {
    && Has(b, at, 32) && LayoutIs(U16(b, at), v.layout)
    && v.icount == U16(b, at + 2) && v.mode == U16(b, at + 4)
    && var n := Behind(v.layout, v.icount, v.size, Pow2(blkszbits));
    if b[at] % 2 == 1 then
      && v.extended && Has(b, at, 64 + n) && v.data == b[at + 64..at + 64 + n]
      && v.size == U64(b, at + 8) && v.union == U32(b, at + 16) && v.uid == U32(b, at + 24)
      && v.gid == U32(b, at + 28) && v.mtime == U64(b, at + 32) && v.nlink == U32(b, at + 44)
    else
      && !v.extended && Has(b, at, 32 + n) && v.data == b[at + 32..at + 32 + n]
      && v.size == U32(b, at + 8) && v.union == U32(b, at + 16) && v.uid == U16(b, at + 24)
      && v.gid == U16(b, at + 26) && v.mtime == 0 && v.nlink == U16(b, at + 6)
  }

  lemma WithDataIs(v: R.View, format: nat, after: bytes, k: nat)
    ensures
      match R.WithData(v, format, after, k)
      case None => forall l :: LayoutIs(format, l) ==> !Has(after, 0, Behind(l, v.icount, v.size, Pow2(k)))
      case Some(r) =>
        && LayoutIs(format, r.layout) && r == v.(layout := r.layout, data := r.data)
        && Has(after, 0, Behind(r.layout, v.icount, v.size, Pow2(k)))
        && r.data == after[..Behind(r.layout, v.icount, v.size, Pow2(k))]
    ensures forall l, m :: LayoutIs(format, l) && LayoutIs(format, m) ==> l == m
  {
    hide Pow2;
  }

  lemma ExtendedIs(data: bytes, k: nat)
    requires data != [] && IsExtended(data[0])
    ensures forall v :: R.ReadExtended(data, k) == Some(v) <==> InodeAt(data, 0, k, v)
  {
    hide Unpack, Before, Sum, Pow2, R.WithData, Behind;
    var ws := INODE_WIDTHS;
    InodeWidthSum();
    ExtendedPlaces();
    if |data| >= 64 {
      var vs := Unpack(ws, data);
      FieldOf(ws, data, 0, 0);
      FieldOf(ws, data, 1, 2);
      FieldOf(ws, data, 2, 4);
      FieldOf(ws, data, 4, 8);
      FieldOf(ws, data, 5, 16);
      FieldOf(ws, data, 7, 24);
      FieldOf(ws, data, 8, 28);
      FieldOf(ws, data, 9, 32);
      FieldOf(ws, data, 11, 44);
      WithDataIs(R.View(true, FlatPlain, vs[1], vs[2], vs[4], vs[5], vs[7], vs[8], vs[9], vs[11], []), vs[0],
                 data[64..], k);
      forall v | InodeAt(data, 0, k, v)
        ensures R.ReadExtended(data, k) == Some(v)
      {
        var n := Behind(v.layout, v.icount, v.size, Pow2(k));
        assert LayoutIs(vs[0], v.layout) && Has(data[64..], 0, n) && data[64..][..n] == data[64..64 + n];
      }
    }
  }

  lemma CompactIs(data: bytes, k: nat)
    requires data != [] && !IsExtended(data[0])
    ensures forall v :: R.ReadCompact(data, k) == Some(v) <==> InodeAt(data, 0, k, v)
  {
    hide Unpack, Before, Sum, Pow2, R.WithData, Behind;
    var ws := COMPACT_WIDTHS;
    CompactPlaces();
    CompactSum();
    if |data| >= 32 {
      var vs := Unpack(ws, data);
      FieldOf(ws, data, 0, 0);
      FieldOf(ws, data, 1, 2);
      FieldOf(ws, data, 2, 4);
      FieldOf(ws, data, 3, 6);
      FieldOf(ws, data, 4, 8);
      FieldOf(ws, data, 6, 16);
      FieldOf(ws, data, 8, 24);
      FieldOf(ws, data, 9, 26);
      WithDataIs(R.View(false, FlatPlain, vs[1], vs[2], vs[4], vs[6], vs[8], vs[9], 0, vs[3], []), vs[0],
                 data[32..], k);
      forall v | InodeAt(data, 0, k, v)
        ensures R.ReadCompact(data, k) == Some(v)
      {
        var n := Behind(v.layout, v.icount, v.size, Pow2(k));
        assert LayoutIs(vs[0], v.layout) && Has(data[32..], 0, n) && data[32..][..n] == data[32..32 + n];
      }
    }
  }

  lemma Shift(b: bytes, at: nat, k: nat, v: R.View)
    requires at <= |b|
    ensures InodeAt(b[at..], 0, k, v) <==> InodeAt(b, at, k, v)
  {
    hide Pow2, Behind, LayoutIs;
    var d := b[at..];
    assert forall i :: 0 <= i < |d| ==> d[i] == b[at + i];
    var n := Behind(v.layout, v.icount, v.size, Pow2(k));
    if Has(b, at, 64 + n) {
      assert d[64..64 + n] == b[at + 64..at + 64 + n];
    }
    if Has(b, at, 32 + n) {
      assert d[32..32 + n] == b[at + 32..at + 32 + n];
    }
  }

  /** An inode reads as what stands at these places, 32 bytes per inode number behind the start of
      the inodes, and cannot be read exactly when there is no such header. */
  lemma ReadInodeIs(img: R.Img, nid: nat)
    ensures forall v :: R.ReadInode(img, nid) == Some(v) <==> InodeAt(img.inodes, nid * 32, img.blkszbits, v)
  {
    hide InodeAt, R.ReadExtended, R.ReadCompact;
    forall v
      ensures R.ReadInode(img, nid) == Some(v) <==> InodeAt(img.inodes, nid * 32, img.blkszbits, v)
    {
      HeaderFits(img.inodes, nid * 32, img.blkszbits, v);
      if nid * 32 < |img.inodes| {
        var data := img.inodes[nid * 32..];
        if IsExtended(data[0]) {
          ExtendedIs(data, img.blkszbits);
        } else {
          CompactIs(data, img.blkszbits);
        }
        Shift(img.inodes, nid * 32, img.blkszbits, v);
      }
    }
  }

  lemma HeaderFits(b: bytes, at: nat, k: nat, v: R.View)
    ensures InodeAt(b, at, k, v) ==> at < |b|
  {
  }

  // ---- the superblock ----

  /** Behind 1024 bytes: the logarithm of the block size at 12, the root at 14, and the block where
      inodes and the one where shared attributes start at 40 and 44. */
  ghost predicate OpenedAt(image: bytes, img: R.Img) {
    && Has(image, 1024, 128) && img.image == image
    && img.blkszbits == image[1036] < 64 && img.rootNid == U16(image, 1038)
    && Has(image, 0, U32(image, 1064) * Pow2(img.blkszbits))
    && img.inodes == image[U32(image, 1064) * Pow2(img.blkszbits)..]
    && Has(image, 0, U32(image, 1068) * Pow2(img.blkszbits))
    && img.xattrs == image[U32(image, 1068) * Pow2(img.blkszbits)..]
  }

  lemma SuperblockPlaces()
    ensures Before(SUPERBLOCK_WIDTHS, 0) == 0 && Before(SUPERBLOCK_WIDTHS, 1) == 4 && Before(SUPERBLOCK_WIDTHS, 2) == 8
    ensures Before(SUPERBLOCK_WIDTHS, 3) == 12 && Before(SUPERBLOCK_WIDTHS, 4) == 13
    ensures Before(SUPERBLOCK_WIDTHS, 5) == 14 && Before(SUPERBLOCK_WIDTHS, 6) == 16
  {
    assert Before(SUPERBLOCK_WIDTHS, 2) == 8;
    assert Before(SUPERBLOCK_WIDTHS, 4) == 13;
  }

  lemma SuperblockPlacesBehind()
    ensures Before(SUPERBLOCK_WIDTHS, 7) == 24 && Before(SUPERBLOCK_WIDTHS, 8) == 32
    ensures Before(SUPERBLOCK_WIDTHS, 9) == 36 && Before(SUPERBLOCK_WIDTHS, 10) == 40
    ensures Before(SUPERBLOCK_WIDTHS, 11) == 44 && Before(SUPERBLOCK_WIDTHS, 12) == 48
  {
    SuperblockPlaces();
    assert Before(SUPERBLOCK_WIDTHS, 8) == 32;
    assert Before(SUPERBLOCK_WIDTHS, 10) == 40;
  }

  lemma OpenIs(image: bytes)
    ensures forall img :: R.Open(image) == Some(img) <==> OpenedAt(image, img)
  {
    hide Unpack, Before, Sum, Pow2, U16, U32;
    SuperblockWidthSum();
    if |image| >= 1152 {
      var b := image[1024..];
      SuperblockPlaces();
      SuperblockPlacesBehind();
      FieldOf(SUPERBLOCK_WIDTHS, b, 3, 12);
      FieldOf(SUPERBLOCK_WIDTHS, b, 5, 14);
      FieldOf(SUPERBLOCK_WIDTHS, b, 10, 40);
      FieldOf(SUPERBLOCK_WIDTHS, b, 11, 44);
      SlicedNumbers(image, 1024, 14);
      SlicedNumbers(image, 1024, 40);
      SlicedNumbers(image, 1024, 44);
    }
  }

  lemma SlicedNumbers(b: bytes, from: nat, at: nat)
    requires from <= |b|
    ensures Has(b, from + at, 2) ==> U16(b[from..], at) == U16(b, from + at)
    ensures Has(b, from + at, 4) ==> U32(b[from..], at) == U32(b, from + at)
    ensures Has(b, from + at, 8) ==> U64(b[from..], at) == U64(b, from + at)
  {
  }

  // ---- attributes and directory entries ----

  /** Length of the suffix, number of the prefix, length of the value; then both, padded to four. */
  ghost predicate XattrAt(data: bytes, x: XAttr, rest: bytes) {
    && Has(data, 0, 4)
    && var n, m := data[0] as int, U16(data, 2);
    var end := 4 + (n + m + 3) / 4 * 4;
    && Has(data, 0, end) && rest == data[end..]
    && x.prefix == data[1] && x.suffix == data[4..4 + n] && x.value == data[4 + n..4 + n + m]
  }

  lemma XattrIs(data: bytes)
    ensures forall p :: R.ParseXattr(data) == Some(p) <==> XattrAt(data, p.value, p.rest)
  {
    hide Unpack, Before, Sum, U16;
    ShortWidthSums();
    if |data| >= 4 {
      assert Before(XATTR_WIDTHS, 0) == 0 && Before(XATTR_WIDTHS, 1) == 1 && Before(XATTR_WIDTHS, 2) == 2 by {
        XattrPlaces();
      }
      FieldOf(XATTR_WIDTHS, data, 0, 0);
      FieldOf(XATTR_WIDTHS, data, 1, 1);
      FieldOf(XATTR_WIDTHS, data, 2, 2);
    }
  }

  lemma XattrPlaces()
    ensures Before(XATTR_WIDTHS, 0) == 0 && Before(XATTR_WIDTHS, 1) == 1 && Before(XATTR_WIDTHS, 2) == 2
  {
    assert Before(XATTR_WIDTHS, 1) == 1;
  }

  /** The filter, the number of shared attributes, seven bytes, their offsets in units of four, the
      attributes themselves. */
  lemma SectionIs(section: bytes, x: R.XattrsView)
    requires R.ParseXattrs(section) == Some(x)
    ensures Has(section, 0, 12) && x.filter == U32(section, 0) && |x.shared| == section[4]
    ensures Has(section, 12, 4 * |x.shared|)
    ensures forall i :: 0 <= i < |x.shared| ==> x.shared[i] == U32(section, 12 + 4 * i)
    ensures R.LocalXattrs(section[12 + 4 * |x.shared|..]) == Some(x.local)
  {
    hide Unpack, Before, Sum, U32, R.LocalXattrs, R.Ids;
    ShortWidthSums();
    SectionPlaces();
    FieldOf(XATTRS_WIDTHS, section, 0, 0);
    FieldOf(XATTRS_WIDTHS, section, 1, 4);
    IdsAre(section[4], section[12..]);
    forall i | 0 <= i < |x.shared|
      ensures x.shared[i] == U32(section, 12 + 4 * i)
    {
      SlicedNumbers(section, 12, 4 * i);
    }
  }

  lemma SectionPlaces()
    ensures Before(XATTRS_WIDTHS, 0) == 0 && Before(XATTRS_WIDTHS, 1) == 4
  {
  }

  lemma {:induction false} IdsAre(n: nat, data: bytes)
    ensures
      match R.Ids(n, data)
      case None => true
      case Some(p) =>
        && |p.value| == n && Has(data, 0, 4 * n) && p.rest == data[4 * n..]
        && forall i :: 0 <= i < n ==> p.value[i] == U32(data, 4 * i)
  {
    hide U32, FromLE;
    if n > 0 && |data| >= 4 && R.Ids(n - 1, data[4..]).Some? {
      var p := R.Ids(n, data).value;
      IdsAre(n - 1, data[4..]);
      Four(data, 0);
      assert data[..4] == data[0..4];
      forall i | 0 <= i < n
        ensures p.value[i] == U32(data, 4 * i)
      {
        if i > 0 {
          SlicedNumbers(data, 4, 4 * (i - 1));
        }
      }
    }
  }

  /** Entry `i` of a block: the inode number, where the name starts, the type. */
  lemma EntryHeaderIs(block: bytes, i: nat)
    ensures
      match R.EntryHeader(block, i)
      case None => !Has(block, 12 * i, 12)
      case Some(h) =>
        && Has(block, 12 * i, 12) && |h| == 4
        && h[0] == U64(block, 12 * i) && h[1] == U16(block, 12 * i + 8) && h[2] == block[12 * i + 10]
  {
    hide Unpack, Before, Sum, U16, U64;
    ShortWidthSums();
    EntryPlaces();
    if Has(block, 12 * i, 12) {
      var b := block[i * 12..(i + 1) * 12];
      FieldOf(DIRENT_WIDTHS, b, 0, 0);
      FieldOf(DIRENT_WIDTHS, b, 1, 8);
      FieldOf(DIRENT_WIDTHS, b, 2, 10);
      InsideNumbers(block, 12 * i, b);
    }
  }

  lemma EntryPlaces()
    ensures Before(DIRENT_WIDTHS, 0) == 0 && Before(DIRENT_WIDTHS, 1) == 8 && Before(DIRENT_WIDTHS, 2) == 10
  {
    assert Before(DIRENT_WIDTHS, 1) == 8;
  }

  lemma InsideNumbers(block: bytes, at: nat, b: bytes)
    requires Has(block, at, 12) && b == block[at..at + 12]
    ensures U64(b, 0) == U64(block, at) && U16(b, 8) == U16(block, at + 8) && b[10] == block[at + 10]
  {
  }
}
