/** An image of a tree byte by byte: the superblock, and at each path the header, the attributes
    and the types that Linux and overlayfs look for, by their numbers. */
module OnDisk {
  import opened Bytes
  import opened Tree
  import opened ErofsFormat
  import opened ErofsImage
  import opened ErofsDecode
  import opened ErofsWriter
  import opened ErofsRoundTrip
  import opened ErofsCollect
  import opened ErofsShare
  import opened ErofsTree
  import opened ErofsMkfs
  import opened ErofsTheorem
  import opened ErofsFaithful
  import opened Disk
  import opened LittleEndian
  import opened ObjectPath
  import R = ErofsReader

  // ---- the first 1152 bytes ----

  /** The composefs header and, at 1024, the superblock. */
  ghost predicate StartsImage(image: bytes, rootNid: nat, inodes: nat) {
    && Has(image, 0, 1152)
    && U32(image, 0) == 0xD078_629A && U32(image, 4) == 1 && U32(image, 8) == 0 && U32(image, 12) == 2
    && (forall k :: 16 <= k < 1024 ==> image[k] == 0)
    && U32(image, 1024) == 0xE0F5_E1E2 && U32(image, 1028) == 0 && U32(image, 1032) == 6
    && image[1036] == 12 && image[1037] == 0 && U16(image, 1038) == rootNid
    && U64(image, 1040) == inodes && U64(image, 1048) == 0 && U32(image, 1056) == 0
    && U32(image, 1060) == |image| / 4096 && |image| % 4096 == 0
    && forall k :: 1064 <= k < 1152 ==> image[k] == 0
  }

  lemma {:induction false} ZeroBytes(b: bytes)
    requires FromLE(b) == 0
    ensures forall i :: 0 <= i < |b| ==> b[i] == 0
  {
    if b != [] {
      ZeroBytes(b[1..]);
    }
  }

  lemma HeaderBytes(rest: bytes)
    ensures
      var b := ComposefsHeaderRecord([0xd078629a, 1, 0, 2, 0]) + rest;
      && U32(b, 0) == 0xD078_629A && U32(b, 4) == 1 && U32(b, 8) == 0 && U32(b, 12) == 2
      && forall k :: 16 <= k < 32 ==> b[k] == 0
  {
    hide Pack, Unpack, Sum, FromLE, U32;
    var ws, vs := COMPOSEFS_HEADER_WIDTHS, [0xd078629a, 1, 0, 2, 0];
    var b := Pack(ws, vs) + rest;
    ShortWidthSums();
    HeaderFits(vs);
    UnpackPack(ws, vs, rest);
    HeaderPlaces();
    FieldOf(ws, b, 0, 0);
    FieldOf(ws, b, 1, 4);
    FieldOf(ws, b, 2, 8);
    FieldOf(ws, b, 3, 12);
    FieldAt(ws, b, 4);
    ZeroBytes(b[16..32]);
    assert forall k :: 16 <= k < 32 ==> b[k] == b[16..32][k - 16];
  }

  lemma HeaderFits(vs: seq<nat>)
    requires vs == [0xd078629a, 1, 0, 2, 0]
    ensures Fits(COMPOSEFS_HEADER_WIDTHS, vs)
  {
    Pow256Values();
    assert Pow256(16) > 0;
  }

  lemma HeaderPlaces()
    ensures Before(COMPOSEFS_HEADER_WIDTHS, 0) == 0 && Before(COMPOSEFS_HEADER_WIDTHS, 1) == 4
    ensures Before(COMPOSEFS_HEADER_WIDTHS, 2) == 8 && Before(COMPOSEFS_HEADER_WIDTHS, 3) == 12
    ensures Before(COMPOSEFS_HEADER_WIDTHS, 4) == 16
  {
    assert Before(COMPOSEFS_HEADER_WIDTHS, 2) == 8;
  }

  lemma SuperblockBytes(vs: seq<nat>, rootNid: nat, inos: nat, blocks: nat, rest: bytes)
    requires vs == SuperblockFields(rootNid, inos, blocks) && Fits(SUPERBLOCK_WIDTHS, vs)
    ensures
      var b := SuperblockRecord(vs) + rest;
      && U32(b, 0) == 0xE0F5_E1E2 && U32(b, 4) == 0 && U32(b, 8) == 6 && b[12] == 12 && b[13] == 0
      && U16(b, 14) == rootNid && U64(b, 16) == inos && U64(b, 24) == 0 && U32(b, 32) == 0 && U32(b, 36) == blocks
      && U32(b, 40) == 0 && U32(b, 44) == 0 && forall k :: 48 <= k < 128 ==> b[k] == 0
  {
    hide Pack, Unpack, Sum, FromLE, U16, U32, U64;
    var ws := SUPERBLOCK_WIDTHS;
    var b := Pack(ws, vs) + rest;
    SuperblockWidthSum();
    UnpackPack(ws, vs, rest);
    SuperblockPlaces();
    SuperblockPlacesBehind();
    FieldOf(ws, b, 0, 0);
    FieldOf(ws, b, 1, 4);
    FieldOf(ws, b, 2, 8);
    FieldOf(ws, b, 3, 12);
    FieldOf(ws, b, 4, 13);
    FieldOf(ws, b, 5, 14);
    FieldOf(ws, b, 6, 16);
    FieldOf(ws, b, 7, 24);
    FieldOf(ws, b, 8, 32);
    FieldOf(ws, b, 9, 36);
    FieldOf(ws, b, 10, 40);
    FieldOf(ws, b, 11, 44);
    FieldAt(ws, b, 12);
    ZeroBytes(b[48..128]);
    assert forall k :: 48 <= k < 128 ==> b[k] == b[48..128][k - 48];
  }

  lemma ZeroNumber(b: bytes, at: nat)
    requires Has(b, at, 4) && U32(b, at) == 0
    ensures b[at] == 0 && b[at + 1] == 0 && b[at + 2] == 0 && b[at + 3] == 0
  {
  }

  /** The image ends where the last block ends. */
  lemma EndIsLength(inodes: seq<Inode>, xattrs: seq<XAttr>)
    requires Writable(inodes, xattrs)
    ensures TruePos(inodes, xattrs).end == |FinalImage(inodes, xattrs)| && |FinalImage(inodes, xattrs)| % 4096 == 0
  {
    hide Image, WritableInode;
  }

  lemma ImageParts(inodes: seq<Inode>, xattrs: seq<XAttr>)
    requires Writable(inodes, xattrs)
    ensures
      var pos, image := TruePos(inodes, xattrs), FinalImage(inodes, xattrs);
      var head := ComposefsHeaderRecord([0xd078629a, 1, 0, 2, 0]);
      var sb := SuperblockRecord(SuperblockFields(pos.inodes[0] / 32, |inodes|, pos.end / 4096));
      && |image| >= 1152 && image[..1024] == head + Zeros(992)
      && image[1024..] == sb + image[1152..]
  {
    hide TruePos, Image, FinalImage, WritableInode, SuperblockRecord, SuperblockFields, ComposefsHeaderRecord;
    var pos, image := TruePos(inodes, xattrs), FinalImage(inodes, xattrs);
    FinalImageIs(inodes, xattrs);
    InodesInImage(inodes, xattrs, pos, 0);
    SuperblockSlice(inodes, xattrs);
    assert Preamble(inodes, pos) <= image;
    assert image[..1024] == Preamble(inodes, pos)[..1024];
  }

  /** The image of a tree starts with the composefs header and the superblock, with the number of
      the root, the number of inodes and the number of blocks. */
  lemma ImageStarts(ctx: Context, root: Node)
    requires FitsFs(ctx, root) && |MkfsImage(ctx, root)| < 0x1_0000_0000
    ensures
      var image := MkfsImage(ctx, root);
      WalkRoot(image, []).Some? && StartsImage(image, WalkRoot(image, []).value, |Collect(ctx, root).inodes|)
  {
    hide TruePos, FinalImage, Decodable, PermissionsOnly, Collect, R.Open, SuperblockRecord,
      ComposefsHeaderRecord, OpenedImage, U16, U32, U64, FitsLeaves, FitsNode;
    var inodes, xattrs, image := PlanInodes(ctx, root), PlanXattrs(ctx, root), MkfsImage(ctx, root);
    PlanWritable(ctx, root);
    PlanOpens(ctx, root);
    DecodableWritable(inodes, xattrs);
    var pos := TruePos(inodes, xattrs);
    var vs := SuperblockFields(pos.inodes[0] / 32, |inodes|, pos.end / 4096);
    ImageParts(inodes, xattrs);
    SuperblockFits(inodes, xattrs);
    SuperblockBytes(vs, pos.inodes[0] / 32, |inodes|, pos.end / 4096, image[1152..]);
    HeaderBytes(Zeros(992) + image[1024..]);
    EndIsLength(inodes, xattrs);
    OpenedParts(inodes, xattrs);
    SameStart(image, ComposefsHeaderRecord([0xd078629a, 1, 0, 2, 0]), SuperblockRecord(vs), pos.inodes[0] / 32, |inodes|);
  }

  lemma DecodableWritable(inodes: seq<Inode>, xattrs: seq<XAttr>)
    requires Decodable(inodes, xattrs)
    ensures Writable(inodes, xattrs)
  {
    hide FinalImage, DecodableInode;
  }

  lemma SameStart(image: bytes, head: bytes, sb: bytes, rootNid: nat, inos: nat)
    requires |image| >= 1152 && |head| == 32 && |sb| == 128 && |image| % 4096 == 0
    requires image[..1024] == head + Zeros(992) && image[1024..] == sb + image[1152..]
    requires
      var b := head + (Zeros(992) + image[1024..]);
      && U32(b, 0) == 0xD078_629A && U32(b, 4) == 1 && U32(b, 8) == 0 && U32(b, 12) == 2
      && forall k :: 16 <= k < 32 ==> b[k] == 0
    requires
      var b := sb + image[1152..];
      && U32(b, 0) == 0xE0F5_E1E2 && U32(b, 4) == 0 && U32(b, 8) == 6 && b[12] == 12 && b[13] == 0
      && U16(b, 14) == rootNid && U64(b, 16) == inos && U64(b, 24) == 0 && U32(b, 32) == 0
      && U32(b, 36) == |image| / 4096
      && U32(b, 40) == 0 && U32(b, 44) == 0 && forall k :: 48 <= k < 128 ==> b[k] == 0
    ensures StartsImage(image, rootNid, inos)
  {
    hide U16, U32, U64;
    var a, b := head + (Zeros(992) + image[1024..]), sb + image[1152..];
    assert a == image by {
      assert image == image[..1024] + image[1024..];
    }
    assert b == image[1024..];
    forall at | at in {0, 4, 8, 32, 36, 40, 44}
      ensures U32(image, 1024 + at) == U32(b, at)
    {
      SlicedNumbers(image, 1024, at);
    }
    SlicedNumbers(image, 1024, 14);
    SlicedNumbers(image, 1024, 16);
    SlicedNumbers(image, 1024, 24);
    ZeroNumber(b, 40);
    ZeroNumber(b, 44);
    forall k | 16 <= k < 1024
      ensures image[k] == 0
    {
      if k >= 32 {
        assert image[..1024][k] == Zeros(992)[k - 32];
      }
    }
    forall k | 1064 <= k < 1152
      ensures image[k] == 0
    {
      assert image[k] == b[k - 1024];
    }
  }

  // ---- numbers and names of types ----

  /** The type bits of a mode, as Linux has them. */
  function TypeBits(leaves: seq<Leaf>, node: Node): nat
    requires node.File? ==> node.id < |leaves|
  {
    if node.Dir? then 0x4000
    else
      match leaves[node.id].content
      case Inline(_) => 0x8000
      case External(_, _) => 0x8000
      case BlockDevice(_) => 0x6000
      case CharacterDevice(_) => 0x2000
      case Fifo => 0x1000
      case Socket => 0xC000
      case Symlink(_) => 0xA000
  }

  /** The type in a directory entry. */
  function TypeByte(leaves: seq<Leaf>, node: Node): byte
    requires node.File? ==> node.id < |leaves|
  {
    if node.Dir? then 2
    else
      match leaves[node.id].content
      case Inline(_) => 1
      case External(_, _) => 1
      case BlockDevice(_) => 4
      case CharacterDevice(_) => 3
      case Fifo => 5
      case Socket => 6
      case Symlink(_) => 7
  }

  /** What the number of a prefix stands for. */
  function PrefixText(k: nat): bytes {
    match k
    case 1 => [117, 115, 101, 114, 46]
    case 2 => [115, 121, 115, 116, 101, 109, 46, 112, 111, 115, 105, 120, 95, 97, 99, 108, 95, 97, 99, 99, 101, 115, 115]
    case 3 =>
      [115, 121, 115, 116, 101, 109, 46, 112, 111, 115, 105, 120, 95, 97, 99, 108, 95, 100, 101, 102, 97, 117, 108, 116]
    case 4 => [116, 114, 117, 115, 116, 101, 100, 46]
    case 5 => [108, 117, 115, 116, 114, 101, 46]
    case 6 => [115, 101, 99, 117, 114, 105, 116, 121, 46]
    case _ => []
  }

  /** The name of an attribute as it is stored. */
  function StoredName(x: XAttr): bytes {
    PrefixText(x.prefix) + x.suffix
  }

  lemma FirstPrefixes()
    ensures XATTR_PREFIXES[0] == PrefixText(0) && XATTR_PREFIXES[1] == PrefixText(1)
    ensures XATTR_PREFIXES[4] == PrefixText(4) && XATTR_PREFIXES[5] == PrefixText(5)
    ensures XATTR_PREFIXES[6] == PrefixText(6)
  {
  }

  lemma AccessPrefix()
    ensures XATTR_PREFIXES[2] == PrefixText(2)
  {
  }

  lemma DefaultPrefix()
    ensures XATTR_PREFIXES[3] == PrefixText(3)
  {
  }

  lemma PrefixTable()
    ensures |XATTR_PREFIXES| == 7 && forall k :: 0 <= k < 7 ==> XATTR_PREFIXES[k] == PrefixText(k)
  {
    hide PrefixText, Ascii;
    FirstPrefixes();
    AccessPrefix();
    DefaultPrefix();
  }

  /** "trusted.overlay." */
  const OVERLAY_TEXT: bytes := [116, 114, 117, 115, 116, 101, 100, 46, 111, 118, 101, 114, 108, 97, 121, 46]
  /** "overlay." */
  const AGAIN: bytes := [111, 118, 101, 114, 108, 97, 121, 46]
  /** "metacopy" */
  const METACOPY_TEXT: bytes := [109, 101, 116, 97, 99, 111, 112, 121]
  /** "redirect" */
  const REDIRECT_TEXT: bytes := [114, 101, 100, 105, 114, 101, 99, 116]

  /** A name of the tree that overlayfs would take for its own is stored with `overlay.` twice. */
  function EscapedName(name: bytes): bytes {
    if OVERLAY_TEXT <= name then OVERLAY_TEXT + AGAIN + name[16..] else name
  }

  lemma MetacopyName()
    ensures METACOPY == OVERLAY_TEXT + METACOPY_TEXT
  {
  }

  lemma RedirectName()
    ensures REDIRECT == OVERLAY_TEXT + REDIRECT_TEXT
  {
  }

  lemma EscapedNames()
    ensures OVERLAY == OVERLAY_TEXT && ESCAPED_OVERLAY == OVERLAY_TEXT + AGAIN
  {
  }

  lemma EscapeIs(name: bytes)
    ensures Escape(name) == EscapedName(name)
  {
    EscapedNames();
  }

  // ---- attributes ----

  predicate HasAttribute(xs: seq<XAttr>, name: bytes, value: bytes) {
    exists i :: 0 <= i < |xs| && StoredName(xs[i]) == name && xs[i].value == value
  }

  /** Where overlayfs looks for the body: a slash and the path of the object. */
  predicate RedirectTo(value: bytes, id: bytes) {
    value != [] && value[0] == 47 && NamesObject(value[1..], id)
  }

  /** The metacopy record: version, its length, flags, the digest algorithm, the digest. */
  predicate MetacopyOf(value: bytes, alg: Algorithm, id: bytes) {
    && |value| == 4 + |id| && value[0] == 0 && value[1] == |value| && value[2] == 0
    && value[3] == (if alg.Sha256? then 1 else 2) && value[4..] == id
  }

  /** The name is split behind the last prefix of the table that it starts with. */
  ghost predicate SplitLast(x: XAttr) {
    x.prefix < 7 && forall k :: x.prefix < k < 7 ==> !(PrefixText(k) <= StoredName(x))
  }

  lemma {:induction false} SplitIsLast(name: bytes, value: bytes, k: nat, j: nat)
    requires k < |XATTR_PREFIXES| && ErofsCollect.Split(name, value, k).prefix < j <= k
    ensures !(XATTR_PREFIXES[j] <= name)
  {
    hide Ascii;
    if j < k {
      SplitIsLast(name, value, k - 1, j);
    }
  }

  lemma EntrySplit(x: XAttr)
    requires x.prefix < |XATTR_PREFIXES| && x == ErofsCollect.Entry(FullName(x), x.value)
    ensures SplitLast(x)
  {
    hide Ascii, PrefixText, ErofsCollect.Split;
    PrefixTable();
    forall k | x.prefix < k < 7
      ensures !(PrefixText(k) <= StoredName(x))
    {
      SplitIsLast(FullName(x), x.value, 6, k);
    }
  }

  /** The attributes are those of the tree, escaped, and for an external file the two that lead
      overlayfs to its object; nothing else. */
  ghost predicate AttributesAre(ctx: Context, xs: seq<XAttr>, node: Node)
    requires Resolves(ctx, node)
  {
    var pairs := StatOfNode(ctx, node).xattrs;
    && (forall i :: 0 <= i < |xs| ==> SplitLast(xs[i]))
    && (forall i :: 0 <= i < |pairs| ==> HasAttribute(xs, EscapedName(pairs[i].name), pairs[i].value))
    && if node.File? && ctx.leaves[node.id].content.External? then
         var id := ctx.leaves[node.id].content.id;
         && |xs| == |pairs| + 2
         && (exists v :: HasAttribute(xs, OVERLAY_TEXT + REDIRECT_TEXT, v) && RedirectTo(v, id))
         && (exists v :: HasAttribute(xs, OVERLAY_TEXT + METACOPY_TEXT, v) && MetacopyOf(v, ctx.alg, id))
       else |xs| == |pairs|
  }

  /** Bit `b` of the stored filter is clear exactly when some attribute hashes to it. */
  ghost predicate FilterIs(filter: nat, xs: seq<XAttr>, xxh: Hash32) {
    forall b: nat :: b < 32 ==>
      (filter / Pow2(b) % 2 == 0 <==>
       exists i :: 0 <= i < |xs| && xxh(xs[i].suffix, 0x25BB_E08F + xs[i].prefix) % 32 == b)
  }

  lemma FullNameIs(x: XAttr)
    requires x.prefix < |XATTR_PREFIXES|
    ensures FullName(x) == StoredName(x)
  {
    hide Ascii, PrefixText;
    PrefixTable();
  }

  lemma PairIsThere(xs: seq<XAttr>, ps: seq<XattrPair>, i: nat)
    requires KnownPrefixes(xs) && multiset(PairsOf(xs)) == multiset(ps) && i < |ps|
    ensures HasAttribute(xs, ps[i].name, ps[i].value)
  {
    hide FullName, StoredName, Ascii, PrefixText;
    assert ps[i] in multiset(ps);
    assert ps[i] in PairsOf(xs);
    var j :| 0 <= j < |xs| && PairsOf(xs)[j] == ps[i];
    FullNameIs(xs[j]);
  }

  lemma AttributesRead(ctx: Context, img: R.Img, v: R.View, node: Node)
    requires GoodContext(ctx) && Resolves(ctx, node) && ReadsAttributes(ctx, img, v, node)
    ensures R.AllXattrs(img, v).Some? && AttributesAre(ctx, R.AllXattrs(img, v).value, node)
  {
    hide PairsOf, KnownPrefixes, Canonical, StoredFilter, HasAttribute, R.AllXattrs, R.ReadXattrs, Escape,
      EscapedName, ObjectPathname, Metacopy, RedirectTo, MetacopyOf, SplitLast, Generated;
    var xs, pairs := R.AllXattrs(img, v).value, StatOfNode(ctx, node).xattrs;
    var c := ContentOf(ctx, node);
    PairsCount(xs);
    AllSplit(xs);
    EscapedRead(xs, Generated(ctx.alg, c), pairs);
    if node.File? && ctx.leaves[node.id].content.External? {
      GeneratedRead(ctx.alg, c, xs, pairs);
    } else {
      NothingGenerated(ctx.alg, c);
    }
  }

  lemma NothingGenerated(alg: Algorithm, c: Content)
    requires !(c.LeafContent? && c.content.External?)
    ensures Generated(alg, c) == []
  {
  }

  lemma EscapedRead(xs: seq<XAttr>, gen: seq<XattrPair>, pairs: seq<XattrPair>)
    requires KnownPrefixes(xs) && multiset(PairsOf(xs)) == multiset(gen + EscapedPairs(pairs))
    ensures |multiset(PairsOf(xs))| == |gen| + |pairs|
    ensures forall i :: 0 <= i < |pairs| ==> HasAttribute(xs, EscapedName(pairs[i].name), pairs[i].value)
  {
    hide PairsOf, KnownPrefixes, HasAttribute, Escape, EscapedName;
    var ps := gen + EscapedPairs(pairs);
    assert |multiset(ps)| == |ps|;
    forall i | 0 <= i < |pairs|
      ensures HasAttribute(xs, EscapedName(pairs[i].name), pairs[i].value)
    {
      EscapeIs(pairs[i].name);
      PairIsThere(xs, ps, |gen| + i);
    }
  }

  lemma GeneratedRead(alg: Algorithm, c: Content, xs: seq<XAttr>, pairs: seq<XattrPair>)
    requires c.LeafContent? && c.content.External? && c.content.id != [] && |c.content.id| == alg.Size()
    requires KnownPrefixes(xs) && multiset(PairsOf(xs)) == multiset(Generated(alg, c) + EscapedPairs(pairs))
    ensures |Generated(alg, c)| == 2
    ensures exists v :: HasAttribute(xs, OVERLAY_TEXT + REDIRECT_TEXT, v) && RedirectTo(v, c.content.id)
    ensures exists v :: HasAttribute(xs, OVERLAY_TEXT + METACOPY_TEXT, v) && MetacopyOf(v, alg, c.content.id)
  {
    hide PairsOf, KnownPrefixes, HasAttribute, ObjectPathname, Metacopy, RedirectTo, MetacopyOf, EscapedPairs;
    var ps := Generated(alg, c) + EscapedPairs(pairs);
    MetacopyName();
    RedirectName();
    PairIsThere(xs, ps, 0);
    PairIsThere(xs, ps, 1);
    RedirectIs(c.content.id);
    MetacopyIs(alg, c.content.id);
  }

  lemma AllSplit(xs: seq<XAttr>)
    requires Canonical(xs)
    ensures forall i :: 0 <= i < |xs| ==> SplitLast(xs[i])
  {
    hide SplitLast, FullName, ErofsCollect.Entry;
    forall i | 0 <= i < |xs|
      ensures SplitLast(xs[i])
    {
      EntrySplit(xs[i]);
    }
  }

  lemma PairsCount(xs: seq<XAttr>)
    requires KnownPrefixes(xs)
    ensures |multiset(PairsOf(xs))| == |xs|
  {
  }

  lemma RedirectIs(id: bytes)
    requires id != []
    ensures RedirectTo([47] + ObjectPathname(id), id)
  {
    hide ObjectPathname, NamesObject;
    PathnameNames(id);
    assert ([47] + ObjectPathname(id))[1..] == ObjectPathname(id);
  }

  lemma MetacopyIs(alg: Algorithm, id: bytes)
    requires |id| == alg.Size()
    ensures MetacopyOf(Metacopy(alg, id), alg, id)
  {
    assert Metacopy(alg, id)[4..] == id;
  }

  lemma {:induction false} BitIs(a: nat, k: nat)
    ensures Bit(a, k) <==> a / Pow2(k) % 2 == 1
  {
    if k > 0 {
      BitIs(a / 2, k - 1);
      HalfAndRest(a, Pow2(k - 1));
    }
  }

  lemma HalfAndRest(a: nat, d: nat)
    requires d > 0
    ensures a / 2 / d == a / (2 * d)
  {
    DivMod(a / 2, d);
    var q, r := a / 2 / d, a / 2 % d;
    assert a == 2 * (q * d + r) + a % 2 == q * (2 * d) + (2 * r + a % 2);
    DivUnique(a, 2 * d, q, 2 * r + a % 2);
  }

  lemma FilterRead(filter: nat, xs: seq<XAttr>, xxh: Hash32)
    requires StoredFilter(filter, xs, xxh)
    ensures FilterIs(filter, xs, xxh)
  {
    hide Pow2, Bit;
    forall b: nat | b < 32
      ensures filter / Pow2(b) % 2 == 0 <==>
        exists i :: 0 <= i < |xs| && xxh(xs[i].suffix, 0x25BB_E08F + xs[i].prefix) % 32 == b
    {
      BitIs(filter, b);
      assert forall i :: 0 <= i < |xs| ==> FilterBit(xs[i], xxh) == xxh(xs[i].suffix, 0x25BB_E08F + xs[i].prefix) % 32;
    }
  }

  // ---- a node ----

  /** Size, links and device number of a node. */
  ghost predicate NumbersAre(v: R.View, leaves: seq<Leaf>, node: Node)
    requires node.File? ==> node.id < |leaves|
  {
    match node
    case Dir(_, es) => v.nlink == 2 + Subdirectories(es)
    case File(id) =>
      && v.nlink == leaves[id].links
      && match leaves[id].content
         case Inline(data) => v.size == |data|
         case External(_, size) => v.size == size && v.layout == ChunkBased && v.union == 31
         case BlockDevice(rdev) => v.size == 0 && v.union == rdev % 0x1_0000_0000
         case CharacterDevice(rdev) => v.size == 0 && v.union == rdev % 0x1_0000_0000
         case Fifo => v.size == 0
         case Socket => v.size == 0
         case Symlink(target) => v.size == |target|
  }

  /** The body that follows the header and the attributes. */
  ghost predicate BodyIs(v: R.View, leaf: Leaf) {
    match leaf.content
    case Inline(data) => |v.data| >= AttributesSize(v.icount) && v.data[AttributesSize(v.icount)..] == data
    case Symlink(target) => |v.data| >= AttributesSize(v.icount) && v.data[AttributesSize(v.icount)..] == target
    case External(_, _) =>
      |v.data| >= AttributesSize(v.icount) && v.data[AttributesSize(v.icount)..] == [255, 255, 255, 255]
    case _ => true
  }

  /** The entries have the types of what they lead to. */
  ghost predicate TypesAre(leaves: seq<Leaf>, es: seq<R.Entry>, entries: Entries) {
    && (forall n :: Find(entries, n).Some? ==> exists i :: 0 <= i < |es| && es[i].name == n)
    && forall i :: 0 <= i < |es| ==>
         if IsDot(es[i].name) then es[i].fileType == 2
         else
           match Find(entries, es[i].name)
           case None => false
           case Some(child) =>
             (child.File? ==> child.id < |leaves|) && es[i].fileType == TypeByte(leaves, child)
  }

  /** What the image has for a node: the header at 32 bytes per inode number, the attributes, the
      filter in the first four bytes behind the header, the body or the entries. */
  ghost predicate NodeOnDisk(ctx: Context, image: bytes, nid: nat, v: R.View, node: Node)
    requires Resolves(ctx, node)
  {
    var stat, img := StatOfNode(ctx, node), R.Img(image, 12, 0, image, image);
    && InodeAt(image, 32 * nid, 12, v)
    && v.mode == TypeBits(ctx.leaves, node) + stat.mode && v.uid == stat.uid && v.gid == stat.gid
    && v.mtime == (if stat.mtime >= 0 then stat.mtime else stat.mtime + 0x1_0000_0000_0000_0000)
    && NumbersAre(v, ctx.leaves, node) && (node.File? ==> BodyIs(v, ctx.leaves[node.id]))
    && R.AllXattrs(img, v).Some?
    && var xs := R.AllXattrs(img, v).value;
    && AttributesAre(ctx, xs, node)
    && (v.icount == 0 ==> xs == [])
    && (v.icount > 0 ==> |v.data| >= 12 && FilterIs(U32(v.data, 0), xs, ctx.xxh))
    && match node
       case Dir(_, entries) => R.DirEntries(img, v).Some? && TypesAre(ctx.leaves, R.DirEntries(img, v).value, entries)
       case File(_) => true
  }

  lemma TypesMatch(ctx: Context, node: Node)
    requires Resolves(ctx, node)
    ensures TypeOfNode(ctx, node).Ifmt() == TypeBits(ctx.leaves, node)
    ensures TypeOfNode(ctx, node).Number() == TypeByte(ctx.leaves, node)
  {
  }

  /** Only the root number of the opened image is not looked at once it is open. */
  lemma RootDoesNotMatter(image: bytes, a: nat, v: R.View)
    ensures
      var x, y := R.Img(image, 12, a, image, image), R.Img(image, 12, 0, image, image);
      && R.AllXattrs(x, v) == R.AllXattrs(y, v) && R.DirEntries(x, v) == R.DirEntries(y, v)
  {
    var x, y := R.Img(image, 12, a, image, image), R.Img(image, 12, 0, image, image);
    hide R.ReadXattrs, R.ParseXattr, R.BlockEntries, R.InlineOf, R.BlocksOf, Pow2;
    var r := R.BlocksOf(v, 12);
    SameBlocks(x, y, r.start, r.end);
    match R.ReadXattrs(v)
    case Some(Some(s)) => SameShared(x, y, s.shared);
    case _ =>
  }

  lemma {:induction false} SameShared(x: R.Img, y: R.Img, ids: seq<nat>)
    requires x.xattrs == y.xattrs
    ensures R.SharedXattrs(x, ids) == R.SharedXattrs(y, ids)
  {
    hide R.ParseXattr;
    if ids != [] {
      SameShared(x, y, ids[1..]);
    }
  }

  lemma {:induction false} SameBlocks(x: R.Img, y: R.Img, start: nat, end: nat)
    requires x.image == y.image && x.blkszbits == y.blkszbits
    ensures R.BlockRangeEntries(x, start, end) == R.BlockRangeEntries(y, start, end)
    decreases end - start
  {
    hide R.BlockEntries, Pow2;
    if start < end {
      SameBlocks(x, y, start + 1, end);
    }
  }

  lemma HeaderRead(ctx: Context, v: R.View, node: Node, image: bytes, at: nat)
    requires Resolves(ctx, node) && ReadsHeader(ctx, v, node) && InodeAt(image, at, 12, v)
    ensures
      var stat := StatOfNode(ctx, node);
      && v.mode == TypeBits(ctx.leaves, node) + stat.mode && v.uid == stat.uid && v.gid == stat.gid
      && v.mtime == (if stat.mtime >= 0 then stat.mtime else stat.mtime + 0x1_0000_0000_0000_0000)
  {
    hide Behind, Pow2, LayoutIs;
    TypesMatch(ctx, node);
    assert v.mode < 0x1_0000;
    assert v.mtime < 0x1_0000_0000_0000_0000;
    DivMod(v.mode, 0x1000);
  }

  lemma ListingRead(ctx: Context, img: R.Img, nid: nat, parent: nat, entries: Entries, es: seq<R.Entry>)
    requires ReadsListing(ctx, img, nid, parent, entries) && ReadDir(img, nid) == Some(es)
    ensures TypesAre(ctx.leaves, es, entries)
  {
    hide Ascending, ReadDir, Find;
    forall n | Find(entries, n).Some?
      ensures exists i :: 0 <= i < |es| && es[i].name == n
    {
      NamedIsThere(es, n);
    }
    forall i | 0 <= i < |es|
      ensures !IsDot(es[i].name) ==> Find(entries, es[i].name).Some?
    {
      assert ReadsEntry(ctx, es[i], entries);
      if !IsDot(es[i].name) {
        TypesMatch(ctx, Find(entries, es[i].name).value);
      }
    }
    forall i | 0 <= i < |es| && !IsDot(es[i].name)
      ensures
        var child := Find(entries, es[i].name).value;
        Resolves(ctx, child) && es[i].fileType == TypeByte(ctx.leaves, child)
    {
      assert ReadsEntry(ctx, es[i], entries);
      TypesMatch(ctx, Find(entries, es[i].name).value);
    }
    forall i | 0 <= i < |es| && IsDot(es[i].name)
      ensures es[i].fileType == 2
    {
      assert ReadsEntry(ctx, es[i], entries);
    }
  }

  lemma {:induction false} NamedIsThere(es: seq<R.Entry>, n: bytes)
    requires Named(es, n).Some?
    ensures exists i :: 0 <= i < |es| && es[i].name == n
  {
    if es[0].name == n {
    } else {
      NamedIsThere(es[1..], n);
      var i :| 0 <= i < |es[1..]| && es[1..][i].name == n;
      assert es[i + 1].name == n;
    }
  }

  lemma SectionRead(v: R.View)
    requires R.ReadXattrs(v).Some?
    ensures v.icount == 0 <==> R.ReadXattrs(v).value.None?
    ensures v.icount > 0 ==> |v.data| >= 12 && R.ReadXattrs(v).value.value.filter == U32(v.data, 0)
  {
    hide R.ParseXattrs;
    if v.icount > 0 {
      var n := R.XattrSize(v.icount);
      SectionIs(v.data[0..n], R.ReadXattrs(v).value.value);
      assert v.data[0..n][..4] == v.data[..4];
    }
  }

  lemma BodyRead(v: R.View, leaf: Leaf)
    requires ReadsBody(v, leaf)
    ensures BodyIs(v, leaf)
  {
  }

  lemma NodeRead(ctx: Context, img: R.Img, nid: nat, parent: nat, node: Node) returns (v: R.View)
    requires img.blkszbits == 12 && img.inodes == img.image && img.xattrs == img.image
    requires GoodContext(ctx) && Resolves(ctx, node) && ReadsAs(ctx, img, nid, parent, node)
    ensures NodeOnDisk(ctx, img.image, nid, v, node)
  {
    hide InodeAt, ReadsHeader, ReadsAttributes, ReadsBody, ReadsListing, R.ReadInode, R.AllXattrs, AttributesAre,
      FilterIs, TypesAre, BodyIs, R.DirEntries;
    v := R.ReadInode(img, nid).value;
    ReadInodeIs(img, nid);
    HeaderRead(ctx, v, node, img.image, 32 * nid);
    AttributesRead(ctx, img, v, node);
    RootDoesNotMatter(img.image, img.rootNid, v);
    AttributesFilter(ctx, img, v, node);
    match node
    case Dir(_, entries) => DirRead(ctx, img, nid, parent, v, entries);
    case File(id) =>
      BodyRead(v, ctx.leaves[id]);
      NumbersRead(v, ctx.leaves[id]);
  }

  lemma NumbersRead(v: R.View, leaf: Leaf)
    requires ReadsBody(v, leaf)
    ensures NumbersAre(v, [leaf], File(0))
  {
  }

  lemma DirRead(ctx: Context, img: R.Img, nid: nat, parent: nat, v: R.View, entries: Entries)
    requires ReadsListing(ctx, img, nid, parent, entries) && R.ReadInode(img, nid) == Some(v)
    ensures R.DirEntries(img, v).Some? && TypesAre(ctx.leaves, R.DirEntries(img, v).value, entries)
  {
    hide R.ReadInode, R.DirEntries, TypesAre;
    ListingRead(ctx, img, nid, parent, entries, ReadDir(img, nid).value);
  }

  lemma AttributesFilter(ctx: Context, img: R.Img, v: R.View, node: Node)
    requires GoodContext(ctx) && Resolves(ctx, node) && ReadsAttributes(ctx, img, v, node)
    ensures
      var xs := R.AllXattrs(img, v).value;
      && (v.icount == 0 ==> xs == [])
      && (v.icount > 0 ==> |v.data| >= 12 && FilterIs(U32(v.data, 0), xs, ctx.xxh))
  {
    hide PairsOf, KnownPrefixes, Canonical, StoredFilter, R.AllXattrs, R.ReadXattrs, FilterIs;
    SectionRead(v);
    if v.icount > 0 {
      FilterRead(R.ReadXattrs(v).value.value.filter, R.AllXattrs(img, v).value, ctx.xxh);
    }
  }

  /** At each path of a tree the image has the node, with the numbers Linux gives to types and
      fields, and for an external file the attributes that lead overlayfs to `/xx/yyyy…`. */
  lemma PathOnDisk(ctx: Context, root: Node, path: Path) returns (v: R.View)
    requires FitsFs(ctx, root) && |MkfsImage(ctx, root)| < 0x1_0000_0000 && Plain(path)
    requires Lookup(root, path).Some?
    ensures
      var image, node := MkfsImage(ctx, root), Lookup(root, path).value;
      WalkRoot(image, path).Some? && Resolves(ctx, node)
      && NodeOnDisk(ctx, image, WalkRoot(image, path).value, v, node)
  {
    hide MkfsImage, WalkRoot, ReadsAs, NodeOnDisk, R.Open, Lookup, Plain, FitsLeaves, FitsNode, OpenedAt;
    var image, node := MkfsImage(ctx, root), Lookup(root, path).value;
    MkfsPreservesTree(ctx, root, path);
    ImageOpens(ctx, root);
    v := NodeRead(ctx, R.Open(image).value, WalkRoot(image, path).value, WalkRoot(image, ParentPath(path)).value, node);
  }

  lemma ImageOpens(ctx: Context, root: Node)
    requires FitsFs(ctx, root) && |MkfsImage(ctx, root)| < 0x1_0000_0000
    ensures GoodContext(ctx) && R.Open(MkfsImage(ctx, root)).Some?
    ensures
      var image := MkfsImage(ctx, root);
      var img := R.Open(image).value;
      img.blkszbits == 12 && img.image == image && img.inodes == image && img.xattrs == image
  {
    hide FinalImage, Decodable, PermissionsOnly, Collect, R.Open, TruePos, FitsLeaves, FitsNode;
    PlanOpens(ctx, root);
    PlanWritable(ctx, root);
  }

  // ---- the fields nobody reads ----

  /** A 64-byte header with its own number, no nanoseconds and zeros in what is reserved. */
  ghost predicate HeaderRest(image: bytes, nid: nat) {
    var at := 32 * nid;
    && Has(image, at, 64) && image[at] % 2 == 1
    && U16(image, at + 6) == 0 && U32(image, at + 20) == nid && U32(image, at + 40) == 0
    && forall k :: at + 48 <= k < at + 64 ==> image[k] == 0
  }

  lemma InodePlaces()
    ensures Before(INODE_WIDTHS, 0) == 0 && Before(INODE_WIDTHS, 3) == 6 && Before(INODE_WIDTHS, 6) == 20
    ensures Before(INODE_WIDTHS, 10) == 40 && Before(INODE_WIDTHS, 12) == 48
  {
    ExtendedPlaces();
    assert Before(INODE_WIDTHS, 3) == Before(INODE_WIDTHS, 2) + 2;
    assert Before(INODE_WIDTHS, 6) == Before(INODE_WIDTHS, 5) + 4;
    assert Before(INODE_WIDTHS, 10) == Before(INODE_WIDTHS, 9) + 8;
    assert Before(INODE_WIDTHS, 12) == Before(INODE_WIDTHS, 11) + 4;
  }

  lemma RecordRest(vs: seq<nat>, rest: bytes)
    requires |vs| == 13 && Fits(INODE_WIDTHS, vs) && vs[3] == 0 && vs[10] == 0 && vs[12] == 0 && vs[0] % 2 == 1
    ensures
      var b := InodeRecord(vs) + rest;
      && b[0] % 2 == 1 && U16(b, 6) == 0 && U32(b, 20) == vs[6] && U32(b, 40) == 0
      && forall k :: 48 <= k < 64 ==> b[k] == 0
  {
    hide Pack, Unpack, Sum, FromLE, U32, Before;
    var ws := INODE_WIDTHS;
    var b := Pack(ws, vs) + rest;
    InodeWidthSum();
    UnpackPack(ws, vs, rest);
    InodePlaces();
    FieldOf(ws, b, 0, 0);
    FieldOf(ws, b, 3, 6);
    FieldOf(ws, b, 6, 20);
    FieldOf(ws, b, 10, 40);
    FieldAt(ws, b, 12);
    ZeroBytes(b[48..64]);
    assert forall k :: 48 <= k < 64 ==> b[k] == b[48..64][k - 48];
  }

  lemma InodeRest(inodes: seq<Inode>, xattrs: seq<XAttr>, k: nat)
    requires Decodable(inodes, xattrs) && k < |inodes|
    ensures Writable(inodes, xattrs)
    ensures HeaderRest(FinalImage(inodes, xattrs), TruePos(inodes, xattrs).inodes[k] / 32)
  {
    hide TruePos, FinalImage, XattrsSize, XattrsBytes, TailBytes, TailSize, InodeRecord, HeaderFields, Image, U16, U32;
    DecodableWritable(inodes, xattrs);
    var pos, image := TruePos(inodes, xattrs), FinalImage(inodes, xattrs);
    var at, inode := pos.inodes[k], inodes[k];
    InodeInImage(inodes, xattrs, k);
    var vs := HeaderFields(inode, XattrsSize(inode.xattrs), at, pos.blocks[k]);
    var rest := XattrsBytes(inode.xattrs, pos) + TailBytes(inode.content, pos);
    var b := InodeBytes(inode, at, pos.blocks[k], pos);
    assert b == InodeRecord(vs) + rest;
    InodeFits(inodes, xattrs, k);
    ErofsDecode.HeaderFits(inode, at, pos.blocks[k]);
    FixedFields(inode, XattrsSize(inode.xattrs), at, pos.blocks[k]);
    RecordRest(vs, rest);
    assert at == 32 * (at / 32);
    SameRest(image, at, b);
  }

  lemma InodeFits(inodes: seq<Inode>, xattrs: seq<XAttr>, k: nat)
    requires Decodable(inodes, xattrs) && k < |inodes|
    ensures FitsHeader(inodes[k]) && |FinalImage(inodes, xattrs)| < 0x1_0000_0000
  {
    hide FinalImage, FitsHeader, FitsXattr;
    assert DecodableInode(inodes[k]);
  }

  lemma FixedFields(inode: Inode, xattrSize: nat, at: nat, blockOffset: nat)
    ensures
      var vs := HeaderFields(inode, xattrSize, at, blockOffset);
      vs[0] % 2 == 1 && vs[3] == 0 && vs[6] == at / 32 && vs[10] == 0 && vs[12] == 0
  {
  }

  lemma SameRest(image: bytes, at: nat, b: bytes)
    requires Has(image, at, |b|) && |b| >= 64 && image[at..at + |b|] == b && at % 32 == 0
    requires b[0] % 2 == 1 && U16(b, 6) == 0 && U32(b, 20) == at / 32 && U32(b, 40) == 0
    requires forall k :: 48 <= k < 64 ==> b[k] == 0
    ensures HeaderRest(image, at / 32)
  {
    assert forall k :: at <= k < at + |b| ==> image[k] == b[k - at];
  }

  /** At each path the header has the number that leads to it, and nothing in the other fields. */
  lemma PathHeaderRest(ctx: Context, root: Node, path: Path)
    requires FitsFs(ctx, root) && |MkfsImage(ctx, root)| < 0x1_0000_0000
    ensures WalkRoot(MkfsImage(ctx, root), path).Some? ==>
      HeaderRest(MkfsImage(ctx, root), WalkRoot(MkfsImage(ctx, root), path).value)
  {
    hide TruePos, FinalImage, Decodable, PermissionsOnly, Collect, R.Open, OpenedImage, FitsLeaves, FitsNode, HeaderRest,
      WalkTable, WalkRoot, Nid;
    var inodes, xattrs := PlanInodes(ctx, root), PlanXattrs(ctx, root);
    WalkRootIs(ctx, root, path);
    PlanOpens(ctx, root);
    PlanWritable(ctx, root);
    NidOfPos(inodes, xattrs);
    if WalkRoot(MkfsImage(ctx, root), path).Some? {
      InodeRest(inodes, xattrs, WalkTable(Collect(ctx, root).inodes, 0, path).value);
    }
  }
}
