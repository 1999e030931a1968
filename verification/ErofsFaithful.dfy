/** The image means the tree: types, owners, times, sizes, bodies, attributes, directory
    listings and hardlinks all read back. */
module ErofsFaithful {
  import opened Bytes
  import opened Tree
  import opened ErofsFormat
  import opened ErofsImage
  import R = ErofsReader
  import opened ErofsDecode
  import opened ErofsWriter
  import opened ErofsRoundTrip
  import opened ErofsCollect
  import opened ErofsTree
  import opened ErofsShare
  import opened ErofsMkfs
  import opened ErofsTheorem

  // ---- attributes ----

  /** Every entry is the split of its own full name. */
  ghost predicate Canonical(xs: seq<XAttr>) {
    forall x :: x in xs ==> x.prefix < |XATTR_PREFIXES| && x == ErofsCollect.Entry(FullName(x), x.value)
  }

  lemma {:induction false} AddedAllCanonical(x: InodeXAttrs, pairs: seq<XattrPair>, xxh: Hash32)
    requires Canonical(x.local)
    ensures Canonical(AddedAll(x, pairs, xxh).local)
    decreases |pairs|
  {
    hide Canonical, Added, Escape;
    if pairs != [] {
      var n := |pairs| - 1;
      AddedAllCanonical(x, pairs[..n], xxh);
      AddedCanonical(AddedAll(x, pairs[..n], xxh), Escape(pairs[n].name), pairs[n].value, xxh);
    }
  }

  lemma AddedCanonical(x: InodeXAttrs, name: bytes, value: bytes, xxh: Hash32)
    requires Canonical(x.local)
    ensures Canonical(Added(x, name, value, xxh).local)
  {
    hide BitOr, FilterBit, FullName, Split;
  }

  lemma InitialCanonical(alg: Algorithm, stat: Stat, c: Content, xxh: Hash32)
    requires c.LeafContent? && c.content.External? ==> c.content.id != []
    ensures Canonical(InitialXattrs(alg, stat, c, xxh).local)
  {
    hide BitOr, Metacopy, ObjectPathname, AddedAll, Added;
    if c.LeafContent? && c.content.External? {
      var value := [47] + ObjectPathname(c.content.id);
      var one := Added(NO_XATTRS, METACOPY, Metacopy(alg, c.content.id), xxh);
      AddedCanonical(NO_XATTRS, METACOPY, Metacopy(alg, c.content.id), xxh);
      AddedCanonical(one, REDIRECT, value, xxh);
      AddedAllCanonical(OverlayXattrs(alg, c.content.id, xxh), stat.xattrs, xxh);
    } else {
      AddedAllCanonical(NO_XATTRS, stat.xattrs, xxh);
    }
  }

  lemma CanonicalPermute(a: seq<XAttr>, b: seq<XAttr>)
    requires multiset(a) == multiset(b) && Canonical(a)
    ensures Canonical(b)
  {
    forall x | x in b
      ensures x in a
    {
      assert x in multiset(b);
      assert x in multiset(a);
    }
  }

  ghost predicate KnownPrefixes(xs: seq<XAttr>) {
    forall i :: 0 <= i < |xs| ==> xs[i].prefix < |XATTR_PREFIXES|
  }

  /** The full names and values of attribute entries. */
  function PairsOf(xs: seq<XAttr>): (ps: seq<XattrPair>)
    requires KnownPrefixes(xs)
    ensures |ps| == |xs|
    ensures forall i :: 0 <= i < |xs| ==> ps[i] == XattrPair(FullName(xs[i]), xs[i].value)
  {
    seq(|xs|, i requires 0 <= i < |xs| => XattrPair(FullName(xs[i]), xs[i].value))
  }

  function EscapedPairs(pairs: seq<XattrPair>): (ps: seq<XattrPair>)
    ensures |ps| == |pairs|
    ensures forall i :: 0 <= i < |pairs| ==> ps[i] == XattrPair(Escape(pairs[i].name), pairs[i].value)
  {
    seq(|pairs|, i requires 0 <= i < |pairs| => XattrPair(Escape(pairs[i].name), pairs[i].value))
  }

  /** The attributes that tell overlayfs where the body of a file is. */
  function Generated(alg: Algorithm, c: Content): seq<XattrPair>
    requires c.LeafContent? && c.content.External? ==> c.content.id != []
  {
    if c.LeafContent? && c.content.External? then
      [XattrPair(METACOPY, Metacopy(alg, c.content.id)),
       XattrPair(REDIRECT, [47] + ObjectPathname(c.content.id))]
    else []
  }

  /** Escaping loses nothing, and no escaped name is one of the two generated ones. */
  lemma EscapeInjective(a: bytes, b: bytes)
    ensures Escape(a) == Escape(b) ==> a == b
    ensures Escape(a) != METACOPY && Escape(a) != REDIRECT
  {
    OverlayNames();
    EscapeShape(a);
    EscapeShape(b);
    if Escape(a) == Escape(b) {
      var n := |OVERLAY|;
      if OVERLAY <= a && OVERLAY <= b {
        assert Escape(a)[|ESCAPED_OVERLAY|..] == a[n..] && Escape(b)[|ESCAPED_OVERLAY|..] == b[n..];
        assert a == OVERLAY + a[n..] && b == OVERLAY + b[n..];
      } else if OVERLAY <= a {
        OverlayPrefix(Escape(a));
      } else if OVERLAY <= b {
        OverlayPrefix(Escape(b));
      }
    }
  }

  lemma EscapeShape(name: bytes)
    ensures OVERLAY <= name ==> ESCAPED_OVERLAY <= Escape(name)
    ensures !(OVERLAY <= name) ==> Escape(name) == name
  {
  }

  lemma OverlayPrefix(name: bytes)
    requires ESCAPED_OVERLAY <= name
    ensures OVERLAY <= name
  {
    OverlayNames();
  }

  lemma OverlayNames()
    ensures OVERLAY <= ESCAPED_OVERLAY && OVERLAY <= METACOPY && OVERLAY <= REDIRECT
    ensures !(ESCAPED_OVERLAY <= METACOPY) && !(ESCAPED_OVERLAY <= REDIRECT)
  {
    assert ESCAPED_OVERLAY[16] == 111 && METACOPY[16] == 109 && REDIRECT[16] == 114;
  }

  lemma {:induction false} AddedAllPairs(x: InodeXAttrs, pairs: seq<XattrPair>, xxh: Hash32)
    requires KnownPrefixes(x.local)
    ensures
      var r := AddedAll(x, pairs, xxh);
      KnownPrefixes(r.local) && PairsOf(r.local) == PairsOf(x.local) + EscapedPairs(pairs)
    decreases |pairs|
  {
    hide Added, Escape, KnownPrefixes, PairsOf, EscapedPairs;
    EscapedSnoc(pairs);
    if pairs != [] {
      var n := |pairs| - 1;
      var last := XattrPair(Escape(pairs[n].name), pairs[n].value);
      AddedAllPairs(x, pairs[..n], xxh);
      AddedPairs(AddedAll(x, pairs[..n], xxh), last.name, last.value, xxh);
      assert PairsOf(x.local) + EscapedPairs(pairs[..n]) + [last]
          == PairsOf(x.local) + (EscapedPairs(pairs[..n]) + [last]);
    } else {
      assert PairsOf(x.local) + [] == PairsOf(x.local);
    }
  }

  lemma EscapedSnoc(pairs: seq<XattrPair>)
    ensures pairs == [] ==> EscapedPairs(pairs) == []
    ensures pairs != [] ==>
      var n := |pairs| - 1;
      EscapedPairs(pairs)
      == EscapedPairs(pairs[..n]) + [XattrPair(Escape(pairs[n].name), pairs[n].value)]
  {
    hide Escape;
  }

  lemma AddedPairs(x: InodeXAttrs, name: bytes, value: bytes, xxh: Hash32)
    requires KnownPrefixes(x.local)
    ensures
      var r := Added(x, name, value, xxh);
      KnownPrefixes(r.local) && PairsOf(r.local) == PairsOf(x.local) + [XattrPair(name, value)]
  {
    hide BitOr, FilterBit;
  }

  /** The generated attributes come first, then the escaped ones of the tree. */
  lemma InitialPairs(alg: Algorithm, stat: Stat, c: Content, xxh: Hash32)
    requires c.LeafContent? && c.content.External? ==> c.content.id != []
    ensures
      var x := InitialXattrs(alg, stat, c, xxh);
      && KnownPrefixes(x.local)
      && PairsOf(x.local) == Generated(alg, c) + EscapedPairs(stat.xattrs)
  {
    hide BitOr, Metacopy, ObjectPathname, AddedAll, Added;
    if c.LeafContent? && c.content.External? {
      var value := [47] + ObjectPathname(c.content.id);
      var one := Added(NO_XATTRS, METACOPY, Metacopy(alg, c.content.id), xxh);
      AddedPairs(NO_XATTRS, METACOPY, Metacopy(alg, c.content.id), xxh);
      AddedPairs(one, REDIRECT, value, xxh);
      AddedAllPairs(OverlayXattrs(alg, c.content.id, xxh), stat.xattrs, xxh);
    } else {
      AddedAllPairs(NO_XATTRS, stat.xattrs, xxh);
    }
  }

  lemma {:induction false} PairsPermute(a: seq<XAttr>, b: seq<XAttr>)
    requires multiset(a) == multiset(b) && KnownPrefixes(a)
    ensures KnownPrefixes(b) && multiset(PairsOf(a)) == multiset(PairsOf(b))
  {
    hide FullName, PairsOf, KnownPrefixes;
    if a == [] {
      assert |multiset(b)| == 0;
    } else {
      var x := a[0];
      assert x in multiset(a);
      assert x in b;
      var i :| 0 <= i < |b| && b[i] == x;
      var left, right := b[..i], b[i + 1..];
      assert b == left + [x] + right && a == [x] + a[1..];
      Without(x, a[1..], left, right);
      PairsCons(x, a[1..]);
      PairsPermute(a[1..], left + right);
      SplitPairs(left, x, right);
    }
  }

  lemma Without(x: XAttr, rest: seq<XAttr>, left: seq<XAttr>, right: seq<XAttr>)
    requires multiset([x] + rest) == multiset(left + [x] + right)
    ensures multiset(rest) == multiset(left + right)
  {
    assert multiset([x] + rest) == multiset{x} + multiset(rest);
    assert multiset(left + [x] + right) == multiset{x} + multiset(left + right);
    assert multiset(rest) == multiset([x] + rest) - multiset{x};
    assert multiset(left + right) == multiset(left + [x] + right) - multiset{x};
  }

  lemma PairsAppend(a: seq<XAttr>, b: seq<XAttr>)
    requires KnownPrefixes(a + b)
    ensures KnownPrefixes(a) && KnownPrefixes(b) && PairsOf(a + b) == PairsOf(a) + PairsOf(b)
  {
    hide FullName;
    assert forall i :: 0 <= i < |a| ==> (a + b)[i] == a[i];
    assert forall i :: 0 <= i < |b| ==> (a + b)[|a| + i] == b[i];
  }

  lemma KnownAppend(a: seq<XAttr>, b: seq<XAttr>)
    ensures KnownPrefixes(a + b) <==> KnownPrefixes(a) && KnownPrefixes(b)
  {
    assert forall i :: 0 <= i < |a| ==> (a + b)[i] == a[i];
    assert forall i :: 0 <= i < |b| ==> (a + b)[|a| + i] == b[i];
  }

  lemma OnePair(x: XAttr)
    ensures KnownPrefixes([x]) <==> x.prefix < |XATTR_PREFIXES|
    ensures KnownPrefixes([x]) ==> PairsOf([x]) == [XattrPair(FullName(x), x.value)]
  {
    hide FullName;
    assert [x][0] == x;
  }

  lemma PairsCons(x: XAttr, rest: seq<XAttr>)
    requires KnownPrefixes([x] + rest)
    ensures KnownPrefixes(rest) && x.prefix < |XATTR_PREFIXES|
    ensures multiset(PairsOf([x] + rest))
         == multiset{XattrPair(FullName(x), x.value)} + multiset(PairsOf(rest))
  {
    hide FullName, KnownPrefixes, PairsOf;
    PairsAppend([x], rest);
    OnePair(x);
    Parts([], XattrPair(FullName(x), x.value), PairsOf(rest));
    assert [] + [XattrPair(FullName(x), x.value)] == [XattrPair(FullName(x), x.value)];
    assert [] + PairsOf(rest) == PairsOf(rest);
  }

  lemma SplitPairs(left: seq<XAttr>, x: XAttr, right: seq<XAttr>)
    requires KnownPrefixes(left + right) && x.prefix < |XATTR_PREFIXES|
    ensures KnownPrefixes(left + [x] + right)
    ensures multiset(PairsOf(left + [x] + right))
         == multiset{XattrPair(FullName(x), x.value)} + multiset(PairsOf(left + right))
  {
    hide FullName, KnownPrefixes, PairsOf;
    OnePair(x);
    PairsAppend(left, right);
    KnownAppend(left, [x]);
    KnownAppend(left + [x], right);
    PairsAppend(left, [x]);
    PairsAppend(left + [x], right);
    Parts(PairsOf(left), XattrPair(FullName(x), x.value), PairsOf(right));
  }

  lemma Parts(l: seq<XattrPair>, p: XattrPair, r: seq<XattrPair>)
    ensures multiset(l + [p] + r) == multiset{p} + multiset(l + r)
  {
    assert multiset(l + [p] + r) == multiset(l) + multiset{p} + multiset(r);
    assert multiset(l + r) == multiset(l) + multiset(r);
  }

  // ---- the name filter ----

  /** Bit `b` is set exactly when some attribute hashes to it. */
  ghost predicate FilterOf(filter: nat, xs: seq<XAttr>, xxh: Hash32) {
    && filter < 0x1_0000_0000
    && forall b: nat :: Bit(filter, b) <==> exists i :: 0 <= i < |xs| && FilterBit(xs[i], xxh) == b
  }

  lemma AddedFilter(x: InodeXAttrs, name: bytes, value: bytes, xxh: Hash32)
    requires FilterOf(x.filter, x.local, xxh)
    ensures var r := Added(x, name, value, xxh); FilterOf(r.filter, r.local, xxh)
  {
    hide FilterBit;
    var r := Added(x, name, value, xxh);
    var e := ErofsCollect.Entry(name, value);
    var k := FilterBit(e, xxh);
    assert k < 32 by {
      FilterBitBelow(e, xxh);
    }
    Pow2Values();
    Pow2Monotone(k, 32);
    OrBelow(x.filter, Pow2(k), 32);
    forall b: nat
      ensures Bit(r.filter, b) <==> exists i :: 0 <= i < |r.local| && FilterBit(r.local[i], xxh) == b
    {
      BitOfOr(x.filter, Pow2(k), b);
      BitOfPow2(k, b);
      assert forall i :: 0 <= i < |x.local| ==> r.local[i] == x.local[i];
      assert r.local[|x.local|] == e;
    }
  }

  lemma FilterBitBelow(x: XAttr, xxh: Hash32)
    ensures FilterBit(x, xxh) < 32
  {
  }

  lemma {:induction false} AddedAllFilter(x: InodeXAttrs, pairs: seq<XattrPair>, xxh: Hash32)
    requires FilterOf(x.filter, x.local, xxh)
    ensures var r := AddedAll(x, pairs, xxh); FilterOf(r.filter, r.local, xxh)
    decreases |pairs|
  {
    hide FilterOf, Added, Escape;
    if pairs != [] {
      var n := |pairs| - 1;
      AddedAllFilter(x, pairs[..n], xxh);
      AddedFilter(AddedAll(x, pairs[..n], xxh), Escape(pairs[n].name), pairs[n].value, xxh);
    }
  }

  lemma NoFilter(xxh: Hash32)
    ensures FilterOf(NO_XATTRS.filter, NO_XATTRS.local, xxh)
  {
    forall b: nat
      ensures !Bit(0, b)
    {
      BitZero(b);
    }
  }

  lemma InitialFilter(alg: Algorithm, stat: Stat, c: Content, xxh: Hash32)
    requires c.LeafContent? && c.content.External? ==> c.content.id != []
    ensures var x := InitialXattrs(alg, stat, c, xxh); FilterOf(x.filter, x.local, xxh)
  {
    hide FilterOf, Metacopy, ObjectPathname, Added;
    NoFilter(xxh);
    if c.LeafContent? && c.content.External? {
      var value := [47] + ObjectPathname(c.content.id);
      var one := Added(NO_XATTRS, METACOPY, Metacopy(alg, c.content.id), xxh);
      AddedFilter(NO_XATTRS, METACOPY, Metacopy(alg, c.content.id), xxh);
      AddedFilter(one, REDIRECT, value, xxh);
      AddedAllFilter(OverlayXattrs(alg, c.content.id, xxh), stat.xattrs, xxh);
    } else {
      AddedAllFilter(NO_XATTRS, stat.xattrs, xxh);
    }
  }

  /** The stored filter has a bit clear exactly when some attribute present hashes to it. */
  ghost predicate StoredFilter(filter: nat, xs: seq<XAttr>, xxh: Hash32) {
    forall b: nat :: b < 32 ==>
      (!Bit(filter, b) <==> exists i :: 0 <= i < |xs| && FilterBit(xs[i], xxh) == b)
  }

  lemma ComplementFilter(filter: nat, xs: seq<XAttr>, ys: seq<XAttr>, xxh: Hash32)
    requires FilterOf(filter, xs, xxh) && multiset(xs) == multiset(ys)
    ensures StoredFilter(Complement(filter), ys, xxh)
  {
    hide FilterBit;
    Pow2Values();
    assert forall x :: x in xs <==> x in multiset(xs);
    assert forall x :: x in ys <==> x in multiset(ys);
    forall b: nat | b < 32
      ensures !Bit(Complement(filter), b) <==> exists i :: 0 <= i < |ys| && FilterBit(ys[i], xxh) == b
    {
      BitOfNot(filter, 32, b);
      if i :| 0 <= i < |xs| && FilterBit(xs[i], xxh) == b {
        assert xs[i] in ys;
      }
      if i :| 0 <= i < |ys| && FilterBit(ys[i], xxh) == b {
        assert ys[i] in xs;
      }
    }
  }

  // ---- what reading a node means ----

  ghost predicate Resolves(ctx: Context, node: Node) {
    node.File? ==> node.id < |ctx.leaves|
  }

  function StatOfNode(ctx: Context, node: Node): Stat
    requires Resolves(ctx, node)
  {
    if node.Dir? then node.stat else ctx.leaves[node.id].stat
  }

  ghost predicate ReadsHeader(ctx: Context, v: R.View, node: Node)
    requires Resolves(ctx, node)
  {
    var stat := StatOfNode(ctx, node);
    && v.mode % 0x1000 == stat.mode && IfmtOf(v.mode) == TypeOfNode(ctx, node).Ifmt()
    && v.uid == stat.uid && v.gid == stat.gid && AsI64(v.mtime) == stat.mtime
  }

  ghost predicate ReadsBody(v: R.View, leaf: Leaf) {
    && v.nlink == leaf.links
    && match leaf.content
       case Inline(data) => v.size == |data| && R.InlineOf(v) == Some(data)
       case Symlink(target) => v.size == |target| && R.InlineOf(v) == Some(target)
       case External(_, size) =>
         && v.size == size && v.layout == ChunkBased && v.union == 31
         && R.InlineOf(v) == Some([255, 255, 255, 255])
       case BlockDevice(rdev) => v.size == 0 && v.union == rdev % 0x1_0000_0000
       case CharacterDevice(rdev) => v.size == 0 && v.union == rdev % 0x1_0000_0000
       case Fifo => v.size == 0
       case Socket => v.size == 0
  }

  /** A directory has a link from its parent or itself, one from its dot, and one from each
      subdirectory; its size is that of its stored blocks and its inline part. */
  ghost predicate ReadsDir(v: R.View, entries: Entries) {
    && v.nlink == 2 + Subdirectories(entries)
    && R.InlineOf(v).Some?
    && var r := R.BlocksOf(v, 12);
    r.start <= r.end && v.size == 4096 * (r.end - r.start) + |R.InlineOf(v).value|
  }

  function ContentOf(ctx: Context, node: Node): Content
    requires Resolves(ctx, node)
  {
    if node.Dir? then DirContent(EMPTY_DIR)
    else LeafContent(ctx.leaves[node.id].content, ctx.leaves[node.id].links)
  }

  /** The attributes read are the generated ones and the escaped ones of the tree, and the
      stored filter describes them exactly. */
  ghost predicate ReadsAttributes(ctx: Context, img: R.Img, v: R.View, node: Node)
    requires GoodContext(ctx) && Resolves(ctx, node)
  {
    && R.AllXattrs(img, v).Some? && R.ReadXattrs(v).Some?
    && var xs := R.AllXattrs(img, v).value;
    && Canonical(xs) && KnownPrefixes(xs)
    && multiset(PairsOf(xs))
       == multiset(Generated(ctx.alg, ContentOf(ctx, node)) + EscapedPairs(StatOfNode(ctx, node).xattrs))
    && match R.ReadXattrs(v).value
       case None => xs == []
       case Some(section) => StoredFilter(section.filter, xs, ctx.xxh)
  }

  ghost predicate Ascending(es: seq<R.Entry>) {
    forall i, j :: 0 <= i < j < |es| ==> Less(es[i].name, es[j].name)
  }

  /** A directory lists its children, in order, with their types, and ".", "..". */
  ghost predicate ReadsListing(ctx: Context, img: R.Img, nid: nat, parent: nat, entries: Entries) {
    && ReadDir(img, nid).Some?
    && var es := ReadDir(img, nid).value;
    && Ascending(es)
    && Named(es, DOT) == Some(nid) && Named(es, DOTDOT) == Some(parent)
    && (forall n :: Find(entries, n).Some? ==> Named(es, n).Some?)
    && forall i :: 0 <= i < |es| ==> ReadsEntry(ctx, es[i], entries)
  }

  ghost predicate ReadsEntry(ctx: Context, e: R.Entry, entries: Entries) {
    if IsDot(e.name) then e.fileType == FileType.Directory.Number()
    else
      match Find(entries, e.name)
      case None => false
      case Some(child) => Resolves(ctx, child) && e.fileType == TypeOfNode(ctx, child).Number()
  }

  /** Inode number `nid` of the image is `node`; `parent` is its parent directory. */
  ghost predicate ReadsAs(ctx: Context, img: R.Img, nid: nat, parent: nat, node: Node)
    requires GoodContext(ctx) && Resolves(ctx, node)
  {
    match R.ReadInode(img, nid)
    case None => false
    case Some(v) =>
      && ReadsHeader(ctx, v, node) && ReadsAttributes(ctx, img, v, node)
      && match node
         case Dir(_, entries) => ReadsDir(v, entries) && ReadsListing(ctx, img, nid, parent, entries)
         case File(id) => ReadsBody(v, ctx.leaves[id])
  }

  // ---- the inode of a node ----

  /** The inode, before sharing, of a node. */
  ghost predicate InodeOfNode(ctx: Context, inode: Inode, node: Node)
    requires GoodContext(ctx) && Resolves(ctx, node)
  {
    && inode.stat == StatOfNode(ctx, node)
    && inode.xattrs == InitialXattrs(ctx.alg, inode.stat, ContentOf(ctx, node), ctx.xxh)
    && inode.content.FileType() == TypeOfNode(ctx, node)
    && (node.File? ==> inode.content == ContentOf(ctx, node))
    && (node.Dir? ==> inode.content.DirContent?)
  }

  lemma HoldsInode(ctx: Context, t: Table, idx: nat, node: Node, path: Path, parent: nat)
    requires GoodContext(ctx) && Holds(ctx, t, idx, node, path, parent)
    ensures Resolves(ctx, node) && idx < |t.inodes| && InodeOfNode(ctx, t.inodes[idx], node)
  {
    hide AddedAll, OverlayXattrs, Packed, WithDots, Packable, AllEntries, WithoutDots;
  }

  lemma HeaderReads(ctx: Context, inodes: seq<Inode>, xattrs: seq<XAttr>, k: nat, inode: Inode, node: Node)
    requires Writable(inodes, xattrs) && k < |inodes| && inodes[k] == SharedInode(inode, xattrs)
    requires GoodContext(ctx) && Resolves(ctx, node) && InodeOfNode(ctx, inode, node)
    requires inode.stat.mode < 0x1000
    ensures ReadsHeader(ctx, InodeView(inodes, xattrs, k), node)
  {
    hide SharedPart, LocalPart, InitialXattrs, XattrsBytes, TailBytes, TruePos, ModeOf, IfmtOf;
    DirMode(inodes, xattrs, k);
  }

  lemma AttributesRead(ctx: Context, inodes: seq<Inode>, xattrs: seq<XAttr>, k: nat, inode: Inode, node: Node)
    requires Decodable(inodes, xattrs) && k < |inodes| && inodes[k] == SharedInode(inode, xattrs)
    requires GoodContext(ctx) && Resolves(ctx, node) && InodeOfNode(ctx, inode, node)
    ensures ReadsAttributes(ctx, OpenedImage(inodes, xattrs), InodeView(inodes, xattrs, k), node)
  {
    hide InitialXattrs, OpenedImage, InodeView, Decodable, R.AllXattrs, R.ReadXattrs, SharedInode,
      Resolved, Generated, EscapedPairs, KnownPrefixes, Canonical, FilterOf, StoredFilter, TruePos, IdsOf;
    var content := ContentOf(ctx, node);
    var x := inode.xattrs;
    InitialShape(ctx.alg, inode.stat, content, ctx.xxh);
    InitialPairs(ctx.alg, inode.stat, content, ctx.xxh);
    InitialFilter(ctx.alg, inode.stat, content, ctx.xxh);
    SharingKeepsMeaning(inode, xattrs);
    XattrsOfInodeRoundTrip(inodes, xattrs, k);
    SectionRoundTrip(inodes, xattrs, k);
    var xs := Resolved(inodes[k].xattrs, xattrs);
    InitialCanonical(ctx.alg, inode.stat, content, ctx.xxh);
    CanonicalPermute(x.local, xs);
    PairsPermute(x.local, xs);
    ComplementFilter(x.filter, x.local, xs, ctx.xxh);
    if x.filter == 0 {
      assert |multiset(xs)| == 0;
    }
  }

  lemma BodyReads(ctx: Context, inodes: seq<Inode>, xattrs: seq<XAttr>, k: nat, inode: Inode, id: nat)
    requires Decodable(inodes, xattrs) && k < |inodes| && inodes[k] == SharedInode(inode, xattrs)
    requires GoodContext(ctx) && id < |ctx.leaves| && InodeOfNode(ctx, inode, File(id))
    ensures ReadsBody(InodeView(inodes, xattrs, k), ctx.leaves[id])
  {
    hide SharedPart, LocalPart, InitialXattrs, XattrsBytes, TruePos, FinalImage, ModeOf, BitOr,
      R.InlineOf;
    InlineRoundTrip(inodes, xattrs, k);
  }

  // ---- links and sizes of directories ----

  lemma {:induction false} SubdirsAppend(a: seq<DirEnt>, b: seq<DirEnt>)
    ensures Subdirs(a + b) == Subdirs(a) + Subdirs(b)
  {
    if b == [] {
      assert a + b == a;
    } else {
      assert (a + b)[..|a + b| - 1] == a + b[..|b| - 1];
      SubdirsAppend(a, b[..|b| - 1]);
    }
  }

  lemma SubdirsFirst(e: DirEnt, rest: seq<DirEnt>)
    ensures Subdirs([e] + rest) == (if e.fileType == ErofsFormat.Directory then 1 else 0) + Subdirs(rest)
  {
    SubdirsAppend([e], rest);
    assert [e][..0] == [];
  }

  lemma {:induction false} SubdirsInserted(entries: seq<DirEnt>, e: DirEnt)
    requires e.fileType == ErofsFormat.Directory
    ensures Subdirs(InsertSorted(entries, e)) == 1 + Subdirs(entries)
  {
    hide Less, Subdirs;
    if entries == [] || !Less(entries[0].name, e.name) {
      SubdirsFirst(e, entries);
    } else {
      SubdirsInserted(entries[1..], e);
      SubdirsFirst(entries[0], InsertSorted(entries[1..], e));
      SubdirsFirst(entries[0], entries[1..]);
      assert entries == [entries[0]] + entries[1..];
    }
  }

  lemma {:induction false} ChildrenSubdirs(ctx: Context, t: Table, children: seq<DirEnt>, es: Entries,
                                           path: Path, me: nat)
    requires GoodContext(ctx) && HoldsChildren(ctx, t, children, es, path, me)
    ensures Subdirs(children) == Subdirectories(es)
  {
    hide Holds, Subdirs;
    match es
    case Empty =>
      NoSubdirs();
    case More(_, _, rest) =>
      ChildrenSubdirs(ctx, t, children[1..], rest, path, me);
      SubdirsFirst(children[0], children[1..]);
      assert children == [children[0]] + children[1..];
  }

  lemma NoSubdirs()
    ensures Subdirs([]) == 0
  {
  }

  lemma DirLinks(ctx: Context, t: Table, idx: nat, node: Node, path: Path, parent: nat)
    requires GoodContext(ctx) && Holds(ctx, t, idx, node, path, parent) && node.Dir?
    ensures idx < |t.inodes| && t.inodes[idx].content.DirContent?
    ensures t.inodes[idx].content.dir.nlink == 2 + Subdirectories(node.entries)
  {
    hide PackBlocks, PackInline, BlockSize, WithoutDots, InitialXattrs, InsertSorted, Subdirs, HoldsChildren,
      AllEntries;
    var children := WithoutDots(AllEntries(t.inodes[idx].content.dir));
    var dot := DirEnt(DOT, idx, ErofsFormat.Directory);
    ChildrenSubdirs(ctx, t, children, node.entries, path, idx);
    SubdirsInserted(children, dot);
    SubdirsInserted(InsertSorted(children, dot), DirEnt(DOTDOT, parent, ErofsFormat.Directory));
  }

  lemma DirReads(ctx: Context, t: Table, inodes: seq<Inode>, xattrs: seq<XAttr>, idx: nat,
                 node: Node, path: Path, parent: nat)
    requires Decodable(inodes, xattrs) && idx < |inodes|
    requires GoodContext(ctx) && Holds(ctx, t, idx, node, path, parent) && node.Dir?
    requires idx < |t.inodes| && inodes[idx] == SharedInode(t.inodes[idx], xattrs)
    requires Writable(inodes, xattrs)
    ensures ReadsDir(InodeView(inodes, xattrs, idx), node.entries)
  {
    hide Holds, SharedPart, LocalPart, TruePos, FinalImage, ModeOf, R.InlineOf, R.BlocksOf, XattrsBytes;
    DirLinks(ctx, t, idx, node, path, parent);
    DirBlocks(inodes, xattrs, idx);
    InlineRoundTrip(inodes, xattrs, idx);
  }

  // ---- listings ----

  lemma {:induction false} ChildrenOrdered(ctx: Context, t: Table, children: seq<DirEnt>, es: Entries,
                                           path: Path, me: nat)
    requires GoodContext(ctx) && HoldsChildren(ctx, t, children, es, path, me)
    requires SortedEntries(es) && WellFormedEntries(es, |ctx.leaves|)
    ensures Sorted(children)
    ensures forall i :: 0 <= i < |children| ==> ChildEntry(ctx, children[i], es)
  {
    hide Holds, WellFormed, Less;
    if es.More? {
      ChildrenOrdered(ctx, t, children[1..], es.rest, path, me);
      NoDotNames(ctx, t, children[1..], es.rest, path, me);
      LessIrreflexive(es.name);
      assert children == [children[0]] + children[1..];
    }
  }

  ghost predicate ChildEntry(ctx: Context, e: DirEnt, es: Entries) {
    && ValidName(e.name)
    && match Find(es, e.name)
       case None => false
       case Some(child) => Resolves(ctx, child) && e.fileType == TypeOfNode(ctx, child)
  }

  /** The entries of a directory of the table: sorted, each a child or a dot. */
  lemma TableListing(ctx: Context, t: Table, idx: nat, node: Node, path: Path, parent: nat)
    requires GoodContext(ctx) && Holds(ctx, t, idx, node, path, parent) && node.Dir?
    requires WellFormed(node, |ctx.leaves|)
    ensures idx < |t.inodes| && t.inodes[idx].content.DirContent?
    ensures
      var entries := AllEntries(t.inodes[idx].content.dir);
      && Sorted(entries)
      && forall i :: 0 <= i < |entries| ==>
           if IsDot(entries[i].name) then entries[i].fileType == ErofsFormat.Directory
           else ChildEntry(ctx, entries[i], node.entries)
  {
    hide PackBlocks, PackInline, WithDots, BlockSize, WithoutDots, InitialXattrs, Less, Sorted,
      ChildEntry;
    var children := WithoutDots(AllEntries(t.inodes[idx].content.dir));
    var entries := WithDots(children, idx, parent);
    PackedFaithful(entries);
    NoDotNames(ctx, t, children, node.entries, path, idx);
    ChildrenOrdered(ctx, t, children, node.entries, path, idx);
    WithDotsSorted(children, idx, parent);
    WithDotsMembers(children, idx, parent);
    forall i | 0 <= i < |entries|
      ensures if IsDot(entries[i].name) then entries[i].fileType == ErofsFormat.Directory
              else ChildEntry(ctx, entries[i], node.entries)
    {
      assert entries[i] in entries;
    }
  }

  lemma ListingReads(ctx: Context, t: Table, inodes: seq<Inode>, xattrs: seq<XAttr>, idx: nat,
                     node: Node, path: Path, parent: nat)
    requires Decodable(inodes, xattrs) && PermissionsOnly(inodes) && idx < |inodes|
    requires GoodContext(ctx) && Holds(ctx, t, idx, node, path, parent) && node.Dir?
    requires WellFormed(node, |ctx.leaves|) && parent < |inodes|
    requires idx < |t.inodes| && inodes[idx].content == t.inodes[idx].content
    ensures ReadsListing(ctx, OpenedImage(inodes, xattrs), Nid(inodes, idx), Nid(inodes, parent),
                         node.entries)
  {
    hide Holds, Decodable, PermissionsOnly, OpenedImage, Nid, Sorted, ReadDir, EntriesOf, TruePos,
      WellFormed, AllEntries, ChildEntry, ReadsEntry, Less;
    TableListing(ctx, t, idx, node, path, parent);
    var entries, pos := AllEntries(t.inodes[idx].content.dir), TruePos(inodes, xattrs);
    ReadDirOfTable(inodes, xattrs, idx);
    var es := EntriesOf(entries, pos);
    NidOfPos(inodes, xattrs);
    DirHolds(ctx, t, idx, node, path, parent, DOT);
    NamedEntries(entries, pos, DOT);
    NamedEntries(entries, pos, DOTDOT);
    forall n | Find(node.entries, n).Some?
      ensures Named(es, n).Some?
    {
      NotADot(node, |ctx.leaves|, n);
      DirHolds(ctx, t, idx, node, path, parent, n);
      NamedEntries(entries, pos, n);
    }
    EntriesAscend(entries, pos);
    forall i | 0 <= i < |es|
      ensures ReadsEntry(ctx, es[i], node.entries)
    {
      EntryReads(ctx, entries[i], pos, node.entries);
    }
  }

  lemma NotADot(node: Node, n: nat, name: bytes)
    requires node.Dir? && WellFormed(node, n) && Find(node.entries, name).Some?
    ensures !IsDot(name)
  {
    FindWellFormed(node.entries, n, name);
  }

  lemma EntriesAscend(entries: seq<DirEnt>, pos: Pos)
    requires WritableBlock(entries, |pos.inodes|) && Sorted(entries)
    ensures Ascending(EntriesOf(entries, pos))
  {
    hide Less;
  }

  lemma EntryReads(ctx: Context, e: DirEnt, pos: Pos, es: Entries)
    requires e.inode < |pos.inodes|
    requires if IsDot(e.name) then e.fileType == ErofsFormat.Directory else ChildEntry(ctx, e, es)
    ensures ReadsEntry(ctx, EntryOf(e, pos), es)
  {
    hide Find;
  }

  // ---- the theorem ----

  /** The index of the directory that the walk to `path` came through. */
  function ParentIn(inodes: seq<Inode>, idx: nat, parent: nat, path: Path): nat {
    if path == [] then parent
    else
      match WalkTable(inodes, idx, path[..|path| - 1])
      case None => 0
      case Some(p) => p
  }

  lemma {:induction false} WalkHolds(ctx: Context, t: Table, idx: nat, node: Node, base: Path,
                                     parent: nat, path: Path)
    requires GoodContext(ctx) && Holds(ctx, t, idx, node, base, parent)
    requires WellFormed(node, |ctx.leaves|) && Plain(path)
    ensures WalkTable(t.inodes, idx, path).Some? <==> Lookup(node, path).Some?
    ensures Lookup(node, path).Some? ==>
      && WellFormed(Lookup(node, path).value, |ctx.leaves|)
      && Holds(ctx, t, WalkTable(t.inodes, idx, path).value, Lookup(node, path).value,
               base + path, ParentIn(t.inodes, idx, parent, path))
    decreases |path|
  {
    hide Holds, AllEntries, WellFormedEntries, SortedEntries;
    if path == [] {
      assert base + path == base;
    } else if node.Dir? {
      var name := path[0];
      DirHolds(ctx, t, idx, node, base, parent, name);
      if Find(node.entries, name).Some? {
        FindWellFormed(node.entries, |ctx.leaves|, name);
        var child := Target(AllEntries(t.inodes[idx].content.dir), name).value;
        WalkHolds(ctx, t, child, Find(node.entries, name).value, base + [name], idx, path[1..]);
        assert base + [name] + path[1..] == base + path;
        var rest, up := path[1..], path[..|path| - 1];
        if rest != [] {
          assert up[0] == name && up[1..] == rest[..|rest| - 1];
        } else {
          assert up == [];
        }
      }
    } else {
      FileHolds(ctx, t, idx, node, base, parent);
    }
  }

  /** Sharing attributes does not move inodes. */
  lemma {:induction false} WalkShared(inodes: seq<Inode>, t: seq<XAttr>, k: nat, path: Path)
    ensures WalkTable(SharedInodes(inodes, t), k, path) == WalkTable(inodes, k, path)
    decreases |path|
  {
    hide SharedPart, LocalPart, AllEntries;
    if path != [] && k < |inodes| && inodes[k].content.DirContent? {
      var child := Target(AllEntries(inodes[k].content.dir), path[0]);
      if child.Some? {
        WalkShared(inodes, t, child.value, path[1..]);
      }
    }
  }

  /** The image `mkfs_erofs` makes. */
  function MkfsImage(ctx: Context, root: Node): bytes
    requires FitsFs(ctx, root)
  {
    PlanWritable(ctx, root);
    FinalImage(PlanInodes(ctx, root), PlanXattrs(ctx, root))
  }

  /** The inode number that a walk from the root of the image leads to. */
  function WalkRoot(image: bytes, path: Path): Option<nat> {
    match R.Open(image)
    case None => None
    case Some(img) => Walk(img, img.rootNid, path)
  }

  function ParentPath(path: Path): Path {
    if path == [] then [] else path[..|path| - 1]
  }

  lemma PlanOpens(ctx: Context, root: Node)
    requires FitsFs(ctx, root) && |MkfsImage(ctx, root)| < 0x1_0000_0000
    ensures
      var inodes, xattrs := PlanInodes(ctx, root), PlanXattrs(ctx, root);
      && Decodable(inodes, xattrs) && PermissionsOnly(inodes)
      && R.Open(MkfsImage(ctx, root)) == Some(OpenedImage(inodes, xattrs))
      && OpenedImage(inodes, xattrs).rootNid == Nid(inodes, 0)
  {
    hide FinalImage, Decodable, GoodInode, Holds, SharedTable, R.Open, Collect;
    var inodes, xattrs := PlanInodes(ctx, root), PlanXattrs(ctx, root);
    PlanWritable(ctx, root);
    PlanDecodable(ctx, root);
    OpenRoundTrip(inodes, xattrs);
    NidOfPos(inodes, xattrs);
    PlanTableGood(ctx, root);
    assert forall k :: 0 <= k < |inodes| ==> GoodMode(Collect(ctx, root).inodes[k]) by {
      var t := Collect(ctx, root);
      forall k | 0 <= k < |inodes|
        ensures GoodMode(t.inodes[k])
      {
        ModeIsGood(t.inodes[k], |t.inodes|);
      }
    }
  }

  ghost predicate GoodMode(inode: Inode) {
    inode.stat.mode < 0x1000
  }

  lemma ModeIsGood(inode: Inode, n: nat)
    requires GoodInode(inode, n)
    ensures GoodMode(inode)
  {
  }

  lemma NodeReads(ctx: Context, t: Table, inodes: seq<Inode>, xattrs: seq<XAttr>, idx: nat,
                  node: Node, path: Path, parent: nat)
    requires Decodable(inodes, xattrs) && PermissionsOnly(inodes)
    requires inodes == SharedInodes(t.inodes, xattrs)
    requires GoodContext(ctx) && Holds(ctx, t, idx, node, path, parent)
    requires WellFormed(node, |ctx.leaves|) && parent < |inodes|
    ensures idx < |inodes| && Resolves(ctx, node) && Writable(inodes, xattrs)
    ensures ReadsAs(ctx, OpenedImage(inodes, xattrs), Nid(inodes, idx), Nid(inodes, parent), node)
  {
    hide Holds, Decodable, PermissionsOnly, OpenedImage, Nid, ReadsHeader, ReadsBody, GoodContext,
      ReadsAttributes, ReadsListing, ReadsDir, InodeOfNode, R.ReadInode, InodeView, WellFormed, SharedPart,
      LocalPart;
    PlanNotEmpty(inodes, xattrs);
    HoldsInode(ctx, t, idx, node, path, parent);
    ReadInodeRoundTrip(inodes, xattrs, idx);
    PermissionOf(inodes, idx);
    HeaderReads(ctx, inodes, xattrs, idx, t.inodes[idx], node);
    AttributesRead(ctx, inodes, xattrs, idx, t.inodes[idx], node);
    match node
    case Dir(_, _) =>
      DirReads(ctx, t, inodes, xattrs, idx, node, path, parent);
      ListingReads(ctx, t, inodes, xattrs, idx, node, path, parent);
    case File(id) => BodyReads(ctx, inodes, xattrs, idx, t.inodes[idx], id);
  }

  lemma PermissionOf(inodes: seq<Inode>, k: nat)
    requires PermissionsOnly(inodes) && k < |inodes|
    ensures inodes[k].stat.mode < 0x1000
  {
  }

  /** A walk over the image is a walk over the collected table. */
  lemma WalkRootIs(ctx: Context, root: Node, path: Path)
    requires FitsFs(ctx, root) && |MkfsImage(ctx, root)| < 0x1_0000_0000
    ensures
      var w, inodes := WalkTable(Collect(ctx, root).inodes, 0, path), PlanInodes(ctx, root);
      && (w.Some? ==> w.value < |inodes|)
      && WalkRoot(MkfsImage(ctx, root), path)
         == (if w.None? then None else Some(Nid(inodes, w.value)))
  {
    hide MkfsImage, Decodable, PermissionsOnly, OpenedImage, Nid, SharedTable, Collect, WalkTable,
      Walk, FitsLeaves, FitsNode, Storable;
    var inodes, xattrs := PlanInodes(ctx, root), PlanXattrs(ctx, root);
    PlanOpens(ctx, root);
    PlanNotEmpty(inodes, xattrs);
    WalkImage(inodes, xattrs, 0, path);
    WalkShared(Collect(ctx, root).inodes, xattrs, 0, path);
  }

  lemma PlanNotEmpty(inodes: seq<Inode>, xattrs: seq<XAttr>)
    requires Decodable(inodes, xattrs)
    ensures inodes != [] && Writable(inodes, xattrs)
  {
  }

  /** Following directory entries from the root of the image reaches exactly the paths of the
      tree, and what is read there is the node of the tree. */
  lemma MkfsPreservesTree(ctx: Context, root: Node, path: Path)
    requires FitsFs(ctx, root) && |MkfsImage(ctx, root)| < 0x1_0000_0000 && Plain(path)
    ensures R.Open(MkfsImage(ctx, root)).Some?
    ensures WalkRoot(MkfsImage(ctx, root), path).Some? <==> Lookup(root, path).Some?
    ensures Lookup(root, path).Some? ==>
      var image, node := MkfsImage(ctx, root), Lookup(root, path).value;
      && Resolves(ctx, node) && WalkRoot(image, ParentPath(path)).Some?
      && ReadsAs(ctx, R.Open(image).value, WalkRoot(image, path).value,
                 WalkRoot(image, ParentPath(path)).value, node)
  {
    hide MkfsImage, Decodable, PermissionsOnly, OpenedImage, Nid, SharedTable, Collect, WalkTable,
      WalkRoot, ReadsAs, Holds, GoodTable, ValidTable, Lookup, FitsLeaves, FitsNode;
    var t, inodes, image := Collect(ctx, root), PlanInodes(ctx, root), MkfsImage(ctx, root);
    PlanOpens(ctx, root);
    PlanTableGood(ctx, root);
    WalkRootIs(ctx, root, path);
    WalkHolds(ctx, t, 0, root, [], 0, path);
    if Lookup(root, path).Some? {
      var idx, parent := WalkTable(t.inodes, 0, path).value, ParentIn(t.inodes, 0, 0, path);
      ParentWalk(t.inodes, path);
      WalkRootIs(ctx, root, ParentPath(path));
      NodeReads(ctx, t, inodes, PlanXattrs(ctx, root), idx, Lookup(root, path).value, [] + path, parent);
    }
  }

  /** The way to a node leads through its parent. */
  lemma {:induction false} WalkPrefix(inodes: seq<Inode>, idx: nat, path: Path)
    requires path != [] && WalkTable(inodes, idx, path).Some?
    ensures WalkTable(inodes, idx, path[..|path| - 1]).Some?
    decreases |path|
  {
    hide AllEntries;
    var up := path[..|path| - 1];
    if up != [] {
      var child := Target(AllEntries(inodes[idx].content.dir), path[0]).value;
      WalkPrefix(inodes, child, path[1..]);
      assert up[0] == path[0] && up[1..] == path[1..][..|path| - 2];
    }
  }

  lemma ParentWalk(inodes: seq<Inode>, path: Path)
    requires WalkTable(inodes, 0, path).Some?
    ensures WalkTable(inodes, 0, ParentPath(path)) == Some(ParentIn(inodes, 0, 0, path))
  {
    if path != [] {
      WalkPrefix(inodes, 0, path);
    }
  }

  // ---- hardlinks ----

  lemma LabelAt(ctx: Context, t: Table, idx: nat, node: Node, path: Path, parent: nat)
    requires GoodContext(ctx) && Holds(ctx, t, idx, node, path, parent)
    ensures Resolves(ctx, node) && idx < |t.labels|
    ensures t.labels[idx] == (if node.Dir? then At(path) else LabelOf(ctx, node.id, path))
  {
    hide AllEntries, WithoutDots, Packable, Packed, LeafInode, DirInode, WithDots;
  }

  /** Two paths lead to the same inode number exactly when they are the same path or two
      references to one shared leaf. */
  lemma SameInodeIffSameLeaf(ctx: Context, root: Node, p: Path, q: Path)
    requires FitsFs(ctx, root) && |MkfsImage(ctx, root)| < 0x1_0000_0000
    requires SharingIsCounted(FileSystem(root, ctx.leaves))
    requires Plain(p) && Plain(q) && Lookup(root, p).Some? && Lookup(root, q).Some?
    ensures
      var image, a, b := MkfsImage(ctx, root), Lookup(root, p).value, Lookup(root, q).value;
      WalkRoot(image, p) == WalkRoot(image, q) <==> p == q || (a.File? && b.File? && a.id == b.id)
  {
    hide MkfsImage, Nid, SharedTable, Collect, WalkTable, WalkRoot, Holds, GoodTable, ValidTable,
      Lookup, FitsLeaves, FitsNode, SharingIsCounted, LeafInode, LabelOf, WellFormed,
      GoodContext;
    var t, inodes := Collect(ctx, root), PlanInodes(ctx, root);
    var a, b := Lookup(root, p).value, Lookup(root, q).value;
    PlanTableGood(ctx, root);
    WalkRootIs(ctx, root, p);
    WalkRootIs(ctx, root, q);
    var i, j := SameIndexIffSameLeaf(ctx, t, root, p, q);
    NidsDiffer(inodes, i, j);
  }

  lemma SameIndexIffSameLeaf(ctx: Context, t: Table, root: Node, p: Path, q: Path) returns (i: nat, j: nat)
    requires GoodContext(ctx) && ValidTable(ctx, t) && Holds(ctx, t, 0, root, [], 0)
    requires WellFormed(root, |ctx.leaves|) && SharingIsCounted(FileSystem(root, ctx.leaves))
    requires Plain(p) && Plain(q) && Lookup(root, p).Some? && Lookup(root, q).Some?
    ensures WalkTable(t.inodes, 0, p) == Some(i) && WalkTable(t.inodes, 0, q) == Some(j)
    ensures
      var a, b := Lookup(root, p).value, Lookup(root, q).value;
      i == j <==> p == q || (a.File? && b.File? && a.id == b.id)
  {
    hide WalkTable, Holds, ValidTable, Lookup, SharingIsCounted, WellFormed;
    var a, b := Lookup(root, p).value, Lookup(root, q).value;
    WalkHolds(ctx, t, 0, root, [], 0, p);
    WalkHolds(ctx, t, 0, root, [], 0, q);
    i, j := WalkTable(t.inodes, 0, p).value, WalkTable(t.inodes, 0, q).value;
    LabelAt(ctx, t, i, a, [] + p, ParentIn(t.inodes, 0, 0, p));
    LabelAt(ctx, t, j, b, [] + q, ParentIn(t.inodes, 0, 0, q));
    assert [] + p == p && [] + q == q;
    LabelsApart(ctx, t, i, j);
    if a.File? && b.File? && a.id == b.id && p != q {
      Counted(FileSystem(root, ctx.leaves), p, q);
    }
  }

  lemma LabelsApart(ctx: Context, t: Table, i: nat, j: nat)
    requires GoodContext(ctx) && ValidTable(ctx, t) && i < |t.labels| && j < |t.labels|
    ensures t.labels[i] == t.labels[j] <==> i == j
  {
    hide LeafInode;
  }

  lemma Counted(fs: FileSystem, p: Path, q: Path)
    requires SharingIsCounted(fs) && p != q
    requires IsLeafAt(fs, p) && IsLeafAt(fs, q) && LeafAt(fs, p) == LeafAt(fs, q)
    ensures LeafAt(fs, p) < |fs.leaves| && fs.leaves[LeafAt(fs, p)].links > 1
  {
  }
}
