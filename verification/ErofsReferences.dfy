/** The objects collected from the image of a tree are the ids of its external files. */
module ErofsReferences {
  import opened Bytes
  import opened Tree
  import opened ErofsFormat
  import R = ErofsReader
  import opened ErofsCollect
  import opened ErofsMkfs
  import opened ErofsTheorem
  import opened ErofsFaithful
  import opened ErofsCollector
  import opened ErofsObjects

  /** Some path of the tree is an external file with this id. */
  ghost predicate Stores(ctx: Context, root: Node, id: bytes) {
    exists p :: Plain(p) && StoresAt(ctx, root, p, id)
  }

  ghost predicate StoresAt(ctx: Context, root: Node, path: Path, id: bytes) {
    && Lookup(root, path).Some? && StoredBy(ctx, Lookup(root, path).value, id)
  }

  ghost predicate StoredBy(ctx: Context, node: Node, id: bytes) {
    && node.File? && node.id < |ctx.leaves|
    && ctx.leaves[node.id].content.External? && ctx.leaves[node.id].content.id == id
  }

  // ---- attributes of one node ----

  lemma MetacopySplit(value: bytes)
    ensures ErofsCollect.Entry(METACOPY, value) == XAttr(TRUSTED, METACOPY_SUFFIX, value)
  {
    PrefixFacts();
    assert Split(METACOPY, value, 6) == Split(METACOPY, value, 5);
    assert Split(METACOPY, value, 5) == Split(METACOPY, value, 4);
    assert METACOPY[8..] == METACOPY_SUFFIX;
  }

  lemma PrefixFacts()
    ensures !(XATTR_PREFIXES[6] <= METACOPY) && !(XATTR_PREFIXES[5] <= METACOPY)
    ensures XATTR_PREFIXES[4] <= METACOPY && |XATTR_PREFIXES[4]| == 8
  {
    assert XATTR_PREFIXES[6][0] == 115 && XATTR_PREFIXES[5][0] == 108 && METACOPY[0] == 116;
  }

  lemma TrustedName(x: XAttr)
    requires x.prefix == TRUSTED && x.suffix == METACOPY_SUFFIX
    ensures FullName(x) == METACOPY
  {
    assert XATTR_PREFIXES[4] + METACOPY_SUFFIX == METACOPY;
  }

  /** The digests among the attributes of a node: its own id when it is external. */
  lemma AttributesName(ctx: Context, node: Node, xs: seq<XAttr>, id: bytes)
    requires GoodContext(ctx) && Resolves(ctx, node) && Canonical(xs) && KnownPrefixes(xs)
    requires multiset(PairsOf(xs))
          == multiset(Generated(ctx.alg, ContentOf(ctx, node)) + EscapedPairs(StatOfNode(ctx, node).xattrs))
    ensures id in AttrObjects(ctx.alg, xs) <==> StoredBy(ctx, node, id)
  {
    hide Metacopy, MetacopyDigest, FullName, Split, Escape, ObjectPathname, PairsOf, EscapedPairs;
    var pairs := PairsOf(xs);
    var all := Generated(ctx.alg, ContentOf(ctx, node)) + EscapedPairs(StatOfNode(ctx, node).xattrs);
    SameMembers(pairs, all);
    if id in AttrObjects(ctx.alg, xs) {
      var x :| x in xs && AttrObject(ctx.alg, x) == Some(id);
      TrustedName(x);
      var i :| 0 <= i < |xs| && xs[i] == x;
      assert pairs[i] in all;
      PairIsGenerated(ctx, node, pairs[i]);
      MetacopyRoundTrip(ctx.alg, ctx.leaves[node.id].content.id);
    }
    if StoredBy(ctx, node, id) {
      var p := XattrPair(METACOPY, Metacopy(ctx.alg, id));
      assert all[0] == p;
      assert p in pairs;
      var i :| 0 <= i < |pairs| && pairs[i] == p;
      assert xs[i] == ErofsCollect.Entry(METACOPY, p.value);
      MetacopySplit(p.value);
      MetacopyRoundTrip(ctx.alg, id);
      assert AttrObject(ctx.alg, xs[i]) == Some(id);
    }
  }

  lemma SameMembers(a: seq<XattrPair>, b: seq<XattrPair>)
    requires multiset(a) == multiset(b)
    ensures forall p :: p in a <==> p in b
  {
    assert forall p :: p in a <==> p in multiset(a);
    assert forall p :: p in b <==> p in multiset(b);
  }

  lemma PairIsGenerated(ctx: Context, node: Node, p: XattrPair)
    requires GoodContext(ctx) && Resolves(ctx, node) && p.name == METACOPY
    requires p in Generated(ctx.alg, ContentOf(ctx, node)) + EscapedPairs(StatOfNode(ctx, node).xattrs)
    ensures node.File? && ctx.leaves[node.id].content.External?
    ensures p.value == Metacopy(ctx.alg, ctx.leaves[node.id].content.id)
  {
    hide Metacopy, Escape, ObjectPathname;
    var pairs := StatOfNode(ctx, node).xattrs;
    if p in EscapedPairs(pairs) {
      var i :| 0 <= i < |pairs| && EscapedPairs(pairs)[i] == p;
      EscapeInjective(pairs[i].name, pairs[i].name);
      assert false;
    }
    assert METACOPY[16] != REDIRECT[16];
  }

  // ---- one node of the image ----

  lemma NodeRefers(ctx: Context, img: R.Img, nid: nat, parent: nat, node: Node, id: bytes)
    requires GoodContext(ctx) && Resolves(ctx, node) && ReadsAs(ctx, img, nid, parent, node)
    ensures Readable(img, ctx.alg, nid)
    ensures Refers(img, ctx.alg, nid, id) <==> StoredBy(ctx, node, id)
  {
    hide R.ReadInode, R.AllXattrs, R.DirEntries, EntryNids, AttrObjects, Ascending, PairsOf,
      EscapedPairs, Generated, StoredFilter, ReadsEntry, ReadsBody;
    var v := R.ReadInode(img, nid).value;
    var xs := R.AllXattrs(img, v).value;
    AttributesName(ctx, node, xs, id);
    NodeLists(ctx, img, nid, parent, node);
  }

  lemma NodeLists(ctx: Context, img: R.Img, nid: nat, parent: nat, node: Node)
    requires GoodContext(ctx) && Resolves(ctx, node) && ReadsAs(ctx, img, nid, parent, node)
    ensures NidChildren(img, nid).Some?
    ensures node.File? ==> NidChildren(img, nid).value == {}
    ensures node.Dir? ==>
      ReadDir(img, nid).Some? && NidChildren(img, nid).value == EntryNids(ReadDir(img, nid).value)
  {
    hide R.ReadInode, R.DirEntries, EntryNids, ReadsAttributes, Ascending, ReadsEntry, ReadsBody;
    var v := R.ReadInode(img, nid).value;
    assert IsDir(v.mode) <==> node.Dir?;
  }

  // ---- walking and listing ----

  lemma {:induction false} NamedAt(es: seq<R.Entry>, i: nat)
    requires Ascending(es) && i < |es|
    ensures Named(es, es[i].name) == Some(es[i].nid)
  {
    if i > 0 {
      assert Less(es[0].name, es[i].name);
      LessIrreflexive(es[i].name);
      NamedAt(es[1..], i - 1);
    }
  }

  lemma {:induction false} NamedIn(es: seq<R.Entry>, name: bytes)
    requires Named(es, name).Some?
    ensures exists i :: 0 <= i < |es| && es[i].name == name && es[i].nid == Named(es, name).value
  {
    if es[0].name != name {
      NamedIn(es[1..], name);
      var i :| 0 <= i < |es[1..]| && es[1..][i].name == name && es[1..][i].nid == Named(es, name).value;
      assert es[1 + i].name == name;
    }
  }

  lemma {:induction false} WalkAppend(img: R.Img, nid: nat, path: Path, name: bytes)
    requires Walk(img, nid, path).Some?
    ensures Walk(img, nid, path + [name])
         == (match ReadDir(img, Walk(img, nid, path).value)
             case None => None
             case Some(es) => Named(es, name))
    decreases |path|
  {
    hide ReadDir, Named;
    if path == [] {
      assert ([] + [name])[1..] == [];
    } else {
      var child := Named(ReadDir(img, nid).value, path[0]).value;
      WalkAppend(img, child, path[1..], name);
      assert (path + [name])[1..] == path[1..] + [name];
    }
  }

  lemma {:induction false} LookupAppend(node: Node, path: Path, name: bytes)
    requires Lookup(node, path).Some?
    ensures
      var last := Lookup(node, path).value;
      Lookup(node, path + [name]) == (if last.File? then None else Find(last.entries, name))
    decreases |path|
  {
    if path == [] {
      assert ([] + [name])[1..] == [];
    } else {
      var child := Find(node.entries, path[0]).value;
      LookupAppend(child, path[1..], name);
      assert (path + [name])[1..] == path[1..] + [name];
    }
  }

  /** The path `p` of the tree leads to inode number `n` of the image. */
  ghost predicate Leads(ctx: Context, root: Node, p: Path, n: nat)
    requires FitsFs(ctx, root)
  {
    Plain(p) && Lookup(root, p).Some? && WalkRoot(MkfsImage(ctx, root), p) == Some(n)
  }

  lemma OpenedRoot(ctx: Context, root: Node) returns (img: R.Img)
    requires FitsFs(ctx, root) && |MkfsImage(ctx, root)| < 0x1_0000_0000
    ensures R.Open(MkfsImage(ctx, root)) == Some(img)
    ensures forall p :: WalkRoot(MkfsImage(ctx, root), p) == Walk(img, img.rootNid, p)
    ensures root.Dir? && GoodContext(ctx)
  {
    hide R.Open, Walk, MkfsImage;
    MkfsPreservesTree(ctx, root, []);
    img := R.Open(MkfsImage(ctx, root)).value;
  }

  /** From a node of the tree, an entry of its directory leads to a child. */
  lemma StepDown(ctx: Context, root: Node, p: Path, a: nat, b: nat)
    requires FitsFs(ctx, root) && |MkfsImage(ctx, root)| < 0x1_0000_0000
    requires Leads(ctx, root, p, a) && R.Open(MkfsImage(ctx, root)).Some?
    requires Lists(R.Open(MkfsImage(ctx, root)).value, a, b)
    ensures exists q :: Leads(ctx, root, q, b)
  {
    hide R.Open, Walk, MkfsImage, FitsLeaves, FitsNode, Storable, R.ReadInode, ReadsHeader,
      ReadsAttributes, ReadDir, NidChildren, Lookup, WalkRoot;
    MkfsPreservesTree(ctx, root, p);
    var img := OpenedRoot(ctx, root);
    var node := Lookup(root, p).value;
    NodeLists(ctx, img, a, WalkRoot(MkfsImage(ctx, root), ParentPath(p)).value, node);
    var es := ReadDir(img, a).value;
    var e :| e in es && !IsDot(e.name) && e.nid == b;
    var i :| 0 <= i < |es| && es[i] == e;
    NamedAt(es, i);
    assert ReadsEntry(ctx, es[i], node.entries);
    WalkAppend(img, img.rootNid, p, e.name);
    LookupAppend(root, p, e.name);
    assert Leads(ctx, root, p + [e.name], b);
  }

  lemma {:induction false} WaysAreWalks(ctx: Context, root: Node, img: R.Img, way: seq<nat>, end: nat)
    requires FitsFs(ctx, root) && |MkfsImage(ctx, root)| < 0x1_0000_0000
    requires R.Open(MkfsImage(ctx, root)) == Some(img) && Way(img, way)
    requires end == way[|way| - 1]
    ensures exists p :: Leads(ctx, root, p, end)
    decreases |way|
  {
    hide MkfsImage, FitsLeaves, FitsNode, Storable, R.Open, Lists, Leads;
    var n := |way| - 1;
    if n == 0 {
      EmptyPathLeads(ctx, root, img);
    } else {
      WaysAreWalks(ctx, root, img, way[..n], way[n - 1]);
      var p :| Leads(ctx, root, p, way[n - 1]);
      StepDown(ctx, root, p, way[n - 1], end);
    }
  }

  lemma EmptyPathLeads(ctx: Context, root: Node, img: R.Img)
    requires FitsFs(ctx, root) && R.Open(MkfsImage(ctx, root)) == Some(img)
    ensures Leads(ctx, root, [], img.rootNid)
  {
    hide MkfsImage, R.Open;
  }

  lemma {:induction false} WalksAreReachable(ctx: Context, root: Node, img: R.Img, p: Path)
    requires FitsFs(ctx, root) && |MkfsImage(ctx, root)| < 0x1_0000_0000
    requires R.Open(MkfsImage(ctx, root)) == Some(img) && Plain(p) && Lookup(root, p).Some?
    ensures Walk(img, img.rootNid, p).Some? && Reachable(img, Walk(img, img.rootNid, p).value)
    decreases |p|
  {
    hide R.Open, Walk, MkfsImage, FitsLeaves, FitsNode, Storable, R.ReadInode, ReadsHeader,
      ReadsAttributes, ReadDir, NidChildren, Lookup, Reachable, WalkRoot, Named, ReadsEntry;
    MkfsPreservesTree(ctx, root, p);
    var image := OpenedRoot(ctx, root);
    if p == [] {
      EmptyPathLeads(ctx, root, img);
      ReachableRoot(img);
    } else {
      var up, name := ParentPath(p), p[|p| - 1];
      LookupUp(root, p);
      WalksAreReachable(ctx, root, img, up);
      MkfsPreservesTree(ctx, root, up);
      var a := Walk(img, img.rootNid, up).value;
      var node := Lookup(root, up).value;
      NodeLists(ctx, img, a, WalkRoot(MkfsImage(ctx, root), ParentPath(up)).value, node);
      WalkAppend(img, img.rootNid, up, name);
      assert up + [name] == p;
      var es := ReadDir(img, a).value;
      NamedIn(es, name);
      var b := Named(es, name).value;
      assert b in EntryNids(es);
      ReachableStep(img, a, b);
    }
  }

  lemma {:induction false} LookupUp(node: Node, p: Path)
    requires p != [] && Lookup(node, p).Some?
    ensures
      var up := ParentPath(p);
      Lookup(node, up).Some? && Lookup(node, up).value.Dir?
    decreases |p|
  {
    var up := ParentPath(p);
    if up != [] {
      LookupUp(Find(node.entries, p[0]).value, p[1..]);
      assert up[0] == p[0] && up[1..] == ParentPath(p[1..]);
    }
  }

  // ---- the theorem ----

  /** Every reachable inode of the image can be read, and the objects referred to are exactly
      the ids of the external files of the tree. */
  lemma ImageReferences(ctx: Context, root: Node)
    requires FitsFs(ctx, root) && |MkfsImage(ctx, root)| < 0x1_0000_0000
    ensures R.Open(MkfsImage(ctx, root)).Some?
    ensures
      var img := R.Open(MkfsImage(ctx, root)).value;
      && (forall n :: Reachable(img, n) ==> Readable(img, ctx.alg, n))
      && forall id :: (exists n :: Reachable(img, n) && Refers(img, ctx.alg, n, id))
                      <==> Stores(ctx, root, id)
  {
    hide MkfsImage, FitsLeaves, FitsNode, Storable, R.Open, Reachable, Readable, Refers, ReadsAs,
      WalkRoot, Lookup, StoredBy;
    var img := OpenedRoot(ctx, root);
    forall n | Reachable(img, n)
      ensures Readable(img, ctx.alg, n)
      ensures forall id :: Refers(img, ctx.alg, n, id) ==> Stores(ctx, root, id)
    {
      var p := ReachedBy(ctx, root, img, n);
      forall id
        ensures Readable(img, ctx.alg, n)
        ensures Refers(img, ctx.alg, n, id) <==> StoresAt(ctx, root, p, id)
      {
        PathRefers(ctx, root, img, p, id);
      }
      assert Readable(img, ctx.alg, n) by {
        PathRefers(ctx, root, img, p, []);
      }
    }
    forall id | Stores(ctx, root, id)
      ensures exists n :: Reachable(img, n) && Refers(img, ctx.alg, n, id)
    {
      var p :| Plain(p) && StoresAt(ctx, root, p, id);
      WalksAreReachable(ctx, root, img, p);
      PathRefers(ctx, root, img, p, id);
      assert Refers(img, ctx.alg, Walk(img, img.rootNid, p).value, id);
    }
  }

  lemma ReachedBy(ctx: Context, root: Node, img: R.Img, n: nat) returns (p: Path)
    requires FitsFs(ctx, root) && |MkfsImage(ctx, root)| < 0x1_0000_0000
    requires R.Open(MkfsImage(ctx, root)) == Some(img) && Reachable(img, n)
    ensures Leads(ctx, root, p, n)
  {
    hide MkfsImage, FitsLeaves, FitsNode, Storable, R.Open, Leads;
    var way :| Way(img, way) && way[|way| - 1] == n;
    WaysAreWalks(ctx, root, img, way, n);
    p :| Leads(ctx, root, p, n);
  }

  lemma PathRefers(ctx: Context, root: Node, img: R.Img, p: Path, id: bytes)
    requires FitsFs(ctx, root) && |MkfsImage(ctx, root)| < 0x1_0000_0000
    requires R.Open(MkfsImage(ctx, root)) == Some(img) && Plain(p) && Lookup(root, p).Some?
    ensures Walk(img, img.rootNid, p).Some?
    ensures
      var n := Walk(img, img.rootNid, p).value;
      Readable(img, ctx.alg, n) && (Refers(img, ctx.alg, n, id) <==> StoresAt(ctx, root, p, id))
  {
    hide MkfsImage, FitsLeaves, FitsNode, Storable, R.Open, Readable, Refers, ReadsAs, Walk, Lookup,
      StoredBy, WalkRoot;
    MkfsPreservesTree(ctx, root, p);
    var i := OpenedRoot(ctx, root);
    var image := MkfsImage(ctx, root);
    NodeRefers(ctx, img, WalkRoot(image, p).value, WalkRoot(image, ParentPath(p)).value,
               Lookup(root, p).value, id);
  }

  /** Making an image and collecting its objects gives the ids of the external files. */
  method ObjectsOfTree(ctx: Context, root: Node) returns (r: Option<set<bytes>>)
    requires FitsFs(ctx, root) && |MkfsImage(ctx, root)| < 0x1_0000_0000
    ensures r.Some? && forall id :: id in r.value <==> Stores(ctx, root, id)
  {
    hide *;
    var image := MkfsErofs(ctx, root);
    ImageReferences(ctx, root);
    r := CollectObjects(image, ctx.alg);
  }
}
