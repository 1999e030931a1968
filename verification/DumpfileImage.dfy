/** From a dumpfile to an image: hardlink lines become shared inodes. */
module DumpfileImage {
  import opened Bytes
  import opened Dumpfile
  import opened DumpfileLinks
  import opened ErofsCollect
  import opened ErofsMkfs
  import opened ErofsFaithful
  import opened ErofsTheorem
  import R = ErofsReader
  import T = Tree

  lemma {:induction false} FoundIsValid(es: T.Entries, n: nat, name: bytes)
    requires T.WellFormedEntries(es, n) && T.Find(es, name).Some?
    ensures T.ValidName(name) && T.WellFormed(T.Find(es, name).value, n)
  {
    hide T.ValidName;
    if es.name != name {
      FoundIsValid(es.rest, n, name);
    }
  }

  /** Nothing is stored under a dot name. */
  lemma {:induction false} StoredIsPlain(node: T.Node, n: nat, p: T.Path)
    requires T.WellFormed(node, n) && T.Lookup(node, p).Some?
    ensures Plain(p)
    decreases |p|
  {
    if p != [] {
      FoundIsValid(node.entries, n, p[0]);
      StoredIsPlain(T.Find(node.entries, p[0]).value, n, p[1..]);
      assert p == [p[0]] + p[1..];
    }
  }

  /** The path leads to an inode that reads as the node. */
  ghost predicate ReadsAt(ctx: Context, image: bytes, p: T.Path, node: T.Node) {
    && R.Open(image).Some? && WalkRoot(image, p).Some? && WalkRoot(image, ParentPath(p)).Some?
    && GoodContext(ctx) && Resolves(ctx, node)
    && ReadsAs(ctx, R.Open(image).value, WalkRoot(image, p).value, WalkRoot(image, ParentPath(p)).value, node)
  }

  lemma FitsWellFormed(ctx: Context, root: T.Node)
    requires FitsFs(ctx, root)
    ensures T.WellFormed(root, |ctx.leaves|) && GoodContext(ctx)
  {
  }

  lemma StoredReads(ctx: Context, root: T.Node, p: T.Path)
    requires FitsFs(ctx, root) && |MkfsImage(ctx, root)| < 0x1_0000_0000 && T.Lookup(root, p).Some?
    ensures Plain(p) && ReadsAt(ctx, MkfsImage(ctx, root), p, T.Lookup(root, p).value)
  {
    hide MkfsImage, WalkRoot, ReadsAs, FitsFs, T.Lookup, Plain, R.Open, T.WellFormed, GoodContext;
    FitsWellFormed(ctx, root);
    StoredIsPlain(root, |ctx.leaves|, p);
    MkfsPreservesTree(ctx, root, p);
  }

  /** In the image of a built tree the file at a path reads as the leaf that its entry says, and
      two paths lead to one inode exactly when hardlink lines join them. */
  lemma SameInodeIffLinked(ctx: Context, lines: seq<bytes>, idSize: nat, p: T.Path, q: T.Path)
    requires Build(lines, idSize).Some?
    requires
      var fs := Build(lines, idSize).value;
      && fs.leaves == ctx.leaves && FitsFs(ctx, fs.root) && |MkfsImage(ctx, fs.root)| < 0x1_0000_0000
      && T.IsLeafAt(fs, p) && T.IsLeafAt(fs, q)
    ensures
      var fs, es := Build(lines, idSize).value, EntriesOf(lines).value[1..];
      var image, m := MkfsImage(ctx, fs.root), MadeBy(es);
      && p in m && q in m && m[p] < |es| && T.LeafAt(fs, p) < |ctx.leaves|
      && Says(es[m[p]], idSize, ctx.leaves[T.LeafAt(fs, p)])
      && ReadsAt(ctx, image, p, T.File(T.LeafAt(fs, p)))
      && (WalkRoot(image, p) == WalkRoot(image, q) <==> m[p] == m[q])
  {
    hide Build, MadeBy, Says, MkfsImage, WalkRoot, ReadsAt, FitsFs, T.Lookup, T.SharingIsCounted, Plain, R.Open,
      T.WellFormed, GoodContext;
    var fs := Build(lines, idSize).value;
    SharedIff(lines, idSize, p, q);
    BuiltIsCounted(lines, idSize);
    StoredReads(ctx, fs.root, p);
    StoredReads(ctx, fs.root, q);
    SameInodeIffSameLeaf(ctx, fs.root, p, q);
  }
}
