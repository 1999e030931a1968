/** `mkfs_erofs` as a whole: the collector, sharing and the two passes, and the proof that
    the image can be decoded. */
module ErofsMkfs {
  import opened Bytes
  import opened Tree
  import opened ErofsFormat
  import opened ErofsImage
  import opened ErofsDecode
  import opened ErofsWriter
  import opened ErofsRoundTrip
  import opened ErofsCollect
  import opened ErofsTree
  import opened ErofsShare

  const EMPTY_TABLE: Table := Table([], [], map[])

  function Collect(ctx: Context, root: Node): Table
    requires Storable(ctx, root)
  {
    CollectNode(ctx, EMPTY_TABLE, root, 0, []).table
  }

  function PlanXattrs(ctx: Context, root: Node): seq<XAttr>
    requires Storable(ctx, root)
  {
    SharedTable(Collect(ctx, root).inodes)
  }

  function PlanInodes(ctx: Context, root: Node): seq<Inode>
    requires Storable(ctx, root)
  {
    SharedInodes(Collect(ctx, root).inodes, PlanXattrs(ctx, root))
  }

  // ---- what the fields can hold ----

  /** Attribute lists fit their fields, and the mode has permission bits only. */
  ghost predicate FitsStat(ctx: Context, stat: Stat, c: Content)
    requires c.LeafContent? && c.content.External? ==> c.content.id != []
  {
    var x := InitialXattrs(ctx.alg, stat, c, ctx.xxh);
    stat.mode < 0x1000 && FitsXattrs(x) && |x.local| < 256
  }

  ghost predicate FitsContent(c: Tree.LeafContent) {
    match c
    case Inline(data) => |data| < 4096
    case Symlink(target) => |target| < 4096
    case _ => true
  }

  ghost predicate FitsLeaves(ctx: Context)
    requires GoodContext(ctx)
  {
    forall i :: 0 <= i < |ctx.leaves| ==>
      var leaf := ctx.leaves[i];
      && FitsContent(leaf.content) && leaf.links < 0x1_0000_0000
      && FitsStat(ctx, leaf.stat, LeafContent(leaf.content, leaf.links))
  }

  ghost predicate FitsNode(ctx: Context, node: Node) {
    node.Dir? ==> FitsStat(ctx, node.stat, DirContent(EMPTY_DIR)) && FitsEntries(ctx, node.entries)
  }

  ghost predicate FitsEntries(ctx: Context, es: Entries) {
    match es
    case Empty => true
    case More(_, node, rest) => FitsNode(ctx, node) && FitsEntries(ctx, rest)
  }

  // ---- every inode of the table is good ----

  lemma {:induction false} AddedAllShape(x: InodeXAttrs, pairs: seq<XattrPair>, xxh: Hash32)
    requires x.filter == 0 <==> x.local == []
    ensures
      var r := AddedAll(x, pairs, xxh);
      r.shared == x.shared && (r.filter == 0 <==> r.local == [])
    decreases |pairs|
  {
    if pairs != [] {
      var n := |pairs| - 1;
      AddedAllShape(x, pairs[..n], xxh);
      AddedShape(AddedAll(x, pairs[..n], xxh), Escape(pairs[n].name), pairs[n].value, xxh);
    }
  }

  lemma AddedShape(x: InodeXAttrs, name: bytes, value: bytes, xxh: Hash32)
    ensures var r := Added(x, name, value, xxh); r.shared == x.shared && r.filter > 0 && r.local != []
  {
    OrKeepsNonZero(x.filter, Pow2(FilterBit(ErofsCollect.Entry(name, value), xxh)));
  }

  lemma InitialShape(alg: Algorithm, stat: Stat, c: Content, xxh: Hash32)
    requires c.LeafContent? && c.content.External? ==> c.content.id != []
    ensures
      var r := InitialXattrs(alg, stat, c, xxh);
      r.shared == [] && (r.filter == 0 <==> r.local == [])
  {
    if c.LeafContent? && c.content.External? {
      var one := Added(NO_XATTRS, METACOPY, Metacopy(alg, c.content.id), xxh);
      AddedShape(NO_XATTRS, METACOPY, Metacopy(alg, c.content.id), xxh);
      AddedShape(one, REDIRECT, [47] + ObjectPathname(c.content.id), xxh);
      AddedAllShape(OverlayXattrs(alg, c.content.id, xxh), stat.xattrs, xxh);
    } else {
      AddedAllShape(NO_XATTRS, stat.xattrs, xxh);
    }
  }

  ghost predicate GoodInode(inode: Inode, n: nat) {
    && inode.stat.mode < 0x1000
    && inode.xattrs.shared == [] && FitsXattrs(inode.xattrs) && |inode.xattrs.local| < 256
    && (inode.xattrs.filter == 0 ==> inode.xattrs.local == [])
    && match inode.content
       case DirContent(dir) => GoodDir(dir, n)
       case LeafContent(c, links) => FitsContent(c) && links < 0x1_0000_0000
  }

  ghost predicate GoodDir(dir: ErofsImage.Directory, n: nat) {
    var entries := AllEntries(dir);
    && Packable(entries) && dir == Packed(entries)
    && WritableBlock(entries, n)
    && forall i :: 0 <= i < |entries| ==> NulFree(entries[i].name)
  }

  ghost predicate GoodTable(t: Table) {
    forall k :: 0 <= k < |t.inodes| ==> GoodInode(t.inodes[k], |t.inodes|)
  }

  lemma GoodInodeMonotone(inode: Inode, m: nat, n: nat)
    requires GoodInode(inode, m) && m <= n
    ensures GoodInode(inode, n)
  {
    hide FitsXattrs, Packed, AllEntries, Packable, NulFree;
  }

  lemma PushGood(t: Table, inode: Inode, tag: Label)
    requires GoodTable(t) && GoodInode(inode, |t.inodes| + 1)
    ensures GoodTable(Push(t, inode, tag))
  {
    hide GoodInode;
    forall k | 0 <= k < |t.inodes|
      ensures GoodInode(t.inodes[k], |t.inodes| + 1)
    {
      GoodInodeMonotone(t.inodes[k], |t.inodes|, |t.inodes| + 1);
    }
  }

  lemma LeafInodeGood(ctx: Context, id: nat, n: nat)
    requires GoodContext(ctx) && FitsLeaves(ctx) && id < |ctx.leaves|
    ensures GoodInode(LeafInode(ctx, id), n)
  {
    hide FitsXattrs, InitialXattrs;
    var leaf := ctx.leaves[id];
    InitialShape(ctx.alg, leaf.stat, LeafContent(leaf.content, leaf.links), ctx.xxh);
  }

  lemma DirInodeGood(ctx: Context, stat: Stat, entries: seq<DirEnt>, n: nat)
    requires Packable(entries) && WritableBlock(entries, n)
    requires FitsStat(ctx, stat, DirContent(EMPTY_DIR))
    requires forall i :: 0 <= i < |entries| ==> NulFree(entries[i].name)
    ensures GoodInode(DirInode(ctx, stat, Packed(entries)), n)
  {
    hide FitsXattrs, PackBlocks, PackInline, NulFree, Packable, AddedAll;
    PackedFaithful(entries);
    InitialShape(ctx.alg, stat, DirContent(Packed(entries)), ctx.xxh);
  }

  lemma EmptyDirGood(ctx: Context, stat: Stat, n: nat)
    requires FitsStat(ctx, stat, DirContent(EMPTY_DIR))
    ensures GoodInode(DirInode(ctx, stat, EMPTY_DIR), n)
  {
    assert Packed([]) == EMPTY_DIR by {
      assert BlockSize([]) == 0;
    }
    DirInodeGood(ctx, stat, [], n);
  }

  lemma {:induction false} CollectNodeGood(ctx: Context, t: Table, node: Node, parent: nat, path: Path)
    requires Storable(ctx, node) && ValidTable(ctx, t) && Free(t, path)
    requires FitsLeaves(ctx) && FitsNode(ctx, node) && GoodTable(t)
    requires parent < |t.inodes| || (node.Dir? && parent == |t.inodes|)
    ensures GoodTable(CollectNode(ctx, t, node, parent, path).table)
    decreases node
  {
    hide GoodInode, FitsLeaves, FitsStat, LeafInode, NewInode, Packed, Holds;
    match node
    case File(id) =>
      LeafInodeGood(ctx, id, |t.inodes| + 1);
      PushGood(t, LeafInode(ctx, id), LabelOf(ctx, id, path));
    case Dir(stat, es) =>
      var me := |t.inodes|;
      var empty := DirInode(ctx, stat, EMPTY_DIR);
      EmptyDirGood(ctx, stat, me + 1);
      PushGood(t, empty, At(path));
      ReservedValid(ctx, t, empty, path);
      var reserved := Push(t, empty, At(path));
      CollectEntriesGood(ctx, reserved, es, me, path);
      CollectEntriesCorrect(ctx, reserved, es, me, path);
      var c := CollectEntries(ctx, reserved, es, me, path);
      FilledGood(ctx, c.table, stat, es, c.entries, me, parent, path);
  }

  lemma FilledGood(ctx: Context, t: Table, stat: Stat, es: Entries, children: seq<DirEnt>, me: nat,
                   parent: nat, path: Path)
    requires GoodContext(ctx) && GoodTable(t) && Packable(children)
    requires me < |t.inodes| && parent < |t.inodes|
    requires WellFormedEntries(es, |ctx.leaves|) && HoldsChildren(ctx, t, children, es, path, me)
    requires FitsStat(ctx, stat, DirContent(EMPTY_DIR))
    ensures Packable(WithDots(children, me, parent))
    ensures GoodTable(
      t.(inodes := t.inodes[me := DirInode(ctx, stat, Packed(WithDots(children, me, parent)))]))
  {
    hide GoodInode, FitsStat, Packed, DirInode, WithDots, InsertSorted;
    PackableWithDots(children, me, parent);
    NoDotNames(ctx, t, children, es, path, me);
    ChildIndices(ctx, t, children, es, path, me);
    var entries := WithDots(children, me, parent);
    WithDotsMembers(children, me, parent);
    forall i | 0 <= i < |entries|
      ensures entries[i].inode < |t.inodes| && NulFree(entries[i].name)
    {
      assert entries[i] in entries;
    }
    DirInodeGood(ctx, stat, entries, |t.inodes|);
  }

  lemma {:induction false} InsertMembers(entries: seq<DirEnt>, e: DirEnt)
    ensures forall x :: x in InsertSorted(entries, e) <==> x in entries || x == e
  {
    if entries != [] && Less(entries[0].name, e.name) {
      InsertMembers(entries[1..], e);
      assert entries == [entries[0]] + entries[1..];
    }
  }

  lemma WithDotsMembers(entries: seq<DirEnt>, me: nat, parent: nat)
    ensures forall x :: x in WithDots(entries, me, parent) <==>
      x in entries || x == DirEnt(DOT, me, ErofsFormat.Directory)
      || x == DirEnt(DOTDOT, parent, ErofsFormat.Directory)
  {
    var dot := DirEnt(DOT, me, ErofsFormat.Directory);
    InsertMembers(entries, dot);
    InsertMembers(InsertSorted(entries, dot), DirEnt(DOTDOT, parent, ErofsFormat.Directory));
  }

  lemma {:induction false} ChildIndices(ctx: Context, t: Table, children: seq<DirEnt>, es: Entries,
                                        path: Path, me: nat)
    requires GoodContext(ctx) && HoldsChildren(ctx, t, children, es, path, me)
    ensures forall i :: 0 <= i < |children| ==> children[i].inode < |t.inodes|
  {
    if es.More? {
      ChildIndices(ctx, t, children[1..], es.rest, path, me);
      assert children == [children[0]] + children[1..];
    }
  }

  lemma {:induction false} CollectEntriesGood(ctx: Context, t: Table, es: Entries, me: nat, path: Path)
    requires StorableEntries(ctx, es) && SortedEntries(es) && ValidTable(ctx, t)
    requires forall n :: Find(es, n).Some? ==> Free(t, path + [n])
    requires FitsLeaves(ctx) && FitsEntries(ctx, es) && GoodTable(t) && me < |t.inodes|
    ensures GoodTable(CollectEntries(ctx, t, es, me, path).table)
    decreases es
  {
    hide GoodInode, FitsLeaves, FitsStat, LeafInode, NewInode, Packed, Holds;
    if es.More? {
      var n := es.name;
      assert Find(es, n).Some?;
      CollectNodeGood(ctx, t, es.node, me, path + [n]);
      CollectNodeCorrect(ctx, t, es.node, me, path + [n]);
      var child := CollectNode(ctx, t, es.node, me, path + [n]);
      forall m | Find(es.rest, m).Some?
        ensures Free(child.table, path + [m])
      {
        StillFree(t, child.table, path, n, m);
      }
      CollectEntriesGood(ctx, child.table, es.rest, me, path);
    }
  }

  // ---- the plan can be written and decoded ----

  ghost predicate FitsFs(ctx: Context, root: Node) {
    && Storable(ctx, root) && root.Dir? && FitsLeaves(ctx) && FitsNode(ctx, root)
  }

  lemma PlanTableGood(ctx: Context, root: Node)
    requires FitsFs(ctx, root)
    ensures var t := Collect(ctx, root);
      && ValidTable(ctx, t) && GoodTable(t) && t.inodes != []
      && Holds(ctx, t, 0, root, [], 0)
  {
    CollectNodeCorrect(ctx, EMPTY_TABLE, root, 0, []);
    CollectNodeGood(ctx, EMPTY_TABLE, root, 0, []);
  }

  lemma {:induction false} ConcatMembers(blocks: seq<seq<DirEnt>>, b: nat, i: nat)
    requires b < |blocks| && i < |blocks[b]|
    ensures blocks[b][i] in Concat(blocks)
  {
    if b > 0 {
      ConcatMembers(blocks[1..], b - 1, i);
    }
  }

  lemma DirMembers(dir: ErofsImage.Directory)
    ensures forall b, i :: 0 <= b < |dir.blocks| && 0 <= i < |dir.blocks[b]| ==>
      dir.blocks[b][i] in AllEntries(dir)
    ensures forall i :: 0 <= i < |dir.inline| ==> dir.inline[i] in AllEntries(dir)
  {
    forall b, i | 0 <= b < |dir.blocks| && 0 <= i < |dir.blocks[b]|
      ensures dir.blocks[b][i] in AllEntries(dir)
    {
      ConcatMembers(dir.blocks, b, i);
    }
  }

  lemma GoodDirWritable(dir: ErofsImage.Directory, n: nat)
    requires GoodDir(dir, n)
    ensures WritableBlock(dir.inline, n) && DecodableDir(dir)
    ensures forall b :: 0 <= b < |dir.blocks| ==> WritableBlock(dir.blocks[b], n)
  {
    hide BlockSize, PackBlocks, PackInline, NulFree, Subdirs;
    PackedFaithful(AllEntries(dir));
    DirMembers(dir);
    assert forall e :: e in AllEntries(dir) ==> e.inode < n && NulFree(e.name);
  }

  lemma SharedWritable(inode: Inode, n: nat, t: seq<XAttr>)
    requires GoodInode(inode, n)
    ensures WritableInode(SharedInode(inode, t), n, |t|)
  {
    hide DecodableDir, FitsXattrs, GoodDir, SharedPart, LocalPart;
    if inode.content.DirContent? {
      GoodDirWritable(inode.content.dir, n);
    }
    assert inode.xattrs.shared + SharedPart(inode.xattrs.local, t)
        == SharedPart(inode.xattrs.local, t);
  }

  lemma PlanWritable(ctx: Context, root: Node)
    requires FitsFs(ctx, root)
    ensures Writable(PlanInodes(ctx, root), PlanXattrs(ctx, root))
  {
    hide GoodInode, Collect, SharedInode, WritableInode, Holds, FitsLeaves, FitsNode, SharedTable;
    PlanTableGood(ctx, root);
    var inodes, t := Collect(ctx, root).inodes, PlanXattrs(ctx, root);
    forall k | 0 <= k < |inodes|
      ensures WritableInode(SharedInode(inodes[k], t), |inodes|, |t|)
    {
      SharedWritable(inodes[k], |inodes|, t);
    }
  }

  lemma SharedFitsXattrs(x: InodeXAttrs, inode: Inode, t: seq<XAttr>)
    requires x == SharedInode(inode, t).xattrs
    requires inode.xattrs.shared == [] && FitsXattrs(inode.xattrs) && |inode.xattrs.local| < 256
    ensures FitsXattrs(x)
  {
    hide FitsXattr, SharedPart, LocalPart, LocalsSize;
    var xs := inode.xattrs.local;
    assert x.shared == SharedPart(xs, t);
    SharingShrinks(xs, t);
    assert XattrsSize(x) <= XattrsSize(inode.xattrs);
  }

  /** A directory's size and link count fit their fields in an image below 4 GiB. */
  lemma DirFieldsFit(inodes: seq<Inode>, xattrs: seq<XAttr>, k: nat, dir: ErofsImage.Directory, n: nat)
    requires Writable(inodes, xattrs) && |FinalImage(inodes, xattrs)| < 0x1_0000_0000
    requires k < |inodes| && inodes[k].content == DirContent(dir) && GoodDir(dir, n)
    ensures dir.size < 0x1_0000_0000_0000_0000 && dir.nlink < 0x1_0000_0000
  {
    hide Packed, BlockSize, GoodDir, FinalImage, StoredSize, BlocksEnd, Writable;
    GoodDirWritable(dir, n);
    GoodDirParts(dir, n);
    StoredSizeOf(dir.blocks);
    StoredInImage(inodes, xattrs, k);
    SubdirsAtMost(AllEntries(dir));
    EntriesTakeRoom(dir.blocks);
    InlineTakesRoom(dir.inline);
  }

  lemma GoodDirParts(dir: ErofsImage.Directory, n: nat)
    requires GoodDir(dir, n)
    ensures dir.nlink == Subdirs(AllEntries(dir))
  {
    hide PackBlocks, PackInline, BlockSize;
  }

  lemma StoredInImage(inodes: seq<Inode>, xattrs: seq<XAttr>, k: nat)
    requires Writable(inodes, xattrs) && k < |inodes| && inodes[k].content.DirContent?
    ensures StoredSize(inodes[k].content.dir.blocks) <= |FinalImage(inodes, xattrs)|
  {
    hide Writable, XattrsEnd, AfterBlocks, StoredSize;
    BlocksEndGrows(inodes, xattrs, k + 1, |inodes|);
  }

  lemma {:induction false} SubdirsAtMost(entries: seq<DirEnt>)
    ensures Subdirs(entries) <= |entries|
  {
    if entries != [] {
      SubdirsAtMost(entries[..|entries| - 1]);
    }
  }

  lemma InlineTakesRoom(block: seq<DirEnt>)
    ensures 12 * |block| <= BlockSize(block)
  {
  }

  lemma {:induction false} EntriesTakeRoom(blocks: seq<seq<DirEnt>>)
    requires OneBlockEach(blocks)
    ensures 12 * |Concat(blocks)| <= 4096 * |blocks|
  {
    if blocks != [] {
      InlineTakesRoom(blocks[0]);
      EntriesTakeRoom(blocks[1..]);
    }
  }

  lemma SharedDecodable(inodes: seq<Inode>, xattrs: seq<XAttr>, k: nat, inode: Inode)
    requires Writable(inodes, xattrs) && |FinalImage(inodes, xattrs)| < 0x1_0000_0000
    requires k < |inodes| && GoodInode(inode, |inodes|) && inodes[k] == SharedInode(inode, xattrs)
    ensures DecodableInode(inodes[k])
  {
    hide FinalImage, Writable, FitsXattrs, SharedPart, LocalPart, DecodableDir, GoodDir, BlockSize;
    SharedFitsXattrs(inodes[k].xattrs, inode, xattrs);
    NothingShared(inode, xattrs);
    match inode.content
    case DirContent(dir) =>
      GoodDirWritable(dir, |inodes|);
      DirFieldsFit(inodes, xattrs, k, dir, |inodes|);
      DirTail(dir);
    case LeafContent(c, links) =>
      LeafTail(c, links);
  }

  lemma NothingShared(inode: Inode, t: seq<XAttr>)
    requires inode.xattrs.shared == []
    ensures inode.xattrs.local == [] ==>
      SharedInode(inode, t).xattrs.shared == [] && SharedInode(inode, t).xattrs.local == []
  {
  }

  lemma DirTail(dir: ErofsImage.Directory)
    requires DecodableDir(dir)
    ensures TailSize(DirContent(dir)) == SizeOf(DirContent(dir)) % 4096
  {
    hide BlockSize;
    DivUnique(dir.size, 4096, |dir.blocks|, BlockSize(dir.inline));
  }

  lemma LeafTail(c: Tree.LeafContent, links: nat)
    requires FitsContent(c)
    ensures
      var content := LeafContent(c, links);
      && SizeOf(content) < 0x1_0000_0000_0000_0000
      && (LayoutOf(content) == FlatInline ==> TailSize(content) == SizeOf(content) % 4096)
  {
  }

  lemma {:induction false} UsedSomewhere(inodes: seq<Inode>, x: XAttr)
    requires x in Uses(inodes)
    ensures exists k :: 0 <= k < |inodes| && x in inodes[k].xattrs.local
  {
    var n := |inodes| - 1;
    if x in inodes[n].xattrs.local {
    } else {
      assert x in Uses(inodes[..n]);
      UsedSomewhere(inodes[..n], x);
      var k :| 0 <= k < n && x in inodes[..n][k].xattrs.local;
      assert x in inodes[k].xattrs.local;
    }
  }

  lemma TableFits(t: Table)
    requires GoodTable(t)
    ensures forall j :: 0 <= j < |SharedTable(t.inodes)| ==> FitsXattr(SharedTable(t.inodes)[j])
  {
    hide SharedTable, FitsXattr, GoodDir;
    SharedTableExact(t.inodes);
    forall j | 0 <= j < |SharedTable(t.inodes)|
      ensures FitsXattr(SharedTable(t.inodes)[j])
    {
      var x := SharedTable(t.inodes)[j];
      assert x in SharedTable(t.inodes);
      UsedSomewhere(t.inodes, x);
      var k :| 0 <= k < |t.inodes| && x in t.inodes[k].xattrs.local;
      assert FitsXattrs(t.inodes[k].xattrs);
    }
  }

  /** Everything `mkfs_erofs` writes for a tree that fits can be read back. */
  lemma PlanDecodable(ctx: Context, root: Node)
    requires FitsFs(ctx, root)
    requires Writable(PlanInodes(ctx, root), PlanXattrs(ctx, root))
    requires |FinalImage(PlanInodes(ctx, root), PlanXattrs(ctx, root))| < 0x1_0000_0000
    ensures Decodable(PlanInodes(ctx, root), PlanXattrs(ctx, root))
  {
    hide GoodInode, Collect, Holds, FitsLeaves, FitsNode, SharedTable, FinalImage, SharedInode, Writable,
      DecodableInode, FitsXattr;
    PlanTableGood(ctx, root);
    var t := Collect(ctx, root);
    TableFits(t);
    forall k | 0 <= k < |t.inodes|
      ensures DecodableInode(PlanInodes(ctx, root)[k])
    {
      SharedDecodable(PlanInodes(ctx, root), PlanXattrs(ctx, root), k, t.inodes[k]);
    }
  }
}
