/** `InodeCollector` as it runs: inodes are pushed one by one, a directory reserves its slot
    before its children, and shared leaves are looked up in a map. */
module ErofsCollector {
  import opened Bytes
  import opened Tree
  import opened ErofsFormat
  import opened ErofsImage
  import opened ErofsWriter
  import opened ErofsCollect
  import opened ErofsTree
  import opened ErofsShare
  import opened ErofsMkfs
  import opened ErofsFaithful

  /** `InodeXAttrs::add`: the prefixes are tried from the last to the first. */
  method AddXattr(x: InodeXAttrs, name: bytes, value: bytes, xxh: Hash32) returns (r: InodeXAttrs)
    ensures r == Added(x, name, value, xxh)
  {
    hide FilterBit, BitOr, FullName;
    var idx := |XATTR_PREFIXES| - 1;
    while !(XATTR_PREFIXES[idx] <= name)
      invariant 0 <= idx < |XATTR_PREFIXES|
      invariant Split(name, value, idx) == ErofsCollect.Entry(name, value)
      decreases idx
    {
      assert idx > 0;
      idx := idx - 1;
    }
    var entry := XAttr(idx, name[|XATTR_PREFIXES[idx]|..], value);
    r := InodeXAttrs(x.shared, x.local + [entry], BitOr(x.filter, Pow2(FilterBit(entry, xxh))));
  }

  class InodeCollector {
    const ctx: Context
    var inodes: seq<Inode>
    var hardlinks: map<nat, nat>
    ghost var labels: seq<Label>

    ghost function Contents(): Table
      reads this
    {
      Table(inodes, labels, hardlinks)
    }

    constructor (ctx: Context)
      ensures this.ctx == ctx && Contents() == EMPTY_TABLE
    {
      this.ctx := ctx;
      inodes, hardlinks, labels := [], map[], [];
    }

    /** The generated attributes come first, then those of the tree, escaped. */
    method XattrsFor(stat: Stat, content: Content) returns (x: InodeXAttrs)
      requires content.LeafContent? && content.content.External? ==> content.content.id != []
      ensures x == InitialXattrs(ctx.alg, stat, content, ctx.xxh)
    {
      hide *;
      InitialIs(ctx.alg, stat, content, ctx.xxh);
      x := NO_XATTRS;
      if content.LeafContent? && content.content.External? {
        x := AddXattr(x, METACOPY, Metacopy(ctx.alg, content.content.id), ctx.xxh);
        x := AddXattr(x, REDIRECT, [47] + ObjectPathname(content.content.id), ctx.xxh);
      }
      ghost var start := x;
      AddedEnds(start, stat.xattrs, ctx.xxh);
      var i := 0;
      while i < |stat.xattrs|
        invariant 0 <= i <= |stat.xattrs| && x == AddedAll(start, stat.xattrs[..i], ctx.xxh)
      {
        var pair := stat.xattrs[i];
        AddedSnoc(start, stat.xattrs, i, ctx.xxh);
        EscapeIs(pair.name);
        if OVERLAY <= pair.name {
          x := AddXattr(x, ESCAPED_OVERLAY + pair.name[|OVERLAY|..], pair.value, ctx.xxh);
        } else {
          x := AddXattr(x, pair.name, pair.value, ctx.xxh);
        }
        i := i + 1;
      }
    }

    method PushInode(stat: Stat, content: Content, ghost tag: Label) returns (index: nat)
      requires content.LeafContent? && content.content.External? ==> content.content.id != []
      modifies this
      ensures Contents() == Push(old(Contents()), NewInode(ctx, stat, content), tag)
      ensures index == |old(inodes)|
    {
      hide InitialXattrs;
      var x := XattrsFor(stat, content);
      index := |inodes|;
      inodes := inodes + [Inode(stat, x, content)];
      labels := labels + [tag];
    }

    method CollectLeaf(id: nat, ghost path: Path) returns (index: nat)
      requires GoodContext(ctx) && id < |ctx.leaves|
      modifies this
      ensures Collected(Contents(), index) == ErofsCollect.CollectLeaf(ctx, old(Contents()), id, path)
    {
      hide InitialXattrs;
      var leaf := ctx.leaves[id];
      var nlink := leaf.links;
      if nlink > 1 && id in hardlinks {
        return hardlinks[id];
      }
      index := PushInode(leaf.stat, LeafContent(leaf.content, nlink), LabelOf(ctx, id, path));
      if nlink > 1 {
        hardlinks := hardlinks[id := index];
      }
    }

    method CollectChild(node: Node, parent: nat, ghost path: Path) returns (index: nat)
      requires Storable(ctx, node) && ValidTable(ctx, Contents()) && Free(Contents(), path)
      modifies this
      ensures Collected(Contents(), index) == CollectNode(ctx, old(Contents()), node, parent, path)
      decreases node, 1
    {
      match node
      case File(id) => index := CollectLeaf(id, path);
      case Dir(stat, entries) => index := CollectDir(node, parent, path);
    }

    /** The directory inode goes before those of its children, in a reserved slot. */
    method CollectDir(dir: Node, parent: nat, ghost path: Path) returns (me: nat)
      requires dir.Dir? && Storable(ctx, dir) && ValidTable(ctx, Contents()) && Free(Contents(), path)
      modifies this
      ensures Collected(Contents(), me) == CollectNode(ctx, old(Contents()), dir, parent, path)
      decreases dir, 0
    {
      hide NewInode, Packed, WithDots, Holds, HoldsChildren, InsertSorted, ShortEntryNames,
        ValidTable, Free, GoodContext, ErofsCollect.CollectLeaf;
      ghost var before := Contents();
      me := PushInode(dir.stat, DirContent(EMPTY_DIR), At(path));
      ghost var reserved := Contents();
      ReservedValid(ctx, before, DirInode(ctx, dir.stat, EMPTY_DIR), path);
      var entries: seq<DirEnt> := [];
      var rest := dir.entries;
      ghost var all := CollectEntries(ctx, reserved, dir.entries, me, path);
      assert [] + all.entries == all.entries;
      while rest.More?
        invariant StorableEntries(ctx, rest) && SortedEntries(rest) && rest < dir
        invariant ValidTable(ctx, Contents())
        invariant forall n :: Find(rest, n).Some? ==> Free(Contents(), path + [n])
        invariant Extends(reserved, Contents())
        invariant
          var c := CollectEntries(ctx, Contents(), rest, me, path);
          all == CollectedEntries(c.table, entries + c.entries)
        decreases rest
      {
        ghost var t := Contents();
        ghost var c := CollectEntries(ctx, t, rest, me, path);
        StorableHead(ctx, rest);
        CollectNodeCorrect(ctx, t, rest.node, me, path + [rest.name]);
        var child := CollectChild(rest.node, me, path + [rest.name]);
        HoldsInode(ctx, Contents(), child, rest.node, path + [rest.name], me);
        entries := entries + [DirEnt(rest.name, child, inodes[child].content.FileType())];
        NextFree(t, Contents(), path, rest);
        ghost var more := CollectEntries(ctx, Contents(), rest.rest, me, path);
        FirstKept(entries, c.entries, more.entries);
        rest := rest.rest;
      }
      assert entries + [] == entries;
      entries := InsertSorted(entries, DirEnt(DOT, me, ErofsFormat.Directory));
      entries := InsertSorted(entries, DirEnt(DOTDOT, parent, ErofsFormat.Directory));
      SameWithDots(all.entries, me, parent, entries);
      var packed := FromEntries(entries);
      SameXattrs(ctx, dir.stat, packed);
      inodes := inodes[me := inodes[me].(content := DirContent(packed))];
    }
  }

  lemma StorableHead(ctx: Context, es: Entries)
    requires StorableEntries(ctx, es) && SortedEntries(es) && es.More?
    ensures Storable(ctx, es.node) && StorableEntries(ctx, es.rest) && SortedEntries(es.rest)
    ensures Find(es, es.name).Some?
  {
  }

  lemma AddedSnoc(x: InodeXAttrs, pairs: seq<XattrPair>, i: nat, xxh: Hash32)
    requires i < |pairs|
    ensures AddedAll(x, pairs[..i + 1], xxh)
         == Added(AddedAll(x, pairs[..i], xxh), Escape(pairs[i].name), pairs[i].value, xxh)
  {
    hide Added, Escape;
    assert pairs[..i + 1][..i] == pairs[..i];
  }

  lemma EscapeIs(name: bytes)
    ensures OVERLAY <= name ==> Escape(name) == ESCAPED_OVERLAY + name[|OVERLAY|..]
    ensures !(OVERLAY <= name) ==> Escape(name) == name
  {
  }

  lemma AddedEnds(x: InodeXAttrs, pairs: seq<XattrPair>, xxh: Hash32)
    ensures AddedAll(x, pairs[..0], xxh) == x && pairs[..|pairs|] == pairs
  {
  }

  lemma InitialIs(alg: Algorithm, stat: Stat, c: Content, xxh: Hash32)
    requires c.LeafContent? && c.content.External? ==> c.content.id != []
    ensures InitialXattrs(alg, stat, c, xxh)
         == AddedAll(if c.LeafContent? && c.content.External?
                     then Added(Added(NO_XATTRS, METACOPY, Metacopy(alg, c.content.id), xxh),
                                REDIRECT, [47] + ObjectPathname(c.content.id), xxh)
                     else NO_XATTRS, stat.xattrs, xxh)
  {
    hide Added, Metacopy, ObjectPathname, AddedAll;
  }

  lemma FirstKept(entries: seq<DirEnt>, before: seq<DirEnt>, more: seq<DirEnt>)
    requires entries != [] && before == [entries[|entries| - 1]] + more
    ensures entries[..|entries| - 1] + before == entries + more
  {
  }

  lemma NextFree(t: Table, u: Table, path: Path, es: Entries)
    requires es.More? && SortedEntries(es) && Grows(t, u, path + [es.name])
    requires forall n :: Find(es, n).Some? ==> Free(t, path + [n])
    ensures forall n :: Find(es.rest, n).Some? ==> Free(u, path + [n])
  {
    forall m | Find(es.rest, m).Some?
      ensures Free(u, path + [m])
    {
      LessIrreflexive(es.name);
      StillFree(t, u, path, es.name, m);
    }
  }

  lemma SameWithDots(children: seq<DirEnt>, me: nat, parent: nat, entries: seq<DirEnt>)
    requires Packable(children)
    requires entries == InsertSorted(InsertSorted(children, DirEnt(DOT, me, ErofsFormat.Directory)),
                                     DirEnt(DOTDOT, parent, ErofsFormat.Directory))
    ensures entries == WithDots(children, me, parent) && Packable(entries)
  {
    PackableWithDots(children, me, parent);
  }

  /** The attributes of a directory do not depend on what it lists. */
  lemma SameXattrs(ctx: Context, stat: Stat, dir: ErofsImage.Directory)
    ensures DirInode(ctx, stat, EMPTY_DIR).(content := DirContent(dir)) == DirInode(ctx, stat, dir)
  {
  }

  /** `mkfs_erofs`: collect, share, lay out, emit. */
  method MkfsErofs(ctx: Context, root: Node) returns (image: bytes)
    requires FitsFs(ctx, root) && |MkfsImage(ctx, root)| < 0x1_0000_0000
    ensures image == MkfsImage(ctx, root)
  {
    hide FinalImage, Holds, FitsLeaves, FitsNode, SharedTable, CollectNode;
    PlanWritable(ctx, root);
    var collector := new InodeCollector(ctx);
    var rootInode := collector.CollectDir(root, 0, []);
    var inodes, xattrs := ShareXattrs(collector.inodes);
    image := WriteImage(inodes, xattrs);
  }
}
