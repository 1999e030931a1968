/** The inode table represents the tree: every directory lists exactly its children, every
    leaf keeps its attributes and content, and inode numbers are shared exactly by the
    references to one shared leaf. */
module ErofsTree {
  import opened Bytes
  import opened Tree
  import opened ErofsFormat
  import opened ErofsImage
  import opened ErofsRoundTrip
  import opened ErofsCollect

  // ---- representation ----

  function WithoutDots(entries: seq<DirEnt>): seq<DirEnt> {
    if entries == [] then []
    else if IsDot(entries[0].name) then WithoutDots(entries[1..])
    else [entries[0]] + WithoutDots(entries[1..])
  }

  function TypeOfNode(ctx: Context, node: Node): FileType
    requires node.File? ==> node.id < |ctx.leaves|
  {
    if node.Dir? then ErofsFormat.Directory else FileTypeOfContent(ctx.leaves[node.id].content)
  }

  /** Inode `idx` of the table is the node at `path`, with parent directory `parent`. */
  ghost predicate Holds(ctx: Context, t: Table, idx: nat, node: Node, path: Path, parent: nat)
    requires GoodContext(ctx)
    decreases node
  {
    && idx < |t.inodes| == |t.labels|
    && match node
       case File(id) =>
         && id < |ctx.leaves|
         && t.inodes[idx] == LeafInode(ctx, id) && t.labels[idx] == LabelOf(ctx, id, path)
       case Dir(stat, es) =>
         && t.inodes[idx].content.DirContent? && t.labels[idx] == At(path)
         && var children := WithoutDots(AllEntries(t.inodes[idx].content.dir));
         && Packable(WithDots(children, idx, parent))
         && t.inodes[idx] == DirInode(ctx, stat, Packed(WithDots(children, idx, parent)))
         && HoldsChildren(ctx, t, children, es, path, idx)
  }

  /** Entry by entry, `children` are the entries of the tree's directory. */
  ghost predicate HoldsChildren(ctx: Context, t: Table, children: seq<DirEnt>, es: Entries,
                                path: Path, me: nat)
    requires GoodContext(ctx)
    decreases es
  {
    match es
    case Empty => children == []
    case More(n, node, rest) =>
      && children != [] && children[0].name == n
      && (node.File? ==> node.id < |ctx.leaves|)
      && children[0].fileType == TypeOfNode(ctx, node)
      && Holds(ctx, t, children[0].inode, node, path + [n], me)
      && HoldsChildren(ctx, t, children[1..], rest, path, me)
  }

  // ---- what later steps keep ----

  ghost predicate Extends(t: Table, u: Table) {
    t.inodes <= u.inodes && t.labels <= u.labels
  }

  lemma {:induction false} HoldsExtends(ctx: Context, t: Table, u: Table, idx: nat, node: Node,
                                        path: Path, parent: nat)
    requires GoodContext(ctx) && Holds(ctx, t, idx, node, path, parent)
    requires Extends(t, u) && |u.inodes| == |u.labels|
    ensures Holds(ctx, u, idx, node, path, parent)
    decreases node
  {
    hide LeafInode, DirInode, Packed, AllEntries, WithoutDots, WithDots, Packable;
    if node.Dir? {
      var children := WithoutDots(AllEntries(t.inodes[idx].content.dir));
      ChildrenExtend(ctx, t, u, children, node.entries, path, idx);
    }
  }

  lemma {:induction false} ChildrenExtend(ctx: Context, t: Table, u: Table, children: seq<DirEnt>,
                                          es: Entries, path: Path, me: nat)
    requires GoodContext(ctx) && HoldsChildren(ctx, t, children, es, path, me)
    requires Extends(t, u) && |u.inodes| == |u.labels|
    ensures HoldsChildren(ctx, u, children, es, path, me)
    decreases es
  {
    if es.More? {
      HoldsExtends(ctx, t, u, children[0].inode, es.node, path + [es.name], me);
      ChildrenExtend(ctx, t, u, children[1..], es.rest, path, me);
    }
  }

  /** Filling the slot of a directory leaves everything below it alone. */
  lemma {:induction false} HoldsFilled(ctx: Context, t: Table, slot: nat, inode: Inode, idx: nat,
                                       node: Node, path: Path, parent: nat)
    requires GoodContext(ctx) && Holds(ctx, t, idx, node, path, parent)
    requires slot < |t.inodes| && t.labels[slot].At? && |t.labels[slot].path| < |path|
    ensures Holds(ctx, t.(inodes := t.inodes[slot := inode]), idx, node, path, parent)
    decreases node
  {
    hide LeafInode, DirInode, Packed, AllEntries, WithoutDots, WithDots, Packable;
    if node.Dir? {
      var children := WithoutDots(AllEntries(t.inodes[idx].content.dir));
      ChildrenFilled(ctx, t, slot, inode, children, node.entries, path, idx);
    }
  }

  lemma {:induction false} ChildrenFilled(ctx: Context, t: Table, slot: nat, inode: Inode,
                                          children: seq<DirEnt>, es: Entries, path: Path, me: nat)
    requires GoodContext(ctx) && HoldsChildren(ctx, t, children, es, path, me)
    requires slot < |t.inodes| == |t.labels| && t.labels[slot].At?
    requires |t.labels[slot].path| <= |path|
    ensures HoldsChildren(ctx, t.(inodes := t.inodes[slot := inode]), children, es, path, me)
    decreases es
  {
    if es.More? {
      HoldsFilled(ctx, t, slot, inode, children[0].inode, es.node, path + [es.name], me);
      ChildrenFilled(ctx, t, slot, inode, children[1..], es.rest, path, me);
    }
  }

  // ---- the dot entries ----

  lemma {:induction false} WithoutInserted(entries: seq<DirEnt>, e: DirEnt)
    requires IsDot(e.name)
    ensures WithoutDots(InsertSorted(entries, e)) == WithoutDots(entries)
  {
    if entries == [] || !Less(entries[0].name, e.name) {
      assert ([e] + entries)[1..] == entries;
    } else {
      var r := InsertSorted(entries[1..], e);
      assert ([entries[0]] + r)[1..] == r;
      WithoutInserted(entries[1..], e);
    }
  }

  lemma {:induction false} WithoutNone(entries: seq<DirEnt>)
    requires forall i :: 0 <= i < |entries| ==> !IsDot(entries[i].name)
    ensures WithoutDots(entries) == entries
  {
    if entries != [] {
      WithoutNone(entries[1..]);
    }
  }

  lemma WithoutDotsOfWithDots(entries: seq<DirEnt>, me: nat, parent: nat)
    requires forall i :: 0 <= i < |entries| ==> !IsDot(entries[i].name)
    ensures WithoutDots(WithDots(entries, me, parent)) == entries
  {
    var dot := DirEnt(DOT, me, ErofsFormat.Directory);
    WithoutInserted(entries, dot);
    WithoutInserted(InsertSorted(entries, dot), DirEnt(DOTDOT, parent, ErofsFormat.Directory));
    WithoutNone(entries);
  }

  ghost predicate Sorted(entries: seq<DirEnt>) {
    forall i, j :: 0 <= i < j < |entries| ==> Less(entries[i].name, entries[j].name)
  }

  lemma {:induction false} InsertSortedIsSorted(entries: seq<DirEnt>, e: DirEnt)
    requires Sorted(entries)
    requires forall i :: 0 <= i < |entries| ==> entries[i].name != e.name
    ensures Sorted(InsertSorted(entries, e))
    ensures multiset(InsertSorted(entries, e)) == multiset(entries) + multiset{e}
  {
    if entries == [] {
    } else if !Less(entries[0].name, e.name) {
      LessTotal(entries[0].name, e.name);
      forall j | 0 <= j < |entries|
        ensures Less(e.name, entries[j].name)
      {
        if j > 0 {
          LessTransitive(e.name, entries[0].name, entries[j].name);
        }
      }
    } else {
      InsertSortedIsSorted(entries[1..], e);
      var r := InsertSorted(entries[1..], e);
      assert entries == [entries[0]] + entries[1..];
      forall j | 0 <= j < |r|
        ensures Less(entries[0].name, r[j].name)
      {
        assert r[j] in multiset(r);
        assert r[j] in multiset(entries[1..]) + multiset{e};
        if r[j] != e {
          assert r[j] in entries[1..];
        }
      }
    }
  }

  /** Names stay strictly sorted when "." and ".." are added. */
  lemma WithDotsSorted(entries: seq<DirEnt>, me: nat, parent: nat)
    requires Sorted(entries)
    requires forall i :: 0 <= i < |entries| ==> !IsDot(entries[i].name)
    ensures Sorted(WithDots(entries, me, parent))
    ensures multiset(WithDots(entries, me, parent))
         == multiset(entries) + multiset{DirEnt(DOT, me, ErofsFormat.Directory)}
            + multiset{DirEnt(DOTDOT, parent, ErofsFormat.Directory)}
  {
    var dot := DirEnt(DOT, me, ErofsFormat.Directory);
    InsertSortedIsSorted(entries, dot);
    var one := InsertSorted(entries, dot);
    forall i | 0 <= i < |one|
      ensures one[i].name != DOTDOT
    {
      assert one[i] in multiset(one);
      assert one[i] in multiset(entries) + multiset{dot};
      if one[i] != dot {
        assert one[i] in entries;
      }
    }
    InsertSortedIsSorted(one, DirEnt(DOTDOT, parent, ErofsFormat.Directory));
  }

  // ---- collecting ----

  ghost predicate ValidTable(ctx: Context, t: Table)
    requires GoodContext(ctx)
  {
    && |t.inodes| == |t.labels|
    && (forall i, j :: 0 <= i < j < |t.labels| ==> t.labels[i] != t.labels[j])
    && (forall id :: id in t.hardlinks ==>
          && id < |ctx.leaves| && t.hardlinks[id] < |t.inodes|
          && t.labels[t.hardlinks[id]] == Shared(id)
          && t.inodes[t.hardlinks[id]] == LeafInode(ctx, id))
    && (forall i :: 0 <= i < |t.labels| && t.labels[i].Shared? ==> t.labels[i].id in t.hardlinks)
  }

  /** No inode yet for anything at or below `path`. */
  ghost predicate Free(t: Table, path: Path) {
    forall i :: 0 <= i < |t.labels| && t.labels[i].At? ==> !(path <= t.labels[i].path)
  }

  /** `u` adds to `t` inodes for paths at or below `path` only. */
  ghost predicate Grows(t: Table, u: Table, path: Path) {
    && Extends(t, u)
    && forall i :: |t.labels| <= i < |u.labels| && u.labels[i].At? ==> path <= u.labels[i].path
  }

  lemma CollectLeafCorrect(ctx: Context, t: Table, id: nat, path: Path, parent: nat)
    requires GoodContext(ctx) && id < |ctx.leaves| && ValidTable(ctx, t) && Free(t, path)
    ensures var c := CollectLeaf(ctx, t, id, path);
      && ValidTable(ctx, c.table) && Grows(t, c.table, path)
      && Holds(ctx, c.table, c.index, File(id), path, parent)
  {
    hide LeafInode;
    var c := CollectLeaf(ctx, t, id, path);
    assert path <= path;
  }

  lemma {:induction false} CollectNodeCorrect(ctx: Context, t: Table, node: Node, parent: nat, path: Path)
    requires Storable(ctx, node) && ValidTable(ctx, t) && Free(t, path)
    ensures var c := CollectNode(ctx, t, node, parent, path);
      && ValidTable(ctx, c.table) && Grows(t, c.table, path)
      && Holds(ctx, c.table, c.index, node, path, parent)
    decreases node
  {
    match node
    case File(id) => CollectLeafCorrect(ctx, t, id, path, parent);
    case Dir(stat, es) =>
      var me := |t.inodes|;
      var reserved := Push(t, DirInode(ctx, stat, EMPTY_DIR), At(path));
      ReservedValid(ctx, t, DirInode(ctx, stat, EMPTY_DIR), path);
      CollectEntriesCorrect(ctx, reserved, es, me, path);
      var c := CollectEntries(ctx, reserved, es, me, path);
      FilledDir(ctx, c.table, stat, es, c.entries, me, parent, path);
  }

  lemma ReservedValid(ctx: Context, t: Table, inode: Inode, path: Path)
    requires GoodContext(ctx) && ValidTable(ctx, t) && Free(t, path)
    ensures var r := Push(t, inode, At(path));
      && ValidTable(ctx, r) && Grows(t, r, path)
      && forall n :: Free(r, path + [n])
  {
    hide LeafInode;
    var r := Push(t, inode, At(path));
    forall n
      ensures Free(r, path + [n])
    {
      assert path <= path + [n];
    }
  }

  /** The reserved slot, filled, is the directory. */
  lemma FilledDir(ctx: Context, t: Table, stat: Stat, es: Entries, children: seq<DirEnt>, me: nat,
                  parent: nat, path: Path)
    requires GoodContext(ctx) && ValidTable(ctx, t) && Packable(children)
    requires me < |t.inodes| && t.labels[me] == At(path)
    requires WellFormedEntries(es, |ctx.leaves|) && HoldsChildren(ctx, t, children, es, path, me)
    ensures Packable(WithDots(children, me, parent))
    ensures
      var u := t.(inodes := t.inodes[me := DirInode(ctx, stat, Packed(WithDots(children, me, parent)))]);
      ValidTable(ctx, u) && Holds(ctx, u, me, Dir(stat, es), path, parent)
  {
    hide LeafInode, PackBlocks, PackInline, WithDots, InitialXattrs;
    PackableWithDots(children, me, parent);
    var entries := WithDots(children, me, parent);
    var inode := DirInode(ctx, stat, Packed(entries));
    ChildrenFilled(ctx, t, me, inode, children, es, path, me);
    PackedFaithful(entries);
    NoDotNames(ctx, t, children, es, path, me);
    WithoutDotsOfWithDots(children, me, parent);
  }

  lemma {:induction false} NoDotNames(ctx: Context, t: Table, children: seq<DirEnt>, es: Entries,
                                      path: Path, me: nat)
    requires GoodContext(ctx) && WellFormedEntries(es, |ctx.leaves|)
    requires HoldsChildren(ctx, t, children, es, path, me)
    ensures forall i :: 0 <= i < |children| ==> ValidName(children[i].name)
    ensures forall i :: 0 <= i < |children| ==> Find(es, children[i].name).Some?
  {
    if es.More? {
      NoDotNames(ctx, t, children[1..], es.rest, path, me);
      assert children == [children[0]] + children[1..];
    }
  }

  lemma {:induction false} CollectEntriesCorrect(ctx: Context, t: Table, es: Entries, me: nat, path: Path)
    requires StorableEntries(ctx, es) && SortedEntries(es) && ValidTable(ctx, t)
    requires forall n :: Find(es, n).Some? ==> Free(t, path + [n])
    ensures var c := CollectEntries(ctx, t, es, me, path);
      && ValidTable(ctx, c.table) && Grows(t, c.table, path)
      && HoldsChildren(ctx, c.table, c.entries, es, path, me)
    decreases es
  {
    if es.More? {
      var n := es.name;
      assert Find(es, n).Some?;
      CollectNodeCorrect(ctx, t, es.node, me, path + [n]);
      var child := CollectNode(ctx, t, es.node, me, path + [n]);
      forall m | Find(es.rest, m).Some?
        ensures Free(child.table, path + [m])
      {
        StillFree(t, child.table, path, n, m);
      }
      CollectEntriesCorrect(ctx, child.table, es.rest, me, path);
      var more := CollectEntries(ctx, child.table, es.rest, me, path);
      HoldsExtends(ctx, child.table, more.table, child.index, es.node, path + [n], me);
      GrowsBoth(t, child.table, more.table, path, n);
      var c := CollectEntries(ctx, t, es, me, path);
      assert c.entries[1..] == more.entries;
    }
  }

  lemma StillFree(t: Table, u: Table, path: Path, n: bytes, m: bytes)
    requires Free(t, path + [m]) && Grows(t, u, path + [n]) && Less(n, m)
    ensures Free(u, path + [m])
  {
    LessIrreflexive(n);
    forall i | 0 <= i < |u.labels| && u.labels[i].At?
      ensures !(path + [m] <= u.labels[i].path)
    {
      if i < |t.labels| {
        assert u.labels[i] == t.labels[i];
      } else {
        assert (path + [n])[|path|] == n && (path + [m])[|path|] == m;
      }
    }
  }

  lemma GrowsBoth(t: Table, u: Table, v: Table, path: Path, n: bytes)
    requires Grows(t, u, path + [n]) && Grows(u, v, path)
    ensures Grows(t, v, path)
  {
    assert path <= path + [n];
  }
}
