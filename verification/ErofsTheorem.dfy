/** Writing then reading preserves the tree. */
module ErofsTheorem {
  import opened Bytes
  import opened Tree
  import opened ErofsFormat
  import opened ErofsImage
  import R = ErofsReader
  import opened ErofsDecode
  import opened ErofsWriter
  import opened ErofsRoundTrip
  import opened ErofsCollect
  import opened ErofsTree
  import opened ErofsMkfs

  // ---- following directory entries ----

  /** The inode number listed under a name. */
  function Named(es: seq<R.Entry>, name: bytes): Option<nat> {
    if es == [] then None
    else if es[0].name == name then Some(es[0].nid)
    else Named(es[1..], name)
  }

  /** The entries of directory `nid`; `None` when it is not a directory or cannot be read. */
  function ReadDir(img: R.Img, nid: nat): Option<seq<R.Entry>> {
    match R.ReadInode(img, nid)
    case None => None
    case Some(v) => if IsDir(v.mode) then R.DirEntries(img, v) else None
  }

  function Walk(img: R.Img, nid: nat, path: Path): Option<nat>
    decreases |path|
  {
    if path == [] then Some(nid)
    else
      match ReadDir(img, nid)
      case None => None
      case Some(es) =>
        match Named(es, path[0])
        case None => None
        case Some(child) => Walk(img, child, path[1..])
  }

  /** Paths of names, without "." and "..". */
  ghost predicate Plain(path: Path) {
    forall i :: 0 <= i < |path| ==> !IsDot(path[i])
  }

  // ---- the same on the inode table ----

  function Target(entries: seq<DirEnt>, name: bytes): Option<nat> {
    if entries == [] then None
    else if entries[0].name == name then Some(entries[0].inode)
    else Target(entries[1..], name)
  }

  function WalkTable(inodes: seq<Inode>, idx: nat, path: Path): Option<nat>
    decreases |path|
  {
    if path == [] then Some(idx)
    else if idx >= |inodes| || !inodes[idx].content.DirContent? then None
    else
      match Target(AllEntries(inodes[idx].content.dir), path[0])
      case None => None
      case Some(child) => WalkTable(inodes, child, path[1..])
  }

  lemma {:induction false} TargetInserted(entries: seq<DirEnt>, e: DirEnt, name: bytes)
    requires name != e.name
    ensures Target(InsertSorted(entries, e), name) == Target(entries, name)
  {
    if entries == [] || !Less(entries[0].name, e.name) {
      assert ([e] + entries)[1..] == entries;
    } else {
      TargetInserted(entries[1..], e, name);
      var r := InsertSorted(entries[1..], e);
      assert ([entries[0]] + r)[1..] == r;
    }
  }

  lemma {:induction false} TargetOfInserted(entries: seq<DirEnt>, e: DirEnt)
    requires forall i :: 0 <= i < |entries| ==> entries[i].name != e.name
    ensures Target(InsertSorted(entries, e), e.name) == Some(e.inode)
  {
    if entries != [] && Less(entries[0].name, e.name) {
      TargetOfInserted(entries[1..], e);
      var r := InsertSorted(entries[1..], e);
      assert ([entries[0]] + r)[1..] == r;
    }
  }

  /** Adding "." and ".." hides no other name; they lead to the directory and its parent. */
  lemma TargetWithDots(children: seq<DirEnt>, me: nat, parent: nat, name: bytes)
    requires forall i :: 0 <= i < |children| ==> !IsDot(children[i].name)
    ensures !IsDot(name) ==> Target(WithDots(children, me, parent), name) == Target(children, name)
    ensures Target(WithDots(children, me, parent), DOT) == Some(me)
    ensures Target(WithDots(children, me, parent), DOTDOT) == Some(parent)
  {
    var dot := DirEnt(DOT, me, ErofsFormat.Directory);
    var dotdot := DirEnt(DOTDOT, parent, ErofsFormat.Directory);
    var one := InsertSorted(children, dot);
    if !IsDot(name) {
      TargetInserted(children, dot, name);
      TargetInserted(one, dotdot, name);
    }
    TargetOfInserted(children, dot);
    TargetInserted(one, dotdot, DOT);
    InsertMembers(children, dot);
    assert forall i :: 0 <= i < |one| ==> one[i] in one;
    TargetOfInserted(one, dotdot);
  }

  lemma {:induction false} ChildHolds(ctx: Context, t: Table, children: seq<DirEnt>, es: Entries,
                                      path: Path, me: nat, name: bytes)
    requires GoodContext(ctx) && HoldsChildren(ctx, t, children, es, path, me)
    ensures Target(children, name).Some? <==> Find(es, name).Some?
    ensures Find(es, name).Some? ==>
      Holds(ctx, t, Target(children, name).value, Find(es, name).value, path + [name], me)
  {
    hide Holds;
    if es.More? && es.name != name {
      ChildHolds(ctx, t, children[1..], es.rest, path, me, name);
    }
  }

  lemma DirHolds(ctx: Context, t: Table, idx: nat, node: Node, path: Path, parent: nat, name: bytes)
    requires GoodContext(ctx) && Holds(ctx, t, idx, node, path, parent) && node.Dir?
    requires WellFormed(node, |ctx.leaves|)
    ensures idx < |t.inodes| && t.inodes[idx].content.DirContent?
    ensures
      var entries := AllEntries(t.inodes[idx].content.dir);
      && (!IsDot(name) ==>
            && (Target(entries, name).Some? <==> Find(node.entries, name).Some?)
            && (Find(node.entries, name).Some? ==>
                  Holds(ctx, t, Target(entries, name).value, Find(node.entries, name).value,
                        path + [name], idx)))
      && Target(entries, DOT) == Some(idx) && Target(entries, DOTDOT) == Some(parent)
  {
    hide PackBlocks, PackInline, WithDots, BlockSize, WithoutDots, InitialXattrs;
    var children := WithoutDots(AllEntries(t.inodes[idx].content.dir));
    PackedFaithful(WithDots(children, idx, parent));
    NoDotNames(ctx, t, children, node.entries, path, idx);
    TargetWithDots(children, idx, parent, name);
    ChildHolds(ctx, t, children, node.entries, path, idx, name);
  }

  lemma {:induction false} FindWellFormed(es: Entries, n: nat, name: bytes)
    requires WellFormedEntries(es, n) && Find(es, name).Some?
    ensures WellFormed(Find(es, name).value, n) && ValidName(name)
  {
    if es.More? && es.name != name {
      FindWellFormed(es.rest, n, name);
    }
  }

  lemma FileHolds(ctx: Context, t: Table, idx: nat, node: Node, path: Path, parent: nat)
    requires GoodContext(ctx) && Holds(ctx, t, idx, node, path, parent) && node.File?
    ensures idx < |t.inodes| && !t.inodes[idx].content.DirContent?
  {
  }

  // ---- from the table to the image ----

  lemma {:induction false} NamedEntries(entries: seq<DirEnt>, pos: Pos, name: bytes)
    requires WritableBlock(entries, |pos.inodes|)
    ensures
      var r, w := Named(EntriesOf(entries, pos), name), Target(entries, name);
      && (w.Some? ==> w.value < |pos.inodes| && r == Some(pos.inodes[w.value] / 32))
      && (w.None? ==> r.None?)
  {
    if entries != [] {
      assert EntriesOf(entries, pos)[1..] == EntriesOf(entries[1..], pos);
      NamedEntries(entries[1..], pos, name);
    }
  }

  ghost predicate PermissionsOnly(inodes: seq<Inode>) {
    forall k :: 0 <= k < |inodes| ==> inodes[k].stat.mode < 0x1000
  }

  lemma ReadDirOfTable(inodes: seq<Inode>, xattrs: seq<XAttr>, k: nat)
    requires Decodable(inodes, xattrs) && PermissionsOnly(inodes) && k < |inodes|
    ensures
      var r := ReadDir(OpenedImage(inodes, xattrs), Nid(inodes, k));
      if inodes[k].content.DirContent? then
        && WritableBlock(AllEntries(inodes[k].content.dir), |inodes|)
        && r == Some(EntriesOf(AllEntries(inodes[k].content.dir), TruePos(inodes, xattrs)))
      else r == None
  {
    hide TruePos, FinalImage, OpenedImage, Decodable, Nid, AllEntries, EntriesOf, XattrsBytes,
      TailBytes, ModeOf, BitOr;
    ReadInodeRoundTrip(inodes, xattrs, k);
    WritableHolds(inodes, xattrs, k);
    DirMode(inodes, xattrs, k);
    hide InodeView;
    if inodes[k].content.DirContent? {
      DirRoundTrip(inodes, xattrs, k);
    }
  }

  lemma DirMode(inodes: seq<Inode>, xattrs: seq<XAttr>, k: nat)
    requires Writable(inodes, xattrs) && k < |inodes| && inodes[k].stat.mode < 0x1000
    ensures
      var mode := InodeView(inodes, xattrs, k).mode;
      && mode % 0x1000 == inodes[k].stat.mode
      && IfmtOf(mode) == inodes[k].content.FileType().Ifmt()
      && (IsDir(mode) <==> inodes[k].content.DirContent?)
  {
    hide XattrsBytes, TailBytes, TruePos, BitOr, WritableInode;
    ModeSplits(inodes[k].content.FileType(), inodes[k].stat.mode);
  }

  lemma WritableHolds(inodes: seq<Inode>, xattrs: seq<XAttr>, k: nat)
    requires Decodable(inodes, xattrs) && k < |inodes|
    ensures Writable(inodes, xattrs) && WritableInode(inodes[k], |inodes|, |xattrs|)
  {
  }

  lemma NidOfPos(inodes: seq<Inode>, xattrs: seq<XAttr>)
    ensures forall i :: 0 <= i < |inodes| ==> TruePos(inodes, xattrs).inodes[i] / 32 == Nid(inodes, i)
  {
    hide StartOf, InodesEnd;
  }

  /** Walking the image follows the table. */
  lemma {:induction false} WalkImage(inodes: seq<Inode>, xattrs: seq<XAttr>, k: nat, path: Path)
    requires Decodable(inodes, xattrs) && PermissionsOnly(inodes) && k < |inodes|
    ensures
      var w := WalkTable(inodes, k, path);
      && (w.Some? ==> w.value < |inodes|)
      && Walk(OpenedImage(inodes, xattrs), Nid(inodes, k), path)
         == (if w.None? then None else Some(Nid(inodes, w.value)))
    decreases |path|
  {
    hide TruePos, FinalImage, OpenedImage, Decodable, Nid, AllEntries, EntriesOf, ReadDir,
      PermissionsOnly;
    if path != [] {
      ReadDirOfTable(inodes, xattrs, k);
      if inodes[k].content.DirContent? {
        var entries := AllEntries(inodes[k].content.dir);
        NamedEntries(entries, TruePos(inodes, xattrs), path[0]);
        NidOfPos(inodes, xattrs);
        var child := Target(entries, path[0]);
        if child.Some? {
          WalkImage(inodes, xattrs, child.value, path[1..]);
        }
      }
    }
  }

  lemma {:induction false} InodesApart(inodes: seq<Inode>, i: nat, j: nat)
    requires i < j < |inodes|
    ensures TruePos(inodes, []).inodes[i] + 64 <= TruePos(inodes, []).inodes[j]
  {
    hide StartOf, EndAfter, InodeSize;
    InodesEndGrows(inodes, i + 1, j);
    RoomFor(InodesEnd(inodes, i), inodes[i]);
  }

  lemma RoomFor(len: nat, inode: Inode)
    ensures EndAfter(len, inode) >= StartOf(len, inode) + 64
  {
    hide StartOf, XattrsSize, TailSize;
  }

  lemma {:induction false} InodesEndGrows(inodes: seq<Inode>, i: nat, j: nat)
    requires i <= j <= |inodes|
    ensures InodesEnd(inodes, i) <= InodesEnd(inodes, j)
  {
    hide EndAfter;
    if i < j {
      InodesEndGrows(inodes, i, j - 1);
    }
  }

  lemma NidsDiffer(inodes: seq<Inode>, i: nat, j: nat)
    requires i < |inodes| && j < |inodes|
    ensures Nid(inodes, i) == Nid(inodes, j) <==> i == j
  {
    hide StartOf, InodesEnd;
    if i < j {
      InodesApart(inodes, i, j);
    } else if j < i {
      InodesApart(inodes, j, i);
    }
  }
}
