/** Whole dumpfiles (dumpfile.rs): a tree is written in preorder and built again entry by
    entry. */
module Dumpfile {
  import opened Bytes
  import opened Numbers
  import opened DumpfileText
  import opened DumpfileEntry
  import F = ErofsFormat
  import T = Tree

  /** What a dumpfile says, as values: who shares a leaf is left aside here. */
  datatype Inode =
    | Dir(stat: T.Stat, children: Children)
    | Leaf(stat: T.Stat, content: T.LeafContent)

  /** The children of a directory, in the order of its `BTreeMap`. */
  datatype Children = Nil | Cons(name: bytes, inode: Inode, rest: Children)

  // ---- writing ----

  function WrittenXattrs(xs: seq<T.XattrPair>): (fs: seq<bytes>)
    ensures |fs| == |xs|
  {
    seq(|xs|, i requires 0 <= i < |xs| => Written(xs[i].name) + [EQUALS] + Written(xs[i].value))
  }

  /** The mtime of `write_entry`: seconds, signed, and no fraction. */
  function MtimeField(mtime: int): bytes {
    (if mtime < 0 then [45] + Decimal(-mtime) else Decimal(mtime)) + [POINT] + Decimal(0)
  }

  /** `write_entry` */
  function WrittenFields(path: T.Path, stat: T.Stat, ifmt: nat, size: nat, nlink: nat, rdev: nat,
                         payload: bytes, content: bytes, digest: Option<bytes>): (fs: seq<bytes>)
    ensures |fs| == 11 + |stat.xattrs|
  {
    [Written(PathBytes(path)), Decimal(size), InRadix(BitOr(stat.mode, ifmt), 8), Decimal(nlink),
     Decimal(stat.uid), Decimal(stat.gid), Decimal(rdev), MtimeField(stat.mtime), Written(payload),
     Written(content), if digest.Some? then digest.value else DASH]
    + WrittenXattrs(stat.xattrs)
  }

  /** `write_directory` */
  function DirFields(path: T.Path, stat: T.Stat, nlink: nat): (fs: seq<bytes>)
    ensures |fs| == 11 + |stat.xattrs|
  {
    WrittenFields(path, stat, S_IFDIR, 0, nlink, 0, [], [], None)
  }

  /** `write_leaf` */
  function LeafFields(path: T.Path, stat: T.Stat, content: T.LeafContent, nlink: nat): (fs: seq<bytes>)
    requires content.External? ==> content.id != []
    ensures |fs| == 11 + |stat.xattrs|
  {
    match content
    case Inline(data) => WrittenFields(path, stat, S_IFREG, |data|, nlink, 0, [], data, None)
    case External(id, size) =>
      WrittenFields(path, stat, S_IFREG, size, nlink, 0, F.ObjectPathname(id), [], Some(F.Hex(id)))
    case BlockDevice(rdev) => WrittenFields(path, stat, S_IFBLK, 0, nlink, rdev, [], [], None)
    case CharacterDevice(rdev) => WrittenFields(path, stat, S_IFCHR, 0, nlink, rdev, [], [], None)
    case Fifo => WrittenFields(path, stat, S_IFIFO, 0, nlink, 0, [], [], None)
    case Socket => WrittenFields(path, stat, 0xC000, 0, nlink, 0, [], [], None)
    case Symlink(target) => WrittenFields(path, stat, S_IFLNK, |target|, nlink, 0, target, [], None)
  }

  /** `write_hardlink` */
  function HardlinkFields(path: T.Path, target: bytes): (fs: seq<bytes>)
    ensures |fs| == 11
  {
    [Written(PathBytes(path)), [48], [64, 49, 50, 48, 48, 48, 48], DASH, DASH, DASH, DASH, [48, 46, 48],
     Written(target), DASH, DASH]
  }

  /** Ids of external files are not empty. */
  predicate HasIds(leaves: seq<T.Leaf>) {
    forall i :: 0 <= i < |leaves| && leaves[i].content.External? ==> leaves[i].content.id != []
  }

  /** References lead to leaves. */
  predicate InRange(node: T.Node, n: nat) {
    match node
    case Dir(_, es) => EntriesInRange(es, n)
    case File(id) => id < n
  }

  predicate EntriesInRange(es: T.Entries, n: nat) {
    match es
    case Empty => true
    case More(_, node, rest) => InRange(node, n) && EntriesInRange(rest, n)
  }

  /** The lines of a part of the tree, and for each leaf with several references its first path
      so far. */
  datatype Wrote = Wrote(lines: seq<bytes>, seen: map<nat, T.Path>)

  /** `DumpfileWriter::write_leaf` */
  function FileFields(leaves: seq<T.Leaf>, path: T.Path, id: nat, seen: map<nat, T.Path>): (fs: seq<bytes>)
    requires HasIds(leaves) && id < |leaves|
    ensures fs != []
  {
    var leaf := leaves[id];
    if leaf.links > 1 && id in seen then HardlinkFields(path, PathBytes(seen[id]))
    else LeafFields(path, leaf.stat, leaf.content, leaf.links)
  }

  function SeenAfter(leaves: seq<T.Leaf>, path: T.Path, id: nat, seen: map<nat, T.Path>): map<nat, T.Path>
    requires id < |leaves|
  {
    if leaves[id].links > 1 && id !in seen then seen[id := path] else seen
  }

  /** The lines of a tree below a path: the directory first, then its children in order. */
  function NodeLines(leaves: seq<T.Leaf>, path: T.Path, node: T.Node, seen: map<nat, T.Path>): Wrote
    requires HasIds(leaves) && InRange(node, |leaves|)
    decreases node
  {
    match node
    case File(id) =>
      Wrote([Fields(FileFields(leaves, path, id, seen), SPACE)], SeenAfter(leaves, path, id, seen))
    case Dir(stat, es) =>
      var w := EntryLines(leaves, path, es, seen);
      w.(lines := [Fields(DirFields(path, stat, 2 + T.Subdirectories(es)), SPACE)] + w.lines)
  }

  function EntryLines(leaves: seq<T.Leaf>, path: T.Path, es: T.Entries, seen: map<nat, T.Path>): Wrote
    requires HasIds(leaves) && EntriesInRange(es, |leaves|)
    decreases es
  {
    match es
    case Empty => Wrote([], seen)
    case More(name, node, rest) =>
      var first := NodeLines(leaves, path + [name], node, seen);
      var others := EntryLines(leaves, path, rest, first.seen);
      Wrote(first.lines + others.lines, others.seen)
  }

  lemma {:induction false} TextAppend(a: seq<bytes>, b: seq<bytes>)
    ensures Text(a + b) == Text(a) + Text(b)
  {
    if a == [] {
      assert a + b == b;
    } else {
      assert (a + b)[1..] == a[1..] + b;
      TextAppend(a[1..], b);
      assert a[0] + [NEWLINE] + (Text(a[1..]) + Text(b)) == a[0] + [NEWLINE] + Text(a[1..]) + Text(b);
    }
  }

  /** `DumpfileWriter`, with the path that it pushes to and pops from. */
  class DumpfileWriter {
    const leaves: seq<T.Leaf>
    var output: bytes
    var path: T.Path
    var hardlinks: map<nat, T.Path>

    constructor (leaves: seq<T.Leaf>)
      ensures this.leaves == leaves && output == [] && path == [] && hardlinks == map[]
    {
      this.leaves := leaves;
      output, path, hardlinks := [], [], map[];
    }

    method WriteLine(fields: seq<bytes>)
      requires fields != []
      modifies `output
      ensures output == old(output) + Text([Fields(fields, SPACE)])
    {
      hide Fields;
      var line := Fields(fields, SPACE);
      assert Text([line]) == line + [NEWLINE] by {
        assert Text([line][1..]) == [];
      }
      output := output + line + [NEWLINE];
    }

    /** The first of several references is remembered, the others are hardlink lines. */
    method WriteLeaf(id: nat)
      requires HasIds(leaves) && id < |leaves|
      modifies `output, `hardlinks
      ensures
        var w := NodeLines(leaves, path, T.File(id), old(hardlinks));
        output == old(output) + Text(w.lines) && hardlinks == w.seen
    {
      hide Fields, LeafFields, HardlinkFields, Text;
      var leaf := leaves[id];
      if leaf.links > 1 {
        if id in hardlinks {
          WriteLine(HardlinkFields(path, PathBytes(hardlinks[id])));
          return;
        }
        hardlinks := hardlinks[id := path];
      }
      WriteLine(LeafFields(path, leaf.stat, leaf.content, leaf.links));
    }

    method WriteDir(dir: T.Node)
      requires dir.Dir? && HasIds(leaves) && InRange(dir, |leaves|)
      modifies this
      ensures path == old(path)
      ensures
        var w := NodeLines(leaves, path, dir, old(hardlinks));
        output == old(output) + Text(w.lines) && hardlinks == w.seen
      decreases dir
    {
      hide Text, Fields, DirFields, FileFields;
      var nlink := 2;
      var es := dir.entries;
      while es.More?
        invariant nlink + T.Subdirectories(es) == 2 + T.Subdirectories(dir.entries)
        decreases es
      {
        if es.node.Dir? {
          nlink := nlink + 1;
        }
        es := es.rest;
      }
      ghost var here, start, seen := path, output, hardlinks;
      ghost var all := NodeLines(leaves, here, dir, seen);
      var first := DirFields(path, dir.stat, nlink);
      WriteLine(first);
      es := dir.entries;
      ghost var line := [Fields(first, SPACE)];
      TextAppend(line, EntryLines(leaves, here, es, seen).lines);
      Regroup(start, Text(line), Text(EntryLines(leaves, here, es, seen).lines));
      while es.More?
        invariant path == here && EntriesInRange(es, |leaves|) && es < dir
        invariant
          var w := EntryLines(leaves, here, es, hardlinks);
          output + Text(w.lines) == start + Text(all.lines) && w.seen == all.seen
        decreases es
      {
        ghost var before, one := output, NodeLines(leaves, here + [es.name], es.node, hardlinks);
        ghost var rest := EntryLines(leaves, here, es.rest, one.seen);
        TextAppend(one.lines, rest.lines);
        path := path + [es.name];
        match es.node {
          case Dir(_, _) => WriteDir(es.node);
          case File(id) => WriteLeaf(id);
        }
        path := path[..|path| - 1];
        Regroup(before, Text(one.lines), Text(rest.lines));
        es := es.rest;
      }
      assert Text([]) == [] by {
        NoText();
      }
      assert output + [] == output;
    }
  }

  lemma Regroup(a: bytes, b: bytes, c: bytes)
    ensures a + (b + c) == a + b + c
  {
  }

  lemma NoText()
    ensures Text([]) == []
  {
  }

  /** `write_dumpfile` */
  method WriteDumpfile(fs: T.FileSystem) returns (text: bytes)
    requires fs.root.Dir? && HasIds(fs.leaves) && InRange(fs.root, |fs.leaves|)
    ensures text == Text(NodeLines(fs.leaves, [], fs.root, map[]).lines)
  {
    var writer := new DumpfileWriter(fs.leaves);
    writer.WriteDir(fs.root);
    text := writer.output;
  }

  // ---- building ----

  /** `BTreeMap::insert`: in order, what was there before is replaced. */
  function Put(es: Children, name: bytes, inode: Inode): Children {
    match es
    case Nil => Cons(name, inode, Nil)
    case Cons(n, i, rest) =>
      if n == name then Cons(name, inode, rest)
      else if Less(n, name) then Cons(n, i, Put(rest, name, inode))
      else Cons(name, inode, es)
  }

  function Find(es: Children, name: bytes): Option<Inode> {
    match es
    case Nil => None
    case Cons(n, i, rest) => if n == name then Some(i) else Find(rest, name)
  }

  /** The tree with an inode put at a path; its parent must be a directory. */
  function InsertAt(node: Inode, path: T.Path, inode: Inode): Option<Inode>
    requires path != []
    decreases |path|
  {
    if node.Leaf? then None
    else if |path| == 1 then Some(node.(children := Put(node.children, path[0], inode)))
    else
      match Find(node.children, path[0])
      case None => None
      case Some(child) =>
        match InsertAt(child, path[1..], inode)
        case None => None
        case Some(c) => Some(node.(children := Put(node.children, path[0], c)))
  }

  /** `hex::decode` into a hash value. */
  function FromHex(h: bytes): Option<bytes> {
    if h == [] then Some([])
    else if |h| < 2 then None
    else
      match (HexValue(h[0]), HexValue(h[1]), FromHex(h[2..]))
      case (Some(x), Some(y), Some(rest)) => Some([16 * x + y] + rest)
      case _ => None
  }

  /** `BTreeMap` of attributes: sorted, later values replace. */
  function PutXattr(xs: seq<T.XattrPair>, x: T.XattrPair): seq<T.XattrPair> {
    if xs == [] then [x]
    else if xs[0].name == x.name then [x] + xs[1..]
    else if Less(xs[0].name, x.name) then [xs[0]] + PutXattr(xs[1..], x)
    else [x] + xs
  }

  function XattrMap(xs: seq<T.XattrPair>): seq<T.XattrPair>
    decreases |xs|
  {
    if xs == [] then [] else PutXattr(XattrMap(xs[..|xs| - 1]), xs[|xs| - 1])
  }

  /** What fits the fields of a stat; the parser makes no other values. */
  predicate StatFits(e: Entry) {
    e.uid < U32 && e.gid < U32 && e.sec < U64
  }

  /** `entry_to_stat` */
  function StatOf(e: Entry): T.Stat
    requires StatFits(e)
  {
    T.Stat(e.mode % 0x1000, e.uid, e.gid, T.AsI64(e.sec), XattrMap(e.xattrs))
  }

  /** The inode an entry makes.  A hardlink refers to a leaf added before. */
  function InodeOf(e: Entry, idSize: nat, leaves: map<T.Path, Inode>): Option<Inode>
    requires StatFits(e)
  {
    var stat := StatOf(e);
    match e.item
    case Directory(_, _) => Some(Dir(stat, Nil))
    case Hardlink(target) => if target in leaves then Some(leaves[target]) else None
    case RegularInline(_, content) => Some(Leaf(stat, T.Inline(content)))
    case Regular(size, _, _, digest) =>
      if digest.None? || |digest.value| != 2 * idSize || size >= U64 then None
      else (match FromHex(digest.value)
            case None => None
            case Some(id) => Some(Leaf(stat, T.External(id, size))))
    case Device(_, rdev) =>
      if rdev >= U64 then None
      else if F.IfmtOf(e.mode) == S_IFBLK then Some(Leaf(stat, T.BlockDevice(rdev)))
      else Some(Leaf(stat, T.CharacterDevice(rdev)))
    case Symlink(_, target) => Some(Leaf(stat, T.Symlink(target)))
    case Fifo(_) => Some(Leaf(stat, T.Fifo))
  }

  datatype Built = Built(root: Inode, leaves: map<T.Path, Inode>)

  /** `add_entry_to_filesystem` */
  function AddEntry(b: Built, e: Entry, idSize: nat): Option<Built>
    requires b.root.Dir?
    ensures AddEntry(b, e, idSize).Some? ==> AddEntry(b, e, idSize).value.root.Dir?
  {
    if !StatFits(e) then None
    else if e.path == [] then Some(b.(root := Dir(StatOf(e), b.root.children)))
    else
      match InodeOf(e, idSize, b.leaves)
      case None => None
      case Some(inode) =>
        match InsertAt(b.root, e.path, inode)
        case None => None
        case Some(root) =>
          Some(Built(root, if inode.Leaf? then b.leaves[e.path := inode] else b.leaves))
  }

  function AddLines(b: Built, lines: seq<bytes>, idSize: nat): Option<Built>
    requires b.root.Dir?
    ensures AddLines(b, lines, idSize).Some? ==> AddLines(b, lines, idSize).value.root.Dir?
    decreases |lines|
  {
    if lines == [] then Some(b)
    else if Blank(lines[0]) then AddLines(b, lines[1..], idSize)
    else
      match Parse(lines[0])
      case None => None
      case Some(e) =>
        match AddEntry(b, e, idSize)
        case None => None
        case Some(c) => AddLines(c, lines[1..], idSize)
  }

  /** The first entry must be the root. */
  function BuildLines(lines: seq<bytes>, idSize: nat): Option<Inode> {
    if lines == [] then None
    else if Blank(lines[0]) then BuildLines(lines[1..], idSize)
    else
      match Parse(lines[0])
      case None => None
      case Some(e) =>
        if e.path != [] || !StatFits(e) then None
        else
          match AddLines(Built(Dir(StatOf(e), Nil), map[]), lines[1..], idSize)
          case None => None
          case Some(b) => Some(b.root)
  }

  lemma InsertKeepsDir(node: Inode, path: T.Path, inode: Inode)
    requires path != []
    ensures InsertAt(node, path, inode).Some? ==> InsertAt(node, path, inode).value.Dir?
  {
  }

  // ---- building with shared leaves ----

  /** What a node says, without who shares it. */
  function ValueOf(leaves: seq<T.Leaf>, node: T.Node): Inode
    requires InRange(node, |leaves|)
  {
    match node
    case File(id) => Leaf(leaves[id].stat, leaves[id].content)
    case Dir(stat, es) => Dir(stat, ValuesOf(leaves, es))
  }

  function ValuesOf(leaves: seq<T.Leaf>, es: T.Entries): Children
    requires EntriesInRange(es, |leaves|)
  {
    match es
    case Empty => Nil
    case More(name, node, rest) => Cons(name, ValueOf(leaves, node), ValuesOf(leaves, rest))
  }

  /** The references of a part of the tree, in the order of its lines. */
  function Ids(node: T.Node): seq<nat> {
    match node
    case File(id) => [id]
    case Dir(_, es) => EntryIds(es)
  }

  function EntryIds(es: T.Entries): seq<nat> {
    match es
    case Empty => []
    case More(_, node, rest) => Ids(node) + EntryIds(rest)
  }

  /** The filesystem while it is built: a leaf is known by its number, and each path that got a
      leaf leads to it. */
  datatype Growing = Growing(root: T.Node, leaves: seq<T.Leaf>, hardlinks: map<T.Path, nat>)

  function PutNode(es: T.Entries, name: bytes, node: T.Node): T.Entries {
    match es
    case Empty => T.More(name, node, T.Empty)
    case More(n, x, rest) =>
      if n == name then T.More(name, node, rest)
      else if Less(n, name) then T.More(n, x, PutNode(rest, name, node))
      else T.More(name, node, es)
  }

  /** The tree with a node put at a path; its parent must be a directory. */
  function InsertNode(dir: T.Node, path: T.Path, node: T.Node): Option<T.Node>
    requires path != []
    decreases |path|
  {
    if dir.File? then None
    else if |path| == 1 then Some(dir.(entries := PutNode(dir.entries, path[0], node)))
    else
      match T.Find(dir.entries, path[0])
      case None => None
      case Some(child) =>
        match InsertNode(child, path[1..], node)
        case None => None
        case Some(c) => Some(dir.(entries := PutNode(dir.entries, path[0], c)))
  }

  lemma InsertNodeKeepsDir(dir: T.Node, path: T.Path, node: T.Node)
    requires path != []
    ensures InsertNode(dir, path, node).Some? ==> InsertNode(dir, path, node).value.Dir?
  {
  }

  /** The node of an entry and the leaves with it: a hardlink is a clone, any other file a new
      leaf. */
  function NodeOf(g: Growing, e: Entry, idSize: nat): Option<(T.Node, seq<T.Leaf>)>
    requires StatFits(e)
  {
    match e.item
    case Directory(_, _) => Some((T.Dir(StatOf(e), T.Empty), g.leaves))
    case Hardlink(target) =>
      if target in g.hardlinks then Some((T.File(g.hardlinks[target]), g.leaves)) else None
    case _ =>
      match InodeOf(e, idSize, map[])
      case Some(Leaf(stat, content)) => Some((T.File(|g.leaves|), g.leaves + [T.Leaf(stat, content, 0)]))
      case _ => None
  }

  /** `add_entry_to_filesystem` */
  function AddNode(g: Growing, e: Entry, idSize: nat): Option<Growing>
    requires g.root.Dir?
    ensures AddNode(g, e, idSize).Some? ==> AddNode(g, e, idSize).value.root.Dir?
  {
    if !StatFits(e) then None
    else if e.path == [] then Some(g.(root := T.Dir(StatOf(e), g.root.entries)))
    else
      match NodeOf(g, e, idSize)
      case None => None
      case Some((node, leaves)) =>
        match InsertNode(g.root, e.path, node)
        case None => None
        case Some(root) =>
          Some(Growing(root, leaves, if node.File? then g.hardlinks[e.path := node.id] else g.hardlinks))
  }

  function AddAll(g: Growing, es: seq<Entry>, idSize: nat): Option<Growing>
    requires g.root.Dir?
    ensures AddAll(g, es, idSize).Some? ==> AddAll(g, es, idSize).value.root.Dir?
    decreases |es|
  {
    if es == [] then Some(g)
    else
      match AddNode(g, es[0], idSize)
      case None => None
      case Some(h) => AddAll(h, es[1..], idSize)
  }

  /** The entries of all lines that are not blank. */
  function EntriesOf(lines: seq<bytes>): Option<seq<Entry>> {
    if lines == [] then Some([])
    else if Blank(lines[0]) then EntriesOf(lines[1..])
    else
      match (Parse(lines[0]), EntriesOf(lines[1..]))
      case (Some(e), Some(es)) => Some([e] + es)
      case _ => None
  }

  function AddParsed(g: Growing, lines: seq<bytes>, idSize: nat): Option<Growing>
    requires g.root.Dir?
  {
    match EntriesOf(lines)
    case None => None
    case Some(es) => AddAll(g, es, idSize)
  }

  /** When the map of hardlinks is dropped, a leaf is counted by the references of the tree. */
  function Finished(g: Growing): T.FileSystem {
    var ids := multiset(Ids(g.root));
    T.FileSystem(g.root, seq(|g.leaves|, i requires 0 <= i < |g.leaves| => g.leaves[i].(links := ids[i])))
  }

  function Started(root: Entry): Growing
    requires StatFits(root)
  {
    Growing(T.Dir(StatOf(root), T.Empty), [], map[])
  }

  /** The first entry must be the root. */
  function Build(lines: seq<bytes>, idSize: nat): Option<T.FileSystem> {
    match EntriesOf(lines)
    case None => None
    case Some(es) =>
      if es == [] || es[0].path != [] || !StatFits(es[0]) then None
      else
        match AddAll(Started(es[0]), es[1..], idSize)
        case None => None
        case Some(g) => Some(Finished(g))
  }

  /** The mutable filesystem and the map of leaves seen so far. */
  class TreeBuilder {
    const idSize: nat
    var root: T.Node
    var leaves: seq<T.Leaf>
    var hardlinks: map<T.Path, nat>

    constructor (rootStat: T.Stat, idSize: nat)
      ensures this.idSize == idSize && Contents() == Growing(T.Dir(rootStat, T.Empty), [], map[])
    {
      this.idSize, root, leaves, hardlinks := idSize, T.Dir(rootStat, T.Empty), [], map[];
    }

    function Contents(): Growing
      reads this
    {
      Growing(root, leaves, hardlinks)
    }

    method Add(e: Entry) returns (ok: bool)
      requires root.Dir?
      modifies this
      ensures
        var r := AddNode(old(Contents()), e, idSize);
        if r.None? then !ok else ok && Contents() == r.value && root.Dir?
    {
      hide InsertNode, InodeOf, StatOf;
      if !StatFits(e) {
        return false;
      }
      if e.path == [] {
        root := T.Dir(StatOf(e), root.entries);
        return true;
      }
      var made := NodeOf(Contents(), e, idSize);
      if made.None? {
        return false;
      }
      var (node, more) := made.value;
      var r := InsertNode(root, e.path, node);
      if r.None? {
        return false;
      }
      InsertNodeKeepsDir(root, e.path, node);
      if node.File? {
        hardlinks := hardlinks[e.path := node.id];
      }
      root, leaves := r.value, more;
      return true;
    }
  }

  /** `dumpfile_to_filesystem` */
  method DumpfileToFilesystem(text: bytes, idSize: nat) returns (r: Option<T.FileSystem>)
    ensures r == Build(Lines(text), idSize)
  {
    hide Parse, AddNode, StatOf, Lines, Finished, Blank;
    var lines := Lines(text);
    assert lines[0..] == lines;
    var i := 0;
    while i < |lines| && Blank(lines[i])
      invariant 0 <= i <= |lines| && EntriesOf(lines) == EntriesOf(lines[i..])
    {
      assert lines[i..][1..] == lines[i + 1..];
      i := i + 1;
    }
    if i == |lines| {
      return None;
    }
    var first := Parse(lines[i]);
    if first.None? || first.value.path != [] || !StatFits(first.value) {
      return None;
    }
    assert lines[i..][1..] == lines[i + 1..];
    i := i + 1;
    var builder := new TreeBuilder(StatOf(first.value), idSize);
    ghost var all := AddParsed(builder.Contents(), lines[i..], idSize);
    while i < |lines|
      invariant 0 <= i <= |lines| && builder.root.Dir? && builder.idSize == idSize
      invariant AddParsed(builder.Contents(), lines[i..], idSize) == all
    {
      assert lines[i..][1..] == lines[i + 1..];
      if !Blank(lines[i]) {
        var e := Parse(lines[i]);
        if e.None? {
          return None;
        }
        var ok := builder.Add(e.value);
        if !ok {
          return None;
        }
      }
      i := i + 1;
    }
    return Some(Finished(builder.Contents()));
  }
}
