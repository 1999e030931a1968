/** The lines of a dumpfile read back field by field: which line stands for which path, what it
    says of the node there, and where hardlink lines lead. */
module DumpfileLines {
  import opened Bytes
  import opened Numbers
  import opened DumpfileText
  import opened DumpfileEntry
  import opened Dumpfile
  import opened DumpfileTheorem
  import opened ObjectPath
  import F = ErofsFormat
  import T = Tree

  // ---- fields ----

  /** The field stands for the string; a dash stands for the empty one. */
  predicate Reads(field: bytes, s: bytes) {
    if s == [] then field == [45] else Unescape(field, |s|) == Some(s)
  }

  predicate NumberIs(field: bytes, radix: nat, n: nat) {
    ParseNumber(field, radix, n + 1) == Some(n)
  }

  /** Seconds, with a sign before 1970, and no fraction. */
  predicate TimeIs(field: bytes, t: int) {
    if t >= 0 then ParseMtime(field) == Some((t, 0))
    else field != [] && field[0] == 45 && ParseMtime(field[1..]) == Some((-t, 0))
  }

  predicate XattrIs(field: bytes, x: T.XattrPair) {
    var n := FirstOf(field, 61);
    n < |field| && Reads(field[..n], x.name) && Reads(field[n + 1..], x.value)
  }

  /** Size, mode, links, owner, device, time and attributes. */
  predicate StatIs(f: seq<bytes>, stat: T.Stat, ifmt: nat, size: nat, nlink: nat, rdev: nat) {
    && |f| == 11 + |stat.xattrs|
    && NumberIs(f[1], 10, size) && NumberIs(f[2], 8, ifmt + stat.mode) && NumberIs(f[3], 10, nlink)
    && NumberIs(f[4], 10, stat.uid) && NumberIs(f[5], 10, stat.gid) && NumberIs(f[6], 10, rdev)
    && TimeIs(f[7], stat.mtime)
    && forall i :: 0 <= i < |stat.xattrs| ==> XattrIs(f[11 + i], stat.xattrs[i])
  }

  predicate OnlyDashes(f: seq<bytes>, from: nat)
    requires from <= 11 <= |f|
  {
    forall i :: from <= i < 11 ==> f[i] == [45]
  }

  /** The fields of a file written in full. */
  predicate LeafIs(f: seq<bytes>, leaf: T.Leaf) {
    |f| >= 11
    && match leaf.content
       case Inline(data) =>
         StatIs(f, leaf.stat, 0x8000, |data|, leaf.links, 0) && f[8] == [45] && Reads(f[9], data) && f[10] == [45]
       case External(id, size) =>
         && StatIs(f, leaf.stat, 0x8000, size, leaf.links, 0)
         && Unescape(f[8], |f[8]|).Some? && NamesObject(Unescape(f[8], |f[8]|).value, id) && f[9] == [45]
         && LowerHex(f[10]) && FromHex(f[10]) == Some(id)
       case BlockDevice(rdev) => StatIs(f, leaf.stat, 0x6000, 0, leaf.links, rdev) && OnlyDashes(f, 8)
       case CharacterDevice(rdev) => StatIs(f, leaf.stat, 0x2000, 0, leaf.links, rdev) && OnlyDashes(f, 8)
       case Fifo => StatIs(f, leaf.stat, 0x1000, 0, leaf.links, 0) && OnlyDashes(f, 8)
       case Socket => StatIs(f, leaf.stat, 0xC000, 0, leaf.links, 0) && OnlyDashes(f, 8)
       case Symlink(target) =>
         StatIs(f, leaf.stat, 0xA000, |target|, leaf.links, 0) && Reads(f[8], target) && OnlyDashes(f, 9)
  }

  predicate DirIs(f: seq<bytes>, stat: T.Stat, es: T.Entries) {
    |f| >= 11 && StatIs(f, stat, 0x4000, 0, 2 + T.Subdirectories(es), 0) && OnlyDashes(f, 8)
  }

  /** The fields of a hardlink: `0 @120000 - - - - 0.0 target - -`. */
  predicate HardlinkIs(f: seq<bytes>, target: T.Path) {
    && |f| == 11 && f[1] == [48] && f[2] == [64, 49, 50, 48, 48, 48, 48]
    && f[3] == [45] && f[4] == [45] && f[5] == [45] && f[6] == [45] && f[7] == [48, 46, 48]
    && UnescapeToPathCanonical(f[8]) == Some(target) && f[9] == [45] && f[10] == [45]
  }

  lemma WrittenReads(s: bytes)
    ensures Reads(Written(s), s)
  {
    hide Unescape;
    if s == [] {
      EmptyIsDash();
    } else {
      EscapersInverted(s, Standard, |s|);
    }
  }

  lemma NumberWritten(n: nat, radix: nat)
    requires radix == 10 || radix == 8
    ensures NumberIs(InRadix(n, radix), radix, n)
  {
    ParsePrinted(n, radix, n + 1);
  }

  lemma TimeWritten(t: T.i64)
    ensures TimeIs(MtimeField(t), t)
  {
    hide ParseMtime, Decimal;
    var sec: int := t;
    MtimeParses(if sec < 0 then -sec else sec, 0);
    if t < 0 {
      var rest := Decimal(-sec) + [POINT] + Decimal(0);
      assert MtimeField(t) == [45] + rest;
      assert MtimeField(t)[1..] == rest;
    }
  }

  lemma XattrWritten(x: T.XattrPair)
    ensures XattrIs(Written(x.name) + [EQUALS] + Written(x.value), x)
  {
    hide Written, Reads;
    var key, value := Written(x.name), Written(x.value);
    var s := key + [EQUALS] + value;
    WrittenVisible(x.name, XattrKey);
    LacksEquals(key);
    FirstAfter(key, EQUALS, value);
    assert s[..|key|] == key && s[|key| + 1..] == value;
    WrittenReads(x.name);
    WrittenReads(x.value);
  }

  lemma StatWritten(path: T.Path, stat: T.Stat, t: F.FileType, size: nat, nlink: nat, rdev: nat,
                    payload: bytes, content: bytes, digest: Option<bytes>)
    requires stat.mode < 0x1000
    ensures
      var f := WrittenFields(path, stat, t.Ifmt(), size, nlink, rdev, payload, content, digest);
      && StatIs(f, stat, t.Ifmt(), size, nlink, rdev)
      && f[0] == Written(PathBytes(path)) && f[8] == Written(payload) && f[9] == Written(content)
      && f[10] == (if digest.Some? then digest.value else DASH)
  {
    hide Written, PathBytes, InRadix, BitOr, WrittenFields, MtimeField, NumberIs, TimeIs, XattrIs;
    var f := WrittenFields(path, stat, t.Ifmt(), size, nlink, rdev, payload, content, digest);
    WrittenParts(path, stat, t, size, nlink, rdev, payload, content, digest);
    ModeParts(t, stat.mode);
    NumberWritten(size, 10);
    NumberWritten(t.Ifmt() + stat.mode, 8);
    NumberWritten(nlink, 10);
    NumberWritten(stat.uid, 10);
    NumberWritten(stat.gid, 10);
    NumberWritten(rdev, 10);
    TimeWritten(stat.mtime);
    forall i | 0 <= i < |stat.xattrs|
      ensures XattrIs(f[11 + i], stat.xattrs[i])
    {
      XattrWritten(stat.xattrs[i]);
    }
  }

  lemma LeafWritten(path: T.Path, leaf: T.Leaf)
    requires leaf.stat.mode < 0x1000 && (leaf.content.External? ==> leaf.content.id != [])
    ensures LeafIs(LeafFields(path, leaf.stat, leaf.content, leaf.links), leaf)
  {
    hide Written, PathBytes, WrittenFields, StatIs, Unescape, FromHex, F.Hex, F.ObjectPathname, NamesObject,
      LowerHex;
    var stat, nlink := leaf.stat, leaf.links;
    EmptyIsDash();
    match leaf.content
    case Inline(data) =>
      WrittenReads(data);
      StatWritten(path, stat, F.FileType.RegularFile, |data|, nlink, 0, [], data, None);
    case External(id, size) =>
      var p := F.ObjectPathname(id);
      PathnameNames(id);
      NamedNotEmpty(p, id);
      WrittenVisible(p, Standard);
      EscapedLonger(p, Standard);
      EscapersInverted(p, Standard, |Written(p)|);
      HexInverts(id);
      HexIsLower(id);
      StatWritten(path, stat, F.FileType.RegularFile, size, nlink, 0, p, [], Some(F.Hex(id)));
    case BlockDevice(rdev) => StatWritten(path, stat, F.FileType.BlkDevice, 0, nlink, rdev, [], [], None);
    case CharacterDevice(rdev) =>
      StatWritten(path, stat, F.FileType.CharDevice, 0, nlink, rdev, [], [], None);
    case Fifo => StatWritten(path, stat, F.FileType.FifoFile, 0, nlink, 0, [], [], None);
    case Socket => StatWritten(path, stat, F.FileType.SocketFile, 0, nlink, 0, [], [], None);
    case Symlink(target) =>
      WrittenReads(target);
      StatWritten(path, stat, F.FileType.SymlinkFile, |target|, nlink, 0, target, [], None);
  }

  lemma NamedNotEmpty(p: bytes, id: bytes)
    requires NamesObject(p, id)
    ensures p != []
  {
  }

  // ---- lines ----

  /** A node with its path. */
  datatype Visit = Visit(path: T.Path, node: T.Node)

  /** A directory comes before its entries, these in their order. */
  function Visits(path: T.Path, node: T.Node): seq<Visit>
    decreases node
  {
    match node
    case File(_) => [Visit(path, node)]
    case Dir(_, es) => [Visit(path, node)] + EntryVisits(path, es)
  }

  function EntryVisits(path: T.Path, es: T.Entries): seq<Visit>
    decreases es
  {
    match es
    case Empty => []
    case More(n, node, rest) => Visits(path + [n], node) + EntryVisits(path, rest)
  }

  predicate VisitsInRange(vs: seq<Visit>, n: nat) {
    forall i :: 0 <= i < |vs| && vs[i].node.File? ==> vs[i].node.id < n
  }

  /** The leaves with several references met so far, with their first paths. */
  function SeenBy(leaves: seq<T.Leaf>, vs: seq<Visit>, seen: map<nat, T.Path>): map<nat, T.Path>
    requires VisitsInRange(vs, |leaves|)
    decreases |vs|
  {
    if vs == [] then seen
    else
      var n := |vs| - 1;
      var before := SeenBy(leaves, vs[..n], seen);
      match vs[n].node
      case File(id) => SeenAfter(leaves, vs[n].path, id, before)
      case Dir(_, _) => before
  }

  function LineOf(leaves: seq<T.Leaf>, v: Visit, seen: map<nat, T.Path>): bytes
    requires HasIds(leaves) && (v.node.File? ==> v.node.id < |leaves|)
  {
    match v.node
    case File(id) => Fields(FileFields(leaves, v.path, id, seen), SPACE)
    case Dir(stat, es) => Fields(DirFields(v.path, stat, 2 + T.Subdirectories(es)), SPACE)
  }

  /** One line for each visit. */
  ghost predicate LinesAre(leaves: seq<T.Leaf>, vs: seq<Visit>, seen: map<nat, T.Path>, w: Wrote)
    requires HasIds(leaves) && VisitsInRange(vs, |leaves|)
  {
    && |w.lines| == |vs| && w.seen == SeenBy(leaves, vs, seen)
    && forall j :: 0 <= j < |vs| ==> w.lines[j] == LineOf(leaves, vs[j], SeenBy(leaves, vs[..j], seen))
  }

  lemma {:induction false} SeenAppend(leaves: seq<T.Leaf>, a: seq<Visit>, b: seq<Visit>, seen: map<nat, T.Path>)
    requires VisitsInRange(a, |leaves|) && VisitsInRange(b, |leaves|)
    ensures VisitsInRange(a + b, |leaves|)
    ensures SeenBy(leaves, a + b, seen) == SeenBy(leaves, b, SeenBy(leaves, a, seen))
    decreases |b|
  {
    if b == [] {
      assert a + b == a;
    } else {
      var n := |b| - 1;
      assert (a + b)[..|a + b| - 1] == a + b[..n];
      SeenAppend(leaves, a, b[..n], seen);
    }
  }

  lemma LinesAppend(leaves: seq<T.Leaf>, a: seq<Visit>, b: seq<Visit>, seen: map<nat, T.Path>, x: Wrote, y: Wrote)
    requires HasIds(leaves) && VisitsInRange(a, |leaves|) && VisitsInRange(b, |leaves|)
    requires LinesAre(leaves, a, seen, x) && LinesAre(leaves, b, x.seen, y)
    ensures VisitsInRange(a + b, |leaves|) && LinesAre(leaves, a + b, seen, Wrote(x.lines + y.lines, y.seen))
  {
    hide LineOf, SeenBy, HasIds;
    var vs, lines := a + b, x.lines + y.lines;
    SeenAppend(leaves, a, b, seen);
    forall j | 0 <= j < |vs|
      ensures lines[j] == LineOf(leaves, vs[j], SeenBy(leaves, vs[..j], seen))
    {
      if j < |a| {
        assert vs[..j] == a[..j];
      } else {
        var k := j - |a|;
        assert vs[..j] == a + b[..k] && vs[j] == b[k] && lines[j] == y.lines[k];
        SeenAppend(leaves, a, b[..k], seen);
      }
    }
  }

  lemma {:induction false} NodeWritesVisits(leaves: seq<T.Leaf>, path: T.Path, node: T.Node, seen: map<nat, T.Path>)
    requires HasIds(leaves) && InRange(node, |leaves|)
    ensures VisitsInRange(Visits(path, node), |leaves|)
    ensures LinesAre(leaves, Visits(path, node), seen, NodeLines(leaves, path, node, seen))
    decreases node
  {
    hide Fields, FileFields, DirFields, HasIds, SeenAfter;
    var v := [Visit(path, node)];
    assert v[..0] == [];
    match node
    case File(id) =>
      assert v[..|v| - 1] == [] && SeenBy(leaves, v[..0], seen) == seen;
      assert SeenBy(leaves, v, seen) == SeenAfter(leaves, path, id, seen);
    case Dir(stat, es) =>
      EntriesWriteVisits(leaves, path, es, seen);
      assert v[..|v| - 1] == [] && SeenBy(leaves, v, seen) == seen;
      var first := Wrote([LineOf(leaves, v[0], seen)], seen);
      assert LinesAre(leaves, v, seen, first);
      LinesAppend(leaves, v, EntryVisits(path, es), seen, first, EntryLines(leaves, path, es, seen));
  }

  lemma {:induction false} EntriesWriteVisits(leaves: seq<T.Leaf>, path: T.Path, es: T.Entries,
                                              seen: map<nat, T.Path>)
    requires HasIds(leaves) && EntriesInRange(es, |leaves|)
    ensures VisitsInRange(EntryVisits(path, es), |leaves|)
    ensures LinesAre(leaves, EntryVisits(path, es), seen, EntryLines(leaves, path, es, seen))
    decreases es
  {
    hide NodeLines, HasIds, LineOf;
    match es
    case Empty =>
    case More(n, node, rest) =>
      var first := NodeLines(leaves, path + [n], node, seen);
      NodeWritesVisits(leaves, path + [n], node, seen);
      EntriesWriteVisits(leaves, path, rest, first.seen);
      LinesAppend(leaves, Visits(path + [n], node), EntryVisits(path, rest), seen, first,
                  EntryLines(leaves, path, rest, first.seen));
  }

  // ---- which paths ----

  /** Everything visited is what the tree has at the path. */
  lemma {:induction false} VisitIsThere(path: T.Path, node: T.Node, n: nat, j: nat)
    requires T.WellFormed(node, n) && j < |Visits(path, node)|
    ensures
      var v := Visits(path, node)[j];
      path <= v.path && T.Lookup(node, v.path[|path|..]) == Some(v.node)
    decreases node
  {
    hide T.ValidName;
    var v := Visits(path, node)[j];
    if node.File? || j == 0 {
      assert v == Visit(path, node) && v.path[|path|..] == [];
    } else {
      EntryVisitIsThere(path, node.entries, n, j - 1);
    }
  }

  lemma {:induction false} EntryVisitIsThere(path: T.Path, es: T.Entries, n: nat, j: nat)
    requires T.WellFormedEntries(es, n) && T.SortedEntries(es) && j < |EntryVisits(path, es)|
    ensures
      var v := EntryVisits(path, es)[j];
      && path < v.path && T.Find(es, v.path[|path|]).Some?
      && T.Lookup(T.Find(es, v.path[|path|]).value, v.path[|path|..][1..]) == Some(v.node)
    decreases es
  {
    hide T.ValidName, Less;
    var v, first := EntryVisits(path, es)[j], Visits(path + [es.name], es.node);
    if j < |first| {
      VisitIsThere(path + [es.name], es.node, n, j);
      assert v == first[j] && path + [es.name] <= v.path;
      assert v.path[|path|] == es.name && v.path[|path|..][1..] == v.path[|path| + 1..];
    } else {
      assert v == EntryVisits(path, es.rest)[j - |first|];
      EntryVisitIsThere(path, es.rest, n, j - |first|);
      LessIrreflexive(es.name);
    }
  }

  /** Everything the tree has is visited. */
  lemma {:induction false} AllVisited(path: T.Path, node: T.Node, p: T.Path) returns (j: nat)
    requires T.Lookup(node, p).Some?
    ensures j < |Visits(path, node)| && Visits(path, node)[j] == Visit(path + p, T.Lookup(node, p).value)
    decreases node
  {
    if p == [] {
      j := 0;
      assert path + p == path;
    } else {
      var k := EntryVisited(path, node.entries, p);
      j := k + 1;
    }
  }

  lemma {:induction false} EntryVisited(path: T.Path, es: T.Entries, p: T.Path) returns (j: nat)
    requires p != [] && T.Find(es, p[0]).Some? && T.Lookup(T.Find(es, p[0]).value, p[1..]).Some?
    ensures j < |EntryVisits(path, es)|
    ensures EntryVisits(path, es)[j] == Visit(path + p, T.Lookup(T.Find(es, p[0]).value, p[1..]).value)
    decreases es
  {
    if es.name == p[0] {
      j := AllVisited(path + [es.name], es.node, p[1..]);
      assert path + [es.name] + p[1..] == path + p;
    } else {
      var k := EntryVisited(path, es.rest, p);
      j := |Visits(path + [es.name], es.node)| + k;
    }
  }

  // ---- what is remembered ----

  /** `i` is the first visit of the leaf. */
  ghost predicate FirstVisit(vs: seq<Visit>, i: nat, id: nat) {
    i < |vs| && vs[i].node == T.File(id) && forall k :: 0 <= k < i ==> vs[k].node != T.File(id)
  }

  /** For a leaf with several references the path of its first visit is remembered. */
  lemma {:induction false} SeenIsFirst(leaves: seq<T.Leaf>, vs: seq<Visit>, id: nat)
    requires VisitsInRange(vs, |leaves|) && id < |leaves|
    ensures
      var seen := SeenBy(leaves, vs, map[]);
      && (id in seen ==> exists i: nat :: FirstVisit(vs, i, id) && seen[id] == vs[i].path)
      && (leaves[id].links > 1 ==> (id in seen <==> exists i :: 0 <= i < |vs| && vs[i].node == T.File(id)))
      && (id in seen ==> leaves[id].links > 1)
    decreases |vs|
  {
    if vs != [] {
      var n := |vs| - 1;
      SeenIsFirst(leaves, vs[..n], id);
      var seen, before := SeenBy(leaves, vs, map[]), SeenBy(leaves, vs[..n], map[]);
      assert forall k :: 0 <= k < n ==> vs[..n][k] == vs[k];
      if id in before {
        var i: nat :| FirstVisit(vs[..n], i, id) && before[id] == vs[..n][i].path;
        assert FirstVisit(vs, i, id) && seen[id] == vs[i].path;
      } else if id in seen {
        assert FirstVisit(vs, n, id) && seen[id] == vs[n].path;
      }
    }
  }

  // ---- the theorem ----

  /** What line `j` says: the path first, then the node in full or, for a leaf met before, the path
      where it was met first. */
  ghost predicate LineSays(leaves: seq<T.Leaf>, vs: seq<Visit>, j: nat, line: bytes)
    requires j < |vs| && VisitsInRange(vs, |leaves|)
  {
    var f := Split(line, SPACE);
    && UnescapeToPathCanonical(f[0]) == Some(vs[j].path)
    && match vs[j].node
       case Dir(stat, es) => DirIs(f, stat, es)
       case File(id) =>
         if leaves[id].links > 1 && exists i :: 0 <= i < j && vs[i].node == T.File(id)
         then exists i: nat :: i < j && FirstVisit(vs, i, id) && HardlinkIs(f, vs[i].path)
         else LeafIs(f, leaves[id])
  }

  predicate Permissions(leaves: seq<T.Leaf>, node: T.Node) {
    match node
    case File(id) => id < |leaves| && leaves[id].stat.mode < 0x1000
    case Dir(stat, _) => stat.mode < 0x1000
  }

  lemma NoSpaces(f: seq<bytes>)
    requires f != [] && forall i :: 0 <= i < |f| ==> Visible(f[i]) && f[i] != []
    ensures Split(Fields(f, SPACE), SPACE) == f && PlainLine(Fields(f, SPACE))
  {
    hide Visible, Fields, Split, PlainLine;
    FieldsPlain(f);
    forall i | 0 <= i < |f|
      ensures SPACE !in f[i]
    {
      VisibleLacksSpace(f[i]);
    }
    SplitFields(f, SPACE);
  }

  lemma LeafLine(path: T.Path, leaf: T.Leaf)
    requires PlainPath(path) && |PathBytes(path)| <= PATH_MAX
    requires leaf.stat.mode < 0x1000 && (leaf.content.External? ==> leaf.content.id != [])
    ensures
      var line := Fields(LeafFields(path, leaf.stat, leaf.content, leaf.links), SPACE);
      var f := Split(line, SPACE);
      PlainLine(line) && UnescapeToPathCanonical(f[0]) == Some(path) && LeafIs(f, leaf)
  {
    hide LeafIs, Fields, Split, PlainLine, PlainPath, PathBytes, Written, UnescapeToPathCanonical;
    LeafWritten(path, leaf);
    LeafVisible(path, leaf);
    NoSpaces(LeafFields(path, leaf.stat, leaf.content, leaf.links));
    PathRoundTrip(path);
  }

  lemma LeafVisible(path: T.Path, leaf: T.Leaf)
    requires leaf.content.External? ==> leaf.content.id != []
    ensures
      var f := LeafFields(path, leaf.stat, leaf.content, leaf.links);
      && f[0] == Written(PathBytes(path))
      && forall i :: 0 <= i < |f| ==> Visible(f[i]) && f[i] != []
  {
    hide WrittenFields, PathBytes, Written, Visible, F.Hex, F.ObjectPathname;
    var stat, nlink := leaf.stat, leaf.links;
    match leaf.content
    case Inline(data) => FieldsKnown(path, stat, F.FileType.RegularFile, |data|, nlink, 0, [], data, None);
    case External(id, size) =>
      HexInverts(id);
      FieldsKnown(path, stat, F.FileType.RegularFile, size, nlink, 0, F.ObjectPathname(id), [], Some(F.Hex(id)));
    case BlockDevice(rdev) => FieldsKnown(path, stat, F.FileType.BlkDevice, 0, nlink, rdev, [], [], None);
    case CharacterDevice(rdev) => FieldsKnown(path, stat, F.FileType.CharDevice, 0, nlink, rdev, [], [], None);
    case Fifo => FieldsKnown(path, stat, F.FileType.FifoFile, 0, nlink, 0, [], [], None);
    case Socket => FieldsKnown(path, stat, F.FileType.SocketFile, 0, nlink, 0, [], [], None);
    case Symlink(target) =>
      FieldsKnown(path, stat, F.FileType.SymlinkFile, |target|, nlink, 0, target, [], None);
  }

  lemma FieldsKnown(path: T.Path, stat: T.Stat, t: F.FileType, size: nat, nlink: nat, rdev: nat,
                    payload: bytes, content: bytes, digest: Option<bytes>)
    requires digest.Some? ==> Visible(digest.value) && digest.value != []
    ensures
      var f := WrittenFields(path, stat, t.Ifmt(), size, nlink, rdev, payload, content, digest);
      && f[0] == Written(PathBytes(path))
      && forall i :: 0 <= i < |f| ==> Visible(f[i]) && f[i] != []
  {
    hide WrittenFields, PathBytes, Written, Visible;
    WrittenParts(path, stat, t, size, nlink, rdev, payload, content, digest);
    FieldsVisible(path, stat, t, size, nlink, rdev, payload, content, digest);
  }

  lemma DirLine(path: T.Path, stat: T.Stat, es: T.Entries)
    requires PlainPath(path) && |PathBytes(path)| <= PATH_MAX && stat.mode < 0x1000
    ensures
      var line := Fields(DirFields(path, stat, 2 + T.Subdirectories(es)), SPACE);
      var f := Split(line, SPACE);
      PlainLine(line) && UnescapeToPathCanonical(f[0]) == Some(path) && DirIs(f, stat, es)
  {
    hide StatIs, Fields, Split, PlainLine, PlainPath, PathBytes, Written, UnescapeToPathCanonical, WrittenFields, Visible;
    var nlink := 2 + T.Subdirectories(es);
    EmptyIsDash();
    StatWritten(path, stat, F.FileType.Directory, 0, nlink, 0, [], [], None);
    FieldsKnown(path, stat, F.FileType.Directory, 0, nlink, 0, [], [], None);
    NoSpaces(DirFields(path, stat, nlink));
    PathRoundTrip(path);
  }

  lemma HardlinkLine(path: T.Path, target: T.Path)
    requires PlainPath(path) && |PathBytes(path)| <= PATH_MAX
    requires PlainPath(target) && |PathBytes(target)| <= PATH_MAX
    ensures
      var line := Fields(HardlinkFields(path, PathBytes(target)), SPACE);
      var f := Split(line, SPACE);
      PlainLine(line) && UnescapeToPathCanonical(f[0]) == Some(path) && HardlinkIs(f, target)
  {
    hide Fields, Split, PlainLine, PlainPath, PathBytes, Written, UnescapeToPathCanonical;
    var f := HardlinkFields(path, PathBytes(target));
    WrittenVisible(PathBytes(path), Standard);
    WrittenVisible(PathBytes(target), Standard);
    NoSpaces(f);
    PathRoundTrip(path);
    PathRoundTrip(target);
  }

  /** Directories are sorted as their maps are, references lead to leaves, paths are not too long
      to be read, and modes hold permission bits only. */
  ghost predicate Writable(fs: T.FileSystem) {
    && HasIds(fs.leaves) && T.WellFormed(fs.root, |fs.leaves|) && InRange(fs.root, |fs.leaves|)
    && forall v :: v in Visits([], fs.root) ==>
         PlainPath(v.path) && |PathBytes(v.path)| <= PATH_MAX && Permissions(fs.leaves, v.node)
  }

  /** The lines of a tree: one for each path, a directory before what is in it, each with the path
      and all of the node, or with the path of the first line for the same leaf. */
  lemma LinesSay(fs: T.FileSystem)
    requires Writable(fs)
    ensures
      var vs, lines := Visits([], fs.root), NodeLines(fs.leaves, [], fs.root, map[]).lines;
      && VisitsInRange(vs, |fs.leaves|) && |lines| == |vs|
      && (forall p, x :: T.Lookup(fs.root, p) == Some(x) <==> Visit(p, x) in vs)
      && forall j :: 0 <= j < |vs| ==> PlainLine(lines[j]) && LineSays(fs.leaves, vs, j, lines[j])
  {
    hide LineSays, PlainLine, NodeLines, HasIds, PlainPath, PathBytes, T.WellFormed, T.Lookup, Visits;
    var vs, lines := Visits([], fs.root), NodeLines(fs.leaves, [], fs.root, map[]).lines;
    NodeWritesVisits(fs.leaves, [], fs.root, map[]);
    forall p, x
      ensures T.Lookup(fs.root, p) == Some(x) <==> Visit(p, x) in vs
    {
      if T.Lookup(fs.root, p) == Some(x) {
        var j := AllVisited([], fs.root, p);
        assert [] + p == p;
      }
      if Visit(p, x) in vs {
        var j: nat :| j < |vs| && vs[j] == Visit(p, x);
        VisitIsThere([], fs.root, |fs.leaves|, j);
        assert p[0..] == p;
      }
    }
    forall j | 0 <= j < |vs|
      ensures PlainLine(lines[j]) && LineSays(fs.leaves, vs, j, lines[j])
    {
      LineIs(fs.leaves, vs, j);
    }
  }

  lemma {:induction false} LineIs(leaves: seq<T.Leaf>, vs: seq<Visit>, j: nat)
    requires HasIds(leaves) && VisitsInRange(vs, |leaves|) && j < |vs|
    requires forall v :: v in vs ==>
      PlainPath(v.path) && |PathBytes(v.path)| <= PATH_MAX && Permissions(leaves, v.node)
    ensures VisitsInRange(vs[..j], |leaves|)
    ensures
      var line := LineOf(leaves, vs[j], SeenBy(leaves, vs[..j], map[]));
      PlainLine(line) && LineSays(leaves, vs, j, line)
  {
    hide PlainPath, PathBytes, PlainLine, Fields, Split, LeafFields, DirFields, HardlinkFields, UnescapeToPathCanonical,
      LeafIs, DirIs, HardlinkIs, SeenBy;
    var path := vs[j].path;
    match vs[j].node
    case Dir(stat, es) => DirLine(path, stat, es);
    case File(id) =>
      SeenIsFirst(leaves, vs[..j], id);
      assert forall k :: 0 <= k < j ==> vs[..j][k] == vs[k];
      var seen := SeenBy(leaves, vs[..j], map[]);
      if leaves[id].links > 1 && id in seen {
        var i: nat :| FirstVisit(vs[..j], i, id) && seen[id] == vs[..j][i].path;
        assert FirstVisit(vs, i, id) && vs[i] in vs;
        HardlinkLine(path, vs[i].path);
      } else {
        LeafLine(path, leaves[id]);
      }
  }

  /** `write_dumpfile`, told from the lines of the text. */
  method WriteLines(fs: T.FileSystem) returns (text: bytes)
    requires fs.root.Dir? && Writable(fs)
    ensures
      var vs, lines := Visits([], fs.root), Lines(text);
      && VisitsInRange(vs, |fs.leaves|) && |lines| == |vs|
      && (forall p, x :: T.Lookup(fs.root, p) == Some(x) <==> Visit(p, x) in vs)
      && forall j :: 0 <= j < |vs| ==> LineSays(fs.leaves, vs, j, lines[j])
  {
    hide LineSays, PlainLine, NodeLines, HasIds, PlainPath, PathBytes, T.WellFormed, T.Lookup, Visits, Lines, Text;
    LinesSay(fs);
    text := WriteDumpfile(fs);
    LinesOfText(NodeLines(fs.leaves, [], fs.root, map[]).lines);
  }
}
