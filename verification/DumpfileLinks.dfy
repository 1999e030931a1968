/** Hardlinks of a built tree: what the leaves say, and which paths share one. */
module DumpfileLinks {
  import opened Bytes
  import opened DumpfileText
  import opened DumpfileEntry
  import opened Dumpfile
  import T = Tree

  // ---- the tree as values ----

  ghost predicate Sound(g: Growing) {
    && g.root.Dir? && InRange(g.root, |g.leaves|)
    && forall p :: p in g.hardlinks ==> g.hardlinks[p] < |g.leaves|
  }

  function LeafValue(l: T.Leaf): Inode {
    Leaf(l.stat, l.content)
  }

  function Value(g: Growing): Built
    requires Sound(g)
  {
    Built(ValueOf(g.leaves, g.root), map p | p in g.hardlinks :: LeafValue(g.leaves[g.hardlinks[p]]))
  }

  /** The leaves of `a` are in `b`, but for their counts. */
  ghost predicate Agree(a: seq<T.Leaf>, b: seq<T.Leaf>) {
    |a| <= |b| && forall i :: 0 <= i < |a| ==> LeafValue(a[i]) == LeafValue(b[i])
  }

  lemma {:induction false} SameValue(a: seq<T.Leaf>, b: seq<T.Leaf>, node: T.Node)
    requires Agree(a, b) && InRange(node, |a|)
    ensures InRange(node, |b|) && ValueOf(b, node) == ValueOf(a, node)
  {
    match node
    case File(id) =>
      assert LeafValue(a[id]) == LeafValue(b[id]);
    case Dir(_, es) => SameValues(a, b, es);
  }

  lemma {:induction false} SameValues(a: seq<T.Leaf>, b: seq<T.Leaf>, es: T.Entries)
    requires Agree(a, b) && EntriesInRange(es, |a|)
    ensures EntriesInRange(es, |b|) && ValuesOf(b, es) == ValuesOf(a, es)
  {
    if es.More? {
      SameValue(a, b, es.node);
      SameValues(a, b, es.rest);
    }
  }

  lemma {:induction false} FindValue(leaves: seq<T.Leaf>, es: T.Entries, n: bytes)
    requires EntriesInRange(es, |leaves|)
    ensures
      match T.Find(es, n)
      case None => Find(ValuesOf(leaves, es), n) == None
      case Some(x) => InRange(x, |leaves|) && Find(ValuesOf(leaves, es), n) == Some(ValueOf(leaves, x))
  {
    if es.More? {
      FindValue(leaves, es.rest, n);
    }
  }

  lemma {:induction false} PutValue(leaves: seq<T.Leaf>, es: T.Entries, n: bytes, node: T.Node)
    requires EntriesInRange(es, |leaves|) && InRange(node, |leaves|)
    ensures EntriesInRange(PutNode(es, n, node), |leaves|)
    ensures ValuesOf(leaves, PutNode(es, n, node)) == Put(ValuesOf(leaves, es), n, ValueOf(leaves, node))
  {
    if es.More? {
      PutValue(leaves, es.rest, n, node);
    }
  }

  lemma {:induction false} InsertValue(leaves: seq<T.Leaf>, dir: T.Node, path: T.Path, node: T.Node)
    requires path != [] && InRange(dir, |leaves|) && InRange(node, |leaves|)
    ensures
      var value := InsertAt(ValueOf(leaves, dir), path, ValueOf(leaves, node));
      match InsertNode(dir, path, node)
      case None => value == None
      case Some(d) => InRange(d, |leaves|) && value == Some(ValueOf(leaves, d))
    decreases |path|
  {
    hide Put, PutNode, T.Find, Find;
    if dir.Dir? {
      if |path| == 1 {
        PutValue(leaves, dir.entries, path[0], node);
      } else {
        FindValue(leaves, dir.entries, path[0]);
        match T.Find(dir.entries, path[0])
        case None =>
        case Some(child) =>
          InsertValue(leaves, child, path[1..], node);
          match InsertNode(child, path[1..], node)
          case None =>
          case Some(c) => PutValue(leaves, dir.entries, path[0], c);
      }
    }
  }

  /** What an entry makes, as a value. */
  lemma NodeValue(g: Growing, e: Entry, idSize: nat)
    requires Sound(g) && StatFits(e)
    ensures
      match NodeOf(g, e, idSize)
      case None => InodeOf(e, idSize, Value(g).leaves) == None
      case Some((node, leaves)) =>
        && Agree(g.leaves, leaves) && InRange(node, |leaves|)
        && InodeOf(e, idSize, Value(g).leaves) == Some(ValueOf(leaves, node))
  {
    hide StatOf, FromHex;
  }

  lemma EntryRefines(g: Growing, e: Entry, idSize: nat)
    requires Sound(g)
    ensures
      match AddNode(g, e, idSize)
      case None => AddEntry(Value(g), e, idSize) == None
      case Some(h) => Sound(h) && AddEntry(Value(g), e, idSize) == Some(Value(h))
  {
    hide StatOf, InsertAt, InsertNode, InodeOf, NodeOf;
    if StatFits(e) && e.path != [] {
      NodeValue(g, e, idSize);
      match NodeOf(g, e, idSize)
      case None =>
      case Some((node, leaves)) =>
        SameValue(g.leaves, leaves, g.root);
        InsertValue(leaves, g.root, e.path, node);
        InsertNodeKeepsDir(g.root, e.path, node);
        match AddNode(g, e, idSize)
        case None =>
        case Some(h) =>
          var c := AddEntry(Value(g), e, idSize).value;
          forall p | p in h.hardlinks
            ensures h.hardlinks[p] < |leaves| && p in c.leaves
              && LeafValue(leaves[h.hardlinks[p]]) == c.leaves[p]
          {
            assert (node.File? && p == e.path) || (p in g.hardlinks && h.hardlinks[p] == g.hardlinks[p]);
          }
          assert Value(h).leaves == c.leaves;
    }
  }

  lemma {:induction false} LinesRefine(g: Growing, lines: seq<bytes>, idSize: nat)
    requires Sound(g)
    ensures
      match AddParsed(g, lines, idSize)
      case None => AddLines(Value(g), lines, idSize) == None
      case Some(h) => Sound(h) && AddLines(Value(g), lines, idSize) == Some(Value(h))
    decreases |lines|
  {
    hide AddNode, AddEntry, Parse, Blank, Sound, Value;
    if lines != [] {
      if Blank(lines[0]) {
        LinesRefine(g, lines[1..], idSize);
      } else if Parse(lines[0]).Some? {
        var e := Parse(lines[0]).value;
        SoundDir(g);
        EntryRefines(g, e, idSize);
        if EntriesOf(lines[1..]).Some? {
          var es := EntriesOf(lines[1..]).value;
          assert ([e] + es)[1..] == es;
        }
        if AddNode(g, e, idSize).Some? {
          LinesRefine(AddNode(g, e, idSize).value, lines[1..], idSize);
        }
      }
    }
  }

  lemma SoundDir(g: Growing)
    requires Sound(g)
    ensures g.root.Dir? && Value(g).root.Dir?
  {
  }

  lemma FinishedValue(g: Growing)
    requires Sound(g)
    ensures
      var fs := Finished(g);
      fs.root == g.root && InRange(fs.root, |fs.leaves|) && ValueOf(fs.leaves, fs.root) == Value(g).root
  {
    hide Ids;
    SameValue(g.leaves, Finished(g).leaves, g.root);
  }

  lemma StartValue(root: Entry)
    requires StatFits(root)
    ensures Sound(Started(root)) && Value(Started(root)) == Built(Dir(StatOf(root), Nil), map[])
  {
    hide StatOf;
    var g := Started(root);
    assert g.root.entries.Empty? && EntriesInRange(g.root.entries, 0) && InRange(g.root, 0);
    assert ValuesOf(g.leaves, g.root.entries) == Nil && ValueOf(g.leaves, g.root) == Dir(StatOf(root), Nil);
    assert Value(g).leaves == map[];
  }

  /** The tree with shared leaves says what the entries say one by one. */
  lemma {:induction false} BuildRefines(lines: seq<bytes>, idSize: nat)
    ensures
      match Build(lines, idSize)
      case None => BuildLines(lines, idSize) == None
      case Some(fs) =>
        && fs.root.Dir? && InRange(fs.root, |fs.leaves|)
        && BuildLines(lines, idSize) == Some(ValueOf(fs.leaves, fs.root))
    decreases |lines|
  {
    hide AddLines, AddAll, Parse, Blank, StatOf, Finished;
    if lines != [] {
      if Blank(lines[0]) {
        BuildRefines(lines[1..], idSize);
      } else if Parse(lines[0]).Some? {
        var e := Parse(lines[0]).value;
        if EntriesOf(lines[1..]).Some? {
          var es := EntriesOf(lines[1..]).value;
          assert ([e] + es)[1..] == es;
        }
        if e.path == [] && StatFits(e) {
          var g := Started(e);
          StartValue(e);
          LinesRefine(g, lines[1..], idSize);
          match AddParsed(g, lines[1..], idSize)
          case None =>
          case Some(h) =>
            SoundDir(h);
            FinishedValue(h);
        }
      }
    }
  }

  // ---- who shares a leaf ----

  /** The entry makes a leaf of its own. */
  predicate Makes(e: Entry) {
    e.path != [] && !e.item.Directory? && !e.item.Hardlink?
  }

  /** The entries that make leaves, in order. */
  function Makers(es: seq<Entry>): seq<nat>
    decreases |es|
  {
    if es == [] then []
    else
      var n := |es| - 1;
      Makers(es[..n]) + (if Makes(es[n]) then [n] else [])
  }

  /** For each path that was ever given a file, the entry that made the file: the last one for
      the path, or for a hardlink that of its target. */
  function MadeBy(es: seq<Entry>): map<T.Path, nat>
    decreases |es|
  {
    if es == [] then map[]
    else
      var n := |es| - 1;
      var m, e := MadeBy(es[..n]), es[n];
      if Makes(e) then m[e.path := n]
      else if e.path != [] && e.item.Hardlink? && e.item.hardTarget in m then m[e.path := m[e.item.hardTarget]]
      else m
  }

  ghost predicate Increasing(ks: seq<nat>, n: nat) {
    && (forall i :: 0 <= i < |ks| ==> ks[i] < n)
    && forall i, j :: 0 <= i < j < |ks| ==> ks[i] < ks[j]
  }

  /** The leaf is what the entry says. */
  ghost predicate Says(e: Entry, idSize: nat, leaf: T.Leaf) {
    Makes(e) && StatFits(e) && InodeOf(e, idSize, map[]) == Some(LeafValue(leaf))
  }

  ghost predicate LeavesSaid(leaves: seq<T.Leaf>, es: seq<Entry>, idSize: nat) {
    && |Makers(es)| == |leaves| && Increasing(Makers(es), |es|)
    && forall k :: 0 <= k < |leaves| ==> Says(es[Makers(es)[k]], idSize, leaves[k])
  }

  ghost predicate LinksKnown(g: Growing, es: seq<Entry>)
    requires |Makers(es)| == |g.leaves|
  {
    && (forall p :: p in g.hardlinks <==> p in MadeBy(es))
    && forall p :: p in g.hardlinks ==>
         g.hardlinks[p] < |g.leaves| && MadeBy(es)[p] == Makers(es)[g.hardlinks[p]]
  }

  ghost predicate FilesKnown(root: T.Node, hardlinks: map<T.Path, nat>) {
    forall q: T.Path, id: nat :: T.Lookup(root, q) == Some(T.File(id)) ==>
      q in hardlinks && hardlinks[q] == id
  }

  ghost predicate Tracked(g: Growing, es: seq<Entry>, idSize: nat) {
    LeavesSaid(g.leaves, es, idSize) && LinksKnown(g, es) && FilesKnown(g.root, g.hardlinks)
  }

  lemma {:induction false} FindPutNode(es: T.Entries, n: bytes, node: T.Node, m: bytes)
    ensures T.Find(PutNode(es, n, node), m) == if m == n then Some(node) else T.Find(es, m)
  {
    if es.More? {
      FindPutNode(es.rest, n, node, m);
    }
  }

  /** A file found after an insertion is the one put there or was there before. */
  lemma {:induction false} FileAfterInsert(dir: T.Node, path: T.Path, node: T.Node, q: T.Path, id: nat)
    requires path != [] && InsertNode(dir, path, node).Some?
    requires node.Dir? ==> node.entries == T.Empty
    requires T.Lookup(InsertNode(dir, path, node).value, q) == Some(T.File(id))
    ensures if q == path then node == T.File(id) else T.Lookup(dir, q) == Some(T.File(id))
    decreases |path|
  {
    hide PutNode, T.Find;
    assert q != [];
    var n := path[0];
    var put := if |path| == 1 then node else InsertNode(T.Find(dir.entries, n).value, path[1..], node).value;
    FindPutNode(dir.entries, n, put, q[0]);
    if q[0] == n {
      if |path| > 1 {
        FileAfterInsert(T.Find(dir.entries, n).value, path[1..], node, q[1..], id);
        assert q == [n] + q[1..] && path == [n] + path[1..];
      } else if q[1..] != [] {
        assert node.Dir? && T.Find(node.entries, q[1..][0]) == None by {
          NothingThere(node, q[1..][0]);
        }
      } else {
        assert q == path;
      }
    }
  }

  lemma NothingThere(node: T.Node, n: bytes)
    requires node.Dir? ==> node.entries == T.Empty
    ensures node.Dir? ==> T.Find(node.entries, n) == None
  {
  }

  lemma NodeMade(g: Growing, e: Entry, idSize: nat)
    requires StatFits(e) && e.path != [] && NodeOf(g, e, idSize).Some?
    ensures
      var (node, leaves) := NodeOf(g, e, idSize).value;
      && (node.Dir? ==> node.entries == T.Empty && e.item.Directory? && leaves == g.leaves)
      && (e.item.Hardlink? ==>
            e.item.hardTarget in g.hardlinks && node == T.File(g.hardlinks[e.item.hardTarget]) && leaves == g.leaves)
      && (e.item.Directory? ==> node.Dir?)
      && (Makes(e) ==>
            && node == T.File(|g.leaves|) && |leaves| == |g.leaves| + 1 && leaves[..|g.leaves|] == g.leaves
            && Says(e, idSize, leaves[|g.leaves|]))
  {
    hide StatOf, FromHex;
  }

  lemma MakersMore(es: seq<Entry>, e: Entry)
    ensures Makers(es + [e]) == Makers(es) + (if Makes(e) then [|es|] else [])
    ensures
      var m := MadeBy(es);
      MadeBy(es + [e])
      == if Makes(e) then m[e.path := |es|]
         else if e.path != [] && e.item.Hardlink? && e.item.hardTarget in m then m[e.path := m[e.item.hardTarget]]
         else m
  {
    assert (es + [e])[..|es|] == es;
  }

  lemma LeavesStay(leaves: seq<T.Leaf>, more: seq<T.Leaf>, es: seq<Entry>, e: Entry, idSize: nat)
    requires LeavesSaid(leaves, es, idSize)
    requires if Makes(e) then |more| == |leaves| + 1 && more[..|leaves|] == leaves && Says(e, idSize, more[|leaves|])
             else more == leaves
    ensures LeavesSaid(more, es + [e], idSize)
  {
    hide Makers, Makes, Says;
    MakersMore(es, e);
    var all := es + [e];
    forall k | 0 <= k < |more|
      ensures Says(all[Makers(all)[k]], idSize, more[k])
    {
      if k < |leaves| {
        assert more[..|leaves|][k] == leaves[k];
        assert all[Makers(es)[k]] == es[Makers(es)[k]];
      }
    }
  }

  lemma TrackOne(g: Growing, es: seq<Entry>, e: Entry, idSize: nat)
    requires g.root.Dir? && Tracked(g, es, idSize) && AddNode(g, e, idSize).Some?
    ensures Tracked(AddNode(g, e, idSize).value, es + [e], idSize)
  {
    hide Makers, MadeBy, StatOf, NodeOf, InsertNode, LeavesSaid, Says;
    var h := AddNode(g, e, idSize).value;
    MakersMore(es, e);
    SaidSize(g.leaves, es, idSize);
    if e.path == [] {
      LeavesStay(g.leaves, g.leaves, es, e, idSize);
      SaidSize(h.leaves, es + [e], idSize);
      forall q: T.Path, id: nat | T.Lookup(h.root, q) == Some(T.File(id))
        ensures T.Lookup(g.root, q) == Some(T.File(id))
      {
      }
    } else {
      var (node, leaves) := NodeOf(g, e, idSize).value;
      NodeMade(g, e, idSize);
      LeavesStay(g.leaves, leaves, es, e, idSize);
      SaidSize(h.leaves, es + [e], idSize);
      forall q: T.Path, id: nat | T.Lookup(h.root, q) == Some(T.File(id))
        ensures q in h.hardlinks && h.hardlinks[q] == id
      {
        FileAfterInsert(g.root, e.path, node, q, id);
      }
    }
  }

  lemma SaidSize(leaves: seq<T.Leaf>, es: seq<Entry>, idSize: nat)
    requires LeavesSaid(leaves, es, idSize)
    ensures |Makers(es)| == |leaves|
  {
  }

  lemma {:induction false} TrackAll(g: Growing, done: seq<Entry>, es: seq<Entry>, idSize: nat)
    requires g.root.Dir? && Tracked(g, done, idSize) && AddAll(g, es, idSize).Some?
    ensures Tracked(AddAll(g, es, idSize).value, done + es, idSize)
    decreases |es|
  {
    hide Tracked, AddNode;
    if es == [] {
      assert done + es == done;
    } else {
      TrackOne(g, done, es[0], idSize);
      TrackAll(AddNode(g, es[0], idSize).value, done + [es[0]], es[1..], idSize);
      assert done + [es[0]] + es[1..] == done + es;
    }
  }

  lemma StartTracked(root: Entry, idSize: nat)
    requires StatFits(root)
    ensures Tracked(Started(root), [], idSize)
  {
    var g := Started(root);
    forall q: T.Path, id: nat | T.Lookup(g.root, q) == Some(T.File(id))
      ensures false
    {
      if q != [] {
        NothingThere(g.root, q[0]);
      }
    }
  }

  /** The file at a path is what the entry says that made it, and two paths share a leaf exactly
      when one entry made both: when hardlink lines join them. */
  lemma SharedIff(lines: seq<bytes>, idSize: nat, p: T.Path, q: T.Path)
    requires Build(lines, idSize).Some?
    requires var fs := Build(lines, idSize).value; T.IsLeafAt(fs, p) && T.IsLeafAt(fs, q)
    ensures
      var fs, es := Build(lines, idSize).value, EntriesOf(lines).value[1..];
      var m := MadeBy(es);
      && p in m && q in m && m[p] < |es| && T.LeafAt(fs, p) < |fs.leaves|
      && Says(es[m[p]], idSize, fs.leaves[T.LeafAt(fs, p)])
      && (T.LeafAt(fs, p) == T.LeafAt(fs, q) <==> m[p] == m[q])
  {
    hide Makers, MadeBy, AddAll, EntriesOf, Says, Ids, T.Lookup;
    var entries := EntriesOf(lines).value;
    var es := entries[1..];
    var g := AddAll(Started(entries[0]), es, idSize).value;
    StartTracked(entries[0], idSize);
    TrackAll(Started(entries[0]), [], es, idSize);
    assert [] + es == es;
    var fs := Build(lines, idSize).value;
    assert T.Lookup(g.root, p) == Some(T.File(T.LeafAt(fs, p)));
    assert T.Lookup(g.root, q) == Some(T.File(T.LeafAt(fs, q)));
    SameSaid(es[MadeBy(es)[p]], idSize, g.leaves[T.LeafAt(fs, p)], fs.leaves[T.LeafAt(fs, p)]);
  }

  lemma SameSaid(e: Entry, idSize: nat, a: T.Leaf, b: T.Leaf)
    requires Says(e, idSize, a) && LeafValue(a) == LeafValue(b)
    ensures Says(e, idSize, b)
  {
  }

  // ---- the counts ----

  /** Where the reference at a path stands among the references of the tree. */
  function Position(node: T.Node, p: T.Path): nat
    requires T.Lookup(node, p).Some? && T.Lookup(node, p).value.File?
    decreases node
  {
    match node
    case File(_) => 0
    case Dir(_, es) => EntryPosition(es, p)
  }

  function EntryPosition(es: T.Entries, p: T.Path): nat
    requires p != [] && T.Find(es, p[0]).Some?
    requires
      var r := T.Lookup(T.Find(es, p[0]).value, p[1..]);
      r.Some? && r.value.File?
    decreases es
  {
    if es.name == p[0] then Position(es.node, p[1..])
    else |Ids(es.node)| + EntryPosition(es.rest, p)
  }

  lemma {:induction false} PositionHolds(node: T.Node, p: T.Path)
    requires T.Lookup(node, p).Some? && T.Lookup(node, p).value.File?
    ensures Position(node, p) < |Ids(node)| && Ids(node)[Position(node, p)] == T.Lookup(node, p).value.id
    decreases node
  {
    if node.Dir? {
      EntryPositionHolds(node.entries, p);
    }
  }

  lemma {:induction false} EntryPositionHolds(es: T.Entries, p: T.Path)
    requires p != [] && T.Find(es, p[0]).Some?
    requires
      var r := T.Lookup(T.Find(es, p[0]).value, p[1..]);
      r.Some? && r.value.File?
    ensures
      && EntryPosition(es, p) < |EntryIds(es)|
      && EntryIds(es)[EntryPosition(es, p)] == T.Lookup(T.Find(es, p[0]).value, p[1..]).value.id
    decreases es
  {
    hide T.Lookup;
    if es.name == p[0] {
      PositionHolds(es.node, p[1..]);
    } else {
      EntryPositionHolds(es.rest, p);
    }
  }

  /** Different paths stand at different positions. */
  lemma {:induction false} PositionsDiffer(node: T.Node, p: T.Path, q: T.Path)
    requires T.Lookup(node, p).Some? && T.Lookup(node, p).value.File?
    requires T.Lookup(node, q).Some? && T.Lookup(node, q).value.File?
    requires p != q
    ensures Position(node, p) != Position(node, q)
    decreases node
  {
    if node.Dir? {
      EntryPositionsDiffer(node.entries, p, q);
    }
  }

  lemma {:induction false} EntryPositionsDiffer(es: T.Entries, p: T.Path, q: T.Path)
    requires p != [] && T.Find(es, p[0]).Some? && q != [] && T.Find(es, q[0]).Some? && p != q
    requires
      var r := T.Lookup(T.Find(es, p[0]).value, p[1..]);
      r.Some? && r.value.File?
    requires
      var r := T.Lookup(T.Find(es, q[0]).value, q[1..]);
      r.Some? && r.value.File?
    ensures EntryPosition(es, p) != EntryPosition(es, q)
    decreases es
  {
    hide T.Lookup;
    if es.name == p[0] && es.name == q[0] {
      assert p == [p[0]] + p[1..] && q == [q[0]] + q[1..];
      PositionsDiffer(es.node, p[1..], q[1..]);
    } else if es.name == p[0] {
      PositionHolds(es.node, p[1..]);
    } else if es.name == q[0] {
      PositionHolds(es.node, q[1..]);
    } else {
      EntryPositionsDiffer(es.rest, p, q);
    }
  }

  lemma TwoCounted(ids: seq<nat>, i: nat, j: nat)
    requires i < |ids| && j < |ids| && i != j && ids[i] == ids[j]
    ensures multiset(ids)[ids[i]] > 1
  {
    var a, b := if i < j then i else j, if i < j then j else i;
    assert ids == ids[..a] + [ids[a]] + ids[a + 1..b] + [ids[b]] + ids[b + 1..];
  }

  /** In a built tree a leaf reached by two paths is counted as such, which is what writing an
      image or a dumpfile from it relies on. */
  lemma BuiltIsCounted(lines: seq<bytes>, idSize: nat)
    requires Build(lines, idSize).Some?
    ensures T.SharingIsCounted(Build(lines, idSize).value)
  {
    hide Build, Ids, T.Lookup;
    var fs := Build(lines, idSize).value;
    BuildRefines(lines, idSize);
    CountsOfBuild(lines, idSize);
    forall p: T.Path, q: T.Path |
      T.IsLeafAt(fs, p) && T.IsLeafAt(fs, q) && p != q && T.LeafAt(fs, p) == T.LeafAt(fs, q)
      ensures T.LeafAt(fs, p) < |fs.leaves| && fs.leaves[T.LeafAt(fs, p)].links > 1
    {
      SharedIff(lines, idSize, p, q);
      PositionHolds(fs.root, p);
      PositionHolds(fs.root, q);
      PositionsDiffer(fs.root, p, q);
      TwoCounted(Ids(fs.root), Position(fs.root, p), Position(fs.root, q));
    }
  }

  lemma CountsOfBuild(lines: seq<bytes>, idSize: nat)
    requires Build(lines, idSize).Some?
    ensures
      var fs := Build(lines, idSize).value;
      forall i :: 0 <= i < |fs.leaves| ==> fs.leaves[i].links == multiset(Ids(fs.root))[i]
  {
    hide EntriesOf, AddAll, Ids;
  }

  // ---- without hardlink lines ----

  ghost predicate NoHardlinks(es: seq<Entry>) {
    forall i :: 0 <= i < |es| ==> !es[i].item.Hardlink?
  }

  lemma {:induction false} EachItsOwn(es: seq<Entry>)
    requires NoHardlinks(es)
    ensures forall p :: p in MadeBy(es) ==> MadeBy(es)[p] < |es| && es[MadeBy(es)[p]].path == p
    decreases |es|
  {
    if es != [] {
      var n := |es| - 1;
      EachItsOwn(es[..n]);
      assert es[..n] + [es[n]] == es;
    }
  }

  /** Each file of the tree is at one path. */
  ghost predicate OnePathEach(fs: T.FileSystem) {
    forall p: T.Path, q: T.Path ::
      T.IsLeafAt(fs, p) && T.IsLeafAt(fs, q) && T.LeafAt(fs, p) == T.LeafAt(fs, q) ==> p == q
  }

  lemma NothingShared(lines: seq<bytes>, idSize: nat)
    requires Build(lines, idSize).Some? && NoHardlinks(EntriesOf(lines).value[1..])
    ensures OnePathEach(Build(lines, idSize).value)
  {
    hide MadeBy, AddAll, Ids, T.Lookup, Says, Finished;
    var fs, es := Build(lines, idSize).value, EntriesOf(lines).value[1..];
    EachItsOwn(es);
    forall p: T.Path, q: T.Path |
      T.IsLeafAt(fs, p) && T.IsLeafAt(fs, q) && T.LeafAt(fs, p) == T.LeafAt(fs, q)
      ensures p == q
    {
      SharedIff(lines, idSize, p, q);
    }
  }
}
