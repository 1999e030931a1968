/** Collecting the objects an image refers to (erofs/reader.rs): the two iterators, the
    collector with its visited and to-visit sets, and the worklist loop. */
module ErofsObjects {
  import opened Bytes
  import opened Tree
  import opened ErofsFormat
  import opened ErofsReader

  /** What `next` does: panic, end, or an item. */
  datatype Step<+T> = Panic | Done | Item(value: T)

  function Prepend<T>(x: T, xs: Option<seq<T>>): Option<seq<T>> {
    match xs
    case None => None
    case Some(s) => Some([x] + s)
  }

  /** What the rest of an iteration gives after one step. */
  function After<T>(step: Step<T>, rest: Option<seq<T>>): Option<seq<T>> {
    match step
    case Panic => None
    case Done => Some([])
    case Item(x) => Prepend(x, rest)
  }

  class XAttrIter {
    var data: bytes

    constructor (data: bytes)
      ensures this.data == data
    {
      this.data := data;
    }

    method Next() returns (r: Step<XAttr>)
      modifies this
      ensures LocalXattrs(old(data)) == After(r, LocalXattrs(data))
      ensures r.Item? ==> |data| < |old(data)|
    {
      if data == [] {
        return Done;
      }
      match ParseXattr(data) {
        case None => r := Panic;
        case Some(p) =>
          data := p.rest;
          r := Item(p.value);
      }
    }
  }

  class DirectoryEntries {
    const block: bytes
    const length: nat
    var position: nat

    ghost function Remaining(): Option<seq<Entry>>
      reads this
    {
      EntriesFrom(block, length, position)
    }

    constructor (block: bytes, length: nat)
      ensures this.block == block && this.length == length && position == 0
    {
      this.block, this.length, position := block, length, 0;
    }

    method Next() returns (r: Step<Entry>)
      modifies this
      ensures old(Remaining()) == After(r, Remaining())
      ensures r.Item? ==> position == old(position) + 1 <= length
    {
      if position >= length {
        return Done;
      }
      match EntryAt(block, length, position) {
        case None => r := Panic;
        case Some(e) =>
          position := position + 1;
          r := Item(e);
      }
    }
  }

  // ---- what a visit is about ----

  /** The object named by one attribute, if it is a valid metacopy record. */
  function AttrObject(alg: Algorithm, x: XAttr): Option<bytes> {
    if x.prefix == TRUSTED && x.suffix == METACOPY_SUFFIX then MetacopyDigest(alg, x.value) else None
  }

  ghost function AttrObjects(alg: Algorithm, xs: seq<XAttr>): set<bytes> {
    set x | x in xs && AttrObject(alg, x).Some? :: AttrObject(alg, x).value
  }

  ghost function EntryNids(es: seq<Entry>): set<nat> {
    set e | e in es && !IsDot(e.name) :: e.nid
  }

  /** The objects inode `nid` refers to; `None` when reading it panics. */
  ghost function NidObjects(img: Img, alg: Algorithm, nid: nat): Option<set<bytes>> {
    match ReadInode(img, nid)
    case None => None
    case Some(v) =>
      match AllXattrs(img, v)
      case None => None
      case Some(xs) => Some(AttrObjects(alg, xs))
  }

  /** The inodes listed by `nid`, without "." and "..". */
  ghost function NidChildren(img: Img, nid: nat): Option<set<nat>> {
    match ReadInode(img, nid)
    case None => None
    case Some(v) =>
      if !IsDir(v.mode) then Some({})
      else
        match DirEntries(img, v)
        case None => None
        case Some(es) => Some(EntryNids(es))
  }

  ghost predicate Readable(img: Img, alg: Algorithm, nid: nat) {
    NidObjects(img, alg, nid).Some? && NidChildren(img, nid).Some?
  }

  ghost predicate Lists(img: Img, a: nat, b: nat) {
    NidChildren(img, a).Some? && b in NidChildren(img, a).value
  }

  /** A way from the root down directory entries. */
  ghost predicate Way(img: Img, way: seq<nat>)
    decreases |way|
  {
    && way != []
    && var n := |way| - 1;
    if n == 0 then way[0] == img.rootNid
    else Way(img, way[..n]) && Lists(img, way[n - 1], way[n])
  }

  ghost predicate Reachable(img: Img, nid: nat) {
    exists way :: Way(img, way) && way[|way| - 1] == nid
  }

  lemma ReachableRoot(img: Img)
    ensures Reachable(img, img.rootNid)
  {
    assert Way(img, [img.rootNid]);
  }

  lemma ReachableStep(img: Img, a: nat, b: nat)
    requires Reachable(img, a) && Lists(img, a, b)
    ensures Reachable(img, b)
  {
    hide Lists;
    var way :| Way(img, way) && way[|way| - 1] == a;
    assert (way + [b])[..|way|] == way;
    assert Way(img, way + [b]) && (way + [b])[|way + [b]| - 1] == b;
  }

  /** A set that holds the root and everything its members list holds every reachable inode. */
  lemma {:induction false} ClosedHoldsWay(img: Img, s: set<nat>, way: seq<nat>)
    requires img.rootNid in s && (forall a, b :: a in s && Lists(img, a, b) ==> b in s)
    requires Way(img, way)
    ensures way[|way| - 1] in s
    decreases |way|
  {
    hide Lists;
    var n := |way| - 1;
    if n > 0 {
      ClosedHoldsWay(img, s, way[..n]);
    }
  }

  // ---- the collector ----

  class ObjectCollector {
    const alg: Algorithm
    var visitedNids: set<nat>
    var nidsToVisit: set<nat>
    var objects: set<bytes>
    /** The inodes in the order they were visited. */
    ghost var visits: seq<nat>

    constructor (alg: Algorithm)
      ensures this.alg == alg && visitedNids == nidsToVisit == {} && objects == {} && visits == []
    {
      this.alg := alg;
      visitedNids, nidsToVisit, objects, visits := {}, {}, {}, [];
    }

    method VisitXattr(x: XAttr)
      modifies `objects
      ensures objects == old(objects) + AttrObjects(alg, [x])
    {
      AttrObjectsOf(alg, x, []);
      if x.prefix != TRUSTED {
        return;
      }
      if x.suffix != METACOPY_SUFFIX {
        return;
      }
      var digest := MetacopyDigest(alg, x.value);
      if digest.Some? {
        objects := objects + {digest.value};
      }
    }

    /** `false` stands for a panic. */
    method VisitXattrs(img: Img, section: bytes) returns (ok: bool)
      modifies `objects
      ensures ok <==> SectionXattrs(img, section).Some?
      ensures ok ==> objects == old(objects) + AttrObjects(alg, SectionXattrs(img, section).value)
    {
      hide LocalXattrs, SharedXattr, AttrObjects, AttrObject;
      AttrObjectsOf(alg, XAttr(0, [], []), []);
      var header := Record(XATTRS_WIDTHS, section);
      if header.None? {
        return false;
      }
      var ids := Ids(header.value[1], section[Sum(XATTRS_WIDTHS)..]);
      if ids.None? {
        return false;
      }
      ghost var shared: seq<XAttr> := [];
      var i := 0;
      ghost var all := SharedXattrs(img, ids.value.value);
      assert ids.value.value[0..] == ids.value.value;
      JoinNone(all);
      while i < |ids.value.value|
        invariant 0 <= i <= |ids.value.value|
        invariant all == Join(shared, SharedXattrs(img, ids.value.value[i..]))
        invariant objects == old(objects) + AttrObjects(alg, shared)
      {
        assert ids.value.value[i..][1..] == ids.value.value[i + 1..];
        var x := SharedXattr(img, ids.value.value[i]);
        if x.None? {
          LocalMayPanic(img, section);
          return false;
        }
        VisitXattr(x.value);
        AttrObjectsOf(alg, x.value, shared);
        JoinStep(shared, x.value, SharedXattrs(img, ids.value.value[i + 1..]));
        shared := shared + [x.value];
        i := i + 1;
      }
      assert shared + [] == shared && ids.value.value[i..] == [];
      assert all == Some(shared);
      ghost var local: seq<XAttr> := [];
      var iter := new XAttrIter(ids.value.rest);
      ghost var locals := LocalXattrs(iter.data);
      JoinNone(locals);
      assert shared + [] == shared;
      while true
        invariant locals == Join(local, LocalXattrs(iter.data))
        invariant objects == old(objects) + AttrObjects(alg, shared + local)
        decreases |iter.data|
      {
        ghost var before := iter.data;
        var step := iter.Next();
        match step {
          case Panic =>
            return false;
          case Done =>
            assert local + [] == local;
            return true;
          case Item(x) =>
            VisitXattr(x);
            AttrObjectsOf(alg, x, shared + local);
            JoinStep(local, x, LocalXattrs(iter.data));
            assert shared + local + [x] == shared + (local + [x]);
            local := local + [x];
        }
      }
    }

    method VisitDirectoryBlock(block: bytes) returns (ok: bool)
      modifies `nidsToVisit
      ensures ok <==> BlockEntries(block).Some?
      ensures ok ==>
        nidsToVisit == old(nidsToVisit) + (EntryNids(BlockEntries(block).value) - visitedNids)
    {
      hide EntriesFrom, EntryAt;
      var n := EntryCount(block);
      if n.None? {
        return false;
      }
      var iter := new DirectoryEntries(block, n.value);
      ghost var seen: seq<Entry> := [];
      ghost var all := iter.Remaining();
      JoinNone(all);
      while true
        invariant all == Join(seen, iter.Remaining())
        invariant iter.block == block && iter.length == n.value
        invariant nidsToVisit == old(nidsToVisit) + (EntryNids(seen) - visitedNids)
        decreases iter.length - iter.position
      {
        var step := iter.Next();
        match step {
          case Panic =>
            return false;
          case Done =>
            assert seen + [] == seen;
            return true;
          case Item(e) =>
            JoinStep(seen, e, iter.Remaining());
            if e.name != DOT && e.name != DOTDOT {
              if e.nid !in visitedNids {
                nidsToVisit := nidsToVisit + {e.nid};
              }
            }
            seen := seen + [e];
        }
      }
    }

    method VisitDirectory(img: Img, v: View) returns (ok: bool)
      modifies `nidsToVisit
      ensures ok <==> DirEntries(img, v).Some?
      ensures ok ==>
        nidsToVisit == old(nidsToVisit) + (EntryNids(DirEntries(img, v).value) - visitedNids)
    {
      hide BlockEntries, EntryNids, ReadBlock;
      var r := BlocksOf(v, img.blkszbits);
      var id := r.start;
      ghost var seen: seq<Entry> := [];
      ghost var all := BlockRangeEntries(img, r.start, r.end);
      JoinNone(all);
      EntryNidsOf([], []);
      while id < r.end
        invariant all == Join(seen, BlockRangeEntries(img, id, r.end))
        invariant nidsToVisit == old(nidsToVisit) + (EntryNids(seen) - visitedNids)
        decreases r.end - id
      {
        var block := ReadBlock(img, id);
        if block.None? {
          return false;
        }
        var good := VisitDirectoryBlock(block.value);
        if !good {
          return false;
        }
        ghost var es := BlockEntries(block.value).value;
        EntryNidsOf(seen, es);
        JoinMore(seen, es, BlockRangeEntries(img, id + 1, r.end));
        seen := seen + es;
        id := id + 1;
      }
      assert seen + [] == seen;
      var inline := InlineOf(v);
      if inline.None? {
        return false;
      }
      if inline.value == [] {
        return true;
      }
      ok := VisitDirectoryBlock(inline.value);
      if ok {
        EntryNidsOf(seen, BlockEntries(inline.value).value);
      }
    }

    /** An inode is never visited twice: the assert of the source cannot fail. */
    method VisitNid(img: Img, nid: nat) returns (ok: bool)
      requires nid !in visitedNids
      modifies this
      ensures ok <==> Readable(img, alg, nid)
      ensures visitedNids == old(visitedNids) + {nid} && visits == old(visits) + [nid]
      ensures ok ==> objects == old(objects) + NidObjects(img, alg, nid).value
      ensures ok ==> nidsToVisit == old(nidsToVisit) + (NidChildren(img, nid).value - visitedNids)
    {
      hide AttrObjects, EntryNids, DirEntries, SectionXattrs, ReadInode;
      var firstTime := nid !in visitedNids;
      visitedNids := visitedNids + {nid};
      visits := visits + [nid];
      assert firstTime;
      var inode := ReadInode(img, nid);
      if inode.None? {
        return false;
      }
      var v := inode.value;
      AllXattrsIs(img, v, alg);
      if v.icount != 0 {
        var section := Slice(v.data, 0, XattrSize(v.icount));
        if section.None? {
          return false;
        }
        var good := VisitXattrs(img, section.value);
        if !good {
          return false;
        }
      }
      if IsDir(v.mode) {
        ok := VisitDirectory(img, v);
      } else {
        ok := true;
      }
    }
  }

  /** What holds between visits. */
  ghost predicate Consistent(img: Img, alg: Algorithm, visited: set<nat>, toVisit: set<nat>,
                             objects: set<bytes>, visits: seq<nat>)
  {
    && visited !! toVisit
    && (forall n :: n in visited + toVisit ==> Reachable(img, n))
    && img.rootNid in visited + toVisit
    && (forall n :: n in visited ==> Readable(img, alg, n))
    && (forall a, b :: a in visited && Lists(img, a, b) ==> b in visited + toVisit)
    && (forall id :: id in objects <==> exists n :: n in visited && Refers(img, alg, n, id))
    && (forall n :: n in visited <==> n in visits)
    && forall i, j :: 0 <= i < j < |visits| ==> visits[i] != visits[j]
  }

  lemma VisitKeeps(img: Img, alg: Algorithm, nid: nat, visited: set<nat>, toVisit: set<nat>,
                   objects: set<bytes>, visits: seq<nat>)
    requires Consistent(img, alg, visited, toVisit, objects, visits) && nid in toVisit
    requires Readable(img, alg, nid)
    ensures
      var objs, children := NidObjects(img, alg, nid).value, NidChildren(img, nid).value;
      Consistent(img, alg, visited + {nid}, toVisit - {nid} + (children - (visited + {nid})),
                 objects + objs, visits + [nid])
  {
    hide Reachable, NidObjects, NidChildren;
    var objs, children := NidObjects(img, alg, nid).value, NidChildren(img, nid).value;
    var visited', toVisit' := visited + {nid}, toVisit - {nid} + (children - (visited + {nid}));
    forall n | n in children
      ensures Reachable(img, n)
    {
      ReachableStep(img, nid, n);
    }
    assert visited + toVisit <= visited' + toVisit';
    forall id
      ensures id in objects + objs <==> exists n :: n in visited' && Refers(img, alg, n, id)
    {
      if id in objs {
        assert nid in visited' && Refers(img, alg, nid, id);
      }
    }
  }

  ghost predicate Refers(img: Img, alg: Algorithm, nid: nat, id: bytes) {
    NidObjects(img, alg, nid).Some? && id in NidObjects(img, alg, nid).value
  }

  /** Attributes of a whole section: shared ones looked up, then local ones. */
  function SectionXattrs(img: Img, section: bytes): Option<seq<XAttr>> {
    match ParseXattrs(section)
    case None => None
    case Some(x) =>
      match SharedXattrs(img, x.shared)
      case None => None
      case Some(shared) => Some(shared + x.local)
  }

  lemma LocalMayPanic(img: Img, section: bytes)
    requires
      match Record(XATTRS_WIDTHS, section)
      case None => false
      case Some(vs) =>
        match Ids(vs[1], section[Sum(XATTRS_WIDTHS)..])
        case None => false
        case Some(p) => SharedXattrs(img, p.value).None?
    ensures SectionXattrs(img, section).None?
  {
    hide SharedXattrs, LocalXattrs, Ids;
  }

  lemma AllXattrsIs(img: Img, v: View, alg: Algorithm)
    ensures v.icount == 0 ==> AllXattrs(img, v) == Some([]) && AttrObjects(alg, []) == {}
    ensures v.icount != 0 ==>
      var section := Slice(v.data, 0, XattrSize(v.icount));
      && (section.None? ==> AllXattrs(img, v).None?)
      && (section.Some? ==> AllXattrs(img, v) == SectionXattrs(img, section.value))
  {
    hide SharedXattrs, ParseXattrs;
  }

  lemma AttrObjectsOf(alg: Algorithm, x: XAttr, xs: seq<XAttr>)
    ensures AttrObjects(alg, xs + [x]) == AttrObjects(alg, xs) + AttrObjects(alg, [x])
    ensures AttrObjects(alg, [x])
         == (if AttrObject(alg, x).Some? then {AttrObject(alg, x).value} else {})
    ensures AttrObjects(alg, []) == {}
  {
    hide AttrObject;
  }

  lemma EntryNidsOf(a: seq<Entry>, b: seq<Entry>)
    ensures EntryNids(a + b) == EntryNids(a) + EntryNids(b) && EntryNids([]) == {}
  {
  }

  function Join<T>(a: seq<T>, b: Option<seq<T>>): Option<seq<T>> {
    match b
    case None => None
    case Some(s) => Some(a + s)
  }

  lemma JoinNone<T>(b: Option<seq<T>>)
    ensures Join([], b) == b
  {
    if b.Some? {
      assert [] + b.value == b.value;
    }
  }

  lemma JoinStep<T>(a: seq<T>, x: T, b: Option<seq<T>>)
    ensures Join(a, Prepend(x, b)) == Join(a + [x], b)
  {
    if b.Some? {
      assert a + ([x] + b.value) == a + [x] + b.value;
    }
  }

  lemma JoinMore<T>(a: seq<T>, es: seq<T>, b: Option<seq<T>>)
    ensures b.None? ==> Join(a + es, b).None?
    ensures b.Some? ==> Join(a, Some(es + b.value)) == Join(a + es, b)
  {
    if b.Some? {
      assert a + (es + b.value) == a + es + b.value;
    }
  }

  // ---- the worklist ----

  /** `BTreeSet::pop_first`. */
  method PopFirst(s: set<nat>) returns (n: nat, rest: set<nat>)
    requires s != {}
    ensures n in s && rest == s - {n} && forall m :: m in s ==> n <= m
  {
    n :| n in s;
    var left := s;
    while left != {}
      invariant n in s && left <= s && forall m :: m in s - left ==> n <= m
      decreases left
    {
      var m :| m in left;
      assert forall k :: k in s - (left - {m}) ==> k == m || k in s - left;
      if m < n {
        n := m;
      }
      left := left - {m};
    }
    assert s - left == s;
    rest := s - {n};
  }

  /** All inode numbers that can be read lie inside the image. */
  lemma ReadableBelow(img: Img, alg: Algorithm, nid: nat)
    requires Readable(img, alg, nid)
    ensures nid < |img.inodes|
  {
    hide AllXattrs, DirEntries, ReadExtended, ReadCompact;
  }

  function Below(n: nat): (s: set<nat>)
    ensures |s| == n && forall k: int :: k in s <==> 0 <= k < n
  {
    if n == 0 then {} else Below(n - 1) + {n - 1}
  }

  lemma {:induction false} AllVisited(img: Img, alg: Algorithm, visited: set<nat>, objects: set<bytes>,
                                      visits: seq<nat>)
    requires Consistent(img, alg, visited, {}, objects, visits)
    ensures forall n :: Reachable(img, n) <==> n in visited
  {
    hide Lists, Readable, Refers;
    assert visited + {} == visited;
    forall n | Reachable(img, n)
      ensures n in visited
    {
      var way :| Way(img, way) && way[|way| - 1] == n;
      ClosedHoldsWay(img, visited, way);
    }
  }

  lemma Finished(img: Img, alg: Algorithm, visited: set<nat>, objects: set<bytes>, visits: seq<nat>)
    requires Consistent(img, alg, visited, {}, objects, visits)
    ensures forall n :: Reachable(img, n) <==> n in visits
    ensures forall n :: Reachable(img, n) ==> Readable(img, alg, n)
    ensures forall id :: id in objects <==> exists n :: Reachable(img, n) && Refers(img, alg, n, id)
  {
    hide Reachable, Lists, Readable, Refers;
    AllVisited(img, alg, visited, objects, visits);
  }

  lemma Started(img: Img, alg: Algorithm)
    ensures Consistent(img, alg, {}, {img.rootNid}, {}, [])
  {
    ReachableRoot(img);
  }

  lemma Picked(img: Img, alg: Algorithm, visited: set<nat>, toVisit: set<nat>, objects: set<bytes>,
               visits: seq<nat>, nid: nat)
    requires Consistent(img, alg, visited, toVisit, objects, visits) && nid in toVisit
    ensures nid !in visited && Reachable(img, nid)
    ensures forall i, j :: 0 <= i < j < |visits + [nid]| ==> (visits + [nid])[i] != (visits + [nid])[j]
  {
    hide Reachable, Lists, Readable, Refers;
  }

  lemma Shrinks(n: nat, visited: set<nat>, nid: nat)
    requires nid !in visited && nid < n
    ensures |Below(n) - (visited + {nid})| < |Below(n) - visited|
  {
    assert Below(n) - (visited + {nid}) == (Below(n) - visited) - {nid};
    assert nid in Below(n) - visited;
  }

  /** `collect_objects` after opening.  It panics exactly when some reachable inode cannot be
      read; otherwise it has visited every reachable inode once, whatever cycles and hardlinks
      the directories have, and returns every object they refer to. */
  method Collect(img: Img, alg: Algorithm) returns (r: Option<set<bytes>>, ghost visits: seq<nat>)
    ensures r.None? <==> exists n :: Reachable(img, n) && !Readable(img, alg, n)
    ensures r.Some? ==> forall id :: id in r.value <==>
      exists n :: Reachable(img, n) && Refers(img, alg, n, id)
    ensures r.Some? ==> forall n :: Reachable(img, n) <==> n in visits
    ensures forall i, j :: 0 <= i < j < |visits| ==> visits[i] != visits[j]
  {
    hide *;
    var c := new ObjectCollector(alg);
    c.nidsToVisit := {img.rootNid};
    Started(img, alg);
    visits := [];
    while c.nidsToVisit != {}
      invariant c.alg == alg && visits == c.visits
      invariant Consistent(img, alg, c.visitedNids, c.nidsToVisit, c.objects, c.visits)
      invariant forall i, j :: 0 <= i < j < |visits| ==> visits[i] != visits[j]
      decreases |Below(|img.inodes|) - c.visitedNids|
    {
      ghost var visited, toVisit, objects := c.visitedNids, c.nidsToVisit, c.objects;
      var nid, rest := PopFirst(c.nidsToVisit);
      c.nidsToVisit := rest;
      Picked(img, alg, visited, toVisit, objects, visits, nid);
      var ok := c.VisitNid(img, nid);
      if !ok {
        return None, c.visits;
      }
      ReadableBelow(img, alg, nid);
      Shrinks(|img.inodes|, visited, nid);
      VisitKeeps(img, alg, nid, visited, toVisit, objects, visits);
      visits := c.visits;
    }
    Finished(img, alg, c.visitedNids, c.objects, c.visits);
    r := Some(c.objects);
  }

  /** `collect_objects`. */
  method CollectObjects(image: bytes, alg: Algorithm) returns (r: Option<set<bytes>>)
    ensures r.None? <==>
      (Open(image).None?
       || exists n :: Reachable(Open(image).value, n) && !Readable(Open(image).value, alg, n))
    ensures r.Some? ==> Open(image).Some? && forall id :: id in r.value <==>
      exists n :: Reachable(Open(image).value, n) && Refers(Open(image).value, alg, n, id)
  {
    hide *;
    var img := Open(image);
    if img.None? {
      return None;
    }
    ghost var visits;
    r, visits := Collect(img.value, alg);
  }
}
