/** Garbage collection of the repository (repository.rs): the walk that marks live objects,
    the sweep, and the pruning of links. */
module RepositoryGc {
  import opened Bytes

  type Id = bytes
  type Name = bytes

  /** `links` are the first-level symlinks to objects; `refs` are the symlinks below `refs/`,
      by path, with the name of the first-level entry they point to. */
  datatype Category = Category(links: map<Name, Id>, refs: map<Name, Name>)

  datatype Store = Store(objects: map<Id, bytes>, images: Category, streams: Category)

  datatype NamedRef = NamedRef(name: Name, id: Id)

  datatype StreamView = StreamView(objectRefs: seq<Id>, namedRefs: seq<NamedRef>)

  /** How the bytes of an object parse as a splitstream and as an image. */
  datatype Formats = Formats(stream: bytes -> Option<StreamView>, image: bytes -> Option<seq<Id>>)

  function StreamAt(f: Formats, s: Store, id: Id): Option<StreamView> {
    if id in s.objects then f.stream(s.objects[id]) else None
  }

  function ImageAt(f: Formats, s: Store, id: Id): Option<seq<Id>> {
    if id in s.objects then f.image(s.objects[id]) else None
  }

  // ---- what is live ----

  /** Names that keep their entry alive: the targets of refs, and the roots of the caller. */
  ghost predicate RootName(c: Category, extra: set<Name>, n: Name) {
    (exists r :: r in c.refs && c.refs[r] == n) || (n in extra && n in c.links)
  }

  /** Every root name has its entry. */
  ghost predicate RootsResolve(c: Category, extra: set<Name>) {
    forall n :: RootName(c, extra, n) ==> n in c.links
  }

  ghost predicate RootImage(s: Store, extra: set<Name>, id: Id) {
    exists n :: RootName(s.images, extra, n) && n in s.images.links && s.images.links[n] == id
  }

  ghost predicate RootStream(s: Store, extra: set<Name>, id: Id) {
    exists n :: RootName(s.streams, extra, n) && n in s.streams.links && s.streams.links[n] == id
  }

  ghost predicate HasLink(c: Category, id: Id) {
    exists n :: n in c.links && c.links[n] == id
  }

  ghost predicate Names(v: StreamView, id: Id) {
    exists i :: 0 <= i < |v.namedRefs| && v.namedRefs[i].id == id
  }

  /** Stream `a` names stream `b`, and `b` has an entry in `streams/`. */
  ghost predicate StreamStep(f: Formats, s: Store, a: Id, b: Id) {
    && StreamAt(f, s, a).Some? && Names(StreamAt(f, s, a).value, b)
    && HasLink(s.streams, b)
  }

  ghost predicate StreamWay(f: Formats, s: Store, extra: set<Name>, way: seq<Id>)
    decreases |way|
  {
    && way != []
    && var n := |way| - 1;
    if n == 0 then RootStream(s, extra, way[0])
    else StreamWay(f, s, extra, way[..n]) && StreamStep(f, s, way[n - 1], way[n])
  }

  ghost predicate StreamReached(f: Formats, s: Store, extra: set<Name>, id: Id) {
    exists way :: way != [] && StreamWay(f, s, extra, way) && way[|way| - 1] == id
  }

  /** The object is mentioned by a reached stream. */
  ghost predicate MentionedBy(f: Formats, s: Store, stream: Id, id: Id) {
    && StreamAt(f, s, stream).Some?
    && var v := StreamAt(f, s, stream).value;
    id in v.objectRefs || Names(v, id)
  }

  ghost predicate StreamLive(f: Formats, s: Store, extra: set<Name>, id: Id) {
    || StreamReached(f, s, extra, id)
    || exists r :: StreamReached(f, s, extra, r) && MentionedBy(f, s, r, id)
  }

  ghost predicate InImage(f: Formats, s: Store, image: Id, id: Id) {
    ImageAt(f, s, image).Some? && id in ImageAt(f, s, image).value
  }

  ghost predicate ImageLive(f: Formats, s: Store, extra: set<Name>, id: Id) {
    || RootImage(s, extra, id)
    || exists r :: RootImage(s, extra, r) && InImage(f, s, r, id)
  }

  /** The closure of the roots under object, stream and image references. */
  ghost predicate Live(f: Formats, s: Store, extra: set<Name>, id: Id) {
    ImageLive(f, s, extra, id) || StreamLive(f, s, extra, id)
  }

  /** What the walk needs: roots resolve, and root images and reached streams can be read. */
  ghost predicate Sound(f: Formats, s: Store, extra: set<Name>) {
    && RootsResolve(s.images, extra) && RootsResolve(s.streams, extra)
    && (forall id :: RootImage(s, extra, id) ==> ImageAt(f, s, id).Some?)
    && (forall id :: StreamReached(f, s, extra, id) ==> StreamAt(f, s, id).Some?)
  }

  lemma ReachedRoot(f: Formats, s: Store, extra: set<Name>, id: Id)
    requires RootStream(s, extra, id)
    ensures StreamReached(f, s, extra, id)
  {
    assert StreamWay(f, s, extra, [id]);
  }

  lemma ReachedStep(f: Formats, s: Store, extra: set<Name>, a: Id, b: Id)
    requires StreamReached(f, s, extra, a) && StreamStep(f, s, a, b)
    ensures StreamReached(f, s, extra, b)
  {
    hide RootStream, StreamStep;
    var way :| way != [] && StreamWay(f, s, extra, way) && way[|way| - 1] == a;
    var longer := way + [b];
    assert longer[..|longer| - 1] == way && longer[|longer| - 2] == a;
    assert longer != [] && StreamWay(f, s, extra, longer) && longer[|longer| - 1] == b;
  }

  lemma {:induction false} ClosedHoldsStreams(f: Formats, s: Store, extra: set<Name>, ids: set<Id>,
                                              way: seq<Id>)
    requires forall id :: RootStream(s, extra, id) ==> id in ids
    requires forall a, b :: a in ids && StreamStep(f, s, a, b) ==> b in ids
    requires StreamWay(f, s, extra, way)
    ensures way[|way| - 1] in ids
    decreases |way|
  {
    hide RootStream, StreamStep;
    var n := |way| - 1;
    if n > 0 {
      ClosedHoldsStreams(f, s, extra, ids, way[..n]);
    }
  }

  // ---- the walk ----

  /** The two sets the walk shares between its recursive calls. */
  class GcWalk {
    var walkedStreams: set<Name>
    var liveObjects: set<Id>

    constructor ()
      ensures walkedStreams == {} && liveObjects == {}
    {
      walkedStreams, liveObjects := {}, {};
    }
  }

  datatype CategoryEntry = CategoryEntry(id: Id, name: Name)

  /** A map from object to stream name: one of the names, when there are several. */
  ghost predicate NameMap(c: Category, names: map<Id, Name>) {
    && (forall id :: id in names ==> names[id] in c.links && c.links[names[id]] == id)
    && (forall n :: n in c.links ==> c.links[n] in names)
  }

  /** Everything the stream called `n` mentions has been marked, and the streams it names have
      been walked. */
  ghost predicate Walked(f: Formats, s: Store, names: map<Id, Name>, walked: set<Name>, live: set<Id>, n: Name)
  {
    && n in s.streams.links && StreamAt(f, s, s.streams.links[n]).Some?
    && var v := StreamAt(f, s, s.streams.links[n]).value;
    && (forall i :: 0 <= i < |v.objectRefs| ==> v.objectRefs[i] in live)
    && (forall i :: 0 <= i < |v.namedRefs| ==> NamedWalked(names, walked, live, v.namedRefs[i].id))
  }

  ghost predicate NamedWalked(names: map<Id, Name>, walked: set<Name>, live: set<Id>, id: Id) {
    id in live && (id in names ==> names[id] in walked)
  }

  /** Only names of reached streams have been walked since, and only live objects marked. */
  ghost predicate OnlyLive(f: Formats, s: Store, extra: set<Name>, walked: set<Name>, live: set<Id>,
                           walked': set<Name>, live': set<Id>)
  {
    && walked <= walked' && live <= live'
    && (forall n :: n in walked' - walked ==>
          n in s.streams.links && StreamReached(f, s, extra, s.streams.links[n]))
    && (forall id :: id in live' - live ==> StreamLive(f, s, extra, id))
  }

  /** The streams walked since then are done with. */
  ghost predicate AllWalked(f: Formats, s: Store, names: map<Id, Name>, walked: set<Name>,
                            walked': set<Name>, live': set<Id>)
  {
    forall n :: n in walked' - walked ==> Walked(f, s, names, walked', live', n)
  }

  lemma WalkedGrows(f: Formats, s: Store, names: map<Id, Name>, walked: set<Name>,
                    w: set<Name>, l: set<Id>, w': set<Name>, l': set<Id>)
    requires AllWalked(f, s, names, walked, w, l) && w <= w' && l <= l'
    requires AllWalked(f, s, names, w, w', l')
    ensures AllWalked(f, s, names, walked, w', l')
  {
    forall n | n in w' - walked
      ensures Walked(f, s, names, w', l', n)
    {
      if n in w {
        assert n in w - walked;
      }
    }
  }

  lemma LiveGrows(f: Formats, s: Store, extra: set<Name>, w: set<Name>, l: set<Id>,
                  w': set<Name>, l': set<Id>, w'': set<Name>, l'': set<Id>)
    requires OnlyLive(f, s, extra, w, l, w', l') && OnlyLive(f, s, extra, w', l', w'', l'')
    ensures OnlyLive(f, s, extra, w, l, w'', l'')
  {
    hide StreamLive, StreamReached;
    forall n | n in w'' - w
      ensures n in s.streams.links && StreamReached(f, s, extra, s.streams.links[n])
    {
      assert n in w' - w || n in w'' - w';
    }
    forall id | id in l'' - l
      ensures StreamLive(f, s, extra, id)
    {
      assert id in l' - l || id in l'' - l';
    }
  }

  /** `walk_streams`.  It ends, whatever cycles the streams form: each call that goes on walks
      a name for the first time.  `false` is an error: a reached stream that cannot be read. */
  method WalkStreams(f: Formats, s: Store, ghost extra: set<Name>, names: map<Id, Name>, name: Name,
                     walk: GcWalk) returns (ok: bool)
    requires NameMap(s.streams, names) && name in s.streams.links
    requires StreamReached(f, s, extra, s.streams.links[name])
    modifies walk
    ensures ok ==> name in walk.walkedStreams
    ensures ok ==> AllWalked(f, s, names, old(walk.walkedStreams), walk.walkedStreams, walk.liveObjects)
    ensures ok ==> OnlyLive(f, s, extra, old(walk.walkedStreams), old(walk.liveObjects),
                            walk.walkedStreams, walk.liveObjects)
    ensures !ok ==> !Sound(f, s, extra)
    decreases |s.streams.links.Keys - walk.walkedStreams|
  {
    hide *;
    if name in walk.walkedStreams {
      NothingNew(f, s, extra, names, walk.walkedStreams, walk.liveObjects);
      return true;
    }
    ghost var walked, live := walk.walkedStreams, walk.liveObjects;
    FewerLeft(s.streams.links.Keys, walked, name);
    walk.walkedStreams := walk.walkedStreams + {name};
    Enter(f, s, extra, names, walked, live, name);

    var id := s.streams.links[name];
    var view := StreamAt(f, s, id);
    if view.None? {
      Unreadable(f, s, extra, id);
      return false;
    }
    var v := view.value;
    var i := 0;
    MarkNone(names, v, walk.walkedStreams, walk.liveObjects);
    while i < |v.objectRefs|
      invariant 0 <= i <= |v.objectRefs| && walk.walkedStreams == walked + {name}
      invariant RefsMarked(v, i, walk.liveObjects)
      invariant OnlyLive(f, s, extra, walked, live, walked + {name}, walk.liveObjects)
    {
      MarkRef(f, s, extra, id, v, i, walked, live, walked + {name}, walk.liveObjects);
      walk.liveObjects := walk.liveObjects + {v.objectRefs[i]};
      i := i + 1;
    }
    Enter(f, s, extra, names, walked, walk.liveObjects, name);
    MarkNone(names, v, walk.walkedStreams, walk.liveObjects);
    i := 0;
    while i < |v.namedRefs|
      invariant 0 <= i <= |v.namedRefs| && walked + {name} <= walk.walkedStreams
      invariant RefsMarked(v, |v.objectRefs|, walk.liveObjects)
      invariant NamedMarked(names, v, i, walk.walkedStreams, walk.liveObjects)
      invariant OnlyLive(f, s, extra, walked, live, walk.walkedStreams, walk.liveObjects)
      invariant AllWalked(f, s, names, walked + {name}, walk.walkedStreams, walk.liveObjects)
    {
      var ref := v.namedRefs[i];
      NamedIsReached(f, s, extra, names, id, i);
      ghost var w0, l0 := walk.walkedStreams, walk.liveObjects;
      walk.liveObjects := walk.liveObjects + {ref.id};
      MarkNamed(f, s, extra, names, walked, live, name, w0, l0, ref.id);
      if ref.id in names {
        ghost var w, l := walk.walkedStreams, walk.liveObjects;
        FewerStill(s.streams.links.Keys, walked, name, w);
        var good := WalkStreams(f, s, extra, names, names[ref.id], walk);
        if !good {
          return false;
        }
        Returned(f, s, extra, names, walked, live, name, w, l, walk.walkedStreams, walk.liveObjects);
      }
      MarkedGrows(names, v, i, w0, l0, walk.walkedStreams, walk.liveObjects);
      i := i + 1;
    }
    OneWalked(f, s, names, walked, name, walk.walkedStreams, walk.liveObjects);
    return true;
  }

  ghost predicate RefsMarked(v: StreamView, i: nat, live: set<Id>)
    requires i <= |v.objectRefs|
  {
    forall j :: 0 <= j < i ==> v.objectRefs[j] in live
  }

  ghost predicate NamedMarked(names: map<Id, Name>, v: StreamView, i: nat, walked: set<Name>, live: set<Id>)
    requires i <= |v.namedRefs|
  {
    forall j :: 0 <= j < i ==> NamedWalked(names, walked, live, v.namedRefs[j].id)
  }

  lemma NothingNew(f: Formats, s: Store, extra: set<Name>, names: map<Id, Name>, w: set<Name>, l: set<Id>)
    ensures OnlyLive(f, s, extra, w, l, w, l) && AllWalked(f, s, names, w, w, l)
  {
  }

  lemma Enter(f: Formats, s: Store, extra: set<Name>, names: map<Id, Name>, w: set<Name>, l: set<Id>,
              name: Name)
    requires name in s.streams.links && StreamReached(f, s, extra, s.streams.links[name])
    ensures OnlyLive(f, s, extra, w, l, w + {name}, l)
    ensures AllWalked(f, s, names, w + {name}, w + {name}, l)
  {
    hide StreamReached, StreamLive;
  }

  lemma Unreadable(f: Formats, s: Store, extra: set<Name>, id: Id)
    requires StreamReached(f, s, extra, id) && StreamAt(f, s, id).None?
    ensures !Sound(f, s, extra)
  {
    hide StreamReached;
  }

  lemma MarkNone(names: map<Id, Name>, v: StreamView, w: set<Name>, l: set<Id>)
    ensures RefsMarked(v, 0, l) && NamedMarked(names, v, 0, w, l)
  {
  }

  lemma MarkRef(f: Formats, s: Store, extra: set<Name>, stream: Id, v: StreamView, i: nat,
                walked: set<Name>, live: set<Id>, w: set<Name>, l: set<Id>)
    requires StreamReached(f, s, extra, stream) && StreamAt(f, s, stream) == Some(v)
    requires i < |v.objectRefs| && RefsMarked(v, i, l)
    requires OnlyLive(f, s, extra, walked, live, w, l)
    ensures RefsMarked(v, i + 1, l + {v.objectRefs[i]})
    ensures OnlyLive(f, s, extra, walked, live, w, l + {v.objectRefs[i]})
  {
    hide StreamReached, StreamLive;
    MentionIsLive(f, s, extra, stream, v.objectRefs[i]);
  }

  lemma MarkNamed(f: Formats, s: Store, extra: set<Name>, names: map<Id, Name>, walked: set<Name>,
                  live: set<Id>, name: Name, w: set<Name>, l: set<Id>, id: Id)
    requires StreamLive(f, s, extra, id)
    requires OnlyLive(f, s, extra, walked, live, w, l)
    requires AllWalked(f, s, names, walked + {name}, w, l)
    ensures OnlyLive(f, s, extra, walked, live, w, l + {id})
    ensures AllWalked(f, s, names, walked + {name}, w, l + {id})
  {
    hide StreamReached, StreamLive;
  }

  lemma Returned(f: Formats, s: Store, extra: set<Name>, names: map<Id, Name>, walked: set<Name>,
                 live: set<Id>, name: Name, w: set<Name>, l: set<Id>, w': set<Name>, l': set<Id>)
    requires OnlyLive(f, s, extra, walked, live, w, l) && OnlyLive(f, s, extra, w, l, w', l')
    requires AllWalked(f, s, names, walked + {name}, w, l) && AllWalked(f, s, names, w, w', l')
    ensures w <= w' && l <= l'
    ensures OnlyLive(f, s, extra, walked, live, w', l')
    ensures AllWalked(f, s, names, walked + {name}, w', l')
  {
    hide StreamReached, StreamLive, Walked;
    WalkedGrows(f, s, names, walked + {name}, w, l, w', l');
    LiveGrows(f, s, extra, walked, live, w, l, w', l');
  }

  lemma MarkedGrows(names: map<Id, Name>, v: StreamView, i: nat, w: set<Name>, l: set<Id>,
                    w': set<Name>, l': set<Id>)
    requires i < |v.namedRefs| && w <= w' && l <= l'
    requires RefsMarked(v, |v.objectRefs|, l) && NamedMarked(names, v, i, w, l)
    requires v.namedRefs[i].id in l' && (v.namedRefs[i].id in names ==> names[v.namedRefs[i].id] in w')
    ensures RefsMarked(v, |v.objectRefs|, l') && NamedMarked(names, v, i + 1, w', l')
  {
  }

  lemma FewerLeft(all: set<Name>, walked: set<Name>, name: Name)
    requires name in all && name !in walked
    ensures |all - (walked + {name})| < |all - walked|
  {
    assert all - (walked + {name}) == (all - walked) - {name};
  }

  lemma FewerStill(all: set<Name>, walked: set<Name>, name: Name, w: set<Name>)
    requires name in all && name !in walked && walked + {name} <= w
    ensures |all - w| < |all - walked|
  {
    FewerLeft(all, walked, name);
    Subset(all - w, all - (walked + {name}));
  }

  lemma {:induction false} Subset<T>(a: set<T>, b: set<T>)
    requires a <= b
    ensures |a| <= |b|
  {
    if a != {} {
      var x :| x in a;
      Subset(a - {x}, b - {x});
    }
  }

  lemma MentionIsLive(f: Formats, s: Store, extra: set<Name>, stream: Id, id: Id)
    requires StreamReached(f, s, extra, stream) && MentionedBy(f, s, stream, id)
    ensures StreamLive(f, s, extra, id)
  {
    hide StreamReached;
  }

  lemma NamedIsReached(f: Formats, s: Store, extra: set<Name>, names: map<Id, Name>, stream: Id, i: nat)
    requires StreamReached(f, s, extra, stream) && NameMap(s.streams, names)
    requires StreamAt(f, s, stream).Some? && i < |StreamAt(f, s, stream).value.namedRefs|
    ensures
      var id := StreamAt(f, s, stream).value.namedRefs[i].id;
      && StreamLive(f, s, extra, id)
      && (id in names ==> names[id] in s.streams.links && s.streams.links[names[id]] == id
                          && StreamReached(f, s, extra, id))
  {
    hide StreamReached;
    var id := StreamAt(f, s, stream).value.namedRefs[i].id;
    assert Names(StreamAt(f, s, stream).value, id);
    MentionIsLive(f, s, extra, stream, id);
    if id in names {
      assert StreamStep(f, s, stream, id);
      ReachedStep(f, s, extra, stream, id);
    }
  }

  lemma OneWalked(f: Formats, s: Store, names: map<Id, Name>, walked: set<Name>, name: Name,
                  w: set<Name>, l: set<Id>)
    requires AllWalked(f, s, names, walked + {name}, w, l)
    requires name in s.streams.links && StreamAt(f, s, s.streams.links[name]).Some?
    requires
      var v := StreamAt(f, s, s.streams.links[name]).value;
      RefsMarked(v, |v.objectRefs|, l) && NamedMarked(names, v, |v.namedRefs|, w, l)
    ensures AllWalked(f, s, names, walked, w, l)
  {
    hide NamedWalked;
  }

  // ---- roots ----

  /** The entries for some names, each of which exists. */
  ghost predicate EntriesFor(c: Category, names: set<Name>, es: seq<CategoryEntry>) {
    && (forall i :: 0 <= i < |es| ==>
          es[i].name in names && es[i].name in c.links && c.links[es[i].name] == es[i].id)
    && (forall n :: n in names ==> exists i :: 0 <= i < |es| && es[i].name == n)
  }

  /** Reads the first-level link of every name, in any order; an error when one is missing. */
  method ReadLinks(c: Category, names: set<Name>) returns (r: Option<seq<CategoryEntry>>)
    ensures r.Some? <==> names <= c.links.Keys
    ensures r.Some? ==> EntriesFor(c, names, r.value)
  {
    var rest := names;
    var es: seq<CategoryEntry> := [];
    while rest != {}
      invariant rest <= names && names - rest <= c.links.Keys
      invariant EntriesFor(c, names - rest, es)
      decreases rest
    {
      var n :| n in rest;
      if n !in c.links {
        return None;
      }
      ghost var before, was := es, names - rest;
      es := es + [CategoryEntry(c.links[n], n)];
      rest := rest - {n};
      OneMoreEntry(c, was, before, n);
      assert names - rest == was + {n};
    }
    assert names - rest == names;
    return Some(es);
  }

  lemma OneMoreEntry(c: Category, names: set<Name>, es: seq<CategoryEntry>, n: Name)
    requires EntriesFor(c, names, es) && n in c.links
    ensures EntriesFor(c, names + {n}, es + [CategoryEntry(c.links[n], n)])
  {
    var all := es + [CategoryEntry(c.links[n], n)];
    forall m | m in names + {n}
      ensures exists i :: 0 <= i < |all| && all[i].name == m
    {
      if m == n {
        assert all[|es|].name == n;
      } else {
        var i :| 0 <= i < |es| && es[i].name == m;
        assert all[i].name == m;
      }
    }
  }

  /** `gc_category` in both modes and the chain of the two: the root entries. */
  method Roots(c: Category, extra: set<Name>) returns (r: Option<seq<CategoryEntry>>)
    ensures r.Some? <==> RootsResolve(c, extra)
    ensures r.Some? ==> forall i :: 0 <= i < |r.value| ==>
      && RootName(c, extra, r.value[i].name)
      && r.value[i].name in c.links && c.links[r.value[i].name] == r.value[i].id
    ensures r.Some? ==> forall n :: RootName(c, extra, n) ==>
      exists i :: 0 <= i < |r.value| && r.value[i].name == n
  {
    var named := c.refs.Values;
    var asked := c.links.Keys * extra;
    assert forall n :: RootName(c, extra, n) <==> n in named || n in asked;
    var fromRefs := ReadLinks(c, named);
    if fromRefs.None? {
      return None;
    }
    var fromExtra := ReadLinks(c, asked);
    r := Some(fromRefs.value + fromExtra.value);
    BothEntries(c, named, fromRefs.value, asked, fromExtra.value);
  }

  lemma BothEntries(c: Category, a: set<Name>, es: seq<CategoryEntry>, b: set<Name>, fs: seq<CategoryEntry>)
    requires EntriesFor(c, a, es) && EntriesFor(c, b, fs)
    ensures EntriesFor(c, a + b, es + fs)
  {
    forall n | n in a + b
      ensures exists i :: 0 <= i < |es + fs| && (es + fs)[i].name == n
    {
      if n in a {
        var i :| 0 <= i < |es| && es[i].name == n;
        assert (es + fs)[i].name == n;
      } else {
        var i :| 0 <= i < |fs| && fs[i].name == n;
        assert (es + fs)[|es| + i].name == n;
      }
    }
  }

  /** The map from object to stream name, filled in any order. */
  method StreamNameMap(c: Category) returns (names: map<Id, Name>)
    ensures NameMap(c, names)
  {
    var rest := c.links.Keys;
    names := map[];
    while rest != {}
      invariant rest <= c.links.Keys
      invariant forall id :: id in names ==> names[id] in c.links && c.links[names[id]] == id
      invariant forall n :: n in c.links && n !in rest ==> c.links[n] in names
      decreases rest
    {
      var n :| n in rest;
      names := names[c.links[n] := n];
      rest := rest - {n};
    }
  }

  // ---- marking ----

  method MarkImages(f: Formats, s: Store, ghost extra: set<Name>, roots: seq<CategoryEntry>, walk: GcWalk)
    returns (ok: bool)
    requires walk.liveObjects == {}
    requires forall i :: 0 <= i < |roots| ==> RootImage(s, extra, roots[i].id)
    requires forall id :: RootImage(s, extra, id) ==> exists i :: 0 <= i < |roots| && roots[i].id == id
    modifies walk
    ensures walk.walkedStreams == old(walk.walkedStreams)
    ensures ok ==> forall id :: id in walk.liveObjects <==> ImageLive(f, s, extra, id)
    ensures ok <==> forall id :: RootImage(s, extra, id) ==> ImageAt(f, s, id).Some?
  {
    hide RootImage;
    var i := 0;
    while i < |roots|
      invariant 0 <= i <= |roots| && walk.walkedStreams == old(walk.walkedStreams)
      invariant forall j :: 0 <= j < i ==> ImageAt(f, s, roots[j].id).Some?
      invariant forall id :: id in walk.liveObjects <==> exists j :: 0 <= j < i && KeptBy(f, s, roots[j].id, id)
    {
      ghost var before := walk.liveObjects;
      walk.liveObjects := walk.liveObjects + {roots[i].id};
      var ids := ImageAt(f, s, roots[i].id);
      if ids.None? {
        return false;
      }
      var k := 0;
      while k < |ids.value|
        invariant 0 <= k <= |ids.value| && walk.walkedStreams == old(walk.walkedStreams)
        invariant walk.liveObjects == before + {roots[i].id} + Elements(ids.value[..k])
      {
        assert ids.value[..k + 1] == ids.value[..k] + [ids.value[k]];
        walk.liveObjects := walk.liveObjects + {ids.value[k]};
        k := k + 1;
      }
      assert ids.value[..k] == ids.value;
      forall id
        ensures id in walk.liveObjects <==> exists j :: 0 <= j < i + 1 && KeptBy(f, s, roots[j].id, id)
      {
        assert id in walk.liveObjects <==> id in before || KeptBy(f, s, roots[i].id, id);
      }
      i := i + 1;
    }
    KeptIsLive(f, s, extra, roots, walk.liveObjects);
    ok := true;
  }

  ghost predicate KeptBy(f: Formats, s: Store, image: Id, id: Id) {
    id == image || InImage(f, s, image, id)
  }

  ghost function Elements(ids: seq<Id>): set<Id> {
    set id | id in ids
  }

  lemma KeptIsLive(f: Formats, s: Store, extra: set<Name>, roots: seq<CategoryEntry>, live: set<Id>)
    requires forall i :: 0 <= i < |roots| ==> RootImage(s, extra, roots[i].id)
    requires forall id :: RootImage(s, extra, id) ==> exists i :: 0 <= i < |roots| && roots[i].id == id
    requires forall id :: id in live <==> exists j :: 0 <= j < |roots| && KeptBy(f, s, roots[j].id, id)
    ensures forall id :: id in live <==> ImageLive(f, s, extra, id)
  {
    hide RootImage, InImage;
    forall id
      ensures id in live <==> ImageLive(f, s, extra, id)
    {
      if RootImage(s, extra, id) {
        var i :| 0 <= i < |roots| && roots[i].id == id;
        assert KeptBy(f, s, roots[i].id, id);
      }
      if r :| RootImage(s, extra, r) && InImage(f, s, r, id) {
        var i :| 0 <= i < |roots| && roots[i].id == r;
        assert KeptBy(f, s, roots[i].id, id);
      }
    }
  }

  method MarkStreams(f: Formats, s: Store, ghost extra: set<Name>, names: map<Id, Name>,
                     roots: seq<CategoryEntry>, walk: GcWalk)
    returns (ok: bool)
    requires walk.walkedStreams == {} && NameMap(s.streams, names)
    requires forall i :: 0 <= i < |roots| ==>
      && roots[i].name in s.streams.links && s.streams.links[roots[i].name] == roots[i].id
      && RootStream(s, extra, roots[i].id)
    requires forall id :: RootStream(s, extra, id) ==> exists i :: 0 <= i < |roots| && roots[i].id == id
    modifies walk
    ensures ok ==> forall id :: id in walk.liveObjects <==>
      id in old(walk.liveObjects) || StreamLive(f, s, extra, id)
    ensures ok ==> forall id :: StreamReached(f, s, extra, id) ==> StreamAt(f, s, id).Some?
    ensures !ok ==> !Sound(f, s, extra)
  {
    hide *;
    ghost var live := walk.liveObjects;
    NothingNew(f, s, extra, names, {}, live);
    var i := 0;
    while i < |roots|
      invariant 0 <= i <= |roots|
      invariant forall j :: 0 <= j < i ==>
        roots[j].id in walk.liveObjects && roots[j].name in walk.walkedStreams
      invariant OnlyLive(f, s, extra, {}, live, walk.walkedStreams, walk.liveObjects)
      invariant AllWalked(f, s, names, {}, walk.walkedStreams, walk.liveObjects)
    {
      ReachedRoot(f, s, extra, roots[i].id);
      RootIsLive(f, s, extra, names, live, walk.walkedStreams, walk.liveObjects, roots[i].id);
      walk.liveObjects := walk.liveObjects + {roots[i].id};
      ghost var w, l := walk.walkedStreams, walk.liveObjects;
      ok := WalkStreams(f, s, extra, names, roots[i].name, walk);
      if !ok {
        return;
      }
      RootReturned(f, s, extra, names, live, w, l, walk.walkedStreams, walk.liveObjects);
      i := i + 1;
    }
    ok := true;
    StreamsMarked(f, s, extra, names, roots, live, walk.walkedStreams, walk.liveObjects);
  }

  lemma RootIsLive(f: Formats, s: Store, extra: set<Name>, names: map<Id, Name>, live: set<Id>,
                   w: set<Name>, l: set<Id>, id: Id)
    requires StreamReached(f, s, extra, id)
    requires OnlyLive(f, s, extra, {}, live, w, l) && AllWalked(f, s, names, {}, w, l)
    ensures OnlyLive(f, s, extra, {}, live, w, l + {id}) && AllWalked(f, s, names, {}, w, l + {id})
  {
    hide StreamReached;
  }

  lemma RootReturned(f: Formats, s: Store, extra: set<Name>, names: map<Id, Name>, live: set<Id>,
                     w: set<Name>, l: set<Id>, w': set<Name>, l': set<Id>)
    requires OnlyLive(f, s, extra, {}, live, w, l) && OnlyLive(f, s, extra, w, l, w', l')
    requires AllWalked(f, s, names, {}, w, l) && AllWalked(f, s, names, w, w', l')
    ensures w <= w' && l <= l'
    ensures OnlyLive(f, s, extra, {}, live, w', l') && AllWalked(f, s, names, {}, w', l')
  {
    hide StreamReached, StreamLive, Walked;
    WalkedGrows(f, s, names, {}, w, l, w', l');
    LiveGrows(f, s, extra, {}, live, w, l, w', l');
  }

  /** Once every root has been walked, exactly the live objects of streams are marked. */
  lemma StreamsMarked(f: Formats, s: Store, extra: set<Name>, names: map<Id, Name>,
                      roots: seq<CategoryEntry>, live: set<Id>, w: set<Name>, l: set<Id>)
    requires NameMap(s.streams, names)
    requires forall i :: 0 <= i < |roots| ==>
      && roots[i].name in s.streams.links && s.streams.links[roots[i].name] == roots[i].id
      && roots[i].id in l && roots[i].name in w
    requires forall id :: RootStream(s, extra, id) ==> exists i :: 0 <= i < |roots| && roots[i].id == id
    requires OnlyLive(f, s, extra, {}, live, w, l) && AllWalked(f, s, names, {}, w, l)
    ensures forall id :: id in l <==> id in live || StreamLive(f, s, extra, id)
    ensures forall id :: StreamReached(f, s, extra, id) ==> StreamAt(f, s, id).Some?
  {
    hide StreamWay;
    var ids := set n | n in w && n in s.streams.links && s.streams.links[n] in l :: s.streams.links[n];
    assert forall n :: n in w ==> n in w - {};
    forall id | RootStream(s, extra, id)
      ensures id in ids
    {
      var i :| 0 <= i < |roots| && roots[i].id == id;
      assert roots[i].name in w;
    }
    forall a, b | a in ids && StreamStep(f, s, a, b)
      ensures b in ids
    {
      var n :| n in w && n in s.streams.links && s.streams.links[n] == a;
      assert Walked(f, s, names, w, l, n);
      var v := StreamAt(f, s, a).value;
      var i :| 0 <= i < |v.namedRefs| && v.namedRefs[i].id == b;
      assert NamedWalked(names, w, l, v.namedRefs[i].id);
    }
    forall id | StreamReached(f, s, extra, id)
      ensures id in ids
    {
      var way :| way != [] && StreamWay(f, s, extra, way) && way[|way| - 1] == id;
      ClosedHoldsStreams(f, s, extra, ids, way);
    }
    forall r | StreamReached(f, s, extra, r)
      ensures StreamAt(f, s, r).Some?
      ensures forall id :: MentionedBy(f, s, r, id) ==> id in l
    {
      var n :| n in w && n in s.streams.links && s.streams.links[n] == r;
      assert Walked(f, s, names, w, l, n);
      MentionsMarked(f, s, names, w, l, n);
    }
  }

  lemma MentionsMarked(f: Formats, s: Store, names: map<Id, Name>, w: set<Name>, l: set<Id>, n: Name)
    requires Walked(f, s, names, w, l, n)
    ensures forall id :: MentionedBy(f, s, s.streams.links[n], id) ==> id in l
  {
    var v := StreamAt(f, s, s.streams.links[n]).value;
    forall id | MentionedBy(f, s, s.streams.links[n], id)
      ensures id in l
    {
      if Names(v, id) {
        var i :| 0 <= i < |v.namedRefs| && v.namedRefs[i].id == id;
        assert NamedWalked(names, w, l, v.namedRefs[i].id);
      } else {
        var i :| 0 <= i < |v.objectRefs| && v.objectRefs[i] == id;
      }
    }
  }

  // ---- sweeping ----

  /** The bytes stored in some objects. */
  ghost function Total(m: map<Id, bytes>): nat
    decreases |m|
  {
    if m == map[] then 0
    else
      var k :| k in m;
      TotalDecreases(m, k);
      |m[k]| + Total(m - {k})
  }

  lemma TotalDecreases(m: map<Id, bytes>, k: Id)
    requires k in m
    ensures |m - {k}| < |m|
  {
    assert m.Keys == (m - {k}).Keys + {k};
    assert |m.Keys| == |(m - {k}).Keys| + 1;
  }

  /** The order of counting does not matter. */
  lemma {:induction false} TotalWithout(m: map<Id, bytes>, k: Id)
    requires k in m
    ensures Total(m) == |m[k]| + Total(m - {k})
    decreases |m|
  {
    var p :| p in m && Total(m) == |m[p]| + Total(m - {p});
    if p != k {
      TotalDecreases(m, p);
      TotalWithout(m - {p}, k);
      TotalDecreases(m, k);
      TotalWithout(m - {k}, p);
      assert m - {p} - {k} == m - {k} - {p};
    }
  }

  ghost function Restrict(m: map<Id, bytes>, keep: set<Id>): map<Id, bytes> {
    map id | id in m && id in keep :: m[id]
  }

  /** What is removed and what is kept add up. */
  lemma {:induction false} TotalSplits(m: map<Id, bytes>, keep: set<Id>)
    ensures Total(m) == Total(Restrict(m, keep)) + Total(m - keep)
    decreases |m|
  {
    if m != map[] {
      var k :| k in m;
      TotalDecreases(m, k);
      TotalSplits(m - {k}, keep);
      TotalWithout(m, k);
      if k in keep {
        TotalWithout(Restrict(m, keep), k);
        assert Restrict(m, keep) - {k} == Restrict(m - {k}, keep);
        assert m - {k} - keep == m - keep;
      } else {
        TotalWithout(m - keep, k);
        assert Restrict(m - {k}, keep) == Restrict(m, keep);
        assert m - keep - {k} == m - {k} - keep;
      }
    } else {
      assert Restrict(m, keep) == map[] && m - keep == map[];
    }
  }

  datatype GcResult =
    GcResult(objectsRemoved: nat, objectsBytes: nat, imagesPruned: nat, streamsPruned: nat)

  // ---- pruning ----

  predicate Resolves(c: Category, objects: set<Id>, n: Name) {
    n in c.links && c.links[n] in objects
  }

  /** The links whose object exists, and the refs that still lead to one. */
  function Pruned(c: Category, objects: set<Id>): Category {
    Category(map n | n in c.links && c.links[n] in objects :: c.links[n],
             map r | r in c.refs && Resolves(c, objects, c.refs[r]) :: c.refs[r])
  }

  function BrokenLinks(c: Category, objects: set<Id>): set<Name> {
    set n | n in c.links && c.links[n] !in objects
  }

  function BrokenRefs(c: Category, objects: set<Id>): set<Name> {
    set r | r in c.refs && !Resolves(c, objects, c.refs[r])
  }

  /** The links already looked at that lead nowhere. */
  function Dangling(links: map<Name, Name>, missing: Name -> bool, left: set<Name>): set<Name> {
    set n | n in links && n !in left && missing(links[n])
  }

  lemma DanglingStep(links: map<Name, Name>, missing: Name -> bool, left: set<Name>, n: Name)
    requires left <= links.Keys && n in left
    ensures missing(links[n]) ==>
      && Dangling(links, missing, left - {n}) == Dangling(links, missing, left) + {n}
      && |Dangling(links, missing, left - {n})| == |Dangling(links, missing, left)| + 1
      && links - Dangling(links, missing, left) - {n} == links - Dangling(links, missing, left - {n})
    ensures !missing(links[n]) ==>
      Dangling(links, missing, left - {n}) == Dangling(links, missing, left)
  {
    if missing(links[n]) {
      assert Dangling(links, missing, left - {n}) == Dangling(links, missing, left) + {n};
    } else {
      assert Dangling(links, missing, left - {n}) == Dangling(links, missing, left);
    }
  }

  /** `cleanup_broken_links`: `missing` is the test whether a target exists. */
  method CleanupBrokenLinks(links: map<Name, Name>, missing: Name -> bool, dryRun: bool)
    returns (kept: map<Name, Name>, count: nat)
    ensures kept == if dryRun then links else map n | n in links && !missing(links[n]) :: links[n]
    ensures count == |Dangling(links, missing, {})|
  {
    hide Dangling;
    kept, count := links, 0;
    var left := links.Keys;
    NoneYet(links, missing);
    while left != {}
      invariant left <= links.Keys && count == |Dangling(links, missing, left)|
      invariant kept == if dryRun then links else links - Dangling(links, missing, left)
      decreases left
    {
      var n :| n in left;
      DanglingStep(links, missing, left, n);
      if missing(links[n]) {
        count := count + 1;
        if !dryRun {
          kept := kept - {n};
        }
      }
      left := left - {n};
    }
    DanglingGone(links, missing);
  }

  lemma NoneYet(links: map<Name, Name>, missing: Name -> bool)
    ensures Dangling(links, missing, links.Keys) == {} && links - {} == links
  {
  }

  lemma DanglingGone(links: map<Name, Name>, missing: Name -> bool)
    ensures links - Dangling(links, missing, {})
         == map n | n in links && !missing(links[n]) :: links[n]
  {
  }

  /** `cleanup_gc_category`: the first level first, then the refs below it. */
  method CleanupCategory(c: Category, objects: set<Id>, dryRun: bool) returns (kept: Category, count: nat)
    ensures kept == if dryRun then c else Pruned(c, objects)
    ensures count == |BrokenLinks(c, objects)| + |BrokenRefs(c, objects)|
  {
    var links, first := CleanupBrokenLinks(c.links, target => target !in objects, dryRun);
    var leadsNowhere := target => target !in links || links[target] !in objects;
    assert forall m :: Resolves(c, objects, m) <==> !leadsNowhere(m);
    var refs, second := CleanupBrokenLinks(c.refs, leadsNowhere, dryRun);
    assert Dangling(c.links, target => target !in objects, {}) == BrokenLinks(c, objects);
    assert Dangling(c.refs, leadsNowhere, {}) == BrokenRefs(c, objects);
    kept, count := Category(links, refs), first + second;
    if !dryRun {
      assert links == Pruned(c, objects).links && refs == Pruned(c, objects).refs;
    }
  }

  // ---- the collection as a whole ----

  ghost function LiveIds(f: Formats, s: Store, extra: set<Name>): set<Id> {
    set id | id in s.objects && Live(f, s, extra, id)
  }

  /** The repository after `gc`. */
  ghost function Collected(f: Formats, s: Store, extra: set<Name>): Store {
    var live := LiveIds(f, s, extra);
    Store(Restrict(s.objects, live), Pruned(s.images, live), Pruned(s.streams, live))
  }

  ghost function Dead(f: Formats, s: Store, extra: set<Name>): map<Id, bytes> {
    s.objects - LiveIds(f, s, extra)
  }

  /** The dead objects the sweep has passed. */
  ghost function Gone(all: map<Id, bytes>, live: set<Id>, left: set<Id>): map<Id, bytes> {
    map id | id in all && id !in left && id !in live :: all[id]
  }

  lemma SweepStart(all: map<Id, bytes>, live: set<Id>)
    ensures Gone(all, live, all.Keys) == map[] && Total(map[]) == 0 && all - {} == all
  {
  }

  lemma SweepStep(all: map<Id, bytes>, live: set<Id>, left: set<Id>, id: Id)
    requires left <= all.Keys && id in left
    ensures id in live ==> Gone(all, live, left - {id}) == Gone(all, live, left)
    ensures id !in live ==>
      && Total(Gone(all, live, left - {id})) == Total(Gone(all, live, left)) + |all[id]|
      && |Gone(all, live, left - {id})| == |Gone(all, live, left)| + 1
      && all - Gone(all, live, left).Keys - {id} == all - Gone(all, live, left - {id}).Keys
  {
    hide Total;
    var before, after := Gone(all, live, left), Gone(all, live, left - {id});
    if id in live {
      assert after == before;
    } else {
      assert after - {id} == before;
      TotalWithout(after, id);
      assert after.Keys == before.Keys + {id};
    }
  }

  lemma SweepEnd(all: map<Id, bytes>, live: set<Id>)
    ensures Gone(all, live, {}) == all - live
    ensures all - Gone(all, live, {}).Keys == Restrict(all, live)
  {
    assert Gone(all, live, {}) == all - live;
    assert all - Gone(all, live, {}).Keys == Restrict(all, live);
  }

  class Repository {
    var objects: map<Id, bytes>
    var images: Category
    var streams: Category

    function Contents(): Store
      reads this
    {
      Store(objects, images, streams)
    }

    constructor (s: Store)
      ensures Contents() == s
    {
      objects, images, streams := s.objects, s.images, s.streams;
    }

    /** Removes the objects that are not live, in any order. */
    method Sweep(live: set<Id>, dryRun: bool) returns (removed: nat, freed: nat)
      modifies `objects
      ensures objects == if dryRun then old(objects) else Restrict(old(objects), live)
      ensures removed == |old(objects) - live| && freed == Total(old(objects) - live)
    {
      hide *;
      var all, left := objects, objects.Keys;
      removed, freed := 0, 0;
      SweepStart(all, live);
      while left != {}
        invariant left <= all.Keys
        invariant removed == |Gone(all, live, left)| && freed == Total(Gone(all, live, left))
        invariant objects == if dryRun then all else all - Gone(all, live, left).Keys
        decreases left
      {
        var id :| id in left;
        SweepStep(all, live, left, id);
        if id !in live {
          freed := freed + |all[id]|;
          removed := removed + 1;
          if !dryRun {
            objects := objects - {id};
          }
        }
        left := left - {id};
      }
      SweepEnd(all, live);
    }

    /** `gc_impl`.  On an error nothing has been removed; otherwise exactly the dead objects
        are, and then exactly the links and refs that lead nowhere.  A dry run counts the same
        objects and bytes and changes nothing. */
    method GcImpl(f: Formats, extra: set<Name>, dryRun: bool) returns (r: Option<GcResult>)
      modifies this
      ensures r.Some? <==> Sound(f, old(Contents()), extra)
      ensures r.None? || dryRun ==> Contents() == old(Contents())
      ensures r.Some? && !dryRun ==> Contents() == Collected(f, old(Contents()), extra)
      ensures r.Some? ==>
        && r.value.objectsRemoved == |Dead(f, old(Contents()), extra)|
        && r.value.objectsBytes == Total(Dead(f, old(Contents()), extra))
      ensures r.Some? ==>
        var s := old(Contents());
        var present := if dryRun then s.objects.Keys else LiveIds(f, s, extra);
        && r.value.imagesPruned == |BrokenLinks(s.images, present)| + |BrokenRefs(s.images, present)|
        && r.value.streamsPruned == |BrokenLinks(s.streams, present)| + |BrokenRefs(s.streams, present)|
    {
      hide *;
      var s := Contents();
      ContentsAre(s);
      var walk := new GcWalk();
      var rootImages := Roots(images, extra);
      if rootImages.None? {
        NotSound(f, s, extra);
        return None;
      }
      RootEntries(s.images, extra, rootImages.value);
      RootImagesAre(s, extra, rootImages.value);
      var ok := MarkImages(f, s, extra, rootImages.value, walk);
      if !ok {
        NotSound(f, s, extra);
        return None;
      }
      ghost var imageLive := walk.liveObjects;
      var names := StreamNameMap(streams);
      var rootStreams := Roots(streams, extra);
      if rootStreams.None? {
        NotSound(f, s, extra);
        return None;
      }
      RootEntries(s.streams, extra, rootStreams.value);
      RootStreamsAre(s, extra, rootStreams.value);
      ok := MarkStreams(f, s, extra, names, rootStreams.value, walk);
      if !ok {
        return None;
      }
      AllMarked(f, s, extra, imageLive, walk.liveObjects);
      var removed, freed := Sweep(walk.liveObjects, dryRun);
      SweptObjects(f, s, extra, walk.liveObjects);
      var prunedImages, prunedStreams;
      images, prunedImages := CleanupCategory(images, objects.Keys, dryRun);
      streams, prunedStreams := CleanupCategory(streams, objects.Keys, dryRun);
      ContentsAre(Contents());
      CollectedIs(f, s, extra);
      r := Some(GcResult(removed, freed, prunedImages, prunedStreams));
    }

    lemma ContentsAre(s: Store)
      ensures Contents() == s <==> objects == s.objects && images == s.images && streams == s.streams
      ensures Contents() == Store(objects, images, streams)
    {
    }
  }

  lemma NotSound(f: Formats, s: Store, extra: set<Name>)
    ensures !RootsResolve(s.images, extra) ==> !Sound(f, s, extra)
    ensures !RootsResolve(s.streams, extra) ==> !Sound(f, s, extra)
    ensures !(forall id :: RootImage(s, extra, id) ==> ImageAt(f, s, id).Some?) ==> !Sound(f, s, extra)
  {
    hide RootsResolve, RootImage, StreamReached;
  }

  ghost predicate RootEntriesOf(c: Category, extra: set<Name>, es: seq<CategoryEntry>) {
    && (forall i :: 0 <= i < |es| ==>
          RootName(c, extra, es[i].name) && es[i].name in c.links && c.links[es[i].name] == es[i].id)
    && forall n :: RootName(c, extra, n) ==> exists i :: 0 <= i < |es| && es[i].name == n
  }

  lemma RootEntries(c: Category, extra: set<Name>, es: seq<CategoryEntry>)
    requires forall i :: 0 <= i < |es| ==>
      RootName(c, extra, es[i].name) && es[i].name in c.links && c.links[es[i].name] == es[i].id
    requires forall n :: RootName(c, extra, n) ==> exists i :: 0 <= i < |es| && es[i].name == n
    ensures RootEntriesOf(c, extra, es)
  {
  }

  lemma RootImagesAre(s: Store, extra: set<Name>, es: seq<CategoryEntry>)
    requires RootEntriesOf(s.images, extra, es)
    ensures forall i :: 0 <= i < |es| ==> RootImage(s, extra, es[i].id)
    ensures forall id :: RootImage(s, extra, id) ==> exists i :: 0 <= i < |es| && es[i].id == id
  {
    hide RootName;
    forall id | RootImage(s, extra, id)
      ensures exists i :: 0 <= i < |es| && es[i].id == id
    {
      var n :| RootName(s.images, extra, n) && n in s.images.links && s.images.links[n] == id;
      var i :| 0 <= i < |es| && es[i].name == n;
      assert es[i].id == id;
    }
  }

  lemma RootStreamsAre(s: Store, extra: set<Name>, es: seq<CategoryEntry>)
    requires RootEntriesOf(s.streams, extra, es)
    ensures forall i :: 0 <= i < |es| ==>
      && es[i].name in s.streams.links && s.streams.links[es[i].name] == es[i].id
      && RootStream(s, extra, es[i].id)
    ensures forall id :: RootStream(s, extra, id) ==> exists i :: 0 <= i < |es| && es[i].id == id
  {
    hide RootName;
    forall id | RootStream(s, extra, id)
      ensures exists i :: 0 <= i < |es| && es[i].id == id
    {
      var n :| RootName(s.streams, extra, n) && n in s.streams.links && s.streams.links[n] == id;
      var i :| 0 <= i < |es| && es[i].name == n;
      assert es[i].id == id;
    }
  }

  lemma AllMarked(f: Formats, s: Store, extra: set<Name>, imageLive: set<Id>, live: set<Id>)
    requires RootsResolve(s.images, extra) && RootsResolve(s.streams, extra)
    requires forall id :: RootImage(s, extra, id) ==> ImageAt(f, s, id).Some?
    requires forall id :: StreamReached(f, s, extra, id) ==> StreamAt(f, s, id).Some?
    requires forall id :: id in imageLive <==> ImageLive(f, s, extra, id)
    requires forall id :: id in live <==> id in imageLive || StreamLive(f, s, extra, id)
    ensures Sound(f, s, extra)
    ensures forall id :: id in live <==> Live(f, s, extra, id)
  {
    hide RootsResolve, RootImage, StreamReached, ImageLive, StreamLive;
  }

  lemma SweptObjects(f: Formats, s: Store, extra: set<Name>, live: set<Id>)
    requires forall id :: id in live <==> Live(f, s, extra, id)
    ensures Restrict(s.objects, live) == Restrict(s.objects, LiveIds(f, s, extra))
    ensures Restrict(s.objects, live).Keys == LiveIds(f, s, extra)
    ensures s.objects - live == Dead(f, s, extra)
  {
    hide Live;
  }

  lemma CollectedIs(f: Formats, s: Store, extra: set<Name>)
    ensures
      var live := LiveIds(f, s, extra);
      Collected(f, s, extra)
      == Store(Restrict(s.objects, live), Pruned(s.images, live), Pruned(s.streams, live))
  {
    hide LiveIds, Pruned, Restrict;
  }

  // ---- what collection keeps ----

  /** Refs, and the entries asked for, survive with the same object. */
  lemma RootsSurvive(f: Formats, s: Store, extra: set<Name>)
    requires Sound(f, s, extra)
    ensures
      var c := Collected(f, s, extra);
      && c.images.refs == s.images.refs && c.streams.refs == s.streams.refs
      && (forall n :: RootName(s.images, extra, n) ==>
            n in c.images.links && c.images.links[n] == s.images.links[n])
      && (forall n :: RootName(s.streams, extra, n) ==>
            n in c.streams.links && c.streams.links[n] == s.streams.links[n])
  {
    hide StreamReached, ImageAt, StreamAt;
    var live := LiveIds(f, s, extra);
    forall n | RootName(s.images, extra, n)
      ensures Resolves(s.images, live, n)
    {
      assert RootImage(s, extra, s.images.links[n]);
      Present(f, s, s.images.links[n]);
    }
    forall n | RootName(s.streams, extra, n)
      ensures Resolves(s.streams, live, n)
    {
      assert RootStream(s, extra, s.streams.links[n]);
      ReachedRoot(f, s, extra, s.streams.links[n]);
      Present(f, s, s.streams.links[n]);
    }
    SameRefs(s.images, live, extra);
    SameRefs(s.streams, live, extra);
  }

  lemma Present(f: Formats, s: Store, id: Id)
    ensures ImageAt(f, s, id).Some? || StreamAt(f, s, id).Some? ==> id in s.objects
  {
  }

  lemma SameRefs(c: Category, live: set<Id>, extra: set<Name>)
    requires forall n :: RootName(c, extra, n) ==> Resolves(c, live, n)
    ensures Pruned(c, live).refs == c.refs
  {
    forall r | r in c.refs
      ensures Resolves(c, live, c.refs[r])
    {
      assert RootName(c, extra, c.refs[r]);
    }
  }

  /** Nothing is left dangling: links lead to objects, refs lead to links. */
  lemma NothingDangles(f: Formats, s: Store, extra: set<Name>)
    ensures
      var c := Collected(f, s, extra);
      && (forall n :: n in c.images.links ==> c.images.links[n] in c.objects)
      && (forall n :: n in c.streams.links ==> c.streams.links[n] in c.objects)
      && (forall r :: r in c.images.refs ==> c.images.refs[r] in c.images.links)
      && (forall r :: r in c.streams.refs ==> c.streams.refs[r] in c.streams.links)
  {
    hide Live;
  }

  /** Every byte is either kept or counted as freed. */
  lemma BytesAddUp(f: Formats, s: Store, extra: set<Name>)
    ensures Total(s.objects) == Total(Collected(f, s, extra).objects) + Total(Dead(f, s, extra))
  {
    hide Live, Total;
    TotalSplits(s.objects, LiveIds(f, s, extra));
  }

  // ---- what a preview counts ----

  /** A dry run counts the links that the collection prunes exactly when no link leads to an
      object that the collection removes. */
  lemma PreviewCountsIff(c: Category, objects: set<Id>, live: set<Id>)
    requires live <= objects
    ensures |BrokenLinks(c, objects)| + |BrokenRefs(c, objects)| == |BrokenLinks(c, live)| + |BrokenRefs(c, live)|
       <==> forall n :: n in c.links && c.links[n] in objects ==> c.links[n] in live
  {
    hide BrokenLinks, BrokenRefs, Resolves;
    BrokenIs(c, live);
    BrokenIs(c, objects);
    Subset(BrokenLinks(c, objects), BrokenLinks(c, live));
    Subset(BrokenRefs(c, objects), BrokenRefs(c, live));
    if n :| n in c.links && c.links[n] in objects && c.links[n] !in live {
      Subset(BrokenLinks(c, objects) + {n}, BrokenLinks(c, live));
    } else {
      assert BrokenLinks(c, objects) == BrokenLinks(c, live);
      assert BrokenRefs(c, objects) == BrokenRefs(c, live);
    }
  }

  lemma BrokenIs(c: Category, objects: set<Id>)
    ensures forall n :: n in BrokenLinks(c, objects) <==> n in c.links && c.links[n] !in objects
    ensures forall r :: r in BrokenRefs(c, objects) <==>
      r in c.refs && !(c.refs[r] in c.links && c.links[c.refs[r]] in objects)
  {
  }

  /** The two counts do differ: one stream without a root. */
  lemma PreviewMissesLinks(f: Formats, data: bytes)
    ensures
      var s := Store(map[[1] := data], Category(map[], map[]), Category(map[[115] := [1]], map[]));
      && Sound(f, s, {}) && LiveIds(f, s, {}) == {}
      && |BrokenLinks(s.streams, s.objects.Keys)| + |BrokenRefs(s.streams, s.objects.Keys)| == 0
      && |BrokenLinks(s.streams, {})| + |BrokenRefs(s.streams, {})| == 1
  {
    var s := Store(map[[1] := data], Category(map[], map[]), Category(map[[115] := [1]], map[]));
    forall id
      ensures !StreamReached(f, s, {}, id)
    {
      if StreamReached(f, s, {}, id) {
        var way :| way != [] && StreamWay(f, s, {}, way) && way[|way| - 1] == id;
        ClosedHoldsStreams(f, s, {}, {}, way);
      }
    }
    assert BrokenLinks(s.streams, s.objects.Keys) == {} && BrokenRefs(s.streams, s.objects.Keys) == {};
    assert BrokenLinks(s.streams, {}) == {[115]} && BrokenRefs(s.streams, {}) == {};
  }

  // ---- what streams keep ----

  /** A stream reached from the roots keeps everything it mentions. */
  lemma ReachedStreamsKeepData(f: Formats, s: Store, extra: set<Name>, id: Id)
    requires Sound(f, s, extra) && StreamReached(f, s, extra, id)
    ensures
      var c := Collected(f, s, extra);
      && StreamAt(f, c, id) == StreamAt(f, s, id)
      && forall x :: x in s.objects && MentionedBy(f, s, id, x) ==> x in c.objects && c.objects[x] == s.objects[x]
  {
    hide StreamReached, MentionedBy;
    SameStreams(f, s, extra, id);
    forall x | x in s.objects && MentionedBy(f, s, id, x)
      ensures Live(f, s, extra, x)
    {
    }
  }

  /** What a stream lists that is there now is all there after the collection. */
  ghost predicate KeepsData(f: Formats, s: Store, extra: set<Name>, id: Id) {
    var c := Collected(f, s, extra);
    forall x :: x in s.objects && MentionedBy(f, s, id, x) ==> x in c.objects && c.objects[x] == s.objects[x]
  }

  /** All objects a stream mentions are live, on whatever account. */
  ghost predicate MentionsLive(f: Formats, s: Store, extra: set<Name>, id: Id) {
    forall x :: x in s.objects && MentionedBy(f, s, id, x) ==> Live(f, s, extra, x)
  }

  /** A stream keeps its data exactly when it is reached from the roots or each present object
      that it mentions is live on another account. */
  lemma StreamKeepsDataIff(f: Formats, s: Store, extra: set<Name>, id: Id)
    requires Sound(f, s, extra)
    ensures KeepsData(f, s, extra, id) <==> StreamReached(f, s, extra, id) || MentionsLive(f, s, extra, id)
  {
    hide StreamReached, MentionedBy, Live, Sound;
    if StreamReached(f, s, extra, id) {
      ReachedStreamsKeepData(f, s, extra, id);
    }
  }

  /** Every link that survives in `streams/` still has all data of its stream exactly when,
      before the collection, no stream that is live but not reached mentions a present object
      that is not live. */
  lemma SurvivingStreamsKeepDataIff(f: Formats, s: Store, extra: set<Name>)
    requires Sound(f, s, extra)
    ensures
      var c := Collected(f, s, extra);
      (forall n :: n in c.streams.links ==> KeepsData(f, s, extra, c.streams.links[n]))
      <==> (forall n, x ::
              && n in s.streams.links
              && Live(f, s, extra, s.streams.links[n]) && !StreamReached(f, s, extra, s.streams.links[n])
              && x in s.objects && MentionedBy(f, s, s.streams.links[n], x)
              ==> Live(f, s, extra, x))
  {
    hide StreamReached, MentionedBy, Live, Sound, KeepsData, MentionsLive;
    var c := Collected(f, s, extra);
    forall n | n in s.streams.links
      ensures n in c.streams.links <==>
        s.streams.links[n] in s.objects && Live(f, s, extra, s.streams.links[n])
      ensures n in c.streams.links ==> c.streams.links[n] == s.streams.links[n]
      ensures KeepsData(f, s, extra, s.streams.links[n]) <==>
        StreamReached(f, s, extra, s.streams.links[n]) || MentionsLive(f, s, extra, s.streams.links[n])
      ensures MentionsLive(f, s, extra, s.streams.links[n]) <==>
        forall x :: x in s.objects && MentionedBy(f, s, s.streams.links[n], x) ==> Live(f, s, extra, x)
      ensures forall x :: MentionedBy(f, s, s.streams.links[n], x) ==> s.streams.links[n] in s.objects
    {
      StreamKeepsDataIff(f, s, extra, s.streams.links[n]);
      MentionsAre(f, s, extra, s.streams.links[n]);
    }
  }

  lemma MentionsAre(f: Formats, s: Store, extra: set<Name>, id: Id)
    ensures MentionsLive(f, s, extra, id) <==>
      forall x :: x in s.objects && MentionedBy(f, s, id, x) ==> Live(f, s, extra, x)
    ensures forall x :: MentionedBy(f, s, id, x) ==> id in s.objects
  {
    hide Live;
  }

  /** Two streams, of which the second is only an object of the first. */
  const TWO_STREAMS: Store :=
    Store(map[[1] := [1], [2] := [2], [3] := [3]], Category(map[], map[]),
          Category(map[[97] := [1], [98] := [2]], map[[114] := [97]]))

  function TwoFormats(image: bytes -> Option<seq<Id>>): Formats {
    Formats(b => if b == [1] then Some(StreamView([[2]], []))
                 else if b == [2] then Some(StreamView([[3]], [])) else None, image)
  }

  lemma OnlyFirstReached(image: bytes -> Option<seq<Id>>)
    ensures forall id :: StreamReached(TwoFormats(image), TWO_STREAMS, {}, id) <==> id == [1]
  {
    var f, s := TwoFormats(image), TWO_STREAMS;
    forall id
      ensures StreamReached(f, s, {}, id) ==> id == [1]
    {
      if StreamReached(f, s, {}, id) {
        var way :| way != [] && StreamWay(f, s, {}, way) && way[|way| - 1] == id;
        ClosedHoldsStreams(f, s, {}, {[1]}, way);
      }
    }
    assert RootName(s.streams, {}, [97]) by {
      assert s.streams.refs[[114]] == [97];
    }
    assert RootStream(s, {}, [1]);
    ReachedRoot(f, s, {}, [1]);
  }

  /** A store where it does not hold: the link of the second stream stays, since its object is
      live, but what it mentions goes. */
  lemma SurvivingStreamMayLoseData(image: bytes -> Option<seq<Id>>)
    ensures
      var f, s := TwoFormats(image), TWO_STREAMS;
      var c := Collected(f, s, {});
      && Sound(f, s, {}) && [98] in c.streams.links && StreamAt(f, c, c.streams.links[[98]]).Some?
      && [3] in StreamAt(f, c, c.streams.links[[98]]).value.objectRefs && [3] !in c.objects
  {
    hide StreamReached;
    var f, s := TwoFormats(image), TWO_STREAMS;
    OnlyFirstReached(image);
    assert MentionedBy(f, s, [1], [2]) && !MentionedBy(f, s, [1], [3]);
    assert Live(f, s, {}, [2]) && !Live(f, s, {}, [3]);
  }

  // ---- collecting twice ----

  /** A root-reachable stream reads the same after collection. */
  lemma SameStreams(f: Formats, s: Store, extra: set<Name>, id: Id)
    requires Sound(f, s, extra) && StreamReached(f, s, extra, id)
    ensures StreamAt(f, Collected(f, s, extra), id) == StreamAt(f, s, id)
  {
    hide StreamReached;
    Present(f, s, id);
    assert Live(f, s, extra, id);
  }

  lemma SameRootStreams(f: Formats, s: Store, extra: set<Name>, id: Id)
    requires Sound(f, s, extra)
    ensures RootStream(Collected(f, s, extra), extra, id) <==> RootStream(s, extra, id)
    ensures RootImage(Collected(f, s, extra), extra, id) <==> RootImage(s, extra, id)
  {
    hide StreamReached, Live, Sound;
    RootsSurvive(f, s, extra);
    var c := Collected(f, s, extra);
    forall n
      ensures RootName(c.streams, extra, n) <==> RootName(s.streams, extra, n)
      ensures RootName(c.images, extra, n) <==> RootName(s.images, extra, n)
    {
    }
    assert RootsResolve(s.images, extra) && RootsResolve(s.streams, extra) by {
      SoundRoots(f, s, extra);
    }
  }

  lemma SoundRoots(f: Formats, s: Store, extra: set<Name>)
    requires Sound(f, s, extra)
    ensures RootsResolve(s.images, extra) && RootsResolve(s.streams, extra)
  {
  }

  lemma SameStep(f: Formats, s: Store, extra: set<Name>, a: Id, b: Id)
    requires Sound(f, s, extra) && StreamReached(f, s, extra, a)
    ensures StreamStep(f, Collected(f, s, extra), a, b) <==> StreamStep(f, s, a, b)
  {
    hide StreamReached, StreamAt;
    SameStreams(f, s, extra, a);
    var c := Collected(f, s, extra);
    if StreamStep(f, s, a, b) {
      ReachedStep(f, s, extra, a, b);
      Present(f, s, b);
      var n :| n in s.streams.links && s.streams.links[n] == b;
      assert Live(f, s, extra, b);
      assert n in c.streams.links && c.streams.links[n] == b;
    }
    if StreamStep(f, c, a, b) {
      var n :| n in c.streams.links && c.streams.links[n] == b;
      assert n in s.streams.links && s.streams.links[n] == b;
    }
  }

  lemma {:induction false} SameWay(f: Formats, s: Store, extra: set<Name>, way: seq<Id>)
    requires Sound(f, s, extra)
    ensures StreamWay(f, Collected(f, s, extra), extra, way) <==> StreamWay(f, s, extra, way)
    decreases |way|
  {
    hide Sound, Collected, RootStream, StreamStep;
    if way != [] {
      var n := |way| - 1;
      if n == 0 {
        SameRootStreams(f, s, extra, way[0]);
      } else {
        var up := way[..n];
        SameWay(f, s, extra, up);
        if StreamWay(f, s, extra, up) {
          assert StreamReached(f, s, extra, way[n - 1]) by {
            assert up[|up| - 1] == way[n - 1];
          }
          SameStep(f, s, extra, way[n - 1], way[n]);
        }
      }
    }
  }

  lemma SameReached(f: Formats, s: Store, extra: set<Name>, id: Id)
    requires Sound(f, s, extra)
    ensures StreamReached(f, Collected(f, s, extra), extra, id) <==> StreamReached(f, s, extra, id)
  {
    hide Sound, Collected, StreamWay;
    var c := Collected(f, s, extra);
    if way :| way != [] && StreamWay(f, s, extra, way) && way[|way| - 1] == id {
      SameWay(f, s, extra, way);
    }
    if way :| way != [] && StreamWay(f, c, extra, way) && way[|way| - 1] == id {
      SameWay(f, s, extra, way);
    }
  }

  lemma SameImages(f: Formats, s: Store, extra: set<Name>, id: Id)
    requires Sound(f, s, extra) && RootImage(s, extra, id)
    ensures ImageAt(f, Collected(f, s, extra), id) == ImageAt(f, s, id)
  {
    hide StreamReached, RootImage, StreamLive;
    Present(f, s, id);
    assert Live(f, s, extra, id);
  }

  lemma SameLive(f: Formats, s: Store, extra: set<Name>, id: Id)
    requires Sound(f, s, extra)
    ensures Live(f, Collected(f, s, extra), extra, id) <==> Live(f, s, extra, id)
  {
    hide Sound, Collected, StreamReached, RootImage, ImageAt, StreamAt;
    forall r
      ensures StreamReached(f, Collected(f, s, extra), extra, r) <==> StreamReached(f, s, extra, r)
      ensures RootImage(Collected(f, s, extra), extra, r) <==> RootImage(s, extra, r)
      ensures StreamReached(f, s, extra, r) ==> StreamAt(f, Collected(f, s, extra), r) == StreamAt(f, s, r)
      ensures RootImage(s, extra, r) ==> ImageAt(f, Collected(f, s, extra), r) == ImageAt(f, s, r)
    {
      SameReached(f, s, extra, r);
      SameRootStreams(f, s, extra, r);
      if StreamReached(f, s, extra, r) {
        SameStreams(f, s, extra, r);
      }
      if RootImage(s, extra, r) {
        SameImages(f, s, extra, r);
      }
    }
  }

  /** A second collection with the same roots succeeds and removes and prunes nothing. */
  lemma CollectingTwice(f: Formats, s: Store, extra: set<Name>)
    requires Sound(f, s, extra)
    ensures
      var c := Collected(f, s, extra);
      && Sound(f, c, extra) && Collected(f, c, extra) == c && Dead(f, c, extra) == map[]
  {
    hide Live, StreamReached, RootImage, ImageAt, StreamAt, RootsResolve;
    var c := Collected(f, s, extra);
    RootsSurvive(f, s, extra);
    StillResolve(f, s, extra);
    forall id
      ensures Live(f, c, extra, id) <==> Live(f, s, extra, id)
      ensures StreamReached(f, c, extra, id) <==> StreamReached(f, s, extra, id)
      ensures RootImage(c, extra, id) <==> RootImage(s, extra, id)
      ensures StreamReached(f, s, extra, id) ==> StreamAt(f, c, id) == StreamAt(f, s, id)
      ensures RootImage(s, extra, id) ==> ImageAt(f, c, id) == ImageAt(f, s, id)
    {
      SameLive(f, s, extra, id);
      SameReached(f, s, extra, id);
      SameRootStreams(f, s, extra, id);
      if StreamReached(f, s, extra, id) {
        SameStreams(f, s, extra, id);
      }
      if RootImage(s, extra, id) {
        SameImages(f, s, extra, id);
      }
    }
    assert LiveIds(f, c, extra) == c.objects.Keys == LiveIds(f, s, extra);
    PruneTwice(s.images, LiveIds(f, s, extra));
    PruneTwice(s.streams, LiveIds(f, s, extra));
    assert Restrict(c.objects, c.objects.Keys) == c.objects;
  }

  lemma PruneTwice(c: Category, live: set<Id>)
    ensures Pruned(Pruned(c, live), live) == Pruned(c, live)
  {
    var p := Pruned(c, live);
    assert Pruned(p, live).links == p.links;
    assert Pruned(p, live).refs == p.refs;
  }

  lemma StillResolve(f: Formats, s: Store, extra: set<Name>)
    requires Sound(f, s, extra)
    ensures
      var c := Collected(f, s, extra);
      RootsResolve(c.images, extra) && RootsResolve(c.streams, extra)
  {
    hide Live, Sound;
    RootsSurvive(f, s, extra);
  }
}
