/** What a collection keeps and loses, told from the bytes of the store alone: by what images
    and streams list, the links and the refs, without the sets that the walk marks. */
module RepositoryClosure {
  import opened Bytes
  import opened RepositoryGc

  /** A name that a ref leads to or that the caller asked for. */
  ghost predicate Wanted(c: Category, extra: set<Name>, n: Name) {
    n in c.refs.Values || n in extra
  }

  /** The wanted images with all that they list are in `keep`. */
  ghost predicate HoldsImages(f: Formats, s: Store, extra: set<Name>, keep: iset<Id>) {
    forall n :: n in s.images.links && Wanted(s.images, extra, n) ==>
      var id := s.images.links[n];
      && id in keep
      && (id in s.objects && f.image(s.objects[id]).Some? ==>
            forall x :: x in f.image(s.objects[id]).value ==> x in keep)
  }

  /** `streams` holds the wanted streams and, with a stream, those that it names and that have a
      link. */
  ghost predicate HoldsStreams(f: Formats, s: Store, extra: set<Name>, streams: iset<Id>) {
    && (forall n :: n in s.streams.links && Wanted(s.streams, extra, n) ==> s.streams.links[n] in streams)
    && forall a :: a in streams && a in s.objects && f.stream(s.objects[a]).Some? ==>
         forall ref :: ref in f.stream(s.objects[a]).value.namedRefs && ref.id in s.streams.links.Values ==>
           ref.id in streams
  }

  /** Each of `streams` is in `keep` with all that it lists. */
  ghost predicate HoldsLists(f: Formats, s: Store, streams: iset<Id>, keep: iset<Id>) {
    forall a :: a in streams ==>
      && a in keep
      && (a in s.objects && f.stream(s.objects[a]).Some? ==>
            var v := f.stream(s.objects[a]).value;
            && (forall x :: x in v.objectRefs ==> x in keep)
            && (forall ref :: ref in v.namedRefs ==> ref.id in keep))
  }

  ghost predicate Closed(f: Formats, s: Store, extra: set<Name>, streams: iset<Id>, keep: iset<Id>) {
    HoldsImages(f, s, extra, keep) && HoldsStreams(f, s, extra, streams) && HoldsLists(f, s, streams, keep)
  }

  lemma WantedIsRoot(c: Category, extra: set<Name>, n: Name)
    requires n in c.links
    ensures Wanted(c, extra, n) <==> RootName(c, extra, n)
  {
  }

  lemma NamesIs(v: StreamView, id: Id)
    ensures Names(v, id) <==> exists ref :: ref in v.namedRefs && ref.id == id
  {
    if Names(v, id) {
      var i :| 0 <= i < |v.namedRefs| && v.namedRefs[i].id == id;
      assert v.namedRefs[i] in v.namedRefs;
    }
  }

  lemma HasLinkIs(c: Category, id: Id)
    ensures HasLink(c, id) <==> id in c.links.Values
  {
  }

  /** What is reached is in every set that holds the streams. */
  lemma ReachedIsHeld(f: Formats, s: Store, extra: set<Name>, streams: iset<Id>, id: Id)
    requires HoldsStreams(f, s, extra, streams) && StreamReached(f, s, extra, id)
    ensures id in streams
  {
    hide RootName, Names, HasLink, Wanted;
    var way :| way != [] && StreamWay(f, s, extra, way) && way[|way| - 1] == id;
    forall a | RootStream(s, extra, a)
      ensures a in streams
    {
      var n :| RootName(s.streams, extra, n) && n in s.streams.links && s.streams.links[n] == a;
      WantedIsRoot(s.streams, extra, n);
    }
    forall a, b | a in streams && StreamStep(f, s, a, b)
      ensures b in streams
    {
      NamesIs(f.stream(s.objects[a]).value, b);
      HasLinkIs(s.streams, b);
    }
    WayHeld(f, s, extra, streams, way);
  }

  lemma {:induction false} WayHeld(f: Formats, s: Store, extra: set<Name>, ids: iset<Id>, way: seq<Id>)
    requires forall id :: RootStream(s, extra, id) ==> id in ids
    requires forall a, b :: a in ids && StreamStep(f, s, a, b) ==> b in ids
    requires StreamWay(f, s, extra, way)
    ensures way[|way| - 1] in ids
    decreases |way|
  {
    hide RootStream, StreamStep;
    var n := |way| - 1;
    if n > 0 {
      WayHeld(f, s, extra, ids, way[..n]);
    }
  }

  lemma RootIsWanted(s: Store, extra: set<Name>, id: Id)
    requires RootImage(s, extra, id)
    ensures exists n :: n in s.images.links && Wanted(s.images, extra, n) && s.images.links[n] == id
  {
    hide RootName, Wanted;
    var n :| RootName(s.images, extra, n) && n in s.images.links && s.images.links[n] == id;
    WantedIsRoot(s.images, extra, n);
  }

  lemma LiveIsHeld(f: Formats, s: Store, extra: set<Name>, streams: iset<Id>, keep: iset<Id>, x: Id)
    requires Closed(f, s, extra, streams, keep) && Live(f, s, extra, x)
    ensures x in keep
  {
    hide RootName, Wanted, StreamReached, Names, HoldsStreams;
    if StreamReached(f, s, extra, x) {
      ReachedIsHeld(f, s, extra, streams, x);
    } else if r :| StreamReached(f, s, extra, r) && MentionedBy(f, s, r, x) {
      ReachedIsHeld(f, s, extra, streams, r);
      NamesIs(f.stream(s.objects[r]).value, x);
    } else {
      var r :| RootImage(s, extra, r) && (r == x || InImage(f, s, r, x));
      RootIsWanted(s, extra, r);
      var n :| n in s.images.links && Wanted(s.images, extra, n) && s.images.links[n] == r;
      assert r in keep;
      if r != x {
        assert InImage(f, s, r, x);
        assert r in s.objects;
      }
    }
  }

  lemma LiveIsClosed(f: Formats, s: Store, extra: set<Name>)
    ensures Closed(f, s, extra, iset x | StreamReached(f, s, extra, x), iset x | Live(f, s, extra, x))
  {
    hide RootName, Wanted, StreamReached, Names, HasLink;
    var streams, keep := iset x | StreamReached(f, s, extra, x), iset x | Live(f, s, extra, x);
    forall n | n in s.images.links && Wanted(s.images, extra, n)
      ensures RootImage(s, extra, s.images.links[n])
    {
      WantedIsRoot(s.images, extra, n);
    }
    forall n | n in s.streams.links && Wanted(s.streams, extra, n)
      ensures s.streams.links[n] in streams
    {
      WantedIsRoot(s.streams, extra, n);
      assert RootStream(s, extra, s.streams.links[n]);
      ReachedRoot(f, s, extra, s.streams.links[n]);
    }
    forall a, ref | a in streams && a in s.objects && f.stream(s.objects[a]).Some?
                    && ref in f.stream(s.objects[a]).value.namedRefs
      ensures ref.id in keep && (ref.id in s.streams.links.Values ==> ref.id in streams)
    {
      NamesIs(f.stream(s.objects[a]).value, ref.id);
      assert MentionedBy(f, s, a, ref.id);
      HasLinkIs(s.streams, ref.id);
      if ref.id in s.streams.links.Values {
        ReachedStep(f, s, extra, a, ref.id);
      }
    }
    assert HoldsImages(f, s, extra, keep);
    assert HoldsLists(f, s, streams, keep);
  }

  /** An object stays, with its bytes, exactly when it is in every closed set: nothing that wanted
      images and streams list is lost, and nothing else is kept. */
  lemma KeptIff(f: Formats, s: Store, extra: set<Name>, x: Id)
    ensures
      var c := Collected(f, s, extra);
      && (x in c.objects <==>
            x in s.objects && forall streams, keep :: Closed(f, s, extra, streams, keep) ==> x in keep)
      && (x in c.objects ==> c.objects[x] == s.objects[x])
  {
    hide Live, Closed, StreamReached;
    LiveIsClosed(f, s, extra);
    forall streams, keep | Live(f, s, extra, x) && Closed(f, s, extra, streams, keep)
      ensures x in keep
    {
      LiveIsHeld(f, s, extra, streams, keep, x);
    }
    if forall streams, keep :: Closed(f, s, extra, streams, keep) ==> x in keep {
      var live := iset y | Live(f, s, extra, y);
      assert x in live;
    }
  }

  /** A wanted image keeps all objects it lists. */
  lemma WantedImageKeepsObjects(f: Formats, s: Store, extra: set<Name>, n: Name, ids: seq<Id>, x: Id)
    requires n in s.images.links && (n in s.images.refs.Values || n in extra)
    requires s.images.links[n] in s.objects && f.image(s.objects[s.images.links[n]]) == Some(ids)
    requires (x in ids || x == s.images.links[n]) && x in s.objects
    ensures
      var c := Collected(f, s, extra);
      x in c.objects && c.objects[x] == s.objects[x]
  {
    hide Collected;
    KeptIff(f, s, extra, x);
  }

  /** All wanted images and streams and, from these on, all linked streams that are named are
      there and can be read. */
  ghost predicate AllReadable(f: Formats, s: Store, extra: set<Name>, streams: iset<Id>) {
    && s.images.refs.Values <= s.images.links.Keys && s.streams.refs.Values <= s.streams.links.Keys
    && (forall n :: n in s.images.links && Wanted(s.images, extra, n) ==>
          s.images.links[n] in s.objects && f.image(s.objects[s.images.links[n]]).Some?)
    && HoldsStreams(f, s, extra, streams)
    && forall a :: a in streams ==> a in s.objects && f.stream(s.objects[a]).Some?
  }

  /** The collection goes through exactly when the wanted images and streams, and all that have a
      link and are named from there, can be read; otherwise it fails and changes nothing. */
  lemma SoundIff(f: Formats, s: Store, extra: set<Name>)
    ensures Sound(f, s, extra) <==> exists streams :: AllReadable(f, s, extra, streams)
  {
    hide StreamReached, HoldsStreams;
    if Sound(f, s, extra) {
      SoundIsReadable(f, s, extra);
    }
    if streams :| AllReadable(f, s, extra, streams) {
      forall id | StreamReached(f, s, extra, id)
        ensures StreamAt(f, s, id).Some?
      {
        ReachedIsHeld(f, s, extra, streams, id);
      }
    }
  }

  lemma SoundIsReadable(f: Formats, s: Store, extra: set<Name>)
    requires Sound(f, s, extra)
    ensures AllReadable(f, s, extra, iset x | StreamReached(f, s, extra, x))
  {
    hide StreamReached, Wanted, RootName, Live, HoldsImages, HoldsLists, HoldsStreams;
    LiveIsClosed(f, s, extra);
    forall n | n in s.images.links && Wanted(s.images, extra, n)
      ensures s.images.links[n] in s.objects && f.image(s.objects[s.images.links[n]]).Some?
    {
      WantedIsRoot(s.images, extra, n);
      assert RootImage(s, extra, s.images.links[n]);
    }
    RefsResolve(s.images, extra);
    RefsResolve(s.streams, extra);
  }

  lemma RefsResolve(c: Category, extra: set<Name>)
    requires RootsResolve(c, extra)
    ensures c.refs.Values <= c.links.Keys
  {
    forall n | n in c.refs.Values
      ensures n in c.links
    {
      assert RootName(c, extra, n);
    }
  }

  /** Of a category exactly the links stay whose object stays, and the refs whose link does. */
  ghost predicate LinksOf(before: Category, after: Category, objects: set<Id>) {
    && (forall n :: n in after.links <==> n in before.links && before.links[n] in objects)
    && (forall n :: n in after.links ==> after.links[n] == before.links[n])
    && (forall r :: r in after.refs <==> r in before.refs && before.refs[r] in after.links)
    && (forall r :: r in after.refs ==> after.refs[r] == before.refs[r])
  }

  lemma LinksKept(f: Formats, s: Store, extra: set<Name>)
    ensures
      var c := Collected(f, s, extra);
      LinksOf(s.images, c.images, c.objects.Keys) && LinksOf(s.streams, c.streams, c.objects.Keys)
  {
    hide Live;
  }

  lemma SizeSplits(all: map<Name, bytes>, part: map<Name, bytes>, gone: set<Name>)
    requires part.Keys + gone == all.Keys && part.Keys !! gone
    ensures |gone| == |all| - |part|
  {
    assert |all| == |all.Keys| && |part| == |part.Keys|;
  }

  lemma LinksAreLost(c: Category, objects: set<Id>)
    ensures |BrokenLinks(c, objects)| == |c.links| - |Pruned(c, objects).links|
  {
    hide Resolves;
    var kept := Pruned(c, objects).links;
    assert kept.Keys + BrokenLinks(c, objects) == c.links.Keys;
    SizeSplits(c.links, kept, BrokenLinks(c, objects));
  }

  lemma RefsAreLost(c: Category, objects: set<Id>)
    ensures |BrokenRefs(c, objects)| == |c.refs| - |Pruned(c, objects).refs|
  {
    hide Resolves;
    var kept := Pruned(c, objects).refs;
    assert kept.Keys + BrokenRefs(c, objects) == c.refs.Keys;
    SizeSplits(c.refs, kept, BrokenRefs(c, objects));
  }

  /** `gc`, with what it reports told from the store before and after. */
  method Gc(repo: Repository, f: Formats, extra: set<Name>) returns (r: Option<GcResult>)
    modifies repo
    ensures r.None? ==> repo.Contents() == old(repo.Contents())
    ensures r.Some? ==>
      var s, c := old(repo.Contents()), repo.Contents();
      && c == Collected(f, s, extra)
      && r.value.objectsRemoved == |s.objects| - |c.objects|
      && r.value.objectsBytes == Total(s.objects) - Total(c.objects)
      && r.value.imagesPruned == |s.images.links| - |c.images.links| + |s.images.refs| - |c.images.refs|
      && r.value.streamsPruned == |s.streams.links| - |c.streams.links| + |s.streams.refs| - |c.streams.refs|
  {
    hide Live, Sound, Total, BrokenLinks, BrokenRefs, Pruned;
    ghost var s := repo.Contents();
    r := repo.GcImpl(f, extra, false);
    BytesAddUp(f, s, extra);
    LinksAreLost(s.images, LiveIds(f, s, extra));
    RefsAreLost(s.images, LiveIds(f, s, extra));
    LinksAreLost(s.streams, LiveIds(f, s, extra));
    RefsAreLost(s.streams, LiveIds(f, s, extra));
    DeadAreLost(f, s, extra);
  }

  lemma DeadAreLost(f: Formats, s: Store, extra: set<Name>)
    ensures |Dead(f, s, extra)| == |s.objects| - |Collected(f, s, extra).objects|
  {
    hide LiveIds, Pruned;
    var live := LiveIds(f, s, extra);
    var kept, dead := Restrict(s.objects, live), s.objects - live;
    assert kept.Keys + dead.Keys == s.objects.Keys;
    SizeSplits(s.objects, kept, dead.Keys);
    assert |dead| == |dead.Keys|;
  }
}
