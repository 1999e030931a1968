/** Publishing streams and images (repository.rs): for a stream objects are stored, then
    everything is synced, then the symlink is made; for an image nothing is synced.  A state
    machine with interleaved writers, background writeback and crashes at any point. */
module Publish {
  import opened Bytes

  type Id = bytes
  type Name = bytes

  /** What a splitstream lists, plain objects and other streams, or an image, objects only. */
  datatype Listing = Listing(objects: set<Id>, streams: set<Id>)

  /** The listing in the object with a given id. */
  type Contents = Id -> Listing

  /** Where a writer stands. */
  datatype Writer =
    | Storing(name: Name, stored: set<Id>, pending: set<Id>, linked: set<Id>)
    | Stored(name: Name, id: Id)
    | Syncing(name: Name, id: Id, dirty: set<Id>)
    | Synced(name: Name, id: Id)
    | Published(name: Name, id: Id)
    | ImageStored(id: Id)
    | ImageLinked(id: Id)

  /** `objects`, `links` and `images` are what running programs see, the durable parts are what
      a crash leaves.  The link of an image is named by its id. */
  datatype State = State(objects: set<Id>, durable: set<Id>, links: map<Name, Id>,
                         durableLinks: map<Name, Id>, images: set<Id>, durableImages: set<Id>,
                         writers: map<nat, Writer>)

  datatype Action =
    /** `create_stream` */
    | Create(w: nat, name: Name)
    /** `write_external_parallel`: a background task starts to store an object */
    | StartStore(w: nat, id: Id)
    /** such a task ends; the direct `write_external` is the two in a row */
    | EndStore(w: nat, id: Id)
    /** `add_named_stream_ref` */
    | LinkStream(w: nat, id: Id)
    /** `done`, `done_async`: the splitstream itself is stored, no task is left */
    | Finish(w: nat, id: Id)
    /** `register_stream` of an object stored before */
    | Register(w: nat, name: Name, id: Id)
    | BeginSync(w: nat)
    | EndSync(w: nat)
    /** `symlink`, which replaces atomically */
    | Symlink(w: nat)
    /** the two steps of `write_image` */
    | StoreImage(w: nat, id: Id)
    | LinkImage(w: nat)
    | WriteBackObject(id: Id)
    | WriteBackLink(name: Name)
    | WriteBackImage(id: Id)
    | Crash

  // ---- completeness of a stream ----

  ghost predicate Way(c: Contents, id: Id, way: seq<Id>)
    decreases |way|
  {
    way == [] || (way[0] in c(id).streams && Way(c, way[0], way[1..]))
  }

  function End(id: Id, way: seq<Id>): Id {
    if way == [] then id else way[|way| - 1]
  }

  /** The stream, every stream it links, directly or not, and all their objects are in `s`. */
  ghost predicate Complete(c: Contents, s: set<Id>, id: Id) {
    forall way :: Way(c, id, way) ==> Whole(c, s, End(id, way))
  }

  ghost predicate Whole(c: Contents, s: set<Id>, id: Id) {
    id in s && c(id).objects <= s
  }

  lemma CompleteGrows(c: Contents, s: set<Id>, t: set<Id>, id: Id)
    requires Complete(c, s, id) && s <= t
    ensures Complete(c, t, id)
  {
    forall way | Way(c, id, way)
      ensures Whole(c, t, End(id, way))
    {
      assert Whole(c, s, End(id, way));
    }
  }

  /** A stream is complete when it is there with its objects and the streams it links are. */
  lemma CompleteStream(c: Contents, s: set<Id>, id: Id)
    requires Whole(c, s, id) && forall x :: x in c(id).streams ==> Complete(c, s, x)
    ensures Complete(c, s, id)
  {
    forall way | Way(c, id, way)
      ensures Whole(c, s, End(id, way))
    {
      if way != [] {
        assert Complete(c, s, way[0]);
        assert End(id, way) == End(way[0], way[1..]);
      }
    }
  }

  // ---- steps ----

  function With(s: State, w: nat, writer: Writer): State {
    s.(writers := s.writers[w := writer])
  }

  /** The state after an action; `None` when it is not possible. */
  ghost function Next(c: Contents, s: State, a: Action): Option<State> {
    match a
    case Create(w, name) =>
      if w in s.writers then None else Some(With(s, w, Storing(name, {}, {}, {})))
    case StartStore(w, id) =>
      if w !in s.writers || !s.writers[w].Storing? then None
      else
        var p := s.writers[w];
        Some(With(s, w, p.(pending := p.pending + {id})))
    case EndStore(w, id) =>
      if w !in s.writers || !s.writers[w].Storing? || id !in s.writers[w].pending then None
      else
        var p := s.writers[w];
        Some(With(s.(objects := s.objects + {id}), w,
                  p.(pending := p.pending - {id}, stored := p.stored + {id})))
    case LinkStream(w, id) =>
      if w !in s.writers || !s.writers[w].Storing? || !Complete(c, s.objects, id) then None
      else
        var p := s.writers[w];
        Some(With(s, w, p.(linked := p.linked + {id})))
    case Finish(w, id) =>
      if w !in s.writers || !s.writers[w].Storing? || s.writers[w].pending != {}
        || c(id) != Listing(s.writers[w].stored, s.writers[w].linked) then None
      else Some(With(s.(objects := s.objects + {id}), w, Stored(s.writers[w].name, id)))
    case Register(w, name, id) =>
      if w in s.writers || !Complete(c, s.objects, id) then None
      else Some(With(s, w, Stored(name, id)))
    case BeginSync(w) =>
      if w !in s.writers || !s.writers[w].Stored? then None
      else Some(With(s, w, Syncing(s.writers[w].name, s.writers[w].id, s.objects)))
    case EndSync(w) =>
      if w !in s.writers || !s.writers[w].Syncing? then None
      else
        Some(With(s.(durable := s.durable + s.writers[w].dirty), w,
                  Synced(s.writers[w].name, s.writers[w].id)))
    case Symlink(w) =>
      if w !in s.writers || !s.writers[w].Synced? then None
      else
        var p := s.writers[w];
        Some(With(s.(links := s.links[p.name := p.id]), w, Published(p.name, p.id)))
    case StoreImage(w, id) =>
      if w in s.writers then None else Some(With(s.(objects := s.objects + {id}), w, ImageStored(id)))
    case LinkImage(w) =>
      if w !in s.writers || !s.writers[w].ImageStored? then None
      else Some(With(s.(images := s.images + {s.writers[w].id}), w, ImageLinked(s.writers[w].id)))
    case WriteBackObject(id) =>
      if id !in s.objects then None else Some(s.(durable := s.durable + {id}))
    case WriteBackLink(name) =>
      if name !in s.links then None
      else Some(s.(durableLinks := s.durableLinks[name := s.links[name]]))
    case WriteBackImage(id) =>
      if id !in s.images then None else Some(s.(durableImages := s.durableImages + {id}))
    case Crash =>
      Some(State(s.durable, s.durable, s.durableLinks, s.durableLinks, s.durableImages, s.durableImages, map[]))
  }

  const EMPTY: State := State({}, {}, map[], map[], {}, {}, map[])

  /** The state after a run from the empty repository, if it is possible. */
  ghost function After(c: Contents, run: seq<Action>): Option<State>
    decreases |run|
  {
    if run == [] then Some(EMPTY)
    else
      var n := |run| - 1;
      match After(c, run[..n])
      case None => None
      case Some(t) => Next(c, t, run[n])
  }

  ghost predicate Run(c: Contents, run: seq<Action>, s: State) {
    After(c, run) == Some(s)
  }

  // ---- the invariant ----

  ghost predicate WriterOk(c: Contents, s: State, p: Writer) {
    match p
    case Storing(_, stored, _, linked) =>
      stored <= s.objects && forall id :: id in linked ==> Complete(c, s.objects, id)
    case Stored(_, id) => Complete(c, s.objects, id)
    case Syncing(_, id, dirty) => dirty <= s.objects && Complete(c, dirty, id)
    case Synced(_, id) => Complete(c, s.durable, id)
    case Published(_, id) => Complete(c, s.durable, id)
    case ImageStored(id) => id in s.objects
    case ImageLinked(id) => id in s.objects
  }

  ghost predicate LinksComplete(c: Contents, s: set<Id>, links: map<Name, Id>) {
    forall n :: n in links ==> Complete(c, s, links[n])
  }

  ghost predicate Safe(c: Contents, s: State) {
    && s.durable <= s.objects
    && LinksComplete(c, s.durable, s.links) && LinksComplete(c, s.durable, s.durableLinks)
    && forall w :: w in s.writers ==> WriterOk(c, s, s.writers[w])
  }

  /** Growing files disturbs no writer. */
  lemma OthersOk(c: Contents, s: State, t: State, p: Writer)
    requires WriterOk(c, s, p) && s.objects <= t.objects && s.durable <= t.durable
    ensures WriterOk(c, t, p)
  {
    hide Complete;
    match p
    case Storing(_, stored, _, linked) =>
      forall id | id in linked
        ensures Complete(c, t.objects, id)
      {
        CompleteGrows(c, s.objects, t.objects, id);
      }
    case Stored(_, id) => CompleteGrows(c, s.objects, t.objects, id);
    case Syncing(_, _, _) =>
    case Synced(_, id) => CompleteGrows(c, s.durable, t.durable, id);
    case Published(_, id) => CompleteGrows(c, s.durable, t.durable, id);
    case ImageStored(_) =>
    case ImageLinked(_) =>
  }

  lemma LinksGrow(c: Contents, s: set<Id>, t: set<Id>, links: map<Name, Id>)
    requires LinksComplete(c, s, links) && s <= t
    ensures LinksComplete(c, t, links)
  {
    hide Complete;
    forall n | n in links
      ensures Complete(c, t, links[n])
    {
      CompleteGrows(c, s, t, links[n]);
    }
  }

  /** The writer that acts is fine in its new state. */
  lemma ActorOk(c: Contents, s: State, a: Action, t: State, w: nat)
    requires Safe(c, s) && Next(c, s, a) == Some(t) && !a.Crash?
    requires w in t.writers && (w !in s.writers || t.writers[w] != s.writers[w])
    ensures WriterOk(c, t, t.writers[w])
  {
    hide Complete;
    assert w in s.writers ==> WriterOk(c, s, s.writers[w]);
    match a
    case Create(_, _) =>
    case StartStore(_, _) =>
    case EndStore(_, _) => OthersOk(c, s, t, s.writers[w]);
    case LinkStream(_, _) =>
    case Finish(_, id) =>
      OthersOk(c, s, t, s.writers[w]);
      CompleteStream(c, t.objects, id);
    case Register(_, _, _) =>
    case BeginSync(_) =>
    case EndSync(_) => CompleteGrows(c, s.writers[w].dirty, t.durable, s.writers[w].id);
    case Symlink(_) =>
    case StoreImage(_, _) =>
    case LinkImage(_) =>
    case WriteBackObject(_) =>
    case WriteBackLink(_) =>
    case WriteBackImage(_) =>
  }

  lemma StepSafe(c: Contents, s: State, a: Action, t: State)
    requires Safe(c, s) && Next(c, s, a) == Some(t)
    ensures Safe(c, t)
  {
    hide Complete, WriterOk;
    if !a.Crash? {
      Grows(c, s, a, t);
      LinksGrow(c, s.durable, t.durable, s.links);
      LinksGrow(c, s.durable, t.durable, s.durableLinks);
      if a.Symlink? {
        SyncedIsComplete(c, s, a.w);
      }
      forall w | w in t.writers
        ensures WriterOk(c, t, t.writers[w])
      {
        if w in s.writers && t.writers[w] == s.writers[w] {
          OthersOk(c, s, t, s.writers[w]);
        } else {
          ActorOk(c, s, a, t, w);
        }
      }
    }
  }

  lemma SyncedIsComplete(c: Contents, s: State, w: nat)
    requires Safe(c, s) && w in s.writers && s.writers[w].Synced?
    ensures Complete(c, s.durable, s.writers[w].id)
  {
    hide Complete;
    assert WriterOk(c, s, s.writers[w]);
  }

  /** Without a crash nothing is lost, and only what exists becomes durable. */
  lemma Grows(c: Contents, s: State, a: Action, t: State)
    requires Safe(c, s) && Next(c, s, a) == Some(t) && !a.Crash?
    ensures s.objects <= t.objects && s.durable <= t.durable <= t.objects
  {
    hide Complete;
    if a.EndSync? {
      assert WriterOk(c, s, s.writers[a.w]);
    }
  }

  lemma {:induction false} RunSafe(c: Contents, run: seq<Action>, s: State)
    requires Run(c, run, s)
    ensures Safe(c, s)
    decreases |run|
  {
    hide Next, Safe;
    if run == [] {
      assert Safe(c, EMPTY) by {
        EmptySafe(c);
      }
    } else {
      var n := |run| - 1;
      var t := After(c, run[..n]).value;
      RunSafe(c, run[..n], t);
      StepSafe(c, t, run[n], s);
    }
  }

  lemma EmptySafe(c: Contents)
    ensures Safe(c, EMPTY)
  {
  }

  /** Crash safety: in every run, with any interleaving, writeback and earlier crashes, if the
      machine crashes now and a stream symlink survives, then the stream, every stream it
      links and all of their objects survive. */
  lemma CrashSafety(c: Contents, run: seq<Action>, s: State, after: State, name: Name)
    requires Run(c, run, s) && Next(c, s, Crash) == Some(after) && name in after.links
    ensures Complete(c, after.objects, after.links[name])
  {
    hide Complete;
    RunSafe(c, run, s);
  }

  /** A writer that is not disturbed gets its stream published, complete and durable. */
  lemma PublishedIsDurable(c: Contents, run: seq<Action>, s: State, w: nat)
    requires Run(c, run, s) && w in s.writers && s.writers[w].Published?
    ensures Complete(c, s.durable, s.writers[w].id)
  {
    hide Complete;
    RunSafe(c, run, s);
    assert WriterOk(c, s, s.writers[w]);
  }

  // ---- what a run has made durable ----

  ghost predicate Stores(a: Action, id: Id) {
    (a.EndStore? || a.Finish? || a.StoreImage?) && a.id == id
  }

  /** No crash after step `i`. */
  ghost predicate Quiet(run: seq<Action>, i: nat) {
    forall k :: i < k < |run| ==> !run[k].Crash?
  }

  ghost predicate StoredAt(run: seq<Action>, i: nat, id: Id) {
    i < |run| && Stores(run[i], id) && Quiet(run, i)
  }

  ghost predicate BeganAt(run: seq<Action>, j: nat, w: nat) {
    j < |run| && run[j] == BeginSync(w) && Quiet(run, j)
  }

  /** Step `k` ends a sync that began when the object was there. */
  ghost predicate SyncedAt(run: seq<Action>, k: nat, id: Id) {
    && k < |run| && run[k].EndSync?
    && exists i: nat, j: nat :: i < j < k && StoredAt(run[..k], i, id) && BeganAt(run[..k], j, run[k].w)
  }

  /** The object was written back, or stored and then synced without a crash between. */
  ghost predicate Flushed(run: seq<Action>, id: Id) {
    WriteBackObject(id) in run || exists k :: SyncedAt(run, k, id)
  }

  /** The object was flushed, or stored since the last crash. */
  ghost predicate Present(run: seq<Action>, id: Id) {
    Flushed(run, id) || exists i :: StoredAt(run, i, id)
  }

  lemma StoredNext(run: seq<Action>, a: Action, i: nat, id: Id)
    ensures StoredAt(run + [a], i, id) <==>
      (i == |run| && Stores(a, id)) || (!a.Crash? && StoredAt(run, i, id))
  {
    QuietNext(run, a, i);
  }

  lemma BeganNext(run: seq<Action>, a: Action, j: nat, w: nat)
    ensures BeganAt(run + [a], j, w) <==>
      (j == |run| && a == BeginSync(w)) || (!a.Crash? && j < |run| && BeganAt(run, j, w))
  {
    QuietNext(run, a, j);
  }

  lemma QuietNext(run: seq<Action>, a: Action, i: nat)
    ensures i < |run| ==> (Quiet(run + [a], i) <==> Quiet(run, i) && !a.Crash?)
    ensures i >= |run| ==> Quiet(run + [a], i)
  {
    var more := run + [a];
    assert more[|run|] == a && forall k :: 0 <= k < |run| ==> more[k] == run[k];
  }

  lemma SyncedNext(run: seq<Action>, a: Action, k: nat, id: Id)
    ensures SyncedAt(run + [a], k, id) <==>
      (k == |run| && a.EndSync? && exists i: nat, j: nat :: i < j < |run| && StoredAt(run, i, id) && BeganAt(run, j, a.w))
      || SyncedAt(run, k, id)
  {
    hide StoredAt, BeganAt;
    var more := run + [a];
    assert more[..|run|] == run && more[|run|] == a;
    assert k < |run| ==> more[..k] == run[..k] && more[k] == run[k];
  }

  /** What one more step adds. */
  lemma FlushedNext(run: seq<Action>, a: Action, id: Id)
    ensures Flushed(run + [a], id) <==>
      || Flushed(run, id) || a == WriteBackObject(id)
      || (a.EndSync? && exists i: nat, j: nat :: i < j < |run| && StoredAt(run, i, id) && BeganAt(run, j, a.w))
  {
    hide StoredAt, BeganAt, SyncedAt;
    var more := run + [a];
    assert WriteBackObject(id) in more <==> WriteBackObject(id) in run || a == WriteBackObject(id);
    forall k: nat
      ensures SyncedAt(more, k, id) <==>
        (k == |run| && a.EndSync? && exists i: nat, j: nat :: i < j < |run| && StoredAt(run, i, id) && BeganAt(run, j, a.w))
        || SyncedAt(run, k, id)
    {
      SyncedNext(run, a, k, id);
    }
    if a.EndSync? && exists i: nat, j: nat :: i < j < |run| && StoredAt(run, i, id) && BeganAt(run, j, a.w) {
      assert SyncedAt(more, |run|, id);
    }
  }

  lemma PresentNext(run: seq<Action>, a: Action, id: Id)
    ensures Present(run + [a], id) <==>
      || Flushed(run, id) || Stores(a, id) || a == WriteBackObject(id)
      || (!a.Crash? && Present(run, id))
  {
    hide StoredAt, BeganAt, Flushed, Stores;
    FlushedNext(run, a, id);
    forall i: nat
      ensures StoredAt(run + [a], i, id) <==>
        (i == |run| && Stores(a, id)) || (!a.Crash? && StoredAt(run, i, id))
    {
      StoredNext(run, a, i, id);
    }
    if Stores(a, id) {
      assert StoredAt(run + [a], |run|, id);
    }
  }

  /** A sync flushes what was there when it began. */
  lemma PresentBefore(run: seq<Action>, j: nat, w: nat, id: Id)
    requires BeganAt(run, j, w)
    ensures j < |run|
    ensures Present(run[..j], id) ==> Flushed(run, id) || exists i: nat :: i < j && StoredAt(run, i, id)
    ensures (exists i: nat :: i < j && StoredAt(run, i, id)) ==> Present(run[..j], id)
  {
    forall i: nat | i < j
      ensures StoredAt(run[..j], i, id) <==> StoredAt(run, i, id)
    {
      assert run[..j][i] == run[i];
      assert forall k :: i < k < j ==> run[..j][k] == run[k];
    }
    if Flushed(run[..j], id) {
      FlushedStays(run[..j], run, id);
    }
  }

  lemma FlushedStays(run: seq<Action>, more: seq<Action>, id: Id)
    requires run <= more && Flushed(run, id)
    ensures Flushed(more, id)
  {
    hide StoredAt, BeganAt;
    if k: nat :| SyncedAt(run, k, id) {
      assert run[..k] == more[..k] && run[k] == more[k];
      assert SyncedAt(more, k, id);
    }
  }

  /** What a state knows of the run that led to it. */
  ghost predicate Recalls(run: seq<Action>, s: State) {
    && (forall id :: id in s.durable <==> Flushed(run, id))
    && (forall id :: id in s.objects <==> Present(run, id))
    && (forall w :: w in s.writers && s.writers[w].Syncing? ==>
          exists j :: 0 <= j < |run| && BeganAt(run, j, w))
    && (forall w, j :: 0 <= j < |run| && BeganAt(run, j, w) ==> w in s.writers && Since(run[..j], s.writers[w]))
    && (forall id :: id in s.durableImages <==> WriteBackImage(id) in run)
  }

  /** A writer whose sync began after `run`. */
  ghost predicate Since(run: seq<Action>, p: Writer) {
    || p.Synced? || p.Published?
    || (p.Syncing? && forall id :: id in p.dirty <==> Present(run, id))
  }

  lemma StepRecalls(c: Contents, run: seq<Action>, s: State, a: Action, t: State)
    requires Recalls(run, s) && Next(c, s, a) == Some(t)
    ensures Recalls(run + [a], t)
  {
    hide Complete, Flushed, Present, BeganAt, StoredAt;
    var more := run + [a];
    forall id
      ensures id in t.durable <==> Flushed(more, id)
      ensures id in t.objects <==> Present(more, id)
      ensures id in t.durableImages <==> WriteBackImage(id) in more
    {
      FlushedNext(run, a, id);
      PresentNext(run, a, id);
      FlushedIsPresent(run, id);
      if a.EndSync? {
        EndRecalls(run, s, a.w, id);
      }
    }
    forall w | w in t.writers && t.writers[w].Syncing?
      ensures exists j :: 0 <= j < |more| && BeganAt(more, j, w)
    {
      if a == BeginSync(w) {
        BeganNext(run, a, |run|, w);
      } else {
        var j :| 0 <= j < |run| && BeganAt(run, j, w);
        BeganNext(run, a, j, w);
      }
    }
    forall w, j | 0 <= j < |more| && BeganAt(more, j, w)
      ensures w in t.writers && Since(more[..j], t.writers[w])
    {
      BeganNext(run, a, j, w);
      if j < |run| {
        assert more[..j] == run[..j];
        StillSince(c, run[..j], s, a, t, w);
      } else {
        assert more[..j] == run;
      }
    }
  }

  lemma FlushedIsPresent(run: seq<Action>, id: Id)
    ensures Flushed(run, id) ==> Present(run, id)
  {
  }

  /** A writer that has begun to sync only ends the sync and links. */
  lemma StillSince(c: Contents, run: seq<Action>, s: State, a: Action, t: State, w: nat)
    requires w in s.writers && Since(run, s.writers[w]) && Next(c, s, a) == Some(t) && !a.Crash?
    ensures w in t.writers && Since(run, t.writers[w])
  {
    hide Complete, Present;
  }

  /** What a sync in progress will flush, told from the run. */
  lemma EndRecalls(run: seq<Action>, s: State, w: nat, id: Id)
    requires Recalls(run, s) && w in s.writers && s.writers[w].Syncing?
    ensures id in s.durable || id in s.writers[w].dirty <==>
      Flushed(run, id) || exists i: nat, j: nat :: i < j < |run| && StoredAt(run, i, id) && BeganAt(run, j, w)
  {
    hide Flushed, Present, BeganAt, StoredAt;
    var j :| 0 <= j < |run| && BeganAt(run, j, w);
    PresentBefore(run, j, w, id);
    forall i: nat, k: nat | i < k < |run| && StoredAt(run, i, id) && BeganAt(run, k, w)
      ensures id in s.writers[w].dirty
    {
      PresentBefore(run, k, w, id);
    }
  }

  lemma {:induction false} RunRecalls(c: Contents, run: seq<Action>, s: State)
    requires Run(c, run, s)
    ensures Recalls(run, s)
    decreases |run|
  {
    hide Next, Recalls;
    if run == [] {
      EmptyRecalls();
    } else {
      var n := |run| - 1;
      var t := After(c, run[..n]).value;
      RunRecalls(c, run[..n], t);
      StepRecalls(c, run[..n], t, run[n], s);
      assert run == run[..n] + [run[n]];
    }
  }

  lemma EmptyRecalls()
    ensures Recalls([], EMPTY)
  {
  }

  // ---- images ----

  /** The image and all objects it refers to were flushed. */
  ghost predicate ImageFlushed(c: Contents, run: seq<Action>, id: Id) {
    Flushed(run, id) && forall x :: x in c(id).objects ==> Flushed(run, x)
  }

  /** After a crash a surviving image link leads to the image, with its objects, exactly when
      before the crash each of them was written back or synced by some writer. */
  lemma ImageSurvivesIff(c: Contents, run: seq<Action>, s: State, after: State, id: Id)
    requires Run(c, run, s) && Next(c, s, Crash) == Some(after) && id in after.images
    ensures WriteBackImage(id) in run
    ensures Whole(c, after.objects, id) <==> ImageFlushed(c, run, id)
  {
    hide Flushed, Present, BeganAt;
    RunRecalls(c, run, s);
  }

  /** A crash now would not leave a link to the image without its data. */
  ghost predicate SafeAfter(c: Contents, run: seq<Action>, id: Id)
    requires After(c, run).Some?
  {
    var s := After(c, run).value;
    id in s.durableImages ==> Whole(c, s.durable, id)
  }

  lemma SafeAfterIff(c: Contents, run: seq<Action>, id: Id)
    requires After(c, run).Some?
    ensures SafeAfter(c, run, id) <==> (WriteBackImage(id) in run ==> ImageFlushed(c, run, id))
  {
    hide Flushed, Present, BeganAt, After;
    RunRecalls(c, run, After(c, run).value);
  }

  /** A crash at no point of the run finds an image link without its data exactly when the link
      was never written back before the data was flushed. */
  lemma ImageAlwaysSafeIff(c: Contents, run: seq<Action>, id: Id)
    requires After(c, run).Some?
    ensures forall k :: 0 <= k <= |run| ==> After(c, run[..k]).Some?
    ensures (forall k :: 0 <= k <= |run| ==> SafeAfter(c, run[..k], id))
       <==> (forall k :: 0 <= k < |run| && run[k] == WriteBackImage(id) ==> ImageFlushed(c, run[..k], id))
  {
    hide After, ImageFlushed, SafeAfter;
    forall k | 0 <= k <= |run|
      ensures After(c, run[..k]).Some?
      ensures SafeAfter(c, run[..k], id) <==> (WriteBackImage(id) in run[..k] ==> ImageFlushed(c, run[..k], id))
    {
      Prefix(c, run, k);
      SafeAfterIff(c, run[..k], id);
    }
    if forall k :: 0 <= k <= |run| ==> SafeAfter(c, run[..k], id) {
      forall k | 0 <= k < |run| && run[k] == WriteBackImage(id)
        ensures ImageFlushed(c, run[..k], id)
      {
        assert run[..k + 1] == run[..k] + [run[k]];
        assert SafeAfter(c, run[..k + 1], id);
        LinkFlushesNothing(c, run[..k], id);
      }
    }
    if forall k :: 0 <= k < |run| && run[k] == WriteBackImage(id) ==> ImageFlushed(c, run[..k], id) {
      forall k | 0 <= k <= |run|
        ensures SafeAfter(c, run[..k], id)
      {
        if j :| 0 <= j < k && run[..k][j] == WriteBackImage(id) {
          assert run[j] == WriteBackImage(id);
          ImageFlushedStays(c, run[..j], run[..k], id);
        }
      }
    }
  }

  lemma {:induction false} Prefix(c: Contents, run: seq<Action>, k: nat)
    requires After(c, run).Some? && k <= |run|
    ensures After(c, run[..k]).Some?
    decreases |run| - k
  {
    if k < |run| {
      Prefix(c, run, k + 1);
      assert run[..k + 1][..k] == run[..k];
    } else {
      assert run[..k] == run;
    }
  }

  lemma LinkFlushesNothing(c: Contents, run: seq<Action>, id: Id)
    ensures ImageFlushed(c, run + [WriteBackImage(id)], id) <==> ImageFlushed(c, run, id)
  {
    hide Flushed;
    forall x
      ensures Flushed(run + [WriteBackImage(id)], x) <==> Flushed(run, x)
    {
      FlushedNext(run, WriteBackImage(id), x);
    }
  }

  lemma ImageFlushedStays(c: Contents, run: seq<Action>, more: seq<Action>, id: Id)
    requires run <= more && ImageFlushed(c, run, id)
    ensures ImageFlushed(c, more, id)
  {
    hide Flushed;
    FlushedStays(run, more, id);
    forall x | x in c(id).objects
      ensures Flushed(more, x)
    {
      FlushedStays(run, more, x);
    }
  }

  /** A run of `write_image` that a crash leaves with a link to nothing. */
  lemma ImageMayBeLost(c: Contents, id: Id)
    ensures
      var after := After(c, [StoreImage(0, id), LinkImage(0), WriteBackImage(id), Crash]);
      after.Some? && id in after.value.images && id !in after.value.objects
  {
    hide Next, After;
    var stored, linked := [StoreImage(0, id)], [StoreImage(0, id), LinkImage(0)];
    var written := linked + [WriteBackImage(id)];
    LosingSteps(c, id);
    AfterNext(c, [], StoreImage(0, id));
    AfterNext(c, stored, LinkImage(0));
    AfterNext(c, linked, WriteBackImage(id));
    AfterNext(c, written, Crash);
    assert [] + stored == stored && stored + [LinkImage(0)] == linked;
    assert written + [Crash] == [StoreImage(0, id), LinkImage(0), WriteBackImage(id), Crash];
  }

  lemma LosingSteps(c: Contents, id: Id)
    ensures
      var stored := EMPTY.(objects := {id}, writers := map[0 := ImageStored(id)]);
      var linked := stored.(images := {id}, writers := map[0 := ImageLinked(id)]);
      && After(c, []) == Some(EMPTY) && Next(c, EMPTY, StoreImage(0, id)) == Some(stored)
      && Next(c, stored, LinkImage(0)) == Some(linked)
      && Next(c, linked, WriteBackImage(id)) == Some(linked.(durableImages := {id}))
      && Next(c, linked.(durableImages := {id}), Crash) == Some(EMPTY.(images := {id}, durableImages := {id}))
  {
    hide Complete;
    var m: map<nat, Writer> := map[];
    assert m[0 := ImageStored(id)] == map[0 := ImageStored(id)];
    assert map[0 := ImageStored(id)][0 := ImageLinked(id)] == map[0 := ImageLinked(id)];
    assert EMPTY.objects + {id} == {id} && EMPTY.images + {id} == {id} && EMPTY.durableImages + {id} == {id};
  }

  lemma AfterNext(c: Contents, run: seq<Action>, a: Action)
    ensures After(c, run + [a])
         == (match After(c, run)
             case None => None
             case Some(s) => Next(c, s, a))
  {
    hide Next;
    assert (run + [a])[..|run|] == run;
  }
}
