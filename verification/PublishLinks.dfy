/** What publishing does to the names: a link is the last one made or, after a crash, the last
    one written back; and every stream can be published. */
module PublishLinks {
  import opened Bytes
  import opened Publish

  /** The symlink step makes the name of its writer lead to its stream and changes no other. */
  lemma SymlinkLinks(c: Contents, s: State, w: nat, t: State)
    requires Next(c, s, Symlink(w)) == Some(t)
    ensures w in s.writers && s.writers[w].Synced? && t.writers[w] == Published(s.writers[w].name, s.writers[w].id)
    ensures s.writers[w].name in t.links && t.links[s.writers[w].name] == s.writers[w].id
    ensures forall n :: n != s.writers[w].name ==> (n in t.links <==> n in s.links)
    ensures forall n :: n in s.links && n != s.writers[w].name ==> t.links[n] == s.links[n]
    ensures t.objects == s.objects && t.durable == s.durable && t.durableLinks == s.durableLinks
    ensures t.images == s.images && t.durableImages == s.durableImages
  {
  }

  // ---- what a run has linked ----

  /** Since the last crash writer `w` was created for the name. */
  ghost predicate CreatedSince(run: seq<Action>, w: nat, n: Name) {
    exists j: nat :: j < |run| && run[j] == Create(w, n) && Quiet(run, j)
  }

  /** Step `i` gives writer `w` its stream, to be published under the name. */
  ghost predicate ReadyAt(run: seq<Action>, i: nat, w: nat, n: Name, id: Id) {
    i < |run| && (run[i] == Register(w, n, id) || (run[i] == Finish(w, id) && CreatedSince(run[..i], w, n)))
  }

  ghost predicate ReadySince(run: seq<Action>, w: nat, n: Name, id: Id) {
    exists i: nat :: ReadyAt(run, i, w, n, id) && Quiet(run, i)
  }

  /** Step `k` makes the name a link to `id`. */
  ghost predicate LinksAt(run: seq<Action>, k: nat, n: Name, id: Id) {
    k < |run| && run[k].Symlink? && ReadySince(run[..k], run[k].w, n, id)
  }

  ghost predicate NamesAt(run: seq<Action>, k: nat, n: Name) {
    exists id :: LinksAt(run, k, n, id)
  }

  /** The last link made for the name since the last crash leads to `id`. */
  ghost predicate LinkedLast(run: seq<Action>, n: Name, id: Id) {
    exists k: nat ::
      LinksAt(run, k, n, id) && Quiet(run, k) && forall j: nat :: NamesAt(run, j, n) ==> j <= k
  }

  /** No link was made for the name since the last crash. */
  ghost predicate Unlinked(run: seq<Action>, n: Name) {
    forall k: nat :: NamesAt(run, k, n) ==> !Quiet(run, k)
  }

  /** The name leads to `id`: by the last link made since the last crash, or, when there was
      none, by the link that was written back before the crash. */
  ghost predicate Linked(run: seq<Action>, n: Name, id: Id)
    decreases |run|, 1
  {
    || LinkedLast(run, n, id)
    || (Unlinked(run, n)
        && exists k: nat :: k < |run| && run[k].Crash? && Quiet(run, k) && Kept(run[..k], n, id))
  }

  /** The last time the link of the name was written back, it led to `id`. */
  ghost predicate Kept(run: seq<Action>, n: Name, id: Id)
    decreases |run|, 0
  {
    exists k: nat ::
      && k < |run| && run[k] == WriteBackLink(n) && Linked(run[..k], n, id)
      && forall j :: k < j < |run| ==> run[j] != WriteBackLink(n)
  }

  lemma CreatedNext(run: seq<Action>, a: Action, w: nat, n: Name)
    ensures CreatedSince(run + [a], w, n) <==> a == Create(w, n) || (!a.Crash? && CreatedSince(run, w, n))
  {
    var more := run + [a];
    forall j: nat
      ensures j < |more| && more[j] == Create(w, n) && Quiet(more, j) <==>
        || (j == |run| && a == Create(w, n))
        || (!a.Crash? && j < |run| && run[j] == Create(w, n) && Quiet(run, j))
    {
      QuietNext(run, a, j);
    }
    assert a == Create(w, n) ==> more[|run|] == Create(w, n);
  }

  lemma ReadyAtNext(run: seq<Action>, a: Action, i: nat, w: nat, n: Name, id: Id)
    ensures ReadyAt(run + [a], i, w, n, id) <==>
      || (i == |run| && (a == Register(w, n, id) || (a == Finish(w, id) && CreatedSince(run, w, n))))
      || ReadyAt(run, i, w, n, id)
  {
    hide CreatedSince;
    assert i <= |run| ==> (run + [a])[..i] == run[..i];
    assert run[..|run|] == run;
  }

  lemma ReadyNext(run: seq<Action>, a: Action, w: nat, n: Name, id: Id)
    ensures ReadySince(run + [a], w, n, id) <==>
      || a == Register(w, n, id) || (a == Finish(w, id) && CreatedSince(run, w, n))
      || (!a.Crash? && ReadySince(run, w, n, id))
  {
    hide CreatedSince, ReadyAt, Quiet;
    var more := run + [a];
    forall i: nat
      ensures ReadyAt(more, i, w, n, id) && Quiet(more, i) <==>
        || (i == |run| && (a == Register(w, n, id) || (a == Finish(w, id) && CreatedSince(run, w, n))))
        || (!a.Crash? && ReadyAt(run, i, w, n, id) && Quiet(run, i))
    {
      ReadyAtNext(run, a, i, w, n, id);
      ReadyAtInside(run, i, w, n, id);
      QuietNext(run, a, i);
    }
    if a == Register(w, n, id) || (a == Finish(w, id) && CreatedSince(run, w, n)) {
      assert ReadyAt(more, |run|, w, n, id) && Quiet(more, |run|);
    }
  }

  lemma ReadyAtInside(run: seq<Action>, i: nat, w: nat, n: Name, id: Id)
    ensures ReadyAt(run, i, w, n, id) ==> i < |run|
  {
  }

  lemma LinksAtNext(run: seq<Action>, a: Action, k: nat, n: Name, id: Id)
    ensures LinksAt(run, k, n, id) ==> k < |run|
    ensures LinksAt(run + [a], k, n, id) <==>
      (k == |run| && a.Symlink? && ReadySince(run, a.w, n, id)) || LinksAt(run, k, n, id)
  {
    hide ReadySince;
    assert k <= |run| ==> (run + [a])[..k] == run[..k];
    assert run[..|run|] == run;
  }

  ghost predicate MakesLink(run: seq<Action>, a: Action, n: Name) {
    a.Symlink? && exists id :: ReadySince(run, a.w, n, id)
  }

  lemma NamesNext(run: seq<Action>, a: Action, k: nat, n: Name)
    ensures NamesAt(run, k, n) ==> k < |run|
    ensures NamesAt(run + [a], k, n) <==> (k == |run| && MakesLink(run, a, n)) || NamesAt(run, k, n)
  {
    hide ReadySince, LinksAt;
    forall id
      ensures LinksAt(run, k, n, id) ==> k < |run|
      ensures LinksAt(run + [a], k, n, id) <==>
        (k == |run| && a.Symlink? && ReadySince(run, a.w, n, id)) || LinksAt(run, k, n, id)
    {
      LinksAtNext(run, a, k, n, id);
    }
  }

  lemma LinkedLastNext(run: seq<Action>, a: Action, n: Name, id: Id)
    ensures LinkedLast(run + [a], n, id) <==>
      if MakesLink(run, a, n) then ReadySince(run, a.w, n, id) else !a.Crash? && LinkedLast(run, n, id)
  {
    hide ReadySince, LinksAt, NamesAt, MakesLink, Quiet;
    var more := run + [a];
    forall k: nat
      ensures NamesAt(run, k, n) ==> k < |run|
      ensures NamesAt(more, k, n) <==> (k == |run| && MakesLink(run, a, n)) || NamesAt(run, k, n)
      ensures LinksAt(run, k, n, id) ==> k < |run|
      ensures LinksAt(more, k, n, id) <==>
        (k == |run| && a.Symlink? && ReadySince(run, a.w, n, id)) || LinksAt(run, k, n, id)
      ensures k < |run| ==> (Quiet(more, k) <==> Quiet(run, k) && !a.Crash?)
      ensures k >= |run| ==> Quiet(more, k)
    {
      NamesNext(run, a, k, n);
      LinksAtNext(run, a, k, n, id);
      QuietNext(run, a, k);
    }
    ReadyMakes(run, a, n, id);
    if MakesLink(run, a, n) {
      assert NamesAt(more, |run|, n);
      if ReadySince(run, a.w, n, id) {
        assert LinksAt(more, |run|, n, id) && Quiet(more, |run|);
      }
    } else if !a.Crash? && LinkedLast(run, n, id) {
      var k: nat :| LinksAt(run, k, n, id) && Quiet(run, k) && forall j: nat :: NamesAt(run, j, n) ==> j <= k;
      assert LinksAt(more, k, n, id) && Quiet(more, k);
    }
  }

  lemma ReadyMakes(run: seq<Action>, a: Action, n: Name, id: Id)
    ensures a.Symlink? && ReadySince(run, a.w, n, id) ==> MakesLink(run, a, n)
    ensures MakesLink(run, a, n) ==> a.Symlink?
  {
  }

  lemma UnlinkedNext(run: seq<Action>, a: Action, n: Name)
    ensures Unlinked(run + [a], n) <==> a.Crash? || (Unlinked(run, n) && !MakesLink(run, a, n))
  {
    hide NamesAt, MakesLink, Quiet;
    var more := run + [a];
    forall k: nat
      ensures NamesAt(run, k, n) ==> k < |run|
      ensures NamesAt(more, k, n) <==> (k == |run| && MakesLink(run, a, n)) || NamesAt(run, k, n)
      ensures k < |run| ==> (Quiet(more, k) <==> Quiet(run, k) && !a.Crash?)
      ensures k >= |run| ==> Quiet(more, k)
    {
      NamesNext(run, a, k, n);
      QuietNext(run, a, k);
    }
    MakesNoCrash(run, a, n);
    if Unlinked(more, n) && !a.Crash? {
      assert !NamesAt(more, |run|, n);
    }
  }

  lemma MakesNoCrash(run: seq<Action>, a: Action, n: Name)
    ensures MakesLink(run, a, n) ==> !a.Crash?
  {
  }

  /** A link was written back before the last crash. */
  ghost predicate KeptBefore(run: seq<Action>, n: Name, id: Id) {
    exists k: nat :: k < |run| && run[k].Crash? && Quiet(run, k) && Kept(run[..k], n, id)
  }

  lemma KeptBeforeNext(run: seq<Action>, a: Action, n: Name, id: Id)
    ensures KeptBefore(run + [a], n, id) <==> if a.Crash? then Kept(run, n, id) else KeptBefore(run, n, id)
  {
    hide Kept, Quiet;
    var more := run + [a];
    forall k: nat
      ensures k < |more| && more[k].Crash? && Quiet(more, k) && Kept(more[..k], n, id) <==>
        || (k == |run| && a.Crash? && Kept(run, n, id))
        || (!a.Crash? && k < |run| && run[k].Crash? && Quiet(run, k) && Kept(run[..k], n, id))
    {
      QuietNext(run, a, k);
      assert k <= |run| ==> more[..k] == run[..k];
      assert run[..|run|] == run;
    }
    if a.Crash? && Kept(run, n, id) {
      assert more[|run|].Crash? && Quiet(more, |run|) && Kept(more[..|run|], n, id);
    }
  }

  lemma LinkedNext(run: seq<Action>, a: Action, n: Name, id: Id)
    ensures Linked(run + [a], n, id) <==>
      if a.Crash? then Kept(run, n, id)
      else if MakesLink(run, a, n) then ReadySince(run, a.w, n, id)
      else Linked(run, n, id)
  {
    hide Kept, Quiet, LinkedLast, Unlinked, MakesLink, ReadySince;
    LinkedLastNext(run, a, n, id);
    UnlinkedNext(run, a, n);
    KeptBeforeNext(run, a, n, id);
    MakesNoCrash(run, a, n);
    LinkedIs(run, n, id);
    LinkedIs(run + [a], n, id);
  }

  lemma LinkedIs(run: seq<Action>, n: Name, id: Id)
    ensures Linked(run, n, id) <==> LinkedLast(run, n, id) || (Unlinked(run, n) && KeptBefore(run, n, id))
  {
    hide Kept, Quiet, LinkedLast, Unlinked;
  }

  lemma KeptNext(run: seq<Action>, a: Action, n: Name, id: Id)
    ensures Kept(run + [a], n, id) <==> if a == WriteBackLink(n) then Linked(run, n, id) else Kept(run, n, id)
  {
    hide Linked;
    var more := run + [a];
    assert more[|run|] == a && more[..|run|] == run;
    if k: nat :| k < |more| && more[k] == WriteBackLink(n) && Linked(more[..k], n, id)
                 && forall j :: k < j < |more| ==> more[j] != WriteBackLink(n) {
      if k < |run| {
        assert more[..k] == run[..k] && run[k] == WriteBackLink(n);
        assert forall j :: k < j < |run| ==> more[j] == run[j];
      }
    }
    if a != WriteBackLink(n) && Kept(run, n, id) {
      var k: nat :| k < |run| && run[k] == WriteBackLink(n) && Linked(run[..k], n, id)
                    && forall j :: k < j < |run| ==> run[j] != WriteBackLink(n);
      assert more[..k] == run[..k] && more[k] == WriteBackLink(n);
    }
    if a == WriteBackLink(n) && Linked(run, n, id) {
      assert more[|run|] == WriteBackLink(n) && Linked(more[..|run|], n, id);
    }
  }

  // ---- the state knows ----

  predicate Called(p: Writer, n: Name) {
    !p.ImageStored? && !p.ImageLinked? && p.name == n
  }

  predicate HasStream(p: Writer, n: Name, id: Id) {
    (p.Stored? || p.Syncing? || p.Synced? || p.Published?) && p.name == n && p.id == id
  }

  /** Where a writer stands, as the run tells it. */
  ghost predicate WriterKnown(run: seq<Action>, s: State, w: nat) {
    && (forall n :: CreatedSince(run, w, n) ==> w in s.writers && Called(s.writers[w], n))
    && (forall n, id :: ReadySince(run, w, n, id) ==> w in s.writers && HasStream(s.writers[w], n, id))
    && (w in s.writers && s.writers[w].Storing? ==> CreatedSince(run, w, s.writers[w].name))
    && (forall n, id :: w in s.writers && HasStream(s.writers[w], n, id) ==> ReadySince(run, w, n, id))
  }

  ghost predicate WritersKnown(run: seq<Action>, s: State) {
    forall w: nat :: WriterKnown(run, s, w)
  }

  /** What a step that is no crash does to a writer. */
  lemma WriterStep(c: Contents, s: State, a: Action, t: State, w: nat)
    requires Next(c, s, a) == Some(t) && !a.Crash?
    ensures w in s.writers ==> w in t.writers
    ensures w in s.writers ==> forall n :: Called(s.writers[w], n) ==> Called(t.writers[w], n) && a != Create(w, n)
    ensures w in s.writers ==> forall n, id ::
      HasStream(s.writers[w], n, id) ==> HasStream(t.writers[w], n, id)
    ensures forall n :: a == Create(w, n) ==> w !in s.writers && w in t.writers && t.writers[w] == Storing(n, {}, {}, {})
    ensures forall n, id :: a == Register(w, n, id) ==>
      w !in s.writers && w in t.writers && t.writers[w] == Stored(n, id)
    ensures forall id :: a == Finish(w, id) ==>
      w in s.writers && w in t.writers && s.writers[w].Storing? && t.writers[w] == Stored(s.writers[w].name, id)
    ensures w in t.writers && t.writers[w].Storing? ==>
      (w in s.writers && s.writers[w].Storing? && s.writers[w].name == t.writers[w].name)
      || a == Create(w, t.writers[w].name)
    ensures forall n, id :: w in t.writers && HasStream(t.writers[w], n, id) ==>
      || (w in s.writers && HasStream(s.writers[w], n, id)) || a == Register(w, n, id)
      || (a == Finish(w, id) && w in s.writers && s.writers[w].Storing? && s.writers[w].name == n)
  {
    hide Complete;
  }

  lemma WriterNext(c: Contents, run: seq<Action>, s: State, a: Action, t: State, w: nat)
    requires WriterKnown(run, s, w) && Next(c, s, a) == Some(t)
    ensures WriterKnown(run + [a], t, w)
  {
    hide Complete, CreatedSince, ReadySince, Next, Called, HasStream;
    var more := run + [a];
    forall n
      ensures CreatedSince(more, w, n) <==> a == Create(w, n) || (!a.Crash? && CreatedSince(run, w, n))
    {
      CreatedNext(run, a, w, n);
    }
    forall n, id
      ensures ReadySince(more, w, n, id) <==>
        || a == Register(w, n, id) || (a == Finish(w, id) && CreatedSince(run, w, n))
        || (!a.Crash? && ReadySince(run, w, n, id))
    {
      ReadyNext(run, a, w, n, id);
    }
    CalledIs();
    if a.Crash? {
      AllStop(c, s, t);
    } else {
      WriterStep(c, s, a, t, w);
    }
  }

  lemma CalledIs()
    ensures forall p: Writer, n :: p.Storing? ==> (Called(p, n) <==> p.name == n)
    ensures forall p: Writer, n, id :: p.Stored? ==> (HasStream(p, n, id) <==> p.name == n && p.id == id)
    ensures forall p: Writer, n :: p.Stored? ==> (Called(p, n) <==> p.name == n)
  {
  }

  lemma AllStop(c: Contents, s: State, t: State)
    requires Next(c, s, Crash) == Some(t)
    ensures t.writers == map[]
  {
  }

  lemma WritersNext(c: Contents, run: seq<Action>, s: State, a: Action, t: State)
    requires WritersKnown(run, s) && Next(c, s, a) == Some(t)
    ensures WritersKnown(run + [a], t)
  {
    hide Next, WriterKnown;
    forall w: nat
      ensures WriterKnown(run + [a], t, w)
    {
      WriterNext(c, run, s, a, t, w);
    }
  }

  ghost predicate LinksKnown(run: seq<Action>, s: State) {
    && (forall n, id :: n in s.links && s.links[n] == id <==> Linked(run, n, id))
    && (forall n, id :: n in s.durableLinks && s.durableLinks[n] == id <==> Kept(run, n, id))
  }

  lemma LinksNext(c: Contents, run: seq<Action>, s: State, a: Action, t: State)
    requires WritersKnown(run, s) && LinksKnown(run, s) && Next(c, s, a) == Some(t)
    ensures LinksKnown(run + [a], t)
  {
    hide Complete, CreatedSince, ReadySince, Linked, Kept;
    assert a.Symlink? ==> WriterKnown(run, s, a.w);
    forall n, id
      ensures n in t.links && t.links[n] == id <==> Linked(run + [a], n, id)
      ensures n in t.durableLinks && t.durableLinks[n] == id <==> Kept(run + [a], n, id)
    {
      LinkedNext(run, a, n, id);
      KeptNext(run, a, n, id);
      if a.Symlink? {
        var p := s.writers[a.w];
        assert HasStream(p, p.name, p.id);
      }
    }
  }

  lemma {:induction false} RunKnown(c: Contents, run: seq<Action>, s: State)
    requires Run(c, run, s)
    ensures WritersKnown(run, s) && LinksKnown(run, s)
    decreases |run|
  {
    hide Next, WritersKnown, LinksKnown;
    if run == [] {
      EmptyKnown();
    } else {
      var n := |run| - 1;
      var t := After(c, run[..n]).value;
      RunKnown(c, run[..n], t);
      WritersNext(c, run[..n], t, run[n], s);
      LinksNext(c, run[..n], t, run[n], s);
      assert run == run[..n] + [run[n]];
    }
  }

  lemma EmptyKnown()
    ensures WritersKnown([], EMPTY) && LinksKnown([], EMPTY)
  {
  }

  /** In every run a name leads to an object exactly when the last link made for it since the last
      crash does, or there is none and the link written back before the crash does. */
  lemma LinkIff(c: Contents, run: seq<Action>, s: State, n: Name, id: Id)
    requires Run(c, run, s)
    ensures n in s.links && s.links[n] == id <==> Linked(run, n, id)
  {
    hide Linked, Kept;
    RunKnown(c, run, s);
  }

  /** A link survives a crash exactly as it was when it was last written back. */
  lemma SurvivingLinkIff(c: Contents, run: seq<Action>, s: State, after: State, n: Name, id: Id)
    requires Run(c, run, s) && Next(c, s, Crash) == Some(after)
    ensures n in after.links && after.links[n] == id <==> Kept(run, n, id)
  {
    hide Linked, Kept;
    RunKnown(c, run, s);
  }

  // ---- every stream can be published ----

  lemma OneMore(c: Contents, run: seq<Action>, s: State, a: Action, t: State)
    requires Run(c, run, s) && Next(c, s, a) == Some(t)
    ensures Run(c, run + [a], t)
  {
    hide Next;
    AfterNext(c, run, a);
  }

  /** The state with a writer that stands as given. */
  function Standing(s: State, objects: set<Id>, w: nat, p: Writer): State {
    s.(objects := objects, writers := s.writers[w := p])
  }

  lemma StoreSteps(c: Contents, s: State, w: nat, n: Name, stored: set<Id>, linked: set<Id>, x: Id)
    returns (t: State)
    requires w in s.writers && s.writers[w] == Storing(n, stored, {}, linked)
    ensures Next(c, s, StartStore(w, x)) == Some(t)
    ensures Next(c, t, EndStore(w, x))
         == Some(Standing(s, s.objects + {x}, w, Storing(n, stored + {x}, {}, linked)))
  {
    hide Complete;
    t := With(s, w, Storing(n, stored, {x}, linked));
    var none: set<Id> := {};
    assert none + {x} == {x} && {x} - {x} == none;
    assert t.writers[w := Storing(n, stored + {x}, {}, linked)] == s.writers[w := Storing(n, stored + {x}, {}, linked)];
  }

  lemma {:induction false} StoreAll(c: Contents, run: seq<Action>, s: State, w: nat, n: Name, stored: set<Id>,
                                    linked: set<Id>, rest: set<Id>) returns (all: seq<Action>, t: State)
    requires Run(c, run, s) && w in s.writers && s.writers[w] == Storing(n, stored, {}, linked)
    ensures run <= all && Run(c, all, t)
    ensures t == Standing(s, s.objects + rest, w, Storing(n, stored + rest, {}, linked))
    decreases rest
  {
    hide Next, Run;
    if rest == {} {
      all, t := run, s;
      assert s.objects + rest == s.objects && stored + rest == stored;
    } else {
      var x :| x in rest;
      var u := StoreSteps(c, s, w, n, stored, linked, x);
      var v := Standing(s, s.objects + {x}, w, Storing(n, stored + {x}, {}, linked));
      OneMore(c, run, s, StartStore(w, x), u);
      OneMore(c, run + [StartStore(w, x)], u, EndStore(w, x), v);
      all, t := StoreAll(c, run + [StartStore(w, x)] + [EndStore(w, x)], v, w, n, stored + {x}, linked, rest - {x});
      assert s.objects + {x} + (rest - {x}) == s.objects + rest && stored + {x} + (rest - {x}) == stored + rest;
    }
  }

  lemma LinkStep(c: Contents, s: State, w: nat, n: Name, stored: set<Id>, linked: set<Id>, x: Id)
    requires w in s.writers && s.writers[w] == Storing(n, stored, {}, linked) && Complete(c, s.objects, x)
    ensures Next(c, s, LinkStream(w, x)) == Some(Standing(s, s.objects, w, Storing(n, stored, {}, linked + {x})))
  {
    hide Complete;
  }

  lemma {:induction false} LinkAll(c: Contents, run: seq<Action>, s: State, w: nat, n: Name, stored: set<Id>,
                                   linked: set<Id>, rest: set<Id>) returns (all: seq<Action>, t: State)
    requires Run(c, run, s) && w in s.writers && s.writers[w] == Storing(n, stored, {}, linked)
    requires forall x :: x in rest ==> Complete(c, s.objects, x)
    ensures run <= all && Run(c, all, t)
    ensures t == Standing(s, s.objects, w, Storing(n, stored, {}, linked + rest))
    decreases rest
  {
    hide Next, Run, Complete;
    if rest == {} {
      all, t := run, s;
      assert linked + rest == linked;
    } else {
      var x :| x in rest;
      LinkStep(c, s, w, n, stored, linked, x);
      var v := Standing(s, s.objects, w, Storing(n, stored, {}, linked + {x}));
      OneMore(c, run, s, LinkStream(w, x), v);
      all, t := LinkAll(c, run + [LinkStream(w, x)], v, w, n, stored, linked + {x}, rest - {x});
      assert linked + {x} + (rest - {x}) == linked + rest;
    }
  }

  /** The last steps of a writer whose parts are there. */
  lemma LastSteps(c: Contents, s: State, w: nat, n: Name, id: Id) returns (a: State, b: State, d: State, t: State)
    requires w in s.writers && s.writers[w] == Storing(n, c(id).objects, {}, c(id).streams)
    ensures Next(c, s, Finish(w, id)) == Some(a) && Next(c, a, BeginSync(w)) == Some(b)
    ensures Next(c, b, EndSync(w)) == Some(d) && Next(c, d, Symlink(w)) == Some(t)
    ensures t == Standing(s, s.objects + {id}, w, Published(n, id)).(
                   durable := s.durable + (s.objects + {id}), links := s.links[n := id])
  {
    hide Complete;
    a := Standing(s, s.objects + {id}, w, Stored(n, id));
    b := Standing(s, s.objects + {id}, w, Syncing(n, id, s.objects + {id}));
    d := Standing(s, s.objects + {id}, w, Synced(n, id)).(durable := s.durable + (s.objects + {id}));
    t := Standing(s, s.objects + {id}, w, Published(n, id)).(
           durable := s.durable + (s.objects + {id}), links := s.links[n := id]);
    assert a.writers[w := Syncing(n, id, s.objects + {id})] == b.writers;
    assert b.writers[w := Synced(n, id)] == d.writers && d.writers[w := Published(n, id)] == t.writers;
  }

  /** Whatever has happened before, a stream whose linked streams are there can be published under
      any name: the name leads to it, no other name changes, and nothing that was there is lost. */
  lemma AnyStreamCanBePublished(c: Contents, run: seq<Action>, s: State, w: nat, n: Name, id: Id)
    returns (all: seq<Action>, t: State)
    requires Run(c, run, s) && w !in s.writers
    requires forall x :: x in c(id).streams ==> Complete(c, s.objects, x)
    ensures run <= all && Run(c, all, t)
    ensures t.links == s.links[n := id] && t.writers == s.writers[w := Published(n, id)]
    ensures t.objects == s.objects + c(id).objects + {id} && t.objects <= t.durable
    ensures t.durableLinks == s.durableLinks
  {
    hide Next, Run, Complete;
    var empty: set<Id> := {};
    var first := With(s, w, Storing(n, {}, {}, {}));
    CreateStep(c, s, w, n);
    OneMore(c, run, s, Create(w, n), first);
    var stored, u := StoreAll(c, run + [Create(w, n)], first, w, n, {}, {}, c(id).objects);
    forall x | x in c(id).streams
      ensures Complete(c, u.objects, x)
    {
      CompleteGrows(c, s.objects, u.objects, x);
    }
    assert empty + c(id).objects == c(id).objects && empty + c(id).streams == c(id).streams;
    var linked, v := LinkAll(c, stored, u, w, n, c(id).objects, {}, c(id).streams);
    var a, b, d;
    a, b, d, t := LastSteps(c, v, w, n, id);
    OneMore(c, linked, v, Finish(w, id), a);
    OneMore(c, linked + [Finish(w, id)], a, BeginSync(w), b);
    OneMore(c, linked + [Finish(w, id)] + [BeginSync(w)], b, EndSync(w), d);
    OneMore(c, linked + [Finish(w, id)] + [BeginSync(w)] + [EndSync(w)], d, Symlink(w), t);
    all := linked + [Finish(w, id)] + [BeginSync(w)] + [EndSync(w)] + [Symlink(w)];
  }

  lemma CreateStep(c: Contents, s: State, w: nat, n: Name)
    requires w !in s.writers
    ensures Next(c, s, Create(w, n)) == Some(With(s, w, Storing(n, {}, {}, {})))
  {
  }

  /** Once the link is written back too, the stream is there after a crash, by its name and with
      all that it links. */
  lemma PublishedCanSurvive(c: Contents, run: seq<Action>, s: State, w: nat, n: Name, id: Id)
    returns (all: seq<Action>, after: State)
    requires Run(c, run, s) && w !in s.writers
    requires forall x :: x in c(id).streams ==> Complete(c, s.objects, x)
    ensures run <= all && Run(c, all + [WriteBackLink(n)] + [Crash], after)
    ensures n in after.links && after.links[n] == id && Complete(c, after.objects, id)
  {
    hide Next, Run, Complete;
    var t;
    all, t := AnyStreamCanBePublished(c, run, s, w, n, id);
    var u := WriteBackStep(c, t, n);
    OneMore(c, all, t, WriteBackLink(n), u);
    after := CrashStep(c, u);
    OneMore(c, all + [WriteBackLink(n)], u, Crash, after);
    CrashSafety(c, all + [WriteBackLink(n)], u, after, n);
  }

  lemma WriteBackStep(c: Contents, s: State, n: Name) returns (t: State)
    requires n in s.links
    ensures Next(c, s, WriteBackLink(n)) == Some(t) && n in t.durableLinks && t.durableLinks[n] == s.links[n]
  {
    t := s.(durableLinks := s.durableLinks[n := s.links[n]]);
  }

  lemma CrashStep(c: Contents, s: State) returns (after: State)
    ensures Next(c, s, Crash) == Some(after) && after.links == s.durableLinks
  {
    after := Next(c, s, Crash).value;
  }
}
