/** Any sequence of writer calls reads back: data, size, object references and names. */
module SplitstreamTheorem {
  import opened Bytes
  import opened Splitstream
  import opened SplitstreamReader

  datatype Call =
    | WriteInline(data: bytes)
    | WriteExternal(data: bytes)
    | WriteReference(id: Id)
    | AddExternalSize(size: nat)
    | AddObjectRef(id: Id)
    | AddNamedStreamRef(name: bytes, id: Id)

  function Apply(repo: Repo, c: Draft, call: Call): Draft {
    match call
    case WriteInline(data) => WithInline(c, data)
    case WriteExternal(data) => WithExternal(c, repo, data)
    case WriteReference(id) => WithReference(c, id)
    case AddExternalSize(size) => c.(totalSize := c.totalSize + size)
    case AddObjectRef(id) => WithObject(c, id)
    case AddNamedStreamRef(name, id) => WithNamed(c, name, id)
  }

  function ApplyAll(repo: Repo, calls: seq<Call>, contentType: nat): Draft
    decreases |calls|
  {
    if calls == [] then EmptyContents(contentType)
    else Apply(repo, ApplyAll(repo, calls[..|calls| - 1], contentType), calls[|calls| - 1])
  }

  ghost predicate GoodCall(repo: Repo, call: Call) {
    match call
    case WriteInline(_) => true
    case WriteExternal(data) => repo.Keeps(data)
    case WriteReference(id) => |id| == repo.idSize
    case AddExternalSize(_) => true
    case AddObjectRef(id) => |id| == repo.idSize
    case AddNamedStreamRef(name, id) =>
      |id| == repo.idSize && forall i :: 0 <= i < |name| ==> name[i] != 0
  }

  ghost predicate GoodCalls(repo: Repo, calls: seq<Call>) {
    forall i :: 0 <= i < |calls| ==> GoodCall(repo, calls[i])
  }

  // ---- what the calls mean ----

  /** All data given or referred to, in order. */
  function DataOf(repo: Repo, calls: seq<Call>): bytes
    decreases |calls|
  {
    if calls == [] then []
    else
      DataOf(repo, calls[..|calls| - 1])
      + (match calls[|calls| - 1]
         case WriteInline(data) => data
         case WriteExternal(data) => data
         case WriteReference(id) => repo.load(id)
         case _ => [])
  }

  /** The length of all objects referred to directly, which the writer does not count. */
  function Referenced(repo: Repo, calls: seq<Call>): nat
    decreases |calls|
  {
    if calls == [] then 0
    else
      Referenced(repo, calls[..|calls| - 1])
      + (match calls[|calls| - 1] case WriteReference(id) => |repo.load(id)| case _ => 0)
  }

  /** The sum of the sizes that the caller added. */
  function Added(calls: seq<Call>): nat
    decreases |calls|
  {
    if calls == [] then 0
    else
      Added(calls[..|calls| - 1]) + (match calls[|calls| - 1] case AddExternalSize(size) => size case _ => 0)
  }

  /** The ids of the objects referred to, in order, with repetitions. */
  function ObjectsOf(repo: Repo, calls: seq<Call>): seq<Id>
    decreases |calls|
  {
    if calls == [] then []
    else
      ObjectsOf(repo, calls[..|calls| - 1])
      + (match calls[|calls| - 1]
         case WriteExternal(data) => [repo.idOf(data)]
         case WriteReference(id) => [id]
         case AddObjectRef(id) => [id]
         case _ => [])
  }

  function NamesOf(calls: seq<Call>): map<bytes, Id>
    decreases |calls|
  {
    if calls == [] then map[]
    else
      var m := NamesOf(calls[..|calls| - 1]);
      match calls[|calls| - 1]
      case AddNamedStreamRef(name, id) => m[name := id]
      case _ => m
  }

  // ---- object references ----

  /** `r` lists what occurs in `ids`, each once, in the order of the first occurrences. */
  ghost predicate FirstAppearances(r: seq<Id>, ids: seq<Id>) {
    && Distinct(r) && (forall x :: x in r <==> x in ids)
    && forall x, y :: x in r && y in r ==> (IndexOf(r, x) < IndexOf(r, y) <==> IndexOf(ids, x) < IndexOf(ids, y))
  }

  lemma AppearsNext(r: seq<Id>, ids: seq<Id>, x: Id)
    requires FirstAppearances(r, ids)
    ensures FirstAppearances(Ensured(r, x), ids + [x])
  {
    hide IndexOf;
    var more, all := Ensured(r, x), ids + [x];
    forall a | a in more
      ensures a in all
      ensures a in ids ==> IndexOf(all, a) == IndexOf(ids, a) && IndexOf(more, a) == IndexOf(r, a)
      ensures a !in ids ==> a == x && IndexOf(all, a) == |ids| && IndexOf(more, a) == |r|
    {
      if a in ids {
        IndexStays(ids, all, a);
        IndexStays(r, more, a);
      } else {
        assert all[|ids|] == x && more[|r|] == x;
        LastIndex(ids, x);
        LastIndex(r, x);
      }
    }
  }

  lemma LastIndex(items: seq<Id>, x: Id)
    requires x !in items
    ensures IndexOf(items + [x], x) == |items|
  {
    var all := items + [x];
    var i := IndexOf(all, x);
    assert all[|items|] == x;
    if i < |items| {
      assert false;
    }
  }

  // ---- named references ----

  ghost predicate SortedNames(named: seq<NamedIndex>) {
    forall i, j :: 0 <= i < j < |named| ==> Less(named[i].name, named[j].name)
  }

  lemma {:induction false} InsertSortedNames(named: seq<NamedIndex>, e: NamedIndex)
    requires SortedNames(named)
    ensures SortedNames(InsertNamed(named, e))
    ensures forall x :: x in InsertNamed(named, e) <==> x == e || (x in named && x.name != e.name)
  {
    hide Less;
    if named != [] {
      var first, rest := named[0], named[1..];
      assert named == [first] + rest;
      forall x | x in rest
        ensures Less(first.name, x.name) && x.name != first.name
      {
        LessIrreflexive(first.name);
      }
      LessTotal(first.name, e.name);
      LessIrreflexive(e.name);
      if first.name == e.name {
      } else if Less(first.name, e.name) {
        InsertSortedNames(rest, e);
      } else {
        forall x | x in rest
          ensures Less(e.name, x.name) && x.name != e.name
        {
          LessTransitive(e.name, first.name, x.name);
        }
      }
    }
  }

  /** The map read back, by membership. */
  lemma {:induction false} NamedMapIs(named: seq<NamedIndex>, refs: seq<Id>, m: map<bytes, Id>)
    requires IndexesBelow(named, |refs|) && SortedNames(named)
    ensures
      var r := NamedMap(named, refs, m);
      && (forall i :: 0 <= i < |named| ==> named[i].name in r && r[named[i].name] == refs[named[i].index])
      && (forall n :: n in r ==> (n in m && r[n] == m[n]) || exists i :: 0 <= i < |named| && named[i].name == n)
      && (forall n :: n in m && (forall i :: 0 <= i < |named| ==> named[i].name != n) ==> n in r && r[n] == m[n])
  {
    hide Less;
    if named != [] {
      var e, rest := named[0], named[1..];
      var m1 := m[e.name := refs[e.index]];
      forall i | 0 <= i < |rest|
        ensures rest[i].name != e.name
      {
        LessIrreflexive(e.name);
        assert named[i + 1] == rest[i];
      }
      NamedMapIs(rest, refs, m1);
      var r := NamedMap(named, refs, m);
      assert r == NamedMap(rest, refs, m1) && e.name in m1;
      assert e.name in r && r[e.name] == refs[e.index];
      forall i | 0 <= i < |named|
        ensures named[i].name in r && r[named[i].name] == refs[named[i].index]
      {
        if i > 0 {
          assert rest[i - 1] == named[i];
        }
      }
      forall n | n in r
        ensures (n in m && r[n] == m[n]) || exists i :: 0 <= i < |named| && named[i].name == n
      {
        if i :| 0 <= i < |rest| && rest[i].name == n {
          assert named[i + 1].name == n;
        } else if n == e.name {
          assert named[0].name == n;
        }
      }
      forall n | n in m && forall i :: 0 <= i < |named| ==> named[i].name != n
        ensures n in r && r[n] == m[n]
      {
        assert named[0].name != n;
        assert forall i :: 0 <= i < |rest| ==> rest[i] == named[i + 1];
      }
    }
  }

  /** A name that is read ends at a NUL, so it holds none. */
  lemma {:induction false} ParsedNulFree(section: bytes, refs: seq<Id>, m: map<bytes, Id>)
    requires forall n :: n in m ==> 0 !in n
    ensures ParseNamed(section, refs, m).Some? ==> forall n :: n in ParseNamed(section, refs, m).value ==> 0 !in n
    decreases |section|
  {
    var end := FirstOf(section, 0);
    if end < |section| && ParseNamedRef(section[..end], refs).Some? {
      var e := ParseNamedRef(section[..end], refs).value;
      ParsedNulFree(section[end + 1..], refs, m[e.0 := e.1]);
    }
  }

  /** The map from name to id is recovered exactly when no name holds a NUL. */
  lemma NamesReadBackIff(named: seq<NamedIndex>, refs: seq<Id>)
    requires IndexesBelow(named, |refs|) && SortedNames(named) && |refs| < 0x1_0000_0000_0000_0000
    ensures ParseNamed(NamedBytes(named), refs, map[]) == Some(NamedMap(named, refs, map[])) <==> NulFree(named)
  {
    hide ParseNamed, NamedMap, NamedBytes, Less;
    if NulFree(named) {
      NamedRoundTrip(named, refs, map[]);
    } else {
      var i :| 0 <= i < |named| && 0 in named[i].name;
      NamedMapIs(named, refs, map[]);
      ParsedNulFree(NamedBytes(named), refs, map[]);
      assert named[i].name in NamedMap(named, refs, map[]);
    }
  }

  /** Named references of a draft stand for a map. */
  ghost predicate Stands(c: Draft, m: map<bytes, Id>) {
    && SortedNames(c.named) && IndexesBelow(c.named, |c.streams|)
    && (forall e :: e in c.named ==> e.name in m && m[e.name] == c.streams[e.index])
    && (forall n :: n in m ==> exists e :: e in c.named && e.name == n)
  }

  lemma NamedStands(c: Draft, m: map<bytes, Id>, name: bytes, id: Id)
    requires Stands(c, m)
    ensures Stands(WithNamed(c, name, id), m[name := id])
  {
    hide Less;
    var d := WithNamed(c, name, id);
    var e := NamedIndex(name, IndexOf(d.streams, id));
    InsertSortedNames(c.named, e);
    InsertBelow(c.named, e, |d.streams|);
    forall x | x in d.named
      ensures x.name in m[name := id] && m[name := id][x.name] == d.streams[x.index]
    {
    }
    var more := m[name := id];
    forall n | n in more
      ensures exists x :: x in d.named && x.name == n
    {
      if n == name {
        assert e in d.named;
      } else {
        var x :| x in c.named && x.name == n;
        assert x in d.named;
      }
    }
  }

  lemma StandsRead(c: Draft, m: map<bytes, Id>)
    requires Stands(c, m)
    ensures NamedMap(c.named, c.streams, map[]) == m
  {
    hide Less, NamedMap, SortedNames;
    NamedMapIs(c.named, c.streams, map[]);
    var r := NamedMap(c.named, c.streams, map[]);
    forall n | n in m
      ensures n in r && r[n] == m[n]
    {
      var e :| e in c.named && e.name == n;
      var i :| 0 <= i < |c.named| && c.named[i] == e;
    }
    forall n | n in r
      ensures n in m
    {
      var i :| 0 <= i < |c.named| && c.named[i].name == n;
      assert c.named[i] in c.named;
    }
  }

  // ---- any calls ----

  ghost predicate Good(repo: Repo, calls: seq<Call>, c: Draft) {
    && GoodContents(repo, c) && Known(Chunked(c.atoms).chunks, c.objects)
    && Merge(repo, c.atoms) == DataOf(repo, calls)
    && c.totalSize + Referenced(repo, calls) == |DataOf(repo, calls)| + Added(calls)
    && FirstAppearances(c.objects, ObjectsOf(repo, calls))
    && Stands(c, NamesOf(calls)) && NulFree(c.named)
  }

  lemma {:induction false} CallsGood(repo: Repo, calls: seq<Call>, contentType: nat)
    requires repo.Good() && GoodCalls(repo, calls)
    ensures Good(repo, calls, ApplyAll(repo, calls, contentType))
    ensures ApplyAll(repo, calls, contentType).contentType == contentType
    decreases |calls|
  {
    hide Good;
    if calls == [] {
      NoCalls(repo, contentType);
    } else {
      var n := |calls| - 1;
      CallsGood(repo, calls[..n], contentType);
      OneCall(repo, calls, ApplyAll(repo, calls[..n], contentType));
    }
  }

  lemma NoCalls(repo: Repo, contentType: nat)
    requires repo.Good()
    ensures Good(repo, [], EmptyContents(contentType))
  {
  }

  lemma OneCall(repo: Repo, calls: seq<Call>, c: Draft)
    requires calls != [] && GoodCalls(repo, calls) && Good(repo, calls[..|calls| - 1], c)
    ensures Good(repo, calls, Apply(repo, c, calls[|calls| - 1]))
  {
    hide Chunked, Merge, FirstAppearances, Stands, NulFree, GoodContents, Known, GoodCall;
    var call, before := calls[|calls| - 1], calls[..|calls| - 1];
    assert GoodCall(repo, call);
    CallParts(repo, call);
    GoodIs(repo, c);
    match call
    case WriteInline(data) =>
      InlineAdded(repo, c, data);
      ChunksKnown(repo, WithInline(c, data));
      MergeAppend(repo, c.atoms, BytesOf(data));
      MergeBytes(repo, data);
      assert ObjectsOf(repo, before) + [] == ObjectsOf(repo, before);
      SameNames(c, WithInline(c, data), NamesOf(before));
    case WriteExternal(data) =>
      var id := repo.idOf(data);
      ReferenceAdded(repo, c, id);
      ChunksKnown(repo, WithReference(c, id));
      SameButSize(repo, WithReference(c, id), WithExternal(c, repo, data));
      MergeAppend(repo, c.atoms, [Object(id)]);
      MergeObject(repo, id);
      AppearsNext(c.objects, ObjectsOf(repo, before), id);
      SameNames(c, WithExternal(c, repo, data), NamesOf(before));
    case WriteReference(id) =>
      ReferenceAdded(repo, c, id);
      ChunksKnown(repo, WithReference(c, id));
      MergeAppend(repo, c.atoms, [Object(id)]);
      MergeObject(repo, id);
      AppearsNext(c.objects, ObjectsOf(repo, before), id);
      SameNames(c, WithReference(c, id), NamesOf(before));
    case AddExternalSize(size) =>
      var d := c.(totalSize := c.totalSize + size);
      SameButSize(repo, c, d);
      assert DataOf(repo, before) + [] == DataOf(repo, before);
      assert ObjectsOf(repo, before) + [] == ObjectsOf(repo, before);
      SameNames(c, d, NamesOf(before));
    case AddObjectRef(id) =>
      ObjectAdded(repo, c, id);
      AppearsNext(c.objects, ObjectsOf(repo, before), id);
      assert DataOf(repo, before) + [] == DataOf(repo, before);
      SameNames(c, WithObject(c, id), NamesOf(before));
    case AddNamedStreamRef(name, id) =>
      NamedAdded(repo, c, name, id);
      NamedStands(c, NamesOf(before), name, id);
      assert DataOf(repo, before) + [] == DataOf(repo, before);
      assert ObjectsOf(repo, before) + [] == ObjectsOf(repo, before);
      NamesStayFree(c, NamesOf(before), name, id);
  }

  lemma CallParts(repo: Repo, call: Call)
    requires GoodCall(repo, call)
    ensures call.WriteExternal? ==> repo.load(repo.idOf(call.data)) == call.data
    ensures call.WriteReference? || call.AddObjectRef? || call.AddNamedStreamRef? ==> |call.id| == repo.idSize
    ensures call.AddNamedStreamRef? ==> forall i :: 0 <= i < |call.name| ==> call.name[i] != 0
  {
  }

  lemma GoodIs(repo: Repo, c: Draft)
    requires GoodContents(repo, c)
    ensures repo.Good() && forall d :: |repo.idOf(d)| == repo.idSize
  {
  }

  lemma ChunksKnown(repo: Repo, c: Draft)
    requires GoodContents(repo, c)
    ensures Known(Chunked(c.atoms).chunks, c.objects)
  {
    hide Chunked;
    var l := Chunked(c.atoms);
    forall i | 0 <= i < |l.chunks| && l.chunks[i].External?
      ensures l.chunks[i].id in c.objects
    {
      assert l.Flushed()[i] == l.chunks[i];
    }
  }

  lemma SameButSize(repo: Repo, c: Draft, d: Draft)
    requires GoodContents(repo, c) && Known(Chunked(c.atoms).chunks, c.objects)
    requires d == c.(totalSize := d.totalSize)
    ensures GoodContents(repo, d) && Known(Chunked(d.atoms).chunks, d.objects)
  {
    hide Chunked, Known;
  }

  lemma SameNames(c: Draft, d: Draft, m: map<bytes, Id>)
    requires Stands(c, m) && NulFree(c.named) && d.named == c.named && d.streams == c.streams
    ensures Stands(d, m) && NulFree(d.named)
  {
    hide SortedNames;
  }

  lemma NamesStayFree(c: Draft, m: map<bytes, Id>, name: bytes, id: Id)
    requires Stands(c, m) && NulFree(c.named)
    requires forall i :: 0 <= i < |name| ==> name[i] != 0
    ensures NulFree(WithNamed(c, name, id).named)
  {
    hide Less;
    var d := WithNamed(c, name, id);
    var e := NamedIndex(name, IndexOf(d.streams, id));
    InsertSortedNames(c.named, e);
    forall i, j | 0 <= i < |d.named| && 0 <= j < |d.named[i].name|
      ensures d.named[i].name[j] != 0
    {
      assert d.named[i] in d.named;
      if d.named[i] != e {
        var k :| 0 <= k < |c.named| && c.named[k] == d.named[i];
      }
    }
  }

  /** Reading back what any calls wrote: the concatenation of all data, the distinct objects
      in order of first appearance, and the map from name to id. The recorded size is the
      length of the data exactly when the added sizes make up for the direct references. */
  lemma RoundTrip(repo: Repo, calls: seq<Call>, contentType: nat)
    requires repo.Good() && GoodCalls(repo, calls)
    requires
      var c := ApplyAll(repo, calls, contentType);
      Known(Chunked(c.atoms).Flushed(), c.objects) ==> FitsFile(repo, c)
    ensures
      var c := ApplyAll(repo, calls, contentType);
      Known(Chunked(c.atoms).Flushed(), c.objects)
      && var r := Open(repo, StreamFile(repo, c), None);
      && r.Some?
      && CatRaw(repo, Raw(r.value.data, 0), r.value.objectRefs) == Some(DataOf(repo, calls))
      && r.value.contentType == contentType
      && r.value.totalSize + Referenced(repo, calls) == |DataOf(repo, calls)| + Added(calls)
      && (r.value.totalSize == |DataOf(repo, calls)| <==> Added(calls) == Referenced(repo, calls))
      && FirstAppearances(r.value.objectRefs, ObjectsOf(repo, calls))
      && r.value.namedRefs == NamesOf(calls)
  {
    hide ApplyAll, Chunked, StreamFile, Open, CatRaw, Merge, FirstAppearances, Stands, NulFree, DataOf,
      Referenced, Added, ObjectsOf, NamesOf, Known, Encode, GoodContents, FitsFile;
    CallsGood(repo, calls, contentType);
    var c := ApplyAll(repo, calls, contentType);
    ContentsKnown(repo, c);
    CatRoundTrip(repo, c);
    OpenRoundTrip(repo, c, None);
    StandsRead(c, NamesOf(calls));
  }

  lemma ContentsKnown(repo: Repo, c: Draft)
    requires GoodContents(repo, c)
    ensures Known(Chunked(c.atoms).Flushed(), c.objects) && IndexesBelow(c.named, |c.streams|)
  {
  }
}
