/** The builder for parallel storage (splitstream.rs): external objects are stored by background
    tasks that may end in any order; `finish` waits for them and replays the entries. */
module SplitstreamBuilder {
  import opened Bytes
  import opened Splitstream
  import R = SplitstreamReader
  import S = SplitstreamTheorem

  /** Background tasks.  Each gets data through a channel and, once the channel is closed, ends
      at some time with the id of what it received. */
  class Tasks {
    const repo: Repo
    var received: seq<bytes>
    var closed: seq<bool>
    var results: map<nat, Id>

    ghost predicate Valid()
      reads this
    {
      && |received| == |closed|
      && forall h :: h in results ==> h < |closed| && closed[h] && results[h] == repo.idOf(received[h])
    }

    constructor (repo: Repo)
      ensures Valid() && this.repo == repo && received == [] && closed == []
    {
      this.repo, received, closed, results := repo, [], [], map[];
    }

    method Spawn() returns (handle: nat)
      requires Valid()
      modifies this
      ensures Valid() && handle == |old(received)|
      ensures received == old(received) + [[]] && closed == old(closed) + [false]
    {
      handle := |received|;
      received, closed := received + [[]], closed + [false];
    }

    method Send(handle: nat, chunk: bytes)
      requires Valid() && handle < |received| && !closed[handle]
      modifies this
      ensures Valid() && received == old(received)[handle := old(received)[handle] + chunk]
      ensures closed == old(closed)
    {
      received := received[handle := received[handle] + chunk];
    }

    method Close(handle: nat)
      requires Valid() && handle < |received|
      modifies this
      ensures Valid() && received == old(received) && closed == old(closed)[handle := true]
    {
      closed := closed[handle := true];
    }

    /** Any tasks whose channel is closed may end now, in any order. */
    method Progress()
      requires Valid()
      modifies this
      ensures Valid() && received == old(received) && closed == old(closed)
    {
      var steps: nat := *;
      while steps > 0
        invariant Valid() && received == old(received) && closed == old(closed)
      {
        var h: nat := *;
        if 0 <= h < |closed| && closed[h] {
          results := results[h := repo.idOf(received[h])];
        }
        steps := steps - 1;
      }
    }

    /** `handle.await`: others may end before, but this one has ended after. */
    method Await(handle: nat) returns (id: Id)
      requires Valid() && handle < |received| && closed[handle]
      modifies this
      ensures Valid() && received == old(received) && closed == old(closed)
      ensures id == repo.idOf(received[handle])
    {
      Progress();
      if handle !in results {
        results := results[handle := repo.idOf(received[handle])];
      }
      id := results[handle];
    }
  }

  datatype Entry = InlineEntry(data: bytes) | ExternalEntry(handle: nat, size: nat)

  datatype Resolved = ResolvedInline(data: bytes) | ResolvedExternal(id: Id, size: nat)

  /** The entries with the ids their tasks come to. */
  function Resolve(repo: Repo, received: seq<bytes>, entries: seq<Entry>): (r: seq<Resolved>)
    requires HandlesBelow(entries, |received|)
    ensures |r| == |entries|
  {
    seq(|entries|, i requires 0 <= i < |entries| =>
      match entries[i]
      case InlineEntry(data) => ResolvedInline(data)
      case ExternalEntry(h, size) => ResolvedExternal(repo.idOf(received[h]), size))
  }

  ghost predicate HandlesBelow(entries: seq<Entry>, n: nat) {
    forall i :: 0 <= i < |entries| && entries[i].ExternalEntry? ==> entries[i].handle < n
  }

  ghost predicate AllClosed(entries: seq<Entry>, closed: seq<bool>) {
    forall i :: 0 <= i < |entries| && entries[i].ExternalEntry? ==>
      entries[i].handle < |closed| && closed[entries[i].handle]
  }

  function Replayed(c: Draft, e: Resolved): Draft {
    match e
    case ResolvedInline(data) => WithInline(c, data)
    case ResolvedExternal(id, size) => WithReference(c.(totalSize := c.totalSize + size), id)
  }

  function ReplayedAll(c: Draft, es: seq<Resolved>): Draft
    decreases |es|
  {
    if es == [] then c else Replayed(ReplayedAll(c, es[..|es| - 1]), es[|es| - 1])
  }

  /** Named references are added again in the order of their names. */
  function Readded(c: Draft, named: seq<NamedIndex>, refs: seq<Id>): Draft
    requires IndexesBelow(named, |refs|)
    decreases |named|
  {
    if named == [] then c
    else
      var n := |named| - 1;
      WithNamed(Readded(c, named[..n], refs), named[n].name, refs[named[n].index])
  }

  class SplitStreamBuilder {
    const repo: Repo
    const contentType: nat
    const streamRefs: UniqueVec
    var entries: seq<Entry>
    var totalExternalSize: nat
    var namedRefs: seq<NamedIndex>

    ghost predicate Valid()
      reads this, streamRefs
    {
      && repo.Good() && streamRefs.Valid() && IndexesBelow(namedRefs, |streamRefs.items|)
      && forall i :: 0 <= i < |streamRefs.items| ==> |streamRefs.items[i]| == repo.idSize
    }

    constructor (repo: Repo, contentType: nat)
      requires repo.Good()
      ensures Valid() && fresh(streamRefs) && this.repo == repo && this.contentType == contentType
      ensures entries == [] && namedRefs == [] && streamRefs.items == []
    {
      this.repo, this.contentType := repo, contentType;
      streamRefs := new UniqueVec();
      entries, totalExternalSize, namedRefs := [], 0, [];
    }

    /** Adjacent inline data is put together; nothing is added for no data. */
    method PushInline(data: bytes)
      requires Valid()
      modifies this
      ensures Valid() && entries == Pushed(old(entries), data)
      ensures namedRefs == old(namedRefs)
    {
      if data == [] {
        return;
      }
      var n := |entries|;
      if n > 0 && entries[n - 1].InlineEntry? {
        entries := entries[n - 1 := InlineEntry(entries[n - 1].data + data)];
      } else {
        entries := entries + [InlineEntry(data)];
      }
    }

    method PushExternal(handle: nat, size: nat)
      requires Valid()
      modifies this
      ensures Valid() && entries == old(entries) + [ExternalEntry(handle, size)]
      ensures namedRefs == old(namedRefs)
    {
      totalExternalSize := totalExternalSize + size;
      entries := entries + [ExternalEntry(handle, size)];
    }

    method AddNamedStreamRef(name: bytes, id: Id)
      requires Valid() && |id| == repo.idSize
      modifies this, streamRefs
      ensures Valid() && entries == old(entries)
      ensures streamRefs.items == Ensured(old(streamRefs.items), id)
      ensures namedRefs
           == InsertNamed(old(namedRefs), NamedIndex(name, IndexOf(streamRefs.items, id)))
    {
      ghost var before := namedRefs;
      var idx := streamRefs.Ensure(id);
      InsertBelow(before, NamedIndex(name, idx), |streamRefs.items|);
      namedRefs := InsertNamed(namedRefs, NamedIndex(name, idx));
    }

    /** `finish`: whatever the order in which the tasks end, the file is the one of the entries
        replayed in their order. */
    method Finish(tasks: Tasks) returns (file: bytes)
      requires Valid() && tasks.Valid() && tasks.repo == repo
      requires AllClosed(entries, tasks.closed) && HandlesBelow(entries, |tasks.received|)
      requires |Finished(repo, contentType, namedRefs, streamRefs.items, tasks.received, entries).atoms|
            < 0x8000_0000_0000_0000
      modifies tasks
      ensures
        var c := Finished(repo, contentType, namedRefs, streamRefs.items, old(tasks.received), entries);
        Known(Chunked(c.atoms).Flushed(), c.objects) && file == StreamFile(repo, c)
    {
      hide *;
      Shape();
      FinishedIs(repo, contentType, namedRefs, streamRefs.items, tasks.received, entries);
      var resolved := AwaitAll(tasks);
      ghost var received := tasks.received;
      var writer := new SplitStreamWriter(repo, contentType);
      ghost var start := writer.Contents();
      var i := 0;
      ReaddNone(start, namedRefs, streamRefs.items);
      while i < |namedRefs|
        invariant 0 <= i <= |namedRefs| && writer.Valid() && writer.repo == repo
        invariant fresh(writer) && fresh(writer.streamRefs) && fresh(writer.objectRefs)
        invariant IndexesBelow(namedRefs[..i], |streamRefs.items|)
        invariant writer.Contents() == Readded(start, namedRefs[..i], streamRefs.items)
      {
        ReaddAt(start, namedRefs, streamRefs.items, i);
        writer.AddNamedStreamRef(namedRefs[i].name, streamRefs.items[namedRefs[i].index]);
        i := i + 1;
      }
      assert namedRefs[..i] == namedRefs;
      ghost var named := writer.Contents();
      i := 0;
      ReplayNone(named, resolved);
      while i < |resolved|
        invariant 0 <= i <= |resolved| && writer.Valid() && writer.repo == repo
        invariant fresh(writer) && fresh(writer.streamRefs) && fresh(writer.objectRefs)
        invariant writer.Contents() == ReplayedAll(named, resolved[..i])
      {
        ReplayAt(named, resolved, i);
        BufferFits(named, resolved, i);
        WriterParts(writer);
        ReplayedIs(writer.Contents(), resolved[i]);
        match resolved[i] {
          case ResolvedInline(data) => writer.WriteInline(data);
          case ResolvedExternal(id, size) =>
            writer.AddExternalSize(size);
            WriterParts(writer);
            writer.WriteReference(id);
        }
        i := i + 1;
      }
      assert resolved[..i] == resolved;
      BufferFits(named, resolved, i);
      WriterParts(writer);
      file := writer.Done();
    }

    lemma Shape()
      requires Valid()
      ensures repo.Good() && IndexesBelow(namedRefs, |streamRefs.items|)
      ensures forall i :: 0 <= i < |streamRefs.items| ==> |streamRefs.items[i]| == repo.idSize
    {
    }

    /** The first pass: every handle is awaited, in the order of the entries. */
    method AwaitAll(tasks: Tasks) returns (resolved: seq<Resolved>)
      requires Valid() && tasks.Valid() && tasks.repo == repo
      requires AllClosed(entries, tasks.closed) && HandlesBelow(entries, |tasks.received|)
      modifies tasks
      ensures tasks.received == old(tasks.received)
      ensures resolved == Resolve(repo, tasks.received, entries)
      ensures forall i :: 0 <= i < |resolved| && resolved[i].ResolvedExternal? ==>
        |resolved[i].id| == repo.idSize
    {
      hide Resolve, AllClosed, HandlesBelow, Valid;
      ghost var received, closed := tasks.received, tasks.closed;
      resolved := [];
      var i := 0;
      ResolveEnds(repo, received, entries);
      while i < |entries|
        invariant 0 <= i <= |entries| && tasks.Valid() && tasks.repo == repo
        invariant tasks.received == received && tasks.closed == closed
        invariant resolved == Resolve(repo, received, entries)[..i]
      {
        ResolveAt(repo, received, closed, entries, i);
        match entries[i] {
          case InlineEntry(data) => resolved := resolved + [ResolvedInline(data)];
          case ExternalEntry(h, size) =>
            var id := tasks.Await(h);
            resolved := resolved + [ResolvedExternal(id, size)];
        }
        i := i + 1;
      }
      Shape();
      IdSizes(repo);
    }
  }

  function Pushed(entries: seq<Entry>, data: bytes): seq<Entry> {
    if data == [] then entries
    else if entries != [] && entries[|entries| - 1].InlineEntry? then
      entries[|entries| - 1 := InlineEntry(entries[|entries| - 1].data + data)]
    else entries + [InlineEntry(data)]
  }

  /** The draft that `finish` writes out. */
  function Finished(repo: Repo, contentType: nat, named: seq<NamedIndex>, refs: seq<Id>,
                    received: seq<bytes>, entries: seq<Entry>): Draft
    requires IndexesBelow(named, |refs|) && HandlesBelow(entries, |received|)
  {
    ReplayedAll(Readded(EmptyContents(contentType), named, refs), Resolve(repo, received, entries))
  }

  lemma FinishedIs(repo: Repo, contentType: nat, named: seq<NamedIndex>, refs: seq<Id>,
                   received: seq<bytes>, entries: seq<Entry>)
    requires IndexesBelow(named, |refs|) && HandlesBelow(entries, |received|)
    ensures Finished(repo, contentType, named, refs, received, entries)
         == ReplayedAll(Readded(EmptyContents(contentType), named, refs), Resolve(repo, received, entries))
  {
  }

  lemma ResolveAt(repo: Repo, received: seq<bytes>, closed: seq<bool>, entries: seq<Entry>, i: nat)
    requires HandlesBelow(entries, |received|) && AllClosed(entries, closed) && i < |entries|
    requires |received| == |closed|
    ensures
      var r := Resolve(repo, received, entries);
      match entries[i]
      case InlineEntry(data) => r[..i + 1] == r[..i] + [ResolvedInline(data)]
      case ExternalEntry(h, size) =>
        && h < |received| && closed[h]
        && r[..i + 1] == r[..i] + [ResolvedExternal(repo.idOf(received[h]), size)]
  {
  }

  lemma ResolveEnds(repo: Repo, received: seq<bytes>, entries: seq<Entry>)
    requires HandlesBelow(entries, |received|)
    ensures
      var r := Resolve(repo, received, entries);
      && r[..|entries|] == r && r[..0] == []
      && forall i :: 0 <= i < |r| && r[i].ResolvedExternal? ==>
           exists h :: 0 <= h < |received| && r[i].id == repo.idOf(received[h])
  {
    var r := Resolve(repo, received, entries);
    forall i | 0 <= i < |r| && r[i].ResolvedExternal?
      ensures exists h :: 0 <= h < |received| && r[i].id == repo.idOf(received[h])
    {
      assert r[i].id == repo.idOf(received[entries[i].handle]);
    }
  }

  lemma IdSizes(repo: Repo)
    requires repo.Good()
    ensures forall d :: |repo.idOf(d)| == repo.idSize
  {
  }

  lemma ReaddNone(c: Draft, named: seq<NamedIndex>, refs: seq<Id>)
    ensures IndexesBelow(named[..0], |refs|) && Readded(c, named[..0], refs) == c
  {
  }

  lemma ReaddAt(c: Draft, named: seq<NamedIndex>, refs: seq<Id>, i: nat)
    requires IndexesBelow(named, |refs|) && i < |named|
    ensures named[i].index < |refs|
    ensures IndexesBelow(named[..i], |refs|) && IndexesBelow(named[..i + 1], |refs|)
    ensures Readded(c, named[..i + 1], refs)
         == WithNamed(Readded(c, named[..i], refs), named[i].name, refs[named[i].index])
  {
    assert named[..i + 1][..i] == named[..i];
  }

  lemma ReplayAt(c: Draft, es: seq<Resolved>, i: nat)
    requires i < |es|
    ensures ReplayedAll(c, es[..i + 1]) == Replayed(ReplayedAll(c, es[..i]), es[i])
  {
    hide Replayed;
    assert es[..i + 1][..i] == es[..i];
  }

  lemma ReplayNone(c: Draft, es: seq<Resolved>)
    ensures ReplayedAll(c, es[..0]) == c
  {
  }

  lemma {:induction false} ReplayGrows(c: Draft, es: seq<Resolved>, i: nat)
    requires i <= |es|
    ensures |ReplayedAll(c, es[..i]).atoms| <= |ReplayedAll(c, es).atoms|
    decreases |es| - i
  {
    hide ReplayedAll;
    if i < |es| {
      ReplayAt(c, es, i);
      ReplayGrows(c, es, i + 1);
    } else {
      assert es[..i] == es;
    }
  }

  lemma BufferFits(c: Draft, es: seq<Resolved>, i: nat)
    requires i <= |es| && |ReplayedAll(c, es).atoms| < 0x8000_0000_0000_0000
    ensures |Chunked(ReplayedAll(c, es[..i]).atoms).buffer| < 0x8000_0000_0000_0000
  {
    hide Chunked, ReplayedAll;
    ReplayGrows(c, es, i);
    ChunkedFaithful(ReplayedAll(c, es[..i]).atoms);
  }

  lemma ReplayedIs(c: Draft, e: Resolved)
    ensures e.ResolvedInline? ==> Replayed(c, e) == WithInline(c, e.data)
    ensures e.ResolvedExternal? ==>
      Replayed(c, e) == WithReference(c.(totalSize := c.totalSize + e.size), e.id)
  {
  }

  lemma WriterParts(w: SplitStreamWriter)
    requires w.Valid()
    ensures w.inlineBuffer == Chunked(w.Contents().atoms).buffer
    ensures w.Contents().totalSize == w.totalSize
    ensures Known(Chunked(w.Contents().atoms).Flushed(), w.Contents().objects)
  {
    hide Chunked, Encode;
  }

  // ---- named references through the builder ----

  lemma {:induction false} NamedMapSnoc(named: seq<NamedIndex>, refs: seq<Id>, m: map<bytes, Id>, e: NamedIndex)
    requires IndexesBelow(named, |refs|) && e.index < |refs|
    ensures IndexesBelow(named + [e], |refs|)
    ensures R.NamedMap(named + [e], refs, m) == R.NamedMap(named, refs, m)[e.name := refs[e.index]]
  {
    if named == [] {
      assert (named + [e])[1..] == [];
    } else {
      assert (named + [e])[1..] == named[1..] + [e];
      NamedMapSnoc(named[1..], refs, m[named[0].name := refs[named[0].index]], e);
    }
  }

  lemma {:induction false} ReaddedStands(contentType: nat, named: seq<NamedIndex>, refs: seq<Id>)
    requires IndexesBelow(named, |refs|)
    ensures S.Stands(Readded(EmptyContents(contentType), named, refs), R.NamedMap(named, refs, map[]))
    decreases |named|
  {
    if named != [] {
      hide S.Stands, WithNamed, R.NamedMap;
      var n := |named| - 1;
      var e := named[n];
      assert named == named[..n] + [e];
      ReaddedStands(contentType, named[..n], refs);
      NamedMapSnoc(named[..n], refs, map[], e);
      S.NamedStands(Readded(EmptyContents(contentType), named[..n], refs),
                    R.NamedMap(named[..n], refs, map[]), e.name, refs[e.index]);
    }
  }

  lemma {:induction false} ReplayKeepsNames(c: Draft, es: seq<Resolved>)
    ensures ReplayedAll(c, es).named == c.named && ReplayedAll(c, es).streams == c.streams
    decreases |es|
  {
    if es != [] {
      ReplayKeepsNames(c, es[..|es| - 1]);
    }
  }

  /** Adding the names again in their order may number the streams anew; the map from name to
      id is the same. */
  lemma NamesAgree(repo: Repo, contentType: nat, named: seq<NamedIndex>, refs: seq<Id>,
                   received: seq<bytes>, entries: seq<Entry>)
    requires IndexesBelow(named, |refs|) && HandlesBelow(entries, |received|)
    ensures
      var c := Finished(repo, contentType, named, refs, received, entries);
      IndexesBelow(c.named, |c.streams|)
      && R.NamedMap(c.named, c.streams, map[]) == R.NamedMap(named, refs, map[])
  {
    hide R.NamedMap, Readded;
    var start := Readded(EmptyContents(contentType), named, refs);
    var c := Finished(repo, contentType, named, refs, received, entries);
    ReaddedStands(contentType, named, refs);
    ReplayKeepsNames(start, Resolve(repo, received, entries));
    S.StandsRead(c, R.NamedMap(named, refs, map[]));
  }
}
