/** Writing splitstreams (splitstream.rs): the interning table, the writer, and the builder that
    waits for background tasks. */
module Splitstream {
  import opened Bytes
  import opened Numbers

  type Id = bytes

  /** The repository and the library functions a splitstream uses: the id an object gets when
      it is stored, the contents found under an id, and compression. */
  datatype Repo =
    Repo(idOf: bytes -> Id, load: Id -> bytes, idSize: nat, algorithm: byte,
         compress: bytes -> bytes, decompress: bytes -> Option<bytes>)
  {
    ghost predicate Good() {
      && idSize > 0 && idSize % 8 == 0
      && (forall d :: |idOf(d)| == idSize)
      && forall x :: decompress(compress(x)) == Some(x)
    }

    /** The store gives back what was put in. */
    ghost predicate Keeps(data: bytes) {
      load(idOf(data)) == data
    }
  }

  // ---- what a stream says ----

  /** A stream is a sequence of bytes and of references to objects. */
  datatype Atom = Byte(b: byte) | Object(id: Id)

  function BytesOf(data: bytes): (r: seq<Atom>)
    ensures |r| == |data| && forall i :: 0 <= i < |data| ==> r[i] == Byte(data[i])
  {
    seq(|data|, i requires 0 <= i < |data| => Byte(data[i]))
  }

  /** The merged stream: bytes, and the contents of the objects. */
  function Merge(repo: Repo, atoms: seq<Atom>): bytes {
    if atoms == [] then []
    else
      (match atoms[0]
       case Byte(b) => [b]
       case Object(id) => repo.load(id))
      + Merge(repo, atoms[1..])
  }

  lemma {:induction false} MergeAppend(repo: Repo, a: seq<Atom>, b: seq<Atom>)
    ensures Merge(repo, a + b) == Merge(repo, a) + Merge(repo, b)
  {
    if a == [] {
      assert a + b == b;
    } else {
      assert (a + b)[1..] == a[1..] + b;
      MergeAppend(repo, a[1..], b);
    }
  }

  lemma {:induction false} MergeBytes(repo: Repo, data: bytes)
    ensures Merge(repo, BytesOf(data)) == data
  {
    if data != [] {
      assert BytesOf(data)[1..] == BytesOf(data[1..]);
      MergeBytes(repo, data[1..]);
      assert data == [data[0]] + data[1..];
    }
  }

  lemma MergeObject(repo: Repo, id: Id)
    ensures Merge(repo, [Object(id)]) == repo.load(id)
  {
    assert Merge(repo, [Object(id)][1..]) == [];
  }

  // ---- chunks ----

  datatype Chunk = Inline(data: bytes) | External(id: Id)

  /** Chunks written so far and the bytes that wait in the buffer. */
  datatype Log = Log(chunks: seq<Chunk>, buffer: bytes) {
    function Flushed(): seq<Chunk> {
      if buffer == [] then chunks else chunks + [Inline(buffer)]
    }
  }

  /** Runs of bytes are collected until an object comes: the only way to chunk a stream. */
  function Chunked(atoms: seq<Atom>): Log
    decreases |atoms|
  {
    if atoms == [] then Log([], [])
    else
      var n := |atoms| - 1;
      var l := Chunked(atoms[..n]);
      match atoms[n]
      case Byte(b) => l.(buffer := l.buffer + [b])
      case Object(id) => Log(l.Flushed() + [External(id)], [])
  }

  lemma ChunkedByte(atoms: seq<Atom>, b: byte)
    ensures Chunked(atoms + [Byte(b)]) == Chunked(atoms).(buffer := Chunked(atoms).buffer + [b])
  {
    assert (atoms + [Byte(b)])[..|atoms|] == atoms;
  }

  lemma {:induction false} ChunkedBytes(atoms: seq<Atom>, data: bytes)
    ensures Chunked(atoms + BytesOf(data))
         == Chunked(atoms).(buffer := Chunked(atoms).buffer + data)
    decreases |data|
  {
    hide Chunked;
    if data == [] {
      assert atoms + BytesOf(data) == atoms;
    } else {
      var n := |data| - 1;
      ChunkedBytes(atoms, data[..n]);
      ChunkedByte(atoms + BytesOf(data[..n]), data[n]);
      assert atoms + BytesOf(data) == atoms + BytesOf(data[..n]) + [Byte(data[n])];
      assert Chunked(atoms).buffer + data == Chunked(atoms).buffer + data[..n] + [data[n]];
    }
  }

  lemma ChunkedObject(atoms: seq<Atom>, id: Id)
    ensures Chunked(atoms + [Object(id)]) == Log(Chunked(atoms).Flushed() + [External(id)], [])
  {
    assert (atoms + [Object(id)])[..|atoms|] == atoms;
  }

  function ChunkAtoms(c: Chunk): seq<Atom> {
    if c.Inline? then BytesOf(c.data) else [Object(c.id)]
  }

  function AtomsOf(chunks: seq<Chunk>): seq<Atom> {
    if chunks == [] then [] else ChunkAtoms(chunks[0]) + AtomsOf(chunks[1..])
  }

  lemma {:induction false} AtomsOfAppend(a: seq<Chunk>, c: Chunk)
    ensures AtomsOf(a + [c]) == AtomsOf(a) + ChunkAtoms(c)
  {
    hide ChunkAtoms;
    if a == [] {
      assert a + [c] == [c] && AtomsOf([c][1..]) == [];
      assert ChunkAtoms(c) + [] == [] + ChunkAtoms(c);
    } else {
      assert (a + [c])[1..] == a[1..] + [c];
      AtomsOfAppend(a[1..], c);
      assert ChunkAtoms(a[0]) + (AtomsOf(a[1..]) + ChunkAtoms(c))
          == ChunkAtoms(a[0]) + AtomsOf(a[1..]) + ChunkAtoms(c);
    }
  }

  /** The atoms a log stands for. */
  function LogAtoms(l: Log): seq<Atom> {
    AtomsOf(l.chunks) + BytesOf(l.buffer)
  }

  ghost predicate LogBelow(l: Log, n: nat) {
    && (forall i :: 0 <= i < |l.chunks| && l.chunks[i].Inline? ==> 0 < |l.chunks[i].data| <= n)
    && |l.buffer| <= n
  }

  /** Chunking loses nothing, and inline chunks are not empty. */
  lemma {:induction false} ChunkedFaithful(atoms: seq<Atom>)
    ensures LogAtoms(Chunked(atoms)) == atoms && LogBelow(Chunked(atoms), |atoms|)
    ensures |Chunked(atoms).buffer| <= |atoms|
    decreases |atoms|
  {
    hide LogAtoms, AtomsOf;
    if atoms == [] {
      assert LogAtoms(Log([], [])) == [] by {
        NoLog();
      }
    } else {
      var n := |atoms| - 1;
      ChunkedFaithful(atoms[..n]);
      assert atoms == atoms[..n] + [atoms[n]];
      LogGrows(Chunked(atoms[..n]), atoms[n]);
    }
  }

  lemma NoLog()
    ensures LogAtoms(Log([], [])) == []
  {
  }

  lemma LogGrows(l: Log, a: Atom)
    ensures a.Byte? ==> LogAtoms(l.(buffer := l.buffer + [a.b])) == LogAtoms(l) + [a]
    ensures a.Object? ==> LogAtoms(Log(l.Flushed() + [External(a.id)], [])) == LogAtoms(l) + [a]
  {
    hide AtomsOf;
    match a
    case Byte(b) =>
      assert BytesOf(l.buffer + [b]) == BytesOf(l.buffer) + [Byte(b)];
      assert AtomsOf(l.chunks) + (BytesOf(l.buffer) + [Byte(b)])
          == AtomsOf(l.chunks) + BytesOf(l.buffer) + [Byte(b)];
    case Object(id) =>
      FlushedFaithful(l);
      AtomsOfAppend(l.Flushed(), External(id));
      assert AtomsOf(l.Flushed() + [External(id)]) + BytesOf([]) == AtomsOf(l.Flushed() + [External(id)]);
  }

  lemma FlushedFaithful(l: Log)
    ensures AtomsOf(l.Flushed()) == LogAtoms(l)
  {
    hide AtomsOf;
    if l.buffer != [] {
      AtomsOfAppend(l.chunks, Inline(l.buffer));
    } else {
      assert AtomsOf(l.chunks) + BytesOf([]) == AtomsOf(l.chunks);
    }
  }

  // ---- the interning table ----

  function Ensured(items: seq<Id>, x: Id): seq<Id> {
    if x in items then items else items + [x]
  }

  function IndexOf(items: seq<Id>, x: Id): (i: nat)
    requires x in items
    ensures i < |items| && items[i] == x && forall j :: 0 <= j < i ==> items[j] != x
  {
    if items[0] == x then 0 else 1 + IndexOf(items[1..], x)
  }

  lemma IndexIs(items: seq<Id>, i: nat)
    requires i < |items| && forall j :: 0 <= j < |items| && j != i ==> items[j] != items[i]
    ensures IndexOf(items, items[i]) == i
  {
  }

  lemma IndexStays(items: seq<Id>, more: seq<Id>, x: Id)
    requires x in items && items <= more
    ensures x in more && IndexOf(more, x) == IndexOf(items, x)
  {
    var i := IndexOf(items, x);
    assert more[i] == x && forall j :: 0 <= j < i ==> more[j] == items[j];
  }

  ghost predicate Distinct(items: seq<Id>) {
    forall i, j :: 0 <= i < j < |items| ==> items[i] != items[j]
  }

  class UniqueVec {
    var items: seq<Id>
    var index: map<Id, nat>

    ghost predicate Valid()
      reads this
    {
      && Distinct(items)
      && (forall x :: x in index ==> index[x] < |items| && items[index[x]] == x)
      && forall i :: 0 <= i < |items| ==> items[i] in index
    }

    constructor ()
      ensures Valid() && items == []
    {
      items, index := [], map[];
    }

    function Get(x: Id): (r: Option<nat>)
      requires Valid()
      reads this
      ensures r == if x in items then Some(IndexOf(items, x)) else None
    {
      if x in index then
        IndexIs(items, index[x]);
        Some(index[x])
      else None
    }

    method Ensure(x: Id) returns (idx: nat)
      requires Valid()
      modifies this
      ensures Valid() && items == Ensured(old(items), x)
      ensures x in items && idx == IndexOf(items, x)
    {
      var known := Get(x);
      if known.Some? {
        return known.value;
      }
      idx := |items|;
      index := index[x := idx];
      items := items + [x];
      IndexIs(items, idx);
    }
  }

  // ---- the chunk stream ----

  ghost predicate Known(chunks: seq<Chunk>, items: seq<Id>) {
    forall i :: 0 <= i < |chunks| && chunks[i].External? ==> chunks[i].id in items
  }

  /** An inline chunk is its negated length and its data, an external one an index. */
  function EncodeChunk(c: Chunk, items: seq<Id>): bytes
    requires c.External? ==> c.id in items
  {
    match c
    case Inline(data) => LE(0x1_0000_0000_0000_0000 - Min(|data|, 0x8000_0000_0000_0000), 8) + data
    case External(id) => LE(IndexOf(items, id), 8)
  }

  function Encode(chunks: seq<Chunk>, items: seq<Id>): bytes
    requires Known(chunks, items)
  {
    if chunks == [] then []
    else EncodeChunk(chunks[0], items) + Encode(chunks[1..], items)
  }

  lemma {:induction false} EncodeAppend(chunks: seq<Chunk>, c: Chunk, items: seq<Id>)
    requires Known(chunks, items) && (c.External? ==> c.id in items)
    ensures Known(chunks + [c], items)
    ensures Encode(chunks + [c], items) == Encode(chunks, items) + EncodeChunk(c, items)
  {
    hide EncodeChunk;
    if chunks == [] {
      assert chunks + [c] == [c] && Encode([c][1..], items) == [];
      assert [] + EncodeChunk(c, items) == EncodeChunk(c, items) + [];
    } else {
      assert (chunks + [c])[1..] == chunks[1..] + [c];
      EncodeAppend(chunks[1..], c, items);
    }
  }

  lemma {:induction false} EncodeStays(chunks: seq<Chunk>, items: seq<Id>, more: seq<Id>)
    requires Known(chunks, items) && items <= more
    ensures Known(chunks, more) && Encode(chunks, more) == Encode(chunks, items)
  {
    hide LE;
    if chunks != [] {
      EncodeStays(chunks[1..], items, more);
      if chunks[0].External? {
        IndexStays(items, more, chunks[0].id);
      }
    }
  }

  // ---- named references ----

  /** An entry of the `BTreeMap` from name to index. */
  datatype NamedIndex = NamedIndex(name: bytes, index: nat)

  function InsertNamed(named: seq<NamedIndex>, e: NamedIndex): seq<NamedIndex> {
    if named == [] then [e]
    else if named[0].name == e.name then [e] + named[1..]
    else if Less(named[0].name, e.name) then [named[0]] + InsertNamed(named[1..], e)
    else [e] + named
  }

  /** `{idx}:{name}\0` for every entry. */
  function NamedBytes(named: seq<NamedIndex>): bytes {
    if named == [] then []
    else Decimal(named[0].index) + [58] + named[0].name + [0] + NamedBytes(named[1..])
  }

  ghost predicate IndexesBelow(named: seq<NamedIndex>, n: nat) {
    forall i :: 0 <= i < |named| ==> named[i].index < n
  }

  lemma {:induction false} InsertBelow(named: seq<NamedIndex>, e: NamedIndex, n: nat)
    requires IndexesBelow(named, n) && e.index < n
    ensures IndexesBelow(InsertNamed(named, e), n)
  {
    if named != [] && named[0].name != e.name && Less(named[0].name, e.name) {
      InsertBelow(named[1..], e, n);
    }
  }

  // ---- the file ----

  const MAGIC: bytes := [83, 112, 108, 105, 116, 83, 116, 114, 101, 97, 109]
  const LG_BLOCKSIZE: byte := 12

  function Range(start: nat, end: nat): (b: bytes)
    ensures |b| == 16
  {
    LE(start, 8) + LE(end, 8)
  }

  function Header(repo: Repo): (b: bytes)
    ensures |b| == 32
  {
    MAGIC + [0] + [0, 0] + [repo.algorithm, LG_BLOCKSIZE] + Range(32, 112)
  }

  /** The sections, in the order they have in the file. */
  datatype Sections =
    Sections(streamRefs: bytes, objectRefs: bytes, namedRefs: bytes, stream: bytes,
             contentType: nat, totalSize: nat)
  {
    function StreamRefsAt(): nat { 112 }
    function ObjectRefsAt(): nat { 112 + |streamRefs| }
    function NamedRefsAt(): nat { ObjectRefsAt() + |objectRefs| }
    function StreamAt(): nat { NamedRefsAt() + |namedRefs| }
    function End(): nat { StreamAt() + |stream| }

    function Info(): (b: bytes)
      ensures |b| == 80
    {
      Range(StreamRefsAt(), ObjectRefsAt()) + Range(ObjectRefsAt(), NamedRefsAt())
      + Range(StreamAt(), End()) + Range(NamedRefsAt(), StreamAt())
      + LE(contentType, 8) + LE(totalSize, 8)
    }
  }

  function FileOf(repo: Repo, s: Sections): bytes {
    Header(repo) + s.Info() + s.streamRefs + s.objectRefs + s.namedRefs + s.stream
  }

  // ---- the writer ----

  /** Everything the finished file depends on. */
  datatype Draft =
    Draft(atoms: seq<Atom>, objects: seq<Id>, streams: seq<Id>, named: seq<NamedIndex>,
             contentType: nat, totalSize: nat)

  ghost predicate GoodContents(repo: Repo, c: Draft) {
    && repo.Good()
    && Known(Chunked(c.atoms).Flushed(), c.objects)
    && Distinct(c.objects) && Distinct(c.streams)
    && (forall i :: 0 <= i < |c.objects| ==> |c.objects[i]| == repo.idSize)
    && (forall i :: 0 <= i < |c.streams| ==> |c.streams[i]| == repo.idSize)
    && IndexesBelow(c.named, |c.streams|)
  }

  function SectionsOf(repo: Repo, c: Draft): Sections
    requires Known(Chunked(c.atoms).Flushed(), c.objects)
  {
    Sections(Flat(c.streams), Flat(c.objects), repo.compress(NamedBytes(c.named)),
             repo.compress(Encode(Chunked(c.atoms).Flushed(), c.objects)), c.contentType, c.totalSize)
  }

  /** The bytes of the finished splitstream. */
  function StreamFile(repo: Repo, c: Draft): bytes
    requires Known(Chunked(c.atoms).Flushed(), c.objects)
  {
    FileOf(repo, SectionsOf(repo, c))
  }

  lemma MulAligned(n: nat, size: nat)
    requires size % 8 == 0
    ensures n * size % 8 == 0
  {
    var k := size / 8;
    assert n * size == n * k * 8;
    MulMod(n * k, 8);
  }

  class SplitStreamWriter {
    const repo: Repo
    const streamRefs: UniqueVec
    const objectRefs: UniqueVec
    var namedRefs: seq<NamedIndex>
    var inlineBuffer: bytes
    var totalSize: nat
    /** What has been fed to the encoder. */
    var encoded: bytes
    const contentType: nat
    ghost var atoms: seq<Atom>

    ghost predicate Valid()
      reads this, streamRefs, objectRefs
    {
      && streamRefs != objectRefs && streamRefs.Valid() && objectRefs.Valid()
      && GoodContents(repo, Contents())
      && Chunked(atoms).buffer == inlineBuffer
      && Known(Chunked(atoms).chunks, objectRefs.items)
      && encoded == Encode(Chunked(atoms).chunks, objectRefs.items)
    }

    ghost function Contents(): Draft
      reads this, streamRefs, objectRefs
    {
      Draft(atoms, objectRefs.items, streamRefs.items, namedRefs, contentType, totalSize)
    }

    constructor (repo: Repo, contentType: nat)
      requires repo.Good()
      ensures Valid() && fresh(streamRefs) && fresh(objectRefs)
      ensures this.repo == repo
      ensures Contents() == EmptyContents(contentType)
    {
      this.repo, this.contentType := repo, contentType;
      streamRefs := new UniqueVec();
      objectRefs := new UniqueVec();
      namedRefs, inlineBuffer, totalSize, encoded, atoms := [], [], 0, [], [];
    }

    method AddObjectRef(id: Id) returns (idx: nat)
      requires Valid() && |id| == repo.idSize
      modifies this, objectRefs
      ensures Valid() && id in objectRefs.items && idx == IndexOf(objectRefs.items, id)
      ensures Contents() == WithObject(old(Contents()), id)
      ensures encoded == old(encoded) && inlineBuffer == old(inlineBuffer)
    {
      hide Chunked, Encode;
      ghost var before := Contents();
      idx := objectRefs.Ensure(id);
      ObjectAdded(repo, before, id);
    }

    method AddNamedStreamRef(name: bytes, id: Id)
      requires Valid() && |id| == repo.idSize
      modifies this, streamRefs
      ensures Valid() && Contents() == WithNamed(old(Contents()), name, id)
    {
      hide Chunked, Encode, GoodContents, Known, InsertNamed, Distinct;
      ghost var before := Contents();
      var idx := streamRefs.Ensure(id);
      namedRefs := InsertNamed(namedRefs, NamedIndex(name, idx));
      NamedAdded(repo, before, name, id);
    }

    /** The pending inline data becomes a chunk. */
    method FlushInline()
      requires Valid() && |inlineBuffer| < 0x8000_0000_0000_0000
      modifies this
      ensures Contents() == old(Contents()) && inlineBuffer == []
      ensures streamRefs.Valid() && objectRefs.Valid() && GoodContents(repo, Contents())
      ensures encoded == Encode(Chunked(atoms).Flushed(), objectRefs.items)
    {
      hide Chunked, Encode;
      var size := |inlineBuffer|;
      if size > 0 {
        EncodeAppend(Chunked(atoms).chunks, Inline(inlineBuffer), objectRefs.items);
        encoded := encoded + LE(0x1_0000_0000_0000_0000 - size, 8) + inlineBuffer;
        assert old(encoded) + LE(0x1_0000_0000_0000_0000 - size, 8) + inlineBuffer
            == old(encoded) + (LE(0x1_0000_0000_0000_0000 - size, 8) + inlineBuffer);
        inlineBuffer := [];
      }
    }

    method WriteInline(data: bytes)
      requires Valid()
      modifies this
      ensures Valid() && Contents() == WithInline(old(Contents()), data)
    {
      hide Chunked, Encode;
      ghost var before := Contents();
      totalSize := totalSize + |data|;
      inlineBuffer := inlineBuffer + data;
      ChunkedBytes(atoms, data);
      atoms := atoms + BytesOf(data);
      InlineAdded(repo, before, data);
    }

    method AddExternalSize(size: nat)
      requires Valid()
      modifies this
      ensures Valid() && Contents() == old(Contents()).(totalSize := old(totalSize) + size)
    {
      hide Chunked, Encode;
      totalSize := totalSize + size;
    }

    method WriteReference(id: Id)
      requires Valid() && |id| == repo.idSize && |inlineBuffer| < 0x8000_0000_0000_0000
      modifies this, objectRefs
      ensures Valid() && Contents() == WithReference(old(Contents()), id)
    {
      hide *;
      Parts();
      ghost var before := Contents();
      FlushInline();
      ContentsAre();
      var index := objectRefs.Ensure(id);
      encoded := encoded + LE(index, 8);
      atoms := atoms + [Object(id)];
      ReferenceEncoded(repo, before, id);
      ReferenceAdded(repo, before, id);
      ContentsAre();
      WithReferenceIs(before, id);
      Validated();
    }

    lemma Parts()
      requires Valid()
      ensures streamRefs != objectRefs && streamRefs.Valid() && objectRefs.Valid()
      ensures GoodContents(repo, Contents())
    {
      hide Chunked, Encode, GoodContents;
    }

    lemma ContentsAre()
      ensures Contents()
           == Draft(atoms, objectRefs.items, streamRefs.items, namedRefs, contentType, totalSize)
    {
    }

    lemma Validated()
      requires streamRefs != objectRefs && streamRefs.Valid() && objectRefs.Valid()
      requires GoodContents(repo, Contents()) && Chunked(atoms).buffer == inlineBuffer
      requires Known(Chunked(atoms).chunks, objectRefs.items)
      requires encoded == Encode(Chunked(atoms).chunks, objectRefs.items)
      ensures Valid()
    {
      hide Chunked, Encode, GoodContents;
    }

    /** The object is stored under its id; the stream refers to it. */
    method WriteExternal(data: bytes)
      requires Valid() && |inlineBuffer| < 0x8000_0000_0000_0000
      modifies this, objectRefs
      ensures Valid() && Contents() == WithExternal(old(Contents()), repo, data)
    {
      hide Chunked, Encode;
      totalSize := totalSize + |data|;
      var id := repo.idOf(data);
      WriteReference(id);
    }

    /** `done`: the layout computed up front is where the sections go. */
    method Done() returns (file: bytes)
      requires Valid() && |inlineBuffer| < 0x8000_0000_0000_0000
      modifies this
      ensures file == StreamFile(repo, old(Contents()))
    {
      hide *;
      FlushForDone();
      var stream := repo.compress(encoded);
      var streamRefsBytes, objectRefsBytes := Flat(streamRefs.items), Flat(objectRefs.items);
      var named := repo.compress(NamedBytes(namedRefs));
      RefsAligned(repo, Contents());
      file := Assemble(streamRefsBytes, objectRefsBytes, named, stream);
      FileIs(repo, Contents());
    }

    /** Each section is appended where the layout says it starts. */
    method Assemble(streamRefsBytes: bytes, objectRefsBytes: bytes, named: bytes, stream: bytes)
      returns (file: bytes)
      requires |streamRefsBytes| % 8 == 0 && |objectRefsBytes| % 8 == 0
      ensures file == FileOf(repo, Sections(streamRefsBytes, objectRefsBytes, named, stream, contentType, totalSize))
    {
      hide LE, Range, Header;
      var infoEnd := 112;
      var streamRefsEnd := infoEnd + |streamRefsBytes|;
      assert streamRefsEnd % 8 == 0;
      var objectRefsEnd := streamRefsEnd + |objectRefsBytes|;
      assert objectRefsEnd % 8 == 0;
      var namedRefsEnd := objectRefsEnd + |named|;
      var streamEnd := namedRefsEnd + |stream|;
      file := Header(repo);
      file := file + (Range(infoEnd, streamRefsEnd) + Range(streamRefsEnd, objectRefsEnd)
                      + Range(namedRefsEnd, streamEnd) + Range(objectRefsEnd, namedRefsEnd)
                      + LE(contentType, 8) + LE(totalSize, 8));
      assert |file| == infoEnd;
      file := file + streamRefsBytes;
      assert |file| == streamRefsEnd;
      file := file + objectRefsBytes;
      assert |file| == objectRefsEnd;
      file := file + named;
      assert |file| == namedRefsEnd;
      file := file + stream;
      assert |file| == streamEnd;
    }

    method FlushForDone()
      requires Valid() && |inlineBuffer| < 0x8000_0000_0000_0000
      modifies this
      ensures Contents() == old(Contents()) && GoodContents(repo, Contents())
      ensures Known(Chunked(Contents().atoms).Flushed(), Contents().objects)
      ensures encoded == Encode(Chunked(Contents().atoms).Flushed(), Contents().objects)
      ensures Contents().streams == streamRefs.items && Contents().objects == objectRefs.items
      ensures Contents().named == namedRefs && Contents().contentType == contentType
      ensures Contents().totalSize == totalSize
    {
      hide Chunked, Encode;
      FlushInline();
    }
  }

  // ---- what each call adds ----

  function EmptyContents(contentType: nat): Draft {
    Draft([], [], [], [], contentType, 0)
  }

  function WithObject(c: Draft, id: Id): Draft {
    c.(objects := Ensured(c.objects, id))
  }

  function WithInline(c: Draft, data: bytes): Draft {
    c.(atoms := c.atoms + BytesOf(data), totalSize := c.totalSize + |data|)
  }

  function WithReference(c: Draft, id: Id): Draft {
    c.(atoms := c.atoms + [Object(id)], objects := Ensured(c.objects, id))
  }

  function WithExternal(c: Draft, repo: Repo, data: bytes): Draft {
    WithReference(c, repo.idOf(data)).(totalSize := c.totalSize + |data|)
  }

  function WithNamed(c: Draft, name: bytes, id: Id): Draft {
    var streams := Ensured(c.streams, id);
    c.(streams := streams, named := InsertNamed(c.named, NamedIndex(name, IndexOf(streams, id))))
  }

  lemma ObjectAdded(repo: Repo, c: Draft, id: Id)
    requires GoodContents(repo, c) && |id| == repo.idSize && Known(Chunked(c.atoms).chunks, c.objects)
    ensures GoodContents(repo, WithObject(c, id))
    ensures
      var l, more := Chunked(c.atoms).chunks, Ensured(c.objects, id);
      Known(l, more) && Encode(l, more) == Encode(l, c.objects)
  {
    hide Chunked, Encode;
    var more := Ensured(c.objects, id);
    EncodeStays(Chunked(c.atoms).chunks, c.objects, more);
    EncodeStays(Chunked(c.atoms).Flushed(), c.objects, more);
    assert c.objects <= more;
  }

  lemma NamedAdded(repo: Repo, c: Draft, name: bytes, id: Id)
    requires GoodContents(repo, c) && |id| == repo.idSize
    ensures GoodContents(repo, WithNamed(c, name, id))
  {
    hide Chunked, Known;
    var streams := Ensured(c.streams, id);
    InsertBelow(c.named, NamedIndex(name, IndexOf(streams, id)), |streams|);
  }

  lemma InlineAdded(repo: Repo, c: Draft, data: bytes)
    requires GoodContents(repo, c)
    ensures GoodContents(repo, WithInline(c, data))
  {
    hide Chunked;
    ChunkedBytes(c.atoms, data);
    var l, more := Chunked(c.atoms), Chunked(c.atoms + BytesOf(data));
    forall i | 0 <= i < |more.Flushed()| && more.Flushed()[i].External?
      ensures more.Flushed()[i].id in c.objects
    {
      assert more.Flushed()[i] == l.Flushed()[i];
    }
  }

  lemma WithReferenceIs(c: Draft, id: Id)
    ensures WithReference(c, id)
         == Draft(c.atoms + [Object(id)], Ensured(c.objects, id), c.streams, c.named, c.contentType,
                  c.totalSize)
  {
  }

  lemma ReferenceEncoded(repo: Repo, c: Draft, id: Id)
    requires GoodContents(repo, c) && |id| == repo.idSize
    ensures
      var more, l := Ensured(c.objects, id), Chunked(c.atoms + [Object(id)]);
      && l.buffer == [] && Known(l.chunks, more) && Known(Chunked(c.atoms).Flushed(), c.objects)
      && Encode(l.chunks, more)
         == Encode(Chunked(c.atoms).Flushed(), c.objects) + LE(IndexOf(more, id), 8)
  {
    hide Chunked, Encode;
    var chunks, more := Chunked(c.atoms).Flushed(), Ensured(c.objects, id);
    assert c.objects <= more;
    EncodeStays(chunks, c.objects, more);
    EncodeAppend(chunks, External(id), more);
    ChunkedObject(c.atoms, id);
  }

  lemma ReferenceAdded(repo: Repo, c: Draft, id: Id)
    requires GoodContents(repo, c) && |id| == repo.idSize
    ensures GoodContents(repo, WithReference(c, id))
  {
    hide Chunked;
    ChunkedObject(c.atoms, id);
    var before, all := Chunked(c.atoms).Flushed(), Chunked(c.atoms + [Object(id)]).Flushed();
    assert all == before + [External(id)];
    assert c.objects <= Ensured(c.objects, id);
  }

  lemma RefsAligned(repo: Repo, c: Draft)
    requires GoodContents(repo, c)
    ensures |Flat(c.streams)| % 8 == 0 && |Flat(c.objects)| % 8 == 0
    ensures |Flat(c.streams)| == |c.streams| * repo.idSize
    ensures |Flat(c.objects)| == |c.objects| * repo.idSize
  {
    hide Chunked, Known;
    FlatLength(c.streams, repo.idSize);
    FlatLength(c.objects, repo.idSize);
    MulAligned(|c.streams|, repo.idSize);
    MulAligned(|c.objects|, repo.idSize);
  }

  lemma FileIs(repo: Repo, c: Draft)
    requires Known(Chunked(c.atoms).Flushed(), c.objects)
    ensures StreamFile(repo, c)
         == FileOf(repo, Sections(Flat(c.streams), Flat(c.objects), repo.compress(NamedBytes(c.named)),
                                  repo.compress(Encode(Chunked(c.atoms).Flushed(), c.objects)),
                                  c.contentType, c.totalSize))
  {
    hide Chunked, Known, Encode, Flat, NamedBytes, FileOf;
  }

  /** The size recorded is the length of the merged stream, if it was before. */
  lemma SizeIsLength(repo: Repo, c: Draft, data: bytes)
    requires c.totalSize == |Merge(repo, c.atoms)|
    ensures WithInline(c, data).totalSize == |Merge(repo, WithInline(c, data).atoms)|
    ensures repo.Keeps(data) ==>
      WithExternal(c, repo, data).totalSize == |Merge(repo, WithExternal(c, repo, data).atoms)|
  {
    MergeAppend(repo, c.atoms, BytesOf(data));
    MergeBytes(repo, data);
    MergeAppend(repo, c.atoms, [Object(repo.idOf(data))]);
    MergeObject(repo, repo.idOf(data));
  }
}
