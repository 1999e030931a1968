/** Tar archives as splitstreams (tar.rs): the synchronous and the asynchronous producer, and the
    read loop of `get_entry`.  `None` and `false` stand for errors. */
module Tar {
  import opened Bytes
  import opened Splitstream
  import opened SplitstreamReader
  import opened SplitstreamBuilder

  const INLINE_CONTENT_MAX: nat := 64

  /** How the tar crate reads a header: the size of the entry, and whether it is a regular
      file. */
  datatype TarFormat = TarFormat(entrySize: bytes -> Option<nat>, regular: bytes -> bool)

  /** `next_multiple_of(512)` */
  function Up512(n: nat): (r: nat)
    ensures n <= r < n + 512 && r % 512 == 0
  {
    (n + 511) / 512 * 512
  }

  /** One step through an archive: a block of zeros, an entry, the end, or an error. */
  datatype Piece =
    | ZeroBlock
    | Entry(header: bytes, size: nat, body: bytes)
    | EndOfArchive
    | Bad

  function FirstPiece(tar: TarFormat, input: bytes): Piece {
    if input == [] then EndOfArchive
    else if |input| < 512 then Bad
    else
      var header := input[..512];
      if header == Zeros(512) then ZeroBlock
      else
        match tar.entrySize(header)
        case None => Bad
        case Some(size) =>
          if |input| < 512 + Up512(size) then Bad
          else Entry(header, size, input[512..512 + Up512(size)])
  }

  function PieceSize(p: Piece): nat {
    match p
    case ZeroBlock => 512
    case Entry(_, _, body) => 512 + |body|
    case _ => 0
  }

  lemma PieceFits(tar: TarFormat, input: bytes)
    ensures
      var p := FirstPiece(tar, input);
      && PieceSize(p) <= |input|
      && (p.Entry? ==> |p.header| == 512 && p.size <= |p.body| == Up512(p.size)
                       && p.header != Zeros(512) && tar.entrySize(p.header) == Some(p.size)
                       && input == p.header + p.body + input[PieceSize(p)..])
      && (p.ZeroBlock? ==> input == Zeros(512) + input[512..])
  {
  }

  /** Large regular files are stored as objects. */
  predicate IsExternal(tar: TarFormat, p: Piece) {
    p.Entry? && tar.regular(p.header) && p.size > INLINE_CONTENT_MAX
  }

  // ---- the splitstream of an archive ----

  function PieceAtoms(tar: TarFormat, repo: Repo, p: Piece): seq<Atom>
    requires p.Entry? ==> p.size <= |p.body|
  {
    match p
    case ZeroBlock => BytesOf(Zeros(512))
    case Entry(header, size, body) =>
      if IsExternal(tar, p) then
        BytesOf(header) + [Object(repo.idOf(body[..size]))] + BytesOf(body[size..])
      else BytesOf(header) + BytesOf(body)
    case _ => []
  }

  /** What an accepted archive is split into. */
  function SplitAtoms(tar: TarFormat, repo: Repo, input: bytes): Option<seq<Atom>>
    decreases |input|
  {
    PieceFits(tar, input);
    var p := FirstPiece(tar, input);
    match p
    case EndOfArchive => Some([])
    case Bad => None
    case _ =>
      match SplitAtoms(tar, repo, input[PieceSize(p)..])
      case None => None
      case Some(rest) => Some(PieceAtoms(tar, repo, p) + rest)
  }

  /** The repository gives every external body of the archive back. */
  ghost predicate KeepsBodies(tar: TarFormat, repo: Repo, input: bytes)
    decreases |input|
  {
    PieceFits(tar, input);
    var p := FirstPiece(tar, input);
    match p
    case EndOfArchive => true
    case Bad => true
    case ZeroBlock => KeepsBodies(tar, repo, input[512..])
    case Entry(_, size, body) =>
      && (IsExternal(tar, p) ==> repo.Keeps(body[..size]))
      && KeepsBodies(tar, repo, input[PieceSize(p)..])
  }

  /** Splitting loses nothing: the merged stream is the archive. */
  lemma {:induction false} SplitMerges(tar: TarFormat, repo: Repo, input: bytes)
    requires KeepsBodies(tar, repo, input) && SplitAtoms(tar, repo, input).Some?
    ensures Merge(repo, SplitAtoms(tar, repo, input).value) == input
    decreases |input|
  {
    hide FirstPiece, Merge, BytesOf, Zeros, Up512;
    PieceFits(tar, input);
    var p := FirstPiece(tar, input);
    if p.EndOfArchive? {
      NothingLeft(tar, repo, input);
    } else {
      var rest := input[PieceSize(p)..];
      SplitMerges(tar, repo, rest);
      var atoms := SplitAtoms(tar, repo, rest).value;
      MergeAppend(repo, PieceAtoms(tar, repo, p), atoms);
      PieceMerges(tar, repo, p);
    }
  }

  lemma NothingLeft(tar: TarFormat, repo: Repo, input: bytes)
    requires FirstPiece(tar, input).EndOfArchive?
    ensures input == [] && Merge(repo, []) == []
  {
  }

  lemma PieceMerges(tar: TarFormat, repo: Repo, p: Piece)
    requires p.Entry? ==> p.size <= |p.body|
    requires IsExternal(tar, p) ==> repo.Keeps(p.body[..p.size])
    ensures p.ZeroBlock? ==> Merge(repo, PieceAtoms(tar, repo, p)) == Zeros(512)
    ensures p.Entry? ==> Merge(repo, PieceAtoms(tar, repo, p)) == p.header + p.body
  {
    hide Merge, BytesOf;
    match p
    case ZeroBlock => MergeBytes(repo, Zeros(512));
    case Entry(header, size, body) =>
      MergeBytes(repo, header);
      if IsExternal(tar, p) {
        var data, padding := body[..size], body[size..];
        MergeAppend(repo, BytesOf(header) + [Object(repo.idOf(data))], BytesOf(padding));
        MergeAppend(repo, BytesOf(header), [Object(repo.idOf(data))]);
        MergeObject(repo, repo.idOf(data));
        MergeBytes(repo, padding);
        assert body == data + padding;
        assert header + data + padding == header + (data + padding);
      } else {
        MergeAppend(repo, BytesOf(header), BytesOf(body));
        MergeBytes(repo, body);
      }
    case _ =>
  }

  // ---- what a writer holds when nothing but data was written ----

  function ObjectsIn(atoms: seq<Atom>): seq<Id>
    decreases |atoms|
  {
    if atoms == [] then []
    else
      var n := |atoms| - 1;
      match atoms[n]
      case Byte(_) => ObjectsIn(atoms[..n])
      case Object(id) => Ensured(ObjectsIn(atoms[..n]), id)
  }

  /** The draft of a stream without named references. */
  function Plain(atoms: seq<Atom>, contentType: nat, totalSize: nat): Draft {
    Draft(atoms, ObjectsIn(atoms), [], [], contentType, totalSize)
  }

  lemma {:induction false} ObjectsInBytes(atoms: seq<Atom>, data: bytes)
    ensures ObjectsIn(atoms + BytesOf(data)) == ObjectsIn(atoms)
    decreases |data|
  {
    if data == [] {
      assert atoms + BytesOf(data) == atoms;
    } else {
      var all := atoms + BytesOf(data);
      ObjectsInBytes(atoms, data[..|data| - 1]);
      assert all[..|all| - 1] == atoms + BytesOf(data[..|data| - 1]);
    }
  }

  lemma PlainInline(atoms: seq<Atom>, contentType: nat, total: nat, data: bytes)
    ensures WithInline(Plain(atoms, contentType, total), data)
         == Plain(atoms + BytesOf(data), contentType, total + |data|)
  {
    ObjectsInBytes(atoms, data);
  }

  lemma PlainReference(atoms: seq<Atom>, contentType: nat, total: nat, id: Id)
    ensures WithReference(Plain(atoms, contentType, total), id)
         == Plain(atoms + [Object(id)], contentType, total)
  {
    assert (atoms + [Object(id)])[..|atoms|] == atoms;
  }

  lemma PlainEmpty(contentType: nat)
    ensures EmptyContents(contentType) == Plain([], contentType, 0)
  {
  }

  // ---- split ----

  /** The stream after one more entry. */
  function Wrote(tar: TarFormat, repo: Repo, atoms: seq<Atom>, header: bytes, size: nat, buffer: bytes): seq<Atom>
    requires size <= |buffer|
  {
    if tar.regular(header) && size > INLINE_CONTENT_MAX then
      atoms + BytesOf(header) + [Object(repo.idOf(buffer[..size]))] + BytesOf(buffer[size..])
    else atoms + BytesOf(header) + BytesOf(buffer)
  }

  /** What the first block of the rest means for the whole. */
  lemma SplitStep(tar: TarFormat, repo: Repo, rest: bytes, atoms: seq<Atom>)
    ensures
      var all := After(atoms, SplitAtoms(tar, repo, rest));
      if rest == [] then all == Some(atoms)
      else if |rest| < 512 then all == None
      else if rest[..512] == Zeros(512) then
        all == After(atoms + BytesOf(rest[..512]), SplitAtoms(tar, repo, rest[512..]))
      else
        match tar.entrySize(rest[..512])
        case None => all == None
        case Some(size) =>
          if |rest[512..]| < Up512(size) then all == None
          else
            var buffer := rest[512..][..Up512(size)];
            all == After(Wrote(tar, repo, atoms, rest[..512], size, buffer),
                         SplitAtoms(tar, repo, rest[512..][Up512(size)..]))
  {
    hide BytesOf, Up512, Zeros;
    PieceFits(tar, rest);
    var p := FirstPiece(tar, rest);
    assert atoms + [] == atoms;
    match p
    case EndOfArchive =>
    case Bad =>
    case ZeroBlock =>
      Regroup(atoms, PieceAtoms(tar, repo, p), SplitAtoms(tar, repo, rest[512..]));
    case Entry(header, size, body) =>
      Regroup(atoms, PieceAtoms(tar, repo, p), SplitAtoms(tar, repo, rest[PieceSize(p)..]));
      assert rest[512..][..Up512(size)] == body;
      assert rest[512..][Up512(size)..] == rest[PieceSize(p)..];
      WroteIs(tar, repo, atoms, p);
  }

  lemma WroteIs(tar: TarFormat, repo: Repo, atoms: seq<Atom>, p: Piece)
    requires p.Entry? && p.size <= |p.body|
    ensures atoms + PieceAtoms(tar, repo, p) == Wrote(tar, repo, atoms, p.header, p.size, p.body)
  {
    hide BytesOf;
  }

  lemma Regroup(atoms: seq<Atom>, more: seq<Atom>, rest: Option<seq<Atom>>)
    ensures rest.Some? ==> After(atoms, Some(more + rest.value)) == After(atoms + more, rest)
  {
    if rest.Some? {
      assert atoms + (more + rest.value) == atoms + more + rest.value;
    }
  }

  lemma BufferSmall(writer: SplitStreamWriter)
    requires writer.Valid() && |writer.Contents().atoms| < 0x8000_0000_0000_0000
    ensures |writer.inlineBuffer| < 0x8000_0000_0000_0000
  {
    hide Chunked, Encode;
    ChunkedFaithful(writer.Contents().atoms);
  }

  /** A header and a body are written. */
  method WriteEntry(tar: TarFormat, writer: SplitStreamWriter, header: bytes, size: nat, buffer: bytes,
                    ghost atoms: seq<Atom>, ghost total: nat)
    requires writer.Valid() && size <= |buffer| && |header| == 512
    requires writer.Contents() == Plain(atoms + BytesOf(header), writer.contentType, total)
    requires |atoms| + 512 < 0x8000_0000_0000_0000
    modifies writer, writer.objectRefs
    ensures writer.Valid()
    ensures writer.Contents()
         == Plain(Wrote(tar, writer.repo, atoms, header, size, buffer), writer.contentType, total + |buffer|)
  {
    hide ObjectsIn, writer.Valid, WithInline, WithReference;
    ghost var start := atoms + BytesOf(header);
    if tar.regular(header) && size > INLINE_CONTENT_MAX {
      var data, padding := buffer[..size], buffer[size..];
      ghost var id := writer.repo.idOf(data);
      BufferSmall(writer);
      writer.WriteExternal(data);
      PlainReference(start, writer.contentType, total, id);
      writer.WriteInline(padding);
      PlainInline(start + [Object(id)], writer.contentType, total + size, padding);
    } else {
      writer.WriteInline(buffer);
      PlainInline(start, writer.contentType, total, buffer);
    }
  }

  /** A reader that may return fewer bytes than asked for or be interrupted, though not for
      ever, and whose buffer may hold any part of what is to come. */
  class Source {
    var rest: bytes
    var interruptions: nat

    constructor (input: bytes, interruptions: nat)
      ensures rest == input
    {
      rest, this.interruptions := input, interruptions;
    }

    method Read(most: nat) returns (chunk: bytes, interrupted: bool)
      modifies this
      ensures interrupted ==> rest == old(rest) && interruptions < old(interruptions)
      ensures !interrupted ==> old(rest) == chunk + rest && |chunk| <= most
      ensures !interrupted ==> (chunk == [] <==> most == 0 || old(rest) == [])
      ensures interruptions <= old(interruptions)
    {
      interrupted := *;
      if interrupted && interruptions > 0 {
        interruptions := interruptions - 1;
        return [], true;
      }
      interrupted := false;
      var n: nat := *;
      if !(1 <= n <= most) || n > |rest| {
        n := if most <= |rest| then most else |rest|;
      }
      chunk, rest := rest[..n], rest[n..];
    }

    /** `fill_buf`: some prefix of the rest, empty only at the end. */
    method FillBuf() returns (chunk: bytes)
      ensures chunk <= rest && (chunk == [] <==> rest == [])
    {
      var n: nat := *;
      chunk := if 1 <= n <= |rest| then rest[..n] else rest;
    }

    method Consume(n: nat)
      requires n <= |rest|
      modifies this
      ensures rest == old(rest)[n..]
    {
      rest := rest[n..];
    }

    /** `read_exactish`: a full buffer, nothing at a clean end, or an error. */
    method ReadExactish(n: nat) returns (r: Option<bytes>, ok: bool)
      requires n > 0
      modifies this
      ensures old(rest) == [] ==> ok && r == None && rest == []
      ensures 0 < |old(rest)| < n ==> !ok
      ensures n <= |old(rest)| ==> ok && r == Some(old(rest)[..n]) && rest == old(rest)[n..]
    {
      var buf: bytes := [];
      while |buf| < n
        invariant |buf| <= n && old(rest) == buf + rest
        decreases n - |buf|, interruptions
      {
        var chunk, interrupted := Read(n - |buf|);
        if interrupted {
          continue;
        }
        if chunk == [] {
          return None, buf == [];
        }
        buf := buf + chunk;
      }
      return Some(buf), true;
    }

    /** `read_exact`: nothing less will do. */
    method ReadExact(n: nat) returns (r: Option<bytes>)
      modifies this
      ensures r.Some? <==> n <= |old(rest)|
      ensures r.Some? ==> r.value == old(rest)[..n] && rest == old(rest)[n..]
    {
      if n == 0 {
        return Some([]);
      }
      var ok;
      r, ok := ReadExactish(n);
      if !ok {
        r := None;
      }
    }
  }

  /** `split`: the writer has got exactly the archive, or the archive is not accepted. */
  method Split(tar: TarFormat, source: Source, writer: SplitStreamWriter) returns (ok: bool)
    requires writer.Valid() && writer.Contents() == Plain([], writer.contentType, 0)
    requires |source.rest| + 512 < 0x8000_0000_0000_0000
    modifies source, writer, writer.objectRefs
    ensures ok <==> SplitAtoms(tar, writer.repo, old(source.rest)).Some?
    ensures ok ==>
      && writer.Valid()
      && writer.Contents()
         == Plain(SplitAtoms(tar, writer.repo, old(source.rest)).value, writer.contentType,
                  |old(source.rest)|)
  {
    hide SplitAtoms, ObjectsIn, writer.Valid, WithInline, Zeros, Wrote;
    ghost var input := source.rest;
    ghost var atoms: seq<Atom> := [];
    ghost var all := SplitAtoms(tar, writer.repo, input);
    StartSplit(all);
    while true
      invariant writer.Valid()
      invariant writer.Contents() == Plain(atoms, writer.contentType, |input| - |source.rest|)
      invariant |source.rest| <= |input| && |atoms| <= |input| - |source.rest|
      invariant all == After(atoms, SplitAtoms(tar, writer.repo, source.rest))
      decreases |source.rest|
    {
      ghost var rest := source.rest;
      SplitStep(tar, writer.repo, rest, atoms);
      var block, good := source.ReadExactish(512);
      if !good || block.None? {
        return good;
      }
      var header := block.value;
      ghost var total := |input| - |rest|;
      writer.WriteInline(header);
      PlainInline(atoms, writer.contentType, total, header);
      if header == Zeros(512) {
        atoms := atoms + BytesOf(header);
        continue;
      }
      var size := tar.entrySize(header);
      if size.None? {
        return false;
      }
      var storageSize := Up512(size.value);
      var buffer := source.ReadExact(storageSize);
      if buffer.None? {
        return false;
      }
      WriteEntry(tar, writer, header, size.value, buffer.value, atoms, total + 512);
      WroteSize(tar, writer.repo, atoms, header, size.value, buffer.value);
      atoms := Wrote(tar, writer.repo, atoms, header, size.value, buffer.value);
    }
  }

  /** Splitting an archive and finishing the stream. */
  method SplitToFile(tar: TarFormat, input: bytes, interruptions: nat, repo: Repo, contentType: nat)
    returns (file: Option<bytes>)
    requires repo.Good() && |input| + 512 < 0x8000_0000_0000_0000
    ensures file.Some? <==> SplitAtoms(tar, repo, input).Some?
    ensures file.Some? ==> IsStreamOf(repo, file.value, SplitAtoms(tar, repo, input).value, contentType, |input|)
  {
    hide SplitAtoms, StreamFile;
    var source := new Source(input, interruptions);
    var writer := new SplitStreamWriter(repo, contentType);
    PlainEmpty(contentType);
    var ok := Split(tar, source, writer);
    if !ok {
      return None;
    }
    SplitBound(tar, repo, input);
    WriterParts(writer);
    BufferSmall(writer);
    var done := writer.Done();
    file := Some(done);
  }

  /** The file is the finished stream of these atoms, without named references. */
  ghost predicate IsStreamOf(repo: Repo, file: bytes, atoms: seq<Atom>, contentType: nat, size: nat) {
    var c := Plain(atoms, contentType, size);
    Known(Chunked(c.atoms).Flushed(), c.objects) && file == StreamFile(repo, c)
  }

  lemma {:induction false} SplitBound(tar: TarFormat, repo: Repo, input: bytes)
    requires SplitAtoms(tar, repo, input).Some?
    ensures |SplitAtoms(tar, repo, input).value| <= |input|
    decreases |input|
  {
    hide FirstPiece, Up512;
    PieceFits(tar, input);
    var p := FirstPiece(tar, input);
    if p.ZeroBlock? || p.Entry? {
      SplitBound(tar, repo, input[PieceSize(p)..]);
    }
  }

  lemma WroteSize(tar: TarFormat, repo: Repo, atoms: seq<Atom>, header: bytes, size: nat, buffer: bytes)
    requires size <= |buffer|
    ensures |Wrote(tar, repo, atoms, header, size, buffer)| <= |atoms| + |header| + |buffer|
  {
  }

  function After(atoms: seq<Atom>, rest: Option<seq<Atom>>): Option<seq<Atom>> {
    match rest
    case None => None
    case Some(r) => Some(atoms + r)
  }

  lemma StartSplit(all: Option<seq<Atom>>)
    ensures After([], all) == all
  {
    if all.Some? {
      assert [] + all.value == all.value;
    }
  }

  // ---- split_async ----

  /** The stream that the entries of a builder stand for. */
  function BuilderAtoms(repo: Repo, received: seq<bytes>, entries: seq<SplitstreamBuilder.Entry>): seq<Atom>
    requires HandlesBelow(entries, |received|)
    decreases |entries|
  {
    if entries == [] then []
    else
      var n := |entries| - 1;
      BuilderAtoms(repo, received, entries[..n])
      + (match entries[n]
         case InlineEntry(data) => BytesOf(data)
         case ExternalEntry(h, _) => [Object(repo.idOf(received[h]))])
  }

  function BuilderTotal(entries: seq<SplitstreamBuilder.Entry>): nat
    decreases |entries|
  {
    if entries == [] then 0
    else
      BuilderTotal(entries[..|entries| - 1])
      + (match entries[|entries| - 1]
         case InlineEntry(data) => |data|
         case ExternalEntry(_, size) => size)
  }

  /** Replaying the entries gives the plain draft of what they stand for. */
  lemma {:induction false} FinishedPlain(repo: Repo, contentType: nat, received: seq<bytes>,
                                         entries: seq<SplitstreamBuilder.Entry>)
    requires HandlesBelow(entries, |received|)
    ensures Finished(repo, contentType, [], [], received, entries)
         == Plain(BuilderAtoms(repo, received, entries), contentType, BuilderTotal(entries))
    decreases |entries|
  {
    hide ObjectsIn, WithInline, WithReference;
    if entries == [] {
      PlainEmpty(contentType);
      assert Resolve(repo, received, entries) == [];
    } else {
      var n := |entries| - 1;
      FinishedPlain(repo, contentType, received, entries[..n]);
      var r, r0 := Resolve(repo, received, entries), Resolve(repo, received, entries[..n]);
      assert r[..n] == r0;
      var atoms, total := BuilderAtoms(repo, received, entries[..n]), BuilderTotal(entries[..n]);
      match entries[n]
      case InlineEntry(data) => PlainInline(atoms, contentType, total, data);
      case ExternalEntry(h, size) =>
        PlainReference(atoms, contentType, total + size, repo.idOf(received[h]));
    }
  }

  lemma PushedInline(repo: Repo, received: seq<bytes>, entries: seq<SplitstreamBuilder.Entry>, data: bytes)
    requires HandlesBelow(entries, |received|)
    ensures HandlesBelow(Pushed(entries, data), |received|)
    ensures BuilderAtoms(repo, received, Pushed(entries, data))
         == BuilderAtoms(repo, received, entries) + BytesOf(data)
    ensures BuilderTotal(Pushed(entries, data)) == BuilderTotal(entries) + |data|
  {
    var more := Pushed(entries, data);
    if data == [] {
      assert BuilderAtoms(repo, received, entries) + BytesOf(data) == BuilderAtoms(repo, received, entries);
    } else if entries != [] && entries[|entries| - 1].InlineEntry? {
      var n := |entries| - 1;
      assert more[..n] == entries[..n];
      assert BytesOf(entries[n].data + data) == BytesOf(entries[n].data) + BytesOf(data);
    } else {
      assert more[..|entries|] == entries;
    }
  }

  lemma PushedExternal(repo: Repo, received: seq<bytes>, entries: seq<SplitstreamBuilder.Entry>, h: nat, size: nat)
    requires HandlesBelow(entries, |received|) && h < |received|
    ensures
      var more := entries + [ExternalEntry(h, size)];
      && HandlesBelow(more, |received|)
      && BuilderAtoms(repo, received, more)
         == BuilderAtoms(repo, received, entries) + [Object(repo.idOf(received[h]))]
      && BuilderTotal(more) == BuilderTotal(entries) + size
  {
    assert (entries + [ExternalEntry(h, size)])[..|entries|] == entries;
  }

  /** Tasks that entries do not wait for do not matter. */
  lemma {:induction false} OtherTasks(repo: Repo, received: seq<bytes>, received': seq<bytes>,
                                      entries: seq<SplitstreamBuilder.Entry>)
    requires HandlesBelow(entries, |received|) && received <= received'
    ensures HandlesBelow(entries, |received'|)
    ensures BuilderAtoms(repo, received', entries) == BuilderAtoms(repo, received, entries)
    decreases |entries|
  {
    if entries != [] {
      OtherTasks(repo, received, received', entries[..|entries| - 1]);
    }
  }

  /** The body of a large file goes to its task in the chunks the buffer happens to hold. */
  method SendBody(source: Source, tasks: Tasks, handle: nat, size: nat) returns (ok: bool)
    requires tasks.Valid() && handle == |tasks.received| - 1 && tasks.received[handle] == []
    requires !tasks.closed[handle]
    modifies source, tasks
    ensures tasks.Valid() && |tasks.received| == |old(tasks.received)|
    ensures tasks.received[..handle] == old(tasks.received)[..handle] && tasks.closed == old(tasks.closed)
    ensures ok <==> size <= |old(source.rest)|
    ensures ok ==> tasks.received[handle] == old(source.rest)[..size] && source.rest == old(source.rest)[size..]
  {
    ghost var input := source.rest;
    var remaining := size;
    while remaining > 0
      invariant tasks.Valid() && |tasks.received| == |old(tasks.received)| && 0 <= remaining <= size
      invariant tasks.received[..handle] == old(tasks.received)[..handle]
      invariant tasks.closed == old(tasks.closed)
      invariant input == tasks.received[handle] + source.rest
      invariant |tasks.received[handle]| == size - remaining
    {
      tasks.Progress();
      var chunk := source.FillBuf();
      if chunk == [] {
        return false;
      }
      var chunkSize := if remaining <= |chunk| then remaining else |chunk|;
      assert source.rest == chunk[..chunkSize] + source.rest[chunkSize..];
      tasks.Send(handle, chunk[..chunkSize]);
      source.Consume(chunkSize);
      remaining := remaining - chunkSize;
    }
    assert remaining == 0;
    SplitAt(input, tasks.received[handle], source.rest);
    return true;
  }

  lemma SplitAt(all: bytes, a: bytes, b: bytes)
    requires all == a + b
    ensures all[..|a|] == a && all[|a|..] == b
  {
  }

  /** What every step of `split_async` keeps. */
  ghost predicate Building(repo: Repo, builder: SplitStreamBuilder, tasks: Tasks, atoms: seq<Atom>, total: nat)
    reads builder, builder.streamRefs, tasks
  {
    && builder.Valid() && builder.repo == repo && tasks.Valid() && tasks.repo == repo
    && builder.namedRefs == [] && builder.streamRefs.items == []
    && HandlesBelow(builder.entries, |tasks.received|) && AllClosed(builder.entries, tasks.closed)
    && BuilderAtoms(repo, tasks.received, builder.entries) == atoms
    && BuilderTotal(builder.entries) == total
  }

  method PushBytes(repo: Repo, builder: SplitStreamBuilder, tasks: Tasks, data: bytes,
                   ghost atoms: seq<Atom>, ghost total: nat)
    requires Building(repo, builder, tasks, atoms, total)
    modifies builder
    ensures Building(repo, builder, tasks, atoms + BytesOf(data), total + |data|)
  {
    hide BuilderAtoms, BuilderTotal;
    ghost var entries := builder.entries;
    PushedInline(repo, tasks.received, entries, data);
    builder.PushInline(data);
  }

  /** A large file: a task is started, fed, and its handle pushed. */
  method PushBody(repo: Repo, source: Source, builder: SplitStreamBuilder, tasks: Tasks, size: nat,
                  ghost atoms: seq<Atom>, ghost total: nat)
    returns (ok: bool)
    requires Building(repo, builder, tasks, atoms, total)
    modifies source, builder, tasks
    ensures ok <==> size <= |old(source.rest)|
    ensures ok ==> source.rest == old(source.rest)[size..]
    ensures ok ==> Building(repo, builder, tasks, atoms + [Object(repo.idOf(old(source.rest)[..size]))], total + size)
  {
    hide BuilderAtoms, BuilderTotal;
    ghost var before, entries := tasks.received, builder.entries;
    var handle := tasks.Spawn();
    ok := SendBody(source, tasks, handle, size);
    if !ok {
      return;
    }
    tasks.Close(handle);
    assert before == tasks.received[..handle];
    OtherTasks(repo, before, tasks.received, entries);
    PushedExternal(repo, tasks.received, entries, handle, size);
    builder.PushExternal(handle, size);
  }

  /** What follows a header: a large regular file goes to a task and its padding inline,
      everything else inline. */
  method PushEntry(tar: TarFormat, repo: Repo, source: Source, builder: SplitStreamBuilder, tasks: Tasks,
                   header: bytes, actualSize: nat, ghost atoms: seq<Atom>, ghost total: nat)
    returns (ok: bool)
    requires Building(repo, builder, tasks, atoms + BytesOf(header), total)
    modifies source, builder, tasks
    ensures ok <==> Up512(actualSize) <= |old(source.rest)|
    ensures ok ==> actualSize <= Up512(actualSize) && source.rest == old(source.rest)[Up512(actualSize)..]
    ensures ok ==>
      Building(repo, builder, tasks,
               Wrote(tar, repo, atoms, header, actualSize, old(source.rest)[..Up512(actualSize)]),
               total + Up512(actualSize))
  {
    hide *;
    var storageSize := Up512(actualSize);
    WroteParts(tar, repo, atoms, header, actualSize, source.rest);
    if tar.regular(header) && actualSize > INLINE_CONTENT_MAX {
      ghost var body := source.rest;
      ok := PushBody(repo, source, builder, tasks, actualSize, atoms + BytesOf(header), total);
      if !ok {
        return;
      }
      var paddingSize := storageSize - actualSize;
      if paddingSize > 0 {
        var padding := source.ReadExact(paddingSize);
        if padding.None? {
          return false;
        }
        PushBytes(repo, builder, tasks, padding.value,
                  atoms + BytesOf(header) + [Object(repo.idOf(body[..actualSize]))], total + actualSize);
      }
    } else {
      var buffer := source.ReadExact(storageSize);
      if buffer.None? {
        return false;
      }
      PushBytes(repo, builder, tasks, buffer.value, atoms + BytesOf(header), total);
    }
    ok := true;
  }

  /** `split_async`: whatever the buffer holds each time and whenever the tasks end, the file is
      the one that `split` makes. */
  method SplitAsync(tar: TarFormat, source: Source, repo: Repo, contentType: nat) returns (file: Option<bytes>)
    requires repo.Good() && |source.rest| + 512 < 0x8000_0000_0000_0000
    modifies source
    ensures file.Some? <==> SplitAtoms(tar, repo, old(source.rest)).Some?
    ensures file.Some? ==>
      IsStreamOf(repo, file.value, SplitAtoms(tar, repo, old(source.rest)).value, contentType, |old(source.rest)|)
  {
    hide *;
    ghost var input := source.rest;
    ghost var atoms: seq<Atom> := [];
    ghost var all := SplitAtoms(tar, repo, input);
    StartSplit(all);
    var tasks := new Tasks(repo);
    var builder := new SplitStreamBuilder(repo, contentType);
    StartBuilding(repo, builder, tasks);
    while true
      invariant Building(repo, builder, tasks, atoms, |input| - |source.rest|)
      invariant fresh(builder) && fresh(builder.streamRefs) && fresh(tasks)
      invariant builder.contentType == contentType
      invariant |source.rest| <= |input| && |atoms| <= |input| - |source.rest|
      invariant all == After(atoms, SplitAtoms(tar, repo, source.rest))
      decreases |source.rest|
    {
      ghost var rest := source.rest;
      SplitStep(tar, repo, rest, atoms);
      var block, good := source.ReadExactish(512);
      if !good {
        return None;
      }
      if block.None? {
        break;
      }
      var header := block.value;
      ghost var total := |input| - |rest|;
      PushBytes(repo, builder, tasks, header, atoms, total);
      if header == Zeros(512) {
        atoms := atoms + BytesOf(header);
        continue;
      }
      var size := tar.entrySize(header);
      if size.None? {
        return None;
      }
      WroteParts(tar, repo, atoms, header, size.value, source.rest);
      good := PushEntry(tar, repo, source, builder, tasks, header, size.value, atoms, total + 512);
      if !good {
        return None;
      }
      atoms := Wrote(tar, repo, atoms, header, size.value, rest[512..][..Up512(size.value)]);
    }
    FinishBuilding(repo, builder, tasks, atoms, |input|);
    ghost var c := Finished(repo, contentType, builder.namedRefs, builder.streamRefs.items, tasks.received,
                            builder.entries);
    var done := builder.Finish(tasks);
    StreamOfIs(repo, done, c, atoms, contentType, |input|);
    file := Some(done);
  }

  lemma StartBuilding(repo: Repo, builder: SplitStreamBuilder, tasks: Tasks)
    requires builder.Valid() && builder.repo == repo && tasks.Valid() && tasks.repo == repo
    requires builder.entries == [] && builder.namedRefs == [] && builder.streamRefs.items == []
    ensures Building(repo, builder, tasks, [], 0)
  {
  }

  lemma WroteParts(tar: TarFormat, repo: Repo, atoms: seq<Atom>, header: bytes, size: nat, after: bytes)
    ensures size <= Up512(size)
    ensures Up512(size) <= |after| ==>
      var buffer, n := after[..Up512(size)], Up512(size) - size;
      var w := Wrote(tar, repo, atoms, header, size, buffer);
      && |w| <= |atoms| + |header| + Up512(size)
      && (if tar.regular(header) && size > INLINE_CONTENT_MAX then
            var start := atoms + BytesOf(header) + [Object(repo.idOf(after[..size]))];
            && w == start + BytesOf(after[size..][..n]) && (n == 0 ==> w == start)
            && after[size..][n..] == after[Up512(size)..]
          else w == atoms + BytesOf(header) + BytesOf(buffer))
  {
    hide BytesOf;
    if Up512(size) <= |after| {
      var buffer, n := after[..Up512(size)], Up512(size) - size;
      assert buffer[..size] == after[..size] && buffer[size..] == after[size..][..n];
      if n == 0 {
        NoBytes();
        assert buffer[size..] == [];
      }
    }
  }

  lemma NoBytes()
    ensures BytesOf([]) == []
  {
  }

  lemma FinishBuilding(repo: Repo, builder: SplitStreamBuilder, tasks: Tasks, atoms: seq<Atom>, total: nat)
    requires Building(repo, builder, tasks, atoms, total)
    ensures builder.Valid() && tasks.Valid() && tasks.repo == builder.repo == repo
    ensures AllClosed(builder.entries, tasks.closed) && HandlesBelow(builder.entries, |tasks.received|)
    ensures IndexesBelow(builder.namedRefs, |builder.streamRefs.items|)
    ensures
      var c := Finished(repo, builder.contentType, builder.namedRefs, builder.streamRefs.items,
                        tasks.received, builder.entries);
      c == Plain(atoms, builder.contentType, total) && c.atoms == atoms
  {
    FinishedPlain(repo, builder.contentType, tasks.received, builder.entries);
  }

  lemma StreamOfIs(repo: Repo, file: bytes, c: Draft, atoms: seq<Atom>, contentType: nat, size: nat)
    requires c == Plain(atoms, contentType, size)
    requires Known(Chunked(c.atoms).Flushed(), c.objects) && file == StreamFile(repo, c)
    ensures IsStreamOf(repo, file, atoms, contentType, size)
  {
  }

  // ---- reading an archive back ----

  /** One header and what follows it. */
  datatype Record = Record(header: bytes, body: Got)

  /** The reads of `get_entry`, called again and again until it says that there is no more. */
  function RecordsRaw(tar: TarFormat, s: Raw, refs: seq<Id>): Option<seq<Record>>
    decreases |s.data|
  {
    var h := InlineExact(s, refs, 512);
    match h.got
    case End => Some([])
    case GotBytes(header) =>
      if header == Zeros(512) then Some([])
      else
        (match tar.entrySize(header)
         case None => None
         case Some(size) =>
           var b := Exact(h.raw, refs, size, Up512(size));
           if b.got.Error? || b.got.End? then None
           else
             ReadsShrink(s, refs, 512);
             ExactShrinks(h.raw, refs, size, Up512(size));
             match RecordsRaw(tar, b.raw, refs)
             case None => None
             case Some(rest) => Some([Record(header, b.got)] + rest))
    case _ => None
  }

  lemma ReadsShrink(s: Raw, refs: seq<Id>, n: nat)
    ensures InlineExact(s, refs, n).got.GotBytes? ==> |InlineExact(s, refs, n).raw.data| + n <= |s.data|
  {
  }

  lemma ExactShrinks(s: Raw, refs: seq<Id>, actual: nat, stored: nat)
    requires actual <= stored
    ensures |Exact(s, refs, actual, stored).raw.data| <= |s.data|
  {
  }

  method ReadRecords(tar: TarFormat, reader: SplitStreamReader) returns (r: Option<seq<Record>>)
    modifies reader
    ensures r == RecordsRaw(tar, old(reader.State()), reader.objectRefs)
  {
    hide InlineExact, Exact, Up512, Zeros;
    var records: seq<Record> := [];
    ghost var all := RecordsRaw(tar, reader.State(), reader.objectRefs);
    AfterNone(all);
    while true
      invariant all == AfterRecords(records, RecordsRaw(tar, reader.State(), reader.objectRefs))
      decreases |reader.data|
    {
      ghost var before := reader.State();
      ReadsShrink(before, reader.objectRefs, 512);
      var h := reader.ReadInlineExact(512);
      match h {
        case End =>
          assert records + [] == records;
          return Some(records);
        case GotBytes(header) =>
          if header == Zeros(512) {
            assert records + [] == records;
            return Some(records);
          }
          var size := tar.entrySize(header);
          if size.None? {
            return None;
          }
          SizeFits(size.value);
          ExactShrinks(reader.State(), reader.objectRefs, size.value, Up512(size.value));
          var b := reader.ReadExact(size.value, Up512(size.value));
          if b.Error? || b.End? {
            return None;
          }
          AfterMore(records, Record(header, b), RecordsRaw(tar, reader.State(), reader.objectRefs));
          records := records + [Record(header, b)];
        case _ =>
          return None;
      }
    }
  }

  function AfterRecords(a: seq<Record>, b: Option<seq<Record>>): Option<seq<Record>> {
    match b
    case None => None
    case Some(r) => Some(a + r)
  }

  lemma AfterNone(b: Option<seq<Record>>)
    ensures AfterRecords([], b) == b
  {
    if b.Some? {
      assert [] + b.value == b.value;
    }
  }

  lemma AfterIs(a: seq<Record>, b: Option<seq<Record>>)
    ensures AfterRecords(a, b).Some? <==> b.Some?
    ensures AfterRecords(a, None) == None
  {
  }

  lemma AfterMore(a: seq<Record>, x: Record, b: Option<seq<Record>>)
    ensures b.Some? ==> AfterRecords(a, Some([x] + b.value)) == AfterRecords(a + [x], b)
  {
    if b.Some? {
      assert a + ([x] + b.value) == a + [x] + b.value;
    }
  }

  lemma SizeFits(size: nat)
    ensures size <= Up512(size)
  {
  }

  /** The records of the archive itself, up to its first block of zeros or its end. */
  function DirectRecords(tar: TarFormat, repo: Repo, input: bytes): Option<seq<Record>>
    decreases |input|
  {
    PieceFits(tar, input);
    var p := FirstPiece(tar, input);
    match p
    case EndOfArchive => Some([])
    case Bad => None
    case ZeroBlock => Some([])
    case Entry(header, size, body) =>
      match DirectRecords(tar, repo, input[PieceSize(p)..])
      case None => None
      case Some(rest) =>
        Some([Record(header, if IsExternal(tar, p) then GotObject(repo.idOf(body[..size]))
                             else GotBytes(body[..size]))] + rest)
  }

  /** There is no block of zeros and the last entry has no body. */
  predicate EndsBare(tar: TarFormat, input: bytes)
    decreases |input|
  {
    PieceFits(tar, input);
    var p := FirstPiece(tar, input);
    && p.Entry?
    && var rest := input[PieceSize(p)..];
    if rest == [] then p.size == 0 else EndsBare(tar, rest)
  }

  // ---- reads of a written stream ----

  lemma BytesFirst(b: bytes, rest: seq<Atom>)
    ensures forall i :: 0 <= i < |b| ==> (BytesOf(b) + rest)[i] == Byte(b[i])
  {
  }

  lemma ObjectFollows(c: Cursor)
    requires Normal(c) && c.pending != []
    ensures |c.Atoms()| > |c.pending| ==> c.Atoms()[|c.pending|].Object?
  {
    if c.chunks != [] {
      AtomsOfFirst(c.chunks);
    }
  }

  /** Atoms that follow the current inline chunk do not start with a byte. */
  lemma PendingTakes(c: Cursor, b: bytes, rest: seq<Atom>)
    requires Normal(c) && c.pending != [] && c.Atoms() == BytesOf(b) + rest
    ensures |b| <= |c.pending| && c.pending[..|b|] == b
    ensures
      var d := Cursor(c.pending[|b|..], c.chunks);
      d.Atoms() == rest && Normal(d)
  {
    var atoms := c.Atoms();
    ObjectFollows(c);
    BytesFirst(b, rest);
    BytesFirst(c.pending, AtomsOf(c.chunks));
    assert |b| <= |c.pending|;
    forall i | 0 <= i < |b|
      ensures c.pending[i] == b[i]
    {
      assert atoms[i] == Byte(c.pending[i]) && atoms[i] == Byte(b[i]);
    }
    assert BytesOf(c.pending)[|b|..] == BytesOf(c.pending[|b|..]);
    assert atoms[|b|..] == rest;
  }

  /** Whatever chunk the next byte is in, `ensure_chunk` finds it inline, with the whole run. */
  lemma RunFound(s: Raw, refs: seq<Id>, c: Cursor, eofOk: bool, extOk: bool, b: bytes, rest: seq<Atom>)
    returns (d: Cursor)
    requires At(s, refs, c) && c.Atoms() == BytesOf(b) + rest
    requires b != [] || (rest != [] && rest[0].Byte?)
    ensures
      var l := NextChunk(s, refs, eofOk, extOk, |b|);
      l.found == InlineFound && At(l.raw, refs, d)
    ensures d.pending != [] && d.Atoms() == c.Atoms()
  {
    hide NextChunk, Encode;
    var atoms := c.Atoms();
    assert atoms[0].Byte? by {
      if b != [] {
        assert atoms[0] == Byte(b[0]);
      } else {
        assert atoms[0] == rest[0];
      }
    }
    if c.pending == [] {
      assert atoms == AtomsOf(c.chunks);
      AtomsOfFirst(c.chunks);
      assert c.chunks[0].Inline?;
      d := Cursor(c.chunks[0].data, c.chunks[1..]);
      NextAt(s, refs, c, eofOk, extOk, |b|);
      assert d.Atoms() == atoms;
      PendingTakes(d, b, rest);
    } else {
      d := c;
      PendingTakes(d, b, rest);
      PendingFound(s, refs, eofOk, extOk, |b|);
    }
  }

  lemma TakeRun(s: Raw, refs: seq<Id>, d: Cursor, b: bytes, rest: seq<Atom>) returns (e: Cursor)
    requires At(s, refs, d) && d.pending != [] && d.Atoms() == BytesOf(b) + rest
    ensures
      var t := Take(s, |b|);
      t.Some? && At(t.value, refs, e) && s.data[..|b|] == b
    ensures e.Atoms() == rest
  {
    hide Encode;
    PendingTakes(d, b, rest);
    e := Cursor(d.pending[|b|..], d.chunks);
    assert s.data[..|b|] == d.pending[..|b|];
    assert s.data[|b|..] == d.pending[|b|..] + Encode(d.chunks, refs);
  }

  lemma InlineRead(s: Raw, refs: seq<Id>, c: Cursor, b: bytes, rest: seq<Atom>) returns (e: Cursor)
    requires At(s, refs, c) && c.Atoms() == BytesOf(b) + rest && b != []
    ensures
      var r := InlineExact(s, refs, |b|);
      r.got == GotBytes(b) && At(r.raw, refs, e)
    ensures e.Atoms() == rest
  {
    hide NextChunk, At, Take;
    var d := RunFound(s, refs, c, true, false, b, rest);
    e := TakeRun(NextChunk(s, refs, true, false, |b|).raw, refs, d, b, rest);
  }

  lemma BodyRead(s: Raw, refs: seq<Id>, c: Cursor, actual: nat, b: bytes, rest: seq<Atom>) returns (e: Cursor)
    requires At(s, refs, c) && c.Atoms() == BytesOf(b) + rest && actual <= |b|
    requires b != [] || (rest != [] && rest[0].Byte?)
    ensures
      var r := Exact(s, refs, actual, |b|);
      r.got == GotBytes(b[..actual]) && At(r.raw, refs, e)
    ensures e.Atoms() == rest
  {
    hide NextChunk, At, Take;
    var d := RunFound(s, refs, c, false, true, b, rest);
    e := TakeRun(NextChunk(s, refs, false, true, |b|).raw, refs, d, b, rest);
  }

  lemma ObjectRead(s: Raw, refs: seq<Id>, c: Cursor, id: Id, actual: nat, padding: bytes, rest: seq<Atom>)
    returns (e: Cursor)
    requires At(s, refs, c) && Normal(c) && |padding| <= 512
    requires c.Atoms() == [Object(id)] + (BytesOf(padding) + rest)
    ensures
      var r := Exact(s, refs, actual, actual + |padding|);
      r.got == GotObject(id) && At(r.raw, refs, e)
    ensures e.Atoms() == rest
  {
    hide *;
    ObjectHead(c, id, BytesOf(padding) + rest);
    var atoms := [Object(id)] + (BytesOf(padding) + rest);
    assert c.Atoms() == atoms;
    var d := Cursor([], c.chunks[1..]);
    AtObject(s, refs, c, id, actual + |padding|);
    ExactObject(s, refs, actual, |padding|);
    e := d;
    if padding == [] {
      NoBytes();
      assert BytesOf(padding) + rest == rest;
    } else {
      var raw := NextChunk(s, refs, false, true, actual + |padding|).raw;
      var f := RunFound(raw, refs, d, false, false, padding, rest);
      e := TakeRun(NextChunk(raw, refs, false, false, |padding|).raw, refs, f, padding, rest);
    }
  }

  lemma ObjectHead(c: Cursor, id: Id, rest: seq<Atom>)
    requires Normal(c) && c.Atoms() == [Object(id)] + rest
    ensures c.pending == [] && c.chunks != [] && c.chunks[0] == External(id)
    ensures Cursor([], c.chunks[1..]).Atoms() == rest
  {
    BytesFirst(c.pending, AtomsOf(c.chunks));
    assert c.Atoms()[0] == Object(id);
    assert c.pending == [];
    assert c.Atoms() == AtomsOf(c.chunks);
    FirstIsObject(c, id);
    AtomsOfFirst(c.chunks);
    assert Cursor([], c.chunks[1..]).Atoms() == AtomsOf(c.chunks[1..]) == c.Atoms()[1..];
  }

  lemma AtObject(s: Raw, refs: seq<Id>, c: Cursor, id: Id, expected: nat)
    requires At(s, refs, c) && c.pending == [] && c.chunks != [] && c.chunks[0] == External(id)
    ensures
      var l := NextChunk(s, refs, false, true, expected);
      l.found == ExternalFound(id) && At(l.raw, refs, Cursor([], c.chunks[1..]))
    ensures Normal(c)
  {
    hide Encode;
    NextAt(s, refs, c, false, true, expected);
  }

  lemma ExactObject(s: Raw, refs: seq<Id>, actual: nat, padding: nat)
    requires padding <= 512 && NextChunk(s, refs, false, true, actual + padding).found.ExternalFound?
    ensures
      var l, r := NextChunk(s, refs, false, true, actual + padding), Exact(s, refs, actual, actual + padding);
      && (padding == 0 ==> r == Read(GotObject(l.found.id), l.raw))
      && (padding > 0 ==>
            var p := NextChunk(l.raw, refs, false, false, padding);
            var t := Take(p.raw, padding);
            p.found == InlineFound && t.Some? ==> r == Read(GotObject(l.found.id), t.value))
  {
    hide NextChunk, Take;
  }

  lemma FirstIsObject(c: Cursor, id: Id)
    requires Normal(c) && c.chunks != [] && AtomsOf(c.chunks) != [] && AtomsOf(c.chunks)[0] == Object(id)
    ensures c.chunks[0] == External(id)
  {
    match c.chunks[0]
    case Inline(data) => BytesFirst(data, AtomsOf(c.chunks[1..]));
    case External(_) =>
  }

  // ---- the theorem ----

  /** An archive that goes on starts with a header, that is with a byte. */
  lemma StartsWithByte(tar: TarFormat, repo: Repo, input: bytes)
    requires SplitAtoms(tar, repo, input).Some?
    ensures
      var atoms := SplitAtoms(tar, repo, input).value;
      if input == [] then atoms == [] else atoms != [] && atoms[0].Byte?
  {
    hide Up512;
    PieceFits(tar, input);
  }

  /** Reading the headers and bodies back from the stream of an archive gives the records of a
      direct parse of the archive, up to its first block of zeros or its end, except when the
      archive has no such block and its last entry no body: the reader looks for a chunk even
      for no bytes, and fails. */
  lemma {:induction false} RecordsRoundTrip(tar: TarFormat, repo: Repo, input: bytes, s: Raw,
                                            refs: seq<Id>, c: Cursor)
    requires SplitAtoms(tar, repo, input).Some?
    requires At(s, refs, c) && c.Atoms() == SplitAtoms(tar, repo, input).value
    ensures DirectRecords(tar, repo, input).Some?
    ensures RecordsRaw(tar, s, refs) == if EndsBare(tar, input) then None else DirectRecords(tar, repo, input)
    decreases |input|
  {
    hide *;
    PieceFits(tar, input);
    PieceSteps(tar, repo, input);
    var p := FirstPiece(tar, input);
    match p
    case ZeroBlock =>
      NotEmpty512();
      var e := InlineRead(s, refs, c, Zeros(512), SplitAtoms(tar, repo, input[512..]).value);
      RawStop(tar, s, refs);
    case EndOfArchive =>
      EndRead(s, refs, c, 512, 0);
      RawEnd(tar, s, refs);
    case Entry(header, size, body) =>
      var rest := input[PieceSize(p)..];
      var atoms := SplitAtoms(tar, repo, rest).value;
      var bodyAtoms := BodyAtoms(tar, repo, p);
      assert c.Atoms() == BytesOf(header) + (bodyAtoms + atoms);
      var d := InlineRead(s, refs, c, header, bodyAtoms + atoms);
      var raw := InlineExact(s, refs, 512).raw;
      StartsWithByte(tar, repo, rest);
      SizeFits(size);
      if rest == [] && size == 0 {
        NoBody(tar, repo, p, atoms);
        NothingFirst(tar);
        PieceSteps(tar, repo, rest);
        EndRead(raw, refs, d, 512, Up512(size));
        RawFails(tar, s, refs, header, size);
      } else {
        var e := EntryRead(tar, repo, p, raw, refs, d, atoms);
        RecordsRoundTrip(tar, repo, rest, Exact(raw, refs, size, Up512(size)).raw, refs, e);
        RawStep(tar, s, refs, header, size);
        AfterIs([Record(header, Exact(raw, refs, size, Up512(size)).got)], DirectRecords(tar, repo, rest));
      }
    case _ =>
  }

  /** What the first piece means for the stream and for the records. */
  lemma PieceSteps(tar: TarFormat, repo: Repo, input: bytes)
    requires SplitAtoms(tar, repo, input).Some?
    ensures
      var p := FirstPiece(tar, input);
      match p
      case ZeroBlock =>
        && |input| >= 512 && SplitAtoms(tar, repo, input[512..]).Some?
        && SplitAtoms(tar, repo, input).value
           == BytesOf(Zeros(512)) + SplitAtoms(tar, repo, input[512..]).value
        && DirectRecords(tar, repo, input) == Some([]) && !EndsBare(tar, input)
      case EndOfArchive =>
        && SplitAtoms(tar, repo, input) == Some([])
        && DirectRecords(tar, repo, input) == Some([]) && !EndsBare(tar, input)
      case Entry(header, size, body) =>
        && 512 <= PieceSize(p) <= |input| && size <= |body| == Up512(size) && |header| == 512
        && var rest := input[PieceSize(p)..];
        && SplitAtoms(tar, repo, rest).Some?
        && SplitAtoms(tar, repo, input).value
           == BytesOf(header) + BodyAtoms(tar, repo, p) + SplitAtoms(tar, repo, rest).value
        && DirectRecords(tar, repo, input)
           == AfterRecords([Record(header, if IsExternal(tar, p) then GotObject(repo.idOf(body[..size]))
                                           else GotBytes(body[..size]))],
                           DirectRecords(tar, repo, rest))
        && (DirectRecords(tar, repo, input).Some? <==> DirectRecords(tar, repo, rest).Some?)
        && (EndsBare(tar, input) <==> if rest == [] then size == 0 else EndsBare(tar, rest))
        && !EndsBare(tar, [])
      case _ => false
  {
    hide BytesOf, Zeros, Up512, FirstPiece, BodyAtoms;
    PieceFits(tar, input);
    NothingFirst(tar);
  }

  lemma NothingFirst(tar: TarFormat)
    ensures FirstPiece(tar, []) == EndOfArchive
  {
  }

  lemma NoBody(tar: TarFormat, repo: Repo, p: Piece, rest: seq<Atom>)
    requires p.Entry? && p.size == 0 && |p.body| == Up512(0) && rest == []
    ensures BodyAtoms(tar, repo, p) + rest == []
  {
    assert p.body == [];
    NoBytes();
  }

  /** At the end there is no header, and no body. */
  lemma EndRead(s: Raw, refs: seq<Id>, c: Cursor, n: nat, stored: nat)
    requires At(s, refs, c) && c.Atoms() == []
    ensures InlineExact(s, refs, n).got.End?
    ensures Exact(s, refs, 0, stored).got.Error?
  {
    hide NextChunk, Encode;
    NothingLeftOver(c);
    NextAt(s, refs, c, true, false, n);
    NextAt(s, refs, c, false, true, stored);
  }

  lemma NothingLeftOver(c: Cursor)
    requires Normal(c) && c.Atoms() == []
    ensures c.pending == [] && c.chunks == []
  {
    assert |BytesOf(c.pending)| == 0;
    if c.chunks != [] {
      AtomsOfFirst(c.chunks);
    }
  }

  lemma RawEnd(tar: TarFormat, s: Raw, refs: seq<Id>)
    requires InlineExact(s, refs, 512).got.End?
    ensures RecordsRaw(tar, s, refs) == Some([])
  {
    hide InlineExact, Zeros;
  }

  lemma RawFails(tar: TarFormat, s: Raw, refs: seq<Id>, header: bytes, size: nat)
    requires size <= Up512(size)
    requires InlineExact(s, refs, 512).got == GotBytes(header) && header != Zeros(512)
    requires tar.entrySize(header) == Some(size)
    requires Exact(InlineExact(s, refs, 512).raw, refs, size, Up512(size)).got.Error?
    ensures RecordsRaw(tar, s, refs) == None
  {
    hide InlineExact, Exact, Zeros, Up512;
  }

  lemma RawStop(tar: TarFormat, s: Raw, refs: seq<Id>)
    requires InlineExact(s, refs, 512).got == GotBytes(Zeros(512))
    ensures RecordsRaw(tar, s, refs) == Some([])
  {
    hide InlineExact, Zeros;
  }

  lemma RawStep(tar: TarFormat, s: Raw, refs: seq<Id>, header: bytes, size: nat)
    requires size <= Up512(size)
    requires InlineExact(s, refs, 512).got == GotBytes(header) && header != Zeros(512)
    requires tar.entrySize(header) == Some(size)
    requires
      var b := Exact(InlineExact(s, refs, 512).raw, refs, size, Up512(size));
      !b.got.Error? && !b.got.End?
    ensures
      var b := Exact(InlineExact(s, refs, 512).raw, refs, size, Up512(size));
      RecordsRaw(tar, s, refs) == AfterRecords([Record(header, b.got)], RecordsRaw(tar, b.raw, refs))
  {
    hide InlineExact, Exact, Zeros, Up512;
  }

  lemma NotEmpty512()
    ensures Zeros(512) != []
  {
  }

  function BodyAtoms(tar: TarFormat, repo: Repo, p: Piece): (r: seq<Atom>)
    requires p.Entry? && p.size <= |p.body|
    ensures PieceAtoms(tar, repo, p) == BytesOf(p.header) + r
  {
    if IsExternal(tar, p) then
      [Object(repo.idOf(p.body[..p.size]))] + BytesOf(p.body[p.size..])
    else BytesOf(p.body)
  }

  lemma EntryRead(tar: TarFormat, repo: Repo, p: Piece, s: Raw, refs: seq<Id>, c: Cursor, rest: seq<Atom>)
    returns (e: Cursor)
    requires p.Entry? && p.size <= |p.body| == Up512(p.size)
    requires At(s, refs, c) && c.Atoms() == BodyAtoms(tar, repo, p) + rest
    requires p.size > 0 || (rest != [] && rest[0].Byte?)
    ensures
      var r := Exact(s, refs, p.size, Up512(p.size));
      && At(r.raw, refs, e)
      && r.got == (if IsExternal(tar, p) then GotObject(repo.idOf(p.body[..p.size]))
                   else GotBytes(p.body[..p.size]))
    ensures e.Atoms() == rest
  {
    hide Exact, BytesOf, Up512;
    if IsExternal(tar, p) {
      var head, padding := Object(repo.idOf(p.body[..p.size])), p.body[p.size..];
      assert [head] + BytesOf(padding) + rest == [head] + (BytesOf(padding) + rest);
      e := ObjectRead(s, refs, c, repo.idOf(p.body[..p.size]), p.size, p.body[p.size..], rest);
    } else {
      e := BodyRead(s, refs, c, p.size, p.body, rest);
    }
  }

  ghost predicate FitsArchive(tar: TarFormat, repo: Repo, input: bytes, contentType: nat)
    requires SplitAtoms(tar, repo, input).Some?
  {
    var c := Plain(SplitAtoms(tar, repo, input).value, contentType, |input|);
    Known(Chunked(c.atoms).Flushed(), c.objects) ==> FitsFile(repo, c)
  }

  /** The draft of a split archive can be written. */
  lemma {:induction false} PlainGood(repo: Repo, atoms: seq<Atom>, contentType: nat, size: nat)
    requires repo.Good()
    requires forall i :: 0 <= i < |atoms| && atoms[i].Object? ==> |atoms[i].id| == repo.idSize
    ensures GoodContents(repo, Plain(atoms, contentType, size))
    decreases |atoms|
  {
    hide WithReference, WithInline, Chunked, GoodContents, Plain, repo.Good;
    if atoms == [] {
      EmptyGood(repo, contentType, size);
    } else {
      var n := |atoms| - 1;
      PlainGood(repo, atoms[..n], contentType, size);
      assert atoms == atoms[..n] + [atoms[n]];
      match atoms[n]
      case Byte(b) =>
        InlineAdded(repo, Plain(atoms[..n], contentType, size), [b]);
        PlainInline(atoms[..n], contentType, size, [b]);
        assert BytesOf([b]) == [Byte(b)];
        PlainAnySize(repo, atoms, contentType, size + 1, size);
      case Object(id) =>
        ReferenceAdded(repo, Plain(atoms[..n], contentType, size), id);
        PlainReference(atoms[..n], contentType, size, id);
    }
  }

  lemma PlainAnySize(repo: Repo, atoms: seq<Atom>, contentType: nat, a: nat, b: nat)
    requires GoodContents(repo, Plain(atoms, contentType, a))
    ensures GoodContents(repo, Plain(atoms, contentType, b))
  {
    hide Chunked, ObjectsIn;
  }

  lemma EmptyGood(repo: Repo, contentType: nat, size: nat)
    requires repo.Good()
    ensures GoodContents(repo, Plain([], contentType, size))
  {
    hide Chunked;
    NothingChunked();
  }

  lemma NothingChunked()
    ensures Chunked([]).Flushed() == []
  {
  }

  lemma {:induction false} SplitIdsFit(tar: TarFormat, repo: Repo, input: bytes)
    requires repo.Good() && SplitAtoms(tar, repo, input).Some?
    ensures
      var atoms := SplitAtoms(tar, repo, input).value;
      forall i :: 0 <= i < |atoms| && atoms[i].Object? ==> |atoms[i].id| == repo.idSize
    decreases |input|
  {
    hide Up512, FirstPiece, BytesOf;
    PieceFits(tar, input);
    var p := FirstPiece(tar, input);
    if p.ZeroBlock? || p.Entry? {
      SplitIdsFit(tar, repo, input[PieceSize(p)..]);
      PieceIds(tar, repo, p);
    }
  }

  lemma PieceIds(tar: TarFormat, repo: Repo, p: Piece)
    requires repo.Good() && (p.Entry? ==> p.size <= |p.body|)
    ensures
      var atoms := PieceAtoms(tar, repo, p);
      forall i :: 0 <= i < |atoms| && atoms[i].Object? ==> |atoms[i].id| == repo.idSize
  {
  }

  /** An accepted archive, split, written, opened and read: `cat` gives the archive back, the
      recorded size is its length, and the records are those of the archive, unless it ends in
      an entry without a body. */
  lemma ArchiveRoundTrip(tar: TarFormat, repo: Repo, input: bytes, contentType: nat, file: bytes)
    requires repo.Good() && SplitAtoms(tar, repo, input).Some? && KeepsBodies(tar, repo, input)
    requires FitsArchive(tar, repo, input, contentType)
    requires IsStreamOf(repo, file, SplitAtoms(tar, repo, input).value, contentType, |input|)
    ensures
      var r := Open(repo, file, Some(contentType));
      && r.Some? && r.value.totalSize == |input|
      && CatRaw(repo, Raw(r.value.data, 0), r.value.objectRefs) == Some(input)
      && RecordsRaw(tar, Raw(r.value.data, 0), r.value.objectRefs)
         == (if EndsBare(tar, input) then None else DirectRecords(tar, repo, input))
  {
    hide Open, CatRaw, RecordsRaw, DirectRecords, SplitAtoms, Chunked, Encode, StreamFile, Merge,
      KeepsBodies, GoodContents, FitsFile, ObjectsIn;
    var atoms := SplitAtoms(tar, repo, input).value;
    var c := Plain(atoms, contentType, |input|);
    SplitIdsFit(tar, repo, input);
    PlainGood(repo, atoms, contentType, |input|);
    OpenRoundTrip(repo, c, Some(contentType));
    SizesFit(repo, c);
    OpenedAt(c);
    var raw, cursor := Raw(Encode(Chunked(c.atoms).Flushed(), c.objects), 0),
      Cursor([], Chunked(c.atoms).Flushed());
    CatAt(repo, raw, c.objects, cursor);
    SplitMerges(tar, repo, input);
    RecordsRoundTrip(tar, repo, input, raw, c.objects, cursor);
  }

  lemma SizesFit(repo: Repo, c: Draft)
    requires Known(Chunked(c.atoms).Flushed(), c.objects) && FitsFile(repo, c)
    ensures |c.atoms| < 0x8000_0000_0000_0000 && |c.objects| < 0x8000_0000_0000_0000
  {
  }

  /** The asynchronous producer refines the synchronous one. */
  method ProducersAgree(tar: TarFormat, input: bytes, interruptions: nat, repo: Repo, contentType: nat)
    returns (a: Option<bytes>, b: Option<bytes>)
    requires repo.Good() && |input| + 512 < 0x8000_0000_0000_0000
    ensures a == b
  {
    a := SplitToFile(tar, input, interruptions, repo, contentType);
    var source := new Source(input, interruptions);
    b := SplitAsync(tar, source, repo, contentType);
  }
}
