/** Reading splitstreams back (splitstream.rs).  `None` and `Failed` stand for errors. */
module SplitstreamReader {
  import opened Bytes
  import opened Numbers
  import opened Splitstream

  // ---- the file ----

  function ReadRange(file: bytes, start: nat, end: nat): Option<bytes> {
    if end < start then None
    else if start == end then Some([])
    else if end <= |file| then Some(file[start..end])
    else None
  }

  function U64(b: bytes, at: nat): nat
    requires at + 8 <= |b|
  {
    FromLE(b[at..at + 8])
  }

  /** The range whose two ends are stored at `at`. */
  function RangeAt(file: bytes, b: bytes, at: nat): Option<bytes>
    requires at + 16 <= |b|
  {
    ReadRange(file, U64(b, at), U64(b, at + 8))
  }

  /** An array of ids; its size must be a whole number of them. */
  function SplitIds(b: bytes, size: nat): Option<seq<Id>>
    requires size > 0
    decreases |b|
  {
    if b == [] then Some([])
    else if |b| < size then None
    else
      match SplitIds(b[size..], size)
      case None => None
      case Some(ids) => Some([b[..size]] + ids)
  }

  function ParseUsize(s: bytes): Option<nat> {
    ParseNumber(s, 10, 0x1_0000_0000_0000_0000)
  }

  function ParseNamedRef(item: bytes, refs: seq<Id>): Option<(bytes, Id)> {
    var colon := FirstOf(item, 58);
    if colon == |item| then None
    else
      match ParseUsize(item[..colon])
      case None => None
      case Some(idx) => if idx < |refs| then Some((item[colon + 1..], refs[idx])) else None
  }

  function ParseNamed(section: bytes, refs: seq<Id>, m: map<bytes, Id>): Option<map<bytes, Id>>
    decreases |section|
  {
    var end := FirstOf(section, 0);
    if end == |section| then if section == [] then Some(m) else None
    else
      match ParseNamedRef(section[..end], refs)
      case None => None
      case Some(e) => ParseNamed(section[end + 1..], refs, m[e.0 := e.1])
  }

  /** `read_named_references`: up to each NUL, until nothing is left. */
  method ReadNamedReferences(section: bytes, refs: seq<Id>) returns (r: Option<map<bytes, Id>>)
    ensures r == ParseNamed(section, refs, map[])
  {
    var m: map<bytes, Id> := map[];
    var rest := section;
    while true
      invariant ParseNamed(rest, refs, m) == ParseNamed(section, refs, map[])
      decreases |rest|
    {
      var end := FirstOf(rest, 0);
      if end == |rest| {
        return if rest == [] then Some(m) else None;
      }
      var e := ParseNamedRef(rest[..end], refs);
      if e.None? {
        return None;
      }
      m := m[e.value.0 := e.value.1];
      rest := rest[end + 1..];
    }
  }

  datatype Opened =
    Opened(data: bytes, contentType: nat, totalSize: nat, objectRefs: seq<Id>, namedRefs: map<bytes, Id>)

  /** `SplitStreamReader::new`: header, info section, then each section by its range. */
  function Open(repo: Repo, file: bytes, expected: Option<nat>): Option<Opened>
    requires repo.idSize > 0
  {
    if |file| < 32 || file[..11] != MAGIC || file[11] != 0 || file[14] != repo.algorithm
      || file[15] != LG_BLOCKSIZE then None
    else
      match RangeAt(file, file, 16)
      case None => None
      case Some(info) =>
        if |info| < 80 then None
        else if expected.Some? && U64(info, 64) != expected.value then None
        else OpenSections(repo, file, info)
  }

  function OpenSections(repo: Repo, file: bytes, info: bytes): Option<Opened>
    requires repo.idSize > 0 && |info| >= 80
  {
    match (IdsAt(repo, file, info, 0), IdsAt(repo, file, info, 16),
           Unpacked(repo, RangeAt(file, info, 48)), Unpacked(repo, RangeAt(file, info, 32)))
    case (Some(streams), Some(objects), Some(named), Some(stream)) =>
      (match ParseNamed(named, streams, map[])
       case None => None
       case Some(m) => Some(Opened(stream, U64(info, 64), U64(info, 72), objects, m)))
    case _ => None
  }

  function IdsAt(repo: Repo, file: bytes, info: bytes, at: nat): Option<seq<Id>>
    requires repo.idSize > 0 && at + 16 <= |info|
  {
    match RangeAt(file, info, at)
    case None => None
    case Some(b) => SplitIds(b, repo.idSize)
  }

  function Unpacked(repo: Repo, section: Option<bytes>): Option<bytes> {
    match section
    case None => None
    case Some(b) => repo.decompress(b)
  }

  // ---- opening what was written ----

  lemma {:induction false} SplitIdsRoundTrip(ids: seq<Id>, size: nat)
    requires size > 0 && forall i :: 0 <= i < |ids| ==> |ids[i]| == size
    ensures SplitIds(Flat(ids), size) == Some(ids)
  {
    if ids != [] {
      SplitIdsRoundTrip(ids[1..], size);
      var b := Flat(ids);
      assert b[..size] == ids[0] && b[size..] == Flat(ids[1..]);
      assert ids == [ids[0]] + ids[1..];
    }
  }

  lemma ParseDecimal(n: nat)
    requires n < 0x1_0000_0000_0000_0000
    ensures ParseUsize(Decimal(n)) == Some(n) && AllDigits(Decimal(n), 10)
  {
    ParsePrinted(n, 10, 0x1_0000_0000_0000_0000);
  }

  /** The map a reader gets from the entries of a writer. */
  function NamedMap(named: seq<NamedIndex>, refs: seq<Id>, m: map<bytes, Id>): map<bytes, Id>
    requires IndexesBelow(named, |refs|)
  {
    if named == [] then m
    else NamedMap(named[1..], refs, m[named[0].name := refs[named[0].index]])
  }

  ghost predicate NulFree(named: seq<NamedIndex>) {
    forall i, j :: 0 <= i < |named| && 0 <= j < |named[i].name| ==> named[i].name[j] != 0
  }

  /** Names may hold colons: the index before the first one has none. */
  lemma NamedRefRoundTrip(e: NamedIndex, refs: seq<Id>)
    requires e.index < |refs| < 0x1_0000_0000_0000_0000
    ensures ParseNamedRef(Decimal(e.index) + [58] + e.name, refs) == Some((e.name, refs[e.index]))
  {
    var d := Decimal(e.index);
    var item := d + [58] + e.name;
    ParseDecimal(e.index);
    FirstAfter(d, 58, e.name);
    assert item[..|d|] == d && item[|d| + 1..] == e.name;
  }

  lemma {:induction false} NamedRoundTrip(named: seq<NamedIndex>, refs: seq<Id>, m: map<bytes, Id>)
    requires IndexesBelow(named, |refs|) && |refs| < 0x1_0000_0000_0000_0000 && NulFree(named)
    ensures ParseNamed(NamedBytes(named), refs, m) == Some(NamedMap(named, refs, m))
  {
    hide ParseNamedRef, Decimal;
    if named != [] {
      var e := named[0];
      var item := Decimal(e.index) + [58] + e.name;
      var rest := NamedBytes(named[1..]);
      ParseDecimal(e.index);
      assert forall i :: 0 <= i < |item| ==> item[i] != 0;
      FirstAfter(item, 0, rest);
      NamedRefRoundTrip(e, refs);
      var section := NamedBytes(named);
      assert section == item + [0] + rest;
      assert section[..|item|] == item && section[|item| + 1..] == rest;
      NamedRoundTrip(named[1..], refs, m[e.name := refs[e.index]]);
    }
  }

  lemma SectionAt(pre: bytes, mid: bytes, post: bytes, file: bytes)
    requires file == pre + mid + post
    ensures ReadRange(file, |pre|, |pre| + |mid|) == Some(mid)
  {
    assert file[|pre|..|pre| + |mid|] == mid;
  }

  lemma RangeRoundTrip(file: bytes, b: bytes, at: nat, start: nat, end: nat)
    requires at + 16 <= |b| && b[at..at + 16] == Range(start, end)
    requires start < 0x1_0000_0000_0000_0000 && end < 0x1_0000_0000_0000_0000
    ensures RangeAt(file, b, at) == ReadRange(file, start, end)
  {
    Pow256Values();
    LERoundTrip(start, 8);
    LERoundTrip(end, 8);
    hide LE, FromLE;
    assert b[at..at + 8] == b[at..at + 16][..8] == LE(start, 8);
    assert b[at + 8..at + 8 + 8] == b[at..at + 16][8..] == LE(end, 8);
  }

  /** Every stored range selects its own section. */
  lemma SectionsFound(repo: Repo, s: Sections)
    requires s.End() < 0x1_0000_0000_0000_0000
    ensures
      var file := FileOf(repo, s);
      && |file| == s.End() && file[..32] == Header(repo) && file[32..112] == s.Info()
      && ReadRange(file, 32, 112) == Some(s.Info())
      && RangeAt(file, s.Info(), 0) == Some(s.streamRefs)
      && RangeAt(file, s.Info(), 16) == Some(s.objectRefs)
      && RangeAt(file, s.Info(), 32) == Some(s.stream)
      && RangeAt(file, s.Info(), 48) == Some(s.namedRefs)
  {
    hide LE, FromLE, Header, Range, RangeAt;
    var file := FileOf(repo, s);
    FileParts(repo, s);
    InfoParts(s);
    var a := Header(repo) + s.Info();
    SectionAt(Header(repo), s.Info(), s.streamRefs + s.objectRefs + s.namedRefs + s.stream, file);
    SectionAt(a, s.streamRefs, s.objectRefs + s.namedRefs + s.stream, file);
    SectionAt(a + s.streamRefs, s.objectRefs, s.namedRefs + s.stream, file);
    SectionAt(a + s.streamRefs + s.objectRefs, s.namedRefs, s.stream, file);
    SectionAt(a + s.streamRefs + s.objectRefs + s.namedRefs, s.stream, [], file);
    RangeRoundTrip(file, s.Info(), 0, s.StreamRefsAt(), s.ObjectRefsAt());
    RangeRoundTrip(file, s.Info(), 16, s.ObjectRefsAt(), s.NamedRefsAt());
    RangeRoundTrip(file, s.Info(), 32, s.StreamAt(), s.End());
    RangeRoundTrip(file, s.Info(), 48, s.NamedRefsAt(), s.StreamAt());
  }

  lemma FileParts(repo: Repo, s: Sections)
    ensures
      var file, a := FileOf(repo, s), Header(repo) + s.Info();
      && file == Header(repo) + s.Info() + (s.streamRefs + s.objectRefs + s.namedRefs + s.stream)
      && file == a + s.streamRefs + (s.objectRefs + s.namedRefs + s.stream)
      && file == a + s.streamRefs + s.objectRefs + (s.namedRefs + s.stream)
      && file == a + s.streamRefs + s.objectRefs + s.namedRefs + s.stream
      && file == a + s.streamRefs + s.objectRefs + s.namedRefs + s.stream + []
      && |file| == s.End() && file[..32] == Header(repo) && file[32..112] == s.Info()
  {
    hide Header, s.Info;
  }

  lemma InfoParts(s: Sections)
    ensures s.Info()[0..16] == Range(s.StreamRefsAt(), s.ObjectRefsAt())
    ensures s.Info()[16..32] == Range(s.ObjectRefsAt(), s.NamedRefsAt())
    ensures s.Info()[32..48] == Range(s.StreamAt(), s.End())
    ensures s.Info()[48..64] == Range(s.NamedRefsAt(), s.StreamAt())
    ensures s.Info()[64..72] == LE(s.contentType, 8) && s.Info()[72..80] == LE(s.totalSize, 8)
  {
    hide LE, Range;
  }

  /** What a finished stream opens as. */
  function OpenedOf(c: Draft): Opened
    requires Known(Chunked(c.atoms).Flushed(), c.objects) && IndexesBelow(c.named, |c.streams|)
  {
    Opened(Encode(Chunked(c.atoms).Flushed(), c.objects), c.contentType, c.totalSize, c.objects,
           NamedMap(c.named, c.streams, map[]))
  }

  ghost predicate FitsFile(repo: Repo, c: Draft)
    requires Known(Chunked(c.atoms).Flushed(), c.objects)
  {
    && |StreamFile(repo, c)| < 0x1_0000_0000_0000_0000 && |c.streams| < 0x1_0000_0000_0000_0000
    && c.contentType < 0x1_0000_0000_0000_0000 && c.totalSize < 0x1_0000_0000_0000_0000
    && |c.atoms| < 0x8000_0000_0000_0000 && |c.objects| < 0x8000_0000_0000_0000
  }

  lemma HeaderParts(repo: Repo)
    ensures
      var h := Header(repo);
      && h[..11] == MAGIC && h[11] == 0 && h[14] == repo.algorithm && h[15] == LG_BLOCKSIZE
      && h[16..32] == Range(32, 112)
  {
    hide LE;
  }

  /** Opening what `done` wrote finds the object references, the total size, the names and the
      chunk stream, unless another content type is expected. */
  lemma OpenRoundTrip(repo: Repo, c: Draft, expected: Option<nat>)
    requires GoodContents(repo, c) && FitsFile(repo, c) && NulFree(c.named)
    ensures Open(repo, StreamFile(repo, c), expected)
         == if expected == None || expected == Some(c.contentType) then Some(OpenedOf(c)) else None
  {
    hide Chunked, Encode, Header, LE, FromLE, RangeAt, Flat, NamedBytes, ParseNamed, FileOf, Known,
      SplitIds, NamedMap, Sections.Info, Distinct;
    var s := SectionsOf(repo, c);
    var file := StreamFile(repo, c);
    FileParts(repo, s);
    SectionsFound(repo, s);
    HeaderParts(repo);
    assert file[16..32] == file[..32][16..32];
    RangeRoundTrip(file, file, 16, 32, 112);
    SplitIdsRoundTrip(c.streams, repo.idSize);
    SplitIdsRoundTrip(c.objects, repo.idSize);
    NamedRoundTrip(c.named, c.streams, map[]);
    NumbersFound(s);
    assert file[..11] == file[..32][..11];
    Unpacks(repo, NamedBytes(c.named));
    Unpacks(repo, Encode(Chunked(c.atoms).Flushed(), c.objects));
  }

  lemma Unpacks(repo: Repo, b: bytes)
    requires repo.Good()
    ensures repo.decompress(repo.compress(b)) == Some(b)
  {
  }

  lemma NumbersFound(s: Sections)
    requires s.contentType < 0x1_0000_0000_0000_0000 && s.totalSize < 0x1_0000_0000_0000_0000
    ensures U64(s.Info(), 64) == s.contentType && U64(s.Info(), 72) == s.totalSize
  {
    hide LE, FromLE, s.Info;
    InfoParts(s);
    Pow256Values();
    LERoundTrip(s.contentType, 8);
    LERoundTrip(s.totalSize, 8);
  }

  // ---- reading the chunk stream ----

  /** The rest of the decoded stream, and how much of it belongs to the current inline chunk. */
  datatype Raw = Raw(data: bytes, inlineBytes: nat)

  datatype Found = Eof | InlineFound | ExternalFound(id: Id) | Failed

  datatype Look = Look(found: Found, raw: Raw)

  /** `ensure_chunk` */
  function NextChunk(s: Raw, refs: seq<Id>, eofOk: bool, extOk: bool, expected: nat): Look {
    if s.inlineBytes != 0 then
      Look(if s.inlineBytes < expected then Failed else InlineFound, s)
    else if s.data == [] then Look(if eofOk then Eof else Failed, s)
    else if |s.data| < 8 then Look(Failed, s)
    else
      var n, rest := FromLE(s.data[..8]), s.data[8..];
      if n >= 0x8000_0000_0000_0000 then
        var size := if n < 0x1_0000_0000_0000_0000 then 0x1_0000_0000_0000_0000 - n else 0;
        Look(if size < expected then Failed else InlineFound, Raw(rest, size))
      else if !extOk || n >= |refs| then Look(Failed, Raw(rest, 0))
      else Look(ExternalFound(refs[n]), Raw(rest, 0))
  }

  datatype Got = GotBytes(b: bytes) | GotObject(id: Id) | End | Error

  datatype Read = Read(got: Got, raw: Raw)

  function Take(s: Raw, n: nat): Option<Raw> {
    if n <= |s.data| && n <= s.inlineBytes then Some(Raw(s.data[n..], s.inlineBytes - n)) else None
  }

  function InlineExact(s: Raw, refs: seq<Id>, n: nat): Read {
    var l := NextChunk(s, refs, true, false, n);
    match l.found
    case Eof => Read(End, l.raw)
    case InlineFound =>
      (match Take(l.raw, n)
       case None => Read(Error, l.raw)
       case Some(r) => Read(GotBytes(l.raw.data[..n]), r))
    case _ => Read(Error, l.raw)
  }

  function Exact(s: Raw, refs: seq<Id>, actual: nat, stored: nat): Read
    requires actual <= stored
  {
    var l := NextChunk(s, refs, false, true, stored);
    match l.found
    case ExternalFound(id) =>
      if actual == stored then Read(GotObject(id), l.raw)
      else if stored - actual > 512 then Read(Error, l.raw)
      else
        var p := NextChunk(l.raw, refs, false, false, stored - actual);
        if !p.found.InlineFound? then Read(Error, p.raw)
        else
          (match Take(p.raw, stored - actual)
           case None => Read(Error, p.raw)
           case Some(r) => Read(GotObject(id), r))
    case InlineFound =>
      (match Take(l.raw, stored)
       case None => Read(Error, l.raw)
       case Some(r) => Read(GotBytes(l.raw.data[..stored][..actual]), r))
    case _ => Read(Error, l.raw)
  }

  /** `cat` */
  function CatRaw(repo: Repo, s: Raw, refs: seq<Id>): Option<bytes>
    decreases |s.data|, s.inlineBytes
  {
    var l := NextChunk(s, refs, true, true, 0);
    match l.found
    case Eof => Some([])
    case Failed => None
    case ExternalFound(id) =>
      (match CatRaw(repo, l.raw, refs)
       case None => None
       case Some(rest) => Some(repo.load(id) + rest))
    case InlineFound =>
      var n := l.raw.inlineBytes;
      if n > |l.raw.data| then None
      else
        match CatRaw(repo, Raw(l.raw.data[n..], 0), refs)
        case None => None
        case Some(rest) => Some(l.raw.data[..n] + rest)
  }

  class SplitStreamReader {
    const repo: Repo
    const objectRefs: seq<Id>
    var data: bytes
    var inlineBytes: nat

    function State(): Raw
      reads this
    {
      Raw(data, inlineBytes)
    }

    constructor (repo: Repo, o: Opened)
      ensures this.repo == repo && objectRefs == o.objectRefs && State() == Raw(o.data, 0)
    {
      this.repo, objectRefs, data, inlineBytes := repo, o.objectRefs, o.data, 0;
    }

    method EnsureChunk(eofOk: bool, extOk: bool, expected: nat) returns (r: Found)
      modifies this
      ensures Look(r, State()) == NextChunk(old(State()), objectRefs, eofOk, extOk, expected)
    {
      if inlineBytes == 0 {
        if data == [] {
          return if eofOk then Eof else Failed;
        }
        if |data| < 8 {
          return Failed;
        }
        var n := FromLE(data[..8]);
        data := data[8..];
        if n >= 0x8000_0000_0000_0000 {
          inlineBytes := if n < 0x1_0000_0000_0000_0000 then 0x1_0000_0000_0000_0000 - n else 0;
        } else {
          if !extOk || n >= |objectRefs| {
            return Failed;
          }
          return ExternalFound(objectRefs[n]);
        }
      }
      if inlineBytes < expected {
        return Failed;
      }
      return InlineFound;
    }

    method ReadInlineExact(n: nat) returns (r: Got)
      modifies this
      ensures Read(r, State()) == InlineExact(old(State()), objectRefs, n)
    {
      hide NextChunk;
      var found := EnsureChunk(true, false, n);
      match found {
        case Eof => r := End;
        case InlineFound =>
          if n <= |data| && n <= inlineBytes {
            r := GotBytes(data[..n]);
            data, inlineBytes := data[n..], inlineBytes - n;
          } else {
            r := Error;
          }
        case _ => r := Error;
      }
    }

    /** Inline content, or an object whose padding is skipped. */
    method ReadExact(actual: nat, stored: nat) returns (r: Got)
      requires actual <= stored
      modifies this
      ensures Read(r, State()) == Exact(old(State()), objectRefs, actual, stored)
    {
      hide NextChunk;
      var found := EnsureChunk(false, true, stored);
      match found {
        case ExternalFound(id) =>
          if actual < stored {
            var padding := stored - actual;
            if padding > 512 {
              return Error;
            }
            found := EnsureChunk(false, false, padding);
            if !found.InlineFound? || padding > |data| || padding > inlineBytes {
              return Error;
            }
            data, inlineBytes := data[padding..], inlineBytes - padding;
          }
          r := GotObject(id);
        case InlineFound =>
          if stored > |data| || stored > inlineBytes {
            return Error;
          }
          r := GotBytes(data[..stored][..actual]);
          data, inlineBytes := data[stored..], inlineBytes - stored;
        case _ => r := Error;
      }
    }

    /** `cat` writes the whole stream out. */
    method Cat() returns (r: Option<bytes>)
      modifies this
      ensures r == CatRaw(repo, old(State()), objectRefs)
    {
      hide NextChunk;
      var output: bytes := [];
      ghost var all := CatRaw(repo, State(), objectRefs);
      JoinedNothing(all);
      while true
        invariant all == Joined(output, CatRaw(repo, State(), objectRefs))
        decreases |data|, inlineBytes
      {
        ghost var before := State();
        NextShrinks(before, objectRefs);
        var found := EnsureChunk(true, true, 0);
        match found {
          case Eof =>
            assert output + [] == output;
            return Some(output);
          case Failed => return None;
          case ExternalFound(id) =>
            JoinedMore(output, repo.load(id), CatRaw(repo, State(), objectRefs));
            output := output + repo.load(id);
          case InlineFound =>
            if inlineBytes > |data| {
              return None;
            }
            ghost var rest := CatRaw(repo, Raw(data[inlineBytes..], 0), objectRefs);
            JoinedMore(output, data[..inlineBytes], rest);
            output := output + data[..inlineBytes];
            data, inlineBytes := data[inlineBytes..], 0;
        }
      }
    }
  }

  function Joined(a: bytes, b: Option<bytes>): Option<bytes> {
    match b
    case None => None
    case Some(s) => Some(a + s)
  }

  lemma JoinedNothing(b: Option<bytes>)
    ensures Joined([], b) == b
  {
    if b.Some? {
      assert [] + b.value == b.value;
    }
  }

  lemma JoinedMore(a: bytes, x: bytes, b: Option<bytes>)
    ensures b.Some? ==> Joined(a, Some(x + b.value)) == Joined(a + x, b)
  {
    if b.Some? {
      assert a + (x + b.value) == a + x + b.value;
    }
  }

  lemma NextShrinks(s: Raw, refs: seq<Id>)
    ensures
      var l := NextChunk(s, refs, true, true, 0);
      && (l.found.ExternalFound? ==> |l.raw.data| < |s.data|)
      && (l.found.InlineFound? ==>
            |l.raw.data| < |s.data| || (l.raw == s && l.raw.inlineBytes > 0))
  {
  }

  // ---- reading what was written ----

  /** A stream being read: the rest of the current inline chunk, and the chunks to come. */
  datatype Cursor = Cursor(pending: bytes, chunks: seq<Chunk>) {
    function Atoms(): seq<Atom> {
      BytesOf(pending) + AtomsOf(chunks)
    }
  }

  /** Inline chunks are not empty and do not touch. */
  ghost predicate Separate(chunks: seq<Chunk>) {
    && (forall i :: 0 <= i < |chunks| && chunks[i].Inline? ==>
          0 < |chunks[i].data| < 0x8000_0000_0000_0000)
    && forall i, j :: 0 <= i && j == i + 1 && j < |chunks| && chunks[i].Inline? ==> chunks[j].External?
  }

  ghost predicate Normal(c: Cursor) {
    Separate(c.chunks) && (c.pending != [] && c.chunks != [] ==> c.chunks[0].External?)
  }

  ghost predicate At(s: Raw, refs: seq<Id>, c: Cursor) {
    && Normal(c) && Known(c.chunks, refs) && |refs| < 0x8000_0000_0000_0000
    && s.inlineBytes == |c.pending| && s.data == c.pending + Encode(c.chunks, refs)
  }

  lemma SeparateAppend(chunks: seq<Chunk>, c: Chunk)
    requires Separate(chunks)
    requires c.Inline? ==> 0 < |c.data| < 0x8000_0000_0000_0000
    requires c.Inline? && chunks != [] ==> chunks[|chunks| - 1].External?
    ensures Separate(chunks + [c])
  {
    var all := chunks + [c];
    forall i, j | 0 <= i && j == i + 1 && j < |all| && all[i].Inline?
      ensures all[j].External?
    {
      assert all[i] == chunks[i];
      if j < |chunks| {
        assert all[j] == chunks[j];
      }
    }
  }

  lemma {:induction false} ChunkedSeparate(atoms: seq<Atom>)
    requires |atoms| < 0x8000_0000_0000_0000
    ensures Separate(Chunked(atoms).chunks) && Separate(Chunked(atoms).Flushed())
    ensures var l := Chunked(atoms);
      l.chunks != [] ==> l.chunks[|l.chunks| - 1].External?
    decreases |atoms|
  {
    hide Separate;
    ChunkedFaithful(atoms);
    if atoms == [] {
      assert Separate([]) by {
        NothingSeparate();
      }
    } else {
      var n := |atoms| - 1;
      ChunkedSeparate(atoms[..n]);
      var l := Chunked(atoms[..n]);
      if atoms[n].Object? {
        SeparateAppend(l.Flushed(), External(atoms[n].id));
      } else {
        SeparateAppend(l.chunks, Inline(l.buffer + [atoms[n].b]));
      }
    }
  }

  lemma NothingSeparate()
    ensures Separate([])
  {
  }

  /** The state in which a written stream is opened. */
  lemma OpenedAt(c: Draft)
    requires Known(Chunked(c.atoms).Flushed(), c.objects)
    requires |c.atoms| < 0x8000_0000_0000_0000 && |c.objects| < 0x8000_0000_0000_0000
    ensures
      var cursor := Cursor([], Chunked(c.atoms).Flushed());
      && At(Raw(Encode(Chunked(c.atoms).Flushed(), c.objects), 0), c.objects, cursor)
      && cursor.Atoms() == c.atoms
  {
    hide Chunked, Encode;
    ChunkedSeparate(c.atoms);
    ChunkedFaithful(c.atoms);
    FlushedFaithful(Chunked(c.atoms));
    var chunks := Chunked(c.atoms).Flushed();
    assert [] + Encode(chunks, c.objects) == Encode(chunks, c.objects);
    assert BytesOf([]) + AtomsOf(chunks) == AtomsOf(chunks);
  }

  /** What `ensure_chunk` finds at the start of a chunk. */
  lemma NextAt(s: Raw, refs: seq<Id>, c: Cursor, eofOk: bool, extOk: bool, expected: nat)
    requires At(s, refs, c) && c.pending == []
    ensures
      var l := NextChunk(s, refs, eofOk, extOk, expected);
      if c.chunks == [] then l == Look(if eofOk then Eof else Failed, s)
      else
        match c.chunks[0]
        case Inline(data) =>
          && l.found == (if |data| < expected then Failed else InlineFound)
          && At(l.raw, refs, Cursor(data, c.chunks[1..]))
        case External(id) =>
          && l.found == (if extOk then ExternalFound(id) else Failed)
          && At(l.raw, refs, Cursor([], c.chunks[1..]))
  {
    hide LE, FromLE;
    if c.chunks != [] {
      SeparateTail(c.chunks);
      var rest := Encode(c.chunks[1..], refs);
      Pow256Values();
      match c.chunks[0]
      case Inline(data) =>
        var n := 0x1_0000_0000_0000_0000 - |data|;
        LERoundTrip(n, 8);
        assert s.data == LE(n, 8) + (data + rest);
        assert s.data[..8] == LE(n, 8) && s.data[8..] == data + rest;
      case External(id) =>
        var i := IndexOf(refs, id);
        LERoundTrip(i, 8);
        assert s.data == LE(i, 8) + rest;
        assert s.data[..8] == LE(i, 8) && s.data[8..] == [] + rest;
    }
  }

  lemma SeparateTail(chunks: seq<Chunk>)
    requires Separate(chunks) && chunks != []
    ensures Separate(chunks[1..])
    ensures chunks[0].Inline? && chunks[1..] != [] ==> chunks[1..][0].External?
  {
    forall i, j | 0 <= i && j == i + 1 && j < |chunks[1..]| && chunks[1..][i].Inline?
      ensures chunks[1..][j].External?
    {
      assert chunks[i + 1].Inline? && chunks[j + 1] == chunks[1..][j];
    }
    if chunks[0].Inline? && chunks[1..] != [] {
      assert chunks[1] == chunks[1..][0];
    }
  }

  /** `cat` of a written stream is the merged stream. */
  lemma {:induction false} CatAt(repo: Repo, s: Raw, refs: seq<Id>, c: Cursor)
    requires At(s, refs, c)
    ensures CatRaw(repo, s, refs) == Some(Merge(repo, c.Atoms()))
    decreases |c.chunks|, |c.pending|
  {
    hide NextChunk, Encode;
    MergeAppend(repo, BytesOf(c.pending), AtomsOf(c.chunks));
    MergeBytes(repo, c.pending);
    if c.pending == [] {
      NextAt(s, refs, c, true, true, 0);
      var l := NextChunk(s, refs, true, true, 0);
      assert c.Atoms() == AtomsOf(c.chunks);
      if c.chunks != [] {
        AtomsOfFirst(c.chunks);
        match c.chunks[0]
        case Inline(data) =>
          var after := Cursor([], c.chunks[1..]);
          Skip(l.raw, refs, Cursor(data, c.chunks[1..]));
          CatAt(repo, Raw(l.raw.data[|data|..], 0), refs, after);
          assert l.raw.data[..|data|] == data;
          MergeParts(repo, BytesOf(data), c.chunks[1..]);
          MergeBytes(repo, data);
        case External(id) =>
          CatAt(repo, l.raw, refs, Cursor([], c.chunks[1..]));
          MergeParts(repo, [Object(id)], c.chunks[1..]);
          MergeObject(repo, id);
      }
    } else {
      PendingFound(s, refs, true, true, 0);
      Skip(s, refs, c);
      CatAt(repo, Raw(s.data[|c.pending|..], 0), refs, Cursor([], c.chunks));
      assert s.data[..|c.pending|] == c.pending;
      assert Cursor([], c.chunks).Atoms() == AtomsOf(c.chunks);
    }
  }

  lemma AtomsOfFirst(chunks: seq<Chunk>)
    requires chunks != []
    ensures AtomsOf(chunks) == ChunkAtoms(chunks[0]) + AtomsOf(chunks[1..])
  {
  }

  lemma MergeParts(repo: Repo, a: seq<Atom>, chunks: seq<Chunk>)
    ensures Merge(repo, a + AtomsOf(chunks)) == Merge(repo, a) + Merge(repo, Cursor([], chunks).Atoms())
  {
    assert Cursor([], chunks).Atoms() == AtomsOf(chunks);
    MergeAppend(repo, a, AtomsOf(chunks));
  }

  lemma PendingFound(s: Raw, refs: seq<Id>, eofOk: bool, extOk: bool, expected: nat)
    requires s.inlineBytes > 0
    ensures NextChunk(s, refs, eofOk, extOk, expected)
         == Look(if s.inlineBytes < expected then Failed else InlineFound, s)
  {
  }

  /** Past the current inline chunk. */
  lemma Skip(s: Raw, refs: seq<Id>, c: Cursor)
    requires At(s, refs, c)
    ensures |c.pending| <= |s.data| && At(Raw(s.data[|c.pending|..], 0), refs, Cursor([], c.chunks))
  {
    var rest := Encode(c.chunks, refs);
    assert s.data[|c.pending|..] == [] + rest;
  }

  /** Whatever was written, `cat` of the opened file returns the merged stream. */
  lemma CatRoundTrip(repo: Repo, c: Draft)
    requires GoodContents(repo, c) && FitsFile(repo, c) && NulFree(c.named)
    ensures Open(repo, StreamFile(repo, c), None).Some?
    ensures
      var o := Open(repo, StreamFile(repo, c), None).value;
      CatRaw(repo, Raw(o.data, 0), o.objectRefs) == Some(Merge(repo, c.atoms))
  {
    hide Open, StreamFile, CatRaw, Chunked, Encode, Merge;
    OpenRoundTrip(repo, c, None);
    OpenedAt(c);
    CatAt(repo, Raw(Encode(Chunked(c.atoms).Flushed(), c.objects), 0), c.objects,
          Cursor([], Chunked(c.atoms).Flushed()));
  }
}
