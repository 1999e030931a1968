/** A splitstream file byte by byte: where the reader finds each section in any file, and what a
    chunk stream says, told without the reader's own steps. */
module SplitstreamBytes {
  import opened Bytes
  import opened LittleEndian
  import opened Numbers
  import opened Splitstream
  import R = SplitstreamReader

  // ---- sections ----

  /** The bytes between two offsets that are stored at `at`. */
  predicate SectionAt(file: bytes, b: bytes, at: nat, section: bytes) {
    && Has(b, at, 16) && U64(b, at) <= U64(b, at + 8)
    && if U64(b, at) == U64(b, at + 8) then section == []
       else Has(file, 0, U64(b, at + 8)) && section == file[U64(b, at)..U64(b, at + 8)]
  }

  /** Ids of one size, one after the other. */
  predicate IdsIn(section: bytes, size: nat, ids: seq<Id>) {
    if ids == [] then section == []
    else |section| >= size && section[..size] == ids[0] && IdsIn(section[size..], size, ids[1..])
  }

  /** `<decimal index>:<name>`, with the colon at `n` and a NUL at `k`. */
  ghost predicate EntryAt(section: bytes, refs: seq<Id>, n: nat, k: nat, i: nat) {
    && n < k < |section| && section[n] == 58 && section[k] == 0
    && 58 !in section[..n] && 0 !in section[..k]
    && ParseNumber(section[..n], 10, 0x1_0000_0000_0000_0000) == Some(i) && i < |refs|
  }

  /** Entries up to the end; later ones replace earlier ones. */
  ghost predicate NamesIn(section: bytes, refs: seq<Id>, before: map<bytes, Id>, after: map<bytes, Id>)
    decreases |section|
  {
    if section == [] then after == before
    else
      exists n: nat, k: nat, i: nat ::
        EntryAt(section, refs, n, k, i)
        && NamesIn(section[k + 1..], refs, before[section[n + 1..k] := refs[i]], after)
  }

  /** "SplitStream", version 0, two bytes of flags, the algorithm, 12, and where the info is. */
  predicate HeaderIs(file: bytes, algorithm: byte, info: bytes) {
    && Has(file, 0, 32) && file[..11] == [83, 112, 108, 105, 116, 83, 116, 114, 101, 97, 109]
    && file[11] == 0 && file[14] == algorithm && file[15] == 12
    && SectionAt(file, file, 16, info) && Has(info, 0, 80)
  }

  /** The info: stream references at 0, object references at 16, the stream at 32, names at 48, the
      content type at 64, the size at 72. */
  ghost predicate InfoIs(repo: Repo, file: bytes, info: bytes, o: R.Opened) {
    && Has(info, 0, 80) && o.contentType == U64(info, 64) && o.totalSize == U64(info, 72)
    && (exists s :: SectionAt(file, info, 16, s) && IdsIn(s, repo.idSize, o.objectRefs))
    && (exists s :: SectionAt(file, info, 32, s) && repo.decompress(s) == Some(o.data))
    && exists s, t, names, refs ::
         && SectionAt(file, info, 0, s) && IdsIn(s, repo.idSize, refs)
         && SectionAt(file, info, 48, t) && repo.decompress(t) == Some(names)
         && NamesIn(names, refs, map[], o.namedRefs)
  }

  ghost predicate FileIs(repo: Repo, file: bytes, expected: Option<nat>, o: R.Opened) {
    exists info ::
      HeaderIs(file, repo.algorithm, info) && InfoIs(repo, file, info, o)
      && (expected.Some? ==> o.contentType == expected.value)
  }

  lemma SameU64(b: bytes, at: nat)
    requires Has(b, at, 8)
    ensures R.U64(b, at) == U64(b, at)
  {
    Eight(b, at);
  }

  lemma RangeIs(file: bytes, b: bytes, at: nat)
    requires Has(b, at, 16)
    ensures forall s :: R.RangeAt(file, b, at) == Some(s) <==> SectionAt(file, b, at, s)
  {
    hide U64, R.U64;
    SameU64(b, at);
    SameU64(b, at + 8);
  }

  lemma {:induction false} IdsAre(section: bytes, size: nat, ids: seq<Id>)
    requires size > 0
    ensures R.SplitIds(section, size) == Some(ids) <==> IdsIn(section, size, ids)
    decreases |section|
  {
    if |section| >= size {
      if ids != [] {
        IdsAre(section[size..], size, ids[1..]);
        assert ids == [ids[0]] + ids[1..];
      }
      if R.SplitIds(section[size..], size).Some? {
        IdsAre(section[size..], size, R.SplitIds(section[size..], size).value);
      }
    }
  }

  lemma EntryIs(section: bytes, refs: seq<Id>, n: nat, k: nat, i: nat)
    requires EntryAt(section, refs, n, k, i)
    ensures FirstOf(section, 0) == k && R.ParseNamedRef(section[..k], refs) == Some((section[n + 1..k], refs[i]))
  {
    hide ParseNumber, FirstOf;
    var item := section[..k];
    assert item[..n] == section[..n] && item[n + 1..] == section[n + 1..k];
    FirstIs(section, 0, k);
    FirstIs(item, 58, n);
  }

  lemma EntryFound(section: bytes, refs: seq<Id>) returns (n: nat, i: nat)
    requires
      var end := FirstOf(section, 0);
      end < |section| && R.ParseNamedRef(section[..end], refs).Some?
    ensures EntryAt(section, refs, n, FirstOf(section, 0), i)
  {
    hide ParseNumber, FirstOf;
    var end := FirstOf(section, 0);
    n := FirstOf(section[..end], 58);
    assert section[..end][..n] == section[..n];
    i := ParseNumber(section[..n], 10, 0x1_0000_0000_0000_0000).value;
  }

  lemma NamesStep(section: bytes, refs: seq<Id>, m: map<bytes, Id>, after: map<bytes, Id>)
    requires section != []
    ensures
      var end := FirstOf(section, 0);
      NamesIn(section, refs, m, after) <==>
      && end < |section| && R.ParseNamedRef(section[..end], refs).Some?
      && var e := R.ParseNamedRef(section[..end], refs).value;
      NamesIn(section[end + 1..], refs, m[e.0 := e.1], after)
  {
    hide R.ParseNamedRef, ParseNumber, FirstOf;
    var end := FirstOf(section, 0);
    if NamesIn(section, refs, m, after) {
      var n: nat, k: nat, i: nat :|
        EntryAt(section, refs, n, k, i)
        && NamesIn(section[k + 1..], refs, m[section[n + 1..k] := refs[i]], after);
      EntryIs(section, refs, n, k, i);
    }
    if end < |section| && R.ParseNamedRef(section[..end], refs).Some? {
      var n, i := EntryFound(section, refs);
      EntryIs(section, refs, n, end, i);
    }
  }

  /** One entry on, or the end of all that can be read. */
  lemma NextNames(section: bytes, refs: seq<Id>, m: map<bytes, Id>)
    returns (ok: bool, rest: bytes, next: map<bytes, Id>)
    requires section != []
    ensures ok ==>
      && |rest| < |section| && R.ParseNamed(section, refs, m) == R.ParseNamed(rest, refs, next)
      && forall after :: NamesIn(section, refs, m, after) <==> NamesIn(rest, refs, next, after)
    ensures !ok ==> R.ParseNamed(section, refs, m) == None && forall after :: !NamesIn(section, refs, m, after)
  {
    hide R.ParseNamedRef, FirstOf, NamesIn, R.ParseNamed;
    var end := FirstOf(section, 0);
    ok, rest, next := end < |section| && R.ParseNamedRef(section[..end], refs).Some?, [], m;
    ParseStep(section, refs, m);
    if ok {
      var e := R.ParseNamedRef(section[..end], refs).value;
      rest, next := section[end + 1..], m[e.0 := e.1];
    }
    forall after
      ensures NamesIn(section, refs, m, after) <==> ok && NamesIn(rest, refs, next, after)
    {
      NamesStep(section, refs, m, after);
    }
  }

  lemma {:induction false} NamesAre(section: bytes, refs: seq<Id>, m: map<bytes, Id>, after: map<bytes, Id>)
    ensures R.ParseNamed(section, refs, m) == Some(after) <==> NamesIn(section, refs, m, after)
    decreases |section|
  {
    hide *;
    if section == [] {
      NoNames(refs, m, after);
    } else {
      var ok, rest, next := NextNames(section, refs, m);
      if ok {
        NamesAre(rest, refs, next, after);
      }
    }
  }

  lemma ParseStep(section: bytes, refs: seq<Id>, m: map<bytes, Id>)
    requires section != []
    ensures
      var end := FirstOf(section, 0);
      R.ParseNamed(section, refs, m)
      == if end < |section| && R.ParseNamedRef(section[..end], refs).Some? then
           var e := R.ParseNamedRef(section[..end], refs).value;
           R.ParseNamed(section[end + 1..], refs, m[e.0 := e.1])
         else None
  {
    hide R.ParseNamedRef;
  }

  lemma NoNames(refs: seq<Id>, m: map<bytes, Id>, after: map<bytes, Id>)
    ensures NamesIn([], refs, m, after) <==> after == m
    ensures R.ParseNamed([], refs, m) == Some(m)
  {
  }

  lemma FirstIs(s: bytes, c: byte, n: nat)
    requires n < |s| && s[n] == c && c !in s[..n]
    ensures FirstOf(s, c) == n
  {
    assert forall i :: 0 <= i < n ==> s[..n][i] == s[i];
  }

  /** A file opens exactly as what stands at these places, and is refused exactly when something of
      it does not. */
  lemma OpenIs(repo: Repo, file: bytes, expected: Option<nat>, o: R.Opened)
    requires repo.idSize > 0
    ensures R.Open(repo, file, expected) == Some(o) <==> FileIs(repo, file, expected, o)
  {
    hide U64, R.U64, R.RangeAt, SectionAt, R.OpenSections, InfoIs;
    if Has(file, 0, 32) {
      RangeIs(file, file, 16);
      match R.RangeAt(file, file, 16)
      case None =>
      case Some(info) =>
        if |info| >= 80 {
          SameU64(info, 64);
          SectionsAre(repo, file, info, o);
          TypeIs(repo, file, info, o);
        }
        if FileIs(repo, file, expected, o) {
          var i :| HeaderIs(file, repo.algorithm, i) && InfoIs(repo, file, i, o)
                   && (expected.Some? ==> o.contentType == expected.value);
          assert i == info;
        }
    }
  }

  lemma TypeIs(repo: Repo, file: bytes, info: bytes, o: R.Opened)
    requires Has(info, 0, 80)
    ensures InfoIs(repo, file, info, o) ==> o.contentType == U64(info, 64)
  {
    hide U64, SectionAt, IdsIn, NamesIn;
  }

  lemma SectionsAre(repo: Repo, file: bytes, info: bytes, o: R.Opened)
    requires repo.idSize > 0 && Has(info, 0, 80)
    ensures R.OpenSections(repo, file, info) == Some(o) <==> InfoIs(repo, file, info, o)
  {
    hide U64, R.U64, R.RangeAt, SectionAt, IdsIn, NamesIn, R.ParseNamed, R.SplitIds;
    SameU64(info, 64);
    SameU64(info, 72);
    RangeIs(file, info, 0);
    RangeIs(file, info, 16);
    RangeIs(file, info, 32);
    RangeIs(file, info, 48);
    forall s, ids
      ensures R.SplitIds(s, repo.idSize) == Some(ids) <==> IdsIn(s, repo.idSize, ids)
    {
      IdsAre(s, repo.idSize, ids);
    }
    forall names, refs, m
      ensures R.ParseNamed(names, refs, map[]) == Some(m) <==> NamesIn(names, refs, map[], m)
    {
      NamesAre(names, refs, map[], m);
    }
  }

  // ---- the chunk stream ----

  /** Chunks one after the other: a negative number, in 64 bits, is the length of the bytes that
      follow; any other the index of an object. */
  ghost predicate StreamSays(repo: Repo, data: bytes, refs: seq<Id>, out: bytes)
    decreases |data|
  {
    if data == [] then out == []
    else
      && Has(data, 0, 8)
      && var n := U64(data, 0);
      if n >= 0x8000_0000_0000_0000 then
        var size := 0x1_0000_0000_0000_0000 - n;
        && Has(data, 8, size) && |out| >= size && out[..size] == data[8..8 + size]
        && StreamSays(repo, data[8 + size..], refs, out[size..])
      else
        && n < |refs|
        && var stored := repo.load(refs[n]);
        && |out| >= |stored| && out[..|stored|] == stored
        && StreamSays(repo, data[8..], refs, out[|stored|..])
  }

  lemma U64Below(b: bytes, at: nat)
    requires Has(b, at, 8)
    ensures U64(b, at) < 0x1_0000_0000_0000_0000
  {
  }

  /** One chunk of `cat`. */
  lemma CatStep(repo: Repo, data: bytes, refs: seq<Id>)
    ensures
      var r := R.CatRaw(repo, R.Raw(data, 0), refs);
      if data == [] then r == Some([])
      else if !Has(data, 0, 8) then r == None
      else
        var n := U64(data, 0);
        if n >= 0x8000_0000_0000_0000 then
          var size := 0x1_0000_0000_0000_0000 - n;
          && size > 0
          && if Has(data, 8, size) then
               r == R.Joined(data[8..8 + size], R.CatRaw(repo, R.Raw(data[8 + size..], 0), refs))
             else r == None
        else if n < |refs| then r == R.Joined(repo.load(refs[n]), R.CatRaw(repo, R.Raw(data[8..], 0), refs))
        else r == None
  {
    hide U64, R.NextChunk;
    ChunkIs(data, refs);
    if Has(data, 0, 8) && U64(data, 0) >= 0x8000_0000_0000_0000 {
      var size := 0x1_0000_0000_0000_0000 - U64(data, 0);
      if Has(data, 8, size) {
        assert data[8..][..size] == data[8..8 + size] && data[8..][size..] == data[8 + size..];
      }
    }
  }

  lemma ChunkIs(data: bytes, refs: seq<Id>)
    ensures
      var l := R.NextChunk(R.Raw(data, 0), refs, true, true, 0);
      if data == [] then l.found == R.Eof
      else if !Has(data, 0, 8) then l.found == R.Failed
      else
        var n := U64(data, 0);
        && n < 0x1_0000_0000_0000_0000
        && if n >= 0x8000_0000_0000_0000 then
             l == R.Look(R.InlineFound, R.Raw(data[8..], 0x1_0000_0000_0000_0000 - n))
           else if n < |refs| then l == R.Look(R.ExternalFound(refs[n]), R.Raw(data[8..], 0))
           else l.found == R.Failed
  {
    hide U64, FromLE;
    if Has(data, 0, 8) {
      Eight(data, 0);
      U64Below(data, 0);
      assert data[..8] == data[0..8];
    }
  }

  lemma JoinedIs(a: bytes, r: Option<bytes>, out: bytes)
    ensures R.Joined(a, r) == Some(out) <==> |out| >= |a| && out[..|a|] == a && r == Some(out[|a|..])
  {
    if r.Some? {
      assert (a + r.value)[|a|..] == r.value;
    }
    if |out| >= |a| {
      assert out == out[..|a|] + out[|a|..];
    }
  }

  /** `cat` gives out exactly what the chunks say, in any stream, and fails exactly when they say
      nothing. */
  lemma {:induction false} CatIs(repo: Repo, data: bytes, refs: seq<Id>, out: bytes)
    ensures R.CatRaw(repo, R.Raw(data, 0), refs) == Some(out) <==> StreamSays(repo, data, refs, out)
    decreases |data|
  {
    hide U64, R.CatRaw, R.Joined;
    CatStep(repo, data, refs);
    if Has(data, 0, 8) {
      var n := U64(data, 0);
      if n >= 0x8000_0000_0000_0000 {
        var size := 0x1_0000_0000_0000_0000 - n;
        if Has(data, 8, size) {
          JoinedIs(data[8..8 + size], R.CatRaw(repo, R.Raw(data[8 + size..], 0), refs), out);
          if |out| >= size {
            CatIs(repo, data[8 + size..], refs, out[size..]);
          }
        }
      } else if n < |refs| {
        var stored := repo.load(refs[n]);
        JoinedIs(stored, R.CatRaw(repo, R.Raw(data[8..], 0), refs), out);
        if |out| >= |stored| {
          CatIs(repo, data[8..], refs, out[|stored|..]);
        }
      }
    }
  }

  // ---- single reads ----

  /** The reader is inside an inline chunk or in front of one: `left` bytes of it start `body`. */
  predicate InlineHere(s: R.Raw, left: nat, body: bytes) {
    if s.inlineBytes > 0 then left == s.inlineBytes && body == s.data
    else
      && Has(s.data, 0, 8) && U64(s.data, 0) >= 0x8000_0000_0000_0000
      && left == 0x1_0000_0000_0000_0000 - U64(s.data, 0) && body == s.data[8..]
  }

  /** The reader is in front of the object with index `i`. */
  predicate ObjectHere(s: R.Raw, i: nat) {
    s.inlineBytes == 0 && Has(s.data, 0, 8) && U64(s.data, 0) == i < 0x8000_0000_0000_0000
  }

  lemma LookIs(s: R.Raw, refs: seq<Id>, eofOk: bool, extOk: bool, expected: nat)
    ensures
      var l := R.NextChunk(s, refs, eofOk, extOk, expected);
      && (l.found == R.Eof <==> eofOk && s.inlineBytes == 0 && s.data == [])
      && (forall left: nat, body :: InlineHere(s, left, body) ==>
            l.raw == R.Raw(body, left) && l.found == (if left < expected then R.Failed else R.InlineFound))
      && (forall i: nat :: ObjectHere(s, i) ==>
            && |s.data| >= 8
            && (extOk && i < |refs| ==> l == R.Look(R.ExternalFound(refs[i]), R.Raw(s.data[8..], 0)))
            && (!extOk || i >= |refs| ==> l.found == R.Failed))
      && (l.found == R.InlineFound ==> exists left: nat, body :: InlineHere(s, left, body))
      && (l.found.ExternalFound? ==> exists i: nat :: ObjectHere(s, i) && i < |refs|)
  {
    hide FromLE, U64;
    if Has(s.data, 0, 8) {
      Eight(s.data, 0);
      U64Below(s.data, 0);
      assert s.data[..8] == s.data[0..8];
    }
    var l := R.NextChunk(s, refs, eofOk, extOk, expected);
    if l.found == R.InlineFound {
      assert InlineHere(s, l.raw.inlineBytes, l.raw.data);
    }
    if l.found.ExternalFound? {
      assert ObjectHere(s, U64(s.data, 0));
    }
  }

  /** `read_inline_exact`: the bytes when the current or next chunk is inline and has as many; the
      end between chunks; an error otherwise. */
  lemma InlineReadIs(s: R.Raw, refs: seq<Id>, n: nat)
    ensures
      var r := R.InlineExact(s, refs, n);
      && (r.got.End? <==> s.inlineBytes == 0 && s.data == [])
      && (forall left: nat, body :: InlineHere(s, left, body) && n <= left && n <= |body| ==>
            r == R.Read(R.GotBytes(body[..n]), R.Raw(body[n..], left - n)))
      && (r.got.GotBytes? ==> exists left: nat, body :: InlineHere(s, left, body) && n <= left && n <= |body|)
      && !r.got.GotObject?
  {
    hide R.NextChunk, InlineHere, ObjectHere;
    LookIs(s, refs, true, false, n);
  }

  /** A read of some padding: 512 bytes at most, from an inline chunk. */
  ghost predicate PaddingHere(s: R.Raw, n: nat, after: R.Raw) {
    n <= 512 && exists left: nat, body ::
      InlineHere(s, left, body) && n <= left && n <= |body| && after == R.Raw(body[n..], left - n)
  }

  ghost predicate HasPadding(s: R.Raw, n: nat) {
    exists after :: PaddingHere(s, n, after)
  }

  lemma ObjectRead(s: R.Raw, refs: seq<Id>, actual: nat, stored: nat, i: nat)
    requires actual <= stored && ObjectHere(s, i) && i < |refs| && |s.data| >= 8
    ensures
      var r, next := R.Exact(s, refs, actual, stored), R.Raw(s.data[8..], 0);
      && (r.got.GotObject? <==> actual == stored || HasPadding(next, stored - actual))
      && (r.got.GotObject? ==>
            if actual == stored then r.raw == next else PaddingHere(next, stored - actual, r.raw))
  {
    hide R.NextChunk, InlineHere, ObjectHere;
    LookIs(s, refs, false, true, stored);
    var next, n := R.Raw(s.data[8..], 0), stored - actual;
    LookIs(next, refs, false, false, n);
    if after :| PaddingHere(next, n, after) {
      var left: nat, body :|
        InlineHere(next, left, body) && n <= left && n <= |body| && after == R.Raw(body[n..], left - n);
    }
    var p := R.NextChunk(next, refs, false, false, n);
    if p.found.InlineFound? && R.Take(p.raw, n).Some? && n <= 512 {
      var left: nat, body :| InlineHere(next, left, body);
      assert PaddingHere(next, n, R.Take(p.raw, n).value);
    }
  }

  /** `read_exact`: inline bytes without their padding, or the object and then its padding; an error
      otherwise, at the end too. */
  lemma ReadIs(s: R.Raw, refs: seq<Id>, actual: nat, stored: nat)
    requires actual <= stored
    ensures
      var r := R.Exact(s, refs, actual, stored);
      && !r.got.End?
      && (forall left: nat, body :: InlineHere(s, left, body) && stored <= left && stored <= |body| ==>
            r == R.Read(R.GotBytes(body[..actual]), R.Raw(body[stored..], left - stored)))
      && (r.got.GotBytes? ==> exists left: nat, body :: InlineHere(s, left, body) && stored <= left && stored <= |body|)
      && (r.got.GotObject? ==> exists i: nat :: ObjectHere(s, i) && i < |refs| && r.got.id == refs[i])
      && (forall i: nat :: ObjectHere(s, i) && i < |refs| ==>
            var next := R.Raw(s.data[8..], 0);
            && (r.got.GotObject? <==>
                  actual == stored || HasPadding(next, stored - actual))
            && (r.got.GotObject? ==>
                  if actual == stored then r.raw == next else PaddingHere(next, stored - actual, r.raw)))
  {
    hide R.NextChunk, InlineHere, ObjectHere;
    LookIs(s, refs, false, true, stored);
    var l := R.NextChunk(s, refs, false, true, stored);
    if l.found.InlineFound? && stored <= |l.raw.data| {
      assert l.raw.data[..stored][..actual] == l.raw.data[..actual];
    }
    forall i: nat | ObjectHere(s, i) && i < |refs|
      ensures
        var r, next := R.Exact(s, refs, actual, stored), R.Raw(s.data[8..], 0);
        && (r.got.GotObject? <==> actual == stored || HasPadding(next, stored - actual))
        && (r.got.GotObject? ==>
              if actual == stored then r.raw == next else PaddingHere(next, stored - actual, r.raw))
    {
      ObjectRead(s, refs, actual, stored, i);
    }
  }

  /** What `done` writes has its parts at these places. */
  lemma WrittenIs(repo: Repo, c: Draft)
    requires GoodContents(repo, c) && R.FitsFile(repo, c) && R.NulFree(c.named)
    ensures FileIs(repo, StreamFile(repo, c), None, R.OpenedOf(c))
    ensures StreamSays(repo, R.OpenedOf(c).data, c.objects, Merge(repo, c.atoms))
  {
    hide R.Open, StreamFile, FileIs, R.CatRaw, Chunked, Encode, Merge, StreamSays;
    R.OpenRoundTrip(repo, c, None);
    OpenIs(repo, StreamFile(repo, c), None, R.OpenedOf(c));
    R.CatRoundTrip(repo, c);
    CatIs(repo, R.OpenedOf(c).data, c.objects, Merge(repo, c.atoms));
  }

  /** A written file has its info at 32 and then, without gaps, stream references, object references,
      names and the stream up to its end; the flags are zero. */
  lemma SectionsInOrder(repo: Repo, c: Draft)
    requires GoodContents(repo, c) && R.FitsFile(repo, c)
    ensures
      var file := StreamFile(repo, c);
      && Has(file, 0, 112) && file[12] == 0 && file[13] == 0
      && U64(file, 16) == 32 && U64(file, 24) == 112
      && U64(file, 32) == 112 && U64(file, 40) == U64(file, 48) && U64(file, 56) == U64(file, 80)
      && U64(file, 88) == U64(file, 64) && U64(file, 72) == |file|
  {
    hide Chunked, Encode, LE, FromLE, U64, FileOf, Sections.Info, Range, Header, NamedBytes, Flat;
    var s := SectionsOf(repo, c);
    var file, info := StreamFile(repo, c), s.Info();
    R.FileParts(repo, s);
    R.InfoParts(s);
    HeaderNumbers(repo);
    assert forall k :: 0 <= k < 32 ==> file[k] == file[..32][k];
    Stored(file, 16, 32, 112);
    SliceOfSlice(file, info, 0);
    SliceOfSlice(file, info, 16);
    SliceOfSlice(file, info, 32);
    SliceOfSlice(file, info, 48);
    Stored(file, 32, s.StreamRefsAt(), s.ObjectRefsAt());
    Stored(file, 48, s.ObjectRefsAt(), s.NamedRefsAt());
    Stored(file, 64, s.StreamAt(), s.End());
    Stored(file, 80, s.NamedRefsAt(), s.StreamAt());
  }

  lemma SliceOfSlice(file: bytes, info: bytes, k: nat)
    requires Has(file, 0, 112) && file[32..112] == info && k + 16 <= 80
    ensures file[32 + k..32 + k + 16] == info[k..k + 16]
  {
  }

  lemma HeaderNumbers(repo: Repo)
    ensures Header(repo)[12] == 0 && Header(repo)[13] == 0 && Header(repo)[16..32] == Range(32, 112)
  {
    hide LE;
  }

  lemma Stored(file: bytes, at: nat, start: nat, end: nat)
    requires Has(file, at, 16) && file[at..at + 16] == Range(start, end)
    requires start < 0x1_0000_0000_0000_0000 && end < 0x1_0000_0000_0000_0000
    ensures U64(file, at) == start && U64(file, at + 8) == end
  {
    hide LE, FromLE, U64;
    Pow256Values();
    LERoundTrip(start, 8);
    LERoundTrip(end, 8);
    Eight(file, at);
    Eight(file, at + 8);
    assert file[at..at + 8] == file[at..at + 16][..8] == LE(start, 8);
    assert file[at + 8..at + 16] == file[at..at + 16][8..] == LE(end, 8);
  }
}
