/** The text of dumpfiles (dumpfile.rs, dumpfile_parse.rs): two escapers and one unescaper, and
    splitting into fields, paths and lines.  Text is UTF-8 as bytes; `None` stands for a parse
    error. */
module DumpfileText {
  import opened Bytes
  import opened Tree
  import opened ErofsFormat

  // ---- hexadecimal digits ----

  /** `\xNN` */
  function HexEscape(c: byte): bytes {
    [92, 120, HexDigit(c / 16), HexDigit(c % 16)]
  }

  function HexValue(c: byte): Option<nat> {
    if 48 <= c <= 57 then Some(c - 48)
    else if 97 <= c <= 102 then Some(c - 87)
    else if 65 <= c <= 70 then Some(c - 55)
    else None
  }

  /** `u8::from_str_radix` on two characters; the first may be a plus sign. */
  function HexPair(a: byte, b: byte): Option<byte> {
    match (HexValue(a), HexValue(b))
    case (Some(x), Some(y)) => Some(16 * x + y)
    case (None, Some(y)) => if a == 43 then Some(y) else None
    case _ => None
  }

  lemma HexRoundTrip(c: byte)
    ensures HexPair(HexDigit(c / 16), HexDigit(c % 16)) == Some(c)
    ensures 33 <= HexDigit(c / 16) <= 126 && 33 <= HexDigit(c % 16) <= 126
    ensures HexDigit(c / 16) != 61 && HexDigit(c % 16) != 61
  {
  }

  // ---- unescaping ----

  function Join(a: bytes, r: Option<bytes>): Option<bytes> {
    match r
    case None => None
    case Some(s) => Some(a + s)
  }

  predicate IsAscii(s: bytes) {
    forall i :: 0 <= i < |s| ==> s[i] < 128
  }

  /** The bytes of the first character, told by the first of them. */
  function CharSize(s: bytes): (n: nat)
    requires s != []
    ensures 1 <= n <= |s|
    ensures s[0] < 128 ==> n == 1
  {
    Min(if s[0] < 0x80 then 1 else if s[0] < 0xE0 then 2 else if s[0] < 0xF0 then 3 else 4, |s|)
  }

  /** The byte an escape stands for, and how many characters it takes after the backslash. */
  function EscapeAt(s: bytes): Option<(byte, nat)> {
    if s == [] then None
    else
      match s[0]
      case 92 => Some((92, 1))
      case 110 => Some((10, 1))
      case 114 => Some((13, 1))
      case 116 => Some((9, 1))
      case 120 =>
        if |s| < 3 then None
        else (match HexPair(s[1], s[2])
              case None => None
              case Some(c) => Some((c, 3)))
      case _ => None
  }

  lemma EscapeLength(s: bytes)
    ensures EscapeAt(s).Some? ==> 1 <= EscapeAt(s).value.1 <= |s|
  {
  }

  /** `unescape_limited`.  `room` is the limit less what has been unescaped; it is looked at
      between characters, and only for zero. */
  function Unescape(s: bytes, room: int): Option<bytes>
    decreases |s|
  {
    if s == [] then Some([])
    else if room == 0 then None
    else if s[0] != 92 then
      var n := CharSize(s);
      Join(s[..n], Unescape(s[n..], room - n))
    else
      match EscapeAt(s[1..])
      case None => None
      case Some(e) =>
        EscapeLength(s[1..]);
        Join([e.0], Unescape(s[1 + e.1..], room - 1))
  }

  /** The fast path for ASCII text without escapes, and the loop over the characters. */
  method UnescapeLimited(s: bytes, max: nat) returns (r: Option<bytes>)
    ensures r == Unescape(s, max)
  {
    hide EscapeAt;
    if 92 !in s && IsAscii(s) {
      UnescapePlain(s, max);
      return if |s| > max then None else Some(s);
    }
    var rest, out := s, [];
    Joined([], Unescape(s, max));
    while rest != []
      invariant Unescape(s, max) == Join(out, Unescape(rest, max - |out|))
      decreases |rest|
    {
      if |out| == max {
        return None;
      }
      if rest[0] != 92 {
        var n := CharSize(rest);
        JoinStep(out, rest[..n], Unescape(rest[n..], max - |out| - n));
        out, rest := out + rest[..n], rest[n..];
        continue;
      }
      var e := EscapeAt(rest[1..]);
      if e.None? {
        return None;
      }
      EscapeLength(rest[1..]);
      JoinStep(out, [e.value.0], Unescape(rest[1 + e.value.1..], max - |out| - 1));
      out, rest := out + [e.value.0], rest[1 + e.value.1..];
    }
    assert out + [] == out;
    return Some(out);
  }

  lemma Joined(a: bytes, r: Option<bytes>)
    ensures a == [] ==> Join(a, r) == r
  {
    if r.Some? {
      assert [] + r.value == r.value;
    }
  }

  lemma JoinStep(a: bytes, b: bytes, r: Option<bytes>)
    ensures Join(a, Join(b, r)) == Join(a + b, r)
  {
    if r.Some? {
      assert a + (b + r.value) == a + b + r.value;
    }
  }

  lemma {:induction false} UnescapePlain(s: bytes, max: nat)
    requires 92 !in s && IsAscii(s)
    ensures Unescape(s, max) == (if |s| > max then None else Some(s))
  {
    if s != [] && max > 0 {
      assert s == s[..1] + s[1..];
      UnescapePlain(s[1..], max - 1);
    }
  }

  /** Some character begins inside the limit and ends behind it. */
  predicate Straddles(s: bytes, room: int)
    decreases |s|
  {
    && s != [] && room > 0
    && if s[0] != 92 then
         var n := CharSize(s);
         n > room || Straddles(s[n..], room - n)
       else
         match EscapeAt(s[1..])
         case None => false
         case Some(e) =>
           EscapeLength(s[1..]);
           Straddles(s[1 + e.1..], room - 1)
  }

  /** The limit holds exactly when no character straddles it; after one that does, it is not
      looked at again. */
  lemma {:induction false} LimitHoldsIff(s: bytes, room: nat)
    requires Unescape(s, room).Some?
    ensures |Unescape(s, room).value| <= room <==> !Straddles(s, room)
    decreases |s|
  {
    hide EscapeAt, CharSize;
    if s != [] {
      if s[0] != 92 {
        if CharSize(s) <= room {
          LimitHoldsIff(s[CharSize(s)..], room - CharSize(s));
        }
      } else {
        EscapeLength(s[1..]);
        LimitHoldsIff(s[1 + EscapeAt(s[1..]).value.1..], room - 1);
      }
    }
  }

  /** ASCII text has no such character. */
  lemma {:induction false} AsciiStaysInside(s: bytes, room: nat)
    requires IsAscii(s)
    ensures !Straddles(s, room)
    decreases |s|
  {
    hide EscapeAt;
    if s != [] && room > 0 {
      if s[0] != 92 {
        AsciiStaysInside(s[1..], room - 1);
      } else if EscapeAt(s[1..]).Some? {
        EscapeLength(s[1..]);
        AsciiStaysInside(s[1 + EscapeAt(s[1..]).value.1..], room - 1);
      }
    }
  }

  // ---- the two escapers ----

  const DASH: bytes := [45]

  /** One byte as `write_escaped` writes it. */
  function WrittenByte(c: byte): bytes {
    if c < 33 || c == 61 || c == 92 || c > 126 then HexEscape(c) else [c]
  }

  datatype EscapeMode = Standard | XattrKey

  /** One byte as `escape` writes it. */
  function EscapedByte(c: byte, mode: EscapeMode): bytes {
    if 33 <= c <= 126 && c != 92 && !(mode == XattrKey && c == 61) then [c]
    else
      match c
      case 92 => [92, 92]
      case 10 => [92, 110]
      case 9 => [92, 116]
      case 13 => [92, 114]
      case _ => HexEscape(c)
  }

  function AllWritten(s: bytes): bytes {
    if s == [] then [] else WrittenByte(s[0]) + AllWritten(s[1..])
  }

  function AllEscaped(s: bytes, mode: EscapeMode): bytes {
    if s == [] then [] else EscapedByte(s[0], mode) + AllEscaped(s[1..], mode)
  }

  function Written(s: bytes): bytes {
    if s == [] then DASH else AllWritten(s)
  }

  function Escaped(s: bytes, mode: EscapeMode): bytes {
    if s == [] then DASH
    else if s == DASH then HexEscape(45)
    else AllEscaped(s, mode)
  }

  method WriteEscaped(s: bytes) returns (out: bytes)
    ensures out == Written(s)
  {
    hide WrittenByte;
    if s == [] {
      return DASH;
    }
    out := [];
    var i := 0;
    assert s[0..] == s && [] + AllWritten(s) == AllWritten(s);
    while i < |s|
      invariant 0 <= i <= |s| && out + AllWritten(s[i..]) == AllWritten(s)
    {
      assert s[i..][1..] == s[i + 1..];
      assert out + (WrittenByte(s[i]) + AllWritten(s[i + 1..])) == out + WrittenByte(s[i]) + AllWritten(s[i + 1..]);
      out := out + WrittenByte(s[i]);
      i := i + 1;
    }
    assert out + [] == out;
  }

  method Escape(s: bytes, mode: EscapeMode) returns (out: bytes)
    ensures out == Escaped(s, mode)
  {
    hide EscapedByte;
    if s == [] {
      return DASH;
    }
    if s == DASH {
      return HexEscape(45);
    }
    out := [];
    var i := 0;
    assert s[0..] == s && [] + AllEscaped(s, mode) == AllEscaped(s, mode);
    while i < |s|
      invariant 0 <= i <= |s| && out + AllEscaped(s[i..], mode) == AllEscaped(s, mode)
    {
      assert s[i..][1..] == s[i + 1..];
      assert out + (EscapedByte(s[i], mode) + AllEscaped(s[i + 1..], mode))
          == out + EscapedByte(s[i], mode) + AllEscaped(s[i + 1..], mode);
      out := out + EscapedByte(s[i], mode);
      i := i + 1;
    }
    assert out + [] == out;
  }

  /** One escaped byte, whichever escaper wrote it, unescapes to that byte. */
  ghost predicate StandsFor(e: bytes, c: byte) {
    && e != []
    && (e[0] != 92 ==> e == [c] && c < 128)
    && (e[0] == 92 ==> |e| >= 2 && forall rest: bytes :: EscapeAt(e[1..] + rest) == Some((c, |e| - 1)))
  }

  lemma HexStandsFor(c: byte)
    ensures StandsFor(HexEscape(c), c)
  {
    HexRoundTrip(c);
    forall rest: bytes
      ensures EscapeAt(HexEscape(c)[1..] + rest) == Some((c, 3))
    {
      var s := HexEscape(c)[1..] + rest;
      assert s[0] == 120 && s[1] == HexDigit(c / 16) && s[2] == HexDigit(c % 16);
    }
  }

  lemma ByteStandsFor(c: byte, mode: EscapeMode)
    ensures StandsFor(WrittenByte(c), c) && StandsFor(EscapedByte(c, mode), c)
  {
    HexStandsFor(c);
    var e := EscapedByte(c, mode);
    if e[0] == 92 && |e| == 2 {
      forall rest: bytes
        ensures EscapeAt(e[1..] + rest) == Some((c, 1))
      {
        assert (e[1..] + rest)[0] == e[1];
      }
    }
  }

  lemma UnescapeFirst(e: bytes, c: byte, rest: bytes, max: nat)
    requires StandsFor(e, c) && max > 0
    ensures Unescape(e + rest, max) == Join([c], Unescape(rest, max - 1))
  {
    hide EscapeAt;
    var s := e + rest;
    assert s[0] == e[0];
    if e[0] != 92 {
      assert s[..1] == [c] && s[1..] == rest;
    } else {
      assert s[1..] == e[1..] + rest;
      assert s[1 + (|e| - 1)..] == rest;
    }
  }

  /** Both escapers are inverted by the unescaper, up to its limit. */
  lemma {:induction false} UnescapeInverts(s: bytes, mode: EscapeMode, max: nat)
    requires |s| <= max
    ensures Unescape(AllWritten(s), max) == Some(s)
    ensures Unescape(AllEscaped(s, mode), max) == Some(s)
  {
    hide StandsFor, WrittenByte, EscapedByte, Unescape;
    if s == [] {
      UnescapeNothing(max);
    } else {
      ByteStandsFor(s[0], mode);
      UnescapeFirst(WrittenByte(s[0]), s[0], AllWritten(s[1..]), max);
      UnescapeFirst(EscapedByte(s[0], mode), s[0], AllEscaped(s[1..], mode), max);
      UnescapeInverts(s[1..], mode, max - 1);
      assert s == [s[0]] + s[1..];
    }
  }

  lemma UnescapeNothing(max: nat)
    ensures Unescape([], max) == Some([])
  {
  }

  /** Unescaping inverts each escaper on every string that is not empty; the empty string, and
      for `write_escaped` the single dash, are read as a dash. */
  lemma EscapersInverted(s: bytes, mode: EscapeMode, max: nat)
    requires |s| <= max && max > 0
    ensures Unescape(Written(s), max) == Some(s) <==> s != []
    ensures Unescape(Escaped(s, mode), max) == Some(s) <==> s != []
    ensures Written(s) == DASH <==> s == [] || s == DASH
    ensures Escaped(s, mode) == DASH <==> s == []
  {
    UnescapeInverts(s, mode, max);
    assert DASH == AllWritten(DASH) by {
      assert DASH[1..] == [] && WrittenByte(45) == [45];
    }
    HexStandsFor(45);
    UnescapeFirst(HexEscape(45), 45, [], max);
    assert HexEscape(45) + [] == HexEscape(45);
    UnescapePlain(DASH, max);
    if s != [] && s != DASH {
      NotDash(s, mode);
    }
  }

  lemma NotDash(s: bytes, mode: EscapeMode)
    requires s != [] && s != DASH
    ensures AllWritten(s) != DASH && AllEscaped(s, mode) != DASH
  {
    UnescapeInverts(s, mode, |s|);
    UnescapePlain(DASH, |s|);
  }

  /** No control character, space or newline; for `write_escaped` and for keys, no equals sign. */
  ghost predicate Visible(s: bytes) {
    forall i :: 0 <= i < |s| ==> 33 <= s[i] <= 126
  }

  ghost predicate NoEquals(s: bytes) {
    forall i :: 0 <= i < |s| ==> s[i] != 61
  }

  lemma ByteVisible(c: byte, mode: EscapeMode)
    ensures Visible(WrittenByte(c)) && NoEquals(WrittenByte(c)) && WrittenByte(c) != []
    ensures Visible(EscapedByte(c, mode)) && (mode == XattrKey ==> NoEquals(EscapedByte(c, mode)))
    ensures EscapedByte(c, mode) != []
  {
    hide HexEscape;
    HexVisible(c);
  }

  lemma HexVisible(c: byte)
    ensures Visible(HexEscape(c)) && NoEquals(HexEscape(c)) && |HexEscape(c)| == 4
  {
    hide HexDigit;
    HexRoundTrip(c);
  }

  lemma VisibleAppend(a: bytes, b: bytes)
    ensures Visible(a) && Visible(b) ==> Visible(a + b)
    ensures NoEquals(a) && NoEquals(b) ==> NoEquals(a + b)
  {
  }

  lemma {:induction false} AllVisible(s: bytes, mode: EscapeMode)
    ensures Visible(AllWritten(s)) && NoEquals(AllWritten(s))
    ensures Visible(AllEscaped(s, mode)) && (mode == XattrKey ==> NoEquals(AllEscaped(s, mode)))
    ensures s != [] ==> AllWritten(s) != [] && AllEscaped(s, mode) != []
  {
    hide WrittenByte, EscapedByte;
    if s != [] {
      ByteVisible(s[0], mode);
      AllVisible(s[1..], mode);
      VisibleAppend(WrittenByte(s[0]), AllWritten(s[1..]));
      VisibleAppend(EscapedByte(s[0], mode), AllEscaped(s[1..], mode));
    }
  }

  lemma WrittenVisible(s: bytes, mode: EscapeMode)
    ensures Visible(Written(s)) && NoEquals(Written(s)) && Written(s) != []
    ensures Visible(Escaped(s, mode)) && (mode == XattrKey ==> NoEquals(Escaped(s, mode)))
    ensures Escaped(s, mode) != []
  {
    hide WrittenByte, AllWritten, AllEscaped, HexEscape;
    AllVisible(s, mode);
    DashVisible();
  }

  lemma DashVisible()
    ensures Visible(DASH) && NoEquals(DASH) && Visible(HexEscape(45)) && NoEquals(HexEscape(45))
    ensures HexEscape(45) != []
  {
    HexVisible(45);
  }

  // ---- splitting ----

  /** `str::split` */
  function Split(s: bytes, c: byte): (parts: seq<bytes>)
    ensures parts != []
    decreases |s|
  {
    var n := FirstOf(s, c);
    if n == |s| then [s] else [s[..n]] + Split(s[n + 1..], c)
  }

  /** Fields with separators between them. */
  function Fields(parts: seq<bytes>, c: byte): bytes
    requires parts != []
  {
    if |parts| == 1 then parts[0] else parts[0] + [c] + Fields(parts[1..], c)
  }

  lemma {:induction false} SplitFields(parts: seq<bytes>, c: byte)
    requires parts != [] && forall i :: 0 <= i < |parts| ==> c !in parts[i]
    ensures Split(Fields(parts, c), c) == parts
  {
    if |parts| == 1 {
      FirstAfter(parts[0], c, []);
    } else {
      var rest := Fields(parts[1..], c);
      FirstAfter(parts[0], c, rest);
      var s := parts[0] + [c] + rest;
      assert s[..|parts[0]|] == parts[0] && s[|parts[0]| + 1..] == rest;
      SplitFields(parts[1..], c);
    }
  }

  // ---- paths ----

  const SLASH: byte := 47

  /** An absolute path from its components. */
  function PathBytes(path: Path): bytes {
    if path == [] then [SLASH] else Components(path)
  }

  function Components(path: Path): bytes {
    if path == [] then [] else [SLASH] + path[0] + Components(path[1..])
  }

  /** Repeated separators and single dots are dropped. */
  function Normal(parts: seq<bytes>): Path {
    if parts == [] then []
    else (if parts[0] == [] || parts[0] == DOT then [] else [parts[0]]) + Normal(parts[1..])
  }

  const PATH_MAX: nat := 4096

  function UnescapeToPath(s: bytes): Option<bytes> {
    match Unescape(s, |s|)
    case None => None
    case Some(p) => if 0 in p || p == [] || |p| > PATH_MAX then None else Some(p)
  }

  /** `unescape_to_path_canonical`: absolute, without "..". */
  function UnescapeToPathCanonical(s: bytes): Option<Path> {
    match UnescapeToPath(s)
    case None => None
    case Some(p) =>
      if p[0] != SLASH || DOTDOT in Split(p, SLASH) then None else Some(Normal(Split(p, SLASH)))
  }

  /** Names as they occur in directories. */
  ghost predicate PlainName(name: bytes) {
    ValidName(name) && SLASH !in name
  }

  ghost predicate PlainPath(path: Path) {
    forall i :: 0 <= i < |path| ==> PlainName(path[i])
  }

  lemma FirstSlash(s: bytes)
    requires s != [] && s[0] == SLASH
    ensures Split(s, SLASH) == [[]] + Split(s[1..], SLASH)
  {
    assert FirstOf(s, SLASH) == 0 && s[..0] == [];
  }

  lemma {:induction false} SplitComponents(path: Path)
    requires PlainPath(path) && path != []
    ensures Components(path) != [] && Components(path)[0] == SLASH
    ensures Split(Components(path), SLASH) == [[]] + path
  {
    var s := Components(path);
    var after := s[1..];
    FirstSlash(s);
    if |path| == 1 {
      assert Components(path[1..]) == [] && after == path[0];
      FirstAfter(path[0], SLASH, []);
    } else {
      SplitComponents(path[1..]);
      var t := Components(path[1..]);
      assert t == [SLASH] + t[1..];
      assert after == path[0] + [SLASH] + t[1..];
      FirstAfter(path[0], SLASH, t[1..]);
      assert after[..|path[0]|] == path[0] && after[|path[0]| + 1..] == t[1..];
      FirstSlash(t);
      assert Split(t, SLASH)[1..] == path[1..];
      assert path == [path[0]] + path[1..];
    }
  }

  lemma {:induction false} NormalPlain(path: Path)
    requires PlainPath(path)
    ensures Normal(path) == path && DOTDOT !in path
  {
    if path != [] {
      NormalPlain(path[1..]);
      assert path == [path[0]] + path[1..];
    }
  }

  lemma {:induction false} PathNulFree(path: Path)
    requires PlainPath(path)
    ensures 0 !in Components(path)
  {
    if path != [] {
      PathNulFree(path[1..]);
      assert 0 !in path[0];
    }
  }

  /** A path that was escaped, by either escaper, is found again. */
  lemma PathRoundTrip(path: Path)
    requires PlainPath(path) && |PathBytes(path)| <= PATH_MAX
    ensures UnescapeToPathCanonical(Written(PathBytes(path))) == Some(path)
    ensures UnescapeToPathCanonical(Escaped(PathBytes(path), Standard)) == Some(path)
  {
    hide Unescape, Split, AllWritten, AllEscaped, Written, Escaped, UnescapeToPath,
      UnescapeToPathCanonical;
    var p := PathBytes(path);
    PathSplits(path);
    RawPath(p, Standard);
    CanonicalOf(Written(p), p, path);
    CanonicalOf(Escaped(p, Standard), p, path);
  }

  lemma CanonicalOf(s: bytes, p: bytes, path: Path)
    requires UnescapeToPath(s) == Some(p) && p != [] && p[0] == SLASH
    requires DOTDOT !in Split(p, SLASH) && Normal(Split(p, SLASH)) == path
    ensures UnescapeToPathCanonical(s) == Some(path)
  {
  }

  lemma PathSplits(path: Path)
    requires PlainPath(path)
    ensures
      var p := PathBytes(path);
      && p != [] && p[0] == SLASH && 0 !in p
      && DOTDOT !in Split(p, SLASH) && Normal(Split(p, SLASH)) == path
  {
    hide Split;
    PathNulFree(path);
    if path == [] {
      RootSplits();
    } else {
      SplitComponents(path);
      NormalPlain(path);
      var parts: seq<bytes> := [[]] + path;
      assert parts[0] == [] && parts[1..] == path;
      assert DOTDOT !in parts;
      assert Normal(parts) == [] + Normal(path);
    }
  }

  lemma RootSplits()
    ensures
      var parts := Split([SLASH], SLASH);
      Normal(parts) == [] && DOTDOT !in parts
  {
    var parts := Split([SLASH], SLASH);
    FirstSlash([SLASH]);
    assert [SLASH][1..] == [] && Split([], SLASH) == [[]];
    assert |parts| == 2 && parts[0] == [] && parts[1] == [];
    assert Normal(parts) == Normal(parts[1..]) == Normal(parts[1..][1..]);
  }

  /** A raw path string that was escaped is found again. */
  lemma RawPath(p: bytes, mode: EscapeMode)
    requires p != [] && |p| <= PATH_MAX && 0 !in p
    ensures UnescapeToPath(Written(p)) == Some(p)
    ensures UnescapeToPath(Escaped(p, mode)) == Some(p)
  {
    hide AllWritten, AllEscaped, Unescape;
    EscapedLonger(p, mode);
    EscapersInverted(p, mode, |Written(p)|);
    EscapersInverted(p, mode, |Escaped(p, mode)|);
  }

  lemma {:induction false} AllLonger(s: bytes, mode: EscapeMode)
    ensures |AllWritten(s)| >= |s| && |AllEscaped(s, mode)| >= |s|
  {
    if s != [] {
      AllLonger(s[1..], mode);
    }
  }

  lemma EscapedLonger(s: bytes, mode: EscapeMode)
    requires s != []
    ensures |Written(s)| >= |s| && |Escaped(s, mode)| >= |s|
  {
    AllLonger(s, mode);
  }

  // ---- lines ----

  const NEWLINE: byte := 10

  /** `str::lines`: a carriage return before a newline is dropped, and so is an empty last
      line. */
  function Lines(text: bytes): seq<bytes>
    decreases |text|
  {
    if text == [] then []
    else
      var n := FirstOf(text, NEWLINE);
      if n == |text| then [text] else [Chomp(text[..n])] + Lines(text[n + 1..])
  }

  function Chomp(line: bytes): bytes {
    if line != [] && line[|line| - 1] == 13 then line[..|line| - 1] else line
  }

  function Text(lines: seq<bytes>): bytes {
    if lines == [] then [] else lines[0] + [NEWLINE] + Text(lines[1..])
  }

  /** A line as the writers make it: visible characters and spaces, not blank. */
  ghost predicate PlainLine(line: bytes) {
    && (forall i :: 0 <= i < |line| ==> 32 <= line[i] <= 126)
    && exists i :: 0 <= i < |line| && line[i] != 32
  }

  lemma FirstLine(line: bytes, rest: bytes)
    requires PlainLine(line)
    ensures Lines(line + [NEWLINE] + rest) == [line] + Lines(rest)
  {
    hide PlainLine;
    var text := line + [NEWLINE] + rest;
    PlainEnd(line);
    FirstAfter(line, NEWLINE, rest);
    assert text[..|line|] == line && text[|line| + 1..] == rest;
    if rest == [] {
      assert [line] + [] == [line];
    }
  }

  lemma PlainEnd(line: bytes)
    requires PlainLine(line)
    ensures NEWLINE !in line && Chomp(line) == line
  {
  }

  lemma {:induction false} LinesOfText(lines: seq<bytes>)
    requires forall i :: 0 <= i < |lines| ==> PlainLine(lines[i])
    ensures Lines(Text(lines)) == lines
  {
    hide PlainLine, Lines;
    if lines != [] {
      FirstLine(lines[0], Text(lines[1..]));
      LinesOfText(lines[1..]);
      assert lines == [lines[0]] + lines[1..];
    } else {
      NoLinesOfText();
    }
  }

  lemma NoLinesOfText()
    ensures Lines([]) == []
  {
  }

  /** `line.trim().is_empty()` */
  predicate Blank(line: bytes) {
    forall i :: 0 <= i < |line| ==> line[i] == 32 || 9 <= line[i] <= 13
  }
}
