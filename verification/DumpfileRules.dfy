/** The text of dumpfiles character by character, and what a line must be to be taken. */
module DumpfileRules {
  import opened Bytes
  import opened Numbers
  import opened DumpfileText
  import opened DumpfileEntry
  import opened Dumpfile
  import opened DumpfileLines
  import T = Tree

  // ---- characters ----

  /** `\xNN` in lower-case hexadecimal. */
  predicate HexOf(c: byte, text: bytes) {
    && |text| == 4 && text[0] == 92 && text[1] == 120
    && text[2] == (if c / 16 < 10 then 48 + c / 16 else 97 + c / 16 - 10)
    && text[3] == (if c % 16 < 10 then 48 + c % 16 else 97 + c % 16 - 10)
  }

  /** A byte in the text of the writer: itself when it is printable and no equals sign and no
      backslash, in hexadecimal otherwise. */
  predicate WritesByte(c: byte, text: bytes) {
    if 33 <= c <= 126 && c != 61 && c != 92 then text == [c] else HexOf(c, text)
  }

  /** A byte in the text that is printed: tabs, line ends and backslashes have short escapes, and in
      names an equals sign is written in hexadecimal. */
  predicate PrintsByte(c: byte, mode: EscapeMode, text: bytes) {
    if c == 92 then text == [92, 92]
    else if c == 10 then text == [92, 110]
    else if c == 13 then text == [92, 114]
    else if c == 9 then text == [92, 116]
    else if 33 <= c <= 126 && !(mode == XattrKey && c == 61) then text == [c]
    else HexOf(c, text)
  }

  /** The text is made of the texts of the bytes. */
  ghost predicate Writes(s: bytes, text: bytes) {
    if s == [] then text == []
    else exists k: nat :: k <= |text| && WritesByte(s[0], text[..k]) && Writes(s[1..], text[k..])
  }

  ghost predicate Prints(s: bytes, mode: EscapeMode, text: bytes) {
    if s == [] then text == []
    else exists k: nat :: k <= |text| && PrintsByte(s[0], mode, text[..k]) && Prints(s[1..], mode, text[k..])
  }

  lemma {:induction false} AllWrites(s: bytes)
    ensures Writes(s, AllWritten(s))
  {
    hide WrittenByte, WritesByte;
    if s != [] {
      AllWrites(s[1..]);
      var text, k := AllWritten(s), |WrittenByte(s[0])|;
      OneWrites(s[0]);
      assert text[..k] == WrittenByte(s[0]) && text[k..] == AllWritten(s[1..]);
    }
  }

  lemma OneWrites(c: byte)
    ensures WritesByte(c, WrittenByte(c))
  {
  }

  lemma {:induction false} AllPrints(s: bytes, mode: EscapeMode)
    ensures Prints(s, mode, AllEscaped(s, mode))
  {
    hide EscapedByte, PrintsByte;
    if s != [] {
      AllPrints(s[1..], mode);
      var text, k := AllEscaped(s, mode), |EscapedByte(s[0], mode)|;
      OnePrints(s[0], mode);
      assert text[..k] == EscapedByte(s[0], mode) && text[k..] == AllEscaped(s[1..], mode);
    }
  }

  lemma OnePrints(c: byte, mode: EscapeMode)
    ensures PrintsByte(c, mode, EscapedByte(c, mode))
  {
  }

  /** What the two escapers make of a string: a dash of nothing, and the texts of its bytes. */
  lemma EscapersSay(s: bytes, mode: EscapeMode)
    ensures if s == [] then Written(s) == [45] else Writes(s, Written(s))
    ensures
      if s == [] then Escaped(s, mode) == [45]
      else if s == [45] then Escaped(s, mode) == [92, 120, 50, 100]
      else Prints(s, mode, Escaped(s, mode))
  {
    hide WrittenByte, EscapedByte;
    AllWrites(s);
    AllPrints(s, mode);
  }

  // ---- printed lines ----

  /** Size, mode, links, owner, device and time of a printed entry. */
  lemma PrintedNumbers(e: Entry)
    requires e.sec < 0x1_0000_0000_0000_0000 && e.nsec < 0x1_0000_0000_0000_0000
    ensures
      var f := PrintedFields(e);
      && NumberIs(f[2], 8, e.mode) && NumberIs(f[4], 10, e.uid) && NumberIs(f[5], 10, e.gid)
      && ParseMtime(f[7]) == Some((e.sec, e.nsec))
      && match e.item
         case RegularInline(nlink, data) => NumberIs(f[1], 10, |data|) && NumberIs(f[3], 10, nlink) && f[6] == [48]
         case Regular(size, nlink, _, _) => NumberIs(f[1], 10, size) && NumberIs(f[3], 10, nlink) && f[6] == [48]
         case Device(nlink, rdev) => f[1] == [48] && NumberIs(f[3], 10, nlink) && NumberIs(f[6], 10, rdev)
         case Symlink(nlink, _) => f[1] == [48] && NumberIs(f[3], 10, nlink) && f[6] == [48]
         case Hardlink(_) => f[1] == [48] && f[3] == [48] && f[6] == [48]
         case Fifo(nlink) => f[1] == [48] && NumberIs(f[3], 10, nlink) && f[6] == [48]
         case Directory(size, nlink) => NumberIs(f[1], 10, size) && NumberIs(f[3], 10, nlink) && f[6] == [48]
  {
    hide InRadix, NumberIs, ParseMtime, Escaped, PathBytes;
    NumberWritten(SizeOf(e.item), 10);
    NumberWritten(e.mode, 8);
    NumberWritten(NlinkOf(e.item), 10);
    NumberWritten(e.uid, 10);
    NumberWritten(e.gid, 10);
    NumberWritten(RdevOf(e.item), 10);
    MtimeParses(e.sec, e.nsec);
    ZeroPrinted();
  }

  lemma ZeroPrinted()
    ensures Decimal(0) == [48]
  {
  }

  // ---- which lines are taken ----

  function TypeOf(mode: nat): nat {
    mode / 0x1000 % 16
  }

  /** What the fields of a line say of its kind, by the type in the mode: 8 a regular file, 4 a
      directory, 2 and 6 devices, 10 a symlink, 1 a fifo.  A mark makes a hardlink of anything but a
      directory.  Only regular files have contents or a digest, of these not both without a path,
      and only devices have a device number. */
  ghost predicate KindIs(f: seq<bytes>, e: Entry, marked: bool, rdev: nat)
    requires |f| >= 11
  {
    if marked then TypeOf(e.mode) != 4 && f[8] != [45] && e.item.Hardlink?
    else if TypeOf(e.mode) == 8 then
      && rdev == 0
      && if f[8] != [45] then e.item.Regular? && (e.item.digest.None? <==> f[10] == [45])
         else e.item.RegularInline? && f[10] == [45]
    else
      && f[9] == [45] && f[10] == [45]
      && if TypeOf(e.mode) == 2 || TypeOf(e.mode) == 6 then e.item.Device? && e.item.rdev == rdev
         else
           && rdev == 0
           && ((TypeOf(e.mode) == 10 && f[8] != [45] && e.item.Symlink?)
               || (TypeOf(e.mode) == 1 && e.item.Fifo?)
               || (TypeOf(e.mode) == 4 && e.item.Directory?))
  }

  /** Names and values are short enough, and so are all names together. */
  ghost predicate XattrsFit(xs: seq<T.XattrPair>) {
    && (forall i :: 0 <= i < |xs| ==> 0 !in xs[i].name && |xs[i].name| <= 255 && |xs[i].value| <= 65535)
    && Names(xs) <= 65535
  }

  function Names(xs: seq<T.XattrPair>): nat {
    if xs == [] then 0 else |xs[0].name| + Names(xs[1..])
  }

  lemma {:induction false} XattrsTaken(fs: seq<bytes>, total: nat)
    requires ParseXattrs(fs, total).Some? && total <= 65535
    ensures
      var xs := ParseXattrs(fs, total).value;
      && |xs| == |fs| && total + Names(xs) <= 65535
      && forall i :: 0 <= i < |xs| ==> 0 !in xs[i].name && |xs[i].name| <= 255 && |xs[i].value| <= 65535
  {
    if fs != [] {
      var x := ParseXattr(fs[0]).value;
      XattrTaken(fs[0]);
      XattrsTaken(fs[1..], total + |x.name|);
      var xs := ParseXattrs(fs, total).value;
      assert xs[1..] == ParseXattrs(fs[1..], total + |x.name|).value;
    }
  }

  lemma XattrTaken(field: bytes)
    ensures
      match ParseXattr(field)
      case None => true
      case Some(x) => 0 !in x.name && |x.name| <= 255 && |x.value| <= 65535
  {
    hide Unescape;
  }

  /** A path in a field: not empty, no NUL, at most 4096 bytes. */
  ghost predicate PathFits(field: bytes) {
    && Unescape(field, |field|).Some?
    && var p := Unescape(field, |field|).value;
    p != [] && 0 !in p && |p| <= 4096
  }

  /** A line that is taken has eleven fields or more; its numbers are numbers of their fields' sizes,
      its paths and attributes are inside their limits, and its kind is allowed.  Sockets and unknown types are never taken. */
  lemma TakenLines(line: bytes)
    ensures
      var f := Split(line, SPACE);
      match Parse(line)
      case None => true
      case Some(e) =>
        && |f| >= 11 && UnescapeToPathCanonical(f[0]) == Some(e.path)
        && ParseNumber(f[1], 10, 0x1_0000_0000_0000_0000).Some? && ParseNumber(f[3], 10, 0x1_0000_0000).Some?
        && ParseNumber(f[4], 10, 0x1_0000_0000) == Some(e.uid) && ParseNumber(f[5], 10, 0x1_0000_0000) == Some(e.gid)
        && ParseNumber(f[6], 10, 0x1_0000_0000_0000_0000).Some?
        && PathFits(f[0]) && XattrsFit(e.xattrs)
        && (e.item.Hardlink? || e.item.Symlink? || e.item.Regular? ==> PathFits(f[8]))
        && KindIs(f, e, 64 in f[2], ParseNumber(f[6], 10, 0x1_0000_0000_0000_0000).value)
  {
    hide ParseNumber, Unescape, Split, ParseXattrs, ParseMtime, Normal;
    var f := Split(line, SPACE);
    if Parse(line).Some? {
      XattrsTaken(f[11..], 0);
      var n := FirstOf(f[2], AT);
      assert 64 in f[2] <==> n < |f[2]|;
    }
  }

  // ---- which texts are taken ----

  /** Lines end at a newline, without a carriage return before it; the last one may end with the
      text. */
  ghost predicate SplitsInto(text: bytes, lines: seq<bytes>)
    decreases |text|
  {
    if text == [] then lines == []
    else if 10 !in text then lines == [text]
    else
      exists n: nat ::
        && n < |text| && text[n] == 10 && 10 !in text[..n] && lines != []
        && lines[0] == (if n > 0 && text[n - 1] == 13 then text[..n - 1] else text[..n])
        && SplitsInto(text[n + 1..], lines[1..])
  }

  lemma {:induction false} LinesAre(text: bytes)
    ensures SplitsInto(text, Lines(text))
    decreases |text|
  {
    if text != [] {
      var n := FirstOf(text, 10);
      if n < |text| {
        LinesAre(text[n + 1..]);
        var lines := Lines(text);
        assert lines[1..] == Lines(text[n + 1..]);
        assert text[n] == 10 && 10 !in text[..n] && lines[0] == Chomp(text[..n]);
        assert n > 0 ==> text[..n][n - 1] == text[n - 1] && text[..n][..n - 1] == text[..n - 1];
        assert lines[0] == (if n > 0 && text[n - 1] == 13 then text[..n - 1] else text[..n]);
        assert SplitsInto(text[n + 1..], lines[1..]);
      }
    }
  }

  /** Nothing but spaces, tabs and line ends. */
  predicate Empty(line: bytes) {
    forall i :: 0 <= i < |line| ==> line[i] in [9, 10, 11, 12, 13, 32]
  }

  lemma EmptyIsBlank(line: bytes)
    ensures Blank(line) <==> Empty(line)
  {
  }

  lemma {:induction false} EntriesParse(lines: seq<bytes>)
    requires EntriesOf(lines).Some?
    ensures forall i :: 0 <= i < |lines| && !Empty(lines[i]) ==> Parse(lines[i]).Some?
    ensures
      var es := EntriesOf(lines).value;
      es != [] ==> exists i: nat :: FirstEntry(lines, i, es[0])
  {
    hide Parse, Blank, Empty;
    if lines != [] {
      EmptyIsBlank(lines[0]);
      EntriesParse(lines[1..]);
      forall i | 0 <= i < |lines| && !Empty(lines[i])
        ensures Parse(lines[i]).Some?
      {
        if i > 0 {
          assert lines[i] == lines[1..][i - 1];
        }
      }
      var es := EntriesOf(lines).value;
      if es != [] {
        if Blank(lines[0]) {
          var j: nat :| FirstEntry(lines[1..], j, es[0]);
          assert forall k :: 0 < k < j + 1 ==> lines[k] == lines[1..][k - 1];
          assert FirstEntry(lines, j + 1, es[0]);
        } else {
          assert FirstEntry(lines, 0, es[0]);
        }
      }
    }
  }

  /** The first line with anything in it. */
  ghost predicate FirstEntry(lines: seq<bytes>, i: nat, e: Entry) {
    && i < |lines| && !Empty(lines[i]) && Parse(lines[i]) == Some(e)
    && forall k :: 0 <= k < i ==> Empty(lines[k])
  }

  /** A text is taken only when every line with anything in it is, and the first of them is that of
      the root. */
  lemma TakenTexts(text: bytes, idSize: nat)
    requires Build(Lines(text), idSize).Some?
    ensures
      var lines := Lines(text);
      && SplitsInto(text, lines)
      && (forall i :: 0 <= i < |lines| && !Empty(lines[i]) ==> Parse(lines[i]).Some?)
      && exists i: nat, e :: FirstEntry(lines, i, e) && e.path == []
  {
    hide Parse, Empty, Blank, AddAll, Finished, Lines, SplitsInto, FirstEntry;
    LinesAre(text);
    EntriesParse(Lines(text));
    var e := EntriesOf(Lines(text)).value[0];
    var i: nat :| FirstEntry(Lines(text), i, e);
  }
}
