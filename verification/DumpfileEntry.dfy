/** One line of a dumpfile (dumpfile_parse.rs): parsing, and printing it again. */
module DumpfileEntry {
  import opened Bytes
  import opened Numbers
  import opened DumpfileText
  import F = ErofsFormat
  import T = Tree

  datatype Item =
    | RegularInline(nlink: nat, content: bytes)
    | Regular(size: nat, nlink: nat, path: bytes, digest: Option<bytes>)
    | Device(nlink: nat, rdev: nat)
    | Symlink(nlink: nat, target: bytes)
    | Hardlink(hardTarget: T.Path)
    | Fifo(nlink: nat)
    | Directory(size: nat, nlink: nat)

  datatype Entry =
    Entry(path: T.Path, uid: nat, gid: nat, mode: nat, sec: nat, nsec: nat, item: Item,
          xattrs: seq<T.XattrPair>)

  const U32: nat := 0x1_0000_0000
  const U64: nat := 0x1_0000_0000_0000_0000
  const MAX_INLINE_CONTENT: nat := 5000
  const XATTR_NAME_MAX: nat := 255
  const XATTR_LIST_MAX: nat := 65535
  const XATTR_SIZE_MAX: nat := 65535
  const SPACE: byte := 32
  const EQUALS: byte := 61
  const AT: byte := 64
  const POINT: byte := 46

  const S_IFREG: nat := 0x8000
  const S_IFDIR: nat := 0x4000
  const S_IFCHR: nat := 0x2000
  const S_IFBLK: nat := 0x6000
  const S_IFIFO: nat := 0x1000
  const S_IFLNK: nat := 0xA000

  // ---- parsing ----

  /** The numeric fields. */
  datatype Meta =
    Meta(size: nat, hard: bool, mode: nat, nlink: nat, uid: nat, gid: nat, rdev: nat, sec: nat, nsec: nat)

  datatype Mode = Mode(hard: bool, mode: nat)

  /** An at sign anywhere marks a hardlink; what stands before it is ignored. */
  function ParseMode(s: bytes): Option<Mode> {
    var n := FirstOf(s, AT);
    var digits := if n == |s| then s else s[n + 1..];
    match ParseNumber(digits, 8, U32)
    case None => None
    case Some(m) => Some(Mode(n < |s|, m))
  }

  function ParseMtime(s: bytes): Option<(nat, nat)> {
    var n := FirstOf(s, POINT);
    if n == |s| then None
    else
      match (ParseNumber(s[..n], 10, U64), ParseNumber(s[n + 1..], 10, U64))
      case (Some(sec), Some(nsec)) => Some((sec, nsec))
      case _ => None
  }

  /** The seven fields after the path. */
  function ParseMeta(fs: seq<bytes>): Option<Meta>
    requires |fs| >= 8
  {
    match (ParseNumber(fs[1], 10, U64), ParseMode(fs[2]), ParseNumber(fs[3], 10, U32),
           ParseNumber(fs[4], 10, U32), ParseNumber(fs[5], 10, U32), ParseNumber(fs[6], 10, U64),
           ParseMtime(fs[7]))
    case (Some(size), Some(m), Some(nlink), Some(uid), Some(gid), Some(rdev), Some(t)) =>
      Some(Meta(size, m.hard, m.mode, nlink, uid, gid, rdev, t.0, t.1))
    case _ => None
  }

  /** `optional_str` */
  function Optional(s: bytes): Option<bytes> {
    if s == DASH then None else Some(s)
  }

  function ParseXattr(s: bytes): Option<T.XattrPair> {
    var n := FirstOf(s, EQUALS);
    if n == |s| then None
    else
      match (Unescape(s[..n], n), Unescape(s[n + 1..], |s|))
      case (Some(key), Some(value)) =>
        if 0 in key || |key| > XATTR_NAME_MAX || |value| > XATTR_SIZE_MAX then None
        else Some(T.XattrPair(key, value))
      case _ => None
  }

  function ParseXattrs(fs: seq<bytes>, total: nat): Option<seq<T.XattrPair>> {
    if fs == [] then Some([])
    else
      match ParseXattr(fs[0])
      case None => None
      case Some(x) =>
        if total + |x.name| > XATTR_LIST_MAX then None
        else
          match ParseXattrs(fs[1..], total + |x.name|)
          case None => None
          case Some(xs) => Some([x] + xs)
  }

  function ParseItem(m: Meta, payload: Option<bytes>, content: Option<bytes>, digest: Option<bytes>): Option<Item> {
    var ty := F.IfmtOf(m.mode);
    if m.hard then
      if ty == S_IFDIR || payload.None? then None
      else
        match UnescapeToPathCanonical(payload.value)
        case None => None
        case Some(target) => Some(Hardlink(target))
    else if ty == S_IFREG then
      if m.rdev != 0 then None
      else if payload.Some? then
        match UnescapeToPath(payload.value)
        case None => None
        case Some(path) => Some(Regular(m.size, m.nlink, path, digest))
      else
        match Unescape(if content.None? then [] else content.value, MAX_INLINE_CONTENT)
        case None => None
        case Some(c) => if digest.Some? then None else Some(RegularInline(m.nlink, c))
    else if content.Some? || digest.Some? then None
    else if ty == S_IFCHR || ty == S_IFBLK then Some(Device(m.nlink, m.rdev))
    else if m.rdev != 0 then None
    else if ty == S_IFLNK then
      if payload.None? then None
      else
        match UnescapeToPath(payload.value)
        case None => None
        case Some(target) => Some(Symlink(m.nlink, target))
    else if ty == S_IFIFO then Some(Fifo(m.nlink))
    else if ty == S_IFDIR then Some(Directory(m.size, m.nlink))
    else None
  }

  function ParseFields(fs: seq<bytes>): Option<Entry> {
    if |fs| < 11 then None
    else
      match (UnescapeToPathCanonical(fs[0]), ParseMeta(fs), ParseXattrs(fs[11..], 0))
      case (Some(path), Some(m), Some(xattrs)) =>
        (match ParseItem(m, Optional(fs[8]), Optional(fs[9]), Optional(fs[10]))
         case None => None
         case Some(item) => Some(Entry(path, m.uid, m.gid, m.mode, m.sec, m.nsec, item, xattrs)))
      case _ => None
  }

  /** `Entry::parse` */
  function Parse(line: bytes): Option<Entry> {
    ParseFields(Split(line, SPACE))
  }

  // ---- printing ----

  function XattrFields(xs: seq<T.XattrPair>): (fs: seq<bytes>)
    ensures |fs| == |xs|
  {
    seq(|xs|, i requires 0 <= i < |xs| =>
      Escaped(xs[i].name, XattrKey) + [EQUALS] + Escaped(xs[i].value, Standard))
  }

  function SizeOf(item: Item): nat {
    match item
    case Regular(size, _, _, _) => size
    case Directory(size, _) => size
    case RegularInline(_, content) => |content|
    case _ => 0
  }

  function NlinkOf(item: Item): nat {
    if item.Hardlink? then 0 else item.nlink
  }

  function RdevOf(item: Item): nat {
    if item.Device? then item.rdev else 0
  }

  function PayloadOf(item: Item): bytes {
    match item
    case Regular(_, _, path, _) => Escaped(path, Standard)
    case Symlink(_, target) => Escaped(target, Standard)
    case Hardlink(target) => Escaped(PathBytes(target), Standard)
    case _ => DASH
  }

  function ContentOf(item: Item): bytes {
    if item.RegularInline? then Escaped(item.content, Standard) else DASH
  }

  function DigestOf(item: Item): bytes {
    if item.Regular? && item.digest.Some? then item.digest.value else DASH
  }

  function NumberFields(size: nat, mode: nat, nlink: nat, uid: nat, gid: nat, rdev: nat, sec: nat, nsec: nat): (fs: seq<bytes>)
    ensures |fs| == 7
  {
    [Decimal(size), InRadix(mode, 8), Decimal(nlink), Decimal(uid), Decimal(gid), Decimal(rdev),
     Decimal(sec) + [POINT] + Decimal(nsec)]
  }

  /** `Display for Entry` */
  function Print(e: Entry): bytes {
    Fields(PrintedFields(e), SPACE)
  }

  function PrintedFields(e: Entry): (fs: seq<bytes>)
    ensures |fs| == 11 + |e.xattrs|
  {
    [Escaped(PathBytes(e.path), Standard)]
    + NumberFields(SizeOf(e.item), e.mode, NlinkOf(e.item), e.uid, e.gid, RdevOf(e.item), e.sec, e.nsec)
    + [PayloadOf(e.item), ContentOf(e.item), DigestOf(e.item)] + XattrFields(e.xattrs)
  }

  // ---- the line round trip ----

  lemma DigitsLack(s: bytes, radix: nat, c: byte)
    requires AllDigits(s, radix) && radix <= 10 && (c < 48 || c >= 58)
    ensures c !in s && FirstOf(s, c) == |s|
  {
  }

  lemma ModeParses(mode: nat)
    requires mode < U32
    ensures ParseMode(InRadix(mode, 8)) == Some(Mode(false, mode))
  {
    ParsePrinted(mode, 8, U32);
    DigitsLack(InRadix(mode, 8), 8, AT);
  }

  lemma MtimeParses(sec: nat, nsec: nat)
    requires sec < U64 && nsec < U64
    ensures ParseMtime(Decimal(sec) + [POINT] + Decimal(nsec)) == Some((sec, nsec))
    ensures SPACE !in Decimal(sec) + [POINT] + Decimal(nsec)
  {
    hide InRadix;
    ParsePrinted(sec, 10, U64);
    ParsePrinted(nsec, 10, U64);
    DigitsLack(Decimal(sec), 10, POINT);
    DigitsLack(Decimal(sec), 10, SPACE);
    DigitsLack(Decimal(nsec), 10, SPACE);
    FirstAfter(Decimal(sec), POINT, Decimal(nsec));
    var s := Decimal(sec) + [POINT] + Decimal(nsec);
    assert s[..|Decimal(sec)|] == Decimal(sec) && s[|Decimal(sec)| + 1..] == Decimal(nsec);
  }

  ghost predicate FitsNumbers(size: nat, mode: nat, nlink: nat, uid: nat, gid: nat, rdev: nat, sec: nat, nsec: nat) {
    size < U64 && mode < U32 && nlink < U32 && uid < U32 && gid < U32 && rdev < U64 && sec < U64 && nsec < U64
  }

  lemma MetaParses(fs: seq<bytes>, size: nat, mode: nat, nlink: nat, uid: nat, gid: nat, rdev: nat, sec: nat, nsec: nat)
    requires |fs| >= 8 && FitsNumbers(size, mode, nlink, uid, gid, rdev, sec, nsec)
    requires fs[1..8] == NumberFields(size, mode, nlink, uid, gid, rdev, sec, nsec)
    ensures ParseMeta(fs) == Some(Meta(size, false, mode, nlink, uid, gid, rdev, sec, nsec))
    ensures forall i :: 1 <= i < 8 ==> SPACE !in fs[i]
  {
    hide ParseNumber, InRadix, ParseMode, ParseMtime, Decimal, FirstOf;
    assert forall i :: 1 <= i < 8 ==> fs[i] == fs[1..8][i - 1];
    NumberParses(size, U64);
    NumberParses(nlink, U32);
    NumberParses(uid, U32);
    NumberParses(gid, U32);
    NumberParses(rdev, U64);
    ModeParses(mode);
    ParsePrinted(mode, 8, U32);
    DigitsLack(InRadix(mode, 8), 8, SPACE);
    MtimeParses(sec, nsec);
  }

  lemma NumberParses(n: nat, limit: nat)
    requires n < limit
    ensures ParseNumber(Decimal(n), 10, limit) == Some(n) && SPACE !in Decimal(n)
  {
    ParsePrinted(n, 10, limit);
    DigitsLack(Decimal(n), 10, SPACE);
  }

  /** Attributes that the parser takes; empty keys and values print as a dash. */
  ghost predicate GoodXattr(x: T.XattrPair) {
    0 < |x.name| <= XATTR_NAME_MAX && 0 !in x.name && 0 < |x.value| <= XATTR_SIZE_MAX
  }

  function NamesSize(xs: seq<T.XattrPair>): nat {
    if xs == [] then 0 else |xs[0].name| + NamesSize(xs[1..])
  }

  /** Either way of escaping an attribute parses. */
  lemma XattrParses(x: T.XattrPair, key: bytes, value: bytes)
    requires GoodXattr(x) && NoEquals(key) && Visible(key) && Visible(value)
    requires Unescape(key, |key|) == Some(x.name)
    requires Unescape(value, |key| + 1 + |value|) == Some(x.value)
    ensures ParseXattr(key + [EQUALS] + value) == Some(x) && SPACE !in key + [EQUALS] + value
  {
    hide Unescape, FirstOf, Visible, NoEquals;
    var s := key + [EQUALS] + value;
    VisibleLacksSpace(key);
    VisibleLacksSpace(value);
    LacksEquals(key);
    FirstAfter(key, EQUALS, value);
    assert s[..|key|] == key && s[|key| + 1..] == value;
  }

  lemma LacksEquals(s: bytes)
    requires NoEquals(s)
    ensures EQUALS !in s
  {
  }

  lemma PrintedXattr(x: T.XattrPair)
    requires GoodXattr(x)
    ensures
      var s := Escaped(x.name, XattrKey) + [EQUALS] + Escaped(x.value, Standard);
      ParseXattr(s) == Some(x) && SPACE !in s
  {
    hide Unescape, Escaped, Visible, NoEquals;
    var key, value := Escaped(x.name, XattrKey), Escaped(x.value, Standard);
    WrittenVisible(x.name, XattrKey);
    WrittenVisible(x.value, Standard);
    EscapedLonger(x.name, XattrKey);
    EscapedLonger(x.value, Standard);
    EscapersInverted(x.name, XattrKey, |key|);
    EscapersInverted(x.value, Standard, |key| + 1 + |value|);
    XattrParses(x, key, value);
  }

  /** A list of fields that parse one by one. */
  lemma {:induction false} XattrsParse(fs: seq<bytes>, xs: seq<T.XattrPair>, total: nat)
    requires |fs| == |xs| && total + NamesSize(xs) <= XATTR_LIST_MAX
    requires forall i :: 0 <= i < |xs| ==> ParseXattr(fs[i]) == Some(xs[i])
    ensures ParseXattrs(fs, total) == Some(xs)
  {
    hide ParseXattr;
    if xs != [] {
      XattrsParse(fs[1..], xs[1..], total + |xs[0].name|);
      assert xs == [xs[0]] + xs[1..];
    }
  }

  ghost predicate GoodXattrs(xs: seq<T.XattrPair>) {
    NamesSize(xs) <= XATTR_LIST_MAX && forall i :: 0 <= i < |xs| ==> GoodXattr(xs[i])
  }

  /** Fields parse to an entry when their parts do, and a line of them splits into them. */
  lemma FieldsParse(fs: seq<bytes>, path: T.Path, m: Meta, item: Item, xs: seq<T.XattrPair>)
    requires |fs| == 11 + |xs| && UnescapeToPathCanonical(fs[0]) == Some(path)
    requires ParseMeta(fs) == Some(m)
    requires ParseItem(m, Optional(fs[8]), Optional(fs[9]), Optional(fs[10])) == Some(item)
    requires NamesSize(xs) <= XATTR_LIST_MAX
    requires forall i :: 0 <= i < |xs| ==> ParseXattr(fs[11 + i]) == Some(xs[i])
    requires forall i :: 0 <= i < |fs| ==> SPACE !in fs[i]
    ensures Parse(Fields(fs, SPACE)) == Some(Entry(path, m.uid, m.gid, m.mode, m.sec, m.nsec, item, xs))
  {
    hide ParseMeta, ParseItem, ParseXattr, Split, Fields, UnescapeToPathCanonical;
    var rest := fs[11..];
    assert forall i :: 0 <= i < |rest| ==> rest[i] == fs[11 + i];
    XattrsParse(rest, xs, 0);
    SplitFields(fs, SPACE);
  }

  /** Entries that print to lines the parser takes. */
  ghost predicate GoodEntry(e: Entry) {
    && PlainPath(e.path) && |PathBytes(e.path)| <= PATH_MAX
    && FitsNumbers(SizeOf(e.item), e.mode, NlinkOf(e.item), e.uid, e.gid, RdevOf(e.item), e.sec, e.nsec)
    && GoodXattrs(e.xattrs)
    && match e.item
       case RegularInline(_, content) => F.IfmtOf(e.mode) == S_IFREG && |content| <= MAX_INLINE_CONTENT
       case Regular(_, _, path, digest) =>
         && F.IfmtOf(e.mode) == S_IFREG && GoodRaw(path)
         && (digest.Some? ==> digest.value != DASH && SPACE !in digest.value)
       case Device(_, _) => F.IfmtOf(e.mode) == S_IFCHR || F.IfmtOf(e.mode) == S_IFBLK
       case Symlink(_, target) => F.IfmtOf(e.mode) == S_IFLNK && GoodRaw(target)
       case Hardlink(_) => false
       case Fifo(_) => F.IfmtOf(e.mode) == S_IFIFO
       case Directory(_, _) => F.IfmtOf(e.mode) == S_IFDIR
  }

  ghost predicate GoodRaw(p: bytes) {
    p != [] && |p| <= PATH_MAX && 0 !in p
  }

  lemma VisibleLacksSpace(s: bytes)
    requires Visible(s)
    ensures SPACE !in s
  {
  }

  lemma EscapedField(s: bytes, mode: EscapeMode)
    ensures SPACE !in Escaped(s, mode) && SPACE !in Written(s)
  {
    hide Escaped, Written;
    WrittenVisible(s, mode);
    VisibleLacksSpace(Escaped(s, mode));
    VisibleLacksSpace(Written(s));
  }

  lemma ItemParses(e: Entry)
    requires GoodEntry(e)
    ensures
      var m := Meta(SizeOf(e.item), false, e.mode, NlinkOf(e.item), e.uid, e.gid, RdevOf(e.item), e.sec, e.nsec);
      ParseItem(m, Optional(PayloadOf(e.item)), Optional(ContentOf(e.item)), Optional(DigestOf(e.item)))
      == Some(e.item)
    ensures SPACE !in PayloadOf(e.item) && SPACE !in ContentOf(e.item) && SPACE !in DigestOf(e.item)
  {
    hide Unescape, Escaped, UnescapeToPath, GoodXattrs, PlainPath, PathBytes;
    match e.item
    case RegularInline(_, content) =>
      EscapedField(content, Standard);
      EscapersInverted(content, Standard, MAX_INLINE_CONTENT);
      UnescapeNothing(MAX_INLINE_CONTENT);
    case Regular(_, _, path, _) =>
      EscapedField(path, Standard);
      RawPath(path, Standard);
      EscapersInverted(path, Standard, |path|);
    case Symlink(_, target) =>
      EscapedField(target, Standard);
      RawPath(target, Standard);
      EscapersInverted(target, Standard, |target|);
    case _ =>
  }

  /** Parsing a printed entry that is not a hardlink gives the entry back. */
  lemma LineRoundTrip(e: Entry)
    requires GoodEntry(e)
    ensures Parse(Print(e)) == Some(e)
  {
    hide Unescape, Escaped, UnescapeToPath, UnescapeToPathCanonical, PathBytes, NumberFields, ParseMeta,
      ParseItem, ParseXattr, Fields, Parse, GoodXattr, NamesSize;
    var fs := PrintedFields(e);
    PathRoundTrip(e.path);
    EscapedField(PathBytes(e.path), Standard);
    assert fs[1..8] == NumberFields(SizeOf(e.item), e.mode, NlinkOf(e.item), e.uid, e.gid, RdevOf(e.item), e.sec, e.nsec);
    MetaParses(fs, SizeOf(e.item), e.mode, NlinkOf(e.item), e.uid, e.gid, RdevOf(e.item), e.sec, e.nsec);
    ItemParses(e);
    forall i | 0 <= i < |e.xattrs|
      ensures ParseXattr(fs[11 + i]) == Some(e.xattrs[i]) && SPACE !in fs[11 + i]
    {
      PrintedXattr(e.xattrs[i]);
    }
    forall i | 0 <= i < |fs|
      ensures SPACE !in fs[i]
    {
      if i >= 11 {
        assert SPACE !in fs[11 + (i - 11)];
      }
    }
    FieldsParse(fs, e.path, Meta(SizeOf(e.item), false, e.mode, NlinkOf(e.item), e.uid, e.gid,
                                 RdevOf(e.item), e.sec, e.nsec), e.item, e.xattrs);
  }
}
