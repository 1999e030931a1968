/** Which trees survive the dumpfile text: of those within the limits of the parser, exactly
    those without hardlinks and without the few values for which the text has no words. */
module DumpfileExact {
  import opened Bytes
  import opened Numbers
  import opened DumpfileText
  import opened DumpfileEntry
  import opened Dumpfile
  import opened DumpfileLinks
  import opened DumpfileTheorem
  import F = ErofsFormat
  import T = Tree

  // ---- the limits ----

  ghost predicate WithinStat(stat: T.Stat) {
    && stat.mode < 0x1000 && SortedXattrs(stat.xattrs)
    && DumpfileEntry.NamesSize(stat.xattrs) <= XATTR_LIST_MAX
    && forall i :: 0 <= i < |stat.xattrs| ==> WithinXattr(stat.xattrs[i])
  }

  ghost predicate WithinXattr(x: T.XattrPair) {
    |x.name| <= XATTR_NAME_MAX && 0 !in x.name && |x.value| <= XATTR_SIZE_MAX
  }

  ghost predicate WithinContent(c: T.LeafContent, idSize: nat) {
    match c
    case Inline(data) => |data| <= MAX_INLINE_CONTENT
    case External(id, _) => id != [] && |id| == idSize && 1 + 2 * idSize <= PATH_MAX
    case Symlink(target) => |target| <= PATH_MAX && 0 !in target
    case _ => true
  }

  ghost predicate Within(path: T.Path, inode: Inode, idSize: nat)
    decreases inode
  {
    && PlainPath(path) && |PathBytes(path)| <= PATH_MAX && WithinStat(inode.stat)
    && match inode
       case Leaf(_, content) => WithinContent(content, idSize)
       case Dir(_, es) => 2 + Subdirs(es) < U32 && SortedChildren(es) && ChildrenWithin(path, es, idSize)
  }

  ghost predicate ChildrenWithin(path: T.Path, es: Children, idSize: nat)
    decreases es
  {
    match es
    case Nil => true
    case Cons(n, inode, rest) => Within(path + [n], inode, idSize) && ChildrenWithin(path, rest, idSize)
  }

  // ---- what cannot be said ----

  /** The parser takes the line: times are not negative, nothing is a socket, and no symlink
      target is empty or a single dash. */
  ghost predicate Readable(inode: Inode) {
    && inode.stat.mtime >= 0
    && match inode
       case Leaf(_, content) => ReadableContent(content)
       case Dir(_, es) => ChildrenReadable(es)
  }

  ghost predicate ReadableContent(c: T.LeafContent) {
    !c.Socket? && (c.Symlink? ==> c.target != [] && c.target != DASH)
  }

  ghost predicate ChildrenReadable(es: Children) {
    match es
    case Nil => true
    case Cons(_, inode, rest) => Readable(inode) && ChildrenReadable(rest)
  }

  /** The line is not taken for another: no attribute has an empty name or value, and no body
      is a single dash. */
  ghost predicate Distinct(inode: Inode) {
    && NoneEmpty(inode.stat.xattrs)
    && match inode
       case Leaf(_, content) => content != T.Inline(DASH)
       case Dir(_, es) => ChildrenDistinct(es)
  }

  ghost predicate NoneEmpty(xs: seq<T.XattrPair>) {
    forall x :: x in xs ==> x.name != [] && x.value != []
  }

  ghost predicate ChildrenDistinct(es: Children) {
    match es
    case Nil => true
    case Cons(_, inode, rest) => Distinct(inode) && ChildrenDistinct(rest)
  }

  lemma {:induction false} WithinFits(path: T.Path, inode: Inode, idSize: nat)
    requires Within(path, inode, idSize)
    ensures Readable(inode) && Distinct(inode) ==> FitsTree(path, inode, idSize)
    decreases inode
  {
    hide PlainPath, PathBytes, SortedXattrs, DumpfileEntry.NamesSize;
    assert forall i :: 0 <= i < |inode.stat.xattrs| ==> inode.stat.xattrs[i] in inode.stat.xattrs;
    if inode.Dir? {
      ChildrenFit(path, inode.children, idSize);
    }
  }

  lemma {:induction false} ChildrenFit(path: T.Path, es: Children, idSize: nat)
    requires ChildrenWithin(path, es, idSize)
    ensures ChildrenReadable(es) && ChildrenDistinct(es) ==> FitsChildren(path, es, idSize)
    decreases es
  {
    hide Within, FitsTree;
    if es.Cons? {
      WithinFits(path + [es.name], es.inode, idSize);
      ChildrenFit(path, es.rest, idSize);
    }
  }

  // ---- what a parsed line says ----

  /** An entry that no writing of a dash is mistaken for. */
  ghost predicate Kept(e: Entry) {
    && NoneEmpty(e.xattrs) && !e.item.Hardlink?
    && (e.item.RegularInline? ==> e.item.content != DASH)
  }

  lemma {:induction false} OnlyDigits(s: bytes, radix: nat)
    requires Digits(s, radix).Some?
    ensures AllDigits(s, radix)
    decreases |s|
  {
    if s != [] {
      OnlyDigits(s[..|s| - 1], radix);
    }
  }

  /** A time before 1970 is written with a sign, which the parser does not take. */
  lemma NoNegativeTimes(mtime: int)
    requires mtime < 0
    ensures ParseMtime(MtimeField(mtime)).None?
  {
    hide InRadix, Digits;
    var sec, s := [45] + Decimal(-mtime), MtimeField(mtime);
    ParsePrinted(-mtime, 10, -mtime + 1);
    DigitsLack(Decimal(-mtime), 10, POINT);
    FirstAfter(sec, POINT, Decimal(0));
    assert s[..|sec|] == sec && !IsDigit(sec[0], 10);
    if Digits(sec, 10).Some? {
      OnlyDigits(sec, 10);
    }
  }

  lemma NotEmptied(s: bytes, limit: nat)
    requires s != []
    ensures Unescape(s, limit) != Some([])
  {
  }

  lemma PairKept(x: T.XattrPair)
    ensures
      var r := ParseXattr(Written(x.name) + [EQUALS] + Written(x.value));
      r.Some? ==> r.value.name != [] && r.value.value != []
  {
    hide Written, FirstOf, Unescape;
    var key, value := Written(x.name), Written(x.value);
    var s := key + [EQUALS] + value;
    WrittenVisible(x.name, XattrKey);
    WrittenVisible(x.value, Standard);
    LacksEquals(key);
    FirstAfter(key, EQUALS, value);
    assert s[..|key|] == key && s[|key| + 1..] == value;
    NotEmptied(key, |key|);
    NotEmptied(value, |s|);
  }

  lemma {:induction false} PairsKept(fs: seq<bytes>, total: nat)
    requires forall i :: 0 <= i < |fs| ==>
      ParseXattr(fs[i]).Some? ==> ParseXattr(fs[i]).value.name != [] && ParseXattr(fs[i]).value.value != []
    ensures ParseXattrs(fs, total).Some? ==> NoneEmpty(ParseXattrs(fs, total).value)
  {
    hide ParseXattr;
    if fs != [] && ParseXattr(fs[0]).Some? {
      PairsKept(fs[1..], total + |ParseXattr(fs[0]).value.name|);
    }
  }

  /** What is known of a written line that parses. */
  lemma ParsedLine(path: T.Path, stat: T.Stat, t: F.FileType, size: nat, nlink: nat, rdev: nat,
                   payload: bytes, content: bytes, digest: Option<bytes>) returns (m: Meta)
    requires stat.mode < 0x1000
    requires digest.Some? ==> Visible(digest.value) && digest.value != [] && digest.value != DASH
    ensures
      var fs := WrittenFields(path, stat, t.Ifmt(), size, nlink, rdev, payload, content, digest);
      var r := Parse(Fields(fs, SPACE));
      && PlainLine(Fields(fs, SPACE)) && !Blank(Fields(fs, SPACE))
      && (r.Some? ==>
            && stat.mtime >= 0 && NoneEmpty(r.value.xattrs)
            && !m.hard && F.IfmtOf(m.mode) == t.Ifmt()
            && ParseItem(m, Optional(Written(payload)), Optional(Written(content)), digest)
               == Some(r.value.item))
  {
    hide Written, PathBytes, InRadix, Decimal, BitOr, Visible, WrittenFields, MtimeField, ParseMode, ParseMtime,
      ParseItem, ParseXattrs, Fields, Blank, PlainLine, UnescapeToPathCanonical, Digits, ParseXattr;
    var fs := WrittenFields(path, stat, t.Ifmt(), size, nlink, rdev, payload, content, digest);
    m := Meta(0, false, 0, 0, 0, 0, 0, 0, 0);
    WrittenParts(path, stat, t, size, nlink, rdev, payload, content, digest);
    FieldsVisible(path, stat, t, size, nlink, rdev, payload, content, digest);
    FieldsPlain(fs);
    forall i | 0 <= i < |fs|
      ensures SPACE !in fs[i]
    {
      VisibleLacksSpace(fs[i]);
    }
    SplitFields(fs, SPACE);
    var r := ParseFields(fs);
    if r.Some? {
      m := ParseMeta(fs).value;
      ModeParts(t, stat.mode);
      ModeParses(BitOr(stat.mode, t.Ifmt()));
      if stat.mtime < 0 {
        NoNegativeTimes(stat.mtime);
      }
      forall i | 0 <= i < |stat.xattrs|
        ensures ParseXattr(fs[11..][i]).Some? ==>
          ParseXattr(fs[11..][i]).value.name != [] && ParseXattr(fs[11..][i]).value.value != []
      {
        PairKept(stat.xattrs[i]);
        assert fs[11..][i] == fs[11 + i];
      }
      PairsKept(fs[11..], 0);
      DigestOptional(fs[10], digest);
    }
  }

  lemma LeafSays(path: T.Path, stat: T.Stat, c: T.LeafContent, nlink: nat, idSize: nat)
    requires stat.mode < 0x1000 && WithinContent(c, idSize)
    ensures c.External? ==> c.id != []
    ensures
      var line := Fields(LeafFields(path, stat, c, nlink), SPACE);
      && PlainLine(line) && !Blank(line)
      && (Parse(line).Some? ==> stat.mtime >= 0 && ReadableContent(c) && Kept(Parse(line).value))
  {
    hide Unescape, UnescapeToPath, Written, PathBytes, Parse, Fields, WrittenFields, BitOr, F.ObjectPathname,
      F.Hex, Visible, Blank, PlainLine, NoneEmpty;
    var t := F.FileTypeOfContent(c);
    EmptyIsDash();
    match c
    case Inline(data) =>
      EscapersInverted(data, Standard, MAX_INLINE_CONTENT);
      UnescapeNothing(MAX_INLINE_CONTENT);
      var m := ParsedLine(path, stat, t, |data|, nlink, 0, [], data, None);
    case External(id, size) =>
      PathnameGood(id);
      HexInverts(id);
      EscapersInverted(F.ObjectPathname(id), Standard, |F.ObjectPathname(id)|);
      var m := ParsedLine(path, stat, t, size, nlink, 0, F.ObjectPathname(id), [], Some(F.Hex(id)));
    case BlockDevice(rdev) =>
      var m := ParsedLine(path, stat, t, 0, nlink, rdev, [], [], None);
    case CharacterDevice(rdev) =>
      var m := ParsedLine(path, stat, t, 0, nlink, rdev, [], [], None);
    case Fifo =>
      var m := ParsedLine(path, stat, t, 0, nlink, 0, [], [], None);
    case Socket =>
      var m := ParsedLine(path, stat, t, 0, nlink, 0, [], [], None);
    case Symlink(target) =>
      EscapersInverted(target, Standard, |target| + 1);
      var m := ParsedLine(path, stat, t, |target|, nlink, 0, target, [], None);
  }

  /** The first line of a leaf can be read when the leaf can, a later one never. */
  lemma FileSays(leaves: seq<T.Leaf>, path: T.Path, id: nat, seen: map<nat, T.Path>, idSize: nat)
    requires HasIds(leaves) && id < |leaves|
    requires leaves[id].stat.mode < 0x1000 && WithinContent(leaves[id].content, idSize)
    ensures
      var line := Fields(FileFields(leaves, path, id, seen), SPACE);
      && PlainLine(line) && !Blank(line)
      && (Parse(line).Some? ==>
            && leaves[id].stat.mtime >= 0 && ReadableContent(leaves[id].content)
            && !(leaves[id].links > 1 && id in seen) && Kept(Parse(line).value))
  {
    hide Fields, LeafFields, HardlinkFields, Parse, PlainLine, Blank, ReadableContent, Kept, WithinContent;
    var leaf := leaves[id];
    if leaf.links > 1 && id in seen {
      HardlinkLinesFail(path, PathBytes(seen[id]));
      HardlinkVisible(path, PathBytes(seen[id]));
      FieldsPlain(HardlinkFields(path, PathBytes(seen[id])));
    } else {
      LeafSays(path, leaf.stat, leaf.content, leaf.links, idSize);
    }
  }

  lemma HardlinkVisible(path: T.Path, target: bytes)
    ensures
      var fs := HardlinkFields(path, target);
      forall i :: 0 <= i < |fs| ==> Visible(fs[i]) && fs[i] != []
  {
    hide Written;
    WrittenVisible(PathBytes(path), Standard);
    WrittenVisible(target, Standard);
  }

  lemma DirSays(path: T.Path, stat: T.Stat, nlink: nat)
    requires stat.mode < 0x1000
    ensures
      var line := Fields(DirFields(path, stat, nlink), SPACE);
      && PlainLine(line) && !Blank(line)
      && (Parse(line).Some? ==> stat.mtime >= 0 && Kept(Parse(line).value))
  {
    hide Written, PathBytes, Parse, Fields, WrittenFields, BitOr, Visible, Blank, PlainLine, NoneEmpty;
    EmptyIsDash();
    var m := ParsedLine(path, stat, F.FileType.Directory, 0, nlink, 0, [], [], None);
  }

  // ---- what all lines say ----

  /** Lines as the writer makes them, whatever they say. */
  ghost predicate Plain(lines: seq<bytes>) {
    forall i :: 0 <= i < |lines| ==>
      PlainLine(lines[i]) && !Blank(lines[i]) && (Parse(lines[i]).Some? ==> Kept(Parse(lines[i]).value))
  }

  ghost predicate AllParse(lines: seq<bytes>) {
    forall i :: 0 <= i < |lines| ==> Parse(lines[i]).Some?
  }

  lemma PlainAppend(a: seq<bytes>, b: seq<bytes>)
    ensures Plain(a + b) <==> Plain(a) && Plain(b)
    ensures AllParse(a + b) <==> AllParse(a) && AllParse(b)
  {
    hide Parse, PlainLine, Blank, Kept;
    assert forall i :: 0 <= i < |a| ==> (a + b)[i] == a[i];
    assert forall i :: 0 <= i < |b| ==> (a + b)[|a| + i] == b[i];
  }

  lemma {:induction false} TreeSays(leaves: seq<T.Leaf>, path: T.Path, node: T.Node, seen: map<nat, T.Path>,
                                    idSize: nat)
    requires HasIds(leaves) && InRange(node, |leaves|) && Within(path, ValueOf(leaves, node), idSize)
    ensures Below(Ids(node), |leaves|)
    ensures
      var lines := NodeLines(leaves, path, node, seen).lines;
      && Plain(lines)
      && (AllParse(lines) ==> Readable(ValueOf(leaves, node)) && Fresh(leaves, Ids(node), seen.Keys))
    decreases node
  {
    hide PlainPath, PathBytes, SortedXattrs, DumpfileEntry.NamesSize, Parse, PlainLine, Blank, Kept, Fields,
      FileFields, DirFields, WithinXattr, Plain, AllParse, ReadableContent, WithinContent;
    IdsBelow(node, |leaves|);
    match node
    case File(id) =>
      FileSays(leaves, path, id, seen, idSize);
      OneLine(Fields(FileFields(leaves, path, id, seen), SPACE));
    case Dir(stat, es) =>
      var nlink := 2 + T.Subdirectories(es);
      var line := Fields(DirFields(path, stat, nlink), SPACE);
      DirSays(path, stat, nlink);
      OneLine(line);
      ChildrenSay(leaves, path, es, seen, idSize);
      PlainAppend([line], EntryLines(leaves, path, es, seen).lines);
  }

  lemma OneLine(line: bytes)
    ensures Plain([line]) <==>
      PlainLine(line) && !Blank(line) && (Parse(line).Some? ==> Kept(Parse(line).value))
    ensures AllParse([line]) <==> Parse(line).Some?
  {
    hide Parse, PlainLine, Blank, Kept;
    assert [line][0] == line;
  }

  lemma {:induction false} ChildrenSay(leaves: seq<T.Leaf>, path: T.Path, es: T.Entries, seen: map<nat, T.Path>,
                                       idSize: nat)
    requires HasIds(leaves) && EntriesInRange(es, |leaves|)
    requires ChildrenWithin(path, ValuesOf(leaves, es), idSize)
    ensures Below(EntryIds(es), |leaves|)
    ensures
      var lines := EntryLines(leaves, path, es, seen).lines;
      && Plain(lines)
      && (AllParse(lines) ==>
            ChildrenReadable(ValuesOf(leaves, es)) && Fresh(leaves, EntryIds(es), seen.Keys))
    decreases es
  {
    hide Within, NodeLines, Parse, PlainLine, Blank, Kept, Readable, HasIds;
    match es
    case Empty =>
    case More(n, node, rest) =>
      var first := NodeLines(leaves, path + [n], node, seen);
      TreeSays(leaves, path + [n], node, seen, idSize);
      ChildrenSay(leaves, path, rest, first.seen, idSize);
      SeenIs(leaves, path + [n], node, seen);
      hide Plain, AllParse, Fresh, Marked, Below;
      FreshAppend(leaves, Ids(node), EntryIds(rest), seen.Keys);
      PlainAppend(first.lines, EntryLines(leaves, path, rest, first.seen).lines);
  }

  // ---- what is built from them ----

  lemma {:induction false} MapMembers(xs: seq<T.XattrPair>)
    ensures forall x :: x in XattrMap(xs) ==> x in xs
    decreases |xs|
  {
    if xs != [] {
      var n := |xs| - 1;
      MapMembers(xs[..n]);
      PutMembers(XattrMap(xs[..n]), xs[n]);
    }
  }

  lemma {:induction false} PutMembers(xs: seq<T.XattrPair>, x: T.XattrPair)
    ensures forall y :: y in PutXattr(xs, x) ==> y in xs || y == x
  {
    if xs != [] {
      PutMembers(xs[1..], x);
    }
  }

  lemma {:induction false} PutDistinct(es: Children, n: bytes, inode: Inode)
    requires ChildrenDistinct(es) && Distinct(inode)
    ensures ChildrenDistinct(Put(es, n, inode))
  {
    hide Distinct;
    if es.Cons? {
      PutDistinct(es.rest, n, inode);
    }
  }

  lemma {:induction false} FindDistinct(es: Children, n: bytes)
    requires ChildrenDistinct(es) && Find(es, n).Some?
    ensures Distinct(Find(es, n).value)
  {
    hide Distinct;
    if es.name != n {
      FindDistinct(es.rest, n);
    }
  }

  lemma {:induction false} InsertDistinct(node: Inode, path: T.Path, inode: Inode)
    requires path != [] && Distinct(node) && Distinct(inode) && InsertAt(node, path, inode).Some?
    ensures Distinct(InsertAt(node, path, inode).value)
    decreases |path|
  {
    hide NoneEmpty;
    if |path| == 1 {
      PutDistinct(node.children, path[0], inode);
    } else {
      var child := Find(node.children, path[0]).value;
      FindDistinct(node.children, path[0]);
      InsertDistinct(child, path[1..], inode);
      PutDistinct(node.children, path[0], InsertAt(child, path[1..], inode).value);
    }
  }

  lemma EntryDistinct(b: Built, e: Entry, idSize: nat)
    requires b.root.Dir? && Distinct(b.root) && Kept(e) && AddEntry(b, e, idSize).Some?
    ensures Distinct(AddEntry(b, e, idSize).value.root)
  {
    hide InsertAt, XattrMap, FromHex;
    MapMembers(e.xattrs);
    if e.path != [] {
      InsertDistinct(b.root, e.path, InodeOf(e, idSize, b.leaves).value);
    }
  }

  /** Lines that are added say what the tree then holds. */
  lemma {:induction false} LinesDistinct(b: Built, lines: seq<bytes>, idSize: nat)
    requires b.root.Dir? && Distinct(b.root) && Plain(lines) && AddLines(b, lines, idSize).Some?
    ensures Distinct(AddLines(b, lines, idSize).value.root) && AllParse(lines)
    decreases |lines|
  {
    hide AddEntry, Parse, Blank, PlainLine, Kept, Distinct;
    if lines != [] {
      var first, rest := [lines[0]], lines[1..];
      assert lines == first + rest;
      PlainAppend(first, rest);
      OneLine(lines[0]);
      EntryDistinct(b, Parse(lines[0]).value, idSize);
      LinesDistinct(AddEntry(b, Parse(lines[0]).value, idSize).value, rest, idSize);
    }
  }

  lemma BuiltDistinct(lines: seq<bytes>, idSize: nat)
    requires Plain(lines) && BuildLines(lines, idSize).Some?
    ensures Distinct(BuildLines(lines, idSize).value) && AllParse(lines)
  {
    hide AddLines, Parse, Blank, PlainLine, XattrMap;
    var first, rest := [lines[0]], lines[1..];
    assert lines == first + rest;
    PlainAppend(first, rest);
    OneLine(lines[0]);
    var e := Parse(lines[0]).value;
    MapMembers(e.xattrs);
    LinesDistinct(Built(Dir(StatOf(e), Nil), map[]), rest, idSize);
  }

  // ---- the theorem ----

  /** No leaf is referred to twice. */
  ghost predicate Unshared(fs: T.FileSystem) {
    var ids := Ids(fs.root);
    forall i, j :: 0 <= i < j < |ids| ==> ids[i] != ids[j]
  }

  /** A leaf referred to twice has a count above one. */
  ghost predicate Counted(fs: T.FileSystem) {
    var ids := Ids(fs.root);
    forall i, j :: 0 <= i < j < |ids| && ids[i] == ids[j] && ids[j] < |fs.leaves| ==>
      fs.leaves[ids[j]].links > 1
  }

  lemma FreshIffUnshared(fs: T.FileSystem)
    requires Below(Ids(fs.root), |fs.leaves|) && Counted(fs)
    ensures Fresh(fs.leaves, Ids(fs.root), {}) <==> Unshared(fs)
  {
    hide Ids;
    var ids := Ids(fs.root);
    if Fresh(fs.leaves, ids, {}) {
      forall i, j | 0 <= i < j < |ids|
        ensures ids[i] != ids[j]
      {
        assert ids[j] < |fs.leaves|;
      }
    }
  }

  /** What the writer and the reader ask of a tree, and the limits. */
  ghost predicate FsWithin(fs: T.FileSystem, idSize: nat) {
    && fs.root.Dir? && HasIds(fs.leaves) && LinksFit(fs.leaves) && InRange(fs.root, |fs.leaves|) && Counted(fs)
    && Within([], ValueOf(fs.leaves, fs.root), idSize)
  }

  /** A tree within the limits is built again from its text exactly when no leaf is shared, all
      of it is readable and nothing in it is written as something else is.  With a shared leaf
      or something unreadable the text is refused. */
  lemma TreeSurvivesIff(fs: T.FileSystem, idSize: nat)
    requires FsWithin(fs, idSize)
    ensures
      var value := ValueOf(fs.leaves, fs.root);
      var r := BuildLines(Lines(Text(NodeLines(fs.leaves, [], fs.root, map[]).lines)), idSize);
      && (r == Some(value) <==> Unshared(fs) && Readable(value) && Distinct(value))
      && (!Unshared(fs) || !Readable(value) ==> r == None)
  {
    hide Within, Readable, Distinct, NodeLines, BuildLines, Text, Lines, FitsTree, Parse, Blank, PlainLine, Kept,
      AllParse, Fresh, Below, Counted, Unshared, HasIds, LinksFit, ValueOf, Ids;
    var value, lines := ValueOf(fs.leaves, fs.root), NodeLines(fs.leaves, [], fs.root, map[]).lines;
    var none: map<nat, T.Path> := map[];
    assert none.Keys == {};
    WithinFits([], value, idSize);
    TreeSays(fs.leaves, [], fs.root, map[], idSize);
    FreshIffUnshared(fs);
    LinesOfText(lines);
    if Unshared(fs) && Readable(value) && Distinct(value) {
      TreeRoundTrip(fs, idSize);
    } else if BuildLines(lines, idSize).Some? {
      BuiltDistinct(lines, idSize);
    }
  }

  /** Entries of written lines are no hardlinks. */
  lemma {:induction false} PlainEntries(lines: seq<bytes>)
    requires Plain(lines) && EntriesOf(lines).Some?
    ensures NoHardlinks(EntriesOf(lines).value)
  {
    hide Parse, Blank, PlainLine, NoneEmpty;
    if lines != [] {
      var first, rest := [lines[0]], lines[1..];
      assert lines == first + rest;
      PlainAppend(first, rest);
      OneLine(lines[0]);
      PlainEntries(rest);
    }
  }

  /** Writing a tree as a dumpfile and reading it again. */
  method WriteAndRead(fs: T.FileSystem, idSize: nat) returns (r: Option<T.FileSystem>)
    requires FsWithin(fs, idSize)
    ensures r.Some? ==> InRange(r.value.root, |r.value.leaves|) && OnePathEach(r.value)
    ensures
      var value := ValueOf(fs.leaves, fs.root);
      && (r.Some? && ValueOf(r.value.leaves, r.value.root) == value
          <==> Unshared(fs) && Readable(value) && Distinct(value))
      && (!Unshared(fs) || !Readable(value) ==> r == None)
  {
    hide Within, Readable, Distinct, NodeLines, BuildLines, Text, Lines, Counted, Unshared, ValueOf, Build,
      OnePathEach;
    TreeSurvivesIff(fs, idSize);
    var text := WriteDumpfile(fs);
    r := DumpfileToFilesystem(text, idSize);
    BuildRefines(Lines(text), idSize);
    if r.Some? {
      WrittenAlone(fs, idSize);
    }
  }

  lemma WrittenAlone(fs: T.FileSystem, idSize: nat)
    requires FsWithin(fs, idSize)
    requires Build(Lines(Text(NodeLines(fs.leaves, [], fs.root, map[]).lines)), idSize).Some?
    ensures OnePathEach(Build(Lines(Text(NodeLines(fs.leaves, [], fs.root, map[]).lines)), idSize).value)
  {
    hide Within, Readable, Distinct, NodeLines, Text, Lines, Counted, ValueOf, Parse, Blank, PlainLine, Kept,
      AllParse, Fresh, Below, HasIds, LinksFit, Ids, EntriesOf, AddAll, Finished, OnePathEach;
    var lines := NodeLines(fs.leaves, [], fs.root, map[]).lines;
    TreeSays(fs.leaves, [], fs.root, map[], idSize);
    LinesOfText(lines);
    PlainEntries(lines);
    NothingShared(lines, idSize);
  }
}
