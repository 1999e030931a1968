/** A tree survives the dumpfile text. */
module DumpfileTheorem {
  import opened Bytes
  import opened Numbers
  import opened DumpfileText
  import opened DumpfileEntry
  import opened Dumpfile
  import F = ErofsFormat
  import T = Tree

  // ---- what the text can hold ----

  ghost predicate SortedXattrs(xs: seq<T.XattrPair>) {
    forall i, j :: 0 <= i < j < |xs| ==> Less(xs[i].name, xs[j].name)
  }

  ghost predicate FitsStat(stat: T.Stat) {
    stat.mode < 0x1000 && stat.mtime >= 0 && GoodXattrs(stat.xattrs) && SortedXattrs(stat.xattrs)
  }

  ghost predicate FitsContent(c: T.LeafContent, idSize: nat) {
    match c
    case Inline(data) => |data| <= MAX_INLINE_CONTENT && data != DASH
    case External(id, _) => id != [] && |id| == idSize && 1 + 2 * idSize <= PATH_MAX
    case Socket => false
    case Symlink(target) => GoodRaw(target) && target != DASH
    case _ => true
  }

  ghost predicate SortedChildren(es: Children) {
    match es
    case Nil => true
    case Cons(n, _, rest) => SortedChildren(rest) && AllAbove(rest, n)
  }

  ghost predicate AllAbove(es: Children, n: bytes) {
    match es
    case Nil => true
    case Cons(m, _, rest) => Less(n, m) && AllAbove(rest, n)
  }

  function Subdirs(es: Children): nat {
    match es
    case Nil => 0
    case Cons(_, inode, rest) => (if inode.Dir? then 1 else 0) + Subdirs(rest)
  }

  ghost predicate FitsTree(path: T.Path, inode: Inode, idSize: nat)
    decreases inode
  {
    && PlainPath(path) && |PathBytes(path)| <= PATH_MAX && FitsStat(inode.stat)
    && match inode
       case Leaf(_, content) => FitsContent(content, idSize)
       case Dir(_, es) => 2 + Subdirs(es) < U32 && SortedChildren(es) && FitsChildren(path, es, idSize)
  }

  ghost predicate FitsChildren(path: T.Path, es: Children, idSize: nat)
    decreases es
  {
    match es
    case Nil => true
    case Cons(n, inode, rest) => FitsTree(path + [n], inode, idSize) && FitsChildren(path, rest, idSize)
  }

  lemma {:induction false} OrCommutes(a: nat, b: nat)
    ensures BitOr(a, b) == BitOr(b, a)
    decreases a + b
  {
    if a > 0 || b > 0 {
      OrCommutes(a / 2, b / 2);
    }
  }

  /** Type and permissions are both found again in the mode. */
  lemma ModeParts(t: F.FileType, perm: nat)
    requires perm < 0x1000
    ensures
      var mode := BitOr(perm, t.Ifmt());
      mode == t.Ifmt() + perm && mode < U32 && F.IfmtOf(mode) == t.Ifmt() && mode % 0x1000 == perm
  {
    hide BitOr;
    OrCommutes(perm, t.Ifmt());
    assert perm % 0x1_0000 == perm;
    F.ModeSplits(t, perm);
    assert F.ModeOf(t, perm) == BitOr(t.Ifmt(), perm);
  }

  lemma {:induction false} HexInverts(b: bytes)
    ensures FromHex(F.Hex(b)) == Some(b)
    ensures Visible(F.Hex(b)) && (b != [] ==> F.Hex(b) != [] && F.Hex(b) != DASH)
  {
    if b != [] {
      HexInverts(b[1..]);
      HexRoundTrip(b[0]);
      var h := F.Hex(b);
      assert h[2..] == F.Hex(b[1..]);
      assert b == [b[0]] + b[1..];
    }
  }

  lemma PathnameGood(id: bytes)
    requires id != [] && 1 + 2 * |id| <= PATH_MAX
    ensures GoodRaw(F.ObjectPathname(id)) && F.ObjectPathname(id) != DASH
  {
    HexInverts(id[..1]);
    HexInverts(id[1..]);
  }

  lemma {:induction false} PutLastXattr(xs: seq<T.XattrPair>, x: T.XattrPair)
    requires forall i :: 0 <= i < |xs| ==> Less(xs[i].name, x.name)
    ensures PutXattr(xs, x) == xs + [x]
  {
    if xs != [] {
      LessIrreflexive(x.name);
      PutLastXattr(xs[1..], x);
      assert xs + [x] == [xs[0]] + (xs[1..] + [x]);
    }
  }

  lemma {:induction false} SortedMap(xs: seq<T.XattrPair>)
    requires SortedXattrs(xs)
    ensures XattrMap(xs) == xs
    decreases |xs|
  {
    if xs != [] {
      var n := |xs| - 1;
      SortedMap(xs[..n]);
      PutLastXattr(xs[..n], xs[n]);
      assert xs == xs[..n] + [xs[n]];
    }
  }

  // ---- one line ----

  /** The entry that a written line parses to. */
  function EntryFor(path: T.Path, stat: T.Stat, t: F.FileType, item: Item): Entry
    requires stat.mtime >= 0
  {
    Entry(path, stat.uid, stat.gid, BitOr(stat.mode, t.Ifmt()), stat.mtime, 0, item, stat.xattrs)
  }

  lemma WrittenXattr(x: T.XattrPair)
    requires GoodXattr(x)
    ensures
      var s := Written(x.name) + [EQUALS] + Written(x.value);
      ParseXattr(s) == Some(x) && SPACE !in s && Visible(s) && s != []
  {
    hide Unescape, Written, NoEquals;
    var key, value := Written(x.name), Written(x.value);
    WrittenVisible(x.name, XattrKey);
    WrittenVisible(x.value, Standard);
    EscapedLonger(x.name, XattrKey);
    EscapedLonger(x.value, Standard);
    EscapersInverted(x.name, XattrKey, |key|);
    EscapersInverted(x.value, Standard, |key| + 1 + |value|);
    XattrParses(x, key, value);
  }

  /** Fields as the writer makes them parse when the item does. */
  lemma WrittenParses(path: T.Path, stat: T.Stat, t: F.FileType, size: nat, nlink: nat, rdev: nat,
                      payload: bytes, content: bytes, digest: Option<bytes>, item: Item)
    requires PlainPath(path) && |PathBytes(path)| <= PATH_MAX && FitsStat(stat)
    requires size < U64 && nlink < U32 && rdev < U64
    requires digest.Some? ==> Visible(digest.value) && digest.value != [] && digest.value != DASH
    requires
      var m := Meta(size, false, BitOr(stat.mode, t.Ifmt()), nlink, stat.uid, stat.gid, rdev, stat.mtime, 0);
      ParseItem(m, Optional(Written(payload)), Optional(Written(content)), digest) == Some(item)
    ensures
      var fs := WrittenFields(path, stat, t.Ifmt(), size, nlink, rdev, payload, content, digest);
      && Parse(Fields(fs, SPACE)) == Some(EntryFor(path, stat, t, item))
      && forall i :: 0 <= i < |fs| ==> Visible(fs[i]) && fs[i] != []
  {
    hide Unescape, Written, UnescapeToPath, UnescapeToPathCanonical, PathBytes, ParseMeta, ParseItem,
      ParseXattr, Fields, Parse, GoodXattr, DumpfileEntry.NamesSize, BitOr, InRadix, Decimal, Visible,
      PlainPath, WrittenFields;
    var fs := WrittenFields(path, stat, t.Ifmt(), size, nlink, rdev, payload, content, digest);
    var mode := BitOr(stat.mode, t.Ifmt());
    ModeParts(t, stat.mode);
    PathRoundTrip(path);
    WrittenParts(path, stat, t, size, nlink, rdev, payload, content, digest);
    MetaParses(fs, size, mode, nlink, stat.uid, stat.gid, rdev, stat.mtime, 0);
    FieldsVisible(path, stat, t, size, nlink, rdev, payload, content, digest);
    forall i | 0 <= i < |fs|
      ensures SPACE !in fs[i]
    {
      VisibleLacksSpace(fs[i]);
    }
    forall i | 0 <= i < |stat.xattrs|
      ensures ParseXattr(fs[11 + i]) == Some(stat.xattrs[i])
    {
      WrittenXattr(stat.xattrs[i]);
    }
    DigestOptional(fs[10], digest);
    FieldsParse(fs, path, Meta(size, false, mode, nlink, stat.uid, stat.gid, rdev, stat.mtime, 0), item,
                stat.xattrs);
  }

  lemma DigestOptional(field: bytes, digest: Option<bytes>)
    requires field == (if digest.Some? then digest.value else DASH)
    requires digest.Some? ==> digest.value != DASH
    ensures Optional(field) == digest
  {
  }

  lemma WrittenParts(path: T.Path, stat: T.Stat, t: F.FileType, size: nat, nlink: nat, rdev: nat,
                     payload: bytes, content: bytes, digest: Option<bytes>)
    ensures
      var fs := WrittenFields(path, stat, t.Ifmt(), size, nlink, rdev, payload, content, digest);
      && fs[0] == Written(PathBytes(path)) && fs[8] == Written(payload) && fs[9] == Written(content)
      && fs[10] == (if digest.Some? then digest.value else DASH)
      && fs[1] == Decimal(size) && fs[2] == InRadix(BitOr(stat.mode, t.Ifmt()), 8) && fs[3] == Decimal(nlink)
      && fs[4] == Decimal(stat.uid) && fs[5] == Decimal(stat.gid) && fs[6] == Decimal(rdev)
      && fs[7] == MtimeField(stat.mtime)
      && (stat.mtime >= 0 ==>
            fs[1..8] == NumberFields(size, BitOr(stat.mode, t.Ifmt()), nlink, stat.uid, stat.gid, rdev, stat.mtime, 0))
      && forall i :: 0 <= i < |stat.xattrs| ==>
           fs[11 + i] == Written(stat.xattrs[i].name) + [EQUALS] + Written(stat.xattrs[i].value)
  {
    hide Written, PathBytes, InRadix, Decimal, BitOr;
  }

  /** Whatever is written, the fields are visible characters. */
  lemma FieldsVisible(path: T.Path, stat: T.Stat, t: F.FileType, size: nat, nlink: nat, rdev: nat,
                      payload: bytes, content: bytes, digest: Option<bytes>)
    requires digest.Some? ==> Visible(digest.value) && digest.value != []
    ensures
      var fs := WrittenFields(path, stat, t.Ifmt(), size, nlink, rdev, payload, content, digest);
      forall i :: 0 <= i < |fs| ==> Visible(fs[i]) && fs[i] != []
  {
    hide Written, PathBytes, InRadix, Decimal, BitOr, Visible, WrittenFields, MtimeField;
    var fs := WrittenFields(path, stat, t.Ifmt(), size, nlink, rdev, payload, content, digest);
    WrittenParts(path, stat, t, size, nlink, rdev, payload, content, digest);
    WrittenVisible(PathBytes(path), Standard);
    WrittenVisible(payload, Standard);
    WrittenVisible(content, Standard);
    OneVisible(BitOr(stat.mode, t.Ifmt()), 8);
    DecimalVisible(size);
    DecimalVisible(nlink);
    DecimalVisible(stat.uid);
    DecimalVisible(stat.gid);
    DecimalVisible(rdev);
    MtimeVisible(stat.mtime);
    DashVisible();
    forall i | 0 <= i < |fs|
      ensures Visible(fs[i]) && fs[i] != []
    {
      if i >= 11 {
        var k := i - 11;
        PairVisible(stat.xattrs[k]);
        assert fs[11 + k] == Written(stat.xattrs[k].name) + [EQUALS] + Written(stat.xattrs[k].value);
      }
    }
  }

  lemma PairVisible(x: T.XattrPair)
    ensures var s := Written(x.name) + [EQUALS] + Written(x.value); Visible(s) && s != []
  {
    hide Written;
    WrittenVisible(x.name, XattrKey);
    WrittenVisible(x.value, Standard);
  }

  lemma MtimeVisible(mtime: int)
    ensures Visible(MtimeField(mtime)) && MtimeField(mtime) != []
  {
    hide Decimal, Visible;
    DecimalVisible(if mtime < 0 then -mtime else mtime);
    DecimalVisible(0);
    PointVisible();
    DashVisible();
    VisibleAppend([45], Decimal(if mtime < 0 then -mtime else mtime));
    var sec := if mtime < 0 then [45] + Decimal(-mtime) else Decimal(mtime);
    VisibleAppend(sec, [POINT]);
    VisibleAppend(sec + [POINT], Decimal(0));
  }

  lemma DigitsVisible(s: bytes, radix: nat)
    requires AllDigits(s, radix) && radix <= 10
    ensures Visible(s)
  {
  }

  lemma PointVisible()
    ensures Visible([POINT])
  {
  }

  lemma OneVisible(n: nat, radix: nat)
    requires radix == 10 || radix == 8
    ensures Visible(InRadix(n, radix))
  {
    ParsePrinted(n, radix, n + 1);
    DigitsVisible(InRadix(n, radix), radix);
  }

  lemma DecimalVisible(n: nat)
    ensures Visible(Decimal(n)) && Decimal(n) != []
  {
    OneVisible(n, 10);
  }

  /** The item of a leaf's line. */
  function ItemFor(c: T.LeafContent, nlink: nat): Item
    requires c.External? ==> c.id != []
  {
    match c
    case Inline(data) => RegularInline(nlink, data)
    case External(id, size) => Regular(size, nlink, F.ObjectPathname(id), Some(F.Hex(id)))
    case BlockDevice(rdev) => Device(nlink, rdev)
    case CharacterDevice(rdev) => Device(nlink, rdev)
    case Fifo => Item.Fifo(nlink)
    case Socket => Item.Fifo(nlink)
    case Symlink(target) => Item.Symlink(nlink, target)
  }

  lemma LeafParses(path: T.Path, stat: T.Stat, c: T.LeafContent, nlink: nat, idSize: nat)
    requires PlainPath(path) && |PathBytes(path)| <= PATH_MAX && FitsStat(stat) && FitsContent(c, idSize)
    requires nlink < U32
    ensures c.External? ==> c.id != []
    ensures
      var fs := LeafFields(path, stat, c, nlink);
      && Parse(Fields(fs, SPACE)) == Some(EntryFor(path, stat, F.FileTypeOfContent(c), ItemFor(c, nlink)))
      && forall i :: 0 <= i < |fs| ==> Visible(fs[i]) && fs[i] != []
  {
    hide Unescape, UnescapeToPath, Written, PlainPath, PathBytes, Parse, Fields, WrittenFields, BitOr,
      F.ObjectPathname, F.Hex, GoodXattrs, SortedXattrs, Visible;
    var t := F.FileTypeOfContent(c);
    ModeParts(t, stat.mode);
    EmptyIsDash();
    match c
    case Inline(data) =>
      EscapersInverted(data, Standard, MAX_INLINE_CONTENT);
      UnescapeNothing(MAX_INLINE_CONTENT);
      WrittenParses(path, stat, t, |data|, nlink, 0, [], data, None, ItemFor(c, nlink));
    case External(id, size) =>
      PathnameGood(id);
      HexInverts(id);
      var p := F.ObjectPathname(id);
      RawPath(p, Standard);
      EscapersInverted(p, Standard, |p|);
      WrittenParses(path, stat, t, size, nlink, 0, p, [], Some(F.Hex(id)), ItemFor(c, nlink));
    case BlockDevice(rdev) => WrittenParses(path, stat, t, 0, nlink, rdev, [], [], None, ItemFor(c, nlink));
    case CharacterDevice(rdev) => WrittenParses(path, stat, t, 0, nlink, rdev, [], [], None, ItemFor(c, nlink));
    case Fifo => WrittenParses(path, stat, t, 0, nlink, 0, [], [], None, ItemFor(c, nlink));
    case Symlink(target) =>
      RawPath(target, Standard);
      EscapersInverted(target, Standard, |target|);
      WrittenParses(path, stat, t, |target|, nlink, 0, target, [], None, ItemFor(c, nlink));
  }

  lemma EmptyIsDash()
    ensures Written([]) == DASH
  {
  }

  lemma DirParses(path: T.Path, stat: T.Stat, nlink: nat)
    requires PlainPath(path) && |PathBytes(path)| <= PATH_MAX && FitsStat(stat) && nlink < U32
    ensures
      var fs := DirFields(path, stat, nlink);
      && Parse(Fields(fs, SPACE))
         == Some(EntryFor(path, stat, F.FileType.Directory, Item.Directory(0, nlink)))
      && forall i :: 0 <= i < |fs| ==> Visible(fs[i]) && fs[i] != []
  {
    hide Unescape, UnescapeToPath, Written, PlainPath, PathBytes, Parse, Fields, WrittenFields, BitOr,
      GoodXattrs, SortedXattrs, Visible;
    ModeParts(F.FileType.Directory, stat.mode);
    EmptyIsDash();
    WrittenParses(path, stat, F.FileType.Directory, 0, nlink, 0, [], [], None, Item.Directory(0, nlink));
  }

  /** The stat of a parsed line is the stat that was written. */
  lemma StatReads(path: T.Path, stat: T.Stat, t: F.FileType, item: Item)
    requires FitsStat(stat)
    ensures StatFits(EntryFor(path, stat, t, item)) && StatOf(EntryFor(path, stat, t, item)) == stat
  {
    ModeParts(t, stat.mode);
    SortedMap(stat.xattrs);
  }

  /** The inode of a leaf's line is the leaf. */
  lemma LeafReads(path: T.Path, stat: T.Stat, c: T.LeafContent, nlink: nat, idSize: nat,
                  leaves: map<T.Path, Inode>)
    requires FitsStat(stat) && FitsContent(c, idSize)
    ensures c.External? ==> c.id != []
    ensures
      var e := EntryFor(path, stat, F.FileTypeOfContent(c), ItemFor(c, nlink));
      StatFits(e) && InodeOf(e, idSize, leaves) == Some(Leaf(stat, c))
  {
    hide StatOf, BitOr, F.Hex, F.ObjectPathname, FromHex;
    StatReads(path, stat, F.FileTypeOfContent(c), ItemFor(c, nlink));
    ModeParts(F.FileTypeOfContent(c), stat.mode);
    if c.External? {
      HexInverts(c.id);
      HexSize(c.id);
    }
  }

  lemma HexSize(b: bytes)
    ensures |F.Hex(b)| == 2 * |b|
  {
  }

  // ---- lines ----

  lemma {:induction false} FieldsPlain(fs: seq<bytes>)
    requires fs != [] && forall i :: 0 <= i < |fs| ==> Visible(fs[i]) && fs[i] != []
    ensures PlainLine(Fields(fs, SPACE)) && !Blank(Fields(fs, SPACE))
  {
    var line := Fields(fs, SPACE);
    assert line[0] == fs[0][0] && Visible(fs[0]);
    if |fs| > 1 {
      FieldsPlain(fs[1..]);
      var rest := Fields(fs[1..], SPACE);
      assert forall i :: 0 <= i < |rest| ==> 32 <= rest[i] <= 126;
      assert line == fs[0] + [SPACE] + rest;
    }
  }

  // ---- putting things into trees ----

  lemma {:induction false} FindPut(es: Children, n: bytes, inode: Inode)
    ensures Find(Put(es, n, inode), n) == Some(inode)
  {
    if es.Cons? {
      FindPut(es.rest, n, inode);
    }
  }

  lemma {:induction false} PutTwice(es: Children, n: bytes, a: Inode, b: Inode)
    ensures Put(Put(es, n, a), n, b) == Put(es, n, b)
  {
    if es.Cons? {
      PutTwice(es.rest, n, a, b);
    }
  }

  /** The tree with a directory or leaf at a path; the empty path is the root itself. */
  function At(base: Inode, path: T.Path, inode: Inode): Option<Inode> {
    if path == [] then Some(inode) else InsertAt(base, path, inode)
  }

  /** Adding a child below a directory just put. */
  lemma {:induction false} InsertInside(base: Inode, path: T.Path, stat: T.Stat, done: Children, n: bytes, inode: Inode)
    requires At(base, path, Dir(stat, done)).Some?
    ensures InsertAt(At(base, path, Dir(stat, done)).value, path + [n], inode)
         == At(base, path, Dir(stat, Put(done, n, inode)))
    ensures At(base, path, Dir(stat, Put(done, n, inode))).Some?
    decreases |path|
  {
    hide Put, Find;
    if path == [] {
      assert path + [n] == [n];
    } else {
      var p, rest := path[0], path[1..];
      assert (path + [n])[0] == p && (path + [n])[1..] == rest + [n];
      var before, after := Dir(stat, done), Dir(stat, Put(done, n, inode));
      if |path| == 1 {
        assert rest + [n] == [n] && InsertAt(before, [n], inode) == Some(after);
        FindPut(base.children, p, before);
        PutTwice(base.children, p, before, after);
      } else {
        var child := Find(base.children, p).value;
        InsertInside(child, rest, stat, done, n, inode);
        var c := InsertAt(child, rest, before).value;
        FindPut(base.children, p, c);
        PutTwice(base.children, p, c, InsertAt(child, rest, after).value);
      }
    }
  }

  function PutAll(done: Children, es: Children): Children
    decreases es
  {
    match es
    case Nil => done
    case Cons(n, inode, rest) => PutAll(Put(done, n, inode), rest)
  }

  function Concat(a: Children, b: Children): Children {
    match a
    case Nil => b
    case Cons(n, inode, rest) => Cons(n, inode, Concat(rest, b))
  }

  ghost predicate AllBelow(es: Children, n: bytes) {
    match es
    case Nil => true
    case Cons(m, _, rest) => Less(m, n) && AllBelow(rest, n)
  }

  lemma {:induction false} PutLast(done: Children, n: bytes, inode: Inode)
    requires AllBelow(done, n)
    ensures Put(done, n, inode) == Concat(done, Cons(n, inode, Nil))
  {
    if done.Cons? {
      LessIrreflexive(n);
      PutLast(done.rest, n, inode);
    }
  }

  lemma {:induction false} ConcatOne(a: Children, n: bytes, inode: Inode, b: Children)
    ensures Concat(Concat(a, Cons(n, inode, Nil)), b) == Concat(a, Cons(n, inode, b))
  {
    if a.Cons? {
      ConcatOne(a.rest, n, inode, b);
    }
  }

  lemma {:induction false} BelowNext(done: Children, n: bytes, inode: Inode, m: bytes)
    requires AllBelow(done, n) && Less(n, m)
    ensures AllBelow(Concat(done, Cons(n, inode, Nil)), m)
  {
    if done.Cons? {
      LessTransitive(done.name, n, m);
      BelowNext(done.rest, n, inode, m);
    }
  }

  /** Children put in their order end up in their order. */
  lemma {:induction false} PutAllSorted(done: Children, es: Children)
    requires SortedChildren(es) && (es.Cons? ==> AllBelow(done, es.name))
    ensures PutAll(done, es) == Concat(done, es)
    decreases es
  {
    match es
    case Nil => ConcatNil(done);
    case Cons(n, inode, rest) =>
      PutLast(done, n, inode);
      if rest.Cons? {
        BelowNext(done, n, inode, rest.name);
      }
      PutAllSorted(Put(done, n, inode), rest);
      ConcatOne(done, n, inode, rest);
  }

  lemma {:induction false} ConcatNil(a: Children)
    ensures Concat(a, Nil) == a
  {
    if a.Cons? {
      ConcatNil(a.rest);
    }
  }

  // ---- trees and their values ----

  lemma {:induction false} ValueSubdirs(leaves: seq<T.Leaf>, es: T.Entries)
    requires EntriesInRange(es, |leaves|)
    ensures Subdirs(ValuesOf(leaves, es)) == T.Subdirectories(es)
  {
    if es.More? {
      ValueSubdirs(leaves, es.rest);
    }
  }

  ghost predicate Below(ids: seq<nat>, n: nat) {
    forall i :: 0 <= i < |ids| ==> ids[i] < n
  }

  lemma {:induction false} IdsBelow(node: T.Node, n: nat)
    requires InRange(node, n)
    ensures Below(Ids(node), n)
  {
    if node.Dir? {
      EntryIdsBelow(node.entries, n);
    }
  }

  lemma {:induction false} EntryIdsBelow(es: T.Entries, n: nat)
    requires EntriesInRange(es, n)
    ensures Below(EntryIds(es), n)
  {
    if es.More? {
      IdsBelow(es.node, n);
      EntryIdsBelow(es.rest, n);
    }
  }

  /** The leaves remembered after some references. */
  function Marked(leaves: seq<T.Leaf>, ids: seq<nat>, seen: set<nat>): set<nat> {
    seen + set i | 0 <= i < |ids| && ids[i] < |leaves| && leaves[ids[i]].links > 1 :: ids[i]
  }

  /** No reference of these is written as a hardlink. */
  ghost predicate Fresh(leaves: seq<T.Leaf>, ids: seq<nat>, seen: set<nat>)
    requires Below(ids, |leaves|)
  {
    forall j :: 0 <= j < |ids| && leaves[ids[j]].links > 1 ==>
      ids[j] !in seen && forall i :: 0 <= i < j ==> ids[i] != ids[j]
  }

  lemma FreshAppend(leaves: seq<T.Leaf>, a: seq<nat>, b: seq<nat>, seen: set<nat>)
    requires Below(a, |leaves|) && Below(b, |leaves|)
    ensures Below(a + b, |leaves|)
    ensures Fresh(leaves, a + b, seen) <==> Fresh(leaves, a, seen) && Fresh(leaves, b, Marked(leaves, a, seen))
    ensures Marked(leaves, a + b, seen) == Marked(leaves, b, Marked(leaves, a, seen))
  {
    var all := a + b;
    assert forall i :: 0 <= i < |a| ==> all[i] == a[i];
    assert forall i :: 0 <= i < |b| ==> all[|a| + i] == b[i];
    if Fresh(leaves, all, seen) {
      forall j | 0 <= j < |a| && leaves[a[j]].links > 1
        ensures a[j] !in seen && forall i :: 0 <= i < j ==> a[i] != a[j]
      {
        assert all[j] == a[j];
      }
      forall j | 0 <= j < |b| && leaves[b[j]].links > 1
        ensures b[j] !in Marked(leaves, a, seen) && forall i :: 0 <= i < j ==> b[i] != b[j]
      {
        assert all[|a| + j] == b[j];
        forall i | 0 <= i < j
          ensures b[i] != b[j]
        {
          assert all[|a| + i] == b[i];
        }
      }
    }
    if Fresh(leaves, a, seen) && Fresh(leaves, b, Marked(leaves, a, seen)) {
      forall j | 0 <= j < |all| && leaves[all[j]].links > 1
        ensures all[j] !in seen && forall i :: 0 <= i < j ==> all[i] != all[j]
      {
        if j >= |a| {
          assert all[j] == b[j - |a|];
        }
      }
    }
  }

  /** What the writer remembers is what it has met. */
  lemma {:induction false} SeenIs(leaves: seq<T.Leaf>, path: T.Path, node: T.Node, seen: map<nat, T.Path>)
    requires HasIds(leaves) && InRange(node, |leaves|)
    ensures NodeLines(leaves, path, node, seen).seen.Keys == Marked(leaves, Ids(node), seen.Keys)
    decreases node
  {
    hide Fields, FileFields, DirFields;
    match node
    case File(id) =>
      assert Ids(node)[0] == id;
      assert Marked(leaves, Ids(node), seen.Keys) == seen.Keys + (if leaves[id].links > 1 then {id} else {});
    case Dir(_, es) => EntriesSeen(leaves, path, es, seen);
  }

  lemma {:induction false} EntriesSeen(leaves: seq<T.Leaf>, path: T.Path, es: T.Entries, seen: map<nat, T.Path>)
    requires HasIds(leaves) && EntriesInRange(es, |leaves|)
    ensures EntryLines(leaves, path, es, seen).seen.Keys == Marked(leaves, EntryIds(es), seen.Keys)
    decreases es
  {
    hide NodeLines, Marked, Below;
    match es
    case Empty =>
      NoneMarked(leaves, seen.Keys);
    case More(n, node, rest) =>
      SeenIs(leaves, path + [n], node, seen);
      EntriesSeen(leaves, path, rest, NodeLines(leaves, path + [n], node, seen).seen);
      IdsBelow(node, |leaves|);
      EntryIdsBelow(rest, |leaves|);
      FreshAppend(leaves, Ids(node), EntryIds(rest), seen.Keys);
  }

  lemma NoneMarked(leaves: seq<T.Leaf>, seen: set<nat>)
    ensures Marked(leaves, [], seen) == seen
  {
  }

  // ---- the theorem ----

  ghost predicate LinksFit(leaves: seq<T.Leaf>) {
    forall i :: 0 <= i < |leaves| ==> leaves[i].links < U32
  }

  lemma AddOne(b: Built, line: bytes, more: seq<bytes>, idSize: nat, e: Entry)
    requires b.root.Dir? && !Blank(line) && Parse(line) == Some(e) && AddEntry(b, e, idSize).Some?
    ensures AddLines(b, [line] + more, idSize) == AddLines(AddEntry(b, e, idSize).value, more, idSize)
  {
    hide Parse, AddEntry, Blank;
    assert ([line] + more)[1..] == more;
  }

  /** Adding the lines of a tree in which nothing is written as a hardlink puts its value at
      its path. */
  lemma {:induction false} AddTree(b: Built, leaves: seq<T.Leaf>, path: T.Path, node: T.Node,
                                   seen: map<nat, T.Path>, more: seq<bytes>, idSize: nat)
    returns (c: Built)
    requires HasIds(leaves) && LinksFit(leaves) && InRange(node, |leaves|)
    requires b.root.Dir? && path != [] && FitsTree(path, ValueOf(leaves, node), idSize)
    requires Below(Ids(node), |leaves|) && Fresh(leaves, Ids(node), seen.Keys)
    requires InsertAt(b.root, path, ValueOf(leaves, node)).Some?
    ensures c.root.Dir? && InsertAt(b.root, path, ValueOf(leaves, node)) == Some(c.root)
    ensures AddLines(b, NodeLines(leaves, path, node, seen).lines + more, idSize) == AddLines(c, more, idSize)
    decreases node, 0
  {
    hide Parse, Fields, LeafFields, DirFields, StatOf, PlainPath, PathBytes, GoodXattrs, SortedXattrs,
      FitsContent, AddLines, InsertAt, BitOr, HardlinkFields;
    var inode := ValueOf(leaves, node);
    InsertKeepsDir(b.root, path, inode);
    match node
    case File(id) =>
      var stat, content, nlink := inode.stat, inode.content, leaves[id].links;
      var e := EntryFor(path, stat, F.FileTypeOfContent(content), ItemFor(content, nlink));
      assert Ids(node)[0] == id;
      LeafParses(path, stat, content, nlink, idSize);
      LeafReads(path, stat, content, nlink, idSize, b.leaves);
      FieldsPlain(LeafFields(path, stat, content, nlink));
      c := AddEntry(b, e, idSize).value;
      AddOne(b, Fields(LeafFields(path, stat, content, nlink), SPACE), more, idSize, e);
    case Dir(stat, es) =>
      var nlink := 2 + T.Subdirectories(es);
      var e := EntryFor(path, stat, F.FileType.Directory, Item.Directory(0, nlink));
      ValueSubdirs(leaves, es);
      DirParses(path, stat, nlink);
      StatReads(path, stat, F.FileType.Directory, Item.Directory(0, nlink));
      FieldsPlain(DirFields(path, stat, nlink));
      EmptyDirFits(b.root, path, inode, stat);
      InsertKeepsDir(b.root, path, Dir(stat, Nil));
      var d := AddEntry(b, e, idSize).value;
      var line, rest := Fields(DirFields(path, stat, nlink), SPACE), EntryLines(leaves, path, es, seen).lines;
      AddOne(b, line, rest + more, idSize, e);
      assert [line] + (rest + more) == [line] + rest + more;
      c := AddChildren(d, b.root, leaves, path, stat, Nil, es, seen, more, idSize);
      PutAllSorted(Nil, ValuesOf(leaves, es));
  }

  /** Whether a path can be filled does not depend on what is put there. */
  lemma {:induction false} EmptyDirFits(node: Inode, path: T.Path, a: Inode, stat: T.Stat)
    requires path != [] && InsertAt(node, path, a).Some?
    ensures InsertAt(node, path, Dir(stat, Nil)).Some?
    decreases |path|
  {
    if |path| > 1 {
      EmptyDirFits(Find(node.children, path[0]).value, path[1..], a, stat);
    }
  }

  lemma {:induction false} AddChildren(b: Built, base: Inode, leaves: seq<T.Leaf>, path: T.Path, stat: T.Stat,
                                       done: Children, es: T.Entries, seen: map<nat, T.Path>,
                                       more: seq<bytes>, idSize: nat)
    returns (c: Built)
    requires HasIds(leaves) && LinksFit(leaves) && EntriesInRange(es, |leaves|)
    requires b.root.Dir? && FitsChildren(path, ValuesOf(leaves, es), idSize)
    requires Below(EntryIds(es), |leaves|) && Fresh(leaves, EntryIds(es), seen.Keys)
    requires At(base, path, Dir(stat, done)) == Some(b.root)
    ensures c.root.Dir? && At(base, path, Dir(stat, PutAll(done, ValuesOf(leaves, es)))) == Some(c.root)
    ensures AddLines(b, EntryLines(leaves, path, es, seen).lines + more, idSize) == AddLines(c, more, idSize)
    decreases es, 1
  {
    hide InsertAt, AddLines, FitsTree, NodeLines, Fresh, Marked, Below, HasIds, LinksFit;
    match es
    case Empty =>
      c := b;
      assert EntryLines(leaves, path, es, seen).lines + more == more;
    case More(n, node, rest) =>
      var inode := ValueOf(leaves, node);
      IdsBelow(node, |leaves|);
      EntryIdsBelow(rest, |leaves|);
      FreshAppend(leaves, Ids(node), EntryIds(rest), seen.Keys);
      SeenIs(leaves, path + [n], node, seen);
      InsertInside(base, path, stat, done, n, inode);
      var first := NodeLines(leaves, path + [n], node, seen);
      var lines := EntryLines(leaves, path, rest, first.seen).lines;
      var d := AddTree(b, leaves, path + [n], node, seen, lines + more, idSize);
      assert first.lines + (lines + more) == first.lines + lines + more;
      c := AddChildren(d, base, leaves, path, stat, Put(done, n, inode), rest, first.seen, more, idSize);
  }

  /** Building from the lines of a tree in which no counted leaf is met twice gives the value of
      the tree. */
  lemma TreeRoundTrip(fs: T.FileSystem, idSize: nat)
    requires HasIds(fs.leaves) && LinksFit(fs.leaves) && InRange(fs.root, |fs.leaves|) && fs.root.Dir?
    requires FitsTree([], ValueOf(fs.leaves, fs.root), idSize)
    requires Below(Ids(fs.root), |fs.leaves|) && Fresh(fs.leaves, Ids(fs.root), {})
    ensures BuildLines(NodeLines(fs.leaves, [], fs.root, map[]).lines, idSize)
         == Some(ValueOf(fs.leaves, fs.root))
  {
    hide Parse, Fields, DirFields, StatOf, PlainPath, PathBytes, GoodXattrs, SortedXattrs, AddLines, BitOr,
      Fresh, Below;
    var stat, es, values := fs.root.stat, fs.root.entries, ValuesOf(fs.leaves, fs.root.entries);
    var nlink := 2 + T.Subdirectories(es);
    var e := EntryFor([], stat, F.FileType.Directory, Item.Directory(0, nlink));
    ValueSubdirs(fs.leaves, es);
    DirParses([], stat, nlink);
    StatReads([], stat, F.FileType.Directory, Item.Directory(0, nlink));
    FieldsPlain(DirFields([], stat, nlink));
    var rest := EntryLines(fs.leaves, [], es, map[]).lines;
    var b := Built(Dir(stat, Nil), map[]);
    var none: map<nat, T.Path> := map[];
    assert none.Keys == {};
    var c := AddChildren(b, b.root, fs.leaves, [], stat, Nil, es, map[], [], idSize);
    PutAllSorted(Nil, values);
    assert rest + [] == rest;
    assert NodeLines(fs.leaves, [], fs.root, map[]).lines[1..] == rest;
    NoLines(c, idSize);
  }

  lemma NoLines(b: Built, idSize: nat)
    requires b.root.Dir?
    ensures AddLines(b, [], idSize) == Some(b)
  {
  }

  // ---- where it fails ----

  /** No hardlink line can be read: the number of links is a dash. */
  lemma HardlinkLinesFail(path: T.Path, target: bytes)
    ensures Parse(Fields(HardlinkFields(path, target), SPACE)) == None
  {
    hide Written, PathBytes, ParseItem, UnescapeToPathCanonical, Split, ParseXattrs, Fields;
    var fs := HardlinkFields(path, target);
    EscapedField(PathBytes(path), Standard);
    EscapedField(target, Standard);
    SplitFields(fs, SPACE);
    assert Digits(DASH, 10) == None;
    assert ParseNumber(fs[3], 10, U32) == None;
  }
}
