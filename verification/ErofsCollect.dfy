/** From the tree to the inode table (erofs/writer.rs): prefix splitting and escaping of
    attributes, directory packing, and the collector itself. */
module ErofsCollect {
  import opened Bytes
  import opened Tree
  import opened ErofsFormat
  import opened ErofsImage
  import opened ErofsRoundTrip

  /** `xxh32(suffix, seed)`, any function will do. */
  type Hash32 = (bytes, nat) -> nat

  // ---- attributes of one inode ----

  /** The entry for a name: the last prefix of the table that matches is split off. */
  function Split(name: bytes, value: bytes, k: nat): (x: XAttr)
    requires k < |XATTR_PREFIXES|
    ensures x.prefix <= k && FullName(x) == name && x.value == value
  {
    if XATTR_PREFIXES[k] <= name then
      assert XATTR_PREFIXES[k] + name[|XATTR_PREFIXES[k]|..] == name;
      XAttr(k, name[|XATTR_PREFIXES[k]|..], value)
    else
      assert k > 0;
      Split(name, value, k - 1)
  }

  function Entry(name: bytes, value: bytes): (x: XAttr)
    ensures x.prefix < 7 && FullName(x) == name && x.value == value
  {
    Split(name, value, 6)
  }

  /** `trusted.overlay.X` is stored as `trusted.overlay.overlay.X`. */
  function Escape(name: bytes): bytes {
    if OVERLAY <= name then ESCAPED_OVERLAY + name[|OVERLAY|..] else name
  }

  function FilterBit(x: XAttr, xxh: Hash32): nat {
    xxh(x.suffix, XATTR_FILTER_SEED + x.prefix) % 32
  }

  function Added(x: InodeXAttrs, name: bytes, value: bytes, xxh: Hash32): InodeXAttrs {
    var entry := Entry(name, value);
    x.(filter := BitOr(x.filter, Pow2(FilterBit(entry, xxh))), local := x.local + [entry])
  }

  function AddedAll(x: InodeXAttrs, pairs: seq<XattrPair>, xxh: Hash32): InodeXAttrs
    decreases |pairs|
  {
    if pairs == [] then x
    else
      var last := pairs[|pairs| - 1];
      Added(AddedAll(x, pairs[..|pairs| - 1], xxh), Escape(last.name), last.value, xxh)
  }

  const NO_XATTRS: InodeXAttrs := InodeXAttrs([], [], 0)

  /** The two attributes generated for a file whose body is an object. */
  function OverlayXattrs(alg: Algorithm, id: bytes, xxh: Hash32): InodeXAttrs
    requires id != []
  {
    Added(Added(NO_XATTRS, METACOPY, Metacopy(alg, id), xxh),
          REDIRECT, [47] + ObjectPathname(id), xxh)
  }

  function InitialXattrs(alg: Algorithm, stat: Stat, c: Content, xxh: Hash32): InodeXAttrs
    requires c.LeafContent? && c.content.External? ==> c.content.id != []
  {
    AddedAll(if c.LeafContent? && c.content.External?
             then OverlayXattrs(alg, c.content.id, xxh) else NO_XATTRS,
             stat.xattrs, xxh)
  }

  // ---- directory packing ----

  function EntrySize(e: DirEnt): nat {
    12 + |e.name|
  }

  ghost predicate Packable(entries: seq<DirEnt>) {
    forall i :: 0 <= i < |entries| ==> EntrySize(entries[i]) <= 4096
  }

  /** The longest prefix of `entries` that fits in `room` bytes. */
  function Fitting(entries: seq<DirEnt>, room: nat): (k: nat)
    ensures k <= |entries|
    ensures BlockSize(entries[..k]) <= room
    ensures k < |entries| ==> BlockSize(entries[..k + 1]) > room
    ensures entries != [] && EntrySize(entries[0]) <= room ==> k > 0
  {
    if entries == [] || EntrySize(entries[0]) > room then
      assert entries != [] ==> entries[..1] == [entries[0]];
      0
    else
      var k := Fitting(entries[1..], room - EntrySize(entries[0]));
      assert entries[..k + 1][1..] == entries[1..][..k];
      assert k + 1 < |entries| ==> entries[..k + 2][1..] == entries[1..][..k + 1];
      k + 1
  }

  /** Full blocks while the rest does not fit in one; then the rest inline when it is small. */
  function PackBlocks(entries: seq<DirEnt>): (blocks: seq<seq<DirEnt>>)
    requires Packable(entries)
    decreases |entries|
  {
    if BlockSize(entries) <= 2048 then []
    else if BlockSize(entries) <= 4096 then [entries]
    else
      var k := Fitting(entries, 4096);
      assert entries != [] by {
        assert BlockSize([]) == 0;
      }
      [entries[..k]] + PackBlocks(entries[k..])
  }

  function PackInline(entries: seq<DirEnt>): (inline: seq<DirEnt>)
    requires Packable(entries)
    decreases |entries|
  {
    if BlockSize(entries) <= 2048 then entries
    else if BlockSize(entries) <= 4096 then []
    else
      var k := Fitting(entries, 4096);
      assert entries != [] by {
        assert BlockSize([]) == 0;
      }
      PackInline(entries[k..])
  }

  function Subdirs(entries: seq<DirEnt>): nat {
    if entries == [] then 0
    else Subdirs(entries[..|entries| - 1])
         + (if entries[|entries| - 1].fileType == ErofsFormat.Directory then 1 else 0)
  }

  function Packed(entries: seq<DirEnt>): ErofsImage.Directory
    requires Packable(entries)
  {
    var blocks, inline := PackBlocks(entries), PackInline(entries);
    ErofsImage.Directory(blocks, inline, 4096 * |blocks| + BlockSize(inline), Subdirs(entries))
  }

  lemma {:induction false} BlockSizeAppend(a: seq<DirEnt>, b: seq<DirEnt>)
    ensures BlockSize(a + b) == BlockSize(a) + BlockSize(b)
  {
    if a == [] {
      assert a + b == b;
    } else {
      assert (a + b)[1..] == a[1..] + b;
      BlockSizeAppend(a[1..], b);
    }
  }

  /** Packing loses and reorders nothing; blocks are non-empty and fit; the tail is small. */
  lemma {:induction false} PackedFaithful(entries: seq<DirEnt>)
    requires Packable(entries)
    ensures AllEntries(Packed(entries)) == entries
    ensures OneBlockEach(PackBlocks(entries))
    ensures BlockSize(PackInline(entries)) <= 2048
    decreases |entries|
  {
    if BlockSize(entries) <= 2048 {
    } else if BlockSize(entries) <= 4096 {
      assert Concat([entries]) == entries + Concat([]);
    } else {
      var k := Fitting(entries, 4096);
      assert entries != [] by {
        assert BlockSize([]) == 0;
      }
      PackedFaithful(entries[k..]);
      assert BlockSize(entries[..k]) > 0;
      var rest := PackBlocks(entries[k..]);
      assert ([entries[..k]] + rest)[1..] == rest;
      assert entries == entries[..k] + entries[k..];
    }
  }

  /** `from_entries`: entries go to `rest` until the next one does not fit. */
  method FromEntries(entries: seq<DirEnt>) returns (dir: ErofsImage.Directory)
    requires Packable(entries)
    ensures dir == Packed(entries)
  {
    hide *;
    var blocks: seq<seq<DirEnt>> := [];
    var rest: seq<DirEnt> := [];
    var nBytes, nlink := 0, 0;
    var i := 0;
    PackStart(entries);
    while i < |entries|
      invariant 0 <= i <= |entries|
      invariant nBytes == BlockSize(rest) <= 4096 && nlink == Subdirs(entries[..i])
      invariant Packable(rest + entries[i..])
      invariant blocks + PackBlocks(rest + entries[i..]) == PackBlocks(entries)
      invariant PackInline(rest + entries[i..]) == PackInline(entries)
    {
      var entry := entries[i];
      ghost var more := entries[i + 1..];
      var entrySize := EntrySize(entry);
      PackStep(rest, entry, more, entries, i);
      assert entrySize <= 4096;
      if entry.fileType == ErofsFormat.Directory {
        nlink := nlink + 1;
      }
      nBytes := nBytes + entrySize;
      if nBytes <= 4096 {
        rest := rest + [entry];
      } else {
        BlockCloses(rest, entry, more);
        assert blocks + ([rest] + PackBlocks([entry] + more))
            == (blocks + [rest]) + PackBlocks([entry] + more);
        blocks := blocks + [rest];
        rest := [entry];
        nBytes := entrySize;
      }
      i := i + 1;
    }
    PackEnd(rest, entries, i);
    if nBytes > 2048 {
      blocks := blocks + [rest];
      rest := [];
      nBytes := 0;
    }
    dir := ErofsImage.Directory(blocks, rest, 4096 * |blocks| + nBytes, nlink);
  }

  lemma PackStart(entries: seq<DirEnt>)
    ensures [] + entries[0..] == entries && entries[..0] == []
    ensures BlockSize([]) == 0 && Subdirs([]) == 0
  {
  }

  lemma PackStep(rest: seq<DirEnt>, entry: DirEnt, more: seq<DirEnt>, entries: seq<DirEnt>, i: nat)
    requires i < |entries| && entry == entries[i] && more == entries[i + 1..]
    requires Packable(rest + entries[i..]) && BlockSize(rest) <= 4096
    ensures rest + entries[i..] == rest + [entry] + more
    ensures BlockSize(rest + [entry]) == BlockSize(rest) + EntrySize(entry)
    ensures BlockSize([entry]) == EntrySize(entry) <= 4096
    ensures BlockSize(rest + [entry]) > 4096 ==> rest != []
    ensures Subdirs(entries[..i + 1])
         == Subdirs(entries[..i]) + (if entry.fileType == ErofsFormat.Directory then 1 else 0)
  {
    assert entries[i..] == [entry] + more;
    assert (rest + entries[i..])[|rest|] == entry;
    BlockSizeAppend(rest, [entry]);
    assert [entry][1..] == [] && NamesSize([entry]) == |entry.name|;
    assert entries[..i + 1][..i] == entries[..i];
  }

  lemma PackEnd(rest: seq<DirEnt>, entries: seq<DirEnt>, i: nat)
    requires i == |entries| && Packable(rest + entries[i..]) && BlockSize(rest) <= 4096
    ensures entries[..i] == entries && BlockSize([]) == 0
    ensures PackBlocks(rest + entries[i..]) == (if BlockSize(rest) > 2048 then [rest] else [])
    ensures PackInline(rest + entries[i..]) == (if BlockSize(rest) > 2048 then [] else rest)
    ensures Packable(entries) ==>
      Packed(entries) == ErofsImage.Directory(PackBlocks(entries), PackInline(entries),
                                              4096 * |PackBlocks(entries)| + BlockSize(PackInline(entries)),
                                              Subdirs(entries))
  {
    assert rest + entries[i..] == rest;
  }

  /** A block is closed by the first entry that does not fit. */
  lemma BlockCloses(rest: seq<DirEnt>, entry: DirEnt, more: seq<DirEnt>)
    requires Packable(rest + [entry] + more) && rest != []
    requires BlockSize(rest) <= 4096 < BlockSize(rest + [entry])
    ensures Packable([entry] + more)
    ensures PackBlocks(rest + [entry] + more) == [rest] + PackBlocks([entry] + more)
    ensures PackInline(rest + [entry] + more) == PackInline([entry] + more)
  {
    var all := rest + [entry] + more;
    var k := Fitting(all, 4096);
    assert all[..|rest|] == rest && all[..|rest| + 1] == rest + [entry];
    PrefixSize(all, k + 1, |rest|);
    PrefixSize(all, |rest| + 1, k);
    assert k == |rest|;
    assert all[k..] == [entry] + more;
    BlockSizeAppend(rest + [entry], more);
    assert forall i :: 0 <= i < |[entry] + more| ==> ([entry] + more)[i] == all[k + i];
  }

  lemma PrefixSize(all: seq<DirEnt>, i: nat, j: nat)
    ensures i <= j <= |all| ==> BlockSize(all[..i]) <= BlockSize(all[..j])
  {
    if i <= j <= |all| {
      BlockSizeAppend(all[..i], all[i..j]);
      assert all[..i] + all[i..j] == all[..j];
    }
  }

  // ---- the collector ----

  /** What an inode of the table stands for: a directory or an unshared leaf by its path, a
      shared leaf by its identity.  Only the proofs look at labels. */
  datatype Label = At(path: Path) | Shared(id: nat)

  datatype Table = Table(inodes: seq<Inode>, labels: seq<Label>, hardlinks: map<nat, nat>)

  datatype Context = Context(alg: Algorithm, xxh: Hash32, leaves: seq<Leaf>)

  function LabelOf(ctx: Context, id: nat, path: Path): Label
    requires id < |ctx.leaves|
  {
    if ctx.leaves[id].links > 1 then Shared(id) else At(path)
  }

  /** Object ids have the size of the hash, so they are not empty. */
  ghost predicate GoodContext(ctx: Context) {
    forall i :: 0 <= i < |ctx.leaves| && ctx.leaves[i].content.External? ==>
      |ctx.leaves[i].content.id| == ctx.alg.Size()
  }

  function NewInode(ctx: Context, stat: Stat, c: Content): Inode
    requires c.LeafContent? && c.content.External? ==> c.content.id != []
  {
    Inode(stat, InitialXattrs(ctx.alg, stat, c, ctx.xxh), c)
  }

  function LeafInode(ctx: Context, id: nat): Inode
    requires GoodContext(ctx) && id < |ctx.leaves|
  {
    var leaf := ctx.leaves[id];
    NewInode(ctx, leaf.stat, LeafContent(leaf.content, leaf.links))
  }

  function DirInode(ctx: Context, stat: Stat, dir: ErofsImage.Directory): Inode {
    NewInode(ctx, stat, DirContent(dir))
  }

  const EMPTY_DIR: ErofsImage.Directory := ErofsImage.Directory([], [], 0, 0)

  function Push(t: Table, inode: Inode, tag: Label): Table {
    t.(inodes := t.inodes + [inode], labels := t.labels + [tag])
  }

  datatype Collected = Collected(table: Table, index: nat)

  function CollectLeaf(ctx: Context, t: Table, id: nat, path: Path): Collected
    requires GoodContext(ctx) && id < |ctx.leaves|
  {
    var shared := ctx.leaves[id].links > 1;
    if shared && id in t.hardlinks then Collected(t, t.hardlinks[id])
    else
      var index := |t.inodes|;
      var pushed := Push(t, LeafInode(ctx, id), LabelOf(ctx, id, path));
      Collected(if shared then pushed.(hardlinks := t.hardlinks[id := index]) else pushed, index)
  }

  /** `partition_point` on names, then insertion. */
  function InsertSorted(entries: seq<DirEnt>, e: DirEnt): (r: seq<DirEnt>)
    ensures |r| == |entries| + 1
  {
    if entries == [] || !Less(entries[0].name, e.name) then [e] + entries
    else [entries[0]] + InsertSorted(entries[1..], e)
  }

  function WithDots(entries: seq<DirEnt>, me: nat, parent: nat): (r: seq<DirEnt>)
    ensures |r| == |entries| + 2
  {
    InsertSorted(InsertSorted(entries, DirEnt(DOT, me, ErofsFormat.Directory)),
                 DirEnt(DOTDOT, parent, ErofsFormat.Directory))
  }

  /** Names that leave room for an entry header in a block. */
  ghost predicate ShortNames(node: Node) {
    node.Dir? ==> ShortEntryNames(node.entries)
  }

  ghost predicate ShortEntryNames(es: Entries) {
    match es
    case Empty => true
    case More(n, node, rest) => 12 + |n| <= 4096 && ShortNames(node) && ShortEntryNames(rest)
  }

  ghost predicate Storable(ctx: Context, node: Node) {
    GoodContext(ctx) && WellFormed(node, |ctx.leaves|) && ShortNames(node)
  }

  ghost predicate StorableEntries(ctx: Context, es: Entries) {
    GoodContext(ctx) && WellFormedEntries(es, |ctx.leaves|) && ShortEntryNames(es)
  }

  function CollectNode(ctx: Context, t: Table, node: Node, parent: nat, path: Path): (c: Collected)
    requires Storable(ctx, node)
    ensures |c.table.inodes| >= |t.inodes|
    decreases node
  {
    match node
    case File(id) => CollectLeaf(ctx, t, id, path)
    case Dir(stat, es) =>
      var me := |t.inodes|;
      var reserved := Push(t, DirInode(ctx, stat, EMPTY_DIR), At(path));
      var c := CollectEntries(ctx, reserved, es, me, path);
      var entries := WithDots(c.entries, me, parent);
      PackableWithDots(c.entries, me, parent);
      Collected(c.table.(inodes := c.table.inodes[me := DirInode(ctx, stat, Packed(entries))]), me)
  }

  datatype CollectedEntries = CollectedEntries(table: Table, entries: seq<DirEnt>)

  function CollectEntries(ctx: Context, t: Table, es: Entries, me: nat, path: Path): (c: CollectedEntries)
    requires StorableEntries(ctx, es)
    ensures |c.table.inodes| >= |t.inodes| && Packable(c.entries)
    decreases es
  {
    match es
    case Empty => CollectedEntries(t, [])
    case More(n, node, rest) =>
      var child := CollectNode(ctx, t, node, me, path + [n]);
      var kind := if node.Dir? then ErofsFormat.Directory
                  else FileTypeOfContent(ctx.leaves[node.id].content);
      var more := CollectEntries(ctx, child.table, rest, me, path);
      CollectedEntries(more.table, [DirEnt(n, child.index, kind)] + more.entries)
  }

  lemma {:induction false} InsertPackable(entries: seq<DirEnt>, e: DirEnt)
    requires Packable(entries) && EntrySize(e) <= 4096
    ensures Packable(InsertSorted(entries, e))
  {
    if entries != [] && Less(entries[0].name, e.name) {
      InsertPackable(entries[1..], e);
    }
  }

  lemma PackableWithDots(entries: seq<DirEnt>, me: nat, parent: nat)
    requires Packable(entries)
    ensures Packable(WithDots(entries, me, parent))
  {
    var dot := DirEnt(DOT, me, ErofsFormat.Directory);
    InsertPackable(entries, dot);
    InsertPackable(InsertSorted(entries, dot), DirEnt(DOTDOT, parent, ErofsFormat.Directory));
  }
}
