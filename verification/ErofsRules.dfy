/** Rules of the image writer and reader that other tools rely on: how full directory blocks are,
    how shared attributes are ordered, which attributes name an object. */
module ErofsRules {
  import opened Bytes
  import opened Tree
  import opened ErofsFormat
  import opened ErofsImage
  import opened ErofsRoundTrip
  import opened ErofsCollect
  import opened ErofsShare
  import opened ErofsObjects
  import opened OnDisk
  import opened Vocabulary

  // ---- directory blocks ----

  /** Twelve bytes and the name for each entry. */
  function Room(entries: seq<DirEnt>): nat {
    if entries == [] then 0 else 12 + |entries[0].name| + Room(entries[1..])
  }

  lemma {:induction false} RoomIs(entries: seq<DirEnt>)
    ensures BlockSize(entries) == Room(entries)
  {
    if entries != [] {
      RoomIs(entries[1..]);
    }
  }

  /** The next entry would not fit in a block of 4096 bytes. */
  predicate FullBefore(block: seq<DirEnt>, next: DirEnt) {
    Room(block) + 12 + |next.name| > 4096
  }

  /** Blocks hold as much as fits; what is left goes behind the inode when it has at most 2048
      bytes, and in a block of its own when it has more. */
  ghost predicate Greedy(blocks: seq<seq<DirEnt>>, inline: seq<DirEnt>) {
    && (forall b :: 0 <= b < |blocks| ==> blocks[b] != [] && Room(blocks[b]) <= 4096)
    && (forall b, c :: 0 <= b && c == b + 1 && c < |blocks| ==> FullBefore(blocks[b], blocks[c][0]))
    && Room(inline) <= 2048
    && (blocks != [] && inline != [] ==> FullBefore(blocks[|blocks| - 1], inline[0]))
    && (blocks != [] && inline == [] ==> Room(blocks[|blocks| - 1]) > 2048)
  }

  lemma SizeOfMore(entries: seq<DirEnt>, k: nat)
    requires k < |entries|
    ensures BlockSize(entries[..k + 1]) == BlockSize(entries[..k]) + 12 + |entries[k].name|
  {
    assert entries[..k + 1] == entries[..k] + [entries[k]];
    BlockSizeAppend(entries[..k], [entries[k]]);
    assert [entries[k]][1..] == [] && NamesSize([entries[k]]) == |entries[k].name|;
  }

  /** What stands first when entries are packed. */
  lemma {:induction false} FirstPacked(entries: seq<DirEnt>)
    requires Packable(entries) && entries != []
    ensures
      var blocks, inline := PackBlocks(entries), PackInline(entries);
      if blocks != [] then blocks[0] != [] && blocks[0][0] == entries[0] else inline == entries
    decreases |entries|
  {
    hide BlockSize;
    if BlockSize(entries) > 4096 {
      var k := Fitting(entries, 4096);
    }
  }

  /** Packing is greedy, and with the entries in order that leaves one way to do it. */
  lemma {:induction false} PackedIsGreedy(entries: seq<DirEnt>)
    requires Packable(entries)
    ensures Greedy(PackBlocks(entries), PackInline(entries))
    decreases |entries|
  {
    hide Room, BlockSize;
    RoomIs(entries);
    if BlockSize(entries) <= 2048 {
      EmptyRoom();
    } else if BlockSize(entries) <= 4096 {
      EmptyRoom();
    } else {
      var k := Fitting(entries, 4096);
      EmptyRoom();
      assert entries[..0] == [];
      var first, rest := entries[..k], entries[k..];
      RoomIs(first);
      assert k < |entries| by {
        assert entries[..|entries|] == entries;
      }
      SizeOfMore(entries, k);
      FirstSize(entries);
      PackedIsGreedy(rest);
      FirstPacked(rest);
      var blocks, inline := PackBlocks(rest), PackInline(rest);
      GreedyMore(first, blocks, inline, entries[k]);
    }
  }

  lemma EmptyRoom()
    ensures BlockSize([]) == 0 && Room([]) == 0
  {
  }

  lemma FirstSize(entries: seq<DirEnt>)
    requires entries != []
    ensures BlockSize(entries[..1]) == 12 + |entries[0].name|
  {
    assert entries[..1][1..] == [];
    assert NamesSize(entries[..1]) == |entries[0].name|;
  }

  lemma GreedyMore(first: seq<DirEnt>, blocks: seq<seq<DirEnt>>, inline: seq<DirEnt>, next: DirEnt)
    requires first != [] && Room(first) <= 4096 && FullBefore(first, next) && Greedy(blocks, inline)
    requires if blocks != [] then blocks[0][0] == next else inline != [] && inline[0] == next
    ensures Greedy([first] + blocks, inline)
  {
    hide Room, FullBefore;
    var all := [first] + blocks;
    forall b, c | 0 <= b && c == b + 1 && c < |all|
      ensures FullBefore(all[b], all[c][0])
    {
      if b > 0 {
        assert all[b] == blocks[b - 1] && all[c] == blocks[c - 1];
      }
    }
    if blocks != [] {
      assert all[|all| - 1] == blocks[|blocks| - 1];
    }
  }

  // ---- shared attributes ----

  /** By the number of the prefix, then by the bytes of the suffix, then of the value. */
  ghost predicate Ordered(a: XAttr, b: XAttr) {
    || a.prefix < b.prefix
    || (a.prefix == b.prefix && exists k: nat :: DifferAt(a.suffix, b.suffix, k))
    || (a.prefix == b.prefix && a.suffix == b.suffix && exists k: nat :: DifferAt(a.value, b.value, k))
  }

  lemma SharedTableOrdered(inodes: seq<Inode>)
    ensures forall i, j :: 0 <= i < j < |SharedTable(inodes)| ==> Ordered(SharedTable(inodes)[i], SharedTable(inodes)[j])
  {
    hide SharedTable, Less, DifferAt;
    SharedTableExact(inodes);
    var t := SharedTable(inodes);
    forall i, j | 0 <= i < j < |t|
      ensures Ordered(t[i], t[j])
    {
      LessIff(t[i].suffix, t[j].suffix);
      LessIff(t[i].value, t[j].value);
    }
  }

  // ---- objects ----

  /** "overlay.metacopy" */
  const METACOPY_NAME: bytes := [111, 118, 101, 114, 108, 97, 121, 46, 109, 101, 116, 97, 99, 111, 112, 121]

  lemma MetacopySuffix()
    ensures METACOPY_SUFFIX == METACOPY_NAME
  {
  }

  /** An attribute names an object exactly when it is `trusted.overlay.metacopy` with a record of
      version 0, no flags and the digest algorithm of the repository. */
  lemma NamesObjectIff(alg: Algorithm, x: XAttr, id: bytes)
    ensures AttrObject(alg, x) == Some(id) <==>
      && x.prefix == 4 && x.suffix == METACOPY_NAME
      && |id| == (if alg.Sha256? then 32 else 64) && MetacopyOf(x.value, alg, id)
  {
    MetacopySuffix();
    if AttrObject(alg, x) == Some(id) {
      assert x.value[4..] == id;
    }
  }
}
