/** The two-pass writer (erofs/writer.rs): `Output` with its two implementations, the writers
    of each structure, and `mkfs_erofs` from the flattened inode table on. */
module ErofsWriter {
  import opened Bytes
  import opened Tree
  import opened ErofsFormat
  import opened ErofsImage

  datatype Kind = Header | Superblock | InodeTable | XAttrTable | BlockRun | End {
    function Index(): nat {
      match this
      case Header => 0
      case Superblock => 1
      case InodeTable => 2
      case XAttrTable => 3
      case BlockRun => 4
      case End => 5
    }
  }

  datatype Note = Note(kind: Kind, at: nat)

  // ---- the layout recorded by the first pass ----

  ghost predicate NotesInOrder(notes: seq<Note>) {
    forall i, j :: 0 <= i < j < |notes| ==> notes[i].kind.Index() <= notes[j].kind.Index()
  }

  function KindsSeen(notes: seq<Note>): nat {
    if notes == [] then 0 else notes[|notes| - 1].kind.Index() + 1
  }

  /** `offsets` lists the noted offsets and `types[t]` is where those of kind `t` start. */
  ghost predicate Records(notes: seq<Note>, types: seq<nat>, offsets: seq<nat>) {
    && |offsets| == |notes|
    && (forall i :: 0 <= i < |notes| ==> offsets[i] == notes[i].at)
    && |types| == KindsSeen(notes)
    && (forall t :: 0 <= t < |types| ==> types[t] <= |notes|)
    && forall t, i :: 0 <= t < |types| && 0 <= i < |notes| ==>
         (i < types[t] <==> notes[i].kind.Index() < t)
  }

  /** Missing kinds start, empty, where the new note goes. */
  lemma Recorded(notes: seq<Note>, types: seq<nat>, offsets: seq<nat>, types': seq<nat>,
                 kind: Kind, at: nat)
    requires Records(notes, types, offsets) && NotesInOrder(notes)
    requires |types| <= |types'| == kind.Index() + 1 && types'[..|types|] == types
    requires forall t :: |types| <= t < |types'| ==> types'[t] == |notes|
    ensures Records(notes + [Note(kind, at)], types', offsets + [at])
    ensures NotesInOrder(notes + [Note(kind, at)])
  {
    var notes' := notes + [Note(kind, at)];
    forall i | 0 <= i < |notes|
      ensures notes'[i].kind.Index() < |types|
    {
      assert notes[i].kind.Index() <= notes[|notes| - 1].kind.Index();
    }
    forall t, i | 0 <= t < |types'| && 0 <= i < |notes'|
      ensures i < types'[t] <==> notes'[i].kind.Index() < t
    {
      if t < |types| {
        assert types'[t] == types'[..|types|][t] == types[t];
      }
    }
    assert forall t :: 0 <= t < |types| ==> types'[t] == types'[..|types|][t];
  }

  function NotesOf(kind: Kind, offsets: seq<nat>): (notes: seq<Note>)
    ensures |notes| == |offsets|
  {
    seq(|offsets|, i requires 0 <= i < |offsets| => Note(kind, offsets[i]))
  }

  const FIRST_NOTES: seq<Note> := [Note(Header, 0), Note(Superblock, SUPERBLOCK_AT)]

  /** The notes of one run: header, superblock, inodes, shared attributes, block runs, end. */
  function AllNotes(pos: Pos): seq<Note> {
    FIRST_NOTES + NotesOf(InodeTable, pos.inodes) + NotesOf(XAttrTable, pos.xattrs)
    + NotesOf(BlockRun, pos.blocks) + [Note(End, pos.end)]
  }

  lemma NotesSnoc(kind: Kind, offsets: seq<nat>, k: nat)
    requires k < |offsets|
    ensures NotesOf(kind, offsets[..k + 1])
         == NotesOf(kind, offsets[..k]) + [Note(kind, offsets[k])]
  {
  }

  // ---- what an output answers ----

  /** The second pass looks offsets up in the layout; the first pass knows none and says 0. */
  ghost predicate Answers(second: bool, types: seq<nat>, offsets: seq<nat>, pos: Pos) {
    if second then
      && |types| == 6
      && (forall i :: 0 <= i < |pos.inodes| ==> Entry(types, offsets, InodeTable, i) == Some(pos.inodes[i]))
      && (forall i :: 0 <= i < |pos.xattrs| ==> Entry(types, offsets, XAttrTable, i) == Some(pos.xattrs[i]))
      && (forall i :: 0 <= i < |pos.blocks| ==> Entry(types, offsets, BlockRun, i) == Some(pos.blocks[i]))
      && Entry(types, offsets, End, 0) == Some(pos.end)
    else
      && (forall i :: 0 <= i < |pos.inodes| ==> pos.inodes[i] == 0)
      && (forall i :: 0 <= i < |pos.xattrs| ==> pos.xattrs[i] == 0)
      && (forall i :: 0 <= i < |pos.blocks| ==> pos.blocks[i] == 0)
      && pos.end == 0
  }

  function Entry(types: seq<nat>, offsets: seq<nat>, kind: Kind, idx: nat): Option<nat> {
    if kind.Index() < |types| && types[kind.Index()] + idx < |offsets|
    then Some(offsets[types[kind.Index()] + idx])
    else None
  }

  /** Each `get` after a first pass is the true position of the structure asked for. */
  lemma LayoutAnswers(pos: Pos, types: seq<nat>, offsets: seq<nat>)
    requires pos.inodes != [] && |pos.blocks| == |pos.inodes|
    requires Records(AllNotes(pos), types, offsets)
    ensures Answers(true, types, offsets, pos)
  {
    var a := FIRST_NOTES;
    var b := a + NotesOf(InodeTable, pos.inodes);
    var c := b + NotesOf(XAttrTable, pos.xattrs);
    var d := c + NotesOf(BlockRun, pos.blocks);
    RunAnswers(a, InodeTable, pos.inodes, AllNotes(pos)[|b|..], types, offsets) by {
      assert AllNotes(pos) == b + AllNotes(pos)[|b|..];
    }
    RunAnswers(b, XAttrTable, pos.xattrs, AllNotes(pos)[|c|..], types, offsets) by {
      assert AllNotes(pos) == c + AllNotes(pos)[|c|..];
    }
    RunAnswers(c, BlockRun, pos.blocks, AllNotes(pos)[|d|..], types, offsets) by {
      assert AllNotes(pos) == d + AllNotes(pos)[|d|..];
    }
    RunAnswers(d, End, [pos.end], [], types, offsets) by {
      assert NotesOf(End, [pos.end]) == [Note(End, pos.end)];
      assert AllNotes(pos) == d + NotesOf(End, [pos.end]) + [];
    }
  }

  /** Look-up of a kind whose notes stand together after notes of smaller kinds. */
  lemma RunAnswers(before: seq<Note>, kind: Kind, offs: seq<nat>, after: seq<Note>,
                   types: seq<nat>, offsets: seq<nat>)
    requires Records(before + NotesOf(kind, offs) + after, types, offsets)
    requires before != [] && before[|before| - 1].kind.Index() < kind.Index() < |types|
    ensures forall i :: 0 <= i < |offs| ==> Entry(types, offsets, kind, i) == Some(offs[i])
  {
    var notes := before + NotesOf(kind, offs) + after;
    if offs != [] {
      assert notes[|before| - 1] == before[|before| - 1];
      assert notes[|before|] == NotesOf(kind, offs)[0];
      TypeStart(notes, types, offsets, kind.Index(), |before|);
      forall i | 0 <= i < |offs|
        ensures Entry(types, offsets, kind, i) == Some(offs[i])
      {
        assert notes[|before| + i] == NotesOf(kind, offs)[i];
      }
    }
  }

  /** The notes of kind `t` start at index `s`. */
  lemma TypeStart(notes: seq<Note>, types: seq<nat>, offsets: seq<nat>, t: nat, s: nat)
    requires Records(notes, types, offsets)
    requires t < |types| && 0 < s < |notes|
    requires notes[s - 1].kind.Index() < t <= notes[s].kind.Index()
    ensures types[t] == s
  {
  }

  /** What the asserts in `get_div` and the conversion in `get_xattr` demand of the answers. */
  ghost predicate Aligned(pos: Pos) {
    && (forall i :: 0 <= i < |pos.inodes| ==> pos.inodes[i] % 32 == 0)
    && (forall i :: 0 <= i < |pos.xattrs| ==> pos.xattrs[i] % 4 == 0)
    && (forall i :: 0 <= i < |pos.xattrs| ==> pos.xattrs[i] / 4 < 0x1_0000_0000)
  }

  // ---- Output ----

  /** `FirstPass` (only counts) and `SecondPass` (emits), told apart by `second`.  The ghost
      fields are what a pass stands for: the bytes it means and the notes it took. */
  class Output {
    const second: bool
    var offset: nat
    var output: bytes
    var offsetTypes: seq<nat>
    var offsets: seq<nat>
    ghost var written: bytes
    ghost var notes: seq<Note>

    ghost predicate Valid()
      reads this
    {
      if second then output == written
      else offset == |written| && Records(notes, offsetTypes, offsets) && NotesInOrder(notes)
    }

    constructor First()
      ensures !second && Valid() && written == [] && notes == []
    {
      second := false;
      offset, output, offsetTypes, offsets := 0, [], [], [];
      written, notes := [], [];
    }

    constructor Second(types: seq<nat>, offs: seq<nat>)
      ensures second && Valid() && written == [] && notes == []
      ensures offsetTypes == types && offsets == offs
    {
      second := true;
      offset, output, offsetTypes, offsets := 0, [], types, offs;
      written, notes := [], [];
    }

    /** The ordering assert of the first pass cannot fail when kinds come in order. */
    method NoteOffset(kind: Kind)
      requires Valid()
      requires KindsSeen(notes) <= kind.Index() + 1
      modifies this
      ensures Valid() && written == old(written)
      ensures notes == old(notes) + [Note(kind, |written|)]
      ensures KindsSeen(notes) == kind.Index() + 1
      ensures second ==> offsetTypes == old(offsetTypes) && offsets == old(offsets)
    {
      if !second {
        while |offsetTypes| <= kind.Index()
          invariant offset == |written| && written == old(written)
          invariant offsets == old(offsets) && notes == old(notes)
          invariant KindsSeen(notes) <= |offsetTypes| <= kind.Index() + 1
          invariant offsetTypes[..KindsSeen(notes)] == old(offsetTypes)
          invariant forall t :: KindsSeen(notes) <= t < |offsetTypes| ==> offsetTypes[t] == |notes|
        {
          offsetTypes := offsetTypes + [|offsets|];
        }
        assert |offsetTypes| == kind.Index() + 1;
        Recorded(notes, old(offsetTypes), offsets, offsetTypes, kind, offset);
        offsets := offsets + [offset];
      }
      notes := notes + [Note(kind, |written|)];
    }

    function Get(kind: Kind, idx: nat): nat
      requires second ==> Entry(offsetTypes, offsets, kind, idx).Some?
      reads this
    {
      if second then offsets[offsetTypes[kind.Index()] + idx] else 0
    }

    function GetDiv(kind: Kind, idx: nat, div: nat): nat
      requires second ==> Entry(offsetTypes, offsets, kind, idx).Some?
      requires div > 0 && Get(kind, idx) % div == 0
      reads this
    {
      Get(kind, idx) / div
    }

    method Write(data: bytes)
      requires Valid()
      modifies `offset, `output, `written
      ensures Valid() && written == old(written) + data
    {
      if second {
        output := output + data;
      } else {
        offset := offset + |data|;
      }
      written := written + data;
    }

    method Pad(alignment: nat)
      requires Valid() && alignment > 0
      modifies `offset, `output, `written
      ensures Valid()
      ensures written == old(written) + Zeros(RoundUp(|old(written)|, alignment) - |old(written)|)
    {
      ghost var end := RoundUp(|written|, alignment);
      if second {
        output := output + Zeros(RoundUp(|output|, alignment) - |output|);
      } else {
        offset := RoundUp(offset, alignment);
      }
      written := written + Zeros(end - |written|);
    }

    function Len(): (n: nat)
      requires Valid()
      reads this
      ensures n == |written|
    {
      if second then |output| else offset
    }
  }

  // ---- structures ----

  method GetNid(out: Output, idx: nat, ghost pos: Pos) returns (nid: nat)
    requires Answers(out.second, out.offsetTypes, out.offsets, pos) && Aligned(pos)
    requires idx < |pos.inodes|
    ensures nid == pos.inodes[idx] / 32
  {
    nid := out.GetDiv(InodeTable, idx, 32);
  }

  method GetXattr(out: Output, idx: nat, ghost pos: Pos) returns (id: u32)
    requires Answers(out.second, out.offsetTypes, out.offsets, pos) && Aligned(pos)
    requires idx < |pos.xattrs|
    ensures id == pos.xattrs[idx] / 4
  {
    id := out.GetDiv(XAttrTable, idx, 4);
  }

  method WriteXAttr(out: Output, x: XAttr)
    requires out.Valid() && |out.written| % 4 == 0
    modifies out`offset, out`output, out`written
    ensures out.Valid() && out.written == old(out.written) + XAttrBytes(x)
  {
    ghost var before := out.written;
    out.Write(XattrRecord([|x.suffix|, x.prefix, |x.value|]));
    out.Write(x.suffix);
    out.Write(x.value);
    RoundUpLinear(|out.written|);
    Up4Shift(|before|, 4 + |x.suffix| + |x.value|);
    out.Pad(4);
    assert out.written == before + XAttrBytes(x);
  }

  lemma Up4Shift(a: nat, n: nat)
    requires a % 4 == 0
    ensures Up4(a + n) == a + Up4(n)
  {
  }

  method WriteSharedIds(out: Output, ids: seq<nat>, ghost pos: Pos)
    requires out.Valid()
    requires Answers(out.second, out.offsetTypes, out.offsets, pos) && Aligned(pos)
    requires forall i :: 0 <= i < |ids| ==> ids[i] < |pos.xattrs|
    modifies out`offset, out`output, out`written
    ensures out.Valid() && out.written == old(out.written) + SharedIds(ids, pos)
  {
    ghost var all := out.written + SharedIds(ids, pos);
    assert ids[0..] == ids;
    var i := 0;
    while i < |ids|
      invariant 0 <= i <= |ids| && out.Valid()
      invariant out.written + SharedIds(ids[i..], pos) == all
    {
      assert ids[i..][1..] == ids[i + 1..];
      ghost var rest := SharedIds(ids[i + 1..], pos);
      var xattr := GetXattr(out, ids[i], pos);
      var id := LE(xattr, 4);
      AppendFirst(out.written, id, rest, all);
      out.Write(id);
      i := i + 1;
    }
  }

  lemma AppendFirst(w: bytes, x: bytes, rest: bytes, all: bytes)
    requires w + (x + rest) == all
    ensures (w + x) + rest == all
  {
  }

  method WriteLocals(out: Output, xs: seq<XAttr>)
    requires out.Valid() && |out.written| % 4 == 0
    modifies out`offset, out`output, out`written
    ensures out.Valid() && out.written == old(out.written) + Locals(xs)
  {
    hide XAttrBytes, XAttrSize;
    ghost var all := out.written + Locals(xs);
    assert xs[0..] == xs;
    var i := 0;
    while i < |xs|
      invariant 0 <= i <= |xs| && out.Valid() && |out.written| % 4 == 0
      invariant out.written + Locals(xs[i..]) == all
    {
      assert xs[i..][1..] == xs[i + 1..];
      AppendFirst(out.written, XAttrBytes(xs[i]), Locals(xs[i + 1..]), all);
      SumAligned(|out.written|, xs[i]);
      WriteXAttr(out, xs[i]);
      i := i + 1;
    }
  }

  method WriteXattrs(out: Output, x: InodeXAttrs, ghost pos: Pos)
    requires out.Valid() && |out.written| % 4 == 0
    requires Answers(out.second, out.offsetTypes, out.offsets, pos) && Aligned(pos)
    requires forall i :: 0 <= i < |x.shared| ==> x.shared[i] < |pos.xattrs|
    modifies out`offset, out`output, out`written
    ensures out.Valid() && out.written == old(out.written) + XattrsBytes(x, pos)
  {
    if x.filter != 0 {
      var header := XattrsRecord([Complement(x.filter), |x.shared|, 0]);
      out.Write(header);
      WriteSharedIds(out, x.shared, pos);
      WriteLocals(out, x.local);
      AppendThree(old(out.written), header, SharedIds(x.shared, pos), Locals(x.local));
    }
  }

  lemma AppendThree(w: bytes, a: bytes, b: bytes, c: bytes)
    ensures w + a + b + c == w + (a + b + c)
  {
  }

  method WriteDirHeaders(out: Output, block: seq<DirEnt>, ghost pos: Pos)
    requires out.Valid()
    requires Answers(out.second, out.offsetTypes, out.offsets, pos) && Aligned(pos)
    requires WritableBlock(block, |pos.inodes|)
    modifies out`offset, out`output, out`written
    ensures out.Valid()
    ensures out.written == old(out.written) + DirHeaders(block, 12 * |block|, pos)
  {
    hide *;
    var nameOffset: nat := 12 * |block|;
    ghost var all := out.written + DirHeaders(block, nameOffset, pos);
    assert block[0..] == block;
    var i := 0;
    while i < |block|
      invariant 0 <= i <= |block| && out.Valid() && WritableBlock(block[i..], |pos.inodes|)
      invariant out.written + DirHeaders(block[i..], nameOffset, pos) == all
    {
      DirHeadersStep(block[i..], nameOffset, pos);
      assert block[i..][1..] == block[i + 1..];
      var nid := GetNid(out, block[i].inode, pos);
      var header := DirentRecord([nid, nameOffset, block[i].fileType.Number(), 0]);
      ghost var rest := DirHeaders(block[i + 1..], nameOffset + |block[i].name|, pos);
      AppendFirst(out.written, header, rest, all);
      out.Write(header);
      nameOffset := nameOffset + |block[i].name|;
      i := i + 1;
    }
    assert block[i..] == [];
    DirHeadersEmpty(nameOffset, pos);
  }

  lemma DirHeadersStep(block: seq<DirEnt>, nameOffset: nat, pos: Pos)
    requires WritableBlock(block, |pos.inodes|) && block != []
    ensures block[0].inode < |pos.inodes| && WritableBlock(block[1..], |pos.inodes|)
    ensures DirHeaders(block, nameOffset, pos)
         == DirentRecord([pos.inodes[block[0].inode] / 32, nameOffset,
                          block[0].fileType.Number(), 0])
            + DirHeaders(block[1..], nameOffset + |block[0].name|, pos)
  {
  }

  lemma DirHeadersEmpty(nameOffset: nat, pos: Pos)
    ensures WritableBlock([], |pos.inodes|) && DirHeaders([], nameOffset, pos) == []
  {
  }

  method WriteDirNames(out: Output, block: seq<DirEnt>)
    requires out.Valid()
    modifies out`offset, out`output, out`written
    ensures out.Valid() && out.written == old(out.written) + DirNames(block)
  {
    ghost var all := out.written + DirNames(block);
    assert block[0..] == block;
    var i := 0;
    while i < |block|
      invariant 0 <= i <= |block| && out.Valid()
      invariant out.written + DirNames(block[i..]) == all
    {
      assert block[i..][1..] == block[i + 1..];
      AppendFirst(out.written, block[i].name, DirNames(block[i + 1..]), all);
      out.Write(block[i].name);
      i := i + 1;
    }
  }

  method WriteBlock(out: Output, block: seq<DirEnt>, ghost pos: Pos)
    requires out.Valid()
    requires Answers(out.second, out.offsetTypes, out.offsets, pos) && Aligned(pos)
    requires WritableBlock(block, |pos.inodes|)
    modifies out`offset, out`output, out`written
    ensures out.Valid() && out.written == old(out.written) + BlockBytes(block, pos)
  {
    WriteDirHeaders(out, block, pos);
    WriteDirNames(out, block);
  }

  /** A block starts on a block boundary and is padded up to the next one. */
  method WriteStoredBlock(out: Output, block: seq<DirEnt>, ghost pos: Pos)
    requires out.Valid() && |out.written| % 4096 == 0
    requires Answers(out.second, out.offsetTypes, out.offsets, pos) && Aligned(pos)
    requires WritableBlock(block, |pos.inodes|)
    modifies out`offset, out`output, out`written
    ensures out.Valid() && out.written == old(out.written) + StoredBlock(block, pos)
    ensures |out.written| % 4096 == 0
  {
    WriteBlock(out, block, pos);
    RoundUpLinear(|out.written|);
    UpBlockShift(|old(out.written)|, BlockSize(block));
    out.Pad(4096);
    assert out.written == old(out.written) + StoredBlock(block, pos);
  }

  method WriteBlocks(out: Output, blocks: seq<seq<DirEnt>>, ghost pos: Pos)
    requires out.Valid() && |out.written| % 4096 == 0
    requires Answers(out.second, out.offsetTypes, out.offsets, pos) && Aligned(pos)
    requires forall i :: 0 <= i < |blocks| ==> WritableBlock(blocks[i], |pos.inodes|)
    modifies out`offset, out`output, out`written
    ensures out.Valid() && out.written == old(out.written) + StoredBlocks(blocks, pos)
  {
    ghost var all := out.written + StoredBlocks(blocks, pos);
    assert blocks[0..] == blocks;
    var i := 0;
    while i < |blocks|
      invariant 0 <= i <= |blocks| && out.Valid() && |out.written| % 4096 == 0
      invariant out.written + StoredBlocks(blocks[i..], pos) == all
    {
      assert blocks[i..][1..] == blocks[i + 1..];
      ghost var rest := StoredBlocks(blocks[i + 1..], pos);
      AppendFirst(out.written, StoredBlock(blocks[i], pos), rest, all);
      WriteStoredBlock(out, blocks[i], pos);
      i := i + 1;
    }
  }

  lemma UpBlockShift(a: nat, n: nat)
    requires a % 4096 == 0
    ensures UpBlock(a + n) == a + UpBlock(n)
  {
  }

  method WriteTail(out: Output, c: Content, ghost pos: Pos)
    requires out.Valid()
    requires Answers(out.second, out.offsetTypes, out.offsets, pos) && Aligned(pos)
    requires c.DirContent? ==> WritableBlock(c.dir.inline, |pos.inodes|)
    modifies out`offset, out`output, out`written
    ensures out.Valid() && out.written == old(out.written) + TailBytes(c, pos)
  {
    match c
    case DirContent(dir) => WriteBlock(out, dir.inline, pos);
    case LeafContent(Inline(data), _) => out.Write(data);
    case LeafContent(External(_, _), _) => out.Write([255, 255, 255, 255]);
    case LeafContent(Symlink(target), _) => out.Write(target);
    case LeafContent(_, _) => out.Write([]);
  }

  /** The padding of `write_inode`: afterwards the inode goes exactly at its place. */
  method AlignInode(out: Output, layout: DataLayout, size: nat, xattrSize: nat)
    requires out.Valid()
    modifies out`offset, out`output, out`written
    ensures out.Valid()
    ensures |out.written| == InodeStart(|old(out.written)|, layout, size, xattrSize)
    ensures out.written == old(out.written) + Zeros(|out.written| - |old(out.written)|)
  {
    RoundUpLinear(|out.written|);
    out.Pad(32);
    if layout == FlatInline {
      var inlineStart := out.Len() + 64 + xattrSize;
      var endOfMetadata := inlineStart - 1;
      var inlineEnd := inlineStart + size % 4096;
      if endOfMetadata / 4096 != inlineEnd / 4096 {
        var padSize := 4096 - endOfMetadata % 4096;
        out.Write(Zeros(padSize));
        RoundUpLinear(|out.written|);
        out.Pad(32);
      }
    }
  }

  method WriteInodeBody(out: Output, inode: Inode, blockOffset: nat, xattrSize: nat, ghost pos: Pos)
    requires out.Valid() && |out.written| % 32 == 0
    requires Answers(out.second, out.offsetTypes, out.offsets, pos) && Aligned(pos)
    requires WritableInode(inode, |pos.inodes|, |pos.xattrs|)
    requires xattrSize == XattrsSize(inode.xattrs)
    modifies out`offset, out`output, out`written
    ensures out.Valid()
    ensures out.written
         == old(out.written) + InodeBytes(inode, |old(out.written)|, blockOffset, pos)
  {
    hide *;
    FourDivides(|out.written|);
    InodeParts(inode, |out.written|, blockOffset, pos);
    ghost var before := out.written;
    var header := InodeRecord(HeaderFields(inode, xattrSize, out.Len(), blockOffset));
    out.Write(header);
    WriteXattrs(out, inode.xattrs, pos);
    WriteTail(out, inode.content, pos);
    AppendThree(before, header, XattrsBytes(inode.xattrs, pos), TailBytes(inode.content, pos));
  }

  lemma FourDivides(n: nat)
    requires n % 32 == 0
    ensures (n + 64) % 4 == 0
  {
  }

  lemma InodeParts(inode: Inode, at: nat, blockOffset: nat, pos: Pos)
    requires WritableInode(inode, |pos.inodes|, |pos.xattrs|)
    ensures forall i :: 0 <= i < |inode.xattrs.shared| ==> inode.xattrs.shared[i] < |pos.xattrs|
    ensures inode.content.DirContent? ==> WritableBlock(inode.content.dir.inline, |pos.inodes|)
    ensures InodeBytes(inode, at, blockOffset, pos)
         == InodeRecord(HeaderFields(inode, XattrsSize(inode.xattrs), at, blockOffset))
            + XattrsBytes(inode.xattrs, pos) + TailBytes(inode.content, pos)
  {
  }

  lemma PlacedBytes(before: bytes, at: nat, body: bytes)
    requires at >= |before|
    ensures
      var w := before + Zeros(at - |before|) + body;
      w + Zeros(Up32(|w|) - |w|) == PlacedAt(before, at, body)
  {
  }

  lemma WithInodeParts(before: bytes, inode: Inode, blockOffset: nat, pos: Pos)
    requires WritableInode(inode, |pos.inodes|, |pos.xattrs|)
    ensures
      var at := StartOf(|before|, inode);
      && at == InodeStart(|before|, LayoutOf(inode.content), SizeOf(inode.content),
                          XattrsSize(inode.xattrs))
      && WithInode(before, inode, blockOffset, pos)
         == PlacedAt(before, at, InodeBytes(inode, at, blockOffset, pos))
  {
  }

  method BlockOffset(out: Output, idx: nat, ghost pos: Pos) returns (n: nat)
    requires Answers(out.second, out.offsetTypes, out.offsets, pos) && idx < |pos.blocks|
    ensures n == pos.blocks[idx]
  {
    n := out.Get(BlockRun, idx);
  }

  method MeasureXattrs(x: InodeXAttrs, ghost m: nat) returns (n: nat)
    requires forall i :: 0 <= i < |x.shared| ==> x.shared[i] < m
    ensures n == XattrsSize(x)
  {
    var measure := new Output.First();
    WriteXattrs(measure, x, ZeroPos(0, m));
    n := measure.Len();
  }

  method AlignAndNote(out: Output, inode: Inode, xattrSize: nat)
    requires out.Valid()
    requires KindsSeen(out.notes) <= 3
    requires xattrSize == XattrsSize(inode.xattrs)
    modifies out
    ensures out.Valid()
    ensures |out.written| == StartOf(|old(out.written)|, inode)
    ensures out.written == old(out.written) + Zeros(|out.written| - |old(out.written)|)
    ensures out.notes == old(out.notes) + [Note(InodeTable, |out.written|)]
    ensures KindsSeen(out.notes) == 3
    ensures out.second ==> out.offsetTypes == old(out.offsetTypes) && out.offsets == old(out.offsets)
  {
    AlignInode(out, LayoutOf(inode.content), SizeOf(inode.content), xattrSize);
    out.NoteOffset(InodeTable);
  }

  method WriteInode(out: Output, inode: Inode, idx: nat, ghost pos: Pos)
    requires out.Valid()
    requires KindsSeen(out.notes) <= 3
    requires Answers(out.second, out.offsetTypes, out.offsets, pos) && Aligned(pos)
    requires idx < |pos.blocks| && WritableInode(inode, |pos.inodes|, |pos.xattrs|)
    modifies out
    ensures out.Valid()
    ensures out.written == WithInode(old(out.written), inode, pos.blocks[idx], pos)
    ensures out.notes == old(out.notes) + [Note(InodeTable, StartOf(|old(out.written)|, inode))]
    ensures KindsSeen(out.notes) == 3
    ensures out.second ==> out.offsetTypes == old(out.offsetTypes) && out.offsets == old(out.offsets)
  {
    ghost var before := out.written;
    hide *;
    InodeParts(inode, 0, 0, pos);
    var blockOffset := BlockOffset(out, idx, pos);

    // The attributes are measured by a first pass of their own, which starts at offset 0.
    var xattrSize := MeasureXattrs(inode.xattrs, |pos.xattrs|);

    AlignAndNote(out, inode, xattrSize);
    ghost var at := |out.written|;
    WithInodeParts(before, inode, pos.blocks[idx], pos);
    WriteInodeBody(out, inode, blockOffset, xattrSize, pos);
    ghost var body := InodeBytes(inode, at, pos.blocks[idx], pos);
    assert out.written == before + Zeros(at - |before|) + body;
    RoundUpLinear(|out.written|);
    PlacedBytes(before, at, body);
    out.Pad(32);
  }

  // ---- write_erofs ----

  /** What every step of `write_erofs` keeps: the output can still answer for `pos`. */
  ghost predicate Ready(out: Output, pos: Pos)
    reads out
  {
    out.Valid() && Answers(out.second, out.offsetTypes, out.offsets, pos) && Aligned(pos)
  }

  method NoteKind(out: Output, kind: Kind, ghost pos: Pos)
    requires Ready(out, pos) && KindsSeen(out.notes) <= kind.Index() + 1
    modifies out
    ensures Ready(out, pos) && out.written == old(out.written)
    ensures out.notes == old(out.notes) + [Note(kind, |out.written|)]
    ensures KindsSeen(out.notes) == kind.Index() + 1
  {
    ghost var t, o := out.offsetTypes, out.offsets;
    out.NoteOffset(kind);
    StillAnswers(out.second, t, o, out.offsetTypes, out.offsets, pos);
  }

  lemma StillAnswers(second: bool, t: seq<nat>, o: seq<nat>, t': seq<nat>, o': seq<nat>, pos: Pos)
    requires Answers(second, t, o, pos) && (second ==> t' == t && o' == o)
    ensures Answers(second, t', o', pos)
  {
  }

  method WriteHeader(out: Output, ghost pos: Pos)
    requires Ready(out, pos) && out.written == [] && out.notes == []
    modifies out
    ensures Ready(out, pos) && KindsSeen(out.notes) == 2 && out.notes == FIRST_NOTES
    ensures out.written == ComposefsHeaderRecord([0xd078629a, 1, 0, 2, 0]) + Zeros(992)
  {
    NoteKind(out, Header, pos);
    var header := ComposefsHeaderRecord([0xd078629a, 1, 0, 2, 0]);
    out.Write(header);
    assert out.written == header;
    assert RoundUp(32, 1024) == 1024;
    out.Pad(1024);
    NoteKind(out, Superblock, pos);
  }

  method WriteSuperblock(out: Output, n: nat, ghost inodes: seq<Inode>, ghost pos: Pos)
    requires Ready(out, pos) && inodes != [] && n == |inodes| == |pos.inodes|
    requires out.written == ComposefsHeaderRecord([0xd078629a, 1, 0, 2, 0]) + Zeros(992)
    modifies out`offset, out`output, out`written
    ensures Ready(out, pos) && out.written == Preamble(inodes, pos)
  {
    var rootNid := GetNid(out, 0, pos);
    var blocks := out.Get(End, 0) / 4096;
    out.Write(SuperblockRecord(SuperblockFields(rootNid, n, blocks)));
  }

  method WriteInodeAt(out: Output, inodes: seq<Inode>, k: nat, ghost m: nat, ghost pos: Pos)
    requires Ready(out, pos) && k < |inodes| && Covers(pos, |inodes|, m)
    requires forall i :: 0 <= i < |inodes| ==> WritableInode(inodes[i], |inodes|, m)
    requires out.written == AfterInodes(inodes, m, k, pos) && KindsSeen(out.notes) <= 3
    modifies out
    ensures Ready(out, pos) && KindsSeen(out.notes) == 3
    ensures out.written == AfterInodes(inodes, m, k + 1, pos)
    ensures out.notes
         == old(out.notes) + [Note(InodeTable, StartOf(InodesEnd(inodes, k), inodes[k]))]
  {
    hide StartOf, WithInode, EndAfter;
    ghost var t, o := out.offsetTypes, out.offsets;
    WriteInode(out, inodes[k], k, pos);
    StillAnswers(out.second, t, o, out.offsetTypes, out.offsets, pos);
  }

  method WriteInodes(out: Output, inodes: seq<Inode>, ghost m: nat, ghost pos: Pos, ghost at: seq<nat>)
    requires Ready(out, pos) && inodes != [] && Covers(pos, |inodes|, m)
    requires forall i :: 0 <= i < |inodes| ==> WritableInode(inodes[i], |inodes|, m)
    requires out.written == AfterInodes(inodes, m, 0, pos) && KindsSeen(out.notes) <= 3
    requires |at| == |inodes|
    requires forall i :: 0 <= i < |inodes| ==> at[i] == StartOf(InodesEnd(inodes, i), inodes[i])
    modifies out
    ensures Ready(out, pos) && KindsSeen(out.notes) == 3
    ensures out.written == AfterInodes(inodes, m, |inodes|, pos)
    ensures out.notes == old(out.notes) + NotesOf(InodeTable, at)
  {
    hide *;
    var k := 0;
    NotesEnds(InodeTable, at);
    while k < |inodes|
      invariant 0 <= k <= |inodes| && Ready(out, pos)
      invariant KindsSeen(out.notes) <= 3 && (k > 0 ==> KindsSeen(out.notes) == 3)
      invariant out.written == AfterInodes(inodes, m, k, pos)
      invariant out.notes == old(out.notes) + NotesOf(InodeTable, at[..k])
    {
      WriteInodeAt(out, inodes, k, m, pos);
      NotesSnoc(InodeTable, at, k);
      k := k + 1;
    }
  }

  lemma NotesEnds(kind: Kind, at: seq<nat>)
    ensures NotesOf(kind, at[..0]) == [] && at[..|at|] == at
  {
  }

  method WriteXattrAt(out: Output, ghost inodes: seq<Inode>, xattrs: seq<XAttr>, j: nat, ghost pos: Pos)
    requires Ready(out, pos) && Writable(inodes, xattrs) && Covers(pos, |inodes|, |xattrs|)
    requires j < |xattrs| && out.written == AfterXattrs(inodes, xattrs, j, pos)
    requires KindsSeen(out.notes) <= 4
    modifies out
    ensures Ready(out, pos) && KindsSeen(out.notes) == 4
    ensures out.written == AfterXattrs(inodes, xattrs, j + 1, pos)
    ensures out.notes == old(out.notes) + [Note(XAttrTable, XattrsEnd(inodes, xattrs, j))]
  {
    hide XAttrBytes, XAttrSize, Writable;
    NoteKind(out, XAttrTable, pos);
    WriteXAttr(out, xattrs[j]);
  }

  method WriteXattrTable(out: Output, ghost inodes: seq<Inode>, xattrs: seq<XAttr>, ghost pos: Pos,
                         ghost at: seq<nat>)
    requires Ready(out, pos) && Writable(inodes, xattrs) && Covers(pos, |inodes|, |xattrs|)
    requires out.written == AfterXattrs(inodes, xattrs, 0, pos) && KindsSeen(out.notes) <= 4
    requires |at| == |xattrs|
    requires forall j :: 0 <= j < |xattrs| ==> at[j] == XattrsEnd(inodes, xattrs, j)
    modifies out
    ensures Ready(out, pos) && KindsSeen(out.notes) <= 4
    ensures out.written == AfterXattrs(inodes, xattrs, |xattrs|, pos)
    ensures out.notes == old(out.notes) + NotesOf(XAttrTable, at)
  {
    hide *;
    var j := 0;
    NotesEnds(XAttrTable, at);
    while j < |xattrs|
      invariant 0 <= j <= |xattrs| && Ready(out, pos) && KindsSeen(out.notes) <= 4
      invariant out.written == AfterXattrs(inodes, xattrs, j, pos)
      invariant out.notes == old(out.notes) + NotesOf(XAttrTable, at[..j])
    {
      WriteXattrAt(out, inodes, xattrs, j, pos);
      NotesSnoc(XAttrTable, at, j);
      j := j + 1;
    }
  }

  method WriteBlockRun(out: Output, inodes: seq<Inode>, ghost xattrs: seq<XAttr>, k: nat, ghost pos: Pos)
    requires Ready(out, pos) && Writable(inodes, xattrs) && Covers(pos, |inodes|, |xattrs|)
    requires k < |inodes| && out.written == AfterBlocks(inodes, xattrs, k, pos)
    requires KindsSeen(out.notes) <= 5
    modifies out
    ensures Ready(out, pos) && KindsSeen(out.notes) == 5
    ensures out.written == AfterBlocks(inodes, xattrs, k + 1, pos)
    ensures out.notes == old(out.notes) + [Note(BlockRun, BlocksEnd(inodes, xattrs, k))]
  {
    hide StoredBlocks, StoredSize;
    NoteKind(out, BlockRun, pos);
    if inodes[k].content.DirContent? {
      WriteBlocks(out, inodes[k].content.dir.blocks, pos);
    }
  }

  method WriteBlockRuns(out: Output, inodes: seq<Inode>, ghost xattrs: seq<XAttr>, ghost pos: Pos,
                        ghost at: seq<nat>)
    requires Ready(out, pos) && Writable(inodes, xattrs) && Covers(pos, |inodes|, |xattrs|)
    requires out.written == AfterBlocks(inodes, xattrs, 0, pos) && KindsSeen(out.notes) <= 5
    requires |at| == |inodes|
    requires forall k :: 0 <= k < |inodes| ==> at[k] == BlocksEnd(inodes, xattrs, k)
    modifies out
    ensures Ready(out, pos) && KindsSeen(out.notes) <= 5
    ensures out.written == AfterBlocks(inodes, xattrs, |inodes|, pos)
    ensures out.notes == old(out.notes) + NotesOf(BlockRun, at)
  {
    hide *;
    var k := 0;
    NotesEnds(BlockRun, at);
    while k < |inodes|
      invariant 0 <= k <= |inodes| && Ready(out, pos) && KindsSeen(out.notes) <= 5
      invariant out.written == AfterBlocks(inodes, xattrs, k, pos)
      invariant out.notes == old(out.notes) + NotesOf(BlockRun, at[..k])
    {
      WriteBlockRun(out, inodes, xattrs, k, pos);
      NotesSnoc(BlockRun, at, k);
      k := k + 1;
    }
  }

  method PadToBlocks(out: Output, ghost inodes: seq<Inode>, ghost xattrs: seq<XAttr>, ghost pos: Pos)
    requires Ready(out, pos) && Writable(inodes, xattrs) && Covers(pos, |inodes|, |xattrs|)
    requires out.written == AfterXattrs(inodes, xattrs, |xattrs|, pos)
    modifies out`offset, out`output, out`written
    ensures Ready(out, pos) && out.written == AfterBlocks(inodes, xattrs, 0, pos)
  {
    hide AfterXattrs, XattrsEnd, Writable;
    RoundUpLinear(|out.written|);
    out.Pad(4096);
  }

  lemma Phases(inodes: seq<Inode>, xattrs: seq<XAttr>, pos: Pos)
    requires Writable(inodes, xattrs) && Covers(pos, |inodes|, |xattrs|)
    ensures forall i :: 0 <= i < |inodes| ==> WritableInode(inodes[i], |inodes|, |xattrs|)
    ensures inodes != [] && AfterInodes(inodes, |xattrs|, 0, pos) == Preamble(inodes, pos)
    ensures AfterXattrs(inodes, xattrs, 0, pos) == AfterInodes(inodes, |xattrs|, |inodes|, pos)
    ensures |pos.inodes| == |inodes|
  {
    hide Preamble, WritableInode;
  }

  lemma LastPhase(inodes: seq<Inode>, xattrs: seq<XAttr>, pos: Pos)
    requires Writable(inodes, xattrs) && Covers(pos, |inodes|, |xattrs|)
    ensures Image(inodes, xattrs, pos) == AfterBlocks(inodes, xattrs, |inodes|, pos)
    ensures |Image(inodes, xattrs, pos)| == BlocksEnd(inodes, xattrs, |inodes|)
    ensures KindsSeen(FIRST_NOTES) == 2 && End.Index() == 5
  {
  }

  lemma TruePosAt(inodes: seq<Inode>, xattrs: seq<XAttr>)
    ensures var at := TruePos(inodes, xattrs);
      && |at.inodes| == |at.blocks| == |inodes| && |at.xattrs| == |xattrs|
      && (forall i :: 0 <= i < |inodes| ==> at.inodes[i] == StartOf(InodesEnd(inodes, i), inodes[i]))
      && (forall j :: 0 <= j < |xattrs| ==> at.xattrs[j] == XattrsEnd(inodes, xattrs, j))
      && (forall k :: 0 <= k < |inodes| ==> at.blocks[k] == BlocksEnd(inodes, xattrs, k))
      && at.end == BlocksEnd(inodes, xattrs, |inodes|)
      && AllNotes(at) == FIRST_NOTES + NotesOf(InodeTable, at.inodes) + NotesOf(XAttrTable, at.xattrs)
                         + NotesOf(BlockRun, at.blocks) + [Note(End, at.end)]
  {
  }

  /** One run over the whole image, in either pass. */
  method WriteErofs(out: Output, inodes: seq<Inode>, xattrs: seq<XAttr>, ghost pos: Pos)
    requires Ready(out, pos) && out.written == [] && out.notes == []
    requires Writable(inodes, xattrs) && Covers(pos, |inodes|, |xattrs|)
    modifies out
    ensures Ready(out, pos)
    ensures out.written == Image(inodes, xattrs, pos)
    ensures out.notes == AllNotes(TruePos(inodes, xattrs))
  {
    hide *;
    ghost var at := TruePos(inodes, xattrs);
    Phases(inodes, xattrs, pos);
    LastPhase(inodes, xattrs, pos);
    TruePosAt(inodes, xattrs);
    WriteHeader(out, pos);
    WriteSuperblock(out, |inodes|, inodes, pos);
    WriteInodes(out, inodes, |xattrs|, pos, at.inodes);
    WriteXattrTable(out, inodes, xattrs, pos, at.xattrs);
    PadToBlocks(out, inodes, xattrs, pos);
    WriteBlockRuns(out, inodes, xattrs, pos, at.blocks);
    NoteKind(out, End, pos);
  }

  /** The offsets that the second pass is told are where the structures of its output are. */
  function FinalImage(inodes: seq<Inode>, xattrs: seq<XAttr>): bytes
    requires Writable(inodes, xattrs)
  {
    Image(inodes, xattrs, TruePos(inodes, xattrs))
  }

  /** `mkfs_erofs` after collecting and sharing: two runs, the first for the layout.  The
      second emits the image in which every reference is the true position of its target. */
  method WriteImage(inodes: seq<Inode>, xattrs: seq<XAttr>) returns (image: bytes)
    requires Writable(inodes, xattrs)
    requires |FinalImage(inodes, xattrs)| < 0x1_0000_0000
    ensures image == FinalImage(inodes, xattrs)
  {
    hide Image, TruePos, Writable, AllNotes;
    ghost var zero, pos := ZeroPos(|inodes|, |xattrs|), TruePos(inodes, xattrs);
    var first := new Output.First();
    WriteErofs(first, inodes, xattrs, zero);
    var types, offsets := first.offsetTypes, first.offsets;
    LayoutAnswers(pos, types, offsets) by {
      Phases(inodes, xattrs, pos);
    }
    TruePosAligned(inodes, xattrs);
    var second := new Output.Second(types, offsets);
    WriteErofs(second, inodes, xattrs, pos);
    image := second.output;
  }

  lemma TruePosAligned(inodes: seq<Inode>, xattrs: seq<XAttr>)
    requires BlocksEnd(inodes, xattrs, |inodes|) < 0x1_0000_0000
    ensures Aligned(TruePos(inodes, xattrs))
  {
    forall j | 0 <= j < |xattrs|
      ensures XattrsEnd(inodes, xattrs, j) <= BlocksEnd(inodes, xattrs, |inodes|)
    {
      XattrsEndGrows(inodes, xattrs, j, |xattrs|);
      BlocksEndGrows(inodes, xattrs, 0, |inodes|);
    }
  }

  lemma {:induction false} XattrsEndGrows(inodes: seq<Inode>, xattrs: seq<XAttr>, i: nat, j: nat)
    requires i <= j <= |xattrs|
    ensures XattrsEnd(inodes, xattrs, i) <= XattrsEnd(inodes, xattrs, j)
  {
    if i < j {
      XattrsEndGrows(inodes, xattrs, i, j - 1);
    }
  }

  lemma {:induction false} BlocksEndGrows(inodes: seq<Inode>, xattrs: seq<XAttr>, i: nat, j: nat)
    requires i <= j <= |inodes|
    ensures BlocksEnd(inodes, xattrs, i) <= BlocksEnd(inodes, xattrs, j)
  {
    if i < j {
      BlocksEndGrows(inodes, xattrs, i, j - 1);
    }
  }
}
