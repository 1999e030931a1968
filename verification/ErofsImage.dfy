/** The bytes of an EROFS image as a function of the inode table, the shared attributes and
    the offsets that structures refer to.  The lengths never depend on those offsets: each
    function below promises its length without mentioning `pos`. */
module ErofsImage {
  import opened Bytes
  import opened Tree
  import opened ErofsFormat

  datatype InodeXAttrs = InodeXAttrs(shared: seq<nat>, local: seq<XAttr>, filter: nat)

  datatype DirEnt = DirEnt(name: bytes, inode: nat, fileType: FileType)

  datatype Directory =
    Directory(blocks: seq<seq<DirEnt>>, inline: seq<DirEnt>, size: nat, nlink: nat)

  datatype Content =
    | DirContent(dir: Directory)
    | LeafContent(content: Tree.LeafContent, links: nat)
  {
    function FileType(): ErofsFormat.FileType {
      match this
      case DirContent(_) => ErofsFormat.Directory
      case LeafContent(c, _) => FileTypeOfContent(c)
    }
  }

  datatype Inode = Inode(stat: Stat, xattrs: InodeXAttrs, content: Content)

  /** Offsets of the i-th inode, shared attribute and block run, and the end of the image. */
  datatype Pos = Pos(inodes: seq<nat>, xattrs: seq<nat>, blocks: seq<nat>, end: nat)

  /** What is written: every index used by an inode is an index into the table. */
  ghost predicate Writable(inodes: seq<Inode>, xattrs: seq<XAttr>) {
    && inodes != []
    && forall k :: 0 <= k < |inodes| ==> WritableInode(inodes[k], |inodes|, |xattrs|)
  }

  ghost predicate WritableInode(inode: Inode, n: nat, m: nat) {
    && (forall i :: 0 <= i < |inode.xattrs.shared| ==> inode.xattrs.shared[i] < m)
    && (inode.content.DirContent? ==>
          && WritableBlock(inode.content.dir.inline, n)
          && forall b :: 0 <= b < |inode.content.dir.blocks| ==>
               WritableBlock(inode.content.dir.blocks[b], n))
  }

  ghost predicate WritableBlock(block: seq<DirEnt>, n: nat) {
    forall i :: 0 <= i < |block| ==> block[i].inode < n
  }

  ghost predicate Covers(pos: Pos, n: nat, m: nat) {
    |pos.inodes| == n && |pos.blocks| == n && |pos.xattrs| == m
  }

  // ---- extended attributes ----

  function XAttrSize(x: XAttr): nat {
    Up4(4 + |x.suffix| + |x.value|)
  }

  function XAttrBytes(x: XAttr): (b: bytes)
    ensures |b| == XAttrSize(x)
  {
    XattrRecord([|x.suffix|, x.prefix, |x.value|]) + x.suffix + x.value
      + Zeros(XAttrSize(x) - (4 + |x.suffix| + |x.value|))
  }

  function LocalsSize(xs: seq<XAttr>): nat {
    if xs == [] then 0 else XAttrSize(xs[0]) + LocalsSize(xs[1..])
  }

  function Locals(xs: seq<XAttr>): (b: bytes)
    ensures |b| == LocalsSize(xs)
  {
    if xs == [] then [] else XAttrBytes(xs[0]) + Locals(xs[1..])
  }

  function SharedIds(ids: seq<nat>, pos: Pos): (b: bytes)
    requires forall i :: 0 <= i < |ids| ==> ids[i] < |pos.xattrs|
    ensures |b| == 4 * |ids|
  {
    if ids == [] then [] else LE(pos.xattrs[ids[0]] / 4, 4) + SharedIds(ids[1..], pos)
  }

  function XattrsSize(x: InodeXAttrs): nat {
    if x.filter == 0 then 0 else 12 + 4 * |x.shared| + LocalsSize(x.local)
  }

  /** `!filter` on 32 bits. */
  function Complement(filter: nat): nat {
    0xFFFF_FFFF - filter % 0x1_0000_0000
  }

  function XattrsBytes(x: InodeXAttrs, pos: Pos): (b: bytes)
    requires forall i :: 0 <= i < |x.shared| ==> x.shared[i] < |pos.xattrs|
    ensures |b| == XattrsSize(x)
  {
    if x.filter == 0 then []
    else
      XattrsRecord([Complement(x.filter), |x.shared|, 0])
      + SharedIds(x.shared, pos) + Locals(x.local)
  }

  // ---- directory blocks ----

  function NamesSize(block: seq<DirEnt>): nat {
    if block == [] then 0 else |block[0].name| + NamesSize(block[1..])
  }

  function BlockSize(block: seq<DirEnt>): nat {
    12 * |block| + NamesSize(block)
  }

  function DirHeader(e: DirEnt, nameOffset: nat, pos: Pos): (b: bytes)
    requires e.inode < |pos.inodes|
    ensures |b| == 12
  {
    DirentRecord([pos.inodes[e.inode] / 32, nameOffset, e.fileType.Number(), 0])
  }

  function DirHeaders(block: seq<DirEnt>, nameOffset: nat, pos: Pos): (b: bytes)
    requires WritableBlock(block, |pos.inodes|)
    ensures |b| == 12 * |block|
  {
    if block == [] then []
    else
      DirHeader(block[0], nameOffset, pos)
      + DirHeaders(block[1..], nameOffset + |block[0].name|, pos)
  }

  function DirNames(block: seq<DirEnt>): (b: bytes)
    ensures |b| == NamesSize(block)
  {
    if block == [] then [] else block[0].name + DirNames(block[1..])
  }

  function BlockBytes(block: seq<DirEnt>, pos: Pos): (b: bytes)
    requires WritableBlock(block, |pos.inodes|)
    ensures |b| == BlockSize(block)
  {
    DirHeaders(block, 12 * |block|, pos) + DirNames(block)
  }

  function StoredBlock(block: seq<DirEnt>, pos: Pos): (b: bytes)
    requires WritableBlock(block, |pos.inodes|)
    ensures |b| == UpBlock(BlockSize(block))
  {
    BlockBytes(block, pos) + Zeros(UpBlock(BlockSize(block)) - BlockSize(block))
  }

  function StoredSize(blocks: seq<seq<DirEnt>>): (n: nat)
    ensures n % 4096 == 0
  {
    if blocks == [] then 0 else UpBlock(BlockSize(blocks[0])) + StoredSize(blocks[1..])
  }

  function StoredBlocks(blocks: seq<seq<DirEnt>>, pos: Pos): (b: bytes)
    requires forall i :: 0 <= i < |blocks| ==> WritableBlock(blocks[i], |pos.inodes|)
    ensures |b| == StoredSize(blocks)
  {
    if blocks == [] then [] else StoredBlock(blocks[0], pos) + StoredBlocks(blocks[1..], pos)
  }

  // ---- inodes ----

  function LayoutOf(c: Content): DataLayout {
    match c
    case DirContent(dir) => if dir.inline == [] then FlatPlain else FlatInline
    case LeafContent(Inline(data), _) => if data == [] then FlatPlain else FlatInline
    case LeafContent(External(_, _), _) => ChunkBased
    case LeafContent(Symlink(_), _) => FlatInline
    case LeafContent(_, _) => FlatPlain
  }

  /** The union field: a block number, a chunk format or a device number, as a `u32`. */
  function UnionOf(c: Content, blockOffset: nat): nat {
    match c
    case DirContent(dir) =>
      if dir.inline == [] || dir.blocks != [] then blockOffset % 0x1_0000_0000 / 4096 else 0
    case LeafContent(External(_, _), _) => 31
    case LeafContent(BlockDevice(rdev), _) => rdev % 0x1_0000_0000
    case LeafContent(CharacterDevice(rdev), _) => rdev % 0x1_0000_0000
    case LeafContent(_, _) => 0
  }

  function SizeOf(c: Content): nat {
    match c
    case DirContent(dir) => dir.size
    case LeafContent(Inline(data), _) => |data|
    case LeafContent(External(_, size), _) => size
    case LeafContent(Symlink(target), _) => |target|
    case LeafContent(_, _) => 0
  }

  function LinksOf(c: Content): nat {
    if c.DirContent? then c.dir.nlink else c.links
  }

  function TailSize(c: Content): nat {
    match c
    case DirContent(dir) => BlockSize(dir.inline)
    case LeafContent(Inline(data), _) => |data|
    case LeafContent(External(_, _), _) => 4
    case LeafContent(Symlink(target), _) => |target|
    case LeafContent(_, _) => 0
  }

  function TailBytes(c: Content, pos: Pos): (b: bytes)
    requires c.DirContent? ==> WritableBlock(c.dir.inline, |pos.inodes|)
    ensures |b| == TailSize(c)
  {
    match c
    case DirContent(dir) => BlockBytes(dir.inline, pos)
    case LeafContent(Inline(data), _) => data
    case LeafContent(External(_, _), _) => [255, 255, 255, 255]
    case LeafContent(Symlink(target), _) => target
    case LeafContent(_, _) => []
  }

  /** `xattr_icount` of a section of `n` bytes. */
  function Icount(n: nat): nat {
    if n == 0 then 0 else if n < 12 then 1 else 1 + (n - 12) / 4
  }

  function AsU64(m: i64): nat {
    if m < 0 then m + 0x1_0000_0000_0000_0000 else m
  }

  function HeaderFields(inode: Inode, xattrSize: nat, at: nat, blockOffset: nat): (vs: seq<nat>)
    ensures |vs| == 13
  {
    [FormatOf(LayoutOf(inode.content)), Icount(xattrSize),
     ModeOf(inode.content.FileType(), inode.stat.mode), 0, SizeOf(inode.content),
     UnionOf(inode.content, blockOffset), at / 32, inode.stat.uid, inode.stat.gid,
     AsU64(inode.stat.mtime), 0, LinksOf(inode.content), 0]
  }

  /** Where the inode goes when the image is `len` bytes long: aligned to 32, and moved past
      the next block boundary when its inline tail would cross it. */
  function InodeStart(len: nat, layout: DataLayout, size: nat, xattrSize: nat): (at: nat)
    ensures at >= len && at % 32 == 0
  {
    var at := Up32(len);
    if layout != FlatInline then at
    else
      var inlineStart := at + 64 + xattrSize;
      var endOfMetadata := inlineStart - 1;
      var inlineEnd := inlineStart + size % 4096;
      if endOfMetadata / 4096 != inlineEnd / 4096
      then Up32(at + (4096 - endOfMetadata % 4096))
      else at
  }

  function StartOf(len: nat, inode: Inode): (at: nat)
    ensures at >= len && at % 32 == 0
  {
    InodeStart(len, LayoutOf(inode.content), SizeOf(inode.content), XattrsSize(inode.xattrs))
  }

  function InodeSize(inode: Inode): nat {
    64 + XattrsSize(inode.xattrs) + TailSize(inode.content)
  }

  function InodeBytes(inode: Inode, at: nat, blockOffset: nat, pos: Pos): (b: bytes)
    requires WritableInode(inode, |pos.inodes|, |pos.xattrs|)
    ensures |b| == InodeSize(inode)
  {
    InodeRecord(HeaderFields(inode, XattrsSize(inode.xattrs), at, blockOffset))
    + XattrsBytes(inode.xattrs, pos) + TailBytes(inode.content, pos)
  }

  // ---- the image, structure by structure ----

  function Pad32(out: bytes): (b: bytes)
    ensures |b| == Up32(|out|)
  {
    out + Zeros(Up32(|out|) - |out|)
  }

  function PadBlock(out: bytes): (b: bytes)
    ensures |b| == UpBlock(|out|)
  {
    out + Zeros(UpBlock(|out|) - |out|)
  }

  const SUPERBLOCK_AT: nat := 1024
  const INODES_AT: nat := 1152

  function SuperblockFields(rootNid: nat, inos: nat, blocks: nat): (vs: seq<nat>)
    ensures |vs| == 13
  {
    [0xE0F5E1E2, 0, 6, 12, 0, rootNid, inos, 0, 0, blocks, 0, 0, 0]
  }

  function Preamble(inodes: seq<Inode>, pos: Pos): (b: bytes)
    requires |pos.inodes| == |inodes| && inodes != []
    ensures |b| == INODES_AT
  {
    ComposefsHeaderRecord([0xd078629a, 1, 0, 2, 0]) + Zeros(992)
    + SuperblockRecord(SuperblockFields(pos.inodes[0] / 32, |inodes|, pos.end / 4096))
  }

  function EndAfter(len: nat, inode: Inode): (n: nat)
    ensures n % 32 == 0 && n >= len
  {
    PlacedEnd(StartOf(len, inode), InodeSize(inode))
  }

  function PlacedEnd(at: nat, size: nat): nat {
    Up32(at + size)
  }

  /** `body` at offset `at`, the gap zeroed, the end aligned. */
  function PlacedAt(before: bytes, at: nat, body: bytes): (b: bytes)
    requires at >= |before|
    ensures |b| == PlacedEnd(at, |body|)
  {
    Pad32(before + Zeros(at - |before|) + body)
  }

  /** One inode appended: alignment, record, attributes, tail, alignment. */
  function WithInode(before: bytes, inode: Inode, blockOffset: nat, pos: Pos): (b: bytes)
    requires WritableInode(inode, |pos.inodes|, |pos.xattrs|)
    ensures |b| == EndAfter(|before|, inode)
  {
    var at := StartOf(|before|, inode);
    PlacedAt(before, at, InodeBytes(inode, at, blockOffset, pos))
  }

  /** The image after the first `k` inodes. */
  function AfterInodes(inodes: seq<Inode>, m: nat, k: nat, pos: Pos): (b: bytes)
    requires inodes != [] && k <= |inodes|
    requires Covers(pos, |inodes|, m)
    requires forall i :: 0 <= i < |inodes| ==> WritableInode(inodes[i], |inodes|, m)
    ensures |b| == InodesEnd(inodes, k)
  {
    if k == 0 then Preamble(inodes, pos)
    else WithInode(AfterInodes(inodes, m, k - 1, pos), inodes[k - 1], pos.blocks[k - 1], pos)
  }

  function InodesEnd(inodes: seq<Inode>, k: nat): (n: nat)
    requires k <= |inodes|
    ensures n % 32 == 0
  {
    if k == 0 then INODES_AT
    else EndAfter(InodesEnd(inodes, k - 1), inodes[k - 1])
  }

  /** The image after all inodes and the first `j` shared attributes. */
  function AfterXattrs(inodes: seq<Inode>, xattrs: seq<XAttr>, j: nat, pos: Pos): (b: bytes)
    requires Writable(inodes, xattrs) && Covers(pos, |inodes|, |xattrs|) && j <= |xattrs|
    ensures |b| == XattrsEnd(inodes, xattrs, j)
  {
    if j == 0 then AfterInodes(inodes, |xattrs|, |inodes|, pos)
    else AfterXattrs(inodes, xattrs, j - 1, pos) + XAttrBytes(xattrs[j - 1])
  }

  function XattrsEnd(inodes: seq<Inode>, xattrs: seq<XAttr>, j: nat): (n: nat)
    requires j <= |xattrs|
    ensures n % 4 == 0
  {
    if j == 0 then InodesEnd(inodes, |inodes|)
    else
      SumAligned(XattrsEnd(inodes, xattrs, j - 1), xattrs[j - 1]);
      XattrsEnd(inodes, xattrs, j - 1) + XAttrSize(xattrs[j - 1])
  }

  lemma SumAligned(n: nat, x: XAttr)
    requires n % 4 == 0
    ensures (n + XAttrSize(x)) % 4 == 0
  {
  }

  /** The image after the block runs of the first `k` inodes. */
  function AfterBlocks(inodes: seq<Inode>, xattrs: seq<XAttr>, k: nat, pos: Pos): (b: bytes)
    requires Writable(inodes, xattrs) && Covers(pos, |inodes|, |xattrs|) && k <= |inodes|
    ensures |b| == BlocksEnd(inodes, xattrs, k)
  {
    if k == 0 then PadBlock(AfterXattrs(inodes, xattrs, |xattrs|, pos))
    else
      AfterBlocks(inodes, xattrs, k - 1, pos)
      + (if inodes[k - 1].content.DirContent?
         then StoredBlocks(inodes[k - 1].content.dir.blocks, pos) else [])
  }

  function BlocksEnd(inodes: seq<Inode>, xattrs: seq<XAttr>, k: nat): (n: nat)
    requires k <= |inodes|
    ensures n % 4096 == 0
  {
    if k == 0 then UpBlock(XattrsEnd(inodes, xattrs, |xattrs|))
    else
      BlocksEnd(inodes, xattrs, k - 1)
      + (if inodes[k - 1].content.DirContent?
         then StoredSize(inodes[k - 1].content.dir.blocks) else 0)
  }

  /** What `write_erofs` emits when offsets are answered by `pos`. */
  function Image(inodes: seq<Inode>, xattrs: seq<XAttr>, pos: Pos): (b: bytes)
    requires Writable(inodes, xattrs) && Covers(pos, |inodes|, |xattrs|)
    ensures |b| == BlocksEnd(inodes, xattrs, |inodes|)
  {
    AfterBlocks(inodes, xattrs, |inodes|, pos)
  }

  /** Where each structure really is: the lengths alone decide. */
  function TruePos(inodes: seq<Inode>, xattrs: seq<XAttr>): (pos: Pos)
    ensures Covers(pos, |inodes|, |xattrs|)
    ensures forall i :: 0 <= i < |inodes| ==> pos.inodes[i] % 32 == 0
    ensures forall j :: 0 <= j < |xattrs| ==> pos.xattrs[j] % 4 == 0
    ensures forall i :: 0 <= i < |inodes| ==> pos.blocks[i] % 4096 == 0
  {
    Pos(seq(|inodes|, i requires 0 <= i < |inodes| =>
              StartOf(InodesEnd(inodes, i), inodes[i])),
        seq(|xattrs|, j requires 0 <= j < |xattrs| => XattrsEnd(inodes, xattrs, j)),
        seq(|inodes|, i requires 0 <= i < |inodes| => BlocksEnd(inodes, xattrs, i)),
        BlocksEnd(inodes, xattrs, |inodes|))
  }

  /** The answers of the first pass. */
  function ZeroPos(n: nat, m: nat): (pos: Pos)
    ensures Covers(pos, n, m)
  {
    Pos(seq(n, _ => 0), seq(m, _ => 0), seq(n, _ => 0), 0)
  }

  // ---- the tail rule ----

  /** Where the inline tail starts. */
  function TailStart(at: nat, xattrSize: nat): nat {
    at + 64 + xattrSize
  }

  ghost predicate TailInOneBlock(at: nat, xattrSize: nat, tail: nat) {
    var s := TailStart(at, xattrSize);
    tail == 0 || s / 4096 == (s + tail - 1) / 4096
  }

  /** A tail of at most 4064 bytes always ends up inside one block. */
  lemma TailRule(len: nat, size: nat, xattrSize: nat)
    requires size % 4096 <= 4064
    ensures TailInOneBlock(InodeStart(len, FlatInline, size, xattrSize), xattrSize, size % 4096)
  {
    TailRuleExact(len, size, xattrSize);
  }

  /** Position, within its block, of a tail that was moved past a block boundary. */
  function MovedTail(xattrSize: nat): (m: nat)
    ensures 1 <= m <= 32
  {
    if xattrSize % 32 == 0 then 32 else xattrSize % 32
  }

  ghost predicate NeedsMove(len: nat, size: nat, xattrSize: nat) {
    var s := Up32(len) + 64 + xattrSize;
    (s - 1) / 4096 != (s + size % 4096) / 4096
  }

  /** The rule holds exactly when the inode stays in place or the tail, placed right after
      its metadata in a fresh block, fits there. */
  lemma TailRuleExact(len: nat, size: nat, xattrSize: nat)
    ensures TailInOneBlock(InodeStart(len, FlatInline, size, xattrSize), xattrSize, size % 4096)
         <==> !NeedsMove(len, size, xattrSize) || MovedTail(xattrSize) + size % 4096 <= 4096
  {
    var at := Up32(len);
    var s := TailStart(at, xattrSize);
    var t := size % 4096;
    if NeedsMove(len, size, xattrSize) {
      MoveLands(at, xattrSize);
      InBlock((s - 1) / 4096 + 1, MovedTail(xattrSize), t);
    } else {
      NotMoved(s, t);
    }
  }

  lemma InBlock(b: nat, m: nat, t: nat)
    requires 1 <= m <= 32 && t < 4096
    ensures (b * 4096 + m) / 4096 == b
    ensures t > 0 ==> ((b * 4096 + m + t - 1) / 4096 == b <==> m + t <= 4096)
  {
  }

  lemma NotMoved(s: nat, t: nat)
    requires s > 0 && (s - 1) / 4096 == (s + t) / 4096
    ensures t > 0 ==> s / 4096 == (s + t - 1) / 4096
  {
  }

  /** A moved inode puts its tail at `MovedTail` in the next block. */
  lemma MoveLands(at: nat, xattrSize: nat)
    requires at % 32 == 0
    ensures
      var e := TailStart(at, xattrSize) - 1;
      TailStart(Up32(at + (4096 - e % 4096)), xattrSize)
      == (e / 4096 + 1) * 4096 + MovedTail(xattrSize)
  {
    var e := TailStart(at, xattrSize) - 1;
    var b := e / 4096 + 1;
    assert at + (4096 - e % 4096) == b * 4096 - 63 - xattrSize;
    var start := Up32(b * 4096 - 63 - xattrSize);
    var q, x := start / 32, xattrSize / 32;
    var r := start + 64 + xattrSize - b * 4096;
    assert 1 <= r <= 32;
    assert r == 32 * (q + 2 + x - 128 * b) + xattrSize % 32;
  }

  /** The bound 4064 is sharp: a tail of 4065 bytes can straddle two blocks. */
  lemma TailRuleIsSharp()
    ensures !TailInOneBlock(InodeStart(1152, FlatInline, 4065, 0), 0, 4065)
  {
    TailRuleExact(1152, 4065, 0);
    assert Up32(1152) == 1152 && MovedTail(0) == 32;
    assert NeedsMove(1152, 4065, 0);
  }
}
