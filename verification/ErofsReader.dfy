/** Parsing an EROFS image (erofs/reader.rs).  `None` stands for a panic of the reader: a
    slice out of bounds, a failed `unwrap` or a failed assert. */
module ErofsReader {
  import opened Bytes
  import opened ErofsFormat

  datatype Img = Img(image: bytes, blkszbits: nat, rootNid: nat, inodes: bytes, xattrs: bytes)

  datatype View =
    View(extended: bool, layout: DataLayout, icount: nat, mode: nat, size: nat, union: nat,
         uid: nat, gid: nat, mtime: nat, nlink: nat, data: bytes)

  datatype Entry = Entry(name: bytes, nid: nat, fileType: nat)

  datatype XattrsView = XattrsView(filter: nat, shared: seq<nat>, local: seq<XAttr>)

  datatype Parsed<+T> = Parsed(value: T, rest: bytes)

  function Drop(b: bytes, n: nat): Option<bytes> {
    if n <= |b| then Some(b[n..]) else None
  }

  function Slice(b: bytes, lo: nat, hi: nat): Option<bytes> {
    if lo <= hi <= |b| then Some(b[lo..hi]) else None
  }

  /** Reads a record from the front of `b`. */
  function Record(ws: seq<nat>, b: bytes): Option<seq<nat>> {
    if Sum(ws) <= |b| then Some(Unpack(ws, b)) else None
  }

  // ---- opening ----

  function Open(image: bytes): Option<Img> {
    if |image| < 1024 || |image[1024..]| < Sum(SUPERBLOCK_WIDTHS) then None
    else
      var sb := Unpack(SUPERBLOCK_WIDTHS, image[1024..]);
      var blkszbits, rootNid, meta, xattr := sb[3], sb[5], sb[10], sb[11];
      if blkszbits >= 64 then None
      else
        var inodes := Drop(image, meta * Pow2(blkszbits));
        var xattrs := Drop(image, xattr * Pow2(blkszbits));
        if inodes.None? || xattrs.None? then None
        else Some(Img(image, blkszbits, rootNid, inodes.value, xattrs.value))
  }

  // ---- inodes ----

  function XattrSize(icount: nat): nat {
    if icount == 0 then 0 else (icount - 1) * 4 + 12
  }

  function AdditionalBytes(layout: DataLayout, icount: nat, size: nat, blockSize: nat): nat
    requires blockSize > 0
  {
    XattrSize(icount) + match layout
      case FlatPlain => 0
      case FlatInline => size % blockSize
      case ChunkBased => 4
  }

  function ReadInode(img: Img, nid: nat): Option<View> {
    match Drop(img.inodes, nid * 32)
    case None => None
    case Some(data) =>
      if data == [] then None
      else if IsExtended(data[0]) then ReadExtended(data, img.blkszbits)
      else ReadCompact(data, img.blkszbits)
  }

  function ReadExtended(data: bytes, blkszbits: nat): Option<View> {
    match Record(INODE_WIDTHS, data)
    case None => None
    case Some(vs) =>
      WithData(View(true, FlatPlain, vs[1], vs[2], vs[4], vs[5], vs[7], vs[8], vs[9], vs[11], []),
               vs[0], data[Sum(INODE_WIDTHS)..], blkszbits)
  }

  function ReadCompact(data: bytes, blkszbits: nat): Option<View> {
    match Record(COMPACT_WIDTHS, data)
    case None => None
    case Some(vs) =>
      WithData(View(false, FlatPlain, vs[1], vs[2], vs[4], vs[6], vs[8], vs[9], 0, vs[3], []),
               vs[0], data[Sum(COMPACT_WIDTHS)..], blkszbits)
  }

  /** Adds the layout and the bytes that follow the header. */
  function WithData(v: View, format: nat, after: bytes, blkszbits: nat): Option<View> {
    match DataLayoutOf(format)
    case None => None
    case Some(layout) =>
      match Slice(after, 0, AdditionalBytes(layout, v.icount, v.size, Pow2(blkszbits)))
      case None => None
      case Some(data) => Some(v.(layout := layout, data := data))
  }

  /** The inline part: what follows the attributes, when there is any. */
  function InlineOf(v: View): Option<bytes> {
    Drop(v.data, XattrSize(v.icount))
  }

  datatype Range = Range(start: nat, end: nat)

  function Quotient(a: nat, b: nat): nat
    requires b > 0
  {
    a / b
  }

  function BlocksOf(v: View, blkszbits: nat): Range {
    var size := Pow2(blkszbits);
    match v.layout
    case FlatPlain => Range(v.union, v.union + Quotient(v.size + size - 1, size))
    case FlatInline => Range(v.union, v.union + Quotient(v.size, size))
    case ChunkBased => Range(v.union, v.union)
  }

  // ---- extended attributes ----

  function ParseXattr(data: bytes): Option<Parsed<XAttr>> {
    match Record(XATTR_WIDTHS, data)
    case None => None
    case Some(vs) =>
      var nameLen, valueLen := vs[0], vs[2];
      var size := 4 + Up4(nameLen + valueLen);
      if size <= |data| then
        Some(Parsed(XAttr(vs[1], data[4..4 + nameLen], data[4 + nameLen..4 + nameLen + valueLen]),
                    data[size..]))
      else None
  }

  function LocalXattrs(data: bytes): Option<seq<XAttr>>
    decreases |data|
  {
    if data == [] then Some([])
    else
      match ParseXattr(data)
      case None => None
      case Some(p) =>
        match LocalXattrs(p.rest)
        case None => None
        case Some(xs) => Some([p.value] + xs)
  }

  function Ids(n: nat, data: bytes): Option<Parsed<seq<nat>>> {
    if n == 0 then Some(Parsed([], data))
    else if |data| < 4 then None
    else
      match Ids(n - 1, data[4..])
      case None => None
      case Some(p) => Some(Parsed([FromLE(data[..4])] + p.value, p.rest))
  }

  /** The attribute section of an inode; absent when its size is 0. */
  function ReadXattrs(v: View): Option<Option<XattrsView>> {
    if v.icount == 0 then Some(None)
    else
      match Slice(v.data, 0, XattrSize(v.icount))
      case None => None
      case Some(section) =>
        match ParseXattrs(section)
        case None => None
        case Some(x) => Some(Some(x))
  }

  function ParseXattrs(section: bytes): Option<XattrsView> {
    match Record(XATTRS_WIDTHS, section)
    case None => None
    case Some(vs) =>
      match Ids(vs[1], section[Sum(XATTRS_WIDTHS)..])
      case None => None
      case Some(p) =>
        match LocalXattrs(p.rest)
        case None => None
        case Some(local) => Some(XattrsView(vs[0], p.value, local))
  }

  function SharedXattr(img: Img, id: nat): Option<XAttr> {
    match Drop(img.xattrs, id * 4)
    case None => None
    case Some(data) =>
      match ParseXattr(data)
      case None => None
      case Some(p) => Some(p.value)
  }

  function SharedXattrs(img: Img, ids: seq<nat>): Option<seq<XAttr>> {
    if ids == [] then Some([])
    else
      match SharedXattr(img, ids[0])
      case None => None
      case Some(x) =>
        match SharedXattrs(img, ids[1..])
        case None => None
        case Some(xs) => Some([x] + xs)
  }

  /** All attributes of an inode: the shared ones, looked up, then the local ones. */
  function AllXattrs(img: Img, v: View): Option<seq<XAttr>> {
    match ReadXattrs(v)
    case None => None
    case Some(None) => Some([])
    case Some(Some(x)) =>
      match SharedXattrs(img, x.shared)
      case None => None
      case Some(shared) => Some(shared + x.local)
  }

  // ---- directories ----

  /** `[inode_offset, name_offset, file_type, reserved]` of entry `i`. */
  function EntryHeader(block: bytes, i: nat): Option<seq<nat>> {
    match Slice(block, i * 12, (i + 1) * 12)
    case None => None
    case Some(b) => Record(DIRENT_WIDTHS, b)
  }

  function EntryCount(block: bytes): Option<nat> {
    match EntryHeader(block, 0)
    case None => None
    case Some(h) => if h[1] != 0 && h[1] % 12 == 0 then Some(h[1] / 12) else None
  }

  /** Entry `i` of `n`.  The last name runs up to the zero padding. */
  function EntryAt(block: bytes, n: nat, i: nat): Option<Entry> {
    match EntryHeader(block, i)
    case None => None
    case Some(h) =>
      if i + 1 == n then
        match Drop(block, h[1])
        case None => None
        case Some(padded) => Some(Entry(padded[..FirstZero(padded)], h[0], h[2]))
      else
        match EntryHeader(block, i + 1)
        case None => None
        case Some(next) =>
          match Slice(block, h[1], next[1])
          case None => None
          case Some(name) => Some(Entry(name, h[0], h[2]))
  }

  function EntriesFrom(block: bytes, n: nat, i: nat): Option<seq<Entry>>
    decreases n - i
  {
    if i >= n then Some([])
    else
      match EntryAt(block, n, i)
      case None => None
      case Some(e) =>
        match EntriesFrom(block, n, i + 1)
        case None => None
        case Some(es) => Some([e] + es)
  }

  function BlockEntries(block: bytes): Option<seq<Entry>> {
    match EntryCount(block)
    case None => None
    case Some(n) => EntriesFrom(block, n, 0)
  }

  function ReadBlock(img: Img, id: nat): Option<bytes> {
    Slice(img.image, id * Pow2(img.blkszbits), (id + 1) * Pow2(img.blkszbits))
  }

  function BlockRangeEntries(img: Img, start: nat, end: nat): Option<seq<Entry>>
    decreases end - start
  {
    if start >= end then Some([])
    else
      match ReadBlock(img, start)
      case None => None
      case Some(block) =>
        match BlockEntries(block)
        case None => None
        case Some(es) =>
          match BlockRangeEntries(img, start + 1, end)
          case None => None
          case Some(rest) => Some(es + rest)
  }

  /** The entries of a directory: its blocks, then its inline part when that is not empty. */
  function DirEntries(img: Img, v: View): Option<seq<Entry>> {
    var r := BlocksOf(v, img.blkszbits);
    match BlockRangeEntries(img, r.start, r.end)
    case None => None
    case Some(es) =>
      match InlineOf(v)
      case None => None
      case Some(inline) =>
        if inline == [] then Some(es)
        else
          match BlockEntries(inline)
          case None => None
          case Some(rest) => Some(es + rest)
  }
}
