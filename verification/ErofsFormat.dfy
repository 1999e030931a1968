/** On-disk records of the EROFS image (erofs/format.rs, erofs/composefs.rs). */
module ErofsFormat {
  import opened Bytes
  import opened Tree

  const COMPOSEFS_HEADER_WIDTHS: seq<nat> := [4, 4, 4, 4, 16]
  /** The last 80 bytes (uuid to the end) are always zero and are one field here. */
  const SUPERBLOCK_WIDTHS: seq<nat> := [4, 4, 4, 1, 1, 2, 8, 8, 4, 4, 4, 4, 80]
  const INODE_WIDTHS: seq<nat> := [2, 2, 2, 2, 8, 4, 4, 4, 4, 8, 4, 4, 16]
  const COMPACT_WIDTHS: seq<nat> := [2, 2, 2, 2, 4, 4, 4, 4, 2, 2, 4]
  const XATTRS_WIDTHS: seq<nat> := [4, 1, 7]
  const XATTR_WIDTHS: seq<nat> := [1, 1, 2]
  const DIRENT_WIDTHS: seq<nat> := [8, 2, 1, 1]

  lemma ShortWidthSums()
    ensures Sum(COMPOSEFS_HEADER_WIDTHS) == 32
    ensures Sum(XATTRS_WIDTHS) == 12
    ensures Sum(XATTR_WIDTHS) == 4
    ensures Sum(DIRENT_WIDTHS) == 12
  {
    SumByIndex(COMPOSEFS_HEADER_WIDTHS, 0);
    SumByIndex(XATTRS_WIDTHS, 0);
    SumByIndex(XATTR_WIDTHS, 0);
    SumByIndex(DIRENT_WIDTHS, 0);
    assert SumFrom(COMPOSEFS_HEADER_WIDTHS, 3) == 20;
    assert SumFrom(XATTR_WIDTHS, 2) == 2 && SumFrom(DIRENT_WIDTHS, 2) == 2;
  }

  lemma SuperblockWidthSum()
    ensures Sum(SUPERBLOCK_WIDTHS) == 128
  {
    SumOf13(SUPERBLOCK_WIDTHS);
  }

  lemma InodeWidthSum()
    ensures Sum(INODE_WIDTHS) == 64
  {
    SumOf13(INODE_WIDTHS);
  }

  lemma SumOf13(ws: seq<nat>)
    requires |ws| == 13
    ensures Sum(ws) == ws[0] + ws[1] + ws[2] + ws[3] + ws[4] + ws[5] + ws[6] + ws[7] + ws[8]
                     + ws[9] + ws[10] + ws[11] + ws[12]
  {
    SumByIndex(ws, 0);
    assert SumFrom(ws, 12) == ws[12];
    assert SumFrom(ws, 10) == ws[10] + ws[11] + SumFrom(ws, 12);
    assert SumFrom(ws, 8) == ws[8] + ws[9] + SumFrom(ws, 10);
    assert SumFrom(ws, 6) == ws[6] + ws[7] + SumFrom(ws, 8);
    assert SumFrom(ws, 4) == ws[4] + ws[5] + SumFrom(ws, 6);
    assert SumFrom(ws, 2) == ws[2] + ws[3] + SumFrom(ws, 4);
    assert SumFrom(ws, 0) == ws[0] + ws[1] + SumFrom(ws, 2);
  }

  function SumFrom(ws: seq<nat>, i: nat): nat
    requires i <= |ws|
    decreases |ws| - i
  {
    if i == |ws| then 0 else ws[i] + SumFrom(ws, i + 1)
  }

  lemma {:induction false} SumByIndex(ws: seq<nat>, i: nat)
    requires i <= |ws|
    ensures Sum(ws[i..]) == SumFrom(ws, i)
    ensures i == 0 ==> Sum(ws) == SumFrom(ws, 0)
    decreases |ws| - i
  {
    if i < |ws| {
      SumByIndex(ws, i + 1);
      assert ws[i..][1..] == ws[i + 1..];
    }
    if i == 0 {
      assert ws[0..] == ws;
    }
  }

  // Packed records with the sizes of format.rs.

  function InodeRecord(vs: seq<nat>): (b: bytes)
    requires |vs| == 13
    ensures |b| == 64
  {
    InodeWidthSum();
    PackLength(INODE_WIDTHS, vs);
    Pack(INODE_WIDTHS, vs)
  }

  function SuperblockRecord(vs: seq<nat>): (b: bytes)
    requires |vs| == 13
    ensures |b| == 128
  {
    SuperblockWidthSum();
    PackLength(SUPERBLOCK_WIDTHS, vs);
    Pack(SUPERBLOCK_WIDTHS, vs)
  }

  function ComposefsHeaderRecord(vs: seq<nat>): (b: bytes)
    requires |vs| == 5
    ensures |b| == 32
  {
    ShortWidthSums();
    PackLength(COMPOSEFS_HEADER_WIDTHS, vs);
    Pack(COMPOSEFS_HEADER_WIDTHS, vs)
  }

  function XattrsRecord(vs: seq<nat>): (b: bytes)
    requires |vs| == 3
    ensures |b| == 12
  {
    ShortWidthSums();
    PackLength(XATTRS_WIDTHS, vs);
    Pack(XATTRS_WIDTHS, vs)
  }

  function XattrRecord(vs: seq<nat>): (b: bytes)
    requires |vs| == 3
    ensures |b| == 4
  {
    ShortWidthSums();
    PackLength(XATTR_WIDTHS, vs);
    Pack(XATTR_WIDTHS, vs)
  }

  function DirentRecord(vs: seq<nat>): (b: bytes)
    requires |vs| == 4
    ensures |b| == 12
  {
    ShortWidthSums();
    PackLength(DIRENT_WIDTHS, vs);
    Pack(DIRENT_WIDTHS, vs)
  }

  datatype DataLayout = FlatPlain | FlatInline | ChunkBased

  /** `InodeLayout::Extended | layout`. */
  function FormatOf(layout: DataLayout): nat {
    match layout
    case FlatPlain => 1
    case FlatInline => 5
    case ChunkBased => 9
  }

  /** `value & INODE_DATALAYOUT_MASK`, an error for any other value. */
  function DataLayoutOf(format: nat): Option<DataLayout> {
    match (format / 2) % 8 * 2
    case 0 => Some(FlatPlain)
    case 4 => Some(FlatInline)
    case 8 => Some(ChunkBased)
    case _ => None
  }

  predicate IsExtended(format: nat) {
    format % 2 == 1
  }

  datatype FileType =
    | RegularFile | Directory | CharDevice | BlkDevice | FifoFile | SocketFile | SymlinkFile
  {
    function Number(): byte {
      match this
      case RegularFile => 1
      case Directory => 2
      case CharDevice => 3
      case BlkDevice => 4
      case FifoFile => 5
      case SocketFile => 6
      case SymlinkFile => 7
    }

    function Ifmt(): nat {
      match this
      case RegularFile => 0x8000
      case Directory => 0x4000
      case CharDevice => 0x2000
      case BlkDevice => 0x6000
      case FifoFile => 0x1000
      case SocketFile => 0xC000
      case SymlinkFile => 0xA000
    }
  }

  /** `self.file_type() | st_mode`: the permissions are cast to 16 bits first. */
  function ModeOf(t: FileType, stMode: nat): nat {
    BitOr(t.Ifmt(), stMode % 0x1_0000)
  }

  /** `mode & S_IFMT`. */
  function IfmtOf(mode: nat): nat {
    mode / 0x1000 % 16 * 0x1000
  }

  predicate IsDir(mode: nat) {
    IfmtOf(mode) == 0x4000
  }

  /** With permission bits only, type and permissions are both recovered from the mode. */
  lemma ModeSplits(t: FileType, perm: nat)
    requires perm < 0x1000
    ensures ModeOf(t, perm) == t.Ifmt() + perm < 0x1_0000
    ensures IfmtOf(ModeOf(t, perm)) == t.Ifmt()
    ensures ModeOf(t, perm) % 0x1000 == perm
  {
    hide BitOr, Pow2;
    var q := t.Ifmt() / 0x1000;
    assert t.Ifmt() == q * 0x1000 && q < 16;
    Pow2Values();
    OrDisjoint(t.Ifmt(), perm, 12);
    assert perm % 0x1_0000 == perm;
    DivUnique(t.Ifmt() + perm, 0x1000, q, perm);
    assert q % 16 == q;
  }

  function FileTypeOfContent(c: LeafContent): FileType {
    match c
    case Inline(_) => RegularFile
    case External(_, _) => RegularFile
    case BlockDevice(_) => BlkDevice
    case CharacterDevice(_) => CharDevice
    case Fifo => FifoFile
    case Socket => SocketFile
    case Symlink(_) => SymlinkFile
  }

  // ---- extended attributes ----

  datatype XAttr = XAttr(prefix: nat, suffix: bytes, value: bytes)

  function Ascii(s: string): (b: bytes)
    ensures |b| == |s|
  {
    seq(|s|, i requires 0 <= i < |s| => s[i] as int % 256)
  }

  const XATTR_PREFIXES: seq<bytes> := [
    [],
    Ascii("user."),
    Ascii("system.posix_acl_access"),
    Ascii("system.posix_acl_default"),
    Ascii("trusted."),
    Ascii("lustre."),
    Ascii("security.")
  ]

  const XATTR_FILTER_SEED: nat := 0x25BBE08F

  const TRUSTED: nat := 4
  const METACOPY_SUFFIX: bytes := Ascii("overlay.metacopy")
  const METACOPY: bytes := Ascii("trusted.overlay.metacopy")
  const REDIRECT: bytes := Ascii("trusted.overlay.redirect")
  const OVERLAY: bytes := Ascii("trusted.overlay.")
  const ESCAPED_OVERLAY: bytes := Ascii("trusted.overlay.overlay.")

  /** The full name an entry stands for. */
  function FullName(x: XAttr): bytes
    requires x.prefix < |XATTR_PREFIXES|
  {
    XATTR_PREFIXES[x.prefix] + x.suffix
  }

  // ---- overlay metacopy records ----

  function Metacopy(alg: Algorithm, digest: bytes): bytes {
    [0, 4 + alg.Size() as byte, 0, alg.Number()] + digest
  }

  /** The digest of a value that reads back as a valid metacopy record. */
  function MetacopyDigest(alg: Algorithm, value: bytes): Option<bytes> {
    if |value| == 4 + alg.Size() && value[0] == 0 && value[1] == 4 + alg.Size()
      && value[2] == 0 && value[3] == alg.Number()
    then Some(value[4..])
    else None
  }

  lemma MetacopyRoundTrip(alg: Algorithm, digest: bytes)
    requires |digest| == alg.Size()
    ensures MetacopyDigest(alg, Metacopy(alg, digest)) == Some(digest)
  {
    assert Metacopy(alg, digest)[4..] == digest;
  }

  // ---- object path names ----

  function HexDigit(n: nat): byte
    requires n < 16
  {
    if n < 10 then 48 + n else 87 + n
  }

  function Hex(b: bytes): (h: bytes)
    ensures |h| == 2 * |b|
  {
    if b == [] then [] else [HexDigit(b[0] / 16), HexDigit(b[0] % 16)] + Hex(b[1..])
  }

  /** `xx/yyyy...`: the first byte names a directory. */
  function ObjectPathname(id: bytes): bytes
    requires id != []
  {
    Hex(id[..1]) + [47] + Hex(id[1..])
  }
}
