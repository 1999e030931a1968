/** The filesystem tree (generic_tree.rs, tree.rs).  A leaf carries an identity and the
    number of references to it, which is how `Rc` makes hardlinks visible. */
module Tree {
  import opened Bytes

  type u32 = x: int | 0 <= x < 0x1_0000_0000
  type u64 = x: int | 0 <= x < 0x1_0000_0000_0000_0000
  type i64 = x: int | -0x8000_0000_0000_0000 <= x < 0x8000_0000_0000_0000

  /** A 64-bit number read as a signed one. */
  function AsI64(m: nat): (t: int)
    ensures m < 0x1_0000_0000_0000_0000 ==> -0x8000_0000_0000_0000 <= t < 0x8000_0000_0000_0000
  {
    if m >= 0x8000_0000_0000_0000 then m - 0x1_0000_0000_0000_0000 else m
  }

  /** The two fs-verity hash value types. */
  datatype Algorithm = Sha256 | Sha512 {
    function Number(): byte {
      if Sha256? then 1 else 2
    }

    function Size(): nat {
      if Sha256? then 32 else 64
    }
  }

  datatype XattrPair = XattrPair(name: bytes, value: bytes)

  datatype Stat = Stat(mode: u32, uid: u32, gid: u32, mtime: i64, xattrs: seq<XattrPair>)

  datatype LeafContent =
    | Inline(data: bytes)
    | External(id: bytes, size: u64)
    | BlockDevice(rdev: u64)
    | CharacterDevice(rdev: u64)
    | Fifo
    | Socket
    | Symlink(target: bytes)

  /** `links` is the strong count of the `Rc`. */
  datatype Leaf = Leaf(stat: Stat, content: LeafContent, links: nat)

  /** A file is a reference to a leaf: equal numbers are clones of one `Rc`. */
  datatype Node =
    | Dir(stat: Stat, entries: Entries)
    | File(id: nat)

  /** The entries of a directory in the order of its `BTreeMap`. */
  datatype Entries =
    | Empty
    | More(name: bytes, node: Node, rest: Entries)

  datatype FileSystem = FileSystem(root: Node, leaves: seq<Leaf>)

  type Path = seq<bytes>

  function Find(es: Entries, name: bytes): Option<Node> {
    match es
    case Empty => None
    case More(n, node, rest) => if n == name then Some(node) else Find(rest, name)
  }

  /** The node at a path below `node`. */
  function Lookup(node: Node, path: Path): Option<Node>
    decreases |path|
  {
    if path == [] then Some(node)
    else if node.File? then None
    else
      match Find(node.entries, path[0])
      case None => None
      case Some(child) => Lookup(child, path[1..])
  }

  function Length(es: Entries): nat {
    match es
    case Empty => 0
    case More(_, _, rest) => 1 + Length(rest)
  }

  function Subdirectories(es: Entries): nat {
    match es
    case Empty => 0
    case More(_, node, rest) => (if node.Dir? then 1 else 0) + Subdirectories(rest)
  }

  predicate ValidName(name: bytes) {
    && name != [] && (forall i :: 0 <= i < |name| ==> name[i] != 0)
    && name != DOT && name != DOTDOT
  }

  const DOT: bytes := [46]
  const DOTDOT: bytes := [46, 46]

  predicate IsDot(name: bytes) {
    name == DOT || name == DOTDOT
  }

  /** Keys of a `BTreeMap` come in strictly increasing order. */
  ghost predicate SortedEntries(es: Entries) {
    match es
    case Empty => true
    case More(n, _, rest) => SortedEntries(rest) && forall m :: Find(rest, m).Some? ==> Less(n, m)
  }

  /** Names can be stored, directories are sorted, references resolve. */
  ghost predicate WellFormed(node: Node, n: nat) {
    match node
    case Dir(_, es) => SortedEntries(es) && WellFormedEntries(es, n)
    case File(id) => id < n
  }

  ghost predicate WellFormedEntries(es: Entries, n: nat) {
    match es
    case Empty => true
    case More(name, node, rest) =>
      ValidName(name) && WellFormed(node, n) && WellFormedEntries(rest, n)
  }

  /** A leaf reached by two paths has a reference count above one. */
  ghost predicate SharingIsCounted(fs: FileSystem) {
    forall p: Path, q: Path ::
      IsLeafAt(fs, p) && IsLeafAt(fs, q) && p != q && LeafAt(fs, p) == LeafAt(fs, q)
      ==> LeafAt(fs, p) < |fs.leaves| && fs.leaves[LeafAt(fs, p)].links > 1
  }

  predicate IsLeafAt(fs: FileSystem, p: Path) {
    Lookup(fs.root, p).Some? && Lookup(fs.root, p).value.File?
  }

  function LeafAt(fs: FileSystem, p: Path): nat
    requires IsLeafAt(fs, p)
  {
    Lookup(fs.root, p).value.id
  }
}
