# A verified model of composefs-rs

composefs turns a filesystem tree into a byte-exact EROFS image, names file contents by their
fs-verity digest, keeps archives as "splitstreams" that refer to stored objects, and collects
garbage in the store. This project models the parts of composefs-rs that have something to get
wrong, in Dafny, and proves what they are for. `dafny verify dfyconfig.toml` checks everything.

The source changes state step by step in most of its core files, and so does the model: the two
passes of the image writer, the inode collector, the object collector, the incremental hasher, the
garbage collector, the splitstream writer, builder and reader and the dumpfile writer and builder
are classes and methods with loops. Each is proved equal to a function of its inputs or of its old
state; what the design promises is then proved about those functions. Parsers that only compute
are functions. `None` and `false` stand for an error return or, in the image reader, for a panic.

## The five parts

**The image** (modules `Tree`, `ErofsFormat` … `ErofsReferences`). `ErofsImage` says which bytes
an inode table is, given where structures are; no length depends on those positions. `ErofsWriter`
has the writer as one body run twice: the first pass answers every position with zero and only
counts, and yet what it notes are the positions of the bytes that the second pass emits.
`ErofsDecode` and `ErofsRoundTrip` read these bytes back with the reader of `ErofsReader`.
`ErofsCollect`, `ErofsTree` and `ErofsShare` flatten a tree into the table, pack directories and
move repeated attributes to a shared table. `ErofsFaithful` puts this together: walking the image
from its root finds exactly the paths of the tree, and at each of them a node with the same type,
owner, mode, time, body, attributes, listing and sharing. `ErofsObjects` is the worklist over an
arbitrary image, with cycles and hardlinks; `ErofsReferences` shows that on a written image it
returns exactly the objects that the tree stores. `Disk` says for any image at which bytes the
reader looks, and `OnDisk`, `ObjectPath` and `ErofsRules` say of the image of a tree, in numbers and
bytes, what Linux and overlayfs find there.

**The digest** (`Verity`). The Merkle tree is defined level by level, as in sections "Merkle tree"
and "fs-verity descriptor" of the Linux kernel document `filesystems/fsverity.rst`. The hasher
keeps one partial block per level, like a counter in base A. The two agree for every length and
every arity of at least two. When different data have equal digests, a block or descriptor hashed
for the one and one hashed for the other are different and have the same hash. `VerityBytes`
writes out which strings are hashed, from the data to the 256 bytes of the descriptor.

**Garbage collection and publishing** (`RepositoryGc`, `RepositoryClosure`, `Publish`,
`PublishLinks`). Liveness is reachability from
the roots. The recursive walk marks exactly that, whatever cycles the streams form; the sweep and
the pruning do what they should and a second collection does nothing. `RepositoryClosure` says what
is kept and lost from the contents of the store alone. `Publish` is a state machine
with interleaved writers, writeback at any time and crashes at any time: a stream symlink that
survives a crash has all of its data. What is durable and where each name leads is told exactly
from the steps of a run, and every stream can be published.

**Splitstreams and archives** (`Splitstream`, `SplitstreamReader`, `SplitstreamTheorem`,
`SplitstreamBytes`, `SplitstreamBuilder`, `Tar`, `TarRecords`). Whatever is written is read back; the asynchronous producer makes
the very bytes of the synchronous one, however its input is cut into chunks and whenever its
background tasks end; an archive that is split and merged is the same archive.

**Dumpfiles** (`Numbers`, `DumpfileText`, `DumpfileEntry`, `Dumpfile`, `DumpfileTheorem`,
`DumpfileLines`, `DumpfileRules`, `DumpfileExact`, `DumpfileLinks`, `DumpfileImage`). Two escapers
against one unescaper, one line printed and parsed, and whole trees. `DumpfileLines` reads every
line of a tree field by field, hardlink lines included, `DumpfileExact` says exactly which trees come back,
`DumpfileLinks` which paths of a built tree share a leaf, and `DumpfileImage` carries this on to
the image: hardlink lines become shared inodes, and nothing else does.

## Where a promise does not hold, and when it does

* `gc_dry_run` promises the statistics of `gc` (`crates/composefs/src/repository.rs:1169-1178`).
  Objects and bytes are the same; the numbers of pruned links are not, since a dry run tests links
  against objects that are still there. `RepositoryGc.PreviewMissesLinks` is a case, `RepositoryGc.PreviewCountsIff`
  says exactly when the numbers agree.
* A link in `streams/` can survive a collection that removes the data of its stream, when the
  stream is kept as a plain object of another one. `RepositoryGc.SurvivingStreamsKeepDataIff` says
  exactly when no link does, `RepositoryGc.StreamKeepsDataIff` when one stream keeps its data, and
  `RepositoryGc.SurvivingStreamMayLoseData` is a case. Streams reached from the roots keep
  everything: `RepositoryGc.ReachedStreamsKeepData`.
* `write_image` makes its link without a sync, so a crash can leave a link to nothing
  (`Publish.ImageMayBeLost`). `Publish.ImageSurvivesIff` and `Publish.ImageAlwaysSafeIff` say, from
  the steps of the run, exactly when this does not happen.
* The dumpfile writer can write what the parser does not take, or takes for something else:
  hardlink lines (`DumpfileTheorem.HardlinkLinesFail`), and the values that
  `DumpfileExact.TreeSurvivesIff` rules out.
* The limit of the unescaper is looked at between characters and only for equality, so it can be
  stepped over by a multi-byte character: `DumpfileText.LimitHoldsIff`.
* An archive without a zero block that ends in an entry without a body cannot be read back entry by
  entry, though it can be merged: `Tar.RecordsRoundTrip`.
* An inline body of a whole block or more is not read back whole: the reader takes sizes modulo the
  block size (`ErofsDecode.BodyReadsBackIff`). A tail above 4064 bytes can straddle two blocks
  (`ErofsImage.TailRuleIsSharp`), and `ErofsImage.TailRuleExact` says when it does.
* The total size of a splitstream is the length of its data only when callers of `write_reference`
  add the sizes of the objects themselves: `SplitstreamTheorem.RoundTrip`.
* Splitstream names with a NUL byte are not read back: `SplitstreamTheorem.NamesReadBackIff`.

## Assumptions

* Hash functions (xxh32, the fs-verity hash), compression, the parsing of tar headers and the ids of
  stored objects are parameters. Of compression only `decompress(compress(x)) == x` is used; of the
  fs-verity hash its output size and that no hash is all zeros; of the object store only that it
  returns each datum written in the run at hand (no id function of fixed size could return all).
* Image theorems (`FitsFs`): names are not empty, NUL-free, no dots, and short enough for an
  entry to fit a block; directories are sorted as their maps are; modes hold permission bits only, as
  everything that builds trees makes them; inline bodies and symlink targets are shorter than a
  block; attribute names, values and counts fit their fields; the image is smaller than 4 GiB.
* Garbage collection (`Sound`): refs lead to existing entries, and root images and reached streams
  are present and readable. `GcImpl` fails exactly when this does not hold.
* Splitstreams (`FitsFile`, `FitsArchive`): sizes fit the 64-bit fields of the format.
* Dumpfiles (`FsWithin`, `Writable`): lengths are inside the limits of the parser, children and attributes are
  sorted as their maps are, modes hold permission bits only, and a leaf referred to twice has a
  reference count above one.

## Model

| member | source | states |
|---|---|---|
| ErofsFaithful.MkfsPreservesTree | crates/composefs/src/erofs/writer.rs:714-732 | For every tree that fits: the image opens; a path of non-dot names can be followed from the root inode exactly when the tree has it; and the inode reached reads as the node there: type, permissions, owner, mtime, link count (two and the number of subdirectories for a directory), size (for a directory that of its stored blocks and inline part), inline body or symlink target, the multiset of attributes (generated ones and escaped ones), a name filter that is exact, and, for a directory, its listing in order with types, "." leading to itself and ".." to its parent |
| ErofsFaithful.SameInodeIffSameLeaf | crates/composefs/src/erofs/writer.rs:461-483 | Two paths of a tree lead to the same inode number of the image exactly when they are the same path or refer to one shared leaf |
| ErofsReferences.ImageReferences | crates/composefs/src/erofs/reader.rs:566-633 | In the image of a tree every reachable inode can be read, and the objects that reachable inodes refer to are exactly the ids of the external files of the tree |
| ErofsReferences.ObjectsOfTree | crates/composefs/src/erofs/reader.rs:640-655 | `collect_objects(mkfs_erofs(fs))` succeeds and returns exactly the ids of the external files of the tree |
| OnDisk.PathOnDisk | crates/composefs/src/erofs/writer.rs:327-405 | At each path of a tree the image has, at 32 bytes per inode number, a header with the mode bits of Linux and the permissions, owner, time, links, size and device of the node; the body; the attributes of the tree under the prefix numbers of EROFS with `trusted.overlay.` escaped; for an external file a redirect of a slash, the first byte of the id, a slash and the other bytes, in lower-case hexadecimal, and a metacopy record with the digest; a filter bit clear exactly for what some attribute hashes to; and in a directory the type numbers of its entries. Names and numbers are written out |
| OnDisk.ImageStarts | crates/composefs/src/erofs/writer.rs:582-610 | The first 1152 bytes: composefs magic and versions, zeros, and at 1024 the EROFS magic, features 6, 12 for the block size, the root number, the number of inodes, the number of blocks, which is the length divided by 4096, and zeros |
| OnDisk.PathHeaderRest | crates/composefs/src/erofs/writer.rs:374-390 | At each path the header is a long one with its own inode number, no nanoseconds and zeros in its reserved fields |
| OnDisk.AttributesRead | crates/composefs/src/erofs/writer.rs:420-459 | Attributes that read as the generated and the escaped ones are, by their stored names, those of the tree and the two for overlayfs, each split behind the last prefix it starts with |
| ObjectPath.PathnameNames | crates/composefs/src/fsverity/hashvalue.rs:113-119 | The path of an object decodes to its id: two lower-case hexadecimal digits for the first byte, a slash, and the rest |
| ErofsCollector.MkfsErofs | crates/composefs/src/erofs/writer.rs:714-732 | Collecting, sharing and the two passes produce the specified image of the tree |
| ErofsMkfs.PlanDecodable | crates/composefs/src/erofs/writer.rs:714-732 | Everything the collector and sharing make of a tree that fits meets the conditions under which written structures are read back |
| ErofsWriter.WriteImage | crates/composefs/src/erofs/writer.rs:714-732 | The two runs of one body emit the image in which every reference is the true position of its target, although the first run was answered with zeros |
| ErofsWriter.WriteErofs | crates/composefs/src/erofs/writer.rs:582-632 | Run in either pass, with any answers of the pass, the body means the image for these answers and notes every inode, shared attribute and block run where it is; the bytes meant by the first pass are only counted |
| ErofsWriter.LayoutAnswers | crates/composefs/src/erofs/writer.rs:634-658 | After a first pass each `get` of the second is the true position of the inode, shared attribute or block run asked for, and of the end |
| ErofsWriter.RunAnswers | crates/composefs/src/erofs/writer.rs:655-658 | Notes of one kind that stand together are found by kind and number, whatever was noted before and after |
| ErofsWriter.Recorded | crates/composefs/src/erofs/writer.rs:675-688 | Noting an offset keeps the two lists of the layout in step with the notes, also when kinds are skipped, and the notes stay in order |
| ErofsWriter.Output.NoteOffset | crates/composefs/src/erofs/writer.rs:675-688 | When kinds come in order the ordering assert cannot fail; the current length is noted under the kind |
| ErofsWriter.Output.Pad | crates/composefs/src/erofs/writer.rs:664-704 | Either pass goes on to the next multiple of the alignment, with zeros |
| ErofsWriter.GetNid | crates/composefs/src/erofs/writer.rs:42-50 | With true or zero positions the divisibility assert cannot fail and the result is the position in units of 32 bytes |
| ErofsWriter.GetXattr | crates/composefs/src/erofs/writer.rs:52-54 | The divisibility assert and the conversion to 32 bits cannot fail; the result is the position in units of 4 bytes |
| ErofsWriter.TruePosAligned | crates/composefs/src/erofs/writer.rs:42-54 | True positions of an image below 4 GiB are multiples of 32 for inodes and of 4 for attributes, and fit what the asserts demand |
| ErofsWriter.WriteInode | crates/composefs/src/erofs/writer.rs:327-405 | An inode is written at the place that the tail rule gives, noted there, and followed by its attributes, its tail and padding to 32 bytes |
| ErofsWriter.MeasureXattrs | crates/composefs/src/erofs/writer.rs:333-337 | The attribute section measured by a fresh first pass at offset zero has the size it has at its real offset |
| ErofsWriter.AlignInode | crates/composefs/src/erofs/writer.rs:333-361 | Only zeros are written and the length afterwards is the place for the inode given by the tail rule |
| ErofsWriter.WriteXattrs | crates/composefs/src/erofs/writer.rs:137-155 | The section is written as specified, in either pass |
| ErofsWriter.WriteBlock | crates/composefs/src/erofs/writer.rs:219-243 | A directory block is written as specified: all headers with their name offsets, then all names |
| ErofsWriter.WriteBlocks | crates/composefs/src/erofs/writer.rs:255-262 | From a block boundary each block is written and padded; the assert on the boundary cannot fail |
| ErofsImage.TailRule | crates/composefs/src/erofs/writer.rs:333-361 | For every offset and attribute size, an inline tail of at most 4064 bytes lies inside one block after the padding step |
| ErofsImage.TailRuleExact | crates/composefs/src/erofs/writer.rs:333-361 | A tail, of any size below a block, lies inside one block exactly when the inode need not move or the tail fits behind the 1 to 32 bytes of metadata that a moved inode has in the fresh block |
| ErofsImage.MoveLands | crates/composefs/src/erofs/writer.rs:345-361 | A moved inode puts its tail 1 to 32 bytes behind the next block boundary |
| ErofsImage.TailRuleIsSharp | crates/composefs/src/erofs/writer.rs:333-361 | A tail of 4065 bytes can straddle two blocks |
| ErofsImage.InodeStart | crates/composefs/src/erofs/writer.rs:333-361 | The place of an inode is a multiple of 32 at or after the current end |
| ErofsImage.TruePos | crates/composefs/src/erofs/writer.rs:634-704 | Positions follow from lengths alone; inodes are at multiples of 32, attributes of 4, block runs of 4096 |
| ErofsImage.Image | crates/composefs/src/erofs/writer.rs:582-632 | The length of the image does not depend on the positions it refers to |
| ErofsDecode.InodeRoundTrip | crates/composefs/src/erofs/writer.rs:327-405 | Reading the bytes of a written inode gives back its mode, owner, time, links, size, union field, attribute section and tail, in each of the three layouts |
| ErofsDecode.BodyReadsBackIff | crates/composefs/src/erofs/reader.rs:205-213 | Reading the inline part of a written body or symlink target gives its length modulo 4096 from the front, and the whole exactly when it is shorter than a block |
| ErofsDecode.IcountInverts | crates/composefs/src/erofs/reader.rs:53-58 | `xattr_size` of the stored `xattr_icount` is the size of the attribute section that was written |
| ErofsDecode.XattrRoundTrip | crates/composefs/src/erofs/reader.rs:142-163 | A written attribute entry followed by anything parses to the entry and what follows |
| ErofsDecode.LocalsRoundTrip | crates/composefs/src/erofs/reader.rs:433-446 | The local attributes of a section iterate as they were written, to the end |
| ErofsDecode.XattrsRoundTrip | crates/composefs/src/erofs/reader.rs:410-424 | A written attribute section parses to its stored filter, its shared ids and its local attributes |
| ErofsDecode.BlockRoundTrip | crates/composefs/src/erofs/reader.rs:457-540 | A written directory block with any zero padding parses to exactly its entries, for NUL-free non-empty names |
| ErofsDecode.EntryAtOf | crates/composefs/src/erofs/reader.rs:516-540 | The i-th entry of a written block is the i-th entry, also the last one, which has no end in the block |
| ErofsDecode.FormatInverts | crates/composefs/src/erofs/format.rs:54-116 | The format field of an extended inode gives its data layout back |
| ErofsFormat.ModeSplits | crates/composefs/src/erofs/format.rs:235-268 | Type bits and permission bits of a mode are both recovered |
| ErofsFormat.MetacopyRoundTrip | crates/composefs/src/erofs/composefs.rs:21-37 | The overlay metacopy value made for a digest is valid and holds the digest |
| Disk.ReadInodeIs | crates/composefs/src/erofs/reader.rs:350-373 | In any image an inode reads as what stands 32 bytes per number behind the start of the inodes: layout in bits 1 to 3, attribute count at 2, mode at 4, and then size at 8, union at 16, owner at 24 and 28, time at 32, links at 44 of a long header, or links at 6, size at 8, union at 16 and owner at 24 and 26 of a short one; and it cannot be read exactly when that does not fit |
| Disk.OpenIs | crates/composefs/src/erofs/reader.rs:326-347 | In any image the block size is at 1036, the root number at 1038, and the blocks where inodes and shared attributes start at 1064 and 1068; opening fails exactly when they do not fit |
| Disk.XattrIs | crates/composefs/src/erofs/reader.rs:142-163 | An attribute is a suffix length, a prefix number, a 16-bit value length, then suffix and value, padded to four bytes |
| Disk.SectionIs | crates/composefs/src/erofs/reader.rs:410-424 | An attribute section is a 32-bit filter, a count, seven bytes, that many 32-bit references, and the local attributes |
| Disk.EntryHeaderIs | crates/composefs/src/erofs/reader.rs:459-467 | Entry i of a directory block has its inode number at 12 i, the name offset at 12 i + 8 and the type at 12 i + 10 |
| ErofsRoundTrip.OpenRoundTrip | crates/composefs/src/erofs/reader.rs:326-347 | Opening a written image finds its superblock: block size, root inode number, the whole image as inodes and blocks |
| ErofsRoundTrip.RootNidFits | crates/composefs/src/erofs/writer.rs:606-632 | The root inode number fits the 16 bits of its field, since only padding can come before the root |
| ErofsRoundTrip.InodeInImage | crates/composefs/src/erofs/writer.rs:582-632 | The bytes of the k-th inode are in the image at its position |
| ErofsRoundTrip.XattrInImage | crates/composefs/src/erofs/writer.rs:582-632 | The bytes of the j-th shared attribute are in the image at its position |
| ErofsRoundTrip.BlockInImage | crates/composefs/src/erofs/writer.rs:407-412 | The b-th stored block of the k-th inode is in the image b blocks behind the position of its run |
| ErofsRoundTrip.ReadInodeRoundTrip | crates/composefs/src/erofs/reader.rs:350-373 | Reading the inode number that references to inode k hold gives inode k |
| ErofsRoundTrip.XattrsOfInodeRoundTrip | crates/composefs/src/erofs/reader.rs:376-424 | All attributes of an inode read back: shared ones looked up in the image, then local ones |
| ErofsRoundTrip.DirBlocks | crates/composefs/src/erofs/reader.rs:215-231 | The block range of a directory is exactly its stored blocks |
| ErofsRoundTrip.InlineRoundTrip | crates/composefs/src/erofs/reader.rs:205-213 | The inline slice of an inode is exactly the tail that was written |
| ErofsRoundTrip.DirRoundTrip | crates/composefs/src/erofs/reader.rs:457-540 | Reading the stored blocks and the inline part of a directory gives all its entries in order |
| ErofsTheorem.WalkImage | crates/composefs/src/erofs/reader.rs:350-400 | Following names from an inode of the image leads where following them through the inode table leads |
| ErofsTheorem.NidsDiffer | crates/composefs/src/erofs/writer.rs:48-50 | Different inodes have different inode numbers |
| ErofsCollect.PackedFaithful | crates/composefs/src/erofs/writer.rs:159-217 | Packing loses and reorders no entry; stored blocks are not empty and at most 4096 bytes; the inline part is at most 2048 bytes |
| ErofsRules.PackedIsGreedy | crates/composefs/src/erofs/writer.rs:159-216 | Each block is closed only when the next name does not fit in 4096 bytes; what is left is stored with the inode when it has at most 2048 bytes and in a block of its own when it has more |
| ErofsCollect.FromEntries | crates/composefs/src/erofs/writer.rs:159-217 | The loop computes the packing |
| ErofsCollect.BlockCloses | crates/composefs/src/erofs/writer.rs:170-190 | The greedy step is the packing of the rest: a block ends with the first entry that does not fit |
| ErofsCollect.Split | crates/composefs/src/erofs/writer.rs:122-135 | Prefix and suffix of the split name make up the full name |
| ErofsTree.InsertSortedIsSorted | crates/composefs/src/erofs/writer.rs:485-498 | Inserting a new name keeps names strictly sorted and adds just the entry |
| ErofsTree.WithDotsSorted | crates/composefs/src/erofs/writer.rs:500-526 | Names stay strictly sorted when "." and ".." are inserted |
| ErofsTree.CollectNodeCorrect | crates/composefs/src/erofs/writer.rs:461-526 | Collecting a node adds inodes to the table such that the table holds the node and everything below it, uses no inode number twice for different files, and leaves what was collected before alone |
| ErofsTree.HoldsFilled | crates/composefs/src/erofs/writer.rs:500-526 | Filling the reserved slot of a directory changes nothing that is below it |
| ErofsCollector.AddXattr | crates/composefs/src/erofs/writer.rs:122-135 | The attribute is split at the last prefix that matches and its bit is set in the filter |
| ErofsCollector.InodeCollector.PushInode | crates/composefs/src/erofs/writer.rs:420-459 | One inode is appended, with the generated attributes first and those of the tree escaped |
| ErofsCollector.InodeCollector.CollectLeaf | crates/composefs/src/erofs/writer.rs:461-483 | A leaf with a single reference gets an inode; a shared one gets one the first time and the same number later |
| ErofsCollector.InodeCollector.CollectDir | crates/composefs/src/erofs/writer.rs:500-526 | The recursion with its reserved slot computes the table in preorder |
| ErofsTheorem.TargetWithDots | crates/composefs/src/erofs/writer.rs:500-526 | The two dot entries hide no name and lead to the directory and its parent |
| ErofsShare.SharedTableExact | crates/composefs/src/erofs/writer.rs:544-580 | An attribute is in the shared table exactly when it is used more than once; the table is sorted and has no repetitions |
| ErofsRules.SharedTableOrdered | crates/composefs/src/erofs/writer.rs:544-580 | The table is ordered by prefix number, then by the bytes of the suffix, then by those of the value |
| ErofsShare.SharingKeepsMeaning | crates/composefs/src/erofs/writer.rs:544-580 | Shared references looked up in the table together with the local attributes are the same multiset as before; none in the table stays local; the filter stays |
| ErofsShare.SharingShrinks | crates/composefs/src/erofs/writer.rs:544-580 | Sharing never makes the attributes of an inode larger |
| ErofsShare.CountAllCounts | crates/composefs/src/erofs/writer.rs:544-560 | The map counts exactly the uses of each attribute over all inodes |
| ErofsShare.ShareXattrs | crates/composefs/src/erofs/writer.rs:544-580 | The loops compute the table and the converted inodes |
| ErofsFaithful.EscapeInjective | crates/composefs/src/erofs/writer.rs:438-446 | Escaping overlay names loses nothing and never yields one of the two generated names |
| ErofsFaithful.InitialPairs | crates/composefs/src/erofs/writer.rs:420-446 | The names and values of an inode are the generated ones and then the escaped ones of the tree, in order |
| ErofsFaithful.ComplementFilter | crates/composefs/src/erofs/writer.rs:122-143 | The stored filter has a bit clear exactly when an attribute of the inode hashes to it, also after sharing |
| ErofsObjects.Collect | crates/composefs/src/erofs/reader.rs:640-655 | On every image, cycles and hardlinks included, the worklist ends; it panics exactly when some reachable inode cannot be read; otherwise every reachable inode was visited, each once, and the result is every object some of them refer to |
| ErofsObjects.VisitKeeps | crates/composefs/src/erofs/reader.rs:609-632 | A visit keeps visited and to-visit disjoint and reachable, closed under listing, and the objects exact |
| ErofsObjects.ObjectCollector.VisitNid | crates/composefs/src/erofs/reader.rs:609-632 | For an inode not visited before: it is marked, its objects are added, and what it lists and was not visited is to be visited; it panics exactly when the inode cannot be read |
| ErofsObjects.ObjectCollector.VisitXattrs | crates/composefs/src/erofs/reader.rs:588-596 | The objects of shared and local attributes are added |
| ErofsRules.NamesObjectIff | crates/composefs/src/erofs/reader.rs:571-586 | An attribute names an object exactly when it has prefix 4, the suffix `overlay.metacopy` and a record of version 0 with its own length, no flags and the digest algorithm of the repository |
| ErofsObjects.ObjectCollector.VisitDirectoryBlock | crates/composefs/src/erofs/reader.rs:598-607 | The inode numbers of the entries but the dots are to be visited unless they were |
| ErofsObjects.AllVisited | crates/composefs/src/erofs/reader.rs:640-655 | When nothing is left to visit, exactly the reachable inodes have been visited |
| ErofsObjects.XAttrIter.Next | crates/composefs/src/erofs/reader.rs:433-446 | The iterator yields the local attributes one by one |
| ErofsObjects.DirectoryEntries.Next | crates/composefs/src/erofs/reader.rs:516-540 | The iterator yields the entries of a block one by one |
| Verity.Hash | crates/composefs/src/fsverity/digest.rs:64-75 | For every buffer the incremental hasher returns the digest of the level-by-level Merkle tree |
| VerityBytes.DigestIs | crates/composefs/src/fsverity/digest.rs:64-182 | For all data there are levels, from the data to one hash, in which each hash is that of a block of the level below filled with zeros, and a descriptor of 256 bytes with 1, the algorithm, the logarithm of the block size, zeros, the size of the data at 8, the last level, or zeros for no data, at 16, and zeros; the digest is its hash |
| VerityBytes.HashWithTree | crates/composefs/src/fsverity/digest.rs:64-75 | The result of the incremental hasher is the hash of that descriptor over those levels |
| VerityBytes.DescriptorDescribes | crates/composefs/src/fsverity/digest.rs:170-181 | The descriptor has its fields at these places and zeros elsewhere |
| VerityBytes.LevelUp | crates/composefs/src/fsverity/digest.rs:90-117 | A level is the hashes, in order, of the blocks of the level below, the last one filled with zeros |
| Verity.FsVerityHasher.AddBlock | crates/composefs/src/fsverity/digest.rs:90-117 | Adding a block appends its hash to the leaves the state stands for: with no pending value the layers are the partial blocks of all levels, with one the number of leaves is a power of the arity |
| Verity.FsVerityHasher.RootHash | crates/composefs/src/fsverity/digest.rs:119-142 | Closing the layers gives the root of the tree over the blocks so far, the zero root for none, and keeps it |
| Verity.FsVerityHasher.Digest | crates/composefs/src/fsverity/digest.rs:147-182 | The digest is that of the descriptor with the tree root and the byte count; asking twice gives the same |
| Verity.LayersAreDigits | crates/composefs/src/fsverity/digest.rs:90-117 | After n blocks with no pending value, layer i holds digit i of n in base A, as hashes, and has the rest of its block left |
| Verity.CarryStep | crates/composefs/src/fsverity/digest.rs:105-113 | One step of the carry: a layer takes a hash and stays partial, and the state counts one more block; or it is full, starts afresh and hands its hash on |
| Verity.Overflows | crates/composefs/src/fsverity/digest.rs:115-117 | When every layer was full, the number of blocks is the next power of the arity and the value is the top of a full tree |
| Verity.LevelAtSize | crates/composefs/src/fsverity/digest.rs:90-117 | Level i has as many determined hashes as n divided by A to the i, and its partial block the digit i |
| Verity.CloseLevel | crates/composefs/src/fsverity/digest.rs:125-136 | Hashing the partial block of a level with what came from below completes the level above |
| Verity.Closed | crates/composefs/src/fsverity/digest.rs:119-142 | What is left after the last layer was closed is the root |
| Verity.ValueIsRoot | crates/composefs/src/fsverity/digest.rs:119-122 | A pending value is the root already |
| Verity.RootOfLevel | crates/composefs/src/fsverity/digest.rs:119-142 | As long as a level has two hashes or more, the root is the root of the level above it |
| Verity.DigestBinds | crates/composefs/src/fsverity/digest.rs:64-182 | From two different byte strings (below 2^64 bytes) with equal digests, an input that is hashed for the one string (a block of its data, of its tree, or its descriptor) and an input hashed for the other are computed that differ and have the same hash |
| Verity.DigestsEqualIff | crates/composefs/src/fsverity/digest.rs:64-182 | When no input hashed for the one string collides with an input hashed for the other, the digests are equal exactly when the strings are |
| Verity.RootCollision | crates/composefs/src/fsverity/digest.rs:119-142 | Different lists of as many leaves with the same root: a block hashed on the way to the root of the one collides with such a block of the other |
| Verity.LevelCollision | crates/composefs/src/fsverity/digest.rs:90-117 | Different levels of one length with the same level above: a block of the one collides with a block of the other |
| Verity.LeavesCollision | crates/composefs/src/fsverity/digest.rs:64-75 | Different data of one length with the same leaf hashes: a block of the one collides with a block of the other |
| Verity.LevelIsHashed | crates/composefs/src/fsverity/digest.rs:90-117 | The hashes of a level are exactly those of the blocks of the level below |
| Verity.LeavesAreHashed | crates/composefs/src/fsverity/digest.rs:64-75 | The leaves are exactly the hashes of the blocks of the data |
| Verity.DescriptorBinds | crates/composefs/src/fsverity/digest.rs:170-181 | Equal descriptors have equal lengths and equal roots |
| RepositoryGc.Repository.GcImpl | crates/composefs/src/repository.rs:1185-1281 | It fails, changing nothing, exactly when a root does not resolve or a root image or reached stream cannot be read; otherwise exactly the objects outside the closure of the roots are removed and exactly the links and refs that then lead nowhere; a dry run changes nothing and reports the same objects and bytes; the link counts are those of broken links and refs |
| RepositoryClosure.KeptIff | crates/composefs/src/repository.rs:1185-1275 | An object stays, with its bytes, exactly when it is in every set that holds the images named by refs or asked for with all they list, and the streams named so, those that they name and that have a link, and so on, with all these list |
| RepositoryClosure.WantedImageKeepsObjects | crates/composefs/src/repository.rs:1203-1211 | An image named by a ref or asked for keeps itself and every object it lists, with its bytes |
| RepositoryClosure.SoundIff | crates/composefs/src/repository.rs:1185-1236 | A collection goes through exactly when all refs have their entries, all wanted images can be read, and so can all wanted streams and those with a link that are named from there |
| RepositoryClosure.LinksKept | crates/composefs/src/repository.rs:1058-1083 | Exactly the links stay whose object stays, and exactly the refs whose link stays, leading where they led |
| RepositoryClosure.Gc | crates/composefs/src/repository.rs:1164-1167 | What is reported is what is gone: objects, bytes, and links and refs of images and of streams |
| RepositoryGc.CollectingTwice | crates/composefs/src/repository.rs:1185-1281 | A second collection with the same roots succeeds, removes no object and prunes no link |
| RepositoryGc.RootsSurvive | crates/composefs/src/repository.rs:1185-1281 | All refs survive, and every root name still leads to the same object |
| RepositoryGc.NothingDangles | crates/composefs/src/repository.rs:1058-1083 | Afterwards every link leads to an object and every ref to a link |
| RepositoryGc.ReachedStreamsKeepData | crates/composefs/src/repository.rs:1086-1127 | A stream reached from the roots reads the same afterwards and everything present that it mentions is kept unchanged |
| RepositoryGc.SurvivingStreamsKeepDataIff | crates/composefs/src/repository.rs:1086-1127 | Every link that survives in `streams/` still has all data of its stream exactly when, before the collection, no stream that is live but not reached from the roots mentions a present object that is not live |
| RepositoryGc.StreamKeepsDataIff | crates/composefs/src/repository.rs:1086-1127 | One stream keeps what it mentions exactly when it is reached from the roots or each present object that it mentions is live on another account |
| RepositoryGc.SurvivingStreamMayLoseData | crates/composefs/src/repository.rs:1086-1127 | A sound store in which a link survives and the data of its stream does not |
| RepositoryGc.PreviewCountsIff | crates/composefs/src/repository.rs:1169-1183 | A dry run counts the links that a collection prunes exactly when no link leads to a present object that is not live |
| RepositoryGc.PreviewMissesLinks | crates/composefs/src/repository.rs:1169-1183 | With one stream and no roots the dry run counts no link and the collection prunes one |
| RepositoryGc.BytesAddUp | crates/composefs/src/repository.rs:1238-1269 | The bytes kept and the bytes counted as freed are all the bytes there were |
| RepositoryGc.WalkStreams | crates/composefs/src/repository.rs:1086-1127 | It ends on every stream graph; when it succeeds the stream has been walked, every stream walked in this call has all it mentions marked and the streams it names walked, and only live objects were marked; when it fails some reached stream cannot be read |
| RepositoryGc.StreamsMarked | crates/composefs/src/repository.rs:1213-1236 | Once every root has been walked the marks are exactly the closure of the roots, and every reached stream could be read |
| RepositoryGc.MarkStreams | crates/composefs/src/repository.rs:1213-1236 | All root streams are walked with shared sets; the marks are the live objects of images and streams |
| RepositoryGc.MarkImages | crates/composefs/src/repository.rs:1193-1211 | Exactly the root images and their objects are marked, or one of them cannot be read |
| RepositoryGc.Roots | crates/composefs/src/repository.rs:947-1010 | The entries named by refs and the entries asked for, or an error exactly when a name has no entry |
| RepositoryGc.CleanupBrokenLinks | crates/composefs/src/repository.rs:1014-1056 | Exactly the links whose target is missing are removed and counted; a dry run only counts |
| RepositoryGc.CleanupCategory | crates/composefs/src/repository.rs:1058-1083 | First-level links go first, so refs to removed links go too, except in a dry run |
| RepositoryGc.Repository.Sweep | crates/composefs/src/repository.rs:1238-1269 | Exactly the objects that are not live are removed, and they and their bytes are counted |
| Publish.CrashSafety | crates/composefs/src/repository.rs:553-647 | In every run of interleaved writers, with any writeback and earlier crashes: if the machine crashes now and a stream symlink survives, the stream, all streams it links, directly or not, and all of their objects survive |
| Publish.StepSafe | crates/composefs/src/repository.rs:553-647 | Every step keeps the invariant: all links, durable or not, lead to streams that are durable with all their data, and every writer has what its stage claims |
| Publish.RunSafe | crates/composefs/src/repository.rs:553-647 | The invariant holds after every run |
| Publish.PublishedIsDurable | crates/composefs/src/repository.rs:562-589 | The stream of a writer that has published is durable with all its data |
| PublishLinks.SymlinkLinks | crates/composefs/src/repository.rs:580-582 | The symlink step makes the name of its writer lead to its stream and changes no other name, no object and nothing durable |
| PublishLinks.LinkIff | crates/composefs/src/repository.rs:553-647 | After every run a name leads to an object exactly when the last symlink made for it since the last crash was by a writer with that stream, or there was none and the link written back before that crash leads there |
| PublishLinks.SurvivingLinkIff | crates/composefs/src/repository.rs:553-647 | A link survives a crash exactly as it was when it was last written back |
| PublishLinks.AnyStreamCanBePublished | crates/composefs/src/repository.rs:562-589 | From every state of every run a stream whose linked streams are there can be published under any name: the name leads to it, no other name changes, it is durable with its objects, and nothing is lost |
| PublishLinks.PublishedCanSurvive | crates/composefs/src/repository.rs:562-589 | Once its link is written back too, it is there after a crash, under its name and complete |
| Publish.RunRecalls | crates/composefs/src/repository.rs:553-647 | After every run the durable objects are exactly those that some step wrote back, or that were stored and then covered by a complete sync of any writer without a crash between; the durable image links are exactly those written back |
| Publish.ImageSurvivesIff | crates/composefs/src/repository.rs:774-788 | After a crash a surviving image link leads to the image and its objects exactly when before the crash each of them had been written back or synced |
| Publish.ImageAlwaysSafeIff | crates/composefs/src/repository.rs:774-788 | No crash, at whatever point of a run, finds an image link without its data exactly when the link was never written back before the data was |
| Publish.ImageMayBeLost | crates/composefs/src/repository.rs:774-788 | A run of `write_image` alone after which a crash leaves a link to nothing |
| Publish.CompleteStream | crates/composefs/src/repository.rs:553-647 | A stream is complete when it and its objects are there and the streams it links are complete |
| SplitstreamTheorem.RoundTrip | crates/composefs/src/splitstream.rs:384-568 | For every sequence of the public writer calls: the finished file opens; `cat` gives the concatenation of all inline data, external data and objects referred to directly; the total size is its length exactly when the sizes added by hand sum to the lengths of the direct references, and is off by the difference otherwise; the object refs are the distinct objects in order of first appearance; the content type is the one given; and the name map is the one the calls built |
| SplitstreamTheorem.NamesReadBackIff | crates/composefs/src/splitstream.rs:694-733 | The map from name to id is recovered exactly when no name holds a NUL; colons do no harm |
| SplitstreamTheorem.AppearsNext | crates/composefs/src/splitstream.rs:139-147 | Interning keeps the list of distinct items in order of first appearance |
| SplitstreamTheorem.NamedStands | crates/composefs/src/splitstream.rs:404-407 | Adding a named reference is a map update, although names are kept sorted and ids interned |
| Splitstream.ChunkedFaithful | crates/composefs/src/splitstream.rs:410-453 | Cutting the stream into inline and external chunks loses nothing |
| Splitstream.EncodeStays | crates/composefs/src/splitstream.rs:444-453 | Chunks written earlier keep their meaning when more objects are interned |
| Splitstream.SizeIsLength | crates/composefs/src/splitstream.rs:424-462 | Inline and external writes keep the total size equal to the length of the merged stream |
| Splitstream.UniqueVec.Ensure | crates/composefs/src/splitstream.rs:139-147 | The item is in the list afterwards, once, and the result is its index |
| Splitstream.SplitStreamWriter.WriteInline | crates/composefs/src/splitstream.rs:424-428 | Inline data is appended to the stream and counted |
| Splitstream.SplitStreamWriter.WriteReference | crates/composefs/src/splitstream.rs:444-453 | Pending inline data is flushed, the object is interned, and a reference to it appended |
| Splitstream.SplitStreamWriter.WriteExternal | crates/composefs/src/splitstream.rs:458-462 | The object is stored and counted, and a reference to its id appended |
| Splitstream.SplitStreamWriter.AddNamedStreamRef | crates/composefs/src/splitstream.rs:404-407 | The id is interned and the name bound to its index |
| Splitstream.SplitStreamWriter.Done | crates/composefs/src/splitstream.rs:488-568 | The file is header, info section and the four sections, each where the precomputed layout says; the asserts on positions cannot fail |
| SplitstreamReader.SectionsFound | crates/composefs/src/splitstream.rs:87-100 | Every stored range selects its own section of the file |
| SplitstreamReader.OpenRoundTrip | crates/composefs/src/splitstream.rs:632-692 | Opening a finished file finds type, size, object refs, names and the chunk stream, and is refused exactly when another content type is expected |
| SplitstreamBytes.OpenIs | crates/composefs/src/splitstream.rs:632-733 | Any file opens exactly as what stands in it: the magic, version 0, the algorithm and 12; the info at the offsets at 16; in it the offsets of stream references, object references, stream and names, then the type and the size; ids of one size, names as index, colon, name and NUL; it is refused exactly when one of these fails |
| SplitstreamBytes.WrittenIs | crates/composefs/src/splitstream.rs:488-560 | A finished file has its parts at these places, and its chunk stream says the merged stream |
| SplitstreamBytes.SectionsInOrder | crates/composefs/src/splitstream.rs:488-560 | In a finished file the info stands at 32 and is followed, without gaps, by stream references, object references, names and the stream, which ends the file |
| SplitstreamReader.NamedRoundTrip | crates/composefs/src/splitstream.rs:694-733 | Named references parse back, for NUL-free names with any colons |
| SplitstreamReader.ReadNamedReferences | crates/composefs/src/splitstream.rs:694-733 | The loop computes the map parsed from the section, or an error |
| SplitstreamReader.CatRoundTrip | crates/composefs/src/splitstream.rs:835-860 | Opening what was written and `cat` give the merged stream |
| SplitstreamReader.CatAt | crates/composefs/src/splitstream.rs:835-860 | From every position `cat` gives the rest of the merged stream |
| SplitstreamBytes.CatIs | crates/composefs/src/splitstream.rs:745-860 | For any chunk stream `cat` gives out exactly what it says: after a negative 64-bit number as many bytes as its amount, for any other the object with that index; it fails exactly when the stream says nothing |
| SplitstreamReader.NextAt | crates/composefs/src/splitstream.rs:745-782 | At a chunk boundary `ensure_chunk` finds the next chunk, the end, or an error when it is too short, unexpected or missing |
| SplitstreamReader.SplitStreamReader.EnsureChunk | crates/composefs/src/splitstream.rs:745-782 | The method changes the reader as specified |
| SplitstreamReader.SplitStreamReader.ReadInlineExact | crates/composefs/src/splitstream.rs:786-795 | Exactly the bytes asked for are taken from the current inline chunk, or it is the end, or an error |
| SplitstreamReader.SplitStreamReader.ReadExact | crates/composefs/src/splitstream.rs:811-829 | The content without its padding, or the object whose padding is skipped |
| SplitstreamBytes.ReadIs | crates/composefs/src/splitstream.rs:797-829 | From any state a read with padding gives inline bytes without it when the chunk has as many; or an object, when its padding, of 512 bytes at most, follows inline; and an error otherwise |
| SplitstreamBytes.InlineReadIs | crates/composefs/src/splitstream.rs:786-795 | From any state an inline read gives the bytes when the chunk at hand is inline and has as many, the end between chunks, and an error otherwise |
| SplitstreamReader.SplitStreamReader.Cat | crates/composefs/src/splitstream.rs:835-860 | The loop computes the concatenation of inline data and loaded objects, or an error |
| SplitstreamBuilder.SplitStreamBuilder.Finish | crates/composefs/src/splitstream.rs:275-324 | Whatever the order in which background tasks end, the file is that of the entries replayed in their order with the ids of what the tasks received |
| SplitstreamBuilder.SplitStreamBuilder.PushInline | crates/composefs/src/splitstream.rs:235-245 | Adjacent inline data is put together; nothing is added for no data |
| SplitstreamBuilder.Tasks.Await | crates/composefs/src/splitstream.rs:275-324 | A task whose channel is closed ends, perhaps after others, with the id of all it received |
| SplitstreamBuilder.NamesAgree | crates/composefs/src/splitstream.rs:275-324 | Re-adding names in their order may number streams anew; the map from name to id stays the same |
| Tar.ProducersAgree | crates/composefs-oci/src/tar.rs:140-221 | `split_async` with the builder yields the same splitstream bytes as `split` with the writer, or both refuse the archive |
| Tar.SplitAsync | crates/composefs-oci/src/tar.rs:140-221 | For every input, every way the buffer fills and every order in which tasks end, the file is the stream of the archive; it fails exactly when the archive is not accepted |
| Tar.Split | crates/composefs-oci/src/tar.rs:64-92 | The writer has received exactly the pieces of the archive, and its size; it fails exactly when the archive is not accepted |
| Tar.SplitMerges | crates/composefs-oci/src/tar.rs:64-92 | The merged stream of an accepted archive is the archive |
| Tar.ArchiveRoundTrip | crates/composefs-oci/src/tar.rs:64-92 | An accepted archive, split, finished, opened and read: `cat` gives the archive, the recorded size is its length, and the records read are those of the archive, or an error exactly when the archive ends in an entry without a body and no zero block |
| TarRecords.ArchiveRecords | crates/composefs-oci/src/tar.rs:64-92 | The records read back are those at the 512-byte offsets of the archive, up to a block of zeros or the end; a body comes as an object exactly when it is that of a regular file of more than 64 bytes |
| Tar.RecordsRoundTrip | crates/composefs-oci/src/tar.rs:297-324 | Header and body reads over the stream of an accepted archive see the same records as a direct parse of 512-byte blocks up to the first zero block or the end, with large bodies as objects; they fail exactly when there is no zero block and the last entry has no body |
| Tar.ReadRecords | crates/composefs-oci/src/tar.rs:297-324 | The read loop computes the records of the stream |
| Tar.PushEntry | crates/composefs-oci/src/tar.rs:158-216 | What follows a header is pushed, so that header, body and padding are in the stream as in the archive; it fails exactly when the input is too short |
| Tar.SendBody | crates/composefs-oci/src/tar.rs:180-199 | The background side receives exactly the body, however the buffer cuts it, or the input was too short |
| Tar.Source.ReadExactish | crates/composefs/src/util.rs:50-69 | A full buffer, however the reads are cut and interrupted; nothing at a clean end; an error when the end comes inside the buffer |
| DumpfileExact.TreeSurvivesIff | crates/composefs/src/dumpfile.rs:305-489 | A tree inside the limits is built again from its text exactly when no leaf is referred to twice, its times are not negative, it has no socket, no symlink target that is empty or "-", no attribute with an empty name or value, and no inline body "-"; with a shared leaf, a negative time, a socket or such a target the text is refused |
| DumpfileExact.WriteAndRead | crates/composefs/src/dumpfile.rs:305-489 | The two programs in a row give a tree with the same values back exactly then; in what they give back each file has a leaf of its own |
| DumpfileExact.NoNegativeTimes | crates/composefs/src/dumpfile_parse.rs:309-321 | No time before 1970 that the writer prints can be parsed |
| DumpfileTheorem.TreeRoundTrip | crates/composefs/src/dumpfile.rs:452-489 | Building from the lines of a tree in which nothing is written as a hardlink gives the tree |
| DumpfileTheorem.SeenIs | crates/composefs/src/dumpfile.rs:281-298 | What the writer remembers are exactly the leaves with several references that it has met |
| DumpfileTheorem.AddTree | crates/composefs/src/dumpfile.rs:324-422 | Adding the lines of a subtree puts the subtree at its path and nothing else |
| DumpfileTheorem.InsertInside | crates/composefs/src/dumpfile.rs:324-422 | Inserting below a directory changes that directory only |
| DumpfileTheorem.LeafReads | crates/composefs/src/dumpfile.rs:324-446 | The entry of a leaf makes the leaf: stat and content |
| DumpfileTheorem.HardlinkLinesFail | crates/composefs/src/dumpfile.rs:221-227 | No hardlink line that the writer makes can be parsed, since its link count is a dash |
| DumpfileEntry.LineRoundTrip | crates/composefs/src/dumpfile_parse.rs:361-575 | Parsing a printed entry that is not a hardlink gives the entry, within the limits |
| DumpfileRules.PrintedNumbers | crates/composefs/src/dumpfile_parse.rs:531-575 | A printed entry has the size, mode, links, owner, device and time of the entry in its fields |
| DumpfileRules.TakenLines | crates/composefs/src/dumpfile_parse.rs:361-478 | A line that is taken has a path and numbers inside their limits, attributes inside theirs, and an allowed kind: no marked directory, no device number but for devices, no content or digest but for regular files, no digest without a path, never a socket |
| DumpfileEntry.PrintedXattr | crates/composefs/src/dumpfile_parse.rs:323-340 | A printed attribute parses back, whatever its key and value hold |
| DumpfileText.EscapersInverted | crates/composefs/src/dumpfile_parse.rs:134-307 | Unescaping inverts both escapers on exactly the non-empty strings; `write_escaped` writes a dash for the empty string and the dash, `escape` for the empty string only |
| DumpfileText.UnescapeInverts | crates/composefs/src/dumpfile_parse.rs:134-179 | Unescaping inverts the two byte-wise encodings up to its limit |
| DumpfileText.WrittenVisible | crates/composefs/src/dumpfile.rs:33-50 | Escaped text is never empty and holds no space or control character, and no equals sign from `write_escaped` or in keys |
| DumpfileText.UnescapeLimited | crates/composefs/src/dumpfile_parse.rs:134-179 | The fast path and the loop over the characters compute the specified unescaping of UTF-8 text with its limit |
| DumpfileText.LimitHoldsIff | crates/composefs/src/dumpfile_parse.rs:134-179 | The result is within the limit exactly when no multi-byte character straddles it; after one that does the limit is not noticed again |
| DumpfileText.AsciiStaysInside | crates/composefs/src/dumpfile_parse.rs:134-179 | In ASCII text, all that the escapers write, no character straddles the limit |
| DumpfileText.WriteEscaped | crates/composefs/src/dumpfile.rs:33-50 | The loop computes the specified escaping |
| DumpfileText.Escape | crates/composefs/src/dumpfile_parse.rs:273-299 | The loop computes the specified escaping in both modes |
| DumpfileRules.EscapersSay | crates/composefs/src/dumpfile_parse.rs:272-299 | Byte by byte: printable characters but backslashes, and equals signs where they would be mistaken, stand for themselves; `escape` has short escapes for tab, line ends and backslash; all else is `\xNN` in lower case; nothing is a dash |
| DumpfileText.PathRoundTrip | crates/composefs/src/dumpfile_parse.rs:227-265 | An absolute canonical path is found again after either escaper |
| DumpfileRules.TakenTexts | crates/composefs/src/dumpfile.rs:452-489 | A text is taken only when each of its lines with anything in it is, and the first of these is that of the root; lines end at a newline, and a carriage return before it is not part of them |
| DumpfileText.LinesOfText | crates/composefs/src/dumpfile.rs:452-489 | Text put together from lines as the writer makes them splits into these lines |
| Dumpfile.WriteDumpfile | crates/composefs/src/dumpfile.rs:305-319 | The text is the lines of the tree in preorder, with a hardlink line for every reference but the first to a leaf with several |
| DumpfileLines.WriteLines | crates/composefs/src/dumpfile.rs:305-319 | The text has one line for each path of the tree, a directory before what is in it. Each begins with the path and says, field by field, the whole node: size, type and permissions, links, owner, device, time, content and attributes; or, for a leaf with several references that was met before, it is a hardlink line with the path of the first line for that leaf, which says it in full |
| DumpfileLines.LinesSay | crates/composefs/src/dumpfile.rs:248-298 | The same of the lines of the specification |
| DumpfileLines.LeafWritten | crates/composefs/src/dumpfile.rs:128-214 | The fields of a file decode to its size, mode, links, owner, device, time, content or object and attributes |
| DumpfileLines.SeenIsFirst | crates/composefs/src/dumpfile.rs:281-298 | What is remembered of a leaf is the path where it was met first |
| Dumpfile.DumpfileWriter.WriteDir | crates/composefs/src/dumpfile.rs:248-279 | The recursion with its pushed and popped path appends the lines of the directory, remembers the leaves met and leaves the path as it was |
| Dumpfile.DumpfileWriter.WriteLeaf | crates/composefs/src/dumpfile.rs:281-298 | The first reference to a leaf is written in full and remembered when there are several; the others become hardlink lines |
| Dumpfile.TreeBuilder.Add | crates/composefs/src/dumpfile.rs:324-422 | An entry is put into the tree or refused; a new file gets a leaf of its own, a hardlink the leaf of its target, and the leaf is remembered under the path |
| Dumpfile.DumpfileToFilesystem | crates/composefs/src/dumpfile.rs:452-489 | The loop builds the filesystem of the lines, shared leaves and reference counts included: the first must be the root, blank ones are skipped, any bad one is an error |
| DumpfileLinks.SharedIff | crates/composefs/src/dumpfile.rs:324-489 | In the filesystem built from any text: the file at a path is what the line says that made it, and two paths share a leaf exactly when one line made both, directly or through hardlink lines |
| DumpfileLinks.BuiltIsCounted | crates/composefs/src/dumpfile.rs:374-421 | A leaf that two paths of a built tree lead to has a reference count above one |
| DumpfileLinks.BuildRefines | crates/composefs/src/dumpfile.rs:324-489 | Building with shared leaves succeeds exactly when building with values does, and its tree says the same |
| DumpfileLinks.EntryRefines | crates/composefs/src/dumpfile.rs:324-422 | One entry added to the tree with shared leaves does to its values what it does to the tree of values, and is refused in the same cases |
| DumpfileLinks.FileAfterInsert | crates/composefs/src/dumpfile.rs:420-421 | After an insertion a path leads to the file put there or to the one it led to before |
| DumpfileLinks.PositionsDiffer | crates/composefs/src/dumpfile.rs:374-421 | Different paths are different references of the tree, so each of them counts |
| DumpfileLinks.NothingShared | crates/composefs/src/dumpfile.rs:324-489 | Without hardlink lines no two paths share a leaf |
| DumpfileImage.SameInodeIffLinked | crates/composefs/src/erofs/writer.rs:461-483 | From dumpfile to image: in the image of a built tree the file at a path reads as the leaf that its line says, and two paths lead to one inode exactly when hardlink lines of the text join them |
| Numbers.ParsePrinted | crates/composefs/src/dumpfile_parse.rs:361-400 | A number printed in decimal or octal parses back, below the limit of its type |

## Left out

- Foreign calls and plumbing: file descriptors, locks, O_TMPFILE, ioctls and measuring verity on open, mounts, FUSE, the command line, setup-root, HTTP and skopeo. The repository is a store of maps; a failing system call is not modelled.
- Boot entries, SELinux labels, os-release, OCI whiteout layering and the printed output of `erofs/debug.rs`: they would only add easy members.
- ErofsWriter.Output.NoteOffset: the trait and its two implementations are one class with a flag for the pass, since the two differ in four small methods only; inodes of the collector are values in a list, so updating them in place and borrowing from the tree are not captured.
- ErofsWriter.WriteHeader: the trailing 80 bytes of the superblock, which are always zero, are one field of the record.
- ErofsReader.EntryAt: the name of the last entry of a block ends at the first zero byte; the source finds it by `partition_point`, which is the same on names without NUL and is not specified on others.
- ErofsFaithful.MkfsPreservesTree: sizes and numbers that the format has no room for are excluded by `FitsFs`; device numbers are read back modulo 2^32, since the field has 32 bits.
- ErofsFaithful.SameInodeIffSameLeaf: takes from the tree that a leaf at two paths has a reference count above one, which holds of every `Rc`.
- Verity.FsVerityHasher.AddBlock: blocks are at most the block size, as its documentation asks of callers; adding a block after `digest` is not supported by its state. The byte counter does not wrap around.
- Verity.Hash: `compute_verity_digest` of the repository, which agrees with it only when each chunk read but the last is a whole block, is not modelled.
- RepositoryGc.WalkStreams: opening a stream by its name is looking up the object of its link; the measurement of its verity is not modelled.
- RepositoryGc.Roots: the text of symlinks is not modelled, a ref is a path with the entry name it leads to; a ref whose target has no file name is ignored by the source and is no ref here. Unexpected file types are not modelled.
- RepositoryGc.Repository.GcImpl: a crash in the middle, locks and failing deletions are not modelled.
- Publish.CrashSafety: an object becomes durable as a whole; ids have fixed contents; streams are complete when they are named in another one or registered. That a sync makes links durable too is covered only by writeback, which may happen at any time; refs, which lead to links, are not modelled.
- SplitstreamReader.OpenRoundTrip: sections are decompressed when the stream is opened, not while it is read, so an error in compressed data would show earlier; that names are valid UTF-8 is not checked.
- SplitstreamTheorem.RoundTrip: the `Read` implementation of the reader and asynchronous external writes, which are the synchronous ones on another thread, are not modelled. That external data is given back is asked of the data written only.
- SplitstreamBuilder.Tasks.Await: a background task stores what it received; tasks that fail, and the semaphore that bounds how many run, are not modelled.
- Tar.RecordsRoundTrip: records are headers with bodies; what `get_entry` makes of them (long names, PAX and GNU extensions, items) is not modelled.
- Tar.Source.ReadExactish: reads may be short and interrupted; other input errors, which all end in an error return, are not modelled.
- Tar.SendBody: the receiving side does not go away, since failing background tasks are not modelled.
- Tar.ArchiveRoundTrip: what the tar crate reads in a header is a parameter: the entry size and whether it is a regular file.
- Dumpfile.TreeBuilder.Add: the tree is replaced by an updated value; the map of mutable references in the source is a map of paths. The reference counts are set when the tree is finished, where the source has them in each `Rc`; a leaf that no path leads to any more is kept with a count of zero, where the source drops it.
- Dumpfile.DumpfileToFilesystem: a line of other than ASCII white space is not taken for blank.
- DumpfileEntry.LineRoundTrip: hardlink entries are printed without their mark, so they do not come back. `dump`, which runs another program, is not modelled.
