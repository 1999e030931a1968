/** The digest byte by byte: which strings are hashed, from the data to the descriptor, told
    without the functions of the hasher. */
module VerityBytes {
  import opened Bytes
  import opened LittleEndian
  import opened Verity

  /** `up` has the hash of each block of `content` in order, the last one filled with zeros. */
  ghost predicate OneUp(p: Params, content: bytes, up: bytes)
    requires p.Good()
    decreases |content|
  {
    var block := p.arity * p.size;
    if content == [] then up == []
    else if |content| <= block then up == p.hash(content + Zeros(block - |content|))
    else |up| >= p.size && up[..p.size] == p.hash(content[..block]) && OneUp(p, content[block..], up[p.size..])
  }

  /** The contents of the levels, from the data to the root. */
  ghost predicate Tree(p: Params, levels: seq<bytes>)
    requires p.Good()
  {
    && levels != []
    && (forall j :: 0 <= j < |levels| - 1 ==> OneUp(p, levels[j], levels[j + 1]))
    && (forall j :: 0 < j < |levels| ==> (|levels[j]| == p.size <==> j == |levels| - 1))
    && (|levels| == 1 <==> levels[0] == [])
  }

  lemma BlockIs(p: Params, data: bytes)
    requires p.Good() && |data| <= p.arity * p.size
    ensures |data| <= p.Block() && BlockHash(p, data) == p.hash(data + Zeros(p.arity * p.size - |data|))
    ensures |BlockHash(p, data)| == p.size
    ensures |data| == p.arity * p.size ==> BlockHash(p, data) == p.hash(data)
  {
    hide p.Block;
    Shape(p);
    if |data| == p.arity * p.size {
      assert data + Zeros(0) == data;
    }
  }

  lemma {:induction false} LeavesUp(p: Params, data: bytes)
    requires p.Good()
    ensures OneUp(p, data, Flat(Leaves(p, data)))
    decreases |data|
  {
    hide p.Good, BlockHash, p.Block;
    Shape(p);
    if data != [] {
      var n := Min(p.Block(), |data|);
      var hs := Leaves(p, data);
      LeavesHead(p, data, n);
      BlockIs(p, data[..n]);
      LeavesUp(p, data[n..]);
      assert Flat(hs) == hs[0] + Flat(hs[1..]);
      if |data| <= p.Block() {
        assert data[..n] == data && data[n..] == [];
        NoLeaves(p);
        assert Flat(hs[1..]) == [];
      } else {
        assert Flat(hs)[..p.size] == hs[0] && Flat(hs)[p.size..] == Flat(hs[1..]);
      }
    }
  }

  lemma {:induction false} LevelUp(p: Params, hs: seq<bytes>)
    requires p.Good() && Sized(p, hs)
    ensures OneUp(p, Flat(hs), Flat(Level(p, hs)))
    decreases |hs|
  {
    hide p.Good, BlockHash, p.Block;
    Shape(p);
    if hs != [] {
      var n := Min(p.arity, |hs|);
      var up := Level(p, hs);
      LevelHead(p, hs, n);
      FlatLength(hs, p.size);
      FlatLength(hs[..n], p.size);
      MulMonotone(1, |hs|, p.size);
      FlatAppend(hs[..n], hs[n..]);
      assert hs[..n] + hs[n..] == hs;
      FlatFits(p, hs[..n]);
      BlockIs(p, Flat(hs[..n]));
      LevelUp(p, hs[n..]);
      assert Flat(up) == up[0] + Flat(up[1..]);
      if |hs| <= p.arity {
        assert hs[n..] == [] && hs[..n] == hs;
        MulMonotone(|hs|, p.arity, p.size);
        assert Level(p, hs[n..]) == [];
        assert Flat(up[1..]) == [];
      } else {
        MulMonotone(p.arity, |hs|, p.size);
        assert Flat(hs)[..p.arity * p.size] == Flat(hs[..n]);
        assert Flat(hs)[p.arity * p.size..] == Flat(hs[n..]);
        assert Flat(up)[..p.size] == up[0] && Flat(up)[p.size..] == Flat(up[1..]);
      }
    }
  }

  lemma FlatOne(h: bytes)
    ensures Flat([h]) == h
  {
    assert [h][1..] == [];
    assert Flat([h]) == h + Flat([]);
  }

  /** The levels above some hashes. */
  lemma {:induction false} RootLevels(p: Params, hs: seq<bytes>) returns (levels: seq<bytes>)
    requires p.Good() && Sized(p, hs) && hs != []
    ensures levels != [] && levels[0] == Flat(hs) && levels[|levels| - 1] == Root(p, hs)
    ensures forall j :: 0 <= j < |levels| - 1 ==> OneUp(p, levels[j], levels[j + 1])
    ensures forall j :: 0 <= j < |levels| ==> (|levels[j]| == p.size <==> j == |levels| - 1)
    decreases |hs|
  {
    hide p.Good, OneUp;
    Shape(p);
    FlatLength(hs, p.size);
    if |hs| == 1 {
      assert hs == [hs[0]];
      FlatOne(hs[0]);
      levels := [Flat(hs)];
    } else {
      LevelSize(p, hs, 0);
      LevelUp(p, hs);
      MulMonotone(1, |hs|, p.size);
      var above := RootLevels(p, Level(p, hs));
      levels := [Flat(hs)] + above;
    }
  }

  /** A descriptor as the kernel document "fs-verity" lays it out: version 1, the algorithm, the
      logarithm of the block size, no salt; the size of the data at 8, least byte first; the root
      at 16; and nothing else in 256 bytes. */
  ghost predicate Describes(p: Params, x: bytes, n: nat, root: bytes) {
    && |x| == 256 && p.size <= 64 && |root| == p.size
    && x[0] == 1 && x[1] == p.algorithm && x[2] == p.lgBlock
    && (forall k :: 3 <= k < 8 ==> x[k] == 0)
    && (forall k :: 0 <= k < 8 ==> x[8 + k] == n / Pow256(k) % 256)
    && (forall k :: 0 <= k < p.size ==> x[16 + k] == root[k])
    && forall k :: 16 + p.size <= k < 256 ==> x[k] == 0
  }

  lemma DescriptorDescribes(p: Params, n: nat, root: bytes)
    requires p.size <= 64 && |root| == p.size
    ensures Describes(p, Descriptor(p, n, root), n, root)
  {
    hide LE, Pow256;
    forall k | 0 <= k < 8
      ensures LE(n, 8)[k] == n / Pow256(k) % 256
    {
      LEDigit(n, 8, k);
    }
  }

  /** The digest of some data is the hash of the descriptor with its size and the root of its tree:
      the content of the last level, or zeros when there is no data. */
  lemma DigestIs(p: Params, data: bytes) returns (levels: seq<bytes>, x: bytes)
    requires p.Good()
    ensures Tree(p, levels) && levels[0] == data
    ensures Describes(p, x, |data|, if data == [] then Zeros(p.size) else levels[|levels| - 1])
    ensures DigestOf(p, data) == p.hash(x)
  {
    hide p.Good, OneUp, Descriptor, Describes;
    Shape(p);
    var hs := Leaves(p, data);
    x := Descriptor(p, |data|, Root(p, hs));
    DescriptorDescribes(p, |data|, Root(p, hs));
    if data == [] {
      levels := [data];
      NoLeaves(p);
    } else {
      LeavesHead(p, data, Min(p.Block(), |data|));
      LeavesUp(p, data);
      var above := RootLevels(p, hs);
      levels := [data] + above;
    }
  }

  /** `FsVerityHasher::hash` with the two things above it stands on. */
  method HashWithTree(p: Params, buffer: bytes) returns (d: bytes, ghost levels: seq<bytes>, ghost x: bytes)
    requires p.Good()
    ensures d == p.hash(x) && Tree(p, levels) && levels[0] == buffer
    ensures Describes(p, x, |buffer|, if buffer == [] then Zeros(p.size) else levels[|levels| - 1])
  {
    hide p.Good, Tree, Describes, DigestOf;
    d := Hash(p, buffer);
    levels, x := DigestIs(p, buffer);
  }
}
