/** fs-verity digests (fsverity/digest.rs): the Merkle tree level by level, the incremental
    hasher that keeps one partial block per level, and what equal digests mean. */
module Verity {
  import opened Bytes

  /** The hash value type and the block size: the static parameters of the hasher.  `hash` is
      any function to strings of `size` bytes. */
  datatype Params =
    Params(hash: bytes -> bytes, size: nat, algorithm: byte, lgBlock: byte, arity: nat)
  {
    function Block(): nat {
      Pow2(lgBlock)
    }

    function Zero(): bytes {
      Zeros(size)
    }

    /** Blocks hold a whole number of at least two hashes; no hash is all zeros. */
    ghost predicate Good() {
      && 0 < size <= 64 && arity >= 2 && Block() == arity * size
      && forall b :: |hash(b)| == size && hash(b) != Zero()
    }
  }

  lemma Shape(p: Params)
    requires p.Good()
    ensures p.arity >= 2 && 0 < p.size <= 64 && p.Block() == p.arity * p.size
  {
  }

  // Division by the arity, kept symbolic.

  function Quotient(n: nat, d: nat): nat
    requires d > 0
  {
    n / d
  }

  function Rest(n: nat, d: nat): nat
    requires d > 0
  {
    n % d
  }

  lemma Divides(n: nat, d: nat)
    requires d > 0
    ensures n == Quotient(n, d) * d + Rest(n, d) && Rest(n, d) < d
  {
    DivMod(n, d);
  }

  lemma DividesOnce(n: nat, d: nat, q: nat, r: nat)
    requires n == q * d + r && r < d
    ensures Quotient(n, d) == q && Rest(n, d) == r
  {
    DivUnique(n, d, q, r);
  }

  // ---- the Merkle tree ----

  /** Short blocks are padded with zeros. */
  function Padded(p: Params, data: bytes): bytes
    requires |data| <= p.Block()
  {
    data + Zeros(p.Block() - |data|)
  }

  /** The hash of a block. */
  function BlockHash(p: Params, data: bytes): bytes
    requires |data| <= p.Block()
  {
    p.hash(Padded(p, data))
  }

  ghost predicate Sized(p: Params, hs: seq<bytes>) {
    forall i :: 0 <= i < |hs| ==> |hs[i]| == p.size
  }

  lemma FlatFits(p: Params, hs: seq<bytes>)
    requires p.Good() && Sized(p, hs) && |hs| <= p.arity
    ensures |Flat(hs)| == |hs| * p.size <= p.Block()
  {
    FlatLength(hs, p.size);
    MulMonotone(|hs|, p.arity, p.size);
  }

  lemma MulMonotone(a: nat, b: nat, c: nat)
    requires a <= b
    ensures a * c <= b * c
    ensures a < b && c > 0 ==> a * c < b * c
  {
  }

  /** One level up: hashes are packed into blocks, in order, and the blocks are hashed. */
  function Level(p: Params, hs: seq<bytes>): (up: seq<bytes>)
    requires p.Good() && Sized(p, hs)
    ensures Sized(p, up)
    decreases |hs|
  {
    if hs == [] then []
    else
      var n := Min(p.arity, |hs|);
      FlatFits(p, hs[..n]);
      [BlockHash(p, Flat(hs[..n]))] + Level(p, hs[n..])
  }

  lemma {:induction false} LevelSize(p: Params, hs: seq<bytes>, m: nat)
    requires p.Good() && Sized(p, hs)
    ensures |Level(p, hs)| <= |hs|
    ensures |hs| >= 2 ==> |Level(p, hs)| < |hs|
    ensures hs != [] ==> Level(p, hs) != []
    ensures |hs| > p.arity * m ==> |Level(p, hs)| > m
    decreases |hs|
  {
    if hs != [] {
      var n := Min(p.arity, |hs|);
      if m > 0 {
        assert p.arity * m == p.arity + p.arity * (m - 1);
        LevelSize(p, hs[n..], m - 1);
        MulMonotone(1, m, p.arity);
      } else {
        LevelSize(p, hs[n..], 0);
      }
    }
  }

  /** The root: levels are built until one hash is left; no data has the zero root. */
  function Root(p: Params, hs: seq<bytes>): (r: bytes)
    requires p.Good() && Sized(p, hs)
    ensures |r| == p.size
    decreases |hs|
  {
    if hs == [] then p.Zero()
    else if |hs| == 1 then hs[0]
    else
      LevelSize(p, hs, 0);
      Root(p, Level(p, hs))
  }

  /** The leaves of the tree: the hash of every block of the data. */
  function Leaves(p: Params, data: bytes): (hs: seq<bytes>)
    requires p.Good()
    ensures Sized(p, hs)
    decreases |data|
  {
    if data == [] then []
    else
      var n := Min(p.Block(), |data|);
      [BlockHash(p, data[..n])] + Leaves(p, data[n..])
  }

  /** The fs-verity descriptor; every field has a fixed place. */
  function Descriptor(p: Params, n: nat, root: bytes): bytes
    requires p.size <= 64
  {
    [1, p.algorithm, p.lgBlock, 0] + Zeros(4) + LE(n, 8) + root + Zeros(64 - p.size)
    + Zeros(32) + Zeros(144)
  }

  function TreeDigest(p: Params, n: nat, hs: seq<bytes>): bytes
    requires p.Good() && Sized(p, hs)
  {
    p.hash(Descriptor(p, n, Root(p, hs)))
  }

  /** The digest of some data, by the level-by-level tree. */
  function DigestOf(p: Params, data: bytes): bytes
    requires p.Good()
  {
    TreeDigest(p, |data|, Leaves(p, data))
  }

  // ---- complete groups and what is left over ----

  /** The hashes that do not fill a block yet. */
  function Tail(p: Params, hs: seq<bytes>): (t: seq<bytes>)
    requires p.Good() && Sized(p, hs)
    ensures |t| == Rest(|hs|, p.arity) && Sized(p, t)
  {
    hs[|hs| - Rest(|hs|, p.arity)..]
  }

  /** The hashes that fill whole blocks. */
  function Filled(p: Params, hs: seq<bytes>): (f: seq<bytes>)
    requires p.Good() && Sized(p, hs)
    ensures Sized(p, f) && hs == f + Tail(p, hs) && |f| == Quotient(|hs|, p.arity) * p.arity
  {
    Divides(|hs|, p.arity);
    hs[..|hs| - Rest(|hs|, p.arity)]
  }

  /** The level above, as far as it is determined: the hashes of the filled blocks. */
  function Next(p: Params, hs: seq<bytes>): (up: seq<bytes>)
    requires p.Good() && Sized(p, hs)
    ensures Sized(p, up)
  {
    Level(p, Filled(p, hs))
  }

  function LevelAt(p: Params, hs: seq<bytes>, i: nat): (l: seq<bytes>)
    requires p.Good() && Sized(p, hs)
    ensures Sized(p, l)
  {
    if i == 0 then hs else Next(p, LevelAt(p, hs, i - 1))
  }

  /** The same levels in the finished tree, partial blocks included. */
  function TreeLevel(p: Params, hs: seq<bytes>, i: nat): (l: seq<bytes>)
    requires p.Good() && Sized(p, hs)
    ensures Sized(p, l)
  {
    if i == 0 then hs else Level(p, TreeLevel(p, hs, i - 1))
  }

  lemma {:induction false} LevelAppend(p: Params, a: seq<bytes>, q: nat, b: seq<bytes>)
    requires p.Good() && Sized(p, a) && Sized(p, b) && |a| == q * p.arity
    ensures Sized(p, a + b) && Level(p, a + b) == Level(p, a) + Level(p, b)
    ensures |Level(p, a)| == q
    decreases q
  {
    hide *;
    Shape(p);
    SizedParts(p, a, b, 0);
    if q == 0 {
      assert a == [] && a + b == b && [] + Level(p, b) == Level(p, b);
      LevelOfNone(p);
    } else {
      var n := p.arity;
      assert q * n == n + (q - 1) * n;
      MulMonotone(1, q, n);
      SizedParts(p, a, b, n);
      assert (a + b)[..n] == a[..n] && (a + b)[n..] == a[n..] + b;
      LevelAppend(p, a[n..], q - 1, b);
      LevelStep(p, a);
      LevelStep(p, a + b);
      var x := [BlockHash(p, Flat(a[..n]))];
      assert x + (Level(p, a[n..]) + Level(p, b)) == x + Level(p, a[n..]) + Level(p, b);
    }
  }

  lemma SizedParts(p: Params, a: seq<bytes>, b: seq<bytes>, n: nat)
    requires Sized(p, a) && Sized(p, b) && n <= |a|
    ensures Sized(p, a + b) && Sized(p, a[n..]) && Sized(p, a[..n])
  {
  }

  lemma LevelOfNone(p: Params)
    requires p.Good()
    ensures Sized(p, []) && Level(p, []) == []
  {
  }

  lemma LevelStep(p: Params, hs: seq<bytes>)
    requires p.Good() && Sized(p, hs) && |hs| >= p.arity
    ensures |Flat(hs[..p.arity])| <= p.Block()
    ensures Level(p, hs) == [BlockHash(p, Flat(hs[..p.arity]))] + Level(p, hs[p.arity..])
  {
    FlatFits(p, hs[..p.arity]);
  }

  lemma LevelOfGroup(p: Params, hs: seq<bytes>)
    requires p.Good() && Sized(p, hs) && 0 < |hs| <= p.arity
    ensures |Flat(hs)| <= p.Block() && Level(p, hs) == [BlockHash(p, Flat(hs))]
  {
    FlatFits(p, hs);
    assert hs[..|hs|] == hs;
  }

  /** One more hash on a level: it joins the partial block, or fills it and moves up. */
  lemma OneMore(p: Params, hs: seq<bytes>, h: bytes)
    requires p.Good() && Sized(p, hs) && |h| == p.size
    ensures Sized(p, hs + [h]) && |Flat(Tail(p, hs) + [h])| <= p.Block()
    ensures |Tail(p, hs)| + 1 < p.arity ==>
      Tail(p, hs + [h]) == Tail(p, hs) + [h] && Next(p, hs + [h]) == Next(p, hs)
    ensures |Tail(p, hs)| + 1 == p.arity ==>
      && Tail(p, hs + [h]) == []
      && Next(p, hs + [h]) == Next(p, hs) + [BlockHash(p, Flat(Tail(p, hs) + [h]))]
  {
    hide p.Good, Flat, Level, Quotient, Rest, BlockHash;
    Shape(p);
    var n, q, t := p.arity, Quotient(|hs|, p.arity), Tail(p, hs);
    Divides(|hs|, n);
    FlatFits(p, t + [h]);
    assert hs + [h] == Filled(p, hs) + (t + [h]);
    if |t| + 1 < n {
      DividesOnce(|hs| + 1, n, q, |t| + 1);
      assert Filled(p, hs + [h]) == Filled(p, hs);
    } else {
      assert (q + 1) * n == q * n + n;
      DividesOnce(|hs| + 1, n, q + 1, 0);
      assert Filled(p, hs + [h]) == Filled(p, hs) + (t + [h]);
      LevelAppend(p, Filled(p, hs), q, t + [h]);
      LevelOfGroup(p, t + [h]);
    }
  }

  /** Closing a level: the partial block, with what came up from below, is hashed too. */
  lemma CloseLevel(p: Params, hs: seq<bytes>, more: seq<bytes>)
    requires p.Good() && Sized(p, hs) && Sized(p, more) && |more| <= 1
    ensures Sized(p, hs + more) && Sized(p, Tail(p, hs) + more)
    ensures |Flat(Tail(p, hs) + more)| <= p.Block()
    ensures Level(p, hs + more)
         == Next(p, hs) + (if Tail(p, hs) + more == [] then []
                           else [BlockHash(p, Flat(Tail(p, hs) + more))])
  {
    hide p.Good, Flat, Level, Quotient, Rest, BlockHash;
    Shape(p);
    var rest := Tail(p, hs) + more;
    Divides(|hs|, p.arity);
    assert |rest| <= p.arity;
    FlatFits(p, rest);
    assert hs + more == Filled(p, hs) + rest;
    LevelAppend(p, Filled(p, hs), Quotient(|hs|, p.arity), rest);
    if rest != [] {
      LevelOfGroup(p, rest);
    }
  }

  // ---- how many hashes there are on each level ----

  function Power(a: nat, k: nat): nat {
    if k == 0 then 1 else a * Power(a, k - 1)
  }

  lemma {:induction false} PowerGrows(a: nat, j: nat, k: nat)
    requires a >= 2
    ensures Power(a, k) >= 1
    ensures j < k ==> Power(a, j) < Power(a, k)
  {
    if k > 0 {
      PowerGrows(a, j, k - 1);
      assert Power(a, k) == a * Power(a, k - 1) >= 2 * Power(a, k - 1) by {
        MulMonotone(2, a, Power(a, k - 1));
      }
    }
  }

  lemma QuotientTwice(n: nat, c: nat, d: nat)
    requires c > 0 && d > 0
    ensures c * d > 0 && Quotient(Quotient(n, c), d) == Quotient(n, c * d)
  {
    hide *;
    var q, r := Quotient(n, c), Rest(n, c);
    var s, t := Quotient(q, d), Rest(q, d);
    Divides(n, c);
    Divides(q, d);
    MulMonotone(1, c, d);
    Regroup(s, t, r, c, d);
    DividesOnce(n, c * d, s, t * c + r);
  }

  lemma Regroup(s: nat, t: nat, r: nat, c: nat, d: nat)
    requires t < d && r < c
    ensures (s * d + t) * c + r == s * (c * d) + (t * c + r)
    ensures t * c + r < c * d
  {
    assert (s * d + t) * c == (s * d) * c + t * c;
    assert (s * d) * c == s * (c * d);
    MulMonotone(t + 1, d, c);
    assert (t + 1) * c == t * c + c;
  }

  /** The fill counts are the base-A digits of the number of hashes. */
  lemma {:induction false} LevelAtSize(p: Params, hs: seq<bytes>, i: nat)
    requires p.Good() && Sized(p, hs)
    ensures Power(p.arity, i) > 0
    ensures |LevelAt(p, hs, i)| == Quotient(|hs|, Power(p.arity, i))
    ensures |Tail(p, LevelAt(p, hs, i))| == Rest(Quotient(|hs|, Power(p.arity, i)), p.arity)
  {
    hide Level, Quotient, Rest, Flat;
    var a := p.arity;
    PowerGrows(a, 0, i);
    if i > 0 {
      LevelAtSize(p, hs, i - 1);
      var below := LevelAt(p, hs, i - 1);
      LevelAppend(p, Filled(p, below), Quotient(|below|, a), []);
      QuotientTwice(|hs|, Power(a, i - 1), a);
      assert Power(a, i) == Power(a, i - 1) * a;
    } else {
      assert |hs| == |hs| * 1 + 0;
      DividesOnce(|hs|, 1, |hs|, 0);
    }
  }

  /** With `n` blocks added, layer `i` holds digit `i` of `n` in base A, as hashes. */
  lemma LayersAreDigits(p: Params, hs: seq<bytes>, layers: seq<Layer>, value: Option<bytes>, i: nat)
    requires Counts(p, hs, layers, value) && i < |layers|
    ensures Power(p.arity, i) > 0
    ensures |layers[i].context| == |hs| / Power(p.arity, i) % p.arity * p.size
    ensures layers[i].remaining == p.Block() - |layers[i].context|
  {
    assert Holds(p, hs, layers, i);
    LevelAtSize(p, hs, i);
    FlatLength(Tail(p, LevelAt(p, hs, i)), p.size);
  }

  lemma {:induction false} TreeLevelSize(p: Params, hs: seq<bytes>, i: nat, m: nat)
    requires p.Good() && Sized(p, hs) && |hs| > Power(p.arity, i) * m
    ensures |TreeLevel(p, hs, i)| > m
  {
    if i > 0 {
      assert Power(p.arity, i) * m == Power(p.arity, i - 1) * (p.arity * m);
      TreeLevelSize(p, hs, i - 1, p.arity * m);
      LevelSize(p, TreeLevel(p, hs, i - 1), m);
    }
  }

  /** While a level has two hashes or more, the root is the root of the level above. */
  lemma {:induction false} RootOfLevel(p: Params, hs: seq<bytes>, i: nat)
    requires p.Good() && Sized(p, hs)
    requires i > 0 ==> |hs| > Power(p.arity, i - 1)
    ensures Root(p, hs) == Root(p, TreeLevel(p, hs, i))
  {
    if i > 0 {
      if i > 1 {
        PowerGrows(p.arity, i - 2, i - 1);
      }
      RootOfLevel(p, hs, i - 1);
      TreeLevelSize(p, hs, i - 1, 1);
    }
  }

  /** With a full tree, every level is determined and nothing is left over below the top. */
  lemma {:induction false} FullTree(p: Params, hs: seq<bytes>, k: nat, i: nat)
    requires p.Good() && Sized(p, hs) && |hs| == Power(p.arity, k) && i <= k
    ensures LevelAt(p, hs, i) == TreeLevel(p, hs, i) && |LevelAt(p, hs, i)| == Power(p.arity, k - i)
  {
    hide Level, Quotient, Rest, Flat;
    if i > 0 {
      FullTree(p, hs, k, i - 1);
      var below := LevelAt(p, hs, i - 1);
      var q := Power(p.arity, k - i);
      assert |below| == p.arity * q == q * p.arity;
      DividesOnce(|below|, p.arity, q, 0);
      assert Filled(p, below) == below;
      LevelAppend(p, below, q, []);
    }
  }

  // ---- the hasher ----

  /** `context` holds the bytes fed to the hash so far. */
  datatype Layer = Layer(context: bytes, remaining: nat) {
    function AddData(data: bytes): Layer
      requires |data| <= remaining
    {
      Layer(context + data, remaining - |data|)
    }

    function Complete(p: Params): bytes {
      p.hash(context + Zeros(remaining))
    }
  }

  function NewLayer(p: Params): Layer {
    Layer([], p.Block())
  }

  /** A layer that holds the hashes `hs`. */
  function LayerOf(p: Params, hs: seq<bytes>): Layer
    requires p.Good() && Sized(p, hs) && |Flat(hs)| <= p.Block()
  {
    Layer(Flat(hs), p.Block() - |Flat(hs)|)
  }

  lemma LayerAdd(p: Params, hs: seq<bytes>, h: bytes)
    requires p.Good() && Sized(p, hs) && |h| == p.size && |hs| < p.arity
    ensures |Flat(hs)| <= p.Block() && |Flat(hs + [h])| <= p.Block() && Sized(p, hs + [h])
    ensures |h| <= LayerOf(p, hs).remaining
    ensures LayerOf(p, hs).AddData(h) == LayerOf(p, hs + [h])
    ensures LayerOf(p, hs + [h]).remaining == 0 <==> |hs| + 1 == p.arity
  {
    FlatFits(p, hs);
    FlatFits(p, hs + [h]);
    FlatAppend(hs, [h]);
    assert Flat([h]) == h by {
      assert h + [] == h;
    }
    if |hs| + 1 < p.arity {
      MulMonotone(|hs| + 1, p.arity, p.size);
    }
  }

  lemma LayerComplete(p: Params, hs: seq<bytes>)
    requires p.Good() && Sized(p, hs) && |hs| <= p.arity
    ensures |Flat(hs)| <= p.Block() && LayerOf(p, hs).Complete(p) == BlockHash(p, Flat(hs))
    ensures LayerOf(p, hs).remaining == p.Block() <==> hs == []
    ensures LayerOf(p, []) == NewLayer(p)
  {
    FlatFits(p, hs);
    if hs != [] {
      MulMonotone(1, |hs|, p.size);
    }
  }

  /** Layer `i` holds what is left over on level `i`. */
  ghost predicate Holds(p: Params, hs: seq<bytes>, layers: seq<Layer>, i: nat)
    requires p.Good() && Sized(p, hs) && i < |layers|
  {
    var t := Tail(p, LevelAt(p, hs, i));
    |Flat(t)| <= p.Block() && layers[i] == LayerOf(p, t)
  }

  ghost predicate HoldsFrom(p: Params, hs: seq<bytes>, layers: seq<Layer>, from: nat)
    requires p.Good() && Sized(p, hs)
  {
    forall i :: from <= i < |layers| ==> Holds(p, hs, layers, i)
  }

  /** A counter in base A: with no pending value the layers are its digits, with a pending
      value it stands at a power of A. */
  ghost predicate Counts(p: Params, hs: seq<bytes>, layers: seq<Layer>, value: Option<bytes>) {
    && p.Good() && Sized(p, hs) && HoldsFrom(p, hs, layers, 0)
    && var a, k := p.arity, |layers|;
    match value
    case Some(v) => |hs| == Power(a, k) && LevelAt(p, hs, k) == [v]
    case None => if k == 0 then hs == [] else Power(a, k - 1) < |hs| < Power(a, k)
  }

  /** Between taking the pending value and storing a new one. */
  ghost predicate Ready(p: Params, hs: seq<bytes>, layers: seq<Layer>) {
    && p.Good() && Sized(p, hs) && HoldsFrom(p, hs, layers, 0)
    && var a, k := p.arity, |layers|;
    |hs| < Power(a, k) && (k > 0 ==> Power(a, k - 1) <= |hs|)
  }

  lemma OnlyOne(p: Params, v: bytes)
    requires p.Good() && |v| == p.size
    ensures Sized(p, [v]) && Sized(p, []) && Tail(p, [v]) == [v] && |v| <= p.Block()
    ensures |Flat([])| <= p.Block() && |v| <= NewLayer(p).remaining
    ensures NewLayer(p).AddData(v) == LayerOf(p, []).AddData(v)
  {
    DividesOnce(1, p.arity, 0, 1);
    MulMonotone(1, p.arity, p.size);
    LayerComplete(p, []);
  }

  lemma TakeValue(p: Params, hs: seq<bytes>, layers: seq<Layer>, v: bytes)
    requires Counts(p, hs, layers, Some(v))
    ensures |v| == p.size <= p.Block()
    ensures Ready(p, hs, layers + [NewLayer(p).AddData(v)])
  {
    hide p.Good, LevelAt, Tail, Flat, Power, Level, Quotient, Rest, NewLayer, LayerOf;
    var k := |layers|;
    var l := LevelAt(p, hs, k);
    assert |l[0]| == p.size;
    Shape(p);
    OnlyOne(p, v);
    var layers' := layers + [NewLayer(p).AddData(v)];
    LayerAdd(p, [], v);
    LayerComplete(p, []);
    assert [] + [v] == [v];
    PowerGrows(p.arity, k, k + 1);
    forall i | 0 <= i < |layers'|
      ensures Holds(p, hs, layers', i)
    {
      if i < k {
        assert Holds(p, hs, layers, i);
      }
    }
  }

  lemma NoValue(p: Params, hs: seq<bytes>, layers: seq<Layer>)
    requires Counts(p, hs, layers, None)
    ensures Ready(p, hs, layers)
  {
  }

  /** Levels above one that did not change do not change. */
  lemma {:induction false} SameAbove(p: Params, hs: seq<bytes>, hs': seq<bytes>, i: nat, j: nat)
    requires p.Good() && Sized(p, hs) && Sized(p, hs') && i <= j
    requires LevelAt(p, hs', i) == LevelAt(p, hs, i)
    ensures LevelAt(p, hs', j) == LevelAt(p, hs, j)
  {
    if i < j {
      SameAbove(p, hs, hs', i, j - 1);
    }
  }

  /** The first `i` layers were completed and start afresh. */
  function ResetTo(p: Params, start: seq<Layer>, i: nat): (layers: seq<Layer>)
    requires i <= |start|
    ensures |layers| == |start|
  {
    seq(|start|, j requires 0 <= j < |start| => if j < i then NewLayer(p) else start[j])
  }

  /** The carry has reached level `i`, where `v` is to be added. */
  ghost predicate Carrying(p: Params, hs: seq<bytes>, h: bytes, start: seq<Layer>, i: nat, v: bytes)
  {
    && Ready(p, hs, start) && |h| == |v| == p.size && Sized(p, hs + [h]) && i <= |start|
    && LevelAt(p, hs + [h], i) == LevelAt(p, hs, i) + [v]
    && forall j :: 0 <= j < i ==> Tail(p, LevelAt(p, hs + [h], j)) == []
  }

  /** One step of the carry: the layer stays partial and counting stops, or it is complete
      and its value is carried on. */
  lemma CarryStep(p: Params, hs: seq<bytes>, h: bytes, start: seq<Layer>, i: nat, v: bytes)
    requires Carrying(p, hs, h, start, i, v) && i < |start|
    ensures |v| <= start[i].remaining && ResetTo(p, start, i)[i] == start[i]
    ensures
      var l := start[i].AddData(v);
      && (l.remaining != 0 ==> Counts(p, hs + [h], ResetTo(p, start, i)[i := l], None))
      && (l.remaining == 0 ==>
            && Carrying(p, hs, h, start, i + 1, l.Complete(p))
            && ResetTo(p, start, i)[i := NewLayer(p)] == ResetTo(p, start, i + 1))
  {
    hide p.Good, LevelAt, Tail, LayerOf, Flat, Power, Level, Quotient, Rest, BlockHash, Next;
    assert Holds(p, hs, start, i);
    var t := Tail(p, LevelAt(p, hs, i));
    TailShort(p, LevelAt(p, hs, i));
    LayerAdd(p, t, v);
    if |t| + 1 < p.arity {
      Stops(p, hs, h, start, i, v);
    } else {
      MovesUp(p, hs, h, i, v);
      LayerComplete(p, t + [v]);
    }
  }

  lemma TailShort(p: Params, hs: seq<bytes>)
    requires p.Good() && Sized(p, hs)
    ensures |Tail(p, hs)| + 1 <= p.arity
  {
    Divides(|hs|, p.arity);
  }

  /** Layer `i` takes the hash that came up and stays partial. */
  lemma Stops(p: Params, hs: seq<bytes>, h: bytes, start: seq<Layer>, i: nat, v: bytes)
    requires Carrying(p, hs, h, start, i, v) && i < |start|
    requires |Tail(p, LevelAt(p, hs, i))| + 1 < p.arity
    ensures
      var t := Tail(p, LevelAt(p, hs, i));
      && |Flat(t + [v])| <= p.Block() && Sized(p, t + [v])
      && Counts(p, hs + [h], ResetTo(p, start, i)[i := LayerOf(p, t + [v])], None)
  {
    hide p.Good, LevelAt, Tail, LayerOf, Flat, Power, Level, Quotient, Rest, BlockHash, Next;
    var hs', k, t := hs + [h], |start|, Tail(p, LevelAt(p, hs, i));
    OneMore(p, LevelAt(p, hs, i), v);
    LayerAdd(p, t, v);
    NextLevel(p, hs, i);
    NextLevel(p, hs', i);
    var layers := ResetTo(p, start, i)[i := LayerOf(p, t + [v])];
    forall j | 0 <= j < k
      ensures Holds(p, hs', layers, j)
    {
      if j < i {
        LayerComplete(p, []);
      } else if j > i {
        SameAbove(p, hs, hs', i + 1, j);
        assert Holds(p, hs, start, j);
      }
    }
    SameAbove(p, hs, hs', i + 1, k);
    LevelAtSize(p, hs, k);
    LevelAtSize(p, hs', k);
    NotAtPower(|hs|, Power(p.arity, k));
  }

  lemma NextLevel(p: Params, hs: seq<bytes>, i: nat)
    requires p.Good() && Sized(p, hs)
    ensures LevelAt(p, hs, i + 1) == Next(p, LevelAt(p, hs, i))
  {
  }

  lemma NotAtPower(n: nat, d: nat)
    requires n < d && Quotient(n + 1, d) == Quotient(n, d)
    ensures n + 1 < d
  {
    hide Quotient, Rest;
    DividesOnce(n, d, 0, n);
    if n + 1 == d {
      DividesOnce(n + 1, d, 1, 0);
    }
  }

  lemma AtPower(n: nat, d: nat)
    requires n < d && Quotient(n + 1, d) == Quotient(n, d) + 1
    ensures n + 1 == d && Quotient(n, d) == 0
  {
    hide Quotient, Rest;
    DividesOnce(n, d, 0, n);
    if n + 1 < d {
      DividesOnce(n + 1, d, 0, n + 1);
    }
  }

  /** A layer that fills up sends one hash to the level above. */
  lemma MovesUp(p: Params, hs: seq<bytes>, h: bytes, i: nat, v: bytes)
    requires p.Good() && Sized(p, hs) && |h| == |v| == p.size && Sized(p, hs + [h])
    requires LevelAt(p, hs + [h], i) == LevelAt(p, hs, i) + [v]
    requires |Tail(p, LevelAt(p, hs, i))| + 1 == p.arity
    ensures |Flat(Tail(p, LevelAt(p, hs, i)) + [v])| <= p.Block()
    ensures Tail(p, LevelAt(p, hs + [h], i)) == []
    ensures
      var up := BlockHash(p, Flat(Tail(p, LevelAt(p, hs, i)) + [v]));
      |up| == p.size && LevelAt(p, hs + [h], i + 1) == LevelAt(p, hs, i + 1) + [up]
  {
    OneMore(p, LevelAt(p, hs, i), v);
  }

  /** Every layer was filled: the counter stands at the next power. */
  lemma Overflows(p: Params, hs: seq<bytes>, h: bytes, start: seq<Layer>, v: bytes)
    requires Carrying(p, hs, h, start, |start|, v)
    ensures Counts(p, hs + [h], ResetTo(p, start, |start|), Some(v))
  {
    hide p.Good, Tail, Flat, Power, Level, LevelAt, Quotient, Rest;
    var hs', a, k := hs + [h], p.arity, |start|;
    LevelAtSize(p, hs, k);
    LevelAtSize(p, hs', k);
    AtPower(|hs|, Power(a, k));
    LayerComplete(p, []);
    assert |LevelAt(p, hs, k)| == 0;
    assert [] + [v] == [v];
  }

  lemma StartCarry(p: Params, hs: seq<bytes>, start: seq<Layer>, data: bytes)
    requires Ready(p, hs, start) && |data| <= p.Block()
    ensures Carrying(p, hs, BlockHash(p, data), start, 0, BlockHash(p, data))
    ensures NewLayer(p).AddData(data).Complete(p) == BlockHash(p, data)
    ensures ResetTo(p, start, 0) == start
  {
    assert [] + data == data;
  }

  lemma CountsGood(p: Params, hs: seq<bytes>, layers: seq<Layer>, value: Option<bytes>)
    requires Counts(p, hs, layers, value)
    ensures p.Good() && Sized(p, hs)
  {
  }

  // ---- closing ----

  function Pending(p: Params, v: bytes): (s: seq<bytes>) {
    if v == p.Zero() then [] else [v]
  }

  /** Below level `i` everything is closed; what is pending is `v`. */
  ghost predicate Closing(p: Params, hs: seq<bytes>, layers: seq<Layer>, start: seq<Layer>, i: nat, v: bytes)
  {
    && p.Good() && Sized(p, hs) && HoldsFrom(p, hs, start, 0) && |v| == p.size
    && |layers| == |start| && i <= |layers| && layers[i..] == start[i..]
    && Sized(p, LevelAt(p, hs, i) + Pending(p, v))
    && TreeLevel(p, hs, i) == LevelAt(p, hs, i) + Pending(p, v)
  }

  lemma CloseStep(p: Params, hs: seq<bytes>, layers: seq<Layer>, start: seq<Layer>, i: nat, v: bytes)
    requires Closing(p, hs, layers, start, i, v) && i < |layers|
    ensures v != p.Zero() ==> |v| <= layers[i].remaining
    ensures
      var l := if v != p.Zero() then layers[i].AddData(v) else layers[i];
      if l.remaining != p.Block()
      then Closing(p, hs, layers[i := NewLayer(p)], start, i + 1, l.Complete(p))
      else Closing(p, hs, layers[i := l], start, i + 1, p.Zero())
  {
    hide p.Good, LevelAt, Tail, Flat, TreeLevel, Next;
    assert layers[i] == layers[i..][0] == start[i..][0] == start[i];
    assert Holds(p, hs, start, i);
    var t, more := Tail(p, LevelAt(p, hs, i)), Pending(p, v);
    TailShort(p, LevelAt(p, hs, i));
    if v != p.Zero() {
      LayerAdd(p, t, v);
    }
    assert t + [] == t;
    assert Sized(p, more);
    CloseLevel(p, LevelAt(p, hs, i), more);
    NextLevel(p, hs, i);
    NextTreeLevel(p, hs, i);
    LayerComplete(p, t + more);
    NotZero(p);
    assert LevelAt(p, hs, i + 1) + [] == LevelAt(p, hs, i + 1);
  }

  lemma NextTreeLevel(p: Params, hs: seq<bytes>, i: nat)
    requires p.Good() && Sized(p, hs)
    ensures TreeLevel(p, hs, i + 1) == Level(p, TreeLevel(p, hs, i))
  {
  }

  lemma NotZero(p: Params)
    requires p.Good()
    ensures forall b :: |p.hash(b)| == p.size && p.hash(b) != p.Zero()
  {
  }

  lemma StartClosing(p: Params, hs: seq<bytes>, layers: seq<Layer>)
    requires Counts(p, hs, layers, None)
    ensures Closing(p, hs, layers, layers, 0, p.Zero())
  {
    assert hs + [] == hs;
  }

  /** What is pending after the last layer is the root. */
  lemma Closed(p: Params, hs: seq<bytes>, layers: seq<Layer>, start: seq<Layer>, v: bytes)
    requires Counts(p, hs, start, None) && Closing(p, hs, layers, start, |start|, v)
    ensures v == Root(p, hs)
  {
    hide p.Good, HoldsFrom, Quotient, Rest, Level;
    var a, k := p.arity, |start|;
    if k > 0 {
      LevelAtSize(p, hs, k);
      DividesOnce(|hs|, Power(a, k), 0, |hs|);
      assert LevelAt(p, hs, k) == [];
      RootOfLevel(p, hs, k);
      TreeLevelNotEmpty(p, hs, k);
    }
  }

  lemma {:induction false} TreeLevelNotEmpty(p: Params, hs: seq<bytes>, i: nat)
    requires p.Good() && Sized(p, hs) && hs != []
    ensures TreeLevel(p, hs, i) != []
  {
    if i > 0 {
      TreeLevelNotEmpty(p, hs, i - 1);
      LevelSize(p, TreeLevel(p, hs, i - 1), 0);
    }
  }

  /** A pending value is the root already. */
  lemma ValueIsRoot(p: Params, hs: seq<bytes>, layers: seq<Layer>, v: bytes)
    requires Counts(p, hs, layers, Some(v))
    ensures v == Root(p, hs)
  {
    var k := |layers|;
    FullTree(p, hs, k, k);
    if k > 0 {
      PowerGrows(p.arity, k - 1, k);
    }
    RootOfLevel(p, hs, k);
  }

  // ---- the hasher as it runs ----

  class FsVerityHasher {
    const p: Params
    var layers: seq<Layer>
    var value: Option<bytes>
    var nBytes: nat
    /** The hashes of the blocks added so far. */
    ghost var hashes: seq<bytes>

    /** The state while blocks are added. */
    ghost predicate Counting()
      reads this
    {
      Counts(p, hashes, layers, value)
    }

    /** The state `digest` needs and leaves. */
    ghost predicate Valid()
      reads this
    {
      && p.Good() && Sized(p, hashes)
      && (Counting() || value == Some(Root(p, hashes)))
    }

    constructor (p: Params)
      requires p.Good()
      ensures this.p == p && Counting() && Valid() && hashes == [] && nBytes == 0
    {
      this.p := p;
      layers, value, nBytes, hashes := [], None, 0, [];
    }

    /** `add_block`: the hash of the block is carried into the layers like into a counter. */
    method AddBlock(data: bytes)
      requires Counting() && |data| <= p.Block()
      modifies this
      ensures Counting() && Valid()
      ensures hashes == old(hashes) + [BlockHash(p, data)] && nBytes == old(nBytes) + |data|
    {
      hide p.Good, Sized, Counts, Ready, Carrying, ResetTo, Root;
      ghost var hs := hashes;
      CountsGood(p, hs, layers, value);
      if value.Some? {
        TakeValue(p, hs, layers, value.value);
        layers := layers + [NewLayer(p).AddData(value.value)];
        value := None;
      } else {
        NoValue(p, hs, layers);
      }
      ghost var start := layers;
      StartCarry(p, hs, start, data);
      var v := NewLayer(p).AddData(data).Complete(p);
      nBytes := nBytes + |data|;
      ghost var h := v;
      hashes := hs + [h];
      var i := 0;
      while i < |layers|
        invariant 0 <= i <= |layers| == |start| && layers == ResetTo(p, start, i)
        invariant Carrying(p, hs, h, start, i, v)
        invariant value == None && hashes == hs + [h] && nBytes == old(nBytes) + |data|
      {
        CarryStep(p, hs, h, start, i, v);
        layers := layers[i := layers[i].AddData(v)];
        if layers[i].remaining != 0 {
          CountsGood(p, hashes, layers, value);
          return;
        }
        v := layers[i].Complete(p);
        layers := layers[i := NewLayer(p)];
        i := i + 1;
      }
      Overflows(p, hs, h, start, v);
      value := Some(v);
      CountsGood(p, hashes, layers, value);
    }

    /** `root_hash`: partial layers are closed from the bottom up. */
    method RootHash() returns (root: bytes)
      requires Valid()
      modifies this
      ensures Valid() && hashes == old(hashes) && nBytes == old(nBytes)
      ensures root == Root(p, hashes) && value == Some(root)
    {
      hide p.Good, Sized, Counts, Closing, Root;
      if value.Some? {
        if Counting() {
          ValueIsRoot(p, hashes, layers, value.value);
        }
        return value.value;
      }
      ghost var start, hs := layers, hashes;
      StartClosing(p, hs, layers);
      root := p.Zero();
      var i := 0;
      while i < |layers|
        invariant 0 <= i <= |layers| == |start| && Closing(p, hs, layers, start, i, root)
        invariant value == None && hashes == hs && nBytes == old(nBytes)
        invariant Counts(p, hs, start, None)
      {
        CloseStep(p, hs, layers, start, i, root);
        ghost var before := layers;
        if root != p.Zero() {
          layers := layers[i := layers[i].AddData(root)];
        }
        if layers[i].remaining != p.Block() {
          root := layers[i].Complete(p);
          layers := layers[i := NewLayer(p)];
          assert layers == before[i := NewLayer(p)];
        } else {
          root := p.Zero();
          assert layers == before[i := layers[i]];
        }
        i := i + 1;
      }
      Closed(p, hs, layers, start, root);
      value := Some(root);
    }

    /** `digest` hashes the descriptor; asking again gives the same answer. */
    method Digest() returns (d: bytes)
      requires Valid()
      modifies this
      ensures Valid() && hashes == old(hashes) && nBytes == old(nBytes)
      ensures d == TreeDigest(p, nBytes, hashes)
    {
      var root := RootHash();
      d := p.hash([1, p.algorithm, p.lgBlock, 0] + Zeros(4) + LE(nBytes, 8) + root
                  + Zeros(64 - p.size) + Zeros(32) + Zeros(144));
    }
  }

  lemma LeavesSplit(p: Params, data: bytes, start: nat)
    requires p.Good() && start < |data|
    ensures
      var end := Min(start + p.Block(), |data|);
      && start < end && end - start <= p.Block()
      && Leaves(p, data[start..])
         == [BlockHash(p, data[start..end])] + Leaves(p, data[end..])
  {
    hide p.Good, p.Block, BlockHash, Leaves;
    var end, rest := Min(start + p.Block(), |data|), data[start..];
    LeavesHead(p, rest, end - start);
    assert rest[..end - start] == data[start..end] && rest[end - start..] == data[end..];
    assert Leaves(p, rest) == [Leaves(p, rest)[0]] + Leaves(p, rest)[1..];
  }

  /** `FsVerityHasher::hash`: the incremental hasher computes the level-by-level digest. */
  method Hash(p: Params, buffer: bytes) returns (d: bytes)
    requires p.Good()
    ensures d == DigestOf(p, buffer)
  {
    hide p.Good, Leaves, BlockHash, TreeDigest, Counts, Sized, Root, p.Block;
    var hasher := new FsVerityHasher(p);
    var start := 0;
    assert buffer[0..] == buffer;
    assert [] + Leaves(p, buffer) == Leaves(p, buffer);
    while start < |buffer|
      invariant 0 <= start <= |buffer| && hasher.p == p && hasher.Counting() && hasher.Valid()
      invariant hasher.nBytes == start
      invariant hasher.hashes + Leaves(p, buffer[start..]) == Leaves(p, buffer)
    {
      LeavesSplit(p, buffer, start);
      var end := Min(start + p.Block(), |buffer|);
      ghost var rest := Leaves(p, buffer[end..]);
      ghost var h := BlockHash(p, buffer[start..end]);
      assert hasher.hashes + ([h] + rest) == hasher.hashes + [h] + rest;
      hasher.AddBlock(buffer[start..end]);
      start := end;
    }
    NoLeaves(p);
    assert buffer[start..] == [];
    assert hasher.hashes + [] == hasher.hashes;
    d := hasher.Digest();
  }

  lemma NoLeaves(p: Params)
    requires p.Good()
    ensures Leaves(p, []) == []
  {
  }

  // ---- what equal digests mean ----

  /** Two different inputs with the same hash. */
  ghost predicate Collision(p: Params, x: bytes, y: bytes) {
    x != y && p.hash(x) == p.hash(y)
  }

  /** `x` is one of the blocks that are hashed to get from a level to the one above. */
  ghost predicate InLevel(p: Params, hs: seq<bytes>, x: bytes)
    requires p.Good() && Sized(p, hs)
    decreases |hs|
  {
    && hs != []
    && var n := Min(p.arity, |hs|);
    FlatFits(p, hs[..n]);
    x == Padded(p, Flat(hs[..n])) || InLevel(p, hs[n..], x)
  }

  /** `x` is one of the blocks that are hashed on the way from the leaves to the root. */
  ghost predicate InRoot(p: Params, hs: seq<bytes>, x: bytes)
    requires p.Good() && Sized(p, hs)
    decreases |hs|
  {
    && |hs| >= 2
    && (InLevel(p, hs, x)
        || (LevelSize(p, hs, 0); InRoot(p, Level(p, hs), x)))
  }

  /** `x` is one of the blocks of the data. */
  ghost predicate InLeaves(p: Params, data: bytes, x: bytes)
    requires p.Good()
    decreases |data|
  {
    && data != []
    && var n := Min(p.Block(), |data|);
    x == Padded(p, data[..n]) || InLeaves(p, data[n..], x)
  }

  /** `x` is one of the inputs of the hash function when the digest of the data is computed. */
  ghost predicate Hashed(p: Params, data: bytes, x: bytes)
    requires p.Good()
  {
    var hs := Leaves(p, data);
    InLeaves(p, data, x) || InRoot(p, hs, x) || x == Descriptor(p, |data|, Root(p, hs))
  }

  lemma PaddedDiffer(p: Params, a: bytes, b: bytes)
    requires |a| == |b| <= p.Block() && a != b
    ensures Padded(p, a) != Padded(p, b)
  {
    hide p.Block;
    assert Padded(p, a)[..|a|] == a && Padded(p, b)[..|b|] == b;
  }

  lemma {:induction false} FlatDiffers(p: Params, a: seq<bytes>, b: seq<bytes>)
    requires Sized(p, a) && Sized(p, b) && |a| == |b| && a != b
    ensures Flat(a) != Flat(b)
  {
    if a[0] != b[0] {
      assert Flat(a)[..p.size] == a[0] && Flat(b)[..p.size] == b[0];
    } else {
      assert a == [a[0]] + a[1..] && b == [b[0]] + b[1..];
      FlatDiffers(p, a[1..], b[1..]);
      assert Flat(a)[p.size..] == Flat(a[1..]) && Flat(b)[p.size..] == Flat(b[1..]);
    }
  }

  /** Different levels of one length with the same level above: a block of the one collides
      with a block of the other. */
  lemma {:induction false} LevelCollision(p: Params, a: seq<bytes>, b: seq<bytes>) returns (x: bytes, y: bytes)
    requires p.Good() && Sized(p, a) && Sized(p, b) && |a| == |b| && a != b
    requires Level(p, a) == Level(p, b)
    ensures Collision(p, x, y) && InLevel(p, a, x) && InLevel(p, b, y)
    decreases |a|
  {
    hide p.Good, Flat, p.Block, Padded;
    Shape(p);
    var n := Min(p.arity, |a|);
    FlatFits(p, a[..n]);
    FlatFits(p, b[..n]);
    LevelHead(p, a, n);
    LevelHead(p, b, n);
    if a[..n] != b[..n] {
      FlatDiffers(p, a[..n], b[..n]);
      PaddedDiffer(p, Flat(a[..n]), Flat(b[..n]));
      x, y := Padded(p, Flat(a[..n])), Padded(p, Flat(b[..n]));
    } else {
      assert a == a[..n] + a[n..] && b == b[..n] + b[n..];
      x, y := LevelCollision(p, a[n..], b[n..]);
    }
  }

  lemma LevelHead(p: Params, hs: seq<bytes>, n: nat)
    requires p.Good() && Sized(p, hs) && hs != [] && n == Min(p.arity, |hs|)
    ensures |Flat(hs[..n])| <= p.Block()
    ensures Level(p, hs) != [] && Level(p, hs)[0] == BlockHash(p, Flat(hs[..n]))
    ensures Level(p, hs)[1..] == Level(p, hs[n..])
  {
    FlatFits(p, hs[..n]);
  }

  /** Different leaves, as many, with the same root: a block of the one tree collides with a
      block of the other. */
  lemma {:induction false} RootCollision(p: Params, a: seq<bytes>, b: seq<bytes>) returns (x: bytes, y: bytes)
    requires p.Good() && Sized(p, a) && Sized(p, b) && |a| == |b| && a != b
    requires Root(p, a) == Root(p, b)
    ensures Collision(p, x, y) && InRoot(p, a, x) && InRoot(p, b, y)
    decreases |a|
  {
    hide p.Good, Level, InLevel;
    if |a| == 1 {
      assert false;
    } else {
      LevelSize(p, a, 0);
      LevelSize(p, b, 0);
      SameLevelSize(p, a, b);
      if Level(p, a) == Level(p, b) {
        x, y := LevelCollision(p, a, b);
      } else {
        x, y := RootCollision(p, Level(p, a), Level(p, b));
      }
    }
  }

  lemma {:induction false} SameLevelSize(p: Params, a: seq<bytes>, b: seq<bytes>)
    requires p.Good() && Sized(p, a) && Sized(p, b) && |a| == |b|
    ensures |Level(p, a)| == |Level(p, b)|
    decreases |a|
  {
    hide Flat, BlockHash;
    if a != [] {
      var n := Min(p.arity, |a|);
      SameLevelSize(p, a[n..], b[n..]);
    }
  }

  /** Different data of one length with the same leaves: a block of the one collides with a
      block of the other. */
  lemma {:induction false} LeavesCollision(p: Params, a: bytes, b: bytes) returns (x: bytes, y: bytes)
    requires p.Good() && |a| == |b| && a != b && Leaves(p, a) == Leaves(p, b)
    ensures Collision(p, x, y) && InLeaves(p, a, x) && InLeaves(p, b, y)
    decreases |a|
  {
    hide p.Good, p.Block, Padded;
    var n := Min(p.Block(), |a|);
    LeavesHead(p, a, n);
    LeavesHead(p, b, n);
    if a[..n] != b[..n] {
      PaddedDiffer(p, a[..n], b[..n]);
      x, y := Padded(p, a[..n]), Padded(p, b[..n]);
    } else {
      assert a == a[..n] + a[n..] && b == b[..n] + b[n..];
      x, y := LeavesCollision(p, a[n..], b[n..]);
    }
  }

  lemma LeavesHead(p: Params, data: bytes, n: nat)
    requires p.Good() && data != [] && n == Min(p.Block(), |data|)
    ensures 0 < n && Leaves(p, data) != [] && Leaves(p, data)[0] == BlockHash(p, data[..n])
    ensures Leaves(p, data)[1..] == Leaves(p, data[n..])
  {
  }

  lemma {:induction false} LeavesCount(p: Params, a: bytes, b: bytes)
    requires p.Good() && |a| == |b|
    ensures |Leaves(p, a)| == |Leaves(p, b)|
    decreases |a|
  {
    hide BlockHash;
    if a != [] {
      var n := Min(p.Block(), |a|);
      LeavesCount(p, a[n..], b[n..]);
    }
  }

  /** The descriptor determines the length and the root. */
  lemma DescriptorBinds(p: Params, n: nat, r: bytes, m: nat, s: bytes)
    requires p.Good() && |r| == |s| == p.size
    requires n < 0x1_0000_0000_0000_0000 && m < 0x1_0000_0000_0000_0000
    requires Descriptor(p, n, r) == Descriptor(p, m, s)
    ensures n == m && r == s
  {
    DescriptorFields(p, n, r);
    DescriptorFields(p, m, s);
    Pow256Values();
    LERoundTrip(n, 8);
    LERoundTrip(m, 8);
  }

  lemma DescriptorFields(p: Params, n: nat, r: bytes)
    requires p.size <= 64 && |r| == p.size
    ensures |Descriptor(p, n, r)| == 256
    ensures Descriptor(p, n, r)[8..16] == LE(n, 8)
    ensures Descriptor(p, n, r)[16..16 + p.size] == r
  {
    hide LE;
    var head := [1, p.algorithm, p.lgBlock, 0] + Zeros(4);
    var rest := Zeros(64 - p.size) + Zeros(32) + Zeros(144);
    assert Descriptor(p, n, r) == head + (LE(n, 8) + (r + rest));
  }

  /** The digest binds the data: when two different byte strings have the same digest, an
      input that is hashed for the one and an input that is hashed for the other are different
      and have the same hash. */
  lemma DigestBinds(p: Params, a: bytes, b: bytes) returns (x: bytes, y: bytes)
    requires p.Good() && a != b && DigestOf(p, a) == DigestOf(p, b)
    requires |a| < 0x1_0000_0000_0000_0000 && |b| < 0x1_0000_0000_0000_0000
    ensures Collision(p, x, y) && Hashed(p, a, x) && Hashed(p, b, y)
  {
    hide p.Good, Leaves, Root, Descriptor, p.Block, InLeaves, InRoot;
    Shape(p);
    var la, lb := Leaves(p, a), Leaves(p, b);
    x, y := Descriptor(p, |a|, Root(p, la)), Descriptor(p, |b|, Root(p, lb));
    if x == y {
      DescriptorBinds(p, |a|, Root(p, la), |b|, Root(p, lb));
      if la == lb {
        x, y := LeavesCollision(p, a, b);
      } else {
        LeavesCount(p, a, b);
        x, y := RootCollision(p, la, lb);
      }
    }
  }

  /** As long as nothing that is hashed for the one collides with anything that is hashed for the
      other, two byte strings have the same digest exactly when they are equal. */
  lemma DigestsEqualIff(p: Params, a: bytes, b: bytes)
    requires p.Good()
    requires |a| < 0x1_0000_0000_0000_0000 && |b| < 0x1_0000_0000_0000_0000
    requires forall x, y :: Hashed(p, a, x) && Hashed(p, b, y) ==> !Collision(p, x, y)
    ensures DigestOf(p, a) == DigestOf(p, b) <==> a == b
  {
    hide DigestOf, Hashed, Collision, p.Good;
    if a != b && DigestOf(p, a) == DigestOf(p, b) {
      var x, y := DigestBinds(p, a, b);
    }
  }

  // ---- what is hashed ----

  /** The hashes of a level are those of the blocks below it. */
  lemma {:induction false} LevelIsHashed(p: Params, hs: seq<bytes>, h: bytes)
    requires p.Good() && Sized(p, hs)
    ensures h in Level(p, hs) <==> exists x :: InLevel(p, hs, x) && p.hash(x) == h
    decreases |hs|
  {
    hide p.Good, Flat, p.Block, Padded;
    Shape(p);
    if hs != [] {
      var n := Min(p.arity, |hs|);
      LevelHead(p, hs, n);
      var x := Padded(p, Flat(hs[..n]));
      assert InLevel(p, hs, x) && p.hash(x) == Level(p, hs)[0];
      LevelIsHashed(p, hs[n..], h);
      assert Level(p, hs) == [Level(p, hs)[0]] + Level(p, hs[n..]);
      if y :| InLevel(p, hs[n..], y) && p.hash(y) == h {
        assert InLevel(p, hs, y);
      }
    }
  }

  /** The leaves are the hashes of the blocks of the data. */
  lemma {:induction false} LeavesAreHashed(p: Params, data: bytes, h: bytes)
    requires p.Good()
    ensures h in Leaves(p, data) <==> exists x :: InLeaves(p, data, x) && p.hash(x) == h
    decreases |data|
  {
    hide p.Good, p.Block, Padded;
    if data != [] {
      var n := Min(p.Block(), |data|);
      LeavesHead(p, data, n);
      var x := Padded(p, data[..n]);
      assert InLeaves(p, data, x) && p.hash(x) == Leaves(p, data)[0];
      LeavesAreHashed(p, data[n..], h);
      assert Leaves(p, data) == [Leaves(p, data)[0]] + Leaves(p, data[n..]);
      if y :| InLeaves(p, data[n..], y) && p.hash(y) == h {
        assert InLeaves(p, data, y);
      }
    }
  }
}
