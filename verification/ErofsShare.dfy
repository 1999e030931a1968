/** Sharing repeated attributes (erofs/writer.rs, `share_xattrs`). */
module ErofsShare {
  import opened Bytes
  import opened ErofsFormat
  import opened ErofsImage
  import opened ErofsRoundTrip

  /** The derived order of `XAttr`: prefix, then suffix, then value. */
  predicate XLess(a: XAttr, b: XAttr) {
    || a.prefix < b.prefix
    || (a.prefix == b.prefix && Less(a.suffix, b.suffix))
    || (a.prefix == b.prefix && a.suffix == b.suffix && Less(a.value, b.value))
  }

  lemma XLessOrder(a: XAttr, b: XAttr, c: XAttr)
    ensures !XLess(a, a)
    ensures XLess(a, b) && XLess(b, c) ==> XLess(a, c)
    ensures a == b || XLess(a, b) || XLess(b, a)
  {
    LessIrreflexive(a.suffix);
    LessIrreflexive(a.value);
    LessTotal(a.suffix, b.suffix);
    LessTotal(a.value, b.value);
    if Less(a.suffix, b.suffix) && Less(b.suffix, c.suffix) {
      LessTransitive(a.suffix, b.suffix, c.suffix);
    }
    if Less(a.value, b.value) && Less(b.value, c.value) {
      LessTransitive(a.value, b.value, c.value);
    }
  }

  // ---- counting: a BTreeMap from attribute to number of uses ----

  datatype Count = Count(attr: XAttr, uses: nat)

  ghost predicate SortedCounts(m: seq<Count>) {
    forall i, j :: 0 <= i < j < |m| ==> XLess(m[i].attr, m[j].attr)
  }

  /** One more use of `x`. */
  function Bump(m: seq<Count>, x: XAttr): seq<Count> {
    if m == [] then [Count(x, 1)]
    else if m[0].attr == x then [Count(x, m[0].uses + 1)] + m[1..]
    else if XLess(m[0].attr, x) then [m[0]] + Bump(m[1..], x)
    else [Count(x, 1)] + m
  }

  function BumpAll(m: seq<Count>, xs: seq<XAttr>): seq<Count>
    decreases |xs|
  {
    if xs == [] then m else Bump(BumpAll(m, xs[..|xs| - 1]), xs[|xs| - 1])
  }

  function CountAll(inodes: seq<Inode>): seq<Count> {
    if inodes == [] then []
    else BumpAll(CountAll(inodes[..|inodes| - 1]), inodes[|inodes| - 1].xattrs.local)
  }

  /** The uses of each attribute across all inodes. */
  ghost function Uses(inodes: seq<Inode>): multiset<XAttr> {
    if inodes == [] then multiset{}
    else Uses(inodes[..|inodes| - 1]) + multiset(inodes[|inodes| - 1].xattrs.local)
  }

  ghost predicate Counts(m: seq<Count>, uses: multiset<XAttr>) {
    && SortedCounts(m)
    && (forall i :: 0 <= i < |m| ==> m[i].uses == uses[m[i].attr] > 0)
    && forall x :: x in uses ==> exists i :: 0 <= i < |m| && m[i].attr == x
  }

  lemma {:induction false} BumpFront(m: seq<Count>, x: XAttr)
    requires SortedCounts(m)
    ensures Bump(m, x) != [] && (Bump(m, x)[0].attr == x || (m != [] && Bump(m, x)[0].attr == m[0].attr))
    ensures SortedCounts(Bump(m, x))
    ensures forall c :: c in Bump(m, x) <==>
      (c in m && c.attr != x)
      || c == Count(x, 1 + (if exists d :: d in m && d.attr == x then UsesIn(m, x) else 0))
  {
    if m == [] {
    } else if m[0].attr == x {
      assert m == [m[0]] + m[1..];
      SortedHead(m);
      XLessOrder(x, x, x);
      assert forall d :: d in m[1..] ==> d.attr != x;
    } else {
      SortedHead(m);
      assert m == [m[0]] + m[1..];
      XLessOrder(m[0].attr, x, x);
      if XLess(m[0].attr, x) {
        BumpFront(m[1..], x);
        var r := Bump(m[1..], x);
        forall j | 0 <= j < |r|
          ensures XLess(m[0].attr, r[j].attr)
        {
          assert r[j] in r;
        }
      } else {
        forall d | d in m
          ensures XLess(x, d.attr) && d.attr != x
        {
          if d != m[0] {
            assert d in m[1..];
            XLessOrder(x, m[0].attr, d.attr);
          }
          XLessOrder(x, d.attr, x);
        }
      }
    }
  }

  function UsesIn(m: seq<Count>, x: XAttr): nat {
    if m == [] then 0 else if m[0].attr == x then m[0].uses else UsesIn(m[1..], x)
  }

  lemma SortedHead(m: seq<Count>)
    requires SortedCounts(m) && m != []
    ensures SortedCounts(m[1..])
    ensures forall d :: d in m[1..] ==> XLess(m[0].attr, d.attr)
  {
  }

  lemma {:induction false} UsesInAt(m: seq<Count>, x: XAttr, i: nat)
    requires SortedCounts(m) && i < |m| && m[i].attr == x
    ensures UsesIn(m, x) == m[i].uses
  {
    if i > 0 {
      SortedHead(m);
      XLessOrder(x, x, x);
      assert m[1..][i - 1] == m[i];
      UsesInAt(m[1..], x, i - 1);
    }
  }

  lemma BumpCounts(m: seq<Count>, uses: multiset<XAttr>, x: XAttr)
    requires Counts(m, uses)
    ensures Counts(Bump(m, x), uses + multiset{x})
  {
    hide Bump, UsesIn, SortedCounts;
    var b, more := Bump(m, x), uses + multiset{x};
    BumpFront(m, x);
    var n := if exists d :: d in m && d.attr == x then UsesIn(m, x) else 0;
    assert n == uses[x] by {
      UsesOf(m, uses, x);
    }
    assert forall y :: more[y] == uses[y] + (if y == x then 1 else 0);
    forall i | 0 <= i < |b|
      ensures b[i].uses == more[b[i].attr] > 0
    {
      assert b[i] in b;
      if b[i] != Count(x, 1 + n) {
        var k :| 0 <= k < |m| && m[k] == b[i];
      }
    }
    forall y | y in more
      ensures exists i :: 0 <= i < |b| && b[i].attr == y
    {
      if y == x {
        assert Count(x, 1 + n) in b;
      } else {
        var i :| 0 <= i < |m| && m[i].attr == y;
        assert m[i] in b;
      }
    }
  }

  lemma UsesOf(m: seq<Count>, uses: multiset<XAttr>, x: XAttr)
    requires Counts(m, uses)
    ensures (if exists d :: d in m && d.attr == x then UsesIn(m, x) else 0) == uses[x]
  {
    hide UsesIn;
    if x in uses {
      var i :| 0 <= i < |m| && m[i].attr == x;
      assert m[i] in m;
      UsesInAt(m, x, i);
    } else {
      assert forall i :: 0 <= i < |m| ==> m[i].attr != x;
    }
  }

  lemma {:induction false} BumpAllCounts(m: seq<Count>, uses: multiset<XAttr>, xs: seq<XAttr>)
    requires Counts(m, uses)
    ensures Counts(BumpAll(m, xs), uses + multiset(xs))
    decreases |xs|
  {
    hide Counts, Bump;
    if xs == [] {
      assert uses + multiset(xs) == uses;
    } else {
      var n := |xs| - 1;
      BumpAllCounts(m, uses, xs[..n]);
      BumpCounts(BumpAll(m, xs[..n]), uses + multiset(xs[..n]), xs[n]);
      OneMoreUse(uses, xs);
    }
  }

  lemma OneMoreUse(uses: multiset<XAttr>, xs: seq<XAttr>)
    requires xs != []
    ensures
      var n := |xs| - 1;
      uses + multiset(xs) == uses + multiset(xs[..n]) + multiset{xs[n]}
  {
    var n := |xs| - 1;
    assert xs == xs[..n] + [xs[n]];
    assert multiset(xs) == multiset(xs[..n]) + multiset{xs[n]};
  }

  /** The map counts the uses. */
  lemma {:induction false} CountAllCounts(inodes: seq<Inode>)
    ensures Counts(CountAll(inodes), Uses(inodes))
  {
    if inodes != [] {
      var n := |inodes| - 1;
      CountAllCounts(inodes[..n]);
      BumpAllCounts(CountAll(inodes[..n]), Uses(inodes[..n]), inodes[n].xattrs.local);
    }
  }

  // ---- the shared table ----

  function Retained(m: seq<Count>): seq<XAttr> {
    if m == [] then []
    else (if m[0].uses > 1 then [m[0].attr] else []) + Retained(m[1..])
  }

  /** `xattrs.into_keys()` after keeping only attributes used more than once. */
  function SharedTable(inodes: seq<Inode>): seq<XAttr> {
    Retained(CountAll(inodes))
  }

  ghost predicate SortedTable(t: seq<XAttr>) {
    forall i, j :: 0 <= i < j < |t| ==> XLess(t[i], t[j])
  }

  lemma {:induction false} RetainedIs(m: seq<Count>)
    requires SortedCounts(m)
    ensures forall x :: x in Retained(m) <==> exists i :: 0 <= i < |m| && m[i].attr == x && m[i].uses > 1
    ensures SortedTable(Retained(m))
  {
    if m != [] {
      SortedHead(m);
      RetainedIs(m[1..]);
      var r := Retained(m[1..]);
      forall x | x in r
        ensures XLess(m[0].attr, x)
        ensures exists i :: 0 <= i < |m| && m[i].attr == x && m[i].uses > 1
      {
        var i :| 0 <= i < |m[1..]| && m[1..][i].attr == x && m[1..][i].uses > 1;
        assert m[1..][i] in m[1..] && m[1 + i].attr == x;
      }
      forall i | 0 <= i < |m| && m[i].uses > 1
        ensures m[i].attr in Retained(m)
      {
        if i > 0 {
          assert m[1..][i - 1].attr == m[i].attr;
        }
      }
    }
  }

  /** An attribute is in the table exactly when it is used more than once, and only once. */
  lemma SharedTableExact(inodes: seq<Inode>)
    ensures forall x :: x in SharedTable(inodes) <==> Uses(inodes)[x] > 1
    ensures SortedTable(SharedTable(inodes))
    ensures forall i, j :: 0 <= i < j < |SharedTable(inodes)| ==>
      SharedTable(inodes)[i] != SharedTable(inodes)[j]
  {
    var m := CountAll(inodes);
    CountAllCounts(inodes);
    RetainedIs(m);
    forall x | Uses(inodes)[x] > 1
      ensures x in SharedTable(inodes)
    {
      assert x in Uses(inodes);
      var i :| 0 <= i < |m| && m[i].attr == x;
    }
    forall i, j | 0 <= i < j < |SharedTable(inodes)|
      ensures SharedTable(inodes)[i] != SharedTable(inodes)[j]
    {
      XLessOrder(SharedTable(inodes)[i], SharedTable(inodes)[i], SharedTable(inodes)[i]);
    }
  }

  // ---- converting each inode ----

  function IndexOf(t: seq<XAttr>, x: XAttr): (r: Option<nat>)
    ensures r.Some? ==> r.value < |t| && t[r.value] == x
    ensures r.None? ==> x !in t
  {
    if t == [] then None
    else if t[0] == x then Some(0)
    else
      match IndexOf(t[1..], x)
      case None => None
      case Some(i) => Some(i + 1)
  }

  function SharedPart(xs: seq<XAttr>, t: seq<XAttr>): (ids: seq<nat>)
    ensures forall i :: 0 <= i < |ids| ==> ids[i] < |t|
    ensures |ids| <= |xs|
    decreases |xs|
  {
    if xs == [] then []
    else
      var before := SharedPart(xs[..|xs| - 1], t);
      match IndexOf(t, xs[|xs| - 1])
      case None => before
      case Some(i) => before + [i]
  }

  function LocalPart(xs: seq<XAttr>, t: seq<XAttr>): (r: seq<XAttr>)
    ensures |r| <= |xs| && forall i :: 0 <= i < |r| ==> r[i] in xs
    decreases |xs|
  {
    if xs == [] then []
    else
      LocalPart(xs[..|xs| - 1], t)
      + (if IndexOf(t, xs[|xs| - 1]).None? then [xs[|xs| - 1]] else [])
  }

  function SharedInode(inode: Inode, t: seq<XAttr>): Inode {
    inode.(xattrs := InodeXAttrs(inode.xattrs.shared + SharedPart(inode.xattrs.local, t),
                                 LocalPart(inode.xattrs.local, t), inode.xattrs.filter))
  }

  function SharedInodes(inodes: seq<Inode>, t: seq<XAttr>): (r: seq<Inode>)
    ensures |r| == |inodes|
    ensures forall k :: 0 <= k < |inodes| ==> r[k] == SharedInode(inodes[k], t)
  {
    seq(|inodes|, k requires 0 <= k < |inodes| => SharedInode(inodes[k], t))
  }

  lemma {:induction false} PartsKeepAll(xs: seq<XAttr>, t: seq<XAttr>)
    ensures multiset(Pick(SharedPart(xs, t), t)) + multiset(LocalPart(xs, t)) == multiset(xs)
    ensures forall i :: 0 <= i < |LocalPart(xs, t)| ==> LocalPart(xs, t)[i] !in t
    decreases |xs|
  {
    if xs != [] {
      var n := |xs| - 1;
      PartsKeepAll(xs[..n], t);
      assert xs == xs[..n] + [xs[n]];
      var before, i := SharedPart(xs[..n], t), IndexOf(t, xs[n]);
      if i.Some? {
        assert Pick(SharedPart(xs, t), t) == Pick(before, t) + [xs[n]];
      }
    }
  }

  /** Sharing keeps the attributes of every inode: table entries looked up and local entries
      together are the same multiset as before, and nothing repeated stays local. */
  lemma SharingKeepsMeaning(inode: Inode, t: seq<XAttr>)
    requires inode.xattrs.shared == []
    ensures
      var x := SharedInode(inode, t).xattrs;
      && multiset(Resolved(x, t)) == multiset(inode.xattrs.local)
      && (forall i :: 0 <= i < |x.local| ==> x.local[i] !in t)
      && x.filter == inode.xattrs.filter
      && |x.shared| <= |inode.xattrs.local|
  {
    hide SharedPart, LocalPart, Pick;
    PartsKeepAll(inode.xattrs.local, t);
    var ids := SharedPart(inode.xattrs.local, t);
    assert inode.xattrs.shared + ids == ids;
    assert SharedInode(inode, t).xattrs.shared == ids;
  }

  /** The section never grows: a reference takes 4 bytes, an entry at least 4. */
  lemma {:induction false} SharingShrinks(xs: seq<XAttr>, t: seq<XAttr>)
    ensures 4 * |SharedPart(xs, t)| + LocalsSize(LocalPart(xs, t)) <= LocalsSize(xs)
    decreases |xs|
  {
    if xs != [] {
      var n := |xs| - 1;
      SharingShrinks(xs[..n], t);
      LocalsSizeSnoc(xs[..n], xs[n]);
      assert xs == xs[..n] + [xs[n]];
      LocalsSizeSnoc(LocalPart(xs[..n], t), xs[n]);
      if IndexOf(t, xs[n]).Some? {
        assert LocalPart(xs, t) == LocalPart(xs[..n], t);
      }
    }
  }

  lemma {:induction false} LocalsSizeSnoc(xs: seq<XAttr>, x: XAttr)
    ensures LocalsSize(xs + [x]) == LocalsSize(xs) + XAttrSize(x)
  {
    if xs == [] {
      assert (xs + [x])[1..] == [];
    } else {
      assert (xs + [x])[1..] == xs[1..] + [x];
      LocalsSizeSnoc(xs[1..], x);
    }
  }

  // ---- the loops ----

  method CountUses(inodes: seq<Inode>) returns (m: seq<Count>)
    ensures m == CountAll(inodes)
  {
    m := [];
    var k := 0;
    while k < |inodes|
      invariant 0 <= k <= |inodes| && m == CountAll(inodes[..k])
    {
      var xs := inodes[k].xattrs.local;
      ghost var before := m;
      var i := 0;
      while i < |xs|
        invariant 0 <= i <= |xs| && m == BumpAll(before, xs[..i])
      {
        m := Bump(m, xs[i]);
        assert xs[..i + 1][..i] == xs[..i];
        i := i + 1;
      }
      assert xs[..i] == xs && inodes[..k + 1][..k] == inodes[..k];
      k := k + 1;
    }
    assert inodes[..k] == inodes;
  }

  /** `local.retain`: entries found in the table move to `shared`, in order. */
  method ConvertInode(inode: Inode, t: seq<XAttr>) returns (r: Inode)
    ensures r == SharedInode(inode, t)
  {
    var xs := inode.xattrs.local;
    var shared, local := inode.xattrs.shared, [];
    var i := 0;
    while i < |xs|
      invariant 0 <= i <= |xs|
      invariant shared == inode.xattrs.shared + SharedPart(xs[..i], t)
      invariant local == LocalPart(xs[..i], t)
    {
      assert xs[..i + 1][..i] == xs[..i];
      match IndexOf(t, xs[i]) {
        case Some(idx) => shared := shared + [idx];
        case None => local := local + [xs[i]];
      }
      i := i + 1;
    }
    assert xs[..i] == xs;
    r := inode.(xattrs := InodeXAttrs(shared, local, inode.xattrs.filter));
  }

  method ShareXattrs(inodes: seq<Inode>) returns (r: seq<Inode>, t: seq<XAttr>)
    ensures t == SharedTable(inodes) && r == SharedInodes(inodes, t)
  {
    var m := CountUses(inodes);
    t := [];
    var i := 0;
    assert m[0..] == m;
    while i < |m|
      invariant 0 <= i <= |m| && t + Retained(m[i..]) == Retained(m)
    {
      assert m[i..][1..] == m[i + 1..];
      if m[i].uses > 1 {
        t := t + [m[i].attr];
      }
      i := i + 1;
    }
    r := [];
    var k := 0;
    while k < |inodes|
      invariant 0 <= k <= |inodes| && r == SharedInodes(inodes, t)[..k]
    {
      var inode := ConvertInode(inodes[k], t);
      r := r + [inode];
      k := k + 1;
    }
  }
}
