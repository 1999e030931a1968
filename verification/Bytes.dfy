/** Bytes, little-endian fields, bit operations and lexicographic order: the vocabulary
    shared by the binary formats of this project. */
module Bytes {
  type byte = x: int | 0 <= x < 256
  type bytes = seq<byte>

  datatype Option<+T> = None | Some(value: T)

  function Zeros(n: nat): (z: bytes)
    ensures |z| == n
    ensures forall i :: 0 <= i < n ==> z[i] == 0
  {
    seq(n, _ => 0)
  }

  /** `n` rounded up to a multiple of `to`; for a power of two this is the masking form
      `(n + to - 1) & !(to - 1)`. */
  function RoundUp(n: nat, to: nat): (r: nat)
    requires to > 0
    ensures n <= r < n + to
    ensures r % to == 0
  {
    DivMod(n + to - 1, to);
    MulMod((n + to - 1) / to, to);
    (n + to - 1) / to * to
  }

  // The three alignments of the image format, in linear form.

  function Up4(n: nat): (r: nat)
    ensures n <= r < n + 4 && r % 4 == 0
  {
    (n + 3) / 4 * 4
  }

  function Up32(n: nat): (r: nat)
    ensures n <= r < n + 32 && r % 32 == 0 && r % 4 == 0
  {
    (n + 31) / 32 * 32
  }

  function UpBlock(n: nat): (r: nat)
    ensures n <= r < n + 4096 && r % 4096 == 0 && r % 32 == 0
  {
    var k := (n + 4095) / 4096;
    assert k * 4096 == (k * 128) * 32;
    k * 4096
  }

  lemma RoundUpLinear(n: nat)
    ensures RoundUp(n, 4) == Up4(n) && RoundUp(n, 32) == Up32(n) && RoundUp(n, 4096) == UpBlock(n)
  {
  }

  lemma DivMod(a: nat, d: nat)
    requires d > 0
    ensures a == a / d * d + a % d && 0 <= a % d < d
  {
  }

  lemma MulBounds(k: int, d: nat)
    ensures k >= 1 ==> k * d >= d
    ensures k <= -1 ==> k * d + d <= 0
  {
  }

  /** Quotient and remainder are determined by the division equation. */
  lemma DivUnique(x: nat, d: nat, q: nat, r: nat)
    requires d > 0 && x == q * d + r && r < d
    ensures x / d == q && x % d == r
  {
    DivMod(x, d);
    var k := x / d - q;
    assert k * d == r - x % d;
    MulBounds(k, d);
  }

  lemma MulMod(q: nat, d: nat)
    requires d > 0
    ensures (q * d) % d == 0
  {
    DivUnique(q * d, d, q, 0);
  }

  // ---- little-endian numbers ----

  function Pow256(n: nat): (p: nat)
    ensures p > 0
  {
    if n == 0 then 1 else 256 * Pow256(n - 1)
  }

  /** The low `n` bytes of `v`, least significant first: a field store with the truncation of
      an `as` cast. */
  function LE(v: nat, n: nat): (b: bytes)
    ensures |b| == n
  {
    if n == 0 then [] else [v % 256] + LE(v / 256, n - 1)
  }

  function FromLE(b: bytes): (v: nat)
    ensures v < Pow256(|b|)
  {
    if b == [] then 0 else b[0] + 256 * FromLE(b[1..])
  }

  lemma {:induction false} LERoundTrip(v: nat, n: nat)
    requires v < Pow256(n)
    ensures FromLE(LE(v, n)) == v
  {
    if n > 0 {
      LERoundTrip(v / 256, n - 1);
    }
  }

  lemma Pow256Values()
    ensures Pow256(1) == 0x100 && Pow256(2) == 0x1_0000 && Pow256(4) == 0x1_0000_0000
    ensures Pow256(7) == 0x100_0000_0000_0000 && Pow256(8) == 0x1_0000_0000_0000_0000
    ensures Pow256(3) == 0x100_0000
  {
    assert Pow256(3) == 256 * Pow256(2);
    assert Pow256(4) == 256 * Pow256(3);
    assert Pow256(5) == 256 * Pow256(4);
    assert Pow256(6) == 256 * Pow256(5);
    assert Pow256(7) == 256 * Pow256(6);
    assert Pow256(8) == 256 * Pow256(7);
  }

  // ---- records of fixed-width fields ----

  function Sum(ws: seq<nat>): nat {
    if ws == [] then 0 else ws[0] + Sum(ws[1..])
  }

  /** A packed `repr(C)` record: one little-endian field after the other. */
  function Pack(ws: seq<nat>, vs: seq<nat>): bytes
    requires |ws| == |vs|
  {
    if ws == [] then [] else LE(vs[0], ws[0]) + Pack(ws[1..], vs[1..])
  }

  lemma {:induction false} PackLength(ws: seq<nat>, vs: seq<nat>)
    requires |ws| == |vs|
    ensures |Pack(ws, vs)| == Sum(ws)
  {
    if ws != [] {
      PackLength(ws[1..], vs[1..]);
    }
  }

  /** Reads the fields of a record from the front of `b`. */
  function Unpack(ws: seq<nat>, b: bytes): (vs: seq<nat>)
    requires Sum(ws) <= |b|
    ensures |vs| == |ws|
  {
    if ws == [] then [] else [FromLE(b[..ws[0]])] + Unpack(ws[1..], b[ws[0]..])
  }

  ghost predicate Fits(ws: seq<nat>, vs: seq<nat>)
    requires |ws| == |vs|
  {
    forall i :: 0 <= i < |ws| ==> vs[i] < Pow256(ws[i])
  }

  lemma {:induction false} UnpackPack(ws: seq<nat>, vs: seq<nat>, rest: bytes)
    requires |ws| == |vs| && Fits(ws, vs)
    ensures |Pack(ws, vs)| == Sum(ws) && Unpack(ws, Pack(ws, vs) + rest) == vs
  {
    hide LE, FromLE, Pow256;
    PackLength(ws, vs);
    if ws != [] {
      var head, tail := LE(vs[0], ws[0]), Pack(ws[1..], vs[1..]);
      var b := Pack(ws, vs) + rest;
      assert b[..ws[0]] == head;
      assert b[ws[0]..] == tail + rest;
      LERoundTrip(vs[0], ws[0]);
      UnpackPack(ws[1..], vs[1..], rest);
      assert vs == [vs[0]] + vs[1..];
    }
  }

  /** Reading a record depends on its own bytes only. */
  lemma {:induction false} UnpackPrefix(ws: seq<nat>, b: bytes, rest: bytes)
    requires Sum(ws) <= |b|
    ensures Unpack(ws, b + rest) == Unpack(ws, b)
  {
    if ws != [] {
      assert (b + rest)[..ws[0]] == b[..ws[0]];
      assert (b + rest)[ws[0]..] == b[ws[0]..] + rest;
      UnpackPrefix(ws[1..], b[ws[0]..], rest);
    }
  }

  // ---- bit operations on unsigned numbers ----

  function BitOr(a: nat, b: nat): nat
    decreases a + b
  {
    if a == 0 && b == 0 then 0
    else (if a % 2 == 1 || b % 2 == 1 then 1 else 0) + 2 * BitOr(a / 2, b / 2)
  }

  predicate Bit(a: nat, k: nat) {
    if k == 0 then a % 2 == 1 else Bit(a / 2, k - 1)
  }

  function Pow2(n: nat): (p: nat)
    ensures p > 0
  {
    if n == 0 then 1 else 2 * Pow2(n - 1)
  }

  lemma {:induction false} BitZero(k: nat)
    ensures !Bit(0, k)
  {
    if k > 0 {
      BitZero(k - 1);
    }
  }

  lemma {:induction false} BitOfOr(a: nat, b: nat, k: nat)
    ensures Bit(BitOr(a, b), k) == (Bit(a, k) || Bit(b, k))
  {
    if a == 0 && b == 0 {
      BitZero(k);
    } else {
      var low := if a % 2 == 1 || b % 2 == 1 then 1 else 0;
      var high := BitOr(a / 2, b / 2);
      DivUnique(BitOr(a, b), 2, high, low);
      if k > 0 {
        BitOfOr(a / 2, b / 2, k - 1);
      }
    }
  }

  lemma {:induction false} BitOfPow2(n: nat, k: nat)
    ensures Bit(Pow2(n), k) == (n == k)
  {
    if k == 0 {
    } else if n == 0 {
      BitZero(k - 1);
    } else {
      BitOfPow2(n - 1, k - 1);
    }
  }

  /** The complement of an `n`-bit number flips every bit. */
  lemma {:induction false} BitOfNot(a: nat, n: nat, k: nat)
    requires a < Pow2(n) && k < n
    ensures Bit(Pow2(n) - 1 - a, k) == !Bit(a, k)
  {
    if k > 0 {
      assert (Pow2(n) - 1 - a) / 2 == Pow2(n - 1) - 1 - a / 2;
      BitOfNot(a / 2, n - 1, k - 1);
    }
  }

  lemma {:induction false} OrBelow(a: nat, b: nat, n: nat)
    requires a < Pow2(n) && b < Pow2(n)
    ensures BitOr(a, b) < Pow2(n)
  {
    if n > 0 && (a > 0 || b > 0) {
      OrBelow(a / 2, b / 2, n - 1);
    }
  }

  lemma {:induction false} OrDisjoint(a: nat, b: nat, n: nat)
    requires a % Pow2(n) == 0 && b < Pow2(n)
    ensures BitOr(a, b) == a + b
  {
    if n == 0 {
      OrZero(a);
    } else if a > 0 || b > 0 {
      DivMod(a, Pow2(n));
      var q := a / Pow2(n);
      assert a == q * Pow2(n) == 2 * (q * Pow2(n - 1));
      assert a / 2 == q * Pow2(n - 1);
      MulMod(q, Pow2(n - 1));
      OrDisjoint(a / 2, b / 2, n - 1);
    }
  }

  lemma {:induction false} OrZero(a: nat)
    ensures BitOr(a, 0) == a
  {
    if a > 0 {
      OrZero(a / 2);
    }
  }

  lemma {:induction false} OrKeepsNonZero(a: nat, b: nat)
    requires a > 0 || b > 0
    ensures BitOr(a, b) > 0
    decreases a + b
  {
    if a % 2 == 0 && b % 2 == 0 {
      OrKeepsNonZero(a / 2, b / 2);
    }
  }

  lemma Pow2Values()
    ensures Pow2(12) == 4096 && Pow2(16) == 0x1_0000 && Pow2(32) == 0x1_0000_0000
  {
    assert Pow2(8) == 256 by {
      assert Pow2(4) == 16;
    }
    assert Pow2(12) == 4096;
    assert Pow2(16) == 0x1_0000;
    assert Pow2(20) == 0x10_0000;
    assert Pow2(24) == 0x100_0000;
    assert Pow2(28) == 0x1000_0000;
  }

  lemma {:induction false} Pow2Monotone(m: nat, n: nat)
    requires m < n
    ensures Pow2(m) < Pow2(n)
  {
    if m + 1 < n {
      Pow2Monotone(m, n - 1);
    }
  }

  // ---- lexicographic order on byte strings ----

  predicate Less(a: bytes, b: bytes) {
    b != [] && (a == [] || a[0] < b[0] || (a[0] == b[0] && Less(a[1..], b[1..])))
  }

  lemma {:induction false} LessTransitive(a: bytes, b: bytes, c: bytes)
    requires Less(a, b) && Less(b, c)
    ensures Less(a, c)
  {
    if a != [] && a[0] == b[0] && b[0] == c[0] {
      LessTransitive(a[1..], b[1..], c[1..]);
    }
  }

  lemma {:induction false} LessIrreflexive(a: bytes)
    ensures !Less(a, a)
  {
    if a != [] {
      LessIrreflexive(a[1..]);
    }
  }

  lemma {:induction false} LessTotal(a: bytes, b: bytes)
    ensures a == b || Less(a, b) || Less(b, a)
  {
    if a != [] && b != [] && a[0] == b[0] {
      LessTotal(a[1..], b[1..]);
      assert a == [a[0]] + a[1..] && b == [b[0]] + b[1..];
    }
  }

  // ---- prefixes and slices ----

  lemma SliceOfPrefix(a: bytes, b: bytes, lo: nat, hi: nat)
    requires a <= b && lo <= hi <= |a|
    ensures a[lo..hi] == b[lo..hi]
  {
  }

  lemma SliceLeft(a: bytes, b: bytes, lo: nat, hi: nat)
    requires lo <= hi <= |a|
    ensures (a + b)[lo..hi] == a[lo..hi]
  {
  }

  lemma SliceRight(a: bytes, b: bytes, lo: nat, hi: nat)
    requires lo <= hi <= |b|
    ensures (a + b)[|a| + lo..|a| + hi] == b[lo..hi]
  {
  }

  /** The index of the first zero byte, or the length when there is none. */
  function FirstZero(b: bytes): (n: nat)
    ensures n <= |b|
    ensures forall i :: 0 <= i < n ==> b[i] != 0
    ensures n < |b| ==> b[n] == 0
  {
    if b == [] || b[0] == 0 then 0 else 1 + FirstZero(b[1..])
  }

  /** The index of the first `c`, or the length when there is none. */
  function FirstOf(b: bytes, c: byte): (n: nat)
    ensures n <= |b| && (n < |b| ==> b[n] == c) && forall i :: 0 <= i < n ==> b[i] != c
  {
    if b == [] || b[0] == c then 0 else 1 + FirstOf(b[1..], c)
  }

  lemma FirstAfter(a: bytes, c: byte, rest: bytes)
    requires c !in a
    ensures FirstOf(a + [c] + rest, c) == |a|
    ensures FirstOf(a, c) == |a|
  {
    var s := a + [c] + rest;
    assert s[|a|] == c;
    assert forall i :: 0 <= i < |a| ==> s[i] == a[i];
  }

  function Min(a: nat, b: nat): nat {
    if a <= b then a else b
  }

  // ---- concatenation ----

  function Flat(parts: seq<bytes>): bytes {
    if parts == [] then [] else parts[0] + Flat(parts[1..])
  }

  lemma {:induction false} FlatLength(parts: seq<bytes>, size: nat)
    requires forall i :: 0 <= i < |parts| ==> |parts[i]| == size
    ensures |Flat(parts)| == |parts| * size
  {
    if parts != [] {
      FlatLength(parts[1..], size);
    }
  }

  lemma {:induction false} FlatAppend(a: seq<bytes>, b: seq<bytes>)
    ensures Flat(a + b) == Flat(a) + Flat(b)
  {
    if a == [] {
      assert a + b == b;
    } else {
      assert (a + b)[1..] == a[1..] + b;
      FlatAppend(a[1..], b);
    }
  }
}
