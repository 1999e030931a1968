/** Orders and numerals told without recursion on the functions that compute them. */
module Vocabulary {
  import opened Bytes
  import opened Numbers

  /** The strings agree up to `k`, and then the first one ends or has the smaller byte. */
  predicate DifferAt(a: bytes, b: bytes, k: nat) {
    k <= |a| && k < |b| && a[..k] == b[..k] && (k == |a| || a[k] < b[k])
  }

  lemma {:induction false} LessAt(a: bytes, b: bytes) returns (k: nat)
    requires Less(a, b)
    ensures DifferAt(a, b, k)
  {
    if a == [] || a[0] < b[0] {
      k := 0;
    } else {
      var j := LessAt(a[1..], b[1..]);
      k := j + 1;
      assert a[..k] == [a[0]] + a[1..][..j] && b[..k] == [b[0]] + b[1..][..j];
    }
  }

  lemma {:induction false} AtLess(a: bytes, b: bytes, k: nat)
    requires DifferAt(a, b, k)
    ensures Less(a, b)
  {
    if k > 0 {
      assert a[0] == a[..k][0] == b[..k][0] == b[0];
      assert a[1..][..k - 1] == a[..k][1..] && b[1..][..k - 1] == b[..k][1..];
      AtLess(a[1..], b[1..], k - 1);
    }
  }

  /** The order of names and of attributes is the order of bytes. */
  lemma LessIff(a: bytes, b: bytes)
    ensures Less(a, b) <==> exists k: nat :: DifferAt(a, b, k)
  {
    if Less(a, b) {
      var k := LessAt(a, b);
    }
    if k: nat :| DifferAt(a, b, k) {
      AtLess(a, b, k);
    }
  }

  function Power(radix: nat, n: nat): nat {
    if n == 0 then 1 else radix * Power(radix, n - 1)
  }

  /** A numeral has its most significant digit first. */
  lemma {:induction false} DigitsFromFront(c: byte, s: bytes, radix: nat)
    requires IsDigit(c, radix) && Digits(s, radix).Some?
    ensures Digits([c] + s, radix) == Some((c as int - 48) * Power(radix, |s|) + Digits(s, radix).value)
    decreases |s|
  {
    var t := [c] + s;
    if s == [] {
      assert t == [c] && t[..0] == [];
      assert Digits(t[..0], radix) == Some(0);
    } else {
      var n := |s| - 1;
      assert t[..|t| - 1] == [c] + s[..n];
      DigitsFromFront(c, s[..n], radix);
      Shifted(radix, c - 48, Power(radix, n), Digits(s[..n], radix).value);
    }
  }

  lemma Shifted(radix: nat, d: int, p: nat, v: nat)
    ensures radix * (d * p + v) == d * (radix * p) + radix * v
  {
    assert radix * (d * p) == d * (radix * p);
  }

  /** Only digits below the radix make a numeral. */
  lemma {:induction false} DigitsIff(s: bytes, radix: nat)
    ensures Digits(s, radix).Some? <==> forall i :: 0 <= i < |s| ==> 48 <= s[i] < 48 + radix
    decreases |s|
  {
    if s != [] {
      DigitsIff(s[..|s| - 1], radix);
    }
  }

  /** Numbers are printed without leading zeros. */
  lemma {:induction false} NoLeadingZero(n: nat, radix: nat)
    requires 2 <= radix <= 10
    ensures InRadix(n, radix)[0] == 48 <==> n == 0
    ensures n == 0 ==> InRadix(n, radix) == [48]
    decreases n
  {
    if n >= radix {
      NoLeadingZero(n / radix, radix);
      DivMod(n, radix);
    }
  }
}
