/** Numbers in bytes, least byte first, told without recursion. */
module LittleEndian {
  import opened Bytes

  predicate Has(b: bytes, at: nat, n: nat) {
    at + n <= |b|
  }

  function U16(b: bytes, at: nat): nat
    requires Has(b, at, 2)
  {
    b[at] as int + 0x100 * b[at + 1] as int
  }

  function U32(b: bytes, at: nat): nat
    requires Has(b, at, 4)
  {
    U16(b, at) + 0x1_0000 * U16(b, at + 2)
  }

  function U64(b: bytes, at: nat): nat
    requires Has(b, at, 8)
  {
    U32(b, at) + 0x1_0000_0000 * U32(b, at + 4)
  }

  lemma Two(b: bytes, at: nat)
    requires Has(b, at, 2)
    ensures FromLE(b[at..at + 2]) == U16(b, at)
    ensures FromLE(b[at..at + 1]) == b[at]
  {
    var s := b[at..at + 2];
    assert s[1..][1..] == [] && FromLE([]) == 0;
    assert b[at..at + 1][1..] == [];
  }

  lemma {:induction false} FromLEAppend(a: bytes, b: bytes)
    ensures FromLE(a + b) == FromLE(a) + Pow256(|a|) * FromLE(b)
  {
    if a == [] {
      assert a + b == b;
    } else {
      assert (a + b)[1..] == a[1..] + b;
      FromLEAppend(a[1..], b);
      Carry(a[0], FromLE(a[1..]), Pow256(|a| - 1), FromLE(b));
    }
  }

  lemma Carry(low: nat, high: nat, p: nat, x: nat)
    ensures low + 256 * (high + p * x) == (low + 256 * high) + (256 * p) * x
  {
    assert 256 * (p * x) == (256 * p) * x;
  }

  lemma Four(b: bytes, at: nat)
    requires Has(b, at, 4)
    ensures FromLE(b[at..at + 4]) == U32(b, at)
  {
    hide FromLE;
    Two(b, at);
    Two(b, at + 2);
    assert b[at..at + 4] == b[at..at + 2] + b[at + 2..at + 4];
    FromLEAppend(b[at..at + 2], b[at + 2..at + 4]);
    Pow256Values();
  }

  lemma Eight(b: bytes, at: nat)
    requires Has(b, at, 8)
    ensures FromLE(b[at..at + 8]) == U64(b, at)
  {
    hide FromLE;
    Four(b, at);
    Four(b, at + 4);
    assert b[at..at + 8] == b[at..at + 4] + b[at + 4..at + 8];
    FromLEAppend(b[at..at + 4], b[at + 4..at + 8]);
    Pow256Values();
  }

  lemma OneByte(x: byte)
    ensures FromLE([x]) == x
  {
    assert [x][1..] == [];
  }

  /** One byte of a little-endian number. */
  lemma {:induction false} LEDigit(v: nat, n: nat, k: nat)
    requires k < n
    ensures LE(v, n)[k] == v / Pow256(k) % 256
  {
    if k > 0 {
      LEDigit(v / 256, n - 1, k - 1);
      DivTwice(v, 256, Pow256(k - 1));
    }
  }

  lemma DivTwice(v: nat, a: nat, b: nat)
    requires a > 0 && b > 0
    ensures a * b > 0 && v / a / b == v / (a * b)
  {
    DivMod(v, a);
    DivMod(v / a, b);
    var q, r, t := v / a / b, v / a % b, v % a;
    assert v == (q * b + r) * a + t == q * (a * b) + (r * a + t);
    TimesGrows(r + 1, b, a);
    assert r * a + t < (r + 1) * a <= b * a == a * b;
    assert a * b > 0 by {
      TimesGrows(1, b, a);
    }
    DivUnique(v, a * b, q, r * a + t);
  }

  lemma TimesGrows(a: nat, b: nat, c: nat)
    requires a <= b
    ensures a * c <= b * c
  {
  }
}
