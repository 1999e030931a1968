/** Numbers as text: printing in a radix and the standard library's parsing. */
module Numbers {
  import opened Bytes

  /** `n` in a radix of at most ten, without leading zeros. */
  function InRadix(n: nat, radix: nat): (d: bytes)
    requires 2 <= radix <= 10
    ensures d != []
  {
    if n < radix then [48 + n] else InRadix(n / radix, radix) + [48 + n % radix]
  }

  function Decimal(n: nat): (d: bytes)
    ensures d != []
  {
    InRadix(n, 10)
  }

  predicate IsDigit(c: byte, radix: nat) {
    48 <= c < 48 + radix
  }

  function Digits(s: bytes, radix: nat): Option<nat> {
    if s == [] then Some(0)
    else if !IsDigit(s[|s| - 1], radix) then None
    else
      match Digits(s[..|s| - 1], radix)
      case None => None
      case Some(n) => Some(radix * n + (s[|s| - 1] - 48))
  }

  /** `from_str` and `from_str_radix` of an unsigned type with values below `limit`: digits, a
      leading plus sign is allowed. */
  function ParseNumber(s: bytes, radix: nat, limit: nat): Option<nat> {
    var d := if s != [] && s[0] == 43 then s[1..] else s;
    if d == [] then None
    else
      match Digits(d, radix)
      case None => None
      case Some(n) => if n < limit then Some(n) else None
  }

  ghost predicate AllDigits(s: bytes, radix: nat) {
    forall i :: 0 <= i < |s| ==> IsDigit(s[i], radix)
  }

  lemma {:induction false} DigitsOf(n: nat, radix: nat)
    requires 2 <= radix <= 10
    ensures Digits(InRadix(n, radix), radix) == Some(n) && AllDigits(InRadix(n, radix), radix)
  {
    var d := InRadix(n, radix);
    if n < radix {
      assert d[..0] == [];
    } else {
      DigitsOf(n / radix, radix);
      assert d[..|d| - 1] == InRadix(n / radix, radix);
      DivMod(n, radix);
    }
  }

  /** Parsing what was printed. */
  lemma ParsePrinted(n: nat, radix: nat, limit: nat)
    requires 2 <= radix <= 10 && n < limit
    ensures ParseNumber(InRadix(n, radix), radix, limit) == Some(n)
    ensures AllDigits(InRadix(n, radix), radix)
  {
    DigitsOf(n, radix);
  }
}
