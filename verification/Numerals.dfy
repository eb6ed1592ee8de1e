/** Decimal numerals: writing naturals, with or without padding, and reading a numeral with a sign and a point. */
module Numerals {
  import opened Wrappers

  function DigitChar(d: nat): char
    requires d < 10
  {
    ('0' as int + d) as char
  }

  predicate IsDigit(c: char) {
    '0' <= c <= '9'
  }

  predicate AllDigits(s: string) {
    forall i :: 0 <= i < |s| ==> IsDigit(s[i])
  }

  function DigitValue(c: char): nat
    requires IsDigit(c)
  {
    c as int - '0' as int
  }

  function Value(s: string): nat
    requires AllDigits(s)
  {
    if s == "" then 0 else 10 * Value(s[..|s| - 1]) + DigitValue(s[|s| - 1])
  }

  function Pow10(n: nat): nat {
    if n == 0 then 1 else 10 * Pow10(n - 1)
  }

  lemma {:induction false} ValueConcat(a: string, b: string)
    requires AllDigits(a) && AllDigits(b)
    ensures AllDigits(a + b) && Value(a + b) == Value(a) * Pow10(|b|) + Value(b)
  {
    if b == "" {
      assert a + b == a;
    } else {
      var init := b[..|b| - 1];
      ValueConcat(a, init);
      assert (a + b)[..|a + b| - 1] == a + init;
      Shift(Value(a), Pow10(|init|), Value(init), DigitValue(b[|b| - 1]));
    }
  }

  lemma Shift(x: int, p: int, y: int, d: int)
    ensures 10 * (x * p + y) + d == x * (10 * p) + (10 * y + d)
  {
  }

  /** The last w digits of n. */
  function Padded(n: nat, w: nat): (s: string)
    ensures |s| == w && AllDigits(s)
  {
    if w == 0 then "" else Padded(n / 10, w - 1) + [DigitChar(n % 10)]
  }

  lemma {:induction false} PaddedValue(n: nat, w: nat)
    requires n < Pow10(w)
    ensures Value(Padded(n, w)) == n
  {
    if w > 0 {
      PaddedValue(n / 10, w - 1);
      assert Padded(n, w)[..w - 1] == Padded(n / 10, w - 1);
    }
  }

  /** The shortest numeral of n. */
  function Digits(n: nat): (s: string)
    ensures s != "" && AllDigits(s)
  {
    if n < 10 then [DigitChar(n)] else Digits(n / 10) + [DigitChar(n % 10)]
  }

  lemma {:induction false} DigitsValue(n: nat)
    ensures Value(Digits(n)) == n
  {
    if n < 10 {
      assert Digits(n)[..0] == "";
    } else {
      DigitsValue(n / 10);
      assert Digits(n)[..|Digits(n)| - 1] == Digits(n / 10);
    }
  }

  /** Where c first stands in s; the length of s when it does not. */
  function Find(s: string, c: char): (i: nat)
    ensures i <= |s| && c !in s[..i] && (i < |s| ==> s[i] == c)
  {
    if s == "" || s[0] == c then 0
    else
      var i := Find(s[1..], c) + 1;
      assert s[..i] == [s[0]] + s[1..][..i - 1];
      i
  }

  lemma {:induction false} FindAt(s: string, c: char, i: nat)
    requires i <= |s| && c !in s[..i] && (i < |s| ==> s[i] == c)
    ensures Find(s, c) == i
  {
  }

  lemma FindBetween(a: string, c: char, b: string)
    requires c !in a
    ensures Find(a + [c] + b, c) == |a|
    ensures Find(a, c) == |a|
  {
    assert (a + [c] + b)[..|a|] == a && a[..|a|] == a;
    FindAt(a + [c] + b, c, |a|);
    FindAt(a, c, |a|);
  }

  function Signed(negative: bool, r: Option<real>): Option<real> {
    if negative && r.Some? then Some(-r.value) else r
  }

  /** Digits with at most one point between, before or after them; None for anything else. */
  function ReadUnsigned(s: string): Option<real> {
    var i := Find(s, '.');
    var whole, fraction := s[..i], if i < |s| then s[i + 1..] else "";
    if whole + fraction != "" && AllDigits(whole + fraction) then
      Some(Value(whole + fraction) as real / PowReal(|fraction|))
    else None
  }

  function PowReal(n: nat): (r: real)
    ensures r >= 1.0
  {
    if n == 0 then 1.0 else 10.0 * PowReal(n - 1)
  }

  /** float() and Decimal() on a string of digits, points and minus signs; None where they raise. */
  function ReadDecimal(s: string): Option<real> {
    if s != "" && s[0] == '-' then Signed(true, ReadUnsigned(s[1..])) else Signed(false, ReadUnsigned(s))
  }

  /** Reading whole and fractional digits around a point. */
  lemma ReadPointed(whole: string, fraction: string)
    requires AllDigits(whole) && AllDigits(fraction) && whole + fraction != ""
    ensures AllDigits(whole + fraction)
    ensures ReadUnsigned(whole + "." + fraction) == Some(Value(whole + fraction) as real / PowReal(|fraction|))
  {
    FindBetween(whole, '.', fraction);
    var s := whole + "." + fraction;
    assert s[..|whole|] == whole && s[|whole| + 1..] == fraction;
  }

  /** A pointed numeral whose digits, point aside, are worth n. */
  lemma ReadScaled(whole: string, fraction: string, n: nat, scale: real)
    requires AllDigits(whole) && AllDigits(fraction) && whole != "" && AllDigits(whole + fraction)
    requires Value(whole + fraction) == n && PowReal(|fraction|) == scale && scale != 0.0
    ensures ReadUnsigned(whole + "." + fraction) == Some(n as real / scale)
  {
    ReadPointed(whole, fraction);
  }

  lemma DivMod(n: nat, d: nat)
    requires d > 0
    ensures n / d * d + n % d == n
  {
  }

  lemma ReadWhole(whole: string)
    requires AllDigits(whole) && whole != ""
    ensures ReadUnsigned(whole) == Some(Value(whole) as real)
  {
    FindBetween(whole, '.', "");
    assert whole[..|whole|] == whole && whole + "" == whole;
  }

  /** A sign in front of an unsigned numeral. */
  function Sign(negative: bool): string {
    if negative then "-" else ""
  }

  lemma ReadSigned(negative: bool, s: string)
    requires s == "" || s[0] != '-'
    ensures ReadDecimal(Sign(negative) + s) == Signed(negative, ReadUnsigned(s))
  {
    var t := Sign(negative) + s;
    if negative {
      assert t[0] == '-' && t[1..] == s;
    } else {
      assert t == s;
    }
  }
}
