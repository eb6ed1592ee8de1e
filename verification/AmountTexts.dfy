/**
 The shape of a printed amount, and what any text at all can parse to: the digits of the text, in order,
 with a point somewhere among them.
 */
module AmountTexts {
  import opened Wrappers
  import opened Numerals
  import opened Amounts
  import Text
  import TextLaws

  // ----- What is printed -----

  /** The currency and a space come first; below zero a minus sign follows; two decimals end the text exactly when the amount is not whole. */
  lemma PrintedShape(currency: string, cents: int)
    ensures var text, body := FormatCurrencyAmount(currency, cents), Spelled(Magnitude(cents), ',', '.');
      && text == currency + " " + (if cents < 0 then "-" else "") + body
      && |body| > 0 && IsDigit(body[0])
      && (cents % 100 == 0 ==> '.' !in body)
      && (cents % 100 != 0 ==> |body| > 3 && body[|body| - 3] == '.' && '.' !in body[..|body| - 3])
      && (cents % 100 != 0 ==> IsDigit(body[|body| - 1]) && IsDigit(body[|body| - 2]))
  {
    var n := Magnitude(cents);
    GroupedChars(n / 100, ',');
    GroupedSeparators(n / 100, ',', '.');
    if n % 100 != 0 {
      var head, tail := Grouped(n / 100, ','), Padded(n % 100, 2);
      assert Spelled(n, ',', '.') == head + ['.'] + tail;
      assert AllDigits(tail) && |tail| == 2;
    }
  }

  /** Commas stand before every third digit from the right, and nowhere else. */
  lemma {:induction false} CommaPlaces(n: nat, i: nat)
    requires i < |Grouped(n, ',')|
    ensures var s := Grouped(n, ','); s[i] == ',' <==> (|s| - i) % 4 == 0
  {
    if n < 1000 {
      SmallDigits(n);
    } else {
      var head, tail := Grouped(n / 1000, ','), Padded(n % 1000, 3);
      if i < |head| {
        CommaPlaces(n / 1000, i);
      }
      CommaStep(head, tail, i);
    }
  }

  lemma CommaStep(head: string, tail: string, i: nat)
    requires AllDigits(tail) && |tail| == 3 && i < |head| + 4
    requires i < |head| ==> (head[i] == ',' <==> (|head| - i) % 4 == 0)
    ensures var s := head + [','] + tail; s[i] == ',' <==> (|s| - i) % 4 == 0
  {
    var s := head + [','] + tail;
    if i < |head| {
      assert s[i] == head[i];
      assert (|head| - i + 4) % 4 == (|head| - i) % 4;
    } else if i > |head| {
      assert s[i] == tail[i - |head| - 1];
    }
  }

  lemma SmallDigits(n: nat)
    requires n < 1000
    ensures |Digits(n)| <= 3
  {
    assert n / 10 < 100 && n / 10 / 10 < 10;
    assert |Digits(n / 10 / 10)| == 1;
    assert |Digits(n / 10)| <= 2;
  }

  // ----- What is parsed -----

  /** The digits and minus signs of a text. */
  function Significant(s: string): string {
    if s == "" then ""
    else (if IsDigit(s[0]) || s[0] == '-' then [s[0]] else "") + Significant(s[1..])
  }

  lemma {:induction false} SignificantConcat(a: string, b: string)
    ensures Significant(a + b) == Significant(a) + Significant(b)
  {
    if a == "" {
      assert a + b == b;
    } else {
      SignificantConcat(a[1..], b);
      SignificantStep(a, b);
    }
  }

  lemma SignificantStep(a: string, b: string)
    requires a != ""
    ensures Significant(a + b) == (if IsDigit(a[0]) || a[0] == '-' then [a[0]] else "") + Significant(a[1..] + b)
  {
    assert (a + b)[1..] == a[1..] + b;
  }

  lemma SignificantOne(c: char, rest: string)
    ensures Significant([c] + rest) == (if IsDigit(c) || c == '-' then [c] else "") + Significant(rest)
  {
    assert ([c] + rest)[1..] == rest;
  }

  lemma {:induction false} KeepSignificant(s: string)
    ensures Significant(Keep(s)) == Significant(s)
  {
    if s != "" {
      KeepSignificant(s[1..]);
      SignificantOne(s[0], Keep(s[1..]));
      assert "" + Keep(s[1..]) == Keep(s[1..]);
    }
  }

  lemma {:induction false} RemoveSignificant(s: string, c: char)
    requires c == ',' || c == '.'
    ensures Significant(Remove(s, c)) == Significant(s)
  {
    if s != "" {
      RemoveSignificant(s[1..], c);
      SignificantOne(s[0], Remove(s[1..], c));
      assert "" + Remove(s[1..], c) == Remove(s[1..], c);
    }
  }

  lemma {:induction false} ReplaceSignificant(s: string)
    ensures Significant(Replace(s, ',', '.')) == Significant(s)
  {
    if s != "" {
      ReplaceSignificant(s[1..]);
      SignificantOne(if s[0] == ',' then '.' else s[0], Replace(s[1..], ',', '.'));
    }
  }

  /** Rewriting the separators neither loses nor reorders a digit or a sign. */
  lemma UntangledSignificant(s: string)
    ensures Significant(Untangled(s)) == Significant(s)
  {
    RemoveSignificant(s, '.');
    RemoveSignificant(s, ',');
    ReplaceSignificant(s);
    ReplaceSignificant(Remove(s, '.'));
  }

  lemma {:induction false} DigitsSignificant(s: string)
    requires AllDigits(s)
    ensures Significant(s) == s
  {
    if s != "" {
      DigitsSignificant(s[1..]);
    }
  }

  lemma PointedSignificant(whole: string, fraction: string)
    requires AllDigits(whole + fraction)
    ensures Significant(whole + fraction) == whole + fraction == Significant(whole + ("." + fraction))
  {
    DigitsSignificant(whole + fraction);
    SignificantConcat(whole, fraction);
    SignificantConcat(whole, "." + fraction);
    SignificantOne('.', fraction);
    assert "" + Significant(fraction) == Significant(fraction);
  }

  /** What an unsigned numeral is worth: its digits over a power of ten. */
  lemma UnsignedDigits(s: string) returns (decimals: nat)
    requires ReadUnsigned(s).Some?
    ensures var digits := Significant(s);
      && digits != "" && AllDigits(digits) && decimals <= |digits|
      && ReadUnsigned(s) == Some(Value(digits) as real / PowReal(decimals))
  {
    var i := Find(s, '.');
    var whole, fraction := s[..i], if i < |s| then s[i + 1..] else "";
    decimals := |fraction|;
    if i < |s| {
      PointedSignificant(whole, fraction);
      assert s == whole + ("." + fraction);
    } else {
      assert s == whole == whole + fraction;
      DigitsSignificant(s);
    }
  }

  /** The rest of a text after its first character. */
  lemma SignedSignificant(s: string)
    requires s != "" && s[0] == '-'
    ensures Significant(s) == "-" + Significant(s[1..])
  {
  }

  /**
     Whatever text parses at all: its digits and signs are at most one minus sign and then at least one
     digit, and its value is that numeral over a power of ten. So no digit is lost, added or reordered.
   */
  lemma ParsedDigits(text: string) returns (negative: bool, digits: string, decimals: nat)
    requires ParseAmount(Typed(text)).Some?
    ensures Significant(text) == (if negative then "-" else "") + digits && digits != "" && AllDigits(digits)
    ensures decimals <= |digits|
    ensures ParseAmount(Typed(text)) ==
      Some(if negative then -(Value(digits) as real / PowReal(decimals)) else Value(digits) as real / PowReal(decimals))
  {
    var kept := Keep(Text.Strip(text));
    var plain := Untangled(kept);
    KeepStrip(text);
    KeepSignificant(text);
    UntangledSignificant(kept);
    negative, digits, decimals := ReadDigits(plain);
  }

  lemma ReadDigits(s: string) returns (negative: bool, digits: string, decimals: nat)
    requires ReadDecimal(s).Some?
    ensures Significant(s) == (if negative then "-" else "") + digits && digits != "" && AllDigits(digits)
    ensures decimals <= |digits|
    ensures ReadDecimal(s) ==
      Some(if negative then -(Value(digits) as real / PowReal(decimals)) else Value(digits) as real / PowReal(decimals))
  {
    negative := s != "" && s[0] == '-';
    if negative {
      SignedSignificant(s);
      decimals := UnsignedDigits(s[1..]);
      digits := Significant(s[1..]);
    } else {
      decimals := UnsignedDigits(s);
      digits := Significant(s);
      assert "" + digits == digits;
    }
  }

  /** A missing amount is none, a number is itself, and a text without a digit is none. */
  lemma NoDigitsNone(text: string, value: real)
    ensures ParseAmount(Blank) == None && ParseAmount(Number(value)) == Some(value)
    ensures (forall i :: 0 <= i < |text| ==> !IsDigit(text[i])) ==> ParseAmount(Typed(text)) == None
  {
    if ParseAmount(Typed(text)).Some? {
      var negative, digits, decimals := ParsedDigits(text);
      assert digits[0] in Significant(text) && IsDigit(digits[0]);
      HasDigit(text, digits[0]);
    }
  }

  lemma {:induction false} HasDigit(text: string, c: char)
    requires c in Significant(text)
    ensures exists i :: 0 <= i < |text| && text[i] == c
  {
    if c in Significant(text[1..]) {
      HasDigit(text[1..], c);
      var i :| 0 <= i < |text[1..]| && text[1..][i] == c;
      assert text[i + 1] == c;
    } else {
      assert text[0] == c;
    }
  }
}
