/**
 The amount printer of the workspace and the parser of amounts typed by hand.

 The printer groups thousands with commas and writes two decimals, or none for a whole amount. The
 parser accepts both the comma-grouped and the European spelling, and decides by which of the two
 separators stands last. Amounts are exact hundredths.
 */
module Amounts {
  import opened Wrappers
  import opened Numerals
  import Text

  // ----- The printer -----

  /** Thousands grouped with a separator. */
  function Grouped(n: nat, separator: char): string {
    if n < 1000 then Digits(n) else Grouped(n / 1000, separator) + [separator] + Padded(n % 1000, 3)
  }

  /** An unsigned amount of cents: no decimals when it is whole, two otherwise. */
  function Spelled(cents: nat, separator: char, point: char): string {
    if cents % 100 == 0 then Grouped(cents / 100, separator)
    else Grouped(cents / 100, separator) + [point] + Padded(cents % 100, 2)
  }

  function Magnitude(cents: int): nat {
    if cents < 0 then -cents else cents
  }

  function FormatCurrencyAmount(currency: string, cents: int): string {
    currency + " " + Sign(cents < 0) + Spelled(Magnitude(cents), ',', '.')
  }

  /** The same amount as a European hand writes it. */
  function EuropeanAmount(currency: string, cents: int): string {
    currency + " " + Sign(cents < 0) + Spelled(Magnitude(cents), '.', ',')
  }

  // ----- The parser -----

  predicate Kept(c: char) {
    IsDigit(c) || c == '.' || c == ',' || c == '-'
  }

  function Keep(s: string): string {
    if s == "" then ""
    else (if Kept(s[0]) then [s[0]] else "") + Keep(s[1..])
  }

  function Count(s: string, c: char): nat {
    if s == "" then 0 else (if s[0] == c then 1 else 0) + Count(s[1..], c)
  }

  /** s.replace(c, ""). */
  function Remove(s: string, c: char): string {
    if s == "" then "" else (if s[0] == c then "" else [s[0]]) + Remove(s[1..], c)
  }

  /** s.replace(c, d). */
  function Replace(s: string, c: char, d: char): string {
    if s == "" then "" else [if s[0] == c then d else s[0]] + Replace(s[1..], c, d)
  }

  /** Where c last stands in s; -1 when it does not. */
  function LastIndex(s: string, c: char): (i: int)
    ensures -1 <= i < |s|
  {
    if s == "" then -1
    else if s[|s| - 1] == c then |s| - 1
    else LastIndex(s[..|s| - 1], c)
  }

  /** Rewrites the separators into a plain numeral with a point. */
  function Untangled(s: string): string {
    if ',' in s && '.' in s then
      if LastIndex(s, ',') > LastIndex(s, '.') then Replace(Remove(s, '.'), ',', '.')
      else Remove(s, ',')
    else if Count(s, ',') == 1 && '.' !in s then Replace(s, ',', '.')
    else if Count(s, '.') > 1 && ',' !in s then Remove(s, '.')
    else if Count(s, ',') > 1 && '.' !in s then Remove(s, ',')
    else s
  }

  datatype Raw = Blank | Number(value: real) | Typed(text: string)

  function ParseAmount(raw: Raw): Option<real> {
    match raw
    case Blank => None
    case Number(value) => Some(value)
    case Typed(text) =>
      var cleaned := Keep(Text.Strip(text));
      if text == "" || cleaned == "" then None else ReadDecimal(Untangled(cleaned))
  }

  // ----- Strings -----

  lemma {:induction false} KeepConcat(a: string, b: string)
    ensures Keep(a + b) == Keep(a) + Keep(b)
  {
    if a == "" {
      assert a + b == b;
    } else {
      KeepConcat(a[1..], b);
      assert (a + b)[1..] == a[1..] + b;
      var first := if Kept(a[0]) then [a[0]] else "";
      assert first + (Keep(a[1..]) + Keep(b)) == first + Keep(a[1..]) + Keep(b);
    }
  }

  lemma {:induction false} KeepAll(s: string)
    requires forall i :: 0 <= i < |s| ==> Kept(s[i])
    ensures Keep(s) == s
  {
    if s != "" {
      KeepAll(s[1..]);
    }
  }

  lemma {:induction false} KeepNone(s: string)
    requires forall i :: 0 <= i < |s| ==> !Kept(s[i])
    ensures Keep(s) == ""
  {
    if s != "" {
      KeepNone(s[1..]);
    }
  }

  lemma {:induction false} KeepStripLeft(s: string)
    ensures Keep(Text.StripLeft(s)) == Keep(s)
  {
    if s != "" && Text.IsSpace(s[0]) {
      KeepStripLeft(s[1..]);
    }
  }

  lemma {:induction false} KeepStripRight(s: string)
    ensures Keep(Text.StripRight(s)) == Keep(s)
  {
    if s != "" && Text.IsSpace(s[|s| - 1]) {
      var init, last := s[..|s| - 1], [s[|s| - 1]];
      KeepStripRight(init);
      KeepConcat(init, last);
      KeepNone(last);
      assert s == init + last;
    }
  }

  /** Stripping white space removes nothing that is kept. */
  lemma KeepStrip(s: string)
    ensures Keep(Text.Strip(s)) == Keep(s)
  {
    KeepStripLeft(s);
    KeepStripRight(Text.StripLeft(s));
  }

  lemma {:induction false} CountConcat(a: string, b: string, c: char)
    ensures Count(a + b, c) == Count(a, c) + Count(b, c)
  {
    if a == "" {
      assert a + b == b;
    } else {
      CountConcat(a[1..], b, c);
      assert (a + b)[1..] == a[1..] + b;
    }
  }

  lemma {:induction false} RemoveConcat(a: string, b: string, c: char)
    ensures Remove(a + b, c) == Remove(a, c) + Remove(b, c)
  {
    if a == "" {
      assert a + b == b;
    } else {
      RemoveConcat(a[1..], b, c);
      RemoveStep(a, b, c);
      var first, rest := if a[0] == c then "" else [a[0]], Remove(a[1..], c);
      assert Remove(a, c) == first + rest;
      assert first + (rest + Remove(b, c)) == first + rest + Remove(b, c);
    }
  }

  lemma RemoveStep(a: string, b: string, c: char)
    requires a != ""
    ensures Remove(a + b, c) == (if a[0] == c then "" else [a[0]]) + Remove(a[1..] + b, c)
  {
    assert (a + b)[1..] == a[1..] + b;
  }

  lemma {:induction false} ReplaceConcat(a: string, b: string, c: char, d: char)
    ensures Replace(a + b, c, d) == Replace(a, c, d) + Replace(b, c, d)
  {
    if a == "" {
      assert a + b == b;
    } else {
      ReplaceConcat(a[1..], b, c, d);
      assert (a + b)[1..] == a[1..] + b;
    }
  }

  /** Where c does not stand, nothing is counted, removed or replaced. */
  lemma {:induction false} Untouched(s: string, c: char, d: char)
    requires c !in s
    ensures Count(s, c) == 0 && Remove(s, c) == s && Replace(s, c, d) == s && LastIndex(s, c) == -1
  {
    if s != "" {
      assert s[0] != c && s[|s| - 1] != c;
      Untouched(s[1..], c, d);
      UntouchedIndex(s, c);
    }
  }

  lemma {:induction false} UntouchedIndex(s: string, c: char)
    requires c !in s
    ensures LastIndex(s, c) == -1
  {
    if s != "" {
      assert s[|s| - 1] in s;
      UntouchedIndex(s[..|s| - 1], c);
    }
  }

  /** After its last occurrence c is not met; LastIndex sees no further than a. */
  lemma {:induction false} LastIndexBefore(a: string, b: string, c: char)
    requires c !in b
    ensures LastIndex(a + b, c) == LastIndex(a, c)
  {
    if b == "" {
      assert a + b == a;
    } else {
      var init := b[..|b| - 1];
      assert (a + b)[..|a + b| - 1] == a + init;
      assert b[|b| - 1] in b;
      LastIndexBefore(a, init, c);
    }
  }

  // ----- Grouped numerals -----

  /** Only digits and the separator occur in a grouped numeral, and its first character is a digit. */
  lemma {:induction false} GroupedChars(n: nat, separator: char)
    ensures Grouped(n, separator) != "" && IsDigit(Grouped(n, separator)[0])
    ensures forall i :: 0 <= i < |Grouped(n, separator)| ==> IsDigit(Grouped(n, separator)[i]) || Grouped(n, separator)[i] == separator
  {
    if n >= 1000 {
      GroupedChars(n / 1000, separator);
    }
  }

  lemma DigitsOnly(s: string, c: char)
    requires AllDigits(s) && !IsDigit(c)
    ensures c !in s
  {
  }

  /** Removing the last separator of a grouped numeral. */
  lemma RemoveBetween(head: string, separator: char, tail: string)
    requires AllDigits(tail) && !IsDigit(separator)
    ensures Remove(head + [separator] + tail, separator) == Remove(head, separator) + tail
  {
    assert Remove([separator], separator) == "" by {
      assert [separator][1..] == "";
    }
    DigitsOnly(tail, separator);
    Untouched(tail, separator, separator);
    RemoveConcat(head + [separator], tail, separator);
    RemoveConcat(head, [separator], separator);
  }

  /** A grouped numeral without its separators. */
  function Plain(n: nat): string {
    if n < 1000 then Digits(n) else Plain(n / 1000) + Padded(n % 1000, 3)
  }

  lemma {:induction false} GroupedPlain(n: nat, separator: char)
    requires !IsDigit(separator)
    ensures Remove(Grouped(n, separator), separator) == Plain(n)
  {
    if n < 1000 {
      DigitsOnly(Digits(n), separator);
      Untouched(Digits(n), separator, separator);
    } else {
      GroupedPlain(n / 1000, separator);
      RemoveBetween(Grouped(n / 1000, separator), separator, Padded(n % 1000, 3));
    }
  }

  /** More digits to the right of a numeral. */
  lemma MoreDigits(plain: string, n: nat, w: nat)
    requires AllDigits(plain) && n < Pow10(w)
    ensures AllDigits(plain + Padded(n, w)) && Value(plain + Padded(n, w)) == Value(plain) * Pow10(w) + n
  {
    ValueConcat(plain, Padded(n, w));
    PaddedValue(n, w);
  }

  lemma {:induction false} PlainValue(n: nat)
    ensures Plain(n) != "" && AllDigits(Plain(n)) && Value(Plain(n)) == n
  {
    if n < 1000 {
      DigitsValue(n);
    } else {
      PlainValue(n / 1000);
      assert Pow10(3) == 1000;
      MoreDigits(Plain(n / 1000), n % 1000, 3);
    }
  }

  /** No separator below a thousand, one below a million, more from there on. */
  lemma {:induction false} GroupedCount(n: nat, separator: char)
    requires !IsDigit(separator)
    ensures (Count(Grouped(n, separator), separator) == 0) <==> n < 1000
    ensures (Count(Grouped(n, separator), separator) == 1) <==> 1000 <= n < 1000000
  {
    if n < 1000 {
      DigitsOnly(Digits(n), separator);
      Untouched(Digits(n), separator, separator);
    } else {
      var head, tail := Grouped(n / 1000, separator), Padded(n % 1000, 3);
      GroupedCount(n / 1000, separator);
      DigitsOnly(tail, separator);
      Untouched(tail, separator, separator);
      CountConcat(head + [separator], tail, separator);
      CountConcat(head, [separator], separator);
      assert [separator][1..] == "";
      assert Count([separator], separator) == 1;
    }
  }

  // ----- What the parser makes of a printed amount -----

  /** An amount that is whole and has exactly one separator: 1,000 to 999,999. */
  predicate OneGroup(cents: nat) {
    cents % 100 == 0 && 1000 <= cents / 100 < 1000000
  }

  /** The numeral the parser reads in a printed amount; a single separator is taken for the point. */
  function Numeral(cents: nat): string {
    var n := cents / 100;
    if cents % 100 != 0 then Plain(n) + "." + Padded(cents % 100, 2)
    else if OneGroup(cents) then Plain(n / 1000) + "." + Padded(n % 1000, 3)
    else Plain(n)
  }

  /** Neither a sign nor digits hold a separator. */
  lemma NoSeparators(negative: bool, digits: string)
    requires AllDigits(digits)
    ensures ',' !in Sign(negative) + digits && '.' !in Sign(negative) + digits
  {
  }

  /** A grouped numeral holds only its own separator, and holds it from a thousand on. */
  lemma GroupedSeparators(n: nat, separator: char, other: char)
    requires !IsDigit(separator) && !IsDigit(other) && separator != other
    ensures other !in Grouped(n, separator) && (separator in Grouped(n, separator) <==> n >= 1000)
  {
  }

  /** A head, a mark and digits: where the mark stands last, how often, and what replacing it gives. */
  lemma MarkStands(head: string, mark: char, tail: string)
    requires AllDigits(tail) && !IsDigit(mark)
    ensures var s := head + [mark] + tail;
      && mark in s && LastIndex(s, mark) == |head| && Count(s, mark) == Count(head, mark) + 1
      && Replace(s, mark, '.') == Replace(head, mark, '.') + "." + tail
  {
    var s := head + [mark] + tail;
    assert s[|head|] == mark;
    DigitsOnly(tail, mark);
    Untouched(tail, mark, '.');
    LastIndexBefore(head + [mark], tail, mark);
    CountConcat(head + [mark], tail, mark);
    CountConcat(head, [mark], mark);
    ReplaceConcat(head + [mark], tail, mark, '.');
    ReplaceConcat(head, [mark], mark, '.');
    assert [mark][1..] == "";
    assert Count([mark], mark) == 1 && Replace([mark], mark, '.') == ".";
  }

  /** The same string against another character. */
  lemma OtherMark(head: string, mark: char, tail: string, c: char)
    requires AllDigits(tail) && !IsDigit(c) && c != mark
    ensures var s := head + [mark] + tail;
      LastIndex(s, c) == LastIndex(head, c) && Remove(s, c) == Remove(head, c) + [mark] + tail && (c in s <==> c in head)
  {
    DigitsOnly(tail, c);
    var rest := [mark] + tail;
    assert head + [mark] + tail == head + rest;
    Untouched(rest, c, c);
    LastIndexBefore(head, rest, c);
    RemoveConcat(head, rest, c);
  }

  /** The point stands last after groups, in either spelling. */
  lemma UntangledAfterGroups(head: string, separator: char, point: char, tail: string, plain: string)
    requires (separator == ',' && point == '.') || (separator == '.' && point == ',')
    requires AllDigits(tail) && separator in head && point !in head
    requires Remove(head, separator) == plain && point !in plain
    ensures Untangled(head + [point] + tail) == plain + "." + tail
  {
    var s := head + [point] + tail;
    assert point in s && LastIndex(s, point) == |head| by {
      MarkStands(head, point, tail);
    }
    assert separator in s && LastIndex(s, separator) < |head| && Remove(s, separator) == plain + [point] + tail by {
      OtherMark(head, point, tail, separator);
    }
    assert Replace(plain + [point] + tail, point, '.') == plain + "." + tail by {
      MarkStands(plain, point, tail);
      Untouched(plain, point, '.');
    }
  }

  /** A single mark between digits is read as the point, in either spelling. */
  lemma UntangledSingle(head: string, mark: char, tail: string)
    requires mark == ',' || mark == '.'
    requires AllDigits(tail) && ',' !in head && '.' !in head
    ensures Untangled(head + [mark] + tail) == head + "." + tail
  {
    var s, other := head + [mark] + tail, if mark == ',' then '.' else ',';
    assert mark in s && Count(s, mark) == 1 && Replace(s, mark, '.') == head + "." + tail by {
      MarkStands(head, mark, tail);
      Untouched(head, mark, '.');
    }
    assert other !in s by {
      OtherMark(head, mark, tail, other);
    }
    assert Count(s, other) == 0 by {
      Untouched(s, other, '.');
    }
  }

  /** The sign of a grouped numeral is no separator. */
  lemma SignedGrouped(negative: bool, n: nat, separator: char, other: char)
    requires (separator == ',' && other == '.') || (separator == '.' && other == ',')
    ensures var s := Sign(negative) + Grouped(n, separator);
      && other !in s && (separator in s <==> n >= 1000)
      && Count(s, separator) == Count(Grouped(n, separator), separator)
      && Remove(s, separator) == Sign(negative) + Plain(n)
  {
    GroupedSeparators(n, separator, other);
    GroupedPlain(n, separator);
    CountConcat(Sign(negative), Grouped(n, separator), separator);
    RemoveConcat(Sign(negative), Grouped(n, separator), separator);
    Untouched(Sign(negative), separator, other);
  }

  lemma PointedParts(negative: bool, cents: nat, separator: char, point: char)
    requires cents % 100 != 0
    ensures var n, tail := cents / 100, Padded(cents % 100, 2);
      && Sign(negative) + Spelled(cents, separator, point) == Sign(negative) + Grouped(n, separator) + [point] + tail
      && Sign(negative) + Numeral(cents) == Sign(negative) + Plain(n) + "." + tail
  {
    var n, tail := cents / 100, Padded(cents % 100, 2);
    assert Spelled(cents, separator, point) == Grouped(n, separator) + [point] + tail;
    assert Numeral(cents) == Plain(n) + "." + tail;
  }

  /** A pointed amount: the last separator is the point, in both spellings. */
  lemma UntangledPointed(negative: bool, cents: nat, separator: char, point: char)
    requires (separator == ',' && point == '.') || (separator == '.' && point == ',')
    requires cents % 100 != 0
    ensures Untangled(Sign(negative) + Spelled(cents, separator, point)) == Sign(negative) + Numeral(cents)
  {
    var n, tail := cents / 100, Padded(cents % 100, 2);
    var head, plain := Sign(negative) + Grouped(n, separator), Sign(negative) + Plain(n);
    PointedParts(negative, cents, separator, point);
    SignedGrouped(negative, n, separator, point);
    if n < 1000 {
      UntangledSingle(head, point, tail);
    } else {
      PlainValue(n);
      NoSeparators(negative, Plain(n));
      UntangledAfterGroups(head, separator, point, tail, plain);
    }
  }

  /** A whole amount: a single separator is taken for the point, several are dropped, in both spellings. */
  lemma UntangledWhole(negative: bool, cents: nat, separator: char, point: char)
    requires (separator == ',' && point == '.') || (separator == '.' && point == ',')
    requires cents % 100 == 0
    ensures Untangled(Sign(negative) + Spelled(cents, separator, point)) == Sign(negative) + Numeral(cents)
  {
    var n := cents / 100;
    if OneGroup(cents) {
      UntangledOneGroup(negative, n, separator);
    } else {
      UntangledGroups(negative, n, separator, point);
    }
  }

  lemma UntangledOneGroup(negative: bool, n: nat, separator: char)
    requires (separator == ',' || separator == '.') && 1000 <= n < 1000000
    ensures Untangled(Sign(negative) + Grouped(n, separator)) == Sign(negative) + (Plain(n / 1000) + "." + Padded(n % 1000, 3))
  {
    var head, tail := Sign(negative) + Digits(n / 1000), Padded(n % 1000, 3);
    assert Grouped(n / 1000, separator) == Digits(n / 1000);
    assert Sign(negative) + Grouped(n, separator) == head + [separator] + tail;
    assert Sign(negative) + (Plain(n / 1000) + "." + tail) == head + "." + tail;
    NoSeparators(negative, Digits(n / 1000));
    UntangledSingle(head, separator, tail);
  }

  /** Without a separator there is nothing to do; two or more of the same are dropped. */
  lemma UntangledGroups(negative: bool, n: nat, separator: char, point: char)
    requires (separator == ',' && point == '.') || (separator == '.' && point == ',')
    requires n < 1000 || 1000000 <= n
    ensures Untangled(Sign(negative) + Grouped(n, separator)) == Sign(negative) + Plain(n)
  {
    SignedGrouped(negative, n, separator, point);
    GroupedCount(n, separator);
    Untouched(Sign(negative) + Grouped(n, separator), point, '.');
  }

  /** What the numeral is worth: the amount, or a thousandth of it when it has exactly one separator. */
  lemma NumeralValue(cents: nat)
    ensures ReadUnsigned(Numeral(cents)) ==
      Some(if OneGroup(cents) then cents as real / 100000.0 else cents as real / 100.0)
  {
    if cents % 100 != 0 {
      PointedValue(cents);
    } else if OneGroup(cents) {
      OneGroupValue(cents);
    } else {
      PlainValue(cents / 100);
      ReadWhole(Plain(cents / 100));
    }
  }

  lemma PointedValue(cents: nat)
    ensures ReadUnsigned(Plain(cents / 100) + "." + Padded(cents % 100, 2)) == Some(cents as real / 100.0)
  {
    assert PowReal(2) == 100.0 && Pow10(2) == 100;
    PlainValue(cents / 100);
    MoreDigits(Plain(cents / 100), cents % 100, 2);
    DivMod(cents, 100);
    ReadScaled(Plain(cents / 100), Padded(cents % 100, 2), cents, 100.0);
  }

  lemma OneGroupValue(cents: nat)
    requires OneGroup(cents)
    ensures ReadUnsigned(Plain(cents / 100 / 1000) + "." + Padded(cents / 100 % 1000, 3)) == Some(cents as real / 100000.0)
  {
    ThousandthValue(cents / 100);
    Hundredfold(cents / 100);
  }

  lemma ThousandthValue(n: nat)
    ensures ReadUnsigned(Plain(n / 1000) + "." + Padded(n % 1000, 3)) == Some(n as real / 1000.0)
  {
    assert PowReal(3) == 1000.0 && Pow10(3) == 1000;
    PlainValue(n / 1000);
    MoreDigits(Plain(n / 1000), n % 1000, 3);
    DivMod(n, 1000);
    ReadScaled(Plain(n / 1000), Padded(n % 1000, 3), n, 1000.0);
  }

  lemma Hundredfold(n: nat)
    ensures (100 * n) as real / 100000.0 == n as real / 1000.0
  {
  }

  lemma NumeralStart(cents: nat)
    ensures Numeral(cents) != "" && Numeral(cents)[0] != '-'
  {
    PlainValue(cents / 100);
    PlainValue(cents / 100 / 1000);
  }

  lemma SpellingKept(negative: bool, cents: nat, separator: char, point: char)
    requires (separator == ',' && point == '.') || (separator == '.' && point == ',')
    ensures Keep(Sign(negative) + Spelled(cents, separator, point)) == Sign(negative) + Spelled(cents, separator, point)
  {
    GroupedChars(cents / 100, separator);
    KeepAll(Sign(negative) + Spelled(cents, separator, point));
  }

  /** A currency leaves nothing behind when the parser keeps digits, separators and minus signs. */
  lemma KeptAmount(currency: string, body: string)
    requires forall i :: 0 <= i < |currency| ==> !Kept(currency[i])
    requires Keep(body) == body
    ensures Keep(Text.Strip(currency + " " + body)) == body
  {
    KeepStrip((currency + " ") + body);
    KeepConcat(currency + " ", body);
    KeepNone(currency + " ");
  }

  /** What either spelling of an amount parses to. */
  function ParsedAs(cents: int): real {
    if OneGroup(Magnitude(cents)) then cents as real / 100000.0 else cents as real / 100.0
  }

  lemma UntangledSpelling(negative: bool, cents: nat, separator: char, point: char)
    requires (separator == ',' && point == '.') || (separator == '.' && point == ',')
    ensures Untangled(Sign(negative) + Spelled(cents, separator, point)) == Sign(negative) + Numeral(cents)
  {
    if cents % 100 == 0 {
      UntangledWhole(negative, cents, separator, point);
    } else {
      UntangledPointed(negative, cents, separator, point);
    }
  }

  /** Untangling and reading the spelling of an amount. */
  lemma SpellingReads(cents: int, separator: char, point: char)
    requires (separator == ',' && point == '.') || (separator == '.' && point == ',')
    ensures ReadDecimal(Untangled(Sign(cents < 0) + Spelled(Magnitude(cents), separator, point))) == Some(ParsedAs(cents))
  {
    var n, negative := Magnitude(cents), cents < 0;
    UntangledSpelling(negative, n, separator, point);
    NumeralReads(cents);
  }

  lemma NumeralReads(cents: int)
    ensures ReadDecimal(Sign(cents < 0) + Numeral(Magnitude(cents))) == Some(ParsedAs(cents))
  {
    NumeralValue(Magnitude(cents));
    NumeralStart(Magnitude(cents));
    ReadSigned(cents < 0, Numeral(Magnitude(cents)));
    SignedValue(cents);
  }

  lemma SignedValue(cents: int)
    ensures var n := Magnitude(cents);
      Signed(cents < 0, Some(if OneGroup(n) then n as real / 100000.0 else n as real / 100.0)) == Some(ParsedAs(cents))
  {
  }

  lemma SpellingParses(currency: string, cents: int, separator: char, point: char)
    requires forall i :: 0 <= i < |currency| ==> !Kept(currency[i])
    requires (separator == ',' && point == '.') || (separator == '.' && point == ',')
    ensures ParseAmount(Typed(currency + " " + Sign(cents < 0) + Spelled(Magnitude(cents), separator, point))) == Some(ParsedAs(cents))
  {
    var body := Sign(cents < 0) + Spelled(Magnitude(cents), separator, point);
    SpellingReads(cents, separator, point);
    SpellingKept(cents < 0, Magnitude(cents), separator, point);
    KeptAmount(currency, body);
    GroupedChars(Magnitude(cents) / 100, separator);
    assert |body| > 0 && currency + " " + Sign(cents < 0) + Spelled(Magnitude(cents), separator, point) == currency + " " + body;
  }

  /**
     Printing an amount and parsing it gives the amount back, except exactly when it is whole and has
     one thousands separator; then it gives a thousandth of it.
   */
  lemma PrintThenParse(currency: string, cents: int)
    requires forall i :: 0 <= i < |currency| ==> !Kept(currency[i])
    ensures var parsed := ParseAmount(Typed(FormatCurrencyAmount(currency, cents)));
      && (parsed == Some(cents as real / 100.0) <==> !OneGroup(Magnitude(cents)))
      && (OneGroup(Magnitude(cents)) ==> parsed == Some(cents as real / 100000.0))
  {
    SpellingParses(currency, cents, ',', '.');
  }

  /** The European spelling of any amount parses to what the printed one parses to. */
  lemma EuropeanParsesAlike(currency: string, cents: int)
    requires forall i :: 0 <= i < |currency| ==> !Kept(currency[i])
    ensures ParseAmount(Typed(EuropeanAmount(currency, cents))) == ParseAmount(Typed(FormatCurrencyAmount(currency, cents)))
  {
    SpellingParses(currency, cents, ',', '.');
    SpellingParses(currency, cents, '.', ',');
  }
}
