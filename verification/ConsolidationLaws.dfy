/** Round trips, the algebra of merging, order independence of the snapshot, and its rounding error. */
module ConsolidationLaws {
  import opened Wrappers
  import opened Numerals
  import opened Consolidation
  import Text

  // ----- Text round trip -----

  lemma CentsTextReads(c: int)
    ensures ReadDecimal(CentsText(c)) == Some(c as real / 100.0)
  {
    var n: nat := if c < 0 then -c else c;
    var text := Digits(n / 100) + "." + Padded(n % 100, 2);
    CentsDigits(n);
    CentsSign(c, text);
  }

  /** The text has a minus sign exactly below zero, at least one digit before its point, and two after it. */
  lemma CentsTextShape(c: int)
    ensures var text := CentsText(c); var n := |text|;
      && n >= 4 && text[n - 3] == '.' && IsDigit(text[n - 1]) && IsDigit(text[n - 2]) && IsDigit(text[n - 4])
      && (text[0] == '-' <==> c < 0)
      && forall i :: (if c < 0 then 1 else 0) <= i < n && i != n - 3 ==> IsDigit(text[i])
  {
    var m: nat := if c < 0 then -c else c;
    var digits, fraction := Digits(m / 100), Padded(m % 100, 2);
    assert AllDigits(digits) && AllDigits(fraction) && |fraction| == 2;
    assert CentsText(c) == Sign(c < 0) + (digits + "." + fraction);
  }

  lemma CentsSign(c: int, text: string)
    requires text != "" && text[0] != '-'
    requires ReadUnsigned(text) == Some((if c < 0 then -c else c) as real / 100.0)
    ensures ReadDecimal(Sign(c < 0) + text) == Some(c as real / 100.0)
  {
    ReadSigned(c < 0, text);
    assert (-c) as real == -(c as real);
  }

  lemma CentsDigits(n: nat)
    ensures ReadUnsigned(Digits(n / 100) + "." + Padded(n % 100, 2)) == Some(n as real / 100.0)
  {
    assert PowReal(2) == 100.0 && Pow10(2) == 100;
    CentsDigitsValue(n / 100, n % 100);
    DivMod(n, 100);
    ReadScaled(Digits(n / 100), Padded(n % 100, 2), n, 100.0);
  }

  lemma CentsDigitsValue(units: nat, cents: nat)
    requires cents < 100
    ensures AllDigits(Digits(units) + Padded(cents, 2)) && Value(Digits(units) + Padded(cents, 2)) == units * 100 + cents
  {
    assert Pow10(2) == 100;
    DigitsValue(units);
    PaddedValue(cents, 2);
    ValueConcat(Digits(units), Padded(cents, 2));
  }

  /** Rounding an amount that is already in cents changes nothing. */
  lemma CentsExact(c: int)
    ensures Cents(c as real / 100.0) == c
  {
  }

  /** Half a cent rounds away from zero. */
  lemma CentsHalfAway(c: nat)
    ensures Cents((c as real + 0.5) / 100.0) == c + 1
    ensures Cents(-((c as real + 0.5) / 100.0)) == -(c + 1)
  {
    var x := (c as real + 0.5) / 100.0;
    assert x * 100.0 + 0.5 == (c + 1) as real;
  }

  /** Rounding moves an amount by half a cent at most. */
  lemma CentsNear(x: real)
    ensures -0.005 <= Cents(x) as real / 100.0 - x <= 0.005
  {
  }

  /** The cents that a text stands for. */
  function TextCents(text: string): int {
    Cents(TextAmount(text))
  }

  lemma TextCentsExact(c: int)
    ensures TextAmount(CentsText(c)) == c as real / 100.0 && TextCents(CentsText(c)) == c
  {
    CentsTextReads(c);
    CentsExact(c);
  }

  predicate Upper(currency: string) {
    Text.Upper(currency) == currency
  }

  ghost predicate UpperMoney(amounts: Money) {
    forall currency :: currency in amounts ==> Upper(currency)
  }

  /** Every code is in upper case. */
  ghost predicate UpperCodes(wire: Wire) {
    forall currency :: currency in wire ==> Upper(currency)
  }

  /** A wire as the consolidation stores it: codes in upper case, and every text that of its cents. */
  ghost predicate Normal(wire: Wire) {
    UpperCodes(wire) && forall currency :: currency in wire ==> CentsText(TextCents(wire[currency])) == wire[currency]
  }

  lemma SerializedNormal(amounts: Money)
    requires UpperMoney(amounts)
    ensures Normal(Serialize(amounts))
  {
    forall currency | currency in Serialize(amounts)
      ensures CentsText(TextCents(Serialize(amounts)[currency])) == Serialize(amounts)[currency]
    {
      TextCentsExact(Cents(amounts[currency]));
    }
  }

  /** Whatever the wire, what is read from it is in upper case. */
  lemma DeserializedUpper(wire: Wire)
    ensures UpperMoney(Deserialize(wire))
  {
    forall currency | currency in Deserialize(wire)
      ensures Upper(currency)
    {
      var s :| s in wire && Text.Upper(s) == currency;
      Text.UpperTwice(s);
    }
  }

  /** What is read for a code: the amount of its last spelling. */
  lemma DeserializeSpelled(wire: Wire, currency: string, s: string)
    requires LastSpelling(wire, currency, s)
    ensures currency in Deserialize(wire) && Deserialize(wire)[currency] == TextAmount(wire[s])
  {
    CodesSpelled(wire, s);
    assert currency in CodesOf(wire);
  }

  /** Codes in upper case are read as they stand. */
  lemma DeserializeAt(wire: Wire, currency: string)
    requires UpperCodes(wire)
    ensures currency in Deserialize(wire) <==> currency in wire
    ensures currency in wire ==> Deserialize(wire)[currency] == TextAmount(wire[currency])
  {
    if currency in wire {
      assert forall t :: t in wire ==> Upper(t);
      DeserializeSpelled(wire, currency, currency);
    }
    if currency in Deserialize(wire) {
      var s :| s in wire && Text.Upper(s) == currency;
      assert Upper(s);
    }
  }

  lemma DeserializeKeys(wire: Wire)
    requires UpperCodes(wire)
    ensures Deserialize(wire).Keys == wire.Keys
  {
    forall currency
      ensures currency in Deserialize(wire) <==> currency in wire
    {
      DeserializeAt(wire, currency);
    }
  }

  /**
     Reading back what was written gives the codes in upper case, each with the amount of its last
     spelling rounded to cents; codes that are in upper case already come back as they were.
   */
  lemma DeserializeSerialize(amounts: Money, currency: string)
    ensures var back := Deserialize(Serialize(amounts));
      && (currency in back <==> exists s :: s in amounts && Text.Upper(s) == currency)
      && (forall s :: LastSpelling(Serialize(amounts), currency, s) ==>
        currency in back && back[currency] == Cents(amounts[s]) as real / 100.0)
      && (UpperMoney(amounts) ==>
        && (currency in back <==> currency in amounts)
        && (currency in amounts ==> back[currency] == Cents(amounts[currency]) as real / 100.0))
  {
    var wire := Serialize(amounts);
    forall s | LastSpelling(wire, currency, s)
      ensures currency in Deserialize(wire) && Deserialize(wire)[currency] == Cents(amounts[s]) as real / 100.0
    {
      DeserializeSpelled(wire, currency, s);
      TextCentsExact(Cents(amounts[s]));
    }
    if UpperMoney(amounts) {
      DeserializeAt(wire, currency);
      if currency in amounts {
        TextCentsExact(Cents(amounts[currency]));
      }
    }
  }

  predicate SameAt(a: Wire, b: Wire, currency: string) {
    (currency in a <==> currency in b) && (currency in a && currency in b ==> a[currency] == b[currency])
  }

  lemma SameEverywhere(a: Wire, b: Wire)
    requires forall currency :: SameAt(a, b, currency)
    ensures a == b
  {
    forall currency
      ensures currency in a.Keys <==> currency in b.Keys
    {
      assert SameAt(a, b, currency);
    }
    forall currency | currency in a
      ensures currency in b && a[currency] == b[currency]
    {
      assert SameAt(a, b, currency);
    }
  }

  lemma NormalRoundTripAt(wire: Wire, currency: string)
    requires Normal(wire)
    ensures SameAt(Serialize(Deserialize(wire)), wire, currency)
  {
    DeserializeAt(wire, currency);
  }

  lemma NormalRoundTrip(wire: Wire)
    requires Normal(wire)
    ensures Serialize(Deserialize(wire)) == wire
  {
    forall currency
      ensures SameAt(Serialize(Deserialize(wire)), wire, currency)
    {
      NormalRoundTripAt(wire, currency);
    }
    SameEverywhere(Serialize(Deserialize(wire)), wire);
  }

  /** Writing again what was read from a written dictionary gives that dictionary, if and only if its codes are in upper case. */
  lemma SerializeDeserialize(amounts: Money)
    ensures Serialize(Deserialize(Serialize(amounts))) == Serialize(amounts) <==> UpperMoney(amounts)
  {
    if UpperMoney(amounts) {
      SerializedNormal(amounts);
      NormalRoundTrip(Serialize(amounts));
    } else {
      DeserializedUpper(Serialize(amounts));
      var currency :| currency in amounts && !Upper(currency);
      assert currency !in Deserialize(Serialize(amounts));
      assert currency in Serialize(amounts) && currency !in Serialize(Deserialize(Serialize(amounts)));
    }
  }

  // ----- The algebra of merging -----

  function CentsOf(wire: Wire, currency: string): int {
    if currency in wire then TextCents(wire[currency]) else 0
  }

  /** In normal wires the same cents are the same text. */
  lemma SameText(a: Wire, b: Wire, currency: string)
    requires Normal(a) && Normal(b) && currency in a && currency in b
    requires CentsOf(a, currency) == CentsOf(b, currency)
    ensures a[currency] == b[currency]
  {
  }

  /** Normal wires with the same currencies and the same cents are the same. */
  lemma SameWires(a: Wire, b: Wire)
    requires Normal(a) && Normal(b) && a.Keys == b.Keys
    requires forall c :: CentsOf(a, c) == CentsOf(b, c)
    ensures a == b
  {
    forall c | c in a
      ensures a[c] == b[c]
    {
      SameText(a, b, c);
    }
  }

  lemma NormalAmount(wire: Wire, currency: string)
    requires Normal(wire)
    ensures AmountIn(Deserialize(wire), currency) == CentsOf(wire, currency) as real / 100.0
  {
    DeserializeAt(wire, currency);
    if currency in wire {
      TextCentsExact(TextCents(wire[currency]));
    }
  }

  /** Before it is written, a merged amount is the sum of the two amounts of cents. */
  lemma AddedAmount(a: Wire, b: Wire, currency: string)
    requires Normal(a) && Normal(b)
    ensures AmountIn(AddMoney(Deserialize(a), Deserialize(b)), currency)
      == (CentsOf(a, currency) + CentsOf(b, currency)) as real / 100.0
  {
    NormalAmount(a, currency);
    NormalAmount(b, currency);
  }

  /** Whatever is merged, the result is normal. */
  lemma MergeWiresNormal(a: Wire, b: Wire)
    ensures Normal(MergeWires(a, b))
  {
    DeserializedUpper(a);
    DeserializedUpper(b);
    SerializedNormal(AddMoney(Deserialize(a), Deserialize(b)));
  }

  /** Writing an amount and taking its cents is rounding it. */
  lemma SerializedCents(amounts: Money, currency: string)
    ensures CentsOf(Serialize(amounts), currency) == Cents(AmountIn(amounts, currency))
  {
    if currency in amounts {
      TextCentsExact(Cents(amounts[currency]));
    }
  }

  /** Merging adds cents exactly: writing and reading the totals once more adds no error. */
  lemma MergeCents(a: Wire, b: Wire, currency: string)
    requires Normal(a) && Normal(b)
    ensures CentsOf(MergeWires(a, b), currency) == CentsOf(a, currency) + CentsOf(b, currency)
  {
    AddedAmount(a, b, currency);
    SerializedCents(AddMoney(Deserialize(a), Deserialize(b)), currency);
    CentsExact(CentsOf(a, currency) + CentsOf(b, currency));
  }

  lemma MergeWiresCommute(a: Wire, b: Wire)
    requires Normal(a) && Normal(b)
    ensures MergeWires(a, b) == MergeWires(b, a)
  {
    MergeKeysEitherWay(a, b);
    SameCentsEitherWay(a, b);
    SameWires(MergeWires(a, b), MergeWires(b, a));
  }

  lemma MergeKeysEitherWay(a: Wire, b: Wire)
    requires UpperCodes(a) && UpperCodes(b)
    ensures MergeWires(a, b).Keys == MergeWires(b, a).Keys
    ensures Normal(MergeWires(a, b)) && Normal(MergeWires(b, a))
  {
    MergeKeys(a, b);
    MergeKeys(b, a);
    MergeWiresNormal(a, b);
    MergeWiresNormal(b, a);
  }

  lemma SameCentsEitherWay(a: Wire, b: Wire)
    requires Normal(a) && Normal(b)
    ensures forall k :: CentsOf(MergeWires(a, b), k) == CentsOf(MergeWires(b, a), k)
  {
    forall k
      ensures CentsOf(MergeWires(a, b), k) == CentsOf(MergeWires(b, a), k)
    {
      MergeCents(a, b, k);
      MergeCents(b, a, k);
    }
  }

  lemma MergeCentsTwice(a: Wire, b: Wire, c: Wire, k: string)
    requires Normal(a) && Normal(b) && Normal(c)
    ensures CentsOf(MergeWires(MergeWires(a, b), c), k) == CentsOf(MergeWires(a, MergeWires(b, c)), k)
  {
    MergeWiresNormal(a, b);
    MergeWiresNormal(b, c);
    MergeCents(a, b, k);
    MergeCents(b, c, k);
    MergeCents(MergeWires(a, b), c, k);
    MergeCents(a, MergeWires(b, c), k);
  }

  lemma MergeKeys(a: Wire, b: Wire)
    requires UpperCodes(a) && UpperCodes(b)
    ensures MergeWires(a, b).Keys == a.Keys + b.Keys
  {
    DeserializeKeys(a);
    DeserializeKeys(b);
  }

  lemma MergeKeysTwice(a: Wire, b: Wire, c: Wire)
    requires UpperCodes(a) && UpperCodes(b) && UpperCodes(c)
    ensures MergeWires(MergeWires(a, b), c).Keys == MergeWires(a, MergeWires(b, c)).Keys
  {
    var ab, bc := MergeWires(a, b), MergeWires(b, c);
    MergeWiresNormal(a, b);
    MergeWiresNormal(b, c);
    MergeKeys(a, b);
    MergeKeys(b, c);
    MergeKeysOnce(a, b, c, ab, bc);
  }

  lemma MergeKeysOnce(a: Wire, b: Wire, c: Wire, ab: Wire, bc: Wire)
    requires UpperCodes(a) && UpperCodes(c) && UpperCodes(ab) && UpperCodes(bc)
    requires ab.Keys == a.Keys + b.Keys && bc.Keys == b.Keys + c.Keys
    ensures MergeWires(ab, c).Keys == MergeWires(a, bc).Keys
  {
    MergeKeys(ab, c);
    MergeKeys(a, bc);
  }

  lemma SameCentsEitherGrouping(a: Wire, b: Wire, c: Wire)
    requires Normal(a) && Normal(b) && Normal(c)
    ensures forall k :: CentsOf(MergeWires(MergeWires(a, b), c), k) == CentsOf(MergeWires(a, MergeWires(b, c)), k)
  {
    forall k
      ensures CentsOf(MergeWires(MergeWires(a, b), c), k) == CentsOf(MergeWires(a, MergeWires(b, c)), k)
    {
      MergeCentsTwice(a, b, c, k);
    }
  }

  lemma MergeWiresAssociate(a: Wire, b: Wire, c: Wire)
    requires Normal(a) && Normal(b) && Normal(c)
    ensures MergeWires(MergeWires(a, b), c) == MergeWires(a, MergeWires(b, c))
  {
    MergeKeysTwice(a, b, c);
    MergeWiresNormal(MergeWires(a, b), c);
    MergeWiresNormal(a, MergeWires(b, c));
    SameCentsEitherGrouping(a, b, c);
    SameWires(MergeWires(MergeWires(a, b), c), MergeWires(a, MergeWires(b, c)));
  }

  lemma MergeWiresEmpty(a: Wire)
    requires Normal(a)
    ensures MergeWires(a, map[]) == a && MergeWires(map[], a) == a
  {
    SameCentsEmpty(a);
    MergedEmptyKeys(a);
    MergeWiresNormal(a, map[]);
    SameWires(MergeWires(a, map[]), a);
    MergeEmptyEitherWay(a);
  }

  lemma MergedEmptyKeys(a: Wire)
    requires Normal(a)
    ensures MergeWires(a, map[]).Keys == a.Keys
  {
    MergeKeys(a, map[]);
  }

  lemma MergeEmptyEitherWay(a: Wire)
    requires Normal(a)
    ensures MergeWires(a, map[]) == MergeWires(map[], a)
  {
    MergeWiresCommute(a, map[]);
  }

  lemma SameCentsEmpty(a: Wire)
    requires Normal(a)
    ensures forall c :: CentsOf(MergeWires(a, map[]), c) == CentsOf(a, c)
  {
    forall c
      ensures CentsOf(MergeWires(a, map[]), c) == CentsOf(a, c)
    {
      MergeCents(a, map[], c);
    }
  }

  ghost predicate NormalBucket(b: Bucket) {
    && b.counts.Keys == (set key | key in METRIC_KEYS)
    && Normal(b.deals) && Normal(b.balances)
  }

  lemma MergeNormal(a: Bucket, b: Bucket)
    requires NormalBucket(a) && NormalBucket(b)
    ensures NormalBucket(Merge(a, b))
    ensures forall key :: key in METRIC_KEYS ==> Merge(a, b).counts[key] == a.counts[key] + b.counts[key]
  {
    MergeWiresNormal(a.deals, b.deals);
    MergeWiresNormal(a.balances, b.balances);
  }

  /** On normal buckets merging is commutative. */
  lemma MergeCommutes(a: Bucket, b: Bucket)
    requires NormalBucket(a) && NormalBucket(b)
    ensures Merge(a, b) == Merge(b, a)
  {
    MergeNormal(a, b);
    MergeNormal(b, a);
    assert Merge(a, b).counts == Merge(b, a).counts;
    MergeWiresCommute(a.deals, b.deals);
    MergeWiresCommute(a.balances, b.balances);
  }

  lemma CountsAssociate(a: Bucket, b: Bucket, c: Bucket)
    requires NormalBucket(a) && NormalBucket(b) && NormalBucket(c)
    ensures Merge(Merge(a, b), c).counts == Merge(a, Merge(b, c)).counts
  {
    MergeNormal(a, b);
    MergeNormal(b, c);
    MergeNormal(Merge(a, b), c);
    MergeNormal(a, Merge(b, c));
    var left, right := Merge(Merge(a, b), c).counts, Merge(a, Merge(b, c)).counts;
    assert left.Keys == right.Keys;
    assert forall key :: key in left ==> left[key] == right[key];
  }

  /** And associative. */
  lemma MergeAssociates(a: Bucket, b: Bucket, c: Bucket)
    requires NormalBucket(a) && NormalBucket(b) && NormalBucket(c)
    ensures Merge(Merge(a, b), c) == Merge(a, Merge(b, c))
  {
    CountsAssociate(a, b, c);
    MergeWiresAssociate(a.deals, b.deals, c.deals);
    MergeWiresAssociate(a.balances, b.balances, c.balances);
  }

  /** And the empty bucket is its identity, on normal buckets and on no others: merging into it gives a normal bucket. */
  lemma MergeEmpty(a: Bucket)
    ensures Merge(EmptyBucket(), a) == a <==> NormalBucket(a)
    ensures NormalBucket(a) ==> Merge(a, EmptyBucket()) == a
  {
    if NormalBucket(a) {
      NormalMergeEmpty(a);
    } else {
      MergedIntoEmpty(a);
    }
  }

  lemma NormalMergeEmpty(a: Bucket)
    requires NormalBucket(a)
    ensures Merge(EmptyBucket(), a) == a == Merge(a, EmptyBucket())
  {
    CountsEmpty(a.counts);
    MergeWiresEmpty(a.deals);
    MergeWiresEmpty(a.balances);
  }

  lemma CountsEmpty(counts: map<string, int>)
    requires counts.Keys == (set key | key in METRIC_KEYS)
    ensures var none := EmptyBucket().counts;
      MergeCounts(counts, none, METRIC_KEYS) == counts == MergeCounts(none, counts, METRIC_KEYS)
  {
  }

  lemma MergedIntoEmpty(a: Bucket)
    ensures NormalBucket(Merge(EmptyBucket(), a))
  {
    MergeWiresNormal(map[], a.deals);
    MergeWiresNormal(map[], a.balances);
  }

  // ----- The order of the links -----

  /** Codes are upper-cased when they are added. */
  lemma {:induction false} SumRowsUpper(rows: seq<Row>)
    ensures UpperMoney(SumRows(rows))
  {
    if rows != [] {
      var row := rows[|rows| - 1];
      SumRowsUpper(rows[..|rows| - 1]);
      Text.UpperTwice(Text.Strip(if row.currency == "" then "USD" else row.currency));
    }
  }

  lemma TenantBucketNormal(t: Tenant)
    ensures NormalBucket(TenantBucket(t))
  {
    SumRowsUpper(t.deals);
    SumRowsUpper(BalanceRows(t.debts));
    SerializedNormal(SumRows(t.deals));
    SerializedNormal(SumRows(BalanceRows(t.debts)));
  }

  lemma {:induction false} GroupNormal(links: seq<Link>)
    ensures NormalBucket(GroupSnapshot(links).totals)
  {
    if links != [] {
      GroupNormal(links[..|links| - 1]);
      TenantBucketNormal(links[|links| - 1].tenant);
      MergeNormal(GroupSnapshot(links[..|links| - 1]).totals, TenantBucket(links[|links| - 1].tenant));
    }
  }

  /** The totals hold upper-case codes only, and writing again what is read from them gives them. */
  lemma GroupUpperCodes(links: seq<Link>)
    ensures UpperCodes(GroupSnapshot(links).totals.deals) && UpperCodes(GroupSnapshot(links).totals.balances)
    ensures var totals := GroupSnapshot(links).totals;
      Serialize(Deserialize(totals.deals)) == totals.deals && Serialize(Deserialize(totals.balances)) == totals.balances
  {
    GroupNormal(links);
    NormalRoundTrip(GroupSnapshot(links).totals.deals);
    NormalRoundTrip(GroupSnapshot(links).totals.balances);
  }

  /** Two buckets can be merged into a third in either order. */
  lemma MergesCommute(t: Bucket, a: Bucket, b: Bucket)
    requires NormalBucket(t) && NormalBucket(a) && NormalBucket(b)
    ensures Merge(Merge(t, a), b) == Merge(Merge(t, b), a)
  {
    MergeAssociates(t, a, b);
    MergeAssociates(t, b, a);
    MergeCommutes(a, b);
  }

  /** Two links can be added in either order. */
  lemma AddLinksCommute(s: Snapshot, x: Link, y: Link)
    requires NormalBucket(s.totals)
    ensures AddLink(AddLink(s, x), y) == AddLink(AddLink(s, y), x)
  {
    AddTotalsCommute(s.totals, x, y);
  }

  lemma AddTotalsCommute(t: Bucket, x: Link, y: Link)
    requires NormalBucket(t)
    ensures AddTotals(AddTotals(t, x), y) == AddTotals(AddTotals(t, y), x)
  {
    TenantBucketNormal(x.tenant);
    TenantBucketNormal(y.tenant);
    MergesCommute(t, TenantBucket(x.tenant), TenantBucket(y.tenant));
  }

  lemma LastTwoCommute(links: seq<Link>, x: Link, y: Link)
    ensures AddLink(AddLink(GroupSnapshot(links), x), y) == AddLink(AddLink(GroupSnapshot(links), y), x)
  {
    GroupNormal(links);
    AddLinksCommute(GroupSnapshot(links), x, y);
  }

  lemma SnapshotSnoc(links: seq<Link>, y: Link, all: seq<Link>)
    requires all == links + [y]
    ensures GroupSnapshot(all) == AddLink(GroupSnapshot(links), y)
  {
    assert all[..|links|] == links;
  }

  /** A link in the middle can be added last. */
  lemma {:induction false} LinkLast(a: seq<Link>, x: Link, b: seq<Link>)
    ensures GroupSnapshot(a + [x] + b) == AddLink(GroupSnapshot(a + b), x)
  {
    if b == [] {
      assert a + [x] + b == a + [x] && a + b == a;
      SnapshotSnoc(a, x, a + [x]);
    } else {
      var init, y := b[..|b| - 1], b[|b| - 1];
      assert b == init + [y];
      LinkLast(a, x, init);
      LinkLastStep(a, x, init, y, a + [x] + init, a + init);
    }
  }

  lemma LinkLastStep(a: seq<Link>, x: Link, init: seq<Link>, y: Link, having: seq<Link>, lacking: seq<Link>)
    requires having == a + [x] + init && lacking == a + init
    requires GroupSnapshot(having) == AddLink(GroupSnapshot(lacking), x)
    ensures GroupSnapshot(a + [x] + (init + [y])) == AddLink(GroupSnapshot(a + (init + [y])), x)
  {
    assert a + [x] + (init + [y]) == having + [y];
    assert a + (init + [y]) == lacking + [y];
    SnapshotSnoc(having, y, having + [y]);
    SnapshotSnoc(lacking, y, lacking + [y]);
    LastTwoCommute(lacking, x, y);
  }

  /** The snapshot of a group does not depend on the order of its links. */
  lemma {:induction false} OrderIndependent(links: seq<Link>, others: seq<Link>)
    requires multiset(links) == multiset(others)
    ensures GroupSnapshot(links) == GroupSnapshot(others)
  {
    if links == [] {
      assert |others| == |multiset(others)| == 0;
    } else {
      var n, x := |links| - 1, links[|links| - 1];
      assert links == links[..n] + [x];
      assert x in multiset(others);
      var i :| 0 <= i < |others| && others[i] == x;
      var a, b := others[..i], others[i + 1..];
      assert others == a + [x] + b;
      assert multiset(a + b) == multiset(others) - multiset{x};
      assert multiset(links[..n]) == multiset(links) - multiset{x};
      OrderIndependent(links[..n], a + b);
      LinkLast(a, x, b);
    }
  }

  /** How many links have a mode. */
  function InMode(links: seq<Link>, mode: Mode): nat {
    if links == [] then 0
    else InMode(links[..|links| - 1], mode) + if links[|links| - 1].mode == mode then 1 else 0
  }

  /** Every link is counted once, under its own mode; the included ones are those not blocked. */
  lemma {:induction false} LinksPartition(links: seq<Link>)
    ensures var s := GroupSnapshot(links);
      && s.blocked == InMode(links, Blocked) && s.full == InMode(links, Full) && s.aggregate == InMode(links, AggregateOnly)
      && s.blocked + s.full + s.aggregate == |links| && s.included == s.full + s.aggregate
  {
    if links != [] {
      LinksPartition(links[..|links| - 1]);
    }
  }

  /** The counts that a dashboard shows. */
  predicate Visible(key: string) {
    || key == "entity_count" || key == "open_deals_count" || key == "won_deals_count" || key == "lost_deals_count"
    || key == "pending_activities_count" || key == "overdue_activities_count" || key == "documents_count"
    || key == "expiring_documents_count" || key == "open_proposals_count" || key == "open_collections_count"
    || key == "overdue_collections_count"
  }

  lemma VisibleKeys(key: string)
    ensures Visible(key) <==> key in METRIC_KEYS
  {
  }

  /** A count summed over the tenants that are not blocked. */
  function SumOfCounts(links: seq<Link>, key: string): int {
    if links == [] then 0
    else
      var link := links[|links| - 1];
      SumOfCounts(links[..|links| - 1], key)
      + if link.mode == Blocked || key !in link.tenant.counts then 0 else link.tenant.counts[key]
  }

  /** Each visible count of the totals is the sum of that count over the included tenants, and the totals have no other. */
  lemma {:induction false} GroupCounts(links: seq<Link>, key: string)
    ensures var counts := GroupSnapshot(links).totals.counts;
      (key in counts <==> Visible(key)) && (key in counts ==> counts[key] == SumOfCounts(links, key))
  {
    VisibleKeys(key);
    if links != [] {
      var n, link := |links| - 1, links[|links| - 1];
      GroupCounts(links[..n], key);
      GroupNormal(links[..n]);
      AddTotalsCount(GroupSnapshot(links[..n]).totals, link, key);
    }
  }

  lemma AddTotalsCount(totals: Bucket, link: Link, key: string)
    requires totals.counts.Keys == (set k | k in METRIC_KEYS)
    ensures var counts := AddTotals(totals, link).counts;
      && (key in counts <==> key in METRIC_KEYS)
      && (key in counts ==>
        counts[key] == totals.counts[key] + if link.mode == Blocked || key !in link.tenant.counts then 0 else link.tenant.counts[key])
  {
  }
}
