/**
 Group consolidation: money per currency is summed, rounded half up to cents, written as text,
 and read back on every merge of a tenant's bucket into the group's.

 Amounts are exact reals. A bucket is a value; the class MetricBucket is the dictionary that
 merge_metric_buckets rewrites in place.
 */
module Consolidation {
  import opened Wrappers
  import opened Numerals
  import opened RowOrder
  import Text

  type Money = map<string, real>

  /** Amounts by currency as they are stored: text with two decimals. */
  type Wire = map<string, string>

  const METRIC_KEYS: seq<string> := [
    "entity_count", "open_deals_count", "won_deals_count", "lost_deals_count", "pending_activities_count",
    "overdue_activities_count", "documents_count", "expiring_documents_count", "open_proposals_count",
    "open_collections_count", "overdue_collections_count"]

  datatype Bucket = Bucket(counts: map<string, int>, deals: Wire, balances: Wire)

  // ----- Amounts as text -----

  /** Rounds to cents, half away from zero. */
  function Cents(x: real): int {
    if x >= 0.0 then (x * 100.0 + 0.5).Floor else -((-x * 100.0 + 0.5).Floor)
  }

  /** The text of an amount of cents. */
  function CentsText(c: int): string {
    var n: nat := if c < 0 then -c else c;
    Sign(c < 0) + (Digits(n / 100) + "." + Padded(n % 100, 2))
  }

  function Serialize(amounts: Money): Wire {
    map currency | currency in amounts :: CentsText(Cents(amounts[currency]))
  }

  function TextAmount(text: string): real {
    ReadDecimal(text).GetOr(0.0)
  }

  predicate Spells(wire: Wire, code: string, s: string) {
    s in wire && Text.Upper(s) == code
  }

  /** Of the spellings of a code in a wire, the one that comes last: wires are kept in the order of their codes. */
  predicate LastSpelling(wire: Wire, code: string, s: string) {
    Spells(wire, code, s) && forall t :: t in wire && Text.Upper(t) == code && t != s ==> Before(Codes(t), Codes(s))
  }

  lemma CodesDiffer(s: string, t: string)
    requires s != t
    ensures Codes(s) != Codes(t)
  {
    if |s| == |t| {
      var i :| 0 <= i < |s| && s[i] != t[i];
      assert Codes(s)[i] != Codes(t)[i];
    }
  }

  lemma CodesApart(s: string, t: string)
    requires s != t
    ensures Before(Codes(s), Codes(t)) <==> !Before(Codes(t), Codes(s))
  {
    CodesDiffer(s, t);
    BeforeTotal(Codes(s), Codes(t));
    if Before(Codes(s), Codes(t)) {
      BeforeAsymmetric(Codes(s), Codes(t));
    }
  }

  lemma {:induction false} LastSpellingExists(wire: Wire, code: string)
    requires exists s :: Spells(wire, code, s)
    ensures exists s :: LastSpelling(wire, code, s)
    decreases |wire|
  {
    var s :| Spells(wire, code, s);
    var rest := wire - {s};
    if exists t :: Spells(rest, code, t) {
      assert |rest| < |wire| by {
        assert rest.Keys == wire.Keys - {s};
        assert |rest.Keys| < |wire.Keys|;
      }
      LastSpellingExists(rest, code);
      var last :| LastSpelling(rest, code, last);
      LaterOfTwo(wire, code, s, last);
    } else {
      assert forall t :: t in wire && t != s ==> t in rest && !Spells(rest, code, t);
      assert LastSpelling(wire, code, s);
    }
  }

  lemma LaterOfTwo(wire: Wire, code: string, s: string, last: string)
    requires Spells(wire, code, s) && LastSpelling(wire - {s}, code, last)
    ensures LastSpelling(wire, code, s) || LastSpelling(wire, code, last)
  {
    CodesApart(s, last);
    if Before(Codes(last), Codes(s)) {
      forall t | t in wire && Text.Upper(t) == code && t != s
        ensures Before(Codes(t), Codes(s))
      {
        if t != last {
          assert t in wire - {s};
          BeforeTransitive(Codes(t), Codes(last), Codes(s));
        }
      }
    } else {
      assert forall t :: t in wire && t != s ==> t in wire - {s};
    }
  }

  lemma LastSpellingUnique(wire: Wire, code: string, s: string, t: string)
    requires LastSpelling(wire, code, s) && LastSpelling(wire, code, t)
    ensures s == t
  {
    if s != t {
      CodesApart(s, t);
    }
  }

  /** The code has a last spelling, and no other. */
  ghost predicate Spelled(wire: Wire, code: string) {
    && (exists s :: LastSpelling(wire, code, s))
    && (forall s, t :: LastSpelling(wire, code, s) && LastSpelling(wire, code, t) ==> s == t)
  }

  lemma CodesSpelled(wire: Wire, s: string)
    requires s in wire
    ensures Spelled(wire, Text.Upper(s))
  {
    var code := Text.Upper(s);
    assert Spells(wire, code, s);
    LastSpellingExists(wire, code);
    forall x, y | LastSpelling(wire, code, x) && LastSpelling(wire, code, y)
      ensures x == y
    {
      LastSpellingUnique(wire, code, x, y);
    }
  }

  lemma AllSpelled(wire: Wire)
    ensures forall code :: code in CodesOf(wire) ==> Spelled(wire, code)
  {
    forall code | code in CodesOf(wire)
      ensures Spelled(wire, code)
    {
      var s :| s in wire && Text.Upper(s) == code;
      CodesSpelled(wire, s);
    }
  }

  function Spelling(wire: Wire, code: string): string
    requires Spelled(wire, code)
  {
    var s :| s in wire && LastSpelling(wire, code, s);
    s
  }

  /** The codes of a wire, in upper case. */
  function CodesOf(wire: Wire): set<string> {
    set s | s in wire :: Text.Upper(s)
  }

  /** Reads the amounts of a wire back, under upper-case codes; of two spellings of a code the last one counts. */
  function Deserialize(wire: Wire): Money {
    AllSpelled(wire);
    map code | code in CodesOf(wire) :: TextAmount(wire[Spelling(wire, code)])
  }

  function AmountIn(amounts: Money, currency: string): real {
    if currency in amounts then amounts[currency] else 0.0
  }

  function WithMore(amounts: Money, currency: string, more: real): Money {
    amounts[currency := AmountIn(amounts, currency) + more]
  }

  /** The incoming amounts of some currencies added to the target. */
  function AddSome(target: Money, incoming: Money, picked: set<string>): Money {
    map currency | currency in target.Keys + picked ::
      if currency in picked then AmountIn(target, currency) + AmountIn(incoming, currency) else target[currency]
  }

  function AddMoney(target: Money, incoming: Money): Money {
    AddSome(target, incoming, incoming.Keys)
  }

  function MergeWires(target: Wire, incoming: Wire): Wire {
    Serialize(AddMoney(Deserialize(target), Deserialize(incoming)))
  }

  function CountIn(counts: map<string, int>, key: string): int {
    if key in counts then counts[key] else 0
  }

  /** The counts of some metrics added, the others as they were. */
  function MergeCounts(target: map<string, int>, incoming: map<string, int>, keys: seq<string>): map<string, int> {
    map key | key in target.Keys + (set k | k in keys) ::
      if key in keys then CountIn(target, key) + CountIn(incoming, key) else target[key]
  }

  function Merge(target: Bucket, incoming: Bucket): Bucket {
    Bucket(
      MergeCounts(target.counts, incoming.counts, METRIC_KEYS),
      MergeWires(target.deals, incoming.deals),
      MergeWires(target.balances, incoming.balances))
  }

  function EmptyBucket(): Bucket {
    Bucket(map key | key in METRIC_KEYS :: 0, map[], map[])
  }

  // ----- A tenant's bucket -----

  datatype Row = Row(currency: string, amount: Option<real>)

  datatype Debt = Debt(currency: string, due: Option<real>, paid: Option<real>)

  /** What the consolidation reads of a tenant: its counts, its open deals and its open collections. */
  datatype Tenant = Tenant(counts: map<string, int>, deals: seq<Row>, debts: seq<Debt>)

  /** A blank currency is the dollar; codes are stripped and upper-cased. */
  function CurrencyCode(currency: string): string {
    Text.Upper(Text.Strip(if currency == "" then "USD" else currency))
  }

  function AddAmount(target: Money, currency: string, amount: Option<real>): Money {
    if amount.None? then target
    else WithMore(target, CurrencyCode(currency), amount.value)
  }

  function SumRows(rows: seq<Row>): Money {
    if rows == [] then map[]
    else AddAmount(SumRows(rows[..|rows| - 1]), rows[|rows| - 1].currency, rows[|rows| - 1].amount)
  }

  /** What is still owed, never below zero. */
  function Balance(debt: Debt): real {
    var left := debt.due.GetOr(0.0) - debt.paid.GetOr(0.0);
    if left < 0.0 then 0.0 else left
  }

  function BalanceRow(debt: Debt): Row {
    Row(debt.currency, Some(Balance(debt)))
  }

  function BalanceRows(debts: seq<Debt>): (rows: seq<Row>)
    ensures |rows| == |debts| && forall i :: 0 <= i < |debts| ==> rows[i] == BalanceRow(debts[i])
  {
    seq(|debts|, i requires 0 <= i < |debts| => BalanceRow(debts[i]))
  }

  function TenantBucket(t: Tenant): Bucket {
    Bucket(map key | key in METRIC_KEYS :: CountIn(t.counts, key),
      Serialize(SumRows(t.deals)), Serialize(SumRows(BalanceRows(t.debts))))
  }

  // ----- The group's snapshot -----

  datatype Mode = Blocked | AggregateOnly | Full

  datatype Link = Link(mode: Mode, tenant: Tenant)

  datatype Snapshot = Snapshot(included: nat, full: nat, aggregate: nat, blocked: nat, totals: Bucket)

  /** The snapshot after one more link. */
  function AddLink(s: Snapshot, link: Link): Snapshot {
    Snapshot(
      if link.mode.Blocked? then s.included else s.included + 1,
      if link.mode.Full? then s.full + 1 else s.full,
      if link.mode.AggregateOnly? then s.aggregate + 1 else s.aggregate,
      if link.mode.Blocked? then s.blocked + 1 else s.blocked,
      AddTotals(s.totals, link))
  }

  /** A blocked tenant is left out of the totals. */
  function AddTotals(totals: Bucket, link: Link): Bucket {
    if link.mode.Blocked? then totals else Merge(totals, TenantBucket(link.tenant))
  }

  function GroupSnapshot(links: seq<Link>): Snapshot {
    if links == [] then Snapshot(0, 0, 0, 0, EmptyBucket())
    else AddLink(GroupSnapshot(links[..|links| - 1]), links[|links| - 1])
  }

  // ----- One step of each loop -----

  lemma SnapshotStep(links: seq<Link>, i: nat)
    requires i < |links|
    ensures GroupSnapshot(links[..i + 1]) == AddLink(GroupSnapshot(links[..i]), links[i])
  {
    assert links[..i + 1][..i] == links[..i];
  }

  lemma AddSomeNone(target: Money, incoming: Money)
    ensures AddSome(target, incoming, {}) == target
  {
  }

  lemma AddSomeStep(target: Money, incoming: Money, done: set<string>, currency: string)
    requires currency in incoming && currency !in done
    ensures var before := AddSome(target, incoming, done);
      AddSome(target, incoming, done + {currency}) == WithMore(before, currency, incoming[currency])
  {
  }

  lemma MergeCountsStep(target: map<string, int>, incoming: map<string, int>, done: seq<string>, key: string)
    requires key !in done
    ensures var before := MergeCounts(target, incoming, done);
      MergeCounts(target, incoming, done + [key]) == before[key := CountIn(before, key) + CountIn(incoming, key)]
  {
  }

  lemma MetricKeysDistinct()
    ensures forall i, j :: 0 <= i < j < |METRIC_KEYS| ==> METRIC_KEYS[i] != METRIC_KEYS[j]
  {
  }

  // ----- The services -----

  /** The dictionary of totals, rewritten in place by every merge. */
  class MetricBucket {
    var counts: map<string, int>
    var deals: Wire
    var balances: Wire

    function View(): Bucket
      reads this
    {
      Bucket(counts, deals, balances)
    }

    constructor ()
      ensures View() == EmptyBucket()
    {
      counts, deals, balances := map key | key in METRIC_KEYS :: 0, map[], map[];
    }

    method MergeIn(incoming: Bucket)
      modifies this
      ensures View() == Merge(old(View()), incoming)
    {
      MetricKeysDistinct();
      var added := AddCounts(counts, incoming.counts, METRIC_KEYS);
      var mergedDeals := MergeAmounts(deals, incoming.deals);
      var mergedBalances := MergeAmounts(balances, incoming.balances);
      counts, deals, balances := added, mergedDeals, mergedBalances;
    }
  }

  /** The counts of a merge, added one key at a time. */
  method AddCounts(target: map<string, int>, incoming: map<string, int>, keys: seq<string>) returns (counts: map<string, int>)
    requires forall i, j :: 0 <= i < j < |keys| ==> keys[i] != keys[j]
    ensures counts == MergeCounts(target, incoming, keys)
  {
    counts := target;
    assert MergeCounts(target, incoming, []) == target;
    for i := 0 to |keys|
      invariant counts == MergeCounts(target, incoming, keys[..i])
    {
      assert keys[..i + 1] == keys[..i] + [keys[i]];
      MergeCountsStep(target, incoming, keys[..i], keys[i]);
      counts := counts[keys[i] := CountIn(counts, keys[i]) + CountIn(incoming, keys[i])];
    }
    assert keys[..|keys|] == keys;
  }

  /** The incoming amounts added to the target, one currency at a time. */
  method AddAll(target: Money, incoming: Money) returns (amounts: Money)
    ensures amounts == AddMoney(target, incoming)
  {
    amounts := target;
    ghost var done: set<string> := {};
    var rest := incoming.Keys;
    AddSomeNone(target, incoming);
    while rest != {}
      invariant forall c :: c in incoming <==> c in rest || c in done
      invariant forall c :: c in rest ==> c !in done
      invariant amounts == AddSome(target, incoming, done)
      decreases |rest|
    {
      var currency :| currency in rest;
      assert currency in incoming.Keys && currency !in done;
      AddSomeStep(target, incoming, done, currency);
      amounts := WithMore(amounts, currency, incoming[currency]);
      rest, done := rest - {currency}, done + {currency};
    }
    assert done == incoming.Keys;
  }

  /** One of the two currency dictionaries of a merge: both are read, added, and written as text. */
  method MergeAmounts(target: Wire, incoming: Wire) returns (merged: Wire)
    ensures merged == MergeWires(target, incoming)
  {
    var amounts := AddAll(Deserialize(target), Deserialize(incoming));
    merged := Serialize(amounts);
  }

  method ComputeTenantMetrics(t: Tenant) returns (bucket: Bucket)
    ensures bucket == TenantBucket(t)
  {
    var deals: Money := map[];
    for i := 0 to |t.deals|
      invariant deals == SumRows(t.deals[..i])
    {
      assert t.deals[..i + 1][..i] == t.deals[..i];
      deals := AddAmount(deals, t.deals[i].currency, t.deals[i].amount);
    }
    assert t.deals[..|t.deals|] == t.deals;
    var balances: Money := map[];
    ghost var rows := BalanceRows(t.debts);
    for i := 0 to |t.debts|
      invariant balances == SumRows(rows[..i])
    {
      assert rows[..i + 1][..i] == rows[..i];
      var debt := t.debts[i];
      var balance := debt.due.GetOr(0.0) - debt.paid.GetOr(0.0);
      if balance < 0.0 {
        balance := 0.0;
      }
      balances := AddAmount(balances, debt.currency, Some(balance));
    }
    assert rows[..|rows|] == rows;
    bucket := Bucket(map key | key in METRIC_KEYS :: CountIn(t.counts, key), Serialize(deals), Serialize(balances));
  }

  method SyncGroupSnapshot(links: seq<Link>) returns (s: Snapshot)
    ensures s == GroupSnapshot(links)
  {
    var totals := new MetricBucket();
    var included, full, aggregate, blocked: nat := 0, 0, 0, 0;
    for i := 0 to |links|
      invariant fresh(totals)
      invariant Snapshot(included, full, aggregate, blocked, totals.View()) == GroupSnapshot(links[..i])
    {
      SnapshotStep(links, i);
      if links[i].mode.Blocked? {
        blocked := blocked + 1;
        continue;
      }
      var bucket := ComputeTenantMetrics(links[i].tenant);
      totals.MergeIn(bucket);
      included := included + 1;
      if links[i].mode.Full? {
        full := full + 1;
      } else {
        aggregate := aggregate + 1;
      }
    }
    assert links[..|links|] == links;
    s := Snapshot(included, full, aggregate, blocked, totals.View());
  }
}
