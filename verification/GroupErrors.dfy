/**
 How far a group's written totals can be from the exact ones: what a currency code means, what is owed
 in terms of what was due and what was paid, and the rounding error of a tenant and of a group.
 */
module GroupErrors {
  import opened Wrappers
  import opened Numerals
  import opened Consolidation
  import opened ConsolidationLaws
  import Text
  import TextLaws

  // ----- Currency codes -----

  /** A blank code is the dollar. */
  lemma BlankCode()
    ensures CurrencyCode("") == "USD"
  {
    var usd := "USD";
    TextLaws.BareStays(usd);
    TextLaws.UpperIs(usd, usd);
  }

  /** Any other code is what stands between its white space, in capitals. */
  lemma CodeMeans(left: string, code: string, right: string, given: string)
    requires TextLaws.White(left) && TextLaws.White(right) && TextLaws.Bare(code)
    requires given == left + code + right && given != ""
    ensures TextLaws.SameLetters(code, CurrencyCode(given)) && TextLaws.NoSmalls(CurrencyCode(given))
  {
    TextLaws.StripLeaves(left, code, right);
    TextLaws.UpperIs(code, CurrencyCode(given));
  }

  // ----- The rows of a sheet -----

  datatype Sheet = Deals | Balances

  /** The rows that a sheet of a tenant sums. */
  function SheetRows(t: Tenant, sheet: Sheet): seq<Row> {
    if sheet.Deals? then t.deals else BalanceRows(t.debts)
  }

  function SheetWire(b: Bucket, sheet: Sheet): Wire {
    if sheet.Deals? then b.deals else b.balances
  }

  /** The exact sum of the rows of a currency. */
  function ExactSum(rows: seq<Row>, currency: string): real {
    if rows == [] then 0.0
    else
      var row := rows[|rows| - 1];
      ExactSum(rows[..|rows| - 1], currency)
      + if row.amount.Some? && CurrencyCode(row.currency) == currency then row.amount.value else 0.0
  }

  /** Some row with an amount is in the currency. */
  predicate Uses(rows: seq<Row>, currency: string) {
    exists i :: 0 <= i < |rows| && rows[i].amount.Some? && CurrencyCode(rows[i].currency) == currency
  }

  lemma {:induction false} SumRowsExact(rows: seq<Row>, currency: string)
    ensures AmountIn(SumRows(rows), currency) == ExactSum(rows, currency)
    ensures currency in SumRows(rows) <==> Uses(rows, currency)
  {
    if rows != [] {
      var n := |rows| - 1;
      SumRowsExact(rows[..n], currency);
      assert Uses(rows, currency) <==>
        Uses(rows[..n], currency) || (rows[n].amount.Some? && CurrencyCode(rows[n].currency) == currency) by {
        assert forall i :: 0 <= i < n ==> rows[i] == rows[..n][i];
      }
    }
  }

  // ----- What is owed -----

  predicate Billed(debt: Debt, currency: string) {
    CurrencyCode(debt.currency) == currency
  }

  function TotalDue(debts: seq<Debt>, currency: string): real {
    if debts == [] then 0.0
    else
      var debt := debts[|debts| - 1];
      TotalDue(debts[..|debts| - 1], currency) + if Billed(debt, currency) && debt.due.Some? then debt.due.value else 0.0
  }

  function TotalPaid(debts: seq<Debt>, currency: string): real {
    if debts == [] then 0.0
    else
      var debt := debts[|debts| - 1];
      TotalPaid(debts[..|debts| - 1], currency) + if Billed(debt, currency) && debt.paid.Some? then debt.paid.value else 0.0
  }

  /** What was paid beyond what was due, debt by debt; a missing amount is zero. */
  function TotalOverpaid(debts: seq<Debt>, currency: string): real {
    if debts == [] then 0.0
    else
      var debt := debts[|debts| - 1];
      var due, paid := debt.due.GetOr(0.0), debt.paid.GetOr(0.0);
      TotalOverpaid(debts[..|debts| - 1], currency) + if Billed(debt, currency) && paid > due then paid - due else 0.0
  }

  /** What is due less what was paid, with no overpayment of one debt set against another. */
  function Owed(debts: seq<Debt>, currency: string): real {
    TotalDue(debts, currency) - TotalPaid(debts, currency) + TotalOverpaid(debts, currency)
  }

  lemma {:induction false} BalancesExact(debts: seq<Debt>, currency: string)
    ensures ExactSum(BalanceRows(debts), currency) == Owed(debts, currency)
  {
    if debts != [] {
      var n := |debts| - 1;
      assert BalanceRows(debts)[..n] == BalanceRows(debts[..n]);
      BalancesExact(debts[..n], currency);
      BalanceSplit(debts[n]);
    }
  }

  lemma BalanceSplit(debt: Debt)
    ensures var due, paid := debt.due.GetOr(0.0), debt.paid.GetOr(0.0);
      BalanceRow(debt) == Row(debt.currency, Some(due - paid + if paid > due then paid - due else 0.0))
  {
  }

  /** One more debt never lowers what is owed. */
  lemma NoDebtLowers(debts: seq<Debt>, debt: Debt, currency: string)
    ensures Owed(debts + [debt], currency) >= Owed(debts, currency)
  {
    assert (debts + [debt])[..|debts|] == debts;
  }

  /** The balances of a tenant before they are written: per currency what is owed, listed exactly when some debt has the currency. */
  lemma TenantOwes(debts: seq<Debt>, currency: string)
    ensures AmountIn(SumRows(BalanceRows(debts)), currency) == Owed(debts, currency)
    ensures currency in SumRows(BalanceRows(debts)) <==> exists i :: 0 <= i < |debts| && Billed(debts[i], currency)
  {
    SumRowsExact(BalanceRows(debts), currency);
    BalancesExact(debts, currency);
    forall i | 0 <= i < |debts|
      ensures Billed(debts[i], currency) <==>
        BalanceRows(debts)[i].amount.Some? && CurrencyCode(BalanceRows(debts)[i].currency) == currency
    {
      BalanceSplit(debts[i]);
    }
  }

  // ----- The error of a tenant and of a group -----

  /** The exact amount of a currency on a sheet: the sum of the open deals, or what is owed. */
  function SheetExact(t: Tenant, sheet: Sheet, currency: string): real {
    if sheet.Deals? then ExactSum(t.deals, currency) else Owed(t.debts, currency)
  }

  /** The tenant has an open deal with an amount, or a debt, in the currency. */
  predicate SheetUses(t: Tenant, sheet: Sheet, currency: string) {
    if sheet.Deals? then Uses(t.deals, currency) else exists i :: 0 <= i < |t.debts| && Billed(t.debts[i], currency)
  }

  lemma SheetSums(t: Tenant, sheet: Sheet, currency: string)
    ensures AmountIn(SumRows(SheetRows(t, sheet)), currency) == SheetExact(t, sheet, currency)
    ensures currency in SumRows(SheetRows(t, sheet)) <==> SheetUses(t, sheet, currency)
  {
    if sheet.Deals? {
      SumRowsExact(t.deals, currency);
    } else {
      TenantOwes(t.debts, currency);
    }
  }

  /** The exact total of a currency over the included tenants. */
  function GroupExact(links: seq<Link>, sheet: Sheet, currency: string): real {
    if links == [] then 0.0
    else
      var link := links[|links| - 1];
      GroupExact(links[..|links| - 1], sheet, currency)
      + if link.mode.Blocked? then 0.0 else SheetExact(link.tenant, sheet, currency)
  }

  /** How many included tenants use a currency. */
  function Users(links: seq<Link>, sheet: Sheet, currency: string): nat {
    if links == [] then 0
    else
      var link := links[|links| - 1];
      Users(links[..|links| - 1], sheet, currency)
      + if !link.mode.Blocked? && SheetUses(link.tenant, sheet, currency) then 1 else 0
  }

  /** A tenant's text is within half a cent of its exact amount, and is zero where the currency is not used. */
  lemma TenantError(t: Tenant, sheet: Sheet, currency: string)
    ensures var c, exact := CentsOf(SheetWire(TenantBucket(t), sheet), currency), SheetExact(t, sheet, currency);
      && c == Cents(exact)
      && (if SheetUses(t, sheet, currency) then -0.005 <= c as real / 100.0 - exact <= 0.005 else c == 0 && exact == 0.0)
  {
    var sums := SumRows(SheetRows(t, sheet));
    SheetSums(t, sheet, currency);
    assert SheetWire(TenantBucket(t), sheet) == Serialize(sums);
    if currency in sums {
      TextCentsExact(Cents(sums[currency]));
    }
    CentsNear(SheetExact(t, sheet, currency));
  }

  lemma AddLinkCents(s: Snapshot, link: Link, sheet: Sheet, currency: string)
    requires NormalBucket(s.totals)
    ensures CentsOf(SheetWire(AddLink(s, link).totals, sheet), currency) == CentsOf(SheetWire(s.totals, sheet), currency)
      + if link.mode.Blocked? then 0 else CentsOf(SheetWire(TenantBucket(link.tenant), sheet), currency)
  {
    TenantBucketNormal(link.tenant);
    assert NormalBucket(TenantBucket(link.tenant));
    MergeCents(SheetWire(s.totals, sheet), SheetWire(TenantBucket(link.tenant), sheet), currency);
  }

  /** The group's total of a currency is off its exact sum by half a cent per included tenant that uses it, at most. */
  lemma {:induction false} GroupError(links: seq<Link>, sheet: Sheet, currency: string)
    ensures var total := CentsOf(SheetWire(GroupSnapshot(links).totals, sheet), currency) as real / 100.0;
      var exact, bound := GroupExact(links, sheet, currency), 0.005 * Users(links, sheet, currency) as real;
      -bound <= total - exact <= bound
  {
    if links != [] {
      var n, link := |links| - 1, links[|links| - 1];
      GroupError(links[..n], sheet, currency);
      GroupNormal(links[..n]);
      AddLinkCents(GroupSnapshot(links[..n]), link, sheet, currency);
      TenantError(link.tenant, sheet, currency);
    }
  }

  predicate Whole(amount: Option<real>) {
    amount.Some? ==> WholeCents(amount.value)
  }

  /** Every amount of a sheet is in whole cents. */
  predicate InCents(t: Tenant, sheet: Sheet) {
    if sheet.Deals? then forall i :: 0 <= i < |t.deals| ==> Whole(t.deals[i].amount)
    else forall i :: 0 <= i < |t.debts| ==> Whole(t.debts[i].due) && Whole(t.debts[i].paid)
  }

  predicate WholeCents(x: real) {
    (x * 100.0).Floor as real == x * 100.0
  }

  lemma {:induction false} ExactSumInCents(rows: seq<Row>, currency: string)
    requires forall i :: 0 <= i < |rows| ==> Whole(rows[i].amount)
    ensures WholeCents(ExactSum(rows, currency))
  {
    if rows != [] {
      var n := |rows| - 1;
      assert forall i :: 0 <= i < n ==> rows[..n][i] == rows[i];
      ExactSumInCents(rows[..n], currency);
      var row := rows[n];
      if row.amount.Some? {
        assert Whole(row.amount);
        WholeCentsAdd(ExactSum(rows[..n], currency), row.amount.value);
      }
    }
  }

  lemma WholeCentsAdd(x: real, y: real)
    requires WholeCents(x) && WholeCents(y)
    ensures WholeCents(x + y)
  {
    var a, b := (x * 100.0).Floor, (y * 100.0).Floor;
    assert (x + y) * 100.0 == (a + b) as real;
  }

  lemma WholeCentsLess(x: real, y: real)
    requires WholeCents(x) && WholeCents(y)
    ensures WholeCents(x - y)
  {
    var a, b := (x * 100.0).Floor, (y * 100.0).Floor;
    assert (x - y) * 100.0 == (a - b) as real;
  }

  lemma SheetInCents(t: Tenant, sheet: Sheet, currency: string)
    requires InCents(t, sheet)
    ensures WholeCents(SheetExact(t, sheet, currency))
  {
    if sheet.Deals? {
      ExactSumInCents(t.deals, currency);
    } else {
      forall i | 0 <= i < |t.debts|
        ensures Whole(BalanceRows(t.debts)[i].amount)
      {
        assert Whole(t.debts[i].due) && Whole(t.debts[i].paid);
        BalanceSplit(t.debts[i]);
        WholeCentsLess(t.debts[i].due.GetOr(0.0), t.debts[i].paid.GetOr(0.0));
      }
      ExactSumInCents(BalanceRows(t.debts), currency);
      BalancesExact(t.debts, currency);
    }
  }

  lemma WholeCentsRound(x: real)
    requires WholeCents(x)
    ensures Cents(x) as real / 100.0 == x
  {
    var c := (x * 100.0).Floor;
    assert x == c as real / 100.0;
    CentsExact(c);
  }

  /** When every amount is in whole cents, as the deals and collections tables store them, the total is exact. */
  lemma {:induction false} GroupExactInCents(links: seq<Link>, sheet: Sheet, currency: string)
    requires forall i :: 0 <= i < |links| ==> InCents(links[i].tenant, sheet)
    ensures CentsOf(SheetWire(GroupSnapshot(links).totals, sheet), currency) as real / 100.0 == GroupExact(links, sheet, currency)
  {
    if links != [] {
      var n, link := |links| - 1, links[|links| - 1];
      assert forall i :: 0 <= i < n ==> links[..n][i] == links[i];
      GroupExactInCents(links[..n], sheet, currency);
      GroupNormal(links[..n]);
      AddLinkCents(GroupSnapshot(links[..n]), link, sheet, currency);
      TenantError(link.tenant, sheet, currency);
      SheetInCents(link.tenant, sheet, currency);
      WholeCentsRound(SheetExact(link.tenant, sheet, currency));
    }
  }

  /** A tenant with one open deal of half a cent. */
  function HalfCentLink(): Link {
    Link(Full, Tenant(map[], [Row("usd", Some(0.005))], []))
  }

  function HalfCents(n: nat): seq<Link> {
    seq(n, _ => HalfCentLink())
  }

  lemma HalfCentTenant()
    ensures var t := HalfCentLink().tenant;
      && Uses(t.deals, "USD") && ExactSum(t.deals, "USD") == 0.005
      && CentsOf(SheetWire(TenantBucket(t), Deals), "USD") == 1
  {
    var rows := [Row("usd", Some(0.005))];
    Text.StripStrips("usd");
    assert CurrencyCode("usd") == "USD";
    assert rows[..0] == [];
    assert ExactSum(rows, "USD") == 0.005;
    assert rows[0].amount.Some? && CurrencyCode(rows[0].currency) == "USD";
    TenantError(HalfCentLink().tenant, Deals, "USD");
  }

  /** The bound is met: with n tenants of half a cent each, the total is off by exactly 0.005 * n. */
  lemma {:induction false} BoundIsMet(n: nat)
    ensures var links := HalfCents(n);
      && Users(links, Deals, "USD") == n && GroupExact(links, Deals, "USD") == 0.005 * n as real
      && CentsOf(SheetWire(GroupSnapshot(links).totals, Deals), "USD") == n
  {
    if n > 0 {
      var links := HalfCents(n);
      assert links[..n - 1] == HalfCents(n - 1) && links[n - 1] == HalfCentLink();
      BoundIsMet(n - 1);
      GroupNormal(HalfCents(n - 1));
      AddLinkCents(GroupSnapshot(HalfCents(n - 1)), HalfCentLink(), Deals, "USD");
      HalfCentTenant();
    }
  }
}
