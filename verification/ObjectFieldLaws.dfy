/** What a sync of field definitions stores, and what reading it back gives. */
module ObjectFieldLaws {
  import opened Wrappers
  import opened RowOrder
  import opened ObjectFields
  import Text

  // ----- Normalising twice -----

  lemma {:induction false} NormalizeChoicesTwice(choices: seq<Choice>)
    ensures NormalizeChoices(NormalizeChoices(choices)) == NormalizeChoices(choices)
  {
    if choices != [] {
      NormalizeChoicesTwice(choices[1..]);
      var value, title := ChoiceValue(choices[0]), ChoiceLabel(choices[0]);
      StrippedChoice(choices[0]);
      if value != "" {
        var entry := Entry(Some(value), Some(if title == "" then value else title));
        var rest := NormalizeChoices(choices[1..]);
        assert NormalizeChoices(choices) == [entry] + rest;
        Text.StripStrips(value);
        Text.StripStrips(title);
        assert ([entry] + rest)[1..] == rest;
      } else {
        assert NormalizeChoices(choices) == NormalizeChoices(choices[1..]);
      }
    }
  }

  lemma StrippedChoice(choice: Choice)
    ensures Text.Stripped(ChoiceValue(choice)) && Text.Stripped(ChoiceLabel(choice))
  {
    match choice
    case Bare(text) => Text.StripStrips(text);
    case Entry(value, title) =>
      Text.StripStrips(value.GetOr(""));
      Text.StripStrips(title.GetOr(Text.Strip(value.GetOr(""))));
  }

  /** Normalising a normalised definition only moves it to another position. */
  lemma NormalizeTwice(d: Definition, p: nat, q: nat)
    ensures Normalize(Normalize(d, p), q) == Normalize(d, q)
  {
    NormalizeChoicesTwice(d.choices);
    KindTwice(d);
    KeyTwice(d, p);
    TitleTwice(d, p);
  }

  lemma KeyTwice(d: Definition, p: nat)
    ensures KeyOf(Normalize(d, p)) == KeyOf(d)
  {
    Text.FoldedTwice(d.key.GetOr(""));
  }

  lemma TitleTwice(d: Definition, p: nat)
    ensures NormalTitle(Normalize(d, p)) == NormalTitle(d)
  {
    KeyTwice(d, p);
    Text.FoldedTwice(d.key.GetOr(""));
    Text.StripStrips(KeyOf(d));
    Text.StripStrips(d.title.GetOr(KeyOf(d)));
    Text.StripStrips(NormalTitle(d));
  }

  lemma KindTwice(d: Definition)
    ensures Text.Folded(NormalKind(d)) == NormalKind(d) && NormalKind(d) in FIELD_TYPES
  {
    Text.FoldedTwice(d.kind.GetOr("text"));
    Text.StripStrips("text");
    assert Text.Lower("text") == "text";
  }

  /** What a normalised definition is stored as reads back, normalised, as itself at its new position. */
  lemma StoredReadsBack(d: Definition, p: nat, position: nat, system: bool, q: nat)
    ensures Normalize(Stored(RowOf(Normalize(d, p), position, system)), q) == Normalize(d, q)
  {
    NormalizeTwice(d, p, q);
  }

  // ----- What the upserts store -----

  /** The last of the first n definitions with a key. */
  function LastWith(ds: seq<Definition>, n: nat, key: string): (j: nat)
    requires n <= |ds| && Configured(ds, n, key)
    ensures j < n && Key(ds[j]) == key
  {
    if Key(ds[n - 1]) == key then n - 1 else LastWith(ds, n - 1, key)
  }

  lemma {:induction false} LastWithIsLast(ds: seq<Definition>, n: nat, key: string, k: nat)
    requires n <= |ds| && Configured(ds, n, key) && k < n && Key(ds[k]) == key
    ensures k <= LastWith(ds, n, key)
  {
    if Key(ds[n - 1]) != key {
      LastWithIsLast(ds, n - 1, key, k);
    }
  }

  /** The row of a configured key after n upserts: that of its last definition. */
  function RowFor(ds: seq<Definition>, n: nat, key: string, system: bool): Row
    requires n <= |ds| && Configured(ds, n, key)
  {
    var j := LastWith(ds, n, key);
    RowOf(ds[j], j + 1, system)
  }

  /** u is t after n upserts, row by row. */
  ghost predicate Upserted(t: Table, u: Table, ds: seq<Definition>, n: nat, system: bool)
    requires n <= |ds|
  {
    && |t| <= |u| && UniqueKeys(u)
    && (forall i :: 0 <= i < |t| ==> u[i].key == t[i].key)
    && (forall i :: 0 <= i < |u| && Configured(ds, n, u[i].key) ==> u[i] == RowFor(ds, n, u[i].key, system))
    && (forall i :: 0 <= i < |u| && !Configured(ds, n, u[i].key) ==> i < |t| && u[i] == t[i])
    && (forall key :: Configured(ds, n, key) ==> Find(u, key) < |u|)
  }

  lemma FindUnique(t: Table, i: nat)
    requires UniqueKeys(t) && i < |t|
    ensures Find(t, t[i].key) == i
  {
  }

  lemma ConfiguredStep(ds: seq<Definition>, n: nat, key: string)
    requires 0 < n <= |ds|
    ensures Configured(ds, n, key) <==> Configured(ds, n - 1, key) || Key(ds[n - 1]) == key
    ensures Configured(ds, n, key) ==>
      LastWith(ds, n, key) == if Key(ds[n - 1]) == key then n - 1 else LastWith(ds, n - 1, key)
  {
  }

  lemma UpsertedStep(t: Table, u: Table, ds: seq<Definition>, n: nat, system: bool)
    requires 0 < n <= |ds| && Upserted(t, u, ds, n - 1, system)
    ensures Upserted(t, Upsert(u, RowOf(ds[n - 1], n, system)), ds, n, system)
  {
    var row := RowOf(ds[n - 1], n, system);
    var v := Upsert(u, row);
    UpsertUnique(u, row);
    forall i | 0 <= i < |v|
      ensures Configured(ds, n, v[i].key) ==> v[i] == RowFor(ds, n, v[i].key, system)
      ensures !Configured(ds, n, v[i].key) ==> i < |t| && v[i] == t[i]
    {
      UpsertedRow(t, u, ds, n, system, i);
    }
    forall key | Configured(ds, n, key)
      ensures Find(v, key) < |v|
    {
      ConfiguredStep(ds, n, key);
      UpsertFinds(u, row, key);
    }
  }

  /** The row i after one more upsert. */
  lemma UpsertedRow(t: Table, u: Table, ds: seq<Definition>, n: nat, system: bool, i: nat)
    requires 0 < n <= |ds| && Upserted(t, u, ds, n - 1, system)
    requires i < |Upsert(u, RowOf(ds[n - 1], n, system))|
    ensures var v := Upsert(u, RowOf(ds[n - 1], n, system));
      && (Configured(ds, n, v[i].key) ==> v[i] == RowFor(ds, n, v[i].key, system))
      && (!Configured(ds, n, v[i].key) ==> i < |t| && v[i] == t[i])
  {
    var row := RowOf(ds[n - 1], n, system);
    var v := Upsert(u, row);
    ConfiguredStep(ds, n, v[i].key);
    UpsertedAt(u, row, i);
  }

  lemma UpsertedAt(u: Table, row: Row, i: nat)
    requires UniqueKeys(u) && i < |Upsert(u, row)|
    ensures if Upsert(u, row)[i].key == row.key then Upsert(u, row)[i] == row else i < |u| && Upsert(u, row)[i] == u[i]
  {
    if i < |u| && u[i].key == row.key {
      FindUnique(u, i);
    }
  }

  lemma UpsertUnique(u: Table, row: Row)
    requires UniqueKeys(u)
    ensures UniqueKeys(Upsert(u, row))
  {
  }

  lemma UpsertFinds(u: Table, row: Row, key: string)
    requires key == row.key || Find(u, key) < |u|
    ensures Find(Upsert(u, row), key) < |Upsert(u, row)|
  {
    var v, i := Upsert(u, row), Find(u, row.key);
    if key == row.key {
      assert v[i].key == key;
    } else {
      assert v[Find(u, key)].key == key;
    }
  }

  lemma {:induction false} UpsertAllRows(t: Table, ds: seq<Definition>, n: nat, system: bool)
    requires n <= |ds| && UniqueKeys(t)
    ensures Upserted(t, UpsertAll(t, ds, n, system), ds, n, system)
  {
    if n > 0 {
      UpsertAllRows(t, ds, n - 1, system);
      UpsertedStep(t, UpsertAll(t, ds, n - 1, system), ds, n, system);
    }
  }

  // ----- What a sync stores -----

  /** u is t after a sync: configured keys hold their last definition, active; stale rows of the same origin are off. */
  ghost predicate SyncedRows(t: Table, u: Table, ds: seq<Definition>, system: bool) {
    && |t| <= |u| && UniqueKeys(u)
    && (forall i :: 0 <= i < |t| ==> u[i].key == t[i].key)
    && (forall i :: 0 <= i < |u| && Configured(ds, |ds|, u[i].key) ==> u[i] == RowFor(ds, |ds|, u[i].key, system))
    && (forall i :: 0 <= i < |u| && !Configured(ds, |ds|, u[i].key) ==>
      i < |t| && u[i] == if t[i].system == system then t[i].(active := false) else t[i])
    && (forall key :: Configured(ds, |ds|, key) ==> Find(u, key) < |u|)
  }

  lemma SyncStores(t: Table, fields: seq<Definition>, system: bool)
    requires UniqueKeys(t)
    ensures SyncedRows(t, Synced(t, fields, system), NormalizeAll(fields), system)
  {
    var ds := NormalizeAll(fields);
    var v := UpsertAll(t, ds, |ds|, system);
    var u := SwitchOff(v, ds, system);
    UpsertAllRows(t, ds, |ds|, system);
    assert forall i :: 0 <= i < |u| ==> u[i].key == v[i].key;
    forall key | Configured(ds, |ds|, key)
      ensures Find(u, key) < |u|
    {
      assert u[Find(v, key)].key == key;
    }
  }

  /** From any stored table, a second sync of the same fields changes no row: no definition, position or active flag. */
  lemma SyncTwice(t: Table, fields: seq<Definition>, system: bool)
    requires UniqueKeys(t)
    ensures Synced(Synced(t, fields, system), fields, system) == Synced(t, fields, system)
  {
    var ds := NormalizeAll(fields);
    var u := Synced(t, fields, system);
    SyncStores(t, fields, system);
    SyncStores(u, fields, system);
    NoGrowth(u, ds, |ds|, system);
    var v := Synced(u, fields, system);
    assert |v| == |u|;
    assert forall i :: 0 <= i < |u| ==> v[i] == u[i];
  }

  /** Upserting keys that are all there adds no row. */
  lemma {:induction false} NoGrowth(t: Table, ds: seq<Definition>, n: nat, system: bool)
    requires n <= |ds| && forall key :: Configured(ds, n, key) ==> Find(t, key) < |t|
    ensures SameKeys(t, UpsertAll(t, ds, n, system))
  {
    if n > 0 {
      forall key | Configured(ds, n - 1, key)
        ensures Find(t, key) < |t|
      {
        ConfiguredStep(ds, n, key);
      }
      NoGrowth(t, ds, n - 1, system);
      ConfiguredStep(ds, n, Key(ds[n - 1]));
      UpsertSameKeys(t, UpsertAll(t, ds, n - 1, system), RowOf(ds[n - 1], n, system));
    }
  }

  ghost predicate SameKeys(t: Table, u: Table) {
    |t| == |u| && forall i :: 0 <= i < |t| ==> u[i].key == t[i].key
  }

  lemma UpsertSameKeys(t: Table, u: Table, row: Row)
    requires SameKeys(t, u) && Find(t, row.key) < |t|
    ensures SameKeys(t, Upsert(u, row))
  {
    assert u[Find(t, row.key)].key == row.key;
  }

  // ----- What is read back -----

  predicate IsLast(ds: seq<Definition>, j: nat)
    requires j < |ds|
  {
    forall k :: j < k < |ds| ==> Key(ds[k]) != Key(ds[j])
  }

  /** The places, among the first n, of the definitions that no later one overrides. */
  function Lasts(ds: seq<Definition>, n: nat): (s: seq<nat>)
    requires n <= |ds|
    ensures forall i :: 0 <= i < |s| ==> s[i] < n && IsLast(ds, s[i])
    ensures forall i, j :: 0 <= i < j < |s| ==> s[i] < s[j]
  {
    if n == 0 then [] else Lasts(ds, n - 1) + (if IsLast(ds, n - 1) then [n - 1] else [])
  }

  lemma {:induction false} LastsHoldsAll(ds: seq<Definition>, n: nat, j: nat)
    requires j < n <= |ds| && IsLast(ds, j)
    ensures j in Lasts(ds, n)
  {
    if j < n - 1 {
      LastsHoldsAll(ds, n - 1, j);
    }
  }

  /** The definitions at some places, normalised at positions 1, 2, ... */
  function Picked(fields: seq<Definition>, places: seq<nat>): (r: seq<Definition>)
    requires forall i :: 0 <= i < |places| ==> places[i] < |fields|
    ensures |r| == |places| && forall i :: 0 <= i < |r| ==> r[i] == Normalize(fields[places[i]], i + 1)
  {
    seq(|places|, i requires 0 <= i < |places| => Normalize(fields[places[i]], i + 1))
  }

  /** The definitions that no later one overrides, in order. */
  function KeepLast(fields: seq<Definition>): seq<Definition> {
    Picked(fields, Lasts(NormalizeAll(fields), |fields|))
  }

  /** No active row of the other origin has a key that is not configured. */
  ghost predicate NoForeign(t: Table, fields: seq<Definition>, system: bool) {
    var ds := NormalizeAll(fields);
    forall i :: 0 <= i < |t| && t[i].active && t[i].system != system ==> Configured(ds, |ds|, t[i].key)
  }

  /** The rows of the kept definitions, in the order of the definitions. */
  function KeptRows(u: Table, ds: seq<Definition>): (s: seq<nat>)
    ensures |s| == |Lasts(ds, |ds|)| && forall i :: 0 <= i < |s| ==> s[i] == Find(u, Key(ds[Lasts(ds, |ds|)[i]]))
  {
    var lasts := Lasts(ds, |ds|);
    seq(|lasts|, i requires 0 <= i < |lasts| => Find(u, Key(ds[lasts[i]])))
  }

  /** The i-th kept row holds the i-th kept definition, at that definition's place. */
  lemma KeptRow(t: Table, u: Table, ds: seq<Definition>, system: bool, i: nat)
    requires SyncedRows(t, u, ds, system) && i < |Lasts(ds, |ds|)|
    ensures var j, k := Lasts(ds, |ds|)[i], KeptRows(u, ds)[i];
      k < |u| && u[k] == RowOf(ds[j], j + 1, system) && u[k].key == Key(ds[j])
  {
    var j := Lasts(ds, |ds|)[i];
    assert Configured(ds, |ds|, Key(ds[j]));
    var k := Find(u, Key(ds[j]));
    var last := LastWith(ds, |ds|, Key(ds[j]));
    LastWithIsLast(ds, |ds|, Key(ds[j]), j);
    assert last == j;
  }

  /** Its sort key begins with that definition's place. */
  lemma KeptRowKey(t: Table, u: Table, ds: seq<Definition>, system: bool, i: nat)
    requires SyncedRows(t, u, ds, system) && i < |Lasts(ds, |ds|)|
    ensures var k, keys := KeptRows(u, ds)[i], ActiveKeys(u);
      k in keys && keys[k] != [] && keys[k][0] == Lasts(ds, |ds|)[i] + 1
  {
    KeptRow(t, u, ds, system, i);
  }

  /** The kept rows rise in the order of the reader. */
  lemma KeptRowsAscend(t: Table, u: Table, ds: seq<Definition>, system: bool)
    requires SyncedRows(t, u, ds, system)
    ensures Ascending(KeptRows(u, ds), ActiveKeys(u))
  {
    var s, keys := KeptRows(u, ds), ActiveKeys(u);
    forall x | x in s
      ensures x in keys
    {
      var i :| 0 <= i < |s| && s[i] == x;
      KeptRowKey(t, u, ds, system, i);
    }
    forall i, j | 0 <= i < j < |s|
      ensures Ahead(keys, s[i], s[j])
    {
      KeptRowKey(t, u, ds, system, i);
      KeptRowKey(t, u, ds, system, j);
    }
  }

  /** A configured active row is one of the kept rows. */
  lemma KeptRowsHold(t: Table, u: Table, ds: seq<Definition>, system: bool, k: nat)
    requires SyncedRows(t, u, ds, system) && k < |u| && Configured(ds, |ds|, u[k].key)
    ensures k in KeptRows(u, ds)
  {
    var i := LastWithKept(ds, u[k].key);
    FindUnique(u, k);
    assert KeptRows(u, ds)[i] == k;
  }

  /** The last definition with a key is among the kept ones. */
  lemma LastWithKept(ds: seq<Definition>, key: string) returns (i: nat)
    requires Configured(ds, |ds|, key)
    ensures i < |Lasts(ds, |ds|)| && Lasts(ds, |ds|)[i] == LastWith(ds, |ds|, key)
  {
    var j := LastWith(ds, |ds|, key);
    forall l | j < l < |ds|
      ensures Key(ds[l]) != Key(ds[j])
    {
      if Key(ds[l]) == key {
        LastWithIsLast(ds, |ds|, key, l);
      }
    }
    LastsHoldsAll(ds, |ds|, j);
    i :| 0 <= i < |Lasts(ds, |ds|)| && Lasts(ds, |ds|)[i] == j;
  }

  lemma ActiveIsConfigured(t: Table, u: Table, fields: seq<Definition>, system: bool, k: nat)
    requires SyncedRows(t, u, NormalizeAll(fields), system) && NoForeign(t, fields, system)
    requires k < |u| && u[k].active
    ensures Configured(NormalizeAll(fields), |fields|, u[k].key)
  {
  }

  /** With no foreign row, the reader lists exactly the kept rows. */
  lemma ReadsKeptRows(t: Table, fields: seq<Definition>, system: bool)
    requires UniqueKeys(t) && NoForeign(t, fields, system)
    ensures ActiveRows(Synced(t, fields, system)) == KeptRows(Synced(t, fields, system), NormalizeAll(fields))
  {
    var ds, u := NormalizeAll(fields), Synced(t, fields, system);
    SyncStores(t, fields, system);
    KeptRowsAscend(t, u, ds, system);
    forall k | k in ActiveKeys(u)
      ensures k in KeptRows(u, ds)
    {
      ActiveIsConfigured(t, u, fields, system, k);
      KeptRowsHold(t, u, ds, system, k);
    }
    OrderByUnique(KeptRows(u, ds), ActiveKeys(u));
  }

  lemma KeptReadsBack(t: Table, u: Table, fields: seq<Definition>, system: bool, i: nat)
    requires SyncedRows(t, u, NormalizeAll(fields), system) && i < |KeepLast(fields)|
    ensures var k := KeptRows(u, NormalizeAll(fields))[i];
      k < |u| && Normalize(Stored(u[k]), i + 1) == KeepLast(fields)[i]
  {
    var ds := NormalizeAll(fields);
    KeptRow(t, u, ds, system, i);
    var j, k := Lasts(ds, |ds|)[i], KeptRows(u, ds)[i];
    assert u[k] == RowOf(Normalize(fields[j], j + 1), j + 1, system);
    StoredReadsBack(fields[j], j + 1, j + 1, system, i + 1);
  }

  /**
     Syncing definitions and reading them back gives the normalised definitions, in order, at
     positions 1, 2, ...; of definitions with the same key only the last is left.
   */
  lemma SyncThenRead(t: Table, fields: seq<Definition>, system: bool)
    requires UniqueKeys(t) && NoForeign(t, fields, system)
    ensures Definitions(Synced(t, fields, system)) == KeepLast(fields)
  {
    var u := Synced(t, fields, system);
    SyncStores(t, fields, system);
    ReadsKeptRows(t, fields, system);
    forall i | 0 <= i < |KeepLast(fields)|
      ensures Definitions(u)[i] == KeepLast(fields)[i]
    {
      KeptReadsBack(t, u, fields, system, i);
    }
  }

  // ----- What is read back beside foreign rows -----

  /** The sort keys of the active rows of one origin. */
  function OwnKeys(t: Table, system: bool): Keys {
    map i: nat | 0 <= i < |t| && t[i].active && t[i].system == system :: ActiveKeys(t)[i]
  }

  /** A list of rows with those of the other origin taken out. */
  function Own(t: Table, rows: seq<nat>, system: bool): (s: seq<nat>)
    requires forall i :: 0 <= i < |rows| ==> rows[i] < |t|
    ensures forall x :: x in s <==> x in rows && x < |t| && t[x].system == system
  {
    if rows == [] then []
    else
      var last := rows[|rows| - 1];
      Own(t, rows[..|rows| - 1], system) + if t[last].system == system then [last] else []
  }

  lemma AscendingSnoc(s: seq<nat>, keys: Keys, x: nat)
    requires Ascending(s, keys) && x in keys && forall y :: y in s ==> Ahead(keys, y, x)
    ensures Ascending(s + [x], keys)
  {
  }

  lemma {:induction false} OwnAscends(t: Table, rows: seq<nat>, system: bool, keys: Keys)
    requires Ascending(rows, keys) && forall i :: 0 <= i < |rows| ==> rows[i] < |t|
    ensures Ascending(Own(t, rows, system), keys)
  {
    if rows != [] {
      var init, last := rows[..|rows| - 1], rows[|rows| - 1];
      assert forall x :: x in init ==> x in rows;
      assert last in rows;
      OwnAscends(t, init, system, keys);
      AscendingSnoc(Own(t, init, system), keys, last);
    }
  }

  lemma AscendingWithin(s: seq<nat>, keys: Keys, own: Keys)
    requires Ascending(s, keys) && forall x :: x in s ==> x in own && x in keys && own[x] == keys[x]
    ensures Ascending(s, own)
  {
    forall i, j | 0 <= i < j < |s|
      ensures s[i] in own && s[j] in own && Ahead(own, s[i], s[j])
    {
      assert s[i] in s && s[j] in s;
    }
  }

  /** The active rows of one origin are read in their own order, whatever stands between them. */
  lemma OwnInOrder(t: Table, system: bool)
    ensures Own(t, ActiveRows(t), system) == OrderBy(OwnKeys(t, system))
  {
    OrderByLists(ActiveKeys(t));
    OwnAscends(t, ActiveRows(t), system, ActiveKeys(t));
    AscendingWithin(Own(t, ActiveRows(t), system), ActiveKeys(t), OwnKeys(t, system));
    OrderByUnique(Own(t, ActiveRows(t), system), OwnKeys(t, system));
  }

  /** After a sync the active rows of its origin are exactly the kept rows. */
  lemma OwnIsKept(t: Table, u: Table, ds: seq<Definition>, system: bool, k: nat)
    requires SyncedRows(t, u, ds, system)
    ensures k in OwnKeys(u, system) <==> k in KeptRows(u, ds)
  {
    if k in OwnKeys(u, system) {
      KeptRowsHold(t, u, ds, system, k);
    }
    if k in KeptRows(u, ds) {
      var i :| 0 <= i < |KeptRows(u, ds)| && KeptRows(u, ds)[i] == k;
      KeptRow(t, u, ds, system, i);
    }
  }

  lemma OwnRowsAreKept(t: Table, fields: seq<Definition>, system: bool)
    requires UniqueKeys(t)
    ensures var u := Synced(t, fields, system);
      Own(u, ActiveRows(u), system) == KeptRows(u, NormalizeAll(fields))
  {
    var ds, u := NormalizeAll(fields), Synced(t, fields, system);
    SyncStores(t, fields, system);
    KeptRowsAscend(t, u, ds, system);
    KeptAscendOwn(t, u, ds, system);
    OwnInOrder(u, system);
    OrderByUnique(KeptRows(u, ds), OwnKeys(u, system));
  }

  lemma KeptAscendOwn(t: Table, u: Table, ds: seq<Definition>, system: bool)
    requires SyncedRows(t, u, ds, system) && Ascending(KeptRows(u, ds), ActiveKeys(u))
    ensures Lists(KeptRows(u, ds), OwnKeys(u, system))
  {
    var s := KeptRows(u, ds);
    forall k
      ensures k in OwnKeys(u, system) <==> k in s
    {
      OwnIsKept(t, u, ds, system, k);
    }
    AscendingWithin(s, ActiveKeys(u), OwnKeys(u, system));
  }

  /** The definitions ds read from a list of rows are those rows', at positions 1, 2, ... */
  ghost predicate Reads(t: Table, rows: seq<nat>, ds: seq<Definition>) {
    |ds| == |rows| && forall i :: 0 <= i < |rows| ==> rows[i] < |t| && ds[i] == Normalize(Stored(t[rows[i]]), i + 1)
  }

  lemma ReadsSnoc(t: Table, rows: seq<nat>, ds: seq<Definition>, x: nat, d: Definition)
    requires Reads(t, rows, ds) && x < |t| && d == Normalize(Stored(t[x]), |rows| + 1)
    ensures Reads(t, rows + [x], ds + [d])
  {
  }

  /** The definitions read from a list of rows, without those of foreign rows, renumbered from 1. */
  function OwnDefinitions(t: Table, rows: seq<nat>, ds: seq<Definition>, system: bool): seq<Definition>
    requires |rows| == |ds| && forall i :: 0 <= i < |rows| ==> rows[i] < |t|
  {
    if rows == [] then []
    else
      var n := |rows| - 1;
      var before := OwnDefinitions(t, rows[..n], ds[..n], system);
      before + if t[rows[n]].system == system then [ds[n].(position := Some(|before| + 1))] else []
  }

  lemma {:induction false} OwnReads(t: Table, rows: seq<nat>, ds: seq<Definition>, system: bool)
    requires Reads(t, rows, ds)
    ensures Reads(t, Own(t, rows, system), OwnDefinitions(t, rows, ds, system))
  {
    if rows != [] {
      var n := |rows| - 1;
      OwnReads(t, rows[..n], ds[..n], system);
      var own, before := Own(t, rows[..n], system), OwnDefinitions(t, rows[..n], ds[..n], system);
      if t[rows[n]].system == system {
        ReadsSnoc(t, own, before, rows[n], ds[n].(position := Some(|before| + 1)));
      }
    }
  }

  /**
     From any stored table, syncing and reading back gives the normalised definitions in order, the last
     of each key; what foreign rows add between them changes their positions only.
   */
  lemma SyncThenReadOwn(t: Table, fields: seq<Definition>, system: bool)
    requires UniqueKeys(t)
    ensures var u := Synced(t, fields, system);
      OwnDefinitions(u, ActiveRows(u), Definitions(u), system) == KeepLast(fields)
  {
    var u := Synced(t, fields, system);
    OwnRowsAreKept(t, fields, system);
    OwnReads(u, ActiveRows(u), Definitions(u), system);
    SyncStores(t, fields, system);
    KeptReads(t, u, fields, system, OwnDefinitions(u, ActiveRows(u), Definitions(u), system));
  }

  lemma KeptReads(t: Table, u: Table, fields: seq<Definition>, system: bool, own: seq<Definition>)
    requires SyncedRows(t, u, NormalizeAll(fields), system) && Reads(u, KeptRows(u, NormalizeAll(fields)), own)
    ensures own == KeepLast(fields)
  {
    forall i | 0 <= i < |own|
      ensures own[i] == KeepLast(fields)[i]
    {
      KeptReadsBack(t, u, fields, system, i);
    }
  }

  /** A foreign row is read as well, so the round trip holds exactly when there is none. */
  lemma SyncThenReadExactly(t: Table, fields: seq<Definition>, system: bool)
    requires UniqueKeys(t)
    ensures Definitions(Synced(t, fields, system)) == KeepLast(fields) <==> NoForeign(t, fields, system)
  {
    if NoForeign(t, fields, system) {
      SyncThenRead(t, fields, system);
    } else {
      ForeignIsRead(t, fields, system);
    }
  }

  /** One active system field: a sync of no fields leaves it as it is, and the reader still lists it. */
  lemma SystemRowIsRead()
    ensures var t := [Row("vip", "VIP", "text", 1, false, [], None, map[], true, true)];
      Synced(t, [], false) == t && |Definitions(t)| == 1 && KeepLast([]) == []
  {
    var t := [Row("vip", "VIP", "text", 1, false, [], None, map[], true, true)];
    OrderByLists(ActiveKeys(t));
    assert 0 in ActiveKeys(t);
    assert forall x :: x in ActiveRows(t) ==> x == 0;
    ListsDistinct(ActiveRows(t), ActiveKeys(t));
  }

  lemma ForeignIsRead(t: Table, fields: seq<Definition>, system: bool)
    requires UniqueKeys(t) && !NoForeign(t, fields, system)
    ensures |Definitions(Synced(t, fields, system))| > |KeepLast(fields)|
  {
    var ds, u := NormalizeAll(fields), Synced(t, fields, system);
    SyncStores(t, fields, system);
    var f :| 0 <= f < |t| && t[f].active && t[f].system != system && !Configured(ds, |ds|, t[f].key);
    assert u[f] == t[f];
    MoreThanKept(t, u, ds, system, f);
  }

  /** Beside the kept rows the reader lists any other active row. */
  lemma MoreThanKept(t: Table, u: Table, ds: seq<Definition>, system: bool, f: nat)
    requires SyncedRows(t, u, ds, system) && f < |u| && u[f].active && !Configured(ds, |ds|, u[f].key)
    ensures |ActiveRows(u)| > |Lasts(ds, |ds|)|
  {
    var kept := KeptRows(u, ds);
    KeptRowsAscend(t, u, ds, system);
    AscendingDistinct(kept, ActiveKeys(u));
    KeptIsConfigured(t, u, ds, system, f);
    OrderByLists(ActiveKeys(u));
    assert f in ActiveKeys(u);
    OneMore(kept, f, ActiveRows(u));
  }

  lemma OneMore(kept: seq<nat>, f: nat, rows: seq<nat>)
    requires Distinct(kept) && f !in kept && f in rows && forall x :: x in kept ==> x in rows
    ensures |kept| < |rows|
  {
    DistinctWithin(kept + [f], rows);
  }

  lemma KeptIsConfigured(t: Table, u: Table, ds: seq<Definition>, system: bool, f: nat)
    requires SyncedRows(t, u, ds, system) && f < |u| && !Configured(ds, |ds|, u[f].key)
    ensures f !in KeptRows(u, ds)
  {
  }

  lemma AscendingDistinct(s: seq<nat>, keys: Keys)
    requires Ascending(s, keys)
    ensures Distinct(s)
  {
    forall i, j | 0 <= i < j < |s|
      ensures s[i] != s[j]
    {
      AheadStrict(keys, s[i], s[j]);
    }
  }

  /** A list without repetitions is no longer than a list that holds all its elements. */
  lemma {:induction false} DistinctWithin(a: seq<nat>, b: seq<nat>)
    requires Distinct(a) && forall x :: x in a ==> x in b
    ensures |a| <= |b|
  {
    if a != [] {
      var last := a[|a| - 1];
      assert last in a;
      var k :| 0 <= k < |b| && b[k] == last;
      var rest := b[..k] + b[k + 1..];
      forall x | x in a[..|a| - 1]
        ensures x in rest
      {
        assert x in a && x != last;
        var i :| 0 <= i < |b| && b[i] == x;
        assert rest[if i < k then i else i - 1] == x;
      }
      DistinctWithin(a[..|a| - 1], rest);
    }
  }

  /** When no two normalised keys are the same, nothing is overridden. */
  lemma {:induction false} KeepLastDistinct(fields: seq<Definition>)
    requires forall i, j :: 0 <= i < j < |fields| ==> KeyOf(fields[i]) != KeyOf(fields[j])
    ensures KeepLast(fields) == NormalizeAll(fields)
  {
    var ds := NormalizeAll(fields);
    LastsDistinct(ds, |ds|);
  }

  lemma {:induction false} LastsDistinct(ds: seq<Definition>, n: nat)
    requires n <= |ds| && forall i, j :: 0 <= i < j < |ds| ==> Key(ds[i]) != Key(ds[j])
    ensures |Lasts(ds, n)| == n && forall i :: 0 <= i < n ==> Lasts(ds, n)[i] == i
  {
    if n > 0 {
      LastsDistinct(ds, n - 1);
      assert IsLast(ds, n - 1);
    }
  }
}
