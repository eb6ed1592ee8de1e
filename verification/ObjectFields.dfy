/**
 Field definitions of dynamic objects: normalising them, storing them as rows of one object
 schema, and reading them back.

 A definition is a dictionary with a few known keys and any others; a missing key is None. The
 label of the source is called title here. A row
 keeps the known keys in columns and the rest in its config.
 */
module ObjectFields {
  import opened Wrappers
  import opened Lookup
  import opened RowOrder
  import Text

  datatype Choice = Bare(text: string) | Entry(value: Option<string>, title: Option<string>)

  datatype Definition = Definition(
    key: Option<string>, title: Option<string>, kind: Option<string>, required: Option<bool>, position: Option<nat>,
    choices: seq<Choice>, default: Option<string>, extras: map<string, string>)

  const FIELD_TYPES := {"text", "textarea", "number", "email", "date", "boolean", "select"}

  // ----- Normalising -----

  function KeyOf(d: Definition): string {
    Text.Folded(d.key.GetOr(""))
  }

  function ChoiceValue(choice: Choice): string {
    match choice
    case Bare(text) => Text.Strip(text)
    case Entry(value, _) => Text.Strip(value.GetOr(""))
  }

  function ChoiceLabel(choice: Choice): string {
    match choice
    case Bare(text) => Text.Strip(text)
    case Entry(value, title) => Text.Strip(title.GetOr(Text.Strip(value.GetOr(""))))
  }

  /** Choices with a value, each as a stripped value and label; a blank label is the value. */
  function NormalizeChoices(choices: seq<Choice>): seq<Choice> {
    if choices == [] then []
    else
      var value, title := ChoiceValue(choices[0]), ChoiceLabel(choices[0]);
      (if value == "" then [] else [Entry(Some(value), Some(if title == "" then value else title))])
      + NormalizeChoices(choices[1..])
  }

  function NormalKind(d: Definition): string {
    var kind := Text.Folded(d.kind.GetOr("text"));
    if kind in FIELD_TYPES then kind else "text"
  }

  function NormalTitle(d: Definition): string {
    var title := Text.Strip(d.title.GetOr(KeyOf(d)));
    if title == "" then KeyOf(d) else title
  }

  function Normalize(d: Definition, position: nat): Definition {
    Definition(Some(KeyOf(d)), Some(NormalTitle(d)), Some(NormalKind(d)), Some(d.required.GetOr(false)), Some(position),
      NormalizeChoices(d.choices), d.default, d.extras)
  }

  /** The definitions of a list, normalised at positions 1, 2, ... */
  function NormalizeAll(ds: seq<Definition>): (r: seq<Definition>)
    ensures |r| == |ds| && forall i :: 0 <= i < |ds| ==> r[i] == Normalize(ds[i], i + 1)
  {
    seq(|ds|, i requires 0 <= i < |ds| => Normalize(ds[i], i + 1))
  }

  // ----- Rows -----

  datatype Row = Row(
    key: string, title: string, kind: string, position: nat, required: bool,
    choices: seq<Choice>, default: Option<string>, extras: map<string, string>, system: bool, active: bool)

  /** The fields of one object schema; a row's place is its primary key, as no row is ever deleted. */
  type Table = seq<Row>

  ghost predicate UniqueKeys(t: Table) {
    forall i, j :: 0 <= i < j < |t| ==> t[i].key != t[j].key
  }

  function Key(d: Definition): string {
    d.key.GetOr("")
  }

  /** The row that stores a normalised definition. */
  function RowOf(d: Definition, position: nat, system: bool): Row {
    Row(Key(d), d.title.GetOr(""), d.kind.GetOr("text"), position, d.required.GetOr(false),
      d.choices, d.default, d.extras, system, true)
  }

  /** Where the row of a key stands; the length of the table when there is none. */
  function Find(t: Table, key: string): nat {
    FirstWhere(t, (row: Row) => row.key == key)
  }

  /** update_or_create by key. */
  function Upsert(t: Table, row: Row): Table {
    var i := Find(t, row.key);
    if i < |t| then t[i := row] else t + [row]
  }

  /** The first n definitions upserted in order, at positions 1 to n. */
  function UpsertAll(t: Table, ds: seq<Definition>, n: nat, system: bool): Table
    requires n <= |ds|
  {
    if n == 0 then t else Upsert(UpsertAll(t, ds, n - 1, system), RowOf(ds[n - 1], n, system))
  }

  /** Some definition among the first n has the key. */
  predicate Configured(ds: seq<Definition>, n: nat, key: string)
    requires n <= |ds|
  {
    exists j :: 0 <= j < n && Key(ds[j]) == key
  }

  function Switched(row: Row, ds: seq<Definition>, system: bool): Row {
    if row.system == system && !Configured(ds, |ds|, row.key) then row.(active := false) else row
  }

  /** Rows of the same origin that are not configured are switched off. */
  function SwitchOff(t: Table, ds: seq<Definition>, system: bool): (r: Table)
    ensures |r| == |t| && forall i :: 0 <= i < |t| ==> r[i] == Switched(t[i], ds, system)
  {
    seq(|t|, i requires 0 <= i < |t| => Switched(t[i], ds, system))
  }

  function Synced(t: Table, fields: seq<Definition>, system: bool): Table {
    var ds := NormalizeAll(fields);
    SwitchOff(UpsertAll(t, ds, |ds|, system), ds, system)
  }

  // ----- Reading back -----

  /** ORDER BY position, label, id, over the active rows. */
  function ActiveKeys(t: Table): Keys {
    map i: nat | 0 <= i < |t| && t[i].active :: [t[i].position] + Codes(t[i].title)
  }

  function ActiveRows(t: Table): (s: seq<nat>)
    ensures forall i :: 0 <= i < |s| ==> s[i] < |t|
  {
    var s := OrderBy(ActiveKeys(t));
    OrderByLists(ActiveKeys(t));
    assert forall i :: 0 <= i < |s| ==> s[i] in s && s[i] in ActiveKeys(t);
    s
  }

  /** A row as the dictionary that is normalised again. */
  function Stored(row: Row): Definition {
    Definition(Some(row.key), Some(row.title), Some(row.kind), Some(row.required), None, row.choices, row.default, row.extras)
  }

  /** The definitions of some rows, in order, normalised at positions 1, 2, ... */
  function Listed(t: Table, rows: seq<nat>): (r: seq<Definition>)
    requires forall i :: 0 <= i < |rows| ==> rows[i] < |t|
    ensures |r| == |rows| && forall i :: 0 <= i < |r| ==> r[i] == Normalize(Stored(t[rows[i]]), i + 1)
  {
    seq(|rows|, i requires 0 <= i < |rows| => Normalize(Stored(t[rows[i]]), i + 1))
  }

  /** The definitions of the active rows. */
  function Definitions(t: Table): seq<Definition> {
    Listed(t, ActiveRows(t))
  }

  // ----- The merged reader -----

  datatype Profile = Broker | Servicios | OtherProfile

  function Lifecycle(key: string, title: string, kind: string, default: Option<string>, choices: seq<Choice>): Definition {
    Definition(Some(key), Some(title), Some(kind), None, None, choices, default, map[])
  }

  function Pick(value: string, title: string): Choice {
    Entry(Some(value), Some(title))
  }

  function BrokerLifecycle(): Definition {
    Lifecycle("lifecycle_stage", "Etapa broker", "select", Some("lead"),
      [Pick("lead", "Lead"), Pick("asegurado", "Asegurado"), Pick("renovacion", "Renovacion")])
  }

  function ServicesLifecycle(): Definition {
    Lifecycle("service_stage", "Etapa servicios", "select", Some("prospecto"),
      [Pick("prospecto", "Prospecto"), Pick("cliente_activo", "Cliente activo"),
       Pick("renovacion_upsell", "Renovacion / upsell")])
  }

  function ServicesRenewal(): Definition {
    Lifecycle("renewal_on", "Fecha de renovacion", "date", None, [])
  }

  function ServicesDeliveryOwner(): Definition {
    Lifecycle("delivery_owner", "Responsable delivery", "text", None, [])
  }

  /** The lifecycle fields of a profile. */
  function ProfileFields(profile: Profile): seq<Definition> {
    match profile
    case Broker => [BrokerLifecycle()]
    case Servicios => [ServicesLifecycle(), ServicesRenewal(), ServicesDeliveryOwner()]
    case OtherProfile => []
  }

  predicate Names(fields: seq<Definition>, key: string) {
    exists i :: 0 <= i < |fields| && KeyOf(fields[i]) == key
  }

  /** Those of a list that the configured fields do not name. */
  function Unnamed(candidates: seq<Definition>, fields: seq<Definition>): seq<Definition> {
    if candidates == [] then []
    else (if Names(fields, Key(candidates[0])) then [] else [candidates[0]]) + Unnamed(candidates[1..], fields)
  }

  function Missing(fields: seq<Definition>, profile: Profile): seq<Definition> {
    Unnamed(ProfileFields(profile), fields)
  }

  /** The reader used when the tenant has no stored schema. */
  function Fallback(fields: seq<Definition>, profile: Profile): seq<Definition> {
    NormalizeAll(Missing(fields, profile) + fields)
  }

  predicate HasKey(ds: seq<Definition>, key: string) {
    exists i :: 0 <= i < |ds| && Key(ds[i]) == key
  }

  /** A candidate appended to merged at the position that follows, unless its key is stored. */
  function AppendUnstored(stored: seq<Definition>, merged: seq<Definition>, d: Definition): seq<Definition> {
    if HasKey(stored, Key(d)) then merged else merged + [Normalize(d, |merged| + 1)]
  }

  /** stored, followed by those of the first n candidates whose key is not stored, at the positions that follow. */
  function Appended(stored: seq<Definition>, candidates: seq<Definition>, n: nat): seq<Definition>
    requires n <= |candidates|
  {
    if n == 0 then stored
    else AppendUnstored(stored, Appended(stored, candidates, n - 1), candidates[n - 1])
  }

  /** The reader of entity fields: what is stored, then what is missing of the fallback. */
  function Merged(t: Table, fields: seq<Definition>, profile: Profile): seq<Definition> {
    Appended(Definitions(t), Fallback(fields, profile), |Fallback(fields, profile)|)
  }

  // ----- The services -----

  class FieldTable {
    var rows: Table

    constructor (rows: Table)
      ensures this.rows == rows
    {
      this.rows := rows;
    }

    /** The row of the key is overwritten, or added as the last; every other row stays as it was. */
    method UpdateOrCreate(row: Row)
      modifies this
      ensures rows == Upsert(old(rows), row)
      ensures row in rows && forall j :: 0 <= j < |old(rows)| && j != Find(old(rows), row.key) ==> rows[j] == old(rows)[j]
      ensures |rows| == |old(rows)| + if exists j :: 0 <= j < |old(rows)| && old(rows)[j].key == row.key then 0 else 1
    {
      var i := Find(rows, row.key);
      if i < |rows| {
        rows := rows[i := row];
      } else {
        rows := rows + [row];
      }
      assert rows[i] == row;
    }

    method UpsertFields(ds: seq<Definition>, system: bool)
      modifies this
      ensures rows == UpsertAll(old(rows), ds, |ds|, system)
    {
      for n := 0 to |ds|
        invariant rows == UpsertAll(old(rows), ds, n, system)
      {
        UpdateOrCreate(RowOf(ds[n], n + 1, system));
      }
    }

    method SwitchOffStale(ds: seq<Definition>, system: bool)
      modifies this
      ensures rows == SwitchOff(old(rows), ds, system)
    {
      for i := 0 to |rows|
        invariant |rows| == |old(rows)|
        invariant forall j :: 0 <= j < |rows| ==> rows[j] == if j < i then Switched(old(rows)[j], ds, system) else old(rows)[j]
      {
        var row := rows[i];
        if row.system == system && !Configured(ds, |ds|, row.key) && row.active {
          rows := rows[i := row.(active := false)];
        }
      }
    }

    /** Upserts the configured fields one by one, then switches off the stale rows. */
    method SyncObjectFields(fields: seq<Definition>, system: bool)
      modifies this
      ensures rows == Synced(old(rows), fields, system)
    {
      var ds := NormalizeAll(fields);
      UpsertFields(ds, system);
      SwitchOffStale(ds, system);
    }

    /** The stored definitions, and after them the fallback's that are not stored. */
    method GetEntityFieldDefinitions(fields: seq<Definition>, profile: Profile) returns (merged: seq<Definition>)
      ensures merged == Merged(rows, fields, profile)
    {
      var stored, fallback := Definitions(rows), Fallback(fields, profile);
      if fallback == [] {
        return stored;
      }
      merged := stored;
      var next := |merged| + 1;
      for i := 0 to |fallback|
        invariant merged == Appended(stored, fallback, i) && next == |merged| + 1
      {
        if HasKey(stored, Key(fallback[i])) {
          continue;
        }
        merged := merged + [Normalize(fallback[i], next)];
        next := next + 1;
      }
    }
  }
}
