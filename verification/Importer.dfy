/**
 The row loop of the CSV import of entities: matching a row against the table by legal id, email
 or phone, and creating, updating or skipping.

 Rows come with their columns already mapped to fields; a column that the file lacks is None. An
 entity is named by its place in the table, which is its primary key.
 */
module Importer {
  import opened Wrappers
  import opened RowOrder
  import Text

  datatype Entity = Entity(
    name: string, legalId: string, phone: string, email: string, notes: string, active: bool, extra: map<string, string>)

  datatype Row = Row(
    name: Option<string>, legalId: Option<string>, phone: Option<string>, email: Option<string>, notes: Option<string>,
    active: Option<bool>, extra: map<string, string>)

  type Table = seq<Entity>

  /** The digits of a phone number. */
  function PhoneDigits(s: string): string {
    if s == "" then ""
    else (if '0' <= s[0] <= '9' then [s[0]] else "") + PhoneDigits(s[1..])
  }

  function RowLegalId(row: Row): string { Text.Strip(row.legalId.GetOr("")) }

  function RowEmail(row: Row): string { Text.Strip(row.email.GetOr("")) }

  function RowPhone(row: Row): string { PhoneDigits(row.phone.GetOr("")) }

  function RowName(row: Row): string { Text.Strip(row.name.GetOr("")) }

  predicate SameText(a: string, b: string) {
    Text.Lower(a) == Text.Lower(b)
  }

  datatype Identifier = LegalId | Email | Phone

  /** The entity carries the row's identifier of a kind, letter case and phone punctuation aside. */
  predicate Carries(e: Entity, row: Row, kind: Identifier) {
    match kind
    case LegalId => SameText(e.legalId, RowLegalId(row))
    case Email => SameText(e.email, RowEmail(row))
    case Phone => e.phone != "" && PhoneDigits(e.phone) == RowPhone(row)
  }

  predicate Given(row: Row, kind: Identifier) {
    match kind
    case LegalId => RowLegalId(row) != ""
    case Email => RowEmail(row) != ""
    case Phone => RowPhone(row) != ""
  }

  /** Of the first n entities, the first by name, which is their default order, and then by primary key, that carries an identifier. */
  function FirstCarrier(table: Table, row: Row, kind: Identifier, n: nat): (m: Option<nat>)
    requires n <= |table|
    ensures m.Some? ==> m.value < n
  {
    if n == 0 then None
    else
      var m := FirstCarrier(table, row, kind, n - 1);
      if Carries(table[n - 1], row, kind) && (m.None? || Before(Codes(table[n - 1].name), Codes(table[m.value].name)))
      then Some(n - 1) else m
  }

  function MatchBy(table: Table, row: Row, kind: Identifier): (m: Option<nat>)
    ensures m.Some? ==> m.value < |table|
  {
    if Given(row, kind) then FirstCarrier(table, row, kind, |table|) else None
  }

  lemma {:induction false} FirstCarrierFinds(table: Table, row: Row, kind: Identifier, n: nat)
    requires n <= |table|
    ensures var m := FirstCarrier(table, row, kind, n);
      && (m.Some? ==> Carries(table[m.value], row, kind))
      && (m.None? ==> forall i :: 0 <= i < n ==> !Carries(table[i], row, kind))
  {
    if n > 0 {
      FirstCarrierFinds(table, row, kind, n - 1);
    }
  }

  lemma MatchByFinds(table: Table, row: Row, kind: Identifier)
    ensures var m := MatchBy(table, row, kind);
      && (m.Some? ==> Given(row, kind) && Carries(table[m.value], row, kind))
      && (m.None? ==> !Given(row, kind) || forall i :: 0 <= i < |table| ==> !Carries(table[i], row, kind))
  {
    FirstCarrierFinds(table, row, kind, |table|);
  }

  /** By legal id, else by email, else by phone. */
  function FindExisting(table: Table, row: Row): (m: Option<nat>)
    ensures m.Some? ==> m.value < |table|
  {
    var legal := MatchBy(table, row, LegalId);
    if legal.Some? then legal
    else
      var email := MatchBy(table, row, Email);
      if email.Some? then email else MatchBy(table, row, Phone)
  }

  function Blank(): Entity {
    Entity("", "", "", "", "", true, map[])
  }

  /** An entity with the row's columns written over it. */
  function Written(e: Entity, row: Row): Entity {
    Entity(RowName(row), row.legalId.GetOr(e.legalId), row.phone.GetOr(e.phone), row.email.GetOr(e.email),
      row.notes.GetOr(e.notes), row.active.GetOr(e.active), e.extra + row.extra)
  }

  datatype Effect = Unnamed | Kept | Updated(id: nat) | Created

  /** What a row does to a table. */
  function EffectOf(table: Table, row: Row, updateExisting: bool): Effect {
    if RowName(row) == "" then Unnamed
    else
      match FindExisting(table, row)
      case None => Created
      case Some(id) => if updateExisting then Updated(id) else Kept
  }

  function After(table: Table, row: Row, updateExisting: bool): (r: Table) {
    match EffectOf(table, row, updateExisting)
    case Unnamed => table
    case Kept => table
    case Updated(id) => if id < |table| then table[id := Written(table[id], row)] else table
    case Created => table + [Written(Blank(), row)]
  }

  /** The table after the first n rows. */
  function TableAfter(table: Table, rows: seq<Row>, n: nat, updateExisting: bool): Table
    requires n <= |rows|
  {
    if n == 0 then table else After(TableAfter(table, rows, n - 1, updateExisting), rows[n - 1], updateExisting)
  }

  /** How many of the first n rows create an entity. */
  function CreatedCount(table: Table, rows: seq<Row>, n: nat, updateExisting: bool): nat
    requires n <= |rows|
  {
    if n == 0 then 0
    else
      CreatedCount(table, rows, n - 1, updateExisting)
      + if EffectOf(TableAfter(table, rows, n - 1, updateExisting), rows[n - 1], updateExisting).Created? then 1 else 0
  }

  function UpdatedCount(table: Table, rows: seq<Row>, n: nat, updateExisting: bool): nat
    requires n <= |rows|
  {
    if n == 0 then 0
    else
      UpdatedCount(table, rows, n - 1, updateExisting)
      + if EffectOf(TableAfter(table, rows, n - 1, updateExisting), rows[n - 1], updateExisting).Updated? then 1 else 0
  }

  function UnnamedCount(rows: seq<Row>, n: nat): nat
    requires n <= |rows|
  {
    if n == 0 then 0 else UnnamedCount(rows, n - 1) + if RowName(rows[n - 1]) == "" then 1 else 0
  }

  datatype Report = Report(processed: nat, created: nat, updated: nat, skipped: nat, errors: nat)

  class EntityTable {
    var entities: Table

    constructor (entities: Table)
      ensures this.entities == entities
    {
      this.entities := entities;
    }

    /** One row: skipped, written over the entity it matches, or added. */
    method ImportRow(row: Row, updateExisting: bool) returns (effect: Effect)
      modifies this
      ensures effect == EffectOf(old(entities), row, updateExisting)
      ensures entities == After(old(entities), row, updateExisting)
      ensures |entities| == |old(entities)| + if effect.Created? then 1 else 0
      ensures effect.Unnamed? <==> RowName(row) == ""
    {
      if RowName(row) == "" {
        return Unnamed;
      }
      var existing := FindExisting(entities, row);
      if existing.Some? && !updateExisting {
        return Kept;
      }
      if existing.Some? {
        entities := entities[existing.value := Written(entities[existing.value], row)];
        return Updated(existing.value);
      }
      entities := entities + [Written(Blank(), row)];
      effect := Created;
    }

    method Import(rows: seq<Row>, updateExisting: bool) returns (report: Report)
      modifies this
      ensures entities == TableAfter(old(entities), rows, |rows|, updateExisting)
      ensures report.processed == |rows| == report.created + report.updated + report.skipped
      ensures report.created == CreatedCount(old(entities), rows, |rows|, updateExisting)
      ensures report.updated == UpdatedCount(old(entities), rows, |rows|, updateExisting)
      ensures report.errors == UnnamedCount(rows, |rows|)
      ensures |entities| == |old(entities)| + report.created
    {
      var created, updated, skipped, processed, errors: nat := 0, 0, 0, 0, 0;
      for i := 0 to |rows|
        invariant entities == TableAfter(old(entities), rows, i, updateExisting)
        invariant processed == i == created + updated + skipped
        invariant created == CreatedCount(old(entities), rows, i, updateExisting)
        invariant updated == UpdatedCount(old(entities), rows, i, updateExisting)
        invariant errors == UnnamedCount(rows, i)
        invariant |entities| == |old(entities)| + created
      {
        processed := processed + 1;
        var effect := ImportRow(rows[i], updateExisting);
        match effect {
          case Unnamed =>
            errors := errors + 1;
            skipped := skipped + 1;
          case Kept => skipped := skipped + 1;
          case Updated(_) => updated := updated + 1;
          case Created => created := created + 1;
        }
      }
      report := Report(processed, created, updated, skipped, errors);
    }
  }
}
