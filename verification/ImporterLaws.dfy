/**
 What an import keeps, and what importing the same file a second time creates: without updates, and
 with updates, where the answer depends on which identifiers the rows of the file share.
 */
module ImporterLaws {
  import opened Wrappers
  import opened Importer
  import Text

  // ----- Importing without updates -----

  /** The row names no legal id, email or phone. */
  predicate Anonymous(row: Row) {
    !Given(row, LegalId) && !Given(row, Email) && !Given(row, Phone)
  }

  predicate Matches(table: Table, row: Row) {
    FindExisting(table, row).Some?
  }

  /** Some entity carries an identifier that the row gives. */
  predicate Carried(table: Table, row: Row, kind: Identifier) {
    Given(row, kind) && exists i :: 0 <= i < |table| && Carries(table[i], row, kind)
  }

  lemma MatchesIff(table: Table, row: Row)
    ensures Matches(table, row) <==> exists kind :: Carried(table, row, kind)
  {
    MatchByFinds(table, row, LegalId);
    MatchByFinds(table, row, Email);
    MatchByFinds(table, row, Phone);
    assert forall kind :: Carried(table, row, kind) ==> MatchBy(table, row, kind).Some? by {
      forall kind | Carried(table, row, kind)
        ensures MatchBy(table, row, kind).Some?
      {
        MatchByFinds(table, row, kind);
      }
    }
    if Matches(table, row) {
      var kind := if MatchBy(table, row, LegalId).Some? then LegalId else if MatchBy(table, row, Email).Some? then Email else Phone;
      assert Carried(table, row, kind);
    }
  }

  /** Without updates the import only appends. */
  lemma {:induction false} OnlyAppends(table: Table, rows: seq<Row>, n: nat, m: nat)
    requires n <= m <= |rows|
    ensures TableAfter(table, rows, n, false) <= TableAfter(table, rows, m, false)
  {
    if n < m {
      OnlyAppends(table, rows, n, m - 1);
    }
  }

  lemma MatchesMonotone(a: Table, b: Table, row: Row)
    requires a <= b && Matches(a, row)
    ensures Matches(b, row)
  {
    MatchesIff(a, row);
    MatchesIff(b, row);
    var kind :| Carried(a, row, kind);
    var i :| 0 <= i < |a| && Carries(a[i], row, kind);
    assert b[i] == a[i];
    assert Carried(b, row, kind);
  }

  /** The mapping of columns to fields strips every value. */
  predicate StrippedRow(row: Row) {
    Text.Stripped(row.legalId.GetOr("")) && Text.Stripped(row.email.GetOr(""))
  }

  predicate StrippedAt(rows: seq<Row>, i: nat)
    requires i < |rows|
  {
    StrippedRow(rows[i])
  }

  predicate StrippedRows(rows: seq<Row>) {
    forall i :: 0 <= i < |rows| ==> StrippedAt(rows, i)
  }

  /** After a named row that gives an identifier, the table matches that row. */
  lemma RowLeavesMatch(table: Table, row: Row)
    requires RowName(row) != "" && !Anonymous(row) && StrippedRow(row)
    ensures Matches(After(table, row, false), row)
  {
  }

  /** The named rows that give no identifier, among the first n. */
  function AnonymousCount(rows: seq<Row>, n: nat): nat
    requires n <= |rows|
  {
    if n == 0 then 0
    else AnonymousCount(rows, n - 1) + if RowName(rows[n - 1]) != "" && Anonymous(rows[n - 1]) then 1 else 0
  }

  /** On the second import, a row creates an entity exactly when it is named and gives no identifier. */
  lemma ReimportRow(table: Table, rows: seq<Row>, n: nat)
    requires 0 < n <= |rows| && StrippedRow(rows[n - 1])
    ensures var again := TableAfter(TableAfter(table, rows, |rows|, false), rows, n - 1, false);
      EffectOf(again, rows[n - 1], false).Created? <==> RowName(rows[n - 1]) != "" && Anonymous(rows[n - 1])
  {
    var first, row := TableAfter(table, rows, |rows|, false), rows[n - 1];
    var again := TableAfter(first, rows, n - 1, false);
    if RowName(row) != "" {
      if Anonymous(row) {
        MatchesIff(again, row);
      } else {
        StillMatches(table, rows, n);
        MatchesAgain(first, rows, n - 1, row);
      }
    }
  }

  /** A row's match is still there when the import ends. */
  lemma StillMatches(table: Table, rows: seq<Row>, n: nat)
    requires 0 < n <= |rows| && StrippedRow(rows[n - 1]) && RowName(rows[n - 1]) != "" && !Anonymous(rows[n - 1])
    ensures Matches(TableAfter(table, rows, |rows|, false), rows[n - 1])
  {
    RowLeavesMatch(TableAfter(table, rows, n - 1, false), rows[n - 1]);
    MatchesThroughout(table, rows, n, |rows|, rows[n - 1]);
  }

  lemma MatchesThroughout(table: Table, rows: seq<Row>, n: nat, m: nat, row: Row)
    requires n <= m <= |rows| && Matches(TableAfter(table, rows, n, false), row)
    ensures Matches(TableAfter(table, rows, m, false), row)
  {
    OnlyAppends(table, rows, n, m);
    MatchesMonotone(TableAfter(table, rows, n, false), TableAfter(table, rows, m, false), row);
  }

  lemma MatchesAgain(first: Table, rows: seq<Row>, n: nat, row: Row)
    requires n <= |rows| && Matches(first, row)
    ensures Matches(TableAfter(first, rows, n, false), row)
  {
    MatchesThroughout(first, rows, 0, n, row);
  }

  /**
     Importing the same rows again without updates creates an entity for each named row that gives no
     identifier, and none for any other: nothing is created exactly when every named row gives one.
   */
  lemma {:induction false} ReimportCreates(table: Table, rows: seq<Row>, n: nat)
    requires n <= |rows| && StrippedRows(rows)
    ensures CreatedCount(TableAfter(table, rows, |rows|, false), rows, n, false) == AnonymousCount(rows, n)
  {
    if n > 0 {
      ReimportCreates(table, rows, n - 1);
      assert StrippedAt(rows, n - 1);
      ReimportRow(table, rows, n);
    }
  }

  // ----- Importing with updates -----

  /** The columns that every row of a file has, or that none has: the header names them. */
  predicate HasColumn(row: Row, kind: Identifier) {
    match kind
    case LegalId => row.legalId.Some?
    case Email => row.email.Some?
    case Phone => row.phone.Some?
  }

  predicate SameColumns(p: Row, q: Row) {
    forall kind :: HasColumn(p, kind) <==> HasColumn(q, kind)
  }

  /** The values of two rows are the same identifier, or both none. */
  predicate Alike(p: Row, q: Row, kind: Identifier) {
    match kind
    case LegalId => SameText(RowLegalId(p), RowLegalId(q))
    case Email => SameText(RowEmail(p), RowEmail(q))
    case Phone => RowPhone(p) == RowPhone(q)
  }

  /** Two named rows give the same identifier, of whatever kind. */
  predicate Shares(p: Row, q: Row) {
    RowName(p) != "" && RowName(q) != "" && exists kind :: Given(p, kind) && Alike(p, q, kind)
  }

  /** A file as the reader of the import gives it: the same columns in every row, values stripped. */
  ghost predicate Uniform(rows: seq<Row>) {
    && (forall i :: 0 <= i < |rows| ==> StrippedAt(rows, i))
    && (forall p, q {:trigger SameColumns(p, q)} :: p in rows && q in rows ==> SameColumns(p, q))
  }

  /** Rows that share an identifier with the same row share one with each other. */
  ghost predicate Transitive(rows: seq<Row>) {
    forall p, q, r {:trigger Through(p, q, r)} :: p in rows && q in rows && r in rows ==> Through(p, q, r)
  }

  predicate Through(p: Row, q: Row, r: Row) {
    Shares(p, q) && Shares(q, r) ==> Shares(p, r)
  }

  type LinkedFile = rows: seq<Row> | Uniform(rows) && Transitive(rows) witness []

  /** In every column of the row the entity has the row's identifier, or none as the row. */
  predicate Bears(e: Entity, row: Row) {
    && (row.legalId.Some? ==> SameText(e.legalId, RowLegalId(row)))
    && (row.email.Some? ==> SameText(e.email, RowEmail(row)))
    && (row.phone.Some? ==> PhoneDigits(e.phone) == RowPhone(row))
  }

  lemma WrittenBears(e: Entity, row: Row)
    requires StrippedRow(row)
    ensures Bears(Written(e, row), row)
  {
    Text.StripStrips(row.legalId.GetOr(""));
    Text.StripStrips(row.email.GetOr(""));
  }

  /** What a row carries an identifier of, while it bears another row, the two rows share. */
  lemma CarriedIsShared(e: Entity, p: Row, q: Row, kind: Identifier)
    requires Bears(e, p) && SameColumns(p, q) && Given(q, kind) && Carries(e, q, kind)
    requires RowName(p) != "" && RowName(q) != ""
    ensures Shares(p, q)
  {
    GivenColumn(q, kind);
    assert HasColumn(p, kind);
    assert Alike(p, q, kind) && Given(p, kind);
  }

  lemma GivenColumn(row: Row, kind: Identifier)
    requires Given(row, kind)
    ensures HasColumn(row, kind)
  {
  }

  /** And what two rows share, an entity that bears one of them carries for the other. */
  lemma SharedIsCarried(e: Entity, p: Row, r: Row) returns (kind: Identifier)
    requires Bears(e, p) && Shares(p, r)
    ensures Given(r, kind) && Carries(e, r, kind)
  {
    kind :| Given(p, kind) && Alike(p, r, kind);
    GivenColumn(p, kind);
  }

  lemma SharesBack(p: Row, q: Row)
    requires Shares(p, q)
    ensures Shares(q, p)
  {
    var kind :| Given(p, kind) && Alike(p, q, kind);
    assert Given(q, kind) && Alike(q, p, kind);
  }

  /** Entity i bears a row of the file that shares an identifier with r. */
  predicate StandsFor(table: Table, rows: seq<Row>, r: Row, i: nat, p: Row) {
    i < |table| && p in rows && Shares(p, r) && Bears(table[i], p)
  }

  /** One row of an import with updates takes one table to the next. */
  predicate Next(before: Table, row: Row, after: Table) {
    after == After(before, row, true)
  }

  /** A row that finds an entity standing for r shares an identifier with r, and so the entity it writes stands for r too. */
  lemma RewrittenStandsFor(table: Table, rows: LinkedFile, q: Row, r: Row, i: nat, p: Row)
    requires q in rows && r in rows && StandsFor(table, rows, r, i, p)
    requires RowName(q) != "" && FindExisting(table, q) == Some(i)
    ensures StandsFor(table[i := Written(table[i], q)], rows, r, i, q)
  {
    var kind := MatchKind(table, q);
    CarriedIsShared(table[i], p, q, kind);
    SharesBack(p, q);
    assert Through(q, p, r);
    StrippedIn(rows, q);
    WrittenBears(table[i], q);
  }

  /** An entity that stands for r still does after another row of the file, if not always through the same row. */
  lemma StillStandsFor(table: Table, rows: LinkedFile, q: Row, after: Table, r: Row, i: nat, p: Row) returns (through: Row)
    requires q in rows && r in rows && StandsFor(table, rows, r, i, p) && Next(table, q, after)
    ensures StandsFor(after, rows, r, i, through)
  {
    if RowName(q) != "" && FindExisting(table, q) == Some(i) {
      RewrittenStandsFor(table, rows, q, r, i, p);
      assert after == table[i := Written(table[i], q)];
      through := q;
    } else {
      UntouchedEntity(table, q, i);
      through := p;
    }
  }

  lemma UntouchedEntity(table: Table, q: Row, i: nat)
    requires i < |table| && (RowName(q) == "" || FindExisting(table, q) != Some(i))
    ensures i < |After(table, q, true)| && After(table, q, true)[i] == table[i]
  {
  }

  /** The identifier by which a row found its match. */
  lemma MatchKind(table: Table, row: Row) returns (kind: Identifier)
    requires Matches(table, row)
    ensures Given(row, kind) && Carries(table[FindExisting(table, row).value], row, kind)
  {
    MatchByFinds(table, row, LegalId);
    MatchByFinds(table, row, Email);
    MatchByFinds(table, row, Phone);
    kind := if MatchBy(table, row, LegalId).Some? then LegalId else if MatchBy(table, row, Email).Some? then Email else Phone;
  }

  lemma StrippedIn(rows: seq<Row>, row: Row)
    requires Uniform(rows) && row in rows
    ensures StrippedRow(row)
  {
    var i :| 0 <= i < |rows| && rows[i] == row;
    assert StrippedAt(rows, i);
  }

  /** After a named row that gives an identifier, some entity stands for it. */
  lemma OwnStandsFor(table: Table, rows: LinkedFile, r: Row, after: Table) returns (i: nat)
    requires r in rows && RowName(r) != "" && !Anonymous(r) && Next(table, r, after)
    ensures StandsFor(after, rows, r, i, r)
  {
    i := FindExisting(table, r).GetOr(|table|);
    var kind := if Given(r, LegalId) then LegalId else if Given(r, Email) then Email else Phone;
    assert Given(r, kind) && Alike(r, r, kind);
    StrippedIn(rows, r);
    WrittenBears(if i < |table| then table[i] else Blank(), r);
  }

  /** The tables of an import, one before each row and the last one. */
  ghost predicate Trace(tables: seq<Table>, rows: seq<Row>) {
    |tables| == |rows| + 1 && forall k :: 0 <= k < |rows| ==> Next(tables[k], rows[k], tables[k + 1])
  }

  function Tables(table: Table, rows: seq<Row>): (tables: seq<Table>)
    ensures |tables| == |rows| + 1 && forall k :: 0 <= k <= |rows| ==> tables[k] == TableAfter(table, rows, k, true)
  {
    seq(|rows| + 1, k requires 0 <= k <= |rows| => TableAfter(table, rows, k, true))
  }

  lemma TablesTrace(table: Table, rows: seq<Row>)
    ensures Trace(Tables(table, rows), rows)
  {
    forall k | 0 <= k < |rows|
      ensures Next(Tables(table, rows)[k], rows[k], Tables(table, rows)[k + 1])
    {
      TableStep(table, rows, k);
    }
  }

  lemma TableStep(table: Table, rows: seq<Row>, k: nat)
    requires k < |rows|
    ensures Next(TableAfter(table, rows, k, true), rows[k], TableAfter(table, rows, k + 1, true))
  {
  }

  /** An entity that stands for r in the n-th table still does in the m-th. */
  lemma {:induction false} StandsThroughout(
    tables: seq<Table>, rows: LinkedFile, n: nat, m: nat, r: Row, i: nat, p: Row) returns (q: Row)
    requires Trace(tables, rows) && r in rows && n <= m <= |rows| && StandsFor(tables[n], rows, r, i, p)
    ensures StandsFor(tables[m], rows, r, i, q)
  {
    q := p;
    if n < m {
      q := StandsThroughout(tables, rows, n, m - 1, r, i, p);
      assert rows[m - 1] in rows && Next(tables[m - 1], rows[m - 1], tables[m - 1 + 1]);
      q := StillStandsFor(tables[m - 1], rows, rows[m - 1], tables[m], r, i, q);
    }
  }

  /** When the import ends, some entity stands for each named row that gives an identifier. */
  lemma StandsOnce(table: Table, rows: LinkedFile, n: nat) returns (i: nat, q: Row)
    requires 0 < n <= |rows| && RowName(rows[n - 1]) != "" && !Anonymous(rows[n - 1])
    ensures StandsFor(TableAfter(table, rows, |rows|, true), rows, rows[n - 1], i, q)
  {
    var tables, r := Tables(table, rows), rows[n - 1];
    assert r in rows;
    TablesTrace(table, rows);
    assert Next(tables[n - 1], rows[n - 1], tables[n - 1 + 1]);
    i := OwnStandsFor(tables[n - 1], rows, r, tables[n]);
    q := StandsThroughout(tables, rows, n, |rows|, r, i, r);
  }

  /** When the turn of the n-th row comes, it is matched. */
  predicate MatchedAt(table: Table, rows: seq<Row>, n: nat)
    requires 0 < n <= |rows|
  {
    Matches(TableAfter(table, rows, n - 1, true), rows[n - 1])
  }

  lemma StandsMatches(table: Table, rows: seq<Row>, r: Row, i: nat, p: Row)
    requires StandsFor(table, rows, r, i, p)
    ensures Matches(table, r)
  {
    var kind := SharedIsCarried(table[i], p, r);
    MatchesIff(table, r);
    assert Carried(table, r, kind);
  }

  /** An entity that stands for a row as an import begins is there when the row's turn comes. */
  lemma MatchedInTurn(first: Table, rows: LinkedFile, n: nat, i: nat, p: Row)
    requires 0 < n <= |rows| && StandsFor(first, rows, rows[n - 1], i, p)
    ensures MatchedAt(first, rows, n)
  {
    var tables := Tables(first, rows);
    TablesTrace(first, rows);
    assert rows[n - 1] in rows;
    var q := StandsThroughout(tables, rows, 0, n - 1, rows[n - 1], i, p);
    StandsMatches(tables[n - 1], rows, rows[n - 1], i, q);
  }

  /** When its turn comes again, a named row is matched exactly when it gives an identifier. */
  lemma MatchedAgain(table: Table, rows: LinkedFile, n: nat)
    requires 0 < n <= |rows| && RowName(rows[n - 1]) != ""
    ensures MatchedAt(TableAfter(table, rows, |rows|, true), rows, n) <==> !Anonymous(rows[n - 1])
  {
    if Anonymous(rows[n - 1]) {
      MatchesIff(TableAfter(TableAfter(table, rows, |rows|, true), rows, n - 1, true), rows[n - 1]);
    } else {
      var i, p := StandsOnce(table, rows, n);
      MatchedInTurn(TableAfter(table, rows, |rows|, true), rows, n, i, p);
    }
  }

  lemma CreatedStep(table: Table, rows: seq<Row>, n: nat)
    requires 0 < n <= |rows|
    ensures CreatedCount(table, rows, n, true)
         == CreatedCount(table, rows, n - 1, true) + if RowName(rows[n - 1]) != "" && !MatchedAt(table, rows, n) then 1 else 0
  {
  }

  /**
     Importing the same rows again with updates, into any table, creates an entity for each named row
     that gives no identifier and none for any other, when sharing an identifier is transitive in the file.
   */
  lemma {:induction false} ReupdateCreates(table: Table, rows: seq<Row>, n: nat)
    requires Uniform(rows) && Transitive(rows) && n <= |rows|
    ensures CreatedCount(TableAfter(table, rows, |rows|, true), rows, n, true) == AnonymousCount(rows, n)
  {
    if n > 0 {
      ReupdateCreates(table, rows, n - 1);
      CreatedStep(TableAfter(table, rows, |rows|, true), rows, n);
      if RowName(rows[n - 1]) != "" {
        MatchedAgain(table, rows, n);
      }
    }
  }

  /** Rows that give a legal id and neither email nor phone, and rows that give nothing, are such a file. */
  lemma LegalIdsAreTransitive(rows: seq<Row>)
    requires forall p :: p in rows ==> !Given(p, Email) && !Given(p, Phone)
    ensures Transitive(rows)
  {
    forall p, q, r | p in rows && q in rows && r in rows
      ensures Through(p, q, r)
    {
      if Shares(p, q) && Shares(q, r) {
        assert Given(p, LegalId) && Alike(p, r, LegalId);
      }
    }
  }

  // ----- Where transitivity is needed -----

  /** One entity, or none, and a row that finds it. */
  lemma WrittenAlone(table: Table, q: Row)
    requires RowName(q) != "" && (table == [] || (|table| == 1 && Matches(table, q)))
    ensures After(table, q, true) == [Written(if table == [] then Blank() else table[0], q)]
  {
    if table == [] {
      MatchesIff(table, q);
    }
  }

  lemma BearerFinds(e: Entity, p: Row, q: Row)
    requires Bears(e, p) && SameColumns(p, q) && RowName(p) != "" && RowName(q) != ""
    ensures Matches([e], q) <==> Shares(p, q)
  {
    MatchesIff([e], q);
    if Shares(p, q) {
      var kind := SharedIsCarried(e, p, q);
      assert [e][0] == e;
      assert Carried([e], q, kind);
    }
    if Matches([e], q) {
      var kind :| Carried([e], q, kind);
      CarriedIsShared(e, p, q, kind);
    }
  }

  /** The second row takes over the entity of the first, the third takes it from the second, and the first row finds nothing. */
  lemma ChainCreates(p: Row, q: Row, r: Row)
    requires Uniform([p, q, r]) && Shares(p, q) && Shares(q, r) && !Shares(p, r)
    ensures var rows := [p, q, r];
      var first := TableAfter([], rows, 3, true);
      first == [Written(Written(Written(Blank(), p), q), r)] && EffectOf(first, p, true) == Created
  {
    var rows := [p, q, r];
    assert p in rows && q in rows && r in rows;
    StrippedIn(rows, p);
    StrippedIn(rows, q);
    StrippedIn(rows, r);
    var e := Written(Blank(), p);
    var f := Written(e, q);
    var g := Written(f, r);
    WrittenBears(Blank(), p);
    WrittenBears(e, q);
    WrittenBears(f, r);
    WrittenAlone([], p);
    BearerFinds(e, p, q);
    WrittenAlone([e], q);
    BearerFinds(f, q, r);
    WrittenAlone([f], r);
    ThreeSteps(rows, e, f, g);
    if Shares(r, p) {
      SharesBack(r, p);
    }
    BearerFinds(g, r, p);
  }

  lemma ThreeSteps(rows: seq<Row>, e: Entity, f: Entity, g: Entity)
    requires |rows| == 3
    requires After([], rows[0], true) == [e] && After([e], rows[1], true) == [f] && After([f], rows[2], true) == [g]
    ensures TableAfter([], rows, 3, true) == [g]
  {
    assert TableAfter([], rows, 1, true) == [e];
    assert TableAfter([], rows, 2, true) == [f];
  }

  /** A file made of rows of another. */
  ghost predicate DrawnFrom(file: seq<Row>, rows: seq<Row>) {
    forall row :: row in file ==> row in rows
  }

  /** Importing the file twice with updates creates, the second time, only for named rows that give no identifier. */
  predicate ReimportsCleanly(table: Table, file: seq<Row>) {
    CreatedCount(TableAfter(table, file, |file|, true), file, |file|, true) == AnonymousCount(file, |file|)
  }

  /**
     Every file made of some rows, in any order and number, can be imported again with updates without
     creating anything anew, whatever the table, if and only if sharing an identifier is transitive among them.
   */
  lemma ReupdateExactly(rows: seq<Row>)
    requires Uniform(rows)
    ensures Transitive(rows) <==> forall table, file :: DrawnFrom(file, rows) ==> ReimportsCleanly(table, file)
  {
    if Transitive(rows) {
      forall table, file | DrawnFrom(file, rows)
        ensures ReimportsCleanly(table, file)
      {
        DrawnUniform(file, rows);
        ReupdateCreates(table, file, |file|);
      }
    } else {
      var p, q, r :| p in rows && q in rows && r in rows && !Through(p, q, r);
      DrawnUniform([p, q, r], rows);
      ChainCreates(p, q, r);
      ChainNotClean(p, q, r);
      assert DrawnFrom([p, q, r], rows) && !ReimportsCleanly([], [p, q, r]);
    }
  }

  lemma DrawnUniform(file: seq<Row>, rows: seq<Row>)
    requires Uniform(rows) && DrawnFrom(file, rows)
    ensures Uniform(file)
    ensures Transitive(rows) ==> Transitive(file)
  {
    forall i | 0 <= i < |file|
      ensures StrippedAt(file, i)
    {
      assert file[i] in file;
      StrippedIn(rows, file[i]);
    }
  }

  /** None of three linked rows is anonymous, so a first row that creates on the second import is one too many. */
  lemma ChainNotClean(p: Row, q: Row, r: Row)
    requires Shares(p, q) && Shares(q, r)
    requires EffectOf(TableAfter([], [p, q, r], 3, true), p, true) == Created
    ensures !ReimportsCleanly([], [p, q, r])
  {
    var rows := [p, q, r];
    var first := TableAfter([], rows, |rows|, true);
    SharesBack(q, r);
    assert !Anonymous(p) && !Anonymous(q) && !Anonymous(r);
    assert AnonymousCount(rows, 1) == 0 && AnonymousCount(rows, 2) == 0 && AnonymousCount(rows, 3) == 0;
    assert TableAfter(first, rows, 0, true) == first;
    CreatedStep(first, rows, 1);
    CreatedStep(first, rows, 2);
    CreatedStep(first, rows, 3);
  }

  function PersonRow(legalId: string, email: string): Row {
    Row(Some("Ana"), Some(legalId), None, Some(email), None, None, map[])
  }

  function Person(legalId: string, email: string): Entity {
    Entity("Ana", legalId, "", email, "", true, map[])
  }

  lemma PersonStripped(legalId: string, email: string)
    requires |legalId| == |email| == 1 && Text.Stripped(legalId) && Text.Stripped(email)
    ensures var row := PersonRow(legalId, email);
      StrippedRow(row) && RowName(row) == "Ana" && RowLegalId(row) == legalId && RowEmail(row) == email && RowPhone(row) == ""
  {
    Text.StripStrips("Ana");
    Text.StripStrips(legalId);
    Text.StripStrips(email);
  }

  /** Three such rows: the first two share the email a and the last two the legal id 2, and the first finds nothing the second time. */
  lemma ReupdateCanCreate()
    ensures var rows := [PersonRow("1", "a"), PersonRow("2", "a"), PersonRow("2", "b")];
      var first := TableAfter([], rows, 3, true);
      first == [Person("2", "b")] && EffectOf(first, rows[0], true) == Created
  {
    var p, q, r := PersonRow("1", "a"), PersonRow("2", "a"), PersonRow("2", "b");
    PersonStripped("1", "a");
    PersonStripped("2", "a");
    PersonStripped("2", "b");
    assert Given(p, Email) && Alike(p, q, Email);
    assert Given(q, LegalId) && Alike(q, r, LegalId);
    assert !Shares(p, r) by {
      assert Text.Lower("1")[0] == '1' && Text.Lower("2")[0] == '2' && Text.Lower("a")[0] == 'a' && Text.Lower("b")[0] == 'b';
    }
    ChainCreates(p, q, r);
  }

  /** A letter or digit in lower case, as the sample values are. */
  predicate Plain(s: string) {
    |s| == 1 && Text.Stripped(s) && Text.Lower(s) == s
  }

  /** A person whose legal id one entity alone has, written over that entity. */
  lemma WrittenByLegalId(table: Table, k: nat, legalId: string, email: string)
    requires Plain(legalId) && Plain(email) && k < |table|
    requires forall i :: 0 <= i < |table| ==> exists l, e :: Plain(l) && table[i] == Person(l, e)
    requires forall i :: 0 <= i < |table| ==> (table[i].legalId == legalId <==> i == k)
    ensures EffectOf(table, PersonRow(legalId, email), true) == Updated(k)
    ensures After(table, PersonRow(legalId, email), true) == table[k := Person(legalId, email)]
  {
    var row := PersonRow(legalId, email);
    PersonStripped(legalId, email);
    MatchByFinds(table, row, LegalId);
    forall i | 0 <= i < |table|
      ensures Carries(table[i], row, LegalId) <==> i == k
    {
      var l, e :| Plain(l) && table[i] == Person(l, e);
    }
    assert Given(row, LegalId) && Carries(table[k], row, LegalId);
    assert MatchBy(table, row, LegalId) == Some(k);
  }

  lemma SamplesPlain()
    ensures Plain("1") && Plain("2") && Plain("a") && Plain("b")
  {
    assert Text.Lower("1") == "1" && Text.Lower("2") == "2" && Text.Lower("a") == "a" && Text.Lower("b") == "b";
  }

  /** The first import of the rows (2,a), (1,a), (2,b): the third row creates an entity, as the second took the 2 away. */
  lemma OrderedFirst()
    ensures var p, q, r := PersonRow("2", "a"), PersonRow("1", "a"), PersonRow("2", "b");
      After(After(After([], p, true), q, true), r, true) == [Person("1", "a"), Person("2", "b")]
  {
    var p, q, r := PersonRow("2", "a"), PersonRow("1", "a"), PersonRow("2", "b");
    SamplesPlain();
    PersonStripped("2", "a");
    PersonStripped("1", "a");
    PersonStripped("2", "b");
    WrittenAlone([], p);
    assert Written(Blank(), p) == Person("2", "a");
    WrittenBears(Blank(), p);
    assert Given(p, Email) && Alike(p, q, Email);
    BearerFinds(Person("2", "a"), p, q);
    WrittenAlone([Person("2", "a")], q);
    assert Written(Person("2", "a"), q) == Person("1", "a");
    WrittenBears(Person("2", "a"), q);
    assert !Shares(q, r);
    BearerFinds(Person("1", "a"), q, r);
    assert Written(Blank(), r) == Person("2", "b");
  }

  /** The second import of these rows: each finds the entity that has its legal id. */
  lemma OrderedSecond()
    ensures var p, q, r := PersonRow("2", "a"), PersonRow("1", "a"), PersonRow("2", "b");
      var first := [Person("1", "a"), Person("2", "b")];
      && EffectOf(first, p, true) == Updated(1)
      && EffectOf(After(first, p, true), q, true) == Updated(0)
      && EffectOf(After(After(first, p, true), q, true), r, true) == Updated(1)
  {
    var first, second := [Person("1", "a"), Person("2", "b")], [Person("1", "a"), Person("2", "a")];
    SamplesPlain();
    WrittenByLegalId(first, 1, "2", "a");
    assert first[1 := Person("2", "a")] == second;
    WrittenByLegalId(second, 0, "1", "a");
    assert second[0 := Person("1", "a")] == second;
    WrittenByLegalId(second, 1, "2", "b");
  }

  lemma SampleShares()
    ensures var p, q, r := PersonRow("2", "a"), PersonRow("1", "a"), PersonRow("2", "b");
      Shares(q, p) && Shares(p, r) && !Shares(q, r)
  {
    var p, q, r := PersonRow("2", "a"), PersonRow("1", "a"), PersonRow("2", "b");
    SamplesPlain();
    PersonStripped("2", "a");
    PersonStripped("1", "a");
    PersonStripped("2", "b");
    assert Given(q, Email) && Alike(q, p, Email) && Given(p, LegalId) && Alike(p, r, LegalId);
  }

  /** The condition is about rows in any order: in this one they break it and are imported again all the same. */
  lemma OrderCanSave()
    ensures var p, q, r := PersonRow("2", "a"), PersonRow("1", "a"), PersonRow("2", "b");
      !Transitive([p, q, r]) && ReimportsCleanly([], [p, q, r])
  {
    var p, q, r := PersonRow("2", "a"), PersonRow("1", "a"), PersonRow("2", "b");
    var rows := [p, q, r];
    SampleShares();
    assert p in rows && q in rows && r in rows && !Through(q, p, r);
    OrderedFirst();
    OrderedSecond();
    TableAfterThree([], rows);
    NoneAnonymous(p, q, r);
    ThreeUpdatesClean([Person("1", "a"), Person("2", "b")], rows, 1, 0, 1);
  }

  lemma NoneAnonymous(p: Row, q: Row, r: Row)
    requires Shares(q, p) && Shares(p, r)
    ensures forall l :: 0 <= l < 3 ==> !Anonymous([p, q, r][l])
  {
    SharesBack(p, r);
  }

  lemma TableAfterThree(table: Table, rows: seq<Row>)
    requires |rows| == 3
    ensures TableAfter(table, rows, 3, true) == After(After(After(table, rows[0], true), rows[1], true), rows[2], true)
  {
    assert TableAfter(table, rows, 1, true) == After(table, rows[0], true);
    assert TableAfter(table, rows, 2, true) == After(After(table, rows[0], true), rows[1], true);
  }

  lemma ThreeUpdatesClean(first: Table, rows: seq<Row>, i: nat, j: nat, k: nat)
    requires |rows| == 3 && first == TableAfter([], rows, 3, true)
    requires forall l :: 0 <= l < 3 ==> !Anonymous(rows[l])
    requires EffectOf(first, rows[0], true) == Updated(i)
    requires EffectOf(After(first, rows[0], true), rows[1], true) == Updated(j)
    requires EffectOf(After(After(first, rows[0], true), rows[1], true), rows[2], true) == Updated(k)
    ensures ReimportsCleanly([], rows)
  {
    assert TableAfter(first, rows, 0, true) == first;
    assert TableAfter(first, rows, 1, true) == After(first, rows[0], true);
    assert TableAfter(first, rows, 2, true) == After(After(first, rows[0], true), rows[1], true);
    CreatedStep(first, rows, 1);
    CreatedStep(first, rows, 2);
    CreatedStep(first, rows, 3);
    assert AnonymousCount(rows, 1) == 0 && AnonymousCount(rows, 2) == 0;
  }
}
