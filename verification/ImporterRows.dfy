/**
 What one row of an import does, told from the row and the table alone: which entity it matches, and
 what becomes of each field.
 */
module ImporterRows {
  import opened Wrappers
  import opened RowOrder
  import opened Importer
  import opened ImporterLaws
  import Text
  import TextLaws

  // ----- Identifiers -----

  predicate Digit(c: char) {
    '0' <= c <= '9'
  }

  lemma {:induction false} DigitsConcat(a: string, b: string)
    ensures PhoneDigits(a + b) == PhoneDigits(a) + PhoneDigits(b)
  {
    if a == "" {
      assert a + b == b;
    } else {
      assert (a + b)[1..] == a[1..] + b;
      DigitsConcat(a[1..], b);
    }
  }

  /** Of a phone number the digits are kept, in order, and nothing else. */
  lemma {:induction false} PhoneKeeps(phone: string)
    ensures forall i :: 0 <= i < |PhoneDigits(phone)| ==> Digit(PhoneDigits(phone)[i])
    ensures (forall i :: 0 <= i < |phone| ==> Digit(phone[i])) ==> PhoneDigits(phone) == phone
    ensures (forall i :: 0 <= i < |phone| ==> !Digit(phone[i])) ==> PhoneDigits(phone) == ""
  {
    if phone != "" {
      PhoneKeeps(phone[1..]);
    }
  }

  /** An identifier that a row gives is carried by an entity with the same legal id or email, letter case aside, or with the same digits of a phone. */
  lemma CarriesWhen(e: Entity, row: Row)
    requires StrippedRow(row)
    ensures row.legalId.Some? ==> (Carries(e, row, LegalId) <==> TextLaws.SameLetters(e.legalId, row.legalId.value))
    ensures row.email.Some? ==> (Carries(e, row, Email) <==> TextLaws.SameLetters(e.email, row.email.value))
    ensures row.phone.Some? ==>
      (Carries(e, row, Phone) <==> e.phone != "" && PhoneDigits(e.phone) == PhoneDigits(row.phone.value))
  {
    Text.StripStrips(row.legalId.GetOr(""));
    Text.StripStrips(row.email.GetOr(""));
    TextLaws.LowerAlike(e.legalId, row.legalId.GetOr(""));
    TextLaws.LowerAlike(e.email, row.email.GetOr(""));
  }

  // ----- The match -----

  /** Entity k comes before entity i, or is it: by name, and of equal names by primary key. */
  predicate FirstByName(table: Table, k: nat, i: nat)
    requires k < |table| && i < |table|
  {
    var a, b := Codes(table[k].name), Codes(table[i].name);
    k == i || Before(a, b) || (a == b && k < i)
  }

  lemma BeforeFirst(table: Table, l: nat, k: nat, i: nat)
    requires l < |table| && k < |table| && i < |table|
    requires Before(Codes(table[l].name), Codes(table[k].name)) && FirstByName(table, k, i)
    ensures FirstByName(table, l, i)
  {
    if Before(Codes(table[k].name), Codes(table[i].name)) {
      BeforeTransitive(Codes(table[l].name), Codes(table[k].name), Codes(table[i].name));
    }
  }

  lemma NotBefore(table: Table, l: nat, k: nat)
    requires k < l < |table| && !Before(Codes(table[l].name), Codes(table[k].name))
    ensures FirstByName(table, k, l)
  {
    BeforeTotal(Codes(table[l].name), Codes(table[k].name));
  }

  /** Of the carriers of an identifier the first is taken. */
  lemma {:induction false} FirstOfCarriers(table: Table, row: Row, kind: Identifier, n: nat, i: nat)
    requires n <= |table| && i < n && Carries(table[i], row, kind)
    ensures FirstCarrier(table, row, kind, n).Some? && FirstByName(table, FirstCarrier(table, row, kind, n).value, i)
  {
    if i < n - 1 {
      FirstOfCarriers(table, row, kind, n - 1, i);
    }
    FirstStep(table, n, i, FirstCarrier(table, row, kind, n - 1), Carries(table[n - 1], row, kind), FirstCarrier(table, row, kind, n));
  }

  /** One more entity, that carries the identifier or not. */
  lemma FirstStep(table: Table, n: nat, i: nat, m: Option<nat>, carries: bool, next: Option<nat>)
    requires 0 < n <= |table| && i < n && (i == n - 1 ==> carries) && (m.Some? ==> m.value < n - 1)
    requires i < n - 1 ==> m.Some? && FirstByName(table, m.value, i)
    requires next ==
      if carries && (m.None? || Before(Codes(table[n - 1].name), Codes(table[m.value].name))) then Some(n - 1) else m
    ensures next.Some? && FirstByName(table, next.value, i)
  {
    if m.Some? {
      if next == m {
        if i == n - 1 {
          NotBefore(table, n - 1, m.value);
        }
      } else if i < n - 1 {
        BeforeFirst(table, n - 1, m.value, i);
      }
    }
  }

  /** A row is matched by the first kind of identifier, of legal id, email and phone, that it gives and some entity carries; of those entities by the first. */
  lemma MatchPriority(table: Table, row: Row, kind: Identifier, i: nat)
    requires Carried(table, row, kind) && i < |table| && Carries(table[i], row, kind)
    requires kind == Email || kind == Phone ==> !Carried(table, row, LegalId)
    requires kind == Phone ==> !Carried(table, row, Email)
    ensures var m := FindExisting(table, row);
      m.Some? && Carries(table[m.value], row, kind) && FirstByName(table, m.value, i)
  {
    NotCarried(table, row, LegalId);
    NotCarried(table, row, Email);
    NotCarried(table, row, kind);
    assert FindExisting(table, row) == MatchBy(table, row, kind);
    MatchByFinds(table, row, kind);
    FirstOfCarriers(table, row, kind, |table|, i);
  }

  lemma NotCarried(table: Table, row: Row, kind: Identifier)
    ensures MatchBy(table, row, kind).Some? <==> Carried(table, row, kind)
  {
    MatchByFinds(table, row, kind);
  }

  // ----- The effect -----

  /** A row without a name changes nothing. */
  lemma UnnamedRow(table: Table, row: Row, updateExisting: bool)
    requires row.name == None || TextLaws.White(row.name.value)
    ensures After(table, row, updateExisting) == table && EffectOf(table, row, updateExisting) == Unnamed
  {
    TextLaws.BlankStrips(row.name.GetOr(""));
  }

  /** A matched row without updates changes nothing; with updates it rewrites its match alone, in the columns that the file has. */
  lemma MatchedRow(table: Table, row: Row, updateExisting: bool)
    requires RowName(row) != "" && Matches(table, row)
    ensures !updateExisting ==> After(table, row, updateExisting) == table
    ensures updateExisting ==>
      var k := FindExisting(table, row).value;
      var after := After(table, row, updateExisting);
      && after == table[k := after[k]]
      && Overwritten(table[k], row, after[k])
  {
  }

  /** Each column that the file has is written, blank or not; the others are kept; extra entries are merged, the row's winning. */
  ghost predicate Overwritten(was: Entity, row: Row, now: Entity) {
    && now.name == Text.Strip(row.name.GetOr(""))
    && now.legalId == (if row.legalId.Some? then row.legalId.value else was.legalId)
    && now.phone == (if row.phone.Some? then row.phone.value else was.phone)
    && now.email == (if row.email.Some? then row.email.value else was.email)
    && now.notes == (if row.notes.Some? then row.notes.value else was.notes)
    && now.active == (if row.active.Some? then row.active.value else was.active)
    && (forall key :: key in now.extra <==> key in was.extra || key in row.extra)
    && (forall key :: key in row.extra ==> key in now.extra && now.extra[key] == row.extra[key])
    && (forall key :: key in was.extra && key !in row.extra ==> key in now.extra && now.extra[key] == was.extra[key])
  }

  /** An unmatched row adds an entity at the end: what the file lacks is blank, and the entity is active unless the row says otherwise. */
  lemma NewRow(table: Table, row: Row, updateExisting: bool)
    requires RowName(row) != "" && !Matches(table, row)
    ensures var after := After(table, row, updateExisting);
      && after == table + [after[|table|]]
      && Overwritten(Entity("", "", "", "", "", true, map[]), row, after[|table|])
  {
  }

  // ----- The counters -----

  /** With updates every named row creates or updates; without them none updates. */
  lemma {:induction false} EffectsAddUp(table: Table, rows: seq<Row>, n: nat)
    requires n <= |rows|
    ensures CreatedCount(table, rows, n, true) + UpdatedCount(table, rows, n, true) + UnnamedCount(rows, n) == n
    ensures UpdatedCount(table, rows, n, false) == 0
  {
    if n > 0 {
      EffectsAddUp(table, rows, n - 1);
    }
  }

  function UnnamedPlaces(rows: seq<Row>, n: nat): set<nat>
    requires n <= |rows|
  {
    set i | 0 <= i < n && Text.Strip(rows[i].name.GetOr("")) == ""
  }

  lemma UnnamedPlacesStep(rows: seq<Row>, n: nat)
    requires 0 < n <= |rows|
    ensures UnnamedPlaces(rows, n) == UnnamedPlaces(rows, n - 1) + if RowName(rows[n - 1]) == "" then {n - 1} else {}
  {
  }

  /** The rows without a name, counted. */
  lemma {:induction false} UnnamedCounted(rows: seq<Row>, n: nat)
    requires n <= |rows|
    ensures UnnamedCount(rows, n) == |UnnamedPlaces(rows, n)|
  {
    if n > 0 {
      UnnamedCounted(rows, n - 1);
      UnnamedPlacesStep(rows, n);
      assert n - 1 !in UnnamedPlaces(rows, n - 1);
    }
  }
}
