/**
 What normalising makes of a definition, key by key, and the round trip of definitions that need no
 normalising: told from the definitions alone.
 */
module CleanFields {
  import opened Wrappers
  import opened RowOrder
  import opened ObjectFields
  import opened ObjectFieldLaws
  import opened MergedFieldLaws
  import Text
  import TextLaws

  // ----- What a definition becomes -----

  predicate KnownKind(kind: string) {
    || kind == "text" || kind == "textarea" || kind == "number" || kind == "email" || kind == "date"
    || kind == "boolean" || kind == "select"
  }

  lemma KindsKnown(kind: string)
    ensures KnownKind(kind) <==> kind in FIELD_TYPES
  {
  }

  /** Stripped and without capitals. */
  predicate Tidy(s: string) {
    TextLaws.Bare(s) && TextLaws.NoCapitals(s)
  }

  lemma FoldedIsTidy(s: string)
    ensures Tidy(Text.Folded(s)) && (Tidy(s) ==> Text.Folded(s) == s)
  {
    Text.FoldedTwice(s);
    TextLaws.LowerIs(Text.Strip(s), Text.Folded(s));
    if Tidy(s) {
      Text.StripStrips(s);
      TextLaws.LowerIs(s, s);
    }
  }

  /** An unknown or missing type is text; a known one is itself, case and white space aside. */
  lemma KindBecomes(d: Definition, p: nat)
    ensures var kind := Normalize(d, p).kind;
      && (d.kind == None ==> kind == Some("text"))
      && (d.kind.Some? ==> kind == Some(if KnownKind(Text.Folded(d.kind.value)) then Text.Folded(d.kind.value) else "text"))
  {
    FoldedIsTidy("text");
    assert Tidy("text");
    if d.kind.Some? {
      KindsKnown(Text.Folded(d.kind.value));
    }
  }

  /** A blank or missing title is the key; any other is stripped. */
  lemma TitleBecomes(d: Definition, p: nat)
    ensures var n := Normalize(d, p);
      && (d.title == None || TextLaws.White(d.title.value) ==> n.title == n.key)
      && (d.title.Some? && !TextLaws.White(d.title.value) ==> n.title == Some(Text.Strip(d.title.value)))
  {
    match d.title
    case Some(title) => TextLaws.BlankStrips(title);
    case None => KeyIsStripped(d);
  }

  lemma KeyIsStripped(d: Definition)
    ensures Text.Strip(KeyOf(d)) == KeyOf(d)
  {
    Text.FoldedTwice(d.key.GetOr(""));
    Text.StripStrips(KeyOf(d));
  }

  /** The key is tidied, required is false by default, and the default value and any other entries are kept. */
  lemma RestBecomes(d: Definition, p: nat)
    ensures var n := Normalize(d, p);
      && n.key == Some(Text.Folded(if d.key.Some? then d.key.value else "")) && Tidy(n.key.value)
      && n.required == Some(d.required.Some? && d.required.value)
      && n.position == Some(p) && n.default == d.default && n.extras == d.extras
  {
    FoldedIsTidy(d.key.GetOr(""));
  }

  /** A choice without a value is dropped; a bare one is its own label; a blank or missing label is the value. */
  lemma ChoiceBecomes(choice: Choice)
    ensures var value := match choice case Bare(text) => text case Entry(v, _) => if v.Some? then v.value else "";
      var title := match choice case Bare(text) => text case Entry(_, t) => if t.Some? then t.value else "";
      && (TextLaws.White(value) ==> NormalizeChoices([choice]) == [])
      && (!TextLaws.White(value) ==>
        NormalizeChoices([choice]) == [Entry(Some(Text.Strip(value)), Some(Text.Strip(if TextLaws.White(title) then value else title)))])
  {
    assert [choice][1..] == [];
    match choice
    case Bare(text) => TextLaws.BlankStrips(text);
    case Entry(v, t) =>
      TextLaws.BlankStrips(v.GetOr(""));
      Text.StripStrips(v.GetOr(""));
      TextLaws.BlankStrips(t.GetOr(""));
      if t.None? {
        assert TextLaws.White("");
      }
  }

  /** Choices are normalised one by one, in order. */
  lemma {:induction false} ChoicesApart(a: seq<Choice>, b: seq<Choice>)
    ensures NormalizeChoices(a + b) == NormalizeChoices(a) + NormalizeChoices(b)
  {
    if a == [] {
      assert a + b == b;
    } else {
      var all := a[1..] + b;
      ChoicesApart(a[1..], b);
      ChoicesStep(a[0], a[1..], b, all);
      assert a == [a[0]] + a[1..] && a + b == [a[0]] + all;
    }
  }

  lemma ChoicesStep(choice: Choice, rest: seq<Choice>, b: seq<Choice>, all: seq<Choice>)
    requires NormalizeChoices(all) == NormalizeChoices(rest) + NormalizeChoices(b)
    ensures NormalizeChoices([choice] + all) == NormalizeChoices([choice] + rest) + NormalizeChoices(b)
  {
    ChoicesCons(choice, rest);
    ChoicesCons(choice, all);
    Regroup(NormalizeChoices([choice]), NormalizeChoices(rest), NormalizeChoices(b));
  }

  lemma Regroup(x: seq<Choice>, y: seq<Choice>, z: seq<Choice>)
    ensures x + (y + z) == x + y + z
  {
  }

  lemma ChoicesCons(choice: Choice, rest: seq<Choice>)
    ensures NormalizeChoices([choice] + rest) == NormalizeChoices([choice]) + NormalizeChoices(rest)
  {
    assert ([choice] + rest)[1..] == rest && [choice][1..] == [];
  }

  // ----- Clean definitions -----

  predicate CleanChoice(choice: Choice) {
    && choice.Entry? && choice.value.Some? && choice.title.Some?
    && choice.value.value != "" && TextLaws.Bare(choice.value.value)
    && choice.title.value != "" && TextLaws.Bare(choice.title.value)
  }

  predicate Clean(d: Definition) {
    && d.key.Some? && Tidy(d.key.value)
    && d.title.Some? && d.title.value != "" && TextLaws.Bare(d.title.value)
    && d.kind.Some? && KnownKind(d.kind.value)
    && d.required.Some?
    && forall i :: 0 <= i < |d.choices| ==> CleanChoice(d.choices[i])
  }

  lemma {:induction false} CleanChoicesStay(choices: seq<Choice>)
    requires forall i :: 0 <= i < |choices| ==> CleanChoice(choices[i])
    ensures NormalizeChoices(choices) == choices
  {
    if choices != [] {
      var first, rest := choices[0], choices[1..];
      CleanChoicesStay(rest);
      assert choices == [first] + rest;
      ChoicesApart([first], rest);
      ChoiceBecomes(first);
      assert CleanChoice(first);
      TextLaws.BareStays(first.value.value);
      TextLaws.BareStays(first.title.value);
    }
  }

  lemma KnownKindTidy(kind: string)
    requires KnownKind(kind)
    ensures Tidy(kind)
  {
  }

  /** Normalising a clean definition only gives it its position. */
  lemma CleanStays(d: Definition, p: nat)
    requires Clean(d)
    ensures Normalize(d, p) == d.(position := Some(p))
  {
    KindBecomes(d, p);
    RestBecomes(d, p);
    TitleBecomes(d, p);
    FoldedIsTidy(d.key.value);
    KnownKindTidy(d.kind.value);
    FoldedIsTidy(d.kind.value);
    TextLaws.BareStays(d.title.value);
    CleanChoicesStay(d.choices);
  }

  /** What a clean definition is stored as. */
  function CleanRow(d: Definition, position: nat, system: bool): Row
    requires Clean(d)
  {
    Row(d.key.value, d.title.value, d.kind.value, position, d.required.value, d.choices, d.default, d.extras, system, true)
  }

  ghost predicate CleanList(fields: seq<Definition>) {
    && (forall i :: 0 <= i < |fields| ==> Clean(fields[i]))
    && (forall i, j :: 0 <= i < j < |fields| ==> fields[i].key != fields[j].key)
  }

  lemma CleanKeys(fields: seq<Definition>, i: nat)
    requires CleanList(fields) && i < |fields|
    ensures KeyOf(fields[i]) == fields[i].key.value
  {
    FoldedIsTidy(fields[i].key.value);
  }

  lemma CleanKept(fields: seq<Definition>)
    requires CleanList(fields)
    ensures KeepLast(fields) == NormalizeAll(fields)
  {
    forall i, j | 0 <= i < j < |fields|
      ensures KeyOf(fields[i]) != KeyOf(fields[j])
    {
      CleanKeys(fields, i);
      CleanKeys(fields, j);
    }
    KeepLastDistinct(fields);
  }

  /** Clean definitions with distinct keys, synced into a table without active rows of the other origin, read back as themselves at positions 1..n. */
  lemma CleanRoundTrip(t: Table, fields: seq<Definition>, system: bool)
    requires UniqueKeys(t) && CleanList(fields)
    requires forall k :: 0 <= k < |t| && t[k].active ==> t[k].system == system
    ensures var back := Definitions(Synced(t, fields, system));
      |back| == |fields| && forall i :: 0 <= i < |back| ==> back[i] == fields[i].(position := Some(i + 1))
  {
    SyncThenRead(t, fields, system);
    CleanKept(fields);
    forall i | 0 <= i < |fields|
      ensures NormalizeAll(fields)[i] == fields[i].(position := Some(i + 1))
    {
      CleanStays(fields[i], i + 1);
    }
  }

  /** Each is stored in its own row, column by column, whatever the table held before. */
  lemma CleanStored(t: Table, fields: seq<Definition>, system: bool, i: nat)
    requires UniqueKeys(t) && CleanList(fields) && i < |fields|
    ensures CleanRow(fields[i], i + 1, system) in Synced(t, fields, system)
  {
    SyncStores(t, fields, system);
    CleanLasts(fields, i);
    CleanIsStoredAs(fields[i], i + 1, system);
    KeptIsStored(t, Synced(t, fields, system), NormalizeAll(fields), system, i, RowOf(Normalize(fields[i], i + 1), i + 1, system));
  }

  lemma KeptIsStored(t: Table, u: Table, ds: seq<Definition>, system: bool, i: nat, row: Row)
    requires SyncedRows(t, u, ds, system) && i < |ds| && i < |Lasts(ds, |ds|)| && Lasts(ds, |ds|)[i] == i
    requires row == RowOf(ds[i], i + 1, system)
    ensures row in u
  {
    KeptRow(t, u, ds, system, i);
    assert u[KeptRows(u, ds)[i]] == row;
  }

  lemma CleanIsStoredAs(d: Definition, position: nat, system: bool)
    requires Clean(d)
    ensures RowOf(Normalize(d, position), position, system) == CleanRow(d, position, system)
  {
    CleanStays(d, position);
  }

  lemma CleanLasts(fields: seq<Definition>, i: nat)
    requires CleanList(fields) && i < |fields|
    ensures var lasts := Lasts(NormalizeAll(fields), |fields|); i < |lasts| && lasts[i] == i
  {
    var ds := NormalizeAll(fields);
    forall k, l | 0 <= k < l < |ds|
      ensures Key(ds[k]) != Key(ds[l])
    {
      CleanKeys(fields, k);
      CleanKeys(fields, l);
    }
    LastsDistinct(ds, |ds|);
  }

  // ----- The readers -----

  /** The reader lists the active rows by position, then by title, then by primary key. */
  lemma ReadInOrder(t: Table, i: nat, j: nat)
    requires i < j < |ActiveRows(t)|
    ensures var x, y := ActiveRows(t)[i], ActiveRows(t)[j];
      && x < |t| && y < |t| && t[x].active && t[y].active
      && (t[x].position < t[y].position
        || (t[x].position == t[y].position && (Before(Codes(t[x].title), Codes(t[y].title)) || (t[x].title == t[y].title && x < y))))
  {
    var keys := ActiveKeys(t);
    var x, y := ActiveRows(t)[i], ActiveRows(t)[j];
    OrderByLists(keys);
    assert x in ActiveRows(t) && y in ActiveRows(t);
    assert Ahead(keys, x, y);
    PositionFirst(t[x].position, t[x].title, t[y].position, t[y].title);
  }

  lemma PositionFirst(p: nat, a: string, q: nat, b: string)
    ensures Before([p] + Codes(a), [q] + Codes(b)) <==> p < q || (p == q && Before(Codes(a), Codes(b)))
    ensures [p] + Codes(a) == [q] + Codes(b) ==> p == q && a == b
  {
    assert ([p] + Codes(a))[1..] == Codes(a) && ([q] + Codes(b))[1..] == Codes(b);
    assert ([p] + Codes(a))[0] == p && ([q] + Codes(b))[0] == q;
    if Codes(a) == Codes(b) {
      SameCodes(a, b);
    }
  }

  lemma SameCodes(a: string, b: string)
    requires Codes(a) == Codes(b)
    ensures a == b
  {
    forall i | 0 <= i < |a|
      ensures a[i] == b[i]
    {
      assert Codes(a)[i] == Codes(b)[i];
    }
  }

  /** Every active row is listed, and no other. */
  lemma ReadsActive(t: Table, i: nat)
    ensures i in ActiveRows(t) <==> i < |t| && t[i].active
  {
    OrderByLists(ActiveKeys(t));
  }

  /** The keys of a profile's lifecycle fields. */
  predicate LifecycleKey(profile: Profile, key: string) {
    match profile
    case Broker => key == "lifecycle_stage"
    case Servicios => key == "service_stage" || key == "renewal_on" || key == "delivery_owner"
    case OtherProfile => false
  }

  /** The fallback has the configured keys and those of the profile's lifecycle fields, and no other. */
  lemma FallbackHas(fields: seq<Definition>, profile: Profile, key: string)
    ensures HasKey(Fallback(fields, profile), key) <==> Names(fields, key) || LifecycleKey(profile, key)
  {
    FallbackKeys(fields, profile, key);
    MissingKeys(fields, profile, key);
  }

  lemma MissingKeys(fields: seq<Definition>, profile: Profile, key: string)
    ensures Names(Missing(fields, profile), key) <==> LifecycleKey(profile, key) && !Names(fields, key)
  {
    var candidates := ProfileFields(profile);
    UnnamedKeys(candidates, fields, key, profile);
    if LifecycleKey(profile, key) {
      ProfileHas(profile, key);
    }
    if i :| 0 <= i < |candidates| && KeyOf(candidates[i]) == key {
      ProfileKeysFolded(profile, i);
    }
  }

  lemma ProfileHas(profile: Profile, key: string)
    requires LifecycleKey(profile, key)
    ensures Names(ProfileFields(profile), key)
  {
    var ds := ProfileFields(profile);
    var i := if key == "renewal_on" then 1 else if key == "delivery_owner" then 2 else 0;
    assert ds[i].key == Some(key);
    ProfileKeysFolded(profile, i);
  }

  lemma {:induction false} UnnamedKeys(candidates: seq<Definition>, fields: seq<Definition>, key: string, profile: Profile)
    requires forall i :: 0 <= i < |candidates| ==> candidates[i] in ProfileFields(profile)
    ensures Names(Unnamed(candidates, fields), key) <==> Names(candidates, key) && !Names(fields, key)
  {
    if candidates != [] {
      UnnamedKeys(candidates[1..], fields, key, profile);
      assert candidates[0] in ProfileFields(profile);
      var k :| 0 <= k < |ProfileFields(profile)| && ProfileFields(profile)[k] == candidates[0];
      ProfileKeysFolded(profile, k);
      UnnamedStep(candidates[0], candidates[1..], fields, key);
      assert candidates == [candidates[0]] + candidates[1..];
    }
  }

  lemma UnnamedStep(first: Definition, rest: seq<Definition>, fields: seq<Definition>, key: string)
    requires FoldedKey(first) && (Names(Unnamed(rest, fields), key) <==> Names(rest, key) && !Names(fields, key))
    ensures Names(Unnamed([first] + rest, fields), key) <==> Names([first] + rest, key) && !Names(fields, key)
  {
    assert ([first] + rest)[1..] == rest;
    NamesConcat([first], rest, key);
    NamesConcat(if Names(fields, Key(first)) then [] else [first], Unnamed(rest, fields), key);
    NamesOne(first, key);
  }

  lemma NamesOne(d: Definition, key: string)
    ensures Names([d], key) <==> KeyOf(d) == key
    ensures !Names([], key)
  {
    assert [d][0] == d;
  }

  /** A lifecycle field with clean parts normalises to these parts, and is not required. */
  lemma LifecycleNormal(key: string, title: string, kind: string, default: Option<string>, choices: seq<Choice>, p: nat)
    requires Tidy(key) && title != "" && TextLaws.Bare(title) && KnownKind(kind)
    requires forall i :: 0 <= i < |choices| ==> CleanChoice(choices[i])
    ensures Normalize(Lifecycle(key, title, kind, default, choices), p)
         == Definition(Some(key), Some(title), Some(kind), Some(false), Some(p), choices, default, map[])
  {
    var d := Lifecycle(key, title, kind, default, choices);
    CleanStays(d.(required := Some(false)), p);
  }

  lemma PickClean(value: string, title: string)
    requires value != "" && TextLaws.Bare(value) && title != "" && TextLaws.Bare(title)
    ensures CleanChoice(Pick(value, title))
  {
  }

  lemma BrokerChoices()
    ensures forall i :: 0 <= i < 3 ==> CleanChoice(BrokerLifecycle().choices[i])
  {
    PickClean("lead", "Lead");
    PickClean("asegurado", "Asegurado");
    PickClean("renovacion", "Renovacion");
  }

  lemma ServicesChoices()
    ensures forall i :: 0 <= i < 3 ==> CleanChoice(ServicesLifecycle().choices[i])
  {
    PickClean("prospecto", "Prospecto");
    PickClean("cliente_activo", "Cliente activo");
    PickClean("renovacion_upsell", "Renovacion / upsell");
  }

  /** The broker's lifecycle field as it is read: a stage to select, a lead by default. */
  lemma BrokerField(p: nat)
    ensures ProfileFields(Broker) == [BrokerLifecycle()]
    ensures Normalize(BrokerLifecycle(), p) ==
      Definition(Some("lifecycle_stage"), Some("Etapa broker"), Some("select"), Some(false), Some(p),
        [Entry(Some("lead"), Some("Lead")), Entry(Some("asegurado"), Some("Asegurado")),
         Entry(Some("renovacion"), Some("Renovacion"))],
        Some("lead"), map[])
  {
    BrokerChoices();
    LifecycleNormal("lifecycle_stage", "Etapa broker", "select", Some("lead"), BrokerLifecycle().choices, p);
  }

  /** A services tenant's: a stage to select, a prospect by default. */
  lemma ServicesField(p: nat)
    ensures Normalize(ServicesLifecycle(), p) ==
      Definition(Some("service_stage"), Some("Etapa servicios"), Some("select"), Some(false), Some(p),
        [Entry(Some("prospecto"), Some("Prospecto")), Entry(Some("cliente_activo"), Some("Cliente activo")),
         Entry(Some("renovacion_upsell"), Some("Renovacion / upsell"))],
        Some("prospecto"), map[])
  {
    ServicesChoices();
    LifecycleNormal("service_stage", "Etapa servicios", "select", Some("prospecto"), ServicesLifecycle().choices, p);
  }

  lemma ServicesFields()
    ensures ProfileFields(Servicios) == [ServicesLifecycle(), ServicesRenewal(), ServicesDeliveryOwner()]
  {
  }

  /** A date of renewal. */
  lemma RenewalField(p: nat)
    ensures Normalize(ServicesRenewal(), p) ==
      Definition(Some("renewal_on"), Some("Fecha de renovacion"), Some("date"), Some(false), Some(p), [], None, map[])
  {
    LifecycleNormal("renewal_on", "Fecha de renovacion", "date", None, [], p);
  }

  /** And who delivers. */
  lemma DeliveryField(p: nat)
    ensures Normalize(ServicesDeliveryOwner(), p) ==
      Definition(Some("delivery_owner"), Some("Responsable delivery"), Some("text"), Some(false), Some(p), [], None, map[])
  {
    LifecycleNormal("delivery_owner", "Responsable delivery", "text", None, [], p);
  }
}
