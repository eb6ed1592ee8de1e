/** The merged reader of entity fields after a sync, against the fallback reader used without a stored schema. */
module MergedFieldLaws {
  import opened Wrappers
  import opened RowOrder
  import opened ObjectFields
  import opened ObjectFieldLaws
  import Text

  /** stored, followed by the definitions of a list at the positions that follow. */
  function Extended(stored: seq<Definition>, extra: seq<Definition>): (r: seq<Definition>)
    ensures |r| == |stored| + |extra|
  {
    stored + seq(|extra|, i requires 0 <= i < |extra| => Normalize(extra[i], |stored| + i + 1))
  }

  lemma KeepLastHasKey(fields: seq<Definition>, key: string) returns (i: nat)
    requires Names(fields, key)
    ensures i < |KeepLast(fields)| && Key(KeepLast(fields)[i]) == key
  {
    var ds := NormalizeAll(fields);
    var k :| 0 <= k < |fields| && KeyOf(fields[k]) == key;
    assert Key(ds[k]) == key;
    i := LastWithKept(ds, key);
    KeptKey(fields, i);
  }

  /** A kept definition has the key of a configured one. */
  lemma KeptKey(fields: seq<Definition>, i: nat)
    requires i < |KeepLast(fields)|
    ensures var j := Lasts(NormalizeAll(fields), |fields|)[i];
      Key(KeepLast(fields)[i]) == KeyOf(fields[j]) == Key(NormalizeAll(fields)[j])
  {
  }

  /** The kept definitions have exactly the configured keys. */
  lemma KeepLastKeys(fields: seq<Definition>, key: string)
    ensures HasKey(KeepLast(fields), key) <==> Names(fields, key)
  {
    if Names(fields, key) {
      var i := KeepLastHasKey(fields, key);
    }
    if HasKey(KeepLast(fields), key) {
      var i :| 0 <= i < |KeepLast(fields)| && Key(KeepLast(fields)[i]) == key;
      KeptKey(fields, i);
    }
  }

  // ----- The lifecycle fields -----

  /** A definition whose key is written in its normal form. */
  predicate FoldedKey(d: Definition) {
    d.key.Some? && KeyOf(d) == d.key.value
  }

  lemma ProfileKeysFolded(profile: Profile, i: nat)
    requires i < |ProfileFields(profile)|
    ensures FoldedKey(ProfileFields(profile)[i])
  {
    match profile
    case Broker => FoldedWord("lifecycle_stage");
    case Servicios =>
      if i == 0 {
        FoldedWord("service_stage");
      } else if i == 1 {
        FoldedWord("renewal_on");
      } else {
        FoldedWord("delivery_owner");
      }
  }

  lemma FoldedWord(word: string)
    requires Text.Stripped(word) && forall i :: 0 <= i < |word| ==> !('A' <= word[i] <= 'Z')
    ensures Text.Folded(word) == word
  {
  }

  lemma {:induction false} UnnamedContent(candidates: seq<Definition>, fields: seq<Definition>, i: nat)
    requires i < |Unnamed(candidates, fields)|
    ensures var d := Unnamed(candidates, fields)[i]; d in candidates && !Names(fields, Key(d))
  {
    var first := if Names(fields, Key(candidates[0])) then [] else [candidates[0]];
    if i >= |first| {
      assert Unnamed(candidates, fields)[i] == Unnamed(candidates[1..], fields)[i - |first|];
      UnnamedContent(candidates[1..], fields, i - |first|);
    }
  }

  lemma {:induction false} UnnamedDistinct(candidates: seq<Definition>, fields: seq<Definition>, i: nat, j: nat)
    requires forall k, l :: 0 <= k < l < |candidates| ==> Key(candidates[k]) != Key(candidates[l])
    requires i < j < |Unnamed(candidates, fields)|
    ensures Key(Unnamed(candidates, fields)[i]) != Key(Unnamed(candidates, fields)[j])
  {
    var rest := Unnamed(candidates[1..], fields);
    if Names(fields, Key(candidates[0])) {
      assert Unnamed(candidates, fields) == rest;
      UnnamedDistinct(candidates[1..], fields, i, j);
    } else if i > 0 {
      UnnamedDistinct(candidates[1..], fields, i - 1, j - 1);
    } else {
      UnnamedContent(candidates[1..], fields, j - 1);
      var d := rest[j - 1];
      var l :| 0 <= l < |candidates[1..]| && candidates[1..][l] == d;
      assert candidates[l + 1] == d;
    }
  }

  lemma ProfileKeysDistinct(profile: Profile)
    ensures var ds := ProfileFields(profile); forall k, l :: 0 <= k < l < |ds| ==> Key(ds[k]) != Key(ds[l])
  {
  }

  /** A missing lifecycle field has its key in normal form, and no configured field has that key. */
  lemma MissingContent(fields: seq<Definition>, profile: Profile, i: nat)
    requires i < |Missing(fields, profile)|
    ensures FoldedKey(Missing(fields, profile)[i]) && !Names(fields, KeyOf(Missing(fields, profile)[i]))
  {
    UnnamedContent(ProfileFields(profile), fields, i);
    var d := Missing(fields, profile)[i];
    var k :| 0 <= k < |ProfileFields(profile)| && ProfileFields(profile)[k] == d;
    ProfileKeysFolded(profile, k);
  }

  // ----- The merged reader -----

  lemma ExtendedSnoc(stored: seq<Definition>, extra: seq<Definition>)
    requires extra != []
    ensures var n := |extra| - 1;
      Extended(stored, extra) == Extended(stored, extra[..n]) + [Normalize(extra[n], |stored| + |extra|)]
  {
  }

  /** Candidate i is not stored, and normalises as extra[i] does. */
  predicate Comes(stored: seq<Definition>, candidates: seq<Definition>, extra: seq<Definition>, i: nat)
    requires i < |candidates| && i < |extra|
  {
    && !HasKey(stored, Key(candidates[i]))
    && Normalize(candidates[i], |stored| + i + 1) == Normalize(extra[i], |stored| + i + 1)
  }

  lemma {:induction false} AppendsFirst(stored: seq<Definition>, candidates: seq<Definition>, extra: seq<Definition>, n: nat)
    requires n <= |extra| <= |candidates| && forall i :: 0 <= i < n ==> Comes(stored, candidates, extra, i)
    ensures Appended(stored, candidates, n) == Extended(stored, extra[..n])
  {
    if n > 0 {
      AppendsFirst(stored, candidates, extra, n - 1);
      AppendsNext(stored, candidates, extra, n, Appended(stored, candidates, n - 1));
    } else {
      assert Extended(stored, []) == stored;
    }
  }

  lemma AppendsNext(
    stored: seq<Definition>, candidates: seq<Definition>, extra: seq<Definition>, n: nat, merged: seq<Definition>)
    requires 0 < n <= |extra| <= |candidates| && Comes(stored, candidates, extra, n - 1)
    requires merged == Extended(stored, extra[..n - 1])
    ensures AppendUnstored(stored, merged, candidates[n - 1]) == Extended(stored, extra[..n])
  {
    assert extra[..n][..n - 1] == extra[..n - 1];
    ExtendedSnoc(stored, extra[..n]);
  }

  /** From a point on every candidate is stored. */
  lemma {:induction false} AppendsNoMore(stored: seq<Definition>, candidates: seq<Definition>, m: nat, n: nat)
    requires m <= n <= |candidates| && forall i :: m <= i < n ==> HasKey(stored, Key(candidates[i]))
    ensures Appended(stored, candidates, n) == Appended(stored, candidates, m)
  {
    if m < n {
      AppendsNoMore(stored, candidates, m, n - 1);
    }
  }

  /** A missing lifecycle field is not stored, and the fallback's copy of it normalises as it does. */
  lemma MissingComes(fields: seq<Definition>, profile: Profile, i: nat)
    requires i < |Missing(fields, profile)|
    ensures Comes(KeepLast(fields), Fallback(fields, profile), Missing(fields, profile), i)
  {
    var d, candidate := Missing(fields, profile)[i], Fallback(fields, profile)[i];
    assert candidate == Normalize(d, i + 1);
    KeepLastKeys(fields, Key(candidate));
    MissingContent(fields, profile, i);
    NormalizeTwice(d, i + 1, |KeepLast(fields)| + i + 1);
  }

  /** A configured field of the fallback is stored. */
  lemma StoredCandidate(fields: seq<Definition>, profile: Profile, i: nat)
    requires |Missing(fields, profile)| <= i < |Fallback(fields, profile)|
    ensures HasKey(KeepLast(fields), Key(Fallback(fields, profile)[i]))
  {
    var d := fields[i - |Missing(fields, profile)|];
    assert Fallback(fields, profile)[i] == Normalize(d, i + 1);
    assert Names(fields, KeyOf(d));
    KeepLastKeys(fields, KeyOf(d));
  }

  /** The missing lifecycle fields come first in the fallback and are appended; the configured ones are stored already. */
  lemma AppendedMissing(fields: seq<Definition>, profile: Profile, stored: seq<Definition>, n: nat)
    requires stored == KeepLast(fields) && n == |Fallback(fields, profile)|
    ensures Appended(stored, Fallback(fields, profile), n) == Extended(stored, Missing(fields, profile))
  {
    var missing, fallback := Missing(fields, profile), Fallback(fields, profile);
    forall i | 0 <= i < |missing|
      ensures Comes(stored, fallback, missing, i)
    {
      MissingComes(fields, profile, i);
    }
    forall i | |missing| <= i < |fallback|
      ensures HasKey(stored, Key(fallback[i]))
    {
      StoredCandidate(fields, profile, i);
    }
    AppendsFirst(stored, fallback, missing, |missing|);
    AppendsNoMore(stored, fallback, |missing|, n);
    assert missing[..|missing|] == missing;
  }

  /**
     After a sync of the entity fields, the merged reader gives each configured definition, the last
     of each key, in configured order, and then each missing lifecycle field of the profile.
   */
  lemma MergedAfterSync(t: Table, fields: seq<Definition>, profile: Profile)
    requires UniqueKeys(t) && NoForeign(t, fields, false)
    ensures Merged(Synced(t, fields, false), fields, profile) == Extended(KeepLast(fields), Missing(fields, profile))
  {
    SyncThenRead(t, fields, false);
    AppendedMissing(fields, profile, KeepLast(fields), |Fallback(fields, profile)|);
  }

  // ----- Its positions -----

  lemma {:induction false} AppendedPositions(stored: seq<Definition>, candidates: seq<Definition>, n: nat, i: nat)
    requires n <= |candidates| && forall k :: 0 <= k < |stored| ==> stored[k].position == Some(k + 1)
    requires i < |Appended(stored, candidates, n)|
    ensures Appended(stored, candidates, n)[i].position == Some(i + 1)
  {
    if n > 0 && i < |Appended(stored, candidates, n - 1)| {
      AppendedPositions(stored, candidates, n - 1, i);
    }
  }

  /** From any table, the merged reader numbers its definitions 1, 2, ... without a gap. */
  lemma MergedPositions(t: Table, fields: seq<Definition>, profile: Profile, i: nat)
    requires i < |Merged(t, fields, profile)|
    ensures Merged(t, fields, profile)[i].position == Some(i + 1)
  {
    AppendedPositions(Definitions(t), Fallback(fields, profile), |Fallback(fields, profile)|, i);
  }

  // ----- Its keys -----

  lemma NormalizedKeys(ds: seq<Definition>, key: string)
    ensures HasKey(NormalizeAll(ds), key) <==> Names(ds, key)
  {
  }

  lemma NamesConcat(a: seq<Definition>, b: seq<Definition>, key: string)
    ensures Names(a + b, key) <==> Names(a, key) || Names(b, key)
  {
    assert forall i :: 0 <= i < |a| ==> (a + b)[i] == a[i];
    assert forall i :: 0 <= i < |b| ==> (a + b)[|a| + i] == b[i];
  }

  lemma FallbackKeys(fields: seq<Definition>, profile: Profile, key: string)
    ensures HasKey(Fallback(fields, profile), key) <==> Names(Missing(fields, profile), key) || Names(fields, key)
  {
    NormalizedKeys(Missing(fields, profile) + fields, key);
    NamesConcat(Missing(fields, profile), fields, key);
  }

  lemma FallbackKeyFolded(fields: seq<Definition>, profile: Profile, i: nat)
    requires i < |Fallback(fields, profile)|
    ensures FoldedKey(Fallback(fields, profile)[i])
  {
    var ds := Missing(fields, profile) + fields;
    assert Fallback(fields, profile)[i] == Normalize(ds[i], i + 1);
    KeyTwice(ds[i], i + 1);
  }

  /** One of the first n candidates has the key. */
  predicate Among(candidates: seq<Definition>, n: nat, key: string)
    requires n <= |candidates|
  {
    exists i :: 0 <= i < n && Key(candidates[i]) == key
  }

  lemma HasKeyLast(merged: seq<Definition>, d: Definition, key: string)
    ensures HasKey(merged + [d], key) <==> HasKey(merged, key) || Key(d) == key
  {
    var all := merged + [d];
    assert all[|merged|] == d;
    assert forall i :: 0 <= i < |merged| ==> all[i] == merged[i];
    if HasKey(merged, key) {
      var i :| 0 <= i < |merged| && Key(merged[i]) == key;
      assert Key(all[i]) == key;
    }
  }

  ghost predicate AllFolded(candidates: seq<Definition>) {
    forall i :: 0 <= i < |candidates| ==> FoldedKey(candidates[i])
  }

  lemma FallbackFolded(fields: seq<Definition>, profile: Profile)
    ensures AllFolded(Fallback(fields, profile))
  {
    forall i | 0 <= i < |Fallback(fields, profile)|
      ensures FoldedKey(Fallback(fields, profile)[i])
    {
      FallbackKeyFolded(fields, profile, i);
    }
  }

  lemma AmongStep(candidates: seq<Definition>, n: nat, key: string)
    requires 0 < n <= |candidates|
    ensures Among(candidates, n, key) <==> Among(candidates, n - 1, key) || Key(candidates[n - 1]) == key
  {
  }

  lemma UnstoredKeys(stored: seq<Definition>, merged: seq<Definition>, d: Definition, key: string)
    requires FoldedKey(d) && (HasKey(stored, key) ==> HasKey(merged, key))
    ensures HasKey(AppendUnstored(stored, merged, d), key) <==> HasKey(merged, key) || Key(d) == key
  {
    if !HasKey(stored, Key(d)) {
      HasKeyLast(merged, Normalize(d, |merged| + 1), key);
    }
  }

  /** Appending leaves the stored keys and adds those of the candidates. */
  lemma {:induction false} AppendedKeys(stored: seq<Definition>, candidates: seq<Definition>, n: nat, key: string)
    requires n <= |candidates| && AllFolded(candidates)
    ensures HasKey(Appended(stored, candidates, n), key) <==> HasKey(stored, key) || Among(candidates, n, key)
  {
    if n > 0 {
      AppendedKeys(stored, candidates, n - 1, key);
      AmongStep(candidates, n, key);
      UnstoredKeys(stored, Appended(stored, candidates, n - 1), candidates[n - 1], key);
    }
  }

  /** From any table, the merged reader has the keys that are stored and those of the fallback. */
  lemma MergedKeys(t: Table, fields: seq<Definition>, profile: Profile, key: string)
    ensures HasKey(Merged(t, fields, profile), key) <==> HasKey(Definitions(t), key) || HasKey(Fallback(fields, profile), key)
  {
    var fallback := Fallback(fields, profile);
    FallbackFolded(fields, profile);
    AppendedKeys(Definitions(t), fallback, |fallback|, key);
  }

  /** The row is active and its key in normal form is this one. */
  predicate Shown(t: Table, i: nat, key: string) {
    i < |t| && t[i].active && Text.Folded(t[i].key) == key
  }

  lemma DefinitionKeys(t: Table, key: string)
    ensures HasKey(Definitions(t), key) <==> exists i: nat :: Shown(t, i, key)
  {
    if i: nat :| Shown(t, i, key) {
      ShownIsRead(t, i, key);
    }
    if HasKey(Definitions(t), key) {
      var k :| 0 <= k < |Definitions(t)| && Key(Definitions(t)[k]) == key;
      OrderByLists(ActiveKeys(t));
      assert ActiveRows(t)[k] in ActiveKeys(t);
      assert Shown(t, ActiveRows(t)[k], key);
    }
  }

  lemma ShownIsRead(t: Table, i: nat, key: string)
    requires Shown(t, i, key)
    ensures HasKey(Definitions(t), key)
  {
    OrderByLists(ActiveKeys(t));
    assert i in ActiveKeys(t);
    ListedHasKey(t, ActiveRows(t), i);
  }

  lemma ListedHasKey(t: Table, rows: seq<nat>, i: nat)
    requires i in rows && i < |t| && forall k :: 0 <= k < |rows| ==> rows[k] < |t|
    ensures HasKey(Listed(t, rows), Text.Folded(t[i].key))
  {
    var k :| 0 <= k < |rows| && rows[k] == i;
    assert Key(Listed(t, rows)[k]) == Text.Folded(t[i].key);
  }

  /** An active system row whose key is neither configured nor that of a missing lifecycle field. */
  predicate Stranger(t: Table, fields: seq<Definition>, profile: Profile, i: nat) {
    i < |t| && t[i].active && t[i].system && !HasKey(Fallback(fields, profile), Text.Folded(t[i].key))
  }

  lemma ConfiguredInFallback(fields: seq<Definition>, profile: Profile, key: string)
    requires Configured(NormalizeAll(fields), |fields|, key)
    ensures HasKey(Fallback(fields, profile), key) && Text.Folded(key) == key
  {
    var j :| 0 <= j < |fields| && Key(NormalizeAll(fields)[j]) == key;
    assert KeyOf(fields[j]) == key;
    Text.FoldedTwice(fields[j].key.GetOr(""));
    FallbackKeys(fields, profile, key);
  }

  /** After a sync, a row read outside the fallback is a stranger that was there before. */
  lemma OutsideIsStranger(t: Table, fields: seq<Definition>, profile: Profile, i: nat)
    requires UniqueKeys(t)
    ensures var u := Synced(t, fields, false);
      (i < |u| && u[i].active && !HasKey(Fallback(fields, profile), Text.Folded(u[i].key))) <==> Stranger(t, fields, profile, i)
  {
    var ds, u := NormalizeAll(fields), Synced(t, fields, false);
    SyncStores(t, fields, false);
    if i < |u| && Configured(ds, |ds|, u[i].key) {
      ConfiguredInFallback(fields, profile, u[i].key);
    }
  }

  /**
     After a sync of the entity fields, the merged reader has exactly the keys of the fallback, which is
     used without a stored schema, if and only if no active system row is a stranger to it.
   */
  lemma MergedKeysAreFallbackKeys(t: Table, fields: seq<Definition>, profile: Profile)
    requires UniqueKeys(t)
    ensures (forall key :: HasKey(Merged(Synced(t, fields, false), fields, profile), key) <==> HasKey(Fallback(fields, profile), key))
      <==> (forall i: nat :: !Stranger(t, fields, profile, i))
  {
    var u := Synced(t, fields, false);
    if i: nat :| Stranger(t, fields, profile, i) {
      OutsideIsStranger(t, fields, profile, i);
      var key := Text.Folded(u[i].key);
      assert Shown(u, i, key);
      DefinitionKeys(u, key);
      MergedKeys(u, fields, profile, key);
    } else {
      forall key
        ensures HasKey(Merged(u, fields, profile), key) <==> HasKey(Fallback(fields, profile), key)
      {
        MergedKeys(u, fields, profile, key);
        DefinitionKeys(u, key);
        if i: nat :| Shown(u, i, key) {
          OutsideIsStranger(t, fields, profile, i);
        }
      }
    }
  }

  // ----- Each key once -----

  ghost predicate OnceEach(ds: seq<Definition>) {
    forall i, j :: 0 <= i < j < |ds| ==> Key(ds[i]) != Key(ds[j])
  }

  /** Stored keys are in normal form, as every sync stores them. */
  ghost predicate FoldedKeys(t: Table) {
    forall i :: 0 <= i < |t| ==> Text.Folded(t[i].key) == t[i].key
  }

  lemma SyncKeepsFolded(t: Table, fields: seq<Definition>, system: bool)
    requires UniqueKeys(t) && FoldedKeys(t)
    ensures UniqueKeys(Synced(t, fields, system)) && FoldedKeys(Synced(t, fields, system))
  {
    var ds, u := NormalizeAll(fields), Synced(t, fields, system);
    SyncStores(t, fields, system);
    forall i | 0 <= i < |u|
      ensures Text.Folded(u[i].key) == u[i].key
    {
      if Configured(ds, |ds|, u[i].key) {
        ConfiguredInFallback(fields, OtherProfile, u[i].key);
      }
    }
  }

  lemma DefinitionsOnce(t: Table)
    requires UniqueKeys(t) && FoldedKeys(t)
    ensures OnceEach(Definitions(t))
  {
    OrderByLists(ActiveKeys(t));
    AscendingDistinct(ActiveRows(t), ActiveKeys(t));
    ListedOnce(t, ActiveRows(t));
  }

  lemma ListedOnce(t: Table, rows: seq<nat>)
    requires UniqueKeys(t) && FoldedKeys(t) && Distinct(rows) && forall i :: 0 <= i < |rows| ==> rows[i] < |t|
    ensures OnceEach(Listed(t, rows))
  {
    forall i, j | 0 <= i < j < |rows|
      ensures Key(Listed(t, rows)[i]) != Key(Listed(t, rows)[j])
    {
      assert rows[i] != rows[j];
    }
  }

  /** Candidates that repeat an earlier one are stored. */
  ghost predicate RepeatsStored(stored: seq<Definition>, candidates: seq<Definition>) {
    forall j :: 0 <= j < |candidates| && Among(candidates, j, Key(candidates[j])) ==> HasKey(stored, Key(candidates[j]))
  }

  lemma UnstoredOnce(stored: seq<Definition>, merged: seq<Definition>, d: Definition)
    requires OnceEach(merged) && FoldedKey(d) && (HasKey(merged, Key(d)) ==> HasKey(stored, Key(d)))
    ensures OnceEach(AppendUnstored(stored, merged, d))
  {
  }

  lemma OnceStep(stored: seq<Definition>, candidates: seq<Definition>, n: nat, merged: seq<Definition>)
    requires n < |candidates| && AllFolded(candidates) && RepeatsStored(stored, candidates)
    requires merged == Appended(stored, candidates, n) && OnceEach(merged)
    ensures OnceEach(AppendUnstored(stored, merged, candidates[n]))
  {
    AppendedKeys(stored, candidates, n, Key(candidates[n]));
    UnstoredOnce(stored, merged, candidates[n]);
  }

  /** So no key is appended twice. */
  lemma {:induction false} AppendedOnce(stored: seq<Definition>, candidates: seq<Definition>, n: nat)
    requires n <= |candidates| && OnceEach(stored) && AllFolded(candidates) && RepeatsStored(stored, candidates)
    ensures OnceEach(Appended(stored, candidates, n))
  {
    if n > 0 {
      AppendedOnce(stored, candidates, n - 1);
      OnceStep(stored, candidates, n - 1, Appended(stored, candidates, n - 1));
    }
  }

  lemma MissingOnce(fields: seq<Definition>, profile: Profile, i: nat, j: nat)
    requires i < j < |Missing(fields, profile)|
    ensures KeyOf(Missing(fields, profile)[i]) != KeyOf(Missing(fields, profile)[j])
  {
    MissingContent(fields, profile, i);
    MissingContent(fields, profile, j);
    ProfileKeysDistinct(profile);
    UnnamedDistinct(ProfileFields(profile), fields, i, j);
  }

  /** After a sync every configured key is stored. */
  lemma ConfiguredIsStored(t: Table, fields: seq<Definition>, d: Definition)
    requires UniqueKeys(t) && d in fields
    ensures HasKey(Definitions(Synced(t, fields, false)), KeyOf(d))
  {
    var ds, u, key := NormalizeAll(fields), Synced(t, fields, false), KeyOf(d);
    SyncStores(t, fields, false);
    var j :| 0 <= j < |fields| && fields[j] == d;
    assert Key(ds[j]) == key;
    assert Configured(ds, |ds|, key);
    ConfiguredInFallback(fields, OtherProfile, key);
    assert Shown(u, Find(u, key), key);
    DefinitionKeys(u, key);
  }

  lemma RepeatIsStored(t: Table, fields: seq<Definition>, profile: Profile, i: nat, j: nat)
    requires UniqueKeys(t) && i < j < |Fallback(fields, profile)|
    requires Key(Fallback(fields, profile)[i]) == Key(Fallback(fields, profile)[j])
    ensures HasKey(Definitions(Synced(t, fields, false)), Key(Fallback(fields, profile)[j]))
  {
    var missing := Missing(fields, profile);
    var n := |missing|;
    if j < n {
      assert Fallback(fields, profile)[i] == Normalize(missing[i], i + 1);
      assert Fallback(fields, profile)[j] == Normalize(missing[j], j + 1);
      MissingOnce(fields, profile, i, j);
    } else {
      assert Fallback(fields, profile)[j] == Normalize(fields[j - n], j + 1);
      ConfiguredIsStored(t, fields, fields[j - n]);
    }
  }

  /** After a sync no key comes twice, whatever else is stored. */
  lemma MergedOnce(t: Table, fields: seq<Definition>, profile: Profile)
    requires UniqueKeys(t) && FoldedKeys(t)
    ensures OnceEach(Merged(Synced(t, fields, false), fields, profile))
  {
    var u, fallback := Synced(t, fields, false), Fallback(fields, profile);
    SyncKeepsFolded(t, fields, false);
    DefinitionsOnce(u);
    FallbackFolded(fields, profile);
    forall j | 0 <= j < |fallback| && Among(fallback, j, Key(fallback[j]))
      ensures HasKey(Definitions(u), Key(fallback[j]))
    {
      var i :| 0 <= i < j && Key(fallback[i]) == Key(fallback[j]);
      RepeatIsStored(t, fields, profile, i, j);
    }
    AppendedOnce(Definitions(u), fallback, |fallback|);
  }

  // ----- Its order, whatever else is stored -----

  /** Those of the first n candidates whose key is not stored. */
  function Unstored(stored: seq<Definition>, candidates: seq<Definition>, n: nat): seq<Definition>
    requires n <= |candidates|
  {
    if n == 0 then []
    else Unstored(stored, candidates, n - 1) + if HasKey(stored, Key(candidates[n - 1])) then [] else [candidates[n - 1]]
  }

  lemma UnstoredStep(stored: seq<Definition>, merged: seq<Definition>, extra: seq<Definition>, d: Definition)
    requires merged == Extended(stored, extra)
    ensures AppendUnstored(stored, merged, d) == Extended(stored, extra + if HasKey(stored, Key(d)) then [] else [d])
  {
    if HasKey(stored, Key(d)) {
      assert extra + [] == extra;
    } else {
      assert (extra + [d])[..|extra|] == extra;
      ExtendedSnoc(stored, extra + [d]);
    }
  }

  lemma {:induction false} AppendedIsExtended(stored: seq<Definition>, candidates: seq<Definition>, n: nat)
    requires n <= |candidates|
    ensures Appended(stored, candidates, n) == Extended(stored, Unstored(stored, candidates, n))
  {
    if n == 0 {
      assert Extended(stored, []) == stored;
    } else {
      AppendedIsExtended(stored, candidates, n - 1);
      UnstoredStep(stored, Appended(stored, candidates, n - 1), Unstored(stored, candidates, n - 1), candidates[n - 1]);
    }
  }

  /**
     From any stored table, after a sync the merged reader lists what is stored, as the other reader does,
     and then, in the profile's order, the missing lifecycle fields whose keys are not stored.
   */
  lemma MergedInOrder(t: Table, fields: seq<Definition>, profile: Profile, stored: seq<Definition>)
    requires UniqueKeys(t) && stored == Definitions(Synced(t, fields, false))
    ensures Merged(Synced(t, fields, false), fields, profile)
         == Extended(stored, Unstored(stored, Fallback(fields, profile), |Missing(fields, profile)|))
  {
    var m, fallback := |Missing(fields, profile)|, Fallback(fields, profile);
    forall i | m <= i < |fallback|
      ensures HasKey(stored, Key(fallback[i]))
    {
      FallbackField(fields, profile, i);
      ConfiguredIsStored(t, fields, fields[i - m]);
    }
    AppendsNoMore(stored, fallback, m, |fallback|);
    AppendedIsExtended(stored, fallback, m);
  }

  lemma FallbackField(fields: seq<Definition>, profile: Profile, i: nat)
    requires |Missing(fields, profile)| <= i < |Fallback(fields, profile)|
    ensures var d := fields[i - |Missing(fields, profile)|];
      d in fields && Key(Fallback(fields, profile)[i]) == KeyOf(d)
  {
    assert Fallback(fields, profile)[i] == Normalize(fields[i - |Missing(fields, profile)|], i + 1);
  }
}
