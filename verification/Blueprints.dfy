/** Document blueprints: three lists merged through a position index, later definitions overriding earlier ones in place. */
module Blueprints {

  /** A blueprint is named by its key; the rest of it is one value. */
  datatype Blueprint = Blueprint(key: string, content: string)

  predicate HasKey(bs: seq<Blueprint>, key: string) {
    exists i :: 0 <= i < |bs| && bs[i].key == key
  }

  /** The last definition of a key. */
  function LastOf(bs: seq<Blueprint>, key: string): Blueprint
    requires HasKey(bs, key)
  {
    if bs[|bs| - 1].key == key then bs[|bs| - 1] else LastOf(bs[..|bs| - 1], key)
  }

  /** The keys of a list in the order in which they first occur. */
  function KeysInOrder(bs: seq<Blueprint>): seq<string> {
    if bs == [] then []
    else
      var before, b := bs[..|bs| - 1], bs[|bs| - 1];
      if HasKey(before, b.key) then KeysInOrder(before) else KeysInOrder(before) + [b.key]
  }

  lemma {:induction false} KeysInOrderAll(bs: seq<Blueprint>)
    ensures forall key :: key in KeysInOrder(bs) <==> HasKey(bs, key)
    ensures forall i, j :: 0 <= i < j < |KeysInOrder(bs)| ==> KeysInOrder(bs)[i] != KeysInOrder(bs)[j]
  {
    if bs != [] {
      var before, b := bs[..|bs| - 1], bs[|bs| - 1];
      KeysInOrderAll(before);
      forall key
        ensures HasKey(bs, key) <==> HasKey(before, key) || b.key == key
      {
        HasKeyStep(bs, key);
      }
    }
  }

  lemma HasKeyStep(bs: seq<Blueprint>, key: string)
    requires bs != []
    ensures HasKey(bs, key) <==> HasKey(bs[..|bs| - 1], key) || bs[|bs| - 1].key == key
  {
  }

  /** Folding a list into a dictionary, later entries overriding. */
  function Fold(bs: seq<Blueprint>): map<string, Blueprint> {
    if bs == [] then map[] else Fold(bs[..|bs| - 1])[bs[|bs| - 1].key := bs[|bs| - 1]]
  }

  lemma {:induction false} FoldIsLast(bs: seq<Blueprint>, key: string)
    ensures key in Fold(bs) <==> HasKey(bs, key)
    ensures HasKey(bs, key) ==> Fold(bs)[key] == LastOf(bs, key)
  {
    if bs != [] {
      FoldIsLast(bs[..|bs| - 1], key);
      HasKeyStep(bs, key);
    }
  }

  /** merged holds each key of seen once, in first-occurrence order, with its last definition; positions says where. */
  ghost predicate Merging(seen: seq<Blueprint>, merged: seq<Blueprint>, positions: map<string, nat>) {
    && |merged| == |KeysInOrder(seen)|
    && (forall i :: 0 <= i < |merged| ==> merged[i].key == KeysInOrder(seen)[i])
    && (forall i :: 0 <= i < |merged| ==> HasKey(seen, merged[i].key) && merged[i] == LastOf(seen, merged[i].key))
    && (forall key :: key in positions <==> HasKey(seen, key))
    && (forall key :: key in positions ==> positions[key] < |merged| && merged[positions[key]].key == key)
  }

  lemma SeenStep(seen: seq<Blueprint>, b: Blueprint, key: string)
    ensures HasKey(seen + [b], key) <==> HasKey(seen, key) || b.key == key
    ensures HasKey(seen + [b], key) ==> LastOf(seen + [b], key) == if b.key == key then b else LastOf(seen, key)
  {
    assert (seen + [b])[..|seen|] == seen;
    HasKeyStep(seen + [b], key);
  }

  lemma KeysStep(seen: seq<Blueprint>, b: Blueprint)
    ensures KeysInOrder(seen + [b]) == KeysInOrder(seen) + if HasKey(seen, b.key) then [] else [b.key]
  {
  }

  lemma OverrideLast(seen: seq<Blueprint>, merged: seq<Blueprint>, k: nat, b: Blueprint)
    requires k < |merged| == |KeysInOrder(seen)| && merged[k].key == b.key
    requires forall i :: 0 <= i < |merged| ==> merged[i].key == KeysInOrder(seen)[i]
    requires forall i :: 0 <= i < |merged| ==> HasKey(seen, merged[i].key) && merged[i] == LastOf(seen, merged[i].key)
    ensures var after := merged[k := b];
      forall i :: 0 <= i < |after| ==> HasKey(seen + [b], after[i].key) && after[i] == LastOf(seen + [b], after[i].key)
  {
    KeysInOrderAll(seen);
    var after := merged[k := b];
    forall i | 0 <= i < |after|
      ensures HasKey(seen + [b], after[i].key) && after[i] == LastOf(seen + [b], after[i].key)
    {
      assert i != k ==> merged[i].key != b.key;
      SeenStep(seen, b, after[i].key);
    }
  }

  /** A known key: its definition is overridden in place. */
  lemma MergingOverride(seen: seq<Blueprint>, merged: seq<Blueprint>, positions: map<string, nat>, b: Blueprint)
    requires Merging(seen, merged, positions) && b.key in positions
    ensures Merging(seen + [b], merged[positions[b.key] := b], positions)
  {
    var after := merged[positions[b.key] := b];
    KeysStep(seen, b);
    OverrideLast(seen, merged, positions[b.key], b);
    forall key
      ensures key in positions <==> HasKey(seen + [b], key)
    {
      SeenStep(seen, b, key);
    }
  }

  /** A new key: its definition goes to the end. */
  lemma MergingAppend(seen: seq<Blueprint>, merged: seq<Blueprint>, positions: map<string, nat>, b: Blueprint)
    requires Merging(seen, merged, positions) && b.key !in positions
    ensures Merging(seen + [b], merged + [b], positions[b.key := |merged|])
  {
    var after := merged + [b];
    KeysStep(seen, b);
    forall i | 0 <= i < |after|
      ensures HasKey(seen + [b], after[i].key) && after[i] == LastOf(seen + [b], after[i].key)
    {
      SeenStep(seen, b, after[i].key);
    }
    forall key
      ensures key in positions[b.key := |merged|] <==> HasKey(seen + [b], key)
    {
      SeenStep(seen, b, key);
    }
  }

  lemma {:induction false} LastOfHasKey(bs: seq<Blueprint>, key: string)
    requires HasKey(bs, key)
    ensures LastOf(bs, key).key == key
  {
    if bs[|bs| - 1].key != key {
      HasKeyStep(bs, key);
      LastOfHasKey(bs[..|bs| - 1], key);
    }
  }

  /** One of the three lists merged into what the lists before it gave. */
  method MergeList(ghost before: seq<Blueprint>, list: seq<Blueprint>, start: seq<Blueprint>, known: map<string, nat>)
      returns (merged: seq<Blueprint>, positions: map<string, nat>)
    requires Merging(before, start, known)
    ensures Merging(before + list, merged, positions)
  {
    merged, positions := start, known;
    assert before + [] == before;
    for i := 0 to |list|
      invariant Merging(before + list[..i], merged, positions)
    {
      var b := list[i];
      assert before + list[..i + 1] == before + list[..i] + [b];
      if b.key in positions {
        MergingOverride(before + list[..i], merged, positions, b);
        merged := merged[positions[b.key] := b];
        continue;
      }
      MergingAppend(before + list[..i], merged, positions, b);
      positions := positions[b.key := |merged|];
      merged := merged + [b];
    }
    assert list[..|list|] == list;
  }

  /** The merge of general, profile and custom blueprints. */
  method GetDocumentBlueprints(general: seq<Blueprint>, profile: seq<Blueprint>, custom: seq<Blueprint>)
      returns (merged: seq<Blueprint>)
    ensures var all := general + profile + custom;
      && |merged| == |KeysInOrder(all)|
      && forall i :: 0 <= i < |merged| ==> HasKey(all, KeysInOrder(all)[i]) && merged[i] == LastOf(all, KeysInOrder(all)[i])
  {
    var positions: map<string, nat> := map[];
    merged := [];
    merged, positions := MergeList([], general, merged, positions);
    assert [] + general == general;
    merged, positions := MergeList(general, profile, merged, positions);
    merged, positions := MergeList(general + profile, custom, merged, positions);
  }

  /** The map that is built from the merged list. */
  method GetDocumentBlueprintMap(general: seq<Blueprint>, profile: seq<Blueprint>, custom: seq<Blueprint>)
      returns (byKey: map<string, Blueprint>)
    ensures byKey == Fold(general + profile + custom)
  {
    var merged := GetDocumentBlueprints(general, profile, custom);
    ghost var all := general + profile + custom;
    KeysInOrderAll(all);
    assert forall i :: 0 <= i < |merged| ==> KeysInOrder(all)[i] in KeysInOrder(all);
    forall i | 0 <= i < |merged|
      ensures merged[i].key == KeysInOrder(all)[i]
    {
      LastOfHasKey(all, KeysInOrder(all)[i]);
    }
    byKey := map i | 0 <= i < |merged| :: merged[i].key := merged[i];
    forall key
      ensures key in byKey <==> key in Fold(all)
      ensures key in byKey ==> byKey[key] == Fold(all)[key]
    {
      FoldIsLast(all, key);
      if HasKey(all, key) {
        var i :| 0 <= i < |merged| && KeysInOrder(all)[i] == key;
        assert merged[i].key == key;
      }
    }
  }
}
