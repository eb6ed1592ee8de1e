/** Lists of primary keys: removing one, inserting one, and where one stands. */
module Listing {
  import opened RowOrder

  /** Where x first stands in s. */
  function Slot(s: seq<nat>, x: nat): (i: nat)
    requires x in s
    ensures i < |s| && s[i] == x && x !in s[..i]
  {
    if s[0] == x then 0
    else
      var i := 1 + Slot(s[1..], x);
      assert s[..i] == [s[0]] + s[1..][..i - 1];
      i
  }

  /** s without x. */
  function Drop(s: seq<nat>, x: nat): (r: seq<nat>) {
    if s == [] then []
    else if s[0] == x then Drop(s[1..], x)
    else [s[0]] + Drop(s[1..], x)
  }

  lemma {:induction false} DropAbsent(s: seq<nat>, x: nat)
    requires x !in s
    ensures Drop(s, x) == s
  {
    if s != [] {
      DropAbsent(s[1..], x);
    }
  }

  lemma {:induction false} DropConcat(a: seq<nat>, b: seq<nat>, x: nat)
    ensures Drop(a + b, x) == Drop(a, x) + Drop(b, x)
  {
    if a == [] {
      assert a + b == b;
    } else {
      assert (a + b)[1..] == a[1..] + b;
      DropConcat(a[1..], b, x);
    }
  }

  /** Dropping the element between two parts that do not hold it. */
  lemma DropBetween(a: seq<nat>, x: nat, b: seq<nat>)
    requires x !in a && x !in b
    ensures Drop(a + [x] + b, x) == a + b
  {
    assert Drop([x], x) == [] by {
      assert [x][1..] == [];
    }
    DropAbsent(a, x);
    DropAbsent(b, x);
    DropConcat(a + [x], b, x);
    DropConcat(a, [x], x);
    assert a + [] == a;
  }

  lemma SplitAt(s: seq<nat>, x: nat) returns (a: seq<nat>, b: seq<nat>)
    requires Distinct(s) && x in s
    ensures s == a + [x] + b && x !in a && x !in b
  {
    var i := Slot(s, x);
    a, b := s[..i], s[i + 1..];
  }

  lemma SingletonOf(s: seq<nat>, x: nat)
    requires Distinct(s) && x in s && forall y :: y in s ==> y == x
    ensures s == [x]
  {
    var last := |s| - 1;
    assert s[0] in s && s[last] in s;
  }

  lemma AscendingWithout(a: seq<nat>, x: nat, b: seq<nat>, keys: Keys)
    requires x !in a && x !in b && Ascending(a + [x] + b, keys)
    ensures Ascending(a + b, keys - {x})
  {
    var s, t, rest := a + [x] + b, a + b, keys - {x};
    forall y | y in t
      ensures y in rest
    {
      assert y in s;
    }
    forall j, k | 0 <= j < k < |t|
      ensures Ahead(rest, t[j], t[k])
    {
      var j' := if j < |a| then j else j + 1;
      var k' := if k < |a| then k else k + 1;
      assert t[j] == s[j'] && t[k] == s[k'];
      assert Ahead(keys, s[j'], s[k']);
    }
  }

  /** Taking a row out of the table takes it out of the listing, and changes no order. */
  lemma DropLists(s: seq<nat>, keys: Keys, x: nat)
    requires Lists(s, keys)
    ensures Lists(Drop(s, x), keys - {x})
  {
    if x !in s {
      DropAbsent(s, x);
      assert keys - {x} == keys;
    } else {
      ListsDistinct(s, keys);
      var a, b := SplitAt(s, x);
      DropBetween(a, x, b);
      AscendingWithout(a, x, b, keys);
      assert forall y :: y in keys - {x} ==> y in s && y != x;
    }
  }

  /** Python's list.insert for an index of any sign, clamped to the list. */
  function Clamp(p: int, n: nat): (i: nat)
    ensures i <= n
  {
    if p < 0 then 0 else if p < n then p else n
  }

  function InsertAt(s: seq<nat>, p: int, x: nat): (r: seq<nat>)
    ensures |r| == |s| + 1 && r[Clamp(p, |s|)] == x
  {
    s[..Clamp(p, |s|)] + [x] + s[Clamp(p, |s|)..]
  }

  lemma InsertMembers(s: seq<nat>, p: int, x: nat)
    ensures forall y :: y in InsertAt(s, p, x) <==> y == x || y in s
  {
  }

  /** Where the elements of s stand once x is inserted. */
  lemma InsertShifts(s: seq<nat>, p: int, x: nat, i: nat)
    requires i < |s|
    ensures InsertAt(s, p, x)[if i < Clamp(p, |s|) then i else i + 1] == s[i]
  {
  }

  lemma InsertDistinct(s: seq<nat>, p: int, x: nat)
    requires Distinct(s) && x !in s
    ensures Distinct(InsertAt(s, p, x))
  {
  }

  lemma InsertAtEnd(s: seq<nat>, p: int, x: nat)
    requires |s| <= p
    ensures InsertAt(s, p, x) == s + [x]
  {
  }
}
