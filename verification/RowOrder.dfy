/**
 A query with an ORDER BY clause, over rows numbered by primary key.

 Each row has a sort key, a sequence of integers compared lexicographically, and the
 primary key breaks what ties are left. `OrderBy` is the answer of the query; every
 listing that is ascending and holds the same rows is that answer (`OrderByUnique`).
 */
module RowOrder {

  type Keys = map<nat, seq<int>>

  /** Strict lexicographic order; a proper prefix comes first. */
  predicate Before(a: seq<int>, b: seq<int>) {
    if b == [] then false
    else if a == [] then true
    else a[0] < b[0] || (a[0] == b[0] && Before(a[1..], b[1..]))
  }

  lemma {:induction false} BeforeAsymmetric(a: seq<int>, b: seq<int>)
    requires Before(a, b)
    ensures !Before(b, a)
  {
    if a != [] && a[0] == b[0] {
      BeforeAsymmetric(a[1..], b[1..]);
    }
  }

  lemma {:induction false} BeforeTransitive(a: seq<int>, b: seq<int>, c: seq<int>)
    requires Before(a, b) && Before(b, c)
    ensures Before(a, c)
  {
    if a != [] && a[0] == b[0] == c[0] {
      BeforeTransitive(a[1..], b[1..], c[1..]);
    }
  }

  lemma {:induction false} BeforeTotal(a: seq<int>, b: seq<int>)
    ensures a == b || Before(a, b) || Before(b, a)
  {
    if a != [] && b != [] && a[0] == b[0] {
      BeforeTotal(a[1..], b[1..]);
      assert a == [a[0]] + a[1..] && b == [b[0]] + b[1..];
    }
  }

  /** A text as a sort key: its code points. */
  function Codes(s: string): (codes: seq<int>)
    ensures |codes| == |s| && forall i :: 0 <= i < |s| ==> codes[i] == s[i] as int
  {
    seq(|s|, i requires 0 <= i < |s| => s[i] as int)
  }

  /** Row x comes before row y. */
  predicate Ahead(keys: Keys, x: nat, y: nat)
    requires x in keys && y in keys
  {
    Before(keys[x], keys[y]) || (keys[x] == keys[y] && x < y)
  }

  lemma AheadStrict(keys: Keys, x: nat, y: nat)
    requires x in keys && y in keys
    ensures x != y ==> Ahead(keys, x, y) || Ahead(keys, y, x)
    ensures Ahead(keys, x, y) ==> !Ahead(keys, y, x)
  {
    BeforeTotal(keys[x], keys[y]);
    if Before(keys[x], keys[y]) {
      BeforeAsymmetric(keys[x], keys[y]);
    }
    if Before(keys[y], keys[x]) {
      BeforeAsymmetric(keys[y], keys[x]);
    }
  }

  lemma AheadTransitive(keys: Keys, x: nat, y: nat, z: nat)
    requires x in keys && y in keys && z in keys
    requires Ahead(keys, x, y) && Ahead(keys, y, z)
    ensures Ahead(keys, x, z)
  {
    if Before(keys[x], keys[y]) && Before(keys[y], keys[z]) {
      BeforeTransitive(keys[x], keys[y], keys[z]);
    }
  }

  /** The row that comes before all others. */
  predicate IsFirst(keys: Keys, m: nat) {
    m in keys && forall x :: x in keys && x != m ==> Ahead(keys, m, x)
  }

  function Without(keys: Keys, m: nat): (rest: Keys)
    requires m in keys
    ensures rest.Keys == keys.Keys - {m} && |rest| == |keys| - 1
  {
    var rest := map x | x in keys && x != m :: keys[x];
    assert rest.Keys == keys.Keys - {m};
    assert |rest| == |rest.Keys| && |keys| == |keys.Keys|;
    rest
  }

  lemma {:induction false} FirstExists(keys: Keys)
    requires keys != map[]
    ensures exists m :: IsFirst(keys, m)
    decreases |keys|
  {
    var y :| y in keys;
    var rest := Without(keys, y);
    if rest == map[] {
      assert IsFirst(keys, y);
    } else {
      FirstExists(rest);
      var m :| IsFirst(rest, m);
      AheadStrict(keys, m, y);
      if Ahead(keys, m, y) {
        assert forall x :: x in keys && x != m && x != y ==> x in rest && Ahead(rest, m, x);
        assert IsFirst(keys, m);
      } else {
        forall x | x in keys && x != y
          ensures Ahead(keys, y, x)
        {
          if x != m {
            assert x in rest && Ahead(rest, m, x);
            AheadTransitive(keys, y, m, x);
          }
        }
        assert IsFirst(keys, y);
      }
    }
  }

  lemma FirstUnique(keys: Keys, m: nat, n: nat)
    requires IsFirst(keys, m) && IsFirst(keys, n)
    ensures m == n
  {
    AheadStrict(keys, m, n);
  }

  function First(keys: Keys): (m: nat)
    requires keys != map[]
    ensures IsFirst(keys, m)
  {
    FirstExists(keys);
    assert forall m, n :: IsFirst(keys, m) && IsFirst(keys, n) ==> m == n by {
      forall m, n | IsFirst(keys, m) && IsFirst(keys, n) ensures m == n {
        FirstUnique(keys, m, n);
      }
    }
    var m :| m in keys && IsFirst(keys, m);
    m
  }

  ghost predicate Distinct<T>(s: seq<T>) {
    forall i, j :: 0 <= i < j < |s| ==> s[i] != s[j]
  }

  ghost predicate Ascending(s: seq<nat>, keys: Keys) {
    && (forall x :: x in s ==> x in keys)
    && (forall i, j :: 0 <= i < j < |s| ==> Ahead(keys, s[i], s[j]))
  }

  /** s lists exactly the rows of keys, ascending. */
  ghost predicate Lists(s: seq<nat>, keys: Keys) {
    && Ascending(s, keys)
    && (forall x :: x in keys ==> x in s)
  }

  /** The rows in ascending order. */
  function OrderBy(keys: Keys): (s: seq<nat>)
    decreases |keys|
  {
    if keys == map[] then []
    else [First(keys)] + OrderBy(Without(keys, First(keys)))
  }

  lemma {:induction false} OrderByLists(keys: Keys)
    ensures Lists(OrderBy(keys), keys)
    decreases |keys|
  {
    if keys != map[] {
      var m := First(keys);
      OrderByLists(Without(keys, m));
      ListsPrepend(OrderBy(Without(keys, m)), keys, m);
    }
  }

  lemma ListsPrepend(rest: seq<nat>, keys: Keys, m: nat)
    requires IsFirst(keys, m) && Lists(rest, Without(keys, m))
    ensures Lists([m] + rest, keys)
  {
  }

  /** A row that comes after all others is listed last. */
  lemma ListsAppend(s: seq<nat>, keys: Keys, m: nat, key: seq<int>)
    requires Lists(s, keys) && m !in keys
    requires forall x :: x in keys ==> Before(keys[x], key)
    ensures Lists(s + [m], keys[m := key])
  {
  }

  lemma ListsDistinct(s: seq<nat>, keys: Keys)
    requires Lists(s, keys)
    ensures Distinct(s)
  {
    forall i, j | 0 <= i < j < |s|
      ensures s[i] != s[j]
    {
      AheadStrict(keys, s[i], s[j]);
    }
  }

  lemma ListsTail(s: seq<nat>, keys: Keys)
    requires Lists(s, keys) && s != []
    ensures s[0] in keys && s[0] == First(keys)
    ensures Lists(s[1..], Without(keys, s[0]))
  {
    ListsDistinct(s, keys);
    assert s[0] in s;
    forall y | y in keys && y != s[0]
      ensures Ahead(keys, s[0], y)
    {
      assert y in s;
    }
    FirstUnique(keys, s[0], First(keys));
    var rest := Without(keys, s[0]);
    forall i, j | 0 <= i < j < |s[1..]|
      ensures s[1..][i] in rest && s[1..][j] in rest && Ahead(rest, s[1..][i], s[1..][j])
    {
      assert s[i + 1] in s && s[j + 1] in s && Ahead(keys, s[i + 1], s[j + 1]);
    }
    forall x | x in s[1..]
      ensures x in rest
    {
      var i :| 0 <= i < |s[1..]| && s[1..][i] == x;
      assert s[i + 1] == x && s[i + 1] in s;
    }
    assert forall x :: x in rest ==> x in s && x != s[0];
  }

  lemma ListsNone(keys: Keys)
    requires Lists([], keys)
    ensures keys == map[]
  {
  }

  /** An ascending listing of the rows is the query's answer. */
  lemma {:induction false} OrderByUnique(s: seq<nat>, keys: Keys)
    requires Lists(s, keys)
    ensures s == OrderBy(keys)
    decreases |s|
  {
    if s == [] {
      ListsNone(keys);
    } else {
      var m := s[0];
      ListsTail(s, keys);
      var rest := Without(keys, m);
      OrderByUnique(s[1..], rest);
      assert OrderBy(keys) == [First(keys)] + OrderBy(Without(keys, First(keys)));
    }
  }
}
