/** What renumbering a column and dragging a card do to the columns as they are read. */
module BoardLaws {
  import opened Wrappers
  import opened RowOrder
  import opened Listing
  import opened Board

  // ----- Renumbering and reading -----

  /** The two tables hold the same cards, up to their orders. */
  ghost predicate SameButOrder(a: Cards, b: Cards) {
    && a.Keys == b.Keys
    && (forall x :: x in a ==>
      a[x].column == b[x].column && a[x].active == b[x].active && a[x].due == b[x].due && a[x].updated == b[x].updated)
  }

  lemma SameButOrderShows(a: Cards, b: Cards, col: Column)
    requires SameButOrder(a, b)
    ensures forall x :: Shows(a, col, x) <==> Shows(b, col, x)
  {
  }

  /** The cards of s carry exactly 100, 200, ..., 100 * |s|. */
  ghost predicate Hundreds(cards: Cards, s: seq<nat>) {
    forall i :: 0 <= i < |s| ==> s[i] in cards && cards[s[i]].order == 100 * (i + 1)
  }

  lemma RenumberedOrders(cards: Cards, l: seq<nat>)
    requires Distinct(l) && forall x :: x in l ==> x in cards
    ensures Hundreds(Renumber(cards, l), l)
  {
  }

  /** A list of a column's cards with rising orders is that column, whatever breaks the ties. */
  lemma RisingReads(cards: Cards, r: Reading, col: Column, s: seq<nat>)
    requires forall x :: x in s <==> Shows(cards, col, x)
    requires forall i, j :: 0 <= i < j < |s| ==> s[i] in cards && s[j] in cards && cards[s[i]].order < cards[s[j]].order
    ensures Read(cards, r, col) == s
  {
    var keys := ColumnKeys(cards, r, col);
    forall i, j | 0 <= i < j < |s|
      ensures s[i] in keys && s[j] in keys && Ahead(keys, s[i], s[j])
    {
      assert s[i] in s && s[j] in s;
    }
    OrderByUnique(s, keys);
  }

  /** Columns with the same cards read the same. */
  lemma SameColumnReads(a: Cards, b: Cards, r: Reading, col: Column)
    requires forall x :: Shows(a, col, x) <==> Shows(b, col, x)
    requires forall x :: Shows(a, col, x) && Shows(b, col, x) ==> a[x] == b[x]
    ensures Read(a, r, col) == Read(b, r, col)
  {
    var ka, kb := ColumnKeys(a, r, col), ColumnKeys(b, r, col);
    assert ka.Keys == kb.Keys;
    assert forall x :: x in ka ==> ka[x] == kb[x];
    assert ka == kb;
  }

  /** A renumbered list of exactly a column's cards is that column under every reading. */
  lemma RenumberedReads(cards: Cards, l: seq<nat>, r: Reading, col: Column)
    requires Distinct(l) && forall x :: x in l <==> Shows(cards, col, x)
    ensures Read(Renumber(cards, l), r, col) == l
  {
    RenumberedOrders(cards, l);
    RisingReads(Renumber(cards, l), r, col, l);
  }

  /** The same when one card that the column does not show is inserted in the list. */
  lemma RenumberedReadsAround(cards: Cards, s: seq<nat>, p: int, id: nat, r: Reading, col: Column)
    requires Distinct(s) && id in cards && !Shows(cards, col, id)
    requires forall x :: x in s <==> Shows(cards, col, x)
    ensures Read(Renumber(cards, InsertAt(s, p, id)), r, col) == s
  {
    var l := InsertAt(s, p, id);
    var D := Renumber(cards, l);
    InsertDistinct(s, p, id);
    InsertMembers(s, p, id);
    RenumberedOrders(cards, l);
    forall i, j | 0 <= i < j < |s|
      ensures s[i] in D && s[j] in D && D[s[i]].order < D[s[j]].order
    {
      InsertShifts(s, p, id, i);
      InsertShifts(s, p, id, j);
    }
    RisingReads(D, r, col, s);
  }

  lemma HundredsFrame(a: Cards, b: Cards, s: seq<nat>)
    requires Hundreds(a, s) && forall x :: x in s ==> x in a && x in b && b[x].order == a[x].order
    ensures Hundreds(b, s)
  {
  }

  /** Renumbering a column that was just renumbered writes no card. */
  lemma {:induction false} NothingStale(cards: Cards, l: seq<nat>, i: nat)
    requires Hundreds(cards, l) && i <= |l| && forall x :: x in l ==> x in cards
    ensures Stale(cards, l, i) == []
  {
    if i > 0 {
      NothingStale(cards, l, i - 1);
    }
  }

  /** A column renumbered as it stands keeps its sequence, under every reading, and carries 100, 200, ... */
  lemma ClosedColumn(kind: Kind, cards: Cards, col: Column, r: Reading)
    ensures var s := Read(cards, Engine(kind), col);
      Read(Closed(kind, cards, col), r, col) == s && Hundreds(Closed(kind, cards, col), s)
  {
    var s := Read(cards, Engine(kind), col);
    ReadShows(cards, Engine(kind), col);
    RenumberedReads(cards, s, r, col);
    RenumberedOrders(cards, s);
  }

  /** Renumbering a column leaves every card outside it as it was. */
  lemma ClosedFrame(kind: Kind, cards: Cards, col: Column)
    ensures SameButOrder(Closed(kind, cards, col), cards)
    ensures forall x :: x in cards && !Shows(cards, col, x) ==> Closed(kind, cards, col)[x] == cards[x]
  {
    ReadShows(cards, Engine(kind), col);
  }

  /** Cards that the renumbered column does not show keep their orders. */
  lemma ClosedKeepsHundreds(kind: Kind, cards: Cards, col: Column, line: seq<nat>)
    requires Hundreds(cards, line) && forall x :: x in line ==> x in cards && !Shows(cards, col, x)
    ensures Hundreds(Closed(kind, cards, col), line)
  {
    ClosedFrame(kind, cards, col);
    HundredsFrame(cards, Closed(kind, cards, col), line);
  }

  lemma ClosedElsewhere(kind: Kind, cards: Cards, col: Column, r: Reading, other: Column)
    requires other != col
    ensures Read(Closed(kind, cards, col), r, other) == Read(cards, r, other)
  {
    ClosedFrame(kind, cards, col);
    SameButOrderShows(Closed(kind, cards, col), cards, other);
    SameColumnReads(Closed(kind, cards, col), cards, r, other);
  }

  /** Renumbering a renumbered column writes no card and changes no card. */
  lemma RenumberingTwiceWritesNothing(kind: Kind, cards: Cards, col: Column)
    ensures var once := Closed(kind, cards, col);
      var l := Line(once, Engine(kind), col, None, 0);
      Stale(once, l, |l|) == [] && Closed(kind, once, col) == once
  {
    var l := Read(cards, Engine(kind), col);
    var once := Closed(kind, cards, col);
    ClosedColumn(kind, cards, col, Engine(kind));
    ReadShows(once, Engine(kind), col);
    NothingStale(once, l, |l|);
    RenumberSettled(once, l);
  }

  lemma RenumberSettled(cards: Cards, l: seq<nat>)
    requires Hundreds(cards, l)
    ensures Renumber(cards, l) == cards
  {
  }

  // ----- Drag -----

  /** The list that placing a card renumbers carries 100, 200, ... */
  lemma PlacedOrders(kind: Kind, cards: Cards, col: Column, id: nat, p: int)
    requires id in cards
    ensures Hundreds(Placed(kind, cards, col, id, p), InsertAt(ReadExcept(cards, Engine(kind), col, id), p, id))
  {
    LineShows(cards, Engine(kind), col, Some(id), p);
    RenumberedOrders(cards, Line(cards, Engine(kind), col, Some(id), p));
  }

  /** The column once the card is in place: it shows the card only if it is active. */
  lemma PlacedReads(kind: Kind, cards: Cards, col: Column, id: nat, p: int, r: Reading)
    requires id in cards
    ensures var others := ReadExcept(cards, Engine(kind), col, id);
      Read(Placed(kind, cards, col, id, p), r, col) == if Shows(cards, col, id) then InsertAt(others, p, id) else others
  {
    var others := ReadExcept(cards, Engine(kind), col, id);
    if Shows(cards, col, id) {
      LineShows(cards, Engine(kind), col, Some(id), p);
      RenumberedReads(cards, InsertAt(others, p, id), r, col);
    } else {
      ReadExceptShows(cards, Engine(kind), col, id);
      RenumberedReadsAround(cards, others, p, id, r, col);
    }
  }

  /** Placing a card leaves alone every card that is neither it nor shown in the column. */
  lemma PlacedFrame(kind: Kind, cards: Cards, col: Column, id: nat, p: int)
    ensures SameButOrder(Placed(kind, cards, col, id, p), cards)
    ensures forall x :: x in cards && x != id && !Shows(cards, col, x) ==> Placed(kind, cards, col, id, p)[x] == cards[x]
  {
    LineShows(cards, Engine(kind), col, Some(id), p);
  }

  /** Excluding a card that the column does not show changes nothing. */
  lemma ReadWithoutAbsent(cards: Cards, r: Reading, col: Column, id: nat)
    requires !Shows(cards, col, id)
    ensures ReadExcept(cards, r, col, id) == Read(cards, r, col)
  {
    var keys := ColumnKeys(cards, r, col);
    assert keys - {id} == keys;
  }

  /** The target of a drag, before the source is renumbered. */
  lemma DragPlaces(kind: Kind, cards: Cards, id: nat, to: Column, p: int, now: int, r: Reading)
    requires id in cards
    ensures var placed := Placed(kind, Moved(cards, id, to, now), to, id, p);
      var others := Drop(Read(cards, Engine(kind), to), id);
      && Hundreds(placed, InsertAt(others, p, id))
      && Read(placed, r, to) == (if cards[id].active then InsertAt(others, p, id) else others)
  {
    var saved := Moved(cards, id, to, now);
    SameRestReads(saved, cards, Engine(kind), to, id);
    ReadExceptDrops(cards, Engine(kind), to, id);
    PlacedOrders(kind, saved, to, id, p);
    PlacedReads(kind, saved, to, id, p, r);
  }

  /** The source of a drag, before it is renumbered: it has lost the card, and nothing else in it changed. */
  lemma DragTakesOut(kind: Kind, cards: Cards, id: nat, to: Column, p: int, now: int)
    requires id in cards && cards[id].column != to
    ensures var from, placed := cards[id].column, Placed(kind, Moved(cards, id, to, now), to, id, p);
      && (forall x :: Shows(placed, from, x) <==> x != id && Shows(cards, from, x))
      && (forall x :: Shows(placed, from, x) ==> placed[x] == cards[x])
  {
    var from, saved := cards[id].column, Moved(cards, id, to, now);
    MovedShows(cards, id, to, now, from);
    PlacedElsewhere(kind, saved, to, id, p, from);
  }

  /** A column that a card is moved out of, and any other it is not moved to, shows the rest as before. */
  lemma MovedShows(cards: Cards, id: nat, to: Column, now: int, col: Column)
    requires id in cards && col != to
    ensures forall x :: Shows(Moved(cards, id, to, now), col, x) <==> x != id && Shows(cards, col, x)
  {
  }

  /** Placing a card of the column changes nothing of what another column shows. */
  lemma PlacedElsewhere(kind: Kind, cards: Cards, col: Column, id: nat, p: int, other: Column)
    requires id in cards && cards[id].column == col && other != col
    ensures var placed := Placed(kind, cards, col, id, p);
      forall x :: (Shows(placed, other, x) <==> Shows(cards, other, x)) && (Shows(placed, other, x) ==> placed[x] == cards[x])
  {
    PlacedFrame(kind, cards, col, id, p);
    SameButOrderShows(Placed(kind, cards, col, id, p), cards, other);
  }

  lemma DragLeaves(kind: Kind, cards: Cards, id: nat, to: Column, p: int, now: int)
    requires id in cards && cards[id].column != to
    ensures var from, placed := cards[id].column, Placed(kind, Moved(cards, id, to, now), to, id, p);
      Read(placed, Engine(kind), from) == Drop(Read(cards, Engine(kind), from), id)
  {
    var from, placed := cards[id].column, Placed(kind, Moved(cards, id, to, now), to, id, p);
    DragTakesOut(kind, cards, id, to, p, now);
    ReadWithoutAbsent(placed, Engine(kind), from, id);
    SameRestReads(placed, cards, Engine(kind), from, id);
    ReadExceptDrops(cards, Engine(kind), from, id);
  }

  /**
     The target of a drag to position p reads, under every reading of the board, as the old target
     without the card and with it inserted at p, clamped; an inactive card only leaves its gap.
   */
  lemma DragTarget(kind: Kind, cards: Cards, id: nat, lane: Lane, p: int, now: int, r: Reading)
    requires id in cards
    ensures var to := Column(cards[id].column.scope, lane);
      var others := Drop(Read(cards, Engine(kind), to), id);
      Read(Dragged(kind, cards, id, lane, p, now), r, to)
        == (if cards[id].active then InsertAt(others, p, id) else others)
  {
    var from, to := cards[id].column, Column(cards[id].column.scope, lane);
    DragPlaces(kind, cards, id, to, p, now, r);
    if from != to {
      ClosedElsewhere(kind, Placed(kind, Moved(cards, id, to, now), to, id, p), from, r, to);
    }
  }

  /** The dragged card and the target's other cards carry 100, 200, ... in the order of the target. */
  lemma DragTargetOrders(kind: Kind, cards: Cards, id: nat, lane: Lane, p: int, now: int)
    requires id in cards
    ensures var to := Column(cards[id].column.scope, lane);
      Hundreds(Dragged(kind, cards, id, lane, p, now), InsertAt(Drop(Read(cards, Engine(kind), to), id), p, id))
  {
    var from, to := cards[id].column, Column(cards[id].column.scope, lane);
    var placed := Placed(kind, Moved(cards, id, to, now), to, id, p);
    DragPlaces(kind, cards, id, to, p, now, Engine(kind));
    if from != to {
      LineElsewhere(kind, cards, id, to, p, now);
      ClosedKeepsHundreds(kind, placed, from, InsertAt(Drop(Read(cards, Engine(kind), to), id), p, id));
    }
  }

  /** The source of a drag to another column reads as the old one without the card, and carries 100, 200, ... */
  lemma DragSource(kind: Kind, cards: Cards, id: nat, lane: Lane, p: int, now: int, r: Reading)
    requires id in cards && cards[id].column.lane != lane
    ensures var D, source := Dragged(kind, cards, id, lane, p, now), Drop(Read(cards, Engine(kind), cards[id].column), id);
      Read(D, r, cards[id].column) == source && Hundreds(D, source)
  {
    var to := Column(cards[id].column.scope, lane);
    DragLeaves(kind, cards, id, to, p, now);
    ClosedColumn(kind, Placed(kind, Moved(cards, id, to, now), to, id, p), cards[id].column, r);
  }

  /** No card of the target's line shows in the source once it is in place. */
  lemma LineElsewhere(kind: Kind, cards: Cards, id: nat, to: Column, p: int, now: int)
    requires id in cards && cards[id].column != to
    ensures var placed := Placed(kind, Moved(cards, id, to, now), to, id, p);
      forall x :: x in InsertAt(Drop(Read(cards, Engine(kind), to), id), p, id) ==>
        x in placed && !Shows(placed, cards[id].column, x)
  {
    var saved := Moved(cards, id, to, now);
    var placed := Placed(kind, saved, to, id, p);
    PlacedFrame(kind, saved, to, id, p);
    SameRestReads(saved, cards, Engine(kind), to, id);
    ReadExceptDrops(cards, Engine(kind), to, id);
    LineShows(saved, Engine(kind), to, Some(id), p);
    SameButOrderShows(placed, saved, cards[id].column);
    assert forall x :: Shows(saved, to, x) || x == id ==> x in saved && !Shows(saved, cards[id].column, x);
  }

  /** A drag touches the dragged card and the active cards of the two columns, and of the others only the order. */
  lemma DragFrame(kind: Kind, cards: Cards, id: nat, lane: Lane, p: int, now: int)
    requires id in cards
    ensures var from, to := cards[id].column, Column(cards[id].column.scope, lane);
      var D := Dragged(kind, cards, id, lane, p, now);
      && SameButOrder(D, Moved(cards, id, to, now))
      && (forall x :: x in cards && x != id && !Shows(cards, from, x) && !Shows(cards, to, x) ==> D[x] == cards[x])
  {
    var from, to := cards[id].column, Column(cards[id].column.scope, lane);
    var saved := Moved(cards, id, to, now);
    var placed := Placed(kind, saved, to, id, p);
    PlacedFrame(kind, saved, to, id, p);
    SameButOrderShows(placed, saved, from);
    ClosedFrame(kind, placed, from);
  }

  /** Every column that is neither source nor target reads as before. */
  lemma DragElsewhere(kind: Kind, cards: Cards, id: nat, lane: Lane, p: int, now: int, r: Reading, col: Column)
    requires id in cards && col != cards[id].column && col != Column(cards[id].column.scope, lane)
    ensures Read(Dragged(kind, cards, id, lane, p, now), r, col) == Read(cards, r, col)
  {
    var D, saved := Dragged(kind, cards, id, lane, p, now), Moved(cards, id, Column(cards[id].column.scope, lane), now);
    DragFrame(kind, cards, id, lane, p, now);
    SameButOrderShows(D, saved, col);
    assert forall x :: Shows(saved, col, x) <==> Shows(cards, col, x);
    SameColumnReads(D, cards, r, col);
  }

  /** The position that a drag reports is the asked one, clamped to the old target without the card. */
  lemma DragPosition(kind: Kind, cards: Cards, id: nat, to: Column, p: int, now: int)
    requires id in cards
    ensures Slotted(Moved(cards, id, to, now), Engine(kind), to, Some(id), p)
      == Some(Clamp(p, |Drop(Read(cards, Engine(kind), to), id)|))
  {
    SameRestReads(Moved(cards, id, to, now), cards, Engine(kind), to, id);
    ReadExceptDrops(cards, Engine(kind), to, id);
  }
}
