/** What creating and editing a card do to the columns, where the edit form and the drag agree, and what every run keeps. */
module BoardRuns {
  import opened Wrappers
  import opened RowOrder
  import opened Listing
  import opened Board
  import opened BoardLaws

  // ----- The edit form against the drag -----

  /** A card saved with the order of the end reads last in its new column, whatever breaks the ties of the others. */
  lemma AppendedReadsLast(cards: Cards, r: Reading, id: nat, card: Card)
    requires !Shows(cards, card.column, id) && card.active
    requires card.order == EndOrder(cards, card.column, id)
    ensures Read(cards[id := card], r, card.column) == Read(cards, r, card.column) + [id]
  {
    var col, saved := card.column, cards[id := card];
    var s, keys := Read(cards, r, col), ColumnKeys(cards, r, col);
    OrderByLists(keys);
    EndOrderAbove(cards, col, id);
    ListsAppend(s, keys, id, Key(r, card));
    AppendedKeys(cards, r, id, card);
    OrderByUnique(s + [id], ColumnKeys(saved, r, col));
  }

  lemma AppendedKeys(cards: Cards, r: Reading, id: nat, card: Card)
    requires !Shows(cards, card.column, id) && card.active
    ensures ColumnKeys(cards[id := card], r, card.column) == ColumnKeys(cards, r, card.column)[id := Key(r, card)]
  {
  }

  /** A new active card reads last in its column; an inactive one does not show. */
  lemma CreateReadsLast(cards: Cards, r: Reading, id: nat, col: Column, active: bool, due: Option<int>, now: int)
    requires id !in cards
    ensures Read(Created(cards, id, col, active, due, now), r, col) == Read(cards, r, col) + if active then [id] else []
  {
    var card := Card(col, active, EndOrder(cards, col, id), due, now);
    if active {
      AppendedReadsLast(cards, r, id, card);
    } else {
      SameColumnReads(cards[id := card], cards, r, col);
    }
  }

  /** Before any renumbering, an edit that changes the column has put the card last in the new one. */
  lemma FiledReads(cards: Cards, r: Reading, id: nat, col: Column, active: bool, due: Option<int>, now: int)
    requires id in cards && cards[id].column != col
    ensures Read(cards[id := Filed(cards, id, col, active, due, now)], r, col)
      == Read(cards, r, col) + if active then [id] else []
  {
    var filed := Filed(cards, id, col, active, due, now);
    if active {
      AppendedReadsLast(cards, r, id, filed);
    } else {
      SameColumnReads(cards[id := filed], cards, r, col);
    }
  }

  /**
     An edit that changes the column, whether or not it changes the pipeline or deactivates the card: the
     new column reads as before with the card last if it is active, and carries 100, 200, ...
   */
  lemma EditTarget(kind: Kind, cards: Cards, id: nat, col: Column, active: bool, due: Option<int>, now: int, r: Reading)
    requires id in cards && cards[id].column != col
    ensures var target := Read(cards, Engine(kind), col) + if active then [id] else [];
      var D := Edited(kind, cards, id, col, active, due, now);
      Read(D, r, col) == target && Hundreds(D, target)
  {
    var from, saved := cards[id].column, cards[id := Filed(cards, id, col, active, due, now)];
    FiledReads(cards, Engine(kind), id, col, active, due, now);
    ClosedColumn(kind, saved, col, r);
    ClosedElsewhere(kind, Closed(kind, saved, col), from, r, col);
    ClosedApart(kind, saved, col, from);
    ClosedKeepsHundreds(kind, Closed(kind, saved, col), from, Read(saved, Engine(kind), col));
  }

  /** No card of a renumbered column shows in another. */
  lemma ClosedApart(kind: Kind, cards: Cards, col: Column, other: Column)
    requires other != col
    ensures var closed := Closed(kind, cards, col);
      forall x :: x in Read(cards, Engine(kind), col) ==> x in closed && !Shows(closed, other, x)
  {
    ReadShows(cards, Engine(kind), col);
    ClosedFrame(kind, cards, col);
    SameButOrderShows(Closed(kind, cards, col), cards, other);
  }

  /** And the old column reads as before without the card, and carries 100, 200, ... */
  lemma EditSource(kind: Kind, cards: Cards, id: nat, col: Column, active: bool, due: Option<int>, now: int, r: Reading)
    requires id in cards && cards[id].column != col
    ensures var from := cards[id].column;
      var D, source := Edited(kind, cards, id, col, active, due, now), Drop(Read(cards, Engine(kind), from), id);
      Read(D, r, from) == source && Hundreds(D, source)
  {
    var from, saved := cards[id].column, cards[id := Filed(cards, id, col, active, due, now)];
    ReadWithoutAbsent(saved, Engine(kind), from, id);
    SameRestReads(saved, cards, Engine(kind), from, id);
    ReadExceptDrops(cards, Engine(kind), from, id);
    ClosedElsewhere(kind, saved, col, Engine(kind), from);
    ClosedColumn(kind, Closed(kind, saved, col), from, r);
  }

  /** The target, once renumbered with the appended card, is the target of a drag past its end. */
  lemma EditTargetIsDragTarget(kind: Kind, cards: Cards, id: nat, to: Column, p: int, now: int)
    requires id in cards && cards[id].active && cards[id].column != to && |Read(cards, Engine(kind), to)| <= p
    ensures Closed(kind, cards[id := Filed(cards, id, to, true, cards[id].due, now)], to)
         == Placed(kind, Moved(cards, id, to, now), to, id, p)
  {
    var filed := Filed(cards, id, to, true, cards[id].due, now);
    AppendedReadsLast(cards, Engine(kind), id, filed);
    DragLineAtEnd(kind, cards, id, to, p, now);
    FiledForgets(cards, id, filed, now, Read(cards, Engine(kind), to) + [id]);
  }

  /**
     Moving an active card to another stage of its pipeline through the edit form gives exactly the
     board of a drag to any position at or past the end of that stage.
   */
  lemma EditIsDragToEnd(kind: Kind, cards: Cards, id: nat, lane: Lane, p: int, now: int)
    requires id in cards && cards[id].active && cards[id].column.lane != lane
    requires |Read(cards, Engine(kind), Column(cards[id].column.scope, lane))| <= p
    ensures Edited(kind, cards, id, Column(cards[id].column.scope, lane), true, cards[id].due, now)
         == Dragged(kind, cards, id, lane, p, now)
  {
    EditTargetIsDragTarget(kind, cards, id, Column(cards[id].column.scope, lane), p, now);
  }

  lemma FiledForgets(cards: Cards, id: nat, filed: Card, now: int, l: seq<nat>)
    requires id in cards && id in l && filed == cards[id].(column := filed.column, order := filed.order, updated := now)
    ensures Renumber(cards[id := filed], l) == Renumber(Moved(cards, id, filed.column, now), l)
  {
  }

  lemma DragLineAtEnd(kind: Kind, cards: Cards, id: nat, to: Column, p: int, now: int)
    requires id in cards && cards[id].column != to && |Read(cards, Engine(kind), to)| <= p
    ensures Line(Moved(cards, id, to, now), Engine(kind), to, Some(id), p) == Read(cards, Engine(kind), to) + [id]
  {
    OthersStay(cards, Engine(kind), id, to, now);
    ReadWithoutAbsent(cards, Engine(kind), to, id);
    InsertAtEnd(Read(cards, Engine(kind), to), p, id);
  }

  // ----- The invariant of the board -----

  predicate Hundred(n: nat) {
    0 < n && n % 100 == 0
  }

  /** Two active cards of one column carry the same order. */
  predicate Collide(cards: Cards, x: nat, y: nat) {
    && x in cards && y in cards && x != y && cards[x].active && cards[y].active
    && cards[x].column == cards[y].column && cards[x].order == cards[y].order
  }

  /** Orders are positive multiples of 100, and no two active cards of a column share one. */
  ghost predicate Orderly(cards: Cards) {
    && (forall x :: x in cards ==> Hundred(cards[x].order))
    && (forall x, y :: !Collide(cards, x, y))
  }

  /** Renumbering a column makes the board orderly, if the rest of it is. */
  lemma RenumberOrderly(cards: Cards, l: seq<nat>, col: Column)
    requires Distinct(l) && forall x :: Shows(cards, col, x) ==> x in l
    requires forall x :: x in l && x in cards && cards[x].active ==> cards[x].column == col
    requires forall x :: x in cards && x !in l ==> Hundred(cards[x].order)
    requires forall x, y :: Collide(cards, x, y) ==> cards[x].column == col
    ensures Orderly(Renumber(cards, l))
  {
    var D := Renumber(cards, l);
    forall x, y
      ensures !Collide(D, x, y)
    {
      assert x in l && y in l && x != y ==> Slot(l, x) != Slot(l, y);
      assert Collide(D, x, y) && cards[x].column == col ==> Shows(cards, col, x) && Shows(cards, col, y);
      assert Collide(D, x, y) && cards[x].column != col ==> Collide(cards, x, y);
    }
  }

  lemma ClosedOrderly(kind: Kind, cards: Cards, col: Column)
    requires Orderly(cards)
    ensures Orderly(Closed(kind, cards, col))
  {
    ReadShows(cards, Engine(kind), col);
    RenumberOrderly(cards, Read(cards, Engine(kind), col), col);
  }

  lemma PlacedOrderly(kind: Kind, cards: Cards, id: nat, to: Column, p: int, now: int)
    requires id in cards && Orderly(cards)
    ensures Orderly(Placed(kind, Moved(cards, id, to, now), to, id, p))
  {
    var saved := Moved(cards, id, to, now);
    LineShows(saved, Engine(kind), to, Some(id), p);
    forall x, y | Collide(saved, x, y)
      ensures saved[x].column == to
    {
      assert !Collide(cards, x, y);
    }
    RenumberOrderly(saved, Line(saved, Engine(kind), to, Some(id), p), to);
  }

  lemma {:induction false} HighestHundred(cards: Cards, s: seq<nat>)
    requires forall x :: x in s ==> x in cards && Hundred(cards[x].order)
    ensures Highest(cards, s) % 100 == 0
  {
    if s != [] {
      assert s[0] in s;
      HighestHundred(cards, s[1..]);
    }
  }

  lemma EndOrderHundred(cards: Cards, col: Column, id: nat)
    requires Orderly(cards)
    ensures Hundred(EndOrder(cards, col, id))
  {
    var others := ReadExcept(cards, StageEngine, col, id);
    ReadExceptShows(cards, StageEngine, col, id);
    if others != [] {
      assert Highest(cards, others) % 100 == 0 by {
        HighestHundred(cards, others);
      }
      NextHundred(Highest(cards, others));
    }
  }

  lemma NextHundred(h: nat)
    requires h % 100 == 0
    ensures Hundred(h + 100)
  {
  }

  /** Saving a card with the order of the end keeps the board orderly. */
  lemma AppendedOrderly(cards: Cards, id: nat, card: Card)
    requires Orderly(cards) && card.order == EndOrder(cards, card.column, id)
    ensures Orderly(cards[id := card])
  {
    var saved := cards[id := card];
    EndOrderHundred(cards, card.column, id);
    forall x, y
      ensures !Collide(saved, x, y)
    {
      AppendedApart(cards, id, card, x, y);
    }
  }

  lemma AppendedApart(cards: Cards, id: nat, card: Card, x: nat, y: nat)
    requires Orderly(cards) && card.order == EndOrder(cards, card.column, id)
    ensures !Collide(cards[id := card], x, y)
  {
    var saved := cards[id := card];
    EndOrderAbove(cards, card.column, id);
    assert !Collide(cards, x, y);
    assert Collide(saved, x, y) && y == id ==> Shows(cards, card.column, x);
    assert Collide(saved, x, y) && x == id ==> Shows(cards, card.column, y);
  }

  predicate ReactivatesInPlace(cards: Cards, request: Request) {
    && request.Edit? && request.id in cards && request.active
    && !cards[request.id].active && cards[request.id].column == request.col
  }

  /** An active card of the column already carries this order. */
  ghost predicate Taken(cards: Cards, col: Column, order: nat) {
    exists y :: Shows(cards, col, y) && cards[y].order == order
  }

  /** The one request that breaks the order: reactivating a card where it stands, on an order taken meanwhile. */
  ghost predicate Clashes(lanes: Lanes, cards: Cards, request: Request) {
    && ReactivatesInPlace(cards, request) && Offers(lanes, request.col)
    && Taken(cards, request.col, cards[request.id].order)
  }

  lemma EditInPlaceOrderly(cards: Cards, id: nat, active: bool, due: Option<int>, now: int)
    requires id in cards && Orderly(cards)
    ensures Orderly(cards[id := cards[id].(active := active, due := due, updated := now)])
      <==> !(active && !cards[id].active && Taken(cards, cards[id].column, cards[id].order))
  {
    var was := cards[id];
    var saved := cards[id := was.(active := active, due := due, updated := now)];
    if active && !was.active && Taken(cards, was.column, was.order) {
      var y :| Shows(cards, was.column, y) && cards[y].order == was.order;
      assert Collide(saved, id, y);
    } else {
      forall x, y
        ensures !Collide(saved, x, y)
      {
        assert !Collide(cards, x, y);
        assert Collide(saved, x, y) && y == id ==> Shows(cards, was.column, x);
        assert Collide(saved, x, y) && x == id ==> Shows(cards, was.column, y);
      }
    }
  }

  lemma DraggedOrderly(kind: Kind, cards: Cards, id: nat, lane: Lane, p: int, now: int)
    requires id in cards && Orderly(cards)
    ensures Orderly(Dragged(kind, cards, id, lane, p, now))
  {
    var from, to := cards[id].column, Column(cards[id].column.scope, lane);
    PlacedOrderly(kind, cards, id, to, p, now);
    ClosedOrderly(kind, Placed(kind, Moved(cards, id, to, now), to, id, p), from);
  }

  lemma RefiledOrderly(kind: Kind, cards: Cards, id: nat, col: Column, active: bool, due: Option<int>, now: int)
    requires id in cards && Orderly(cards) && cards[id].column != col
    ensures Orderly(Edited(kind, cards, id, col, active, due, now))
  {
    var filed := Filed(cards, id, col, active, due, now);
    AppendedOrderly(cards, id, filed);
    ClosedOrderly(kind, cards[id := filed], col);
    ClosedOrderly(kind, Closed(kind, cards[id := filed], col), cards[id].column);
  }

  /** A request keeps the board orderly exactly when it does not reactivate a card onto an order that is taken. */
  lemma ServeOrderly(kind: Kind, lanes: Lanes, cards: Cards, request: Request)
    requires Orderly(cards)
    ensures Orderly(Serve(kind, lanes, cards, request)) <==> !Clashes(lanes, cards, request)
  {
    match request
    case Create(id, col, active, due, now) =>
      AppendedOrderly(cards, id, Card(col, active, EndOrder(cards, col, id), due, now));
    case Drag(id, lane, position, now) =>
      if id in cards {
        DraggedOrderly(kind, cards, id, lane, AskedPosition(position), now);
      }
    case Edit(id, col, active, due, now) =>
      if id in cards && cards[id].column == col {
        EditInPlaceOrderly(cards, id, active, due, now);
      } else if id in cards {
        RefiledOrderly(kind, cards, id, col, active, due, now);
      }
  }

  /** A request and the lanes that the board offers when it is served. */
  datatype Call = Call(lanes: Lanes, request: Request)

  /** The board after a run of requests, from an empty table; the lanes may change from one to the next. */
  function Run(kind: Kind, calls: seq<Call>): Cards {
    if calls == [] then map[]
    else Serve(kind, calls[|calls| - 1].lanes, Run(kind, calls[..|calls| - 1]), calls[|calls| - 1].request)
  }

  /** The i-th request of a run clashes with the board it finds. */
  ghost predicate ClashesAt(kind: Kind, calls: seq<Call>, i: nat)
    requires i < |calls|
  {
    Clashes(calls[i].lanes, Run(kind, calls[..i]), calls[i].request)
  }

  /** The board after the first i requests of a run is orderly. */
  ghost predicate OrderlyAt(kind: Kind, calls: seq<Call>, i: nat)
    requires i <= |calls|
  {
    Orderly(Run(kind, calls[..i]))
  }

  lemma StepOrderly(kind: Kind, calls: seq<Call>, i: nat)
    requires i < |calls| && OrderlyAt(kind, calls, i)
    ensures OrderlyAt(kind, calls, i + 1) <==> !ClashesAt(kind, calls, i)
  {
    assert calls[..i + 1][..i] == calls[..i];
    ServeOrderly(kind, calls[i].lanes, Run(kind, calls[..i]), calls[i].request);
  }

  lemma {:induction false} OrderlyUntil(kind: Kind, calls: seq<Call>, n: nat)
    requires n <= |calls| && forall i :: 0 <= i < n ==> !ClashesAt(kind, calls, i)
    ensures OrderlyAt(kind, calls, n)
  {
    if n > 0 {
      OrderlyUntil(kind, calls, n - 1);
      StepOrderly(kind, calls, n - 1);
    }
  }

  /** Every board of a run is orderly, the last one included, if and only if no request of it clashes. */
  lemma RunOrderly(kind: Kind, calls: seq<Call>)
    ensures (forall i :: 0 <= i <= |calls| ==> OrderlyAt(kind, calls, i))
      <==> (forall i :: 0 <= i < |calls| ==> !ClashesAt(kind, calls, i))
    ensures OrderlyAt(kind, calls, |calls|) <==> Orderly(Run(kind, calls))
  {
    if forall i :: 0 <= i < |calls| ==> !ClashesAt(kind, calls, i) {
      forall i | 0 <= i <= |calls|
        ensures OrderlyAt(kind, calls, i)
      {
        OrderlyUntil(kind, calls, i);
      }
    } else {
      var i :| 0 <= i < |calls| && ClashesAt(kind, calls, i);
      if OrderlyAt(kind, calls, i) {
        StepOrderly(kind, calls, i);
      }
    }
    assert calls[..|calls|] == calls;
  }

  /** On an orderly board the orders alone decide, before any tie-break. */
  lemma AheadByOrder(cards: Cards, r: Reading, col: Column, x: nat, y: nat)
    requires Orderly(cards) && Shows(cards, col, x) && Shows(cards, col, y) && x != y
    requires Ahead(ColumnKeys(cards, r, col), x, y)
    ensures cards[x].order < cards[y].order
  {
    assert !Collide(cards, x, y);
  }

  lemma OrdersRise(cards: Cards, r: Reading, col: Column, i: nat, j: nat)
    requires Orderly(cards) && i < j < |Read(cards, r, col)|
    ensures var s := Read(cards, r, col); s[i] in cards && s[j] in cards && cards[s[i]].order < cards[s[j]].order
  {
    var s := Read(cards, r, col);
    ReadShows(cards, r, col);
    OrderByLists(ColumnKeys(cards, r, col));
    assert s[i] in s && s[j] in s;
    AheadByOrder(cards, r, col, s[i], s[j]);
  }

  /** The order that the engine, the deal board and the collection board show is the same on every orderly board. */
  lemma ReadingsAgree(cards: Cards, a: Reading, b: Reading, col: Column)
    requires Orderly(cards)
    ensures Read(cards, a, col) == Read(cards, b, col)
  {
    var s := Read(cards, a, col);
    ReadShows(cards, a, col);
    forall i, j | 0 <= i < j < |s|
      ensures s[i] in cards && s[j] in cards && cards[s[i]].order < cards[s[j]].order
    {
      OrdersRise(cards, a, col, i, j);
    }
    RisingReads(cards, b, col, s);
  }

  /** Of card x, nothing but its order differs. */
  predicate KeepsButOrder(before: Cards, after: Cards, x: nat) {
    && x in before && x in after && before[x].column == after[x].column && before[x].active == after[x].active
    && before[x].due == after[x].due && before[x].updated == after[x].updated
  }

  lemma EditFrame(kind: Kind, cards: Cards, id: nat, col: Column, active: bool, due: Option<int>, now: int, x: nat)
    requires id in cards && x in cards && x != id
    ensures KeepsButOrder(cards, Edited(kind, cards, id, col, active, due, now), x)
  {
    var saved := cards[id := Filed(cards, id, col, active, due, now)];
    ClosedFrame(kind, saved, col);
    ClosedFrame(kind, Closed(kind, saved, col), cards[id].column);
  }

  /** Of every card but the one it names, a request can change the order only; and it loses no card. */
  lemma ServeFrame(kind: Kind, lanes: Lanes, cards: Cards, request: Request, x: nat)
    requires x in cards
    ensures x in Serve(kind, lanes, cards, request)
    ensures x != request.id ==> KeepsButOrder(cards, Serve(kind, lanes, cards, request), x)
  {
    match request
    case Create(_, _, _, _, _) =>
    case Drag(id, lane, position, now) =>
      if id in cards {
        DragFrame(kind, cards, id, lane, AskedPosition(position), now);
      }
    case Edit(id, col, active, due, now) =>
      if id in cards && x != id {
        EditFrame(kind, cards, id, col, active, due, now, x);
      }
  }

  /** Two deals created and the first deactivated. */
  function TwoDeals(col: Column): Cards {
    map[1 := Card(col, false, 100, None, 3), 2 := Card(col, true, 200, None, 2)]
  }

  lemma TwoDealsServed(lanes: Lanes, col: Column)
    requires Offers(lanes, col)
    ensures var one := Serve(Deals, lanes, map[], Create(1, col, true, None, 1));
      var two := Serve(Deals, lanes, one, Create(2, col, true, None, 2));
      Serve(Deals, lanes, two, Edit(1, col, false, None, 3)) == TwoDeals(col)
  {
    var c1, c2 := Card(col, true, 100, None, 1), Card(col, true, 200, None, 2);
    OnlyCard(map[], col, 1);
    OneOther(map[1 := c1], col, 1, 2);
    SecondDealServed(lanes, map[1 := c1], col, c2);
    assert map[1 := c1][2 := c2] == map[1 := c1, 2 := c2];
  }

  lemma SecondDealServed(lanes: Lanes, one: Cards, col: Column, c2: Card)
    requires Offers(lanes, col) && one.Keys == {1} && one[1].column == col && one[1].order == 100 && one[1].due == None
    requires c2 == Card(col, true, EndOrder(one, col, 2), None, 2)
    ensures var two := Serve(Deals, lanes, one, Create(2, col, true, None, 2));
      two == one[2 := c2]
      && Serve(Deals, lanes, two, Edit(1, col, false, None, 3)) == map[1 := Card(col, false, 100, None, 3), 2 := c2]
  {
    var two := one[2 := c2];
    assert Created(one, 2, col, true, None, 2) == two;
    assert Edited(Deals, two, 1, col, false, None, 3) == two[1 := Card(col, false, 100, None, 3)];
  }

  /** The second deal dragged to the front takes 100, and then the first is reactivated on 100. */
  lemma TwoDealsClash(lanes: Lanes, col: Column)
    requires Offers(lanes, col)
    ensures var dragged := Serve(Deals, lanes, TwoDeals(col), Drag(2, col.lane, Some(0), 4));
      var board := Serve(Deals, lanes, dragged, Edit(1, col, true, None, 5));
      Collide(board, 1, 2)
  {
    var saved := Moved(TwoDeals(col), 2, col, 4);
    OnlyCard(saved, col, 2);
    assert Line(saved, StageEngine, col, Some(2), 0) == [2];
    var dragged := Dragged(Deals, TwoDeals(col), 2, col.lane, 0, 4);
    assert dragged == Renumber(saved, [2]);
    assert dragged[2].order == 100 && dragged[1] == saved[1];
  }

  /** A run that ends with two active deals of one column carrying the same order. */
  lemma ReactivationClashes(lanes: Lanes, col: Column) returns (calls: seq<Call>)
    requires Offers(lanes, col)
    ensures Collide(Run(Deals, calls), 1, 2)
  {
    TwoDealsServed(lanes, col);
    TwoDealsClash(lanes, col);
    calls := RunOneMore(Deals, [], Call(lanes, Create(1, col, true, None, 1)));
    calls := RunOneMore(Deals, calls, Call(lanes, Create(2, col, true, None, 2)));
    calls := RunOneMore(Deals, calls, Call(lanes, Edit(1, col, false, None, 3)));
    calls := RunOneMore(Deals, calls, Call(lanes, Drag(2, col.lane, Some(0), 4)));
    calls := RunOneMore(Deals, calls, Call(lanes, Edit(1, col, true, None, 5)));
  }

  lemma RunOneMore(kind: Kind, before: seq<Call>, call: Call) returns (calls: seq<Call>)
    ensures Run(kind, calls) == Serve(kind, call.lanes, Run(kind, before), call.request)
  {
    calls := before + [call];
    assert calls[..|calls| - 1] == before;
  }

  lemma OnlyCard(cards: Cards, col: Column, id: nat)
    requires forall x :: Shows(cards, col, x) ==> x == id
    ensures forall r :: ReadExcept(cards, r, col, id) == []
    ensures EndOrder(cards, col, id) == 100
  {
  }

  lemma OneOther(cards: Cards, col: Column, other: nat, id: nat)
    requires other != id && Shows(cards, col, other)
    requires forall x :: Shows(cards, col, x) && x != id ==> x == other
    ensures EndOrder(cards, col, id) == cards[other].order + 100
  {
    var others := ReadExcept(cards, StageEngine, col, id);
    ReadExceptShows(cards, StageEngine, col, id);
    SingletonOf(others, other);
    assert Highest(cards, others[1..]) == 0;
  }
}
