/**
 What each request does to the board, told from the posted fields and the cards alone: where a card
 lands, what becomes of the card it names, what is refused, and in which order a column is read.
 */
module BoardRequests {
  import opened Wrappers
  import opened RowOrder
  import opened Listing
  import opened Board
  import opened BoardLaws
  import opened BoardRuns

  // ----- The order of a column -----

  /** Of two cards of a column the one read first has the lower order, and among equal orders the query's own tie-break holds. */
  lemma ReadInOrder(cards: Cards, r: Reading, col: Column, i: nat, j: nat)
    requires i < j < |Read(cards, r, col)|
    ensures var x, y := Read(cards, r, col)[i], Read(cards, r, col)[j];
      && x in cards && y in cards
      && var a, b := cards[x], cards[y];
        a.order < b.order || (a.order == b.order &&
          match r
          case StageEngine => x < y
          case StageBoard => a.updated > b.updated || (a.updated == b.updated && x < y)
          case StatusBoard =>
            || (a.due.Some? && b.due.None?)
            || (a.due.Some? && b.due.Some? && a.due.value < b.due.value)
            || (a.due == b.due && (a.updated > b.updated || (a.updated == b.updated && x < y))))
  {
    var keys := ColumnKeys(cards, r, col);
    var x, y := Read(cards, r, col)[i], Read(cards, r, col)[j];
    OrderByLists(keys);
    ReadShows(cards, r, col);
    assert x in Read(cards, r, col) && y in Read(cards, r, col);
    assert Ahead(keys, x, y);
    KeyOrder(r, cards[x], cards[y]);
  }

  lemma KeyOrder(r: Reading, a: Card, b: Card)
    ensures Before(Key(r, a), Key(r, b)) ==> (a.order < b.order || (a.order == b.order &&
      match r
      case StageEngine => false
      case StageBoard => a.updated > b.updated
      case StatusBoard =>
        || (a.due.Some? && b.due.None?)
        || (a.due.Some? && b.due.Some? && a.due.value < b.due.value)
        || (a.due == b.due && a.updated > b.updated)))
    ensures Key(r, a) == Key(r, b) ==>
      a.order == b.order && (r.StageEngine? || a.updated == b.updated) && (r.StatusBoard? ==> a.due == b.due)
  {
    match r
    case StageEngine => LexOne(a.order, b.order);
    case StageBoard => LexTwo(a.order, -a.updated, b.order, -b.updated);
    case StatusBoard =>
      var ra, rb := if a.due.Some? then 0 else 1, if b.due.Some? then 0 else 1;
      var da, db := a.due.GetOr(0), b.due.GetOr(0);
      LexFour(a.order, ra, da, -a.updated, b.order, rb, db, -b.updated);
  }

  lemma LexOne(a: int, b: int)
    ensures Before([a], [b]) <==> a < b
  {
  }

  lemma LexTwo(a0: int, a1: int, b0: int, b1: int)
    ensures Before([a0, a1], [b0, b1]) <==> a0 < b0 || (a0 == b0 && a1 < b1)
    ensures [a0, a1] == [b0, b1] ==> a0 == b0 && a1 == b1
  {
    assert [a0, a1][1..] == [a1] && [b0, b1][1..] == [b1];
    LexOne(a1, b1);
    assert [a0, a1][1] == a1 && [b0, b1][1] == b1;
  }

  lemma LexFour(a0: int, a1: int, a2: int, a3: int, b0: int, b1: int, b2: int, b3: int)
    ensures Before([a0, a1, a2, a3], [b0, b1, b2, b3])
      <==> a0 < b0 || (a0 == b0 && (a1 < b1 || (a1 == b1 && (a2 < b2 || (a2 == b2 && a3 < b3)))))
    ensures [a0, a1, a2, a3] == [b0, b1, b2, b3] ==> a0 == b0 && a1 == b1 && a2 == b2 && a3 == b3
  {
    assert [a0, a1, a2, a3][1..] == [a1, a2, a3] && [b0, b1, b2, b3][1..] == [b1, b2, b3];
    assert [a1, a2, a3][1..] == [a2, a3] && [b1, b2, b3][1..] == [b2, b3];
    LexTwo(a2, a3, b2, b3);
    assert [a0, a1, a2, a3][1] == a1 && [a0, a1, a2, a3][2] == a2 && [a0, a1, a2, a3][3] == a3;
    assert [b0, b1, b2, b3][1] == b1 && [b0, b1, b2, b3][2] == b2 && [b0, b1, b2, b3][3] == b3;
  }

  /** The engine renumbers deals by order and then primary key, and collections as their board shows them. */
  lemma EngineInOrder(cards: Cards, kind: Kind, col: Column, i: nat, j: nat)
    requires i < j < |Read(cards, Engine(kind), col)|
    ensures var x, y := Read(cards, Engine(kind), col)[i], Read(cards, Engine(kind), col)[j];
      && x in cards && y in cards && cards[x].order <= cards[y].order
      && (kind.Deals? && cards[x].order == cards[y].order ==> x < y)
      && (kind.Collections? ==> Read(cards, Engine(kind), col) == Read(cards, StatusBoard, col))
  {
    ReadInOrder(cards, Engine(kind), col, i, j);
  }

  /** The order of the end is 100 in a column without other active cards, and else 100 above the highest of them. */
  lemma EndOrderExact(cards: Cards, col: Column, id: nat)
    ensures (forall x :: x in cards && x != id && cards[x].active ==> cards[x].column != col) ==> EndOrder(cards, col, id) == 100
    ensures (exists x :: x in cards && x != id && cards[x].active && cards[x].column == col) ==>
      exists x :: x in cards && x != id && cards[x].active && cards[x].column == col
        && EndOrder(cards, col, id) == cards[x].order + 100
  {
    var others := ReadExcept(cards, StageEngine, col, id);
    ReadExceptShows(cards, StageEngine, col, id);
    if others == [] {
      assert forall x :: x in cards && x != id && cards[x].active && cards[x].column == col ==> x in others;
    } else {
      assert forall x :: x in others ==> x in cards && x != id && cards[x].active && cards[x].column == col;
      var x := HighestReached(cards, others);
      assert others[0] in others;
    }
  }

  lemma {:induction false} HighestReached(cards: Cards, s: seq<nat>) returns (x: nat)
    requires s != [] && forall y :: y in s ==> y in cards
    ensures x in s && cards[x].order == Highest(cards, s)
  {
    x := s[0];
    assert s[0] in s;
    if |s| > 1 {
      assert forall y :: y in s[1..] ==> y in s;
      var y := HighestReached(cards, s[1..]);
      if cards[s[0]].order <= cards[y].order {
        x := y;
      }
    } else {
      assert s[1..] == [];
    }
  }

  // ----- What a request changes -----

  predicate OnOffer(lanes: Lanes, scope: nat, lane: string) {
    scope in lanes && lane in lanes[scope]
  }

  /**
     A drag to an offered lane: with position k at most the number of the others, exactly k of them stand
     before the card; past the end it comes last; without a position, or with a negative one, first.
     Its order is 100 times its place.
   */
  lemma DragLands(kind: Kind, lanes: Lanes, cards: Cards, id: nat, lane: Lane, position: Option<int>, now: int, r: Reading)
    requires id in cards && OnOffer(lanes, cards[id].column.scope, lane)
    ensures var to := Column(cards[id].column.scope, lane);
      var others := Drop(Read(cards, Engine(kind), to), id);
      var place := if position.None? || position.value < 0 then 0 else if position.value <= |others| then position.value else |others|;
      var board := Serve(kind, lanes, cards, Drag(id, lane, position, now));
      && id in board && board[id].order == 100 * (place + 1)
      && Read(board, r, to) == if cards[id].active then others[..place] + [id] + others[place..] else others
  {
    var to := Column(cards[id].column.scope, lane);
    var others := Drop(Read(cards, Engine(kind), to), id);
    var p := AskedPosition(position);
    assert Offers(lanes, to);
    DragTarget(kind, cards, id, lane, p, now, r);
    DragTargetOrders(kind, cards, id, lane, p, now);
    assert InsertAt(others, p, id)[Clamp(p, |others|)] == id;
  }

  /** A request that names no card, a card that exists already, or a lane that is not offered changes nothing. */
  lemma ServeRefuses(kind: Kind, lanes: Lanes, cards: Cards, request: Request)
    requires match request
      case Create(id, col, _, _, _) => id in cards || !OnOffer(lanes, col.scope, col.lane)
      case Drag(id, lane, _, _) => id !in cards || !OnOffer(lanes, cards[id].column.scope, lane)
      case Edit(id, col, _, _, _) => id !in cards || !OnOffer(lanes, col.scope, col.lane)
    ensures Serve(kind, lanes, cards, request) == cards
  {
  }

  /** The card a served request names takes the posted fields and the time of the request; a drag keeps the rest. */
  lemma ServeNamed(kind: Kind, lanes: Lanes, cards: Cards, request: Request)
    requires match request
      case Create(id, col, _, _, _) => id !in cards && OnOffer(lanes, col.scope, col.lane)
      case Drag(id, lane, _, _) => id in cards && OnOffer(lanes, cards[id].column.scope, lane)
      case Edit(id, col, _, _, _) => id in cards && OnOffer(lanes, col.scope, col.lane)
    ensures var board := Serve(kind, lanes, cards, request);
      request.id in board && match request
        case Create(id, col, active, due, now) => board[id] == Card(col, active, board[id].order, due, now)
        case Drag(id, lane, _, now) =>
          board[id] == Card(Column(cards[id].column.scope, lane), cards[id].active, board[id].order, cards[id].due, now)
        case Edit(id, col, active, due, now) => board[id] == Card(col, active, board[id].order, due, now)
  {
    match request
    case Create(_, _, _, _, _) =>
    case Drag(id, lane, position, now) =>
      DragFrame(kind, cards, id, lane, AskedPosition(position), now);
    case Edit(id, col, active, due, now) =>
      var saved := cards[id := Filed(cards, id, col, active, due, now)];
      ClosedFrame(kind, saved, col);
      ClosedFrame(kind, Closed(kind, saved, col), cards[id].column);
  }

  /** An edit that keeps the column keeps the order, and writes no other card. */
  lemma EditInPlace(kind: Kind, lanes: Lanes, cards: Cards, id: nat, active: bool, due: Option<int>, now: int)
    requires id in cards && OnOffer(lanes, cards[id].column.scope, cards[id].column.lane)
    ensures Serve(kind, lanes, cards, Edit(id, cards[id].column, active, due, now))
         == cards[id := Card(cards[id].column, active, cards[id].order, due, now)]
  {
  }

  // ----- What is written -----

  /** Of the first i cards of a list the ones written are those whose order is not yet 100 times their place, each once. */
  lemma {:induction false} WritesStale(cards: Cards, l: seq<nat>, i: nat, k: nat)
    requires Distinct(l) && k < i <= |l| && forall x :: x in l ==> x in cards
    ensures l[k] in Stale(cards, l, i) <==> cards[l[k]].order != 100 * (k + 1)
    ensures forall x :: x in Stale(cards, l, i) ==> x in l[..i]
  {
    StaleAmong(cards, l, i);
    StaleAmong(cards, l, i - 1);
    assert l[k] in l;
    if k < i - 1 {
      WritesStale(cards, l, i - 1, k);
      assert l[k] != l[i - 1];
    } else {
      assert l[k] !in l[..i - 1];
    }
  }

  lemma {:induction false} StaleAmong(cards: Cards, l: seq<nat>, i: nat)
    requires i <= |l|
    ensures forall x :: x in Stale(cards, l, i) ==> x in l[..i]
  {
    if i > 0 {
      StaleAmong(cards, l, i - 1);
      assert l[..i] == l[..i - 1] + [l[i - 1]];
    }
  }
}
