/**
 The ordering engine of the two kanban boards: deals per pipeline and stage, and
 collections per status.

 A card carries an integer order. A column is read by sorting its active cards, and the
 three queries of the repository differ in what they use to break ties. The engine reads
 a column, renumbers it 100, 200, 300, ... and writes only the cards whose number changed.
 */
module Board {
  import opened Wrappers
  import opened RowOrder
  import opened Listing

  /** A stage name or a status; neither is ever blank. */
  type Lane = s: string | s != "" witness "-"

  /** A deal stands in a stage of its pipeline. A collection stands in a status, and all collections share one scope. */
  datatype Column = Column(scope: nat, lane: Lane)

  datatype Card = Card(column: Column, active: bool, order: nat, due: Option<int>, updated: int)

  type Cards = map<nat, Card>

  datatype Kind = Deals | Collections

  /** The ORDER BY clauses that read a column. The primary key comes last in each. */
  datatype Reading =
    | StageEngine   // sort_order, id
    | StageBoard    // sort_order, -updated_at, id
    | StatusBoard   // sort_order, due_on (blank dates last), -updated_at, id

  function Key(r: Reading, c: Card): (key: seq<int>)
    ensures key != [] && key[0] == c.order
  {
    match r
    case StageEngine => [c.order]
    case StageBoard => [c.order, -c.updated]
    case StatusBoard =>
      match c.due
      case Some(day) => [c.order, 0, day, -c.updated]
      case None => [c.order, 1, 0, -c.updated]
  }

  /** The reading by which the engine renumbers a column. */
  function Engine(kind: Kind): Reading {
    if kind.Deals? then StageEngine else StatusBoard
  }

  predicate Shows(cards: Cards, col: Column, id: nat) {
    id in cards && cards[id].active && cards[id].column == col
  }

  function ColumnKeys(cards: Cards, r: Reading, col: Column): (keys: Keys)
    ensures forall id :: id in keys <==> Shows(cards, col, id)
  {
    map id | id in cards && Shows(cards, col, id) :: Key(r, cards[id])
  }

  /** The active cards of a column, in order. */
  function Read(cards: Cards, r: Reading, col: Column): seq<nat> {
    OrderBy(ColumnKeys(cards, r, col))
  }

  /** The same query with one card excluded by primary key. */
  function ReadExcept(cards: Cards, r: Reading, col: Column, id: nat): seq<nat> {
    OrderBy(ColumnKeys(cards, r, col) - {id})
  }

  lemma ReadShows(cards: Cards, r: Reading, col: Column)
    ensures Distinct(Read(cards, r, col))
    ensures forall x :: x in Read(cards, r, col) <==> Shows(cards, col, x)
  {
    var keys := ColumnKeys(cards, r, col);
    OrderByLists(keys);
    ListsDistinct(Read(cards, r, col), keys);
  }

  lemma ReadExceptShows(cards: Cards, r: Reading, col: Column, id: nat)
    ensures Distinct(ReadExcept(cards, r, col, id))
    ensures forall x :: x in ReadExcept(cards, r, col, id) <==> Shows(cards, col, x) && x != id
  {
    var keys := ColumnKeys(cards, r, col) - {id};
    OrderByLists(keys);
    ListsDistinct(ReadExcept(cards, r, col, id), keys);
    assert forall x :: x in keys <==> Shows(cards, col, x) && x != id;
  }

  /** Excluding a card reads the column with that card taken out. */
  lemma ReadExceptDrops(cards: Cards, r: Reading, col: Column, id: nat)
    ensures ReadExcept(cards, r, col, id) == Drop(Read(cards, r, col), id)
  {
    var keys := ColumnKeys(cards, r, col);
    OrderByLists(keys);
    DropLists(Read(cards, r, col), keys, id);
    OrderByUnique(Drop(Read(cards, r, col), id), keys - {id});
  }

  /** The highest order in a list of cards. */
  function Highest(cards: Cards, s: seq<nat>): nat {
    if s == [] then 0
    else
      var h := Highest(cards, s[1..]);
      if s[0] in cards && h < cards[s[0]].order then cards[s[0]].order else h
  }

  lemma {:induction false} HighestBounds(cards: Cards, s: seq<nat>, x: nat)
    requires x in s && x in cards
    ensures cards[x].order <= Highest(cards, s)
  {
    if x != s[0] {
      HighestBounds(cards, s[1..], x);
    }
  }

  /** The order that puts a card at the end of its column. */
  function EndOrder(cards: Cards, col: Column, id: nat): nat {
    var others := ReadExcept(cards, StageEngine, col, id);
    if others == [] then 100 else Highest(cards, others) + 100
  }

  lemma EndOrderAbove(cards: Cards, col: Column, id: nat)
    ensures forall x :: Shows(cards, col, x) && x != id ==> cards[x].order < EndOrder(cards, col, id)
  {
    var others := ReadExcept(cards, StageEngine, col, id);
    ReadExceptShows(cards, StageEngine, col, id);
    forall x | Shows(cards, col, x) && x != id
      ensures cards[x].order < EndOrder(cards, col, id)
    {
      HighestBounds(cards, others, x);
    }
  }

  /** Every card of l takes 100 times its place; no other card changes. */
  function Renumber(cards: Cards, l: seq<nat>): (r: Cards)
    ensures r.Keys == cards.Keys
  {
    map id | id in cards :: if id in l then cards[id].(order := 100 * (Slot(l, id) + 1)) else cards[id]
  }

  /** Those of the first i cards of l whose order is not yet 100 times their place. */
  function Stale(cards: Cards, l: seq<nat>, i: nat): (s: seq<nat>)
    requires i <= |l|
    decreases i
  {
    if i == 0 then []
    else Stale(cards, l, i - 1) + (if l[i - 1] in cards && cards[l[i - 1]].order == 100 * i then [] else [l[i - 1]])
  }

  /** The list that the engine renumbers: the column, with the moving card inserted. */
  function Line(cards: Cards, r: Reading, col: Column, moving: Option<nat>, p: int): (l: seq<nat>) {
    match moving
    case None => Read(cards, r, col)
    case Some(id) => InsertAt(ReadExcept(cards, r, col, id), p, id)
  }

  lemma LineShows(cards: Cards, r: Reading, col: Column, moving: Option<nat>, p: int)
    ensures Distinct(Line(cards, r, col, moving, p))
    ensures forall x :: x in Line(cards, r, col, moving, p) <==> Shows(cards, col, x) || Some(x) == moving
  {
    match moving
    case None =>
      ReadShows(cards, r, col);
    case Some(id) =>
      ReadExceptShows(cards, r, col, id);
      InsertDistinct(ReadExcept(cards, r, col, id), p, id);
      InsertMembers(ReadExcept(cards, r, col, id), p, id);
  }

  /** Where the moving card goes: the asked position, no further than the end of the column. */
  function Slotted(cards: Cards, r: Reading, col: Column, moving: Option<nat>, p: int): Option<nat> {
    if moving.None? then None else Some(Clamp(p, |ReadExcept(cards, r, col, moving.value)|))
  }

  /** Stages by pipeline, or the five statuses under the collections' one scope. */
  type Lanes = map<nat, seq<string>>

  predicate Offers(lanes: Lanes, col: Column) {
    col.scope in lanes && col.lane in lanes[col.scope]
  }

  function Largest(a: int, b: int): int {
    if a < b then b else a
  }

  /** The board after a card is created: it goes to the end of its column. */
  function Created(cards: Cards, id: nat, col: Column, active: bool, due: Option<int>, now: int): Cards
    requires id !in cards
  {
    cards[id := Card(col, active, EndOrder(cards, col, id), due, now)]
  }

  /** A card saved in another column. */
  function Moved(cards: Cards, id: nat, to: Column, now: int): Cards
    requires id in cards
  {
    cards[id := cards[id].(column := to, updated := now)]
  }

  /** A column renumbered with one card inserted. */
  function Placed(kind: Kind, cards: Cards, col: Column, id: nat, p: int): Cards {
    Renumber(cards, Line(cards, Engine(kind), col, Some(id), p))
  }

  /** A column renumbered as it stands. */
  function Closed(kind: Kind, cards: Cards, col: Column): Cards {
    Renumber(cards, Line(cards, Engine(kind), col, None, 0))
  }

  /** The board after a drag: save the new lane, renumber the target with the card inserted, then the source. */
  function Dragged(kind: Kind, cards: Cards, id: nat, lane: Lane, p: int, now: int): Cards
    requires id in cards
  {
    var from := cards[id].column;
    var to := Column(from.scope, lane);
    var placed := Placed(kind, Moved(cards, id, to, now), to, id, p);
    if from == to then placed else Closed(kind, placed, from)
  }

  /** The card as the edit form saves it: in a new column it takes the order of the end. */
  function Filed(cards: Cards, id: nat, col: Column, active: bool, due: Option<int>, now: int): Card
    requires id in cards
  {
    Card(col, active, if cards[id].column == col then cards[id].order else EndOrder(cards, col, id), due, now)
  }

  /** The board after the edit form: when the card changes column, the new and then the old one are renumbered. */
  function Edited(kind: Kind, cards: Cards, id: nat, col: Column, active: bool, due: Option<int>, now: int): Cards
    requires id in cards
  {
    var from := cards[id].column;
    var saved := cards[id := Filed(cards, id, col, active, due, now)];
    if from == col then saved else Closed(kind, Closed(kind, saved, col), from)
  }

  datatype Request =
    | Create(id: nat, col: Column, active: bool, due: Option<int>, now: int)
    | Drag(id: nat, lane: Lane, position: Option<int>, now: int)
    | Edit(id: nat, col: Column, active: bool, due: Option<int>, now: int)

  datatype Response = Done(position: Option<nat>) | NotFound | InvalidColumn

  /** The position field of a drag request; what does not parse, and what is negative, counts as 0. */
  function AskedPosition(position: Option<int>): int {
    Largest(position.GetOr(0), 0)
  }

  /** The board after one request. */
  function Serve(kind: Kind, lanes: Lanes, cards: Cards, request: Request): Cards {
    match request
    case Create(id, col, active, due, now) =>
      if id in cards || !Offers(lanes, col) then cards else Created(cards, id, col, active, due, now)
    case Drag(id, lane, position, now) =>
      if id !in cards || !Offers(lanes, Column(cards[id].column.scope, lane)) then cards
      else Dragged(kind, cards, id, lane, AskedPosition(position), now)
    case Edit(id, col, active, due, now) =>
      if id !in cards || !Offers(lanes, col) then cards else Edited(kind, cards, id, col, active, due, now)
  }

  /** changed holds the new orders of those of the first i cards of l whose number changes. */
  ghost predicate Noted(cards: Cards, l: seq<nat>, i: nat, changed: map<nat, nat>)
    requires i <= |l| && forall x :: x in l ==> x in cards
  {
    && (forall id :: id in changed ==> id in l[..i])
    && (forall j :: 0 <= j < i ==>
      if cards[l[j]].order == 100 * (j + 1) then l[j] !in changed
      else l[j] in changed && changed[l[j]] == 100 * (j + 1))
  }

  lemma NotedStep(cards: Cards, l: seq<nat>, i: nat, changed: map<nat, nat>)
    requires Distinct(l) && i < |l| && forall x :: x in l ==> x in cards
    requires Noted(cards, l, i, changed)
    ensures var n := 100 * (i + 1);
      Noted(cards, l, i + 1, if cards[l[i]].order == n then changed else changed[l[i] := n])
  {
  }

  /** Writing the changed numbers only gives the table that renumbering the whole list gives. */
  lemma SparseWrite(cards: Cards, l: seq<nat>, changed: map<nat, nat>)
    requires Distinct(l) && forall x :: x in l ==> x in cards
    requires Noted(cards, l, |l|, changed)
    ensures (map id | id in cards :: if id in changed then cards[id].(order := changed[id]) else cards[id]) == Renumber(cards, l)
    ensures changed == map[] ==> cards == Renumber(cards, l)
  {
  }

  /** Columns with the same cards but for one read the same without it. */
  lemma SameRestReads(a: Cards, b: Cards, r: Reading, col: Column, id: nat)
    requires forall x :: x != id ==> (Shows(a, col, x) <==> Shows(b, col, x))
    requires forall x :: x != id && Shows(a, col, x) && Shows(b, col, x) ==> a[x] == b[x]
    ensures ReadExcept(a, r, col, id) == ReadExcept(b, r, col, id)
  {
    var ka, kb := ColumnKeys(a, r, col) - {id}, ColumnKeys(b, r, col) - {id};
    assert ka.Keys == kb.Keys;
    assert forall x :: x in ka ==> ka[x] == kb[x];
    assert ka == kb;
  }

  /** Saving the card in its new lane does not change which others stand there. */
  lemma OthersStay(cards: Cards, r: Reading, id: nat, to: Column, now: int)
    requires id in cards
    ensures ReadExcept(Moved(cards, id, to, now), r, to, id) == ReadExcept(cards, r, to, id)
  {
    SameRestReads(Moved(cards, id, to, now), cards, r, to, id);
  }

  /** One board's rows, and the requests that rewrite them; each comes with the lanes on offer at the time. */
  class KanbanBoard {
    const kind: Kind
    var cards: Cards

    constructor (kind: Kind)
      ensures this.kind == kind && cards == map[]
    {
      this.kind := kind;
      this.cards := map[];
    }

    /** The renumbering loop and the bulk update of the cards it changed. */
    method WriteOrders(column: seq<nat>) returns (written: seq<nat>)
      requires Distinct(column) && forall x :: x in column ==> x in cards
      modifies this`cards
      ensures cards == Renumber(old(cards), column)
      ensures written == Stale(old(cards), column, |column|)
    {
      var changed: map<nat, nat> := map[];
      written := [];
      for i := 0 to |column|
        invariant cards == old(cards)
        invariant written == Stale(cards, column, i)
        invariant Noted(cards, column, i, changed)
        invariant written == [] ==> changed == map[]
      {
        NotedStep(cards, column, i, changed);
        var order := (i + 1) * 100;
        if cards[column[i]].order != order {
          changed := changed[column[i] := order];
          written := written + [column[i]];
        }
      }
      SparseWrite(cards, column, changed);
      if written != [] {
        cards := map id | id in cards :: if id in changed then cards[id].(order := changed[id]) else cards[id];
      }
    }

    /**
     Renumbers a column, with a moving card inserted at a position if one is given. Only the
     cards whose number changed are written, and the table ends as if all had been.
     */
    method Resequence(col: Column, moving: Option<nat>, p: int) returns (inserted: Option<nat>, written: seq<nat>)
      requires moving.Some? ==> moving.value in cards
      modifies this`cards
      ensures var l := Line(old(cards), Engine(kind), col, moving, p);
        && cards == Renumber(old(cards), l)
        && written == Stale(old(cards), l, |l|)
        && inserted == Slotted(old(cards), Engine(kind), col, moving, p)
    {
      LineShows(cards, Engine(kind), col, moving, p);
      var column: seq<nat>;
      match moving {
        case None =>
          column := Read(cards, Engine(kind), col);
          inserted := None;
        case Some(id) =>
          column := ReadExcept(cards, Engine(kind), col, id);
          inserted := Some(Clamp(p, |column|));
          column := InsertAt(column, p, id);
      }
      written := WriteOrders(column);
    }

    method CreateCard(lanes: Lanes, id: nat, col: Column, active: bool, due: Option<int>, now: int) returns (r: Response)
      requires id !in cards
      modifies this`cards
      ensures cards == Serve(kind, lanes, old(cards), Create(id, col, active, due, now))
      ensures r.Done? <==> Offers(lanes, col)
    {
      if !Offers(lanes, col) {
        return InvalidColumn;
      }
      cards := cards[id := Card(col, active, EndOrder(cards, col, id), due, now)];
      r := Done(None);
    }

    /** A drag once it is accepted: the card is saved in its lane, and the target and then the source are renumbered. */
    method MoveCard(id: nat, lane: Lane, p: int, now: int) returns (inserted: Option<nat>)
      requires id in cards
      modifies this`cards
      ensures cards == Dragged(kind, old(cards), id, lane, p, now)
      ensures var to := Column(old(cards)[id].column.scope, lane);
        inserted == Some(Clamp(p, |ReadExcept(old(cards), Engine(kind), to, id)|))
    {
      var from := cards[id].column;
      var to := Column(from.scope, lane);
      OthersStay(cards, Engine(kind), id, to, now);
      cards := cards[id := cards[id].(column := to, updated := now)];
      var written;
      inserted, written := Resequence(to, Some(id), p);
      if from != to {
        var _, _ := Resequence(from, None, 0);
      }
    }

    method DragCard(lanes: Lanes, id: nat, lane: Lane, position: Option<int>, now: int) returns (r: Response)
      modifies this`cards
      ensures cards == Serve(kind, lanes, old(cards), Drag(id, lane, position, now))
      ensures r.NotFound? <==> id !in old(cards)
      ensures r.InvalidColumn? <==> id in old(cards) && !Offers(lanes, Column(old(cards)[id].column.scope, lane))
      ensures r.Done? ==>
        var others := |ReadExcept(old(cards), Engine(kind), Column(old(cards)[id].column.scope, lane), id)|;
        r.position == Some(
          if position.None? || position.value < 0 then 0 else if position.value <= others then position.value else others)
    {
      if id !in cards {
        return NotFound;
      }
      var p := Largest(position.GetOr(0), 0);
      if !Offers(lanes, Column(cards[id].column.scope, lane)) {
        return InvalidColumn;
      }
      var inserted := MoveCard(id, lane, p, now);
      r := Done(inserted);
    }

    method EditCard(lanes: Lanes, id: nat, col: Column, active: bool, due: Option<int>, now: int) returns (r: Response)
      modifies this`cards
      ensures cards == Serve(kind, lanes, old(cards), Edit(id, col, active, due, now))
      ensures r.NotFound? <==> id !in old(cards)
      ensures r.InvalidColumn? <==> id in old(cards) && !Offers(lanes, col)
    {
      if id !in cards {
        return NotFound;
      }
      if !Offers(lanes, col) {
        return InvalidColumn;
      }
      var from := cards[id].column;
      var order := if from != col then EndOrder(cards, col, id) else cards[id].order;
      cards := cards[id := Card(col, active, order, due, now)];
      if from != col {
        var _, _ := Resequence(col, None, 0);
        var _, _ := Resequence(from, None, 0);
      }
      r := Done(None);
    }
  }
}
