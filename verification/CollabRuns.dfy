/** What every run of the collaboration services keeps, and what the derived unread counts mean. */
module CollabRuns {
  import opened Wrappers
  import opened Collab
  import Text

  datatype Action =
    | Begin(c: nat, kind: ConversationKind)
    | Join(c: nat, u: nat, role: Role, clearMuted: bool, clearArchived: bool)
    | Leave(c: nat, u: nat)
    | SetFlag(c: nat, u: nat, flag: Flag, on: bool)
    | Sync(c: nat, members: set<nat>)
    | Post(c: nat, u: nat, draft: Draft, mentions: set<nat>)
    | Open(c: nat, u: nat)
    | ReadNotifications(u: nat, ids: Option<set<nat>>)

  /** An action and the clock it reads. */
  datatype Event = Event(at: int, action: Action)

  predicate Accepted(s: State, a: Action) {
    a.Post? && a.c in s.conversations && Refusal(s.conversations[a.c], a.draft).None?
  }

  function Step(s: State, e: Event): State {
    match e.action
    case Begin(c, kind) =>
      if c in s.conversations then s else s.(conversations := s.conversations[c := Conversation(kind, None)])
    case Join(c, u, role, clearMuted, clearArchived) =>
      s.(seats := Ensured(s.seats, Seat(c, u), role, clearMuted, clearArchived))
    case Leave(c, u) => s.(seats := Unfollowed(s.seats, Seat(c, u)))
    case SetFlag(c, u, flag, on) => s.(seats := Flagged(s.seats, Seat(c, u), flag, on))
    case Sync(c, members) => s.(seats := Synced(s.seats, c, members))
    case Post(c, u, draft, mentions) => if Accepted(s, e.action) then Posted(s, c, u, mentions, e.at) else s
    case Open(c, u) => Opened(s, c, u, e.at)
    case ReadNotifications(u, ids) =>
      s.(notifications := ReadNotices(s.notifications, Picked(s.notifications, u, ids), e.at))
  }

  /** The state after a run, from an empty workspace. */
  function Run(events: seq<Event>): State {
    if events == [] then State(map[], map[], [], [])
    else Step(Run(events[..|events| - 1]), events[|events| - 1])
  }

  ghost predicate Rising(events: seq<Event>) {
    forall i, j :: 0 <= i < j < |events| ==> events[i].at < events[j].at
  }

  ghost predicate NeverFalling(events: seq<Event>) {
    forall i, j :: 0 <= i < j < |events| ==> events[i].at <= events[j].at
  }

  // ----- Unread counts -----

  /**
     The unread counter that a user would keep by hand: it goes up with each message of another
     author, and to zero when the user posts, or opens the conversation as an active member.
   */
  function Pending(events: seq<Event>, c: nat, u: nat): nat {
    if events == [] then 0
    else
      var before := Run(events[..|events| - 1]);
      var pending := Pending(events[..|events| - 1], c, u);
      match events[|events| - 1].action
      case Post(c', author, _, _) =>
        if c' != c || !Accepted(before, events[|events| - 1].action) then pending
        else if author == u then 0
        else pending + 1
      case Open(c', u') => if c' == c && u' == u && Active(before.seats, c, u) then 0 else pending
      case _ => pending
  }

  /** The read marker of a membership, active or not. */
  function Marker(seats: Seats, c: nat, u: nat): Option<int> {
    if Seat(c, u) in seats then seats[Seat(c, u)].lastRead else None
  }

  /** No message and no read marker lies after a point in time. */
  ghost predicate NothingAfter(s: State, now: int) {
    && (forall i :: 0 <= i < |s.messages| ==> s.messages[i].at <= now)
    && (forall c, u :: Marker(s.seats, c, u).Some? ==> Marker(s.seats, c, u).value <= now)
  }

  lemma NothingAfterStep(s: State, e: Event)
    requires NothingAfter(s, e.at)
    ensures NothingAfter(Step(s, e), e.at)
  {
    MessagesStep(s, e);
    forall c, u | Marker(Step(s, e).seats, c, u).Some?
      ensures Marker(Step(s, e).seats, c, u).value <= e.at
    {
      MarkerStep(s, e, c, u);
    }
  }

  lemma {:induction false} RunBounded(events: seq<Event>)
    requires NeverFalling(events) && events != []
    ensures NothingAfter(Run(events), events[|events| - 1].at)
  {
    var n := |events| - 1;
    if n > 0 {
      RunBounded(events[..n]);
      assert events[n - 1].at <= events[n].at;
    }
    NothingAfterStep(Run(events[..n]), events[n]);
  }

  lemma {:induction false} NoneFresh(messages: seq<Message>, c: nat, u: nat, now: int)
    requires forall i :: 0 <= i < |messages| ==> messages[i].at <= now
    ensures CountFresh(messages, c, u, Some(now)) == 0
  {
    if messages != [] {
      NoneFresh(messages[..|messages| - 1], c, u, now);
    }
  }

  /** The event posts to c. */
  predicate PostsTo(s: State, a: Action, c: nat) {
    a.Post? && Accepted(s, a) && a.c == c
  }

  /** The event brings u up to date with c: a post of their own, or opening it as an active member. */
  predicate CatchesUp(s: State, a: Action, c: nat, u: nat) {
    (PostsTo(s, a, c) && a.u == u) || (a.Open? && a.c == c && a.u == u && Active(s.seats, c, u))
  }

  /** Actions that neither post to the conversation nor open it leave the user's marker alone. */
  lemma MarkerStep(s: State, e: Event, c: nat, u: nat)
    ensures Marker(Step(s, e).seats, c, u) ==
      if CatchesUp(s, e.action, c, u) then Some(e.at) else Marker(s.seats, c, u)
  {
    match e.action
    case Join(d, v, role, clearMuted, clearArchived) =>
      EnsuredMarker(s.seats, Seat(d, v), role, clearMuted, clearArchived, c, u);
    case SetFlag(d, v, flag, on) =>
      EnsuredMarker(s.seats, Seat(d, v), Member, false, false, c, u);
    case Post(d, v, _, _) =>
      EnsuredMarker(s.seats, Seat(d, v), Member, false, false, c, u);
    case Sync(d, members) =>
      SyncedMarker(s.seats, d, members, c, u);
    case _ =>
  }

  lemma EnsuredMarker(seats: Seats, joined: Seat, role: Role, clearMuted: bool, clearArchived: bool, c: nat, u: nat)
    ensures Marker(Ensured(seats, joined, role, clearMuted, clearArchived), c, u) == Marker(seats, c, u)
  {
  }

  lemma SyncedMarker(seats: Seats, d: nat, members: set<nat>, c: nat, u: nat)
    ensures Marker(Synced(seats, d, members), c, u) == Marker(seats, c, u)
  {
  }

  lemma MessagesStep(s: State, e: Event)
    ensures Step(s, e).messages ==
      if Accepted(s, e.action) then s.messages + [Message(e.action.c, e.action.u, e.at)] else s.messages
  {
  }

  lemma CountFreshSnoc(messages: seq<Message>, m: Message, c: nat, u: nat, marker: Option<int>)
    ensures CountFresh(messages + [m], c, u, marker)
      == CountFresh(messages, c, u, marker) + if Fresh(m, c, u, marker) then 1 else 0
  {
  }

  /** The derived count of all messages of others since the marker, whether or not the membership is active. */
  function Derived(s: State, c: nat, u: nat): nat {
    CountFresh(s.messages, c, u, Marker(s.seats, c, u))
  }

  lemma CaughtUp(s: State, e: Event, c: nat, u: nat)
    requires NothingAfter(s, e.at) && CatchesUp(s, e.action, c, u)
    ensures Derived(Step(s, e), c, u) == 0
  {
    MarkerStep(s, e, c, u);
    NothingAfterStep(s, e);
    NoneFresh(Step(s, e).messages, c, u, e.at);
  }

  lemma NotCaughtUp(s: State, e: Event, c: nat, u: nat)
    requires NothingAfter(s, e.at) && !CatchesUp(s, e.action, c, u)
    ensures var before, after := Derived(s, c, u), Derived(Step(s, e), c, u);
      after == if PostsTo(s, e.action, c) && Marker(s.seats, c, u) != Some(e.at) then before + 1 else before
  {
    MarkerStep(s, e, c, u);
    MessagesStep(s, e);
    CountStep(s, e, Step(s, e).messages, c, u, Marker(s.seats, c, u));
  }

  /** One event's part in the count of messages newer than a marker that does not lie after it. */
  lemma CountStep(s: State, e: Event, after: seq<Message>, c: nat, u: nat, marker: Option<int>)
    requires marker.Some? ==> marker.value <= e.at
    requires after == if Accepted(s, e.action) then s.messages + [Message(e.action.c, e.action.u, e.at)] else s.messages
    ensures CountFresh(after, c, u, marker) == CountFresh(s.messages, c, u, marker)
      + if PostsTo(s, e.action, c) && e.action.u != u && marker != Some(e.at) then 1 else 0
  {
    if Accepted(s, e.action) {
      CountFreshSnoc(s.messages, Message(e.action.c, e.action.u, e.at), c, u, marker);
    }
  }

  lemma PendingStep(events: seq<Event>, c: nat, u: nat)
    requires events != []
    ensures var n := |events| - 1;
      var s, a, before := Run(events[..n]), events[n].action, Pending(events[..n], c, u);
      Pending(events, c, u) ==
        if CatchesUp(s, a, c, u) then 0 else if PostsTo(s, a, c) then before + 1 else before
  {
  }

  /**
     Since the user last caught up, the messages of others that were posted in that very instant:
     the clock read the same for the post as for the marker.
   */
  function Tied(events: seq<Event>, c: nat, u: nat): nat {
    if events == [] then 0
    else
      var before, e := Run(events[..|events| - 1]), events[|events| - 1];
      var tied := Tied(events[..|events| - 1], c, u);
      if CatchesUp(before, e.action, c, u) then 0
      else if PostsTo(before, e.action, c) && Marker(before.seats, c, u) == Some(e.at) then tied + 1
      else tied
  }

  /**
     Over every run, the count derived from timestamps falls short of the counter by exactly the
     messages tied with the marker; and a strictly increasing clock ties none.
   */
  lemma {:induction false} DerivedIsPending(events: seq<Event>, c: nat, u: nat)
    requires NeverFalling(events)
    ensures Derived(Run(events), c, u) + Tied(events, c, u) == Pending(events, c, u)
    ensures Rising(events) ==> Tied(events, c, u) == 0
  {
    if events != [] {
      var n := |events| - 1;
      var s, e := Run(events[..n]), events[n];
      DerivedIsPending(events[..n], c, u);
      BoundedBefore(events);
      PendingStep(events, c, u);
      if CatchesUp(s, e.action, c, u) {
        CaughtUp(s, e, c, u);
      } else {
        NotCaughtUp(s, e, c, u);
      }
    }
  }

  /** Before the last event of a run nothing lies after it; under a rising clock no marker lies at it either. */
  lemma BoundedBefore(events: seq<Event>)
    requires NeverFalling(events) && events != []
    ensures var n := |events| - 1;
      && NothingAfter(Run(events[..n]), events[n].at)
      && (Rising(events) ==> forall c, u :: Marker(Run(events[..n]).seats, c, u) != Some(events[n].at))
  {
    var n := |events| - 1;
    if n > 0 {
      RunBounded(events[..n]);
      assert events[n - 1].at <= events[n].at;
    }
  }

  /** A summary shows the counter to an active member if and only if no message is tied, and all messages of others to anyone else. */
  lemma SummaryUnread(events: seq<Event>, c: nat, u: nat)
    requires NeverFalling(events)
    ensures var s, unread := Run(events), BuildSummary(Run(events), c, u).unread;
      && (Active(s.seats, c, u) ==> (unread == Pending(events, c, u) <==> Tied(events, c, u) == 0))
      && (!Active(s.seats, c, u) ==> unread == CountFresh(s.messages, c, u, None))
      && (Rising(events) ==> Tied(events, c, u) == 0)
  {
    DerivedIsPending(events, c, u);
  }

  /** A user joins a conversation and opens it, and another posts to it in that instant. */
  function TiedEvents(): seq<Event> {
    [Event(0, Begin(7, Team)), Event(1, Join(7, 2, Member, true, true)), Event(2, Open(7, 2)),
     Event(2, Post(7, 1, Draft("hola", "", false, false), {}))]
  }

  lemma TiedNeverFalls()
    ensures NeverFalling(TiedEvents())
  {
    var times := [0, 1, 2, 2];
    assert forall i :: 0 <= i < 4 ==> TiedEvents()[i].at == times[i];
    assert forall i, j :: 0 <= i < j < 4 ==> times[i] <= times[j];
  }

  lemma OpenedRun()
    ensures var s := Run(TiedEvents()[..3]);
      && s.conversations == map[7 := Conversation(Team, None)] && s.messages == []
      && Active(s.seats, 7, 2) && s.seats[Seat(7, 2)].lastRead == Some(2)
      && Pending(TiedEvents()[..3], 7, 2) == 0
  {
    var e0, e1, e2 := TiedEvents()[0], TiedEvents()[1], TiedEvents()[2];
    assert TiedEvents()[..3] == [e0, e1, e2] && [e0, e1, e2][..2] == [e0, e1] && [e0, e1][..1] == [e0] && [e0][..0] == [];
    var conversations := map[7 := Conversation(Team, None)];
    assert Run([e0]) == State(conversations, map[], [], []);
    assert Run([e0, e1]) == State(conversations, map[Seat(7, 2) := Newcomer(Member)], [], []);
    PendingStep([e0, e1, e2], 7, 2);
  }

  /** Two events in one instant: a message posted just after the conversation is opened is never counted. */
  lemma TieMissesMessage()
    ensures var events := TiedEvents();
      && NeverFalling(events) && Active(Run(events).seats, 7, 2)
      && BuildSummary(Run(events), 7, 2).unread == 0 && Pending(events, 7, 2) == 1
  {
    TiedNeverFalls();
    OpenedRun();
    TieStep(Run(TiedEvents()[..3]), TiedEvents()[3]);
    PendingStep(TiedEvents(), 7, 2);
  }

  lemma TieStep(s: State, e: Event)
    requires s.conversations == map[7 := Conversation(Team, None)] && s.messages == []
    requires Active(s.seats, 7, 2) && s.seats[Seat(7, 2)].lastRead == Some(2)
    requires e == Event(2, Post(7, 1, Draft("hola", "", false, false), {}))
    ensures Accepted(s, e.action) && Active(Step(s, e).seats, 7, 2) && BuildSummary(Step(s, e), 7, 2).unread == 0
  {
    PlainDraft(e.action.draft);
    MessagesStep(s, e);
    MarkerStep(s, e, 7, 2);
    CountFreshSnoc([], Message(7, 1, 2), 7, 2, Some(2));
  }

  lemma PlainDraft(draft: Draft)
    requires draft == Draft("hola", "", false, false)
    ensures forall conversation :: Refusal(conversation, draft) == None
  {
    Text.StripStrips("hola");
    Text.StripStrips("update");
    assert Text.Lower("update") == "update";
    assert "update" in MESSAGE_KINDS;
  }

  // ----- The bulk inbox against the single summary -----

  lemma {:induction false} GroupedCount(seats: Seats, messages: seq<Message>, ids: set<nat>, c: nat, u: nat)
    requires c in ids
    ensures var counts := GroupedUnread(seats, messages, ids, u);
      (if c in counts then counts[c] else 0) == CountFresh(messages, c, u, ActiveMarker(seats, c, u))
  {
    if messages != [] {
      GroupedCount(seats, messages[..|messages| - 1], ids, c, u);
    }
  }

  lemma {:induction false} LatestIsLast(messages: seq<Message>, ids: set<nat>, n: nat, c: nat)
    requires n <= |messages| && c in ids
    ensures var latest := LatestPerConversation(messages, ids, n);
      LastMessage(messages[..n], c) == if c in latest then Some(latest[c]) else None
  {
    if n > 0 {
      LatestIsLast(messages, ids, n - 1, c);
      assert messages[..n][..n - 1] == messages[..n - 1];
    }
  }

  /** For every conversation listed, the bulk queries give the summary that its own queries give. */
  lemma BulkIsSingle(s: State, ids: set<nat>, c: nat, u: nat)
    requires c in ids
    ensures BulkSummary(s, ids, c, u) == BuildSummary(s, c, u)
  {
    GroupedCount(s.seats, s.messages, ids, c, u);
    LatestIsLast(s.messages, ids, |s.messages|, c);
    assert s.messages[..|s.messages|] == s.messages;
  }

  /** The last message is the one no other of its conversation comes after, by time and then by number. */
  lemma {:induction false} LastMessageIsLast(messages: seq<Message>, c: nat)
    ensures match LastMessage(messages, c)
      case None => forall i :: 0 <= i < |messages| ==> messages[i].conversation != c
      case Some(last) =>
        && messages[last].conversation == c
        && forall i :: 0 <= i < |messages| && messages[i].conversation == c ==>
          messages[i].at < messages[last].at || (messages[i].at == messages[last].at && i <= last)
  {
    if messages != [] {
      LastMessageIsLast(messages[..|messages| - 1], c);
    }
  }

  /** What a conversation records as its last activity, against its messages. */
  ghost predicate Stamped(s: State, c: nat) {
    var last := LastMessage(s.messages, c);
    if c !in s.conversations then last == None
    else s.conversations[c].lastMessageAt == if last.None? then None else Some(s.messages[last.value].at)
  }

  lemma StampedStep(s: State, e: Event, c: nat)
    requires Stamped(s, c) && NothingAfter(s, e.at)
    ensures Stamped(Step(s, e), c)
  {
    MessagesStep(s, e);
    if Accepted(s, e.action) {
      var m := Message(e.action.c, e.action.u, e.at);
      assert (s.messages + [m])[..|s.messages|] == s.messages;
    }
  }

  /** Over every run, a conversation is stamped with the time of its last message; and that message is the latest posted. */
  lemma {:induction false} RunStamped(events: seq<Event>, c: nat)
    requires NeverFalling(events)
    ensures Stamped(Run(events), c)
  {
    if events != [] {
      var n := |events| - 1;
      RunStamped(events[..n], c);
      BoundedBefore(events);
      StampedStep(Run(events[..n]), events[n], c);
    }
  }
}
