/** Notifications and memberships: what one service call does to them, and what every run keeps. */
module CollabRows {
  import opened Wrappers
  import opened RowOrder
  import opened Collab
  import opened CollabRuns

  // ----- Notifications -----

  /** How many notifications user u has of a message. */
  function NoticesFor(ns: seq<Notification>, u: nat, message: nat): nat {
    if ns == [] then 0
    else
      NoticesFor(ns[..|ns| - 1], u, message)
      + (if ns[|ns| - 1].user == u && ns[|ns| - 1].message == message then 1 else 0)
  }

  lemma {:induction false} NoticesForConcat(a: seq<Notification>, b: seq<Notification>, u: nat, message: nat)
    ensures NoticesFor(a + b, u, message) == NoticesFor(a, u, message) + NoticesFor(b, u, message)
  {
    if b == [] {
      assert a + b == a;
    } else {
      assert (a + b)[..|a + b| - 1] == a + b[..|b| - 1];
      NoticesForConcat(a, b[..|b| - 1], u, message);
    }
  }

  lemma {:induction false} NoticesForOlder(ns: seq<Notification>, u: nat, message: nat)
    requires forall k :: 0 <= k < |ns| ==> ns[k].message != message
    ensures NoticesFor(ns, u, message) == 0
  {
    if ns != [] {
      NoticesForOlder(ns[..|ns| - 1], u, message);
    }
  }

  /** Among distinct candidates, exactly those to be told get one notification each, unread, at the level of the mention. */
  lemma {:induction false} NoticesOnce(seats: Seats, c: nat, author: nat, mentions: set<nat>, id: nat, users: seq<nat>, u: nat)
    requires Distinct(users)
    ensures NoticesFor(Notices(seats, c, author, mentions, id, users), u, id)
      == if u in users && Told(seats, c, author, mentions, u) then 1 else 0
  {
    if users != [] {
      var n := |users| - 1;
      NoticesOnce(seats, c, author, mentions, id, users[..n], u);
      var before := Notices(seats, c, author, mentions, id, users[..n]);
      assert users == users[..n] + [users[n]] && users[n] !in users[..n];
      if Told(seats, c, author, mentions, users[n]) {
        var notice := Notification(users[n], c, id, if users[n] in mentions then Attention else Info, false, None);
        assert (before + [notice])[..|before|] == before;
      } else {
        assert Notices(seats, c, author, mentions, id, users) == before;
      }
    }
  }

  lemma {:induction false} NoticesContent(seats: Seats, c: nat, author: nat, mentions: set<nat>, id: nat, users: seq<nat>, k: nat)
    requires k < |Notices(seats, c, author, mentions, id, users)|
    ensures var n := Notices(seats, c, author, mentions, id, users)[k];
      && n.conversation == c && n.message == id && !n.isRead && n.readAt == None && n.user in users
      && Told(seats, c, author, mentions, n.user) && (n.level == Attention <==> n.user in mentions)
  {
    var last := |users| - 1;
    if k < |Notices(seats, c, author, mentions, id, users[..last])| {
      NoticesContent(seats, c, author, mentions, id, users[..last], k);
    }
  }

  /**
     An accepted post keeps every earlier notification and gives each active member other than the
     author exactly one, if unmuted or mentioned, and none to anyone else; at attention level exactly
     when mentioned.
   */
  lemma PostNotifies(s: State, c: nat, author: nat, mentions: set<nat>, now: int, u: nat)
    requires c in s.conversations && Sound(s)
    ensures var after := Posted(s, c, author, mentions, now).notifications;
      && s.notifications <= after
      && NoticesFor(after, u, |s.messages|) ==
        (if Seat(c, u) in s.seats && s.seats[Seat(c, u)].active && u != author
            && (!s.seats[Seat(c, u)].muted || u in mentions) then 1 else 0)
  {
    var ensured := Ensured(s.seats, Seat(c, author), Member, false, false);
    var others, id := Others(ensured, c, author), |s.messages|;
    OrderByLists(OtherKeys(ensured, c, author));
    ListsDistinct(others, OtherKeys(ensured, c, author));
    OthersActive(ensured, c, author, u);
    NoticesOnce(ensured, c, author, mentions, id, others, u);
    forall k | 0 <= k < |s.notifications|
      ensures s.notifications[k].message != id
    {
      assert SoundNotice(s, k);
    }
    NoticesForOlder(s.notifications, u, id);
    NoticesForConcat(s.notifications, Notices(ensured, c, author, mentions, id, others), u, id);
  }

  /** What each notification a post adds says. */
  lemma PostNoticeContent(s: State, c: nat, author: nat, mentions: set<nat>, now: int, k: nat)
    requires c in s.conversations && |s.notifications| <= k < |Posted(s, c, author, mentions, now).notifications|
    ensures var n := Posted(s, c, author, mentions, now).notifications[k];
      && n.conversation == c && n.message == |s.messages| && !n.isRead && n.readAt == None
      && Seat(c, n.user) in s.seats && s.seats[Seat(c, n.user)].active && n.user != author
      && (n.user in mentions || !s.seats[Seat(c, n.user)].muted)
      && n.level == (if n.user in mentions then Attention else Info)
  {
    var ensured := Ensured(s.seats, Seat(c, author), Member, false, false);
    NoticesContent(ensured, c, author, mentions, |s.messages|, Others(ensured, c, author), k - |s.notifications|);
  }

  /** A notification is of a message of its conversation, is not of its reader's own, and is read exactly when it has a time of reading. */
  predicate SoundNotice(s: State, k: nat)
    requires k < |s.notifications|
  {
    var n := s.notifications[k];
    && n.message < |s.messages|
    && s.messages[n.message].conversation == n.conversation
    && s.messages[n.message].author != n.user
    && (n.isRead <==> n.readAt.Some?)
  }

  /** Every notification is sound, and no user has two of one message. */
  ghost predicate Sound(s: State) {
    && (forall k :: 0 <= k < |s.notifications| ==> SoundNotice(s, k))
    && (forall u, message :: NoticesFor(s.notifications, u, message) <= 1)
  }

  /** Reading notifications changes neither whose they are nor of what. */
  lemma {:induction false} ReadNoticesFor(ns: seq<Notification>, picked: set<nat>, now: int, u: nat, message: nat)
    ensures NoticesFor(ReadNotices(ns, picked, now), u, message) == NoticesFor(ns, u, message)
  {
    if ns != [] {
      var n := |ns| - 1;
      assert ReadNotices(ns, picked, now)[..n] == ReadNotices(ns[..n], picked, now);
      ReadNoticesFor(ns[..n], picked, now, u, message);
    }
  }

  lemma SoundRead(s: State, picked: set<nat>, now: int)
    requires Sound(s)
    ensures Sound(s.(notifications := ReadNotices(s.notifications, picked, now)))
  {
    var after := s.(notifications := ReadNotices(s.notifications, picked, now));
    forall k | 0 <= k < |after.notifications|
      ensures SoundNotice(after, k)
    {
      assert SoundNotice(s, k);
    }
    forall u, message
      ensures NoticesFor(after.notifications, u, message) <= 1
    {
      ReadNoticesFor(s.notifications, picked, now, u, message);
    }
  }

  lemma SoundPost(s: State, c: nat, author: nat, mentions: set<nat>, now: int)
    requires c in s.conversations && Sound(s)
    ensures Sound(Posted(s, c, author, mentions, now))
  {
    var after := Posted(s, c, author, mentions, now);
    forall k | 0 <= k < |after.notifications|
      ensures SoundNotice(after, k)
    {
      if k < |s.notifications| {
        assert SoundNotice(s, k);
      } else {
        PostNoticeContent(s, c, author, mentions, now, k);
      }
    }
    forall u, message
      ensures NoticesFor(after.notifications, u, message) <= 1
    {
      if message == |s.messages| {
        PostNotifies(s, c, author, mentions, now, u);
      } else {
        var added := after.notifications[|s.notifications|..];
        forall k | 0 <= k < |added|
          ensures added[k].message != message
        {
          PostNoticeContent(s, c, author, mentions, now, |s.notifications| + k);
        }
        NoticesForOlder(added, u, message);
        assert after.notifications == s.notifications + added;
        NoticesForConcat(s.notifications, added, u, message);
      }
    }
  }

  lemma SoundOpen(s: State, c: nat, u: nat, now: int)
    requires Sound(s)
    ensures Sound(Opened(s, c, u, now))
  {
    if Active(s.seats, c, u) {
      var read := s.(notifications := ReadNotices(s.notifications, NoticesIn(s.notifications, c, u), now));
      SoundRead(s, NoticesIn(s.notifications, c, u), now);
      SoundSeats(read, Opened(s, c, u, now));
    }
  }

  lemma SoundStep(s: State, e: Event)
    requires Sound(s)
    ensures Sound(Step(s, e))
  {
    var a := e.action;
    if a.Post? {
      if Accepted(s, a) {
        SoundPost(s, a.c, a.u, a.mentions, e.at);
      }
    } else if a.Open? {
      SoundOpen(s, a.c, a.u, e.at);
    } else if a.ReadNotifications? {
      SoundRead(s, Picked(s.notifications, a.u, a.ids), e.at);
    } else {
      OtherActions(s, e);
      SoundSeats(s, Step(s, e));
    }
  }

  lemma OtherActions(s: State, e: Event)
    requires !e.action.Post? && !e.action.Open? && !e.action.ReadNotifications?
    ensures Step(s, e).messages == s.messages && Step(s, e).notifications == s.notifications
  {
  }

  /** Soundness is about messages and notifications only. */
  lemma SoundSeats(a: State, b: State)
    requires Sound(a) && a.messages == b.messages && a.notifications == b.notifications
    ensures Sound(b)
  {
    forall k | 0 <= k < |b.notifications|
      ensures SoundNotice(b, k)
    {
      assert SoundNotice(a, k);
    }
  }

  /** Over every run, no user ever has two notifications of one message, and each is read exactly when it has a time. */
  lemma {:induction false} RunSound(events: seq<Event>)
    ensures Sound(Run(events))
  {
    if events != [] {
      RunSound(events[..|events| - 1]);
      SoundStep(Run(events[..|events| - 1]), events[|events| - 1]);
    }
  }

  /** Notifications are never removed or rewritten: an event can only read an unread one, at its own time. */
  lemma NoticesKept(s: State, e: Event, k: nat)
    requires k < |s.notifications|
    ensures k < |Step(s, e).notifications|
    ensures var before, after := s.notifications[k], Step(s, e).notifications[k];
      after == before || (!before.isRead && after == before.(isRead := true, readAt := Some(e.at)))
  {
  }

  /** Over a run, a notification once read stays as it is. */
  lemma {:induction false} ReadStaysRead(events: seq<Event>, i: nat, k: nat)
    requires i <= |events| && k < |Run(events[..i]).notifications| && Run(events[..i]).notifications[k].isRead
    ensures k < |Run(events).notifications| && Run(events).notifications[k] == Run(events[..i]).notifications[k]
    decreases |events| - i
  {
    if i == |events| {
      assert events[..i] == events;
    } else {
      assert events[..i + 1][..i] == events[..i];
      NoticesKept(Run(events[..i]), events[i], k);
      ReadStaysRead(events, i + 1, k);
    }
  }

  // ----- Memberships -----

  /** From any prior state, aligning a conversation makes its active members exactly the tenant's; other conversations keep theirs. */
  lemma SyncActive(seats: Seats, c: nat, members: set<nat>, d: nat, u: nat)
    ensures Active(Synced(seats, c, members), d, u) <==> if d == c then u in members else Active(seats, d, u)
  {
  }

  /** It keeps every row, and of a row everything but whether it is active; new rows start as plain members. */
  lemma SyncKeepsRows(seats: Seats, c: nat, members: set<nat>, seat: Seat)
    ensures var after := Synced(seats, c, members);
      && (seat in seats ==> seat in after && after[seat].(active := seats[seat].active) == seats[seat])
      && (seat in after && seat !in seats ==>
        seat.conversation == c && seat.user in members && after[seat] == Membership(Member, None, false, false, false, true))
  {
  }

  /** Aligning twice changes nothing more. */
  lemma SyncTwice(seats: Seats, c: nat, members: set<nat>)
    ensures Synced(Synced(seats, c, members), c, members) == Synced(seats, c, members)
  {
  }

  /** Joining reactivates the row, raises its role to the one asked at least, clears only the flags asked, and touches no other row. */
  lemma JoinSeat(seats: Seats, seat: Seat, role: Role, clearMuted: bool, clearArchived: bool, other: Seat)
    ensures var after := Ensured(seats, seat, role, clearMuted, clearArchived);
      && Active(after, seat.conversation, seat.user)
      && Rank(after[seat].role) == (if seat in seats && Rank(seats[seat].role) > Rank(role) then Rank(seats[seat].role) else Rank(role))
      && (seat in seats ==>
        after[seat].lastRead == seats[seat].lastRead && after[seat].pinned == seats[seat].pinned
        && (after[seat].muted <==> seats[seat].muted && !clearMuted)
        && (after[seat].archived <==> seats[seat].archived && !clearArchived))
      && (other != seat ==> (other in after <==> other in seats) && (other in seats ==> after[other] == seats[other]))
  {
  }

  /** No event removes a membership or lowers its role. */
  lemma RankKept(s: State, e: Event, seat: Seat)
    requires seat in s.seats
    ensures seat in Step(s, e).seats && Rank(Step(s, e).seats[seat].role) >= Rank(s.seats[seat].role)
  {
    match e.action
    case Sync(c, members) => SyncKeepsRows(s.seats, c, members, seat);
    case Post(c, u, _, _) => EnsuredRank(s.seats, Seat(c, u), Member, false, false, seat);
    case Join(c, u, role, clearMuted, clearArchived) =>
      EnsuredRank(s.seats, Seat(c, u), role, clearMuted, clearArchived, seat);
    case SetFlag(c, u, _, _) => EnsuredRank(s.seats, Seat(c, u), Member, false, false, seat);
    case _ =>
  }

  lemma EnsuredRank(seats: Seats, joined: Seat, role: Role, clearMuted: bool, clearArchived: bool, seat: Seat)
    requires seat in seats
    ensures var after := Ensured(seats, joined, role, clearMuted, clearArchived);
      seat in after && Rank(after[seat].role) >= Rank(seats[seat].role)
  {
  }

  /** Over every run, a member's role never falls. */
  lemma {:induction false} RunRankRises(events: seq<Event>, i: nat, seat: Seat)
    requires i <= |events| && seat in Run(events[..i]).seats
    ensures seat in Run(events).seats && Rank(Run(events).seats[seat].role) >= Rank(Run(events[..i]).seats[seat].role)
    decreases |events| - i
  {
    if i == |events| {
      assert events[..i] == events;
    } else {
      assert events[..i + 1][..i] == events[..i];
      RankKept(Run(events[..i]), events[i], seat);
      RunRankRises(events, i + 1, seat);
    }
  }
}
