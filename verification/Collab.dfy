/**
 The collaboration services: conversations, memberships, messages with read markers, and
 notifications. A membership stands for one row of the memberships table, named by its
 conversation and user; a message and a notification are named by their place in the table.
 */
module Collab {
  import opened Wrappers
  import opened RowOrder
  import Text

  datatype Role = Observer | Member | Manager

  function Rank(role: Role): int {
    match role
    case Observer => 0
    case Member => 1
    case Manager => 2
  }

  datatype Seat = Seat(conversation: nat, user: nat)

  datatype Membership = Membership(
    role: Role, lastRead: Option<int>, muted: bool, pinned: bool, archived: bool, active: bool)

  datatype ConversationKind = Team | Entity | Deal

  datatype Conversation = Conversation(kind: ConversationKind, lastMessageAt: Option<int>)

  datatype Message = Message(conversation: nat, author: nat, at: int)

  datatype Level = Info | Attention

  datatype Notification = Notification(
    user: nat, conversation: nat, message: nat, level: Level, isRead: bool, readAt: Option<int>)

  type Seats = map<Seat, Membership>

  datatype State = State(
    conversations: map<nat, Conversation>, seats: Seats, messages: seq<Message>, notifications: seq<Notification>)

  // ----- Memberships -----

  function Newcomer(role: Role): Membership {
    Membership(role, None, false, false, false, true)
  }

  /** get_or_create, then raise the role, reactivate, and clear the flags asked for. */
  function Ensured(seats: Seats, seat: Seat, role: Role, clearMuted: bool, clearArchived: bool): Seats {
    var m := if seat in seats then seats[seat] else Newcomer(role);
    seats[seat := m.(
      role := if Rank(role) > Rank(m.role) then role else m.role,
      active := true,
      muted := m.muted && !clearMuted,
      archived := m.archived && !clearArchived)]
  }

  datatype Flag = Muted | Pinned | Archived

  predicate HasFlag(m: Membership, flag: Flag) {
    match flag
    case Muted => m.muted
    case Pinned => m.pinned
    case Archived => m.archived
  }

  function WithFlag(m: Membership, flag: Flag, on: bool): Membership {
    match flag
    case Muted => m.(muted := on)
    case Pinned => m.(pinned := on)
    case Archived => m.(archived := on)
  }

  /** Setting a flag joins the conversation first. */
  function Flagged(seats: Seats, seat: Seat, flag: Flag, on: bool): Seats {
    var ensured := Ensured(seats, seat, Member, false, false);
    ensured[seat := WithFlag(ensured[seat], flag, on)]
  }

  function Unfollowed(seats: Seats, seat: Seat): Seats {
    if seat in seats then seats[seat := seats[seat].(active := false)] else seats
  }

  predicate Active(seats: Seats, c: nat, u: nat) {
    Seat(c, u) in seats && seats[Seat(c, u)].active
  }

  /** One membership after a conversation is aligned with the tenant's active members. */
  function SyncedSeat(seats: Seats, c: nat, members: set<nat>, seat: Seat): Membership
    requires seat in seats || (seat.conversation == c && seat.user in members)
  {
    if seat.conversation != c then seats[seat]
    else if seat.user !in members then seats[seat].(active := false)
    else if seat in seats then seats[seat].(active := true)
    else Newcomer(Member)
  }

  function Synced(seats: Seats, c: nat, members: set<nat>): Seats {
    map seat | seat in seats.Keys + (set u | u in members :: Seat(c, u)) :: SyncedSeat(seats, c, members, seat)
  }

  // ----- Posting -----

  /** A message as it reaches the service, before any check. */
  datatype Draft = Draft(body: string, kind: string, hasDue: bool, createTask: bool)

  datatype PostError = EmptyBody | UnknownKind | TaskWithoutDue | TaskOutsideCase

  const MESSAGE_KINDS := {"update", "blocker", "decision", "handoff", "next_step"}

  /** What post_message refuses, in the order it checks. */
  function Refusal(conversation: Conversation, draft: Draft): Option<PostError> {
    if Text.Strip(draft.body) == "" then Some(EmptyBody)
    else if Text.Folded(if draft.kind == "" then "update" else draft.kind) !in MESSAGE_KINDS then Some(UnknownKind)
    else if draft.createTask && !draft.hasDue then Some(TaskWithoutDue)
    else if draft.createTask && conversation.kind.Team? then Some(TaskOutsideCase)
    else None
  }

  function OtherKeys(seats: Seats, c: nat, author: nat): Keys {
    map seat | seat in seats && seat.conversation == c && seats[seat].active && seat.user != author :: seat.user := []
  }

  /** The active members of a conversation but one, in ascending order. */
  function Others(seats: Seats, c: nat, author: nat): seq<nat> {
    OrderBy(OtherKeys(seats, c, author))
  }

  /** Who is told of a message: active members but its author, unless they muted it and are not mentioned. */
  predicate Told(seats: Seats, c: nat, author: nat, mentions: set<nat>, u: nat) {
    Active(seats, c, u) && u != author && (!seats[Seat(c, u)].muted || u in mentions)
  }

  /** The notifications of a message, for a list of candidates. */
  function Notices(seats: Seats, c: nat, author: nat, mentions: set<nat>, id: nat, users: seq<nat>): seq<Notification> {
    if users == [] then []
    else
      var u := users[|users| - 1];
      Notices(seats, c, author, mentions, id, users[..|users| - 1])
      + (if Told(seats, c, author, mentions, u)
         then [Notification(u, c, id, if u in mentions then Attention else Info, false, None)]
         else [])
  }

  /** The state after a message is accepted. */
  function Posted(s: State, c: nat, author: nat, mentions: set<nat>, now: int): State
    requires c in s.conversations
  {
    var seats := Ensured(s.seats, Seat(c, author), Member, false, false);
    State(
      s.conversations[c := s.conversations[c].(lastMessageAt := Some(now))],
      seats[Seat(c, author) := seats[Seat(c, author)].(lastRead := Some(now))],
      s.messages + [Message(c, author, now)],
      s.notifications + Notices(seats, c, author, mentions, |s.messages|, Others(seats, c, author)))
  }

  // ----- Reading -----

  function ReadNotice(n: Notification, now: int): Notification {
    if n.isRead then n else n.(isRead := true, readAt := Some(now))
  }

  /** Marks as read the unread notifications that are picked. */
  function ReadNotices(ns: seq<Notification>, picked: set<nat>, now: int): (r: seq<Notification>)
    ensures |r| == |ns|
    ensures forall i :: 0 <= i < |ns| ==> r[i] == if i in picked then ReadNotice(ns[i], now) else ns[i]
  {
    seq(|ns|, i requires 0 <= i < |ns| => if i in picked then ReadNotice(ns[i], now) else ns[i])
  }

  function NoticesOf(ns: seq<Notification>, u: nat): set<nat> {
    set i | 0 <= i < |ns| && ns[i].user == u
  }

  function NoticesIn(ns: seq<Notification>, c: nat, u: nat): set<nat> {
    set i | 0 <= i < |ns| && ns[i].user == u && ns[i].conversation == c
  }

  /** Opening a conversation moves the read marker of an active member, and reads its notifications. */
  function Opened(s: State, c: nat, u: nat, now: int): State {
    if !Active(s.seats, c, u) then s
    else s.(
      seats := s.seats[Seat(c, u) := s.seats[Seat(c, u)].(lastRead := Some(now))],
      notifications := ReadNotices(s.notifications, NoticesIn(s.notifications, c, u), now))
  }

  /** The messages of a conversation, by others than u, newer than a marker; all of them when there is no marker. */
  predicate Fresh(m: Message, c: nat, u: nat, marker: Option<int>) {
    m.conversation == c && m.author != u && (marker.None? || marker.value < m.at)
  }

  function CountFresh(messages: seq<Message>, c: nat, u: nat, marker: Option<int>): nat {
    if messages == [] then 0
    else
      CountFresh(messages[..|messages| - 1], c, u, marker)
      + (if Fresh(messages[|messages| - 1], c, u, marker) then 1 else 0)
  }

  /** The marker that counts: an inactive membership has none. */
  function ActiveMarker(seats: Seats, c: nat, u: nat): Option<int> {
    if Active(seats, c, u) then seats[Seat(c, u)].lastRead else None
  }

  /** The last message of a conversation, by time and then by number. */
  function LastMessage(messages: seq<Message>, c: nat): (last: Option<nat>)
    ensures last.Some? ==> last.value < |messages|
  {
    if messages == [] then None
    else
      var id := |messages| - 1;
      var before := LastMessage(messages[..id], c);
      if messages[id].conversation == c && (before.None? || messages[before.value].at <= messages[id].at) then Some(id)
      else before
  }

  datatype Summary = Summary(membership: Option<Membership>, unread: nat, last: Option<nat>)

  /** The summary of one conversation, from its own queries. */
  function BuildSummary(s: State, c: nat, u: nat): Summary {
    var membership := if Active(s.seats, c, u) then Some(s.seats[Seat(c, u)]) else None;
    var marker := if membership.Some? then membership.value.lastRead else None;
    Summary(membership, CountFresh(s.messages, c, u, marker), LastMessage(s.messages, c))
  }

  /** The grouped unread count: one pass over all messages, a counter per conversation that has any. */
  function GroupedUnread(seats: Seats, messages: seq<Message>, ids: set<nat>, u: nat): map<nat, nat> {
    if messages == [] then map[]
    else
      var m := messages[|messages| - 1];
      var counts := GroupedUnread(seats, messages[..|messages| - 1], ids, u);
      if m.conversation in ids && Fresh(m, m.conversation, u, ActiveMarker(seats, m.conversation, u)) then
        counts[m.conversation := 1 + if m.conversation in counts then counts[m.conversation] else 0]
      else counts
  }

  /** The first row per conversation, newest message first. */
  function LatestPerConversation(messages: seq<Message>, ids: set<nat>, n: nat): (latest: map<nat, nat>)
    requires n <= |messages|
    ensures forall c :: c in latest ==> latest[c] < n
  {
    if n == 0 then map[]
    else
      var latest, c := LatestPerConversation(messages, ids, n - 1), messages[n - 1].conversation;
      if c in ids && (c in latest ==> messages[latest[c]].at <= messages[n - 1].at) then latest[c := n - 1] else latest
  }

  /** The summary of one conversation of the inbox, from the bulk queries. */
  function BulkSummary(s: State, ids: set<nat>, c: nat, u: nat): Summary {
    var unread := GroupedUnread(s.seats, s.messages, ids, u);
    var latest := LatestPerConversation(s.messages, ids, |s.messages|);
    Summary(
      if Active(s.seats, c, u) then Some(s.seats[Seat(c, u)]) else None,
      if c in unread then unread[c] else 0,
      if c in latest then Some(latest[c]) else None)
  }

  /** The notifications of a user that a request names: all of them when it names none. */
  function Picked(ns: seq<Notification>, u: nat, ids: Option<set<nat>>): (r: set<nat>)
    ensures forall i :: i in r ==> i < |ns|
  {
    if ids.None? then NoticesOf(ns, u) else NoticesOf(ns, u) * ids.value
  }

  /** A notification after a request that names some of a user's. */
  function ReadIfNamed(n: Notification, i: nat, u: nat, ids: Option<set<nat>>, now: int): Notification {
    if n.user == u && (ids.Some? ==> i in ids.value) then ReadNotice(n, now) else n
  }

  /** How many rows of a table were rewritten to other values. */
  function CountChanged(before: seq<Notification>, after: seq<Notification>): nat
    requires |before| == |after|
  {
    if before == [] then 0
    else
      var last := |before| - 1;
      CountChanged(before[..last], after[..last]) + if before[last] != after[last] then 1 else 0
  }

  // ----- What the services rely on -----

  lemma CountChangedStep(before: seq<Notification>, after: seq<Notification>, i: nat)
    requires |before| == |after| && i < |before|
    ensures CountChanged(before[..i + 1], after[..i + 1])
         == CountChanged(before[..i], after[..i]) + if before[i] != after[i] then 1 else 0
  {
    assert before[..i + 1][..i] == before[..i] && after[..i + 1][..i] == after[..i];
  }

  lemma OthersActive(seats: Seats, c: nat, author: nat, u: nat)
    ensures u in Others(seats, c, author) <==> Active(seats, c, u) && u != author
  {
    OrderByLists(OtherKeys(seats, c, author));
    assert Active(seats, c, u) && u != author ==> Seat(c, u).user in OtherKeys(seats, c, author);
  }

  /** Neither the others nor what they are told depends on the author's own membership. */
  lemma NoticesFrame(a: Seats, b: Seats, c: nat, author: nat, mentions: set<nat>, id: nat)
    requires a.Keys == b.Keys && forall seat :: seat in a && seat != Seat(c, author) ==> a[seat] == b[seat]
    ensures Notices(a, c, author, mentions, id, Others(a, c, author))
         == Notices(b, c, author, mentions, id, Others(b, c, author))
  {
    var ka, kb := OtherKeys(a, c, author), OtherKeys(b, c, author);
    assert forall u :: u in ka <==> Active(a, c, u) && u != author by {
      assert forall u :: Active(a, c, u) && u != author ==> Seat(c, u).user in ka;
    }
    assert forall u :: u in kb <==> Active(b, c, u) && u != author by {
      assert forall u :: Active(b, c, u) && u != author ==> Seat(c, u).user in kb;
    }
    assert ka.Keys == kb.Keys;
    assert ka == kb;
    NoticesSame(a, b, c, author, mentions, id, Others(a, c, author));
  }

  lemma {:induction false} NoticesSame(a: Seats, b: Seats, c: nat, author: nat, mentions: set<nat>, id: nat, users: seq<nat>)
    requires a.Keys == b.Keys && forall seat :: seat in a && seat != Seat(c, author) ==> a[seat] == b[seat]
    ensures Notices(a, c, author, mentions, id, users) == Notices(b, c, author, mentions, id, users)
  {
    if users != [] {
      NoticesSame(a, b, c, author, mentions, id, users[..|users| - 1]);
    }
  }

  /** A table that agrees with the aligned one at each row is the aligned one. */
  lemma SyncedPointwise(seats: Seats, c: nat, members: set<nat>, after: Seats)
    requires forall seat :: seat in after <==> seat in seats || (seat.conversation == c && seat.user in members)
    requires forall seat :: seat in after ==> after[seat] == SyncedSeat(seats, c, members, seat)
    ensures after == Synced(seats, c, members)
  {
  }

  // ----- The services -----

  class Workspace {
    var conversations: map<nat, Conversation>
    var seats: Seats
    var messages: seq<Message>
    var notifications: seq<Notification>

    ghost function View(): State
      reads this
    {
      State(conversations, seats, messages, notifications)
    }

    constructor ()
      ensures View() == State(map[], map[], [], [])
    {
      conversations, seats, messages, notifications := map[], map[], [], [];
    }

    method EnsureMembership(seat: Seat, role: Role, clearMuted: bool, clearArchived: bool)
      modifies this`seats
      ensures seats == Ensured(old(seats), seat, role, clearMuted, clearArchived)
    {
      if seat !in seats {
        seats := seats[seat := Newcomer(role)];
      }
      var membership := seats[seat];
      var updated := false;
      if Rank(role) > Rank(membership.role) {
        membership, updated := membership.(role := role), true;
      }
      if !membership.active {
        membership, updated := membership.(active := true), true;
      }
      if clearMuted && membership.muted {
        membership, updated := membership.(muted := false), true;
      }
      if clearArchived && membership.archived {
        membership, updated := membership.(archived := false), true;
      }
      if updated {
        seats := seats[seat := membership];
      }
      assert seats == old(seats)[seat := seats[seat]];
    }

    method SetFlag(seat: Seat, flag: Flag, on: bool)
      modifies this`seats
      ensures seats == Flagged(old(seats), seat, flag, on)
    {
      EnsureMembership(seat, Member, false, false);
      if HasFlag(seats[seat], flag) != on {
        seats := seats[seat := WithFlag(seats[seat], flag, on)];
      }
    }

    method Unfollow(seat: Seat)
      modifies this`seats
      ensures seats == Unfollowed(old(seats), seat)
    {
      if seat in seats && seats[seat].active {
        seats := seats[seat := seats[seat].(active := false)];
      }
    }

    /** Creates the missing memberships, reactivates the inactive ones, and deactivates the others. */
    method SyncMemberships(c: nat, members: seq<nat>)
      requires Distinct(members)
      modifies this`seats
      ensures seats == Synced(old(seats), c, set u | u in members)
    {
      var created: Seats := map[];
      var revived: Seats := map[];
      for i := 0 to |members|
        invariant seats == old(seats)
        invariant forall seat :: seat in created <==>
          seat !in seats && seat.conversation == c && seat.user in members[..i]
        invariant forall seat :: seat in created ==> created[seat] == Newcomer(Member)
        invariant forall seat :: seat in revived <==>
          seat in seats && seat.conversation == c && seat.user in members[..i] && !seats[seat].active
        invariant forall seat :: seat in revived ==> revived[seat] == seats[seat].(active := true)
      {
        assert members[..i + 1] == members[..i] + [members[i]];
        var seat := Seat(c, members[i]);
        if seat !in seats {
          created := created[seat := Newcomer(Member)];
        } else if !seats[seat].active {
          revived := revived[seat := seats[seat].(active := true)];
        }
      }
      assert members[..|members|] == members;
      seats := seats + created;
      seats := seats + revived;
      assert forall seat :: seat in seats <==> seat in old(seats) || (seat.conversation == c && seat.user in members);
      seats := map seat | seat in seats ::
        if seat.conversation == c && seats[seat].active && seat.user !in members
        then seats[seat].(active := false) else seats[seat];
      SyncedPointwise(old(seats), c, (set u | u in members), seats);
    }

    /** Posts a message; a refused draft leaves no trace. */
    method PostMessage(c: nat, author: nat, draft: Draft, mentions: set<nat>, now: int) returns (r: Result<nat, PostError>)
      requires c in conversations
      modifies this
      ensures r == match Refusal(old(conversations)[c], draft)
        case Some(e) => Err(e)
        case None => Ok(|old(messages)|)
      ensures View() == if r.Ok? then Posted(old(View()), c, author, mentions, now) else old(View())
    {
      if Text.Strip(draft.body) == "" {
        return Err(EmptyBody);
      }
      var kind := Text.Folded(if draft.kind == "" then "update" else draft.kind);
      if kind !in MESSAGE_KINDS {
        return Err(UnknownKind);
      }
      if draft.createTask && !draft.hasDue {
        return Err(TaskWithoutDue);
      }
      var savepoint := seats;
      var seat := Seat(c, author);
      EnsureMembership(seat, Member, false, false);
      if draft.createTask && conversations[c].kind.Team? {
        seats := savepoint;
        return Err(TaskOutsideCase);
      }
      ghost var ensured := seats;
      var id := |messages|;
      messages := messages + [Message(c, author, now)];
      conversations := conversations[c := conversations[c].(lastMessageAt := Some(now))];
      seats := seats[seat := seats[seat].(lastRead := Some(now))];

      var notices := BuildNotices(c, author, mentions, id);
      NoticesFrame(ensured, seats, c, author, mentions, id);
      notifications := notifications + notices;
      r := Ok(id);
    }

    /** One notification per recipient who is unmuted or mentioned. */
    method BuildNotices(c: nat, author: nat, mentions: set<nat>, id: nat) returns (notices: seq<Notification>)
      ensures notices == Notices(seats, c, author, mentions, id, Others(seats, c, author))
    {
      var recipients := Others(seats, c, author);
      notices := [];
      for i := 0 to |recipients|
        invariant notices == Notices(seats, c, author, mentions, id, recipients[..i])
      {
        var u := recipients[i];
        var mentioned := u in mentions;
        assert recipients[..i + 1][..i] == recipients[..i];
        OthersActive(seats, c, author, u);
        if seats[Seat(c, u)].muted && !mentioned {
          continue;
        }
        notices := notices + [Notification(u, c, id, if mentioned then Attention else Info, false, None)];
      }
      assert recipients[..|recipients|] == recipients;
    }

    method MarkConversationAsRead(c: nat, u: nat, now: int)
      modifies this`seats, this`notifications
      ensures View() == Opened(old(View()), c, u, now)
    {
      var seat := Seat(c, u);
      if seat !in seats || !seats[seat].active {
        return;
      }
      seats := seats[seat := seats[seat].(lastRead := Some(now))];
      notifications := ReadNotices(notifications, NoticesIn(notifications, c, u), now);
    }

    /** Reads a user's unread notifications, all of them or those of a list, and no other; returns how many changed. */
    method MarkNotificationsRead(u: nat, ids: Option<set<nat>>, now: int) returns (changed: nat)
      modifies this`notifications
      ensures notifications == ReadNotices(old(notifications), Picked(old(notifications), u, ids), now)
      ensures changed == CountChanged(old(notifications), notifications)
    {
      changed := 0;
      for i := 0 to |notifications|
        invariant |notifications| == |old(notifications)|
        invariant forall j :: 0 <= j < i ==> notifications[j] == ReadIfNamed(old(notifications)[j], j, u, ids, now)
        invariant forall j :: i <= j < |notifications| ==> notifications[j] == old(notifications)[j]
        invariant changed == CountChanged(old(notifications)[..i], notifications[..i])
      {
        ghost var before := notifications;
        var n := notifications[i];
        if n.user == u && !n.isRead && (ids.Some? ==> i in ids.value) {
          notifications := notifications[i := n.(isRead := true, readAt := Some(now))];
          changed := changed + 1;
        }
        assert notifications[..i] == before[..i];
        CountChangedStep(old(notifications), notifications, i);
      }
      assert notifications[..|notifications|] == notifications && old(notifications)[..|notifications|] == old(notifications);
    }
  }
}
