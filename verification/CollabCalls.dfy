/**
 What each call of the collaboration services does, told from its arguments and the rows alone:
 memberships, refusals, the parts of a post, and which notifications are read.
 */
module CollabCalls {
  import opened Wrappers
  import opened RowOrder
  import opened Collab
  import opened CollabRuns
  import opened CollabRows
  import Text
  import TextLaws

  // ----- Memberships -----

  lemma RolesRanked()
    ensures Rank(Observer) < Rank(Member) < Rank(Manager)
  {
  }

  /** Joining makes the row active with the higher of its role and the asked one, clears the asked flags, and keeps everything else. */
  lemma JoinedRow(seats: Seats, seat: Seat, role: Role, clearMuted: bool, clearArchived: bool)
    ensures var after := Ensured(seats, seat, role, clearMuted, clearArchived);
      && seat in after && after[seat].active
      && (seat !in seats ==> after[seat] == Membership(role, None, false, false, false, true))
      && (seat in seats ==>
        && (after[seat].role == Manager <==> role == Manager || seats[seat].role == Manager)
        && (after[seat].role == Observer <==> role == Observer && seats[seat].role == Observer)
        && after[seat] == Membership(after[seat].role, seats[seat].lastRead, seats[seat].muted && !clearMuted,
          seats[seat].pinned, seats[seat].archived && !clearArchived, true))
      && after == seats[seat := after[seat]]
  {
  }

  /** Setting a flag joins as a plain member, sets that flag, and keeps the other two. */
  lemma FlagRow(seats: Seats, seat: Seat, flag: Flag, on: bool)
    ensures var joined := Ensured(seats, seat, Member, false, false);
      var after := Flagged(seats, seat, flag, on);
      && seat in joined && seat in after && after == joined[seat := after[seat]]
      && after[seat] == Membership(joined[seat].role, joined[seat].lastRead,
        if flag.Muted? then on else joined[seat].muted, if flag.Pinned? then on else joined[seat].pinned,
        if flag.Archived? then on else joined[seat].archived, true)
  {
  }

  /** Unfollowing clears the active flag of an existing row and nothing else; it creates no row. */
  lemma UnfollowRow(seats: Seats, seat: Seat)
    ensures var after := Unfollowed(seats, seat);
      && after.Keys == seats.Keys && !Active(after, seat.conversation, seat.user)
      && (seat in seats ==> after == seats[seat := seats[seat].(active := false)])
      && (seat !in seats ==> after == seats)
  {
  }

  // ----- Posting -----

  /** A draft is accepted exactly when its body is not all white space, its kind is known, and a task asked for has a date and a case. */
  lemma RefusedExactly(conversation: Conversation, draft: Draft)
    ensures var kind := Text.Folded(if draft.kind == "" then "update" else draft.kind);
      var known := kind == "update" || kind == "blocker" || kind == "decision" || kind == "handoff" || kind == "next_step";
      && (Refusal(conversation, draft) == Some(EmptyBody) <==> TextLaws.White(draft.body))
      && (Refusal(conversation, draft) == Some(UnknownKind) <==> !TextLaws.White(draft.body) && !known)
      && (Refusal(conversation, draft) == Some(TaskWithoutDue) <==>
        !TextLaws.White(draft.body) && known && draft.createTask && !draft.hasDue)
      && (Refusal(conversation, draft) == Some(TaskOutsideCase) <==>
        !TextLaws.White(draft.body) && known && draft.createTask && draft.hasDue && conversation.kind == Team)
  {
    TextLaws.BlankStrips(draft.body);
  }

  /** An accepted post appends the message, stamps its conversation, and joins its author and marks them up to date. */
  lemma PostedRows(s: State, c: nat, author: nat, mentions: set<nat>, now: int)
    requires c in s.conversations
    ensures var after, seat := Posted(s, c, author, mentions, now), Seat(c, author);
      && after.messages == s.messages + [Message(c, author, now)]
      && after.conversations == s.conversations[c := Conversation(s.conversations[c].kind, Some(now))]
      && seat in after.seats && after.seats == s.seats[seat := after.seats[seat]]
      && after.seats[seat] == if seat in s.seats
        then s.seats[seat].(role := after.seats[seat].role, active := true, lastRead := Some(now))
        else Membership(Member, Some(now), false, false, false, true)
  {
  }

  /** The candidates for a notification are told in ascending order of user. */
  lemma OthersRise(seats: Seats, c: nat, author: nat, i: nat, j: nat)
    requires i < j < |Others(seats, c, author)|
    ensures Others(seats, c, author)[i] < Others(seats, c, author)[j]
  {
    var keys := OtherKeys(seats, c, author);
    OrderByLists(keys);
    assert Others(seats, c, author)[i] in Others(seats, c, author) && Others(seats, c, author)[j] in Others(seats, c, author);
    assert Ahead(keys, Others(seats, c, author)[i], Others(seats, c, author)[j]);
  }

  // ----- Reading -----

  /** Opening as an active member moves that member's marker, and reads exactly their unread notifications of the conversation. */
  lemma OpenReads(s: State, c: nat, u: nat, now: int, k: nat)
    requires Seat(c, u) in s.seats && s.seats[Seat(c, u)].active && k < |s.notifications|
    ensures var after, n := Opened(s, c, u, now), s.notifications[k];
      && after.seats == s.seats[Seat(c, u) := s.seats[Seat(c, u)].(lastRead := Some(now))]
      && |after.notifications| == |s.notifications|
      && after.notifications[k] == if n.user == u && n.conversation == c && !n.isRead
        then n.(isRead := true, readAt := Some(now)) else n
  {
  }

  /** Opening without an active membership changes nothing. */
  lemma OpenIgnored(s: State, c: nat, u: nat, now: int)
    requires Seat(c, u) in s.seats ==> !s.seats[Seat(c, u)].active
    ensures Opened(s, c, u, now) == s
  {
  }

  /** A request to read notifications reads exactly the unread ones of that user, among those it lists if it lists any. */
  lemma RequestReads(ns: seq<Notification>, u: nat, ids: Option<set<nat>>, now: int, k: nat)
    requires k < |ns|
    ensures var after := ReadNotices(ns, Picked(ns, u, ids), now);
      && |after| == |ns|
      && after[k] == if ns[k].user == u && !ns[k].isRead && (ids.Some? ==> k in ids.value)
        then ns[k].(isRead := true, readAt := Some(now)) else ns[k]
  {
  }

  /** A summary shows the membership if and only if it is active, and the conversation's last message. */
  lemma SummaryParts(s: State, c: nat, u: nat)
    ensures var summary := BuildSummary(s, c, u);
      && summary.last == LastMessage(s.messages, c)
      && (summary.membership.Some? <==> Seat(c, u) in s.seats && s.seats[Seat(c, u)].active)
      && (summary.membership.Some? ==> summary.membership.value == s.seats[Seat(c, u)])
  {
  }
}
