# A verified model of the Binn CRM's state machines

Binn is a Django CRM. This project models the parts of it that hold state, order or
arithmetic, in Dafny, and proves what they keep over all inputs and over whole runs:

- **Board, BoardLaws, BoardRuns, BoardRequests**: the kanban ordering engine. Cards carry an integer order;
  create, drag and edit rewrite parts of a column, writing only the cards whose number changed.
  One model serves deals (pipeline and stage) and collections (status). The three queries that
  read a column break ties differently, and a reading is a parameter of the theorems.
- **Collab, CollabRuns, CollabRows, CollabCalls**: conversations. Memberships, messages, read markers, mute
  and mention rules, notifications; unread counts derived from times against a plain counter.
- **Consolidation, ConsolidationLaws, GroupErrors**: money by currency, summed, rounded half up, written as
  text and read back on every merge of a group of tenants.
- **ObjectFields, ObjectFieldLaws, MergedFieldLaws, CleanFields**: the sync of configured fields into a table
  of fields, and the two readers of that table.
- **Numerals, Amounts, AmountTexts**: the amount printer and the parser that guesses which of two separators
  is the decimal point.
- **Pipelines, PipelineRequests**: the editor of pipeline templates. **Importer, ImporterLaws,
  ImporterRows**: the CSV import with entity matching. **Blueprints**: the override merge of three lists.

`Wrappers`, `Lookup`, `Text`, `TextLaws`, `Listing` and `RowOrder` hold what these share: options and
results, ASCII case folding and stripping, the first element with a property, insertion into and
removal from lists, and the ORDER BY query, which takes the first row again and again and is
proved to be the only ascending list of a query's rows.

Where the source changes rows in place, a class holds the rows and its methods rewrite them
(`KanbanBoard`, `Workspace`, `MetricBucket`, `FieldTable`, `EntityTable`). Each method is proved
equal to a function of the old state, and the laws are lemmas about those functions. The modules
of requests, calls, clean fields and rows, and `TextLaws`, tell what these functions mean from the
inputs alone, field by field and case by case. Requests run
one at a time. The clock, the posted form and the ids of new rows are parameters.

## What does not hold

Five promises fail on some inputs. In each case the model follows the code, and the exact
condition or a run that shows the failure is proved.

- Reactivating a card in place, by the edit form, keeps its old order, which another card may
  have taken meanwhile. Orders stay distinct exactly when no request does that
  (`BoardRuns.ServeOrderly`), and a run of five requests ends in a clash (`BoardRuns.ReactivationClashes`).
- A printed whole amount with exactly one thousands comma parses to a thousandth of itself.
  All other amounts survive (`Amounts.PrintThenParse`).
- A message posted after a conversation is opened, but in the same instant, is never counted as
  unread (`CollabRuns.TieMissesMessage`). The derived count falls short of the counter by exactly
  these messages, and a strictly rising clock leaves none (`CollabRuns.DerivedIsPending`).
- A sync leaves active rows of the other ownership alone (`ObjectFieldLaws.SystemRowIsRead`), so
  the reader returns exactly what was synced if and only if there are none that are not
  configured (`ObjectFieldLaws.SyncThenReadExactly`); without them it returns the configured
  definitions in order in every case (`ObjectFieldLaws.SyncThenReadOwn`). The merged reader's keys
  are still those of the fallback if and only if such rows have configured or lifecycle keys
  (`MergedFieldLaws.MergedKeysAreFallbackKeys`). Both callers of the sync own their fields
  as non-system ones (`binncrm/object_engine.py:480`, `525`), so such rows are never written by
  this code; they can only come from elsewhere.
- An import that updates can overwrite the identifier by which another row was matched, and then
  importing the same rows again creates an entity (`ImporterLaws.ReupdateCanCreate`). Rows can be
  imported again in every order and number if and only if those that share an identifier with a
  third share one with each other (`ImporterLaws.ReupdateExactly`). For one order alone the condition is
  sufficient but not necessary: with legal ids and emails (2,a), (1,a), (2,b) break it, and still
  create nothing when imported again into an empty table, as the third row created a second
  entity that keeps the 2 (`ImporterLaws.OrderCanSave`).

## Model

| member | source | states |
|---|---|---|
| RowOrder.OrderByLists | binncrm/views.py:2322-2324 | the ORDER BY query returns each row once, strictly ascending in the sort key and then the primary key |
| RowOrder.OrderByUnique | binncrm/views.py:2345-2347 | no other ascending list of the same rows exists, so the query is determined by its keys |
| Board.ReadExceptDrops | binncrm/views.py:2322-2324 | excluding the moving card reads the column with that card taken out and nothing reordered |
| Board.EndOrderAbove | binncrm/views.py:2293-2317 | the order given at the end of a column is above that of every other active card there |
| Board.LineShows | binncrm/views.py:2327-2331 | the list that is renumbered has no repetitions and holds exactly the column's active cards and the moving one |
| Board.SparseWrite | binncrm/views.py:2333-2341 | writing only the cards whose number changed gives the table that renumbering the whole list gives |
| Board.KanbanBoard.WriteOrders | binncrm/views.py:2333-2341 | the loop collects exactly the cards whose order is not yet 100 times their place, and the table ends as if all were written |
| Board.KanbanBoard.Resequence | binncrm/views.py:2320-2365 | renumbers a column with the moving card inserted at the bounded position; says which cards are written and where the card went |
| Board.KanbanBoard.CreateCard | binncrm/views.py:3588-3595 | a new card goes to the end of its column; one for a column that is not offered is refused and changes nothing |
| Board.KanbanBoard.DragCard | binncrm/views.py:6333-6352 | a drag saves the lane and renumbers target and then source; unknown card and invalid lane change nothing; it answers 0 without a position or for a negative one, the position itself up to the number of other cards, and that number beyond |
| Board.KanbanBoard.EditCard | binncrm/views.py:3634-3655 | the edit form appends to a new column and renumbers both, or saves in place; unknown card and invalid column change nothing |
| BoardLaws.RisingReads | binncrm/views.py:2506 | a list of a column's cards with rising orders is that column, whatever breaks the ties |
| BoardLaws.RenumberedReads | binncrm/views.py:2333-2341 | a renumbered column reads as the renumbered list under the engine's, the deal board's and the collection board's order |
| BoardLaws.ClosedColumn | binncrm/views.py:2320-2341 | renumbering a column keeps its sequence under every reading and leaves it with 100, 200, ... |
| BoardLaws.ClosedFrame | binncrm/views.py:2333-2341 | renumbering changes nothing of any card but the order, and nothing at all of cards outside the column |
| BoardLaws.ClosedElsewhere | binncrm/views.py:2320-2341 | every other column reads as before |
| BoardLaws.RenumberingTwiceWritesNothing | binncrm/views.py:2332-2340 | renumbering a renumbered column writes no card and changes no card |
| BoardLaws.DragTarget | binncrm/views.py:6346-6350 | after a drag of an active card the target reads as the old target without the card and with it at the position, in every reading; an inactive card leaves no trace |
| BoardLaws.DragTargetOrders | binncrm/views.py:6350 | the dragged card and the others of the target carry 100, 200, ... in that order, also when the card is inactive |
| BoardLaws.DragSource | binncrm/views.py:6351-6352 | the source is the old one minus the card in the same order, and carries 100, 200, ... |
| BoardLaws.DragFrame | binncrm/views.py:6346-6352 | a drag touches the dragged card and the active cards of two columns, and of the others only the order |
| BoardLaws.DragElsewhere | binncrm/views.py:4109-4117 | every column that is neither source nor target reads as before |
| BoardLaws.DragPosition | binncrm/views.py:2327-2331 | the reported index is the asked position clamped to the length of the old target without the card |
| BoardRuns.AppendedReadsLast | binncrm/views.py:2293-2317 | a card saved with the order of the end reads last in its new column and the rest as before, in every reading |
| BoardRuns.CreateReadsLast | binncrm/views.py:3982-3989 | a created active card is last in its column, in every reading; an inactive one does not show |
| BoardRuns.EditTarget | binncrm/views.py:3646-3651 | after an edit that changes the column, pipeline changed or card deactivated or not, the new column is the old one with the card last if active, in every reading, and carries 100, 200, ... |
| BoardRuns.EditSource | binncrm/views.py:3652-3655 | and the old column is what it was without the card, numbered 100, 200, ... |
| BoardRuns.EditIsDragToEnd | binncrm/views.py:4039-4045 | an edit to another lane gives exactly the board of a drag to any position at or past the end of the target |
| BoardRuns.EditInPlaceOrderly | binncrm/views.py:3646-3649 | saving a card in its column keeps the board orderly exactly when its order is free or it is not reactivated |
| BoardRuns.ServeOrderly | binncrm/views.py:2293-2365 | one request keeps orders positive multiples of 100 and distinct within columns if and only if it does not reactivate a card onto a taken order |
| BoardRuns.RunOrderly | binncrm/views.py:2293-2365 | every board of a run from the empty one is orderly, inactive cards dragged or not and whatever lanes are on offer at each request, if and only if no request of the run reactivates a card onto a taken order |
| BoardRuns.ReadingsAgree | binncrm/views.py:3930 | on every such board the three readings of a column are the same sequence |
| BoardRuns.ServeFrame | binncrm/views.py:6333-6352 | no request loses a card or changes more than the order of any card but the one it names |
| BoardRuns.ReactivationClashes | binncrm/views.py:3646-3649 | a run after which two active deals of one stage carry the same order |
| BoardRequests.DragLands | binncrm/views.py:6337-6352 | with position k at most the number of the others exactly k of them stand before the card, past the end all do, and without a position or with a negative one none; its order is 100 times its place, in every reading |
| BoardRequests.ReadInOrder | binncrm/views.py:2345-2347 | of two cards of a column the one read first has the lower order, and of equal orders the later update, the earlier due date with blank dates last, or the lower id, as the query says |
| BoardRequests.EngineInOrder | binncrm/views.py:2320-2347 | the engine breaks ties of deals by id, and reads collections as their board does |
| BoardRequests.EndOrderExact | binncrm/views.py:2293-2317 | the order of the end is 100 in a column without other active cards and otherwise exactly 100 above one of them |
| BoardRequests.ServeRefuses | binncrm/views.py:6341-6342 | a request for an unknown card or a lane not on offer, and a creation of an existing card, changes nothing |
| BoardRequests.ServeNamed | binncrm/views.py:6346-6349 | the named card takes the posted fields and the time of the request; a drag keeps its activity, pipeline and due date |
| BoardRequests.EditInPlace | binncrm/views.py:3646-3649 | an edit that keeps the column keeps the order and writes no other card |
| BoardRequests.WritesStale | binncrm/views.py:2333-2338 | a card of the list is among those written exactly when its order is not yet 100 times its place |
| Collab.Workspace.EnsureMembership | collab/services.py:113-153 | creates or reactivates a membership, raises its role, clears the asked flags, changes no other row |
| Collab.Workspace.SetFlag | collab/services.py:383-407 | sets one flag on the ensured membership |
| Collab.Workspace.Unfollow | collab/services.py:372-380 | clears the active flag of an existing row and keeps the rest |
| Collab.Workspace.SyncMemberships | collab/services.py:303-346 | the three batches of create, reactivate and deactivate give the aligned table |
| Collab.Workspace.PostMessage | collab/services.py:518-598 | checks in order, joins, appends the message, stamps conversation and marker, notifies; a refused draft leaves no trace |
| Collab.Workspace.BuildNotices | collab/services.py:578-598 | the loop builds one notification per active other member who is unmuted or mentioned |
| Collab.NoticesFrame | collab/services.py:572-578 | the author's own membership, joined and marked first, has no part in who is told what |
| Collab.OthersActive | collab/services.py:578 | the candidates for a notification are exactly the active members other than the author |
| Collab.Workspace.MarkConversationAsRead | collab/services.py:639-647 | an active member's marker becomes now and that user's unread notifications of the conversation are read now |
| Collab.Workspace.MarkNotificationsRead | collab/services.py:662-668 | the user's unread notifications, all or the listed ones, become read now, every other row stays, and the returned count is the number of rows that differ |
| CollabRuns.MarkerStep | collab/services.py:572-574 | only that user's accepted post or open moves a read marker, and it moves to the time of the event |
| CollabRuns.CaughtUp | collab/services.py:505-508 | after a user's post or open nothing is unread to that user there |
| CollabRuns.NotCaughtUp | collab/services.py:505-508 | any other event adds one to the derived count if it posts there at another instant than the marker, and otherwise leaves it |
| CollabRuns.DerivedIsPending | collab/services.py:505-508 | over every run under a clock that never falls, the count derived from times plus the messages tied with the marker is a counter of others' messages zeroed by that user's posts and opens; a strictly rising clock ties none |
| CollabRuns.SummaryUnread | collab/services.py:502-514 | the summary shows that counter to an active member if and only if no message is tied, and all of others' messages to anyone else |
| CollabRuns.TieMissesMessage | collab/services.py:505-508 | two events in one instant after which the counter is one and the derived count zero |
| CollabRuns.GroupedCount | collab/services.py:472-487 | the grouped unread query gives each listed conversation its own count, zero where it has no group |
| CollabRuns.LatestIsLast | collab/services.py:462-471 | the one-row-per-conversation query gives each listed conversation its own latest message |
| CollabRuns.BulkIsSingle | collab/services.py:453-496 | the inbox's bulk queries give every listed conversation the membership, unread count and last message of its own summary |
| CollabRuns.LastMessageIsLast | collab/services.py:504 | the last message is one of the conversation's that no other of it follows by time and then by id |
| CollabRuns.RunStamped | collab/services.py:568-570 | over every run a conversation is stamped with the time of its latest posted message, or not at all without one |
| CollabRows.PostNotifies | collab/services.py:576-598 | a post adds exactly one notification for each user whose membership is active, who is not the author, and who is unmuted or mentioned, none for anyone else, and keeps all former ones |
| CollabRows.PostNoticeContent | collab/services.py:585-596 | each new one is of that message, unread, of an active other member who is unmuted or mentioned, and at attention level exactly when mentioned |
| CollabRows.SoundStep | collab/models.py:148-164 | one event keeps: at most one notification per user and message, read exactly when it has a reading time |
| CollabRows.RunSound | collab/models.py:158-164 | and so does every run |
| CollabRows.NoticesKept | collab/services.py:643-647 | no event removes a notification, and it rewrites only an unread one, to read at the event's time |
| CollabRows.ReadStaysRead | collab/services.py:662-668 | over a run a read notification stays as it is |
| CollabRows.SyncActive | collab/services.py:303-346 | from any prior state the active members become exactly the tenant's, and other conversations keep theirs |
| CollabRows.SyncKeepsRows | collab/services.py:315-341 | every existing row keeps role, flags and read marker; new rows are active plain members with no flag and no marker |
| CollabRows.SyncTwice | collab/services.py:303-346 | aligning twice is aligning once |
| CollabRows.JoinSeat | collab/services.py:131-153 | joining makes the row active, its role the higher of the two, clears only the asked flags and touches no other row |
| CollabRows.RankKept | collab/services.py:132-139 | no event removes a membership or lowers its role |
| CollabRows.RunRankRises | collab/services.py:132-139 | over every run a member's role never falls |
| CollabCalls.RolesRanked | collab/services.py:132-136 | a manager ranks above a member and a member above an observer |
| CollabCalls.JoinedRow | collab/services.py:122-153 | a joined row field by field: new with the asked role and no flag, or the old one active with the higher role and the asked flags cleared |
| CollabCalls.FlagRow | collab/services.py:383-407 | setting a flag sets that flag of the joined row and keeps the other two |
| CollabCalls.UnfollowRow | collab/services.py:372-380 | unfollowing clears the active flag of an existing row and nothing else |
| CollabCalls.RefusedExactly | collab/services.py:529-550 | each refusal holds exactly when the body is all white space, else the kind is none of the five, else a task has no date, else the conversation is no case |
| CollabCalls.PostedRows | collab/services.py:538-574 | a post appends its message, stamps its conversation, and leaves its author an active member marked up to date |
| CollabCalls.OthersRise | collab/services.py:578-580 | candidates for a notification come in ascending order of user |
| CollabCalls.OpenReads | collab/services.py:640-647 | opening moves the marker of an active member and reads exactly that user's unread notifications of the conversation |
| CollabCalls.OpenIgnored | collab/services.py:640-642 | without an active membership opening changes nothing |
| CollabCalls.RequestReads | collab/services.py:662-668 | a request reads exactly the user's unread notifications, those listed if any are |
| CollabCalls.SummaryParts | collab/services.py:503-514 | a summary holds the membership exactly when it is active, and the last message |
| Consolidation.MetricBucket.MergeIn | consolidation/services.py:403-413 | the dictionary rewritten in place is the merge of the two buckets |
| Consolidation.AddCounts | consolidation/services.py:404-405 | the loop adds each visible count once and keeps every other entry |
| Consolidation.AddAll | consolidation/services.py:410-411 | the loop adds each incoming currency once |
| Consolidation.MergeAmounts | consolidation/services.py:407-412 | both dictionaries are read, added and written again as text |
| Consolidation.ComputeTenantMetrics | consolidation/services.py:349-382 | the two loops sum open deals and positive balances by normalised currency |
| Consolidation.SyncGroupSnapshot | consolidation/services.py:286-310 | the loop over links counts each by mode and merges those not blocked |
| ConsolidationLaws.CentsNear | consolidation/services.py:433 | rounding moves an amount by at most half a cent |
| ConsolidationLaws.CentsHalfAway | consolidation/services.py:433 | half a cent rounds away from zero on both sides |
| ConsolidationLaws.CentsTextShape | consolidation/services.py:433 | a written amount has a minus sign exactly below zero, a digit before its point and two after it |
| ConsolidationLaws.CentsTextReads | consolidation/services.py:428-433 | text with two decimals reads back as the cents it was written from, for every sign |
| ConsolidationLaws.DeserializeSerialize | consolidation/services.py:424-436 | reading what was written gives exactly the codes in upper case, each with the rounded amount of its last spelling; upper-case dictionaries come back with the same currencies, each rounded to cents |
| ConsolidationLaws.SerializeDeserialize | consolidation/services.py:424-436 | writing again what is read from a written dictionary gives that dictionary if and only if its codes are in upper case |
| ConsolidationLaws.MergeWiresNormal | consolidation/services.py:407-412 | whatever two dictionaries are merged, the result is normal |
| ConsolidationLaws.MergeCents | consolidation/services.py:407-412 | a merge adds cents exactly, so writing the totals again at each step adds no error |
| ConsolidationLaws.MergeCommutes | consolidation/services.py:403-413 | on normal buckets merging is commutative |
| ConsolidationLaws.MergeAssociates | consolidation/services.py:403-413 | and associative |
| ConsolidationLaws.MergeEmpty | consolidation/services.py:385-413 | merging a bucket into the empty one gives it back if and only if it is normal: upper-case codes, two-decimal texts and exactly the visible counts; then the empty bucket is a right identity too |
| ConsolidationLaws.GroupUpperCodes | consolidation/services.py:403-428 | the totals of every group hold upper-case codes only, and reading and writing them again gives them back |
| ConsolidationLaws.OrderIndependent | consolidation/services.py:293-310 | the snapshot of a group is the same for every order of its links |
| ConsolidationLaws.LinksPartition | consolidation/services.py:298-310 | blocked, full and aggregate count the links of their own mode, add up to all links, and the last two to the included ones |
| ConsolidationLaws.GroupCounts | consolidation/services.py:403-405 | the totals have exactly the eleven visible counts, each the sum of it over the tenants that are not blocked |
| GroupErrors.SumRowsExact | consolidation/services.py:416-421 | before rounding, a currency's entry is the exact sum of the rows that use it, and exists exactly when some row does |
| GroupErrors.BlankCode | consolidation/services.py:419 | a blank currency is the dollar |
| GroupErrors.CodeMeans | consolidation/services.py:419 | any other code is what stands between its white space, the same letters without small ones |
| GroupErrors.BalancesExact | consolidation/services.py:376-378 | before rounding, balances sum to the total due less the total paid plus the overpayments, debt by debt |
| GroupErrors.TenantOwes | consolidation/services.py:376-378 | so does a currency's entry, which exists exactly when some debt has the currency |
| GroupErrors.NoDebtLowers | consolidation/services.py:377 | one more debt never lowers what is owed |
| GroupErrors.TenantError | consolidation/services.py:376-381 | a tenant's written amount is its exact one rounded, off by half a cent at most and by nothing where the currency is unused; exact is the sum of open deals, or what is due less what was paid plus what was overpaid |
| GroupErrors.GroupError | consolidation/services.py:286-310 | the group's total is off the exact one by at most 0.005 for each included tenant that uses the currency |
| GroupErrors.GroupExactInCents | binncrm/models.py:267 | with deals, or dues and payments, stored in cents the group's total is exact |
| GroupErrors.BoundIsMet | consolidation/services.py:403-436 | for every n there is a group of n tenants whose total is off by exactly 0.005 n |
| ObjectFields.FieldTable.UpdateOrCreate | binncrm/object_engine.py:500-513 | the row of the key is overwritten, or added as the last if there is none; the given row is then in the table and every other row as before |
| ObjectFields.FieldTable.UpsertFields | binncrm/object_engine.py:494-513 | upserts the definitions one by one at positions 1, 2, ... |
| ObjectFields.FieldTable.SwitchOffStale | binncrm/object_engine.py:515-521 | switches off exactly the rows of the same ownership that are not configured |
| ObjectFields.FieldTable.SyncObjectFields | binncrm/object_engine.py:487-521 | the whole sync is normalise, upsert and switch off |
| ObjectFields.FieldTable.GetEntityFieldDefinitions | binncrm/object_engine.py:180-225 | the stored definitions and then those of the fallback that are not stored |
| ObjectFieldLaws.NormalizeChoicesTwice | binncrm/object_engine.py:615-627 | normalising choices is idempotent |
| ObjectFieldLaws.NormalizeTwice | binncrm/object_engine.py:588-600 | normalising a normalised definition only moves it to the new position |
| CleanFields.KindBecomes | binncrm/object_engine.py:589-591 | a type is itself in lower case when it is one of the seven, and text otherwise or when missing |
| CleanFields.TitleBecomes | binncrm/object_engine.py:594 | a missing or blank title becomes the key, any other is stripped |
| CleanFields.RestBecomes | binncrm/object_engine.py:592-600 | the key is stripped and in lower case, required is false by default, default value and other entries are kept |
| CleanFields.ChoiceBecomes | binncrm/object_engine.py:617-626 | a choice without a value is dropped, a bare one is its own label, a blank or missing label is the value |
| CleanFields.ChoicesApart | binncrm/object_engine.py:615-627 | choices are normalised one by one, in order |
| CleanFields.CleanStays | binncrm/object_engine.py:588-600 | a clean definition only takes its position |
| CleanFields.CleanRoundTrip | binncrm/object_engine.py:375-391 | clean definitions with distinct keys, synced into a table without active rows of the other ownership, read back as themselves at positions 1..n |
| CleanFields.CleanStored | binncrm/object_engine.py:494-513 | each is stored column by column in a row of its own, whatever the table held |
| CleanFields.ReadInOrder | binncrm/object_engine.py:387-390 | active rows are read by position, then title, then id |
| CleanFields.ReadsActive | binncrm/object_engine.py:387-390 | exactly the active rows are read |
| CleanFields.FallbackHas | binncrm/object_engine.py:547-563 | the fallback has the configured keys and those of the profile's lifecycle fields, and no other |
| CleanFields.BrokerField | binncrm/object_engine.py:12-22 | the broker's lifecycle field as it is read |
| CleanFields.ServicesField | binncrm/object_engine.py:24-34 | the services stage as it is read |
| CleanFields.RenewalField | binncrm/object_engine.py:36-40 | the renewal date as it is read |
| CleanFields.DeliveryField | binncrm/object_engine.py:42-46 | the field of who delivers as it is read |
| ObjectFieldLaws.StoredReadsBack | binncrm/object_engine.py:377-386 | what a normalised definition is stored as normalises back to it |
| ObjectFieldLaws.SyncStores | binncrm/object_engine.py:494-521 | after a sync each configured key has one active row with its last definition and place; other rows keep all but the active flag |
| ObjectFieldLaws.SyncTwice | binncrm/object_engine.py:487-521 | from any stored table, a second sync changes no row |
| ObjectFieldLaws.KeepLastDistinct | binncrm/object_engine.py:488-492 | with distinct normalised keys nothing is overridden: the kept definitions are all, at positions 1..n |
| ObjectFieldLaws.SyncThenRead | binncrm/object_engine.py:375-391 | syncing and reading gives the normalised definitions in order, the last of each key |
| ObjectFieldLaws.SyncThenReadExactly | binncrm/object_engine.py:515-521 | this holds if and only if no active row of the other ownership lies outside the configured keys |
| ObjectFieldLaws.SyncThenReadOwn | binncrm/object_engine.py:375-391 | from any table with unique keys, the reader's list without the rows of the other ownership is the normalised definitions in order, the last of each key; such rows change positions only |
| ObjectFieldLaws.SystemRowIsRead | binncrm/object_engine.py:515-521 | one active system field, which a sync of no fields leaves as it is and the reader still lists |
| MergedFieldLaws.MergedAfterSync | binncrm/object_engine.py:197-225 | after an entity sync the merged reader returns the configured definitions and then the missing lifecycle fields |
| MergedFieldLaws.MergedInOrder | binncrm/object_engine.py:197-225 | from any table with unique keys, after an entity sync the merged reader lists what the other reader does and then, in the profile's order, the missing lifecycle fields whose keys are not stored |
| MergedFieldLaws.MergedKeys | binncrm/object_engine.py:217-224 | from any table, the merged reader has the stored keys and those of the fallback, and no other |
| MergedFieldLaws.MergedPositions | binncrm/object_engine.py:219-224 | from any table, the merged reader numbers its definitions 1, 2, ... without a gap |
| MergedFieldLaws.MergedOnce | binncrm/object_engine.py:217-224 | after an entity sync of any table with unique normalised keys, the merged reader returns each key once, whatever else is stored |
| MergedFieldLaws.MergedKeysAreFallbackKeys | binncrm/object_engine.py:547-563 | after an entity sync the merged reader has exactly the keys of the fallback if and only if every active system row has a configured key or that of a missing lifecycle field |
| Numerals.ReadPointed | binncrm/views.py:701 | digits, a point and digits read as the whole part and the fraction over its power of ten |
| Numerals.ReadSigned | binncrm/views.py:701 | a leading minus negates what the rest reads as |
| Amounts.GroupedPlain | binncrm/views.py:2177 | removing the separators of a grouped numeral gives the plain one |
| Amounts.GroupedCount | binncrm/views.py:693-697 | a grouped numeral has no separator below a thousand, one below a million, more from there on |
| Amounts.PlainValue | binncrm/views.py:2177 | the plain numeral is made of digits and is worth the number |
| Amounts.KeptAmount | binncrm/views.py:684 | a currency of characters that the parser drops leaves only the numeral |
| Amounts.UntangledPointed | binncrm/views.py:688-694 | with cents, the last separator is taken for the point, in both spellings |
| Amounts.UntangledWhole | binncrm/views.py:693-698 | without cents, one separator is taken for the point and several are dropped, in both spellings |
| Amounts.SpellingParses | binncrm/views.py:678-703 | what the parser returns for an amount in either spelling, for every amount |
| Amounts.PrintThenParse | binncrm/views.py:2174-2177 | printing and parsing returns the amount if and only if it is not whole with exactly one comma; those come back as a thousandth |
| Amounts.EuropeanParsesAlike | binncrm/views.py:688-698 | the spelling with point and comma exchanged parses to the same value, for every amount |
| AmountTexts.PrintedShape | binncrm/views.py:2174-2177 | a printed amount is the currency, a space, a minus sign exactly below zero, and a numeral with two decimals exactly when it is not whole |
| AmountTexts.CommaPlaces | binncrm/views.py:2177 | commas stand before every third digit from the right and nowhere else |
| AmountTexts.ParsedDigits | binncrm/views.py:684-703 | whatever text parses at all is worth its own digits, in order, over a power of ten, with at most one minus sign before them |
| AmountTexts.NoDigitsNone | binncrm/views.py:679-703 | no amount and no digit parse to nothing, a number to itself |
| Pipelines.TrimPieces | binncrm/forms.py:253-257 | the loop keeps the non-blank lines, stripped |
| Pipelines.RefuseRepeated | binncrm/forms.py:259-266 | the loop finds the first stage that repeats an earlier one but for case |
| Pipelines.ParsePipelineStageLines | binncrm/forms.py:252-270 | the parser returns the stages or the error for the first repetition or for none |
| Pipelines.ParsedIsGood | binncrm/forms.py:252-270 | accepted stages are non-empty, non-blank, stripped, unbroken and distinct but for case |
| Pipelines.LinesParseBack | binncrm/forms.py:252-270 | stages written one per line parse back to themselves |
| PipelineRequests.AnyMark | binncrm/forms.py:254 | commas and all line ends part stages alike |
| PipelineRequests.LinesAccepted | binncrm/forms.py:259-270 | bare stages, one per line, are accepted as they stand when no two have the same letters |
| PipelineRequests.LinesRefused | binncrm/forms.py:261-264 | otherwise they are refused for the first that repeats an earlier one |
| PipelineRequests.BlankHasNoStage | binncrm/forms.py:268-269 | marks and white space hold no stage |
| PipelineRequests.KeyWellFormed | binncrm/forms.py:35 | keys are words of small letters and digits joined by single hyphens or underscores |
| PipelineRequests.AcceptedExactly | binncrm/forms.py:302-331 | a form is accepted exactly when its key is well formed, its title not blank, its stages parse and no other template has the key; it then describes that key, the stripped title and the parsed stages |
| Pipelines.ReplacePipelineTemplate | binncrm/views.py:238-249 | the loop replaces every template with the key, or appends |
| Pipelines.SetDefaultPipelineTemplate | binncrm/views.py:264-274 | the loop takes the last template with the key and puts it first |
| Pipelines.ReplacedSound | binncrm/views.py:238-249 | replacing keeps keys unique, holds the replacement and exactly the other templates |
| Pipelines.MadeDefaultSound | binncrm/views.py:264-274 | making a default keeps the same templates and puts that key first |
| Pipelines.MovedSound | binncrm/views.py:252-261 | a move permutes the templates |
| Pipelines.RemovedSound | binncrm/views.py:277-278 | removing drops exactly the templates with the key |
| Pipelines.RemovedLength | binncrm/views.py:2732-2736 | with unique keys it drops one at most, so a list of two or more is not emptied |
| Pipelines.ActSound | binncrm/views.py:2688-2782 | every action keeps keys unique and stages as the parser gives them, and never empties the list |
| Pipelines.RunSound | binncrm/views.py:2688-2782 | and so does every run |
| Pipelines.SaveKeepsOthers | binncrm/forms.py:317-331 | saving leaves every template but the selected one as it was |
| PipelineRequests.RefusedChangesNothing | binncrm/views.py:2696 | a refused form changes nothing |
| PipelineRequests.SaveEdits | binncrm/views.py:2697-2706 | saving a known key gives its template the new title and stages at its place, or first if made the default; the others keep their order |
| PipelineRequests.SaveAdds | binncrm/views.py:2697-2706 | saving a new key adds its template last, or first if made the default or alone |
| PipelineRequests.MissingChangesNothing | binncrm/views.py:252-278 | removing, moving or making default a key that no template has changes nothing |
| PipelineRequests.MovesAt | binncrm/views.py:2767-2769 | up and down swap the template with its neighbour, if it has one |
| PipelineRequests.DefaultAt | binncrm/views.py:2751-2752 | the default goes first and the others keep their order |
| PipelineRequests.RemoveAt | binncrm/views.py:2732-2736 | a removal leaves the others in their order; the only template stays |
| Pipelines.MovesUndo | binncrm/views.py:252-261 | moving up and moving down undo each other away from the ends |
| Pipelines.DefaultIsMovingUp | binncrm/views.py:264-274 | making a pipeline default is moving it up until it is first, and further moves change nothing |
| Importer.MatchByFinds | binncrm/importers.py:108-119 | a match by one identifier carries it, and there is none only if no entity does or the row gives none |
| ImporterLaws.MatchesIff | binncrm/importers.py:103-120 | a row has a match if and only if some entity carries one of the identifiers it gives |
| Importer.EntityTable.ImportRow | binncrm/importers.py:181-211 | one row is skipped, written over its match or added |
| Importer.EntityTable.Import | binncrm/importers.py:148-221 | processed is created plus updated plus skipped, the table grows by exactly created, and it is the rows applied in turn |
| ImporterRows.PhoneKeeps | binncrm/importers.py:52-53 | of a phone number the digits are kept, and nothing else |
| ImporterRows.CarriesWhen | binncrm/importers.py:108-119 | an entity matches by legal id or email of the same letters, or by the same digits of a phone that is not blank |
| ImporterRows.MatchPriority | binncrm/importers.py:103-120 | legal id goes before email and email before phone; of the entities that match the first by name, then id, is taken |
| ImporterRows.UnnamedRow | binncrm/importers.py:181-185 | a row without a name changes nothing |
| ImporterRows.MatchedRow | binncrm/importers.py:187-206 | without updates a matched row changes nothing; with them it rewrites its match alone, column by column, blank values included, and merges extra entries with its own winning |
| ImporterRows.NewRow | binncrm/importers.py:192-206 | an unmatched row adds an entity, blank where the file has no column and active unless it says otherwise |
| ImporterRows.EffectsAddUp | binncrm/importers.py:208-211 | with updates every named row creates or updates, without them none updates |
| ImporterRows.UnnamedCounted | binncrm/importers.py:182-185 | errors are the rows without a name |
| ImporterLaws.OnlyAppends | binncrm/importers.py:187-190 | without updates, entities that were there are untouched and stay in place |
| ImporterLaws.ReimportCreates | binncrm/importers.py:187-211 | without updates, importing the same rows again creates exactly one entity per named row that gives no identifier |
| ImporterLaws.ReupdateCreates | binncrm/importers.py:187-211 | with updates, into any table, importing the file again creates exactly one entity per named row that gives no identifier, when sharing an identifier is transitive among its named rows |
| ImporterLaws.ReupdateExactly | binncrm/importers.py:103-211 | every file made of some rows re-imports with updates into every table without creating anew, if and only if sharing an identifier is transitive among those rows |
| ImporterLaws.OrderCanSave | binncrm/importers.py:187-206 | three rows that break the condition and, in their order, are imported again into an empty table without creating anything |
| ImporterLaws.ChainCreates | binncrm/importers.py:187-206 | any three rows that share identifiers in a chain but not first with last, imported into an empty table, create an entity on the second import |
| ImporterLaws.LegalIdsAreTransitive | binncrm/importers.py:103-111 | rows without email and phone always satisfy that condition |
| ImporterLaws.ReupdateCanCreate | binncrm/importers.py:194-197 | three rows, the first two with one email and the last two with one legal id, whose second import creates an entity |
| Blueprints.KeysInOrderAll | binncrm/document_blueprints.py:283-290 | the keys in first-occurrence order are all the keys, each once |
| Blueprints.FoldIsLast | binncrm/document_blueprints.py:294-298 | folding with override gives each key its last definition |
| Blueprints.MergingOverride | binncrm/document_blueprints.py:286-288 | overriding at the remembered position keeps merge and position index in step |
| Blueprints.MergingAppend | binncrm/document_blueprints.py:289-290 | and so does appending a new key |
| Blueprints.MergeList | binncrm/document_blueprints.py:283-290 | one list merged into what the lists before it gave |
| Blueprints.GetDocumentBlueprints | binncrm/document_blueprints.py:275-291 | for any three lists: unique keys in first-occurrence order, each with its last definition |
| Blueprints.GetDocumentBlueprintMap | binncrm/document_blueprints.py:294-298 | the key map built from the merge is the fold of the three lists with override |

## Left out

- HTTP, templates, messages, redirects, permissions, audit and timeline logging, broadcast and background jobs.
- Concurrent requests and database integer limits: requests run one after another on unbounded integers.
- Binary floats and the 28-digit decimal context: amounts are exact reals or hundredths; the parser's `float` gives the exact value of its text. The minus sign that the decimal type keeps on a rounded zero is dropped.
- White space, letter case and digits beyond ASCII.
- Board: the sync that renames or retires pipelines is not part of this model; what it does to the lanes on offer between requests is arbitrary here, and it moves no card. A deal always has a pipeline and a stage; other form fields of a card are omitted.
- Board.Card: the source updates rows of a table; a board here is a class whose field maps ids to immutable cards, so aliasing between an object in memory and its stored row is not modelled.
- Collab: the extraction of @names from a body (the mentioned users are an input), message metadata, the linked task, titles, and the filter, search and sort of the inbox (the listed conversations are an input). Ids of messages and notifications are their places in the table.
- Collab.Workspace.BuildNotices: recipients come in ascending user number; the source orders them by username.
- Consolidation: the group and tenant snapshot rows, counts other than as inputs, dates, risk scores and rankings. A link's effective mode is an input with three values.
- Consolidation: of two spellings of a code in one dictionary the last by code point is read, the order in which dictionaries are written; a dictionary kept in any other order is not modelled.
- ObjectFields: field definitions with values that are not strings, explicit nulls for key, title or type, and extra configuration keys. Ties between titles are broken by code point, not by a database collation. Default views and schemas are omitted.
- Pipelines: slug generation (the slug of the title is an input) and the sync of saved templates with the pipelines' rows.
- Importer: decoding, dialect sniffing, header folding and value conversion; rows are already mapped to fields, and wholly blank lines are gone. Only the count of the error rows is kept, not their numbers. Equal names are ordered by primary key.
- Importer: what the row mapping makes sure of is required of a file's rows: identifiers are stripped, and, where updates are on, all rows have the same columns.
- Blueprints: what a blueprint holds besides its key is one value; the built-in tables are inputs.
- The services analytics roll-up, dashboards, the activity calendar, access decisions, seed data and status labels: they would only add easy members.
