# The evidence pipeline, modelled and proved

A Dafny model of how the node turns an upstream message into a receipt anybody can check: reading
a room that may be evicted from, deleted or renumbered while it is read; running a job once over a
ledger the process may die beside at any step; keeping the room that holds the audit copies and
posting each copy there; and the canonical form, identifiers and receipts all of it rests on.

| file | what it models |
|---|---|
| `Basics.dfy` | optional and fallible values |
| `Tables.dfy` | the job tables as values, one function a transaction |
| `JobMachine.dfy` | attempts of any number of processes as an interleaving of ledger steps, with crashes |
| `Runner.dfy` | `JobRunner.handle` and `_run`, each ledger step proved to be the machine's next one |
| `Rooms.dfy` | the upstream: a room's numbering lifetimes, what becomes of it, what it answers |
| `LedgerStore.dfy` | the ledger's cursor, message and job writes; any one may be the one the process dies in |
| `RoomReader.dfy` | `_verify_position`, `_cursor_for`, `_read_from_cursor` |
| `Mailbox.dfy`, `MailboxRuns.dfy` | `poll_mailbox_once`, `process_message`, and what every run of polls keeps |
| `Lease.dfy` | the ownership lease, its two clocks and backoff, and the guard on the result room |
| `Outbox.dfy` | audit copies: rows, selection, what a sync marks, and what every run of syncs keeps |
| `Reconciler.dfy` | `sync_owned_room`, `publish_audit_copy`, `reconcile_audit_copies` and their loop |
| `Numerals.dfy`, `Numbers.dfy` | numbers as RFC 8785 prints them and a JSON parser reads them |
| `JsonStrings.dfy`, `MemberOrder.dfy` | string literals, UTF-16 sort keys, the order of members |
| `Canonical.dfy`, `Serializer.dfy`, `Strictness.dfy` | canonical texts, the strict parser, the two together |
| `Digits.dfy`, `DidKey.dfy`, `SignatureText.dfy` | base58btc, `did:key`, base64url signatures |
| `Receipts.dfy` | building, checking and chaining receipts |
| `HttpJobs.dfy`, `RateLimit.dfy`, `Nonces.dfy` | the HTTP lane, the hourly limit, the node's own nonces |

Where the source changes state, the model is a class whose methods make the same writes in the same
order; what the source promises is stated about the states those methods leave. The upstream is a
nondeterministic object: between any two requests a room may be written to, evicted from, reaped
with or without its floor, or forgotten, and any request may fail. Every ledger write may be the
one the process dies in.

## Hypotheses

- `ledger/schema.sql` is not part of this model. Of it three things are used: `jobs.job_id` is a
  primary key, a receipt needs its job row, and a job has at most one row in `receipts`.
- A ledger that is `alone` is written to by one process; nothing is assumed of one that is not.
  Where a theorem speaks of a room that stood still or kept its numbering, it says so itself:
  a room may otherwise do anything between any two requests, its lifetime ending included.
- `mb-` rooms carry only signed senders where a theorem says `SignedRoom`: a line without one
  leaves no witness record.
- `process_message` does not raise. The loop counts an exception as handled.
- Message rows are newest in the order they were recorded in.
- In module Lease, true time is what the monotonic clock follows; the wall clock is within
  `clockError` of it, or anything at all. A note unwritten for less than the retention stays its
  owner's.
- In modules Outbox and Reconciler a receipt's row is not replaced by a second receipt for the same
  job. That is `JobMachine.OneProcessAnswersOnce` for one process, and
  `JobMachine.SecondProcessReplacesTheReceipt` shows two can break it. A new receipt's hash is not
  yet in the room. One reconciler posts at a time. A copy this key renders reads back as it.
- The floating point (`Doubles.Ieee`): the shortest decimal of a double reads back as that double,
  and an integer up to 2^53 is its own. `Numbers.ShortestIsExact` derives the second from what
  "shortest" means.
- SHA-256 is injective and a signature verifies under the key that made it (`Crypto.Sound`).

## What is false of the code, and when it holds

- A poll cannot tell a replaced room whose message at the cursor repeats the recorded one.
  `MailboxRuns.DuePollLeavesNothingBehind` gives the exact condition for a room that stands still,
  `DuePollOfAMovingRoom` what holds while it moves, `RepeatedWordsHideARoom` the input.
- A room that ends just before the cursor when it is probed, and is written to before its last
  message is asked for, keeps the cursor with nothing compared:
  `RoomReader.WrittenBetweenProbeAndTail`.
- A poll whose check is not due hands over the lines past the cursor in whatever room is there, and
  then has that room's own record at the cursor. `MailboxRuns.LeftBehindExactlyThen` says of every
  poll when it leaves messages behind, `NothingHeldIsSkipped` that a run without such a poll leaves
  none, and `LeftBehindForGood` that no later check can tell.
- Two processes on one ledger can replace a receipt; one process cannot.
  `JobMachine.WhatBreaksAnAnswer` says exactly which step replaces a receipt, and which reopens a
  finished job.
- A copy that landed and was reported unconfirmed has no seq on record, and the sync that finds it
  puts the cursor on it. Such a room, forgotten and filled again past that seq, is kept by every
  check, and a copy in it at or below the cursor is missed and posted again:
  `Outbox.UnconfirmedCopyHidesARoom`. `Reconciler.OutboxNode.SyncOwnedRoom` and
  `ReconcileAuditCopies` have the exact conditions, in terms of the room, the record and the cursor
  before the call.
- A sync that could not read the room marks nothing, and the pass goes on to post: what it posts
  may be there already. `ReconcileAuditCopies` says of every posted copy exactly when it was.
- A sync keeps only the last copy it saw of each job, so a copy followed by another of the same job
  under another hash is missed: `Outbox.SyncMarksAll` is an if-and-only-if with that condition.
- A failed attempt does not look at the row's state, so a fifth one takes a published row out of
  `published`: `Outbox.LateFailure`. Driven by one reconciler it never meets a published row.
- `_serialize` checks string values for lone surrogates but not keys. Such a document has a
  canonical text that cannot be encoded (`Serializer.EncodableIffKeysAre`), and two such keys may
  make the text depend on the order members came in (`Serializer.LoneSurrogatesKeepTheirOrder`).
- A write that landed unrecorded, a restart and a clock set back repeat a nonce:
  `Nonces.RisesIffCovered` is the exact condition, `Nonces.ClockSetBack` the example.

## Model

| member | source | states |
|---|---|---|
| MailboxRuns.NothingIsSkipped | src/technocore_node/service/node.py:637-862 | over every run of polls, crashes and room changes on a mailbox never renumbered: no restart, the witness stays good, every message up to the cursor was dealt with or had left the room when the cursor passed |
| MailboxRuns.RunMailbox | src/technocore_node/service/node.py:1159-1196 | the loop, for any number of cycles and deaths: every seq up to the cursor has its job's receipt or its own refusal in the ledger, or had left the room; on a ledger of one process that begins so, no receipt is ever replaced and every job is finished exactly when it has one; and its cycles are a run in the sense of the other theorems, with the times at which positions were checked |
| MailboxRuns.FirstLookIsChecked | src/technocore_node/service/node.py:617-635 | the first poll a process makes past the start of the room is a checked one, whatever came into the room while it was down, and so leaves nothing unhandled in a room that stands still, unless that cannot be told from the one on record |
| MailboxRuns.OneCycle | src/technocore_node/service/node.py:1159-1175 | one cycle, in a process that may just have been started: checked exactly when it is past the start and unchecked for 600 seconds, or at all, or another lifetime is named |
| MailboxRuns.DuePollLeavesNothingBehind | src/technocore_node/service/node.py:637-762 | a poll whose check is due, of any room that stands still meanwhile, leaves no held message at or below the cursor unhandled (or goes back to 0 handling nothing) exactly when the room is not indistinguishable at the cursor |
| MailboxRuns.DuePollOfAMovingRoom | src/technocore_node/service/node.py:637-762 | the same of a room written to, evicted from and reaped with its floor during the poll, when it reached the cursor at the start and was not indistinguishable then |
| MailboxRuns.LeftBehindExactlyThen | src/technocore_node/service/node.py:704-776 | of any poll of any room, renumbered at any time: it leaves messages behind its cursor exactly when it hands over lines past a cursor of another lifetime over unhandled messages |
| MailboxRuns.NothingHeldIsSkipped | src/technocore_node/service/node.py:637-862 | over every run, on rooms renumbered at any time: nothing held below a cursor of the room's own lifetime is unhandled, unless a poll left it in that way |
| MailboxRuns.LeftBehindForGood | src/technocore_node/service/node.py:693-702 | and after such a poll the record at the cursor is the room's own, so that no check can tell |
| RoomReader.WrittenBetweenProbeAndTail | src/technocore_node/service/node.py:670-684 | a room written to between the probe and the tail read is kept though its message at the cursor is not the recorded one |
| MailboxRuns.RepeatedWordsHideARoom | src/technocore_node/service/node.py:693-702 | a replaced room with the recorded message at the cursor and an unread one below it is such a room |
| MailboxRuns.PollKeepsAbreast | src/technocore_node/service/node.py:693-776 | appending, evicting and reaping with the floor kept never restart a mailbox; its cursor only grows and its witness stays good |
| MailboxRuns.PollKeepsCovered | src/technocore_node/service/node.py:778-862 | one poll passes no message that was neither dealt with nor gone |
| MailboxRuns.GateHoldsTheCursor | src/technocore_node/service/node.py:825-858 | a gate shut at the start or in the middle of a cycle, one that also restarts the cursor included, lets the cursor past no held message that was not dealt with |
| MailboxRuns.BacklogDrains | src/technocore_node/service/node.py:704-862 | in any run of completed polls of a quiet room at most one, whichever it is, finds the room replaced; nothing is handed over before it, and the k polls from there on deal with exactly the next 200k held lines, once each and in order |
| MailboxRuns.StillUntilReplaced | src/technocore_node/service/node.py:764-776 | a poll that handed over lines of a quiet room is never followed by a restart: before the one that restarts, none did |
| MailboxRuns.NeverRestartsAgain | src/technocore_node/service/node.py:693-702 | a cursor that belongs to the quiet room it reads is never given up |
| MailboxRuns.HandsOverInOrder | src/technocore_node/service/node.py:745-862 | k polls that hand over deal with k pages in order |
| MailboxRuns.HandsOverAPage | src/technocore_node/service/node.py:745-762 | where a poll of a quiet room starts and how far it gets |
| MailboxRuns.RestartsAtMostOnce | src/technocore_node/service/node.py:764-776 | a room that stands still is found replaced at most once |
| MailboxRuns.RestartMakesAbreast | src/technocore_node/service/node.py:764-776 | after a restart the cursor belongs to the room it is now reading |
| MailboxRuns.SoundStep | src/technocore_node/service/node.py:778-862 | what the loop keeps from poll to poll, whatever the room does |
| Mailbox.Node.PollMailboxOnce | src/technocore_node/service/node.py:778-862 | one cycle, from any state to any state it can leave, with the exact number of messages aged out unread; when it must check its position and when not; and nothing is handled when the gate was shut |
| Mailbox.Node.HandOver | src/technocore_node/service/node.py:800-862 | what a cycle does with a batch: counts what aged out, and handles lines only with the gate open |
| Mailbox.Node.HandleBatch | src/technocore_node/service/node.py:839-862 | the lines of a batch and the cursor after them |
| Mailbox.Node.HandlePage | src/technocore_node/service/node.py:839-859 | lines are dealt with in order, once each, and the cursor follows line by line |
| Mailbox.Node.HandleLine | src/technocore_node/service/node.py:839-859 | the cursor moves to a line only after it was dealt with |
| Mailbox.Node.ProcessMessage | src/technocore_node/service/node.py:270-406 | a line is held untouched exactly when the gate is shut, and otherwise ends with a refusal or an answer in the ledger; its witness is recorded first |
| Mailbox.Node.RecordLine | src/technocore_node/service/node.py:315-330 | the witness record becomes the newest at its seq and no other seq's changes |
| Mailbox.Node.Refuse | src/technocore_node/service/node.py:302-350 | a refusal is recorded, in a row of its own, before the line counts as dealt with |
| Mailbox.AccountedStays | src/technocore_node/ledger/db.py:454-468 | an answer or refusal once in the ledger stays there, and no refusal row vouches for two lines |
| RoomReader.Reader.Compare | src/technocore_node/service/node.py:659-684 | what the room is asked and what is judged of it: a faithful cursor is never judged replaced, a quiet room is kept only when nothing tells against it, and a room that reached the cursor only when the message there has gone, has no record, or is the one recorded |
| RoomReader.Reader.VerifyPosition | src/technocore_node/service/node.py:637-691 | the cursor after a check: kept, or 0 with one restart counted |
| RoomReader.Reader.CursorFor | src/technocore_node/service/node.py:617-635 | the position is checked exactly when there is one to check and this process has not checked it for 600 seconds, or at all; otherwise nothing is asked |
| RoomReader.Reader.Vet | src/technocore_node/service/node.py:726-743 | a room that no longer reaches the cursor is restarted, one that names another lifetime is checked, and otherwise the lifetime named is adopted |
| RoomReader.Reader.Collect | src/technocore_node/service/node.py:745-762 | the batch starts at the oldest record still held past the cursor and has the whole rest or the next page of it |
| RoomReader.Reader.ReadFromCursor | src/technocore_node/service/node.py:704-762 | one read, with everything it says of the room it was read from; checked exactly when it is past the start and unchecked for 600 seconds, or at all, or another lifetime is named |
| RoomReader.AfterInSlice | src/technocore_node/service/node.py:748-751 | of an export, what lies past the cursor |
| RoomReader.FindInSlice | src/technocore_node/service/node.py:664-670 | a message is found by its seq exactly when the records reach it |
| RoomReader.WitnessesTell | src/technocore_node/service/node.py:693-702 | two messages leave one witness exactly when one key wrote both and their texts hash alike |
| LedgerStore.RecordedIsNewest | src/technocore_node/ledger/db.py:236-250 | recording a line makes it the newest at its seq, in whichever lifetime |
| LedgerStore.OneRowAnEvent | src/technocore_node/ledger/db.py:209-234 | recorded again, an event's row is the new one and every other event's is as it was |
| LedgerStore.Ledger.SetCursor | src/technocore_node/ledger/db.py:314-321 | a cursor never goes back |
| LedgerStore.Ledger.RestartCursor | src/technocore_node/ledger/db.py:343-359 | the one write that moves it back, and only to 0 |
| LedgerStore.Ledger.AdoptCursorEpoch | src/technocore_node/ledger/db.py:333-341 | a generation is adopted and the cursor left alone |
| LedgerStore.Ledger.RecordMessage | src/technocore_node/ledger/db.py:209-234 | one row an event id, the newest last |
| LedgerStore.Ledger.OtherLanes | src/technocore_node/jobs/runner.py:256-464 | whatever runs beside only adds to the job tables; when it is one process it also leaves the id being worked at alone, every answer as it is and every job finished exactly when answered |
| LedgerStore.OneProcessCovers | src/technocore_node/jobs/runner.py:214-464 | every run of one process beside an attempt of its own is such a change |
| Rooms.EveryRunEvolves | tests/integration/test_room_lifetime.py:39-132 | every sequence of posts, evictions, reaps and losses is an evolution, and only losing the floor ends a lifetime |
| Rooms.QuietThroughout | tests/integration/test_room_lifetime.py:39-132 | a room that is at the end what it was at the start was that all along |
| Rooms.Upstream.ReadRoom | src/technocore_node/protocol/client.py:275-290 | a read answers the newest records after the cursor, or fails |
| Rooms.Upstream.ExportRoom | src/technocore_node/protocol/client.py:292-312 | an export answers everything held, or fails |
| Rooms.Upstream.PostMessage | src/technocore_node/protocol/client.py:337-402 | a write may land unreported; reported, it stands at the seq named |
| JobMachine.DeclaredIsNeverThirdParty | src/technocore_node/jobs/runner.py:269-354 | for any processes, interleaving and crashes, a job declared before it is sent is never recorded as third-party |
| JobMachine.UndeclaredIsThirdParty | src/technocore_node/jobs/runner.py:269-354 | the other way round: a job nobody declared and no lane submitted as its own test is never recorded as internal, in its row or its receipt |
| JobMachine.StepsWrite | src/technocore_node/ledger/db.py:379-436 | what each step of an attempt writes, and that the others write nothing |
| JobMachine.CallersOnlyWait | src/technocore_node/jobs/runner.py:217-254 | joining, going away and retiring change nothing of an attempt but who waits for it; a death takes exactly its process's attempts |
| JobMachine.ClassifiedStep | src/technocore_node/jobs/runner.py:269-284 | the invariant behind it: the declaration is there or the row says internal, and no attempt has missed both |
| JobMachine.AdvanceClassified | src/technocore_node/ledger/db.py:379-423 | one ledger step of one attempt keeps it, because the declaration is spent with the insert |
| JobMachine.RowsAreSettled | src/technocore_node/ledger/db.py:379-436 | a row's requester and classification never change |
| JobMachine.OnlyTheRequesterJoins | src/technocore_node/jobs/runner.py:217-243 | an attempt is joined only by the requester that started it |
| JobMachine.OneReceiptPerJob | src/technocore_node/jobs/runner.py:214-464 | while no two processes work on an id: finished exactly when the receipt exists, the two agree on whose it is and on whether the task succeeded, and a receipt is never replaced |
| JobMachine.StatusIsWhatTheTaskCameTo | src/technocore_node/jobs/runner.py:448-464 | over every run of one process: a job is completed exactly when it is answered and the task last run for it succeeded, failed exactly when it is answered and that task did not |
| JobMachine.AnswersWhatTheTaskCameTo | src/technocore_node/jobs/runner.py:448-464 | over every run of any processes: the step that answers a job records what the attempt's own task came to |
| JobMachine.AttemptsCarryTheTask | src/technocore_node/jobs/runner.py:356-424 | what an attempt carries from its task to its answer is what the task came to |
| JobMachine.OneProcessAnswersOnce | src/technocore_node/jobs/runner.py:214-464 | the same for every run of one process, through cancellation, resumption and retirement |
| JobMachine.OneProcessIsExclusive | src/technocore_node/jobs/runner.py:217-254 | one process has at most one attempt at an id in flight |
| JobMachine.WhatBreaksAnAnswer | src/technocore_node/ledger/db.py:558-612 | in any state of any number of processes, an action replaces an answered job's receipt exactly when it is an attempt's last step, and reopens the job exactly when it is an attempt's claim |
| JobMachine.RestOfTheProcess | src/technocore_node/jobs/runner.py:214-254 | what one process does beside an attempt it is making leaves that id's rows alone, every answer as it is, and every job finished exactly when answered |
| JobMachine.BesideStep | src/technocore_node/jobs/runner.py:214-254 | one step of that |
| JobMachine.SerialsStayDrawn | src/technocore_node/ledger/db.py:558-612 | receipt ids are drawn upwards, so a second receipt is another one |
| JobMachine.JobSoundStep | src/technocore_node/jobs/runner.py:323-354 | one step of the machine keeps a job consistent |
| JobMachine.SecondProcessReplacesTheReceipt | src/technocore_node/ledger/db.py:558-612 | two processes can reopen an answered job and replace its receipt |
| Runner.JobRunner.Handle | src/technocore_node/jobs/runner.py:190-254 | refused, joined or run; a done job has its receipt under the requester's own row, and its row says completed or failed as the outcome told does; alone on its ledger it leaves every receipt as it was and every job finished exactly when answered |
| Runner.JobRunner.Run | src/technocore_node/jobs/runner.py:256-322 | every ledger step is the machine's next one, on tables to which only what runs beside has happened since the last; over the limit exactly when the limit said so, taken only when the row is another's, nothing answered is run again, and what is answered says how the task ran |
| Runner.JobRunner.InsertAndExecute | src/technocore_node/jobs/runner.py:323-354 | the insert, and what losing it leads to |
| Runner.JobRunner.ClaimAndAnswer | src/technocore_node/jobs/runner.py:356-424 | claimed, executed, and answered with what the task came to |
| Runner.JobRunner.Answer | src/technocore_node/jobs/runner.py:448-464 | the finished status and the receipt in one step: completed exactly when the task succeeded, failed exactly when it did not |
| Runner.PathGrows | src/technocore_node/jobs/runner.py:256-464 | an attempt, whatever runs beside it, only adds to the tables |
| Runner.PathSettles | src/technocore_node/jobs/runner.py:256-464 | alone on its ledger an attempt answers its job once and replaces no receipt |
| Runner.PathOnward | src/technocore_node/jobs/runner.py:256-464 | the same of an attempt that dies at any step |
| LedgerStore.Ledger.InsertJob | src/technocore_node/ledger/db.py:379-423 | one row an id, as validated and with the classification given; the declaration is spent with it |
| LedgerStore.Ledger.RecordReceipt | src/technocore_node/ledger/db.py:558-612 | status and receipt together, and nothing else |
| Lease.LeaseNode.Publish | src/technocore_node/service/node.py:159-206 | whatever the sink lets through lands while the upstream's note names this node, within the stated clock and latency bounds |
| Lease.TruncNear | src/technocore_node/service/node.py:908-938 | a lease that looks live was written less than a day and a second ago, give or take two clock errors and a request |
| Lease.LeaseNode.OwnsResultRoom | src/technocore_node/service/node.py:1329-1350 | open exactly when a look no older than 900 s and not failed since found this node's key, the lease was renewed less than 86401 s ago, and fewer than twelve attempts in a row failed |
| Lease.LeaseNode.RecordLeaseOutcome | src/technocore_node/service/node.py:946-971 | only the result room's outcome is counted, and only a write that landed resets the streak |
| Lease.LeaseNode.MaintainResultRoomOwnership | src/technocore_node/service/node.py:987-1061 | a note that is this node's is renewed by writes that cannot create it, one that is nobody's claimed by a write that can only create it, another's never written to; and each outcome's effect on the lease record |
| Lease.LeaseNode.ObserveReachability | src/technocore_node/service/node.py:481-499 | a look records what it found and when, or only that it failed, and never changes the lease |
| Lease.LeaseNode.Cycle | src/technocore_node/service/node.py:1063-1147 | one turn of the loop: it tries exactly when one of the two deadlines has come, how late, when it tries next, and that it looks again within 300 s and the slack |
| Lease.LeaseNode.Attempt | src/technocore_node/service/node.py:1089-1121 | one attempt: the count it backs off on, and both deadlines set from it |
| Lease.LeaseNode.Outage | src/technocore_node/service/node.py:1063-1147 | with every attempt counted as failed, the twelfth failure comes within 95460 s and twelve turns' slack whatever the wall clock says, and the sink is shut |
| Lease.TwelfthAttempt | src/technocore_node/service/node.py:1100-1120 | eleven waits after a renewal are 95460 s |
| Lease.DelaysNeverShrink | src/technocore_node/service/node.py:1103-1113 | delays do not shrink along a run of failures |
| Lease.Delay | src/technocore_node/service/node.py:1103-1113 | and stay between the floor and the renewal interval |
| Lease.Owners.ClaimRoom | src/technocore_node/protocol/client.py:435-468 | a claim reported as made landed on a free note |
| Lease.Owners.RefreshRoomOwnership | src/technocore_node/protocol/client.py:470-531 | a renewal reported as made landed on this node's own note |
| Outbox.EverySyncMarksAll | src/technocore_node/service/node.py:501-575 | over every run, the room renumbered at any time: a completed sync that ends in a lifetime it has read from its start has marked every held copy whose hash is its stored receipt's, if no sync met a shadowed one; while the room keeps its numbering that is every sync, and after a renumbering the first that starts over is one |
| Outbox.SyncMarksAll | src/technocore_node/service/node.py:551-568 | a sync marks every matching held copy exactly when none is shadowed by a later one of its job's |
| Outbox.SyncMarksExactly | src/technocore_node/service/node.py:551-568 | a sync from any position of any room marks every matching held copy exactly when it misses none: the last copy of its job's past the position is each one's own |
| Outbox.MarkedIsVouchedFor | src/technocore_node/ledger/db.py:687-707 | a row is published after a sync exactly when it was before or the last copy of its job's that was read is its own |
| Outbox.DueSyncMarksExactly | src/technocore_node/service/node.py:637-702 | the same of a due sync of a quiet room, with the position it starts from determined by room, record and cursor before it |
| Outbox.MarkedMeansUnheard | src/technocore_node/service/node.py:501-568 | everything is marked exactly when no receipt still owed has its copy in the room |
| Outbox.OneHashShadowsNothing | src/technocore_node/service/node.py:551-568 | nothing is shadowed while the room's copies are of the hashes on record, which only a replaced receipt changes |
| Outbox.UnconfirmedCopyHidesARoom | src/technocore_node/service/node.py:225-233 | a copy reported unconfirmed leaves no record to check by; a room replaced under it is kept and a copy in it missed |
| Outbox.ObservedIsLast | src/technocore_node/service/node.py:551-566 | of each job the last copy seen is what counts |
| Outbox.OnlyOwnCopiesAreObserved | src/technocore_node/service/node.py:551-566 | only what this node's own key wrote and what parses as a receipt's copy counts |
| Outbox.MarkedWhereItStands | src/technocore_node/ledger/db.py:687-707 | a row is marked with the seq of a copy of its own hash, and nothing else of it changes |
| Outbox.StaysInStep | src/technocore_node/service/node.py:501-575 | what a run keeps between syncs, whatever position a sync starts from |
| Outbox.MarkedKept | src/technocore_node/ledger/db.py:618-657 | no driven write undoes a mark |
| Reconciler.OutboxNode.SyncOwnedRoom | src/technocore_node/service/node.py:501-575 | unowned exactly when the sink's guard says so; a completed sync is the event the run theorems speak of, from the stored cursor or from 0; its check is due past the start when unchecked for 600 seconds, or at all, or another lifetime is named, and no other is; a due one starts over whenever the message at the cursor is not the recorded one and stays until it is compared; of a quiet room it marks everything exactly when no copy is overlooked; in each of its endings the outbox stays in step with its room |
| Reconciler.OutboxNode.MarkAndMove | src/technocore_node/service/node.py:551-575 | the marks first and then the cursor, which dies on the way to nothing worse than marks alone |
| Reconciler.OutboxNode.ReadOwnedRoom | src/technocore_node/service/node.py:519-532 | the room found replaced is read again at once, from its start, and never restarts twice |
| Reconciler.OutboxNode.MarkObserved | src/technocore_node/ledger/db.py:687-707 | the loop marks what its specification says, in one transaction |
| Reconciler.OutboxNode.Observe | src/technocore_node/service/node.py:551-566 | the loop gathers what its specification says |
| Reconciler.OutboxNode.ReconcileAuditCopies | src/technocore_node/service/node.py:577-603 | what a pass does to the table is a driven run, and what it made of each row it took; it takes three receipts at most, those with the fewest failed attempts and of those the oldest; counts what landed, posts a copy the room held exactly when its sync missed it, and posts none after a sync in a lifetime read from its start with nothing shadowed |
| Reconciler.OutboxNode.RunReconciler | src/technocore_node/service/node.py:1159-1175 | pass after pass beside the lanes, with deaths: while the room keeps its numbering and nothing is shadowed, no pass whose sync completed posts a copy the room then held |
| Reconciler.OutboxNode.WhatItsCheckSaw | src/technocore_node/service/node.py:637-702 | where a due check sends the sync, from what the reader promises |
| Reconciler.StillOwed | src/technocore_node/service/node.py:577-603 | a receipt still owed after a sync has its copy in the room exactly when the sync missed it |
| Reconciler.OutboxNode.Arrivals | src/technocore_node/ledger/db.py:558-612 | new receipts disturb nothing that is marked |
| Reconciler.OutboxNode.PublishAuditCopy | src/technocore_node/service/node.py:411-441 | refused at the door, exactly when the guard says so, nothing is counted; otherwise landed, with the seq its copy stands at and its witness on record, or counted as failed, the fifth failure taking it out of the queue; the outbox stays in step |
| Reconciler.OutboxNode.SendCopy | src/technocore_node/service/node.py:159-266 | a copy is posted exactly when the guard lets it; reported as posted, it stands in the room at the seq named, and so does its witness in the ledger |
| Outbox.OutboxDrains | src/technocore_node/ledger/db.py:618-657 | each counted failure costs its receipt one of five, nothing gives one back, nothing returns to the queue, published is absorbing |
| Outbox.NeverAnnouncedAgain | src/technocore_node/ledger/db.py:659-673 | a receipt with a seq on record is never selected again |
| Outbox.LateFailure | src/technocore_node/ledger/db.py:627-649 | a failed attempt leaves a published row published exactly when it is not the fifth |
| Outbox.ReceiptsAwaiting | src/technocore_node/ledger/db.py:659-673 | as many owed third-party receipts without a seq as there are up to the limit, by failed attempts and then age; none left out has fewer attempts than one taken, or as many and is older |
| Strictness.CanonicalFormOfTexts | src/technocore_node/protocol/canonical.py:159-201 | of two texts the parser and the canonical form take and can encode: canonical texts equal exactly when the documents are the same, and canonicalising again is the identity |
| Canonical.OneDocumentOneText | src/technocore_node/protocol/canonical.py:115-168 | the same for parsed documents |
| Canonical.RoundTrip | src/technocore_node/protocol/canonical.py:115-163 | canonical text parses back to the document, members in order and numbers their doubles |
| Canonical.RendersBack | src/technocore_node/protocol/canonical.py:115-156 | the same in the middle of any document |
| Canonical.NormTells | src/technocore_node/protocol/canonical.py:143-154 | one normal form exactly for one document, whatever order members came in |
| Canonical.NormRendersSame | src/technocore_node/protocol/canonical.py:159-163 | the normal form has the same text |
| Canonical.MemberBack | src/technocore_node/protocol/canonical.py:148-153 | a member's text reads back |
| Canonical.ItemsBack | src/technocore_node/protocol/canonical.py:136-142 | a list's text reads back |
| Strictness.ParsesParsed | src/technocore_node/protocol/canonical.py:171-201 | nothing gets through the parser with a duplicate key at any depth or a non-finite constant |
| Strictness.WholeTextIsRead | src/technocore_node/protocol/canonical.py:171-201 | a text is accepted exactly when it is one value with nothing but blanks around it |
| Strictness.WordsAre | src/technocore_node/protocol/canonical.py:115-156 | null, true, false, quotes, and the limit of 100 levels |
| Strictness.ListMarksAre | src/technocore_node/protocol/canonical.py:136-142 | brackets and commas |
| Strictness.ObjectMarksAre | src/technocore_node/protocol/canonical.py:143-154 | braces and colons |
| Serializer.Serialize | src/technocore_node/protocol/canonical.py:115-156 | the recursion writes the canonical text exactly for what it accepts, every object's members in the order of their keys' UTF-16 code units |
| Serializer.SerializeMembers | src/technocore_node/protocol/canonical.py:143-154 | the member loop: each member once, and of any two the one whose key's code units come first is written first |
| Serializer.SerializeItems | src/technocore_node/protocol/canonical.py:136-142 | the item loop |
| Serializer.RejectDuplicates | src/technocore_node/protocol/canonical.py:190-199 | the duplicate hook |
| Serializer.EncodableIffKeysAre | src/technocore_node/protocol/canonical.py:124-168 | an accepted document can be encoded exactly when no key has a lone surrogate |
| Serializer.LoneSurrogatesKeepTheirOrder | src/technocore_node/protocol/canonical.py:110-148 | keys of lone surrogates can make one document two texts |
| JsonStrings.DumpsString | src/technocore_node/protocol/canonical.py:96-107 | the loop writes the literal |
| JsonStrings.EscapesAre | src/technocore_node/protocol/canonical.py:34-42 | which characters are escaped, and how each is spelled |
| JsonStrings.StringReadsBack | src/technocore_node/protocol/canonical.py:96-107 | every string reads back from its literal |
| JsonStrings.UnicodeEscapesAreRead | src/technocore_node/protocol/canonical.py:201-201 | what a parser makes of a u escape, of a surrogate pair of them, and of one that stands alone |
| JsonStrings.ShortEscapesAreRead | src/technocore_node/protocol/canonical.py:201-201 | and of the short ones |
| JsonStrings.SortKeyTells | src/technocore_node/protocol/canonical.py:110-112 | well-formed keys with one sort key are one key |
| JsonStrings.LoneSurrogatesCollide | src/technocore_node/protocol/canonical.py:110-112 | lone ones can share another's |
| MemberOrder.SortSorts | src/technocore_node/protocol/canonical.py:148-148 | the sort keeps the entries and orders them |
| MemberOrder.SortRisesByCodeUnits | src/technocore_node/protocol/canonical.py:110-148 | sorted, entries under different well-formed keys rise strictly by their keys' UTF-16 code units |
| MemberOrder.KeysCompareByCodeUnits | src/technocore_node/protocol/canonical.py:110-112 | one key is sorted before another exactly when at the first code unit where they differ its own is the smaller, or it ends there |
| MemberOrder.OneOrder | src/technocore_node/protocol/canonical.py:148-148 | there is one order of the same entries |
| Numerals.LayoutDenotes | src/technocore_node/protocol/canonical.py:84-93 | each layout is a JSON number and denotes exactly 0.digits * 10^n; it reads as an integer exactly when laid out as one |
| Numerals.PlainLayout | src/technocore_node/protocol/canonical.py:84-87 | from 1 and below 10^21: plain digits, with zeros after them or a point among them |
| Numerals.SmallLayout | src/technocore_node/protocol/canonical.py:88-89 | from 10^-6 and below 1: 0., zeros, and the digits |
| Numerals.ScientificLayout | src/technocore_node/protocol/canonical.py:90-93 | any other: one digit, a point before the rest, e, the exponent's sign, the exponent without leading zeros |
| Numerals.NumberGrammar | src/technocore_node/protocol/canonical.py:201-201 | which numbers a parser reads: digits after a point, after an e and its sign, nothing after a leading zero |
| Numerals.ExponentIsRead | src/technocore_node/protocol/canonical.py:201-201 | and the exponent's value |
| Numerals.NormalDecides | src/technocore_node/protocol/canonical.py:79-82 | two decimals are equal exactly when their digits without trailing zeros are |
| Numerals.PrintsNormalForm | src/technocore_node/protocol/canonical.py:79-93 | trailing zeros of repr make no difference |
| Numbers.Doubles.PrintsTheDouble | src/technocore_node/protocol/canonical.py:49-93 | whatever a number was parsed as, its double is what is printed, and nothing exactly when it has none |
| Numbers.Doubles.ReadsBack | src/technocore_node/protocol/canonical.py:49-93 | what is printed reads back as the same double |
| Numbers.Doubles.TextTellsDoubles | src/technocore_node/protocol/canonical.py:49-93 | two numbers print alike exactly when they are one double |
| Numbers.ShortcutAgrees | src/technocore_node/protocol/canonical.py:53-57 | up to 2^53 an int prints as the double path would |
| Numbers.ShortestIsExact | src/technocore_node/protocol/canonical.py:53-57 | the shortest decimal that reads back as such an int is its own |
| DidKey.KeyReadsBack | src/technocore_node/crypto/didkey.py:81-102 | every 32-byte key comes back from its identifier |
| DidKey.NoSecondSpelling | src/technocore_node/crypto/didkey.py:81-102 | every accepted identifier is what its key encodes to |
| DidKey.EveryDidBegins | src/technocore_node/crypto/didkey.py:28-45 | did:key: and 48 multibase characters beginning z6Mk |
| DidKey.AlphabetIs | src/technocore_node/crypto/didkey.py:25-26 | the alphabet is the digits and letters but 0, O, I and l in ASCII order, and nothing else is read |
| DidKey.Base58ReadsBack | src/technocore_node/crypto/didkey.py:60-78 | any bytes come back from base58 but for their leading zeros |
| DidKey.B58Encode | src/technocore_node/crypto/didkey.py:70-78 | the loop writes the number's base-58 digits after a 1 for each leading zero byte |
| DidKey.B58Decode | src/technocore_node/crypto/didkey.py:60-67 | the loop reads them, or refuses a character outside the alphabet |
| Digits.ToDigitsReads | src/technocore_node/crypto/didkey.py:60-78 | digits read back as their number |
| Digits.FromDigitsWrites | src/technocore_node/crypto/didkey.py:60-78 | digits without a leading zero are the number's own |
| SignatureText.SignatureReadsBack | src/technocore_node/crypto/didkey.py:147-161 | 64 bytes come back from their text |
| SignatureText.OneSignatureText | src/technocore_node/crypto/didkey.py:147-161 | an accepted text is its bytes' own: one spelling, ending in A, Q, g or w |
| SignatureText.Alphabet64Is | src/technocore_node/crypto/didkey.py:38-45 | A to Z, a to z, 0 to 9, - and _, and nothing else is read |
| SignatureText.GroupsAreBits | src/technocore_node/crypto/didkey.py:147-151 | the characters are the bytes' bits in order, six at a time |
| Receipts.SealedVerifies | src/technocore_node/receipts/receipt.py:76-151 | whatever is built with the provider's key for a valid requester is accepted |
| Receipts.AcceptedExactlyWhenGenuine | src/technocore_node/receipts/receipt.py:115-151 | a receipt is accepted exactly when every field is there, receipt_hash is the hash of the canonical form of the rest, both identifiers are valid, and sig is the provider's signature over the canonical form of the rest |
| Receipts.UnsignedIsRefused | src/technocore_node/receipts/receipt.py:143-149 | one whose signature was not made over the rest is never accepted, whatever its hash |
| Receipts.ProblemsAreFound | src/technocore_node/receipts/receipt.py:115-151 | which problem is reported exactly when |
| Receipts.HashIsTheReceipt | src/technocore_node/receipts/receipt.py:115-151 | accepted receipts with one receipt_hash are one document but for sig |
| Receipts.VerifyChain | src/technocore_node/receipts/receipt.py:154-192 | all valid exactly when each is genuine and no nonempty job id repeats; the duplicates are exactly those that do; chronological exactly when no timestamp comes, by code points, before one that stands before it |
| Receipts.SortedAlready | src/technocore_node/receipts/receipt.py:183-184 | a list equals its sorted self exactly when it ascends |
| Receipts.StampsInOrder | src/technocore_node/receipts/receipt.py:183-184 | the timestamps kept ascend exactly when no receipt with one goes back on another before it |
| Receipts.WithoutKeeps | src/technocore_node/receipts/receipt.py:44-45 | leaving fields out leaves the rest as it was |
| Receipts.NothingElseIsLeftOut | src/technocore_node/receipts/receipt.py:44-45 | nothing but the named fields is left out |
| Receipts.GetIsFirst | src/technocore_node/receipts/receipt.py:115-130 | a field is looked up by its name |
| HttpJobs.JobsEndpoint.SubmitJob | src/technocore_node/api/jobs.py:60-209 | each refusal exactly when its check fails and those before it pass: gate, signature and nonce form, an answer already there, the rate limit, the job's validity, the nonce's claim; refused before the claim it moves no counter; reaching the runner it has just raised it; an answered job's owner always gets its receipt |
| HttpJobs.JobsEndpoint.Run | src/technocore_node/api/jobs.py:174-232 | from the claim on: the runner's refusal under its code and recorded, the new answer with its receipt, the old one with its |
| HttpJobs.JobsEndpoint.ClaimHttpNonce | src/technocore_node/ledger/db.py:261-282 | a nonce is claimed exactly when it is above the floor |
| HttpJobs.NoReplay | src/technocore_node/protocol/http_envelope.py:67-88 | no signed submission reaches the runner twice, respelled nonce or not |
| HttpJobs.NoncesTaken | src/technocore_node/protocol/http_envelope.py:67-88 | one to nineteen digits below 2^63 |
| HttpJobs.FirstDigit | src/technocore_node/protocol/http_envelope.py:67-88 | the number a nonce's text stands for |
| RateLimit.NeverOverTheLimit | src/technocore_node/jobs/runner.py:178-186 | no requester has more rows than the limit in any closed hour |
| RateLimit.JobsAreCounted | src/technocore_node/ledger/db.py:438-452 | the count is of the requester's rows since then, that instant included |
| RateLimit.RefusalsAreCounted | src/technocore_node/ledger/db.py:438-452 | and of its refusals |
| RateLimit.Admissions.Admit | src/technocore_node/jobs/runner.py:277-340 | the check and the insert as one step: a resumed job is charged nothing, another's id is refused, and anything else is admitted exactly when the jobs and refusals of the last 3600 s are below the limit |
| RateLimit.RowBetweenCheckAndInsert | src/technocore_node/jobs/runner.py:315-339 | without that atomicity the limit is passed |
| RateLimit.WindowIsCounted | src/technocore_node/ledger/db.py:438-452 | the hour ending at an insert counts every window that ends there |
| Nonces.RisesIffCovered | src/technocore_node/protocol/client.py:124-151 | nonces rise over restarts exactly when the record or the clock is ahead each time |
| Nonces.RecordedNeverGoesBack | src/technocore_node/protocol/client.py:124-151 | with every write recorded the clock is not needed |
| Nonces.ClockSetBack | src/technocore_node/protocol/client.py:141-151 | an unrecorded write and a clock set back repeat a nonce |
| Nonces.NonceAllocator.Next | src/technocore_node/protocol/client.py:141-151 | the next nonce is the least above the floor and not before the clock, held down to nineteen digits |

## Left out

- Records without a usable seq, and lines whose fields have other types than the upstream gives them: the model's records are well-formed.
- The room parameter: each reader has one room and its own part of the cursor and message tables.
- Log lines, `last_publish_error`, `room_restarted` and the other notes in `deployment_state`, except the gap.
- `safety_state` and the lanes' reasons: whether a gate is open is any answer at every place it is asked, and the theorems hold for all of them.
- The results table, reply rooms and the result message; the four task bodies and JSON Schema validation, which are parameters.
- Runner.JobRunner.AwaitOther: joining returns what the other attempt returned; the model says only that a receipt handed over is there, the caller's, and of the outcome told.
- Mailbox.Node.Publish: announcing results and receipts to reply rooms is anything at all that only adds to the tables.
- RoomReader.Reader.ReadFromCursor: the long-poll wait, the client's retries and its status mapping are one failure, None.
- Lease.LeaseNode.RecordLeaseOutcome: the two state writes of one outcome are one step here; a crash between them leaves the streak, which only keeps the sink shut longer.
- Lease.Owners.PostOwner: the note's nonce contention is any 409; the shared counter itself is not kept.
- Reconciler.OutboxNode.PublishAuditCopy: whether the room is owned is any answer; module Lease says what the answer is worth.
- HttpJobs.JobsEndpoint.Run: the audit copy posted after a new answer is `Reconciler.OutboxNode.PublishAuditCopy`'s subject and not repeated here; that it may be posted while the reconciler is posting is excluded by hypothesis.
- Reconciler.OutboxNode.SyncOwnedRoom: receipts recorded while it waits for the room arrive, in the model, before or after it.
- HttpJobs.JobsEndpoint.SubmitJob: body size, UTF-8 and envelope shape come before the model's first check; the rate limit's answer is any, and is module RateLimit's subject.
- Receipts.SealedVerifies: the fourteen field names of a built receipt are not spelled out, only the ones its check looks at.
- Strictness.ParsesParsed: the parser's recursion limit and its limit on the digits of an int are not modelled.
- The sweep, room classes, configuration, keystore, CLI output, dashboard, metrics, protocol watcher and secret scan: presentation or plumbing.
