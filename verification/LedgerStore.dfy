/** The ledger one room's reader and the runner write to, one transaction a method.

    Every write may be the one the process dies in: it then leaves the tables as they were
    and reports that nobody is left to go on. */
module LedgerStore {
  import opened Basics
  import opened Tables
  import opened JobMachine

  /** The row of `cursors` for the room. */
  datatype CursorRow = CursorRow(lastSeq: nat, generation: Option<nat>, restarts: nat)

  function CursorOf(row: Option<CursorRow>): nat {
    if row.Some? then row.value.lastSeq else 0
  }

  function RestartsOf(row: Option<CursorRow>): nat {
    if row.Some? then row.value.restarts else 0
  }

  function GenerationOf(row: Option<CursorRow>): Option<nat> {
    if row.Some? then row.value.generation else None
  }

  /** `local_event_id`: an inbound line is named by how often the room had been found replaced
      and by its seq, an outbound one by its nonce. */
  datatype EventId = Inbound(restarts: nat, at: nat) | Outbound(nonce: nat)

  datatype Fingerprint = Fingerprint(did: string, digest: string)

  datatype MessageRow = MessageRow(event: EventId, at: nat, seen: Fingerprint)

  function Without(rows: seq<MessageRow>, event: EventId): seq<MessageRow> {
    if rows == [] then []
    else
      Without(rows[..|rows| - 1], event)
      + if rows[|rows| - 1].event == event then [] else [rows[|rows| - 1]]
  }

  /** INSERT OR REPLACE: the newest row is the last. */
  function Recorded(rows: seq<MessageRow>, row: MessageRow): seq<MessageRow> {
    Without(rows, row.event) + [row]
  }

  /** `recorded_message_at`: what the newest row at this seq recorded. */
  function NewestAt(rows: seq<MessageRow>, at: nat): Option<Fingerprint>
    decreases |rows|
  {
    if rows == [] then None
    else if rows[|rows| - 1].at == at then Some(rows[|rows| - 1].seen)
    else NewestAt(rows[..|rows| - 1], at)
  }

  /** An inbound row's id carries the seq it is recorded at. */
  ghost predicate EventsPlaced(rows: seq<MessageRow>) {
    forall i | 0 <= i < |rows| && rows[i].event.Inbound? :: rows[i].event.at == rows[i].at
  }

  lemma NewestAtEnd(rows: seq<MessageRow>, last: MessageRow, at: nat)
    ensures NewestAt(rows + [last], at) == if last.at == at then Some(last.seen) else NewestAt(rows, at)
  {
    assert (rows + [last])[..|rows|] == rows;
  }

  lemma PlacedEnd(rows: seq<MessageRow>, last: MessageRow)
    ensures EventsPlaced(rows + [last]) <==>
            EventsPlaced(rows) && (last.event.Inbound? ==> last.event.at == last.at)
  {
    if EventsPlaced(rows + [last]) {
      assert (rows + [last])[|rows|] == last;
      assert forall i | 0 <= i < |rows| :: rows[i] == (rows + [last])[i];
    }
  }

  lemma {:induction false} WithoutKeepsOthers(rows: seq<MessageRow>, event: EventId, at: nat)
    requires EventsPlaced(rows) && event.Inbound? && event.at != at
    ensures EventsPlaced(Without(rows, event))
    ensures NewestAt(Without(rows, event), at) == NewestAt(rows, at)
    decreases |rows|
  {
    if rows != [] {
      var init, last := rows[..|rows| - 1], rows[|rows| - 1];
      var kept := Without(init, event);
      assert Without(rows, event) == if last.event == event then kept + [] else kept + [last];
      hide NewestAt, EventsPlaced, Without;
      assert rows == init + [last] && kept + [] == kept;
      PlacedEnd(init, last);
      WithoutKeepsOthers(init, event, at);
      NewestAtEnd(init, last, at);
      PlacedEnd(kept, last);
      NewestAtEnd(kept, last, at);
    }
  }

  /** Recording an inbound line makes it the newest at its own seq, in whichever lifetime, and
      leaves what is newest at every other seq alone. */
  lemma RecordedIsNewest(rows: seq<MessageRow>, row: MessageRow, at: nat)
    requires EventsPlaced(rows) && row.event.Inbound? && row.event.at == row.at
    ensures EventsPlaced(Recorded(rows, row))
    ensures NewestAt(Recorded(rows, row), at) ==
            if at == row.at then Some(row.seen) else NewestAt(rows, at)
  {
    hide NewestAt, EventsPlaced, Without;
    var kept := Without(rows, row.event);
    WithoutKeepsOthers(rows, row.event, if at == row.at then at + 1 else at);
    NewestAtEnd(kept, row, at);
    PlacedEnd(kept, row);
  }

  ghost predicate HasOther(rows: seq<MessageRow>, event: EventId, row: MessageRow) {
    row in rows && row.event != event
  }

  lemma {:induction false} WithoutIsTheOthers(rows: seq<MessageRow>, event: EventId)
    ensures forall row :: row in Without(rows, event) <==> HasOther(rows, event, row)
    decreases |rows|
  {
    if rows != [] {
      var (init, last) := (rows[..|rows| - 1], rows[|rows| - 1]);
      WithoutIsTheOthers(init, event);
      assert rows == init + [last];
    }
  }

  /** One row an event: recorded again, an event's row is the new one, at the end, and every other
      event's is as it was. */
  lemma {:induction false} OneRowAnEvent(rows: seq<MessageRow>, row: MessageRow)
    ensures var later := Recorded(rows, row);
            && later[|later| - 1] == row
            && (forall i | 0 <= i < |later| - 1 :: later[i].event != row.event && later[i] in rows)
            && (forall i | 0 <= i < |rows| && rows[i].event != row.event :: rows[i] in later)
  {
    hide Without;
    WithoutIsTheOthers(rows, row.event);
    var kept := Without(rows, row.event);
    forall i | 0 <= i < |kept| ensures HasOther(rows, row.event, kept[i]) {
      assert kept[i] in kept;
    }
    forall i | 0 <= i < |rows| && rows[i].event != row.event ensures rows[i] in kept {
      assert HasOther(rows, row.event, rows[i]);
    }
  }

  /** What the other lane, the other process and the reconciler may have done to the job tables
      while this one waited: add, never take back an answer or a refusal. */
  predicate Grows(before: Db, after: Db) {
    && (forall id | id in before.jobs ::
          && id in after.jobs
          && after.jobs[id].requester == before.jobs[id].requester
          && after.jobs[id].internal == before.jobs[id].internal)
    && (forall id | id in before.receipts :: id in after.receipts)
    && before.rejections <= after.rejections
  }

  lemma ActionGrows(s: State, action: Action)
    ensures Grows(s.db, Apply(s, action).db)
  {
  }

  lemma GrowsOn(a: Db, b: Db, c: Db)
    requires Grows(a, b) && Grows(b, c)
    ensures Grows(a, c)
  {
  }

  /** What may have happened meanwhile when there is one process: its other attempts, none of
      them at the id it is holding. */
  predicate OneProcess(before: Db, after: Db, held: Option<JobId>) {
    && Grows(before, after) && Settles(before, after)
    && (held.Some? ==> Untouched(before, after, held.value))
    && (AllConsistent(before) ==> AllConsistent(after))
  }

  lemma {:induction false} RunGrows(s: State, actions: seq<Action>)
    ensures Grows(s.db, Exec(s, actions).db)
    decreases |actions|
  {
    if actions != [] {
      ActionGrows(s, actions[0]);
      RunGrows(Apply(s, actions[0]), actions[1..]);
      GrowsOn(s.db, Apply(s, actions[0]).db, Exec(s, actions).db);
    }
  }

  /** Every run of one process beside an attempt of its own is such a change. */
  lemma {:induction false} OneProcessCovers(s: State, actions: seq<Action>, process: nat, held: Option<JobId>)
    requires SoundProcess(s, process, held) && Beside(actions, process, held)
    ensures OneProcess(s.db, Exec(s, actions).db, held)
  {
    RunGrows(s, actions);
    RestOfTheProcess(s, actions, process, held);
  }

  /** What a stretch of the node's work, and what goes on beside it, leaves of the job tables.
      When it has the ledger to itself, every answer is as it was and every job is finished exactly
      when it has its receipt. */
  ghost predicate Onward(alone: bool, before: Db, after: Db) {
    && Grows(before, after)
    && (alone && AllConsistent(before) ==> Settles(before, after) && AllConsistent(after))
  }

  lemma OnwardComposes(alone: bool, a: Db, b: Db, c: Db)
    requires Onward(alone, a, b) && Onward(alone, b, c)
    ensures Onward(alone, a, c)
  {
    hide AllConsistent;
  }

  lemma LanesGoOnward(alone: bool, before: Db, after: Db)
    requires Grows(before, after) && (alone ==> OneProcess(before, after, None))
    ensures Onward(alone, before, after)
  {
    hide Grows;
  }

  class Ledger {
    /** Whether no second process, such as the self-test command, is at work on the file. */
    const alone: bool
    var cursorRow: Option<CursorRow>
    var messages: seq<MessageRow>
    var db: Db
    /** `mailbox_gap` in `deployment_state`: how many messages aged out unread. */
    var mailboxGap: Option<nat>

    constructor (alone: bool)
      ensures this.alone == alone
      ensures cursorRow.None? && messages == [] && db == EMPTY && mailboxGap.None?
    {
      this.alone := alone;
      cursorRow, messages, db, mailboxGap := None, [], EMPTY, None;
    }

    function Cursor(): nat
      reads this`cursorRow
    {
      CursorOf(cursorRow)
    }

    // ---------------------------------------------------------------- cursors

    method SetCursor(lastSeq: nat) returns (alive: bool)
      modifies this`cursorRow
      ensures !alive ==> cursorRow == old(cursorRow)
      ensures alive ==> Cursor() == Max(old(Cursor()), lastSeq)
      ensures RestartsOf(cursorRow) == RestartsOf(old(cursorRow))
      ensures GenerationOf(cursorRow) == GenerationOf(old(cursorRow))
    {
      alive := *;
      if alive {
        cursorRow := if cursorRow.None? then Some(CursorRow(lastSeq, None, 0))
                     else Some(cursorRow.value.(lastSeq := Max(cursorRow.value.lastSeq, lastSeq)));
      }
    }

    method AdoptCursorEpoch(generation: nat) returns (alive: bool)
      modifies this`cursorRow
      ensures !alive ==> cursorRow == old(cursorRow)
      ensures alive ==> GenerationOf(cursorRow) == Some(generation)
      ensures Cursor() == old(Cursor()) && RestartsOf(cursorRow) == RestartsOf(old(cursorRow))
    {
      alive := *;
      if alive {
        cursorRow := if cursorRow.None? then Some(CursorRow(0, Some(generation), 0))
                     else Some(cursorRow.value.(generation := Some(generation)));
      }
    }

    /** Nothing else takes a cursor back, and this takes it to the room's start. */
    method RestartCursor(generation: Option<nat>) returns (alive: bool)
      modifies this`cursorRow
      ensures !alive ==> cursorRow == old(cursorRow)
      ensures alive ==> cursorRow == Some(CursorRow(0, generation, RestartsOf(old(cursorRow)) + 1))
    {
      alive := *;
      if alive {
        cursorRow := Some(CursorRow(0, generation, RestartsOf(cursorRow) + 1));
      }
    }

    method RecordGap(lost: nat) returns (alive: bool)
      modifies this`mailboxGap
      ensures mailboxGap == if alive then Some(lost) else old(mailboxGap)
    {
      alive := *;
      if alive {
        mailboxGap := Some(lost);
      }
    }

    method RecordMessage(row: MessageRow) returns (alive: bool)
      modifies this`messages
      ensures messages == if alive then Recorded(old(messages), row) else old(messages)
    {
      alive := *;
      if alive {
        messages := Recorded(messages, row);
      }
    }

    // ------------------------------------------------------------------- jobs

    method InsertJob(id: JobId, requester: Did, internal: bool, spend: bool)
      returns (alive: bool, inserted: bool)
      modifies this`db
      ensures alive ==> (db, inserted) == Tables.InsertJob(old(db), id, requester, internal, spend)
      ensures alive ==>
                && inserted == (id !in old(db).jobs)
                && db.receipts == old(db).receipts && db.rejections == old(db).rejections
                && (if inserted then
                      db.jobs == old(db).jobs[id := JobRow(requester, internal, Validated)]
                      && db.declared == old(db).declared - (if spend then {(requester, id)} else {})
                    else db == old(db))
      ensures !alive ==> db == old(db)
    {
      alive, inserted := *, false;
      if alive {
        var outcome := Tables.InsertJob(db, id, requester, internal, spend);
        db, inserted := outcome.0, outcome.1;
      }
    }

    method UpdateJob(id: JobId, status: Status) returns (alive: bool)
      modifies this`db
      ensures db == if alive then SetStatus(old(db), id, status) else old(db)
    {
      alive := *;
      if alive {
        db := SetStatus(db, id, status);
      }
    }

    method RecordReceipt(id: JobId, receipt: ReceiptRow, finished: Status) returns (alive: bool)
      modifies this`db
      ensures db == if alive then Tables.RecordReceipt(old(db), id, receipt, finished) else old(db)
      ensures alive && id in old(db).jobs ==>
                && db.jobs == old(db).jobs[id := old(db).jobs[id].(status := finished)]
                && db.receipts == old(db).receipts[id := receipt]
                && db.rejections == old(db).rejections && db.declared == old(db).declared
    {
      alive := *;
      if alive {
        db := Tables.RecordReceipt(db, id, receipt, finished);
      }
    }

    method RecordRejection(rejection: Rejection) returns (alive: bool)
      modifies this`db
      ensures db == if alive then Tables.RecordRejection(old(db), rejection) else old(db)
      ensures alive ==>
                && db.rejections == old(db).rejections + [rejection]
                && db.jobs == old(db).jobs && db.receipts == old(db).receipts && db.declared == old(db).declared
    {
      alive := *;
      if alive {
        db := Tables.RecordRejection(db, rejection);
      }
    }

    /** Anything the rest of the node may do to the job tables: any other attempts, and any
        refusals. When a second process is at work on the same file its attempts may be at the
        held id too. */
    method OtherLanes(held: Option<JobId>)
      modifies this`db
      ensures Grows(old(db), db)
      ensures alone ==> OneProcess(old(db), db, held)
    {
      if alone {
        var later: Db := *;
        if OneProcess(db, later, held) {
          db := later;
        }
      } else {
        AnyProcesses();
      }
    }

    method AnyProcesses()
      modifies this`db
      ensures Grows(old(db), db)
    {
      var steps: nat := *;
      var rest: map<Key, Attempt> := *;
      var serial: nat := *;
      var s := State(db, rest, serial);
      while steps > 0
        invariant Grows(old(db), s.db)
        decreases steps
      {
        if * {
          var action: Action := *;
          ActionGrows(s, action);
          s := Apply(s, action);
        } else {
          var rejection: Rejection := *;
          s := s.(db := Tables.RecordRejection(s.db, rejection));
        }
        steps := steps - 1;
      }
      db := s.db;
    }
  }
}
