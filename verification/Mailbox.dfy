/** The mailbox loop: read from the cursor, hand each line to the runner, move the cursor. */
module Mailbox {
  import opened Basics
  import opened Tables
  import opened Rooms
  import opened LedgerStore
  import opened Runner
  import opened RoomReader
  import JobMachine

  datatype Handling = Crashed | Held | Dealt

  datatype PollEnd = Raised | FoundReplaced | Shut | Stopped | Handed(count: nat)

  /** A line this node has dealt with, and the lifetime of the room it was read in. */
  datatype Handled = Handled(life: nat, record: Record)

  function Entries(life: nat, records: seq<Record>): (entries: seq<Handled>)
    ensures |entries| == |records|
    ensures forall i | 0 <= i < |records| :: entries[i] == Handled(life, records[i])
  {
    seq(|records|, i requires 0 <= i < |records| => Handled(life, records[i]))
  }

  /** How a line is judged before it reaches a task: `is_did`, `parse_and_validate` and
      `_peek_job_id`. */
  datatype Intake = Intake(
    isDid: string -> bool, validate: string -> Result<JobId, string>, peek: string -> Option<JobId>)

  /** The refusal a line gets. */
  ghost predicate RefusalOf(intake: Intake, m: Message, refusal: Rejection) {
    if intake.isDid(m.from) then refusal.requester == Some(m.from) && refusal.job == intake.peek(m.text)
    else refusal == Rejection(None, None, "unsigned_sender")
  }

  /** What of a line's fate the ledger shows: its refusal, in the row named, or the receipt of the
      job it names under its own sender's row. */
  ghost predicate Vouched(intake: Intake, db: Db, m: Message, row: Option<nat>) {
    if row.Some? then row.value < |db.rejections| && RefusalOf(intake, m, db.rejections[row.value])
    else
      intake.isDid(m.from) && intake.validate(m.text).Ok?
      && AnsweredFor(db, intake.validate(m.text).value, m.from)
  }

  ghost predicate Accounted(intake: Intake, db: Db, m: Message) {
    exists row :: Vouched(intake, db, m, row)
  }

  /** Every line dealt with is vouched for, and no refusal row vouches for two of them. */
  ghost predicate AllAccounted(intake: Intake, db: Db, handled: seq<Handled>, rowOf: seq<Option<nat>>) {
    && |rowOf| == |handled|
    && (forall i | 0 <= i < |handled| :: Vouched(intake, db, handled[i].record.message, rowOf[i]))
    && (forall i, k | 0 <= i < k < |rowOf| && rowOf[i].Some? && rowOf[k].Some? ::
          rowOf[i].value < rowOf[k].value)
  }

  lemma {:induction false} AccountedStays(
      intake: Intake, before: Db, after: Db, handled: seq<Handled>, rowOf: seq<Option<nat>>)
    requires Grows(before, after) && AllAccounted(intake, before, handled, rowOf)
    ensures AllAccounted(intake, after, handled, rowOf)
  {
    forall i | 0 <= i < |handled|
      ensures Vouched(intake, after, handled[i].record.message, rowOf[i])
    {
      assert Vouched(intake, before, handled[i].record.message, rowOf[i]);
      if rowOf[i].Some? {
        assert after.rejections[rowOf[i].value] == before.rejections[rowOf[i].value];
      }
    }
  }

  lemma AnswerStays(before: Db, after: Db, id: JobId, requester: Did)
    requires Grows(before, after) && AnsweredFor(before, id, requester)
    ensures AnsweredFor(after, id, requester)
  {
  }

  /** A refusal's row is past every row that vouched before it. */
  lemma {:induction false} OneMore(
      intake: Intake, before: Db, db: Db, handled: seq<Handled>, rowOf: seq<Option<nat>>,
      next: Handled, row: Option<nat>)
    requires AllAccounted(intake, before, handled, rowOf) && AllAccounted(intake, db, handled, rowOf)
    requires Vouched(intake, db, next.record.message, row)
    requires row.Some? ==> row.value == |before.rejections|
    ensures AllAccounted(intake, db, handled + [next], rowOf + [row])
  {
    forall i | 0 <= i < |rowOf| && rowOf[i].Some? && row.Some? ensures rowOf[i].value < row.value {
      assert Vouched(intake, before, handled[i].record.message, rowOf[i]);
    }
  }

  lemma AnswerVouches(intake: Intake, db: Db, m: Message)
    requires intake.isDid(m.from) && intake.validate(m.text).Ok?
    requires AnsweredFor(db, intake.validate(m.text).value, m.from)
    ensures Vouched(intake, db, m, None)
  {
  }

  lemma OnwardGrows(alone: bool, before: Db, after: Db)
    requires Onward(alone, before, after)
    ensures Grows(before, after)
  {
  }

  /** Every message numbered up to the cursor was dealt with, or was not in the room when the
      cursor passed it. */
  ghost predicate Covered(r: Room, cursor: nat, handled: seq<Handled>, gone: set<(nat, nat)>) {
    && cursor <= |r.log|
    && forall n | 0 < n <= cursor ::
         Handled(r.life, Record(n, r.log[n - 1])) in handled || (r.life, n) in gone
  }

  /** No message the room holds at or below the cursor is left unhandled. */
  ghost predicate HeldHandled(r: Room, cursor: nat, handled: seq<Handled>) {
    forall n: nat | r.Holds(n) && n <= cursor :: Handled(r.life, Record(n, r.log[n - 1])) in handled
  }

  ghost predicate Witnessed(
      digest: string -> string, isDid: string -> bool, rows: seq<MessageRow>, r: Room, at: nat)
    requires 0 < at <= |r.log|
  {
    isDid(r.log[at - 1].from) ==> NewestAt(rows, at) == Some(FingerprintOf(digest, r.log[at - 1]))
  }

  /** `n` lines from lo + 1 on were dealt with, in order and once each, and the cursor is at the
      last of them, or just before it when the process died between dealing and moving. */
  ghost predicate Followed(
      seen: Room, lo: nat, n: nat, before: seq<Handled>, after: seq<Handled>,
      start: nat, cursor: nat, raised: bool)
  {
    && (n > 0 ==> lo + n <= |seen.log|)
    && after == before + (if n > 0 then Entries(seen.life, Slice(seen.log, lo, lo + n)) else [])
    && (cursor == (if n == 0 then start else lo + n)
        || (raised && n > 0 && cursor == if n == 1 then start else lo + n - 1))
  }

  lemma FollowsNone(seen: Room, lo: nat, handled: seq<Handled>, cursor: nat)
    ensures Followed(seen, lo, 0, handled, handled, cursor, cursor, false)
  {
  }

  /** One more line, dealt with or not, and the cursor moved to it or not. */
  lemma FollowsOn(
      seen: Room, lo: nat, i: nat, before: seq<Handled>, met: seq<Handled>, handled: seq<Handled>,
      start: nat, reached: nat, cursor: nat, raised: bool, record: Record)
    requires Followed(seen, lo, i, before, met, start, reached, false)
    requires lo + i < |seen.log| && record == Record(lo + i + 1, seen.log[lo + i])
    ensures handled == met && cursor == reached ==>
              Followed(seen, lo, i, before, handled, start, cursor, raised)
    ensures handled == met + [Handled(seen.life, record)]
            && (cursor == record.at || (cursor == reached && raised)) ==>
              Followed(seen, lo, i + 1, before, handled, start, cursor, raised)
  {
    if i == 0 {
      assert Slice(seen.log, lo, lo) == [];
    }
    assert Entries(seen.life, Slice(seen.log, lo, lo + i + 1))
        == Entries(seen.life, Slice(seen.log, lo, lo + i)) + [Handled(seen.life, record)];
  }

  /** Every further answer of the gate was that it is open, but for the last when it was found shut. */
  ghost predicate Asked(before: seq<bool>, after: seq<bool>, shut: bool) {
    && before <= after
    && (forall i | |before| <= i < |after| - 1 :: after[i])
    && (if shut then |after| > |before| && !after[|after| - 1]
        else |after| > |before| ==> after[|after| - 1])
  }

  lemma FirstSeqIsOldest(batch: Batch, seen: Room)
    requires BatchOf(seen, true, false, batch)
    ensures batch.messages != [] ==> batch.firstSeq == Some(Max(seen.base, batch.since) + 1)
    ensures batch.messages == [] ==> Max(seen.base, batch.since) >= |seen.log|
  {
  }

  /** A batch that starts past the cursor's next message does so because older ones have gone. */
  lemma GapsAreOld(batch: Batch, backlog: bool, seen: Room)
    requires BatchOf(seen, backlog, false, batch)
    ensures batch.firstSeq.Some? && batch.firstSeq.value > batch.since + 1 ==>
              backlog && batch.since < seen.base && batch.firstSeq.value == seen.base + 1
  {
  }

  /** Where the node stands with its mailbox. */
  datatype Standing = Standing(
    room: Room,
    row: Option<CursorRow>,
    rows: seq<MessageRow>,
    handled: seq<Handled>,
    gone: set<(nat, nat)>,
    cursorLife: nat)

  /** One poll, from one standing to another: reading may have sent the cursor back, and then
      `n` lines from lo + 1 on were dealt with, as the room stood when it was read. */
  ghost predicate Polled(
      a: Standing, b: Standing, digest: string -> string, isDid: string -> bool,
      due: bool, end: PollEnd, seen: Room, lo: nat, n: nat)
  {
    var restarted := RestartsOf(b.row) > RestartsOf(a.row);
    var since := if restarted then 0 else CursorOf(a.row);
    var cursor := CursorOf(b.row);
    && Evolves(a.room, seen) && Evolves(seen, b.room)
    && Followed(seen, lo, n, a.handled, b.handled, since, cursor, end.Raised?)
    && (restarted ==> RestartsOf(b.row) == RestartsOf(a.row) + 1 && CursorOf(a.row) > 0)
    && (!restarted ==> RestartsOf(b.row) == RestartsOf(a.row))
    && (n > 0 || end.Handed? ==> lo == Max(seen.base, since))
    && n <= 200
    && (end.Handed? ==> n == end.count == Min(200, Max(0, |seen.log| - lo)))
    && (end.FoundReplaced? ==> restarted)
    && (end.FoundReplaced? || end.Shut? ==> n == 0)
    // the witnesses below the page are untouched, and the cursor's own is the one just made
    && (forall at: nat | at <= Max(since, seen.base) :: NewestAt(b.rows, at) == NewestAt(a.rows, at))
    && (if cursor == since then b.gone == a.gone && b.cursorLife == a.cursorLife
        else && 0 < cursor <= |seen.log| && Witnessed(digest, isDid, b.rows, seen, cursor)
             && b.gone == a.gone + (set m | since < m <= lo :: (seen.life, m))
             && b.cursorLife == seen.life)
    // when a cursor is given up, and when it is kept
    && (a.room.life == b.room.life && Faithful(digest, a.rows, a.room, CursorOf(a.row)) ==> !restarted)
    && (a.room == b.room && !end.Raised? ==>
          Judged(digest, a.rows, a.room, CursorOf(a.row), restarted, due))
    && (due && !restarted && !end.Raised? ==>
          Compared(digest, a.rows, a.room, b.room, CursorOf(a.row)))
  }

  /** The first half of a poll: the room has been read, and nothing was dealt with. */
  ghost predicate ReadPhase(
      a: Standing, mid: Standing, digest: string -> string, due: bool, raised: bool, seen: Room)
  {
    && Evolves(a.room, seen) && Evolves(seen, mid.room)
    && Positioned(a.row, mid.row)
    && mid.rows == a.rows && mid.handled == a.handled && mid.gone == a.gone
    && mid.cursorLife == a.cursorLife
    && (a.room.life == mid.room.life && Faithful(digest, a.rows, a.room, CursorOf(a.row)) ==>
          RestartsOf(mid.row) == RestartsOf(a.row))
    && (a.room == mid.room && !raised ==>
          Judged(digest, a.rows, a.room, CursorOf(a.row), RestartsOf(mid.row) > RestartsOf(a.row), due))
    && (due && !raised && RestartsOf(mid.row) == RestartsOf(a.row) ==>
          Compared(digest, a.rows, a.room, mid.room, CursorOf(a.row)))
  }

  /** The second half: the batch's lines, from lo + 1 on. */
  ghost predicate HandlePhase(
      mid: Standing, b: Standing, digest: string -> string, isDid: string -> bool,
      end: PollEnd, seen: Room, lo: nat, n: nat)
  {
    var since, cursor := CursorOf(mid.row), CursorOf(b.row);
    && Evolves(mid.room, b.room)
    && RestartsOf(b.row) == RestartsOf(mid.row)
    && lo == Max(seen.base, since) && n <= 200
    && (end.Raised? || end.Stopped?
        || (end.Handed? && n == end.count == Min(200, Max(0, |seen.log| - lo))))
    && Followed(seen, lo, n, mid.handled, b.handled, since, cursor, end.Raised?)
    && (forall at: nat | at <= lo :: NewestAt(b.rows, at) == NewestAt(mid.rows, at))
    && (if cursor == since then b.gone == mid.gone && b.cursorLife == mid.cursorLife
        else && 0 < cursor <= |seen.log| && Witnessed(digest, isDid, b.rows, seen, cursor)
             && b.gone == mid.gone + (set m | since < m <= lo :: (seen.life, m))
             && b.cursorLife == seen.life)
  }

  lemma HalvesMakeAPoll(
      a: Standing, mid: Standing, b: Standing, digest: string -> string, isDid: string -> bool,
      due: bool, end: PollEnd, seen: Room, lo: nat, n: nat)
    requires ReadPhase(a, mid, digest, due, false, seen)
    requires HandlePhase(mid, b, digest, isDid, end, seen, lo, n)
    ensures Polled(a, b, digest, isDid, due, end, seen, lo, n)
  {
    hide NewestAt, Followed, Judged, Faithful, Witnessed, Compared;
    if due && !end.Raised? && RestartsOf(mid.row) == RestartsOf(a.row) {
      ComparedLater(digest, a.rows, a.room, mid.room, b.room, CursorOf(a.row));
    }
  }

  lemma RaisedAnyway(
      a: Standing, mid: Standing, digest: string -> string, due: bool, raised: bool, seen: Room)
    requires ReadPhase(a, mid, digest, due, raised, seen)
    ensures ReadPhase(a, mid, digest, due, true, seen)
    ensures Evolves(a.room, mid.room) && mid.rows == a.rows && seen.Wf()
    ensures RestartsOf(mid.row) > RestartsOf(a.row) || CursorOf(mid.row) == CursorOf(a.row)
    ensures CursorOf(mid.row) == CursorOf(a.row) || CursorOf(mid.row) == 0
  {
    hide NewestAt, Judged, Faithful, Compared;
  }

  lemma ReadingAloneIsAPoll(
      a: Standing, mid: Standing, digest: string -> string, isDid: string -> bool,
      due: bool, end: PollEnd, seen: Room)
    requires end == Raised || end == FoundReplaced || end == Shut
    requires ReadPhase(a, mid, digest, due, end.Raised?, seen)
    requires end == FoundReplaced ==> RestartsOf(mid.row) > RestartsOf(a.row)
    ensures Polled(a, mid, digest, isDid, due, end, seen, 0, 0)
  {
    hide NewestAt, Judged, Faithful, Witnessed, Compared;
  }

  class Node {
    const ledger: Ledger
    const upstream: Upstream
    const reader: Reader
    const runner: JobRunner
    const intake: Intake

    ghost var handled: seq<Handled>
    /** The refusal row of each line dealt with, or none when its job was answered. */
    ghost var rowOf: seq<Option<nat>>
    /** Seqs, by lifetime, that were no longer in the room when the cursor passed them. */
    ghost var gone: set<(nat, nat)>
    /** The lifetime the cursor's position was read in. */
    ghost var cursorLife: nat
    /** What the gate has answered so far. */
    ghost var gate: seq<bool>

    constructor (reader: Reader, runner: JobRunner, intake: Intake)
      requires reader.ledger == runner.ledger
      requires intake.isDid == runner.isDid && intake.validate == runner.validate
      ensures this.reader == reader && this.runner == runner && Wired()
      ensures handled == [] && rowOf == [] && gone == {} && gate == []
    {
      this.ledger, this.upstream := runner.ledger, reader.upstream;
      this.reader, this.runner, this.intake := reader, runner, intake;
      handled, rowOf, gone, cursorLife, gate := [], [], {}, 0, [];
    }

    ghost predicate Wired() {
      && reader.ledger == ledger && runner.ledger == ledger && reader.upstream == upstream
      && intake.isDid == runner.isDid && intake.validate == runner.validate
    }

    ghost predicate Accounts()
      reads this`handled, this`rowOf, ledger`db
    {
      AllAccounted(intake, ledger.db, handled, rowOf)
    }

    ghost function Stands(): Standing
      reads this, upstream, ledger
    {
      Standing(upstream.room, ledger.cursorRow, ledger.messages, handled, gone, cursorLife)
    }

    /** The gate. What it reads is in module Lease; any answer is possible here. */
    method LaneIsOpen() returns (open: bool)
      modifies this`gate
      ensures gate == old(gate) + [open]
    {
      open := *;
      gate := gate + [open];
    }

    /** The witness record, under an id no other lifetime's line at this seq has. */
    method RecordLine(record: Record) returns (alive: bool)
      requires Wired() && EventsPlaced(ledger.messages)
      modifies ledger`messages
      ensures EventsPlaced(ledger.messages)
      ensures alive ==>
                NewestAt(ledger.messages, record.at)
                == Some(FingerprintOf(reader.digest, record.message))
      ensures forall at: nat | at != record.at ::
                NewestAt(ledger.messages, at) == NewestAt(old(ledger.messages), at)
    {
      hide NewestAt;
      var row := MessageRow(Inbound(RestartsOf(ledger.cursorRow), record.at), record.at,
                            FingerprintOf(reader.digest, record.message));
      RecordedIsNewest(ledger.messages, row, record.at);
      forall at: nat {
        RecordedIsNewest(ledger.messages, row, at);
      }
      alive := ledger.RecordMessage(row);
    }

    /** `process_message`: the line is held, and nothing else happens, exactly when the gate is shut. */
    method ProcessMessage(record: Record, ghost life: nat) returns (h: Handling)
      requires Wired() && upstream.room.Wf() && EventsPlaced(ledger.messages) && Accounts()
      modifies upstream, ledger`messages, ledger`db, runner`inFlight, runner`calls, this`handled, this`rowOf, this`gate
      ensures gate == old(gate) + [!h.Held?]
      ensures runner.calls == old(runner.calls)
              || runner.calls == old(runner.calls) + [Call(record.message.text, record.message.from, false)]
      ensures h.Dealt? ==>
                (runner.calls == old(runner.calls) <==> !intake.isDid(record.message.from))
      ensures h.Held? ==> ledger.db == old(ledger.db) && ledger.messages == old(ledger.messages)
      ensures Evolves(old(upstream.room), upstream.room)
      ensures EventsPlaced(ledger.messages) && Accounts()
      ensures Onward(ledger.alone, old(ledger.db), ledger.db)
      ensures handled == old(handled) + if h.Dealt? then [Handled(life, record)] else []
      ensures h.Dealt? && intake.isDid(record.message.from) ==>
                NewestAt(ledger.messages, record.at)
                == Some(FingerprintOf(reader.digest, record.message))
      ensures forall at: nat | at != record.at ::
                NewestAt(ledger.messages, at) == NewestAt(old(ledger.messages), at)
    {
      hide NewestAt, EventsPlaced, AllAccounted, Vouched, AnsweredFor, Grows, Onward;
      OnwardStill(ledger.alone, ledger.db);
      var open := LaneIsOpen();
      if !open {
        return Held;
      }
      var m := record.message;
      if !runner.isDid(m.from) {
        h := Refuse(Rejection(None, None, "unsigned_sender"), record, life);
        return;
      }

      var alive := RecordLine(record);
      if !alive {
        return Crashed;
      }

      ghost var before := ledger.db;
      var end := runner.Handle(m.text, m.from, false);
      OnwardGrows(ledger.alone, before, ledger.db);
      AccountedStays(intake, before, ledger.db, handled, rowOf);
      ghost var handedOver := ledger.db;
      match end
      case Died =>
        return Crashed;
      case Refused(code) =>
        h := Refuse(Rejection(intake.peek(m.text), Some(m.from), code), record, life);
        OnwardComposes(ledger.alone, before, handedOver, ledger.db);
      case Done(outcome) =>
        if outcome.Answered? {
          alive := Publish();
          OnwardComposes(ledger.alone, before, handedOver, ledger.db);
          OnwardGrows(ledger.alone, handedOver, ledger.db);
          AccountedStays(intake, handedOver, ledger.db, handled, rowOf);
          AnswerStays(handedOver, ledger.db, intake.validate(m.text).value, m.from);
          if !alive {
            return Crashed;
          }
        }
        AnswerVouches(intake, ledger.db, m);
        OneMore(intake, ledger.db, ledger.db, handled, rowOf, Handled(life, record), None);
        handled, rowOf := handled + [Handled(life, record)], rowOf + [None];
        return Dealt;
    }

    method Refuse(rejection: Rejection, record: Record, ghost life: nat) returns (h: Handling)
      requires Wired() && Accounts()
      requires RefusalOf(intake, record.message, rejection)
      modifies ledger`db, this`handled, this`rowOf
      ensures h.Crashed? || h.Dealt?
      ensures handled == old(handled) + if h.Dealt? then [Handled(life, record)] else []
      ensures Accounts() && Onward(ledger.alone, old(ledger.db), ledger.db)
    {
      ghost var before := ledger.db;
      var alive := ledger.RecordRejection(rejection);
      AccountedStays(intake, before, ledger.db, handled, rowOf);
      if !alive {
        return Crashed;
      }
      ghost var row: Option<nat> := Some(|before.rejections|);
      assert ledger.db.rejections[|before.rejections|] == rejection;
      OneMore(intake, before, ledger.db, handled, rowOf, Handled(life, record), row);
      handled, rowOf := handled + [Handled(life, record)], rowOf + [row];
      return Dealt;
    }

    /** Announcing an answer writes to other rooms; meanwhile everything else goes on. */
    method Publish() returns (alive: bool)
      requires upstream.room.Wf()
      modifies upstream, ledger`db
      ensures Evolves(old(upstream.room), upstream.room)
      ensures Onward(ledger.alone, old(ledger.db), ledger.db)
    {
      upstream.Drift();
      ledger.OtherLanes(None);
      alive := *;
    }

    /** One line of the loop: the cursor follows only a line that was dealt with. */
    method HandleLine(record: Record, ghost life: nat) returns (stop: Option<PollEnd>)
      requires Wired() && upstream.room.Wf() && EventsPlaced(ledger.messages) && Accounts()
      requires ledger.Cursor() < record.at
      modifies upstream, ledger`messages, ledger`db, ledger`cursorRow, runner`inFlight, runner`calls
      modifies this`handled, this`rowOf, this`gate
      ensures gate == old(gate) + [stop != Some(Stopped)]
      ensures Evolves(old(upstream.room), upstream.room)
      ensures EventsPlaced(ledger.messages) && Accounts()
      ensures Onward(ledger.alone, old(ledger.db), ledger.db)
      ensures RestartsOf(ledger.cursorRow) == RestartsOf(old(ledger.cursorRow))
      ensures stop in {None, Some(Raised), Some(Stopped)}
      ensures handled == old(handled)
              || (handled == old(handled) + [Handled(life, record)] && stop != Some(Stopped))
      ensures ledger.Cursor() == if stop.None? then record.at else old(ledger.Cursor())
      ensures stop.None? ==> handled == old(handled) + [Handled(life, record)]
      ensures stop.None? && intake.isDid(record.message.from) ==>
                NewestAt(ledger.messages, record.at)
                == Some(FingerprintOf(reader.digest, record.message))
      ensures forall at: nat | at != record.at ::
                NewestAt(ledger.messages, at) == NewestAt(old(ledger.messages), at)
    {
      hide NewestAt, EventsPlaced, AllAccounted, Evolves, Onward;
      var h := ProcessMessage(record, life);
      match h
      case Crashed =>
        return Some(Raised);
      case Held =>
        return Some(Stopped);
      case Dealt =>
        var alive := ledger.SetCursor(record.at);
        return if alive then None else Some(Raised);
    }

    /** The loop of `poll_mailbox_once` over a page read from a room as `seen`: records lo + 1
        to hi. The cursor follows line by line, and stops before the first it cannot pass. */
    method HandlePage(messages: seq<Record>, ghost seen: Room, ghost lo: nat, ghost hi: nat)
      returns (stop: Option<PollEnd>, ghost n: nat)
      requires Wired() && upstream.room.Wf() && EventsPlaced(ledger.messages) && Accounts()
      requires lo <= hi <= |seen.log| && messages == Slice(seen.log, lo, hi) && ledger.Cursor() <= lo
      modifies upstream, ledger`messages, ledger`db, ledger`cursorRow, runner`inFlight, runner`calls
      modifies this`handled, this`rowOf, this`gate
      ensures Asked(old(gate), gate, stop == Some(Stopped))
      ensures Evolves(old(upstream.room), upstream.room)
      ensures EventsPlaced(ledger.messages) && Accounts()
      ensures Onward(ledger.alone, old(ledger.db), ledger.db)
      ensures RestartsOf(ledger.cursorRow) == RestartsOf(old(ledger.cursorRow))
      ensures stop in {None, Some(Raised), Some(Stopped)}
      ensures n <= hi - lo && (stop.None? ==> n == hi - lo)
      ensures Followed(seen, lo, n, old(handled), handled, old(ledger.Cursor()), ledger.Cursor(),
                       stop == Some(Raised))
      ensures forall at: nat | at <= lo ::
                NewestAt(ledger.messages, at) == NewestAt(old(ledger.messages), at)
      ensures ledger.Cursor() != old(ledger.Cursor()) ==>
                lo < ledger.Cursor() <= hi
                && Witnessed(reader.digest, intake.isDid, ledger.messages, seen, ledger.Cursor())
    {
      hide NewestAt, EventsPlaced, AllAccounted, Onward, Followed;
      OnwardStill(ledger.alone, ledger.db);
      ghost var before, start := handled, ledger.Cursor();
      FollowsNone(seen, lo, handled, start);
      var i := 0;
      while i < |messages|
        invariant 0 <= i <= |messages| && Asked(old(gate), gate, false)
        invariant Evolves(old(upstream.room), upstream.room)
        invariant EventsPlaced(ledger.messages) && Accounts()
        invariant Onward(ledger.alone, old(ledger.db), ledger.db)
        invariant RestartsOf(ledger.cursorRow) == RestartsOf(old(ledger.cursorRow))
        invariant Followed(seen, lo, i, before, handled, start, ledger.Cursor(), false)
        invariant ledger.Cursor() == if i == 0 then start else lo + i
        invariant forall at: nat | at <= lo ::
                    NewestAt(ledger.messages, at) == NewestAt(old(ledger.messages), at)
        invariant i > 0 ==> Witnessed(reader.digest, intake.isDid, ledger.messages, seen, lo + i)
      {
        ghost var met, tables, reached := handled, ledger.db, ledger.Cursor();
        stop := HandleLine(messages[i], seen.life);
        OnwardComposes(ledger.alone, old(ledger.db), tables, ledger.db);
        FollowsOn(seen, lo, i, before, met, handled, start, reached, ledger.Cursor(), stop == Some(Raised),
                  messages[i]);
        if stop.Some? {
          n := if handled == met then i else i + 1;
          return;
        }
        i := i + 1;
      }
      return None, i;
    }

    /** What `poll_mailbox_once` does with a batch once the gate has let it. */
    method HandleBatch(batch: Batch, ghost seen: Room)
      returns (end: PollEnd, ghost lo: nat, ghost n: nat)
      requires Wired() && upstream.room.Wf() && EventsPlaced(ledger.messages) && Accounts()
      requires seen.Wf() && batch.since == ledger.Cursor() && BatchOf(seen, true, false, batch)
      modifies upstream, ledger`messages, ledger`db, ledger`cursorRow, runner`inFlight, runner`calls
      modifies this`handled, this`rowOf, this`gone, this`cursorLife, this`gate
      ensures Asked(old(gate), gate, end.Stopped?)
      ensures Evolves(old(upstream.room), upstream.room)
      ensures EventsPlaced(ledger.messages) && Accounts()
      ensures Onward(ledger.alone, old(ledger.db), ledger.db)
      ensures (end.Raised? || end.Stopped? || end.Handed?) && lo == Max(seen.base, batch.since)
      ensures RestartsOf(ledger.cursorRow) == RestartsOf(old(ledger.cursorRow))
      ensures ledger.mailboxGap == old(ledger.mailboxGap)
      ensures end.Handed? ==> end.count == |batch.messages|
      ensures HandlePhase(old(Stands()), Stands(), reader.digest, intake.isDid, end, seen, lo, n)
    {
      hide NewestAt, EventsPlaced, AllAccounted, Onward;
      OnwardStill(ledger.alone, ledger.db);
      lo, n := Max(seen.base, batch.since), 0;
      if batch.messages != [] {
        var stop;
        stop, n := HandlePage(batch.messages, seen, lo, lo + |batch.messages|);
        if ledger.Cursor() != batch.since {
          gone := gone + set m | batch.since < m <= lo :: (seen.life, m);
          cursorLife := seen.life;
        }
        if stop.Some? {
          return stop.value, lo, n;
        }
      }
      if batch.nothingReturned && batch.lastSeq.Some? {
        var alive := ledger.SetCursor(batch.lastSeq.value);
        if !alive {
          return Raised, lo, n;
        }
      }
      return Handed(|batch.messages|), lo, n;
    }

    /** What a cycle does with a batch: the messages that aged out unread are counted, and the gate's
        answer, given before the read, lets the lines be handled or not. */
    method HandOver(batch: Batch, safe: bool, ghost seen: Room)
      returns (end: PollEnd, ghost lo: nat, ghost n: nat)
      requires Wired() && upstream.room.Wf() && EventsPlaced(ledger.messages) && Accounts()
      requires seen.Wf() && batch.since == ledger.Cursor() && BatchOf(seen, safe, false, batch)
      modifies upstream, ledger`messages, ledger`db, ledger`cursorRow, ledger`mailboxGap, runner`inFlight, runner`calls
      modifies this`handled, this`rowOf, this`gone, this`cursorLife, this`gate
      ensures Asked(old(gate), gate, end.Stopped?) && (!safe ==> gate == old(gate))
      ensures Evolves(old(upstream.room), upstream.room)
      ensures EventsPlaced(ledger.messages) && Accounts()
      ensures Onward(ledger.alone, old(ledger.db), ledger.db)
      ensures RestartsOf(ledger.cursorRow) == RestartsOf(old(ledger.cursorRow))
      ensures || (Stands() == old(Stands()) && n == 0 && (end.Raised? || (!safe && end.Shut?)))
              || (safe && HandlePhase(old(Stands()), Stands(), reader.digest, intake.isDid, end, seen, lo, n)
                  && (end.Raised? || end.Stopped? || end.Handed?))
      ensures end.Handed? && old(ledger.Cursor()) > 0 && lo > old(ledger.Cursor()) && end.count > 0 ==>
                ledger.mailboxGap == Some(lo - old(ledger.Cursor()))
      ensures ledger.mailboxGap == old(ledger.mailboxGap)
              || (safe && 0 < old(ledger.Cursor()) < seen.base
                  && ledger.mailboxGap == Some(seen.base - old(ledger.Cursor())))
    {
      hide NewestAt, EventsPlaced, AllAccounted, BatchOf, Onward, HandlePhase;
      OnwardStill(ledger.alone, ledger.db);
      lo, n := 0, 0;
      GapsAreOld(batch, safe, seen);
      if batch.since > 0 && batch.firstSeq.Some? && batch.firstSeq.value > batch.since + 1 {
        var alive := ledger.RecordGap(batch.firstSeq.value - batch.since - 1);
        if !alive {
          return Raised, lo, n;
        }
      }
      if !safe {
        return Shut, lo, n;
      }
      FirstSeqIsOldest(batch, seen);
      end, lo, n := HandleBatch(batch, seen);
    }

    /** The read a cycle begins with. */
    method Look(safe: bool, now: real)
      returns (read: Option<Batch>, ghost seen: Room, ghost told: Option<nat>, ghost due: bool)
      requires Wired() && upstream.room.Wf()
      modifies upstream, ledger`cursorRow, reader`epochProbed
      ensures ReadPhase(old(Stands()), Stands(), reader.digest, due, read.None?, seen)
      ensures due <==>
                old(ledger.Cursor()) > 0
                && (old(reader.epochProbed).None? || now - old(reader.epochProbed).value >= 600.0
                    || (told.Some? && GenerationOf(old(ledger.cursorRow)).Some?
                        && told != GenerationOf(old(ledger.cursorRow))))
      ensures reader.epochProbed == old(reader.epochProbed) || (due && reader.epochProbed == Some(now))
      ensures read.Some? ==>
                if read.value.restarted then
                  RestartsOf(ledger.cursorRow) > RestartsOf(old(ledger.cursorRow))
                else
                  read.value.since == ledger.Cursor() && BatchOf(seen, safe, false, read.value)
    {
      hide NewestAt, BatchOf, Judged, Faithful, Compared;
      read, seen, told, due := reader.ReadFromCursor(safe, false, now);
    }

    /** `poll_mailbox_once`. `due` is whether this poll had to check its position, `told` the lifetime
        it was told of. */
    method PollMailboxOnce(now: real)
      returns (end: PollEnd, ghost seen: Room, ghost lo: nat, ghost n: nat,
               ghost told: Option<nat>, ghost due: bool)
      requires Wired() && upstream.room.Wf() && EventsPlaced(ledger.messages) && Accounts()
      modifies upstream, ledger, reader`epochProbed, runner`inFlight, runner`calls
      modifies this`handled, this`rowOf, this`gone, this`cursorLife, this`gate
      ensures old(gate) < gate
      ensures if gate[|old(gate)|] then !end.Shut? && Asked(old(gate), gate, end.Stopped?)
              else n == 0 && (end.Shut? || end.Raised? || end.FoundReplaced?) && |gate| == |old(gate)| + 1
      ensures Evolves(old(upstream.room), upstream.room)
      ensures EventsPlaced(ledger.messages) && Accounts()
      ensures Onward(ledger.alone, old(ledger.db), ledger.db)
      ensures Polled(old(Stands()), Stands(), reader.digest, intake.isDid, due, end, seen, lo, n)
      ensures due <==>
                old(ledger.Cursor()) > 0
                && (old(reader.epochProbed).None? || now - old(reader.epochProbed).value >= 600.0
                    || (told.Some? && GenerationOf(old(ledger.cursorRow)).Some?
                        && told != GenerationOf(old(ledger.cursorRow))))
      ensures reader.epochProbed == old(reader.epochProbed) || (due && reader.epochProbed == Some(now))
      ensures end.Handed? && old(ledger.Cursor()) > 0 && lo > old(ledger.Cursor()) && end.count > 0
              && RestartsOf(ledger.cursorRow) == RestartsOf(old(ledger.cursorRow))
              ==> ledger.mailboxGap == Some(lo - old(ledger.Cursor()))
      ensures ledger.mailboxGap == old(ledger.mailboxGap)
              || (gate[|old(gate)|] && 0 < old(ledger.Cursor()) < seen.base
                  && ledger.mailboxGap == Some(seen.base - old(ledger.Cursor())))
    {
      hide NewestAt, EventsPlaced, AllAccounted, BatchOf, Judged, Faithful, Polled, Followed, Witnessed;
      hide Onward, Compared, ReadPhase, HandlePhase;
      OnwardStill(ledger.alone, ledger.db);
      ghost var start := Stands();
      var safe := LaneIsOpen();
      var read;
      read, seen, told, due := Look(safe, now);
      ghost var mid := Stands();
      RaisedAnyway(start, mid, reader.digest, due, read.None?, seen);
      if read.None? {
        ReadingAloneIsAPoll(start, mid, reader.digest, intake.isDid, due, Raised, seen);
        return Raised, seen, 0, 0, told, due;
      }
      var batch := read.value;
      if batch.restarted {
        ReadingAloneIsAPoll(start, mid, reader.digest, intake.isDid, due, FoundReplaced, seen);
        return FoundReplaced, seen, 0, 0, told, due;
      }
      end, lo, n := HandOver(batch, safe, seen);
      if Stands() == mid && (end.Raised? || end.Shut?) && n == 0 {
        ReadingAloneIsAPoll(start, mid, reader.digest, intake.isDid, due, end, seen);
        lo := 0;
      } else {
        HalvesMakeAPoll(start, mid, Stands(), reader.digest, intake.isDid, due, end, seen, lo, n);
      }
    }
  }
}
