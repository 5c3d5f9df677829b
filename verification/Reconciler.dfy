/** The reconciler of the audit outbox: reading the owned room, marking what is there, and posting
    the copies still owed. */
module Reconciler {
  import opened Basics
  import opened Tables
  import opened Rooms
  import opened LedgerStore
  import opened RoomReader
  import opened Outbox

  datatype SyncEnd = Unowned | Unread | DiedSyncing | Synced

  /** What a sync went by: the position it read from, the room as it read it, the lifetime it was
      told of, whether its check was due, and the room as it left it. */
  datatype Sight = Sight(since: nat, seen: Room, told: Option<nat>, due: bool, left: Room)

  class OutboxNode {
    const ledger: Ledger
    const upstream: Upstream
    const reader: Reader
    const author: Author
    var rows: Audit
    /** The last lifetime of the room of which everything up to the cursor has been read. */
    ghost var readLife: nat
    /** Whether any sync met a copy hidden by a later one of its job's. */
    ghost var shadowed: bool
    /** What `owns_result_room` has answered so far. */
    ghost var owned: seq<bool>

    constructor (reader: Reader, author: Author)
      requires author.Legible() && reader.upstream.room.Wf() && reader.ledger.Cursor() == 0
      ensures this.reader == reader && this.author == author && rows == map[]
      ensures Valid() && readLife == upstream.room.life && !shadowed
    {
      this.ledger, this.upstream, this.reader, this.author := reader.ledger, reader.upstream, reader, author;
      rows, readLife, shadowed, owned := map[], reader.upstream.room.life, false, [];
    }

    ghost predicate Valid()
      reads this`rows, this`readLife, this`shadowed, upstream, ledger`cursorRow
    {
      Wired() && upstream.room.Wf() && InStep(author, Stands())
    }

    ghost function Stands(): Point
      reads this`rows, this`readLife, this`shadowed, upstream, ledger`cursorRow
    {
      Point(rows, upstream.room, ledger.Cursor(), readLife, shadowed)
    }

    ghost predicate Wired() {
      reader.ledger == ledger && reader.upstream == upstream && author.Legible()
    }

    /** `owns_result_room`; what it looks at is in module Lease. */
    method OwnsResultRoom() returns (owns: bool)
      modifies this`owned
      ensures owned == old(owned) + [owns]
    {
      owns := *;
      owned := owned + [owns];
    }

    method MarkObserved(observed: map<JobId, (nat, string)>) returns (alive: bool)
      modifies this`rows
      ensures rows == if alive then MarkPublished(old(rows), observed) else old(rows)
    {
      var marked, rest := rows, observed.Keys;
      while rest != {}
        invariant rest <= observed.Keys && marked.Keys == rows.Keys
        invariant forall job | job in rows ::
                    marked[job] == if job in rest then rows[job] else MarkPublished(rows, observed)[job]
        decreases rest
      {
        var job :| job in rest;
        var (at, hash) := observed[job];
        if job in marked && marked[job].hash == hash && !marked[job].state.Published? {
          marked := marked[job := marked[job].(auditSeq := Some(at), state := Published)];
        }
        rest := rest - {job};
      }
      alive := *;
      if alive {
        rows := marked;
        assert rows == MarkPublished(old(rows), observed);
      }
    }

    /** The read a sync makes, and the one it makes again when the first found the room replaced:
        that one starts from the first message, so it cannot find so a second time. */
    method ReadOwnedRoom(now: real)
      returns (batch: Option<Batch>, ghost seen: Room, ghost told: Option<nat>, ghost due: bool)
      requires Wired() && upstream.room.Wf()
      modifies upstream, ledger`cursorRow, reader`epochProbed
      ensures Evolves(old(upstream.room), seen) && Evolves(seen, upstream.room)
      ensures ledger.Cursor() == if RestartsOf(ledger.cursorRow) > RestartsOf(old(ledger.cursorRow))
                                 then 0 else old(ledger.Cursor())
      ensures batch.Some? ==>
                && batch.value.messages == Past(seen, batch.value.since)
                && batch.value.since == ledger.Cursor()
                && (batch.value.nothingReturned && batch.value.lastSeq.Some? ==>
                      batch.value.lastSeq.value <= batch.value.since)
      ensures Kindly(upstream.room, old(upstream.room), ledger.messages, old(ledger.cursorRow),
                     ledger.cursorRow, batch.Some?, due)
      ensures due <==>
                old(ledger.Cursor()) > 0
                && (old(reader.epochProbed).None? || now - old(reader.epochProbed).value >= 600.0
                    || (told.Some? && GenerationOf(old(ledger.cursorRow)).Some?
                        && told != GenerationOf(old(ledger.cursorRow))))
    {
      hide Faithful, Judged, Compared;
      batch, seen, told, due := reader.ReadFromCursor(true, true, now);
      if batch.Some? && batch.value.restarted {
        ghost var toldAgain, dueAgain;
        batch, seen, toldAgain, dueAgain := reader.ReadFromCursor(true, true, now);
      }
    }

    /** A room that kept its numbering is not taken for another, one that stood still is judged as
        module RoomReader judges it, and a check that was due has compared what it could. */
    ghost predicate Kindly(
        room: Room, before: Room, messages: seq<MessageRow>,
        rowBefore: Option<CursorRow>, row: Option<CursorRow>, read: bool, due: bool)
    {
      && (room.life == before.life && Faithful(reader.digest, messages, before, CursorOf(rowBefore)) ==>
            RestartsOf(row) == RestartsOf(rowBefore))
      && (room == before && read ==>
            Judged(reader.digest, messages, room, CursorOf(rowBefore),
                   RestartsOf(row) > RestartsOf(rowBefore), due))
      && (due && read && RestartsOf(row) <= RestartsOf(rowBefore) ==>
            Compared(reader.digest, messages, before, room, CursorOf(rowBefore)))
    }

    method Observe(messages: seq<Record>) returns (observed: map<JobId, (nat, string)>)
      ensures observed == Observed(author, messages)
    {
      observed := map[];
      for i := 0 to |messages|
        invariant observed == Observed(author, messages[..i])
      {
        assert messages[..i + 1][..i] == messages[..i];
        var (record, copy) := (messages[i], author.Own(messages[i].message));
        if copy.Some? {
          observed := observed[copy.value.job := (record.at, copy.value.hash)];
        }
      }
      assert messages[..|messages|] == messages;
    }

    /** The outbox, were the room what it was when it was read. */
    ghost function AtReading(seen: Room): Point
      reads this`rows, this`readLife, this`shadowed, upstream, ledger`cursorRow
    {
      Stands().(room := seen)
    }

    /** What a sync makes of what it read: the marks, and then the cursor at the last message. */
    method MarkAndMove(batch: Batch, ghost seen: Room) returns (alive: bool)
      requires seen.Wf() && batch.messages == Past(seen, batch.since) && batch.since == ledger.Cursor()
      requires batch.nothingReturned && batch.lastSeq.Some? ==> batch.lastSeq.value <= batch.since
      modifies ledger`cursorRow, this`rows, this`readLife, this`shadowed
      ensures RestartsOf(ledger.cursorRow) == RestartsOf(old(ledger.cursorRow))
      ensures rows == old(rows) || rows == Marked(author, old(AtReading(seen)))
      ensures alive ==> Follows(author, old(AtReading(seen)), Syncs, AtReading(seen))
      ensures !alive ==> AtReading(seen) == old(AtReading(seen)).(rows := rows)
    {
      hide MarkPublished, Observed, NoneShadowed, Past;
      ghost var at := AtReading(seen);
      if batch.messages != [] {
        LastPast(seen, batch.since);
      }
      var observed := Observe(batch.messages);
      alive := MarkObserved(observed);
      if !alive {
        return;
      }
      if batch.messages != [] {
        alive := ledger.SetCursor(batch.messages[|batch.messages| - 1].at);
      } else if batch.nothingReturned && batch.lastSeq.Some? {
        alive := ledger.SetCursor(batch.lastSeq.value);
      }
      if alive {
        readLife := if batch.since == 0 || readLife == seen.life then seen.life else readLife;
        shadowed := shadowed || !NoneShadowed(author, at);
      }
    }

    lemma {:induction false} WhatItsCheckSaw(
        before: Room, rowBefore: Option<CursorRow>, rowsBefore: Audit, sight: Sight)
      requires Evolves(before, sight.seen) && Evolves(sight.seen, sight.left) && sight.due
      requires Kindly(sight.left, before, ledger.messages, rowBefore, ledger.cursorRow, true, true)
      requires sight.since == if RestartsOf(ledger.cursorRow) > RestartsOf(rowBefore) then 0 else CursorOf(rowBefore)
      ensures (sight.left.life == before.life && sight.left.base < CursorOf(rowBefore)
               && Differs(reader.digest, ledger.messages, before, CursorOf(rowBefore))) ==> sight.since == 0
      ensures sight.left == before ==>
                && Past(sight.seen, sight.since)
                   == Past(before, StartOf(reader.digest, ledger.messages, before, CursorOf(rowBefore)))
                && (MarkedThrough(author, MarkPublished(rowsBefore, Observed(author, Past(sight.seen, sight.since))),
                                  before, |before.log|)
                    <==> forall job | job in rowsBefore ::
                           !Overlooked(reader.digest, ledger.messages, author, rowsBefore, before,
                                       CursorOf(rowBefore), job))
    {
      hide Judged, Compared, MarkPublished, Observed, Differs, MarkedThrough, Faithful, Overlooked, StartOf, Past;
      var replaced := RestartsOf(ledger.cursorRow) > RestartsOf(rowBefore);
      if !replaced && sight.left.life == before.life
         && Differs(reader.digest, ledger.messages, before, CursorOf(rowBefore)) {
        SeenToDiffer(reader.digest, ledger.messages, before, sight.left, CursorOf(rowBefore));
      }
      if sight.left == before {
        QuietThroughout(sight.seen, before);
        DueSyncMarksExactly(reader.digest, ledger.messages, author, rowsBefore, before, CursorOf(rowBefore), replaced);
      }
    }

    /** `sync_owned_room`. What a completed sync has marked is exactly what the last copy of each job
        past the position it read from vouches for; that position is the stored cursor or, when the
        room was found replaced, the room's start. A due check sends it there whenever the message
        at the cursor is another than the one on record and stays until it is compared. */
    method SyncOwnedRoom(now: real) returns (end: SyncEnd, ghost sight: Sight)
      requires Valid()
      modifies upstream, ledger`cursorRow, reader`epochProbed, this`rows, this`readLife, this`shadowed, this`owned
      ensures owned == old(owned) + [!end.Unowned?]
      ensures end.Unowned? ==>
                upstream.room == old(upstream.room) && ledger.cursorRow == old(ledger.cursorRow)
                && reader.epochProbed == old(reader.epochProbed)
      ensures Evolves(old(upstream.room), sight.seen) && Evolves(sight.seen, upstream.room)
      ensures sight.left == upstream.room
      ensures Valid()
      ensures end.Unowned? || end.Unread? ==> rows == old(rows)
      ensures rows == old(rows) || rows == MarkPublished(old(rows), Observed(author, Past(sight.seen, sight.since)))
      ensures !end.Synced? ==> readLife == old(readLife) && shadowed == old(shadowed)
      ensures end.Synced? ==>
                && sight.since == (if RestartsOf(ledger.cursorRow) > RestartsOf(old(ledger.cursorRow))
                                   then 0 else old(ledger.Cursor()))
                && Follows(author, Point(old(rows), sight.seen, sight.since, old(readLife), old(shadowed)), Syncs,
                           Point(rows, sight.seen, ledger.Cursor(), readLife, shadowed))
      ensures old(shadowed) ==> shadowed
      ensures end.Synced? && readLife == sight.seen.life && !shadowed ==>
                MarkedThrough(author, rows, sight.seen, |sight.seen.log|)
      ensures old(readLife) == upstream.room.life ==> readLife == upstream.room.life
      ensures Kindly(upstream.room, old(upstream.room), ledger.messages, old(ledger.cursorRow),
                     ledger.cursorRow, end.Synced?, sight.due)
      ensures !end.Unowned? ==>
                (sight.due <==>
                   old(ledger.Cursor()) > 0
                   && (old(reader.epochProbed).None? || now - old(reader.epochProbed).value >= 600.0
                       || (sight.told.Some? && GenerationOf(old(ledger.cursorRow)).Some?
                           && sight.told != GenerationOf(old(ledger.cursorRow)))))
      ensures end.Synced? && sight.due && upstream.room.life == old(upstream.room.life)
              && upstream.room.base < old(ledger.Cursor())
              && Differs(reader.digest, ledger.messages, old(upstream.room), old(ledger.Cursor())) ==>
                sight.since == 0 && readLife == sight.seen.life
      ensures end.Synced? && sight.due && upstream.room == old(upstream.room) ==>
                && Past(sight.seen, sight.since)
                   == Past(upstream.room,
                           StartOf(reader.digest, ledger.messages, upstream.room, old(ledger.Cursor())))
                && (MarkedThrough(author, rows, upstream.room, |upstream.room.log|)
                    <==> forall job | job in old(rows) ::
                           !Overlooked(reader.digest, ledger.messages, author, old(rows), upstream.room,
                                       old(ledger.Cursor()), job))
    {
      hide Faithful, Judged, Compared, MarkPublished, Observed, Differs, MarkedThrough, InStep;
      hide NoneShadowed, Overlooked, StartOf;
      ghost var before := Stands();
      sight := Sight(0, upstream.room, None, false, upstream.room);
      var owns := OwnsResultRoom();
      if !owns {
        return Unowned, sight;
      }
      var read;
      ghost var seen, told, due;
      read, seen, told, due := ReadOwnedRoom(now);
      sight := Sight(ledger.Cursor(), seen, told, due, upstream.room);
      ghost var at := AtReading(seen);
      if read.None? {
        StepKept(author, before, at, RoomMoves, at, Stands());
        return Unread, sight;
      }
      var alive := MarkAndMove(read.value, seen);
      if !alive {
        StepKept(author, before, at, if rows == at.rows then RoomMoves else Marks, at.(rows := rows), Stands());
        return DiedSyncing, sight;
      }
      StepKept(author, before, at, Syncs, AtReading(seen), Stands());
      if due {
        WhatItsCheckSaw(old(upstream.room), old(ledger.cursorRow), old(rows), sight);
      }
      return Synced, sight;
    }

    /** The table is where `path`, as reconciliation drives it, takes it from `start`. */
    ghost predicate Tracked(start: Audit, path: seq<AuditAction>)
      reads this`rows
    {
      DrivenRun(start, path) && rows == WriteAll(start, path)
    }

    /** New receipts owed, recorded by the lanes while this one waits. No copy of a new receipt can
        be in the room yet. */
    method Arrivals(ghost start: Audit, ghost path: seq<AuditAction>)
      returns (ghost walked: seq<AuditAction>)
      requires Valid() && Tracked(start, path)
      modifies this`rows
      ensures Tracked(start, walked) && LandedIn(walked) == LandedIn(path)
      ensures Valid()
      ensures forall job | job in old(rows) :: job in rows && rows[job] == old(rows)[job]
    {
      hide InStep, DrivenRun, WriteAll, Unheard;
      walked := path;
      var more: nat := *;
      while more > 0
        invariant Tracked(start, walked) && LandedIn(walked) == LandedIn(path)
        invariant Valid()
        invariant forall job | job in old(rows) :: job in rows && rows[job] == old(rows)[job]
        decreases more
      {
        var job: JobId := *;
        var row: AuditRow := *;
        var action := Arrived(job, row.(state := if row.internal then Published else Owed,
                                                attempts := 0, auditSeq := None));
        if Unheard(author, upstream.room, Copy(job, row.hash)) {
          Extend(start, walked, action);
          ghost var before, stood := walked, Stands();
          rows, walked := Write(rows, action), walked + [action];
          assert walked[..|before|] == before;
          StaysInStep(author, stood, Writes(action), Stands());
        }
        more := more - 1;
      }
    }

    /** `publish` of one copy to the owned room: the sink's own guard, the post, and its record. */
    method SendCopy(copy: Copy)
      returns (alive: bool, seqNo: Option<nat>, ghost posted: bool, ghost wrote: Room)
      requires Valid()
      modifies upstream, ledger`messages, this`owned
      ensures owned == old(owned) + [posted]
      ensures !posted ==>
                seqNo.None? && upstream.room == old(upstream.room) && ledger.messages == old(ledger.messages)
      ensures Evolves(old(upstream.room), wrote) && Evolves(wrote, upstream.room)
      ensures Valid()
      ensures seqNo.Some? ==>
                && posted && 0 < seqNo.value <= |wrote.log|
                && wrote.log[seqNo.value - 1] == Message(author.did, author.render(copy))
                && author.Own(wrote.log[seqNo.value - 1]) == Some(copy)
                && (alive ==> NewestAt(ledger.messages, seqNo.value)
                              == Some(FingerprintOf(reader.digest, wrote.log[seqNo.value - 1])))
      ensures seqNo.None? ==> ledger.messages == old(ledger.messages)
    {
      hide InStep;
      ghost var stood := Stands();
      alive, seqNo, posted, wrote := true, None, false, upstream.room;
      StepKept(author, stood, stood, RoomMoves, stood, Stands());
      var owns := OwnsResultRoom();
      if owns {
        posted := true;
        var message := Message(author.did, author.render(copy));
        seqNo, wrote := upstream.PostMessage(message);
        if seqNo.Some? {
          var nonce: nat := *;
          alive := ledger.RecordMessage(MessageRow(Outbound(nonce), seqNo.value,
                                                   FingerprintOf(reader.digest, message)));
        }
        StepKept(author, stood, stood, RoomMoves, stood.(room := wrote), Stands());
      }
    }

    /** `publish_audit_copy`: refused at the door it counts nothing; posted or refused at the
        sink, it is recorded as landed where it stands or counted as failed. `wrote` is the room
        as the post left it. */
    method PublishAuditCopy(job: JobId, ghost start: Audit, ghost path: seq<AuditAction>)
      returns (alive: bool, landed: bool, ghost posted: bool, ghost refused: bool,
               ghost wrote: Room, ghost walked: seq<AuditAction>)
      requires Valid()
      requires Tracked(start, path) && job in rows && Awaiting(rows[job])
      modifies upstream, ledger`messages, this`rows, this`owned
      ensures owned == old(owned) + if refused then [false] else [true, posted]
      ensures refused || !posted ==>
                upstream.room == old(upstream.room) && ledger.messages == old(ledger.messages)
      ensures Valid()
      ensures Evolves(old(upstream.room), wrote) && Evolves(wrote, upstream.room)
      ensures Tracked(start, walked) && LandedIn(walked) == LandedIn(path) + if landed then 1 else 0
      ensures forall other | other in old(rows) && other != job ::
                other in rows && rows[other] == old(rows)[other]
      ensures job in rows && (refused ==> alive && !posted && !landed)
      ensures landed ==>
                && alive && posted && rows[job].auditSeq.Some?
                && 0 < rows[job].auditSeq.value <= |wrote.log|
                && author.Own(wrote.log[rows[job].auditSeq.value - 1])
                   == Some(Copy(job, old(rows)[job].hash))
                && rows[job] == old(rows)[job].(state := Published, auditSeq := rows[job].auditSeq)
      ensures landed ==>
                NewestAt(ledger.messages, rows[job].auditSeq.value)
                == Some(FingerprintOf(reader.digest, wrote.log[rows[job].auditSeq.value - 1]))
      ensures alive && !landed ==>
                rows[job] == if refused then old(rows)[job] else FailedOnce(old(rows)[job])
    {
      hide Driven, Write, DrivenRun, WriteAll, LandedIn, FailedOnce, InStep, NewestAt, Awaiting, Tracked;
      walked, posted, landed, refused, wrote := path, false, false, false, upstream.room;
      var owns := OwnsResultRoom();
      if !owns {
        return true, false, false, true, wrote, walked;
      }
      var seqNo;
      alive, seqNo, posted, wrote := SendCopy(Copy(job, rows[job].hash));
      if !alive {
        return false, false, posted, false, wrote, walked;
      }
      alive, landed, walked := RecordOutcome(job, seqNo, start, walked);
    }

    /** `set_audit_seq` or `note_audit_attempt`, after whatever has arrived meanwhile. */
    method RecordOutcome(job: JobId, seqNo: Option<nat>, ghost start: Audit, ghost path: seq<AuditAction>)
      returns (alive: bool, landed: bool, ghost walked: seq<AuditAction>)
      requires Valid() && Tracked(start, path) && job in rows && Awaiting(rows[job])
      modifies this`rows
      ensures Valid() && Tracked(start, walked)
      ensures landed <==> alive && seqNo.Some?
      ensures LandedIn(walked) == LandedIn(path) + if landed then 1 else 0
      ensures job in rows && forall other | other in old(rows) && other != job ::
                other in rows && rows[other] == old(rows)[other]
      ensures landed ==> rows[job] == old(rows)[job].(state := Published, auditSeq := seqNo)
      ensures alive && !landed ==> rows[job] == FailedOnce(old(rows)[job])
    {
      hide Driven, Write, DrivenRun, WriteAll, LandedIn, FailedOnce, InStep, Awaiting;
      landed := false;
      walked := Arrivals(start, path);
      alive := *;
      if alive {
        landed := seqNo.Some?;
        walked := Count(job, if landed then Landed(job, seqNo.value) else AttemptFailed(job), start, walked);
      }
    }

    method Count(job: JobId, action: AuditAction, ghost start: Audit, ghost path: seq<AuditAction>)
      returns (ghost walked: seq<AuditAction>)
      requires Valid() && Tracked(start, path) && job in rows && Awaiting(rows[job])
      requires (action.Landed? || action.AttemptFailed? || action.Unpublishable?) && action.job == job
      modifies this`rows
      ensures Valid() && Tracked(start, walked)
      ensures LandedIn(walked) == LandedIn(path) + if action.Landed? then 1 else 0
      ensures rows.Keys == old(rows).Keys
      ensures forall other | other in rows && other != job :: rows[other] == old(rows)[other]
      ensures job in rows
      ensures action.Landed? ==>
                rows[job] == old(rows)[job].(auditSeq := Some(action.seqNo), state := Published)
      ensures action.AttemptFailed? ==> rows[job] == FailedOnce(old(rows)[job])
      ensures action.Unpublishable? ==> rows[job] == old(rows)[job].(state := Quarantined)
    {
      hide DrivenRun, WriteAll, InStep;
      ghost var stood := Stands();
      Extend(start, path, action);
      rows, walked := Write(rows, action), path + [action];
      assert walked[..|path|] == path;
      StaysInStep(author, stood, Writes(action), Stands());
    }

    /** `reconcile_audit_copies`. Whatever it does to the table is a run that `OutboxDrains` and
        `NeverAnnouncedAgain` speak of; it takes up the receipts that have failed least; it posts a
        copy the room held exactly when the sync missed it; and it posts none after a sync in a
        lifetime read from its start. */
    method ReconcileAuditCopies(now: real)
      returns (end: SyncEnd, alive: bool, landed: nat, ghost sight: Sight, ghost synced: Audit,
               ghost path: seq<AuditAction>, ghost picked: seq<JobId>, ghost posted: set<JobId>)
      requires Valid()
      modifies upstream, ledger`cursorRow, ledger`messages, reader`epochProbed
      modifies this`rows, this`readLife, this`shadowed, this`owned
      ensures Valid() && (old(readLife) == upstream.room.life ==> readLife == upstream.room.life)
      ensures Evolves(old(upstream.room), sight.seen) && Evolves(sight.seen, sight.left)
              && Evolves(sight.left, upstream.room)
      ensures old(shadowed) ==> shadowed
      ensures Tracked(old(rows), path) && landed == LandedIn(path)
      ensures !end.DiedSyncing? ==> synced == MarkPublished(old(rows), Observed(author, Taken(end, sight)))
      ensures !end.DiedSyncing? ==> Selected(synced, 3, picked)
      ensures forall job | job in posted :: job in picked && job in synced && Awaiting(synced[job])
      ensures alive ==> forall k | 0 <= k < |picked| ::
                picked[k] in synced && picked[k] in rows && Dealt(synced[picked[k]], rows[picked[k]])
      ensures !end.DiedSyncing? ==> forall job | job in posted ::
                job in old(rows)
                && (Unheard(author, sight.seen, Copy(job, synced[job].hash))
                    <==> !Missed(author, old(rows), sight.seen, Taken(end, sight), job))
      ensures !end.Unowned? ==>
                (sight.due <==>
                   old(ledger.Cursor()) > 0
                   && (old(reader.epochProbed).None? || now - old(reader.epochProbed).value >= 600.0
                       || (sight.told.Some? && GenerationOf(old(ledger.cursorRow)).Some?
                           && sight.told != GenerationOf(old(ledger.cursorRow)))))
      ensures end.Synced? && sight.due && sight.left == old(upstream.room) ==> forall job | job in posted ::
                job in old(rows)
                && (Unheard(author, old(upstream.room), Copy(job, synced[job].hash))
                    <==> !Overlooked(reader.digest, old(ledger.messages), author, old(rows),
                                     old(upstream.room), old(ledger.Cursor()), job))
      ensures end.Synced? && readLife == sight.seen.life && !shadowed ==> forall job | job in posted ::
                Unheard(author, sight.seen, Copy(job, synced[job].hash))
    {
      hide Driven, Write, DrivenRun, WriteAll, MarkPublished, Observed, Selected, InStep;
      hide MarkedThrough, Unheard, LandedIn, Missed, Kindly, Past, NoneShadowed, StartOf, Tracked, Dealt;
      alive, landed, picked, posted := true, 0, [], {};
      ReadLifeIsPast(author, Stands());
      end, sight := SyncOwnedRoom(now);
      path := Tracking(old(rows), sight);
      synced := rows;
      if end.DiedSyncing? {
        alive := false;
        return;
      }
      NothingObserved(author, old(rows));
      var queue := ReceiptsAwaiting(rows, RECONCILE_LIMIT);
      picked := queue;
      PickedAreOwed(synced, RECONCILE_LIMIT, picked);
      alive, landed, path, posted := PostOwed(queue, old(rows), path);
      forall job | job in posted
        ensures job in old(rows)
                && (Unheard(author, sight.seen, Copy(job, synced[job].hash))
                    <==> !Missed(author, old(rows), sight.seen, Taken(end, sight), job))
      {
        StillOwed(author, old(rows), sight.seen, Taken(end, sight), job);
      }
      if sight.left == old(upstream.room) {
        QuietThroughout(sight.seen, sight.left);
      }
      if end.Synced? && readLife == sight.seen.life && !shadowed {
        MarkedMeansUnheard(author, synced, sight.seen);
      }
    }

    /** The copies taken up, one after another. */
    method PostOwed(queue: seq<JobId>, ghost start: Audit, ghost path: seq<AuditAction>)
      returns (alive: bool, landed: nat, ghost walked: seq<AuditAction>, ghost posted: set<JobId>)
      requires Valid() && Tracked(start, path)
      requires forall k | 0 <= k < |queue| :: queue[k] in rows && Awaiting(rows[queue[k]])
      requires forall i, k | 0 <= i < k < |queue| :: queue[i] != queue[k]
      modifies upstream, ledger`messages, this`rows, this`owned
      ensures Valid() && Evolves(old(upstream.room), upstream.room)
      ensures Tracked(start, walked) && LandedIn(walked) == LandedIn(path) + landed
      ensures alive ==> forall k | 0 <= k < |queue| ::
                queue[k] in rows && Dealt(old(rows)[queue[k]], rows[queue[k]])
      ensures forall job | job in posted :: job in queue
    {
      hide DrivenRun, WriteAll, InStep, LandedIn;
      alive, landed, walked, posted := true, 0, path, {};
      var i := 0;
      while i < |queue| && alive
        invariant i <= |queue| && Valid() && Evolves(old(upstream.room), upstream.room)
        invariant Tracked(start, walked) && LandedIn(walked) == LandedIn(path) + landed
        invariant forall k | i <= k < |queue| ::
                    queue[k] in rows && rows[queue[k]] == old(rows)[queue[k]]
        invariant alive ==> forall k | 0 <= k < i ::
                    queue[k] in rows && Dealt(old(rows)[queue[k]], rows[queue[k]])
        invariant forall job | job in posted :: job in queue
      {
        var job := queue[i];
        ghost var writes := false;
        if !rows[job].sound {
          walked := Count(job, Unpublishable(job), start, walked);
        } else {
          var lands;
          ghost var refused, wrote;
          alive, lands, writes, refused, wrote, walked := PublishAuditCopy(job, start, walked);
          landed := landed + if lands then 1 else 0;
        }
        posted := if writes then posted + {job} else posted;
        i := i + 1;
      }
    }

    /** Pass after pass, with whatever the lanes and the room do in between, and with restarts of the
        process. `again` are the copies a pass posted though the room held them when the pass's
        completed sync read it: none while the room keeps its numbering and nothing is shadowed. */
    method RunReconciler(passes: nat) returns (ghost path: seq<AuditAction>, ghost again: set<JobId>)
      requires Valid()
      modifies upstream, ledger`cursorRow, ledger`messages, reader`epochProbed
      modifies this`rows, this`readLife, this`shadowed, this`owned
      ensures Valid() && Tracked(old(rows), path)
      ensures old(readLife) == upstream.room.life ==> readLife == upstream.room.life
      ensures old(readLife) == upstream.room.life && !shadowed ==> again == {}
    {
      hide InStep, Unheard, DrivenRun, WriteAll, Selected, MarkPublished, Observed, Missed, Overlooked;
      path, again := [], {};
      ReadLifeIsPast(author, Stands());
      NoStepsYet(rows);
      for pass := 0 to passes
        invariant Valid() && Tracked(old(rows), path) && Evolves(old(upstream.room), upstream.room)
        invariant old(readLife) == upstream.room.life ==> readLife == upstream.room.life
        invariant old(readLife) == upstream.room.life && !shadowed ==> again == {}
      {
        ghost var stood := Stands();
        upstream.Drift();
        StepKept(author, stood, stood, RoomMoves, stood, Stands());
        path := Arrivals(old(rows), path);
        var now: real := *;
        ghost var between := rows;
        ghost var sight, synced, steps, picked, posted;
        var end, alive, landed;
        end, alive, landed, sight, synced, steps, picked, posted := ReconcileAuditCopies(now);
        RunsJoin(old(rows), path, steps);
        path := path + steps;
        again := again + Repeated(author, end, sight, synced, posted);
        if !alive {
          reader.epochProbed := None;
        }
      }
    }

    lemma {:induction false} Tracking(start: Audit, sight: Sight) returns (path: seq<AuditAction>)
      requires sight.seen.Wf()
      requires rows == start || rows == MarkPublished(start, Observed(author, Past(sight.seen, sight.since)))
      ensures Tracked(start, path) && LandedIn(path) == 0
    {
      path := [];
      if rows != start {
        var action := AuditAction.Observe(Observed(author, Past(sight.seen, sight.since)));
        Extend(start, path, action);
        path := path + [action];
      }
    }
  }

  /** What a sync took into account: nothing, when it did not get to read the room. */
  ghost function Taken(end: SyncEnd, sight: Sight): seq<Record>
    requires sight.seen.Wf()
  {
    if end.Synced? then Past(sight.seen, sight.since) else []
  }

  ghost function Repeated(author: Author, end: SyncEnd, sight: Sight, synced: Audit, posted: set<JobId>): set<JobId>
    requires posted <= synced.Keys
  {
    set job | job in posted && end.Synced? && !Unheard(author, sight.seen, Copy(job, synced[job].hash))
  }

  lemma NoStepsYet(rows: Audit)
    ensures DrivenRun(rows, []) && WriteAll(rows, []) == rows
  {
  }

  lemma {:induction false} RunsJoin(rows: Audit, first: seq<AuditAction>, rest: seq<AuditAction>)
    requires DrivenRun(rows, first) && DrivenRun(WriteAll(rows, first), rest)
    ensures DrivenRun(rows, first + rest)
    ensures WriteAll(rows, first + rest) == WriteAll(WriteAll(rows, first), rest)
    decreases |rest|
  {
    hide Write, Driven;
    if rest == [] {
      assert first + rest == first;
    } else {
      RunsJoin(rows, first, rest[..|rest| - 1]);
      Extend(rows, first + rest[..|rest| - 1], rest[|rest| - 1]);
      assert first + rest[..|rest| - 1] + [rest[|rest| - 1]] == first + rest;
    }
  }

  lemma NothingObserved(author: Author, rows: Audit)
    ensures MarkPublished(rows, Observed(author, [])) == rows
  {
  }

  /** A receipt still owed after a sync has its copy in the room exactly when the sync missed it. */
  lemma {:induction false} StillOwed(author: Author, rows: Audit, r: Room, records: seq<Record>, job: JobId)
    requires var synced := MarkPublished(rows, Observed(author, records));
             job in synced && !synced[job].state.Published?
    ensures job in rows
    ensures Unheard(author, r, Copy(job, MarkPublished(rows, Observed(author, records))[job].hash))
            <==> !Missed(author, rows, r, records, job)
  {
    hide Observed, VouchedFor, Unheard;
    MarkingKeepsKeys(rows, Observed(author, records));
    MarkedIsVouchedFor(author, rows, records, job);
  }

  lemma ReadLifeIsPast(author: Author, p: Point)
    requires InStep(author, p)
    ensures p.readLife <= p.room.life
  {
  }

  lemma LastPast(r: Room, since: nat)
    requires r.Wf() && Past(r, since) != []
    ensures Past(r, since)[|Past(r, since)| - 1].at == |r.log|
  {
  }

  /** The room moves on, is found replaced or not, a step of the outbox is made, the room moves on. */
  lemma {:induction false} StepKept(author: Author, before: Point, at: Point, e: Event, done: Point, after: Point)
    requires InStep(author, before) && Follows(author, at, e, done)
    requires Evolves(before.room, at.room) && Evolves(done.room, after.room)
    requires at == before.(room := at.room, cursor := at.cursor) && at.cursor in {before.cursor, 0}
    requires after == done.(room := after.room)
    ensures InStep(author, after)
    ensures e.Syncs? && done.readLife == done.room.life && !done.shadowed ==>
              MarkedThrough(author, done.rows, done.room, |done.room.log|)
    ensures before.readLife == after.room.life ==> after.readLife == after.room.life
  {
    hide MarkedThrough, Marked, NoneShadowed, Driven, Write;
    var moved := before.(room := at.room);
    StaysInStep(author, before, RoomMoves, moved);
    StaysInStep(author, moved, Restarts, moved.(cursor := 0));
    StaysInStep(author, at, e, done);
    StaysInStep(author, done, RoomMoves, after);
  }

  /** One failure more; the fifth takes the row out of the queue. */
  ghost function FailedOnce(row: AuditRow): AuditRow {
    if row.attempts < 4 then row.(attempts := row.attempts + 1)
    else row.(attempts := row.attempts + 1, state := Quarantined)
  }

  /** What a pass may have made of a row it took up: an unsound one is quarantined; a sound one
      is published, counted as failed, or left alone because the room is not this node's. */
  ghost predicate Dealt(before: AuditRow, after: AuditRow) {
    if !before.sound then after == before.(state := Quarantined)
    else
      || after == before || after == FailedOnce(before)
      || (after.auditSeq.Some? && after == before.(state := Published, auditSeq := after.auditSeq))
  }

  function LandedIn(path: seq<AuditAction>): nat {
    if path == [] then 0
    else LandedIn(path[..|path| - 1]) + if path[|path| - 1].Landed? then 1 else 0
  }

  lemma {:induction false} PickedAreOwed(rows: Audit, limit: nat, picked: seq<JobId>)
    requires Selected(rows, limit, picked)
    ensures forall i | 0 <= i < |picked| :: picked[i] in rows && Awaiting(rows[picked[i]])
    ensures forall i, k | 0 <= i < k < |picked| :: picked[i] != picked[k]
  {
  }
}
