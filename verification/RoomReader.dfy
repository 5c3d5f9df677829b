/** Reading one room from a stored cursor: is it still the room the cursor was read in, and
    what does it hold past the cursor? */
module RoomReader {
  import opened Basics
  import opened Rooms
  import opened LedgerStore

  const ROOM_READ_LIMIT := 200
  const ROOM_EPOCH_PROBE_SECONDS := 600.0

  /** The message numbered `n` among `records`, if one is: the first such. */
  function Find(records: seq<Record>, n: nat): Option<Message> {
    if records == [] then None
    else if records[0].at == n then Some(records[0].message)
    else Find(records[1..], n)
  }

  lemma {:induction false} FindInSlice(log: seq<Message>, lo: nat, hi: nat, n: nat)
    requires lo <= hi <= |log|
    ensures Find(Slice(log, lo, hi), n) == if lo < n <= hi then Some(log[n - 1]) else None
    decreases hi - lo
  {
    if lo < hi {
      assert Slice(log, lo, hi)[1..] == Slice(log, lo + 1, hi);
      FindInSlice(log, lo + 1, hi, n);
    }
  }

  /** The records past the cursor. */
  function After(records: seq<Record>, since: nat): seq<Record> {
    if records == [] then []
    else (if records[0].at > since then [records[0]] else []) + After(records[1..], since)
  }

  lemma AfterFirst(record: Record, rest: seq<Record>, since: nat)
    ensures After([record] + rest, since)
            == if record.at > since then [record] + After(rest, since) else After(rest, since)
    ensures After([], since) == []
  {
    assert ([record] + rest)[1..] == rest;
    assert [] + After(rest, since) == After(rest, since);
  }

  lemma SliceFromFirst(log: seq<Message>, lo: nat, hi: nat)
    requires lo < hi <= |log|
    ensures Slice(log, lo, hi) == [Record(lo + 1, log[lo])] + Slice(log, lo + 1, hi)
  {
  }

  lemma {:induction false} AfterInSlice(log: seq<Message>, lo: nat, hi: nat, since: nat)
    requires lo <= hi <= |log|
    ensures After(Slice(log, lo, hi), since)
            == if Max(lo, since) <= hi then Slice(log, Max(lo, since), hi) else []
    decreases hi - lo
  {
    hide Slice, After;
    if lo == hi {
      AfterFirst(Record(0, Message("", "")), [], since);
    } else {
      SliceFromFirst(log, lo, hi);
      AfterFirst(Record(lo + 1, log[lo]), Slice(log, lo + 1, hi), since);
      AfterInSlice(log, lo + 1, hi, since);
      assert Max(lo + 1, since) == if lo < since then since else lo + 1;
    }
  }

  function FingerprintOf(digest: string -> string, m: Message): Fingerprint {
    Fingerprint(m.from, digest(m.text))
  }

  /** Two messages leave the same witness exactly when the same key wrote them and their texts hash
      alike. */
  lemma WitnessesTell(digest: string -> string, m: Message, n: Message)
    ensures FingerprintOf(digest, m) == FingerprintOf(digest, n) <==>
            m.from == n.from && digest(m.text) == digest(n.text)
  {
  }

  /** The witness invariant: the cursor is a position the room reaches, and what is newest on
      record at its seq, if anything, is the message the room numbered so. */
  ghost predicate Faithful(digest: string -> string, rows: seq<MessageRow>, r: Room, cursor: nat) {
    && cursor <= |r.log|
    && (cursor > 0 && NewestAt(rows, cursor).Some? ==>
          NewestAt(rows, cursor).value == FingerprintOf(digest, r.log[cursor - 1]))
  }

  /** The room holds a message at the cursor, and it is not the one on record there. */
  ghost predicate Differs(digest: string -> string, rows: seq<MessageRow>, r: Room, cursor: nat) {
    && r.Holds(cursor)
    && NewestAt(rows, cursor).Some?
    && NewestAt(rows, cursor).value != FingerprintOf(digest, r.log[cursor - 1])
  }

  /** What keeping the cursor after a check says of a room that kept its numbering and reached the
      cursor when the check began, whatever else happened to it meanwhile: the message at the
      cursor has gone, or there is nothing on record to compare it with, or it is the one on
      record. */
  ghost predicate Compared(
      digest: string -> string, rows: seq<MessageRow>, start: Room, now: Room, cursor: nat)
  {
    0 < cursor <= |start.log| && start.life == now.life && start.log <= now.log ==>
      || now.base >= cursor
      || NewestAt(rows, cursor).None?
      || NewestAt(rows, cursor).value == FingerprintOf(digest, start.log[cursor - 1])
  }

  lemma ComparedLater(
      digest: string -> string, rows: seq<MessageRow>, start: Room, now: Room, later: Room, cursor: nat)
    requires Compared(digest, rows, start, now, cursor) && Evolves(start, now) && Evolves(now, later)
    ensures Compared(digest, rows, start, later, cursor)
  {
    hide NewestAt;
  }

  /** A comparison made at any time of a request, or of two, holds of the whole. */
  lemma {:induction false} StillCompared(
      digest: string -> string, rows: seq<MessageRow>, start: Room, checked: Room, met: Room, vetted: Room,
      now: Room, cursor: nat)
    requires Evolves(start, checked) && Evolves(checked, met) && Evolves(met, vetted) && Evolves(vetted, now)
    ensures Compared(digest, rows, start, checked, cursor) || Compared(digest, rows, met, vetted, cursor)
            ==> Compared(digest, rows, start, now, cursor)
  {
    hide NewestAt;
  }

  /** What `_verify_position` makes of the room's answers. */
  function Verdict(
      digest: string -> string, recorded: Option<Fingerprint>, since: nat,
      page: Page, exported: seq<Record>, tail: seq<Record>): bool
    requires since > 0
  {
    var messages := page.messages;
    var found := Find(messages, since);
    var at := if found.None? && messages != [] && messages[0].at > since then Find(exported, since) else found;
    if at.Some? then recorded.Some? && recorded.value != FingerprintOf(digest, at.value)
    else
      && messages == []
      && ((page.lastSeq.Some? && page.lastSeq.value < since - 1)
          || (tail != [] && tail[|tail| - 1].at < since))
  }

  /** The check does not compare what it never sees: a room that ended just before the cursor when
      it was probed, and is written to before its last message is asked for, keeps the cursor -
      though the message now there is not the one on record, and those below it were never read. */
  lemma {:induction false} WrittenBetweenProbeAndTail(digest: string -> string, recorded: Fingerprint)
    returns (probed: Room, written: Room, page: Page, tail: Page)
    requires digest("new") != recorded.digest
    ensures probed.Wf() && |probed.log| == 1 && Evolves(probed, written) && written.life == probed.life
    ensures AnswersRead(probed, Some(1), ROOM_READ_LIMIT, page) && AnswersRead(written, None, 1, tail)
    ensures !Verdict(digest, Some(recorded), 2, page, [], tail.messages)
    ensures written.Holds(1) && written.Holds(2) && FingerprintOf(digest, written.log[1]) != recorded
  {
    var unread, later := Message("them", "unread"), Message("them", "new");
    probed, written := Room(1, [unread], 0), Room(1, [unread, later], 0);
    page, tail := Page([], Some(1), None), Page([Record(2, later)], None, None);
    assert written.log[1] == later;
  }

  /** `_Batch`. */
  datatype Batch = Batch(
    since: nat,
    messages: seq<Record>,
    firstSeq: Option<nat>,
    lastSeq: Option<nat>,
    restarted: bool,
    nothingReturned: bool)

  /** What a batch read from `since` says of the room it was read from: with the backlog it
      starts at the oldest record still held past the cursor, says exactly where that is, and
      holds the whole rest or the next page of it. */
  ghost predicate BatchOf(r: Room, backlog: bool, whole: bool, batch: Batch) {
    var oldest := Max(r.base, batch.since);
    && (batch.messages == [] ==> batch.firstSeq.None?)
    && (batch.nothingReturned && batch.lastSeq.Some? ==> batch.lastSeq.value <= batch.since)
    && (backlog ==>
          if oldest >= |r.log| then batch.messages == []
          else
            var count := if whole then |r.log| - oldest else Min(200, |r.log| - oldest);
            batch.messages == Slice(r.log, oldest, oldest + count) && batch.firstSeq == Some(oldest + 1))
    && (batch.firstSeq.Some? && !backlog ==> batch.firstSeq.value <= batch.since + 1)
  }

  class Reader {
    const ledger: Ledger
    const upstream: Upstream
    const digest: string -> string
    /** `_epoch_probed` for the room: when its tail was last checked, in memory only. */
    var epochProbed: Option<real>

    constructor (ledger: Ledger, upstream: Upstream, digest: string -> string)
      ensures this.ledger == ledger && this.upstream == upstream && this.digest == digest
      ensures epochProbed.None?
    {
      this.ledger, this.upstream, this.digest, epochProbed := ledger, upstream, digest, None;
    }

    predicate ProbeDue(since: nat, now: real)
      reads this`epochProbed
    {
      since > 0 && (epochProbed.None? || now - epochProbed.value >= ROOM_EPOCH_PROBE_SECONDS)
    }

    /** `_recorded_here`: None when nothing is on record there, which proves nothing. */
    function RecordedHere(at: nat, message: Message): Option<bool>
      reads ledger`messages
    {
      var row := NewestAt(ledger.messages, at);
      if row.None? then None else Some(row.value == FingerprintOf(digest, message))
    }

    /** What `_verify_position` asks the room: page is None when a request failed. `exported` and
        `tail` are what the two further requests were answered, when they were made. */
    method Compare(since: nat)
      returns (page: Option<Page>, replaced: bool, ghost exported: seq<Record>, ghost tail: seq<Record>)
      requires upstream.room.Wf() && since > 0
      modifies upstream
      ensures Evolves(old(upstream.room), upstream.room)
      ensures page.Some? ==>
                replaced == Verdict(digest, NewestAt(ledger.messages, since), since, page.value, exported, tail)
      ensures upstream.room.life == old(upstream.room.life)
              && Faithful(digest, ledger.messages, old(upstream.room), since)
              ==> page.None? || !replaced
      ensures page.Some? && !replaced ==>
                Compared(digest, ledger.messages, old(upstream.room), upstream.room, since)
      ensures upstream.room == old(upstream.room) && page.Some? ==>
                var r := upstream.room;
                var differs := Differs(digest, ledger.messages, r, since);
                if replaced then differs || |r.log| < since
                else !differs && (|r.log| < since ==> r.base == |r.log|)
    {
      hide Find, NewestAt, Slice;
      replaced, exported, tail := false, [], [];
      page := upstream.ReadRoom(Some(since - 1), ROOM_READ_LIMIT);
      if page.None? {
        return None, false, exported, tail;
      }
      ghost var seen := upstream.room;
      var messages := page.value.messages;
      var at := Find(messages, since);
      FindInSlice(seen.log, |seen.log| - |messages|, |seen.log|, since);
      if at.None? && messages != [] && messages[0].at > since {
        var records := upstream.ExportRoom();
        if records.None? {
          return None, false, exported, tail;
        }
        exported := records.value;
        at := Find(records.value, since);
        FindInSlice(upstream.room.log, upstream.room.base, |upstream.room.log|, since);
      }
      if at.Some? {
        replaced := RecordedHere(since, at.value) == Some(false);
      } else if messages == [] {
        if page.value.lastSeq.Some? && page.value.lastSeq.value < since - 1 {
          replaced := true;
        } else {
          var newest := upstream.ReadRoom(None, 1);
          if newest.None? {
            return None, false, exported, tail;
          }
          var last := newest.value.messages;
          tail := last;
          replaced := last != [] && last[|last| - 1].at < since;
        }
      }
    }

    /** `_verify_position`. None when a request failed or the process died.

        In a room that kept its numbering it never gives up a faithful cursor. Of a room that
        stood still while it looked, it keeps the cursor only when the message there is not
        seen to differ and the room does not end before it. */
    method VerifyPosition(since: nat, now: real) returns (position: Option<nat>)
      requires upstream.room.Wf() && since > 0 && since == ledger.Cursor()
      modifies upstream, ledger`cursorRow, this`epochProbed
      ensures Evolves(old(upstream.room), upstream.room)
      ensures position.None? ==> ledger.cursorRow == old(ledger.cursorRow)
      ensures epochProbed == old(epochProbed) || epochProbed == Some(now)
      ensures position.Some? ==> epochProbed == Some(now)
      ensures position.Some? ==>
                position.value == ledger.Cursor() && position.value in {0, since}
                && RestartsOf(ledger.cursorRow)
                   == RestartsOf(old(ledger.cursorRow)) + if position.value == 0 then 1 else 0
      ensures upstream.room.life == old(upstream.room.life)
              && Faithful(digest, ledger.messages, old(upstream.room), since)
              ==> position != Some(0)
      ensures position == Some(since) ==>
                Compared(digest, ledger.messages, old(upstream.room), upstream.room, since)
      ensures upstream.room == old(upstream.room) && position.Some? ==>
                var r := upstream.room;
                var differs := Differs(digest, ledger.messages, r, since);
                if position.value == 0 then differs || |r.log| < since
                else !differs && (|r.log| < since ==> r.base == |r.log|)
    {
      hide Faithful, Differs, Compared, Verdict;
      ghost var exported, tail;
      var page, replaced;
      page, replaced, exported, tail := Compare(since);
      if page.None? {
        return None;
      }
      epochProbed := Some(now);
      if replaced {
        var alive := ledger.RestartCursor(page.value.generation);
        return if alive then Some(0) else None;
      }
      if page.value.generation.Some? {
        var alive := ledger.AdoptCursorEpoch(page.value.generation.value);
        if !alive {
          return None;
        }
      }
      return Some(since);
    }

    /** `_cursor_for`. The position is checked exactly when there is one to check and the process has
        not checked it in the last 600 seconds, or not at all. */
    method CursorFor(now: real) returns (position: Option<nat>)
      requires upstream.room.Wf()
      modifies upstream, ledger`cursorRow, this`epochProbed
      ensures Evolves(old(upstream.room), upstream.room)
      ensures Positioned(old(ledger.cursorRow), ledger.cursorRow)
      ensures position.None? ==> ledger.cursorRow == old(ledger.cursorRow)
      ensures position.Some? ==> position.value == ledger.Cursor()
      ensures var timely :=
                old(ledger.Cursor()) > 0
                && (old(epochProbed).None? || now - old(epochProbed).value >= 600.0);
              if timely then
                && (epochProbed == old(epochProbed) || epochProbed == Some(now))
                && (position.Some? ==> epochProbed == Some(now))
                && (position == Some(old(ledger.Cursor())) ==>
                      Compared(digest, ledger.messages, old(upstream.room), upstream.room, old(ledger.Cursor())))
                && (upstream.room == old(upstream.room) && position.Some? ==>
                      Judged(digest, ledger.messages, upstream.room, old(ledger.Cursor()),
                             RestartsOf(ledger.cursorRow) > RestartsOf(old(ledger.cursorRow)), true))
              else
                position.Some? && epochProbed == old(epochProbed)
                && ledger.cursorRow == old(ledger.cursorRow) && upstream.room == old(upstream.room)
      ensures upstream.room.life == old(upstream.room.life)
              && Faithful(digest, ledger.messages, old(upstream.room), old(ledger.Cursor()))
              ==> RestartsOf(ledger.cursorRow) == RestartsOf(old(ledger.cursorRow))
    {
      hide NewestAt, Compared;
      var since := ledger.Cursor();
      if ProbeDue(since, now) {
        position := VerifyPosition(since, now);
      } else {
        position := Some(since);
      }
    }

    /** The two checks `_read_from_cursor` makes of an answer before it believes it: a room
        that no longer reaches the cursor was replaced, and one in a new lifetime is verified. */
    method Vet(since: nat, page: Page, now: real) returns (position: Option<nat>)
      requires upstream.room.Wf() && since == ledger.Cursor()
      requires AnswersRead(upstream.room, Some(since), ROOM_READ_LIMIT, page)
      modifies upstream, ledger`cursorRow, this`epochProbed
      ensures Evolves(old(upstream.room), upstream.room)
      ensures Positioned(old(ledger.cursorRow), ledger.cursorRow)
      ensures position.None? ==> ledger.cursorRow == old(ledger.cursorRow)
      ensures position.Some? ==> position.value == ledger.Cursor()
      ensures epochProbed == old(epochProbed)
              || (epochProbed == Some(now) && MustCheck(old(ledger.cursorRow), false, page.generation))
      ensures upstream.room.life == old(upstream.room.life)
              && Faithful(digest, ledger.messages, old(upstream.room), since)
              ==> RestartsOf(ledger.cursorRow) == RestartsOf(old(ledger.cursorRow))
      ensures position == Some(since) && MustCheck(old(ledger.cursorRow), false, page.generation) ==>
                Compared(digest, ledger.messages, old(upstream.room), upstream.room, since)
      ensures upstream.room == old(upstream.room) && position.Some? ==>
                Judged(digest, ledger.messages, upstream.room, old(ledger.Cursor()),
                       RestartsOf(ledger.cursorRow) > RestartsOf(old(ledger.cursorRow)),
                       MustCheck(old(ledger.cursorRow), false, page.generation))
      ensures position == Some(since) && page.generation.Some?
              && !MustCheck(old(ledger.cursorRow), false, page.generation) ==>
                GenerationOf(ledger.cursorRow) == page.generation
      ensures position == Some(since) && page.messages == [] && page.lastSeq.Some? ==>
                page.lastSeq.value <= since
    {
      hide NewestAt, Slice, Compared;
      if since > 0 && page.messages == [] && page.lastSeq.Some? && page.lastSeq.value < since {
        var alive := ledger.RestartCursor(page.generation);
        return if alive then Some(0) else None;
      }
      var known := GenerationOf(ledger.cursorRow);
      if page.generation.Some? && page.generation != known {
        if since > 0 && known.Some? {
          position := VerifyPosition(since, now);
          return;
        }
        var alive := ledger.AdoptCursorEpoch(page.generation.value);
        if !alive {
          return None;
        }
      }
      return Some(since);
    }

    /** The batch an answer makes, with the export read for what the answer left behind. */
    method Collect(since: nat, page: Page, backlog: bool, whole: bool, ghost met: Room)
      returns (batch: Option<Batch>, ghost seen: Room)
      requires met.Wf() && Evolves(met, upstream.room)
      requires AnswersRead(met, Some(since), ROOM_READ_LIMIT, page)
      requires page.messages == [] && page.lastSeq.Some? ==> page.lastSeq.value <= since
      modifies upstream
      ensures Evolves(old(upstream.room), upstream.room)
      ensures Evolves(met, seen) && Evolves(seen, upstream.room)
      ensures batch.Some? ==>
                && !batch.value.restarted && batch.value.since == since
                && BatchOf(seen, backlog, whole, batch.value)
    {
      hide After;
      seen := met;
      var messages := page.messages;
      var firstSeq := if messages == [] then None else Some(messages[0].at);
      if firstSeq.Some? && firstSeq.value > since + 1 {
        if backlog {
          var records := upstream.ExportRoom();
          seen := upstream.room;
          if records.None? {
            return None, seen;
          }
          AfterInSlice(seen.log, seen.base, |seen.log|, since);
          var pending := After(records.value, since);
          firstSeq := if pending == [] then None else Some(pending[0].at);
          messages := if whole then pending else FirstPage(pending);
        } else {
          firstSeq := None;
        }
      }
      return Some(Batch(since, messages, firstSeq, page.lastSeq, false, page.messages == [])), seen;
    }

    /** `_read_from_cursor`. None when a request failed or the process died; `seen` is the room
        as it stood when the batch was read, `told` the generation the read was answered with, and
        `due` whether the position had to be checked: never at the start of the room; past it, when
        this process has not checked it yet, or not in the last 600 seconds, or when the answer names
        another lifetime than the cursor's. */
    method ReadFromCursor(backlog: bool, whole: bool, now: real)
      returns (batch: Option<Batch>, ghost seen: Room, ghost told: Option<nat>, ghost due: bool)
      requires upstream.room.Wf()
      modifies upstream, ledger`cursorRow, this`epochProbed
      ensures Evolves(old(upstream.room), seen) && Evolves(seen, upstream.room)
      ensures Positioned(old(ledger.cursorRow), ledger.cursorRow)
      ensures batch.Some? ==>
                if batch.value.restarted then
                  ledger.Cursor() == 0
                  && RestartsOf(ledger.cursorRow) > RestartsOf(old(ledger.cursorRow))
                else
                  batch.value.since == ledger.Cursor()
                  && BatchOf(seen, backlog, whole, batch.value)
      ensures upstream.room.life == old(upstream.room.life)
              && Faithful(digest, ledger.messages, old(upstream.room), old(ledger.Cursor()))
              ==> RestartsOf(ledger.cursorRow) == RestartsOf(old(ledger.cursorRow))
      ensures due <==>
                old(ledger.Cursor()) > 0
                && (old(epochProbed).None? || now - old(epochProbed).value >= 600.0
                    || (told.Some? && GenerationOf(old(ledger.cursorRow)).Some?
                        && told != GenerationOf(old(ledger.cursorRow))))
      ensures epochProbed == old(epochProbed) || (due && epochProbed == Some(now))
      ensures due && batch.Some? && (old(epochProbed).None? || now - old(epochProbed).value >= 600.0) ==>
                epochProbed == Some(now)
      ensures batch.Some? && due && RestartsOf(ledger.cursorRow) == RestartsOf(old(ledger.cursorRow)) ==>
                Compared(digest, ledger.messages, old(upstream.room), upstream.room, old(ledger.Cursor()))
      ensures upstream.room == old(upstream.room) && batch.Some? ==>
                Judged(digest, ledger.messages, upstream.room, old(ledger.Cursor()),
                       RestartsOf(ledger.cursorRow) > RestartsOf(old(ledger.cursorRow)), due)
    {
      hide NewestAt, Slice, AnswersRead, BatchOf, Compared;
      seen, told := upstream.room, None;
      due := MustCheck(ledger.cursorRow, ProbeDue(ledger.Cursor(), now), None);
      ghost var row, timely := ledger.cursorRow, due;
      var position := CursorFor(now);
      if position.None? {
        return None, upstream.room, told, due;
      }
      var since := position.value;
      ghost var checked := upstream.room;
      var answer := upstream.ReadRoom(Some(since), ROOM_READ_LIMIT);
      seen := upstream.room;
      if answer.None? {
        return None, seen, told, due;
      }
      told := answer.value.generation;
      due := MustCheck(row, timely, told);
      ghost var met := upstream.room;
      position := Vet(since, answer.value, now);
      if position.None? {
        return None, seen, told, due;
      }
      if position.value != since {
        return Some(Restart(since)), seen, told, due;
      }
      ghost var vetted := upstream.room;
      batch, seen := Collect(since, answer.value, backlog, whole, seen);
      StillCompared(digest, ledger.messages, old(upstream.room), checked, met, vetted, upstream.room, since);
    }
  }

  function Restart(since: nat): Batch {
    Batch(since, [], None, None, true, true)
  }

  function FirstPage(records: seq<Record>): seq<Record> {
    if |records| <= ROOM_READ_LIMIT then records else records[..ROOM_READ_LIMIT]
  }

  /** What reading may do to the cursor's row: leave the cursor where it was, or find the room
      replaced, once, and send it back to the start. */
  ghost predicate Positioned(before: Option<CursorRow>, after: Option<CursorRow>) {
    || (CursorOf(after) == CursorOf(before) && RestartsOf(after) == RestartsOf(before))
    || (CursorOf(after) == 0 && CursorOf(before) > 0 && RestartsOf(after) == RestartsOf(before) + 1)
  }

  /** A check is made when the last is too long ago, and when the upstream names another lifetime
      than the cursor's. */
  ghost predicate MustCheck(row: Option<CursorRow>, probeDue: bool, told: Option<nat>) {
    probeDue || (CursorOf(row) > 0 && told.Some? && GenerationOf(row).Some? && told != GenerationOf(row))
  }

  /** How a room that stood still is judged: a restart is never without a sign that the room
      was replaced, and a check that was due never overlooks one. */
  ghost predicate Judged(
      digest: string -> string, rows: seq<MessageRow>, r: Room,
      cursor: nat, replaced: bool, due: bool)
  {
    && (replaced ==> Differs(digest, rows, r, cursor) || |r.log| < cursor)
    && (due && !replaced ==>
          !Differs(digest, rows, r, cursor) && (|r.log| < cursor ==> r.base == |r.log|))
  }
}
