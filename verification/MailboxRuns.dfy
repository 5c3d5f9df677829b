/** What every run of polls keeps, whatever the room does between requests. */
module MailboxRuns {
  import opened Basics
  import opened Rooms
  import opened LedgerStore
  import opened Runner
  import opened RoomReader
  import opened Mailbox
  import Tables

  function Cursor(s: Standing): nat {
    CursorOf(s.row)
  }

  /** The cursor is a position in the lifetime the room is in, and its witness is good. */
  ghost predicate Abreast(digest: string -> string, s: Standing) {
    Cursor(s) > 0 ==> s.cursorLife == s.room.life && Faithful(digest, s.rows, s.room, Cursor(s))
  }

  /** Where a poll read from: its cursor, or the start when it found the room replaced. */
  function Since(a: Standing, b: Standing): nat {
    if RestartsOf(b.row) > RestartsOf(a.row) then 0 else Cursor(a)
  }

  ghost predicate SignedRoom(isDid: string -> bool, r: Room) {
    forall i | 0 <= i < |r.log| :: isDid(r.log[i].from)
  }

  /** One poll and its parameters. */
  datatype Poll = Poll(due: bool, end: PollEnd, seen: Room, lo: nat, n: nat)

  ghost predicate Next(digest: string -> string, isDid: string -> bool, a: Standing, b: Standing, p: Poll) {
    Polled(a, b, digest, isDid, p.due, p.end, p.seen, p.lo, p.n)
  }

  // ------------------------------------------------------------ a room never renumbered

  lemma FaithfulLater(digest: string -> string, rows: seq<MessageRow>, r: Room, later: Room, cursor: nat)
    requires Faithful(digest, rows, r, cursor) && Evolves(r, later) && later.life == r.life
    ensures Faithful(digest, rows, later, cursor)
  {
  }

  /** In a room that is only written to, evicted from, or reaped with its floor kept, a poll
      never restarts, moves the cursor forward only, and keeps the witness good. */
  lemma PollKeepsAbreast(digest: string -> string, isDid: string -> bool, a: Standing, b: Standing, p: Poll)
    requires Next(digest, isDid, a, b, p) && a.room.life == b.room.life
    requires Abreast(digest, a) && SignedRoom(isDid, b.room)
    ensures Abreast(digest, b)
    ensures RestartsOf(b.row) == RestartsOf(a.row) && Cursor(a) <= Cursor(b)
  {
    hide NewestAt, Slice, Entries;
    var cursor := Cursor(b);
    if cursor == Cursor(a) {
      if cursor > 0 {
        FaithfulLater(digest, a.rows, a.room, b.room, cursor);
      }
    } else {
      assert p.seen.log[cursor - 1] == b.room.log[cursor - 1];
    }
  }

  /** Such a poll accounts for everything its cursor passes: every line was dealt with, or was
      no longer in the room. */
  lemma PollKeepsCovered(digest: string -> string, isDid: string -> bool, a: Standing, b: Standing, p: Poll)
    requires Next(digest, isDid, a, b, p) && a.room.life == b.room.life
    requires Abreast(digest, a)
    requires Covered(a.room, Cursor(a), a.handled, a.gone)
    ensures Covered(b.room, Cursor(b), b.handled, b.gone)
    ensures a.handled <= b.handled && a.gone <= b.gone
    ensures forall g | g in b.gone && g !in a.gone :: g.0 == b.room.life && g.1 <= b.room.base
    ensures a.room.base <= b.room.base
  {
    hide NewestAt, Faithful, Judged;
    forall n: nat | 0 < n <= Cursor(b)
      ensures Handled(b.room.life, Record(n, b.room.log[n - 1])) in b.handled || (b.room.life, n) in b.gone
    {
      if n <= Cursor(a) {
        assert a.room.log[n - 1] == b.room.log[n - 1];
      } else if n > p.lo {
        assert b.handled[|a.handled| + n - 1 - p.lo]
            == Handled(p.seen.life, Record(n, p.seen.log[n - 1]));
      } else {
        assert (p.seen.life, n) in b.gone;
      }
    }
  }

  /** A gate shut at the start of a cycle, or found shut in the middle of one, never lets the
      cursor pass a message the room held and this node did not deal with. */
  lemma {:induction false} GateHoldsTheCursor(
      digest: string -> string, isDid: string -> bool, a: Standing, b: Standing, p: Poll, at: nat)
    requires Next(digest, isDid, a, b, p) && (p.end.Shut? || p.end.Stopped?)
    requires Since(a, b) < at <= Cursor(b) && p.seen.Holds(at)
    ensures Handled(p.seen.life, Record(at, p.seen.log[at - 1])) in b.handled
  {
    hide NewestAt, Faithful, Judged, Witnessed;
    assert b.handled[|a.handled| + at - 1 - p.lo] == Handled(p.seen.life, Record(at, p.seen.log[at - 1]));
  }

  /** A run: polls, crashes in the middle of them included, with the room's own changes between
      and during them. */
  ghost predicate Run(digest: string -> string, isDid: string -> bool, run: seq<Standing>, polls: seq<Poll>) {
    && |run| == |polls| + 1
    && forall i | 0 <= i < |polls| :: Next(digest, isDid, run[i], run[i + 1], polls[i])
  }

  lemma {:induction false} LivesOnlyGrow(
      digest: string -> string, isDid: string -> bool, run: seq<Standing>, polls: seq<Poll>, i: nat)
    requires Run(digest, isDid, run, polls) && i < |run|
    ensures run[i].room.life <= run[|run| - 1].room.life
    decreases |run| - i
  {
    if i + 1 < |run| {
      assert Next(digest, isDid, run[i], run[i + 1], polls[i]);
      LivesOnlyGrow(digest, isDid, run, polls, i + 1);
    }
  }

  lemma FreshIsCovered(digest: string -> string, s: Standing)
    requires s.row.None?
    ensures Abreast(digest, s) && Covered(s.room, Cursor(s), s.handled, s.gone)
  {
  }

  /** Over every run on a mailbox that is never renumbered, from a fresh ledger: it is never
      restarted, its cursor's witness stays good, and every message at or below the cursor was
      dealt with or was gone from the room when the cursor passed it. */
  lemma {:induction false} NothingIsSkipped(
      digest: string -> string, isDid: string -> bool, run: seq<Standing>, polls: seq<Poll>)
    requires Run(digest, isDid, run, polls)
    requires run[0].row.None? && run[0].handled == [] && run[0].gone == {} && run[0].room.Wf()
    requires run[0].room.life == run[|polls|].room.life
    requires forall i | 0 <= i < |run| :: SignedRoom(isDid, run[i].room)
    ensures var last := run[|polls|];
            && Abreast(digest, last) && RestartsOf(last.row) == 0
            && Covered(last.room, Cursor(last), last.handled, last.gone)
            && forall g | g in last.gone :: g.0 == last.room.life && g.1 <= last.room.base
    decreases |polls|
  {
    hide Polled, Covered, Abreast, SignedRoom;
    if polls == [] {
      FreshIsCovered(digest, run[0]);
    } else {
      var k := |polls| - 1;
      var init, last := run[..|run| - 1], run[k + 1];
      assert Next(digest, isDid, run[k], last, polls[k]);
      assert forall i | 0 <= i < k :: Next(digest, isDid, init[i], init[i + 1], polls[..k][i]);
      LivesOnlyGrow(digest, isDid, init, polls[..k], 0);
      LivesOnlyGrow(digest, isDid, run, polls, k);
      NothingIsSkipped(digest, isDid, init, polls[..k]);
      PollKeepsAbreast(digest, isDid, run[k], last, polls[k]);
      PollKeepsCovered(digest, isDid, run[k], last, polls[k]);
    }
  }

  // ------------------------------------------------------------ a room that may be replaced

  /** What the check cannot be blamed for: the room holds a message at the cursor which is the
      one on record there, or nothing is on record there, though messages below are unhandled. */
  ghost predicate Indistinguishable(digest: string -> string, a: Standing) {
    && a.room.Holds(Cursor(a))
    && !Differs(digest, a.rows, a.room, Cursor(a))
    && !HeldHandled(a.room, Cursor(a), a.handled)
  }

  /** It does happen: a room that came back with one new message under the old one's seq, and
      with the old message's own words at the cursor. */
  lemma {:induction false} RepeatedWordsHideARoom(digest: string -> string, repeated: Message, unseen: Message)
    returns (a: Standing)
    ensures Indistinguishable(digest, a)
    ensures a.room.life > a.cursorLife && a.room.Wf()
  {
    var row := MessageRow(Inbound(0, 2), 2, FingerprintOf(digest, repeated));
    a := Standing(Room(1, [unseen, repeated], 0), Some(CursorRow(2, None, 0)), [row], [], {}, 0);
    assert a.room.Holds(1) && Handled(1, Record(1, unseen)) !in a.handled;
  }

  /** A poll whose check is due, on whatever room the upstream now has under the name, leaves no
      message the room holds at or below the cursor unhandled, unless it went back to the start
      and handled nothing - exactly when the message at the cursor, if the room holds one and
      was replaced, can be told from the one on record. */
  lemma DuePollLeavesNothingBehind(
      digest: string -> string, isDid: string -> bool, a: Standing, b: Standing, p: Poll)
    requires Next(digest, isDid, a, b, p) && a.room == b.room && a.room.Wf()
    requires p.due && Cursor(a) > 0 && !p.end.Raised?
    ensures (Cursor(b) == 0 && b.handled == a.handled) || HeldHandled(b.room, Cursor(b), b.handled)
            <==> !Indistinguishable(digest, a)
  {
    hide NewestAt, Slice;
    var r := a.room;
    QuietThroughout(p.seen, r);
    if Indistinguishable(digest, a) {
      KeptStaysBehind(digest, isDid, a, b, p);
    } else {
      forall n: nat | r.Holds(n) && n <= Cursor(b)
        ensures Handled(r.life, Record(n, r.log[n - 1])) in b.handled
      {
        if n > p.lo && p.n > 0 {
          assert b.handled[|a.handled| + n - 1 - p.lo] == Handled(r.life, Record(n, r.log[n - 1]));
        }
      }
    }
  }

  /** The same while the room is written to, evicted from and reaped with its floor kept between
      and during the poll's own requests: a poll whose check is due leaves nothing the room holds
      at or below the cursor unhandled, unless it went back to the start and handled nothing, as
      long as the room reached the cursor when the poll began and did not then hold, above
      unhandled messages, one it cannot tell from the one on record. */
  lemma {:induction false} DuePollOfAMovingRoom(
      digest: string -> string, isDid: string -> bool, a: Standing, b: Standing, p: Poll)
    requires Next(digest, isDid, a, b, p) && a.room.Wf() && a.room.life == b.room.life
    requires p.due && 0 < Cursor(a) <= |a.room.log| && !p.end.Raised?
    requires !Indistinguishable(digest, a)
    ensures (Cursor(b) == 0 && b.handled == a.handled) || HeldHandled(b.room, Cursor(b), b.handled)
  {
    hide NewestAt, Slice, Faithful, Judged;
    var r := b.room;
    forall n: nat | r.Holds(n) && n <= Cursor(b)
      ensures Handled(r.life, Record(n, r.log[n - 1])) in b.handled
    {
      if n > p.lo && p.n > 0 {
        assert b.handled[|a.handled| + n - 1 - p.lo] == Handled(r.life, Record(n, r.log[n - 1]));
      } else {
        assert a.room.Holds(n) && a.room.log[n - 1] == r.log[n - 1];
        assert a.room.Holds(Cursor(a));
      }
    }
  }

  // ------------------------------------------------------------ which polls leave messages behind

  /** As long as the cursor was read in the room's own lifetime, it is a position in it and nothing
      the room holds up to it is unhandled. */
  ghost predicate Kept(s: Standing) {
    s.cursorLife == s.room.life ==>
      Cursor(s) <= |s.room.log| && HeldHandled(s.room, Cursor(s), s.handled)
  }

  /** The poll handed over lines of one lifetime from a cursor read in another, which it had not
      seen through, past messages of the room's own that it has not handled. */
  ghost predicate LeavesBehind(a: Standing, b: Standing, p: Poll) {
    && Since(a, b) > 0 && Cursor(b) != Cursor(a)
    && a.cursorLife != p.seen.life && p.seen.life == b.room.life
    && !HeldHandled(b.room, Cursor(a), a.handled)
  }

  /** One poll of any room, renumbered before or during it or not: messages are left behind the
      cursor exactly when it hands over lines of a lifetime that is not its cursor's. */
  lemma {:induction false} LeftBehindExactlyThen(
      digest: string -> string, isDid: string -> bool, a: Standing, b: Standing, p: Poll)
    requires Next(digest, isDid, a, b, p) && a.room.Wf() && Kept(a) && a.cursorLife <= a.room.life
    ensures Kept(b) <==> !LeavesBehind(a, b, p)
    ensures b.cursorLife <= b.room.life
  {
    hide NewestAt, Slice, Faithful, Judged, Compared, Witnessed;
    if LeavesBehind(a, b, p) {
      var r := b.room;
      var n: nat :| r.Holds(n) && n <= Cursor(a) && Handled(r.life, Record(n, r.log[n - 1])) !in a.handled;
      assert Handled(r.life, Record(n, r.log[n - 1])) !in b.handled;
      assert b.cursorLife == r.life && n <= Cursor(b);
    } else if b.cursorLife == b.room.life {
      KeptOtherwise(digest, isDid, a, b, p);
    }
  }

  lemma {:induction false} KeptOtherwise(
      digest: string -> string, isDid: string -> bool, a: Standing, b: Standing, p: Poll)
    requires Next(digest, isDid, a, b, p) && a.room.Wf() && Kept(a) && a.cursorLife <= a.room.life
    requires !LeavesBehind(a, b, p) && b.cursorLife == b.room.life
    ensures Cursor(b) <= |b.room.log| && HeldHandled(b.room, Cursor(b), b.handled)
  {
    hide NewestAt, Slice, Faithful, Judged, Compared, Witnessed;
    var r := b.room;
    forall n: nat | r.Holds(n) && n <= Cursor(b)
      ensures Handled(r.life, Record(n, r.log[n - 1])) in b.handled
    {
      if n > p.lo && p.n > 0 && p.seen.life == r.life {
        assert b.handled[|a.handled| + n - 1 - p.lo] == Handled(r.life, Record(n, r.log[n - 1]));
      } else if a.cursorLife == r.life {
        assert a.room.Holds(n) && a.room.log[n - 1] == r.log[n - 1];
      }
    }
  }

  /** Over every run, on rooms renumbered at any time: no message the room holds below a cursor of
      its own lifetime is unhandled, unless some poll left it behind in just that way - which no
      later check sees, for the cursor's record is then the room's own. */
  lemma {:induction false} NothingHeldIsSkipped(
      digest: string -> string, isDid: string -> bool, run: seq<Standing>, polls: seq<Poll>)
    requires Run(digest, isDid, run, polls)
    requires run[0].row.None? && run[0].room.Wf() && run[0].cursorLife <= run[0].room.life
    requires forall i | 0 <= i < |polls| :: !LeavesBehind(run[i], run[i + 1], polls[i])
    ensures Kept(run[|polls|]) && run[|polls|].cursorLife <= run[|polls|].room.life && run[|polls|].room.Wf()
    decreases |polls|
  {
    hide Polled, LeavesBehind, Kept;
    if polls == [] {
      FreshIsKept(run[0]);
    } else {
      var k := |polls| - 1;
      var init := run[..|run| - 1];
      assert Next(digest, isDid, run[k], run[k + 1], polls[k]);
      assert forall i | 0 <= i < k ::
          && Next(digest, isDid, init[i], init[i + 1], polls[..k][i])
          && !LeavesBehind(init[i], init[i + 1], polls[..k][i]);
      NothingHeldIsSkipped(digest, isDid, init, polls[..k]);
      LeftBehindExactlyThen(digest, isDid, run[k], run[k + 1], polls[k]);
      PollEvolves(digest, isDid, run[k], run[k + 1], polls[k]);
    }
  }

  lemma FreshIsKept(s: Standing)
    requires s.row.None?
    ensures Kept(s)
  {
  }

  lemma PollEvolves(digest: string -> string, isDid: string -> bool, a: Standing, b: Standing, p: Poll)
    requires Next(digest, isDid, a, b, p)
    ensures Evolves(a.room, b.room)
  {
  }

  /** After a poll that left messages behind in a signed room, what is at the cursor is what is on
      record there: no check can tell. */
  lemma {:induction false} LeftBehindForGood(
      digest: string -> string, isDid: string -> bool, a: Standing, b: Standing, p: Poll)
    requires Next(digest, isDid, a, b, p) && a.room.Wf() && LeavesBehind(a, b, p)
    requires SignedRoom(isDid, b.room) && b.room.Holds(Cursor(b))
    ensures Indistinguishable(digest, b)
  {
    hide NewestAt, Slice, Faithful, Judged, Compared;
    var r := b.room;
    var n: nat :| r.Holds(n) && n <= Cursor(a) && Handled(r.life, Record(n, r.log[n - 1])) !in a.handled;
    assert Handled(r.life, Record(n, r.log[n - 1])) !in b.handled;
    assert p.seen.log[Cursor(b) - 1] == r.log[Cursor(b) - 1];
    assert n <= Cursor(b);
  }

  lemma KeptStaysBehind(
      digest: string -> string, isDid: string -> bool, a: Standing, b: Standing, p: Poll)
    requires Next(digest, isDid, a, b, p) && a.room == b.room == p.seen && a.room.Wf()
    requires Cursor(a) > 0 && !p.end.Raised?
    requires Indistinguishable(digest, a)
    ensures Cursor(b) > 0 && !HeldHandled(b.room, Cursor(b), b.handled)
  {
    hide NewestAt;
    var r := a.room;
    var n: nat :| r.Holds(n) && n <= Cursor(a) && Handled(r.life, Record(n, r.log[n - 1])) !in a.handled;
    assert Handled(r.life, Record(n, r.log[n - 1])) !in b.handled;
  }

  // ------------------------------------------------------------ draining a backlog

  lemma RestartMakesAbreast(
      digest: string -> string, isDid: string -> bool, a: Standing, b: Standing, p: Poll)
    requires Next(digest, isDid, a, b, p) && a.room == b.room && a.room.Wf()
    requires SignedRoom(isDid, b.room) && RestartsOf(b.row) > RestartsOf(a.row)
    ensures Abreast(digest, b)
  {
    hide NewestAt, Slice, Entries;
    QuietThroughout(p.seen, a.room);
  }

  /** While the room stands still it is found replaced at most once. */
  lemma {:induction false} RestartsAtMostOnce(
      digest: string -> string, isDid: string -> bool, run: seq<Standing>, polls: seq<Poll>, r: Room)
    requires Run(digest, isDid, run, polls) && r.Wf() && SignedRoom(isDid, r)
    requires forall i | 0 <= i < |run| :: run[i].room == r
    ensures var restarts := RestartsOf(run[|polls|].row) - RestartsOf(run[0].row);
            restarts == 0 || (restarts == 1 && Abreast(digest, run[|polls|]))
    decreases |polls|
  {
    hide Polled, Abreast, SignedRoom;
    if polls != [] {
      var k := |polls| - 1;
      var init, last := run[..k + 1], run[k + 1];
      assert Next(digest, isDid, run[k], last, polls[k]);
      assert forall i | 0 <= i < k :: Next(digest, isDid, init[i], init[i + 1], polls[..k][i]);
      RestartsAtMostOnce(digest, isDid, init, polls[..k], r);
      if RestartsOf(last.row) > RestartsOf(run[k].row) {
        if RestartsOf(run[k].row) > RestartsOf(run[0].row) {
          PollKeepsAbreast(digest, isDid, run[k], last, polls[k]);
        }
        RestartMakesAbreast(digest, isDid, run[k], last, polls[k]);
        OneRestartAPoll(digest, isDid, run[k], last, polls[k]);
      } else {
        OneRestartAPoll(digest, isDid, run[k], last, polls[k]);
        if RestartsOf(run[k].row) > RestartsOf(run[0].row) {
          PollKeepsAbreast(digest, isDid, run[k], last, polls[k]);
        }
      }
    }
  }

  lemma OneRestartAPoll(
      digest: string -> string, isDid: string -> bool, a: Standing, b: Standing, p: Poll)
    requires Next(digest, isDid, a, b, p)
    ensures RestartsOf(a.row) <= RestartsOf(b.row) <= RestartsOf(a.row) + 1
  {
  }

  /** Where a poll of a quiet room starts, and how far it gets. */
  lemma HandsOverAPage(
      digest: string -> string, isDid: string -> bool, a: Standing, b: Standing, p: Poll)
    requires Next(digest, isDid, a, b, p) && a.room == b.room && a.room.Wf() && p.end.Handed?
    ensures var since := if RestartsOf(b.row) > RestartsOf(a.row) then 0 else Cursor(a);
            var lo := Max(a.room.base, since);
            var hi := Min(|a.room.log|, lo + 200);
            if lo < |a.room.log| then
              Cursor(b) == hi
              && b.handled == a.handled + Entries(a.room.life, Slice(a.room.log, lo, hi))
            else
              Cursor(b) == since && b.handled == a.handled
  {
    hide NewestAt, Slice, Entries;
    QuietThroughout(p.seen, a.room);
  }

  lemma EntriesJoin(life: nat, log: seq<Message>, lo: nat, mid: nat, hi: nat)
    requires lo <= mid <= hi <= |log|
    ensures Entries(life, Slice(log, lo, mid)) + Entries(life, Slice(log, mid, hi))
            == Entries(life, Slice(log, lo, hi))
  {
  }

  /** With the gate open and the room still, k polls that all hand over deal with the next 200 * k
      held lines past the cursor, each once and in order. The first of them may be the one that
      finds the room replaced. */
  lemma {:induction false} HandsOverInOrder(
      digest: string -> string, isDid: string -> bool, run: seq<Standing>, polls: seq<Poll>, r: Room)
    requires Run(digest, isDid, run, polls) && r.Wf() && |polls| > 0
    requires forall i | 0 <= i < |run| :: run[i].room == r
    requires forall i | 0 <= i < |polls| :: polls[i].end.Handed?
    requires forall i | 1 <= i < |run| :: RestartsOf(run[i].row) == RestartsOf(run[1].row)
    ensures HandedOver(run[0], run[|polls|], r, Since(run[0], run[1]), |polls|)
    decreases |polls|
  {
    hide Polled, Slice, Entries, SignedRoom;
    var k := |polls| - 1;
    var init, last := run[..k + 1], run[k + 1];
    assert Next(digest, isDid, run[k], last, polls[k]);
    HandsOverAPage(digest, isDid, run[k], last, polls[k]);
    if k > 0 {
      assert forall i | 0 <= i < k :: Next(digest, isDid, init[i], init[i + 1], polls[..k][i]);
      HandsOverInOrder(digest, isDid, init, polls[..k], r);
      var lo := Max(r.base, Since(run[0], run[1]));
      if lo < |r.log| {
        var mid := Min(|r.log|, lo + 200 * k);
        var hi := Min(|r.log|, lo + 200 * (k + 1));
        EntriesJoin(r.life, r.log, lo, mid, hi);
      }
    }
  }

  /** From one standing to another, `pages` pages of the room past `since` were dealt with. */
  ghost predicate HandedOver(a: Standing, b: Standing, r: Room, since: nat, pages: nat) {
    var lo := Max(r.base, since);
    if lo < |r.log| && pages > 0 then
      var hi := Min(|r.log|, lo + 200 * pages);
      Cursor(b) == hi && b.handled == a.handled + Entries(r.life, Slice(r.log, lo, hi))
    else
      Cursor(b) == since && b.handled == a.handled
  }

  /** A still room whose cursor belongs to it is never found replaced. */
  lemma {:induction false} NeverRestartsAgain(
      digest: string -> string, isDid: string -> bool, run: seq<Standing>, polls: seq<Poll>, r: Room)
    requires Run(digest, isDid, run, polls) && r.Wf() && SignedRoom(isDid, r) && Abreast(digest, run[0])
    requires forall i | 0 <= i < |run| :: run[i].room == r
    ensures forall i | 0 <= i < |run| :: RestartsOf(run[i].row) == RestartsOf(run[0].row)
    ensures Abreast(digest, run[|polls|])
    decreases |polls|
  {
    hide Polled, Abreast, SignedRoom;
    if polls != [] {
      var k := |polls| - 1;
      assert Next(digest, isDid, run[k], run[k + 1], polls[k]);
      assert forall i | 0 <= i < k :: Next(digest, isDid, run[..k + 1][i], run[..k + 1][i + 1], polls[..k][i]);
      NeverRestartsAgain(digest, isDid, run[..k + 1], polls[..k], r);
      assert forall i | 0 <= i < k + 1 :: run[..k + 1][i] == run[i];
      PollKeepsAbreast(digest, isDid, run[k], run[k + 1], polls[k]);
    }
  }

  /** A poll of a still room that handed over lines leaves the cursor in the room's own lifetime;
      one that neither did so nor restarted leaves things as they were. */
  lemma {:induction false} HandedOrStill(
      digest: string -> string, isDid: string -> bool, a: Standing, b: Standing, p: Poll)
    requires Next(digest, isDid, a, b, p) && a.room == b.room && a.room.Wf() && SignedRoom(isDid, b.room)
    requires p.end.Handed? || p.end.FoundReplaced?
    ensures Abreast(digest, b)
            || (RestartsOf(b.row) == RestartsOf(a.row) && Cursor(b) == Cursor(a) && b.handled == a.handled)
  {
    hide NewestAt, Slice, Entries, Judged, Compared;
    QuietThroughout(p.seen, a.room);
    if RestartsOf(b.row) > RestartsOf(a.row) {
      RestartMakesAbreast(digest, isDid, a, b, p);
    }
  }

  lemma {:induction false} Suffix(
      digest: string -> string, isDid: string -> bool, run: seq<Standing>, polls: seq<Poll>, t: nat)
    requires Run(digest, isDid, run, polls) && t <= |polls|
    ensures Run(digest, isDid, run[t..], polls[t..])
  {
    hide Polled;
    forall i | 0 <= i < |polls[t..]|
      ensures Next(digest, isDid, run[t..][i], run[t..][i + 1], polls[t..][i])
    {
      assert Next(digest, isDid, run[t + i], run[t + i + 1], polls[t + i]);
    }
  }

  lemma {:induction false} AlikeAfter(
      digest: string -> string, isDid: string -> bool, run: seq<Standing>, polls: seq<Poll>, r: Room,
      i: nat, t: nat)
    requires Run(digest, isDid, run, polls) && r.Wf() && SignedRoom(isDid, r)
    requires forall k | 0 <= k < |run| :: run[k].room == r
    requires i <= t < |polls| && Abreast(digest, run[i])
    ensures RestartsOf(run[t + 1].row) == RestartsOf(run[t].row)
  {
    hide Polled, Abreast, SignedRoom;
    Suffix(digest, isDid, run, polls, i);
    NeverRestartsAgain(digest, isDid, run[i..], polls[i..], r);
    assert run[i..][t - i] == run[t] && run[i..][t + 1 - i] == run[t + 1];
  }

  /** Nothing was handed over before the poll that finds the room replaced: whatever had been would
      have left a cursor that no later check gives up. */
  lemma {:induction false} StillUntilReplaced(
      digest: string -> string, isDid: string -> bool, run: seq<Standing>, polls: seq<Poll>, r: Room, t: nat)
    requires Run(digest, isDid, run, polls) && r.Wf() && SignedRoom(isDid, r)
    requires forall i | 0 <= i < |run| :: run[i].room == r
    requires forall i | 0 <= i < |polls| :: polls[i].end.Handed? || polls[i].end.FoundReplaced?
    requires t < |polls| && RestartsOf(run[t + 1].row) != RestartsOf(run[t].row)
    ensures forall i | 0 <= i <= t ::
              RestartsOf(run[i].row) == RestartsOf(run[0].row) && run[i].handled == run[0].handled
  {
    hide Polled, Abreast, SignedRoom;
    var i := 0;
    while i < t
      invariant i <= t
      invariant forall k | 0 <= k <= i ::
                  RestartsOf(run[k].row) == RestartsOf(run[0].row) && run[k].handled == run[0].handled
    {
      assert Next(digest, isDid, run[i], run[i + 1], polls[i]);
      HandedOrStill(digest, isDid, run[i], run[i + 1], polls[i]);
      if Abreast(digest, run[i + 1]) {
        AlikeAfter(digest, isDid, run, polls, r, i + 1, t);
      }
      i := i + 1;
    }
  }

  /** From the poll that finds the room replaced on. */
  lemma {:induction false} AfterReplaced(
      digest: string -> string, isDid: string -> bool, run: seq<Standing>, polls: seq<Poll>, r: Room, t: nat)
    returns (from: nat)
    requires Run(digest, isDid, run, polls) && r.Wf() && SignedRoom(isDid, r)
    requires forall i | 0 <= i < |run| :: run[i].room == r
    requires forall i | 0 <= i < |polls| :: polls[i].end.Handed? || polls[i].end.FoundReplaced?
    requires t < |polls| && RestartsOf(run[t + 1].row) != RestartsOf(run[t].row)
    ensures from == (if polls[t].end.FoundReplaced? then t + 1 else t) <= |polls|
    ensures forall i | from <= i < |polls| :: polls[i].end.Handed?
    ensures forall i | t < i <= |polls| :: RestartsOf(run[i].row) == RestartsOf(run[t].row) + 1
    ensures HandedOver(run[t], run[|polls|], r, 0, |polls| - from)
  {
    hide Polled, Abreast, SignedRoom, HandedOver;
    var rest, later := run[t + 1..], polls[t + 1..];
    Suffix(digest, isDid, run, polls, t + 1);
    assert Next(digest, isDid, run[t], run[t + 1], polls[t]);
    OneRestartAPoll(digest, isDid, run[t], run[t + 1], polls[t]);
    RestartMakesAbreast(digest, isDid, run[t], run[t + 1], polls[t]);
    assert forall i | 0 <= i < |rest| :: rest[i] == run[t + 1 + i];
    NeverRestartsAgain(digest, isDid, rest, later, r);
    forall i | t < i <= |polls| ensures RestartsOf(run[i].row) == RestartsOf(run[t].row) + 1 {
      assert rest[i - t - 1] == run[i];
    }
    forall i | t < i < |polls| ensures polls[i].end.Handed? {
      assert Next(digest, isDid, run[i], run[i + 1], polls[i]);
      FoundMeansRestarted(digest, isDid, run[i], run[i + 1], polls[i]);
    }
    if polls[t].end.FoundReplaced? {
      from := t + 1;
      FoundMeansRestarted(digest, isDid, run[t], run[t + 1], polls[t]);
      NoneReplaced(digest, isDid, rest, later, r);
      assert rest[|later|] == run[|polls|];
      HandedOverFrom(run[t + 1], run[t], run[|polls|], r, 0, |polls| - from);
    } else {
      from := t;
      Suffix(digest, isDid, run, polls, t);
      assert forall i | 0 <= i < |run[t..]| :: run[t..][i] == run[t + i];
      HandsOverInOrder(digest, isDid, run[t..], polls[t..], r);
      assert run[t..][|polls[t..]|] == run[|polls|];
    }
  }

  lemma FoundMeansRestarted(digest: string -> string, isDid: string -> bool, a: Standing, b: Standing, p: Poll)
    requires Next(digest, isDid, a, b, p)
    ensures p.end.FoundReplaced? ==>
              RestartsOf(b.row) > RestartsOf(a.row) && Cursor(b) == 0 && b.handled == a.handled
  {
    hide NewestAt, Judged, Faithful, Witnessed, Compared;
  }

  lemma HandedOverFrom(a: Standing, other: Standing, b: Standing, r: Room, since: nat, pages: nat)
    requires HandedOver(a, b, r, since, pages) && a.handled == other.handled
    ensures HandedOver(other, b, r, since, pages)
  {
  }

  lemma {:induction false} SameRestarts(run: seq<Standing>, i: nat)
    requires i < |run|
    requires !exists t :: 0 <= t < |run| - 1 && RestartsOf(run[t + 1].row) != RestartsOf(run[t].row)
    ensures RestartsOf(run[i].row) == RestartsOf(run[0].row)
  {
    if i > 0 {
      SameRestarts(run, i - 1);
      assert RestartsOf(run[(i - 1) + 1].row) == RestartsOf(run[i - 1].row);
    }
  }

  lemma {:induction false} NoneReplaced(
      digest: string -> string, isDid: string -> bool, run: seq<Standing>, polls: seq<Poll>, r: Room)
    requires Run(digest, isDid, run, polls) && r.Wf()
    requires forall i | 0 <= i < |run| :: run[i].room == r
    requires forall i | 0 <= i < |polls| :: polls[i].end.Handed? || polls[i].end.FoundReplaced?
    requires forall i | 0 <= i < |run| :: RestartsOf(run[i].row) == RestartsOf(run[0].row)
    ensures forall i | 0 <= i < |polls| :: polls[i].end.Handed?
    ensures HandedOver(run[0], run[|polls|], r, Cursor(run[0]), |polls|)
  {
    hide Polled;
    forall i | 0 <= i < |polls| ensures polls[i].end.Handed? {
      assert Next(digest, isDid, run[i], run[i + 1], polls[i]);
      FoundMeansRestarted(digest, isDid, run[i], run[i + 1], polls[i]);
    }
    if polls != [] {
      hide HandedOver;
      HandsOverInOrder(digest, isDid, run, polls, r);
    }
  }

  /** A backlog drains. With the gate open and the room still, at most one poll of a run, whichever
      it is, finds the room replaced; before it nothing was handed over, and from it on - or from
      the first poll when none does - the k polls that hand over deal with exactly the next
      200 * k held lines, each once and in order: all of B once 200 * k >= B. */
  lemma {:induction false} BacklogDrains(
      digest: string -> string, isDid: string -> bool, run: seq<Standing>, polls: seq<Poll>, r: Room)
    returns (from: nat)
    requires Run(digest, isDid, run, polls) && r.Wf() && SignedRoom(isDid, r)
    requires forall i | 0 <= i < |run| :: run[i].room == r
    requires forall i | 0 <= i < |polls| :: polls[i].end.Handed? || polls[i].end.FoundReplaced?
    ensures from <= |polls| && forall i | from <= i < |polls| :: polls[i].end.Handed?
    ensures if RestartsOf(run[|polls|].row) == RestartsOf(run[0].row) then
              from == 0 && HandedOver(run[0], run[|polls|], r, Cursor(run[0]), |polls|)
            else
              && HandedOver(run[0], run[|polls|], r, 0, |polls| - from)
              && exists t | 0 <= t < |polls| ::
                   && from == (if polls[t].end.FoundReplaced? then t + 1 else t)
                   && (forall i | 0 <= i <= t ::
                         RestartsOf(run[i].row) == RestartsOf(run[0].row) && run[i].handled == run[0].handled)
                   && (forall i | t < i <= |polls| :: RestartsOf(run[i].row) == RestartsOf(run[0].row) + 1)
    decreases |polls|
  {
    hide Polled, Slice, Entries, SignedRoom, Abreast, HandedOver;
    if t :| 0 <= t < |polls| && RestartsOf(run[t + 1].row) != RestartsOf(run[t].row) {
      StillUntilReplaced(digest, isDid, run, polls, r, t);
      from := AfterReplaced(digest, isDid, run, polls, r, t);
      HandedOverFrom(run[t], run[0], run[|polls|], r, 0, |polls| - from);
    } else {
      from := 0;
      forall i | 0 <= i < |run| ensures RestartsOf(run[i].row) == RestartsOf(run[0].row) {
        SameRestarts(run, i);
      }
      NoneReplaced(digest, isDid, run, polls, r);
    }
  }

  // ------------------------------------------------------------ when positions are checked

  /** When a cycle began, whether the process was started just before it, when that process had last
      checked its position, and the lifetime the cycle was told of. */
  datatype Clock = Clock(now: real, started: bool, probed: Option<real>, told: Option<nat>)

  /** A poll past the start of the room is due when its process has not checked its position, or not
      in the last 600 seconds, or when another lifetime than the cursor's is named; no other poll
      is. And what a process remembers of its checks it has from its own polls. */
  ghost predicate Clocked(run: seq<Standing>, polls: seq<Poll>, clocks: seq<Clock>) {
    && |run| == |polls| + 1 == |clocks| + 1
    && (forall i | 0 <= i < |clocks| ::
          && (clocks[i].started ==> clocks[i].probed.None?)
          && (polls[i].due <==>
                Cursor(run[i]) > 0
                && (clocks[i].probed.None? || clocks[i].now - clocks[i].probed.value >= 600.0
                    || (clocks[i].told.Some? && GenerationOf(run[i].row).Some?
                        && clocks[i].told != GenerationOf(run[i].row)))))
    && (forall i | 0 < i < |clocks| && !clocks[i].started ::
          clocks[i].probed == clocks[i - 1].probed
          || (polls[i - 1].due && clocks[i].probed == Some(clocks[i - 1].now)))
  }

  /** The first poll a process makes past the start of the room is due, whenever the process was
      started and whatever was in the room before; so a room that stands still during it keeps
      nothing unhandled at or below the cursor, unless it cannot be told from the one on record. */
  lemma {:induction false} FirstLookIsChecked(
      digest: string -> string, isDid: string -> bool, run: seq<Standing>, polls: seq<Poll>,
      clocks: seq<Clock>, s: nat, i: nat)
    requires Run(digest, isDid, run, polls) && Clocked(run, polls, clocks)
    requires s <= i < |polls| && clocks[s].started
    requires forall k | s < k <= i :: !clocks[k].started
    requires (forall k | s <= k < i :: Cursor(run[k]) == 0) && Cursor(run[i]) > 0
    ensures clocks[i].probed.None? && polls[i].due
    ensures run[i].room == run[i + 1].room && run[i].room.Wf() && !polls[i].end.Raised? ==>
              var b := run[i + 1];
              (Cursor(b) == 0 && b.handled == run[i].handled) || HeldHandled(b.room, Cursor(b), b.handled)
              <==> !Indistinguishable(digest, run[i])
  {
    hide Polled, HeldHandled, Indistinguishable;
    var k := s;
    while k < i
      invariant s <= k <= i && clocks[k].probed.None?
    {
      k := k + 1;
    }
    assert Next(digest, isDid, run[i], run[i + 1], polls[i]);
    if run[i].room == run[i + 1].room && run[i].room.Wf() && !polls[i].end.Raised? {
      DuePollLeavesNothingBehind(digest, isDid, run[i], run[i + 1], polls[i]);
    }
  }

  lemma {:induction false} OneMorePoll(
      digest: string -> string, isDid: string -> bool, run: seq<Standing>, polls: seq<Poll>,
      clocks: seq<Clock>, b: Standing, p: Poll, clock: Clock)
    requires Run(digest, isDid, run, polls) && Clocked(run, polls, clocks)
    requires Next(digest, isDid, run[|polls|], b, p)
    requires Clocked([run[|polls|], b], [p], [clock])
    requires clocks != [] && !clock.started ==>
               var last := |clocks| - 1;
               clock.probed == clocks[last].probed
               || (polls[last].due && clock.probed == Some(clocks[last].now))
    ensures Run(digest, isDid, run + [b], polls + [p])
    ensures Clocked(run + [b], polls + [p], clocks + [clock])
  {
    hide Polled;
    var k := |polls|;
    forall i | 0 <= i <= k
      ensures Next(digest, isDid, (run + [b])[i], (run + [b])[i + 1], (polls + [p])[i])
    {
      if i < k {
        assert Next(digest, isDid, run[i], run[i + 1], polls[i]);
      }
    }
    var two := [run[k], b];
    assert two[0] == run[k] && [p][0] == p && [clock][0] == clock;
  }

  // ------------------------------------------------------------ the loop itself

  /** `run_mailbox` for any number of cycles and any number of deaths between them, beside
      whatever else the node does. On a mailbox that keeps its numbering, every message numbered up
      to the cursor has its job's receipt or its refusal in the ledger, or left the room before the
      cursor passed it, and no refusal vouches for two lines. And with the ledger to itself the
      node answers each job once: every receipt that was there is the one that is there, and every
      job is finished exactly when it has one. What the cycles were is returned: a run in the sense
      of every theorem here, with the times at which positions were checked. */
  method RunMailbox(node: Node, cycles: nat)
    returns (ghost run: seq<Standing>, ghost polls: seq<Poll>, ghost clocks: seq<Clock>)
    requires node.Wired() && node.upstream.room.Wf()
    requires node.ledger.cursorRow.None? && node.ledger.messages == []
    requires node.handled == [] && node.rowOf == [] && node.gone == {}
    modifies node, node.upstream, node.ledger, node.reader, node.runner
    ensures var r := node.upstream.room;
            r.life == old(node.upstream.room.life) && SignedRoom(node.intake.isDid, r) ==>
              && RestartsOf(node.ledger.cursorRow) == 0
              && node.ledger.Cursor() <= |r.log|
              && forall n | 0 < n <= node.ledger.Cursor() ::
                   Accounted(node.intake, node.ledger.db, r.log[n - 1]) || (r.life, n) in node.gone
    ensures forall g | g in node.gone && g.0 == node.upstream.room.life
                       && node.upstream.room.life == old(node.upstream.room.life) ::
              g.1 <= node.upstream.room.base
    ensures node.Accounts()
    ensures Onward(node.ledger.alone, old(node.ledger.db), node.ledger.db)
    ensures Run(node.reader.digest, node.intake.isDid, run, polls) && |polls| == cycles
    ensures run[0] == old(node.Stands()) && run[cycles] == node.Stands()
    ensures Clocked(run, polls, clocks)
  {
    hide NewestAt, Polled, Accounted, Sound, Onward, Run, Clocked, SignedRoom;
    run, polls, clocks := [node.Stands()], [], [];
    NoPollsYet(node.reader.digest, node.intake.isDid, node.Stands());
    OnwardStill(node.ledger.alone, node.ledger.db);
    var i := 0;
    while i < cycles
      invariant node.Wired() && node.upstream.room.Wf()
      invariant EventsPlaced(node.ledger.messages) && node.Accounts()
      invariant old(node.upstream.room.life) <= node.upstream.room.life
      invariant old(node.upstream.room.life) == node.upstream.room.life ==>
                  Sound(node.reader.digest, node.intake.isDid, node.Stands())
      invariant Onward(node.ledger.alone, old(node.ledger.db), node.ledger.db)
      invariant i <= cycles && |run| == i + 1 && |polls| == |clocks| == i
      invariant run[0] == old(node.Stands()) && run[i] == node.Stands()
      invariant Run(node.reader.digest, node.intake.isDid, run, polls) && Clocked(run, polls, clocks)
      invariant i > 0 ==>
                  node.reader.epochProbed == clocks[i - 1].probed
                  || (polls[i - 1].due && node.reader.epochProbed == Some(clocks[i - 1].now))
    {
      ghost var before, tables := node.Stands(), node.ledger.db;
      ghost var poll, clock := OneCycle(node);
      OnwardComposes(node.ledger.alone, old(node.ledger.db), tables, node.ledger.db);
      SoundStep(node.reader.digest, node.intake.isDid, before, node.Stands(), poll);
      OneMorePoll(node.reader.digest, node.intake.isDid, run, polls, clocks, node.Stands(), poll, clock);
      run, polls, clocks := run + [node.Stands()], polls + [poll], clocks + [clock];
      i := i + 1;
    }
    AccountedBelow(node.reader.digest, node.intake, node.ledger.db, node.Stands(), node.rowOf);
  }

  /** One cycle, beside whatever else the node does, in a process that may just have been started. */
  method OneCycle(node: Node) returns (ghost poll: Poll, ghost clock: Clock)
    requires node.Wired() && node.upstream.room.Wf()
    requires EventsPlaced(node.ledger.messages) && node.Accounts()
    modifies node, node.upstream, node.ledger, node.reader, node.runner
    ensures node.Wired() && EventsPlaced(node.ledger.messages) && node.Accounts()
    ensures Evolves(old(node.upstream.room), node.upstream.room)
    ensures Onward(node.ledger.alone, old(node.ledger.db), node.ledger.db)
    ensures Next(node.reader.digest, node.intake.isDid, old(node.Stands()), node.Stands(), poll)
    ensures Clocked([old(node.Stands()), node.Stands()], [poll], [clock])
    ensures !clock.started ==> clock.probed == old(node.reader.epochProbed)
    ensures node.reader.epochProbed == clock.probed
            || (poll.due && node.reader.epochProbed == Some(clock.now))
  {
    hide NewestAt, Polled, Clocked, AllAccounted, Asked, Onward;
    var started := *;
    if started {
      node.reader.epochProbed := None;
    }
    OthersGoOn(node);
    ghost var before, tables, probed := node.Stands(), node.ledger.db, node.reader.epochProbed;
    var now: real := *;
    var end;
    ghost var seen, lo, n, told, due;
    end, seen, lo, n, told, due := node.PollMailboxOnce(now);
    OnwardComposes(node.ledger.alone, old(node.ledger.db), tables, node.ledger.db);
    poll, clock := Poll(due, end, seen, lo, n), Clock(now, started, probed, told);
    OnePollClocked(before, node.Stands(), poll, clock);
  }

  lemma NoPollsYet(digest: string -> string, isDid: string -> bool, s: Standing)
    ensures Run(digest, isDid, [s], []) && Clocked([s], [], [])
    ensures s.row.None? && s.gone == {} ==> Sound(digest, isDid, s)
  {
    if s.row.None? {
      FreshIsCovered(digest, s);
    }
  }

  lemma OnePollClocked(a: Standing, b: Standing, p: Poll, clock: Clock)
    requires clock.started ==> clock.probed.None?
    requires p.due <==>
               Cursor(a) > 0
               && (clock.probed.None? || clock.now - clock.probed.value >= 600.0
                   || (clock.told.Some? && GenerationOf(a.row).Some? && clock.told != GenerationOf(a.row)))
    ensures Clocked([a, b], [p], [clock])
  {
  }

  /** Between two cycles the rest of the node goes on. */
  method OthersGoOn(node: Node)
    requires node.Wired() && node.Accounts()
    modifies node.ledger`db, node.runner`inFlight
    ensures node.Accounts() && Onward(node.ledger.alone, old(node.ledger.db), node.ledger.db)
  {
    hide AllAccounted, Grows;
    node.runner.OtherCallers(None);
    node.ledger.OtherLanes(None);
    AccountedStays(node.intake, old(node.ledger.db), node.ledger.db, node.handled, node.rowOf);
    LanesGoOnward(node.ledger.alone, old(node.ledger.db), node.ledger.db);
  }

  ghost predicate Sound(digest: string -> string, isDid: string -> bool, s: Standing) {
    && (SignedRoom(isDid, s.room) ==> Abreast(digest, s) && RestartsOf(s.row) == 0
                                      && Covered(s.room, Cursor(s), s.handled, s.gone))
    && forall g | g in s.gone && g.0 == s.room.life :: g.1 <= s.room.base
  }

  lemma SoundStep(digest: string -> string, isDid: string -> bool, a: Standing, b: Standing, p: Poll)
    requires Next(digest, isDid, a, b, p)
    ensures a.room.life <= b.room.life
    ensures a.room.life == b.room.life && Sound(digest, isDid, a) ==> Sound(digest, isDid, b)
  {
    hide NewestAt, Slice, Entries, Faithful, Covered;
    if a.room.life == b.room.life && Sound(digest, isDid, a) {
      if SignedRoom(isDid, b.room) {
        assert forall i | 0 <= i < |a.room.log| :: a.room.log[i] == b.room.log[i];
        PollKeepsAbreast(digest, isDid, a, b, p);
        PollKeepsCovered(digest, isDid, a, b, p);
      }
    }
  }

  lemma {:induction false} AccountedBelow(
      digest: string -> string, intake: Intake, db: Tables.Db, s: Standing, rowOf: seq<Option<nat>>)
    requires AllAccounted(intake, db, s.handled, rowOf)
    ensures Sound(digest, intake.isDid, s) ==>
              && (forall g | g in s.gone && g.0 == s.room.life :: g.1 <= s.room.base)
              && (SignedRoom(intake.isDid, s.room) ==>
                    && RestartsOf(s.row) == 0 && Cursor(s) <= |s.room.log|
                    && forall n | 0 < n <= Cursor(s) ::
                         Accounted(intake, db, s.room.log[n - 1]) || (s.room.life, n) in s.gone)
  {
    hide Vouched;
    if Covered(s.room, Cursor(s), s.handled, s.gone) {
      forall n | 0 < n <= Cursor(s) && (s.room.life, n) !in s.gone
        ensures Accounted(intake, db, s.room.log[n - 1])
      {
        var i :| 0 <= i < |s.handled| && s.handled[i] == Handled(s.room.life, Record(n, s.room.log[n - 1]));
        assert Vouched(intake, db, s.handled[i].record.message, rowOf[i]);
      }
    }
  }
}
