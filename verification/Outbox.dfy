/** The audit-copy outbox: receipts whose copy is owed to the room this node owns, the sync that
    recognises copies already there, and the reconciler that posts the rest. */
module Outbox {
  import opened Basics
  import opened Tables
  import opened Rooms
  import opened LedgerStore
  import opened RoomReader

  const MAX_AUDIT_ATTEMPTS := 5
  const RECONCILE_LIMIT := 3

  /** What a published receipt says that the sync compares. */
  datatype Copy = Copy(job: JobId, hash: string)

  datatype AuditState = Owed | Published | Quarantined

  /** The audit columns of a `receipts` row. `sound` is whether `_unpublishable` finds nothing
      wrong with the stored receipt. */
  datatype AuditRow = AuditRow(
    hash: string, internal: bool, createdAt: nat, sound: bool,
    state: AuditState, attempts: nat, auditSeq: Option<nat>)

  type Audit = map<JobId, AuditRow>

  predicate Awaiting(row: AuditRow) {
    row.state.Owed? && row.auditSeq.None? && !row.internal
  }

  // ------------------------------------------------------------------ the writes

  datatype AuditAction =
    | Arrived(job: JobId, row: AuditRow)
    | Observe(observed: map<JobId, (nat, string)>)
    | Landed(job: JobId, seqNo: nat)
    | AttemptFailed(job: JobId)
    | Unpublishable(job: JobId)

  function MarkPublished(rows: Audit, observed: map<JobId, (nat, string)>): Audit {
    map job | job in rows ::
      if job in observed && rows[job].hash == observed[job].1 && !rows[job].state.Published?
      then rows[job].(auditSeq := Some(observed[job].0), state := Published)
      else rows[job]
  }

  function NoteAttempt(row: AuditRow): AuditRow {
    row.(attempts := row.attempts + 1,
         state := if row.attempts + 1 >= MAX_AUDIT_ATTEMPTS then Quarantined else row.state)
  }

  function Write(rows: Audit, action: AuditAction): Audit {
    match action
    case Arrived(job, row) => if job in rows then rows else rows[job := row]
    case Observe(observed) => MarkPublished(rows, observed)
    case Landed(job, seqNo) =>
      if job in rows then rows[job := rows[job].(auditSeq := Some(seqNo), state := Published)] else rows
    case AttemptFailed(job) => if job in rows then rows[job := NoteAttempt(rows[job])] else rows
    case Unpublishable(job) =>
      if job in rows then rows[job := rows[job].(state := Quarantined)] else rows
  }

  function WriteAll(rows: Audit, actions: seq<AuditAction>): Audit {
    if actions == [] then rows
    else Write(WriteAll(rows, actions[..|actions| - 1]), actions[|actions| - 1])
  }

  /** The writes as reconciliation drives them: a row's copy is attempted only while it is owed. */
  ghost predicate Driven(rows: Audit, action: AuditAction) {
    match action
    case Arrived(job, row) =>
      row.attempts == 0 && row.auditSeq.None? && row.state == (if row.internal then Published else Owed)
    case Observe(_) => true
    case Landed(job, _) => job in rows && Awaiting(rows[job])
    case AttemptFailed(job) => job in rows && Awaiting(rows[job])
    case Unpublishable(job) => job in rows && Awaiting(rows[job])
  }

  ghost predicate DrivenRun(rows: Audit, actions: seq<AuditAction>)
    decreases |actions|
  {
    actions != [] ==>
      && DrivenRun(rows, actions[..|actions| - 1])
      && Driven(WriteAll(rows, actions[..|actions| - 1]), actions[|actions| - 1])
  }

  /** The failed attempts counted against one receipt. */
  function Failures(actions: seq<AuditAction>, job: JobId): nat {
    if actions == [] then 0
    else Failures(actions[..|actions| - 1], job)
         + if actions[|actions| - 1] == AttemptFailed(job) then 1 else 0
  }

  /** How many more failures a receipt may have: none once it has left the queue. */
  function Budget(rows: Audit, job: JobId): nat {
    if job in rows && rows[job].state.Owed? then Max(0, 5 - rows[job].attempts)
    else if job in rows then 0
    else 5
  }

  ghost predicate Kept(rows: Audit) {
    forall job | job in rows :: rows[job].state.Owed? ==> rows[job].attempts < MAX_AUDIT_ATTEMPTS
  }

  /** What no driven write undoes. */
  ghost predicate Onward(rows: Audit, later: Audit, job: JobId) {
    job in rows ==>
      && job in later
      && later[job].hash == rows[job].hash && later[job].internal == rows[job].internal
      && (rows[job].state.Published? ==> later[job] == rows[job])
      && (later[job].state.Owed? ==> rows[job].state.Owed?)
  }

  lemma {:induction false} DrainStep(rows: Audit, action: AuditAction, job: JobId)
    requires Kept(rows) && Driven(rows, action)
    ensures var next := Write(rows, action);
            && Kept(next) && Onward(rows, next, job)
            && (if action == AttemptFailed(job) then 1 else 0) + Budget(next, job) <= Budget(rows, job)
  {
  }

  /** The queue drains: each counted failure costs its receipt one of five, nothing ever gives
      one back, a receipt out of the queue never returns to it, and a published one stays
      exactly as it is. */
  lemma {:induction false} OutboxDrains(rows: Audit, actions: seq<AuditAction>, job: JobId)
    requires Kept(rows) && DrivenRun(rows, actions)
    ensures var end := WriteAll(rows, actions);
            && Kept(end)
            && Failures(actions, job) + Budget(end, job) <= Budget(rows, job)
            && Onward(rows, end, job)
    decreases |actions|
  {
    hide Write, Driven, Kept, Budget;
    if actions != [] {
      var init := actions[..|actions| - 1];
      OutboxDrains(rows, init, job);
      DrainStep(WriteAll(rows, init), actions[|actions| - 1], job);
    }
  }

  /** Whatever these writes are and in whatever order, driven or not: a receipt with a seq on
      record keeps one, so its copy is never again among those awaiting. */
  lemma {:induction false} NeverAnnouncedAgain(rows: Audit, actions: seq<AuditAction>, job: JobId)
    requires job in rows && rows[job].auditSeq.Some?
    ensures job in WriteAll(rows, actions) && !Awaiting(WriteAll(rows, actions)[job])
    ensures WriteAll(rows, actions)[job].auditSeq.Some?
    decreases |actions|
  {
    if actions != [] {
      NeverAnnouncedAgain(rows, actions[..|actions| - 1], job);
    }
  }

  /** Left to itself the failure count does not look at the state: a failed attempt at a copy
      that has landed meanwhile leaves it published exactly when it is not the fifth. */
  lemma LateFailure(rows: Audit, job: JobId)
    requires job in rows && rows[job].state.Published?
    ensures Write(rows, AttemptFailed(job))[job].state.Published?
            <==> rows[job].attempts < 4
  {
  }

  lemma {:induction false} Extend(rows: Audit, actions: seq<AuditAction>, action: AuditAction)
    requires DrivenRun(rows, actions) && Driven(WriteAll(rows, actions), action)
    ensures DrivenRun(rows, actions + [action])
    ensures WriteAll(rows, actions + [action]) == Write(WriteAll(rows, actions), action)
  {
    assert (actions + [action])[..|actions|] == actions;
  }

  // ------------------------------------------------------------------ the selection

  /** ORDER BY audit_attempts, created_at. */
  predicate NoLater(a: AuditRow, b: AuditRow) {
    a.attempts < b.attempts || (a.attempts == b.attempts && a.createdAt <= b.createdAt)
  }

  /** The receipts one pass takes up: different ones, each third-party, owed and without a seq; in
      ascending order of failed attempts and then of age; as many as there are up to the limit; and
      none that was left out has failed less often than one taken, or as often and is older. */
  ghost predicate Selected(rows: Audit, limit: nat, picked: seq<JobId>) {
    && |picked| <= limit
    && (forall i | 0 <= i < |picked| ::
          && picked[i] in rows
          && rows[picked[i]].state == Owed && rows[picked[i]].auditSeq == None && !rows[picked[i]].internal)
    && (forall i, k | 0 <= i < k < |picked| ::
          && picked[i] != picked[k]
          && rows[picked[i]].attempts <= rows[picked[k]].attempts
          && (rows[picked[i]].attempts == rows[picked[k]].attempts ==>
                rows[picked[i]].createdAt <= rows[picked[k]].createdAt))
    && (forall job, i | job in rows && job !in picked && 0 <= i < |picked|
                        && rows[job].state == Owed && rows[job].auditSeq == None && !rows[job].internal ::
          && rows[picked[i]].attempts <= rows[job].attempts
          && (rows[picked[i]].attempts == rows[job].attempts ==>
                rows[picked[i]].createdAt <= rows[job].createdAt))
    && (|picked| < limit ==>
          forall job | job in rows && rows[job].state == Owed && rows[job].auditSeq == None
                       && !rows[job].internal :: job in picked)
  }

  method ReceiptsAwaiting(rows: Audit, limit: nat) returns (picked: seq<JobId>)
    ensures Selected(rows, limit, picked)
  {
    picked := [];
    var rest := set job | job in rows && Awaiting(rows[job]);
    while rest != {} && |picked| < limit
      invariant |picked| <= limit
      invariant forall job | job in rows && Awaiting(rows[job]) :: job in rest || job in picked
      invariant forall job | job in rest :: job in rows && Awaiting(rows[job]) && job !in picked
      invariant forall i | 0 <= i < |picked| :: picked[i] in rows && Awaiting(rows[picked[i]])
      invariant forall i, k | 0 <= i < k < |picked| ::
                  picked[i] != picked[k] && NoLater(rows[picked[i]], rows[picked[k]])
      invariant forall job, i | job in rest && 0 <= i < |picked| :: NoLater(rows[picked[i]], rows[job])
      decreases rest
    {
      var first := First(rows, rest);
      picked, rest := picked + [first], rest - {first};
    }
  }

  method First(rows: Audit, among: set<JobId>) returns (first: JobId)
    requires among != {} && among <= rows.Keys
    ensures first in among
    ensures forall job | job in among :: NoLater(rows[first], rows[job])
  {
    first :| first in among;
    var rest := among - {first};
    while rest != {}
      invariant first in among && rest <= among
      invariant forall job | job in among - rest :: NoLater(rows[first], rows[job])
      decreases rest
    {
      var next :| next in rest;
      if !NoLater(rows[first], rows[next]) {
        first := next;
      }
      rest := rest - {next};
    }
  }

  // ------------------------------------------------------------------ what a sync can see

  /** Which messages of the room are copies: written by this node's key and of type receipt. */
  datatype Author = Author(did: string, asCopy: string -> Option<Copy>, render: Copy -> string) {
    function Own(m: Message): Option<Copy> {
      if m.from == did then asCopy(m.text) else None
    }

    /** What is rendered reads back. */
    ghost predicate Legible() {
      forall c :: asCopy(render(c)) == Some(c)
    }
  }

  predicate Names(author: Author, m: Message, job: JobId) {
    author.Own(m).Some? && author.Own(m).value.job == job
  }

  /** `observed`: the last copy of each job wins. */
  function Observed(author: Author, records: seq<Record>): map<JobId, (nat, string)>
    decreases |records|
  {
    if records == [] then map[]
    else
      var observed, last := Observed(author, records[..|records| - 1]), records[|records| - 1];
      match author.Own(last.message)
      case None => observed
      case Some(copy) => observed[copy.job := (last.at, copy.hash)]
  }

  /** The held messages past a position. */
  function Past(r: Room, since: nat): seq<Record>
    requires r.base <= |r.log|
  {
    if Max(r.base, since) <= |r.log| then Slice(r.log, Max(r.base, since), |r.log|) else []
  }

  /** The copies held up to a seq whose hash is the stored row's are marked published. */
  ghost predicate MarkedThrough(author: Author, rows: Audit, r: Room, upto: nat) {
    forall n: nat | r.Holds(n) && n <= upto && author.Own(r.log[n - 1]).Some? ::
      Settled(rows, author.Own(r.log[n - 1]).value)
  }

  ghost predicate Settled(rows: Audit, copy: Copy) {
    copy.job in rows && rows[copy.job].hash == copy.hash ==> rows[copy.job].state.Published?
  }

  ghost predicate LastNaming(author: Author, records: seq<Record>, job: JobId, m: nat) {
    && m < |records| && Names(author, records[m].message, job)
    && forall k | m < k < |records| :: !Names(author, records[k].message, job)
  }

  /** A matching copy hidden by a later one of the same job's that does not match: the sync keeps
      only the last it saw of each job. */
  ghost predicate Shadowed(author: Author, rows: Audit, records: seq<Record>, job: JobId) {
    && job in rows && !rows[job].state.Published?
    && var copy := Some(Copy(job, rows[job].hash));
       exists n, m | 0 <= n < m && LastNaming(author, records, job, m) ::
         author.Own(records[n].message) == copy != author.Own(records[m].message)
  }

  lemma LastNamingIsOne(author: Author, records: seq<Record>, job: JobId, a: nat, b: nat)
    requires LastNaming(author, records, job, a) && LastNaming(author, records, job, b)
    ensures a == b
  {
  }

  /** What ends up under a job's name: its last copy in the records, if it has one. */
  lemma {:induction false} ObservedIsLast(author: Author, records: seq<Record>, job: JobId)
    returns (last: Option<nat>)
    ensures last.Some? <==> job in Observed(author, records)
    ensures last.None? ==> forall i | 0 <= i < |records| :: !Names(author, records[i].message, job)
    ensures last.Some? ==>
              && LastNaming(author, records, job, last.value)
              && author.Own(records[last.value].message) == Some(Copy(job, Observed(author, records)[job].1))
              && records[last.value].at == Observed(author, records)[job].0
    decreases |records|
  {
    if records == [] {
      last := None;
    } else {
      var k := |records| - 1;
      var before := ObservedIsLast(author, records[..k], job);
      last := if Names(author, records[k].message, job) then Some(k) else before;
      assert records[..k] + [records[k]] == records;
    }
  }

  /** Only what this node's own key wrote is a copy, and of those only what parses as one; and what
      ends up under a job's name is the seq and the hash of its last one. */
  lemma {:induction false} OnlyOwnCopiesAreObserved(author: Author, records: seq<Record>, job: JobId)
    ensures job in Observed(author, records) <==>
            exists i | 0 <= i < |records| :: IsCopyOf(author, records[i], job)
    ensures job in Observed(author, records) ==>
              var (at, hash) := Observed(author, records)[job];
              exists i | 0 <= i < |records| ::
                && IsCopyOf(author, records[i], job)
                && records[i].at == at && author.asCopy(records[i].message.text).value.hash == hash
                && forall k | i < k < |records| :: !IsCopyOf(author, records[k], job)
  {
    hide Observed;
    var last := ObservedIsLast(author, records, job);
    if last.Some? {
      assert IsCopyOf(author, records[last.value], job);
    }
  }

  ghost predicate IsCopyOf(author: Author, record: Record, job: JobId) {
    && record.message.from == author.did
    && author.asCopy(record.message.text).Some? && author.asCopy(record.message.text).value.job == job
  }

  /** What a sync marks it marks with the seq of a copy of the stored receipt's, of this node's own
      writing, and nothing else of the row. */
  lemma {:induction false} MarkedWhereItStands(author: Author, rows: Audit, records: seq<Record>, job: JobId)
    requires job in rows
    ensures var marked := MarkPublished(rows, Observed(author, records))[job];
            || marked == rows[job]
            || (!rows[job].state.Published? && marked.state == Published && marked.auditSeq.Some?
                && marked == rows[job].(state := Published, auditSeq := marked.auditSeq)
                && exists i | 0 <= i < |records| ::
                     records[i].at == marked.auditSeq.value && records[i].message.from == author.did
                     && author.asCopy(records[i].message.text) == Some(Copy(job, rows[job].hash)))
  {
    hide Observed;
    var last := ObservedIsLast(author, records, job);
    if last.Some? {
      assert Names(author, records[last.value].message, job);
    }
  }

  /** The last copy of the job's among the records is the stored receipt's. */
  ghost predicate VouchedFor(author: Author, rows: Audit, records: seq<Record>, job: JobId)
    requires job in rows
  {
    exists m: nat :: LastNaming(author, records, job, m)
                     && author.Own(records[m].message) == Some(Copy(job, rows[job].hash))
  }

  /** The room holds the receipt's copy, and reading the records does not mark it. */
  ghost predicate Missed(author: Author, rows: Audit, r: Room, records: seq<Record>, job: JobId) {
    && job in rows && !rows[job].state.Published?
    && !Unheard(author, r, Copy(job, rows[job].hash))
    && !VouchedFor(author, rows, records, job)
  }

  lemma {:induction false} MarkedIsVouchedFor(author: Author, rows: Audit, records: seq<Record>, job: JobId)
    requires job in rows
    ensures MarkPublished(rows, Observed(author, records))[job].state.Published?
            <==> rows[job].state.Published? || VouchedFor(author, rows, records, job)
    ensures MarkPublished(rows, Observed(author, records))[job].hash == rows[job].hash
  {
    hide Observed;
    var last := ObservedIsLast(author, records, job);
    if VouchedFor(author, rows, records, job) {
      var m: nat :| LastNaming(author, records, job, m)
                    && author.Own(records[m].message) == Some(Copy(job, rows[job].hash));
      assert last.Some? by {
        assert Names(author, records[m].message, job);
      }
      LastNamingIsOne(author, records, job, m, last.value);
    }
  }

  /** A sync from any position of any room marks every copy the room holds whose hash is its
      stored receipt's - exactly when it misses none. */
  lemma {:induction false} SyncMarksExactly(author: Author, rows: Audit, r: Room, since: nat)
    requires r.Wf()
    ensures MarkedThrough(author, MarkPublished(rows, Observed(author, Past(r, since))), r, |r.log|)
            <==> forall job | job in rows :: !Missed(author, rows, r, Past(r, since), job)
  {
    hide Observed, VouchedFor, MarkPublished;
    var records := Past(r, since);
    var marked := MarkPublished(rows, Observed(author, records));
    MarkingKeepsKeys(rows, Observed(author, records));
    forall job | job in rows
      ensures Missed(author, rows, r, records, job)
              <==> !marked[job].state.Published? && !Unheard(author, r, Copy(job, marked[job].hash))
    {
      MarkedIsVouchedFor(author, rows, records, job);
    }
    MarkedMeansUnheard(author, marked, r);
  }

  lemma MarkingKeepsKeys(rows: Audit, observed: map<JobId, (nat, string)>)
    ensures MarkPublished(rows, observed).Keys == rows.Keys
  {
  }

  /** Every matching copy is marked exactly when no unpublished receipt has one in the room. */
  lemma {:induction false} MarkedMeansUnheard(author: Author, rows: Audit, r: Room)
    ensures MarkedThrough(author, rows, r, |r.log|)
            <==> forall job | job in rows && !rows[job].state.Published? ::
                   Unheard(author, r, Copy(job, rows[job].hash))
  {
    if !MarkedThrough(author, rows, r, |r.log|) {
      var n: nat :| r.Holds(n) && author.Own(r.log[n - 1]).Some?
                    && !Settled(rows, author.Own(r.log[n - 1]).value);
      var job := author.Own(r.log[n - 1]).value.job;
      assert !Unheard(author, r, Copy(job, rows[job].hash));
    } else {
      forall job | job in rows && !rows[job].state.Published?
        ensures Unheard(author, r, Copy(job, rows[job].hash))
      {
        forall n: nat | r.Holds(n) ensures author.Own(r.log[n - 1]) != Some(Copy(job, rows[job].hash)) {
          assert author.Own(r.log[n - 1]).Some? ==> Settled(rows, author.Own(r.log[n - 1]).value);
        }
      }
    }
  }

  /** A sync from a position up to which everything is marked marks every matching copy the room
      holds - exactly when no matching copy is shadowed. */
  lemma {:induction false} SyncMarksAll(author: Author, rows: Audit, r: Room, since: nat)
    requires r.Wf() && MarkedThrough(author, rows, r, since)
    ensures MarkedThrough(author, MarkPublished(rows, Observed(author, Past(r, since))), r, |r.log|)
            <==> forall job | job in rows :: !Shadowed(author, rows, Past(r, since), job)
  {
    var marked := MarkPublished(rows, Observed(author, Past(r, since)));
    if forall job | job in rows :: !Shadowed(author, rows, Past(r, since), job) {
      forall n: nat | r.Holds(n) && author.Own(r.log[n - 1]).Some?
        ensures Settled(marked, author.Own(r.log[n - 1]).value)
      {
        if n > since {
          UnshadowedIsMarked(author, rows, r, since, n);
        }
      }
    }
    forall job | job in rows && Shadowed(author, rows, Past(r, since), job)
      ensures !MarkedThrough(author, marked, r, |r.log|)
    {
      ShadowedIsMissed(author, rows, r, since, job);
    }
  }

  lemma {:induction false} UnshadowedIsMarked(author: Author, rows: Audit, r: Room, since: nat, n: nat)
    requires r.Wf() && r.Holds(n) && n > since && author.Own(r.log[n - 1]).Some?
    requires var job := author.Own(r.log[n - 1]).value.job;
             job in rows ==> !Shadowed(author, rows, Past(r, since), job)
    ensures Settled(MarkPublished(rows, Observed(author, Past(r, since))), author.Own(r.log[n - 1]).value)
  {
    hide Observed;
    var copy, records := author.Own(r.log[n - 1]).value, Past(r, since);
    var i := n - 1 - Max(r.base, since);
    assert records[i].message == r.log[n - 1];
    assert Names(author, records[i].message, copy.job);
    var last := ObservedIsLast(author, records, copy.job);
    if copy.job in rows && rows[copy.job].hash == copy.hash && !rows[copy.job].state.Published? {
      assert i <= last.value;
      assert author.Own(records[last.value].message) == Some(copy);
    }
  }

  lemma {:induction false} ShadowedStaysOwed(author: Author, rows: Audit, records: seq<Record>, job: JobId)
    returns (n: nat)
    requires Shadowed(author, rows, records, job)
    ensures n < |records| && author.Own(records[n].message) == Some(Copy(job, rows[job].hash))
    ensures MarkPublished(rows, Observed(author, records))[job] == rows[job]
  {
    hide Observed;
    var copy := Some(Copy(job, rows[job].hash));
    var m;
    n, m :| 0 <= n < m && LastNaming(author, records, job, m)
            && author.Own(records[n].message) == copy != author.Own(records[m].message);
    var last := ObservedIsLast(author, records, job);
    assert last.Some? by {
      assert Names(author, records[m].message, job);
    }
    LastNamingIsOne(author, records, job, m, last.value);
  }

  lemma {:induction false} ShadowedIsMissed(author: Author, rows: Audit, r: Room, since: nat, job: JobId)
    requires r.Wf() && Shadowed(author, rows, Past(r, since), job)
    ensures !MarkedThrough(author, MarkPublished(rows, Observed(author, Past(r, since))), r, |r.log|)
  {
    var records, lo := Past(r, since), Max(r.base, since);
    var n := ShadowedStaysOwed(author, rows, records, job);
    hide Shadowed, Observed;
    assert r.Holds(lo + n + 1) && r.log[lo + n] == records[n].message;
    assert !Settled(MarkPublished(rows, Observed(author, records)), author.Own(r.log[lo + n]).value);
  }

  /** What is marked stays marked while the room is only written to and evicted from. */
  lemma MarkedLater(author: Author, rows: Audit, r: Room, later: Room, upto: nat)
    requires MarkedThrough(author, rows, r, upto) && Evolves(r, later) && r.life == later.life
    requires upto <= |r.log|
    ensures MarkedThrough(author, rows, later, upto)
  {
    forall n: nat | later.Holds(n) && n <= upto ensures r.Holds(n) && r.log[n - 1] == later.log[n - 1] {
    }
  }

  /** A driven write leaves every marked copy marked, as long as a receipt that arrives has a
      hash no copy in the room has yet. */
  lemma {:induction false} MarkedKept(author: Author, rows: Audit, action: AuditAction, r: Room, upto: nat)
    requires MarkedThrough(author, rows, r, upto) && Driven(rows, action) && !action.Observe?
    requires action.Arrived? ==> Unheard(author, r, Copy(action.job, action.row.hash))
    ensures MarkedThrough(author, Write(rows, action), r, upto)
  {
    forall n: nat | r.Holds(n) && n <= upto && author.Own(r.log[n - 1]).Some?
      ensures Settled(Write(rows, action), author.Own(r.log[n - 1]).value)
    {
      assert Settled(rows, author.Own(r.log[n - 1]).value);
    }
  }

  /** No message the room holds is this copy. */
  predicate Unheard(author: Author, r: Room, copy: Copy) {
    forall n: nat | 0 < n <= |r.log| && r.Holds(n) :: author.Own(r.log[n - 1]) != Some(copy)
  }

  /** Where an outbox stands with its room. `readLife` is the last lifetime of the room of which
      everything up to the cursor has been read, `shadowed` whether any sync met a copy hidden by
      a later one of its job's. */
  datatype Point = Point(rows: Audit, room: Room, cursor: nat, readLife: nat, shadowed: bool)

  /** One event of a run: the room changes, by a renumbering perhaps; a driven write is made; the
      room is found replaced; a sync dies between its marks and its cursor; or a sync completes. */
  datatype Event = RoomMoves | Writes(action: AuditAction) | Restarts | Marks | Syncs

  ghost predicate Follows(author: Author, a: Point, e: Event, b: Point) {
    match e
    case RoomMoves => Evolves(a.room, b.room) && b == a.(room := b.room)
    case Writes(action) =>
      && Driven(a.rows, action) && !action.Observe?
      && (action.Arrived? ==> Unheard(author, a.room, Copy(action.job, action.row.hash)))
      && b == a.(rows := Write(a.rows, action))
    case Restarts => b == a.(cursor := 0)
    case Marks => a.room.Wf() && b == a.(rows := Marked(author, a))
    case Syncs =>
      && a.room.Wf()
      && b == Point(Marked(author, a), a.room,
                    Max(a.cursor, if Past(a.room, a.cursor) == [] then 0 else |a.room.log|),
                    if a.cursor == 0 || a.readLife == a.room.life then a.room.life else a.readLife,
                    a.shadowed || !NoneShadowed(author, a))
  }

  ghost function Marked(author: Author, p: Point): Audit
    requires p.room.Wf()
  {
    MarkPublished(p.rows, Observed(author, Past(p.room, p.cursor)))
  }

  ghost predicate NoneShadowed(author: Author, p: Point)
    requires p.room.Wf()
  {
    forall job | job in p.rows :: !Shadowed(author, p.rows, Past(p.room, p.cursor), job)
  }

  /** Nothing is shadowed in a room whose copies are all of the hashes on record. */
  lemma {:induction false} OneHashShadowsNothing(author: Author, p: Point)
    requires p.room.Wf()
    requires forall n: nat | p.room.Holds(n) && author.Own(p.room.log[n - 1]).Some? ::
               var copy := author.Own(p.room.log[n - 1]).value;
               copy.job in p.rows ==> copy.hash == p.rows[copy.job].hash
    ensures NoneShadowed(author, p)
  {
    var records, lo := Past(p.room, p.cursor), Max(p.room.base, p.cursor);
    forall k: nat | k < |records| && author.Own(records[k].message).Some?
      ensures var copy := author.Own(records[k].message).value;
              copy.job in p.rows ==> copy.hash == p.rows[copy.job].hash
    {
      assert p.room.Holds(lo + k + 1) && p.room.log[lo + k] == records[k].message;
    }
  }

  /** In the lifetime that has been read, everything up to the cursor is marked, as long as nothing
      was shadowed. */
  ghost predicate InStep(author: Author, p: Point) {
    && p.room.Wf() && p.readLife <= p.room.life
    && (p.readLife == p.room.life ==>
          p.cursor <= |p.room.log| && (!p.shadowed ==> MarkedThrough(author, p.rows, p.room, p.cursor)))
  }

  /** Every event keeps it; and a sync that ends in a lifetime it has read has marked everything
      there. */
  lemma {:induction false} StaysInStep(author: Author, a: Point, e: Event, b: Point)
    requires InStep(author, a) && Follows(author, a, e, b)
    ensures InStep(author, b)
    ensures e.Syncs? && b.readLife == b.room.life && !b.shadowed ==>
              MarkedThrough(author, b.rows, b.room, |b.room.log|)
    ensures a.readLife == b.room.life ==> b.readLife == b.room.life
  {
    hide MarkedThrough, Shadowed, Observed, MarkPublished, Write, Driven;
    NothingHeldAtNought(author, a.rows, a.room);
    match e
    case RoomMoves =>
      if a.readLife == b.room.life && !a.shadowed {
        MarkedLater(author, a.rows, a.room, b.room, a.cursor);
      }
    case Writes(action) =>
      if a.readLife == a.room.life && !a.shadowed {
        MarkedKept(author, a.rows, action, a.room, a.cursor);
      }
    case Restarts =>
    case Marks =>
      if a.readLife == a.room.life && !a.shadowed {
        MarkingKeepsMarks(author, a.rows, Observed(author, Past(a.room, a.cursor)), a.room, a.cursor);
      }
    case Syncs =>
      if b.readLife == b.room.life && !b.shadowed {
        SyncMarksAll(author, a.rows, a.room, a.cursor);
        MarkedBelow(author, b.rows, b.room, |b.room.log|, b.cursor);
      }
  }

  lemma MarkingKeepsMarks(author: Author, rows: Audit, observed: map<JobId, (nat, string)>, r: Room, upto: nat)
    requires MarkedThrough(author, rows, r, upto)
    ensures MarkedThrough(author, MarkPublished(rows, observed), r, upto)
  {
    forall n: nat | r.Holds(n) && n <= upto && author.Own(r.log[n - 1]).Some?
      ensures Settled(MarkPublished(rows, observed), author.Own(r.log[n - 1]).value)
    {
      assert Settled(rows, author.Own(r.log[n - 1]).value);
    }
  }

  lemma NothingHeldAtNought(author: Author, rows: Audit, r: Room)
    ensures MarkedThrough(author, rows, r, 0)
  {
  }

  lemma MarkedBelow(author: Author, rows: Audit, r: Room, all: nat, upto: nat)
    requires MarkedThrough(author, rows, r, all) && upto <= all
    ensures MarkedThrough(author, rows, r, upto)
  {
  }

  /** Over every run, on a room renumbered at any time: a completed sync that ends in a lifetime it
      has read - always, while the room keeps its numbering, and after a renumbering from the first
      sync that starts over - leaves every copy the room holds whose hash is its stored receipt's
      marked published, as long as nothing was shadowed. */
  lemma {:induction false} EverySyncMarksAll(author: Author, run: seq<Point>, events: seq<Event>, i: nat)
    requires |run| == |events| + 1 && i < |events| && InStep(author, run[0])
    requires forall k | 0 <= k < |events| :: Follows(author, run[k], events[k], run[k + 1])
    ensures InStep(author, run[i + 1]) && run[0].room.life <= run[i + 1].room.life
    ensures events[i].Syncs? && run[i + 1].readLife == run[i + 1].room.life && !run[i + 1].shadowed ==>
              MarkedThrough(author, run[i + 1].rows, run[i + 1].room, |run[i + 1].room.log|)
    ensures run[0].readLife == run[i + 1].room.life ==> run[i + 1].readLife == run[i + 1].room.life
    ensures events[i].Syncs? && run[i].cursor == 0 ==> run[i + 1].readLife == run[i + 1].room.life
    decreases i
  {
    hide MarkedThrough, NoneShadowed, MarkPublished, Observed, Write, Driven;
    if i > 0 {
      EverySyncMarksAll(author, run, events, i - 1);
    }
    assert Follows(author, run[i], events[i], run[i + 1]);
    StaysInStep(author, run[i], events[i], run[i + 1]);
  }

  // ------------------------------------------------------------------ what a check can see

  /** Where a sync whose check is due reads from, in a room that stands still: its first message
      when the room differs from the record at the cursor or ends before it, else the cursor. */
  ghost function StartOf(digest: string -> string, record: seq<MessageRow>, r: Room, cursor: nat): nat {
    if Differs(digest, record, r, cursor) || (|r.log| < cursor && r.base < |r.log|) then 0 else cursor
  }

  /** The room holds the receipt's copy, and a sync whose check is due leaves it unmarked: it is not
      the last of its job's past where that sync reads from. */
  ghost predicate Overlooked(
      digest: string -> string, record: seq<MessageRow>, author: Author, rows: Audit, r: Room,
      cursor: nat, job: JobId)
    requires r.Wf()
  {
    Missed(author, rows, r, Past(r, StartOf(digest, record, r, cursor)), job)
  }

  /** A sync of a room that stood still, judged by a check that was due, marks everything exactly
      when no copy is overlooked. */
  lemma {:induction false} DueSyncMarksExactly(
      digest: string -> string, record: seq<MessageRow>, author: Author, rows: Audit, r: Room,
      cursor: nat, replaced: bool)
    requires r.Wf() && Judged(digest, record, r, cursor, replaced, true)
    ensures var since := if replaced then 0 else cursor;
            && Past(r, since) == Past(r, StartOf(digest, record, r, cursor))
            && (MarkedThrough(author, MarkPublished(rows, Observed(author, Past(r, since))), r, |r.log|)
                <==> forall job | job in rows :: !Overlooked(digest, record, author, rows, r, cursor, job))
  {
    hide Observed, MarkPublished, MarkedThrough, Missed, Differs;
    SyncMarksExactly(author, rows, r, if replaced then 0 else cursor);
  }

  /** A room that kept its numbering meanwhile, and whose message at the cursor was another than the
      one on record when the check began, is kept only if that message has gone since. */
  lemma SeenToDiffer(digest: string -> string, record: seq<MessageRow>, start: Room, now: Room, cursor: nat)
    requires Evolves(start, now) && start.life == now.life
    requires Differs(digest, record, start, cursor) && Compared(digest, record, start, now, cursor)
    ensures now.base >= cursor
  {
    hide NewestAt;
  }

  /** A copy that landed and was reported unconfirmed leaves no seq on record, and the sync that
      finds it puts the cursor on it. Forgotten and written to again, the room is kept by every
      check: there is nothing to compare. A copy that lands there at or below the cursor is not
      marked, and its receipt stays in the queue. */
  lemma {:induction false} UnconfirmedCopyHidesARoom(
      digest: string -> string, author: Author, first: JobId, other: JobId)
    returns (run: seq<Point>, events: seq<Event>, record: seq<MessageRow>)
    requires author.Legible() && first != other
    ensures |run| == |events| + 1 && InStep(author, run[0]) && record == []
    ensures forall k | 0 <= k < |events| :: Follows(author, run[k], events[k], run[k + 1])
    ensures forall k | 0 <= k < |run| :: !run[k].shadowed
    ensures var p := run[|events|];
            && p.room.Wf() && p.readLife < p.room.life
            && StartOf(digest, record, p.room, p.cursor) == p.cursor > 0
            && other in p.rows && Awaiting(p.rows[other])
            && Overlooked(digest, record, author, p.rows, p.room, p.cursor, other)
  {
    hide Observed, MarkPublished, Marked, NoneShadowed;
    var owed := AuditRow("h", false, 0, true, Owed, 0, None);
    var m := Message(author.did, author.render(Copy(first, "h")));
    var n := Message(author.did, author.render(Copy(other, "h")));
    record := [];
    var start := Point(map[first := owed, other := owed], Room(0, [], 0), 0, 0, false);
    var landed := start.(room := Room(0, [m], 0));
    var counted := landed.(rows := Write(landed.rows, AttemptFailed(first)));
    var synced := Point(Marked(author, counted), counted.room, 1, 0, false);
    var again := synced.(room := Room(1, [n], 0));
    var last := again.(rows := Write(again.rows, AttemptFailed(other)));
    run := [start, landed, counted, synced, again, last];
    events := [RoomMoves, Writes(AttemptFailed(first)), Syncs, RoomMoves, Writes(AttemptFailed(other))];
    OneCopyMarksOne(author, counted, first, other);
    assert again.room.Holds(1) && author.Own(again.room.log[0]) == Some(Copy(other, "h"));
    assert Past(last.room, 1) == [] && forall k: nat :: !LastNaming(author, [], other, k);
  }

  lemma {:induction false} OneCopyMarksOne(author: Author, p: Point, first: JobId, other: JobId)
    requires p.room.Wf() && p.room.base == 0 && p.cursor == 0 && |p.room.log| == 1
    requires Names(author, p.room.log[0], first) && other in p.rows && other != first
    ensures Marked(author, p).Keys == p.rows.Keys && Marked(author, p)[other] == p.rows[other]
    ensures NoneShadowed(author, p)
  {
    hide Observed;
    var records := Past(p.room, p.cursor);
    var last := ObservedIsLast(author, records, other);
    assert records == [Record(1, p.room.log[0])];
  }
}
