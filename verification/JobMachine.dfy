/** The runner's attempts at jobs as an interleaving of ledger transactions.

    Any number of processes share one ledger (the node, and the self-test command beside it).
    Every read and every write an attempt makes is one step, any other process may step in
    between, and a process may die between any two of its steps. */
module JobMachine {
  import opened Basics
  import opened Tables

  datatype Outcome = Answered(ok: bool) | Duplicate | Rejected

  /** Where an attempt stands: which of the ledger steps of `_run` it makes next. */
  datatype Pc =
    | Begun
    | DeclarationRead(declared: bool)
    | OwnRowFound(declared: bool)
    | Settled(declared: bool)
    | Uncharged(declared: bool)
    | Admitted(declared: bool)
    | InsertLost
    | WinnerIsUs
    | Inserted
    | Running
    | Executed(ok: bool)
    | ResultRecorded(ok: bool)
    | Over(outcome: Outcome)

  /** `waiters` are the callers shielding on the attempt: the one that started it and those
      that joined. */
  datatype Attempt = Attempt(requester: Did, internal: bool, pc: Pc, waiters: seq<Did>)

  type Key = (nat, JobId)

  datatype State = State(db: Db, inFlight: map<Key, Attempt>, serial: nat)

  const INITIAL := State(EMPTY, map[], 0)

  datatype Action =
    | Declaration(did: Did, id: JobId)
    | Submission(process: nat, id: JobId, did: Did, internalTest: bool)
    | Cancellation(process: nat, id: JobId, waiter: nat)
    | Step(process: nat, id: JobId, choice: bool)
    | Retirement(process: nat, id: JobId)
    | Crash(process: nat)

  // ------------------------------------------------------------------ one attempt

  /** One ledger step of `_run`. `choice` is what the ledger does not decide: whether the
      rate limit admits the requester, and whether the task succeeds. */
  function Advance(db: Db, id: JobId, a: Attempt, serial: nat, choice: bool): (Db, Attempt) {
    match a.pc
    case Begun =>
      var declared := (a.requester, id) in db.declared;
      (db, a.(pc := DeclarationRead(declared), internal := a.internal || declared))
    case DeclarationRead(declared) =>
      (db, a.(pc := match Owner(db, id)
                    case None => Uncharged(declared)
                    case Some(owner) =>
                      if owner == a.requester then OwnRowFound(declared) else Over(Rejected)))
    case OwnRowFound(declared) =>
      (db, a.(pc := Settled(declared),
              internal := if id in db.jobs then db.jobs[id].internal else a.internal))
    case Settled(declared) =>
      (db, a.(pc := if id in db.receipts then Over(Duplicate) else Admitted(declared)))
    case Uncharged(declared) =>
      (db, a.(pc := if choice then Admitted(declared) else Over(Rejected)))
    case Admitted(declared) =>
      var (db', inserted) := InsertJob(db, id, a.requester, a.internal, declared);
      (db', a.(pc := if inserted then Inserted else InsertLost))
    case InsertLost =>
      (db, a.(pc := match Owner(db, id)
                    case None => Inserted
                    case Some(winner) =>
                      if winner == a.requester then WinnerIsUs else Over(Rejected)))
    case WinnerIsUs =>
      (db, a.(pc := if id in db.receipts then Over(Duplicate) else Inserted))
    case Inserted =>
      (SetStatus(db, id, Claimed), a.(pc := Running))
    case Running =>
      (db, a.(pc := Executed(choice)))
    case Executed(ok) =>
      (db, a.(pc := ResultRecorded(ok)))
    case ResultRecorded(ok) =>
      (RecordReceipt(db, id, ReceiptRow(serial, a.requester, a.internal, ok),
                     if ok then Completed else Failed),
       a.(pc := Over(Answered(ok))))
    case Over(_) =>
      (db, a)
  }

  // ------------------------------------------------------------------ the whole machine

  /** `handle`: start an attempt, join the one in flight, or be refused by its owner's DID. */
  function Submit(s: State, key: Key, did: Did, internalTest: bool): State {
    if key !in s.inFlight then
      s.(inFlight := s.inFlight[key := Attempt(did, internalTest, Begun, [did])])
    else if s.inFlight[key].requester == did then
      var a := s.inFlight[key];
      s.(inFlight := s.inFlight[key := a.(waiters := a.waiters + [did])])
    else
      s
  }

  /** A waiter goes away: the shield keeps the attempt going without it. */
  function Cancel(s: State, key: Key, waiter: nat): State {
    if key in s.inFlight && waiter < |s.inFlight[key].waiters| then
      var a := s.inFlight[key];
      s.(inFlight := s.inFlight[key := a.(waiters := a.waiters[..waiter] + a.waiters[waiter + 1..])])
    else
      s
  }

  function Apply(s: State, action: Action): State {
    match action
    case Declaration(did, id) => s.(db := Declare(s.db, did, id))
    case Submission(process, id, did, internalTest) => Submit(s, (process, id), did, internalTest)
    case Cancellation(process, id, waiter) => Cancel(s, (process, id), waiter)
    case Step(process, id, choice) =>
      var key := (process, id);
      if key !in s.inFlight then
        s
      else
        var (db, a) := Advance(s.db, id, s.inFlight[key], s.serial, choice);
        State(db, s.inFlight[key := a], s.serial + 1)
    case Retirement(process, id) =>
      var key := (process, id);
      if key in s.inFlight && s.inFlight[key].pc.Over? then
        s.(inFlight := s.inFlight - {key})
      else
        s
    case Crash(process) =>
      s.(inFlight := map key | key in s.inFlight && key.0 != process :: s.inFlight[key])
  }

  function Exec(s: State, actions: seq<Action>): State
    decreases |actions|
  {
    if actions == [] then s else Exec(Apply(s, actions[0]), actions[1..])
  }

  lemma {:induction false} ExecSplits(s: State, first: seq<Action>, rest: seq<Action>)
    ensures Exec(s, first + rest) == Exec(Exec(s, first), rest)
    decreases |first|
  {
    if first == [] {
      assert first + rest == rest;
    } else {
      assert (first + rest)[0] == first[0];
      assert (first + rest)[1..] == first[1..] + rest;
      ExecSplits(Apply(s, first[0]), first[1..], rest);
    }
  }

  // ------------------------------------------------------------------ what is written, and when

  /** What a step of an attempt writes: the insert, which the primary key refuses and which spends
      the declaration that was read; the claim; and the answer. No other step writes anything. */
  lemma {:induction false} StepsWrite(db: Db, id: JobId, a: Attempt, serial: nat, choice: bool)
    ensures var (later, next) := Advance(db, id, a, serial, choice);
            && later.rejections == db.rejections
            && (match a.pc
                case Admitted(declared) =>
                  && later.receipts == db.receipts
                  && (id in db.jobs ==> later == db && next.pc == InsertLost)
                  && (id !in db.jobs ==>
                        && next.pc == Inserted
                        && later.jobs == db.jobs[id := JobRow(a.requester, a.internal, Validated)]
                        && later.declared == if declared then db.declared - {(a.requester, id)} else db.declared)
                case Inserted =>
                  && later.receipts == db.receipts && later.declared == db.declared
                  && later.jobs == if id in db.jobs then db.jobs[id := db.jobs[id].(status := Claimed)] else db.jobs
                case ResultRecorded(ok) =>
                  && later.declared == db.declared
                  && (id in db.jobs ==>
                        && later.jobs == db.jobs[id := db.jobs[id].(status := if ok then Completed else Failed)]
                        && later.receipts == db.receipts[id := ReceiptRow(serial, a.requester, a.internal, ok)])
                case _ => later == db)
  {
  }

  /** Only declarations and steps write to the ledger; and a caller that joins or goes away changes
      nothing of an attempt but who is waiting for it. */
  lemma {:induction false} CallersOnlyWait(s: State, action: Action, key: Key)
    requires !action.Step?
    ensures var next := Apply(s, action);
            && (if action.Declaration? then
                  next.db == s.db.(declared := s.db.declared + {(action.did, action.id)})
                else next.db == s.db)
            && (key in s.inFlight && key in next.inFlight ==>
                  next.inFlight[key].(waiters := []) == s.inFlight[key].(waiters := []))
            && (key in s.inFlight && key !in next.inFlight <==>
                  key in s.inFlight
                  && (action == Crash(key.0) || (action == Retirement(key.0, key.1) && s.inFlight[key].pc.Over?)))
            && (key !in s.inFlight && key in next.inFlight ==>
                  action.Submission? && (action.process, action.id) == key
                  && next.inFlight[key] == Attempt(action.did, action.internalTest, Begun, [action.did]))
  {
  }

  // ------------------------------------------------------------------ who holds an id

  /** A row's requester and classification are settled when it is inserted, by whichever
      process inserts it, and nothing later changes either. */
  lemma {:induction false} RowsAreSettled(s: State, actions: seq<Action>, id: JobId)
    requires id in s.db.jobs
    ensures id in Exec(s, actions).db.jobs
    ensures Exec(s, actions).db.jobs[id].requester == s.db.jobs[id].requester
    ensures Exec(s, actions).db.jobs[id].internal == s.db.jobs[id].internal
    decreases |actions|
  {
    if actions != [] {
      RowsAreSettled(Apply(s, actions[0]), actions[1..], id);
    }
  }

  ghost predicate WaitersOwnTheirAttempt(s: State) {
    forall key, i | key in s.inFlight && 0 <= i < |s.inFlight[key].waiters| ::
      s.inFlight[key].waiters[i] == s.inFlight[key].requester
  }

  /** Nobody but the requester that started an attempt is ever handed what it produces. */
  lemma {:induction false} OnlyTheRequesterJoins(s: State, actions: seq<Action>)
    requires WaitersOwnTheirAttempt(s)
    ensures WaitersOwnTheirAttempt(Exec(s, actions))
    decreases |actions|
  {
    if actions != [] {
      OnlyTheRequesterJoins(Apply(s, actions[0]), actions[1..]);
    }
  }

  // ------------------------------------------------------------------ classification

  /** Once the declaration of (did, id) is gone, the row it was spent on says internal. */
  ghost predicate Remembered(db: Db, did: Did, id: JobId) {
    || (did, id) in db.declared
    || OwnInternalRow(db, did, id)
  }

  ghost predicate OwnInternalRow(db: Db, did: Did, id: JobId) {
    id in db.jobs && db.jobs[id].requester == did && db.jobs[id].internal
  }

  /** Neither a job row nor a receipt of this requester's calls the job third-party. */
  ghost predicate NeverThirdParty(db: Db, did: Did, id: JobId) {
    && (id in db.jobs && db.jobs[id].requester == did ==> db.jobs[id].internal)
    && (id in db.receipts && db.receipts[id].requester == did ==> db.receipts[id].internal)
  }

  /** What an attempt knows at each step: an attempt that missed the declaration finds the
      row next, because reading in the order declaration, owner, row leaves no gap. */
  ghost predicate AttemptClassified(db: Db, id: JobId, a: Attempt) {
    match a.pc
    case Begun => true
    case DeclarationRead(_) => a.internal || OwnInternalRow(db, a.requester, id)
    case OwnRowFound(_) => OwnInternalRow(db, a.requester, id)
    case Over(_) => true
    case _ => a.internal
  }

  ghost predicate Classified(s: State, did: Did, id: JobId) {
    && Remembered(s.db, did, id)
    && NeverThirdParty(s.db, did, id)
    && forall key | key in s.inFlight && key.1 == id && s.inFlight[key].requester == did ::
         AttemptClassified(s.db, id, s.inFlight[key])
  }

  lemma {:induction false} AdvanceClassified(
      db: Db, at: JobId, a: Attempt, serial: nat, choice: bool, did: Did, id: JobId)
    requires Remembered(db, did, id) && NeverThirdParty(db, did, id)
    requires at == id && a.requester == did ==> AttemptClassified(db, id, a)
    ensures var (db', a') := Advance(db, at, a, serial, choice);
            && Remembered(db', did, id) && NeverThirdParty(db', did, id)
            && a'.requester == a.requester
            && (at == id && a.requester == did ==> AttemptClassified(db', id, a'))
            && (OwnInternalRow(db, did, id) ==> OwnInternalRow(db', did, id))
  {
  }

  lemma {:induction false} ClassifiedStep(s: State, action: Action, did: Did, id: JobId)
    requires Classified(s, did, id)
    ensures Classified(Apply(s, action), did, id)
  {
    if action.Step? && (action.process, action.id) in s.inFlight {
      AdvanceClassified(s.db, action.id, s.inFlight[(action.process, action.id)],
                        s.serial, action.choice, did, id);
      hide Advance;
    }
  }

  lemma {:induction false} ClassifiedRun(s: State, actions: seq<Action>, did: Did, id: JobId)
    requires Classified(s, did, id)
    ensures Classified(Exec(s, actions), did, id)
    decreases |actions|
  {
    if actions != [] {
      ClassifiedStep(s, actions[0], did, id);
      ClassifiedRun(Apply(s, actions[0]), actions[1..], did, id);
    }
  }

  ghost predicate SubmittedIn(actions: seq<Action>, did: Did, id: JobId) {
    exists i | 0 <= i < |actions| ::
      actions[i].Submission? && actions[i].did == did && actions[i].id == id
  }

  /** Untouched by this requester: nothing of theirs under this id anywhere. */
  ghost predicate Unsent(s: State, did: Did, id: JobId) {
    && (id in s.db.jobs ==> s.db.jobs[id].requester != did)
    && (id in s.db.receipts ==> s.db.receipts[id].requester != did)
    && forall key | key in s.inFlight && key.1 == id :: s.inFlight[key].requester != did
  }

  lemma {:induction false} UnsentRun(s: State, actions: seq<Action>, did: Did, id: JobId)
    requires Unsent(s, did, id) && !SubmittedIn(actions, did, id)
    ensures Unsent(Exec(s, actions), did, id)
    decreases |actions|
  {
    if actions != [] {
      assert !(actions[0].Submission? && actions[0].did == did && actions[0].id == id);
      assert forall i :: 0 <= i < |actions[1..]| ==> actions[1..][i] == actions[i + 1];
      UnsentRun(Apply(s, actions[0]), actions[1..], did, id);
    }
  }

  /** A job declared before it is sent is never recorded as third-party work, whichever
      processes run it, however their steps interleave and wherever they crash. */
  lemma {:induction false} DeclaredIsNeverThirdParty(before: seq<Action>, after: seq<Action>, did: Did, id: JobId)
    requires !SubmittedIn(before, did, id)
    ensures NeverThirdParty(Exec(INITIAL, before + [Declaration(did, id)] + after).db, did, id)
  {
    var sent := Exec(INITIAL, before);
    UnsentRun(INITIAL, before, did, id);
    ExecSplits(INITIAL, before, [Declaration(did, id)]);
    ExecSplits(INITIAL, before + [Declaration(did, id)], after);
    var declared := Apply(sent, Declaration(did, id));
    assert Exec(sent, [Declaration(did, id)]) == declared;
    ClassifiedRun(declared, after, did, id);
  }

  // ------------------------------------------------------------------ one receipt per job

  /** Nobody declared the id as this requester's, and no lane submitted it as a test of its own. */
  ghost predicate NeverCalledInternal(actions: seq<Action>, did: Did, id: JobId) {
    forall i | 0 <= i < |actions| ::
      && actions[i] != Declaration(did, id)
      && (actions[i].Submission? && actions[i].id == id && actions[i].did == did ==> !actions[i].internalTest)
  }

  ghost predicate ThirdPartyRows(db: Db, did: Did, id: JobId) {
    && (did, id) !in db.declared
    && (id in db.jobs && db.jobs[id].requester == did ==> !db.jobs[id].internal)
    && (id in db.receipts && db.receipts[id].requester == did ==> !db.receipts[id].internal)
  }

  ghost predicate ThirdPartyAttempt(db: Db, did: Did, id: JobId, a: Attempt) {
    a.requester == did ==>
      !a.internal && (a.pc.OwnRowFound? ==> id in db.jobs && db.jobs[id].requester == did)
  }

  ghost predicate ThirdParty(s: State, did: Did, id: JobId) {
    && ThirdPartyRows(s.db, did, id)
    && forall key | key in s.inFlight && key.1 == id :: ThirdPartyAttempt(s.db, did, id, s.inFlight[key])
  }

  lemma {:induction false} AdvanceThirdParty(
      db: Db, id: JobId, a: Attempt, serial: nat, choice: bool, did: Did, b: Attempt)
    requires ThirdPartyRows(db, did, id) && ThirdPartyAttempt(db, did, id, a) && ThirdPartyAttempt(db, did, id, b)
    ensures var (later, next) := Advance(db, id, a, serial, choice);
            && ThirdPartyRows(later, did, id) && ThirdPartyAttempt(later, did, id, next)
            && ThirdPartyAttempt(later, did, id, b)
  {
  }

  lemma {:induction false} ThirdPartyStep(s: State, action: Action, did: Did, id: JobId)
    requires ThirdParty(s, did, id) && NeverCalledInternal([action], did, id)
    ensures ThirdParty(Apply(s, action), did, id)
  {
    assert [action][0] == action;
    if action.Step? && (action.process, action.id) in s.inFlight {
      hide Advance;
      var key := (action.process, action.id);
      var a := s.inFlight[key];
      if action.id != id {
        AdvanceLeavesOthers(s.db, action.id, a, s.serial, action.choice, id);
        AdvanceSpendsItsOwn(s.db, action.id, a, s.serial, action.choice);
      } else {
        AdvanceThirdParty(s.db, id, a, s.serial, action.choice, did, a);
        forall other | other in s.inFlight && other.1 == id
          ensures ThirdPartyAttempt(Apply(s, action).db, did, id, s.inFlight[other])
        {
          AdvanceThirdParty(s.db, id, a, s.serial, action.choice, did, s.inFlight[other]);
        }
      }
    }
  }

  lemma AdvanceSpendsItsOwn(db: Db, id: JobId, a: Attempt, serial: nat, choice: bool)
    ensures Advance(db, id, a, serial, choice).0.declared <= db.declared
  {
  }

  lemma {:induction false} ThirdPartyRun(s: State, actions: seq<Action>, did: Did, id: JobId)
    requires ThirdParty(s, did, id) && NeverCalledInternal(actions, did, id)
    ensures ThirdParty(Exec(s, actions), did, id)
    decreases |actions|
  {
    hide ThirdParty;
    if actions != [] {
      assert NeverCalledInternal([actions[0]], did, id);
      assert forall i | 0 <= i < |actions[1..]| :: actions[1..][i] == actions[i + 1];
      ThirdPartyStep(s, actions[0], did, id);
      ThirdPartyRun(Apply(s, actions[0]), actions[1..], did, id);
    }
  }

  /** The other way round: for any processes, interleaving and crashes, a job nobody declared and no
      lane submitted as its own test is never recorded as internal, neither in its row nor in its
      receipt. */
  lemma {:induction false} UndeclaredIsThirdParty(actions: seq<Action>, did: Did, id: JobId)
    requires NeverCalledInternal(actions, did, id)
    ensures var db := Exec(INITIAL, actions).db;
            && (id in db.jobs && db.jobs[id].requester == did ==> !db.jobs[id].internal)
            && (id in db.receipts && db.receipts[id].requester == did ==> !db.receipts[id].internal)
  {
    ThirdPartyRun(INITIAL, actions, did, id);
  }

  /** No two processes are at work on the id at once. Within one process `_in_flight` makes
      this so; across processes nothing does. */
  ghost predicate Exclusive(s: State, id: JobId) {
    forall k, l | k in s.inFlight && l in s.inFlight && k.1 == id && l.1 == id :: k == l
  }

  ghost predicate ExclusiveRun(s: State, actions: seq<Action>, id: JobId)
    decreases |actions|
  {
    && Exclusive(s, id)
    && (actions != [] ==> ExclusiveRun(Apply(s, actions[0]), actions[1..], id))
  }

  predicate Finished(status: Status) {
    status == Completed || status == Failed
  }

  /** A job is finished exactly when its receipt exists, and the two agree on whose it is and on
      whether the task succeeded. */
  predicate Consistent(db: Db, id: JobId) {
    && (id in db.receipts <==> id in db.jobs && Finished(db.jobs[id].status))
    && (id in db.receipts ==>
          && db.receipts[id].requester == db.jobs[id].requester
          && db.receipts[id].internal == db.jobs[id].internal
          && db.jobs[id].status == if db.receipts[id].ok then Completed else Failed)
  }

  ghost predicate Unanswered(db: Db, id: JobId, a: Attempt) {
    && id in db.jobs && id !in db.receipts
    && db.jobs[id].requester == a.requester && db.jobs[id].internal == a.internal
  }

  ghost predicate AttemptAlone(db: Db, id: JobId, a: Attempt) {
    match a.pc
    case Begun => true
    case DeclarationRead(_) => true
    case OwnRowFound(_) => id in db.jobs && db.jobs[id].requester == a.requester
    case Settled(_) =>
      id in db.jobs && db.jobs[id].requester == a.requester && db.jobs[id].internal == a.internal
    case Uncharged(_) => id !in db.jobs
    case Admitted(_) => id !in db.jobs || Unanswered(db, id, a)
    case Over(_) => true
    case _ => Unanswered(db, id, a)
  }

  ghost predicate JobSound(s: State, id: JobId) {
    && Consistent(s.db, id)
    && forall key | key in s.inFlight && key.1 == id :: AttemptAlone(s.db, id, s.inFlight[key])
  }

  lemma {:induction false} AdvanceSound(db: Db, id: JobId, a: Attempt, serial: nat, choice: bool)
    requires Consistent(db, id) && AttemptAlone(db, id, a)
    ensures var (db', a') := Advance(db, id, a, serial, choice);
            && Consistent(db', id) && AttemptAlone(db', id, a')
            && (id in db.receipts ==>
                  && id in db'.receipts && db'.receipts[id] == db.receipts[id]
                  && db'.jobs[id] == db.jobs[id])
  {
  }

  lemma {:induction false} AdvanceLeavesOthers(db: Db, id: JobId, a: Attempt, serial: nat, choice: bool, other: JobId)
    requires other != id
    ensures var db' := Advance(db, id, a, serial, choice).0;
            && (other in db'.jobs <==> other in db.jobs)
            && (other in db.jobs ==> db'.jobs[other] == db.jobs[other])
            && (other in db'.receipts <==> other in db.receipts)
            && (other in db.receipts ==> db'.receipts[other] == db.receipts[other])
  {
  }

  lemma {:induction false} JobSoundStep(s: State, action: Action, id: JobId)
    requires JobSound(s, id) && Exclusive(s, id)
    ensures JobSound(Apply(s, action), id)
    ensures id in s.db.receipts ==>
              id in Apply(s, action).db.receipts
              && Apply(s, action).db.receipts[id] == s.db.receipts[id]
  {
    if action.Step? && (action.process, action.id) in s.inFlight {
      var key := (action.process, action.id);
      var a := s.inFlight[key];
      if key.1 == id {
        AdvanceSound(s.db, id, a, s.serial, action.choice);
        forall other | other in s.inFlight && other.1 == id ensures other == key {
        }
      } else {
        AdvanceLeavesOthers(s.db, key.1, a, s.serial, action.choice, id);
      }
      hide Advance;
    }
  }

  /** As long as no two processes work on one id at once, through joining, cancellation,
      resumption after a crash and retirement: the job is finished exactly when it has its
      receipt, the two agree, and a receipt once written is never replaced by a second. */
  lemma {:induction false} OneReceiptPerJob(s: State, actions: seq<Action>, id: JobId)
    requires JobSound(s, id) && ExclusiveRun(s, actions, id)
    ensures JobSound(Exec(s, actions), id)
    ensures id in s.db.receipts ==>
              id in Exec(s, actions).db.receipts
              && Exec(s, actions).db.receipts[id] == s.db.receipts[id]
    decreases |actions|
  {
    if actions != [] {
      JobSoundStep(s, actions[0], id);
      OneReceiptPerJob(Apply(s, actions[0]), actions[1..], id);
    }
  }

  // ------------------------------------------------------------------ which step breaks it

  /** The receipt ids drawn so far are all below the next one. */
  ghost predicate SerialsDrawn(s: State) {
    forall id | id in s.db.receipts :: s.db.receipts[id].serial < s.serial
  }

  lemma {:induction false} SerialsStayDrawn(s: State, actions: seq<Action>)
    requires SerialsDrawn(s)
    ensures SerialsDrawn(Exec(s, actions))
    decreases |actions|
  {
    if actions != [] {
      SerialsStayDrawn(Apply(s, actions[0]), actions[1..]);
    }
  }

  /** The action is the next step of an attempt at this id. */
  ghost predicate StepsAt(s: State, action: Action, id: JobId) {
    action.Step? && action.id == id && (action.process, id) in s.inFlight
  }

  /** In any state of any number of processes, an action replaces the receipt of an answered job
      exactly when it is an attempt's last step, and reopens the job exactly when it is an
      attempt's claim. */
  lemma {:induction false} WhatBreaksAnAnswer(s: State, action: Action, id: JobId)
    requires SerialsDrawn(s) && id in s.db.receipts && id in s.db.jobs && Finished(s.db.jobs[id].status)
    ensures var later := Apply(s, action).db;
            && id in later.receipts && id in later.jobs
            && (later.receipts[id] != s.db.receipts[id] <==>
                  StepsAt(s, action, id) && s.inFlight[(action.process, id)].pc.ResultRecorded?)
            && (!Finished(later.jobs[id].status) <==>
                  StepsAt(s, action, id) && s.inFlight[(action.process, id)].pc == Inserted)
  {
    if action.Step? && (action.process, action.id) in s.inFlight && action.id != id {
      AdvanceLeavesOthers(s.db, action.id, s.inFlight[(action.process, action.id)], s.serial,
                          action.choice, id);
    }
  }

  // ------------------------------------------------------------------ one process

  /** Every job is finished exactly when its receipt exists. */
  predicate AllConsistent(db: Db) {
    forall id | id in db.jobs.Keys + db.receipts.Keys :: Consistent(db, id)
  }

  /** What is answered stays as it is: the same receipt, the same finished row. */
  predicate Settles(before: Db, after: Db) {
    forall id | id in before.receipts ::
      && id in after.receipts && after.receipts[id] == before.receipts[id]
      && (id in before.jobs ==> id in after.jobs && after.jobs[id] == before.jobs[id])
  }

  predicate Untouched(before: Db, after: Db, id: JobId) {
    && (id in before.jobs <==> id in after.jobs)
    && (id in before.jobs ==> after.jobs[id] == before.jobs[id])
    && (id in before.receipts <==> id in after.receipts)
    && (id in before.receipts ==> after.receipts[id] == before.receipts[id])
  }

  /** The actions the rest of one process takes while its attempt at an id, if it is making one,
      is between two steps. */
  ghost predicate Beside(actions: seq<Action>, process: nat, held: Option<JobId>) {
    forall i | 0 <= i < |actions| ::
      match actions[i]
      case Submission(p, _, _, _) => p == process
      case Step(p, id, _) => p == process && Some(id) != held
      case Retirement(p, id) => Some(id) != held
      case Crash(_) => false
      case _ => true
  }

  ghost predicate SoundProcess(s: State, process: nat, held: Option<JobId>) {
    && (forall key | key in s.inFlight :: key.0 == process)
    && (forall id :: JobSound(s, id))
    && (held.Some? ==> (process, held.value) in s.inFlight)
  }

  lemma {:induction false} BesideStep(s: State, action: Action, process: nat, held: Option<JobId>)
    requires SoundProcess(s, process, held) && Beside([action], process, held)
    ensures var next := Apply(s, action);
            && SoundProcess(next, process, held)
            && Settles(s.db, next.db) && (held.Some? ==> Untouched(s.db, next.db, held.value))
  {
    assert [action][0] == action;
    var next := Apply(s, action);
    forall k ensures JobSound(next, k) {
      JobSoundStep(s, action, k);
    }
    if action.Step? && (action.process, action.id) in s.inFlight {
      var a := s.inFlight[(action.process, action.id)];
      assert JobSound(s, action.id);
      AdvanceSound(s.db, action.id, a, s.serial, action.choice);
      forall k | k != action.id ensures Untouched(s.db, next.db, k) {
        AdvanceLeavesOthers(s.db, action.id, a, s.serial, action.choice, k);
      }
    }
  }

  /** Whatever one process does beside an attempt of its own at an id leaves that id's rows alone,
      every answer as it is, and every job finished exactly when it is answered. */
  lemma {:induction false} RestOfTheProcess(s: State, actions: seq<Action>, process: nat, held: Option<JobId>)
    requires SoundProcess(s, process, held) && Beside(actions, process, held)
    ensures var last := Exec(s, actions);
            && SoundProcess(last, process, held) && AllConsistent(last.db)
            && Settles(s.db, last.db) && (held.Some? ==> Untouched(s.db, last.db, held.value))
    decreases |actions|
  {
    hide JobSound;
    if actions == [] {
      SoundIsConsistent(s, process, held);
    } else {
      assert Beside([actions[0]], process, held);
      BesideStep(s, actions[0], process, held);
      assert forall i | 0 <= i < |actions[1..]| :: actions[1..][i] == actions[i + 1];
      RestOfTheProcess(Apply(s, actions[0]), actions[1..], process, held);
    }
  }

  lemma SoundIsConsistent(s: State, process: nat, held: Option<JobId>)
    requires SoundProcess(s, process, held)
    ensures AllConsistent(s.db)
  {
    forall id | id in s.db.jobs.Keys + s.db.receipts.Keys ensures Consistent(s.db, id) {
      assert JobSound(s, id);
    }
  }

  ghost predicate OnlyProcess(actions: seq<Action>, process: nat) {
    forall i | 0 <= i < |actions| && actions[i].Submission? :: actions[i].process == process
  }

  lemma {:induction false} OneProcessIsExclusive(
      s: State, actions: seq<Action>, process: nat, id: JobId)
    requires OnlyProcess(actions, process)
    requires forall key | key in s.inFlight :: key.0 == process
    ensures ExclusiveRun(s, actions, id)
    decreases |actions|
  {
    if actions != [] {
      assert forall i :: 0 <= i < |actions[1..]| ==> actions[1..][i] == actions[i + 1];
      OneProcessIsExclusive(Apply(s, actions[0]), actions[1..], process, id);
    }
  }

  /** The same, for every run of the node on its own. */
  lemma {:induction false} OneProcessAnswersOnce(first: seq<Action>, rest: seq<Action>, process: nat, id: JobId)
    requires OnlyProcess(first + rest, process)
    ensures Consistent(Exec(INITIAL, first).db, id)
    ensures id in Exec(INITIAL, first).db.receipts ==>
              id in Exec(INITIAL, first + rest).db.receipts
              && Exec(INITIAL, first + rest).db.receipts[id] == Exec(INITIAL, first).db.receipts[id]
  {
    assert forall i :: 0 <= i < |first| ==> first[i] == (first + rest)[i];
    assert forall i :: 0 <= i < |rest| ==> rest[i] == (first + rest)[|first| + i];
    OneProcessIsExclusive(INITIAL, first, process, id);
    OneReceiptPerJob(INITIAL, first, id);
    ExecSplits(INITIAL, first, rest);
    StaysWithin(INITIAL, first, process);
    OneProcessIsExclusive(Exec(INITIAL, first), rest, process, id);
    OneReceiptPerJob(Exec(INITIAL, first), rest, id);
  }

  lemma {:induction false} StaysWithin(s: State, actions: seq<Action>, process: nat)
    requires OnlyProcess(actions, process)
    requires forall key | key in s.inFlight :: key.0 == process
    ensures forall key | key in Exec(s, actions).inFlight :: key.0 == process
    decreases |actions|
  {
    if actions != [] {
      assert forall i :: 0 <= i < |actions[1..]| ==> actions[1..][i] == actions[i + 1];
      StaysWithin(Apply(s, actions[0]), actions[1..], process);
    }
  }

  lemma {:induction false} ExecSteps(s: State, actions: seq<Action>, action: Action)
    ensures Exec(s, actions + [action]) == Apply(Exec(s, actions), action)
  {
    ExecSplits(s, actions, [action]);
    assert Exec(Exec(s, actions), [action]) == Apply(Exec(s, actions), action);
  }

  // ------------------------------------------------------------------ what the task came to

  /** How the task last run for a process's attempt at an id ended, over a run: the choice made at
      the step that ran it. */
  ghost function TaskRan(actions: seq<Action>, key: Key): Option<bool>
    decreases |actions|
  {
    if actions == [] then None
    else
      var init, last := actions[..|actions| - 1], actions[|actions| - 1];
      if RunsTask(Exec(INITIAL, init), last, key) then Some(last.choice) else TaskRan(init, key)
  }

  ghost predicate CarriesTheTask(a: Attempt, ran: Option<bool>) {
    match a.pc
    case Executed(ok) => ran == Some(ok)
    case ResultRecorded(ok) => ran == Some(ok)
    case Over(Answered(ok)) => ran == Some(ok)
    case _ => true
  }

  /** The action runs the task for this attempt. */
  ghost predicate RunsTask(s: State, action: Action, key: Key) {
    action.Step? && (action.process, action.id) == key && key in s.inFlight && s.inFlight[key].pc == Running
  }

  lemma {:induction false} CarriesOn(s: State, action: Action, key: Key, ran: Option<bool>)
    requires key in s.inFlight ==> CarriesTheTask(s.inFlight[key], ran)
    ensures key in Apply(s, action).inFlight ==>
              CarriesTheTask(Apply(s, action).inFlight[key],
                             if RunsTask(s, action, key) then Some(action.choice) else ran)
  {
  }

  /** Over any run of any processes, what an attempt carries to its answer is what its task came
      to. */
  lemma {:induction false} AttemptsCarryTheTask(actions: seq<Action>, key: Key)
    ensures key in Exec(INITIAL, actions).inFlight ==>
              CarriesTheTask(Exec(INITIAL, actions).inFlight[key], TaskRan(actions, key))
    decreases |actions|
  {
    hide Apply, CarriesTheTask, RunsTask;
    if actions != [] {
      var init, last := actions[..|actions| - 1], actions[|actions| - 1];
      AttemptsCarryTheTask(init, key);
      assert actions == init + [last];
      ExecSteps(INITIAL, init, last);
      CarriesOn(Exec(INITIAL, init), last, key, TaskRan(init, key));
    }
  }

  /** Over any run of any processes, a step that answers a job records it completed exactly when
      the attempt's task succeeded, and failed exactly when it did not; and says so in its receipt. */
  lemma {:induction false} AnswersWhatTheTaskCameTo(actions: seq<Action>, process: nat, id: JobId, choice: bool)
    requires var s := Exec(INITIAL, actions);
             (process, id) in s.inFlight && s.inFlight[(process, id)].pc.ResultRecorded? && id in s.db.jobs
    ensures var db := Exec(INITIAL, actions + [Step(process, id, choice)]).db;
            && TaskRan(actions, (process, id)).Some? && id in db.jobs && id in db.receipts
            && (db.jobs[id].status == Completed <==> TaskRan(actions, (process, id)) == Some(true))
            && (db.jobs[id].status == Failed <==> TaskRan(actions, (process, id)) == Some(false))
            && Some(db.receipts[id].ok) == TaskRan(actions, (process, id))
  {
    hide TaskRan;
    AttemptsCarryTheTask(actions, (process, id));
    ExecSteps(INITIAL, actions, Step(process, id, choice));
  }

  ghost predicate SealsTheTask(s: State, process: nat, id: JobId, ran: Option<bool>) {
    id in s.db.receipts ==> ran == Some(s.db.receipts[id].ok)
  }

  lemma {:induction false} StillSealed(s: State, action: Action, process: nat, id: JobId, ran: Option<bool>)
    requires JobSound(s, id) && (forall key | key in s.inFlight :: key.0 == process)
    requires SealsTheTask(s, process, id, ran)
    requires (process, id) in s.inFlight ==> CarriesTheTask(s.inFlight[(process, id)], ran)
    ensures SealsTheTask(Apply(s, action), process, id,
                         if RunsTask(s, action, (process, id)) then Some(action.choice) else ran)
  {
    if action.Step? && (action.process, action.id) in s.inFlight && action.id != id {
      AdvanceLeavesOthers(s.db, action.id, s.inFlight[(action.process, action.id)], s.serial, action.choice, id);
    }
  }

  /** Over every run of one process, through joining, cancellation, crashes, resumption and
      retirement: a job is completed exactly when it is answered and the task last run for it
      succeeded, and failed exactly when it is answered and that task did not. */
  lemma {:induction false} StatusIsWhatTheTaskCameTo(actions: seq<Action>, process: nat, id: JobId)
    requires OnlyProcess(actions, process)
    ensures var db := Exec(INITIAL, actions).db;
            && SealsTheTask(Exec(INITIAL, actions), process, id, TaskRan(actions, (process, id)))
            && (id in db.jobs ==>
                  && (db.jobs[id].status == Completed <==>
                        id in db.receipts && TaskRan(actions, (process, id)) == Some(true))
                  && (db.jobs[id].status == Failed <==>
                        id in db.receipts && TaskRan(actions, (process, id)) == Some(false)))
    decreases |actions|
  {
    hide Apply;
    var s := Exec(INITIAL, actions);
    if actions != [] {
      var init, last := actions[..|actions| - 1], actions[|actions| - 1];
      assert forall i | 0 <= i < |init| :: init[i] == actions[i];
      StatusIsWhatTheTaskCameTo(init, process, id);
      assert actions == init + [last];
      ExecSteps(INITIAL, init, last);
      AttemptsCarryTheTask(init, (process, id));
      StaysWithin(INITIAL, init, process);
      OneProcessIsExclusive(INITIAL, init, process, id);
      OneReceiptPerJob(INITIAL, init, id);
      StillSealed(Exec(INITIAL, init), last, process, id, TaskRan(init, (process, id)));
    }
    OneProcessIsExclusive(INITIAL, actions, process, id);
    OneReceiptPerJob(INITIAL, actions, id);
  }

  // ------------------------------------------------------------------ two processes

  /** Both processes have an attempt at `id` in flight, and nothing else is. */
  ghost predicate Both(run: seq<Action>, id: JobId, db: Db, a: Attempt, b: Attempt) {
    && Exec(INITIAL, run).db == db
    && Exec(INITIAL, run).inFlight == map[(0, id) := a, (1, id) := b]
  }

  lemma {:induction false} StepOf(run: seq<Action>, id: JobId, db: Db, a: Attempt, b: Attempt, process: nat)
    returns (run': seq<Action>, db': Db, a': Attempt, b': Attempt)
    requires Both(run, id, db, a, b) && process <= 1
    ensures run <= run' && Both(run', id, db', a', b')
    ensures Exec(INITIAL, run').serial == Exec(INITIAL, run).serial + 1
    ensures process == 0 ==>
              (db', a') == Advance(db, id, a, Exec(INITIAL, run).serial, true) && b' == b
    ensures process == 1 ==>
              (db', b') == Advance(db, id, b, Exec(INITIAL, run).serial, true) && a' == a
  {
    ExecSteps(INITIAL, run, Step(process, id, true));
    run', a', b' := run + [Step(process, id, true)], a, b;
    var next := Advance(db, id, if process == 0 then a else b, Exec(INITIAL, run).serial, true);
    db' := next.0;
    if process == 0 {
      a' := next.1;
    } else {
      b' := next.1;
    }
  }

  lemma {:induction false} BothSubmitted(id: JobId, did: Did) returns (run: seq<Action>, a: Attempt)
    ensures a == Attempt(did, false, Begun, [did]) && Both(run, id, EMPTY, a, a)
  {
    a := Attempt(did, false, Begun, [did]);
    run := [Submission(0, id, did, false)] + [Submission(1, id, did, false)];
    ExecSteps(INITIAL, [], Submission(0, id, did, false));
    ExecSteps(INITIAL, [Submission(0, id, did, false)], Submission(1, id, did, false));
  }

  lemma {:induction false} Admit(run: seq<Action>, id: JobId, a: Attempt, b: Attempt, process: nat)
    returns (run': seq<Action>, db: Db, a': Attempt, b': Attempt)
    requires Both(run, id, EMPTY, a, b) && process <= 1
    requires process == 0 ==> a.pc == Begun && !a.internal
    requires process == 1 ==> b.pc == Begun && !b.internal
    ensures db == EMPTY && Both(run', id, EMPTY, a', b')
    ensures process == 0 ==> a' == a.(pc := Admitted(false)) && b' == b
    ensures process == 1 ==> b' == b.(pc := Admitted(false)) && a' == a
  {
    run', db, a', b' := StepOf(run, id, EMPTY, a, b, process);
    run', db, a', b' := StepOf(run', id, db, a', b', process);
    run', db, a', b' := StepOf(run', id, db, a', b', process);
  }

  /** Both have passed the owner check before either inserts; one insert wins, and the loser,
      whose own requester's row it is, goes on beside it. */
  lemma {:induction false} BothGoOn(id: JobId, did: Did) returns (run: seq<Action>, db: Db, a: Attempt, b: Attempt)
    ensures Both(run, id, db, a, b) && id in db.jobs && id !in db.receipts
    ensures a.pc == b.pc == Inserted
  {
    run, a := BothSubmitted(id, did);
    b := a;
    run, db, a, b := Admit(run, id, a, b, 0);
    run, db, a, b := Admit(run, id, a, b, 1);
    run, db, a, b := StepOf(run, id, db, a, b, 0);
    run, db, a, b := StepOf(run, id, db, a, b, 1);
    run, db, a, b := StepOf(run, id, db, a, b, 1);
    run, db, a, b := StepOf(run, id, db, a, b, 1);
  }

  lemma {:induction false} Answer(run: seq<Action>, id: JobId, db: Db, a: Attempt, b: Attempt, process: nat)
    returns (run': seq<Action>, db': Db, a': Attempt, b': Attempt)
    requires Both(run, id, db, a, b) && process <= 1 && id in db.jobs
    requires process == 0 ==> a.pc == Running
    requires process == 1 ==> b.pc == Running
    ensures run <= run' && Both(run', id, db', a', b') && id in db'.jobs
    ensures id in db'.receipts
    ensures Exec(INITIAL, run).serial <= db'.receipts[id].serial < Exec(INITIAL, run').serial
    ensures process == 0 ==> b' == b
  {
    run', db', a', b' := StepOf(run, id, db, a, b, process);
    run', db', a', b' := StepOf(run', id, db', a', b', process);
    run', db', a', b' := StepOf(run', id, db', a', b', process);
  }

  /** Two processes at work on one id do break it: the second attempt of the same requester
      reopens the job the first has answered, and then replaces its receipt. */
  lemma {:induction false} SecondProcessReplacesTheReceipt(id: JobId, did: Did)
    returns (answered: seq<Action>, reopened: seq<Action>, replaced: seq<Action>)
    ensures answered <= reopened <= replaced
    ensures id in Exec(INITIAL, answered).db.receipts
    ensures !Consistent(Exec(INITIAL, reopened).db, id)
    ensures id in Exec(INITIAL, replaced).db.receipts
    ensures Exec(INITIAL, replaced).db.receipts[id] != Exec(INITIAL, answered).db.receipts[id]
  {
    var run, db, a, b := BothGoOn(id, did);
    run, db, a, b := StepOf(run, id, db, a, b, 0);
    answered, db, a, b := Answer(run, id, db, a, b, 0);
    reopened, db, a, b := StepOf(answered, id, db, a, b, 1);
    replaced, db, a, b := Answer(reopened, id, db, a, b, 1);
  }
}
