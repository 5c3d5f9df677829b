/** `JobRunner.handle` and `_run` as the node runs them, beside whatever else is running. */
module Runner {
  import opened Basics
  import opened Tables
  import opened JobMachine
  import opened LedgerStore

  datatype Ending = Died | Refused(code: string) | Done(outcome: Outcome)

  /** One ledger step of an attempt: the tables it met and the tables it left. */
  datatype Tick = Tick(before: Db, serial: nat, choice: bool)

  ghost function AttemptAfter(id: JobId, first: Attempt, path: seq<Tick>): Attempt
    decreases |path|
  {
    if path == [] then first
    else
      var tick := path[|path| - 1];
      Advance(tick.before, id, AttemptAfter(id, first, path[..|path| - 1]),
              tick.serial, tick.choice).1
  }

  ghost function DbAfter(id: JobId, first: Attempt, start: Db, path: seq<Tick>): Db {
    if path == [] then start
    else
      var tick := path[|path| - 1];
      Advance(tick.before, id, AttemptAfter(id, first, path[..|path| - 1]),
              tick.serial, tick.choice).0
  }

  /** What the task last run on a path came to: the choice of the step that ran it. */
  ghost function RanOn(id: JobId, first: Attempt, path: seq<Tick>): Option<bool>
    decreases |path|
  {
    if path == [] then None
    else
      var init := path[..|path| - 1];
      if AttemptAfter(id, first, init).pc == Running then Some(path[|path| - 1].choice)
      else RanOn(id, first, init)
  }

  /** What the rate limit said on a path: the choice of the step that asked it. */
  ghost function LimitOn(id: JobId, first: Attempt, path: seq<Tick>): Option<bool>
    decreases |path|
  {
    if path == [] then None
    else
      var init := path[..|path| - 1];
      if AttemptAfter(id, first, init).pc.Uncharged? then Some(path[|path| - 1].choice)
      else LimitOn(id, first, init)
  }

  /** The row says what the task came to, and so does the receipt. */
  predicate SaysHowItRan(db: Db, id: JobId, ok: bool) {
    && id in db.jobs && id in db.receipts
    && (db.jobs[id].status == Completed <==> ok) && (db.jobs[id].status == Failed <==> !ok)
    && db.receipts[id].ok == ok
  }

  /** What may happen between two steps of an attempt at an id. */
  ghost predicate Between(alone: bool, id: JobId, before: Db, after: Db) {
    if alone then OneProcess(before, after, Some(id)) else Grows(before, after)
  }

  /** An attempt's steps, in the machine's order, each on tables to which only what may happen
      between two steps has happened since the attempt's own step before it. */
  ghost predicate IsPath(alone: bool, id: JobId, first: Attempt, start: Db, path: seq<Tick>)
    decreases |path|
  {
    path != [] ==>
      && IsPath(alone, id, first, start, path[..|path| - 1])
      && Between(alone, id, DbAfter(id, first, start, path[..|path| - 1]), path[|path| - 1].before)
  }

  /** An attempt about to make its first step. */
  lemma {:induction false} Standing(alone: bool, id: JobId, first: Attempt, start: Db)
    returns (path: seq<Tick>, a: Attempt)
    ensures IsPath(alone, id, first, start, path)
    ensures a == AttemptAfter(id, first, path) == first && DbAfter(id, first, start, path) == start
    ensures RanOn(id, first, path).None? && LimitOn(id, first, path).None?
  {
    path, a := [], first;
  }

  /** Its next step. */
  lemma {:induction false} Walk(alone: bool, id: JobId, first: Attempt, start: Db, path: seq<Tick>, tick: Tick)
    returns (path': seq<Tick>, a': Attempt)
    requires IsPath(alone, id, first, start, path)
    requires Between(alone, id, DbAfter(id, first, start, path), tick.before)
    ensures IsPath(alone, id, first, start, path')
    ensures a' == AttemptAfter(id, first, path')
    ensures (DbAfter(id, first, start, path'), a')
            == Advance(tick.before, id, AttemptAfter(id, first, path), tick.serial, tick.choice)
    ensures RanOn(id, first, path') == if AttemptAfter(id, first, path).pc == Running then Some(tick.choice)
                                       else RanOn(id, first, path)
    ensures LimitOn(id, first, path')
            == if AttemptAfter(id, first, path).pc.Uncharged? then Some(tick.choice) else LimitOn(id, first, path)
  {
    path' := path + [tick];
    assert path'[..|path'| - 1] == path;
    a' := AttemptAfter(id, first, path');
  }

  /** An attempt, whatever runs beside it, only ever adds to the tables. */
  lemma {:induction false} PathGrows(alone: bool, id: JobId, first: Attempt, start: Db, path: seq<Tick>)
    requires IsPath(alone, id, first, start, path)
    ensures Grows(start, DbAfter(id, first, start, path))
    decreases |path|
  {
    if path != [] {
      var tick, init := path[|path| - 1], path[..|path| - 1];
      PathGrows(alone, id, first, start, init);
      AdvanceGrows(tick.before, id, AttemptAfter(id, first, init), tick.serial, tick.choice);
    }
  }

  lemma {:induction false} AdvanceGrows(db: Db, id: JobId, a: Attempt, serial: nat, choice: bool)
    ensures Grows(db, Advance(db, id, a, serial, choice).0)
  {
  }

  /** One step of an attempt whose id nobody else works at. */
  lemma {:induction false} StepSettles(db: Db, id: JobId, a: Attempt, serial: nat, choice: bool)
    requires AllConsistent(db) && AttemptAlone(db, id, a)
    ensures var (db', a') := Advance(db, id, a, serial, choice);
            AllConsistent(db') && AttemptAlone(db', id, a') && Settles(db, db')
  {
    var db' := Advance(db, id, a, serial, choice).0;
    assert Consistent(db, id) by {
      assert id in db.jobs.Keys + db.receipts.Keys || (id !in db.jobs && id !in db.receipts);
    }
    AdvanceSound(db, id, a, serial, choice);
    forall k | k != id ensures Untouched(db, db', k) {
      AdvanceLeavesOthers(db, id, a, serial, choice, k);
    }
    forall k | k in db'.jobs.Keys + db'.receipts.Keys ensures Consistent(db', k) {
      assert k != id ==> Untouched(db, db', k) && k in db.jobs.Keys + db.receipts.Keys;
    }
    forall k | k in db.receipts
      ensures k in db'.receipts && db'.receipts[k] == db.receipts[k]
      ensures k in db.jobs ==> k in db'.jobs && db'.jobs[k] == db.jobs[k]
    {
      assert k != id ==> Untouched(db, db', k);
    }
  }

  /** With the ledger to itself, an attempt answers its job once and leaves every answer there
      is as it was. */
  lemma {:induction false} PathSettles(id: JobId, first: Attempt, start: Db, path: seq<Tick>)
    requires IsPath(true, id, first, start, path) && AllConsistent(start) && first.pc == Begun
    ensures var db := DbAfter(id, first, start, path);
            AllConsistent(db) && AttemptAlone(db, id, AttemptAfter(id, first, path)) && Settles(start, db)
    decreases |path|
  {
    hide AllConsistent, AttemptAlone, Advance, Grows;
    if path == [] {
      Unbegun(start, id, first);
    } else {
      var tick, init := path[|path| - 1], path[..|path| - 1];
      var a := AttemptAfter(id, first, init);
      PathSettles(id, first, start, init);
      AloneStays(DbAfter(id, first, start, init), tick.before, id, a);
      StepSettles(tick.before, id, a, tick.serial, tick.choice);
      SettlesOn(start, DbAfter(id, first, start, init), tick.before);
      SettlesOn(start, tick.before, DbAfter(id, first, start, path));
    }
  }

  lemma Unbegun(db: Db, id: JobId, a: Attempt)
    requires a.pc == Begun
    ensures AttemptAlone(db, id, a) && Settles(db, db)
  {
  }

  lemma AloneStays(before: Db, after: Db, id: JobId, a: Attempt)
    requires AttemptAlone(before, id, a) && Untouched(before, after, id)
    ensures AttemptAlone(after, id, a)
  {
  }

  lemma SettlesOn(a: Db, b: Db, c: Db)
    requires Settles(a, b) && Settles(b, c)
    ensures Settles(a, c)
  {
  }

  lemma OwnerKept(before: Db, after: Db, id: JobId)
    requires Grows(before, after)
    ensures id in before.jobs ==> Owner(after, id) == Owner(before, id)
  {
  }

  /** The requester's own row is there, and so is the receipt. */
  ghost predicate AnsweredFor(db: Db, id: JobId, requester: Did) {
    id in db.receipts && Owner(db, id) == Some(requester)
  }

  /** An attempt that comes to an end leaves the tables its last step left; one that dies was
      waiting to make the next. */
  ghost predicate Reached(alone: bool, id: JobId, stepped: Db, now: Db, end: Ending) {
    if end.Died? then Between(alone, id, stepped, now) else now == stepped
  }

  lemma {:induction false} PathOnward(
      alone: bool, id: JobId, first: Attempt, start: Db, path: seq<Tick>, now: Db, end: Ending)
    requires IsPath(alone, id, first, start, path) && first.pc == Begun
    requires Reached(alone, id, DbAfter(id, first, start, path), now, end)
    ensures Onward(alone, start, now)
  {
    hide AllConsistent, AttemptAlone, Advance, DbAfter, AttemptAfter, IsPath;
    var stepped := DbAfter(id, first, start, path);
    PathGrows(alone, id, first, start, path);
    if end.Died? {
      GrowsOn(start, stepped, now);
    }
    if alone && AllConsistent(start) {
      PathSettles(id, first, start, path);
      if end.Died? {
        SettlesOn(start, stepped, now);
      }
    }
  }

  /** What a lane hands over: the job's text, who sent it, and whether it calls it a test of its own. */
  datatype Call = Call(text: string, requester: Did, internalTest: bool)

  class JobRunner {
    const ledger: Ledger
    const isDid: string -> bool
    /** `parse_and_validate`: the job id of a valid line, or the refusal's code. */
    const validate: string -> Result<JobId, string>
    /** Whose attempt at each id another caller has in flight. */
    var inFlight: map<JobId, Did>
    /** What the lanes have handed over so far. */
    ghost var calls: seq<Call>

    constructor (ledger: Ledger, isDid: string -> bool, validate: string -> Result<JobId, string>)
      ensures this.ledger == ledger && this.isDid == isDid && this.validate == validate
    {
      this.ledger, this.isDid, this.validate, inFlight, calls := ledger, isDid, validate, map[], [];
    }

    /** Every ledger step `_run` makes is the machine's next one. It is refused as over the limit
        exactly when the limit was asked and said so, and as taken only when the row is another's;
        and what was answered before is not run again. */
    method Run(id: JobId, requester: Did, internalTest: bool)
      returns (end: Ending, ghost path: seq<Tick>)
      modifies ledger`db
      ensures var first := Attempt(requester, internalTest, Begun, [requester]);
              && IsPath(ledger.alone, id, first, old(ledger.db), path)
              && Reached(ledger.alone, id, DbAfter(id, first, old(ledger.db), path), ledger.db, end)
              && (end.Done? ==> AttemptAfter(id, first, path).pc == Over(end.outcome))
              && (end.Refused? ==> AttemptAfter(id, first, path).pc == Over(Rejected))
              && (end.Done? && end.outcome.Answered? ==> RanOn(id, first, path) == Some(end.outcome.ok))
              && (end == Done(Duplicate) || end.Refused? ==> RanOn(id, first, path).None?)
              && (end == Refused("rate_limited") <==> LimitOn(id, first, path) == Some(false))
      ensures end.Refused? ==>
                end.code == "rate_limited"
                || (end.code == "job_id_taken"
                    && Owner(ledger.db, id).Some? && Owner(ledger.db, id) != Some(requester))
      ensures end.Done? ==> AnsweredFor(ledger.db, id, requester)
      ensures end.Done? && end.outcome.Answered? ==> SaysHowItRan(ledger.db, id, end.outcome.ok)
    {
      hide Grows, OneProcess, IsPath, AttemptAfter, DbAfter, RanOn, LimitOn;
      ghost var first := Attempt(requester, internalTest, Begun, [requester]);
      ghost var a;
      path, a := Standing(ledger.alone, id, first, ledger.db);

      ledger.OtherLanes(Some(id));
      var declared := (requester, id) in ledger.db.declared;
      path, a := Walk(ledger.alone, id, first, old(ledger.db), path, Tick(ledger.db, 0, true));
      var internal := internalTest || declared;

      ledger.OtherLanes(Some(id));
      var owner := Owner(ledger.db, id);
      ghost var met := ledger.db;
      path, a := Walk(ledger.alone, id, first, old(ledger.db), path, Tick(ledger.db, 0, true));
      if owner.Some? && owner.value != requester {
        return Refused("job_id_taken"), path;
      }
      if owner == Some(requester) {
        ledger.OtherLanes(Some(id));
        OwnerKept(met, ledger.db, id);
        met := ledger.db;
        internal := ledger.db.jobs[id].internal;
        path, a := Walk(ledger.alone, id, first, old(ledger.db), path, Tick(ledger.db, 0, true));
        ledger.OtherLanes(Some(id));
        OwnerKept(met, ledger.db, id);
        path, a := Walk(ledger.alone, id, first, old(ledger.db), path, Tick(ledger.db, 0, true));
        if id in ledger.db.receipts {
          return Done(Duplicate), path;
        }
      } else {
        ledger.OtherLanes(Some(id));
        var withinLimit := *;
        path, a := Walk(ledger.alone, id, first, old(ledger.db), path, Tick(ledger.db, 0, withinLimit));
        if !withinLimit {
          return Refused("rate_limited"), path;
        }
      }
      end, path := InsertAndExecute(id, requester, internal, declared, first, old(ledger.db), path);
    }

    /** `_run` from the insert on. */
    method InsertAndExecute(
        id: JobId, requester: Did, internal: bool, declared: bool,
        ghost first: Attempt, ghost start: Db, ghost walked: seq<Tick>)
      returns (end: Ending, ghost path: seq<Tick>)
      requires IsPath(ledger.alone, id, first, start, walked)
      requires DbAfter(id, first, start, walked) == ledger.db
      requires AttemptAfter(id, first, walked)
               == Attempt(requester, internal, Admitted(declared), first.waiters)
      modifies ledger`db
      ensures IsPath(ledger.alone, id, first, start, path)
      ensures Reached(ledger.alone, id, DbAfter(id, first, start, path), ledger.db, end)
      ensures end.Done? ==> AttemptAfter(id, first, path).pc == Over(end.outcome)
      ensures end.Refused? ==> AttemptAfter(id, first, path).pc == Over(Rejected)
      ensures end.Done? ==> AnsweredFor(ledger.db, id, requester)
      ensures end.Done? && end.outcome.Answered? ==>
                RanOn(id, first, path) == Some(end.outcome.ok) && SaysHowItRan(ledger.db, id, end.outcome.ok)
      ensures end == Done(Duplicate) || end.Refused? ==> RanOn(id, first, path) == RanOn(id, first, walked)
      ensures LimitOn(id, first, path) == LimitOn(id, first, walked)
      ensures end.Refused? ==>
                end.code == "job_id_taken"
                && Owner(ledger.db, id).Some? && Owner(ledger.db, id) != Some(requester)
    {
      hide Grows, OneProcess, IsPath, AttemptAfter, DbAfter, RanOn, LimitOn;
      ghost var a;
      path := walked;
      ledger.OtherLanes(Some(id));
      ghost var met := ledger.db;
      var alive, inserted := ledger.InsertJob(id, requester, internal, declared);
      if !alive {
        return Died, path;
      }
      path, a := Walk(ledger.alone, id, first, start, path, Tick(met, 0, true));
      if !inserted {
        ledger.OtherLanes(Some(id));
        OwnerKept(met, ledger.db, id);
        met := ledger.db;
        path, a := Walk(ledger.alone, id, first, start, path, Tick(ledger.db, 0, true));
        var winner := Owner(ledger.db, id);
        if winner.Some? && winner.value != requester {
          return Refused("job_id_taken"), path;
        }
        ledger.OtherLanes(Some(id));
        OwnerKept(met, ledger.db, id);
        path, a := Walk(ledger.alone, id, first, start, path, Tick(ledger.db, 0, true));
        if id in ledger.db.receipts {
          return Done(Duplicate), path;
        }
      }
      end, path := ClaimAndAnswer(id, requester, internal, first, start, path);
    }

    method ClaimAndAnswer(
        id: JobId, requester: Did, internal: bool,
        ghost first: Attempt, ghost start: Db, ghost walked: seq<Tick>)
      returns (end: Ending, ghost path: seq<Tick>)
      requires IsPath(ledger.alone, id, first, start, walked)
      requires DbAfter(id, first, start, walked) == ledger.db
      requires AttemptAfter(id, first, walked)
               == Attempt(requester, internal, Inserted, first.waiters)
      requires Owner(ledger.db, id) == Some(requester)
      modifies ledger`db
      ensures IsPath(ledger.alone, id, first, start, path)
      ensures Reached(ledger.alone, id, DbAfter(id, first, start, path), ledger.db, end)
      ensures end.Died? || (end.Done? && end.outcome.Answered?)
      ensures LimitOn(id, first, path) == LimitOn(id, first, walked)
      ensures end.Done? ==>
                RanOn(id, first, path) == Some(end.outcome.ok) && SaysHowItRan(ledger.db, id, end.outcome.ok)
      ensures end.Done? ==> AttemptAfter(id, first, path).pc == Over(end.outcome)
      ensures end.Done? ==> AnsweredFor(ledger.db, id, requester)
    {
      hide Grows, OneProcess, IsPath, AttemptAfter, DbAfter, RanOn, LimitOn;
      ghost var a;
      path := walked;
      ghost var met := ledger.db;
      ledger.OtherLanes(Some(id));
      OwnerKept(met, ledger.db, id);
      met := ledger.db;
      var alive := ledger.UpdateJob(id, Claimed);
      if !alive {
        return Died, path;
      }
      path, a := Walk(ledger.alone, id, first, start, path, Tick(met, 0, true));

      var ok := *;
      met := ledger.db;
      ledger.OtherLanes(Some(id));
      OwnerKept(met, ledger.db, id);
      path, a := Walk(ledger.alone, id, first, start, path, Tick(ledger.db, 0, ok));
      met := ledger.db;
      ledger.OtherLanes(Some(id));
      OwnerKept(met, ledger.db, id);
      path, a := Walk(ledger.alone, id, first, start, path, Tick(ledger.db, 0, ok));

      end, path := Answer(id, requester, internal, ok, first, start, path);
    }

    method Answer(
        id: JobId, requester: Did, internal: bool, ok: bool,
        ghost first: Attempt, ghost start: Db, ghost walked: seq<Tick>)
      returns (end: Ending, ghost path: seq<Tick>)
      requires IsPath(ledger.alone, id, first, start, walked)
      requires DbAfter(id, first, start, walked) == ledger.db
      requires AttemptAfter(id, first, walked)
               == Attempt(requester, internal, ResultRecorded(ok), first.waiters)
      requires Owner(ledger.db, id) == Some(requester)
      modifies ledger`db
      ensures IsPath(ledger.alone, id, first, start, path)
      ensures Reached(ledger.alone, id, DbAfter(id, first, start, path), ledger.db, end)
      ensures end.Died? || end == Done(Answered(ok))
      ensures end.Done? ==>
                SaysHowItRan(ledger.db, id, ok) && RanOn(id, first, path) == RanOn(id, first, walked)
      ensures LimitOn(id, first, path) == LimitOn(id, first, walked)
      ensures end.Done? ==> AttemptAfter(id, first, path).pc == Over(end.outcome)
      ensures end.Done? ==> AnsweredFor(ledger.db, id, requester)
    {
      hide Grows, OneProcess, IsPath, AttemptAfter, DbAfter, RanOn, LimitOn;
      ghost var a;
      var serial: nat := *;
      ghost var met := ledger.db;
      ledger.OtherLanes(Some(id));
      OwnerKept(met, ledger.db, id);
      met := ledger.db;
      var alive := ledger.RecordReceipt(id, ReceiptRow(serial, requester, internal, ok),
                                        if ok then Completed else Failed);
      if !alive {
        return Died, walked;
      }
      path, a := Walk(ledger.alone, id, first, start, walked, Tick(met, serial, ok));
      return Done(Answered(ok)), path;
    }

    /** While this caller waits, others come and go: whose attempts are in flight changes, but for
        the one at an id this caller holds. */
    method OtherCallers(held: Option<JobId>)
      requires held.Some? ==> held.value in inFlight
      modifies this`inFlight
      ensures held.Some? ==> held.value in inFlight && inFlight[held.value] == old(inFlight)[held.value]
    {
      var others: map<JobId, Did> := *;
      inFlight := if held.Some? then others[held.value := inFlight[held.value]] else others;
    }

    /** Awaiting another caller's attempt of the same requester's. */
    method AwaitOther(id: JobId, requester: Did) returns (end: Ending)
      modifies this`inFlight, ledger`db
      ensures Onward(ledger.alone, old(ledger.db), ledger.db)
      ensures end.Done? ==> AnsweredFor(ledger.db, id, requester)
      ensures end.Done? ==>
                end.outcome.Answered? && id in ledger.db.receipts
                && ledger.db.receipts[id].ok == end.outcome.ok
    {
      hide AllConsistent;
      OtherCallers(None);
      ledger.OtherLanes(None);
      var alive := *;
      if !alive {
        end := Died;
      } else if id in ledger.db.receipts && Owner(ledger.db, id) == Some(requester) {
        end := Done(Answered(ledger.db.receipts[id].ok));
      } else {
        var code: string := *;
        end := Refused(code);
      }
    }

    /** `handle`. The attempt this caller starts has been retired when it returns; what else is in
        flight by then is other callers'. */
    method Handle(text: string, requester: Did, internalTest: bool) returns (end: Ending)
      modifies this`inFlight, this`calls, ledger`db
      ensures calls == old(calls) + [Call(text, requester, internalTest)]
      ensures Onward(ledger.alone, old(ledger.db), ledger.db)
      ensures !isDid(requester) ==> end.Refused? && ledger.db == old(ledger.db)
      ensures isDid(requester) && validate(text).Err? ==>
                end == Refused(validate(text).error) && ledger.db == old(ledger.db)
      ensures end.Done? ==>
                isDid(requester) && validate(text).Ok?
                && AnsweredFor(ledger.db, validate(text).value, requester)
      ensures end.Done? && end.outcome.Answered? ==>
                var id := validate(text).value;
                && ledger.db.receipts[id].ok == end.outcome.ok
                && (id !in old(inFlight) || (ledger.alone && AllConsistent(old(ledger.db))) ==>
                      SaysHowItRan(ledger.db, id, end.outcome.ok))
      ensures isDid(requester) && validate(text).Ok? ==>
                var id := validate(text).value;
                && (id in old(inFlight) && old(inFlight)[id] != requester ==>
                      end == Refused("job_id_taken") && ledger.db == old(ledger.db))
                && (id !in old(inFlight) ==> id !in inFlight)
    {
      hide Grows, Onward, IsPath, DbAfter, AttemptAfter;
      OnwardStill(ledger.alone, ledger.db);
      calls := calls + [Call(text, requester, internalTest)];
      if !isDid(requester) {
        return Refused("unsigned_or_unverified_sender");
      }
      match validate(text)
      case Err(code) =>
        return Refused(code);
      case Ok(id) =>
        if id in inFlight {
          if inFlight[id] != requester {
            return Refused("job_id_taken");
          }
          end := AwaitOther(id, requester);
          if end.Done? && ledger.alone && AllConsistent(old(ledger.db)) {
            ReceiptSays(old(ledger.db), ledger.db, id);
          }
        } else {
          ghost var path;
          inFlight := inFlight[id := requester];
          end, path := Run(id, requester, internalTest);
          PathOnward(ledger.alone, id, Attempt(requester, internalTest, Begun, [requester]),
                     old(ledger.db), path, ledger.db, end);
          OtherCallers(Some(id));
          inFlight := inFlight - {id};
        }
    }
  }

  lemma ReceiptSays(before: Db, db: Db, id: JobId)
    requires Onward(true, before, db) && AllConsistent(before) && id in db.receipts
    ensures SaysHowItRan(db, id, db.receipts[id].ok)
  {
    assert id in db.jobs.Keys + db.receipts.Keys;
  }

  lemma OnwardStill(alone: bool, db: Db)
    ensures Onward(alone, db, db)
  {
    hide AllConsistent;
  }
}
