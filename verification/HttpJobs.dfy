/** `POST /v1/jobs`: one ordered procedure of checks, the nonce claim, and the runner. */
module HttpJobs {
  import opened Basics
  import opened Tables
  import JobMachine
  import opened LedgerStore
  import opened Runner

  const MAX_NONCE := 9223372036854775807

  /** A submission, its body already parsed. `nonce` is the text that was signed, `body` the
      job's canonical text. */
  datatype Envelope = Envelope(did: Did, sig: string, nonce: string, job: Option<JobId>, body: string)

  /** An envelope the runner was handed, with the number its nonce was claimed as. */
  datatype Execution = Execution(envelope: Envelope, nonce: nat)

  datatype Response =
    | NotAccepting
    | BadSignature
    | AlreadyCompleted(id: JobId, receipt: ReceiptRow)
    | RateLimited
    | Invalid(code: string)
    | NonceNotAdvancing
    | RefusedByRunner(code: string)
    | DuplicateJobId
    | NewlyAnswered(id: JobId, receipt: ReceiptRow)
    | Gone

  predicate AllDecimal(s: string) {
    forall i | 0 <= i < |s| :: '0' <= s[i] <= '9'
  }

  function NatOfText(s: string): nat
    requires AllDecimal(s)
  {
    if s == "" then 0 else 10 * NatOfText(s[..|s| - 1]) + (s[|s| - 1] - '0') as nat
  }

  /** `[0-9]{1,19}` up to the largest signed 64-bit integer. */
  predicate NonceOk(s: string) {
    1 <= |s| <= 19 && AllDecimal(s) && NatOfText(s) <= MAX_NONCE
  }

  /** The number a text of digits stands for: its first digit counts for ten times as much as it
      would one place further on. */
  lemma {:induction false} FirstDigit(s: string)
    requires s != "" && AllDecimal(s)
    ensures NatOfText(s) == (s[0] - '0') as nat * TenTo(|s| - 1) + NatOfText(s[1..])
    decreases |s|
  {
    if |s| > 1 {
      var init := s[..|s| - 1];
      FirstDigit(init);
      assert s[1..][..|s| - 2] == init[1..];
      assert TenTo(|s| - 1) == 10 * TenTo(|s| - 2);
      Distributes((s[0] - '0') as nat, TenTo(|s| - 2));
    }
  }

  ghost function TenTo(k: nat): nat {
    if k == 0 then 1 else 10 * TenTo(k - 1)
  }

  lemma Distributes(d: nat, p: nat)
    ensures 10 * (d * p) == d * (10 * p)
  {
  }

  /** Which nonces are taken: one to nineteen digits, up to 2^63 - 1. */
  lemma {:induction false} NoncesTaken(s: string)
    ensures NonceOk(s) <==>
            && 0 < |s| < 20 && (forall i | 0 <= i < |s| :: s[i] in "0123456789")
            && NatOfText(s) < 0x8000_0000_0000_0000
  {
  }

  /** What a signature is made over: two envelopes with one payload carry one submission. */
  function Payload(e: Envelope): (Did, string, string) {
    (e.did, e.nonce, e.body)
  }

  /** Each key's nonces that reached execution rise, and none is above its recorded floor. */
  ghost predicate Rising(executed: seq<Execution>, floors: map<Did, nat>) {
    && (forall i, k | 0 <= i < k < |executed| && executed[i].envelope.did == executed[k].envelope.did ::
          executed[i].nonce < executed[k].nonce)
    && (forall i | 0 <= i < |executed| ::
          executed[i].envelope.did in floors && executed[i].nonce <= floors[executed[i].envelope.did])
    && (forall i | 0 <= i < |executed| ::
          NonceOk(executed[i].envelope.nonce)
          && executed[i].nonce == NatOfText(executed[i].envelope.nonce))
  }

  /** No signed submission reaches the runner twice - not even respelled, "7" as "007". */
  lemma NoReplay(executed: seq<Execution>, floors: map<Did, nat>, i: nat, k: nat)
    requires Rising(executed, floors) && i < k < |executed|
    ensures Payload(executed[i].envelope) != Payload(executed[k].envelope)
    ensures executed[i].envelope.did == executed[k].envelope.did ==>
              NatOfText(executed[i].envelope.nonce) < NatOfText(executed[k].envelope.nonce)
  {
  }

  /** What other requests, at work whenever this one waits, may have done. */
  ghost predicate Advances(
      executed: seq<Execution>, floors: map<Did, nat>, later: seq<Execution>, laterFloors: map<Did, nat>)
  {
    && executed <= later
    && (forall did | did in floors :: did in laterFloors && floors[did] <= laterFloors[did])
  }

  class JobsEndpoint {
    const ledger: Ledger
    const runner: JobRunner
    /** `verify_http_job`, apart from the nonce's own check. */
    const signed: Envelope -> bool
    var floors: map<Did, nat>
    ghost var executed: seq<Execution>

    constructor (runner: JobRunner, signed: Envelope -> bool)
      ensures this.runner == runner && this.signed == signed && Valid() && executed == []
    {
      this.ledger, this.runner, this.signed := runner.ledger, runner, signed;
      floors, executed := map[], [];
    }

    ghost predicate Valid()
      reads this
    {
      runner.ledger == ledger && Rising(executed, floors)
    }

    method LaneIsOpen() returns (open: bool) {
      open := *;
    }

    /** `claim_http_nonce`: the check and the write in one transaction. */
    method ClaimHttpNonce(did: Did, nonce: nat) returns (claimed: bool)
      modifies this`floors
      ensures claimed <==> did !in old(floors) || nonce > old(floors)[did]
      ensures floors == if claimed then old(floors)[did := nonce] else old(floors)
    {
      claimed := did !in floors || nonce > floors[did];
      if claimed {
        floors := floors[did := nonce];
      }
    }

    ghost method Execute(e: Envelope)
      requires Valid() && NonceOk(e.nonce)
      requires e.did in floors && floors[e.did] == NatOfText(e.nonce)
      requires forall i | 0 <= i < |executed| && executed[i].envelope.did == e.did ::
                 executed[i].nonce < NatOfText(e.nonce)
      modifies this`executed
      ensures Valid() && executed == old(executed) + [Execution(e, NatOfText(e.nonce))]
    {
      executed := executed + [Execution(e, NatOfText(e.nonce))];
    }

    /** Any number of other requests claiming and executing while this one waits. */
    method OtherRequests()
      requires Valid()
      modifies this
      ensures Valid() && Advances(old(executed), old(floors), executed, floors)
    {
      var more := *;
      var steps := 0;
      while steps < more
        invariant Valid() && Advances(old(executed), old(floors), executed, floors)
        decreases more - steps
      {
        var e: Envelope := *;
        if NonceOk(e.nonce) {
          var claimed := ClaimHttpNonce(e.did, NatOfText(e.nonce));
          var dies := *;
          if claimed && !dies {
            Execute(e);
          }
        }
        steps := steps + 1;
      }
    }

    /** `submit_job`, from the parsed envelope. `met` and `metFloors` are what other requests had
        left when this one's checks began, `looked` the job tables the checks saw, `open` and
        `withinLimit` what the gate and, when it was asked, the rate limit answered; `ran` is whether
        it reached the runner.

        Each refusal comes exactly when its check fails and those before it pass: the gate, the
        signature with its nonce, an answer the caller already has, the rate limit - which a job the
        caller has open is not charged again for - the job's own validity, and the nonce's claim.

        A request that is answered from the ledger or refused before the claim leaves every
        counter as it was; one that reaches the runner has just raised its own. A resubmission
        of an answered job by its owner is answered with its receipt, whatever its nonce. */
    method SubmitJob(e: Envelope)
      returns (response: Response, ghost ran: bool, ghost met: seq<Execution>, ghost metFloors: map<Did, nat>,
               ghost looked: Db, ghost open: bool, ghost withinLimit: Option<bool>)
      requires Valid()
      modifies this, ledger`db, runner`inFlight, runner`calls
      ensures Onward(ledger.alone, old(ledger.db), looked)
      ensures var mine := e.job.Some? && Owner(looked, e.job.value) == Some(e.did);
              var answered := e.job.Some? && e.job.value in looked.receipts;
              if !open then response == NotAccepting && !ran
              else if !NonceOk(e.nonce) || !signed(e) then response == BadSignature && !ran
              else if answered && mine then
                response == AlreadyCompleted(e.job.value, looked.receipts[e.job.value]) && !ran
              else if mine != withinLimit.None? then false
              else if withinLimit == Some(false) then response == RateLimited && !ran
              else if runner.validate(e.body).Err? then
                response in {Invalid(runner.validate(e.body).error), Gone} && !ran
                && (response.Invalid? ==>
                      ledger.db.rejections
                      == looked.rejections + [Rejection(e.job, Some(e.did), runner.validate(e.body).error)])
              else if e.did in metFloors && NatOfText(e.nonce) <= metFloors[e.did] then
                response == NonceNotAdvancing && !ran
              else ran
      ensures Valid() && Onward(ledger.alone, old(ledger.db), ledger.db)
      ensures Advances(old(executed), old(floors), met, metFloors)
      ensures !ran && !response.Invalid? && !response.Gone? ==> ledger.db == looked
      ensures !ran && response != NonceNotAdvancing && !response.Gone? ==>
                executed == met && floors == metFloors
      ensures response.NonceNotAdvancing? ==>
                executed == met && floors == metFloors && signed(e) && NonceOk(e.nonce)
                && e.did in floors && NatOfText(e.nonce) <= floors[e.did]
      ensures ran ==>
                && signed(e) && NonceOk(e.nonce)
                && |met| < |executed| && met <= executed
                && executed[|met|] == Execution(e, NatOfText(e.nonce))
                && (e.did in metFloors ==> metFloors[e.did] < NatOfText(e.nonce))
      ensures !(signed(e) && NonceOk(e.nonce)) ==> response.NotAccepting? || response.BadSignature?
      ensures response.AlreadyCompleted? ==>
                e.job == Some(response.id) && AnsweredFor(ledger.db, response.id, e.did)
                && ledger.db.receipts[response.id] == response.receipt
      ensures e.job.Some? && AnsweredFor(old(ledger.db), e.job.value, e.did)
              && signed(e) && NonceOk(e.nonce) && !response.NotAccepting? ==>
                response.AlreadyCompleted? && !ran
      ensures runner.calls == old(runner.calls) + if ran then [Call(e.body, e.did, false)] else []
      ensures response.NewlyAnswered? ==>
                && ran && runner.validate(e.body) == Ok(response.id)
                && AnsweredFor(ledger.db, response.id, e.did)
                && ledger.db.receipts[response.id] == response.receipt
    {
      hide Grows, OneProcess, Onward, Rising;
      ran, open, withinLimit := false, false, None;
      OtherRequests();
      met, metFloors := executed, floors;
      ledger.OtherLanes(None);
      LanesGoOnward(ledger.alone, old(ledger.db), ledger.db);
      looked := ledger.db;
      var accepting := LaneIsOpen();
      open := accepting;
      if !accepting {
        return NotAccepting, ran, met, metFloors, looked, open, withinLimit;
      }
      if !NonceOk(e.nonce) || !signed(e) {
        return BadSignature, ran, met, metFloors, looked, open, withinLimit;
      }
      StaysAnswered(old(ledger.db), ledger.db, e);
      var owner := if e.job.Some? then Owner(ledger.db, e.job.value) else None;
      var answered := e.job.Some? && e.job.value in ledger.db.receipts;
      if answered && owner == Some(e.did) {
        response := AlreadyCompleted(e.job.value, ledger.db.receipts[e.job.value]);
        return;
      }
      var resuming := owner == Some(e.did) && !answered;
      if !resuming {
        var admitted := *;
        withinLimit := Some(admitted);
        if !admitted {
          return RateLimited, ran, met, metFloors, looked, open, withinLimit;
        }
      }
      if runner.validate(e.body).Err? {
        var code := runner.validate(e.body).error;
        ghost var before := ledger.db;
        var alive := ledger.RecordRejection(Rejection(e.job, Some(e.did), code));
        RejectionGoesOnward(ledger.alone, before, ledger.db, Rejection(e.job, Some(e.did), code));
        OnwardComposes(ledger.alone, old(ledger.db), before, ledger.db);
        return if alive then Invalid(code) else Gone, ran, met, metFloors, looked, open, withinLimit;
      }
      var claimed := ClaimHttpNonce(e.did, NatOfText(e.nonce));
      ClaimKeeps(met, metFloors, floors, e);
      if !claimed {
        return NonceNotAdvancing, ran, met, metFloors, looked, open, withinLimit;
      }
      ghost var end;
      response, end := Run(e, met, metFloors, old(ledger.db));
      ran := true;
    }

    /** From the claim on: the runner, and its outcome told to the caller: a refusal under its own
        code, recorded; a new answer with its receipt; an answer that was there, with its receipt
        when the envelope named the job. */
    method Run(e: Envelope, ghost met: seq<Execution>, ghost metFloors: map<Did, nat>, ghost start: Db)
      returns (response: Response, ghost end: Ending)
      requires Valid() && NonceOk(e.nonce) && executed == met
      requires e.did in floors && floors[e.did] == NatOfText(e.nonce)
      requires forall i | 0 <= i < |met| && met[i].envelope.did == e.did ::
                 met[i].nonce < NatOfText(e.nonce)
      requires Onward(ledger.alone, start, ledger.db)
      modifies this, ledger`db, runner`inFlight, runner`calls
      ensures Valid() && Onward(ledger.alone, start, ledger.db)
      ensures met <= executed && |met| < |executed|
      ensures executed[|met|] == Execution(e, NatOfText(e.nonce))
      ensures runner.calls == old(runner.calls) + [Call(e.body, e.did, false)]
      ensures match end
              case Died => response == Gone
              case Refused(code) =>
                response in {RefusedByRunner(code), Gone}
                && (response.RefusedByRunner? ==>
                      && |ledger.db.rejections| > 0
                      && ledger.db.rejections[|ledger.db.rejections| - 1] == Rejection(e.job, Some(e.did), code))
              case Done(outcome) =>
                && runner.validate(e.body).Ok?
                && var id := runner.validate(e.body).value;
                && AnsweredFor(ledger.db, id, e.did)
                && (outcome.Answered? ==>
                      response == NewlyAnswered(id, ledger.db.receipts[id]) && response.receipt.ok == outcome.ok)
                && (!outcome.Answered? ==>
                      response == if e.job == Some(id) then AlreadyCompleted(id, ledger.db.receipts[id])
                                  else DuplicateJobId)
    {
      hide Grows, Onward, Rising;
      Execute(e);
      ghost var before := ledger.db;
      var ending := runner.Handle(e.body, e.did, false);
      end := ending;
      OnwardComposes(ledger.alone, start, before, ledger.db);
      var others := *;
      if others {
        OtherRequests();
      }
      match ending
      case Died => response := Gone;
      case Refused(code) =>
        before := ledger.db;
        var alive := ledger.RecordRejection(Rejection(e.job, Some(e.did), code));
        RejectionGoesOnward(ledger.alone, before, ledger.db, Rejection(e.job, Some(e.did), code));
        OnwardComposes(ledger.alone, start, before, ledger.db);
        response := if alive then RefusedByRunner(code) else Gone;
      case Done(outcome) =>
        var id := runner.validate(e.body).value;
        if outcome.Answered? {
          response := NewlyAnswered(id, ledger.db.receipts[id]);
        } else if e.job == Some(id) {
          response := AlreadyCompleted(id, ledger.db.receipts[id]);
        } else {
          response := DuplicateJobId;
        }
    }
  }

  lemma StaysAnswered(before: Db, after: Db, e: Envelope)
    requires Grows(before, after)
    ensures e.job.Some? && AnsweredFor(before, e.job.value, e.did) ==> AnsweredFor(after, e.job.value, e.did)
  {
  }

  lemma RejectionGoesOnward(alone: bool, before: Db, after: Db, rejection: Rejection)
    requires after == before || after == Tables.RecordRejection(before, rejection)
    ensures Onward(alone, before, after)
  {
  }

  lemma ClaimKeeps(met: seq<Execution>, before: map<Did, nat>, after: map<Did, nat>, e: Envelope)
    requires Rising(met, before) && NonceOk(e.nonce)
    requires after == before
             || (after == before[e.did := NatOfText(e.nonce)]
                 && (e.did in before ==> before[e.did] < NatOfText(e.nonce)))
    ensures Rising(met, after)
    ensures after != before ==>
              forall i | 0 <= i < |met| && met[i].envelope.did == e.did :: met[i].nonce < NatOfText(e.nonce)
  {
  }
}
