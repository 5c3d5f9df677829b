/** The hourly limit: a check of the hour that ends at each insert, and what it bounds. */
module RateLimit {
  import opened Tables

  /** Timestamps in microseconds, the one format the ledger writes. */
  const HOUR := 3600000000

  /** A job row, with when the check that admitted it looked at the clock. */
  datatype JobMark = JobMark(id: JobId, did: Did, checkedAt: int, receivedAt: int)

  datatype RefusalMark = RefusalMark(did: Did, receivedAt: int)

  function JobsSince(rows: seq<JobMark>, did: Did, since: int): nat {
    if rows == [] then 0
    else
      var last := rows[|rows| - 1];
      JobsSince(rows[..|rows| - 1], did, since)
      + if last.did == did && last.receivedAt >= since then 1 else 0
  }

  function RefusalsSince(rows: seq<RefusalMark>, did: Did, since: int): nat {
    if rows == [] then 0
    else
      var last := rows[|rows| - 1];
      RefusalsSince(rows[..|rows| - 1], did, since)
      + if last.did == did && last.receivedAt >= since then 1 else 0
  }

  /** The rows of one requester's in a closed window. */
  function JobsWithin(rows: seq<JobMark>, did: Did, from: int, to: int): nat {
    if rows == [] then 0
    else
      var last := rows[|rows| - 1];
      JobsWithin(rows[..|rows| - 1], did, from, to)
      + if last.did == did && from <= last.receivedAt <= to then 1 else 0
  }

  // What the counts count, as sets of rows.

  ghost function JobsFrom(rows: seq<JobMark>, did: Did, since: int): set<int> {
    set i | 0 <= i < |rows| && rows[i].did == did && rows[i].receivedAt >= since
  }

  ghost function RefusalsFrom(rows: seq<RefusalMark>, did: Did, since: int): set<int> {
    set i | 0 <= i < |rows| && rows[i].did == did && rows[i].receivedAt >= since
  }

  ghost function JobsBetween(rows: seq<JobMark>, did: Did, from: int, to: int): set<int> {
    set i | 0 <= i < |rows| && rows[i].did == did && from <= rows[i].receivedAt <= to
  }

  lemma {:induction false} JobsAreCounted(rows: seq<JobMark>, did: Did, since: int)
    ensures JobsSince(rows, did, since) == |JobsFrom(rows, did, since)|
    decreases |rows|
  {
    if rows != [] {
      var (k, init) := (|rows| - 1, rows[..|rows| - 1]);
      JobsAreCounted(init, did, since);
      var before := JobsFrom(init, did, since);
      assert k !in before;
      assert JobsFrom(rows, did, since)
          == if rows[k].did == did && rows[k].receivedAt >= since then before + {k} else before;
    }
  }

  lemma {:induction false} RefusalsAreCounted(rows: seq<RefusalMark>, did: Did, since: int)
    ensures RefusalsSince(rows, did, since) == |RefusalsFrom(rows, did, since)|
    decreases |rows|
  {
    if rows != [] {
      var (k, init) := (|rows| - 1, rows[..|rows| - 1]);
      RefusalsAreCounted(init, did, since);
      var before := RefusalsFrom(init, did, since);
      assert k !in before;
      assert RefusalsFrom(rows, did, since)
          == if rows[k].did == did && rows[k].receivedAt >= since then before + {k} else before;
    }
  }

  lemma {:induction false} WindowIsTheSet(rows: seq<JobMark>, did: Did, from: int, to: int)
    ensures JobsWithin(rows, did, from, to) == |JobsBetween(rows, did, from, to)|
    decreases |rows|
  {
    if rows != [] {
      var (k, init) := (|rows| - 1, rows[..|rows| - 1]);
      WindowIsTheSet(init, did, from, to);
      var before := JobsBetween(init, did, from, to);
      assert k !in before;
      assert JobsBetween(rows, did, from, to)
          == if rows[k].did == did && from <= rows[k].receivedAt <= to then before + {k} else before;
    }
  }

  /** How every row came in, on a clock that never goes back: one at a time, each after a check
      that counted what was there, with nothing inserted between the check and the row. */
  ghost predicate AllAdmitted(rows: seq<JobMark>, limit: int)
    decreases |rows|
  {
    rows != [] ==>
      var init, last := rows[..|rows| - 1], rows[|rows| - 1];
      && AllAdmitted(init, limit)
      && (forall i | 0 <= i < |init| :: init[i].receivedAt <= last.checkedAt)
      && last.checkedAt <= last.receivedAt
      && JobsSince(init, last.did, last.checkedAt - HOUR) < limit
  }

  lemma {:induction false} WindowIsCounted(rows: seq<JobMark>, did: Did, from: int, to: int, since: int)
    requires since <= from
    ensures JobsWithin(rows, did, from, to) <= JobsSince(rows, did, since)
    decreases |rows|
  {
    if rows != [] {
      WindowIsCounted(rows[..|rows| - 1], did, from, to, since);
    }
  }

  /** The check looks only at the hour that ends at each insert, and yet no requester ever has
      more rows than the limit in any window of 3600 seconds, its ends included. */
  lemma {:induction false} NeverOverTheLimit(
      rows: seq<JobMark>, limit: int, did: Did, from: int, to: int)
    requires AllAdmitted(rows, limit) && limit >= 0 && to <= from + 3_600_000_000
    ensures |JobsBetween(rows, did, from, to)| <= limit
  {
    WindowIsTheSet(rows, did, from, to);
    WindowIsBounded(rows, limit, did, from, to);
  }

  lemma {:induction false} WindowIsBounded(rows: seq<JobMark>, limit: int, did: Did, from: int, to: int)
    requires AllAdmitted(rows, limit) && limit >= 0 && to <= from + HOUR
    ensures JobsWithin(rows, did, from, to) <= limit
    decreases |rows|
  {
    if rows != [] {
      var init, last := rows[..|rows| - 1], rows[|rows| - 1];
      if last.did == did && from <= last.receivedAt <= to {
        WindowIsCounted(init, did, from, to, last.checkedAt - HOUR);
      } else {
        WindowIsBounded(init, limit, did, from, to);
      }
    }
  }

  /** What the atomic check and insert is for: let another process's row come in between, and
      the limit is passed. */
  lemma {:induction false} RowBetweenCheckAndInsert(did: Did) returns (rows: seq<JobMark>)
    ensures |rows| == 2
    ensures forall i | 0 <= i < 2 :: |JobsFrom([], did, rows[i].checkedAt - 3_600_000_000)| < 1
    ensures |JobsBetween(rows, did, 0, 3_600_000_000)| == 2
  {
    rows := [JobMark("a", did, 0, 1), JobMark("b", did, 0, 2)];
    assert rows[..1][..0] == [];
    assert JobsWithin(rows[..1], did, 0, HOUR) == 1;
    WindowIsTheSet(rows, did, 0, HOUR);
  }

  lemma OneMoreAdmitted(rows: seq<JobMark>, mark: JobMark, limit: int)
    requires AllAdmitted(rows, limit) && forall i | 0 <= i < |rows| :: rows[i].receivedAt <= mark.checkedAt
    requires mark.checkedAt <= mark.receivedAt && JobsSince(rows, mark.did, mark.checkedAt - HOUR) < limit
    ensures AllAdmitted(rows + [mark], limit)
  {
    assert (rows + [mark])[..|rows|] == rows;
  }

  datatype Admission = Resumed | Admitted | Taken | Limited

  class Admissions {
    const limit: int
    var clock: int
    var jobs: seq<JobMark>
    var refusals: seq<RefusalMark>

    constructor (limit: int)
      ensures this.limit == limit && Valid()
    {
      this.limit, clock, jobs, refusals := limit, 0, [], [];
    }

    ghost predicate Valid()
      reads this
    {
      AllAdmitted(jobs, limit) && forall i | 0 <= i < |jobs| :: jobs[i].receivedAt <= clock
    }

    /** The clock, which does not go back. */
    method UtcNow() returns (now: int)
      modifies this`clock
      ensures now == clock >= old(clock)
    {
      now := *;
      if now < clock {
        now := clock;
      }
      clock := now;
    }

    method RecordRejection(did: Did)
      requires Valid()
      modifies this`clock, this`refusals
      ensures Valid() && |refusals| == |old(refusals)| + 1
    {
      var now := UtcNow();
      refusals := refusals + [RefusalMark(did, now)];
    }

    /** From `job_requester` to `insert_job`, which nothing in the process comes between: a
        requester's own unanswered row is resumed and charged nothing, another's is refused, and
        anything else is admitted exactly when the requester's jobs and refusals of the last 3600
        seconds are together below the limit. */
    method Admit(id: JobId, did: Did) returns (admission: Admission, ghost checkedAt: int)
      requires Valid()
      modifies this`clock, this`jobs
      ensures Valid()
      ensures admission.Admitted? ==>
                |jobs| == |old(jobs)| + 1 && jobs[..|old(jobs)|] == old(jobs)
                && jobs[|old(jobs)|].id == id && jobs[|old(jobs)|].did == did
                && jobs[|old(jobs)|].checkedAt == checkedAt
      ensures !admission.Admitted? ==> jobs == old(jobs)
      ensures old(clock) <= checkedAt <= clock
      ensures if exists i :: 0 <= i < |old(jobs)| && old(jobs)[i].id == id && old(jobs)[i].did == did then
                admission == Resumed
              else if exists i :: 0 <= i < |old(jobs)| && old(jobs)[i].id == id then
                admission == Taken
              else if |JobsFrom(old(jobs), did, checkedAt - 3_600_000_000)|
                      + |RefusalsFrom(refusals, did, checkedAt - 3_600_000_000)| < limit then
                admission == Admitted
              else
                admission == Limited
    {
      hide AllAdmitted, JobsSince, RefusalsSince;
      checkedAt := clock;
      if exists i :: 0 <= i < |jobs| && jobs[i].id == id && jobs[i].did == did {
        return Resumed, checkedAt;
      }
      if exists i :: 0 <= i < |jobs| && jobs[i].id == id {
        return Taken, checkedAt;
      }
      var now := UtcNow();
      checkedAt := now;
      JobsAreCounted(jobs, did, now - HOUR);
      RefusalsAreCounted(refusals, did, now - HOUR);
      var used := JobsSince(jobs, did, now - HOUR) + RefusalsSince(refusals, did, now - HOUR);
      if used >= limit {
        return Limited, checkedAt;
      }
      var receivedAt := UtcNow();
      OneMoreAdmitted(jobs, JobMark(id, did, now, receivedAt), limit);
      jobs := jobs + [JobMark(id, did, now, receivedAt)];
      return Admitted, checkedAt;
    }
  }
}
