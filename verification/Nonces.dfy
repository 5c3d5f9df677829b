/** The nonces this node signs its own writes with: one counter a key and room, and what keeps it
    from going back over a restart. */
module Nonces {
  import opened Basics

  type Key = (string, string)

  /** Nineteen digits, the server's own ceiling. */
  const CEILING := 9999999999999999999

  function Candidate(floor: nat, nowMs: nat): nat {
    Min(Max(floor + 1, nowMs), CEILING)
  }

  class NonceAllocator {
    var floors: map<Key, nat>
    /** `last_nonce`: the highest recorded for a write that was confirmed. */
    var recorded: map<Key, nat>

    constructor (recorded: map<Key, nat>)
      ensures floors == map[] && this.recorded == recorded
    {
      this.floors, this.recorded := map[], recorded;
    }

    function Recorded(key: Key): nat
      reads this`recorded
    {
      if key in recorded then recorded[key] else 0
    }

    /** The floor the next nonce is taken above: the process's own, or the ledger's. */
    function Floor(key: Key): nat
      reads this
    {
      if key in floors && floors[key] != 0 then floors[key] else Recorded(key)
    }

    method Seed(key: Key, last: nat)
      modifies this`floors
      ensures floors == old(floors)[key := Max(if key in old(floors) then old(floors)[key] else 0, last)]
    {
      floors := floors[key := Max(if key in floors then floors[key] else 0, last)];
    }

    /** The next nonce is the least that is above the floor and not before the clock, held down to
        the largest number of nineteen digits. The floor is the process's own, once it has one. */
    method Next(key: Key, nowMs: nat) returns (nonce: nat)
      modifies this`floors
      ensures var floor := if key in old(floors) && old(floors)[key] > 0 then old(floors)[key]
                           else if key in recorded then recorded[key] else 0;
              && nonce <= 9_999_999_999_999_999_999
              && (floor < 9_999_999_999_999_999_999 && nowMs <= 9_999_999_999_999_999_999 ==>
                    nonce > floor && nonce >= nowMs && nonce in {floor + 1, nowMs})
              && (floor >= 9_999_999_999_999_999_999 || nowMs > 9_999_999_999_999_999_999 ==>
                    nonce == 9_999_999_999_999_999_999)
      ensures nonce == Candidate(old(Floor(key)), nowMs) && floors == old(floors)[key := nonce]
      ensures old(Floor(key)) < CEILING ==> nonce > old(Floor(key))
      ensures Floor(key) == nonce
    {
      nonce := Min(Max(Floor(key) + 1, nowMs), CEILING);
      floors := floors[key := nonce];
    }
  }

  // ------------------------------------------------------------------ one counter over restarts

  /** One key's counter: the process's floor, the ledger's, and the last nonce sent. */
  datatype Counter = Counter(floor: nat, recorded: nat, last: nat) {
    function Base(): nat {
      if floor != 0 then floor else recorded
    }
  }

  /** A nonce is taken at some reading of the clock, and its write is recorded or is not. */
  datatype Event = Issue(nowMs: nat, confirmed: bool) | Restart

  function After(c: Counter, e: Event): Counter {
    match e
    case Issue(nowMs, confirmed) =>
      var n := Candidate(c.Base(), nowMs);
      Counter(n, if confirmed then Max(c.recorded, n) else c.recorded, n)
    case Restart => c.(floor := 0)
  }

  function Issued(c: Counter, events: seq<Event>): seq<nat>
    decreases |events|
  {
    if events == [] then []
    else
      (if events[0].Issue? then [Candidate(c.Base(), events[0].nowMs)] else [])
      + Issued(After(c, events[0]), events[1..])
  }

  ghost predicate Rises(above: nat, s: seq<nat>)
    decreases |s|
  {
    s != [] ==> s[0] > above && Rises(s[0], s[1..])
  }

  /** At each nonce taken, either the counter's base or the clock is already past the last one
      sent, and the ceiling is not reached. */
  ghost predicate Covered(c: Counter, events: seq<Event>)
    decreases |events|
  {
    events != [] ==>
      && (events[0].Issue? ==> c.last < CEILING && (c.Base() >= c.last || events[0].nowMs > c.last))
      && Covered(After(c, events[0]), events[1..])
  }

  /** Nonces rise over every run of writes and restarts exactly when, each time, the record or
      the clock is ahead of the last nonce sent. */
  lemma {:induction false} RisesIffCovered(c: Counter, events: seq<Event>)
    ensures Rises(c.last, Issued(c, events)) <==> Covered(c, events)
    decreases |events|
  {
    if events != [] {
      var (rest, c') := (Issued(After(c, events[0]), events[1..]), After(c, events[0]));
      RisesIffCovered(c', events[1..]);
      if events[0].Issue? {
        assert Issued(c, events) == [c'.last] + rest;
        assert Issued(c, events)[1..] == rest;
      } else {
        assert Issued(c, events) == rest;
      }
    }
  }

  /** A process that does not restart, and one whose every write was recorded before it did,
      never needs the clock. */
  lemma {:induction false} RecordedNeverGoesBack(c: Counter, events: seq<Event>)
    requires c.Base() >= c.last && c.recorded >= c.last
    requires forall i | 0 <= i < |events| && events[i].Issue? :: events[i].confirmed
    ensures Rises(c.last, Issued(c, events))
            || exists i | 0 <= i < |Issued(c, events)| :: Issued(c, events)[i] == CEILING
    decreases |events|
  {
    if events != [] {
      var c' := After(c, events[0]);
      var rest := Issued(c', events[1..]);
      RecordedNeverGoesBack(c', events[1..]);
      if events[0].Issue? {
        var all := [c'.last] + rest;
        assert Issued(c, events) == all && all[1..] == rest;
        if i :| 0 <= i < |rest| && rest[i] == CEILING {
          assert all[i + 1] == CEILING;
        } else if c'.last == CEILING {
          assert all[0] == CEILING;
        }
      } else {
        assert Issued(c, events) == rest;
      }
    }
  }

  /** A write that landed unrecorded, a restart and a clock set back do bring a nonce back. */
  lemma {:induction false} ClockSetBack(nowMs: nat, earlier: nat)
    requires earlier < nowMs <= CEILING
    ensures !Rises(0, Issued(Counter(0, 0, 0), [Issue(nowMs, false), Restart, Issue(earlier, false)]))
  {
    var events := [Issue(nowMs, false), Restart, Issue(earlier, false)];
    var c := Counter(0, 0, 0);
    assert events[1..] == [Restart, Issue(earlier, false)];
    assert events[1..][1..] == [Issue(earlier, false)];
    assert !Covered(After(After(c, events[0]), Restart), [Issue(earlier, false)]);
    RisesIffCovered(c, events);
  }
}
