/** The ownership lease: a note the upstream deletes when nothing writes it for a week, kept by a
    loop on two clocks, and the guard that decides whether the result room may be written to. */
module Lease {
  import opened Basics

  const OWNERSHIP_RENEWAL_SECONDS := 21600
  const OWNERSHIP_RETRY_FLOOR_SECONDS := 60
  const OWNERSHIP_OBSERVATION_SECONDS := 300
  const MAX_BACKOFF_DOUBLINGS := 12
  const OWNERSHIP_LEASE_MAX_AGE_SECONDS := 86400
  const OWNERSHIP_MAX_CONSECUTIVE_FAILURES := 12
  const OWNERSHIP_MAX_AGE_SECONDS := 900.0
  const UPSTREAM_NOTE_RETENTION_SECONDS := 604800.0
  const CLOCK_TOLERANCE_SECONDS := 60.0

  // ------------------------------------------------------------------ the upstream's note

  datatype Note = Note(owner: string, writtenAt: real)

  /** What may become of an ownership note: until the retention has passed without a write it
      stays its owner's, who alone can write it again. */
  ghost predicate NoteEvolves(before: Option<Note>, after: Option<Note>, now: real) {
    before.Some? && now - before.value.writtenAt < UPSTREAM_NOTE_RETENTION_SECONDS ==>
      && after.Some? && after.value.owner == before.value.owner
      && before.value.writtenAt <= after.value.writtenAt
  }

  /** A signed write to the note: whether it could only create, and how it was answered. */
  datatype Post = Post(ifAbsent: bool, status: Option<nat>)

  /** What the answer to the last write says: made, refused, or not known. */
  ghost predicate Tells(status: Option<nat>, made: Result<bool, ()>) {
    if status == Some(200) then made == Ok(true)
    else if status == Some(403) || status == Some(409) then made == Ok(false)
    else made.Err?
  }

  /** One further write was asked for, or two when the first met a moved counter, and none that could
      create the note; and this is what the last was answered. */
  ghost predicate Renews(before: seq<Post>, after: seq<Post>, renewed: Result<bool, ()>) {
    && before < after
    && (forall i | |before| <= i < |after| :: !after[i].ifAbsent)
    && |after| == |before| + (if after[|before|].status == Some(409) then 2 else 1)
    && Tells(after[|after| - 1].status, renewed)
  }

  /** Python's int(): towards zero. */
  function Trunc(x: real): int {
    if x >= 0.0 then x.Floor else -(-x).Floor
  }

  // ------------------------------------------------------------------ the backoff

  function Pow2(k: nat): nat {
    if k == 0 then 1 else 2 * Pow2(k - 1)
  }

  /** How long after the k-th failure in a row the loop tries again. */
  function Delay(k: nat): (d: nat)
    requires k > 0
    ensures OWNERSHIP_RETRY_FLOOR_SECONDS <= d <= OWNERSHIP_RENEWAL_SECONDS
  {
    var failures := Min(k, MAX_BACKOFF_DOUBLINGS);
    Pow2Positive(failures - 1);
    Min(OWNERSHIP_RETRY_FLOOR_SECONDS * Pow2(failures - 1), OWNERSHIP_RENEWAL_SECONDS)
  }

  lemma {:induction false} Pow2Positive(k: nat)
    ensures Pow2(k) >= 1
  {
    if k > 0 {
      Pow2Positive(k - 1);
    }
  }

  lemma {:induction false} Pow2Grows(j: nat, k: nat)
    requires j <= k
    ensures Pow2(j) <= Pow2(k)
    decreases k - j
  {
    if j < k {
      Pow2Grows(j, k - 1);
      Pow2Positive(k - 1);
    }
  }

  lemma DelaysNeverShrink(j: nat, k: nat)
    requires 0 < j <= k
    ensures Delay(j) <= Delay(k)
  {
    Pow2Grows(Min(j, MAX_BACKOFF_DOUBLINGS) - 1, Min(k, MAX_BACKOFF_DOUBLINGS) - 1);
  }

  /** When attempt k + 1 after a success falls due, counting only the waits. */
  function DueAfter(k: nat): nat {
    if k == 0 then OWNERSHIP_RENEWAL_SECONDS else DueAfter(k - 1) + Delay(k)
  }

  /** Eleven waits after a renewal: 21600 + 60 * (2^9 - 1) + 2 * 21600. */
  lemma TwelfthAttempt()
    ensures DueAfter(OWNERSHIP_MAX_CONSECUTIVE_FAILURES - 1) == 95460
  {
    assert Pow2(4) == 16;
    assert Pow2(8) == 16 * Pow2(4);
    assert Delay(1) == 60 && Delay(2) == 120 && Delay(3) == 240 && Delay(4) == 480;
    assert Delay(5) == 960 && Delay(6) == 1920 && Delay(7) == 3840 && Delay(8) == 7680;
    assert Delay(9) == 15360;
    assert Pow2(9) == 512 && Pow2(10) == 1024;
    assert Delay(10) == 21600 && Delay(11) == 21600;
    assert DueAfter(4) == 21600 + 900;
    assert DueAfter(8) == DueAfter(4) + 14400;
  }

  // ------------------------------------------------------------------ the upstream and the clocks

  /** The upstream's ownership note for the result room, and time. `now` is true time, which the
      monotonic clock follows; the wall clock is within `clockError` of it, or, when that is not
      known, anything at all. */
  class Owners {
    const did: string
    const latency: real
    const oversleep: real
    const clockError: Option<real>
    var now: real
    var note: Option<Note>
    /** The signed writes asked for so far. */
    ghost var posts: seq<Post>

    constructor (did: string, latency: real, oversleep: real, clockError: Option<real>)
      requires latency >= 0.0 && oversleep >= 0.0
      requires clockError.Some? ==> clockError.value >= 0.0
      ensures this.did == did && this.latency == latency && this.oversleep == oversleep
      ensures this.clockError == clockError && Sane()
    {
      this.did, this.latency, this.oversleep, this.clockError := did, latency, oversleep, clockError;
      now, note, posts := 0.0, None, [];
    }

    predicate Sane()
      reads this
    {
      && latency >= 0.0 && oversleep >= 0.0 && (clockError.Some? ==> clockError.value >= 0.0)
      && (note.Some? ==> note.value.writtenAt <= now)
    }

    /** This node has held the note without a break since it wrote it at `since`, unless the
        retention has run out meanwhile. */
    ghost predicate OursSince(since: real)
      reads this
    {
      now - since < UPSTREAM_NOTE_RETENTION_SECONDS ==>
        note.Some? && note.value.owner == did && since <= note.value.writtenAt
    }

    /** Some time goes by, and the rest of the world does as it likes with the note. */
    method Pass(least: real, most: real)
      requires Sane() && 0.0 <= least <= most
      modifies this
      ensures Sane()
      ensures old(now) + least <= now <= old(now) + most
      ensures NoteEvolves(old(note), note, now) && posts == old(posts)
    {
      var dt: real := *;
      if !(least <= dt <= most) {
        dt := least;
      }
      now := now + dt;
      if note.None? || now - note.value.writtenAt >= UPSTREAM_NOTE_RETENTION_SECONDS {
        note := *;
        if note.Some? && note.value.writtenAt > now {
          note := None;
        }
      } else if * {
        note := Some(note.value.(writtenAt := now));
      }
    }

    method WallClock() returns (wall: real)
      requires Sane()
      ensures clockError.Some? ==> now - clockError.value <= wall <= now + clockError.value
    {
      wall := *;
      if clockError.Some? && !(now - clockError.value <= wall <= now + clockError.value) {
        wall := now;
      }
    }

    /** A note read: the owner, if there is one, at some instant of the request. */
    method RoomOwner() returns (owner: Result<Option<string>, ()>)
      requires Sane()
      modifies this
      ensures Sane()
      ensures old(now) <= now <= old(now) + latency
      ensures NoteEvolves(old(note), note, now) && posts == old(posts)
    {
      Pass(0.0, latency / 2.0);
      var reached := *;
      owner := if reached then Ok(if note.Some? then Some(note.value.owner) else None) else Err(());
      Pass(0.0, latency / 2.0);
    }

    /** The signed write of this node's own DID to the note. It may land and still be reported
        as an error; reported as accepted, it landed. None is a transport fault. */
    method PostOwner(ifAbsent: bool) returns (status: Option<nat>, ghost landed: real)
      requires Sane()
      modifies this
      ensures Sane()
      ensures old(now) <= now <= old(now) + latency
      ensures NoteEvolves(old(note), note, now) && posts == old(posts) + [Post(ifAbsent, status)]
      ensures status == Some(200) ==> old(now) <= landed <= now && OursSince(landed)
    {
      Pass(0.0, latency / 2.0);
      landed := now;
      var accepted := *;
      accepted := accepted && (note.None? || (!ifAbsent && note.value.owner == did));
      if accepted {
        note := Some(Note(did, now));
      }
      Pass(0.0, latency / 2.0);
      status := *;
      if status == Some(200) && !accepted {
        status := Some(409);
      }
      posts := posts + [Post(ifAbsent, status)];
    }

    /** `claim_room`: it can only create. */
    method ClaimRoom() returns (claimed: Result<bool, ()>, ghost landed: real)
      requires Sane()
      modifies this
      ensures Sane()
      ensures old(now) <= now <= old(now) + 2.0 * latency
      ensures NoteEvolves(old(note), note, now)
      ensures |posts| == |old(posts)| + 1 && old(posts) < posts
      ensures posts[|old(posts)|].ifAbsent && Tells(posts[|old(posts)|].status, claimed)
      ensures claimed == Ok(true) ==> now - latency <= landed <= now && OursSince(landed)
    {
      Pass(0.0, latency);
      var status;
      status, landed := PostOwner(true);
      if status.None? {
        return Err(()), landed;
      }
      if status.value in {403, 409} {
        return Ok(false), landed;
      }
      return if status.value == 200 then Ok(true) else Err(()), landed;
    }

    /** `refresh_room_ownership`: it can only renew, and tries a contended nonce once more. */
    method RefreshRoomOwnership()
      returns (renewed: Result<bool, ()>, ghost landed: real, ghost current: Result<Option<string>, ()>)
      requires Sane()
      modifies this
      ensures Sane()
      ensures old(now) <= now <= old(now) + 5.0 * latency
      ensures NoteEvolves(old(note), note, now)
      ensures if current.Err? then renewed.Err? && posts == old(posts)
              else if current.value != Some(did) then renewed == Ok(false) && posts == old(posts)
              else Renews(old(posts), posts, renewed)
      ensures renewed == Ok(true) ==> now - latency <= landed <= now && OursSince(landed)
    {
      landed := now;
      var owner := RoomOwner();
      current := owner;
      if owner.Err? {
        return Err(()), landed, current;
      }
      if owner.value != Some(did) {
        return Ok(false), landed, current;
      }
      var attempt := 1;
      while attempt <= 2
        invariant Sane() && attempt in {1, 2, 3}
        invariant old(now) <= now
        invariant now <= old(now) + if attempt == 1 then latency else if attempt == 2 then 3.0 * latency
                                                                      else 5.0 * latency
        invariant NoteEvolves(old(note), note, now)
        invariant old(posts) <= posts && |posts| == |old(posts)| + attempt - 1
        invariant forall i | |old(posts)| <= i < |posts| :: posts[i] == Post(false, Some(409))
      {
        Pass(0.0, latency);
        var status;
        status, landed := PostOwner(false);
        if status == Some(403) {
          return Ok(false), landed, current;
        }
        if status != Some(409) {
          return if status == Some(200) then Ok(true) else Err(()), landed, current;
        }
        attempt := attempt + 1;
      }
      return Ok(false), landed, current;
    }
  }

  function Maximum(a: real, b: real): real {
    if a >= b then a else b
  }

  // ------------------------------------------------------------------ the node

  datatype LeaseOutcome = Renewed | Claimed | Unclaimable | OwnedByOther | Failed

  class LeaseNode {
    const world: Owners
    const resultRoom: string
    /** `owned_room_owner`, when it was written, `owned_room_observed`, `owned_room_error`. */
    var owner: Option<string>
    var ownerAt: Option<real>
    var observed: bool
    var readFailed: bool
    /** `owned_room_renewed` and `owned_room_renewal_failures`. */
    var renewedAt: Option<real>
    var streak: nat
    /** The loop's own: both deadlines and the count the backoff doubles on. */
    var monoDue: real
    var wallDue: real
    var failures: nat
    /** When the write that `renewedAt` records landed upstream. */
    ghost var renewedWrite: real

    constructor (world: Owners, resultRoom: string)
      requires world.Sane()
      ensures this.world == world && this.resultRoom == resultRoom && LeaseHonest()
      ensures renewedAt.None? && streak == 0 && failures == 0
      ensures owner.None? && ownerAt.None? && !observed && !readFailed
      ensures monoDue == wallDue == world.now
    {
      this.world, this.resultRoom := world, resultRoom;
      owner, ownerAt, observed, readFailed := None, None, false, false;
      renewedAt, streak, failures, renewedWrite := None, 0, 0, 0.0;
      monoDue, wallDue := world.now, world.now;
    }

    /** What the record of a renewal is worth: a write of ours landed at most one request and
        one clock error before the time it names, and the note has been ours since. */
    ghost predicate LeaseHonest()
      reads this, world
    {
      && world.Sane()
      && (renewedAt.Some? ==>
            && renewedWrite <= world.now && world.OursSince(renewedWrite)
            && (world.clockError.Some? ==>
                  renewedAt.value <= renewedWrite + world.latency + world.clockError.value))
    }

    /** `_age_of`. */
    function AgeOf(timestamp: Option<real>, wall: real): Option<int> {
      if timestamp.None? then None
      else
        var age := wall - timestamp.value;
        if age >= -CLOCK_TOLERANCE_SECONDS then Some(Trunc(age)) else None
    }

    /** `_lease_is_live`. */
    predicate LeaseIsLive(wall: real)
      reads this
    {
      && streak < OWNERSHIP_MAX_CONSECUTIVE_FAILURES
      && var age := AgeOf(renewedAt, wall);
         age.Some? && age.value <= OWNERSHIP_LEASE_MAX_AGE_SECONDS
    }

    /** `_ownership_is_fresh` of `_ownership_observation`. */
    predicate OwnershipIsFresh(wall: real)
      reads this
    {
      ownerAt.Some? && -CLOCK_TOLERANCE_SECONDS <= wall - ownerAt.value <= OWNERSHIP_MAX_AGE_SECONDS
    }

    /** `owns_result_room`: exactly when the last look, no longer than 900 seconds ago and not failed
        since, found this node's key, the lease was renewed less than 86401 seconds ago, and fewer
        than twelve attempts in a row have failed since. `looked` and `aged` are what the wall clock
        said. */
    method OwnsResultRoom() returns (owns: bool, ghost looked: real, ghost aged: real)
      requires world.Sane()
      ensures world.clockError.Some? ==>
                && world.now - world.clockError.value <= looked <= world.now + world.clockError.value
                && world.now - world.clockError.value <= aged <= world.now + world.clockError.value
      ensures owns ==> observed && !readFailed && owner == Some(world.did) && renewedAt.Some?
      ensures streak >= 12 ==> !owns
      ensures owns <==>
                && observed && !readFailed && owner == Some(world.did)
                && ownerAt.Some? && -60.0 <= looked - ownerAt.value <= 900.0
                && renewedAt.Some? && -60.0 <= aged - renewedAt.value < 86401.0
                && streak < 12
    {
      var wall := world.WallClock();
      looked, aged := wall, wall;
      if !(observed && !readFailed && owner == Some(world.did) && OwnershipIsFresh(wall)) {
        return false, looked, aged;
      }
      wall := world.WallClock();
      aged := wall;
      owns := LeaseIsLive(wall);
    }

    /** `record_lease_outcome`: only the result room's lease is counted. */
    method RecordLeaseOutcome(room: string, renewed: bool, ghost landed: real)
      requires LeaseHonest()
      requires room == resultRoom && renewed ==>
                 world.now - world.latency <= landed <= world.now && world.OursSince(landed)
      modifies this`renewedAt, this`streak, this`renewedWrite
      ensures LeaseHonest()
      ensures room != resultRoom ==>
                renewedAt == old(renewedAt) && streak == old(streak)
      ensures room == resultRoom && renewed ==>
                renewedAt.Some? && renewedWrite == landed && streak == 0
      ensures room == resultRoom && !renewed ==>
                renewedAt == old(renewedAt) && streak == old(streak) + 1
    {
      if room != resultRoom {
        return;
      }
      if renewed {
        var wall := world.WallClock();
        renewedAt, streak, renewedWrite := Some(wall), 0, landed;
      } else {
        streak := streak + 1;
      }
    }

    /** `publish_reporting` for the result room. Whatever the sink lets through lands while the
        upstream's note names this node. `sending` bounds how long a write may take to land. */
    method Publish(sending: real) returns (sent: bool)
      requires LeaseHonest() && sending >= 0.0
      requires world.clockError.Some?
               && 2.0 * world.clockError.value + world.latency + sending < 604800.0 - 86401.0
      modifies world
      ensures LeaseHonest()
      ensures sent ==>
                world.note.Some? && world.note.value.owner == world.did
      ensures !sent ==> world.note == old(world.note) && world.now == old(world.now)
    {
      ghost var looked, aged;
      sent, looked, aged := OwnsResultRoom();
      if sent {
        world.Pass(0.0, sending);
      }
    }

    /** `maintain_result_room_ownership`. `found` is the owner it read. A note that is this node's is
        renewed, by writes that cannot create one; one that is nobody's is claimed, by a write that
        can only create; one that is another's, or could not be read, is not written to. A request
        that fails anywhere is counted. */
    method MaintainResultRoomOwnership()
      returns (outcome: LeaseOutcome, ghost found: Result<Option<string>, ()>, ghost made: Result<bool, ()>)
      requires LeaseHonest()
      modifies world, this`renewedAt, this`streak, this`renewedWrite
      ensures LeaseHonest()
      ensures old(world.now) <= world.now <= old(world.now) + 6.0 * world.latency
      ensures outcome in {Renewed, Claimed} ==>
                streak == 0 && renewedAt.Some? && renewedWrite >= world.now - world.latency
      ensures outcome.Failed? ==> streak == old(streak) + 1 && renewedAt == old(renewedAt)
      ensures outcome in {OwnedByOther, Unclaimable} ==>
                streak == old(streak) && renewedAt == old(renewedAt)
      ensures match found
              case Err(_) => outcome == Failed && world.posts == old(world.posts)
              case Ok(Some(other)) =>
                if other == world.did then
                  outcome == (if made == Ok(true) then Renewed else Failed)
                  && (world.posts == old(world.posts) || Renews(old(world.posts), world.posts, made))
                else
                  outcome == OwnedByOther && world.posts == old(world.posts)
              case Ok(None) =>
                outcome == (if made == Ok(true) then Claimed else if made == Ok(false) then Unclaimable else Failed)
                && |world.posts| == |old(world.posts)| + 1 && old(world.posts) < world.posts
                && world.posts[|old(world.posts)|].ifAbsent
                && Tells(world.posts[|old(world.posts)|].status, made)
      ensures outcome == Renewed ==> world.posts != old(world.posts)
    {
      ghost var landed, current;
      var answer := world.RoomOwner();
      found, made := answer, Err(());
      if answer.Err? {
        RecordLeaseOutcome(resultRoom, false, 0.0);
        return Failed, found, made;
      }
      if answer.value == Some(world.did) {
        var renewed;
        renewed, landed, current := world.RefreshRoomOwnership();
        made := renewed;
        RecordLeaseOutcome(resultRoom, renewed == Ok(true), landed);
        return if renewed == Ok(true) then Renewed else Failed, found, made;
      }
      if answer.value.Some? {
        return OwnedByOther, found, made;
      }
      var claimed;
      claimed, landed := world.ClaimRoom();
      made := claimed;
      if claimed == Ok(false) {
        return Unclaimable, found, made;
      }
      RecordLeaseOutcome(resultRoom, claimed == Ok(true), landed);
      return if claimed == Ok(true) then Claimed else Failed, found, made;
    }

    /** `observe_reachability`: what was found, and when, or that the look failed and nothing else. */
    method ObserveReachability() returns (ghost found: Result<Option<string>, ()>)
      requires LeaseHonest()
      modifies world, this`owner, this`ownerAt, this`observed, this`readFailed
      ensures LeaseHonest()
      ensures old(world.now) <= world.now <= old(world.now) + world.latency
      ensures world.posts == old(world.posts)
      ensures match found
              case Err(_) =>
                readFailed && owner == old(owner) && ownerAt == old(ownerAt) && observed == old(observed)
              case Ok(seen) =>
                && owner == seen && observed && !readFailed && ownerAt.Some?
                && (world.clockError.Some? ==>
                      -world.clockError.value <= ownerAt.value - world.now <= world.clockError.value)
    {
      var answer := world.RoomOwner();
      found := answer;
      if answer.Err? {
        readFailed := true;
        return;
      }
      var wall := world.WallClock();
      owner, ownerAt, observed, readFailed := answer.value, Some(wall), true, false;
    }

    /** How late, at worst, an attempt starts after it fell due, and how long it takes. */
    ghost function Slack(): real {
      7.0 * world.latency + 1.0 + world.oversleep
    }

    /** One attempt of `run_ownership_lease`, and when the next falls due on each clock. */
    method Attempt() returns (outcome: LeaseOutcome)
      requires LeaseHonest()
      modifies world, this`renewedAt, this`streak, this`renewedWrite
      modifies this`failures, this`monoDue, this`wallDue
      ensures LeaseHonest()
      ensures old(world.now) <= world.now <= old(world.now) + 6.0 * world.latency
      ensures outcome.Failed? ==>
                && failures == Min(old(failures) + 1, 12)
                && monoDue == world.now + Min(60 * Pow2(failures - 1), 21600) as real
                && streak == old(streak) + 1 && renewedAt == old(renewedAt)
      ensures !outcome.Failed? ==>
                failures == 0 && monoDue == world.now + 21600.0
      ensures world.clockError.Some? ==>
                -world.clockError.value <= wallDue - monoDue <= world.clockError.value
    {
      hide NoteEvolves, Owners.OursSince, Pow2;
      ghost var found, made;
      outcome, found, made := MaintainResultRoomOwnership();
      failures := if outcome.Failed? then Min(failures + 1, MAX_BACKOFF_DOUBLINGS) else 0;
      var delay := if outcome.Failed? then Delay(failures) else OWNERSHIP_RENEWAL_SECONDS;
      monoDue := world.now + delay as real;
      var wall := world.WallClock();
      wallDue := wall + delay as real;
    }

    /** One turn of `run_ownership_lease`. */
    method Cycle() returns (attempted: Option<LeaseOutcome>, ghost ended: real)
      requires LeaseHonest()
      requires world.now <= monoDue + world.latency + 1.0 + world.oversleep
      modifies world, this
      ensures LeaseHonest()
      ensures world.now <= monoDue + world.latency + 1.0 + world.oversleep
      ensures world.now >= old(world.now) + 1.0
      ensures world.now <= (if attempted.Some? then ended else old(world.now))
                           + world.latency + 300.0 + world.oversleep
      ensures world.clockError.Some? ==>
                world.now <= Maximum(wallDue + world.clockError.value,
                                     (if attempted.Some? then ended else old(world.now)) + world.latency + 1.0)
                             + world.oversleep
      ensures attempted.Some? && world.clockError.Some? ==>
                old(world.now) >= old(monoDue) || old(world.now) + world.clockError.value >= old(wallDue)
      ensures attempted.None? ==>
                old(world.now) < old(monoDue)
                && monoDue == old(monoDue) && failures == old(failures)
                && streak == old(streak) && renewedAt == old(renewedAt)
      ensures attempted.None? ==>
                wallDue == old(wallDue)
                && (world.clockError.Some? ==> old(world.now) - world.clockError.value < old(wallDue))
      ensures attempted.Some? && world.clockError.Some? ==>
                -world.clockError.value <= wallDue - monoDue <= world.clockError.value
      ensures attempted.Some? ==> ended <= old(monoDue) + Slack()
      ensures attempted == Some(Failed) ==>
                && failures == Min(old(failures) + 1, 12)
                && monoDue == ended + Min(60 * Pow2(failures - 1), 21600) as real
                && streak == old(streak) + 1 && renewedAt == old(renewedAt)
      ensures attempted.Some? && !attempted.value.Failed? ==>
                failures == 0 && monoDue == ended + 21600.0
    {
      hide Pow2, NoteEvolves, Owners.OursSince;
      attempted, ended := None, world.now;
      var wall := world.WallClock();
      if world.now >= monoDue || wall >= wallDue {
        var outcome := Attempt();
        ended := world.now;
        attempted := Some(outcome);
      }
      ghost var found := ObserveReachability();
      wall := world.WallClock();
      var remaining := Minimum(monoDue - world.now, wallDue - wall);
      var sleep := Minimum(OWNERSHIP_OBSERVATION_SECONDS as real, Maximum(remaining, 1.0));
      SleepAtLeast(sleep);
    }

    method SleepAtLeast(seconds: real)
      requires LeaseHonest() && seconds >= 0.0
      modifies world
      ensures LeaseHonest()
      ensures old(world.now) + seconds <= world.now <= old(world.now) + seconds + world.oversleep
    {
      world.Pass(seconds, seconds + world.oversleep);
    }

    /** An outage after a renewal: as long as every attempt since is counted as failed, the
        twelfth failure comes within 95460 seconds and the slack of twelve turns, whatever the
        wall clock says, and from then on the sink is shut. */
    method Outage() returns (ghost onlyFailures: bool, ghost closed: real)
      requires LeaseHonest() && streak == 0 && failures == 0
      requires world.now <= monoDue <= world.now + OWNERSHIP_RENEWAL_SECONDS as real
      modifies world, this
      ensures LeaseHonest()
      ensures onlyFailures ==>
                && streak == 12
                && closed <= old(world.now) + 95460.0 + 12.0 * Slack()
                && forall wall :: !LeaseIsLive(wall)
    {
      ghost var start := world.now;
      onlyFailures, closed := true, world.now;
      var going := true;
      while going && streak < OWNERSHIP_MAX_CONSECUTIVE_FAILURES
        invariant LeaseHonest() && world.now <= monoDue + world.latency + 1.0 + world.oversleep
        invariant going == onlyFailures
        invariant onlyFailures ==> streak == failures <= OWNERSHIP_MAX_CONSECUTIVE_FAILURES
        invariant onlyFailures ==> monoDue <= start + DueAfter(streak) as real + Times(streak, Slack())
        invariant onlyFailures && streak > 0 ==>
                    closed <= start + DueAfter(streak - 1) as real + Times(streak, Slack())
        decreases going, OWNERSHIP_MAX_CONSECUTIVE_FAILURES - streak, monoDue - world.now
      {
        ghost var last := closed;
        var attempted;
        attempted, closed := Cycle();
        if attempted.None? {
          closed := last;
        } else if !attempted.value.Failed? {
          going, onlyFailures := false, false;
        }
      }
      TwelfthAttempt();
      TwelveTimes(Slack());
    }
  }

  ghost function Times(k: nat, slack: real): real {
    if k == 0 then 0.0 else Times(k - 1, slack) + slack
  }

  lemma TwelveTimes(slack: real)
    ensures Times(12, slack) == 12.0 * slack
  {
    assert Times(1, slack) == slack;
    assert Times(4, slack) == Times(2, slack) + 2.0 * slack;
    assert Times(6, slack) == Times(4, slack) + 2.0 * slack;
    assert Times(8, slack) == Times(6, slack) + 2.0 * slack;
    assert Times(10, slack) == Times(8, slack) + 2.0 * slack;
  }

  function Minimum(a: real, b: real): real {
    if a <= b then a else b
  }

  /** A lease that looks live was written less than a day and a second ago, give or take. */
  lemma {:induction false} TruncNear(world: Owners, node: LeaseNode)
    requires node.world == world && node.LeaseHonest() && world.clockError.Some?
    ensures forall wall | node.LeaseIsLive(wall) && world.now <= wall + world.clockError.value ::
              world.now - node.renewedWrite
              < OWNERSHIP_LEASE_MAX_AGE_SECONDS as real + 1.0
                + 2.0 * world.clockError.value + world.latency
  {
  }
}
