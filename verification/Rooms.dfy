/** The upstream's rooms: what may become of one between two requests, and what it answers. */
module Rooms {
  import opened Basics

  datatype Message = Message(from: string, text: string)

  /** A stored message under the sequence number the upstream gave it. */
  datatype Record = Record(at: nat, message: Message)

  /** One room. `log` is everything written since numbering last began at 1, the message
      numbered k at index k - 1; the first `base` of them are no longer held. `life` counts how
      often the upstream has lost the numbering: no answer carries it. A room deleted with its
      floor kept is `base == |log|`: the next message is numbered on. */
  datatype Room = Room(life: nat, log: seq<Message>, base: nat) {
    ghost predicate Wf() {
      base <= |log|
    }

    predicate Holds(n: nat) {
      base < n <= |log|
    }
  }

  datatype Op = Post(message: Message) | EvictOldest | Reap(keepFloor: bool) | Forget

  function Apply(r: Room, op: Op): Room {
    match op
    case Post(message) => r.(log := r.log + [message])
    case EvictOldest => if r.base + 1 < |r.log| then r.(base := r.base + 1) else r
    case Reap(keepFloor) => if keepFloor then r.(base := |r.log|) else Room(r.life + 1, [], 0)
    case Forget => Room(r.life + 1, [], 0)
  }

  function ApplyAll(r: Room, ops: seq<Op>): Room
    decreases |ops|
  {
    if ops == [] then r else ApplyAll(Apply(r, ops[0]), ops[1..])
  }

  /** `later` is a state the room `r` may have come to. */
  ghost predicate Evolves(r: Room, later: Room) {
    && later.Wf()
    && (r.life < later.life
        || (r.life == later.life && r.log <= later.log && r.base <= later.base))
  }

  lemma EvolvesComposes(a: Room, b: Room, c: Room)
    requires Evolves(a, b) && Evolves(b, c)
    ensures Evolves(a, c)
  {
  }

  /** A room that is at the end what it was at the start was that all along. */
  lemma QuietThroughout(a: Room, b: Room)
    requires Evolves(a, b) && Evolves(b, a)
    ensures a == b
  {
  }

  lemma {:induction false} EveryRunEvolves(r: Room, ops: seq<Op>)
    requires r.Wf()
    ensures Evolves(r, ApplyAll(r, ops))
    ensures (forall i | 0 <= i < |ops| :: !ops[i].Forget? && ops[i] != Reap(false))
            ==> ApplyAll(r, ops).life == r.life
    decreases |ops|
  {
    if ops != [] {
      assert forall i :: 0 <= i < |ops[1..]| ==> ops[1..][i] == ops[i + 1];
      EveryRunEvolves(Apply(r, ops[0]), ops[1..]);
      EvolvesComposes(r, Apply(r, ops[0]), ApplyAll(r, ops));
    }
  }

  /** Messages numbered lo + 1 .. hi. */
  function Slice(log: seq<Message>, lo: nat, hi: nat): (records: seq<Record>)
    requires lo <= hi <= |log|
    ensures |records| == hi - lo
    ensures forall i | 0 <= i < hi - lo :: records[i] == Record(lo + i + 1, log[lo + i])
  {
    seq(hi - lo, i requires 0 <= i < hi - lo => Record(lo + i + 1, log[lo + i]))
  }

  /** A read's answer. The generation is whatever the upstream says: late, repeated, missing. */
  datatype Page = Page(messages: seq<Record>, lastSeq: Option<nat>, generation: Option<nat>)

  /** What a read reports for a room with nothing newer: the lower of the cursor and the head
      (an emptied room answers its floor, but only to a cursor), or the cursor echoed back. */
  ghost predicate ReportedHead(r: Room, since: Option<nat>, n: nat) {
    var cursor := if since.Some? then since.value else 0;
    n == cursor || n == Min(cursor, |r.log|)
  }

  /** A read answers the newest records after the cursor, at most `limit` of them and fewer
      when they are large, but never none when there are some. */
  ghost predicate AnswersRead(r: Room, since: Option<nat>, limit: nat, page: Page) {
    var oldest := Max(r.base, if since.Some? then since.value else 0);
    var count := |page.messages|;
    && count <= limit && count <= |r.log|
    && page.messages == Slice(r.log, |r.log| - count, |r.log|)
    && (count == 0 ==> oldest >= |r.log|)
    && (count > 0 ==> oldest + count <= |r.log|)
    && (page.lastSeq.Some? ==>
          if count > 0 then page.lastSeq.value == |r.log|
          else ReportedHead(r, since, page.lastSeq.value))
  }

  /** The upstream as the node meets it: any request may fail, and between any two requests
      the room may have been written to, evicted from, deleted or renumbered. */
  class Upstream {
    var room: Room

    constructor ()
      ensures room == Room(0, [], 0)
    {
      room := Room(0, [], 0);
    }

    method Drift()
      requires room.Wf()
      modifies this
      ensures Evolves(old(room), room)
    {
      var steps: nat := *;
      while steps > 0
        invariant Evolves(old(room), room)
        decreases steps
      {
        var op: Op := *;
        room := Apply(room, op);
        steps := steps - 1;
      }
    }

    method ReadRoom(since: Option<nat>, limit: nat) returns (page: Option<Page>)
      requires room.Wf() && limit > 0
      modifies this
      ensures Evolves(old(room), room)
      ensures page.Some? ==> AnswersRead(room, since, limit, page.value)
    {
      Drift();
      var reached := *;
      if !reached {
        return None;
      }
      var cursor := if since.Some? then since.value else 0;
      var oldest := Max(room.base, cursor);
      var count := 0;
      if oldest < |room.log| {
        count := *;
        if !(0 < count <= Min(limit, |room.log| - oldest)) {
          count := Min(limit, |room.log| - oldest);
        }
      }
      var generation: Option<nat> := *;
      var echo := *;
      var head := if count > 0 then |room.log| else if echo then cursor else Min(cursor, |room.log|);
      var reported := *;
      page := Some(Page(Slice(room.log, |room.log| - count, |room.log|),
                        if reported then Some(head) else None, generation));
    }

    method ExportRoom() returns (records: Option<seq<Record>>)
      requires room.Wf()
      modifies this
      ensures Evolves(old(room), room)
      ensures records.Some? ==> records.value == Slice(room.log, room.base, |room.log|)
    {
      Drift();
      var reached := *;
      if !reached {
        return None;
      }
      records := Some(Slice(room.log, room.base, |room.log|));
    }

    /** A write may land and still not be reported; reported, it landed at the seq named. */
    method PostMessage(message: Message) returns (seqNo: Option<nat>, ghost wrote: Room)
      requires room.Wf()
      modifies this
      ensures Evolves(old(room), wrote) && Evolves(wrote, room)
      ensures seqNo.Some? ==>
                0 < seqNo.value == |wrote.log| && wrote.log[seqNo.value - 1] == message
    {
      Drift();
      var lands, reported := *, *;
      if lands {
        room := Apply(room, Post(message));
      }
      var at := |room.log|;
      wrote := room;
      Drift();
      return if lands && reported then Some(at) else None, wrote;
    }
  }
}
