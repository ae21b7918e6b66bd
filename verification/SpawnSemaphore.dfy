/** The semaphore that limits concurrent session spawns and the way session creation uses it
    (src/main/terminal-host/terminal-host.ts). */
module SpawnSemaphore {
  import opened Wrappers
  import opened Bytes

  type Id = nat

  // A request has asked for a permit and waits; holds one and has not spawned yet; holds one and waits
  // for its PTY; or no longer needs one.
  datatype Phase = Waiting | Acquired | Spawning | Settled

  datatype Host = Host(
    inUse: int,
    queue: seq<Id>,
    aborted: set<Id>,
    phase: map<Id, Phase>,
    spawnReleased: set<Id>,   // requests that have given their permit back
    arrivals: seq<Id>,        // requests that were granted a permit or queued for one, in order
    granted: seq<Id>,         // permits in the order in which they were granted
    cancelled: set<Id>        // requests taken out of the queue
  )

  const IDLE := Host(0, [], {}, map[], {}, [], [], {})

  function Remove(ids: seq<Id>, id: Id): seq<Id> {
    if ids == [] then [] else if ids[0] == id then ids[1..] else [ids[0]] + Remove(ids[1..], id)
  }

  function Grant(s: Host, id: Id): Host {
    s.(inUse := s.inUse + 1, phase := s.phase[id := Acquired], granted := s.granted + [id])
  }

  function Acquire(s: Host, max: nat, id: Id): Host {
    if id in s.aborted then s.(phase := s.phase[id := Settled])
    else
      var arrived := s.(arrivals := s.arrivals + [id]);
      if s.inUse < max then Grant(arrived, id)
      else arrived.(queue := s.queue + [id], phase := s.phase[id := Waiting])
  }

  // The abort of a request's signal together with the handler a waiter has on it.
  function Abort(s: Host, id: Id): Host {
    var aborted := s.(aborted := s.aborted + {id});
    if id in s.queue then
      aborted.(queue := Remove(s.queue, id), phase := s.phase[id := Settled], cancelled := s.cancelled + {id})
    else aborted
  }

  function Release(s: Host): Host
    decreases |s.queue|
  {
    var inUse := if s.inUse - 1 > 0 then s.inUse - 1 else 0;
    if s.queue == [] then s.(inUse := inUse)
    else
      var next := s.queue[0];
      var shifted := s.(inUse := inUse, queue := s.queue[1..]);
      if next in s.aborted then
        Release(shifted.(phase := s.phase[next := Settled], cancelled := s.cancelled + {next}))
      else Grant(shifted, next)
  }

  function ReleaseOnce(s: Host, id: Id): Host {
    if id in s.spawnReleased then s
    else Release(s.(spawnReleased := s.spawnReleased + {id}, phase := s.phase[id := Settled]))
  }

  datatype Event =
    | Request(id: Id)                           // a session has to be created and asks for a permit
    | SignalAborts(id: Id)
    | Resumes(id: Id, throws: bool)             // the request got its permit; creating the session may throw
    | ReadyOrTimeout(id: Id, throws: bool)      // the PTY is ready or was waited for long enough; the handler may throw

  function Step(s: Host, max: nat, event: Event): Host {
    match event
    case Request(id) => if id in s.phase then s else Acquire(s, max, id)
    case SignalAborts(id) => Abort(s, id)
    case Resumes(id, throws) =>
      if id in s.phase && s.phase[id] == Acquired then
        if id in s.aborted || throws then ReleaseOnce(s, id) else s.(phase := s.phase[id := Spawning])
      else s
    case ReadyOrTimeout(id, throws) =>
      if id in s.phase && s.phase[id] == Spawning then
        var released := ReleaseOnce(s, id);
        if throws then ReleaseOnce(released, id) else released
      else s
  }

  function Run(s: Host, max: nat, events: seq<Event>): Host
    decreases |events|
  {
    if events == [] then s else Run(Step(s, max, events[0]), max, events[1..])
  }

  // ----- the invariant -----

  // The requests that hold a permit.
  function Holders(phase: map<Id, Phase>): set<Id> {
    set id | id in phase && (phase[id] == Acquired || phase[id] == Spawning)
  }

  function Without(ids: seq<Id>, out: set<Id>): seq<Id> {
    if ids == [] then []
    else (if ids[0] in out then [] else [ids[0]]) + Without(ids[1..], out)
  }

  predicate NoDuplicates(ids: seq<Id>) {
    forall i, j :: 0 <= i < j < |ids| ==> ids[i] != ids[j]
  }

  ghost predicate PermitInv(s: Host, max: nat) {
    && s.inUse == |Holders(s.phase)| <= max
    && (s.queue != [] ==> s.inUse == max)
    && (forall id :: id in s.spawnReleased <==> id in s.granted && id in s.phase && s.phase[id] == Settled)
    && (forall id :: id in Holders(s.phase) ==> id in s.granted)
  }

  ghost predicate PhaseInv(s: Host) {
    && (forall id :: id in s.queue ==> id in s.phase && s.phase[id] == Waiting && id !in s.aborted)
    && (forall id :: id in s.arrivals || id in s.cancelled ==> id in s.phase)
    && (forall id :: id in s.granted ==> id in s.phase && s.phase[id] != Waiting)
  }

  ghost predicate OrderInv(s: Host) {
    && NoDuplicates(s.granted + s.queue)
    && s.granted + s.queue == Without(s.arrivals, s.cancelled)
  }

  ghost predicate Inv(s: Host, max: nat) {
    PermitInv(s, max) && PhaseInv(s) && OrderInv(s)
  }

  lemma {:induction false} WithoutSnoc(ids: seq<Id>, id: Id, out: set<Id>)
    ensures Without(ids + [id], out) == Without(ids, out) + (if id in out then [] else [id])
  {
    if ids == [] {
      assert [] + [id] == [id] && [id][1..] == [];
    } else {
      assert (ids + [id])[1..] == ids[1..] + [id];
      WithoutSnoc(ids[1..], id, out);
      ConcatAssociates(if ids[0] in out then [] else [ids[0]], Without(ids[1..], out), if id in out then [] else [id]);
    }
  }

  // Removing the first occurrence, at k, or nothing.
  lemma {:induction false} RemoveAt(ids: seq<Id>, id: Id, k: nat)
    requires k <= |ids| && id !in ids[..k] && (k < |ids| ==> ids[k] == id)
    ensures Remove(ids, id) == if k == |ids| then ids else ids[..k] + ids[k + 1..]
    ensures id in ids <==> k < |ids|
  {
    if k == 0 {
    } else {
      assert ids[0] == ids[..k][0];
      assert ids[1..][..k - 1] == ids[..k][1..];
      RemoveAt(ids[1..], id, k - 1);
      assert ids == [ids[0]] + ids[1..];
    }
  }

  lemma {:induction false} RemoveMembers(ids: seq<Id>, id: Id)
    requires NoDuplicates(ids)
    ensures forall x :: x in Remove(ids, id) <==> x in ids && x != id
    ensures NoDuplicates(Remove(ids, id))
  {
    if ids == [] {
    } else {
      RemoveMembers(ids[1..], id);
      if ids[0] != id {
        var r := Remove(ids[1..], id);
        assert ids[0] !in r by {
          assert forall k :: 0 <= k < |ids[1..]| ==> ids[1..][k] == ids[k + 1];
        }
      }
    }
  }

  lemma {:induction false} RemoveFromSecond(a: seq<Id>, b: seq<Id>, id: Id)
    requires id !in a
    ensures Remove(a + b, id) == a + Remove(b, id)
  {
    if a == [] {
      assert a + b == b;
    } else {
      assert (a + b)[1..] == a[1..] + b;
      RemoveFromSecond(a[1..], b, id);
    }
  }

  lemma {:induction false} RemoveAbsent(ids: seq<Id>, id: Id)
    requires id !in ids
    ensures Remove(ids, id) == ids
  {
    if ids == [] {
    } else {
      RemoveAbsent(ids[1..], id);
    }
  }

  lemma NoDuplicatesCons(id: Id, ids: seq<Id>)
    ensures NoDuplicates([id] + ids) <==> id !in ids && NoDuplicates(ids)
  {
    var all := [id] + ids;
    assert forall k :: 0 < k < |all| ==> all[k] == ids[k - 1];
    assert all[1..] == ids && all[0] == id;
    assert NoDuplicates(all) ==> forall k :: 0 < k < |all| ==> all[0] != all[k];
    assert forall k :: 0 <= k < |ids| ==> ids[k] == all[1..][k];
  }

  lemma {:induction false} WithoutMore(ids: seq<Id>, out: set<Id>, id: Id)
    requires NoDuplicates(Without(ids, out))
    ensures Without(ids, out + {id}) == Remove(Without(ids, out), id)
  {
    if ids == [] {
    } else {
      var rest := Without(ids[1..], out);
      if ids[0] in out {
        assert [] + rest == rest;
        WithoutMore(ids[1..], out, id);
      } else {
        NoDuplicatesCons(ids[0], rest);
        WithoutMore(ids[1..], out, id);
        assert ([ids[0]] + rest)[1..] == rest;
        if ids[0] == id {
          RemoveAbsent(rest, id);
        }
      }
    }
  }

  lemma HoldersChange(phase: map<Id, Phase>, id: Id, p: Phase)
    ensures Holders(phase[id := p]) ==
            if p == Acquired || p == Spawning then Holders(phase) + {id} else Holders(phase) - {id}
  {
  }

  // ----- steps -----

  lemma Arrives(s: Host, t: Host, id: Id)
    requires OrderInv(s) && PhaseInv(s) && id !in s.phase
    requires t.arrivals == s.arrivals + [id] && t.cancelled == s.cancelled
    requires t.granted + t.queue == (s.granted + s.queue) + [id]
    ensures OrderInv(t)
  {
    WithoutSnoc(s.arrivals, id, s.cancelled);
    assert id !in s.granted + s.queue;
  }

  lemma GrantedAtOnceKeeps(s: Host, max: nat, id: Id)
    requires Inv(s, max) && id !in s.phase && s.inUse < max
    ensures Inv(Grant(s.(arrivals := s.arrivals + [id]), id), max)
  {
    var t := Grant(s.(arrivals := s.arrivals + [id]), id);
    assert OrderInv(t) by {
      assert t.granted + t.queue == (s.granted + s.queue) + [id];
      hide PermitInv, OrderInv;
      Arrives(s, t, id);
    }
    hide OrderInv;
    HoldersChange(s.phase, id, Acquired);
    assert id !in Holders(s.phase);
  }

  lemma PermitsUnchanged(s: Host, t: Host, max: nat, id: Id, p: Phase)
    requires PermitInv(s, max) && PhaseInv(s) && id !in s.phase && (p == Waiting || p == Settled)
    requires t.inUse == s.inUse && (t.queue != [] ==> t.inUse == max)
    requires t.granted == s.granted && t.spawnReleased == s.spawnReleased && t.phase == s.phase[id := p]
    ensures PermitInv(t, max)
  {
    HoldersChange(s.phase, id, p);
    assert Holders(s.phase) - {id} == Holders(s.phase);
    hide Holders;
  }

  lemma QueuedKeeps(s: Host, max: nat, id: Id)
    requires Inv(s, max) && id !in s.phase && s.inUse >= max && id !in s.aborted
    ensures Inv(s.(arrivals := s.arrivals + [id], queue := s.queue + [id], phase := s.phase[id := Waiting]), max)
  {
    var t := s.(arrivals := s.arrivals + [id], queue := s.queue + [id], phase := s.phase[id := Waiting]);
    assert t.inUse == max;
    QueuedPhases(s, t, id);
    hide OrderInv, PhaseInv;
    PermitsUnchanged(s, t, max, id, Waiting);
    hide PermitInv;
    ConcatAssociates(s.granted, s.queue, [id]);
    Arrives(s, t, id);
  }

  lemma QueuedPhases(s: Host, t: Host, id: Id)
    requires PhaseInv(s) && id !in s.phase && id !in s.aborted
    requires t == s.(arrivals := s.arrivals + [id], queue := s.queue + [id], phase := s.phase[id := Waiting])
    ensures PhaseInv(t)
  {
    assert forall x :: x in t.queue ==> x in s.queue || x == id;
    assert forall x :: x in t.arrivals ==> x in s.arrivals || x == id;
  }

  lemma RejectedKeeps(s: Host, max: nat, id: Id)
    requires Inv(s, max) && id !in s.phase
    ensures Inv(s.(phase := s.phase[id := Settled]), max)
  {
    var t := s.(phase := s.phase[id := Settled]);
    PermitsUnchanged(s, t, max, id, Settled);
    hide PermitInv;
  }

  lemma AcquireKeeps(s: Host, max: nat, id: Id)
    requires Inv(s, max) && id !in s.phase
    ensures Inv(Acquire(s, max, id), max)
  {
    hide Inv, Grant;
    if id in s.aborted {
      RejectedKeeps(s, max, id);
    } else if s.inUse < max {
      GrantedAtOnceKeeps(s, max, id);
    } else {
      QueuedKeeps(s, max, id);
    }
  }

  lemma AbortKeeps(s: Host, max: nat, id: Id)
    requires Inv(s, max)
    ensures Inv(Abort(s, id), max)
  {
    if id in s.queue {
      HoldersChange(s.phase, id, Settled);
      assert id !in s.granted;
      RemoveFromSecond(s.granted, s.queue, id);
      RemoveMembers(s.granted + s.queue, id);
      WithoutMore(s.arrivals, s.cancelled, id);
      QueueWithoutDuplicates(s.granted, s.queue);
      RemoveMembers(s.queue, id);
      assert Holders(s.phase) - {id} == Holders(s.phase);
    }
  }

  lemma QueueWithoutDuplicates(a: seq<Id>, b: seq<Id>)
    requires NoDuplicates(a + b)
    ensures NoDuplicates(b)
    ensures forall id :: id in a ==> id !in b
  {
    assert forall k :: 0 <= k < |b| ==> b[k] == (a + b)[|a| + k];
    assert forall k :: 0 <= k < |a| ==> a[k] == (a + b)[k];
  }

  /** No waiter in the queue is aborted, so a release never reaches the branch that rejects the next
      waiter and releases once more, and its decrement never meets the lower clamp. */
  lemma ReleaseServesHead(s: Host, max: nat, id: Id)
    requires Inv(s, max) && id in Holders(s.phase)
    ensures s.inUse >= 1
    ensures var before := s.(spawnReleased := s.spawnReleased + {id}, phase := s.phase[id := Settled]);
      Release(before) ==
      if s.queue == [] then before.(inUse := s.inUse - 1)
      else Grant(before.(inUse := s.inUse - 1, queue := s.queue[1..]), s.queue[0])
  {
    assert {id} <= Holders(s.phase);
    assert |Holders(s.phase) - {id}| == s.inUse - 1;
    assert s.queue != [] ==> s.queue[0] in s.queue;
  }

  lemma SettleKeeps(s: Host, max: nat, id: Id)
    requires Inv(s, max) && id in Holders(s.phase)
    ensures id !in s.spawnReleased
    ensures var t := s.(spawnReleased := s.spawnReleased + {id}, phase := s.phase[id := Settled]);
      PhaseInv(t) && OrderInv(t) && |Holders(t.phase)| == s.inUse - 1 &&
      (forall x :: x in t.spawnReleased <==> x in t.granted && x in t.phase && t.phase[x] == Settled) &&
      (forall x :: x in Holders(t.phase) ==> x in t.granted)
  {
    HoldersChange(s.phase, id, Settled);
    assert |Holders(s.phase) - {id}| == s.inUse - 1;
  }

  lemma GrantHeadKeeps(s: Host)
    requires PhaseInv(s) && OrderInv(s) && s.queue != []
    ensures var t := Grant(s.(queue := s.queue[1..]), s.queue[0]);
      PhaseInv(t) && OrderInv(t)
  {
    var next, rest := s.queue[0], s.queue[1..];
    QueueWithoutDuplicates(s.granted, s.queue);
    assert s.queue == [next] + rest;
    NoDuplicatesCons(next, rest);
    assert (s.granted + [next]) + rest == s.granted + s.queue;
  }

  lemma ReleaseKeeps(s: Host, max: nat, id: Id)
    requires Inv(s, max) && id in Holders(s.phase)
    ensures id !in s.spawnReleased
    ensures Inv(ReleaseOnce(s, id), max) && id in ReleaseOnce(s, id).spawnReleased
  {
    ReleaseServesHead(s, max, id);
    SettleKeeps(s, max, id);
    hide Release, OrderInv;
    var settled := s.(inUse := s.inUse - 1, spawnReleased := s.spawnReleased + {id}, phase := s.phase[id := Settled]);
    assert PhaseInv(settled) && OrderInv(settled) by { SameOrder(s.(phase := settled.phase), settled); }
    if s.queue != [] {
      GrantHeadKeeps(settled);
      GrantHeadPermits(settled, max);
    }
  }

  lemma GrantHeadPermits(s: Host, max: nat)
    requires PhaseInv(s) && s.queue != [] && s.inUse == |Holders(s.phase)| == max - 1
    requires forall id :: id in s.spawnReleased <==> id in s.granted && id in s.phase && s.phase[id] == Settled
    requires forall id :: id in Holders(s.phase) ==> id in s.granted
    ensures PermitInv(Grant(s.(queue := s.queue[1..]), s.queue[0]), max)
  {
    var next := s.queue[0];
    assert next in s.queue && s.phase[next] == Waiting;
    HoldersChange(s.phase, next, Acquired);
    assert next !in Holders(s.phase);
    hide Holders, PhaseInv;
    assert |Holders(s.phase) + {next}| == s.inUse + 1;
  }

  lemma SameOrder(s: Host, t: Host)
    requires s.granted == t.granted && s.queue == t.queue && s.arrivals == t.arrivals && s.cancelled == t.cancelled
    requires s.phase == t.phase && s.aborted == t.aborted
    ensures OrderInv(s) == OrderInv(t) && PhaseInv(s) == PhaseInv(t)
  {
  }

  lemma SpawnKeeps(s: Host, max: nat, id: Id)
    requires Inv(s, max) && id in s.phase && s.phase[id] == Acquired
    ensures Inv(s.(phase := s.phase[id := Spawning]), max)
  {
    HoldersChange(s.phase, id, Spawning);
    assert Holders(s.phase) + {id} == Holders(s.phase);
  }

  lemma StepKeeps(s: Host, max: nat, event: Event)
    requires Inv(s, max)
    ensures Inv(Step(s, max, event), max)
  {
    hide ReleaseOnce, Acquire, Abort, OrderInv;
    match event
    case Request(id) =>
      if id !in s.phase {
        AcquireKeeps(s, max, id);
      }
    case SignalAborts(id) => AbortKeeps(s, max, id);
    case Resumes(id, throws) =>
      if id in s.phase && s.phase[id] == Acquired {
        ReleaseKeeps(s, max, id);
        SpawnKeeps(s, max, id);
      }
    case ReadyOrTimeout(id, throws) =>
      if id in s.phase && s.phase[id] == Spawning {
        ReleaseKeeps(s, max, id);
        ReleasedAlready(ReleaseOnce(s, id), id);
      }
  }

  lemma ReleasedAlready(s: Host, id: Id)
    requires id in s.spawnReleased
    ensures ReleaseOnce(s, id) == s
  {
  }

  lemma {:induction false} RunKeeps(s: Host, max: nat, events: seq<Event>)
    requires Inv(s, max)
    ensures Inv(Run(s, max, events), max)
    decreases |events|
  {
    hide Inv, Step;
    if events == [] {
    } else {
      StepKeeps(s, max, events[0]);
      RunKeeps(Step(s, max, events[0]), max, events[1..]);
    }
  }

  // ----- what every run guarantees -----

  /** Permits: after any run, the permits in use are exactly those held by requests between their
      grant and their release, never more than the maximum; a request waits only when all permits are
      in use; every granted permit was given back exactly once when its request settled. */
  lemma Permits(max: nat, events: seq<Event>)
    ensures var s := Run(IDLE, max, events);
      && s.inUse == |Holders(s.phase)| <= max
      && (s.queue != [] ==> s.inUse == max)
      && (forall id :: id in s.granted ==> id in s.phase && (id in Holders(s.phase) <==> id !in s.spawnReleased))
      && (forall id :: id in s.spawnReleased ==> id in s.granted)
  {
    assert Inv(IDLE, max);
    RunKeeps(IDLE, max, events);
  }

  /** Order: permits are granted in the order of arrival, without barging: leaving out the waiters
      that were cancelled, the grants so far followed by the queue are the arrivals. No waiter whose
      signal was aborted is left in the queue. */
  lemma FirstComeFirstServed(max: nat, events: seq<Event>)
    ensures var s := Run(IDLE, max, events);
      && s.granted + s.queue == Without(s.arrivals, s.cancelled)
      && NoDuplicates(s.granted + s.queue)
      && forall id :: id in s.queue ==> id !in s.aborted
  {
    assert Inv(IDLE, max);
    RunKeeps(IDLE, max, events);
  }

  /** No permit is lost: once no request holds a permit, all are free and nobody waits. */
  lemma PermitsComeBack(max: nat, events: seq<Event>)
    requires max > 0
    requires Holders(Run(IDLE, max, events).phase) == {}
    ensures var s := Run(IDLE, max, events); s.inUse == 0 && s.queue == []
  {
    Permits(max, events);
  }

  // ----- the semaphore as written -----

  datatype Acquisition = Rejected | Granted | Queued

  class Semaphore {
    const max: nat
    var inUse: int
    var queue: seq<Id>

    constructor (max: nat)
      ensures this.max == max && inUse == 0 && queue == []
    {
      this.max := max;
      inUse, queue := 0, [];
    }

    method AcquirePermit(id: Id, aborted: bool) returns (r: Acquisition)
      modifies this
      ensures var s := Host(old(inUse), old(queue), if aborted then {id} else {}, map[], {}, [], [], {});
        var t := Acquire(s, max, id);
        inUse == t.inUse && queue == t.queue &&
        r == match t.phase[id] { case Settled => Rejected case Acquired => Granted case _ => Queued }
    {
      if aborted {
        return Rejected;
      }
      if inUse < max {
        inUse := inUse + 1;
        return Granted;
      }
      queue := queue + [id];
      return Queued;
    }

    // The handler a waiter has on its signal; says whether the waiter was rejected.
    method OnAbort(id: Id) returns (rejected: bool)
      modifies this`queue
      ensures rejected <==> id in old(queue)
      ensures queue == Remove(old(queue), id)
    {
      var index := 0;
      ghost var start := queue;
      while index < |queue| && queue[index] != id
        invariant index <= |queue| && queue == start
        invariant id !in queue[..index]
      {
        assert queue[..index + 1] == queue[..index] + [queue[index]];
        index := index + 1;
      }
      RemoveAt(queue, id, index);
      if index == |queue| {
        return false;
      }
      queue := queue[..index] + queue[index + 1..];
      return true;
    }

    method ReleasePermit(aborted: set<Id>) returns (next: Option<Id>)
      modifies this
      ensures forall s: Host :: s.inUse == old(inUse) && s.queue == old(queue) && s.aborted == aborted ==>
        var t := Release(s);
        t.inUse == inUse && t.queue == queue && t.granted == s.granted + (if next.Some? then [next.value] else [])
      decreases |queue|
    {
      inUse := if inUse - 1 > 0 then inUse - 1 else 0;
      if queue == [] {
        return None;
      }
      var first := queue[0];
      queue := queue[1..];
      if first in aborted {
        next := ReleasePermit(aborted);
        return;
      }
      inUse := inUse + 1;
      return Some(first);
    }
  }
}
