/** Runs of the spawn semaphore (src/main/terminal-host/terminal-host.ts) as a single request sees them, and
    the arrivals and cancellations in terms of the events. */
module SpawnRequests {
  import opened Wrappers
  import opened SpawnSemaphore

  function PhaseOf(s: Host, id: Id): Option<Phase> {
    if id in s.phase then Some(s.phase[id]) else None
  }

  // What an event makes of a request; `granted` says whether it has been granted a permit after the event.
  function NextPhase(phase: Option<Phase>, event: Event, id: Id, aborted: bool, granted: bool): Option<Phase> {
    match phase
    case None =>
      if event != Request(id) then None
      else if aborted then Some(Settled)
      else if granted then Some(Acquired) else Some(Waiting)
    case Some(Waiting) => if event == SignalAborts(id) then Some(Settled) else if granted then Some(Acquired) else phase
    case Some(Acquired) =>
      if event.Resumes? && event.id == id then if aborted || event.throws then Some(Settled) else Some(Spawning) else phase
    case Some(Spawning) => if event.ReadyOrTimeout? && event.id == id then Some(Settled) else phase
    case Some(Settled) => phase
  }

  predicate Happens(events: seq<Event>, event: Event) {
    exists i :: 0 <= i < |events| && events[i] == event
  }

  function PhaseAfter(max: nat, events: seq<Event>, id: Id): Option<Phase> {
    if events == [] then None
    else
      var n := |events| - 1;
      NextPhase(PhaseAfter(max, events[..n], id), events[n], id, Happens(events[..n], SignalAborts(id)),
                id in Run(IDLE, max, events).granted)
  }

  // The requests that were made while their signal was not aborted, each once.
  function ArrivalsIn(events: seq<Event>): seq<Id> {
    if events == [] then []
    else
      var n := |events| - 1;
      var before := events[..n];
      ArrivalsIn(before) +
      if events[n].Request? && !Happens(before, events[n]) && !Happens(before, SignalAborts(events[n].id)) then [events[n].id] else []
  }

  // The signal was aborted while the request waited.
  function CancelledIn(max: nat, events: seq<Event>, id: Id): bool {
    events != [] &&
    var n := |events| - 1;
    || CancelledIn(max, events[..n], id)
    || (events[n] == SignalAborts(id) && PhaseAfter(max, events[..n], id) == Some(Waiting))
  }

  ghost predicate Queued(s: Host) {
    forall id :: id in s.queue <==> PhaseOf(s, id) == Some(Waiting)
  }

  // A request that holds a permit gives it back, and the head of the queue gets it.
  ghost predicate Released(s: Host, t: Host, id: Id) {
    && t.arrivals == s.arrivals && t.cancelled == s.cancelled && t.aborted == s.aborted
    && t.granted == s.granted + s.queue[..if s.queue == [] then 0 else 1]
    && t.queue == (if s.queue == [] then [] else s.queue[1..])
    && t.phase == (if s.queue == [] then s.phase[id := Settled] else s.phase[id := Settled][s.queue[0] := Acquired])
  }

  lemma Releasing(s: Host, max: nat, id: Id)
    requires Inv(s, max) && id in Holders(s.phase)
    ensures Released(s, ReleaseOnce(s, id), id)
  {
    ReleaseKeeps(s, max, id);
    ReleaseServesHead(s, max, id);
    hide Release, Inv;
    assert s.granted + [] == s.granted;
    assert s.queue != [] ==> s.queue[..1] == [s.queue[0]];
  }

  // What the invariant says of the requests in the queue and of those that were granted.
  lemma QueueFacts(s: Host, max: nat)
    requires Inv(s, max)
    ensures forall id :: id in s.queue ==> id !in s.granted && PhaseOf(s, id) == Some(Waiting)
    ensures forall id :: id in s.granted ==> PhaseOf(s, id).Some? && PhaseOf(s, id) != Some(Waiting)
    ensures forall i, j :: 0 <= i < j < |s.queue| ==> s.queue[i] != s.queue[j]
    ensures forall id :: PhaseOf(s, id) == Some(Acquired) || PhaseOf(s, id) == Some(Spawning) ==> id in Holders(s.phase)
  {
    QueueWithoutDuplicates(s.granted, s.queue);
  }

  lemma ReleasedPhases(s: Host, t: Host, max: nat, id: Id)
    requires Inv(s, max) && Queued(s) && id in Holders(s.phase) && Released(s, t, id)
    ensures Queued(t)
    ensures forall x :: PhaseOf(t, x) ==
              if x == id then Some(Settled)
              else if PhaseOf(s, x) == Some(Waiting) && x in t.granted then Some(Acquired) else PhaseOf(s, x)
  {
    QueueFacts(s, max);
    assert PhaseOf(s, id) != Some(Waiting);
    hide Inv;
    if s.queue == [] {
      assert s.queue[..0] == [];
      assert forall x :: x in t.granted <==> x in s.granted;
    } else {
      var next := s.queue[0];
      assert s.queue[..1] == [next] && s.queue == [next] + s.queue[1..];
      assert forall x :: x in t.granted <==> x in s.granted || x == next;
      assert forall x :: x in t.queue <==> x in s.queue && x != next;
    }
  }

  // A new request is rejected, granted a permit, or queued.
  lemma NewPhase(s: Host, t: Host, id: Id)
    requires Queued(s) && id !in s.phase && (forall x :: PhaseOf(s, x) == Some(Waiting) ==> x !in s.granted) && id !in s.granted
    requires id in t.phase && t.phase == s.phase[id := t.phase[id]] && t.phase[id] != Spawning
    requires t.queue == s.queue + (if t.phase[id] == Waiting then [id] else [])
    requires t.granted == s.granted + (if t.phase[id] == Acquired then [id] else [])
    ensures Queued(t) && (forall x :: PhaseOf(s, x) == Some(Waiting) ==> x !in t.granted)
    ensures forall x :: PhaseOf(t, x) == if x == id then Some(t.phase[id]) else PhaseOf(s, x)
    ensures id in t.granted <==> t.phase[id] == Acquired
  {
    forall x
      ensures x in t.queue <==> PhaseOf(t, x) == Some(Waiting)
    {
      assert x in t.queue <==> x in s.queue || (x == id && t.phase[id] == Waiting);
      assert PhaseOf(s, id) == None;
    }
  }

  lemma AcquirePhases(s: Host, max: nat, id: Id)
    requires Inv(s, max) && Queued(s) && id !in s.phase
    ensures var t := Acquire(s, max, id);
      && Queued(t) && t.aborted == s.aborted && t.cancelled == s.cancelled
      && t.arrivals == s.arrivals + (if id in s.aborted then [] else [id])
      && (forall x :: PhaseOf(t, x) ==
            if x == id then NextPhase(None, Request(id), id, id in s.aborted, id in t.granted) else PhaseOf(s, x))
      && forall x :: PhaseOf(s, x) == Some(Waiting) ==> x !in t.granted
  {
    QueueFacts(s, max);
    hide Inv;
    assert PhaseOf(s, id) == None;
    hide Queued, PhaseOf;
    assert s.arrivals + [] == s.arrivals && s.queue + [] == s.queue && s.granted + [] == s.granted;
    NewPhase(s, Acquire(s, max, id), id);
  }

  // The aborted request leaves the queue.
  lemma RemovedPhases(s: Host, t: Host, id: Id)
    requires Queued(s) && PhaseOf(s, id) == Some(Waiting) && t.phase == s.phase[id := Settled]
    requires forall x :: x in t.queue <==> x in s.queue && x != id
    ensures Queued(t)
    ensures forall x :: PhaseOf(t, x) == if x == id then Some(Settled) else PhaseOf(s, x)
  {
  }

  lemma AbortPhases(s: Host, max: nat, id: Id)
    requires Inv(s, max) && Queued(s)
    ensures var t := Abort(s, id);
      && Queued(t) && t.aborted == s.aborted + {id} && t.arrivals == s.arrivals && t.granted == s.granted
      && t.cancelled == s.cancelled + (if PhaseOf(s, id) == Some(Waiting) then {id} else {})
      && forall x :: PhaseOf(t, x) == if x == id && PhaseOf(s, x) == Some(Waiting) then Some(Settled) else PhaseOf(s, x)
  {
    QueueFacts(s, max);
    hide Inv;
    assert id in s.queue <==> PhaseOf(s, id) == Some(Waiting);
    if id in s.queue {
      RemoveMembers(s.queue, id);
      hide Remove, PhaseOf, Queued;
      RemovedPhases(s, Abort(s, id), id);
    } else {
      assert s.cancelled + {} == s.cancelled;
    }
  }

  // The record of the run after a step, in terms of the one before.
  ghost predicate Recorded(s: Host, event: Event, t: Host) {
    && t.aborted == s.aborted + (if event.SignalAborts? then {event.id} else {})
    && t.arrivals == s.arrivals + (if event.Request? && PhaseOf(s, event.id).None? && event.id !in s.aborted then [event.id] else [])
    && t.cancelled == s.cancelled + (if event.SignalAborts? && PhaseOf(s, event.id) == Some(Waiting) then {event.id} else {})
  }

  // Every request as the event and its grant say.
  ghost predicate Moved(s: Host, event: Event, t: Host) {
    forall id :: PhaseOf(t, id) == NextPhase(PhaseOf(s, id), event, id, id in s.aborted, id in t.granted)
  }

  lemma NothingMoves(s: Host, max: nat, event: Event)
    requires Inv(s, max) && Queued(s) && Recorded(s, event, s)
    requires event.Request? ==> event.id in s.phase
    requires event.Resumes? ==> PhaseOf(s, event.id) != Some(Acquired)
    requires event.ReadyOrTimeout? ==> PhaseOf(s, event.id) != Some(Spawning)
    requires event.SignalAborts? ==> PhaseOf(s, event.id) != Some(Waiting)
    ensures Moved(s, event, s)
  {
    QueueFacts(s, max);
    hide Inv;
  }

  lemma RequestMoves(s: Host, max: nat, id: Id)
    requires Inv(s, max) && Queued(s)
    ensures var t := Step(s, max, Request(id)); Queued(t) && Recorded(s, Request(id), t) && Moved(s, Request(id), t)
  {
    QueueFacts(s, max);
    if id !in s.phase {
      AcquirePhases(s, max, id);
      hide Inv, Acquire, Queued;
      NewRequestMoves(s, Acquire(s, max, id), id);
    } else {
      NothingRecorded(s);
      NothingMoves(s, max, Request(id));
    }
  }

  lemma NewRequestMoves(s: Host, t: Host, id: Id)
    requires id !in s.phase && t.aborted == s.aborted && t.cancelled == s.cancelled
    requires t.arrivals == s.arrivals + if id in s.aborted then [] else [id]
    requires forall x :: PhaseOf(t, x) ==
               if x == id then NextPhase(None, Request(id), id, id in s.aborted, id in t.granted) else PhaseOf(s, x)
    requires forall x :: PhaseOf(s, x) == Some(Waiting) ==> x !in t.granted
    ensures Recorded(s, Request(id), t) && Moved(s, Request(id), t)
  {
    NothingRecorded(s);
    assert PhaseOf(s, id) == None;
    hide PhaseOf;
  }

  lemma NothingRecorded(s: Host)
    ensures s.arrivals + [] == s.arrivals && s.cancelled + {} == s.cancelled && s.aborted + {} == s.aborted
  {
  }

  lemma AbortMoves(s: Host, max: nat, id: Id)
    requires Inv(s, max) && Queued(s)
    ensures var t := Step(s, max, SignalAborts(id)); Queued(t) && Recorded(s, SignalAborts(id), t) && Moved(s, SignalAborts(id), t)
  {
    QueueFacts(s, max);
    WaitingIsQueued(s);
    AbortPhases(s, max, id);
    hide Inv, Abort, Queued, Recorded, Moved, PhaseOf;
    AbortedMoves(s, Abort(s, id), id);
  }

  lemma AbortedMoves(s: Host, t: Host, id: Id)
    requires t.aborted == s.aborted + {id} && t.arrivals == s.arrivals && t.granted == s.granted
    requires t.cancelled == s.cancelled + if PhaseOf(s, id) == Some(Waiting) then {id} else {}
    requires forall x :: PhaseOf(t, x) == if x == id && PhaseOf(s, x) == Some(Waiting) then Some(Settled) else PhaseOf(s, x)
    requires forall x :: PhaseOf(s, x) == Some(Waiting) ==> x !in s.granted
    ensures Recorded(s, SignalAborts(id), t) && Moved(s, SignalAborts(id), t)
  {
    NothingRecorded(s);
    hide PhaseOf;
  }

  lemma SettleMoves(s: Host, max: nat, event: Event, t: Host)
    requires Inv(s, max) && Queued(s) && (event.Resumes? || event.ReadyOrTimeout?) && event.id in Holders(s.phase)
    requires Released(s, t, event.id)
    requires event.Resumes? ==> PhaseOf(s, event.id) == Some(Acquired) && (event.id in s.aborted || event.throws)
    requires event.ReadyOrTimeout? ==> PhaseOf(s, event.id) == Some(Spawning)
    ensures Queued(t) && Recorded(s, event, t) && Moved(s, event, t)
  {
    ReleasedPhases(s, t, max, event.id);
    ReleasedRecord(s, t, event.id);
    NothingRecorded(s);
    hide Inv, Released, Queued, Holders;
  }

  lemma ResumeMoves(s: Host, max: nat, id: Id, throws: bool)
    requires Inv(s, max) && Queued(s)
    ensures var t := Step(s, max, Resumes(id, throws));
      Queued(t) && Recorded(s, Resumes(id, throws), t) && Moved(s, Resumes(id, throws), t)
  {
    var t := Step(s, max, Resumes(id, throws));
    QueueFacts(s, max);
    NothingRecorded(s);
    hide Holders, ReleaseOnce;
    if PhaseOf(s, id) != Some(Acquired) {
      NothingMoves(s, max, Resumes(id, throws));
    } else if id in s.aborted || throws {
      Releasing(s, max, id);
      SettleMoves(s, max, Resumes(id, throws), t);
    } else {
      SpawningQueued(s, t, id);
      hide Inv;
      WaitingIsQueued(s);
    }
  }

  lemma ReadyMoves(s: Host, max: nat, id: Id, throws: bool)
    requires Inv(s, max) && Queued(s)
    ensures var t := Step(s, max, ReadyOrTimeout(id, throws));
      Queued(t) && Recorded(s, ReadyOrTimeout(id, throws), t) && Moved(s, ReadyOrTimeout(id, throws), t)
  {
    var t := Step(s, max, ReadyOrTimeout(id, throws));
    QueueFacts(s, max);
    NothingRecorded(s);
    hide Holders, ReleaseOnce;
    if PhaseOf(s, id) != Some(Spawning) {
      NothingMoves(s, max, ReadyOrTimeout(id, throws));
    } else {
      Releasing(s, max, id);
      ReleaseKeeps(s, max, id);
      ReleasedAlready(ReleaseOnce(s, id), id);
      SettleMoves(s, max, ReadyOrTimeout(id, throws), t);
    }
  }

  lemma StepPhases(s: Host, max: nat, event: Event)
    requires Inv(s, max) && Queued(s)
    ensures var t := Step(s, max, event); Queued(t) && Recorded(s, event, t) && Moved(s, event, t)
  {
    hide Inv, Queued, Recorded, Moved, Step;
    match event
    case Request(id) => RequestMoves(s, max, id);
    case SignalAborts(id) => AbortMoves(s, max, id);
    case Resumes(id, throws) => ResumeMoves(s, max, id, throws);
    case ReadyOrTimeout(id, throws) => ReadyMoves(s, max, id, throws);
  }

  lemma WaitingIsQueued(s: Host)
    requires Queued(s)
    ensures forall x :: PhaseOf(s, x) == Some(Waiting) ==> x in s.queue
  {
  }

  lemma SpawningQueued(s: Host, t: Host, id: Id)
    requires Queued(s) && t.queue == s.queue && PhaseOf(s, id) == Some(Acquired) && t.phase == s.phase[id := Spawning]
    ensures Queued(t)
  {
  }

  lemma ReleasedRecord(s: Host, t: Host, id: Id)
    requires Released(s, t, id)
    ensures t.arrivals == s.arrivals && t.cancelled == s.cancelled && t.aborted == s.aborted
  {
  }

  lemma {:induction false} RunSnoc(s: Host, max: nat, events: seq<Event>, event: Event)
    ensures Run(s, max, events + [event]) == Step(Run(s, max, events), max, event)
    decreases |events|
  {
    hide Step;
    if events == [] {
      assert [] + [event] == [event] && [event][1..] == [];
    } else {
      assert (events + [event])[0] == events[0] && (events + [event])[1..] == events[1..] + [event];
      RunSnoc(Step(s, max, events[0]), max, events[1..], event);
    }
  }

  lemma HappensSnoc(events: seq<Event>, event: Event)
    ensures forall e :: Happens(events + [event], e) <==> Happens(events, e) || e == event
  {
    var all := events + [event];
    assert all[|events|] == event && forall i :: 0 <= i < |events| ==> all[i] == events[i];
  }

  // The state after a run as the events of the run say.
  ghost predicate Follows(max: nat, events: seq<Event>, s: Host) {
    && s.arrivals == ArrivalsIn(events)
    && (forall id :: PhaseOf(s, id) == PhaseAfter(max, events, id))
    && (forall id :: id in s.aborted <==> Happens(events, SignalAborts(id)))
    && (forall id :: PhaseOf(s, id).Some? <==> Happens(events, Request(id)))
    && (forall id :: id in s.cancelled <==> CancelledIn(max, events, id))
  }

  lemma FollowsOn(max: nat, events: seq<Event>, s: Host, event: Event, t: Host)
    requires Follows(max, events, s) && Recorded(s, event, t) && t == Run(IDLE, max, events + [event])
    requires Moved(s, event, t)
    ensures Follows(max, events + [event], t)
  {
    hide Run, PhaseOf, Happens, NextPhase;
    HappensSnoc(events, event);
    var all := events + [event];
    assert all[..|all| - 1] == events && all[|all| - 1] == event;
    assert event.Request? ==> (PhaseOf(s, event.id).None? <==> !Happens(events, event));
    forall id
      ensures PhaseOf(t, id) == PhaseAfter(max, all, id)
      ensures PhaseOf(t, id).Some? <==> Happens(all, Request(id))
      ensures id in t.cancelled <==> CancelledIn(max, all, id)
    {
      FollowsFor(max, events, s, event, t, id);
    }
  }

  lemma FollowsFor(max: nat, events: seq<Event>, s: Host, event: Event, t: Host, id: Id)
    requires Recorded(s, event, t) && t == Run(IDLE, max, events + [event])
    requires PhaseOf(t, id) == NextPhase(PhaseOf(s, id), event, id, id in s.aborted, id in t.granted)
    requires PhaseOf(s, id) == PhaseAfter(max, events, id) && (id in s.aborted <==> Happens(events, SignalAborts(id)))
    requires PhaseOf(s, id).Some? <==> Happens(events, Request(id))
    requires id in s.cancelled <==> CancelledIn(max, events, id)
    ensures var all := events + [event];
      && PhaseOf(t, id) == PhaseAfter(max, all, id)
      && (PhaseOf(t, id).Some? <==> Happens(all, Request(id)))
      && (id in t.cancelled <==> CancelledIn(max, all, id))
  {
    hide Run, PhaseOf, Happens;
    HappensSnoc(events, event);
    var all := events + [event];
    assert all[..|all| - 1] == events && all[|all| - 1] == event;
    hide NextPhase;
    SomePhase(PhaseOf(s, id), event, id, id in s.aborted, id in t.granted);
  }

  lemma SomePhase(phase: Option<Phase>, event: Event, id: Id, aborted: bool, granted: bool)
    ensures NextPhase(phase, event, id, aborted, granted).Some? <==> phase.Some? || event == Request(id)
  {
  }

  /** Every request goes through its phases as its own events and its grant say, and the arrivals, the aborted signals and
      the requests canceled while they waited are those of the events. A request waits exactly while it is queued. */
  lemma {:induction false} RequestsFollow(max: nat, events: seq<Event>)
    ensures var s := Run(IDLE, max, events); Follows(max, events, s) && Queued(s)
  {
    hide Inv, Step, Follows, Queued, Recorded, Moved;
    if events == [] {
      NoRequests(max);
    } else {
      var n := |events| - 1;
      var s := Run(IDLE, max, events[..n]);
      assert events == events[..n] + [events[n]];
      RequestsFollow(max, events[..n]);
      RunSnoc(IDLE, max, events[..n], events[n]);
      IdleInv(max);
      RunKeeps(IDLE, max, events[..n]);
      StepPhases(s, max, events[n]);
      FollowsOn(max, events[..n], s, events[n], Step(s, max, events[n]));
    }
  }

  lemma NoRequests(max: nat)
    ensures Follows(max, [], IDLE) && Queued(IDLE)
  {
  }

  lemma IdleInv(max: nat)
    ensures Inv(IDLE, max)
  {
  }

  /** So permits are granted in the order in which the requests were made, leaving out those aborted before they were
      made and those canceled while they waited; and a request waits only while all permits are held. */
  lemma GrantedInOrder(max: nat, events: seq<Event>, out: set<Id>)
    requires forall id :: id in out <==> CancelledIn(max, events, id)
    ensures var s := Run(IDLE, max, events);
      && s.granted + s.queue == Without(ArrivalsIn(events), out)
      && (forall id :: id in s.queue <==> PhaseAfter(max, events, id) == Some(Waiting))
      && (s.queue != [] ==> |Holders(s.phase)| == max)
  {
    hide Run, Holders, Without, PhaseOf;
    RequestsFollow(max, events);
    FirstComeFirstServed(max, events);
    Permits(max, events);
    assert Run(IDLE, max, events).cancelled == out;
  }
}
