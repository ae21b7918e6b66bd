/** The queue that bounds the rate at which watcher events reach listeners
    (packages/workspace-fs/src/throttled-worker.ts). The handler may throw but does not call back into
    the worker. */
module ThrottledWorker {
  import opened Wrappers
  import opened Bytes

  datatype Options = Options(maxWorkChunkSize: nat, maxBufferedWork: Option<nat>)

  datatype Worker<T> = Worker(
    pending: seq<T>,
    armed: bool,               // a throttle timer is set
    disposed: bool,
    delivered: seq<seq<T>>,    // the chunks the handler was called with
    accepted: seq<T>           // all units accepted
  )

  function New<T>(): Worker<T> {
    Worker([], false, false, [], [])
  }

  function ChunkEnd<T>(s: Worker<T>, o: Options): (n: nat)
    ensures n <= |s.pending|
  {
    if o.maxWorkChunkSize < |s.pending| then o.maxWorkChunkSize else |s.pending|
  }

  function DoWork<T>(s: Worker<T>, o: Options): Worker<T> {
    var n := ChunkEnd(s, o);
    var chunk := s.pending[..n];
    s.(pending := s.pending[n..], delivered := if chunk == [] then s.delivered else s.delivered + [chunk],
       armed := s.armed || (!s.disposed && n < |s.pending|))
  }

  predicate HasRoom<T>(s: Worker<T>, o: Options, units: seq<T>) {
    !s.disposed &&
    (o.maxBufferedWork.Some? ==>
      if s.armed then |s.pending| + |units| <= o.maxBufferedWork.value
      else |s.pending| + |units| - o.maxWorkChunkSize <= o.maxBufferedWork.value)
  }

  function Work<T>(s: Worker<T>, o: Options, units: seq<T>): Worker<T> {
    if !HasRoom(s, o, units) then s
    else
      var queued := s.(pending := s.pending + units, accepted := s.accepted + units);
      if s.armed then queued else DoWork(queued, o)
  }

  function Tick<T>(s: Worker<T>, o: Options): Worker<T> {
    if s.armed then DoWork(s.(armed := false), o) else s
  }

  function Disposed<T>(s: Worker<T>): Worker<T> {
    s.(pending := [], armed := false, disposed := true)
  }

  datatype Event<T> = Offer(units: seq<T>) | TimerFires | Disposes

  function Step<T>(s: Worker<T>, o: Options, event: Event<T>): Worker<T> {
    match event
    case Offer(units) => Work(s, o, units)
    case TimerFires => Tick(s, o)
    case Disposes => Disposed(s)
  }

  function Run<T>(s: Worker<T>, o: Options, events: seq<Event<T>>): Worker<T>
    decreases |events|
  {
    if events == [] then s else Run(Step(s, o, events[0]), o, events[1..])
  }

  ghost predicate Inv<T>(s: Worker<T>, o: Options) {
    && !s.disposed
    && Concat(s.delivered) + s.pending == s.accepted
    && (forall chunk :: chunk in s.delivered ==> 0 < |chunk| <= o.maxWorkChunkSize)
    && (s.armed <==> s.pending != [])
    && (o.maxBufferedWork.Some? ==> |s.pending| <= o.maxBufferedWork.value)
  }

  lemma DoWorkKeeps<T>(s: Worker<T>, o: Options)
    requires !s.disposed && !s.armed && Concat(s.delivered) + s.pending == s.accepted
    requires forall chunk :: chunk in s.delivered ==> 0 < |chunk| <= o.maxWorkChunkSize
    requires o.maxBufferedWork.Some? ==> |s.pending| - o.maxWorkChunkSize <= o.maxBufferedWork.value
    ensures Inv(DoWork(s, o), o)
  {
    var n := ChunkEnd(s, o);
    var chunk := s.pending[..n];
    assert s.pending == chunk + s.pending[n..];
    ConcatAssociates(Concat(s.delivered), chunk, s.pending[n..]);
    ConcatSnoc(s.delivered, chunk);
  }

  lemma StepKeeps<T>(s: Worker<T>, o: Options, event: Event<T>)
    requires Inv(s, o) && !event.Disposes?
    ensures Inv(Step(s, o, event), o)
  {
    hide DoWork;
    match event
    case Offer(units) =>
      if HasRoom(s, o, units) {
        var queued := s.(pending := s.pending + units, accepted := s.accepted + units);
        ConcatAssociates(Concat(s.delivered), s.pending, units);
        if !s.armed {
          DoWorkKeeps(queued, o);
        }
      }
    case TimerFires =>
      if s.armed {
        DoWorkKeeps(s.(armed := false), o);
      }
  }

  lemma {:induction false} RunKeeps<T>(s: Worker<T>, o: Options, events: seq<Event<T>>)
    requires Inv(s, o) && forall e :: e in events ==> !e.Disposes?
    ensures Inv(Run(s, o, events), o)
    decreases |events|
  {
    hide Inv, Step;
    if events == [] {
    } else {
      assert events[0] in events;
      StepKeeps(s, o, events[0]);
      RunKeeps(Step(s, o, events[0]), o, events[1..]);
    }
  }

  /** Until the worker is disposed, whatever is offered, whenever the timer fires and whether or not the
      handler throws: the delivered chunks followed by the pending units are exactly the accepted units
      in order, no chunk is too long, the buffer stays within its bound, and a timer is set exactly
      while units are pending. */
  lemma Delivery<T>(o: Options, events: seq<Event<T>>)
    requires forall e :: e in events ==> !e.Disposes?
    ensures var s := Run(New<T>(), o, events);
      && Concat(s.delivered) + s.pending == s.accepted
      && (forall chunk :: chunk in s.delivered ==> 0 < |chunk| <= o.maxWorkChunkSize)
      && (o.maxBufferedWork.Some? ==> |s.pending| <= o.maxBufferedWork.value)
      && (s.armed <==> s.pending != [])
  {
    assert Inv(New<T>(), o);
    RunKeeps(New<T>(), o, events);
  }

  /** From its disposal on a worker delivers nothing and accepts nothing, whatever happens: what it has
      delivered and what was pending are all that it ever accepted. */
  lemma DisposedForGood<T>(o: Options, before: seq<Event<T>>, after: seq<Event<T>>)
    requires forall e :: e in before ==> !e.Disposes?
    ensures var s := Run(New<T>(), o, before);
      var end := Run(Disposed(s), o, after);
      && end == Disposed(s) && end.accepted == Concat(end.delivered) + s.pending
      && forall units :: !HasRoom(end, o, units)
  {
    var s := Run(New<T>(), o, before);
    Delivery(o, before);
    NothingMoves(Disposed(s), o, after);
  }

  lemma {:induction false} NothingMoves<T>(s: Worker<T>, o: Options, events: seq<Event<T>>)
    requires s.disposed && !s.armed && s.pending == []
    ensures Run(s, o, events) == s
    decreases |events|
  {
    if events == [] {
    } else {
      assert Step(s, o, events[0]) == s;
      NothingMoves(s, o, events[1..]);
    }
  }

  function Ticks<T>(s: Worker<T>, o: Options, n: nat): Worker<T>
    decreases n
  {
    if n == 0 then s else Ticks(Tick(s, o), o, n - 1)
  }

  // The number of chunks that `n` units make.
  function ChunksFor(n: nat, size: nat): nat
    requires size > 0
    decreases n
  {
    if n == 0 then 0 else 1 + ChunksFor(if n > size then n - size else 0, size)
  }

  // It is the quotient of `n` and `size`, rounded up.
  lemma {:induction false} ChunksRoundUp(n: nat, size: nat)
    requires size > 0
    ensures var k := ChunksFor(n, size); n <= k * size && (n > 0 ==> (k - 1) * size < n)
    decreases n
  {
    if n == 0 {
    } else {
      var rest := if n > size then n - size else 0;
      ChunksRoundUp(rest, size);
      var k := ChunksFor(rest, size);
      assert (k + 1) * size == k * size + size;
      assert k > 0 ==> k * size == (k - 1) * size + size;
    }
  }

  lemma TickShrinks<T>(s: Worker<T>, o: Options)
    requires Inv(s, o)
    ensures Inv(Tick(s, o), o) && Tick(s, o).accepted == s.accepted
    ensures |Tick(s, o).pending| == if |s.pending| > o.maxWorkChunkSize then |s.pending| - o.maxWorkChunkSize else 0
  {
    StepKeeps(s, o, TimerFires);
  }

  /** Without new work the queue drains in exactly as many ticks as its units make chunks. */
  lemma {:induction false} DrainsInTime<T>(s: Worker<T>, o: Options, ticks: nat)
    requires Inv(s, o) && o.maxWorkChunkSize > 0
    ensures var t := Ticks(s, o, ticks);
      Inv(t, o) && t.accepted == s.accepted &&
      (t.pending == [] <==> ticks >= ChunksFor(|s.pending|, o.maxWorkChunkSize))
    decreases ticks
  {
    hide Inv, Tick;
    if ticks == 0 {
    } else {
      TickShrinks(s, o);
      DrainsInTime(Tick(s, o), o, ticks - 1);
    }
  }

  // ----- which offers are accepted -----

  function Over(n: nat, size: nat): nat {
    if n > size then n - size else 0
  }

  // Whether an offer of `count` units fits while `level` units wait: an empty worker passes a chunk on at once.
  predicate Fits(o: Options, level: nat, count: nat) {
    o.maxBufferedWork.Some? ==> level + count <= o.maxBufferedWork.value + (if level == 0 then o.maxWorkChunkSize else 0)
  }

  // How many units wait after these events: a bucket that an offer fills and a tick drains by a chunk.
  function Level<T>(o: Options, events: seq<Event<T>>): nat {
    if events == [] then 0
    else
      var n := |events| - 1;
      var level := Level(o, events[..n]);
      match events[n]
      case Offer(units) =>
        if !Fits(o, level, |units|) then level
        else if level == 0 then Over(|units|, o.maxWorkChunkSize) else level + |units|
      case TimerFires => Over(level, o.maxWorkChunkSize)
      case Disposes => 0
  }

  // The units of the offers that fit.
  function Admitted<T>(o: Options, events: seq<Event<T>>): seq<T> {
    if events == [] then []
    else
      var n := |events| - 1;
      Admitted(o, events[..n]) +
      if events[n].Offer? && Fits(o, Level(o, events[..n]), |events[n].units|) then events[n].units else []
  }

  lemma {:induction false} RunSnoc<T>(s: Worker<T>, o: Options, events: seq<Event<T>>, event: Event<T>)
    ensures Run(s, o, events + [event]) == Step(Run(s, o, events), o, event)
    decreases |events|
  {
    hide Step;
    if events == [] {
      assert [] + [event] == [event] && [event][1..] == [];
    } else {
      assert (events + [event])[0] == events[0] && (events + [event])[1..] == events[1..] + [event];
      RunSnoc(Step(s, o, events[0]), o, events[1..], event);
    }
  }

  lemma StepIsBucket<T>(s: Worker<T>, o: Options, event: Event<T>)
    requires Inv(s, o) && !event.Disposes?
    ensures var t, n := Step(s, o, event), |s.pending|;
      match event
      case Offer(units) =>
        var fits := Fits(o, n, |units|);
        && HasRoom(s, o, units) == fits && t.accepted == s.accepted + (if fits then units else [])
        && |t.pending| == if !fits then n else if n == 0 then Over(|units|, o.maxWorkChunkSize) else n + |units|
      case TimerFires => t.accepted == s.accepted && |t.pending| == Over(n, o.maxWorkChunkSize)
      case Disposes => true
  {
  }

  /** Until the worker is disposed, an offer is accepted exactly if it fits the bucket: what waits is what the
      offers that fitted have filled and the ticks have drained, and nothing else decides. */
  lemma {:induction false} AcceptedIff<T>(o: Options, events: seq<Event<T>>)
    requires forall e :: e in events ==> !e.Disposes?
    ensures var s := Run(New<T>(), o, events);
      && |s.pending| == Level(o, events) && s.accepted == Admitted(o, events)
      && forall units :: HasRoom(s, o, units) <==> Fits(o, Level(o, events), |units|)
  {
    hide Step, HasRoom, Inv, Fits;
    var s := Run(New<T>(), o, events);
    assert Inv(New<T>(), o) by { NewInv<T>(o); }
    RunKeeps(New<T>(), o, events);
    forall units
      ensures HasRoom(s, o, units) <==> Fits(o, |s.pending|, |units|)
    {
      StepIsBucket(s, o, Offer(units));
    }
    if events == [] {
    } else {
      var n := |events| - 1;
      assert events == events[..n] + [events[n]] && events[n] in events;
      AcceptedIff(o, events[..n]);
      RunKeeps(New<T>(), o, events[..n]);
      RunSnoc(New<T>(), o, events[..n], events[n]);
      StepIsBucket(Run(New<T>(), o, events[..n]), o, events[n]);
      assert Admitted(o, events[..n]) + [] == Admitted(o, events[..n]);
    }
  }

  lemma NewInv<T>(o: Options)
    ensures Inv(New<T>(), o)
  {
  }

  function Offered<T>(events: seq<Event<T>>): seq<T> {
    if events == [] then []
    else
      var n := |events| - 1;
      Offered(events[..n]) + if events[n].Offer? then events[n].units else []
  }

  /** So a worker without a bound accepts everything, and one with a bound everything that fits it in all. */
  lemma {:induction false} NothingRefused<T>(o: Options, events: seq<Event<T>>)
    requires forall e :: e in events ==> !e.Disposes?
    requires o.maxBufferedWork.Some? ==> |Offered(events)| <= o.maxBufferedWork.value
    ensures Run(New<T>(), o, events).accepted == Offered(events)
  {
    hide Run;
    AcceptedIff(o, events);
    if events == [] {
    } else {
      var n := |events| - 1;
      assert forall e :: e in events[..n] ==> e in events;
      NothingRefused(o, events[..n]);
      AcceptedIff(o, events[..n]);
      Delivery(o, events[..n]);
      WaitingIsAccepted(o, events[..n]);
    }
  }

  lemma WaitingIsAccepted<T>(o: Options, events: seq<Event<T>>)
    requires forall e :: e in events ==> !e.Disposes?
    ensures |Run(New<T>(), o, events).pending| <= |Run(New<T>(), o, events).accepted|
  {
    hide Run;
    Delivery(o, events);
  }

  // ----- the worker as written -----

  datatype WorkResult = Accepted | Rejected | Threw

  class Throttled<T> {
    const options: Options
    var pending: seq<T>
    var timerSet: bool
    var disposed: bool

    ghost var delivered: seq<seq<T>>
    ghost var accepted: seq<T>

    ghost function View(): Worker<T>
      reads this
    {
      Worker(pending, timerSet, disposed, delivered, accepted)
    }

    constructor (options: Options)
      ensures View() == New() && this.options == options
    {
      this.options := options;
      pending, timerSet, disposed, delivered, accepted := [], false, false, [], [];
    }

    // `throws` says whether the handler throws if it is called.
    method DoWorkNow(throws: bool) returns (threw: bool)
      modifies this
      ensures View() == DoWork(old(View()), options)
      ensures threw <==> throws && delivered != old(delivered)
    {
      var n := if options.maxWorkChunkSize < |pending| then options.maxWorkChunkSize else |pending|;
      var chunk := pending[..n];
      pending := pending[n..];
      threw := false;
      if |chunk| > 0 {
        delivered := delivered + [chunk];
        threw := throws;
      }
      if !disposed && |pending| > 0 {
        timerSet := true;
      }
    }

    method OfferWork(units: seq<T>, throws: bool) returns (r: WorkResult)
      modifies this
      ensures View() == Step(old(View()), options, Offer(units))
      ensures r == Rejected <==> !HasRoom(old(View()), options, units)
      ensures r == Threw <==> throws && delivered != old(delivered)
    {
      if disposed {
        return Rejected;
      }
      if options.maxBufferedWork.Some? {
        if timerSet {
          if |pending| + |units| > options.maxBufferedWork.value {
            return Rejected;
          }
        } else if |pending| + |units| - options.maxWorkChunkSize > options.maxBufferedWork.value {
          return Rejected;
        }
      }
      pending := pending + units;
      accepted := accepted + units;
      if !timerSet {
        var threw := DoWorkNow(throws);
        if threw {
          return Threw;
        }
      }
      return Accepted;
    }

    method OnTimer(throws: bool) returns (threw: bool)
      requires timerSet
      modifies this
      ensures View() == Step(old(View()), options, TimerFires)
      ensures threw <==> throws && delivered != old(delivered)
    {
      timerSet := false;
      threw := DoWorkNow(throws);
    }

    method Dispose()
      modifies this
      ensures View() == Step(old(View()), options, Disposes)
    {
      disposed := true;
      if timerSet {
        timerSet := false;
      }
      pending := [];
    }
  }
}
