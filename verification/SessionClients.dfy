/** A live session (src/main/terminal-host/session.ts) as a single client, a single attach call and the flow of
    reads see it: what becomes of each over a run depends on few of its events. */
module SessionClients {
  import opened Wrappers
  import opened JsMap
  import opened Utf16
  import opened Bytes
  import opened ClientBroadcast
  import opened SessionModel
  import Queue = EmulatorQueue
  import Scanner = ShellReadyScanner

  // ----- one socket -----

  // The attach call that attached the socket last, and whether it has to drain.
  datatype Link = Link(token: Option<int>, awaited: bool)

  const UNLINKED := Link(None, false)

  function LinkOf(h: Hub, socket: Socket): Link {
    Link(Get(h.clients, socket), socket in h.awaiting)
  }

  // A socket that throws is detached; one that is full has to drain.
  function Answered(link: Link, answer: Answer): Link {
    match answer
    case Threw => UNLINKED
    case Wrote(canWrite) => link.(awaited := link.awaited || !canWrite)
  }

  // The event reaches the clients: an error, or output that was passed on.
  predicate Reaches(s: State, event: Event, decode: Decoder) {
    event.Notify? || |Step(s, event, decode).shell.pieces| > |s.shell.pieces|
  }

  // `calls` attach calls were made before the event.
  function NextLink(link: Link, calls: nat, event: Event, reaches: bool, socket: Socket): Link {
    match event
    case AttachCall(x) => if x == socket then link.(token := Some(calls)) else link
    case DetachCall(x) => if x == socket then UNLINKED else link
    case AttachCanceled(x, token) => if x == socket && link.token == Some(token) then UNLINKED else link
    case SocketDrained(x) => if x == socket then link.(awaited := false) else link
    case Data(_, answers) => if reaches && link.token.Some? then Answered(link, answers(socket)) else link
    case Notify(answers) => if link.token.Some? then Answered(link, answers(socket)) else link
    case ShellTimeout(answers) => if reaches && link.token.Some? then Answered(link, answers(socket)) else link
    case _ => link
  }

  function CallsIn(events: seq<Event>): nat {
    if events == [] then 0
    else CallsIn(events[..|events| - 1]) + if events[|events| - 1].AttachCall? then 1 else 0
  }

  // What the events make of a socket.
  function LinkAfter(hasMarker: bool, events: seq<Event>, decode: Decoder, socket: Socket): Link {
    if events == [] then UNLINKED
    else
      var n := |events| - 1;
      NextLink(LinkAfter(hasMarker, events[..n], decode, socket), CallsIn(events[..n]), events[n],
               Reaches(Run(Spawned(hasMarker), events[..n], decode), events[n], decode), socket)
  }

  lemma DeliverOneLink(h: Hub, x: Socket, token: int, text: Text, answer: Answer, socket: Socket)
    requires 0 <= token < |h.heard| && Distinct(h.clients)
    ensures var r := DeliverOne(h, x, token, text, answer);
      && Distinct(r.clients)
      && LinkOf(r, socket) == if x == socket then Answered(LinkOf(h, socket), answer) else LinkOf(h, socket)
  {
    DeleteLookup(h.clients, x);
    Deleting(h.clients, x);
  }

  lemma {:induction false} DeliverLink(h: Hub, pending: Entries<Socket, int>, text: Text, answers: Socket -> Answer, socket: Socket)
    requires InRange(pending, |h.heard|) && Distinct(h.clients) && Distinct(pending)
    ensures LinkOf(Deliver(h, pending, text, answers), socket) ==
            if Has(pending, socket) then Answered(LinkOf(h, socket), answers(socket)) else LinkOf(h, socket)
    decreases |pending|
  {
    hide DeliverOne, LinkOf, Answered;
    if pending == [] {
    } else {
      var (x, token) := pending[0];
      var first := DeliverOne(h, x, token, text, answers(x));
      DeliverOneLink(h, x, token, text, answers(x), socket);
      assert InRange(pending[1..], |first.heard|) by {
        assert forall i :: 0 <= i < |pending[1..]| ==> pending[1..][i] == pending[i + 1];
      }
      DeliverLink(first, pending[1..], text, answers, socket);
    }
  }

  lemma SendLink(s: State, text: Text, answers: Socket -> Answer, socket: Socket)
    requires InRange(s.hub.clients, |s.hub.heard|) && Distinct(s.hub.clients)
    ensures LinkOf(Send(s, text, answers).hub, socket) ==
            if LinkOf(s.hub, socket).token.Some? then Answered(LinkOf(s.hub, socket), answers(socket)) else LinkOf(s.hub, socket)
  {
    hide Answered, Deliver, InRange, Distinct;
    DeliverLink(s.hub, s.hub.clients, text, answers, socket);
    Lookup(s.hub.clients, socket);
  }

  lemma ForwardLink(s: State, bytes: seq<Byte>, answers: Socket -> Answer, decode: Decoder, socket: Socket)
    requires InRange(s.hub.clients, |s.hub.heard|) && Distinct(s.hub.clients)
    ensures var t := Forward(s, bytes, answers, decode);
      && |t.shell.pieces| == |s.shell.pieces| + 1
      && LinkOf(t.hub, socket) ==
         if LinkOf(s.hub, socket).token.Some? then Answered(LinkOf(s.hub, socket), answers(socket)) else LinkOf(s.hub, socket)
  {
    hide Answered, LinkOf, InRange, Distinct, Send, ClientBroadcast.Inv;
    var queued := s.(emulation := Queue.Enqueue(s.emulation, decode(bytes)), shell := Handed(s.shell, bytes));
    SendLink(queued, decode(bytes), answers, socket);
    ForwardOnly(s, bytes, answers, decode);
  }

  lemma Attachable(s: State)
    requires SessionModel.Inv(s)
    ensures InRange(s.hub.clients, |s.hub.heard|) && Distinct(s.hub.clients) && |s.hub.heard| == |s.emulation.since|
  {
    assert s.emulation.log + [] == s.emulation.log;
    BroadcastKeeps(s.hub, s.emulation.since, s.emulation.log, [], _ => Threw);
  }

  lemma AttachLink(h: Hub, x: Socket, token: int, socket: Socket)
    requires Distinct(h.clients)
    ensures LinkOf(Attach(h, x), socket) == if x == socket then LinkOf(h, socket).(token := Some(|h.heard|)) else LinkOf(h, socket)
    ensures LinkOf(Detach(h, x), socket) == if x == socket then UNLINKED else LinkOf(h, socket)
    ensures LinkOf(Cancel(h, x, token), socket) ==
            if x == socket && LinkOf(h, socket).token == Some(token) then UNLINKED else LinkOf(h, socket)
    ensures LinkOf(Drained(h, x), socket) == if x == socket then LinkOf(h, socket).(awaited := false) else LinkOf(h, socket)
  {
    SetLookup(h.clients, x, |h.heard|);
    DeleteLookup(h.clients, x);
  }

  lemma ReceiveLink(s: State, payload: seq<Byte>, answers: Socket -> Answer, decode: Decoder, socket: Socket)
    requires InRange(s.hub.clients, |s.hub.heard|) && Distinct(s.hub.clients)
    ensures var event := Data(payload, answers);
      LinkOf(Receive(s, payload, answers, decode).hub, socket) ==
      NextLink(LinkOf(s.hub, socket), |s.hub.heard|, event, Reaches(s, event, decode), socket)
  {
    hide LinkOf, Answered, InRange, Distinct, Forward, Scanner.Scan, Scanner.Valid;
    var got := s.(shell := s.shell.(received := s.shell.received + payload));
    ForwardLink(got, payload, answers, decode, socket);
    if Scanner.Valid(s.shell.scan) {
      var r := Scanner.Scan(s.shell.scan, payload);
      var scanned := got.(shell := got.shell.(scan := r.state, status := if r.matched then Ready else Pending));
      ForwardLink(scanned, r.output, answers, decode, socket);
    }
  }

  lemma TimeOutLink(s: State, answers: Socket -> Answer, decode: Decoder, socket: Socket)
    requires InRange(s.hub.clients, |s.hub.heard|) && Distinct(s.hub.clients)
    ensures var event := ShellTimeout(answers);
      LinkOf(TimeOut(s, answers, decode).hub, socket) ==
      NextLink(LinkOf(s.hub, socket), |s.hub.heard|, event, Reaches(s, event, decode), socket)
  {
    hide LinkOf, Answered, InRange, Distinct, Forward;
    var released := s.(shell := s.shell.(status := TimedOut, scan := Scanner.FRESH));
    ForwardLink(released, s.shell.scan.held, answers, decode, socket);
  }

  lemma StepLink(s: State, event: Event, decode: Decoder, socket: Socket)
    requires SessionModel.Inv(s)
    ensures LinkOf(Step(s, event, decode).hub, socket) ==
            NextLink(LinkOf(s.hub, socket), |s.hub.heard|, event, Reaches(s, event, decode), socket)
  {
    Attachable(s);
    hide SessionModel.Inv, LinkOf, Answered, InRange, Distinct, Receive, TimeOut, Send, Attach, Detach, Cancel, Drained, Queue.Turn;
    match event
    case Data(payload, answers) =>
      hide NextLink, Reaches;
      ReceiveLink(s, payload, answers, decode, socket);
    case ShellTimeout(answers) =>
      hide NextLink, Reaches;
      TimeOutLink(s, answers, decode, socket);
    case Notify(answers) => SendLink(s, [], answers, socket);
    case AttachCall(x) => AttachLink(s.hub, x, 0, socket);
    case DetachCall(x) => AttachLink(s.hub, x, 0, socket);
    case AttachCanceled(x, token) => AttachLink(s.hub, x, token, socket);
    case SocketDrained(x) => AttachLink(s.hub, x, 0, socket);
    case _ =>
  }

  lemma StepCalls(s: State, event: Event, decode: Decoder)
    ensures |Step(s, event, decode).emulation.since| == |s.emulation.since| + if event.AttachCall? then 1 else 0
  {
    match event
    case EmulatorTurn(budget) => Queue.StepHistory(s.emulation, budget, 0);
    case AttachCall(_) => Queue.StepHistory(s.emulation, 0, 0);
    case _ =>
  }

  lemma RunInv(hasMarker: bool, events: seq<Event>, decode: Decoder)
    ensures SessionModel.Inv(Run(Spawned(hasMarker), events, decode))
  {
    SpawnedInv(hasMarker);
    RunKeeps(Spawned(hasMarker), events, decode);
  }

  /** Over every run a socket is attached by the call that its own events say, and awaited as they say: nothing
      that another socket does, and no output that was not passed on, changes anything for it. */
  lemma {:induction false} ClientsFollow(hasMarker: bool, events: seq<Event>, decode: Decoder, socket: Socket)
    ensures var s := Run(Spawned(hasMarker), events, decode);
      LinkOf(s.hub, socket) == LinkAfter(hasMarker, events, decode, socket) && |s.emulation.since| == CallsIn(events)
  {
    hide SessionModel.Inv, Step, NextLink, LinkOf, Reaches;
    if events == [] {
      assert LinkOf(Spawned(hasMarker).hub, socket) == UNLINKED by { NobodyLinked(hasMarker, socket); }
    } else {
      var n := |events| - 1;
      var s := Run(Spawned(hasMarker), events[..n], decode);
      assert events == events[..n] + [events[n]];
      ClientsFollow(hasMarker, events[..n], decode, socket);
      RunSnoc(Spawned(hasMarker), events[..n], events[n], decode);
      RunInv(hasMarker, events[..n], decode);
      Attachable(s);
      StepLink(s, events[n], decode, socket);
      StepCalls(s, events[n], decode);
    }
  }

  lemma NobodyLinked(hasMarker: bool, socket: Socket)
    ensures LinkOf(Spawned(hasMarker).hub, socket) == UNLINKED
  {
  }

  // ----- one attach call -----

  datatype Boundary = Unmade | Waiting(target: nat) | Reached | GaveUp

  // `items` have been queued and `processed` of them processed after the event.
  function NextBoundary(b: Boundary, calls: nat, token: nat, event: Event, items: nat, processed: nat): Boundary {
    match b
    case Unmade =>
      if !(event.AttachCall? && calls == token) then Unmade else if processed >= items then Reached else Waiting(items)
    case Waiting(target) =>
      if event == BoundaryTimeout(token) then GaveUp else if processed >= target then Reached else b
    case _ => b
  }

  // What the events make of an attach call: its boundary is what was queued before it.
  function BoundaryAfter(hasMarker: bool, events: seq<Event>, decode: Decoder, token: nat): Boundary {
    if events == [] then Unmade
    else
      var n := |events| - 1;
      var s := Run(Spawned(hasMarker), events, decode);
      NextBoundary(BoundaryAfter(hasMarker, events[..n], decode, token), CallsIn(events[..n]), token, events[n],
                   |s.shell.pieces|, s.emulation.processed)
  }

  ghost predicate IsBoundary(e: Queue.Emulation, token: nat, b: Boundary) {
    match b
    case Unmade => token >= |e.since| && token !in e.reached && forall w :: w in e.waiters ==> w.token != token
    case Waiting(target) =>
      && token < |e.since| && token !in e.reached
      && forall w :: w in e.waiters && w.token == token <==> w == Queue.Waiter(token, target)
    case Reached => token < |e.since| && token in e.reached && forall w :: w in e.waiters ==> w.token != token
    case GaveUp => token < |e.since| && token !in e.reached && forall w :: w in e.waiters ==> w.token != token
  }

  // Every piece that was passed on is one item of the queue.
  ghost predicate Counted(s: State) {
    s.emulation.processed + |s.emulation.queue| == |s.shell.pieces|
  }

  lemma EnqueueWaits(e: Queue.Emulation, data: Text)
    ensures var n := Queue.Enqueue(e, data);
      && n.waiters == e.waiters && n.reached == e.reached && n.since == e.since && n.processed == e.processed
      && |n.queue| == |e.queue| + 1
  {
  }

  lemma ForwardWaits(s: State, bytes: seq<Byte>, answers: Socket -> Answer, decode: Decoder)
    ensures var t := Forward(s, bytes, answers, decode);
      t.emulation == Queue.Enqueue(s.emulation, decode(bytes)) && |t.shell.pieces| == |s.shell.pieces| + 1
  {
    hide Broadcast, InRange;
  }

  // Only turns, attach calls and timeouts touch what calls wait for.
  ghost predicate SameWaits(a: Queue.Emulation, b: Queue.Emulation) {
    a.waiters == b.waiters && a.reached == b.reached && a.since == b.since && a.processed == b.processed
  }

  lemma StepWaits(s: State, event: Event, decode: Decoder)
    requires SessionModel.Inv(s) && Counted(s)
    ensures Counted(Step(s, event, decode))
    ensures !event.EmulatorTurn? && !event.AttachCall? && !event.BoundaryTimeout? ==>
              SameWaits(s.emulation, Step(s, event, decode).emulation)
  {
    hide Forward, Queue.Turn, Queue.Mark, Queue.Enqueue, Queue.Inv, ClientBroadcast.Inv, ShellInv, Scanner.Scan, Broadcast, InRange,
      Attach, Detach, Cancel, Drained;
    match event
    case Data(payload, answers) =>
      EnqueueWaits(s.emulation, decode(payload));
      var got := s.(shell := s.shell.(received := s.shell.received + payload));
      ForwardWaits(got, payload, answers, decode);
      if Scanner.Valid(s.shell.scan) {
        var r := Scanner.Scan(s.shell.scan, payload);
        var scanned := got.(shell := got.shell.(scan := r.state, status := if r.matched then Ready else Pending));
        EnqueueWaits(s.emulation, decode(r.output));
        ForwardWaits(scanned, r.output, answers, decode);
      }
    case ShellTimeout(answers) =>
      var released := s.(shell := s.shell.(status := TimedOut, scan := Scanner.FRESH));
      EnqueueWaits(s.emulation, decode(s.shell.scan.held));
      ForwardWaits(released, s.shell.scan.held, answers, decode);
    case EmulatorTurn(budget) => Queue.TurnAdvances(s.emulation, budget);
    case AttachCall(_) => MarkCounts(s.emulation);
    case _ =>
  }

  lemma MarkCounts(e: Queue.Emulation)
    ensures Queue.Mark(e).queue == e.queue && Queue.Mark(e).processed == e.processed
  {
  }

  // A new call waits for what is queued, if anything is; nothing changes for the other calls.
  lemma MarkWaits(e: Queue.Emulation)
    requires Queue.Inv(e)
    ensures var n, token := Queue.Mark(e), |e.since|;
      && n.since == e.since + [|e.log|]
      && n.reached == (if e.queue == [] then e.reached + {token} else e.reached)
      && n.waiters == (if e.queue == [] then e.waiters else e.waiters + [Queue.Waiter(token, e.processed + |e.queue|)])
  {
    if e.queue != [] {
      var w := Queue.Waiter(|e.since|, e.processed + |e.queue|);
      var n := e.(since := e.since + [|e.log|], waiters := e.waiters + [w], scheduled := true);
      Queue.MarkedWaiters(e, n, w);
      hide Queue.ResolveReached, Queue.Inv;
      Queue.NothingReached(n);
    }
  }

  // What the invariant says of waiters.
  lemma Waiters(e: Queue.Emulation)
    requires Queue.Inv(e)
    ensures forall w :: w in e.waiters ==> w.token < |e.since| && w.token !in e.reached && e.processed < w.target
    ensures forall w, x :: w in e.waiters && x in e.waiters && w.token == x.token ==> w == x
    ensures forall t :: t in e.reached ==> t < |e.since|
  {
    assert forall w :: w in e.waiters ==> Queue.WaiterOk(e, w);
  }

  lemma TurnBoundary(e: Queue.Emulation, budget: nat, token: nat, b: Boundary)
    requires Queue.Inv(e) && IsBoundary(e, token, b)
    ensures var n := Queue.Turn(e, budget);
      IsBoundary(n, token, NextBoundary(b, 0, token, EmulatorTurn(budget), 0, n.processed))
  {
    hide Queue.Inv, Queue.Turn;
    Queue.TurnAdvances(e, budget);
    Queue.StepHistory(e, budget, 0);
    Waiters(e);
    var n := Queue.Turn(e, budget);
    if b.Waiting? {
      assert Queue.Waiter(token, b.target) in e.waiters;
      assert Queue.ReachedOf(e.waiters, token, n.processed) <==> b.target <= n.processed;
    } else {
      assert !Queue.ReachedOf(e.waiters, token, n.processed);
    }
  }

  lemma MarkBoundary(s: State, socket: Socket, token: nat, b: Boundary)
    requires Queue.Inv(s.emulation) && Counted(s) && IsBoundary(s.emulation, token, b)
    ensures var n := Queue.Mark(s.emulation);
      IsBoundary(n, token, NextBoundary(b, |s.emulation.since|, token, AttachCall(socket), |s.shell.pieces|, n.processed))
  {
    hide Queue.Inv, Queue.Mark;
    MarkWaits(s.emulation);
    MarkCounts(s.emulation);
    Waiters(s.emulation);
    assert b.Waiting? ==> Queue.Waiter(token, b.target) in s.emulation.waiters;
  }

  lemma GiveUpBoundary(e: Queue.Emulation, call: nat, token: nat, b: Boundary)
    requires Queue.Inv(e) && IsBoundary(e, token, b)
    ensures IsBoundary(Queue.GiveUp(e, call), token, NextBoundary(b, 0, token, BoundaryTimeout(call), 0, e.processed))
  {
    hide Queue.Inv;
    Queue.WithoutTokenMembers(e.waiters, call);
    Waiters(e);
    assert b.Waiting? ==> Queue.Waiter(token, b.target) in e.waiters;
  }

  lemma StepBoundary(s: State, event: Event, decode: Decoder, token: nat, b: Boundary)
    requires SessionModel.Inv(s) && Counted(s) && IsBoundary(s.emulation, token, b)
    ensures var t := Step(s, event, decode);
      IsBoundary(t.emulation, token, NextBoundary(b, |s.emulation.since|, token, event, |t.shell.pieces|, t.emulation.processed))
  {
    hide IsBoundary, Receive, TimeOut, Send, Queue.Turn, Queue.Mark, Queue.GiveUp, Queue.Inv, ClientBroadcast.Inv, ShellInv, Counted,
      Attach, Detach, Cancel, Drained;
    StepWaits(s, event, decode);
    match event
    case EmulatorTurn(budget) => TurnBoundary(s.emulation, budget, token, b);
    case AttachCall(socket) => MarkBoundary(s, socket, token, b);
    case BoundaryTimeout(call) =>
      GiveUpBoundary(s.emulation, call, token, b);
      assert Queue.GiveUp(s.emulation, call).processed == s.emulation.processed by { GivesUpOnly(s.emulation, call); }
    case _ => StillBoundary(s.emulation, Step(s, event, decode).emulation, token, b);
  }

  lemma GivesUpOnly(e: Queue.Emulation, call: nat)
    ensures Queue.GiveUp(e, call).processed == e.processed
  {
  }

  // While nothing is processed a boundary stays what it is.
  lemma StillBoundary(e: Queue.Emulation, n: Queue.Emulation, token: nat, b: Boundary)
    requires Queue.Inv(e) && SameWaits(e, n) && IsBoundary(e, token, b)
    ensures IsBoundary(n, token, b) && (b.Waiting? ==> n.processed < b.target)
  {
    hide Queue.Inv;
    Waiters(e);
    assert b.Waiting? ==> Queue.Waiter(token, b.target) in e.waiters;
  }

  /** Over every run an attach call's boundary is reached exactly if as many items as were queued before the call
      were processed before the call gave up; until then it waits, and no other call's end changes that. */
  lemma {:induction false} CallsFollow(hasMarker: bool, events: seq<Event>, decode: Decoder, token: nat)
    ensures var s := Run(Spawned(hasMarker), events, decode);
      Counted(s) && IsBoundary(s.emulation, token, BoundaryAfter(hasMarker, events, decode, token))
  {
    hide SessionModel.Inv, Step, NextBoundary, IsBoundary, Counted;
    if events == [] {
      NothingAwaited(hasMarker, token);
    } else {
      var n := |events| - 1;
      var s := Run(Spawned(hasMarker), events[..n], decode);
      assert events == events[..n] + [events[n]];
      CallsFollow(hasMarker, events[..n], decode, token);
      ClientsFollow(hasMarker, events[..n], decode, Socket(0));
      RunSnoc(Spawned(hasMarker), events[..n], events[n], decode);
      RunInv(hasMarker, events[..n], decode);
      StepBoundary(s, events[n], decode, token, BoundaryAfter(hasMarker, events[..n], decode, token));
      StepWaits(s, events[n], decode);
    }
  }

  lemma NothingAwaited(hasMarker: bool, token: nat)
    ensures Counted(Spawned(hasMarker)) && IsBoundary(Spawned(hasMarker).emulation, token, Unmade)
  {
  }

  // ----- the flow of reads -----

  // Backpressure starts at the high mark and ends at the low one.
  function LagAfter(hasMarker: bool, events: seq<Event>, decode: Decoder): bool {
    if events == [] then false
    else
      var bytes := TotalBytes(Run(Spawned(hasMarker), events, decode).emulation.queue);
      if bytes >= 1_000_000 then true
      else if bytes <= 250_000 then false
      else LagAfter(hasMarker, events[..|events| - 1], decode)
  }

  lemma ForwardLag(s: State, bytes: seq<Byte>, answers: Socket -> Answer, decode: Decoder)
    ensures var t := Forward(s, bytes, answers, decode).emulation;
      && t.queuedBytes >= s.emulation.queuedBytes
      && t.backpressured == (s.emulation.backpressured || t.queuedBytes >= Queue.HIGH_WATERMARK_BYTES)
  {
    hide Broadcast, InRange, ByteLength;
  }

  // What a step may do to the lag: queue more, which starts it at the high mark, or process, which ends it at the low one.
  ghost predicate LagMoves(e: Queue.Emulation, t: Queue.Emulation) {
    || (t.queuedBytes >= e.queuedBytes && t.backpressured == (e.backpressured || t.queuedBytes >= Queue.HIGH_WATERMARK_BYTES))
    || t.backpressured == (e.backpressured && t.queuedBytes > Queue.LOW_WATERMARK_BYTES)
    || (t.backpressured == e.backpressured && t.queuedBytes == e.queuedBytes)
  }

  lemma StepLagMoves(s: State, event: Event, decode: Decoder)
    ensures LagMoves(s.emulation, Step(s, event, decode).emulation)
  {
    hide Forward, Queue.Turn, Scanner.Scan, Scanner.Valid, Broadcast, InRange, Attach, Detach, Cancel, Drained;
    match event
    case Data(payload, answers) =>
      var got := s.(shell := s.shell.(received := s.shell.received + payload));
      ForwardLag(got, payload, answers, decode);
      if Scanner.Valid(s.shell.scan) {
        var r := Scanner.Scan(s.shell.scan, payload);
        var scanned := got.(shell := got.shell.(scan := r.state, status := if r.matched then Ready else Pending));
        ForwardLag(scanned, r.output, answers, decode);
      }
    case ShellTimeout(answers) =>
      var released := s.(shell := s.shell.(status := TimedOut, scan := Scanner.FRESH));
      ForwardLag(released, s.shell.scan.held, answers, decode);
    case EmulatorTurn(budget) => TurnLag(s.emulation, budget);
    case _ =>
  }

  lemma StepLag(s: State, event: Event, decode: Decoder)
    requires SessionModel.Inv(s)
    ensures var t := Step(s, event, decode).emulation;
      && t.queuedBytes == TotalBytes(t.queue)
      && t.backpressured ==
         if t.queuedBytes >= 1_000_000 then true
         else if t.queuedBytes <= 250_000 then false else s.emulation.backpressured
  {
    StepKeeps(s, event, decode);
    QueueLag(s);
    QueueLag(Step(s, event, decode));
    hide SessionModel.Inv, Step, TotalBytes;
    StepLagMoves(s, event, decode);
  }

  lemma QueueLag(s: State)
    requires SessionModel.Inv(s)
    ensures var e := s.emulation;
      && e.queuedBytes == TotalBytes(e.queue)
      && (e.backpressured ==> e.queuedBytes > 250_000) && (!e.backpressured ==> e.queuedBytes < 1_000_000)
  {
  }

  lemma TurnLag(e: Queue.Emulation, budget: nat)
    ensures var t := Queue.Turn(e, budget);
      t.backpressured == (e.backpressured && t.queuedBytes > Queue.LOW_WATERMARK_BYTES)
  {
    Queue.LoopSchedule(e, budget);
  }

  /** Over every run backpressure is the hysteresis of the size of the queue between the two marks. */
  lemma {:induction false} LagFollows(hasMarker: bool, events: seq<Event>, decode: Decoder)
    ensures Run(Spawned(hasMarker), events, decode).emulation.backpressured == LagAfter(hasMarker, events, decode)
  {
    hide SessionModel.Inv, Step, TotalBytes;
    if events == [] {
    } else {
      var n := |events| - 1;
      assert events == events[..n] + [events[n]];
      LagFollows(hasMarker, events[..n], decode);
      RunSnoc(Spawned(hasMarker), events[..n], events[n], decode);
      RunInv(hasMarker, events[..n], decode);
      StepLag(Run(Spawned(hasMarker), events[..n], decode), events[n], decode);
    }
  }

  function Drains(sockets: seq<Socket>): seq<Event> {
    if sockets == [] then [] else Drains(sockets[..|sockets| - 1]) + [SocketDrained(sockets[|sockets| - 1])]
  }

  lemma {:induction false} DrainsKeep(s: State, sockets: seq<Socket>, decode: Decoder)
    ensures var t := Run(s, Drains(sockets), decode);
      t.emulation == s.emulation && t.hub.awaiting == s.hub.awaiting - set x | x in sockets
  {
    if sockets == [] {
    } else {
      var n := |sockets| - 1;
      assert sockets == sockets[..n] + [sockets[n]];
      DrainsKeep(s, sockets[..n], decode);
      RunSnoc(s, Drains(sockets[..n]), SocketDrained(sockets[n]), decode);
    }
  }

  /** Reads never stay paused for good: once the awaited sockets have drained, in any order, a turn that the clock
      allows enough passes resumes them. */
  lemma ReadsResume(hasMarker: bool, events: seq<Event>, decode: Decoder, sockets: seq<Socket>, budget: nat)
    requires var s := Run(Spawned(hasMarker), events, decode);
      (forall x :: x in s.hub.awaiting ==> x in sockets) && Queue.Work(s.emulation.queue) <= budget
    ensures !Run(Spawned(hasMarker), events + (Drains(sockets) + [EmulatorTurn(budget)]), decode).stdoutPaused
  {
    hide SessionModel.Inv, Queue.Turn, Queue.Work;
    var s := Run(Spawned(hasMarker), events, decode);
    var t := Run(s, Drains(sockets), decode);
    RunInv(hasMarker, events, decode);
    RunAppend(Spawned(hasMarker), events, Drains(sockets) + [EmulatorTurn(budget)], decode);
    RunSnoc(s, Drains(sockets), EmulatorTurn(budget), decode);
    DrainsKeep(s, sockets, decode);
    QueueInv(s);
    Queue.TurnCatchesUp(s.emulation, budget);
  }

  lemma QueueInv(s: State)
    requires SessionModel.Inv(s)
    ensures Queue.Inv(s.emulation)
  {
  }
}
