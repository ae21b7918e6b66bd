/** A live terminal session (src/main/terminal-host/session.ts) as a state machine, one step for each
    turn of the event loop, from the spawn of its subprocess to its exit: PTY output passes the
    shell-ready scanner, is queued for the headless emulator and broadcast to the attached clients;
    reading from the subprocess is paused while a client has to drain or the emulator lags behind. */
module SessionModel {
  import opened Wrappers
  import opened Bytes
  import opened JsMap
  import opened Utf16
  import opened ClientBroadcast
  import Queue = EmulatorQueue
  import Scanner = ShellReadyScanner

  datatype ShellReady = Pending | Ready | TimedOut | Unsupported

  datatype Shell = Shell(
    status: ShellReady,
    scan: Scanner.ScanState,
    received: seq<Byte>,        // all PTY output
    forwarded: seq<Byte>,       // what was decoded and passed on
    pieces: seq<seq<Byte>>      // the same, piece by piece
  )

  datatype State = State(emulation: Queue.Emulation, hub: Hub, shell: Shell, stdoutPaused: bool)

  // `decode` stands for the conversion of bytes to text.
  type Decoder = seq<Byte> -> Text

  function Spawned(hasMarker: bool): State {
    State(Queue.Emulation([], 0, false, false, 0, [], [], [], [], {}), Hub([], {}, []),
          Shell(if hasMarker then Pending else Unsupported, Scanner.FRESH, [], [], []), false)
  }

  datatype Event =
    | Data(payload: seq<Byte>, answers: Socket -> Answer)
    | Notify(answers: Socket -> Answer)               // an error event is broadcast
    | EmulatorTurn(budget: nat)
    | AttachCall(socket: Socket)
    | BoundaryTimeout(call: nat)
    | AttachCanceled(socket: Socket, token: int)
    | DetachCall(socket: Socket)
    | SocketDrained(socket: Socket)
    | ShellTimeout(answers: Socket -> Answer)

  function WithFlow(s: State): State {
    s.(stdoutPaused := s.hub.awaiting != {} || s.emulation.backpressured)
  }

  function Send(s: State, text: Text, answers: Socket -> Answer): State {
    if InRange(s.hub.clients, |s.hub.heard|) then WithFlow(s.(hub := Broadcast(s.hub, text, answers))) else s
  }

  function Handed(shell: Shell, bytes: seq<Byte>): Shell {
    shell.(forwarded := shell.forwarded + bytes, pieces := shell.pieces + [bytes])
  }

  function Forward(s: State, bytes: seq<Byte>, answers: Socket -> Answer, decode: Decoder): State {
    var queued := s.(emulation := Queue.Enqueue(s.emulation, decode(bytes)), shell := Handed(s.shell, bytes));
    Send(queued, decode(bytes), answers)
  }

  function Receive(s: State, payload: seq<Byte>, answers: Socket -> Answer, decode: Decoder): State {
    var got := s.(shell := s.shell.(received := s.shell.received + payload));
    if payload == [] then s
    else if s.shell.status.Pending? && Scanner.Valid(s.shell.scan) then
      var r := Scanner.Scan(s.shell.scan, payload);
      var scanned := got.(shell := got.shell.(scan := r.state, status := if r.matched then Ready else Pending));
      if r.output == [] then scanned else Forward(scanned, r.output, answers, decode)
    else Forward(got, payload, answers, decode)
  }

  function TimeOut(s: State, answers: Socket -> Answer, decode: Decoder): State {
    if !s.shell.status.Pending? then s
    else
      var held := s.shell.scan.held;
      var released := s.(shell := s.shell.(status := TimedOut, scan := Scanner.FRESH));
      if held == [] then released else Forward(released, held, answers, decode)
  }

  function Step(s: State, event: Event, decode: Decoder): State {
    match event
    case Data(payload, answers) => Receive(s, payload, answers, decode)
    case Notify(answers) => Send(s, [], answers)
    case EmulatorTurn(budget) => WithFlow(s.(emulation := Queue.Turn(s.emulation, budget)))
    case AttachCall(socket) => s.(emulation := Queue.Mark(s.emulation), hub := Attach(s.hub, socket))
    case BoundaryTimeout(call) => s.(emulation := Queue.GiveUp(s.emulation, call))
    case AttachCanceled(socket, token) => WithFlow(s.(hub := Cancel(s.hub, socket, token)))
    case DetachCall(socket) => WithFlow(s.(hub := Detach(s.hub, socket)))
    case SocketDrained(socket) => WithFlow(s.(hub := Drained(s.hub, socket)))
    case ShellTimeout(answers) => TimeOut(s, answers, decode)
  }

  function Run(s: State, events: seq<Event>, decode: Decoder): State
    decreases |events|
  {
    if events == [] then s else Run(Step(s, events[0], decode), events[1..], decode)
  }

  // ----- the invariant of every run -----

  // Before the marker what was passed on and what is held is the output; after it, what was passed on
  // is the output without its first marker; if it never came, nothing is missing.
  ghost predicate ShellInv(shell: Shell) {
    match shell.status
    case Pending => Scanner.Tracks(shell.received, shell.forwarded, shell.scan)
    case Ready =>
      exists start: nat, bel: nat :: Scanner.FirstReady(shell.received, start, bel) &&
        shell.forwarded == Scanner.Without(shell.received, start, bel)
    case TimedOut => shell.forwarded == shell.received
    case Unsupported => shell.forwarded == shell.received
  }

  ghost predicate Inv(s: State) {
    && Queue.Inv(s.emulation)
    && ClientBroadcast.Inv(s.hub, s.emulation.since, s.emulation.log)
    && ShellInv(s.shell)
    && (s.stdoutPaused <==> s.hub.awaiting != {} || s.emulation.backpressured)
  }

  lemma SpawnedInv(hasMarker: bool)
    ensures Inv(Spawned(hasMarker))
  {
    var s := Spawned(hasMarker);
    assert Scanner.Tracks([], [], Scanner.FRESH);
    assert Concat<Utf16.CodeUnit>([]) == [];
  }

  lemma SendKeeps(s: State, text: Text, answers: Socket -> Answer)
    requires Queue.Inv(s.emulation) && ShellInv(s.shell)
    requires exists log: Text :: ClientBroadcast.Inv(s.hub, s.emulation.since, log) && log + text == s.emulation.log
    ensures Inv(Send(s, text, answers)) && Send(s, text, answers).emulation == s.emulation && Send(s, text, answers).shell == s.shell
  {
    hide Queue.Inv, ClientBroadcast.Inv, ShellInv, Broadcast;
    var log: Text :| ClientBroadcast.Inv(s.hub, s.emulation.since, log) && log + text == s.emulation.log;
    BroadcastKeeps(s.hub, s.emulation.since, log, text, answers);
  }

  lemma ForwardKeeps(s: State, bytes: seq<Byte>, answers: Socket -> Answer, decode: Decoder)
    requires Queue.Inv(s.emulation) && ClientBroadcast.Inv(s.hub, s.emulation.since, s.emulation.log)
    requires ShellInv(Handed(s.shell, bytes))
    ensures Inv(Forward(s, bytes, answers, decode))
    ensures Forward(s, bytes, answers, decode).emulation == Queue.Enqueue(s.emulation, decode(bytes))
    ensures Forward(s, bytes, answers, decode).shell == Handed(s.shell, bytes)
  {
    hide Queue.Inv, ClientBroadcast.Inv, ShellInv;
    Queue.EnqueueKeeps(s.emulation, decode(bytes));
    var queued := s.(emulation := Queue.Enqueue(s.emulation, decode(bytes)), shell := Handed(s.shell, bytes));
    assert queued.emulation.log == s.emulation.log + decode(bytes);
    SendKeeps(queued, decode(bytes), answers);
  }

  lemma FirstReadyExtends(s: seq<Byte>, more: seq<Byte>, start: nat, bel: nat)
    requires Scanner.FirstReady(s, start, bel)
    ensures Scanner.FirstReady(s + more, start, bel)
    ensures Scanner.Without(s + more, start, bel) == Scanner.Without(s, start, bel) + more
  {
    var n := |Scanner.MARKER|;
    assert (s + more)[start..start + n] == s[start..start + n];
    forall i | Scanner.MarkerAt(s + more, i)
      ensures start <= i
    {
      if i < start {
        Scanner.MarkerEarlier(s, s + more, i);
      }
    }
    assert (s + more)[bel + 1..] == s[bel + 1..] + more;
    assert (s + more)[..start] == s[..start];
    ConcatAssociates(s[..start], s[bel + 1..], more);
  }

  lemma PassedOn(shell: Shell, payload: seq<Byte>)
    requires ShellInv(shell) && !shell.status.Pending?
    ensures ShellInv(Handed(shell.(received := shell.received + payload), payload))
  {
    if shell.status.Ready? {
      var start: nat, bel: nat :| Scanner.FirstReady(shell.received, start, bel) &&
                                  shell.forwarded == Scanner.Without(shell.received, start, bel);
      FirstReadyExtends(shell.received, payload, start, bel);
    }
  }

  lemma ScannedOn(shell: Shell, payload: seq<Byte>)
    requires ShellInv(shell) && shell.status.Pending?
    ensures Scanner.Valid(shell.scan)
    ensures var r := Scanner.Scan(shell.scan, payload);
      var passed := Shell(if r.matched then Ready else Pending, r.state, shell.received + payload, shell.forwarded + r.output,
                          shell.pieces);
      ShellInv(passed) && ShellInv(passed.(pieces := shell.pieces + [r.output]))
  {
    hide Scanner.Scan, Scanner.FirstReady, Scanner.Without;
    Scanner.ScanFrom(shell.received, shell.forwarded, shell.scan, payload);
  }

  lemma ReceiveKeeps(s: State, payload: seq<Byte>, answers: Socket -> Answer, decode: Decoder)
    requires Inv(s)
    ensures Inv(Receive(s, payload, answers, decode))
  {
    if payload != [] {
      var got := s.(shell := s.shell.(received := s.shell.received + payload));
      if s.shell.status.Pending? {
        ScannedOn(s.shell, payload);
        hide ShellInv, Queue.Inv, ClientBroadcast.Inv, Forward;
        var r := Scanner.Scan(s.shell.scan, payload);
        var scanned := got.(shell := got.shell.(scan := r.state, status := if r.matched then Ready else Pending));
        assert s.shell.forwarded + [] == s.shell.forwarded;
        if r.output != [] {
          ForwardKeeps(scanned, r.output, answers, decode);
        }
      } else {
        PassedOn(s.shell, payload);
        hide ShellInv, Queue.Inv, ClientBroadcast.Inv, Forward;
        ForwardKeeps(got, payload, answers, decode);
      }
    }
  }

  lemma TimeOutKeeps(s: State, answers: Socket -> Answer, decode: Decoder)
    requires Inv(s)
    ensures Inv(TimeOut(s, answers, decode))
  {
    if s.shell.status.Pending? {
      var held := s.shell.scan.held;
      var released := s.(shell := s.shell.(status := TimedOut, scan := Scanner.FRESH));
      assert s.shell.forwarded + held == s.shell.received;
      if held != [] {
        hide Forward;
        ForwardKeeps(released, held, answers, decode);
      } else {
        assert s.shell.forwarded + [] == s.shell.forwarded;
      }
    }
  }

  lemma StepKeeps(s: State, event: Event, decode: Decoder)
    requires Inv(s)
    ensures Inv(Step(s, event, decode))
  {
    var since, log := s.emulation.since, s.emulation.log;
    hide Queue.Inv, ShellInv, Queue.Turn, Queue.Mark, Queue.GiveUp, Receive, TimeOut, Send, Attach, Detach;
    match event
    case Data(payload, answers) => ReceiveKeeps(s, payload, answers, decode);
    case Notify(answers) =>
      assert log + [] == log;
      SendKeeps(s, [], answers);
    case EmulatorTurn(budget) =>
      hide ClientBroadcast.Inv;
      Queue.TurnKeeps(s.emulation, budget);
      Queue.StepHistory(s.emulation, budget, 0);
    case AttachCall(socket) =>
      hide ClientBroadcast.Inv;
      Queue.MarkKeeps(s.emulation);
      Queue.StepHistory(s.emulation, 0, 0);
      AttachKeeps(s.hub, since, log, socket);
      AttachFlow(s, socket);
    case BoundaryTimeout(call) =>
      hide ClientBroadcast.Inv;
      Queue.GiveUpKeeps(s.emulation, call);
      Queue.StepHistory(s.emulation, 0, call);
      AttachFlow(s, Socket(0));
    case AttachCanceled(socket, token) =>
      hide ClientBroadcast.Inv;
      DetachKeeps(s.hub, since, log, socket);
    case DetachCall(socket) =>
      hide ClientBroadcast.Inv;
      DetachKeeps(s.hub, since, log, socket);
    case SocketDrained(socket) =>
      DrainedKeeps(s.hub, since, log, socket);
    case ShellTimeout(answers) => TimeOutKeeps(s, answers, decode);
  }

  // Attach calls do not touch the flow of PTY reads.
  lemma AttachFlow(s: State, socket: Socket)
    ensures Attach(s.hub, socket).awaiting == s.hub.awaiting
    ensures Queue.Mark(s.emulation).backpressured == s.emulation.backpressured
    ensures forall call :: Queue.GiveUp(s.emulation, call).backpressured == s.emulation.backpressured
  {
  }

  lemma {:induction false} RunKeeps(s: State, events: seq<Event>, decode: Decoder)
    requires Inv(s)
    ensures Inv(Run(s, events, decode))
    decreases |events|
  {
    hide Inv, Step;
    if events == [] {
    } else {
      StepKeeps(s, events[0], decode);
      RunKeeps(Step(s, events[0], decode), events[1..], decode);
    }
  }

  // ----- what every run of a live session guarantees -----

  // The log only grows, and an attach call keeps the place at which it was made.
  ghost predicate Grows(a: Queue.Emulation, b: Queue.Emulation) {
    a.log <= b.log && a.since <= b.since
  }

  lemma StepGrows(s: State, event: Event, decode: Decoder)
    ensures Grows(s.emulation, Step(s, event, decode).emulation)
  {
    match event
    case EmulatorTurn(budget) => Queue.StepHistory(s.emulation, budget, 0);
    case _ =>
  }

  lemma {:induction false} RunGrows(s: State, events: seq<Event>, decode: Decoder)
    ensures Grows(s.emulation, Run(s, events, decode).emulation)
    decreases |events|
  {
    hide Step;
    if events == [] {
    } else {
      StepGrows(s, events[0], decode);
      RunGrows(Step(s, events[0], decode), events[1..], decode);
    }
  }

  /** Flow control: after any run, PTY reads are paused exactly when an attached client has to drain
      or the emulator is backpressured; backpressure starts at the high mark, lasts until the backlog
      is at most the low mark, and never without a scheduled turn to work the backlog off. The byte
      counter is the exact size of the queued text. */
  lemma FlowControl(hasMarker: bool, events: seq<Event>, decode: Decoder)
    ensures var s := Run(Spawned(hasMarker), events, decode);
      && (s.stdoutPaused <==> s.hub.awaiting != {} || s.emulation.backpressured)
      && (forall socket :: socket in s.hub.awaiting ==> Has(s.hub.clients, socket))
      && s.emulation.queuedBytes == TotalBytes(s.emulation.queue)
      && (s.emulation.backpressured ==> s.emulation.queuedBytes > Queue.LOW_WATERMARK_BYTES && s.emulation.scheduled)
      && (!s.emulation.backpressured ==> s.emulation.queuedBytes < Queue.HIGH_WATERMARK_BYTES)
  {
    SpawnedInv(hasMarker);
    RunKeeps(Spawned(hasMarker), events, decode);
    var s := Run(Spawned(hasMarker), events, decode);
    hide Run, Spawned;
    forall socket | socket in s.hub.awaiting
      ensures Has(s.hub.clients, socket)
    {
      Lookup(s.hub.clients, socket);
    }
  }

  /** Nothing is lost on the way to the emulator: after any run its input followed by the queue is the
      enqueued text in order. */
  lemma EmulatorInput(hasMarker: bool, events: seq<Event>, decode: Decoder)
    ensures var s := Run(Spawned(hasMarker), events, decode);
      s.emulation.written + Concat(s.emulation.queue) == s.emulation.log
  {
    SpawnedInv(hasMarker);
    RunKeeps(Spawned(hasMarker), events, decode);
  }

  /** No gap: take a snapshot at any time after an attach call's boundary was reached, run on in any
      way, and let the client still be attached by that call. Then the snapshot has all text enqueued
      before the call, the client was sent exactly the text enqueued after it, and the snapshot
      continued by that part of the broadcast it does not yet hold is all the text there is. */
  lemma SnapshotHasNoGap(hasMarker: bool, before: seq<Event>, after: seq<Event>, socket: Socket, token: nat, decode: Decoder)
    requires token in Run(Spawned(hasMarker), before, decode).emulation.reached
    requires Get(Run(Run(Spawned(hasMarker), before, decode), after, decode).hub.clients, socket) == Some(token)
    ensures var s := Run(Spawned(hasMarker), before, decode);
      var t := Run(s, after, decode);
      && token < |s.emulation.since| && token < |t.hub.heard|
      && var start := s.emulation.since[token];
      && start <= |s.emulation.written| <= |t.emulation.log|
      && t.hub.heard[token] == t.emulation.log[start..]
      && s.emulation.written + t.hub.heard[token][|s.emulation.written| - start..] == t.emulation.log
  {
    var s := Run(Spawned(hasMarker), before, decode);
    var t := Run(s, after, decode);
    SpawnedInv(hasMarker);
    RunKeeps(Spawned(hasMarker), before, decode);
    RunKeeps(s, after, decode);
    RunGrows(s, after, decode);
    Joined(s, t, socket, token);
  }

  lemma Joined(s: State, t: State, socket: Socket, token: nat)
    requires Inv(s) && Inv(t) && Grows(s.emulation, t.emulation)
    requires token in s.emulation.reached && Get(t.hub.clients, socket) == Some(token)
    ensures token < |s.emulation.since| && token < |t.hub.heard|
    ensures var start := s.emulation.since[token];
      && start <= |s.emulation.written| <= |t.emulation.log|
      && t.hub.heard[token] == t.emulation.log[start..]
      && s.emulation.written + t.hub.heard[token][|s.emulation.written| - start..] == t.emulation.log
  {
    hide ShellInv;
    Queue.ReachedHasAll(s.emulation, token);
    Lookup(t.hub.clients, socket);
    hide AsMap, Distinct;
    var start, n, log := s.emulation.since[token], |s.emulation.written|, t.emulation.log;
    assert t.emulation.since[token] == start;
    assert log + [] == log;
    assert t.hub.heard[token] == From(log, start) == log[start..];
    assert s.emulation.written <= s.emulation.log <= log;
    hide Queue.Inv, ClientBroadcast.Inv;
    JoinedParts(log, s.emulation.written, start);
  }

  lemma JoinedParts(log: Text, written: Text, start: nat)
    requires start <= |written| && written <= log
    ensures written + log[start..][|written| - start..] == log
  {
    assert log[start..][|written| - start..] == log[|written|..];
  }

  // ----- what the text is made from -----

  function Decoded(pieces: seq<seq<Byte>>, decode: Decoder): Text {
    if pieces == [] then [] else Decoded(pieces[..|pieces| - 1], decode) + decode(pieces[|pieces| - 1])
  }

  // The text queued so far is the PTY output that was passed on, decoded piece by piece.
  ghost predicate FromPty(s: State, decode: Decoder) {
    && Concat(s.shell.pieces) == s.shell.forwarded
    && Decoded(s.shell.pieces, decode) == s.emulation.log
  }

  lemma ForwardFromPty(s: State, bytes: seq<Byte>, answers: Socket -> Answer, decode: Decoder)
    requires FromPty(s, decode)
    ensures FromPty(Forward(s, bytes, answers, decode), decode)
  {
    hide Broadcast, InRange;
    ConcatSnoc(s.shell.pieces, bytes);
    var pieces := s.shell.pieces + [bytes];
    assert pieces[..|pieces| - 1] == s.shell.pieces;
  }

  lemma StepFromPty(s: State, event: Event, decode: Decoder)
    requires FromPty(s, decode)
    ensures FromPty(Step(s, event, decode), decode)
  {
    hide Decoded, Concat, Forward, Broadcast, InRange, Queue.Turn, Attach, Detach, Cancel, Drained, Scanner.Scan, Scanner.Valid;
    match event
    case Data(payload, answers) =>
      var got := s.(shell := s.shell.(received := s.shell.received + payload));
      ForwardFromPty(got, payload, answers, decode);
      if Scanner.Valid(s.shell.scan) {
        var r := Scanner.Scan(s.shell.scan, payload);
        var scanned := got.(shell := got.shell.(scan := r.state, status := if r.matched then Ready else Pending));
        ForwardFromPty(scanned, r.output, answers, decode);
      }
    case ShellTimeout(answers) =>
      var released := s.(shell := s.shell.(status := TimedOut, scan := Scanner.FRESH));
      ForwardFromPty(released, s.shell.scan.held, answers, decode);
    case EmulatorTurn(budget) => Queue.StepHistory(s.emulation, budget, 0);
    case _ =>
  }

  lemma SpawnedFromPty(hasMarker: bool, decode: Decoder)
    ensures FromPty(Spawned(hasMarker), decode)
  {
  }

  lemma {:induction false} RunFromPty(s: State, events: seq<Event>, decode: Decoder)
    requires FromPty(s, decode)
    ensures FromPty(Run(s, events, decode), decode)
    decreases |events|
  {
    hide FromPty, Step;
    if events == [] {
    } else {
      StepFromPty(s, events[0], decode);
      RunFromPty(Step(s, events[0], decode), events[1..], decode);
    }
  }

  // ----- what the output is -----

  function PayloadOf(event: Event): seq<Byte> {
    if event.Data? then event.payload else []
  }

  // All PTY output of a run.
  function Payloads(events: seq<Event>): seq<Byte> {
    if events == [] then [] else Payloads(events[..|events| - 1]) + PayloadOf(events[|events| - 1])
  }

  lemma {:induction false} RunAppend(s: State, a: seq<Event>, b: seq<Event>, decode: Decoder)
    ensures Run(s, a + b, decode) == Run(Run(s, a, decode), b, decode)
    decreases |a|
  {
    hide Step;
    if a == [] {
      assert a + b == b;
    } else {
      assert (a + b)[0] == a[0] && (a + b)[1..] == a[1..] + b;
      RunAppend(Step(s, a[0], decode), a[1..], b, decode);
    }
  }

  lemma RunSnoc(s: State, events: seq<Event>, event: Event, decode: Decoder)
    ensures Run(s, events + [event], decode) == Step(Run(s, events, decode), event, decode)
  {
    hide Step;
    RunAppend(s, events, [event], decode);
    var t := Run(s, events, decode);
    assert [event][1..] == [];
    assert Run(t, [event], decode) == Run(Step(t, event, decode), [], decode);
  }

  lemma ForwardOnly(s: State, bytes: seq<Byte>, answers: Socket -> Answer, decode: Decoder)
    ensures Forward(s, bytes, answers, decode).shell == Handed(s.shell, bytes)
  {
    hide Broadcast, InRange;
  }

  // Every byte is taken in, whether or not reads are paused, and after the wait for the marker every payload is
  // one piece.
  lemma StepReceives(s: State, event: Event, decode: Decoder)
    ensures var shell := Step(s, event, decode).shell;
      && shell.received == s.shell.received + PayloadOf(event)
      && (!s.shell.status.Pending? ==>
            shell.status == s.shell.status
            && shell.pieces == s.shell.pieces + (if PayloadOf(event) == [] then [] else [PayloadOf(event)]))
      && |shell.pieces| <= |s.shell.pieces| + 1
  {
    hide Forward, Broadcast, InRange, Queue.Turn, Attach, Detach, Cancel, Drained, Scanner.Scan, Scanner.Valid;
    match event
    case Data(payload, answers) =>
      var got := s.(shell := s.shell.(received := s.shell.received + payload));
      ForwardOnly(got, payload, answers, decode);
      if Scanner.Valid(s.shell.scan) {
        var r := Scanner.Scan(s.shell.scan, payload);
        var scanned := got.(shell := got.shell.(scan := r.state, status := if r.matched then Ready else Pending));
        ForwardOnly(scanned, r.output, answers, decode);
      }
    case ShellTimeout(answers) =>
      var released := s.(shell := s.shell.(status := TimedOut, scan := Scanner.FRESH));
      ForwardOnly(released, s.shell.scan.held, answers, decode);
    case _ =>
  }

  /** All output of the PTY is taken in, in order, also what arrives while reads are paused. */
  lemma {:induction false} AllReceived(hasMarker: bool, events: seq<Event>, decode: Decoder)
    ensures Run(Spawned(hasMarker), events, decode).shell.received == Payloads(events)
  {
    hide Step;
    if events == [] {
    } else {
      var n := |events| - 1;
      assert events == events[..n] + [events[n]];
      AllReceived(hasMarker, events[..n], decode);
      RunSnoc(Spawned(hasMarker), events[..n], events[n], decode);
      StepReceives(Run(Spawned(hasMarker), events[..n], decode), events[n], decode);
    }
  }

  function PayloadList(events: seq<Event>): seq<seq<Byte>> {
    if events == [] then []
    else
      var n := |events| - 1;
      PayloadList(events[..n]) + if PayloadOf(events[n]) == [] then [] else [PayloadOf(events[n])]
  }

  /** Once no marker is waited for, what is decoded together is what arrived together. */
  lemma {:induction false} PiecesArePayloads(s: State, events: seq<Event>, decode: Decoder)
    requires !s.shell.status.Pending?
    ensures Run(s, events, decode).shell.pieces == s.shell.pieces + PayloadList(events)
    ensures Run(s, events, decode).shell.status == s.shell.status
  {
    hide Step;
    if events == [] {
    } else {
      var n := |events| - 1;
      assert events == events[..n] + [events[n]];
      PiecesArePayloads(s, events[..n], decode);
      RunSnoc(s, events[..n], events[n], decode);
      StepReceives(Run(s, events[..n], decode), events[n], decode);
    }
  }

  // ----- how the wait for the marker ends -----

  predicate TimesOut(events: seq<Event>) {
    exists i :: 0 <= i < |events| && events[i].ShellTimeout?
  }

  // The output before the first timeout.
  function Waited(events: seq<Event>): seq<Byte> {
    if events == [] then []
    else
      var n := |events| - 1;
      Waited(events[..n]) + if TimesOut(events[..n]) then [] else PayloadOf(events[n])
  }

  ghost predicate HasReady(output: seq<Byte>) {
    exists start: nat, bel: nat :: Scanner.FirstReady(output, start, bel)
  }

  ghost function StatusAfter(hasMarker: bool, events: seq<Event>): ShellReady {
    if !hasMarker then Unsupported
    else if HasReady(Waited(events)) then Ready
    else if TimesOut(events) then TimedOut
    else Pending
  }

  lemma TimesOutSnoc(events: seq<Event>, event: Event)
    ensures TimesOut(events + [event]) <==> TimesOut(events) || event.ShellTimeout?
    ensures (events + [event])[..|events|] == events
  {
    var all := events + [event];
    assert all[|events|] == event && forall i :: 0 <= i < |events| ==> all[i] == events[i];
  }

  lemma {:induction false} WaitedAll(events: seq<Event>)
    requires !TimesOut(events)
    ensures Waited(events) == Payloads(events)
  {
    if events == [] {
    } else {
      var n := |events| - 1;
      assert events == events[..n] + [events[n]];
      TimesOutSnoc(events[..n], events[n]);
      WaitedAll(events[..n]);
    }
  }

  lemma StillReady(output: seq<Byte>, more: seq<Byte>)
    requires HasReady(output)
    ensures HasReady(output + more)
  {
    hide Scanner.FirstReady;
    var start: nat, bel: nat :| Scanner.FirstReady(output, start, bel);
    FirstReadyExtends(output, more, start, bel);
  }

  // Of a state that keeps the invariant, what the scan of the output so far says.
  lemma ReadyIff(shell: Shell)
    requires ShellInv(shell)
    ensures shell.status.Ready? ==> HasReady(shell.received)
    ensures shell.status.Pending? ==> !HasReady(shell.received)
  {
    hide Scanner.FirstReady, Scanner.Tracks, Scanner.Without;
    if shell.status.Pending? {
      forall start: nat, bel: nat
        ensures !Scanner.FirstReady(shell.received, start, bel)
      {
        Scanner.TracksExcludesReady(shell.received, shell.forwarded, shell.scan, start, bel);
      }
    }
  }

  lemma StepStatus(s: State, event: Event, decode: Decoder)
    requires s.shell.status.Pending? && Inv(s)
    ensures var status := Step(s, event, decode).shell.status;
      if event.ShellTimeout? then status == TimedOut else status == Pending || (status == Ready && event.Data?)
  {
    hide Forward, Broadcast, InRange, Queue.Turn, Queue.Inv, ClientBroadcast.Inv, Attach, Detach, Cancel, Drained, Scanner.Scan;
    match event
    case Data(payload, answers) =>
      var got := s.(shell := s.shell.(received := s.shell.received + payload));
      var r := Scanner.Scan(s.shell.scan, payload);
      var scanned := got.(shell := got.shell.(scan := r.state, status := if r.matched then Ready else Pending));
      ForwardOnly(scanned, r.output, answers, decode);
    case ShellTimeout(answers) =>
      var released := s.(shell := s.shell.(status := TimedOut, scan := Scanner.FRESH));
      ForwardOnly(released, s.shell.scan.held, answers, decode);
    case _ =>
  }

  /** The wait for the marker ends with the first complete marker or with the first timeout, whichever comes
      first; without a marker to wait for there is no wait. */
  lemma {:induction false} StatusIs(hasMarker: bool, events: seq<Event>, decode: Decoder)
    ensures Run(Spawned(hasMarker), events, decode).shell.status == StatusAfter(hasMarker, events)
  {
    hide Step, Inv, HasReady, ShellInv, TimesOut, Scanner.FirstReady;
    if events == [] {
      assert !TimesOut([]) && !HasReady([]) by { NothingYet(); }
    } else {
      var n := |events| - 1;
      var s := Run(Spawned(hasMarker), events[..n], decode);
      var t := Step(s, events[n], decode);
      assert events == events[..n] + [events[n]];
      StatusIs(hasMarker, events[..n], decode);
      RunSnoc(Spawned(hasMarker), events[..n], events[n], decode);
      SpawnedInv(hasMarker);
      RunKeeps(Spawned(hasMarker), events[..n], decode);
      StepKeeps(s, events[n], decode);
      TimesOutSnoc(events[..n], events[n]);
      StepReceives(s, events[n], decode);
      AllReceived(hasMarker, events[..n], decode);
      assert Waited(events) == Waited(events[..n]) + if TimesOut(events[..n]) then [] else PayloadOf(events[n]);
      if s.shell.status.Pending? {
        WaitedAll(events[..n]);
        StepStatus(s, events[n], decode);
        assert ShellInv(t.shell) by { InvShell(t); }
        ReadyIff(t.shell);
        assert events[n].ShellTimeout? ==> Waited(events) == Waited(events[..n]);
      } else if s.shell.status.Ready? {
        StillReady(Waited(events[..n]), if TimesOut(events[..n]) then [] else PayloadOf(events[n]));
      } else {
        assert TimesOut(events[..n]) ==> Waited(events) == Waited(events[..n]);
      }
    }
  }

  lemma NothingYet()
    ensures !TimesOut([]) && !HasReady([])
  {
  }

  lemma InvShell(s: State)
    requires Inv(s)
    ensures ShellInv(s.shell)
  {
  }

  // What is passed on of the output of these events, and what is still held back.
  ghost predicate PassesOn(hasMarker: bool, events: seq<Event>, passed: seq<Byte>, held: seq<Byte>) {
    var output := Payloads(events);
    match StatusAfter(hasMarker, events)
    case Pending => passed + held == output
    case Ready =>
      exists start: nat, bel: nat :: Scanner.FirstReady(output, start, bel) && passed == Scanner.Without(output, start, bel)
    case _ => passed == output
  }

  lemma OutputPassed(hasMarker: bool, events: seq<Event>, decode: Decoder)
    ensures var shell := Run(Spawned(hasMarker), events, decode).shell;
      PassesOn(hasMarker, events, shell.forwarded, shell.scan.held)
  {
    hide Run, Queue.Inv, ClientBroadcast.Inv, StatusAfter, Payloads;
    SpawnedInv(hasMarker);
    RunKeeps(Spawned(hasMarker), events, decode);
    AllReceived(hasMarker, events, decode);
    StatusIs(hasMarker, events, decode);
  }

  /** What the emulator and the clients are given of the PTY output of a run. The text enqueued so far, which goes to
      both, is the decoded pieces of what was passed on, and that is all output if no marker is expected or none
      was complete before the timeout; all but the first marker if it was; and all but the bytes still held
      while the wait goes on. */
  lemma ShellOutput(hasMarker: bool, events: seq<Event>, decode: Decoder)
    ensures var s := Run(Spawned(hasMarker), events, decode);
      && s.emulation.log == s.emulation.written + Concat(s.emulation.queue) == Decoded(s.shell.pieces, decode)
      && PassesOn(hasMarker, events, Concat(s.shell.pieces), s.shell.scan.held)
    ensures !hasMarker ==> Run(Spawned(hasMarker), events, decode).shell.pieces == PayloadList(events)
  {
    hide Run, Decoded, Concat, PassesOn, PayloadList;
    EmulatorInput(hasMarker, events, decode);
    SpawnedFromPty(hasMarker, decode);
    RunFromPty(Spawned(hasMarker), events, decode);
    OutputPassed(hasMarker, events, decode);
    if !hasMarker {
      PiecesArePayloads(Spawned(hasMarker), events, decode);
      assert [] + PayloadList(events) == PayloadList(events);
    }
  }

  /** So a snapshot that has no gap is made from the output of the PTY: joined to what the client was sent
      it is the decoded pieces of everything passed on, however the run goes on. */
  lemma SnapshotIsOutput(hasMarker: bool, before: seq<Event>, after: seq<Event>, socket: Socket, token: nat, decode: Decoder)
    requires token in Run(Spawned(hasMarker), before, decode).emulation.reached
    requires Get(Run(Run(Spawned(hasMarker), before, decode), after, decode).hub.clients, socket) == Some(token)
    ensures var s := Run(Spawned(hasMarker), before, decode);
      var t := Run(s, after, decode);
      && token < |s.emulation.since| && token < |t.hub.heard|
      && var start := s.emulation.since[token];
      && start <= |s.emulation.written| && |s.emulation.written| - start <= |t.hub.heard[token]|
      && s.emulation.written + t.hub.heard[token][|s.emulation.written| - start..] == Decoded(t.shell.pieces, decode)
      && PassesOn(hasMarker, before + after, Concat(t.shell.pieces), t.shell.scan.held)
  {
    hide Run, Decoded, Concat, PassesOn;
    SnapshotHasNoGap(hasMarker, before, after, socket, token, decode);
    RunAppend(Spawned(hasMarker), before, after, decode);
    ShellOutput(hasMarker, before + after, decode);
  }
}
