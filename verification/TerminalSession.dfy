/** The session class of src/main/terminal-host/session.ts: the methods of a live session, each proved
    to take exactly the step of `SessionModel` that stands for it. */
module TerminalSession {
  import opened Wrappers
  import opened JsMap
  import opened Utf16
  import opened Bytes
  import opened ClientBroadcast
  import opened SessionModel
  import Queue = EmulatorQueue
  import Scanner = ShellReadyScanner

  class Session {
    const decode: Decoder
    const scanner: Scanner.Scanner

    var attachedClients: Entries<Socket, int>
    var clientSocketsWaitingForDrain: set<Socket>
    var subprocessStdoutPaused: bool
    var shellReadyState: ShellReady
    var emulatorWriteQueue: seq<Text>
    var emulatorWriteQueuedBytes: int
    var emulatorWriteScheduled: bool
    var emulatorWriteBackpressured: bool
    var emulatorWriteProcessedItems: nat
    var snapshotBoundaryWaiters: seq<Queue.Waiter>
    var reachedBoundaries: set<nat>
    var nextAttachToken: nat
    var emulator: Text   // what the headless emulator was given

    // The history of the session.
    ghost var log: Text
    ghost var since: seq<nat>
    ghost var heard: seq<Text>
    ghost var received: seq<Byte>
    ghost var forwarded: seq<Byte>
    ghost var pieces: seq<seq<Byte>>

    ghost function Emulation(): Queue.Emulation
      reads this
    {
      Queue.Emulation(emulatorWriteQueue, emulatorWriteQueuedBytes, emulatorWriteScheduled, emulatorWriteBackpressured,
                      emulatorWriteProcessedItems, snapshotBoundaryWaiters, emulator, log, since, reachedBoundaries)
    }

    ghost function Clients(): Hub
      reads this
    {
      Hub(attachedClients, clientSocketsWaitingForDrain, heard)
    }

    ghost function ShellView(): Shell
      reads this, scanner
    {
      Shell(shellReadyState, scanner.State(), received, forwarded, pieces)
    }

    ghost function View(): State
      reads this, scanner
    {
      State(Emulation(), Clients(), ShellView(), subprocessStdoutPaused)
    }

    ghost predicate Valid()
      reads this, scanner
    {
      SessionModel.Inv(View()) && nextAttachToken == |since|
    }

    constructor (decode: Decoder, hasMarker: bool)
      ensures Valid() && View() == Spawned(hasMarker) && this.decode == decode && fresh(scanner)
    {
      this.decode := decode;
      scanner := new Scanner.Scanner();
      attachedClients, clientSocketsWaitingForDrain, subprocessStdoutPaused := [], {}, false;
      shellReadyState := if hasMarker then Pending else Unsupported;
      emulatorWriteQueue, emulatorWriteQueuedBytes, emulatorWriteScheduled := [], 0, false;
      emulatorWriteBackpressured, emulatorWriteProcessedItems := false, 0;
      snapshotBoundaryWaiters, reachedBoundaries, nextAttachToken, emulator := [], {}, 0, [];
      log, since, heard, received, forwarded, pieces := [], [], [], [], [], [];
      new;
      SpawnedInv(hasMarker);
    }

    // ----- flow control -----

    ghost predicate FlowSettled()
      reads this
    {
      subprocessStdoutPaused == (clientSocketsWaitingForDrain != {} || emulatorWriteBackpressured)
    }

    method UpdateSubprocessStdoutFlow()
      modifies this`subprocessStdoutPaused
      ensures FlowSettled()
    {
      var shouldPause := clientSocketsWaitingForDrain != {} || emulatorWriteBackpressured;
      if shouldPause {
        if subprocessStdoutPaused {
          return;
        }
        subprocessStdoutPaused := true;
        return;
      }
      if !subprocessStdoutPaused {
        return;
      }
      subprocessStdoutPaused := false;
    }

    method EnqueueEmulatorWrite(data: Text)
      requires FlowSettled()
      modifies this`emulatorWriteQueue, this`emulatorWriteQueuedBytes, this`log, this`emulatorWriteBackpressured,
               this`emulatorWriteScheduled, this`subprocessStdoutPaused
      ensures Emulation() == Queue.Enqueue(old(Emulation()), data) && FlowSettled()
    {
      hide ByteLength;
      emulatorWriteQueue := emulatorWriteQueue + [data];
      emulatorWriteQueuedBytes := emulatorWriteQueuedBytes + ByteLength(data);
      log := log + data;
      if !emulatorWriteBackpressured && emulatorWriteQueuedBytes >= Queue.HIGH_WATERMARK_BYTES {
        emulatorWriteBackpressured := true;
        UpdateSubprocessStdoutFlow();
      }
      emulatorWriteScheduled := true;
    }

    // ----- the emulator queue -----

    method ResolveReachedSnapshotBoundaryWaiters()
      modifies this`snapshotBoundaryWaiters, this`reachedBoundaries
      ensures Emulation() == Queue.ResolveReached(old(Emulation()))
    {
      hide Queue.Remaining, Queue.ReachedBy;
      var remaining := [];
      ghost var waiters, reached, processed := snapshotBoundaryWaiters, reachedBoundaries, emulatorWriteProcessedItems;
      assert waiters[0..] == waiters && [] + Queue.Remaining(waiters, processed) == Queue.Remaining(waiters, processed);
      for i := 0 to |snapshotBoundaryWaiters|
        invariant snapshotBoundaryWaiters == waiters
        invariant Queue.Remaining(waiters, processed) == remaining + Queue.Remaining(waiters[i..], processed)
        invariant reached + Queue.ReachedBy(waiters, processed) == reachedBoundaries + Queue.ReachedBy(waiters[i..], processed)
      {
        var waiter := snapshotBoundaryWaiters[i];
        Queue.WaiterTaken(waiters, i, processed, remaining, reachedBoundaries);
        if emulatorWriteProcessedItems >= waiter.target {
          reachedBoundaries := reachedBoundaries + {waiter.token};
        } else {
          remaining := remaining + [waiter];
        }
      }
      assert waiters[|waiters|..] == [] && remaining + [] == remaining;
      Queue.NoWaiters(processed);
      snapshotBoundaryWaiters := remaining;
    }

    // One pass of the processing loop.
    method ProcessNextItem()
      requires emulatorWriteQueue != []
      modifies this`emulatorWriteQueue, this`emulatorWriteQueuedBytes, this`emulatorWriteProcessedItems,
               this`snapshotBoundaryWaiters, this`reachedBoundaries, this`emulator
      ensures Emulation() == Queue.ProcessItem(old(Emulation()))
    {
      hide ByteLength;
      var chunk := emulatorWriteQueue[0];
      if |chunk| > MAX_CHUNK_CHARS {
        var splitAt := MAX_CHUNK_CHARS;
        if IsHighSurrogate(chunk[splitAt - 1]) && IsLowSurrogate(chunk[splitAt]) {
          splitAt := splitAt - 1;
        }
        emulatorWriteQueue := emulatorWriteQueue[0 := chunk[splitAt..]];
        chunk := chunk[..splitAt];
      } else {
        emulatorWriteQueue := emulatorWriteQueue[1..];
        emulatorWriteProcessedItems := emulatorWriteProcessedItems + 1;
        ResolveReachedSnapshotBoundaryWaiters();
      }
      emulatorWriteQueuedBytes := emulatorWriteQueuedBytes - ByteLength(chunk);
      emulator := emulator + chunk;
    }

    // `budget` is the number of passes the clock allows.
    method ProcessEmulatorWriteQueue(budget: nat)
      requires FlowSettled()
      modifies this`emulatorWriteQueue, this`emulatorWriteQueuedBytes, this`emulatorWriteProcessedItems,
               this`snapshotBoundaryWaiters, this`reachedBoundaries, this`emulator, this`emulatorWriteScheduled,
               this`emulatorWriteBackpressured, this`subprocessStdoutPaused
      ensures Emulation() == Queue.Turn(old(Emulation()), budget) && FlowSettled()
    {
      hide Queue.ProcessItem, Queue.ResolveReached;
      ghost var start := Emulation();
      var left := budget;
      while left > 0 && emulatorWriteQueue != []
        invariant Queue.Loop(Emulation(), left) == Queue.Loop(start, budget)
        invariant FlowSettled()
        decreases left
      {
        ProcessNextItem();
        left := left - 1;
      }
      assert Emulation() == Queue.Loop(start, budget);
      hide Queue.Loop;
      if emulatorWriteBackpressured && emulatorWriteQueuedBytes <= Queue.LOW_WATERMARK_BYTES {
        emulatorWriteBackpressured := false;
        UpdateSubprocessStdoutFlow();
      }
      if emulatorWriteQueue == [] {
        emulatorWriteScheduled := false;
        ResolveReachedSnapshotBoundaryWaiters();
      }
    }

    // The scheduled turn comes up.
    method EmulatorTurnFires(budget: nat)
      requires Valid()
      modifies this
      ensures Valid() && View() == Step(old(View()), EmulatorTurn(budget), decode)
    {
      hide Queue.Inv, ShellInv, ClientBroadcast.Inv, Queue.Turn;
      ProcessEmulatorWriteQueue(budget);
      assert Clients() == old(Clients()) && ShellView() == old(ShellView());
      Queue.StepHistory(old(Emulation()), budget, 0);
      StepKeeps(old(View()), EmulatorTurn(budget), decode);
    }

    // ----- clients -----

    method HandleClientBackpressure(socket: Socket)
      requires FlowSettled()
      modifies this`clientSocketsWaitingForDrain, this`subprocessStdoutPaused
      ensures clientSocketsWaitingForDrain == old(clientSocketsWaitingForDrain) + {socket} && FlowSettled()
    {
      if socket in clientSocketsWaitingForDrain {
        return;
      }
      clientSocketsWaitingForDrain := clientSocketsWaitingForDrain + {socket};
      UpdateSubprocessStdoutFlow();
    }

    method SendTo(socket: Socket, token: int, text: Text, answer: Answer)
      requires FlowSettled() && 0 <= token < |heard|
      modifies this`attachedClients, this`clientSocketsWaitingForDrain, this`subprocessStdoutPaused, this`heard
      ensures Clients() == DeliverOne(old(Clients()), socket, token, text, answer) && FlowSettled()
    {
      match answer
      case Wrote(canWrite) =>
        heard := heard[token := heard[token] + text];
        if !canWrite {
          HandleClientBackpressure(socket);
        }
        assert clientSocketsWaitingForDrain + {} == clientSocketsWaitingForDrain;
      case Threw =>
        attachedClients := Delete(attachedClients, socket);
        clientSocketsWaitingForDrain := clientSocketsWaitingForDrain - {socket};
        UpdateSubprocessStdoutFlow();
    }

    method BroadcastEvent(text: Text, answers: Socket -> Answer)
      requires FlowSettled() && InRange(attachedClients, |heard|)
      modifies this`attachedClients, this`clientSocketsWaitingForDrain, this`subprocessStdoutPaused, this`heard
      ensures View() == Send(old(View()), text, answers)
    {
      hide DeliverOne;
      var clients := attachedClients;
      ghost var start := Clients();
      assert clients[0..] == clients;
      for i := 0 to |clients|
        invariant |heard| == |start.heard| && FlowSettled()
        invariant Deliver(Clients(), clients[i..], text, answers) == Broadcast(start, text, answers)
      {
        var (socket, token) := clients[i];
        assert clients[i..][0] == clients[i] && clients[i..][1..] == clients[i + 1..];
        SendTo(socket, token, text, answers(socket));
      }
      assert clients[|clients|..] == [];
      assert Emulation() == old(Emulation()) && ShellView() == old(ShellView());
    }

    method BroadcastError(answers: Socket -> Answer)
      requires Valid()
      modifies this
      ensures Valid() && View() == Step(old(View()), Notify(answers), decode)
    {
      ClientInRange(Clients(), attachedClients, since, log, []) by {
        assert log + [] == log;
        assert Delivering(Clients(), attachedClients, since, log, []);
      }
      BroadcastEvent([], answers);
      StepKeeps(old(View()), Notify(answers), decode);
    }

    // Captures the current end of the queue as the boundary the attach call waits for.
    method WaitForBoundary(token: nat)
      requires Queue.Inv(Emulation()) && token == |since|
      modifies this`reachedBoundaries, this`snapshotBoundaryWaiters, this`emulatorWriteScheduled, this`since
      ensures Emulation() == Queue.Mark(old(Emulation()))
      ensures token in reachedBoundaries <==> emulatorWriteQueue == []
    {
      Queue.ReachedHaveCalls(Emulation());
      hide Queue.Inv, Queue.ResolveReached;
      ghost var before := Emulation();
      since := since + [|log|];
      if emulatorWriteQueue == [] {
        reachedBoundaries := reachedBoundaries + {token};
      } else {
        var waiter := Queue.Waiter(token, emulatorWriteProcessedItems + |emulatorWriteQueue|);
        snapshotBoundaryWaiters := snapshotBoundaryWaiters + [waiter];
        emulatorWriteScheduled := true;
        Queue.MarkedWaiters(before, Emulation(), waiter);
        Queue.NothingReached(Emulation());
        ResolveReachedSnapshotBoundaryWaiters();
      }
    }

    method RegisterClient(socket: Socket) returns (token: nat)
      requires nextAttachToken == |heard|
      modifies this`attachedClients, this`heard, this`nextAttachToken
      ensures Clients() == Attach(old(Clients()), socket)
      ensures token == old(nextAttachToken) && nextAttachToken == token + 1
    {
      token := nextAttachToken;
      nextAttachToken := nextAttachToken + 1;
      attachedClients := Set(attachedClients, socket, token);
      heard := heard + [[]];
    }

    // The part of an attach call before it first waits.
    method AttachClient(socket: Socket) returns (token: nat)
      requires Valid()
      modifies this
      ensures Valid() && View() == Step(old(View()), AttachCall(socket), decode)
      ensures token == old(nextAttachToken)
      ensures token in reachedBoundaries <==> emulatorWriteQueue == []
    {
      OneRecordPerCall(Clients(), since, log);
      hide Queue.Inv, ShellInv, ClientBroadcast.Inv, Queue.Mark, Attach;
      ghost var before := View();
      token := RegisterClient(socket);
      WaitForBoundary(token);
      assert ShellView() == before.shell && subprocessStdoutPaused == before.stdoutPaused;
      assert View() == Step(before, AttachCall(socket), decode);
      Queue.StepHistory(before.emulation, 0, 0);
      StepKeeps(before, AttachCall(socket), decode);
    }

    method BoundaryTimedOut(token: nat)
      requires Valid()
      modifies this
      ensures Valid() && View() == Step(old(View()), BoundaryTimeout(token), decode)
    {
      if token !in reachedBoundaries {
        snapshotBoundaryWaiters := Queue.WithoutToken(snapshotBoundaryWaiters, token);
      } else {
        Queue.ReachedDoesNotWait(Emulation(), token);
      }
      StepKeeps(old(View()), BoundaryTimeout(token), decode);
    }

    // Detaches a socket; for a canceled attach call only if the socket is still attached by that call.
    method DetachAttachedClient(socket: Socket, call: Option<int>)
      requires Valid()
      modifies this
      ensures Valid()
      ensures View() == Step(old(View()), if call.Some? then AttachCanceled(socket, call.value) else DetachCall(socket), decode)
    {
      hide Queue.Inv, ShellInv, ClientBroadcast.Inv;
      StepKeeps(View(), if call.Some? then AttachCanceled(socket, call.value) else DetachCall(socket), decode);
      if call.Some? && Get(attachedClients, socket) != call {
        return;
      }
      attachedClients := Delete(attachedClients, socket);
      clientSocketsWaitingForDrain := clientSocketsWaitingForDrain - {socket};
      UpdateSubprocessStdoutFlow();
    }

    method ClearBackpressure(socket: Socket)
      requires Valid()
      modifies this
      ensures Valid() && View() == Step(old(View()), SocketDrained(socket), decode)
    {
      hide Queue.Inv, ShellInv, ClientBroadcast.Inv;
      clientSocketsWaitingForDrain := clientSocketsWaitingForDrain - {socket};
      UpdateSubprocessStdoutFlow();
      StepKeeps(old(View()), SocketDrained(socket), decode);
    }

    // ----- PTY output -----

    // Decodes bytes, queues them for the emulator and broadcasts them.
    method PassOn(bytes: seq<Byte>, answers: Socket -> Answer)
      requires FlowSettled() && ClientBroadcast.Inv(Clients(), since, log)
      modifies this
      ensures View() == Forward(old(View()), bytes, answers, decode)
      ensures nextAttachToken == old(nextAttachToken) && since == old(since)
    {
      hide ClientBroadcast.Inv, Broadcast, Queue.Enqueue, InRange;
      var data := decode(bytes);
      ghost var before := View();
      EnqueueEmulatorWrite(data);
      forwarded, pieces := forwarded + bytes, pieces + [bytes];
      assert ShellView() == Handed(before.shell, bytes) && Clients() == before.hub;
      BroadcastKeeps(Clients(), since, old(log), data, answers);
      BroadcastEvent(data, answers);
    }

    method HandleData(payload: seq<Byte>, answers: Socket -> Answer)
      requires Valid()
      modifies this, scanner
      ensures Valid() && View() == Step(old(View()), Data(payload, answers), decode)
    {
      hide Queue.Inv, ClientBroadcast.Inv, Forward;
      StepKeeps(View(), Data(payload, answers), decode);
      if payload == [] {
        return;
      }
      received := received + payload;
      var bytes := payload;
      if shellReadyState.Pending? {
        var matched;
        bytes, matched := scanner.ScanForShellReady(payload);
        if matched {
          shellReadyState := Ready;
        }
      }
      if bytes == [] {
        return;
      }
      PassOn(bytes, answers);
    }

    method ShellReadyTimedOut(answers: Socket -> Answer)
      requires Valid()
      modifies this, scanner
      ensures Valid() && View() == Step(old(View()), ShellTimeout(answers), decode)
    {
      hide Queue.Inv, ClientBroadcast.Inv, Forward;
      StepKeeps(View(), ShellTimeout(answers), decode);
      if !shellReadyState.Pending? {
        return;
      }
      shellReadyState := TimedOut;
      var held := scanner.heldBytes;
      scanner.heldBytes, scanner.matchPos := [], 0;
      if held != [] {
        PassOn(held, answers);
      }
    }
  }
}
