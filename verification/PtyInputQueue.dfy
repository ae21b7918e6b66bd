/** The queue of input for the PTY inside the subprocess (src/main/terminal-host/pty-subprocess.ts):
    buffers are written one at a time with asynchronous writes that may be partial or fail with EAGAIN. */
module PtyInputQueue {
  import opened Bytes

  const HIGH_WATERMARK_BYTES := 8 * 1024 * 1024
  const LOW_WATERMARK_BYTES := 4 * 1024 * 1024
  const HARD_LIMIT_BYTES := 64 * 1024 * 1024
  const MIN_WRITE_BACKOFF_MS := 2
  const MAX_WRITE_BACKOFF_MS := 50

  // No PTY, one with a file descriptor, or one that is only written to synchronously.
  datatype Pty = Absent | Descriptor | Synchronous

  datatype Input = Input(
    pty: Pty,
    queue: seq<seq<Byte>>,
    queuedBytes: int,
    flushing: bool,
    backoffMs: int,
    stdinPaused: bool,
    flushesDue: nat,          // flush calls that were scheduled and have not run yet
    inFlight: seq<seq<Byte>>, // the buffers of the writes that were issued and have not completed yet
    accepted: seq<Byte>,      // all input accepted into the queue
    written: seq<Byte>,       // all bytes the PTY took
    exited: bool              // a PTY has exited
  )

  const EMPTY := Input(Absent, [], 0, false, 0, false, 0, [], [], [], false)

  function MaybePause(s: Input): Input {
    if s.stdinPaused || s.queuedBytes < HIGH_WATERMARK_BYTES then s else s.(stdinPaused := true)
  }

  function MaybeResume(s: Input): Input {
    if !s.stdinPaused || s.queuedBytes > LOW_WATERMARK_BYTES then s else s.(stdinPaused := false)
  }

  function ScheduleFlush(s: Input): Input {
    if s.flushing then s else s.(flushing := true, flushesDue := s.flushesDue + 1)
  }

  function Push(s: Input, buf: seq<Byte>): Input {
    if s.pty == Absent || s.queuedBytes + |buf| > HARD_LIMIT_BYTES then s
    else
      ScheduleFlush(MaybePause(s.(queue := s.queue + [buf], queuedBytes := s.queuedBytes + |buf|, accepted := s.accepted + buf)))
  }

  function Continue(s: Input): Input {
    if s.queue != [] then s.(flushesDue := s.flushesDue + 1) else s.(flushing := false)
  }

  function HardError(s: Input): Input {
    s.(queue := [], queuedBytes := 0, flushing := false)
  }

  // Without a file descriptor the head is written synchronously, which may throw.
  function Flush(s: Input, throws: bool): Input {
    if s.pty == Absent || s.queue == [] then s.(flushing := false)
    else if s.pty == Descriptor then s.(inFlight := s.inFlight + [s.queue[0]])
    else
      var buf := s.queue[0];
      var taken := MaybeResume(s.(queue := s.queue[1..], queuedBytes := s.queuedBytes - |buf|));
      if throws then HardError(taken) else Continue(taken.(written := s.written + buf))
  }

  function Wrote(s: Input, buf: seq<Byte>, count: nat): Input
    requires s.queue != [] && count <= |buf|
  {
    var rest := if count >= |buf| then s.queue[1..] else s.queue[0 := buf[count..]];
    Continue(MaybeResume(s.(queue := rest, queuedBytes := s.queuedBytes - count, backoffMs := 0,
                            written := s.written + buf[..count])))
  }

  function Doubled(backoffMs: int): int {
    if backoffMs == 0 then MIN_WRITE_BACKOFF_MS
    else if backoffMs * 2 < MAX_WRITE_BACKOFF_MS then backoffMs * 2 else MAX_WRITE_BACKOFF_MS
  }

  // The kernel buffer was full: the flush is retried after a pause.
  function TryAgain(s: Input): Input {
    s.(backoffMs := Doubled(s.backoffMs), flushesDue := s.flushesDue + 1)
  }

  datatype WriteResult = Took(count: nat) | Eagain | Failed

  datatype Event =
    | Spawns(pty: Pty)
    | Exits
    | Write(buf: seq<Byte>)              // a write frame arrived
    | FlushRuns(throws: bool)            // a scheduled flush runs, at once or after its backoff
    | WriteCompletes(result: WriteResult)

  function Step(s: Input, event: Event): Input {
    match event
    case Spawns(pty) => if s.pty == Absent then s.(pty := pty) else s
    case Exits => s.(pty := Absent, exited := true)
    case Write(buf) => Push(s, buf)
    case FlushRuns(throws) => if s.flushesDue > 0 then Flush(s.(flushesDue := s.flushesDue - 1), throws) else s
    case WriteCompletes(result) =>
      if s.inFlight == [] then s
      else
        var buf, done := s.inFlight[0], s.(inFlight := s.inFlight[1..]);
        match result
        case Took(count) => if s.queue != [] && count <= |buf| then Wrote(done, buf, count) else s
        case Eagain => TryAgain(done)
        case Failed => HardError(done)
  }

  function Run(s: Input, events: seq<Event>): Input
    decreases |events|
  {
    if events == [] then s else Run(Step(s, events[0]), events[1..])
  }

  // The event is a write that fails for good.
  predicate Fails(event: Event) {
    event == WriteCompletes(Failed) || event == FlushRuns(true)
  }

  ghost predicate PauseInv(s: Input) {
    && (!s.stdinPaused ==> s.queuedBytes < HIGH_WATERMARK_BYTES)
    && (s.stdinPaused ==> s.queuedBytes > LOW_WATERMARK_BYTES)
  }

  ghost predicate Inv(s: Input) {
    && s.queuedBytes == |Concat(s.queue)| <= HARD_LIMIT_BYTES
    && s.written + Concat(s.queue) == s.accepted
    && s.flushesDue + |s.inFlight| == (if s.flushing then 1 else 0)
    && (s.queue != [] ==> s.flushing || s.exited) && (s.flushing ==> s.queue != [])
    && (s.exited || s.pty != Absent || s.queue == [])
    && (s.inFlight != [] ==> s.queue != [] && s.inFlight[0] == s.queue[0])
    && (s.backoffMs == 0 || MIN_WRITE_BACKOFF_MS <= s.backoffMs <= MAX_WRITE_BACKOFF_MS)
    && PauseInv(s)
  }

  lemma PushKeeps(s: Input, buf: seq<Byte>)
    requires Inv(s)
    ensures Inv(Push(s, buf))
  {
    ConcatSnoc(s.queue, buf);
    ConcatAssociates(s.written, Concat(s.queue), buf);
  }

  lemma FlushKeeps(s: Input)
    requires Inv(s) && s.flushesDue > 0
    ensures Inv(Flush(s.(flushesDue := s.flushesDue - 1), false))
  {
    var due := s.(flushesDue := s.flushesDue - 1);
    if s.pty == Synchronous && s.queue != [] {
      HeadKeeps(s);
    } else {
      assert s.inFlight == [];
      hide Concat, HardError, Continue, MaybeResume;
    }
  }

  lemma HeadKeeps(s: Input)
    requires Inv(s) && s.flushesDue > 0 && s.pty == Synchronous && s.queue != []
    ensures Inv(Flush(s.(flushesDue := s.flushesDue - 1), false))
  {
    var head, rest := s.queue[0], s.queue[1..];
    assert Concat(s.queue) == head + Concat(rest);
    ConcatAssociates(s.written, head, Concat(rest));
    hide Concat;
  }

  lemma WroteKeeps(s: Input, count: nat)
    requires Inv(s) && s.inFlight != [] && count <= |s.inFlight[0]|
    ensures Inv(Wrote(s.(inFlight := s.inFlight[1..]), s.inFlight[0], count))
  {
    var buf, rest := s.queue[0], s.queue[1..];
    assert buf == buf[..count] + buf[count..];
    ConcatAssociates(buf[..count], buf[count..], Concat(rest));
    ConcatAssociates(s.written, buf[..count], buf[count..] + Concat(rest));
    if count == |buf| {
      assert buf[..count] == buf && buf[count..] == [];
      assert [] + Concat(rest) == Concat(rest);
    } else {
      var queue := s.queue[0 := buf[count..]];
      assert queue[0] == buf[count..] && queue[1..] == rest;
    }
  }

  lemma StepKeeps(s: Input, event: Event)
    requires Inv(s) && !Fails(event)
    ensures Inv(Step(s, event))
  {
    hide Push, Flush, Wrote;
    match event
    case Write(buf) => PushKeeps(s, buf);
    case FlushRuns(_) =>
      if s.flushesDue > 0 {
        FlushKeeps(s);
      }
    case WriteCompletes(result) =>
      if s.inFlight != [] && result.Took? && result.count <= |s.inFlight[0]| {
        WroteKeeps(s, result.count);
      }
    case _ =>
  }

  lemma {:induction false} RunKeeps(s: Input, events: seq<Event>)
    requires Inv(s) && forall e :: e in events ==> !Fails(e)
    ensures Inv(Run(s, events))
    decreases |events|
  {
    hide Inv, Step, Fails;
    if events == [] {
    } else {
      StepKeeps(s, events[0]);
      RunKeeps(Step(s, events[0]), events[1..]);
    }
  }

  /** Over all runs of spawns and exits, arriving input, partial writes and EAGAIN retries: the bytes the PTY
      took followed by the queue are exactly the accepted input in order; the counter is the size of the
      queue, within the hard limit; one write is in flight or one flush due while input waits, at least until
      a PTY exits, and none otherwise; reading is paused within the two marks; the backoff is 0 or within its bounds. */
  lemma InputIsDelivered(events: seq<Event>)
    requires forall e :: e in events ==> !Fails(e)
    ensures var s := Run(EMPTY, events);
      && s.written + Concat(s.queue) == s.accepted
      && s.queuedBytes == |Concat(s.queue)| <= HARD_LIMIT_BYTES
      && |s.inFlight| + s.flushesDue <= 1 && (s.queue == [] ==> |s.inFlight| + s.flushesDue == 0)
      && (s.queue != [] ==> |s.inFlight| + s.flushesDue == 1 || s.exited)
      && (!s.stdinPaused ==> s.queuedBytes < HIGH_WATERMARK_BYTES)
      && (s.stdinPaused ==> s.queuedBytes > LOW_WATERMARK_BYTES)
      && (s.backoffMs == 0 || MIN_WRITE_BACKOFF_MS <= s.backoffMs <= MAX_WRITE_BACKOFF_MS)
  {
    assert Inv(EMPTY);
    RunKeeps(EMPTY, events);
  }

  /** Progress: while the queue is not empty, a flush shortens it by what its write takes, if anything, and
      the next one is due if anything is left. */
  lemma FlushProgress(s: Input, count: nat)
    requires Inv(s) && s.pty == Descriptor && s.queue != [] && s.flushesDue > 0 && count <= |s.queue[0]|
    ensures var t := Step(Step(s, FlushRuns(false)), WriteCompletes(Took(count)));
      && Inv(t) && t.accepted == s.accepted && t.written == s.written + s.queue[0][..count]
      && t.queuedBytes == s.queuedBytes - count && t.inFlight == [] && t.flushesDue == (if t.queue == [] then 0 else 1)
  {
    hide Inv;
    var f := Step(s, FlushRuns(false));
    StepKeeps(s, FlushRuns(false));
    StepKeeps(f, WriteCompletes(Took(count)));
    assert s.inFlight == [] && s.flushesDue == 1 by { NothingInFlight(s); }
    assert f.inFlight == [s.queue[0]] && f.queue == s.queue;
  }

  lemma NothingInFlight(s: Input)
    requires Inv(s) && s.flushesDue > 0
    ensures s.inFlight == [] && s.flushesDue == 1
  {
  }

  // ----- which input is accepted, and how long a retry waits -----

  lemma RunSnoc(s: Input, events: seq<Event>, event: Event)
    ensures Run(s, events + [event]) == Step(Run(s, events), event)
  {
    RunAppend(s, events, [event]);
    RunOne(Run(s, events), event);
  }

  // The PTY that was spawned last, until it exits.
  function PtyAfter(events: seq<Event>): Pty {
    if events == [] then Absent
    else
      var before := PtyAfter(events[..|events| - 1]);
      match events[|events| - 1]
      case Spawns(pty) => if before == Absent then pty else before
      case Exits => Absent
      case _ => before
  }

  // How many writes in a row found the kernel buffer full.
  function Retries(events: seq<Event>): nat {
    if events == [] then 0
    else
      var n := |events| - 1;
      var s, before := Run(EMPTY, events[..n]), Retries(events[..n]);
      if !events[n].WriteCompletes? || s.inFlight == [] then before
      else
        match events[n].result
        case Eagain => before + 1
        case Took(count) => if s.queue != [] && count <= |s.inFlight[0]| then 0 else before
        case Failed => before
  }

  function Delay(retries: nat): int {
    match retries
    case 0 => 0
    case 1 => 2
    case 2 => 4
    case 3 => 8
    case 4 => 16
    case 5 => 32
    case _ => 50
  }

  lemma StepPty(s: Input, event: Event)
    ensures Step(s, event).pty ==
            match event { case Spawns(pty) => if s.pty == Absent then pty else s.pty case Exits => Absent case _ => s.pty }
  {
  }

  lemma StepBackoff(s: Input, event: Event)
    ensures Step(s, event).backoffMs ==
            if !event.WriteCompletes? || s.inFlight == [] then s.backoffMs
            else
              match event.result {
                case Eagain => Doubled(s.backoffMs)
                case Took(count) => if s.queue != [] && count <= |s.inFlight[0]| then 0 else s.backoffMs
                case Failed => s.backoffMs
              }
  {
  }

  /** Over every run, with or without errors: the PTY is the one spawned last, until it exits; and the wait before a
      retry is 2, 4, 8, 16, 32 and then always 50 milliseconds, from the start again after a write that
      succeeded. */
  lemma {:induction false} BackoffDoubles(events: seq<Event>)
    ensures var s := Run(EMPTY, events); s.pty == PtyAfter(events) && s.backoffMs == Delay(Retries(events))
  {
    hide Step;
    if events == [] {
    } else {
      var n := |events| - 1;
      assert events == events[..n] + [events[n]];
      BackoffDoubles(events[..n]);
      RunSnoc(EMPTY, events[..n], events[n]);
      StepPty(Run(EMPTY, events[..n]), events[n]);
      StepBackoff(Run(EMPTY, events[..n]), events[n]);
    }
  }

  /** Input is accepted exactly while there is a PTY and as long as 64 MiB are not exceeded, also while reading is
      paused or a retry waits. */
  lemma AcceptedIff(events: seq<Event>, buf: seq<Byte>)
    requires forall e :: e in events ==> !Fails(e)
    ensures var s, t := Run(EMPTY, events), Run(EMPTY, events + [Write(buf)]);
      if PtyAfter(events) != Absent && |Concat(s.queue)| + |buf| <= 67_108_864
      then t.accepted == s.accepted + buf && t.queue == s.queue + [buf] else t == s
  {
    hide Run, Fails;
    InputIsDelivered(events);
    BackoffDoubles(events);
    RunSnoc(EMPTY, events, Write(buf));
  }

  // ----- writes that fail for good -----

  /** A hard error of an asynchronous write keeps the pause bounds exactly when reading was not paused. */
  lemma HardErrorKeepsPauseIff(s: Input)
    requires Inv(s) && s.inFlight != []
    ensures PauseInv(Step(s, WriteCompletes(Failed))) <==> !s.stdinPaused
  {
  }

  /** A synchronous write that throws keeps them exactly when reading was not paused or what is left behind
      the head is within the low mark, because reading is resumed before the write. */
  lemma ThrowKeepsPauseIff(s: Input)
    requires Inv(s) && s.pty == Synchronous && s.queue != [] && s.flushesDue > 0
    ensures PauseInv(Step(s, FlushRuns(true))) <==> !s.stdinPaused || |Concat(s.queue[1..])| <= LOW_WATERMARK_BYTES
  {
  }

  // Nothing is left that could resume reading.
  ghost predicate Stuck(s: Input) {
    s.stdinPaused && s.queue == [] && s.flushesDue == 0 && s.inFlight == []
  }

  // No input arrives while reading is paused, and no flush or write is left.
  lemma {:induction false} StuckForever(s: Input, events: seq<Event>)
    requires Stuck(s) && forall e :: e in events ==> !e.Write?
    ensures Stuck(Run(s, events))
    decreases |events|
  {
    if events == [] {
    } else {
      assert events[0] in events;
      StuckForever(Step(s, events[0]), events[1..]);
    }
  }

  /** And when a hard error breaks them, reading stays paused however things go on: no input arrives while
      it is, and no flush or write is left whose completion could resume it. */
  lemma HardErrorWhilePausedSticks(s: Input, event: Event, events: seq<Event>)
    requires Inv(s) && Fails(event) && !PauseInv(Step(s, event))
    requires forall e :: e in events ==> !e.Write?
    ensures Run(Step(s, event), events).stdinPaused
  {
    var t := Step(s, event);
    assert Stuck(t);
    StuckForever(t, events);
  }

  // ----- such runs -----

  function Writes(bufs: seq<seq<Byte>>): seq<Event> {
    if bufs == [] then [] else Writes(bufs[..|bufs| - 1]) + [Write(bufs[|bufs| - 1])]
  }

  lemma {:induction false} RunAppend(s: Input, a: seq<Event>, b: seq<Event>)
    ensures Run(s, a + b) == Run(Run(s, a), b)
    decreases |a|
  {
    hide Step;
    if a == [] {
      assert a + b == b;
    } else {
      assert (a + b)[0] == a[0] && (a + b)[1..] == a[1..] + b;
      RunAppend(Step(s, a[0]), a[1..], b);
    }
  }

  lemma RunOne(s: Input, event: Event)
    ensures Run(s, [event]) == Step(s, event)
  {
    hide Step;
    assert [event][1..] == [];
  }

  // Input that arrives before the first flush runs.
  lemma {:induction false} Written(pty: Pty, bufs: seq<seq<Byte>>)
    requires pty != Absent && |Concat(bufs)| <= HARD_LIMIT_BYTES
    ensures var s, total := Run(EMPTY.(pty := pty), Writes(bufs)), |Concat(bufs)|;
      && s.pty == pty && s.queue == bufs && s.queuedBytes == total && s.inFlight == []
      && s.stdinPaused == (total >= HIGH_WATERMARK_BYTES)
      && (bufs != [] ==> s.flushing && s.flushesDue == 1) && (bufs == [] ==> !s.flushing && s.flushesDue == 0)
  {
    var start := EMPTY.(pty := pty);
    if bufs == [] {
    } else {
      var init, last := bufs[..|bufs| - 1], bufs[|bufs| - 1];
      assert bufs == init + [last];
      ConcatSnoc(init, last);
      Written(pty, init);
      RunAppend(start, Writes(init), [Write(last)]);
      RunOne(Run(start, Writes(init)), Write(last));
    }
  }

  /** Such errors can happen: with eight MiB of input queued before the first flush, a write that fails
      leaves reading paused for good. Synchronously it takes four MiB behind the head. */
  lemma StuckIsReachable(pty: Pty, bufs: seq<seq<Byte>>, events: seq<Event>)
    requires pty != Absent && bufs != [] && HIGH_WATERMARK_BYTES <= |Concat(bufs)| <= HARD_LIMIT_BYTES
    requires pty == Synchronous ==> |Concat(bufs[1..])| > LOW_WATERMARK_BYTES
    requires forall e :: e in events ==> !e.Write?
    ensures var failure := if pty == Synchronous then [FlushRuns(true)] else [FlushRuns(false), WriteCompletes(Failed)];
      var s := Run(EMPTY, [Spawns(pty)] + Writes(bufs) + failure);
      Run(s, events).stdinPaused
  {
    hide Writes;
    var failure := if pty == Synchronous then [FlushRuns(true)] else [FlushRuns(false), WriteCompletes(Failed)];
    RunAppend(EMPTY, [Spawns(pty)] + Writes(bufs), failure);
    RunAppend(EMPTY, [Spawns(pty)], Writes(bufs));
    RunOne(EMPTY, Spawns(pty));
    Written(pty, bufs);
    var s := Run(EMPTY.(pty := pty), Writes(bufs));
    assert Run(EMPTY, [Spawns(pty)] + Writes(bufs)) == s;
    if pty == Synchronous {
      RunOne(s, FlushRuns(true));
    } else {
      assert failure == [FlushRuns(false)] + [WriteCompletes(Failed)];
      RunAppend(s, [FlushRuns(false)], [WriteCompletes(Failed)]);
      RunOne(s, FlushRuns(false));
      RunOne(Step(s, FlushRuns(false)), WriteCompletes(Failed));
    }
    StuckForever(Run(s, failure), events);
  }

  // ----- the module as written -----

  class PtyInput {
    var pty: Pty
    var writeQueue: seq<seq<Byte>>
    var queuedBytes: int
    var flushing: bool
    var writeBackoffMs: int
    var stdinPaused: bool
    var flushesDue: nat
    var inFlight: seq<seq<Byte>>

    ghost var accepted: seq<Byte>
    ghost var written: seq<Byte>
    ghost var exited: bool

    ghost function View(): Input
      reads this
    {
      Input(pty, writeQueue, queuedBytes, flushing, writeBackoffMs, stdinPaused, flushesDue, inFlight, accepted, written, exited)
    }

    constructor ()
      ensures View() == EMPTY
    {
      pty, writeQueue, queuedBytes, flushing, writeBackoffMs, stdinPaused := Absent, [], 0, false, 0, false;
      flushesDue, inFlight, accepted, written, exited := 0, [], [], [], false;
    }

    method Spawn(spawned: Pty)
      modifies this`pty
      ensures View() == Step(old(View()), Spawns(spawned))
    {
      if pty != Absent {
        return;
      }
      pty := spawned;
    }

    method OnExit()
      modifies this`pty, this`exited
      ensures View() == Step(old(View()), Exits)
    {
      pty, exited := Absent, true;
    }

    method MaybePauseStdin()
      modifies this`stdinPaused
      ensures View() == MaybePause(old(View()))
    {
      if stdinPaused || queuedBytes < HIGH_WATERMARK_BYTES {
        return;
      }
      stdinPaused := true;
    }

    method MaybeResumeStdin()
      modifies this`stdinPaused
      ensures View() == MaybeResume(old(View()))
    {
      if !stdinPaused || queuedBytes > LOW_WATERMARK_BYTES {
        return;
      }
      stdinPaused := false;
    }

    // `handleWrite` and `queueWriteBuffer`
    method QueueWriteBuffer(buf: seq<Byte>)
      modifies this
      ensures View() == Step(old(View()), Write(buf))
    {
      if pty == Absent {
        return;
      }
      if queuedBytes + |buf| > HARD_LIMIT_BYTES {
        return;
      }
      writeQueue := writeQueue + [buf];
      queuedBytes := queuedBytes + |buf|;
      accepted := accepted + buf;
      MaybePauseStdin();
      if flushing {
        return;
      }
      flushing := true;
      flushesDue := flushesDue + 1;
    }

    // The end of a flush: the next one is due while anything is queued.
    method GoOn()
      modifies this`flushesDue, this`flushing
      ensures View() == Continue(old(View()))
    {
      if writeQueue != [] {
        flushesDue := flushesDue + 1;
      } else {
        flushing := false;
      }
    }

    // The synchronous write of the head, which may throw.
    method WriteHead(throws: bool)
      requires pty == Synchronous && writeQueue != []
      modifies this
      ensures View() == Flush(old(View()), throws)
    {
      var chunk := writeQueue[0];
      writeQueue := writeQueue[1..];
      queuedBytes := queuedBytes - |chunk|;
      ghost var shifted := View();
      MaybeResumeStdin();
      assert View() == MaybeResume(shifted);
      hide MaybeResume;
      if throws {
        writeQueue, queuedBytes, flushing := [], 0, false;
        return;
      }
      written := written + chunk;
      hide Continue;
      GoOn();
    }

    method RunFlush(throws: bool)
      requires flushesDue > 0
      modifies this
      ensures View() == Step(old(View()), FlushRuns(throws))
    {
      flushesDue := flushesDue - 1;
      if pty == Absent || writeQueue == [] {
        flushing := false;
        return;
      }
      if pty == Descriptor {
        inFlight := inFlight + [writeQueue[0]];
        return;
      }
      hide Flush;
      WriteHead(throws);
    }

    // The write took `wrote` bytes of its buffer.
    method OnTaken(buf: seq<Byte>, wrote: nat)
      requires writeQueue != [] && wrote <= |buf|
      modifies this
      ensures View() == Wrote(old(View()), buf, wrote)
    {
      writeBackoffMs := 0;
      queuedBytes := queuedBytes - wrote;
      written := written + buf[..wrote];
      if wrote >= |buf| {
        writeQueue := writeQueue[1..];
      } else {
        writeQueue := writeQueue[0 := buf[wrote..]];
      }
      ghost var shifted := View();
      MaybeResumeStdin();
      assert View() == MaybeResume(shifted);
      hide MaybeResume, Continue;
      GoOn();
    }

    method OnWriteDone(result: WriteResult)
      requires inFlight != [] && writeQueue != []
      requires result.Took? ==> result.count <= |inFlight[0]|
      modifies this
      ensures View() == Step(old(View()), WriteCompletes(result))
    {
      hide Wrote;
      var buf := inFlight[0];
      inFlight := inFlight[1..];
      match result
      case Eagain =>
        writeBackoffMs := if writeBackoffMs == 0 then MIN_WRITE_BACKOFF_MS
                          else if writeBackoffMs * 2 < MAX_WRITE_BACKOFF_MS then writeBackoffMs * 2 else MAX_WRITE_BACKOFF_MS;
        flushesDue := flushesDue + 1;
      case Failed =>
        writeQueue, queuedBytes, flushing := [], 0, false;
      case Took(wrote) =>
        OnTaken(buf, wrote);
    }
  }
}
