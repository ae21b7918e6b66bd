/** The frames a terminal session queues for its PTY subprocess and hands to the subprocess's stdin
    (src/main/terminal-host/session.ts). */
module SubprocessStdin {
  import opened Bytes
  import opened FrameCodec
  import opened Utf16

  const MAX_QUEUE_BYTES := 2_000_000

  datatype Stdin = Stdin(
    queue: seq<seq<Byte>>,
    queuedBytes: int,
    drainArmed: bool,
    frames: seq<Frame>,     // the frames accepted so far
    taken: seq<Byte>,       // the buffers whose write was answered with true
    handed: seq<Byte>,      // the buffers of all writes
    refusals: nat           // how many writes were answered with false
  )

  const EMPTY := Stdin([], 0, false, [], [], [], 0)

  // Writes until the queue is empty or, after `writes` writes, the stream answers false.
  function Flush(s: Stdin, writes: nat): Stdin
    decreases writes
  {
    if s.queue == [] then s
    else
      var buf := s.queue[0];
      var offered := s.(handed := s.handed + buf);
      if writes == 0 then offered.(drainArmed := true, refusals := s.refusals + 1)
      else Flush(offered.(queue := s.queue[1..], queuedBytes := s.queuedBytes - |buf|, taken := s.taken + buf), writes - 1)
  }

  predicate HasRoom(s: Stdin, f: Frame) {
    s.queuedBytes + HEADER_BYTES + |f.payload| <= MAX_QUEUE_BYTES
  }

  function Push(s: Stdin, f: Frame): Stdin
    requires |f.payload| < UINT32_LIMIT
  {
    s.(queue := s.queue + [Header(f.kind, |f.payload|)] + (if f.payload == [] then [] else [f.payload]),
       queuedBytes := s.queuedBytes + HEADER_BYTES + |f.payload|, frames := s.frames + [f])
  }

  datatype Event = Send(frame: Frame, writes: nat) | Drain(writes: nat)

  predicate Sendable(f: Frame) {
    |f.payload| < UINT32_LIMIT
  }

  function Step(s: Stdin, event: Event): Stdin {
    match event
    case Send(frame, writes) =>
      if Sendable(frame) && HasRoom(s, frame) then Flush(Push(s, frame), writes) else s
    case Drain(writes) =>
      if s.drainArmed then Flush(s.(drainArmed := false), writes) else s
  }

  function Run(s: Stdin, events: seq<Event>): Stdin
    decreases |events|
  {
    if events == [] then s else Run(Step(s, events[0]), events[1..])
  }

  ghost predicate Core(s: Stdin) {
    && s.queuedBytes == |Concat(s.queue)| <= MAX_QUEUE_BYTES
    && (forall buf :: buf in s.queue ==> buf != [])
    && (forall f :: f in s.frames ==> Fits(f))
    && s.taken + Concat(s.queue) == EncodeAll(s.frames)
    && |s.taken| + s.refusals <= |s.handed|
    && (s.refusals == 0 ==> s.handed == s.taken)
  }

  ghost predicate Inv(s: Stdin) {
    Core(s) && (s.queue != [] ==> s.drainArmed)
  }

  lemma {:induction false} FlushKeeps(s: Stdin, writes: nat)
    requires Core(s)
    ensures Inv(Flush(s, writes)) && Flush(s, writes).frames == s.frames
    decreases writes
  {
    hide EncodeAll;
    if s.queue == [] {
    } else {
      var buf := s.queue[0];
      assert buf in s.queue && buf != [];
      assert forall b :: b in s.queue[1..] ==> b in s.queue;
      if writes > 0 {
        ConcatAssociates(s.taken, buf, Concat(s.queue[1..]));
        FlushKeeps(s.(handed := s.handed + buf, queue := s.queue[1..], queuedBytes := s.queuedBytes - |buf|, taken := s.taken + buf), writes - 1);
      }
    }
  }

  lemma PushKeeps(s: Stdin, f: Frame)
    requires Core(s) && HasRoom(s, f) && Sendable(f)
    ensures Core(Push(s, f))
  {
    hide Header;
    var header := Header(f.kind, |f.payload|);
    assert Fits(f);
    ConcatSnoc(s.queue, header);
    if f.payload != [] {
      ConcatSnoc(s.queue + [header], f.payload);
    } else {
      assert s.queue + [header] + [] == s.queue + [header];
    }
    EncodeAllAppend(s.frames, [f]);
    assert EncodeAll([f]) == Encode(f) + [] == Encode(f);
    ConcatAssociates(Concat(s.queue), header, f.payload);
    ConcatAssociates(s.taken, Concat(s.queue), Encode(f));
  }

  lemma StepKeeps(s: Stdin, event: Event)
    requires Inv(s)
    ensures Inv(Step(s, event))
  {
    hide Flush, Push, EncodeAll;
    match event
    case Send(frame, writes) =>
      if Sendable(frame) && HasRoom(s, frame) {
        PushKeeps(s, frame);
        FlushKeeps(Push(s, frame), writes);
      }
    case Drain(writes) =>
      FlushKeeps(s.(drainArmed := false), writes);
  }

  lemma {:induction false} RunKeeps(s: Stdin, events: seq<Event>)
    requires Inv(s)
    ensures Inv(Run(s, events))
    decreases |events|
  {
    hide Inv, Step;
    if events == [] {
    } else {
      StepKeeps(s, events[0]);
      RunKeeps(Step(s, events[0]), events[1..]);
    }
  }

  /** Accounting: the byte counter is the size of the queue and never exceeds its bound; a queue that
      is not empty waits for a drain; and the writes answered with true, followed by the queue, are
      exactly the encoding of the accepted frames. */
  lemma Accounting(events: seq<Event>)
    ensures var s := Run(EMPTY, events);
      && s.queuedBytes == |Concat(s.queue)| <= MAX_QUEUE_BYTES
      && (s.queue != [] ==> s.drainArmed)
      && (forall f :: f in s.frames ==> Fits(f))
      && s.taken + Concat(s.queue) == EncodeAll(s.frames)
  {
    assert Inv(EMPTY);
    RunKeeps(EMPTY, events);
  }

  /** A stream takes every buffer it is handed, whatever it answers, while the session keeps the head
      of its queue after the answer false. So what the stream got is the encoding of the accepted
      frames if and only if it never answered false; otherwise it got more. */
  lemma DeliveredOnceIffNeverRefused(events: seq<Event>)
    ensures var s := Run(EMPTY, events);
      && (forall f :: f in s.frames ==> Fits(f))
      && (s.handed + Concat(s.queue) == EncodeAll(s.frames) <==> s.refusals == 0)
      && (s.refusals > 0 ==> |s.handed + Concat(s.queue)| > |EncodeAll(s.frames)|)
  {
    Accounting(events);
    assert Inv(EMPTY);
    RunKeeps(EMPTY, events);
  }

  /** And then the subprocess decodes exactly the accepted frames. */
  lemma NeverRefusedRoundTrip(events: seq<Event>, chunks: seq<seq<Byte>>)
    requires var s := Run(EMPTY, events);
      s.refusals == 0 && s.queue == [] && Concat(chunks) == s.handed
    ensures PushAll(FRESH, chunks) == (FRESH, Run(EMPTY, events).frames)
  {
    var s := Run(EMPTY, events);
    DeliveredOnceIffNeverRefused(events);
    assert s.handed + [] == s.handed;
    RoundTrip(s.frames, chunks);
  }

  // ----- which frames are accepted, and when they are handed over -----

  lemma {:induction false} RunSnoc(s: Stdin, events: seq<Event>, event: Event)
    ensures Run(s, events + [event]) == Step(Run(s, events), event)
    decreases |events|
  {
    hide Step;
    if events == [] {
      assert [] + [event] == [event] && [event][1..] == [];
    } else {
      assert (events + [event])[0] == events[0] && (events + [event])[1..] == events[1..] + [event];
      RunSnoc(Step(s, events[0]), events[1..], event);
    }
  }

  // What a flush leaves of a queue when the stream answers true `writes` times.
  function Left(queue: seq<seq<Byte>>, writes: nat): seq<seq<Byte>> {
    if writes >= |queue| then [] else queue[writes..]
  }

  // What it hands over: the buffers that are taken and, if one is refused, that one too.
  function Offered(queue: seq<seq<Byte>>, writes: nat): seq<Byte> {
    Concat(if writes >= |queue| then queue else queue[..writes + 1])
  }

  lemma {:induction false} FlushMeaning(s: Stdin, writes: nat)
    ensures var t := Flush(s, writes);
      && t.frames == s.frames && t.queue == Left(s.queue, writes) && t.handed == s.handed + Offered(s.queue, writes)
      && t.drainArmed == (s.drainArmed || writes < |s.queue|)
      && t.refusals == s.refusals + if writes < |s.queue| then 1 else 0
    decreases writes
  {
    hide Offered, Left;
    var queue := s.queue;
    OfferedNext(queue, writes);
    if queue == [] {
      assert s.handed + [] == s.handed;
    } else if writes > 0 {
      var buf, rest := queue[0], queue[1..];
      var taken := s.(handed := s.handed + buf, queue := rest, queuedBytes := s.queuedBytes - |buf|, taken := s.taken + buf);
      FlushMeaning(taken, writes - 1);
      ConcatAssociates(s.handed, buf, Offered(rest, writes - 1));
    }
  }

  lemma OfferedNext(queue: seq<seq<Byte>>, writes: nat)
    ensures queue == [] ==> Offered(queue, writes) == [] && Left(queue, writes) == []
    ensures queue != [] && writes == 0 ==> Offered(queue, writes) == queue[0] && Left(queue, writes) == queue
    ensures queue != [] && writes > 0 ==>
              && Offered(queue, writes) == queue[0] + Offered(queue[1..], writes - 1)
              && Left(queue, writes) == Left(queue[1..], writes - 1)
  {
    if queue != [] {
      var buf, rest := queue[0], queue[1..];
      if writes == 0 {
        var none: seq<seq<Byte>> := [];
        assert queue[..1] == [buf] && [buf][1..] == none && buf + [] == buf;
        assert Concat([buf]) == buf + Concat(none);
      } else if writes < |queue| {
        assert queue[..writes + 1][1..] == rest[..writes] && queue[writes..] == rest[writes - 1..];
      }
    }
  }

  /** Over every run a frame that is sent is accepted exactly if with its header it fits two million bytes beside
      what is queued, also while a drain is awaited; and it is flushed at once with all that is queued before it. */
  lemma AcceptedIff(events: seq<Event>, f: Frame, writes: nat)
    requires Sendable(f)
    ensures var s, t := Run(EMPTY, events), Run(EMPTY, events + [Send(f, writes)]);
      if |Concat(s.queue)| + 5 + |f.payload| <= 2_000_000 then
        var queue := s.queue + [Header(f.kind, |f.payload|)] + (if f.payload == [] then [] else [f.payload]);
        t.frames == s.frames + [f] && t.queue == Left(queue, writes) && t.handed == s.handed + Offered(queue, writes)
      else t == s
  {
    hide Flush, Header, Run;
    var s := Run(EMPTY, events);
    Accounting(events);
    RunSnoc(EMPTY, events, Send(f, writes));
    if HasRoom(s, f) {
      FlushMeaning(Push(s, f), writes);
    }
  }

  /** A drain flushes what is queued, if one is awaited, and nothing else. */
  lemma DrainFlushes(events: seq<Event>, writes: nat)
    ensures var s, t := Run(EMPTY, events), Run(EMPTY, events + [Drain(writes)]);
      && t.frames == s.frames
      && if s.drainArmed then t.queue == Left(s.queue, writes) && t.handed == s.handed + Offered(s.queue, writes) else t == s
  {
    hide Flush, Run;
    RunSnoc(EMPTY, events, Drain(writes));
    FlushMeaning(Run(EMPTY, events).(drainArmed := false), writes);
  }

  // ----- what a refusal does -----

  // The header is refused and written again after the drain; then the payload is.
  lemma RefusedRuns(f: Frame, more: nat)
    requires Fits(f) && f.payload != [] && HasRoom(EMPTY, f)
    ensures var header := Header(f.kind, |f.payload|);
      && Run(EMPTY, [Send(f, 0), Drain(more + 2)]).handed == header + header + f.payload
      && Run(EMPTY, [Send(f, 1), Drain(more + 1)]).handed == header + f.payload + f.payload
  {
    hide Header;
    var header := Header(f.kind, |f.payload|);
    var pushed := Push(EMPTY, f);
    assert [header, f.payload][1..] == [f.payload] && [f.payload][1..] == [];
    assert pushed.queue == [header, f.payload];
    assert [] + header == header;
    RefusedRun(f, 0, more + 2);
    RefusedRun(f, 1, more + 1);
    var refused := Flush(pushed, 0);
    assert refused.queue == [header, f.payload] && refused.handed == header;
    FlushTwo(refused.(drainArmed := false), header, f.payload, more + 2);
    var half := Flush(pushed, 1);
    assert half.queue == [f.payload] && half.handed == header + f.payload;
    FlushOne(half.(drainArmed := false), f.payload, more + 1);
  }

  lemma RefusedRun(f: Frame, writes: nat, more: nat)
    requires Fits(f) && HasRoom(EMPTY, f) && Flush(Push(EMPTY, f), writes).drainArmed
    ensures Run(EMPTY, [Send(f, writes), Drain(more)]) == Flush(Flush(Push(EMPTY, f), writes).(drainArmed := false), more)
  {
    hide Flush, Push;
    assert [Send(f, writes), Drain(more)][1..] == [Drain(more)] && [Drain(more)][1..] == [];
    var s := Step(EMPTY, Send(f, writes));
    assert Run(s, [Drain(more)]) == Step(s, Drain(more));
  }

  lemma FlushOne(s: Stdin, buf: seq<Byte>, writes: nat)
    requires s.queue == [buf] && writes > 0
    ensures Flush(s, writes).handed == s.handed + buf && Flush(s, writes).queue == []
  {
    assert [buf][1..] == [];
  }

  lemma FlushTwo(s: Stdin, a: seq<Byte>, b: seq<Byte>, writes: nat)
    requires s.queue == [a, b] && writes > 1
    ensures Flush(s, writes).handed == s.handed + a + b && Flush(s, writes).queue == []
  {
    assert [a, b][1..] == [b];
    FlushOne(s.(handed := s.handed + a, queue := [b], queuedBytes := s.queuedBytes - |a|, taken := s.taken + a), b, writes - 1);
  }

  /** What the subprocess decodes after a refused header: the second header is taken for the start of the
      payload. The frame has the right kind and length but the wrong bytes, unless they repeat the header, and
      five bytes too many are read as the next header. */
  lemma HeaderTwiceDecoded(f: Frame, chunks: seq<seq<Byte>>)
    requires Fits(f) && f.payload != []
    requires Concat(chunks) == Header(f.kind, |f.payload|) + Header(f.kind, |f.payload|) + f.payload
    ensures var n, doubled := |f.payload|, Header(f.kind, |f.payload|) + f.payload;
      && |doubled[n..]| == HEADER_BYTES
      && PushAll(FRESH, chunks).0 == Feed(FRESH, doubled[n..]).state
      && Feed(FRESH, Concat(chunks)) == Fed(FRESH, [Frame(f.kind, doubled[..n])], false).Then(Feed(FRESH, doubled[n..]))
  {
    hide Feed, Header, Encode;
    var header, n := Header(f.kind, |f.payload|), |f.payload|;
    var doubled := header + f.payload;
    assert header + header + f.payload == (header + doubled[..n]) + doubled[n..];
    FeedHeadAndPayload(f.kind, doubled[..n]);
    FeedAppend(FRESH, header + doubled[..n], doubled[n..]);
    ChunkingIrrelevant(FRESH, chunks);
  }

  lemma FeedHeadAndPayload(kind: Byte, payload: seq<Byte>)
    requires |payload| <= MAX_FRAME_BYTES
    ensures Feed(FRESH, Header(kind, |payload|) + payload) == Fed(FRESH, [Frame(kind, payload)], false)
  {
    FeedEncoded(Frame(kind, payload));
  }

  /** After a refused payload: the frame arrives, and its payload is then read once more as if it were
      frames. */
  lemma PayloadTwiceDecoded(f: Frame, chunks: seq<seq<Byte>>)
    requires Fits(f) && Concat(chunks) == Header(f.kind, |f.payload|) + f.payload + f.payload
    ensures PushAll(FRESH, chunks).0 == Feed(FRESH, f.payload).state
    ensures Feed(FRESH, Concat(chunks)) == Fed(FRESH, [f], false).Then(Feed(FRESH, f.payload))
  {
    hide Feed, Header, Encode;
    FeedHeadAndPayload(f.kind, f.payload);
    FeedAppend(FRESH, Header(f.kind, |f.payload|) + f.payload, f.payload);
    ChunkingIrrelevant(FRESH, chunks);
  }

  // ----- text written to the PTY -----

  // Long writes are cut every 8192 units, without regard to surrogate pairs.
  function Parts(data: Text): seq<Text>
    decreases |data|
  {
    if |data| <= MAX_CHUNK_CHARS then (if data == [] then [] else [data])
    else [data[..MAX_CHUNK_CHARS]] + Parts(data[MAX_CHUNK_CHARS..])
  }

  // A cut after `k` whole parts separates a surrogate pair.
  ghost predicate CutInsidePair(data: Text, k: nat) {
    0 < k * MAX_CHUNK_CHARS < |data| && CutsPair(data[..k * MAX_CHUNK_CHARS], data[k * MAX_CHUNK_CHARS..])
  }

  // The cuts after the first part are those of the rest.
  lemma CutShifts(data: Text, k: nat)
    requires |data| > MAX_CHUNK_CHARS
    ensures var first, rest := data[..MAX_CHUNK_CHARS], data[MAX_CHUNK_CHARS..];
      CutInsidePair(data, k + 1) <==> if k == 0 then CutsPair(first, rest) else CutInsidePair(rest, k)
  {
    var n := MAX_CHUNK_CHARS;
    var rest, m := data[n..], (k + 1) * n;
    assert m == k * n + n;
    if k > 0 && m < |data| {
      assert data[..m][m - 1] == rest[..k * n][k * n - 1];
      assert data[m..][0] == rest[k * n..][0];
    }
  }

  /** A write is sent with the bytes of its text exactly when no cut falls inside a surrogate pair;
      otherwise the halves are sent as replacement characters. */
  lemma {:induction false} PartsKeepBytes(data: Text)
    ensures Concat(Parts(data)) == data
    ensures TotalBytes(Parts(data)) >= ByteLength(data)
    ensures TotalBytes(Parts(data)) == ByteLength(data) <==> forall k: nat :: !CutInsidePair(data, k)
    decreases |data|
  {
    hide ByteLength;
    var n := MAX_CHUNK_CHARS;
    if |data| <= n {
      if data != [] {
        assert [data][1..] == [];
        assert TotalBytes([data]) == ByteLength(data) + TotalBytes([]);
        assert Concat([data]) == data + Concat([]) == data;
      } else {
        assert ByteLength(data) == 0 by {
          ByteLengthOfCut([], []);
          assert data + data == data;
        }
      }
      forall k: nat
        ensures !CutInsidePair(data, k)
      {
        assert k > 0 ==> k * n >= n;
      }
    } else {
      var first, rest := data[..n], data[n..];
      assert first + rest == data;
      PartsKeepBytes(rest);
      ByteLengthOfCut(first, rest);
      assert Parts(data)[1..] == Parts(rest);
      forall k: nat
        ensures CutInsidePair(data, k + 1) <==> if k == 0 then CutsPair(first, rest) else CutInsidePair(rest, k)
      {
        CutShifts(data, k);
      }
      hide CutsPair;
      if forall k: nat :: !CutInsidePair(data, k) {
        forall k: nat
          ensures !CutInsidePair(rest, k)
        {
          assert !CutInsidePair(data, k + 1);
        }
        assert !CutInsidePair(data, 0 + 1);
      }
      if !CutsPair(first, rest) && forall k: nat :: !CutInsidePair(rest, k) {
        forall k: nat
          ensures !CutInsidePair(data, k)
        {
          if k > 0 {
            assert CutInsidePair(data, (k - 1) + 1) <==> if k - 1 == 0 then CutsPair(first, rest) else CutInsidePair(rest, k - 1);
          }
        }
      }
    }
  }

  /** There is such a text: a pair whose halves are the last unit of one part and the first of the next. */
  lemma PairIsCut(before: Text, high: CodeUnit, low: CodeUnit, after: Text)
    requires |before| == MAX_CHUNK_CHARS - 1 && IsHighSurrogate(high) && IsLowSurrogate(low)
    ensures var data := before + [high, low] + after;
      CutInsidePair(data, 1) && TotalBytes(Parts(data)) > ByteLength(data)
  {
    var data := before + [high, low] + after;
    var a, b := data[..1 * MAX_CHUNK_CHARS], data[1 * MAX_CHUNK_CHARS..];
    assert a[|a| - 1] == high && b[0] == low;
    hide ByteLength, Parts;
    PartsKeepBytes(data);
  }

  // ----- the queue as written -----

  class StdinQueue {
    var queue: seq<seq<Byte>>
    var queuedBytes: int
    var drainArmed: bool

    ghost var frames: seq<Frame>
    ghost var taken: seq<Byte>
    ghost var handed: seq<Byte>
    ghost var refusals: nat

    ghost function View(): Stdin
      reads this
    {
      Stdin(queue, queuedBytes, drainArmed, frames, taken, handed, refusals)
    }

    constructor ()
      ensures View() == EMPTY
    {
      queue, queuedBytes, drainArmed := [], 0, false;
      frames, taken, handed, refusals := [], [], [], 0;
    }

    // `writes` is how many writes the stream answers with true before it answers false.
    method FlushQueue(writes: nat)
      modifies this
      ensures View() == Flush(old(View()), writes)
    {
      var left := writes;
      while queue != []
        invariant Flush(View(), left) == Flush(old(View()), writes)
        decreases |queue|
      {
        var buf := queue[0];
        handed := handed + buf;
        var canWrite := left > 0;
        if !canWrite {
          refusals := refusals + 1;
          if !drainArmed {
            drainArmed := true;
          }
          return;
        }
        left := left - 1;
        taken := taken + buf;
        queue := queue[1..];
        queuedBytes := queuedBytes - |buf|;
      }
    }

    method SendFrame(f: Frame, writes: nat) returns (ok: bool)
      requires Sendable(f)
      modifies this
      ensures View() == Step(old(View()), Send(f, writes))
      ensures ok <==> HasRoom(old(View()), f) && !drainArmed
    {
      hide Header, Flush;
      var frameSize := HEADER_BYTES + |f.payload|;
      if queuedBytes + frameSize > MAX_QUEUE_BYTES {
        return false;
      }
      var header := Header(f.kind, |f.payload|);
      queue := queue + [header];
      queuedBytes := queuedBytes + |header|;
      if f.payload != [] {
        queue := queue + [f.payload];
        queuedBytes := queuedBytes + |f.payload|;
      }
      frames := frames + [f];
      assert View() == Push(old(View()), f);
      FlushQueue(writes);
      return !drainArmed;
    }

    method OnDrain(writes: nat)
      requires drainArmed
      modifies this
      ensures View() == Step(old(View()), Drain(writes))
    {
      drainArmed := false;
      FlushQueue(writes);
    }
  }
}
