/** The queue of text that a terminal session (src/main/terminal-host/session.ts) still has to write to
    its headless emulator, and the attach calls that wait for a point in it. */
module EmulatorQueue {
  import opened Bytes
  import opened Utf16

  const HIGH_WATERMARK_BYTES := 1_000_000
  const LOW_WATERMARK_BYTES := 250_000

  // A waiter resolves once `target` items have been processed; tokens identify attach calls.
  datatype Waiter = Waiter(token: nat, target: nat)

  datatype Emulation = Emulation(
    queue: seq<Text>,
    queuedBytes: int,
    scheduled: bool,
    backpressured: bool,
    processed: nat,
    waiters: seq<Waiter>,
    written: Text,         // everything the emulator was given
    log: Text,             // everything ever enqueued
    since: seq<nat>,       // for each attach call, the length of the log when it was made
    reached: set<nat>      // the attach calls whose boundary was reached
  )

  function SplitPoint(chunk: Text): (k: nat)
    requires |chunk| > MAX_CHUNK_CHARS
    ensures 0 < k < |chunk|
  {
    if IsHighSurrogate(chunk[MAX_CHUNK_CHARS - 1]) && IsLowSurrogate(chunk[MAX_CHUNK_CHARS])
    then MAX_CHUNK_CHARS - 1 else MAX_CHUNK_CHARS
  }

  /** The splits of long writes never separate a surrogate pair, so byte lengths add up. */
  lemma SplitKeepsBytes(chunk: Text)
    requires |chunk| > MAX_CHUNK_CHARS
    ensures var k := SplitPoint(chunk);
      ByteLength(chunk[..k]) + ByteLength(chunk[k..]) == ByteLength(chunk)
  {
    var k := SplitPoint(chunk);
    assert chunk[..k] + chunk[k..] == chunk;
    ByteLengthOfCut(chunk[..k], chunk[k..]);
  }

  function Enqueue(e: Emulation, data: Text): Emulation {
    var bytes := e.queuedBytes + ByteLength(data);
    e.(queue := e.queue + [data], queuedBytes := bytes, log := e.log + data,
       backpressured := e.backpressured || bytes >= HIGH_WATERMARK_BYTES, scheduled := true)
  }

  function Remaining(waiters: seq<Waiter>, processed: nat): seq<Waiter> {
    if waiters == [] then []
    else (if processed >= waiters[0].target then [] else [waiters[0]]) + Remaining(waiters[1..], processed)
  }

  function ReachedBy(waiters: seq<Waiter>, processed: nat): set<nat> {
    if waiters == [] then {}
    else (if processed >= waiters[0].target then {waiters[0].token} else {}) + ReachedBy(waiters[1..], processed)
  }

  // One waiter more is resolved or remains.
  lemma WaiterTaken(waiters: seq<Waiter>, i: nat, processed: nat, remaining: seq<Waiter>, reached: set<nat>)
    requires i < |waiters|
    ensures remaining + Remaining(waiters[i..], processed) ==
            (if processed >= waiters[i].target then remaining else remaining + [waiters[i]]) + Remaining(waiters[i + 1..], processed)
    ensures reached + ReachedBy(waiters[i..], processed) ==
            (if processed >= waiters[i].target then reached + {waiters[i].token} else reached) + ReachedBy(waiters[i + 1..], processed)
  {
    assert waiters[i..][1..] == waiters[i + 1..];
    ConcatAssociates(remaining, [waiters[i]], Remaining(waiters[i + 1..], processed));
  }

  lemma NoWaiters(processed: nat)
    ensures Remaining([], processed) == [] && ReachedBy([], processed) == {}
  {
  }

  function ResolveReached(e: Emulation): Emulation {
    e.(waiters := Remaining(e.waiters, e.processed), reached := e.reached + ReachedBy(e.waiters, e.processed))
  }

  // One iteration of the processing loop.
  function ProcessItem(e: Emulation): Emulation
    requires e.queue != []
  {
    var head := e.queue[0];
    if |head| > MAX_CHUNK_CHARS then
      var k := SplitPoint(head);
      e.(queue := e.queue[0 := head[k..]], queuedBytes := e.queuedBytes - ByteLength(head[..k]),
         written := e.written + head[..k])
    else
      ResolveReached(e.(queue := e.queue[1..], processed := e.processed + 1))
        .(queuedBytes := e.queuedBytes - ByteLength(head), written := e.written + head)
  }

  // `budget` is the number of iterations the clock allows.
  function Loop(e: Emulation, budget: nat): Emulation
    decreases budget
  {
    if budget == 0 || e.queue == [] then e else Loop(ProcessItem(e), budget - 1)
  }

  function Finish(e: Emulation): Emulation {
    var resumed := e.(backpressured := e.backpressured && e.queuedBytes > LOW_WATERMARK_BYTES);
    if e.queue == [] then ResolveReached(resumed.(scheduled := false)) else resumed
  }

  function Turn(e: Emulation, budget: nat): Emulation {
    Finish(Loop(e, budget))
  }

  // A new attach call waits for the text enqueued so far.
  function Mark(e: Emulation): Emulation {
    var token := |e.since|;
    var marked := e.(since := e.since + [|e.log|]);
    if e.queue == [] then marked.(reached := e.reached + {token})
    else ResolveReached(marked.(waiters := e.waiters + [Waiter(token, e.processed + |e.queue|)], scheduled := true))
  }

  function WithoutToken(waiters: seq<Waiter>, token: nat): seq<Waiter> {
    if waiters == [] then []
    else (if waiters[0].token == token then [] else [waiters[0]]) + WithoutToken(waiters[1..], token)
  }

  // The attach call stops waiting.
  function GiveUp(e: Emulation, token: nat): Emulation {
    e.(waiters := WithoutToken(e.waiters, token))
  }

  // The text a waiter still waits for: that of the items before its boundary.
  function Missing(e: Emulation, w: Waiter): Text
    requires e.processed <= w.target <= e.processed + |e.queue|
  {
    Concat(e.queue[..w.target - e.processed])
  }

  ghost predicate WaiterOk(e: Emulation, w: Waiter) {
    && w.token < |e.since|
    && w.token !in e.reached
    && e.processed < w.target <= e.processed + |e.queue|
    && e.since[w.token] == |e.written| + |Missing(e, w)|
  }

  // What holds even in the middle of a turn.
  ghost predicate Core(e: Emulation) {
    && e.written + Concat(e.queue) == e.log
    && e.queuedBytes == TotalBytes(e.queue)
    && (!e.backpressured ==> e.queuedBytes < HIGH_WATERMARK_BYTES)
    && (forall w :: w in e.waiters ==> WaiterOk(e, w))
    && (forall w, w' :: w in e.waiters && w' in e.waiters && w.token == w'.token ==> w == w')
    && (forall t :: t in e.reached ==> t < |e.since| && e.since[t] <= |e.written|)
    && (forall t :: 0 <= t < |e.since| ==> e.since[t] <= |e.log|)
  }

  ghost predicate Inv(e: Emulation) {
    && Core(e)
    && (e.scheduled <==> e.queue != [])
    && (e.backpressured ==> e.queuedBytes > LOW_WATERMARK_BYTES)
  }

  lemma {:induction false} TotalBytesAppend(a: seq<Text>, data: Text)
    ensures TotalBytes(a + [data]) == TotalBytes(a) + ByteLength(data)
  {
    hide ByteLength;
    if a == [] {
      assert a + [data] == [data];
      assert [data][1..] == [];
    } else {
      assert (a + [data])[1..] == a[1..] + [data];
      TotalBytesAppend(a[1..], data);
    }
  }

  lemma {:induction false} ConcatTake(queue: seq<Text>, k: nat)
    requires k <= |queue|
    ensures |Concat(queue[..k])| <= |Concat(queue)|
    ensures k > 0 ==> Concat(queue[..k]) == queue[0] + Concat(queue[1..][..k - 1])
  {
    assert queue == queue[..k] + queue[k..];
    ConcatAppend(queue[..k], queue[k..]);
    if k > 0 {
      assert queue[..k][1..] == queue[1..][..k - 1];
    }
  }

  lemma {:induction false} RemainingMembers(waiters: seq<Waiter>, processed: nat)
    ensures forall w :: w in Remaining(waiters, processed) <==> w in waiters && processed < w.target
    ensures forall t :: t in ReachedBy(waiters, processed) <==> exists w :: w in waiters && processed >= w.target && w.token == t
  {
    if waiters == [] {
    } else {
      RemainingMembers(waiters[1..], processed);
    }
  }

  lemma {:induction false} WithoutTokenMembers(waiters: seq<Waiter>, token: nat)
    ensures forall w :: w in WithoutToken(waiters, token) <==> w in waiters && w.token != token
  {
    if waiters == [] {
    } else {
      WithoutTokenMembers(waiters[1..], token);
    }
  }

  lemma EnqueueKeeps(e: Emulation, data: Text)
    requires Inv(e)
    ensures Inv(Enqueue(e, data))
  {
    hide ByteLength;
    var n := Enqueue(e, data);
    TotalBytesAppend(e.queue, data);
    ConcatSnoc(e.queue, data);
    ConcatAssociates(e.written, Concat(e.queue), data);
    forall w | w in n.waiters
      ensures WaiterOk(n, w)
    {
      assert n.queue[..w.target - e.processed] == e.queue[..w.target - e.processed];
      assert WaiterOk(e, w);
    }
  }

  lemma SplitItemKeeps(e: Emulation)
    requires Core(e) && e.queue != [] && |e.queue[0]| > MAX_CHUNK_CHARS
    ensures Core(ProcessItem(e))
  {
    hide ByteLength;
    var head, tail := e.queue[0], e.queue[1..];
    var n := ProcessItem(e);
    var k := SplitPoint(head);
    SplitKeepsBytes(head);
    hide SplitPoint;
    assert n.queue[0] == head[k..] && n.queue[1..] == tail;
    assert head == head[..k] + head[k..];
    ConcatAssociates(head[..k], head[k..], Concat(tail));
    ConcatAssociates(e.written, head[..k], Concat(n.queue));
    forall w | w in n.waiters
      ensures WaiterOk(n, w)
    {
      assert WaiterOk(e, w);
      ConcatTake(e.queue, w.target - e.processed);
      ConcatTake(n.queue, w.target - e.processed);
    }
  }

  lemma WholeItemKeeps(e: Emulation)
    requires Core(e) && e.queue != [] && |e.queue[0]| <= MAX_CHUNK_CHARS
    ensures Core(ProcessItem(e))
  {
    hide ByteLength;
    var head, tail := e.queue[0], e.queue[1..];
    var n := ProcessItem(e);
    ConcatAssociates(e.written, head, Concat(tail));
    RemainingMembers(e.waiters, e.processed + 1);
    forall w | w in e.waiters
      ensures w.token < |e.since|
      ensures w.target > e.processed + 1 ==>
                w.target <= n.processed + |n.queue| && e.since[w.token] == |n.written| + |Missing(n, w)|
      ensures w.target == e.processed + 1 ==> e.since[w.token] == |n.written|
    {
      assert WaiterOk(e, w);
      ConcatTake(e.queue, w.target - e.processed);
      assert w.target == e.processed + 1 ==> tail[..0] == [];
    }
    forall w | w in n.waiters
      ensures WaiterOk(n, w)
    {
      assert WaiterOk(e, w);
    }
  }

  lemma {:induction false} LoopKeeps(e: Emulation, budget: nat)
    requires Core(e)
    ensures Core(Loop(e, budget))
    decreases budget
  {
    hide Core, ProcessItem;
    if budget != 0 && e.queue != [] {
      if |e.queue[0]| > MAX_CHUNK_CHARS {
        SplitItemKeeps(e);
      } else {
        WholeItemKeeps(e);
      }
      LoopKeeps(ProcessItem(e), budget - 1);
    }
  }

  lemma NothingToResolve(e: Emulation)
    requires Core(e)
    ensures ResolveReached(e) == e
  {
    assert forall w :: w in e.waiters ==> WaiterOk(e, w);
    NoneRemoved(e.waiters, e.processed);
    assert e.reached + {} == e.reached;
  }

  lemma {:induction false} NoneRemoved(waiters: seq<Waiter>, processed: nat)
    requires forall w :: w in waiters ==> processed < w.target
    ensures Remaining(waiters, processed) == waiters && ReachedBy(waiters, processed) == {}
  {
    if waiters == [] {
    } else {
      NoneRemoved(waiters[1..], processed);
    }
  }

  /** A turn keeps the invariant whatever the clock allows, and it ends the schedule exactly when
      nothing is left. */
  lemma TurnKeeps(e: Emulation, budget: nat)
    requires Inv(e)
    ensures Inv(Turn(e, budget))
  {
    LoopKeeps(e, budget);
    LoopSchedule(e, budget);
    var n := Loop(e, budget);
    var f := Finish(n).(scheduled := n.scheduled);
    forall w | w in n.waiters
      ensures WaiterOk(n.(backpressured := f.backpressured), w)
    {
      assert WaiterOk(n, w);
    }
    assert Core(n.(backpressured := f.backpressured));
    NothingToResolve(n.(backpressured := f.backpressured));
    assert f == n.(backpressured := f.backpressured);
    forall w | w in n.waiters
      ensures WaiterOk(Finish(n), w)
    {
      assert WaiterOk(n, w);
    }
  }

  lemma {:induction false} LoopSchedule(e: Emulation, budget: nat)
    ensures var n := Loop(e, budget);
      n.scheduled == e.scheduled && n.backpressured == e.backpressured && n.log == e.log && n.since == e.since &&
      (n.queue != [] ==> e.queue != [])
    decreases budget
  {
    if budget != 0 && e.queue != [] {
      LoopSchedule(ProcessItem(e), budget - 1);
    }
  }

  // What the steps do to the history.
  lemma StepHistory(e: Emulation, budget: nat, token: nat)
    ensures Turn(e, budget).log == e.log && Turn(e, budget).since == e.since
    ensures Mark(e).log == e.log && Mark(e).since == e.since + [|e.log|]
    ensures GiveUp(e, token).log == e.log && GiveUp(e, token).since == e.since
  {
    LoopSchedule(e, budget);
  }

  lemma ReachedHaveCalls(e: Emulation)
    requires Inv(e)
    ensures forall t :: t in e.reached ==> t < |e.since|
  {
  }

  lemma NothingReached(e: Emulation)
    requires Inv(e)
    ensures ResolveReached(e) == e && forall t :: t in e.reached ==> t < |e.since|
  {
    NothingToResolve(e);
  }

  lemma {:induction false} AbsentToken(waiters: seq<Waiter>, token: nat)
    requires forall w :: w in waiters ==> w.token != token
    ensures WithoutToken(waiters, token) == waiters
  {
    if waiters == [] {
    } else {
      AbsentToken(waiters[1..], token);
    }
  }

  lemma ReachedDoesNotWait(e: Emulation, token: nat)
    requires Core(e) && token in e.reached
    ensures WithoutToken(e.waiters, token) == e.waiters
  {
    assert forall w :: w in e.waiters ==> WaiterOk(e, w);
    AbsentToken(e.waiters, token);
  }

  lemma WaiterHasItems(e: Emulation, w: Waiter)
    requires Core(e) && w in e.waiters
    ensures e.queue != []
  {
    assert WaiterOk(e, w);
  }

  lemma NoItemsNoWaiters(e: Emulation)
    requires Core(e) && e.queue == []
    ensures e.waiters == []
  {
    hide Core;
    if e.waiters != [] {
      WaiterHasItems(e, e.waiters[0]);
      assert false;
    }
  }

  lemma MarkKeeps(e: Emulation)
    requires Inv(e)
    ensures Inv(Mark(e))
  {
    if e.queue == [] {
      NoItemsNoWaiters(e);
      assert e.written + [] == e.written;
    } else {
      var w' := Waiter(|e.since|, e.processed + |e.queue|);
      var n := e.(since := e.since + [|e.log|], waiters := e.waiters + [w'], scheduled := true);
      MarkedWaiters(e, n, w');
      NothingToResolve(n);
    }
  }

  lemma MarkedWaiters(e: Emulation, n: Emulation, w': Waiter)
    requires Inv(e) && e.queue != []
    requires w' == Waiter(|e.since|, e.processed + |e.queue|)
    requires n == e.(since := e.since + [|e.log|], waiters := e.waiters + [w'], scheduled := true)
    ensures Inv(n)
  {
    hide TotalBytes;
    assert e.queue[..|e.queue|] == e.queue;
    forall w | w in e.waiters
      ensures WaiterOk(n, w) && w.token < |e.since|
    {
      assert WaiterOk(e, w);
    }
    assert WaiterOk(n, w');
  }

  lemma GiveUpKeeps(e: Emulation, token: nat)
    requires Inv(e)
    ensures Inv(GiveUp(e, token))
  {
    var n := GiveUp(e, token);
    WithoutTokenMembers(e.waiters, token);
    forall w | w in n.waiters
      ensures WaiterOk(n, w)
    {
      assert WaiterOk(e, w);
    }
  }

  // ----- progress -----

  // Turns needed at most: every item and every unit of text takes a step.
  function Work(queue: seq<Text>): nat {
    |queue| + |Concat(queue)|
  }

  lemma {:induction false} LoopDrains(e: Emulation, budget: nat)
    ensures Work(e.queue) <= budget ==> Loop(e, budget).queue == []
    ensures e.queue != [] && budget > 0 ==> Work(Loop(e, budget).queue) < Work(e.queue)
    ensures Work(Loop(e, budget).queue) <= Work(e.queue)
    decreases budget
  {
    if budget != 0 && e.queue != [] {
      var head, n := e.queue[0], ProcessItem(e);
      if |head| > MAX_CHUNK_CHARS {
        var k := SplitPoint(head);
        hide SplitPoint;
        assert n.queue[0] == head[k..] && n.queue[1..] == e.queue[1..];
      }
      assert Work(n.queue) < Work(e.queue);
      LoopDrains(n, budget - 1);
    }
  }

  /** The emulator catches up: every turn that is allowed an iteration makes progress, and once it is
      allowed as many as there are items and units of text, the queue is empty, everything enqueued
      has been written, PTY reads resume and no attach call waits any more. */
  lemma TurnCatchesUp(e: Emulation, budget: nat)
    requires Inv(e)
    ensures e.queue != [] && budget > 0 ==> Work(Turn(e, budget).queue) < Work(e.queue)
    ensures Work(e.queue) <= budget ==>
      var n := Turn(e, budget);
      n.queue == [] && n.written == e.log && !n.scheduled && !n.backpressured && n.waiters == []
  {
    LoopDrains(e, budget);
    LoopSchedule(e, budget);
    TurnKeeps(e, budget);
    var n := Turn(e, budget);
    if n.queue == [] {
      NoItemsNoWaiters(n);
    }
  }

  /** One pass writes the head of the queue, or of a head of more than 8192 units the first 8192, one less if
      that would separate a surrogate pair; what is left of it stays the head. */
  lemma OnePassWrites(e: Emulation)
    requires Inv(e) && e.queue != []
    ensures var head, n := e.queue[0], Turn(e, 1);
      if |head| <= 8192 then n.written == e.written + head && n.queue == e.queue[1..] && n.processed == e.processed + 1
      else
        var k := if 0xd800 <= head[8191] <= 0xdbff && 0xdc00 <= head[8192] <= 0xdfff then 8191 else 8192;
        n.written == e.written + head[..k] && n.queue == [head[k..]] + e.queue[1..] && n.processed == e.processed
  {
    hide Inv, ResolveReached, ByteLength;
    Resolves(e);
    assert Loop(ProcessItem(e), 0) == ProcessItem(e);
    assert Loop(e, 1) == ProcessItem(e);
  }

  lemma Resolves(e: Emulation)
    ensures forall n: Emulation :: ResolveReached(n).queue == n.queue && ResolveReached(n).written == n.written
    ensures forall n: Emulation :: ResolveReached(n).processed == n.processed
  {
  }

  // ----- what becomes of an attach call's boundary -----

  // Items were processed from e to n, which resolved the waiters for them and no other.
  ghost predicate Advanced(e: Emulation, n: Emulation) {
    && e.processed <= n.processed && n.processed + |n.queue| == e.processed + |e.queue|
    && (forall w :: w in n.waiters <==> w in e.waiters && n.processed < w.target)
    && (forall t :: t in n.reached <==> t in e.reached || ReachedOf(e.waiters, t, n.processed))
  }

  ghost predicate ReachedOf(waiters: seq<Waiter>, token: nat, processed: nat) {
    exists w :: w in waiters && w.token == token && w.target <= processed
  }

  lemma Unadvanced(e: Emulation)
    requires Core(e)
    ensures Advanced(e, e)
  {
    assert forall w :: w in e.waiters ==> WaiterOk(e, w);
  }

  lemma ItemAdvances(e: Emulation)
    requires Core(e) && e.queue != []
    ensures Advanced(e, ProcessItem(e))
  {
    hide ByteLength;
    if |e.queue[0]| > MAX_CHUNK_CHARS {
      Unadvanced(e);
    } else {
      RemainingMembers(e.waiters, e.processed + 1);
    }
  }

  lemma AdvancesOn(e: Emulation, m: Emulation, n: Emulation)
    requires Advanced(e, m) && Advanced(m, n)
    ensures Advanced(e, n)
  {
    forall t
      ensures t in n.reached <==> t in e.reached || ReachedOf(e.waiters, t, n.processed)
    {
      if w :| w in e.waiters && w.token == t && w.target <= n.processed {
        assert w in m.waiters || w.target <= m.processed;
      }
    }
  }

  lemma {:induction false} LoopAdvances(e: Emulation, budget: nat)
    requires Core(e)
    ensures Advanced(e, Loop(e, budget))
    decreases budget
  {
    hide Core, ProcessItem, Advanced;
    Unadvanced(e);
    if budget != 0 && e.queue != [] {
      var n := ProcessItem(e);
      ItemAdvances(e);
      if |e.queue[0]| > MAX_CHUNK_CHARS {
        SplitItemKeeps(e);
      } else {
        WholeItemKeeps(e);
      }
      LoopAdvances(n, budget - 1);
      AdvancesOn(e, n, Loop(n, budget - 1));
    }
  }

  lemma TurnAdvances(e: Emulation, budget: nat)
    requires Inv(e)
    ensures Advanced(e, Turn(e, budget))
  {
    LoopAdvances(e, budget);
    LoopKeeps(e, budget);
    var n := Loop(e, budget);
    var resumed := n.(backpressured := n.backpressured && n.queuedBytes > LOW_WATERMARK_BYTES);
    hide Loop, Core;
    NothingLeftToResolve(n, resumed);
  }

  lemma NothingLeftToResolve(n: Emulation, resumed: Emulation)
    requires Core(n) && resumed.waiters == n.waiters && resumed.processed == n.processed && resumed.reached == n.reached
    ensures ResolveReached(resumed) == resumed
    ensures ResolveReached(resumed.(scheduled := false)) == resumed.(scheduled := false)
  {
    assert forall w :: w in n.waiters ==> WaiterOk(n, w);
    NoneRemoved(n.waiters, n.processed);
    assert n.reached + {} == n.reached;
  }

  // ----- what a snapshot holds -----

  /** When an attach call's boundary was reached, the emulator has all text enqueued before the call. */
  lemma ReachedHasAll(e: Emulation, token: nat)
    requires Inv(e) && token in e.reached
    ensures token < |e.since| && e.since[token] <= |e.log| && e.log[..e.since[token]] <= e.written
  {
    assert e.written == e.log[..|e.written|];
  }

  /** While an attach call waits (or gives up waiting and takes its snapshot early) exactly the text
      of the items before its boundary is missing from the emulator. */
  lemma WaitingMisses(e: Emulation, w: Waiter)
    requires Inv(e) && w in e.waiters
    ensures WaiterOk(e, w) && e.written + Missing(e, w) == e.log[..e.since[w.token]]
    ensures (forall text :: text in e.queue ==> text != []) ==> Missing(e, w) != []
  {
    assert WaiterOk(e, w);
    var k := w.target - e.processed;
    assert e.queue == e.queue[..k] + e.queue[k..];
    ConcatAppend(e.queue[..k], e.queue[k..]);
    ConcatAssociates(e.written, Missing(e, w), Concat(e.queue[k..]));
    ConcatTake(e.queue, k);
    assert e.queue[0] in e.queue;
  }
}
