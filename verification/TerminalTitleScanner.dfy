/** The scanner that follows terminal-title OSC sequences through PTY output
    (packages/shared/src/terminal-title-scanner.ts). Framing is that of ECMA-48, section 8.3.89.

    The reference is an automaton that reads one byte at a time and holds any amount of input. The
    scanner instead searches each chunk for introducers and terminators and carries at most 4096
    bytes over to the next chunk. */
module TerminalTitleScanner {
  import opened Wrappers
  import opened Bytes
  import opened JsStrings

  const MAX_OSC_SEQUENCE_BYTES := 4096
  const MAX_TERMINAL_TITLE_LENGTH := 200

  const ESC: Byte := 0x1b
  const BACKSLASH: Byte := 0x5c
  const RIGHT_BRACKET: Byte := 0x5d
  const C1_OSC: Byte := 0x9d
  const C1_ST: Byte := 0x9c
  const BEL: Byte := 0x07

  // ----- the reference automaton -----

  // A complete OSC sequence: all its bytes, introducer to terminator, and the payload between them.
  datatype Sequence = Sequence(bytes: seq<Byte>, payload: seq<Byte>)

  // `Osc` holds the bytes of an unfinished sequence, of which the first `intro` are the introducer.
  datatype State = Ground | Escape | Osc(intro: nat, bytes: seq<Byte>)

  predicate WellFormed(q: State) {
    q.Osc? ==> q.intro <= |q.bytes| &&
               (q.bytes[..q.intro] == [C1_OSC] || q.bytes[..q.intro] == [ESC, RIGHT_BRACKET])
  }

  datatype Ran = Ran(state: State, done: seq<Sequence>)

  predicate AfterEscape(q: State)
    requires WellFormed(q) && q.Osc?
  {
    q.intro < |q.bytes| && q.bytes[|q.bytes| - 1] == ESC
  }

  function Read(q: State, b: Byte): (r: Ran)
    requires WellFormed(q)
    ensures WellFormed(r.state)
  {
    if q.Osc? then
      if b == BEL || b == C1_ST then Ran(Ground, [Sequence(q.bytes + [b], q.bytes[q.intro..])])
      else if b == BACKSLASH && AfterEscape(q) then
        Ran(Ground, [Sequence(q.bytes + [b], q.bytes[q.intro..|q.bytes| - 1])])
      else
        assert (q.bytes + [b])[..q.intro] == q.bytes[..q.intro];
        Ran(Osc(q.intro, q.bytes + [b]), [])
    else if b == C1_OSC then Ran(Osc(1, [b]), [])
    else if b == ESC then Ran(Escape, [])
    else if b == RIGHT_BRACKET && q.Escape? then Ran(Osc(2, [ESC, b]), [])
    else Ran(Ground, [])
  }

  function Run(q: State, s: seq<Byte>): (r: Ran)
    requires WellFormed(q)
    ensures WellFormed(r.state)
    decreases |s|
  {
    if s == [] then Ran(q, [])
    else
      var first := Read(q, s[0]);
      var rest := Run(first.state, s[1..]);
      Ran(rest.state, first.done + rest.done)
  }

  lemma {:induction false} RunAppend(q: State, a: seq<Byte>, b: seq<Byte>)
    requires WellFormed(q)
    ensures var first := Run(q, a);
      var second := Run(first.state, b);
      Run(q, a + b) == Ran(second.state, first.done + second.done)
    decreases |a|
  {
    hide Read;
    if a == [] {
      assert a + b == b;
      assert [] + Run(q, b).done == Run(q, b).done;
    } else {
      assert (a + b)[1..] == a[1..] + b;
      var first := Read(q, a[0]);
      RunAppend(first.state, a[1..], b);
      var mid := Run(first.state, a[1..]);
      assert first.done + (mid.done + Run(mid.state, b).done) == (first.done + mid.done) + Run(mid.state, b).done;
    }
  }

  lemma RunSnoc(q: State, s: seq<Byte>, b: Byte)
    requires WellFormed(q)
    ensures var first := Run(q, s);
      var last := Read(first.state, b);
      Run(q, s + [b]) == Ran(last.state, first.done + last.done)
  {
    hide Read;
    RunAppend(q, s, [b]);
    var state := Run(q, s).state;
    assert Run(state, [b]).done == Read(state, b).done + [];
  }

  // The input that has to be kept to resume in state `q`.
  function Held(q: State): seq<Byte>
    requires WellFormed(q)
  {
    match q
    case Ground => []
    case Escape => [ESC]
    case Osc(_, bytes) => bytes
  }

  // ----- positions of introducers and terminators -----

  // The length of the introducer at position `i`, 0 if there is none.
  function IntroducerAt(s: seq<Byte>, i: nat): nat
    requires i < |s|
  {
    if s[i] == C1_OSC then 1
    else if s[i] == ESC && i + 1 < |s| && s[i + 1] == RIGHT_BRACKET then 2 else 0
  }

  function TerminatorAt(s: seq<Byte>, i: nat): nat
    requires i < |s|
  {
    if s[i] == BEL then 1
    else if s[i] == C1_ST then 1
    else if s[i] == ESC && i + 1 < |s| && s[i + 1] == BACKSLASH then 2 else 0
  }

  lemma ReadTerminator(q: State, b: Byte, end: nat)
    requires WellFormed(q) && q.Osc? && q.intro <= end <= |q.bytes|
    requires if end == |q.bytes| then b == BEL || b == C1_ST
             else end == |q.bytes| - 1 && q.bytes[end] == ESC && b == BACKSLASH
    ensures Read(q, b) == Ran(Ground, [Sequence(q.bytes + [b], q.bytes[q.intro..end])])
  {
    assert end == |q.bytes| ==> q.bytes[q.intro..end] == q.bytes[q.intro..];
  }

  lemma ReadInside(q: State, b: Byte)
    requires WellFormed(q) && q.Osc? && b != BEL && b != C1_ST && (b == BACKSLASH ==> !AfterEscape(q))
    ensures Read(q, b) == Ran(Osc(q.intro, q.bytes + [b]), [])
  {
  }

  // Between sequences the automaton only remembers whether the last byte was ESC.
  lemma {:induction false} RunBetween(input: seq<Byte>, from: nat, upto: nat)
    requires from <= upto <= |input|
    requires forall i: nat :: from <= i < upto - 1 ==> IntroducerAt(input, i) == 0
    requires from < upto ==> input[upto - 1] != C1_OSC
    ensures Run(Ground, input[from..upto]) == Ran(if from < upto && input[upto - 1] == ESC then Escape else Ground, [])
    decreases upto
  {
    if from < upto {
      var b := input[upto - 1];
      assert from < upto - 1 ==> IntroducerAt(input, upto - 2) == 0;
      RunBetween(input, from, upto - 1);
      RunSnoc(Ground, input[from..upto - 1], b);
      SliceSnoc(input, from, upto - 1);
      var before := if from < upto - 1 && input[upto - 2] == ESC then Escape else Ground;
      assert Read(before, b) == Ran(if b == ESC then Escape else Ground, []);
    }
  }

  lemma RunIntroducer(input: seq<Byte>, from: nat, at: nat)
    requires from <= at < |input| && IntroducerAt(input, at) > 0
    requires forall i: nat :: from <= i < at ==> IntroducerAt(input, i) == 0
    ensures var n := IntroducerAt(input, at);
      at + n <= |input| && WellFormed(Osc(n, input[at..at + n])) &&
      Run(Ground, input[from..at + n]) == Ran(Osc(n, input[at..at + n]), [])
  {
    hide Run;
    assert from < at ==> IntroducerAt(input, at - 1) == 0;
    RunBetween(input, from, at);
    RunSnoc(Ground, input[from..at], input[at]);
    SliceSnoc(input, from, at);
    if input[at] == C1_OSC {
      assert input[at..at + 1] == [C1_OSC];
    } else {
      RunBetween(input, from, at + 1);
      RunSnoc(Ground, input[from..at + 1], input[at + 1]);
      SliceSnoc(input, from, at + 1);
      assert input[at..at + 2] == [ESC, RIGHT_BRACKET];
    }
  }

  lemma {:induction false} RunInside(input: seq<Byte>, at: nat, n: nat, upto: nat)
    requires at + n <= upto <= |input|
    requires WellFormed(Osc(n, input[at..at + n]))
    requires forall i: nat :: at + n <= i < upto - 1 ==> TerminatorAt(input, i) == 0
    requires at + n < upto ==> input[upto - 1] != BEL && input[upto - 1] != C1_ST
    ensures WellFormed(Osc(n, input[at..upto]))
    ensures Run(Osc(n, input[at..at + n]), input[at + n..upto]) == Ran(Osc(n, input[at..upto]), [])
    decreases upto
  {
    hide Read, Run;
    StaysWellFormed(input, at, n, upto);
    if at + n == upto {
      RunNothing(Osc(n, input[at..upto]));
      assert input[at + n..upto] == [];
    } else {
      var b := input[upto - 1];
      assert at + n < upto - 1 ==> TerminatorAt(input, upto - 2) == 0;
      ContinuesInside(input, at, n, upto);
      hide WellFormed, TerminatorAt;
      RunInside(input, at, n, upto - 1);
      RunSnoc(Osc(n, input[at..at + n]), input[at + n..upto - 1], b);
      SliceSnoc(input, at + n, upto - 1);
    }
  }

  lemma StaysWellFormed(input: seq<Byte>, at: nat, n: nat, upto: nat)
    requires at + n <= upto <= |input| && WellFormed(Osc(n, input[at..at + n]))
    ensures WellFormed(Osc(n, input[at..upto]))
  {
    SliceOfSlice(input, at, upto, 0, n);
    assert input[at..upto][..n] == input[at..upto][0..n];
    assert input[at..at + n][..n] == input[at..at + n];
  }

  // The last byte does not end the sequence.
  lemma ContinuesInside(input: seq<Byte>, at: nat, n: nat, upto: nat)
    requires at + n < upto <= |input| && WellFormed(Osc(n, input[at..at + n]))
    requires at + n < upto - 1 ==> TerminatorAt(input, upto - 2) == 0
    requires input[upto - 1] != BEL && input[upto - 1] != C1_ST
    ensures WellFormed(Osc(n, input[at..upto - 1]))
    ensures Read(Osc(n, input[at..upto - 1]), input[upto - 1]) == Ran(Osc(n, input[at..upto]), [])
  {
    StaysWellFormed(input, at, n, upto - 1);
    SliceSnoc(input, at, upto - 1);
    var q := Osc(n, input[at..upto - 1]);
    assert |q.bytes| > n ==> q.bytes[|q.bytes| - 1] == input[upto - 2];
    ReadInside(q, input[upto - 1]);
  }

  lemma RunNothing(q: State)
    requires WellFormed(q)
    ensures Run(q, []) == Ran(q, [])
  {
  }

  lemma RunTerminator(input: seq<Byte>, at: nat, n: nat, end: nat)
    requires at + n <= end < |input| && TerminatorAt(input, end) > 0
    requires WellFormed(Osc(n, input[at..at + n]))
    requires forall i: nat :: at + n <= i < end ==> TerminatorAt(input, i) == 0
    ensures end + TerminatorAt(input, end) <= |input|
    ensures Run(Osc(n, input[at..at + n]), input[at + n..end + TerminatorAt(input, end)]) ==
            Ran(Ground, [Sequence(input[at..end + TerminatorAt(input, end)], input[at + n..end])])
  {
    hide Run, Read, WellFormed;
    var q := Osc(n, input[at..at + n]);
    var last := end + TerminatorAt(input, end) - 1;
    assert at + n < end ==> TerminatorAt(input, end - 1) == 0;
    RunInside(input, at, n, last);
    RunSnoc(q, input[at + n..last], input[last]);
    SliceSnoc(input, at + n, last);
    SliceSnoc(input, at, last);
    var bytes := input[at..last];
    SliceOfSlice(input, at, last, n, end - at);
    assert last > end ==> bytes[|bytes| - 1] == input[end];
    ReadTerminator(Osc(n, bytes), input[last], end - at);
    var r := Read(Osc(n, bytes), input[last]);
    assert [] + r.done == r.done;
  }

  // The run over the whole input, from a point where the automaton is back on the ground.
  lemma RunFrom(input: seq<Byte>, at: nat, done: seq<Sequence>, upto: nat)
    requires at <= upto <= |input|
    requires Run(Ground, input[..at]) == Ran(Ground, done)
    ensures var r := Run(Ground, input[at..upto]);
      Run(Ground, input[..upto]) == Ran(r.state, done + r.done)
  {
    RunAppend(Ground, input[..at], input[at..upto]);
    assert input[..at] + input[at..upto] == input[..upto];
  }

  // A complete sequence takes the run from the ground back to the ground.
  lemma RunSequence(input: seq<Byte>, from: nat, at: nat, end: nat, done: seq<Sequence>)
    requires from <= at < |input| && IntroducerAt(input, at) > 0
    requires forall i: nat :: from <= i < at ==> IntroducerAt(input, i) == 0
    requires at + IntroducerAt(input, at) <= end < |input| && TerminatorAt(input, end) > 0
    requires forall i: nat :: at + IntroducerAt(input, at) <= i < end ==> TerminatorAt(input, i) == 0
    requires Run(Ground, input[..from]) == Ran(Ground, done)
    ensures var n, stop := IntroducerAt(input, at), end + TerminatorAt(input, end);
      stop <= |input| &&
      Run(Ground, input[..stop]) == Ran(Ground, done + [Sequence(input[at..stop], input[at + n..end])])
  {
    hide Read, Run;
    var n, stop := IntroducerAt(input, at), end + TerminatorAt(input, end);
    RunIntroducer(input, from, at);
    RunTerminator(input, at, n, end);
    RunAppend(Ground, input[from..at + n], input[at + n..stop]);
    JoinSlices(input, from, at + n, stop);
    RunFrom(input, from, done, stop);
    var sequence := Sequence(input[at..stop], input[at + n..end]);
    assert [] + [sequence] == [sequence];
  }

  lemma RunUnterminated(input: seq<Byte>, from: nat, at: nat, done: seq<Sequence>)
    requires from <= at < |input| && IntroducerAt(input, at) > 0
    requires forall i: nat :: from <= i < at ==> IntroducerAt(input, i) == 0
    requires forall i: nat :: at + IntroducerAt(input, at) <= i < |input| ==> TerminatorAt(input, i) == 0
    requires Run(Ground, input[..from]) == Ran(Ground, done)
    ensures Run(Ground, input) == Ran(Osc(IntroducerAt(input, at), input[at..]), done)
  {
    hide Read, Run, IntroducerAt;
    var n, m := IntroducerAt(input, at), |input|;
    RunIntroducer(input, from, at);
    assert at + n < m ==> TerminatorAt(input, m - 1) == 0;
    RunInside(input, at, n, m);
    hide TerminatorAt, WellFormed;
    RunAppend(Ground, input[from..at + n], input[at + n..m]);
    JoinSlices(input, from, at + n, m);
    RunFrom(input, from, done, m);
    assert input[..m] == input && input[at..m] == input[at..];
    assert done + ([] + []) == done;
  }

  // States in which no terminator has been overlooked.
  predicate Unfinished(q: State)
    requires WellFormed(q)
  {
    q.Osc? ==> forall i: nat :: q.intro <= i < |q.bytes| ==> TerminatorAt(q.bytes, i) == 0
  }

  lemma NoneOverlooked(q: State, b: Byte, i: nat)
    requires WellFormed(q) && Unfinished(q) && q.Osc? && q.intro <= i < |q.bytes| && (b == BACKSLASH ==> !AfterEscape(q))
    ensures TerminatorAt(q.bytes + [b], i) == 0
  {
    assert TerminatorAt(q.bytes, i) == 0;
    assert i + 1 < |q.bytes| ==> (q.bytes + [b])[i + 1] == q.bytes[i + 1];
  }

  lemma ReadUnfinished(q: State, b: Byte)
    requires WellFormed(q) && Unfinished(q)
    ensures Unfinished(Read(q, b).state)
  {
    if q.Osc? && b != BEL && b != C1_ST && (b == BACKSLASH ==> !AfterEscape(q)) {
      ReadInside(q, b);
      hide Read;
      var bytes := q.bytes + [b];
      forall i: nat | q.intro <= i < |bytes|
        ensures TerminatorAt(bytes, i) == 0
      {
        if i < |q.bytes| {
          NoneOverlooked(q, b, i);
        }
      }
    }
  }

  lemma {:induction false} RunUnfinished(q: State, s: seq<Byte>)
    requires WellFormed(q) && Unfinished(q)
    ensures Unfinished(Run(q, s).state)
    decreases |s|
  {
    hide Read, Unfinished;
    if s == [] {
    } else {
      ReadUnfinished(q, s[0]);
      RunUnfinished(Read(q, s[0]).state, s[1..]);
    }
  }

  lemma IntroducerFirst(q: State)
    requires WellFormed(q) && q.Osc?
    ensures q.bytes != [] && IntroducerAt(q.bytes, 0) == q.intro
  {
    var head := q.bytes[..q.intro];
    assert |head| == q.intro && q.bytes[0] == head[0];
    assert |head| == 2 ==> q.bytes[1] == head[1];
  }

  /** What is held resumes the state it was held for: reading it again from the ground state ends in
      the same state and completes nothing. */
  lemma HeldResumes(q: State)
    requires WellFormed(q) && Unfinished(q)
    ensures Run(Ground, Held(q)) == Ran(q, [])
  {
    hide Read, Run;
    if q.Osc? {
      var n, m := q.intro, |q.bytes|;
      IntroducerFirst(q);
      RunIntroducer(q.bytes, 0, 0);
      assert n < m ==> TerminatorAt(q.bytes, m - 1) == 0;
      RunInside(q.bytes, 0, n, m);
      RunAppend(Ground, q.bytes[..n], q.bytes[n..]);
      assert q.bytes[0..n] == q.bytes[..n];
      assert q.bytes[n..m] == q.bytes[n..];
      assert q.bytes[0..m] == q.bytes == q.bytes[..n] + q.bytes[n..];
    } else {
      var s := Held(q);
      RunBetween(s, 0, |s|);
      assert s[0..|s|] == s;
    }
  }

  // ----- the scanner, one chunk at a time -----

  datatype Scanned = Scanned(done: seq<Sequence>, buffer: seq<Byte>)

  function Capped(held: seq<Byte>): seq<Byte> {
    if |held| <= MAX_OSC_SEQUENCE_BYTES then held else []
  }

  function ScanChunk(buffer: seq<Byte>, chunk: seq<Byte>): Scanned {
    var r := Run(Ground, buffer + chunk);
    Scanned(r.done, Capped(Held(r.state)))
  }

  function ScanChunks(buffer: seq<Byte>, chunks: seq<seq<Byte>>): Scanned
    decreases |chunks|
  {
    if chunks == [] then Scanned([], buffer)
    else
      var first := ScanChunk(buffer, chunks[0]);
      var rest := ScanChunks(first.buffer, chunks[1..]);
      Scanned(first.done + rest.done, rest.buffer)
  }

  // At no point of the input does an unfinished sequence exceed the cap.
  ghost predicate Fits(q: State, s: seq<Byte>)
    requires WellFormed(q)
  {
    forall k :: 0 <= k <= |s| ==> |Held(Run(q, s[..k]).state)| <= MAX_OSC_SEQUENCE_BYTES
  }

  lemma FitsParts(q: State, a: seq<Byte>, b: seq<Byte>)
    requires WellFormed(q) && Fits(q, a + b)
    ensures |Held(Run(q, a).state)| <= MAX_OSC_SEQUENCE_BYTES
    ensures Fits(Run(q, a).state, b)
  {
    assert (a + b)[..|a|] == a;
    forall k | 0 <= k <= |b|
      ensures |Held(Run(Run(q, a).state, b[..k]).state)| <= MAX_OSC_SEQUENCE_BYTES
    {
      assert (a + b)[..|a| + k] == a + b[..k];
      RunAppend(q, a, b[..k]);
    }
  }

  lemma {:induction false} ScanChunksRun(q: State, chunks: seq<seq<Byte>>)
    requires WellFormed(q) && Unfinished(q)
    requires Fits(q, Concat(chunks))
    ensures var r := Run(q, Concat(chunks));
      ScanChunks(Held(q), chunks) == Scanned(r.done, Held(r.state))
    decreases |chunks|
  {
    hide Read;
    if chunks == [] {
    } else {
      var rest := Concat(chunks[1..]);
      HeldResumes(q);
      RunAppend(Ground, Held(q), chunks[0]);
      FitsParts(q, chunks[0], rest);
      RunUnfinished(q, chunks[0]);
      RunAppend(q, chunks[0], rest);
      var next := Run(q, chunks[0]);
      ScanChunksRun(next.state, chunks[1..]);
      assert [] + next.done == next.done;
    }
  }

  /** Chunk invariance: when no unfinished sequence outgrows the cap, scanning the stream in any
      chunks completes exactly the sequences the reference automaton completes, and the held buffer
      resumes exactly where the automaton stands. */
  lemma ChunkingIrrelevant(chunks: seq<seq<Byte>>)
    requires Fits(Ground, Concat(chunks))
    ensures var r := Run(Ground, Concat(chunks));
      ScanChunks([], chunks) == Scanned(r.done, Held(r.state)) &&
      Run(Ground, Held(r.state)) == Ran(r.state, [])
  {
    ScanChunksRun(Ground, chunks);
    RunUnfinished(Ground, Concat(chunks));
    HeldResumes(Run(Ground, Concat(chunks)).state);
  }

  /** In terms of the sequences of the stream: nothing outgrows the cap exactly when every complete
      sequence, terminator included, has at most one byte more than the cap and what is left
      unfinished at the end has at most the cap. */
  lemma {:induction false} FitsWhenSequencesShort(q: State, s: seq<Byte>)
    requires WellFormed(q) && |Held(q)| <= MAX_OSC_SEQUENCE_BYTES
    ensures var r := Run(q, s);
      Fits(q, s) <==> (forall x :: x in r.done ==> |x.bytes| <= MAX_OSC_SEQUENCE_BYTES + 1) &&
                      |Held(r.state)| <= MAX_OSC_SEQUENCE_BYTES
    decreases |s|
  {
    if s == [] {
      assert s[..0] == s;
    } else {
      var first := Read(q, s[0]);
      FitsStep(q, s);
      if |Held(first.state)| <= MAX_OSC_SEQUENCE_BYTES {
        FitsWhenSequencesShort(first.state, s[1..]);
        assert forall x :: x in first.done ==> |x.bytes| <= MAX_OSC_SEQUENCE_BYTES + 1;
      } else {
        assert first.done == [];
        LongStaysLong(first.state, s[1..]);
      }
    }
  }

  lemma FitsStep(q: State, s: seq<Byte>)
    requires WellFormed(q) && |Held(q)| <= MAX_OSC_SEQUENCE_BYTES && s != []
    ensures Fits(q, s) <==>
            |Held(Read(q, s[0]).state)| <= MAX_OSC_SEQUENCE_BYTES && Fits(Read(q, s[0]).state, s[1..])
  {
    hide Read;
    var next := Read(q, s[0]).state;
    forall k | 1 <= k <= |s|
      ensures Run(q, s[..k]).state == Run(next, s[1..][..k - 1]).state
    {
      assert s[..k][1..] == s[1..][..k - 1];
    }
    if Fits(q, s) {
      assert s[1..][..0] == [];
      forall k | 0 <= k <= |s[1..]|
        ensures |Held(Run(next, s[1..][..k]).state)| <= MAX_OSC_SEQUENCE_BYTES
      {
        assert Run(q, s[..k + 1]).state == Run(next, s[1..][..k]).state;
      }
      assert |Held(Run(next, s[1..][..0]).state)| <= MAX_OSC_SEQUENCE_BYTES;
    }
  }

  // A sequence that has outgrown the cap either stays unfinished or is completed with all its bytes.
  lemma {:induction false} LongStaysLong(q: State, s: seq<Byte>)
    requires WellFormed(q) && q.Osc?
    ensures var r := Run(q, s);
      (r.done == [] && |Held(r.state)| >= |q.bytes|) || (r.done != [] && |r.done[0].bytes| > |q.bytes|)
    decreases |s|
  {
    if s == [] {
    } else {
      var first := Read(q, s[0]);
      if first.state.Osc? {
        LongStaysLong(first.state, s[1..]);
      }
    }
  }

  lemma ScanTwo(buffer: seq<Byte>, a: seq<Byte>, b: seq<Byte>)
    ensures var first := ScanChunk(buffer, a);
      var second := ScanChunk(first.buffer, b);
      ScanChunks(buffer, [a, b]) == Scanned(first.done + second.done, second.buffer)
  {
    hide ScanChunk;
    var first := ScanChunk(buffer, a);
    ScanOne(first.buffer, b);
    assert [a, b][1..] == [b];
  }

  lemma ScanOne(buffer: seq<Byte>, chunk: seq<Byte>)
    ensures ScanChunks(buffer, [chunk]) == ScanChunk(buffer, chunk)
  {
    hide ScanChunk;
    var first := ScanChunk(buffer, chunk);
    assert [chunk][1..] == [];
    assert first.done + [] == first.done;
  }

  // ----- when the sequences found depend on the chunking -----

  // The scanner may stand anywhere, but after an ESC inside a sequence only if the automaton does.
  ghost predicate Behind(p: State, q: State) {
    WellFormed(p) && WellFormed(q) && q.Osc? && (p.Osc? && AfterEscape(p) ==> AfterEscape(q))
  }

  lemma BehindNext(p: State, q: State, b: Byte)
    requires Behind(p, q) && Read(q, b).done == []
    ensures Read(p, b).done == [] && Behind(Read(p, b).state, Read(q, b).state)
  {
  }

  // Where the automaton completes nothing, a scanner behind it does neither.
  lemma {:induction false} BehindRun(p: State, q: State, s: seq<Byte>)
    requires Behind(p, q) && Run(q, s).done == []
    ensures Run(p, s).done == [] && Behind(Run(p, s).state, Run(q, s).state)
    decreases |s|
  {
    hide Read;
    if s == [] {
    } else {
      BehindNext(p, q, s[0]);
      BehindRun(Read(p, s[0]).state, Read(q, s[0]).state, s[1..]);
    }
  }

  // What the first chunk completes, and where it leaves the scanner.
  lemma ScanNext(q: State, chunks: seq<seq<Byte>>)
    requires WellFormed(q) && Unfinished(q) && chunks != []
    ensures var next := Run(q, chunks[0]);
      && Unfinished(next.state)
      && ScanChunks(Held(q), chunks).done == next.done + ScanChunks(Capped(Held(next.state)), chunks[1..]).done
  {
    hide Read, Run, Held;
    HeldResumes(q);
    RunAppend(Ground, Held(q), chunks[0]);
    RunUnfinished(q, chunks[0]);
    assert [] + Run(q, chunks[0]).done == Run(q, chunks[0]).done;
  }

  lemma {:induction false} BehindScan(p: State, q: State, chunks: seq<seq<Byte>>)
    requires Behind(p, q) && Unfinished(p) && Run(q, Concat(chunks)).done == []
    ensures ScanChunks(Held(p), chunks).done == []
    decreases |chunks|
  {
    hide Read, Run;
    if chunks == [] {
    } else {
      RunAppend(q, chunks[0], Concat(chunks[1..]));
      BehindRun(p, q, chunks[0]);
      ScanNext(p, chunks);
      hide ScanChunks, Unfinished;
      var next := Run(p, chunks[0]).state;
      BehindScan(if |Held(next)| <= MAX_OSC_SEQUENCE_BYTES then next else Ground, Run(q, chunks[0]).state, chunks[1..]);
    }
  }

  // No sequence that is completed has more than one byte beyond the cap.
  ghost predicate CompletesShort(done: seq<Sequence>) {
    forall x :: x in done ==> |x.bytes| <= MAX_OSC_SEQUENCE_BYTES + 1
  }

  lemma {:induction false} ShortIsFound(q: State, chunks: seq<seq<Byte>>)
    requires WellFormed(q) && Unfinished(q) && CompletesShort(Run(q, Concat(chunks)).done)
    requires |Held(q)| <= MAX_OSC_SEQUENCE_BYTES
    ensures ScanChunks(Held(q), chunks).done == Run(q, Concat(chunks)).done
    decreases |chunks|
  {
    hide Read, Run;
    if chunks == [] {
      RunNothing(q);
    } else {
      var next, rest := Run(q, chunks[0]), Concat(chunks[1..]);
      RunAppend(q, chunks[0], rest);
      ScanNext(q, chunks);
      hide ScanChunks, Unfinished;
      var later := Run(next.state, rest).done;
      assert CompletesShort(later);
      if |Held(next.state)| <= MAX_OSC_SEQUENCE_BYTES {
        ShortIsFound(next.state, chunks[1..]);
      } else {
        assert forall i :: 0 <= i < |later| ==> later[i] in later;
        LongStaysLong(next.state, rest);
        BehindScan(Ground, next.state, chunks[1..]);
      }
    }
  }

  // Where a long sequence is completed.
  lemma {:induction false} LongCompletes(q: State, s: seq<Byte>) returns (k: nat)
    requires WellFormed(q) && !CompletesShort(Run(q, s).done)
    ensures k < |s|
    ensures var before := Run(q, s[..k]).state;
      |Held(before)| > MAX_OSC_SEQUENCE_BYTES && |Read(before, s[k]).done| == 1
    decreases |s|
  {
    hide Run;
    if s == [] {
      RunNothing(q);
      assert false;
    } else {
      var n := |s| - 1;
      var before := Run(q, s[..n]).state;
      assert s == s[..n] + [s[n]];
      RunSnoc(q, s[..n], s[n]);
      if CompletesShort(Run(q, s[..n]).done) {
        k := n;
      } else {
        k := LongCompletes(q, s[..n]);
        assert s[..n][..k] == s[..k];
      }
    }
  }

  lemma TerminatorOnGround(q: State, b: Byte)
    requires WellFormed(q) && |Read(q, b).done| == 1
    ensures Read(q, b).state == Ground && Read(Ground, b) == Ran(Ground, [])
  {
  }

  // A stream that is cut where an unfinished sequence has outgrown the cap and is about to be completed.
  lemma LongIsLost(s: seq<Byte>, k: nat)
    requires k < |s|
    requires var q := Run(Ground, s[..k]).state;
      |Held(q)| > MAX_OSC_SEQUENCE_BYTES && |Read(q, s[k]).done| == 1
    ensures |ScanChunks([], [s[..k], s[k..]]).done| == |Run(Ground, s).done| - 1
  {
    hide Read, Run, Held, Concat, ScanChunks;
    var q, tail := Run(Ground, s[..k]).state, s[k..];
    assert s == s[..k] + tail;
    RunAppend(Ground, s[..k], tail);
    LosesHeld(s[..k], tail);
    OneMore(q, tail);
  }

  lemma OneMore(q: State, tail: seq<Byte>)
    requires tail != [] && WellFormed(q) && |Read(q, tail[0]).done| == 1
    ensures |Run(q, tail).done| == |Run(Ground, tail).done| + 1
  {
    TerminatorOnGround(q, tail[0]);
    hide Read;
  }

  // What is held beyond the cap is dropped with the chunk.
  lemma LosesHeld(a: seq<Byte>, b: seq<Byte>)
    requires |Held(Run(Ground, a).state)| > MAX_OSC_SEQUENCE_BYTES
    ensures ScanChunks([], [a, b]).done == Run(Ground, a).done + Run(Ground, b).done
  {
    hide Run;
    assert [] + a == a && [] + b == b;
    ScanTwo([], a, b);
  }

  /** The exact condition: every chunking of a stream completes the sequences that the reference automaton
      completes if and only if none of them has more than 4097 bytes, introducer and terminator included. */
  lemma ChunkInvariantIff(s: seq<Byte>)
    ensures (forall chunks: seq<seq<Byte>> :: Concat(chunks) == s ==> ScanChunks([], chunks).done == Run(Ground, s).done) <==>
            (forall x :: x in Run(Ground, s).done ==> |x.bytes| <= MAX_OSC_SEQUENCE_BYTES + 1)
  {
    hide Read, Run, ScanChunks;
    if CompletesShort(Run(Ground, s).done) {
      forall chunks: seq<seq<Byte>> | Concat(chunks) == s
        ensures ScanChunks([], chunks).done == Run(Ground, s).done
      {
        ShortIsFound(Ground, chunks);
      }
    } else {
      var k := LongCompletes(Ground, s);
      LongIsLost(s, k);
      var chunks := [s[..k], s[k..]];
      assert chunks[1..] == [s[k..]] && [s[k..]][1..] == [];
      assert Concat([s[k..]]) == s[k..] + Concat([]) == s[k..];
      assert Concat(chunks) == s[..k] + s[k..] == s;
      assert ScanChunks([], chunks).done != Run(Ground, s).done;
    }
  }

  // An introducer and a payload without a terminator.
  ghost predicate Opens(intro: seq<Byte>, payload: seq<Byte>) {
    && (intro == [C1_OSC] || intro == [ESC, RIGHT_BRACKET])
    && forall i: nat :: i < |payload| ==> TerminatorAt(payload, i) == 0
  }

  ghost predicate Terminates(terminator: seq<Byte>) {
    terminator == [BEL] || terminator == [C1_ST] || terminator == [ESC, BACKSLASH]
  }

  // Only the payload decides where the first terminator stands.
  lemma NoTerminatorBefore(intro: seq<Byte>, payload: seq<Byte>, terminator: seq<Byte>, i: nat)
    requires Opens(intro, payload) && (Terminates(terminator) || terminator == []) && |intro| <= i < |intro + payload|
    ensures TerminatorAt(intro + payload + terminator, i) == 0
  {
    var k, input := i - |intro|, intro + payload + terminator;
    assert TerminatorAt(payload, k) == 0;
    assert input[i] == payload[k];
    assert k + 1 < |payload| ==> input[i + 1] == payload[k + 1];
    assert k + 1 == |payload| && terminator != [] ==> input[i + 1] == terminator[0];
  }

  lemma RunOpened(intro: seq<Byte>, payload: seq<Byte>)
    requires Opens(intro, payload)
    ensures WellFormed(Osc(|intro|, intro + payload))
    ensures Run(Ground, intro + payload) == Ran(Osc(|intro|, intro + payload), [])
  {
    hide Read, Run;
    var open := intro + payload;
    assert open[0] == intro[0] && (|intro| == 2 ==> open[1] == intro[1]);
    assert open[..|intro|] == intro;
    forall i: nat | |intro| <= i < |open|
      ensures TerminatorAt(open, i) == 0
    {
      NoTerminatorBefore(intro, payload, [], i);
      assert open + [] == open;
    }
    StartsOnGround(open);
    RunUnterminated(open, 0, 0, []);
    assert open[0..] == open;
  }

  lemma StartsOnGround(input: seq<Byte>)
    ensures Run(Ground, input[..0]) == Ran(Ground, [])
  {
  }

  lemma RunTitle(intro: seq<Byte>, payload: seq<Byte>, terminator: seq<Byte>)
    requires Opens(intro, payload) && Terminates(terminator)
    ensures var input := intro + payload + terminator;
      Run(Ground, input) == Ran(Ground, [Sequence(input, payload)])
  {
    hide Read, Run;
    var input, n, m := intro + payload + terminator, |intro|, |intro + payload|;
    assert input[0] == intro[0] && (n == 2 ==> input[1] == intro[1]);
    assert input[m] == terminator[0] && (|terminator| == 2 ==> input[m + 1] == terminator[1]);
    forall i: nat | n <= i < m
      ensures TerminatorAt(input, i) == 0
    {
      NoTerminatorBefore(intro, payload, terminator, i);
    }
    StartsOnGround(input);
    RunSequence(input, 0, 0, m, []);
    assert input[..|input|] == input[0..|input|] == input && input[n..m] == payload;
  }

  /** What is lost beyond the cap: a title whose introducer and payload exceed it arrives when it is sent in
      one chunk and is dropped when its terminator comes in a later one, whichever introducer and
      terminator it has. */
  lemma LongTitleDependsOnChunking(intro: seq<Byte>, payload: seq<Byte>, terminator: seq<Byte>)
    requires Opens(intro, payload) && Terminates(terminator) && |intro + payload| > MAX_OSC_SEQUENCE_BYTES
    ensures ScanChunks([], [intro + payload + terminator]).done == [Sequence(intro + payload + terminator, payload)]
    ensures ScanChunks([], [intro + payload, terminator]).done == []
  {
    hide Read, Run;
    var input := intro + payload + terminator;
    RunTitle(intro, payload, terminator);
    RunOpened(intro, payload);
    assert [] + input == input;
    ScanOne([], input);
    LosesHeld(intro + payload, terminator);
    RunBetween(terminator, 0, |terminator|);
    assert terminator[0..|terminator|] == terminator;
  }

  // ----- titles -----

  predicate Stripped(c: char) {
    var code := c as int;
    code <= 0x1f || code == 0x7f || 0x80 <= code <= 0x9f || code == 0xfffd || 0x2800 <= code <= 0x28ff
  }

  /** Stripped are the control characters of both sets and the delete character, the replacement character, and the
      Braille patterns, which programs use as spinners. */
  lemma StrippedCharacters(c: char)
    ensures Stripped(c) <==> c < ' ' || '\U{7F}' <= c < '\U{A0}' || c == '\U{FFFD}' || '\U{2800}' <= c < '\U{2900}'
  {
  }

  function Keep(s: string): (r: string)
    ensures forall c :: c in r <==> c in s && !Stripped(c)
  {
    if s == "" then "" else (if Stripped(s[0]) then "" else [s[0]]) + Keep(s[1..])
  }

  function TrimStart(s: string): (r: string)
    ensures r == "" || !IsSpace(r[0])
    ensures forall c :: c in s ==> c in r || IsSpace(c)
    ensures forall c :: c in r ==> c in s
  {
    if s == "" || !IsSpace(s[0]) then s else TrimStart(s[1..])
  }

  function TrimEnd(s: string): (r: string)
    ensures r <= s
    ensures forall c :: c in s ==> c in r || IsSpace(c)
  {
    if s == "" || !IsSpace(s[|s| - 1]) then s else
      assert s == s[..|s| - 1] + [s[|s| - 1]];
      TrimEnd(s[..|s| - 1])
  }

  function NormalizeTerminalTitle(title: string): Option<string> {
    var normalized := TrimEnd(TrimStart(Keep(title)));
    if normalized == "" then None
    else if |normalized| <= MAX_TERMINAL_TITLE_LENGTH then Some(normalized)
    else Some(normalized[..MAX_TERMINAL_TITLE_LENGTH])
  }

  /** A normalized title shows something, starts with a visible character, is at most 200 characters
      long and has none of the stripped ones; there is no title exactly when only stripped
      characters and white space were given. */
  lemma NormalizedTitle(title: string)
    ensures var r := NormalizeTerminalTitle(title);
      && (r.Some? ==> 1 <= |r.value| <= MAX_TERMINAL_TITLE_LENGTH && !IsSpace(r.value[0]))
      && (r.Some? ==> forall c :: c in r.value ==> c in title && !Stripped(c))
      && (r.None? <==> forall c :: c in title ==> Stripped(c) || IsSpace(c))
  {
    hide Stripped, IsSpace, Keep, TrimStart, TrimEnd;
    var front := TrimStart(Keep(title));
    var normalized := TrimEnd(front);
    assert forall c :: c in normalized ==> c in front;
    if normalized != "" {
      var first := normalized[0];
      assert first == front[0] && first in normalized;
    }
  }

  lemma {:induction false} KeepAppend(a: string, b: string)
    ensures Keep(a + b) == Keep(a) + Keep(b)
  {
    hide Stripped;
    if a == "" {
      assert a + b == b;
    } else {
      assert (a + b)[0] == a[0] && (a + b)[1..] == a[1..] + b;
      KeepAppend(a[1..], b);
    }
  }

  lemma KeepOne(c: char)
    ensures Keep([c]) == if Stripped(c) then "" else [c]
  {
    hide Stripped;
    assert [c][1..] == "";
  }

  lemma {:induction false} TrimOuter(c: char, s: string)
    requires IsSpace(c)
    ensures TrimStart([c] + s) == TrimStart(s)
    ensures TrimEnd(TrimStart(s + [c])) == TrimEnd(TrimStart(s))
    decreases |s|
  {
    hide IsSpace;
    assert ([c] + s)[1..] == s && (s + [c])[..|s|] == s;
    if s == "" {
      assert s + [c] == [c] && [c][1..] == "";
    } else {
      assert (s + [c])[0] == s[0] && (s + [c])[1..] == s[1..] + [c];
      TrimOuter(c, s[1..]);
    }
  }

  /** What is stripped, wherever it stands, and white space at either end make no difference. */
  lemma StrippedAndOuterSpaceIgnored(a: string, c: char, b: string)
    ensures Stripped(c) ==> NormalizeTerminalTitle(a + [c] + b) == NormalizeTerminalTitle(a + b)
    ensures IsSpace(c) ==> NormalizeTerminalTitle([c] + b) == NormalizeTerminalTitle(b)
    ensures IsSpace(c) ==> NormalizeTerminalTitle(a + [c]) == NormalizeTerminalTitle(a)
  {
    hide Stripped, IsSpace, Keep, TrimStart, TrimEnd;
    KeepOne(c);
    KeepAppend(a + [c], b);
    KeepAppend(a, [c]);
    KeepAppend(a, b);
    KeepAppend([c], b);
    assert Keep(a) + "" == Keep(a) && "" + Keep(b) == Keep(b);
    if IsSpace(c) {
      TrimOuter(c, Keep(a));
      TrimOuter(c, Keep(b));
    }
  }

  /** A title without any of that is kept as it is, up to its first 200 characters. */
  lemma CleanTitleKept(title: string)
    requires title != "" && forall c :: c in title ==> !Stripped(c)
    requires !IsSpace(title[0]) && !IsSpace(title[|title| - 1])
    ensures NormalizeTerminalTitle(title) ==
            Some(if |title| <= MAX_TERMINAL_TITLE_LENGTH then title else title[..MAX_TERMINAL_TITLE_LENGTH])
  {
    hide Stripped, IsSpace, Keep;
    AllKept(title);
    assert TrimEnd(TrimStart(title)) == title;
    hide TrimStart, TrimEnd;
  }

  lemma {:induction false} AllKept(s: string)
    requires forall c :: c in s ==> !Stripped(c)
    ensures Keep(s) == s
  {
    hide Stripped;
    if s == "" {
    } else {
      AllKept(s[1..]);
      assert s == [s[0]] + s[1..];
    }
  }

  function IndexOf(s: string, c: char): (i: nat)
    ensures i <= |s| && c !in s[..i] && (i < |s| ==> s[i] == c)
  {
    if s == "" || s[0] == c then 0
    else
      var i := 1 + IndexOf(s[1..], c);
      assert s[..i] == [s[0]] + s[1..][..i - 1];
      i
  }

  // No update, an update to a title, or (with `None`) a reset.
  type Update = Option<Option<string>>

  function TitleUpdate(title: string): Update {
    var t := NormalizeTerminalTitle(title);
    if t.None? then None else Some(t)
  }

  function ParseTitlePayload(payload: string): Update {
    var separator := IndexOf(payload, ';');
    if separator == 0 || separator == |payload| then None
    else
      var command, value := payload[..separator], payload[separator + 1..];
      if command == "0" || command == "2" then TitleUpdate(value)
      else if command != "9" then None
      else if value == "3;" then Some(None)
      else if !("3;" <= value) then None
      else TitleUpdate(value[2..])
  }

  lemma {:induction false} IndexOfAt(s: string, c: char, k: nat)
    requires k < |s| && s[k] == c && forall i :: 0 <= i < k ==> s[i] != c
    ensures IndexOf(s, c) == k
  {
    if k == 0 {
    } else {
      IndexOfAt(s[1..], c, k - 1);
    }
  }

  lemma ParseParts(command: string, value: string)
    requires command != "" && ';' !in command
    ensures ParseTitlePayload(command + (";" + value)) ==
            if command == "0" || command == "2" then TitleUpdate(value)
            else if command != "9" then None
            else if value == "3;" then Some(None)
            else if !("3;" <= value) then None
            else TitleUpdate(value[2..])
  {
    hide TitleUpdate, IndexOf;
    var payload := command + (";" + value);
    IndexOfAt(payload, ';', |command|);
    assert payload[..|command|] == command && payload[|command| + 1..] == value;
  }

  /** The payloads that carry a title: `0;`, `2;` and `9;3;` before the title, and `9;3;` alone, which
      resets it. */
  lemma SupportedPayloads(title: string)
    ensures ParseTitlePayload("0" + (";" + title)) == ParseTitlePayload("2" + (";" + title)) == TitleUpdate(title)
    ensures ParseTitlePayload("9" + (";" + ("3;" + title))) == if title == "" then Some(None) else TitleUpdate(title)
  {
    hide TitleUpdate, ParseTitlePayload;
    ParseParts("0", title);
    ParseParts("2", title);
    ParseParts("9", "3;" + title);
    assert ("3;" + title)[2..] == title && |"3;" + title| == 2 + |title|;
  }

  /** No others do. */
  lemma OtherPayloadsIgnored(payload: string)
    requires ParseTitlePayload(payload) != None
    ensures "0;" <= payload || "2;" <= payload || "9;3;" <= payload
  {
    hide TitleUpdate, IndexOf;
    var i := IndexOf(payload, ';');
    var command, value := payload[..i], payload[i + 1..];
    assert payload == command + (";" + value);
    ParseParts(command, value);
    hide ParseTitlePayload;
    assert payload[|command|] == ';';
    if command == "9" {
      assert value[0] == '3' && value[1] == ';';
      assert payload[0] == '9' && payload[1] == ';' && payload[2] == value[0] && payload[3] == value[1];
    } else {
      assert payload[0] == command[0] && |command| == 1;
    }
  }

  // `decode` stands for the UTF-8 decoder.
  function Updates(done: seq<Sequence>, decode: seq<Byte> -> string): seq<Option<string>> {
    if done == [] then []
    else
      var update := ParseTitlePayload(decode(done[0].payload));
      (if update.Some? then [update.value] else []) + Updates(done[1..], decode)
  }

  lemma UpdatesOne(sequence: Sequence, decode: seq<Byte> -> string)
    ensures var update := ParseTitlePayload(decode(sequence.payload));
      Updates([sequence], decode) == if update.Some? then [update.value] else []
  {
    assert Updates([sequence], decode)[..] == Updates([sequence], decode);
  }

  lemma {:induction false} UpdatesAppend(a: seq<Sequence>, b: seq<Sequence>, decode: seq<Byte> -> string)
    ensures Updates(a + b, decode) == Updates(a, decode) + Updates(b, decode)
  {
    hide ParseTitlePayload;
    if a == [] {
      assert a + b == b;
    } else {
      assert (a + b)[1..] == a[1..] + b;
      UpdatesAppend(a[1..], b, decode);
      ConcatAssociates(Updates([a[0]], decode), Updates(a[1..], decode), Updates(b, decode));
      UpdatesOne(a[0], decode);
    }
  }

  function TitlesOf(buffer: seq<Byte>, chunks: seq<seq<Byte>>, decode: seq<Byte> -> string): seq<Option<string>>
    decreases |chunks|
  {
    if chunks == [] then []
    else Updates(ScanChunk(buffer, chunks[0]).done, decode) +
         TitlesOf(ScanChunk(buffer, chunks[0]).buffer, chunks[1..], decode)
  }

  lemma {:induction false} TitlesOfScan(buffer: seq<Byte>, chunks: seq<seq<Byte>>, decode: seq<Byte> -> string)
    ensures TitlesOf(buffer, chunks, decode) == Updates(ScanChunks(buffer, chunks).done, decode)
    decreases |chunks|
  {
    hide ScanChunk;
    if chunks == [] {
    } else {
      var first := ScanChunk(buffer, chunks[0]);
      TitlesOfScan(first.buffer, chunks[1..], decode);
      UpdatesAppend(first.done, ScanChunks(first.buffer, chunks[1..]).done, decode);
    }
  }

  /** The title updates seen do not depend on the chunking, as long as no sequence that is completed has more
      than 4097 bytes. */
  lemma TitlesChunkInvariant(chunks: seq<seq<Byte>>, decode: seq<Byte> -> string)
    requires forall x :: x in Run(Ground, Concat(chunks)).done ==> |x.bytes| <= MAX_OSC_SEQUENCE_BYTES + 1
    ensures TitlesOf([], chunks, decode) == Updates(Run(Ground, Concat(chunks)).done, decode)
  {
    hide Read, Run;
    ShortIsFound(Ground, chunks);
    TitlesOfScan([], chunks, decode);
  }

  // ----- the scanner as written -----

  datatype Hit = Hit(index: nat, length: nat)

  method FindOscStart(input: seq<Byte>, from: nat) returns (hit: Option<Hit>)
    requires from <= |input|
    ensures hit.Some? ==> from <= hit.value.index < |input| && hit.value.length == IntroducerAt(input, hit.value.index) > 0
    ensures forall i: nat :: from <= i < (if hit.Some? then hit.value.index else |input|) ==> IntroducerAt(input, i) == 0
  {
    for i := from to |input|
      invariant forall k: nat :: from <= k < i ==> IntroducerAt(input, k) == 0
    {
      if input[i] == C1_OSC {
        return Some(Hit(i, 1));
      }
      if input[i] == ESC && i + 1 < |input| && input[i + 1] == RIGHT_BRACKET {
        return Some(Hit(i, 2));
      }
    }
    return None;
  }

  method FindOscTerminator(input: seq<Byte>, from: nat) returns (hit: Option<Hit>)
    requires from <= |input|
    ensures hit.Some? ==> from <= hit.value.index < |input| && hit.value.length == TerminatorAt(input, hit.value.index) > 0
    ensures forall i: nat :: from <= i < (if hit.Some? then hit.value.index else |input|) ==> TerminatorAt(input, i) == 0
  {
    for i := from to |input|
      invariant forall k: nat :: from <= k < i ==> TerminatorAt(input, k) == 0
    {
      if input[i] == BEL {
        return Some(Hit(i, 1));
      }
      if input[i] == C1_ST {
        return Some(Hit(i, 1));
      }
      if input[i] == ESC && i + 1 < |input| && input[i + 1] == BACKSLASH {
        return Some(Hit(i, 2));
      }
    }
    return None;
  }

  lemma RunNoIntroducer(input: seq<Byte>, from: nat, done: seq<Sequence>)
    requires from < |input|
    requires forall i: nat :: from <= i < |input| ==> IntroducerAt(input, i) == 0
    requires Run(Ground, input[..from]) == Ran(Ground, done)
    ensures Run(Ground, input) == Ran(if input[|input| - 1] == ESC then Escape else Ground, done)
  {
    hide Read, Run;
    assert IntroducerAt(input, |input| - 1) == 0;
    RunBetween(input, from, |input|);
    RunFrom(input, from, done, |input|);
    assert input[..|input|] == input && done + [] == done;
  }

  lemma IntroducerInside(input: seq<Byte>, at: nat)
    requires at < |input| && IntroducerAt(input, at) > 0
    ensures at + IntroducerAt(input, at) <= |input|
  {
  }

  class Scanner {
    var buffer: seq<Byte>

    constructor ()
      ensures buffer == []
    {
      buffer := [];
    }

    method ScanForTerminalTitle(chunk: seq<Byte>, decode: seq<Byte> -> string)
      returns (updates: seq<Option<string>>)
      modifies this
      ensures buffer == ScanChunk(old(buffer), chunk).buffer
      ensures updates == Updates(ScanChunk(old(buffer), chunk).done, decode)
      ensures |old(buffer)| <= MAX_OSC_SEQUENCE_BYTES ==> |buffer| <= MAX_OSC_SEQUENCE_BYTES
    {
      hide ParseTitlePayload, Read, Run, IntroducerAt, TerminatorAt;
      var input := buffer + chunk;
      updates := [];
      ghost var done: seq<Sequence> := [];
      var searchIndex := 0;
      assert Run(Ground, input[..0]) == Ran(Ground, []) by {
        assert input[..0] == [];
        RunBetween(input, 0, 0);
        assert input[0..0] == [];
      }
      while searchIndex < |input|
        invariant searchIndex <= |input|
        invariant Run(Ground, input[..searchIndex]) == Ran(Ground, done)
        invariant updates == Updates(done, decode)
        decreases |input| - searchIndex
      {
        var oscStart := FindOscStart(input, searchIndex);
        if oscStart.None? {
          RunNoIntroducer(input, searchIndex, done);
          buffer := if input[|input| - 1] == ESC then input[|input| - 1..] else [];
          return;
        }
        var at, payloadStart := oscStart.value.index, oscStart.value.index + oscStart.value.length;
        IntroducerInside(input, at);
        var terminator := FindOscTerminator(input, payloadStart);
        if terminator.None? {
          RunUnterminated(input, searchIndex, at, done);
          buffer := if |input| - at <= MAX_OSC_SEQUENCE_BYTES then input[at..] else [];
          return;
        }
        var end, stop := terminator.value.index, terminator.value.index + terminator.value.length;
        RunSequence(input, searchIndex, at, end, done);
        ghost var sequence := Sequence(input[at..stop], input[payloadStart..end]);
        UpdatesAppend(done, [sequence], decode);
        UpdatesOne(sequence, decode);
        done := done + [sequence];
        var title := ParseTitlePayload(decode(input[payloadStart..end]));
        if title.Some? {
          updates := updates + [title.value];
        }
        searchIndex := stop;
      }
      assert input[..|input|] == input;
      buffer := [];
    }
  }
}
