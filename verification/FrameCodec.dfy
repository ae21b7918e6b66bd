/** The length-prefixed frame codec between the terminal daemon and its PTY subprocess
    (src/main/terminal-host/pty-subprocess-ipc.ts).

    The decoder is described twice: as an automaton that reads one byte at a time (`Accept`, `Feed`)
    and as the class that copies blocks into its two buffers. `Decoder.Push` is proved equal to the
    automaton; what the codec is for is proved about the automaton. */
module FrameCodec {
  import opened Bytes

  const HEADER_BYTES := 5
  const MAX_FRAME_BYTES := 64 * 1024 * 1024
  const UINT32_LIMIT := 0x1_0000_0000

  datatype Frame = Frame(kind: Byte, payload: seq<Byte>)

  predicate Fits(f: Frame) {
    |f.payload| <= MAX_FRAME_BYTES
  }

  // ----- encoding -----

  function LittleEndian32(n: nat): (bytes: seq<Byte>)
    requires n < UINT32_LIMIT
    ensures |bytes| == 4
  {
    [n % 0x100, n / 0x100 % 0x100, n / 0x1_0000 % 0x100, n / 0x100_0000]
  }

  function ReadLittleEndian32(bytes: seq<Byte>): nat
    requires |bytes| == 4
  {
    var b0: int, b1: int, b2: int, b3: int := bytes[0], bytes[1], bytes[2], bytes[3];
    b0 + 0x100 * b1 + 0x1_0000 * b2 + 0x100_0000 * b3
  }

  lemma LengthReadsBack(n: nat)
    requires n < UINT32_LIMIT
    ensures ReadLittleEndian32(LittleEndian32(n)) == n
  {
    var a, b := n / 0x100, n / 0x1_0000;
    assert b == a / 0x100;
    assert n / 0x100_0000 == b / 0x100;
  }

  lemma LengthWritesBack(bytes: seq<Byte>)
    requires |bytes| == 4
    ensures ReadLittleEndian32(bytes) < UINT32_LIMIT
    ensures LittleEndian32(ReadLittleEndian32(bytes)) == bytes
  {
    var n := ReadLittleEndian32(bytes);
    var b0: int, b1: int, b2: int, b3: int := bytes[0], bytes[1], bytes[2], bytes[3];
    var rest2 := b2 + 0x100 * b3;
    var rest1 := b1 + 0x100 * rest2;
    assert n == b0 + 0x100 * rest1 && n / 0x100 == rest1;
    assert n / 0x1_0000 == rest2;
    assert n / 0x100_0000 == b3;
  }

  function Header(kind: Byte, length: nat): (bytes: seq<Byte>)
    requires length < UINT32_LIMIT
    ensures |bytes| == HEADER_BYTES
  {
    [kind] + LittleEndian32(length)
  }

  function Encode(f: Frame): seq<Byte>
    requires Fits(f)
  {
    Header(f.kind, |f.payload|) + f.payload
  }

  function EncodeAll(frames: seq<Frame>): seq<Byte>
    requires forall f :: f in frames ==> Fits(f)
  {
    if frames == [] then [] else Encode(frames[0]) + EncodeAll(frames[1..])
  }

  lemma {:induction false} EncodeAllAppend(a: seq<Frame>, b: seq<Frame>)
    requires forall f :: f in a + b ==> Fits(f)
    ensures forall f :: f in a ==> Fits(f)
    ensures forall f :: f in b ==> Fits(f)
    ensures EncodeAll(a + b) == EncodeAll(a) + EncodeAll(b)
  {
    assert forall f :: f in a || f in b ==> f in a + b;
    if a == [] {
      assert a + b == b;
    } else {
      assert (a + b)[1..] == a[1..] + b;
      EncodeAllAppend(a[1..], b);
    }
  }

  // ----- the decoder as an automaton over single bytes -----

  datatype DecoderState =
    | ReadingHeader(held: seq<Byte>)
    | ReadingPayload(kind: Byte, length: nat, got: seq<Byte>)

  const FRESH := ReadingHeader([])

  // A complete header that announces too much is never discarded.
  predicate Stuck(s: DecoderState) {
    s.ReadingHeader? && |s.held| == HEADER_BYTES
  }

  predicate WellFormed(s: DecoderState) {
    match s
    case ReadingHeader(held) =>
      |held| <= HEADER_BYTES && (|held| == HEADER_BYTES ==> ReadLittleEndian32(held[1..]) > MAX_FRAME_BYTES)
    case ReadingPayload(_, length, got) =>
      |got| < length <= MAX_FRAME_BYTES
  }

  function HeaderRead(header: seq<Byte>): (r: (DecoderState, seq<Frame>))
    requires |header| == HEADER_BYTES
    ensures WellFormed(r.0)
  {
    var length := ReadLittleEndian32(header[1..]);
    if length > MAX_FRAME_BYTES then (ReadingHeader(header), [])
    else if length == 0 then (FRESH, [Frame(header[0], [])])
    else (ReadingPayload(header[0], length, []), [])
  }

  // What a run has done so far: the state reached, the frames handed out, whether it ended in a throw.
  datatype Fed = Fed(state: DecoderState, frames: seq<Frame>, threw: bool) {
    function Then(next: Fed): Fed {
      Fed(next.state, frames + next.frames, next.threw)
    }
  }

  function Accept(s: DecoderState, b: Byte): (r: Fed)
    requires WellFormed(s)
    ensures WellFormed(r.state)
    ensures r.threw == Stuck(r.state)
  {
    match s
    case ReadingHeader(held) =>
      if Stuck(s) then Fed(s, [], true)
      else if |held| + 1 < HEADER_BYTES then Fed(ReadingHeader(held + [b]), [], false)
      else
        var (next, out) := HeaderRead(held + [b]);
        Fed(next, out, Stuck(next))
    case ReadingPayload(kind, length, got) =>
      if |got| + 1 < length then Fed(ReadingPayload(kind, length, got + [b]), [], false)
      else Fed(FRESH, [Frame(kind, got + [b])], false)
  }

  function Feed(s: DecoderState, bytes: seq<Byte>): (r: Fed)
    requires WellFormed(s)
    ensures WellFormed(r.state)
    ensures r.threw ==> Stuck(r.state)
    decreases |bytes|
  {
    if bytes == [] then Fed(s, [], false)
    else
      var first := Accept(s, bytes[0]);
      if first.threw then first else first.Then(Feed(first.state, bytes[1..]))
  }

  // Frames decoded earlier in a call that throws are lost with the call.
  datatype PushResult = Frames(frames: seq<Frame>) | Throws(announced: nat)

  function Announced(s: DecoderState): nat
    requires Stuck(s)
  {
    ReadLittleEndian32(s.held[1..])
  }

  function Outcome(r: Fed): PushResult
    requires r.threw ==> Stuck(r.state)
  {
    if r.threw then Throws(Announced(r.state)) else Frames(r.frames)
  }

  // What a caller that keeps pushing chunks collects.
  function PushAll(s: DecoderState, chunks: seq<seq<Byte>>): (DecoderState, seq<Frame>)
    requires WellFormed(s)
    decreases |chunks|
  {
    if chunks == [] then (s, [])
    else
      var r := Feed(s, chunks[0]);
      var (end, later) := PushAll(r.state, chunks[1..]);
      (end, (if r.threw then [] else r.frames) + later)
  }

  // ----- chunking does not matter -----

  lemma ThenAssociates(a: Fed, b: Fed, c: Fed)
    ensures a.Then(b).Then(c) == a.Then(b.Then(c))
  {
    assert (a.frames + b.frames) + c.frames == a.frames + (b.frames + c.frames);
  }

  lemma {:induction false} FeedAppend(s: DecoderState, a: seq<Byte>, b: seq<Byte>)
    requires WellFormed(s)
    ensures Feed(s, a).threw ==> Feed(s, a + b) == Feed(s, a)
    ensures !Feed(s, a).threw ==> Feed(s, a + b) == Feed(s, a).Then(Feed(Feed(s, a).state, b))
    decreases |a|
  {
    if a == [] {
      assert a + b == b;
      assert [] + Feed(s, b).frames == Feed(s, b).frames;
    } else {
      assert (a + b)[1..] == a[1..] + b;
      var first := Accept(s, a[0]);
      if !first.threw {
        FeedAppend(first.state, a[1..], b);
        var middle := Feed(first.state, a[1..]);
        ThenAssociates(first, middle, Feed(middle.state, b));
      }
    }
  }

  // How many calls come before the first that throws, if one does.
  function CallsBefore(s: DecoderState, chunks: seq<seq<Byte>>): (n: nat)
    requires WellFormed(s)
    ensures n <= |chunks|
    decreases |chunks|
  {
    if chunks == [] || Feed(s, chunks[0]).threw then 0
    else 1 + CallsBefore(Feed(s, chunks[0]).state, chunks[1..])
  }

  lemma {:induction false} StuckForever(s: DecoderState, chunks: seq<seq<Byte>>)
    requires WellFormed(s) && Stuck(s)
    ensures PushAll(s, chunks) == (s, [])
    ensures forall chunk :: chunk in chunks && chunk != [] ==> Outcome(Feed(s, chunk)) == Throws(Announced(s))
    decreases |chunks|
  {
    if chunks == [] {
    } else {
      StuckForever(s, chunks[1..]);
      assert Accept(s, 0) == Fed(s, [], true);
      assert Feed(s, chunks[0]) == Fed(s, [], chunks[0] != []);
      var later: seq<Frame> := [];
      assert [] + later == later;
      assert PushAll(s, chunks) == (s, [] + later);
    }
  }

  /** Chunking does not matter: pushing chunks leaves the decoder in the state of pushing their
      concatenation, and gives its frames, as far as they were complete before the first call that throws. */
  lemma {:induction false} ChunkingIrrelevant(s: DecoderState, chunks: seq<seq<Byte>>)
    requires WellFormed(s)
    ensures var all := Feed(s, Concat(chunks));
      && PushAll(s, chunks) == (all.state, Feed(s, Concat(chunks[..CallsBefore(s, chunks)])).frames)
      && PushAll(s, chunks).1 <= all.frames
      && (!all.threw ==> PushAll(s, chunks).1 == all.frames)
    decreases |chunks|
  {
    if chunks == [] {
    } else {
      hide Accept, Feed;
      var first, n := Feed(s, chunks[0]), CallsBefore(s, chunks);
      FeedAppend(s, chunks[0], Concat(chunks[1..]));
      if first.threw {
        StuckForever(first.state, chunks[1..]);
        assert chunks[..0] == [];
        FeedNone(s);
      } else {
        ChunkingIrrelevant(first.state, chunks[1..]);
        assert chunks[..n][0] == chunks[0] && chunks[..n][1..] == chunks[1..][..n - 1];
        FeedAppend(s, chunks[0], Concat(chunks[1..][..n - 1]));
      }
    }
  }

  lemma FeedNone(s: DecoderState)
    requires WellFormed(s)
    ensures Feed(s, []) == Fed(s, [], false)
  {
  }

  // ----- decoding an encoded stream -----

  lemma {:induction false} FeedPayload(kind: Byte, length: nat, got: seq<Byte>, more: seq<Byte>)
    requires |got| < length <= MAX_FRAME_BYTES && |got| + |more| <= length
    ensures Feed(ReadingPayload(kind, length, got), more) ==
            if |got| + |more| < length then Fed(ReadingPayload(kind, length, got + more), [], false)
            else Fed(FRESH, [Frame(kind, got + more)], false)
    decreases |more|
  {
    if more == [] {
      assert got + more == got;
    } else {
      assert got + more == (got + [more[0]]) + more[1..];
      if |got| + 1 < length {
        FeedPayload(kind, length, got + [more[0]], more[1..]);
      } else {
        assert more == [more[0]] && more[1..] == [];
        assert [Frame(kind, got + more)] + [] == [Frame(kind, got + more)];
      }
    }
  }

  lemma {:induction false} FeedHeader(held: seq<Byte>, more: seq<Byte>)
    requires |held| < HEADER_BYTES && |held| + |more| <= HEADER_BYTES
    ensures var r := Feed(ReadingHeader(held), more);
      if |held| + |more| < HEADER_BYTES then r == Fed(ReadingHeader(held + more), [], false)
      else
        var (next, out) := HeaderRead(held + more);
        r == Fed(next, out, Stuck(next))
    decreases |more|
  {
    if more == [] {
      assert held + more == held;
    } else {
      assert held + more == (held + [more[0]]) + more[1..];
      if |held| + 1 < HEADER_BYTES {
        FeedHeader(held + [more[0]], more[1..]);
      } else {
        assert more[1..] == [];
        var (next, out) := HeaderRead(held + more);
        assert out + [] == out;
      }
    }
  }

  lemma FeedEncoded(f: Frame)
    requires Fits(f)
    ensures Feed(FRESH, Encode(f)) == Fed(FRESH, [f], false)
  {
    var header := Header(f.kind, |f.payload|);
    LengthReadsBack(|f.payload|);
    assert header[1..] == LittleEndian32(|f.payload|);
    FeedHeader([], header);
    assert [] + header == header;
    FeedAppend(FRESH, header, f.payload);
    if f.payload != [] {
      FeedPayload(f.kind, |f.payload|, [], f.payload);
      assert [] + f.payload == f.payload;
    }
  }

  lemma {:induction false} FeedEncodedAll(frames: seq<Frame>)
    requires forall f :: f in frames ==> Fits(f)
    ensures Feed(FRESH, EncodeAll(frames)) == Fed(FRESH, frames, false)
  {
    if frames == [] {
    } else {
      FeedEncoded(frames[0]);
      FeedEncodedAll(frames[1..]);
      FeedAppend(FRESH, Encode(frames[0]), EncodeAll(frames[1..]));
      assert [frames[0]] + frames[1..] == frames;
    }
  }

  /** Round trip: however the encoded stream is cut into chunks, the decoder hands out exactly the
      frames that were written, in order, and is ready for the next header. */
  lemma RoundTrip(frames: seq<Frame>, chunks: seq<seq<Byte>>)
    requires forall f :: f in frames ==> Fits(f)
    requires Concat(chunks) == EncodeAll(frames)
    ensures PushAll(FRESH, chunks) == (FRESH, frames)
  {
    FeedEncodedAll(frames);
    ChunkingIrrelevant(FRESH, chunks);
  }

  // ----- the decoder invents and loses nothing -----

  // The bytes of the frame still being read.
  function Pending(s: DecoderState): seq<Byte>
    requires WellFormed(s)
  {
    match s
    case ReadingHeader(held) => held
    case ReadingPayload(kind, length, got) => Header(kind, length) + got
  }

  lemma AcceptKeepsBytes(s: DecoderState, b: Byte)
    requires WellFormed(s) && !Stuck(s)
    ensures var r := Accept(s, b);
      (forall f :: f in r.frames ==> Fits(f)) && EncodeAll(r.frames) + Pending(r.state) == Pending(s) + [b]
  {
    hide LittleEndian32, ReadLittleEndian32;
    var r := Accept(s, b);
    if r.frames != [] {
      assert EncodeAll(r.frames) == Encode(r.frames[0]) + [] == Encode(r.frames[0]);
    }
    if s.ReadingHeader? {
      if |s.held| + 1 == HEADER_BYTES {
        var header := s.held + [b];
        LengthWritesBack(header[1..]);
        assert Header(header[0], ReadLittleEndian32(header[1..])) == header;
      }
    } else if r.frames != [] {
      assert Encode(r.frames[0]) == Pending(s) + [b];
    }
  }

  // How much of the input a run accounts for.
  function Accounted(r: Fed): seq<Byte>
    requires WellFormed(r.state) && forall f :: f in r.frames ==> Fits(f)
  {
    EncodeAll(r.frames) + Pending(r.state)
  }

  lemma AccountedThen(first: Fed, tail: Fed)
    requires WellFormed(tail.state)
    requires forall f :: f in first.frames ==> Fits(f)
    requires forall f :: f in tail.frames ==> Fits(f)
    ensures Accounted(first.Then(tail)) == EncodeAll(first.frames) + Accounted(tail)
  {
    EncodeAllAppend(first.frames, tail.frames);
    ConcatAssociates(EncodeAll(first.frames), EncodeAll(tail.frames), Pending(tail.state));
  }

  lemma {:induction false} FeedKeepsBytes(s: DecoderState, bytes: seq<Byte>)
    requires WellFormed(s)
    ensures forall f :: f in Feed(s, bytes).frames ==> Fits(f)
    ensures Accounted(Feed(s, bytes)) <= Pending(s) + bytes
    ensures !Feed(s, bytes).threw ==> Accounted(Feed(s, bytes)) == Pending(s) + bytes
    decreases |bytes|
  {
    hide Header, HeaderRead, Encode;
    if bytes == [] {
      assert Pending(s) + bytes == Pending(s);
    } else if !Stuck(s) {
      var first := Accept(s, bytes[0]);
      AcceptKeepsBytes(s, bytes[0]);
      ConcatAssociates(Pending(s), [bytes[0]], bytes[1..]);
      assert [bytes[0]] + bytes[1..] == bytes;
      if !first.threw {
        var tail := Feed(first.state, bytes[1..]);
        FeedKeepsBytes(first.state, bytes[1..]);
        AccountedThen(first, tail);
        var whole, front, back := Pending(s) + bytes, EncodeAll(first.frames), Pending(first.state) + bytes[1..];
        ConcatAssociates(front, Pending(first.state), bytes[1..]);
        PrefixUnder(front, Accounted(tail), back);
      }
    } else {
      assert Feed(s, bytes) == Fed(s, [], true);
      assert [] + Pending(s) == Pending(s) <= Pending(s) + bytes;
    }
  }

  lemma PrefixUnder(front: seq<Byte>, a: seq<Byte>, b: seq<Byte>)
    requires a <= b
    ensures front + a <= front + b
  {
  }

  /** The converse of the round trip: whatever bytes arrive, as long as no header is oversized, they
      are exactly the encoding of the frames handed out followed by the bytes of an unfinished frame. */
  lemma DecodedIsReceived(chunks: seq<seq<Byte>>)
    requires !Feed(FRESH, Concat(chunks)).threw
    ensures var (end, frames) := PushAll(FRESH, chunks);
      WellFormed(end) && (forall f :: f in frames ==> Fits(f)) &&
      Concat(chunks) == EncodeAll(frames) + Pending(end)
  {
    ChunkingIrrelevant(FRESH, chunks);
    FeedKeepsBytes(FRESH, Concat(chunks));
    assert Pending(FRESH) + Concat(chunks) == Concat(chunks);
  }

  // ----- oversized headers -----

  /** After frames that fit, a header that announces too much stops the decoder for good: in any
      chunking it ends stuck on that header and what the caller saw is a prefix of the frames. */
  lemma {:induction false} OversizedStops(frames: seq<Frame>, kind: Byte, length: nat, rest: seq<Byte>)
    requires forall f :: f in frames ==> Fits(f)
    requires MAX_FRAME_BYTES < length < UINT32_LIMIT
    ensures Feed(FRESH, EncodeAll(frames) + (Header(kind, length) + rest)) ==
            Fed(ReadingHeader(Header(kind, length)), frames, true)
  {
    var header := Header(kind, length);
    FeedEncodedAll(frames);
    FeedAppend(FRESH, EncodeAll(frames), header + rest);
    LengthReadsBack(length);
    assert header[1..] == LittleEndian32(length);
    FeedHeader([], header);
    assert [] + header == header;
    FeedAppend(FRESH, header, rest);
    assert frames + [] == frames;
  }

  lemma OversizedInAnyChunking(frames: seq<Frame>, kind: Byte, length: nat, rest: seq<Byte>,
                               chunks: seq<seq<Byte>>, later: seq<seq<Byte>>)
    requires forall f :: f in frames ==> Fits(f)
    requires MAX_FRAME_BYTES < length < UINT32_LIMIT
    requires Concat(chunks) == EncodeAll(frames) + (Header(kind, length) + rest)
    ensures var (end, seen) := PushAll(FRESH, chunks);
      WellFormed(end) && Stuck(end) && Announced(end) == length && seen <= frames &&
      PushAll(end, later) == (end, []) &&
      forall chunk :: chunk in later && chunk != [] ==> Outcome(Feed(end, chunk)) == Throws(length)
  {
    OversizedStops(frames, kind, length, rest);
    ChunkingIrrelevant(FRESH, chunks);
    var end := PushAll(FRESH, chunks).0;
    LengthReadsBack(length);
    assert end.held[1..] == LittleEndian32(length);
    StuckForever(end, later);
  }

  // ----- the writer -----

  /** A writable stream: it records what it was given and answers, in a way the writer cannot
      predict, whether it wants more. */
  class ByteSink {
    var written: seq<Byte>
    var asked: seq<bool>

    constructor ()
      ensures written == [] && asked == []
    {
      written, asked := [], [];
    }

    method Write(bytes: seq<Byte>) returns (wantsMore: bool)
      modifies this
      ensures written == old(written) + bytes
      ensures asked == old(asked) + [wantsMore]
    {
      wantsMore := *;
      written, asked := written + bytes, asked + [wantsMore];
    }
  }

  // The answer of a write, or the `RangeError` of a length that the header has no room for.
  datatype WriteAnswer = Wrote(canWrite: bool) | TooLong

  method WriteFrame(sink: ByteSink, f: Frame) returns (answer: WriteAnswer)
    modifies sink
    ensures answer.TooLong? <==> |f.payload| >= UINT32_LIMIT
    ensures answer.TooLong? ==> sink.written == old(sink.written) && sink.asked == old(sink.asked)
    ensures answer.Wrote? ==>
              && sink.written == old(sink.written) + (Header(f.kind, |f.payload|) + f.payload)
              && |sink.asked| == |old(sink.asked)| + (if f.payload == [] then 1 else 2)
              && old(sink.asked) <= sink.asked
              && (answer.canWrite <==> forall k :: |old(sink.asked)| <= k < |sink.asked| ==> sink.asked[k])
  {
    if |f.payload| >= UINT32_LIMIT {
      return TooLong;
    }
    ghost var n := |sink.asked|;
    hide Header;
    var header := Header(f.kind, |f.payload|);
    var canWrite := sink.Write(header);
    assert sink.asked[n] == canWrite;
    if f.payload != [] {
      var again := sink.Write(f.payload);
      assert sink.asked[n] == canWrite && sink.asked[n + 1] == again;
      canWrite := again && canWrite;
    } else {
      assert header + f.payload == header;
    }
    assert sink.written == old(sink.written) + (header + f.payload);
    answer := Wrote(canWrite);
  }

  // ----- the decoder class -----

  method CopyInto(src: seq<Byte>, target: array<Byte>, at: nat, from: nat, count: nat)
    requires from + count <= |src| && at + count <= target.Length
    modifies target
    ensures target[..] == old(target[..at]) + src[from..from + count] + old(target[at + count..])
  {
    for k := 0 to count
      invariant target[..at] == old(target[..at])
      invariant target[at..at + k] == src[from..from + k]
      invariant target[at + k..] == old(target[at + k..])
    {
      target[at + k] := src[from + k];
      SliceSnoc(target[..], at, at + k);
      SliceSnoc(src, from, from + k);
      assert target[at..at + k + 1] == target[at..at + k] + [target[at + k]];
      assert target[at + k + 1..] == target[at + k..][1..];
    }
    assert target[..] == target[..at] + target[at..at + count] + target[at + count..];
  }

  lemma FeedNothing(s: DecoderState)
    requires WellFormed(s)
    ensures Feed(s, []) == Fed(s, [], false)
  {
  }

  lemma TurnTaken(sofar: Fed, s: DecoderState, turn: Fed, block: seq<Byte>, rest: seq<Byte>)
    requires WellFormed(s) && WellFormed(turn.state) && !turn.threw
    requires Feed(s, block) == turn
    ensures sofar.Then(Feed(s, block + rest)) == sofar.Then(turn).Then(Feed(turn.state, rest))
  {
    FeedAppend(s, block, rest);
    ThenAssociates(sofar, turn, Feed(turn.state, rest));
  }

  class Decoder {
    const header: array<Byte>
    var headerOffset: nat
    var frameType: Byte
    var payload: array?<Byte>
    var payloadOffset: nat

    ghost predicate Valid()
      reads this, header, payload
    {
      && header.Length == HEADER_BYTES
      && payload != header
      && headerOffset <= HEADER_BYTES
      && (payload == null ==> WellFormed(ReadingHeader(header[..headerOffset])))
      && (payload != null ==> headerOffset == 0 && payloadOffset < payload.Length <= MAX_FRAME_BYTES)
    }

    ghost function State(): (s: DecoderState)
      requires Valid()
      reads this, header, payload
      ensures WellFormed(s)
    {
      if payload == null then ReadingHeader(header[..headerOffset])
      else ReadingPayload(frameType, payload.Length, payload[..payloadOffset])
    }

    constructor ()
      ensures Valid() && State() == FRESH && fresh(header)
    {
      header := new Byte[HEADER_BYTES];
      headerOffset, frameType, payload, payloadOffset := 0, 0, null, 0;
    }

    // Copies the next bytes of a header; `complete` says the header is whole.
    method FillHeader(chunk: seq<Byte>, offset: nat) returns (next: nat, complete: bool)
      requires Valid() && payload == null && offset < |chunk|
      modifies this`headerOffset, header
      ensures header.Length == HEADER_BYTES
      ensures offset <= next <= |chunk| && headerOffset <= HEADER_BYTES
      ensures header[..headerOffset] == old(header[..headerOffset]) + chunk[offset..next]
      ensures complete == (headerOffset == HEADER_BYTES)
      ensures !complete ==> next == |chunk|
    {
      var toCopy := if HEADER_BYTES - headerOffset < |chunk| - offset then HEADER_BYTES - headerOffset else |chunk| - offset;
      CopyInto(chunk, header, headerOffset, offset, toCopy);
      headerOffset := headerOffset + toCopy;
      next := offset + toCopy;
      complete := headerOffset == HEADER_BYTES;
    }

    // One turn of the loop of `Push` while a header is being read.
    method HeaderTurn(chunk: seq<Byte>, offset: nat) returns (next: nat, frames: seq<Frame>, threw: bool)
      requires Valid() && payload == null && offset < |chunk|
      modifies this, header
      ensures Valid() && (payload == null || fresh(payload))
      ensures offset <= next <= |chunk|
      ensures threw ==> Feed(old(State()), chunk[offset..]) == Fed(State(), [], true)
      ensures threw ==> payload == null && header[1..] == State().held[1..]
      ensures !threw ==> offset < next && Feed(old(State()), chunk[offset..next]) == Fed(State(), frames, false)
    {
      hide ReadLittleEndian32;
      ghost var before := State();
      ghost var held := header[..headerOffset];
      var complete;
      frames := [];
      next, complete := FillHeader(chunk, offset);
      ghost var block := chunk[offset..next];
      if !Stuck(before) {
        FeedHeader(held, block);
      }
      if !complete {
        return next, [], false;
      }
      assert header[..headerOffset] == header[..];
      assert header[..][1..] == header[1..];
      var length := ReadLittleEndian32(header[1..]);
      if length > MAX_FRAME_BYTES {
        assert chunk[offset..] == block + chunk[next..];
        if Stuck(before) {
          assert header[..] == held;
        } else {
          FeedAppend(before, block, chunk[next..]);
        }
        return next, [], true;
      }
      frameType := header[0];
      headerOffset, payloadOffset := 0, 0;
      if length > 0 {
        payload := new Byte[length];
        assert payload[..0] == [];
      } else {
        frames := [Frame(frameType, [])];
        assert header[..0] == [];
      }
      threw := false;
    }

    // One turn of the loop of `Push` while a payload is being read.
    method PayloadTurn(chunk: seq<Byte>, offset: nat) returns (next: nat, frames: seq<Frame>)
      requires Valid() && payload != null && offset < |chunk|
      modifies this, payload
      ensures Valid() && (payload == null || payload == old(payload))
      ensures offset < next <= |chunk|
      ensures Feed(old(State()), chunk[offset..next]) == Fed(State(), frames, false)
    {
      var buffer := payload;
      ghost var got := buffer[..payloadOffset];
      var needed := buffer.Length - payloadOffset;
      var toCopy := if needed < |chunk| - offset then needed else |chunk| - offset;
      CopyInto(chunk, buffer, payloadOffset, offset, toCopy);
      next := offset + toCopy;
      payloadOffset := payloadOffset + toCopy;
      ghost var block := chunk[offset..next];
      assert buffer[..payloadOffset] == got + block;
      FeedPayload(frameType, buffer.Length, got, block);
      if payloadOffset < buffer.Length {
        return next, [];
      }
      assert buffer[..] == got + block;
      payload, payloadOffset := null, 0;
      assert header[..0] == [];
      return next, [Frame(frameType, buffer[..])];
    }

    method TakeTurn(chunk: seq<Byte>, offset: nat) returns (next: nat, frames: seq<Frame>, threw: bool)
      requires Valid() && offset < |chunk|
      modifies this, header, payload
      ensures Valid() && (payload == null || payload == old(payload) || fresh(payload))
      ensures offset <= next <= |chunk|
      ensures threw ==> Feed(old(State()), chunk[offset..]) == Fed(State(), [], true)
      ensures threw ==> payload == null && header[1..] == State().held[1..]
      ensures !threw ==> offset < next && Feed(old(State()), chunk[offset..next]) == Fed(State(), frames, false)
    {
      hide Feed, WellFormed;
      if payload == null {
        next, frames, threw := HeaderTurn(chunk, offset);
      } else {
        next, frames := PayloadTurn(chunk, offset);
        threw := false;
      }
    }

    method Push(chunk: seq<Byte>) returns (result: PushResult)
      requires Valid()
      modifies this, header, payload
      ensures Valid()
      ensures payload == null || payload == old(payload) || fresh(payload)
      ensures State() == Feed(old(State()), chunk).state
      ensures result == Outcome(Feed(old(State()), chunk))
    {
      var frames: seq<Frame> := [];
      var offset := 0;
      ghost var start := State();
      ghost var state := start;
      ghost var whole := Feed(start, chunk);
      assert chunk[0..] == chunk;
      assert [] + whole.frames == whole.frames;
      hide Accept, HeaderRead, ReadLittleEndian32, Feed, WellFormed;
      while offset < |chunk|
        invariant Valid() && offset <= |chunk|
        invariant payload == null || payload == old(payload) || fresh(payload)
        invariant state == State()
        invariant whole == Fed(start, frames, false).Then(Feed(state, chunk[offset..]))
        decreases |chunk| - offset
      {
        var next, out, threw := TakeTurn(chunk, offset);
        if threw {
          assert whole.threw && whole.state == State();
          return Throws(ReadLittleEndian32(header[1..]));
        }
        assert chunk[offset..] == chunk[offset..next] + chunk[next..];
        TurnTaken(Fed(start, frames, false), state, Fed(State(), out, false), chunk[offset..next], chunk[next..]);
        state := State();
        frames := frames + out;
        offset := next;
      }
      assert chunk[offset..] == [];
      FeedNothing(state);
      assert frames + [] == frames;
      return Frames(frames);
    }
  }
}
