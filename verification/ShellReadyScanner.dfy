/** The scanner that finds and strips the shell-ready marker `ESC ] 133 ; A ... BEL` from PTY output
    (packages/shared/src/shell-ready-scanner.ts). */
module ShellReadyScanner {
  import opened Bytes

  const ESC: Byte := 0x1b
  const BEL: Byte := 0x07
  // ESC ] 1 3 3 ; A
  const MARKER: seq<Byte> := [ESC, 0x5d, 0x31, 0x33, 0x33, 0x3b, 0x41]

  // ----- what it means to be ready, without reference to the scanner -----

  ghost predicate MarkerAt(s: seq<Byte>, i: int) {
    0 <= i && i + |MARKER| <= |s| && s[i..i + |MARKER|] == MARKER
  }

  // The first marker of `s` is at `start`, and the first BEL after it is at `bel`.
  ghost predicate FirstReady(s: seq<Byte>, start: nat, bel: nat) {
    && MarkerAt(s, start)
    && (forall i :: MarkerAt(s, i) ==> start <= i)
    && start + |MARKER| <= bel < |s|
    && s[bel] == BEL
    && (forall k :: start + |MARKER| <= k < bel ==> s[k] != BEL)
  }

  lemma FirstReadyUnique(s: seq<Byte>, start: nat, bel: nat, start': nat, bel': nat)
    requires FirstReady(s, start, bel) && FirstReady(s, start', bel')
    ensures start == start' && bel == bel'
  {
  }

  function Without(s: seq<Byte>, start: nat, bel: nat): seq<Byte>
    requires start <= bel < |s|
  {
    s[..start] + s[bel + 1..]
  }

  // ----- the scanner, one byte at a time -----

  datatype ScanState = ScanState(matchPos: nat, held: seq<Byte>)

  const FRESH := ScanState(0, [])

  predicate Valid(s: ScanState) {
    && s.matchPos <= |MARKER|
    && (s.matchPos < |MARKER| ==> s.held == MARKER[..s.matchPos])
    && (s.matchPos == |MARKER| ==> MARKER <= s.held && (forall k :: |MARKER| <= k < |s.held| ==> s.held[k] != BEL))
  }

  datatype Scanned = Scanned(state: ScanState, output: seq<Byte>, matched: bool)

  function ScanByte(s: ScanState, b: Byte): (r: Scanned)
    requires Valid(s)
    ensures Valid(r.state)
  {
    if s.matchPos < |MARKER| then
      if b == MARKER[s.matchPos] then Scanned(ScanState(s.matchPos + 1, s.held + [b]), [], false)
      else if b == MARKER[0] then Scanned(ScanState(1, [b]), s.held, false)
      else Scanned(FRESH, s.held + [b], false)
    else if b == BEL then Scanned(FRESH, [], true)
    else Scanned(ScanState(s.matchPos, s.held + [b]), [], false)
  }

  function Scan(s: ScanState, data: seq<Byte>): (r: Scanned)
    requires Valid(s)
    ensures Valid(r.state)
    decreases |data|
  {
    if data == [] then Scanned(s, [], false)
    else
      var first := ScanByte(s, data[0]);
      if first.matched then first.(output := data[1..])
      else
        var rest := Scan(first.state, data[1..]);
        rest.(output := first.output + rest.output)
  }

  // Carries on with more data: after a match nothing is scanned any more.
  function Then(first: Scanned, data: seq<Byte>): Scanned
    requires Valid(first.state)
  {
    if first.matched then first.(output := first.output + data)
    else
      var second := Scan(first.state, data);
      second.(output := first.output + second.output)
  }

  lemma {:induction false} ScanAppend(s: ScanState, a: seq<Byte>, b: seq<Byte>)
    requires Valid(s)
    ensures Scan(s, a + b) == Then(Scan(s, a), b)
    decreases |a|
  {
    hide ScanByte;
    if a == [] {
      assert a + b == b;
      assert [] + Scan(s, b).output == Scan(s, b).output;
    } else {
      assert (a + b)[1..] == a[1..] + b;
      var one := ScanByte(s, a[0]);
      if !one.matched {
        ScanAppend(one.state, a[1..], b);
        var mid := Scan(one.state, a[1..]);
        ConcatAssociates(one.output, mid.output, if mid.matched then b else Scan(mid.state, b).output);
      }
    }
  }

  // ----- scanning without a match -----

  ghost predicate EndsInMarkerPrefix(s: seq<Byte>, k: nat) {
    k < |MARKER| && k <= |s| && s[|s| - k..] == MARKER[..k]
  }

  // What the scanner knows about the bytes seen so far while it has not matched.
  ghost predicate Tracks(seen: seq<Byte>, output: seq<Byte>, s: ScanState) {
    && Valid(s)
    && output + s.held == seen
    && (s.matchPos < |MARKER| ==>
          && (forall i :: !MarkerAt(seen, i))
          && (forall k :: s.matchPos < k ==> !EndsInMarkerPrefix(seen, k)))
    && (s.matchPos == |MARKER| ==>
          && MarkerAt(seen, |output|)
          && (forall i :: MarkerAt(seen, i) ==> |output| <= i))
  }

  // A marker in `seen + [b]` is either in `seen` already or ends in `b`.
  lemma MarkerAppears(seen: seq<Byte>, b: Byte, i: int)
    requires MarkerAt(seen + [b], i)
    ensures MarkerAt(seen, i) ||
            (i == |seen| + 1 - |MARKER| && EndsInMarkerPrefix(seen, |MARKER| - 1) && b == MARKER[|MARKER| - 1])
  {
    var n := |MARKER|;
    var all := seen + [b];
    if i + n <= |seen| {
      assert all[i..i + n] == seen[i..i + n];
    } else {
      assert all[i..i + n][n - 1] == b;
      assert seen[|seen| - (n - 1)..] == all[i..i + n][..n - 1];
    }
  }

  lemma PrefixAppears(seen: seq<Byte>, b: Byte, k: nat)
    requires 0 < k && EndsInMarkerPrefix(seen + [b], k)
    ensures EndsInMarkerPrefix(seen, k - 1) && b == MARKER[k - 1]
  {
    var all := seen + [b];
    assert all[|all| - k..][k - 1] == b;
    assert seen[|seen| - (k - 1)..] == all[|all| - k..][..k - 1];
  }

  // ESC occurs only at the front of the marker, so no proper prefix of it ends in a shorter one.
  lemma NoBorder(seen: seq<Byte>, long: nat, short: nat)
    requires 0 < short < long && EndsInMarkerPrefix(seen, long)
    ensures !EndsInMarkerPrefix(seen, short)
  {
    var x := seen[|seen| - short];
    assert x == seen[|seen| - long..][long - short] == MARKER[long - short];
    assert seen[|seen| - short..][0] == x;
  }

  lemma ByteTracked(seen: seq<Byte>, output: seq<Byte>, s: ScanState, b: Byte)
    requires Tracks(seen, output, s) && !ScanByte(s, b).matched
    ensures Tracks(seen + [b], output + ScanByte(s, b).output, ScanByte(s, b).state)
  {
    var r := ScanByte(s, b);
    var all := seen + [b];
    assert (output + r.output) + r.state.held == all;
    if s.matchPos < |MARKER| {
      PartialTracked(seen, s, b);
      if r.state.matchPos == |MARKER| {
        assert all[|output|..|output| + |MARKER|] == r.state.held == MARKER;
      }
    } else {
      assert all[|output|..|output| + |MARKER|] == seen[|output|..|output| + |MARKER|];
      forall i | MarkerAt(all, i)
        ensures |output| <= i
      {
        MarkerAppears(seen, b, i);
      }
    }
  }

  lemma PartialTracked(seen: seq<Byte>, s: ScanState, b: Byte)
    requires Valid(s) && s.matchPos < |MARKER| && |s.held| <= |seen|
    requires EndsInMarkerPrefix(seen, s.matchPos)
    requires forall i :: !MarkerAt(seen, i)
    requires forall k :: s.matchPos < k ==> !EndsInMarkerPrefix(seen, k)
    ensures forall i :: MarkerAt(seen + [b], i) ==>
              i == |seen| + 1 - |MARKER| && s.matchPos == |MARKER| - 1 && b == MARKER[s.matchPos]
    ensures forall k :: ScanByte(s, b).state.matchPos < k ==> !EndsInMarkerPrefix(seen + [b], k)
  {
    var all := seen + [b];
    forall i | MarkerAt(all, i)
      ensures i == |seen| + 1 - |MARKER| && s.matchPos == |MARKER| - 1 && b == MARKER[s.matchPos]
    {
      MarkerAppears(seen, b, i);
    }
    forall k: nat | EndsInMarkerPrefix(all, k)
      ensures k <= ScanByte(s, b).state.matchPos
    {
      if 0 < k {
        PrefixAppears(seen, b, k);
        if 0 < k - 1 < s.matchPos {
          NoBorder(seen, s.matchPos, k - 1);
        }
      }
    }
  }

  lemma ByteMatches(seen: seq<Byte>, output: seq<Byte>, s: ScanState, b: Byte, rest: seq<Byte>)
    requires Tracks(seen, output, s) && ScanByte(s, b).matched
    ensures FirstReady(seen + ([b] + rest), |output|, |seen|)
    ensures output + rest == Without(seen + ([b] + rest), |output|, |seen|)
  {
    var n := |MARKER|;
    var all := seen + ([b] + rest);
    assert all[|output|..|output| + n] == seen[|output|..|output| + n];
    forall i | MarkerAt(all, i)
      ensures |output| <= i
    {
      if i < |output| {
        MarkerEarlier(seen, all, i);
      }
    }
    assert forall k :: |output| <= k < |seen| ==> all[k] == s.held[k - |output|];
    assert all[|seen| + 1..] == rest && all[..|output|] == output;
  }

  lemma MarkerEarlier(seen: seq<Byte>, all: seq<Byte>, i: int)
    requires seen <= all && MarkerAt(all, i) && i + |MARKER| <= |seen|
    ensures MarkerAt(seen, i)
  {
    assert all[i..i + |MARKER|] == seen[i..i + |MARKER|];
  }

  // What a run over the whole of `stream` that output `output` has established.
  ghost predicate Explained(stream: seq<Byte>, output: seq<Byte>, r: Scanned) {
    if r.matched then
      exists start: nat, bel: nat :: FirstReady(stream, start, bel) && output == Without(stream, start, bel)
    else Tracks(stream, output, r.state)
  }

  lemma {:induction false} ScanFrom(seen: seq<Byte>, output: seq<Byte>, s: ScanState, data: seq<Byte>)
    requires Tracks(seen, output, s)
    ensures Explained(seen + data, output + Scan(s, data).output, Scan(s, data))
    decreases |data|
  {
    assert Valid(s);
    hide ScanByte, Tracks, FirstReady;
    if data == [] {
      assert seen + data == seen && output + [] == output;
    } else {
      var first := ScanByte(s, data[0]);
      assert data == [data[0]] + data[1..];
      if first.matched {
        ByteMatches(seen, output, s, data[0], data[1..]);
      } else {
        ByteTracked(seen, output, s, data[0]);
        ScanFrom(seen + [data[0]], output + first.output, first.state, data[1..]);
        ConcatAssociates(seen, [data[0]], data[1..]);
        ConcatAssociates(output, first.output, Scan(first.state, data[1..]).output);
      }
    }
  }

  lemma TracksExcludesReady(seen: seq<Byte>, output: seq<Byte>, s: ScanState, start: nat, bel: nat)
    requires Tracks(seen, output, s)
    ensures !FirstReady(seen, start, bel)
  {
    var n := |output|;
    assert forall k :: n <= k < |seen| ==> seen[k] == s.held[k - n];
  }

  // ----- any chunking -----

  // How a session uses the scanner: once matched, later chunks pass through unscanned.
  function ScanChunks(s: ScanState, chunks: seq<seq<Byte>>): (r: Scanned)
    requires Valid(s)
    ensures Valid(r.state)
    decreases |chunks|
  {
    if chunks == [] then Scanned(s, [], false)
    else
      var first := Scan(s, chunks[0]);
      if first.matched then first.(output := first.output + Concat(chunks[1..]))
      else
        var rest := ScanChunks(first.state, chunks[1..]);
        rest.(output := first.output + rest.output)
  }

  lemma {:induction false} ChunkingIrrelevant(s: ScanState, chunks: seq<seq<Byte>>)
    requires Valid(s)
    ensures ScanChunks(s, chunks) == Scan(s, Concat(chunks))
    decreases |chunks|
  {
    if chunks == [] {
    } else {
      ScanAppend(s, chunks[0], Concat(chunks[1..]));
      ChunkingIrrelevant(Scan(s, chunks[0]).state, chunks[1..]);
    }
  }

  /** In any chunking the scanner matches exactly when the stream holds a marker followed by a BEL;
      it then outputs the stream without its first `marker ... BEL`, and until then output followed
      by held bytes is the stream. */
  lemma StripsFirstMarker(chunks: seq<seq<Byte>>)
    ensures var stream := Concat(chunks);
      var r := ScanChunks(FRESH, chunks);
      && (r.matched <==> exists start: nat, bel: nat :: FirstReady(stream, start, bel))
      && (!r.matched ==> r.output + r.state.held == stream)
      && (forall start: nat, bel: nat :: FirstReady(stream, start, bel) ==> r.output == Without(stream, start, bel))
  {
    var stream := Concat(chunks);
    ChunkingIrrelevant(FRESH, chunks);
    assert Tracks([], [], FRESH);
    ScanFrom([], [], FRESH, stream);
    var r := Scan(FRESH, stream);
    assert [] + stream == stream && [] + r.output == r.output;
    forall start: nat, bel: nat | FirstReady(stream, start, bel)
      ensures r.matched && r.output == Without(stream, start, bel)
    {
      if !r.matched {
        TracksExcludesReady(stream, r.output, r.state, start, bel);
      } else {
        var start', bel' :| FirstReady(stream, start', bel') && r.output == Without(stream, start', bel');
        FirstReadyUnique(stream, start, bel, start', bel');
      }
    }
  }

  // ----- the scanner as written -----

  lemma ByteTaken(s: ScanState, output: seq<Byte>, data: seq<Byte>, i: nat)
    requires Valid(s) && i < |data|
    ensures var one := ScanByte(s, data[i]);
      var rest := Then(Scanned(s, output, false), data[i..]);
      rest == Then(one.(output := output + one.output), data[i + 1..]) &&
      (s.matchPos < |MARKER| && data[i] != MARKER[s.matchPos] && data[i] != MARKER[0] ==>
        output + one.output == (output + s.held) + [data[i]]) &&
      output + [] == output
  {
    hide Valid;
    var one := ScanByte(s, data[i]);
    assert data[i..][1..] == data[i + 1..];
    ConcatAssociates(output, one.output, if one.matched then data[i + 1..] else Scan(one.state, data[i + 1..]).output);
  }

  class Scanner {
    var matchPos: nat
    var heldBytes: seq<Byte>

    ghost function State(): ScanState
      reads this
    {
      ScanState(matchPos, heldBytes)
    }

    constructor ()
      ensures State() == FRESH
    {
      matchPos, heldBytes := 0, [];
    }

    method ScanForShellReady(data: seq<Byte>) returns (output: seq<Byte>, matched: bool)
      requires Valid(State())
      modifies this
      ensures Valid(State())
      ensures Scanned(State(), output, matched) == Scan(old(State()), data)
    {
      output := [];
      ghost var whole := Scan(State(), data);
      assert data[0..] == data && [] + whole.output == whole.output;
      for i := 0 to |data|
        invariant Valid(State())
        invariant whole == Then(Scanned(State(), output, false), data[i..])
      {
        var b := data[i];
        ByteTaken(State(), output, data, i);
        if matchPos < |MARKER| {
          if b == MARKER[matchPos] {
            heldBytes := heldBytes + [b];
            matchPos := matchPos + 1;
          } else {
            output := output + heldBytes;
            heldBytes, matchPos := [], 0;
            if b == MARKER[0] {
              heldBytes := heldBytes + [b];
              matchPos := 1;
            } else {
              output := output + [b];
            }
          }
        } else {
          if b == BEL {
            heldBytes, matchPos := [], 0;
            return output + data[i + 1..], true;
          }
          heldBytes := heldBytes + [b];
        }
      }
      assert data[|data|..] == [] && output + [] == output;
      return output, false;
    }
  }
}
