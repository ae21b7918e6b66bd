/** The ranges that the fuzzy scorer highlights (packages/workspace-fs/src/fuzzy-scorer.ts). */
module FuzzyMatches {

  datatype Span = Span(start: int, end: int)

  // The positions of a span, and of several, in order.
  function Range(start: int, end: int): seq<int> {
    if start < end then seq(end - start, i => start + i) else []
  }

  function Expand(spans: seq<Span>): seq<int> {
    if spans == [] then [] else Expand(spans[..|spans| - 1]) + Range(spans[|spans| - 1].start, spans[|spans| - 1].end)
  }

  ghost predicate Covers(spans: seq<Span>, x: int) {
    exists k :: 0 <= k < |spans| && spans[k].start <= x < spans[k].end
  }

  /** The ranges of a list of positions: read off in order they give back the list, whatever it is;
      none is empty, and none could have been joined to the next. */
  method CreateMatches(offsets: seq<int>) returns (ret: seq<Span>)
    ensures Expand(ret) == offsets
    ensures forall k :: 0 <= k < |ret| ==> ret[k].start < ret[k].end
    ensures forall k :: 0 <= k < |ret| - 1 ==> ret[k].end != ret[k + 1].start
  {
    hide Expand, Range;
    ret := [];
    NothingExpanded();
    for i := 0 to |offsets|
      invariant Expand(ret) == offsets[..i]
      invariant forall k :: 0 <= k < |ret| ==> ret[k].start < ret[k].end
      invariant forall k :: 0 <= k < |ret| - 1 ==> ret[k].end != ret[k + 1].start
    {
      var pos := offsets[i];
      assert offsets[..i + 1] == offsets[..i] + [pos];
      var n := |ret| - 1;
      if ret != [] && ret[n].end == pos {
        Longer(ret);
        ret := ret[n := Span(ret[n].start, ret[n].end + 1)];
      } else {
        OneMore(ret, Span(pos, pos + 1));
        ret := ret + [Span(pos, pos + 1)];
      }
    }
    assert offsets[..|offsets|] == offsets;
  }

  lemma NothingExpanded()
    ensures Expand([]) == []
  {
  }

  lemma Longer(spans: seq<Span>)
    requires spans != [] && spans[|spans| - 1].start < spans[|spans| - 1].end
    ensures var last := spans[|spans| - 1];
      Expand(spans[|spans| - 1 := Span(last.start, last.end + 1)]) == Expand(spans) + [last.end]
  {
    hide Expand, Range;
    var n := |spans| - 1;
    var last := spans[n];
    var longer := Span(last.start, last.end + 1);
    assert spans == spans[..n] + [last] && spans[n := longer] == spans[..n] + [longer];
    OneMore(spans[..n], last);
    OneMore(spans[..n], longer);
    RangeSnoc(last.start, last.end);
    assert Expand(spans[..n]) + (Range(last.start, last.end) + [last.end])
        == (Expand(spans[..n]) + Range(last.start, last.end)) + [last.end];
  }

  lemma RangeSnoc(start: int, end: int)
    requires start <= end
    ensures Range(start, end + 1) == Range(start, end) + [end]
  {
  }

  lemma OneMore(spans: seq<Span>, span: Span)
    ensures Expand(spans + [span]) == Expand(spans) + Range(span.start, span.end)
    ensures Range(span.start, span.start + 1) == [span.start]
  {
    assert (spans + [span])[..|spans|] == spans;
  }

  lemma {:induction false} ExpandCovers(spans: seq<Span>)
    ensures forall x :: x in Expand(spans) <==> Covers(spans, x)
  {
    if spans == [] {
    } else {
      var n := |spans| - 1;
      ExpandCovers(spans[..n]);
      forall x
        ensures x in Expand(spans) <==> Covers(spans, x)
      {
        RangeHolds(spans[n].start, spans[n].end, x);
        if Covers(spans[..n], x) {
          var k :| 0 <= k < n && spans[..n][k].start <= x < spans[..n][k].end;
          assert spans[k].start <= x < spans[k].end;
        }
        if Covers(spans, x) {
          var k :| 0 <= k < |spans| && spans[k].start <= x < spans[k].end;
          assert k < n ==> spans[..n][k] == spans[k];
        }
      }
    }
  }

  lemma RangeHolds(start: int, end: int, x: int)
    ensures x in Range(start, end) <==> start <= x < end
  {
    if start <= x < end {
      assert Range(start, end)[x - start] == x;
    }
  }

  // ----- joining the ranges of several query pieces -----

  function Insert(span: Span, sorted: seq<Span>): seq<Span> {
    if sorted == [] then [span]
    else if span.start < sorted[0].start then [span] + sorted
    else [sorted[0]] + Insert(span, sorted[1..])
  }

  // `spans.sort((a, b) => a.start - b.start)`, which is stable.
  function SortByStart(spans: seq<Span>): seq<Span> {
    if spans == [] then [] else Insert(spans[|spans| - 1], SortByStart(spans[..|spans| - 1]))
  }

  ghost predicate Sorted(spans: seq<Span>) {
    forall i, j :: 0 <= i < j < |spans| ==> spans[i].start <= spans[j].start
  }

  ghost predicate Proper(spans: seq<Span>) {
    forall k :: 0 <= k < |spans| ==> spans[k].start <= spans[k].end
  }

  lemma {:induction false} Inserting(span: Span, sorted: seq<Span>)
    requires Sorted(sorted)
    ensures Sorted(Insert(span, sorted))
    ensures forall s :: s in Insert(span, sorted) <==> s == span || s in sorted
  {
    if sorted == [] {
    } else {
      hide Sorted;
      var first, tail := sorted[0], sorted[1..];
      assert forall s :: s in sorted <==> s == first || s in tail by { assert sorted == [first] + tail; }
      SortedTail(sorted);
      if span.start >= first.start {
        Inserting(span, tail);
        SortedFrom(first, Insert(span, tail));
      } else {
        SortedFrom(span, sorted);
      }
    }
  }

  lemma SortedTail(sorted: seq<Span>)
    requires Sorted(sorted) && sorted != []
    ensures Sorted(sorted[1..]) && forall s :: s in sorted ==> sorted[0].start <= s.start
  {
    assert forall i :: 0 <= i < |sorted[1..]| ==> sorted[1..][i] == sorted[i + 1];
  }

  lemma SortedFrom(first: Span, rest: seq<Span>)
    requires Sorted(rest) && forall s :: s in rest ==> first.start <= s.start
    ensures Sorted([first] + rest)
  {
    assert forall i :: 0 <= i < |rest| ==> rest[i] in rest;
  }

  lemma {:induction false} Sorting(spans: seq<Span>)
    ensures Sorted(SortByStart(spans))
    ensures forall s :: s in SortByStart(spans) <==> s in spans
  {
    hide Insert;
    if spans == [] {
    } else {
      var n := |spans| - 1;
      Sorting(spans[..n]);
      Inserting(spans[n], SortByStart(spans[..n]));
      assert spans == spans[..n] + [spans[n]];
    }
  }

  lemma SortedAlike(spans: seq<Span>)
    ensures Proper(spans) ==> Proper(SortByStart(spans))
    ensures Alike(SortByStart(spans), spans)
  {
    hide SortByStart, Sorted;
    var sorted := SortByStart(spans);
    Sorting(spans);
    SameCover(sorted, spans);
    assert forall k :: 0 <= k < |sorted| ==> sorted[k] in spans;
  }

  lemma SameCover(a: seq<Span>, b: seq<Span>)
    requires forall s :: s in a <==> s in b
    ensures Alike(a, b)
  {
    assert forall k :: 0 <= k < |a| ==> a[k] in b;
    assert forall k :: 0 <= k < |b| ==> b[k] in a;
  }

  predicate MatchOverlaps(a: Span, b: Span) {
    !(a.end < b.start) && !(b.end < a.start)
  }

  // The same positions are covered.
  ghost predicate Alike(a: seq<Span>, b: seq<Span>) {
    forall x :: Covers(a, x) <==> Covers(b, x)
  }

  // `current` and `match_` as one.
  function Joined(current: Span, match_: Span): Span {
    Span(if match_.start < current.start then match_.start else current.start,
         if match_.end > current.end then match_.end else current.end)
  }

  /** Joining: the same positions are covered, by ranges in rising order with a gap between any two. */
  method NormalizeMatches(matches: seq<Span>) returns (normalized: seq<Span>)
    requires Proper(matches)
    ensures Alike(normalized, matches)
    ensures forall i, j :: 0 <= i < j < |normalized| ==> normalized[i].end < normalized[j].start
    ensures Proper(normalized)
  {
    hide SortByStart, Alike, Covers;
    var sorted := SortByStart(matches);
    Sorting(matches);
    SortedAlike(matches);
    normalized := [];
    AlikeItself(sorted[..0]);
    for i := 0 to |sorted|
      invariant Proper(normalized)
      invariant Alike(normalized, sorted[..i])
      invariant forall a, b :: 0 <= a < b < |normalized| ==> normalized[a].end < normalized[b].start
      invariant normalized != [] ==> forall k :: i <= k < |sorted| ==> normalized[|normalized| - 1].start <= sorted[k].start
    {
      var match_ := sorted[i];
      AlikeNext(normalized, sorted, i);
      var n := |normalized| - 1;
      if normalized == [] || !MatchOverlaps(normalized[n], match_) {
        normalized := normalized + [match_];
      } else {
        normalized := normalized[n := Joined(normalized[n], match_)];
      }
    }
    assert sorted[..|sorted|] == sorted;
    AlikeThrough(normalized, sorted, matches);
  }

  lemma AlikeItself(spans: seq<Span>)
    ensures Alike(spans, spans)
  {
  }

  lemma AlikeThrough(a: seq<Span>, b: seq<Span>, c: seq<Span>)
    requires Alike(a, b) && Alike(b, c)
    ensures Alike(a, c)
  {
    hide Covers;
  }

  lemma AlikeNext(normalized: seq<Span>, sorted: seq<Span>, i: nat)
    requires i < |sorted| && Alike(normalized, sorted[..i]) && Proper(normalized) && Proper(sorted)
    ensures Alike(normalized + [sorted[i]], sorted[..i + 1])
    ensures var n := |normalized| - 1;
      normalized != [] && MatchOverlaps(normalized[n], sorted[i])
      ==> Alike(normalized[n := Joined(normalized[n], sorted[i])], sorted[..i + 1])
  {
    hide Covers;
    var n := |normalized| - 1;
    assert sorted[..i + 1] == sorted[..i] + [sorted[i]];
    forall x
      ensures Covers(normalized + [sorted[i]], x) <==> Covers(sorted[..i] + [sorted[i]], x)
    {
      CoversSnoc(normalized, sorted[i], x);
      CoversSnoc(sorted[..i], sorted[i], x);
    }
    if normalized != [] && MatchOverlaps(normalized[n], sorted[i]) {
      var joined := normalized[n := Joined(normalized[n], sorted[i])];
      forall x
        ensures Covers(joined, x) <==> Covers(sorted[..i] + [sorted[i]], x)
      {
        CoversJoined(normalized, sorted[i], x);
        CoversSnoc(sorted[..i], sorted[i], x);
      }
    }
  }

  lemma CoversSnoc(spans: seq<Span>, span: Span, x: int)
    ensures Covers(spans + [span], x) <==> Covers(spans, x) || span.start <= x < span.end
  {
    if Covers(spans, x) {
      var k :| 0 <= k < |spans| && spans[k].start <= x < spans[k].end;
      assert (spans + [span])[k] == spans[k];
    }
    assert (spans + [span])[|spans|] == span;
  }

  lemma CoversJoined(spans: seq<Span>, span: Span, x: int)
    requires spans != [] && MatchOverlaps(spans[|spans| - 1], span)
    requires spans[|spans| - 1].start <= spans[|spans| - 1].end && span.start <= span.end
    ensures var n := |spans| - 1;
      Covers(spans[n := Joined(spans[n], span)], x) <==> Covers(spans, x) || span.start <= x < span.end
  {
    hide Covers;
    var n := |spans| - 1;
    var joined := Joined(spans[n], span);
    assert spans[n := joined] == spans[..n] + [joined];
    assert spans == spans[..n] + [spans[n]];
    CoversSnoc(spans[..n], joined, x);
    CoversSnoc(spans[..n], spans[n], x);
  }

  // The part of `matches` from the boundary on, and the part before it.
  ghost predicate From(matches: seq<Span>, boundary: nat, part: seq<Span>) {
    forall x :: Covers(part, x) <==> x >= 0 && Covers(matches, x + boundary)
  }

  ghost predicate Before(matches: seq<Span>, boundary: nat, part: seq<Span>) {
    forall x :: Covers(part, x) <==> x < boundary && Covers(matches, x)
  }

  /** A range over description and label is divided between them at the boundary. */
  method SplitMatches(matches: seq<Span>, boundary: nat) returns (labelMatch: seq<Span>, descriptionMatch: seq<Span>)
    requires Proper(matches)
    ensures From(matches, boundary, labelMatch) && Before(matches, boundary, descriptionMatch)
    ensures Proper(labelMatch) && Proper(descriptionMatch)
  {
    hide From, Before;
    labelMatch, descriptionMatch := [], [];
    NothingSplit(boundary);
    assert matches[..0] == [];
    for i := 0 to |matches|
      invariant Proper(labelMatch) && Proper(descriptionMatch)
      invariant From(matches[..i], boundary, labelMatch) && Before(matches[..i], boundary, descriptionMatch)
    {
      var h := matches[i];
      assert matches[..i + 1] == matches[..i] + [h];
      FromNext(matches[..i], boundary, labelMatch, h);
      BeforeNext(matches[..i], boundary, descriptionMatch, h);
      if h.start < boundary && h.end > boundary {
        labelMatch := labelMatch + [Span(0, h.end - boundary)];
        descriptionMatch := descriptionMatch + [Span(h.start, boundary)];
      } else if h.start >= boundary {
        labelMatch := labelMatch + [Span(h.start - boundary, h.end - boundary)];
      } else {
        descriptionMatch := descriptionMatch + [h];
      }
    }
    assert matches[..|matches|] == matches;
  }

  lemma NothingSplit(boundary: nat)
    ensures From([], boundary, []) && Before([], boundary, [])
  {
  }

  lemma FromNext(done: seq<Span>, boundary: nat, part: seq<Span>, h: Span)
    requires From(done, boundary, part)
    ensures h.start < boundary && h.end > boundary ==> From(done + [h], boundary, part + [Span(0, h.end - boundary)])
    ensures h.start >= boundary ==> From(done + [h], boundary, part + [Span(h.start - boundary, h.end - boundary)])
    ensures h.start < boundary && h.end <= boundary ==> From(done + [h], boundary, part)
  {
    hide Covers;
    var span := Span(if h.start < boundary then 0 else h.start - boundary, h.end - boundary);
    forall x: int
      ensures x >= 0 && Covers(done + [h], x + boundary) <==> x >= 0 && (Covers(done, x + boundary) || h.start <= x + boundary < h.end)
      ensures Covers(part + [span], x) <==> Covers(part, x) || span.start <= x < span.end
      ensures Covers(part, x) <==> x >= 0 && Covers(done, x + boundary)
    {
      CoversSnoc(done, h, x + boundary);
      CoversSnoc(part, span, x);
    }
  }

  lemma BeforeNext(done: seq<Span>, boundary: nat, part: seq<Span>, h: Span)
    requires Before(done, boundary, part)
    ensures h.start < boundary && h.end > boundary ==> Before(done + [h], boundary, part + [Span(h.start, boundary)])
    ensures h.start >= boundary ==> Before(done + [h], boundary, part)
    ensures h.start < boundary && h.end <= boundary ==> Before(done + [h], boundary, part + [h])
  {
    hide Covers;
    var span := Span(h.start, if h.end > boundary then boundary else h.end);
    forall x: int
      ensures Covers(done + [h], x) <==> Covers(done, x) || h.start <= x < h.end
      ensures Covers(part + [span], x) <==> Covers(part, x) || span.start <= x < span.end
    {
      CoversSnoc(done, h, x);
      CoversSnoc(part, span, x);
    }
  }
}
