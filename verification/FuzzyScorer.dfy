/** The fuzzy scorer's dynamic program (packages/workspace-fs/src/fuzzy-scorer.ts): what it computes,
    when it finds a match, that the positions it returns are one, and how large a score can get.
    Lower-casing is assumed to keep the length of a string. */
module FuzzyScorer {

  // A query, a target, both in lower case too, and whether matches may be scattered.
  datatype Problem = Problem(query: string, queryLower: string, target: string, targetLower: string, scattered: bool)
  {
    predicate Valid() {
      |queryLower| == |query| && |targetLower| == |target|
    }
  }

  // An entry of the tables: the best score so far, and the length of the run that ends here.
  datatype Cell = Cell(score: nat, run: nat)

  predicate ConsiderAsEqual(a: char, b: char) {
    a == b || (a in "/\\" && b in "/\\")
  }

  predicate IsUpper(c: char) {
    'A' <= c <= 'Z'
  }

  function ScoreSeparator(c: char): nat {
    if c in "/\\" then 5 else if c in "_-. '\":" then 4 else 0
  }

  function RunBonus(run: nat): nat {
    (if run < 3 then run else 3) * 6 + (if run > 3 then run - 3 else 0) * 3
  }

  function ComputeCharScore(p: Problem, i: nat, j: nat, run: nat): nat
    requires p.Valid() && i < |p.query| && j < |p.target|
  {
    if !ConsiderAsEqual(p.queryLower[i], p.targetLower[j]) then 0
    else
      1 + (if run > 0 then RunBonus(run) else 0)
      + (if p.query[i] == p.target[j] then 1 else 0)
      + (if j == 0 then 8
         else if ScoreSeparator(p.target[j - 1]) != 0 then ScoreSeparator(p.target[j - 1])
         else if IsUpper(p.target[j]) && run == 0 then 2
         else 0)
  }

  predicate StartsAt(s: string, prefix: string, j: nat) {
    j + |prefix| <= |s| && s[j..j + |prefix|] == prefix
  }

  // From the cells to the left and diagonally before it.
  function NextCell(p: Problem, i: nat, j: nat, left: nat, diag: Cell): Cell
    requires p.Valid() && i < |p.query| && j < |p.target|
  {
    var score := if diag.score == 0 && i > 0 then 0 else ComputeCharScore(p, i, j, diag.run);
    if score != 0 && diag.score + score >= left && (p.scattered || i > 0 || StartsAt(p.targetLower, p.queryLower, j))
    then Cell(diag.score + score, diag.run + 1)
    else Cell(left, 0)
  }

  function CellAt(p: Problem, i: nat, j: nat): Cell
    requires p.Valid() && i < |p.query| && j < |p.target|
    decreases i, j
  {
    NextCell(p, i, j,
             if j > 0 then CellAt(p, i, j - 1).score else 0,
             if i > 0 && j > 0 then CellAt(p, i - 1, j - 1) else Cell(0, 0))
  }

  // The positions that lead to cell (i, j).
  function Trace(p: Problem, i: int, j: int): seq<nat>
    requires p.Valid() && i < |p.query| && j < |p.target|
    decreases i + 1, j + 1
  {
    if i < 0 || j < 0 then []
    else if CellAt(p, i, j).run == 0 then Trace(p, i, j - 1)
    else Trace(p, i - 1, j - 1) + [j]
  }

  // ----- the loops -----

  ghost predicate Filled(p: Problem, scores: seq<nat>, matches: seq<nat>) {
    && p.Valid() && |scores| == |matches| <= |p.query| * |p.target|
    && forall i: nat, j: nat :: i < |p.query| && j < |p.target| && i * |p.target| + j < |scores| ==>
         CellAt(p, i, j) == Cell(scores[i * |p.target| + j], matches[i * |p.target| + j])
  }

  lemma Below(a: nat, b: nat, i: nat, j: nat, n: nat)
    requires b < n && j < n
    ensures i < a ==> i * n + j < a * n
    ensures i < a ==> i * n + j < a * n + b
    ensures i == a ==> (i * n + j < a * n + b <==> j < b)
    ensures i > a ==> i * n + j > a * n + b
  {
    if i < a {
      assert (i + 1) * n <= a * n;
    } else if i > a {
      assert (a + 1) * n <= i * n;
    }
  }

  lemma FilledNext(p: Problem, scores: seq<nat>, matches: seq<nat>, i: nat, j: nat)
    requires Filled(p, scores, matches) && i < |p.query| && j < |p.target| && |scores| == i * |p.target| + j
    ensures Filled(p, scores + [CellAt(p, i, j).score], matches + [CellAt(p, i, j).run])
  {
    hide CellAt;
    var n := |p.target|;
    Below(|p.query|, 0, i, j, n);
    forall a: nat, b: nat | a < |p.query| && b < n && a * n + b < |scores| + 1
      ensures CellAt(p, a, b) == Cell((scores + [CellAt(p, i, j).score])[a * n + b], (matches + [CellAt(p, i, j).run])[a * n + b])
    {
      Below(i, j, a, b, n);
    }
  }

  lemma FilledAt(p: Problem, scores: seq<nat>, matches: seq<nat>, i: nat, j: nat, k: int)
    requires Filled(p, scores, matches) && i < |p.query| && j < |p.target| && k == i * |p.target| + j < |scores|
    ensures CellAt(p, i, j) == Cell(scores[k], matches[k])
  {
  }

  method FillTables(p: Problem) returns (scores: seq<nat>, matches: seq<nat>)
    requires p.Valid()
    ensures Filled(p, scores, matches) && |scores| == |p.query| * |p.target|
  {
    hide Filled, ComputeCharScore, CellAt;
    scores, matches := [], [];
    var targetLength := |p.target|;
    NothingFilled(p);
    for queryIndex := 0 to |p.query|
      invariant Filled(p, scores, matches) && |scores| == |matches| == queryIndex * targetLength
    {
      var queryIndexOffset := queryIndex * targetLength;
      var queryIndexPreviousOffset := queryIndexOffset - targetLength;
      for targetIndex := 0 to targetLength
        invariant Filled(p, scores, matches) && |scores| == |matches| == queryIndexOffset + targetIndex
      {
        var currentIndex := queryIndexOffset + targetIndex;
        var leftIndex := currentIndex - 1;
        var diagIndex := queryIndexPreviousOffset + targetIndex - 1;
        if targetIndex > 0 {
          FilledAt(p, scores, matches, queryIndex, targetIndex - 1, leftIndex);
        }
        if queryIndex > 0 && targetIndex > 0 {
          assert diagIndex == (queryIndex - 1) * targetLength + (targetIndex - 1);
          FilledAt(p, scores, matches, queryIndex - 1, targetIndex - 1, diagIndex);
        }
        var leftScore := if targetIndex > 0 then scores[leftIndex] else 0;
        var diagScore := if queryIndex > 0 && targetIndex > 0 then scores[diagIndex] else 0;
        var matchesSequenceLength := if queryIndex > 0 && targetIndex > 0 then matches[diagIndex] else 0;
        var score := 0;
        if !(diagScore == 0 && queryIndex > 0) {
          score := ComputeCharScore(p, queryIndex, targetIndex, matchesSequenceLength);
        }
        FilledNext(p, scores, matches, queryIndex, targetIndex);
        CellFrom(p, queryIndex, targetIndex, leftScore, Cell(diagScore, matchesSequenceLength));
        if score != 0 && diagScore + score >= leftScore
           && (p.scattered || queryIndex > 0 || StartsAt(p.targetLower, p.queryLower, targetIndex)) {
          matches := matches + [matchesSequenceLength + 1];
          scores := scores + [diagScore + score];
        } else {
          matches := matches + [0];
          scores := scores + [leftScore];
        }
      }
    }
  }

  lemma NothingFilled(p: Problem)
    requires p.Valid()
    ensures Filled(p, [], [])
  {
  }

  lemma CellFrom(p: Problem, i: nat, j: nat, left: nat, diag: Cell)
    requires p.Valid() && i < |p.query| && j < |p.target|
    requires left == if j > 0 then CellAt(p, i, j - 1).score else 0
    requires diag == if i > 0 && j > 0 then CellAt(p, i - 1, j - 1) else Cell(0, 0)
    ensures CellAt(p, i, j) == NextCell(p, i, j, left, diag)
  {
  }

  function Reverse<T>(s: seq<T>): seq<T> {
    if s == [] then [] else [s[|s| - 1]] + Reverse(s[..|s| - 1])
  }

  lemma ReverseSnoc<T>(s: seq<T>, x: T)
    ensures Reverse(s + [x]) == [x] + Reverse(s)
  {
    assert (s + [x])[..|s|] == s;
  }

  method Backtrace(p: Problem, ghost scores: seq<nat>, matches: seq<nat>) returns (positions: seq<nat>)
    requires p.Valid() && Filled(p, scores, matches) && |scores| == |p.query| * |p.target|
    ensures positions == Trace(p, |p.query| - 1, |p.target| - 1)
  {
    hide Filled, CellAt;
    positions := [];
    var queryIndex, targetIndex := |p.query| - 1, |p.target| - 1;
    assert Trace(p, queryIndex, targetIndex) + Reverse(positions) == Trace(p, queryIndex, targetIndex);
    while queryIndex >= 0 && targetIndex >= 0
      invariant -1 <= queryIndex < |p.query| && -1 <= targetIndex < |p.target|
      invariant Trace(p, queryIndex, targetIndex) + Reverse(positions) == Trace(p, |p.query| - 1, |p.target| - 1)
      decreases targetIndex
    {
      Below(|p.query|, 0, queryIndex, targetIndex, |p.target|);
      assert |matches| == |scores| by { TablesAlike(p, scores, matches); }
      var currentIndex := queryIndex * |p.target| + targetIndex;
      FilledAt(p, scores, matches, queryIndex, targetIndex, currentIndex);
      if matches[currentIndex] == 0 {
        targetIndex := targetIndex - 1;
      } else {
        ReverseSnoc(positions, targetIndex);
        positions := positions + [targetIndex];
        queryIndex := queryIndex - 1;
        targetIndex := targetIndex - 1;
      }
    }
    positions := Reverse(positions);
  }

  lemma TablesAlike(p: Problem, scores: seq<nat>, matches: seq<nat>)
    requires Filled(p, scores, matches)
    ensures |scores| == |matches|
  {
  }

  // The result of the program: the last score and its positions.
  function Score(p: Problem): nat
    requires p.Valid()
  {
    if p.query == "" || p.target == "" then 0 else CellAt(p, |p.query| - 1, |p.target| - 1).score
  }

  function Positions(p: Problem): seq<nat>
    requires p.Valid()
  {
    Trace(p, |p.query| - 1, |p.target| - 1)
  }

  method DoScoreFuzzy(p: Problem) returns (score: nat, positions: seq<nat>)
    requires p.Valid()
    ensures score == Score(p) && positions == Positions(p)
  {
    hide CellAt, Trace;
    var scores, matches := FillTables(p);
    positions := Backtrace(p, scores, matches);
    var last := |p.query| * |p.target| - 1;
    if 0 <= last < |scores| {
      assert p.query != "" && p.target != "" by { Nonzero(|p.query|, |p.target|); }
      assert last == (|p.query| - 1) * |p.target| + (|p.target| - 1);
      FilledAt(p, scores, matches, |p.query| - 1, |p.target| - 1, last);
      score := scores[last];
    } else {
      assert p.query == "" || p.target == "" by { Nonzero(|p.query|, |p.target|); }
      score := 0;
    }
  }

  lemma Nonzero(a: nat, b: nat)
    ensures a * b > 0 <==> a > 0 && b > 0
  {
  }

  // ----- rows rise -----

  /** Scores never fall from left to right. */
  lemma {:induction false} RowsRise(p: Problem, i: nat, j: nat, k: nat)
    requires p.Valid() && i < |p.query| && j <= k < |p.target|
    ensures CellAt(p, i, j).score <= CellAt(p, i, k).score
    decreases k
  {
    if j < k {
      RowsRise(p, i, j, k - 1);
    }
  }

  // ----- the positions are a match -----

  predicate Match(p: Problem, i: nat, j: nat)
    requires p.Valid() && i < |p.query| && j < |p.target|
  {
    ConsiderAsEqual(p.queryLower[i], p.targetLower[j])
  }

  // Rising positions, none beyond j, at which the first i + 1 query characters stand in the target.
  ghost predicate Embedding(p: Problem, positions: seq<nat>, i: int, j: int) {
    && p.Valid() && |positions| == i + 1 <= |p.query| && j < |p.target|
    && (forall k :: 0 <= k < |positions| ==> positions[k] <= j && Match(p, k, positions[k]))
    && (forall k, l :: 0 <= k < l < |positions| ==> positions[k] < positions[l])
  }

  ghost predicate WholeMatch(p: Problem, positions: seq<nat>) {
    Embedding(p, positions, |p.query| - 1, |p.target| - 1)
  }

  lemma CharScorePositive(p: Problem, i: nat, j: nat, run: nat)
    requires p.Valid() && i < |p.query| && j < |p.target|
    ensures ComputeCharScore(p, i, j, run) > 0 <==> Match(p, i, j)
  {
  }

  // Where a cell's score comes from.
  lemma CellCases(p: Problem, i: nat, j: nat)
    requires p.Valid() && i < |p.query| && j < |p.target|
    ensures var c := CellAt(p, i, j);
      && (c.run > 0 ==> c.score > 0 && Match(p, i, j) && (i > 0 ==> j > 0 && CellAt(p, i - 1, j - 1).score > 0))
      && (c.run > 0 && i == 0 ==> p.scattered || StartsAt(p.targetLower, p.queryLower, j))
      && (c.run == 0 ==> c.score == if j > 0 then CellAt(p, i, j - 1).score else 0)
    ensures (&& Match(p, i, j) && (i == 0 || (j > 0 && CellAt(p, i - 1, j - 1).score > 0))
             && (p.scattered || i > 0 || StartsAt(p.targetLower, p.queryLower, j)))
            ==> CellAt(p, i, j).score > 0
  {
    hide ComputeCharScore;
    var diag := if i > 0 && j > 0 then CellAt(p, i - 1, j - 1) else Cell(0, 0);
    CharScorePositive(p, i, j, diag.run);
    CellFrom(p, i, j, if j > 0 then CellAt(p, i, j - 1).score else 0, diag);
  }

  lemma {:induction false} TraceMatches(p: Problem, i: nat, j: nat)
    requires p.Valid() && i < |p.query| && j < |p.target|
    ensures CellAt(p, i, j).score > 0 ==> Embedding(p, Trace(p, i, j), i, j)
    ensures CellAt(p, i, j).score > 0 ==> p.scattered || StartsAt(p.targetLower, p.queryLower, Trace(p, i, j)[0])
    decreases i, j
  {
    hide CellAt, StartsAt, ConsiderAsEqual;
    CellCases(p, i, j);
    if CellAt(p, i, j).run == 0 {
      if j > 0 {
        TraceMatches(p, i, j - 1);
      }
    } else if i == 0 {
      assert Trace(p, i - 1, j - 1) == [] && Trace(p, i, j) == [j];
    } else {
      TraceMatches(p, i - 1, j - 1);
      EmbeddingNext(p, Trace(p, i - 1, j - 1), i, j);
    }
  }

  lemma EmbeddingNext(p: Problem, positions: seq<nat>, i: nat, j: nat)
    requires Embedding(p, positions, i - 1, j - 1) && i < |p.query| && 0 < j < |p.target| && Match(p, i, j)
    ensures Embedding(p, positions + [j], i, j)
  {
  }

  lemma {:induction false} NoScoreNoTrace(p: Problem, i: nat, j: nat)
    requires p.Valid() && i < |p.query| && j < |p.target| && CellAt(p, i, j).score == 0
    ensures Trace(p, i, j) == []
    decreases j
  {
    hide CellAt;
    CellCases(p, i, j);
    if j == 0 {
    } else {
      NoScoreNoTrace(p, i, j - 1);
    }
  }

  /** The program is sound: with a score above 0 the positions are one for each query character,
      strictly rising and within the target, each at a character that matches; with a score of 0
      there are none. */
  lemma PositionsMatch(p: Problem)
    requires p.Valid()
    ensures if Score(p) > 0 then WholeMatch(p, Positions(p)) else Positions(p) == []
  {
    hide CellAt;
    if p.query != "" && p.target != "" {
      TraceMatches(p, |p.query| - 1, |p.target| - 1);
      if Score(p) == 0 {
        NoScoreNoTrace(p, |p.query| - 1, |p.target| - 1);
      }
    }
  }

  // ----- nothing is missed -----

  lemma {:induction false} EmbeddedScores(p: Problem, positions: seq<nat>, i: nat, j: nat)
    requires p.scattered && Embedding(p, positions, i, j) && j >= 0
    ensures CellAt(p, i, j).score > 0
    decreases i, j
  {
    hide CellAt, ConsiderAsEqual;
    var last := positions[i];
    CellCases(p, i, last);
    if i > 0 {
      assert positions[i - 1] < last;
      EmbeddedScores(p, positions[..i], i - 1, last - 1);
    }
    RowsRise(p, i, last, j);
  }

  /** The program is complete where matches may be scattered: the score is above 0 exactly when the
      query's characters occur in the target in this order. */
  lemma ScatteredMeaning(p: Problem)
    requires p.Valid() && p.scattered && p.query != "" && p.target != ""
    ensures Score(p) > 0 <==> exists positions :: WholeMatch(p, positions)
  {
    hide CellAt, Embedding;
    PositionsMatch(p);
    if positions :| WholeMatch(p, positions) {
      EmbeddedScores(p, positions, |p.query| - 1, |p.target| - 1);
    }
  }

  lemma {:induction false} OccurrenceScores(p: Problem, i: nat, j: nat)
    requires p.Valid() && i < |p.query| && StartsAt(p.targetLower, p.queryLower, j)
    ensures j + i < |p.target| && CellAt(p, i, j + i).score > 0
  {
    hide CellAt;
    assert p.targetLower[j..j + |p.query|][i] == p.queryLower[i];
    if i > 0 {
      OccurrenceScores(p, i - 1, j);
    }
    CellCases(p, i, j + i);
  }

  /** Where they may not, the score is above 0 exactly when the lower-case query occurs in the
      lower-case target as it stands. */
  lemma ContiguousMeaning(p: Problem)
    requires p.Valid() && !p.scattered && p.query != "" && p.target != ""
    ensures Score(p) > 0 <==> exists j :: 0 <= j < |p.target| && StartsAt(p.targetLower, p.queryLower, j)
  {
    hide CellAt, StartsAt;
    var n, m := |p.query|, |p.target|;
    if Score(p) > 0 {
      TraceMatches(p, n - 1, m - 1);
      assert Positions(p)[0] < m && StartsAt(p.targetLower, p.queryLower, Positions(p)[0]);
    }
    if j :| 0 <= j < m && StartsAt(p.targetLower, p.queryLower, j) {
      OccurrenceScores(p, n - 1, j);
      RowsRise(p, n - 1, j + (n - 1), m - 1);
    }
  }
}
