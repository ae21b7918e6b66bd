/** What a matched character earns in the fuzzy scorer (packages/workspace-fs/src/fuzzy-scorer.ts), and that
    the score of a match is what its positions earn. */
module FuzzyGains {
  import opened FuzzyScorer

  // Where a character of the target stands.
  datatype Place = Start | AfterSlash | AfterSeparator | Hump | Inside

  function PlaceOf(target: string, j: nat): Place
    requires j < |target|
  {
    if j == 0 then Start
    else
      match target[j - 1]
      case '/' | '\\' => AfterSlash
      case '_' | '-' | '.' | ' ' | '\'' | '"' | ':' => AfterSeparator
      case _ => if 'A' <= target[j] <= 'Z' then Hump else Inside
  }

  // What a character earns there; an upper-case letter only if the character before it is not matched.
  function PlaceGain(place: Place, alone: bool): nat {
    match place
    case Start => 8
    case AfterSlash => 5
    case AfterSeparator => 4
    case Hump => if alone then 2 else 0
    case Inside => 0
  }

  // Six for each of the first three matched characters directly before it, three for each other.
  function RunGain(run: nat): nat {
    if run <= 3 then 6 * run else 18 + 3 * (run - 3)
  }

  function Gain(p: Problem, i: nat, j: nat, run: nat): nat
    requires p.Valid() && i < |p.query| && j < |p.target|
  {
    1 + (if p.query[i] == p.target[j] then 1 else 0) + PlaceGain(PlaceOf(p.target, j), run == 0) + RunGain(run)
  }

  lemma CharScoreIsGain(p: Problem, i: nat, j: nat, run: nat)
    requires p.Valid() && i < |p.query| && j < |p.target|
    ensures ComputeCharScore(p, i, j, run) == if Match(p, i, j) then Gain(p, i, j, run) else 0
  {
  }

  // How many positions before the k-th lead up to it without a gap.
  function RunAt(positions: seq<nat>, k: nat): nat
    requires k < |positions|
  {
    if k > 0 && positions[k - 1] + 1 == positions[k] then 1 + RunAt(positions, k - 1) else 0
  }

  predicate InTarget(p: Problem, positions: seq<nat>) {
    p.Valid() && |positions| <= |p.query| && forall k :: 0 <= k < |positions| ==> positions[k] < |p.target|
  }

  // What the positions earn.
  function Total(p: Problem, positions: seq<nat>): nat
    requires InTarget(p, positions)
  {
    if positions == [] then 0
    else
      var n := |positions| - 1;
      Total(p, positions[..n]) + Gain(p, n, positions[n], RunAt(positions, n))
  }

  lemma {:induction false} RunOfPrefix(a: seq<nat>, b: seq<nat>, k: nat)
    requires k < |a|
    ensures RunAt(a + b, k) == RunAt(a, k)
  {
    assert forall l :: 0 <= l <= k ==> (a + b)[l] == a[l];
    if k > 0 {
      RunOfPrefix(a, b, k - 1);
    }
  }

  // What a cell is made from.
  lemma CellMade(p: Problem, i: nat, j: nat)
    requires p.Valid() && i < |p.query| && j < |p.target| && CellAt(p, i, j).run > 0
    ensures var diag := if i > 0 && j > 0 then CellAt(p, i - 1, j - 1) else Cell(0, 0);
      && Match(p, i, j) && CellAt(p, i, j) == Cell(diag.score + Gain(p, i, j, diag.run), diag.run + 1)
      && (i > 0 ==> j > 0 && diag.score > 0)
  {
    hide CellAt, Gain, ComputeCharScore;
    var diag := if i > 0 && j > 0 then CellAt(p, i - 1, j - 1) else Cell(0, 0);
    CellCases(p, i, j);
    CharScoreIsGain(p, i, j, diag.run);
    CellFrom(p, i, j, if j > 0 then CellAt(p, i, j - 1).score else 0, diag);
  }

  lemma {:induction false} TraceEarns(p: Problem, i: nat, j: nat)
    requires p.Valid() && i < |p.query| && j < |p.target| && CellAt(p, i, j).score > 0
    ensures var t := Trace(p, i, j);
      && |t| == i + 1 && InTarget(p, t) && CellAt(p, i, j).score == Total(p, t)
      && (CellAt(p, i, j).run > 0 ==> t[i] == j && CellAt(p, i, j).run == RunAt(t, i) + 1)
    decreases i, j
  {
    hide CellAt, Gain, RunAt, ConsiderAsEqual, StartsAt;
    CellCases(p, i, j);
    TraceMatches(p, i, j);
    if CellAt(p, i, j).run == 0 {
      TraceEarns(p, i, j - 1);
    } else if i == 0 {
      CellMade(p, i, j);
      assert Trace(p, -1, j - 1) == [] && Trace(p, i, j) == [j];
      assert [j][..0] == [] && RunAt([j], 0) == 0 by { OnePosition(j); }
    } else {
      CellMade(p, i, j);
      TraceEarns(p, i - 1, j - 1);
      RunContinues(p, i, j);
      var before := Trace(p, i - 1, j - 1);
      assert (before + [j])[..i] == before;
    }
  }

  lemma OnePosition(j: nat)
    ensures RunAt([j], 0) == 0
  {
  }

  lemma RunContinues(p: Problem, i: nat, j: nat)
    requires p.Valid() && 0 < i < |p.query| && 0 < j < |p.target| && CellAt(p, i - 1, j - 1).score > 0
    requires var t, diag := Trace(p, i - 1, j - 1), CellAt(p, i - 1, j - 1);
      |t| == i && (diag.run > 0 ==> t[i - 1] == j - 1 && diag.run == RunAt(t, i - 1) + 1)
    ensures RunAt(Trace(p, i - 1, j - 1) + [j], i) == CellAt(p, i - 1, j - 1).run
  {
    hide CellAt, StartsAt, ConsiderAsEqual;
    var t, diag := Trace(p, i - 1, j - 1), CellAt(p, i - 1, j - 1);
    assert (t + [j])[i] == j && (t + [j])[i - 1] == t[i - 1];
    if diag.run > 0 {
      RunOfPrefix(t, [j], i - 1);
    } else {
      CellCases(p, i - 1, j - 1);
      TraceMatches(p, i - 1, j - 2);
    }
  }

  /** The score of a match is what its positions earn: each character for itself, for equal case, for where it
      stands, and for the run of matched characters directly before it. */
  lemma ScoreIsEarned(p: Problem)
    requires p.Valid() && Score(p) > 0
    ensures WholeMatch(p, Positions(p)) && InTarget(p, Positions(p)) && Score(p) == Total(p, Positions(p))
  {
    hide CellAt, Total;
    PositionsMatch(p);
    TraceEarns(p, |p.query| - 1, |p.target| - 1);
  }

  /** And no cell could have a better score than it has: not without the character at its end, and not with it. */
  lemma CellIsBest(p: Problem, i: nat, j: nat)
    requires p.Valid() && i < |p.query| && j < |p.target|
    ensures j > 0 ==> CellAt(p, i, j).score >= CellAt(p, i, j - 1).score
    ensures Match(p, i, j) && i > 0 && j > 0 && CellAt(p, i - 1, j - 1).score > 0 ==>
              CellAt(p, i, j).score >= CellAt(p, i - 1, j - 1).score + Gain(p, i, j, CellAt(p, i - 1, j - 1).run)
    ensures Match(p, i, j) && i == 0 && (p.scattered || StartsAt(p.targetLower, p.queryLower, j)) ==>
              CellAt(p, i, j).score >= Gain(p, i, j, 0)
  {
    hide CellAt, Gain, ComputeCharScore;
    var diag := if i > 0 && j > 0 then CellAt(p, i - 1, j - 1) else Cell(0, 0);
    CharScoreIsGain(p, i, j, diag.run);
    CharScorePositive(p, i, j, diag.run);
    CellFrom(p, i, j, if j > 0 then CellAt(p, i, j - 1).score else 0, diag);
  }

  // ----- queries of one character -----

  // The character may be matched at j.
  predicate Eligible(p: Problem, j: nat)
    requires p.Valid() && |p.query| == 1 && j < |p.target|
  {
    Match(p, 0, j) && (p.scattered || p.targetLower[j] == p.queryLower[0])
  }

  // The last of the best places up to j.
  ghost predicate LastBest(p: Problem, best: nat, j: nat)
    requires p.Valid() && |p.query| == 1 && best <= j < |p.target|
  {
    Eligible(p, best) &&
    forall k: nat :: k <= j && Eligible(p, k) ==>
      Gain(p, 0, k, 0) < Gain(p, 0, best, 0) || (Gain(p, 0, k, 0) == Gain(p, 0, best, 0) && k <= best)
  }

  lemma {:induction false} BestUpTo(p: Problem, j: nat)
    requires p.Valid() && |p.query| == 1 && j < |p.target|
    ensures CellAt(p, 0, j).score > 0 <==> exists k: nat :: k <= j && Eligible(p, k)
    ensures CellAt(p, 0, j).score > 0 ==>
              && |Trace(p, 0, j)| == 1 && Trace(p, 0, j)[0] <= j && LastBest(p, Trace(p, 0, j)[0], j)
              && CellAt(p, 0, j).score == Gain(p, 0, Trace(p, 0, j)[0], 0)
    decreases j
  {
    hide CellAt, ComputeCharScore, ConsiderAsEqual, Gain;
    assert StartsAt(p.targetLower, p.queryLower, j) <==> p.targetLower[j] == p.queryLower[0];
    hide StartsAt;
    var left := if j > 0 then CellAt(p, 0, j - 1).score else 0;
    CharScoreIsGain(p, 0, j, 0);
    CharScorePositive(p, 0, j, 0);
    CellFrom(p, 0, j, left, Cell(0, 0));
    assert Trace(p, -1, j - 1) == [];
    assert CellAt(p, 0, j).score > 0 <==> left > 0 || Eligible(p, j);
    if j > 0 {
      BestUpTo(p, j - 1);
    }
  }

  /** A query of one character takes the last of the places where it earns most, and scores what it earns there. */
  lemma OneCharacter(p: Problem)
    requires p.Valid() && |p.query| == 1 && p.target != ""
    ensures Score(p) > 0 <==> exists j: nat :: j < |p.target| && Eligible(p, j)
    ensures Score(p) > 0 ==>
              && |Positions(p)| == 1 && Positions(p)[0] < |p.target| && LastBest(p, Positions(p)[0], |p.target| - 1)
              && Score(p) == Gain(p, 0, Positions(p)[0], 0)
  {
    hide CellAt, Gain, LastBest, Eligible;
    BestUpTo(p, |p.target| - 1);
  }

  /** What that is where it can be matched at one place only. */
  lemma OneCharacterTable(p: Problem, j: nat)
    requires p.Valid() && |p.query| == 1 && j < |p.target|
    requires forall k: nat :: k < |p.target| ==> (Eligible(p, k) <==> k == j)
    ensures Positions(p) == [j]
    ensures var score := Score(p) - (if p.query[0] == p.target[j] then 1 else 0);
      if j == 0 then score == 9
      else if p.target[j - 1] == '/' || p.target[j - 1] == '\\' then score == 6
      else if p.target[j - 1] in ['_', '-', '.', ' ', '\'', '"', ':'] then score == 5
      else if 'A' <= p.target[j] <= 'Z' then score == 3
      else score == 1
  {
    hide Score, Positions, Eligible;
    OneCharacter(p);
    assert Eligible(p, j);
  }
}
