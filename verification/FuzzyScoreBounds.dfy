/** How large the fuzzy scorer's scores get (packages/workspace-fs/src/fuzzy-scorer.ts). */
module FuzzyScoreBounds {
  import opened FuzzyScorer

  const LABEL_SCORE_THRESHOLD := 65536

  // The most that n query characters can score.
  function Most(n: nat): nat {
    if n == 0 then 0 else if n == 1 then 10 else Most(n - 1) + 7 + RunBonus(n - 1)
  }

  lemma CharScoreBound(p: Problem, i: nat, j: nat, run: nat)
    requires p.Valid() && i < |p.query| && j < |p.target|
    ensures run == 0 ==> ComputeCharScore(p, i, j, run) <= 10
    ensures j > 0 ==> ComputeCharScore(p, i, j, run) <= 7 + RunBonus(run)
  {
  }

  lemma {:induction false} CellBound(p: Problem, i: nat, j: nat)
    requires p.Valid() && i < |p.query| && j < |p.target|
    ensures CellAt(p, i, j).score <= Most(i + 1) && CellAt(p, i, j).run <= i + 1
    decreases i, j
  {
    hide CellAt, ComputeCharScore;
    var left := if j > 0 then CellAt(p, i, j - 1).score else 0;
    var diag := if i > 0 && j > 0 then CellAt(p, i - 1, j - 1) else Cell(0, 0);
    CellFrom(p, i, j, left, diag);
    CharScoreBound(p, i, j, diag.run);
    if j == 0 {
    } else {
      CellBound(p, i, j - 1);
      if i > 0 {
        CellBound(p, i - 1, j - 1);
      }
    }
  }

  lemma {:induction false} TooFewCharacters(p: Problem, i: nat, j: nat)
    requires p.Valid() && j < i < |p.query| && j < |p.target|
    ensures CellAt(p, i, j).score == 0
    decreases i, j
  {
    hide CellAt, ComputeCharScore;
    CellFrom(p, i, j, if j > 0 then CellAt(p, i, j - 1).score else 0, if j > 0 then CellAt(p, i - 1, j - 1) else Cell(0, 0));
    if j == 0 {
    } else {
      TooFewCharacters(p, i, j - 1);
      TooFewCharacters(p, i - 1, j - 1);
    }
  }

  function Repeat(c: char, n: nat): string {
    seq(n, _ => c)
  }

  // A query of slashes against itself; `lower` is what a slash is in lower case.
  function Slashes(n: nat, lower: char, scattered: bool): Problem {
    Problem(Repeat('/', n), Repeat(lower, n), Repeat('/', n), Repeat(lower, n), scattered)
  }

  lemma {:induction false} SlashesScore(n: nat, lower: char, scattered: bool, i: nat)
    requires i < n
    ensures CellAt(Slashes(n, lower, scattered), i, i) == Cell(Most(i + 1), i + 1)
  {
    hide CellAt;
    var p := Slashes(n, lower, scattered);
    if i == 0 {
      assert StartsAt(p.targetLower, p.queryLower, 0);
      CellFrom(p, 0, 0, 0, Cell(0, 0));
    } else {
      SlashesScore(n, lower, scattered, i - 1);
      TooFewCharacters(p, i, i - 1);
      CellFrom(p, i, i, 0, CellAt(p, i - 1, i - 1));
    }
  }

  lemma {:induction false} MostInClosedForm(n: nat)
    requires n >= 3
    ensures 2 * Most(n) == 32 * n - 30 + 3 * n * (n - 1)
  {
    if n > 3 {
      MostInClosedForm(n - 1);
    } else {
      assert Most(3) == Most(2) + 19 && Most(2) == Most(1) + 13;
    }
  }

  lemma MostBelowThresholdIff(n: nat)
    ensures Most(n) < LABEL_SCORE_THRESHOLD <==> n <= 204
  {
    if n < 3 {
      assert Most(2) == Most(1) + 13;
    } else {
      MostInClosedForm(n);
      if n <= 204 {
        assert n * (n - 1) <= 204 * 203 by { Products(n, n - 1, 204, 203); }
      } else {
        assert 205 * 204 <= n * (n - 1) by { Products(205, 204, n, n - 1); }
      }
    }
  }

  lemma Products(a: nat, b: nat, c: nat, d: nat)
    requires a <= c && b <= d
    ensures a * b <= c * d
  {
    assert a * b <= c * b <= c * d;
  }

  /** Scores stay below the label threshold, whatever the target, exactly for queries of at most 204
      characters; and `Most` is the exact maximum for every length. */
  lemma RawScoresFitIff(n: nat)
    ensures (forall p: Problem :: p.Valid() && |p.query| == n ==> Score(p) < LABEL_SCORE_THRESHOLD) <==> n <= 204
    ensures forall p: Problem :: p.Valid() && |p.query| == n ==> Score(p) <= Most(n)
    ensures forall c, scattered :: Score(Slashes(n, c, scattered)) == Most(n)
  {
    hide CellAt, Most, Slashes;
    NothingScoresNothing();
    forall p: Problem | p.Valid() && |p.query| == n
      ensures Score(p) <= Most(n)
    {
      if p.query != "" && p.target != "" {
        CellBound(p, n - 1, |p.target| - 1);
      }
    }
    forall c, scattered
      ensures Slashes(n, c, scattered).Valid() && |Slashes(n, c, scattered).query| == n
      ensures Score(Slashes(n, c, scattered)) == Most(n)
    {
      SlashesLength(n, c, scattered);
      if n > 0 {
        SlashesScore(n, c, scattered, n - 1);
      }
    }
    MostBelowThresholdIff(n);
    assert Score(Slashes(n, '/', true)) == Most(n);
  }

  lemma SlashesLength(n: nat, c: char, scattered: bool)
    ensures var p := Slashes(n, c, scattered); p.Valid() && |p.query| == |p.target| == n
  {
  }

  lemma NothingScoresNothing()
    ensures Most(0) == 0
  {
  }
}
