/** How long a query may be until files in a worse tier are ranked before files in a better one
    (packages/workspace-fs/src/fuzzy-scorer.ts, packages/workspace-fs/src/search.ts). */
module FuzzyRanking {
  import opened Paths
  import opened FuzzyScorer
  import opened FuzzyScoreBounds
  import opened FuzzyItems
  import opened FuzzyQueries
  import opened FuzzySearch
  import S = SearchIndex

  // The item of an index entry: name, directory and path of a file below the root.
  ghost predicate FileItem(item: Item) {
    exists rel :: ItemOf(item, rel)
  }

  ghost predicate ItemOf(item: Item, rel: seq<string>) {
    && S.RelativeFile(rel) && NoBackslash(Join(rel))
    && item == Item(rel[|rel| - 1], if |rel| == 1 then "" else Join(rel[..|rel| - 1]), Join(rel))
  }

  // Lower-casing neither changes a separator nor makes one.
  ghost predicate CaseOnly(lower: char -> char) {
    forall c, s :: ScoreSeparator(s) > 0 ==> (lower(c) == s <==> c == s)
  }

  // In a search over the items, the first sorts before the second.
  ghost predicate SortsFirst(lower: char -> char, items: seq<Item>, a: Item, b: Item, query: Query, scattered: bool) {
    forall tie :: CompareScores(ServedScore(lower, items, a, query, scattered),
                                ServedScore(lower, items, b, query, scattered), tie) == -1
  }

  ghost predicate AllFiles(items: seq<Item>) {
    forall item :: item in items ==> FileItem(item)
  }

  predicate Better(lower: char -> char, a: Item, b: Item, query: Query, scattered: bool) {
    OwnTier(lower, a, query, scattered).Rank() > OwnTier(lower, b, query, scattered).Rank()
  }

  // Two files of a search whose text no other of its files has.
  ghost predicate Apart(items: seq<Item>, a: Item, b: Item) {
    AllFiles(items) && AloneIn(items, a) && AloneIn(items, b)
  }

  // Of any two such files, the one in the better tier scores higher for every query of n characters.
  ghost predicate RanksRight(lower: char -> char, n: nat) {
    forall items, a, b, query, scattered ::
      Apart(items, a, b) && Prepared(query) && |query.whole.normalized| == n && Better(lower, a, b, query, scattered)
      ==> ServedScore(lower, items, a, query, scattered) > ServedScore(lower, items, b, query, scattered)
  }

  lemma NameHasNoSlash(item: Item)
    requires FileItem(item)
    ensures '/' !in item.name && '\\' !in item.name
  {
    hide Join;
    var rel :| ItemOf(item, rel);
    S.JoinIsClean(rel);
  }

  // ----- what a query without slashes scores -----

  // The number of characters that separate words.
  function Separators(s: string): nat {
    if s == "" then 0
    else Separators(s[..|s| - 1]) + if ScoreSeparator(s[|s| - 1]) > 0 then 1 else 0
  }

  // The most that n query characters can score, apart from the bonus after a separator.
  function Plainly(n: nat): nat {
    if n == 0 then 0 else if n == 1 then 10 else Plainly(n - 1) + 2 + RunBonus(n - 1)
  }

  lemma {:induction false} PlainlyInClosedForm(n: nat)
    requires n >= 3
    ensures 2 * Plainly(n) == 22 * n - 20 + 3 * n * (n - 1)
  {
    if n == 3 {
      assert Plainly(3) == Plainly(2) + 14 && Plainly(2) == Plainly(1) + 8;
    } else {
      PlainlyInClosedForm(n - 1);
    }
  }

  lemma PrefixSeparators(s: string, i: nat)
    requires i < |s|
    ensures Separators(s[..i + 1]) == Separators(s[..i]) + if ScoreSeparator(s[i]) > 0 then 1 else 0
  {
    assert s[..i + 1][..i] == s[..i];
  }

  lemma {:induction false} FewSeparators(s: string)
    ensures Separators(s) <= |s|
  {
    if s == "" {
    } else {
      FewSeparators(s[..|s| - 1]);
    }
  }

  // The problem of a query without slashes.
  ghost predicate Slashless(lower: char -> char, p: Problem) {
    && p.Valid() && CaseOnly(lower) && NoBackslash(p.query) && '/' !in p.query
    && p.queryLower == LowerOf(lower, p.query) && p.targetLower == LowerOf(lower, p.target)
  }

  // A match in a run follows a separator only if the query does.
  lemma RunGain(lower: char -> char, p: Problem, i: nat, j: nat, run: nat)
    requires Slashless(lower, p) && 0 < i < |p.query| && j < |p.target| && run <= i
    requires run > 0 ==> j > 0 && Match(p, i - 1, j - 1)
    requires j > 0
    ensures ComputeCharScore(p, i, j, run) <= 2 + RunBonus(i) + if ScoreSeparator(p.query[i - 1]) > 0 then 4 else 0
  {
    assert RunBonus(run) <= RunBonus(i) && RunBonus(i) >= 6;
    if run > 0 {
      var q, t := p.query[i - 1], p.target[j - 1];
      assert q in p.query;
      assert ScoreSeparator('/') > 0 && ScoreSeparator('\\') > 0;
      assert ScoreSeparator(t) > 0 ==> q == t;
    }
  }

  lemma FirstGain(p: Problem, j: nat)
    requires p.Valid() && p.query != "" && j < |p.target|
    ensures ComputeCharScore(p, 0, j, 0) <= 10
  {
  }

  lemma {:induction false} CellCeiling(lower: char -> char, p: Problem, i: nat, j: nat)
    requires Slashless(lower, p) && i < |p.query| && j < |p.target|
    ensures CellAt(p, i, j).score <= Plainly(i + 1) + 4 * Separators(p.query[..i])
    ensures CellAt(p, i, j).run <= i + 1
    decreases i, j
  {
    hide CellAt, ComputeCharScore, Separators, LowerOf, CaseOnly, ConsiderAsEqual;
    var left := if j > 0 then CellAt(p, i, j - 1).score else 0;
    var diag := if i > 0 && j > 0 then CellAt(p, i - 1, j - 1) else Cell(0, 0);
    CellFrom(p, i, j, left, diag);
    if j > 0 {
      CellCeiling(lower, p, i, j - 1);
    }
    if i == 0 {
      FirstGain(p, j);
    } else {
      PrefixSeparators(p.query, i - 1);
      if j > 0 {
        CellCeiling(lower, p, i - 1, j - 1);
        CellCases(p, i - 1, j - 1);
        RunGain(lower, p, i, j, diag.run);
      }
    }
  }

  lemma MatchGain(lower: char -> char, p: Problem, i: nat, j: nat, run: nat)
    requires Slashless(lower, p) && i < |p.query| && j < |p.target| && Match(p, i, j)
    ensures ComputeCharScore(p, i, j, run) >= 1 + if ScoreSeparator(p.query[i]) > 0 then 1 else 0
  {
    var q, t := p.query[i], p.target[j];
    assert q in p.query;
    assert ScoreSeparator('/') > 0 && ScoreSeparator('\\') > 0;
    assert ScoreSeparator(q) > 0 ==> q == t;
  }

  lemma {:induction false} CellFloor(lower: char -> char, p: Problem, i: nat, j: nat)
    requires Slashless(lower, p) && i < |p.query| && j < |p.target| && CellAt(p, i, j).score > 0
    ensures CellAt(p, i, j).score >= i + 1 + Separators(p.query[..i + 1])
    decreases i, j
  {
    hide CellAt, ComputeCharScore, Separators, LowerOf, CaseOnly, ConsiderAsEqual;
    var left := if j > 0 then CellAt(p, i, j - 1).score else 0;
    var diag := if i > 0 && j > 0 then CellAt(p, i - 1, j - 1) else Cell(0, 0);
    CellFrom(p, i, j, left, diag);
    CellCases(p, i, j);
    if CellAt(p, i, j).run == 0 {
      CellFloor(lower, p, i, j - 1);
    } else {
      MatchGain(lower, p, i, j, diag.run);
      PrefixSeparators(p.query, i);
      if i == 0 {
        NoSeparators(p.query[..0]);
      } else {
        CellFloor(lower, p, i - 1, j - 1);
      }
    }
  }

  lemma NoSeparators(s: string)
    requires s == ""
    ensures Separators(s) == 0
  {
  }

  // The scores of a query without slashes, whatever the target.
  lemma SlashlessScores(lower: char -> char, target: string, query: string, scattered: bool)
    requires CaseOnly(lower) && NoBackslash(query) && '/' !in query && query != ""
    ensures var n, score := |query|, FuzzyScore(lower, target, query, scattered);
      && score <= Plainly(n) + 4 * Separators(query[..n - 1])
      && (score > 0 ==> score >= n + Separators(query[..n - 1]))
  {
    hide CellAt, Separators, CaseOnly;
    var p, n := ProblemOf(lower, target, query, scattered), |query|;
    if !TooShort(target, query) {
      CellCeiling(lower, p, n - 1, |target| - 1);
      PrefixSeparators(query, n - 1);
      if Score(p) > 0 {
        CellFloor(lower, p, n - 1, |target| - 1);
      }
    }
  }

  lemma ScoresApart(lower: char -> char, high: string, low: string, query: string, scattered: bool)
    requires CaseOnly(lower) && NoBackslash(query) && '/' !in query && 0 < |query| <= 205
    requires FuzzyScore(lower, high, query, scattered) > 0
    ensures FuzzyScore(lower, low, query, scattered) < LABEL_SCORE_THRESHOLD + FuzzyScore(lower, high, query, scattered)
  {
    hide FuzzyScore, Separators, CaseOnly, Plainly;
    var n := |query|;
    SlashlessScores(lower, high, query, scattered);
    SlashlessScores(lower, low, query, scattered);
    FewSeparators(query[..n - 1]);
    PlainlyAtMost(n);
  }

  lemma PlainlyAtMost(n: nat)
    requires 0 < n <= 205
    ensures Plainly(n) <= 64975
  {
    if n < 3 {
      assert Plainly(2) == Plainly(1) + 8;
    } else {
      hide Plainly;
      PlainlyInClosedForm(n);
      Products(n, n - 1, 205, 204);
    }
  }

  lemma SlashMatchesOnlySlash(lower: char -> char, p: Problem, i: nat, j: nat)
    requires CaseOnly(lower) && p.Valid() && i < |p.query| && j < |p.target|
    requires p.query[i] == '/' && p.queryLower[i] == lower('/') && p.targetLower[j] == lower(p.target[j])
    ensures Match(p, i, j) <==> p.target[j] == '/' || p.target[j] == '\\'
  {
    assert ScoreSeparator('/') > 0 && ScoreSeparator('\\') > 0;
  }

  // A query with a slash matches no name.
  lemma SlashMatchesNoName(lower: char -> char, name: string, query: string, scattered: bool)
    requires CaseOnly(lower) && '/' in query && '/' !in name && '\\' !in name
    ensures FuzzyScore(lower, name, query, scattered) == 0
  {
    hide Score, Positions, Match, CaseOnly;
    var p := ProblemOf(lower, name, query, scattered);
    PositionsMatch(p);
    if Score(p) > 0 {
      var k :| 0 <= k < |query| && query[k] == '/';
      assert name[Positions(p)[k]] in name;
      SlashMatchesOnlySlash(lower, p, k, Positions(p)[k]);
    }
  }

  // ----- up to 205 characters -----

  lemma ScoreAtMost(lower: char -> char, target: string, query: string, scattered: bool)
    requires |query| <= 205
    ensures FuzzyScore(lower, target, query, scattered) < LABEL_PREFIX_SCORE_THRESHOLD - 100
  {
    hide Score, LowerOf;
    var p, n := ProblemOf(lower, target, query, scattered), |query|;
    RawScoresFitIff(n);
    assert p.Valid() && |p.query| == n ==> Score(p) <= Most(n);
    if n < 3 {
      assert Most(2) == Most(1) + 13;
    } else {
      hide Most;
      MostInClosedForm(n);
      Products(n, n - 1, 205, 204);
    }
  }

  lemma PreparedFacts(query: Query)
    requires Prepared(query)
    ensures NoBackslash(query.whole.normalized) && (query.containsPathSeparator <==> '/' in query.whole.normalized)
  {
    hide Prepare;
    var original :| query == Prepare(original);
    PreparedText(original);
  }

  // What the tier of a file says about its score.
  lemma FileScore(lower: char -> char, item: Item, query: Query, scattered: bool)
    requires CaseOnly(lower) && FileItem(item) && Prepared(query) && |query.whole.normalized| <= 205
    ensures var sc, q := scattered && !query.whole.expectContiguousMatch, query.whole.normalized;
      var l, d := FuzzyScore(lower, item.name, q, sc), FuzzyScore(lower, DescriptionPrefix(item) + item.name, q, sc);
      var score := OwnScore(lower, item, query, scattered);
      match OwnTier(lower, item, query, scattered)
      case NoMatch => score == 0
      case Description => score == d > 0
      case Label => score == LABEL_SCORE_THRESHOLD + l && l > 0 && '/' !in q && q != ""
      case LabelPrefix =>
        LABEL_PREFIX_SCORE_THRESHOLD + l <= score <= LABEL_PREFIX_SCORE_THRESHOLD + 100 + l && l > 0 && '/' !in q && q != ""
      case Identity => score == PATH_IDENTITY_SCORE
  {
    hide FuzzyScore, LowerOf, CaseOnly, FileItem, PrefixLengthBoost, Prepared;
    var sc, q := scattered && !query.whole.expectContiguousMatch, query.whole.normalized;
    assert |query.values| <= 1 by { OnePiece(query); }
    PreparedFacts(query);
    NameHasNoSlash(item);
    if '/' in q {
      SlashMatchesNoName(lower, item.name, q, sc);
    }
    if item.name != "" && |q| <= |item.name| {
      BoostAtMost(|q|, |item.name|);
    }
  }

  lemma OnePiece(query: Query)
    requires Prepared(query)
    ensures |query.values| <= 1
  {
  }

  // By themselves, of two files the one in the better tier scores higher.
  lemma RightScores(lower: char -> char, a: Item, b: Item, query: Query, scattered: bool)
    requires CaseOnly(lower) && FileItem(a) && FileItem(b) && Prepared(query) && |query.whole.normalized| <= 205
    requires Better(lower, a, b, query, scattered)
    ensures OwnScore(lower, a, query, scattered) > OwnScore(lower, b, query, scattered)
    ensures OwnScore(lower, b, query, scattered) < PATH_IDENTITY_SCORE
    ensures OwnScore(lower, a, query, scattered) <= PATH_IDENTITY_SCORE
  {
    hide FuzzyScore, CaseOnly, FileItem, OwnScore, OwnTier, Prepared;
    var sc, q := scattered && !query.whole.expectContiguousMatch, query.whole.normalized;
    FileScore(lower, a, query, scattered);
    FileScore(lower, b, query, scattered);
    PreparedFacts(query);
    var da, db := DescriptionPrefix(a) + a.name, DescriptionPrefix(b) + b.name;
    ScoreAtMost(lower, a.name, q, sc);
    ScoreAtMost(lower, b.name, q, sc);
    ScoreAtMost(lower, da, q, sc);
    ScoreAtMost(lower, db, q, sc);
    var tier := OwnTier(lower, a, query, scattered);
    if tier == Label || tier == LabelPrefix {
      ScoresApart(lower, a.name, b.name, q, sc);
      ScoresApart(lower, a.name, db, q, sc);
    }
  }

  /** For queries of at most 205 characters, of two files of a search whose name and directory make a text that
      no other of its files has, the one in the better tier scores higher and sorts first: identity before
      label prefix before label before description before no match. */
  lemma RightOrder(lower: char -> char, items: seq<Item>, a: Item, b: Item, query: Query, scattered: bool)
    requires CaseOnly(lower) && Apart(items, a, b) && Prepared(query) && |query.whole.normalized| <= 205
    requires Better(lower, a, b, query, scattered)
    ensures ServedScore(lower, items, a, query, scattered) > ServedScore(lower, items, b, query, scattered)
    ensures SortsFirst(lower, items, a, b, query, scattered)
  {
    hide CaseOnly, FileItem, Prepared, OwnScore, OwnTier, ServedScore, TextOf;
    RightScores(lower, a, b, query, scattered);
    AloneIsOwn(lower, items, a, query, scattered);
    AloneIsOwn(lower, items, b, query, scattered);
  }

  // ----- from 206 characters on -----

  // A query of dashes.
  function Dashes(n: nat): Query {
    Query(Piece(Repeat('-', n), false), Repeat('-', n), [], false)
  }

  // The file `a` in a directory of dashes.
  function InDashes(n: nat): Item {
    Item("a", Repeat('-', n), Repeat('-', n) + "/a")
  }

  // A file below the root with n dashes in its name, at most `run` in a row.
  function DashedName(n: nat, run: nat): string
    requires n > 0 && run > 0
  {
    seq(n + (n - 1) / run + 1, i => if i % (run + 1) == 0 then 'a' else '-')
  }

  function Dashed(n: nat, run: nat): Item
    requires n > 0 && run > 0
  {
    Item(DashedName(n, run), "", DashedName(n, run))
  }

  lemma InDashesIsFile(n: nat)
    requires n > 1
    ensures FileItem(InDashes(n))
  {
    var d := Repeat('-', n);
    var rel := [d, "a"];
    assert rel[1..] == ["a"] && rel[..1] == [d];
    assert d + "/" + "a" == d + "/a";
    assert d[1] == '-';
    assert ItemOf(InDashes(n), rel);
  }

  lemma DashIsTyped()
    ensures !Dropped('-')
  {
  }

  lemma DashesArePrepared(n: nat)
    requires n > 0
    ensures Prepared(Dashes(n)) && |Dashes(n).whole.normalized| == n
  {
    hide Prepare, Dropped;
    assert |Repeat('-', n)| == n && forall c :: c in Repeat('-', n) ==> c == '-';
    DashIsTyped();
    hide Repeat;
    TypedAsIs(Repeat('-', n));
  }

  // The search over the two files, whose texts differ in length.
  function Rivals(n: nat, run: nat): seq<Item>
    requires n > 0 && run > 0
  {
    [InDashes(n), Dashed(n, run)]
  }

  lemma RivalsApart(n: nat, run: nat)
    requires n > 1 && run > 0 && (n - 1) / run > 0
    ensures Apart(Rivals(n, run), InDashes(n), Dashed(n, run))
  {
    InDashesIsFile(n);
    DashedIsFile(n, run);
    hide FileItem;
    assert |TextOf(InDashes(n))| == n + 1 && |TextOf(Dashed(n, run))| > n + 1;
  }

  lemma DashedIsFile(n: nat, run: nat)
    requires n > 0 && run > 0
    ensures FileItem(Dashed(n, run))
  {
    var name := DashedName(n, run);
    assert name[0] == 'a';
    assert ItemOf(Dashed(n, run), [name]);
  }

  // Along the dashes every character continues the run.
  lemma {:induction false} DashCell(p: Problem, n: nat, i: nat)
    requires p.Valid() && p.scattered && i < n && p.query == p.queryLower == Repeat('-', n)
    requires n <= |p.target| && p.target[..n] == p.targetLower[..n] == p.query
    ensures CellAt(p, i, i) == Cell(Plainly(i + 1) + 4 * i, i + 1)
  {
    hide CellAt;
    assert p.target[i] == p.target[..n][i] == '-' && p.targetLower[i] == p.targetLower[..n][i] == '-';
    if i == 0 {
      CellFrom(p, 0, 0, 0, Cell(0, 0));
    } else {
      assert p.target[i - 1] == p.target[..n][i - 1] == '-';
      DashCell(p, n, i - 1);
      TooFewCharacters(p, i, i - 1);
      CellFrom(p, i, i, 0, CellAt(p, i - 1, i - 1));
    }
  }

  lemma InDashesScore(lower: char -> char, n: nat)
    requires CaseOnly(lower) && n > 1
    ensures QueryTier(lower, InDashes(n), Dashes(n), true) == Description
    ensures QueryScore(lower, InDashes(n), Dashes(n), true) >= Plainly(n) + 4 * (n - 1) > 0
  {
    hide CellAt, Plainly;
    assert ScoreSeparator('-') > 0;
    var d, item := Repeat('-', n), InDashes(n);
    var target := DescriptionPrefix(item) + item.name;
    var p := ProblemOf(lower, target, d, true);
    assert target[..n] == d;
    assert LowerOf(lower, d) == d;
    assert LowerOf(lower, target)[..n] == d;
    DashCell(p, n, n - 1);
    RowsRise(p, n - 1, n - 1, |target| - 1);
    assert item.path[n] == '/';
  }

  // The most that the first r dashes of a run score when at most `run` stand in a row.
  function RunScore(run: nat, r: nat): nat {
    if r == 0 then 0 else if r == 1 then (if run == 1 then 2 else 6) else RunScore(run, r - 1) + 6 + RunBonus(r - 1)
  }

  // At most `weight` for each dash, with runs of one or of five.
  ghost predicate Weighs(run: nat, weight: nat) {
    (run == 1 && weight == 2) || (run == 5 && weight == 18)
  }

  lemma RunScores(run: nat, weight: nat, r: nat)
    requires Weighs(run, weight) && r <= run
    ensures RunScore(run, r) <= weight * r
  {
    assert run == 5 ==> RunScore(run, 2) == 18 && RunScore(run, 3) == 36 && RunScore(run, 4) == 60 && RunScore(run, 5) == 87;
  }

  ghost predicate DashedProblem(lower: char -> char, p: Problem, n: nat, run: nat) {
    && p.Valid() && CaseOnly(lower) && n > 0 && run > 0 && p == ProblemOf(lower, DashedName(n, run), Repeat('-', n), true)
  }

  lemma DashedAt(lower: char -> char, p: Problem, n: nat, run: nat, i: nat, j: nat)
    requires DashedProblem(lower, p, n, run) && i < n && j < |p.target|
    ensures |p.query| == n
    ensures Match(p, i, j) <==> j % (run + 1) != 0
    ensures p.query[i] == '-' && p.target[j] == if j % (run + 1) == 0 then 'a' else '-'
  {
    assert ScoreSeparator('-') > 0;
  }

  lemma DashedGain(lower: char -> char, p: Problem, n: nat, run: nat, i: nat, j: nat, length: nat)
    requires DashedProblem(lower, p, n, run) && i < n && 0 < j < |p.target| && j % (run + 1) != 0
    requires length > 0 ==> (j - 1) % (run + 1) != 0
    ensures ComputeCharScore(p, i, j, length) <= if length == 0 then (if (j - 1) % (run + 1) == 0 then 2 else 6) else 6 + RunBonus(length)
  {
    hide DashedProblem, Match, RunBonus;
    DashedAt(lower, p, n, run, i, j);
    DashedAt(lower, p, n, run, i, j - 1);
  }

  lemma {:induction false} DashedCell(lower: char -> char, p: Problem, n: nat, run: nat, weight: nat, i: nat, j: nat)
    requires p.Valid() && DashedProblem(lower, p, n, run) && Weighs(run, weight) && i < n == |p.query| && j < |p.target|
    ensures var c := CellAt(p, i, j);
      && c.run <= j % (run + 1) && c.run <= i + 1
      && c.score <= weight * (i + 1 - c.run) + RunScore(run, c.run)
    decreases i, j
  {
    hide CellAt, ComputeCharScore, DashedProblem, ConsiderAsEqual, RunBonus;
    var left := if j > 0 then CellAt(p, i, j - 1).score else 0;
    var diag := if i > 0 && j > 0 then CellAt(p, i - 1, j - 1) else Cell(0, 0);
    CellFrom(p, i, j, left, diag);
    CharScorePositive(p, i, j, diag.run);
    DashedAt(lower, p, n, run, i, j);
    NoRun(run);
    if j > 0 {
      DashedCell(lower, p, n, run, weight, i, j - 1);
      RunScores(run, weight, CellAt(p, i, j - 1).run);
      if i > 0 {
        DashedCell(lower, p, n, run, weight, i - 1, j - 1);
      }
      if j % (run + 1) != 0 {
        DashedGain(lower, p, n, run, i, j, diag.run);
        NextInRun(run, j);
      }
    }
  }

  lemma NoRun(run: nat)
    ensures RunScore(run, 0) == 0
    ensures RunScore(run, 1) == if run == 1 then 2 else 6
  {
  }

  lemma NextInRun(run: nat, j: nat)
    requires (run == 1 || run == 5) && j % (run + 1) != 0
    ensures (j - 1) % (run + 1) == j % (run + 1) - 1
  {
    if run == 1 {
      assert (j - 1) % 2 == j % 2 - 1;
    } else {
      assert (j - 1) % 6 == j % 6 - 1;
    }
  }

  // The position of the k-th dash.
  function DashAt(run: nat, k: nat): nat
    requires run > 0
  {
    k + k / run + 1
  }

  lemma DashesStand(n: nat, run: nat, k: nat)
    requires (run == 1 || run == 5) && k < n
    ensures DashAt(run, k) % (run + 1) != 0 && DashAt(run, k) < |DashedName(n, run)|
    ensures k > 0 ==> DashAt(run, k - 1) < DashAt(run, k)
  {
    if run == 1 {
      assert DashAt(run, k) == 2 * k + 1;
    } else {
      assert k == 5 * (k / 5) + k % 5;
      assert DashAt(run, k) == 6 * (k / 5) + (k % 5 + 1);
    }
  }

  lemma {:induction false} DashesRise(n: nat, run: nat, k: nat, l: nat)
    requires (run == 1 || run == 5) && k < l < n
    ensures DashAt(run, k) < DashAt(run, l)
  {
    hide DashAt;
    DashesStand(n, run, l);
    if k == l - 1 {
    } else {
      DashesRise(n, run, k, l - 1);
    }
  }

  lemma DashesMatch(lower: char -> char, p: Problem, n: nat, run: nat)
    requires p.Valid() && DashedProblem(lower, p, n, run) && (run == 1 || run == 5)
    ensures WholeMatch(p, seq(n, k requires 0 <= k < n => DashAt(run, k)))
  {
    hide DashedProblem, DashAt, Match;
    var positions := seq(n, k requires 0 <= k < n => DashAt(run, k));
    DashedLength(lower, p, n, run);
    forall k | 0 <= k < n
      ensures positions[k] < |p.target| && Match(p, k, positions[k])
    {
      DashesStand(n, run, k);
      DashedAt(lower, p, n, run, k, positions[k]);
    }
    forall k, l | 0 <= k < l < n
      ensures positions[k] < positions[l]
    {
      DashesRise(n, run, k, l);
    }
  }

  lemma DashedLength(lower: char -> char, p: Problem, n: nat, run: nat)
    requires DashedProblem(lower, p, n, run)
    ensures p.target == DashedName(n, run) && |p.target| == n + (n - 1) / run + 1 > 0 && |p.query| == n && p.scattered
  {
  }

  lemma DashedScore(lower: char -> char, n: nat, run: nat, weight: nat)
    requires CaseOnly(lower) && n > 0 && Weighs(run, weight)
    ensures QueryTier(lower, Dashed(n, run), Dashes(n), true) == Label
    ensures QueryScore(lower, Dashed(n, run), Dashes(n), true) <= LABEL_SCORE_THRESHOLD + weight * n
  {
    hide CellAt, Embedding, DashedName, Weighs, CaseOnly;
    OneOrFive(run, weight);
    var name := DashedName(n, run);
    var p := ProblemOf(lower, name, Repeat('-', n), true);
    assert DashedProblem(lower, p, n, run);
    hide DashedProblem;
    DashedLength(lower, p, n, run);
    DashesMatch(lower, p, n, run);
    ScatteredMeaning(p);
    DashedCell(lower, p, n, run, weight, n - 1, |name| - 1);
    var length := CellAt(p, n - 1, |name| - 1).run;
    RunScores(run, weight, length);
    Weighed(weight, n, length);
    DashedIsNoPrefix(lower, n, run);
  }

  lemma OneOrFive(run: nat, weight: nat)
    requires Weighs(run, weight)
    ensures run == 1 || run == 5
  {
  }

  lemma Weighed(weight: nat, n: nat, length: nat)
    requires length <= n
    ensures weight * (n - length) + weight * length == weight * n
  {
  }

  lemma DashedIsNoPrefix(lower: char -> char, n: nat, run: nat)
    requires CaseOnly(lower) && n > 0 && run > 0
    ensures !IsPrefix(lower, Repeat('-', n), DashedName(n, run))
  {
    assert ScoreSeparator('-') > 0;
    assert LowerOf(lower, Repeat('-', n))[0] == '-';
    assert LowerOf(lower, DashedName(n, run))[0] == lower('a') != '-';
  }

  // What the two files score and what their tiers are in a search over both.
  lemma RivalScores(lower: char -> char, n: nat, run: nat, weight: nat)
    requires CaseOnly(lower) && n > 1 && Weighs(run, weight) && run > 0 && (n - 1) / run > 0
    ensures var items, q := Rivals(n, run), Dashes(n);
      && Apart(items, InDashes(n), Dashed(n, run)) && Prepared(q) && |q.whole.normalized| == n
      && OwnTier(lower, InDashes(n), q, true) == Description && OwnTier(lower, Dashed(n, run), q, true) == Label
      && ServedScore(lower, items, InDashes(n), q, true) >= Plainly(n) + 4 * (n - 1)
      && ServedScore(lower, items, Dashed(n, run), q, true) <= LABEL_SCORE_THRESHOLD + weight * n
  {
    hide CaseOnly, QueryScore, QueryTier, Plainly, Weighs, ServedScore, TextOf;
    RivalsApart(n, run);
    DashesArePrepared(n);
    InDashesScore(lower, n);
    DashedScore(lower, n, run, weight);
    AloneIsOwn(lower, Rivals(n, run), InDashes(n), Dashes(n), true);
    AloneIsOwn(lower, Rivals(n, run), Dashed(n, run), Dashes(n), true);
    assert |DashedName(n, run)| > 0;
  }

  /** From 205 characters on the bands overlap: a file in a directory of dashes reaches the label
      threshold by its description. */
  lemma LongQueriesOverlap(lower: char -> char, n: nat)
    requires CaseOnly(lower) && n >= 205
    ensures FileItem(InDashes(n)) && Prepared(Dashes(n)) && |Dashes(n).whole.normalized| == n
    ensures OwnTier(lower, InDashes(n), Dashes(n), true) == Description
    ensures OwnScore(lower, InDashes(n), Dashes(n), true) > LABEL_SCORE_THRESHOLD
  {
    hide Plainly, QueryTier, QueryScore, FileItem, CaseOnly, Prepared;
    InDashesIsFile(n);
    DashesArePrepared(n);
    InDashesScore(lower, n);
    DashesExceed(n);
  }

  lemma DashesExceed(n: nat)
    requires n >= 205
    ensures Plainly(n) + 4 * (n - 1) > LABEL_SCORE_THRESHOLD
    ensures n >= 206 ==> Plainly(n) + 4 * (n - 1) > LABEL_SCORE_THRESHOLD + 2 * n
  {
    hide Plainly;
    PlainlyInClosedForm(n);
    Products(205, 204, n, n - 1);
    if n >= 206 {
      Products(206, 205, n, n - 1);
    }
  }

  /** From 206 characters on a file in a better tier scores lower and sorts behind: one whose name has the
      query's dashes behind one in a directory of dashes. */
  lemma LongQueriesMisrank(lower: char -> char, n: nat)
    requires CaseOnly(lower) && n >= 206
    ensures var items, a, b, q := Rivals(n, 1), Dashed(n, 1), InDashes(n), Dashes(n);
      && Apart(items, a, b) && Prepared(q) && |q.whole.normalized| == n
      && OwnTier(lower, a, q, true) == Label && OwnTier(lower, b, q, true) == Description
      && ServedScore(lower, items, b, q, true) > ServedScore(lower, items, a, q, true)
      && (n < 98304 ==> SortsFirst(lower, items, b, a, q, true))
  {
    hide Plainly, OwnTier, ServedScore, FileItem, CaseOnly, Prepared, AloneIn, DashedName, Dashes;
    RivalScores(lower, n, 1, 2);
    DashesExceed(n);
  }

  /** It takes no long names: 212 characters in names of at most 255. */
  lemma ShortNamesMisrank(lower: char -> char)
    requires CaseOnly(lower)
    ensures |Dashed(212, 5).name| == 255 && |InDashes(212).description| == 212
    ensures var items, a, b, q := Rivals(212, 5), Dashed(212, 5), InDashes(212), Dashes(212);
      && Apart(items, a, b) && Prepared(q)
      && OwnTier(lower, a, q, true) == Label && OwnTier(lower, b, q, true) == Description
      && SortsFirst(lower, items, b, a, q, true)
  {
    hide Plainly, OwnTier, ServedScore, FileItem, CaseOnly, Prepared, AloneIn, Dashes;
    RivalScores(lower, 212, 5, 18);
    PlainlyInClosedForm(212);
  }

  /** The exact limit: the tiers decide the order of any two files of a search, whose text no other of its files
      has, for queries of n characters if and only if n is at most 205. */
  lemma RankingRightIff(lower: char -> char, n: nat)
    requires CaseOnly(lower)
    ensures RanksRight(lower, n) <==> n <= 205
  {
    hide OwnTier, ServedScore, CaseOnly, SortsFirst, DashedName, Apart, Prepared, Dashes, Rivals;
    if n <= 205 {
      forall items, a, b, query, scattered |
        Apart(items, a, b) && Prepared(query) && |query.whole.normalized| == n && Better(lower, a, b, query, scattered)
        ensures ServedScore(lower, items, a, query, scattered) > ServedScore(lower, items, b, query, scattered)
      {
        RightOrder(lower, items, a, b, query, scattered);
      }
    } else {
      LongQueriesMisrank(lower, n);
      assert Better(lower, Dashed(n, 1), InDashes(n), Dashes(n), true);
    }
  }
}
