/** Scores of search items (packages/workspace-fs/src/fuzzy-scorer.ts): the tiers of identity, label
    prefix, label and description matches, and what is highlighted. A missing description or path is
    the empty string, which the scorer treats alike; lower-casing works character by character. */
module FuzzyItems {
  import opened Wrappers
  import opened FuzzyScorer
  import opened FuzzyScoreBounds
  import opened FuzzyMatches
  import opened JsMap

  const PATH_IDENTITY_SCORE := 262144
  const LABEL_PREFIX_SCORE_THRESHOLD := 131072

  datatype Item = Item(name: string, description: string, path: string)

  datatype Piece = Piece(normalized: string, expectContiguousMatch: bool)

  datatype Query = Query(whole: Piece, pathNormalized: string, values: seq<Piece>, containsPathSeparator: bool)

  datatype ItemScore = ItemScore(score: nat, labelMatch: Option<seq<Span>>, descriptionMatch: Option<seq<Span>>)

  const NO_ITEM_SCORE := ItemScore(0, None, None)

  function LowerOf(lower: char -> char, s: string): string {
    seq(|s|, i requires 0 <= i < |s| => lower(s[i]))
  }

  function ProblemOf(lower: char -> char, target: string, query: string, scattered: bool): (p: Problem)
    ensures p.Valid()
  {
    Problem(query, LowerOf(lower, query), target, LowerOf(lower, target), scattered)
  }

  predicate TooShort(target: string, query: string) {
    target == "" || query == "" || |target| < |query|
  }

  function FuzzyScore(lower: char -> char, target: string, query: string, scattered: bool): nat {
    if TooShort(target, query) then 0 else Score(ProblemOf(lower, target, query, scattered))
  }

  function FuzzyPositions(lower: char -> char, target: string, query: string, scattered: bool): seq<nat> {
    if TooShort(target, query) then [] else Positions(ProblemOf(lower, target, query, scattered))
  }

  method ScoreFuzzy(lower: char -> char, target: string, query: string, scattered: bool)
    returns (score: nat, positions: seq<nat>)
    ensures score == FuzzyScore(lower, target, query, scattered)
    ensures positions == FuzzyPositions(lower, target, query, scattered)
  {
    if TooShort(target, query) {
      return 0, [];
    }
    score, positions := DoScoreFuzzy(ProblemOf(lower, target, query, scattered));
  }

  // ----- tiers -----

  datatype Tier = NoMatch | Description | Label | LabelPrefix | Identity
  {
    function Rank(): nat {
      match this
      case NoMatch => 0
      case Description => 1
      case Label => 2
      case LabelPrefix => 3
      case Identity => 4
    }
  }

  predicate IsPrefix(lower: char -> char, word: string, name: string) {
    name != "" && |name| >= |word| && LowerOf(lower, word) <= LowerOf(lower, name)
  }

  function LabelScore(lower: char -> char, item: Item, piece: Piece, scattered: bool): nat {
    FuzzyScore(lower, item.name, piece.normalized, scattered && !piece.expectContiguousMatch)
  }

  function DescriptionPrefix(item: Item): string {
    if item.path != "" then item.description + "/" else item.description
  }

  function DescriptionScore(lower: char -> char, item: Item, piece: Piece, scattered: bool): nat {
    FuzzyScore(lower, DescriptionPrefix(item) + item.name, piece.normalized, scattered && !piece.expectContiguousMatch)
  }

  function PieceTier(lower: char -> char, item: Item, piece: Piece, preferLabel: bool, scattered: bool): Tier {
    if (preferLabel || item.description == "") && LabelScore(lower, item, piece, scattered) > 0 then
      if IsPrefix(lower, piece.normalized, item.name) then LabelPrefix else Label
    else if item.description != "" && DescriptionScore(lower, item, piece, scattered) > 0 then Description
    else NoMatch
  }

  // `Math.round((length / labelLength) * 100)`, in exact arithmetic
  function PrefixLengthBoost(length: nat, labelLength: nat): nat
    requires labelLength > 0
  {
    (200 * length + labelLength) / (2 * labelLength)
  }

  function PieceScore(lower: char -> char, item: Item, piece: Piece, preferLabel: bool, scattered: bool): nat {
    var tier := PieceTier(lower, item, piece, preferLabel, scattered);
    if tier == LabelPrefix then
      LABEL_PREFIX_SCORE_THRESHOLD + PrefixLengthBoost(|piece.normalized|, |item.name|)
      + LabelScore(lower, item, piece, scattered)
    else if tier == Label then LABEL_SCORE_THRESHOLD + LabelScore(lower, item, piece, scattered)
    else if tier == Description then DescriptionScore(lower, item, piece, scattered)
    else 0
  }

  // What is highlighted: for a label, the matched positions; for description and label together, each
  // matched position on the side of the boundary where it lies.
  ghost predicate Highlights(lower: char -> char, item: Item, piece: Piece, preferLabel: bool, scattered: bool, r: ItemScore) {
    var scatter := scattered && !piece.expectContiguousMatch;
    match PieceTier(lower, item, piece, preferLabel, scattered)
    case LabelPrefix => r.labelMatch == Some([Span(0, |piece.normalized|)]) && r.descriptionMatch == None
    case Label =>
      && r.labelMatch.Some? && Proper(r.labelMatch.value) && r.descriptionMatch == None
      && Expand(r.labelMatch.value) == FuzzyPositions(lower, item.name, piece.normalized, scatter)
    case Description =>
      && r.labelMatch.Some? && r.descriptionMatch.Some?
      && Proper(r.labelMatch.value) && Proper(r.descriptionMatch.value)
      && Divided(FuzzyPositions(lower, DescriptionPrefix(item) + item.name, piece.normalized, scatter),
                 |DescriptionPrefix(item)|, r.labelMatch.value, r.descriptionMatch.value)
    case _ => r == NO_ITEM_SCORE
  }

  ghost predicate Divided(positions: seq<nat>, boundary: nat, labelMatch: seq<Span>, descriptionMatch: seq<Span>) {
    && (forall x :: Covers(labelMatch, x) <==> x >= 0 && x + boundary in positions)
    && (forall x :: Covers(descriptionMatch, x) <==> x < boundary && x in positions)
  }

  lemma DividedByMatches(positions: seq<nat>, boundary: nat, matches: seq<Span>, labels: seq<Span>, descriptions: seq<Span>)
    requires Expand(matches) == positions && From(matches, boundary, labels) && Before(matches, boundary, descriptions)
    ensures Divided(positions, boundary, labels, descriptions)
  {
    hide Covers, Expand;
    ExpandCovers(matches);
    forall x: int
      ensures Covers(labels, x) <==> x >= 0 && x + boundary in positions
    {
      assert x + boundary in Expand(matches) <==> Covers(matches, x + boundary);
    }
  }

  method DoScoreItemFuzzySingle(lower: char -> char, item: Item, piece: Piece, preferLabel: bool, scattered: bool)
    returns (r: ItemScore)
    ensures r.score == PieceScore(lower, item, piece, preferLabel, scattered)
    ensures Highlights(lower, item, piece, preferLabel, scattered, r)
  {
    hide FuzzyScore, FuzzyPositions, LowerOf, Divided, From, Before, Expand;
    var scatter := scattered && !piece.expectContiguousMatch;
    if preferLabel || item.description == "" {
      var labelScore, labelPositions := ScoreFuzzy(lower, item.name, piece.normalized, scatter);
      if labelScore > 0 {
        assert !TooShort(item.name, piece.normalized) by { ScoredIsLongEnough(lower, item.name, piece.normalized, scatter); }
        if IsPrefix(lower, piece.normalized, item.name) {
          var baseScore := LABEL_PREFIX_SCORE_THRESHOLD + PrefixLengthBoost(|piece.normalized|, |item.name|);
          return ItemScore(baseScore + labelScore, Some([Span(0, |piece.normalized|)]), None);
        }
        var matches := CreateMatches(labelPositions);
        return ItemScore(LABEL_SCORE_THRESHOLD + labelScore, Some(matches), None);
      }
    }
    if item.description != "" {
      var prefix := DescriptionPrefix(item);
      var score, positions := ScoreFuzzy(lower, prefix + item.name, piece.normalized, scatter);
      if score > 0 {
        var matches := CreateMatches(positions);
        var labelMatch, descriptionMatch := SplitMatches(matches, |prefix|);
        DividedByMatches(positions, |prefix|, matches, labelMatch, descriptionMatch);
        return ItemScore(score, Some(labelMatch), Some(descriptionMatch));
      }
    }
    r := NO_ITEM_SCORE;
  }

  lemma ScoredIsLongEnough(lower: char -> char, target: string, query: string, scattered: bool)
    ensures FuzzyScore(lower, target, query, scattered) > 0 ==> !TooShort(target, query)
  {
  }

  // ----- queries of one piece and of several -----

  function PreferLabel(item: Item, query: Query): bool {
    item.path == "" || !query.containsPathSeparator
  }

  predicate IsIdentity(item: Item, query: Query) {
    item.path != "" && query.pathNormalized == item.path
  }

  // The sum over the pieces, or 0 when one of them does not match.
  function MultipleScore(lower: char -> char, item: Item, pieces: seq<Piece>, preferLabel: bool, scattered: bool): nat {
    if pieces == [] then 0
    else
      var init := pieces[..|pieces| - 1];
      var last := PieceScore(lower, item, pieces[|pieces| - 1], preferLabel, scattered);
      if last == 0 || (init != [] && MultipleScore(lower, item, init, preferLabel, scattered) == 0) then 0
      else MultipleScore(lower, item, init, preferLabel, scattered) + last
  }

  /** An item matches a query of several pieces exactly when it matches each of them. */
  lemma {:induction false} MultipleNeedsAll(lower: char -> char, item: Item, pieces: seq<Piece>, preferLabel: bool, scattered: bool)
    requires pieces != []
    ensures MultipleScore(lower, item, pieces, preferLabel, scattered) > 0 <==>
            forall k :: 0 <= k < |pieces| ==> PieceScore(lower, item, pieces[k], preferLabel, scattered) > 0
  {
    hide PieceScore;
    var init := pieces[..|pieces| - 1];
    assert pieces == init + [pieces[|pieces| - 1]];
    if init == [] {
    } else {
      MultipleNeedsAll(lower, item, init, preferLabel, scattered);
      assert forall k :: 0 <= k < |init| ==> init[k] == pieces[k];
    }
  }

  datatype Side = LabelSide | DescriptionSide

  function SpansOf(side: Side, r: ItemScore): seq<Span> {
    var spans := if side == LabelSide then r.labelMatch else r.descriptionMatch;
    if spans.Some? then spans.value else []
  }

  // Position x of the label or of the description is matched by the piece.
  ghost predicate Matched(side: Side, lower: char -> char, item: Item, piece: Piece, preferLabel: bool, scattered: bool, x: int) {
    var scatter := scattered && !piece.expectContiguousMatch;
    var boundary := |DescriptionPrefix(item)|;
    var positions := FuzzyPositions(lower, DescriptionPrefix(item) + item.name, piece.normalized, scatter);
    match PieceTier(lower, item, piece, preferLabel, scattered)
    case LabelPrefix => side == LabelSide && 0 <= x < |piece.normalized|
    case Label => side == LabelSide && x in FuzzyPositions(lower, item.name, piece.normalized, scatter)
    case Description => if side == LabelSide then x >= 0 && x + boundary in positions else x < boundary && x in positions
    case _ => false
  }

  lemma HighlightsMatched(side: Side, lower: char -> char, item: Item, piece: Piece, preferLabel: bool, scattered: bool,
                          r: ItemScore)
    ensures Highlights(lower, item, piece, preferLabel, scattered, r) ==>
              && Proper(SpansOf(side, r))
              && forall x :: Covers(SpansOf(side, r), x) <==> Matched(side, lower, item, piece, preferLabel, scattered, x)
  {
    hide PieceTier, FuzzyPositions, Expand;
    ExpandCovers(SpansOf(side, r));
    assert |[Span(0, |piece.normalized|)]| == 1 && [Span(0, |piece.normalized|)][0] == Span(0, |piece.normalized|);
  }

  // The spans cover what any of the pieces matches.
  ghost predicate CoversAll(side: Side, lower: char -> char, item: Item, pieces: seq<Piece>, preferLabel: bool, scattered: bool,
                            spans: seq<Span>) {
    forall x :: Covers(spans, x) <==>
      exists k :: 0 <= k < |pieces| && Matched(side, lower, item, pieces[k], preferLabel, scattered, x)
  }

  lemma CoversBoth(a: seq<Span>, b: seq<Span>, x: int)
    ensures Covers(a + b, x) <==> Covers(a, x) || Covers(b, x)
  {
    if Covers(a, x) {
      var k :| 0 <= k < |a| && a[k].start <= x < a[k].end;
      assert (a + b)[k] == a[k];
    }
    if Covers(b, x) {
      var k :| 0 <= k < |b| && b[k].start <= x < b[k].end;
      assert (a + b)[|a| + k] == b[k];
    }
  }

  lemma CoversAllNext(side: Side, lower: char -> char, item: Item, pieces: seq<Piece>, piece: Piece, preferLabel: bool,
                      scattered: bool, spans: seq<Span>, r: ItemScore)
    ensures CoversAll(side, lower, item, pieces, preferLabel, scattered, spans)
            && Highlights(lower, item, piece, preferLabel, scattered, r) ==>
              && CoversAll(side, lower, item, pieces + [piece], preferLabel, scattered, spans + SpansOf(side, r))
              && Proper(SpansOf(side, r))
  {
    hide Covers, Matched, Highlights, SpansOf;
    HighlightsMatched(side, lower, item, piece, preferLabel, scattered, r);
    if CoversAll(side, lower, item, pieces, preferLabel, scattered, spans)
       && Highlights(lower, item, piece, preferLabel, scattered, r) {
      forall x
        ensures Covers(spans + SpansOf(side, r), x) <==>
                exists k :: 0 <= k <= |pieces| && Matched(side, lower, item, (pieces + [piece])[k], preferLabel, scattered, x)
      {
        CoversBoth(spans, SpansOf(side, r), x);
        assert forall k :: 0 <= k < |pieces| ==> (pieces + [piece])[k] == pieces[k];
        assert (pieces + [piece])[|pieces|] == piece;
        if k :| 0 <= k < |pieces| && Matched(side, lower, item, pieces[k], preferLabel, scattered, x) {
          assert Matched(side, lower, item, (pieces + [piece])[k], preferLabel, scattered, x);
        }
      }
    }
  }

  lemma NoPiecesCovered(side: Side, lower: char -> char, item: Item, preferLabel: bool, scattered: bool)
    ensures CoversAll(side, lower, item, [], preferLabel, scattered, [])
  {
  }

  lemma CoversAllAlike(side: Side, lower: char -> char, item: Item, pieces: seq<Piece>, preferLabel: bool, scattered: bool,
                       a: seq<Span>, b: seq<Span>)
    requires Alike(a, b) && CoversAll(side, lower, item, pieces, preferLabel, scattered, b)
    ensures CoversAll(side, lower, item, pieces, preferLabel, scattered, a)
  {
    hide Covers, Matched;
  }

  method DoScoreItemFuzzyMultiple(lower: char -> char, item: Item, pieces: seq<Piece>, preferLabel: bool, scattered: bool)
    returns (r: ItemScore)
    requires pieces != []
    ensures r.score == MultipleScore(lower, item, pieces, preferLabel, scattered)
    ensures if r.score == 0 then r == NO_ITEM_SCORE
            else forall side :: CoversAll(side, lower, item, pieces, preferLabel, scattered, SpansOf(side, r))
  {
    hide PieceScore, Highlights, CoversAll, Alike;
    var totalScore := 0;
    var labels: seq<Span>, descriptions: seq<Span> := [], [];
    NoPiecesCovered(LabelSide, lower, item, preferLabel, scattered);
    NoPiecesCovered(DescriptionSide, lower, item, preferLabel, scattered);
    for i := 0 to |pieces|
      invariant totalScore == MultipleScore(lower, item, pieces[..i], preferLabel, scattered)
      invariant i > 0 ==> totalScore > 0
      invariant Proper(labels) && Proper(descriptions)
      invariant CoversAll(LabelSide, lower, item, pieces[..i], preferLabel, scattered, labels)
      invariant CoversAll(DescriptionSide, lower, item, pieces[..i], preferLabel, scattered, descriptions)
    {
      assert pieces[..i + 1] == pieces[..i] + [pieces[i]];
      assert pieces[..i + 1][..i] == pieces[..i];
      var piece := DoScoreItemFuzzySingle(lower, item, pieces[i], preferLabel, scattered);
      CoversAllNext(LabelSide, lower, item, pieces[..i], pieces[i], preferLabel, scattered, labels, piece);
      CoversAllNext(DescriptionSide, lower, item, pieces[..i], pieces[i], preferLabel, scattered, descriptions, piece);
      if piece.score == 0 {
        NoneMatches(lower, item, pieces, i, preferLabel, scattered);
        return NO_ITEM_SCORE;
      }
      totalScore := totalScore + piece.score;
      labels := labels + SpansOf(LabelSide, piece);
      descriptions := descriptions + SpansOf(DescriptionSide, piece);
    }
    assert pieces[..|pieces|] == pieces;
    var labelMatch := NormalizeMatches(labels);
    var descriptionMatch := NormalizeMatches(descriptions);
    CoversAllAlike(LabelSide, lower, item, pieces, preferLabel, scattered, labelMatch, labels);
    CoversAllAlike(DescriptionSide, lower, item, pieces, preferLabel, scattered, descriptionMatch, descriptions);
    r := ItemScore(totalScore, Some(labelMatch), Some(descriptionMatch));
  }

  lemma NoneMatches(lower: char -> char, item: Item, pieces: seq<Piece>, k: nat, preferLabel: bool, scattered: bool)
    requires k < |pieces| && PieceScore(lower, item, pieces[k], preferLabel, scattered) == 0
    ensures MultipleScore(lower, item, pieces, preferLabel, scattered) == 0
  {
    hide PieceScore, MultipleScore;
    MultipleNeedsAll(lower, item, pieces, preferLabel, scattered);
  }

  function QueryScore(lower: char -> char, item: Item, query: Query, scattered: bool): nat {
    if IsIdentity(item, query) then PATH_IDENTITY_SCORE
    else if |query.values| > 1 then MultipleScore(lower, item, query.values, PreferLabel(item, query), scattered)
    else PieceScore(lower, item, query.whole, PreferLabel(item, query), scattered)
  }

  method DoScoreItemFuzzy(lower: char -> char, item: Item, query: Query, scattered: bool) returns (r: ItemScore)
    ensures r.score == QueryScore(lower, item, query, scattered)
    ensures
      if IsIdentity(item, query) then
        && r.labelMatch == Some([Span(0, |item.name|)])
        && r.descriptionMatch == (if item.description == "" then None else Some([Span(0, |item.description|)]))
      else if |query.values| > 1 then
        if r.score == 0 then r == NO_ITEM_SCORE
        else forall side ::
          CoversAll(side, lower, item, query.values, PreferLabel(item, query), scattered, SpansOf(side, r))
      else Highlights(lower, item, query.whole, PreferLabel(item, query), scattered, r)
  {
    hide PieceScore, MultipleScore, Highlights, CoversAll;
    if IsIdentity(item, query) {
      return ItemScore(PATH_IDENTITY_SCORE, Some([Span(0, |item.name|)]),
                       if item.description == "" then None else Some([Span(0, |item.description|)]));
    }
    if |query.values| > 1 {
      r := DoScoreItemFuzzyMultiple(lower, item, query.values, PreferLabel(item, query), scattered);
      return;
    }
    r := DoScoreItemFuzzySingle(lower, item, query.whole, PreferLabel(item, query), scattered);
  }

  // ----- tiers never overlap -----

  function QueryTier(lower: char -> char, item: Item, query: Query, scattered: bool): Tier {
    if IsIdentity(item, query) then Identity
    else PieceTier(lower, item, query.whole, PreferLabel(item, query), scattered)
  }

  lemma ScoresFit(lower: char -> char, target: string, query: string, scattered: bool)
    requires |query| <= 204
    ensures FuzzyScore(lower, target, query, scattered) < LABEL_SCORE_THRESHOLD
  {
    hide LowerOf;
    RawScoresFitIff(|query|);
    var p := ProblemOf(lower, target, query, scattered);
    assert p.Valid() && |p.query| == |query| ==> Score(p) < LABEL_SCORE_THRESHOLD;
  }

  lemma BoostAtMost(length: nat, labelLength: nat)
    requires labelLength > 0 && length <= labelLength
    ensures PrefixLengthBoost(length, labelLength) <= 100
  {
    QuotientAtMost(200 * length + labelLength, 2 * labelLength, 100);
  }

  lemma QuotientAtMost(x: nat, d: nat, k: nat)
    requires d > 0 && x < (k + 1) * d
    ensures x / d <= k
  {
    var q := x / d;
    assert x == q * d + x % d;
    if q > k {
      Products(k + 1, d, q, d);
    }
  }

  /** Each tier has its own band of scores, for every item and every query of at most 204 characters. */
  lemma TiersApart(lower: char -> char, item: Item, piece: Piece, preferLabel: bool, scattered: bool)
    requires |piece.normalized| <= 204
    ensures var score := PieceScore(lower, item, piece, preferLabel, scattered);
      match PieceTier(lower, item, piece, preferLabel, scattered)
      case NoMatch => score == 0
      case Description => 0 < score < LABEL_SCORE_THRESHOLD
      case Label => LABEL_SCORE_THRESHOLD < score < LABEL_PREFIX_SCORE_THRESHOLD
      case LabelPrefix => LABEL_PREFIX_SCORE_THRESHOLD < score < PATH_IDENTITY_SCORE
      case Identity => false
  {
    hide FuzzyScore, LowerOf, PrefixLengthBoost;
    var scatter := scattered && !piece.expectContiguousMatch;
    ScoresFit(lower, item.name, piece.normalized, scatter);
    ScoresFit(lower, DescriptionPrefix(item) + item.name, piece.normalized, scatter);
    if PieceTier(lower, item, piece, preferLabel, scattered) == LabelPrefix {
      BoostAtMost(|piece.normalized|, |item.name|);
    }
  }

  // How two items compare by their scores; `tie` is what the remaining rules say.
  function CompareScores(a: nat, b: nat, tie: int): int {
    if (a == PATH_IDENTITY_SCORE || b == PATH_IDENTITY_SCORE) && a != b then
      if a == PATH_IDENTITY_SCORE then -1 else 1
    else if (a > LABEL_SCORE_THRESHOLD || b > LABEL_SCORE_THRESHOLD) && a != b then
      if a > b then -1 else 1
    else if a != b then
      if a > b then -1 else 1
    else tie
  }

  // The score of an item above no match, for a query of one piece and at most 204 characters.
  lemma TierScores(lower: char -> char, item: Item, query: Query, scattered: bool)
    requires |query.values| <= 1 && |query.whole.normalized| <= 204
    requires QueryTier(lower, item, query, scattered) != NoMatch
    ensures 0 < QueryScore(lower, item, query, scattered) <= PATH_IDENTITY_SCORE
  {
    hide PieceScore, PieceTier;
    TiersApart(lower, item, query.whole, PreferLabel(item, query), scattered);
  }

  // Whatever the two items are, for such a query the one in the better tier scores higher.
  lemma BetterTierScoresHigher(lower: char -> char, a: Item, b: Item, query: Query, scattered: bool, tie: int)
    requires |query.values| <= 1 && |query.whole.normalized| <= 204
    requires QueryTier(lower, a, query, scattered).Rank() > QueryTier(lower, b, query, scattered).Rank()
    ensures QueryScore(lower, a, query, scattered) > QueryScore(lower, b, query, scattered)
    ensures CompareScores(QueryScore(lower, a, query, scattered), QueryScore(lower, b, query, scattered), tie) == -1
    ensures CompareScores(QueryScore(lower, b, query, scattered), QueryScore(lower, a, query, scattered), tie) == 1
  {
    hide PieceScore, PieceTier;
    TiersApart(lower, a, query.whole, PreferLabel(a, query), scattered);
    TiersApart(lower, b, query.whole, PreferLabel(b, query), scattered);
  }
}
