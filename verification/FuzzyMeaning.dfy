/** What a search means (packages/workspace-fs/src/fuzzy-scorer.ts): which files a query finds, in which tier, and
    what they score, in terms of their names and paths. */
module FuzzyMeaning {
  import opened FuzzyScorer
  import opened FuzzyScoreBounds
  import opened FuzzyItems
  import opened FuzzyQueries
  import opened FuzzySearch
  import opened FuzzyRanking
  import opened FuzzyClashes
  import G = GlobPatterns

  // The same letter in either case; a slash also stands for a backslash.
  predicate SameLetter(lower: char -> char, a: char, b: char) {
    lower(a) == lower(b) || (lower(a) in "/\\" && lower(b) in "/\\")
  }

  // The letters of the query stand in the text in this order, at rising positions.
  ghost predicate InOrder(lower: char -> char, query: string, text: string, positions: seq<nat>) {
    && |positions| == |query|
    && (forall k :: 0 <= k < |query| ==> positions[k] < |text| && SameLetter(lower, query[k], text[positions[k]]))
    && forall k, l :: 0 <= k < l < |query| ==> positions[k] < positions[l]
  }

  // The query stands in the text at j, in either case.
  ghost predicate StandsAt(lower: char -> char, query: string, text: string, j: nat) {
    j + |query| <= |text| && forall k :: 0 <= k < |query| ==> lower(query[k]) == lower(text[j + k])
  }

  ghost predicate Found(lower: char -> char, query: string, text: string, scattered: bool) {
    query != "" &&
    if scattered then exists positions :: InOrder(lower, query, text, positions)
    else exists j :: StandsAt(lower, query, text, j)
  }

  lemma WholeMatchIff(lower: char -> char, query: string, text: string, positions: seq<nat>)
    requires query != "" && text != ""
    ensures WholeMatch(ProblemOf(lower, text, query, true), positions) <==> InOrder(lower, query, text, positions)
  {
    var p, n := ProblemOf(lower, text, query, true), |query|;
    if WholeMatch(p, positions) {
      forall k | 0 <= k < n
        ensures positions[k] < |text| && SameLetter(lower, query[k], text[positions[k]])
      {
        assert Match(p, k, positions[k]);
      }
    }
    if InOrder(lower, query, text, positions) {
      assert forall k :: 0 <= k < n - 1 ==> positions[k] < positions[n - 1];
      forall k | 0 <= k < n
        ensures positions[k] <= |text| - 1 && Match(p, k, positions[k])
      {
        assert SameLetter(lower, query[k], text[positions[k]]);
      }
    }
  }

  lemma {:induction false} RisingReach(positions: seq<nat>, k: nat)
    requires k < |positions| && forall i, j :: 0 <= i < j < |positions| ==> positions[i] < positions[j]
    ensures positions[k] >= k
  {
    if k > 0 {
      RisingReach(positions, k - 1);
    }
  }

  lemma StartsIff(lower: char -> char, query: string, text: string, j: nat)
    ensures StartsAt(LowerOf(lower, text), LowerOf(lower, query), j) <==> StandsAt(lower, query, text, j)
  {
    var s, w := LowerOf(lower, text), LowerOf(lower, query);
    if j + |query| <= |text| {
      assert forall k :: 0 <= k < |query| ==> s[j..j + |w|][k] == lower(text[j + k]) && w[k] == lower(query[k]);
    }
  }

  lemma NotFoundIfShort(lower: char -> char, query: string, text: string, scattered: bool)
    requires |text| < |query|
    ensures !Found(lower, query, text, scattered)
  {
    if positions :| InOrder(lower, query, text, positions) {
      RisingReach(positions, |query| - 1);
    }
  }

  /** A text is scored above 0 exactly if the query is found in it. */
  lemma ScoredIff(lower: char -> char, text: string, query: string, scattered: bool)
    ensures FuzzyScore(lower, text, query, scattered) > 0 <==> Found(lower, query, text, scattered)
  {
    hide Score, InOrder, StandsAt, LowerOf;
    if TooShort(text, query) {
      if query != "" {
        NotFoundIfShort(lower, query, text, scattered);
      }
    } else {
      var p := ProblemOf(lower, text, query, scattered);
      hide WholeMatch;
      if scattered {
        ScatteredMeaning(p);
        forall positions
          ensures WholeMatch(p, positions) <==> InOrder(lower, query, text, positions)
        {
          WholeMatchIff(lower, query, text, positions);
        }
      } else {
        hide StartsAt;
        ContiguousMeaning(p);
        forall j: nat
          ensures StartsAt(p.targetLower, p.queryLower, j) <==> StandsAt(lower, query, text, j)
        {
          StartsIff(lower, query, text, j);
        }
        assert forall j: nat :: StandsAt(lower, query, text, j) ==> j < |text| by { StandsInside(lower, query, text); }
      }
    }
  }

  lemma StandsInside(lower: char -> char, query: string, text: string)
    requires query != ""
    ensures forall j: nat :: StandsAt(lower, query, text, j) ==> j < |text|
  {
  }

  // ----- the tier of a file -----

  lemma PrefixIff(lower: char -> char, query: string, name: string)
    requires name != ""
    ensures IsPrefix(lower, query, name) <==> StandsAt(lower, query, name, 0)
  {
    StartsIff(lower, query, name, 0);
    assert |query| <= |name| ==> LowerOf(lower, name)[0..|query|] == LowerOf(lower, name)[..|query|];
  }

  lemma DescriptionIsPath(item: Item)
    requires FileItem(item)
    ensures item.name != "" && item.path != ""
    ensures item.description != "" ==> DescriptionPrefix(item) + item.name == item.path
  {
    hide FileItem;
    PathOfFile(item);
  }

  /** What a typed query of one piece makes of a file: identity if it is the file's path, with backslashes for
      slashes or not; else a match of the name if it has no slash or the file is not in a directory, of its start
      if it is one; else a match of the path, if the file is in a directory. A query in quotes must stand there. */
  lemma TierOfFile(lower: char -> char, item: Item, original: string, scattered: bool)
    requires FileItem(item)
    ensures var query := Prepare(original);
      var text, scatter := query.whole.normalized, scattered && !ExpectsExactMatch(original);
      OwnTier(lower, item, query, scattered) ==
        if text == "" then NoMatch
        else if G.ReplaceBackslashes(original) == item.path then Identity
        else if ('/' !in G.ReplaceBackslashes(original) || item.description == "") && Found(lower, text, item.name, scatter) then
          if StandsAt(lower, text, item.name, 0) then LabelPrefix else Label
        else if item.description != "" && Found(lower, text, item.path, scatter) then Description
        else NoMatch
  {
    hide FileItem, FuzzyScore, Found, StandsAt, IsPrefix, DescriptionPrefix, SplitAtSpaces, PiecesOf, Normalized,
      G.ReplaceBackslashes;
    var query := Prepare(original);
    var text, scatter := query.whole.normalized, scattered && !ExpectsExactMatch(original);
    DescriptionIsPath(item);
    ScoredIff(lower, item.name, text, scatter);
    ScoredIff(lower, item.path, text, scatter);
    PrefixIff(lower, text, item.name);
  }

  // ----- what a piece scores -----

  // The share of a name that a query has, to the nearest percent.
  lemma BoostIsPercent(length: nat, labelLength: nat)
    requires labelLength > 0
    ensures var boost := PrefixLengthBoost(length, labelLength);
      2 * boost * labelLength <= 200 * length + labelLength < 2 * (boost + 1) * labelLength
  {
    var x, d := 200 * length + labelLength, 2 * labelLength;
    assert x == x / d * d + x % d;
    assert (x / d + 1) * d == x / d * d + d;
  }

  /** What a piece scores: the score of the description for itself, that of the name above 2^16, and that of a name that
      starts with the piece above 2^17 with the percentage of the name that the piece makes up. */
  lemma ScoreOfTier(lower: char -> char, item: Item, piece: Piece, preferLabel: bool, scattered: bool)
    ensures var score, scatter := PieceScore(lower, item, piece, preferLabel, scattered), scattered && !piece.expectContiguousMatch;
      match PieceTier(lower, item, piece, preferLabel, scattered)
      case NoMatch => score == 0
      case Description =>
        score == FuzzyScore(lower, item.description + (if item.path != "" then "/" else "") + item.name, piece.normalized, scatter)
      case Label => score == 65_536 + FuzzyScore(lower, item.name, piece.normalized, scatter)
      case LabelPrefix =>
        var percent := score - 131_072 - FuzzyScore(lower, item.name, piece.normalized, scatter);
        var n, m := |piece.normalized|, |item.name|;
        percent >= 0 && 2 * percent * m <= 200 * n + m < 2 * (percent + 1) * m
      case Identity => false
  {
    hide FuzzyScore, PrefixLengthBoost;
    assert item.description + "" == item.description;
    if PieceTier(lower, item, piece, preferLabel, scattered) == LabelPrefix {
      BoostIsPercent(|piece.normalized|, |item.name|);
    }
  }

  /** The score of several pieces is the sum of what each scores, provided that each matches. */
  lemma {:induction false} MultipleIsSum(lower: char -> char, item: Item, a: seq<Piece>, b: seq<Piece>, preferLabel: bool,
                                         scattered: bool)
    requires a != [] && b != []
    ensures |a| == 1 ==> MultipleScore(lower, item, a, preferLabel, scattered) == PieceScore(lower, item, a[0], preferLabel, scattered)
    ensures var x, y := MultipleScore(lower, item, a, preferLabel, scattered), MultipleScore(lower, item, b, preferLabel, scattered);
      MultipleScore(lower, item, a + b, preferLabel, scattered) == if x > 0 && y > 0 then x + y else 0
    decreases |b|
  {
    hide PieceScore;
    var n := |b| - 1;
    assert (a + b)[..|a| + n] == a + b[..n] && (a + b)[|a| + n] == b[n];
    if n == 0 {
      assert a + b[..0] == a;
    } else {
      MultipleIsSum(lower, item, a, b[..n], preferLabel, scattered);
    }
  }
}
