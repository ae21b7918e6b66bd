/** Files that a search takes for one another because their names and directories make the same text
    (packages/workspace-fs/src/fuzzy-scorer.ts, packages/workspace-fs/src/search.ts). */
module FuzzyClashes {
  import opened Paths
  import opened FuzzyScorer
  import opened FuzzyScoreBounds
  import opened Wrappers
  import opened FuzzyItems
  import opened FuzzyQueries
  import opened FuzzySearch
  import opened FuzzyRanking
  import S = SearchIndex

  // ----- the path of a file is made of its name and directory -----

  lemma PathOfFile(item: Item)
    requires FileItem(item)
    ensures item.name != "" && item.path == if item.description == "" then item.name else item.description + ("/" + item.name)
  {
    hide Join, NoBackslash;
    var rel :| ItemOf(item, rel);
    assert CanonicalSegment(rel[|rel| - 1]);
    if |rel| == 1 {
      assert rel == [rel[0]];
      S.JoinOne(rel[0]);
    } else {
      S.JoinLast(rel);
      S.FrontIsFile(rel);
      S.JoinedStart(rel[..|rel| - 1]);
    }
  }

  // Different files that make the same text have names of different lengths.
  lemma LengthsDiffer(a: Item, b: Item)
    requires FileItem(a) && FileItem(b) && a != b && TextOf(a) == TextOf(b)
    ensures |a.name| != |b.name|
    ensures |b.name| < |a.name| ==> b.name == a.name[..|b.name|]
  {
    hide FileItem;
    PathOfFile(a);
    PathOfFile(b);
    var text := TextOf(a);
    assert text[..|a.name|] == a.name && text[..|b.name|] == b.name;
    assert text[|a.name|..] == a.description && text[|b.name|..] == b.description;
    assert |b.name| < |a.name| ==> text[..|a.name|][..|b.name|] == text[..|b.name|];
  }

  // ----- a query that tells two files apart -----

  // The start of the longer name, one character longer than the shorter one.
  function Telling(a: Item, b: Item): Query
    requires |b.name| < |a.name|
  {
    Prepare(a.name[..|b.name| + 1])
  }

  predicate IsTypeable(item: Item) {
    Typeable(item.name) && |item.name| <= 204
  }

  lemma TellingText(a: Item, b: Item)
    requires FileItem(a) && |b.name| < |a.name| && IsTypeable(a)
    ensures var q, text := Telling(a, b), a.name[..|b.name| + 1];
      && Prepared(q) && q == Query(Piece(text, false), text, [], false) && |text| <= 205 && '/' !in text
  {
    hide Prepare, FileItem;
    var text := a.name[..|b.name| + 1];
    NameHasNoSlash(a);
    assert forall c :: c in text ==> c in a.name;
    TypedAsIs(text);
  }

  // A prefix of a name matches it.
  lemma PrefixScores(lower: char -> char, name: string, n: nat)
    requires 0 < n <= |name|
    ensures FuzzyScore(lower, name, name[..n], true) > 0 && IsPrefix(lower, name[..n], name)
  {
    hide CellAt;
    var p := ProblemOf(lower, name, name[..n], true);
    var positions := seq(n, i requires 0 <= i < n => i);
    assert WholeMatch(p, positions);
    ScatteredMeaning(p);
    assert LowerOf(lower, name)[..n] == LowerOf(lower, name[..n]);
  }

  /** Different files that make the same text are told apart by a query: the start of the longer name, up to
      one character more than the shorter one, puts one of them above all that match by their names less
      well and the other below. */
  lemma ToldApart(lower: char -> char, a: Item, b: Item)
    requires CaseOnly(lower) && FileItem(a) && FileItem(b) && |b.name| < |a.name| && IsTypeable(a)
    ensures Prepared(Telling(a, b)) && |Telling(a, b).whole.normalized| <= 205
    ensures OwnTier(lower, a, Telling(a, b), true).Rank() >= 3 && OwnTier(lower, b, Telling(a, b), true).Rank() <= 1
    ensures OwnScore(lower, a, Telling(a, b), true) > OwnScore(lower, b, Telling(a, b), true)
  {
    hide Telling, FileItem, CaseOnly, OwnScore, OwnTier, Prepared;
    var text := a.name[..|b.name| + 1];
    TellingText(a, b);
    MatchesByName(lower, a, text);
    MatchesByDirectory(lower, b, text);
    RightScores(lower, a, b, Telling(a, b), true);
  }

  function Typed(text: string): Query {
    Query(Piece(text, false), text, [], false)
  }

  lemma MatchesByName(lower: char -> char, item: Item, text: string)
    requires FileItem(item) && text != "" && text <= item.name
    ensures OwnTier(lower, item, Typed(text), true).Rank() >= 3
  {
    hide FileItem, FuzzyScore, IsPrefix;
    PathOfFile(item);
    PrefixScores(lower, item.name, |text|);
    assert item.name[..|text|] == text;
  }

  lemma MatchesByDirectory(lower: char -> char, item: Item, text: string)
    requires FileItem(item) && |text| > |item.name| && '/' !in text
    ensures OwnTier(lower, item, Typed(text), true).Rank() <= 1
  {
    hide FileItem, FuzzyScore, IsPrefix;
    TooLong(lower, item.name, text);
    NotThePath(item, text);
  }

  lemma TooLong(lower: char -> char, name: string, query: string)
    requires |name| < |query|
    ensures FuzzyScore(lower, name, query, true) == 0
  {
  }

  lemma NotThePath(b: Item, text: string)
    requires FileItem(b) && |text| > |b.name| && '/' !in text
    ensures b.path != text
  {
    hide FileItem;
    PathOfFile(b);
    assert b.description != "" ==> b.path[|b.description|] == '/';
    assert forall i :: 0 <= i < |text| ==> text[i] in text;
  }

  // ----- searches over files -----

  // No two different files of the search make the same text.
  ghost predicate Unclashed(items: seq<Item>) {
    forall a, b :: a in items && b in items && TextOf(a) == TextOf(b) ==> a == b
  }

  ghost predicate TypeableFiles(items: seq<Item>) {
    forall item :: item in items ==> FileItem(item) && IsTypeable(item)
  }

  // Whatever the query, every file gets its own score.
  ghost predicate AlwaysOwn(lower: char -> char, items: seq<Item>) {
    forall query, scattered :: Prepared(query) ==> AllOwn(lower, items, query, scattered)
  }

  // Whatever the query of at most 205 characters, of any two files the one in the better tier scores higher.
  ghost predicate AlwaysRanked(lower: char -> char, items: seq<Item>) {
    forall a, b, query, scattered ::
      a in items && b in items && Prepared(query) && |query.whole.normalized| <= 205 && Better(lower, a, b, query, scattered)
      ==> ServedScore(lower, items, a, query, scattered) > ServedScore(lower, items, b, query, scattered)
  }

  // A clash shows: one of the two files gets the other's score, and neither is ranked above the other.
  lemma ClashShows(lower: char -> char, items: seq<Item>, a: Item, b: Item)
    requires CaseOnly(lower) && TypeableFiles(items) && a in items && b in items && a != b && TextOf(a) == TextOf(b)
    requires |b.name| < |a.name|
    ensures !AlwaysOwn(lower, items) && !AlwaysRanked(lower, items)
  {
    hide CaseOnly, FileItem, Prepared, OwnScore, OwnTier, ServedScore, TextOf, Telling, IsTypeable;
    var q := Telling(a, b);
    assert FileItem(a) && FileItem(b) && IsTypeable(a);
    PathOfFile(a);
    PathOfFile(b);
    ToldApart(lower, a, b);
    ServedAlike(lower, items, a, b, q, true);
    assert Better(lower, a, b, q, true);
    var j :| 0 <= j < |items| && items[j] == a;
    var k :| 0 <= k < |items| && items[k] == b;
    assert !AllOwn(lower, items, q, true);
  }

  lemma ClashExists(items: seq<Item>) returns (a: Item, b: Item)
    requires TypeableFiles(items) && !Unclashed(items)
    ensures a in items && b in items && a != b && TextOf(a) == TextOf(b) && |b.name| < |a.name|
  {
    hide FileItem, IsTypeable, TextOf;
    a, b :| a in items && b in items && TextOf(a) == TextOf(b) && a != b;
    LengthsDiffer(a, b);
    if |a.name| < |b.name| {
      a, b := b, a;
    }
  }

  lemma UnclashedIsAlone(items: seq<Item>, item: Item)
    requires Unclashed(items) && item in items
    ensures AloneIn(items, item)
  {
    hide TextOf;
  }

  /** For files with names of at most 204 characters that can be typed, every file of a search gets its own score
      for every query if and only if no two of them make the same text of name and directory. */
  lemma AlwaysOwnIff(lower: char -> char, items: seq<Item>)
    requires CaseOnly(lower) && TypeableFiles(items)
    ensures AlwaysOwn(lower, items) <==> Unclashed(items)
  {
    hide CaseOnly, FileItem, Prepared, OwnScore, ServedScore, TextOf, TypeableFiles, AlwaysRanked, AloneIn;
    if Unclashed(items) {
      forall query, scattered | Prepared(query)
        ensures AllOwn(lower, items, query, scattered)
      {
        forall k | 0 <= k < |items|
          ensures ServedScore(lower, items, items[k], query, scattered) == OwnScore(lower, items[k], query, scattered)
        {
          UnclashedIsAlone(items, items[k]);
          AloneIsOwn(lower, items, items[k], query, scattered);
        }
      }
    } else {
      hide AlwaysOwn;
      var a, b := ClashExists(items);
      ClashShows(lower, items, a, b);
    }
  }

  /** And on the same condition the tiers decide the order of all of them, for every query of at most 205
      characters. */
  lemma AlwaysRankedIff(lower: char -> char, items: seq<Item>)
    requires CaseOnly(lower) && TypeableFiles(items)
    ensures AlwaysRanked(lower, items) <==> Unclashed(items)
  {
    hide CaseOnly, FileItem, Prepared, OwnScore, OwnTier, ServedScore, TextOf, AlwaysOwn, AloneIn, IsTypeable;
    if Unclashed(items) {
      forall a, b, query, scattered |
        a in items && b in items && Prepared(query) && |query.whole.normalized| <= 205 && Better(lower, a, b, query, scattered)
        ensures ServedScore(lower, items, a, query, scattered) > ServedScore(lower, items, b, query, scattered)
      {
        UnclashedIsAlone(items, a);
        UnclashedIsAlone(items, b);
        RightOrder(lower, items, a, b, query, scattered);
      }
    } else {
      hide AlwaysRanked, TypeableFiles;
      var a, b := ClashExists(items);
      ClashShows(lower, items, a, b);
    }
  }

  // ----- two such files -----

  const NAMED := Item("ab", "c", "c/ab")
  const OTHER := Item("a", "bc", "bc/a")

  lemma NamedIsFile()
    ensures FileItem(NAMED) && IsTypeable(NAMED)
  {
    var rel := ["c", "ab"];
    assert rel[1..] == ["ab"] && rel[..1] == ["c"];
    assert "c" + "/" + "ab" == "c/ab";
    assert ItemOf(NAMED, rel);
  }

  lemma OtherIsFile()
    ensures FileItem(OTHER) && IsTypeable(OTHER)
  {
    var rel := ["bc", "a"];
    assert rel[1..] == ["a"] && rel[..1] == ["bc"];
    assert "bc" + "/" + "a" == "bc/a";
    assert ItemOf(OTHER, rel);
  }

  lemma OtherDoesNotMatch(lower: char -> char)
    requires CaseOnly(lower) && lower('a') == 'a' && lower('b') == 'b' && lower('c') == 'c'
    ensures FuzzyScore(lower, "bc/a", "ab", true) == 0
  {
    var p := ProblemOf(lower, "bc/a", "ab", true);
    assert ScoreSeparator('/') > 0;
    assert forall j :: 0 <= j < 4 ==> p.targetLower[j] == "bc/a"[j];
    assert p.queryLower[0] == 'a' && p.queryLower[1] == 'b';
    assert forall j: nat :: j < 4 && Match(p, 0, j) ==> j == 3;
    assert forall positions :: WholeMatch(p, positions) ==> positions[0] < positions[1] < 4;
    hide Score, Embedding;
    ScatteredMeaning(p);
  }

  // The query itself.
  lemma TypedAb()
    ensures Prepare("ab") == Query(Piece("ab", false), "ab", [], false) && Prepared(Prepare("ab"))
  {
    TypedAsIs("ab");
    assert '/' !in "ab";
  }

  lemma OwnTiers(lower: char -> char)
    requires CaseOnly(lower) && lower('a') == 'a' && lower('b') == 'b' && lower('c') == 'c'
    ensures var q := Query(Piece("ab", false), "ab", [], false);
      && OwnTier(lower, NAMED, q, true) == LabelPrefix && OwnScore(lower, NAMED, q, true) > LABEL_PREFIX_SCORE_THRESHOLD
      && OwnTier(lower, OTHER, q, true) == NoMatch && OwnScore(lower, OTHER, q, true) == 0
  {
    hide FuzzyScore, CaseOnly;
    PrefixScores(lower, "ab", 2);
    assert "ab"[..2] == "ab";
    OtherDoesNotMatch(lower);
    assert DescriptionPrefix(OTHER) + OTHER.name == "bc/a";
    TooLong(lower, "a", "ab");
  }

  /** The query `ab` matches `c/ab` by the start of its name and does not match `bc/a`. If `bc/a` comes first in the
      index neither is listed, and if it comes second both are, with the score of the first. */
  lemma SameTextSameScore(lower: char -> char)
    requires CaseOnly(lower) && lower('a') == 'a' && lower('b') == 'b' && lower('c') == 'c'
    ensures FileItem(NAMED) && FileItem(OTHER) && TextOf(NAMED) == TextOf(OTHER) && Prepared(Prepare("ab"))
    ensures var q := Prepare("ab");
      var score := OwnScore(lower, NAMED, q, true);
      && OwnTier(lower, NAMED, q, true) == LabelPrefix && OwnTier(lower, OTHER, q, true) == NoMatch
      && Listed(lower, [OTHER, NAMED], [OTHER, NAMED], q, true) == []
      && Listed(lower, [NAMED, OTHER], [NAMED, OTHER], q, true) == [(NAMED, score), (OTHER, score)]
  {
    hide OwnScore, OwnTier, Prepare, FileItem;
    TypedAb();
    NamedIsFile();
    OtherIsFile();
    OwnTiers(lower);
    assert "c" + "ab" != "" && TextOf(NAMED) == "abc" == TextOf(OTHER);
    ListedTwo(lower, OTHER, NAMED, Prepare("ab"));
    ListedTwo(lower, NAMED, OTHER, Prepare("ab"));
  }

  lemma ListedTwo(lower: char -> char, a: Item, b: Item, query: Query)
    requires a.name != "" && b.name != "" && TextOf(a) == TextOf(b)
    ensures var score := OwnScore(lower, a, query, true);
      Listed(lower, [a, b], [a, b], query, true) == if score > 0 then [(a, score), (b, score)] else []
  {
    hide OwnScore, TextOf;
    assert [a, b][..1] == [a] && [a][..0] == [];
    assert FirstLike([a, b], TextOf(a)) == Some(a);
    assert ServedScore(lower, [a, b], a, query, true) == ServedScore(lower, [a, b], b, query, true) == OwnScore(lower, a, query, true);
    hide ServedScore;
    var score := OwnScore(lower, a, query, true);
    assert Listed(lower, [], [a, b], query, true) == [];
    assert Listed(lower, [a], [a, b], query, true) == if score > 0 then [(a, score)] else [];
  }
}
