/** How the text of a query is prepared for scoring (packages/workspace-fs/src/fuzzy-scorer.ts). A string is
    a sequence of characters. */
module FuzzyQueries {
  import opened JsStrings
  import opened Paths
  import opened FuzzyItems
  import G = GlobPatterns

  // Quotes, wildcards, white space and ellipses are left out of a query.
  predicate Dropped(c: char) {
    c == '*' || c == '\U{2026}' || c == '"' || IsSpace(c)
  }

  function Cleaned(s: string): (r: string)
    ensures forall c :: c in r <==> c in s && !Dropped(c)
  {
    if s == "" then "" else (if Dropped(s[0]) then "" else [s[0]]) + Cleaned(s[1..])
  }

  // So is a hash at the end, unless it is all there is.
  function Normalized(original: string): string {
    var cleaned := Cleaned(G.ReplaceBackslashes(original));
    if |cleaned| > 1 && cleaned[|cleaned| - 1] == '#' then cleaned[..|cleaned| - 1] else cleaned
  }

  predicate ExpectsExactMatch(query: string) {
    query != "" && query[0] == '"' && query[|query| - 1] == '"'
  }

  function PieceOf(original: string): Piece {
    Piece(Normalized(original), ExpectsExactMatch(original))
  }

  // `original.split(" ")`
  function SplitAtSpaces(s: string): (r: seq<string>)
    ensures r != [] && (|r| > 1 <==> ' ' in s)
  {
    if s == "" then [""]
    else
      var rest := SplitAtSpaces(s[1..]);
      if s[0] == ' ' then [""] + rest else [[s[0]] + rest[0]] + rest[1..]
  }

  function PiecesOf(parts: seq<string>): seq<Piece> {
    if parts == [] then []
    else PiecesOf(parts[..|parts| - 1]) +
         var piece := PieceOf(parts[|parts| - 1]); if piece.normalized == "" then [] else [piece]
  }

  function Prepare(original: string): Query {
    var pathNormalized, parts := G.ReplaceBackslashes(original), SplitAtSpaces(original);
    Query(PieceOf(original), pathNormalized, if |parts| > 1 then PiecesOf(parts) else [], '/' in pathNormalized)
  }

  method PrepareQuery(original: string) returns (query: Query)
    ensures query == Prepare(original)
  {
    hide PieceOf, SplitAtSpaces;
    var pathNormalized := G.ReplaceBackslashes(original);
    var values: seq<Piece> := [];
    var originalSplit := SplitAtSpaces(original);
    if |originalSplit| > 1 {
      for i := 0 to |originalSplit|
        invariant values == PiecesOf(originalSplit[..i])
      {
        assert originalSplit[..i + 1][..i] == originalSplit[..i];
        var piece := PieceOf(originalSplit[i]);
        if piece.normalized != "" {
          values := values + [piece];
        }
      }
      assert originalSplit[..|originalSplit|] == originalSplit;
    }
    query := Query(PieceOf(original), pathNormalized, values, '/' in pathNormalized);
  }

  // A query of one piece.
  ghost predicate Prepared(query: Query) {
    |query.values| <= 1 && exists original :: query == Prepare(original)
  }

  /** What is scored has no backslash, and a slash exactly if the query is taken for a path. */
  lemma PreparedText(original: string)
    ensures var query := Prepare(original);
      NoBackslash(query.whole.normalized) && (query.containsPathSeparator <==> '/' in query.whole.normalized)
  {
    hide SplitAtSpaces, Cleaned, G.ReplaceBackslashes;
    var slashed := G.ReplaceBackslashes(original);
    var cleaned := Cleaned(slashed);
    assert '\\' !in slashed && !Dropped('/');
    var n := |cleaned| - 1;
    if |cleaned| > 1 && cleaned[n] == '#' {
      assert cleaned == cleaned[..n] + [cleaned[n]];
    }
  }

  // Text that is scored as it is typed.
  predicate Typeable(s: string) {
    s != "" && forall c :: c in s ==> !Dropped(c) && c != '#' && c != '\\'
  }

  lemma TypedAsIs(s: string)
    requires Typeable(s)
    ensures Prepare(s) == Query(Piece(s, false), s, [], '/' in s) && Prepared(Prepare(s))
  {
    hide Cleaned;
    G.NoBackslashes(s);
    AllCleaned(s);
    assert s[0] in s && s[|s| - 1] in s && Dropped(' ') && Dropped('"');
  }

  lemma {:induction false} AllCleaned(s: string)
    requires forall c :: c in s ==> !Dropped(c)
    ensures Cleaned(s) == s
  {
    hide Dropped;
    if s == "" {
    } else {
      AllCleaned(s[1..]);
      assert s == [s[0]] + s[1..];
    }
  }

  // ----- queries of several words -----

  // A word as it is meant, and whether it stands in quotes.
  datatype Word = Word(text: string, quoted: bool)
  {
    function Written(): string {
      if quoted then "\"" + text + "\"" else text
    }
  }

  // The words with one space between any two.
  function Sentence(words: seq<Word>): string {
    if words == [] then ""
    else if |words| == 1 then words[0].Written()
    else words[0].Written() + (" " + Sentence(words[1..]))
  }

  function WordPieces(words: seq<Word>): seq<Piece> {
    seq(|words|, i requires 0 <= i < |words| => Piece(words[i].text, words[i].quoted))
  }

  function Writings(words: seq<Word>): seq<string> {
    seq(|words|, i requires 0 <= i < |words| => words[i].Written())
  }

  lemma {:induction false} SplitAfterWord(w: string, more: string)
    requires ' ' !in w
    ensures SplitAtSpaces(w) == [w] && SplitAtSpaces(w + (" " + more)) == [w] + SplitAtSpaces(more)
  {
    if w == "" {
      assert "" + (" " + more) == " " + more && (" " + more)[1..] == more;
    } else {
      var rest := w[1..];
      SplitAfterWord(rest, more);
      assert (w + (" " + more))[1..] == rest + (" " + more);
      assert [w[0]] + rest == w && ([rest] + SplitAtSpaces(more))[1..] == SplitAtSpaces(more);
    }
  }

  lemma WrittenHasNoSpace(word: Word)
    requires Typeable(word.text)
    ensures ' ' !in word.Written()
  {
    assert Dropped(' ');
  }

  lemma {:induction false} SplitSentence(words: seq<Word>)
    requires words != [] && forall i :: 0 <= i < |words| ==> Typeable(words[i].text)
    ensures SplitAtSpaces(Sentence(words)) == Writings(words)
  {
    hide Typeable, SplitAtSpaces;
    WrittenHasNoSpace(words[0]);
    if |words| == 1 {
      SplitAfterWord(words[0].Written(), "");
    } else {
      SplitAfterWord(words[0].Written(), Sentence(words[1..]));
      SplitSentence(words[1..]);
      assert Writings(words) == [words[0].Written()] + Writings(words[1..]);
    }
  }

  lemma PieceOfWord(word: Word)
    requires Typeable(word.text)
    ensures PieceOf(word.Written()) == Piece(word.text, word.quoted) && word.text != ""
  {
    hide Cleaned;
    var t, w := word.text, word.Written();
    G.NoBackslashes(w);
    AllCleaned(t);
    assert t[0] in t && t[|t| - 1] in t && Dropped('"');
    if word.quoted {
      QuotesCleaned(t);
    }
  }

  lemma QuotesCleaned(t: string)
    ensures Cleaned("\"" + t + "\"") == Cleaned(t)
  {
    CleanedAppend("\"" + t, "\"");
    CleanedAppend("\"", t);
    assert "\""[1..] == "" && Cleaned("\"") == "" + Cleaned("") == "";
  }

  lemma {:induction false} CleanedAppend(a: string, b: string)
    ensures Cleaned(a + b) == Cleaned(a) + Cleaned(b)
  {
    if a == "" {
      assert a + b == b;
    } else {
      assert (a + b)[1..] == a[1..] + b;
      CleanedAppend(a[1..], b);
    }
  }

  lemma {:induction false} PiecesOfWritings(words: seq<Word>)
    requires forall i :: 0 <= i < |words| ==> Typeable(words[i].text)
    ensures PiecesOf(Writings(words)) == WordPieces(words)
  {
    hide Typeable, PieceOf;
    if words == [] {
    } else {
      var n := |words| - 1;
      PiecesOfWritings(words[..n]);
      PieceOfWord(words[n]);
      assert Writings(words)[..n] == Writings(words[..n]);
      assert WordPieces(words) == WordPieces(words[..n]) + [Piece(words[n].text, words[n].quoted)];
    }
  }

  /** A query of several words, with one space between any two, is searched for by these words in order, and by
      those in quotes as they stand. */
  lemma WordsAreSearched(words: seq<Word>)
    requires |words| > 1 && forall i :: 0 <= i < |words| ==> Typeable(words[i].text)
    ensures Prepare(Sentence(words)).values == WordPieces(words)
  {
    hide Typeable, SplitAtSpaces, PieceOf, PiecesOf, Sentence;
    SplitSentence(words);
    PiecesOfWritings(words);
  }

  // ----- what makes no difference to a query -----

  /** Left out of a query are stars, ellipses, double quotes and white space, wherever they stand. */
  lemma DroppedMakeNoDifference(a: string, c: char, b: string)
    requires c in "*\U{2026}\" \t\n\r\U{A0}\U{3000}"
    ensures Normalized(a + [c] + b) == Normalized(a + b)
  {
    var x, y := G.ReplaceBackslashes(a), G.ReplaceBackslashes(b);
    OneDropped(c);
    hide Cleaned, Dropped, G.ReplaceBackslashes;
    G.ReplacedAppend(a + [c], b);
    G.ReplacedAppend(a, [c]);
    G.ReplacedAppend(a, b);
    CleanedAppend(x + [c], y);
    CleanedAppend(x, [c]);
    CleanedAppend(x, y);
    assert Cleaned(x) + "" == Cleaned(x);
  }

  lemma OneDropped(c: char)
    requires c in "*\U{2026}\" \t\n\r\U{A0}\U{3000}"
    ensures G.ReplaceBackslashes([c]) == [c] && Cleaned([c]) == ""
  {
    CleanedOne(c);
  }

  lemma CleanedOne(c: char)
    requires Dropped(c)
    ensures Cleaned([c]) == ""
  {
    assert [c][1..] == "";
    assert Cleaned([c]) == "" + Cleaned("");
  }

  /** And one hash at the end, unless it is all there is. */
  lemma HashAtEnd(text: string)
    ensures var rest := Cleaned(G.ReplaceBackslashes(text));
      Normalized(text + "#") == if rest == "" then "#" else rest
  {
    hide Cleaned;
    var rest := Cleaned(G.ReplaceBackslashes(text));
    G.ReplacedAppend(text, "#");
    assert G.ReplaceBackslashes("#") == "#";
    CleanedAppend(G.ReplaceBackslashes(text), "#");
    AllCleaned("#");
    assert (rest + "#")[..|rest|] == rest;
  }
}
