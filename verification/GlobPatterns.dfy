/** Glob patterns (packages/workspace-fs/src/search.ts): their normalization, their compilation to
    regular expressions, and what the compiled expressions match. Strings are sequences of characters,
    and paths have already had their backslashes turned into slashes where that matters. */
module GlobPatterns {
  import B = Bytes
  import opened Wrappers
  import opened Paths

  // ----- normalization -----

  function ReplaceBackslashes(s: string): (r: string)
    ensures |r| == |s|
    ensures forall i :: 0 <= i < |s| ==> r[i] == if s[i] == '\\' then '/' else s[i]
  {
    if s == "" then "" else [if s[0] == '\\' then '/' else s[0]] + ReplaceBackslashes(s[1..])
  }

  function NormalizePathForGlob(input: string): string {
    var slashed := ReplaceBackslashes(input);
    var undotted := if "./" <= slashed then slashed[2..] else slashed;
    if "/" <= undotted then undotted[1..] else undotted
  }

  function NormalizeGlobPattern(pattern: string): string {
    var normalized := NormalizePathForGlob(pattern);
    var below := if normalized != "" && normalized[|normalized| - 1] == '/' then normalized + "**" else normalized;
    if '/' in below then below else "**/" + below
  }

  // ----- regular expressions -----

  // The pieces of the expressions that patterns are compiled to.
  datatype Token =
    | Lit(c: char)   // the character
    | One            // [^/]
    | Star           // [^/]*
    | AnyStar        // .*
    | Dirs           // (?:.*/)?

  predicate IsLineTerminator(c: char) {
    c == '\n' || c == '\r' || c == '\U{2028}' || c == '\U{2029}'
  }

  predicate OneLine(s: string) {
    forall i :: 0 <= i < |s| ==> !IsLineTerminator(s[i])
  }

  // The whole of `s` matches `ts`; a dot matches anything but a line terminator.
  predicate Matches(ts: seq<Token>, s: string)
    decreases |ts|, |s|, 1
  {
    if ts == [] then s == ""
    else
      match ts[0]
      case Lit(c) => s != "" && s[0] == c && Matches(ts[1..], s[1..])
      case One => s != "" && s[0] != '/' && Matches(ts[1..], s[1..])
      case Star => Matches(ts[1..], s) || (s != "" && s[0] != '/' && Matches(ts, s[1..]))
      case AnyStar => Matches(ts[1..], s) || (s != "" && !IsLineTerminator(s[0]) && Matches(ts, s[1..]))
      case Dirs => Matches(ts[1..], s) || BelowDirs(ts[1..], s)
  }

  // `s` is `.*/` followed by a match of `rest`.
  predicate BelowDirs(rest: seq<Token>, s: string)
    decreases |rest| + 1, |s|, 0
  {
    s != "" &&
    ((s[0] == '/' && Matches(rest, s[1..])) || (!IsLineTerminator(s[0]) && BelowDirs(rest, s[1..])))
  }

  const SPECIAL := "\\^$.*+?()[]{}|"

  function EscapeRegexCharacter(c: char): string {
    if c in SPECIAL then ['\\', c] else [c]
  }

  function Emit(t: Token): (r: string)
    ensures r != "" && r[0] != '*'
  {
    match t
    case Lit(c) => if c == '/' then "\\/" else EscapeRegexCharacter(c)
    case One => "[^/]"
    case Star => "[^/]*"
    case AnyStar => ".*"
    case Dirs => "(?:.*/)?"
  }

  function EmitAll(ts: seq<Token>): string {
    if ts == [] then "" else Emit(ts[0]) + EmitAll(ts[1..])
  }

  // Reads one piece of an expression off the front of `text`, with what is left.
  function ReadToken(text: string): (r: Option<(Token, string)>)
    ensures r.Some? ==> |r.value.1| < |text|
  {
    if text == "" then None
    else if text[0] == '\\' then if |text| >= 2 then Some((Lit(text[1]), text[2..])) else None
    else if "[^/]*" <= text then Some((Star, text[5..]))
    else if "[^/]" <= text then Some((One, text[4..]))
    else if ".*" <= text then Some((AnyStar, text[2..]))
    else if "(?:.*/)?" <= text then Some((Dirs, text[8..]))
    else if text[0] in SPECIAL then None
    else Some((Lit(text[0]), text[1..]))
  }

  function ReadTokens(text: string): Option<seq<Token>>
    decreases |text|
  {
    if text == "" then Some([])
    else
      var one := ReadToken(text);
      if one.None? then None
      else
        var rest := ReadTokens(one.value.1);
        if rest.None? then None else Some([one.value.0] + rest.value)
  }

  // What a regular expression text denotes: an anchored sequence of pieces.
  function ReadRegExp(text: string): Option<seq<Token>> {
    if |text| >= 2 && text[0] == '^' && text[|text| - 1] == '$' then ReadTokens(text[1..|text| - 1]) else None
  }

  lemma ReadEmitted(t: Token, rest: string)
    requires rest == "" || rest[0] != '*'
    ensures ReadToken(Emit(t) + rest) == Some((t, rest))
  {
    var text := Emit(t) + rest;
    match t
    case Lit(c) =>
      if c == '/' || c in SPECIAL {
        assert text[0] == '\\' && text[1] == c && text[2..] == rest;
      } else {
        assert text[0] == c && text[1..] == rest;
        assert forall x :: x == '\\' || x == '[' || x == '.' || x == '(' ==> x in SPECIAL;
      }
    case One =>
      assert text[..4] == "[^/]" && text[4..] == rest;
      assert rest != "" ==> text[4] == rest[0];
    case Star => assert text[5..] == rest;
    case AnyStar => assert text[2..] == rest;
    case Dirs => assert text[8..] == rest;
  }

  /** Escaping is sufficient: the emitted text reads back as the pieces it was emitted for. */
  lemma {:induction false} EmittedReadsBack(ts: seq<Token>)
    ensures ReadTokens(EmitAll(ts)) == Some(ts)
    ensures EmitAll(ts) == "" || EmitAll(ts)[0] != '*'
  {
    hide ReadToken, Emit;
    if ts == [] {
    } else {
      EmittedReadsBack(ts[1..]);
      ReadEmitted(ts[0], EmitAll(ts[1..]));
      assert [ts[0]] + ts[1..] == ts;
    }
  }

  // ----- compilation -----

  function Tokens(p: string): seq<Token>
    decreases |p|
  {
    if p == "" then []
    else if p[0] == '*' then
      if |p| > 1 && p[1] == '*' then
        if |p| > 2 && p[2] == '/' then [Dirs] + Tokens(p[3..]) else [AnyStar] + Tokens(p[2..])
      else [Star] + Tokens(p[1..])
    else if p[0] == '?' then [One] + Tokens(p[1..])
    else [Lit(p[0])] + Tokens(p[1..])
  }

  method GlobToRegExp(pattern: string) returns (regex: string)
    ensures ReadRegExp(regex) == Some(Tokens(NormalizeGlobPattern(pattern)))
  {
    hide Emit, NormalizeGlobPattern, EscapeRegexCharacter;
    var p := NormalizeGlobPattern(pattern);
    regex := "^";
    var index := 0;
    assert p[0..] == p;
    ghost var whole := EmitAll(Tokens(p));
    while index < |p|
      invariant index <= |p|
      invariant regex != "" && regex[0] == '^'
      invariant "^" + whole == regex + EmitAll(Tokens(p[index..]))
      decreases |p| - index
    {
      var c := p[index];
      ghost var token, next := EmitStep(p, index);
      if c == '*' {
        if index + 1 < |p| && p[index + 1] == '*' {
          if index + 2 < |p| && p[index + 2] == '/' {
            regex := regex + "(?:.*/)?";
            index := index + 3;
          } else {
            regex := regex + ".*";
            index := index + 2;
          }
          continue;
        }
        regex := regex + "[^/]*";
        index := index + 1;
        continue;
      }
      if c == '?' {
        regex := regex + "[^/]";
        index := index + 1;
        continue;
      }
      if c == '/' {
        regex := regex + "\\/";
        index := index + 1;
        continue;
      }
      regex := regex + EscapeRegexCharacter(c);
      index := index + 1;
    }
    assert p[index..] == "";
    assert regex + "" == regex;
    regex := regex + "$";
    assert regex[1..|regex| - 1] == whole;
    EmittedReadsBack(Tokens(p));
  }

  // One step of the compiler: the piece it emits, its text, and where it goes on.
  lemma EmitStep(p: string, index: nat) returns (token: Token, next: nat)
    requires index < |p|
    ensures index < next <= |p|
    ensures EmitAll(Tokens(p[index..])) == Emit(token) + EmitAll(Tokens(p[next..]))
    ensures (token, next) ==
            if p[index] == '*' then
              if index + 1 < |p| && p[index + 1] == '*' then
                if index + 2 < |p| && p[index + 2] == '/' then (Dirs, index + 3) else (AnyStar, index + 2)
              else (Star, index + 1)
            else if p[index] == '?' then (One, index + 1)
            else (Lit(p[index]), index + 1)
    ensures Emit(token) == match token
              case Lit(c) => (if c == '/' then "\\/" else EscapeRegexCharacter(c))
              case One => "[^/]"
              case Star => "[^/]*"
              case AnyStar => ".*"
              case Dirs => "(?:.*/)?"
    ensures forall regex: string :: (regex + Emit(token)) + EmitAll(Tokens(p[next..])) == regex + EmitAll(Tokens(p[index..]))
  {
    var rest := p[index..];
    if p[index] == '*' {
      if index + 1 < |p| && p[index + 1] == '*' {
        if index + 2 < |p| && p[index + 2] == '/' {
          token, next := Dirs, index + 3;
        } else {
          token, next := AnyStar, index + 2;
        }
      } else {
        token, next := Star, index + 1;
      }
    } else if p[index] == '?' {
      token, next := One, index + 1;
    } else {
      token, next := Lit(p[index]), index + 1;
    }
    assert rest[next - index..] == p[next..];
    assert Tokens(rest) == [token] + Tokens(p[next..]);
    assert Tokens(rest)[1..] == Tokens(p[next..]);
    hide Tokens;
    forall regex: string
      ensures (regex + Emit(token)) + EmitAll(Tokens(p[next..])) == regex + EmitAll(Tokens(p[index..]))
    {
      hide Emit, EscapeRegexCharacter, EmitAll;
      B.ConcatAssociates(regex, Emit(token), EmitAll(Tokens(p[next..])));
    }
  }

  // ----- the meaning of a pattern, segment by segment -----

  // Within a segment `*` stands for any characters and `?` for one.
  predicate Wild(p: string, s: string)
    decreases |p|, |s|
  {
    if p == "" then s == ""
    else if p[0] == '*' then Wild(p[1..], s) || (s != "" && Wild(p, s[1..]))
    else s != "" && (p[0] == '?' || p[0] == s[0]) && Wild(p[1..], s[1..])
  }

  ghost predicate AllOneLine(ss: seq<string>) {
    forall i :: 0 <= i < |ss| ==> OneLine(ss[i])
  }

  // A segment `**` stands for any number of segments on one line, at the end of a pattern for at least one.
  ghost predicate SegmentsMatch(ps: seq<string>, ss: seq<string>)
    decreases |ps|, |ss|
  {
    if ps == [] then ss == []
    else if ps[0] == "**" then
      if |ps| == 1 then ss != [] && AllOneLine(ss)
      else SegmentsMatch(ps[1..], ss) || (ss != [] && OneLine(ss[0]) && SegmentsMatch(ps, ss[1..]))
    else ss != [] && Wild(ps[0], ss[0]) && SegmentsMatch(ps[1..], ss[1..])
  }

  predicate HasDoubleStar(w: string) {
    |w| >= 2 && ((w[0] == '*' && w[1] == '*') || HasDoubleStar(w[1..]))
  }

  // Two stars only occur as a segment of their own.
  ghost predicate WholeStars(ps: seq<string>) {
    forall i :: 0 <= i < |ps| ==> ps[i] == "**" || !HasDoubleStar(ps[i])
  }

  // ----- the compiled expression means what the pattern means -----

  function SegmentTokens(ps: seq<string>): seq<Token> {
    if ps == [] then []
    else if ps[0] == "**" then if |ps| == 1 then [AnyStar] else [Dirs] + SegmentTokens(ps[1..])
    else Tokens(ps[0]) + (if |ps| == 1 then [] else [Lit('/')] + SegmentTokens(ps[1..]))
  }

  function Single(c: char): Token {
    if c == '*' then Star else if c == '?' then One else Lit(c)
  }

  lemma TokensCons(p: string)
    requires p != "" && !(|p| > 1 && p[0] == '*' && p[1] == '*')
    ensures Tokens(p) == [Single(p[0])] + Tokens(p[1..])
  {
  }

  lemma {:induction false} TokensOfSegment(w: string, more: string)
    requires '/' !in w && !HasDoubleStar(w)
    ensures Tokens(w + "/" + more) == Tokens(w) + ([Lit('/')] + Tokens(more))
    decreases |w|
  {
    hide Tokens;
    var p := w + "/" + more;
    TokensCons(p) by {
      assert |w| > 1 ==> p[1] == w[1];
    }
    if w == "" {
      assert p[1..] == more;
      assert Tokens("") == [] by { NoTokens(); }
    } else {
      assert p[1..] == w[1..] + "/" + more;
      TokensCons(w);
      TokensOfSegment(w[1..], more);
    }
  }

  lemma NoTokens()
    ensures Tokens("") == []
  {
  }

  lemma {:induction false} TokensOfPattern(p: string)
    requires WholeStars(Split(p))
    ensures Tokens(p) == SegmentTokens(Split(p))
    decreases |p|
  {
    var k := FirstSlash(p);
    var ps := Split(p);
    if k == |p| {
      if p == "**" {
        assert Tokens(p) == [AnyStar] + Tokens(p[2..]);
      } else {
        assert Tokens(p) + [] == Tokens(p);
      }
    } else {
      var w, more := p[..k], p[k + 1..];
      assert p == w + "/" + more;
      assert ps[0] == w && ps[1..] == Split(more);
      assert WholeStars(Split(more)) by {
        assert forall i :: 0 <= i < |Split(more)| ==> Split(more)[i] == ps[i + 1];
      }
      TokensOfPattern(more);
      if w == "**" {
        assert p[0] == '*' && p[1] == '*' && p[2] == '/' && p[3..] == more;
      } else {
        TokensOfSegment(w, more);
      }
    }
  }

  lemma {:induction false} SegmentMeaning(w: string, s: string)
    requires '/' !in w && !HasDoubleStar(w)
    ensures Matches(Tokens(w), s) <==> '/' !in s && Wild(w, s)
    decreases |w|, |s|
  {
    if w == "" {
    } else {
      SegmentMeaning(w[1..], s);
      assert s != "" ==> s == [s[0]] + s[1..];
      if s != "" {
        SegmentMeaning(w[1..], s[1..]);
        if w[0] == '*' {
          SegmentMeaning(w, s[1..]);
        }
      }
    }
  }

  lemma FirstSlashTail(s: string)
    requires s != "" && s[0] != '/'
    ensures FirstSlash(s) == 1 + FirstSlash(s[1..])
    ensures var k := FirstSlash(s);
      s[..k] != "" && s[..k][0] == s[0] && s[..k][1..] == s[1..][..k - 1] && (k < |s| ==> s[k + 1..] == s[1..][k..])
  {
  }

  lemma {:induction false} SegmentThenMeaning(w: string, rest: seq<Token>, s: string)
    requires '/' !in w && !HasDoubleStar(w)
    ensures var k := FirstSlash(s);
      Matches(Tokens(w) + ([Lit('/')] + rest), s) <==> k < |s| && Wild(w, s[..k]) && Matches(rest, s[k + 1..])
    decreases |w|, |s|
  {
    var k := FirstSlash(s);
    var end := [Lit('/')] + rest;
    assert end[1..] == rest;
    if w == "" {
      assert Tokens(w) + end == end;
    } else {
      TokensCons(w);
      assert (Tokens(w) + end)[0] == Single(w[0]) && (Tokens(w) + end)[1..] == Tokens(w[1..]) + end;
      SegmentThenMeaning(w[1..], rest, s);
      if s != "" && s[0] != '/' {
        FirstSlashTail(s);
        SegmentThenMeaning(w[1..], rest, s[1..]);
        if w[0] == '*' {
          SegmentThenMeaning(w, rest, s[1..]);
        }
      }
    }
  }

  lemma {:induction false} BelowDirsMeaning(rest: seq<Token>, s: string)
    ensures var k := FirstSlash(s);
      BelowDirs(rest, s) <==> k < |s| && OneLine(s[..k]) && (Matches(rest, s[k + 1..]) || BelowDirs(rest, s[k + 1..]))
    decreases |s|
  {
    if s == "" || s[0] == '/' {
    } else {
      FirstSlashTail(s);
      BelowDirsMeaning(rest, s[1..]);
      OneLineTail(s[..FirstSlash(s)]);
    }
  }

  lemma OneLineTail(s: string)
    requires s != ""
    ensures OneLine(s) <==> !IsLineTerminator(s[0]) && OneLine(s[1..])
  {
    assert s == [s[0]] + s[1..];
  }

  lemma {:induction false} AnyStarMeaning(s: string)
    ensures Matches([AnyStar], s) <==> OneLine(s)
    decreases |s|
  {
    var ts := [AnyStar];
    assert ts[1..] == [];
    if s == "" {
    } else {
      OneLineTail(s);
      AnyStarMeaning(s[1..]);
    }
  }

  // A text is on one line when its segments are.
  lemma {:induction false} OneLineSegments(s: string)
    ensures OneLine(s) <==> AllOneLine(Split(s))
    decreases |s|
  {
    var k := FirstSlash(s);
    if k == |s| {
      assert Split(s) == [s] + [];
      FirstOneLine(s, []);
    } else {
      OneLineSegments(s[k + 1..]);
      assert s == s[..k] + ['/'] + s[k + 1..];
      assert Split(s) == [s[..k]] + Split(s[k + 1..]);
      FirstOneLine(s[..k], Split(s[k + 1..]));
      SplitOneLine(s[..k], s[k + 1..]);
    }
  }

  lemma FirstOneLine(first: string, rest: seq<string>)
    ensures AllOneLine([first] + rest) <==> OneLine(first) && AllOneLine(rest)
  {
    var all := [first] + rest;
    assert all[0] == first && forall i :: 0 <= i < |rest| ==> all[i + 1] == rest[i];
  }

  lemma SplitOneLine(a: string, b: string)
    ensures OneLine(a + ['/'] + b) <==> OneLine(a) && OneLine(b)
  {
    var s := a + ['/'] + b;
    assert forall i :: 0 <= i < |a| ==> s[i] == a[i];
    assert forall i :: 0 <= i < |b| ==> s[|a| + 1 + i] == b[i];
    assert s[|a|] == '/';
  }

  lemma {:induction false} SomethingLeft(ps: seq<string>)
    requires ps != []
    ensures !SegmentsMatch(ps, [])
  {
    if ps[0] == "**" && |ps| > 1 {
      SomethingLeft(ps[1..]);
    }
  }

  // The compiled segments match the text exactly when the segments match its segments.
  ghost predicate Agree(ps: seq<string>, s: string) {
    Matches(SegmentTokens(ps), s) <==> SegmentsMatch(ps, Split(s))
  }

  lemma LastAgrees(ps: seq<string>, s: string)
    requires |ps| == 1 && WholeStars(ps) && SlashFree(ps)
    ensures Agree(ps, s)
  {
    var k := FirstSlash(s);
    if ps[0] == "**" {
      hide Wild, Matches, Split;
      AnyStarMeaning(s);
      OneLineSegments(s);
    } else {
      SegmentMeaning(ps[0], s);
      hide Wild, Tokens, Matches;
      assert Tokens(ps[0]) + [] == Tokens(ps[0]);
      assert SegmentTokens(ps) == Tokens(ps[0]);
      assert ps[1..] == [];
      if k < |s| {
        assert s[k] in s;
        assert Split(s)[1..] == Split(s[k + 1..]);
        assert !SegmentsMatch([], Split(s[k + 1..]));
      } else {
        assert Split(s) == [s] && [s][1..] == [];
        assert SegmentsMatch([], []);
      }
    }
  }

  // A first segment before others.
  lemma ConsTokens(w: string, rest: seq<string>)
    requires rest != []
    ensures SegmentTokens([w] + rest) ==
            if w == "**" then [Dirs] + SegmentTokens(rest) else Tokens(w) + ([Lit('/')] + SegmentTokens(rest))
  {
    hide Tokens;
    assert ([w] + rest)[1..] == rest;
  }

  lemma ConsMatches(w: string, rest: seq<string>, head: string, ss: seq<string>)
    requires rest != []
    ensures SegmentsMatch([w] + rest, [head] + ss) <==>
            if w == "**" then SegmentsMatch(rest, [head] + ss) || (OneLine(head) && SegmentsMatch([w] + rest, ss))
            else Wild(w, head) && SegmentsMatch(rest, ss)
  {
    hide Wild, OneLine, AllOneLine;
    assert ([w] + rest)[1..] == rest && ([head] + ss)[1..] == ss;
  }

  lemma DirsMatch(rest: seq<Token>, s: string)
    ensures Matches([Dirs] + rest, s) <==> Matches(rest, s) || BelowDirs(rest, s)
  {
    assert ([Dirs] + rest)[1..] == rest;
    hide BelowDirs;
  }

  // A text is a segment, or a segment, a slash and a text.
  lemma AtSlash(head: string, more: string)
    requires '/' !in head
    ensures var s, k := head + "/" + more, |head|;
      Split(s) == [head] + Split(more) && FirstSlash(s) == k < |s| && s[..k] == head && s[k + 1..] == more
  {
    SplitAtSlash(head, more);
    hide Split;
    var s := head + "/" + more;
    assert forall i :: 0 <= i < |head| ==> s[i] == head[i];
    FirstSlashAt(s, |head|);
  }

  lemma WithoutSlash(s: string)
    requires '/' !in s
    ensures Split(s) == [s] + [] && FirstSlash(s) == |s|
  {
    SplitNoSlash(s);
    hide Split;
    FirstSlashAt(s, |s|);
  }

  lemma StarsBeforeSlash(rest: seq<string>, head: string, more: string)
    requires rest != [] && '/' !in head && Agree(rest, head + "/" + more) && Agree(["**"] + rest, more)
    ensures Agree(["**"] + rest, head + "/" + more)
  {
    hide Wild, Tokens, Split, FirstSlash, SegmentsMatch, SegmentTokens, Matches, BelowDirs, OneLine;
    var ts := SegmentTokens(rest);
    AtSlash(head, more);
    ConsTokens("**", rest);
    ConsMatches("**", rest, head, Split(more));
    DirsMatch(ts, head + "/" + more);
    DirsMatch(ts, more);
    BelowDirsMeaning(ts, head + "/" + more);
  }

  lemma StarsAtEnd(rest: seq<string>, s: string)
    requires rest != [] && '/' !in s && Agree(rest, s)
    ensures Agree(["**"] + rest, s)
  {
    hide Wild, Tokens, Split, FirstSlash, SegmentsMatch, SegmentTokens, Matches, BelowDirs, OneLine;
    WithoutSlash(s);
    ConsTokens("**", rest);
    ConsMatches("**", rest, s, []);
    DirsMatch(SegmentTokens(rest), s);
    BelowDirsMeaning(SegmentTokens(rest), s);
    SomethingLeft(["**"] + rest);
  }

  lemma SegmentBeforeSlash(w: string, rest: seq<string>, head: string, more: string)
    requires w != "**" && '/' !in w && !HasDoubleStar(w) && rest != [] && '/' !in head && Agree(rest, more)
    ensures Agree([w] + rest, head + "/" + more)
  {
    hide Wild, Tokens, Split, FirstSlash, SegmentsMatch, SegmentTokens, Matches, HasDoubleStar;
    AtSlash(head, more);
    ConsTokens(w, rest);
    ConsMatches(w, rest, head, Split(more));
    SegmentThenMeaning(w, SegmentTokens(rest), head + "/" + more);
  }

  lemma SegmentAtEnd(w: string, rest: seq<string>, s: string)
    requires w != "**" && '/' !in w && !HasDoubleStar(w) && rest != [] && '/' !in s
    ensures Agree([w] + rest, s)
  {
    hide Wild, Tokens, Split, FirstSlash, SegmentsMatch, SegmentTokens, Matches, HasDoubleStar;
    WithoutSlash(s);
    ConsTokens(w, rest);
    ConsMatches(w, rest, s, []);
    SegmentThenMeaning(w, SegmentTokens(rest), s);
    SomethingLeft(rest);
  }

  lemma {:induction false} SegmentsMeaning(ps: seq<string>, s: string)
    requires ps != [] && WholeStars(ps) && SlashFree(ps)
    ensures Agree(ps, s)
    decreases |ps|, |s|
  {
    hide Agree, HasDoubleStar, FirstSlash;
    var k := FirstSlash(s);
    if |ps| == 1 {
      LastAgrees(ps, s);
    } else {
      var w, rest := ps[0], ps[1..];
      assert ps == [w] + rest;
      if w == "**" {
        SegmentsMeaning(rest, s);
      }
      if k < |s| {
        var head, more := s[..k], s[k + 1..];
        assert s == head + "/" + more;
        if w == "**" {
          SegmentsMeaning(ps, more);
          StarsBeforeSlash(rest, head, more);
        } else {
          SegmentsMeaning(rest, more);
          SegmentBeforeSlash(w, rest, head, more);
        }
      } else if w == "**" {
        StarsAtEnd(rest, s);
      } else {
        SegmentAtEnd(w, rest, s);
      }
    }
  }

  /** The compiler preserves meaning: for a pattern in which two stars stand alone in their segment the
      compiled expression matches a path if and only if the segments of the pattern match the segments of
      the path. */
  lemma CompiledMeaning(p: string, path: string)
    requires WholeStars(Split(p))
    ensures Matches(Tokens(p), path) <==> SegmentsMatch(Split(p), Split(path))
  {
    TokensOfPattern(p);
    SegmentsHaveNoSlash(p);
    SegmentsMeaning(Split(p), path);
  }

  // ----- patterns of practical shapes -----

  predicate Plain(w: string) {
    forall i :: 0 <= i < |w| ==> w[i] != '*' && w[i] != '?' && w[i] != '/' && w[i] != '\\'
  }

  lemma {:induction false} PlainHasNoStars(w: string)
    requires forall i :: 0 <= i < |w| ==> w[i] != '*'
    ensures !HasDoubleStar(w)
  {
    if |w| >= 2 {
      PlainHasNoStars(w[1..]);
    }
  }

  lemma {:induction false} WildPlain(w: string, s: string)
    requires Plain(w)
    ensures Wild(w, s) <==> s == w
    decreases |w|
  {
    if w != "" && s != "" {
      WildPlain(w[1..], s[1..]);
      assert w == [w[0]] + w[1..] && s == [s[0]] + s[1..];
    }
  }

  predicate EndsWith(s: string, suffix: string) {
    |s| >= |suffix| && s[|s| - |suffix|..] == suffix
  }

  lemma {:induction false} WildSuffix(suffix: string, s: string)
    requires Plain(suffix)
    ensures Wild("*" + suffix, s) <==> EndsWith(s, suffix)
    decreases |s|
  {
    var p := "*" + suffix;
    assert p[1..] == suffix;
    WildPlain(suffix, s);
    if s == "" {
    } else {
      WildSuffix(suffix, s[1..]);
      assert |s| > |suffix| ==> s[|s| - |suffix|..] == s[1..][|s[1..]| - |suffix|..];
    }
  }

  lemma {:induction false} NameAnywhere(name: string, ss: seq<string>)
    requires Plain(name) && OneLine(name)
    ensures SegmentsMatch(["**", name, "**"], ss) <==> AllOneLine(ss) && exists i :: 0 <= i < |ss| - 1 && ss[i] == name
    decreases |ss|
  {
    var ps := ["**", name, "**"];
    assert ps[1..] == [name, "**"] && [name, "**"][1..] == ["**"];
    if ss == [] {
      SomethingLeft(ps);
    } else {
      assert name != "**" by {
        assert name != "" ==> name[0] != '*';
      }
      WildPlain(name, ss[0]);
      NameAnywhere(name, ss[1..]);
      assert ss == [ss[0]] + ss[1..];
      FirstOneLine(ss[0], ss[1..]);
      hide Wild, Plain, OneLine, AllOneLine;
      assert SegmentsMatch(["**"], ss[1..]) <==> |ss| > 1 && AllOneLine(ss[1..]) by { LastStars(ss[1..]); }
      if i :| 0 <= i < |ss| - 1 && ss[i] == name {
        assert i > 0 ==> ss[1..][i - 1] == name;
      }
      if i :| 0 <= i < |ss[1..]| - 1 && ss[1..][i] == name {
        assert ss[i + 1] == name;
      }
    }
  }

  lemma LastStars(ss: seq<string>)
    ensures SegmentsMatch(["**"], ss) <==> ss != [] && AllOneLine(ss)
  {
  }

  lemma {:induction false} LastSegment(w: string, ss: seq<string>)
    requires w != "**"
    ensures SegmentsMatch(["**", w], ss) <==>
            ss != [] && AllOneLine(ss[..|ss| - 1]) && Wild(w, ss[|ss| - 1])
    decreases |ss|
  {
    hide Wild, OneLine;
    var ps := ["**", w];
    assert ps[1..] == [w] && [w][1..] == [];
    if ss == [] {
      SomethingLeft(ps);
    } else {
      LastSegment(w, ss[1..]);
      assert SegmentsMatch([w], ss) <==> |ss| == 1 && Wild(w, ss[0]);
      SomethingLeft(ps);
      if |ss| > 1 {
        assert ss[1..][|ss[1..]| - 1] == ss[|ss| - 1];
        assert ss[..|ss| - 1] == [ss[0]] + ss[1..][..|ss| - 2];
        FirstOneLine(ss[0], ss[1..][..|ss| - 2]);
      }
    }
  }

  lemma {:induction false} NoBackslashes(s: string)
    requires NoBackslash(s)
    ensures ReplaceBackslashes(s) == s
  {
    if s == "" {
    } else {
      NoBackslashes(s[1..]);
    }
  }

  lemma ReplacedAppend(a: string, b: string)
    ensures ReplaceBackslashes(a + b) == ReplaceBackslashes(a) + ReplaceBackslashes(b)
  {
    hide ReplaceBackslashes;
  }

  lemma NormalizedAlready(pattern: string)
    requires NoBackslash(pattern) && pattern != "" && pattern[0] != '/' && pattern[0] != '.'
    requires '/' in pattern && pattern[|pattern| - 1] != '/'
    ensures NormalizeGlobPattern(pattern) == pattern
  {
    hide NormalizePathForGlob;
    PathNormalizedAlready(pattern);
  }

  lemma PathNormalizedAlready(path: string)
    requires NoBackslash(path) && path != "" && path[0] != '/' && path[0] != '.'
    ensures NormalizePathForGlob(path) == path
  {
    NoBackslashes(path);
    hide ReplaceBackslashes;
  }

  lemma SlashlessNormalized(pattern: string)
    requires forall i :: 0 <= i < |pattern| ==> pattern[i] != '/' && pattern[i] != '\\'
    ensures NormalizeGlobPattern(pattern) == "**" + "/" + pattern
  {
    NoBackslashes(pattern);
    assert "**/" + pattern == "**" + "/" + pattern;
    assert '/' !in pattern;
  }

  /** A pattern without a slash selects by the last segment alone, among the files in directories whose
      path is on one line. */
  lemma SlashlessMeaning(pattern: string, path: string)
    requires forall i :: 0 <= i < |pattern| ==> pattern[i] != '/' && pattern[i] != '\\'
    requires pattern != "**" && !HasDoubleStar(pattern)
    ensures var ss := Split(path);
      Matches(Tokens(NormalizeGlobPattern(pattern)), path) <==> AllOneLine(ss[..|ss| - 1]) && Wild(pattern, ss[|ss| - 1])
  {
    hide AllOneLine, Matches, Tokens, Wild, SegmentsMatch, Split, HasDoubleStar, NormalizeGlobPattern;
    SlashlessNormalized(pattern);
    SplitAtSlash("**", pattern);
    SplitNoSlash(pattern);
    assert ["**"] + [pattern] == ["**", pattern];
    CompiledMeaning("**" + "/" + pattern, path);
    LastSegment(pattern, Split(path));
  }

  // ----- what a pattern stands for as it is given -----

  // The segments of a pattern: a dot and a slash at the start are dropped, a slash at the end stands for everything
  // below, and a pattern of one segment for that segment anywhere.
  function PatternSegments(pattern: string): seq<string> {
    var all := Split(ReplaceBackslashes(pattern));
    var undotted := if |all| > 1 && all[0] == "." then all[1..] else all;
    var relative := if |undotted| > 1 && undotted[0] == "" then undotted[1..] else undotted;
    var n := |relative| - 1;
    if n == 0 then ["**", relative[0]]
    else if relative[n] == "" then relative[..n] + ["**"]
    else relative
  }

  lemma PathSegments(path: string)
    ensures var all := Split(ReplaceBackslashes(path));
      var undotted := if |all| > 1 && all[0] == "." then all[1..] else all;
      Split(NormalizePathForGlob(path)) == if |undotted| > 1 && undotted[0] == "" then undotted[1..] else undotted
  {
    hide Split, ReplaceBackslashes;
    var slashed := ReplaceBackslashes(path);
    FirstOfSplit(slashed, ".");
    FirstOfSplit(if "./" <= slashed then slashed[2..] else slashed, "");
    assert "." + "/" == "./" && "" + "/" == "/";
  }

  lemma BelowSegments(normalized: string)
    ensures var segments := Split(normalized);
      var n := |segments| - 1;
      Split(if normalized != "" && normalized[|normalized| - 1] == '/' then normalized + "**" else normalized) ==
      if n > 0 && segments[n] == "" then segments[..n] + ["**"] else segments
  {
    hide Split;
    if normalized == "" {
      SplitNoSlash("");
    } else if normalized[|normalized| - 1] == '/' {
      assert normalized == normalized[..|normalized| - 1] + "/";
      StarsAfterSlash(normalized[..|normalized| - 1]);
    } else {
      LastOfSplit(normalized);
    }
  }

  lemma StarsAfterSlash(front: string)
    ensures var segments := Split(front + "/");
      var n := |segments| - 1;
      n > 0 && segments[n] == "" && Split(front + "/" + "**") == segments[..n] + ["**"]
  {
    hide Split;
    SplitAppend(front, "");
    SplitAppend(front, "**");
    SplitNoSlash("");
    SplitNoSlash("**");
    assert front + "/" + "" == front + "/";
    assert (Split(front) + [""])[..|Split(front)|] == Split(front);
  }

  lemma NormalizedSegments(pattern: string)
    ensures Split(NormalizeGlobPattern(pattern)) == PatternSegments(pattern)
  {
    hide Split, NormalizePathForGlob, ReplaceBackslashes;
    var normalized := NormalizePathForGlob(pattern);
    var below := if normalized != "" && normalized[|normalized| - 1] == '/' then normalized + "**" else normalized;
    PathSegments(pattern);
    BelowSegments(normalized);
    HasSlash(below);
    if '/' !in below {
      assert "**/" + below == "**" + "/" + below;
      SplitAtSlash("**", below);
      SplitNoSlash(below);
    }
  }

  /** What a pattern selects as it is given, backslashes, leading dots and slashes and a slash at the end included: the
      paths that its segments match. */
  lemma PatternMeaning(pattern: string, path: string)
    requires WholeStars(PatternSegments(pattern))
    ensures Matches(Tokens(NormalizeGlobPattern(pattern)), path) <==> SegmentsMatch(PatternSegments(pattern), Split(path))
  {
    hide Split, Matches, Tokens, SegmentsMatch, NormalizeGlobPattern, PatternSegments;
    NormalizedSegments(pattern);
    CompiledMeaning(NormalizeGlobPattern(pattern), path);
  }

  // ----- the default ignore patterns -----

  const IGNORED_DIRECTORIES: seq<string> := [
    "node_modules", ".git", "dist", "build", ".next", ".turbo", "coverage", ".cache", ".parcel-cache",
    ".vite", ".svelte-kit", ".vercel", "target", "out"
  ]
  const IGNORED_SUFFIX := ".tsbuildinfo"

  function DirectoryPattern(name: string): string {
    "**/" + name + "/**"
  }

  function SuffixPattern(suffix: string): string {
    "**/*" + suffix
  }

  function PatternsFor(names: seq<string>, suffix: string): seq<string> {
    seq(|names|, i requires 0 <= i < |names| => DirectoryPattern(names[i])) + [SuffixPattern(suffix)]
  }

  function DefaultIgnorePatterns(): seq<string> {
    PatternsFor(IGNORED_DIRECTORIES, IGNORED_SUFFIX)
  }

  predicate Ignores(pattern: string, path: string) {
    Matches(Tokens(NormalizeGlobPattern(pattern)), path)
  }

  lemma DirectoryPatternNormalized(name: string)
    requires Plain(name)
    ensures NormalizeGlobPattern(DirectoryPattern(name)) == "**" + "/" + (name + "/" + "**")
  {
    var p := DirectoryPattern(name);
    assert p == "**" + "/" + (name + "/" + "**");
    assert forall i :: 0 <= i < |p| ==> p[i] != '\\';
    assert p[2] == '/' && p[0] == '*' && p[|p| - 1] == '*';
    NormalizedAlready(p);
  }

  // Some segment before the last is the name.
  ghost predicate IsBelow(name: string, ss: seq<string>) {
    exists i :: 0 <= i < |ss| - 1 && ss[i] == name
  }

  lemma DirectoryPatternMeaning(name: string, path: string)
    requires Plain(name) && OneLine(name)
    ensures Ignores(DirectoryPattern(name), path) <==>
            AllOneLine(Split(path)) && IsBelow(name, Split(path))
  {
    hide Matches, Tokens, SegmentsMatch, Split;
    DirectoryPatternNormalized(name);
    SplitAtSlash("**", name + "/" + "**");
    SplitAtSlash(name, "**");
    SplitNoSlash("**");
    PlainHasNoStars(name);
    assert ["**"] + ([name] + ["**"]) == ["**", name, "**"];
    CompiledMeaning("**" + "/" + (name + "/" + "**"), path);
    NameAnywhere(name, Split(path));
  }

  lemma SuffixPatternNormalized(suffix: string)
    requires Plain(suffix)
    ensures NormalizeGlobPattern(SuffixPattern(suffix)) == "**" + "/" + ("*" + suffix)
    ensures !HasDoubleStar("*" + suffix) && '/' !in "*" + suffix && "*" + suffix != "**"
  {
    var w, p := "*" + suffix, SuffixPattern(suffix);
    assert p == "**" + "/" + w;
    assert forall i :: 0 <= i < |p| ==> p[i] != '\\';
    assert p[2] == '/' && p[0] == '*' && p[|p| - 1] != '/';
    NormalizedAlready(p);
    PlainHasNoStars(suffix);
    assert w[1..] == suffix && (|w| > 1 ==> w[1] == suffix[0]);
  }

  lemma SuffixPatternMeaning(suffix: string, path: string)
    requires Plain(suffix)
    ensures var ss := Split(path);
      Ignores(SuffixPattern(suffix), path) <==> AllOneLine(ss[..|ss| - 1]) && EndsWith(ss[|ss| - 1], suffix)
  {
    hide AllOneLine, Matches, Tokens, SegmentsMatch, Split, Wild, HasDoubleStar, EndsWith, Plain;
    var w := "*" + suffix;
    SuffixPatternNormalized(suffix);
    SplitAtSlash("**", w);
    SplitNoSlash(w);
    assert ["**"] + [w] == ["**", w];
    CompiledMeaning("**" + "/" + w, path);
    LastSegment(w, Split(path));
    WildSuffix(suffix, Split(path)[|Split(path)| - 1]);
  }

  // Small letters, dots, dashes and underscores.
  predicate Ordinary(w: string) {
    forall i :: 0 <= i < |w| ==> 'a' <= w[i] <= 'z' || w[i] == '.' || w[i] == '-' || w[i] == '_'
  }

  lemma OrdinaryIsPlain(w: string)
    requires Ordinary(w)
    ensures Plain(w) && OneLine(w)
  {
  }

  lemma FirstNamesAreOrdinary()
    ensures forall i :: 0 <= i < 7 ==> Ordinary(IGNORED_DIRECTORIES[i])
  {
  }

  lemma LastNamesAreOrdinary()
    ensures forall i :: 7 <= i < |IGNORED_DIRECTORIES| ==> Ordinary(IGNORED_DIRECTORIES[i])
    ensures Ordinary(IGNORED_SUFFIX)
  {
  }

  lemma IgnoredNamesArePlain()
    ensures forall i :: 0 <= i < |IGNORED_DIRECTORIES| ==> Plain(IGNORED_DIRECTORIES[i]) && OneLine(IGNORED_DIRECTORIES[i])
    ensures Plain(IGNORED_SUFFIX)
  {
    hide Ordinary, Plain, OneLine, IGNORED_DIRECTORIES, IGNORED_SUFFIX;
    FirstNamesAreOrdinary();
    LastNamesAreOrdinary();
    OrdinaryIsPlain(IGNORED_SUFFIX);
    forall i | 0 <= i < |IGNORED_DIRECTORIES|
      ensures Plain(IGNORED_DIRECTORIES[i]) && OneLine(IGNORED_DIRECTORIES[i])
    {
      OrdinaryIsPlain(IGNORED_DIRECTORIES[i]);
    }
  }

  // `matchers.some((matcher) => matcher.test(path))`
  predicate AnyIgnores(patterns: seq<string>, path: string) {
    patterns != [] && (Ignores(patterns[0], path) || AnyIgnores(patterns[1..], path))
  }

  predicate IgnoredByDefault(path: string) {
    AnyIgnores(DefaultIgnorePatterns(), path)
  }

  lemma {:induction false} AnyIgnoresSome(patterns: seq<string>, path: string)
    ensures AnyIgnores(patterns, path) <==> exists i :: 0 <= i < |patterns| && Ignores(patterns[i], path)
  {
    hide Ignores;
    if patterns == [] {
    } else {
      AnyIgnoresSome(patterns[1..], path);
      assert forall i :: 0 < i < |patterns| ==> patterns[i] == patterns[1..][i - 1];
    }
  }

  lemma AnyDirectoryPattern(names: seq<string>, path: string)
    requires forall i :: 0 <= i < |names| ==> Plain(names[i]) && OneLine(names[i])
    ensures (exists i :: 0 <= i < |names| && Ignores(DirectoryPattern(names[i]), path)) <==>
            AllOneLine(Split(path)) && (exists k :: 0 <= k < |Split(path)| - 1 && Split(path)[k] in names)
  {
    var ss := Split(path);
    hide Ignores, Split, DirectoryPattern, AllOneLine;
    forall i | 0 <= i < |names|
      ensures Ignores(DirectoryPattern(names[i]), path) <==> AllOneLine(ss) && IsBelow(names[i], ss)
    {
      DirectoryPatternMeaning(names[i], path);
    }
    hide Plain;
    if k :| AllOneLine(ss) && 0 <= k < |ss| - 1 && ss[k] in names {
      var i :| 0 <= i < |names| && names[i] == ss[k];
      assert IsBelow(names[i], ss);
      assert Ignores(DirectoryPattern(names[i]), path);
    }
  }

  lemma SomePattern(names: seq<string>, suffix: string, path: string)
    ensures (exists i :: 0 <= i < |PatternsFor(names, suffix)| && Ignores(PatternsFor(names, suffix)[i], path)) <==>
            (exists i :: 0 <= i < |names| && Ignores(DirectoryPattern(names[i]), path)) || Ignores(SuffixPattern(suffix), path)
  {
    var patterns := PatternsFor(names, suffix);
    assert |patterns| == |names| + 1 && patterns[|names|] == SuffixPattern(suffix);
    assert forall i :: 0 <= i < |names| ==> patterns[i] == DirectoryPattern(names[i]);
    hide Ignores, DirectoryPattern, SuffixPattern, PatternsFor;
    if i :| 0 <= i < |names| && Ignores(DirectoryPattern(names[i]), path) {
      assert Ignores(patterns[i], path);
    }
  }

  /** What the default patterns ignore, for every path: exactly the paths on one line that have an ignored
      directory name in a segment before the last, and those whose last segment has the ignored suffix, in
      a directory whose path is on one line. A line break in the path of a file keeps it from being
      ignored. */
  lemma DefaultIgnoreMeaning(path: string)
    ensures var ss := Split(path);
      IgnoredByDefault(path) <==>
        || (AllOneLine(ss) && exists i :: 0 <= i < |ss| - 1 && ss[i] in IGNORED_DIRECTORIES)
        || (AllOneLine(ss[..|ss| - 1]) && EndsWith(ss[|ss| - 1], IGNORED_SUFFIX))
  {
    hide AllOneLine, OneLine, Ignores, DirectoryPattern, SuffixPattern, PatternsFor, EndsWith, Plain, IGNORED_DIRECTORIES, IGNORED_SUFFIX, Split;
    IgnoredNamesArePlain();
    AnyIgnoresSome(DefaultIgnorePatterns(), path);
    SomePattern(IGNORED_DIRECTORIES, IGNORED_SUFFIX, path);
    assert DefaultIgnorePatterns() == PatternsFor(IGNORED_DIRECTORIES, IGNORED_SUFFIX);
    AnyDirectoryPattern(IGNORED_DIRECTORIES, path);
    SuffixPatternMeaning(IGNORED_SUFFIX, path);
  }
}
