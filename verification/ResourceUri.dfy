/** Resource URIs of workspace files (packages/workspace-fs/src/resource-uri.ts): the normalization of
    their paths, their printer and their parser. */
module ResourceUri {
  import opened Wrappers
  import opened JsMap
  import opened Paths
  import opened UriEncoding
  import G = GlobPatterns

  const SCHEME := "workspace-fs"

  predicate Letter(c: char) {
    'A' <= c <= 'Z' || 'a' <= c <= 'z'
  }

  function ToLower(c: char): char
    requires Letter(c)
  {
    if 'A' <= c <= 'Z' then c + 32 as char else c
  }

  // A drive, `X:`, at k, followed by a slash or the end.
  predicate DriveAt(p: string, k: nat) {
    k + 2 <= |p| && Letter(p[k]) && p[k + 1] == ':' && (|p| == k + 2 || p[k + 2] == '/')
  }

  // What stands before the segments.
  datatype Lead = Share | Drive(letter: char) | Root | Nothing

  function Show(lead: Lead): string {
    match lead
    case Share => "//"
    case Drive(c) => [c, ':', '/']
    case Root => "/"
    case Nothing => ""
  }

  function LeadOf(p: string): (Lead, string) {
    if "//" <= p then (Share, p[2..])
    else if "/" <= p && DriveAt(p, 1) then (Drive(ToLower(p[1])), if |p| > 3 then p[4..] else "")
    else if "/" <= p then (Root, p[1..])
    else if DriveAt(p, 0) then (Drive(ToLower(p[0])), if |p| > 2 then p[3..] else "")
    else (Nothing, p)
  }

  // Works `segments` off on top of `stack`; a `..` that finds nothing to go back from stays.
  function Collapse(stack: seq<string>, segments: seq<string>): seq<string>
    decreases |segments|
  {
    if segments == [] then stack
    else
      var w, rest := segments[0], segments[1..];
      var n := |stack| - 1;
      if w == "" || w == "." then Collapse(stack, rest)
      else if w == ".." && stack != [] && stack[n] != ".." then Collapse(stack[..n], rest)
      else Collapse(stack + [w], rest)
  }

  function Normalize(input: string): string {
    var (lead, remainder) := LeadOf(G.ReplaceBackslashes(input));
    Show(lead) + Join(Collapse([], Split(remainder)))
  }

  method NormalizeResourceAbsolutePath(input: string) returns (path: string)
    ensures path == Normalize(input)
  {
    hide Split, Join, LeadOf, Show, G.ReplaceBackslashes;
    var normalizedPath := G.ReplaceBackslashes(input);
    if normalizedPath == "" {
      NormalizeEmpty();
      return "";
    }
    var (lead, remainder) := LeadOf(normalizedPath);
    var segments := Split(remainder);
    var normalizedSegments := [];
    assert segments[0..] == segments;
    for i := 0 to |segments|
      invariant Collapse(normalizedSegments, segments[i..]) == Collapse([], segments)
    {
      var segment := segments[i];
      assert segments[i..][1..] == segments[i + 1..] && segments[i..][0] == segment;
      if segment == "" || segment == "." {
        continue;
      }
      if segment == ".." && normalizedSegments != [] && normalizedSegments[|normalizedSegments| - 1] != ".." {
        normalizedSegments := normalizedSegments[..|normalizedSegments| - 1];
        continue;
      }
      normalizedSegments := normalizedSegments + [segment];
    }
    assert segments[|segments|..] == [];
    path := Show(lead) + Join(normalizedSegments);
  }

  lemma NormalizeEmpty()
    ensures LeadOf("") == (Nothing, "") && Show(Nothing) + Join(Collapse([], Split(""))) == ""
    ensures G.ReplaceBackslashes("") == ""
  {
    SplitNoSlash("");
    assert [""][1..] == [];
    assert Collapse([], [""]) == Collapse([], []);
  }

  // ----- normal paths -----

  // Proper segments, with `..` only at the front.
  ghost predicate Tidy(segments: seq<string>) {
    && SlashFree(segments)
    && (forall i :: 0 <= i < |segments| ==> segments[i] != "" && segments[i] != "." && NoBackslash(segments[i]))
    && (forall i :: 0 < i < |segments| && segments[i] == ".." ==> segments[i - 1] == "..")
  }

  lemma {:induction false} CollapsedIsTidy(stack: seq<string>, segments: seq<string>)
    requires Tidy(stack) && SlashFree(segments) && forall i :: 0 <= i < |segments| ==> NoBackslash(segments[i])
    ensures Tidy(Collapse(stack, segments))
    decreases |segments|
  {
    if segments == [] {
    } else {
      var w, rest := segments[0], segments[1..];
      var n := |stack| - 1;
      if w == "" || w == "." {
        CollapsedIsTidy(stack, rest);
      } else if w == ".." && stack != [] && stack[n] != ".." {
        CollapsedIsTidy(stack[..n], rest);
      } else {
        CollapsedIsTidy(stack + [w], rest);
      }
    }
  }

  lemma {:induction false} CollapseTidy(stack: seq<string>, segments: seq<string>)
    requires Tidy(stack + segments)
    ensures Collapse(stack, segments) == stack + segments
    decreases |segments|
  {
    if segments == [] {
      assert stack + segments == stack;
    } else {
      var w, rest := segments[0], segments[1..];
      assert (stack + segments)[|stack|] == w;
      assert stack != [] ==> (stack + segments)[|stack| - 1] == stack[|stack| - 1];
      assert stack + segments == (stack + [w]) + rest;
      CollapseTidy(stack + [w], rest);
    }
  }

  lemma TidySplit(segments: seq<string>)
    requires Tidy(segments)
    ensures Collapse([], Split(Join(segments))) == segments
  {
    hide Join, Split;
    if segments == [] {
      NormalizeEmpty();
      assert Join(segments) == "" by { JoinNothing(); }
      SplitNoSlash("");
      assert [""][1..] == [];
    } else {
      SplitJoined(segments);
      assert [] + segments == segments;
      CollapseTidy([], segments);
    }
  }

  lemma JoinNothing()
    ensures Join([]) == ""
  {
  }

  lemma {:induction false} JoinedHasNoBackslash(segments: seq<string>)
    requires Tidy(segments)
    ensures NoBackslash(Join(segments))
  {
    if |segments| > 1 {
      assert forall i :: 0 < i < |segments[1..]| ==> segments[1..][i - 1] == segments[i];
      JoinedHasNoBackslash(segments[1..]);
    }
  }

  lemma {:induction false} SplitHasNoBackslash(s: string)
    requires NoBackslash(s)
    ensures forall i :: 0 <= i < |Split(s)| ==> NoBackslash(Split(s)[i])
    decreases |s|
  {
    var k := FirstSlash(s);
    if k < |s| {
      SplitHasNoBackslash(s[k + 1..]);
    }
  }

  // A path that starts with a tidy list's first segment.
  lemma JoinedStart(segments: seq<string>)
    requires Tidy(segments) && segments != []
    ensures segments[0] != "" && segments[0] <= Join(segments) && Join(segments)[0] != '/'
    ensures |Join(segments)| > |segments[0]| ==> Join(segments)[|segments[0]|] == '/'
    ensures forall i :: 0 <= i < |segments[0]| ==> Join(segments)[i] == segments[0][i] && segments[0][i] != '/'
  {
  }

  predicate IsDrive(w: string) {
    |w| == 2 && Letter(w[0]) && w[1] == ':'
  }

  lemma DriveFirst(segments: seq<string>)
    requires Tidy(segments)
    ensures DriveAt(Join(segments), 0) <==> segments != [] && IsDrive(segments[0])
  {
    if segments == [] {
      JoinNothing();
    } else {
      hide Join, Tidy;
      JoinedStart(segments);
      var j, w := Join(segments), segments[0];
      assert |w| > 1 ==> j[1] == w[1];
      assert |w| > 2 ==> j[2] == w[2];
    }
  }

  // What a path is normalized to has a lead and tidy segments.
  lemma Normalized(input: string) returns (lead: Lead, segments: seq<string>)
    ensures (lead, segments) == (LeadOf(G.ReplaceBackslashes(input)).0,
                                 Collapse([], Split(LeadOf(G.ReplaceBackslashes(input)).1)))
    ensures Tidy(segments) && Normalize(input) == Show(lead) + Join(segments)
    ensures lead.Drive? ==> 'a' <= lead.letter <= 'z'
  {
    var p := G.ReplaceBackslashes(input);
    var (l, remainder) := LeadOf(p);
    lead, segments := l, Collapse([], Split(remainder));
    assert NoBackslash(p);
    assert NoBackslash(remainder);
    hide Split, G.ReplaceBackslashes, LeadOf, Collapse;
    SplitHasNoBackslash(remainder);
    SegmentsHaveNoSlash(remainder);
    CollapsedIsTidy([], Split(remainder));
  }

  lemma LeadOfShown(lead: Lead, rest: string)
    requires lead == Share || (lead.Drive? && 'a' <= lead.letter <= 'z')
    ensures LeadOf(Show(lead) + rest) == (lead, rest)
    ensures lead.Drive? ==> LeadOf("/" + (Show(lead) + rest)) == (lead, rest)
  {
    var p := Show(lead) + rest;
    if lead == Share {
      assert p[2..] == rest;
    } else {
      var q := "/" + p;
      assert p[0] == lead.letter && p[1] == ':' && p[2] == '/' && p[3..] == rest;
      assert q[0] == '/' && q[1] == p[0] && q[2] == p[1] && q[3] == p[2] && q[4..] == rest;
    }
  }

  lemma NormalizeByLead(p: string)
    requires NoBackslash(p)
    ensures Normalize(p) == Show(LeadOf(p).0) + Join(Collapse([], Split(LeadOf(p).1)))
  {
    hide LeadOf, Show, Join, Split, Collapse;
    G.NoBackslashes(p);
  }

  // Normalizing what already has this shape.
  lemma Shown(lead: Lead, segments: seq<string>)
    requires Tidy(segments) && (lead.Drive? ==> 'a' <= lead.letter <= 'z') && lead != Nothing
    ensures var p := Show(lead) + Join(segments);
      if lead == Root && segments != [] && IsDrive(segments[0]) then
        Normalize(p) == Show(Drive(ToLower(segments[0][0]))) + Join(segments[1..])
      else Normalize(p) == p
    ensures lead.Drive? ==> Normalize("/" + (Show(lead) + Join(segments))) == Show(lead) + Join(segments)
  {
    var p := Show(lead) + Join(segments);
    assert NoBackslash(p) && NoBackslash("/" + p) by { JoinedHasNoBackslash(segments); }
    hide Join, Split, Tidy, Collapse, Normalize, LeadOf;
    NormalizeByLead(p);
    NormalizeByLead("/" + p);
    TidySplit(segments);
    if lead == Root {
      hide Show;
      RootShow();
      RootShown(segments);
    } else {
      hide Show;
      LeadOfShown(lead, Join(segments));
    }
  }

  lemma RootShow()
    ensures Show(Root) == "/"
  {
  }

  lemma RootShown(segments: seq<string>)
    requires Tidy(segments)
    ensures var p := "/" + Join(segments);
      if segments != [] && IsDrive(segments[0]) then
        LeadOf(p).0 == Drive(ToLower(segments[0][0])) && Collapse([], Split(LeadOf(p).1)) == segments[1..]
      else LeadOf(p) == (Root, Join(segments))
  {
    hide Split, Collapse;
    var p := "/" + Join(segments);
    assert p[1..] == Join(segments);
    DriveFirst(segments);
    assert DriveAt(p, 1) <==> DriveAt(Join(segments), 0);
    if segments != [] {
      JoinedStart(segments);
      assert forall i :: 0 < i < |segments[1..]| ==> segments[1..][i - 1] == segments[i];
      if IsDrive(segments[0]) {
        WithoutFirst(segments);
        TidySplit(segments[1..]);
        if |p| > 3 {
          assert p[4..] == Join(segments)[3..];
        } else {
          assert Join(segments) == segments[0];
        }
      }
    }
  }

  // What follows a first segment of two characters.
  lemma WithoutFirst(segments: seq<string>)
    requires Tidy(segments) && segments != [] && |segments[0]| == 2
    ensures Tidy(segments[1..])
    ensures (if |Join(segments)| > 2 then Join(segments)[3..] else "") == Join(segments[1..])
  {
    assert forall i :: 0 < i < |segments[1..]| ==> segments[1..][i - 1] == segments[i];
    if |segments| > 1 {
      assert Join(segments)[3..] == Join(segments[1..]);
    }
  }

  // ----- what becomes of single segments -----

  ghost predicate Clean(segments: seq<string>) {
    SlashFree(segments) && forall i :: 0 <= i < |segments| ==> NoBackslash(segments[i])
  }

  // Before these segments the lead is read as it is.
  predicate Leads(lead: Lead, segments: seq<string>) {
    LeadOf(Show(lead) + Join(segments)).0 == lead
  }

  lemma {:induction false} CollapseAppend(stack: seq<string>, a: seq<string>, b: seq<string>)
    ensures Collapse(stack, a + b) == Collapse(Collapse(stack, a), b)
    decreases |a|
  {
    if a == [] {
      assert a + b == b;
    } else {
      var w, n := a[0], |stack| - 1;
      assert (a + b)[0] == w && (a + b)[1..] == a[1..] + b;
      var next := if w == "" || w == "." then stack
                  else if w == ".." && stack != [] && stack[n] != ".." then stack[..n]
                  else stack + [w];
      CollapseAppend(next, a[1..], b);
    }
  }

  lemma {:induction false} CleanHasNoBackslash(segments: seq<string>)
    requires Clean(segments)
    ensures NoBackslash(Join(segments))
  {
    if |segments| > 1 {
      CleanHasNoBackslash(segments[1..]);
    }
  }

  lemma CollapseJoined(segments: seq<string>)
    requires SlashFree(segments)
    ensures Collapse([], Split(Join(segments))) == Collapse([], segments)
  {
    hide Join, Split;
    if segments == [] {
      JoinNothing();
      SplitNoSlash("");
      assert [""][1..] == [];
    } else {
      SplitJoined(segments);
    }
  }

  lemma NormalizeListed(lead: Lead, segments: seq<string>)
    requires Clean(segments) && Leads(lead, segments)
    ensures Normalize(Show(lead) + Join(segments)) == Show(lead) + Join(Collapse([], segments))
  {
    hide Normalize, Collapse, Split, Join, SlashFree;
    CleanHasNoBackslash(segments);
    ShownParts(Show(lead) + Join(segments), Join(segments));
    CollapseJoined(segments);
    hide LeadOf;
    assert lead.Drive? ==> lead.letter != '\\' by { LeadLetter(Show(lead) + Join(segments)); }
    NormalizeByLead(Show(lead) + Join(segments));
  }

  lemma LeadLetter(p: string)
    ensures LeadOf(p).0.Drive? ==> LeadOf(p).0.letter != '\\'
  {
  }

  /** A segment followed by `..` goes away with it, wherever they stand. */
  lemma GoingBack(lead: Lead, u: seq<string>, x: string, v: seq<string>)
    requires Clean(u + [x, ".."] + v) && x != "" && x != "." && x != ".."
    requires Leads(lead, u + [x, ".."] + v) && Leads(lead, u + v)
    ensures Normalize(Show(lead) + Join(u + [x, ".."] + v)) == Normalize(Show(lead) + Join(u + v))
  {
    hide Normalize, Join, Leads;
    Around(u, [x, ".."], v);
    NormalizeListed(lead, u + [x, ".."] + v);
    NormalizeListed(lead, u + v);
    var stack := Collapse([], u);
    assert [x, ".."][1..] == [".."] && [".."][1..] == [] && (stack + [x])[..|stack|] == stack;
    assert Collapse(stack, [x, ".."]) == Collapse(stack + [x], [".."]) == Collapse(stack, []) == stack;
  }

  /** An empty segment and a `.` go away. */
  lemma StandingStill(lead: Lead, u: seq<string>, w: string, v: seq<string>)
    requires Clean(u + [w] + v) && (w == "" || w == ".")
    requires Leads(lead, u + [w] + v) && Leads(lead, u + v)
    ensures Normalize(Show(lead) + Join(u + [w] + v)) == Normalize(Show(lead) + Join(u + v))
  {
    hide Normalize, Join, Leads;
    Around(u, [w], v);
    NormalizeListed(lead, u + [w] + v);
    NormalizeListed(lead, u + v);
    var stack := Collapse([], u);
    assert [w][1..] == [];
    assert Collapse(stack, [w]) == Collapse(stack, []) == stack;
  }

  lemma Around(u: seq<string>, middle: seq<string>, v: seq<string>)
    requires Clean(u + middle + v)
    ensures Clean(u + v)
    ensures Collapse([], u + middle + v) == Collapse(Collapse(Collapse([], u), middle), v)
    ensures Collapse([], u + v) == Collapse(Collapse([], u), v)
  {
    var all := u + middle + v;
    forall i | 0 <= i < |u + v|
      ensures '/' !in (u + v)[i] && NoBackslash((u + v)[i])
    {
      assert (u + v)[i] == all[if i < |u| then i else i + |middle|];
    }
    hide Clean, Collapse;
    CollapseAppend([], u + middle, v);
    CollapseAppend([], u, middle);
    CollapseAppend([], u, v);
  }

  /** A `..` that nothing stands before stays in front of what the rest comes to. */
  lemma NothingToGoBackFrom(lead: Lead, v: seq<string>, rest: seq<string>)
    requires Clean(v) && Leads(lead, v) && Leads(lead, [".."] + v)
    requires Tidy(rest) && Normalize(Show(lead) + Join(v)) == Show(lead) + Join(rest)
    ensures Normalize(Show(lead) + Join([".."] + v)) == Show(lead) + Join([".."] + rest)
  {
    hide Normalize, Join, Leads;
    assert [] + v == v;
    forall i | 0 <= i < |[".."] + v|
      ensures '/' !in ([".."] + v)[i] && NoBackslash(([".."] + v)[i])
    {
      assert i > 0 ==> ([".."] + v)[i] == v[i - 1];
    }
    NormalizeListed(lead, v);
    NormalizeListed(lead, [".."] + v);
    SameRest(Show(lead), Join(Collapse([], v)), Join(rest));
    assert Tidy([]);
    CollapsedIsTidy([], v);
    TidySplit(Collapse([], v));
    TidySplit(rest);
    assert Collapse([], [".."] + v) == Collapse([".."], v) by {
      assert ([".."] + v)[1..] == v && [] + [".."] == [".."];
    }
    assert [".."] + [] == [".."];
    CollapseOnUps([], v);
  }

  lemma SameRest(lead: string, a: string, b: string)
    requires lead + a == lead + b
    ensures a == b
  {
    assert a == (lead + a)[|lead|..] && b == (lead + b)[|lead|..];
  }

  // Nothing goes back beyond a `..` at the bottom.
  lemma {:induction false} CollapseOnUps(stack: seq<string>, segments: seq<string>)
    ensures Collapse([".."] + stack, segments) == [".."] + Collapse(stack, segments)
    decreases |segments|
  {
    if segments == [] {
    } else {
      var w, n := segments[0], |stack| - 1;
      var next := if w == "" || w == "." then stack
                  else if w == ".." && stack != [] && stack[n] != ".." then stack[..n]
                  else stack + [w];
      CollapseOnUps(next, segments[1..]);
      assert [".."] + (stack + [w]) == ([".."] + stack) + [w];
      assert stack != [] ==> ([".."] + stack)[n + 1] == stack[n] && ([".."] + stack)[..n + 1] == [".."] + stack[..n];
    }
  }

  /** A drive is the same drive in either case, after a slash or not, and a backslash is a slash. */
  lemma OtherSpellings(input: string, c: char, rest: string)
    requires 'a' <= c <= 'z' && NoBackslash(rest)
    ensures Normalize(G.ReplaceBackslashes(input)) == Normalize(input)
    ensures var upper, path := (c as int - 32) as char, [c, ':', '/'] + rest;
      Normalize([upper, ':', '/'] + rest) == Normalize("/" + path) == Normalize("/" + ([upper, ':', '/'] + rest)) == Normalize(path)
  {
    hide Join, Split, Collapse;
    G.NoBackslashes(G.ReplaceBackslashes(input));
    var upper, path := (c as int - 32) as char, [c, ':', '/'] + rest;
    DriveSpelled(c, rest);
    DriveSpelled(upper, rest);
    assert ToLower(upper) == c == ToLower(c);
    hide LeadOf, Show, ToLower;
    NormalizeByLead(path);
    NormalizeByLead("/" + path);
    NormalizeByLead([upper, ':', '/'] + rest);
    NormalizeByLead("/" + ([upper, ':', '/'] + rest));
  }

  lemma DriveSpelled(c: char, rest: string)
    requires Letter(c)
    ensures var path := [c, ':', '/'] + rest;
      && LeadOf(path) == LeadOf("/" + path) == (Drive(ToLower(c)), rest)
      && (NoBackslash(rest) ==> NoBackslash(path) && NoBackslash("/" + path))
  {
    var path := [c, ':', '/'] + rest;
    var q := "/" + path;
    assert path[3..] == rest && q[4..] == rest && path[2] == '/' && q[1] == c && q[2] == ':' && q[3] == '/';
  }

  predicate Fixed(path: string) {
    Normalize(path) == path
  }

  // Segments without anything left to work off.
  ghost predicate TidyPath(s: string) {
    s == "" || Tidy(Split(s))
  }

  // What a normal path looks like: no backslash, a lead in its own form, and tidy segments.
  ghost predicate NormalForm(path: string) {
    && NoBackslash(path)
    && if "//" <= path then TidyPath(path[2..])
       else if "/" <= path then !DriveAt(path, 1) && TidyPath(path[1..])
       else if DriveAt(path, 0) then 'a' <= path[0] <= 'z' && |path| > 2 && TidyPath(path[3..])
       else TidyPath(path)
  }

  lemma JoinedIsTidyPath(segments: seq<string>)
    requires Tidy(segments)
    ensures TidyPath(Join(segments))
  {
    hide Join, Split;
    if segments == [] {
      JoinNothing();
    } else {
      SplitJoined(segments);
    }
  }

  lemma TidyPathJoins(s: string)
    requires TidyPath(s)
    ensures Join(Collapse([], Split(s))) == s
  {
    hide Join, Split, Tidy;
    if s == "" {
      NormalizeEmpty();
      JoinNothing();
      SplitNoSlash("");
      assert [""][1..] == [];
    } else {
      assert [] + Split(s) == Split(s);
      CollapseTidy([], Split(s));
      JoinSplit(s);
    }
  }

  // A normal path is its lead followed by a tidy path.
  lemma NormalFormLead(path: string)
    requires NoBackslash(path)
    ensures NormalForm(path) <==> path == Show(LeadOf(path).0) + LeadOf(path).1 && TidyPath(LeadOf(path).1)
  {
    hide TidyPath;
    if DriveAt(path, 0) {
      assert path[0] != '/';
    }
    if "/" <= path && DriveAt(path, 1) {
      assert Show(LeadOf(path).0)[0] == ToLower(path[1]) && path[0] == '/';
    }
  }

  lemma ShownParts(path: string, rest: string)
    requires path == Show(LeadOf(path).0) + rest
    ensures LeadOf(path).1 == rest
  {
    var lead := LeadOf(path).0;
    assert lead.Drive? ==> Letter(lead.letter) && path[0] == lead.letter && path[1] == ':' && path[2] == '/' && path[3..] == rest;
    assert lead == Share ==> path[2..] == rest;
    assert lead == Root ==> path[1..] == rest;
  }

  lemma NormalizedIsClean(input: string)
    ensures NoBackslash(Normalize(input))
  {
    hide Normalize, Tidy, Join, Split, Collapse, G.ReplaceBackslashes, LeadOf;
    var lead, segments := Normalized(input);
    JoinedHasNoBackslash(segments);
    assert NoBackslash(Show(lead));
  }

  /** The paths that normalization leaves alone are those in normal form. */
  lemma FixedIff(path: string)
    ensures Fixed(path) <==> NormalForm(path)
  {
    hide Normalize, Tidy, Join, Split, Collapse, G.ReplaceBackslashes, LeadOf, Show, TidyPath;
    if Fixed(path) {
      var lead, segments := Normalized(path);
      NormalizedIsClean(path);
      G.NoBackslashes(path);
      ShownParts(path, Join(segments));
      JoinedIsTidyPath(segments);
      NormalFormLead(path);
    }
    if NormalForm(path) {
      NormalFormLead(path);
      NormalizeByLead(path);
      TidyPathJoins(LeadOf(path).1);
    }
  }

  // One of the three forms of absolute path.
  predicate AbsoluteForm(path: string) {
    "/" <= path || DriveAt(path, 0)
  }

  // ----- printing and parsing -----

  function EncodeAll(segments: seq<string>): seq<string> {
    seq(|segments|, i requires 0 <= i < |segments| => Encode(segments[i]))
  }

  // None when a segment is malformed.
  function DecodeAll(segments: seq<string>): Option<seq<string>> {
    if segments == [] then Some([])
    else
      var first, rest := Decode(segments[0]), DecodeAll(segments[1..]);
      if first.None? || rest.None? then None else Some([first.value] + rest.value)
  }

  function Rooted(path: string): string {
    if "/" <= path then path else "/" + path
  }

  function ToWorkspaceFsResourceUri(workspaceId: string, absolutePath: string): string {
    SCHEME + "://" + Encode(workspaceId) + Rooted(Join(EncodeAll(Split(Normalize(absolutePath)))))
  }

  // Malformed stands for the `URIError` that decoding throws.
  datatype Parsed = Parts(workspaceId: string, absolutePath: string) | NoUri | Malformed

  function ParseWorkspaceFsResourceUri(resourceUri: string): Parsed {
    var prefix := SCHEME + "://";
    if !(prefix <= resourceUri) then NoUri
    else
      var remainder := resourceUri[|prefix|..];
      var firstSlashIndex := FirstSlash(remainder);
      if firstSlashIndex == 0 || firstSlashIndex == |remainder| then NoUri
      else
        var workspaceId := Decode(remainder[..firstSlashIndex]);
        var segments := DecodeAll(Split(remainder[firstSlashIndex..]));
        if workspaceId.None? || segments.None? then Malformed
        else Parts(workspaceId.value, Normalize(Join(segments.value)))
  }

  lemma {:induction false} DecodedAll(segments: seq<string>)
    ensures DecodeAll(EncodeAll(segments)) == Some(segments)
  {
    if segments == [] {
    } else {
      EncodedReadsBack(segments[0]);
      DecodedAll(segments[1..]);
      assert EncodeAll(segments)[1..] == EncodeAll(segments[1..]);
      assert segments == [segments[0]] + segments[1..];
    }
  }

  lemma EncodedSegments(path: string)
    ensures var e := Join(EncodeAll(Split(path)));
      && Split(e) == EncodeAll(Split(path)) && DecodeAll(Split(e)) == Some(Split(path))
      && ("/" <= e <==> "/" <= path)
  {
    hide Split, Join, Decode, DecodeAll, Encode;
    var segments := EncodeAll(Split(path));
    forall i | 0 <= i < |segments|
      ensures '/' !in segments[i]
    {
      EncodedHasNoSlash(Split(path)[i]);
    }
    SplitJoined(segments);
    DecodedAll(Split(path));
    StartsWithSlash(path);
    StartsWithSlash(Join(segments));
    EncodedHasNoSlash(Split(path)[0]);
  }

  // Apart from the empty path, a path starts with a slash just if its first segment is empty.
  lemma StartsWithSlash(path: string)
    ensures "/" <= path <==> Split(path)[0] == "" && |Split(path)| > 1
  {
  }

  lemma RootedSegments(path: string)
    ensures var e := Join(EncodeAll(Split(path)));
      DecodeAll(Split(Rooted(e))).Some? && Join(DecodeAll(Split(Rooted(e))).value) == Rooted(path)
  {
    hide Split, Join, Decode, Encode, DecodeAll, EncodeAll;
    var e := Join(EncodeAll(Split(path)));
    EncodedSegments(path);
    JoinSplit(path);
    if !("/" <= path) {
      assert "/" + e == "" + "/" + e;
      SplitAtSlash("", e);
      DecodedEmptyFirst(Split(e));
      JoinedEmptyFirst(Split(path));
    }
  }

  lemma DecodedEmptyFirst(segments: seq<string>)
    requires DecodeAll(segments).Some?
    ensures DecodeAll([""] + segments) == Some([""] + DecodeAll(segments).value)
  {
    assert ([""] + segments)[1..] == segments;
  }

  lemma JoinedEmptyFirst(segments: seq<string>)
    requires segments != []
    ensures Join([""] + segments) == "/" + Join(segments)
  {
    assert ([""] + segments)[1..] == segments;
  }

  /** What the parser makes of a printed URI, for every identifier and path. */
  lemma ParsePrinted(workspaceId: string, absolutePath: string)
    ensures ParseWorkspaceFsResourceUri(ToWorkspaceFsResourceUri(workspaceId, absolutePath)) ==
            if workspaceId == "" then NoUri
            else Parts(workspaceId, Normalize(Rooted(Normalize(absolutePath))))
  {
    hide Split, Join, Decode, Encode, DecodeAll, EncodeAll, Normalize;
    var path := Normalize(absolutePath);
    var e := Rooted(Join(EncodeAll(Split(path))));
    var id := Encode(workspaceId);
    var prefix := SCHEME + "://";
    var uri := ToWorkspaceFsResourceUri(workspaceId, absolutePath);
    assert uri == prefix + (id + e);
    assert uri[|prefix|..] == id + e;
    EncodedHasNoSlash(workspaceId);
    EncodedReadsBack(workspaceId);
    FirstSlashAt(id + e, |id|);
    assert (id + e)[..|id|] == id && (id + e)[|id|..] == e;
    RootedSegments(path);
  }

  /** The round trip is exact: a URI parses back to the identifier and path it was printed from if and
      only if the identifier is not empty and the path is absolute and in normal form. */
  lemma RoundTripIff(workspaceId: string, absolutePath: string)
    ensures ParseWorkspaceFsResourceUri(ToWorkspaceFsResourceUri(workspaceId, absolutePath)) == Parts(workspaceId, absolutePath)
            <==> workspaceId != "" && AbsoluteForm(absolutePath) && NormalForm(absolutePath)
  {
    hide Normalize, NormalForm, ToWorkspaceFsResourceUri, ParseWorkspaceFsResourceUri;
    FixedIff(absolutePath);
    ParsePrinted(workspaceId, absolutePath);
    NormalizedTwice(absolutePath);
  }

  lemma LeadOfAbsolute(path: string)
    ensures var lead := LeadOf(G.ReplaceBackslashes(path)).0;
      && ("/" <= path ==> lead != Nothing)
      && (!("/" <= path) && DriveAt(path, 0) ==> lead.Drive?)
  {
  }

  lemma ShownIsAbsolute(lead: Lead, rest: string)
    requires lead != Nothing && (lead.Drive? ==> Letter(lead.letter))
    ensures AbsoluteForm(Show(lead) + rest)
    ensures "/" <= Show(lead) + rest <==> !lead.Drive?
  {
    assert (Show(lead) + rest)[0] == if lead.Drive? then lead.letter else '/';
  }

  // Normalizing a rooted normal path gives the path back exactly for normal absolute paths.
  lemma NormalizedTwice(path: string)
    ensures Normalize(Rooted(Normalize(path))) == path <==> AbsoluteForm(path) && Fixed(path)
  {
    hide Normalize, Tidy, Join, Split, Collapse, G.ReplaceBackslashes, LeadOf, AbsoluteForm, Show;
    var r := Normalize(path);
    if AbsoluteForm(path) && Fixed(path) {
      FixedStaysFixed(path);
    }
    if Normalize(Rooted(r)) == path {
      var lead, segments := Normalized(Rooted(r));
      LeadOfAbsolute(Rooted(r));
      ShownIsAbsolute(lead, Join(segments));
      Shown(lead, segments);
      if lead == Root && segments != [] && IsDrive(segments[0]) {
        WithoutFirst(segments);
        var drive := Drive(ToLower(segments[0][0]));
        Shown(drive, segments[1..]);
        ShownIsAbsolute(drive, Join(segments[1..]));
        assert false;
      }
    }
  }

  lemma FixedStaysFixed(path: string)
    requires AbsoluteForm(path) && Fixed(path)
    ensures Normalize(Rooted(path)) == path
  {
    hide Normalize, Tidy, Join, Split, Collapse, G.ReplaceBackslashes, LeadOf, Show;
    LeadOfAbsolute(path);
    var lead, segments := Normalized(path);
    if !("/" <= path) {
      Shown(lead, segments);
    }
  }

  // What normalization makes of a path starts with a segment that normalization then takes for a drive.
  predicate BecomesDrive(lead: Lead, segments: seq<string>) {
    && segments != [] && IsDrive(segments[0])
    && (lead == Root || (lead == Nothing && ('A' <= segments[0][0] <= 'Z' || |segments| == 1)))
  }

  // Normalizing what starts with no lead at all.
  lemma ShownNothing(segments: seq<string>)
    requires Tidy(segments)
    ensures Normalize(Join(segments)) ==
            if segments != [] && IsDrive(segments[0]) then Show(Drive(ToLower(segments[0][0]))) + Join(segments[1..])
            else Join(segments)
  {
    var p := Join(segments);
    JoinedHasNoBackslash(segments);
    DriveFirst(segments);
    NormalizeByLead(p);
    hide Split, Collapse;
    if segments != [] && IsDrive(segments[0]) {
      JoinedStart(segments);
      WithoutFirst(segments);
      TidySplit(segments[1..]);
    } else {
      TidySplit(segments);
      if segments != [] {
        JoinedStart(segments);
      }
    }
  }

  lemma DriveShown(segments: seq<string>)
    requires Tidy(segments) && segments != [] && IsDrive(segments[0])
    ensures Show(Drive(ToLower(segments[0][0]))) + Join(segments[1..]) == Join(segments) <==>
            |segments| > 1 && 'a' <= segments[0][0] <= 'z'
  {
    hide ToLower, Letter, Tidy;
    var w, more := segments[0], Join(segments[1..]);
    LowerFixed(w[0]);
    if |segments| == 1 {
      assert Join(segments) == w && |w| == 2;
    } else {
      assert Join(segments) == w + "/" + more;
      hide Join;
      SameAfterFirst(ToLower(w[0]), w, more);
    }
  }

  lemma LowerFixed(c: char)
    requires Letter(c)
    ensures ToLower(c) == c <==> 'a' <= c <= 'z'
  {
  }

  lemma SameAfterFirst(c: char, w: string, more: string)
    requires |w| == 2 && w[1] == ':'
    ensures Show(Drive(c)) + more == w + "/" + more <==> c == w[0]
  {
    var p := w + "/" + more;
    assert p == [w[0], ':', '/'] + more && p[0] == w[0];
  }

  /** Exactly when normalizing twice is normalizing once. Of a path's lead and segments, as normalization
      finds them, the first segment must not become a drive: after a slash no drive may stand there, and
      without a lead only one in lower case with segments behind it. Normalizing a third time never makes
      a difference. */
  lemma IdempotentIff(input: string)
    ensures var (lead, remainder) := LeadOf(G.ReplaceBackslashes(input));
      Normalize(Normalize(input)) == Normalize(input) <==> !BecomesDrive(lead, Collapse([], Split(remainder)))
    ensures Normalize(Normalize(Normalize(input))) == Normalize(Normalize(input))
  {
    hide Normalize, Tidy, Join, Split, Collapse, G.ReplaceBackslashes, LeadOf;
    var lead, segments := Normalized(input);
    var p := Normalize(input);
    if lead == Nothing {
      assert p == Join(segments);
      ShownNothing(segments);
    } else {
      Shown(lead, segments);
    }
    if segments != [] && IsDrive(segments[0]) && (lead == Root || lead == Nothing) {
      WithoutFirst(segments);
      Shown(Drive(ToLower(segments[0][0])), segments[1..]);
      DriveShown(segments);
      hide ToLower;
      assert lead == Root ==> p[0] == '/';
    }
  }

  /** Normalization is not idempotent: a segment in the middle can become a drive. */
  lemma NormalizationIsNotIdempotent()
    ensures Normalize("/./C:/x") == "/C:/x" && Normalize("/C:/x") == "c:/x"
  {
    hide Normalize, Split, Join, Collapse, Tidy, LeadOf;
    var segments := ["C:", "x"];
    DriveSegments();
    Shown(Root, segments);
    assert segments[1..] == ["x"];
    assert Show(Root) + "C:/x" == "/C:/x" && Show(Drive('c')) + "x" == "c:/x";
    NormalizeByLead("/./C:/x");
    assert "/./C:/x"[1..] == "./C:/x";
    MiddleLead();
    MiddleDrive();
  }

  lemma MiddleLead()
    ensures LeadOf("/./C:/x") == (Root, "./C:/x")
  {
    var p := "/./C:/x";
    assert p[1] == '.' && p[0] == '/' && p[1..] == "./C:/x";
  }

  lemma DriveSegments()
    ensures Tidy(["C:", "x"]) && Join(["C:", "x"]) == "C:/x" && Join(["x"]) == "x"
  {
    assert ["C:", "x"][1..] == ["x"];
    assert Join(["C:", "x"]) == "C:" + "/" + Join(["x"]);
  }

  lemma MiddleDrive()
    ensures Collapse([], Split("./C:/x")) == ["C:", "x"]
  {
    hide Split, Join;
    DriveSegments();
    SplitAtSlash(".", "C:/x");
    SplitAtSlash("C:", "x");
    SplitNoSlash("x");
    assert "." + "/" + "C:/x" == "./C:/x" && "C:" + "/" + "x" == "C:/x";
    assert ["C:"] + ["x"] == ["C:", "x"];
    assert (["."] + ["C:", "x"])[1..] == ["C:", "x"];
    assert [] + ["C:", "x"] == ["C:", "x"];
    CollapseTidy([], ["C:", "x"]);
  }
}
