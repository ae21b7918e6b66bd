/** Slash-separated paths: splitting into segments, joining them again, and POSIX normalization. */
module Paths {

  function FirstSlash(s: string): (k: nat)
    ensures k <= |s| && (k < |s| ==> s[k] == '/') && (forall i :: 0 <= i < k ==> s[i] != '/')
  {
    if s == "" || s[0] == '/' then 0 else 1 + FirstSlash(s[1..])
  }

  // `s.split("/")`
  function Split(s: string): (r: seq<string>)
    ensures r != []
    decreases |s|
  {
    var k := FirstSlash(s);
    if k == |s| then [s] else [s[..k]] + Split(s[k + 1..])
  }

  // `segments.join("/")`
  function Join(segments: seq<string>): string {
    if segments == [] then ""
    else if |segments| == 1 then segments[0]
    else segments[0] + "/" + Join(segments[1..])
  }

  ghost predicate SlashFree(segments: seq<string>) {
    forall i :: 0 <= i < |segments| ==> '/' !in segments[i]
  }

  predicate NoBackslash(s: string) {
    '\\' !in s
  }

  lemma FirstSlashAt(s: string, k: nat)
    requires k <= |s| && (k < |s| ==> s[k] == '/') && forall i :: 0 <= i < k ==> s[i] != '/'
    ensures FirstSlash(s) == k
  {
  }

  lemma SplitAtSlash(w: string, more: string)
    requires '/' !in w
    ensures Split(w + "/" + more) == [w] + Split(more)
  {
    var s := w + "/" + more;
    assert forall i :: 0 <= i < |w| ==> s[i] == w[i];
    FirstSlashAt(s, |w|);
    assert s[..|w|] == w && s[|w| + 1..] == more;
  }

  lemma SplitNoSlash(w: string)
    requires '/' !in w
    ensures Split(w) == [w]
  {
    FirstSlashAt(w, |w|);
  }

  lemma {:induction false} SegmentsHaveNoSlash(s: string)
    ensures SlashFree(Split(s))
    decreases |s|
  {
    var k := FirstSlash(s);
    if k < |s| {
      SegmentsHaveNoSlash(s[k + 1..]);
    }
  }

  lemma {:induction false} SplitJoined(segments: seq<string>)
    requires segments != [] && SlashFree(segments)
    ensures Split(Join(segments)) == segments
  {
    if |segments| == 1 {
      SplitNoSlash(segments[0]);
    } else {
      SplitJoined(segments[1..]);
      SplitAtSlash(segments[0], Join(segments[1..]));
      assert [segments[0]] + segments[1..] == segments;
    }
  }

  lemma JoinFirst(w: string, rest: seq<string>)
    requires rest != []
    ensures Join([w] + rest) == w + "/" + Join(rest)
  {
    assert ([w] + rest)[1..] == rest;
  }

  lemma {:induction false} JoinSplit(s: string)
    ensures Join(Split(s)) == s
    decreases |s|
  {
    var k := FirstSlash(s);
    if k == |s| {
      assert Split(s) == [s];
    } else {
      var w, rest := s[..k], s[k + 1..];
      assert Split(s) == [w] + Split(rest) && s == w + "/" + rest;
      hide Join, Split;
      JoinFirst(w, Split(rest));
      JoinSplit(rest);
    }
  }

  lemma {:induction false} SplitAppend(a: string, b: string)
    ensures Split(a + "/" + b) == Split(a) + Split(b)
    decreases |a|
  {
    hide Split;
    var k := FirstSlash(a);
    if k == |a| {
      SplitNoSlash(a);
      SplitAtSlash(a, b);
    } else {
      var rest := a[k + 1..];
      assert a == a[..k] + "/" + rest;
      assert a + "/" + b == a[..k] + "/" + (rest + "/" + b);
      SplitAtSlash(a[..k], rest);
      SplitAtSlash(a[..k], rest + "/" + b);
      SplitAppend(rest, b);
    }
  }

  // What stands before the first slash, and what a path ends in.
  lemma FirstOfSplit(s: string, w: string)
    requires '/' !in w
    ensures w + "/" <= s <==> |Split(s)| > 1 && Split(s)[0] == w
    ensures w + "/" <= s ==> Split(s[|w| + 1..]) == Split(s)[1..]
  {
    hide Split, FirstSlash;
    if w + "/" <= s {
      var rest := s[|w| + 1..];
      assert s == w + "/" + rest;
      SplitAtSlash(w, rest);
    } else if '/' in s {
      var k := FirstSlash(s);
      FirstSlashIn(s);
      assert s == s[..k] + "/" + s[k + 1..];
      SplitAtSlash(s[..k], s[k + 1..]);
    } else {
      SplitNoSlash(s);
    }
  }

  lemma FirstSlashIn(s: string)
    ensures '/' in s <==> FirstSlash(s) < |s|
    ensures '/' !in s[..FirstSlash(s)]
  {
  }

  lemma HasSlash(s: string)
    ensures '/' in s <==> |Split(s)| > 1
  {
    FirstSlashIn(s);
    hide FirstSlash;
  }

  lemma {:induction false} LastOfSplit(s: string)
    requires s != ""
    ensures s[|s| - 1] == '/' <==> Split(s)[|Split(s)| - 1] == ""
    decreases |s|
  {
    var k := FirstSlash(s);
    FirstSlashIn(s);
    hide FirstSlash;
    if k < |s| {
      var rest := s[k + 1..];
      assert Split(s) == [s[..k]] + Split(rest);
      assert Split(s)[|Split(s)| - 1] == Split(rest)[|Split(rest)| - 1];
      if rest == "" {
        SplitNoSlash("");
      } else {
        assert rest[|rest| - 1] == s[|s| - 1];
        LastOfSplit(rest);
      }
    } else {
      assert Split(s) == [s] && s[|s| - 1] in s;
    }
  }

  // ----- absolute paths -----

  predicate CanonicalSegment(w: string) {
    w != "" && w != "." && w != ".."
  }

  ghost predicate Canonical(segments: seq<string>) {
    SlashFree(segments) && forall i :: 0 <= i < |segments| ==> CanonicalSegment(segments[i])
  }

  // Works `segments` off on top of `stack`; nothing lies above the root.
  function ResolveOnto(stack: seq<string>, segments: seq<string>): seq<string>
    decreases |segments|
  {
    if segments == [] then stack
    else
      var w, rest := segments[0], segments[1..];
      if w == "" || w == "." then ResolveOnto(stack, rest)
      else if w == ".." then ResolveOnto(if stack == [] then stack else stack[..|stack| - 1], rest)
      else ResolveOnto(stack + [w], rest)
  }

  function SegmentsOf(path: string): seq<string> {
    ResolveOnto([], Split(path))
  }

  function Absolute(segments: seq<string>): string {
    "/" + Join(segments)
  }

  // `path.normalize(path.resolve(path))` of an absolute path
  function NormalizeAbsolutePath(path: string): string {
    Absolute(SegmentsOf(path))
  }

  function CommonPrefix(a: seq<string>, b: seq<string>): (k: nat)
    ensures k <= |a| && k <= |b| && a[..k] == b[..k]
  {
    if a == [] || b == [] || a[0] != b[0] then 0 else 1 + CommonPrefix(a[1..], b[1..])
  }

  // `path.relative(root, path)`
  function ToRelativePath(root: string, path: string): string {
    var a, b := SegmentsOf(root), SegmentsOf(path);
    var k := CommonPrefix(a, b);
    Join(seq(|a| - k, _ => "..") + b[k..])
  }

  lemma {:induction false} ResolveCanonical(stack: seq<string>, segments: seq<string>)
    requires Canonical(segments)
    ensures ResolveOnto(stack, segments) == stack + segments
    decreases |segments|
  {
    if segments == [] {
      assert stack + segments == stack;
    } else {
      assert CanonicalSegment(segments[0]);
      ResolveCanonical(stack + [segments[0]], segments[1..]);
      assert stack + segments == (stack + [segments[0]]) + segments[1..];
    }
  }

  lemma {:induction false} ResolveAppend(stack: seq<string>, a: seq<string>, b: seq<string>)
    ensures ResolveOnto(stack, a + b) == ResolveOnto(ResolveOnto(stack, a), b)
    decreases |a|
  {
    if a == [] {
      assert a + b == b;
    } else {
      assert (a + b)[0] == a[0] && (a + b)[1..] == a[1..] + b;
      var w := a[0];
      var next := if w == "" || w == "." then stack
                  else if w == ".." then (if stack == [] then stack else stack[..|stack| - 1])
                  else stack + [w];
      ResolveAppend(next, a[1..], b);
    }
  }

  lemma SplitAbsolute(segments: seq<string>)
    requires Canonical(segments)
    ensures Split(Absolute(segments)) == if segments == [] then ["", ""] else [""] + segments
  {
    assert Absolute(segments) == "" + "/" + Join(segments);
    SplitAtSlash("", Join(segments));
    if segments == [] {
      SplitNoSlash("");
    } else {
      SplitJoined(segments);
    }
  }

  lemma SegmentsOfAbsolute(segments: seq<string>)
    requires Canonical(segments)
    ensures SegmentsOf(Absolute(segments)) == segments
    ensures NormalizeAbsolutePath(Absolute(segments)) == Absolute(segments)
  {
    SplitAbsolute(segments);
    if segments != [] {
      ResolveAppend([], [""], segments);
      ResolveCanonical([], segments);
      assert ResolveOnto([], [""]) == ResolveOnto([], [""][1..]) == [];
      assert [] + segments == segments;
    } else {
      assert ["", ""][1..] == [""] && [""][1..] == [];
      assert ResolveOnto([], ["", ""]) == ResolveOnto([], [""]) == ResolveOnto([], []) == [];
    }
  }

  lemma ResolveListed(segments: seq<string>)
    requires SlashFree(segments)
    ensures SegmentsOf(Absolute(segments)) == ResolveOnto([], segments)
  {
    hide Split, Join;
    assert Absolute(segments) == "" + "/" + Join(segments);
    SplitAtSlash("", Join(segments));
    ResolveAppend([], [""], Split(Join(segments)));
    assert ResolveOnto([], [""]) == ResolveOnto([], [""][1..]) == [];
    if segments == [] {
      assert Join(segments) == "" by { JoinEmpty(); }
      SplitNoSlash("");
    } else {
      SplitJoined(segments);
    }
  }

  lemma JoinEmpty()
    ensures Join([]) == ""
  {
  }

  /** In an absolute path a segment followed by `..` goes away with it, wherever they stand; an empty segment
      and a `.` go away; and so does a `..` at the root. */
  lemma DotsResolve(u: seq<string>, x: string, v: seq<string>)
    requires SlashFree(u) && '/' !in x && SlashFree(v)
    ensures CanonicalSegment(x) ==> NormalizeAbsolutePath(Absolute(u + [x, ".."] + v)) == NormalizeAbsolutePath(Absolute(u + v))
    ensures x == "" || x == "." ==> NormalizeAbsolutePath(Absolute(u + [x] + v)) == NormalizeAbsolutePath(Absolute(u + v))
    ensures NormalizeAbsolutePath(Absolute([".."] + v)) == NormalizeAbsolutePath(Absolute(v))
  {
    hide SegmentsOf, Absolute, ResolveOnto;
    var stack := ResolveOnto([], u);
    ResolveListed(u + [x, ".."] + v);
    ResolveListed(u + [x] + v);
    ResolveListed(u + v);
    ResolveListed([".."] + v);
    ResolveListed(v);
    ResolveAppend([], u + [x, ".."], v);
    ResolveAppend([], u, [x, ".."]);
    ResolveAppend([], u + [x], v);
    ResolveAppend([], u, [x]);
    ResolveAppend([], u, v);
    ResolveAppend([], [".."], v);
    DotsOnStack(stack, x);
    DotsOnStack([], x);
  }

  lemma DotsOnStack(stack: seq<string>, x: string)
    ensures CanonicalSegment(x) ==> ResolveOnto(stack, [x, ".."]) == stack
    ensures x == "" || x == "." ==> ResolveOnto(stack, [x]) == stack
    ensures ResolveOnto([], [".."]) == []
  {
    assert [x, ".."][1..] == [".."] && [".."][1..] == [] && [x][1..] == [];
    assert (stack + [x])[..|stack|] == stack;
    assert ResolveOnto(stack + [x], [".."]) == ResolveOnto(stack, []);
    assert ResolveOnto([], [".."]) == ResolveOnto([], []);
  }

  lemma {:induction false} CommonPrefixOfExtension(a: seq<string>, b: seq<string>)
    ensures CommonPrefix(a, a + b) == |a|
  {
    if a == [] {
    } else {
      assert (a + b)[1..] == a[1..] + b;
      CommonPrefixOfExtension(a[1..], b);
    }
  }

  lemma RelativeOfAbsolute(root: seq<string>, rel: seq<string>)
    requires Canonical(root) && Canonical(rel)
    ensures Canonical(root + rel)
    ensures ToRelativePath(Absolute(root), Absolute(root + rel)) == Join(rel)
  {
    SegmentsOfAbsolute(root);
    SegmentsOfAbsolute(root + rel);
    CommonPrefixOfExtension(root, rel);
    assert (root + rel)[|root|..] == rel;
    var ups := seq(|root| - |root|, _ => "..");
    assert ups == [] && [] + rel == rel;
  }

  lemma {:induction false} GoingUp(stack: seq<string>, n: nat, rest: seq<string>)
    requires n <= |stack|
    ensures ResolveOnto(stack, seq(n, _ => "..") + rest) == ResolveOnto(stack[..|stack| - n], rest)
    decreases n
  {
    var ups := seq(n, _ => "..");
    if n == 0 {
      assert ups + rest == rest && stack[..|stack|] == stack;
    } else {
      var fewer := seq(n - 1, _ => "..");
      assert (ups + rest)[0] == ".." && (ups + rest)[1..] == fewer + rest;
      GoingUp(stack[..|stack| - 1], n - 1, rest);
      assert stack[..|stack| - 1][..|stack| - n] == stack[..|stack| - n];
    }
  }

  /** The relative path from one directory to any path leads there from that directory. */
  lemma RelativeLeadsThere(root: seq<string>, path: seq<string>)
    requires Canonical(root) && Canonical(path)
    ensures var relative := ToRelativePath(Absolute(root), Absolute(path));
      NormalizeAbsolutePath(Absolute(root) + "/" + relative) == Absolute(path)
  {
    hide Join, Split, ResolveOnto, CommonPrefix, Absolute;
    SegmentsOfAbsolute(root);
    SegmentsOfAbsolute(path);
    var k := CommonPrefix(root, path);
    var ups, down := seq(|root| - k, _ => ".."), path[k..];
    var relative := Join(ups + down);
    SplitAppend(Absolute(root), relative);
    ResolveAppend([], Split(Absolute(root)), Split(relative));
    assert forall i :: 0 <= i < |down| ==> down[i] == path[k + i];
    ResolveJoined(root, ups + down);
    GoingUp(root, |root| - k, down);
    ResolveCanonical(root[..k], down);
    assert root[..k] + down == path;
  }

  lemma ResolveJoined(stack: seq<string>, segments: seq<string>)
    requires SlashFree(segments)
    ensures ResolveOnto(stack, Split(Join(segments))) == ResolveOnto(stack, segments)
  {
    hide Split, Join;
    if segments == [] {
      assert Join(segments) == "" by { JoinEmpty(); }
      SplitNoSlash("");
      assert [""][1..] == [];
    } else {
      SplitJoined(segments);
    }
  }
}
