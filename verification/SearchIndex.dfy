/** The entries of the workspace search index and how watch events patch them
    (packages/workspace-fs/src/search.ts). */
module SearchIndex {
  import opened Wrappers
  import opened JsMap
  import opened Paths
  import opened WatchRenames
  import G = GlobPatterns

  datatype Entry = Entry(absolutePath: string, relativePath: string, name: string, description: Option<string>)

  // `path.basename(s)`
  function Basename(s: string): string {
    if s == "" then ""
    else if s[|s| - 1] == '/' then Basename(s[..|s| - 1])
    else Split(s)[|Split(s)| - 1]
  }

  function CreateSearchIndexEntry(rootPath: string, relativePath: string): Entry {
    var normalized := G.NormalizePathForGlob(relativePath);
    var name := Basename(normalized);
    var dir := if |normalized| > |name| then normalized[..|normalized| - |name| - 1] else "";
    Entry(NormalizeAbsolutePath(rootPath + "/" + normalized), normalized, name, if dir == "" then None else Some(dir))
  }

  predicate IsHiddenRelativePath(relativePath: string) {
    var segments := Split(G.NormalizePathForGlob(relativePath));
    exists i :: 0 <= i < |segments| && |segments[i]| > 1 && segments[i][0] == '.'
  }

  predicate ShouldIndexRelativePath(relativePath: string, includeHidden: bool) {
    var normalized := G.NormalizePathForGlob(relativePath);
    && (includeHidden || !IsHiddenRelativePath(normalized))
    && !G.IgnoredByDefault(normalized)
  }

  type Items = Entries<string, Entry>

  function ApplySearchPatchEvent(items: Items, rootPath: string, includeHidden: bool, event: WatchEvent): Items {
    if event.Renamed? && event.oldPath != "" then
      var without := Delete(items, NormalizeAbsolutePath(event.oldPath));
      var relativePath := ToRelativePath(rootPath, event.path);
      if event.isDirectory || !ShouldIndexRelativePath(relativePath, includeHidden) then without
      else Set(without, NormalizeAbsolutePath(event.path), CreateSearchIndexEntry(rootPath, relativePath))
    else
      var absolutePath := NormalizeAbsolutePath(event.path);
      var relativePath := ToRelativePath(rootPath, absolutePath);
      if event.Deleted? || event.isDirectory || !ShouldIndexRelativePath(relativePath, includeHidden)
      then Delete(items, absolutePath)
      else Set(items, absolutePath, CreateSearchIndexEntry(rootPath, relativePath))
  }

  function ApplyAll(items: Items, rootPath: string, includeHidden: bool, events: seq<WatchEvent>): Items
    decreases |events|
  {
    if events == [] then items
    else ApplyAll(ApplySearchPatchEvent(items, rootPath, includeHidden, events[0]), rootPath, includeHidden, events[1..])
  }

  function ByPath(items: seq<Entry>): seq<(string, Entry)> {
    seq(|items|, i requires 0 <= i < |items| => (items[i].absolutePath, items[i]))
  }

  // The items of a cached index after a batch of events about files.
  function PatchedItems(items: seq<Entry>, rootPath: string, includeHidden: bool, events: seq<WatchEvent>): seq<Entry> {
    Values(ApplyAll(FromPairs(ByPath(items)), rootPath, includeHidden, events))
  }

  // ----- the path of an entry -----

  lemma EntryPath(root: seq<string>, relativePath: string)
    requires Canonical(root)
    ensures CreateSearchIndexEntry(Absolute(root), relativePath).absolutePath ==
            Absolute(ResolveOnto(root, Split(G.NormalizePathForGlob(relativePath))))
  {
    hide Split, ResolveOnto, G.NormalizePathForGlob, Absolute, Canonical;
    var normalized := G.NormalizePathForGlob(relativePath);
    SplitAppend(Absolute(root), normalized);
    ResolveAppend([], Split(Absolute(root)), Split(normalized));
    SegmentsOfAbsolute(root);
  }

  lemma {:induction false} ResolvedIsCanonical(stack: seq<string>, segments: seq<string>)
    requires Canonical(stack) && SlashFree(segments)
    ensures Canonical(ResolveOnto(stack, segments))
    decreases |segments|
  {
    if segments == [] {
    } else {
      var w, rest := segments[0], segments[1..];
      if w == "" || w == "." {
        ResolvedIsCanonical(stack, rest);
      } else if w == ".." {
        ResolvedIsCanonical(if stack == [] then stack else stack[..|stack| - 1], rest);
      } else {
        ResolvedIsCanonical(stack + [w], rest);
      }
    }
  }

  ghost predicate CleanFrom(segments: seq<string>, base: nat) {
    forall i :: base <= i < |segments| ==> NoBackslash(segments[i])
  }

  lemma {:induction false} ResolvedIsClean(stack: seq<string>, segments: seq<string>, base: nat)
    requires CleanFrom(stack, base) && CleanFrom(segments, 0)
    ensures CleanFrom(ResolveOnto(stack, segments), base)
    decreases |segments|
  {
    if segments == [] {
    } else {
      var w, rest := segments[0], segments[1..];
      assert NoBackslash(w);
      if w == "" || w == "." {
        ResolvedIsClean(stack, rest, base);
      } else if w == ".." {
        ResolvedIsClean(if stack == [] then stack else stack[..|stack| - 1], rest, base);
      } else {
        ResolvedIsClean(stack + [w], rest, base);
      }
    }
  }

  lemma {:induction false} SplitIsClean(s: string)
    requires NoBackslash(s)
    ensures CleanFrom(Split(s), 0)
    decreases |s|
  {
    var k := FirstSlash(s);
    if k < |s| {
      SplitIsClean(s[k + 1..]);
    }
  }

  lemma NormalizedIsClean(s: string)
    ensures NoBackslash(G.NormalizePathForGlob(s))
  {
  }

  lemma {:induction false} JoinIsClean(segments: seq<string>)
    ensures NoBackslash(Join(segments)) <==> CleanFrom(segments, 0)
  {
    if |segments| == 1 {
      assert NoBackslash(Join(segments)) <==> NoBackslash(segments[0]);
    } else if |segments| > 1 {
      JoinIsClean(segments[1..]);
      var j := segments[0] + "/" + Join(segments[1..]);
      assert forall c :: c in j <==> c in segments[0] || c == '/' || c in Join(segments[1..]);
      assert CleanFrom(segments, 0) <==> NoBackslash(segments[0]) && CleanFrom(segments[1..], 0) by {
        assert segments == [segments[0]] + segments[1..];
      }
    }
  }

  // A relative path as the file system gives it.
  ghost predicate RelativeFile(rel: seq<string>) {
    Canonical(rel) && rel != []
  }

  lemma JoinedStart(rel: seq<string>)
    requires RelativeFile(rel)
    ensures Join(rel) != "" && Join(rel)[0] != '/' && !("./" <= Join(rel))
  {
    var w := rel[0];
    assert CanonicalSegment(w) && '/' !in w;
    assert Join(rel)[..|w|] == w;
    assert |w| > 1 ==> w[1] in w && Join(rel)[1] == w[1];
    assert |w| == 1 && w[0] == '.' ==> w == ".";
  }

  lemma NormalizedRelative(rel: seq<string>)
    requires RelativeFile(rel) && NoBackslash(Join(rel))
    ensures G.NormalizePathForGlob(Join(rel)) == Join(rel)
  {
    hide Join, Canonical;
    JoinedStart(rel);
    G.NoBackslashes(Join(rel));
  }

  /** The path stored in a file's entry is the file's own path exactly when the part below the root
      has no backslash: patterns see every backslash as a slash, and the entry's path is made from
      what they see. */
  lemma EntryPathIsOwnPathIff(root: seq<string>, rel: seq<string>)
    requires Canonical(root) && RelativeFile(rel)
    ensures var p := Absolute(root + rel);
      CreateSearchIndexEntry(Absolute(root), ToRelativePath(Absolute(root), p)).absolutePath == p
      <==> NoBackslash(Join(rel))
  {
    hide Split, ResolveOnto, G.NormalizePathForGlob, Absolute, Join, CreateSearchIndexEntry;
    var n := G.NormalizePathForGlob(Join(rel));
    RelativeOfAbsolute(root, rel);
    EntryPath(root, Join(rel));
    if NoBackslash(Join(rel)) {
      NormalizedRelative(rel);
      SplitJoined(rel);
      ResolveCanonical(root, rel);
    } else {
      NormalizedIsClean(Join(rel));
      SplitIsClean(n);
      SegmentsHaveNoSlash(n);
      ResolvedIsCanonical(root, Split(n));
      ResolvedIsClean(root, Split(n), |root|);
      SegmentsOfAbsolute(ResolveOnto(root, Split(n)));
      SegmentsOfAbsolute(root + rel);
      JoinIsClean(rel);
      TailIsClean(root, rel);
    }
  }

  lemma TailIsClean(root: seq<string>, rel: seq<string>)
    ensures CleanFrom(root + rel, |root|) <==> CleanFrom(rel, 0)
  {
    assert (root + rel)[|root|..] == rel;
    assert forall i :: 0 <= i < |rel| ==> (root + rel)[|root| + i] == rel[i];
    if CleanFrom(root + rel, |root|) {
      forall i | 0 <= i < |rel|
        ensures NoBackslash(rel[i])
      {
        assert NoBackslash((root + rel)[|root| + i]);
      }
    }
  }

  lemma {:induction false} JoinLast(segments: seq<string>)
    requires |segments| > 1
    ensures var n := |segments| - 1; Join(segments) == Join(segments[..n]) + ("/" + segments[n])
  {
    var n := |segments| - 1;
    if n == 1 {
      assert segments[1..] == [segments[1]] && segments[..1] == [segments[0]];
      assert Join(segments) == segments[0] + "/" + Join([segments[1]]);
    } else {
      JoinLast(segments[1..]);
      assert segments[1..][..n - 1] == segments[1..n] == segments[..n][1..];
      var front, last := Join(segments[1..n]), segments[n];
      assert Join(segments) == segments[0] + "/" + (front + ("/" + last));
      assert Join(segments[..n]) == segments[0] + "/" + front;
    }
  }

  lemma NameOfJoined(rel: seq<string>)
    requires RelativeFile(rel)
    ensures Basename(Join(rel)) == rel[|rel| - 1]
  {
    hide Split;
    var n := |rel| - 1;
    var last := rel[n];
    assert CanonicalSegment(last) && '/' !in last && last[|last| - 1] in last;
    if n > 0 {
      JoinLast(rel);
    }
    assert Join(rel)[|Join(rel)| - 1] == last[|last| - 1];
    SplitJoined(rel);
  }

  /** An entry shows its file: its path, its path below the root, its name, and the directory below
      the root that it is in, if any. */
  lemma EntryShowsFile(root: seq<string>, rel: seq<string>)
    requires Canonical(root) && RelativeFile(rel) && NoBackslash(Join(rel))
    ensures var path, n := Absolute(root + rel), |rel| - 1;
      CreateSearchIndexEntry(Absolute(root), ToRelativePath(Absolute(root), path)) ==
      Entry(path, Join(rel), rel[n], if n == 0 then None else Some(Join(rel[..n])))
  {
    hide Split, Basename, Canonical, NormalizeAbsolutePath, ToRelativePath, G.NormalizePathForGlob, Absolute, Join;
    RelativeOfAbsolute(root, rel);
    NormalizedRelative(rel);
    EntryPathIsOwnPathIff(root, rel);
    NameOfJoined(rel);
    var n := |rel| - 1;
    if n == 0 {
      assert rel == [rel[0]];
      JoinOne(rel[0]);
    } else {
      JoinLast(rel);
      assert Join(rel)[..|Join(rel)| - |rel[n]| - 1] == Join(rel[..n]);
      FrontIsFile(rel);
      JoinedStart(rel[..n]);
    }
  }

  lemma JoinOne(w: string)
    ensures Join([w]) == w
  {
  }

  lemma FrontIsFile(rel: seq<string>)
    requires RelativeFile(rel) && |rel| > 1
    ensures RelativeFile(rel[..|rel| - 1])
  {
  }

  lemma HiddenMeaning(rel: seq<string>)
    requires RelativeFile(rel) && NoBackslash(Join(rel))
    ensures forall i :: 0 <= i < |rel| ==> rel[i] != ""
    ensures IsHiddenRelativePath(Join(rel)) <==> exists i :: 0 <= i < |rel| && rel[i][0] == '.'
  {
    hide Split, Join, G.NormalizePathForGlob;
    NormalizedRelative(rel);
    SplitJoined(rel);
    forall i | 0 <= i < |rel|
      ensures rel[i] != "" && (rel[i][0] == '.' ==> |rel[i]| > 1)
    {
      assert CanonicalSegment(rel[i]);
      assert rel[i] == [rel[i][0]] || |rel[i]| > 1;
    }
  }

  /** What the index holds, in terms of path segments: hidden files only when asked for, nothing
      below an ignored directory, and nothing whose name has the ignored suffix; but a line break in the
      path keeps a file from being ignored, except in its own name for the suffix. */
  lemma ShouldIndexMeaning(rel: seq<string>, includeHidden: bool)
    requires RelativeFile(rel) && NoBackslash(Join(rel))
    ensures forall i :: 0 <= i < |rel| ==> rel[i] != ""
    ensures var n := |rel| - 1;
      ShouldIndexRelativePath(Join(rel), includeHidden) <==>
        && (includeHidden || forall i :: 0 <= i <= n ==> rel[i][0] != '.')
        && !(G.AllOneLine(rel) && exists i :: 0 <= i < n && rel[i] in G.IGNORED_DIRECTORIES)
        && !(G.AllOneLine(rel[..n]) && G.EndsWith(rel[n], G.IGNORED_SUFFIX))
  {
    hide Split, Join, G.NormalizePathForGlob, G.IgnoredByDefault, G.EndsWith, G.AllOneLine, G.IGNORED_DIRECTORIES, G.IGNORED_SUFFIX;
    hide Canonical, IsHiddenRelativePath;
    HiddenMeaning(rel);
    NormalizedRelative(rel);
    SplitJoined(rel) by { assert SlashFree(rel) by { CanonicalIsSlashFree(rel); } }
    G.DefaultIgnoreMeaning(Join(rel));
  }

  lemma NormalizedTwice(path: string)
    ensures G.NormalizePathForGlob(G.ReplaceBackslashes(path)) == G.NormalizePathForGlob(path)
  {
    var slashed := G.ReplaceBackslashes(path);
    assert NoBackslash(slashed);
    G.NoBackslashes(slashed);
    hide G.ReplaceBackslashes;
  }

  /** A backslash counts as a slash: whether a file is indexed, and as what, is decided for the path with
      slashes in their place. */
  lemma BackslashesAreSlashes(rootPath: string, relativePath: string, includeHidden: bool)
    ensures var slashed := G.ReplaceBackslashes(relativePath);
      && ShouldIndexRelativePath(relativePath, includeHidden) == ShouldIndexRelativePath(slashed, includeHidden)
      && CreateSearchIndexEntry(rootPath, relativePath) == CreateSearchIndexEntry(rootPath, slashed)
  {
    hide IsHiddenRelativePath, G.IgnoredByDefault, Basename, NormalizeAbsolutePath, G.NormalizePathForGlob;
    NormalizedTwice(relativePath);
  }

  lemma CanonicalIsSlashFree(segments: seq<string>)
    requires Canonical(segments)
    ensures SlashFree(segments)
  {
  }
}
