/** How the file watcher pairs deletes with creates and reports each pair as one rename
    (packages/workspace-fs/src/watch.ts). */
module WatchRenames {
  import opened Wrappers
  import opened JsMap
  import Paths

  datatype WatchEvent =
    | Created(path: string, isDirectory: bool)
    | Updated(path: string, isDirectory: bool)
    | Deleted(path: string, isDirectory: bool)
    | Renamed(oldPath: string, path: string, isDirectory: bool)
    | Overflow(path: string, isDirectory: bool)

  datatype Candidate = Candidate(index: nat, path: string, isDirectory: bool)

  type Pair = (Candidate, Candidate)

  // What two candidates must have in common.
  datatype Pass = ByParent | ByBaseName

  // `normalizeAbsolutePath(path.dirname(path))` of a normalized absolute path
  function ParentPath(path: string): string {
    var segments := Paths.SegmentsOf(path);
    Paths.Absolute(if segments == [] then [] else segments[..|segments| - 1])
  }

  // `path.basename(path)` of a normalized absolute path
  function BaseName(path: string): string {
    var segments := Paths.SegmentsOf(path);
    if segments == [] then "" else segments[|segments| - 1]
  }

  function Key(pass: Pass, c: Candidate): string {
    (if c.isDirectory then "dir" else "file")
    + (if pass == ByParent then "::parent::" + ParentPath(c.path) else "::basename::" + BaseName(c.path))
  }

  lemma KeyTellsKind(pass: Pass, c: Candidate, d: Candidate)
    requires Key(pass, c) == Key(pass, d)
    ensures c.isDirectory == d.isDirectory
  {
    assert Key(pass, c)[0] == if c.isDirectory then 'd' else 'f';
    assert Key(pass, d)[0] == if d.isDirectory then 'd' else 'f';
  }

  // ----- which candidates belong together -----

  ghost predicate Sole(pass: Pass, candidates: set<Candidate>, c: Candidate) {
    c in candidates && forall x :: x in candidates && Key(pass, x) == Key(pass, c) ==> x == c
  }

  // A delete and a create that are the only ones of their key.
  ghost function UniquePairs(pass: Pass, deletes: set<Candidate>, creates: set<Candidate>): set<Pair> {
    set d, c | d in deletes && c in creates
      && Key(pass, d) == Key(pass, c) && Sole(pass, deletes, d) && Sole(pass, creates, c) :: (d, c)
  }

  ghost function LastPair(deletes: set<Candidate>, creates: set<Candidate>): set<Pair> {
    set d, c | d in deletes && c in creates
      && deletes == {d} && creates == {c} && d.isDirectory == c.isDirectory :: (d, c)
  }

  ghost function Firsts(pairs: set<Pair>): set<Candidate> {
    set p | p in pairs :: p.0
  }

  ghost function Seconds(pairs: set<Pair>): set<Candidate> {
    set p | p in pairs :: p.1
  }

  // By parent first, then what is left by base name, then what is left if it is one of each.
  ghost function Pairing(deletes: set<Candidate>, creates: set<Candidate>): set<Pair> {
    var byParent := UniquePairs(ByParent, deletes, creates);
    var deletes1, creates1 := deletes - Firsts(byParent), creates - Seconds(byParent);
    var byName := UniquePairs(ByBaseName, deletes1, creates1);
    byParent + byName + LastPair(deletes1 - Firsts(byName), creates1 - Seconds(byName))
  }

  // Pairs of a delete and a create of the same kind, none of which is in two pairs.
  ghost predicate Matching(pairs: set<Pair>, deletes: set<Candidate>, creates: set<Candidate>) {
    && (forall p :: p in pairs ==> p.0 in deletes && p.1 in creates && p.0.isDirectory == p.1.isDirectory)
    && (forall p, q :: p in pairs && q in pairs && (p.0 == q.0 || p.1 == q.1) ==> p == q)
  }

  lemma UniquePairsMatch(pass: Pass, deletes: set<Candidate>, creates: set<Candidate>)
    ensures Matching(UniquePairs(pass, deletes, creates), deletes, creates)
  {
    hide Key;
    forall p | p in UniquePairs(pass, deletes, creates)
      ensures p.0.isDirectory == p.1.isDirectory
    {
      KeyTellsKind(pass, p.0, p.1);
    }
  }

  lemma MatchingUnion(p: set<Pair>, q: set<Pair>, deletes: set<Candidate>, creates: set<Candidate>)
    requires Matching(p, deletes, creates)
    requires Matching(q, deletes - Firsts(p), creates - Seconds(p))
    ensures Matching(p + q, deletes, creates)
    ensures deletes - Firsts(p + q) == deletes - Firsts(p) - Firsts(q)
    ensures creates - Seconds(p + q) == creates - Seconds(p) - Seconds(q)
  {
    SidesOfUnion(p, q);
    hide Firsts, Seconds;
    assert forall a :: a in p ==> a.0 in Firsts(p) && a.1 in Seconds(p);
    assert forall a :: a in q ==> a.0 !in Firsts(p) && a.1 !in Seconds(p);
  }

  lemma SidesOfUnion(p: set<Pair>, q: set<Pair>)
    ensures Firsts(p + q) == Firsts(p) + Firsts(q)
    ensures Seconds(p + q) == Seconds(p) + Seconds(q)
    ensures forall a :: a in p ==> a.0 in Firsts(p) && a.1 in Seconds(p)
  {
  }

  /** Pairing is one-to-one between deletes and creates of the same kind, and does not stop early:
      it never leaves exactly one delete and one create that are of the same kind. */
  lemma PairingMatches(deletes: set<Candidate>, creates: set<Candidate>)
    ensures Matching(Pairing(deletes, creates), deletes, creates)
    ensures var left, right := deletes - Firsts(Pairing(deletes, creates)), creates - Seconds(Pairing(deletes, creates));
      forall d, c :: left == {d} && right == {c} ==> d.isDirectory != c.isDirectory
  {
    hide UniquePairs, Matching, Firsts, Seconds;
    var byParent := UniquePairs(ByParent, deletes, creates);
    var deletes1, creates1 := deletes - Firsts(byParent), creates - Seconds(byParent);
    var byName := UniquePairs(ByBaseName, deletes1, creates1);
    var deletes2, creates2 := deletes1 - Firsts(byName), creates1 - Seconds(byName);
    var last := LastPair(deletes2, creates2);
    UniquePairsMatch(ByParent, deletes, creates);
    UniquePairsMatch(ByBaseName, deletes1, creates1);
    MatchingUnion(byParent, byName, deletes, creates);
    LastPairMatches(deletes2, creates2);
    MatchingUnion(byParent + byName, last, deletes, creates);
    LastPairIsLast(deletes2, creates2);
  }

  lemma LastPairMatches(deletes: set<Candidate>, creates: set<Candidate>)
    ensures Matching(LastPair(deletes, creates), deletes, creates)
  {
    forall p, q | p in LastPair(deletes, creates) && q in LastPair(deletes, creates)
      ensures p == q
    {
      assert p.0 in {q.0} && p.1 in {q.1};
    }
  }

  lemma LastPairIsLast(deletes: set<Candidate>, creates: set<Candidate>)
    ensures var left, right := deletes - Firsts(LastPair(deletes, creates)), creates - Seconds(LastPair(deletes, creates));
      forall d, c :: left == {d} && right == {c} ==> d.isDirectory != c.isDirectory
  {
    var last := LastPair(deletes, creates);
    forall d, c | deletes - Firsts(last) == {d} && creates - Seconds(last) == {c}
      ensures d.isDirectory != c.isDirectory
    {
      assert d in deletes && c in creates && d !in Firsts(last);
      assert forall p :: p in last ==> p.0 in Firsts(last) && d in {p.0};
      assert last == {};
      assert Firsts(last) == {} && Seconds(last) == {};
      assert deletes == {d} && creates == {c};
      assert d.isDirectory == c.isDirectory ==> (d, c) in last;
    }
  }

  // ----- what is paired, in terms of paths -----

  // The candidate's path, by its directory and its name.
  ghost predicate Located(c: Candidate, dir: seq<string>, name: string) {
    Paths.Canonical(dir + [name]) && c.path == Paths.Absolute(dir + [name])
  }

  lemma PathParts(c: Candidate, dir: seq<string>, name: string)
    requires Located(c, dir, name)
    ensures Paths.Canonical(dir) && ParentPath(c.path) == Paths.Absolute(dir) && BaseName(c.path) == name
  {
    hide Paths.SegmentsOf, Paths.Absolute;
    var path := dir + [name];
    Paths.SegmentsOfAbsolute(path);
    assert path[..|path| - 1] == dir && path[|path| - 1] == name;
    forall i | 0 <= i < |dir|
      ensures '/' !in dir[i] && Paths.CanonicalSegment(dir[i])
    {
      assert path[i] == dir[i];
    }
  }

  /** Candidates have the same key by parent if they are of one kind and in one directory, and by base name if
      they are of one kind and have one name. */
  lemma KeyMeaning(c: Candidate, a: seq<string>, x: string, d: Candidate, b: seq<string>, y: string)
    requires Located(c, a, x) && Located(d, b, y)
    ensures Key(ByParent, c) == Key(ByParent, d) <==> c.isDirectory == d.isDirectory && a == b
    ensures Key(ByBaseName, c) == Key(ByBaseName, d) <==> c.isDirectory == d.isDirectory && x == y
  {
    hide Located, Paths.Absolute, Paths.SegmentsOf, Paths.Canonical;
    PathParts(c, a, x);
    PathParts(d, b, y);
    Paths.SegmentsOfAbsolute(a);
    Paths.SegmentsOfAbsolute(b);
    SameKey(c, "::parent::", Paths.Absolute(a), d, Paths.Absolute(b));
    SameKey(c, "::basename::", x, d, y);
  }

  lemma SameKey(c: Candidate, mark: string, p: string, d: Candidate, q: string)
    requires mark != ""
    ensures var k, l := if c.isDirectory then "dir" else "file", if d.isDirectory then "dir" else "file";
      k + (mark + p) == l + (mark + q) <==> c.isDirectory == d.isDirectory && p == q
  {
    var k, l := if c.isDirectory then "dir" else "file", if d.isDirectory then "dir" else "file";
    var s, t := k + (mark + p), l + (mark + q);
    assert s[0] == k[0] && t[0] == l[0];
    if s == t {
      assert s[|k| + |mark|..] == p && t[|l| + |mark|..] == q;
    }
  }

  // Of one kind and of one name, the one in directory a and the other in directory b.
  ghost predicate SameName(d: Candidate, c: Candidate, a: seq<string>, b: seq<string>) {
    d.isDirectory == c.isDirectory && exists x :: Located(d, a, x) && Located(c, b, x)
  }

  // All in one directory, no two of one path.
  ghost predicate AllIn(candidates: set<Candidate>, dir: seq<string>) {
    && (forall c :: c in candidates ==> exists x :: Located(c, dir, x))
    && (forall c, d :: c in candidates && d in candidates && c.path == d.path ==> c == d)
  }

  ghost function NamedAlike(deletes: set<Candidate>, creates: set<Candidate>, a: seq<string>, b: seq<string>): set<Pair> {
    set d, c | d in deletes && c in creates && SameName(d, c, a, b) :: (d, c)
  }

  lemma SoleByName(candidates: set<Candidate>, dir: seq<string>, c: Candidate)
    requires AllIn(candidates, dir) && c in candidates
    ensures Sole(ByBaseName, candidates, c)
  {
    hide Key, Located;
    var x :| Located(c, dir, x);
    forall d | d in candidates && Key(ByBaseName, d) == Key(ByBaseName, c)
      ensures d == c
    {
      var y :| Located(d, dir, y);
      KeyMeaning(d, dir, y, c, dir, x);
      SamePath(d, c, dir, x);
    }
  }

  lemma SamePath(c: Candidate, d: Candidate, dir: seq<string>, x: string)
    requires Located(c, dir, x) && Located(d, dir, x)
    ensures c.path == d.path
  {
  }

  /** What is moved from one directory to another in one batch is paired with what has its name there. */
  lemma MovedTogether(deletes: set<Candidate>, creates: set<Candidate>, a: seq<string>, b: seq<string>)
    requires a != b && AllIn(deletes, a) && AllIn(creates, b)
    requires forall d :: d in deletes ==> exists c :: c in creates && SameName(d, c, a, b)
    requires forall c :: c in creates ==> exists d :: d in deletes && SameName(d, c, a, b)
    ensures Pairing(deletes, creates) == NamedAlike(deletes, creates, a, b)
  {
    hide Key, Located, UniquePairs, NamedAlike, Firsts, Seconds;
    MovedPairs(deletes, creates, a, b);
    DeletesMoved(deletes, creates, a, b);
    CreatesMoved(deletes, creates, a, b);
    NothingGone(deletes, creates);
    AllPaired(deletes, creates, NamedAlike(deletes, creates, a, b));
  }

  lemma MovedPairs(deletes: set<Candidate>, creates: set<Candidate>, a: seq<string>, b: seq<string>)
    requires a != b && AllIn(deletes, a) && AllIn(creates, b)
    ensures UniquePairs(ByParent, deletes, creates) == {}
    ensures UniquePairs(ByBaseName, deletes, creates) == NamedAlike(deletes, creates, a, b)
  {
    hide Key, Located, Sole, SameName;
    forall d, c | d in deletes && c in creates
      ensures Key(ByParent, d) != Key(ByParent, c)
      ensures Key(ByBaseName, d) == Key(ByBaseName, c) <==> SameName(d, c, a, b)
      ensures Sole(ByBaseName, deletes, d) && Sole(ByBaseName, creates, c)
    {
      AlikeIff(d, c, a, b);
      SoleByName(deletes, a, d);
      SoleByName(creates, b, c);
    }
  }

  lemma DeletesMoved(deletes: set<Candidate>, creates: set<Candidate>, a: seq<string>, b: seq<string>)
    requires forall d :: d in deletes ==> exists c :: c in creates && SameName(d, c, a, b)
    ensures forall d :: d in deletes ==> exists c :: (d, c) in NamedAlike(deletes, creates, a, b)
  {
    hide SameName;
    forall d | d in deletes
      ensures exists c :: (d, c) in NamedAlike(deletes, creates, a, b)
    {
      var c :| c in creates && SameName(d, c, a, b);
      assert (d, c) in NamedAlike(deletes, creates, a, b);
    }
  }

  lemma CreatesMoved(deletes: set<Candidate>, creates: set<Candidate>, a: seq<string>, b: seq<string>)
    requires forall c :: c in creates ==> exists d :: d in deletes && SameName(d, c, a, b)
    ensures forall c :: c in creates ==> exists d :: (d, c) in NamedAlike(deletes, creates, a, b)
  {
    hide SameName;
    forall c | c in creates
      ensures exists d :: (d, c) in NamedAlike(deletes, creates, a, b)
    {
      var d :| d in deletes && SameName(d, c, a, b);
      assert (d, c) in NamedAlike(deletes, creates, a, b);
    }
  }

  lemma NothingGone(deletes: set<Candidate>, creates: set<Candidate>)
    ensures deletes - Firsts({}) == deletes && creates - Seconds({}) == creates
    ensures UniquePairs(ByBaseName, {}, {}) == {}
  {
  }

  lemma AlikeIff(d: Candidate, c: Candidate, a: seq<string>, b: seq<string>)
    requires a != b && (exists x :: Located(d, a, x)) && exists x :: Located(c, b, x)
    ensures Key(ByParent, d) != Key(ByParent, c)
    ensures Key(ByBaseName, d) == Key(ByBaseName, c) <==> SameName(d, c, a, b)
  {
    hide Key, Located;
    var x :| Located(d, a, x);
    var y :| Located(c, b, y);
    KeyMeaning(d, a, x, c, b, y);
    if z :| Located(d, a, z) && Located(c, b, z) {
      KeyMeaning(d, a, z, c, b, z);
    }
  }

  // Nothing is left over when everything is in a pair.
  lemma AllPaired(deletes: set<Candidate>, creates: set<Candidate>, pairs: set<Pair>)
    requires forall d :: d in deletes ==> exists c :: (d, c) in pairs
    requires forall c :: c in creates ==> exists d :: (d, c) in pairs
    ensures deletes - Firsts(pairs) == {} && creates - Seconds(pairs) == {}
    ensures LastPair({}, {}) == {}
  {
    forall d | d in deletes
      ensures d in Firsts(pairs)
    {
      var c :| (d, c) in pairs;
      assert (d, c).0 == d;
    }
    forall c | c in creates
      ensures c in Seconds(pairs)
    {
      var d :| (d, c) in pairs;
      assert (d, c).1 == c;
    }
  }

  // In one directory and of one kind.
  ghost predicate SameDirectory(c: Candidate, d: Candidate) {
    c.isDirectory == d.isDirectory && exists dir, x, y :: Located(c, dir, x) && Located(d, dir, y)
  }

  // No two of one kind in one directory.
  ghost predicate OnePerDirectory(candidates: set<Candidate>) {
    && (forall c :: c in candidates ==> exists dir, x :: Located(c, dir, x))
    && (forall c, d :: c in candidates && d in candidates && SameDirectory(c, d) ==> c == d)
  }

  ghost function RenamedInside(deletes: set<Candidate>, creates: set<Candidate>): set<Pair> {
    set d, c | d in deletes && c in creates && SameDirectory(d, c) :: (d, c)
  }

  lemma SameDirectoryIff(c: Candidate, d: Candidate)
    requires (exists dir, x :: Located(c, dir, x)) && exists dir, x :: Located(d, dir, x)
    ensures Key(ByParent, c) == Key(ByParent, d) <==> SameDirectory(c, d)
  {
    hide Key, Located;
    var a, x :| Located(c, a, x);
    var b, y :| Located(d, b, y);
    KeyMeaning(c, a, x, d, b, y);
    if dir, z, w :| Located(c, dir, z) && Located(d, dir, w) {
      KeyMeaning(c, dir, z, d, dir, w);
    }
  }

  /** What is renamed in place, one of a kind in each directory, is paired within its directory. */
  lemma RenamedInPlace(deletes: set<Candidate>, creates: set<Candidate>)
    requires OnePerDirectory(deletes) && OnePerDirectory(creates)
    requires forall d :: d in deletes ==> exists c :: c in creates && SameDirectory(d, c)
    requires forall c :: c in creates ==> exists d :: d in deletes && SameDirectory(d, c)
    ensures Pairing(deletes, creates) == RenamedInside(deletes, creates)
  {
    hide Key, Located, UniquePairs, RenamedInside, SameDirectory, Firsts, Seconds;
    InPlacePairs(deletes, creates);
    DeletesRenamed(deletes, creates);
    CreatesRenamed(deletes, creates);
    NothingGone({}, {});
    AllPaired(deletes, creates, RenamedInside(deletes, creates));
  }

  lemma InPlacePairs(deletes: set<Candidate>, creates: set<Candidate>)
    requires OnePerDirectory(deletes) && OnePerDirectory(creates)
    ensures UniquePairs(ByParent, deletes, creates) == RenamedInside(deletes, creates)
  {
    hide Key, Located, Sole, SameDirectory;
    forall d, c | d in deletes && c in creates
      ensures Key(ByParent, d) == Key(ByParent, c) <==> SameDirectory(d, c)
      ensures Sole(ByParent, deletes, d) && Sole(ByParent, creates, c)
    {
      SameDirectoryIff(d, c);
      SoleInDirectory(deletes, d);
      SoleInDirectory(creates, c);
    }
  }

  lemma SoleInDirectory(candidates: set<Candidate>, c: Candidate)
    requires OnePerDirectory(candidates) && c in candidates
    ensures Sole(ByParent, candidates, c)
  {
    hide Key, Located, SameDirectory;
    forall d | d in candidates && Key(ByParent, d) == Key(ByParent, c)
      ensures d == c
    {
      SameDirectoryIff(d, c);
    }
  }

  lemma DeletesRenamed(deletes: set<Candidate>, creates: set<Candidate>)
    requires forall d :: d in deletes ==> exists c :: c in creates && SameDirectory(d, c)
    ensures forall d :: d in deletes ==> exists c :: (d, c) in RenamedInside(deletes, creates)
  {
    hide SameDirectory;
    forall d | d in deletes
      ensures exists c :: (d, c) in RenamedInside(deletes, creates)
    {
      var c :| c in creates && SameDirectory(d, c);
      assert (d, c) in RenamedInside(deletes, creates);
    }
  }

  lemma CreatesRenamed(deletes: set<Candidate>, creates: set<Candidate>)
    requires forall c :: c in creates ==> exists d :: d in deletes && SameDirectory(d, c)
    ensures forall c :: c in creates ==> exists d :: (d, c) in RenamedInside(deletes, creates)
  {
    hide SameDirectory;
    forall c | c in creates
      ensures exists d :: (d, c) in RenamedInside(deletes, creates)
    {
      var d :| d in deletes && SameDirectory(d, c);
      assert (d, c) in RenamedInside(deletes, creates);
    }
  }

  // ----- collecting the pairs -----

  // Candidates as they are collected: in the order of their indices.
  ghost predicate Indexed(candidates: seq<Candidate>) {
    forall i, j :: 0 <= i < j < |candidates| ==> candidates[i].index < candidates[j].index
  }

  ghost function Unused(candidates: seq<Candidate>, used: set<nat>): set<Candidate> {
    set c | c in candidates && c.index !in used
  }

  ghost function Members(candidates: seq<Candidate>): set<Candidate> {
    set c | c in candidates
  }

  ghost function Indexes(candidates: set<Candidate>): set<nat> {
    set c | c in candidates :: c.index
  }

  type Groups = Entries<string, seq<Candidate>>

  // The candidates of `members` by key, each group without repetitions.
  ghost predicate Grouped(pass: Pass, groups: Groups, members: set<Candidate>) {
    && Distinct(groups)
    && (forall c :: c in members ==> Key(pass, c) in AsMap(groups) && c in AsMap(groups)[Key(pass, c)])
    && (forall k :: k in AsMap(groups) ==> GroupOf(pass, k, AsMap(groups)[k], members))
  }

  ghost predicate GroupOf(pass: Pass, k: string, group: seq<Candidate>, members: set<Candidate>) {
    && group != []
    && (forall i :: 0 <= i < |group| ==> group[i] in members && Key(pass, group[i]) == k)
    && (forall i, j :: 0 <= i < j < |group| ==> group[i] != group[j])
  }

  method GroupByKey(pass: Pass, candidates: seq<Candidate>, used: set<nat>) returns (groups: Groups)
    requires Indexed(candidates)
    ensures Grouped(pass, groups, Unused(candidates, used))
  {
    hide Key, Grouped, Indexed;
    groups := [];
    NothingGrouped(pass);
    assert Unused(candidates[..0], used) == {};
    for i := 0 to |candidates|
      invariant Grouped(pass, groups, Unused(candidates[..i], used))
    {
      var candidate := candidates[i];
      UnusedNext(candidates, used, i);
      if candidate.index in used {
        continue;
      }
      var key := Key(pass, candidate);
      var group := Get(groups, key);
      ghost var was := groups;
      if group.Some? {
        groups := Set(groups, key, group.value + [candidate]);
      } else {
        groups := Set(groups, key, [candidate]);
      }
      assert [] + [candidate] == [candidate];
      GroupsNext(pass, was, Unused(candidates[..i], used), candidate);
    }
    assert candidates[..|candidates|] == candidates;
  }

  lemma NothingGrouped(pass: Pass)
    ensures Grouped(pass, [], {})
  {
  }

  lemma UnusedNext(candidates: seq<Candidate>, used: set<nat>, i: nat)
    requires Indexed(candidates) && i < |candidates|
    ensures candidates[i] !in Unused(candidates[..i], used)
    ensures Unused(candidates[..i + 1], used) ==
            if candidates[i].index in used then Unused(candidates[..i], used)
            else Unused(candidates[..i], used) + {candidates[i]}
  {
    assert candidates[..i + 1] == candidates[..i] + [candidates[i]];
  }

  lemma GroupsNext(pass: Pass, groups: Groups, members: set<Candidate>, c: Candidate)
    requires Grouped(pass, groups, members) && c !in members
    ensures var group := Get(groups, Key(pass, c));
      Grouped(pass, Set(groups, Key(pass, c), (if group.Some? then group.value else []) + [c]), members + {c})
  {
    hide Key, AsMap;
    var k := Key(pass, c);
    Lookup(groups, k);
    var group := if k in AsMap(groups) then AsMap(groups)[k] else [];
    Setting(groups, k, group + [c]);
    assert k in AsMap(groups) ==> GroupOf(pass, k, AsMap(groups)[k], members);
    assert GroupOf(pass, k, group + [c], members + {c});
  }

  lemma OneElement<T>(s: seq<T>, x: T)
    requires s != [] && forall i :: 0 <= i < |s| ==> s[i] == x
    requires forall i, j :: 0 <= i < j < |s| ==> s[i] != s[j]
    ensures s == [x]
  {
    assert s[0] == s[|s| - 1];
  }

  lemma SoleIffSingleton(pass: Pass, groups: Groups, members: set<Candidate>, k: string, c: Candidate)
    requires Grouped(pass, groups, members)
    ensures k in AsMap(groups) && AsMap(groups)[k] == [c] <==> Sole(pass, members, c) && Key(pass, c) == k
  {
    hide Key, AsMap;
    if k in AsMap(groups) {
      var group := AsMap(groups)[k];
      assert GroupOf(pass, k, group, members);
      assert forall x :: x in members && Key(pass, x) == k <==> x in group;
      if Sole(pass, members, c) && Key(pass, c) == k {
        assert group[0] in group && group[0] == c;
        assert forall i :: 0 <= i < |group| ==> group[i] in group;
        OneElement(group, c);
      } else {
        assert group == [c] ==> c in group;
      }
    }
  }

  ghost function Elements(pairs: seq<Pair>): set<Pair> {
    set p | p in pairs
  }

  method CollectUniquePairs(pass: Pass, deletes: seq<Candidate>, creates: seq<Candidate>,
                            usedDeletes: set<nat>, usedCreates: set<nat>)
    returns (pairs: seq<Pair>, usedDeletes': set<nat>, usedCreates': set<nat>)
    requires Indexed(deletes) && Indexed(creates)
    ensures Elements(pairs) == UniquePairs(pass, Unused(deletes, usedDeletes), Unused(creates, usedCreates))
    ensures usedDeletes' == usedDeletes + Indexes(Firsts(Elements(pairs)))
    ensures usedCreates' == usedCreates + Indexes(Seconds(Elements(pairs)))
  {
    hide Key, Indexed, Grouped, AsMap, Firsts, Seconds, UniquePairs;
    ghost var ds, cs := Unused(deletes, usedDeletes), Unused(creates, usedCreates);
    var deletesByKey := GroupByKey(pass, deletes, usedDeletes);
    var createsByKey := GroupByKey(pass, creates, usedCreates);
    pairs, usedDeletes', usedCreates' := [], usedDeletes, usedCreates;
    NoPairs();
    for i := 0 to |deletesByKey|
      invariant Elements(pairs) == PairsOfKeys(pass, ds, cs, deletesByKey[..i])
      invariant usedDeletes' == usedDeletes + Indexes(Firsts(Elements(pairs)))
      invariant usedCreates' == usedCreates + Indexes(Seconds(Elements(pairs)))
    {
      var (key, deleteGroup) := deletesByKey[i];
      var createGroup := Get(createsByKey, key);
      PairsOfNextKey(pass, ds, cs, deletesByKey, createsByKey, i);
      if createGroup.None? || |deleteGroup| != 1 || |createGroup.value| != 1 {
        continue;
      }
      var deleteCandidate: Candidate, createCandidate: Candidate := deleteGroup[0], createGroup.value[0];
      usedDeletes' := usedDeletes' + {deleteCandidate.index};
      usedCreates' := usedCreates' + {createCandidate.index};
      PairAdded(pairs, (deleteCandidate, createCandidate));
      pairs := pairs + [(deleteCandidate, createCandidate)];
    }
    assert deletesByKey[..|deletesByKey|] == deletesByKey;
    AllKeys(pass, ds, cs, deletesByKey);
  }

  // The unique pairs whose key is one of those of `groups`.
  ghost function PairsOfKeys(pass: Pass, ds: set<Candidate>, cs: set<Candidate>, groups: Groups): set<Pair> {
    set p | p in UniquePairs(pass, ds, cs) && exists i :: 0 <= i < |groups| && groups[i].0 == Key(pass, p.0)
  }

  lemma NoPairs()
    ensures Elements([]) == {} && Indexes(Firsts({})) == {} && Indexes(Seconds({})) == {}
  {
  }

  lemma PairAdded(pairs: seq<Pair>, p: Pair)
    ensures Elements(pairs + [p]) == Elements(pairs) + {p}
    ensures Indexes(Firsts(Elements(pairs + [p]))) == Indexes(Firsts(Elements(pairs))) + {p.0.index}
    ensures Indexes(Seconds(Elements(pairs + [p]))) == Indexes(Seconds(Elements(pairs))) + {p.1.index}
  {
    assert Elements(pairs + [p]) == Elements(pairs) + {p};
    assert Firsts(Elements(pairs) + {p}) == Firsts(Elements(pairs)) + {p.0};
    assert Seconds(Elements(pairs) + {p}) == Seconds(Elements(pairs)) + {p.1};
  }

  lemma AllKeys(pass: Pass, ds: set<Candidate>, cs: set<Candidate>, groups: Groups)
    requires Grouped(pass, groups, ds)
    ensures PairsOfKeys(pass, ds, cs, groups) == UniquePairs(pass, ds, cs)
  {
    hide Key, AsMap;
    forall p | p in UniquePairs(pass, ds, cs)
      ensures p in PairsOfKeys(pass, ds, cs, groups)
    {
      Lookup(groups, Key(pass, p.0));
      var i := Position(groups, Key(pass, p.0));
    }
  }

  lemma PairsOfNextKey(pass: Pass, ds: set<Candidate>, cs: set<Candidate>, dGroups: Groups, cGroups: Groups, i: nat)
    requires Grouped(pass, dGroups, ds) && Grouped(pass, cGroups, cs) && i < |dGroups|
    ensures var dGroup, cGroup := dGroups[i].1, Get(cGroups, dGroups[i].0);
      PairsOfKeys(pass, ds, cs, dGroups[..i + 1]) ==
      PairsOfKeys(pass, ds, cs, dGroups[..i])
      + if cGroup.None? || |dGroup| != 1 || |cGroup.value| != 1 then {} else {(dGroup[0], cGroup.value[0])}
  {
    hide Key, AsMap, Grouped;
    var (k, dGroup) := dGroups[i];
    GroupedIsDistinct(pass, dGroups, ds);
    At(dGroups, i);
    Lookup(cGroups, k);
    var added := if Get(cGroups, k).None? || |dGroup| != 1 || |Get(cGroups, k).value| != 1 then {}
                 else {(dGroup[0], Get(cGroups, k).value[0])};
    forall p: Pair
      ensures p in added <==> p in UniquePairs(pass, ds, cs) && Key(pass, p.0) == k
    {
      SoleIffSingleton(pass, dGroups, ds, k, p.0);
      SoleIffSingleton(pass, cGroups, cs, k, p.1);
    }
    assert dGroups[..i + 1] == dGroups[..i] + [dGroups[i]];
  }

  lemma GroupedIsDistinct(pass: Pass, groups: Groups, members: set<Candidate>)
    requires Grouped(pass, groups, members)
    ensures Distinct(groups)
  {
  }

  lemma UnusedLeft(candidates: seq<Candidate>, used: set<nat>, gone: set<Candidate>)
    requires Indexed(candidates) && gone <= Unused(candidates, used)
    ensures Unused(candidates, used + Indexes(gone)) == Unused(candidates, used) - gone
  {
    forall c, g | c in candidates && g in gone && c.index == g.index
      ensures c == g
    {
      var i :| 0 <= i < |candidates| && candidates[i] == c;
      var j :| 0 <= j < |candidates| && candidates[j] == g;
    }
  }

  method FilterUnused(candidates: seq<Candidate>, used: set<nat>) returns (left: seq<Candidate>)
    requires Indexed(candidates)
    ensures Indexed(left) && Unused(candidates, used) == Members(left)
  {
    left := [];
    for i := 0 to |candidates|
      invariant Indexed(left) && Unused(candidates[..i], used) == Members(left)
      invariant forall k, j :: 0 <= k < |left| && i <= j < |candidates| ==> left[k].index < candidates[j].index
    {
      UnusedNext(candidates, used, i);
      if candidates[i].index !in used {
        left := left + [candidates[i]];
      }
    }
    assert candidates[..|candidates|] == candidates;
  }

  method PairRenameCandidates(deletes: seq<Candidate>, creates: seq<Candidate>) returns (pairs: seq<Pair>)
    requires Indexed(deletes) && Indexed(creates)
    ensures Elements(pairs) == Pairing(Unused(deletes, {}), Unused(creates, {}))
  {
    hide Key, UniquePairs, Firsts, Seconds, LastPair;
    ghost var ds, cs := Unused(deletes, {}), Unused(creates, {});
    var byParent, usedDeletes, usedCreates := CollectUniquePairs(ByParent, deletes, creates, {}, {});
    PairsAreMembers(ByParent, ds, cs);
    UnusedLeft(deletes, {}, Firsts(Elements(byParent)));
    UnusedLeft(creates, {}, Seconds(Elements(byParent)));
    ghost var ds1, cs1 := Unused(deletes, usedDeletes), Unused(creates, usedCreates);
    var byName, usedDeletes', usedCreates' := CollectUniquePairs(ByBaseName, deletes, creates, usedDeletes, usedCreates);
    PairsAreMembers(ByBaseName, ds1, cs1);
    UnusedLeft(deletes, usedDeletes, Firsts(Elements(byName)));
    UnusedLeft(creates, usedCreates, Seconds(Elements(byName)));
    pairs := byParent + byName;
    assert Elements(pairs) == Elements(byParent) + Elements(byName);
    var remainingDeletes := FilterUnused(deletes, usedDeletes');
    var remainingCreates := FilterUnused(creates, usedCreates');
    LastOfEach(remainingDeletes, remainingCreates);
    if |remainingDeletes| == 1 && |remainingCreates| == 1
       && remainingDeletes[0].isDirectory == remainingCreates[0].isDirectory {
      PairAdded(pairs, (remainingDeletes[0], remainingCreates[0]));
      pairs := pairs + [(remainingDeletes[0], remainingCreates[0])];
    }
  }

  lemma PairsAreMembers(pass: Pass, deletes: set<Candidate>, creates: set<Candidate>)
    ensures Firsts(UniquePairs(pass, deletes, creates)) <= deletes
    ensures Seconds(UniquePairs(pass, deletes, creates)) <= creates
  {
  }

  lemma LastOfEach(deletes: seq<Candidate>, creates: seq<Candidate>)
    requires Indexed(deletes) && Indexed(creates)
    ensures LastPair(Members(deletes), Members(creates)) ==
            if |deletes| == 1 && |creates| == 1 && deletes[0].isDirectory == creates[0].isDirectory
            then {(deletes[0], creates[0])} else {}
  {
    SingletonIffOne(deletes);
    SingletonIffOne(creates);
  }

  lemma SingletonIffOne(candidates: seq<Candidate>)
    requires Indexed(candidates)
    ensures forall c :: Members(candidates) == {c} <==> candidates == [c]
  {
    forall c | Members(candidates) == {c}
      ensures candidates == [c]
    {
      assert c in Members(candidates);
      forall i | 0 <= i < |candidates|
        ensures candidates[i] == c
      {
        assert candidates[i] in candidates && candidates[i] in Members(candidates);
      }
      OneElement(candidates, c);
    }
    assert forall c :: candidates == [c] ==> candidates[0] == c && Members(candidates) == {c};
  }
}
