/** A search index patched from watch events is the index that a full rebuild would give
    (packages/workspace-fs/src/watch.ts, packages/workspace-fs/src/search.ts). */
module SearchIndexRefinement {
  import opened JsMap
  import opened Paths
  import W = WatchCoalescing
  import T = WatchTimeline
  import opened WatchRenames
  import opened WatchReconciliation
  import opened SearchIndex

  // What a watched event becomes once it is known which paths are directories.
  function Internal(event: W.RawEvent, directories: set<string>): WatchEvent {
    var path := NormalizeAbsolutePath(event.path);
    var isDirectory := path in directories;
    match event.kind
    case Create => Created(path, isDirectory)
    case Update => Updated(path, isDirectory)
    case Delete => Deleted(path, isDirectory)
  }

  function Internals(events: seq<W.RawEvent>, directories: set<string>): seq<WatchEvent> {
    seq(|events|, i requires 0 <= i < |events| => Internal(events[i], directories))
  }

  // The events that a coalesced batch is reduced to.
  ghost function Reduced(batch: seq<W.RawEvent>, directories: set<string>): seq<WatchEvent> {
    Reconcile(Internals(batch, directories))
  }

  function EntryOf(rootPath: string, path: string): Entry {
    CreateSearchIndexEntry(rootPath, ToRelativePath(rootPath, path))
  }

  predicate Wanted(rootPath: string, includeHidden: bool, path: string) {
    ShouldIndexRelativePath(ToRelativePath(rootPath, path), includeHidden)
  }

  // A normalized path below the root, without a backslash in the part below it.
  ghost predicate FileBelow(root: seq<string>, path: string) {
    exists rel :: RelativeFile(rel) && NoBackslash(Join(rel)) && path == Absolute(root + rel)
  }

  lemma FileFacts(root: seq<string>, path: string)
    requires Canonical(root) && FileBelow(root, path)
    ensures NormalizeAbsolutePath(path) == path && path != ""
    ensures EntryOf(Absolute(root), path).absolutePath == path
  {
    hide CreateSearchIndexEntry, Join, Canonical, ToRelativePath;
    var rel :| RelativeFile(rel) && NoBackslash(Join(rel)) && path == Absolute(root + rel);
    RelativeOfAbsolute(root, rel);
    SegmentsOfAbsolute(root + rel);
    EntryPathIsOwnPathIff(root, rel);
  }

  lemma EntriesOwnPaths(root: seq<string>, files: set<string>)
    requires Canonical(root) && forall p :: p in files ==> FileBelow(root, p)
    ensures forall p :: p in files ==> EntryOf(Absolute(root), p).absolutePath == p
  {
    hide FileBelow, EntryOf, Canonical;
    forall p | p in files
      ensures EntryOf(Absolute(root), p).absolutePath == p
    {
      FileFacts(root, p);
    }
  }

  // ----- one patch -----

  // A full rebuild, by path.
  ghost predicate Holds(m: map<string, Entry>, rootPath: string, includeHidden: bool, files: set<string>) {
    && (forall p :: p in m <==> p in files && Wanted(rootPath, includeHidden, p))
    && (forall p :: p in m ==> m[p] == EntryOf(rootPath, p))
  }

  function WatchEffect(files: set<string>, event: WatchEvent): set<string> {
    match event
    case Created(path, _) => files + {path}
    case Updated(path, _) => files + {path}
    case Deleted(path, _) => files - {path}
    case Renamed(oldPath, path, _) => files - {oldPath} + {path}
    case Overflow(_, _) => files
  }

  function WatchEffects(files: set<string>, events: seq<WatchEvent>): set<string>
    decreases |events|
  {
    if events == [] then files else WatchEffects(WatchEffect(files, events[0]), events[1..])
  }

  ghost predicate FileEvent(root: seq<string>, event: WatchEvent) {
    && !event.Overflow? && !event.isDirectory && FileBelow(root, event.path)
    && (event.Renamed? ==> FileBelow(root, event.oldPath))
  }

  lemma PatchHolds(items: Items, root: seq<string>, includeHidden: bool, files: set<string>, event: WatchEvent)
    requires Canonical(root) && FileEvent(root, event)
    requires Distinct(items) && Holds(AsMap(items), Absolute(root), includeHidden, files)
    ensures var next := ApplySearchPatchEvent(items, Absolute(root), includeHidden, event);
      Distinct(next) && Holds(AsMap(next), Absolute(root), includeHidden, WatchEffect(files, event))
  {
    hide Canonical, FileBelow, Absolute, NormalizeAbsolutePath, CreateSearchIndexEntry, ShouldIndexRelativePath, ToRelativePath;
    hide AsMap, Distinct, Set, JsMap.Delete;
    FileFacts(root, event.path);
    var rootPath := Absolute(root);
    if event.Renamed? {
      FileFacts(root, event.oldPath);
      Deleting(items, event.oldPath);
      Setting(JsMap.Delete(items, event.oldPath), event.path, EntryOf(rootPath, event.path));
    } else {
      Deleting(items, event.path);
      Setting(items, event.path, EntryOf(rootPath, event.path));
    }
  }

  lemma {:induction false} PatchesHold(items: Items, root: seq<string>, includeHidden: bool, files: set<string>,
                                       events: seq<WatchEvent>)
    requires Canonical(root) && forall e :: e in events ==> FileEvent(root, e)
    requires Distinct(items) && Holds(AsMap(items), Absolute(root), includeHidden, files)
    ensures var next := ApplyAll(items, Absolute(root), includeHidden, events);
      Distinct(next) && Holds(AsMap(next), Absolute(root), includeHidden, WatchEffects(files, events))
    decreases |events|
  {
    hide Canonical, FileEvent, Distinct, AsMap, Holds, ApplySearchPatchEvent, WatchEffect;
    if events == [] {
    } else {
      PatchHolds(items, root, includeHidden, files, events[0]);
      PatchesHold(ApplySearchPatchEvent(items, Absolute(root), includeHidden, events[0]), root, includeHidden,
                  WatchEffect(files, events[0]), events[1..]);
    }
  }

  // ----- the items of an index -----

  // The entries that a full rebuild gives.
  ghost function Rebuild(rootPath: string, includeHidden: bool, files: set<string>): set<Entry> {
    set p | p in files && Wanted(rootPath, includeHidden, p) :: EntryOf(rootPath, p)
  }

  ghost predicate IsRebuild(items: seq<Entry>, rootPath: string, includeHidden: bool, files: set<string>) {
    && (forall e :: e in items <==> e in Rebuild(rootPath, includeHidden, files))
    && (forall i, j :: 0 <= i < j < |items| ==> items[i] != items[j])
  }

  lemma {:induction false} KeyAbsent<K, V>(m: Entries<K, V>, k: K)
    requires forall i :: 0 <= i < |m| ==> m[i].0 != k
    ensures !Has(m, k)
  {
    if m == [] {
    } else {
      KeyAbsent(m[1..], k);
    }
  }

  lemma {:induction false} KeysDiffer<K, V>(m: Entries<K, V>)
    requires forall i, j :: 0 <= i < j < |m| ==> m[i].0 != m[j].0
    ensures Distinct(m)
  {
    if m == [] {
    } else {
      KeysDiffer(m[1..]);
      assert forall i :: 0 <= i < |m| - 1 ==> m[1..][i] == m[i + 1];
      KeyAbsent(m[1..], m[0].0);
    }
  }

  lemma RebuildDistinct(items: seq<Entry>, root: seq<string>, includeHidden: bool, files: set<string>)
    requires Canonical(root) && forall p :: p in files ==> FileBelow(root, p)
    requires IsRebuild(items, Absolute(root), includeHidden, files)
    ensures Distinct(ByPath(items))
    ensures forall i :: 0 <= i < |items| ==>
      items[i].absolutePath in files && items[i] == EntryOf(Absolute(root), items[i].absolutePath)
      && Wanted(Absolute(root), includeHidden, items[i].absolutePath)
  {
    hide Canonical, FileBelow, Absolute, Wanted, EntryOf, Distinct;
    EntriesOwnPaths(root, files);
    assert forall i :: 0 <= i < |items| ==> items[i] in items;
    assert forall i :: 0 <= i < |items| ==> items[i] == EntryOf(Absolute(root), items[i].absolutePath);
    KeysDiffer(ByPath(items));
  }

  lemma RebuildHolds(items: seq<Entry>, root: seq<string>, includeHidden: bool, files: set<string>)
    requires Canonical(root) && forall p :: p in files ==> FileBelow(root, p)
    requires IsRebuild(items, Absolute(root), includeHidden, files)
    ensures var m := FromPairs(ByPath(items));
      Distinct(m) && Holds(AsMap(m), Absolute(root), includeHidden, files)
  {
    hide Canonical, FileBelow, Absolute, Wanted, EntryOf, AsMap, Distinct, Has;
    var rootPath, m := Absolute(root), ByPath(items);
    EntriesOwnPaths(root, files);
    RebuildDistinct(items, root, includeHidden, files);
    FromDistinctPairs(m);
    forall p
      ensures p in AsMap(m) <==> p in files && Wanted(rootPath, includeHidden, p)
      ensures p in AsMap(m) ==> AsMap(m)[p] == EntryOf(rootPath, p)
    {
      Lookup(m, p);
      if Has(m, p) {
        var i := Position(m, p);
        At(m, i);
      }
      if p in files && Wanted(rootPath, includeHidden, p) {
        assert EntryOf(rootPath, p) in Rebuild(rootPath, includeHidden, files);
        var i :| 0 <= i < |items| && items[i] == EntryOf(rootPath, p);
        At(m, i);
      }
    }
  }

  lemma HoldsIsRebuild(m: Items, root: seq<string>, includeHidden: bool, files: set<string>)
    requires Canonical(root) && forall p :: p in files ==> FileBelow(root, p)
    requires Distinct(m) && Holds(AsMap(m), Absolute(root), includeHidden, files)
    ensures IsRebuild(Values(m), Absolute(root), includeHidden, files)
  {
    hide Canonical, FileBelow, Absolute, Wanted, EntryOf, AsMap, Distinct, Has, Holds;
    var rootPath, items := Absolute(root), Values(m);
    EntriesOwnPaths(root, files);
    HeldValues(m, rootPath, includeHidden, files);
    forall i, j | 0 <= i < j < |items|
      ensures items[i] != items[j]
    {
      DistinctKeys(m, i, j);
    }
  }

  lemma HeldValues(m: Items, rootPath: string, includeHidden: bool, files: set<string>)
    requires Distinct(m) && Holds(AsMap(m), rootPath, includeHidden, files)
    ensures forall e :: e in Values(m) <==> e in Rebuild(rootPath, includeHidden, files)
    ensures forall i :: 0 <= i < |m| ==> m[i].0 in files && Values(m)[i] == EntryOf(rootPath, m[i].0)
  {
    hide Wanted, EntryOf, AsMap, Distinct, Has;
    forall i | 0 <= i < |m|
      ensures m[i].0 in files && Wanted(rootPath, includeHidden, m[i].0) && Values(m)[i] == EntryOf(rootPath, m[i].0)
    {
      At(m, i);
    }
    forall p | p in files && Wanted(rootPath, includeHidden, p)
      ensures EntryOf(rootPath, p) in Values(m)
    {
      Lookup(m, p);
      var i := Position(m, p);
      assert Values(m)[i] == EntryOf(rootPath, p);
    }
  }

  // ----- the order of a batch does not matter -----

  // No two different events about one path, and no renames.
  ghost predicate OneEach(events: seq<WatchEvent>) {
    && (forall e :: e in events ==> (e.Created? || e.Updated? || e.Deleted?) && !e.isDirectory)
    && (forall e, f :: e in events && f in events && e.path == f.path ==> e == f)
  }

  ghost predicate Left(files: set<string>, events: seq<WatchEvent>, path: string) {
    || Created(path, false) in events || Updated(path, false) in events
    || (path in files && Deleted(path, false) !in events)
  }

  lemma {:induction false} EffectsOfOneEach(files: set<string>, events: seq<WatchEvent>)
    requires OneEach(events)
    ensures forall p :: p in WatchEffects(files, events) <==> Left(files, events, p)
    decreases |events|
  {
    if events == [] {
    } else {
      var e, rest := events[0], events[1..];
      assert events == [e] + rest;
      assert forall x :: x in events <==> x == e || x in rest;
      EffectsOfOneEach(WatchEffect(files, e), rest);
      forall p
        ensures Left(WatchEffect(files, e), rest, p) <==> Left(files, events, p)
      {
        LeftNext(files, events, p);
      }
    }
  }

  lemma LeftNext(files: set<string>, events: seq<WatchEvent>, p: string)
    requires OneEach(events) && events != []
    ensures Left(WatchEffect(files, events[0]), events[1..], p) <==> Left(files, events, p)
  {
    var e, rest := events[0], events[1..];
    assert forall x :: x in events <==> x == e || x in rest by { assert events == [e] + rest; }
    assert e in events;
    assert Created(p, false).path == Updated(p, false).path == Deleted(p, false).path == p;
  }

  lemma {:induction false} EffectsOfExpanded(files: set<string>, events: seq<WatchEvent>)
    ensures WatchEffects(files, ExpandAll(events)) == WatchEffects(files, events)
    decreases |events|
  {
    hide WatchEffect;
    if events == [] {
    } else {
      var n := |events| - 1;
      var init, last := events[..n], events[n];
      EffectsOfExpanded(files, init);
      assert events == init + [last];
      EffectsAppend(files, init, [last]);
      EffectsAppend(files, ExpandAll(init), Expand(last));
      EffectsOfExpand(WatchEffects(files, init), last);
    }
  }

  lemma EffectsOfExpand(files: set<string>, event: WatchEvent)
    ensures WatchEffects(files, Expand(event)) == WatchEffects(files, [event])
  {
    assert WatchEffects(files, [event]) == WatchEffect(files, event) by { assert [event][1..] == []; }
    if event.Renamed? {
      var d, c := Deleted(event.oldPath, event.isDirectory), Created(event.path, event.isDirectory);
      assert [d, c][1..] == [c] && [c][1..] == [];
      assert WatchEffects(files, [d, c]) == WatchEffects(WatchEffect(files, d), [c]);
    }
  }

  lemma {:induction false} EffectsAppend(files: set<string>, a: seq<WatchEvent>, b: seq<WatchEvent>)
    ensures WatchEffects(files, a + b) == WatchEffects(WatchEffects(files, a), b)
    decreases |a|
  {
    hide WatchEffect;
    if a == [] {
      assert a + b == b;
    } else {
      assert (a + b)[0] == a[0] && (a + b)[1..] == a[1..] + b;
      EffectsAppend(WatchEffect(files, a[0]), a[1..], b);
    }
  }

  /** Pairing deletes with creates changes nothing about which files there are in the end, whatever
      was paired with what. */
  lemma ReconcileSameEffect(files: set<string>, events: seq<WatchEvent>)
    requires OneEach(events)
    ensures WatchEffects(files, Reconcile(events)) == WatchEffects(files, events)
    ensures forall e :: e in ExpandAll(Reconcile(events)) <==> e in events
  {
    hide Reconcile, ExpandAll, WatchEffects;
    var expanded := ExpandAll(Reconcile(events));
    ReconcileConserves(events);
    NothingToExpand(events);
    assert forall e :: e in expanded <==> e in multiset(expanded);
    assert forall e :: e in events <==> e in multiset(events);
    EffectsOfExpanded(files, Reconcile(events));
    EffectsOfOneEach(files, expanded);
    EffectsOfOneEach(files, events);
    assert forall p :: Left(files, expanded, p) <==> Left(files, events, p);
  }

  lemma {:induction false} NothingToExpand(events: seq<WatchEvent>)
    requires forall e :: e in events ==> !e.Renamed?
    ensures ExpandAll(events) == events
  {
    if events == [] {
    } else {
      var n := |events| - 1;
      assert events[n] in events;
      NothingToExpand(events[..n]);
      assert events == events[..n] + [events[n]];
    }
  }

  // ----- a batch of raw events -----

  ghost predicate RawFileEvents(root: seq<string>, events: seq<W.RawEvent>, directories: set<string>) {
    forall e :: e in events ==> FileBelow(root, e.path) && e.path !in directories
  }

  lemma {:induction false} InternalEffects(root: seq<string>, view: set<string>, events: seq<W.RawEvent>, directories: set<string>)
    requires Canonical(root) && RawFileEvents(root, events, directories)
    ensures WatchEffects(view, Internals(events, directories)) == T.NotedAll(view, events)
    decreases |events|
  {
    hide Canonical, FileBelow, NormalizeAbsolutePath;
    if events == [] {
    } else {
      var e := events[0];
      assert e in events && forall x :: x in events[1..] ==> x in events;
      FileFacts(root, e.path);
      assert Internals(events, directories)[1..] == Internals(events[1..], directories);
      assert WatchEffect(view, Internal(e, directories)) == T.Noted(view, e);
      hide Internal, WatchEffect, T.Noted;
      InternalEffects(root, T.Noted(view, e), events[1..], directories);
    }
  }

  lemma InternalsOneEach(root: seq<string>, events: seq<W.RawEvent>, directories: set<string>)
    requires Canonical(root) && RawFileEvents(root, events, directories) && W.OnePerPath(events)
    ensures var internals := Internals(events, directories);
      OneEach(internals) && forall e :: e in internals ==> FileBelow(root, e.path)
  {
    hide Canonical, FileBelow, NormalizeAbsolutePath;
    var internals := Internals(events, directories);
    forall i | 0 <= i < |events|
      ensures internals[i].path == events[i].path && FileBelow(root, events[i].path) && !internals[i].isDirectory
    {
      assert events[i] in events;
      FileFacts(root, events[i].path);
    }
  }

  lemma ReducedFileEvents(root: seq<string>, events: seq<WatchEvent>)
    requires OneEach(events) && forall e :: e in events ==> FileBelow(root, e.path)
    ensures forall e :: e in Reconcile(events) ==> FileEvent(root, e)
  {
    hide Reconcile, FileBelow, ExpandAll;
    ReconcileSameEffect({}, events);
    forall e | e in Reconcile(events)
      ensures FileEvent(root, e)
    {
      ExpandedMember(Reconcile(events), e);
      assert forall x :: x in Expand(e) ==> x in events;
      if e.Renamed? {
        assert Expand(e)[0] in events && Expand(e)[1] in events;
      } else {
        assert Expand(e)[0] in events;
      }
    }
  }

  lemma {:induction false} ExpandedMember(events: seq<WatchEvent>, e: WatchEvent)
    requires e in events
    ensures forall x :: x in Expand(e) ==> x in ExpandAll(events)
  {
    var n := |events| - 1;
    if e != events[n] {
      assert e in events[..n];
      ExpandedMember(events[..n], e);
    }
  }

  lemma CoalescedFiles(root: seq<string>, files: set<string>, events: seq<W.RawEvent>, directories: set<string>)
    requires W.Happened(files, events) && RawFileEvents(root, events, directories)
    ensures RawFileEvents(root, W.Coalesce(events), directories)
    ensures forall p :: p in W.EffectOfAll(files, events) ==> p in files || FileBelow(root, p)
  {
    hide FileBelow, W.Coalesce;
    W.CoalescedIsNet(files, events);
    TouchedFiles(root, events, directories);
  }

  lemma {:induction false} TouchedFiles(root: seq<string>, events: seq<W.RawEvent>, directories: set<string>)
    requires RawFileEvents(root, events, directories)
    ensures forall p :: p in W.Touched(events) ==> FileBelow(root, p) && p !in directories
  {
    hide FileBelow;
    if events == [] {
    } else {
      assert events[0] in events;
      TouchedFiles(root, events[1..], directories);
    }
  }

  lemma {:induction false} NotedFiles(root: seq<string>, view: set<string>, batch: seq<W.RawEvent>, directories: set<string>)
    requires (forall p :: p in view ==> FileBelow(root, p)) && RawFileEvents(root, batch, directories)
    ensures forall p :: p in T.NotedAll(view, batch) ==> FileBelow(root, p)
    decreases |batch|
  {
    hide FileBelow;
    if batch == [] {
    } else {
      assert batch[0] in batch;
      NotedFiles(root, T.Noted(view, batch[0]), batch[1..], directories);
    }
  }

  /** A patched index refines a rebuild: whatever files an index was built for, reconciling a coalesced
      batch and patching it in makes it the index that a full rebuild would give for those files and
      what the batch says of them. */
  lemma BatchRefinesView(items: seq<Entry>, root: seq<string>, includeHidden: bool, view: set<string>,
                         batch: seq<W.RawEvent>, directories: set<string>)
    requires Canonical(root) && (forall p :: p in view ==> FileBelow(root, p)) && RawFileEvents(root, batch, directories)
    requires W.OnePerPath(batch) && IsRebuild(items, Absolute(root), includeHidden, view)
    ensures forall p :: p in T.NotedAll(view, batch) ==> FileBelow(root, p)
    ensures forall e :: e in Reduced(batch, directories) ==> FileEvent(root, e)
    ensures IsRebuild(PatchedItems(items, Absolute(root), includeHidden, Reduced(batch, directories)),
                      Absolute(root), includeHidden, T.NotedAll(view, batch))
  {
    hide Canonical, FileBelow, Absolute, IsRebuild, Holds, Reconcile, FileEvent, OneEach, W.OnePerPath, Internals, RawFileEvents;
    var internals := Internals(batch, directories);
    NotedFiles(root, view, batch, directories);
    InternalsOneEach(root, batch, directories);
    InternalEffects(root, view, batch, directories);
    ReconcileSameEffect(view, internals);
    ReducedFileEvents(root, internals);
    RebuildHolds(items, root, includeHidden, view);
    PatchesHold(FromPairs(ByPath(items)), root, includeHidden, view, Reconcile(internals));
    HoldsIsRebuild(ApplyAll(FromPairs(ByPath(items)), Absolute(root), includeHidden, Reconcile(internals)), root, includeHidden,
                   T.NotedAll(view, batch));
  }

  /** So when the index is what a full rebuild gives for the files there are, and any sequence of
      creations, updates and deletions of files that can have happened is coalesced, reconciled and
      patched in, it is what a full rebuild gives for the files there are then. This holds for the index
      with hidden files and the one without. */
  lemma BatchRefinesRebuild(items: seq<Entry>, root: seq<string>, includeHidden: bool, files: set<string>,
                            events: seq<W.RawEvent>, directories: set<string>)
    requires Canonical(root) && (forall p :: p in files ==> FileBelow(root, p)) && RawFileEvents(root, events, directories)
    requires W.Happened(files, events) && IsRebuild(items, Absolute(root), includeHidden, files)
    ensures forall p :: p in W.EffectOfAll(files, events) ==> FileBelow(root, p)
    ensures IsRebuild(PatchedItems(items, Absolute(root), includeHidden, Reduced(W.Coalesce(events), directories)),
                      Absolute(root), includeHidden, W.EffectOfAll(files, events))
  {
    hide Canonical, FileBelow, Absolute, IsRebuild, W.Coalesce, W.OnePerPath, Reduced, PatchedItems, RawFileEvents;
    CoalescedFiles(root, files, events, directories);
    W.CoalescedSameEffect(files, events);
    W.CoalescedOnePerPath(events);
    T.EffectSays(files, W.Coalesce(events));
    BatchRefinesView(items, root, includeHidden, files, W.Coalesce(events), directories);
  }

  /** A backslash below the root is what goes wrong: an indexed file that is created and deleted, in
      two batches, is gone from the index exactly when its path has none. */
  lemma DeletedFileGoneIff(root: seq<string>, rel: seq<string>, includeHidden: bool)
    requires Canonical(root) && RelativeFile(rel) && ShouldIndexRelativePath(Join(rel), includeHidden)
    ensures var path, rootPath := Absolute(root + rel), Absolute(root);
      var created := PatchedItems([], rootPath, includeHidden, [Created(path, false)]);
      PatchedItems(created, rootPath, includeHidden, [Deleted(path, false)]) == [] <==> NoBackslash(Join(rel))
  {
    hide CreateSearchIndexEntry, ShouldIndexRelativePath, Join, Canonical, Absolute, ToRelativePath;
    var path, rootPath := Absolute(root + rel), Absolute(root);
    RelativeOfAbsolute(root, rel);
    SegmentsOfAbsolute(root + rel);
    EntryPathIsOwnPathIff(root, rel);
    var entry := EntryOf(rootPath, path);
    var create, delete := Created(path, false), Deleted(path, false);
    OnePatch([], rootPath, includeHidden, create);
    assert ByPath([]) == [];
    assert PatchedItems([], rootPath, includeHidden, [create]) == [entry];
    assert ByPath([entry]) == [(entry.absolutePath, entry)];
    OnePair(entry.absolutePath, entry);
    OnePatch([(entry.absolutePath, entry)], rootPath, includeHidden, delete);
  }

  lemma OnePatch(items: Items, rootPath: string, includeHidden: bool, event: WatchEvent)
    ensures ApplyAll(items, rootPath, includeHidden, [event]) == ApplySearchPatchEvent(items, rootPath, includeHidden, event)
  {
    hide ApplySearchPatchEvent;
    assert [event][1..] == [];
  }

  lemma OnePair(key: string, entry: Entry)
    ensures FromPairs([(key, entry)]) == [(key, entry)]
    ensures Values([(key, entry)]) == [entry]
    ensures forall k :: JsMap.Delete([(key, entry)], k) == if k == key then [] else [(key, entry)]
  {
    assert [(key, entry)][..0] == [] && [(key, entry)][1..] == [];
    assert FromPairs<string, Entry>([]) == [];
  }
}
