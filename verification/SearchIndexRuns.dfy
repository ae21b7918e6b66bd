/** Runs of one watched root: files change, flushes start and end, walks of the file system build
    indexes, and searches use them (packages/workspace-fs/src/watch.ts,
    packages/workspace-fs/src/search.ts). Between its start and its end a flush waits for `stat`, so
    flushes overlap each other, changes and builds. */
module SearchIndexRuns {
  import B = Bytes
  import opened JsMap
  import opened Paths
  import W = WatchCoalescing
  import T = WatchTimeline
  import opened WatchRenames
  import WatchReconciliation
  import opened SearchIndex
  import opened SearchIndexRefinement
  import opened SearchIndexCache

  // A build in flight and the files its walk has seen so far.
  datatype Walk = Walk(key: string, seen: set<string>)

  datatype State = State(world: T.World, walks: seq<Walk>, indexes: Indexes)

  datatype Step =
    | Changes(event: W.RawEvent)
    | FlushStarts
    | FlushEnds(i: nat, directories: set<string>, now: int)   // what `stat` said, and when
    | DirectoryFlush(patch: seq<WatchEvent>, now: int, files: set<string>)
    | BuildStarts(key: string)
    | Glimpse(i: nat, path: string)                           // a walk comes by a path
    | BuildEnds(i: nat, items: seq<Entry>, now: int)
    | BuildFails(i: nat)
    | Searching(key: string, now: int)
    | Invalidate(key: string)
    | OtherRoot(rootPath: string, patch: seq<WatchEvent>, now: int)

  function Look(seen: set<string>, files: set<string>, path: string): set<string> {
    if path in files then seen + {path} else seen - {path}
  }

  ghost predicate MayHappen(s: State, root: seq<string>, step: Step) {
    match step
    case Changes(event) => W.Possible(s.world.files, event) && FileBelow(root, event.path)
    case FlushEnds(i, directories, _) =>
      i < |s.world.flights| && forall e :: e in s.world.flights[i] ==> e.path !in directories
    case DirectoryFlush(patch, _, files) =>
      T.Quiet(s.world) && (exists e :: e in patch && e.isDirectory) && forall p :: p in files ==> FileBelow(root, p)
    case Glimpse(i, path) => i < |s.walks| && FileBelow(root, path)
    case BuildEnds(i, items, _) =>
      i < |s.walks| && forall includeHidden :: s.walks[i].key == CacheKey(Absolute(root), includeHidden) ==>
        IsRebuild(items, Absolute(root), includeHidden, s.walks[i].seen)
    case BuildFails(i) => i < |s.walks|
    case OtherRoot(rootPath, _, _) => NormalizeAbsolutePath(rootPath) != Absolute(root)
    case _ => true
  }

  ghost function Next(s: State, root: seq<string>, step: Step): State
    requires MayHappen(s, root, step)
  {
    match step
    case Changes(event) => s.(world := T.Change(s.world, event))
    case FlushStarts => s.(world := T.StartFlush(s.world))
    case FlushEnds(i, directories, now) =>
      s.(world := T.EndFlush(s.world, i),
         indexes := Patched(s.indexes, Absolute(root), SearchPatchEvents(Reduced(s.world.flights[i], directories)), now))
    case DirectoryFlush(patch, now, files) =>
      s.(world := s.world.(files := files), indexes := Patched(s.indexes, Absolute(root), patch, now))
    case BuildStarts(key) =>
      s.(walks := s.walks + [Walk(key, s.world.files)], indexes := s.indexes.(builds := s.indexes.builds + {key}))
    case Glimpse(i, path) =>
      s.(walks := s.walks[i := Walk(s.walks[i].key, Look(s.walks[i].seen, s.world.files, path))])
    case BuildEnds(i, items, now) =>
      s.(walks := T.WithoutAt(s.walks, i), indexes := Built(s.indexes, s.walks[i].key, items, now))
    case BuildFails(i) =>
      s.(walks := T.WithoutAt(s.walks, i), indexes := s.indexes.(builds := s.indexes.builds - {s.walks[i].key}))
    case Searching(key, now) => s.(indexes := Searched(s.indexes, key, now))
    case Invalidate(key) => s.(indexes := Invalidated(s.indexes, key))
    case OtherRoot(rootPath, patch, now) => s.(indexes := Patched(s.indexes, rootPath, patch, now))
  }

  // ----- what runs keep -----

  ghost function WantedPaths(root: seq<string>, includeHidden: bool): iset<string> {
    iset p | Wanted(Absolute(root), includeHidden, p)
  }

  ghost predicate AllBelow(root: seq<string>, files: set<string>) {
    forall p :: p in files ==> FileBelow(root, p)
  }

  ghost predicate EventsBelow(root: seq<string>, events: seq<W.RawEvent>) {
    forall e :: e in events ==> FileBelow(root, e.path)
  }

  ghost predicate WorldBelow(root: seq<string>, w: T.World) {
    AllBelow(root, w.files) && EventsBelow(root, w.pending)
    && forall i :: 0 <= i < |w.flights| ==> EventsBelow(root, w.flights[i]) && W.OnePerPath(w.flights[i])
  }

  // An index of this root, if it is cached, is the rebuild of the view.
  ghost predicate Views(cached: map<string, CachedIndex>, root: seq<string>, includeHidden: bool, view: set<string>) {
    var key := CacheKey(Absolute(root), includeHidden);
    AllBelow(root, view) && (key in cached ==> IsRebuild(cached[key].items, Absolute(root), includeHidden, view))
  }

  ghost predicate TracksAs(s: State, root: seq<string>, includeHidden: bool, view: set<string>) {
    var cached := AsMap(s.indexes.cached);
    && Views(cached, root, includeHidden, view)
    && (CacheKey(Absolute(root), includeHidden) in cached ==> T.OnTrack(s.world, view, WantedPaths(root, includeHidden)))
  }

  // An index of this root, if it is cached, is on track.
  ghost predicate IndexOnTrack(s: State, root: seq<string>, includeHidden: bool) {
    exists view :: TracksAs(s, root, includeHidden, view)
  }

  ghost predicate Bounded(s: Indexes) {
    Distinct(s.cached) && |s.cached| <= CACHE_MAX
  }

  ghost predicate Fit(s: State, root: seq<string>) {
    && WorldBelow(root, s.world) && Bounded(s.indexes)
    && forall i :: 0 <= i < |s.walks| ==> AllBelow(root, s.walks[i].seen)
  }

  ghost predicate Sound(s: State, root: seq<string>) {
    T.Chain(s.world) && Fit(s, root)
  }

  // What the code does not ensure by itself: a flush overtakes only flushes that it has no path in common
  // with, and what a build stores is on track.
  ghost predicate Orderly(s: State, root: seq<string>, step: Step)
    requires MayHappen(s, root, step)
  {
    match step
    case FlushEnds(i, _, _) => T.Independent(s.world, i)
    case BuildEnds(i, _, _) =>
      forall includeHidden :: s.walks[i].key == CacheKey(Absolute(root), includeHidden) ==>
        T.OnTrack(s.world, s.walks[i].seen, WantedPaths(root, includeHidden))
    case _ => true
  }

  lemma PatchedItemsOf(s: Indexes, root: seq<string>, events: seq<WatchEvent>, now: int, includeHidden: bool)
    requires Canonical(root) && Bounded(s) && forall e :: e in events ==> !e.isDirectory
    ensures var next, key := Patched(s, Absolute(root), events, now), CacheKey(Absolute(root), includeHidden);
      && Bounded(next)
      && (key in AsMap(next.cached) <==> key in AsMap(s.cached))
      && (key in AsMap(s.cached) ==>
            AsMap(next.cached)[key].items ==
            if events == [] then AsMap(s.cached)[key].items
            else PatchedItems(AsMap(s.cached)[key].items, Absolute(root), includeHidden, events))
  {
    hide Distinct, AsMap, Absolute, Canonical, CacheKey, PatchedItems, PatchedOne;
    var rootPath := Absolute(root);
    SegmentsOfAbsolute(root);
    KeysDifferByKind(rootPath, rootPath, true, false);
    PatchedOneKeeps(s, rootPath, true, events, now);
    PatchedOneKeeps(PatchedOne(s, rootPath, true, events, now), rootPath, false, events, now);
  }

  // The end of any flush brings an index of this root from its view to what the batch makes of it.
  lemma FlushEndsView(s: State, root: seq<string>, step: Step, includeHidden: bool, view: set<string>)
    requires Canonical(root) && Fit(s, root) && step.FlushEnds? && MayHappen(s, root, step)
    requires Views(AsMap(s.indexes.cached), root, includeHidden, view)
    ensures var next, key := Next(s, root, step), CacheKey(Absolute(root), includeHidden);
      && Bounded(next.indexes)
      && (key in AsMap(next.indexes.cached) <==> key in AsMap(s.indexes.cached))
      && (key in AsMap(s.indexes.cached) ==>
            Views(AsMap(next.indexes.cached), root, includeHidden, T.NotedAll(view, s.world.flights[step.i])))
  {
    hide Distinct, AsMap, Absolute, Canonical, FileBelow, CacheKey, PatchedItems, IsRebuild, Patched, Reduced, T.Chain, T.NotedAll,
      W.OnePerPath;
    var key, batch := CacheKey(Absolute(root), includeHidden), s.world.flights[step.i];
    var events := Reduced(batch, step.directories);
    FlushedEvents(root, batch, step.directories);
    PatchedItemsOf(s.indexes, root, events, step.now, includeHidden);
    if key in AsMap(s.indexes.cached) {
      BatchRefinesView(AsMap(s.indexes.cached)[key].items, root, includeHidden, view, batch, step.directories);
      NoPatchNoChange(AsMap(s.indexes.cached)[key].items, root, includeHidden, view);
    }
  }

  lemma FlushedEvents(root: seq<string>, batch: seq<W.RawEvent>, directories: set<string>)
    requires Canonical(root) && W.OnePerPath(batch) && RawFileEvents(root, batch, directories)
    ensures var events := Reduced(batch, directories);
      SearchPatchEvents(events) == events && forall e :: e in events ==> !e.isDirectory
  {
    hide Canonical, FileBelow, WatchReconciliation.Reconcile, OneEach, Internals, W.OnePerPath;
    InternalsOneEach(root, batch, directories);
    ReducedFileEvents(root, Internals(batch, directories));
    NothingOverflows(root, Reduced(batch, directories));
  }

  lemma NoPatchNoChange(items: seq<Entry>, root: seq<string>, includeHidden: bool, files: set<string>)
    requires Canonical(root) && AllBelow(root, files) && IsRebuild(items, Absolute(root), includeHidden, files)
    ensures PatchedItems(items, Absolute(root), includeHidden, []) == items
  {
    hide Canonical, FileBelow, IsRebuild, ApplySearchPatchEvent, Distinct;
    RebuildDistinct(items, root, includeHidden, files);
    FromDistinctPairs(ByPath(items));
  }

  // ----- one step -----

  lemma ChangeBelow(root: seq<string>, w: T.World, event: W.RawEvent)
    requires WorldBelow(root, w) && FileBelow(root, event.path)
    ensures WorldBelow(root, T.Change(w, event))
  {
    hide FileBelow, W.OnePerPath;
  }

  lemma StartBelow(root: seq<string>, w: T.World)
    requires T.Chain(w) && WorldBelow(root, w)
    ensures WorldBelow(root, T.StartFlush(w))
  {
    hide FileBelow, W.OnePerPath, W.Coalesce, T.Chain, T.Base;
    T.ChainParts(w);
    CoalescedFiles(root, T.Base(w), w.pending, {});
    W.CoalescedOnePerPath(w.pending);
  }

  lemma EndBelow(root: seq<string>, w: T.World, i: nat)
    requires WorldBelow(root, w) && i < |w.flights|
    ensures WorldBelow(root, T.EndFlush(w, i))
  {
    hide FileBelow, W.OnePerPath, AllBelow, EventsBelow;
  }

  // Changes and the start of a flush touch no index.
  lemma WorldStepKeeps(s: State, root: seq<string>, step: Step, includeHidden: bool)
    requires Sound(s, root) && MayHappen(s, root, step) && (step.Changes? || step.FlushStarts?)
    ensures Sound(Next(s, root, step), root)
    ensures IndexOnTrack(s, root, includeHidden) ==> IndexOnTrack(Next(s, root, step), root, includeHidden)
  {
    hide Canonical, FileBelow, AsMap, Absolute, CacheKey, Views, T.Chain, T.OnTrack, WorldBelow, Bounded, WantedPaths, W.Coalesce;
    var move := if step.Changes? then T.Changes(step.event) else T.FlushStarts;
    if step.Changes? {
      ChangeBelow(root, s.world, step.event);
    } else {
      StartBelow(root, s.world);
    }
    T.MoveKeeps(s.world, {}, move, WantedPaths(root, includeHidden));
    if view :| TracksAs(s, root, includeHidden, view) {
      T.MoveKeeps(s.world, view, move, WantedPaths(root, includeHidden));
      assert TracksAs(Next(s, root, step), root, includeHidden, view);
    }
  }

  lemma FlushEndKeeps(s: State, root: seq<string>, step: Step, includeHidden: bool)
    requires Canonical(root) && Sound(s, root) && step.FlushEnds? && MayHappen(s, root, step) && Orderly(s, root, step)
    ensures Sound(Next(s, root, step), root)
    ensures IndexOnTrack(s, root, includeHidden) ==> IndexOnTrack(Next(s, root, step), root, includeHidden)
  {
    hide Canonical, FileBelow, AsMap, Absolute, CacheKey, IsRebuild, T.Chain, T.OnTrack, T.NotedAll, Bounded, WantedPaths, Patched, Reduced,
      W.OnePerPath, SearchPatchEvents;
    var next, key := Next(s, root, step), CacheKey(Absolute(root), includeHidden);
    EndBelow(root, s.world, step.i);
    T.IndependentEndKeeps(s.world, step.i, {}, WantedPaths(root, includeHidden));
    FlushEndBounded(s, root, step);
    if view :| TracksAs(s, root, includeHidden, view) {
      FlushEndsView(s, root, step, includeHidden, view);
      if key in AsMap(s.indexes.cached) {
        T.IndependentEndKeeps(s.world, step.i, view, WantedPaths(root, includeHidden));
        assert TracksAs(next, root, includeHidden, T.NotedAll(view, s.world.flights[step.i]));
      } else {
        assert TracksAs(next, root, includeHidden, view);
      }
    }
  }

  lemma FlushEndBounded(s: State, root: seq<string>, step: Step)
    requires Canonical(root) && Fit(s, root) && step.FlushEnds? && MayHappen(s, root, step)
    ensures Bounded(Next(s, root, step).indexes)
  {
    hide Canonical, FileBelow, AsMap, Absolute, CacheKey, Distinct, T.Chain, Patched, Reduced, PatchedItems, W.OnePerPath;
    var batch := s.world.flights[step.i];
    FlushedEvents(root, batch, step.directories);
    PatchedItemsOf(s.indexes, root, Reduced(batch, step.directories), step.now, true);
  }

  // Directory events leave no index of this root.
  lemma DirectoryFlushKeeps(s: State, root: seq<string>, step: Step, includeHidden: bool)
    requires Canonical(root) && Sound(s, root) && step.DirectoryFlush? && MayHappen(s, root, step)
    ensures Sound(Next(s, root, step), root) && IndexOnTrack(Next(s, root, step), root, includeHidden)
  {
    hide Canonical, FileBelow, AsMap, Absolute, CacheKey, T.Chain, T.OnTrack, Distinct, WantedPaths, Patched;
    var next := Next(s, root, step);
    DroppedForDirectory(s.indexes, Absolute(root), step.patch, step.now);
    T.QuietChain(next.world);
    assert TracksAs(next, root, includeHidden, {});
  }

  // ----- steps of the cache -----

  // A step that leaves the world alone, and an index of this root as it is if it is kept.
  ghost predicate Leaves(s: State, next: State, root: seq<string>, includeHidden: bool) {
    var before, after, key := AsMap(s.indexes.cached), AsMap(next.indexes.cached), CacheKey(Absolute(root), includeHidden);
    next.world == s.world && (key in after ==> key in before && after[key].items == before[key].items)
  }

  lemma LeavesOnTrack(s: State, next: State, root: seq<string>, includeHidden: bool)
    requires Leaves(s, next, root, includeHidden) && IndexOnTrack(s, root, includeHidden)
    ensures IndexOnTrack(next, root, includeHidden)
  {
    hide FileBelow, AsMap, Absolute, CacheKey, IsRebuild, T.OnTrack, WantedPaths;
    var view :| TracksAs(s, root, includeHidden, view);
    assert TracksAs(next, root, includeHidden, view);
  }

  lemma SearchLeaves(s: Indexes, key: string, now: int)
    requires Bounded(s)
    ensures var next := Searched(s, key, now);
      && Bounded(next)
      && forall k :: k in AsMap(next.cached) ==> k in AsMap(s.cached) && AsMap(next.cached)[k].items == AsMap(s.cached)[k].items
  {
    hide Distinct, AsMap, Set, Delete, Has;
    Lookup(s.cached, key);
    Deleting(s.cached, key);
    DeletingSize(s.cached, key);
    if Has(s.cached, key) {
      Requeued(s.cached, key, AsMap(s.cached)[key].(lastAccessedAt := now));
    }
  }

  lemma InvalidateLeaves(s: Indexes, key: string)
    requires Bounded(s)
    ensures var next := Invalidated(s, key);
      && Bounded(next) && key !in AsMap(next.cached)
      && forall k :: k in AsMap(next.cached) ==> k in AsMap(s.cached) && AsMap(next.cached)[k] == AsMap(s.cached)[k]
  {
    hide Distinct, AsMap, Delete;
    Deleting(s.cached, key);
    DeletingSize(s.cached, key);
  }

  lemma BuiltStores(s: Indexes, key: string, items: seq<Entry>, now: int)
    requires Bounded(s)
    ensures var next := Built(s, key, items, now);
      && Bounded(next) && key in AsMap(next.cached) && AsMap(next.cached)[key].items == items
      && forall k :: k in AsMap(next.cached) && k != key ==> k in AsMap(s.cached) && AsMap(next.cached)[k] == AsMap(s.cached)[k]
  {
    hide Distinct, AsMap, Set, Delete, Has;
    var n := if |s.cached| >= CACHE_MAX then |s.cached| - CACHE_MAX + 1 else 0;
    DroppingFirst(s.cached, n);
    assert s.cached[0..] == s.cached;
    Setting(Evicted(s.cached), key, CachedIndex(items, now));
    SettingSize(Evicted(s.cached), key, CachedIndex(items, now));
  }

  lemma OtherRootLeaves(s: Indexes, root: seq<string>, includeHidden: bool, rootPath: string, patch: seq<WatchEvent>, now: int)
    requires Canonical(root) && Bounded(s) && NormalizeAbsolutePath(rootPath) != Absolute(root)
    ensures var next, key := Patched(s, rootPath, patch, now), CacheKey(Absolute(root), includeHidden);
      && Bounded(next)
      && (key in AsMap(next.cached) ==> key in AsMap(s.cached) && AsMap(next.cached)[key] == AsMap(s.cached)[key])
  {
    hide Canonical, Distinct, AsMap, Absolute, NormalizeAbsolutePath, CacheKey, PatchedItems, Delete, PatchedOne;
    var keyT, keyF := CacheKey(rootPath, true), CacheKey(rootPath, false);
    SegmentsOfAbsolute(root);
    KeysDifferByKind(rootPath, Absolute(root), true, includeHidden);
    KeysDifferByKind(rootPath, Absolute(root), false, includeHidden);
    Deleting(s.cached, keyT);
    DeletingSize(s.cached, keyT);
    Deleting(Delete(s.cached, keyT), keyF);
    DeletingSize(Delete(s.cached, keyT), keyF);
    PatchedOneKeeps(s, rootPath, true, patch, now);
    PatchedOneKeeps(PatchedOne(s, rootPath, true, patch, now), rootPath, false, patch, now);
  }

  lemma CacheStepKeeps(s: State, root: seq<string>, step: Step, includeHidden: bool)
    requires Canonical(root) && Sound(s, root) && MayHappen(s, root, step)
    requires step.Searching? || step.Invalidate? || step.OtherRoot?
    ensures Sound(Next(s, root, step), root)
    ensures IndexOnTrack(s, root, includeHidden) ==> IndexOnTrack(Next(s, root, step), root, includeHidden)
  {
    hide Canonical, FileBelow, AsMap, Absolute, CacheKey, T.Chain, WorldBelow, Bounded, Patched, Searched, Invalidated, IndexOnTrack;
    match step {
      case Searching(key, now) => SearchLeaves(s.indexes, key, now);
      case Invalidate(key) => InvalidateLeaves(s.indexes, key);
      case OtherRoot(rootPath, patch, now) => OtherRootLeaves(s.indexes, root, includeHidden, rootPath, patch, now);
    }
    if IndexOnTrack(s, root, includeHidden) {
      LeavesOnTrack(s, Next(s, root, step), root, includeHidden);
    }
  }

  // ----- steps of the walks -----

  lemma WalkStepKeeps(s: State, root: seq<string>, step: Step, includeHidden: bool)
    requires Sound(s, root) && MayHappen(s, root, step) && (step.BuildStarts? || step.Glimpse? || step.BuildFails?)
    ensures Sound(Next(s, root, step), root)
    ensures IndexOnTrack(s, root, includeHidden) ==> IndexOnTrack(Next(s, root, step), root, includeHidden)
  {
    hide FileBelow, AsMap, Absolute, CacheKey, T.Chain, Distinct, IndexOnTrack;
    var next := Next(s, root, step);
    forall i | 0 <= i < |next.walks|
      ensures AllBelow(root, next.walks[i].seen)
    {
      assert i < |s.walks| ==> AllBelow(root, s.walks[i].seen);
    }
    if IndexOnTrack(s, root, includeHidden) {
      LeavesOnTrack(s, Next(s, root, step), root, includeHidden);
    }
  }

  lemma BuildEndKeeps(s: State, root: seq<string>, step: Step, includeHidden: bool)
    requires Sound(s, root) && MayHappen(s, root, step) && step.BuildEnds? && Orderly(s, root, step)
    ensures Sound(Next(s, root, step), root)
    ensures IndexOnTrack(s, root, includeHidden) ==> IndexOnTrack(Next(s, root, step), root, includeHidden)
  {
    hide FileBelow, AsMap, Absolute, CacheKey, T.Chain, T.OnTrack, WorldBelow, Bounded, IsRebuild, Built, WantedPaths;
    var next, walk := Next(s, root, step), s.walks[step.i];
    BuiltStores(s.indexes, walk.key, step.items, step.now);
    if walk.key == CacheKey(Absolute(root), includeHidden) {
      assert TracksAs(next, root, includeHidden, walk.seen);
    } else if IndexOnTrack(s, root, includeHidden) {
      LeavesOnTrack(s, next, root, includeHidden);
    }
  }

  // ----- runs -----

  ghost predicate Happens(s: State, root: seq<string>, steps: seq<Step>)
    decreases |steps|
  {
    steps == [] || (MayHappen(s, root, steps[0]) && Happens(Next(s, root, steps[0]), root, steps[1..]))
  }

  ghost function RunOf(s: State, root: seq<string>, steps: seq<Step>): State
    requires Happens(s, root, steps)
    decreases |steps|
  {
    if steps == [] then s else RunOf(Next(s, root, steps[0]), root, steps[1..])
  }

  ghost predicate OrderlyRun(s: State, root: seq<string>, steps: seq<Step>)
    requires Happens(s, root, steps)
    decreases |steps|
  {
    steps == [] || (Orderly(s, root, steps[0]) && OrderlyRun(Next(s, root, steps[0]), root, steps[1..]))
  }

  // An index of this root, if it is cached, is what a full rebuild would give now.
  ghost predicate Right(s: State, root: seq<string>, includeHidden: bool) {
    var cached, key := AsMap(s.indexes.cached), CacheKey(Absolute(root), includeHidden);
    key in cached ==> IsRebuild(cached[key].items, Absolute(root), includeHidden, s.world.files)
  }

  lemma StepKeeps(s: State, root: seq<string>, step: Step, includeHidden: bool)
    requires Canonical(root) && Sound(s, root) && MayHappen(s, root, step) && Orderly(s, root, step)
    ensures Sound(Next(s, root, step), root)
    ensures IndexOnTrack(s, root, includeHidden) ==> IndexOnTrack(Next(s, root, step), root, includeHidden)
  {
    hide Canonical, Sound, IndexOnTrack, MayHappen, Next;
    match step
    case Changes(_) => WorldStepKeeps(s, root, step, includeHidden);
    case FlushStarts => WorldStepKeeps(s, root, step, includeHidden);
    case FlushEnds(_, _, _) => FlushEndKeeps(s, root, step, includeHidden);
    case DirectoryFlush(_, _, _) => DirectoryFlushKeeps(s, root, step, includeHidden);
    case BuildStarts(_) => WalkStepKeeps(s, root, step, includeHidden);
    case Glimpse(_, _) => WalkStepKeeps(s, root, step, includeHidden);
    case BuildFails(_) => WalkStepKeeps(s, root, step, includeHidden);
    case BuildEnds(_, _, _) => BuildEndKeeps(s, root, step, includeHidden);
    case Searching(_, _) => CacheStepKeeps(s, root, step, includeHidden);
    case Invalidate(_) => CacheStepKeeps(s, root, step, includeHidden);
    case OtherRoot(_, _, _) => CacheStepKeeps(s, root, step, includeHidden);
  }

  // A rebuild of one set of files is one of another exactly when they agree on the wanted paths.
  lemma RebuildAgreesIff(items: seq<Entry>, root: seq<string>, includeHidden: bool, view: set<string>, files: set<string>)
    requires Canonical(root) && AllBelow(root, view) && AllBelow(root, files)
    requires IsRebuild(items, Absolute(root), includeHidden, view)
    ensures IsRebuild(items, Absolute(root), includeHidden, files) <==> T.Agree(view, files, WantedPaths(root, includeHidden))
  {
    hide Canonical, FileBelow, Absolute, Wanted, EntryOf;
    EntriesOwnPaths(root, view);
    EntriesOwnPaths(root, files);
    var rootPath := Absolute(root);
    forall p | p in view + files && Wanted(rootPath, includeHidden, p)
      ensures p in view <==> EntryOf(rootPath, p) in Rebuild(rootPath, includeHidden, view)
      ensures p in files <==> EntryOf(rootPath, p) in Rebuild(rootPath, includeHidden, files)
    {
    }
  }

  lemma QuietIsRight(s: State, root: seq<string>, includeHidden: bool)
    requires Canonical(root) && Sound(s, root) && IndexOnTrack(s, root, includeHidden) && T.Quiet(s.world)
    ensures Right(s, root, includeHidden)
  {
    hide Canonical, FileBelow, AsMap, Absolute, CacheKey, T.Chain, T.OnTrack, T.Agree, Bounded, IsRebuild, WantedPaths;
    var cached, key := AsMap(s.indexes.cached), CacheKey(Absolute(root), includeHidden);
    var view :| TracksAs(s, root, includeHidden, view);
    if key in cached {
      T.QuietOnTrack(s.world, view, WantedPaths(root, includeHidden));
      RebuildAgreesIff(cached[key].items, root, includeHidden, view, s.world.files);
    }
  }

  /** Over every run in which a flush overtakes only flushes that it has no path in common with and what builds
      store is on track, every index of the root stays on track, at most twelve indexes are cached, and whenever
      no event is pending and no flush in flight, an index of the root that is cached is what a full
      rebuild would give for the files there are. */
  lemma {:induction false} RunKeepsIndexesRight(s: State, root: seq<string>, steps: seq<Step>, includeHidden: bool)
    requires Canonical(root) && Sound(s, root) && IndexOnTrack(s, root, includeHidden)
    requires Happens(s, root, steps) && OrderlyRun(s, root, steps)
    ensures var end := RunOf(s, root, steps);
      && Sound(end, root) && IndexOnTrack(end, root, includeHidden) && |end.indexes.cached| <= CACHE_MAX
      && (T.Quiet(end.world) ==> Right(end, root, includeHidden))
    decreases |steps|
  {
    hide Canonical, IndexOnTrack, MayHappen, Next, Orderly, T.Chain, T.Quiet, Right, WorldBelow, Distinct;
    if steps == [] {
      if T.Quiet(s.world) {
        QuietIsRight(s, root, includeHidden);
      }
    } else {
      StepKeeps(s, root, steps[0], includeHidden);
      RunKeepsIndexesRight(Next(s, root, steps[0]), root, steps[1..], includeHidden);
    }
  }

  // ----- moves of the world as steps -----

  function Lift(move: T.Move): Step {
    match move
    case Changes(event) => Changes(event)
    case FlushStarts => FlushStarts
    case FlushEnds(i) => FlushEnds(i, {}, 0)
  }

  function Lifted(moves: seq<T.Move>): seq<Step> {
    seq(|moves|, i requires 0 <= i < |moves| => Lift(moves[i]))
  }

  ghost predicate MovesBelow(root: seq<string>, moves: seq<T.Move>) {
    forall m :: m in moves && m.Changes? ==> FileBelow(root, m.event.path)
  }

  predicate AllEnds(moves: seq<T.Move>) {
    forall m :: m in moves ==> m.FlushEnds?
  }

  // An index of this root is cached and is the rebuild of the view.
  ghost predicate Shows(s: State, root: seq<string>, includeHidden: bool, view: set<string>) {
    && CacheKey(Absolute(root), includeHidden) in AsMap(s.indexes.cached)
    && Views(AsMap(s.indexes.cached), root, includeHidden, view)
  }

  lemma LiftedMove(s: State, root: seq<string>, includeHidden: bool, view: set<string>, move: T.Move)
    requires Canonical(root) && Fit(s, root) && Shows(s, root, includeHidden, view) && T.CanMove(s.world, move)
    requires (move.Changes? ==> FileBelow(root, move.event.path)) && (move.FlushStarts? ==> T.Chain(s.world))
    ensures MayHappen(s, root, Lift(move))
    ensures var next := Next(s, root, Lift(move));
      next.world == T.Moved(s.world, move) && Fit(next, root) && Shows(next, root, includeHidden, T.MovedView(s.world, view, move))
  {
    hide Canonical, FileBelow, AsMap, Absolute, CacheKey, T.Chain, IsRebuild, Bounded, W.Coalesce, W.OnePerPath, T.NotedAll, Patched,
      Reduced, SearchPatchEvents;
    match move
    case Changes(event) => ChangeBelow(root, s.world, event);
    case FlushStarts => StartBelow(root, s.world);
    case FlushEnds(i) =>
      EndBelow(root, s.world, i);
      FlushEndBounded(s, root, Lift(move));
      FlushEndsView(s, root, Lift(move), includeHidden, view);
  }

  lemma {:induction false} LiftedRun(s: State, root: seq<string>, includeHidden: bool, view: set<string>, moves: seq<T.Move>)
    requires Canonical(root) && Fit(s, root) && Shows(s, root, includeHidden, view)
    requires T.CanHappen(s.world, moves) && MovesBelow(root, moves)
    requires (T.Chain(s.world) && T.InOrder(moves)) || AllEnds(moves)
    ensures Happens(s, root, Lifted(moves))
    ensures var end := RunOf(s, root, Lifted(moves));
      && end.world == T.After(s.world, moves) && Fit(end, root)
      && Shows(end, root, includeHidden, T.ViewAfter(s.world, view, moves))
    decreases |moves|
  {
    hide Canonical, FileBelow, T.Chain, Fit, Shows, MayHappen, Next, T.Moved, T.MovedView;
    if moves == [] {
    } else {
      var move := moves[0];
      assert move in moves;
      LiftedMove(s, root, includeHidden, view, move);
      if T.Chain(s.world) && T.InOrder(moves) {
        T.MoveKeeps(s.world, view, move, iset{});
      }
      assert Lifted(moves)[0] == Lift(move) && Lifted(moves)[1..] == Lifted(moves[1..]);
      LiftedRun(Next(s, root, Lift(move)), root, includeHidden, T.MovedView(s.world, view, move), moves[1..]);
    }
  }

  lemma LiftedRightIff(s: State, root: seq<string>, includeHidden: bool, view: set<string>, moves: seq<T.Move>)
    requires Canonical(root) && Fit(s, root) && Shows(s, root, includeHidden, view)
    requires T.CanHappen(s.world, moves) && MovesBelow(root, moves)
    requires (T.Chain(s.world) && T.InOrder(moves)) || AllEnds(moves)
    ensures Happens(s, root, Lifted(moves))
    ensures Right(RunOf(s, root, Lifted(moves)), root, includeHidden) <==>
            T.Agree(T.ViewAfter(s.world, view, moves), T.After(s.world, moves).files, WantedPaths(root, includeHidden))
  {
    hide Canonical, FileBelow, AsMap, Absolute, CacheKey, T.Chain, IsRebuild, Bounded, T.Agree, T.After, T.ViewAfter, T.CanHappen,
      WantedPaths, RunOf, Happens;
    LiftedRun(s, root, includeHidden, view, moves);
    var end, key := RunOf(s, root, Lifted(moves)), CacheKey(Absolute(root), includeHidden);
    RebuildAgreesIff(AsMap(end.indexes.cached)[key].items, root, includeHidden, T.ViewAfter(s.world, view, moves), end.world.files);
  }

  /** Being on track is exact: a cached index is on track if and only if it is right whenever nothing is
      pending or in flight any more, in every continuation by changes and flushes that end in the order in
      which they were started. */
  lemma IndexOnTrackIff(s: State, root: seq<string>, includeHidden: bool, view: set<string>)
    requires Canonical(root) && Sound(s, root) && Shows(s, root, includeHidden, view)
    ensures forall moves :: T.Continues(s.world, moves) && MovesBelow(root, moves) ==> Happens(s, root, Lifted(moves))
    ensures T.OnTrack(s.world, view, WantedPaths(root, includeHidden)) <==>
            forall moves :: T.Continues(s.world, moves) && MovesBelow(root, moves) ==>
              Right(RunOf(s, root, Lifted(moves)), root, includeHidden)
  {
    hide Canonical, FileBelow, T.Chain, Shows, T.CanHappen, T.InOrder, T.After, T.ViewAfter, T.Bound, T.Settled, WantedPaths, Right,
      Happens, RunOf, Bounded, T.Quiet;
    var wanted := WantedPaths(root, includeHidden);
    forall moves | T.Continues(s.world, moves) && MovesBelow(root, moves)
      ensures Happens(s, root, Lifted(moves))
      ensures Right(RunOf(s, root, Lifted(moves)), root, includeHidden) <==>
              T.Agree(T.ViewAfter(s.world, view, moves), T.After(s.world, moves).files, wanted)
    {
      LiftedRightIff(s, root, includeHidden, view, moves);
    }
    if T.OnTrack(s.world, view, wanted) {
      T.OnTrackIff(s.world, view, wanted);
    } else {
      var p :| p in wanted && (p in view) != (p in T.Settled(s.world)) && !T.Bound(s.world, p);
      var moves := T.OffTrackGoesWrong(s.world, view, p);
      assert T.Continues(s.world, moves) && MovesBelow(root, moves);
    }
  }

  /** The order in which flushes end is exact as well: with nothing pending and an index that was right
      when the first of the flushes in flight was started, it is right when all of them have ended if and
      only if, for every wanted path, the last event about it in ending order says the same as the last one
      in starting order. */
  lemma EndingOrderRightIff(s: State, root: seq<string>, includeHidden: bool, view: set<string>, order: seq<nat>)
    requires Canonical(root) && Sound(s, root) && Shows(s, root, includeHidden, view)
    requires s.world.pending == [] && T.Agree(view, T.Settled(s.world), WantedPaths(root, includeHidden))
    requires T.TakesAll(|s.world.flights|, order)
    ensures Happens(s, root, Lifted(T.Ends(order)))
    ensures T.Quiet(RunOf(s, root, Lifted(T.Ends(order))).world)
    ensures Right(RunOf(s, root, Lifted(T.Ends(order))), root, includeHidden) <==>
            forall p :: p in WantedPaths(root, includeHidden) ==>
              T.Says(B.Concat(T.Taken(s.world.flights, order)), p) == T.Says(B.Concat(s.world.flights), p)
  {
    hide Canonical, FileBelow, Fit, Shows, T.Chain, T.CanHappen, T.After, T.ViewAfter, T.Settled, T.Agree, T.Says, T.Taken, T.TakesAll,
      T.Quiet, WantedPaths, Right, Happens, RunOf;
    EndsOnly(order);
    T.EndingOrderIff(s.world, view, order, WantedPaths(root, includeHidden));
    LiftedRightIff(s, root, includeHidden, view, T.Ends(order));
    LiftedRun(s, root, includeHidden, view, T.Ends(order));
  }

  lemma {:induction false} EndsOnly(order: seq<nat>)
    ensures AllEnds(T.Ends(order))
  {
    if order == [] {
    } else {
      EndsOnly(order[1..]);
    }
  }

  // ----- the two ways in which an index goes wrong -----

  lemma CoalesceOne(event: W.RawEvent)
    ensures W.Coalesce([event]) == [event]
  {
    assert [event][1..] == [];
    assert W.PutAll([], [event]) == [(event.path, event)];
  }

  lemma CoalesceAway(path: string)
    ensures W.Coalesce([W.RawEvent(W.Kind.Create, path), W.RawEvent(W.Kind.Delete, path)]) == []
  {
    var c, d := W.RawEvent(W.Kind.Create, path), W.RawEvent(W.Kind.Delete, path);
    assert [c, d][1..] == [d] && [d][1..] == [];
    var m := W.Put([], c);
    assert m == [(path, c)] && m[1..] == [];
    assert W.PutAll([], [c, d]) == W.PutAll(m, [d]) == W.Put(m, d) == [];
  }

  // The index still has the entry of a file that is not there.
  ghost predicate KeepsMissing(s: State, root: seq<string>, includeHidden: bool, path: string) {
    var cached, key := AsMap(s.indexes.cached), CacheKey(Absolute(root), includeHidden);
    && T.Quiet(s.world) && path !in s.world.files
    && key in cached && EntryOf(Absolute(root), path) in cached[key].items
    && !Right(s, root, includeHidden)
  }

  lemma MissingKept(s: State, root: seq<string>, includeHidden: bool, view: set<string>, path: string)
    requires Canonical(root) && Fit(s, root) && Shows(s, root, includeHidden, view) && T.Quiet(s.world)
    requires Wanted(Absolute(root), includeHidden, path) && path in view && path !in s.world.files
    ensures KeepsMissing(s, root, includeHidden, path)
  {
    hide Canonical, FileBelow, Absolute, CacheKey, AsMap, Wanted, EntryOf, Distinct;
    var items := AsMap(s.indexes.cached)[CacheKey(Absolute(root), includeHidden)].items;
    RebuildAgreesIff(items, root, includeHidden, view, s.world.files);
    assert path in WantedPaths(root, includeHidden);
    assert EntryOf(Absolute(root), path) in Rebuild(Absolute(root), includeHidden, view);
  }

  /** Overlapping flushes: a file is created, a flush starts, the file is deleted, a second flush starts and
      ends first. Then the first ends, and the index keeps the file for good, whatever wanted file below the
      root it is. */
  lemma OverlappingFlushesKeepFile(s: State, root: seq<string>, includeHidden: bool, path: string)
    requires Canonical(root) && Sound(s, root) && T.Quiet(s.world) && Shows(s, root, includeHidden, s.world.files)
    requires FileBelow(root, path) && Wanted(Absolute(root), includeHidden, path) && path !in s.world.files
    ensures var moves := [T.Changes(W.RawEvent(W.Kind.Create, path)), T.FlushStarts,
                          T.Changes(W.RawEvent(W.Kind.Delete, path)), T.FlushStarts];
      && Happens(s, root, Lifted(moves))
      && var middle := RunOf(s, root, Lifted(moves));
         && Happens(middle, root, Lifted(T.Ends([1, 0])))
         && KeepsMissing(RunOf(middle, root, Lifted(T.Ends([1, 0]))), root, includeHidden, path)
  {
    hide Canonical, FileBelow, Shows, Fit, T.Chain, W.Coalesce, Wanted, KeepsMissing, Happens, RunOf;
    var c, d := W.RawEvent(W.Kind.Create, path), W.RawEvent(W.Kind.Delete, path);
    var moves, files := [T.Changes(c), T.FlushStarts, T.Changes(d), T.FlushStarts], s.world.files;
    OverlapWorld(s.world, path);
    LiftedRun(s, root, includeHidden, files, moves);
    var middle := RunOf(s, root, Lifted(moves));
    EndsOnly([1, 0]);
    OverlapEnds(middle.world, files, path);
    LiftedRun(middle, root, includeHidden, files, T.Ends([1, 0]));
    MissingKept(RunOf(middle, root, Lifted(T.Ends([1, 0]))), root, includeHidden, files + {path}, path);
  }

  lemma OverlapWorld(w: T.World, path: string)
    requires T.Quiet(w) && path !in w.files
    ensures var c, d := W.RawEvent(W.Kind.Create, path), W.RawEvent(W.Kind.Delete, path);
      var moves := [T.Changes(c), T.FlushStarts, T.Changes(d), T.FlushStarts];
      && T.CanHappen(w, moves) && T.After(w, moves) == T.World(w.files, [], [[c], [d]])
      && forall view :: T.ViewAfter(w, view, moves) == view
  {
    hide W.Coalesce;
    var c, d := W.RawEvent(W.Kind.Create, path), W.RawEvent(W.Kind.Delete, path);
    CoalesceOne(c);
    CoalesceOne(d);
    var m0 := [T.Changes(c), T.FlushStarts, T.Changes(d), T.FlushStarts];
    var m1, m2, m3 := [T.FlushStarts, T.Changes(d), T.FlushStarts], [T.Changes(d), T.FlushStarts], [T.FlushStarts];
    assert m0[1..] == m1 && m1[1..] == m2 && m2[1..] == m3 && m3[1..] == [];
    var w1 := T.Change(w, c);
    var w2 := T.StartFlush(w1);
    var w3 := T.Change(w2, d);
    var w4 := T.StartFlush(w3);
    assert w1.pending == [c];
    assert w2 == T.World(w.files + {path}, [], [[c]]);
    assert w3.pending == [d] && w3.files == w.files;
    assert w4 == T.World(w.files, [], [[c], [d]]);
    assert T.CanHappen(w3, m3) && T.After(w3, m3) == w4;
    assert T.CanHappen(w2, m2) && T.After(w2, m2) == w4;
    assert T.CanHappen(w1, m1) && T.After(w1, m1) == w4;
    forall view
      ensures T.ViewAfter(w, view, m0) == view
    {
      assert T.ViewAfter(w3, view, m3) == view;
      assert T.ViewAfter(w2, view, m2) == view;
      assert T.ViewAfter(w1, view, m1) == view;
    }
  }

  lemma OverlapEnds(w: T.World, view: set<string>, path: string)
    requires var c, d := W.RawEvent(W.Kind.Create, path), W.RawEvent(W.Kind.Delete, path);
      w == T.World(view, [], [[c], [d]]) && path !in view
    ensures T.CanHappen(w, T.Ends([1, 0])) && T.After(w, T.Ends([1, 0])) == T.World(view, [], [])
    ensures T.ViewAfter(w, view, T.Ends([1, 0])) == view + {path}
  {
    hide T.NotedAll;
    var c, d := W.RawEvent(W.Kind.Create, path), W.RawEvent(W.Kind.Delete, path);
    assert [1, 0][1..] == [0] && [0][1..] == [];
    var e0, e1 := T.Ends([1, 0]), T.Ends([0]);
    assert e1 == [T.FlushEnds(0)] && e1[1..] == [];
    assert e0 == [T.FlushEnds(1), T.FlushEnds(0)] && e0[1..] == e1;
    var w1, w2 := T.EndFlush(w, 1), T.World(view, [], []);
    assert w1 == T.World(view, [], [[c]]) && T.EndFlush(w1, 0) == w2;
    NotedOne(view, d);
    NotedOne(view - {path}, c);
    assert T.CanHappen(w1, e1) && T.After(w1, e1) == w2 && T.ViewAfter(w1, view - {path}, e1) == view + {path};
  }

  lemma NotedOne(view: set<string>, event: W.RawEvent)
    ensures T.NotedAll(view, [event]) == T.Noted(view, event)
  {
    assert [event][1..] == [];
  }

  // A file is created, a build sees it and ends, the file is deleted, and a flush starts.
  function BuildThenDelete(s: State, key: string, items: seq<Entry>, now: int, path: string): seq<Step> {
    [Changes(W.RawEvent(W.Kind.Create, path)), BuildStarts(key), BuildEnds(|s.walks|, items, now),
     Changes(W.RawEvent(W.Kind.Delete, path)), FlushStarts]
  }

  /** A build between events that cancel out: the flush has nothing left to tell, and the index keeps the
      file for good. */
  lemma BuildBetweenKeepsFile(s: State, root: seq<string>, includeHidden: bool, path: string, items: seq<Entry>, now: int)
    requires Canonical(root) && Sound(s, root) && T.Quiet(s.world)
    requires FileBelow(root, path) && Wanted(Absolute(root), includeHidden, path) && path !in s.world.files
    requires IsRebuild(items, Absolute(root), includeHidden, s.world.files + {path})
    ensures var steps := BuildThenDelete(s, CacheKey(Absolute(root), includeHidden), items, now, path);
      Happens(s, root, steps) && KeepsMissing(RunOf(s, root, steps), root, includeHidden, path)
  {
    hide Canonical, FileBelow, CacheKey, Absolute, T.Chain, W.Coalesce, IsRebuild, Wanted, KeepsMissing, Built, Bounded, AsMap;
    var key, walk := CacheKey(Absolute(root), includeHidden), |s.walks|;
    var c, d := W.RawEvent(W.Kind.Create, path), W.RawEvent(W.Kind.Delete, path);
    CoalesceAway(path);
    var t0 := BuildThenDelete(s, key, items, now, path);
    var t1, t2 := [BuildStarts(key), BuildEnds(walk, items, now), Changes(d), FlushStarts], [BuildEnds(walk, items, now), Changes(d), FlushStarts];
    var t3, t4 := [Changes(d), FlushStarts], [FlushStarts];
    assert t0[1..] == t1 && t1[1..] == t2 && t2[1..] == t3 && t3[1..] == t4 && t4[1..] == [];
    var s1 := Next(s, root, Changes(c));
    var s2 := Next(s1, root, BuildStarts(key));
    OnlyThisKey(root, includeHidden);
    assert MayHappen(s2, root, BuildEnds(walk, items, now));
    var s3 := Next(s2, root, BuildEnds(walk, items, now));
    assert s3.world.files == s.world.files + {path};
    var s4 := Next(s3, root, Changes(d));
    assert s4.world.pending == [c, d] && s4.world.files == s.world.files;
    var s5 := Next(s4, root, FlushStarts);
    assert T.Quiet(s5.world);
    assert Happens(s3, root, t3) && RunOf(s3, root, t3) == s5 by {
      assert Happens(s4, root, t4) && RunOf(s4, root, t4) == s5;
    }
    assert Happens(s2, root, t2) && RunOf(s2, root, t2) == s5;
    assert Happens(s1, root, t1) && RunOf(s1, root, t1) == s5;
    WorldStepKeeps(s, root, Changes(c), includeHidden);
    WalkStepKeeps(s1, root, BuildStarts(key), includeHidden);
    BuiltStores(s2.indexes, key, items, now);
    MissingKept(s5, root, includeHidden, s.world.files + {path}, path);
  }

  lemma OnlyThisKey(root: seq<string>, includeHidden: bool)
    ensures forall other :: CacheKey(Absolute(root), other) == CacheKey(Absolute(root), includeHidden) <==> other == includeHidden
  {
    hide CacheKey, Absolute, NormalizeAbsolutePath;
    KeysDifferByKind(Absolute(root), Absolute(root), true, false);
  }
}
