/** The cache of search indexes: hits, expiry, eviction, builds, invalidation and patching
    (packages/workspace-fs/src/search.ts). */
module SearchIndexCache {
  import B = Bytes
  import opened Wrappers
  import opened JsMap
  import opened Paths
  import opened WatchRenames
  import opened SearchIndex
  import opened SearchIndexRefinement

  const CACHE_MAX := 12
  const TTL_MS := 30 * 60000

  datatype CachedIndex = CachedIndex(items: seq<Entry>, lastAccessedAt: int)

  type Cached = Entries<string, CachedIndex>

  // The cached indexes, the least recently used first, and the keys of the builds in flight.
  datatype Indexes = Indexes(cached: Cached, builds: set<string>)

  function CacheKey(rootPath: string, includeHidden: bool): string {
    NormalizeAbsolutePath(rootPath) + "::" + (if includeHidden then "hidden" else "visible")
  }

  function Invalidated(s: Indexes, key: string): Indexes {
    Indexes(Delete(s.cached, key), s.builds - {key})
  }

  function PatchedOne(s: Indexes, rootPath: string, includeHidden: bool, events: seq<WatchEvent>, now: int): Indexes {
    var key := CacheKey(rootPath, includeHidden);
    match Get(s.cached, key)
    case None => s.(builds := s.builds - {key})
    case Some(index) =>
      s.(cached := Set(Delete(s.cached, key), key,
                       CachedIndex(PatchedItems(index.items, NormalizeAbsolutePath(rootPath), includeHidden, events), now)))
  }

  function Patched(s: Indexes, rootPath: string, events: seq<WatchEvent>, now: int): Indexes {
    if events == [] then s
    else if exists e :: e in events && e.isDirectory then
      Invalidated(Invalidated(s, CacheKey(rootPath, true)), CacheKey(rootPath, false))
    else PatchedOne(PatchedOne(s, rootPath, true, events, now), rootPath, false, events, now)
  }

  // A search that finds its index moves it to the end, unless it has expired.
  function Searched(s: Indexes, key: string, now: int): Indexes {
    match Get(s.cached, key)
    case None => s
    case Some(index) =>
      var without := Delete(s.cached, key);
      s.(cached := if now - index.lastAccessedAt <= TTL_MS then Set(without, key, index.(lastAccessedAt := now)) else without)
  }

  function Evicted(cached: Cached): Cached {
    if |cached| >= CACHE_MAX then cached[|cached| - CACHE_MAX + 1..] else cached
  }

  function Built(s: Indexes, key: string, items: seq<Entry>, now: int): Indexes {
    Indexes(Set(Evicted(s.cached), key, CachedIndex(items, now)), s.builds - {key})
  }

  function SearchPatchEvents(events: seq<WatchEvent>): seq<WatchEvent> {
    if events == [] then []
    else (if events[0].Overflow? then [] else [events[0]]) + SearchPatchEvents(events[1..])
  }

  // ----- the cache as it runs -----

  class SearchIndexes {
    var cached: Cached
    var builds: set<string>

    function View(): Indexes
      reads this
    {
      Indexes(cached, builds)
    }

    constructor ()
      ensures View() == Indexes([], {})
    {
      cached, builds := [], {};
    }

    method InvalidateSearchIndex(rootPath: string, includeHidden: bool)
      modifies this
      ensures View() == Invalidated(old(View()), CacheKey(rootPath, includeHidden))
    {
      var cacheKey := CacheKey(rootPath, includeHidden);
      cached := Delete(cached, cacheKey);
      builds := builds - {cacheKey};
    }

    method InvalidateSearchIndexesForRoot(rootPath: string)
      modifies this
      ensures View() ==
              Invalidated(Invalidated(old(View()), CacheKey(rootPath, true)), CacheKey(rootPath, false))
    {
      InvalidateSearchIndex(rootPath, true);
      InvalidateSearchIndex(rootPath, false);
    }

    method PatchItems(items: seq<Entry>, rootPath: string, includeHidden: bool, events: seq<WatchEvent>)
      returns (patched: seq<Entry>)
      ensures patched == PatchedItems(items, rootPath, includeHidden, events)
    {
      hide ApplySearchPatchEvent;
      var itemsByPath := FromPairs(ByPath(items));
      ghost var was := itemsByPath;
      assert events[0..] == events;
      for i := 0 to |events|
        invariant ApplyAll(itemsByPath, rootPath, includeHidden, events[i..]) == ApplyAll(was, rootPath, includeHidden, events)
      {
        assert events[i..][1..] == events[i + 1..];
        itemsByPath := ApplySearchPatchEvent(itemsByPath, rootPath, includeHidden, events[i]);
      }
      assert events[|events|..] == [];
      patched := Values(itemsByPath);
    }

    method PatchOne(rootPath: string, includeHidden: bool, events: seq<WatchEvent>, now: int)
      modifies this
      ensures View() == PatchedOne(old(View()), rootPath, includeHidden, events, now)
    {
      hide PatchedItems;
      var cacheKey := CacheKey(rootPath, includeHidden);
      var index := Get(cached, cacheKey);
      if index.None? {
        builds := builds - {cacheKey};
        return;
      }
      var items := PatchItems(index.value.items, NormalizeAbsolutePath(rootPath), includeHidden, events);
      cached := Delete(cached, cacheKey);
      cached := Set(cached, cacheKey, CachedIndex(items, now));
    }

    method PatchSearchIndexesForRoot(rootPath: string, events: seq<WatchEvent>, now: int)
      modifies this
      ensures View() == Patched(old(View()), rootPath, events, now)
    {
      hide PatchedOne, Invalidated;
      if |events| == 0 {
        return;
      }
      if exists e :: e in events && e.isDirectory {
        InvalidateSearchIndexesForRoot(rootPath);
        return;
      }
      PatchOne(rootPath, true, events, now);
      PatchOne(rootPath, false, events, now);
    }

    // The part of a search that answers from the cache.
    method Search(key: string, now: int) returns (items: Option<seq<Entry>>)
      modifies this
      ensures View() == Searched(old(View()), key, now)
      ensures var hit := Get(old(cached), key);
        items == if hit.Some? && now - hit.value.lastAccessedAt <= TTL_MS then Some(hit.value.items) else None
    {
      var hit := Get(cached, key);
      if hit.Some? {
        cached := Delete(cached, key);
        if now - hit.value.lastAccessedAt <= TTL_MS {
          cached := Set(cached, key, hit.value.(lastAccessedAt := now));
          return Some(hit.value.items);
        }
      }
      items := None;
    }

    method EvictLruSearchIndexEntries()
      requires Distinct(cached)
      modifies this`cached
      ensures cached == Evicted(old(cached))
    {
      ghost var was := cached;
      ghost var n := 0;
      while |cached| >= CACHE_MAX
        invariant n <= |was| && cached == was[n..] && Distinct(cached) && (n == 0 || |was| - n >= CACHE_MAX - 1)
        decreases |cached|
      {
        var oldestKey := cached[0].0;
        assert Delete(cached, oldestKey) == cached[1..];
        assert was[n..][1..] == was[n + 1..];
        cached := Delete(cached, oldestKey);
        n := n + 1;
      }
    }

    method BuildFinished(key: string, items: seq<Entry>, now: int)
      requires Distinct(cached)
      modifies this
      ensures View() == Built(old(View()), key, items, now)
    {
      EvictLruSearchIndexEntries();
      cached := Set(cached, key, CachedIndex(items, now));
      builds := builds - {key};
    }
  }

  // ----- what steps do to the cached keys -----

  lemma KeysDifferByKind(rootPath: string, otherPath: string, includeHidden: bool, other: bool)
    ensures CacheKey(rootPath, includeHidden) == CacheKey(otherPath, other) <==>
            NormalizeAbsolutePath(rootPath) == NormalizeAbsolutePath(otherPath) && includeHidden == other
  {
    var a, b := CacheKey(rootPath, includeHidden), CacheKey(otherPath, other);
    var r, o := NormalizeAbsolutePath(rootPath), NormalizeAbsolutePath(otherPath);
    assert a[|a| - 4] == (if includeHidden then 'd' else 'i') && b[|b| - 4] == (if other then 'd' else 'i');
    if includeHidden == other && a == b {
      assert a[..|r|] == r && b[..|o|] == o;
    }
  }

  lemma {:induction false} DeletingSize<K, V>(m: Entries<K, V>, k: K)
    ensures |Delete(m, k)| <= |m| && (Has(m, k) ==> |Delete(m, k)| == |m| - 1)
  {
    if m != [] && m[0].0 != k {
      DeletingSize(m[1..], k);
    }
  }

  lemma {:induction false} SettingSize<K, V>(m: Entries<K, V>, k: K, v: V)
    ensures |Set(m, k, v)| <= |m| + 1
  {
    if m != [] && m[0].0 != k {
      SettingSize(m[1..], k, v);
    }
  }

  lemma {:induction false} DroppingFirst<K, V>(m: Entries<K, V>, n: nat)
    requires Distinct(m) && n <= |m|
    ensures Distinct(m[n..])
    ensures forall k :: k in AsMap(m[n..]) ==> k in AsMap(m) && AsMap(m)[k] == AsMap(m[n..])[k]
  {
    if n == 0 {
      assert m[0..] == m;
    } else {
      DroppingFirst(m[1..], n - 1);
      assert m[1..][n - 1..] == m[n..];
      Lookup(m[1..], m[0].0);
    }
  }

  // What deleting a key and putting it back at the end does.
  lemma Requeued<K, V>(m: Entries<K, V>, k: K, v: V)
    requires Distinct(m) && Has(m, k)
    ensures var r := Set(Delete(m, k), k, v);
      Distinct(r) && |r| <= |m| && AsMap(r) == AsMap(m)[k := v]
  {
    hide Distinct, AsMap, Set, Delete, Has;
    Deleting(m, k);
    DeletingSize(m, k);
    SettingSize(Delete(m, k), k, v);
    Setting(Delete(m, k), k, v);
  }

  lemma PatchedOneKeeps(s: Indexes, rootPath: string, includeHidden: bool, events: seq<WatchEvent>, now: int)
    requires Distinct(s.cached)
    ensures var next, key := PatchedOne(s, rootPath, includeHidden, events, now), CacheKey(rootPath, includeHidden);
      && Distinct(next.cached) && |next.cached| <= |s.cached|
      && (key !in AsMap(s.cached) ==> AsMap(next.cached) == AsMap(s.cached))
      && (key in AsMap(s.cached) ==>
            exists index :: AsMap(next.cached) == AsMap(s.cached)[key := index] &&
              index.items == PatchedItems(AsMap(s.cached)[key].items, NormalizeAbsolutePath(rootPath), includeHidden, events))
  {
    hide Distinct, AsMap, Set, Delete, Has, CacheKey, PatchedItems;
    var key := CacheKey(rootPath, includeHidden);
    Lookup(s.cached, key);
    if key in AsMap(s.cached) {
      Requeued(s.cached, key,
        CachedIndex(PatchedItems(AsMap(s.cached)[key].items, NormalizeAbsolutePath(rootPath), includeHidden, events), now));
    }
  }

  lemma {:induction false} NothingOverflows(root: seq<string>, events: seq<WatchEvent>)
    requires forall e :: e in events ==> FileEvent(root, e)
    ensures SearchPatchEvents(events) == events
  {
    hide FileBelow;
    if events == [] {
    } else {
      assert events[0] in events;
      NothingOverflows(root, events[1..]);
      assert [events[0]] + events[1..] == events;
    }
  }

  lemma {:induction false} PatchEventsAppend(a: seq<WatchEvent>, b: seq<WatchEvent>)
    ensures SearchPatchEvents(a + b) == SearchPatchEvents(a) + SearchPatchEvents(b)
  {
    if a == [] {
      assert a + b == b;
    } else {
      var first := if a[0].Overflow? then [] else [a[0]];
      assert (a + b)[0] == a[0] && (a + b)[1..] == a[1..] + b;
      PatchEventsAppend(a[1..], b);
      assert SearchPatchEvents(a + b) == first + SearchPatchEvents(a[1..] + b);
      hide SearchPatchEvents;
      B.ConcatAssociates(first, SearchPatchEvents(a[1..]), SearchPatchEvents(b));
    }
  }

  /** Indexes are patched with all events of a batch but the overflows, in order. */
  lemma OverflowsLeftOut(a: seq<WatchEvent>, e: WatchEvent, b: seq<WatchEvent>)
    ensures SearchPatchEvents(a + [e] + b) == SearchPatchEvents(a) + (if e.Overflow? then [] else [e]) + SearchPatchEvents(b)
  {
    assert [e][1..] == [];
    assert SearchPatchEvents([e]) == (if e.Overflow? then [] else [e]) + SearchPatchEvents([]);
    hide SearchPatchEvents;
    PatchEventsAppend(a + [e], b);
    PatchEventsAppend(a, [e]);
  }

  // A directory event leaves no index of its root.
  lemma DroppedForDirectory(s: Indexes, rootPath: string, events: seq<WatchEvent>, now: int)
    requires Distinct(s.cached) && exists e :: e in events && e.isDirectory
    ensures var next := Patched(s, rootPath, events, now);
      && Distinct(next.cached) && |next.cached| <= |s.cached|
      && CacheKey(rootPath, true) !in AsMap(next.cached) && CacheKey(rootPath, false) !in AsMap(next.cached)
  {
    hide Distinct, AsMap, CacheKey, Delete, PatchedOne;
    var keyT, keyF := CacheKey(rootPath, true), CacheKey(rootPath, false);
    Deleting(s.cached, keyT);
    DeletingSize(s.cached, keyT);
    Deleting(Delete(s.cached, keyT), keyF);
    DeletingSize(Delete(s.cached, keyT), keyF);
  }

  /** A batch of files never drops an index, and a batch with a directory drops both of its root,
      with their builds in flight, and no other. */
  lemma DirectoriesDropIndexes(s: Indexes, rootPath: string, events: seq<WatchEvent>, now: int)
    requires Distinct(s.cached) && events != []
    ensures var next := Patched(s, rootPath, events, now);
      forall key :: key in AsMap(next.cached) <==>
        && key in AsMap(s.cached)
        && ((exists e :: e in events && e.isDirectory) ==>
              key != CacheKey(rootPath, true) && key != CacheKey(rootPath, false))
    ensures (exists e :: e in events && e.isDirectory) ==>
              Patched(s, rootPath, events, now).builds == s.builds - {CacheKey(rootPath, true), CacheKey(rootPath, false)}
  {
    hide Distinct, AsMap, CacheKey, PatchedItems, Delete, PatchedOne;
    var keyT, keyF := CacheKey(rootPath, true), CacheKey(rootPath, false);
    Deleting(s.cached, keyT);
    Deleting(Delete(s.cached, keyT), keyF);
    PatchedOneKeeps(s, rootPath, true, events, now);
    PatchedOneKeeps(PatchedOne(s, rootPath, true, events, now), rootPath, false, events, now);
  }

  // ----- the least recently used goes first -----

  // The indexes by the time of their last use, none of which is yet to come.
  ghost predicate ByAge(cached: Cached, now: int) {
    Distinct(cached) && Aging(cached, now)
  }

  ghost predicate Aging(cached: Cached, now: int) {
    && (forall i, j :: 0 <= i < j < |cached| ==> cached[i].1.lastAccessedAt <= cached[j].1.lastAccessedAt)
    && (forall i :: 0 <= i < |cached| ==> cached[i].1.lastAccessedAt <= now)
  }

  lemma {:induction false} DeletingAt<K, V>(m: Entries<K, V>, k: K) returns (i: nat)
    ensures i <= |m| && Delete(m, k) == m[..i] + if i < |m| then m[i + 1..] else []
    ensures i < |m| <==> Has(m, k)
  {
    if m == [] {
      i := 0;
    } else if m[0].0 == k {
      i := 0;
    } else {
      var n := DeletingAt(m[1..], k);
      i := n + 1;
      assert m[..i] == [m[0]] + m[1..][..n];
      assert i < |m| ==> m[i + 1..] == m[1..][n + 1..];
    }
  }

  lemma DeletedByAge(cached: Cached, key: string, now: int, later: int)
    requires ByAge(cached, now) && now <= later
    ensures ByAge(Delete(cached, key), later) && !Has(Delete(cached, key), key)
  {
    Deleting(cached, key);
    var i := DeletingAt(cached, key);
    hide Distinct, Has, Delete, Aging;
    AgingWithout(cached, i, now, later);
  }

  lemma AgingWithout(cached: Cached, i: nat, now: int, later: int)
    requires Aging(cached, now) && now <= later && i <= |cached|
    ensures Aging(cached[..i] + if i < |cached| then cached[i + 1..] else [], later)
  {
    var left := cached[..i] + if i < |cached| then cached[i + 1..] else [];
    forall k, l | 0 <= k < l < |left|
      ensures left[k].1.lastAccessedAt <= left[l].1.lastAccessedAt
    {
      assert left[k] == cached[if k < i then k else k + 1] && left[l] == cached[if l < i then l else l + 1];
    }
    forall k | 0 <= k < |left|
      ensures left[k].1.lastAccessedAt <= later
    {
      assert left[k] == cached[if k < i then k else k + 1];
    }
  }

  lemma UsedLast(cached: Cached, key: string, index: CachedIndex, now: int)
    requires ByAge(cached, index.lastAccessedAt) && !Has(cached, key) && index.lastAccessedAt == now
    ensures Set(cached, key, index) == cached + [(key, index)] && ByAge(Set(cached, key, index), now)
  {
    Setting(cached, key, index);
    SettingNew(cached, key, index);
    hide Distinct, Has, Set;
  }

  lemma PatchedOneByAge(s: Indexes, rootPath: string, includeHidden: bool, events: seq<WatchEvent>, now: int, later: int)
    requires ByAge(s.cached, now) && now <= later
    ensures ByAge(PatchedOne(s, rootPath, includeHidden, events, later).cached, later)
  {
    hide Distinct, Has, Set, Delete, Get, CacheKey, PatchedItems;
    var key := CacheKey(rootPath, includeHidden);
    DeletedByAge(s.cached, key, now, later);
    if Get(s.cached, key).Some? {
      var items := PatchedItems(Get(s.cached, key).value.items, NormalizeAbsolutePath(rootPath), includeHidden, events);
      UsedLast(Delete(s.cached, key), key, CachedIndex(items, later), later);
    }
  }

  lemma EvictedByAge(cached: Cached, now: int, later: int)
    requires ByAge(cached, now) && now <= later
    ensures ByAge(Evicted(cached), later) && |Evicted(cached)| < CACHE_MAX
    ensures forall k :: Has(Evicted(cached), k) ==> Has(cached, k)
  {
    AgingFrom(cached, 0, now, later);
    if |cached| >= CACHE_MAX {
      var n := |cached| - CACHE_MAX + 1;
      DroppingFirst(cached, n);
      hide Distinct, Has, AsMap, Aging;
      AgingFrom(cached, n, now, later);
      forall k | Has(cached[n..], k)
        ensures Has(cached, k)
      {
        Lookup(cached, k);
        Lookup(cached[n..], k);
      }
    }
  }

  lemma AgingFrom(cached: Cached, n: nat, now: int, later: int)
    requires Aging(cached, now) && now <= later
    ensures Aging(cached, later) && (n <= |cached| ==> Aging(cached[n..], later))
  {
  }

  /** As time goes on the indexes stay in the order of their last use, whatever is searched, patched, built or dropped;
      so what an eviction drops was used no later than anything it keeps. */
  lemma LeastRecentlyUsed(s: Indexes, key: string, rootPath: string, events: seq<WatchEvent>, items: seq<Entry>, now: int, later: int)
    requires ByAge(s.cached, now) && now <= later
    ensures ByAge(Searched(s, key, later).cached, later)
    ensures ByAge(Invalidated(s, key).cached, later)
    ensures ByAge(Patched(s, rootPath, events, later).cached, later)
    ensures !Has(Evicted(s.cached), key) ==> ByAge(Built(s, key, items, later).cached, later)
    ensures forall i, y :: 0 <= i < |s.cached| - |Evicted(s.cached)| && y in Evicted(s.cached) ==>
              s.cached[i].1.lastAccessedAt <= y.1.lastAccessedAt
  {
    hide Distinct, Has, Set, Delete, Get, CacheKey, PatchedItems, PatchedOne;
    DeletedByAge(s.cached, key, now, later);
    if Get(s.cached, key).Some? {
      UsedLast(Delete(s.cached, key), key, Get(s.cached, key).value.(lastAccessedAt := later), later);
    }
    DeletedByAge(s.cached, CacheKey(rootPath, true), now, later);
    DeletedByAge(Delete(s.cached, CacheKey(rootPath, true)), CacheKey(rootPath, false), later, later);
    PatchedOneByAge(s, rootPath, true, events, now, later);
    PatchedOneByAge(PatchedOne(s, rootPath, true, events, later), rootPath, false, events, later, later);
    EvictedByAge(s.cached, now, later);
    if !Has(Evicted(s.cached), key) {
      UsedLast(Evicted(s.cached), key, CachedIndex(items, later), later);
    }
  }

  /** A search is served from an index that was used within half an hour, which then is the one used last; an older one
      is dropped. */
  lemma ServedWithinHalfHour(s: Indexes, key: string, now: int)
    requires Distinct(s.cached) && key in AsMap(s.cached)
    ensures var index, next := AsMap(s.cached)[key], Searched(s, key, now);
      && next.builds == s.builds
      && if now - index.lastAccessedAt <= 1_800_000
         then |next.cached| > 0 && next.cached[|next.cached| - 1] == (key, index.(lastAccessedAt := now))
              && AsMap(next.cached) == AsMap(s.cached)[key := index.(lastAccessedAt := now)]
         else AsMap(next.cached) == AsMap(s.cached) - {key}
  {
    hide Distinct, AsMap, Has, Set, Delete, Get;
    Lookup(s.cached, key);
    var index := AsMap(s.cached)[key].(lastAccessedAt := now);
    Requeued(s.cached, key, index);
    Deleting(s.cached, key);
    SettingNew(Delete(s.cached, key), key, index);
  }

  // ----- builds in flight -----

  // The patch takes a build from those in flight: a directory changed, or there is no index to patch.
  ghost predicate Cancels(s: Indexes, rootPath: string, events: seq<WatchEvent>, key: string) {
    && events != [] && (key == CacheKey(rootPath, true) || key == CacheKey(rootPath, false))
    && ((exists e :: e in events && e.isDirectory) || key !in AsMap(s.cached))
  }

  /** A batch takes the builds of its root from those in flight exactly if a directory changed or there is no index that it
      could patch, and no other build; a build that ends is taken from them too. */
  lemma BuildsInFlight(s: Indexes, rootPath: string, events: seq<WatchEvent>, key: string, items: seq<Entry>, now: int, other: string)
    requires Distinct(s.cached)
    ensures other in Patched(s, rootPath, events, now).builds <==> other in s.builds && !Cancels(s, rootPath, events, other)
    ensures other in Built(s, key, items, now).builds <==> other in s.builds && other != key
    ensures other in Invalidated(s, key).builds <==> other in s.builds && other != key
    ensures Searched(s, key, now).builds == s.builds
  {
    hide Distinct, AsMap, Has, Set, Delete, CacheKey, PatchedItems;
    KeysDifferByKind(rootPath, rootPath, true, false);
    PatchedOneKeeps(s, rootPath, true, events, now);
    Lookup(s.cached, CacheKey(rootPath, true));
    Lookup(s.cached, CacheKey(rootPath, false));
    Lookup(PatchedOne(s, rootPath, true, events, now).cached, CacheKey(rootPath, false));
  }
}
