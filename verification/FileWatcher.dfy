/** The watcher of one root as its methods run: events wait for the flush timer, a flush waits for `stat`
    and then patches the search indexes (packages/workspace-fs/src/watch.ts). */
module FileWatcher {
  import opened WatchCoalescing
  import T = WatchTimeline
  import opened WatchRenames
  import opened WatchReconciliation
  import opened SearchIndexRefinement
  import opened SearchIndexCache

  class Watcher {
    const absolutePath: string
    var pendingEvents: seq<RawEvent>
    var flushTimer: bool
    // The calls of `flushPendingEvents` that wait for `stat`, in the order in which they were made.
    var inFlight: seq<seq<RawEvent>>

    // No event waits without a timer.
    ghost predicate Valid()
      reads this
    {
      flushTimer <==> pendingEvents != []
    }

    ghost function World(files: set<string>): T.World
      reads this
    {
      T.World(files, pendingEvents, inFlight)
    }

    constructor (absolutePath: string)
      ensures Valid() && this.absolutePath == absolutePath
      ensures forall files :: World(files) == T.World(files, [], [])
    {
      this.absolutePath := absolutePath;
      pendingEvents, flushTimer, inFlight := [], false, [];
    }

    // What the file system reports, and what it held before: the events have happened since.
    method OnEvents(events: seq<RawEvent>, ghost files: set<string>)
      requires Valid()
      modifies this`pendingEvents, this`flushTimer
      ensures Valid() && pendingEvents == old(pendingEvents) + events
      ensures World(EffectOfAll(files, events)) == ChangedBy(old(World(files)), events)
    {
      ChangesOneByOne(World(files), events);
      if |events| == 0 {
        return;
      }
      pendingEvents := pendingEvents + events;
      if flushTimer {
        return;
      }
      flushTimer := true;
    }

    method FlushTimerFires()
      requires Valid() && flushTimer
      modifies this`pendingEvents, this`flushTimer, this`inFlight
      ensures Valid() && !flushTimer
      ensures forall files :: World(files) == T.StartFlush(old(World(files)))
    {
      flushTimer := false;
      var events := pendingEvents;
      pendingEvents := [];
      var coalescedEvents := CoalesceWatchEvents(events);
      if |coalescedEvents| == 0 {
        return;
      }
      inFlight := inFlight + [coalescedEvents];
    }

    // `stat` has answered for the whole batch. What it said is given as the set of directories.
    method FlushResumes(i: nat, indexes: SearchIndexes, directories: set<string>, now: int) returns (publicEvents: seq<WatchEvent>)
      requires i < |inFlight|
      modifies this`inFlight, indexes
      ensures forall files :: World(files) == T.EndFlush(old(World(files)), i)
      ensures publicEvents == Reduced(old(inFlight[i]), directories)
      ensures indexes.View() == Patched(old(indexes.View()), absolutePath, SearchPatchEvents(publicEvents), now)
    {
      hide Patched, Reconcile;
      var coalescedEvents := inFlight[i];
      var internalEvents := [];
      for k := 0 to |coalescedEvents|
        invariant internalEvents == Internals(coalescedEvents[..k], directories)
      {
        assert coalescedEvents[..k + 1] == coalescedEvents[..k] + [coalescedEvents[k]];
        internalEvents := internalEvents + [Internal(coalescedEvents[k], directories)];
      }
      assert coalescedEvents[..|coalescedEvents|] == coalescedEvents;
      publicEvents := ReconcileRenameEvents(internalEvents);
      indexes.PatchSearchIndexesForRoot(absolutePath, SearchPatchEvents(publicEvents), now);
      inFlight := inFlight[..i] + inFlight[i + 1..];
    }
  }

  // One change after the other.
  function ChangedBy(w: T.World, events: seq<RawEvent>): T.World
    decreases |events|
  {
    if events == [] then w else ChangedBy(T.Change(w, events[0]), events[1..])
  }

  lemma {:induction false} ChangesOneByOne(w: T.World, events: seq<RawEvent>)
    ensures ChangedBy(w, events) == T.World(EffectOfAll(w.files, events), w.pending + events, w.flights)
    decreases |events|
  {
    if events == [] {
      assert w.pending + [] == w.pending;
    } else {
      ChangesOneByOne(T.Change(w, events[0]), events[1..]);
      assert w.pending + [events[0]] + events[1..] == w.pending + events;
    }
  }
}
