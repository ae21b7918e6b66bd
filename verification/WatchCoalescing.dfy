/** How the file watcher reduces a batch of raw events to at most one per path
    (packages/workspace-fs/src/watch.ts). */
module WatchCoalescing {
  import opened Wrappers
  import opened JsMap

  datatype Kind = Create | Update | Delete

  datatype RawEvent = RawEvent(kind: Kind, path: string)

  function CoalesceEvent(current: Option<RawEvent>, next: RawEvent): Option<RawEvent> {
    match current
    case None => Some(next)
    case Some(RawEvent(Create, _)) => if next.kind == Delete then None else current
    case Some(RawEvent(Update, _)) =>
      if next.kind == Delete then Some(next)
      else if next.kind == Create then Some(RawEvent(Update, next.path))
      else current
    case Some(RawEvent(Delete, _)) =>
      if next.kind == Create then Some(RawEvent(Update, next.path)) else Some(next)
  }

  function Put(m: Entries<string, RawEvent>, event: RawEvent): Entries<string, RawEvent> {
    var next := CoalesceEvent(Get(m, event.path), event);
    if next.Some? then Set(m, event.path, next.value) else JsMap.Delete(m, event.path)
  }

  function PutAll(m: Entries<string, RawEvent>, events: seq<RawEvent>): Entries<string, RawEvent>
    decreases |events|
  {
    if events == [] then m else PutAll(Put(m, events[0]), events[1..])
  }

  function Coalesce(events: seq<RawEvent>): seq<RawEvent> {
    Values(PutAll([], events))
  }

  method CoalesceWatchEvents(events: seq<RawEvent>) returns (coalesced: seq<RawEvent>)
    ensures coalesced == Coalesce(events)
  {
    hide Put, PutAll;
    var byPath: Entries<string, RawEvent> := [];
    assert events[0..] == events;
    for i := 0 to |events|
      invariant PutAll(byPath, events[i..]) == PutAll([], events)
    {
      var event := events[i];
      PutNext(byPath, events, i);
      var next := CoalesceEvent(Get(byPath, event.path), event);
      if next.Some? {
        byPath := Set(byPath, event.path, next.value);
        continue;
      }
      byPath := JsMap.Delete(byPath, event.path);
    }
    NothingToPut(byPath);
    assert events[|events|..] == [];
    coalesced := Values(byPath);
  }

  lemma NothingToPut(m: Entries<string, RawEvent>)
    ensures PutAll(m, []) == m
  {
  }

  lemma PutNext(m: Entries<string, RawEvent>, events: seq<RawEvent>, i: nat)
    requires i < |events|
    ensures PutAll(m, events[i..]) == PutAll(Put(m, events[i]), events[i + 1..])
    ensures var next := CoalesceEvent(Get(m, events[i].path), events[i]);
      Put(m, events[i]) ==
      if next.Some? then Set(m, events[i].path, next.value) else JsMap.Delete(m, events[i].path)
  {
    assert events[i..][1..] == events[i + 1..];
  }

  // ----- one event per path -----

  // Every event is kept under its own path.
  /** What two events about one path come to: a create and a delete cancel out, a delete and a create are an update,
      a create stays a create and otherwise the later one counts, but that a create after an update is one. */
  lemma TwoEvents(path: string, first: Kind, second: Kind)
    ensures Coalesce([RawEvent(first, path), RawEvent(second, path)]) ==
            match (first, second) {
              case (Create, Delete) => []
              case (Create, _) => [RawEvent(Create, path)]
              case (Update, Delete) => [RawEvent(Delete, path)]
              case (Update, _) => [RawEvent(Update, path)]
              case (Delete, Create) => [RawEvent(Update, path)]
              case (Delete, other) => [RawEvent(other, path)]
            }
  {
    var a, b := RawEvent(first, path), RawEvent(second, path);
    assert [a, b][1..] == [b] && [b][1..] == [];
    var one := Put([], a);
    assert one == [(path, a)] && one[1..] == [];
    assert PutAll([], [a, b]) == PutAll(one, [b]) == Put(one, b);
  }

  ghost predicate Keyed(m: Entries<string, RawEvent>) {
    Distinct(m) && forall p :: p in AsMap(m) ==> AsMap(m)[p].path == p
  }

  lemma PutKeyed(m: Entries<string, RawEvent>, event: RawEvent)
    requires Keyed(m)
    ensures Keyed(Put(m, event))
    ensures AsMap(Put(m, event)) ==
            var current := if event.path in AsMap(m) then Some(AsMap(m)[event.path]) else None;
            var next := CoalesceEvent(current, event);
            if next.Some? then AsMap(m)[event.path := next.value] else AsMap(m) - {event.path}
  {
    Lookup(m, event.path);
    var next := CoalesceEvent(Get(m, event.path), event);
    if next.Some? {
      Setting(m, event.path, next.value);
    } else {
      Deleting(m, event.path);
    }
  }

  lemma {:induction false} PutAllKeyed(m: Entries<string, RawEvent>, events: seq<RawEvent>)
    requires Keyed(m)
    ensures Keyed(PutAll(m, events))
    decreases |events|
  {
    hide Keyed, Put;
    if events == [] {
    } else {
      PutKeyed(m, events[0]);
      PutAllKeyed(Put(m, events[0]), events[1..]);
    }
  }

  // No path occurs twice.
  ghost predicate OnePerPath(events: seq<RawEvent>) {
    forall i, j :: 0 <= i < j < |events| ==> events[i].path != events[j].path
  }

  lemma KeyedValues(m: Entries<string, RawEvent>)
    requires Keyed(m)
    ensures OnePerPath(Values(m))
    ensures forall i :: 0 <= i < |m| ==> m[i] == (Values(m)[i].path, Values(m)[i])
    ensures forall e :: e in Values(m) <==> e.path in AsMap(m) && AsMap(m)[e.path] == e
  {
    var vs := Values(m);
    forall i | 0 <= i < |m|
      ensures m[i] == (vs[i].path, vs[i]) && m[i].0 in AsMap(m) && AsMap(m)[m[i].0] == m[i].1
    {
      At(m, i);
    }
    forall i, j | 0 <= i < j < |vs|
      ensures vs[i].path != vs[j].path
    {
      DistinctKeys(m, i, j);
    }
    forall e: RawEvent | e.path in AsMap(m) && AsMap(m)[e.path] == e
      ensures e in vs
    {
      Lookup(m, e.path);
      var i := Position(m, e.path);
      assert vs[i] == e;
    }
  }

  /** Coalesced output has at most one event for each path. */
  lemma CoalescedOnePerPath(events: seq<RawEvent>)
    ensures OnePerPath(Coalesce(events))
  {
    assert Keyed([]);
    PutAllKeyed([], events);
    KeyedValues(PutAll([], events));
  }

  // ----- coalescing in two goes -----

  lemma {:induction false} PutAllAppend(m: Entries<string, RawEvent>, a: seq<RawEvent>, b: seq<RawEvent>)
    ensures PutAll(m, a + b) == PutAll(PutAll(m, a), b)
    decreases |a|
  {
    hide Put;
    if a == [] {
      assert a + b == b;
    } else {
      assert (a + b)[1..] == a[1..] + b;
      PutAllAppend(Put(m, a[0]), a[1..], b);
    }
  }

  lemma KeyedIsDistinct(m: Entries<string, RawEvent>)
    requires Keyed(m)
    ensures Distinct(m)
  {
  }

  // Events of different paths, put one after the other, make the map they came from.
  lemma {:induction false} PutBack(m: Entries<string, RawEvent>, n: nat)
    requires Keyed(m) && n <= |m|
    ensures PutAll([], Values(m)[..n]) == m[..n]
  {
    hide Keyed, PutAll, Values;
    var vs := Values(m);
    if n == 0 {
      NothingToPut([]);
      assert vs[..0] == [] && m[..0] == [];
    } else {
      PutBack(m, n - 1);
      assert vs[..n] == vs[..n - 1] + [vs[n - 1]];
      PutAllAppend([], vs[..n - 1], [vs[n - 1]]);
      PutOne(m[..n - 1], vs[n - 1]);
      assert Distinct(m) && m[n - 1] == (vs[n - 1].path, vs[n - 1]) by {
        KeyedValues(m);
        KeyedIsDistinct(m);
      }
      PutNew(m, n - 1, vs[n - 1]);
    }
  }

  lemma PutNew(m: Entries<string, RawEvent>, n: nat, event: RawEvent)
    requires Distinct(m) && n < |m| && m[n] == (event.path, event)
    ensures Put(m[..n], event) == m[..n + 1]
  {
    DistinctPrefix(m, n);
    Lookup(m[..n], event.path);
    SettingNew(m[..n], event.path, event);
    assert m[..n + 1] == m[..n] + [m[n]];
  }

  lemma PutOne(m: Entries<string, RawEvent>, event: RawEvent)
    ensures PutAll(m, [event]) == Put(m, event)
  {
    hide Put;
    assert [event][1..] == [];
  }

  /** Coalescing may be done in two goes: a batch can be reduced before more events are added to it,
      and the result, order included, is the same. */
  lemma CoalesceInTwoGoes(a: seq<RawEvent>, b: seq<RawEvent>)
    ensures Coalesce(a + b) == Coalesce(Coalesce(a) + b)
  {
    var m := PutAll([], a);
    assert Keyed([]);
    PutAllKeyed([], a);
    PutBack(m, |m|);
    assert Values(m)[..|m|] == Values(m) && m[..|m|] == m;
    PutAllAppend([], a, b);
    PutAllAppend([], Coalesce(a), b);
  }

  // ----- the net effect on the file system -----

  // The file system as the set of paths that exist.
  function Effect(files: set<string>, event: RawEvent): set<string> {
    match event.kind
    case Create => files + {event.path}
    case Update => files
    case Delete => files - {event.path}
  }

  function EffectOfAll(files: set<string>, events: seq<RawEvent>): set<string>
    decreases |events|
  {
    if events == [] then files else EffectOfAll(Effect(files, events[0]), events[1..])
  }

  // Only what is absent is created and only what is present is updated or deleted.
  predicate Possible(files: set<string>, event: RawEvent) {
    event.kind == Create <==> event.path !in files
  }

  predicate Happened(files: set<string>, events: seq<RawEvent>)
    decreases |events|
  {
    events == [] || (Possible(files, events[0]) && Happened(Effect(files, events[0]), events[1..]))
  }

  function Touched(events: seq<RawEvent>): set<string> {
    if events == [] then {} else {events[0].path} + Touched(events[1..])
  }

  // The event that leads from `before` to `after` for a path that was touched.
  function NetEvent(path: string, before: bool, after: bool): Option<RawEvent> {
    if before && after then Some(RawEvent(Update, path))
    else if before then Some(RawEvent(Delete, path))
    else if after then Some(RawEvent(Create, path))
    else None
  }

  ghost predicate IsNet(m: map<string, RawEvent>, touched: set<string>, before: set<string>, after: set<string>) {
    && (forall p :: p in touched ==> NetEvent(p, p in before, p in after) == if p in m then Some(m[p]) else None)
    && (forall p :: p !in touched ==> p !in m && (p in before <==> p in after))
  }

  lemma {:induction false} PutAllIsNet(m: Entries<string, RawEvent>, touched: set<string>, before: set<string>, now: set<string>,
                                       events: seq<RawEvent>)
    requires Keyed(m) && IsNet(AsMap(m), touched, before, now) && Happened(now, events)
    ensures IsNet(AsMap(PutAll(m, events)), touched + Touched(events), before, EffectOfAll(now, events))
    decreases |events|
  {
    hide Keyed, Put, AsMap;
    if events == [] {
      assert touched + {} == touched;
    } else {
      var e := events[0];
      PutKeyed(m, e);
      PutAllIsNet(Put(m, e), touched + {e.path}, before, Effect(now, e), events[1..]);
      assert touched + {e.path} + Touched(events[1..]) == touched + Touched(events);
    }
  }

  /** The net effect: for any history that can have happened, the coalesced events are exactly the
      differences between the file system before and after. A touched path has a create, update or
      delete event according to whether it existed before and exists after, and none if it did
      neither; an untouched path has none and exists as before. */
  lemma CoalescedIsNet(files: set<string>, events: seq<RawEvent>)
    requires Happened(files, events)
    ensures var after, touched := EffectOfAll(files, events), Touched(events);
      && (forall e :: e in Coalesce(events) <==>
            e.path in touched && NetEvent(e.path, e.path in files, e.path in after) == Some(e))
      && (forall p :: p !in touched ==> (p in files <==> p in after))
  {
    assert Keyed([]);
    PutAllIsNet([], {}, files, files, events);
    PutAllKeyed([], events);
    KeyedValues(PutAll([], events));
    assert {} + Touched(events) == Touched(events);
  }

  // Events of different paths, each possible on its own, can happen in any order.
  lemma {:induction false} IndependentEffects(files: set<string>, events: seq<RawEvent>)
    requires OnePerPath(events) && AllPossible(files, events)
    ensures Happened(files, events)
    ensures forall p :: p in EffectOfAll(files, events) <==>
              RawEvent(Create, p) in events || (p in files && RawEvent(Delete, p) !in events)
    decreases |events|
  {
    hide OnePerPath, AllPossible;
    if events == [] {
    } else {
      var e, rest := events[0], events[1..];
      FirstIsIndependent(files, events);
      IndependentEffects(Effect(files, e), rest);
      assert forall x :: x in events <==> x == e || x in rest by { assert events == [e] + rest; }
    }
  }

  ghost predicate AllPossible(files: set<string>, events: seq<RawEvent>) {
    forall e :: e in events ==> Possible(files, e)
  }

  lemma FirstIsIndependent(files: set<string>, events: seq<RawEvent>)
    requires OnePerPath(events) && AllPossible(files, events) && events != []
    ensures Possible(files, events[0])
    ensures OnePerPath(events[1..]) && AllPossible(Effect(files, events[0]), events[1..])
    ensures forall x :: x in events[1..] ==> x.path != events[0].path
  {
    var rest := events[1..];
    assert forall i :: 0 <= i < |rest| ==> rest[i] == events[i + 1];
    forall x | x in rest
      ensures Possible(Effect(files, events[0]), x) && x.path != events[0].path
    {
      var i :| 0 <= i < |rest| && rest[i] == x;
      assert x == events[i + 1] && Possible(files, x);
    }
  }

  /** The coalesced batch can have happened itself and has the same effect. */
  lemma CoalescedSameEffect(files: set<string>, events: seq<RawEvent>)
    requires Happened(files, events)
    ensures Happened(files, Coalesce(events))
    ensures EffectOfAll(files, Coalesce(events)) == EffectOfAll(files, events)
  {
    CoalescedIsNet(files, events);
    CoalescedOnePerPath(events);
    IndependentEffects(files, Coalesce(events));
  }
}
