/** What is still on its way from the file system to an index (packages/workspace-fs/src/watch.ts):
    events wait to be flushed, flushes that were started wait for `stat`, and may end in any order.
    An index is known here only by its view, the files it has been told of. */
module WatchTimeline {
  import opened Wrappers
  import opened Bytes
  import opened JsMap
  import opened WatchCoalescing

  // ----- what a batch tells an index -----

  function Noted(view: set<string>, event: RawEvent): set<string> {
    if event.kind == Kind.Delete then view - {event.path} else view + {event.path}
  }

  function NotedAll(view: set<string>, batch: seq<RawEvent>): set<string>
    decreases |batch|
  {
    if batch == [] then view else NotedAll(Noted(view, batch[0]), batch[1..])
  }

  ghost predicate About(batch: seq<RawEvent>, path: string) {
    exists e :: e in batch && e.path == path
  }

  // What the last event about the path says: whether it is there.
  function Says(batch: seq<RawEvent>, path: string): Option<bool> {
    if batch == [] then None
    else
      var n := |batch| - 1;
      if batch[n].path == path then Some(batch[n].kind != Kind.Delete) else Says(batch[..n], path)
  }

  function Holds(before: bool, says: Option<bool>): bool {
    if says.Some? then says.value else before
  }

  lemma {:induction false} NotedAppend(view: set<string>, a: seq<RawEvent>, b: seq<RawEvent>)
    ensures NotedAll(view, a + b) == NotedAll(NotedAll(view, a), b)
    decreases |a|
  {
    if a == [] {
      assert a + b == b;
    } else {
      assert (a + b)[0] == a[0] && (a + b)[1..] == a[1..] + b;
      NotedAppend(Noted(view, a[0]), a[1..], b);
    }
  }

  lemma {:induction false} EffectAppend(files: set<string>, a: seq<RawEvent>, b: seq<RawEvent>)
    ensures EffectOfAll(files, a + b) == EffectOfAll(EffectOfAll(files, a), b)
    ensures Happened(files, a + b) <==> Happened(files, a) && Happened(EffectOfAll(files, a), b)
    decreases |a|
  {
    if a == [] {
      assert a + b == b;
    } else {
      assert (a + b)[0] == a[0] && (a + b)[1..] == a[1..] + b;
      EffectAppend(Effect(files, a[0]), a[1..], b);
    }
  }

  lemma OneEvent(files: set<string>, event: RawEvent)
    ensures EffectOfAll(files, [event]) == Effect(files, event) && NotedAll(files, [event]) == Noted(files, event)
    ensures Happened(files, [event]) <==> Possible(files, event)
  {
    assert [event][1..] == [];
  }

  lemma {:induction false} NotedSays(view: set<string>, batch: seq<RawEvent>, path: string)
    ensures path in NotedAll(view, batch) <==> Holds(path in view, Says(batch, path))
    ensures Says(batch, path).Some? <==> About(batch, path)
  {
    if batch == [] {
      assert NotedAll(view, batch) == view;
    } else {
      var n := |batch| - 1;
      assert batch == batch[..n] + [batch[n]];
      NotedSays(view, batch[..n], path);
      NotedAppend(view, batch[..n], [batch[n]]);
      OneEvent(NotedAll(view, batch[..n]), batch[n]);
      assert forall e :: e in batch <==> e in batch[..n] || e == batch[n];
    }
  }

  // A history that can have happened changes the files as it says.
  lemma {:induction false} EffectSays(files: set<string>, batch: seq<RawEvent>)
    requires Happened(files, batch)
    ensures EffectOfAll(files, batch) == NotedAll(files, batch)
    decreases |batch|
  {
    if batch == [] {
    } else {
      assert Effect(files, batch[0]) == Noted(files, batch[0]);
      EffectSays(Effect(files, batch[0]), batch[1..]);
    }
  }

  // ----- taking events back -----

  function UndoOne(files: set<string>, event: RawEvent): set<string> {
    match event.kind
    case Create => files - {event.path}
    case Update => files
    case Delete => files + {event.path}
  }

  function Undo(files: set<string>, events: seq<RawEvent>): set<string>
    decreases |events|
  {
    if events == [] then files
    else Undo(UndoOne(files, events[|events| - 1]), events[..|events| - 1])
  }

  lemma {:induction false} UndoEffect(files: set<string>, events: seq<RawEvent>)
    requires Happened(files, events)
    ensures Undo(EffectOfAll(files, events), events) == files
  {
    if events == [] {
      assert EffectOfAll(files, events) == files;
    } else {
      var n := |events| - 1;
      assert events == events[..n] + [events[n]];
      EffectAppend(files, events[..n], [events[n]]);
      OneEvent(EffectOfAll(files, events[..n]), events[n]);
      assert UndoOne(EffectOfAll(files, events), events[n]) == EffectOfAll(files, events[..n]);
      UndoEffect(files, events[..n]);
    }
  }

  // ----- the world -----

  // The files there are, the events that wait for the next flush, and the coalesced batches of the
  // flushes that were started and have not ended, in starting order.
  datatype World = World(files: set<string>, pending: seq<RawEvent>, flights: seq<seq<RawEvent>>)

  function Outstanding(w: World): seq<RawEvent> {
    Concat(w.flights) + w.pending
  }

  // The files as of the last flush that ended, and as of the last that started.
  function Settled(w: World): set<string> {
    Undo(w.files, Outstanding(w))
  }

  function Base(w: World): set<string> {
    Undo(w.files, w.pending)
  }

  ghost predicate Quiet(w: World) {
    w.pending == [] && w.flights == []
  }

  // What is outstanding leads from the settled files to the files there are.
  ghost predicate Chain(w: World) {
    && Happened(Settled(w), Outstanding(w)) && EffectOfAll(Settled(w), Outstanding(w)) == w.files
    && forall i :: 0 <= i < |w.flights| ==> OnePerPath(w.flights[i])
  }

  function Change(w: World, event: RawEvent): World {
    w.(files := Effect(w.files, event), pending := w.pending + [event])
  }

  // A flush takes all that is pending; when nothing is left of it there is nothing to wait for.
  function StartFlush(w: World): World {
    var batch := Coalesce(w.pending);
    World(w.files, [], if batch == [] then w.flights else w.flights + [batch])
  }

  function EndFlush(w: World, i: nat): World
    requires i < |w.flights|
  {
    w.(flights := w.flights[..i] + w.flights[i + 1..])
  }

  lemma ChainParts(w: World)
    requires Chain(w)
    ensures Happened(Base(w), w.pending) && EffectOfAll(Base(w), w.pending) == w.files
    ensures Happened(Settled(w), Concat(w.flights)) && EffectOfAll(Settled(w), Concat(w.flights)) == Base(w)
  {
    var flown := Concat(w.flights);
    EffectAppend(Settled(w), flown, w.pending);
    UndoEffect(EffectOfAll(Settled(w), flown), w.pending);
  }

  // The same, from its parts.
  lemma ChainFrom(w: World, settled: set<string>)
    requires Happened(settled, Outstanding(w)) && EffectOfAll(settled, Outstanding(w)) == w.files
    requires forall i :: 0 <= i < |w.flights| ==> OnePerPath(w.flights[i])
    ensures Chain(w) && Settled(w) == settled
  {
    UndoEffect(settled, Outstanding(w));
  }

  lemma QuietChain(w: World)
    requires Quiet(w)
    ensures Chain(w) && Settled(w) == Base(w) == w.files && Outstanding(w) == []
  {
    assert Outstanding(w) == [];
  }

  lemma ChangeKeeps(w: World, event: RawEvent)
    requires Chain(w) && Possible(w.files, event)
    ensures Chain(Change(w, event)) && Settled(Change(w, event)) == Settled(w) && Base(Change(w, event)) == Base(w)
  {
    hide Undo, OnePerPath;
    var next, settled := Change(w, event), Settled(w);
    ChainParts(w);
    assert Outstanding(next) == Outstanding(w) + [event];
    EffectAppend(settled, Outstanding(w), [event]);
    EffectAppend(Base(w), w.pending, [event]);
    OneEvent(w.files, event);
    ChainFrom(next, settled);
    UndoEffect(Base(w), next.pending);
  }

  lemma StartKeeps(w: World)
    requires Chain(w)
    ensures Chain(StartFlush(w)) && Settled(StartFlush(w)) == Settled(w) && Base(StartFlush(w)) == w.files
  {
    hide Undo, OnePerPath, Coalesce;
    var next, settled, batch := StartFlush(w), Settled(w), Coalesce(w.pending);
    ChainParts(w);
    CoalescedSameEffect(Base(w), w.pending);
    CoalescedOnePerPath(w.pending);
    if batch == [] {
      assert Outstanding(next) == Concat(w.flights);
    } else {
      ConcatSnoc(w.flights, batch);
      assert Outstanding(next) == Concat(w.flights) + batch;
      EffectAppend(settled, Concat(w.flights), batch);
    }
    ChainFrom(next, settled);
    NothingToUndo(w.files);
  }

  lemma NothingToUndo(files: set<string>)
    ensures Undo(files, []) == files
  {
  }

  lemma EndKeeps(w: World)
    requires Chain(w) && w.flights != []
    ensures Happened(Settled(w), w.flights[0])
    ensures Chain(EndFlush(w, 0)) && Settled(EndFlush(w, 0)) == EffectOfAll(Settled(w), w.flights[0])
    ensures Base(EndFlush(w, 0)) == Base(w)
  {
    hide Undo, OnePerPath;
    var next := EndFlush(w, 0);
    assert w.flights == [w.flights[0]] + w.flights[1..] && next.flights == w.flights[1..];
    assert Outstanding(w) == w.flights[0] + Outstanding(next);
    EffectAppend(Settled(w), w.flights[0], Outstanding(next));
    ChainFrom(next, EffectOfAll(Settled(w), w.flights[0]));
  }

  // ----- flushes that overtake others without harm -----

  function WithoutAt<T>(s: seq<T>, i: nat): seq<T>
    requires i < |s|
  {
    s[..i] + s[i + 1..]
  }

  ghost predicate Disjoint(a: seq<RawEvent>, b: seq<RawEvent>) {
    forall e, f :: e in a && f in b ==> e.path != f.path
  }

  // A flush has no path in common with those in flight that were started before it.
  ghost predicate Independent(w: World, i: nat)
    requires i < |w.flights|
  {
    Disjoint(Concat(w.flights[..i]), w.flights[i])
  }

  lemma {:induction false} EventMovesFirst(files: set<string>, a: seq<RawEvent>, e: RawEvent)
    requires Happened(files, a + [e]) && Disjoint(a, [e])
    ensures Happened(files, [e] + a) && EffectOfAll(files, [e] + a) == EffectOfAll(files, a + [e])
    decreases |a|
  {
    if a == [] {
      assert [] + [e] == [e] == [e] + [];
    } else {
      var first, rest := a[0], a[1..];
      assert first in a && e in [e] && first.path != e.path;
      assert (a + [e])[0] == first && (a + [e])[1..] == rest + [e];
      EventMovesFirst(Effect(files, first), rest, e);
      assert ([e] + rest)[1..] == rest && ([e] + a)[1..] == a;
      assert Effect(Effect(files, first), e) == Effect(Effect(files, e), first);
    }
  }

  lemma {:induction false} BatchMovesFirst(files: set<string>, a: seq<RawEvent>, b: seq<RawEvent>)
    requires Happened(files, a + b) && Disjoint(a, b)
    ensures Happened(files, b + a) && EffectOfAll(files, b + a) == EffectOfAll(files, a + b)
    decreases |b|
  {
    hide Effect, Possible;
    if b == [] {
      assert a + b == a == b + a;
    } else {
      var e, rest := b[0], b[1..];
      assert a + b == (a + [e]) + rest && b + a == [e] + (rest + a);
      assert e in b && forall f :: f in rest ==> f in b;
      EffectAppend(files, a + [e], rest);
      EventMovesFirst(files, a, e);
      assert ([e] + a) + rest == [e] + (a + rest);
      EffectAppend(files, [e] + a, rest);
      EffectAppend(files, [e], a + rest);
      BatchMovesFirst(EffectOfAll(files, [e]), a, rest);
      EffectAppend(files, [e], rest + a);
    }
  }

  // The same world with flush i as the first that was started.
  function Fronted(w: World, i: nat): World
    requires i < |w.flights|
  {
    w.(flights := [w.flights[i]] + WithoutAt(w.flights, i))
  }

  lemma FrontedOutstanding(w: World, i: nat)
    requires i < |w.flights|
    ensures var a, b, c := Concat(w.flights[..i]), w.flights[i], Concat(w.flights[i + 1..]) + w.pending;
      Outstanding(w) == (a + b) + c && Outstanding(Fronted(w, i)) == (b + a) + c
  {
    var before, rest := w.flights[..i], w.flights[i + 1..];
    assert w.flights == (before + [w.flights[i]]) + rest;
    ConcatAppend(before + [w.flights[i]], rest);
    ConcatSnoc(before, w.flights[i]);
    ConcatAppend(before, rest);
    assert Fronted(w, i).flights[1..] == before + rest;
  }

  lemma FrontedChain(w: World, i: nat)
    requires Chain(w) && i < |w.flights| && Independent(w, i)
    ensures Chain(Fronted(w, i)) && Settled(Fronted(w, i)) == Settled(w) && Base(Fronted(w, i)) == Base(w)
  {
    hide Undo, OnePerPath, Happened, Effect;
    var a, b, c := Concat(w.flights[..i]), w.flights[i], Concat(w.flights[i + 1..]) + w.pending;
    FrontedOutstanding(w, i);
    EffectAppend(Settled(w), a + b, c);
    BatchMovesFirst(Settled(w), a, b);
    EffectAppend(Settled(w), b + a, c);
    hide Outstanding;
    ChainFrom(Fronted(w, i), Settled(w));
  }

  // ----- which views will come out right -----

  ghost predicate Agree(view: set<string>, files: set<string>, wanted: iset<string>) {
    forall p :: p in wanted ==> (p in view <==> p in files)
  }

  // An event about the path is sure to come: a flush has one, or the next one will, because the file
  // was there when the last flush started and has been touched since.
  ghost predicate Bound(w: World, path: string) {
    || (exists i :: 0 <= i < |w.flights| && About(w.flights[i], path))
    || (path in Touched(w.pending) && path in Base(w))
  }

  ghost predicate OnTrack(w: World, view: set<string>, wanted: iset<string>) {
    forall p :: p in wanted ==> (p in view <==> p in Settled(w)) || Bound(w, p)
  }

  lemma {:induction false} TouchedAppend(a: seq<RawEvent>, b: seq<RawEvent>)
    ensures Touched(a + b) == Touched(a) + Touched(b)
  {
    if a == [] {
      assert a + b == b;
    } else {
      assert (a + b)[0] == a[0] && (a + b)[1..] == a[1..] + b;
      TouchedAppend(a[1..], b);
    }
  }

  lemma ChangeOnTrack(w: World, event: RawEvent, view: set<string>, wanted: iset<string>)
    requires Chain(w) && Possible(w.files, event) && OnTrack(w, view, wanted)
    ensures OnTrack(Change(w, event), view, wanted)
  {
    hide Chain, Settled, Base, About;
    ChangeKeeps(w, event);
    TouchedAppend(w.pending, [event]);
  }

  // What the next flush says about a path.
  lemma CoalescedAbout(w: World, path: string)
    requires Chain(w)
    ensures About(Coalesce(w.pending), path) <==>
            path in Touched(w.pending) && (path in Base(w) || path in w.files)
  {
    hide Base, Undo, Coalesce;
    ChainParts(w);
    CoalescedIsNet(Base(w), w.pending);
    var net := NetEvent(path, path in Base(w), path in w.files);
    if path in Touched(w.pending) && net.Some? {
      assert net.value in Coalesce(w.pending) && net.value.path == path;
    }
  }

  lemma StartOnTrack(w: World, view: set<string>, wanted: iset<string>)
    requires Chain(w) && OnTrack(w, view, wanted)
    ensures OnTrack(StartFlush(w), view, wanted)
  {
    hide Chain, Settled, Base, About, Coalesce;
    var next, batch := StartFlush(w), Coalesce(w.pending);
    StartKeeps(w);
    forall p | p in wanted
      ensures (p in view <==> p in Settled(next)) || Bound(next, p)
    {
      CoalescedAbout(w, p);
      NothingAbout(p);
      if i :| 0 <= i < |w.flights| && About(w.flights[i], p) {
        assert next.flights[i] == w.flights[i];
      } else if About(batch, p) {
        assert next.flights[|w.flights|] == batch;
      }
    }
  }

  lemma NothingAbout(path: string)
    ensures !About([], path)
  {
  }

  lemma EndOnTrack(w: World, view: set<string>, wanted: iset<string>)
    requires Chain(w) && w.flights != [] && OnTrack(w, view, wanted)
    ensures OnTrack(EndFlush(w, 0), NotedAll(view, w.flights[0]), wanted)
  {
    hide Chain, Settled, Base, About, NotedAll;
    var next, batch := EndFlush(w, 0), w.flights[0];
    EndKeeps(w);
    EffectSays(Settled(w), batch);
    forall p | p in wanted
      ensures (p in NotedAll(view, batch) <==> p in Settled(next)) || Bound(next, p)
    {
      NotedSays(view, batch, p);
      NotedSays(Settled(w), batch, p);
      if i :| 0 < i < |w.flights| && About(w.flights[i], p) {
        assert next.flights[i - 1] == w.flights[i];
      }
    }
  }

  lemma FrontedOnTrack(w: World, i: nat, view: set<string>, wanted: iset<string>)
    requires Chain(w) && i < |w.flights| && Independent(w, i) && OnTrack(w, view, wanted)
    ensures OnTrack(Fronted(w, i), view, wanted)
  {
    hide Chain, Settled, Base, About, Independent;
    var fronted := Fronted(w, i);
    FrontedChain(w, i);
    forall p | Bound(w, p)
      ensures Bound(fronted, p)
    {
      if k :| 0 <= k < |w.flights| && About(w.flights[k], p) {
        assert fronted.flights[if k < i then k + 1 else if k == i then 0 else k] == w.flights[k];
      }
    }
  }

  // The end of a flush that overtakes only flushes it has nothing to do with keeps all this.
  lemma IndependentEndKeeps(w: World, i: nat, view: set<string>, wanted: iset<string>)
    requires Chain(w) && i < |w.flights| && Independent(w, i)
    ensures Chain(EndFlush(w, i))
    ensures OnTrack(w, view, wanted) ==> OnTrack(EndFlush(w, i), NotedAll(view, w.flights[i]), wanted)
  {
    hide Chain, OnTrack, Independent, NotedAll;
    FrontedChain(w, i);
    EndKeeps(Fronted(w, i));
    assert EndFlush(Fronted(w, i), 0) == EndFlush(w, i);
    if OnTrack(w, view, wanted) {
      FrontedOnTrack(w, i, view, wanted);
      EndOnTrack(Fronted(w, i), view, wanted);
    }
  }

  lemma QuietOnTrack(w: World, view: set<string>, wanted: iset<string>)
    requires Quiet(w)
    ensures OnTrack(w, view, wanted) <==> Agree(view, w.files, wanted)
  {
    hide Settled, Base;
    QuietChain(w);
  }

  /** A build that saw the files there are now is on track exactly when every wanted file of which
      only pending events tell that it is new has an event in a flush that was started. */
  lemma FilesOnTrackIff(w: World, wanted: iset<string>)
    requires Chain(w)
    ensures OnTrack(w, w.files, wanted) <==>
            forall p :: p in wanted && p in w.files && p !in Base(w) ==>
              exists i :: 0 <= i < |w.flights| && About(w.flights[i], p)
  {
    hide Settled, Base, Undo, About;
    ChainParts(w);
    CoalescedIsNet(Base(w), w.pending);
    forall p | !exists i :: 0 <= i < |w.flights| && About(w.flights[i], p)
      ensures p in Settled(w) <==> p in Base(w)
    {
      NotInFlight(w, p);
    }
    assert forall p :: p !in Touched(w.pending) ==> (p in w.files <==> p in Base(w));
  }

  lemma NotInFlight(w: World, path: string)
    requires Chain(w) && !exists i :: 0 <= i < |w.flights| && About(w.flights[i], path)
    ensures path in Settled(w) <==> path in Base(w)
  {
    hide Settled, Base, NotedAll, About;
    ChainParts(w);
    EffectSays(Settled(w), Concat(w.flights));
    NotedSays(Settled(w), Concat(w.flights), path);
    ConcatAbout(w.flights, path);
  }

  lemma {:induction false} ConcatAbout(batches: seq<seq<RawEvent>>, path: string)
    ensures About(Concat(batches), path) <==> exists i :: 0 <= i < |batches| && About(batches[i], path)
  {
    if batches == [] {
      NothingAbout(path);
    } else {
      ConcatAbout(batches[1..], path);
      assert forall e :: e in Concat(batches) <==> e in batches[0] || e in Concat(batches[1..]);
      assert About(Concat(batches), path) <==> About(batches[0], path) || About(Concat(batches[1..]), path);
      assert forall i :: 0 < i < |batches| ==> batches[1..][i - 1] == batches[i];
    }
  }

  // ----- how a run may go on -----

  datatype Move = Changes(event: RawEvent) | FlushStarts | FlushEnds(i: nat)

  predicate CanMove(w: World, move: Move) {
    match move
    case Changes(event) => Possible(w.files, event)
    case FlushStarts => true
    case FlushEnds(i) => i < |w.flights|
  }

  function Moved(w: World, move: Move): World
    requires CanMove(w, move)
  {
    match move
    case Changes(event) => Change(w, event)
    case FlushStarts => StartFlush(w)
    case FlushEnds(i) => EndFlush(w, i)
  }

  function MovedView(w: World, view: set<string>, move: Move): set<string>
    requires CanMove(w, move)
  {
    if move.FlushEnds? then NotedAll(view, w.flights[move.i]) else view
  }

  predicate CanHappen(w: World, moves: seq<Move>)
    decreases |moves|
  {
    moves == [] || (CanMove(w, moves[0]) && CanHappen(Moved(w, moves[0]), moves[1..]))
  }

  function After(w: World, moves: seq<Move>): World
    requires CanHappen(w, moves)
    decreases |moves|
  {
    if moves == [] then w else After(Moved(w, moves[0]), moves[1..])
  }

  function ViewAfter(w: World, view: set<string>, moves: seq<Move>): set<string>
    requires CanHappen(w, moves)
    decreases |moves|
  {
    if moves == [] then view else ViewAfter(Moved(w, moves[0]), MovedView(w, view, moves[0]), moves[1..])
  }

  // Flushes end in the order in which they were started.
  ghost predicate InOrder(moves: seq<Move>) {
    forall m :: m in moves && m.FlushEnds? ==> m.i == 0
  }

  lemma MoveKeeps(w: World, view: set<string>, move: Move, wanted: iset<string>)
    requires Chain(w) && CanMove(w, move) && (move.FlushEnds? ==> move.i == 0)
    ensures Chain(Moved(w, move))
    ensures OnTrack(w, view, wanted) ==> OnTrack(Moved(w, move), MovedView(w, view, move), wanted)
  {
    hide Chain, OnTrack;
    match move
    case Changes(event) =>
      ChangeKeeps(w, event);
      if OnTrack(w, view, wanted) {
        ChangeOnTrack(w, event, view, wanted);
      }
    case FlushStarts =>
      StartKeeps(w);
      if OnTrack(w, view, wanted) {
        StartOnTrack(w, view, wanted);
      }
    case FlushEnds(_) =>
      EndKeeps(w);
      if OnTrack(w, view, wanted) {
        EndOnTrack(w, view, wanted);
      }
  }

  lemma {:induction false} RunKeeps(w: World, view: set<string>, moves: seq<Move>, wanted: iset<string>)
    requires Chain(w) && CanHappen(w, moves) && InOrder(moves)
    ensures Chain(After(w, moves))
    ensures OnTrack(w, view, wanted) ==> OnTrack(After(w, moves), ViewAfter(w, view, moves), wanted)
    decreases |moves|
  {
    hide Chain, OnTrack, Moved, MovedView, CanMove;
    if moves == [] {
    } else {
      MoveKeeps(w, view, moves[0], wanted);
      RunKeeps(Moved(w, moves[0]), MovedView(w, view, moves[0]), moves[1..], wanted);
    }
  }

  // ----- what is off track stays wrong -----

  // Nothing that is outstanding will correct the view of the path.
  ghost predicate Lost(w: World, view: set<string>, path: string) {
    && (path in view) != (path in w.files)
    && (forall i :: 0 <= i < |w.flights| ==> !About(w.flights[i], path))
  }

  lemma {:induction false} LostForGood(w: World, view: set<string>, path: string) returns (moves: seq<Move>)
    requires w.pending == [] && Lost(w, view, path)
    ensures CanHappen(w, moves) && InOrder(moves) && Quiet(After(w, moves))
    ensures forall m :: m in moves ==> !m.Changes?
    ensures (path in ViewAfter(w, view, moves)) != (path in After(w, moves).files)
    decreases |w.flights|
  {
    hide About, NotedAll;
    if w.flights == [] {
      moves := [];
    } else {
      var next, seen := EndFlush(w, 0), NotedAll(view, w.flights[0]);
      NotedSays(view, w.flights[0], path);
      assert forall i :: 0 <= i < |next.flights| ==> next.flights[i] == w.flights[i + 1];
      var more := LostForGood(next, seen, path);
      moves := [FlushEnds(0)] + more;
      assert moves[1..] == more && moves[0] == FlushEnds(0);
    }
  }

  lemma StartLoses(w: World, view: set<string>, path: string) returns (moves: seq<Move>)
    requires Chain(w) && Lost(w, view, path) && !About(Coalesce(w.pending), path)
    ensures CanHappen(w, moves) && InOrder(moves) && Quiet(After(w, moves))
    ensures forall m :: m in moves ==> !m.Changes?
    ensures (path in ViewAfter(w, view, moves)) != (path in After(w, moves).files)
  {
    hide About, NotedAll, Coalesce, Chain;
    var more := LostForGood(StartFlush(w), view, path);
    moves := [FlushStarts] + more;
    assert moves[1..] == more && moves[0] == FlushStarts;
  }

  // A view that is off track for a path has a continuation that ends with the view wrong about it.
  lemma OffTrackGoesWrong(w: World, view: set<string>, path: string) returns (moves: seq<Move>)
    requires Chain(w) && (path in view) != (path in Settled(w)) && !Bound(w, path)
    ensures CanHappen(w, moves) && InOrder(moves) && Quiet(After(w, moves))
    ensures forall m :: m in moves && m.Changes? ==> m.event.path in w.files
    ensures (path in ViewAfter(w, view, moves)) != (path in After(w, moves).files)
  {
    hide Chain, About, Settled, Base, NotedAll, Coalesce, OnTrack;
    NotInFlight(w, path);
    CoalescedAbout(w, path);
    UntouchedStays(w, path);
    if path in w.files && path !in Base(w) {
      var event := RawEvent(Kind.Delete, path);
      var next := Change(w, event);
      ChangeKeeps(w, event);
      CoalescedAbout(next, path);
      var more := StartLoses(next, view, path);
      moves := [Changes(event)] + more;
      assert moves[1..] == more && moves[0] == Changes(event);
    } else {
      moves := StartLoses(w, view, path);
    }
  }

  lemma UntouchedStays(w: World, path: string)
    requires Chain(w)
    ensures path !in Touched(w.pending) ==> (path in w.files <==> path in Base(w))
  {
    hide Base;
    ChainParts(w);
    CoalescedIsNet(Base(w), w.pending);
  }

  // A continuation of the run in which flushes end in order, to a point where nothing is outstanding.
  ghost predicate Continues(w: World, moves: seq<Move>) {
    CanHappen(w, moves) && InOrder(moves) && Quiet(After(w, moves))
  }

  /** Being on track is exact: a view is on track if and only if it agrees with the files whenever
      nothing is outstanding any more, in every continuation in which flushes end in the order in which
      they were started. */
  lemma OnTrackIff(w: World, view: set<string>, wanted: iset<string>)
    requires Chain(w)
    ensures OnTrack(w, view, wanted) <==>
            forall moves :: Continues(w, moves) ==> Agree(ViewAfter(w, view, moves), After(w, moves).files, wanted)
  {
    hide Chain, Bound, Settled, CanHappen, InOrder, After, ViewAfter;
    if OnTrack(w, view, wanted) {
      forall moves | Continues(w, moves)
        ensures Agree(ViewAfter(w, view, moves), After(w, moves).files, wanted)
      {
        RunKeeps(w, view, moves, wanted);
        QuietOnTrack(After(w, moves), ViewAfter(w, view, moves), wanted);
      }
    } else {
      var p :| p in wanted && (p in view) != (p in Settled(w)) && !Bound(w, p);
      var moves := OffTrackGoesWrong(w, view, p);
      assert Continues(w, moves);
    }
  }

  // ----- flushes that end in another order -----

  // Takes all of n flushes, each by its place among those that are left.
  predicate TakesAll(n: nat, order: seq<nat>) {
    if order == [] then n == 0 else n > 0 && order[0] < n && TakesAll(n - 1, order[1..])
  }

  function Taken(flights: seq<seq<RawEvent>>, order: seq<nat>): seq<seq<RawEvent>>
    requires TakesAll(|flights|, order)
    decreases |order|
  {
    if order == [] then [] else [flights[order[0]]] + Taken(WithoutAt(flights, order[0]), order[1..])
  }

  function Ends(order: seq<nat>): seq<Move> {
    if order == [] then [] else [FlushEnds(order[0])] + Ends(order[1..])
  }

  lemma {:induction false} EndsView(w: World, view: set<string>, order: seq<nat>)
    requires TakesAll(|w.flights|, order)
    ensures CanHappen(w, Ends(order)) && After(w, Ends(order)) == w.(flights := [])
    ensures ViewAfter(w, view, Ends(order)) == NotedAll(view, Concat(Taken(w.flights, order)))
    decreases |order|
  {
    if order == [] {
      assert NotedAll(view, []) == view;
    } else {
      hide NotedAll;
      var i, rest := order[0], order[1..];
      var next, batch := EndFlush(w, i), w.flights[i];
      assert next.flights == WithoutAt(w.flights, i);
      EndsView(next, NotedAll(view, batch), rest);
      assert Ends(order)[1..] == Ends(rest) && Ends(order)[0] == FlushEnds(i);
      var taken := Taken(next.flights, rest);
      assert Taken(w.flights, order) == [batch] + taken && ([batch] + taken)[1..] == taken;
      NotedAppend(view, batch, Concat(taken));
    }
  }

  lemma {:induction false} TakenAbout(flights: seq<seq<RawEvent>>, order: seq<nat>, path: string)
    requires TakesAll(|flights|, order)
    ensures About(Concat(Taken(flights, order)), path) <==> About(Concat(flights), path)
    decreases |order|
  {
    hide About;
    if order == [] {
    } else {
      var i := order[0];
      var rest := WithoutAt(flights, i);
      TakenAbout(rest, order[1..], path);
      var taken := Taken(rest, order[1..]);
      assert Taken(flights, order) == [flights[i]] + taken;
      ConcatAbout([flights[i]] + taken, path);
      ConcatAbout(taken, path);
      ConcatAbout(flights, path);
      ConcatAbout(rest, path);
      AboutRest(flights, i, path);
      AboutFirst(flights[i], taken, path);
    }
  }

  lemma AboutFirst(first: seq<RawEvent>, rest: seq<seq<RawEvent>>, path: string)
    ensures (exists k :: 0 <= k < |[first] + rest| && About(([first] + rest)[k], path)) <==>
            About(first, path) || exists k :: 0 <= k < |rest| && About(rest[k], path)
  {
    hide About;
    var all := [first] + rest;
    assert forall k :: 0 <= k < |rest| ==> all[k + 1] == rest[k];
    if k :| 0 <= k < |all| && About(all[k], path) {
      assert k > 0 ==> all[k] == rest[k - 1];
    }
    if k :| 0 <= k < |rest| && About(rest[k], path) {
      assert About(all[k + 1], path);
    }
    assert all[0] == first;
  }

  lemma AboutRest(flights: seq<seq<RawEvent>>, i: nat, path: string)
    requires i < |flights|
    ensures (exists k :: 0 <= k < |flights| && About(flights[k], path)) <==>
            About(flights[i], path) || exists k :: 0 <= k < |WithoutAt(flights, i)| && About(WithoutAt(flights, i)[k], path)
  {
    hide About;
    var rest := WithoutAt(flights, i);
    if k :| 0 <= k < |flights| && About(flights[k], path) {
      assert k < i ==> rest[k] == flights[k];
      assert k > i ==> rest[k - 1] == flights[k];
    }
    if k :| 0 <= k < |rest| && About(rest[k], path) {
      assert rest[k] == if k < i then flights[k] else flights[k + 1];
    }
  }

  /** The order in which flushes end matters exactly this much: with nothing pending and a right view,
      it stays right if and only if, for every wanted path, the last event about it in ending order says
      the same as the last one in starting order. */
  lemma EndingOrderIff(w: World, view: set<string>, order: seq<nat>, wanted: iset<string>)
    requires Chain(w) && w.pending == [] && Agree(view, Settled(w), wanted) && TakesAll(|w.flights|, order)
    ensures CanHappen(w, Ends(order)) && Quiet(After(w, Ends(order))) && After(w, Ends(order)).files == w.files
    ensures Agree(ViewAfter(w, view, Ends(order)), w.files, wanted) <==>
            forall p :: p in wanted ==> Says(Concat(Taken(w.flights, order)), p) == Says(Concat(w.flights), p)
  {
    hide Settled, About, NotedAll, Says, Taken, TakesAll, CanHappen, After, ViewAfter;
    var taken, flown := Concat(Taken(w.flights, order)), Concat(w.flights);
    EndsView(w, view, order);
    NothingPending(w);
    EffectSays(Settled(w), flown);
    forall p
      ensures p in NotedAll(view, taken) <==> Holds(p in view, Says(taken, p))
      ensures p in w.files <==> Holds(p in Settled(w), Says(flown, p))
      ensures Says(taken, p).Some? <==> Says(flown, p).Some?
    {
      NotedSays(view, taken, p);
      NotedSays(Settled(w), flown, p);
      TakenAbout(w.flights, order, p);
    }
  }

  lemma NothingPending(w: World)
    requires Chain(w) && w.pending == []
    ensures Happened(Settled(w), Concat(w.flights)) && EffectOfAll(Settled(w), Concat(w.flights)) == w.files
  {
    assert Outstanding(w) == Concat(w.flights);
  }
}
