/** How paired deletes and creates are replaced by renames in a batch of watch events
    (packages/workspace-fs/src/watch.ts). */
module WatchReconciliation {
  import opened Wrappers
  import opened Bytes
  import opened JsMap
  import opened WatchRenames

  function CandidateAt(events: seq<WatchEvent>, i: nat): Candidate
    requires i < |events|
  {
    Candidate(i, events[i].path, events[i].isDirectory)
  }

  ghost predicate IsDelete(events: seq<WatchEvent>, c: Candidate) {
    c.index < |events| && events[c.index].Deleted? && c == CandidateAt(events, c.index)
  }

  ghost predicate IsCreate(events: seq<WatchEvent>, c: Candidate) {
    c.index < |events| && events[c.index].Created? && c == CandidateAt(events, c.index)
  }

  ghost function DeletesOf(events: seq<WatchEvent>): (r: set<Candidate>)
    ensures forall c :: c in r <==> IsDelete(events, c)
  {
    set i | 0 <= i < |events| && events[i].Deleted? :: CandidateAt(events, i)
  }

  ghost function CreatesOf(events: seq<WatchEvent>): (r: set<Candidate>)
    ensures forall c :: c in r <==> IsCreate(events, c)
  {
    set i | 0 <= i < |events| && events[i].Created? :: CandidateAt(events, i)
  }

  function RenameOf(p: Pair): WatchEvent {
    Renamed(p.0.path, p.1.path, p.1.isDirectory)
  }

  ghost predicate RenamedAt(pairs: set<Pair>, i: int) {
    exists p :: p in pairs && p.1.index == i
  }

  ghost predicate ConsumedAt(pairs: set<Pair>, i: int) {
    exists p :: p in pairs && p.0.index == i
  }

  // What stands for event i: a rename in the place of its create, nothing in the place of its delete.
  ghost function Piece(events: seq<WatchEvent>, pairs: set<Pair>, i: nat): seq<WatchEvent>
    requires i < |events|
  {
    if RenamedAt(pairs, i) then
      var p :| p in pairs && p.1.index == i;
      [RenameOf(p)]
    else if ConsumedAt(pairs, i) then []
    else [events[i]]
  }

  ghost function Pieces(events: seq<WatchEvent>, pairs: set<Pair>, n: nat): seq<WatchEvent>
    requires n <= |events|
  {
    if n == 0 then [] else Pieces(events, pairs, n - 1) + Piece(events, pairs, n - 1)
  }

  ghost function Reconcile(events: seq<WatchEvent>): seq<WatchEvent> {
    Pieces(events, Pairing(DeletesOf(events), CreatesOf(events)), |events|)
  }

  ghost predicate PairsOf(events: seq<WatchEvent>, pairs: set<Pair>) {
    Matching(pairs, DeletesOf(events), CreatesOf(events))
  }

  lemma PieceOfPair(events: seq<WatchEvent>, pairs: set<Pair>, p: Pair)
    requires PairsOf(events, pairs) && p in pairs
    ensures IsDelete(events, p.0) && IsCreate(events, p.1)
    ensures Piece(events, pairs, p.1.index) == [RenameOf(p)]
    ensures Piece(events, pairs, p.0.index) == []
  {
    assert IsDelete(events, p.0) && IsCreate(events, p.1);
    assert forall q :: q in pairs ==> IsDelete(events, q.0) && IsCreate(events, q.1);
    assert forall q :: q in pairs && q.1.index == p.1.index ==> q == p;
    assert RenamedAt(pairs, p.1.index) && ConsumedAt(pairs, p.0.index);
  }

  lemma {:induction false} NothingPaired(events: seq<WatchEvent>, n: nat)
    requires n <= |events|
    ensures Pieces(events, {}, n) == events[..n]
  {
    if n == 0 {
    } else {
      NothingPaired(events, n - 1);
      assert events[..n] == events[..n - 1] + [events[n - 1]];
    }
  }

  // ----- nothing is lost or invented -----

  // A rename is the delete of its old path and the create of its new one.
  function Expand(event: WatchEvent): seq<WatchEvent> {
    if event.Renamed?
    then [Deleted(event.oldPath, event.isDirectory), Created(event.path, event.isDirectory)]
    else [event]
  }

  function ExpandAll(events: seq<WatchEvent>): seq<WatchEvent> {
    if events == [] then [] else ExpandAll(events[..|events| - 1]) + Expand(events[|events| - 1])
  }

  type Bag = multiset<WatchEvent>

  ghost function Total(bags: seq<Bag>): Bag {
    if bags == [] then multiset{} else Total(bags[..|bags| - 1]) + bags[|bags| - 1]
  }

  lemma Alongside(x: Bag, a: Bag, y: Bag, b: Bag, rest: Bag)
    requires x + a == y + b
    ensures (x + rest) + a == (y + rest) + b
  {
    forall e
      ensures ((x + rest) + a)[e] == ((y + rest) + b)[e]
    {
      assert (x + a)[e] == x[e] + a[e] && (y + b)[e] == y[e] + b[e];
    }
  }

  lemma {:induction false} TotalUpdate(bags: seq<Bag>, i: nat, b: Bag)
    requires i < |bags|
    ensures Total(bags[i := b]) + bags[i] == Total(bags) + b
  {
    var n := |bags| - 1;
    if i == n {
      assert bags[i := b][..n] == bags[..n];
    } else {
      assert bags[i := b][..n] == bags[..n][i := b];
      TotalUpdate(bags[..n], i, b);
      Alongside(Total(bags[..n][i := b]), bags[i], Total(bags[..n]), b, bags[n]);
    }
  }

  ghost function Bags(events: seq<WatchEvent>, pairs: set<Pair>): (r: seq<Bag>)
    ensures |r| == |events|
    ensures forall i :: 0 <= i < |r| ==> r[i] == multiset(ExpandAll(Piece(events, pairs, i)))
  {
    seq(|events|, i requires 0 <= i < |events| => multiset(ExpandAll(Piece(events, pairs, i))))
  }

  lemma {:induction false} ExpandAppend(a: seq<WatchEvent>, b: seq<WatchEvent>)
    ensures ExpandAll(a + b) == ExpandAll(a) + ExpandAll(b)
    decreases |b|
  {
    if b == [] {
      assert a + b == a;
    } else {
      var n := |b| - 1;
      assert a + b == (a + b[..n]) + [b[n]] && b == b[..n] + [b[n]];
      ExpandSnoc(a + b[..n], b[n]);
      ExpandSnoc(b[..n], b[n]);
      ExpandAppend(a, b[..n]);
      hide Expand, ExpandAll;
      ConcatAssociates(ExpandAll(a), ExpandAll(b[..n]), Expand(b[n]));
    }
  }

  lemma ExpandSnoc(a: seq<WatchEvent>, event: WatchEvent)
    ensures ExpandAll(a + [event]) == ExpandAll(a) + Expand(event)
  {
    assert (a + [event])[..|a|] == a;
  }

  lemma ExpandOne(event: WatchEvent)
    ensures ExpandAll([event]) == Expand(event)
  {
    assert [event][..0] == [];
    assert ExpandAll([event]) == ExpandAll([event][..0]) + Expand(event);
  }

  lemma {:induction false} PiecesTotal(events: seq<WatchEvent>, pairs: set<Pair>, n: nat)
    requires n <= |events|
    ensures multiset(ExpandAll(Pieces(events, pairs, n))) == Total(Bags(events, pairs)[..n])
  {
    hide Piece, ExpandAll;
    var bags := Bags(events, pairs);
    if n == 0 {
      assert ExpandAll(Pieces(events, pairs, 0)) == [] by { ExpandNone(); }
    } else {
      PiecesTotal(events, pairs, n - 1);
      ExpandAppend(Pieces(events, pairs, n - 1), Piece(events, pairs, n - 1));
      assert bags[..n][..n - 1] == bags[..n - 1];
    }
  }

  lemma ExpandNone()
    ensures ExpandAll([]) == []
  {
  }

  lemma PairMovesDelete(events: seq<WatchEvent>, pairs: set<Pair>, p: Pair)
    requires PairsOf(events, pairs) && p in pairs
    ensures PairsOf(events, pairs - {p})
    ensures p.0.index < |events| && p.1.index < |events| && p.0.index != p.1.index
    ensures var bags := Bags(events, pairs - {p});
      && bags[p.0.index] == multiset{events[p.0.index]}
      && bags[p.1.index] == multiset{events[p.1.index]}
      && Bags(events, pairs) ==
         bags[p.0.index := multiset{}][p.1.index := multiset{events[p.0.index], events[p.1.index]}]
  {
    hide ExpandAll;
    var less := pairs - {p};
    PieceOfPair(events, pairs, p);
    PieceOfUnpaired(events, pairs, p);
    ExpandNone();
    ExpandOne(RenameOf(p));
    ExpandOne(events[p.0.index]);
    ExpandOne(events[p.1.index]);
    forall i: nat | i < |events| && i != p.0.index && i != p.1.index
      ensures Piece(events, pairs, i) == Piece(events, less, i)
    {
      SamePiece(events, pairs, p, i);
    }
  }

  lemma PieceOfUnpaired(events: seq<WatchEvent>, pairs: set<Pair>, p: Pair)
    requires PairsOf(events, pairs) && p in pairs
    ensures IsDelete(events, p.0) && IsCreate(events, p.1)
    ensures Piece(events, pairs - {p}, p.0.index) == [events[p.0.index]]
    ensures Piece(events, pairs - {p}, p.1.index) == [events[p.1.index]]
    ensures p.0.isDirectory == p.1.isDirectory
  {
    assert IsDelete(events, p.0) && IsCreate(events, p.1);
    assert forall q :: q in pairs ==> IsDelete(events, q.0) && IsCreate(events, q.1);
    assert forall q :: q in pairs - {p} ==> q.0 != p.0 && q.1 != p.1;
  }

  lemma SamePiece(events: seq<WatchEvent>, pairs: set<Pair>, p: Pair, i: nat)
    requires PairsOf(events, pairs) && p in pairs && i < |events| && i != p.0.index && i != p.1.index
    ensures Piece(events, pairs, i) == Piece(events, pairs - {p}, i)
  {
    assert forall q :: q in pairs ==> IsDelete(events, q.0) && IsCreate(events, q.1);
    assert RenamedAt(pairs, i) <==> RenamedAt(pairs - {p}, i);
    assert ConsumedAt(pairs, i) <==> ConsumedAt(pairs - {p}, i);
    assert forall q, r :: q in pairs && r in pairs && q.1.index == i && r.1.index == i ==> q == r;
  }

  lemma {:induction false} PairsConserve(events: seq<WatchEvent>, pairs: set<Pair>)
    requires PairsOf(events, pairs)
    ensures Total(Bags(events, pairs)) == Total(Bags(events, {}))
    decreases |pairs|
  {
    hide Bags, PairsOf, Total;
    if pairs != {} {
      var p :| p in pairs;
      PairMovesDelete(events, pairs, p);
      var bags := Bags(events, pairs - {p});
      var d, c := p.0.index, p.1.index;
      TotalUpdate(bags, d, multiset{});
      TotalUpdate(bags[d := multiset{}], c, multiset{events[d], events[c]});
      PairsConserve(events, pairs - {p});
      Moved(Total(Bags(events, pairs)), Total(bags[d := multiset{}]), Total(bags), events[d], events[c]);
    }
  }

  lemma Moved(after: Bag, between: Bag, before: Bag, d: WatchEvent, c: WatchEvent)
    requires between + multiset{d} == before + multiset{}
    requires after + multiset{c} == between + multiset{d, c}
    ensures after == before
  {
    forall e
      ensures after[e] == before[e]
    {
      assert (between + multiset{d})[e] == between[e] + multiset{d}[e];
      assert (after + multiset{c})[e] == after[e] + multiset{c}[e];
      assert (between + multiset{d, c})[e] == between[e] + multiset{d}[e] + multiset{c}[e];
    }
  }

  /** Reconciling loses and invents nothing: with every rename read as the delete and the create it
      stands for, the reconciled batch holds the same events, each as often as before. */
  lemma ReconcileConserves(events: seq<WatchEvent>)
    ensures multiset(ExpandAll(Reconcile(events))) == multiset(ExpandAll(events))
  {
    hide Pairing, Matching, Bags, Total, ExpandAll;
    var pairs := Pairing(DeletesOf(events), CreatesOf(events));
    PairingMatches(DeletesOf(events), CreatesOf(events));
    PiecesTotal(events, pairs, |events|);
    PiecesTotal(events, {}, |events|);
    NothingPaired(events, |events|);
    PairsConserve(events, pairs);
    assert Bags(events, pairs)[..|events|] == Bags(events, pairs);
    assert Bags(events, {})[..|events|] == Bags(events, {});
    assert events[..|events|] == events;
  }

  // ----- reconciling a batch -----

  method CollectCandidates(events: seq<WatchEvent>) returns (deletes: seq<Candidate>, creates: seq<Candidate>)
    ensures Indexed(deletes) && Indexed(creates)
    ensures Unused(deletes, {}) == DeletesOf(events) && Unused(creates, {}) == CreatesOf(events)
  {
    deletes, creates := [], [];
    for index := 0 to |events|
      invariant Indexed(deletes) && forall c :: c in deletes <==> c.index < index && IsDelete(events, c)
      invariant Indexed(creates) && forall c :: c in creates <==> c.index < index && IsCreate(events, c)
    {
      var event := events[index];
      if event.Deleted? {
        deletes := deletes + [Candidate(index, event.path, event.isDirectory)];
      } else if event.Created? {
        creates := creates + [Candidate(index, event.path, event.isDirectory)];
      }
    }
  }

  // The renames by the index of their create.
  ghost predicate RenamesByCreate(renames: map<int, WatchEvent>, pairs: set<Pair>) {
    && (forall p :: p in pairs ==> p.1.index in renames && renames[p.1.index] == RenameOf(p))
    && (forall i :: i in renames ==> RenamedAt(pairs, i))
  }

  method RenamePairs(events: seq<WatchEvent>, pairs: seq<Pair>)
    returns (renameByCreateIndex: Entries<int, WatchEvent>, consumedIndexes: set<int>)
    requires PairsOf(events, Elements(pairs))
    ensures RenamesByCreate(AsMap(renameByCreateIndex), Elements(pairs))
    ensures forall i :: i in consumedIndexes <==> ConsumedAt(Elements(pairs), i) || RenamedAt(Elements(pairs), i)
  {
    hide AsMap, PairsOf;
    renameByCreateIndex, consumedIndexes := [], {};
    assert AsMap<int, WatchEvent>([]) == map[] by { NoEntries<int, WatchEvent>(); }
    for i := 0 to |pairs|
      invariant RenamesByCreate(AsMap(renameByCreateIndex), Elements(pairs[..i]))
      invariant forall k :: k in consumedIndexes <==>
                  ConsumedAt(Elements(pairs[..i]), k) || RenamedAt(Elements(pairs[..i]), k)
    {
      var p := pairs[i];
      consumedIndexes := consumedIndexes + {p.0.index, p.1.index};
      Setting(renameByCreateIndex, p.1.index, RenameOf(p));
      renameByCreateIndex := Set(renameByCreateIndex, p.1.index, RenameOf(p));
      NextPair(events, pairs, i);
    }
    assert pairs[..|pairs|] == pairs;
  }

  lemma NextPair(events: seq<WatchEvent>, pairs: seq<Pair>, i: nat)
    requires PairsOf(events, Elements(pairs)) && i < |pairs|
    ensures Elements(pairs[..i + 1]) == Elements(pairs[..i]) + {pairs[i]}
    ensures forall p :: p in Elements(pairs[..i]) && p.1.index == pairs[i].1.index ==> p == pairs[i]
    ensures forall k :: RenamedAt(Elements(pairs[..i + 1]), k) <==>
                        RenamedAt(Elements(pairs[..i]), k) || k == pairs[i].1.index
    ensures forall k :: ConsumedAt(Elements(pairs[..i + 1]), k) <==>
                        ConsumedAt(Elements(pairs[..i]), k) || k == pairs[i].0.index
  {
    assert pairs[..i + 1] == pairs[..i] + [pairs[i]];
    assert forall p :: p in pairs ==> p in Elements(pairs) && IsCreate(events, p.1);
    assert pairs[i] in pairs;
    OneMorePair(Elements(pairs[..i]), pairs[i]);
  }

  lemma OneMorePair(pairs: set<Pair>, p: Pair)
    ensures forall k :: RenamedAt(pairs + {p}, k) <==> RenamedAt(pairs, k) || k == p.1.index
    ensures forall k :: ConsumedAt(pairs + {p}, k) <==> ConsumedAt(pairs, k) || k == p.0.index
  {
    assert p in pairs + {p};
    assert forall q :: q in pairs ==> q in pairs + {p};
  }

  method ReconcileRenameEvents(events: seq<WatchEvent>) returns (reconciled: seq<WatchEvent>)
    ensures reconciled == Reconcile(events)
  {
    hide Pairing, Matching, AsMap;
    ghost var paired := Pairing(DeletesOf(events), CreatesOf(events));
    PairingMatches(DeletesOf(events), CreatesOf(events));
    NothingPaired(events, |events|);
    assert events[..|events|] == events;
    var deletes, creates := CollectCandidates(events);
    EmptySides(events, paired, deletes, creates);
    if |deletes| == 0 || |creates| == 0 {
      return events;
    }
    var pairs := PairRenameCandidates(deletes, creates);
    if |pairs| == 0 {
      assert paired == {};
      return events;
    }
    var renameByCreateIndex, consumedIndexes := RenamePairs(events, pairs);
    reconciled := [];
    for index := 0 to |events|
      invariant reconciled == Pieces(events, paired, index)
    {
      var renameEvent := Get(renameByCreateIndex, index);
      Lookup(renameByCreateIndex, index);
      PieceFromMaps(events, paired, AsMap(renameByCreateIndex), consumedIndexes, index);
      if renameEvent.Some? {
        reconciled := reconciled + [renameEvent.value];
        continue;
      }
      if index in consumedIndexes {
        continue;
      }
      reconciled := reconciled + [events[index]];
    }
  }

  lemma EmptySides(events: seq<WatchEvent>, pairs: set<Pair>, deletes: seq<Candidate>, creates: seq<Candidate>)
    requires PairsOf(events, pairs)
    requires Unused(deletes, {}) == DeletesOf(events) && Unused(creates, {}) == CreatesOf(events)
    ensures deletes == [] || creates == [] ==> pairs == {}
  {
    assert forall p :: p in pairs ==> p.0 in Unused(deletes, {}) && p.1 in Unused(creates, {});
    assert forall p :: p in pairs ==> p.0 in deletes && p.1 in creates;
  }

  lemma PieceFromMaps(events: seq<WatchEvent>, pairs: set<Pair>, renames: map<int, WatchEvent>, consumed: set<int>, i: nat)
    requires PairsOf(events, pairs) && i < |events| && RenamesByCreate(renames, pairs)
    requires forall k :: k in consumed <==> ConsumedAt(pairs, k) || RenamedAt(pairs, k)
    ensures Piece(events, pairs, i) ==
            if i in renames then [renames[i]] else if i in consumed then [] else [events[i]]
  {
  }
}
