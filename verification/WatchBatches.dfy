/** What listeners are told of a batch of changes (packages/workspace-fs/src/watch.ts): in which order, and that files
    moved or renamed together are reported as such. */
module WatchBatches {
  import Paths
  import W = WatchCoalescing
  import opened WatchRenames
  import opened WatchReconciliation
  import opened SearchIndexRefinement

  // ----- the order -----

  ghost predicate Rising(at: seq<nat>) {
    forall i, j :: 0 <= i < j < |at| ==> at[i] < at[j]
  }

  // The k-th event of a reconciled batch has the place of event i: it is that event, or the rename of a pair whose
  // create is event i.
  ghost predicate Stands(events: seq<WatchEvent>, pairs: set<Pair>, e: WatchEvent, i: nat) {
    || (i < |events| && e == events[i] && !RenamedAt(pairs, i) && !ConsumedAt(pairs, i))
    || exists p :: p in pairs && p.1.index == i && e == RenameOf(p)
  }

  // The events of `out`, in order, have the places `at`, which are all but those of paired deletes before n.
  ghost predicate Placed(events: seq<WatchEvent>, pairs: set<Pair>, out: seq<WatchEvent>, at: seq<nat>, n: nat) {
    && Rising(at) && |at| == |out|
    && (forall k :: 0 <= k < |at| ==> Stands(events, pairs, out[k], at[k]))
    && (forall i: nat :: i in at <==> i < n && !ConsumedAt(pairs, i))
  }

  lemma PlacedOn(events: seq<WatchEvent>, pairs: set<Pair>, out: seq<WatchEvent>, at: seq<nat>, n: nat, e: WatchEvent)
    requires Placed(events, pairs, out, at, n)
    ensures ConsumedAt(pairs, n) ==> Placed(events, pairs, out + [], at, n + 1)
    ensures !ConsumedAt(pairs, n) && Stands(events, pairs, e, n) ==> Placed(events, pairs, out + [e], at + [n], n + 1)
  {
    hide Stands, ConsumedAt;
    assert out + [] == out;
    assert forall k :: 0 <= k < |at| ==> at[k] in at;
  }

  lemma {:induction false} PiecesInOrder(events: seq<WatchEvent>, pairs: set<Pair>, n: nat) returns (at: seq<nat>)
    requires n <= |events| && PairsOf(events, pairs)
    ensures Placed(events, pairs, Pieces(events, pairs, n), at, n)
  {
    hide PairsOf, Placed, Stands, Piece;
    if n == 0 {
      at := [];
      assert Placed(events, pairs, [], [], 0) by { NothingPlaced(events, pairs); }
    } else {
      var front := PiecesInOrder(events, pairs, n - 1);
      var out, piece := Pieces(events, pairs, n - 1), Piece(events, pairs, n - 1);
      PieceStands(events, pairs, n - 1);
      PlacedOn(events, pairs, out, front, n - 1, if piece == [] then events[0] else piece[0]);
      assert piece != [] && |piece| == 1 ==> piece == [piece[0]];
      at := if ConsumedAt(pairs, n - 1) then front else front + [n - 1];
    }
  }

  lemma NothingPlaced(events: seq<WatchEvent>, pairs: set<Pair>)
    ensures Placed(events, pairs, [], [], 0)
  {
  }

  lemma PieceStands(events: seq<WatchEvent>, pairs: set<Pair>, i: nat)
    requires i < |events| && PairsOf(events, pairs)
    ensures if ConsumedAt(pairs, i) then Piece(events, pairs, i) == []
            else |Piece(events, pairs, i)| == 1 && Stands(events, pairs, Piece(events, pairs, i)[0], i)
  {
    if p :| p in pairs && p.0.index == i {
      PieceOfPair(events, pairs, p);
    } else if RenamedAt(pairs, i) {
      var p :| p in pairs && p.1.index == i;
      PieceOfPair(events, pairs, p);
    }
  }

  /** A reconciled batch has the order of the batch: a rename takes the place of its create, the delete of a pair is left
      out, and everything else stays where it is. */
  lemma ReconciledInOrder(events: seq<WatchEvent>) returns (at: seq<nat>)
    ensures var pairs := Pairing(DeletesOf(events), CreatesOf(events));
      && Rising(at) && |at| == |Reconcile(events)|
      && (forall k :: 0 <= k < |at| ==> Stands(events, pairs, Reconcile(events)[k], at[k]))
      && forall i: nat :: i in at <==> i < |events| && !ConsumedAt(pairs, i)
  {
    hide Pairing, Matching, Pieces, Stands, ConsumedAt;
    PairingMatches(DeletesOf(events), CreatesOf(events));
    at := PiecesInOrder(events, Pairing(DeletesOf(events), CreatesOf(events)), |events|);
  }

  // What the events of a reconciled batch are.
  lemma ReconciledMembers(events: seq<WatchEvent>, e: WatchEvent)
    ensures var pairs := Pairing(DeletesOf(events), CreatesOf(events));
      e in Reconcile(events) <==>
      || (exists i :: 0 <= i < |events| && e == events[i] && !RenamedAt(pairs, i) && !ConsumedAt(pairs, i))
      || (exists p :: p in pairs && e == RenameOf(p))
  {
    hide Pairing, Matching, Reconcile, Stands;
    var pairs := Pairing(DeletesOf(events), CreatesOf(events));
    var at := ReconciledInOrder(events);
    PairingMatches(DeletesOf(events), CreatesOf(events));
    if e in Reconcile(events) {
      var k :| 0 <= k < |at| && Reconcile(events)[k] == e;
      StandsMeans(events, pairs, e, at[k]);
    }
    if i :| 0 <= i < |events| && e == events[i] && !RenamedAt(pairs, i) && !ConsumedAt(pairs, i) {
      var k :| 0 <= k < |at| && at[k] == i;
      StandsMeans(events, pairs, Reconcile(events)[k], i);
    }
    if p :| p in pairs && e == RenameOf(p) {
      CreateIsNotDelete(events, pairs, p);
      var k :| 0 <= k < |at| && at[k] == p.1.index;
      StandsMeans(events, pairs, Reconcile(events)[k], p.1.index);
    }
  }

  lemma StandsMeans(events: seq<WatchEvent>, pairs: set<Pair>, e: WatchEvent, i: nat)
    requires Stands(events, pairs, e, i)
    ensures || (i < |events| && e == events[i] && !RenamedAt(pairs, i) && !ConsumedAt(pairs, i))
            || exists p :: p in pairs && p.1.index == i && e == RenameOf(p)
  {
  }

  lemma CreateIsNotDelete(events: seq<WatchEvent>, pairs: set<Pair>, p: Pair)
    requires PairsOf(events, pairs) && p in pairs
    ensures p.1.index < |events| && !ConsumedAt(pairs, p.1.index)
    ensures forall q :: q in pairs && q.1.index == p.1.index ==> q == p
  {
    assert IsCreate(events, p.1);
    assert forall q :: q in pairs ==> IsDelete(events, q.0) && IsCreate(events, q.1);
  }

  // ----- files that are moved together -----

  ghost predicate InDirectory(path: string, dir: seq<string>, name: string) {
    Paths.Canonical(dir + [name]) && path == Paths.Absolute(dir + [name])
  }

  // The delete and the create of something that is moved from directory a to directory b.
  ghost predicate Moves(d: WatchEvent, c: WatchEvent, a: seq<string>, b: seq<string>) {
    && d.Deleted? && c.Created? && d.isDirectory == c.isDirectory
    && exists x :: InDirectory(d.path, a, x) && InDirectory(c.path, b, x)
  }

  // A batch that moves things from a to b and does nothing else.
  ghost predicate MovesOnly(events: seq<WatchEvent>, a: seq<string>, b: seq<string>) {
    && (forall i, j :: 0 <= i < j < |events| ==> events[i].path != events[j].path)
    && (forall e :: e in events ==> e.Deleted? || e.Created?)
    && (forall d :: d in events && d.Deleted? ==> exists c :: c in events && Moves(d, c, a, b))
    && (forall c :: c in events && c.Created? ==> exists d :: d in events && Moves(d, c, a, b))
  }

  lemma MovedDelete(events: seq<WatchEvent>, a: seq<string>, b: seq<string>, i: nat)
    requires MovesOnly(events, a, b) && i < |events| && events[i].Deleted?
    ensures exists x :: InDirectory(events[i].path, a, x)
  {
    hide InDirectory;
    assert events[i] in events;
    var c :| c in events && Moves(events[i], c, a, b);
  }

  lemma MovedCreate(events: seq<WatchEvent>, a: seq<string>, b: seq<string>, i: nat)
    requires MovesOnly(events, a, b) && i < |events| && events[i].Created?
    ensures exists x :: InDirectory(events[i].path, b, x)
  {
    hide InDirectory;
    assert events[i] in events;
    var d :| d in events && Moves(d, events[i], a, b);
  }

  lemma MovedCandidates(events: seq<WatchEvent>, a: seq<string>, b: seq<string>)
    requires MovesOnly(events, a, b)
    ensures AllIn(DeletesOf(events), a) && AllIn(CreatesOf(events), b)
  {
    hide Paths.Canonical, Paths.Absolute;
    forall d | d in DeletesOf(events)
      ensures exists x :: Located(d, a, x)
    {
      MovedDelete(events, a, b, d.index);
      var x :| InDirectory(events[d.index].path, a, x);
      assert Located(d, a, x);
    }
    forall c | c in CreatesOf(events)
      ensures exists x :: Located(c, b, x)
    {
      MovedCreate(events, a, b, c.index);
      var x :| InDirectory(events[c.index].path, b, x);
      assert Located(c, b, x);
    }
    assert forall i, j :: 0 <= i < j < |events| ==> events[i].path != events[j].path;
    hide Moves, MovesOnly, Located;
  }

  lemma SameNameIff(events: seq<WatchEvent>, d: Candidate, c: Candidate, a: seq<string>, b: seq<string>)
    requires IsDelete(events, d) && IsCreate(events, c)
    ensures SameName(d, c, a, b) <==> Moves(events[d.index], events[c.index], a, b)
  {
    hide Paths.Canonical, Paths.Absolute;
    if x :| Located(d, a, x) && Located(c, b, x) {
      assert InDirectory(d.path, a, x) && InDirectory(c.path, b, x);
    }
    if x :| InDirectory(d.path, a, x) && InDirectory(c.path, b, x) {
      assert Located(d, a, x) && Located(c, b, x);
    }
  }

  lemma DeletesHavePartners(events: seq<WatchEvent>, a: seq<string>, b: seq<string>)
    requires MovesOnly(events, a, b)
    ensures forall d :: d in DeletesOf(events) ==> exists c :: c in CreatesOf(events) && SameName(d, c, a, b)
  {
    hide SameName, Moves;
    forall d | d in DeletesOf(events)
      ensures exists c :: c in CreatesOf(events) && SameName(d, c, a, b)
    {
      assert events[d.index] in events;
      var e :| e in events && Moves(events[d.index], e, a, b);
      var i :| 0 <= i < |events| && events[i] == e;
      assert e.Created? by { MovesKinds(events[d.index], e, a, b); }
      var c := CandidateAt(events, i);
      assert c in CreatesOf(events);
      SameNameIff(events, d, c, a, b);
    }
  }

  lemma CreatesHavePartners(events: seq<WatchEvent>, a: seq<string>, b: seq<string>)
    requires MovesOnly(events, a, b)
    ensures forall c :: c in CreatesOf(events) ==> exists d :: d in DeletesOf(events) && SameName(d, c, a, b)
  {
    hide SameName, Moves;
    forall c | c in CreatesOf(events)
      ensures exists d :: d in DeletesOf(events) && SameName(d, c, a, b)
    {
      assert events[c.index] in events;
      var e :| e in events && Moves(e, events[c.index], a, b);
      var i :| 0 <= i < |events| && events[i] == e;
      assert e.Deleted? by { MovesKinds(e, events[c.index], a, b); }
      var d := CandidateAt(events, i);
      assert d in DeletesOf(events);
      SameNameIff(events, d, c, a, b);
    }
  }

  lemma MovesKinds(d: WatchEvent, c: WatchEvent, a: seq<string>, b: seq<string>)
    requires Moves(d, c, a, b)
    ensures d.Deleted? && c.Created?
  {
  }

  lemma MovedPairing(events: seq<WatchEvent>, a: seq<string>, b: seq<string>)
    requires a != b && MovesOnly(events, a, b)
    ensures Pairing(DeletesOf(events), CreatesOf(events)) == NamedAlike(DeletesOf(events), CreatesOf(events), a, b)
  {
    hide SameName, Pairing, AllIn, DeletesOf, CreatesOf, NamedAlike;
    MovedCandidates(events, a, b);
    DeletesHavePartners(events, a, b);
    CreatesHavePartners(events, a, b);
    hide MovesOnly;
    MovedTogether(DeletesOf(events), CreatesOf(events), a, b);
  }

  // Everything in such a batch is in a pair.
  lemma AllMoved(events: seq<WatchEvent>, a: seq<string>, b: seq<string>, i: nat)
    requires MovesOnly(events, a, b) && i < |events|
    ensures var pairs := NamedAlike(DeletesOf(events), CreatesOf(events), a, b); RenamedAt(pairs, i) || ConsumedAt(pairs, i)
  {
    hide SameName, Moves;
    var pairs := NamedAlike(DeletesOf(events), CreatesOf(events), a, b);
    var x := CandidateAt(events, i);
    assert events[i] in events;
    if events[i].Deleted? {
      DeletesHavePartners(events, a, b);
      assert x in DeletesOf(events);
      var c :| c in CreatesOf(events) && SameName(x, c, a, b);
      assert (x, c) in pairs;
    } else {
      CreatesHavePartners(events, a, b);
      assert x in CreatesOf(events);
      var d :| d in DeletesOf(events) && SameName(d, x, a, b);
      assert (d, x) in pairs;
    }
  }

  /** Of a batch that moves things from one directory to another, listeners are told exactly the renames, each with the
      old and the new path of one of them. */
  lemma MovedBatch(events: seq<WatchEvent>, a: seq<string>, b: seq<string>, e: WatchEvent)
    requires a != b && MovesOnly(events, a, b)
    ensures e in Reconcile(events) <==>
            exists d, c :: d in events && c in events && Moves(d, c, a, b) && e == Renamed(d.path, c.path, c.isDirectory)
  {
    hide SameName, Moves, Pairing, Reconcile, MovesOnly, DeletesOf, CreatesOf, NamedAlike, RenamedAt, ConsumedAt;
    var ds, cs := DeletesOf(events), CreatesOf(events);
    MovedPairing(events, a, b);
    ReconciledMembers(events, e);
    assert !exists i :: 0 <= i < |events| && e == events[i] && !RenamedAt(Pairing(ds, cs), i) && !ConsumedAt(Pairing(ds, cs), i) by {
      forall i | 0 <= i < |events|
        ensures RenamedAt(Pairing(ds, cs), i) || ConsumedAt(Pairing(ds, cs), i)
      {
        AllMoved(events, a, b, i);
      }
    }
    if p :| p in Pairing(ds, cs) && e == RenameOf(p) {
      PairMoves(events, a, b, p);
    }
    if d, c :| d in events && c in events && Moves(d, c, a, b) && e == Renamed(d.path, c.path, c.isDirectory) {
      MovePairs(events, a, b, d, c);
    }
  }

  lemma PairMoves(events: seq<WatchEvent>, a: seq<string>, b: seq<string>, p: Pair)
    requires p in NamedAlike(DeletesOf(events), CreatesOf(events), a, b)
    ensures exists d, c :: d in events && c in events && Moves(d, c, a, b) && RenameOf(p) == Renamed(d.path, c.path, c.isDirectory)
  {
    hide Moves;
    SameNameIff(events, p.0, p.1, a, b);
    assert events[p.0.index] in events && events[p.1.index] in events;
  }

  lemma MovePairs(events: seq<WatchEvent>, a: seq<string>, b: seq<string>, d: WatchEvent, c: WatchEvent)
    requires d in events && c in events && Moves(d, c, a, b)
    ensures exists p :: p in NamedAlike(DeletesOf(events), CreatesOf(events), a, b)
              && RenameOf(p) == Renamed(d.path, c.path, c.isDirectory)
  {
    hide SameName;
    var i :| 0 <= i < |events| && events[i] == d;
    var j :| 0 <= j < |events| && events[j] == c;
    var x, y := CandidateAt(events, i), CandidateAt(events, j);
    SameNameIff(events, x, y, a, b);
    assert (x, y) in NamedAlike(DeletesOf(events), CreatesOf(events), a, b);
  }

  // ----- what becomes of raw events -----

  /** An update stays an update: listeners are told of one exactly if the coalesced batch has one, with the path in its
      normal form and with what `stat` said of it. */
  lemma UpdatesAreTold(batch: seq<W.RawEvent>, directories: set<string>, path: string, isDirectory: bool)
    ensures Updated(path, isDirectory) in Reduced(batch, directories) <==>
            && isDirectory == (path in directories)
            && exists k :: 0 <= k < |batch| && batch[k].kind == W.Update && path == Paths.NormalizeAbsolutePath(batch[k].path)
  {
    hide Pairing, Matching, Reconcile, Paths.NormalizeAbsolutePath;
    var events := Internals(batch, directories);
    var pairs := Pairing(DeletesOf(events), CreatesOf(events));
    ReconciledMembers(events, Updated(path, isDirectory));
    PairingMatches(DeletesOf(events), CreatesOf(events));
    PairsInside(events, pairs);
    assert forall i :: 0 <= i < |events| && events[i].Updated? ==> !RenamedAt(pairs, i) && !ConsumedAt(pairs, i);
    hide RenamedAt, ConsumedAt, DeletesOf, CreatesOf;
    assert forall p :: p in pairs ==> !RenameOf(p).Updated?;
    if k :| 0 <= k < |batch| && batch[k].kind == W.Update && path == Paths.NormalizeAbsolutePath(batch[k].path) {
      assert events[k] == Updated(path, path in directories);
    }
    if i :| 0 <= i < |events| && events[i] == Updated(path, isDirectory) {
      assert batch[i].kind == W.Update;
    }
  }

  lemma PairsInside(events: seq<WatchEvent>, pairs: set<Pair>)
    requires PairsOf(events, pairs)
    ensures forall p :: p in pairs ==> IsDelete(events, p.0) && IsCreate(events, p.1)
  {
  }
}
