/** The tracked ports and the events that report them (packages/port-scanner/src/port-manager.ts). A
    scan's process trees, listening ports and time are given. */
module PortManager {
  import opened Wrappers
  import opened JsMap
  import opened PortOrder

  const IGNORED_PORTS: set<nat> := {22, 80, 443}

  datatype DetectedPort = DetectedPort(port: nat, pid: int, processName: string, terminalId: string, workspaceId: string,
                                       detectedAt: int, address: string)

  datatype PortEvent = Added(p: DetectedPort) | Removed(p: DetectedPort)

  datatype Session = Session(workspaceId: string, pid: Option<int>)

  // A terminal's process tree as a scan found it; without processes when its shell is gone.
  datatype Tree = Tree(terminalId: string, workspaceId: string, pids: seq<int>)

  type Ports = Entries<string, DetectedPort>
  type PortMap = map<string, DetectedPort>

  function KeyOf(p: DetectedPort): string {
    MakeKey(p.terminalId, p.port)
  }

  ghost predicate Keyed(m: PortMap) {
    forall k :: k in m ==> KeyOf(m[k]) == k
  }

  // ----- replaying the events -----

  // The ports that a listener has after these events. A port is added only when it is not there, and
  // removed only as it is there.
  function Replay(events: seq<PortEvent>): Option<PortMap> {
    if events == [] then Some(map[])
    else
      var before, e := Replay(events[..|events| - 1]), events[|events| - 1];
      if before.None? then None
      else Receive(before.value, e)
  }

  function Receive(m: PortMap, e: PortEvent): Option<PortMap> {
    match e
    case Added(p) => if KeyOf(p) in m then None else Some(m[KeyOf(p) := p])
    case Removed(p) => if KeyOf(p) in m && m[KeyOf(p)] == p then Some(m - {KeyOf(p)}) else None
  }

  lemma ReplayNext(events: seq<PortEvent>, e: PortEvent)
    requires Replay(events).Some?
    ensures Replay(events + [e]) == Receive(Replay(events).value, e)
  {
    assert (events + [e])[..|events|] == events;
  }

  // The last event about key k, the i-th, added p.
  ghost predicate LastAbout(events: seq<PortEvent>, k: string, i: nat, p: DetectedPort) {
    && i < |events| && events[i] == Added(p) && KeyOf(p) == k
    && forall j :: i < j < |events| ==> KeyOf(events[j].p) != k
  }

  /** A port that is there was added as it is, and nothing has been said about it since; so what a
      removal carries is what was last added. */
  lemma {:induction false} PresentAsLastAdded(events: seq<PortEvent>, k: string)
    requires Replay(events).Some? && k in Replay(events).value
    ensures exists i :: LastAbout(events, k, i, Replay(events).value[k])
  {
    hide MakeKey;
    var n := |events| - 1;
    var e := events[n];
    if KeyOf(e.p) == k {
      assert LastAbout(events, k, n, Replay(events).value[k]);
    } else {
      PresentAsLastAdded(events[..n], k);
      var i :| LastAbout(events[..n], k, i, Replay(events[..n]).value[k]);
      assert LastAbout(events, k, i, Replay(events).value[k]);
    }
  }

  // ----- one terminal's ports -----

  ghost function Slice(m: PortMap, terminalId: string): PortMap {
    map k | k in m && m[k].terminalId == terminalId :: m[k]
  }

  function RecordFor(existing: Option<DetectedPort>, terminalId: string, workspaceId: string, info: PortInfo, now: int): DetectedPort {
    match existing
    case None => DetectedPort(info.port, info.pid, info.processName, terminalId, workspaceId, now, info.address)
    case Some(p) => p.(pid := info.pid, processName := info.processName, address := info.address)
  }

  ghost function RecordAt(m: PortMap, k: string): Option<DetectedPort> {
    if k in m then Some(m[k]) else None
  }

  ghost function Valid(infos: set<PortInfo>): (r: set<PortInfo>)
    ensures forall x :: x in r <==> x in infos && x.port != 22 && x.port != 80 && x.port != 443
  {
    set x | x in infos && x.port !in IGNORED_PORTS
  }

  // One record for each port that is not ignored: the least info there is about it.
  ghost predicate Refreshed(before: PortMap, after: PortMap, collation: Collation, terminalId: string, workspaceId: string,
                            infos: set<PortInfo>, now: int) {
    && (forall x :: IsLeast(collation, Valid(infos), x) ==>
          var k := MakeKey(terminalId, x.port);
          k in after && after[k] == RecordFor(RecordAt(before, k), terminalId, workspaceId, x, now))
    && (forall k :: k in after ==> exists x :: IsLeast(collation, Valid(infos), x) && k == MakeKey(terminalId, x.port))
  }

  /** So the infos alone decide what a terminal's ports are, whatever order a scan reports them in. */
  lemma RefreshedIsUnique(before: PortMap, one: PortMap, other: PortMap, collation: Collation, terminalId: string,
                          workspaceId: string, infos: set<PortInfo>, now: int)
    requires Refreshed(before, one, collation, terminalId, workspaceId, infos, now)
    requires Refreshed(before, other, collation, terminalId, workspaceId, infos, now)
    ensures one == other
  {
    hide MakeKey, RecordFor, IsLeast;
    forall k
      ensures k in one <==> k in other
      ensures k in one ==> one[k] == other[k]
    {
      if k in one {
        var x :| IsLeast(collation, Valid(infos), x) && k == MakeKey(terminalId, x.port);
        assert k in other && one[k] == other[k];
      }
      if k in other {
        var x :| IsLeast(collation, Valid(infos), x) && k == MakeKey(terminalId, x.port);
      }
    }
  }

  // The workspace and the time of a record are those of the scan that found the port first, whatever the
  // later scans say.
  lemma RefreshedKeepsDetection(before: PortMap, after: PortMap, collation: Collation, terminalId: string, workspaceId: string,
                                infos: set<PortInfo>, now: int)
    requires Refreshed(before, after, collation, terminalId, workspaceId, infos, now)
    ensures forall k :: k in after ==> after[k].workspaceId == (if k in before then before[k].workspaceId else workspaceId)
    ensures forall k :: k in after ==> after[k].detectedAt == (if k in before then before[k].detectedAt else now)
    ensures forall k :: k in after ==>
              (after[k].workspaceId == workspaceId <==> k !in before || before[k].workspaceId == workspaceId)
  {
    hide MakeKey, IsLeast;
  }

  lemma SameKey(m: PortMap, terminalId: string, port: nat)
    requires Keyed(m)
    ensures var k := MakeKey(terminalId, port); k in m ==> m[k].terminalId == terminalId && m[k].port == port
  {
    hide Digits;
    var k := MakeKey(terminalId, port);
    if k in m {
      KeysTellApart(terminalId, port, m[k].terminalId, m[k].port);
    }
  }

  // A record shows the least info of its port, whether or not the port was there before.
  ghost predicate Shows(p: DetectedPort, terminalId: string, x: PortInfo) {
    && p.terminalId == terminalId && p.port == x.port
    && p.pid == x.pid && p.processName == x.processName && p.address == x.address
  }

  lemma RefreshedShowsInfos(before: PortMap, after: PortMap, collation: Collation, terminalId: string, workspaceId: string,
                            infos: set<PortInfo>, now: int)
    requires Keyed(before) && Refreshed(before, after, collation, terminalId, workspaceId, infos, now)
    ensures forall x :: IsLeast(collation, Valid(infos), x) ==>
              MakeKey(terminalId, x.port) in after && Shows(after[MakeKey(terminalId, x.port)], terminalId, x)
  {
    hide MakeKey, IsLeast, Keyed;
    forall x | IsLeast(collation, Valid(infos), x)
      ensures MakeKey(terminalId, x.port) in after && Shows(after[MakeKey(terminalId, x.port)], terminalId, x)
    {
      SameKey(before, terminalId, x.port);
    }
  }

  // What the updates for some infos have done so far.
  ghost predicate Partly(before: PortMap, now_: PortMap, terminalId: string, workspaceId: string, done: seq<PortInfo>, now: int) {
    && (forall x :: x in done ==>
          var k := MakeKey(terminalId, x.port);
          k in now_ && now_[k] == RecordFor(RecordAt(before, k), terminalId, workspaceId, x, now))
    && (forall k :: k !in KeysOf(terminalId, done) ==> RecordAt(now_, k) == RecordAt(before, k))
  }

  function KeysOf(terminalId: string, infos: seq<PortInfo>): set<string> {
    set x | x in infos :: MakeKey(terminalId, x.port)
  }

  lemma NothingDone(m: PortMap, terminalId: string, workspaceId: string, now: int)
    ensures Partly(m, m, terminalId, workspaceId, [], now) && KeysOf(terminalId, []) == {}
  {
  }

  lemma PartlyNext(before: PortMap, m: PortMap, terminalId: string, workspaceId: string, done: seq<PortInfo>, info: PortInfo, now: int)
    requires Partly(before, m, terminalId, workspaceId, done, now) && forall x :: x in done ==> x.port != info.port
    ensures var key := MakeKey(terminalId, info.port);
      && KeysOf(terminalId, done + [info]) == KeysOf(terminalId, done) + {key}
      && Partly(before, m[key := RecordFor(RecordAt(m, key), terminalId, workspaceId, info, now)],
                terminalId, workspaceId, done + [info], now)
  {
    hide MakeKey, RecordFor;
    var key := MakeKey(terminalId, info.port);
    assert forall x :: x in done + [info] <==> x in done || x == info;
    assert KeysOf(terminalId, done + [info]) == KeysOf(terminalId, done) + {key};
    forall x | x in done
      ensures MakeKey(terminalId, x.port) != key
    {
      KeysTellApart(terminalId, x.port, terminalId, info.port);
    }
    assert key !in KeysOf(terminalId, done);
  }

  lemma AllDone(before: PortMap, middle: PortMap, after: PortMap, collation: Collation, terminalId: string, workspaceId: string,
                infos: set<PortInfo>, done: seq<PortInfo>, now: int)
    requires Keyed(before) && Keyed(middle) && OnePerPort(collation, Valid(infos), done)
    requires Partly(before, middle, terminalId, workspaceId, done, now)
    requires after == map k | k in middle && !(middle[k].terminalId == terminalId && k !in KeysOf(terminalId, done)) :: middle[k]
    ensures forall t :: t != terminalId ==> Slice(after, t) == Slice(before, t)
    ensures Refreshed(Slice(before, terminalId), Slice(after, terminalId), collation, terminalId, workspaceId, infos, now)
  {
    hide MakeKey, RecordFor, IsLeast, Keyed, Rising;
    forall x | x in done
      ensures var k := MakeKey(terminalId, x.port);
        k in Slice(after, terminalId) && RecordAt(Slice(before, terminalId), k) == RecordAt(before, k)
    {
      SameKey(before, terminalId, x.port);
      SameKey(middle, terminalId, x.port);
    }
    forall t | t != terminalId
      ensures Slice(after, t) == Slice(before, t)
    {
      forall k
        ensures k in Slice(after, t) <==> k in Slice(before, t)
        ensures k in Slice(after, t) ==> after[k] == before[k]
      {
        if k in KeysOf(terminalId, done) {
          var x :| x in done && k == MakeKey(terminalId, x.port);
          SameKey(before, terminalId, x.port);
          SameKey(middle, terminalId, x.port);
        } else {
          assert RecordAt(middle, k) == RecordAt(before, k);
        }
      }
    }
  }

  // ----- scans -----

  // The first tree that a process belongs to.
  function OwnerOf(trees: seq<Tree>, pid: int): Option<string> {
    if trees == [] then None
    else
      var owner := OwnerOf(trees[..|trees| - 1], pid);
      if owner.Some? then owner
      else if pid in trees[|trees| - 1].pids then Some(trees[|trees| - 1].terminalId)
      else None
  }

  // The first tree that has the process.
  ghost predicate FirstWith(trees: seq<Tree>, pid: int, i: int) {
    0 <= i < |trees| && pid in trees[i].pids && forall j :: 0 <= j < i ==> pid !in trees[j].pids
  }

  /** A process belongs to the first tree that has it, and to none if no tree has it. */
  lemma {:induction false} FirstOwner(trees: seq<Tree>, pid: int)
    ensures forall i :: FirstWith(trees, pid, i) ==> OwnerOf(trees, pid) == Some(trees[i].terminalId)
    ensures OwnerOf(trees, pid).None? <==> forall i :: 0 <= i < |trees| ==> pid !in trees[i].pids
  {
    if trees == [] {
    } else {
      var n := |trees| - 1;
      FirstOwner(trees[..n], pid);
      assert trees == trees[..n] + [trees[n]];
      forall i | FirstWith(trees, pid, i)
        ensures OwnerOf(trees, pid) == Some(trees[i].terminalId)
      {
        assert i < n ==> FirstWith(trees[..n], pid, i);
      }
    }
  }

  ghost function OwnedBy(trees: seq<Tree>, listening: seq<PortInfo>, terminalId: string): set<PortInfo> {
    set x | x in listening && OwnerOf(trees, x.pid) == Some(terminalId)
  }

  ghost predicate DistinctTerminals(trees: seq<Tree>) {
    forall i, j :: 0 <= i < j < |trees| ==> trees[i].terminalId != trees[j].terminalId
  }

  method BuildPidOwnerMap(trees: seq<Tree>) returns (owners: Entries<int, string>)
    ensures forall pid :: Get(owners, pid) == OwnerOf(trees, pid)
  {
    hide AsMap, Get, Has, Set;
    owners := [];
    forall pid: int
      ensures Get<int, string>([], pid) == None
    {
      Lookup<int, string>([], pid);
      NoEntries<int, string>();
    }
    for i := 0 to |trees|
      invariant forall pid :: Get(owners, pid) == OwnerOf(trees[..i], pid)
    {
      assert trees[..i + 1][..i] == trees[..i];
      var pids := trees[i].pids;
      for j := 0 to |pids|
        invariant forall pid :: Get(owners, pid) ==
                    if OwnerOf(trees[..i], pid).Some? then OwnerOf(trees[..i], pid)
                    else if pid in pids[..j] then Some(trees[i].terminalId) else None
      {
        assert pids[..j + 1] == pids[..j] + [pids[j]];
        if !Has(owners, pids[j]) {
          SetLookup(owners, pids[j], trees[i].terminalId);
          owners := Set(owners, pids[j], trees[i].terminalId);
        } else {
          Lookup(owners, pids[j]);
        }
      }
      assert pids[..|pids|] == pids;
    }
    assert trees[..|trees|] == trees;
  }

  ghost function ListedFor(ports: Entries<string, seq<PortInfo>>, t: string): set<PortInfo> {
    var listed := Get(ports, t);
    if listed.Some? then Elements(listed.value) else {}
  }

  method BuildPortsByTerminal(trees: seq<Tree>, listening: seq<PortInfo>) returns (ports: Entries<string, seq<PortInfo>>)
    ensures forall t :: ListedFor(ports, t) == OwnedBy(trees, listening, t)
  {
    hide Get, Set, OwnerOf;
    var owners := BuildPidOwnerMap(trees);
    ports := [];
    NothingListed(trees);
    assert listening[..0] == [];
    for i := 0 to |listening|
      invariant forall t :: ListedFor(ports, t) == OwnedBy(trees, listening[..i], t)
    {
      var info := listening[i];
      var owner := Get(owners, info.pid);
      OwnedNext(trees, listening, i);
      if owner.None? {
        continue;
      }
      var existing := Get(ports, owner.value);
      var listed := if existing.Some? then existing.value + [info] else [info];
      SetLookup(ports, owner.value, listed);
      ListedNext(existing, info);
      ports := Set(ports, owner.value, listed);
    }
    assert listening[..|listening|] == listening;
  }

  lemma NothingListed(trees: seq<Tree>)
    ensures forall t :: ListedFor([], t) == OwnedBy(trees, [], t)
  {
  }

  lemma ListedNext(existing: Option<seq<PortInfo>>, info: PortInfo)
    ensures Elements(if existing.Some? then existing.value + [info] else [info]) ==
            (if existing.Some? then Elements(existing.value) else {}) + {info}
  {
  }

  lemma OwnedNext(trees: seq<Tree>, listening: seq<PortInfo>, i: nat)
    requires i < |listening|
    ensures forall t :: OwnedBy(trees, listening[..i + 1], t) ==
                        (if OwnerOf(trees, listening[i].pid) == Some(t) then OwnedBy(trees, listening[..i], t) + {listening[i]}
                         else OwnedBy(trees, listening[..i], t))
  {
    hide OwnerOf;
    assert listening[..i + 1] == listening[..i] + [listening[i]];
  }

  ghost function TreeOf(trees: seq<Tree>, terminalId: string): Option<Tree> {
    if trees == [] then None
    else if trees[|trees| - 1].terminalId == terminalId then Some(trees[|trees| - 1])
    else TreeOf(trees[..|trees| - 1], terminalId)
  }

  // What a finished scan leaves of a terminal's ports: nothing of an unregistered terminal or of one
  // whose tree is empty, one record for each port of a tree with processes, the rest as it was.
  ghost predicate ScannedAs(before: PortMap, after: PortMap, collation: Collation, sessions: Entries<string, Session>,
                            trees: seq<Tree>, listening: seq<PortInfo>, terminalId: string, now: int) {
    var tree := TreeOf(trees, terminalId);
    if !Has(sessions, terminalId) || (tree.Some? && tree.value.pids == []) then Slice(after, terminalId) == map[]
    else if tree.Some? then
      Refreshed(Slice(before, terminalId), Slice(after, terminalId), collation, terminalId, tree.value.workspaceId,
                OwnedBy(trees, listening, terminalId), now)
    else Slice(after, terminalId) == Slice(before, terminalId)
  }

  // The same after the updates only, before empty trees are cleared.
  ghost predicate UpdatedAs(before: PortMap, after: PortMap, collation: Collation, all: seq<Tree>, done: seq<Tree>,
                            listening: seq<PortInfo>, terminalId: string, now: int) {
    var tree := TreeOf(done, terminalId);
    if tree.Some? && tree.value.pids != [] then
      Refreshed(Slice(before, terminalId), Slice(after, terminalId), collation, terminalId, tree.value.workspaceId,
                OwnedBy(all, listening, terminalId), now)
    else Slice(after, terminalId) == Slice(before, terminalId)
  }

  ghost predicate AllUpdated(before: PortMap, after: PortMap, collation: Collation, all: seq<Tree>, done: seq<Tree>,
                             listening: seq<PortInfo>, now: int) {
    forall t :: UpdatedAs(before, after, collation, all, done, listening, t, now)
  }

  lemma NothingUpdated(m: PortMap, collation: Collation, all: seq<Tree>, listening: seq<PortInfo>, now: int)
    ensures AllUpdated(m, m, collation, all, [], listening, now)
  {
  }

  lemma AllScanned(before: PortMap, updated: PortMap, cleared: PortMap, after: PortMap, collation: Collation,
                   sessions: Entries<string, Session>, trees: seq<Tree>, listening: seq<PortInfo>, now: int)
    requires AllUpdated(before, updated, collation, trees, trees, listening, now)
    requires forall t :: Slice(cleared, t) ==
               (if TreeOf(trees, t).Some? && TreeOf(trees, t).value.pids == [] then map[] else Slice(updated, t))
    requires forall t :: Slice(after, t) == if Has(sessions, t) then Slice(cleared, t) else map[]
    ensures forall t :: ScannedAs(before, after, collation, sessions, trees, listening, t, now)
  {
    hide Slice, Refreshed, OwnedBy, TreeOf, Has;
    forall t
      ensures ScannedAs(before, after, collation, sessions, trees, listening, t, now)
    {
      assert UpdatedAs(before, updated, collation, trees, trees, listening, t, now);
    }
  }

  lemma UpdatedNext(before: PortMap, m: PortMap, m': PortMap, collation: Collation, trees: seq<Tree>, i: nat,
                    listening: seq<PortInfo>, now: int)
    requires DistinctTerminals(trees) && i < |trees|
    requires AllUpdated(before, m, collation, trees, trees[..i], listening, now)
    requires var tree := trees[i];
      if tree.pids == [] then m' == m
      else
        && (forall t :: t != tree.terminalId ==> Slice(m', t) == Slice(m, t))
        && Refreshed(Slice(m, tree.terminalId), Slice(m', tree.terminalId), collation, tree.terminalId, tree.workspaceId,
                     OwnedBy(trees, listening, tree.terminalId), now)
    ensures AllUpdated(before, m', collation, trees, trees[..i + 1], listening, now)
  {
    hide Slice, Refreshed, OwnedBy, TreeOf, DistinctTerminals;
    TreesNext(trees, i);
    var done := trees[..i + 1];
    forall t
      ensures UpdatedAs(before, m', collation, trees, done, listening, t, now)
    {
      assert UpdatedAs(before, m, collation, trees, trees[..i], listening, t, now);
    }
  }

  lemma TreesNext(trees: seq<Tree>, i: nat)
    requires DistinctTerminals(trees) && i < |trees|
    ensures TreeOf(trees[..i], trees[i].terminalId).None?
    ensures forall t :: TreeOf(trees[..i + 1], t) == if t == trees[i].terminalId then Some(trees[i]) else TreeOf(trees[..i], t)
  {
    assert trees[..i + 1][..i] == trees[..i];
    NoTreeFor(trees[..i], trees[i].terminalId);
  }

  lemma {:induction false} NoTreeFor(trees: seq<Tree>, terminalId: string)
    requires forall i :: 0 <= i < |trees| ==> trees[i].terminalId != terminalId
    ensures TreeOf(trees, terminalId) == None
  {
    if trees == [] {
    } else {
      NoTreeFor(trees[..|trees| - 1], terminalId);
    }
  }

  /** Moving a terminal to another workspace leaves its ports behind: a port that a scan leaves has the
      workspace that the scan found its terminal in if and only if it was not there before the scan, or
      had that workspace already. */
  lemma ScanKeepsWorkspaceIff(before: PortMap, after: PortMap, collation: Collation, sessions: Entries<string, Session>,
                              trees: seq<Tree>, listening: seq<PortInfo>, terminalId: string, now: int, k: string)
    requires ScannedAs(before, after, collation, sessions, trees, listening, terminalId, now)
    requires k in after && after[k].terminalId == terminalId && TreeOf(trees, terminalId).Some?
    ensures var w, was := TreeOf(trees, terminalId).value.workspaceId, Slice(before, terminalId);
      && (after[k].workspaceId == w <==> k !in was || was[k].workspaceId == w)
      && after[k].detectedAt == if k in was then was[k].detectedAt else now
  {
    hide Refreshed, OwnedBy, TreeOf, Has;
    var tree := TreeOf(trees, terminalId).value;
    assert k in Slice(after, terminalId);
    RefreshedKeepsDetection(Slice(before, terminalId), Slice(after, terminalId), collation, terminalId, tree.workspaceId,
                            OwnedBy(trees, listening, terminalId), now);
  }

  // What asking to kill a tracked port comes to.
  datatype KillAnswer = NotTracked | OtherWorkspace | OwnShell | Killing(pid: int)

  function AnswerTo(ports: PortMap, shell: Option<int>, terminalId: string, workspaceId: string, port: nat): KillAnswer {
    var key := MakeKey(terminalId, port);
    if key !in ports then NotTracked
    else if ports[key].workspaceId != workspaceId then OtherWorkspace
    else if shell == Some(ports[key].pid) then OwnShell
    else Killing(ports[key].pid)
  }

  function ShellOf(sessions: map<string, Session>, terminalId: string): Option<int> {
    if terminalId in sessions then sessions[terminalId].pid else None
  }

  /** After a scan the workspace that the terminal is in now is refused a port of its own exactly when an
      earlier scan had found the port while the terminal was in another one. */
  lemma KillRefusedIff(before: PortMap, after: PortMap, collation: Collation, sessions: Entries<string, Session>,
                       trees: seq<Tree>, listening: seq<PortInfo>, terminalId: string, port: nat, shell: Option<int>, now: int)
    requires Keyed(before) && Keyed(after) && MakeKey(terminalId, port) in after && TreeOf(trees, terminalId).Some?
    requires ScannedAs(before, after, collation, sessions, trees, listening, terminalId, now)
    ensures var w, k := TreeOf(trees, terminalId).value.workspaceId, MakeKey(terminalId, port);
      AnswerTo(after, shell, terminalId, w, port) == OtherWorkspace <==> k in before && before[k].workspaceId != w
  {
    hide ScannedAs, TreeOf, MakeKey, Keyed;
    SameKey(before, terminalId, port);
    SameKey(after, terminalId, port);
    ScanKeepsWorkspaceIff(before, after, collation, sessions, trees, listening, terminalId, now, MakeKey(terminalId, port));
  }

  /** A scan shows the present process of every port of a terminal's tree, so that whoever may kill the port, its
      record's workspace, reaches that process and no earlier one; but not if it is the shell. */
  lemma KillReachesProcess(before: PortMap, after: PortMap, collation: Collation, sessions: Entries<string, Session>,
                           trees: seq<Tree>, listening: seq<PortInfo>, terminalId: string, x: PortInfo, shell: Option<int>, now: int)
    requires Keyed(before) && Has(sessions, terminalId)
    requires TreeOf(trees, terminalId).Some? && TreeOf(trees, terminalId).value.pids != []
    requires ScannedAs(before, after, collation, sessions, trees, listening, terminalId, now)
    requires IsLeast(collation, Valid(OwnedBy(trees, listening, terminalId)), x)
    ensures var k := MakeKey(terminalId, x.port);
      && k in after && Shows(after[k], terminalId, x)
      && AnswerTo(after, shell, terminalId, after[k].workspaceId, x.port) ==
         if shell == Some(x.pid) then OwnShell else Killing(x.pid)
  {
    hide TreeOf, OwnedBy, MakeKey, IsLeast, Has, Refreshed;
    RefreshedShowsInfos(Slice(before, terminalId), Slice(after, terminalId), collation, terminalId,
                        TreeOf(trees, terminalId).value.workspaceId, OwnedBy(trees, listening, terminalId), now);
    assert MakeKey(terminalId, x.port) in Slice(after, terminalId);
  }

  method FilterValid(portInfos: seq<PortInfo>) returns (valid: seq<PortInfo>)
    ensures Elements(valid) == Valid(Elements(portInfos))
  {
    valid := [];
    assert portInfos[..0] == [];
    for i := 0 to |portInfos|
      invariant Elements(valid) == Valid(Elements(portInfos[..i]))
    {
      assert portInfos[..i + 1] == portInfos[..i] + [portInfos[i]];
      assert Elements(portInfos[..i + 1]) == Elements(portInfos[..i]) + {portInfos[i]};
      if portInfos[i].port !in IGNORED_PORTS {
        assert Elements(valid + [portInfos[i]]) == Elements(valid) + {portInfos[i]};
        valid := valid + [portInfos[i]];
      }
    }
    assert portInfos[..|portInfos|] == portInfos;
  }

  // Whether some entry of key k is gone is whether the one that the map has is.
  lemma EachOnce(entries: Ports, gone: (string, DetectedPort) -> bool)
    requires Distinct(entries)
    ensures forall k :: k in AsMap(entries) ==>
              (gone(k, AsMap(entries)[k]) <==> exists j :: 0 <= j < |entries| && entries[j].0 == k && gone(k, entries[j].1))
  {
    hide AsMap, Distinct, Has;
    forall k | k in AsMap(entries)
      ensures gone(k, AsMap(entries)[k]) <==> exists j :: 0 <= j < |entries| && entries[j].0 == k && gone(k, entries[j].1)
    {
      Lookup(entries, k);
      var i := Position(entries, k);
      JsMap.At(entries, i);
      forall j | 0 <= j < |entries| && entries[j].0 == k
        ensures entries[j].1 == AsMap(entries)[k]
      {
        JsMap.At(entries, j);
      }
    }
  }

  class PortManager {
    const collation: Collation
    var ports: Ports
    var sessions: Entries<string, Session>
    var emitted: seq<PortEvent>

    // The events emitted so far replay to the tracked ports.
    ghost predicate Consistent()
      reads this
    {
      && TellsApart(collation) && Distinct(ports) && Distinct(sessions)
      && Keyed(AsMap(ports)) && Replay(emitted) == Some(AsMap(ports))
    }

    constructor (collation: Collation)
      requires TellsApart(collation)
      ensures Consistent() && ports == [] && sessions == [] && emitted == [] && this.collation == collation
    {
      this.collation := collation;
      ports, sessions, emitted := [], [], [];
    }

    method UpsertSession(terminalId: string, workspaceId: string, pid: Option<int>)
      requires Consistent()
      modifies this`sessions
      ensures Consistent()
      ensures AsMap(sessions) == old(AsMap(sessions))[terminalId := Session(workspaceId, pid)]
    {
      Setting(sessions, terminalId, Session(workspaceId, pid));
      sessions := Set(sessions, terminalId, Session(workspaceId, pid));
    }

    method AddPort(key: string, p: DetectedPort)
      requires Consistent() && key == KeyOf(p) && key !in AsMap(ports)
      modifies this`ports, this`emitted
      ensures Consistent() && AsMap(ports) == old(AsMap(ports))[key := p]
      ensures emitted == old(emitted) + [Added(p)]
    {
      hide Replay, AsMap, Distinct, MakeKey;
      Setting(ports, key, p);
      ReplayNext(emitted, Added(p));
      ports := Set(ports, key, p);
      emitted := emitted + [Added(p)];
    }

    method RemovePort(key: string, p: DetectedPort)
      requires Consistent() && key in AsMap(ports) && AsMap(ports)[key] == p
      modifies this`ports, this`emitted
      ensures Consistent() && AsMap(ports) == old(AsMap(ports)) - {key}
      ensures emitted == old(emitted) + [Removed(p)]
    {
      hide Replay, AsMap, Distinct, MakeKey;
      Deleting(ports, key);
      ReplayNext(emitted, Removed(p));
      ports := Delete(ports, key);
      emitted := emitted + [Removed(p)];
    }

    method ReplacePort(key: string, existing: DetectedPort, updated: DetectedPort)
      requires Consistent() && key == KeyOf(updated) && key in AsMap(ports) && AsMap(ports)[key] == existing
      modifies this`ports, this`emitted
      ensures Consistent() && AsMap(ports) == old(AsMap(ports))[key := updated]
      ensures emitted == old(emitted) + [Removed(existing), Added(updated)]
    {
      hide Replay, AsMap, Distinct, MakeKey;
      Setting(ports, key, updated);
      ReplayNext(emitted, Removed(existing));
      ReplayNext(emitted + [Removed(existing)], Added(updated));
      assert (emitted + [Removed(existing)]) + [Added(updated)] == emitted + [Removed(existing), Added(updated)];
      assert (AsMap(ports) - {key})[key := updated] == AsMap(ports)[key := updated];
      ports := Set(ports, key, updated);
      emitted := emitted + [Removed(existing)];
      emitted := emitted + [Added(updated)];
    }

    // Removes the ports that are `gone`, in order.
    method RemoveEach(gone: (string, DetectedPort) -> bool)
      requires Consistent()
      modifies this`ports, this`emitted
      ensures old(emitted) <= emitted
      ensures Consistent()
      ensures AsMap(ports) == map k | k in old(AsMap(ports)) && !gone(k, old(AsMap(ports))[k]) :: old(AsMap(ports))[k]
    {
      hide Replay, AsMap, Distinct, Keyed, Consistent;
      ghost var was := ports;
      var entries := ports;
      assert Distinct(entries) by { ConsistentParts(); }
      for i := 0 to |entries|
        invariant Consistent() && old(emitted) <= emitted
        invariant forall k :: k in AsMap(ports) <==>
                    k in AsMap(was) && forall j :: 0 <= j < i && entries[j].0 == k ==> !gone(k, entries[j].1)
        invariant forall k :: k in AsMap(ports) ==> AsMap(ports)[k] == AsMap(was)[k]
      {
        var (key, port) := entries[i];
        JsMap.At(entries, i);
        if gone(key, port) {
          forall j | 0 <= j < i
            ensures entries[j].0 != key
          {
            DistinctKeys(entries, j, i);
          }
          RemovePort(key, port);
        }
      }
      EachOnce(entries, gone);
    }

    lemma ConsistentParts()
      requires Consistent()
      ensures TellsApart(collation) && Distinct(ports) && Distinct(sessions) && Keyed(AsMap(ports))
      ensures Replay(emitted) == Some(AsMap(ports))
    {
    }

    method RemovePortsForTerminal(terminalId: string)
      requires Consistent()
      modifies this`ports, this`emitted
      ensures old(emitted) <= emitted
      ensures Consistent()
      ensures forall t :: Slice(AsMap(ports), t) == if t == terminalId then map[] else Slice(old(AsMap(ports)), t)
    {
      hide AsMap, Consistent;
      RemoveEach((key, port: DetectedPort) => port.terminalId == terminalId);
    }

    method UnregisterSession(terminalId: string)
      requires Consistent()
      modifies this`sessions, this`ports, this`emitted
      ensures old(emitted) <= emitted
      ensures Consistent() && AsMap(sessions) == old(AsMap(sessions)) - {terminalId}
      ensures forall t :: Slice(AsMap(ports), t) == if t == terminalId then map[] else Slice(old(AsMap(ports)), t)
    {
      hide AsMap, Distinct, Replay, Keyed;
      Deleting(sessions, terminalId);
      sessions := Delete(sessions, terminalId);
      RemovePortsForTerminal(terminalId);
    }

    method CleanupUnregisteredPorts()
      requires Consistent()
      modifies this`ports, this`emitted
      ensures old(emitted) <= emitted
      ensures Consistent()
      ensures forall t :: Slice(AsMap(ports), t) == if Has(sessions, t) then Slice(old(AsMap(ports)), t) else map[]
    {
      hide AsMap, Consistent, Has;
      var registered := sessions;
      RemoveEach((key, port: DetectedPort) => !Has(registered, port.terminalId));
    }

    // One step of an update: adds the port, replaces its record, or leaves it.
    method UpdatePort(terminalId: string, workspaceId: string, info: PortInfo, now: int)
      requires Consistent()
      modifies this`ports, this`emitted
      ensures old(emitted) <= emitted
      ensures Consistent()
      ensures var key, was := MakeKey(terminalId, info.port), old(AsMap(ports));
        AsMap(ports) == was[key := RecordFor(RecordAt(was, key), terminalId, workspaceId, info, now)]
    {
      hide AsMap, MakeKey, Replay;
      var key := MakeKey(terminalId, info.port);
      var existing := Get(ports, key);
      Lookup(ports, key);
      SameKey(AsMap(ports), terminalId, info.port);
      if existing.None? {
        AddPort(key, DetectedPort(info.port, info.pid, info.processName, terminalId, workspaceId, now, info.address));
      } else if existing.value.pid != info.pid || existing.value.processName != info.processName
                || existing.value.address != info.address {
        ReplacePort(key, existing.value,
          existing.value.(pid := info.pid, processName := info.processName, address := info.address));
      }
    }

    method UpdatePortsForTerminal(terminalId: string, workspaceId: string, portInfos: seq<PortInfo>, now: int)
      requires Consistent()
      modifies this`ports, this`emitted
      ensures old(emitted) <= emitted
      ensures Consistent()
      ensures forall t :: t != terminalId ==> Slice(AsMap(ports), t) == Slice(old(AsMap(ports)), t)
      ensures Refreshed(Slice(old(AsMap(ports)), terminalId), Slice(AsMap(ports), terminalId), collation, terminalId, workspaceId,
                        Elements(portInfos), now)
    {
      hide AsMap, Consistent, MakeKey, RecordFor, IsLeast, Partly, KeysOf;
      ghost var before := AsMap(ports);
      ConsistentParts();
      var validPortInfos := FilterValid(portInfos);
      var deduped := DedupePortInfosByPort(collation, validPortInfos);
      var seenKeys := {};
      NothingDone(before, terminalId, workspaceId, now);
      for i := 0 to |deduped|
        invariant Consistent() && old(emitted) <= emitted && seenKeys == KeysOf(terminalId, deduped[..i])
        invariant Partly(before, AsMap(ports), terminalId, workspaceId, deduped[..i], now)
      {
        var info := deduped[i];
        assert deduped[..i + 1] == deduped[..i] + [info];
        assert forall x :: x in deduped[..i] ==> x.port != info.port;
        PartlyNext(before, AsMap(ports), terminalId, workspaceId, deduped[..i], info, now);
        seenKeys := seenKeys + {MakeKey(terminalId, info.port)};
        UpdatePort(terminalId, workspaceId, info, now);
      }
      assert deduped[..|deduped|] == deduped;
      ConsistentParts();
      ghost var middle := AsMap(ports);
      RemoveEach((key, port: DetectedPort) => port.terminalId == terminalId && key !in seenKeys);
      AllDone(before, middle, AsMap(ports), collation, terminalId, workspaceId, Elements(portInfos), deduped, now);
    }

    // The synchronous end of a scan: the updates for the trees it found, in the order they were found,
    // the removals for the empty ones, and the clean-up.
    method FinishScan(trees: seq<Tree>, listening: seq<PortInfo>, now: int)
      requires Consistent() && DistinctTerminals(trees)
      modifies this`ports, this`emitted
      ensures old(emitted) <= emitted
      ensures Consistent()
      ensures forall t :: ScannedAs(old(AsMap(ports)), AsMap(ports), collation, sessions, trees, listening, t, now)
    {
      hide AsMap, Consistent, Has, Refreshed, Slice, OwnedBy, AllUpdated, ScannedAs;
      var portsByTerminal := BuildPortsByTerminal(trees, listening);
      ghost var before := AsMap(ports);
      assert trees[..0] == [];
      NothingUpdated(before, collation, trees, listening, now);
      for i := 0 to |trees|
        invariant Consistent() && old(emitted) <= emitted
        invariant AllUpdated(before, AsMap(ports), collation, trees, trees[..i], listening, now)
      {
        ghost var m := AsMap(ports);
        var tree := trees[i];
        if tree.pids != [] {
          var listed := Get(portsByTerminal, tree.terminalId);
          assert ListedFor(portsByTerminal, tree.terminalId) == OwnedBy(trees, listening, tree.terminalId);
          assert Elements([]) == {};
          UpdatePortsForTerminal(tree.terminalId, tree.workspaceId, if listed.Some? then listed.value else [], now);
        }
        UpdatedNext(before, m, AsMap(ports), collation, trees, i, listening, now);
      }
      assert trees[..|trees|] == trees;
      ghost var updated := AsMap(ports);
      for i := 0 to |trees|
        invariant Consistent() && old(emitted) <= emitted
        invariant forall t :: Slice(AsMap(ports), t) ==
                    (if TreeOf(trees[..i], t).Some? && TreeOf(trees[..i], t).value.pids == [] then map[] else Slice(updated, t))
      {
        TreesNext(trees, i);
        if trees[i].pids == [] {
          RemovePortsForTerminal(trees[i].terminalId);
        }
      }
      ghost var cleared := AsMap(ports);
      CleanupUnregisteredPorts();
      AllScanned(before, updated, cleared, AsMap(ports), collation, sessions, trees, listening, now);
    }

    method KillPort(terminalId: string, workspaceId: string, port: nat) returns (answer: KillAnswer)
      requires Consistent()
      ensures answer == AnswerTo(AsMap(ports), ShellOf(AsMap(sessions), terminalId), terminalId, workspaceId, port)
      ensures answer.Killing? ==> ShellOf(AsMap(sessions), terminalId) != Some(answer.pid)
    {
      hide AsMap, Get, Has, MakeKey, Replay, Distinct;
      var key := MakeKey(terminalId, port);
      Lookup(ports, key);
      Lookup(sessions, terminalId);
      var detectedPort := Get(ports, key);
      if detectedPort.None? {
        return NotTracked;
      }
      if detectedPort.value.workspaceId != workspaceId {
        return OtherWorkspace;
      }
      var session := Get(sessions, terminalId);
      if session.Some? && session.value.pid == Some(detectedPort.value.pid) {
        return OwnShell;
      }
      answer := Killing(detectedPort.value.pid);
    }
  }

  // A terminal is scanned in one workspace, moves to another and is scanned again: the port stays with the
  // first, and the second is refused it.
  method MoveTerminal(collation: Collation, terminalId: string, first: string, second: string, shell: int, info: PortInfo, later: PortInfo)
    returns (manager: PortManager, answer: KillAnswer)
    requires TellsApart(collation) && first != second
    requires info.port == later.port && info.port !in IGNORED_PORTS
    ensures fresh(manager) && manager.Consistent()
    ensures terminalId in AsMap(manager.sessions) && AsMap(manager.sessions)[terminalId].workspaceId == second
    ensures var k := MakeKey(terminalId, info.port);
      k in AsMap(manager.ports) && AsMap(manager.ports)[k].workspaceId == first && answer == OtherWorkspace
  {
    hide AsMap, Replay, Distinct, MakeKey, Keyed, Has, OwnerOf, IsLeast;
    manager := new PortManager(collation);
    manager.UpsertSession(terminalId, first, Some(shell));
    Lookup(manager.sessions, terminalId);
    ghost var k, m0 := MakeKey(terminalId, info.port), AsMap(manager.ports);
    NoEntries<string, DetectedPort>();
    var trees := [Tree(terminalId, first, [shell, info.pid])];
    OnlyTree(trees[0], info);
    manager.FinishScan(trees, [info], 0);
    ghost var m1 := AsMap(manager.ports);
    ScannedPort(manager, m0, trees[0], info, 0);
    manager.UpsertSession(terminalId, second, Some(shell));
    Lookup(manager.sessions, terminalId);
    trees := [Tree(terminalId, second, [shell, later.pid])];
    OnlyTree(trees[0], later);
    manager.FinishScan(trees, [later], 1);
    ScannedPort(manager, m1, trees[0], later, 1);
    answer := manager.KillPort(terminalId, second, info.port);
  }

  lemma OnlyTree(tree: Tree, info: PortInfo)
    requires info.pid in tree.pids
    ensures TreeOf([tree], tree.terminalId) == Some(tree)
    ensures OwnedBy([tree], [info], tree.terminalId) == {info}
  {
    assert [tree][..0] == [];
    assert OwnerOf([tree], info.pid) == Some(tree.terminalId);
    assert info in [info] && forall x :: x in [info] ==> x == info;
  }

  // The port of the only process that listens is tracked.
  lemma ScannedPort(manager: PortManager, before: PortMap, tree: Tree, info: PortInfo, now: int)
    requires manager.Consistent() && Keyed(before) && Has(manager.sessions, tree.terminalId)
    requires info.pid in tree.pids && info.port !in IGNORED_PORTS
    requires ScannedAs(before, AsMap(manager.ports), manager.collation, manager.sessions, [tree], [info], tree.terminalId, now)
    ensures var k, after := MakeKey(tree.terminalId, info.port), AsMap(manager.ports);
      k in after && after[k].workspaceId == if k in before then before[k].workspaceId else tree.workspaceId
  {
    hide AsMap, Replay, Distinct, MakeKey, Has, OwnerOf, OwnedBy, TreeOf;
    var k, after := MakeKey(tree.terminalId, info.port), AsMap(manager.ports);
    OnlyTree(tree, info);
    assert Valid({info}) == {info};
    assert IsLeast(manager.collation, {info}, info);
    SameKey(before, tree.terminalId, info.port);
    RefreshedKeepsDetection(Slice(before, tree.terminalId), Slice(after, tree.terminalId), manager.collation, tree.terminalId,
                            tree.workspaceId, {info}, now);
    assert k in Slice(after, tree.terminalId);
  }
}
