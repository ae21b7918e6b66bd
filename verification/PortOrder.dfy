/** Listening ports: their order, one per number, and the keys they are tracked under
    (packages/port-scanner/src/port-manager.ts). How strings collate is given by an injective
    `collation`: the locale's order, which tells any two strings apart. */
module PortOrder {
  import opened Wrappers
  import opened JsMap

  datatype PortInfo = PortInfo(port: nat, pid: int, address: string, processName: string)

  function ToLower(s: string): string {
    seq(|s|, i requires 0 <= i < |s| => if 'A' <= s[i] <= 'Z' then s[i] + 32 as char else s[i])
  }

  function AddressRank(address: string): nat {
    var normalized := ToLower(address);
    if normalized == "127.0.0.1" || normalized == "localhost" then 0
    else if normalized == "0.0.0.0" || normalized == "*" then 1
    else if ':' !in normalized then 2
    else if normalized == "::1" || normalized == "0:0:0:0:0:0:0:1" then 3
    else if normalized == "::" || normalized == "0:0:0:0:0:0:0:0" then 4
    else 5
  }

  type Collation = string -> real

  ghost predicate TellsApart(collation: Collation) {
    forall a, b :: collation(a) == collation(b) ==> a == b
  }

  function LocaleCompare(collation: Collation, a: string, b: string): int {
    if collation(a) < collation(b) then -1 else if collation(a) > collation(b) then 1 else 0
  }

  function ComparePortInfo(collation: Collation, a: PortInfo, b: PortInfo): int {
    if a.port != b.port then a.port - b.port
    else if a.pid != b.pid then a.pid - b.pid
    else if LocaleCompare(collation, a.processName, b.processName) != 0 then
      LocaleCompare(collation, a.processName, b.processName)
    else if AddressRank(a.address) != AddressRank(b.address) then AddressRank(a.address) - AddressRank(b.address)
    else LocaleCompare(collation, a.address, b.address)
  }

  /** The comparison is a strict total order on infos. */
  lemma CompareIsTotalOrder(collation: Collation, a: PortInfo, b: PortInfo, c: PortInfo)
    requires TellsApart(collation)
    ensures ComparePortInfo(collation, a, b) == 0 <==> a == b
    ensures ComparePortInfo(collation, a, b) < 0 <==> ComparePortInfo(collation, b, a) > 0
    ensures ComparePortInfo(collation, a, b) <= 0 && ComparePortInfo(collation, b, c) <= 0
            ==> ComparePortInfo(collation, a, c) <= 0
  {
    hide AddressRank;
  }

  /** Which address a port is shown with: loopback before the wildcard before any other of version 4, and then the
      same of version 6; in either case of letters. */
  lemma AddressOrder(v4: string, v6: string)
    requires v4 == ToLower(v4) && ':' !in v4 && v4 !in ["127.0.0.1", "localhost", "0.0.0.0", "*"]
    requires v6 == ToLower(v6) && ':' in v6 && v6 !in ["::1", "0:0:0:0:0:0:0:1", "::", "0:0:0:0:0:0:0:0"]
    ensures AddressRank("127.0.0.1") == AddressRank("localhost") < AddressRank("0.0.0.0") == AddressRank("*") < AddressRank(v4)
    ensures AddressRank(v4) < AddressRank("::1") == AddressRank("0:0:0:0:0:0:0:1")
    ensures AddressRank("::1") < AddressRank("::") == AddressRank("0:0:0:0:0:0:0:0") < AddressRank(v6)
    ensures forall s :: AddressRank(ToLower(s)) == AddressRank(s)
    ensures ToLower("ABCDEFGHIJKLMNOPQRSTUVWXYZ") == "abcdefghijklmnopqrstuvwxyz"
  {
    hide ToLower;
    LowerLetters();
    LowerAlready("127.0.0.1");
    LowerAlready("localhost");
    LowerAlready("0.0.0.0");
    LowerAlready("*");
    LowerAlready("::1");
    LowerAlready("0:0:0:0:0:0:0:1");
    LowerAlready("::");
    LowerAlready("0:0:0:0:0:0:0:0");
    assert "::"[0] == ':' && "::1"[0] == ':' && "0:0:0:0:0:0:0:1"[1] == ':' && "0:0:0:0:0:0:0:0"[1] == ':';
    forall s: string
      ensures ToLower(ToLower(s)) == ToLower(s)
    {
      LowerTwice(s);
    }
  }

  lemma LowerAlready(s: string)
    requires forall c :: c in s ==> !('A' <= c <= 'Z')
    ensures ToLower(s) == s
  {
    assert forall i :: 0 <= i < |s| ==> s[i] in s;
  }

  lemma LowerTwice(s: string)
    ensures ToLower(ToLower(s)) == ToLower(s)
  {
  }

  lemma LowerLetters()
    ensures ToLower("ABCDEFGHIJKLMNOPQRSTUVWXYZ") == "abcdefghijklmnopqrstuvwxyz"
  {
  }

  // ----- one info per port -----

  ghost predicate IsLeast(collation: Collation, infos: set<PortInfo>, x: PortInfo) {
    x in infos && forall y :: y in infos && y.port == x.port ==> ComparePortInfo(collation, x, y) <= 0
  }

  /** Of the infos about one port the least has the smallest process number, among those the name that the locale
      sorts first, and among those the preferred address. */
  lemma LeastIsPreferred(collation: Collation, infos: set<PortInfo>, x: PortInfo)
    requires TellsApart(collation) && IsLeast(collation, infos, x)
    ensures forall y :: y in infos && y.port == x.port ==>
              && x.pid <= y.pid
              && (x.pid == y.pid ==> collation(x.processName) <= collation(y.processName))
              && (x.pid == y.pid && x.processName == y.processName ==>
                    && AddressRank(x.address) <= AddressRank(y.address)
                    && (AddressRank(x.address) == AddressRank(y.address) ==> collation(x.address) <= collation(y.address)))
  {
    hide AddressRank;
  }

  // One info for every port there is, the least, by rising port.
  ghost predicate OnePerPort(collation: Collation, infos: set<PortInfo>, r: seq<PortInfo>) {
    Rising(r) && forall x :: x in r <==> IsLeast(collation, infos, x)
  }

  ghost function Elements(infos: seq<PortInfo>): set<PortInfo> {
    set x | x in infos
  }

  ghost predicate Rising(infos: seq<PortInfo>) {
    forall i, j :: 0 <= i < j < |infos| ==> infos[i].port < infos[j].port
  }

  lemma RisingTail(infos: seq<PortInfo>)
    requires Rising(infos) && infos != []
    ensures Rising(infos[1..]) && infos[0] in infos
    ensures forall z :: z in infos[1..] <==> z in infos && z.port > infos[0].port
    ensures forall z :: z in infos <==> z == infos[0] || z in infos[1..]
  {
    assert infos == [infos[0]] + infos[1..];
    assert forall i :: 0 <= i < |infos[1..]| ==> infos[1..][i] == infos[i + 1];
  }

  lemma {:induction false} SameByPort(a: seq<PortInfo>, b: seq<PortInfo>)
    requires Rising(a) && Rising(b) && forall x :: x in a <==> x in b
    ensures a == b
    decreases |a|
  {
    hide Rising;
    assert forall i :: 0 <= i < |b| ==> b[i] in a;
    assert forall i :: 0 <= i < |a| ==> a[i] in b;
    if a == [] {
    } else {
      assert a[0] in b && b[0] in a;
      RisingTail(a);
      RisingTail(b);
      assert a[0] == b[0];
      SameByPort(a[1..], b[1..]);
      assert a == [a[0]] + a[1..] && b == [b[0]] + b[1..];
    }
  }

  /** What is kept does not depend on the order or the number of times in which a scan reports it. */
  lemma ScanOrderIrrelevant(collation: Collation, a: seq<PortInfo>, b: seq<PortInfo>, r: seq<PortInfo>, s: seq<PortInfo>)
    requires OnePerPort(collation, Elements(a), r) && OnePerPort(collation, Elements(b), s)
    requires forall x :: x in a <==> x in b
    ensures r == s
  {
    assert Elements(a) == Elements(b);
    hide IsLeast;
    SameByPort(r, s);
  }

  function Insert(collation: Collation, x: PortInfo, sorted: seq<PortInfo>): seq<PortInfo> {
    if sorted == [] then [x]
    else if ComparePortInfo(collation, x, sorted[0]) < 0 then [x] + sorted
    else [sorted[0]] + Insert(collation, x, sorted[1..])
  }

  // `infos.sort(comparePortInfo)`
  function Sorted(collation: Collation, infos: seq<PortInfo>): seq<PortInfo> {
    if infos == [] then [] else Insert(collation, infos[0], Sorted(collation, infos[1..]))
  }

  lemma ComparesByPort(collation: Collation, x: PortInfo, y: PortInfo)
    requires x.port != y.port
    ensures ComparePortInfo(collation, x, y) < 0 <==> x.port < y.port
  {
  }

  // A first element below the rest.
  lemma RisingFrom(first: PortInfo, rest: seq<PortInfo>)
    requires Rising(rest) && forall y :: y in rest ==> first.port < y.port
    ensures Rising([first] + rest)
  {
    assert forall i :: 0 <= i < |rest| ==> rest[i] in rest;
  }

  lemma {:induction false} Inserting(collation: Collation, x: PortInfo, sorted: seq<PortInfo>)
    requires Rising(sorted)
    requires forall y :: y in sorted ==> y.port != x.port
    ensures var r := Insert(collation, x, sorted);
      Rising(r) && (forall y :: y in r <==> y == x || y in sorted)
  {
    if sorted == [] {
    } else {
      hide Rising, ComparePortInfo;
      var first, tail := sorted[0], sorted[1..];
      assert forall y :: y in sorted <==> y == first || y in tail by { assert sorted == [first] + tail; }
      RisingTail(sorted);
      ComparesByPort(collation, x, first);
      if x.port < first.port {
        RisingFrom(x, sorted);
      } else {
        Inserting(collation, x, tail);
        RisingFrom(first, Insert(collation, x, tail));
      }
    }
  }

  lemma {:induction false} Sorting(collation: Collation, infos: seq<PortInfo>)
    requires forall i, j :: 0 <= i < j < |infos| ==> infos[i].port != infos[j].port
    ensures var r := Sorted(collation, infos);
      Rising(r) && (forall y :: y in r <==> y in infos)
  {
    hide Insert;
    if infos == [] {
    } else {
      var rest := infos[1..];
      Sorting(collation, rest);
      assert infos == [infos[0]] + rest;
      assert forall y :: y in rest ==> y.port != infos[0].port;
      Inserting(collation, infos[0], Sorted(collation, rest));
    }
  }

  // The least of the infos so far, by port.
  ghost predicate LeastByPort(collation: Collation, m: map<nat, PortInfo>, infos: set<PortInfo>) {
    && (forall p :: p in m ==> m[p].port == p && IsLeast(collation, infos, m[p]))
    && (forall x :: x in infos ==> x.port in m)
  }

  lemma LeastNext(collation: Collation, m: map<nat, PortInfo>, infos: set<PortInfo>, x: PortInfo)
    requires TellsApart(collation) && LeastByPort(collation, m, infos)
    ensures LeastByPort(collation,
              if x.port !in m || ComparePortInfo(collation, x, m[x.port]) < 0 then m[x.port := x] else m, infos + {x})
  {
    hide ComparePortInfo;
    CompareIsTotalOrder(collation, x, x, x);
    if x.port in m {
      forall y | y in infos && y.port == x.port
        ensures ComparePortInfo(collation, m[x.port], y) <= 0
        ensures ComparePortInfo(collation, x, m[x.port]) < 0 ==> ComparePortInfo(collation, x, y) <= 0
      {
        CompareIsTotalOrder(collation, x, m[x.port], y);
      }
      CompareIsTotalOrder(collation, m[x.port], x, x);
      CompareIsTotalOrder(collation, x, m[x.port], x);
    }
  }

  method DedupePortInfosByPort(collation: Collation, portInfos: seq<PortInfo>) returns (r: seq<PortInfo>)
    requires TellsApart(collation)
    ensures OnePerPort(collation, Elements(portInfos), r)
  {
    hide AsMap, LeastByPort, ComparePortInfo, OnePerPort, Distinct, Sorted;
    var portsByNumber: Entries<nat, PortInfo> := [];
    NothingYet(collation);
    assert portInfos[..0] == [];
    for i := 0 to |portInfos|
      invariant Distinct(portsByNumber) && LeastByPort(collation, AsMap(portsByNumber), Elements(portInfos[..i]))
    {
      var info := portInfos[i];
      var existing := Get(portsByNumber, info.port);
      Lookup(portsByNumber, info.port);
      LeastNext(collation, AsMap(portsByNumber), Elements(portInfos[..i]), info);
      assert Elements(portInfos[..i + 1]) == Elements(portInfos[..i]) + {info} by {
        assert portInfos[..i + 1] == portInfos[..i] + [info];
      }
      Setting(portsByNumber, info.port, info);
      if existing.None? || ComparePortInfo(collation, info, existing.value) < 0 {
        portsByNumber := Set(portsByNumber, info.port, info);
      }
    }
    assert portInfos[..|portInfos|] == portInfos;
    r := Sorted(collation, Values(portsByNumber));
    SortedLeast(collation, portsByNumber, Elements(portInfos));
  }

  lemma NothingYet(collation: Collation)
    ensures Distinct<nat, PortInfo>([]) && LeastByPort(collation, AsMap([]), Elements([]))
  {
  }

  lemma SortedLeast(collation: Collation, m: Entries<nat, PortInfo>, infos: set<PortInfo>)
    requires TellsApart(collation) && Distinct(m) && LeastByPort(collation, AsMap(m), infos)
    ensures OnePerPort(collation, infos, Sorted(collation, Values(m)))
  {
    hide AsMap, ComparePortInfo, Distinct, Sorted;
    var values := Values(m);
    forall i | 0 <= i < |m|
      ensures values[i].port == m[i].0 && IsLeast(collation, infos, values[i])
    {
      At(m, i);
    }
    forall i, j | 0 <= i < j < |values|
      ensures values[i].port != values[j].port
    {
      DistinctKeys(m, i, j);
    }
    forall x | IsLeast(collation, infos, x)
      ensures x in values
    {
      Lookup(m, x.port);
      var i := Position(m, x.port);
      assert values[i].port == x.port;
      CompareIsTotalOrder(collation, x, values[i], x);
    }
    Sorting(collation, values);
  }

  // ----- keys -----

  function Digits(n: nat): string {
    if n < 10 then [n as char + '0'] else Digits(n / 10) + [(n % 10) as char + '0']
  }

  function MakeKey(terminalId: string, port: nat): string {
    terminalId + ":" + Digits(port)
  }

  function Number(digits: string): int {
    if digits == "" then 0 else 10 * Number(digits[..|digits| - 1]) + (digits[|digits| - 1] as int - '0' as int)
  }

  lemma {:induction false} DigitsRead(n: nat)
    ensures Number(Digits(n)) == n && ':' !in Digits(n)
  {
    if n >= 10 {
      DigitsRead(n / 10);
      var last := (n % 10) as char + '0';
      assert Digits(n)[..|Digits(n)| - 1] == Digits(n / 10);
    } else {
      assert Digits(n)[..0] == "";
      assert Number("") == 0;
    }
  }

  /** Keys of different terminals or ports differ, whatever the terminal's name. */
  lemma KeysTellApart(a: string, p: nat, b: string, q: nat)
    ensures MakeKey(a, p) == MakeKey(b, q) <==> a == b && p == q
  {
    hide Digits;
    DigitsRead(p);
    DigitsRead(q);
    var k, l := MakeKey(a, p), MakeKey(b, q);
    LastColon(a, p);
    LastColon(b, q);
    if k == l {
      assert |a| == |b|;
      assert k[|a| + 1..] == Digits(p) && l[|b| + 1..] == Digits(q);
      assert k[..|a|] == a && l[..|b|] == b;
    }
  }

  lemma LastColon(terminalId: string, port: nat)
    ensures var k := MakeKey(terminalId, port);
      && |terminalId| < |k| && k[|terminalId|] == ':'
      && forall i :: |terminalId| < i < |k| ==> k[i] != ':'
  {
    hide Digits;
    DigitsRead(port);
    var k := MakeKey(terminalId, port);
    forall i | |terminalId| < i < |k|
      ensures k[i] != ':'
    {
      assert k[i] == Digits(port)[i - |terminalId| - 1];
    }
  }
}
