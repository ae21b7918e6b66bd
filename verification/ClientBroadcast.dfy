/** The clients attached to a terminal session (src/main/terminal-host/session.ts), what was broadcast
    to them and which of them still have to drain. */
module ClientBroadcast {
  import opened Wrappers
  import opened JsMap
  import opened Utf16

  datatype Socket = Socket(id: nat)

  // How a socket reacts to a write.
  datatype Answer = Wrote(canWrite: bool) | Threw

  datatype Hub = Hub(
    clients: Entries<Socket, int>,   // the token of the attach call that attached the socket last
    awaiting: set<Socket>,           // sockets that have to drain
    heard: seq<Text>                 // for each attach call, the terminal output sent to its client
  )

  function Attach(h: Hub, socket: Socket): Hub {
    Hub(Set(h.clients, socket, |h.heard|), h.awaiting, h.heard + [[]])
  }

  function Detach(h: Hub, socket: Socket): Hub {
    Hub(Delete(h.clients, socket), h.awaiting - {socket}, h.heard)
  }

  // A canceled attach call detaches its socket unless the socket was attached again since.
  function Cancel(h: Hub, socket: Socket, token: int): Hub {
    if Get(h.clients, socket) == Some(token) then Detach(h, socket) else h
  }

  function Drained(h: Hub, socket: Socket): Hub {
    h.(awaiting := h.awaiting - {socket})
  }

  function DeliverOne(h: Hub, socket: Socket, token: int, text: Text, answer: Answer): (r: Hub)
    requires 0 <= token < |h.heard|
    ensures |r.heard| == |h.heard|
  {
    match answer
    case Threw => Detach(h, socket)
    case Wrote(canWrite) =>
      h.(heard := h.heard[token := h.heard[token] + text],
         awaiting := h.awaiting + if canWrite then {} else {socket})
  }

  predicate InRange(clients: Entries<Socket, int>, n: nat) {
    forall i :: 0 <= i < |clients| ==> 0 <= clients[i].1 < n
  }

  // Sends to the clients in `pending`, in order; events other than terminal output carry no text.
  function Deliver(h: Hub, pending: Entries<Socket, int>, text: Text, answers: Socket -> Answer): (r: Hub)
    requires InRange(pending, |h.heard|)
    ensures |r.heard| == |h.heard|
    decreases |pending|
  {
    if pending == [] then h
    else
      var (socket, token) := pending[0];
      Deliver(DeliverOne(h, socket, token, text, answers(socket)), pending[1..], text, answers)
  }

  function Broadcast(h: Hub, text: Text, answers: Socket -> Answer): Hub
    requires InRange(h.clients, |h.heard|)
  {
    Deliver(h, h.clients, text, answers)
  }

  // The log from a point on, as a client that attached at that point should hear it.
  function From(log: Text, start: nat): Text {
    if start <= |log| then log[start..] else []
  }

  lemma FromAppend(log: Text, start: nat, text: Text)
    requires start <= |log|
    ensures From(log + text, start) == From(log, start) + text
  {
  }

  // Only attached sockets are awaited, no token attaches two of them, and every client heard exactly
  // the log since it attached, or, if it is still `pending`, the log without the text being sent.
  ghost predicate Consistent(clients: map<Socket, int>, pending: map<Socket, int>, awaiting: set<Socket>,
                             heard: seq<Text>, since: seq<nat>, log: Text, text: Text)
  {
    && |heard| == |since|
    && awaiting <= clients.Keys
    && (forall s :: s in pending ==> s in clients && clients[s] == pending[s])
    && (forall s, s' :: s in clients && s' in clients && clients[s] == clients[s'] ==> s == s')
    && (forall s :: s in clients ==> 0 <= clients[s] < |since| && since[clients[s]] <= |log|)
    && (forall s :: s in clients ==>
          heard[clients[s]] == From(if s in pending then log else log + text, since[clients[s]]))
  }

  ghost predicate Delivering(h: Hub, pending: Entries<Socket, int>, since: seq<nat>, log: Text, text: Text) {
    && Distinct(h.clients) && Distinct(pending)
    && Consistent(AsMap(h.clients), AsMap(pending), h.awaiting, h.heard, since, log, text)
  }

  ghost predicate Inv(h: Hub, since: seq<nat>, log: Text) {
    Delivering(h, [], since, log, [])
  }

  lemma ClientInRange(h: Hub, pending: Entries<Socket, int>, since: seq<nat>, log: Text, text: Text)
    requires Delivering(h, pending, since, log, text)
    ensures InRange(pending, |h.heard|)
  {
    forall i | 0 <= i < |pending|
      ensures 0 <= pending[i].1 < |h.heard|
    {
      At(pending, i);
    }
  }

  lemma OneDelivered(clients: map<Socket, int>, pending: map<Socket, int>, awaiting: set<Socket>, heard: seq<Text>,
                     since: seq<nat>, log: Text, text: Text, socket: Socket, more: set<Socket>)
    requires Consistent(clients, pending, awaiting, heard, since, log, text)
    requires socket in pending && more <= {socket}
    ensures var t := clients[socket];
      Consistent(clients, pending - {socket}, awaiting + more, heard[t := heard[t] + text], since, log, text)
  {
    FromAppend(log, since[clients[socket]], text);
    hide From;
  }

  lemma OneThrew(clients: map<Socket, int>, pending: map<Socket, int>, awaiting: set<Socket>, heard: seq<Text>,
                 since: seq<nat>, log: Text, text: Text, socket: Socket)
    requires Consistent(clients, pending, awaiting, heard, since, log, text)
    ensures Consistent(clients - {socket}, pending - {socket}, awaiting - {socket}, heard, since, log, text)
  {
    hide From;
  }

  lemma DeliverOneKeeps(h: Hub, pending: Entries<Socket, int>, since: seq<nat>, log: Text, text: Text, answer: Answer)
    requires Delivering(h, pending, since, log, text) && pending != []
    ensures 0 <= pending[0].1 < |h.heard|
    ensures Delivering(DeliverOne(h, pending[0].0, pending[0].1, text, answer), pending[1..], since, log, text)
  {
    var (socket, token) := pending[0];
    Lookup(pending[1..], socket);
    assert AsMap(pending) == AsMap(pending[1..])[socket := token];
    assert AsMap(pending) - {socket} == AsMap(pending[1..]);
    assert socket in AsMap(pending) && AsMap(pending)[socket] == token;
    if answer.Threw? {
      Deleting(h.clients, socket);
      OneThrew(AsMap(h.clients), AsMap(pending), h.awaiting, h.heard, since, log, text, socket);
    } else {
      OneDelivered(AsMap(h.clients), AsMap(pending), h.awaiting, h.heard, since, log, text, socket,
                   if answer.canWrite then {} else {socket});
    }
  }

  lemma {:induction false} DeliverKeeps(h: Hub, pending: Entries<Socket, int>, since: seq<nat>, log: Text, text: Text,
                                        answers: Socket -> Answer)
    requires Delivering(h, pending, since, log, text)
    ensures InRange(pending, |h.heard|)
    ensures Delivering(Deliver(h, pending, text, answers), [], since, log, text)
    decreases |pending|
  {
    ClientInRange(h, pending, since, log, text);
    hide Delivering;
    if pending == [] {
    } else {
      DeliverOneKeeps(h, pending, since, log, text, answers(pending[0].0));
      DeliverKeeps(DeliverOne(h, pending[0].0, pending[0].1, text, answers(pending[0].0)), pending[1..], since, log, text, answers);
    }
  }

  /** A broadcast reaches every client that stays attached, and only those are awaited afterwards. */
  lemma BroadcastKeeps(h: Hub, since: seq<nat>, log: Text, text: Text, answers: Socket -> Answer)
    requires Inv(h, since, log)
    ensures InRange(h.clients, |h.heard|)
    ensures Inv(Broadcast(h, text, answers), since, log + text)
  {
    assert log + [] == log && (log + text) + [] == log + text;
    assert Delivering(h, h.clients, since, log, text);
    DeliverKeeps(h, h.clients, since, log, text, answers);
  }

  lemma AttachKeeps(h: Hub, since: seq<nat>, log: Text, socket: Socket)
    requires Inv(h, since, log)
    ensures Inv(Attach(h, socket), since + [|log|], log)
  {
    Setting(h.clients, socket, |h.heard|);
    assert log + [] == log && From(log, |log|) == [];
    Attached(AsMap(h.clients), h.awaiting, h.heard, since, log, socket);
  }

  lemma Attached(clients: map<Socket, int>, awaiting: set<Socket>, heard: seq<Text>, since: seq<nat>, log: Text, socket: Socket)
    requires Consistent(clients, map[], awaiting, heard, since, log, [])
    ensures Consistent(clients[socket := |heard|], map[], awaiting, heard + [[]], since + [|log|], log, [])
  {
    assert log + [] == log && From(log, |log|) == [];
    hide From;
  }

  lemma DetachKeeps(h: Hub, since: seq<nat>, log: Text, socket: Socket)
    requires Inv(h, since, log)
    ensures Inv(Detach(h, socket), since, log)
  {
    Deleting(h.clients, socket);
    OneThrew(AsMap(h.clients), map[], h.awaiting, h.heard, since, log, [], socket);
    var none: map<Socket, int> := map[];
    assert none - {socket} == none;
  }

  lemma DrainedKeeps(h: Hub, since: seq<nat>, log: Text, socket: Socket)
    requires Inv(h, since, log)
    ensures Inv(Drained(h, socket), since, log)
  {
    hide From;
  }

  lemma OneRecordPerCall(h: Hub, since: seq<nat>, log: Text)
    requires Inv(h, since, log)
    ensures |h.heard| == |since|
  {
  }
}
