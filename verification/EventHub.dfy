/** The event hub: what its two registries hold and send after any sequence of messages. List nodes keep
    their content for life, so this theory is about sequences of nodes and needs no heap. */
module EventHub {
  import opened Common
  import opened UtilsList

  /** `queueId` is a pointer; zero is NULL. Packed, so that comparing memory compares the three fields. */
  datatype Identity = Identity(serviceId: int, featureId: int, queueId: nat)

  datatype Entry =
    | Sender(handle: nat, sendIdentity: Identity)
    | Receiver(sendIdentity: Identity, recvIdentity: Identity, msgId: uint32)

  /** What the hub compares to find an older registration. */
  datatype Key = ByHandle(handle: nat) | ByPair(recvIdentity: Identity, sendIdentity: Identity)

  type List = seq<Node<Entry>>

  function KeyOf(e: Entry): Key {
    match e
    case Sender(handle, _) => ByHandle(handle)
    case Receiver(send, recv, _) => ByPair(recv, send)
  }

  predicate Live(e: Entry) {
    e.sendIdentity.queueId != 0
  }

  predicate AllSenders(list: List) {
    forall i :: 0 <= i < |list| ==> list[i].entry.Sender?
  }

  predicate AllReceivers(list: List) {
    forall i :: 0 <= i < |list| ==> list[i].entry.Receiver?
  }

  /** The first node with this key, or the length of the list. */
  function Find(list: List, key: Key): (i: nat)
    ensures i <= |list| && (i < |list| ==> KeyOf(list[i].entry) == key)
    ensures forall j :: 0 <= j < i ==> KeyOf(list[j].entry) != key
  {
    if list == [] || KeyOf(list[0].entry) == key then 0 else 1 + Find(list[1..], key)
  }

  /** The list without the first node that has this key. */
  function Drop(list: List, key: Key): (r: List)
    ensures AllSenders(list) ==> AllSenders(r)
    ensures AllReceivers(list) ==> AllReceivers(r)
  {
    if list == [] then []
    else if KeyOf(list[0].entry) == key then list[1..]
    else [list[0]] + Drop(list[1..], key)
  }

  lemma FindTail(list: List, key: Key)
    requires list != []
    ensures Find(list, key) == if KeyOf(list[0].entry) == key then 0 else 1 + Find(list[1..], key)
  {
  }

  lemma {:induction false} DropIsWithout(list: List, key: Key)
    ensures var i := Find(list, key); Drop(list, key) == if i < |list| then Without(list, i) else list
  {
    hide AllSenders, AllReceivers, Find;
    if list == [] {
    } else {
      FindTail(list, key);
      if KeyOf(list[0].entry) != key {
        DropIsWithout(list[1..], key);
      }
    }
  }

  /** The list after a registration: the first node with its key is dropped, and the new node is put in
      front unless it names no queue. */
  function Register(list: List, node: Node<Entry>): List {
    var rest := Drop(list, KeyOf(node.entry));
    if Live(node.entry) then [node] + rest else rest
  }

  /** The node that a registration drops and frees. */
  function Superseded(list: List, node: Node<Entry>): List {
    var i := Find(list, KeyOf(node.entry));
    if i < |list| then [list[i]] else []
  }

  // ---------------------------------------------------------------- firing

  /** A request as SAMGR_SendRequest gets it. */
  datatype Sent = Sent(to: Identity, msgId: int, msgValue: uint32)

  /** A 32-bit value stored in the 16-bit message number of a request. */
  function Int16(x: uint32): int {
    var low := x % 0x1_0000;
    if low < 0x8000 then low else low - 0x1_0000
  }

  function Requests(receivers: List, sender: Identity, value: uint32): seq<Sent>
    requires AllReceivers(receivers)
  {
    if receivers == [] then []
    else
      var e := receivers[0].entry;
      (if e.sendIdentity == sender then [Sent(e.recvIdentity, Int16(e.msgId), value)] else [])
      + Requests(receivers[1..], sender, value)
  }

  function Fire(senders: List, receivers: List, handle: nat, value: uint32): seq<Sent>
    requires AllReceivers(receivers)
  {
    var i := Find(senders, ByHandle(handle));
    if i < |senders| then Requests(receivers, senders[i].entry.sendIdentity, value) else []
  }

  // ---------------------------------------------------------------- runs

  datatype Message =
    | AddSender(node: Node<Entry>)
    | AddReceiver(node: Node<Entry>)
    | SendEvent(handle: nat, value: uint32)
    | Other

  /** The node that a message carries is of the kind that its number says. */
  predicate WellTyped(m: Message) {
    (m.AddSender? ==> m.node.entry.Sender?) && (m.AddReceiver? ==> m.node.entry.Receiver?)
  }

  /** The two lists, what the hub has freed, what it has left to the framework, and what it has sent. */
  datatype Hub = Hub(senders: List, receivers: List, freed: List, returned: List, sent: seq<Sent>) {
    predicate Typed() {
      AllSenders(senders) && AllReceivers(receivers)
    }
  }

  /** The node of a registration that names no queue goes back to the framework. */
  function Back(node: Node<Entry>): List {
    if Live(node.entry) then [] else [node]
  }

  function Step(h: Hub, m: Message): (r: Hub)
    requires h.Typed() && WellTyped(m)
    ensures r.Typed()
  {
    match m
    case AddSender(node) =>
      h.(senders := Register(h.senders, node), freed := h.freed + Superseded(h.senders, node),
         returned := h.returned + Back(node))
    case AddReceiver(node) =>
      h.(receivers := Register(h.receivers, node), freed := h.freed + Superseded(h.receivers, node),
         returned := h.returned + Back(node))
    case SendEvent(handle, value) =>
      h.(sent := h.sent + Fire(h.senders, h.receivers, handle, value))
    case Other => h
  }

  predicate AllTyped(ms: seq<Message>) {
    forall i :: 0 <= i < |ms| ==> WellTyped(ms[i])
  }

  /** The hub after the messages `ms`, from its initialization on. */
  function Run(ms: seq<Message>): (h: Hub)
    requires AllTyped(ms)
    ensures h.Typed()
  {
    if ms == [] then Hub([], [], [], [], [])
    else Step(Run(ms[..|ms| - 1]), ms[|ms| - 1])
  }

  /** The hub after the messages `ms`, from any state on. */
  function RunFrom(h: Hub, ms: seq<Message>): (r: Hub)
    requires h.Typed() && AllTyped(ms)
    ensures r.Typed()
  {
    if ms == [] then h else Step(RunFrom(h, ms[..|ms| - 1]), ms[|ms| - 1])
  }

  /** Handling more messages continues the run. */
  lemma {:induction false} RunContinues(before: seq<Message>, ms: seq<Message>)
    requires AllTyped(before) && AllTyped(ms)
    ensures AllTyped(before + ms) && RunFrom(Run(before), ms) == Run(before + ms)
  {
    hide Step, WellTyped;
    if ms == [] {
      assert before + ms == before;
    } else {
      var all := before + ms;
      RunContinues(before, ms[..|ms| - 1]);
      assert all[..|all| - 1] == before + ms[..|ms| - 1] && all[|all| - 1] == ms[|ms| - 1];
    }
  }

  /** The sender, or receiver, registrations among `ms`. */
  function SenderRegs(ms: seq<Message>): List {
    if ms == [] then []
    else
      var m := ms[|ms| - 1];
      var rest := SenderRegs(ms[..|ms| - 1]);
      if m.AddSender? then rest + [m.node] else rest
  }

  function ReceiverRegs(ms: seq<Message>): List {
    if ms == [] then []
    else
      var m := ms[|ms| - 1];
      var rest := ReceiverRegs(ms[..|ms| - 1]);
      if m.AddReceiver? then rest + [m.node] else rest
  }

  function Registered(regs: List): List {
    if regs == [] then [] else Register(Registered(regs[..|regs| - 1]), regs[|regs| - 1])
  }

  lemma RegisteredStep(regs: List, node: Node<Entry>)
    ensures Registered(regs + [node]) == Register(Registered(regs), node)
  {
    assert (regs + [node])[..|regs|] == regs;
  }

  /** What one message does to the two lists. */
  lemma StepRegisters(h: Hub, m: Message)
    requires h.Typed() && WellTyped(m)
    ensures Step(h, m).senders == if m.AddSender? then Register(h.senders, m.node) else h.senders
    ensures Step(h, m).receivers == if m.AddReceiver? then Register(h.receivers, m.node) else h.receivers
  {
    hide Register, Superseded, Fire;
  }

  /** Each list depends on its own registrations only. */
  lemma {:induction false} RunRegisters(ms: seq<Message>)
    requires AllTyped(ms)
    ensures Run(ms).senders == Registered(SenderRegs(ms))
    ensures Run(ms).receivers == Registered(ReceiverRegs(ms))
  {
    hide Registered, Register, Step;
    if ms == [] {
      NoneRegistered();
    } else {
      var rest, m := ms[..|ms| - 1], ms[|ms| - 1];
      RunRegisters(rest);
      StepRegisters(Run(rest), m);
      if m.AddSender? {
        RegisteredStep(SenderRegs(rest), m.node);
      } else if m.AddReceiver? {
        RegisteredStep(ReceiverRegs(rest), m.node);
      }
    }
  }

  lemma NoneRegistered()
    ensures Registered([]) == []
  {
  }

  // ---------------------------------------------------------------- what a list holds

  /** A registration that names a queue and that no later one replaces. */
  predicate Stands(regs: List, p: nat)
    requires p < |regs|
  {
    Live(regs[p].entry) && forall k :: p < k < |regs| ==> KeyOf(regs[k].entry) != KeyOf(regs[p].entry)
  }

  /** The standing registrations among the first `n`, the newest first. */
  function Standing(regs: List, n: nat): (r: List)
    requires n <= |regs|
  {
    if n == 0 then []
    else if Stands(regs, n - 1) then [regs[n - 1]] + Standing(regs, n - 1)
    else Standing(regs, n - 1)
  }

  lemma StandingLast(regs: List, n: nat)
    requires 0 < n <= |regs|
    ensures var rest := Standing(regs, n - 1);
            Standing(regs, n) == if Stands(regs, n - 1) then [regs[n - 1]] + rest else rest
  {
  }

  lemma {:induction false} StandingFrom(regs: List, n: nat, i: nat) returns (p: nat)
    requires n <= |regs| && i < |Standing(regs, n)|
    ensures p < n && Stands(regs, p) && Standing(regs, n)[i] == regs[p]
  {
    if Stands(regs, n - 1) {
      if i == 0 {
        p := n - 1;
      } else {
        p := StandingFrom(regs, n - 1, i - 1);
      }
    } else {
      p := StandingFrom(regs, n - 1, i);
    }
  }

  /** No other standing registration before a standing one has its key. */
  lemma StandingOther(regs: List, n: nat, i: nat)
    requires n < |regs| && i < |Standing(regs, n)|
    ensures KeyOf(Standing(regs, n)[i].entry) != KeyOf(regs[n].entry)
  {
    hide Standing;
    var p := StandingFrom(regs, n, i);
  }

  ghost predicate UniqueKeys(list: List) {
    forall i, j :: 0 <= i < j < |list| ==> KeyOf(list[i].entry) != KeyOf(list[j].entry)
  }

  /** No node has this key. */
  predicate Absent(list: List, key: Key) {
    forall i :: 0 <= i < |list| ==> KeyOf(list[i].entry) != key
  }

  lemma StandingAbsent(regs: List, n: nat)
    requires n < |regs|
    ensures Absent(Standing(regs, n), KeyOf(regs[n].entry))
  {
    forall i | 0 <= i < |Standing(regs, n)| ensures KeyOf(Standing(regs, n)[i].entry) != KeyOf(regs[n].entry) {
      StandingOther(regs, n, i);
    }
  }

  lemma {:induction false} DropAbsent(list: List, key: Key)
    requires Absent(list, key)
    ensures Drop(list, key) == list
  {
    if list == [] {
    } else {
      DropAbsent(list[1..], key);
    }
  }

  lemma DropFront(node: Node<Entry>, list: List, key: Key)
    ensures Drop([node] + list, key) == if KeyOf(node.entry) == key then list else [node] + Drop(list, key)
  {
    assert ([node] + list)[1..] == list;
  }

  /** A further registration takes the older ones with its key out, wherever they stand. */
  lemma {:induction false} StandingDrops(regs: List, node: Node<Entry>, n: nat)
    requires n <= |regs|
    ensures Standing(regs + [node], n) == Drop(Standing(regs, n), KeyOf(node.entry))
  {
    if n == 0 {
    } else {
      StandingDrops(regs, node, n - 1);
      StandsBefore(regs, node, n - 1);
      StandingLast(regs, n);
      StandingLast(regs + [node], n);
      hide Drop, Stands, Standing, AllSenders, AllReceivers;
      if Stands(regs, n - 1) {
        DropFront(regs[n - 1], Standing(regs, n - 1), KeyOf(node.entry));
        StandingAbsent(regs, n - 1);
        if KeyOf(regs[n - 1].entry) == KeyOf(node.entry) {
          DropAbsent(Standing(regs, n - 1), KeyOf(node.entry));
        }
      }
    }
  }

  lemma StandsBefore(regs: List, node: Node<Entry>, p: nat)
    requires p < |regs|
    ensures Stands(regs + [node], p) <==> Stands(regs, p) && KeyOf(regs[p].entry) != KeyOf(node.entry)
  {
    var more := regs + [node];
    assert more[p] == regs[p] && more[|regs|] == node;
    assert forall k :: p < k < |regs| ==> more[k] == regs[k];
  }

  /** A list holds exactly the standing registrations, the newest first. */
  lemma {:induction false} RegisteredIsStanding(regs: List)
    ensures Registered(regs) == Standing(regs, |regs|)
  {
    if regs == [] {
    } else {
      var rest, node := regs[..|regs| - 1], regs[|regs| - 1];
      RegisteredIsStanding(rest);
      StandingDrops(rest, node, |rest|);
      assert rest + [node] == regs;
    }
  }

  // ---------------------------------------------------------------- two maps

  /** The registry as a map: a registration replaces the one with its key, or removes it when it names
      no queue. */
  function Current(regs: List): map<Key, Entry> {
    if regs == [] then map[]
    else
      var m, e := Current(regs[..|regs| - 1]), regs[|regs| - 1].entry;
      if Live(e) then m[KeyOf(e) := e] else m - {KeyOf(e)}
  }

  /** The list has one node for each key of the map, with its entry, and no other nodes. */
  ghost predicate Represents(list: List, m: map<Key, Entry>) {
    && UniqueKeys(list)
    && forall key :: (key in m <==> Find(list, key) < |list|) && (key in m ==> m[key] == list[Find(list, key)].entry)
  }

  lemma UniqueTail(list: List)
    requires list != [] && UniqueKeys(list)
    ensures UniqueKeys(list[1..]) && Find(list[1..], KeyOf(list[0].entry)) == |list| - 1
  {
    var rest := list[1..];
    assert forall i :: 0 <= i < |rest| ==> rest[i] == list[i + 1];
  }

  /** What the search finds after the first node with `key` is dropped: stopping at the first is enough. */
  lemma {:induction false} FindDrop(list: List, key: Key, other: Key)
    requires UniqueKeys(list)
    ensures var rest, i, j := Drop(list, key), Find(list, other), Find(Drop(list, key), other);
            && (j < |rest| <==> i < |list| && other != key)
            && (j < |rest| ==> rest[j] == list[i])
  {
    hide AllSenders, AllReceivers, UniqueKeys, Find;
    if list == [] {
    } else {
      UniqueTail(list);
      FindTail(list, other);
      if KeyOf(list[0].entry) != key {
        FindDrop(list[1..], key, other);
        FindFront(list[0], Drop(list[1..], key), other);
      }
    }
  }

  lemma FindFront(node: Node<Entry>, list: List, key: Key)
    ensures Find([node] + list, key) == if KeyOf(node.entry) == key then 0 else 1 + Find(list, key)
  {
    assert ([node] + list)[1..] == list;
  }

  lemma {:induction false} DropKeepsUnique(list: List, key: Key)
    requires UniqueKeys(list)
    ensures UniqueKeys(Drop(list, key))
  {
    if list == [] {
    } else {
      UniqueTail(list);
      if KeyOf(list[0].entry) != key {
        DropKeepsUnique(list[1..], key);
        FindDrop(list[1..], key, KeyOf(list[0].entry));
        UniqueFront(list[0], Drop(list[1..], key));
      }
    }
  }

  lemma UniqueFront(node: Node<Entry>, list: List)
    requires UniqueKeys(list) && Find(list, KeyOf(node.entry)) == |list|
    ensures UniqueKeys([node] + list)
  {
  }

  lemma RegisterRepresents(list: List, m: map<Key, Entry>, node: Node<Entry>)
    requires Represents(list, m)
    ensures var e := node.entry;
            Represents(Register(list, node), if Live(e) then m[KeyOf(e) := e] else m - {KeyOf(e)})
  {
    hide UniqueKeys, Drop, AllSenders, AllReceivers;
    var key := KeyOf(node.entry);
    DropKeepsUnique(list, key);
    FindDrop(list, key, key);
    forall other
      ensures Find(Register(list, node), other) < |Register(list, node)| <==>
              other in (if Live(node.entry) then m[key := node.entry] else m - {key})
      ensures other in (if Live(node.entry) then m[key := node.entry] else m - {key}) ==>
              Register(list, node)[Find(Register(list, node), other)].entry ==
              (if Live(node.entry) then m[key := node.entry] else m - {key})[other]
    {
      FindDrop(list, key, other);
      FindFront(node, Drop(list, key), other);
    }
    if Live(node.entry) {
      UniqueFront(node, Drop(list, key));
    }
  }

  /** The list and the map agree after any sequence of registrations. */
  lemma {:induction false} RegisteredRepresents(regs: List)
    ensures Represents(Registered(regs), Current(regs))
  {
    if regs == [] {
    } else {
      hide Represents, Register;
      RegisteredRepresents(regs[..|regs| - 1]);
      RegisterRepresents(Registered(regs[..|regs| - 1]), Current(regs[..|regs| - 1]), regs[|regs| - 1]);
    }
  }

  // ---------------------------------------------------------------- who is told

  /** Each request comes from a receiver of this sender. */
  lemma {:induction false} RequestFrom(list: List, sender: Identity, value: uint32, i: nat) returns (p: nat)
    requires AllReceivers(list) && i < |Requests(list, sender, value)|
    ensures p < |list| && list[p].entry.sendIdentity == sender
    ensures var e := list[p].entry; Requests(list, sender, value)[i] == Sent(e.recvIdentity, Int16(e.msgId), value)
  {
    hide Int16;
    if list[0].entry.sendIdentity == sender {
      if i == 0 {
        p := 0;
      } else {
        p := RequestFrom(list[1..], sender, value, i - 1);
        p := p + 1;
      }
    } else {
      p := RequestFrom(list[1..], sender, value, i);
      p := p + 1;
    }
  }

  /** Each receiver of this sender gets a request. */
  lemma {:induction false} RequestFor(list: List, sender: Identity, value: uint32, p: nat) returns (i: nat)
    requires AllReceivers(list) && p < |list| && list[p].entry.sendIdentity == sender
    ensures i < |Requests(list, sender, value)| && Requests(list, sender, value)[i].to == list[p].entry.recvIdentity
  {
    hide Int16;
    if p == 0 {
      i := 0;
    } else {
      i := RequestFor(list[1..], sender, value, p - 1);
      i := if list[0].entry.sendIdentity == sender then i + 1 else i;
    }
  }

  /** The requests are in the order of the list of their receivers, so no receiver gets two. */
  predicate InOrder(sent: seq<Sent>, list: List, sender: Identity) {
    forall i, j :: 0 <= i < j < |sent| ==>
      Find(list, ByPair(sent[i].to, sender)) < Find(list, ByPair(sent[j].to, sender))
  }

  lemma {:induction false} RequestsInOrder(list: List, sender: Identity, value: uint32)
    requires AllReceivers(list) && UniqueKeys(list)
    ensures InOrder(Requests(list, sender, value), list, sender)
  {
    hide Find, UniqueKeys, Int16;
    if list == [] {
    } else {
      var rest := Requests(list[1..], sender, value);
      UniqueTail(list);
      RequestsInOrder(list[1..], sender, value);
      forall j | 0 <= j < |rest|
        ensures Find(list, ByPair(rest[j].to, sender)) == 1 + Find(list[1..], ByPair(rest[j].to, sender))
      {
        RequestBehind(list, sender, value, j);
      }
      FindTail(list, KeyOf(list[0].entry));
    }
  }

  lemma RequestBehind(list: List, sender: Identity, value: uint32, j: nat)
    requires list != [] && AllReceivers(list) && UniqueKeys(list) && j < |Requests(list[1..], sender, value)|
    ensures var key := ByPair(Requests(list[1..], sender, value)[j].to, sender);
            Find(list, key) == 1 + Find(list[1..], key)
  {
    hide Requests, Find;
    var p := RequestFrom(list[1..], sender, value, j);
    assert KeyOf(list[0].entry) != KeyOf(list[p + 1].entry);
    FindTail(list, ByPair(Requests(list[1..], sender, value)[j].to, sender));
  }

  lemma LiveIn(regs: List, i: nat)
    requires i < |Registered(regs)|
    ensures Live(Registered(regs)[i].entry)
  {
    RegisteredIsStanding(regs);
    var p := StandingFrom(regs, |regs|, i);
  }

  /** After any messages, each list holds exactly the standing registrations, the newest first. It has one
      node for each key that is registered, with the latest entry, and every node names a queue. */
  lemma ListsAreMaps(ms: seq<Message>)
    requires AllTyped(ms)
    ensures Run(ms).senders == Standing(SenderRegs(ms), |SenderRegs(ms)|)
    ensures Run(ms).receivers == Standing(ReceiverRegs(ms), |ReceiverRegs(ms)|)
    ensures Represents(Run(ms).senders, Current(SenderRegs(ms)))
    ensures Represents(Run(ms).receivers, Current(ReceiverRegs(ms)))
    ensures forall n :: n in Run(ms).senders + Run(ms).receivers ==> Live(n.entry)
  {
    hide Run, Registered, Standing, Represents;
    RunRegisters(ms);
    RegisteredIsStanding(SenderRegs(ms));
    RegisteredIsStanding(ReceiverRegs(ms));
    RegisteredRepresents(SenderRegs(ms));
    RegisteredRepresents(ReceiverRegs(ms));
    forall i | 0 <= i < |Run(ms).senders| ensures Live(Run(ms).senders[i].entry) {
      LiveIn(SenderRegs(ms), i);
    }
    forall i | 0 <= i < |Run(ms).receivers| ensures Live(Run(ms).receivers[i].entry) {
      LiveIn(ReceiverRegs(ms), i);
    }
  }

  /** The requests of a handle whose current sender is `sender`, said with the map of receivers. */
  ghost predicate Told(sent: seq<Sent>, sender: Identity, receivers: map<Key, Entry>, value: uint32) {
    && (forall i, j :: 0 <= i < j < |sent| ==> sent[i].to != sent[j].to)
    && (forall i :: 0 <= i < |sent| ==> ToldOne(sent[i], sender, receivers, value))
    && (forall r :: ByPair(r, sender) in receivers ==> exists i :: 0 <= i < |sent| && sent[i].to == r)
  }

  ghost predicate ToldOne(s: Sent, sender: Identity, receivers: map<Key, Entry>, value: uint32) {
    var key := ByPair(s.to, sender);
    && key in receivers && receivers[key].Receiver?
    && s.msgId == Int16(receivers[key].msgId) && s.msgValue == value
  }

  lemma FindThis(list: List, p: nat)
    requires UniqueKeys(list) && p < |list|
    ensures Find(list, KeyOf(list[p].entry)) == p
  {
  }

  lemma RequestsTold(list: List, m: map<Key, Entry>, sender: Identity, value: uint32)
    requires AllReceivers(list) && Represents(list, m)
    ensures Told(Requests(list, sender, value), sender, m, value)
    ensures InOrder(Requests(list, sender, value), list, sender)
  {
    hide Requests, Int16;
    var sent := Requests(list, sender, value);
    RequestsInOrder(list, sender, value);
    forall i | 0 <= i < |sent| ensures ToldOne(sent[i], sender, m, value) {
      var p := RequestFrom(list, sender, value, i);
      FindThis(list, p);
    }
    forall r | ByPair(r, sender) in m ensures exists i :: 0 <= i < |sent| && sent[i].to == r {
      var p := Find(list, ByPair(r, sender));
      var i := RequestFor(list, sender, value, p);
    }
  }

  /** What an event sends after any messages: nothing for a handle without a sender, and otherwise one
      request to each receiver that is registered for the handle's current sender identity, in the order
      of the list, which is the newest first. The two lists stay as they are. */
  lemma FireTells(ms: seq<Message>, handle: nat, value: uint32)
    requires AllTyped(ms)
    ensures var h, senders, receivers := Run(ms), Current(SenderRegs(ms)), Current(ReceiverRegs(ms));
            var sent := Fire(h.senders, h.receivers, handle, value);
            && (ByHandle(handle) !in senders ==> sent == [])
            && (ByHandle(handle) in senders ==>
                  var sender := senders[ByHandle(handle)].sendIdentity;
                  Told(sent, sender, receivers, value) && InOrder(sent, h.receivers, sender))
            && Step(h, SendEvent(handle, value)) == h.(sent := h.sent + sent)
  {
    hide Told, InOrder, Requests, Standing;
    ListsAreMaps(ms);
    var i := Find(Run(ms).senders, ByHandle(handle));
    if i < |Run(ms).senders| {
      RequestsTold(Run(ms).receivers, Current(ReceiverRegs(ms)), Run(ms).senders[i].entry.sendIdentity, value);
    }
  }

  /** A node that names no queue has no older one in a list whose nodes all name one. */
  lemma NullAbsent(list: List, node: Node<Entry>)
    requires (forall n :: n in list ==> Live(n.entry)) && !Live(node.entry) && node.entry.Receiver?
    ensures Register(list, node) == list && Superseded(list, node) == []
  {
    DropIsWithout(list, KeyOf(node.entry));
    hide Drop;
    assert forall i :: 0 <= i < |list| ==> Live(list[i].entry);
  }

  /** A receiver that names no sender queue changes nothing: it does not unsubscribe. */
  lemma NullReceiver(ms: seq<Message>, node: Node<Entry>)
    requires AllTyped(ms) && node.entry.Receiver? && !Live(node.entry)
    ensures Step(Run(ms), AddReceiver(node)) == Run(ms).(returned := Run(ms).returned + [node])
  {
    ListsAreMaps(ms);
    var h := Run(ms);
    hide Run, Register, Superseded, Live, Standing, Represents;
    assert forall n :: n in h.receivers ==> n in h.senders + h.receivers;
    NullAbsent(h.receivers, node);
    NullBack(node);
    assert h.freed + [] == h.freed;
  }

  lemma NullBack(node: Node<Entry>)
    requires !Live(node.entry)
    ensures Back(node) == [node]
  {
  }

  /** The number in a request is the receiver's own exactly when it fits in 15 bits. Otherwise it is the one
      signed number of 16 bits that is the same modulo 2^16. */
  lemma OwnMsgId(msgId: uint32)
    ensures Int16(msgId) == msgId <==> msgId < 0x8000
    ensures -0x8000 <= Int16(msgId) < 0x8000 && (msgId - Int16(msgId)) % 0x1_0000 == 0
  {
  }

  // ---------------------------------------------------------------- ownership

  function Submitted(ms: seq<Message>): List {
    if ms == [] then []
    else
      var rest, m := Submitted(ms[..|ms| - 1]), ms[|ms| - 1];
      if m.AddSender? || m.AddReceiver? then rest + [m.node] else rest
  }

  function Owned(h: Hub): multiset<Node<Entry>> {
    multiset(h.senders) + multiset(h.receivers) + multiset(h.freed) + multiset(h.returned)
  }

  lemma RegisterConserves(list: List, node: Node<Entry>)
    ensures multiset(Register(list, node)) + multiset(Superseded(list, node)) + multiset(Back(node)) ==
            multiset(list) + multiset{node}
  {
    hide Find, Drop;
    var i := Find(list, KeyOf(node.entry));
    DropIsWithout(list, KeyOf(node.entry));
    if i < |list| {
      assert list == list[..i] + [list[i]] + list[i + 1..];
    }
  }

  lemma Balance(list: List, more: List, freed: List, gone: List, returned: List, back: List, node: Node<Entry>)
    requires multiset(more) + multiset(gone) + multiset(back) == multiset(list) + multiset{node}
    ensures multiset(more) + multiset(freed + gone) + multiset(returned + back) ==
            multiset(list) + multiset(freed) + multiset(returned) + multiset{node}
  {
    assert multiset(freed + gone) == multiset(freed) + multiset(gone);
    assert multiset(returned + back) == multiset(returned) + multiset(back);
    assert multiset(more) + multiset(freed + gone) + multiset(returned + back) ==
           (multiset(more) + multiset(gone) + multiset(back)) + multiset(freed) + multiset(returned);
  }

  /** What is owned, seen from one of the lists. */
  lemma OwnedAround(h: Hub, list: List, other: List)
    requires (list == h.senders && other == h.receivers) || (list == h.receivers && other == h.senders)
    ensures Owned(h) == multiset(other) + (multiset(list) + multiset(h.freed) + multiset(h.returned))
  {
  }

  lemma StepOwns(h: Hub, m: Message, list: List, other: List)
    requires h.Typed() && WellTyped(m)
    requires (m.AddSender? && list == h.senders && other == h.receivers) ||
             (m.AddReceiver? && list == h.receivers && other == h.senders)
    ensures Owned(Step(h, m)) ==
            multiset(other) + (multiset(Register(list, m.node)) + multiset(h.freed + Superseded(list, m.node))
                               + multiset(h.returned + Back(m.node)))
  {
    hide Register, Superseded, Back, Fire, Owned;
    OwnedAround(Step(h, m), Register(list, m.node), other);
  }

  lemma StepConserves(h: Hub, m: Message)
    requires h.Typed() && WellTyped(m)
    ensures Owned(Step(h, m)) == Owned(h) + if m.AddSender? || m.AddReceiver? then multiset{m.node} else multiset{}
  {
    if m.AddSender? || m.AddReceiver? {
      hide Step, Register, Superseded, Back, Owned;
      var list := if m.AddSender? then h.senders else h.receivers;
      var other := if m.AddSender? then h.receivers else h.senders;
      RegisterConserves(list, m.node);
      Balance(list, Register(list, m.node), h.freed, Superseded(list, m.node), h.returned, Back(m.node), m.node);
      StepOwns(h, m, list, other);
      OwnedAround(h, list, other);
    }
  }

  /** Every node submitted is in one place: in one of the lists, freed, or left to the framework. */
  lemma {:induction false} NodesConserved(ms: seq<Message>)
    requires AllTyped(ms)
    ensures Owned(Run(ms)) == multiset(Submitted(ms))
  {
    hide Owned, Step;
    if ms == [] {
      NoneOwned();
    } else {
      NodesConserved(ms[..|ms| - 1]);
      StepConserves(Run(ms[..|ms| - 1]), ms[|ms| - 1]);
    }
  }

  lemma NoneOwned()
    ensures Owned(Hub([], [], [], [], [])) == multiset{}
  {
  }

  lemma {:induction false} DistinctCounts(s: List)
    requires Distinct(s)
    ensures forall n :: multiset(s)[n] <= 1
  {
    if s == [] {
    } else {
      DistinctCounts(s[1..]);
      assert s == [s[0]] + s[1..];
      assert s[0] !in s[1..];
    }
  }

  lemma CountsDistinct(s: List)
    requires forall n :: multiset(s)[n] <= 1
    ensures Distinct(s)
  {
    forall i, j | 0 <= i < j < |s| ensures s[i] != s[j] {
      var a, b := s[..j], s[j..];
      assert s == a + b && a[i] in a && b[0] in b;
      assert multiset(s)[s[i]] == multiset(a)[s[i]] + multiset(b)[s[i]];
    }
  }

  /** Every node in its place: linked in one of the lists, freed by the hub, or left to the framework. */
  function Places(h: Hub): List {
    h.senders + h.receivers + h.freed + h.returned
  }

  lemma PlacesOwn(h: Hub)
    ensures multiset(Places(h)) == Owned(h)
  {
  }

  /** A step finds one place for its node and leaves every node in one place, when its node has not been
      submitted before. */
  lemma StepKeepsPlaces(h: Hub, m: Message)
    requires h.Typed() && WellTyped(m) && Distinct(Places(h))
    requires m.AddSender? || m.AddReceiver? ==> m.node !in Places(h)
    ensures Distinct(Places(Step(h, m)))
    ensures forall n :: n in Places(Step(h, m)) <==> n in Places(h) || ((m.AddSender? || m.AddReceiver?) && n == m.node)
  {
    hide Distinct, Step, Places, Owned;
    var before, after := Places(h), Places(Step(h, m));
    StepConserves(h, m);
    PlacesOwn(h);
    PlacesOwn(Step(h, m));
    DistinctCounts(before);
    assert multiset(after) == multiset(before) + if m.AddSender? || m.AddReceiver? then multiset{m.node} else multiset{};
    assert forall n :: n in after <==> n in multiset(after);
    assert forall n :: n in before <==> n in multiset(before);
    CountsDistinct(after);
  }

  /** When no node is submitted twice, no node is in two places or twice in one: none is freed twice,
      and none is freed that is still linked. The hub frees live nodes, the framework the others. */
  lemma OwnedOnce(ms: seq<Message>)
    requires AllTyped(ms) && Distinct(Submitted(ms))
    ensures Distinct(Places(Run(ms)))
  {
    hide Run, Submitted, Distinct;
    NodesConserved(ms);
    PlacesOwn(Run(ms));
    DistinctCounts(Submitted(ms));
    CountsDistinct(Places(Run(ms)));
  }

  lemma StepFrees(h: Hub, m: Message)
    requires h.Typed() && WellTyped(m)
    ensures forall n :: n in Step(h, m).freed ==> n in h.freed || n in h.senders + h.receivers
    ensures forall n :: n in Step(h, m).returned ==> n in h.returned || !Live(n.entry)
  {
    hide Find, Register, Fire;
  }

  /** What a registration frees was registered for the same handle, or for the same pair. */
  lemma FreedAlike(h: Hub, m: Message)
    requires h.Typed() && WellTyped(m)
    ensures forall n :: n in Step(h, m).freed ==>
              || n in h.freed
              || (m.AddSender? && n.entry.Sender? && n.entry.handle == m.node.entry.handle)
              || (m.AddReceiver? && n.entry.Receiver? && n.entry.recvIdentity == m.node.entry.recvIdentity
                  && n.entry.sendIdentity == m.node.entry.sendIdentity)
  {
    hide Register, Fire, Back;
  }

  /** The hub frees nodes that name a queue, and leaves to the framework those that do not. */
  lemma {:induction false} FreedBy(ms: seq<Message>)
    requires AllTyped(ms)
    ensures forall n :: n in Run(ms).freed ==> Live(n.entry)
    ensures forall n :: n in Run(ms).returned ==> !Live(n.entry)
  {
    hide Live, Step;
    if ms == [] {
    } else {
      var rest := ms[..|ms| - 1];
      FreedBy(rest);
      ListsAreMaps(rest);
      StepFrees(Run(rest), ms[|ms| - 1]);
    }
  }
}
