/** The event hub as a service: the two rings of nodes, changed in place as requests come in, and the calls
    that produce those requests. The ghost fields hold the sequences that the rings stand for and the
    history that the theory in EventHub talks about. */
module EventHubServices {
  import opened Common
  import opened UtilsList
  import opened EventHub

  const EVENT_HUB_MSG_ADD_SENDER := 0
  const EVENT_HUB_MSG_ADD_RECEIVER := 1
  const EVENT_HUB_MSG_SEND_EVENT := 2

  /** The sizes of the two node structures; all that matters is that they are positive. */
  const SENDER_NODE_SIZE := 40
  const RECEIVER_NODE_SIZE := 48

  /** What the `data` pointer of a request points to. */
  datatype Data = Handle(handle: nat) | Block(node: Node<Entry>)

  class Request {
    const msgId: int
    var len: int
    const data: Data
    const msgValue: uint32

    constructor (msgId: int, len: int, data: Data, msgValue: uint32)
      ensures this.msgId == msgId && this.len == len && this.data == data && this.msgValue == msgValue
    {
      this.msgId, this.len, this.data, this.msgValue := msgId, len, data, msgValue;
    }

    /** The data is what the number says it is. */
    predicate Valid() {
      && (msgId == EVENT_HUB_MSG_ADD_SENDER ==> data.Block? && data.node.entry.Sender?)
      && (msgId == EVENT_HUB_MSG_ADD_RECEIVER ==> data.Block? && data.node.entry.Receiver?)
      && (msgId == EVENT_HUB_MSG_SEND_EVENT ==> data.Handle?)
    }

    function Meaning(): (m: Message)
      requires Valid()
      ensures WellTyped(m)
    {
      if msgId == EVENT_HUB_MSG_ADD_SENDER then AddSender(data.node)
      else if msgId == EVENT_HUB_MSG_ADD_RECEIVER then AddReceiver(data.node)
      else if msgId == EVENT_HUB_MSG_SEND_EVENT then SendEvent(data.handle, msgValue)
      else Other
    }
  }

  /** Walking a list: what is behind its head, and behind its `j`-th node. */
  lemma Begin(head: Node<Entry>, list: List)
    requires Ring([head] + list)
    ensures head.pstNext == if |list| > 0 then list[0] else head
    ensures |list| > 0 ==> list[0] != head
  {
    NextAt([head] + list, 0);
  }

  lemma Onward(head: Node<Entry>, list: List, j: nat)
    requires Ring([head] + list) && j < |list|
    ensures list[j].pstNext == if j + 1 < |list| then list[j + 1] else head
    ensures j + 1 < |list| ==> list[j + 1] != head
  {
    var ring := [head] + list;
    NextAt(ring, j + 1);
    assert ring[j + 1] == list[j];
  }

  /** The search of the loops over a list: the first node with the key, or the head of the list. */
  method FindNode(head: Node<Entry>, key: Key, ghost list: List) returns (item: Node<Entry>)
    requires Ring([head] + list)
    ensures item == if Find(list, key) < |list| then list[Find(list, key)] else head
    ensures item == head <==> Find(list, key) == |list|
  {
    hide Ring;
    Begin(head, list);
    ghost var j := 0;
    item := head.pstNext;
    while item != head
      invariant j <= |list| && item == (if j < |list| then list[j] else head)
      invariant j < |list| ==> list[j] != head
      invariant forall i :: 0 <= i < j ==> KeyOf(list[i].entry) != key
      decreases |list| - j
    {
      if KeyOf(item.entry) == key {
        break;
      }
      Onward(head, list, j);
      item := item.pstNext;
      j := j + 1;
    }
  }

  lemma DropInRing(head: Node<Entry>, list: List, key: Key)
    ensures var i, ring := Find(list, key), [head] + list;
            && (i < |list| ==> ring[i + 1] == list[i] && [head] + Drop(list, key) == Without(ring, i + 1))
            && (i == |list| ==> Drop(list, key) == list)
    ensures forall n :: n in [head] + list ==> n == head || n in list
  {
    hide Drop, Find;
    DropIsWithout(list, key);
    var i, ring := Find(list, key), [head] + list;
    if i < |list| {
      assert [head] + Without(list, i) == Without(ring, i + 1);
    }
  }

  /** Deletes and frees the first node with the key, if there is one. `gone` is what it has freed. */
  method DeleteOld(head: Node<Entry>, key: Key, ghost list: List) returns (ghost gone: List)
    requires Ring([head] + list)
    modifies head, list
    ensures Ring([head] + Drop(list, key))
    ensures gone == if Find(list, key) < |list| then [list[Find(list, key)]] else []
  {
    hide Ring, Drop, Find, Without;
    gone := [];
    var item := FindNode(head, key, list);
    DropInRing(head, list, key);
    if item != head {
      ghost var ring, k := [head] + list, Find(list, key) + 1;
      NextAt(ring, k);
      DeleteAt(item, ring, k);
      gone := [item];
    }
  }

  /** Takes the older node with the same key out of the ring, and links the new one unless it names no
      queue. The reply says whether the hub keeps the node; `gone` is what the hub has freed. */
  method UpdateNode(head: Node<Entry>, node: Node<Entry>, ghost list: List)
      returns (nodeRefered: bool, ghost gone: List)
    requires Ring([head] + list) && node !in [head] + list
    modifies head, list, node
    ensures Ring([head] + Register(list, node))
    ensures nodeRefered == Live(node.entry) && gone == Superseded(list, node)
  {
    hide Ring, Drop;
    ghost var rest := Drop(list, KeyOf(node.entry));
    DropKeeps(list, KeyOf(node.entry));
    gone := DeleteOld(head, KeyOf(node.entry), list);
    if node.entry.sendIdentity.queueId != 0 {
      ghost var ring := [head] + rest;
      assert node !in ring && Ring(ring);
      UtilsListInit(node);
      NextAt(ring, 0);
      UtilsListAdd(head, node, ring);
      assert [head, node] + ring[1..] == [head] + ([node] + rest);
      nodeRefered := true;
    } else {
      nodeRefered := false;
    }
  }

  lemma {:induction false} DropKeeps(list: List, key: Key)
    ensures forall n :: n in Drop(list, key) ==> n in list
  {
    if list == [] {
    } else {
      DropKeeps(list[1..], key);
    }
  }

  ghost predicate Apart(a: List, b: List) {
    forall n :: n in a ==> n !in b
  }

  /** A registration in one list leaves it apart from the other, and what it touches is not there. */
  lemma RegisterApart(head: Node<Entry>, list: List, node: Node<Entry>, other: List)
    requires Apart([head] + list, other) || Apart(other, [head] + list)
    requires node !in other
    ensures Apart([head] + Register(list, node), other) && Apart(other, [head] + Register(list, node))
    ensures forall n :: n in other ==> n != head && n !in list && n != node
  {
    hide Drop;
    DropKeeps(list, KeyOf(node.entry));
    assert forall n :: n in list ==> n in [head] + list;
    assert head in [head] + list;
    forall n | n in [head] + Register(list, node) ensures n !in other {
      assert n == head || n == node || n in list;
    }
  }

  /** The same, beside the other ring, which it does not touch. */
  method UpdateBeside(head: Node<Entry>, node: Node<Entry>, ghost list: List, ghost other: List)
      returns (nodeRefered: bool, ghost gone: List)
    requires Ring([head] + list) && Ring(other) && node !in [head] + list && node !in other
    requires Apart([head] + list, other) || Apart(other, [head] + list)
    modifies head, list, node
    ensures Ring([head] + Register(list, node)) && Ring(other)
    ensures Apart([head] + Register(list, node), other) && Apart(other, [head] + Register(list, node))
    ensures nodeRefered == Live(node.entry) && gone == Superseded(list, node)
  {
    RegisterApart(head, list, node, other);
    hide Ring, Register, Superseded, Apart;
    nodeRefered, gone := UpdateNode(head, node, list);
    assert forall n :: n in other ==> n.pstNext == old(n.pstNext) && n.pstPrev == old(n.pstPrev);
    assert Ring(other);
  }

  /** A registration, as a change of the hub's state. */
  lemma StepAdds(h: Hub, node: Node<Entry>)
    requires h.Typed()
    ensures var back := if Live(node.entry) then [] else [node];
            && (node.entry.Sender? ==>
                  Step(h, AddSender(node)) ==
                  h.(senders := Register(h.senders, node), freed := h.freed + Superseded(h.senders, node),
                     returned := h.returned + back))
            && (node.entry.Receiver? ==>
                  Step(h, AddReceiver(node)) ==
                  h.(receivers := Register(h.receivers, node), freed := h.freed + Superseded(h.receivers, node),
                     returned := h.returned + back))
  {
    hide Register, Superseded, Live;
  }

  lemma RequestsStep(list: List, j: nat, sender: Identity, value: uint32)
    requires AllReceivers(list) && j < |list|
    ensures var e, rest := list[j].entry, Requests(list[j + 1..], sender, value);
            Requests(list[j..], sender, value) ==
            if e.sendIdentity == sender then [Sent(e.recvIdentity, Int16(e.msgId), value)] + rest else rest
  {
    hide Int16;
    assert list[j..][1..] == list[j + 1..];
  }

  lemma RequestsEnd(list: List, j: nat, sender: Identity, value: uint32)
    requires AllReceivers(list) && j == |list|
    ensures Requests(list[j..], sender, value) == []
  {
  }

  class EventHubService {
    var identity: Identity
    const senderList: Node<Entry>
    const receiverList: Node<Entry>
    /** What the hub has passed to SAMGR_SendRequest. */
    var sent: seq<Sent>
    ghost var senders: List
    ghost var receivers: List
    ghost var freed: List
    ghost var returned: List

    /** The heads are embedded in the service; their own content is never looked at. */
    constructor ()
      ensures senderList != receiverList && fresh(senderList) && fresh(receiverList)
    {
      senderList := new Node(Sender(0, Identity(0, 0, 0)));
      receiverList := new Node(Sender(0, Identity(0, 0, 0)));
    }

    ghost function SenderRing(): List
      reads this
    {
      [senderList] + senders
    }

    ghost function ReceiverRing(): List
      reads this
    {
      [receiverList] + receivers
    }

    /** The state that the theory of EventHub talks about. */
    ghost function State(): Hub
      reads this
    {
      Hub(senders, receivers, freed, returned, sent)
    }

    ghost predicate Valid()
      reads this, SenderRing(), ReceiverRing()
    {
      && Ring(SenderRing()) && Ring(ReceiverRing())
      && Apart(SenderRing(), ReceiverRing()) && State().Typed()
    }

    method Initialize(identity: Identity)
      requires senderList != receiverList
      modifies this, senderList, receiverList
      ensures Valid() && State() == Run([]) && this.identity == identity
    {
      this.identity := identity;
      UtilsListInit(senderList);
      UtilsListInit(receiverList);
      sent, senders, receivers, freed, returned := [], [], [], [], [];
      assert SenderRing() == [senderList] && ReceiverRing() == [receiverList];
    }

    /** Links or drops the node of a sender; see UpdateNode. */
    method EventHub_UpdateSenderNode(node: Node<Entry>) returns (nodeRefered: bool)
      requires Valid() && node.entry.Sender? && node !in SenderRing() && node !in ReceiverRing()
      modifies this, senderList, senders, node
      ensures Valid() && nodeRefered == Live(node.entry)
      ensures State() == Step(old(State()), AddSender(node))
    {
      StepAdds(State(), node);
      hide Ring, Register, Superseded, Apart, Step, Live;
      ghost var gone: List;
      nodeRefered, gone := UpdateBeside(senderList, node, senders, ReceiverRing());
      senders := Register(senders, node);
      freed := freed + gone;
      returned := returned + if nodeRefered then [] else [node];
    }

    /** The same for a receiver. */
    method EventHub_UpdateReceiverNode(node: Node<Entry>) returns (nodeRefered: bool)
      requires Valid() && node.entry.Receiver? && node !in SenderRing() && node !in ReceiverRing()
      modifies this, receiverList, receivers, node
      ensures Valid() && nodeRefered == Live(node.entry)
      ensures State() == Step(old(State()), AddReceiver(node))
    {
      StepAdds(State(), node);
      hide Ring, Register, Superseded, Apart, Step, Live;
      ghost var gone: List;
      nodeRefered, gone := UpdateBeside(receiverList, node, receivers, SenderRing());
      receivers := Register(receivers, node);
      freed := freed + gone;
      returned := returned + if nodeRefered then [] else [node];
    }

    /** The loop over the receivers. */
    method FireReceivers(sender: Identity, value: uint32)
      requires Valid()
      modifies this`sent
      ensures sent == old(sent) + Requests(receivers, sender, value)
    {
      hide Int16, Apart, Ring, Requests;
      Begin(receiverList, receivers);
      assert receivers[0..] == receivers;
      ghost var j := 0;
      var item: Node<Entry> := receiverList.pstNext;
      while item != receiverList
        invariant j <= |receivers| && item == (if j < |receivers| then receivers[j] else receiverList)
        invariant j < |receivers| ==> receivers[j] != receiverList
        invariant sent + Requests(receivers[j..], sender, value) == old(sent) + Requests(receivers, sender, value)
        decreases |receivers| - j
      {
        Onward(receiverList, receivers, j);
        RequestsStep(receivers, j, sender, value);
        if item.entry.sendIdentity == sender {
          sent := sent + [Sent(item.entry.recvIdentity, Int16(item.entry.msgId), value)];
        }
        item := item.pstNext;
        j := j + 1;
      }
      RequestsEnd(receivers, j, sender, value);
    }

    /** Finds the sender of the handle, and sends a request to each receiver of its identity. */
    method EventHub_FireEvents(senderHandle: nat, value: uint32)
      requires Valid()
      modifies this`sent
      ensures Valid()
      ensures State() == Step(old(State()), SendEvent(senderHandle, value))
    {
      hide Ring, Apart, Requests, Find;
      FireNone(senders, senderHandle, value);
      var empty := UtilsListEmpty(receiverList, ReceiverRing());
      if empty {
        assert receivers == [];
        return;
      }
      var sender := FindNode(senderList, ByHandle(senderHandle), senders);
      if sender == senderList {
        return;
      }
      FireReceivers(sender.entry.sendIdentity, value);
    }

    /** Handles a request. Its length is set to zero exactly when the hub has linked its node, which tells
        the framework to leave the node alone. */
    method MessageHandle(msg: Request)
      requires Valid() && msg.Valid()
      requires msg.data.Block? ==> msg.data.node !in SenderRing() && msg.data.node !in ReceiverRing()
      modifies this, senderList, senders, receiverList, receivers, msg`len
      modifies if msg.data.Block? then {msg.data.node} else {}
      ensures Valid() && State() == Step(old(State()), msg.Meaning())
      ensures var m := msg.Meaning();
              msg.len == if (m.AddSender? || m.AddReceiver?) && Live(m.node.entry) then 0 else old(msg.len)
    {
      hide Ring, Apart, Register, Superseded, Fire;
      if msg.msgId == EVENT_HUB_MSG_SEND_EVENT {
        EventHub_FireEvents(msg.data.handle, msg.msgValue);
      } else if msg.msgId == EVENT_HUB_MSG_ADD_SENDER {
        var msgDataRefered := EventHub_UpdateSenderNode(msg.data.node);
        if msgDataRefered {
          msg.len := 0;
        }
      } else if msg.msgId == EVENT_HUB_MSG_ADD_RECEIVER {
        var msgDataRefered := EventHub_UpdateReceiverNode(msg.data.node);
        if msgDataRefered {
          msg.len := 0;
        }
      }
    }

    /** What the framework does with a request: it lets the hub handle it, and frees the data if the length
        is still positive. It frees a node exactly when the hub has left it to the framework. */
    method Deliver(msg: Request) returns (ghost released: List)
      requires Valid() && msg.Valid()
      requires msg.data.Block? ==> msg.data.node !in SenderRing() && msg.data.node !in ReceiverRing()
      requires msg.len > 0 <==> msg.msgId == EVENT_HUB_MSG_ADD_SENDER || msg.msgId == EVENT_HUB_MSG_ADD_RECEIVER
      modifies this, senderList, senders, receiverList, receivers, msg`len
      modifies if msg.data.Block? then {msg.data.node} else {}
      ensures Valid() && State() == Step(old(State()), msg.Meaning())
      ensures returned == old(returned) + released
    {
      hide Ring, Apart, Register, Superseded, Fire;
      MessageHandle(msg);
      released := if msg.len > 0 && msg.data.Block? then [msg.data.node] else [];
    }
  }

  lemma FireNone(senders: List, handle: nat, value: uint32)
    ensures Fire(senders, [], handle, value) == []
  {
  }
}
