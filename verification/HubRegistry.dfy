/** What the hub knows and sends, said with the fields of the messages that it has been given: the last
    registration of a sender handle, or of a pair of receiver and sender, is the one that counts. */
module HubRegistry {
  import opened Common
  import opened Wire
  import opened UtilsList
  import opened EventHub

  /** The sender of a handle: the identity in the last registration of the handle, if that names a queue. */
  function SenderOf(ms: seq<Message>, handle: nat): Option<Identity>
    requires AllTyped(ms)
  {
    if ms == [] then None
    else
      var m := ms[|ms| - 1];
      if m.AddSender? && m.node.entry.handle == handle then
        var id := m.node.entry.sendIdentity;
        if id.queueId != 0 then Some(id) else None
      else SenderOf(ms[..|ms| - 1], handle)
  }

  /** The message number that a receiver has registered for a sender, in its last registration that names a
      sender queue. */
  function NumberOf(ms: seq<Message>, receiver: Identity, sender: Identity): Option<uint32>
    requires AllTyped(ms)
  {
    if ms == [] || sender.queueId == 0 then None
    else
      var m := ms[|ms| - 1];
      if m.AddReceiver? && m.node.entry.recvIdentity == receiver && m.node.entry.sendIdentity == sender
      then Some(m.node.entry.msgId)
      else NumberOf(ms[..|ms| - 1], receiver, sender)
  }

  /** When that was: the place of the message in the history. */
  function WhenOf(ms: seq<Message>, receiver: Identity, sender: Identity): nat
    requires AllTyped(ms)
  {
    if ms == [] then 0
    else
      var m := ms[|ms| - 1];
      if m.AddReceiver? && m.node.entry.recvIdentity == receiver && m.node.entry.sendIdentity == sender
      then |ms|
      else WhenOf(ms[..|ms| - 1], receiver, sender)
  }

  // ---------------------------------------------------------------- the maps

  lemma CurrentStep(regs: List, node: Node<Entry>)
    ensures var m, e := Current(regs), node.entry;
            Current(regs + [node]) == if Live(e) then m[KeyOf(e) := e] else m - {KeyOf(e)}
  {
    assert (regs + [node])[..|regs|] == regs;
  }

  lemma {:induction false} SenderInMap(ms: seq<Message>, handle: nat)
    requires AllTyped(ms)
    ensures var m, key := Current(SenderRegs(ms)), ByHandle(handle);
            && SenderOf(ms, handle) == (if key in m then Some(m[key].sendIdentity) else None)
            && (key in m ==> m[key].Sender? && m[key].handle == handle)
  {
    if ms == [] {
    } else {
      var front, last := ms[..|ms| - 1], ms[|ms| - 1];
      SenderInMap(front, handle);
      if last.AddSender? {
        CurrentStep(SenderRegs(front), last.node);
      }
      hide Current;
    }
  }

  lemma {:induction false} NumberInMap(ms: seq<Message>, receiver: Identity, sender: Identity)
    requires AllTyped(ms)
    ensures var m, key := Current(ReceiverRegs(ms)), ByPair(receiver, sender);
            && (NumberOf(ms, receiver, sender).Some? <==> key in m)
            && (key in m ==> m[key] == Receiver(sender, receiver, NumberOf(ms, receiver, sender).value))
  {
    if ms == [] {
    } else {
      var front, last := ms[..|ms| - 1], ms[|ms| - 1];
      NumberInMap(front, receiver, sender);
      if last.AddReceiver? {
        CurrentStep(ReceiverRegs(front), last.node);
      }
      hide Current;
    }
  }

  // ---------------------------------------------------------------- what the lists hold

  /** One node for each handle that has a sender, with its identity, and no other nodes. */
  ghost predicate SendersAre(ms: seq<Message>, list: List)
    requires AllTyped(ms)
  {
    && (forall i :: 0 <= i < |list| ==>
          var e := list[i].entry; e.Sender? && SenderOf(ms, e.handle) == Some(e.sendIdentity))
    && (forall i, j :: 0 <= i < j < |list| ==>
          list[i].entry.Sender? && list[j].entry.Sender? && list[i].entry.handle != list[j].entry.handle)
    && (forall handle :: SenderOf(ms, handle).Some? ==>
          exists i :: 0 <= i < |list| && list[i].entry.Sender? && list[i].entry.handle == handle)
  }

  /** One node for each pair that is registered, with its message number, and no other nodes. */
  ghost predicate ReceiversAre(ms: seq<Message>, list: List)
    requires AllTyped(ms)
  {
    && (forall i :: 0 <= i < |list| ==>
          var e := list[i].entry;
          e.Receiver? && NumberOf(ms, e.recvIdentity, e.sendIdentity) == Some(e.msgId))
    && (forall i, j :: 0 <= i < j < |list| ==>
          var a, b := list[i].entry, list[j].entry;
          a.Receiver? && b.Receiver? && (a.recvIdentity != b.recvIdentity || a.sendIdentity != b.sendIdentity))
    && (forall receiver, sender :: NumberOf(ms, receiver, sender).Some? ==>
          exists i :: 0 <= i < |list| && IsPair(list[i].entry, receiver, sender))
  }

  predicate IsPair(e: Entry, receiver: Identity, sender: Identity) {
    e.Receiver? && e.recvIdentity == receiver && e.sendIdentity == sender
  }

  lemma InMap(list: List, m: map<Key, Entry>, i: nat)
    requires Represents(list, m) && i < |list|
    ensures KeyOf(list[i].entry) in m && m[KeyOf(list[i].entry)] == list[i].entry
  {
    FindThis(list, i);
  }

  lemma SendersByFields(ms: seq<Message>)
    requires AllTyped(ms)
    ensures SendersAre(ms, Run(ms).senders)
  {
    ListsAreMaps(ms);
    var list, m := Run(ms).senders, Current(SenderRegs(ms));
    forall i | 0 <= i < |list|
      ensures var e := list[i].entry; e.Sender? && SenderOf(ms, e.handle) == Some(e.sendIdentity)
    {
      InMap(list, m, i);
      SenderInMap(ms, list[i].entry.handle);
    }
    forall handle | SenderOf(ms, handle).Some?
      ensures exists i :: 0 <= i < |list| && list[i].entry.Sender? && list[i].entry.handle == handle
    {
      SenderInMap(ms, handle);
      assert ByHandle(handle) in m;
      var i := Find(list, ByHandle(handle));
      assert list[i].entry == m[ByHandle(handle)];
    }
    hide Run, Standing, Current, SenderOf, Find;
  }

  lemma ReceiversByFields(ms: seq<Message>)
    requires AllTyped(ms)
    ensures ReceiversAre(ms, Run(ms).receivers)
  {
    ListsAreMaps(ms);
    var list, m := Run(ms).receivers, Current(ReceiverRegs(ms));
    forall i | 0 <= i < |list|
      ensures var e := list[i].entry;
              e.Receiver? && NumberOf(ms, e.recvIdentity, e.sendIdentity) == Some(e.msgId)
    {
      InMap(list, m, i);
      NumberInMap(ms, list[i].entry.recvIdentity, list[i].entry.sendIdentity);
    }
    forall receiver, sender | NumberOf(ms, receiver, sender).Some?
      ensures exists i :: 0 <= i < |list| && IsPair(list[i].entry, receiver, sender)
    {
      NumberInMap(ms, receiver, sender);
      var i := Find(list, ByPair(receiver, sender));
      assert list[i].entry == m[ByPair(receiver, sender)];
    }
    hide Run, Standing, Current, NumberOf, Find;
  }

  /** The registries, after any messages. */
  lemma ListsByFields(ms: seq<Message>)
    requires AllTyped(ms)
    ensures SendersAre(ms, Run(ms).senders) && ReceiversAre(ms, Run(ms).receivers)
  {
    SendersByFields(ms);
    ReceiversByFields(ms);
  }

  // ---------------------------------------------------------------- what an event sends

  /** The requests go to the receivers that are registered for the sender and to no others, to each of them
      one, with its number, the latest registration first. */
  ghost predicate SentTo(ms: seq<Message>, sender: Identity, value: uint32, sent: seq<Sent>)
    requires AllTyped(ms)
  {
    && (forall i :: 0 <= i < |sent| ==>
          var number := NumberOf(ms, sent[i].to, sender);
          number.Some? && sent[i] == Sent(sent[i].to, Int16(number.value), value))
    && (forall receiver :: NumberOf(ms, receiver, sender).Some? ==>
          exists i :: 0 <= i < |sent| && sent[i].to == receiver)
    && (forall i, j :: 0 <= i < j < |sent| ==>
          WhenOf(ms, sent[i].to, sender) > WhenOf(ms, sent[j].to, sender))
  }

  lemma ToldIsSent(ms: seq<Message>, sender: Identity, value: uint32, sent: seq<Sent>)
    requires AllTyped(ms) && Told(sent, sender, Current(ReceiverRegs(ms)), value)
    ensures forall i :: 0 <= i < |sent| ==>
              var number := NumberOf(ms, sent[i].to, sender);
              number.Some? && sent[i] == Sent(sent[i].to, Int16(number.value), value)
    ensures forall receiver :: NumberOf(ms, receiver, sender).Some? ==>
              exists i :: 0 <= i < |sent| && sent[i].to == receiver
  {
    var m := Current(ReceiverRegs(ms));
    forall i | 0 <= i < |sent|
      ensures var number := NumberOf(ms, sent[i].to, sender);
              number.Some? && sent[i] == Sent(sent[i].to, Int16(number.value), value)
    {
      assert ToldOne(sent[i], sender, m, value);
      NumberInMap(ms, sent[i].to, sender);
    }
    forall receiver | NumberOf(ms, receiver, sender).Some?
      ensures exists i :: 0 <= i < |sent| && sent[i].to == receiver
    {
      NumberInMap(ms, receiver, sender);
      assert ByPair(receiver, sender) in m;
    }
  }

  /** When the registration of this entry was handled. */
  function WhenEntry(ms: seq<Message>, e: Entry): nat
    requires AllTyped(ms)
  {
    if e.Receiver? then WhenOf(ms, e.recvIdentity, e.sendIdentity) else 0
  }

  /** The later a receiver was registered, the further in front it is. */
  ghost predicate NewestFirst(ms: seq<Message>, list: List)
    requires AllTyped(ms)
  {
    && (forall i :: 0 <= i < |list| ==> WhenEntry(ms, list[i].entry) <= |ms|)
    && (forall i, j :: 0 <= i < j < |list| ==> WhenEntry(ms, list[i].entry) > WhenEntry(ms, list[j].entry))
  }

  lemma WhenStep(ms: seq<Message>, e: Entry)
    requires AllTyped(ms) && ms != [] && e.Receiver?
    ensures var m := ms[|ms| - 1];
            WhenEntry(ms, e) ==
            if m.AddReceiver? && KeyOf(m.node.entry) == KeyOf(e) then |ms| else WhenEntry(ms[..|ms| - 1], e)
  {
  }

  lemma DropNewest(ms: seq<Message>, list: List, key: Key)
    requires AllTyped(ms) && NewestFirst(ms, list)
    ensures NewestFirst(ms, Drop(list, key))
  {
    DropIsWithout(list, key);
    hide Drop, WhenEntry, Find;
  }

  /** An entry whose key is not the one of the last message was registered before it. */
  lemma StaysNewest(ms: seq<Message>, list: List)
    requires AllTyped(ms) && ms != [] && AllReceivers(list) && NewestFirst(ms[..|ms| - 1], list)
    requires ms[|ms| - 1].AddReceiver? ==> Absent(list, KeyOf(ms[|ms| - 1].node.entry))
    ensures NewestFirst(ms, list)
    ensures forall i :: 0 <= i < |list| ==> WhenEntry(ms, list[i].entry) < |ms|
  {
    forall i | 0 <= i < |list| ensures WhenEntry(ms, list[i].entry) == WhenEntry(ms[..|ms| - 1], list[i].entry) {
      WhenStep(ms, list[i].entry);
    }
    hide WhenEntry;
  }

  lemma FrontNewest(ms: seq<Message>, node: Node<Entry>, list: List)
    requires AllTyped(ms) && NewestFirst(ms, list) && WhenEntry(ms, node.entry) == |ms|
    requires forall i :: 0 <= i < |list| ==> WhenEntry(ms, list[i].entry) < |ms|
    ensures NewestFirst(ms, [node] + list)
  {
    hide WhenEntry;
  }

  lemma DropLeavesAbsent(list: List, key: Key)
    requires UniqueKeys(list)
    ensures Absent(Drop(list, key), key)
  {
    DropKeepsUnique(list, key);
    FindDrop(list, key, key);
    hide Drop, UniqueKeys;
  }

  lemma {:induction false} ReceiversNewest(ms: seq<Message>)
    requires AllTyped(ms)
    ensures NewestFirst(ms, Run(ms).receivers)
  {
    if ms == [] {
    } else {
      var front, m := ms[..|ms| - 1], ms[|ms| - 1];
      var list := Run(front).receivers;
      ReceiversNewest(front);
      ListsAreMaps(front);
      StepRegisters(Run(front), m);
      if m.AddReceiver? {
        var key := KeyOf(m.node.entry);
        DropNewest(front, list, key);
        DropLeavesAbsent(list, key);
        StaysNewest(ms, Drop(list, key));
        WhenStep(ms, m.node.entry);
        hide Drop, NewestFirst, WhenEntry, Step, Standing, Represents;
        if Live(m.node.entry) {
          FrontNewest(ms, m.node, Drop(list, key));
        }
      } else {
        StaysNewest(ms, list);
        hide Drop, NewestFirst, WhenEntry, Step, Standing, Represents;
      }
    }
  }

  lemma SentNewest(ms: seq<Message>, sender: Identity, sent: seq<Sent>, i: nat, j: nat)
    requires AllTyped(ms) && InOrder(sent, Run(ms).receivers, sender) && i < j < |sent|
    requires NumberOf(ms, sent[i].to, sender).Some? && NumberOf(ms, sent[j].to, sender).Some?
    ensures WhenOf(ms, sent[i].to, sender) > WhenOf(ms, sent[j].to, sender)
  {
    ListsAreMaps(ms);
    ReceiversNewest(ms);
    NumberInMap(ms, sent[i].to, sender);
    NumberInMap(ms, sent[j].to, sender);
    var list, m := Run(ms).receivers, Current(ReceiverRegs(ms));
    var p, q := Find(list, ByPair(sent[i].to, sender)), Find(list, ByPair(sent[j].to, sender));
    assert list[p].entry == m[ByPair(sent[i].to, sender)] && list[q].entry == m[ByPair(sent[j].to, sender)];
    hide Run, Current, NumberOf, WhenOf, Standing, Find;
    assert p < q && WhenEntry(ms, list[p].entry) > WhenEntry(ms, list[q].entry);
  }

  lemma ToldInOrder(ms: seq<Message>, sender: Identity, value: uint32, sent: seq<Sent>)
    requires AllTyped(ms) && Told(sent, sender, Current(ReceiverRegs(ms)), value)
    requires InOrder(sent, Run(ms).receivers, sender)
    ensures SentTo(ms, sender, value, sent)
  {
    hide Run, Current, Told, InOrder, NumberOf, WhenOf;
    ToldIsSent(ms, sender, value, sent);
    forall i, j | 0 <= i < j < |sent| ensures WhenOf(ms, sent[i].to, sender) > WhenOf(ms, sent[j].to, sender) {
      SentNewest(ms, sender, sent, i, j);
    }
  }

  /** What an event sends after any messages: nothing when its handle has no sender, and otherwise what the
      receivers that are registered for that sender are to get. The registries stay as they are. */
  lemma FireByFields(ms: seq<Message>, handle: nat, value: uint32)
    requires AllTyped(ms)
    ensures var h := Run(ms);
            var sent := Fire(h.senders, h.receivers, handle, value);
            && Step(h, SendEvent(handle, value)) == h.(sent := h.sent + sent)
            && (SenderOf(ms, handle).None? ==> sent == [])
            && (SenderOf(ms, handle).Some? ==> SentTo(ms, SenderOf(ms, handle).value, value, sent))
  {
    hide Run, Step, Fire, SenderOf, Current, Told, InOrder, SentTo;
    FireTells(ms, handle, value);
    SenderInMap(ms, handle);
    if SenderOf(ms, handle).Some? {
      ToldInOrder(ms, SenderOf(ms, handle).value, value, Fire(Run(ms).senders, Run(ms).receivers, handle, value));
    }
  }
}
