/** The calls that other services make: each allocates a node, fills it in and posts a request for it to the
    hub's queue. A null handle means that the hub is not known, and nothing happens. */
module EventHubApi {
  import opened Common
  import opened UtilsList
  import opened EventHub
  import opened EventHubServices

  /** The hub's message queue, as SAMGR_SendRequest fills it. */
  class Mailbox {
    var requests: seq<Request>

    constructor ()
      ensures requests == []
    {
      requests := [];
    }

    method SendRequest(request: Request)
      modifies this
      ensures requests == old(requests) + [request]
    {
      requests := requests + [request];
    }
  }

  /** A request that means `m`, and whose length tells the framework whether there is data to free. */
  ghost predicate Carries(request: Request, m: Message)
    reads request
  {
    request.Valid() && request.Meaning() == m && (request.len > 0 <==> m.AddSender? || m.AddReceiver?)
  }

  /** The hub has never had the node of the request: it is in none of the hub's places. */
  ghost predicate Unowned(hub: EventHubService, r: Request)
    reads hub
  {
    r.data.Block? ==>
      var node := r.data.node;
      node != hub.senderList && node != hub.receiverList && node !in Places(hub.State())
  }

  predicate Different(a: Request, b: Request) {
    a != b && (a.data.Block? && b.data.Block? ==> a.data.node != b.data.node)
  }

  /** Requests that the hub can be served: each carries what its number says, no two share a node, the hub
      has not had any of their nodes, and it has none of its own nodes twice. */
  ghost predicate Queued(hub: EventHubService, requests: seq<Request>)
    reads hub, requests
  {
    && Distinct(Places(hub.State()))
    && (forall i :: 0 <= i < |requests| ==> requests[i].Valid() && Carries(requests[i], requests[i].Meaning()))
    && (forall i :: 0 <= i < |requests| ==> Unowned(hub, requests[i]))
    && (forall i, j :: 0 <= i < j < |requests| ==> Different(requests[i], requests[j]))
  }

  /** The nodes that may come to be linked. */
  ghost function NodesOf(requests: seq<Request>): set<Node<Entry>> {
    set r | r in requests && r.data.Block? :: r.data.node
  }

  /** Posting one more request, with a node of its own as the calls below do, keeps the queue fit to be
      served. */
  lemma PostKeepsQueued(hub: EventHubService, requests: seq<Request>, r: Request)
    requires Queued(hub, requests) && r.Valid() && Carries(r, r.Meaning())
    requires r !in requests && Unowned(hub, r) && (r.data.Block? ==> r.data.node !in NodesOf(requests))
    ensures Queued(hub, requests + [r])
  {
    hide Carries, Unowned, Distinct, Places;
    forall i | 0 <= i < |requests| ensures Different(requests[i], r) {
      assert requests[i] in requests;
    }
  }

  method EventHub_SendEvent(handle: Mailbox?, senderHandle: nat, msgValue: uint32, ghost hub: EventHubService)
    modifies handle
    ensures handle != null ==>
              && |handle.requests| == |old(handle.requests)| + 1
              && handle.requests[..|old(handle.requests)|] == old(handle.requests)
              && var request := handle.requests[|old(handle.requests)|];
                 && fresh(request) && Carries(request, SendEvent(senderHandle, msgValue))
                 && request.msgId == 2 && request.data == Handle(senderHandle) && request.msgValue == msgValue
    ensures handle != null && old(Queued(hub, handle.requests)) ==> Queued(hub, handle.requests)
  {
    if handle == null {
      return;
    }
    var request := new Request(EVENT_HUB_MSG_SEND_EVENT, 0, Handle(senderHandle), msgValue);
    ghost var before := handle.requests;
    handle.SendRequest(request);
    if old(Queued(hub, handle.requests)) {
      PostKeepsQueued(hub, before, request);
    }
  }

  /** Every call posts a node of its own, so that a queue that the hub can be served stays one: no node is
      submitted twice. */
  method EventHub_ListenToEvent(handle: Mailbox?, senderId: Identity, receiverId: Identity, msgId: uint32,
                                ghost hub: EventHubService)
    modifies handle
    ensures handle != null ==>
              && |handle.requests| == |old(handle.requests)| + 1
              && handle.requests[..|old(handle.requests)|] == old(handle.requests)
              && var request := handle.requests[|old(handle.requests)|];
                 && fresh(request) && request.data.Block? && fresh(request.data.node)
                 && request.data.node.entry == Receiver(senderId, receiverId, msgId)
                 && Carries(request, AddReceiver(request.data.node)) && request.msgId == 1
    ensures handle != null && old(Queued(hub, handle.requests)) ==> Queued(hub, handle.requests)
  {
    if handle == null {
      return;
    }
    var node := new Node(Receiver(senderId, receiverId, msgId));
    var request := new Request(EVENT_HUB_MSG_ADD_RECEIVER, RECEIVER_NODE_SIZE, Block(node), 0);
    ghost var before := handle.requests;
    handle.SendRequest(request);
    if old(Queued(hub, handle.requests)) {
      PostKeepsQueued(hub, before, request);
    }
  }

  method EventHub_AddSender(handle: Mailbox?, senderId: Identity, senderHandle: nat, ghost hub: EventHubService)
    modifies handle
    ensures handle != null ==>
              && |handle.requests| == |old(handle.requests)| + 1
              && handle.requests[..|old(handle.requests)|] == old(handle.requests)
              && var request := handle.requests[|old(handle.requests)|];
                 && fresh(request) && request.data.Block? && fresh(request.data.node)
                 && request.data.node.entry == Sender(senderHandle, senderId)
                 && Carries(request, AddSender(request.data.node)) && request.msgId == 0
    ensures handle != null && old(Queued(hub, handle.requests)) ==> Queued(hub, handle.requests)
  {
    if handle == null {
      return;
    }
    var node := new Node(Sender(senderHandle, senderId));
    var request := new Request(EVENT_HUB_MSG_ADD_SENDER, SENDER_NODE_SIZE, Block(node), 0);
    ghost var before := handle.requests;
    handle.SendRequest(request);
    if old(Queued(hub, handle.requests)) {
      PostKeepsQueued(hub, before, request);
    }
  }

  // ---------------------------------------------------------------- serving the queue

  function Meanings(requests: seq<Request>): (ms: seq<Message>)
    requires forall i :: 0 <= i < |requests| ==> requests[i].Valid()
    ensures |ms| == |requests| && AllTyped(ms)
  {
    seq(|requests|, i requires 0 <= i < |requests| => requests[i].Meaning())
  }

  /** Whatever is linked was linked before, or is one of `nodes`. */
  ghost predicate LinkedWithin(h: Hub, before: Hub, nodes: set<Node<Entry>>) {
    && (forall n :: n in h.senders ==> n in before.senders || n in nodes)
    && (forall n :: n in h.receivers ==> n in before.receivers || n in nodes)
  }

  /** A step links no node but its own. */
  lemma StepLinks(h: Hub, m: Message, nodes: set<Node<Entry>>)
    requires h.Typed() && WellTyped(m) && (m.AddSender? || m.AddReceiver? ==> m.node in nodes)
    ensures LinkedWithin(Step(h, m), h, nodes)
  {
    hide Drop, Superseded, Fire, Back;
    if m.AddSender? {
      DropKeeps(h.senders, KeyOf(m.node.entry));
    } else if m.AddReceiver? {
      DropKeeps(h.receivers, KeyOf(m.node.entry));
    }
  }

  /** Requests that wait behind `msg`, at a time when the hub has the nodes `places`. */
  ghost predicate Waiting(hub: EventHubService, places: List, msg: Request, rest: seq<Request>)
    reads rest
  {
    && (forall i :: 0 <= i < |rest| ==> rest[i].Valid() && Carries(rest[i], rest[i].Meaning()))
    && (forall i :: 0 <= i < |rest| ==> Different(msg, rest[i]))
    && (forall i, j :: 0 <= i < j < |rest| ==> Different(rest[i], rest[j]))
    && (forall i :: 0 <= i < |rest| && rest[i].data.Block? ==>
          var node := rest[i].data.node;
          node != hub.senderList && node != hub.receiverList && node !in places)
  }

  /** What the hub needs of the first request, and what is known of the others. */
  lemma First(hub: EventHubService, requests: seq<Request>)
    requires Queued(hub, requests) && requests != []
    ensures var msg, rest := requests[0], requests[1..];
            && msg.Valid() && Carries(msg, msg.Meaning()) && Unowned(hub, msg)
            && msg !in rest && Waiting(hub, Places(hub.State()), msg, rest)
  {
    hide Carries, Places, Distinct;
  }

  lemma UnownedApart(hub: EventHubService, r: Request)
    requires Unowned(hub, r) && r.data.Block?
    ensures r.data.node !in hub.SenderRing() && r.data.node !in hub.ReceiverRing()
  {
  }

  /** The requests behind the first one can still be served when the hub has had the node of the first. */
  lemma Remaining(hub: EventHubService, before: Hub, msg: Request, rest: seq<Request>)
    requires before.Typed() && Distinct(Places(before)) && Waiting(hub, Places(before), msg, rest)
    requires msg.Valid() && hub.State() == Step(before, msg.Meaning())
    requires msg.data.Block? ==> msg.data.node !in Places(before)
    ensures Queued(hub, rest)
  {
    StepKeepsPlaces(before, msg.Meaning());
    hide Distinct, Places, Carries, Step;
  }

  /** Serves the first request of the queue. */
  method ServeOne(hub: EventHubService, box: Mailbox)
    requires hub.Valid() && box.requests != [] && Queued(hub, box.requests)
    modifies box, hub, hub.senderList, hub.senders, hub.receiverList, hub.receivers
    modifies NodesOf(box.requests), box.requests
    ensures hub.Valid() && box.requests == old(box.requests)[1..] && Queued(hub, box.requests)
    ensures hub.State() == Step(old(hub.State()), old(box.requests)[0].Meaning())
    ensures LinkedWithin(hub.State(), old(hub.State()), NodesOf(old(box.requests)))
  {
    var msg := box.requests[0];
    ghost var rest, before := box.requests[1..], hub.State();
    First(hub, box.requests);
    assert msg in box.requests;
    if msg.data.Block? {
      UnownedApart(hub, msg);
    }
    StepLinks(hub.State(), msg.Meaning(), NodesOf(box.requests));
    assert msg.data.Block? ==> msg.data.node !in Places(before);
    hide Ring, Apart, Step, Distinct, Places, Queued, Waiting, LinkedWithin, NodesOf;
    box.requests := box.requests[1..];
    ghost var released := hub.Deliver(msg);
    Remaining(hub, before, msg, rest);
  }

  lemma RestOf(requests: seq<Request>, k: nat)
    requires k < |requests|
    ensures forall r :: r in requests[k..] ==> r in requests
    ensures NodesOf(requests[k..]) <= NodesOf(requests)
    ensures requests[k..][0] == requests[k] && requests[k..][1..] == requests[k + 1..]
  {
    assert forall r :: r in requests[k..] ==> r in requests;
  }

  lemma RunFromStep(h: Hub, ms: seq<Message>, k: nat)
    requires h.Typed() && AllTyped(ms) && k < |ms|
    ensures RunFrom(h, ms[..k + 1]) == Step(RunFrom(h, ms[..k]), ms[k])
  {
    assert ms[..k + 1][..k] == ms[..k];
  }

  /** Serves the whole queue. The hub goes through the run that the requests stand for, every step finds its
      node unlinked, as it has to, and no node is freed twice, or freed while it is linked. */
  method Serve(hub: EventHubService, box: Mailbox)
    requires hub.Valid() && Queued(hub, box.requests)
    modifies box, hub, hub.senderList, hub.senders, hub.receiverList, hub.receivers
    modifies NodesOf(box.requests), box.requests
    ensures hub.Valid() && box.requests == []
    ensures hub.State() == RunFrom(old(hub.State()), Meanings(old(box.requests)))
    ensures Distinct(Places(hub.State()))
  {
    ghost var all, k := box.requests, 0;
    ghost var ms := Meanings(all);
    assert all[0..] == all;
    while box.requests != []
      invariant k <= |all| && box.requests == all[k..]
      invariant hub.Valid() && Queued(hub, box.requests)
      invariant LinkedWithin(hub.State(), old(hub.State()), NodesOf(all))
      invariant hub.State() == RunFrom(old(hub.State()), ms[..k])
      decreases |all| - k
    {
      hide Queued, Ring, Step, RunFrom, NodesOf;
      RestOf(all, k);
      RunFromStep(old(hub.State()), ms, k);
      ServeOne(hub, box);
      k := k + 1;
    }
    assert ms[..k] == ms;
  }
}
