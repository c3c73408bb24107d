/** The running bridge: the node, its clients, and the steps that happen in any order. Whatever the order,
    the state on the heap is that of the system of all runs after the matching events. */
module Server {
  import opened Bytes
  import opened Schema
  import opened Serializer
  import opened Framing
  import Buffer = DoubleBuffer
  import Registry
  import opened Publishers
  import opened Connection
  import opened RosNode
  import opened Inbound
  import opened Outbound
  import Session

  type ClientEvt = Outbound.Event<Client>

  function Changes(more: seq<Action>): seq<ClientEvt> {
    seq(|more|, i requires 0 <= i < |more| => Change(more[i]))
  }

  /** Queued calls change the registry's queue only. */
  lemma {:induction false} RunChanges(events: seq<ClientEvt>, more: seq<Action>)
    ensures var s := Run(events);
            Run(events + Changes(more)) == s.(registry := s.registry.(queue := s.registry.queue + more))
    decreases |more|
  {
    if more == [] {
      assert events + Changes(more) == events;
      assert Run(events).registry.queue + [] == Run(events).registry.queue;
    } else {
      var init, last := more[..|more| - 1], more[|more| - 1];
      RunChanges(events, init);
      RunNext(events + Changes(init), Change(last));
      ChangesNext(events, more);
      assert init + [last] == more;
      Assoc(Run(events).registry.queue, init, [last]);
    }
  }

  lemma {:induction false} ChangesNext(events: seq<ClientEvt>, more: seq<Action>)
    requires more != []
    ensures var n := |more| - 1;
            events + Changes(more) == events + Changes(more[..n]) + [Change(more[n])]
  {
    assert Changes(more) == Changes(more[..|more| - 1]) + [Change(more[|more| - 1])];
  }

  lemma {:induction false} RunNext(events: seq<ClientEvt>, e: ClientEvt)
    ensures Run(events + [e]) == Step(Run(events), e)
  {
    assert (events + [e])[..|events|] == events;
  }

  lemma {:induction false} RunCall(events: seq<ClientEvt>, a: Action)
    ensures var s := Run(events);
            Run(events + [Change(a)]) == s.(registry := s.registry.(queue := s.registry.queue + [a]))
  {
    RunNext(events, Change(a));
  }

  lemma {:induction false} MoreAdds(calls: seq<Action>, a: Action, known: set<Client>)
    requires AddsOnly(calls, known) && (a.Add? ==> a.client in known)
    ensures AddsOnly(calls + [a], known)
  {
  }

  /** Only clients that some call added are in the table. */
  lemma {:induction false} TableClients(calls: seq<Action>, i: nat, c: Client, known: set<Client>)
    requires i < |Registry.Fold(calls)| && c in Registry.Fold(calls)[i].clients
    requires AddsOnly(calls, known)
    ensures c in known
  {
    var t := Registry.Fold(calls);
    Registry.FoldWellFormed(calls);
    Registry.FindIs(t, i);
    Registry.RegisteredIff(calls, t[i].topic, c);
  }

  ghost predicate AddsOnly(calls: seq<Action>, known: set<Client>) {
    forall i :: 0 <= i < |calls| && calls[i].Add? ==> calls[i].client in known
  }

  /** Every client of the table is known. */
  ghost predicate Among(t: seq<Subscriber>, known: set<Client>) {
    forall i :: 0 <= i < |t| ==> t[i].clients <= known
  }

  lemma {:induction false} TableAmong(calls: seq<Action>, known: set<Client>)
    requires AddsOnly(calls, known)
    ensures Among(Registry.Fold(calls), known)
  {
    forall i, c | 0 <= i < |Registry.Fold(calls)| && c in Registry.Fold(calls)[i].clients
      ensures c in known
    {
      TableClients(calls, i, c, known);
    }
  }

  /** A drain carries out every call. */
  lemma {:induction false} RunDrain(events: seq<ClientEvt>, calls: seq<Action>, k: nat)
    requires Registry.SplitAt(Run(events).registry, calls, k)
    ensures Run(events + [Drain]) == Run(events).(registry := Registry.Deferred(Registry.Fold(calls), []))
  {
    Registry.SplitAfterDrain(Run(events).registry, calls, k);
    assert calls[..|calls|] == calls;
    RunNext(events, Drain);
  }

  /** The outcome of a client's write changes that client's buffers only. */
  lemma {:induction false} RunWrite(events: seq<ClientEvt>, client: Client, done: bool)
    ensures var e := if done then Written(client) else WriteFailed(client);
            var s, s' := Run(events), Run(events + [e]);
            s'.registry == s.registry && s'.outs.Keys == s.outs.Keys + {client} &&
            Out(s', client) == Buffer.Step(Out(s, client), if done then Buffer.Written else Buffer.WriteFailed) &&
            forall c :: c != client ==> Out(s', c) == Out(s, c)
  {
    var e := if done then Written(client) else WriteFailed(client);
    RunNext(events, e);
    WriteStep(Run(events), client, done);
  }

  lemma {:induction false} WriteStep(s: System<Client>, client: Client, done: bool)
    ensures var s' := Step(s, if done then Written(client) else WriteFailed(client));
            s'.registry == s.registry && s'.outs.Keys == s.outs.Keys + {client} &&
            Out(s', client) == Buffer.Step(Out(s, client), if done then Buffer.Written else Buffer.WriteFailed) &&
            forall c :: c != client ==> Out(s', c) == Out(s, c)
  {
  }

  /** A message taken from the table's i-th subscription changes the buffers of its clients only. */
  lemma {:induction false} RunTake(events: seq<ClientEvt>, i: nat, msg: seq<Value>)
    requires var t := Run(events).registry.table;
             Registry.WellFormed(t) && i < |t| && ConformsAll(t[i].msgType, msg)
    ensures var s := Run(events);
            var sub := s.registry.table[i];
            var s' := Run(events + [Take(sub.topic, msg)]);
            s'.registry == s.registry && s'.outs.Keys == s.outs.Keys + sub.clients &&
            forall c :: Out(s', c) == Delivered(Out(s, c), c, sub, Some(msg))
  {
    var s := Run(events);
    var sub := s.registry.table[i];
    RunNext(events, Take(sub.topic, msg));
    Registry.FindIs(s.registry.table, i);
    forall c
      ensures Out(Run(events + [Take(sub.topic, msg)]), c) == Delivered(Out(s, c), c, sub, Some(msg))
    {
      TakeStep(s, i, msg, c);
    }
  }

  /** The queue, being the calls not carried out, grows with them. */
  lemma {:induction false} QueueGrows(s: Registry.Deferred<Client>, queue: seq<Action>, calls: seq<Action>,
                                                           more: seq<Action>, k: nat)
    requires Registry.SplitAt(s, calls, k) && Registry.SplitAt(s.(queue := queue), calls + more, k)
    ensures queue == s.queue + more
  {
  }

  /** Dispatching operations queues what they ask for: the run goes on with those changes, and all clients
      stay known. */
  lemma {:induction false} RunDispatch(events: seq<ClientEvt>, v: View, w: View, types: TypeTable, client: Client,
                                       ops: seq<Op>, created: nat -> bool, queue: seq<Action>, k: nat,
                                       known: set<Client>)
    requires w == DispatchAll(v, types, client, ops, created)
    requires Registry.SplitAt(Run(events).registry, v.calls, k)
    requires Registry.SplitAt(Registry.Deferred(Run(events).registry.table, queue), w.calls, k)
    requires AddsOnly(v.calls, known) && client in known
    ensures v.calls <= w.calls && AddsOnly(w.calls, known)
    ensures Run(events + Changes(w.calls[|v.calls|..])) == Run(events).(registry := Run(events).registry.(queue := queue))
  {
    Session.DispatchOnlyAdds(v, types, client, ops, created);
    var more := w.calls[|v.calls|..];
    assert w.calls == v.calls + more;
    QueueGrows(Run(events).registry, queue, v.calls, more, k);
    RunChanges(events, more);
  }

  class Bridge {
    const node: Node
    /** Every client accepted so far. */
    var clients: set<Client>
    /** The executor is between two deliveries, and `next` is the handle it looks at next. */
    var serving: bool
    var next: nat
    ghost var events: seq<ClientEvt>

    /** The node's table and queue, and every client's buffers, are those of the run. */
    ghost predicate Valid()
      reads this, node, clients
    {
      node.Valid() && AddsOnly(node.calls, clients) && Shows(Run(events)) && (serving ==> Ready())
    }

    ghost predicate Shows(s: System<Client>)
      reads this, node, clients
    {
      Registry.Deferred(node.subscribers, node.actions) == s.registry && s.outs.Keys <= clients &&
      forall c :: c in clients ==> c.Out() == Out(s, c)
    }

    /** The wait set holds the table's subscriptions in order. */
    ghost predicate Ready()
      reads this, node
    {
      next < |node.handles| == |node.subscribers| &&
      forall i :: 0 <= i < |node.subscribers| ==> node.handles[i] == node.subscribers[i].topic
    }

    constructor (types: TypeTable)
      ensures Valid() && fresh(node) && clients == {} && events == [] && !serving
    {
      node := new Node(types);
      clients, serving, next, events := {}, false, 0, [];
    }

    method Accept() returns (client: Client)
      requires Valid()
      modifies this`clients
      ensures Valid() && fresh(client) && clients == old(clients) + {client}
      ensures client.In() == NOTHING_READ
    {
      client := new Client();
      clients := clients + {client};
    }

    /** Bytes arrive from a client. */
    method OnChunk(client: Client, chunk: seq<byte>, created: nat -> bool)
      requires Valid() && client in clients && client.reading
      modifies this`events, node, client`buffer, client`reading, client`dispatched
      ensures Valid() && client.In() == Feed(old(client.In()), chunk)
      ensures node.State() == DispatchAll(old(node.State()), node.types, client,
                                          client.dispatched[|old(client.dispatched)|..], created)
      ensures old(node.calls) <= node.calls
      ensures events == old(events) + Changes(node.calls[|old(node.calls)|..])
    {
      ghost var before, k := node.State(), node.Drained();
      node.Receive(client, chunk, created);
      assert forall c :: c in clients ==> c.Out() == old(c.Out());
      RunDispatch(events, before, node.State(), node.types, client, client.dispatched[|old(client.dispatched)|..],
                  created, node.actions, k, clients);
      ghost var now := events + Changes(node.calls[|before.calls|..]);
      assert Shows(Run(now));
      events := now;
    }

    /** A read fails or the client closes the connection. */
    method OnReadError(client: Client)
      requires Valid() && client in clients
      modifies this`events, node
      ensures Valid() && events == old(events) + [Change(Registry.Drop(client))]
      ensures node.publishers == DropFrom(old(node.publishers), client)
    {
      ghost var drop: Action := Registry.Drop(client);
      RunCall(events, drop);
      MoreAdds(node.calls, drop, clients);
      node.Remove(client);
      assert AddsOnly(node.calls, clients);
      assert forall c :: c in clients ==> c.Out() == old(c.Out());
      events := events + [Change(drop)];
    }

    /** A write ends; after an error the client is removed from the node. */
    method OnWrite(client: Client, result: WriteResult)
      requires Valid() && client in clients && client.inflight
      modifies this`events, node
      modifies client`writing, client`pending, client`inflight, client`sent, client`failed
      ensures Valid() && client.In() == old(client.In())
      ensures events == old(events) + match result
                                      case Done => [Written(client)]
                                      case Aborted => [WriteFailed(client)]
                                      case Error => [WriteFailed(client), Change(Registry.Drop(client))]
    {
      var remove := EndWrite(client, result);
      if remove {
        OnReadError(client);
      }
    }

    method EndWrite(client: Client, result: WriteResult) returns (remove: bool)
      requires Valid() && client in clients && client.inflight
      modifies this`events, client`writing, client`pending, client`inflight, client`sent, client`failed
      ensures Valid() && client.In() == old(client.In())
      ensures events == old(events) + [if result.Done? then Written(client) else WriteFailed(client)]
      ensures remove <==> result.Error?
    {
      ghost var out := client.Out();
      remove := client.HandleWrite(result);
      assert node.Valid() && Registry.Deferred(node.subscribers, node.actions) == Run(events).registry;
      ghost var now := events + [if result.Done? then Written(client) else WriteFailed(client)];
      RunWrite(events, client, result.Done?);
      assert client.Out() == Buffer.Step(out, if result.Done? then Buffer.Written else Buffer.WriteFailed);
      assert forall c :: c in clients && c != client ==> c.Out() == old(c.Out());
      assert Shows(Run(now));
      events := now;
    }

    /** The executor carries out the queue and fills the wait set. */
    method BeginIteration()
      requires Valid() && !serving
      modifies this`events, this`serving, this`next, node
      ensures Valid() && events == old(events) + [Drain]
      ensures node.subscribers == Registry.Fold(node.calls) && node.calls == old(node.calls)
      ensures serving <==> node.subscribers != []
    {
      ghost var now := events + [Drain];
      RunDrain(events, node.calls, node.Drained());
      serving := node.Prepare();
      next := 0;
      assert forall c :: c in clients ==> c.Out() == old(c.Out());
      assert Shows(Run(now));
      events := now;
    }

    /** The next handle of the wait set: what was taken from it, if anything, is delivered. */
    method ServeNext(take: Option<seq<Value>>)
      requires Valid() && serving
      requires take.Some? ==> ConformsAll(node.subscribers[next].msgType, take.value)
      modifies this`events, this`serving, this`next, clients
      ensures Valid() && clients == old(clients) && node.subscribers == old(node.subscribers)
      ensures serving <==> old(next) + 1 < |node.subscribers|
      ensures events == old(events) +
                        if take.Some? then [Take(old(node.subscribers[next].topic), take.value)] else []
      ensures forall c :: c in clients ==> c.In() == old(c.In())
    {
      ghost var done := node.calls[..node.Drained()];
      Registry.FoldWellFormed(done);
      TableAmong(done, clients);
      node.Deliver(next, take);
      if take.Some? {
        ghost var now := events + [Take(node.subscribers[next].topic, take.value)];
        RunTake(events, next, take.value);
        assert Shows(Run(now));
        events := now;
      }
      next := next + 1;
      serving := next < |node.subscribers|;
    }
  }

  // --- main results ---

  /** At every moment of the running bridge, a client that parses and unserializes what was handed to its
      socket gets a first part of the messages accepted for it, unchanged and in order. */
  lemma {:induction false} BridgeEndToEnd(b: Bridge, c: Client)
    requires b.Valid() && c in b.clients && AllPostable(AcceptedPosts(b.events, c))
    ensures var ps, p := AcceptedPosts(b.events, c), Parse(c.sent);
            p.rest == [] && !p.stopped && |p.ops| <= |ps| &&
            forall i :: 0 <= i < |p.ops| ==>
                          p.ops[i].Publish? && p.ops[i].topic == ps[i].topic &&
                          Unserialized(ps[i].msgType, p.ops[i].body) == Some(ps[i].msg)
  {
    assert c.Out() == Out(Run(b.events), c);
    OutboundEndToEnd(b.events, c);
  }

  /** And the node's table holds a client on a topic exactly when some call already carried out registered
      it there and none carried out after that removed it. */
  lemma {:induction false} BridgeRegisteredIff(b: Bridge, topic: name, c: Client)
    requires b.Valid()
    ensures c in Registry.Clients(b.node.subscribers, topic) <==> Registry.Registered(CarriedOut(b.events), topic, c)
  {
    assert b.node.subscribers == Run(b.events).registry.table;
    TableOfCarriedOut(b.events);
    Registry.RegisteredIff(CarriedOut(b.events), topic, c);
  }
}
