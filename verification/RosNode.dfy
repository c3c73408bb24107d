/** The node: calls from the network side, and the executor that carries out queued changes, keeps the
    wait set and forwards messages to clients. */
module RosNode {
  import opened Bytes
  import opened Schema
  import opened Codec
  import opened Serializer
  import opened Framing
  import opened DoubleBuffer
  import opened Connection
  import Registry
  import opened Publishers

  type Subscriber = Registry.Subscriber<Client>
  type Action = Registry.Action<Client>

  /** What the network side changes: publishers, the queued calls, and the messages published. */
  datatype View = View(pubs: PublisherMap<Client>, calls: seq<Action>, published: seq<(name, seq<Value>)>)

  /** `created` is whether the middleware creates what the operation asks for. */
  function Dispatch(v: View, types: TypeTable, client: Client, op: Op, created: bool): View {
    match op
    case AddSubscriber(topic, typeName) =>
      if typeName in types then v.(calls := v.calls + [Registry.Add(topic, types[typeName], client, created)]) else v
    case AddPublisher(topic, typeName) => v.(pubs := AddTo(v.pubs, types, topic, typeName, client, created))
    case Publish(topic, body) => v.(published := v.published + PublishedFor(v.pubs, topic, body))
  }

  /** The operations in order; `created(k)` is the middleware's answer to operation k. */
  function DispatchAll(v: View, types: TypeTable, client: Client, ops: seq<Op>, created: nat -> bool): View {
    if ops == [] then v
    else
      var n := |ops| - 1;
      Dispatch(DispatchAll(v, types, client, ops[..n], created), types, client, ops[n], created(n))
  }

  /** A message taken from a subscription conforms to its type. */
  predicate Taken(t: seq<Subscriber>, takes: seq<Option<seq<Value>>>) {
    |takes| == |t| && forall i :: 0 <= i < |t| && takes[i].Some? ==> ConformsAll(t[i].msgType, takes[i].value)
  }

  /** A client's buffers after the first `n` subscriptions have been served. */
  function Served(o: Outbox, c: Client, t: seq<Subscriber>, takes: seq<Option<seq<Value>>>, n: nat): Outbox
    requires Taken(t, takes) && n <= |t|
  {
    if n == 0 then o
    else
      Delivered(Served(o, c, t, takes, n - 1), c, t[n - 1], takes[n - 1])
  }

  /** A client's buffers after what was taken from one subscription has been delivered. */
  function Delivered(o: Outbox, c: Client, sub: Subscriber, take: Option<seq<Value>>): Outbox
    requires take.Some? ==> ConformsAll(sub.msgType, take.value)
  {
    if take.Some? && c in sub.clients then o.Send(sub.topic, EncodeAll(sub.msgType, take.value)) else o
  }

  function ClientsOf(t: seq<Subscriber>): set<Client> {
    set i, c | 0 <= i < |t| && c in t[i].clients :: c
  }

  class Node {
    const types: TypeTable

    var subscribers: seq<Subscriber>
    var publishers: PublisherMap<Client>
    var actions: seq<Action>
    ghost var calls: seq<Action>
    ghost var published: seq<(name, seq<Value>)>

    // the executor's own variables
    var subCount: nat
    var capacity: nat
    var handles: seq<name>

    ghost function State(): View
      reads this
    {
      View(publishers, calls, published)
    }

    /** The number of calls that have been carried out. */
    ghost function Drained(): int
      reads this
    {
      |calls| - |actions|
    }

    /** The table is what the calls already carried out make of it, the queue holds the others in
        order, and the wait set was last sized for `subCount` subscriptions. */
    ghost predicate Valid()
      reads this
    {
      Drained() >= 0 && Registry.SplitAt(Registry.Deferred(subscribers, actions), calls, Drained()) &&
      subCount == capacity
    }

    constructor (types: TypeTable)
      ensures Valid() && this.types == types && State() == View(map[], [], []) && subscribers == []
    {
      this.types := types;
      subscribers, publishers, actions := [], map[], [];
      calls, published := [], [];
      subCount, capacity, handles := 0, 0, [];
    }

    // --- calls from the network side ---

    method Enqueue(action: Action)
      requires Valid()
      modifies this`actions, this`calls
      ensures Valid() && calls == old(calls) + [action] && actions == old(actions) + [action]
    {
      Registry.SplitAfterCall(Registry.Deferred(subscribers, actions), calls, Drained(), action);
      actions := actions + [action];
      calls := calls + [action];
    }

    method AddSubscriber(topic: name, typeName: name, client: Client, created: bool)
      requires Valid()
      modifies this`actions, this`calls
      ensures Valid() && State() == Dispatch(old(State()), types, client, Op.AddSubscriber(topic, typeName), created)
      ensures Drained() == old(Drained())
    {
      if typeName !in types {
        return;
      }
      Enqueue(Registry.Add(topic, types[typeName], client, created));
    }

    method AddPublisher(topic: name, typeName: name, client: Client, created: bool)
      modifies this`publishers
      ensures State() == Dispatch(old(State()), types, client, Op.AddPublisher(topic, typeName), created)
    {
      if topic in publishers {
        var p := publishers[topic];
        publishers := publishers[topic := p.(clients := p.clients + {client})];
        return;
      }
      if typeName !in types {
        return;
      }
      if !created {
        return;
      }
      publishers := publishers[topic := Registry.Publisher(types[typeName], {client})];
    }

    method Publish(topic: name, data: seq<byte>)
      modifies this`published
      ensures forall client, created ::
                State() == Dispatch(old(State()), types, client, Op.Publish(topic, data), created)
      ensures published ==
              if topic in publishers && DecodeAll(publishers[topic].msgType, data, 0).Ok?
              then old(published) + [(topic, DecodeAll(publishers[topic].msgType, data, 0).value)] else old(published)
    {
      if topic !in publishers {
        return;
      }
      var msg := Unserialize(publishers[topic].msgType, data);
      if msg.Some? {
        published := published + [(topic, msg.value)];
      }
    }

    /** The client leaves: its publishers at once, its subscriptions when the queue is drained. */
    method Remove(client: Client)
      requires Valid()
      modifies this`actions, this`calls, this`publishers
      ensures Valid() && Drained() == old(Drained()) && actions == old(actions) + [Registry.Drop(client)]
      ensures State() == View(DropFrom(old(publishers), client), old(calls) + [Registry.Drop(client)], old(published))
    {
      Enqueue(Registry.Drop(client));
      ghost var all := publishers;
      var todo := publishers.Keys;
      while todo != {}
        modifies this`publishers
        invariant todo <= publishers.Keys
        invariant forall t :: t in todo ==> t in all && publishers[t] == all[t]
        invariant forall t :: t in all && t !in todo ==>
                                (t in publishers <==> t in DropFrom(all, client)) &&
                                (t in publishers ==> publishers[t] == DropFrom(all, client)[t])
        invariant publishers.Keys <= all.Keys
        decreases todo
      {
        var topic :| topic in todo;
        todo := todo - {topic};
        var p := publishers[topic];
        if client in p.clients {
          var left := p.clients - {client};
          assert left == {} <==> p.clients == {client};
          if left == {} {
            publishers := publishers - {topic};
          } else {
            publishers := publishers[topic := p.(clients := left)];
          }
        } else {
          assert p.clients - {client} == p.clients;
        }
      }
      assert publishers == DropFrom(all, client);
    }

    /** What a complete frame makes its handler call. */
    method RunOp(client: Client, op: Op, created: bool)
      requires Valid()
      modifies this`actions, this`calls, this`publishers, this`published
      ensures Valid() && Drained() == old(Drained())
      ensures State() == Dispatch(old(State()), types, client, op, created)
    {
      match op
      case AddSubscriber(topic, typeName) => AddSubscriber(topic, typeName, client, created);
      case AddPublisher(topic, typeName) => AddPublisher(topic, typeName, client, created);
      case Publish(topic, body) => Publish(topic, body);
    }

    /** The operations of one chunk, in order. */
    method Receive(client: Client, chunk: seq<byte>, created: nat -> bool)
      requires Valid() && client.reading
      modifies this`actions, this`calls, this`publishers, this`published
      modifies client`buffer, client`reading, client`dispatched
      ensures Valid() && Drained() == old(Drained())
      ensures client.In() == Feed(old(client.In()), chunk)
      ensures client.dispatched == old(client.dispatched) + client.dispatched[|old(client.dispatched)|..]
      ensures State() == DispatchAll(old(State()), types, client,
                                     client.dispatched[|old(client.dispatched)|..], created)
    {
      var ops := client.HandleRead(chunk);
      assert ops[..0] == [];
      for k := 0 to |ops|
        modifies this`actions, this`calls, this`publishers, this`published
        invariant Valid() && Drained() == old(Drained())
        invariant State() == DispatchAll(old(State()), types, client, ops[..k], created)
      {
        ghost var soFar := ops[..k + 1];
        assert soFar[..k] == ops[..k];
        RunOp(client, ops[k], created(k));
      }
      assert ops[..|ops|] == ops;
      assert client.dispatched[|old(client.dispatched)|..] == ops;
    }

    // --- the executor ---

    method RunAdd(a: Action)
      requires a.Add?
      modifies this`subscribers
      ensures subscribers == Registry.Apply(old(subscribers), a)
    {
      var i := 0;
      while i < |subscribers|
        invariant i <= |subscribers| && subscribers == old(subscribers)
        invariant forall j :: 0 <= j < i ==> subscribers[j].topic != a.topic
      {
        if subscribers[i].topic == a.topic {
          assert Registry.Find(subscribers, a.topic) == i;
          subscribers := subscribers[i := subscribers[i].(clients := subscribers[i].clients + {a.client})];
          return;
        }
        i := i + 1;
      }
      assert Registry.Find(subscribers, a.topic) == |subscribers|;
      if a.created {
        subscribers := subscribers + [Registry.Subscriber(a.topic, a.msgType, {a.client})];
      }
    }

    method RunDrop(client: Client)
      modifies this`subscribers
      ensures subscribers == Registry.Apply(old(subscribers), Registry.Drop(client))
    {
      var it := 0;
      assert subscribers[..0] == [] && subscribers[0..] == subscribers;
      while it < |subscribers|
        invariant it <= |subscribers|
        invariant subscribers[..it] + Registry.DropClient(subscribers[it..], client)
               == Registry.DropClient(old(subscribers), client)
        decreases |subscribers| - it
      {
        ghost var before, done, rest := subscribers, subscribers[..it], subscribers[it..];
        assert rest[1..] == before[it + 1..];
        var sub := subscribers[it];
        if client in sub.clients {
          var left := sub.clients - {client};
          if left == {} {
            subscribers := subscribers[..it] + subscribers[it + 1..];
            assert subscribers[..it] == done && subscribers[it..] == rest[1..];
          } else {
            subscribers := subscribers[it := sub.(clients := left)];
            it := it + 1;
            assert subscribers[..it] == done + [sub.(clients := left)] && subscribers[it..] == rest[1..];
            Assoc(done, [sub.(clients := left)], Registry.DropClient(rest[1..], client));
          }
        } else {
          assert sub.clients - {client} == sub.clients;
          it := it + 1;
          assert subscribers[..it] == done + [sub] && subscribers[it..] == rest[1..];
          Assoc(done, [sub], Registry.DropClient(rest[1..], client));
        }
      }
      assert subscribers[it..] == [] && subscribers[..it] + [] == subscribers;
    }

    method RunAction(action: Action)
      modifies this`subscribers
      ensures subscribers == Registry.Apply(old(subscribers), action)
    {
      match action
      case Add(_, _, _, _) => RunAdd(action);
      case Drop(client) => RunDrop(client);
    }

    /** Carries out every queued change, first in first out. */
    method Drain()
      requires Valid()
      modifies this`subscribers, this`actions
      ensures Valid() && actions == [] && subscribers == Registry.Fold(calls)
    {
      ghost var queue := actions;
      while actions != []
        invariant Registry.ApplyAll(subscribers, actions) == Registry.ApplyAll(old(subscribers), queue)
        decreases |actions|
      {
        var action := actions[0];
        RunAction(action);
        actions := actions[1..];
      }
      Registry.SplitAfterDrain(Registry.Deferred(old(subscribers), queue), calls, old(Drained()));
      assert calls[..|calls|] == calls;
    }

    /** The first half of an executor iteration. When there are subscriptions, the wait set has room
        for exactly them and holds all of them, in table order. */
    method Prepare() returns (waiting: bool)
      requires Valid()
      modifies this`subscribers, this`actions, this`subCount, this`capacity, this`handles
      ensures Valid() && actions == [] && subscribers == Registry.Fold(calls)
      ensures waiting <==> subscribers != []
      ensures waiting ==> subCount == capacity == |handles| == |subscribers|
      ensures waiting ==> forall i :: 0 <= i < |subscribers| ==> handles[i] == subscribers[i].topic
      ensures !waiting ==> capacity == old(capacity)
    {
      Drain();
      var newCount := |subscribers|;
      if newCount == 0 {
        return false;
      }
      if newCount != subCount {
        subCount := newCount;
        capacity := subCount;
      }
      FillWaitSet();
      waiting := true;
    }

    method FillWaitSet()
      requires capacity == |subscribers|
      modifies this`handles
      ensures |handles| == |subscribers|
      ensures forall i :: 0 <= i < |subscribers| ==> handles[i] == subscribers[i].topic
    {
      handles := [];
      for i := 0 to |subscribers|
        invariant |handles| == i
        invariant forall j :: 0 <= j < i ==> handles[j] == subscribers[j].topic
      {
        AddToWaitSet(subscribers[i].topic);
      }
    }

    /** The wait set takes no more handles than it has room for. */
    method AddToWaitSet(handle: name)
      modifies this`handles
      ensures handles == if |old(handles)| < capacity then old(handles) + [handle] else old(handles)
    {
      if |handles| < capacity {
        handles := handles + [handle];
      }
    }

    /** One message taken from a subscription goes to each of its clients, in any order. */
    method HandleMessage(i: nat, msg: seq<Value>)
      requires i < |subscribers| && ConformsAll(subscribers[i].msgType, msg)
      modifies subscribers[i].clients
      ensures forall c :: c in subscribers[i].clients ==>
                            c.In() == old(c.In()) &&
                            c.Out() == old(c.Out()).Send(subscribers[i].topic, EncodeAll(subscribers[i].msgType, msg))
    {
      var sub := subscribers[i];
      var writer := new Writer();
      writer.Serialize(sub.msgType, msg);
      var data := writer.data;
      assert data == EncodeAll(sub.msgType, msg);
      var todo := sub.clients;
      while todo != {}
        invariant todo <= sub.clients
        invariant forall c :: c in sub.clients ==> c.In() == old(c.In())
        invariant forall c :: c in todo ==> c.Out() == old(c.Out())
        invariant forall c :: c in sub.clients - todo ==> c.Out() == old(c.Out()).Send(sub.topic, data)
        decreases todo
      {
        var client :| client in todo;
        client.Publish(sub.topic, data);
        todo := todo - {client};
      }
    }

    /** A handle of the wait set that is ready is still the entry it was added for. */
    method Deliver(i: nat, take: Option<seq<Value>>)
      requires i < |handles| == |subscribers| && handles[i] == subscribers[i].topic
      requires take.Some? ==> ConformsAll(subscribers[i].msgType, take.value)
      modifies subscribers[i].clients
      ensures forall c :: c in subscribers[i].clients ==>
                            c.In() == old(c.In()) && c.Out() == Delivered(old(c.Out()), c, subscribers[i], take)
    {
      if take.Some? {
        HandleMessage(i, take.value);
      }
    }

    /** The second half of an iteration, while the network side goes on calling: `more[i]` are the calls
        made after delivery i. They wait in the queue, so every handle of the wait set that is ready is
        still an entry of the table, and its message reaches exactly that entry's clients. */
    method Serve(takes: seq<Option<seq<Value>>>, more: seq<seq<Action>>)
      requires Valid() && |handles| == |subscribers| == subCount && Taken(subscribers, takes) && |more| == |takes|
      requires forall i :: 0 <= i < |subscribers| ==> handles[i] == subscribers[i].topic
      modifies ClientsOf(subscribers), this`actions, this`calls
      ensures Valid() && actions == old(actions) + Flatten(more) && calls == old(calls) + Flatten(more)
      ensures forall c :: c in ClientsOf(subscribers) ==>
                            c.In() == old(c.In()) &&
                            c.Out() == Served(old(c.Out()), c, subscribers, takes, |subscribers|)
    {
      assert more[..0] == [];
      for i := 0 to subCount
        invariant Valid() && subCount == |subscribers|
        invariant actions == old(actions) + Flatten(more[..i]) && calls == old(calls) + Flatten(more[..i])
        invariant forall c :: c in ClientsOf(subscribers) ==>
                                c.In() == old(c.In()) && c.Out() == Served(old(c.Out()), c, subscribers, takes, i)
      {
        assert subscribers[i].clients <= ClientsOf(subscribers);
        Deliver(i, takes[i]);
        EnqueueAll(more[i]);
        FlattenNext(more, i);
        Assoc(old(actions), Flatten(more[..i]), more[i]);
        Assoc(old(calls), Flatten(more[..i]), more[i]);
      }
      assert more[..|more|] == more;
    }

    /** An iteration of the executor while the network side goes on calling: `first` are the calls made
        between the drain and the first delivery. */
    method Iterate(takes: seq<Option<seq<Value>>>, first: seq<Action>, more: seq<seq<Action>>)
      requires Valid() && Taken(Registry.Fold(calls), takes) && |more| == |takes|
      modifies this`subscribers, this`actions, this`calls, this`subCount, this`capacity, this`handles
      modifies ClientsOf(Registry.Fold(calls))
      ensures Valid() && actions == first + Flatten(more) && calls == old(calls) + first + Flatten(more)
      ensures subscribers == Registry.Fold(old(calls))
      ensures forall c :: c in ClientsOf(subscribers) ==>
                            c.In() == old(c.In()) &&
                            c.Out() == Served(old(c.Out()), c, subscribers, takes, |subscribers|)
    {
      ghost var served := ClientsOf(Registry.Fold(calls));
      var waiting := Prepare();
      EnqueueAll(first);
      assert ClientsOf(subscribers) == served;
      if waiting {
        assert forall c :: c in served ==> c.In() == old(c.In()) && c.Out() == old(c.Out());
        Serve(takes, more);
      } else {
        assert |subscribers| == 0;
      }
    }

    method EnqueueAll(more: seq<Action>)
      requires Valid()
      modifies this`actions, this`calls
      ensures Valid() && actions == old(actions) + more && calls == old(calls) + more
    {
      for k := 0 to |more|
        invariant Valid() && actions == old(actions) + more[..k] && calls == old(calls) + more[..k]
      {
        Enqueue(more[k]);
        assert more[..k + 1] == more[..k] + [more[k]];
      }
      assert more[..|more|] == more;
    }
  }

  lemma {:induction false} FlattenNext<T>(chunks: seq<seq<T>>, i: nat)
    requires i < |chunks|
    ensures Flatten(chunks[..i + 1]) == Flatten(chunks[..i]) + chunks[i]
  {
    assert chunks[..i + 1] == chunks[..i] + [chunks[i]];
    FlattenConcat(chunks[..i], [chunks[i]]);
    assert Flatten([chunks[i]]) == chunks[i] + [] == chunks[i];
  }
}
