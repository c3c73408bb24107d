/** The publishers of the node. They change at once, and messages received for a topic are published
    only after they have been unserialized with the type of the topic's publisher. */
module Publishers {
  import opened Bytes
  import opened Schema
  import opened Serializer
  import opened Framing
  import opened Registry

  type PublisherMap<!C(==)> = map<name, Publisher<C>>

  type TypeTable = map<name, MsgType>

  /** A known topic takes the client whatever type it asks for; a new one needs a known type that the
      middleware creates a publisher for. */
  function AddTo<C(==)>(pubs: PublisherMap<C>, types: TypeTable, topic: name, typeName: name, c: C, created: bool)
    : PublisherMap<C>
  {
    if topic in pubs then pubs[topic := pubs[topic].(clients := pubs[topic].clients + {c})]
    else if typeName in types && created then pubs[topic := Publisher(types[typeName], {c})]
    else pubs
  }

  function DropFrom<C(==)>(pubs: PublisherMap<C>, c: C): PublisherMap<C> {
    map topic | topic in pubs && pubs[topic].clients != {c} :: pubs[topic].(clients := pubs[topic].clients - {c})
  }

  /** The messages published for one received body: one, or none without a publisher or a value. */
  function PublishedFor<C>(pubs: PublisherMap<C>, topic: name, body: seq<byte>): seq<(name, seq<Value>)> {
    if topic !in pubs then []
    else
      match Unserialized(pubs[topic].msgType, body)
      case Some(vs) => [(topic, vs)]
      case None => []
  }

  /** The same change, as one of the subscriber table. */
  function AsAction<C(==)>(types: TypeTable, topic: name, typeName: name, c: C, created: bool): Action<C> {
    if typeName in types then Add(topic, types[typeName], c, created) else Add(topic, [], c, false)
  }

  /** Both tables have the same topics, with the same types and clients. */
  ghost predicate Mirrors<C>(pubs: PublisherMap<C>, t: Table<C>) {
    WellFormed(t) &&
    (forall topic :: topic in pubs <==> Find(t, topic) < |t|) &&
    (forall i :: 0 <= i < |t| ==> t[i].topic in pubs && pubs[t[i].topic] == Publisher(t[i].msgType, t[i].clients))
  }

  /** Adding a client keeps both tables alike. */
  lemma {:induction false} AddMirrors<C>(pubs: PublisherMap<C>, t: Table<C>, types: TypeTable, topic: name,
                                         typeName: name, c: C, created: bool)
    requires Mirrors(pubs, t)
    ensures Mirrors(AddTo(pubs, types, topic, typeName, c, created),
                    Apply(t, AsAction(types, topic, typeName, c, created)))
  {
    var a := AsAction(types, topic, typeName, c, created);
    var k := Find(t, topic);
    if k < |t| {
      JoinMirrors(pubs, t, k, c);
    } else if a.created {
      AppendMirrors(pubs, t, Subscriber(topic, a.msgType, {c}));
    }
  }

  lemma {:induction false} JoinMirrors<C>(pubs: PublisherMap<C>, t: Table<C>, k: nat, c: C)
    requires Mirrors(pubs, t) && k < |t|
    ensures Mirrors(pubs[t[k].topic := Publisher(t[k].msgType, t[k].clients + {c})],
                    t[k := t[k].(clients := t[k].clients + {c})])
  {
    var t' := t[k := t[k].(clients := t[k].clients + {c})];
    JoinEffect(t, k, c, t[k].topic);
    forall i | 0 <= i < |t|
      ensures t'[i].topic == t[i].topic && (i != k ==> t'[i] == t[i] && t[i].topic != t[k].topic)
    {
    }
    forall x {
      SameTopics(t, t', x);
    }
  }

  lemma {:induction false} SameTopics<C>(t: Table<C>, t': Table<C>, x: name)
    requires |t| == |t'| && forall i :: 0 <= i < |t| ==> t'[i].topic == t[i].topic
    ensures Find(t', x) < |t'| <==> Find(t, x) < |t|
  {
    var i := Find(t, x);
    var i' := Find(t', x);
  }

  lemma {:induction false} AppendMirrors<C>(pubs: PublisherMap<C>, t: Table<C>, s: Subscriber<C>)
    requires Mirrors(pubs, t) && Find(t, s.topic) == |t| && s.clients != {}
    ensures Mirrors(pubs[s.topic := Publisher(s.msgType, s.clients)], t + [s])
  {
    AppendEffect(t, s, s.topic);
    forall x {
      OneMoreTopic(t, s, x);
    }
    AppendedEntries(pubs, t, s);
  }

  lemma {:induction false} OneMoreTopic<C>(t: Table<C>, s: Subscriber<C>, x: name)
    ensures Find(t + [s], x) < |t| + 1 <==> Find(t, x) < |t| || x == s.topic
  {
    var i, i' := Find(t, x), Find(t + [s], x);
    assert (t + [s])[|t|] == s;
    assert i < |t| ==> (t + [s])[i] == t[i];
    assert i' < |t| ==> (t + [s])[i'] == t[i'];
  }

  lemma {:induction false} AppendedEntries<C>(pubs: PublisherMap<C>, t: Table<C>, s: Subscriber<C>)
    requires Mirrors(pubs, t) && Find(t, s.topic) == |t|
    ensures var pubs', t' := pubs[s.topic := Publisher(s.msgType, s.clients)], t + [s];
            forall i :: 0 <= i < |t'| ==>
                          t'[i].topic in pubs' && pubs'[t'[i].topic] == Publisher(t'[i].msgType, t'[i].clients)
  {
    assert forall i :: 0 <= i < |t| ==> (t + [s])[i] == t[i] && t[i].topic != s.topic;
  }

  /** So does removing one. */
  lemma {:induction false} DropMirrors<C>(pubs: PublisherMap<C>, t: Table<C>, c: C)
    requires Mirrors(pubs, t)
    ensures Mirrors(DropFrom(pubs, c), Apply(t, Drop(c)))
  {
    var t' := DropClient(t, c);
    var pubs' := DropFrom(pubs, c);
    DropWellFormed(t, c);
    forall i | 0 <= i < |t'|
      ensures t'[i].topic in pubs' && pubs'[t'[i].topic] == Publisher(t'[i].msgType, t'[i].clients)
    {
      DropComesFrom(t, c, t'[i]);
    }
    forall x
      ensures x in pubs' <==> Find(t', x) < |t'|
    {
      if x in pubs' {
        DropKeeps(t, c, Find(t, x));
      }
    }
  }

  // --- all runs ---

  /** `Open` is an add-publisher operation, `Close` the removal of a client. */
  datatype Call<!C(==)> = Open(topic: name, typeName: name, client: C, created: bool) | Close(client: C)

  function Fold<C(==)>(types: TypeTable, calls: seq<Call<C>>): PublisherMap<C> {
    if calls == [] then map[]
    else
      var pubs := Fold(types, calls[..|calls| - 1]);
      match calls[|calls| - 1]
      case Open(topic, typeName, c, created) => AddTo(pubs, types, topic, typeName, c, created)
      case Close(c) => DropFrom(pubs, c)
  }

  function AsActions<C(==)>(types: TypeTable, calls: seq<Call<C>>): (actions: seq<Action<C>>)
    ensures |actions| == |calls|
  {
    if calls == [] then []
    else
      AsActions(types, calls[..|calls| - 1]) +
      [match calls[|calls| - 1]
       case Open(topic, typeName, c, created) => AsAction(types, topic, typeName, c, created)
       case Close(c) => Drop(c)]
  }

  /** The immediate publisher table and a subscriber table keep the same registrations under the same
      changes, over all runs. */
  lemma {:induction false} FoldMirrors<C>(types: TypeTable, calls: seq<Call<C>>)
    ensures Mirrors(Fold(types, calls), Registry.Fold(AsActions(types, calls)))
  {
    if calls != [] {
      var init := calls[..|calls| - 1];
      FoldMirrors(types, init);
      var actions := AsActions(types, calls);
      assert actions[..|actions| - 1] == AsActions(types, init);
      match calls[|calls| - 1]
      case Open(topic, typeName, c, created) =>
        AddMirrors(Fold(types, init), Registry.Fold(AsActions(types, init)), types, topic, typeName, c, created);
      case Close(c) => DropMirrors(Fold(types, init), Registry.Fold(AsActions(types, init)), c);
    }
  }

  /** Over all runs: a publisher entry has clients, and they are those that some operation registered
      on the topic and none after that removed. */
  lemma {:induction false} PublisherIff<C>(types: TypeTable, calls: seq<Call<C>>, topic: name, c: C)
    ensures topic in Fold(types, calls) ==> Fold(types, calls)[topic].clients != {}
    ensures topic in Fold(types, calls) && c in Fold(types, calls)[topic].clients <==>
            Registered(AsActions(types, calls), topic, c)
  {
    FoldMirrors(types, calls);
    MirroredIff(Fold(types, calls), AsActions(types, calls), topic, c);
  }

  lemma {:induction false} MirroredIff<C>(pubs: PublisherMap<C>, actions: seq<Action<C>>, topic: name, c: C)
    requires Mirrors(pubs, Registry.Fold(actions))
    ensures topic in pubs ==> pubs[topic].clients != {}
    ensures topic in pubs && c in pubs[topic].clients <==> Registered(actions, topic, c)
  {
    MirroredClients(pubs, Registry.Fold(actions), topic);
    RegisteredIff(actions, topic, c);
  }

  lemma {:induction false} MirroredClients<C>(pubs: PublisherMap<C>, t: Table<C>, topic: name)
    requires Mirrors(pubs, t)
    ensures topic in pubs ==> pubs[topic].clients != {} && Clients(t, topic) == pubs[topic].clients
    ensures topic !in pubs ==> Clients(t, topic) == {}
  {
    var i := Find(t, topic);
    if i < |t| {
      assert pubs[t[i].topic] == Publisher(t[i].msgType, t[i].clients);
    }
  }
}
