/** Who receives and who publishes each topic: the tables the node keeps, the subscriber changes that
    wait to be carried out, and what a client's membership means in terms of the calls made. */
module Registry {
  import opened Schema
  import opened Framing

  type MsgType = seq<Member>

  datatype Subscriber<!C(==)> = Subscriber(topic: name, msgType: MsgType, clients: set<C>)

  datatype Publisher<!C(==)> = Publisher(msgType: MsgType, clients: set<C>)

  /** A queued change. `created` is whether the middleware would create the subscription, if asked. */
  datatype Action<!C(==)> =
    | Add(topic: name, msgType: MsgType, client: C, created: bool)
    | Drop(client: C)

  type Table<!C(==)> = seq<Subscriber<C>>

  /** The position of the topic's entry, or the table's length. */
  function Find<C>(t: Table<C>, topic: name): (i: nat)
    ensures i <= |t| && (i < |t| ==> t[i].topic == topic)
    ensures forall j :: 0 <= j < i ==> t[j].topic != topic
  {
    if t == [] || t[0].topic == topic then 0 else 1 + Find(t[1..], topic)
  }

  function DropClient<C(==)>(t: Table<C>, c: C): Table<C> {
    if t == [] then []
    else
      var left := t[0].clients - {c};
      var rest := DropClient(t[1..], c);
      if c in t[0].clients && left == {} then rest else [t[0].(clients := left)] + rest
  }

  function Apply<C(==)>(t: Table<C>, a: Action<C>): Table<C> {
    match a
    case Add(topic, msgType, c, created) =>
      var i := Find(t, topic);
      if i < |t| then t[i := t[i].(clients := t[i].clients + {c})]
      else if created then t + [Subscriber(topic, msgType, {c})]
      else t
    case Drop(c) => DropClient(t, c)
  }

  /** The table after carrying out the changes at once, in order. */
  function Fold<C(==)>(actions: seq<Action<C>>): Table<C> {
    if actions == [] then [] else Apply(Fold(actions[..|actions| - 1]), actions[|actions| - 1])
  }

  /** The clients registered on a topic. */
  function Clients<C(==)>(t: Table<C>, topic: name): set<C> {
    var i := Find(t, topic);
    if i < |t| then t[i].clients else {}
  }

  /** One entry a topic, none without clients. */
  predicate WellFormed<C>(t: Table<C>) {
    (forall i, j :: 0 <= i < j < |t| ==> t[i].topic != t[j].topic) &&
    (forall i :: 0 <= i < |t| ==> t[i].clients != {})
  }

  // --- what one change does to the table ---

  lemma {:induction false} FindIs<C>(t: Table<C>, i: nat)
    requires WellFormed(t) && i < |t|
    ensures Find(t, t[i].topic) == i
  {
    var k := Find(t, t[i].topic);
  }

  lemma {:induction false} DropKeeps<C>(t: Table<C>, c: C, i: nat)
    requires i < |t| && t[i].clients != {c}
    ensures t[i].(clients := t[i].clients - {c}) in DropClient(t, c)
  {
    if i == 0 {
      assert c in t[0].clients ==> t[0].clients - {c} + {c} == t[0].clients;
    } else {
      DropKeeps(t[1..], c, i - 1);
    }
  }

  lemma {:induction false} DropComesFrom<C>(t: Table<C>, c: C, s: Subscriber<C>)
    requires s in DropClient(t, c)
    ensures exists i :: 0 <= i < |t| && s == t[i].(clients := t[i].clients - {c}) && t[i].clients != {c}
  {
    if s in DropClient(t[1..], c) {
      DropComesFrom(t[1..], c, s);
      var i :| 0 <= i < |t[1..]| && s == t[1..][i].(clients := t[1..][i].clients - {c}) && t[1..][i].clients != {c};
      assert t[1..][i] == t[i + 1];
    } else {
      assert s == t[0].(clients := t[0].clients - {c});
    }
  }

  lemma {:induction false} DropWellFormed<C>(t: Table<C>, c: C)
    requires WellFormed(t)
    ensures WellFormed(DropClient(t, c))
  {
    if t != [] {
      var rest := DropClient(t[1..], c);
      assert forall i :: 0 <= i < |t[1..]| ==> t[1..][i] == t[i + 1];
      DropWellFormed(t[1..], c);
      forall i | 0 <= i < |rest|
        ensures rest[i].topic != t[0].topic
      {
        DropComesFrom(t[1..], c, rest[i]);
      }
      assert c !in t[0].clients ==> t[0].clients - {c} == t[0].clients;
    }
  }

  lemma {:induction false} ClientsOfEntry<C>(t: Table<C>, s: Subscriber<C>)
    requires WellFormed(t) && s in t
    ensures Clients(t, s.topic) == s.clients
  {
    var i :| 0 <= i < |t| && t[i] == s;
    FindIs(t, i);
  }

  lemma {:induction false} DropEffect<C>(t: Table<C>, c: C, topic: name)
    requires WellFormed(t)
    ensures WellFormed(DropClient(t, c))
    ensures Clients(DropClient(t, c), topic) == Clients(t, topic) - {c}
  {
    var t' := DropClient(t, c);
    var i := Find(t, topic);
    DropWellFormed(t, c);
    if i < |t| && t[i].clients != {c} {
      DropKeeps(t, c, i);
      ClientsOfEntry(t', t[i].(clients := t[i].clients - {c}));
    } else {
      forall s | s in t'
        ensures s.topic != topic
      {
        DropComesFrom(t, c, s);
        var k :| 0 <= k < |t| && s == t[k].(clients := t[k].clients - {c}) && t[k].clients != {c};
        FindIs(t, k);
      }
      assert {c} - {c} == {};
    }
  }

  lemma {:induction false} JoinEffect<C>(t: Table<C>, k: nat, c: C, topic: name)
    requires WellFormed(t) && k < |t|
    ensures var t' := t[k := t[k].(clients := t[k].clients + {c})];
            WellFormed(t') && Clients(t', topic) == Clients(t, topic) + (if t[k].topic == topic then {c} else {})
  {
    var t' := t[k := t[k].(clients := t[k].clients + {c})];
    assert forall j :: 0 <= j < |t| ==> t'[j].topic == t[j].topic;
    assert c in t'[k].clients;
    var i := Find(t, topic);
    if i < |t| {
      FindIs(t', i);
    }
  }

  lemma {:induction false} AppendEffect<C>(t: Table<C>, s: Subscriber<C>, topic: name)
    requires WellFormed(t) && Find(t, s.topic) == |t| && s.clients != {}
    ensures WellFormed(t + [s])
    ensures Clients(t + [s], topic) == if s.topic == topic then s.clients else Clients(t, topic)
  {
    var i := Find(t, topic);
    if s.topic == topic {
      FindIs(t + [s], |t|);
    } else if i < |t| {
      FindIs(t + [s], i);
    }
  }

  lemma {:induction false} AddEffect<C>(t: Table<C>, a: Action<C>, topic: name)
    requires WellFormed(t) && a.Add?
    ensures WellFormed(Apply(t, a))
    ensures var joins := a.topic == topic && (Clients(t, topic) != {} || a.created);
            Clients(Apply(t, a), topic) == Clients(t, topic) + (if joins then {a.client} else {})
  {
    var k := Find(t, a.topic);
    if k < |t| {
      JoinEffect(t, k, a.client, topic);
    } else if a.created {
      AppendEffect(t, Subscriber(a.topic, a.msgType, {a.client}), topic);
    }
  }

  /** Carrying out one change keeps one entry a topic and no entry without clients, and changes the
      membership of that client only. */
  lemma {:induction false} ApplyEffect<C>(t: Table<C>, a: Action<C>, topic: name)
    requires WellFormed(t)
    ensures WellFormed(Apply(t, a))
    ensures a.Drop? ==> Clients(Apply(t, a), topic) == Clients(t, topic) - {a.client}
    ensures a.Add? && a.topic == topic && (Clients(t, topic) != {} || a.created)
            ==> Clients(Apply(t, a), topic) == Clients(t, topic) + {a.client}
    ensures a.Add? && !(a.topic == topic && (Clients(t, topic) != {} || a.created))
            ==> Clients(Apply(t, a), topic) == Clients(t, topic)
  {
    if a.Drop? {
      DropEffect(t, a.client, topic);
    } else {
      AddEffect(t, a, topic);
    }
  }

  lemma {:induction false} FoldWellFormed<C>(actions: seq<Action<C>>)
    ensures WellFormed(Fold(actions))
  {
    if actions != [] {
      FoldWellFormed(actions[..|actions| - 1]);
      ApplyEffect(Fold(actions[..|actions| - 1]), actions[|actions| - 1], []);
    }
  }

  /** The i-th change registers the client on the topic: it asks for that, and the topic has an entry
      by then or the middleware creates the subscription. */
  predicate Registers<C(==)>(actions: seq<Action<C>>, i: nat, topic: name, c: C)
    requires i < |actions|
  {
    actions[i].Add? && actions[i].topic == topic && actions[i].client == c &&
    (Clients(Fold(actions[..i]), topic) != {} || actions[i].created)
  }

  /** The i-th change registers the client on the topic, and no later change removes that client. */
  predicate RegistersLast<C(==)>(actions: seq<Action<C>>, i: nat, topic: name, c: C)
    requires i < |actions|
  {
    Registers(actions, i, topic, c) && forall j :: i < j < |actions| ==> actions[j] != Drop(c)
  }

  ghost predicate Registered<C>(actions: seq<Action<C>>, topic: name, c: C) {
    exists i :: 0 <= i < |actions| && RegistersLast(actions, i, topic, c)
  }

  /** A client is registered on a topic exactly when some change registered it there and none after
      that removed it. */
  lemma {:induction false} RegisteredIff<C>(actions: seq<Action<C>>, topic: name, c: C)
    ensures c in Clients(Fold(actions), topic) <==> Registered(actions, topic, c)
  {
    if actions != [] {
      var n := |actions| - 1;
      var init, a := actions[..n], actions[n];
      RegisteredIff(init, topic, c);
      FoldWellFormed(init);
      ApplyEffect(Fold(init), a, topic);
      RegisteredStep(actions, topic, c);
    }
  }

  /** The last change registers the client itself, or leaves a client that was registered. */
  lemma {:induction false} RegisteredStep<C>(actions: seq<Action<C>>, topic: name, c: C)
    requires actions != []
    ensures var n := |actions| - 1;
            Registered(actions, topic, c) <==>
            Registers(actions, n, topic, c) || (Registered(actions[..n], topic, c) && actions[n] != Drop(c))
  {
    var n := |actions| - 1;
    if Registers(actions, n, topic, c) {
      assert RegistersLast(actions, n, topic, c);
    }
    if i :| 0 <= i < n && RegistersLast(actions[..n], i, topic, c) {
      LastStep(actions, i, topic, c);
    }
    if i :| 0 <= i < |actions| && RegistersLast(actions, i, topic, c) {
      if i < n {
        LastStep(actions, i, topic, c);
      }
    }
  }

  lemma {:induction false} LastStep<C>(actions: seq<Action<C>>, i: nat, topic: name, c: C)
    requires i < |actions| - 1
    ensures var n := |actions| - 1;
            RegistersLast(actions, i, topic, c) <==> RegistersLast(actions[..n], i, topic, c) && actions[n] != Drop(c)
  {
    var init := actions[..|actions| - 1];
    assert actions[..i] == init[..i];
    assert forall j :: 0 <= j < |init| ==> init[j] == actions[j];
  }

  /** Adding clients, any number of times, takes none away. */
  lemma {:induction false} AddsKeepClients<C>(actions: seq<Action<C>>, more: seq<Action<C>>, topic: name)
    requires forall i :: 0 <= i < |more| ==> more[i].Add?
    ensures Clients(Fold(actions), topic) <= Clients(Fold(actions + more), topic)
    decreases |more|
  {
    if more == [] {
      assert actions + more == actions;
    } else {
      var next := actions + [more[0]];
      AddGrows(actions, more[0], topic);
      assert forall i :: 0 <= i < |more| - 1 ==> more[1..][i] == more[i + 1];
      AddsKeepClients(next, more[1..], topic);
      assert next + more[1..] == actions + more;
    }
  }

  lemma {:induction false} AddGrows<C>(actions: seq<Action<C>>, a: Action<C>, topic: name)
    requires a.Add?
    ensures Clients(Fold(actions), topic) <= Clients(Fold(actions + [a]), topic)
  {
    assert (actions + [a])[..|actions|] == actions;
    FoldWellFormed(actions);
    AddEffect(Fold(actions), a, topic);
  }

  // --- the queue between the calls and the table ---

  datatype Deferred<!C(==)> = Deferred(table: Table<C>, queue: seq<Action<C>>)

  /** A call queues its change; the executor drains the whole queue at once. */
  datatype Event<!C(==)> = Call(action: Action<C>) | Drain

  function Run<C(==)>(events: seq<Event<C>>): Deferred<C> {
    if events == [] then Deferred([], [])
    else
      var s := Run(events[..|events| - 1]);
      match events[|events| - 1]
      case Call(a) => s.(queue := s.queue + [a])
      case Drain => Deferred(ApplyAll(s.table, s.queue), [])
  }

  function ApplyAll<C(==)>(t: Table<C>, queue: seq<Action<C>>): Table<C>
    decreases |queue|
  {
    if queue == [] then t else ApplyAll(Apply(t, queue[0]), queue[1..])
  }

  /** All changes asked for, in call order. */
  function Calls<C(==)>(events: seq<Event<C>>): seq<Action<C>> {
    if events == [] then []
    else
      var init := Calls(events[..|events| - 1]);
      match events[|events| - 1]
      case Call(a) => init + [a]
      case Drain => init
  }

  /** The number of calls made before the last drain. */
  function Drained<C(==)>(events: seq<Event<C>>): nat {
    if events == [] then 0
    else if events[|events| - 1].Drain? then |Calls(events)|
    else Drained(events[..|events| - 1])
  }

  lemma {:induction false} ApplyAllFolds<C>(done: seq<Action<C>>, queue: seq<Action<C>>)
    ensures ApplyAll(Fold(done), queue) == Fold(done + queue)
    decreases |queue|
  {
    if queue == [] {
      assert done + queue == done;
    } else {
      var next := done + [queue[0]];
      assert next[..|next| - 1] == done;
      assert next + queue[1..] == done + queue;
      ApplyAllFolds(next, queue[1..]);
    }
  }

  /** The table is what the first `k` calls make of it, and the queue holds the others in order. */
  predicate SplitAt<C(==)>(s: Deferred<C>, calls: seq<Action<C>>, k: nat) {
    k <= |calls| && s.table == Fold(calls[..k]) && s.queue == calls[k..]
  }

  lemma {:induction false} SplitAfterCall<C>(s: Deferred<C>, calls: seq<Action<C>>, k: nat, a: Action<C>)
    requires SplitAt(s, calls, k)
    ensures SplitAt(s.(queue := s.queue + [a]), calls + [a], k)
  {
    assert (calls + [a])[..k] == calls[..k] && (calls + [a])[k..] == calls[k..] + [a];
  }

  lemma {:induction false} SplitAfterDrain<C>(s: Deferred<C>, calls: seq<Action<C>>, k: nat)
    requires SplitAt(s, calls, k)
    ensures SplitAt(Deferred(ApplyAll(s.table, s.queue), []), calls, |calls|)
  {
    ApplyAllFolds(calls[..k], calls[k..]);
    assert calls[..k] + calls[k..] == calls == calls[..|calls|];
  }

  /** At every moment the table is what carrying out the calls at once would have made of those before
      the last drain, and the queue holds the others in order. */
  lemma {:induction false} DeferredRefinesImmediate<C>(events: seq<Event<C>>)
    ensures SplitAt(Run(events), Calls(events), Drained(events))
  {
    if events != [] {
      var init := events[..|events| - 1];
      DeferredRefinesImmediate(init);
      match events[|events| - 1]
      case Call(a) => SplitAfterCall(Run(init), Calls(init), Drained(init), a);
      case Drain => SplitAfterDrain(Run(init), Calls(init), Drained(init));
    }
  }

  /** The part of the calls that has been carried out only grows, and reaches all of them at a drain. */
  lemma {:induction false} DrainedGrows<C>(events: seq<Event<C>>, more: seq<Event<C>>)
    ensures Drained(events) <= Drained(events + more)
    ensures Calls(events) <= Calls(events + more)
    ensures more != [] && more[|more| - 1].Drain? ==> Drained(events + more) == |Calls(events + more)|
    decreases |more|
  {
    if more == [] {
      assert events + more == events;
    } else {
      var init := more[..|more| - 1];
      assert (events + more)[..|events + more| - 1] == events + init;
      DrainedGrows(events, init);
      DeferredRefinesImmediate(events + init);
    }
  }
}
