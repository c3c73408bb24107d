/** Outbound, end to end: runs of the registry, the executor and the clients' buffers together. What
    is taken from a subscription is what each of its clients can read back. */
module Outbound {
  import opened Bytes
  import opened Schema
  import opened Codec
  import opened Serializer
  import opened Framing
  import Buffer = DoubleBuffer
  import Registry
  import opened Connection
  import opened RosNode
  import opened Inbound

  /** A call or a drain at the registry, a message taken from a topic's subscription, or the outcome
      of a client's outstanding write. */
  datatype Event<!C(==)> =
    | Change(action: Registry.Action<C>)
    | Drain
    | Take(topic: name, msg: seq<Value>)
    | Written(client: C)
    | WriteFailed(client: C)

  datatype System<!C(==)> = System(registry: Registry.Deferred<C>, outs: map<C, Buffer.Outbox>)

  function Out<C(==)>(s: System<C>, c: C): Buffer.Outbox {
    if c in s.outs then s.outs[c] else Buffer.EMPTY_OUTBOX
  }

  /** The bytes forwarded for a message taken on the topic, if it has an entry of the message's type. */
  function Forwarded<C(==)>(t: Registry.Table<C>, topic: name, msg: seq<Value>): Option<seq<byte>> {
    var i := Registry.Find(t, topic);
    if i < |t| && ConformsAll(t[i].msgType, msg) then Some(EncodeAll(t[i].msgType, msg)) else None
  }

  function Step<C(==)>(s: System<C>, e: Event<C>): System<C> {
    match e
    case Change(a) => s.(registry := s.registry.(queue := s.registry.queue + [a]))
    case Drain => s.(registry := Registry.Deferred(Registry.ApplyAll(s.registry.table, s.registry.queue), []))
    case Take(topic, msg) =>
      (match Forwarded(s.registry.table, topic, msg)
       case Some(data) =>
         s.(outs := s.outs + map c | c in Registry.Clients(s.registry.table, topic) :: Out(s, c).Send(topic, data))
       case None => s)
    case Written(c) => s.(outs := s.outs[c := Buffer.Step(Out(s, c), Buffer.Written)])
    case WriteFailed(c) => s.(outs := s.outs[c := Buffer.Step(Out(s, c), Buffer.WriteFailed)])
  }

  function Run<C(==)>(events: seq<Event<C>>): System<C> {
    if events == [] then System(Registry.Deferred([], []), map[])
    else Step(Run(events[..|events| - 1]), events[|events| - 1])
  }

  /** The events of a run that the registry sees. */
  function RegistryEvents<C(==)>(events: seq<Event<C>>): seq<Registry.Event<C>> {
    if events == [] then []
    else
      var init := RegistryEvents(events[..|events| - 1]);
      match events[|events| - 1]
      case Change(a) => init + [Registry.Call(a)]
      case Drain => init + [Registry.Drain]
      case _ => init
  }

  /** What one event means to one client's buffers. */
  function ClientEvent<C(==)>(s: System<C>, e: Event<C>, c: C): seq<Buffer.Event> {
    match e
    case Take(topic, msg) =>
      var data := Forwarded(s.registry.table, topic, msg);
      if data.Some? && c in Registry.Clients(s.registry.table, topic) then [Buffer.Send(topic, data.value)] else []
    case Written(d) => if c == d then [Buffer.Written] else []
    case WriteFailed(d) => if c == d then [Buffer.WriteFailed] else []
    case _ => []
  }

  /** The events of a run that one client's buffers see. */
  function ClientEvents<C(==)>(events: seq<Event<C>>, c: C): seq<Buffer.Event> {
    if events == [] then []
    else
      var init := events[..|events| - 1];
      ClientEvents(init, c) + ClientEvent(Run(init), events[|events| - 1], c)
  }

  lemma {:induction false} RegistryRuns<C>(events: seq<Event<C>>)
    ensures Run(events).registry == Registry.Run(RegistryEvents(events))
  {
    if events != [] {
      RegistryRuns(events[..|events| - 1]);
      var evs := RegistryEvents(events);
      if events[|events| - 1].Change? || events[|events| - 1].Drain? {
        assert evs[..|evs| - 1] == RegistryEvents(events[..|events| - 1]);
      }
    }
  }

  lemma {:induction false} OutStep<C>(s: System<C>, e: Event<C>, c: C)
    ensures var evs := ClientEvent(s, e, c);
            |evs| <= 1 && Out(Step(s, e), c) == if evs == [] then Out(s, c) else Buffer.Step(Out(s, c), evs[0])
  {
  }

  /** Each client's buffers evolve as if it were alone with the events that concern it. */
  lemma {:induction false} ClientRuns<C>(events: seq<Event<C>>, c: C)
    ensures Out(Run(events), c) == Buffer.Run(ClientEvents(events, c))
  {
    if events != [] {
      var init, e := events[..|events| - 1], events[|events| - 1];
      ClientRuns(init, c);
      OutStep(Run(init), e, c);
      BufferRunStep(ClientEvents(init, c), ClientEvent(Run(init), e, c));
    }
  }

  lemma {:induction false} BufferRunStep(before: seq<Buffer.Event>, added: seq<Buffer.Event>)
    requires |added| <= 1
    ensures Buffer.Run(before + added)
         == if added == [] then Buffer.Run(before) else Buffer.Step(Buffer.Run(before), added[0])
  {
    if added == [] {
      assert before + added == before;
    } else {
      assert (before + added)[..|before + added| - 1] == before;
    }
  }

  /** Fan-out: a message taken on a topic adds exactly one frame to what is accepted for each client
      then registered, unless that client's buffers are full, and nothing for any other client. A
      client is registered exactly when some call already carried out registered it and none carried
      out after that removed it. */
  lemma {:induction false} FanOut<C>(events: seq<Event<C>>, topic: name, msg: seq<Value>, c: C)
    requires Forwarded(Run(events).registry.table, topic, msg).Some?
    ensures var data := Forwarded(Run(events).registry.table, topic, msg).value;
            var registered := Registry.Registered(CarriedOut(events), topic, c);
            Buffer.Accepted(ClientEvents(events + [Take(topic, msg)], c)) ==
            Buffer.Accepted(ClientEvents(events, c)) +
            (if registered && Out(Run(events), c).Accepts() then [Publish(topic, data)] else [])
  {
    TableOfCarriedOut(events);
    Registry.RegisteredIff(CarriedOut(events), topic, c);
    ClientRuns(events, c);
    TakeForClient(events, topic, msg, c);
  }

  /** The calls the executor has carried out so far, in order. */
  function CarriedOut<C(==)>(events: seq<Event<C>>): seq<Registry.Action<C>> {
    var evs := RegistryEvents(events);
    Registry.DeferredRefinesImmediate(evs);
    Registry.Calls(evs)[..Registry.Drained(evs)]
  }

  lemma {:induction false} TableOfCarriedOut<C>(events: seq<Event<C>>)
    ensures Run(events).registry.table == Registry.Fold(CarriedOut(events))
  {
    RegistryRuns(events);
    Registry.DeferredRefinesImmediate(RegistryEvents(events));
  }

  lemma {:induction false} TakeForClient<C>(events: seq<Event<C>>, topic: name, msg: seq<Value>, c: C)
    requires Forwarded(Run(events).registry.table, topic, msg).Some?
    requires Out(Run(events), c) == Buffer.Run(ClientEvents(events, c))
    ensures var s := Run(events);
            var data := Forwarded(s.registry.table, topic, msg).value;
            Buffer.Accepted(ClientEvents(events + [Take(topic, msg)], c)) ==
            Buffer.Accepted(ClientEvents(events, c)) +
            (if c in Registry.Clients(s.registry.table, topic) && Out(s, c).Accepts() then [Publish(topic, data)] else [])
  {
    assert (events + [Take(topic, msg)])[..|events|] == events;
    var before, added := ClientEvents(events, c), ClientEvent(Run(events), Take(topic, msg), c);
    AcceptedStep(before, added);
  }

  /** The messages accepted from at most one more event. */
  function NewOps(o: Buffer.Outbox, added: seq<Buffer.Event>): seq<Op> {
    if added != [] && added[0].Send? && o.Accepts() then [Publish(added[0].topic, added[0].msg)] else []
  }

  lemma {:induction false} AcceptedStep(before: seq<Buffer.Event>, added: seq<Buffer.Event>)
    requires |added| <= 1
    ensures Buffer.Accepted(before + added) == Buffer.Accepted(before) + NewOps(Buffer.Run(before), added)
  {
    if added == [] {
      assert before + added == before;
    } else {
      assert (before + added)[..|before + added| - 1] == before;
    }
  }

  // --- outbound, end to end ---

  /** The messages accepted for a client, with the types they were taken with. */
  function AcceptedPosts<C(==)>(events: seq<Event<C>>, c: C): seq<Post> {
    if events == [] then []
    else
      var init := events[..|events| - 1];
      AcceptedPosts(init, c) + NewPost(Run(init), events[|events| - 1], c)
  }

  /** The message an event makes a client accept, if any, with the type of its topic's entry. */
  function NewPost<C(==)>(s: System<C>, e: Event<C>, c: C): seq<Post> {
    var t := s.registry.table;
    if e.Take? && Forwarded(t, e.topic, e.msg).Some? && c in Registry.Clients(t, e.topic) && Out(s, c).Accepts()
    then [Post(e.topic, t[Registry.Find(t, e.topic)].msgType, e.msg)]
    else []
  }

  ghost predicate FramesOf(ps: seq<Post>, ops: seq<Op>) {
    |ps| == |ops| && forall i :: 0 <= i < |ps| ==> ConformsAll(ps[i].msgType, ps[i].msg) && ops[i] == PostOp(ps[i])
  }

  lemma {:induction false} NewPostIsFrame<C>(s: System<C>, e: Event<C>, c: C)
    ensures FramesOf(NewPost(s, e, c), NewOps(Out(s, c), ClientEvent(s, e, c)))
  {
  }

  lemma {:induction false} FramesOfMore(ps: seq<Post>, ops: seq<Op>, more: seq<Post>, moreOps: seq<Op>)
    requires FramesOf(ps, ops) && FramesOf(more, moreOps)
    ensures FramesOf(ps + more, ops + moreOps)
  {
  }

  lemma {:induction false} AcceptedAreFrames<C>(events: seq<Event<C>>, c: C)
    ensures FramesOf(AcceptedPosts(events, c), Buffer.Accepted(ClientEvents(events, c)))
  {
    if events != [] {
      var init, e := events[..|events| - 1], events[|events| - 1];
      var s := Run(init);
      var before, added := ClientEvents(init, c), ClientEvent(s, e, c);
      assert AcceptedPosts(events, c) == AcceptedPosts(init, c) + NewPost(s, e, c);
      assert ClientEvents(events, c) == before + added;
      AcceptedAreFrames(init, c);
      ClientRuns(init, c);
      FramesOfStep(AcceptedPosts(init, c), before, s, e, c);
    }
  }

  lemma {:induction false} FramesOfStep<C>(ps: seq<Post>, before: seq<Buffer.Event>, s: System<C>, e: Event<C>, c: C)
    requires FramesOf(ps, Buffer.Accepted(before)) && Out(s, c) == Buffer.Run(before)
    ensures FramesOf(ps + NewPost(s, e, c), Buffer.Accepted(before + ClientEvent(s, e, c)))
  {
    OutStep(s, e, c);
    NewPostIsFrame(s, e, c);
    AcceptedStep(before, ClientEvent(s, e, c));
    FramesOfMore(ps, Buffer.Accepted(before), NewPost(s, e, c), NewOps(Out(s, c), ClientEvent(s, e, c)));
  }

  /** Outbound, end to end, over all runs: parsing the bytes handed to a client's socket gives whole
      frames only, and they hold a first part of the messages accepted for that client: same topics,
      same order, and each body reads back as the message that was taken. */
  lemma {:induction false} OutboundEndToEnd<C>(events: seq<Event<C>>, c: C)
    requires AllPostable(AcceptedPosts(events, c))
    ensures var ps, p := AcceptedPosts(events, c), Parse(Out(Run(events), c).sent);
            p.rest == [] && !p.stopped && |p.ops| <= |ps| == |Buffer.Accepted(ClientEvents(events, c))| &&
            (forall i :: 0 <= i < |p.ops| ==>
                           p.ops[i].Publish? && p.ops[i].topic == ps[i].topic &&
                           Unserialized(ps[i].msgType, p.ops[i].body) == Some(ps[i].msg)) &&
            Frames(Buffer.Accepted(ClientEvents(events, c))[|p.ops|..]) == Out(Run(events), c).pending
  {
    var evs := ClientEvents(events, c);
    var ps := AcceptedPosts(events, c);
    AcceptedAreFrames(events, c);
    ClientRuns(events, c);
    forall i | 0 <= i < |ps|
      ensures Framed(PostOp(ps[i])) && Unserialized(ps[i].msgType, PostOp(ps[i]).body) == Some(ps[i].msg)
    {
      assert Postable(ps[i]);
      PostReadsBack(ps[i]);
    }
    Buffer.ReceiverSeesAccepted(evs);
    Buffer.Conservation(evs);
  }

  // --- one iteration of the executor is a run of take events ---

  function StepAll<C(==)>(s: System<C>, events: seq<Event<C>>): System<C> {
    if events == [] then s else Step(StepAll(s, events[..|events| - 1]), events[|events| - 1])
  }

  /** The messages taken from the first `n` subscriptions of the table, as events. */
  function TakeEvents(t: seq<Subscriber>, takes: seq<Option<seq<Value>>>, n: nat): seq<Event<Client>>
    requires Taken(t, takes) && n <= |t|
  {
    if n == 0 then [] else TakeEvents(t, takes, n - 1) + TakeEvent(t, takes, n - 1)
  }

  function TakeEvent(t: seq<Subscriber>, takes: seq<Option<seq<Value>>>, i: nat): seq<Event<Client>>
    requires Taken(t, takes) && i < |t|
  {
    if takes[i].Some? then [Take(t[i].topic, takes[i].value)] else []
  }

  lemma {:induction false} StepAllAppend<C>(s: System<C>, events: seq<Event<C>>, e: Event<C>)
    ensures StepAll(s, events + [e]) == Step(StepAll(s, events), e)
  {
    assert (events + [e])[..|events + [e]| - 1] == events;
  }

  lemma {:induction false} TakeStep(s: System<Client>, i: nat, msg: seq<Value>, c: Client)
    requires var t := s.registry.table; Registry.WellFormed(t) && i < |t| && ConformsAll(t[i].msgType, msg)
    ensures var sub := s.registry.table[i];
            Step(s, Take(sub.topic, msg)).registry == s.registry
    ensures var sub := s.registry.table[i];
            Out(Step(s, Take(sub.topic, msg)), c) ==
            if c in sub.clients then Out(s, c).Send(sub.topic, EncodeAll(sub.msgType, msg)) else Out(s, c)
  {
    Registry.FindIs(s.registry.table, i);
  }

  /** One more handle, ready or not. */
  lemma {:induction false} ServedStep(s: System<Client>, o: Buffer.Outbox, takes: seq<Option<seq<Value>>>,
                                      i: nat, c: Client)
    requires var t := s.registry.table; Registry.WellFormed(t) && Taken(t, takes) && i < |t|
    requires Out(s, c) == Served(o, c, s.registry.table, takes, i)
    ensures var s' := StepAll(s, TakeEvent(s.registry.table, takes, i));
            s'.registry == s.registry && Out(s', c) == Served(o, c, s.registry.table, takes, i + 1)
  {
    if takes[i].Some? {
      var e := Take(s.registry.table[i].topic, takes[i].value);
      assert TakeEvent(s.registry.table, takes, i) == [] + [e];
      StepAllAppend(s, [], e);
      TakeStep(s, i, takes[i].value, c);
    }
  }

  lemma {:induction false} StepAllMore<C>(s: System<C>, events: seq<Event<C>>, more: seq<Event<C>>)
    requires |more| <= 1
    ensures StepAll(s, events + more) == StepAll(StepAll(s, events), more)
  {
    if more == [] {
      assert events + more == events;
    } else {
      assert more == [] + [more[0]];
      StepAllAppend(s, events, more[0]);
      StepAllAppend(StepAll(s, events), [], more[0]);
    }
  }

  /** Serving one more handle is one more event, or none. */
  lemma {:induction false} ServedNext(s: System<Client>, mid: System<Client>, takes: seq<Option<seq<Value>>>, n: nat,
                                      c: Client)
    requires Registry.WellFormed(s.registry.table) && Taken(s.registry.table, takes) && n < |takes|
    requires mid == StepAll(s, TakeEvents(s.registry.table, takes, n)) && mid.registry == s.registry
    requires Out(mid, c) == Served(Out(s, c), c, s.registry.table, takes, n)
    ensures var s' := StepAll(s, TakeEvents(s.registry.table, takes, n + 1));
            s'.registry == s.registry && Out(s', c) == Served(Out(s, c), c, s.registry.table, takes, n + 1)
  {
    var t := s.registry.table;
    ServedStep(mid, Out(s, c), takes, n, c);
    StepAllMore(s, TakeEvents(t, takes, n), TakeEvent(t, takes, n));
  }

  /** What serving the wait set does to each client is what those events do to it in the system. */
  lemma {:induction false} ServedIsTakes(s: System<Client>, takes: seq<Option<seq<Value>>>, n: nat, c: Client)
    requires Registry.WellFormed(s.registry.table) && Taken(s.registry.table, takes) && n <= |takes|
    ensures var s' := StepAll(s, TakeEvents(s.registry.table, takes, n));
            s'.registry == s.registry && Out(s', c) == Served(Out(s, c), c, s.registry.table, takes, n)
  {
    if n == 0 {
      assert StepAll(s, []) == s;
    } else {
      var before := n - 1;
      ServedIsTakes(s, takes, before, c);
      ServedNext(s, StepAll(s, TakeEvents(s.registry.table, takes, before)), takes, before, c);
    }
  }
}
