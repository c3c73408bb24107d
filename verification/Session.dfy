/** What a client asks for over one connection: publishers it opens, subscriptions, and messages it sends
    on the publishers open by then. */
module Session {
  import opened Bytes
  import opened Schema
  import opened Framing
  import Registry
  import opened Publishers
  import opened Connection
  import opened RosNode
  import opened Inbound

  datatype Request = Open(topic: name, typeName: name) | Subscribe(topic: name, typeName: name) | Send(post: Post)

  /** All lengths fit 32 bits, and a message conforms to its type and can be sent. */
  predicate Requestable(r: Request) {
    if r.Send? then Postable(r.post) else |r.topic| < TWO32 && |r.typeName| < TWO32
  }

  function OpOf(r: Request): Op
    requires Requestable(r)
  {
    match r
    case Open(topic, typeName) => AddPublisher(topic, typeName)
    case Subscribe(topic, typeName) => AddSubscriber(topic, typeName)
    case Send(post) => PostOp(post)
  }

  predicate AllRequestable(rs: seq<Request>) {
    forall i :: 0 <= i < |rs| ==> Requestable(rs[i])
  }

  function OpsOf(rs: seq<Request>): seq<Op>
    requires AllRequestable(rs)
  {
    seq(|rs|, i requires 0 <= i < |rs| => OpOf(rs[i]))
  }

  /** The publishers after the requests; `created(k)` is the middleware's answer to request k. */
  function Opened(pubs: PublisherMap<Client>, types: TypeTable, client: Client, rs: seq<Request>,
                  created: nat -> bool): PublisherMap<Client>
  {
    if rs == [] then pubs
    else
      var n := |rs| - 1;
      var before := Opened(pubs, types, client, rs[..n], created);
      if rs[n].Open? then AddTo(before, types, rs[n].topic, rs[n].typeName, client, created(n)) else before
  }

  /** The subscriber changes that the requests queue. */
  function Queued(types: TypeTable, client: Client, rs: seq<Request>, created: nat -> bool): seq<Action> {
    if rs == [] then []
    else
      var n := |rs| - 1;
      var before := Queued(types, client, rs[..n], created);
      if rs[n].Subscribe? && rs[n].typeName in types
      then before + [Registry.Add(rs[n].topic, types[rs[n].typeName], client, created(n))] else before
  }

  /** The messages sent, in order. */
  function Sent(rs: seq<Request>): seq<(name, seq<Value>)> {
    if rs == [] then []
    else
      var n := |rs| - 1;
      if rs[n].Send? then Sent(rs[..n]) + [(rs[n].post.topic, rs[n].post.msg)] else Sent(rs[..n])
  }

  function ViewAfter(v: View, types: TypeTable, client: Client, rs: seq<Request>, created: nat -> bool): View {
    View(Opened(v.pubs, types, client, rs, created), v.calls + Queued(types, client, rs, created),
         v.published + Sent(rs))
  }

  /** Each message is sent when its topic has a publisher of its type. */
  predicate Ready(pubs: PublisherMap<Client>, types: TypeTable, client: Client, rs: seq<Request>,
                  created: nat -> bool)
  {
    rs == [] ||
    var n := |rs| - 1;
    Ready(pubs, types, client, rs[..n], created) &&
    (rs[n].Send? ==>
       var open := Opened(pubs, types, client, rs[..n], created);
       rs[n].post.topic in open && open[rs[n].post.topic].msgType == rs[n].post.msgType)
  }

  // --- which topics are open ---

  /** A topic that is open stays open, with the same type. */
  lemma {:induction false} OpenStays(pubs: PublisherMap<Client>, types: TypeTable, client: Client,
                                     rs: seq<Request>, k: nat, created: nat -> bool, topic: name)
    requires k <= |rs| && topic in Opened(pubs, types, client, rs[..k], created)
    ensures topic in Opened(pubs, types, client, rs, created)
    ensures Opened(pubs, types, client, rs, created)[topic].msgType
         == Opened(pubs, types, client, rs[..k], created)[topic].msgType
    decreases |rs|
  {
    if k == |rs| {
      assert rs[..k] == rs;
    } else {
      var init := rs[..|rs| - 1];
      assert init[..k] == rs[..k];
      OpenStays(pubs, types, client, init, k, created, topic);
    }
  }

  /** The first request that opens the topic with a known type for which the middleware creates a
      publisher fixes its type. */
  lemma {:induction false} FirstOpens(pubs: PublisherMap<Client>, types: TypeTable, client: Client,
                                      rs: seq<Request>, k: nat, created: nat -> bool)
    requires k < |rs| && rs[k].Open? && rs[k].typeName in types && created(k)
    requires rs[k].topic !in pubs
    requires forall j :: 0 <= j < k && rs[j].Open? && rs[j].topic == rs[k].topic ==> rs[j].typeName !in types || !created(j)
    ensures rs[k].topic in Opened(pubs, types, client, rs, created)
    ensures Opened(pubs, types, client, rs, created)[rs[k].topic].msgType == types[rs[k].typeName]
  {
    NotOpened(pubs, types, client, rs, k, created, rs[k].topic);
    assert rs[..k + 1][..k] == rs[..k];
    OpenStays(pubs, types, client, rs, k + 1, created, rs[k].topic);
  }

  lemma {:induction false} NotOpened(pubs: PublisherMap<Client>, types: TypeTable, client: Client,
                                     rs: seq<Request>, k: nat, created: nat -> bool, topic: name)
    requires k <= |rs| && topic !in pubs
    requires forall j :: 0 <= j < k && rs[j].Open? && rs[j].topic == topic ==> rs[j].typeName !in types || !created(j)
    ensures topic !in Opened(pubs, types, client, rs[..k], created)
  {
    if k > 0 {
      NotOpened(pubs, types, client, rs, k - 1, created, topic);
      assert rs[..k][..k - 1] == rs[..k - 1];
    }
  }

  // --- main results ---

  /** Dispatching the requests opens the publishers, queues the subscriptions and publishes the messages,
      each read back with the type it was sent with. */
  lemma {:induction false} DispatchRequests(v: View, types: TypeTable, client: Client, rs: seq<Request>,
                                            created: nat -> bool)
    requires AllRequestable(rs) && Ready(v.pubs, types, client, rs, created)
    ensures DispatchAll(v, types, client, OpsOf(rs), created)
         == ViewAfter(v, types, client, rs, created)
    decreases |rs|
  {
    if rs == [] {
      assert v.calls + [] == v.calls && v.published + [] == v.published;
    } else {
      var n := |rs| - 1;
      var init, r := rs[..n], rs[n];
      assert AllRequestable(init) by {
        assert forall i :: 0 <= i < n ==> init[i] == rs[i];
      }
      DispatchRequests(v, types, client, init, created);
      assert OpsOf(rs)[..n] == OpsOf(init) && OpsOf(rs)[n] == OpOf(r);
      assert Requestable(r);
      DispatchRequest(v, types, client, rs, created);
    }
  }

  lemma {:induction false} DispatchRequest(v: View, types: TypeTable, client: Client, rs: seq<Request>,
                                           created: nat -> bool)
    requires rs != [] && Requestable(rs[|rs| - 1]) && Ready(v.pubs, types, client, rs, created)
    ensures Dispatch(ViewAfter(v, types, client, rs[..|rs| - 1], created), types, client, OpOf(rs[|rs| - 1]),
                     created(|rs| - 1))
         == ViewAfter(v, types, client, rs, created)
  {
    var r := rs[|rs| - 1];
    if r.Send? {
      assert Postable(r.post);
      PostReadsBack(r.post);
    }
  }

  /** A whole connection, end to end: frame the requests, join the frames and deliver the bytes in any
      chunks. The reader dispatches exactly the requests, keeps no bytes and does not stop; the node opens
      the publishers, queues the subscriptions, and publishes exactly the messages sent. */
  lemma {:induction false} SessionEndToEnd(v: View, types: TypeTable, client: Client, rs: seq<Request>,
                                           chunks: seq<seq<byte>>, created: nat -> bool)
    requires AllRequestable(rs) && Ready(v.pubs, types, client, rs, created)
    requires Flatten(chunks) == Frames(OpsOf(rs))
    ensures FeedAll(chunks) == Parsed(OpsOf(rs), [], false)
    ensures DispatchAll(v, types, client, FeedAll(chunks).ops, created)
         == ViewAfter(v, types, client, rs, created)
  {
    assert Frames(OpsOf(rs)) + [] == Frames(OpsOf(rs));
    forall i | 0 <= i < |rs|
      ensures Framed(OpsOf(rs)[i])
    {
      assert Requestable(rs[i]);
    }
    IncompleteIff([]);
    ParseFrames(OpsOf(rs), []);
    ChunkingIndependent(chunks);
    DispatchRequests(v, types, client, rs, created);
  }

  // --- what a client sends never unregisters it ---

  /** Dispatching operations of any kind only adds calls, and each asks to add that client. */
  lemma {:induction false} DispatchOnlyAdds(v: View, types: TypeTable, client: Client, ops: seq<Op>,
                                            created: nat -> bool)
    ensures var w := DispatchAll(v, types, client, ops, created);
            v.calls <= w.calls &&
            forall i :: |v.calls| <= i < |w.calls| ==> w.calls[i].Add? && w.calls[i].client == client
    decreases |ops|
  {
    if ops != [] {
      DispatchOnlyAdds(v, types, client, ops[..|ops| - 1], created);
    }
  }

  lemma {:induction false} DispatchKeepsPublishers(v: View, types: TypeTable, client: Client, ops: seq<Op>,
                                                   created: nat -> bool, topic: name)
    requires topic in v.pubs
    ensures var w := DispatchAll(v, types, client, ops, created);
            topic in w.pubs && v.pubs[topic].clients <= w.pubs[topic].clients
    decreases |ops|
  {
    if ops != [] {
      DispatchKeepsPublishers(v, types, client, ops[..|ops| - 1], created, topic);
    }
  }

  /** No bytes make the node forget a client, not even an unknown operation code that closes the
      connection: every registration, of the subscriptions asked for and of the publishers, is kept
      until a read or write fails. Without a complete frame before the code nothing changes at all. */
  lemma {:induction false} UnknownCodeKeepsClient(v: View, types: TypeTable, client: Client, buf: seq<byte>,
                                                  created: nat -> bool, topic: name)
    ensures var w := DispatchAll(v, types, client, Parse(buf).ops, created);
            Registry.Clients(Registry.Fold(v.calls), topic) <= Registry.Clients(Registry.Fold(w.calls), topic) &&
            (topic in v.pubs ==> topic in w.pubs && v.pubs[topic].clients <= w.pubs[topic].clients)
    ensures buf != [] && !IsOpCode(buf[0]) ==>
              Parse(buf).stopped && DispatchAll(v, types, client, Parse(buf).ops, created) == v
  {
    var ops := Parse(buf).ops;
    var w := DispatchAll(v, types, client, ops, created);
    DispatchOnlyAdds(v, types, client, ops, created);
    var more := w.calls[|v.calls|..];
    assert w.calls == v.calls + more;
    Registry.AddsKeepClients(v.calls, more, topic);
    if topic in v.pubs {
      DispatchKeepsPublishers(v, types, client, ops, created, topic);
    }
  }
}
