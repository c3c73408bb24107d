/** Inbound, end to end: what a client serializes, frames and sends is what the node publishes. */
module Inbound {
  import opened Bytes
  import opened Schema
  import opened Codec
  import opened ReadBack
  import opened Serializer
  import opened Framing
  import Registry
  import opened Publishers
  import opened Connection
  import opened RosNode

  /** A message to be sent on a topic, with its type. */
  datatype Post = Post(topic: name, msgType: Registry.MsgType, msg: seq<Value>)

  /** The message conforms to its type, and all its lengths and that of its frame fit 32 bits. */
  predicate Postable(p: Post) {
    ConformsAll(p.msgType, p.msg) && SendableAll(p.msgType, p.msg) && Framed(PostOp(p))
  }

  function PostOp(p: Post): Op
    requires ConformsAll(p.msgType, p.msg)
  {
    Publish(p.topic, EncodeAll(p.msgType, p.msg))
  }

  predicate AllPostable(ps: seq<Post>) {
    forall p :: p in ps ==> Postable(p)
  }

  function PostOps(ps: seq<Post>): (ops: seq<Op>)
    requires AllPostable(ps)
    ensures |ops| == |ps|
  {
    if ps == [] then [] else
    assert Postable(ps[0]);
    [PostOp(ps[0])] + PostOps(ps[1..])
  }

  /** The messages published for a sequence of operations by publishers that do not change. */
  function PublishedForAll<C>(pubs: PublisherMap<C>, ops: seq<Op>): seq<(name, seq<Value>)> {
    if ops == [] then []
    else
      (if ops[0].Publish? then PublishedFor(pubs, ops[0].topic, ops[0].body) else []) +
      PublishedForAll(pubs, ops[1..])
  }

  function Messages(ps: seq<Post>): seq<(name, seq<Value>)> {
    seq(|ps|, i requires 0 <= i < |ps| => (ps[i].topic, ps[i].msg))
  }

  lemma {:induction false} PostOpsAre(ps: seq<Post>)
    requires AllPostable(ps)
    ensures AllFramed(PostOps(ps))
    ensures forall i :: 0 <= i < |ps| ==> Postable(ps[i]) && PostOps(ps)[i] == PostOp(ps[i])
  {
    if ps != [] {
      assert Postable(ps[0]);
      PostOpsAre(ps[1..]);
    }
  }

  lemma {:induction false} PostReadsBack(p: Post)
    requires ConformsAll(p.msgType, p.msg) && SendableAll(p.msgType, p.msg)
    ensures Unserialized(p.msgType, EncodeAll(p.msgType, p.msg)) == Some(p.msg)
  {
    BodyReadsBack(p.msgType, p.msg, []);
    assert EncodeAll(p.msgType, p.msg) + [] == EncodeAll(p.msgType, p.msg);
  }

  lemma {:induction false} PostsArePublished<C>(pubs: PublisherMap<C>, ps: seq<Post>)
    requires AllPostable(ps)
    requires forall i :: 0 <= i < |ps| ==> ps[i].topic in pubs && pubs[ps[i].topic].msgType == ps[i].msgType
    ensures PublishedForAll(pubs, PostOps(ps)) == Messages(ps)
  {
    if ps != [] {
      PostIsPublished(pubs, ps[0]);
      PostsArePublished(pubs, ps[1..]);
      PublishedForAllConcat(pubs, [PostOp(ps[0])], PostOps(ps[1..]));
      assert PublishedForAll(pubs, [PostOp(ps[0])]) == [(ps[0].topic, ps[0].msg)] + [];
      assert Messages(ps) == [(ps[0].topic, ps[0].msg)] + Messages(ps[1..]);
    }
  }

  lemma {:induction false} PostIsPublished<C>(pubs: PublisherMap<C>, p: Post)
    requires Postable(p) && p.topic in pubs && pubs[p.topic].msgType == p.msgType
    ensures PublishedFor(pubs, p.topic, PostOp(p).body) == [(p.topic, p.msg)]
  {
    PostReadsBack(p);
  }

  /** Inbound, end to end: serialize any messages, frame each with `fill_data`, join the frames and
      deliver the bytes in any chunks. The reader dispatches exactly those publishes, in order, keeps
      no bytes and does not stop, and the node publishes exactly the messages. */
  lemma {:induction false} InboundEndToEnd<C>(ps: seq<Post>, chunks: seq<seq<byte>>, pubs: PublisherMap<C>)
    requires AllPostable(ps)
    requires forall i :: 0 <= i < |ps| ==> ps[i].topic in pubs && pubs[ps[i].topic].msgType == ps[i].msgType
    requires Flatten(chunks) == Frames(PostOps(ps))
    ensures FeedAll(chunks) == Parsed(PostOps(ps), [], false)
    ensures PublishedForAll(pubs, FeedAll(chunks).ops) == Messages(ps)
  {
    assert Frames(PostOps(ps)) + [] == Frames(PostOps(ps));
    IncompleteIff([]);
    PostOpsAre(ps);
    ParseFrames(PostOps(ps), []);
    ChunkingIndependent(chunks);
    PostsArePublished(pubs, ps);
  }

  // --- what is published for any body ---

  /** A received body publishes exactly one message, the one it is read as with the type of the topic's
      publisher, or none: without a publisher, or if the body cannot be read. Nothing else changes. */
  lemma {:induction false} PublishLaw(v: View, types: TypeTable, client: Client, topic: name, body: seq<byte>,
                                      created: bool)
    ensures var w := Dispatch(v, types, client, Publish(topic, body), created);
            if topic in v.pubs && DecodeAll(v.pubs[topic].msgType, body, 0).Ok?
            then w == v.(published := v.published + [(topic, DecodeAll(v.pubs[topic].msgType, body, 0).value)])
            else w == v
  {
    assert v.published + [] == v.published;
  }

  /** So a message of the topic's type is published whatever bytes follow it, and no part of it is
      published if any of its bytes are missing. */
  lemma {:induction false} WholeOrNothing(v: View, types: TypeTable, client: Client, p: Post, tail: seq<byte>, k: nat,
                                          created: bool)
    requires ConformsAll(p.msgType, p.msg) && SendableAll(p.msgType, p.msg)
    requires p.topic in v.pubs && v.pubs[p.topic].msgType == p.msgType
    ensures Dispatch(v, types, client, Publish(p.topic, EncodeAll(p.msgType, p.msg) + tail), created)
         == v.(published := v.published + [(p.topic, p.msg)])
    ensures k < |EncodeAll(p.msgType, p.msg)| ==>
              Dispatch(v, types, client, Publish(p.topic, EncodeAll(p.msgType, p.msg)[..k]), created) == v
  {
    var code := EncodeAll(p.msgType, p.msg);
    BodyReadsBack(p.msgType, p.msg, tail);
    PublishLaw(v, types, client, p.topic, code + tail, created);
    if k < |code| {
      CutBodyRejected(p.msgType, p.msg, k);
      PublishLaw(v, types, client, p.topic, code[..k], created);
    }
  }

  // --- inbound, on the node and a client as they are ---

  lemma {:induction false} PublishedForAllConcat<C>(pubs: PublisherMap<C>, a: seq<Op>, b: seq<Op>)
    ensures PublishedForAll(pubs, a + b) == PublishedForAll(pubs, a) + PublishedForAll(pubs, b)
  {
    if a == [] {
      assert a + b == b;
    } else {
      PublishedForAllConcat(pubs, a[1..], b);
      assert (a + b)[0] == a[0] && (a + b)[1..] == a[1..] + b;
      var first := if a[0].Publish? then PublishedFor(pubs, a[0].topic, a[0].body) else [];
      Assoc(first, PublishedForAll(pubs, a[1..]), PublishedForAll(pubs, b));
    }
  }

  predicate AllPublish(ops: seq<Op>) {
    forall i :: 0 <= i < |ops| ==> ops[i].Publish?
  }

  /** Dispatching publish operations changes neither publishers nor calls. */
  lemma {:induction false} DispatchPublishes(v: View, types: TypeTable, client: Client, ops: seq<Op>,
                                             created: nat -> bool)
    requires AllPublish(ops)
    ensures DispatchAll(v, types, client, ops, created) == v.(published := v.published + PublishedForAll(v.pubs, ops))
    decreases |ops|
  {
    if ops != [] {
      var n := |ops| - 1;
      var init, last := ops[..n], ops[n];
      DispatchPublishes(v, types, client, init, created);
      assert ops == init + [last];
      PublishedForAllConcat(v.pubs, init, [last]);
      var one := PublishedFor(v.pubs, last.topic, last.body);
      assert PublishedForAll(v.pubs, [last]) == one + [] == one;
      Assoc(v.published, PublishedForAll(v.pubs, init), one);
    }
  }

  lemma {:induction false} FeedGrows(chunks: seq<seq<byte>>, i: nat)
    requires i <= |chunks|
    ensures FeedAll(chunks[..i]).ops <= FeedAll(chunks).ops
    ensures FeedAll(chunks[..i]).stopped ==> FeedAll(chunks).stopped
    decreases |chunks|
  {
    if i == |chunks| {
      assert chunks[..i] == chunks;
    } else {
      var init := chunks[..|chunks| - 1];
      FeedGrows(init, i);
      assert init[..i] == chunks[..i];
    }
  }

  ghost function PublishedSoFar(v: View, ops: seq<Op>): View {
    v.(published := v.published + PublishedForAll(v.pubs, ops))
  }

  lemma {:induction false} PublishMore(v: View, all: seq<Op>, seen: seq<Op>, now: seq<Op>,
                                       types: TypeTable, client: Client, created: nat -> bool)
    requires AllPublish(all) && seen <= now <= all
    ensures DispatchAll(PublishedSoFar(v, seen), types, client, now[|seen|..], created) == PublishedSoFar(v, now)
  {
    var more := now[|seen|..];
    forall j | 0 <= j < |more|
      ensures more[j].Publish?
    {
      assert more[j] == all[|seen| + j];
    }
    DispatchPublishes(PublishedSoFar(v, seen), types, client, more, created);
    assert now == seen + more;
    PublishedForAllConcat(v.pubs, seen, more);
    Assoc(v.published, PublishedForAll(v.pubs, seen), PublishedForAll(v.pubs, more));
  }

  /** One chunk of the stream: the client is still reading, and what it dispatches is published on top of
      what was published before. */
  lemma {:induction false} ChunkPublishes(v: View, all: seq<Op>, chunks: seq<seq<byte>>, i: nat, types: TypeTable,
                                          client: Client, created: nat -> bool)
    requires i < |chunks| && AllPublish(all) && FeedAll(chunks) == Parsed(all, [], false)
    ensures var p, q := FeedAll(chunks[..i]), FeedAll(chunks[..i + 1]);
            !p.stopped && q == Feed(p, chunks[i]) && p.ops <= q.ops &&
            DispatchAll(PublishedSoFar(v, p.ops), types, client, q.ops[|p.ops|..], created) == PublishedSoFar(v, q.ops)
  {
    assert chunks[..i + 1][..i] == chunks[..i];
    FeedGrows(chunks, i);
    FeedGrows(chunks, i + 1);
    FeedGrows(chunks[..i + 1], i);
    PublishMore(v, all, FeedAll(chunks[..i]).ops, FeedAll(chunks[..i + 1]).ops, types, client, created);
  }

  /** A client sends serialized and framed messages on topics that have publishers of their types. In
      whatever chunks the bytes arrive, the node publishes exactly those messages in order, the client
      goes on reading with an empty buffer, and nothing else changes at the node. */
  method ReceivePosts(node: Node, client: Client, chunks: seq<seq<byte>>, ghost ps: seq<Post>, created: nat -> bool)
    requires node.Valid() && client.In() == NOTHING_READ
    requires AllPostable(ps) && Flatten(chunks) == Frames(PostOps(ps))
    requires forall i :: 0 <= i < |ps| ==>
                           ps[i].topic in node.publishers && node.publishers[ps[i].topic].msgType == ps[i].msgType
    modifies node`actions, node`calls, node`publishers, node`published
    modifies client`buffer, client`reading, client`dispatched
    ensures node.State() == old(node.State()).(published := old(node.published) + Messages(ps))
    ensures client.In() == Parsed(PostOps(ps), [], false)
  {
    ghost var before, all := node.State(), PostOps(ps);
    InboundEndToEnd(ps, chunks, before.pubs);
    PostOpsAre(ps);
    assert AllPublish(all);
    assert chunks[..0] == [];
    assert before.published + [] == before.published;
    for i := 0 to |chunks|
      invariant node.Valid()
      invariant client.In() == FeedAll(chunks[..i])
      invariant node.State() == PublishedSoFar(before, client.dispatched)
    {
      ChunkPublishes(before, all, chunks, i, node.types, client, created);
      node.Receive(client, chunks[i], created);
    }
    assert chunks[..|chunks|] == chunks;
  }
}
