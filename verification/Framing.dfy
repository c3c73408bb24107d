/** The frames of the bridge protocol, and how a byte stream is cut into them. */
module Framing {
  import opened Bytes

  const OP_ADD_SUBSCRIBER: byte := 1
  const OP_ADD_PUBLISHER: byte := 2
  const OP_PUBLISH: byte := 3

  /** Topics and type names are byte strings. */
  type name = seq<byte>

  datatype Op =
    | AddSubscriber(topic: name, body: seq<byte>)
    | AddPublisher(topic: name, body: seq<byte>)
    | Publish(topic: name, body: seq<byte>)

  predicate IsOpCode(code: byte) {
    code == OP_ADD_SUBSCRIBER || code == OP_ADD_PUBLISHER || code == OP_PUBLISH
  }

  function OpCode(op: Op): byte {
    match op
    case AddSubscriber(_, _) => OP_ADD_SUBSCRIBER
    case AddPublisher(_, _) => OP_ADD_PUBLISHER
    case Publish(_, _) => OP_PUBLISH
  }

  function MakeOp(code: byte, topic: name, body: seq<byte>): Op
    requires IsOpCode(code)
  {
    if code == OP_ADD_SUBSCRIBER then AddSubscriber(topic, body)
    else if code == OP_ADD_PUBLISHER then AddPublisher(topic, body)
    else Publish(topic, body)
  }

  /** The bytes of an operation: its code, then topic and body, each after its length. */
  function Frame(op: Op): (bs: seq<byte>)
    ensures |bs| == 9 + |op.topic| + |op.body|
  {
    [OpCode(op)] + (Le32(|op.topic|) + (op.topic + (Le32(|op.body|) + op.body)))
  }

  /** Both lengths fit their fields. */
  predicate Framed(op: Op) {
    |op.topic| < TWO32 && |op.body| < TWO32
  }

  predicate AllFramed(ops: seq<Op>) {
    forall i :: 0 <= i < |ops| ==> Framed(ops[i])
  }

  function Frames(ops: seq<Op>): seq<byte> {
    if ops == [] then [] else Frame(ops[0]) + Frames(ops[1..])
  }

  /** `fill_data`: the frame of one published message, with the low 32 bits of each length. */
  function FillData(topic: name, msg: seq<byte>): seq<byte> {
    Frame(Publish(topic, msg))
  }

  datatype Peeled = Peeled(op: Op, size: nat)

  /** The frame at the front of the buffer, if all of it has arrived. */
  function Peel(buf: seq<byte>): Option<Peeled>
    requires buf != [] && IsOpCode(buf[0])
  {
    if |buf| < 9 then None
    else
      var topicEnd := 5 + Get32(buf, 1);
      if topicEnd + 4 > |buf| then None
      else
        var end := topicEnd + 4 + Get32(buf, topicEnd);
        if end > |buf| then None
        else Some(Peeled(MakeOp(buf[0], buf[5..topicEnd], buf[topicEnd + 4..end]), end))
  }

  /** What the read loop makes of its buffer: the operations dispatched, the bytes kept, and
      whether it stopped at an unknown operation code. */
  datatype Parsed = Parsed(ops: seq<Op>, rest: seq<byte>, stopped: bool)

  function Parse(buf: seq<byte>): Parsed
    decreases |buf|
  {
    if buf == [] then Parsed([], [], false)
    else if !IsOpCode(buf[0]) then Parsed([], buf, true)
    else
      match Peel(buf)
      case None => Parsed([], buf, false)
      case Some(p) =>
        var q := Parse(buf[p.size..]);
        Parsed([p.op] + q.ops, q.rest, q.stopped)
  }

  /** One chunk arrives; after a stop no chunk is read any more. */
  function Feed(p: Parsed, chunk: seq<byte>): Parsed {
    if p.stopped then p
    else
      var q := Parse(p.rest + chunk);
      Parsed(p.ops + q.ops, q.rest, q.stopped)
  }

  const NOTHING_READ := Parsed([], [], false)

  function FeedAll(chunks: seq<seq<byte>>): Parsed {
    if chunks == [] then NOTHING_READ
    else Feed(FeedAll(chunks[..|chunks| - 1]), chunks[|chunks| - 1])
  }

  // --- a frame at the front of the buffer is peeled, and only a frame is ---

  lemma {:induction false} FrameParts(op: Op, buf: seq<byte>)
    ensures At(buf, 0, Frame(op)) <==>
            buf != [] && buf[0] == OpCode(op) && At(buf, 1, Le32(|op.topic|)) && At(buf, 5, op.topic) &&
            At(buf, 5 + |op.topic|, Le32(|op.body|)) && At(buf, 9 + |op.topic|, op.body)
  {
    var d := Le32(|op.body|) + op.body;
    var c := op.topic + d;
    var b := Le32(|op.topic|) + c;
    AtSplit(buf, 0, [OpCode(op)], b);
    AtSplit(buf, 1, Le32(|op.topic|), c);
    AtSplit(buf, 5, op.topic, d);
    AtSplit(buf, 5 + |op.topic|, Le32(|op.body|), op.body);
    if buf != [] {
      assert buf[0..1] == [buf[0]];
    }
  }

  /** Exactly the frames whose lengths fit are peeled, whatever follows them. */
  lemma {:induction false} PeelIffFrame(buf: seq<byte>, op: Op, size: nat)
    requires buf != [] && IsOpCode(buf[0])
    ensures Peel(buf) == Some(Peeled(op, size)) <==>
            Framed(op) && size == |Frame(op)| && At(buf, 0, Frame(op))
  {
    if Peel(buf) == Some(Peeled(op, size)) {
      PeeledIsFrame(buf);
    }
    if Framed(op) && At(buf, 0, Frame(op)) {
      FrameIsPeeled(buf, op);
    }
  }

  lemma {:induction false} PeeledIsFrame(buf: seq<byte>)
    requires buf != [] && IsOpCode(buf[0]) && Peel(buf).Some?
    ensures var p := Peel(buf).value; Framed(p.op) && p.size == |Frame(p.op)| && At(buf, 0, Frame(p.op))
  {
    Le32OfGet(buf, 1);
    Le32OfGet(buf, 5 + Get32(buf, 1));
    FrameParts(Peel(buf).value.op, buf);
  }

  lemma {:induction false} FrameIsPeeled(buf: seq<byte>, op: Op)
    requires Framed(op) && At(buf, 0, Frame(op))
    ensures buf[0] == OpCode(op) && Peel(buf) == Some(Peeled(op, |Frame(op)|))
  {
    FrameParts(op, buf);
    GetOfLe32(buf, 1, |op.topic|);
    GetOfLe32(buf, 5 + |op.topic|, |op.body|);
    MakeOpOfCode(op);
  }

  lemma {:induction false} MakeOpOfCode(op: Op)
    ensures MakeOp(OpCode(op), op.topic, op.body) == op
  {
  }

  lemma {:induction false} PeelStable(buf: seq<byte>, more: seq<byte>)
    requires buf != [] && IsOpCode(buf[0]) && Peel(buf).Some?
    ensures Peel(buf + more) == Peel(buf) && Peel(buf).value.size <= |buf|
    ensures Framed(Peel(buf).value.op) && buf[..Peel(buf).value.size] == Frame(Peel(buf).value.op)
  {
    var p := Peel(buf).value;
    PeelIffFrame(buf, p.op, p.size);
    assert (buf + more)[..p.size] == buf[..p.size];
    PeelIffFrame(buf + more, p.op, p.size);
  }

  // --- chunking ---

  lemma {:induction false} ParseConcat(a: seq<byte>, b: seq<byte>)
    ensures var p, q := Parse(a), Parse(a + b);
            if p.stopped then q == Parsed(p.ops, p.rest + b, true)
            else var r := Parse(p.rest + b); q == Parsed(p.ops + r.ops, r.rest, r.stopped)
    decreases |a|
  {
    if a == [] {
      assert [] + b == b && a + b == b;
      assert [] + Parse(b).ops == Parse(b).ops;
    } else if IsOpCode(a[0]) {
      if Peel(a).Some? {
        var n := Peel(a).value.size;
        PeelStable(a, b);
        assert (a + b)[n..] == a[n..] + b;
        ParseConcat(a[n..], b);
        var t := Parse(a[n..]);
        assert Parse(a).rest == t.rest;
        Assoc([Peel(a).value.op], t.ops, Parse(t.rest + b).ops);
      } else {
        assert [] + Parse(a + b).ops == Parse(a + b).ops;
      }
    }
  }

  /** However the stream is cut into chunks, the operations dispatched and the decision to stop are
      those of parsing it whole, and so are the bytes kept unless it stopped. */
  lemma {:induction false} ChunkingIndependent(chunks: seq<seq<byte>>)
    ensures var p, q := FeedAll(chunks), Parse(Flatten(chunks));
            p.ops == q.ops && p.stopped == q.stopped && (!p.stopped ==> p.rest == q.rest)
    decreases |chunks|
  {
    if chunks != [] {
      var init, last := chunks[..|chunks| - 1], chunks[|chunks| - 1];
      ChunkingIndependent(init);
      assert chunks == init + [last];
      FlattenConcat(init, [last]);
      assert Flatten([last]) == last + [] == last;
      ParseConcat(Flatten(init), last);
    }
  }

  // --- the parse is the only way to read the stream as frames ---

  /** No frame can be dispatched from these bytes: they are empty, start with an unknown code, or
      lack part of their first frame. */
  ghost predicate Incomplete(rest: seq<byte>) {
    forall op :: Framed(op) ==> !At(rest, 0, Frame(op))
  }

  lemma {:induction false} IncompleteIff(rest: seq<byte>)
    ensures Incomplete(rest) <==> rest == [] || !IsOpCode(rest[0]) || Peel(rest) == None
  {
    forall op | Framed(op) && At(rest, 0, Frame(op))
      ensures rest != [] && IsOpCode(rest[0]) && Peel(rest).Some?
    {
      FrameParts(op, rest);
      PeelIffFrame(rest, op, |Frame(op)|);
    }
    if rest != [] && IsOpCode(rest[0]) && Peel(rest).Some? {
      PeelIffFrame(rest, Peel(rest).value.op, Peel(rest).value.size);
    }
  }

  /** The stream is the frames of the dispatched operations followed by the bytes kept, and those
      hold no complete frame; they begin with an unknown code exactly when the reader stopped. */
  lemma {:induction false} ParseSound(buf: seq<byte>)
    ensures var p := Parse(buf);
            buf == Frames(p.ops) + p.rest && AllFramed(p.ops) &&
            Incomplete(p.rest) && (p.stopped <==> p.rest != [] && !IsOpCode(p.rest[0]))
  {
    ParseConserves(buf);
    ParseRest(buf);
    IncompleteIff(Parse(buf).rest);
  }

  lemma {:induction false} ParseConserves(buf: seq<byte>)
    ensures buf == Frames(Parse(buf).ops) + Parse(buf).rest
    decreases |buf|
  {
    if buf != [] && IsOpCode(buf[0]) && Peel(buf).Some? {
      var tail := buf[Peel(buf).value.size..];
      ParseConserves(tail);
      FrameInFront(buf, Parse(tail).ops, Parse(tail).rest);
    } else {
      assert [] + buf == buf;
    }
  }

  lemma {:induction false} ParseRest(buf: seq<byte>)
    ensures var p := Parse(buf);
            AllFramed(p.ops) && (p.stopped <==> p.rest != [] && !IsOpCode(p.rest[0])) &&
            (p.rest != [] && !p.stopped ==> Peel(p.rest) == None)
    decreases |buf|
  {
    if buf != [] && IsOpCode(buf[0]) && Peel(buf).Some? {
      PeelStable(buf, []);
      ParseRest(buf[Peel(buf).value.size..]);
    }
  }

  lemma {:induction false} FrameInFront(buf: seq<byte>, ops: seq<Op>, rest: seq<byte>)
    requires buf != [] && IsOpCode(buf[0]) && Peel(buf).Some?
    requires buf[Peel(buf).value.size..] == Frames(ops) + rest
    ensures buf == Frames([Peel(buf).value.op] + ops) + rest
  {
    var p := Peel(buf).value;
    PeelStable(buf, []);
    assert buf == buf[..p.size] + buf[p.size..];
    FramesCons(p.op, ops, rest);
  }

  lemma {:induction false} FramesCons(op: Op, ops: seq<Op>, rest: seq<byte>)
    ensures Frames([op] + ops) + rest == Frame(op) + (Frames(ops) + rest)
  {
    assert ([op] + ops)[1..] == ops;
    Assoc(Frame(op), Frames(ops), rest);
  }

  /** Frames followed by bytes that hold no complete frame are parsed back exactly. */
  lemma {:induction false} ParseFrames(ops: seq<Op>, rest: seq<byte>)
    requires AllFramed(ops)
    requires Incomplete(rest)
    ensures Parse(Frames(ops) + rest) == Parsed(ops, rest, rest != [] && !IsOpCode(rest[0]))
    decreases |ops|
  {
    IncompleteIff(rest);
    var buf := Frames(ops) + rest;
    if ops == [] {
      assert buf == rest;
    } else {
      var tail := Frames(ops[1..]) + rest;
      assert [ops[0]] + ops[1..] == ops;
      FramesCons(ops[0], ops[1..], rest);
      assert At(buf, 0, Frame(ops[0]));
      FrameParts(ops[0], buf);
      PeelIffFrame(buf, ops[0], |Frame(ops[0])|);
      assert buf[|Frame(ops[0])|..] == tail;
      ParseFrames(ops[1..], rest);
    }
  }

  /** What `fill_data` writes is read back as that publish, whatever follows, exactly when both
      lengths fit 32 bits. */
  lemma {:induction false} FillDataReadBackIff(topic: name, msg: seq<byte>, tail: seq<byte>)
    ensures var buf := FillData(topic, msg) + tail;
            buf[0] == OP_PUBLISH &&
            (Peel(buf) == Some(Peeled(Publish(topic, msg), |FillData(topic, msg)|)) <==>
             |topic| < TWO32 && |msg| < TWO32)
  {
    var op := Publish(topic, msg);
    var buf := FillData(topic, msg) + tail;
    assert At(buf, 0, Frame(op));
    FrameParts(op, buf);
    PeelIffFrame(buf, op, |Frame(op)|);
  }

  /** The operation codes on the wire, with what follows them: 1 asks for a subscription, 2 for a
      publisher, 3 publishes. At any other byte the reader stops and keeps everything. */
  lemma {:induction false} ParseOfCode(code: byte, topic: name, body: seq<byte>, rest: seq<byte>)
    requires |topic| < TWO32 && |body| < TWO32
    ensures var buf := [code] + (Le32(|topic|) + (topic + (Le32(|body|) + body))) + rest;
            var p, q := Parse(buf), Parse(rest);
            (code == 1 ==> p == Parsed([AddSubscriber(topic, body)] + q.ops, q.rest, q.stopped)) &&
            (code == 2 ==> p == Parsed([AddPublisher(topic, body)] + q.ops, q.rest, q.stopped)) &&
            (code == 3 ==> p == Parsed([Publish(topic, body)] + q.ops, q.rest, q.stopped)) &&
            (code !in {1, 2, 3} ==> p == Parsed([], buf, true))
  {
    var buf := [code] + (Le32(|topic|) + (topic + (Le32(|body|) + body))) + rest;
    if code in {1, 2, 3} {
      var op := if code == 1 then AddSubscriber(topic, body)
      else if code == 2 then AddPublisher(topic, body) else Publish(topic, body);
      assert buf == Frame(op) + rest;
      ParseNext(op, rest);
    }
  }

  lemma {:induction false} ParseNext(op: Op, rest: seq<byte>)
    requires Framed(op)
    ensures var q := Parse(rest);
            Parse(Frame(op) + rest) == Parsed([op] + q.ops, q.rest, q.stopped)
  {
    var buf := Frame(op) + rest;
    assert buf[..|Frame(op)|] == Frame(op) && buf[|Frame(op)|..] == rest;
    FrameIsPeeled(buf, op);
  }

  lemma {:induction false} FramesConcat(a: seq<Op>, b: seq<Op>)
    ensures Frames(a + b) == Frames(a) + Frames(b)
  {
    if a == [] {
      assert a + b == b;
    } else {
      FramesConcat(a[1..], b);
      assert (a + b)[0] == a[0] && (a + b)[1..] == a[1..] + b;
      Assoc(Frame(a[0]), Frames(a[1..]), Frames(b));
    }
  }
}
