/** A connected client: its receive buffer, its outgoing double buffer, and the handlers that run on
    socket events. */
module Connection {
  import opened Bytes
  import opened Framing
  import opened DoubleBuffer

  datatype WriteResult = Done | Aborted | Error

  class Client {
    var buffer: seq<byte>
    /** False once an unknown operation code has closed the connection. */
    var reading: bool
    ghost var dispatched: seq<Op>

    var writing: seq<byte>
    var pending: seq<byte>
    var inflight: bool
    ghost var sent: seq<byte>
    ghost var failed: bool

    /** What has been read: the operations dispatched, the bytes kept, whether reading stopped. */
    ghost function In(): Parsed
      reads this
    {
      Parsed(dispatched, buffer, !reading)
    }

    ghost function Out(): Outbox
      reads this
    {
      Outbox(writing, pending, sent, inflight, failed)
    }

    constructor ()
      ensures In() == NOTHING_READ && Out() == EMPTY_OUTBOX
    {
      buffer, reading, dispatched := [], true, [];
      writing, pending, inflight, sent, failed := [], [], false, [], false;
    }

    /** Reading past the end of the buffer yields an unknown number. */
    method Get32le(offset: nat) returns (n: uint32)
      ensures offset + 4 <= |buffer| ==> n == Get32(buffer, offset)
    {
      if offset + 4 <= |buffer| {
        n := Get32(buffer, offset);
      } else {
        n := *;
      }
    }

    /** The common body of the three operation handlers: take the first frame off the buffer, if it
        is complete. The second length is read before its bytes are known to have arrived; whatever
        number that gives, the outcome is the same. */
    method HandleFrame() returns (r: Option<Op>)
      requires buffer != [] && IsOpCode(buffer[0])
      modifies this`buffer
      ensures var p := Peel(old(buffer));
              if p.None? then r == None && buffer == old(buffer)
              else r == Some(p.value.op) && p.value.size <= |old(buffer)| && buffer == old(buffer)[p.value.size..]
    {
      if 1 + 2 * 4 > |buffer| {
        return None;
      }
      var offset := 1;
      var topicLength := Get32le(offset);
      offset := offset + 4;
      if offset + topicLength > |buffer| {
        return None;
      }
      var topic := buffer[offset..offset + topicLength];
      offset := offset + topicLength;
      var bodyLength := Get32le(offset);
      offset := offset + 4;
      if offset + bodyLength > |buffer| {
        return None;
      }
      var body := buffer[offset..offset + bodyLength];
      offset := offset + bodyLength;
      r := Some(MakeOp(buffer[0], topic, body));
      buffer := buffer[offset..];
    }

    /** A chunk has arrived: dispatch every complete frame, or stop at an unknown code. */
    method HandleRead(chunk: seq<byte>) returns (calls: seq<Op>)
      requires reading
      modifies this`buffer, this`reading, this`dispatched
      ensures In() == Feed(old(In()), chunk)
      ensures dispatched == old(dispatched) + calls
    {
      buffer := buffer + chunk;
      calls := [];
      ghost var all := Parse(buffer);
      assert [] + all.ops == all.ops;
      while buffer != []
        invariant reading
        invariant dispatched == old(dispatched) + calls
        invariant var q := Parse(buffer); all == Parsed(calls + q.ops, q.rest, q.stopped)
        decreases |buffer|
      {
        if !IsOpCode(buffer[0]) {
          assert calls + [] == calls;
          reading := false;
          return;
        }
        var r := HandleFrame();
        if r.None? {
          break;
        }
        Assoc(calls, [r.value], Parse(buffer).ops);
        calls := calls + [r.value];
        dispatched := dispatched + [r.value];
      }
      assert calls + [] == calls;
    }

    method Publish(topic: name, msg: seq<byte>)
      modifies this`writing, this`pending, this`inflight, this`sent
      ensures Out() == old(Out()).Send(topic, msg)
    {
      if writing == [] {
        writing := FillData(topic, msg);
        StartWrite();
      } else if |pending| < MAX_PENDING_SIZE {
        pending := pending + FillData(topic, msg);
      }
    }

    /** The outstanding write has ended. After an error other than cancellation the client is to be
        removed from the node. */
    method HandleWrite(result: WriteResult) returns (remove: bool)
      requires inflight
      modifies this`writing, this`pending, this`inflight, this`sent, this`failed
      ensures Out() == (if result.Done? then old(Out()).Complete() else old(Out()).Fail()) && In() == old(In())
      ensures remove <==> result.Error?
    {
      remove := false;
      inflight := false;
      if !result.Done? {
        failed := true;
        if !result.Aborted? {
          remove := true;
        }
        return;
      }
      writing := [];
      if pending != [] {
        writing, pending := pending, writing;
        StartWrite();
      }
    }

    method StartWrite()
      modifies this`inflight, this`sent
      ensures inflight && sent == old(sent) + writing
    {
      inflight := true;
      sent := sent + writing;
    }
  }

  /** A client that is given its chunks one after another reads what parsing them together gives. */
  method ReadChunks(client: Client, chunks: seq<seq<byte>>)
    requires client.In() == NOTHING_READ
    modifies client`buffer, client`reading, client`dispatched
    ensures client.In() == FeedAll(chunks)
  {
    assert chunks[..0] == [];
    for i := 0 to |chunks|
      invariant client.In() == FeedAll(chunks[..i])
    {
      ghost var soFar := chunks[..i + 1];
      assert soFar[..i] == chunks[..i];
      if client.reading {
        var _ := client.HandleRead(chunks[i]);
      }
    }
    assert chunks[..|chunks|] == chunks;
  }
}
