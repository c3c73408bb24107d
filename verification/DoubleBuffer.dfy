/** The outgoing double buffer of a client: one buffer being written, one waiting. */
module DoubleBuffer {
  import opened Bytes
  import opened Framing

  const MAX_PENDING_SIZE: nat := 1073741824

  /** `sent` is everything handed to the socket so far, `inflight` a write not yet completed. */
  datatype Outbox = Outbox(writing: seq<byte>, pending: seq<byte>, sent: seq<byte>, inflight: bool, failed: bool) {

    predicate Accepts() {
      writing == [] || |pending| < MAX_PENDING_SIZE
    }

    function Send(topic: name, msg: seq<byte>): Outbox {
      var data := FillData(topic, msg);
      if writing == [] then this.(writing := data, sent := sent + data, inflight := true)
      else if |pending| < MAX_PENDING_SIZE then this.(pending := pending + data)
      else this
    }

    function Complete(): Outbox {
      if pending != [] then this.(writing := pending, pending := [], sent := sent + pending, inflight := true)
      else this.(writing := [], inflight := false)
    }

    function Fail(): Outbox {
      this.(inflight := false, failed := true)
    }

    /** Before a failure a write is outstanding exactly when `writing` holds bytes, nothing waits
        while none is, and what is being written is what was handed over last. */
    predicate Valid() {
      (failed ==> !inflight && writing != []) &&
      (!failed ==> (inflight <==> writing != []) && (writing == [] ==> pending == [])) &&
      |writing| <= |sent| && sent[|sent| - |writing|..] == writing
    }
  }

  const EMPTY_OUTBOX := Outbox([], [], [], false, false)

  /** `Written` and `WriteFailed` are the two outcomes of the outstanding write. */
  datatype Event = Send(topic: name, msg: seq<byte>) | Written | WriteFailed

  /** The socket reports an outcome only while a write is outstanding. */
  function Step(o: Outbox, e: Event): Outbox {
    match e
    case Send(topic, msg) => o.Send(topic, msg)
    case Written => if o.inflight then o.Complete() else o
    case WriteFailed => if o.inflight then o.Fail() else o
  }

  function Run(events: seq<Event>): Outbox {
    if events == [] then EMPTY_OUTBOX
    else Step(Run(events[..|events| - 1]), events[|events| - 1])
  }

  /** The messages that were not discarded, in order. */
  function Accepted(events: seq<Event>): seq<Op> {
    if events == [] then []
    else
      var init, e := events[..|events| - 1], events[|events| - 1];
      if e.Send? && Run(init).Accepts() then Accepted(init) + [Publish(e.topic, e.msg)] else Accepted(init)
  }

  /** How many of the accepted messages have been handed to the socket. */
  function Handed(events: seq<Event>): nat {
    if events == [] then 0
    else
      var init, e := events[..|events| - 1], events[|events| - 1];
      var o := Run(init);
      if (e.Send? && o.writing == []) || (e.Written? && o.inflight) then |Accepted(events)| else Handed(init)
  }

  lemma {:induction false} RunValid(events: seq<Event>)
    ensures Run(events).Valid()
  {
    if events != [] {
      RunValid(events[..|events| - 1]);
      StepValid(Run(events[..|events| - 1]), events[|events| - 1]);
    }
  }

  /** Every step keeps the invariant. */
  lemma {:induction false} StepValid(o: Outbox, e: Event)
    requires o.Valid()
    ensures Step(o, e).Valid()
  {
    var p := Step(o, e);
    if p.sent != o.sent {
      assert p.sent[|p.sent| - |p.writing|..] == p.writing;
    }
  }

  // --- main results ---

  /** Over any interleaving of messages and write outcomes, what was handed to the socket is the
      whole frames of a first part of the accepted messages, and what waits is the frames of the rest. */
  lemma {:induction false} Conservation(events: seq<Event>)
    ensures Handed(events) <= |Accepted(events)|
    ensures Run(events).sent == Frames(Accepted(events)[..Handed(events)])
    ensures Run(events).pending == Frames(Accepted(events)[Handed(events)..])
  {
    if events != [] {
      var init, e := events[..|events| - 1], events[|events| - 1];
      Conservation(init);
      RunValid(init);
      ConservationStep(Run(init), e, Accepted(init), Handed(init));
      var acc := Accepted(events);
      assert acc[..|acc|] == acc;
    }
  }

  lemma {:induction false} ConservationStep(o: Outbox, e: Event, acc: seq<Op>, k: nat)
    requires o.Valid() && k <= |acc|
    requires o.sent == Frames(acc[..k]) && o.pending == Frames(acc[k..])
    ensures var p := Step(o, e);
            var acc' := if e.Send? && o.Accepts() then acc + [Publish(e.topic, e.msg)] else acc;
            if (e.Send? && o.writing == []) || (e.Written? && o.inflight)
            then p.sent == Frames(acc') && p.pending == []
            else p.sent == Frames(acc'[..k]) && p.pending == Frames(acc'[k..])
  {
    assert acc == acc[..k] + acc[k..];
    FramesConcat(acc[..k], acc[k..]);
    if e.Send? {
      var op := Publish(e.topic, e.msg);
      FramesOne(op);
      if o.writing == [] {
        FramesConcat(acc, [op]);
        if !o.failed {
          assert o.sent == Frames(acc[..k]) + o.pending;
        }
      } else if |o.pending| < MAX_PENDING_SIZE {
        FramesConcat(acc[k..], [op]);
        assert (acc + [op])[..k] == acc[..k] && (acc + [op])[k..] == acc[k..] + [op];
      }
    }
  }

  lemma {:induction false} FramesOne(op: Op)
    ensures Frames([op]) == Frame(op)
  {
    assert Frame(op) + [] == Frame(op);
  }

  /** A receiver that parses what was handed over gets exactly the handed-over messages, in order,
      with no partial frame left, provided their lengths fit 32 bits. */
  lemma {:induction false} ReceiverSeesAccepted(events: seq<Event>)
    requires AllFramed(Accepted(events))
    ensures Handed(events) <= |Accepted(events)|
    ensures Parse(Run(events).sent) == Parsed(Accepted(events)[..Handed(events)], [], false)
  {
    Conservation(events);
    var ops := Accepted(events)[..Handed(events)];
    assert Frames(ops) + [] == Frames(ops);
    IncompleteIff([]);
    ParseFrames(ops, []);
  }

  /** A message is accepted in full while less than one gibibyte waits, and otherwise discarded without
      a trace. */
  lemma {:induction false} AcceptedIff(events: seq<Event>, topic: name, msg: seq<byte>)
    ensures var o, next := Run(events), events + [Send(topic, msg)];
            if |o.pending| < 1073741824 then Accepted(next) == Accepted(events) + [Publish(topic, msg)]
            else Accepted(next) == Accepted(events) && Run(next) == o
  {
    assert (events + [Send(topic, msg)])[..|events|] == events;
    RunValid(events);
  }

  /** Waiting bytes exceed the limit by less than the frame accepted last. */
  lemma {:induction false} PendingBounded(events: seq<Event>)
    ensures var o, acc := Run(events), Accepted(events);
            o.pending != [] ==> acc != [] && |o.pending| < 1073741824 + |Frame(acc[|acc| - 1])|
  {
    if events != [] {
      PendingBounded(events[..|events| - 1]);
      RunValid(events[..|events| - 1]);
    }
  }

  /** Until the outstanding write has an outcome, any number of messages change neither the buffer
      being written nor what was handed over: no second write is started. */
  lemma {:induction false} OneWriteAtATime(events: seq<Event>, more: seq<Event>)
    requires Run(events).inflight && forall i :: 0 <= i < |more| ==> more[i].Send?
    ensures var o, p := Run(events), Run(events + more);
            p.writing == o.writing && p.sent == o.sent && p.inflight
    decreases |more|
  {
    if more == [] {
      assert events + more == events;
    } else {
      var next := events + [more[0]];
      SendDuringWriteStep(events, more[0]);
      assert forall i :: 0 <= i < |more| - 1 ==> more[1..][i] == more[i + 1];
      OneWriteAtATime(next, more[1..]);
      assert next + more[1..] == events + more;
    }
  }

  lemma {:induction false} SendDuringWriteStep(events: seq<Event>, e: Event)
    requires Run(events).inflight && e.Send?
    ensures var o, p := Run(events), Run(events + [e]); p.writing == o.writing && p.sent == o.sent && p.inflight
  {
    assert (events + [e])[..|events|] == events;
    RunValid(events);
    SendDuringWrite(Run(events), e.topic, e.msg);
  }

  lemma {:induction false} SendDuringWrite(o: Outbox, topic: name, msg: seq<byte>)
    requires o.Valid() && o.inflight
    ensures var p := o.Send(topic, msg); p.writing == o.writing && p.sent == o.sent && p.inflight
  {
  }

  /** After a write error no further write starts, whatever is still published. */
  lemma {:induction false} NothingSentAfterFailure(events: seq<Event>, more: seq<Event>)
    requires Run(events).failed
    ensures Run(events + more).failed && Run(events + more).sent == Run(events).sent
    decreases |more|
  {
    if more == [] {
      assert events + more == events;
    } else {
      var init := more[..|more| - 1];
      NothingSentAfterFailure(events, init);
      RunValid(events + init);
      assert (events + more)[..|events + more| - 1] == events + init;
    }
  }

  /** When the outstanding write fails, nothing is in flight and nothing is handed over any more, whatever
      comes after. */
  lemma {:induction false} FailureStops(events: seq<Event>, more: seq<Event>)
    requires Run(events).inflight
    ensures var o := Run(events + [WriteFailed] + more);
            !o.inflight && o.failed && o.sent == Run(events).sent
  {
    var failed := events + [WriteFailed];
    assert failed[..|events|] == events;
    NothingSentAfterFailure(failed, more);
    RunValid(failed + more);
  }

  /** Unless a write failed, two completions with no message between hand over everything accepted. */
  lemma {:induction false} TwoCompletionsFlush(events: seq<Event>)
    requires !Run(events).failed
    ensures Run(events + [Written, Written]).sent == Frames(Accepted(events))
    ensures Run(events + [Written, Written]).writing == []
  {
    var once, twice := events + [Written], events + [Written, Written];
    assert twice == once + [Written];
    CompletionHandsOver(events);
    CompletionHandsOver(once);
  }

  /** Unless a write failed, a completion hands over everything accepted, and what was already being
      written is done. */
  lemma {:induction false} CompletionHandsOver(events: seq<Event>)
    requires !Run(events).failed
    ensures var o, p := Run(events), Run(events + [Written]);
            !p.failed && p.writing == o.pending && p.pending == [] && p.sent == Frames(Accepted(events)) &&
            Accepted(events + [Written]) == Accepted(events)
  {
    assert (events + [Written])[..|events|] == events;
    RunValid(events);
    Conservation(events);
    HandedThenWaiting(Run(events), Accepted(events), Handed(events));
  }

  lemma {:induction false} HandedThenWaiting(o: Outbox, acc: seq<Op>, k: nat)
    requires k <= |acc| && o.sent == Frames(acc[..k]) && o.pending == Frames(acc[k..])
    ensures o.sent + o.pending == Frames(acc)
    ensures o.pending == [] ==> o.sent == Frames(acc)
  {
    assert acc == acc[..k] + acc[k..];
    FramesConcat(acc[..k], acc[k..]);
    assert o.sent + [] == o.sent;
  }
}
