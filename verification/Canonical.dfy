/** Writing again what was read: when this gives the consumed bytes back, and when reading what was
    written gives the message back. */
module Canonical {
  import opened Bytes
  import opened Schema
  import opened Codec
  import opened RoundTrip

  // --- reads that met no zero-count fixed array: the message's code is no longer than what was
  //     consumed, and as long exactly when the message is sendable, as it is if the data is short ---

  predicate ExactRead(code: seq<byte>, sendable: bool, data: seq<byte>, from: nat, to: nat) {
    from <= to <= |data| && |code| <= to - from &&
    (sendable <==> |code| == to - from) && (sendable ==> code == data[from..to]) &&
    (|data| < TWO32 ==> sendable)
  }

  lemma {:induction false} ExactJoin(a: seq<byte>, b: seq<byte>, sa: bool, sb: bool,
                                     data: seq<byte>, from: nat, mid: nat, to: nat)
    requires ExactRead(a, sa, data, from, mid) && ExactRead(b, sb, data, mid, to)
    ensures ExactRead(a + b, sa && sb, data, from, to)
  {
    assert data[from..to] == data[from..mid] + data[mid..to];
  }

  lemma {:induction false} ExactAll(ms: seq<Member>, data: seq<byte>, off: nat)
    requires off <= |data| && DecodeAll(ms, data, off).Ok? && !PaddedAll(ms, data, off)
    ensures var r := DecodeAll(ms, data, off);
            ConformsAll(ms, r.value) &&
            ExactRead(EncodeAll(ms, r.value), SendableAll(ms, r.value), data, off, r.next)
    decreases ms, 0
  {
    if ms != [] {
      var r := Decode(ms[0], data, off);
      var r' := DecodeAll(ms[1..], data, r.next);
      Exact(ms[0], data, off);
      ExactAll(ms[1..], data, r.next);
      assert ([r.value] + r'.value)[1..] == r'.value;
      ExactJoin(Encode(ms[0], r.value), EncodeAll(ms[1..], r'.value),
                Sendable(ms[0], r.value), SendableAll(ms[1..], r'.value), data, off, r.next, r'.next);
      SupportedWhenRead(ms[0], data, off);
    }
  }

  lemma {:induction false} SupportedWhenRead(m: Member, data: seq<byte>, off: nat)
    requires Decode(m, data, off).Ok?
    ensures !m.kind.Unsupported?
  {
  }

  lemma {:induction false} Exact(m: Member, data: seq<byte>, off: nat)
    requires off <= |data| && Decode(m, data, off).Ok? && !Padded(m, data, off)
    ensures var r := Decode(m, data, off);
            Conforms(m, r.value) && ExactRead(Encode(m, r.value), Sendable(m, r.value), data, off, r.next)
    decreases m, 1
  {
    if m.shape.Scalar? {
      ExactItem(m.kind, data, off);
    } else if m.kind.Prim? {
      ExactBlockMember(m, data, off);
    } else {
      ExactList(m, data, off);
    }
  }

  lemma {:induction false} ExactList(m: Member, data: seq<byte>, off: nat)
    requires !m.shape.Scalar? && !m.kind.Prim? && off <= |data| && Decode(m, data, off).Ok? && !Padded(m, data, off)
    ensures var r := Decode(m, data, off);
            Conforms(m, r.value) && ExactRead(Encode(m, r.value), Sendable(m, r.value), data, off, r.next)
    decreases m, 0
  {
    var count := TakeCount(data, off).value;
    Le32OfGet(data, off);
    ExactItems(m.kind, count, data, off + 4);
    var r := DecodeItems(m.kind, count, data, off + 4);
    assert Decode(m, data, off) == Ok(List(r.value), r.next);
    assert r.value[..count] == r.value;
    ExactJoin(Le32(count), EncodeItems(m.kind, r.value), true, SendableItems(m.kind, r.value),
              data, off, off + 4, r.next);
  }

  /** A primitive array that is not sent with a zero count is the bytes that follow its count. */
  lemma {:induction false} BlockRead(m: Member, count: uint32, data: seq<byte>, off: nat)
    requires m.kind.Prim? && !m.shape.Scalar? && m.shape.Holds(count)
    requires Decode(m, data, off).Ok? && count == TakeCount(data, off).value
    ensures var end := off + 4 + Span(m.kind.width, count);
            end <= |data| && Decode(m, data, off) == Ok(Block(data[off + 4..end]), end)
    ensures Elems(m.kind.width, Span(m.kind.width, count)) == count
  {
    var mem := data[off + 4..off + 4 + Span(m.kind.width, count)];
    assert mem + Zeros(0) == mem;
  }

  lemma {:induction false} EncodeOfAnyBlock(w: Width, count: uint32, mem: seq<byte>)
    requires |mem| == Span(w, count)
    ensures Elems(w, |mem|) == count
    ensures EncodeBlock(w, mem) == Le32(count) + mem[..Wrap32(|mem|)]
  {
  }

  lemma {:induction false} ExactCut(mem: seq<byte>, data: seq<byte>, off: nat)
    requires At(data, off, mem)
    ensures ExactRead(mem[..Wrap32(|mem|)], |mem| < TWO32, data, off, off + |mem|)
  {
    assert |mem| < TWO32 ==> mem[..Wrap32(|mem|)] == mem;
  }

  lemma {:induction false} ExactBlock(w: Width, count: uint32, mem: seq<byte>, data: seq<byte>, off: nat)
    requires |mem| == Span(w, count) && off + 4 <= |data| && Get32(data, off) == count && At(data, off + 4, mem)
    ensures Elems(w, |mem|) == count
    ensures ExactRead(EncodeBlock(w, mem), |mem| < TWO32, data, off, off + 4 + |mem|)
  {
    Le32OfGet(data, off);
    EncodeOfAnyBlock(w, count, mem);
    ExactCut(mem, data, off + 4);
    ExactJoin(Le32(count), mem[..Wrap32(|mem|)], true, |mem| < TWO32, data, off, off + 4, off + 4 + |mem|);
  }

  lemma {:induction false} ExactBlockMember(m: Member, data: seq<byte>, off: nat)
    requires m.kind.Prim? && !m.shape.Scalar? && Decode(m, data, off).Ok? && !Padded(m, data, off)
    ensures var r := Decode(m, data, off);
            Conforms(m, r.value) && ExactRead(Encode(m, r.value), Sendable(m, r.value), data, off, r.next)
  {
    var count := TakeCount(data, off).value;
    BlockRead(m, count, data, off);
    ExactBlock(m.kind.width, count, Decode(m, data, off).value.mem, data, off);
  }

  lemma {:induction false} ExactItem(k: Kind, data: seq<byte>, off: nat)
    requires off <= |data| && DecodeItem(k, data, off).Ok? && !PaddedItem(k, data, off)
    ensures var r := DecodeItem(k, data, off);
            ConformsItem(k, r.value) && ExactRead(EncodeItem(k, r.value), SendableItem(k, r.value), data, off, r.next)
    decreases k, 0
  {
    match k
    case Prim(_) =>
    case Str =>
      var chars := DecodeItem(k, data, off).value.chars;
      Le32OfGet(data, off);
      assert chars[..|chars|] == chars;
      ExactJoin(Le32(|chars|), chars, true, true, data, off, off + 4, off + 4 + |chars|);
    case Nested(ms) => ExactAll(ms, data, off);
    case Unsupported =>
  }

  lemma {:induction false} ExactItems(k: Kind, count: nat, data: seq<byte>, off: nat)
    requires off <= |data| && DecodeItems(k, count, data, off).Ok?
    requires k.Nested? ==> !PaddedItems(k, count, data, off)
    ensures var r := DecodeItems(k, count, data, off);
            |r.value| == count && ConformsItems(k, r.value) &&
            ExactRead(EncodeItems(k, r.value), SendableItems(k, r.value), data, off, r.next)
    decreases k, 1, count
  {
    if count > 0 {
      var r := DecodeItem(k, data, off);
      var r' := DecodeItems(k, count - 1, data, r.next);
      ExactItem(k, data, off);
      ExactItems(k, count - 1, data, r.next);
      assert ([r.value] + r'.value)[1..] == r'.value;
      ExactJoin(EncodeItem(k, r.value), EncodeItems(k, r'.value),
                SendableItem(k, r.value), SendableItems(k, r'.value), data, off, r.next, r'.next);
    }
  }

  // --- all reads of data below 2^32 bytes, zero-count fixed arrays included: the message read can
  //     be sent, and its code is the consumed bytes exactly when no such array was met ---

  /** What a fixed array becomes when it arrives with count 0. */
  function PaddedValue(m: Member): Value
    requires m.shape.Fixed?
  {
    if m.kind.Prim? then Block(Zeros(Span(m.kind.width, m.shape.n))) else Init(m)
  }

  /** Every fixed array that may arrive with count 0 becomes a value that can be sent. */
  predicate PaddableAll(ms: seq<Member>)
    decreases ms, 0
  {
    ms == [] || (Paddable(ms[0]) && PaddableAll(ms[1..]))
  }

  predicate Paddable(m: Member)
    decreases m, 0
  {
    (m.shape.Fixed? && !m.kind.Unsupported? ==> Conforms(m, PaddedValue(m)) && Sendable(m, PaddedValue(m))) &&
    (m.kind.Nested? ==> PaddableAll(m.kind.members))
  }

  predicate CanonRead(code: seq<byte>, padded: bool, data: seq<byte>, from: nat, to: nat) {
    from <= to <= |data| && |code| >= to - from && (code == data[from..to] <==> !padded)
  }

  lemma {:induction false} CanonJoin(a: seq<byte>, b: seq<byte>, pa: bool, pb: bool,
                                     data: seq<byte>, from: nat, mid: nat, to: nat)
    requires CanonRead(a, pa, data, from, mid) && CanonRead(b, pb, data, mid, to)
    ensures CanonRead(a + b, pa || pb, data, from, to)
  {
    assert data[from..to] == data[from..mid] + data[mid..to];
    if a + b == data[from..to] {
      assert a == (a + b)[..|a|] && data[from..mid] == data[from..to][..mid - from];
      assert b == (a + b)[|a|..] && data[mid..to] == data[from..to][mid - from..];
    }
  }

  lemma {:induction false} CanonAll(ms: seq<Member>, data: seq<byte>, off: nat)
    requires PaddableAll(ms) && off <= |data| < TWO32 && DecodeAll(ms, data, off).Ok?
    ensures var r := DecodeAll(ms, data, off);
            ConformsAll(ms, r.value) && SendableAll(ms, r.value) &&
            CanonRead(EncodeAll(ms, r.value), PaddedAll(ms, data, off), data, off, r.next)
    decreases ms, 0
  {
    if ms != [] {
      var r := Decode(ms[0], data, off);
      var r' := DecodeAll(ms[1..], data, r.next);
      Canon(ms[0], data, off);
      CanonAll(ms[1..], data, r.next);
      assert ([r.value] + r'.value)[1..] == r'.value;
      CanonJoin(Encode(ms[0], r.value), EncodeAll(ms[1..], r'.value),
                Padded(ms[0], data, off), PaddedAll(ms[1..], data, r.next), data, off, r.next, r'.next);
      SupportedWhenRead(ms[0], data, off);
    }
  }

  lemma {:induction false} Canon(m: Member, data: seq<byte>, off: nat)
    requires Paddable(m) && off <= |data| < TWO32 && Decode(m, data, off).Ok?
    ensures var r := Decode(m, data, off);
            Conforms(m, r.value) && Sendable(m, r.value) &&
            CanonRead(Encode(m, r.value), Padded(m, data, off), data, off, r.next)
    decreases m, 1
  {
    if m.shape.Scalar? {
      CanonItem(m.kind, data, off);
    } else if m.shape.Fixed? && TakeCount(data, off).value == 0 {
      CanonZeroCount(m, data, off);
    } else if m.kind.Prim? {
      ExactBlockMember(m, data, off);
    } else {
      CanonList(m, data, off);
    }
  }

  lemma {:induction false} CanonList(m: Member, data: seq<byte>, off: nat)
    requires !m.shape.Scalar? && !m.kind.Prim? && Paddable(m)
    requires off <= |data| < TWO32 && Decode(m, data, off).Ok?
    requires m.shape.Fixed? ==> TakeCount(data, off).value != 0
    ensures var r := Decode(m, data, off);
            Conforms(m, r.value) && Sendable(m, r.value) &&
            CanonRead(Encode(m, r.value), Padded(m, data, off), data, off, r.next)
    decreases m, 0
  {
    var count := TakeCount(data, off).value;
    Le32OfGet(data, off);
    CanonItems(m.kind, count, data, off + 4);
    var r := DecodeItems(m.kind, count, data, off + 4);
    assert Decode(m, data, off) == Ok(List(r.value), r.next);
    assert r.value[..count] == r.value;
    CanonJoin(Le32(count), EncodeItems(m.kind, r.value),
              false, m.kind.Nested? && PaddedItems(m.kind, count, data, off + 4), data, off, off + 4, r.next);
  }

  /** A fixed array sent with count 0 is read as a value whose code starts with another count. */
  lemma {:induction false} CanonZeroCount(m: Member, data: seq<byte>, off: nat)
    requires Paddable(m) && m.shape.Fixed? && off <= |data| < TWO32 && Decode(m, data, off).Ok?
    requires TakeCount(data, off).value == 0
    ensures var r := Decode(m, data, off);
            r.value == PaddedValue(m) && r.next == off + 4 &&
            Conforms(m, r.value) && Sendable(m, r.value) && CanonRead(Encode(m, r.value), true, data, off, r.next)
  {
    var n: nat := m.shape.n;
    var v := PaddedValue(m);
    if m.kind.Prim? {
      var w := m.kind.width;
      assert [] + v.mem == v.mem;
      EncodeOfBlock(w, v.mem);
      NotTheZeroCount(n, v.mem, data, off);
    } else {
      assert DecodeItems(m.kind, 0, data, off + 4) == Ok([], off + 4);
      assert v.items[..n] == v.items;
      NotTheZeroCount(n, EncodeItems(m.kind, v.items), data, off);
    }
  }

  lemma {:induction false} NotTheZeroCount(n: nat, rest: seq<byte>, data: seq<byte>, off: nat)
    requires 0 < n < TWO32 && off + 4 <= |data| && Get32(data, off) == 0
    ensures CanonRead(Le32(n) + rest, true, data, off, off + 4)
  {
    Le32OfGet(data, off);
    if Le32(n) + rest == data[off..off + 4] {
      assert (Le32(n) + rest)[..4] == Le32(n);
      assert data[off..off + 4][..4] == Le32(0);
      Le32Injective(n, 0);
    }
  }

  lemma {:induction false} CanonItem(k: Kind, data: seq<byte>, off: nat)
    requires (k.Nested? ==> PaddableAll(k.members)) && off <= |data| < TWO32 && DecodeItem(k, data, off).Ok?
    ensures var r := DecodeItem(k, data, off);
            ConformsItem(k, r.value) && SendableItem(k, r.value) &&
            CanonRead(EncodeItem(k, r.value), PaddedItem(k, data, off), data, off, r.next)
    decreases k, 0
  {
    match k
    case Prim(_) =>
    case Str =>
      var chars := DecodeItem(k, data, off).value.chars;
      Le32OfGet(data, off);
      assert chars[..|chars|] == chars;
      CanonJoin(Le32(|chars|), chars, false, false, data, off, off + 4, off + 4 + |chars|);
    case Nested(ms) => CanonAll(ms, data, off);
    case Unsupported =>
  }

  lemma {:induction false} CanonItems(k: Kind, count: nat, data: seq<byte>, off: nat)
    requires (k.Nested? ==> PaddableAll(k.members)) && off <= |data| < TWO32 && DecodeItems(k, count, data, off).Ok?
    ensures var r := DecodeItems(k, count, data, off);
            |r.value| == count && ConformsItems(k, r.value) && SendableItems(k, r.value) &&
            CanonRead(EncodeItems(k, r.value), k.Nested? && PaddedItems(k, count, data, off), data, off, r.next)
    decreases k, 1, count
  {
    if count > 0 {
      var r := DecodeItem(k, data, off);
      var r' := DecodeItems(k, count - 1, data, r.next);
      CanonItem(k, data, off);
      CanonItems(k, count - 1, data, r.next);
      assert ([r.value] + r'.value)[1..] == r'.value;
      CanonJoin(EncodeItem(k, r.value), EncodeItems(k, r'.value), PaddedItem(k, data, off),
                k.Nested? && PaddedItems(k, count - 1, data, r.next), data, off, r.next, r'.next);
    }
  }

  lemma {:induction false} InitAllFits(ms: seq<Member>)
    requires SoundAll(ms)
    ensures ConformsAll(ms, InitAll(ms)) && SendableAll(ms, InitAll(ms))
    decreases ms, 0
  {
    if ms != [] {
      InitFits(ms[0]);
      InitAllFits(ms[1..]);
      assert InitAll(ms)[1..] == InitAll(ms[1..]);
    }
  }

  lemma {:induction false} InitFits(m: Member)
    requires Sound(m)
    ensures Conforms(m, Init(m)) && Sendable(m, Init(m))
    decreases m, 0
  {
    if m.kind.Nested? {
      InitAllFits(m.kind.members);
      var item := Msg(InitAll(m.kind.members));
      if m.shape.Fixed? {
        CopiesFit(m.kind, item, m.shape.n);
      }
    }
  }

  lemma {:induction false} CopiesFit(k: Kind, v: Value, n: nat)
    requires ConformsItem(k, v) && SendableItem(k, v)
    ensures var vs := seq(n, i => v); ConformsItems(k, vs) && SendableItems(k, vs)
    decreases n
  {
    if n > 0 {
      CopiesFit(k, v, n - 1);
      assert seq(n, i => v)[1..] == seq(n - 1, i => v);
    }
  }

  lemma {:induction false} SoundIsPaddableAll(ms: seq<Member>)
    requires SoundAll(ms)
    ensures PaddableAll(ms)
    decreases ms, 0
  {
    if ms != [] {
      SoundIsPaddable(ms[0]);
      SoundIsPaddableAll(ms[1..]);
    }
  }

  /** The padding of a sound member can be sent. */
  lemma {:induction false} SoundIsPaddable(m: Member)
    requires Sound(m)
    ensures Paddable(m)
    decreases m, 0
  {
    InitFits(m);
    if m.kind.Nested? {
      SoundIsPaddableAll(m.kind.members);
    } else if m.kind.Prim? && m.shape.Fixed? {
      var w, n := m.kind.width, m.shape.n;
      assert Elems(w, |m.init.mem|) == n && |m.init.mem| == Span(w, n);
    }
  }

  // --- types without fixed arrays ---

  predicate FixedFreeAll(ms: seq<Member>)
    decreases ms, 0
  {
    ms == [] || (FixedFree(ms[0]) && FixedFreeAll(ms[1..]))
  }

  predicate FixedFree(m: Member)
    decreases m, 0
  {
    !m.shape.Fixed? && (m.kind.Nested? ==> FixedFreeAll(m.kind.members))
  }

  lemma {:induction false} NotPaddedAll(ms: seq<Member>, data: seq<byte>, off: nat)
    requires FixedFreeAll(ms)
    ensures !PaddedAll(ms, data, off)
    decreases ms, 0
  {
    if ms != [] {
      NotPadded(ms[0], data, off);
      var r := Decode(ms[0], data, off);
      if r.Ok? {
        NotPaddedAll(ms[1..], data, r.next);
      }
    }
  }

  lemma {:induction false} NotPadded(m: Member, data: seq<byte>, off: nat)
    requires FixedFree(m)
    ensures !Padded(m, data, off)
    decreases m, 0
  {
    if m.kind.Nested? {
      if m.shape.Scalar? {
        NotPaddedAll(m.kind.members, data, off);
      } else if TakeCount(data, off).Ok? {
        NotPaddedItems(m.kind, TakeCount(data, off).value, data, off + 4);
      }
    }
  }

  lemma {:induction false} NotPaddedItems(k: Kind, count: nat, data: seq<byte>, off: nat)
    requires k.Nested? && FixedFreeAll(k.members)
    ensures !PaddedItems(k, count, data, off)
    decreases k, 1, count
  {
    if count > 0 {
      var r := DecodeItem(k, data, off);
      NotPaddedAll(k.members, data, off);
      if r.Ok? {
        NotPaddedItems(k, count - 1, data, r.next);
      }
    }
  }

  // --- the 2^32 bound on a primitive array's byte count is sharp ---

  /** The writer cuts the byte count of an oversized primitive array; nothing after it makes up for
      that when it is the last member. */
  lemma {:induction false} OversizedLastStops(ms: seq<Member>, vs: seq<Value>, last: Member, mem: seq<byte>,
                                              data: seq<byte>, off: nat)
    requires ConformsAll(ms, vs) && SendableAll(ms, vs)
    requires last.kind.Prim? && !last.shape.Scalar? && Conforms(last, Block(mem))
    requires Elems(last.kind.width, |mem|) < TWO32 <= |mem|
    requires ConformsAll(ms + [last], vs + [Block(mem)])
    requires off <= |data| && data[off..] == EncodeAll(ms + [last], vs + [Block(mem)])
    ensures DecodeAll(ms + [last], data, off).Stop?
    decreases |ms|
  {
    var all, vals := ms + [last], vs + [Block(mem)];
    if ms == [] {
      assert all[1..] == [];
      assert EncodeAll(all, vals) == Encode(last, Block(mem)) + [] == Encode(last, Block(mem));
      OversizedStops(last, mem, data, off);
    } else {
      assert all[1..] == ms[1..] + [last] && vals[1..] == vs[1..] + [Block(mem)];
      SupportedWhenSendable(ms[0], vs[0]);
      var first := Encode(ms[0], vs[0]);
      assert EncodeAll(all, vals) == first + EncodeAll(all[1..], vals[1..]);
      AtSplit(data, off, first, EncodeAll(all[1..], vals[1..]));
      ReadsBack(ms[0], vs[0], data, off);
      assert data[off + |first|..] == data[off..][|first|..] == EncodeAll(all[1..], vals[1..]);
      OversizedLastStops(ms[1..], vs[1..], last, mem, data, off + |first|);
    }
  }

  lemma {:induction false} OversizedStops(m: Member, mem: seq<byte>, data: seq<byte>, off: nat)
    requires m.kind.Prim? && !m.shape.Scalar? && Conforms(m, Block(mem))
    requires Elems(m.kind.width, |mem|) < TWO32 <= |mem|
    requires off <= |data| && data[off..] == Encode(m, Block(mem))
    ensures Decode(m, data, off).Stop?
  {
    var count: uint32 := Elems(m.kind.width, |mem|);
    EncodeOfAnyBlock(m.kind.width, count, mem);
    ShortBlockStops(m, count, mem[..Wrap32(|mem|)], data, off);
  }

  lemma {:induction false} ShortBlockStops(m: Member, count: uint32, mem: seq<byte>, data: seq<byte>, off: nat)
    requires m.kind.Prim? && !m.shape.Scalar? && |mem| < Span(m.kind.width, count)
    requires off <= |data| && data[off..] == Le32(count) + mem
    ensures Decode(m, data, off).Stop?
  {
    AtSplit(data, off, Le32(count), mem);
    GetOfLe32(data, off, count);
    assert TakeCount(data, off) == Ok(count, off + 4);
    assert |data| == off + 4 + |mem|;
  }

  // --- main results ---

  /** When a message ends in a primitive array of fewer than 2^32 elements but at least 2^32 bytes,
      the reader rejects what the writer wrote. */
  lemma {:induction false} OversizedLastArrayRejected(ms: seq<Member>, vs: seq<Value>, last: Member, mem: seq<byte>)
    requires ConformsAll(ms, vs) && SendableAll(ms, vs)
    requires last.kind.Prim? && !last.shape.Scalar? && Conforms(last, Block(mem))
    requires Elems(last.kind.width, |mem|) < TWO32 <= |mem|
    ensures ConformsAll(ms + [last], vs + [Block(mem)])
    ensures DecodeAll(ms + [last], EncodeAll(ms + [last], vs + [Block(mem)]), 0).Stop?
  {
    ConformsAppend(ms, vs, last, Block(mem));
    OversizedLastStops(ms, vs, last, mem, EncodeAll(ms + [last], vs + [Block(mem)]), 0);
  }

  lemma {:induction false} ConformsAppend(ms: seq<Member>, vs: seq<Value>, m: Member, v: Value)
    requires ConformsAll(ms, vs) && Conforms(m, v)
    ensures ConformsAll(ms + [m], vs + [v])
    decreases |ms|
  {
    if ms == [] {
      assert ([m] + [])[1..] == [] && ([v] + [])[1..] == [];
    } else {
      ConformsAppend(ms[1..], vs[1..], m, v);
      assert (ms + [m])[1..] == ms[1..] + [m] && (vs + [v])[1..] == vs[1..] + [v];
    }
  }

  /** Reading a message's code gives the message back, at the end of the code and without meeting a
      zero-count fixed array, exactly when the message is sendable. */
  lemma {:induction false} SendableIffReadBack(ms: seq<Member>, vs: seq<Value>, tail: seq<byte>)
    requires ConformsAll(ms, vs)
    ensures var code := EncodeAll(ms, vs);
            SendableAll(ms, vs) <==>
            (DecodeAll(ms, code + tail, 0) == Ok(vs, |code|) && !PaddedAll(ms, code + tail, 0))
  {
    var code := EncodeAll(ms, vs);
    var data := code + tail;
    assert data[..|code|] == code;
    if SendableAll(ms, vs) {
      ReadsBackAll(ms, vs, data, 0);
    } else if DecodeAll(ms, data, 0) == Ok(vs, |code|) && !PaddedAll(ms, data, 0) {
      ExactAll(ms, data, 0);
    }
  }

  /** For types without fixed arrays, and code of any length: serializing a message and unserializing
      the bytes gives the message back exactly when it is sendable. */
  lemma {:induction false} FixedFreeReadBackIff(ms: seq<Member>, vs: seq<Value>)
    requires ConformsAll(ms, vs) && FixedFreeAll(ms)
    ensures var r := DecodeAll(ms, EncodeAll(ms, vs), 0);
            SendableAll(ms, vs) <==> r.Ok? && r.value == vs
  {
    var code := EncodeAll(ms, vs);
    assert code + [] == code;
    SendableIffReadBack(ms, vs, []);
    NotPaddedAll(ms, code, 0);
    if DecodeAll(ms, code, 0).Ok? && DecodeAll(ms, code, 0).value == vs {
      ExactAll(ms, code, 0);
    }
  }

  /** With a fixed array the message can come back although it is not sendable, if the array's size
      cannot be written: 2^32 zero bytes are written as a count of 0, and read as all zeros. */
  lemma {:induction false} ReadBackWithoutSendable(init: Value)
    ensures var ms, vs := [Member(Prim(W1), Fixed(TWO32), init)], [Block(Zeros(TWO32))];
            ConformsAll(ms, vs) && !SendableAll(ms, vs) &&
            DecodeAll(ms, EncodeAll(ms, vs), 0) == Ok(vs, |EncodeAll(ms, vs)|)
  {
    var m, v := Member(Prim(W1), Fixed(TWO32), init), Block(Zeros(TWO32));
    assert Conforms(m, v) && !Sendable(m, v);
    assert v.mem[..0] == [];
    assert Encode(m, v) == Le32(0) + [] == Le32(0);
    var ms, vs := [m], [v];
    assert ms[1..] == [] && vs[1..] == [];
    var code := EncodeAll(ms, vs);
    assert EncodeAll(ms[1..], vs[1..]) == [];
    assert code == Encode(m, v) + [];
    assert code == Le32(0);
    assert At(code, 0, Le32(0));
    GetOfLe32(code, 0, 0);
    assert TakeCount(code, 0) == Ok(0, 4);
    assert [] + Zeros(TWO32) == Zeros(TWO32);
    assert Decode(m, code, 0) == Ok(v, 4);
    assert [v] + [] == vs;
  }

  /** A read that met no zero-count fixed array, of any type and from fewer than 2^32 bytes: the message
      can be sent, its code is exactly the consumed bytes, and it is read back from them. */
  lemma {:induction false} RewriteOfUnpadded(ms: seq<Member>, data: seq<byte>)
    requires |data| < TWO32 && DecodeAll(ms, data, 0).Ok? && !PaddedAll(ms, data, 0)
    ensures var r := DecodeAll(ms, data, 0);
            r.next <= |data| && ConformsAll(ms, r.value) && SendableAll(ms, r.value) &&
            EncodeAll(ms, r.value) == data[..r.next] &&
            DecodeAll(ms, data[..r.next], 0) == Ok(r.value, r.next)
  {
    ExactAll(ms, data, 0);
    var r := DecodeAll(ms, data, 0);
    ReadsBackAll(ms, r.value, data[..r.next], 0);
  }

  /** The bytes that are accepted without a zero-count fixed array are exactly those that start with the
      code of a sendable message. */
  lemma {:induction false} AcceptedIff(ms: seq<Member>, vs: seq<Value>, n: nat, data: seq<byte>)
    requires |data| < TWO32
    ensures DecodeAll(ms, data, 0) == Ok(vs, n) && !PaddedAll(ms, data, 0) <==>
            ConformsAll(ms, vs) && SendableAll(ms, vs) && n == |EncodeAll(ms, vs)| && At(data, 0, EncodeAll(ms, vs))
  {
    if DecodeAll(ms, data, 0) == Ok(vs, n) && !PaddedAll(ms, data, 0) {
      ExactAll(ms, data, 0);
    }
    if ConformsAll(ms, vs) && SendableAll(ms, vs) && At(data, 0, EncodeAll(ms, vs)) {
      ReadsBackAll(ms, vs, data, 0);
    }
  }

  /** Writing a message that was read gives exactly the consumed bytes if and only if no fixed array
      arrived with count 0; otherwise it differs and is at least as long. */
  lemma {:induction false} RewriteIsIdentityIffNotPadded(ms: seq<Member>, data: seq<byte>)
    requires PaddableAll(ms) && |data| < TWO32 && DecodeAll(ms, data, 0).Ok?
    ensures var r := DecodeAll(ms, data, 0);
            r.next <= |data| && ConformsAll(ms, r.value) && |EncodeAll(ms, r.value)| >= r.next &&
            (EncodeAll(ms, r.value) == data[..r.next] <==> !PaddedAll(ms, data, 0))
  {
    CanonAll(ms, data, 0);
  }

  /** Writing what was read and reading it again gives the same message, padded or not, for every type
      whose padding can be sent. */
  lemma {:induction false} RewriteReadsTheSame(ms: seq<Member>, data: seq<byte>)
    requires PaddableAll(ms) && |data| < TWO32 && DecodeAll(ms, data, 0).Ok?
    ensures var r := DecodeAll(ms, data, 0);
            ConformsAll(ms, r.value) &&
            DecodeAll(ms, EncodeAll(ms, r.value), 0) == Ok(r.value, |EncodeAll(ms, r.value)|)
  {
    CanonAll(ms, data, 0);
    var vs := DecodeAll(ms, data, 0).value;
    ReadsBackAll(ms, vs, EncodeAll(ms, vs), 0);
  }

  /** For other types it need not: a fixed array of messages with an unsupported member is accepted with
      count 0 as its initial value, is written with count 1, and is then rejected. */
  lemma {:induction false} RewriteRejected(init: Value)
    ensures var inner := [Member(Unsupported, Scalar, init)];
            var ms, data := [Member(Nested(inner), Fixed(1), init)], Le32(0);
            var r := DecodeAll(ms, data, 0);
            r.Ok? && ConformsAll(ms, r.value) && EncodeAll(ms, r.value) == Le32(1) &&
            DecodeAll(ms, EncodeAll(ms, r.value), 0).Stop?
  {
    var inner := [Member(Unsupported, Scalar, init)];
    var m := Member(Nested(inner), Fixed(1), init);
    var item := Msg([init]);
    assert inner[1..] == [] && [init][1..] == [] && [item][1..] == [];
    assert InitAll(inner) == [Init(inner[0])] + InitAll(inner[1..]) == [init];
    assert Init(m) == List(seq(1, i => item)) == List([item]);
    assert Conforms(inner[0], init) && ConformsAll(inner[1..], [init][1..]);
    assert ConformsAll(inner, [init]);
    assert ConformsItem(m.kind, item) && ConformsItems(m.kind, [item]);
    ReadsAsInit(m, Le32(0));
    assert EncodeAll(inner, [init]) == [];
    assert EncodeItems(m.kind, [item]) == EncodeItem(m.kind, item) + EncodeItems(m.kind, [item][1..]) == [];
    assert [item][..1] == [item];
    assert Encode(m, List([item])) == Le32(1) + [] == Le32(1);
    var v := List([item]);
    assert [m][1..] == [] && [v][1..] == [];
    assert EncodeAll([m], [v]) == Le32(1) + [] == Le32(1);
    assert At(Le32(1), 0, Le32(1));
    GetOfLe32(Le32(1), 0, 1);
    assert TakeCount(Le32(1), 0) == Ok(1, 4);
    assert DecodeItem(Unsupported, Le32(1), 4).Stop?;
    assert DecodeAll(inner, Le32(1), 4).Stop?;
    assert DecodeItems(m.kind, 1, Le32(1), 4).Stop?;
    OneMember(m, Le32(1));
  }

  lemma {:induction false} ReadsAsInit(m: Member, data: seq<byte>)
    requires m.kind.Nested? && m.shape.Fixed? && data == Le32(0)
    ensures DecodeAll([m], data, 0) == Ok([Init(m)], 4)
  {
    assert At(data, 0, Le32(0));
    GetOfLe32(data, 0, 0);
    assert TakeCount(data, 0) == Ok(0, 4);
    assert DecodeItems(m.kind, 0, data, 4) == Ok([], 4);
    OneMember(m, data);
  }

  lemma {:induction false} OneMember(m: Member, data: seq<byte>)
    ensures var r := Decode(m, data, 0);
            DecodeAll([m], data, 0) == if r.Ok? then Ok([r.value], r.next) else Stop(r.at)
  {
    assert [m][1..] == [];
    var r := Decode(m, data, 0);
    if r.Ok? {
      assert DecodeAll([m][1..], data, r.next) == Ok([], r.next);
      assert [r.value] + [] == [r.value];
    }
  }
}
