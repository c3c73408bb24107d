/** Reading what the writer wrote gives the message back, at any offset and with any bytes after it. */
module RoundTrip {
  import opened Bytes
  import opened Schema
  import opened Codec

  lemma {:induction false} ReadsBackAll(ms: seq<Member>, vs: seq<Value>, data: seq<byte>, off: nat)
    requires ConformsAll(ms, vs) && SendableAll(ms, vs)
    requires At(data, off, EncodeAll(ms, vs))
    ensures DecodeAll(ms, data, off) == Ok(vs, off + |EncodeAll(ms, vs)|)
    ensures !PaddedAll(ms, data, off)
    decreases ms, 0
  {
    if ms != [] {
      SupportedWhenSendable(ms[0], vs[0]);
      AtSplit(data, off, Encode(ms[0], vs[0]), EncodeAll(ms[1..], vs[1..]));
      ReadsBack(ms[0], vs[0], data, off);
      var o := off + |Encode(ms[0], vs[0])|;
      ReadsBackAll(ms[1..], vs[1..], data, o);
      ReadsOn(ms, vs, data, off, o, o + |EncodeAll(ms[1..], vs[1..])|);
    }
  }

  lemma {:induction false} ReadsOn(ms: seq<Member>, vs: seq<Value>, data: seq<byte>, off: nat, mid: nat, to: nat)
    requires ms != [] && vs != []
    requires Decode(ms[0], data, off) == Ok(vs[0], mid) && DecodeAll(ms[1..], data, mid) == Ok(vs[1..], to)
    ensures DecodeAll(ms, data, off) == Ok(vs, to)
    ensures PaddedAll(ms, data, off) <==> Padded(ms[0], data, off) || PaddedAll(ms[1..], data, mid)
  {
    assert [vs[0]] + vs[1..] == vs;
  }

  lemma {:induction false} SupportedWhenSendable(m: Member, v: Value)
    requires Conforms(m, v) && Sendable(m, v)
    ensures !m.kind.Unsupported?
  {
  }

  lemma {:induction false} ReadsBack(m: Member, v: Value, data: seq<byte>, off: nat)
    requires Conforms(m, v) && Sendable(m, v)
    requires At(data, off, Encode(m, v))
    ensures Decode(m, data, off) == Ok(v, off + |Encode(m, v)|)
    ensures !Padded(m, data, off)
    decreases m, 1
  {
    if m.shape.Scalar? {
      ReadsBackItem(m.kind, v, data, off);
    } else if m.kind.Prim? {
      EncodeOfBlock(m.kind.width, v.mem);
      ReadsBackBlock(m, Elems(m.kind.width, |v.mem|), v.mem, data, off);
    } else {
      ReadsBackList(m, v, data, off);
    }
  }

  lemma {:induction false} ReadsBackList(m: Member, v: Value, data: seq<byte>, off: nat)
    requires !m.shape.Scalar? && !m.kind.Prim? && Conforms(m, v) && Sendable(m, v)
    requires At(data, off, Encode(m, v))
    ensures Decode(m, data, off) == Ok(v, off + |Encode(m, v)|)
    ensures !Padded(m, data, off)
    decreases m, 0
  {
    var count := |v.items|;
    assert v.items[..count] == v.items;
    AtSplit(data, off, Le32(count), EncodeItems(m.kind, v.items));
    GetOfLe32(data, off, count);
    assert TakeCount(data, off) == Ok(count, off + 4);
    ReadsBackItems(m.kind, v.items, data, off + 4);
  }

  /** The code of a primitive array that fits the wire: its count, then all of its memory. */
  lemma {:induction false} EncodeOfBlock(w: Width, mem: seq<byte>)
    requires |mem| == Span(w, Elems(w, |mem|)) && |mem| < TWO32
    ensures Elems(w, |mem|) < TWO32
    ensures EncodeBlock(w, mem) == Le32(Elems(w, |mem|)) + mem
  {
    var count := Elems(w, |mem|);
    assert count <= |mem|;
    assert mem[..|mem|] == mem;
  }

  lemma {:induction false} ReadsBackBlock(m: Member, count: uint32, mem: seq<byte>, data: seq<byte>, off: nat)
    requires m.kind.Prim? && !m.shape.Scalar? && m.shape.Holds(count) && |mem| == Span(m.kind.width, count)
    requires At(data, off, Le32(count) + mem)
    ensures Decode(m, data, off) == Ok(Block(mem), off + 4 + |mem|)
    ensures !Padded(m, data, off)
  {
    AtSplit(data, off, Le32(count), mem);
    GetOfLe32(data, off, count);
    assert TakeCount(data, off) == Ok(count, off + 4);
    DecodeOfBlock(m, count, mem, data, off + 4);
  }

  lemma {:induction false} DecodeOfBlock(m: Member, count: uint32, mem: seq<byte>, data: seq<byte>, off: nat)
    requires m.kind.Prim? && !m.shape.Scalar? && m.shape.Holds(count) && |mem| == Span(m.kind.width, count)
    requires At(data, off, mem)
    ensures DecodeArray(m, count, data, off) == Ok(Block(mem), off + |mem|)
  {
    if m.shape.Fixed? {
      assert Span(m.kind.width, m.shape.n - count) == 0;
      assert mem + Zeros(0) == mem;
    }
  }

  lemma {:induction false} ReadsBackItem(k: Kind, v: Value, data: seq<byte>, off: nat)
    requires ConformsItem(k, v) && SendableItem(k, v)
    requires At(data, off, EncodeItem(k, v))
    ensures DecodeItem(k, data, off) == Ok(v, off + |EncodeItem(k, v)|)
    ensures !PaddedItem(k, data, off)
    decreases k, 0
  {
    match k
    case Prim(_) =>
    case Str =>
      var length := |v.chars|;
      assert v.chars[..length] == v.chars;
      AtSplit(data, off, Le32(length), v.chars);
      GetOfLe32(data, off, length);
    case Nested(ms) => ReadsBackAll(ms, v.fields, data, off);
    case Unsupported =>
  }

  lemma {:induction false} ReadsBackItems(k: Kind, vs: seq<Value>, data: seq<byte>, off: nat)
    requires ConformsItems(k, vs) && SendableItems(k, vs)
    requires At(data, off, EncodeItems(k, vs))
    ensures DecodeItems(k, |vs|, data, off) == Ok(vs, off + |EncodeItems(k, vs)|)
    ensures !PaddedItems(k, |vs|, data, off)
    decreases k, 1, |vs|
  {
    if vs != [] {
      ItemsFollow(k, vs, data, off);
      ReadsBackItem(k, vs[0], data, off);
      var o := off + |EncodeItem(k, vs[0])|;
      ReadsBackItems(k, vs[1..], data, o);
      ReadsOnItems(k, vs, data, off, o, o + |EncodeItems(k, vs[1..])|);
    }
  }

  lemma {:induction false} ItemsFollow(k: Kind, vs: seq<Value>, data: seq<byte>, off: nat)
    requires ConformsItems(k, vs) && vs != [] && At(data, off, EncodeItems(k, vs))
    ensures At(data, off, EncodeItem(k, vs[0]))
    ensures At(data, off + |EncodeItem(k, vs[0])|, EncodeItems(k, vs[1..]))
    ensures |EncodeItems(k, vs)| == |EncodeItem(k, vs[0])| + |EncodeItems(k, vs[1..])|
  {
    AtSplit(data, off, EncodeItem(k, vs[0]), EncodeItems(k, vs[1..]));
  }

  lemma {:induction false} ReadsOnItems(k: Kind, vs: seq<Value>, data: seq<byte>, off: nat, mid: nat, to: nat)
    requires vs != []
    requires DecodeItem(k, data, off) == Ok(vs[0], mid) && !PaddedItem(k, data, off)
    requires DecodeItems(k, |vs| - 1, data, mid) == Ok(vs[1..], to) && !PaddedItems(k, |vs| - 1, data, mid)
    ensures DecodeItems(k, |vs|, data, off) == Ok(vs, to) && !PaddedItems(k, |vs|, data, off)
  {
    assert [vs[0]] + vs[1..] == vs;
  }

  // --- a read depends only on the bytes it consumes ---

  lemma {:induction false} StableAll(ms: seq<Member>, data: seq<byte>, other: seq<byte>, off: nat)
    requires DecodeAll(ms, data, off).Ok? && off <= |data|
    ensures off <= DecodeAll(ms, data, off).next <= |data|
    ensures Agree(data, other, off, DecodeAll(ms, data, off).next)
            ==> DecodeAll(ms, other, off) == DecodeAll(ms, data, off)
    decreases ms, 0
  {
    if ms != [] {
      Stable(ms[0], data, other, off);
      var o := Decode(ms[0], data, off).next;
      StableAll(ms[1..], data, other, o);
      AgreeSplit(data, other, off, o, DecodeAll(ms, data, off).next);
    }
  }

  lemma {:induction false} Stable(m: Member, data: seq<byte>, other: seq<byte>, off: nat)
    requires Decode(m, data, off).Ok? && off <= |data|
    ensures off <= Decode(m, data, off).next <= |data|
    ensures Agree(data, other, off, Decode(m, data, off).next) ==> Decode(m, other, off) == Decode(m, data, off)
    decreases m, 1
  {
    if m.shape.Scalar? {
      StableItem(m.kind, data, other, off);
    } else {
      var count := TakeCount(data, off).value;
      StableArray(m, count, data, other, off + 4);
      AgreeSplit(data, other, off, off + 4, Decode(m, data, off).next);
      AgreeCount(data, other, off);
    }
  }

  lemma {:induction false} StableArray(m: Member, count: uint32, data: seq<byte>, other: seq<byte>, off: nat)
    requires m.shape.Fixed? ==> count == 0 || count == m.shape.n
    requires DecodeArray(m, count, data, off).Ok? && off <= |data|
    ensures off <= DecodeArray(m, count, data, off).next <= |data|
    ensures Agree(data, other, off, DecodeArray(m, count, data, off).next)
            ==> DecodeArray(m, count, other, off) == DecodeArray(m, count, data, off)
    decreases m, 0
  {
    if !m.kind.Prim? {
      StableItems(m.kind, count, data, other, off);
    }
  }

  lemma {:induction false} StableItem(k: Kind, data: seq<byte>, other: seq<byte>, off: nat)
    requires DecodeItem(k, data, off).Ok? && off <= |data|
    ensures off <= DecodeItem(k, data, off).next <= |data|
    ensures Agree(data, other, off, DecodeItem(k, data, off).next)
            ==> DecodeItem(k, other, off) == DecodeItem(k, data, off)
    decreases k, 0
  {
    match k
    case Prim(_) =>
    case Str =>
      AgreeSplit(data, other, off, off + 4, DecodeItem(k, data, off).next);
      AgreeCount(data, other, off);
    case Nested(ms) => StableAll(ms, data, other, off);
    case Unsupported =>
  }

  lemma {:induction false} StableItems(k: Kind, count: nat, data: seq<byte>, other: seq<byte>, off: nat)
    requires DecodeItems(k, count, data, off).Ok? && off <= |data|
    ensures off <= DecodeItems(k, count, data, off).next <= |data|
    ensures Agree(data, other, off, DecodeItems(k, count, data, off).next)
            ==> DecodeItems(k, count, other, off) == DecodeItems(k, count, data, off)
    decreases k, 1, count
  {
    if count > 0 {
      StableItem(k, data, other, off);
      var o := DecodeItem(k, data, off).next;
      StableItems(k, count - 1, data, other, o);
      AgreeSplit(data, other, off, o, DecodeItems(k, count, data, off).next);
    }
  }

  lemma {:induction false} AgreeSplit(data: seq<byte>, other: seq<byte>, from: nat, mid: nat, to: nat)
    requires from <= mid <= to
    ensures Agree(data, other, from, to) ==> Agree(data, other, from, mid) && Agree(data, other, mid, to)
  {
    if Agree(data, other, from, to) {
      assert data[from..mid] == data[from..to][..mid - from];
      assert other[from..mid] == other[from..to][..mid - from];
      assert data[mid..to] == data[from..to][mid - from..];
      assert other[mid..to] == other[from..to][mid - from..];
    }
  }

  lemma {:induction false} AgreeCount(data: seq<byte>, other: seq<byte>, off: nat)
    ensures Agree(data, other, off, off + 4) ==> TakeCount(data, off) == TakeCount(other, off)
  {
    if Agree(data, other, off, off + 4) {
      Le32OfGet(data, off);
      Le32OfGet(other, off);
      Le32Injective(Get32(data, off), Get32(other, off));
    }
  }

  // --- main results ---

  /** A message that fits the wire is read back whole, after any prefix and before any tail. */
  lemma {:induction false} ReadsBackAnywhere(ms: seq<Member>, vs: seq<Value>, before: seq<byte>, after: seq<byte>)
    requires ConformsAll(ms, vs) && SendableAll(ms, vs)
    ensures DecodeAll(ms, before + EncodeAll(ms, vs) + after, |before|)
         == Ok(vs, |before| + |EncodeAll(ms, vs)|)
  {
    var code := EncodeAll(ms, vs);
    var data := before + code + after;
    assert data[|before|..|before| + |code|] == code;
    ReadsBackAll(ms, vs, data, |before|);
  }

  /** Encodings of one type are prefix-free, so the bytes determine both the message and what follows. */
  lemma {:induction false} PrefixFree(ms: seq<Member>, vs: seq<Value>, ws: seq<Value>, s: seq<byte>, t: seq<byte>)
    requires ConformsAll(ms, vs) && SendableAll(ms, vs)
    requires ConformsAll(ms, ws) && SendableAll(ms, ws)
    requires EncodeAll(ms, vs) + s == EncodeAll(ms, ws) + t
    ensures vs == ws && s == t
  {
    ReadsBackAnywhere(ms, vs, [], s);
    ReadsBackAnywhere(ms, ws, [], t);
    assert [] + EncodeAll(ms, vs) + s == EncodeAll(ms, vs) + s;
    assert [] + EncodeAll(ms, ws) + t == EncodeAll(ms, ws) + t;
    assert s == (EncodeAll(ms, vs) + s)[|EncodeAll(ms, vs)|..];
    assert t == (EncodeAll(ms, ws) + t)[|EncodeAll(ms, ws)|..];
  }

  /** Appending bytes never changes a read that succeeded. */
  lemma {:induction false} ExtensionKeepsRead(ms: seq<Member>, data: seq<byte>, more: seq<byte>, off: nat)
    requires off <= |data| && DecodeAll(ms, data, off).Ok?
    ensures DecodeAll(ms, data + more, off) == DecodeAll(ms, data, off)
  {
    StableAll(ms, data, data + more, off);
    var n := DecodeAll(ms, data, off).next;
    assert data[off..n] == (data + more)[off..n];
  }

  /** Every strict prefix of an encoding is rejected. */
  lemma {:induction false} TruncationRejected(ms: seq<Member>, vs: seq<Value>, k: nat)
    requires ConformsAll(ms, vs) && SendableAll(ms, vs)
    requires k < |EncodeAll(ms, vs)|
    ensures DecodeAll(ms, EncodeAll(ms, vs)[..k], 0).Stop?
  {
    var code := EncodeAll(ms, vs);
    assert At(code, 0, code);
    ReadsBackAll(ms, vs, code, 0);
    assert code[..k] + code[k..] == code;
    if DecodeAll(ms, code[..k], 0).Ok? {
      ExtensionKeepsRead(ms, code[..k], code[k..], 0);
      StableAll(ms, code[..k], code, 0);
    }
  }
}
