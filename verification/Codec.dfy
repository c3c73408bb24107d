/** What `Serialize` writes and what `Reader::read` reads, as functions of a schema. */
module Codec {
  import opened Bytes
  import opened Schema

  // --- the writer ---

  /** An unsupported member ends its own message silently; an enclosing message goes on. */
  function EncodeAll(ms: seq<Member>, vs: seq<Value>): seq<byte>
    requires ConformsAll(ms, vs)
    decreases ms, 0
  {
    if ms == [] || ms[0].kind.Unsupported? then []
    else Encode(ms[0], vs[0]) + EncodeAll(ms[1..], vs[1..])
  }

  /** Counts are cut to 32 bits, and so is the byte count of a primitive array. */
  function Encode(m: Member, v: Value): seq<byte>
    requires Conforms(m, v)
    decreases m, 0
  {
    if m.shape.Scalar? then EncodeItem(m.kind, v)
    else if m.kind.Prim? then EncodeBlock(m.kind.width, v.mem)
    else
      var count := Wrap32(|v.items|);
      PrefixConforms(m.kind, v.items, count);
      Le32(count) + EncodeItems(m.kind, v.items[..count])
  }

  function EncodeBlock(w: Width, mem: seq<byte>): seq<byte>
    requires |mem| == Span(w, Elems(w, |mem|))
  {
    var count := Wrap32(Elems(w, |mem|));
    Le32(count) + mem[..Wrap32(Span(w, count))]
  }

  function EncodeItem(k: Kind, v: Value): seq<byte>
    requires ConformsItem(k, v)
    decreases k, 0
  {
    match k
    case Prim(w) => v.bytes
    case Str => Le32(|v.chars|) + v.chars[..Wrap32(|v.chars|)]
    case Nested(ms) => EncodeAll(ms, v.fields)
    case Unsupported => []
  }

  function EncodeItems(k: Kind, vs: seq<Value>): seq<byte>
    requires ConformsItems(k, vs)
    decreases k, 1, |vs|
  {
    if vs == [] then [] else EncodeItem(k, vs[0]) + EncodeItems(k, vs[1..])
  }

  lemma {:induction false} PrefixConforms(k: Kind, vs: seq<Value>, n: nat)
    requires ConformsItems(k, vs) && n <= |vs|
    ensures ConformsItems(k, vs[..n])
    decreases n
  {
    if n > 0 {
      PrefixConforms(k, vs[1..], n - 1);
      assert vs[..n][1..] == vs[1..][..n - 1];
    }
  }

  // --- the reader ---

  /** A value and the offset after it, or the offset at which the reader gave up. */
  datatype Read<+T> = Ok(value: T, next: nat) | Stop(at: nat) {
    predicate IsFailure() {
      Stop?
    }

    function PropagateFailure<U>(): Read<U>
      requires Stop?
    {
      Stop(at)
    }

    function Extract(): (T, nat)
      requires Ok?
    {
      (value, next)
    }
  }

  function TakeBytes(data: seq<byte>, off: nat, need: nat): Read<seq<byte>> {
    if off + need > |data| then Stop(off) else Ok(data[off..off + need], off + need)
  }

  function TakeCount(data: seq<byte>, off: nat): Read<uint32> {
    if off + 4 > |data| then Stop(off) else Ok(Get32(data, off), off + 4)
  }

  function TakeText(data: seq<byte>, off: nat): Read<Value> {
    var (length, o) :- TakeCount(data, off);
    var (chars, o') :- TakeBytes(data, o, length);
    Ok(Text(chars), o')
  }

  function DecodeAll(ms: seq<Member>, data: seq<byte>, off: nat): Read<seq<Value>>
    decreases ms, 0
  {
    if ms == [] then Ok([], off)
    else
      var (v, o) :- Decode(ms[0], data, off);
      var (vs, o') :- DecodeAll(ms[1..], data, o);
      Ok([v] + vs, o')
  }

  function Decode(m: Member, data: seq<byte>, off: nat): Read<Value>
    decreases m, 1
  {
    if m.shape.Scalar? then DecodeItem(m.kind, data, off)
    else
      var (count, o) :- TakeCount(data, off);
      if m.shape.Fixed? && count != 0 && count != m.shape.n then Stop(o)
      else DecodeArray(m, count, data, o)
  }

  /** A fixed array sent with count 0 becomes zeros if primitive, and keeps its initial value if not. */
  function DecodeArray(m: Member, count: uint32, data: seq<byte>, off: nat): Read<Value>
    requires m.shape.Fixed? ==> count == 0 || count == m.shape.n
    decreases m, 0
  {
    match m.kind
    case Prim(w) =>
      var (mem, o) :- TakeBytes(data, off, Span(w, count));
      Ok(Block(if m.shape.Fixed? then mem + Zeros(Span(w, m.shape.n - count)) else mem), o)
    case Unsupported => Stop(off)
    case _ =>
      var (items, o) :- DecodeItems(m.kind, count, data, off);
      Ok(if m.shape.Fixed? && count == 0 then Init(m) else List(items), o)
  }

  function DecodeItem(k: Kind, data: seq<byte>, off: nat): Read<Value>
    decreases k, 0
  {
    match k
    case Prim(w) =>
      var (bytes, o) :- TakeBytes(data, off, Span(w, 1));
      Ok(Raw(bytes), o)
    case Str => TakeText(data, off)
    case Nested(ms) =>
      var (vs, o) :- DecodeAll(ms, data, off);
      Ok(Msg(vs), o)
    case Unsupported => Stop(off)
  }

  function DecodeItems(k: Kind, count: nat, data: seq<byte>, off: nat): Read<seq<Value>>
    decreases k, 1, count
  {
    if count == 0 then Ok([], off)
    else
      var (v, o) :- DecodeItem(k, data, off);
      var (vs, o') :- DecodeItems(k, count - 1, data, o);
      Ok([v] + vs, o')
  }

  // --- whether an accepted read met a fixed array that was sent with count 0 ---

  predicate PaddedAll(ms: seq<Member>, data: seq<byte>, off: nat)
    decreases ms, 0
  {
    ms != [] && (Padded(ms[0], data, off) ||
                 var r := Decode(ms[0], data, off); r.Ok? && PaddedAll(ms[1..], data, r.next))
  }

  predicate Padded(m: Member, data: seq<byte>, off: nat)
    decreases m, 0
  {
    if m.shape.Scalar? then PaddedItem(m.kind, data, off)
    else
      var r := TakeCount(data, off);
      r.Ok? && ((m.shape.Fixed? && r.value == 0) || (m.kind.Nested? && PaddedItems(m.kind, r.value, data, r.next)))
  }

  predicate PaddedItem(k: Kind, data: seq<byte>, off: nat)
    decreases k, 0
  {
    k.Nested? && PaddedAll(k.members, data, off)
  }

  predicate PaddedItems(k: Kind, count: nat, data: seq<byte>, off: nat)
    decreases k, 1, count
  {
    count > 0 && (PaddedItem(k, data, off) ||
                  var r := DecodeItem(k, data, off); r.Ok? && PaddedItems(k, count - 1, data, r.next))
  }
}
