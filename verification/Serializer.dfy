/** The writer and the reader as the bridge runs them: an appended buffer, and an offset that advances. */
module Serializer {
  import opened Bytes
  import opened Schema
  import opened Codec

  class Writer {
    var data: seq<byte>

    constructor ()
      ensures data == []
    {
      data := [];
    }

    method Put(bytes: seq<byte>)
      modifies this
      ensures data == old(data) + bytes
    {
      data := data + bytes;
    }

    method PutText(chars: seq<byte>)
      modifies this
      ensures data == old(data) + EncodeItem(Str, Text(chars))
    {
      var length := Wrap32(|chars|);
      Le32Low(|chars|);
      Put(Le32(length));
      Put(chars[..length]);
    }

    /** Appends one message. An unsupported member ends it early, without a sign to the caller. */
    method Serialize(ms: seq<Member>, vs: seq<Value>)
      requires ConformsAll(ms, vs)
      modifies this
      ensures data == old(data) + EncodeAll(ms, vs)
      decreases ms, 0
    {
      var i := 0;
      assert ms[0..] == ms && vs[0..] == vs;
      while i < |ms|
        invariant i <= |ms| == |vs|
        invariant ConformsAll(ms[i..], vs[i..])
        invariant data + EncodeAll(ms[i..], vs[i..]) == old(data) + EncodeAll(ms, vs)
      {
        ghost var restMs, restVs := ms[i..], vs[i..];
        assert restMs[0] == ms[i] && restMs[1..] == ms[i + 1..] && restVs[1..] == vs[i + 1..];
        var m := ms[i];
        if m.kind.Unsupported? {
          assert data + [] == data;
          return;
        }
        ghost var before := data;
        SerializeMember(m, vs[i]);
        assert data + EncodeAll(restMs[1..], restVs[1..])
            == before + (Encode(m, vs[i]) + EncodeAll(restMs[1..], restVs[1..]));
        i := i + 1;
      }
      assert data + [] == data;
    }

    method SerializeMember(m: Member, v: Value)
      requires Conforms(m, v)
      modifies this
      ensures data == old(data) + Encode(m, v)
      decreases m, 0
    {
      if m.shape.Scalar? {
        SerializeItem(m.kind, v);
      } else if m.kind.Prim? {
        var count := Wrap32(Elems(m.kind.width, |v.mem|));
        var byteCount := Wrap32(Span(m.kind.width, count));
        Put(Le32(count));
        Put(v.mem[..byteCount]);
      } else {
        var count := Wrap32(|v.items|);
        PrefixConforms(m.kind, v.items, count);
        Put(Le32(count));
        SerializeItems(m.kind, v.items[..count]);
      }
    }

    method SerializeItems(k: Kind, items: seq<Value>)
      requires ConformsItems(k, items)
      modifies this
      ensures data == old(data) + EncodeItems(k, items)
      decreases k, 1
    {
      var i := 0;
      assert items[0..] == items;
      while i < |items|
        invariant i <= |items|
        invariant ConformsItems(k, items[i..])
        invariant data + EncodeItems(k, items[i..]) == old(data) + EncodeItems(k, items)
      {
        ghost var rest, before := items[i..], data;
        assert rest[0] == items[i] && rest[1..] == items[i + 1..];
        SerializeItem(k, items[i]);
        assert data + EncodeItems(k, rest[1..]) == before + (EncodeItem(k, items[i]) + EncodeItems(k, rest[1..]));
        i := i + 1;
      }
      assert data + [] == data;
    }

    method SerializeItem(k: Kind, v: Value)
      requires ConformsItem(k, v)
      modifies this
      ensures data == old(data) + EncodeItem(k, v)
      decreases k, 0
    {
      match k
      case Prim(_) => Put(v.bytes);
      case Str => PutText(v.chars);
      case Nested(ms) => Serialize(ms, v.fields);
      case Unsupported =>
    }
  }

  class Reader {
    const data: seq<byte>
    var offset: nat

    constructor (data: seq<byte>)
      ensures this.data == data && offset == 0
    {
      this.data := data;
      offset := 0;
    }

    /** Advances over `need` bytes, unless fewer are left. */
    method Take(need: nat) returns (ok: bool, bytes: seq<byte>)
      requires offset <= |data|
      modifies this`offset
      ensures old(offset) <= offset <= |data|
      ensures TakeBytes(data, old(offset), need) == if ok then Ok(bytes, offset) else Stop(offset)
      ensures ok <==> old(offset) + need <= |data|
      ensures if ok then offset == old(offset) + need && bytes == data[old(offset)..offset] else offset == old(offset)
    {
      if offset + need > |data| {
        return false, [];
      }
      ok, bytes := true, data[offset..offset + need];
      offset := offset + need;
    }

    method TakeUint32() returns (ok: bool, n: uint32)
      requires offset <= |data|
      modifies this`offset
      ensures old(offset) <= offset <= |data|
      ensures TakeCount(data, old(offset)) == if ok then Ok(n, offset) else Stop(offset)
      ensures ok <==> old(offset) + 4 <= |data|
      ensures if ok then offset == old(offset) + 4 && n == Get32(data, old(offset)) else offset == old(offset)
    {
      if offset + 4 > |data| {
        return false, 0;
      }
      ok, n := true, Get32(data, offset);
      offset := offset + 4;
    }

    method TakeString() returns (ok: bool, v: Value)
      requires offset <= |data|
      modifies this`offset
      ensures old(offset) <= offset <= |data|
      ensures TakeText(data, old(offset)) == if ok then Ok(v, offset) else Stop(offset)
    {
      v := Text([]);
      var length, chars;
      ok, length := TakeUint32();
      if ok {
        ok, chars := Take(length);
        v := Text(chars);
      }
    }

    /** Reads one message. The offset stays within the data and never goes back, also on failure. */
    method Read(ms: seq<Member>) returns (ok: bool, vs: seq<Value>)
      requires offset <= |data|
      modifies this`offset
      ensures old(offset) <= offset <= |data|
      ensures DecodeAll(ms, data, old(offset)) == if ok then Ok(vs, offset) else Stop(offset)
      decreases ms, 0
    {
      vs := [];
      var i := 0;
      assert ms[0..] == ms;
      ghost var all := DecodeAll(ms, data, offset);
      OntoNothing(all);
      while i < |ms|
        invariant i <= |ms| && old(offset) <= offset <= |data|
        invariant all == Onto(vs, DecodeAll(ms[i..], data, offset))
      {
        var m := ms[i];
        ghost var rest := ms[i..];
        assert rest[0] == m && rest[1..] == ms[i + 1..];
        var v;
        ok, v := ReadMember(m);
        if !ok {
          return false, [];
        }
        OntoTwice(vs, v, DecodeAll(rest[1..], data, offset));
        vs := vs + [v];
        i := i + 1;
      }
      assert vs + [] == vs;
      ok := true;
    }

    method ReadMember(m: Member) returns (ok: bool, v: Value)
      requires offset <= |data|
      modifies this`offset
      ensures old(offset) <= offset <= |data|
      ensures Decode(m, data, old(offset)) == if ok then Ok(v, offset) else Stop(offset)
      decreases m, 0
    {
      if m.shape.Scalar? {
        ok, v := ReadItem(m.kind);
        return;
      }
      v := Block([]);
      var count, mem, items;
      ok, count := TakeUint32();
      if !ok {
        return;
      }
      if m.shape.Fixed? && count != 0 && count != m.shape.n {
        return false, v;
      }
      match m.kind
      case Prim(w) =>
        ok, mem := Take(Span(w, count));
        if ok {
          v := Block(if m.shape.Fixed? then mem + Zeros(Span(w, m.shape.n - count)) else mem);
        }
      case Unsupported => ok := false;
      case _ =>
        ok, items := ReadItems(m.kind, count);
        if ok {
          v := if m.shape.Fixed? && count == 0 then Init(m) else List(items);
        }
    }

    method ReadItems(k: Kind, count: uint32) returns (ok: bool, items: seq<Value>)
      requires offset <= |data|
      modifies this`offset
      ensures old(offset) <= offset <= |data|
      ensures DecodeItems(k, count, data, old(offset)) == if ok then Ok(items, offset) else Stop(offset)
      decreases k, 1
    {
      items := [];
      ghost var all := DecodeItems(k, count, data, offset);
      OntoNothing(all);
      var i := 0;
      while i < count
        invariant i <= count && old(offset) <= offset <= |data|
        invariant all == Onto(items, DecodeItems(k, count - i, data, offset))
      {
        var v;
        ok, v := ReadItem(k);
        if !ok {
          return false, [];
        }
        OntoTwice(items, v, DecodeItems(k, count - i - 1, data, offset));
        items := items + [v];
        i := i + 1;
      }
      assert items + [] == items;
      ok := true;
    }

    method ReadItem(k: Kind) returns (ok: bool, v: Value)
      requires offset <= |data|
      modifies this`offset
      ensures old(offset) <= offset <= |data|
      ensures DecodeItem(k, data, old(offset)) == if ok then Ok(v, offset) else Stop(offset)
      decreases k, 0
    {
      v := Raw([]);
      match k
      case Prim(w) =>
        var bytes;
        ok, bytes := Take(Span(w, 1));
        v := Raw(bytes);
      case Str => ok, v := TakeString();
      case Nested(ms) =>
        var vs;
        ok, vs := Read(ms);
        v := Msg(vs);
      case Unsupported => ok := false;
    }
  }

  /** A read that continues after the values `done` have been read. */
  ghost function Onto(done: seq<Value>, r: Read<seq<Value>>): Read<seq<Value>> {
    if r.Ok? then Ok(done + r.value, r.next) else r
  }

  lemma {:induction false} OntoNothing(r: Read<seq<Value>>)
    ensures Onto([], r) == r
  {
    if r.Ok? {
      assert [] + r.value == r.value;
    }
  }

  lemma {:induction false} OntoTwice(done: seq<Value>, v: Value, r: Read<seq<Value>>)
    ensures Onto(done, Onto([v], r)) == Onto(done + [v], r)
  {
    if r.Ok? {
      assert done + ([v] + r.value) == done + [v] + r.value;
    }
  }

  /** Trailing bytes are accepted; the offset parameter of the bridge's function has no effect. */
  method Unserialize(ms: seq<Member>, data: seq<byte>) returns (r: Option<seq<Value>>)
    ensures r == Unserialized(ms, data)
    ensures var read := DecodeAll(ms, data, 0); r == if read.Ok? then Some(read.value) else None
  {
    var reader := new Reader(data);
    var ok, vs := reader.Read(ms);
    r := if ok then Some(vs) else None;
  }

  function Unserialized(ms: seq<Member>, data: seq<byte>): Option<seq<Value>> {
    var r := DecodeAll(ms, data, 0);
    if r.Ok? then Some(r.value) else None
  }
}
