/** A message whose code fits a frame comes back from `Unserialize(Serialize(m))` exactly when it is
    sendable, whatever its type. */
module ReadBack {
  import opened Bytes
  import opened Schema
  import opened Codec
  import opened RoundTrip
  import opened Serializer

  /** The size of every fixed array, in nested messages too, can be written as a count. */
  predicate FixedCountsFitAll(ms: seq<Member>)
    decreases ms, 0
  {
    ms == [] || (FixedCountsFit(ms[0]) && FixedCountsFitAll(ms[1..]))
  }

  predicate FixedCountsFit(m: Member)
    decreases m, 0
  {
    (m.shape.Fixed? ==> m.shape.n < TWO32) && (m.kind.Nested? ==> FixedCountsFitAll(m.kind.members))
  }

  ghost predicate Gives<T>(r: Read<T>, v: T) {
    r.Ok? && r.value == v
  }

  // --- a message that is not sendable is not read back from fewer than 2^32 bytes ---

  lemma {:induction false} UnsentNotReadAll(ms: seq<Member>, vs: seq<Value>, data: seq<byte>, off: nat)
    requires ConformsAll(ms, vs) && FixedCountsFitAll(ms) && !SendableAll(ms, vs)
    requires |data| < TWO32 && At(data, off, EncodeAll(ms, vs))
    ensures !Gives(DecodeAll(ms, data, off), vs)
    decreases ms, 0
  {
    var m, v := ms[0], vs[0];
    if m.kind.Unsupported? {
      UnsupportedStops(m, data, off);
    } else {
      AtSplit(data, off, Encode(m, v), EncodeAll(ms[1..], vs[1..]));
      if Sendable(m, v) {
        ReadsBack(m, v, data, off);
        UnsentNotReadAll(ms[1..], vs[1..], data, off + |Encode(m, v)|);
      } else {
        UnsentNotRead(m, v, data, off);
      }
      ReadsInParts(ms, vs, data, off);
    }
  }

  lemma {:induction false} ReadsInParts(ms: seq<Member>, vs: seq<Value>, data: seq<byte>, off: nat)
    requires ms != [] && vs != []
    ensures var r := Decode(ms[0], data, off);
            Gives(DecodeAll(ms, data, off), vs) ==> Gives(r, vs[0]) && Gives(DecodeAll(ms[1..], data, r.next), vs[1..])
  {
  }

  lemma {:induction false} UnsupportedStops(m: Member, data: seq<byte>, off: nat)
    requires m.kind.Unsupported?
    ensures Decode(m, data, off).Stop?
  {
  }

  lemma {:induction false} UnsentNotRead(m: Member, v: Value, data: seq<byte>, off: nat)
    requires Conforms(m, v) && FixedCountsFit(m) && !Sendable(m, v) && !m.kind.Unsupported?
    requires |data| < TWO32 && At(data, off, Encode(m, v))
    ensures !Gives(Decode(m, data, off), v)
    decreases m, 1
  {
    if m.shape.Scalar? {
      UnsentNotReadItem(m.kind, v, data, off);
    } else if m.kind.Prim? {
      UnsentNotReadBlock(m, v.mem, data, off);
    } else {
      UnsentNotReadList(m, v, data, off);
    }
  }

  /** The block read back is shorter, or the bytes for a fixed one are not there. */
  lemma {:induction false} UnsentNotReadBlock(m: Member, mem: seq<byte>, data: seq<byte>, off: nat)
    requires m.kind.Prim? && !m.shape.Scalar? && Conforms(m, Block(mem)) && FixedCountsFit(m)
    requires |mem| >= TWO32 > |data| && At(data, off, Encode(m, Block(mem)))
    ensures !Gives(Decode(m, data, off), Block(mem))
  {
    if m.shape.Fixed? {
      var n := m.shape.n;
      assert n == Elems(m.kind.width, |mem|) && |mem| == Span(m.kind.width, n);
      AtSplit(data, off, Le32(n), mem[..Wrap32(|mem|)]);
      GetOfLe32(data, off, n);
    }
  }

  lemma {:induction false} UnsentNotReadList(m: Member, v: Value, data: seq<byte>, off: nat)
    requires !m.shape.Scalar? && !m.kind.Prim? && !m.kind.Unsupported?
    requires Conforms(m, v) && FixedCountsFit(m) && !Sendable(m, v)
    requires |data| < TWO32 && At(data, off, Encode(m, v))
    ensures !Gives(Decode(m, data, off), v)
    decreases m, 0
  {
    var count := |v.items|;
    if count < TWO32 {
      assert v.items[..count] == v.items;
      AtSplit(data, off, Le32(count), EncodeItems(m.kind, v.items));
      GetOfLe32(data, off, count);
      UnsentNotReadItems(m.kind, v.items, data, off + 4);
    } else if TakeCount(data, off).Ok? {
      ItemsCounted(m.kind, TakeCount(data, off).value, data, off + 4);
    }
  }

  lemma {:induction false} ItemsCounted(k: Kind, count: nat, data: seq<byte>, off: nat)
    ensures var r := DecodeItems(k, count, data, off); r.Ok? ==> |r.value| == count
    decreases count
  {
    if count > 0 && DecodeItem(k, data, off).Ok? {
      ItemsCounted(k, count - 1, data, DecodeItem(k, data, off).next);
    }
  }

  lemma {:induction false} UnsentNotReadItem(k: Kind, v: Value, data: seq<byte>, off: nat)
    requires ConformsItem(k, v) && !SendableItem(k, v) && (k.Nested? ==> FixedCountsFitAll(k.members))
    requires |data| < TWO32 && At(data, off, EncodeItem(k, v))
    ensures !Gives(DecodeItem(k, data, off), v)
    decreases k, 0
  {
    if k.Nested? {
      UnsentNotReadAll(k.members, v.fields, data, off);
    }
  }

  lemma {:induction false} UnsentNotReadItems(k: Kind, vs: seq<Value>, data: seq<byte>, off: nat)
    requires ConformsItems(k, vs) && !SendableItems(k, vs) && (k.Nested? ==> FixedCountsFitAll(k.members))
    requires |data| < TWO32 && At(data, off, EncodeItems(k, vs))
    ensures !Gives(DecodeItems(k, |vs|, data, off), vs)
    decreases k, 1, |vs|
  {
    var v, rest := vs[0], vs[1..];
    var o := off + |EncodeItem(k, v)|;
    ItemsFollow(k, vs, data, off);
    if SendableItem(k, v) {
      ReadsBackItem(k, v, data, off);
      UnsentNotReadItems(k, rest, data, o);
      assert DecodeItem(k, data, off).next == o && !Gives(DecodeItems(k, |rest|, data, o), rest);
    } else {
      UnsentNotReadItem(k, v, data, off);
    }
    ItemsInParts(k, vs, data, off);
  }

  lemma {:induction false} ItemsInParts(k: Kind, vs: seq<Value>, data: seq<byte>, off: nat)
    requires vs != []
    ensures var r := DecodeItem(k, data, off);
            Gives(DecodeItems(k, |vs|, data, off), vs) ==>
              Gives(r, vs[0]) && Gives(DecodeItems(k, |vs| - 1, data, r.next), vs[1..])
  {
  }

  // --- main results ---

  /** Serializing a message and unserializing the bytes, whatever follows them, gives the message back
      exactly when it is sendable. It holds for every type whose fixed arrays have a size that can be
      written, and for data below the 2^32 bytes that a frame can carry. */
  lemma {:induction false} UnserializeOfSerializeIff(ms: seq<Member>, vs: seq<Value>, tail: seq<byte>)
    requires ConformsAll(ms, vs) && FixedCountsFitAll(ms)
    requires |EncodeAll(ms, vs) + tail| < TWO32
    ensures var r := DecodeAll(ms, EncodeAll(ms, vs) + tail, 0);
            (SendableAll(ms, vs) <==> r.Ok? && r.value == vs) &&
            (SendableAll(ms, vs) ==> r.next == |EncodeAll(ms, vs)|)
  {
    var code := EncodeAll(ms, vs);
    assert (code + tail)[..|code|] == code;
    if SendableAll(ms, vs) {
      ReadsBackAll(ms, vs, code + tail, 0);
    } else {
      UnsentNotReadAll(ms, vs, code + tail, 0);
    }
  }

  /** Whether writing what was read and reading it again gives the same message, for accepted bytes of
      any type: exactly when the message read is sendable. */
  lemma {:induction false} RewriteReadsTheSameIff(ms: seq<Member>, data: seq<byte>)
    requires FixedCountsFitAll(ms) && DecodeAll(ms, data, 0).Ok? && ConformsAll(ms, DecodeAll(ms, data, 0).value)
    requires |EncodeAll(ms, DecodeAll(ms, data, 0).value)| < TWO32
    ensures var vs := DecodeAll(ms, data, 0).value;
            var again := DecodeAll(ms, EncodeAll(ms, vs), 0);
            (again.Ok? && again.value == vs) <==> SendableAll(ms, vs)
  {
    var vs := DecodeAll(ms, data, 0).value;
    assert EncodeAll(ms, vs) + [] == EncodeAll(ms, vs);
    UnserializeOfSerializeIff(ms, vs, []);
  }

  // --- what the bridge makes of a body ---

  /** Every body that can be read is accepted, whatever bytes are left over, and no other. */
  lemma {:induction false} UnserializedIff(ms: seq<Member>, data: seq<byte>)
    ensures Unserialized(ms, data).Some? <==> DecodeAll(ms, data, 0).Ok?
    ensures Unserialized(ms, data).Some? ==> Unserialized(ms, data).value == DecodeAll(ms, data, 0).value
  {
  }

  /** A sendable message is unserialized from its code with any bytes after it. */
  lemma {:induction false} BodyReadsBack(ms: seq<Member>, vs: seq<Value>, tail: seq<byte>)
    requires ConformsAll(ms, vs) && SendableAll(ms, vs)
    ensures Unserialized(ms, EncodeAll(ms, vs) + tail) == Some(vs)
  {
    var code := EncodeAll(ms, vs);
    assert (code + tail)[..|code|] == code;
    ReadsBackAll(ms, vs, code + tail, 0);
  }

  /** Bytes after an accepted body change nothing. */
  lemma {:induction false} MoreBytesIgnored(ms: seq<Member>, data: seq<byte>, more: seq<byte>)
    requires Unserialized(ms, data).Some?
    ensures Unserialized(ms, data + more) == Unserialized(ms, data)
  {
    ExtensionKeepsRead(ms, data, more, 0);
  }

  /** A body that lacks any of its bytes is not accepted. */
  lemma {:induction false} CutBodyRejected(ms: seq<Member>, vs: seq<Value>, k: nat)
    requires ConformsAll(ms, vs) && SendableAll(ms, vs) && k < |EncodeAll(ms, vs)|
    ensures Unserialized(ms, EncodeAll(ms, vs)[..k]) == None
  {
    TruncationRejected(ms, vs, k);
  }

  // --- the bound on the data is needed ---

  const HALF: nat := 0x8000_0000

  /** Two arrays of 2^31 zero bytes after each other, each with its count. */
  function TwoHalves(): (bs: seq<byte>)
    ensures |bs| == TWO32 + 8
  {
    Le32(HALF) + Zeros(HALF) + (Le32(HALF) + Zeros(HALF))
  }

  function LongTypes(init: Value): seq<Member> {
    [Member(Prim(W8), Dynamic, init), Member(Prim(W1), Fixed(HALF), init), Member(Prim(W1), Fixed(HALF), init)]
  }

  function LongMessage(): seq<Value> {
    [Block(TwoHalves()[..TWO32]), Block(Zeros(HALF)), Block(Zeros(HALF))]
  }

  /** The three members of the type and of the message, one by one. */
  lemma {:induction false} LongParts(init: Value)
    ensures var ms, vs := LongTypes(init), LongMessage();
            ms[1..] == [ms[1], ms[2]] && ms[1..][1..] == [ms[2]] && ms[1..][1..][1..] == [] &&
            vs[1..] == [vs[1], vs[2]] && vs[1..][1..] == [vs[2]] && vs[1..][1..][1..] == []
  {
  }

  lemma {:induction false} LongConforms(init: Value)
    ensures ConformsAll(LongTypes(init), LongMessage()) && !SendableAll(LongTypes(init), LongMessage())
    ensures FixedCountsFitAll(LongTypes(init))
  {
    var ms, vs := LongTypes(init), LongMessage();
    LongParts(init);
    assert Conforms(ms[0], vs[0]) && Conforms(ms[1], vs[1]) && Conforms(ms[2], vs[2]);
    assert ConformsAll([], []) && FixedCountsFitAll([]);
    assert ConformsAll([ms[2]], [vs[2]]) && FixedCountsFitAll([ms[2]]);
    assert ConformsAll([ms[1], ms[2]], [vs[1], vs[2]]) && FixedCountsFitAll([ms[1], ms[2]]);
  }

  lemma {:induction false} LongCode(init: Value)
    requires ConformsAll(LongTypes(init), LongMessage())
    ensures EncodeAll(LongTypes(init), LongMessage()) == Le32(0x2000_0000) + TwoHalves()
  {
    var ms, vs := LongTypes(init), LongMessage();
    LongParts(init);
    var z := Zeros(HALF);
    EncodeOfBlock(W1, z);
    assert Encode(ms[1], vs[1]) == Encode(ms[2], vs[2]) == Le32(HALF) + z;
    assert vs[0].mem[..0] == [];
    assert Encode(ms[0], vs[0]) == Le32(0x2000_0000) + [] == Le32(0x2000_0000);
    assert EncodeAll(ms[1..][1..], vs[1..][1..]) == Le32(HALF) + z + [] == Le32(HALF) + z;
    assert EncodeAll(ms[1..], vs[1..]) == TwoHalves();
  }

  /** A code of more than 2^32 bytes can give the message back although it is not sendable: the first
      array is written without its 2^32 bytes, the reader takes those of the other two for them, and
      the zeros that are left are read as two counts of 0. */
  lemma {:induction false} LongReadBack(init: Value)
    ensures var ms, vs := LongTypes(init), LongMessage();
            ConformsAll(ms, vs) && FixedCountsFitAll(ms) && !SendableAll(ms, vs) &&
            DecodeAll(ms, EncodeAll(ms, vs), 0) == Ok(vs, |EncodeAll(ms, vs)|)
  {
    LongConforms(init);
    LongCode(init);
    LongData(EncodeAll(LongTypes(init), LongMessage()));
    LongDecodes(init, EncodeAll(LongTypes(init), LongMessage()));
  }

  lemma {:induction false} LongData(data: seq<byte>)
    requires data == Le32(0x2000_0000) + TwoHalves()
    ensures At(data, 0, Le32(0x2000_0000) + TwoHalves()[..TWO32])
    ensures forall i :: 4 + TWO32 <= i < |data| ==> data[i] == 0
  {
    assert data[..4 + TWO32] == Le32(0x2000_0000) + TwoHalves()[..TWO32];
  }

  lemma {:induction false} LongDecodes(init: Value, data: seq<byte>)
    requires At(data, 0, Le32(0x2000_0000) + TwoHalves()[..TWO32]) && |data| == 12 + TWO32
    requires forall i :: 4 + TWO32 <= i < |data| ==> data[i] == 0
    ensures DecodeAll(LongTypes(init), data, 0) == Ok(LongMessage(), |data|)
  {
    var ms, vs := LongTypes(init), LongMessage();
    var o := 4 + TWO32;
    LongParts(init);
    ReadsBackBlock(ms[0], 0x2000_0000, vs[0].mem, data, 0);
    ZeroCountReadsZeros(ms[1], data, o);
    ZeroCountReadsZeros(ms[2], data, o + 4);
    assert DecodeAll([], data, o + 8) == Ok([], o + 8);
    ReadsOn([ms[2]], [vs[2]], data, o + 4, o + 8, o + 8);
    ReadsOn([ms[1], ms[2]], [vs[1], vs[2]], data, o, o + 4, o + 8);
    ReadsOn(ms, vs, data, 0, o, o + 8);
  }

  lemma {:induction false} ZeroCountReadsZeros(m: Member, data: seq<byte>, off: nat)
    requires m.kind == Prim(W1) && m.shape.Fixed? && off + 4 <= |data|
    requires data[off] == data[off + 1] == data[off + 2] == data[off + 3] == 0
    ensures Decode(m, data, off) == Ok(Block(Zeros(m.shape.n)), off + 4)
  {
    assert TakeCount(data, off) == Ok(0, off + 4);
    assert [] + Zeros(m.shape.n) == Zeros(m.shape.n);
  }
}
