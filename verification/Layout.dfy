/** The wire format spelled out: sizes, order, cut lengths, padding, and unsupported types. */
module Layout {
  import opened Bytes
  import opened Schema
  import opened Codec
  import opened RoundTrip
  import opened Canonical
  import opened ReadBack

  // --- sizes ---

  /** A boolean or 8-bit number takes one byte; the other numbers two, four and eight. */
  lemma {:induction false} ElementSizes(n: nat)
    ensures Span(W1, n) == n && Span(W2, n) == n + n && Span(W4, n) == 4 * n && Span(W8, n) == 8 * n
    ensures forall w :: Elems(w, Span(w, n)) == n
  {
  }

  lemma {:induction false} ScalarCode(w: Width, bytes: seq<byte>)
    ensures ConformsItem(Prim(w), Raw(bytes)) <==>
            |bytes| == match w case W1 => 1 case W2 => 2 case W4 => 4 case W8 => 8
    ensures ConformsItem(Prim(w), Raw(bytes)) ==> EncodeItem(Prim(w), Raw(bytes)) == bytes
  {
  }

  /** An array of `count` primitive elements: the count, then the memory of all elements. */
  lemma {:induction false} ArrayCode(m: Member, count: nat, mem: seq<byte>)
    requires m.kind.Prim? && !m.shape.Scalar? && m.shape.Holds(count)
    requires |mem| == match m.kind.width case W1 => count case W2 => 2 * count case W4 => 4 * count case W8 => 8 * count
    ensures Conforms(m, Block(mem))
    ensures |mem| < TWO32 ==> Encode(m, Block(mem)) == Le32(count) + mem
  {
    assert Elems(m.kind.width, |mem|) == count;
    if |mem| < TWO32 {
      EncodeOfBlock(m.kind.width, mem);
    }
  }

  /** A string: its length, then its characters. An array of strings or messages: the count, then the
      code of each. */
  lemma {:induction false} TextCode(chars: seq<byte>)
    requires |chars| < TWO32
    ensures EncodeItem(Str, Text(chars)) == Le32(|chars|) + chars
  {
    assert chars[..|chars|] == chars;
  }

  lemma {:induction false} ListCode(m: Member, items: seq<Value>)
    requires !m.shape.Scalar? && !m.kind.Prim? && Conforms(m, List(items)) && |items| < TWO32
    ensures Encode(m, List(items)) == Le32(|items|) + EncodeItems(m.kind, items)
  {
    assert items[..|items|] == items;
  }

  // --- order ---

  /** The members of a message are written in their order, and so are the elements of an array. */
  lemma {:induction false} MembersInOrder(ms: seq<Member>, ns: seq<Member>, vs: seq<Value>, ws: seq<Value>)
    requires ConformsAll(ms, vs) && ConformsAll(ns, ws)
    requires forall i :: 0 <= i < |ms| ==> !ms[i].kind.Unsupported?
    ensures ConformsAll(ms + ns, vs + ws)
    ensures EncodeAll(ms + ns, vs + ws) == EncodeAll(ms, vs) + EncodeAll(ns, ws)
    decreases |ms|
  {
    if ms == [] {
      assert ms + ns == ns && vs + ws == ws;
    } else {
      MembersInOrder(ms[1..], ns, vs[1..], ws);
      assert (ms + ns)[1..] == ms[1..] + ns && (vs + ws)[1..] == vs[1..] + ws;
      Assoc(Encode(ms[0], vs[0]), EncodeAll(ms[1..], vs[1..]), EncodeAll(ns, ws));
    }
  }

  lemma {:induction false} ElementsInOrder(k: Kind, vs: seq<Value>, ws: seq<Value>)
    requires ConformsItems(k, vs) && ConformsItems(k, ws)
    ensures ConformsItems(k, vs + ws)
    ensures EncodeItems(k, vs + ws) == EncodeItems(k, vs) + EncodeItems(k, ws)
    decreases |vs|
  {
    if vs == [] {
      assert vs + ws == ws;
      assert [] + EncodeItems(k, ws) == EncodeItems(k, ws);
    } else {
      var v, rest := vs[0], vs[1..];
      ElementsInOrder(k, rest, ws);
      assert vs + ws == [v] + (rest + ws);
      OneMoreElement(k, v, rest + ws);
      assert vs == [v] + rest;
      OneMoreElement(k, v, rest);
      Assoc(EncodeItem(k, v), EncodeItems(k, rest), EncodeItems(k, ws));
    }
  }

  lemma {:induction false} OneMoreElement(k: Kind, v: Value, rest: seq<Value>)
    requires ConformsItem(k, v) && ConformsItems(k, rest)
    ensures ConformsItems(k, [v] + rest) && EncodeItems(k, [v] + rest) == EncodeItem(k, v) + EncodeItems(k, rest)
  {
    assert ([v] + rest)[1..] == rest;
  }

  // --- lengths that do not fit ---

  /** A string is written as its first characters, as many as the length modulo 2^32. */
  lemma {:induction false} LongTextIsCut(chars: seq<byte>)
    ensures EncodeItem(Str, Text(chars)) == EncodeItem(Str, Text(chars[..|chars| % 0x1_0000_0000]))
  {
    var n := |chars| % 0x1_0000_0000;
    Le32Low(|chars|);
    assert chars[..n][..n] == chars[..n];
  }

  /** An array of strings or messages is written as its first elements, as many as the count modulo 2^32. */
  lemma {:induction false} LongListIsCut(k: Kind, init: Value, items: seq<Value>)
    requires !k.Prim? && ConformsItems(k, items)
    ensures var m, few := Member(k, Dynamic, init), items[..|items| % 0x1_0000_0000];
            ConformsItems(k, few) && Encode(m, List(items)) == Encode(m, List(few))
  {
    var n := |items| % 0x1_0000_0000;
    PrefixConforms(k, items, n);
    assert items[..n][..n] == items[..n];
  }

  /** A primitive array likewise, `few` being its first elements. */
  lemma {:induction false} LongBlockIsCut(w: Width, mem: seq<byte>, count: nat, few: seq<byte>)
    requires |mem| == Span(w, count) && |few| == Span(w, count % 0x1_0000_0000) && few <= mem
    ensures |mem| == Span(w, Elems(w, |mem|)) && |few| == Span(w, Elems(w, |few|))
    ensures EncodeBlock(w, mem) == EncodeBlock(w, few)
  {
    var n := count % 0x1_0000_0000;
    assert Elems(w, |mem|) == count && Elems(w, |few|) == n;
    EncodeOfAnyBlock(w, n, few);
    assert few[..Wrap32(|few|)] == mem[..Wrap32(|few|)];
  }

  /** If the count fits but the bytes do not, the count is written in full and the bytes are cut. */
  lemma {:induction false} LongBytesAreCut(w: Width, mem: seq<byte>, count: nat)
    requires |mem| == Span(w, count) && count < TWO32
    ensures |mem| == Span(w, Elems(w, |mem|))
    ensures EncodeBlock(w, mem) == Le32(count) + mem[..|mem| % 0x1_0000_0000]
  {
    EncodeOfAnyBlock(w, count, mem);
  }

  // --- counts of fixed arrays ---

  /** What the reader makes of the count of a fixed array: another count than its size or 0 is rejected;
      with 0, nothing follows, numbers become zeros, and strings and messages keep their initial values. */
  lemma {:induction false} FixedCountLaw(m: Member, data: seq<byte>, off: nat)
    requires m.shape.Fixed? && off + 4 <= |data|
    ensures var count, n := Get32(data, off), m.shape.n;
            (count != 0 && count != n ==> Decode(m, data, off) == Stop(off + 4)) &&
            (count == 0 ==>
               Decode(m, data, off) ==
               match m.kind
               case Prim(W1) => Ok(Block(Zeros(n)), off + 4)
               case Prim(W2) => Ok(Block(Zeros(2 * n)), off + 4)
               case Prim(W4) => Ok(Block(Zeros(4 * n)), off + 4)
               case Prim(W8) => Ok(Block(Zeros(8 * n)), off + 4)
               case Str => Ok(m.init, off + 4)
               case Nested(ms) => Ok(List(seq(n, i => Msg(InitAll(ms)))), off + 4)
               case Unsupported => Stop(off + 4))
  {
    var count: nat, n := Get32(data, off), m.shape.n;
    if count == 0 {
      assert DecodeItems(m.kind, 0, data, off + 4) == Ok([], off + 4);
      if m.kind.Prim? {
        assert [] + Zeros(Span(m.kind.width, n)) == Zeros(Span(m.kind.width, n));
      }
    }
  }

  /** The initial message has the initial value of each member: what init stores, in nested messages too,
      no elements in a dynamic array of messages, and the same message throughout a fixed one. */
  lemma {:induction false} InitLaw(ms: seq<Member>, i: nat)
    requires i < |ms|
    ensures |InitAll(ms)| == |ms|
    ensures InitAll(ms)[i] ==
            match ms[i].kind
            case Nested(inner) =>
              (match ms[i].shape
               case Scalar => Msg(InitAll(inner))
               case Dynamic => List([])
               case Fixed(n) => List(seq(n, j => Msg(InitAll(inner)))))
            case _ => ms[i].init
    decreases |ms|
  {
    if |ms| > 1 {
      InitLaw(ms[1..], if i == 0 then 0 else i - 1);
    } else {
      assert InitAll(ms[1..]) == [];
    }
  }

  // --- unsupported types ---

  lemma {:induction false} ConformsParts(ms: seq<Member>, ns: seq<Member>, vs: seq<Value>)
    requires ConformsAll(ms + ns, vs)
    ensures |ms| <= |vs| && ConformsAll(ms, vs[..|ms|]) && ConformsAll(ns, vs[|ms|..])
    decreases |ms|
  {
    if ms == [] {
      assert ms + ns == ns && vs[0..] == vs;
    } else {
      assert (ms + ns)[1..] == ms[1..] + ns;
      ConformsParts(ms[1..], ns, vs[1..]);
      assert vs[1..][..|ms| - 1] == vs[..|ms|][1..] && vs[1..][|ms| - 1..] == vs[|ms|..];
    }
  }

  /** Nothing of a message is written from its first unsupported member on, whatever follows. */
  lemma {:induction false} WriterStops(ms: seq<Member>, bad: Member, more: seq<Member>, vs: seq<Value>)
    requires bad.kind.Unsupported? && ConformsAll(ms + [bad] + more, vs)
    ensures |ms| <= |vs| && ConformsAll(ms, vs[..|ms|])
    ensures EncodeAll(ms + [bad] + more, vs) == EncodeAll(ms, vs[..|ms|])
    decreases |ms|
  {
    var all := ms + [bad] + more;
    assert all == ms + ([bad] + more);
    ConformsParts(ms, [bad] + more, vs);
    if ms != [] {
      assert all[1..] == ms[1..] + [bad] + more;
      WriterStops(ms[1..], bad, more, vs[1..]);
      assert vs[1..][..|ms| - 1] == vs[..|ms|][1..];
    }
  }

  /** The message that contains it goes on with its next member. */
  lemma {:induction false} OuterGoesOn(ms: seq<Member>, bad: Member, more: seq<Member>, init: Value, fields: seq<Value>,
                                       next: seq<Member>, vs: seq<Value>)
    requires bad.kind.Unsupported? && ConformsAll(ms + [bad] + more, fields) && ConformsAll(next, vs)
    ensures |ms| <= |fields| && ConformsAll(ms, fields[..|ms|])
    ensures var outer := Member(Nested(ms + [bad] + more), Scalar, init);
            ConformsAll([outer] + next, [Msg(fields)] + vs) &&
            EncodeAll([outer] + next, [Msg(fields)] + vs) == EncodeAll(ms, fields[..|ms|]) + EncodeAll(next, vs)
  {
    var outer := Member(Nested(ms + [bad] + more), Scalar, init);
    WriterStops(ms, bad, more, fields);
    assert ([outer] + next)[1..] == next && ([Msg(fields)] + vs)[1..] == vs;
    assert Encode(outer, Msg(fields)) == EncodeAll(ms + [bad] + more, fields);
  }

  /** The reader, on the other hand, accepts no bytes for a type with an unsupported member. */
  lemma {:induction false} ReaderRejects(ms: seq<Member>, bad: Member, more: seq<Member>, data: seq<byte>, off: nat)
    requires bad.kind.Unsupported?
    ensures DecodeAll(ms + [bad] + more, data, off).Stop?
    decreases |ms|
  {
    var all := ms + [bad] + more;
    var first := Decode(all[0], data, off);
    if ms == [] {
      assert all[0] == bad;
      UnsupportedStops(bad, data, off);
    } else if first.Ok? {
      assert all[1..] == ms[1..] + [bad] + more;
      ReaderRejects(ms[1..], bad, more, data, first.next);
    }
  }
}
