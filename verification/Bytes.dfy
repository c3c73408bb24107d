/** Bytes, 32-bit counts and the little-endian length fields that every part of the bridge shares. */
module Bytes {

  type byte = b: int | 0 <= b < 256

  const TWO32: nat := 0x1_0000_0000

  type uint32 = x: int | 0 <= x < 0x1_0000_0000

  /** Conversion to a 32-bit unsigned integer. */
  function Wrap32(n: nat): (x: uint32)
    ensures n < TWO32 ==> x == n
  {
    n % TWO32
  }

  datatype Option<+T> = None | Some(value: T)

  /** The low `k` bytes of `n`, least significant byte first. */
  function LowBytes(n: nat, k: nat): (bs: seq<byte>)
    ensures |bs| == k
  {
    if k == 0 then [] else [n % 0x100] + LowBytes(n / 0x100, k - 1)
  }

  /** A length field: the low 32 bits of `n`. */
  function Le32(n: nat): (bs: seq<byte>)
    ensures |bs| == 4
  {
    LowBytes(n, 4)
  }

  lemma {:induction false} Le32Bytes(n: nat)
    ensures Le32(n) == [n % 0x100, n / 0x100 % 0x100, n / 0x1_0000 % 0x100, n / 0x100_0000 % 0x100]
  {
    Quotients(n);
    assert LowBytes(n / 0x100_0000, 1) == [n / 0x100_0000 % 0x100];
    assert LowBytes(n / 0x1_0000, 2) == [n / 0x1_0000 % 0x100] + LowBytes(n / 0x100_0000, 1);
    assert LowBytes(n / 0x100, 3) == [n / 0x100 % 0x100] + LowBytes(n / 0x1_0000, 2);
  }

  /** The 32-bit number whose four bytes start at `at`. */
  function Get32(bs: seq<byte>, at: nat): uint32
    requires at + 4 <= |bs|
  {
    var b0: int, b1: int, b2: int, b3: int := bs[at], bs[at + 1], bs[at + 2], bs[at + 3];
    b0 + 0x100 * b1 + 0x1_0000 * b2 + 0x100_0000 * b3
  }

  /** `bs` occurs in `data` at offset `off`. */
  predicate At(data: seq<byte>, off: nat, bs: seq<byte>) {
    off + |bs| <= |data| && data[off..off + |bs|] == bs
  }

  /** `data` and `other` hold the same bytes between the two offsets. */
  predicate Agree(data: seq<byte>, other: seq<byte>, from: nat, to: nat) {
    from <= to <= |data| && to <= |other| && data[from..to] == other[from..to]
  }

  function Flatten<T>(chunks: seq<seq<T>>): seq<T> {
    if chunks == [] then [] else chunks[0] + Flatten(chunks[1..])
  }

  function Zeros(n: nat): (bs: seq<byte>)
    ensures |bs| == n
    ensures forall i :: 0 <= i < n ==> bs[i] == 0
  {
    seq(n, i => 0)
  }

  /** Writing a number and reading it back keeps its low 32 bits, wherever it is written. */
  lemma {:induction false} GetOfLe32(data: seq<byte>, off: nat, n: nat)
    requires At(data, off, Le32(n))
    ensures Get32(data, off) == Wrap32(n)
  {
    var b := Le32(n);
    assert forall i :: 0 <= i < 4 ==> data[off + i] == data[off..off + 4][i] == b[i];
    Le32Bytes(n);
    Le32Sum(n);
  }

  lemma {:induction false} Le32Sum(n: nat)
    ensures n % 256 + 0x100 * (n / 0x100 % 256) + 0x1_0000 * (n / 0x1_0000 % 256) + 0x100_0000 * (n / 0x100_0000 % 256)
         == n % TWO32
  {
    Quotients(n);
    var m1, m2, m3, m4 := n / 0x100, n / 0x1_0000, n / 0x100_0000, n / 0x100_0000 / 0x100;
    assert n == n % 256 + 0x100 * m1;
    assert m1 == m1 % 256 + 0x100 * m2;
    assert m2 == m2 % 256 + 0x100 * m3;
    assert m3 == m3 % 256 + 0x100 * m4;
    Remainder(n, m4, n % 256 + 0x100 * (m1 % 256) + 0x1_0000 * (m2 % 256) + 0x100_0000 * (m3 % 256));
  }

  lemma {:induction false} Quotients(n: nat)
    ensures n / 0x1_0000 == n / 0x100 / 0x100 && n / 0x100_0000 == n / 0x1_0000 / 0x100
  {
  }

  lemma {:induction false} Remainder(n: nat, q: nat, r: nat)
    requires n == r + TWO32 * q && r < TWO32
    ensures n % TWO32 == r
  {
  }

  /** Reading four bytes and writing the number back gives the same four bytes. */
  lemma {:induction false} Le32OfGet(data: seq<byte>, off: nat)
    requires off + 4 <= |data|
    ensures Le32(Get32(data, off)) == data[off..off + 4]
  {
    var n: nat := Get32(data, off);
    var b1: int, b2: int, b3: int := data[off + 1], data[off + 2], data[off + 3];
    assert n / 0x100 == b1 + 0x100 * b2 + 0x1_0000 * b3;
    assert n / 0x1_0000 == b2 + 0x100 * b3;
    assert n / 0x100_0000 == b3;
    Le32Bytes(n);
  }

  /** Only the low 32 bits of a number are written. */
  lemma {:induction false} Le32Low(n: nat)
    ensures Le32(Wrap32(n)) == Le32(n)
  {
    var q, r := n / TWO32, n % TWO32;
    Le32Bytes(n);
    Le32Bytes(r);
    LowByte(n, r, 0x100_0000 * q);
    LowByte(n / 0x100, r / 0x100, 0x1_0000 * q);
    LowByte(n / 0x1_0000, r / 0x1_0000, 0x100 * q);
    LowByte(n / 0x100_0000, r / 0x100_0000, q);
  }

  lemma {:induction false} LowByte(n: nat, r: nat, q: nat)
    requires n == r + 0x100 * q
    ensures n % 256 == r % 256 && n / 0x100 == r / 0x100 + q
    ensures n / 0x1_0000 == n / 0x100 / 0x100 && n / 0x100_0000 == n / 0x1_0000 / 0x100
    ensures r / 0x1_0000 == r / 0x100 / 0x100 && r / 0x100_0000 == r / 0x1_0000 / 0x100
  {
  }

  /** Two numbers with the same length field agree modulo 2^32. */
  lemma {:induction false} Le32Injective(m: nat, n: nat)
    requires Le32(m) == Le32(n)
    ensures Wrap32(m) == Wrap32(n)
  {
    assert At(Le32(m), 0, Le32(m)) && At(Le32(m), 0, Le32(n));
    GetOfLe32(Le32(m), 0, m);
    GetOfLe32(Le32(m), 0, n);
  }

  lemma {:induction false} AtSplit(data: seq<byte>, off: nat, a: seq<byte>, b: seq<byte>)
    ensures At(data, off, a + b) <==> At(data, off, a) && At(data, off + |a|, b)
  {
    var c := a + b;
    if At(data, off, c) {
      assert data[off..off + |a|] == data[off..off + |c|][..|a|] == c[..|a|] == a;
      assert data[off + |a|..off + |c|] == data[off..off + |c|][|a|..] == c[|a|..] == b;
    }
    if At(data, off, a) && At(data, off + |a|, b) {
      assert data[off..off + |c|] == data[off..off + |a|] + data[off + |a|..off + |c|];
    }
  }

  lemma {:induction false} Assoc<T>(a: seq<T>, b: seq<T>, c: seq<T>)
    ensures a + (b + c) == a + b + c
  {
  }

  lemma {:induction false} FlattenConcat<T>(a: seq<seq<T>>, b: seq<seq<T>>)
    ensures Flatten(a + b) == Flatten(a) + Flatten(b)
  {
    if a == [] {
      assert a + b == b;
    } else {
      FlattenConcat(a[1..], b);
      assert (a + b)[0] == a[0] && (a + b)[1..] == a[1..] + b;
      Assoc(a[0], Flatten(a[1..]), Flatten(b));
    }
  }
}
