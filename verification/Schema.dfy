/** Message schemas as introspection describes them, the messages they describe, and what the
    wire format can carry. */
module Schema {
  import opened Bytes

  datatype Width = W1 | W2 | W4 | W8

  /** The bytes taken by `n` elements. */
  function Span(w: Width, n: nat): nat {
    match w
    case W1 => n
    case W2 => 2 * n
    case W4 => 4 * n
    case W8 => 8 * n
  }

  /** The number of whole elements in `size` bytes. */
  function Elems(w: Width, size: nat): nat {
    match w
    case W1 => size
    case W2 => size / 2
    case W4 => size / 4
    case W8 => size / 8
  }

  type pos = n: int | 1 <= n witness 1

  /** `Unsupported` stands for long double, char, wchar, octet and wide strings. */
  datatype Kind = Prim(width: Width) | Str | Nested(members: seq<Member>) | Unsupported

  /** `Dynamic` is an array whose `array_size_` is 0, `Fixed(n)` one whose `array_size_` is n. */
  datatype Shape = Scalar | Dynamic | Fixed(n: pos) {
    /** An array of this shape may have `count` elements in memory. */
    predicate Holds(count: nat) {
      Fixed? ==> count == n
    }
  }

  /** `init` is what the type's init function stores in the member; nested messages have their own. */
  datatype Member = Member(kind: Kind, shape: Shape, init: Value)

  /** Primitive values are the raw bytes in memory; `Block` is a whole primitive array. */
  datatype Value =
    | Raw(bytes: seq<byte>)
    | Text(chars: seq<byte>)
    | Block(mem: seq<byte>)
    | Msg(fields: seq<Value>)
    | List(items: seq<Value>)

  // --- which values a message of a given type can hold in memory ---

  predicate ConformsAll(ms: seq<Member>, vs: seq<Value>)
    decreases ms, 0
  {
    |vs| == |ms| && (ms == [] || (Conforms(ms[0], vs[0]) && ConformsAll(ms[1..], vs[1..])))
  }

  predicate Conforms(m: Member, v: Value)
    decreases m, 0
  {
    if m.shape.Scalar? then ConformsItem(m.kind, v)
    else if m.kind.Prim? then
      v.Block? && |v.mem| == Span(m.kind.width, Elems(m.kind.width, |v.mem|)) &&
      m.shape.Holds(Elems(m.kind.width, |v.mem|))
    else
      v.List? && m.shape.Holds(|v.items|) && ConformsItems(m.kind, v.items)
  }

  predicate ConformsItem(k: Kind, v: Value)
    decreases k, 0
  {
    match k
    case Prim(w) => v.Raw? && |v.bytes| == Span(w, 1)
    case Str => v.Text?
    case Nested(ms) => v.Msg? && ConformsAll(ms, v.fields)
    case Unsupported => true
  }

  predicate ConformsItems(k: Kind, vs: seq<Value>)
    decreases k, 1, |vs|
  {
    vs == [] || (ConformsItem(k, vs[0]) && ConformsItems(k, vs[1..]))
  }

  // --- which messages the wire format can carry: supported types, and 32-bit lengths, counts
  //     and primitive-array byte sizes, in every part of the message that is visited ---

  predicate SendableAll(ms: seq<Member>, vs: seq<Value>)
    requires ConformsAll(ms, vs)
    decreases ms, 0
  {
    ms == [] || (Sendable(ms[0], vs[0]) && SendableAll(ms[1..], vs[1..]))
  }

  predicate Sendable(m: Member, v: Value)
    requires Conforms(m, v)
    decreases m, 0
  {
    if m.shape.Scalar? then SendableItem(m.kind, v)
    else if m.kind.Prim? then |v.mem| < TWO32
    else !m.kind.Unsupported? && |v.items| < TWO32 && SendableItems(m.kind, v.items)
  }

  predicate SendableItem(k: Kind, v: Value)
    requires ConformsItem(k, v)
    decreases k, 0
  {
    match k
    case Prim(w) => true
    case Str => |v.chars| < TWO32
    case Nested(ms) => SendableAll(ms, v.fields)
    case Unsupported => false
  }

  predicate SendableItems(k: Kind, vs: seq<Value>)
    requires ConformsItems(k, vs)
    decreases k, 1, |vs|
  {
    vs == [] || (SendableItem(k, vs[0]) && SendableItems(k, vs[1..]))
  }

  // --- the message that init produces, and schemas whose initial messages can be sent ---

  function InitAll(ms: seq<Member>): seq<Value>
    decreases ms, 0
  {
    if ms == [] then [] else [Init(ms[0])] + InitAll(ms[1..])
  }

  function Init(m: Member): Value
    decreases m, 0
  {
    match m.kind
    case Nested(ms) =>
      var empty := Msg(InitAll(ms));
      (match m.shape
       case Scalar => empty
       case Dynamic => List([])
       case Fixed(n) => List(seq(n, i => empty)))
    case _ => m.init
  }

  /** Every member type is supported, and every initial value conforms and fits the wire. */
  predicate SoundAll(ms: seq<Member>)
    decreases ms, 0
  {
    ms == [] || (Sound(ms[0]) && SoundAll(ms[1..]))
  }

  predicate Sound(m: Member)
    decreases m, 0
  {
    match m.kind
    case Unsupported => false
    case Nested(ms) => SoundAll(ms) && (m.shape.Fixed? ==> m.shape.n < TWO32)
    case _ => Conforms(m, m.init) && Sendable(m, m.init)
  }
}
