/** The DOM value (`GenericValue`, document.h) and the events it sends. */
module Values {
  import opened Chars
  import E = Events

  /**
   * A number that is not a double: its 64 bits and the four integer flags. `Double` keeps the literal it was
   * read from. Strings are byte strings, with any flag about who owns the bytes left out.
   */
  datatype Num = Num(bits: nat, isInt: bool, isUint: bool, isInt64: bool, isUint64: bool)

  datatype Value =
    | Null
    | Bool(b: bool)
    | Number(num: Num)
    | Double(literal: seq<Byte>)
    | String(str: seq<Byte>)
    | Array(elems: seq<Value>)
    | Object(members: seq<Member>)

  datatype Member = Member(name: seq<Byte>, value: Value)

  const TWO_31: int := 0x8000_0000
  const TWO_32: int := 0x1_0000_0000
  const TWO_63: int := 0x8000_0000_0000_0000
  const TWO_64: int := 0x1_0000_0000_0000_0000

  predicate IsInteger64(v: int) { -TWO_63 <= v < TWO_64 }

  /** The one representation of an integer: two's complement bits, and every flag whose type can hold it. */
  function NumOf(v: int): Num
    requires IsInteger64(v)
  {
    Num(v % TWO_64, -TWO_31 <= v < TWO_31, 0 <= v < TWO_32, v < TWO_63, 0 <= v)
  }

  /** The low `bits` bits, read as a signed number of that width. */
  function Signed(x: nat, modulus: nat): int
    requires modulus > 0
  {
    var low := x % modulus;
    if low >= modulus / 2 then low - modulus else low
  }

  // The accessors. Each may be called only if its flag is set.

  function GetInt(n: Num): int
    requires n.isInt
  {
    Signed(n.bits, TWO_32)
  }

  function GetUint(n: Num): nat
    requires n.isUint
  {
    n.bits % TWO_32
  }

  function GetInt64(n: Num): int
    requires n.isInt64
  {
    Signed(n.bits, TWO_64)
  }

  function GetUint64(n: Num): nat
    requires n.isUint64
  {
    n.bits
  }

  /** The number is `v`: each flag is set exactly if its type has room for `v`, and then its accessor gives `v`. */
  predicate Holds(n: Num, v: int) {
    && (n.isInt <==> -0x8000_0000 <= v < 0x8000_0000) && (n.isInt ==> GetInt(n) == v)
    && (n.isUint <==> 0 <= v < 0x1_0000_0000) && (n.isUint ==> GetUint(n) == v)
    && (n.isInt64 <==> -0x8000_0000_0000_0000 <= v < 0x8000_0000_0000_0000) && (n.isInt64 ==> GetInt64(n) == v)
    && (n.isUint64 <==> 0 <= v < 0x1_0000_0000_0000_0000) && (n.isUint64 ==> GetUint64(n) == v)
  }

  // The four number constructors, with their bit masks written as bounds.

  function FromInt(i: int): (n: Num)
    requires -TWO_31 <= i < TWO_31
    ensures n == NumOf(i) && Holds(n, i)
  {
    if i >= 0 then Num(i % TWO_64, true, true, true, true) else Num(i % TWO_64, true, false, true, false)
  }

  function FromUint(u: int): (n: Num)
    requires 0 <= u < TWO_32
    ensures n == NumOf(u) && Holds(n, u)
  {
    if u >= TWO_31 then Num(u, false, true, true, true) else Num(u, true, true, true, true)
  }

  function FromInt64(i64: int): (n: Num)
    requires -TWO_63 <= i64 < TWO_63
    ensures n == NumOf(i64) && Holds(n, i64)
  {
    var bits := i64 % TWO_64;
    if i64 >= 0 then Num(bits, bits < TWO_31, bits < TWO_32, true, true)
    else Num(bits, i64 >= -TWO_31, false, true, false)
  }

  function FromUint64(u64: int): (n: Num)
    requires 0 <= u64 < TWO_64
    ensures n == NumOf(u64) && Holds(n, u64)
  {
    Num(u64, u64 < TWO_31, u64 < TWO_32, u64 < TWO_63, true)
  }

  /** The event `Accept` sends for a number: the narrowest flag wins. */
  function NumberEvent(n: Num): E.Event {
    if n.isInt then E.Int(Signed(n.bits, TWO_32))
    else if n.isUint then E.Uint(n.bits % TWO_32)
    else if n.isInt64 then E.Int64(Signed(n.bits, TWO_64))
    else E.Uint64(n.bits)
  }

  /** The event the reader sends for the same number. */
  function LiteralEvent(v: int): E.Event {
    if v >= TWO_32 then E.Uint64(v)
    else if v >= 0 then E.Uint(v)
    else if v >= -TWO_31 then E.Int(v)
    else E.Int64(v)
  }

  function IntegerOf(n: Num): int {
    if n.isUint64 then n.bits else n.bits - TWO_64
  }

  /** Container sizes are 32 bits wide. */
  function Size32(n: nat): nat { n % TWO_32 }

  /** Who sends the events: a value that is visited, or the reader that reads its text. */
  datatype Sender = Visitor | TextReader

  function LeafEvent(via: Sender, v: Value): E.Event
    requires !v.Array? && !v.Object?
  {
    match v
    case Null => E.Null
    case Bool(b) => E.Bool(b)
    case Number(n) => if via.Visitor? then NumberEvent(n) else LiteralEvent(IntegerOf(n))
    case Double(literal) => E.Double(literal)
    case String(str) => E.String(str)
  }

  /** `Accept` when the handler never refuses. */
  function EventsOf(via: Sender, v: Value): seq<E.Event>
    decreases v, 0
  {
    match v
    case Array(elems) => [E.StartArray] + ElementEvents(via, elems) + [E.EndArray(Size32(|elems|))]
    case Object(members) => [E.StartObject] + MemberEvents(via, members) + [E.EndObject(Size32(|members|))]
    case _ => [LeafEvent(via, v)]
  }

  function ElementEvents(via: Sender, vs: seq<Value>): seq<E.Event>
    decreases vs, 1
  {
    if vs == [] then [] else EventsOf(via, vs[0]) + ElementEvents(via, vs[1..])
  }

  function MemberEvents(via: Sender, ms: seq<Member>): seq<E.Event>
    decreases ms, 1
  {
    if ms == [] then [] else [E.Key(ms[0].name)] + EventsOf(via, ms[0].value) + MemberEvents(via, ms[1..])
  }

  /** Numbers as the constructors make them. */
  predicate ExactNumbers(v: Value) {
    match v
    case Number(n) => IsInteger64(IntegerOf(n)) && n == NumOf(IntegerOf(n))
    case Array(elems) => forall k :: 0 <= k < |elems| ==> ExactNumbers(elems[k])
    case Object(members) => forall k :: 0 <= k < |members| ==> ExactNumbers(members[k].value)
    case _ => true
  }

  /** No container has 2^32 items or more. */
  predicate Sized(v: Value) {
    match v
    case Array(elems) => |elems| < TWO_32 && forall k :: 0 <= k < |elems| ==> Sized(elems[k])
    case Object(members) => |members| < TWO_32 && forall k :: 0 <= k < |members| ==> Sized(members[k].value)
    case _ => true
  }

  /** Every value in memory. */
  predicate Proper(v: Value) {
    ExactNumbers(v) && Sized(v)
  }

  /** A number in memory holds one integer. */
  lemma NumberHolds(v: int)
    requires IsInteger64(v)
    ensures Holds(NumOf(v), v)
  {
  }

  lemma NumberEventExact(i: int)
    requires IsInteger64(i)
    ensures IntegerOf(NumOf(i)) == i
    ensures NumberEvent(NumOf(i)) ==
            if -TWO_31 <= i < TWO_31 then E.Int(i)
            else if 0 <= i < TWO_32 then E.Uint(i)
            else if i < TWO_63 then E.Int64(i)
            else E.Uint64(i)
  {
  }
}
