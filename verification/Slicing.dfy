/**
 * The table-driven form of the division (FastCRC_tables.h and the macros of FastCRCsw.cpp): an octet at a time
 * through one table, four at a time through four. Checks that take the high bit first keep their register with
 * its octets in reverse order, so that the same code serves them all.
 */
module Slicing {
  import opened Words
  import opened Division

  /** How a register is kept in memory, and back: the two are the same exchange of octets. */
  function Swap(k: Kind, x: bv32): bv32 {
    match k
    case Reflected16 => x
    case Reflected32 => x
    case Forward16 => Rev16(x)
    case Forward32 => Rev32(x)
  }

  /** An octet at the end of the register where its bits are mixed in. */
  function Lift(k: Kind, b: Octet): bv32 {
    match k
    case Reflected16 => b
    case Reflected32 => b
    case Forward16 => Shl8(b)
    case Forward32 => Shl8(Shl8(Shl8(b)))
  }

  function Steps(e: Engine, x: bv32, n: nat): bv32
    decreases n
  {
    if n == 0 then x else Steps(e, Shift(e, x), n - 1)
  }

  /** The first table: eight steps of the division for every octet. */
  function Base(e: Engine, b: Octet): bv32 {
    Swap(e.kind, Steps(e, Lift(e.kind, b), 8))
  }

  /** What a table turns a kept register into when its low octet leaves it. */
  function Turned(e: Engine, x: bv32): bv32 {
    Xor(Shr8(x), Base(e, Low8(x)))
  }

  /** The tables for slicing, one after the other in memory. */
  function Table(e: Engine, slice: nat, b: Octet): bv32 {
    if slice == 0 then Base(e, b) else Turned(e, Table(e, slice - 1, b))
  }

  function Turns(e: Engine, x: bv32, n: nat): bv32 {
    if n == 0 then x else Turned(e, Turns(e, x, n - 1))
  }

  /** The kept register after octets taken one at a time. */
  function Fed(e: Engine, kept: bv32, data: seq<Octet>): bv32
    decreases |data|
  {
    if data == [] then kept else Fed(e, Turned(e, Xor(kept, data[0])), data[1..])
  }

  // Tables are additive.

  lemma {:induction false} StepsXor(e: Engine, x: bv32, y: bv32, n: nat)
    ensures Steps(e, Xor(x, y), n) == Xor(Steps(e, x, n), Steps(e, y, n))
    decreases n
  {
    if n > 0 {
      hide Shift, Xor;
      ShiftXor(e, x, y);
      StepsXor(e, Shift(e, x), Shift(e, y), n - 1);
    }
  }

  lemma {:induction false} StepsFit(e: Engine, x: bv32, n: nat)
    requires Fits(e.kind, x) && Fits(e.kind, e.poly)
    ensures Fits(e.kind, Steps(e, x, n))
    decreases n
  {
    if n > 0 {
      hide Shift, Fits;
      ShiftFits(e, x);
      StepsFit(e, Shift(e, x), n - 1);
    }
  }

  lemma SwapXor(k: Kind, x: bv32, y: bv32)
    requires Fits(k, x) && Fits(k, y)
    ensures Swap(k, Xor(x, y)) == Xor(Swap(k, x), Swap(k, y))
  {
    hide Rev16, Rev32, Xor;
    Rev32Xor(x, y);
    if k.Forward16? { Rev16Xor(x, y); }
  }

  lemma SwapSwap(k: Kind, x: bv32)
    requires Fits(k, x)
    ensures Fits(k, Swap(k, x)) && Swap(k, Swap(k, x)) == x
  {
    hide Rev16, Rev32;
    Rev32Rev32(x);
    if k.Forward16? { Rev16Rev16(x); }
  }

  lemma LiftXor(k: Kind, a: Octet, b: Octet)
    ensures Xor(a, b) < 0x100 && Lift(k, Xor(a, b)) == Xor(Lift(k, a), Lift(k, b))
    ensures Fits(k, Lift(k, a)) && Swap(k, Lift(k, a)) == a
  {
    LiftedOctet(a, b);
    hide Shl8, Xor, Rev16, Rev32;
    OctetShiftsXor(a, b);
    OctetShiftsXor(Shl8(a), Shl8(b));
    OctetShiftsXor(Shl8(Shl8(a)), Shl8(Shl8(b)));
  }

  lemma LiftedOctet(a: Octet, b: Octet)
    ensures Xor(a, b) < 0x100 && Shl8(a) < 0x1_0000
    ensures Rev16(Shl8(a)) == a && Rev32(Shl8(Shl8(Shl8(a)))) == a
  {
  }

  lemma BaseXor(e: Engine, a: Octet, b: Octet)
    requires Fits(e.kind, e.poly)
    ensures Xor(a, b) < 0x100 && Base(e, Xor(a, b)) == Xor(Base(e, a), Base(e, b))
  {
    var k := e.kind;
    hide Fits, Xor, Swap, Steps, Lift;
    LiftXor(k, a, b);
    LiftXor(k, b, a);
    StepsXor(e, Lift(k, a), Lift(k, b), 8);
    StepsFit(e, Lift(k, a), 8);
    StepsFit(e, Lift(k, b), 8);
    SwapXor(k, Steps(e, Lift(k, a), 8), Steps(e, Lift(k, b), 8));
  }

  lemma TurnedXor(e: Engine, x: bv32, y: bv32)
    requires Fits(e.kind, e.poly)
    ensures Turned(e, Xor(x, y)) == Xor(Turned(e, x), Turned(e, y))
  {
    hide Xor, Shr8, Low8, Base, Fits;
    OctetShiftsXor(x, y);
    Low8Xor(x, y);
    BaseXor(e, Low8(x), Low8(y));
    XorSwap(Shr8(x), Base(e, Low8(x)), Shr8(y), Base(e, Low8(y)));
  }

  lemma {:induction false} TurnsXor(e: Engine, x: bv32, y: bv32, n: nat)
    requires Fits(e.kind, e.poly)
    ensures Turns(e, Xor(x, y), n) == Xor(Turns(e, x, n), Turns(e, y, n))
    decreases n
  {
    hide Xor, Turned, Fits;
    if n > 0 {
      TurnsXor(e, x, y, n - 1);
      TurnedXor(e, Turns(e, x, n - 1), Turns(e, y, n - 1));
    }
  }

  // Slicing.

  lemma {:induction false} TurnsFirst(e: Engine, x: bv32, n: nat)
    ensures Turns(e, x, n + 1) == Turns(e, Turned(e, x), n)
  {
    hide Turned;
    if n > 0 { TurnsFirst(e, x, n - 1); }
  }

  lemma {:induction false} TableTurns(e: Engine, b: Octet, n: nat)
    ensures Table(e, n, b) == Turns(e, Base(e, b), n)
  {
    hide Turned, Base;
    if n > 0 { TableTurns(e, b, n - 1); }
  }

  /** The low octet of a register is turned by the table for it, apart from the rest. */
  lemma TurnsSplit(e: Engine, x: bv32, n: nat)
    requires Fits(e.kind, e.poly)
    ensures Turns(e, x, n + 1) == Xor(Table(e, n, Low8(x)), Turns(e, Shr8(x), n))
  {
    hide Turns, Table, Base, Xor, Low8, Shr8, Fits;
    TurnsFirst(e, x, n);
    TurnsXor(e, Shr8(x), Base(e, Low8(x)), n);
    TableTurns(e, Low8(x), n);
    XorLaws(Turns(e, Shr8(x), n), Table(e, n, Low8(x)));
  }

  /** What the kernels read: one entry from each of the four tables. */
  function Sliced(e: Engine, x: bv32): bv32 {
    Xor(Xor(Xor(Table(e, 3, Low8(x)), Table(e, 2, Low8(Shr8(x)))), Table(e, 1, Low8(Shr8(Shr8(x))))),
        Table(e, 0, Low8(Shr8(Shr8(Shr8(x))))))
  }

  lemma FourShifts(x: bv32)
    ensures Shr8(Shr8(Shr8(Shr8(x)))) == 0
  {
  }

  lemma SlicedIsTurns(e: Engine, x: bv32)
    requires Fits(e.kind, e.poly)
    ensures Sliced(e, x) == Turns(e, x, 4)
  {
    hide Table, Turned, Xor, Low8, Shr8, Fits;
    var x1 := Shr8(x);
    var x2 := Shr8(x1);
    var x3 := Shr8(x2);
    TurnsSplit(e, x, 3);
    TurnsSplit(e, x1, 2);
    TurnsSplit(e, x2, 1);
    TurnsSplit(e, x3, 0);
    FourShifts(x);
    assert Turns(e, 0, 0) == 0;
    hide Turns;
    var t3, t2, t1, t0 := Table(e, 3, Low8(x)), Table(e, 2, Low8(x1)), Table(e, 1, Low8(x2)), Table(e, 0, Low8(x3));
    XorLaws(t0, 0);
    XorAssoc(t3, t2, Xor(t1, t0));
    XorAssoc(Xor(t3, t2), t1, t0);
  }

  /** One octet of a word mixed in, the others still to come. */
  lemma TurnedMixed(e: Engine, x: bv32, w: bv32)
    requires Fits(e.kind, e.poly)
    ensures Turned(e, Xor(x, w)) == Xor(Turned(e, Xor(x, Low8(w))), Shr8(w))
  {
    hide Base, Xor, Low8, Shr8, Fits;
    OctetShiftsXor(x, w);
    OctetShiftsXor(x, Low8(w));
    Low8Xor(x, w);
    Low8Xor(x, Low8(w));
    OctetLaws(w);
    var b := Base(e, Low8(Xor(x, w)));
    XorLaws(Shr8(x), 0);
    XorAssoc(Shr8(x), Shr8(w), b);
    XorAssoc(Shr8(x), b, Shr8(w));
    XorLaws(b, Shr8(w));
  }

  lemma OctetLaws(w: bv32)
    ensures Low8(Low8(w)) == Low8(w) && Shr8(Low8(w)) == 0
  {
  }

  lemma LoadParts(b0: Octet, b1: Octet, b2: Octet, b3: Octet)
    ensures var w := Load(b0, b1, b2, b3);
            Low8(w) == b0 && Low8(Shr8(w)) == b1 && Low8(Shr8(Shr8(w))) == b2 && Shr8(Shr8(Shr8(w))) == b3
  {
  }

  /** A word loaded from memory and mixed in goes through the tables like its four octets. */
  lemma LoadedIsFed(e: Engine, kept: bv32, b0: Octet, b1: Octet, b2: Octet, b3: Octet)
    requires Fits(e.kind, e.poly)
    ensures Turns(e, Xor(kept, Load(b0, b1, b2, b3)), 4) == Fed(e, kept, [b0, b1, b2, b3])
  {
    hide Turned, Xor, Low8, Shr8, Fits;
    var w := Load(b0, b1, b2, b3);
    hide Load;
    LoadParts(b0, b1, b2, b3);
    var k1 := Turned(e, Xor(kept, b0));
    var k2 := Turned(e, Xor(k1, b1));
    var k3 := Turned(e, Xor(k2, b2));
    TurnedMixed(e, kept, w);
    TurnedMixed(e, k1, Shr8(w));
    TurnedMixed(e, k2, Shr8(Shr8(w)));
    FedFour(e, kept, b0, b1, b2, b3);
    TurnsFirst(e, Xor(kept, w), 3);
    TurnsFirst(e, Xor(k1, Shr8(w)), 2);
    TurnsFirst(e, Xor(k2, Shr8(Shr8(w))), 1);
    TurnsFirst(e, Xor(k3, b3), 0);
  }

  lemma FedOne(e: Engine, kept: bv32, b: Octet, rest: seq<Octet>)
    ensures Fed(e, kept, [b] + rest) == Fed(e, Turned(e, Xor(kept, b)), rest)
  {
    assert ([b] + rest)[1..] == rest;
  }

  lemma FedFour(e: Engine, kept: bv32, b0: Octet, b1: Octet, b2: Octet, b3: Octet)
    ensures Fed(e, kept, [b0, b1, b2, b3]) ==
            Turned(e, Xor(Turned(e, Xor(Turned(e, Xor(Turned(e, Xor(kept, b0)), b1)), b2)), b3))
  {
    hide Turned, Xor, Fed;
    assert [b0, b1, b2, b3] == [b0] + ([b1] + ([b2] + ([b3] + [])));
    var k1 := Turned(e, Xor(kept, b0));
    var k2 := Turned(e, Xor(k1, b1));
    var k3 := Turned(e, Xor(k2, b2));
    FedOne(e, kept, b0, [b1] + ([b2] + ([b3] + [])));
    FedOne(e, k1, b1, [b2] + ([b3] + []));
    FedOne(e, k2, b2, [b3] + []);
    FedOne(e, k3, b3, []);
    FedNothing(e, Turned(e, Xor(k3, b3)));
  }

  lemma FedNothing(e: Engine, kept: bv32)
    ensures Fed(e, kept, []) == kept
  {
  }

  lemma {:induction false} FedAppend(e: Engine, kept: bv32, a: seq<Octet>, b: seq<Octet>)
    ensures Fed(e, kept, a + b) == Fed(e, Fed(e, kept, a), b)
    decreases |a|
  {
    hide Turned, Xor;
    if a == [] {
      assert a + b == b;
    } else {
      assert (a + b)[1..] == a[1..] + b;
      FedAppend(e, Turned(e, Xor(kept, a[0])), a[1..], b);
    }
  }

  // The tables divide.

  function MovedBy(k: Kind, x: bv32, n: nat): bv32
    decreases n
  {
    if n == 0 then x else MovedBy(k, Moved(k, x), n - 1)
  }

  /** The bits that `n` steps shift out of a word, if no polynomial is ever added. */
  function BitsOut(k: Kind, x: bv32, n: nat): (bits: seq<bool>)
    ensures |bits| == n
    decreases n
  {
    if n == 0 then [] else [Has(x, Out(k))] + BitsOut(k, Moved(k, x), n - 1)
  }

  lemma MixedWord(e: Engine, reg: bv32, w: bv32)
    ensures Shift(e, Xor(reg, w)) == Xor(Shift(e, Mixed(e.kind, reg, Has(w, Out(e.kind)))), Moved(e.kind, w))
  {
    hide Moved, Xor, Has, Out, IsEndBit;
    var k, out := e.kind, Out(e.kind);
    var bit := Has(w, out);
    OutFits(k);
    MovedXor(k, reg, w);
    HasXor(reg, w, out);
    MovedXor(k, reg, Feedback(out, bit));
    HasXor(reg, Feedback(out, bit), out);
    NothingHas(out);
    MovedOut(k, bit);
    var f := Feedback(e.poly, Has(Xor(reg, w), out));
    hide Feedback;
    XorLaws(Moved(k, reg), 0);
    XorAssoc(Moved(k, reg), Moved(k, w), f);
    XorAssoc(Moved(k, reg), f, Moved(k, w));
    XorLaws(Moved(k, w), f);
  }

  lemma NothingHas(m: bv32)
    ensures !Has(0, m)
  {
  }

  /** The mixed-in bit itself moves out of the register. */
  lemma MovedOut(k: Kind, bit: bool)
    ensures Moved(k, Feedback(Out(k), bit)) == 0
  {
  }

  /** Mixing in a word at once is mixing in the bits that leave it one at a time. */
  lemma {:induction false} DivideWord(e: Engine, reg: bv32, w: bv32, n: nat)
    ensures Steps(e, Xor(reg, w), n) == Xor(Divide(e, reg, BitsOut(e.kind, w, n)), MovedBy(e.kind, w, n))
    decreases n
  {
    hide Shift, Mixed, Moved, Xor, Has, Out;
    if n > 0 {
      var k := e.kind;
      var next := Shift(e, Mixed(k, reg, Has(w, Out(k))));
      MixedWord(e, reg, w);
      DivideWord(e, next, Moved(k, w), n - 1);
      assert BitsOut(k, w, n)[1..] == BitsOut(k, Moved(k, w), n - 1);
    }
  }

  lemma {:induction false} BitsOutAt(k: Kind, x: bv32, n: nat, i: nat)
    requires i < n
    ensures BitsOut(k, x, n)[i] == Has(MovedBy(k, x, i), Out(k))
    decreases n
  {
    hide Moved, Has, Out;
    if i > 0 { BitsOutAt(k, Moved(k, x), n - 1, i - 1); }
  }

  /** Eight shifts push out the low octet of the kept register and nothing else. */
  lemma OctetOut(k: Kind, x: bv32)
    requires Fits(k, x)
    ensures BitsOut(k, x, 8) == OctetBits(k, Low8(Swap(k, x)))
    ensures Swap(k, MovedBy(k, x, 8)) == Shr8(Swap(k, x))
  {
    var a, b := BitsOut(k, x, 8), OctetBits(k, Low8(Swap(k, x)));
    forall i | 0 <= i < 8 ensures a[i] == b[i] {
      BitsOutAt(k, x, 8, i);
      hide BitsOut;
      OctetOutAt(k, x, i);
    }
    hide OctetBits, BitsOut;
    OctetGone(k, x);
  }

  lemma MovedBy8(k: Kind, x: bv32)
    ensures var y := Moved(k, Moved(k, Moved(k, Moved(k, x))));
            MovedBy(k, x, 8) == Moved(k, Moved(k, Moved(k, Moved(k, y))))
  {
    hide Moved;
    assert MovedBy(k, x, 8) == MovedBy(k, MovedBy(k, x, 4), 4);
  }

  function Moved4(k: Kind, x: bv32): bv32 {
    match k
    case Reflected16 => x >> 4
    case Reflected32 => x >> 4
    case Forward16 => (x << 4) & 0xFFFF
    case Forward32 => x << 4
  }

  lemma FourMoves(k: Kind, x: bv32)
    ensures Moved(k, Moved(k, Moved(k, Moved(k, x)))) == Moved4(k, x)
  {
    hide Shr, Shl, And;
    match k
    case Reflected16 => FourShr(x);
    case Reflected32 => FourShr(x);
    case Forward16 => FourMoves16(x);
    case Forward32 => FourShl(x);
  }

  lemma FourMoves16(x: bv32)
    ensures var y := And(Shl(And(Shl(x), 0xFFFF)), 0xFFFF);
            And(Shl(And(Shl(y), 0xFFFF)), 0xFFFF) == (x << 4) & 0xFFFF
  {
    TwoMoves16(x);
    TwoMoves16((x << 2) & 0xFFFF);
    hide And, Shl;
    assert (((x << 2) & 0xFFFF) << 2) & 0xFFFF == (x << 4) & 0xFFFF;
  }

  lemma FourShr(x: bv32)
    ensures Shr(Shr(Shr(Shr(x)))) == x >> 4
  {
  }

  lemma FourShl(x: bv32)
    ensures Shl(Shl(Shl(Shl(x)))) == x << 4
  {
  }

  lemma TwoMoves16(x: bv32)
    ensures And(Shl(And(Shl(x), 0xFFFF)), 0xFFFF) == (x << 2) & 0xFFFF
  {
    assert (((x << 1) & 0xFFFF) << 1) & 0xFFFF == (x << 2) & 0xFFFF;
  }

  lemma OctetGone(k: Kind, x: bv32)
    requires Fits(k, x)
    ensures Swap(k, MovedBy(k, x, 8)) == Shr8(Swap(k, x))
  {
    hide Moved, Swap, Shr8, Moved4, MovedBy;
    MovedBy8(k, x);
    FourMoves(k, x);
    FourMoves(k, Moved4(k, x));
    EightMoves(k, x);
  }

  lemma EightMoves(k: Kind, x: bv32)
    requires Fits(k, x)
    ensures Swap(k, Moved4(k, Moved4(k, x))) == Shr8(Swap(k, x))
  {
    hide Swap, Moved4, Shr8;
    match k
    case Reflected16 => EightMovesReflected(k, x);
    case Reflected32 => EightMovesReflected(k, x);
    case Forward16 => EightMovesForward16(x);
    case Forward32 => EightMovesForward32(x);
  }

  lemma EightMovesForward16(x: bv32)
    requires x < 0x1_0000
    ensures Swap(Forward16, Moved4(Forward16, Moved4(Forward16, x))) == Shr8(Swap(Forward16, x))
  {
    hide Rev16, Shr8;
    EightShl16(x);
  }

  lemma EightMovesForward32(x: bv32)
    ensures Swap(Forward32, Moved4(Forward32, Moved4(Forward32, x))) == Shr8(Swap(Forward32, x))
  {
    hide Rev32, Shr8;
    EightShl(x);
  }

  lemma EightMovesReflected(k: Kind, x: bv32)
    requires k.Reflected16? || k.Reflected32?
    ensures Swap(k, Moved4(k, Moved4(k, x))) == Shr8(Swap(k, x))
  {
    hide Shr8;
    EightShr(x);
  }

  lemma EightShr(x: bv32)
    ensures (x >> 4) >> 4 == Shr8(x)
  {
  }

  lemma EightShl(x: bv32)
    ensures Rev32((x << 4) << 4) == Shr8(Rev32(x))
  {
  }

  lemma EightShl16(x: bv32)
    requires x < 0x1_0000
    ensures Rev16((((x << 4) & 0xFFFF) << 4) & 0xFFFF) == Shr8(Rev16(x))
  {
  }

  /** The bits of `c` are those of `d`, one place further. */
  predicate Follows(k: Kind, c: Octet, d: Octet) {
    if k.Reflected16? || k.Reflected32? then FollowsDown(c, d) else FollowsUp(c, d)
  }

  predicate FollowsDown(c: Octet, d: Octet) { c & 0x7F == d >> 1 }
  predicate FollowsUp(c: Octet, d: Octet) { c & 0xFE == (d << 1) & 0xFF }

  lemma FollowingBits(k: Kind, c: Octet, d: Octet, i: nat)
    requires Follows(k, c, d) && 0 < i < 8
    ensures OctetBits(k, c)[i - 1] == OctetBits(k, d)[i]
  {
    hide FollowsDown, FollowsUp, Has, OctetBits;
    OctetBitsAt(k, c, i - 1);
    OctetBitsAt(k, d, i);
    if k.Reflected16? || k.Reflected32? {
      BitsDown(c, d, i - 1);
    } else {
      BitsUp(c, d, 7 - i);
    }
  }

  lemma OctetBitsAt(k: Kind, b: Octet, i: nat)
    requires i < 8
    ensures OctetBits(k, b)[i] == OctetBit(k, b, i)
  {
    hide OctetBit;
  }

  lemma NextOctet(k: Kind, x: bv32)
    requires Fits(k, x)
    ensures Follows(k, Low8(Swap(k, Moved(k, x))), Low8(Swap(k, x)))
  {
    hide FollowsDown, FollowsUp, Low8, Shr, Shl, And, Rev16, Rev32;
    match k
    case Reflected16 => NextOctetDown(x);
    case Reflected32 => NextOctetDown(x);
    case Forward16 => NextOctetUp16(x);
    case Forward32 => NextOctetUp(x);
  }

  lemma NextOctetDown(x: bv32)
    ensures FollowsDown(Low8(Shr(x)), Low8(x))
  {
  }

  lemma NextOctetUp(x: bv32)
    ensures FollowsUp(Low8(Rev32(Shl(x))), Low8(Rev32(x)))
  {
  }

  lemma NextOctetUp16(x: bv32)
    requires x < 0x1_0000
    ensures FollowsUp(Low8(Rev16(And(Shl(x), 0xFFFF))), Low8(Rev16(x)))
  {
  }

  lemma BitsDown(c: Octet, d: Octet, i: nat)
    requires FollowsDown(c, d) && i < 7
    ensures Has(c, Place(i)) == Has(d, Place(i + 1))
  {
  }

  lemma BitsUp(c: Octet, d: Octet, i: nat)
    requires FollowsUp(c, d) && i < 7
    ensures Has(c, Place(i + 1)) == Has(d, Place(i))
  {
  }

  lemma FirstBit(k: Kind, x: bv32)
    requires Fits(k, x)
    ensures Has(x, Out(k)) == OctetBits(k, Low8(Swap(k, x)))[0]
  {
    hide Has, OctetBits, Low8, Rev16, Rev32;
    OctetBitsAt(k, Low8(Swap(k, x)), 0);
    match k
    case Reflected16 => LowBit(x);
    case Reflected32 => LowBit(x);
    case Forward16 => TopBit16(x);
    case Forward32 => TopBit32(x);
  }

  lemma LowBit(x: bv32)
    ensures Has(x, 1) == Has(Low8(x), 1)
  {
  }

  lemma TopBit16(x: bv32)
    requires x < 0x1_0000
    ensures Has(x, 0x8000) == Has(Low8(Rev16(x)), 0x80)
  {
  }

  lemma TopBit32(x: bv32)
    ensures Has(x, 0x8000_0000) == Has(Low8(Rev32(x)), 0x80)
  {
  }

  lemma {:induction false} OctetOutAt(k: Kind, x: bv32, i: nat)
    requires Fits(k, x) && i < 8
    ensures Has(MovedBy(k, x, i), Out(k)) == OctetBits(k, Low8(Swap(k, x)))[i]
    decreases i
  {
    hide Moved, Has, Out, Fits, Low8, Swap, Follows, OctetBits;
    if i == 0 {
      FirstBit(k, x);
    } else {
      MovedFits(k, x);
      OctetOutAt(k, Moved(k, x), i - 1);
      NextOctet(k, x);
      FollowingBits(k, Low8(Swap(k, Moved(k, x))), Low8(Swap(k, x)), i);
    }
  }

  /** Turning the kept register through the first table makes eight steps of the division. */
  lemma TurnedDivides(e: Engine, x: bv32)
    requires Fits(e.kind, e.poly) && Fits(e.kind, x)
    ensures Turned(e, Swap(e.kind, x)) == Swap(e.kind, Steps(e, x, 8))
  {
    hide Fits, Xor, Steps, Swap, MovedBy, Lift, Low8, Shr8, OctetBits, BitsOut;
    var k := e.kind;
    var c := Low8(Swap(k, x));
    OctetOut(k, x);
    LiftXor(k, c, c);
    OctetOut(k, Lift(k, c));
    OctetLow(c);
    SwapBackZeroOf(k, Lift(k, c));
    DivideWord(e, 0, x, 8);
    DivideWord(e, 0, Lift(k, c), 8);
    XorLaws(x, 0);
    XorLaws(Lift(k, c), 0);
    var d := Steps(e, Lift(k, c), 8);
    XorLaws(d, 0);
    XorLaws(Divide(e, 0, OctetBits(k, c)), 0);
    StepsFit(e, Lift(k, c), 8);
    MovedByFits(k, x, 8);
    SwapXor(k, d, MovedBy(k, x, 8));
    XorLaws(Swap(k, d), Shr8(Swap(k, x)));
  }

  lemma OctetLow(c: Octet)
    ensures Low8(c) == c && Shr8(c) == 0
  {
  }

  lemma SwapBackZero(k: Kind, x: bv32)
    requires Fits(k, x) && Swap(k, x) == 0
    ensures x == 0
  {
  }

  lemma {:induction false} MovedByFits(k: Kind, x: bv32, n: nat)
    requires Fits(k, x)
    ensures Fits(k, MovedBy(k, x, n))
    decreases n
  {
    hide Fits, Moved;
    if n > 0 {
      MovedFits(k, x);
      MovedByFits(k, Moved(k, x), n - 1);
    }
  }

  /** The bits of an octet are eight steps of a register that the octet was added to. */
  lemma OctetSteps(e: Engine, reg: bv32, b: Octet)
    ensures Divide(e, reg, OctetBits(e.kind, b)) == Steps(e, Xor(reg, Lift(e.kind, b)), 8)
  {
    hide Fits, Xor, Steps, Swap, MovedBy, Lift, Low8, Shr8, OctetBits, BitsOut;
    var k := e.kind;
    var w := Lift(k, b);
    LiftXor(k, b, b);
    OctetOut(k, w);
    OctetLow(b);
    SwapBackZeroOf(k, w);
    DivideWord(e, reg, w, 8);
    XorLaws(Divide(e, reg, OctetBits(k, b)), 0);
  }

  /** One octet through the table is its eight bits through the division. */
  lemma OctetDivides(e: Engine, reg: bv32, b: Octet)
    requires Fits(e.kind, e.poly) && Fits(e.kind, reg)
    ensures Turned(e, Xor(Swap(e.kind, reg), b)) == Swap(e.kind, Divide(e, reg, OctetBits(e.kind, b)))
  {
    hide Fits, Xor, Steps, Swap, MovedBy, Lift, OctetBits, Turned;
    var k := e.kind;
    var w := Lift(k, b);
    LiftXor(k, b, b);
    SwapXor(k, reg, w);
    XorFits(k, reg, w);
    TurnedDivides(e, Xor(reg, w));
    OctetSteps(e, reg, b);
  }

  lemma SwapBackZeroOf(k: Kind, w: bv32)
    requires Fits(k, w) && Swap(k, MovedBy(k, w, 8)) == 0
    ensures MovedBy(k, w, 8) == 0
  {
    hide Fits, Swap, MovedBy;
    MovedByFits(k, w, 8);
    SwapBackZero(k, MovedBy(k, w, 8));
  }

  /** Octets through the table are the division of the message. */
  lemma {:induction false} FedDivides(e: Engine, reg: bv32, data: seq<Octet>)
    requires Fits(e.kind, e.poly) && Fits(e.kind, reg)
    ensures Fed(e, Swap(e.kind, reg), data) == Swap(e.kind, Crc(e, reg, data))
    decreases |data|
  {
    hide Fits, Xor, Swap, OctetBits, Turned, Divide;
    if data == [] {
      assert Divide(e, reg, []) == reg by { DivideNothing(e, reg); }
    } else {
      var k := e.kind;
      var next := Divide(e, reg, OctetBits(k, data[0]));
      OctetDivides(e, reg, data[0]);
      DivideFits(e, reg, OctetBits(k, data[0]));
      FedDivides(e, next, data[1..]);
      DivideAppend(e, reg, OctetBits(k, data[0]), MessageBits(k, data[1..]));
    }
  }

  lemma DivideNothing(e: Engine, reg: bv32)
    ensures Divide(e, reg, []) == reg
  {
  }
}
