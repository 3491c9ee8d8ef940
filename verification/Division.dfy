/**
 * Cyclic redundancy checks as polynomial division, one message bit at a time, and what the division promises:
 * it can be interrupted anywhere, it is reversible, and it notices every burst no longer than the register.
 */
module Division {
  import opened Words

  /** Register width, and which end of a byte is divided first: reflected checks take the low bit first. */
  datatype Kind = Reflected16 | Reflected32 | Forward16 | Forward32

  /** A check: its kind and its polynomial, with the bits of the polynomial in the order of the register. */
  datatype Engine = Engine(kind: Kind, poly: bv32)

  /** A register value of the kind's width. */
  predicate Fits(k: Kind, x: bv32) {
    k.Reflected32? || k.Forward32? || x < 0x1_0000
  }

  function Width(k: Kind): nat {
    if k.Reflected32? || k.Forward32? then 32 else 16
  }

  /** The bit that a step shifts out. */
  function Out(k: Kind): bv32 {
    match k
    case Reflected16 => 1
    case Reflected32 => 1
    case Forward16 => 0x8000
    case Forward32 => 0x8000_0000
  }

  /** The bit that a shift leaves empty. */
  function Vacated(k: Kind): bv32 {
    match k
    case Reflected16 => 0x8000
    case Reflected32 => 0x8000_0000
    case Forward16 => 1
    case Forward32 => 1
  }

  function Moved(k: Kind, x: bv32): bv32 {
    match k
    case Reflected16 => Shr(x)
    case Reflected32 => Shr(x)
    case Forward16 => And(Shl(x), 0xFFFF)
    case Forward32 => Shl(x)
  }

  /** The polynomial fits the register, and has the term that makes every step reversible. */
  predicate Valid(e: Engine) {
    Fits(e.kind, e.poly) && Has(e.poly, Vacated(e.kind))
  }

  function Feedback(poly: bv32, out: bool): bv32 {
    if out then poly else 0
  }

  /** One step of the division. */
  function Shift(e: Engine, x: bv32): bv32 {
    Xor(Moved(e.kind, x), Feedback(e.poly, Has(x, Out(e.kind))))
  }

  /** The register with one message bit added to it. */
  function Mixed(k: Kind, reg: bv32, bit: bool): bv32 {
    Xor(reg, Feedback(Out(k), bit))
  }

  /** The register after the bits of a message. */
  function Divide(e: Engine, reg: bv32, bits: seq<bool>): bv32
    decreases |bits|
  {
    if bits == [] then reg else Divide(e, Shift(e, Mixed(e.kind, reg, bits[0])), bits[1..])
  }

  /** Bit `i` of an octet in the order in which its bits are divided. */
  predicate OctetBit(k: Kind, b: Octet, i: nat)
    requires i < 8
  {
    Has(b, Place(if k.Reflected16? || k.Reflected32? then i else 7 - i))
  }

  function Place(i: nat): Octet
    requires i < 8
  {
    match i
    case 0 => 0x01
    case 1 => 0x02
    case 2 => 0x04
    case 3 => 0x08
    case 4 => 0x10
    case 5 => 0x20
    case 6 => 0x40
    case _ => 0x80
  }

  function OctetBits(k: Kind, b: Octet): (bits: seq<bool>)
    ensures |bits| == 8
  {
    seq(8, i requires 0 <= i < 8 => OctetBit(k, b, i))
  }

  function MessageBits(k: Kind, data: seq<Octet>): (bits: seq<bool>)
    ensures |bits| == 8 * |data|
  {
    if data == [] then [] else OctetBits(k, data[0]) + MessageBits(k, data[1..])
  }

  /** The register after a message. */
  function Crc(e: Engine, reg: bv32, data: seq<Octet>): bv32 {
    Divide(e, reg, MessageBits(e.kind, data))
  }

  // The division can be interrupted.

  lemma {:induction false} DivideAppend(e: Engine, reg: bv32, a: seq<bool>, b: seq<bool>)
    ensures Divide(e, reg, a + b) == Divide(e, Divide(e, reg, a), b)
    decreases |a|
  {
    hide Shift, Mixed;
    if a == [] {
      assert a + b == b;
    } else {
      assert (a + b)[1..] == a[1..] + b;
      DivideAppend(e, Shift(e, Mixed(e.kind, reg, a[0])), a[1..], b);
    }
  }

  lemma {:induction false} BitsAppend(k: Kind, a: seq<Octet>, b: seq<Octet>)
    ensures MessageBits(k, a + b) == MessageBits(k, a) + MessageBits(k, b)
  {
    hide OctetBits;
    if a == [] {
      assert a + b == b;
    } else {
      assert (a + b)[1..] == a[1..] + b;
      BitsAppend(k, a[1..], b);
      assert MessageBits(k, a + b) == OctetBits(k, a[0]) + (MessageBits(k, a[1..]) + MessageBits(k, b));
    }
  }

  /** A message can be divided in two pieces, going on from the register of the first. */
  lemma CrcAppend(e: Engine, reg: bv32, a: seq<Octet>, b: seq<Octet>)
    ensures Crc(e, reg, a + b) == Crc(e, Crc(e, reg, a), b)
  {
    BitsAppend(e.kind, a, b);
    DivideAppend(e, reg, MessageBits(e.kind, a), MessageBits(e.kind, b));
  }

  // The division is additive.

  lemma MovedXor(k: Kind, x: bv32, y: bv32)
    ensures Moved(k, Xor(x, y)) == Xor(Moved(k, x), Moved(k, y))
  {
    hide Xor, Shl, Shr, And;
    ShiftsXor(x, y);
    AndXor(Shl(x), Shl(y), 0xFFFF);
  }

  lemma FeedbackXor(poly: bv32, p: bool, q: bool)
    ensures Feedback(poly, p != q) == Xor(Feedback(poly, p), Feedback(poly, q))
  {
    hide Xor;
    XorLaws(poly, poly);
    XorLaws(poly, 0);
    XorLaws(0, 0);
  }

  lemma ShiftXor(e: Engine, x: bv32, y: bv32)
    ensures Shift(e, Xor(x, y)) == Xor(Shift(e, x), Shift(e, y))
  {
    hide Xor, Has, Moved, Out, Feedback, IsEndBit;
    var k, out := e.kind, Out(e.kind);
    OutFits(k);
    MovedXor(k, x, y);
    HasXor(x, y, out);
    FeedbackXor(e.poly, Has(x, out), Has(y, out));
    XorSwap(Moved(k, x), Feedback(e.poly, Has(x, out)), Moved(k, y), Feedback(e.poly, Has(y, out)));
  }

  lemma FeedbackFits(k: Kind, m: bv32, bit: bool)
    requires Fits(k, m)
    ensures Fits(k, Feedback(m, bit))
  {
  }

  lemma OutFits(k: Kind)
    ensures Fits(k, Out(k)) && Fits(k, Vacated(k)) && IsEndBit(Out(k)) && IsEndBit(Vacated(k)) && Has(Out(k), Out(k))
  {
  }

  lemma XorFits(k: Kind, x: bv32, y: bv32)
    requires Fits(k, x) && Fits(k, y)
    ensures Fits(k, Xor(x, y))
  {
    hide Xor;
    if x < 0x1_0000 && y < 0x1_0000 { XorSmall(x, y); }
  }

  lemma MovedFits(k: Kind, x: bv32)
    requires Fits(k, x)
    ensures Fits(k, Moved(k, x))
  {
    if k.Reflected16? { assert x >> 1 <= x; }
    hide And, Shl;
    AndSmall(Shl(x), 0);
  }

  lemma ShiftFits(e: Engine, x: bv32)
    requires Fits(e.kind, x) && Fits(e.kind, e.poly)
    ensures Fits(e.kind, Shift(e, x))
  {
    hide Fits, Xor, Moved, Feedback;
    MovedFits(e.kind, x);
    FeedbackFits(e.kind, e.poly, Has(x, Out(e.kind)));
    XorFits(e.kind, Moved(e.kind, x), Feedback(e.poly, Has(x, Out(e.kind))));
  }

  lemma MixedFits(k: Kind, reg: bv32, bit: bool)
    requires Fits(k, reg)
    ensures Fits(k, Mixed(k, reg, bit))
  {
    hide Fits, Xor, Feedback, Out;
    OutFits(k);
    FeedbackFits(k, Out(k), bit);
    XorFits(k, reg, Feedback(Out(k), bit));
  }

  lemma {:induction false} DivideFits(e: Engine, reg: bv32, bits: seq<bool>)
    requires Fits(e.kind, reg) && Fits(e.kind, e.poly)
    ensures Fits(e.kind, Divide(e, reg, bits))
    decreases |bits|
  {
    hide Fits, Shift, Mixed;
    if bits != [] {
      var next := Mixed(e.kind, reg, bits[0]);
      MixedFits(e.kind, reg, bits[0]);
      ShiftFits(e, next);
      DivideFits(e, Shift(e, next), bits[1..]);
    }
  }

  // The division is reversible.

  lemma MovedVacates(k: Kind, x: bv32)
    requires Fits(k, x)
    ensures !Has(Moved(k, x), Vacated(k))
  {
    match k
    case Reflected16 => assert (x >> 1) & 0x8000 == 0;
    case Reflected32 => assert (x >> 1) & 0x8000_0000 == 0;
    case Forward16 => assert ((x << 1) & 0xFFFF) & 1 == 0;
    case Forward32 => assert (x << 1) & 1 == 0;
  }

  /** The vacated bit tells which bit was shifted out. */
  lemma ShiftShowsOut(e: Engine, x: bv32)
    requires Valid(e) && Fits(e.kind, x)
    ensures Has(Shift(e, x), Vacated(e.kind)) == Has(x, Out(e.kind))
  {
    var v := Vacated(e.kind);
    OutFits(e.kind);
    MovedVacates(e.kind, x);
    assert !Has(0, v);
    hide Moved, Vacated, Has, Xor, Out, Fits, IsEndBit;
    HasXor(Moved(e.kind, x), Feedback(e.poly, Has(x, Out(e.kind))), v);
  }

  lemma MovedZero(k: Kind, z: bv32)
    requires Fits(k, z) && Moved(k, z) == 0 && !Has(z, Out(k))
    ensures z == 0
  {
    match k
    case Reflected16 => ShrZero(z);
    case Reflected32 => ShrZero(z);
    case Forward16 => Shl16Zero(z);
    case Forward32 => ShlZero(z);
  }

  lemma ShrZero(z: bv32)
    requires Shr(z) == 0 && !Has(z, 1)
    ensures z == 0
  {
  }

  lemma ShlZero(z: bv32)
    requires Shl(z) == 0 && !Has(z, 0x8000_0000)
    ensures z == 0
  {
  }

  lemma Shl16Zero(z: bv32)
    requires And(Shl(z), 0xFFFF) == 0 && !Has(z, 0x8000) && z < 0x1_0000
    ensures z == 0
  {
  }

  /** Registers that a step takes to registers with the same vacated bit shift out the same bit, and only move apart. */
  lemma ShiftApart(e: Engine, x: bv32, y: bv32)
    requires Valid(e) && Fits(e.kind, x) && Fits(e.kind, y)
    requires !Has(Xor(Shift(e, x), Shift(e, y)), Vacated(e.kind))
    ensures !Has(Xor(x, y), Out(e.kind))
    ensures Xor(Shift(e, x), Shift(e, y)) == Moved(e.kind, Xor(x, y))
  {
    var v := Vacated(e.kind);
    OutFits(e.kind);
    ShiftShowsOut(e, x);
    ShiftShowsOut(e, y);
    hide Vacated, Valid, Fits;
    HasXor(Shift(e, x), Shift(e, y), v);
    HasXor(x, y, Out(e.kind));
    hide Has, Xor, Out, Moved;
    ShiftXor(e, x, y);
    XorLaws(Moved(e.kind, Xor(x, y)), 0);
  }

  lemma ShiftInjective(e: Engine, x: bv32, y: bv32)
    requires Valid(e) && Fits(e.kind, x) && Fits(e.kind, y) && Shift(e, x) == Shift(e, y)
    ensures x == y
  {
    assert !Has(0, Vacated(e.kind));
    hide Xor, Shift, Vacated, Fits, Moved, Valid, Has;
    XorLaws(Shift(e, x), Shift(e, y));
    ShiftApart(e, x, y);
    XorFits(e.kind, x, y);
    MovedZero(e.kind, Xor(x, y));
    XorZero(x, y);
  }

  lemma MixedInjective(k: Kind, x: bv32, y: bv32, bit: bool)
    requires Mixed(k, x, bit) == Mixed(k, y, bit)
    ensures x == y
  {
    hide Xor, Feedback, Out;
    XorCancel(x, y, Feedback(Out(k), bit));
  }

  /** Different registers stay different whatever follows. */
  lemma {:induction false} DivideInjective(e: Engine, x: bv32, y: bv32, bits: seq<bool>)
    requires Valid(e) && Fits(e.kind, x) && Fits(e.kind, y) && Divide(e, x, bits) == Divide(e, y, bits)
    ensures x == y
    decreases |bits|
  {
    if bits != [] {
      hide Fits, Shift, Mixed, Has, Vacated;
      var x1, y1 := Mixed(e.kind, x, bits[0]), Mixed(e.kind, y, bits[0]);
      MixedFits(e.kind, x, bits[0]);
      MixedFits(e.kind, y, bits[0]);
      ShiftFits(e, x1);
      ShiftFits(e, y1);
      DivideInjective(e, Shift(e, x1), Shift(e, y1), bits[1..]);
      ShiftInjective(e, x1, y1);
      MixedInjective(e.kind, x, y, bits[0]);
    }
  }

  // Bursts.

  function MovedBack(k: Kind, x: bv32): bv32 {
    match k
    case Reflected16 => And(Shl(x), 0xFFFF)
    case Reflected32 => Shl(x)
    case Forward16 => Shr(x)
    case Forward32 => Shr(x)
  }

  function Ones(k: Kind): bv32 {
    if Width(k) == 32 then 0xFFFF_FFFF else 0xFFFF
  }

  /** Where two registers cannot differ if they agree after `n` more bits each, not necessarily the same bits. */
  function Settled(k: Kind, n: nat): bv32 {
    if n == 0 then Ones(k) else MovedBack(k, Settled(k, n - 1))
  }

  predicate Within(a: bv32, b: bv32) {
    And(a, b) == a
  }

  lemma MovedBackWithin(k: Kind, a: bv32, b: bv32)
    requires Within(a, b)
    ensures Within(MovedBack(k, a), MovedBack(k, b))
  {
    hide And, Shl, Shr;
    ShlAnd(a, b);
    ShrAnd(a, b);
    AndAnd(Shl(a), Shl(b), 0xFFFF);
  }

  lemma {:induction false} SettledShrinks(k: Kind, n: nat)
    ensures Within(Settled(k, n + 1), Settled(k, n))
  {
    if n == 0 {
      assert Settled(k, 1) == MovedBack(k, Ones(k));
    } else {
      hide MovedBack, Within;
      SettledShrinks(k, n - 1);
      MovedBackWithin(k, Settled(k, n), Settled(k, n - 1));
    }
  }

  lemma WithinHas(a: bv32, b: bv32, m: bv32)
    requires Within(a, b) && Within(m, a)
    ensures Within(m, b)
  {
  }

  /** Fewer bits to come leave the vacated bit settled until the register has been pushed out completely. */
  lemma {:induction false} VacatedSettled(k: Kind, n: nat)
    requires n < Width(k)
    ensures Within(Vacated(k), Settled(k, n))
    decreases Width(k) - n
  {
    hide Within, Settled, Vacated;
    if n == Width(k) - 1 {
      LastSettled(k);
    } else {
      VacatedSettled(k, n + 1);
      SettledShrinks(k, n);
      WithinHas(Settled(k, n + 1), Settled(k, n), Vacated(k));
    }
  }

  function MovedBack4(k: Kind, x: bv32): bv32 {
    MovedBack(k, MovedBack(k, MovedBack(k, MovedBack(k, x))))
  }

  lemma SettledBy4(k: Kind, n: nat)
    ensures Settled(k, n + 4) == MovedBack4(k, Settled(k, n))
  {
    hide MovedBack;
    assert Settled(k, n + 2) == MovedBack(k, MovedBack(k, Settled(k, n)));
    assert Settled(k, n + 4) == MovedBack(k, MovedBack(k, Settled(k, n + 2)));
  }

  /** The literals along the way, four shifts at a time. */
  lemma LastSettled(k: Kind)
    ensures Within(Vacated(k), Settled(k, Width(k) - 1))
  {
    match k
    case Reflected16 =>
      assert Settled(k, 1) == 0xFFFE;
      assert Settled(k, 3) == 0xFFF8;
      SettledBy4(k, 3);
      assert MovedBack4(k, 0xFFF8) == 0xFF80;
      SettledBy4(k, 7);
      assert MovedBack4(k, 0xFF80) == 0xF800;
      SettledBy4(k, 11);
      assert MovedBack4(k, 0xF800) == 0x8000;
    case Reflected32 =>
      assert Settled(k, 1) == 0xFFFF_FFFE;
      assert Settled(k, 3) == 0xFFFF_FFF8;
      SettledBy4(k, 3);
      assert MovedBack4(k, 0xFFFF_FFF8) == 0xFFFF_FF80;
      SettledBy4(k, 7);
      assert MovedBack4(k, 0xFFFF_FF80) == 0xFFFF_F800;
      SettledBy4(k, 11);
      assert MovedBack4(k, 0xFFFF_F800) == 0xFFFF_8000;
      SettledBy4(k, 15);
      assert MovedBack4(k, 0xFFFF_8000) == 0xFFF8_0000;
      SettledBy4(k, 19);
      assert MovedBack4(k, 0xFFF8_0000) == 0xFF80_0000;
      SettledBy4(k, 23);
      assert MovedBack4(k, 0xFF80_0000) == 0xF800_0000;
      SettledBy4(k, 27);
      assert MovedBack4(k, 0xF800_0000) == 0x8000_0000;
    case Forward16 =>
      assert Settled(k, 1) == 0x7FFF;
      assert Settled(k, 3) == 0x1FFF;
      SettledBy4(k, 3);
      assert MovedBack4(k, 0x1FFF) == 0x01FF;
      SettledBy4(k, 7);
      assert MovedBack4(k, 0x01FF) == 0x001F;
      SettledBy4(k, 11);
      assert MovedBack4(k, 0x001F) == 0x0001;
    case Forward32 =>
      assert Settled(k, 1) == 0x7FFF_FFFF;
      assert Settled(k, 3) == 0x1FFF_FFFF;
      SettledBy4(k, 3);
      assert MovedBack4(k, 0x1FFF_FFFF) == 0x01FF_FFFF;
      SettledBy4(k, 7);
      assert MovedBack4(k, 0x01FF_FFFF) == 0x001F_FFFF;
      SettledBy4(k, 11);
      assert MovedBack4(k, 0x001F_FFFF) == 0x0001_FFFF;
      SettledBy4(k, 15);
      assert MovedBack4(k, 0x0001_FFFF) == 0x0000_1FFF;
      SettledBy4(k, 19);
      assert MovedBack4(k, 0x0000_1FFF) == 0x0000_01FF;
      SettledBy4(k, 23);
      assert MovedBack4(k, 0x0000_01FF) == 0x0000_001F;
      SettledBy4(k, 27);
      assert MovedBack4(k, 0x0000_001F) == 0x0000_0001;
  }

  lemma MovedSettled(k: Kind, z: bv32, m: bv32)
    requires Fits(k, z) && Fits(k, m) && And(Moved(k, z), m) == 0 && !Has(z, Out(k))
    ensures And(z, MovedBack(k, m)) == 0 && !Has(MovedBack(k, m), Out(k)) && Fits(k, MovedBack(k, m))
  {
    match k
    case Reflected16 => Shr16Clear(z, m);
    case Reflected32 => ShrClear(z, m);
    case Forward16 => Shl16Clear(z, m);
    case Forward32 => ShlClear(z, m);
  }

  lemma ShrClear(z: bv32, m: bv32)
    requires And(Shr(z), m) == 0
    ensures And(z, Shl(m)) == 0 && !Has(Shl(m), 1)
  {
    assert z & (m << 1) == 0;
  }

  lemma LowBitMasked(x: bv32)
    requires !Has(x, 1)
    ensures !Has(And(x, 0xFFFF), 1)
  {
  }

  lemma AndAssoc(a: bv32, b: bv32, c: bv32)
    ensures And(And(a, b), c) == And(a, And(b, c))
  {
  }

  lemma Shr16Clear(z: bv32, m: bv32)
    requires And(Shr(z), m) == 0
    ensures And(z, And(Shl(m), 0xFFFF)) == 0 && !Has(And(Shl(m), 0xFFFF), 1) && And(Shl(m), 0xFFFF) < 0x1_0000
  {
    hide Shl, Shr, Has, And;
    ShrClear(z, m);
    AndAssoc(z, Shl(m), 0xFFFF);
    AndSmall(Shl(m), 0xFFFF);
    LowBitMasked(Shl(m));
  }

  lemma ShlClear(z: bv32, m: bv32)
    requires And(Shl(z), m) == 0 && !Has(z, 0x8000_0000)
    ensures And(z, Shr(m)) == 0 && !Has(Shr(m), 0x8000_0000)
  {
    assert z & (m >> 1) == 0 && (m >> 1) & 0x8000_0000 == 0;
  }

  lemma Shl16Clear(z: bv32, m: bv32)
    requires And(And(Shl(z), 0xFFFF), m) == 0 && !Has(z, 0x8000) && z < 0x1_0000 && m < 0x1_0000
    ensures And(z, Shr(m)) == 0 && !Has(Shr(m), 0x8000) && Shr(m) < 0x1_0000
  {
    assert z & (m >> 1) == 0 && (m >> 1) & 0x8000 == 0;
  }

  lemma {:induction false} SettledFits(k: Kind, n: nat)
    ensures Fits(k, Settled(k, n))
  {
    if n > 0 {
      SettledFits(k, n - 1);
      var m := Settled(k, n - 1);
      if k.Forward16? { assert m >> 1 <= m; }
      if k.Reflected16? { assert (m << 1) & 0xFFFF < 0x1_0000; }
    }
  }

  lemma NoBits(x: bv32, m: bv32, v: bv32)
    requires And(x, m) == 0 && Within(v, m)
    ensures !Has(x, v)
  {
    assert x & v == x & m & v;
  }

  /** The difference of two registers one step before, when the mixed-in bits are `p` and `q`. */
  lemma MixedApart(k: Kind, x: bv32, y: bv32, p: bool, q: bool)
    ensures Xor(Mixed(k, x, p), Mixed(k, y, q)) == Xor(Xor(x, y), Feedback(Out(k), p != q))
  {
    hide Xor, Feedback, Out;
    XorSwap(x, Feedback(Out(k), p), y, Feedback(Out(k), q));
    FeedbackXor(Out(k), p, q);
  }

  /** Registers that agree after bursts of at most their width differ before only where those bits can reach. */
  lemma {:induction false} BurstReach(e: Engine, x: bv32, y: bv32, u: seq<bool>, v: seq<bool>)
    requires Valid(e) && Fits(e.kind, x) && Fits(e.kind, y)
    requires |u| == |v| <= Width(e.kind) && Divide(e, x, u) == Divide(e, y, v)
    ensures And(Xor(x, y), Settled(e.kind, |u|)) == 0
    ensures u != [] ==> !Has(Xor(Mixed(e.kind, x, u[0]), Mixed(e.kind, y, v[0])), Out(e.kind))
    decreases |u|
  {
    hide Valid, Fits, Shift, Mixed, Has, Vacated, Within, Out, Moved, MovedBack, Settled, Xor, And, Feedback;
    var k := e.kind;
    ValidFits(e);
    if u == [] {
      XorLaws(x, y);
      AndSmall(0, Settled(k, 0));
    } else {
      var x1, y1 := Mixed(k, x, u[0]), Mixed(k, y, v[0]);
      MixedFits(k, x, u[0]);
      MixedFits(k, y, v[0]);
      ShiftFits(e, x1);
      ShiftFits(e, y1);
      BurstReach(e, Shift(e, x1), Shift(e, y1), u[1..], v[1..]);
      var m := Settled(k, |u| - 1);
      VacatedSettled(k, |u| - 1);
      NoBits(Xor(Shift(e, x1), Shift(e, y1)), m, Vacated(k));
      ShiftApart(e, x1, y1);
      XorFits(k, x1, y1);
      SettledFits(k, |u| - 1);
      MovedSettled(k, Xor(x1, y1), m);
      BurstBack(k, x, y, u[0], v[0], m);
      SettledUnfold(k, |u|);
    }
  }

  lemma SettledUnfold(k: Kind, n: nat)
    requires n > 0
    ensures Settled(k, n) == MovedBack(k, Settled(k, n - 1))
  {
  }

  lemma BurstBack(k: Kind, x: bv32, y: bv32, p: bool, q: bool, m: bv32)
    requires And(Xor(Mixed(k, x, p), Mixed(k, y, q)), MovedBack(k, m)) == 0 && !Has(MovedBack(k, m), Out(k))
    ensures And(Xor(x, y), MovedBack(k, m)) == 0
  {
    hide Mixed, MovedBack, Xor;
    MixedApart(k, x, y, p, q);
    var back, d := MovedBack(k, m), Xor(x, y);
    hide Out;
    AndXor(d, Feedback(Out(k), p != q), back);
    assert And(Feedback(Out(k), p != q), back) == 0 by { AndSmall(0, back); AndComm(Out(k), back); }
    XorLaws(And(d, back), 0);
  }

  lemma AndComm(a: bv32, b: bv32)
    ensures And(a, b) == And(b, a)
  {
  }

  /** From one register, different bursts no longer than the register lead to different registers. */
  lemma {:induction false} BurstNoticed(e: Engine, x: bv32, u: seq<bool>, v: seq<bool>)
    requires Valid(e) && Fits(e.kind, x)
    requires |u| == |v| <= Width(e.kind) && Divide(e, x, u) == Divide(e, x, v)
    ensures u == v
    decreases |u|
  {
    if u != [] {
      hide Fits, Shift, Vacated, Out, Xor, Has, Mixed;
      var k := e.kind;
      BurstReach(e, x, x, u, v);
      SameFirstBit(k, x, u[0], v[0]);
      MixedFits(k, x, u[0]);
      ShiftFits(e, Mixed(k, x, u[0]));
      BurstNoticed(e, Shift(e, Mixed(k, x, u[0])), u[1..], v[1..]);
      assert u == [u[0]] + u[1..] && v == [v[0]] + v[1..];
    }
  }

  lemma SameFirstBit(k: Kind, x: bv32, p: bool, q: bool)
    requires !Has(Xor(Mixed(k, x, p), Mixed(k, x, q)), Out(k))
    ensures p == q
  {
    hide Xor, Mixed, Out, Has;
    MixedApart(k, x, x, p, q);
    XorLaws(x, x);
    XorLaws(Out(k), 0);
    OutFits(k);
  }

  /**
   * Error detection: two messages that differ only inside a burst of at most as many bits as the register has
   * are told apart, whatever the register was, whatever comes before the burst and whatever comes after it.
   */
  lemma BurstDetected(e: Engine, reg: bv32, before: seq<bool>, u: seq<bool>, v: seq<bool>, after: seq<bool>)
    requires Valid(e) && Fits(e.kind, reg) && |u| == |v| <= Width(e.kind) && u != v
    ensures Divide(e, reg, before + u + after) != Divide(e, reg, before + v + after)
  {
    hide Divide, Fits, Valid;
    var x := Divide(e, reg, before);
    assert Fits(e.kind, e.poly) by { ValidFits(e); }
    DivideFits(e, reg, before);
    DivideAppend(e, reg, before + u, after);
    DivideAppend(e, reg, before + v, after);
    DivideAppend(e, reg, before, u);
    DivideAppend(e, reg, before, v);
    DivideFits(e, x, u);
    DivideFits(e, x, v);
    if Divide(e, reg, before + u + after) == Divide(e, reg, before + v + after) {
      DivideInjective(e, Divide(e, x, u), Divide(e, x, v), after);
      BurstNoticed(e, x, u, v);
    }
  }

  lemma ValidFits(e: Engine)
    requires Valid(e)
    ensures Fits(e.kind, e.poly)
  {
  }

  // The same for octets.

  lemma OctetBitsInjective(k: Kind, a: Octet, b: Octet)
    requires OctetBits(k, a) == OctetBits(k, b)
    ensures a == b
  {
    hide Has;
    forall i: nat | i < 8 ensures Has(a, Place(i)) == Has(b, Place(i)) {
      var j := if k.Reflected16? || k.Reflected32? then i else 7 - i;
      assert OctetBits(k, a)[j] == OctetBits(k, b)[j];
    }
    hide OctetBits;
    assert Place(0) == 0x01 && Place(1) == 0x02 && Place(2) == 0x04 && Place(3) == 0x08;
    assert Place(4) == 0x10 && Place(5) == 0x20 && Place(6) == 0x40 && Place(7) == 0x80;
    EightBits(a, b);
  }

  lemma EightBits(a: Octet, b: Octet)
    requires Has(a, 0x01) == Has(b, 0x01) && Has(a, 0x02) == Has(b, 0x02) && Has(a, 0x04) == Has(b, 0x04)
    requires Has(a, 0x08) == Has(b, 0x08) && Has(a, 0x10) == Has(b, 0x10) && Has(a, 0x20) == Has(b, 0x20)
    requires Has(a, 0x40) == Has(b, 0x40) && Has(a, 0x80) == Has(b, 0x80)
    ensures a == b
  {
  }

  lemma {:induction false} BitsInjective(k: Kind, a: seq<Octet>, b: seq<Octet>)
    requires |a| == |b| && MessageBits(k, a) == MessageBits(k, b)
    ensures a == b
  {
    hide OctetBits;
    if a != [] {
      assert OctetBits(k, a[0]) == MessageBits(k, a)[..8] == MessageBits(k, b)[..8] == OctetBits(k, b[0]);
      OctetBitsInjective(k, a[0], b[0]);
      assert MessageBits(k, a[1..]) == MessageBits(k, a)[8..] == MessageBits(k, b)[8..] == MessageBits(k, b[1..]);
      BitsInjective(k, a[1..], b[1..]);
      assert a == [a[0]] + a[1..] && b == [b[0]] + b[1..];
    }
  }

  /**
   * Two messages of one length that differ, but agree outside `n` consecutive octets (four for a 32-bit check,
   * two for a 16-bit one), have different checks.
   */
  lemma WindowDetected(e: Engine, reg: bv32, a: seq<Octet>, b: seq<Octet>, i: nat, n: nat)
    requires Valid(e) && Fits(e.kind, reg) && 8 * n <= Width(e.kind)
    requires |a| == |b| && i + n <= |a| && a[..i] == b[..i] && a[i + n..] == b[i + n..] && a != b
    ensures Crc(e, reg, a) != Crc(e, reg, b)
  {
    hide Divide, Valid, Fits, Width, MessageBits;
    var k := e.kind;
    var before, u, v, after := a[..i], a[i..i + n], b[i..i + n], a[i + n..];
    assert a == before + u + after && b == before + v + after;
    BitsAppend(k, before + u, after);
    BitsAppend(k, before, u);
    BitsAppend(k, before + v, after);
    BitsAppend(k, before, v);
    if MessageBits(k, u) == MessageBits(k, v) { BitsInjective(k, u, v); }
    BurstDetected(e, reg, MessageBits(k, before), MessageBits(k, u), MessageBits(k, v), MessageBits(k, after));
  }
}
