/**
 * 32-bit words and the operations that the checksum code builds on. Proofs elsewhere hide the bodies and use
 * the laws stated here, so that no proof has to look at single bits and at sequences at the same time.
 */
module Words {
  type Octet = b: bv32 | b < 0x100

  function Xor(a: bv32, b: bv32): bv32 { a ^ b }
  function And(a: bv32, b: bv32): bv32 { a & b }
  predicate Has(a: bv32, m: bv32) { a & m != 0 }
  function Shl(a: bv32): bv32 { a << 1 }
  function Shr(a: bv32): bv32 { a >> 1 }
  function Shl8(a: bv32): bv32 { a << 8 }
  function Shr8(a: bv32): bv32 { a >> 8 }
  function Low8(a: bv32): Octet { a & 0xFF }

  /** `REV16`, for a value of 16 bits. */
  function Rev16(a: bv32): bv32 { (a >> 8) | ((a & 0xFF) << 8) }

  /** `REV32`. */
  function Rev32(a: bv32): bv32 {
    var b := (a >> 16) | ((a & 0xFFFF) << 16);
    ((b >> 8) & 0xFF_00FF) | ((b & 0xFF_00FF) << 8)
  }

  /** A little-endian load of four octets. */
  function Load(b0: Octet, b1: Octet, b2: Octet, b3: Octet): bv32 {
    b0 | (b1 << 8) | (b2 << 16) | (b3 << 24)
  }

  // Exclusive or.

  lemma XorLaws(a: bv32, b: bv32)
    ensures Xor(a, b) == Xor(b, a) && Xor(a, a) == 0 && Xor(a, 0) == a && Xor(0, a) == a
  {
  }

  lemma XorAssoc(a: bv32, b: bv32, c: bv32)
    ensures Xor(Xor(a, b), c) == Xor(a, Xor(b, c))
  {
  }

  lemma XorSwap(a: bv32, b: bv32, c: bv32, d: bv32)
    ensures Xor(Xor(a, b), Xor(c, d)) == Xor(Xor(a, c), Xor(b, d))
  {
    hide Xor;
    XorAssoc(a, b, Xor(c, d));
    XorAssoc(b, c, d);
    XorLaws(b, c);
    XorAssoc(c, b, d);
    XorAssoc(a, c, Xor(b, d));
  }

  lemma XorCancel(a: bv32, b: bv32, c: bv32)
    requires Xor(a, c) == Xor(b, c)
    ensures a == b
  {
    hide Xor;
    XorAssoc(a, c, c);
    XorAssoc(b, c, c);
    XorLaws(a, c);
    XorLaws(b, c);
    XorLaws(c, c);
  }

  /** A zero difference means equal words. */
  lemma XorZero(a: bv32, b: bv32)
    requires Xor(a, b) == 0
    ensures a == b
  {
    hide Xor;
    XorLaws(b, b);
    XorCancel(a, b, b);
  }

  lemma AndXor(a: bv32, b: bv32, m: bv32)
    ensures And(Xor(a, b), m) == Xor(And(a, m), And(b, m))
  {
    calc { And(Xor(a, b), m); (a ^ b) & m; (a & m) ^ (b & m); Xor(And(a, m), And(b, m)); }
  }

  lemma ShlAnd(a: bv32, b: bv32)
    ensures And(Shl(a), Shl(b)) == Shl(And(a, b))
  {
    calc { And(Shl(a), Shl(b)); (a << 1) & (b << 1); (a & b) << 1; Shl(And(a, b)); }
  }

  lemma ShrAnd(a: bv32, b: bv32)
    ensures And(Shr(a), Shr(b)) == Shr(And(a, b))
  {
    calc { And(Shr(a), Shr(b)); (a >> 1) & (b >> 1); (a & b) >> 1; Shr(And(a, b)); }
  }

  lemma AndAnd(a: bv32, b: bv32, m: bv32)
    ensures And(And(a, m), And(b, m)) == And(And(a, b), m)
  {
    calc { And(And(a, m), And(b, m)); (a & m) & (b & m); (a & b) & m; And(And(a, b), m); }
  }

  lemma AndSmall(a: bv32, m: bv32)
    ensures And(a, 0xFFFF) < 0x1_0000
    ensures a < 0x1_0000 ==> And(a, 0xFFFF) == a
    ensures And(0, m) == 0
  {
  }

  lemma XorSmall(a: bv32, b: bv32)
    requires a < 0x1_0000 && b < 0x1_0000
    ensures Xor(a, b) < 0x1_0000
  {
  }

  lemma ShiftsXor(a: bv32, b: bv32)
    ensures Shl(Xor(a, b)) == Xor(Shl(a), Shl(b))
    ensures Shr(Xor(a, b)) == Xor(Shr(a), Shr(b))
  {
  }

  lemma OctetShiftsXor(a: bv32, b: bv32)
    ensures Shl8(Xor(a, b)) == Xor(Shl8(a), Shl8(b))
    ensures Shr8(Xor(a, b)) == Xor(Shr8(a), Shr8(b))
  {
  }

  lemma Low8Xor(a: bv32, b: bv32)
    ensures Low8(Xor(a, b)) == Xor(Low8(a), Low8(b))
  {
  }

  predicate IsEndBit(m: bv32) { m == 1 || m == 0x8000 || m == 0x8000_0000 }

  lemma HasXor(a: bv32, b: bv32, m: bv32)
    requires IsEndBit(m)
    ensures Has(Xor(a, b), m) == (Has(a, m) != Has(b, m))
  {
    calc { Has(Xor(a, b), m); Has(a ^ b, m); (a ^ b) & m != 0; { BitXor(a, b); } (a & m != 0) != (b & m != 0); }
  }

  lemma BitXor(a: bv32, b: bv32)
    ensures ((a ^ b) & 1 != 0) == ((a & 1 != 0) != (b & 1 != 0))
    ensures ((a ^ b) & 0x8000 != 0) == ((a & 0x8000 != 0) != (b & 0x8000 != 0))
    ensures ((a ^ b) & 0x8000_0000 != 0) == ((a & 0x8000_0000 != 0) != (b & 0x8000_0000 != 0))
  {
  }

  // Byte order.

  lemma Rev16Xor(a: bv32, b: bv32)
    requires a < 0x1_0000 && b < 0x1_0000
    ensures Rev16(Xor(a, b)) == Xor(Rev16(a), Rev16(b))
  {
  }

  lemma Rev32Xor(a: bv32, b: bv32)
    ensures Rev32(Xor(a, b)) == Xor(Rev32(a), Rev32(b))
  {
  }

  lemma Rev16Rev16(a: bv32)
    requires a < 0x1_0000
    ensures Rev16(a) < 0x1_0000 && Rev16(Rev16(a)) == a
  {
  }

  lemma Rev32Rev32(a: bv32)
    ensures Rev32(Rev32(a)) == a
  {
  }
}
