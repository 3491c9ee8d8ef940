/** The check values that the checksum library states for each of its checks: those of the nine digits "123456789". */
module CheckValues {
  import opened Words
  import opened Division
  import opened FastCRC
  import opened Slicing

  const DIGITS: seq<Octet> := [0x31, 0x32, 0x33, 0x34, 0x35, 0x36, 0x37, 0x38, 0x39]

  /** Four steps of the division. */
  function Half(e: Engine, x: bv32): bv32 {
    Shift(e, Shift(e, Shift(e, Shift(e, x))))
  }

  /** Eight steps of a register that an octet was added to. */
  function Taken(e: Engine, reg: bv32, b: Octet): bv32 {
    Half(e, Half(e, Xor(reg, Lift(e.kind, b))))
  }

  /** On the way: the octet added, half of the steps, all of them. */
  predicate Goes(e: Engine, reg: bv32, b: Octet, added: bv32, half: bv32, next: bv32) {
    Xor(reg, Lift(e.kind, b)) == added && Half(e, added) == half && Half(e, half) == next
  }

  lemma AllTaken(e: Engine, reg: bv32, b: Octet)
    ensures Divide(e, reg, OctetBits(e.kind, b)) == Taken(e, reg, b)
  {
    hide Divide, OctetBits, Shift, Xor, Lift;
    OctetSteps(e, reg, b);
    var x := Xor(reg, Lift(e.kind, b));
    var y := Shift(e, Shift(e, Shift(e, Shift(e, x))));
    assert Steps(e, x, 8) == Steps(e, y, 4);
    assert Steps(e, y, 4) == Shift(e, Shift(e, Shift(e, Shift(e, y))));
  }

  /** The registers on the way through a message, one for each octet. */
  lemma {:induction false} Through(e: Engine, reg: bv32, data: seq<Octet>, regs: seq<bv32>)
    requires data != [] && |regs| == |data| && regs[0] == Taken(e, reg, data[0])
    requires forall k :: 1 <= k < |data| ==> regs[k] == Taken(e, regs[k - 1], data[k])
    ensures Crc(e, reg, data) == regs[|regs| - 1]
    decreases |data|
  {
    hide Divide, OctetBits, Taken;
    AllTaken(e, reg, data[0]);
    assert data == [data[0]] + data[1..];
    CrcAppend(e, reg, [data[0]], data[1..]);
    OneOctet(e, reg, data[0]);
    if |data| == 1 {
      DivideNothing(e, regs[0]);
    } else {
      Through(e, regs[0], data[1..], regs[1..]);
    }
  }

  lemma OneOctet(e: Engine, reg: bv32, b: Octet)
    ensures Crc(e, reg, [b]) == Divide(e, reg, OctetBits(e.kind, b))
  {
    assert MessageBits(e.kind, [b]) == OctetBits(e.kind, b);
  }

  lemma CcittFirst()
    ensures Goes(CCITT, 0xFFFF, 0x31, 0xCEFF, 0x2E7C, 0xC782)
    ensures Goes(CCITT, 0xC782, 0x32, 0xF582, 0xA9CF, 0x3DBA)
    ensures Goes(CCITT, 0x3DBA, 0x33, 0x0EBA, 0xEBA0, 0x5BCE)
    ensures Goes(CCITT, 0x5BCE, 0x34, 0x6FCE, 0x9C26, 0x5349)
    ensures Goes(CCITT, 0x5349, 0x35, 0x6649, 0x0456, 0x4560)
  {
  }

  lemma CcittLast()
    ensures Goes(CCITT, 0x4560, 0x36, 0x7360, 0x46E7, 0x2EF4)
    ensures Goes(CCITT, 0x2EF4, 0x37, 0x19F4, 0x8F61, 0x7718)
    ensures Goes(CCITT, 0x7718, 0x38, 0x4F18, 0xB104, 0xA12B)
    ensures Goes(CCITT, 0xA12B, 0x39, 0x982B, 0x1399, 0x29B1)
  {
  }

  lemma CcittOfDigits()
    ensures Crc(CCITT, 0xFFFF, DIGITS) == 0x29B1
  {
    hide Half, Xor, Lift;
    CcittFirst();
    CcittLast();
    Through(CCITT, 0xFFFF, DIGITS, [0xC782, 0x3DBA, 0x5BCE, 0x5349, 0x4560, 0x2EF4, 0x7718, 0xA12B, 0x29B1]);
  }

  lemma XmodemFirst()
    ensures Goes(XMODEM, 0x0000, 0x31, 0x3100, 0x2063, 0x2672)
    ensures Goes(XMODEM, 0x2672, 0x32, 0x1472, 0x5701, 0x20B5)
    ensures Goes(XMODEM, 0x20B5, 0x33, 0x13B5, 0x2B71, 0x9752)
    ensures Goes(XMODEM, 0x9752, 0x34, 0xA352, 0x946A, 0xD789)
    ensures Goes(XMODEM, 0xD789, 0x35, 0xE289, 0xC95E, 0x546C)
  {
  }

  lemma XmodemLast()
    ensures Goes(XMODEM, 0x546C, 0x36, 0x626C, 0x4606, 0x20E4)
    ensures Goes(XMODEM, 0x20E4, 0x37, 0x17E4, 0x6E61, 0x86D6)
    ensures Goes(XMODEM, 0x86D6, 0x38, 0xBED6, 0x5C0B, 0x9015)
    ensures Goes(XMODEM, 0x9015, 0x39, 0xA915, 0x301A, 0x31C3)
  {
  }

  lemma XmodemOfDigits()
    ensures Crc(XMODEM, 0x0000, DIGITS) == 0x31C3
  {
    hide Half, Xor, Lift;
    XmodemFirst();
    XmodemLast();
    Through(XMODEM, 0x0000, DIGITS, [0x2672, 0x20B5, 0x9752, 0xD789, 0x546C, 0x20E4, 0x86D6, 0x9015, 0x31C3]);
  }

  /** From its seed 0; the published value goes with the seed 0xffff of the comment. */
  lemma Mcrf4xxOfDigits()
    ensures Crc(MCRF4XX, 0, DIGITS) == 0x2189 && Crc(MCRF4XX, 0xFFFF, DIGITS) == 0x6F91
  {
    hide Half, Xor, Lift, Crc;
    KermitOfDigits();
    X25OfDigits();
  }

  lemma KermitFirst()
    ensures Goes(KERMIT, 0x0000, 0x31, 0x0031, 0x1082, 0x200A)
    ensures Goes(KERMIT, 0x200A, 0x32, 0x2038, 0x860B, 0xBDEB)
    ensures Goes(KERMIT, 0xBDEB, 0x33, 0xBDD8, 0x8FD5, 0x5A78)
    ensures Goes(KERMIT, 0x5A78, 0x34, 0x5A4C, 0xC3A8, 0x8832)
    ensures Goes(KERMIT, 0x8832, 0x35, 0x8807, 0x7B07, 0x7437)
  {
  }

  lemma KermitLast()
    ensures Goes(KERMIT, 0x7437, 0x36, 0x7401, 0x17C1, 0x11FD)
    ensures Goes(KERMIT, 0x11FD, 0x37, 0x11CA, 0xA416, 0x6947)
    ensures Goes(KERMIT, 0x6947, 0x38, 0x697F, 0xF118, 0x8B19)
    ensures Goes(KERMIT, 0x8B19, 0x39, 0x8B20, 0x08B2, 0x2189)
  {
  }

  lemma KermitOfDigits()
    ensures Crc(KERMIT, 0x0000, DIGITS) == 0x2189
  {
    hide Half, Xor, Lift;
    KermitFirst();
    KermitLast();
    Through(KERMIT, 0x0000, DIGITS, [0x200A, 0xBDEB, 0x5A78, 0x8832, 0x7437, 0x11FD, 0x6947, 0x8B19, 0x2189]);
  }

  lemma X25First()
    ensures Goes(SDLC, 0xFFFF, 0x31, 0xFFCE, 0xE8F2, 0x2F8D)
    ensures Goes(SDLC, 0x2F8D, 0x32, 0x2FBF, 0xF574, 0x4D53)
    ensures Goes(SDLC, 0x4D53, 0x33, 0x4D60, 0x04D6, 0x634B)
    ensures Goes(SDLC, 0x634B, 0x34, 0x637F, 0xF1B8, 0x8B13)
    ensures Goes(SDLC, 0x8B13, 0x35, 0x8B26, 0x6BB4, 0x44BF)
  {
  }

  lemma X25Last()
    ensures Goes(SDLC, 0x44BF, 0x36, 0x4489, 0x90C1, 0x198D)
    ensures Goes(SDLC, 0x198D, 0x37, 0x19BA, 0xA491, 0x1AC8)
    ensures Goes(SDLC, 0x1AC8, 0x38, 0x1AF0, 0x01AF, 0xF795)
    ensures Goes(SDLC, 0xF795, 0x39, 0xF7AC, 0xC976, 0x6F91)
  {
  }

  lemma X25OfDigits()
    ensures Crc(SDLC, 0xFFFF, DIGITS) == 0x6F91
  {
    hide Half, Xor, Lift;
    X25First();
    X25Last();
    Through(SDLC, 0xFFFF, DIGITS, [0x2F8D, 0x4D53, 0x634B, 0x8B13, 0x44BF, 0x198D, 0x1AC8, 0xF795, 0x6F91]);
  }

  lemma ModbusFirst()
    ensures Goes(MODBUS, 0xFFFF, 0x31, 0xFFCE, 0x87FD, 0x947E)
    ensures Goes(MODBUS, 0x947E, 0x32, 0x944C, 0x5944, 0xF595)
    ensures Goes(MODBUS, 0xF595, 0x33, 0xF5A6, 0x275A, 0x7A75)
    ensures Goes(MODBUS, 0x7A75, 0x34, 0x7A41, 0xCBA5, 0x30BA)
    ensures Goes(MODBUS, 0x30BA, 0x35, 0x308F, 0x4708, 0xA471)
  {
  }

  lemma ModbusLast()
    ensures Goes(MODBUS, 0xA471, 0x36, 0xA447, 0xEE45, 0x32E4)
    ensures Goes(MODBUS, 0x32E4, 0x37, 0x32D3, 0x172D, 0x9D73)
    ensures Goes(MODBUS, 0x9D73, 0x38, 0x9D4B, 0xBDD5, 0x37DD)
    ensures Goes(MODBUS, 0x37DD, 0x39, 0x37E4, 0xF37F, 0x4B37)
  {
  }

  lemma ModbusOfDigits()
    ensures Crc(MODBUS, 0xFFFF, DIGITS) == 0x4B37
  {
    hide Half, Xor, Lift;
    ModbusFirst();
    ModbusLast();
    Through(MODBUS, 0xFFFF, DIGITS, [0x947E, 0xF595, 0x7A75, 0x30BA, 0xA471, 0x32E4, 0x9D73, 0x37DD, 0x4B37]);
  }

  lemma Crc32First()
    ensures Goes(CRC32, 0xFFFF_FFFF, 0x31, 0xFFFF_FFCE, 0xAFF5_1D84, 0x7C23_1048)
    ensures Goes(CRC32, 0x7C23_1048, 0x32, 0x7C23_107A, 0xD114_92EF, 0xB0AC_BB32)
    ensures Goes(CRC32, 0xB0AC_BB32, 0x33, 0xB0AC_BB01, 0x16BD_DBD4, 0x77B7_9C2D)
    ensures Goes(CRC32, 0x77B7_9C2D, 0x34, 0x77B7_9C19, 0xF774_EA85, 0x641C_1F5C)
    ensures Goes(CRC32, 0x641C_1F5C, 0x35, 0x641C_1F69, 0xF64E_52B2, 0x340A_C5E3)
  {
  }

  lemma Crc32Last()
    ensures Goes(CRC32, 0x340A_C5E3, 0x36, 0x340A_C5D5, 0x682B_FDA9, 0xF68D_2C9E)
    ensures Goes(CRC32, 0xF68D_2C9E, 0x37, 0xF68D_2CA9, 0xFF67_418E, 0xAFFC_9660)
    ensures Goes(CRC32, 0xAFFC_9660, 0x38, 0xAFFC_9658, 0xE747_4A45, 0x651F_2550)
    ensures Goes(CRC32, 0x651F_2550, 0x39, 0x651F_2569, 0xF65E_6112, 0x340B_C6D9)
  {
  }

  lemma Crc32OfDigits()
    ensures Crc(CRC32, 0xFFFF_FFFF, DIGITS) == 0x340B_C6D9
  {
    hide Half, Xor, Lift;
    Crc32First();
    Crc32Last();
    Through(CRC32, 0xFFFF_FFFF, DIGITS, [0x7C23_1048, 0xB0AC_BB32, 0x77B7_9C2D, 0x641C_1F5C, 0x340A_C5E3,
      0xF68D_2C9E, 0xAFFC_9660, 0x651F_2550, 0x340B_C6D9]);
  }

  lemma CksumFirst()
    ensures Goes(CKSUM, 0x0000_0000, 0x31, 0x3100_0000, 0x1D43_26D9, 0xD0F3_7027)
    ensures Goes(CKSUM, 0xD0F3_7027, 0x32, 0xE2F3_7027, 0x13B9_A27A, 0x3F5B_3A17)
    ensures Goes(CKSUM, 0x3F5B_3A17, 0x33, 0x0C5B_3A17, 0xC5B3_A170, 0x6E36_8C64)
    ensures Goes(CKSUM, 0x6E36_8C64, 0x34, 0x5A36_8C64, 0xB4AD_AD2B, 0x6191_19D1)
    ensures Goes(CKSUM, 0x6191_19D1, 0x35, 0x5491_19D1, 0x5ED4_F67B, 0xFA8A_0CDB)
  {
  }

  lemma CksumLast()
    ensures Goes(CKSUM, 0xFA8A_0CDB, 0x36, 0xCC8A_0CDB, 0xFDAC_56D4, 0xE28A_D0FD)
    ensures Goes(CKSUM, 0xE28A_D0FD, 0x37, 0xD58A_D0FD, 0x6960_8903, 0x8C8E_DD82)
    ensures Goes(CKSUM, 0x8C8E_DD82, 0x38, 0xB48E_DD82, 0x63A6_1341, 0x20E7_79A2)
    ensures Goes(CKSUM, 0x20E7_79A2, 0x39, 0x19E7_79A2, 0x9AB6_8797, 0x89A1_897F)
  {
  }

  lemma CksumOfDigits()
    ensures Crc(CKSUM, 0x0000_0000, DIGITS) == 0x89A1_897F
  {
    hide Half, Xor, Lift;
    CksumFirst();
    CksumLast();
    Through(CKSUM, 0x0000_0000, DIGITS, [0xD0F3_7027, 0x3F5B_3A17, 0x6E36_8C64, 0x6191_19D1, 0xFA8A_0CDB,
      0xE28A_D0FD, 0x8C8E_DD82, 0x20E7_79A2, 0x89A1_897F]);
  }

  /** The published results, complemented where the check complements its register. */
  method Published(check16: FastCRC16, check32: FastCRC32, address: nat)
    returns (ccitt: bv32, xmodem: bv32, mcrf4xx: bv32, kermit: bv32, x25: bv32, modbus: bv32, crc32: bv32, cksum: bv32)
    modifies check16, check32
    ensures ccitt == 0x29B1 && xmodem == 0x31C3 && kermit == 0x2189 && x25 == 0x906E && modbus == 0x4B37
    ensures crc32 == 0xCBF4_3926 && cksum == 0x765E_7680
    ensures mcrf4xx == 0x2189
  {
    hide Crc;
    CcittOfDigits(); XmodemOfDigits(); Mcrf4xxOfDigits(); KermitOfDigits();
    X25OfDigits(); ModbusOfDigits(); Crc32OfDigits(); CksumOfDigits();
    ccitt := check16.Ccitt(DIGITS, address);
    xmodem := check16.Xmodem(DIGITS, address);
    mcrf4xx := check16.Mcrf4xx(DIGITS, address);
    kermit := check16.Kermit(DIGITS, address);
    x25 := check16.X25(DIGITS, address);
    modbus := check16.Modbus(DIGITS, address);
    crc32 := check32.Crc32(DIGITS, address);
    cksum := check32.Cksum(DIGITS, address);
  }
}
