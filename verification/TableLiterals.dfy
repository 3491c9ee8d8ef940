/** The literal first tables (FastCRC_tables.h), sixteen entries in a row, and that they are what the division computes. */
module TableLiterals {
  import opened Words
  import opened Division
  import opened Slicing
  import opened FastCRC
  import opened Tables

  function Num(p: bool, q: bool, r: bool, s: bool): (n: nat)
    ensures n < 16
  {
    (if p then 8 else 0) + (if q then 4 else 0) + (if r then 2 else 0) + if s then 1 else 0
  }

  /** The sum of the entries among four of `row`, from `k` on, that the four bits select. */
  function Sum4(row: seq<bv32>, k: nat, p: bool, q: bool, r: bool, s: bool): bv32
    requires k + 4 <= |row|
  {
    Xor(Xor(Xor(Feedback(row[k], s), Feedback(row[k + 1], r)), Feedback(row[k + 2], q)), Feedback(row[k + 3], p))
  }

  function High(b: Octet): nat { Num(Has(b, 0x80), Has(b, 0x40), Has(b, 0x20), Has(b, 0x10)) }

  function Low(b: Octet): nat { Num(Has(b, 0x08), Has(b, 0x04), Has(b, 0x02), Has(b, 0x01)) }

  lemma IndexOfOctet(b: Octet)
    ensures b as nat == 16 * High(b) + Low(b)
  {
    BitsOf(b);
  }

  lemma CombinedHalves(row: seq<bv32>, b: Octet)
    requires |row| == 8
    ensures Combined(row, b, 8) ==
            Xor(Sum4(row, 4, Has(b, 0x80), Has(b, 0x40), Has(b, 0x20), Has(b, 0x10)),
                Sum4(row, 0, Has(b, 0x08), Has(b, 0x04), Has(b, 0x02), Has(b, 0x01)))
  {
    hide Has, Combined, Xor, Feedback, Place;
    CombinedStep(row, b, 1); CombinedStep(row, b, 2); CombinedStep(row, b, 3); CombinedStep(row, b, 4);
    CombinedStep(row, b, 5); CombinedStep(row, b, 6); CombinedStep(row, b, 7); CombinedStep(row, b, 8);
    CombinedNothing(row, b);
    Places();
    var low := Combined(row, b, 4);
    var f4, f5 := Feedback(row[4], Has(b, 0x10)), Feedback(row[5], Has(b, 0x20));
    var f6, f7 := Feedback(row[6], Has(b, 0x40)), Feedback(row[7], Has(b, 0x80));
    XorLaws(Feedback(row[0], Has(b, 0x01)), 0);
    XorAssoc(low, f4, f5);
    XorAssoc(low, Xor(f4, f5), f6);
    XorAssoc(low, Xor(Xor(f4, f5), f6), f7);
    XorLaws(low, Xor(Xor(Xor(f4, f5), f6), f7));
  }

  lemma Places()
    ensures Place(0) == 0x01 && Place(1) == 0x02 && Place(2) == 0x04 && Place(3) == 0x08
    ensures Place(4) == 0x10 && Place(5) == 0x20 && Place(6) == 0x40 && Place(7) == 0x80
  {
  }

  /** The entry of `b` in a half table of eight rows is the sum that the bits of `b` select from `row`. */
  predicate Holds(t: seq<seq<bv32>>, row: seq<bv32>, b: Octet) {
    && |row| == 8 && |t| == 8
    && var h := High(b) % 8;
       && |t[h]| == 16
       && t[h][Low(b)] == Xor(Sum4(row, 4, Has(b, 0x80), Has(b, 0x40), Has(b, 0x20), Has(b, 0x10)),
                              Sum4(row, 0, Has(b, 0x08), Has(b, 0x04), Has(b, 0x02), Has(b, 0x01)))
  }

  lemma EntryOf(e: Engine, upper: seq<seq<bv32>>, lower: seq<seq<bv32>>, row: seq<bv32>, b: Octet)
    requires |upper| == |lower| == 8 && |row| == 8 && Table(e, 0, b) == Combined(row, b, 8)
    requires Holds(if Has(b, 0x80) then lower else upper, row, b)
    ensures var t := upper + lower;
            |t[b as nat / 16]| == 16 && Table(e, 0, b) == t[b as nat / 16][b as nat % 16]
  {
    hide Table, Combined, Sum4, Xor, Has, High, Low;
    CombinedHalves(row, b);
    IndexOfOctet(b);
    Below16(b);
  }

  lemma Below16(b: Octet)
    ensures High(b) < 16 && Low(b) < 16 && (Has(b, 0x80) <==> High(b) >= 8)
    ensures High(b) % 8 == Num(false, Has(b, 0x40), Has(b, 0x20), Has(b, 0x10))
  {
    hide Has;
  }

  // `crc_table_ccitt` and `crc_table_xmodem`.

  function CcittUpper(): (t: seq<seq<bv32>>)
    ensures |t| == 8
  {
    [
      [0x0000, 0x2110, 0x4220, 0x6330, 0x8440, 0xA550, 0xC660, 0xE770,
       0x0881, 0x2991, 0x4AA1, 0x6BB1, 0x8CC1, 0xADD1, 0xCEE1, 0xEFF1],
      [0x3112, 0x1002, 0x7332, 0x5222, 0xB552, 0x9442, 0xF772, 0xD662,
       0x3993, 0x1883, 0x7BB3, 0x5AA3, 0xBDD3, 0x9CC3, 0xFFF3, 0xDEE3],
      [0x6224, 0x4334, 0x2004, 0x0114, 0xE664, 0xC774, 0xA444, 0x8554,
       0x6AA5, 0x4BB5, 0x2885, 0x0995, 0xEEE5, 0xCFF5, 0xACC5, 0x8DD5],
      [0x5336, 0x7226, 0x1116, 0x3006, 0xD776, 0xF666, 0x9556, 0xB446,
       0x5BB7, 0x7AA7, 0x1997, 0x3887, 0xDFF7, 0xFEE7, 0x9DD7, 0xBCC7],
      [0xC448, 0xE558, 0x8668, 0xA778, 0x4008, 0x6118, 0x0228, 0x2338,
       0xCCC9, 0xEDD9, 0x8EE9, 0xAFF9, 0x4889, 0x6999, 0x0AA9, 0x2BB9],
      [0xF55A, 0xD44A, 0xB77A, 0x966A, 0x711A, 0x500A, 0x333A, 0x122A,
       0xFDDB, 0xDCCB, 0xBFFB, 0x9EEB, 0x799B, 0x588B, 0x3BBB, 0x1AAB],
      [0xA66C, 0x877C, 0xE44C, 0xC55C, 0x222C, 0x033C, 0x600C, 0x411C,
       0xAEED, 0x8FFD, 0xECCD, 0xCDDD, 0x2AAD, 0x0BBD, 0x688D, 0x499D],
      [0x977E, 0xB66E, 0xD55E, 0xF44E, 0x133E, 0x322E, 0x511E, 0x700E,
       0x9FFF, 0xBEEF, 0xDDDF, 0xFCCF, 0x1BBF, 0x3AAF, 0x599F, 0x788F]
    ]
  }

  function CcittLower(): (t: seq<seq<bv32>>)
    ensures |t| == 8
  {
    [
      [0x8891, 0xA981, 0xCAB1, 0xEBA1, 0x0CD1, 0x2DC1, 0x4EF1, 0x6FE1,
       0x8010, 0xA100, 0xC230, 0xE320, 0x0450, 0x2540, 0x4670, 0x6760],
      [0xB983, 0x9893, 0xFBA3, 0xDAB3, 0x3DC3, 0x1CD3, 0x7FE3, 0x5EF3,
       0xB102, 0x9012, 0xF322, 0xD232, 0x3542, 0x1452, 0x7762, 0x5672],
      [0xEAB5, 0xCBA5, 0xA895, 0x8985, 0x6EF5, 0x4FE5, 0x2CD5, 0x0DC5,
       0xE234, 0xC324, 0xA014, 0x8104, 0x6674, 0x4764, 0x2454, 0x0544],
      [0xDBA7, 0xFAB7, 0x9987, 0xB897, 0x5FE7, 0x7EF7, 0x1DC7, 0x3CD7,
       0xD326, 0xF236, 0x9106, 0xB016, 0x5766, 0x7676, 0x1546, 0x3456],
      [0x4CD9, 0x6DC9, 0x0EF9, 0x2FE9, 0xC899, 0xE989, 0x8AB9, 0xABA9,
       0x4458, 0x6548, 0x0678, 0x2768, 0xC018, 0xE108, 0x8238, 0xA328],
      [0x7DCB, 0x5CDB, 0x3FEB, 0x1EFB, 0xF98B, 0xD89B, 0xBBAB, 0x9ABB,
       0x754A, 0x545A, 0x376A, 0x167A, 0xF10A, 0xD01A, 0xB32A, 0x923A],
      [0x2EFD, 0x0FED, 0x6CDD, 0x4DCD, 0xAABD, 0x8BAD, 0xE89D, 0xC98D,
       0x267C, 0x076C, 0x645C, 0x454C, 0xA23C, 0x832C, 0xE01C, 0xC10C],
      [0x1FEF, 0x3EFF, 0x5DCF, 0x7CDF, 0x9BAF, 0xBABF, 0xD98F, 0xF89F,
       0x176E, 0x367E, 0x554E, 0x745E, 0x932E, 0xB23E, 0xD10E, 0xF01E]
    ]
  }

  lemma CcittUpperEntry(q: bool, r: bool, s: bool, p1: bool, q1: bool, r1: bool, s1: bool)
    ensures var t, h := CcittUpper(), Num(false, q, r, s);
            && |t[h]| == 16
            && t[h][Num(p1, q1, r1, s1)] == Xor(Sum4(CCITT_ROW, 4, false, q, r, s), Sum4(CCITT_ROW, 0, p1, q1, r1, s1))
  {
  }

  lemma CcittLowerEntry(q: bool, r: bool, s: bool, p1: bool, q1: bool, r1: bool, s1: bool)
    ensures var t, h := CcittLower(), Num(false, q, r, s);
            && |t[h]| == 16
            && t[h][Num(p1, q1, r1, s1)] == Xor(Sum4(CCITT_ROW, 4, true, q, r, s), Sum4(CCITT_ROW, 0, p1, q1, r1, s1))
  {
  }

  lemma CcittLiteral(b: Octet)
    ensures var t := CcittUpper() + CcittLower();
            |t[b as nat / 16]| == 16 && Table(CCITT, 0, b) == t[b as nat / 16][b as nat % 16]
  {
    hide CcittUpper, CcittLower, Table, Combined, Sum4, Xor, Has, Num;
    var q, r, s := Has(b, 0x40), Has(b, 0x20), Has(b, 0x10);
    var p1, q1, r1, s1 := Has(b, 0x08), Has(b, 0x04), Has(b, 0x02), Has(b, 0x01);
    Below16(b);
    if Has(b, 0x80) { CcittLowerEntry(q, r, s, p1, q1, r1, s1); } else { CcittUpperEntry(q, r, s, p1, q1, r1, s1); }
    CcittTable(b);
    EntryOf(CCITT, CcittUpper(), CcittLower(), CCITT_ROW, b);
  }

  // `crc_table_kermit`, `crc_table_mcrf4xx` and `crc_table_x25`.

  function KermitUpper(): (t: seq<seq<bv32>>)
    ensures |t| == 8
  {
    [
      [0x0000, 0x1189, 0x2312, 0x329B, 0x4624, 0x57AD, 0x6536, 0x74BF,
       0x8C48, 0x9DC1, 0xAF5A, 0xBED3, 0xCA6C, 0xDBE5, 0xE97E, 0xF8F7],
      [0x1081, 0x0108, 0x3393, 0x221A, 0x56A5, 0x472C, 0x75B7, 0x643E,
       0x9CC9, 0x8D40, 0xBFDB, 0xAE52, 0xDAED, 0xCB64, 0xF9FF, 0xE876],
      [0x2102, 0x308B, 0x0210, 0x1399, 0x6726, 0x76AF, 0x4434, 0x55BD,
       0xAD4A, 0xBCC3, 0x8E58, 0x9FD1, 0xEB6E, 0xFAE7, 0xC87C, 0xD9F5],
      [0x3183, 0x200A, 0x1291, 0x0318, 0x77A7, 0x662E, 0x54B5, 0x453C,
       0xBDCB, 0xAC42, 0x9ED9, 0x8F50, 0xFBEF, 0xEA66, 0xD8FD, 0xC974],
      [0x4204, 0x538D, 0x6116, 0x709F, 0x0420, 0x15A9, 0x2732, 0x36BB,
       0xCE4C, 0xDFC5, 0xED5E, 0xFCD7, 0x8868, 0x99E1, 0xAB7A, 0xBAF3],
      [0x5285, 0x430C, 0x7197, 0x601E, 0x14A1, 0x0528, 0x37B3, 0x263A,
       0xDECD, 0xCF44, 0xFDDF, 0xEC56, 0x98E9, 0x8960, 0xBBFB, 0xAA72],
      [0x6306, 0x728F, 0x4014, 0x519D, 0x2522, 0x34AB, 0x0630, 0x17B9,
       0xEF4E, 0xFEC7, 0xCC5C, 0xDDD5, 0xA96A, 0xB8E3, 0x8A78, 0x9BF1],
      [0x7387, 0x620E, 0x5095, 0x411C, 0x35A3, 0x242A, 0x16B1, 0x0738,
       0xFFCF, 0xEE46, 0xDCDD, 0xCD54, 0xB9EB, 0xA862, 0x9AF9, 0x8B70]
    ]
  }

  function KermitLower(): (t: seq<seq<bv32>>)
    ensures |t| == 8
  {
    [
      [0x8408, 0x9581, 0xA71A, 0xB693, 0xC22C, 0xD3A5, 0xE13E, 0xF0B7,
       0x0840, 0x19C9, 0x2B52, 0x3ADB, 0x4E64, 0x5FED, 0x6D76, 0x7CFF],
      [0x9489, 0x8500, 0xB79B, 0xA612, 0xD2AD, 0xC324, 0xF1BF, 0xE036,
       0x18C1, 0x0948, 0x3BD3, 0x2A5A, 0x5EE5, 0x4F6C, 0x7DF7, 0x6C7E],
      [0xA50A, 0xB483, 0x8618, 0x9791, 0xE32E, 0xF2A7, 0xC03C, 0xD1B5,
       0x2942, 0x38CB, 0x0A50, 0x1BD9, 0x6F66, 0x7EEF, 0x4C74, 0x5DFD],
      [0xB58B, 0xA402, 0x9699, 0x8710, 0xF3AF, 0xE226, 0xD0BD, 0xC134,
       0x39C3, 0x284A, 0x1AD1, 0x0B58, 0x7FE7, 0x6E6E, 0x5CF5, 0x4D7C],
      [0xC60C, 0xD785, 0xE51E, 0xF497, 0x8028, 0x91A1, 0xA33A, 0xB2B3,
       0x4A44, 0x5BCD, 0x6956, 0x78DF, 0x0C60, 0x1DE9, 0x2F72, 0x3EFB],
      [0xD68D, 0xC704, 0xF59F, 0xE416, 0x90A9, 0x8120, 0xB3BB, 0xA232,
       0x5AC5, 0x4B4C, 0x79D7, 0x685E, 0x1CE1, 0x0D68, 0x3FF3, 0x2E7A],
      [0xE70E, 0xF687, 0xC41C, 0xD595, 0xA12A, 0xB0A3, 0x8238, 0x93B1,
       0x6B46, 0x7ACF, 0x4854, 0x59DD, 0x2D62, 0x3CEB, 0x0E70, 0x1FF9],
      [0xF78F, 0xE606, 0xD49D, 0xC514, 0xB1AB, 0xA022, 0x92B9, 0x8330,
       0x7BC7, 0x6A4E, 0x58D5, 0x495C, 0x3DE3, 0x2C6A, 0x1EF1, 0x0F78]
    ]
  }

  lemma KermitUpperEntry(q: bool, r: bool, s: bool, p1: bool, q1: bool, r1: bool, s1: bool)
    ensures var t, h := KermitUpper(), Num(false, q, r, s);
            && |t[h]| == 16
            && t[h][Num(p1, q1, r1, s1)] == Xor(Sum4(KERMIT_ROW, 4, false, q, r, s), Sum4(KERMIT_ROW, 0, p1, q1, r1, s1))
  {
  }

  lemma KermitLowerEntry(q: bool, r: bool, s: bool, p1: bool, q1: bool, r1: bool, s1: bool)
    ensures var t, h := KermitLower(), Num(false, q, r, s);
            && |t[h]| == 16
            && t[h][Num(p1, q1, r1, s1)] == Xor(Sum4(KERMIT_ROW, 4, true, q, r, s), Sum4(KERMIT_ROW, 0, p1, q1, r1, s1))
  {
  }

  lemma KermitLiteral(b: Octet)
    ensures var t := KermitUpper() + KermitLower();
            |t[b as nat / 16]| == 16 && Table(KERMIT, 0, b) == t[b as nat / 16][b as nat % 16]
  {
    hide KermitUpper, KermitLower, Table, Combined, Sum4, Xor, Has, Num;
    var q, r, s := Has(b, 0x40), Has(b, 0x20), Has(b, 0x10);
    var p1, q1, r1, s1 := Has(b, 0x08), Has(b, 0x04), Has(b, 0x02), Has(b, 0x01);
    Below16(b);
    if Has(b, 0x80) { KermitLowerEntry(q, r, s, p1, q1, r1, s1); } else { KermitUpperEntry(q, r, s, p1, q1, r1, s1); }
    KermitTable(b);
    EntryOf(KERMIT, KermitUpper(), KermitLower(), KERMIT_ROW, b);
  }

  // `crc_table_modbus`.

  function ModbusUpper(): (t: seq<seq<bv32>>)
    ensures |t| == 8
  {
    [
      [0x0000, 0xC0C1, 0xC181, 0x0140, 0xC301, 0x03C0, 0x0280, 0xC241,
       0xC601, 0x06C0, 0x0780, 0xC741, 0x0500, 0xC5C1, 0xC481, 0x0440],
      [0xCC01, 0x0CC0, 0x0D80, 0xCD41, 0x0F00, 0xCFC1, 0xCE81, 0x0E40,
       0x0A00, 0xCAC1, 0xCB81, 0x0B40, 0xC901, 0x09C0, 0x0880, 0xC841],
      [0xD801, 0x18C0, 0x1980, 0xD941, 0x1B00, 0xDBC1, 0xDA81, 0x1A40,
       0x1E00, 0xDEC1, 0xDF81, 0x1F40, 0xDD01, 0x1DC0, 0x1C80, 0xDC41],
      [0x1400, 0xD4C1, 0xD581, 0x1540, 0xD701, 0x17C0, 0x1680, 0xD641,
       0xD201, 0x12C0, 0x1380, 0xD341, 0x1100, 0xD1C1, 0xD081, 0x1040],
      [0xF001, 0x30C0, 0x3180, 0xF141, 0x3300, 0xF3C1, 0xF281, 0x3240,
       0x3600, 0xF6C1, 0xF781, 0x3740, 0xF501, 0x35C0, 0x3480, 0xF441],
      [0x3C00, 0xFCC1, 0xFD81, 0x3D40, 0xFF01, 0x3FC0, 0x3E80, 0xFE41,
       0xFA01, 0x3AC0, 0x3B80, 0xFB41, 0x3900, 0xF9C1, 0xF881, 0x3840],
      [0x2800, 0xE8C1, 0xE981, 0x2940, 0xEB01, 0x2BC0, 0x2A80, 0xEA41,
       0xEE01, 0x2EC0, 0x2F80, 0xEF41, 0x2D00, 0xEDC1, 0xEC81, 0x2C40],
      [0xE401, 0x24C0, 0x2580, 0xE541, 0x2700, 0xE7C1, 0xE681, 0x2640,
       0x2200, 0xE2C1, 0xE381, 0x2340, 0xE101, 0x21C0, 0x2080, 0xE041]
    ]
  }

  function ModbusLower(): (t: seq<seq<bv32>>)
    ensures |t| == 8
  {
    [
      [0xA001, 0x60C0, 0x6180, 0xA141, 0x6300, 0xA3C1, 0xA281, 0x6240,
       0x6600, 0xA6C1, 0xA781, 0x6740, 0xA501, 0x65C0, 0x6480, 0xA441],
      [0x6C00, 0xACC1, 0xAD81, 0x6D40, 0xAF01, 0x6FC0, 0x6E80, 0xAE41,
       0xAA01, 0x6AC0, 0x6B80, 0xAB41, 0x6900, 0xA9C1, 0xA881, 0x6840],
      [0x7800, 0xB8C1, 0xB981, 0x7940, 0xBB01, 0x7BC0, 0x7A80, 0xBA41,
       0xBE01, 0x7EC0, 0x7F80, 0xBF41, 0x7D00, 0xBDC1, 0xBC81, 0x7C40],
      [0xB401, 0x74C0, 0x7580, 0xB541, 0x7700, 0xB7C1, 0xB681, 0x7640,
       0x7200, 0xB2C1, 0xB381, 0x7340, 0xB101, 0x71C0, 0x7080, 0xB041],
      [0x5000, 0x90C1, 0x9181, 0x5140, 0x9301, 0x53C0, 0x5280, 0x9241,
       0x9601, 0x56C0, 0x5780, 0x9741, 0x5500, 0x95C1, 0x9481, 0x5440],
      [0x9C01, 0x5CC0, 0x5D80, 0x9D41, 0x5F00, 0x9FC1, 0x9E81, 0x5E40,
       0x5A00, 0x9AC1, 0x9B81, 0x5B40, 0x9901, 0x59C0, 0x5880, 0x9841],
      [0x8801, 0x48C0, 0x4980, 0x8941, 0x4B00, 0x8BC1, 0x8A81, 0x4A40,
       0x4E00, 0x8EC1, 0x8F81, 0x4F40, 0x8D01, 0x4DC0, 0x4C80, 0x8C41],
      [0x4400, 0x84C1, 0x8581, 0x4540, 0x8701, 0x47C0, 0x4680, 0x8641,
       0x8201, 0x42C0, 0x4380, 0x8341, 0x4100, 0x81C1, 0x8081, 0x4040]
    ]
  }

  lemma ModbusUpperEntry(q: bool, r: bool, s: bool, p1: bool, q1: bool, r1: bool, s1: bool)
    ensures var t, h := ModbusUpper(), Num(false, q, r, s);
            && |t[h]| == 16
            && t[h][Num(p1, q1, r1, s1)] == Xor(Sum4(MODBUS_ROW, 4, false, q, r, s), Sum4(MODBUS_ROW, 0, p1, q1, r1, s1))
  {
  }

  lemma ModbusLowerEntry(q: bool, r: bool, s: bool, p1: bool, q1: bool, r1: bool, s1: bool)
    ensures var t, h := ModbusLower(), Num(false, q, r, s);
            && |t[h]| == 16
            && t[h][Num(p1, q1, r1, s1)] == Xor(Sum4(MODBUS_ROW, 4, true, q, r, s), Sum4(MODBUS_ROW, 0, p1, q1, r1, s1))
  {
  }

  lemma ModbusLiteral(b: Octet)
    ensures var t := ModbusUpper() + ModbusLower();
            |t[b as nat / 16]| == 16 && Table(MODBUS, 0, b) == t[b as nat / 16][b as nat % 16]
  {
    hide ModbusUpper, ModbusLower, Table, Combined, Sum4, Xor, Has, Num;
    var q, r, s := Has(b, 0x40), Has(b, 0x20), Has(b, 0x10);
    var p1, q1, r1, s1 := Has(b, 0x08), Has(b, 0x04), Has(b, 0x02), Has(b, 0x01);
    Below16(b);
    if Has(b, 0x80) { ModbusLowerEntry(q, r, s, p1, q1, r1, s1); } else { ModbusUpperEntry(q, r, s, p1, q1, r1, s1); }
    ModbusTable(b);
    EntryOf(MODBUS, ModbusUpper(), ModbusLower(), MODBUS_ROW, b);
  }

  // `crc_table_crc32` and the first quarter of `crc_table_crc32_big`.

  function Crc32Upper(): (t: seq<seq<bv32>>)
    ensures |t| == 8
  {
    [
      [0x0000_0000, 0x7707_3096, 0xEE0E_612C, 0x9909_51BA, 0x076D_C419, 0x706A_F48F, 0xE963_A535, 0x9E64_95A3,
       0x0EDB_8832, 0x79DC_B8A4, 0xE0D5_E91E, 0x97D2_D988, 0x09B6_4C2B, 0x7EB1_7CBD, 0xE7B8_2D07, 0x90BF_1D91],
      [0x1DB7_1064, 0x6AB0_20F2, 0xF3B9_7148, 0x84BE_41DE, 0x1ADA_D47D, 0x6DDD_E4EB, 0xF4D4_B551, 0x83D3_85C7,
       0x136C_9856, 0x646B_A8C0, 0xFD62_F97A, 0x8A65_C9EC, 0x1401_5C4F, 0x6306_6CD9, 0xFA0F_3D63, 0x8D08_0DF5],
      [0x3B6E_20C8, 0x4C69_105E, 0xD560_41E4, 0xA267_7172, 0x3C03_E4D1, 0x4B04_D447, 0xD20D_85FD, 0xA50A_B56B,
       0x35B5_A8FA, 0x42B2_986C, 0xDBBB_C9D6, 0xACBC_F940, 0x32D8_6CE3, 0x45DF_5C75, 0xDCD6_0DCF, 0xABD1_3D59],
      [0x26D9_30AC, 0x51DE_003A, 0xC8D7_5180, 0xBFD0_6116, 0x21B4_F4B5, 0x56B3_C423, 0xCFBA_9599, 0xB8BD_A50F,
       0x2802_B89E, 0x5F05_8808, 0xC60C_D9B2, 0xB10B_E924, 0x2F6F_7C87, 0x5868_4C11, 0xC161_1DAB, 0xB666_2D3D],
      [0x76DC_4190, 0x01DB_7106, 0x98D2_20BC, 0xEFD5_102A, 0x71B1_8589, 0x06B6_B51F, 0x9FBF_E4A5, 0xE8B8_D433,
       0x7807_C9A2, 0x0F00_F934, 0x9609_A88E, 0xE10E_9818, 0x7F6A_0DBB, 0x086D_3D2D, 0x9164_6C97, 0xE663_5C01],
      [0x6B6B_51F4, 0x1C6C_6162, 0x8565_30D8, 0xF262_004E, 0x6C06_95ED, 0x1B01_A57B, 0x8208_F4C1, 0xF50F_C457,
       0x65B0_D9C6, 0x12B7_E950, 0x8BBE_B8EA, 0xFCB9_887C, 0x62DD_1DDF, 0x15DA_2D49, 0x8CD3_7CF3, 0xFBD4_4C65],
      [0x4DB2_6158, 0x3AB5_51CE, 0xA3BC_0074, 0xD4BB_30E2, 0x4ADF_A541, 0x3DD8_95D7, 0xA4D1_C46D, 0xD3D6_F4FB,
       0x4369_E96A, 0x346E_D9FC, 0xAD67_8846, 0xDA60_B8D0, 0x4404_2D73, 0x3303_1DE5, 0xAA0A_4C5F, 0xDD0D_7CC9],
      [0x5005_713C, 0x2702_41AA, 0xBE0B_1010, 0xC90C_2086, 0x5768_B525, 0x206F_85B3, 0xB966_D409, 0xCE61_E49F,
       0x5EDE_F90E, 0x29D9_C998, 0xB0D0_9822, 0xC7D7_A8B4, 0x59B3_3D17, 0x2EB4_0D81, 0xB7BD_5C3B, 0xC0BA_6CAD]
    ]
  }

  function Crc32Lower(): (t: seq<seq<bv32>>)
    ensures |t| == 8
  {
    [
      [0xEDB8_8320, 0x9ABF_B3B6, 0x03B6_E20C, 0x74B1_D29A, 0xEAD5_4739, 0x9DD2_77AF, 0x04DB_2615, 0x73DC_1683,
       0xE363_0B12, 0x9464_3B84, 0x0D6D_6A3E, 0x7A6A_5AA8, 0xE40E_CF0B, 0x9309_FF9D, 0x0A00_AE27, 0x7D07_9EB1],
      [0xF00F_9344, 0x8708_A3D2, 0x1E01_F268, 0x6906_C2FE, 0xF762_575D, 0x8065_67CB, 0x196C_3671, 0x6E6B_06E7,
       0xFED4_1B76, 0x89D3_2BE0, 0x10DA_7A5A, 0x67DD_4ACC, 0xF9B9_DF6F, 0x8EBE_EFF9, 0x17B7_BE43, 0x60B0_8ED5],
      [0xD6D6_A3E8, 0xA1D1_937E, 0x38D8_C2C4, 0x4FDF_F252, 0xD1BB_67F1, 0xA6BC_5767, 0x3FB5_06DD, 0x48B2_364B,
       0xD80D_2BDA, 0xAF0A_1B4C, 0x3603_4AF6, 0x4104_7A60, 0xDF60_EFC3, 0xA867_DF55, 0x316E_8EEF, 0x4669_BE79],
      [0xCB61_B38C, 0xBC66_831A, 0x256F_D2A0, 0x5268_E236, 0xCC0C_7795, 0xBB0B_4703, 0x2202_16B9, 0x5505_262F,
       0xC5BA_3BBE, 0xB2BD_0B28, 0x2BB4_5A92, 0x5CB3_6A04, 0xC2D7_FFA7, 0xB5D0_CF31, 0x2CD9_9E8B, 0x5BDE_AE1D],
      [0x9B64_C2B0, 0xEC63_F226, 0x756A_A39C, 0x026D_930A, 0x9C09_06A9, 0xEB0E_363F, 0x7207_6785, 0x0500_5713,
       0x95BF_4A82, 0xE2B8_7A14, 0x7BB1_2BAE, 0x0CB6_1B38, 0x92D2_8E9B, 0xE5D5_BE0D, 0x7CDC_EFB7, 0x0BDB_DF21],
      [0x86D3_D2D4, 0xF1D4_E242, 0x68DD_B3F8, 0x1FDA_836E, 0x81BE_16CD, 0xF6B9_265B, 0x6FB0_77E1, 0x18B7_4777,
       0x8808_5AE6, 0xFF0F_6A70, 0x6606_3BCA, 0x1101_0B5C, 0x8F65_9EFF, 0xF862_AE69, 0x616B_FFD3, 0x166C_CF45],
      [0xA00A_E278, 0xD70D_D2EE, 0x4E04_8354, 0x3903_B3C2, 0xA767_2661, 0xD060_16F7, 0x4969_474D, 0x3E6E_77DB,
       0xAED1_6A4A, 0xD9D6_5ADC, 0x40DF_0B66, 0x37D8_3BF0, 0xA9BC_AE53, 0xDEBB_9EC5, 0x47B2_CF7F, 0x30B5_FFE9],
      [0xBDBD_F21C, 0xCABA_C28A, 0x53B3_9330, 0x24B4_A3A6, 0xBAD0_3605, 0xCDD7_0693, 0x54DE_5729, 0x23D9_67BF,
       0xB366_7A2E, 0xC461_4AB8, 0x5D68_1B02, 0x2A6F_2B94, 0xB40B_BE37, 0xC30C_8EA1, 0x5A05_DF1B, 0x2D02_EF8D]
    ]
  }

  lemma Crc32UpperEntry(q: bool, r: bool, s: bool, p1: bool, q1: bool, r1: bool, s1: bool)
    ensures var t, h := Crc32Upper(), Num(false, q, r, s);
            && |t[h]| == 16
            && t[h][Num(p1, q1, r1, s1)] == Xor(Sum4(CRC32_ROW, 4, false, q, r, s), Sum4(CRC32_ROW, 0, p1, q1, r1, s1))
  {
  }

  lemma Crc32LowerEntry(q: bool, r: bool, s: bool, p1: bool, q1: bool, r1: bool, s1: bool)
    ensures var t, h := Crc32Lower(), Num(false, q, r, s);
            && |t[h]| == 16
            && t[h][Num(p1, q1, r1, s1)] == Xor(Sum4(CRC32_ROW, 4, true, q, r, s), Sum4(CRC32_ROW, 0, p1, q1, r1, s1))
  {
  }

  lemma Crc32Literal(b: Octet)
    ensures var t := Crc32Upper() + Crc32Lower();
            |t[b as nat / 16]| == 16 && Table(CRC32, 0, b) == t[b as nat / 16][b as nat % 16]
  {
    hide Crc32Upper, Crc32Lower, Table, Combined, Sum4, Xor, Has, Num;
    var q, r, s := Has(b, 0x40), Has(b, 0x20), Has(b, 0x10);
    var p1, q1, r1, s1 := Has(b, 0x08), Has(b, 0x04), Has(b, 0x02), Has(b, 0x01);
    Below16(b);
    if Has(b, 0x80) { Crc32LowerEntry(q, r, s, p1, q1, r1, s1); } else { Crc32UpperEntry(q, r, s, p1, q1, r1, s1); }
    Crc32Table(b);
    EntryOf(CRC32, Crc32Upper(), Crc32Lower(), CRC32_ROW, b);
  }

  // `crc_table_cksum` and the first quarter of `crc_table_cksum_big`.

  function CksumUpper(): (t: seq<seq<bv32>>)
    ensures |t| == 8
  {
    [
      [0x0000_0000, 0xB71D_C104, 0x6E3B_8209, 0xD926_430D, 0xDC76_0413, 0x6B6B_C517, 0xB24D_861A, 0x0550_471E,
       0xB8ED_0826, 0x0FF0_C922, 0xD6D6_8A2F, 0x61CB_4B2B, 0x649B_0C35, 0xD386_CD31, 0x0AA0_8E3C, 0xBDBD_4F38],
      [0x70DB_114C, 0xC7C6_D048, 0x1EE0_9345, 0xA9FD_5241, 0xACAD_155F, 0x1BB0_D45B, 0xC296_9756, 0x758B_5652,
       0xC836_196A, 0x7F2B_D86E, 0xA60D_9B63, 0x1110_5A67, 0x1440_1D79, 0xA35D_DC7D, 0x7A7B_9F70, 0xCD66_5E74],
      [0xE0B6_2398, 0x57AB_E29C, 0x8E8D_A191, 0x3990_6095, 0x3CC0_278B, 0x8BDD_E68F, 0x52FB_A582, 0xE5E6_6486,
       0x585B_2BBE, 0xEF46_EABA, 0x3660_A9B7, 0x817D_68B3, 0x842D_2FAD, 0x3330_EEA9, 0xEA16_ADA4, 0x5D0B_6CA0],
      [0x906D_32D4, 0x2770_F3D0, 0xFE56_B0DD, 0x494B_71D9, 0x4C1B_36C7, 0xFB06_F7C3, 0x2220_B4CE, 0x953D_75CA,
       0x2880_3AF2, 0x9F9D_FBF6, 0x46BB_B8FB, 0xF1A6_79FF, 0xF4F6_3EE1, 0x43EB_FFE5, 0x9ACD_BCE8, 0x2DD0_7DEC],
      [0x7770_8634, 0xC06D_4730, 0x194B_043D, 0xAE56_C539, 0xAB06_8227, 0x1C1B_4323, 0xC53D_002E, 0x7220_C12A,
       0xCF9D_8E12, 0x7880_4F16, 0xA1A6_0C1B, 0x16BB_CD1F, 0x13EB_8A01, 0xA4F6_4B05, 0x7DD0_0808, 0xCACD_C90C],
      [0x07AB_9778, 0xB0B6_567C, 0x6990_1571, 0xDE8D_D475, 0xDBDD_936B, 0x6CC0_526F, 0xB5E6_1162, 0x02FB_D066,
       0xBF46_9F5E, 0x085B_5E5A, 0xD17D_1D57, 0x6660_DC53, 0x6330_9B4D, 0xD42D_5A49, 0x0D0B_1944, 0xBA16_D840],
      [0x97C6_A5AC, 0x20DB_64A8, 0xF9FD_27A5, 0x4EE0_E6A1, 0x4BB0_A1BF, 0xFCAD_60BB, 0x258B_23B6, 0x9296_E2B2,
       0x2F2B_AD8A, 0x9836_6C8E, 0x4110_2F83, 0xF60D_EE87, 0xF35D_A999, 0x4440_689D, 0x9D66_2B90, 0x2A7B_EA94],
      [0xE71D_B4E0, 0x5000_75E4, 0x8926_36E9, 0x3E3B_F7ED, 0x3B6B_B0F3, 0x8C76_71F7, 0x5550_32FA, 0xE24D_F3FE,
       0x5FF0_BCC6, 0xE8ED_7DC2, 0x31CB_3ECF, 0x86D6_FFCB, 0x8386_B8D5, 0x349B_79D1, 0xEDBD_3ADC, 0x5AA0_FBD8]
    ]
  }

  function CksumLower(): (t: seq<seq<bv32>>)
    ensures |t| == 8
  {
    [
      [0xEEE0_0C69, 0x59FD_CD6D, 0x80DB_8E60, 0x37C6_4F64, 0x3296_087A, 0x858B_C97E, 0x5CAD_8A73, 0xEBB0_4B77,
       0x560D_044F, 0xE110_C54B, 0x3836_8646, 0x8F2B_4742, 0x8A7B_005C, 0x3D66_C158, 0xE440_8255, 0x535D_4351],
      [0x9E3B_1D25, 0x2926_DC21, 0xF000_9F2C, 0x471D_5E28, 0x424D_1936, 0xF550_D832, 0x2C76_9B3F, 0x9B6B_5A3B,
       0x26D6_1503, 0x91CB_D407, 0x48ED_970A, 0xFFF0_560E, 0xFAA0_1110, 0x4DBD_D014, 0x949B_9319, 0x2386_521D],
      [0x0E56_2FF1, 0xB94B_EEF5, 0x606D_ADF8, 0xD770_6CFC, 0xD220_2BE2, 0x653D_EAE6, 0xBC1B_A9EB, 0x0B06_68EF,
       0xB6BB_27D7, 0x01A6_E6D3, 0xD880_A5DE, 0x6F9D_64DA, 0x6ACD_23C4, 0xDDD0_E2C0, 0x04F6_A1CD, 0xB3EB_60C9],
      [0x7E8D_3EBD, 0xC990_FFB9, 0x10B6_BCB4, 0xA7AB_7DB0, 0xA2FB_3AAE, 0x15E6_FBAA, 0xCCC0_B8A7, 0x7BDD_79A3,
       0xC660_369B, 0x717D_F79F, 0xA85B_B492, 0x1F46_7596, 0x1A16_3288, 0xAD0B_F38C, 0x742D_B081, 0xC330_7185],
      [0x9990_8A5D, 0x2E8D_4B59, 0xF7AB_0854, 0x40B6_C950, 0x45E6_8E4E, 0xF2FB_4F4A, 0x2BDD_0C47, 0x9CC0_CD43,
       0x217D_827B, 0x9660_437F, 0x4F46_0072, 0xF85B_C176, 0xFD0B_8668, 0x4A16_476C, 0x9330_0461, 0x242D_C565],
      [0xE94B_9B11, 0x5E56_5A15, 0x8770_1918, 0x306D_D81C, 0x353D_9F02, 0x8220_5E06, 0x5B06_1D0B, 0xEC1B_DC0F,
       0x51A6_9337, 0xE6BB_5233, 0x3F9D_113E, 0x8880_D03A, 0x8DD0_9724, 0x3ACD_5620, 0xE3EB_152D, 0x54F6_D429],
      [0x7926_A9C5, 0xCE3B_68C1, 0x171D_2BCC, 0xA000_EAC8, 0xA550_ADD6, 0x124D_6CD2, 0xCB6B_2FDF, 0x7C76_EEDB,
       0xC1CB_A1E3, 0x76D6_60E7, 0xAFF0_23EA, 0x18ED_E2EE, 0x1DBD_A5F0, 0xAAA0_64F4, 0x7386_27F9, 0xC49B_E6FD],
      [0x09FD_B889, 0xBEE0_798D, 0x67C6_3A80, 0xD0DB_FB84, 0xD58B_BC9A, 0x6296_7D9E, 0xBBB0_3E93, 0x0CAD_FF97,
       0xB110_B0AF, 0x060D_71AB, 0xDF2B_32A6, 0x6836_F3A2, 0x6D66_B4BC, 0xDA7B_75B8, 0x035D_36B5, 0xB440_F7B1]
    ]
  }

  lemma CksumUpperEntry(q: bool, r: bool, s: bool, p1: bool, q1: bool, r1: bool, s1: bool)
    ensures var t, h := CksumUpper(), Num(false, q, r, s);
            && |t[h]| == 16
            && t[h][Num(p1, q1, r1, s1)] == Xor(Sum4(CKSUM_ROW, 4, false, q, r, s), Sum4(CKSUM_ROW, 0, p1, q1, r1, s1))
  {
  }

  lemma CksumLowerEntry(q: bool, r: bool, s: bool, p1: bool, q1: bool, r1: bool, s1: bool)
    ensures var t, h := CksumLower(), Num(false, q, r, s);
            && |t[h]| == 16
            && t[h][Num(p1, q1, r1, s1)] == Xor(Sum4(CKSUM_ROW, 4, true, q, r, s), Sum4(CKSUM_ROW, 0, p1, q1, r1, s1))
  {
  }

  lemma CksumLiteral(b: Octet)
    ensures var t := CksumUpper() + CksumLower();
            |t[b as nat / 16]| == 16 && Table(CKSUM, 0, b) == t[b as nat / 16][b as nat % 16]
  {
    hide CksumUpper, CksumLower, Table, Combined, Sum4, Xor, Has, Num;
    var q, r, s := Has(b, 0x40), Has(b, 0x20), Has(b, 0x10);
    var p1, q1, r1, s1 := Has(b, 0x08), Has(b, 0x04), Has(b, 0x02), Has(b, 0x01);
    Below16(b);
    if Has(b, 0x80) { CksumLowerEntry(q, r, s, p1, q1, r1, s1); } else { CksumUpperEntry(q, r, s, p1, q1, r1, s1); }
    CksumTable(b);
    EntryOf(CKSUM, CksumUpper(), CksumLower(), CKSUM_ROW, b);
  }
}
