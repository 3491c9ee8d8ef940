/**
 * The literal tables (FastCRC_tables.h). Tables are additive, so an entry is the sum of the entries at the powers
 * of two in its index; those eight are computed by the division itself.
 */
module Tables {
  import opened Words
  import opened Division
  import opened Slicing
  import opened FastCRC

  /** The first table has the entries of `row` at the powers of two. */
  predicate IsRow(e: Engine, row: seq<bv32>) {
    && |row| == 8
    && Base(e, 0x01) == row[0] && Base(e, 0x02) == row[1] && Base(e, 0x04) == row[2] && Base(e, 0x08) == row[3]
    && Base(e, 0x10) == row[4] && Base(e, 0x20) == row[5] && Base(e, 0x40) == row[6] && Base(e, 0x80) == row[7]
  }

  lemma RowAt(e: Engine, row: seq<bv32>, i: nat)
    requires i < 8 && IsRow(e, row)
    ensures Base(e, Place(i)) == row[i]
  {
    hide Base;
  }

  lemma PlacesAt(i: nat)
    requires i < 8
    ensures PLACES[i] == Place(i)
  {
  }

  /** The sum of the entries of `row` that the low `n` bits of `b` select. */
  function Combined(row: seq<bv32>, b: Octet, n: nat): bv32
    requires n <= 8 == |row|
  {
    if n == 0 then 0 else Xor(Combined(row, b, n - 1), Feedback(row[n - 1], Has(b, Place(n - 1))))
  }

  const PLACES: seq<bv32> := [0x01, 0x02, 0x04, 0x08, 0x10, 0x20, 0x40, 0x80]

  lemma {:induction false} CombinedPlaces(b: Octet, n: nat)
    requires n <= 8
    ensures Combined(PLACES, b, n) < 0x100
    decreases n
  {
    if n > 0 {
      CombinedPlaces(b, n - 1);
      hide Has, Combined;
      SmallXor(Combined(PLACES, b, n - 1), Feedback(PLACES[n - 1], Has(b, Place(n - 1))));
      CombinedStep(PLACES, b, n);
    }
  }

  lemma CombinedStep(row: seq<bv32>, b: Octet, n: nat)
    requires 0 < n <= 8 == |row|
    ensures Combined(row, b, n) == Xor(Combined(row, b, n - 1), Feedback(row[n - 1], Has(b, Place(n - 1))))
  {
  }

  lemma SmallXor(a: bv32, b: bv32)
    requires a < 0x100 && b < 0x100
    ensures Xor(a, b) < 0x100
  {
  }

  lemma AllPlaces(b: Octet)
    ensures Combined(PLACES, b, 8) == b
  {
    var b0 := Feedback(0x01, Has(b, 0x01));
    var b1 := Xor(b0, Feedback(0x02, Has(b, 0x02)));
    var b2 := Xor(b1, Feedback(0x04, Has(b, 0x04)));
    var b3 := Xor(b2, Feedback(0x08, Has(b, 0x08)));
    var b4 := Xor(b3, Feedback(0x10, Has(b, 0x10)));
    var b5 := Xor(b4, Feedback(0x20, Has(b, 0x20)));
    var b6 := Xor(b5, Feedback(0x40, Has(b, 0x40)));
    var b7 := Xor(b6, Feedback(0x80, Has(b, 0x80)));
    BitsOf(b);
    hide Xor, Has, Feedback;
    XorLaws(b0, 0);
    CombinedStep(PLACES, b, 1); CombinedStep(PLACES, b, 2); CombinedStep(PLACES, b, 3); CombinedStep(PLACES, b, 4);
    CombinedStep(PLACES, b, 5); CombinedStep(PLACES, b, 6); CombinedStep(PLACES, b, 7); CombinedStep(PLACES, b, 8);
  }

  lemma BitsOf(b: Octet)
    ensures b == Xor(Xor(Xor(Xor(Xor(Xor(Xor(Feedback(0x01, Has(b, 0x01)), Feedback(0x02, Has(b, 0x02))),
                   Feedback(0x04, Has(b, 0x04))), Feedback(0x08, Has(b, 0x08))), Feedback(0x10, Has(b, 0x10))),
                   Feedback(0x20, Has(b, 0x20))), Feedback(0x40, Has(b, 0x40))), Feedback(0x80, Has(b, 0x80)))
  {
  }

  lemma BaseZero(e: Engine)
    requires Fits(e.kind, e.poly)
    ensures Base(e, 0) == 0
  {
    hide Base, Xor, Fits;
    XorLaws(0, 0);
    BaseXor(e, 0, 0);
    XorLaws(Base(e, 0), 0);
  }

  lemma {:induction false} BaseCombined(e: Engine, row: seq<bv32>, b: Octet, n: nat)
    requires Fits(e.kind, e.poly) && n <= 8 && IsRow(e, row)
    ensures |row| == 8 && Combined(PLACES, b, n) < 0x100
    ensures Base(e, Combined(PLACES, b, n)) == Combined(row, b, n)
    decreases n
  {
    hide Base, Xor, Fits, Has, Combined, Place, IsRow;
    assert |row| == 8 by { RowLength(e, row); }
    BaseZero(e);
    CombinedPlaces(b, n);
    if n > 0 {
      BaseCombined(e, row, b, n - 1);
      CombinedStep(PLACES, b, n);
      CombinedStep(row, b, n);
      RowAt(e, row, n - 1);
      PlacesAt(n - 1);
      BaseXor(e, Combined(PLACES, b, n - 1), Feedback(PLACES[n - 1], Has(b, Place(n - 1))));
    } else {
      CombinedNothing(PLACES, b);
      CombinedNothing(row, b);
    }
  }

  lemma RowLength(e: Engine, row: seq<bv32>)
    requires IsRow(e, row)
    ensures |row| == 8
  {
    hide Base;
  }

  lemma CombinedNothing(row: seq<bv32>, b: Octet)
    requires |row| == 8
    ensures Combined(row, b, 0) == 0
  {
  }

  /** Every entry of a first table, from its eight entries at powers of two. */
  lemma TableFromRow(e: Engine, row: seq<bv32>, b: Octet)
    requires Fits(e.kind, e.poly) && IsRow(e, row)
    ensures |row| == 8 && Table(e, 0, b) == Combined(row, b, 8)
  {
    hide Base, Combined, Fits, IsRow;
    BaseCombined(e, row, b, 8);
    AllPlaces(b);
  }

  /** A sum of indices selects the sum of the entries, in each of the four tables. */
  lemma {:induction false} TableXor(e: Engine, slice: nat, a: Octet, b: Octet)
    requires Fits(e.kind, e.poly)
    ensures Xor(a, b) < 0x100 && Table(e, slice, Xor(a, b)) == Xor(Table(e, slice, a), Table(e, slice, b))
    decreases slice
  {
    hide Base, Xor, Turned, Fits;
    BaseXor(e, a, b);
    if slice > 0 {
      TableXor(e, slice - 1, a, b);
      TurnedXor(e, Table(e, slice - 1, a), Table(e, slice - 1, b));
    }
  }

  // A single bit walks to the end of the register and turns into the polynomial there.

  predicate IsReflected(k: Kind) { k.Reflected16? || k.Reflected32? }

  /** Whether bit `i` of an octet is the next to be shifted out, and which bit comes into its place. */
  lemma PlaceMoves(k: Kind, i: nat)
    requires i < 8
    ensures var x := Lift(k, Place(i));
            if IsReflected(k) then
              if i == 0 then Moved(k, x) == 0 && Has(x, Out(k)) else Moved(k, x) == Lift(k, Place(i - 1)) && !Has(x, Out(k))
            else
              if i == 7 then Moved(k, x) == 0 && Has(x, Out(k)) else Moved(k, x) == Lift(k, Place(i + 1)) && !Has(x, Out(k))
  {
  }

  lemma {:induction false} PlaceWalks(e: Engine, i: nat, n: nat)
    requires i < 8 && n > if IsReflected(e.kind) then i else 7 - i
    ensures Steps(e, Lift(e.kind, Place(i)), n) == Steps(e, e.poly, n - 1 - if IsReflected(e.kind) then i else 7 - i)
    decreases n
  {
    hide Moved, Has, Out, Lift, Xor, Place;
    PlaceMoves(e.kind, i);
    XorLaws(e.poly, 0);
    XorLaws(Moved(e.kind, Lift(e.kind, Place(i))), 0);
    if IsReflected(e.kind) && i > 0 { PlaceWalks(e, i - 1, n - 1); }
    if !IsReflected(e.kind) && i < 7 { PlaceWalks(e, i + 1, n - 1); }
  }

  /** The powers of the polynomial variable modulo the polynomial, as the source's table has them at 1, 2, 4 and so on. */
  lemma RowOf(e: Engine, row: seq<bv32>)
    requires |row| == 8
    requires row[if IsReflected(e.kind) then 7 else 0] == Swap(e.kind, e.poly)
    requires forall j: nat :: 1 <= j < 8 ==>
               row[if IsReflected(e.kind) then 7 - j else j] == Swap(e.kind, Steps(e, e.poly, j))
    ensures IsRow(e, row)
  {
    hide Base, Swap, Steps;
    RowEntry(e, row, 0); RowEntry(e, row, 1); RowEntry(e, row, 2); RowEntry(e, row, 3);
    RowEntry(e, row, 4); RowEntry(e, row, 5); RowEntry(e, row, 6); RowEntry(e, row, 7);
  }

  lemma RowEntry(e: Engine, row: seq<bv32>, i: nat)
    requires i < 8 == |row|
    requires row[if IsReflected(e.kind) then 7 else 0] == Swap(e.kind, e.poly)
    requires forall j: nat :: 1 <= j < 8 ==>
               row[if IsReflected(e.kind) then 7 - j else j] == Swap(e.kind, Steps(e, e.poly, j))
    ensures Base(e, Place(i)) == row[i]
  {
    hide Swap, Shift, Lift, Steps, Place;
    PlaceWalks(e, i, 8);
    StepsNone(e, e.poly);
    var j := if IsReflected(e.kind) then 7 - i else i;
    assert j > 0 ==> row[if IsReflected(e.kind) then 7 - j else j] == Swap(e.kind, Steps(e, e.poly, j));
  }

  lemma StepsNone(e: Engine, x: bv32)
    ensures Steps(e, x, 0) == x
  {
  }

  lemma {:induction false} StepsLast(e: Engine, x: bv32, n: nat)
    ensures Steps(e, x, n + 1) == Shift(e, Steps(e, x, n))
    decreases n
  {
    hide Shift;
    if n > 0 { StepsLast(e, Shift(e, x), n - 1); }
  }

  // The entries of the source at indices 1, 2, 4 and so on.

  const CCITT_ROW: seq<bv32> := [0x2110, 0x4220, 0x8440, 0x0881, 0x3112, 0x6224, 0xC448, 0x8891]

  lemma CcittPowers(j: nat)
    requires 1 <= j < 8
    ensures CCITT_ROW[j] == Swap(CCITT.kind, Steps(CCITT, CCITT.poly, j))
  {
    assert Shift(CCITT, 0x1021) == 0x2042;
    assert Shift(CCITT, 0x2042) == 0x4084;
    assert Shift(CCITT, 0x4084) == 0x8108;
    assert Shift(CCITT, 0x8108) == 0x1231;
    assert Shift(CCITT, 0x1231) == 0x2462;
    assert Shift(CCITT, 0x2462) == 0x48C4;
    assert Shift(CCITT, 0x48C4) == 0x9188;
    hide Shift;
    assert Steps(CCITT, CCITT.poly, 0) == CCITT.poly;
    StepsLast(CCITT, CCITT.poly, 0);
    StepsLast(CCITT, CCITT.poly, 1);
    StepsLast(CCITT, CCITT.poly, 2);
    StepsLast(CCITT, CCITT.poly, 3);
    StepsLast(CCITT, CCITT.poly, 4);
    StepsLast(CCITT, CCITT.poly, 5);
    StepsLast(CCITT, CCITT.poly, 6);
    hide Steps;
  }

  /** `crc_table_ccitt` and `crc_table_xmodem`. */
  lemma CcittTable(b: Octet)
    ensures Table(CCITT, 0, b) == Combined(CCITT_ROW, b, 8)
  {
    EnginesValid();
    ValidFits(CCITT);
    assert CCITT_ROW[0] == Swap(CCITT.kind, CCITT.poly);
    hide Base, Table, Fits, Valid, Combined, Swap;
    forall j: nat | 1 <= j < 8 ensures CCITT_ROW[j] == Swap(CCITT.kind, Steps(CCITT, CCITT.poly, j)) {
      CcittPowers(j);
    }
    RowOf(CCITT, CCITT_ROW);
    TableFromRow(CCITT, CCITT_ROW, b);
  }

  const KERMIT_ROW: seq<bv32> := [0x1189, 0x2312, 0x4624, 0x8C48, 0x1081, 0x2102, 0x4204, 0x8408]

  lemma KermitPowers(j: nat)
    requires 1 <= j < 8
    ensures KERMIT_ROW[7 - j] == Swap(KERMIT.kind, Steps(KERMIT, KERMIT.poly, j))
  {
    assert Shift(KERMIT, 0x8408) == 0x4204;
    assert Shift(KERMIT, 0x4204) == 0x2102;
    assert Shift(KERMIT, 0x2102) == 0x1081;
    assert Shift(KERMIT, 0x1081) == 0x8C48;
    assert Shift(KERMIT, 0x8C48) == 0x4624;
    assert Shift(KERMIT, 0x4624) == 0x2312;
    assert Shift(KERMIT, 0x2312) == 0x1189;
    hide Shift;
    assert Steps(KERMIT, KERMIT.poly, 0) == KERMIT.poly;
    StepsLast(KERMIT, KERMIT.poly, 0);
    StepsLast(KERMIT, KERMIT.poly, 1);
    StepsLast(KERMIT, KERMIT.poly, 2);
    StepsLast(KERMIT, KERMIT.poly, 3);
    StepsLast(KERMIT, KERMIT.poly, 4);
    StepsLast(KERMIT, KERMIT.poly, 5);
    StepsLast(KERMIT, KERMIT.poly, 6);
    hide Steps;
  }

  /** `crc_table_kermit`, `crc_table_mcrf4xx` and `crc_table_x25`. */
  lemma KermitTable(b: Octet)
    ensures Table(KERMIT, 0, b) == Combined(KERMIT_ROW, b, 8)
  {
    EnginesValid();
    ValidFits(KERMIT);
    assert KERMIT_ROW[7] == Swap(KERMIT.kind, KERMIT.poly);
    hide Base, Table, Fits, Valid, Combined, Swap;
    forall j: nat | 1 <= j < 8 ensures KERMIT_ROW[7 - j] == Swap(KERMIT.kind, Steps(KERMIT, KERMIT.poly, j)) {
      KermitPowers(j);
    }
    RowOf(KERMIT, KERMIT_ROW);
    TableFromRow(KERMIT, KERMIT_ROW, b);
  }

  const MODBUS_ROW: seq<bv32> := [0xC0C1, 0xC181, 0xC301, 0xC601, 0xCC01, 0xD801, 0xF001, 0xA001]

  lemma ModbusPowers(j: nat)
    requires 1 <= j < 8
    ensures MODBUS_ROW[7 - j] == Swap(MODBUS.kind, Steps(MODBUS, MODBUS.poly, j))
  {
    assert Shift(MODBUS, 0xA001) == 0xF001;
    assert Shift(MODBUS, 0xF001) == 0xD801;
    assert Shift(MODBUS, 0xD801) == 0xCC01;
    assert Shift(MODBUS, 0xCC01) == 0xC601;
    assert Shift(MODBUS, 0xC601) == 0xC301;
    assert Shift(MODBUS, 0xC301) == 0xC181;
    assert Shift(MODBUS, 0xC181) == 0xC0C1;
    hide Shift;
    assert Steps(MODBUS, MODBUS.poly, 0) == MODBUS.poly;
    StepsLast(MODBUS, MODBUS.poly, 0);
    StepsLast(MODBUS, MODBUS.poly, 1);
    StepsLast(MODBUS, MODBUS.poly, 2);
    StepsLast(MODBUS, MODBUS.poly, 3);
    StepsLast(MODBUS, MODBUS.poly, 4);
    StepsLast(MODBUS, MODBUS.poly, 5);
    StepsLast(MODBUS, MODBUS.poly, 6);
    hide Steps;
  }

  /** `crc_table_modbus`. */
  lemma ModbusTable(b: Octet)
    ensures Table(MODBUS, 0, b) == Combined(MODBUS_ROW, b, 8)
  {
    EnginesValid();
    ValidFits(MODBUS);
    assert MODBUS_ROW[7] == Swap(MODBUS.kind, MODBUS.poly);
    hide Base, Table, Fits, Valid, Combined, Swap;
    forall j: nat | 1 <= j < 8 ensures MODBUS_ROW[7 - j] == Swap(MODBUS.kind, Steps(MODBUS, MODBUS.poly, j)) {
      ModbusPowers(j);
    }
    RowOf(MODBUS, MODBUS_ROW);
    TableFromRow(MODBUS, MODBUS_ROW, b);
  }

  const CRC32_ROW: seq<bv32> := [0x7707_3096, 0xEE0E_612C, 0x076D_C419, 0x0EDB_8832,
                                 0x1DB7_1064, 0x3B6E_20C8, 0x76DC_4190, 0xEDB8_8320]

  lemma Crc32Powers(j: nat)
    requires 1 <= j < 8
    ensures CRC32_ROW[7 - j] == Swap(CRC32.kind, Steps(CRC32, CRC32.poly, j))
  {
    assert Shift(CRC32, 0xEDB8_8320) == 0x76DC_4190;
    assert Shift(CRC32, 0x76DC_4190) == 0x3B6E_20C8;
    assert Shift(CRC32, 0x3B6E_20C8) == 0x1DB7_1064;
    assert Shift(CRC32, 0x1DB7_1064) == 0x0EDB_8832;
    assert Shift(CRC32, 0x0EDB_8832) == 0x076D_C419;
    assert Shift(CRC32, 0x076D_C419) == 0xEE0E_612C;
    assert Shift(CRC32, 0xEE0E_612C) == 0x7707_3096;
    hide Shift;
    assert Steps(CRC32, CRC32.poly, 0) == CRC32.poly;
    StepsLast(CRC32, CRC32.poly, 0);
    StepsLast(CRC32, CRC32.poly, 1);
    StepsLast(CRC32, CRC32.poly, 2);
    StepsLast(CRC32, CRC32.poly, 3);
    StepsLast(CRC32, CRC32.poly, 4);
    StepsLast(CRC32, CRC32.poly, 5);
    StepsLast(CRC32, CRC32.poly, 6);
    hide Steps;
  }

  /** `crc_table_crc32` and the first quarter of `crc_table_crc32_big`. */
  lemma Crc32Table(b: Octet)
    ensures Table(CRC32, 0, b) == Combined(CRC32_ROW, b, 8)
  {
    EnginesValid();
    ValidFits(CRC32);
    assert CRC32_ROW[7] == Swap(CRC32.kind, CRC32.poly);
    hide Base, Table, Fits, Valid, Combined, Swap;
    forall j: nat | 1 <= j < 8 ensures CRC32_ROW[7 - j] == Swap(CRC32.kind, Steps(CRC32, CRC32.poly, j)) {
      Crc32Powers(j);
    }
    RowOf(CRC32, CRC32_ROW);
    TableFromRow(CRC32, CRC32_ROW, b);
  }

  const CKSUM_ROW: seq<bv32> := [0xB71D_C104, 0x6E3B_8209, 0xDC76_0413, 0xB8ED_0826,
                                 0x70DB_114C, 0xE0B6_2398, 0x7770_8634, 0xEEE0_0C69]

  lemma CksumPowers(j: nat)
    requires 1 <= j < 8
    ensures CKSUM_ROW[j] == Swap(CKSUM.kind, Steps(CKSUM, CKSUM.poly, j))
  {
    assert Shift(CKSUM, 0x04C1_1DB7) == 0x0982_3B6E;
    assert Shift(CKSUM, 0x0982_3B6E) == 0x1304_76DC;
    assert Shift(CKSUM, 0x1304_76DC) == 0x2608_EDB8;
    assert Shift(CKSUM, 0x2608_EDB8) == 0x4C11_DB70;
    assert Shift(CKSUM, 0x4C11_DB70) == 0x9823_B6E0;
    assert Shift(CKSUM, 0x9823_B6E0) == 0x3486_7077;
    assert Shift(CKSUM, 0x3486_7077) == 0x690C_E0EE;
    hide Shift;
    assert Steps(CKSUM, CKSUM.poly, 0) == CKSUM.poly;
    StepsLast(CKSUM, CKSUM.poly, 0);
    StepsLast(CKSUM, CKSUM.poly, 1);
    StepsLast(CKSUM, CKSUM.poly, 2);
    StepsLast(CKSUM, CKSUM.poly, 3);
    StepsLast(CKSUM, CKSUM.poly, 4);
    StepsLast(CKSUM, CKSUM.poly, 5);
    StepsLast(CKSUM, CKSUM.poly, 6);
    hide Steps;
  }

  /** `crc_table_cksum` and the first quarter of `crc_table_cksum_big`. */
  lemma CksumTable(b: Octet)
    ensures Table(CKSUM, 0, b) == Combined(CKSUM_ROW, b, 8)
  {
    EnginesValid();
    ValidFits(CKSUM);
    assert CKSUM_ROW[0] == Swap(CKSUM.kind, CKSUM.poly);
    hide Base, Table, Fits, Valid, Combined, Swap;
    forall j: nat | 1 <= j < 8 ensures CKSUM_ROW[j] == Swap(CKSUM.kind, Steps(CKSUM, CKSUM.poly, j)) {
      CksumPowers(j);
    }
    RowOf(CKSUM, CKSUM_ROW);
    TableFromRow(CKSUM, CKSUM_ROW, b);
  }
}
