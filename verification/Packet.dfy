/** The command packet of the SDK (sdk_core/comm/sdk_protocol.cpp): what its two checks accept and what they catch. */
module Packet {
  import opened Words
  import opened Division
  import opened FastCRC
  import Slicing

  const SOF: Octet := 0xAA
  const VERSION: Octet := 0
  const PREAMBLE: nat := 24  // the length of the packet without its data
  const CHECKED: nat := 18   // the octets that the first check covers

  /** `CommPacket`, with its data in place of a pointer and a 16-bit length. */
  datatype CommPacket = CommPacket(
    isSdk: bool,
    version: Octet,
    seqNum: bv32,
    cmdId: bv32,
    cmdType: Octet,
    senderType: Octet,
    data: seq<Octet>)
  {
    predicate Valid() {
      cmdId < 0x1_0000 && |data| < 0x1_0000
    }
  }

  // Little-endian fields.

  function Low16(x: bv32): bv32 { x & 0xFFFF }

  function Put16(x: bv32): (o: seq<Octet>)
    ensures |o| == 2
  {
    [Low8(x), Low8(Shr8(x))]
  }

  function Put32(x: bv32): (o: seq<Octet>)
    ensures |o| == 4
  {
    [Low8(x), Low8(Shr8(x)), Low8(Shr8(Shr8(x))), Low8(Shr8(Shr8(Shr8(x))))]
  }

  function Get16(m: seq<Octet>, i: nat): bv32
    requires i + 2 <= |m|
  {
    Load(m[i], m[i + 1], 0, 0)
  }

  function Get32(m: seq<Octet>, i: nat): bv32
    requires i + 4 <= |m|
  {
    Load(m[i], m[i + 1], m[i + 2], m[i + 3])
  }

  lemma GetPut16(m: seq<Octet>, i: nat, x: bv32)
    requires i + 2 <= |m| && m[i..i + 2] == Put16(x) && x < 0x1_0000
    ensures Get16(m, i) == x
  {
    assert m[i] == m[i..i + 2][0] && m[i + 1] == m[i..i + 2][1];
    hide Load, Low8, Shr8;
    Loaded16(x);
  }

  lemma Loaded16(x: bv32)
    requires x < 0x1_0000
    ensures Load(Low8(x), Low8(Shr8(x)), 0, 0) == x
  {
  }

  lemma GetPut32(m: seq<Octet>, i: nat, x: bv32)
    requires i + 4 <= |m| && m[i..i + 4] == Put32(x)
    ensures Get32(m, i) == x
  {
    assert m[i] == m[i..i + 4][0] && m[i + 1] == m[i..i + 4][1] && m[i + 2] == m[i..i + 4][2] && m[i + 3] == m[i..i + 4][3];
    hide Load, Low8, Shr8;
    Loaded32(x);
  }

  lemma Loaded32(x: bv32)
    ensures Load(Low8(x), Low8(Shr8(x)), Low8(Shr8(Shr8(x))), Low8(Shr8(Shr8(Shr8(x))))) == x
  {
  }

  /** The number that the bits of an octet stand for, and the octet for a number. */
  function Number(o: Octet): (n: nat)
    ensures n < 0x100
  {
    (if Has(o, 0x01) then 1 else 0) + (if Has(o, 0x02) then 2 else 0) + (if Has(o, 0x04) then 4 else 0)
    + (if Has(o, 0x08) then 8 else 0) + (if Has(o, 0x10) then 16 else 0) + (if Has(o, 0x20) then 32 else 0)
    + (if Has(o, 0x40) then 64 else 0) + (if Has(o, 0x80) then 128 else 0)
  }

  function BitOctet(b0: bool, b1: bool, b2: bool, b3: bool, b4: bool, b5: bool, b6: bool, b7: bool): Octet {
    (if b0 then 0x01 else 0) | (if b1 then 0x02 else 0) | (if b2 then 0x04 else 0) | (if b3 then 0x08 else 0)
    | (if b4 then 0x10 else 0) | (if b5 then 0x20 else 0) | (if b6 then 0x40 else 0) | (if b7 then 0x80 else 0)
  }

  function OctetOf(n: nat): Octet
    requires n < 0x100
  {
    var n1 := n / 2;
    var n2 := n1 / 2;
    var n3 := n2 / 2;
    var n4 := n3 / 2;
    var n5 := n4 / 2;
    var n6 := n5 / 2;
    var n7 := n6 / 2;
    BitOctet(n % 2 == 1, n1 % 2 == 1, n2 % 2 == 1, n3 % 2 == 1, n4 % 2 == 1, n5 % 2 == 1, n6 % 2 == 1, n7 % 2 == 1)
  }

  lemma BitOctetBits(b0: bool, b1: bool, b2: bool, b3: bool, b4: bool, b5: bool, b6: bool, b7: bool)
    ensures var o := BitOctet(b0, b1, b2, b3, b4, b5, b6, b7);
            && Has(o, 0x01) == b0 && Has(o, 0x02) == b1 && Has(o, 0x04) == b2 && Has(o, 0x08) == b3
            && Has(o, 0x10) == b4 && Has(o, 0x20) == b5 && Has(o, 0x40) == b6 && Has(o, 0x80) == b7
  {
  }

  function Weight(bit: bool, w: nat): nat { if bit then w else 0 }

  lemma NumberOfBits(b0: bool, b1: bool, b2: bool, b3: bool, b4: bool, b5: bool, b6: bool, b7: bool)
    ensures Number(BitOctet(b0, b1, b2, b3, b4, b5, b6, b7)) ==
            Weight(b0, 1) + Weight(b1, 2) + Weight(b2, 4) + Weight(b3, 8) + Weight(b4, 16) + Weight(b5, 32)
                + Weight(b6, 64) + Weight(b7, 128)
  {
    hide Has, BitOctet;
    BitOctetBits(b0, b1, b2, b3, b4, b5, b6, b7);
  }

  lemma Halved(n: nat, w: nat)
    ensures w * n == 2 * w * (n / 2) + Weight(n % 2 == 1, w)
  {
    assert n == 2 * (n / 2) + n % 2;
    if n % 2 == 1 { assert w * n == w * (2 * (n / 2)) + w; } else { assert w * n == w * (2 * (n / 2)); }
  }

  lemma NumberOfOctet(n: nat)
    requires n < 0x100
    ensures Number(OctetOf(n)) == n
  {
    hide Number, BitOctet;
    var n1 := n / 2;
    var n2 := n1 / 2;
    var n3 := n2 / 2;
    var n4 := n3 / 2;
    var n5 := n4 / 2;
    var n6 := n5 / 2;
    var n7 := n6 / 2;
    NumberOfBits(n % 2 == 1, n1 % 2 == 1, n2 % 2 == 1, n3 % 2 == 1, n4 % 2 == 1, n5 % 2 == 1, n6 % 2 == 1, n7 % 2 == 1);
    Halved(n, 1); Halved(n1, 2); Halved(n2, 4); Halved(n3, 8);
    Halved(n4, 16); Halved(n5, 32); Halved(n6, 64); Halved(n7, 128);
    assert n7 / 2 == 0;
    hide Weight;
  }

  /** A count in the 16-bit length field. */
  function PutLength(n: nat): (o: seq<Octet>)
    ensures |o| == 2
  {
    [OctetOf(n % 0x100), OctetOf(n / 0x100 % 0x100)]
  }

  function GetLength(m: seq<Octet>): nat
    requires |m| >= PREAMBLE
  {
    Number(m[2]) + 0x100 * Number(m[3])
  }

  lemma LengthReads(m: seq<Octet>, n: nat)
    requires |m| >= PREAMBLE && m[2..4] == PutLength(n)
    ensures GetLength(m) == n % 0x1_0000
  {
    hide Number, OctetOf;
    assert m[2] == m[2..4][0] && m[3] == m[2..4][1];
    NumberOfOctet(n % 0x100);
    NumberOfOctet(n / 0x100 % 0x100);
  }

  /** The checksum of the data, which is zero when there is none. */
  function DataCheck(data: seq<Octet>): bv32 {
    if data == [] then 0 else Crc32Of(data)
  }

  function HeaderCheck(m: seq<Octet>): bv32
    requires |m| >= CHECKED
  {
    Crc(CCITT, 0xFFFF, m[..CHECKED])
  }

  /** `CheckPreamble` up to its first checksum. */
  predicate HeaderAccepted(m: seq<Octet>)
    requires |m| >= PREAMBLE
  {
    m[0] == SOF && m[1] == VERSION && GetLength(m) >= PREAMBLE && Get16(m, CHECKED) == HeaderCheck(m)
  }

  /** `CheckPreamble` for a packet that lies in memory as far as its header says. */
  predicate Accepted(m: seq<Octet>)
    requires |m| >= PREAMBLE && (HeaderAccepted(m) ==> GetLength(m) <= |m|)
  {
    HeaderAccepted(m) && Get32(m, 20) == DataCheck(m[PREAMBLE..GetLength(m)])
  }

  lemma LoadedOctets(b0: Octet, b1: Octet, b2: Octet, b3: Octet)
    ensures var x := Load(b0, b1, b2, b3);
            && b0 == x & 0xFF && b1 == (x >> 8) & 0xFF && b2 == (x >> 16) & 0xFF && b3 == x >> 24
            && (b2 == b3 == 0 ==> b1 == x >> 8)
  {
  }

  /** `ParsePacket`, for a packet that has been accepted. */
  function Parsed(m: seq<Octet>): (p: CommPacket)
    requires |m| >= PREAMBLE && PREAMBLE <= GetLength(m) <= |m|
    ensures m[4] == p.seqNum & 0xFF && m[5] == (p.seqNum >> 8) & 0xFF && m[6] == (p.seqNum >> 16) & 0xFF
    ensures m[7] == p.seqNum >> 24 && m[8] == p.cmdId & 0xFF && m[9] == p.cmdId >> 8
  {
    LoadedOctets(m[4], m[5], m[6], m[7]);
    LoadedOctets(m[8], m[9], 0, 0);
    CommPacket(true, m[1], Get32(m, 4), Get16(m, 8), m[10], m[11], m[PREAMBLE..GetLength(m)])
  }

  /** The octets that the first check covers; the last six are reserved. */
  function Header(p: CommPacket, reserved: seq<Octet>): seq<Octet> {
    [SOF, VERSION] + PutLength(PREAMBLE + |p.data|) + Put32(Low16(p.seqNum)) + Put16(p.cmdId)
        + [p.cmdType, p.senderType] + reserved
  }

  /** A packet as `Pack` writes it, with what was in the buffer in place of the reserved octets. */
  function Wire(p: CommPacket, reserved: seq<Octet>): seq<Octet> {
    var header := Header(p, reserved);
    header + Put16(Crc(CCITT, 0xFFFF, header)) + Put32(DataCheck(p.data)) + p.data
  }

  lemma FieldsAt(p: CommPacket, reserved: seq<Octet>, rest: seq<Octet>)
    requires |reserved| == 6
    ensures var m := Wire(p, reserved) + rest;
            && |m| >= PREAMBLE + |p.data|
            && m[0] == SOF && m[1] == VERSION && m[2..4] == PutLength(PREAMBLE + |p.data|)
            && m[4..8] == Put32(Low16(p.seqNum)) && m[8..10] == Put16(p.cmdId)
            && m[10] == p.cmdType && m[11] == p.senderType && m[..CHECKED] == Header(p, reserved)
            && m[CHECKED..20] == Put16(Crc(CCITT, 0xFFFF, Header(p, reserved)))
            && m[20..PREAMBLE] == Put32(DataCheck(p.data)) && m[PREAMBLE..PREAMBLE + |p.data|] == p.data
  {
    hide PutLength, Put32, Put16, Low16, Crc, DataCheck;
    HeaderAt(p, reserved);
    var header := Header(p, reserved);
    hide Header;
    var m := Wire(p, reserved) + rest;
    assert m[..CHECKED] == header;
    assert m[2..4] == m[..CHECKED][2..4] && m[4..8] == m[..CHECKED][4..8] && m[8..10] == m[..CHECKED][8..10];
  }

  lemma HeaderAt(p: CommPacket, reserved: seq<Octet>)
    requires |reserved| == 6
    ensures var m := Header(p, reserved);
            && |m| == CHECKED
            && m[0] == SOF && m[1] == VERSION && m[2..4] == PutLength(PREAMBLE + |p.data|)
            && m[4..8] == Put32(Low16(p.seqNum)) && m[8..10] == Put16(p.cmdId)
            && m[10] == p.cmdType && m[11] == p.senderType
  {
    hide PutLength, Put32, Put16, Low16;
  }

  /** The bits of an octet are those of a number below 256. */
  predicate Spells(o: Octet, n: nat) {
    && (o & 0x01 != 0 <==> n % 2 == 1) && (o & 0x02 != 0 <==> n / 2 % 2 == 1)
    && (o & 0x04 != 0 <==> n / 4 % 2 == 1) && (o & 0x08 != 0 <==> n / 8 % 2 == 1)
    && (o & 0x10 != 0 <==> n / 16 % 2 == 1) && (o & 0x20 != 0 <==> n / 32 % 2 == 1)
    && (o & 0x40 != 0 <==> n / 64 % 2 == 1) && (o & 0x80 != 0 <==> n / 128 % 2 == 1)
  }

  lemma OctetSpells(n: nat)
    requires n < 0x100
    ensures Spells(OctetOf(n), n)
  {
    hide BitOctet;
    var n1 := n / 2;
    var n2, n3, n4, n5, n6, n7 := n / 4, n / 8, n / 16, n / 32, n / 64, n / 128;
    assert n2 == n1 / 2 && n3 == n2 / 2 && n4 == n3 / 2 && n5 == n4 / 2 && n6 == n5 / 2 && n7 == n6 / 2;
    BitOctetBits(n % 2 == 1, n1 % 2 == 1, n2 % 2 == 1, n3 % 2 == 1, n4 % 2 == 1, n5 % 2 == 1, n6 % 2 == 1, n7 % 2 == 1);
  }

  lemma BinaryDigit(n: nat, bit: bool, rest: nat)
    requires n == (if bit then 1 else 0) + 2 * rest
    ensures (n % 2 == 1 <==> bit) && n / 2 == rest
  {
  }

  lemma NumberSpelled(o: Octet)
    ensures Spells(o, Number(o))
  {
    var b0, b1, b2, b3 := Has(o, 0x01), Has(o, 0x02), Has(o, 0x04), Has(o, 0x08);
    var b4, b5, b6, b7 := Has(o, 0x10), Has(o, 0x20), Has(o, 0x40), Has(o, 0x80);
    Binary(b0, b1, b2, b3, b4, b5, b6, b7);
    assert Number(o) == Weight(b0, 1) + Weight(b1, 2) + Weight(b2, 4) + Weight(b3, 8) + Weight(b4, 16) + Weight(b5, 32)
                        + Weight(b6, 64) + Weight(b7, 128);
    hide Number, Weight;
  }

  lemma FourDigits(n: nat, b0: bool, b1: bool, b2: bool, b3: bool, rest: nat)
    requires n == Weight(b0, 1) + Weight(b1, 2) + Weight(b2, 4) + Weight(b3, 8) + 16 * rest
    ensures (n % 2 == 1 <==> b0) && (n / 2 % 2 == 1 <==> b1) && (n / 4 % 2 == 1 <==> b2) && (n / 8 % 2 == 1 <==> b3)
    ensures n / 16 == rest
  {
    var n3 := Weight(b3, 1) + 2 * rest;
    var n2 := Weight(b2, 1) + 2 * n3;
    var n1 := Weight(b1, 1) + 2 * n2;
    BinaryDigit(n, b0, n1);
    BinaryDigit(n1, b1, n2);
    BinaryDigit(n2, b2, n3);
    BinaryDigit(n3, b3, rest);
  }

  lemma Binary(b0: bool, b1: bool, b2: bool, b3: bool, b4: bool, b5: bool, b6: bool, b7: bool)
    ensures var n := Weight(b0, 1) + Weight(b1, 2) + Weight(b2, 4) + Weight(b3, 8) + Weight(b4, 16) + Weight(b5, 32)
                     + Weight(b6, 64) + Weight(b7, 128);
            && (n % 2 == 1 <==> b0) && (n / 2 % 2 == 1 <==> b1) && (n / 4 % 2 == 1 <==> b2)
            && (n / 8 % 2 == 1 <==> b3) && (n / 16 % 2 == 1 <==> b4) && (n / 32 % 2 == 1 <==> b5)
            && (n / 64 % 2 == 1 <==> b6) && (n / 128 % 2 == 1 <==> b7)
  {
    var high := Weight(b4, 1) + Weight(b5, 2) + Weight(b6, 4) + Weight(b7, 8);
    var n := Weight(b0, 1) + Weight(b1, 2) + Weight(b2, 4) + Weight(b3, 8) + 16 * high;
    FourDigits(n, b0, b1, b2, b3, high);
    FourDigits(high, b4, b5, b6, b7, 0);
    assert n / 32 == n / 16 / 2 && n / 64 == n / 16 / 4 && n / 128 == n / 16 / 8;
  }

  /** The length field, low octet first. */
  lemma LengthOctets(m: seq<Octet>)
    requires |m| >= PREAMBLE
    ensures GetLength(m) < 0x1_0000
    ensures Spells(m[2], GetLength(m) % 256) && Spells(m[3], GetLength(m) / 256)
  {
    hide Number, Spells;
    NumberSpelled(m[2]);
    NumberSpelled(m[3]);
  }

  /** Every octet of a packed packet, low octets first. */
  lemma WireOctets(p: CommPacket, reserved: seq<Octet>)
    requires p.Valid() && |reserved| == 6
    ensures var m := Wire(p, reserved);
            var length := 24 + |p.data|;
            && |m| == length && m[0] == 0xAA && m[1] == 0
            && Spells(m[2], length % 256) && Spells(m[3], length / 256 % 256)
            && m[4] == p.seqNum & 0xFF && m[5] == (p.seqNum >> 8) & 0xFF && m[6] == 0 && m[7] == 0
            && m[8] == p.cmdId & 0xFF && m[9] == p.cmdId >> 8
            && m[10] == p.cmdType && m[11] == p.senderType && m[12..18] == reserved && m[24..] == p.data
    ensures var m := Wire(p, reserved);
            var check := Crc(CCITT, 0xFFFF, m[..18]);
            m[18] == check & 0xFF && m[19] == check >> 8
    ensures var m := Wire(p, reserved);
            var check := if p.data == [] then 0 else Crc32Of(p.data);
            m[20] == check & 0xFF && m[21] == (check >> 8) & 0xFF && m[22] == (check >> 16) & 0xFF && m[23] == check >> 24
  {
    hide PutLength, Put32, Put16, Low16, Crc, DataCheck, Wire, Header, Spells, Crc32Of;
    var m := Wire(p, reserved);
    FieldsAt(p, reserved, []);
    assert m + [] == m;
    WireLength(p, reserved);
    var length := PREAMBLE + |p.data|;
    assert m[2] == m[2..4][0] && m[3] == m[2..4][1];
    assert m[8] == m[8..10][0] && m[9] == m[8..10][1] && m[18] == m[18..20][0] && m[19] == m[18..20][1];
    assert m[4] == m[4..8][0] && m[5] == m[4..8][1] && m[6] == m[4..8][2] && m[7] == m[4..8][3];
    assert m[20] == m[20..24][0] && m[21] == m[20..24][1] && m[22] == m[20..24][2] && m[23] == m[20..24][3];
    LengthSpelled(length);
    CheckFits(m);
    Octets16(p.cmdId);
    Octets16(Crc(CCITT, 0xFFFF, m[..18]));
    Octets32(DataCheck(p.data));
    OctetsLow(p.seqNum);
    NoDataCheck(p.data);
  }

  lemma WireLength(p: CommPacket, reserved: seq<Octet>)
    requires |reserved| == 6
    ensures var m := Wire(p, reserved); |m| == PREAMBLE + |p.data| && m[PREAMBLE..] == p.data && m[12..18] == reserved
  {
    hide PutLength, Put32, Put16, Low16, Crc, DataCheck;
    var header := Header(p, reserved);
    assert |header| == CHECKED && header[12..18] == reserved;
    hide Header;
    assert Wire(p, reserved)[12..18] == header[12..18];
  }

  lemma NoDataCheck(data: seq<Octet>)
    ensures DataCheck(data) == if data == [] then 0 else Crc32Of(data)
  {
    hide Crc32Of;
  }

  lemma LengthSpelled(n: nat)
    ensures Spells(PutLength(n)[0], n % 256) && Spells(PutLength(n)[1], n / 256 % 256)
  {
    hide Spells, OctetOf;
    OctetSpells(n % 0x100);
    OctetSpells(n / 0x100 % 0x100);
  }

  lemma Octets16(x: bv32)
    requires x < 0x1_0000
    ensures Put16(x)[0] == x & 0xFF && Put16(x)[1] == x >> 8
  {
  }

  lemma Octets32(x: bv32)
    ensures Put32(x)[0] == x & 0xFF && Put32(x)[1] == (x >> 8) & 0xFF && Put32(x)[2] == (x >> 16) & 0xFF
    ensures Put32(x)[3] == x >> 24
  {
  }

  lemma OctetsLow(x: bv32)
    ensures var o := Put32(Low16(x)); o[0] == x & 0xFF && o[1] == (x >> 8) & 0xFF && o[2] == 0 && o[3] == 0
  {
  }

  /** What comes back when a packed packet is parsed: the version is fixed and the sequence number cut to 16 bits. */
  function Received(p: CommPacket): CommPacket {
    p.(isSdk := true, version := VERSION, seqNum := Low16(p.seqNum))
  }

  /**
   * A packed packet, with anything behind it, is accepted exactly when its length fits the length field, and
   * then it is parsed back as it was sent.
   */
  lemma PackParse(p: CommPacket, reserved: seq<Octet>, rest: seq<Octet>)
    requires p.Valid() && |reserved| == 6
    ensures var m := Wire(p, reserved) + rest;
            && (HeaderAccepted(m) ==> GetLength(m) <= |m|)
            && (Accepted(m) <==> PREAMBLE + |p.data| < 0x1_0000)
            && (Accepted(m) ==> Parsed(m) == Received(p))
  {
    hide PutLength, Put32, Put16, Crc, DataCheck, Wire, Header, GetLength, Get16, Get32;
    var m := Wire(p, reserved) + rest;
    FieldsAt(p, reserved, rest);
    LengthReads(m, PREAMBLE + |p.data|);
    CheckFits(m);
    GetPut16(m, CHECKED, HeaderCheck(m));
    GetPut32(m, 20, DataCheck(p.data));
    GetPut32(m, 4, Low16(p.seqNum));
    GetPut16(m, 8, p.cmdId);
  }

  lemma CheckFits(m: seq<Octet>)
    requires |m| >= CHECKED
    ensures HeaderCheck(m) < 0x1_0000
  {
    hide Divide;
    EnginesValid();
    DivideFits(CCITT, 0xFFFF, MessageBits(Forward16, m[..CHECKED]));
  }

  lemma DifferInside(m: seq<Octet>, n: seq<Octet>, i: nat, j: nat)
    requires |m| == |n| && i <= j <= |m| && m != n && m[..i] == n[..i] && m[j..] == n[j..]
    ensures m[i..j] != n[i..j]
  {
    assert m == m[..i] + m[i..j] + m[j..];
    assert n == n[..i] + n[i..j] + n[j..];
  }

  /** Damage inside two consecutive octets of an accepted header is noticed, before the damaged length is used. */
  lemma HeaderDamageNoticed(m: seq<Octet>, n: seq<Octet>, i: nat)
    requires |m| == |n| >= PREAMBLE && HeaderAccepted(m) && m != n
    requires i + 2 <= CHECKED && m[..i] == n[..i] && m[i + 2..] == n[i + 2..]
    ensures !HeaderAccepted(n)
  {
    hide Crc, GetLength;
    var a, b := m[..CHECKED], n[..CHECKED];
    assert a[..i] == m[..i] && b[..i] == n[..i];
    assert a[i + 2..] == m[i + 2..][..CHECKED - i - 2] && b[i + 2..] == n[i + 2..][..CHECKED - i - 2];
    assert m[CHECKED] == m[i + 2..][CHECKED - i - 2] && m[CHECKED + 1] == m[i + 2..][CHECKED - i - 1];
    assert n[CHECKED] == n[i + 2..][CHECKED - i - 2] && n[CHECKED + 1] == n[i + 2..][CHECKED - i - 1];
    assert m[CHECKED..] == m[i + 2..][CHECKED - i - 2..] && n[CHECKED..] == n[i + 2..][CHECKED - i - 2..];
    DifferInside(m, n, 0, CHECKED);
    CcittNotices(a, b, i);
  }

  /** Damage inside four consecutive octets of the data of an accepted packet is noticed. */
  lemma DataDamageNoticed(m: seq<Octet>, n: seq<Octet>, i: nat, k: nat)
    requires |m| == |n| >= PREAMBLE && (HeaderAccepted(m) ==> GetLength(m) <= |m|) && Accepted(m)
    requires k <= 4 && PREAMBLE <= i && i + k <= GetLength(m)
    requires m[..i] == n[..i] && m[i + k..] == n[i + k..] && m != n
    ensures (HeaderAccepted(n) ==> GetLength(n) <= |n|) && !Accepted(n)
  {
    hide Crc, Crc32Of, GetLength, Get32, Get16, HeaderCheck;
    SameHeader(m, n, i);
    var len := GetLength(m);
    DamageInside(m, n, i, k, len);
    Crc32Notices(m[PREAMBLE..len], n[PREAMBLE..len], i - PREAMBLE, k);
  }

  lemma SameHeader(m: seq<Octet>, n: seq<Octet>, i: nat)
    requires |m| == |n| && PREAMBLE <= i <= |m| && m[..i] == n[..i]
    ensures HeaderAccepted(n) == HeaderAccepted(m) && GetLength(n) == GetLength(m) && Get32(n, 20) == Get32(m, 20)
  {
    hide Number, Load, Crc;
    assert forall j :: 0 <= j < PREAMBLE ==> m[j] == m[..i][j] && n[j] == n[..i][j];
    assert m[..CHECKED] == m[..i][..CHECKED] && n[..CHECKED] == n[..i][..CHECKED];
  }

  lemma DamageInside(m: seq<Octet>, n: seq<Octet>, i: nat, k: nat, len: nat)
    requires |m| == |n| && PREAMBLE <= i && i + k <= len <= |m|
    requires m[..i] == n[..i] && m[i + k..] == n[i + k..] && m != n
    ensures var a, b, j := m[PREAMBLE..len], n[PREAMBLE..len], i - PREAMBLE;
            a != b && a[..j] == b[..j] && a[j + k..] == b[j + k..]
  {
    var a, b, j := m[PREAMBLE..len], n[PREAMBLE..len], i - PREAMBLE;
    assert a[..j] == m[..i][PREAMBLE..] && b[..j] == n[..i][PREAMBLE..];
    assert a[j + k..] == m[i + k..][..len - i - k] && b[j + k..] == n[i + k..][..len - i - k];
    assert m[..PREAMBLE] == m[..i][..PREAMBLE] && n[..PREAMBLE] == n[..i][..PREAMBLE];
    assert m[len..] == m[i + k..][len - i - k..] && n[len..] == n[i + k..][len - i - k..];
    DifferInside(m, n, PREAMBLE, len);
  }

  class SdkProtocol {
    const crc16: FastCRC16
    const crc32: FastCRC32

    constructor ()
      ensures fresh(crc16) && fresh(crc32)
    {
      crc16 := new FastCRC16();
      crc32 := new FastCRC32(true);
    }

    /** Copies octets into the buffer at `at`. */
    method Write(buf: array<Octet>, at: nat, octets: seq<Octet>)
      requires at + |octets| <= buf.Length
      modifies buf
      ensures buf[..at + |octets|] == old(buf[..at]) + octets
      ensures buf[at + |octets|..] == old(buf[at + |octets|..])
    {
      for k := 0 to |octets|
        invariant buf[..at] == old(buf[..at]) && buf[at..at + k] == octets[..k] && buf[at + k..] == old(buf[at + k..])
      {
        buf[at + k] := octets[k];
      }
      assert buf[..at + |octets|] == buf[..at] + buf[at..at + |octets|];
    }

    /** The fields before the reserved octets. */
    method WriteFields(buf: array<Octet>, p: CommPacket)
      requires PREAMBLE <= buf.Length
      modifies buf
      ensures buf[..12] == [SOF, VERSION] + PutLength(PREAMBLE + |p.data|) + Put32(Low16(p.seqNum))
                  + Put16(p.cmdId) + [p.cmdType, p.senderType]
      ensures buf[12..] == old(buf[12..])
    {
      hide OctetOf, Low8, Shr8, Low16, PutLength, Put32, Put16;
      ghost var m0 := buf[..];
      Write(buf, 0, [SOF, VERSION]);
      assert buf[2..] == m0[2..];
      Write(buf, 2, PutLength(PREAMBLE + |p.data|));
      assert buf[4..] == m0[4..];
      Write(buf, 4, Put32(Low16(p.seqNum)));
      assert buf[8..] == m0[8..];
      Write(buf, 8, Put16(p.cmdId));
      assert buf[10..] == m0[10..];
      Write(buf, 10, [p.cmdType, p.senderType]);
    }

    /** Checksums and data, after the header. */
    method WriteChecked(buf: array<Octet>, data: seq<Octet>, address: nat, dataAddress: nat)
      requires PREAMBLE + |data| <= buf.Length
      modifies buf, crc16, crc32
      ensures var header := old(buf[..CHECKED]);
              buf[..PREAMBLE + |data|] == header + Put16(Crc(CCITT, 0xFFFF, header)) + Put32(DataCheck(data)) + data
      ensures buf[PREAMBLE + |data|..] == old(buf[PREAMBLE + |data|..])
    {
      hide Crc, Crc32Of, Low8, Shr8, Put16, Put32;
      ghost var m0 := buf[..];
      var crc := crc16.Ccitt(buf[..CHECKED], address);
      Write(buf, CHECKED, Put16(crc));
      assert buf[20..] == m0[20..];
      var check := 0;
      if |data| > 0 { check := crc32.Crc32(data, dataAddress); }
      Write(buf, 20, Put32(check));
      assert buf[PREAMBLE..] == m0[PREAMBLE..];
      Write(buf, PREAMBLE, data);
      assert m0[PREAMBLE..][|data|..] == m0[PREAMBLE + |data|..];
    }

    /**
     * Packs into a buffer of `capacity` octets at `address`. The length field has 16 bits and wraps: what is
     * compared with the capacity is the wrapped length, and the caller must have room for all the data.
     */
    method Pack(buf: array<Octet>, capacity: nat, p: CommPacket, address: nat, dataAddress: nat)
      returns (result: int, len: nat)
      requires p.Valid() && PREAMBLE <= buf.Length
      requires (PREAMBLE + |p.data|) % 0x1_0000 <= capacity ==> PREAMBLE + |p.data| <= buf.Length
      modifies buf, crc16, crc32
      ensures result == if p.isSdk && (PREAMBLE + |p.data|) % 0x1_0000 <= capacity then 0 else -1
      ensures result == 0 ==> buf[..] == Wire(p, old(buf[12..CHECKED])) + old(buf[PREAMBLE + |p.data|..])
      ensures result == 0 ==> len == (PREAMBLE + |p.data|) % 0x1_0000
      ensures result != 0 ==> buf[4..] == old(buf[4..])
    {
      hide Crc, OctetOf, DataCheck, Low8, Shr8, Low16, PutLength, Put32, Put16;
      ghost var m0 := buf[..];
      if !p.isSdk { return -1, 0; }
      var length := (PREAMBLE + |p.data|) % 0x1_0000;
      if length > capacity {
        Write(buf, 0, [SOF, VERSION]);
        assert buf[2..] == m0[2..];
        Write(buf, 2, PutLength(PREAMBLE + |p.data|));
        assert m0[2..][2..] == m0[4..];
        return -1, 0;
      }
      WriteFields(buf, p);
      ghost var m1 := buf[..];
      assert m1[..CHECKED] == m1[..12] + m1[12..][..6] && m0[12..][..6] == m0[12..CHECKED];
      assert m1[PREAMBLE + |p.data|..] == m1[12..][12 + |p.data|..];
      assert m0[PREAMBLE + |p.data|..] == m0[12..][12 + |p.data|..];
      WriteChecked(buf, p.data, address, dataAddress);
      assert buf[..] == buf[..PREAMBLE + |p.data|] + buf[PREAMBLE + |p.data|..];
      return 0, length;
    }

    /** `size` octets have arrived; the packet is in memory as far as an accepted header says. */
    method CheckPreamble(m: seq<Octet>, size: nat, address: nat, dataAddress: nat) returns (ok: bool)
      requires size >= PREAMBLE ==> |m| >= PREAMBLE && (HeaderAccepted(m) ==> GetLength(m) <= |m|)
      modifies crc16, crc32
      ensures ok == (size >= PREAMBLE && Accepted(m))
    {
      hide Crc, Get16, Get32, GetLength, Crc32Of;
      if size < PREAMBLE { return false; }
      if m[0] != SOF { return false; }
      if m[1] != VERSION { return false; }
      if GetLength(m) < PREAMBLE { return false; }
      var header := crc16.Ccitt(m[..CHECKED], address);
      if Get16(m, CHECKED) != header { return false; }
      var check := 0;
      if GetLength(m) - PREAMBLE != 0 {
        check := crc32.Crc32(m[PREAMBLE..GetLength(m)], dataAddress);
      }
      return Get32(m, 20) == check;
    }
  }
}
