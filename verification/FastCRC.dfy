/** `FastCRC16` and `FastCRC32` (FastCRCsw.cpp), and what their results are worth. */
module FastCRC {
  import opened Words
  import opened Division
  import opened Slicing

  const CCITT: Engine := Engine(Forward16, 0x1021)
  const XMODEM: Engine := Engine(Forward16, 0x1021)
  const MCRF4XX: Engine := Engine(Reflected16, 0x8408)
  const KERMIT: Engine := Engine(Reflected16, 0x8408)
  const SDLC: Engine := Engine(Reflected16, 0x8408)
  const MODBUS: Engine := Engine(Reflected16, 0xA001)
  const CRC32: Engine := Engine(Reflected32, 0xEDB8_8320)
  const CKSUM: Engine := Engine(Forward32, 0x04C1_1DB7)

  /** `crc_n4`: one word through four tables of 16-bit entries. The register is cut to 16 bits before it is split. */
  method CrcN4(e: Engine, crc0: bv32, data: bv32) returns (crc: bv32)
    requires (e.kind.Reflected16? || e.kind.Forward16?) && Fits(e.kind, e.poly) && Fits(e.kind, crc0)
    ensures crc == Turns(e, Xor(crc0, data), 4)
  {
    hide Table, Xor, Low8, Shr8, And, Turns;
    crc := And(Xor(crc0, data), 0xFFFF);
    LowHalf(crc0, data);
    SlicedIsTurns(e, Xor(crc0, data));
    crc := Xor(Xor(Xor(Table(e, 3, Low8(crc)), Table(e, 2, Low8(Shr8(crc)))), Table(e, 1, Low8(Shr8(Shr8(data))))),
               Table(e, 0, Low8(Shr8(Shr8(Shr8(data))))));
  }

  /** A 16-bit register only touches the lower half of the word. */
  lemma LowHalf(crc: bv32, data: bv32)
    requires crc < 0x1_0000
    ensures var x, y := Xor(crc, data), And(Xor(crc, data), 0xFFFF);
            && Low8(y) == Low8(x) && Low8(Shr8(y)) == Low8(Shr8(x))
            && Low8(Shr8(Shr8(data))) == Low8(Shr8(Shr8(x)))
            && Low8(Shr8(Shr8(Shr8(data)))) == Low8(Shr8(Shr8(Shr8(x))))
  {
    LowHalfLow(crc ^ data);
    LowHalfHigh(crc, data);
  }

  lemma LowHalfLow(x: bv32)
    ensures Low8(And(x, 0xFFFF)) == Low8(x) && Low8(Shr8(And(x, 0xFFFF))) == Low8(Shr8(x))
  {
  }

  lemma LowHalfHigh(crc: bv32, data: bv32)
    requires crc < 0x1_0000
    ensures Low8(Shr8(Shr8(data))) == Low8(Shr8(Shr8(Xor(crc, data))))
    ensures Low8(Shr8(Shr8(Shr8(data)))) == Low8(Shr8(Shr8(Shr8(Xor(crc, data)))))
  {
  }

  /** `crc_n4d`: one word through four tables of 32-bit entries. */
  method CrcN4d(e: Engine, crc0: bv32, data: bv32) returns (crc: bv32)
    requires Fits(e.kind, e.poly)
    ensures crc == Turns(e, Xor(crc0, data), 4)
  {
    hide Table, Xor, Low8, Shr8, Turns;
    crc := Xor(crc0, data);
    SlicedIsTurns(e, crc);
    crc := Xor(Xor(Xor(Table(e, 3, Low8(crc)), Table(e, 2, Low8(Shr8(crc)))), Table(e, 1, Low8(Shr8(Shr8(crc))))),
               Table(e, 0, Low8(Shr8(Shr8(Shr8(crc))))));
  }

  /** `crcsm_n4d`: the same through the first table alone. */
  method CrcsmN4d(e: Engine, crc0: bv32, data: bv32) returns (crc: bv32)
    ensures crc == Turns(e, Xor(crc0, data), 4)
  {
    hide Base, Xor, Low8, Shr8;
    crc := Xor(crc0, data);
    ghost var x := crc;
    for i := 0 to 4
      invariant crc == Turns(e, x, i)
    {
      crc := Xor(Shr8(crc), Table(e, 0, Low8(crc)));
    }
  }

  /** One octet through the first table, as in the first and last loop of every update. */
  method CrcOctet(e: Engine, crc0: bv32, b: Octet) returns (crc: bv32)
    ensures crc == Turned(e, Xor(crc0, b))
  {
    OctetIndex(crc0, b);
    hide Xor, Low8, Shr8, Base;
    crc := Xor(Shr8(crc0), Table(e, 0, Xor(Low8(crc0), b)));
  }

  lemma OctetIndex(crc: bv32, b: Octet)
    ensures Xor(Low8(crc), b) < 0x100
    ensures Low8(Xor(crc, b)) == Xor(Low8(crc), b) && Shr8(Xor(crc, b)) == Shr8(crc)
  {
    OctetLow(b);
    hide Xor, Low8, Shr8;
    Low8Xor(crc, b);
    OctetShiftsXor(crc, b);
    XorLaws(Shr8(crc), 0);
  }

  /** How the words of the middle phase are taken. */
  datatype Kernel = Halfwords | BigTables | SmallTable

  /** Sixteen octets, as four words. */
  method CrcBlock(kernel: Kernel, e: Engine, crc0: bv32, data: seq<Octet>, at: nat) returns (crc: bv32)
    requires Fits(e.kind, e.poly) && at + 16 <= |data|
    requires kernel.Halfwords? ==> (e.kind.Reflected16? || e.kind.Forward16?) && Fits(e.kind, crc0)
    ensures crc == Fed(e, crc0, data[at..at + 16])
  {
    hide Turns, Fed, Load, Fits, Xor;
    crc := crc0;
    assert data[at..at] == [];
    FedNothing(e, crc0);
    for w := 0 to 4
      invariant crc == Fed(e, crc0, data[at..at + 4 * w])
      invariant kernel.Halfwords? ==> Fits(e.kind, crc)
    {
      var i := at + 4 * w;
      var word := Load(data[i], data[i + 1], data[i + 2], data[i + 3]);
      LoadedIsFed(e, crc, data[i], data[i + 1], data[i + 2], data[i + 3]);
      assert data[at..i] + [data[i], data[i + 1], data[i + 2], data[i + 3]] == data[at..i + 4];
      FedAppend(e, crc0, data[at..i], [data[i], data[i + 1], data[i + 2], data[i + 3]]);
      match kernel {
        case Halfwords => FedFits(e, crc0, data[at..i + 4]); crc := CrcN4(e, crc, word);
        case BigTables => crc := CrcN4d(e, crc, word);
        case SmallTable => crc := CrcsmN4d(e, crc, word);
      }
    }
  }

  lemma FedFits(e: Engine, kept: bv32, data: seq<Octet>)
    requires Fits(e.kind, e.poly) && Fits(e.kind, kept)
    ensures Fits(e.kind, Fed(e, kept, data))
    ensures Fed(e, kept, data) == Swap(e.kind, Crc(e, Swap(e.kind, kept), data))
  {
    hide Fits, Swap, Fed, Divide;
    var reg := Swap(e.kind, kept);
    SwapSwap(e.kind, kept);
    FedDivides(e, reg, data);
    DivideFits(e, reg, MessageBits(e.kind, data));
    SwapSwap(e.kind, Crc(e, reg, data));
  }

  /**
   * The body shared by all updates: octets up to a multiple of four in memory, blocks of sixteen, and the rest.
   * Whatever the address and the length, the kept register goes through the division of the whole buffer.
   */
  method Update(kernel: Kernel, e: Engine, seed: bv32, data: seq<Octet>, address: nat) returns (crc: bv32)
    requires Fits(e.kind, e.poly) && Fits(e.kind, seed)
    requires kernel.Halfwords? ==> e.kind.Reflected16? || e.kind.Forward16?
    ensures Fits(e.kind, crc)
    ensures Swap(e.kind, crc) == Crc(e, Swap(e.kind, seed), data)
  {
    hide Fed, Fits, Turned, Xor, Swap, Crc;
    crc := seed;
    var i := 0;
    assert data[..0] == [];
    FedNothing(e, seed);
    while (address + i) % 4 != 0 && i < |data|
      invariant i <= |data| && crc == Fed(e, seed, data[..i])
      decreases |data| - i
    {
      FedNext(e, seed, data, i);
      crc := CrcOctet(e, crc, data[i]);
      i := i + 1;
    }
    while |data| - i >= 16
      invariant i <= |data| && crc == Fed(e, seed, data[..i])
      decreases |data| - i
    {
      FedFits(e, seed, data[..i]);
      crc := CrcBlock(kernel, e, crc, data, i);
      FedAppend(e, seed, data[..i], data[i..i + 16]);
      assert data[..i] + data[i..i + 16] == data[..i + 16];
      i := i + 16;
    }
    while i < |data|
      invariant i <= |data| && crc == Fed(e, seed, data[..i])
    {
      FedNext(e, seed, data, i);
      crc := CrcOctet(e, crc, data[i]);
      i := i + 1;
    }
    assert data[..i] == data;
    FedFits(e, seed, data);
    Back(e, Swap(e.kind, seed), seed, data);
  }

  lemma Back(e: Engine, reg: bv32, seed: bv32, data: seq<Octet>)
    requires Fits(e.kind, e.poly) && Fits(e.kind, seed) && reg == Swap(e.kind, seed)
    ensures Fits(e.kind, reg) && Fits(e.kind, Crc(e, reg, data))
    ensures Swap(e.kind, Swap(e.kind, Crc(e, reg, data))) == Crc(e, reg, data)
  {
    hide Fits, Swap, Divide;
    SwapSwap(e.kind, seed);
    DivideFits(e, reg, MessageBits(e.kind, data));
    SwapSwap(e.kind, Crc(e, reg, data));
  }

  lemma FedNext(e: Engine, seed: bv32, data: seq<Octet>, i: nat)
    requires i < |data|
    ensures Fed(e, seed, data[..i + 1]) == Turned(e, Xor(Fed(e, seed, data[..i]), data[i]))
  {
    hide Fed, Turned, Xor;
    assert data[..i] + [data[i]] == data[..i + 1];
    FedAppend(e, seed, data[..i], [data[i]]);
    assert [data[i]] + [] == [data[i]];
    FedOne(e, Fed(e, seed, data[..i]), data[i], []);
    FedNothing(e, Turned(e, Xor(Fed(e, seed, data[..i]), data[i])));
  }

  lemma EnginesValid()
    ensures Valid(CCITT) && Valid(XMODEM) && Valid(MCRF4XX) && Valid(KERMIT) && Valid(SDLC) && Valid(MODBUS)
    ensures Valid(CRC32) && Valid(CKSUM)
  {
  }

  class FastCRC16 {
    /** The register as it is kept: octets in reverse order for `ccitt` and `xmodem`. */
    var seed: bv32

    constructor ()
      ensures seed < 0x1_0000
    {
      seed := 0;
    }

    /** The register that a check of kind `k` has reached. */
    function Register(k: Kind): bv32 reads this { Swap(k, seed) }

    method CcittUpd(data: seq<Octet>, address: nat) returns (crc: bv32)
      requires seed < 0x1_0000
      modifies this
      ensures seed < 0x1_0000 && Register(Forward16) == Crc(CCITT, old(Register(Forward16)), data)
      ensures crc == Register(Forward16)
    {
      crc := Update(Halfwords, CCITT, seed, data, address);
      seed := crc;
      crc := Rev16(crc);
    }

    method Ccitt(data: seq<Octet>, address: nat) returns (crc: bv32)
      modifies this
      ensures seed < 0x1_0000 && Register(Forward16) == crc == Crc(CCITT, 0xFFFF, data)
    {
      seed := 0xFFFF;
      assert Rev16(0xFFFF) == 0xFFFF;
      crc := CcittUpd(data, address);
    }

    method Mcrf4xxUpd(data: seq<Octet>, address: nat) returns (crc: bv32)
      requires seed < 0x1_0000
      modifies this
      ensures seed < 0x1_0000 && Register(Reflected16) == Crc(MCRF4XX, old(Register(Reflected16)), data)
      ensures crc == Register(Reflected16)
    {
      crc := Update(Halfwords, MCRF4XX, seed, data, address);
      seed := crc;
    }

    /** The seed is 0, although the comment beside it says 0xffff. */
    method Mcrf4xx(data: seq<Octet>, address: nat) returns (crc: bv32)
      modifies this
      ensures seed < 0x1_0000 && Register(Reflected16) == crc == Crc(MCRF4XX, 0, data)
    {
      seed := 0;
      crc := Mcrf4xxUpd(data, address);
    }

    method ModbusUpd(data: seq<Octet>, address: nat) returns (crc: bv32)
      requires seed < 0x1_0000
      modifies this
      ensures seed < 0x1_0000 && Register(Reflected16) == Crc(MODBUS, old(Register(Reflected16)), data)
      ensures crc == Register(Reflected16)
    {
      crc := Update(Halfwords, MODBUS, seed, data, address);
      seed := crc;
    }

    method Modbus(data: seq<Octet>, address: nat) returns (crc: bv32)
      modifies this
      ensures seed < 0x1_0000 && Register(Reflected16) == crc == Crc(MODBUS, 0xFFFF, data)
    {
      seed := 0xFFFF;
      crc := ModbusUpd(data, address);
    }

    method KermitUpd(data: seq<Octet>, address: nat) returns (crc: bv32)
      requires seed < 0x1_0000
      modifies this
      ensures seed < 0x1_0000 && Register(Reflected16) == Crc(KERMIT, old(Register(Reflected16)), data)
      ensures crc == Register(Reflected16)
    {
      crc := Update(Halfwords, KERMIT, seed, data, address);
      seed := crc;
    }

    method Kermit(data: seq<Octet>, address: nat) returns (crc: bv32)
      modifies this
      ensures seed < 0x1_0000 && Register(Reflected16) == crc == Crc(KERMIT, 0, data)
    {
      seed := 0;
      crc := KermitUpd(data, address);
    }

    method XmodemUpd(data: seq<Octet>, address: nat) returns (crc: bv32)
      requires seed < 0x1_0000
      modifies this
      ensures seed < 0x1_0000 && Register(Forward16) == Crc(XMODEM, old(Register(Forward16)), data)
      ensures crc == Register(Forward16)
    {
      crc := Update(Halfwords, XMODEM, seed, data, address);
      seed := crc;
      crc := Rev16(crc);
    }

    method Xmodem(data: seq<Octet>, address: nat) returns (crc: bv32)
      modifies this
      ensures seed < 0x1_0000 && Register(Forward16) == crc == Crc(XMODEM, 0, data)
    {
      seed := 0;
      assert Rev16(0) == 0;
      crc := XmodemUpd(data, address);
    }

    method X25Upd(data: seq<Octet>, address: nat) returns (crc: bv32)
      requires seed < 0x1_0000
      modifies this
      ensures seed < 0x1_0000 && Register(Reflected16) == Crc(SDLC, old(Register(Reflected16)), data)
      ensures crc ^ Register(Reflected16) == 0xFFFF
    {
      crc := Update(Halfwords, SDLC, seed, data, address);
      seed := crc;
      crc := Xor(crc, 0xFFFF);
    }

    method X25(data: seq<Octet>, address: nat) returns (crc: bv32)
      modifies this
      ensures seed < 0x1_0000 && Register(Reflected16) == Crc(SDLC, 0xFFFF, data)
      ensures crc ^ Crc(SDLC, 0xFFFF, data) == 0xFFFF
    {
      seed := 0xFFFF;
      crc := X25Upd(data, address);
    }
  }

  /** The check of a whole message by `crc32`: every bit of the register the other way round. */
  function Crc32Of(data: seq<Octet>): (crc: bv32)
    ensures crc ^ Crc(CRC32, 0xFFFF_FFFF, data) == 0xFFFF_FFFF
  {
    hide Crc;
    Complement(Crc(CRC32, 0xFFFF_FFFF, data), 0xFFFF_FFFF);
    Xor(Crc(CRC32, 0xFFFF_FFFF, data), 0xFFFF_FFFF)
  }

  lemma Complement(x: bv32, ones: bv32)
    ensures Xor(x, ones) ^ x == ones
  {
  }

  lemma ComplementOf(x: bv32, y: bv32, ones: bv32)
    requires y ^ x == ones
    ensures y == Xor(x, ones)
  {
  }

  class FastCRC32 {
    var seed: bv32
    const bigTables: bool

    /** `bigTables` is the compile-time switch `CRC_BIGTABLES`. */
    constructor (bigTables: bool)
      ensures this.bigTables == bigTables
    {
      seed := 0;
      this.bigTables := bigTables;
    }

    function Register(k: Kind): bv32 reads this { Swap(k, seed) }

    method Crc32Upd(data: seq<Octet>, address: nat) returns (crc: bv32)
      modifies this
      ensures Register(Reflected32) == Crc(CRC32, old(Register(Reflected32)), data)
      ensures crc ^ Register(Reflected32) == 0xFFFF_FFFF
    {
      crc := Update(if bigTables then BigTables else SmallTable, CRC32, seed, data, address);
      seed := crc;
      crc := Xor(crc, 0xFFFF_FFFF);
    }

    method Crc32(data: seq<Octet>, address: nat) returns (crc: bv32)
      modifies this
      ensures Register(Reflected32) == Crc(CRC32, 0xFFFF_FFFF, data)
      ensures crc ^ Crc(CRC32, 0xFFFF_FFFF, data) == 0xFFFF_FFFF && crc == Crc32Of(data)
    {
      hide Crc, Xor;
      seed := 0xFFFF_FFFF;
      crc := Crc32Upd(data, address);
      ComplementOf(Crc(CRC32, 0xFFFF_FFFF, data), crc, 0xFFFF_FFFF);
    }

    method CksumUpd(data: seq<Octet>, address: nat) returns (crc: bv32)
      modifies this
      ensures Register(Forward32) == Crc(CKSUM, old(Register(Forward32)), data)
      ensures crc ^ Register(Forward32) == 0xFFFF_FFFF
    {
      crc := Update(if bigTables then BigTables else SmallTable, CKSUM, seed, data, address);
      seed := crc;
      crc := Xor(Rev32(crc), 0xFFFF_FFFF);
    }

    method Cksum(data: seq<Octet>, address: nat) returns (crc: bv32)
      modifies this
      ensures Register(Forward32) == Crc(CKSUM, 0, data)
      ensures crc ^ Crc(CKSUM, 0, data) == 0xFFFF_FFFF
    {
      seed := 0;
      assert Rev32(0) == 0;
      crc := CksumUpd(data, address);
    }
  }

  // A message in pieces.

  function Joined(pieces: seq<seq<Octet>>): seq<Octet> {
    if pieces == [] then [] else pieces[0] + Joined(pieces[1..])
  }

  lemma {:induction false} JoinedLast(pieces: seq<seq<Octet>>, last: seq<Octet>)
    ensures Joined(pieces + [last]) == Joined(pieces) + last
  {
    if pieces == [] {
      assert [last][1..] == [];
      assert last + [] == last;
    } else {
      assert (pieces + [last])[1..] == pieces[1..] + [last];
      JoinedLast(pieces[1..], last);
    }
  }

  /**
   * Every check, and every kernel: updates by the pieces of a message, one after the other, take the register
   * through the division of the whole message, however it is cut and wherever the pieces lie.
   */
  method UpdateByPieces(kernel: Kernel, e: Engine, seed: bv32, pieces: seq<seq<Octet>>, addresses: seq<nat>)
    returns (crc: bv32)
    requires Fits(e.kind, e.poly) && Fits(e.kind, seed) && |addresses| == |pieces|
    requires kernel.Halfwords? ==> e.kind.Reflected16? || e.kind.Forward16?
    ensures Fits(e.kind, crc) && Swap(e.kind, crc) == Crc(e, Swap(e.kind, seed), Joined(pieces))
  {
    hide Crc, Swap, Fits;
    crc := seed;
    ghost var reg := Swap(e.kind, seed);
    CrcNothing(e, reg);
    for i := 0 to |pieces|
      invariant Fits(e.kind, crc) && Swap(e.kind, crc) == Crc(e, reg, Joined(pieces[..i]))
    {
      crc := Update(kernel, e, crc, pieces[i], addresses[i]);
      CrcAppend(e, reg, Joined(pieces[..i]), pieces[i]);
      JoinedLast(pieces[..i], pieces[i]);
      assert pieces[..i + 1] == pieces[..i] + [pieces[i]];
    }
    assert pieces[..|pieces|] == pieces;
  }

  lemma CrcNothing(e: Engine, reg: bv32)
    ensures Crc(e, reg, []) == reg
  {
  }

  /**
   * `ccitt` of the first piece and `ccitt_upd` of the others: the check of the whole message, however it is cut
   * and wherever the pieces lie.
   */
  method CcittOfPieces(check: FastCRC16, pieces: seq<seq<Octet>>, addresses: seq<nat>) returns (crc: bv32)
    requires pieces != [] && |addresses| == |pieces|
    modifies check
    ensures crc == Crc(CCITT, 0xFFFF, Joined(pieces))
  {
    hide Crc, Swap;
    crc := check.Ccitt(pieces[0], addresses[0]);
    assert pieces[..1] == [] + [pieces[0]];
    JoinedLast([], pieces[0]);
    assert Joined([]) + pieces[0] == pieces[0];
    for i := 1 to |pieces|
      invariant check.seed < 0x1_0000 && crc == check.Register(Forward16) == Crc(CCITT, 0xFFFF, Joined(pieces[..i]))
    {
      crc := check.CcittUpd(pieces[i], addresses[i]);
      CrcAppend(CCITT, 0xFFFF, Joined(pieces[..i]), pieces[i]);
      JoinedLast(pieces[..i], pieces[i]);
      assert pieces[..i + 1] == pieces[..i] + [pieces[i]];
    }
    assert pieces[..|pieces|] == pieces;
  }

  method CksumOfPieces(check: FastCRC32, pieces: seq<seq<Octet>>, addresses: seq<nat>) returns (crc: bv32)
    requires pieces != [] && |addresses| == |pieces|
    modifies check
    ensures crc ^ Crc(CKSUM, 0, Joined(pieces)) == 0xFFFF_FFFF
  {
    hide Crc, Swap;
    crc := check.Cksum(pieces[0], addresses[0]);
    assert pieces[..1] == [] + [pieces[0]];
    JoinedLast([], pieces[0]);
    assert Joined([]) + pieces[0] == pieces[0];
    for i := 1 to |pieces|
      invariant check.Register(Forward32) == Crc(CKSUM, 0, Joined(pieces[..i]))
      invariant crc ^ check.Register(Forward32) == 0xFFFF_FFFF
    {
      crc := check.CksumUpd(pieces[i], addresses[i]);
      CrcAppend(CKSUM, 0, Joined(pieces[..i]), pieces[i]);
      JoinedLast(pieces[..i], pieces[i]);
      assert pieces[..i + 1] == pieces[..i] + [pieces[i]];
    }
    assert pieces[..|pieces|] == pieces;
  }

  // What the packet checks rely on.

  /** Damage inside two consecutive octets never leaves `ccitt` as it was. */
  lemma CcittNotices(a: seq<Octet>, b: seq<Octet>, i: nat)
    requires |a| == |b| && i + 2 <= |a| && a[..i] == b[..i] && a[i + 2..] == b[i + 2..] && a != b
    ensures Crc(CCITT, 0xFFFF, a) != Crc(CCITT, 0xFFFF, b)
  {
    hide Crc;
    EnginesValid();
    WindowDetected(CCITT, 0xFFFF, a, b, i, 2);
  }

  /** Damage inside four consecutive octets never leaves `crc32` as it was, even in a message shorter than that. */
  lemma Crc32Notices(a: seq<Octet>, b: seq<Octet>, i: nat, n: nat)
    requires |a| == |b| && n <= 4 && i + n <= |a| && a[..i] == b[..i] && a[i + n..] == b[i + n..] && a != b
    ensures Crc32Of(a) != Crc32Of(b)
  {
    hide Crc, Xor;
    EnginesValid();
    WindowDetected(CRC32, 0xFFFF_FFFF, a, b, i, n);
    if Crc32Of(a) == Crc32Of(b) {
      XorCancel(Crc(CRC32, 0xFFFF_FFFF, a), Crc(CRC32, 0xFFFF_FFFF, b), 0xFFFF_FFFF);
    }
  }
}
