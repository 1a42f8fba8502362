/**
 * middleware/src/modbus_module.cpp: the checksum of the Modbus serial line (sections 2.5.1.2 and
 * 6.2.2 of "MODBUS over Serial Line Specification and Implementation Guide V1.02") and the request
 * frames built with it.
 */
module ModbusSpec {
  import opened Words
  import opened ShiftRegister

  type word16 = w: seq<bool> | |w| == 16 witness Zeros(16)

  const POLYNOMIAL: word16 := ToBits(0xA001, 16)

  const INITIAL: word16 := Ones(16)

  function Crc16(data: seq<byte>): u16 { NumberOf(Fold(POLYNOMIAL, INITIAL, data)) }

  function LowByte(n: u16): byte { n % 0x100 }

  function HighByte(n: u16): byte { n / 0x100 }

  /** Two bytes of a message, high byte first. */
  function Joined(hi: byte, lo: byte): u16 {
    var h: nat := hi;
    0x100 * h + lo
  }

  /** A frame followed by its checksum, low byte first. */
  function Sealed(frame: seq<byte>): seq<byte> { frame + [LowByte(Crc16(frame)), HighByte(Crc16(frame))] }

  /** Read one holding register. */
  function ReadRequest(slave: byte, addr: u16): seq<byte> {
    Sealed([slave, 3, HighByte(addr), LowByte(addr), 0, 1])
  }

  lemma PolynomialIsProper()
    ensures IsPolynomial(POLYNOMIAL)
  {
    PowersOfTwo();
    assert Pow2(15) == 0x8000;
    HighestBit(0xA001, 16);
  }

  // ---------------------------------------------------------------- the residue

  lemma {:induction false} ShiftsOfZero(poly: seq<bool>, k: nat)
    requires |poly| > 0
    ensures Shifts(poly, Zeros(|poly|), k) == Zeros(|poly|)
    decreases k
  {
    if k > 0 {
      assert Shift(poly, Zeros(|poly|)) == Zeros(|poly|);
      ShiftsOfZero(poly, k - 1);
    }
  }

  /** A register is cleared by a message as long as itself exactly when the message spells the register. */
  lemma ClearedOnlyByItself(poly: seq<bool>, c: seq<bool>, bits: seq<bool>)
    requires IsPolynomial(poly) && |bits| == |c| == |poly|
    ensures FoldBits(poly, c, bits) == Zeros(|poly|) <==> bits == c
  {
    var z := Zeros(|poly|);
    FoldBitsAsWord(poly, c, bits);
    assert Widen(bits, |c|) == bits;
    ShiftsOfZero(poly, |poly|);
    if bits == c {
      assert Xor(c, bits) == z;
    }
    if FoldBits(poly, c, bits) == z {
      ShiftsInjective(poly, Xor(c, bits), z, |poly|);
      XorCancelLeft(bits, c, c);
    }
  }

  /** n shifted left by k bits. */
  function Raise(k: nat, n: nat): nat { if k == 0 then n else 2 * Raise(k - 1, n) }

  lemma {:induction false} ToNatAppend(x: seq<bool>, y: seq<bool>)
    ensures ToNat(x + y) == ToNat(x) + Raise(|x|, ToNat(y))
    decreases |x|
  {
    if |x| == 0 {
      assert x + y == y;
    } else {
      assert (x + y)[1..] == x[1..] + y;
      ToNatAppend(x[1..], y);
    }
  }

  lemma TwoBytes(lo: byte, hi: byte)
    ensures ToNat(BitsOf(lo) + BitsOf(hi)) == lo + 0x100 * hi
  {
    hide ToBits, ToNat;
    ToNatAppend(BitsOf(lo), BitsOf(hi));
    PowersOfTwo();
    ToNatToBits(lo, 8);
    ToNatToBits(hi, 8);
    RaisedByEight(hi);
  }

  lemma RaisedByEight(n: nat)
    ensures Raise(8, n) == 0x100 * n
  {
    assert Raise(1, n) == 2 * n;
    assert Raise(3, n) == 8 * n;
    assert Raise(5, n) == 32 * n;
    assert Raise(7, n) == 128 * n;
  }

  lemma {:induction false} ZeroWord(n: nat)
    ensures ToNat(Zeros(n)) == 0
    decreases n
  {
    if n > 0 {
      ZeroWord(n - 1);
      assert Zeros(n)[1..] == Zeros(n - 1);
    }
  }

  /** Two bytes, low byte first, spell the register exactly when they are its low and high byte. */
  lemma SpellsRegister(c: word16, lo: byte, hi: byte)
    ensures BitsOf(lo) + BitsOf(hi) == c <==> lo == LowByte(NumberOf(c)) && hi == HighByte(NumberOf(c))
  {
    hide ToBits, ToNat;
    var w := BitsOf(lo) + BitsOf(hi);
    TwoBytes(lo, hi);
    if NumberOf(w) == NumberOf(c) {
      NumberOfInjective(w, c);
    }
  }

  lemma ResidueWith(poly: word16, c: word16, frame: seq<byte>, lo: byte, hi: byte)
    requires IsPolynomial(poly)
    ensures Fold(poly, c, frame + [lo, hi]) == Zeros(16) <==> BitsOf(lo) + BitsOf(hi) == Fold(poly, c, frame)
  {
    var r := Fold(poly, c, frame);
    FoldAppend(poly, c, frame, [lo, hi]);
    FoldIsBitSerial(poly, r, [lo, hi]);
    assert [lo, hi][1..] == [hi] && [hi][1..] == [];
    assert Bits([hi]) == BitsOf(hi) + Bits([]);
    ClearedOnlyByItself(poly, r, BitsOf(lo) + BitsOf(hi));
    assert Bits([lo, hi]) == BitsOf(lo) + BitsOf(hi);
  }

  lemma NumberIsZeroIff(w: word16)
    ensures NumberOf(w) == 0 <==> w == Zeros(16)
  {
    ZeroWord(16);
    if NumberOf(w) == 0 {
      NumberOfInjective(w, Zeros(16));
    }
  }

  /** The receiver's check: the residue of a frame and two more bytes is zero exactly when they are its checksum. */
  lemma ResidueIsZeroIff(frame: seq<byte>, lo: byte, hi: byte)
    ensures Crc16(frame + [lo, hi]) == 0 <==> lo == LowByte(Crc16(frame)) && hi == HighByte(Crc16(frame))
  {
    hide Fold, NumberOf;
    PolynomialIsProper();
    ResidueWith(POLYNOMIAL, INITIAL, frame, lo, hi);
    SpellsRegister(Fold(POLYNOMIAL, INITIAL, frame), lo, hi);
    NumberIsZeroIff(Fold(POLYNOMIAL, INITIAL, frame + [lo, hi]));
  }

  lemma SealedHasNoResidue(frame: seq<byte>)
    ensures Crc16(Sealed(frame)) == 0
  {
    hide Crc16;
    ResidueIsZeroIff(frame, LowByte(Crc16(frame)), HighByte(Crc16(frame)));
  }

  /** A sealed frame hit by an error burst of up to 16 bits, at any bit position, leaves a residue. */
  lemma DamagedFrameShows(frame: seq<byte>, received: seq<byte>, p: nat)
    requires DifferOnlyInBurst(Sealed(frame), received, p, 16) && received != Sealed(frame)
    ensures Crc16(received) != 0
  {
    hide Fold, NumberOf, Sealed, Bits;
    SealedHasNoResidue(frame);
    PolynomialIsProper();
    BurstDetectedWith(POLYNOMIAL, Sealed(frame), received, p);
    if Crc16(received) == Crc16(Sealed(frame)) {
      NumberOfInjective(Fold(POLYNOMIAL, INITIAL, received), Fold(POLYNOMIAL, INITIAL, Sealed(frame)));
    }
  }

  lemma BurstDetectedWith(poly: word16, x: seq<byte>, y: seq<byte>, p: nat)
    requires IsPolynomial(poly) && DifferOnlyInBurst(x, y, p, 16) && x != y
    ensures Fold(poly, INITIAL, x) != Fold(poly, INITIAL, y)
  {
    BurstDetected(poly, INITIAL, x, y, p);
  }

  /** The eight bytes of a request: slave, function 3, register and count with the high byte first, checksum with the low byte first. */
  lemma RequestBytes(slave: byte, addr: u16)
    ensures var r := ReadRequest(slave, addr);
      && |r| == 8 && r[0] == slave && r[1] == 3 && r[2] == addr / 256 && r[3] == addr % 256 && r[4] == 0 && r[5] == 1
      && r[6] == Crc16(r[..6]) % 256 && r[7] == Crc16(r[..6]) / 256
  {
    hide Crc16;
    var r, f := ReadRequest(slave, addr), [slave, 3, HighByte(addr), LowByte(addr), 0, 1];
    assert r[..6] == f && r[6] == LowByte(Crc16(f)) && r[7] == HighByte(Crc16(f));
    assert r[0] == f[0] && r[1] == f[1] && r[2] == f[2] && r[3] == f[3] && r[4] == f[4] && r[5] == f[5];
  }

  /** Different requests go out as different frames, each of eight bytes and without residue. */
  lemma RequestsTellApart(slave: byte, addr: u16, slave': byte, addr': u16)
    ensures |ReadRequest(slave, addr)| == 8 && Crc16(ReadRequest(slave, addr)) == 0
    ensures ReadRequest(slave, addr) == ReadRequest(slave', addr') <==> slave == slave' && addr == addr'
  {
    hide Crc16;
    var r, r' := ReadRequest(slave, addr), ReadRequest(slave', addr');
    SealedHasNoResidue([slave, 3, HighByte(addr), LowByte(addr), 0, 1]);
    assert r[0] == slave && r[2] == HighByte(addr) && r[3] == LowByte(addr);
    assert r'[0] == slave' && r'[2] == HighByte(addr') && r'[3] == LowByte(addr');
  }
}

/** The module itself; `sent` stands for the bytes handed to the serial line. */
module ModbusImpl {
  import opened Words
  import opened ShiftRegister
  import opened ModbusSpec

  datatype Mode = Rtu | Tcp

  class ModbusModule {
    const mode: Mode
    var requestPending: bool
    var pendingSlave: byte
    var pendingAddr: u16
    ghost var sent: seq<seq<byte>>

    constructor (mode: Mode)
      ensures this.mode == mode && !requestPending && sent == []
    {
      this.mode := mode;
      requestPending, pendingSlave, pendingAddr := false, 0, 0;
      sent := [];
    }

    static method CrcOf(data: array<byte>, len: nat) returns (crc: u16)
      requires len <= data.Length
      ensures crc == Crc16(data[..len])
    {
      var c := FoldInPlace(POLYNOMIAL, data, len);
      crc := NumberOf(c);
    }

    static method FoldInPlace(poly: word16, data: array<byte>, len: nat) returns (crc: word16)
      requires len <= data.Length
      ensures crc == Fold(poly, INITIAL, data[..len])
    {
      hide Shifts;
      crc := INITIAL;
      for i := 0 to len
        invariant Fold(poly, crc, data[i..len]) == Fold(poly, INITIAL, data[..len])
      {
        assert data[i..len][1..] == data[i + 1..len];
        crc := ShiftEightTimes(poly, Xor(crc, Widen(BitsOf(data[i]), 16)));
      }
    }

    static method BuildRequest(slave: byte, addr: u16) returns (frame: array<byte>)
      ensures fresh(frame) && frame[..] == ReadRequest(slave, addr)
    {
      hide Crc16;
      frame := new byte[] [slave, 3, HighByte(addr), LowByte(addr), 0, 1, 0, 0];
      var crc := CrcOf(frame, 6);
      assert frame[..6] == [slave, 3, HighByte(addr), LowByte(addr), 0, 1];
      frame[6] := LowByte(crc);
      frame[7] := HighByte(crc);
      assert frame[..] == frame[..6] + [frame[6], frame[7]];
    }

    /** Sends the request; the register value is taken from whatever the line answers, if it is long enough. */
    method ReadHoldingRegister(slave: byte, addr: u16, value: u16, response: seq<byte>) returns (result: u16)
      requires |response| <= 7
      modifies this`sent
      ensures sent == if mode.Rtu? then old(sent) + [ReadRequest(slave, addr)] else old(sent)
      ensures result == if mode.Rtu? && |response| >= 5 then response[3] as int * 256 + response[4] as int else value as int
    {
      var frame := BuildRequest(slave, addr);
      result := value;
      if mode.Rtu? {
        sent := sent + [frame[..]];
        if |response| >= 5 {
          result := Joined(response[3], response[4]);
        }
      }
    }

    /** Remembers the request only; the coil's value is dropped. */
    method WriteCoil(slave: byte, addr: u16, value: bool)
      modifies this`requestPending, this`pendingSlave, this`pendingAddr
      ensures requestPending && pendingSlave == slave && pendingAddr == addr
    {
      pendingSlave, pendingAddr, requestPending := slave, addr, true;
    }

    /** A pending coil write goes out as a request to read a register. */
    method Tick(response: seq<byte>)
      requires |response| <= 7
      modifies this`requestPending, this`sent
      ensures !requestPending
      ensures sent == if old(requestPending) && mode.Rtu? then old(sent) + [ReadRequest(pendingSlave, pendingAddr)] else old(sent)
    {
      if requestPending {
        requestPending := false;
        var dummy := ReadHoldingRegister(pendingSlave, pendingAddr, 0, response);
      }
    }
  }
}
