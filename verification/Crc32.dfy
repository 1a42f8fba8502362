/**
 * kernel/src/crc32.cpp: the frame check sequence of IEEE 802.3 (clause 3.2.9), computed with
 * the 256-entry table of RFC 1952 (section 8).
 */
module Crc32Spec {
  import opened Words
  import opened ShiftRegister

  type word32 = w: seq<bool> | |w| == 32 witness Zeros(32)

  const POLYNOMIAL: word32 := ToBits(0xEDB88320, 32)

  const INITIAL: u32 := 0xFFFF_FFFF

  /** The register after a byte string. */
  function Update(c: u32, data: seq<byte>): u32 {
    NumberOf(Fold(POLYNOMIAL, ToBits(c, 32), data))
  }

  function Finalize(c: u32): u32 {
    NumberOf(Xor(ToBits(c, 32), Ones(32)))
  }

  /** The checksum of a byte string. */
  function Crc(data: seq<byte>): u32 { Finalize(Update(INITIAL, data)) }

  lemma PolynomialIsProper()
    ensures IsPolynomial(POLYNOMIAL)
  {
    PowersOfTwo();
    assert Pow2(31) == 0x8000_0000;
    HighestBit(0xEDB88320, 32);
  }

  lemma WordRoundTrip(c: u32)
    ensures NumberOf(ToBits(c, 32)) == c
  {
    PowersOfTwo();
    ToNatToBits(c, 32);
  }

  lemma UpdateNothing(c: u32)
    ensures Update(c, []) == c
  {
    WordRoundTrip(c);
  }

  lemma UpdateWith(poly: word32, c: u32, x: seq<byte>, y: seq<byte>)
    ensures NumberOf(Fold(poly, ToBits(c, 32), x + y))
         == NumberOf(Fold(poly, ToBits(NumberOf(Fold(poly, ToBits(c, 32), x)), 32), y))
  {
    FoldAppend(poly, ToBits(c, 32), x, y);
    ToBitsToNat(Fold(poly, ToBits(c, 32), x));
  }

  /** Updating over a concatenation is updating twice. */
  lemma UpdateAppend(c: u32, x: seq<byte>, y: seq<byte>)
    ensures Update(c, x + y) == Update(Update(c, x), y)
  {
    UpdateWith(POLYNOMIAL, c, x, y);
  }

  lemma FinalizeInjective(c: u32, d: u32)
    requires Finalize(c) == Finalize(d)
    ensures c == d
  {
    var v, w := ToBits(c, 32), ToBits(d, 32);
    NumberOfInjective(Xor(v, Ones(32)), Xor(w, Ones(32)));
    XorCancel(v, w, Ones(32));
    WordRoundTrip(c);
    WordRoundTrip(d);
  }

  /** The checksum is the bit-serial one of IEEE 802.3. */
  lemma CrcIsBitSerial(data: seq<byte>)
    ensures Crc(data) == Finalize(NumberOf(FoldBits(POLYNOMIAL, ToBits(INITIAL, 32), Bits(data))))
  {
    FoldIsBitSerial(POLYNOMIAL, ToBits(INITIAL, 32), data);
  }

  lemma UpdateDetectsBurst(poly: word32, c: u32, x: seq<byte>, y: seq<byte>, p: nat)
    requires IsPolynomial(poly) && DifferOnlyInBurst(x, y, p, 32) && x != y
    ensures NumberOf(Fold(poly, ToBits(c, 32), x)) != NumberOf(Fold(poly, ToBits(c, 32), y))
  {
    BurstDetected(poly, ToBits(c, 32), x, y, p);
    if NumberOf(Fold(poly, ToBits(c, 32), x)) == NumberOf(Fold(poly, ToBits(c, 32), y)) {
      NumberOfInjective(Fold(poly, ToBits(c, 32), x), Fold(poly, ToBits(c, 32), y));
    }
  }

  /** Every error burst of at most 32 bits, at any bit position, changes the checksum. */
  lemma CrcDetectsBurst(x: seq<byte>, y: seq<byte>, p: nat)
    requires DifferOnlyInBurst(x, y, p, 32)
    requires x != y
    ensures Crc(x) != Crc(y)
  {
    PolynomialIsProper();
    UpdateDetectsBurst(POLYNOMIAL, INITIAL, x, y, p);
    if Crc(x) == Crc(y) {
      FinalizeInjective(Update(INITIAL, x), Update(INITIAL, y));
    }
  }

  /** The byte form: altering up to four consecutive bytes changes the checksum. */
  lemma CrcDetectsWindow(pre: seq<byte>, u: seq<byte>, v: seq<byte>, post: seq<byte>)
    requires |u| == |v| <= 4 && u != v
    ensures Crc(pre + u + post) != Crc(pre + v + post)
  {
    WindowIsBurst(pre, u, v, post);
    var x, y := pre + u + post, pre + v + post;
    assert x[|pre|..|pre| + |u|] == u && y[|pre|..|pre| + |u|] == v;
    CrcDetectsBurst(x, y, 8 * |pre|);
  }
}

/** The table-driven implementation. */
module Crc32 {
  import opened Words
  import opened ShiftRegister
  import opened Crc32Spec

  class Crc32Engine {
    const table: array<u32>
    var tableInit: bool

    ghost predicate Valid()
      reads this, table
    {
      && table.Length == 256
      && (tableInit ==> TableFor(POLYNOMIAL))
    }

    ghost predicate TableFor(poly: word32)
      requires table.Length == 256
      reads table
    {
      forall i | 0 <= i < 256 :: table[i] == TableEntry(poly, i)
    }

    /** What one table slot must hold: its index shifted eight times. */
    static ghost function TableEntry(poly: word32, i: nat): u32 { NumberOf(Shifts(poly, ToBits(i, 32), 8)) }

    constructor ()
      ensures Valid() && fresh(this) && fresh(table) && !tableInit
    {
      table := new u32[256];
      tableInit := false;
    }

    method InitTable()
      requires Valid()
      modifies this, table
      ensures Valid() && tableInit
    {
      if tableInit {
        return;
      }
      FillTable(POLYNOMIAL);
      tableInit := true;
    }

    method FillTable(poly: word32)
      requires table.Length == 256
      modifies table
      ensures TableFor(poly)
    {
      for i := 0 to 256
        invariant forall k | 0 <= k < i :: table[k] == TableEntry(poly, k)
      {
        var crc := ShiftEightTimes(poly, ToBits(i, 32));
        table[i] := NumberOf(crc);
      }
    }

    /** The table-driven update computes the register of the standard. */
    method Update(initial: u32, data: seq<byte>) returns (crc: u32)
      requires Valid()
      modifies this, table
      ensures Valid()
      ensures crc == Crc32Spec.Update(initial, data)
    {
      InitTable();
      var c := FoldByTable(POLYNOMIAL, ToBits(initial, 32), data);
      crc := NumberOf(c);
    }

    method FoldByTable(poly: word32, initial: word32, data: seq<byte>) returns (crc: word32)
      requires table.Length == 256 && TableFor(poly)
      ensures crc == Fold(poly, initial, data)
    {
      crc := initial;
      for i := 0 to |data|
        invariant Fold(poly, crc, data[i..]) == Fold(poly, initial, data)
      {
        var index := ByteOf(Xor(crc, Widen(BitsOf(data[i]), 32))[..8]);
        ByteStepByTable(poly, crc, data[i]);
        assert data[i..][1..] == data[i + 1..];
        crc := Xor(ToBits(table[index], 32), crc[8..] + Zeros(8));
      }
    }

    method Compute(data: seq<byte>) returns (crc: u32)
      requires Valid()
      modifies this, table
      ensures Valid()
      ensures crc == Crc(data)
    {
      var c := Update(INITIAL, data);
      crc := Finalize(c);
    }
  }

  /** One lookup and one exclusive or make one byte step. */
  lemma ByteStepByTable(poly: word32, crc: word32, b: byte)
    ensures var index := ByteOf(Xor(crc, Widen(BitsOf(b), 32))[..8]);
      ByteStep(poly, crc, b) == Xor(ToBits(Crc32Engine.TableEntry(poly, index), 32), crc[8..] + Zeros(8))
  {
    hide Shifts, ToNat, ToBits;
    var w := Xor(crc, Widen(BitsOf(b), 32));
    EightShiftsByTable(poly, w);
    WidenedIndex(w[..8]);
    ToBitsToNat(Shifts(poly, Widen(w[..8], 32), 8));
    assert w[8..] == crc[8..];
  }

  lemma WidenedIndex(low: seq<bool>)
    requires |low| == 8
    ensures ToBits(ByteOf(low), 32) == Widen(low, 32)
  {
    ToBitsWiden(ByteOf(low), 8, 24);
    ToBitsToNat(low);
    ToNatBound(low);
    PowersOfTwo();
  }
}
