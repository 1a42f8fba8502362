/**
 * The reflected CRC shift register, for any width and polynomial.
 *
 * kernel/src/crc32.cpp and takt_boot/src/bootloader.cpp run a 32-bit register and
 * middleware/src/modbus_module.cpp a 16-bit one.  What all of them rely on is that the register
 * is a linear, reversible shift; it is proved here once, with the polynomial as a parameter.
 */
module ShiftRegister {
  import opened Words

  /** A polynomial in reflected notation.  Its highest bit stands for the constant term, which is always there. */
  ghost predicate IsPolynomial(poly: seq<bool>) {
    |poly| >= 8 && poly[|poly| - 1]
  }

  /** Shift right by one; a one falling out at the low end feeds the polynomial back. */
  function Shift(poly: seq<bool>, w: seq<bool>): (z: seq<bool>)
    requires |w| == |poly| > 0
    ensures |z| == |w|
  {
    if w[0] then Xor(w[1..] + [false], poly) else w[1..] + [false]
  }

  function Shifts(poly: seq<bool>, w: seq<bool>, k: nat): (z: seq<bool>)
    requires |w| == |poly| > 0
    ensures |z| == |w|
    decreases k
  {
    if k == 0 then w else Shifts(poly, Shift(poly, w), k - 1)
  }

  /** The inner loop all three checksum routines share. */
  method ShiftEightTimes(poly: seq<bool>, w: seq<bool>) returns (crc: seq<bool>)
    requires |w| == |poly| > 0
    ensures crc == Shifts(poly, w, 8)
  {
    crc := w;
    for j := 0 to 8
      invariant |crc| == |w|
      invariant Shifts(poly, crc, 8 - j) == Shifts(poly, w, 8)
    {
      crc := if crc[0] then Xor(crc[1..] + [false], poly) else crc[1..] + [false];
    }
  }

  /** One message bit enters the register. */
  function BitStep(poly: seq<bool>, c: seq<bool>, bit: bool): (z: seq<bool>)
    requires |c| == |poly| > 0
    ensures |z| == |c|
  {
    Shift(poly, Xor(c, Widen([bit], |c|)))
  }

  /** The bit-serial register of the standards. */
  function FoldBits(poly: seq<bool>, c: seq<bool>, bits: seq<bool>): (z: seq<bool>)
    requires |c| == |poly| > 0
    ensures |z| == |c|
    decreases |bits|
  {
    if |bits| == 0 then c else FoldBits(poly, BitStep(poly, c, bits[0]), bits[1..])
  }

  /** One message byte: combine it with the low end of the register, then shift eight times. */
  function ByteStep(poly: seq<bool>, c: seq<bool>, b: byte): (z: seq<bool>)
    requires |c| == |poly| >= 8
    ensures |z| == |c|
  {
    Shifts(poly, Xor(c, Widen(BitsOf(b), |c|)), 8)
  }

  /** The register after a byte string. */
  function Fold(poly: seq<bool>, c: seq<bool>, data: seq<byte>): (z: seq<bool>)
    requires |c| == |poly| >= 8
    ensures |z| == |c|
    decreases |data|
  {
    if |data| == 0 then c else Fold(poly, ByteStep(poly, c, data[0]), data[1..])
  }

  /** The bits of a byte string in transmission order. */
  function Bits(data: seq<byte>): (bits: seq<bool>)
    ensures |bits| == 8 * |data|
  {
    if |data| == 0 then [] else BitsOf(data[0]) + Bits(data[1..])
  }

  // ---------------------------------------------------------------- the shift is linear and reversible

  lemma ShiftXor(poly: seq<bool>, x: seq<bool>, y: seq<bool>)
    requires |x| == |y| == |poly| > 0
    ensures Shift(poly, Xor(x, y)) == Xor(Shift(poly, x), Shift(poly, y))
  {}

  lemma {:induction false} ShiftsXor(poly: seq<bool>, x: seq<bool>, y: seq<bool>, k: nat)
    requires |x| == |y| == |poly| > 0
    ensures Shifts(poly, Xor(x, y), k) == Xor(Shifts(poly, x, k), Shifts(poly, y, k))
    decreases k
  {
    if k > 0 {
      ShiftXor(poly, x, y);
      ShiftsXor(poly, Shift(poly, x), Shift(poly, y), k - 1);
    }
  }

  lemma ShiftInjective(poly: seq<bool>, x: seq<bool>, y: seq<bool>)
    requires IsPolynomial(poly) && |x| == |y| == |poly|
    requires Shift(poly, x) == Shift(poly, y)
    ensures x == y
  {
    var n := |x|;
    assert Shift(poly, x)[n - 1] == x[0] && Shift(poly, y)[n - 1] == y[0];
    forall i | 1 <= i < n ensures x[i] == y[i] {
      assert Shift(poly, x)[i - 1] == Shift(poly, y)[i - 1];
    }
  }

  lemma {:induction false} ShiftsInjective(poly: seq<bool>, x: seq<bool>, y: seq<bool>, k: nat)
    requires IsPolynomial(poly) && |x| == |y| == |poly|
    requires Shifts(poly, x, k) == Shifts(poly, y, k)
    ensures x == y
    decreases k
  {
    hide Shift;
    if k > 0 {
      ShiftsInjective(poly, Shift(poly, x), Shift(poly, y), k - 1);
      ShiftInjective(poly, x, y);
    }
  }

  /** As long as zeros fall out, shifting is just shifting. */
  lemma {:induction false} ShiftsOfZeros(poly: seq<bool>, w: seq<bool>, k: nat)
    requires |w| == |poly| > 0 && k <= |w|
    requires forall i | 0 <= i < k :: !w[i]
    ensures Shifts(poly, w, k) == w[k..] + Zeros(k)
    decreases k
  {
    if k > 0 {
      var v := Shift(poly, w);
      assert v == w[1..] + [false];
      ShiftsOfZeros(poly, v, k - 1);
    }
  }

  lemma LowByteSplits(w: seq<bool>)
    requires |w| >= 8
    ensures w == Xor(Widen(w[..8], |w|), Zeros(8) + w[8..])
  {}

  /** Why one table lookup replaces eight shifts. */
  lemma EightShiftsByTable(poly: seq<bool>, w: seq<bool>)
    requires |w| == |poly| >= 8
    ensures Shifts(poly, w, 8) == Xor(Shifts(poly, Widen(w[..8], |w|), 8), w[8..] + Zeros(8))
  {
    var lo, hi := Widen(w[..8], |w|), Zeros(8) + w[8..];
    LowByteSplits(w);
    ShiftsXor(poly, lo, hi, 8);
    ShiftsOfZeros(poly, hi, 8);
    assert hi[8..] == w[8..];
  }

  // ---------------------------------------------------------------- folding

  /** Updating over a concatenation is updating twice. */
  lemma {:induction false} FoldAppend(poly: seq<bool>, c: seq<bool>, x: seq<byte>, y: seq<byte>)
    requires |c| == |poly| >= 8
    ensures Fold(poly, c, x + y) == Fold(poly, Fold(poly, c, x), y)
    decreases |x|
  {
    if |x| == 0 {
      assert x + y == y;
    } else {
      assert (x + y)[1..] == x[1..] + y;
      FoldAppend(poly, ByteStep(poly, c, x[0]), x[1..], y);
    }
  }

  lemma {:induction false} FoldBitsAppend(poly: seq<bool>, c: seq<bool>, x: seq<bool>, y: seq<bool>)
    requires |c| == |poly| > 0
    ensures FoldBits(poly, c, x + y) == FoldBits(poly, FoldBits(poly, c, x), y)
    decreases |x|
  {
    if |x| == 0 {
      assert x + y == y;
    } else {
      assert (x + y)[1..] == x[1..] + y;
      FoldBitsAppend(poly, BitStep(poly, c, x[0]), x[1..], y);
    }
  }

  lemma XorCancel(x: seq<bool>, y: seq<bool>, z: seq<bool>)
    requires |x| == |y| == |z| && Xor(x, z) == Xor(y, z)
    ensures x == y
  {
    forall i | 0 <= i < |x| ensures x[i] == y[i] {
      assert Xor(x, z)[i] == Xor(y, z)[i];
    }
  }

  lemma XorCancelLeft(x: seq<bool>, y: seq<bool>, z: seq<bool>)
    requires |x| == |y| == |z| && Xor(z, x) == Xor(z, y)
    ensures x == y
  {
    forall i | 0 <= i < |x| ensures x[i] == y[i] {
      assert Xor(z, x)[i] == Xor(z, y)[i];
    }
  }

  /** For a fixed message, the register after it determines the register before it. */
  lemma {:induction false} FoldBitsReversible(poly: seq<bool>, c: seq<bool>, d: seq<bool>, bits: seq<bool>)
    requires IsPolynomial(poly) && |c| == |d| == |poly|
    requires FoldBits(poly, c, bits) == FoldBits(poly, d, bits)
    ensures c == d
    decreases |bits|
  {
    if |bits| > 0 {
      FoldBitsReversible(poly, BitStep(poly, c, bits[0]), BitStep(poly, d, bits[0]), bits[1..]);
      var w := Widen([bits[0]], |c|);
      ShiftInjective(poly, Xor(c, w), Xor(d, w));
      XorCancel(c, d, w);
    }
  }

  lemma ShiftSplits(poly: seq<bool>, c: seq<bool>, bits: seq<bool>)
    requires |c| == |poly| && 0 < |bits| <= |c|
    ensures Shift(poly, Xor(c, Widen(bits, |c|))) == Xor(BitStep(poly, c, bits[0]), Widen(bits[1..], |c|))
  {
    var x, y := Xor(c, Widen(bits, |c|)), Xor(c, Widen([bits[0]], |c|));
    assert x[0] == y[0];
    assert x[1..] + [false] == Xor(y[1..] + [false], Widen(bits[1..], |c|));
  }

  /** Feeding up to a register's width of bits is one exclusive or followed by that many shifts. */
  lemma {:induction false} FoldBitsAsWord(poly: seq<bool>, c: seq<bool>, bits: seq<bool>)
    requires |c| == |poly| > 0 && |bits| <= |c|
    ensures FoldBits(poly, c, bits) == Shifts(poly, Xor(c, Widen(bits, |c|)), |bits|)
    decreases |bits|
  {
    if |bits| == 0 {
      assert Xor(c, Widen(bits, |c|)) == c;
    } else {
      FoldBitsAsWord(poly, BitStep(poly, c, bits[0]), bits[1..]);
      ShiftSplits(poly, c, bits);
    }
  }

  /** From one register value, different messages of one length up to the width give different registers. */
  lemma ShortMessagesDiffer(poly: seq<bool>, c: seq<bool>, x: seq<bool>, y: seq<bool>)
    requires IsPolynomial(poly) && |c| == |poly| && |x| == |y| <= |c|
    requires FoldBits(poly, c, x) == FoldBits(poly, c, y)
    ensures x == y
  {
    var v, w := Widen(x, |c|), Widen(y, |c|);
    FoldBitsAsWord(poly, c, x);
    FoldBitsAsWord(poly, c, y);
    ShiftsInjective(poly, Xor(c, v), Xor(c, w), |x|);
    XorCancelLeft(v, w, c);
    assert x == v[..|x|] && y == w[..|x|];
  }

  // ---------------------------------------------------------------- bytes are eight bits

  /** The byte-wise register is the bit-serial register of the standards. */
  lemma {:induction false} FoldIsBitSerial(poly: seq<bool>, c: seq<bool>, data: seq<byte>)
    requires |c| == |poly| >= 8
    ensures Fold(poly, c, data) == FoldBits(poly, c, Bits(data))
    decreases |data|
  {
    if |data| > 0 {
      FoldBitsAsWord(poly, c, BitsOf(data[0]));
      FoldIsBitSerial(poly, ByteStep(poly, c, data[0]), data[1..]);
      FoldBitsAppend(poly, c, BitsOf(data[0]), Bits(data[1..]));
    }
  }

  lemma {:induction false} BitsInjective(x: seq<byte>, y: seq<byte>)
    requires |x| == |y| && Bits(x) == Bits(y)
    ensures x == y
    decreases |x|
  {
    if |x| > 0 {
      assert BitsOf(x[0]) == Bits(x)[..8] == Bits(y)[..8] == BitsOf(y[0]);
      assert Bits(x[1..]) == Bits(x)[8..] == Bits(y)[8..] == Bits(y[1..]);
      ByteBitsRoundTrip(x[0], Zeros(8));
      ByteBitsRoundTrip(y[0], Zeros(8));
      BitsInjective(x[1..], y[1..]);
      assert x == [x[0]] + x[1..] && y == [y[0]] + y[1..];
    }
  }

  lemma {:induction false} BitsAppend(x: seq<byte>, y: seq<byte>)
    ensures Bits(x + y) == Bits(x) + Bits(y)
    decreases |x|
  {
    if |x| == 0 {
      assert x + y == y;
    } else {
      assert (x + y)[1..] == x[1..] + y;
      BitsAppend(x[1..], y);
    }
  }

  // ---------------------------------------------------------------- burst detection

  /** x and y have one length and agree on every bit outside the n bits that start at bit p. */
  ghost predicate DifferOnlyInBurst(x: seq<byte>, y: seq<byte>, p: nat, n: nat) {
    && |x| == |y|
    && forall i | 0 <= i < 8 * |x| && !(p <= i < p + n) :: Bits(x)[i] == Bits(y)[i]
  }

  lemma WindowSlices(a: seq<bool>, b: seq<bool>, p: nat, n: nat)
    returns (pre: seq<bool>, u: seq<bool>, v: seq<bool>, post: seq<bool>)
    requires |a| == |b| && forall i | 0 <= i < |a| && !(p <= i < p + n) :: a[i] == b[i]
    ensures a == pre + (u + post) && b == pre + (v + post) && |u| == |v| <= n
  {
    var lo := if p < |a| then p else |a|;
    var hi := if p + n < |a| then p + n else |a|;
    pre, u, v, post := a[..lo], a[lo..hi], b[lo..hi], a[hi..];
  }

  /** Messages that agree outside one short window leave the same register only when they are equal. */
  lemma {:induction false} WindowDetermined(poly: seq<bool>, c: seq<bool>,
                                            pre: seq<bool>, u: seq<bool>, v: seq<bool>, post: seq<bool>)
    requires IsPolynomial(poly) && |c| == |poly| && |u| == |v| <= |c|
    requires FoldBits(poly, c, pre + (u + post)) == FoldBits(poly, c, pre + (v + post))
    ensures u == v
    decreases |pre|
  {
    if |pre| > 0 {
      assert (pre + (u + post))[1..] == pre[1..] + (u + post);
      assert (pre + (v + post))[1..] == pre[1..] + (v + post);
      WindowDetermined(poly, BitStep(poly, c, pre[0]), pre[1..], u, v, post);
    } else {
      assert pre + (u + post) == u + post && pre + (v + post) == v + post;
      FoldBitsAppend(poly, c, u, post);
      FoldBitsAppend(poly, c, v, post);
      FoldBitsReversible(poly, FoldBits(poly, c, u), FoldBits(poly, c, v), post);
      ShortMessagesDiffer(poly, c, u, v);
    }
  }

  /** Every error burst no longer than the register, at any bit position, changes the register. */
  lemma BurstDetected(poly: seq<bool>, c: seq<bool>, x: seq<byte>, y: seq<byte>, p: nat)
    requires IsPolynomial(poly) && |c| == |poly|
    requires DifferOnlyInBurst(x, y, p, |c|)
    requires x != y
    ensures Fold(poly, c, x) != Fold(poly, c, y)
  {
    if Fold(poly, c, x) == Fold(poly, c, y) {
      FoldIsBitSerial(poly, c, x);
      FoldIsBitSerial(poly, c, y);
      var pre, u, v, post := WindowSlices(Bits(x), Bits(y), p, |c|);
      WindowDetermined(poly, c, pre, u, v, post);
      BitsInjective(x, y);
    }
  }

  /** Byte strings that differ in k consecutive bytes differ in a burst of 8k bits. */
  lemma WindowIsBurst(pre: seq<byte>, u: seq<byte>, v: seq<byte>, post: seq<byte>)
    requires |u| == |v|
    ensures DifferOnlyInBurst(pre + u + post, pre + v + post, 8 * |pre|, 8 * |u|)
  {
    BitsAppend(pre + u, post);
    BitsAppend(pre, u);
    BitsAppend(pre + v, post);
    BitsAppend(pre, v);
  }
}
