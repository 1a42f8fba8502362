/**
 * Polynomials over the field of two elements: what the checksums of kernel/src/crc32.cpp and
 * middleware/src/modbus_module.cpp are, said without shift registers.
 *
 * A polynomial is the sequence of its coefficients, highest degree first.
 */
module Polynomials {
  import opened Words
  import opened Sectors
  import opened ShiftRegister

  function Scaled(b: bool, g: seq<bool>): (p: seq<bool>)
    ensures |p| == |g|
  {
    if b then g else Zeros(|g|)
  }

  /** Schoolbook multiplication. */
  function Product(q: seq<bool>, g: seq<bool>): (p: seq<bool>)
    requires |g| > 0
    ensures |p| == |q| + |g| - 1
    decreases |q|
  {
    if |q| == 0 then Zeros(|g| - 1)
    else Xor(Scaled(q[0], g) + Zeros(|q| - 1), [false] + Product(q[1..], g))
  }

  /** The polynomial with quotient q and remainder r by g. */
  function Recombined(q: seq<bool>, g: seq<bool>, r: seq<bool>): (a: seq<bool>)
    requires |g| == |r| + 1
    ensures |a| == |q| + |r|
  {
    Xor(Product(q, g), Zeros(|q|) + r)
  }

  /** a is a multiple of g plus r, and r has a smaller degree than g. */
  ghost predicate IsRemainder(a: seq<bool>, g: seq<bool>, r: seq<bool>) {
    |g| == |r| + 1 && exists q: seq<bool> :: a == Recombined(q, g, r)
  }

  lemma RecombinedAt(q: seq<bool>, g: seq<bool>, r: seq<bool>, i: nat)
    requires |g| == |r| + 1 && |q| > 0 && i < |q| + |r|
    ensures Recombined(q, g, r)[i]
         == ((Scaled(q[0], g) + Zeros(|q| - 1))[i] != (i > 0 && Recombined(q[1..], g, r)[i - 1]))
  {
    hide Scaled;
    assert i > 0 ==> (Zeros(|q|) + r)[i] == (Zeros(|q| - 1) + r)[i - 1];
  }

  lemma {:induction false} SameRemainder(q: seq<bool>, p: seq<bool>, g: seq<bool>, r: seq<bool>, s: seq<bool>)
    requires |q| == |p| && |g| == |r| + 1 == |s| + 1 && g[0]
    requires Recombined(q, g, r) == Recombined(p, g, s)
    ensures r == s
    decreases |q|
  {
    if |q| == 0 {
      assert forall i | 0 <= i < |r| :: Recombined(q, g, r)[i] == r[i] && Recombined(p, g, s)[i] == s[i];
    } else {
      SameRest(q, p, g, r, s);
      SameRemainder(q[1..], p[1..], g, r, s);
    }
  }

  lemma SameRest(q: seq<bool>, p: seq<bool>, g: seq<bool>, r: seq<bool>, s: seq<bool>)
    requires |q| == |p| > 0 && |g| == |r| + 1 == |s| + 1 && g[0]
    requires Recombined(q, g, r) == Recombined(p, g, s)
    ensures Recombined(q[1..], g, r) == Recombined(p[1..], g, s)
  {
    hide Recombined;
    RecombinedAt(q, g, r, 0);
    RecombinedAt(p, g, s, 0);
    assert q[0] == p[0];
    forall i | 0 <= i < |q| - 1 + |r| ensures Recombined(q[1..], g, r)[i] == Recombined(p[1..], g, s)[i] {
      RecombinedAt(q, g, r, i + 1);
      RecombinedAt(p, g, s, i + 1);
    }
  }

  /** A remainder is unique. */
  lemma RemainderUnique(a: seq<bool>, g: seq<bool>, r: seq<bool>, s: seq<bool>)
    requires IsRemainder(a, g, r) && IsRemainder(a, g, s) && g[0]
    ensures r == s
  {
    hide Product;
    var q: seq<bool> :| a == Recombined(q, g, r);
    var p: seq<bool> :| a == Recombined(p, g, s);
    SameRemainder(q, p, g, r, s);
  }

  /** The quotient a register leaves behind: the bits that fall out. */
  function Quotient(poly: seq<bool>, c: seq<bool>, bits: seq<bool>): (q: seq<bool>)
    requires |c| == |poly| > 0
    ensures |q| == |bits|
    decreases |bits|
  {
    if |bits| == 0 then [] else [c[0] != bits[0]] + Quotient(poly, BitStep(poly, c, bits[0]), bits[1..])
  }

  lemma OneBitDivides(poly: seq<bool>, c: seq<bool>, bit: bool, i: nat)
    requires |c| == |poly| > 0 && 0 < i <= |c|
    ensures (c + [false])[i] == (Scaled(c[0] != bit, [true] + poly)[i] != BitStep(poly, c, bit)[i - 1])
  {
    hide Xor;
    var v := Xor(c, Widen([bit], |c|));
    var moved := v[1..] + [false];
    EnteredBit(c, bit, i);
    assert ([true] + poly)[i] == poly[i - 1];
    assert moved[i - 1] == if i < |c| then v[i] else false;
    assert BitStep(poly, c, bit)[i - 1] == if v[0] then moved[i - 1] != poly[i - 1] else moved[i - 1];
  }

  lemma EnteredBit(c: seq<bool>, bit: bool, i: nat)
    requires |c| > 0
    ensures var v := Xor(c, Widen([bit], |c|)); v[0] == (c[0] != bit) && (0 < i < |c| ==> v[i] == c[i])
  {
    assert Widen([bit], |c|)[0] == [bit][0];
  }

  /** A register's start value and the message behind it, both raised by the length of the other. */
  function Dividend(c: seq<bool>, bits: seq<bool>): (a: seq<bool>)
    ensures |a| == |c| + |bits|
  {
    Xor(c + Zeros(|bits|), bits + Zeros(|c|))
  }

  /** The register divides: what it held and the message leave the register as the remainder. */
  lemma {:induction false} RegisterDivides(poly: seq<bool>, c: seq<bool>, bits: seq<bool>)
    requires |c| == |poly| > 0
    ensures Dividend(c, bits) == Recombined(Quotient(poly, c, bits), [true] + poly, FoldBits(poly, c, bits))
    decreases |bits|
  {
    hide BitStep, Dividend, Recombined, Scaled;
    var q, g, r := Quotient(poly, c, bits), [true] + poly, FoldBits(poly, c, bits);
    if |bits| == 0 {
      NothingDivided(c, bits, g);
    } else {
      var next := BitStep(poly, c, bits[0]);
      RegisterDivides(poly, next, bits[1..]);
      assert q[1..] == Quotient(poly, next, bits[1..]) && q[0] == (c[0] != bits[0]);
      forall i | 0 <= i < |c| + |bits| ensures Dividend(c, bits)[i] == Recombined(q, g, r)[i] {
        BitOfDividend(poly, c, bits, i);
        RecombinedAt(q, g, r, i);
      }
    }
  }

  lemma XorZeros(x: seq<bool>, n: nat)
    requires |x| == n
    ensures Xor(x, Zeros(n)) == x && Xor(Zeros(n), x) == x
  {}

  lemma NothingDivided(c: seq<bool>, bits: seq<bool>, g: seq<bool>)
    requires |g| == |c| + 1 && |bits| == 0
    ensures Dividend(c, bits) == c == Recombined([], g, c)
  {
    hide Dividend, Recombined;
    DividendOfNothing(c);
    RecombinedOfNothing(c, g);
    assert bits == [];
  }

  lemma NoZeros(x: seq<bool>)
    ensures x + Zeros(0) == x && Zeros(0) + x == x
  {}

  lemma DividendOfNothing(c: seq<bool>)
    ensures Dividend(c, []) == c
  {
    hide Xor, Zeros;
    NoZeros(c);
    assert [] + Zeros(|c|) == Zeros(|c|);
    XorZeros(c, |c|);
  }

  lemma RecombinedOfNothing(c: seq<bool>, g: seq<bool>)
    requires |g| == |c| + 1
    ensures Recombined([], g, c) == c
  {
    hide Xor, Zeros, Product;
    NoZeros(c);
    ProductOfNothing(g);
    XorZeros(c, |c|);
  }

  lemma ProductOfNothing(g: seq<bool>)
    requires |g| > 0
    ensures Product([], g) == Zeros(|g| - 1)
  {}

  lemma BitOfDividend(poly: seq<bool>, c: seq<bool>, bits: seq<bool>, i: nat)
    requires |c| == |poly| > 0 && |bits| > 0 && i < |c| + |bits|
    ensures var next, x := BitStep(poly, c, bits[0]), c[0] != bits[0];
      Dividend(c, bits)[i] == ((Scaled(x, [true] + poly) + Zeros(|bits| - 1))[i] != (i > 0 && Dividend(next, bits[1..])[i - 1]))
  {
    if 0 < i <= |c| {
      OneBitDivides(poly, c, bits[0], i);
    }
  }

  /** The first k coefficients complemented. */
  function Complemented(a: seq<bool>, k: nat): (b: seq<bool>)
    ensures |b| == |a| && forall i | 0 <= i < |a| :: b[i] == (a[i] != (i < k))
  {
    seq(|a|, i requires 0 <= i < |a| => a[i] != (i < k))
  }

  /** A register that starts with ones divides the raised message with as many leading bits complemented. */
  lemma OnesDivide(poly: seq<bool>, bits: seq<bool>)
    requires |poly| > 0
    ensures IsRemainder(Complemented(bits + Zeros(|poly|), |poly|), [true] + poly, FoldBits(poly, Ones(|poly|), bits))
  {
    hide Recombined;
    var c := Ones(|poly|);
    RegisterDivides(poly, c, bits);
    assert Dividend(c, bits) == Complemented(bits + Zeros(|poly|), |poly|);
  }

  /** The coefficients of a sum of powers, from degree k down. */
  function Powers(exponents: set<nat>, k: nat): (g: seq<bool>)
    ensures |g| == k + 1 && forall i | 0 <= i <= k :: g[i] == (k - i in exponents)
  {
    seq(k + 1, i requires 0 <= i <= k => k - i in exponents)
  }

  /** Bit i of byte j is the coefficient 8 * j + i of a message: each byte goes out low bit first. */
  lemma {:induction false} BitsInOrder(data: seq<byte>, j: nat, i: nat)
    requires j < |data| && i < 8
    ensures Bits(data)[8 * j + i] == (data[j] / Pow2(i) % 2 == 1)
    decreases j
  {
    hide Pow2, BitsOf;
    if j == 0 {
      BitOfByte(data[0], 8, i);
      assert Bits(data)[i] == BitsOf(data[0])[i];
      ByteBit(data[0], i);
    } else {
      BitsInOrder(data[1..], j - 1, i);
    }
  }

  lemma ByteBit(b: byte, i: nat)
    requires i < 8
    ensures BitsOf(b)[i] == (b / Pow2(i) % 2 == 1)
  {
    BitOfByte(b, 8, i);
  }

  lemma {:induction false} BitOfByte(n: nat, k: nat, i: nat)
    requires i < k
    ensures ToBits(n, k)[i] == (n / Pow2(i) % 2 == 1)
    decreases i
  {
    if i > 0 {
      BitOfByte(n / 2, k - 1, i - 1);
      HalfTwice(n, Pow2(i - 1));
    }
  }

  lemma HalfTwice(n: nat, p: nat)
    requires p > 0
    ensures n / 2 / p == n / (2 * p)
  {
    var q, r := n / 2 / p, n / 2 % p;
    assert n / 2 == q * p + r;
    assert n == 2 * (q * p + r) + n % 2;
    assert n == q * (2 * p) + (2 * r + n % 2);
    DivisionIs(n, 2 * p, q, 2 * r + n % 2);
  }

  lemma DivisionIs(n: nat, d: nat, q: nat, r: nat)
    requires d > 0 && r < d && n == q * d + r
    ensures n / d == q
  {
    TimesIsProduct(q, d);
    DownOfSector(n, q, d);
    DownIsFloor(n, d);
    SameTimes(q, n / d, d);
  }
}

/** The registers as machine words, shifted the way the source writes it; small enough to be worked out for a given message. */
module RegisterWords {
  import opened Words
  import opened ShiftRegister

  function Half(v: bv32): bv32 { v >> 1 }

  function Rest(v: bv32): bv32 { v >> 4 }

  function Mix(a: bv32, b: bv32): bv32 { a ^ b }

  predicate Bit(v: bv32, mask: bv32) { v & mask != 0 }

  predicate Odd(v: bv32) { Bit(v, 1) }

  /** The four low bits. */
  function Nibble(v: bv32): (w: seq<bool>)
    ensures |w| == 4
  {
    [Bit(v, 1), Bit(v, 2), Bit(v, 4), Bit(v, 8)]
  }

  /** The 4 * k low bits of a machine word, low bit first. */
  function Nibbles(v: bv32, k: nat): (w: seq<bool>)
    ensures |w| == 4 * k
  {
    if k == 0 then [] else Nibble(v) + Nibbles(Rest(v), k - 1)
  }

  function WordBits(v: bv32): (w: seq<bool>)
    ensures |w| == 32
  {
    Nibbles(v, 8)
  }

  lemma XorAppend(a: seq<bool>, b: seq<bool>, c: seq<bool>, d: seq<bool>)
    requires |a| == |c| && |b| == |d|
    ensures Xor(a + b, c + d) == Xor(a, c) + Xor(b, d)
  {}

  lemma MixBit1(a: bv32, b: bv32)
    ensures Bit(Mix(a, b), 1) == (Bit(a, 1) != Bit(b, 1))
  {}

  lemma MixBit2(a: bv32, b: bv32)
    ensures Bit(Mix(a, b), 2) == (Bit(a, 2) != Bit(b, 2))
  {}

  lemma MixBit4(a: bv32, b: bv32)
    ensures Bit(Mix(a, b), 4) == (Bit(a, 4) != Bit(b, 4))
  {}

  lemma MixBit8(a: bv32, b: bv32)
    ensures Bit(Mix(a, b), 8) == (Bit(a, 8) != Bit(b, 8))
  {}

  lemma MixRest(a: bv32, b: bv32)
    ensures Rest(Mix(a, b)) == Mix(Rest(a), Rest(b))
  {}

  lemma MixNibble(a: bv32, b: bv32)
    ensures Nibble(Mix(a, b)) == Xor(Nibble(a), Nibble(b)) && Rest(Mix(a, b)) == Mix(Rest(a), Rest(b))
  {
    hide Mix, Rest, Bit;
    MixRest(a, b);
    MixBit1(a, b);
    MixBit2(a, b);
    MixBit4(a, b);
    MixBit8(a, b);
  }

  lemma {:induction false} XorBits(a: bv32, b: bv32, k: nat)
    ensures Nibbles(Mix(a, b), k) == Xor(Nibbles(a, k), Nibbles(b, k))
    decreases k
  {
    hide Nibble, Xor, Mix, Rest;
    if k > 0 {
      MixNibble(a, b);
      XorBits(Rest(a), Rest(b), k - 1);
      XorAppend(Nibble(a), Nibbles(Rest(a), k - 1), Nibble(b), Nibbles(Rest(b), k - 1));
    } else {
      assert Nibbles(Mix(a, b), k) == Xor(Nibbles(a, k), Nibbles(b, k));
    }
  }

  /** Whether the bit above the 4 * k low ones is set. */
  predicate OddAbove(v: bv32, k: nat) {
    if k == 0 then Odd(v) else OddAbove(Rest(v), k - 1)
  }

  lemma HalfWords(v: bv32)
    ensures Rest(Half(v)) == Half(Rest(v)) && Nibble(v)[0] == Odd(v)
    ensures var x, y := Nibble(Half(v)), Nibble(v);
      x[0] == y[1] && x[1] == y[2] && x[2] == y[3] && x[3] == Odd(Rest(v))
  {}

  lemma HalfNibble(v: bv32)
    ensures Nibble(Half(v)) == Nibble(v)[1..] + [Odd(Rest(v))] && Rest(Half(v)) == Half(Rest(v)) && Nibble(v)[0] == Odd(v)
  {
    hide Nibble, Half, Rest, Odd;
    HalfWords(v);
  }

  lemma {:induction false} HalfBits(v: bv32, k: nat)
    ensures (Nibbles(v, k) + [OddAbove(v, k)])[0] == Odd(v)
    ensures Nibbles(Half(v), k) == (Nibbles(v, k) + [OddAbove(v, k)])[1..]
    decreases k
  {
    hide Nibble, Half, Rest, Odd;
    if k > 0 {
      HalfNibble(v);
      HalfBits(Rest(v), k - 1);
      CarryOn(Nibble(v), Nibbles(Rest(v), k - 1) + [OddAbove(Rest(v), k - 1)]);
      assert Nibbles(v, k) + [OddAbove(v, k)] == Nibble(v) + (Nibbles(Rest(v), k - 1) + [OddAbove(Rest(v), k - 1)]);
    }
  }

  lemma CarryOn(x: seq<bool>, y: seq<bool>)
    requires |x| > 0 && |y| > 0
    ensures (x + y)[1..] == (x[1..] + [y[0]]) + y[1..] && (x + y)[0] == x[0]
  {}

  lemma NothingAbove(v: bv32)
    ensures !OddAbove(v, 8)
  {
    FourAbove(v, 4);
    FourAbove(Rest(Rest(Rest(Rest(v)))), 0);
    EightRests(v);
  }

  lemma FourAbove(v: bv32, k: nat)
    ensures OddAbove(v, k + 4) == OddAbove(Rest(Rest(Rest(Rest(v)))), k)
  {
    hide Rest, Odd;
    var one, two := Rest(v), Rest(Rest(v));
    assert OddAbove(v, k + 4) == OddAbove(one, k + 3);
    assert OddAbove(one, k + 3) == OddAbove(two, k + 2);
    assert OddAbove(two, k + 2) == OddAbove(Rest(two), k + 1);
  }

  lemma EightRests(v: bv32)
    ensures !Odd(Rest(Rest(Rest(Rest(Rest(Rest(Rest(Rest(v)))))))))
  {
    hide Rest, Odd;
    var four := Rest(Rest(Rest(Rest(v))));
    RestBelow(v, 0xFFFF_FFFF, 0x0FFF_FFFF);
    RestBelow(Rest(v), 0x0FFF_FFFF, 0x00FF_FFFF);
    RestBelow(Rest(Rest(v)), 0x00FF_FFFF, 0x000F_FFFF);
    RestBelow(Rest(Rest(Rest(v))), 0x000F_FFFF, 0xFFFF);
    RestBelow(four, 0xFFFF, 0xFFF);
    RestBelow(Rest(four), 0xFFF, 0xFF);
    RestBelow(Rest(Rest(four)), 0xFF, 0xF);
    NibbleGone(Rest(Rest(Rest(four))));
  }

  lemma RestBelow(v: bv32, limit: bv32, next: bv32)
    requires v <= limit && limit >> 4 == next
    ensures Rest(v) <= next
  {}

  lemma NibbleGone(v: bv32)
    requires v <= 0xF
    ensures !Odd(Rest(v))
  {}

  /** crc = (crc >> 1) ^ (crc & 1 ? polynomial : 0) */
  function Next(poly: bv32, v: bv32): bv32 { if Odd(v) then Mix(Half(v), poly) else Half(v) }

  function NextByte(poly: bv32, v: bv32, b: bv32): bv32 {
    Next(poly, Next(poly, Next(poly, Next(poly, Next(poly, Next(poly, Next(poly, Next(poly, Mix(v, b)))))))))
  }

  /** The bits of a machine word that has no others. */
  ghost predicate Spells(w: seq<bool>, v: bv32) { 8 <= |w| <= 32 && WordBits(v) == w + Zeros(32 - |w|) }

  lemma NextSpells(poly: seq<bool>, p: bv32, w: seq<bool>, v: bv32)
    requires |w| == |poly| && Spells(poly, p) && Spells(w, v)
    ensures Spells(Shift(poly, w), Next(p, v))
  {
    hide Nibbles, Xor, OddAbove, Half, Mix, Odd;
    HalfBits(v, 8);
    NothingAbove(v);
    XorBits(Half(v), p, 8);
    var z, half := Zeros(32 - |w|), w[1..] + [false];
    ShiftedZeros(w, 32 - |w|);
    assert WordBits(Half(v)) == half + z;
    XorAppend(half, z, poly, z);
    XorSelf(z);
  }

  lemma ShiftedZeros(w: seq<bool>, n: nat)
    requires |w| > 0
    ensures (w + Zeros(n) + [false])[1..] == (w[1..] + [false]) + Zeros(n) && (w + Zeros(n) + [false])[0] == w[0]
  {}

  lemma XorSelf(z: seq<bool>)
    ensures Xor(z, z) == Zeros(|z|)
  {}

  lemma XorSpells(x: seq<bool>, a: bv32, y: seq<bool>, b: bv32)
    requires |y| <= |x| && Spells(x, a) && Spells(y, b)
    ensures Spells(Xor(x, Widen(y, |x|)), Mix(a, b))
  {
    hide Nibbles, Xor, Mix;
    XorBits(a, b, 8);
    var z := Zeros(32 - |x|);
    assert Widen(y, |x|) + z == y + Zeros(32 - |y|);
    XorAppend(x, z, Widen(y, |x|), z);
    XorSelf(z);
  }

  lemma NextByteSpells(poly: seq<bool>, p: bv32, w: seq<bool>, v: bv32, b: byte, u: bv32)
    requires |w| == |poly| && Spells(poly, p) && Spells(w, v) && Spells(BitsOf(b), u)
    ensures Spells(ByteStep(poly, w, b), NextByte(p, v, u))
  {
    hide WordBits, Next, Shift, BitsOf, Mix;
    XorSpells(w, v, BitsOf(b), u);
    var w0, v0 := Xor(w, Widen(BitsOf(b), |w|)), Mix(v, u);
    var w1, v1 := Shift(poly, w0), Next(p, v0);
    NextSpells(poly, p, w0, v0);
    var w2, v2 := Shift(poly, w1), Next(p, v1);
    NextSpells(poly, p, w1, v1);
    var w3, v3 := Shift(poly, w2), Next(p, v2);
    NextSpells(poly, p, w2, v2);
    var w4, v4 := Shift(poly, w3), Next(p, v3);
    NextSpells(poly, p, w3, v3);
    var w5, v5 := Shift(poly, w4), Next(p, v4);
    NextSpells(poly, p, w4, v4);
    var w6, v6 := Shift(poly, w5), Next(p, v5);
    NextSpells(poly, p, w5, v5);
    var w7, v7 := Shift(poly, w6), Next(p, v6);
    NextSpells(poly, p, w6, v6);
    NextSpells(poly, p, w7, v7);
    EightShifts(poly, w0);
  }

  lemma EightShifts(poly: seq<bool>, w: seq<bool>)
    requires |w| == |poly| > 0
    ensures Shifts(poly, w, 8)
         == Shift(poly, Shift(poly, Shift(poly, Shift(poly, Shift(poly, Shift(poly, Shift(poly, Shift(poly, w))))))))
  {
    hide Shift;
    var w4 := Shift(poly, Shift(poly, Shift(poly, Shift(poly, w))));
    assert Shifts(poly, w, 8) == Shifts(poly, w4, 4);
    assert Shifts(poly, w4, 4) == Shift(poly, Shift(poly, Shift(poly, Shift(poly, w4))));
  }

  // ---------------------------------------------------------------- words and numbers

  lemma ToNatStep(w: seq<bool>)
    requires |w| > 0
    ensures ToNat(w) == (if w[0] then 1 else 0) + 2 * ToNat(w[1..])
  {}

  lemma ToNatNibble(w: seq<bool>)
    requires |w| >= 4
    ensures ToNat(w) == (if w[0] then 1 else 0) + (if w[1] then 2 else 0) + (if w[2] then 4 else 0) + (if w[3] then 8 else 0) + 16 * ToNat(w[4..])
  {
    ToNatStep(w);
    ToNatStep(w[1..]);
    ToNatStep(w[1..][1..]);
    ToNatStep(w[1..][1..][1..]);
    assert w[1..][1..][1..][1..] == w[4..];
  }

  function NibbleNumber(v: bv32): nat {
    (if Bit(v, 1) then 1 else 0) + (if Bit(v, 2) then 2 else 0) + (if Bit(v, 4) then 4 else 0) + (if Bit(v, 8) then 8 else 0)
  }

  /** The number in the 4 * k low bits. */
  function Number(v: bv32, k: nat): nat {
    if k == 0 then 0 else NibbleNumber(v) + 16 * Number(Rest(v), k - 1)
  }

  lemma {:induction false} NumberIs(v: bv32, k: nat)
    ensures ToNat(Nibbles(v, k)) == Number(v, k)
    decreases k
  {
    hide Bit, Rest, ToNat;
    if k > 0 {
      ToNatNibble(Nibbles(v, k));
      NumberIs(Rest(v), k - 1);
      assert Nibbles(v, k)[4..] == Nibbles(Rest(v), k - 1);
    } else {
      NumberOfNothing();
    }
  }

  lemma NumberOfNothing()
    ensures ToNat([]) == 0
  {}

  /** A number and a machine word of the same value have the same bits. */
  lemma NumberSpells(n: nat, k: nat, v: bv32)
    requires Number(v, 8) == n < Pow2(k) && 8 <= k <= 32
    ensures Spells(ToBits(n, k), v)
  {
    hide Number, Nibbles, ToBits, ToNat, Pow2;
    NumberIs(v, 8);
    ToBitsToNat(WordBits(v));
    ToBitsWiden(n, k, 32 - k);
  }

  lemma SpelledAlike(x: seq<bool>, y: seq<bool>, v: bv32)
    requires |x| == |y| && Spells(x, v) && Spells(y, v)
    ensures x == y
  {
    hide Nibbles;
    var z := Zeros(32 - |x|);
    assert (x + z)[..|x|] == x && (y + z)[..|y|] == y;
  }

  function FoldWord(poly: bv32, v: bv32, data: seq<bv32>): bv32
    decreases |data|
  {
    if |data| == 0 then v else FoldWord(poly, NextByte(poly, v, data[0]), data[1..])
  }

  lemma {:induction false} FoldSpells(poly: seq<bool>, p: bv32, w: seq<bool>, v: bv32, data: seq<byte>, words: seq<bv32>)
    requires |w| == |poly| >= 8 && Spells(poly, p) && Spells(w, v) && |data| == |words|
    requires forall i | 0 <= i < |data| :: Spells(BitsOf(data[i]), words[i])
    ensures Spells(Fold(poly, w, data), FoldWord(p, v, words))
    decreases |data|
  {
    hide Spells, ByteStep, NextByte, BitsOf;
    if |data| > 0 {
      NextByteSpells(poly, p, w, v, data[0], words[0]);
      FoldSpells(poly, p, ByteStep(poly, w, data[0]), NextByte(p, v, words[0]), data[1..], words[1..]);
    }
  }

  // ---------------------------------------------------------------- the digits 1 to 9

  const DIGITS: seq<byte> := [49, 50, 51, 52, 53, 54, 55, 56, 57]

  const DIGIT_WORDS: seq<bv32> := [49, 50, 51, 52, 53, 54, 55, 56, 57]

  lemma DigitsSpell()
    ensures forall i | 0 <= i < 9 :: Spells(BitsOf(DIGITS[i]), DIGIT_WORDS[i])
  {
    hide ToBits, Spells;
    PowersOfTwo();
    assert Number(49, 8) == 49;
    NumberSpells(49, 8, 49);
    assert Number(50, 8) == 50;
    NumberSpells(50, 8, 50);
    assert Number(51, 8) == 51;
    NumberSpells(51, 8, 51);
    assert Number(52, 8) == 52;
    NumberSpells(52, 8, 52);
    assert Number(53, 8) == 53;
    NumberSpells(53, 8, 53);
    assert Number(54, 8) == 54;
    NumberSpells(54, 8, 54);
    assert Number(55, 8) == 55;
    NumberSpells(55, 8, 55);
    assert Number(56, 8) == 56;
    NumberSpells(56, 8, 56);
    assert Number(57, 8) == 57;
    NumberSpells(57, 8, 57);
  }

  lemma {:induction false} FoldWordTail(poly: bv32, v: seq<bv32>, data: seq<bv32>, i: nat)
    requires |v| == |data| + 1 && i <= |data| && forall j | 0 <= j < |data| :: v[j + 1] == NextByte(poly, v[j], data[j])
    ensures FoldWord(poly, v[i], data[i..]) == v[|data|]
    decreases |data| - i
  {
    hide NextByte;
    if i < |data| {
      assert data[i..][0] == data[i] && data[i..][1..] == data[i + 1..];
      FoldWordTail(poly, v, data, i + 1);
    }
  }

  lemma DigitsBy32Steps()
    ensures NextByte(0xEDB88320, 0xFFFFFFFF, 49) == 0x7C231048
    ensures NextByte(0xEDB88320, 0x7C231048, 50) == 0xB0ACBB32
    ensures NextByte(0xEDB88320, 0xB0ACBB32, 51) == 0x77B79C2D
    ensures NextByte(0xEDB88320, 0x77B79C2D, 52) == 0x641C1F5C
    ensures NextByte(0xEDB88320, 0x641C1F5C, 53) == 0x340AC5E3
    ensures NextByte(0xEDB88320, 0x340AC5E3, 54) == 0xF68D2C9E
    ensures NextByte(0xEDB88320, 0xF68D2C9E, 55) == 0xAFFC9660
    ensures NextByte(0xEDB88320, 0xAFFC9660, 56) == 0x651F2550
    ensures NextByte(0xEDB88320, 0x651F2550, 57) == 0x340BC6D9
  {}

  lemma DigitsBy32()
    ensures FoldWord(0xEDB88320, 0xFFFFFFFF, DIGIT_WORDS) == 0x340BC6D9
  {
    hide NextByte, FoldWord;
    DigitsBy32Steps();
    var v: seq<bv32> := [0xFFFFFFFF, 0x7C231048, 0xB0ACBB32, 0x77B79C2D, 0x641C1F5C, 0x340AC5E3, 0xF68D2C9E, 0xAFFC9660, 0x651F2550, 0x340BC6D9];
    FoldWordTail(0xEDB88320, v, DIGIT_WORDS, 0);
    assert DIGIT_WORDS[0..] == DIGIT_WORDS;
  }

  lemma DigitsBy16Steps()
    ensures NextByte(0xA001, 0xFFFF, 49) == 0x947E
    ensures NextByte(0xA001, 0x947E, 50) == 0xF595
    ensures NextByte(0xA001, 0xF595, 51) == 0x7A75
    ensures NextByte(0xA001, 0x7A75, 52) == 0x30BA
    ensures NextByte(0xA001, 0x30BA, 53) == 0xA471
    ensures NextByte(0xA001, 0xA471, 54) == 0x32E4
    ensures NextByte(0xA001, 0x32E4, 55) == 0x9D73
    ensures NextByte(0xA001, 0x9D73, 56) == 0x37DD
    ensures NextByte(0xA001, 0x37DD, 57) == 0x4B37
  {}

  lemma DigitsBy16()
    ensures FoldWord(0xA001, 0xFFFF, DIGIT_WORDS) == 0x4B37
  {
    hide NextByte, FoldWord;
    DigitsBy16Steps();
    var v: seq<bv32> := [0xFFFF, 0x947E, 0xF595, 0x7A75, 0x30BA, 0xA471, 0x32E4, 0x9D73, 0x37DD, 0x4B37];
    FoldWordTail(0xA001, v, DIGIT_WORDS, 0);
    assert DIGIT_WORDS[0..] == DIGIT_WORDS;
  }
}

/** What the two checksums are. */
module ChecksumMeaning {
  import opened Words
  import opened ShiftRegister
  import opened Polynomials
  import opened RegisterWords
  import C = Crc32Spec
  import M = ModbusSpec

  /** The generator of IEEE 802.3, clause 3.2.9. */
  function Generator32(): (g: seq<bool>)
    ensures |g| == 33 && g[0]
  {
    Powers({32, 26, 23, 22, 16, 12, 11, 10, 8, 7, 5, 4, 2, 1, 0}, 32)
  }

  /** The generator of the Modbus serial line, section 6.2.2. */
  function Generator16(): (g: seq<bool>)
    ensures |g| == 17 && g[0]
  {
    Powers({16, 15, 2, 0}, 16)
  }

  lemma NoCoefficients()
    ensures ToBits(0, 0) == []
  {}

  /** From place i of a generator on, low bits first. */
  lemma NextCoefficient(g: seq<bool>, n: nat, i: nat)
    requires i < |g| && ToBits(n / 2, |g| - i - 1) == g[i + 1..] && (n % 2 == 1) == g[i]
    ensures ToBits(n, |g| - i) == g[i..]
  {}

  lemma GeneratorBits32()
    ensures [true] + ToBits(0xEDB88320, 32) == Generator32()
  {
    hide ToBits;
    var g := Generator32();
    assert g[33..] == [];
    NoCoefficients();
    NextCoefficient(g, 0x1, 32);
    NextCoefficient(g, 0x3, 31);
    NextCoefficient(g, 0x7, 30);
    NextCoefficient(g, 0xE, 29);
    NextCoefficient(g, 0x1D, 28);
    NextCoefficient(g, 0x3B, 27);
    NextCoefficient(g, 0x76, 26);
    NextCoefficient(g, 0xED, 25);
    NextCoefficient(g, 0x1DB, 24);
    NextCoefficient(g, 0x3B6, 23);
    NextCoefficient(g, 0x76D, 22);
    NextCoefficient(g, 0xEDB, 21);
    NextCoefficient(g, 0x1DB7, 20);
    NextCoefficient(g, 0x3B6E, 19);
    NextCoefficient(g, 0x76DC, 18);
    NextCoefficient(g, 0xEDB8, 17);
    NextCoefficient(g, 0x1DB71, 16);
    NextCoefficient(g, 0x3B6E2, 15);
    NextCoefficient(g, 0x76DC4, 14);
    NextCoefficient(g, 0xEDB88, 13);
    NextCoefficient(g, 0x1DB710, 12);
    NextCoefficient(g, 0x3B6E20, 11);
    NextCoefficient(g, 0x76DC41, 10);
    NextCoefficient(g, 0xEDB883, 9);
    NextCoefficient(g, 0x1DB7106, 8);
    NextCoefficient(g, 0x3B6E20C, 7);
    NextCoefficient(g, 0x76DC419, 6);
    NextCoefficient(g, 0xEDB8832, 5);
    NextCoefficient(g, 0x1DB71064, 4);
    NextCoefficient(g, 0x3B6E20C8, 3);
    NextCoefficient(g, 0x76DC4190, 2);
    NextCoefficient(g, 0xEDB88320, 1);
    assert [g[0]] + g[1..] == g;
  }

  lemma GeneratorBits16()
    ensures [true] + ToBits(0xA001, 16) == Generator16()
  {
    hide ToBits;
    var g := Generator16();
    assert g[17..] == [];
    NoCoefficients();
    NextCoefficient(g, 0x1, 16);
    NextCoefficient(g, 0x2, 15);
    NextCoefficient(g, 0x5, 14);
    NextCoefficient(g, 0xA, 13);
    NextCoefficient(g, 0x14, 12);
    NextCoefficient(g, 0x28, 11);
    NextCoefficient(g, 0x50, 10);
    NextCoefficient(g, 0xA0, 9);
    NextCoefficient(g, 0x140, 8);
    NextCoefficient(g, 0x280, 7);
    NextCoefficient(g, 0x500, 6);
    NextCoefficient(g, 0xA00, 5);
    NextCoefficient(g, 0x1400, 4);
    NextCoefficient(g, 0x2800, 3);
    NextCoefficient(g, 0x5000, 2);
    NextCoefficient(g, 0xA001, 1);
    assert [g[0]] + g[1..] == g;
  }

  lemma Polynomial32()
    ensures [true] + C.POLYNOMIAL == Generator32() && Spells(C.POLYNOMIAL, 0xEDB88320)
  {
    hide Spells, ToBits, Pow2;
    PowersOfTwo();
    assert Number(0xEDB88320, 8) == 0xEDB88320;
    NumberSpells(0xEDB88320, 32, 0xEDB88320);
    GeneratorBits32();
  }

  /** The message with k zeros behind it and its first k coefficients complemented. */
  function Raised(data: seq<byte>, k: nat): (a: seq<bool>)
    ensures |a| == 8 * |data| + k
    ensures forall i | 0 <= i < |a| :: a[i] == ((i < 8 * |data| && Bits(data)[i]) != (i < k))
  {
    Complemented(Bits(data) + Zeros(k), k)
  }

  /**
   * The frame check sequence of IEEE 802.3: a number is the checksum of a byte string exactly when its
   * complement, low bit first, is the remainder of the message, raised by 32 and with its first 32
   * coefficients complemented, by the generator.
   */
  lemma CrcIsRemainderIff(data: seq<byte>, c: u32)
    ensures IsRemainder(Raised(data, 32), Generator32(), Complemented(ToBits(c, 32), 32)) <==> c == C.Crc(data)
  {
    hide ToBits, FoldBits, Bits, Raised, IsRemainder, Generator32;
    var r := FoldBits(C.POLYNOMIAL, Ones(32), Bits(data));
    Remainder32(data);
    RegisterOfCrc(data);
    if c == C.Crc(data) {
      assert Complemented(ToBits(c, 32), 32) == r;
    }
    if IsRemainder(Raised(data, 32), Generator32(), Complemented(ToBits(c, 32), 32)) {
      RemainderUnique(Raised(data, 32), Generator32(), Complemented(ToBits(c, 32), 32), r);
      SameComplement(ToBits(c, 32), ToBits(C.Crc(data), 32));
      C.WordRoundTrip(c);
      C.WordRoundTrip(C.Crc(data));
    }
  }

  lemma SameComplement(v: seq<bool>, w: seq<bool>)
    requires |v| == |w| && Complemented(v, |v|) == Complemented(w, |w|)
    ensures v == w
  {
    forall i | 0 <= i < |v| ensures v[i] == w[i] {
      assert Complemented(v, |v|)[i] == Complemented(w, |w|)[i];
    }
  }

  lemma Remainder32(data: seq<byte>)
    ensures IsRemainder(Raised(data, 32), Generator32(), FoldBits(C.POLYNOMIAL, Ones(32), Bits(data)))
  {
    hide FoldBits, Bits, IsRemainder, Generator32;
    Polynomial32();
    OnesDivide(C.POLYNOMIAL, Bits(data));
  }

  lemma AllOnes32()
    ensures ToBits(C.INITIAL, 32) == Ones(32)
  {
    hide ToBits;
    PowersOfTwo();
    AllOnes(32);
  }

  /** The checksum is the complemented register. */
  lemma RegisterOfCrc(data: seq<byte>)
    ensures Complemented(ToBits(C.Crc(data), 32), 32) == FoldBits(C.POLYNOMIAL, Ones(32), Bits(data))
    ensures ToBits(C.Crc(data), 32) == Xor(Fold(C.POLYNOMIAL, Ones(32), data), Ones(32))
  {
    CrcWith(C.POLYNOMIAL, data);
  }

  lemma CrcWith(poly: C.word32, data: seq<byte>)
    ensures var r := Fold(poly, Ones(32), data);
      var n := NumberOf(Xor(ToBits(NumberOf(Fold(poly, ToBits(C.INITIAL, 32), data)), 32), Ones(32)));
      && r == FoldBits(poly, Ones(32), Bits(data))
      && ToBits(n, 32) == Xor(r, Ones(32)) && Complemented(ToBits(n, 32), 32) == r
  {
    hide ToBits, ToNat, Fold, FoldBits, Bits;
    AllOnes32();
    FoldIsBitSerial(poly, Ones(32), data);
    var r := Fold(poly, Ones(32), data);
    ToBitsToNat(r);
    ToBitsToNat(Xor(r, Ones(32)));
  }

  /** The check value of the standard: the checksum of "123456789" is 0xCBF43926. */
  lemma CrcOfDigits()
    ensures C.Crc([0x31, 0x32, 0x33, 0x34, 0x35, 0x36, 0x37, 0x38, 0x39]) == 0xCBF4_3926
  {
    hide ToBits, Fold, FoldWord, Nibbles, Number;
    Polynomial32();
    OnesSpell32();
    DigitsSpell();
    FoldSpells(C.POLYNOMIAL, 0xEDB88320, Ones(32), 0xFFFFFFFF, DIGITS, DIGIT_WORDS);
    DigitsBy32();
    CheckValue32(Fold(C.POLYNOMIAL, Ones(32), DIGITS));
    RegisterOfCrc(DIGITS);
    C.WordRoundTrip(C.Crc(DIGITS));
    C.WordRoundTrip(0xCBF4_3926);
  }

  lemma OnesSpell32()
    ensures Spells(Ones(32), 0xFFFFFFFF)
  {
    hide Spells, ToBits;
    PowersOfTwo();
    assert Number(0xFFFFFFFF, 8) == 0xFFFF_FFFF;
    NumberSpells(0xFFFF_FFFF, 32, 0xFFFFFFFF);
    AllOnes32();
  }

  lemma CheckValue32(r: seq<bool>)
    requires |r| == 32 && Spells(r, 0x340BC6D9)
    ensures Xor(r, Ones(32)) == ToBits(0xCBF4_3926, 32)
  {
    hide ToBits, Nibbles;
    PowersOfTwo();
    OnesSpell32();
    XorSpells(r, 0x340BC6D9, Ones(32), 0xFFFFFFFF);
    assert Widen(Ones(32), 32) == Ones(32);
    assert Mix(0x340BC6D9, 0xFFFFFFFF) == 0xCBF43926;
    assert Number(0xCBF43926, 8) == 0xCBF4_3926;
    NumberSpells(0xCBF4_3926, 32, 0xCBF43926);
    SpelledAlike(Xor(r, Ones(32)), ToBits(0xCBF4_3926, 32), 0xCBF43926);
  }

  // ---------------------------------------------------------------- Modbus

  lemma Polynomial16()
    ensures [true] + M.POLYNOMIAL == Generator16() && Spells(M.POLYNOMIAL, 0xA001)
  {
    hide Spells, ToBits, Pow2;
    PowersOfTwo();
    assert Number(0xA001, 8) == 0xA001;
    NumberSpells(0xA001, 16, 0xA001);
    GeneratorBits16();
  }

  /**
   * The checksum of the serial line: a number is the checksum of a frame exactly when it is, low bit first,
   * the remainder of the frame, raised by 16 and with its first 16 coefficients complemented, by the generator.
   */
  lemma ModbusCrcIsRemainderIff(data: seq<byte>, c: u16)
    ensures IsRemainder(Raised(data, 16), Generator16(), ToBits(c, 16)) <==> c == M.Crc16(data)
  {
    hide ToBits, Bits, Raised, IsRemainder, Generator16;
    var r := ToBits(M.Crc16(data), 16);
    Remainder16(data);
    if IsRemainder(Raised(data, 16), Generator16(), ToBits(c, 16)) {
      RemainderUnique(Raised(data, 16), Generator16(), ToBits(c, 16), r);
      ShortRoundTrip(c);
      ShortRoundTrip(M.Crc16(data));
    }
  }

  lemma ShortRoundTrip(c: u16)
    ensures NumberOf(ToBits(c, 16)) == c
  {
    PowersOfTwo();
    ToNatToBits(c, 16);
  }

  lemma Remainder16(data: seq<byte>)
    ensures IsRemainder(Raised(data, 16), Generator16(), ToBits(M.Crc16(data), 16))
    ensures ToBits(M.Crc16(data), 16) == Fold(M.POLYNOMIAL, Ones(16), data)
  {
    hide ToBits, ToNat, Fold, FoldBits, Bits, IsRemainder, Generator16;
    Polynomial16();
    OnesDivide(M.POLYNOMIAL, Bits(data));
    FoldIsBitSerial(M.POLYNOMIAL, Ones(16), data);
    ToBitsToNat(Fold(M.POLYNOMIAL, Ones(16), data));
  }

  /** The check value of the serial line: the checksum of "123456789" is 0x4B37. */
  lemma ModbusCrcOfDigits()
    ensures M.Crc16([0x31, 0x32, 0x33, 0x34, 0x35, 0x36, 0x37, 0x38, 0x39]) == 0x4B37
  {
    hide ToBits, Fold, FoldWord, Nibbles, Number;
    Polynomial16();
    OnesSpell16();
    DigitsSpell();
    FoldSpells(M.POLYNOMIAL, 0xA001, Ones(16), 0xFFFF, DIGITS, DIGIT_WORDS);
    DigitsBy16();
    CheckValue16(Fold(M.POLYNOMIAL, Ones(16), DIGITS));
    Remainder16(DIGITS);
    ShortRoundTrip(M.Crc16(DIGITS));
    ShortRoundTrip(0x4B37);
  }

  lemma OnesSpell16()
    ensures Spells(Ones(16), 0xFFFF)
  {
    hide Spells, ToBits;
    PowersOfTwo();
    AllOnes(16);
    assert Number(0xFFFF, 8) == 0xFFFF;
    NumberSpells(0xFFFF, 16, 0xFFFF);
  }

  lemma CheckValue16(r: seq<bool>)
    requires |r| == 16 && Spells(r, 0x4B37)
    ensures r == ToBits(0x4B37, 16)
  {
    hide ToBits, Nibbles;
    PowersOfTwo();
    assert Number(0x4B37, 8) == 0x4B37;
    NumberSpells(0x4B37, 16, 0x4B37);
    SpelledAlike(r, ToBits(0x4B37, 16), 0x4B37);
  }
}
