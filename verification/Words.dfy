/**
 * Machine words.
 *
 * Bytes and the 32-bit fields of headers are numbers of the right range.  Where the source
 * shifts and xors (its checksums), a word is the sequence of its bits, least significant first.
 */
module Words {

  type byte = x: nat | x < 256

  type u32 = x: nat | x < 0x1_0000_0000

  type u16 = x: nat | x < 0x1_0000

  /** 32-bit unsigned arithmetic wraps. */
  function Wrap32(x: int): (r: u32)
    ensures 0 <= x < 0x1_0000_0000 ==> r == x
  {
    x % 0x1_0000_0000
  }

  // ---------------------------------------------------------------- bits and numbers

  function Pow2(k: nat): (p: nat)
    ensures p > 0
  {
    if k == 0 then 1 else 2 * Pow2(k - 1)
  }

  /** The number a word denotes. */
  function ToNat(w: seq<bool>): nat {
    if |w| == 0 then 0 else (if w[0] then 1 else 0) + 2 * ToNat(w[1..])
  }

  /** The k low bits of a number. */
  function ToBits(n: nat, k: nat): (w: seq<bool>)
    ensures |w| == k
  {
    if k == 0 then [] else [n % 2 == 1] + ToBits(n / 2, k - 1)
  }

  lemma {:induction false} ToNatBound(w: seq<bool>)
    ensures ToNat(w) < Pow2(|w|)
    decreases |w|
  {
    if |w| > 0 {
      ToNatBound(w[1..]);
    }
  }

  lemma {:induction false} ToBitsToNat(w: seq<bool>)
    ensures ToBits(ToNat(w), |w|) == w
    decreases |w|
  {
    if |w| > 0 {
      ToBitsToNat(w[1..]);
      assert ToNat(w) / 2 == ToNat(w[1..]) && (ToNat(w) % 2 == 1 <==> w[0]);
      assert w == [w[0]] + w[1..];
    }
  }

  lemma {:induction false} ToNatToBits(n: nat, k: nat)
    requires n < Pow2(k)
    ensures ToNat(ToBits(n, k)) == n
    decreases k
  {
    if k > 0 {
      ToNatToBits(n / 2, k - 1);
      assert ToBits(n, k)[1..] == ToBits(n / 2, k - 1);
    }
  }

  lemma {:induction false} HighestBit(n: nat, k: nat)
    requires k > 0 && Pow2(k - 1) <= n < Pow2(k)
    ensures ToBits(n, k)[k - 1]
    decreases k
  {
    if k > 1 {
      HighestBit(n / 2, k - 1);
    }
  }

  /** A number in more bits than it needs. */
  lemma {:induction false} ToBitsWiden(n: nat, k: nat, m: nat)
    requires n < Pow2(k)
    ensures ToBits(n, k + m) == ToBits(n, k) + Zeros(m)
    decreases k
  {
    if k > 0 {
      ToBitsWiden(n / 2, k - 1, m);
    } else {
      ToBitsOfZero(m);
    }
  }

  lemma {:induction false} ToBitsOfZero(m: nat)
    ensures ToBits(0, m) == Zeros(m)
    decreases m
  {
    if m > 0 {
      ToBitsOfZero(m - 1);
    }
  }

  lemma PowersOfTwo()
    ensures Pow2(8) == 256 && Pow2(16) == 0x1_0000 && Pow2(32) == 0x1_0000_0000
  {
    assert Pow2(4) == 16;
    assert Pow2(8) == 256;
    assert Pow2(12) == 0x1000;
    assert Pow2(16) == 0x1_0000;
    assert Pow2(20) == 0x10_0000;
    assert Pow2(24) == 0x100_0000;
    assert Pow2(28) == 0x1000_0000;
  }

  /** The bits of a byte in transmission order. */
  function BitsOf(b: byte): (w: seq<bool>)
    ensures |w| == 8
  {
    ToBits(b, 8)
  }

  /** The byte with the given bits. */
  function ByteOf(w: seq<bool>): byte
    requires |w| == 8
  {
    ToNatBound(w);
    PowersOfTwo();
    ToNat(w)
  }

  lemma ByteBitsRoundTrip(b: byte, w: seq<bool>)
    requires |w| == 8
    ensures ByteOf(BitsOf(b)) == b && BitsOf(ByteOf(w)) == w
  {
    PowersOfTwo();
    ToNatToBits(b, 8);
    ToBitsToNat(w);
  }

  /** The number with the given bits, in the range of the word's type. */
  function NumberOf(w: seq<bool>): (n: nat)
    ensures |w| == 16 ==> n < 0x1_0000
    ensures |w| == 32 ==> n < 0x1_0000_0000
  {
    ToNatBound(w);
    PowersOfTwo();
    ToNat(w)
  }

  lemma NumberOfInjective(v: seq<bool>, w: seq<bool>)
    requires |v| == |w| && NumberOf(v) == NumberOf(w)
    ensures v == w
  {
    ToBitsToNat(v);
    ToBitsToNat(w);
  }

  // ---------------------------------------------------------------- bitwise operations

  function Zeros(n: nat): (w: seq<bool>)
    ensures |w| == n && forall i | 0 <= i < n :: !w[i]
  {
    seq(n, _ => false)
  }

  function Ones(n: nat): (w: seq<bool>)
    ensures |w| == n && forall i | 0 <= i < n :: w[i]
  {
    seq(n, _ => true)
  }

  /** Exclusive or, written ^ in the source. */
  function Xor(x: seq<bool>, y: seq<bool>): (z: seq<bool>)
    requires |x| == |y|
    ensures |z| == |x| && forall i | 0 <= i < |x| :: z[i] == (x[i] != y[i])
  {
    seq(|x|, i requires 0 <= i < |x| => x[i] != y[i])
  }

  /** Conversion to a wider word. */
  function Widen(w: seq<bool>, n: nat): (z: seq<bool>)
    requires |w| <= n
    ensures |z| == n && z[..|w|] == w && forall i | |w| <= i < n :: !z[i]
  {
    w + Zeros(n - |w|)
  }

  /** Bitwise and of two bytes, as NOR flash computes it. */
  function And(a: byte, b: byte): byte {
    ByteOf(seq(8, i requires 0 <= i < 8 => BitsOf(a)[i] && BitsOf(b)[i]))
  }

  lemma {:induction false} AllOnes(k: nat)
    ensures ToBits(Pow2(k) - 1, k) == Ones(k)
    decreases k
  {
    if k > 0 {
      AllOnes(k - 1);
      assert (Pow2(k) - 1) / 2 == Pow2(k - 1) - 1;
    }
  }

  lemma AndOnes(a: byte, b: byte)
    requires BitsOf(a) == Ones(8)
    ensures And(a, b) == b
  {
    var v := seq(8, i requires 0 <= i < 8 => BitsOf(a)[i] && BitsOf(b)[i]);
    assert v == BitsOf(b);
    ByteBitsRoundTrip(b, v);
  }

  /** Programming an erased byte stores the byte. */
  lemma AndErased(b: byte)
    ensures And(0xFF, b) == b
  {
    PowersOfTwo();
    AllOnes(8);
    AndOnes(0xFF, b);
  }

  // ---------------------------------------------------------------- little-endian fields

  /** A 32-bit field in memory order. */
  function Le32(n: u32): (s: seq<byte>)
    ensures |s| == 4
  {
    var m1: nat := n / 0x100;
    var m2: nat := m1 / 0x100;
    var m3: nat := m2 / 0x100;
    [n % 0x100, m1 % 0x100, m2 % 0x100, m3]
  }

  function FromLe32(s: seq<byte>): u32
    requires |s| == 4
  {
    var m3: nat := s[3];
    var m2: nat := s[2] + 0x100 * m3;
    var m1: nat := s[1] + 0x100 * m2;
    s[0] + 0x100 * m1
  }

  lemma Le32RoundTrip(n: u32)
    ensures FromLe32(Le32(n)) == n
  {}

  /** The number in four bytes of a string, the lowest first. */
  function Field(s: seq<byte>, o: nat): nat
    requires o + 4 <= |s|
  {
    var b0: nat, b1: nat, b2: nat, b3: nat := s[o], s[o + 1], s[o + 2], s[o + 3];
    b0 + 0x100 * b1 + 0x1_0000 * b2 + 0x100_0000 * b3
  }

  lemma FieldIs(s: seq<byte>, o: nat)
    requires o + 4 <= |s|
    ensures Field(s, o) == FromLe32(s[o..o + 4])
  {}

  /** A 16-bit field in memory order. */
  function Le16(n: u16): (s: seq<byte>)
    ensures |s| == 2
  {
    [n % 0x100, n / 0x100]
  }

  function FromLe16(s: seq<byte>): u16
    requires |s| == 2
  {
    var hi: nat := s[1];
    s[0] + 0x100 * hi
  }

  lemma Le16RoundTrip(n: u16)
    ensures FromLe16(Le16(n)) == n
  {}
}
