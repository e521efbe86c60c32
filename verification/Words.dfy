/**
  Machine words as bit sequences, least significant bit first, with the operations the
  checksum and hash code uses.  Every operation of a word is defined here, none is assumed.
*/
module Words {
  import opened Arithmetic

  type Byte = b: int | 0 <= b < 256

  type Bits = seq<bool>

  predicate IsWord(w: Bits) { |w| == 32 }

  function Xor(a: Bits, b: Bits): (c: Bits)
    requires |a| == |b|
    ensures |c| == |a|
  {
    seq(|a|, i requires 0 <= i < |a| => a[i] != b[i])
  }

  function Zeros(n: nat): (z: Bits)
    ensures |z| == n && forall i :: 0 <= i < n ==> !z[i]
  {
    seq(n, i => false)
  }

  function Ones(n: nat): (z: Bits)
    ensures |z| == n && forall i :: 0 <= i < n ==> z[i]
  {
    seq(n, i => true)
  }

  function Not(w: Bits): Bits { Xor(w, Ones(|w|)) }

  /** Logical shift right. */
  function Shr(w: Bits, n: nat): (r: Bits)
    requires n <= |w|
    ensures |r| == |w|
  {
    w[n..] + Zeros(n)
  }

  /** The low `n` bits of a number. */
  function BitsOf(x: nat, n: nat): (w: Bits)
    ensures |w| == n
  {
    if n == 0 then [] else [x % 2 == 1] + BitsOf(x / 2, n - 1)
  }

  function ToNat(w: Bits): nat {
    if w == [] then 0 else (if w[0] then 1 else 0) + 2 * ToNat(w[1..])
  }

  lemma {:induction false} ToNatBelow(w: Bits)
    requires |w| == 8
    ensures ToNat(w) < 256
  {
    var w1 := w[1..]; var w2 := w1[1..]; var w3 := w2[1..]; var w4 := w3[1..];
    var w5 := w4[1..]; var w6 := w5[1..]; var w7 := w6[1..];
    assert ToNat(w7[1..]) == 0;
    assert ToNat(w7) <= 1 && ToNat(w6) <= 3 && ToNat(w5) <= 7 && ToNat(w4) <= 15;
    assert ToNat(w3) <= 31 && ToNat(w2) <= 63 && ToNat(w1) <= 127;
  }

  /** Reading the bits of a number back, with room to spare. */
  lemma {:induction false} BitsOfToNat(w: Bits, n: nat)
    ensures BitsOf(ToNat(w), |w| + n) == w + Zeros(n)
    decreases |w| + n
  {
    if w == [] {
      BitsOfZero(n);
    } else {
      BitsOfToNat(w[1..], n);
    }
  }

  lemma {:induction false} BitsOfZero(n: nat)
    ensures BitsOf(0, n) == Zeros(n)
    decreases n
  {
    if n > 0 { BitsOfZero(n - 1); }
  }

  lemma {:induction false} BitsOfMore(x: nat, n: nat, k: nat)
    requires x < Power2(n)
    ensures BitsOf(x, n + k) == BitsOf(x, n) + Zeros(k)
    decreases n
  {
    if n == 0 {
      BitsOfZero(k);
    } else {
      BitsOfMore(x / 2, n - 1, k);
    }
  }

  function Power2(n: nat): nat { if n == 0 then 1 else 2 * Power2(n - 1) }

  lemma ByteBits(b: Byte)
    ensures BitsOf(b, 32) == BitsOf(b, 8) + Zeros(24)
  {
    assert Power2(3) == 8 && Power2(6) == 64 && Power2(8) == 256;
    BitsOfMore(b, 8, 24);
  }

  lemma {:induction false} NatFromBits(x: nat, n: nat)
    requires x < Power2(n)
    ensures ToNat(BitsOf(x, n)) == x
    decreases n
  {
    if n > 0 {
      NatFromBits(x / 2, n - 1);
      assert BitsOf(x, n)[1..] == BitsOf(x / 2, n - 1);
    }
  }

  lemma ByteFromBits(b: Byte)
    ensures ToNat(BitsOf(b, 8)) == b
  {
    assert Power2(3) == 8 && Power2(6) == 64 && Power2(8) == 256;
    NatFromBits(b, 8);
  }

  // ---------- 32-bit words ----------

  type Word = w: Bits | |w| == 32 witness Zeros(32)

  /** The word of a constant. */
  function WordOf(n: nat): Word { seq(32, i requires 0 <= i < 32 => BinaryDigit(n, i)) }

  predicate BinaryDigit(n: nat, i: nat) {
    PowerPositive(i);
    n / Power2(i) % 2 == 1
  }

  lemma HalfDigit(x: nat, i: nat)
    ensures BinaryDigit(x, i + 1) == BinaryDigit(x / 2, i)
  {
    PowerPositive(i);
    PowerPositive(i + 1);
    DivTwice(x, 2, Power2(i));
  }

  /** The bits of a number are its binary digits. */
  lemma {:induction false} BitIsDigit(x: nat, n: nat, i: nat)
    requires i < n
    ensures BitsOf(x, n)[i] == BinaryDigit(x, i)
    decreases n
  {
    if i > 0 {
      BitIsDigit(x / 2, n - 1, i - 1);
      HalfDigit(x, i - 1);
    } else {
      assert Power2(0) == 1;
    }
  }

  function And(a: Word, b: Word): Word { seq(32, i requires 0 <= i < 32 => a[i] && b[i]) }

  function RotateRight(w: Word, n: nat): Word
    requires n <= 32
  {
    w[n..] + w[..n]
  }

  /** Addition modulo 2^32. */
  function AddMod(a: Word, b: Word): Word { BitsOf(ToNat(a) + ToNat(b), |a|) }

  function FromBigEndian(a: Byte, b: Byte, c: Byte, d: Byte): Word {
    BitsOf(d, 8) + BitsOf(c, 8) + BitsOf(b, 8) + BitsOf(a, 8)
  }

  function OctetAt(w: Bits, i: nat): Byte
    requires i + 8 <= |w|
  {
    ToNatBelow(w[i..i + 8]);
    ToNat(w[i..i + 8])
  }

  function ToBigEndian(w: Word): (r: seq<Byte>)
    ensures |r| == 4
  {
    [OctetAt(w, 24), OctetAt(w, 16), OctetAt(w, 8), OctetAt(w, 0)]
  }

  /** The 64-bit big-endian form of a number, which keeps its low 64 bits. */
  function BigEndian64(n: nat): (r: seq<Byte>)
    ensures |r| == 8
  {
    var w := BitsOf(n, 64);
    [OctetAt(w, 56), OctetAt(w, 48), OctetAt(w, 40), OctetAt(w, 32),
     OctetAt(w, 24), OctetAt(w, 16), OctetAt(w, 8), OctetAt(w, 0)]
  }

  // ---------- Truncation ----------

  lemma ModHalves(x: nat, m: nat)
    requires m > 0
    ensures x % (2 * m) % 2 == x % 2 && x % (2 * m) / 2 == x / 2 % m
  {
    var q, r := x / 2 / m, x / 2 % m;
    assert x / 2 == m * q + r;
    assert x == (2 * m) * q + (2 * r + x % 2) by { assert (2 * m) * q == 2 * (m * q); }
    DivModIs(x, 2 * m, q, 2 * r + x % 2);
    DivModIs(2 * r + x % 2, 2, r, x % 2);
  }

  lemma {:induction false} PowerPositive(n: nat)
    ensures Power2(n) > 0
    decreases n
  {
    if n > 0 { PowerPositive(n - 1); }
  }

  /** The low bits of a number are those of its remainder. */
  lemma {:induction false} BitsOfMod(x: nat, n: nat)
    ensures Power2(n) > 0 && BitsOf(x % Power2(n), n) == BitsOf(x, n)
    decreases n
  {
    PowerPositive(n);
    if n > 0 {
      PowerPositive(n - 1);
      ModHalves(x, Power2(n - 1));
      BitsOfMod(x / 2, n - 1);
    }
  }

  lemma {:induction false} ToNatBounded(w: Bits)
    ensures ToNat(w) < Power2(|w|)
    decreases |w|
  {
    if w != [] { ToNatBounded(w[1..]); }
  }

  lemma {:induction false} PowerSum(m: nat, n: nat)
    ensures Power2(m + n) == Power2(m) * Power2(n)
    decreases m
  {
    if m > 0 { PowerSum(m - 1, n); }
  }

  lemma Power32()
    ensures Power2(32) == 0x1_0000_0000
  {
    assert Power2(8) == 256 by { assert Power2(4) == 16; }
    PowerSum(8, 8);
    PowerSum(16, 16);
  }

  lemma Power64()
    ensures Power2(64) == 0x1_0000_0000_0000_0000
  {
    Power32();
    PowerSum(32, 32);
  }

  /** The 64-bit form keeps the low 64 bits. */
  lemma BigEndian64Mod(n: nat)
    ensures BigEndian64(n % 0x1_0000_0000_0000_0000) == BigEndian64(n)
  {
    Power64();
    BitsOfMod(n, 64);
  }

  /** ... and is the number itself exactly when it fits. */
  lemma BigEndian64Exact(n: nat)
    ensures ToNat(BitsOf(n, 64)) == n <==> n < 0x1_0000_0000_0000_0000
  {
    Power64();
    if n < 0x1_0000_0000_0000_0000 { NatFromBits(n, 64); }
    ToNatBounded(BitsOf(n, 64));
  }

  // ---------- Words as numbers ----------

  /** The first of two joined bit strings is the low one. */
  lemma {:induction false} NatJoin(a: Bits, b: Bits)
    ensures ToNat(a + b) == ToNat(a) + Power2(|a|) * ToNat(b)
    decreases |a|
  {
    if a == [] {
      assert a + b == b;
    } else {
      NatJoin(a[1..], b);
      assert (a + b)[1..] == a[1..] + b;
      Doubled(Power2(|a| - 1), ToNat(b));
    }
  }

  lemma Doubled(p: nat, x: nat)
    ensures 2 * (p * x) == (2 * p) * x
  {
  }

  lemma {:induction false} NatOfZeros(n: nat)
    ensures ToNat(Zeros(n)) == 0
  {
    if n > 0 {
      NatOfZeros(n - 1);
      assert Zeros(n)[1..] == Zeros(n - 1);
    }
  }

  /** The upper bits of a word are a quotient, the lower ones a remainder. */
  lemma SplitBits(w: Bits, n: nat)
    requires n <= |w|
    ensures Power2(n) > 0 && ToNat(w[n..]) == ToNat(w) / Power2(n) && ToNat(w[..n]) == ToNat(w) % Power2(n)
  {
    PowerPositive(n);
    assert w == w[..n] + w[n..];
    NatJoin(w[..n], w[n..]);
    ToNatBounded(w[..n]);
    DivModIs(ToNat(w), Power2(n), ToNat(w[n..]), ToNat(w[..n]));
  }

  /** Words with the same number are the same. */
  lemma SameNumber(a: Bits, b: Bits)
    requires |a| == |b| && ToNat(a) == ToNat(b)
    ensures a == b
  {
    BitsOfToNat(a, 0);
    BitsOfToNat(b, 0);
    assert a + Zeros(0) == a && b + Zeros(0) == b;
  }

  lemma NatOfBits(x: nat, n: nat)
    ensures Power2(n) > 0 && ToNat(BitsOf(x, n)) == x % Power2(n)
  {
    PowerPositive(n);
    BitsOfMod(x, n);
    NatFromBits(x % Power2(n), n);
  }

  lemma RotateParts(w: Word, n: nat)
    requires n <= 32
    ensures ToNat(RotateRight(w, n)) == ToNat(w[n..]) + ToNat(w[..n]) * Power2(32 - n)
  {
    NatJoin(w[n..], w[..n]);
  }

  lemma ShiftParts(w: Bits, n: nat)
    requires n <= |w|
    ensures ToNat(Shr(w, n)) == ToNat(w[n..])
  {
    NatJoin(w[n..], Zeros(n));
    NatOfZeros(n);
  }

  /** Rotation and shift to the right, on numbers. */
  lemma RotateIs(w: Word, n: nat)
    requires n <= 32
    ensures Power2(n) > 0
    ensures ToNat(RotateRight(w, n)) == ToNat(w) / Power2(n) + ToNat(w) % Power2(n) * Power2(32 - n)
    ensures ToNat(Shr(w, n)) == ToNat(w) / Power2(n)
  {
    SplitBits(w, n);
    RotateParts(w, n);
    ShiftParts(w, n);
  }

  lemma AddModIs(a: Word, b: Word)
    ensures ToNat(AddMod(a, b)) == (ToNat(a) + ToNat(b)) % 0x1_0000_0000
  {
    Power32();
    NatOfBits(ToNat(a) + ToNat(b), 32);
  }

  lemma WordOfIs(n: nat)
    ensures ToNat(WordOf(n)) == n % 0x1_0000_0000
  {
    forall i | 0 <= i < 32
      ensures WordOf(n)[i] == BitsOf(n, 32)[i]
    {
      BitIsDigit(n, 32, i);
    }
    assert WordOf(n) == BitsOf(n, 32);
    Power32();
    NatOfBits(n, 32);
  }

  lemma ByteNumber(b: Byte)
    ensures ToNat(BitsOf(b, 8)) == b && Power2(8) == 256 && Power2(16) == 0x1_0000 && Power2(24) == 0x100_0000
  {
    ByteFromBits(b);
    assert Power2(4) == 16 && Power2(8) == 256;
    PowerSum(8, 8);
    PowerSum(16, 8);
  }

  /** Four bytes, the first the highest. */
  lemma FromBigEndianIs(a: Byte, b: Byte, c: Byte, d: Byte)
    ensures ToNat(FromBigEndian(a, b, c, d)) == ((a * 256 + b) * 256 + c) * 256 + d
  {
    ByteNumber(a);
    ByteNumber(b);
    ByteNumber(c);
    ByteNumber(d);
    var low, mid, high := BitsOf(d, 8), BitsOf(d, 8) + BitsOf(c, 8), BitsOf(d, 8) + BitsOf(c, 8) + BitsOf(b, 8);
    NatJoin(low, BitsOf(c, 8));
    NatJoin(mid, BitsOf(b, 8));
    NatJoin(high, BitsOf(a, 8));
  }

  /** An octet of a word is a digit to base 256. */
  lemma OctetIs(w: Bits, i: nat)
    requires i + 8 <= |w|
    ensures Power2(i) > 0 && OctetAt(w, i) == ToNat(w) / Power2(i) % 256
  {
    ByteNumber(0);
    SplitBits(w, i);
    SplitBits(w[i..], 8);
    assert w[i..][..8] == w[i..i + 8];
  }

  // ---------- Little-endian numbers ----------

  function LittleEndian(x: nat, n: nat): (r: seq<Byte>)
    ensures |r| == n
  {
    if n == 0 then [] else [x % 256] + LittleEndian(x / 256, n - 1)
  }

  /** One more byte multiplies the range by 256. */
  lemma BytePower(n: nat)
    requires n > 0
    ensures Power2(8 * n) == 256 * Power2(8 * (n - 1))
  {
    PowerSum(8, 8 * (n - 1));
    assert Power2(4) == 16 && Power2(8) == 256;
  }

  /** The little-endian form of a number keeps its low bytes. */
  lemma {:induction false} LittleEndianMod(x: nat, n: nat)
    ensures Power2(8 * n) > 0 && LittleEndian(x % Power2(8 * n), n) == LittleEndian(x, n)
    decreases n
  {
    PowerPositive(8 * n);
    if n > 0 {
      var m := Power2(8 * (n - 1));
      BytePower(n);
      LittleEndianMod(x / 256, n - 1);
      ModBytes(x, m);
    }
  }

  lemma ModBytes(x: nat, m: nat)
    requires m > 0
    ensures x % (256 * m) % 256 == x % 256 && x % (256 * m) / 256 == x / 256 % m
  {
    var q, r := x / 256 / m, x / 256 % m;
    assert x / 256 == m * q + r;
    assert x == (256 * m) * q + (256 * r + x % 256) by { assert (256 * m) * q == 256 * (m * q); }
    DivModIs(x, 256 * m, q, 256 * r + x % 256);
    DivModIs(256 * r + x % 256, 256, r, x % 256);
  }
}
