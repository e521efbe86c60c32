/**
  CRC-32 of the GPT parser (src/partition.rs).

  A 32-bit word is the sequence of its bits, least significant first.  Three descriptions of the
  checksum are connected: the table-driven loop of the source, the bit-at-a-time shift register,
  and the remainder of a polynomial division (clause 3.2.9 of IEEE 802.3).
*/
module Crc32 {

  import opened Words

  // ---------- The shift register ----------

  /** Exponents of the generator below its leading 32. */
  predicate InGenerator(i: nat) {
    i in {26, 23, 22, 16, 12, 11, 10, 8, 7, 5, 4, 2, 1, 0}
  }

  /** The source's constant 0xEDB88320: bit `i` is the coefficient of x^(31 - i). */
  function Poly(): (p: Bits)
    ensures |p| == 32 && p[31]
  {
    seq(32, i requires 0 <= i < 32 => InGenerator(31 - i))
  }

  lemma PolyBits(p: Bits)
    requires p == Poly()
    ensures ToNat(p) == 0xEDB8_8320
  {
    PolyHigh(p);
    NibbleAt(p, 12, 0x8, 0xEDB8);
    NibbleAt(p, 8, 0x3, 0xE_DB88);
    NibbleAt(p, 4, 0x2, 0xED_B883);
    NibbleAt(p, 0, 0x0, 0xEDB_8832);
    assert p[0..] == p;
  }

  lemma PolyHigh(p: Bits)
    requires p == Poly()
    ensures ToNat(p[16..]) == 0xEDB8
  {
    assert ToNat(p[32..]) == 0;
    NibbleAt(p, 28, 0xE, 0);
    NibbleAt(p, 24, 0xD, 0xE);
    NibbleAt(p, 20, 0xB, 0xED);
    NibbleAt(p, 16, 0x8, 0xEDB);
  }

  function Bit(b: bool): nat { if b then 1 else 0 }

  lemma NibbleAt(w: Bits, i: nat, low: nat, high: nat)
    requires i + 4 <= |w| && ToNat(w[i + 4..]) == high
    requires low == Bit(w[i]) + 2 * Bit(w[i + 1]) + 4 * Bit(w[i + 2]) + 8 * Bit(w[i + 3])
    ensures ToNat(w[i..]) == low + 16 * high
  {
    BitFirst(w, i + 3);
    BitFirst(w, i + 2);
    BitFirst(w, i + 1);
    BitFirst(w, i);
  }

  lemma BitFirst(w: Bits, i: nat)
    requires i < |w|
    ensures ToNat(w[i..]) == Bit(w[i]) + 2 * ToNat(w[i + 1..])
  {
    assert w[i..][1..] == w[i + 1..];
  }

  /** One turn of the inner loop of `build_crc_table`. */
  function BitStep(c: Bits): (r: Bits)
    requires IsWord(c)
    ensures IsWord(r)
  {
    if c[0] then Xor(Poly(), Shr(c, 1)) else Shr(c, 1)
  }

  function Steps(c: Bits, n: nat): (r: Bits)
    requires IsWord(c)
    ensures IsWord(r)
    decreases n, |c|
  {
    if n == 0 then c else Steps(BitStep(c), n - 1)
  }

  /** The register after one message bit: shift, and add the generator when a one falls out. */
  function Feed(c: Bits, bit: bool): (r: Bits)
    requires IsWord(c)
    ensures IsWord(r)
  {
    if c[0] != bit then Xor(Poly(), Shr(c, 1)) else Shr(c, 1)
  }

  /** Bit-at-a-time register over a bit string, first bit first. */
  function Serial(c: Bits, bits: Bits): (r: Bits)
    requires IsWord(c)
    ensures IsWord(r)
    decreases |bits|
  {
    if bits == [] then c else Serial(Feed(c, bits[0]), bits[1..])
  }

  /** A message as bits: each byte least significant bit first. */
  function MessageBits(data: seq<Byte>): Bits {
    if data == [] then [] else BitsOf(data[0], 8) + MessageBits(data[1..])
  }

  /** The checksum by its bit-at-a-time definition. */
  function Checksum(bits: Bits): Bits {
    Not(Serial(Ones(32), bits))
  }

  // ---------- The table step is eight register steps ----------

  lemma StepLinear(a: Bits, b: Bits)
    requires IsWord(a) && IsWord(b)
    ensures BitStep(Xor(a, b)) == Xor(BitStep(a), BitStep(b))
  {
  }

  lemma {:induction false} StepsLinear(a: Bits, b: Bits, n: nat)
    requires IsWord(a) && IsWord(b)
    ensures Steps(Xor(a, b), n) == Xor(Steps(a, n), Steps(b, n))
    decreases n
  {
    if n > 0 {
      StepLinear(a, b);
      StepsLinear(BitStep(a), BitStep(b), n - 1);
    }
  }

  /** Zero bits only shift. */
  lemma {:induction false} StepsShift(c: Bits, n: nat)
    requires IsWord(c) && n <= 32 && forall i :: 0 <= i < n ==> !c[i]
    ensures Steps(c, n) == Shr(c, n)
    decreases n
  {
    if n == 0 {
      assert Shr(c, 0) == c;
    } else {
      StepsShift(Shr(c, 1), n - 1);
      ShrTwice(c, n);
    }
  }

  lemma ShrTwice(c: Bits, n: nat)
    requires IsWord(c) && 0 < n <= 32
    ensures Shr(Shr(c, 1), n - 1) == Shr(c, n)
  {
    var l, r := Shr(Shr(c, 1), n - 1), Shr(c, n);
    forall i | 0 <= i < 32
      ensures l[i] == r[i]
    {
      assert i < 32 - (n - 1) ==> l[i] == Shr(c, 1)[i + n - 1];
    }
  }

  lemma FeedIsStep(c: Bits, m: Bits)
    requires IsWord(c) && IsWord(m)
    ensures BitStep(Xor(c, m)) == Xor(Feed(c, m[0]), Shr(m, 1))
  {
    assert Shr(Xor(c, m), 1) == Xor(Shr(c, 1), Shr(m, 1));
  }

  /** Adding the message bits up front or as they fall out is the same. */
  lemma {:induction false} SerialIsSteps(c: Bits, bits: Bits)
    requires IsWord(c) && |bits| <= 32
    ensures Serial(c, bits) == Steps(Xor(c, bits + Zeros(32 - |bits|)), |bits|)
    decreases |bits|
  {
    var n := |bits|;
    var m := bits + Zeros(32 - n);
    if n == 0 {
      assert Xor(c, m) == c;
    } else {
      FeedIsStep(c, m);
      assert Shr(m, 1) == bits[1..] + Zeros(32 - (n - 1));
      SerialIsSteps(Feed(c, bits[0]), bits[1..]);
    }
  }

  /** One turn of the table loop, for a table holding eight steps of every index. */
  function TableStep(c: Bits, b: Byte): (r: Bits)
    requires IsWord(c)
    ensures IsWord(r)
  {
    var low := Xor(c, BitsOf(b, 32))[..8];
    Xor(Shr(c, 8), Steps(low + Zeros(24), 8))
  }

  /** The eight-step table lemma: a byte at a time is eight bits at a time. */
  lemma TableStepIsSerial(c: Bits, b: Byte)
    requires IsWord(c)
    ensures TableStep(c, b) == Serial(c, BitsOf(b, 8))
  {
    ByteBits(b);
    var mixed := Xor(c, BitsOf(b, 32));
    var low, high := mixed[..8] + Zeros(24), Zeros(8) + c[8..];
    SerialIsSteps(c, BitsOf(b, 8));
    assert mixed == Xor(high, low);
    StepsLinear(high, low, 8);
    StepsShift(high, 8);
    assert Shr(high, 8) == Shr(c, 8);
  }

  // ---------- The source's loops ----------

  predicate IsTable(t: seq<Bits>) {
    |t| == 256 && forall i :: 0 <= i < 256 ==> t[i] == Steps(BitsOf(i, 32), 8)
  }

  /** The inner loop of `build_crc_table`. */
  method TableEntry(i: Byte) returns (c: Bits)
    ensures c == Steps(BitsOf(i, 32), 8)
  {
    c := BitsOf(i, 32);
    ghost var goal := Steps(c, 8);
    var k := 0;
    while k < 8
      invariant 0 <= k <= 8 && IsWord(c)
      invariant Steps(c, 8 - k) == goal
    {
      assert Steps(c, 8 - k) == Steps(BitStep(c), 8 - (k + 1));
      c := if c[0] then Xor(Poly(), Shr(c, 1)) else Shr(c, 1);
      k := k + 1;
    }
  }

  method BuildCrcTable() returns (t: array<Bits>)
    ensures fresh(t) && IsTable(t[..])
  {
    t := new Bits[256](_ => Zeros(32));
    var i := 0;
    while i < 256
      invariant 0 <= i <= 256
      invariant forall j :: 0 <= j < i ==> t[j] == Steps(BitsOf(j, 32), 8)
    {
      t[i] := TableEntry(i);
      i := i + 1;
    }
  }

  /** The table-driven checksum is the bit-at-a-time one, on every byte string. */
  method Crc(data: seq<Byte>) returns (r: Bits)
    ensures r == Checksum(MessageBits(data))
  {
    var table := BuildCrcTable();
    var crc := Ones(32);
    for i := 0 to |data|
      invariant IsWord(crc) && IsTable(table[..])
      invariant Serial(crc, MessageBits(data[i..])) == Serial(Ones(32), MessageBits(data))
    {
      var b := data[i];
      var low := Xor(crc, BitsOf(b, 32))[..8];
      ToNatBelow(low);
      var next := Xor(Shr(crc, 8), table[ToNat(low)]);
      assert next == Serial(crc, BitsOf(b, 8)) by {
        BitsOfToNat(low, 24);
        assert table[..][ToNat(low)] == Steps(BitsOf(ToNat(low), 32), 8);
        TableStepIsSerial(crc, b);
      }
      assert data[i..][1..] == data[i + 1..];
      SerialAppend(crc, BitsOf(b, 8), MessageBits(data[i + 1..]));
      crc := next;
    }
    r := Not(crc);
  }

  lemma {:induction false} SerialAppend(c: Bits, a: Bits, b: Bits)
    requires IsWord(c)
    ensures Serial(c, a + b) == Serial(Serial(c, a), b)
    decreases |a|
  {
    if a == [] {
      assert a + b == b;
    } else {
      assert (a + b)[1..] == a[1..] + b;
      SerialAppend(Feed(c, a[0]), a[1..], b);
    }
  }

  // ---------- The register is a polynomial remainder ----------

  /** A polynomial over GF(2): the exponents with coefficient one. */
  type Polynomial = set<nat>

  function Add(p: Polynomial, q: Polynomial): Polynomial { (p - q) + (q - p) }

  function TimesX(p: Polynomial): Polynomial { set i | i in p :: i + 1 }

  function TimesXn(p: Polynomial, n: nat): Polynomial { set i | i in p :: i + n }

  function Monomial(bit: bool, n: nat): Polynomial { if bit then {n} else {} }

  /** The generator x^32 + x^26 + x^23 + x^22 + x^16 + x^12 + x^11 + x^10 + x^8 + x^7 + x^5 + x^4 + x^2 + x + 1. */
  function Generator(): Polynomial { {32} + Value(Poly()) }

  /** A register as a polynomial: its least significant bit is the coefficient of x^31. */
  function Value(w: Bits): Polynomial
    requires IsWord(w)
  {
    set i: nat | i < 32 && Coefficient(w, i)
  }

  predicate Coefficient(w: Bits, i: nat)
    requires IsWord(w) && i < 32
  {
    w[31 - i]
  }

  /** A bit string as a polynomial, first bit of highest degree. */
  function Message(bits: Bits): Polynomial {
    if bits == [] then {} else Add(TimesX(Message(bits[..|bits| - 1])), Monomial(bits[|bits| - 1], 0))
  }

  /** Product of a quotient, first bit of highest degree, with the generator. */
  function TimesGenerator(q: Bits): Polynomial {
    if q == [] then {}
    else Add(TimesX(TimesGenerator(q[..|q| - 1])), if q[|q| - 1] then Generator() else {})
  }

  /** The dividend: the message times x^32, with its first 32 bits complemented by the initial ones. */
  function Dividend(bits: Bits): Polynomial {
    Add(TimesXn(Message(bits), 32), TimesXn(Value(Ones(32)), |bits|))
  }

  lemma {:induction false} SerialLast(c: Bits, bits: Bits)
    requires IsWord(c) && bits != []
    ensures Serial(c, bits) == Feed(Serial(c, bits[..|bits| - 1]), bits[|bits| - 1])
  {
    var n := |bits| - 1;
    assert bits == bits[..n] + [bits[n]];
    SerialAppend(c, bits[..n], [bits[n]]);
    assert [bits[n]][1..] == [];
  }

  /** One register step: shift, bring in the bit at x^32, and reduce by the generator if needed. */
  lemma FeedValue(c: Bits, bit: bool)
    requires IsWord(c)
    ensures Value(Feed(c, bit)) ==
            Add(Add(TimesX(Value(c)), Monomial(bit, 32)), if c[0] != bit then Generator() else {})
  {
    ShiftValue(c);
    XorValue(Poly(), Shr(c, 1));
    assert 32 in TimesX(Value(c)) <==> 31 in Value(c);
  }

  lemma ShiftValue(c: Bits)
    requires IsWord(c)
    ensures Value(Shr(c, 1)) == TimesX(Value(c)) - {32}
    ensures 31 in Value(c) <==> c[0]
  {
    var s := Shr(c, 1);
    assert Coefficient(c, 31) == c[0];
    forall i: nat
      ensures i in Value(s) <==> i in TimesX(Value(c)) - {32}
    {
      assert i in TimesX(Value(c)) <==> i >= 1 && i - 1 in Value(c);
      if 1 <= i < 32 { assert Coefficient(s, i) == Coefficient(c, i - 1); }
      if i == 0 { assert !Coefficient(s, i); }
    }
  }

  lemma XorValue(a: Bits, b: Bits)
    requires IsWord(a) && IsWord(b)
    ensures Value(Xor(a, b)) == Add(Value(a), Value(b))
  {
    forall i: nat
      ensures i in Value(Xor(a, b)) <==> i in Add(Value(a), Value(b))
    {
      if i < 32 { assert Coefficient(Xor(a, b), i) == (Coefficient(a, i) != Coefficient(b, i)); }
    }
  }

  lemma DividendStep(bits: Bits)
    requires bits != []
    ensures var n := |bits| - 1;
            Dividend(bits) == Add(TimesX(Dividend(bits[..n])), Monomial(bits[n], 32))
  {
    var n := |bits| - 1;
    var m, o := Message(bits[..n]), Value(Ones(32));
    forall i: nat
      ensures i in Dividend(bits) <==> i in Add(TimesX(Dividend(bits[..n])), Monomial(bits[n], 32))
    {
      assert i in TimesX(Dividend(bits[..n])) <==> i >= 1 && i - 1 in Dividend(bits[..n]);
      InTimesXn(Message(bits), 32, i);
      InTimesXn(o, n + 1, i);
      if i >= 32 { assert i - 32 in TimesX(m) <==> i - 32 >= 1 && i - 33 in m; }
      if i >= 1 {
        InTimesXn(m, 32, i - 1);
        InTimesXn(o, n, i - 1);
      }
    }
  }

  lemma InTimesXn(p: Polynomial, n: nat, i: nat)
    ensures i in TimesXn(p, n) <==> i >= n && i - n in p
  {
  }

  /** Dividing the message leaves the register: dividend plus register is a multiple of the generator. */
  lemma {:induction false} RegisterIsRemainder(bits: Bits) returns (q: Bits)
    ensures |q| == |bits|
    ensures Add(Dividend(bits), Value(Serial(Ones(32), bits))) == TimesGenerator(q)
    decreases |bits|
  {
    if bits == [] {
      q := [];
      assert TimesXn(Value(Ones(32)), 0) == Value(Ones(32));
    } else {
      var n := |bits| - 1;
      var q' := RegisterIsRemainder(bits[..n]);
      var c := Serial(Ones(32), bits[..n]);
      q := q' + [c[0] != bits[n]];
      assert q[..|q| - 1] == q';
      SerialLast(Ones(32), bits);
      FeedValue(c, bits[n]);
      DividendStep(bits);
      Regroup(Dividend(bits[..n]), Value(c), Monomial(bits[n], 32), if c[0] != bits[n] then Generator() else {});
    }
  }

  lemma Regroup(d: Polynomial, r: Polynomial, m: Polynomial, g: Polynomial)
    ensures Add(Add(TimesX(d), m), Add(Add(TimesX(r), m), g)) == Add(TimesX(Add(d, r)), g)
  {
    forall i: nat
      ensures i in TimesX(Add(d, r)) <==> i in Add(TimesX(d), TimesX(r))
    {
      assert i in TimesX(d) <==> i >= 1 && i - 1 in d;
      assert i in TimesX(r) <==> i >= 1 && i - 1 in r;
      assert i in TimesX(Add(d, r)) <==> i >= 1 && i - 1 in Add(d, r);
    }
  }

  // ---------- ... and the only one ----------

  predicate Below(p: Polynomial, n: nat) { forall i :: i in p ==> i < n }

  lemma {:induction false} GeneratorLinear(q: Bits, r: Bits)
    requires |q| == |r|
    ensures Add(TimesGenerator(q), TimesGenerator(r)) == TimesGenerator(Xor(q, r))
    decreases |q|
  {
    if q != [] {
      var n := |q| - 1;
      GeneratorLinear(q[..n], r[..n]);
      assert Xor(q, r)[..n] == Xor(q[..n], r[..n]);
      var a, b := TimesGenerator(q[..n]), TimesGenerator(r[..n]);
      Regroup(a, b, {}, {});
    }
  }

  lemma {:induction false} LeadingZero(q: Bits)
    requires q != [] && !q[0]
    ensures TimesGenerator(q) == TimesGenerator(q[1..])
    decreases |q|
  {
    if |q| > 1 {
      var n := |q| - 1;
      LeadingZero(q[..n]);
      assert q[1..][..n - 1] == q[..n][1..];
    }
  }

  /** The degree of a multiple is that of the generator plus that of the quotient. */
  lemma {:induction false} TopDegree(q: Bits)
    requires q != [] && q[0]
    ensures 31 + |q| in TimesGenerator(q)
    ensures Below(TimesGenerator(q), 32 + |q|)
    decreases |q|
  {
    var n := |q| - 1;
    assert Below(Generator(), 33) && 32 in Generator();
    if n > 0 {
      TopDegree(q[..n]);
      assert 31 + n + 1 in TimesX(TimesGenerator(q[..n]));
    } else {
      assert TimesGenerator(q) == Generator();
    }
  }

  lemma {:induction false} SmallMultipleIsZero(q: Bits)
    requires Below(TimesGenerator(q), 32)
    ensures TimesGenerator(q) == {}
    decreases |q|
  {
    if q != [] {
      if q[0] {
        TopDegree(q);
      } else {
        LeadingZero(q);
        SmallMultipleIsZero(q[1..]);
      }
    }
  }

  /** The register is the remainder: no other polynomial of degree below 32 completes the dividend. */
  lemma RemainderUnique(bits: Bits, r: Polynomial, q: Bits)
    requires |q| == |bits| && Below(r, 32) && Add(Dividend(bits), r) == TimesGenerator(q)
    ensures r == Value(Serial(Ones(32), bits))
  {
    var v := Value(Serial(Ones(32), bits));
    var q' := RegisterIsRemainder(bits);
    GeneratorLinear(q, q');
    assert Add(Add(Dividend(bits), r), Add(Dividend(bits), v)) == Add(r, v);
    SmallMultipleIsZero(Xor(q, q'));
    forall i: nat
      ensures i in r <==> i in v
    {
      assert i !in Add(r, v);
    }
  }

  // ---------- What the checksum detects ----------

  /** A register that dies within 32 bits held exactly those bits. */
  lemma {:induction false} ZeroRegister(c: Bits, bits: Bits)
    requires IsWord(c) && |bits| <= 32 && Serial(c, bits) == Zeros(32)
    ensures c == bits + Zeros(32 - |bits|)
    decreases |bits|
  {
    if bits != [] {
      var c' := Feed(c, bits[0]);
      ZeroRegister(c', bits[1..]);
      assert c'[31] == (c[0] != bits[0]);
      assert Shr(c, 1) == c';
      assert forall i :: 1 <= i < 32 ==> c[i] == c'[i - 1];
    }
  }

  lemma FeedLinear(c: Bits, d: Bits, a: bool, b: bool)
    requires IsWord(c) && IsWord(d)
    ensures Xor(Feed(c, a), Feed(d, b)) == Feed(Xor(c, d), a != b)
  {
  }

  lemma {:induction false} SerialLinear(c: Bits, d: Bits, a: Bits, b: Bits)
    requires IsWord(c) && IsWord(d) && |a| == |b|
    ensures Xor(Serial(c, a), Serial(d, b)) == Serial(Xor(c, d), Xor(a, b))
    decreases |a|
  {
    if a != [] {
      FeedLinear(c, d, a[0], b[0]);
      SerialLinear(Feed(c, a[0]), Feed(d, b[0]), a[1..], b[1..]);
      assert Xor(a, b)[1..] == Xor(a[1..], b[1..]);
    }
  }

  /** Two messages that differ only inside a window of 32 bits have different checksums. */
  lemma BurstDetected(before: Bits, a: Bits, b: Bits, after: Bits)
    requires |a| == |b| <= 32 && a != b
    ensures Checksum(before + a + after) != Checksum(before + b + after)
  {
    var c := Serial(Ones(32), before);
    var ca, cb := Serial(c, a), Serial(c, b);
    SerialAppend(Ones(32), before, a);
    SerialAppend(Ones(32), before, b);
    SerialAppend(Ones(32), before + a, after);
    SerialAppend(Ones(32), before + b, after);
    if ca == cb {
      SerialLinear(c, c, a, b);
      assert Xor(c, c) == Zeros(32) && Xor(ca, cb) == Zeros(32);
      ZeroRegister(Zeros(32), Xor(a, b));
      DifferSomewhere(a, b);
    }
    StaysApart(ca, cb, after);
    NotApart(Serial(ca, after), Serial(cb, after));
  }

  lemma NotApart(a: Bits, b: Bits)
    requires |a| == |b| && a != b
    ensures Not(a) != Not(b)
  {
    var i :| 0 <= i < |a| && a[i] != b[i];
    assert Not(a)[i] != Not(b)[i];
  }

  lemma DifferSomewhere(a: Bits, b: Bits)
    requires |a| == |b| <= 32 && a != b
    ensures Zeros(32) != Xor(a, b) + Zeros(32 - |a|)
  {
    var i :| 0 <= i < |a| && a[i] != b[i];
    assert (Xor(a, b) + Zeros(32 - |a|))[i];
  }

  lemma FeedInjective(c: Bits, d: Bits, bit: bool)
    requires IsWord(c) && IsWord(d) && Feed(c, bit) == Feed(d, bit)
    ensures c == d
  {
    var r := Feed(c, bit);
    assert r[31] == (c[0] != bit) && r[31] == (d[0] != bit);
    var p := if r[31] then Poly() else Zeros(32);
    forall i | 1 <= i < 32
      ensures c[i] == d[i]
    {
      assert r[i - 1] == (p[i - 1] != c[i]);
      assert r[i - 1] == (p[i - 1] != d[i]);
    }
  }

  /** Registers that differ keep differing on the same input. */
  lemma {:induction false} StaysApart(c: Bits, d: Bits, bits: Bits)
    requires IsWord(c) && IsWord(d) && c != d
    ensures Serial(c, bits) != Serial(d, bits)
    decreases |bits|
  {
    if bits != [] {
      if Feed(c, bits[0]) == Feed(d, bits[0]) {
        FeedInjective(c, d, bits[0]);
      }
      StaysApart(Feed(c, bits[0]), Feed(d, bits[0]), bits[1..]);
    }
  }

  // ---------- Messages of bytes ----------

  lemma {:induction false} MessageBitsAppend(a: seq<Byte>, b: seq<Byte>)
    ensures MessageBits(a + b) == MessageBits(a) + MessageBits(b) && |MessageBits(a)| == 8 * |a|
    decreases |a|
  {
    if a == [] {
      assert a + b == b;
    } else {
      assert (a + b)[1..] == a[1..] + b;
      MessageBitsAppend(a[1..], b);
    }
  }

  lemma {:induction false} MessageBitsInjective(a: seq<Byte>, b: seq<Byte>)
    requires |a| == |b| && MessageBits(a) == MessageBits(b)
    ensures a == b
    decreases |a|
  {
    if a != [] {
      assert BitsOf(a[0], 8) == MessageBits(a)[..8] && BitsOf(b[0], 8) == MessageBits(b)[..8];
      ByteFromBits(a[0]);
      ByteFromBits(b[0]);
      assert MessageBits(a[1..]) == MessageBits(a)[8..] && MessageBits(b[1..]) == MessageBits(b)[8..];
      MessageBitsInjective(a[1..], b[1..]);
    }
  }

  /** A change confined to four adjacent bytes changes the checksum. */
  lemma ChecksumsDiffer(p: seq<Byte>, a: seq<Byte>, b: seq<Byte>, q: seq<Byte>)
    requires |a| == |b| <= 4 && a != b
    ensures Checksum(MessageBits(p + a + q)) != Checksum(MessageBits(p + b + q))
  {
    MessageBitsAppend(p + a, q);
    MessageBitsAppend(p + b, q);
    MessageBitsAppend(p, a);
    MessageBitsAppend(p, b);
    MessageBitsAppend(a, []);
    MessageBitsAppend(b, []);
    if MessageBits(a) == MessageBits(b) {
      MessageBitsInjective(a, b);
    }
    BurstDetected(MessageBits(p), MessageBits(a), MessageBits(b), MessageBits(q));
  }

  // ---------- What the checksum is, from the standard ----------

  /** `r` is the complement of a remainder of the dividend, with quotient `q`. */
  ghost predicate ComplementsRemainder(bits: Bits, q: Bits, r: Bits) {
    |r| == 32 && |q| == |bits| && Add(Dividend(bits), Add(Value(r), Value(Ones(32)))) == TimesGenerator(q)
  }

  lemma ComplementValue(r: Bits)
    requires IsWord(r)
    ensures Value(Not(r)) == Add(Value(r), Value(Ones(32))) && Not(Not(r)) == r && Below(Value(Not(r)), 32)
  {
    XorValue(r, Ones(32));
  }

  lemma {:induction false} ValueInjective(a: Bits, b: Bits)
    requires IsWord(a) && IsWord(b) && Value(a) == Value(b)
    ensures a == b
  {
    forall i | 0 <= i < 32
      ensures a[i] == b[i]
    {
      assert Coefficient(a, 31 - i) <==> 31 - i in Value(a);
      assert Coefficient(b, 31 - i) <==> 31 - i in Value(b);
    }
  }

  /** The checksum is the one word that complements the remainder of the dividend by the generator. */
  lemma ChecksumExact(bits: Bits, r: Bits)
    ensures r == Checksum(bits) <==> exists q :: ComplementsRemainder(bits, q, r)
  {
    var c := Serial(Ones(32), bits);
    if r == Checksum(bits) {
      var q := RegisterIsRemainder(bits);
      ComplementValue(r);
      ComplementValue(c);
      assert ComplementsRemainder(bits, q, r);
    }
    if q :| ComplementsRemainder(bits, q, r) {
      ComplementValue(r);
      RemainderUnique(bits, Value(Not(r)), q);
      ValueInjective(Not(r), c);
    }
  }

  /** Bit `8 * i + j` of a message is bit `j`, counted from the lowest, of byte `i`. */
  lemma {:induction false} MessageBit(data: seq<Byte>, i: nat, j: nat)
    requires i < |data| && j < 8
    ensures |MessageBits(data)| == 8 * |data| && MessageBits(data)[8 * i + j] == BinaryDigit(data[i], j)
    decreases i
  {
    MessageBitsAppend(data, []);
    MessageBitsAppend(data[1..], []);
    if i == 0 {
      BitIsDigit(data[0], 8, j);
    } else {
      MessageBit(data[1..], i - 1, j);
      assert MessageBits(data)[8 * i + j] == MessageBits(data[1..])[8 * (i - 1) + j];
    }
  }
}
