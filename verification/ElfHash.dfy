/**
  The SysV hash function of src/elf.rs, and the loop of the System V ABI it follows, which the ABI
  writes for a machine word of unspecified width.  Words are sequences of bits, lowest first.
*/
module ElfHash {
  import opened Arithmetic
  import opened Words

  // ---------- Machine words of any width ----------

  function Majority(a: bool, b: bool, c: bool): bool { (a && b) || (a && c) || (b && c) }

  /** The sum of two words and a carry, in their width. */
  function Add(a: Bits, b: Bits, carry: bool): (r: Bits)
    requires |a| == |b|
    ensures |r| == |a|
    decreases |a|
  {
    if a == [] then [] else [(a[0] != b[0]) != carry] + Add(a[1..], b[1..], Majority(a[0], b[0], carry))
  }

  /** The carry out of that sum. */
  function CarryOut(a: Bits, b: Bits, carry: bool): bool
    requires |a| == |b|
    decreases |a|
  {
    if a == [] then carry else CarryOut(a[1..], b[1..], Majority(a[0], b[0], carry))
  }

  /** Shift left by four. */
  function Shifted(h: Bits): (r: Bits)
    requires |h| >= 32
    ensures |r| == |h|
  {
    Zeros(4) + h[..|h| - 4]
  }

  /** A character as a word. */
  function Extended(c: Byte, width: nat): (r: Bits)
    requires width >= 32
    ensures |r| == width
  {
    BitsOf(c, 8) + Zeros(width - 8)
  }

  /** Bits 28 to 31 of a word. */
  function Masked(t: Bits): (g: Bits)
    requires |t| >= 32
    ensures |g| == |t|
  {
    Zeros(28) + t[28..32] + Zeros(|t| - 32)
  }

  function Clear(x: Bits, g: Bits): (r: Bits)
    requires |x| == |g|
    ensures |r| == |x|
  {
    seq(|x|, i requires 0 <= i < |x| => x[i] && !g[i])
  }

  // ---------- The loop of the ABI ----------

  /** Mask the top of the low 32 bits, xor it in 24 bits further down if it is not zero, and clear it. */
  function Fold(t: Bits): (r: Bits)
    requires |t| >= 32
    ensures |r| == |t|
  {
    var g := Masked(t);
    Clear(if g != Zeros(|g|) then Xor(t, Shr(g, 24)) else t, g)
  }

  function Step(h: Bits, c: Byte): (r: Bits)
    requires |h| >= 32
    ensures |r| == |h|
  {
    Fold(Add(Shifted(h), Extended(c, |h|), false))
  }

  function Textbook(width: nat, name: seq<Byte>): (r: Bits)
    requires width >= 32
    ensures |r| == width
    decreases |name|
  {
    if name == [] then Zeros(width) else Step(Textbook(width, name[..|name| - 1]), name[|name| - 1])
  }

  lemma TextbookNext(width: nat, name: seq<Byte>, i: nat)
    requires width >= 32 && i < |name|
    ensures Textbook(width, name[..i + 1]) == Step(Textbook(width, name[..i]), name[i])
  {
    assert name[..i + 1][..i] == name[..i];
  }

  /** The hash of the source: the loop in 32 bits. */
  function Hash(name: seq<Byte>): nat { ToNat(Textbook(32, name)) }

  method Compute(name: seq<Byte>) returns (hash: nat)
    ensures hash == Hash(name) && hash < 0x1000_0000
  {
    var h := Zeros(32);
    for i := 0 to |name|
      invariant h == Textbook(32, name[..i])
    {
      TextbookNext(32, name, i);
      h := ComputeFold(Add(Shifted(h), Extended(name[i], 32), false));
    }
    assert name[..|name|] == name;
    HashBound(name);
    hash := ToNat(h);
  }

  method ComputeFold(t: Bits) returns (h: Bits)
    requires |t| == 32
    ensures h == Fold(t)
  {
    h := t;
    var g := Masked(h);
    if g != Zeros(32) { h := Xor(h, Shr(g, 24)); }
    h := Clear(h, g);
  }

  // ---------- What the word holds ----------

  /** What the fold does to each bit. */
  lemma FoldBits(t: Bits, i: nat)
    requires |t| >= 32 && i < |t|
    ensures Fold(t)[i] == if 28 <= i < 32 then false else if 4 <= i < 8 then t[i] != t[i + 24] else t[i]
  {
    var g := Masked(t);
    assert g[i] == (28 <= i < 32 && t[i]);
    if i + 24 < |t| { assert g[i + 24] == (4 <= i < 8 && t[i + 24]); }
    assert Shr(g, 24)[i] == (4 <= i < 8 && t[i + 24]);
    if g == Zeros(|g|) && 4 <= i < 8 { assert !g[i + 24]; }
  }

  lemma FoldParts(t: Bits)
    requires |t| >= 32
    ensures Fold(t)[..32] == Fold(t[..32]) && Fold(t)[32..] == t[32..] && Fold(t)[28..32] == Zeros(4)
  {
    forall i | 0 <= i < 32
      ensures Fold(t)[i] == Fold(t[..32])[i]
    {
      FoldBits(t, i);
      FoldBits(t[..32], i);
    }
    forall i | 28 <= i < |t|
      ensures Fold(t)[i] == (i >= 32 && t[i])
    {
      FoldBits(t, i);
    }
  }

  lemma {:induction false} AddParts(a: Bits, b: Bits, carry: bool, n: nat)
    requires |a| == |b| && n <= |a|
    ensures Add(a, b, carry) == Add(a[..n], b[..n], carry) + Add(a[n..], b[n..], CarryOut(a[..n], b[..n], carry))
    decreases n
  {
    if n == 0 {
      assert a[0..] == a && b[0..] == b;
    } else {
      AddParts(a[1..], b[1..], Majority(a[0], b[0], carry), n - 1);
      TailParts(a, n);
      TailParts(b, n);
    }
  }

  lemma TailParts(a: Bits, n: nat)
    requires 0 < n <= |a|
    ensures a[1..][..n - 1] == a[..n][1..] && a[1..][n - 1..] == a[n..]
  {
  }

  lemma {:induction false} AddNothing(a: Bits)
    ensures Add(a, Zeros(|a|), false) == a
    decreases |a|
  {
    if a != [] {
      assert Zeros(|a|)[1..] == Zeros(|a| - 1);
      AddNothing(a[1..]);
    }
  }

  /** A carry into a word whose lowest bit is clear. */
  lemma AddCarry(a: Bits, carry: bool)
    ensures Add([false] + a, Zeros(1 + |a|), carry) == [carry] + a
  {
    var z := Zeros(1 + |a|);
    assert z[1..] == Zeros(|a|) && ([false] + a)[1..] == a;
    AddNothing(a);
  }

  /** The addition for a character, on 32 bits, carries. */
  predicate StepCarries(h: Bits, c: Byte)
    requires |h| == 32
  {
    CarryOut(Shifted(h), Extended(c, 32), false)
  }

  /** The sum for a character: its low 32 bits stand on their own, and the carry goes in above them. */
  lemma SumParts(h: Bits, c: Byte)
    requires |h| >= 32
    ensures var t := Add(Shifted(h), Extended(c, |h|), false);
            && t[..32] == Add(Shifted(h[..32]), Extended(c, 32), false)
            && t[32..] == Add(Shifted(h)[32..], Zeros(|h| - 32), StepCarries(h[..32], c))
  {
    var a, b := Shifted(h), Extended(c, |h|);
    AddParts(a, b, false, 32);
    assert a[..32] == Shifted(h[..32]) && b[..32] == Extended(c, 32) && b[32..] == Zeros(|h| - 32);
  }

  lemma StepLow(h: Bits, c: Byte)
    requires |h| >= 32
    ensures Step(h, c)[..32] == Step(h[..32], c) && Step(h, c)[28..32] == Zeros(4)
  {
    SumParts(h, c);
    FoldParts(Add(Shifted(h), Extended(c, |h|), false));
  }

  /** The bits above the low 32 are a register: each character shifts it by four and puts its carry in. */
  lemma StepHigh(h: Bits, c: Byte, i: nat)
    requires 32 + i < |h| && h[28..32] == Zeros(4)
    ensures Step(h, c)[32 + i] == if i == 0 then StepCarries(h[..32], c) else i >= 4 && h[28 + i]
  {
    var t := Add(Shifted(h), Extended(c, |h|), false);
    SumParts(h, c);
    FoldBits(t, 32 + i);
    assert t[32 + i] == t[32..][i];
    ShiftedHigh(h, i);
    ShiftedHigh(h, 0);
    CarryIn(Shifted(h)[32..], StepCarries(h[..32], c), i);
  }

  lemma ShiftedHigh(h: Bits, i: nat)
    requires 32 + i < |h| && h[28..32] == Zeros(4)
    ensures Shifted(h)[32..][i] == h[28 + i] && (i < 4 ==> !h[28 + i])
  {
    if i < 4 { assert h[28 + i] == h[28..32][i]; }
  }

  lemma CarryIn(high: Bits, carry: bool, i: nat)
    requires i < |high| && !high[0]
    ensures Add(high, Zeros(|high|), carry)[i] == if i == 0 then carry else high[i]
  {
    assert high == [false] + high[1..];
    AddCarry(high[1..], carry);
  }

  lemma {:induction false} LowPart(width: nat, name: seq<Byte>)
    requires width >= 32
    ensures Textbook(width, name)[..32] == Textbook(32, name) && Textbook(width, name)[28..32] == Zeros(4)
    decreases |name|
  {
    if name != [] {
      var init := name[..|name| - 1];
      LowPart(width, init);
      StepLow(Textbook(width, init), name[|name| - 1]);
    }
  }

  // ---------- The carries of the last characters ----------

  /** The addition for the character at `i` leaves 32 bits. */
  predicate CarriesAt(name: seq<Byte>, i: nat)
    requires i < |name|
  {
    StepCarries(Textbook(32, name[..i]), name[i])
  }

  /** No addition for one of the last `m` characters leaves 32 bits. */
  predicate NoLateCarry(name: seq<Byte>, m: nat) {
    forall i :: 0 <= i < |name| && |name| - m <= i ==> !CarriesAt(name, i)
  }

  /** Bit 32 + i of a wide word: the carry of the character i / 4 places from the end, when 4 divides i. */
  predicate CarryBit(name: seq<Byte>, i: nat) {
    i % 4 == 0 && i / 4 < |name| && CarriesAt(name, |name| - 1 - i / 4)
  }

  lemma {:induction false} HighPart(width: nat, name: seq<Byte>, i: nat)
    requires 32 + i < width
    ensures Textbook(width, name)[32 + i] == CarryBit(name, i)
    decreases |name|
  {
    if name != [] {
      var init := name[..|name| - 1];
      LowPart(width, init);
      if i >= 4 { HighPart(width, init, i - 4); }
      HighNext(Textbook(width, init), name, i);
    }
  }

  lemma HighNext(h: Bits, name: seq<Byte>, i: nat)
    requires name != [] && 32 + i < |h| && h[28..32] == Zeros(4) && h[..32] == Textbook(32, name[..|name| - 1])
    requires i >= 4 ==> h[28 + i] == CarryBit(name[..|name| - 1], i - 4)
    ensures Step(h, name[|name| - 1])[32 + i] == CarryBit(name, i)
  {
    StepHigh(h, name[|name| - 1], i);
    if i >= 4 { CarryBitEarlier(name, i); } else { CarryBitLast(name, i); }
  }

  lemma CarryBitLast(name: seq<Byte>, i: nat)
    requires name != [] && i < 4
    ensures CarryBit(name, i) <==> i == 0 && StepCarries(Textbook(32, name[..|name| - 1]), name[|name| - 1])
  {
  }

  lemma CarryBitEarlier(name: seq<Byte>, i: nat)
    requires name != [] && i >= 4
    ensures CarryBit(name, i) == CarryBit(name[..|name| - 1], i - 4)
  {
    var init := name[..|name| - 1];
    assert (i - 4) % 4 == i % 4 && (i - 4) / 4 == i / 4 - 1;
    if i / 4 < |name| {
      var j := |name| - 1 - i / 4;
      assert init[..j] == name[..j];
    }
  }

  /**
    On a word of `width` bits the loop of the ABI has the source's hash as its low 32 bits, and is
    the source's hash exactly when the additions for the last characters, one for each four bits
    above the low 32, do not carry.
  */
  lemma TextbookExact(width: nat, name: seq<Byte>)
    requires width >= 32
    ensures Textbook(width, name)[..32] == Textbook(32, name)
    ensures Textbook(width, name) == Textbook(32, name) + Zeros(width - 32) <==> NoLateCarry(name, (width - 29) / 4)
  {
    LowPart(width, name);
    HighBits(width, name);
    Extension(Textbook(width, name), Textbook(32, name), name);
    LateCarryBits(name, width - 32);
  }

  lemma HighBits(width: nat, name: seq<Byte>)
    requires width >= 32
    ensures forall i :: 32 <= i < width ==> Textbook(width, name)[i] == CarryBit(name, i - 32)
  {
    forall i | 32 <= i < width
      ensures Textbook(width, name)[i] == CarryBit(name, i - 32)
    {
      HighPart(width, name, i - 32);
    }
  }

  predicate NoCarryBit(name: seq<Byte>, k: nat) { forall i: nat :: i < k ==> !CarryBit(name, i) }

  lemma Extension(word: Bits, low: Bits, name: seq<Byte>)
    requires |low| == 32 <= |word| && word[..32] == low
    requires forall i :: 32 <= i < |word| ==> word[i] == CarryBit(name, i - 32)
    ensures word == low + Zeros(|word| - 32) <==> NoCarryBit(name, |word| - 32)
  {
    var all := low + Zeros(|word| - 32);
    assert forall i :: 32 <= i < |word| ==> !all[i];
    assert forall i :: 0 <= i < 32 ==> word[i] == word[..32][i] == all[i];
    if word == all {
      forall i: nat | i < |word| - 32
        ensures !CarryBit(name, i)
      {
        assert !word[32 + i];
      }
    }
  }

  lemma LateCarryBits(name: seq<Byte>, k: nat)
    ensures NoCarryBit(name, k) <==> NoLateCarry(name, (k + 3) / 4)
  {
    if NoCarryBit(name, k) { AllClear(name, k); }
  }

  lemma AllClear(name: seq<Byte>, k: nat)
    requires NoCarryBit(name, k)
    ensures NoLateCarry(name, (k + 3) / 4)
  {
    forall i | 0 <= i < |name| && |name| - (k + 3) / 4 <= i
      ensures !CarriesAt(name, i)
    {
      var b := 4 * (|name| - 1 - i);
      assert b % 4 == 0 && b / 4 == |name| - 1 - i;
      assert !CarryBit(name, b);
    }
  }

  /** On 64 bits: exactly when none of the last eight characters carries. */
  lemma Textbook64(name: seq<Byte>)
    ensures Textbook(64, name) == Textbook(32, name) + Zeros(32) <==> NoLateCarry(name, 8)
  {
    TextbookExact(64, name);
  }

  // ---------- The words as numbers ----------

  /** The addition is the sum modulo the range of the word, and the carry what it leaves out. */
  lemma {:induction false} AddIsSum(a: Bits, b: Bits, carry: bool)
    requires |a| == |b|
    ensures ToNat(Add(a, b, carry)) + (if CarryOut(a, b, carry) then Power2(|a|) else 0) ==
            ToNat(a) + ToNat(b) + if carry then 1 else 0
    decreases |a|
  {
    if a != [] {
      AddIsSum(a[1..], b[1..], Majority(a[0], b[0], carry));
    }
  }

  lemma {:induction false} HighZeros(w: Bits, n: nat)
    ensures ToNat(w + Zeros(n)) == ToNat(w)
    decreases |w| + n
  {
    var all := w + Zeros(n);
    if w != [] {
      assert all[1..] == w[1..] + Zeros(n);
      HighZeros(w[1..], n);
    } else if n > 0 {
      assert all[1..] == w + Zeros(n - 1);
      HighZeros(w, n - 1);
    } else {
      assert all == w;
    }
  }

  lemma {:induction false} LowZeros(n: nat, w: Bits)
    ensures ToNat(Zeros(n) + w) == Power2(n) * ToNat(w)
    decreases n
  {
    if n == 0 {
      assert Zeros(n) + w == w;
    } else {
      assert (Zeros(n) + w)[1..] == Zeros(n - 1) + w;
      LowZeros(n - 1, w);
    }
  }

  lemma ExtendedNat(c: Byte)
    ensures ToNat(Extended(c, 32)) == c
  {
    HighZeros(BitsOf(c, 8), 24);
    ByteFromBits(c);
  }

  lemma ShiftedNat(h: Bits)
    requires |h| == 32 && h[28..] == Zeros(4)
    ensures ToNat(Shifted(h)) == 16 * ToNat(h)
  {
    LowZeros(4, h[..28]);
    assert h == h[..28] + Zeros(4);
    HighZeros(h[..28], 4);
    assert Power2(4) == 16;
  }

  lemma Power28()
    ensures Power2(28) == 0x1000_0000
  {
    assert Power2(4) == 16 && Power2(12) == 4096;
    PowerSum(4, 12);
    PowerSum(12, 16);
  }

  /** The top four of the 32 bits are always clear, so the next shift loses nothing. */
  lemma HashBound(name: seq<Byte>)
    ensures Hash(name) < 0x1000_0000
  {
    var w := Textbook(32, name);
    LowPart(32, name);
    assert w == w[..28] + Zeros(4);
    HighZeros(w[..28], 4);
    ToNatBounded(w[..28]);
    Power28();
  }

  /** A character carries exactly when sixteen times the hash so far, plus the character, leaves 32 bits. */
  lemma CarryIsOverflow(name: seq<Byte>, i: nat)
    requires i < |name|
    ensures CarriesAt(name, i) <==> 16 * Hash(name[..i]) + name[i] >= 0x1_0000_0000
  {
    LowPart(32, name[..i]);
    StepSum(Textbook(32, name[..i]), name[i]);
  }

  lemma StepSum(h: Bits, c: Byte)
    requires |h| == 32 && h[28..] == Zeros(4)
    ensures StepCarries(h, c) <==> 16 * ToNat(h) + c >= 0x1_0000_0000
    ensures var t := Add(Shifted(h), Extended(c, 32), false);
            ToNat(t) + (if StepCarries(h, c) then 0x1_0000_0000 else 0) == 16 * ToNat(h) + c
  {
    ShiftedNat(h);
    ExtendedNat(c);
    AddIsSum(Shifted(h), Extended(c, 32), false);
    ToNatBounded(Add(Shifted(h), Extended(c, 32), false));
    Power32();
  }

  /** A zero byte in front does not change the hash. */
  lemma {:induction false} LeadingZero(name: seq<Byte>)
    ensures Textbook(32, [0] + name) == Textbook(32, name) && Hash([0] + name) == Hash(name)
    decreases |name|
  {
    var longer: seq<Byte> := [0] + name;
    if name == [] {
      assert longer[..0] == [] && longer[0] == 0;
      ZeroStep();
    } else {
      assert longer[..|name|] == [0] + name[..|name| - 1];
      LeadingZero(name[..|name| - 1]);
    }
  }

  lemma ZeroStep()
    ensures Step(Zeros(32), 0) == Zeros(32)
  {
    BitsOfZero(8);
    assert Shifted(Zeros(32)) == Zeros(32) && Extended(0, 32) == Zeros(32);
    AddNothing(Zeros(32));
    SmallFold(Zeros(32));
  }

  // ---------- The carry does happen ----------

  lemma SmallStep(h: Bits, c: Byte)
    requires |h| == 32 && h[28..] == Zeros(4) && 16 * ToNat(h) + c < 0x1000_0000
    ensures ToNat(Step(h, c)) == 16 * ToNat(h) + c
  {
    var t := Add(Shifted(h), Extended(c, 32), false);
    StepSum(h, c);
    SmallTop(t);
    SmallFold(t);
  }

  lemma SmallTop(t: Bits)
    requires |t| == 32 && ToNat(t) < 0x1000_0000
    ensures t[28..] == Zeros(4)
  {
    Power28();
    BitsOfMore(ToNat(t), 28, 4);
    BitsOfToNat(t, 0);
    assert t + Zeros(0) == t;
  }

  lemma SmallFold(t: Bits)
    requires |t| == 32 && t[28..] == Zeros(4)
    ensures Fold(t) == t
  {
    assert forall i :: 28 <= i < 32 ==> t[i] == t[28..][i - 28];
    forall i | 0 <= i < 32
      ensures Fold(t)[i] == t[i]
    {
      FoldBits(t, i);
    }
  }

  function Power16(m: nat): nat { if m == 0 then 1 else 16 * Power16(m - 1) }

  /** A first character 0xff and then `n` characters 0x0f. */
  function AllOnes(n: nat): seq<Byte> { [0xff] + seq(n, i => 0x0f) }

  lemma {:induction false} OnesHash(n: nat)
    requires n <= 5
    ensures Hash(AllOnes(n)) + 1 == Power16(n + 2)
    decreases n
  {
    var name := AllOnes(n);
    assert Power16(2) == 256 && Power16(3) == 0x1000 && Power16(4) == 0x1_0000;
    assert Power16(5) == 0x10_0000 && Power16(6) == 0x100_0000 && Power16(7) == 0x1000_0000;
    assert name[..n + 1] == name;
    TextbookNext(32, name, n);
    LowPart(32, name[..n]);
    if n == 0 {
      HighZeros([], 32);
      assert [] + Zeros(32) == Zeros(32);
      SmallStep(Zeros(32), 0xff);
    } else {
      assert name[..n] == AllOnes(n - 1);
      OnesHash(n - 1);
      SmallStep(Textbook(32, AllOnes(n - 1)), 0x0f);
    }
  }

  /** On a 64-bit word the loop of the ABI gives this name another value than the source does. */
  lemma CarryHappens()
    ensures var name := AllOnes(5) + [0x12]; Textbook(64, name) != Textbook(32, name) + Zeros(32)
  {
    var name := AllOnes(5) + [0x12];
    OnesHash(5);
    assert Power16(4) == 0x1_0000 && Power16(7) == 0x1000_0000;
    assert name[..6] == AllOnes(5) && name[6] == 0x12;
    CarryIsOverflow(name, 6);
    Textbook64(name);
  }

  // ---------- The hash on numbers ----------

  lemma ShiftedIs(h: Bits)
    requires |h| == 32
    ensures ToNat(Shifted(h)) == 16 * (ToNat(h) % 0x1000_0000)
  {
    SplitBits(h, 28);
    NatJoin(Zeros(4), h[..28]);
    NatOfZeros(4);
    Power32();
    PowerSum(28, 4);
    assert Power2(2) == 4 && Power2(4) == 16;
  }

  lemma ExtendedIs(c: Byte)
    ensures ToNat(Extended(c, 32)) == c
  {
    NatJoin(BitsOf(c, 8), Zeros(24));
    NatOfZeros(24);
    ByteFromBits(c);
  }

  /** The hash so far moved up four bits, and a character added, in 32 bits. */
  function Moved(h: nat, c: nat): nat { (16 * h + c) % 0x1_0000_0000 }

  /** Shift and add, on numbers. */
  lemma ShiftAddIs(h: Bits, c: Byte)
    requires |h| == 32
    ensures ToNat(Add(Shifted(h), Extended(c, 32), false)) == Moved(ToNat(h), c)
  {
    ShiftedIs(h);
    ExtendedIs(c);
    SumIs(Shifted(h), Extended(c, 32), ToNat(h), c);
  }

  lemma SumIs(x: Bits, y: Bits, h: nat, c: nat)
    requires |x| == |y| == 32 && ToNat(x) == 16 * (h % 0x1000_0000) && ToNat(y) == c
    ensures ToNat(Add(x, y, false)) == Moved(h, c)
  {
    var sum := Add(x, y, false);
    AddIsSum(x, y, false);
    Power32();
    ToNatBounded(sum);
    ShiftAddMod(h, c, ToNat(sum), if CarryOut(x, y, false) then 1 else 0);
  }

  lemma ShiftAddMod(h: nat, c: nat, r: nat, carry: nat)
    requires r < 0x1_0000_0000 && r + carry * 0x1_0000_0000 == 16 * (h % 0x1000_0000) + c
    ensures (16 * h + c) % 0x1_0000_0000 == r
  {
    var q := h / 0x1000_0000;
    assert 16 * h + c == 0x1_0000_0000 * (q + carry) + r;
    DivModIs(16 * h + c, 0x1_0000_0000, q + carry, r);
  }

  lemma DigitOf(w: Bits, i: nat)
    requires i < |w|
    ensures BinaryDigit(ToNat(w), i) == w[i]
  {
    BitsOfToNat(w, 0);
    assert w + Zeros(0) == w;
    BitIsDigit(ToNat(w), |w|, i);
  }

  /**
    Each character moves the hash up four bits and is added, in 32 bits; then the top four bits of
    that are xored into bits 4 to 7 and dropped.
  */
  lemma HashStep(name: seq<Byte>, c: Byte, i: nat)
    requires i < 32
    ensures var t := Moved(Hash(name), c);
            BinaryDigit(Hash(name + [c]), i) <==>
            i < 28 && (BinaryDigit(t, i) != (4 <= i < 8 && BinaryDigit(t, i + 24)))
  {
    var t := NextSum(name, c);
    FoldDigit(t, Moved(Hash(name), c), i);
  }

  lemma NextSum(name: seq<Byte>, c: Byte) returns (t: Bits)
    ensures |t| == 32 && ToNat(t) == Moved(Hash(name), c) && Hash(name + [c]) == ToNat(Fold(t))
  {
    t := Add(Shifted(Textbook(32, name)), Extended(c, 32), false);
    ShiftAddIs(Textbook(32, name), c);
    assert (name + [c])[..|name|] == name;
  }

  lemma HashOfNothing()
    ensures Hash([]) == 0
  {
    NatOfZeros(32);
  }

  lemma FoldDigit(t: Bits, n: nat, i: nat)
    requires |t| == 32 && ToNat(t) == n && i < 32
    ensures BinaryDigit(ToNat(Fold(t)), i) <==>
            i < 28 && (BinaryDigit(n, i) != (4 <= i < 8 && BinaryDigit(n, i + 24)))
  {
    FoldBits(t, i);
    DigitOf(t, i);
    if 4 <= i < 8 { DigitOf(t, i + 24); }
    FoldedDigit(Fold(t), i, i < 28 && (t[i] != (4 <= i < 8 && t[i + 24])));
  }

  lemma FoldedDigit(w: Bits, i: nat, b: bool)
    requires i < |w| == 32 && w[i] == b
    ensures BinaryDigit(ToNat(w), i) == b
  {
    DigitOf(w, i);
  }
}
