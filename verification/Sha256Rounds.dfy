/**
  The compression function of SHA-256 (src/sha256.rs), and what pins it to FIPS 180-4: its round
  constants are the cube roots of primes, its functions are given bit by bit, and its rounds are the
  recurrences of two sequences.
*/
module Sha256Rounds {
  import opened Arithmetic
  import opened Words

  // ---------- Functions and constants of FIPS 180-4, sections 4.1.2, 4.2.2 and 5.3.3 ----------

  function Ch(x: Word, y: Word, z: Word): Word { Xor(And(x, y), And(Not(x), z)) }

  function Maj(x: Word, y: Word, z: Word): Word { Xor(Xor(And(x, y), And(x, z)), And(y, z)) }

  function BigSigma0(x: Word): Word { Xor(Xor(RotateRight(x, 2), RotateRight(x, 13)), RotateRight(x, 22)) }

  function BigSigma1(x: Word): Word { Xor(Xor(RotateRight(x, 6), RotateRight(x, 11)), RotateRight(x, 25)) }

  function SmallSigma0(x: Word): Word { Xor(Xor(RotateRight(x, 7), RotateRight(x, 18)), Shr(x, 3)) }

  function SmallSigma1(x: Word): Word { Xor(Xor(RotateRight(x, 17), RotateRight(x, 19)), Shr(x, 10)) }

  /** The 64 round constants, in rows of eight. */
  function RoundConstants(r: nat): (k: seq<nat>)
    requires r < 8
    ensures |k| == 8 && forall i :: 0 <= i < 8 ==> k[i] < 0x1_0000_0000
  {
    if r == 0 then [0x428a2f98, 0x71374491, 0xb5c0fbcf, 0xe9b5dba5, 0x3956c25b, 0x59f111f1, 0x923f82a4, 0xab1c5ed5]
    else if r == 1 then [0xd807aa98, 0x12835b01, 0x243185be, 0x550c7dc3, 0x72be5d74, 0x80deb1fe, 0x9bdc06a7, 0xc19bf174]
    else if r == 2 then [0xe49b69c1, 0xefbe4786, 0x0fc19dc6, 0x240ca1cc, 0x2de92c6f, 0x4a7484aa, 0x5cb0a9dc, 0x76f988da]
    else if r == 3 then [0x983e5152, 0xa831c66d, 0xb00327c8, 0xbf597fc7, 0xc6e00bf3, 0xd5a79147, 0x06ca6351, 0x14292967]
    else if r == 4 then [0x27b70a85, 0x2e1b2138, 0x4d2c6dfc, 0x53380d13, 0x650a7354, 0x766a0abb, 0x81c2c92e, 0x92722c85]
    else if r == 5 then [0xa2bfe8a1, 0xa81a664b, 0xc24b8b70, 0xc76c51a3, 0xd192e819, 0xd6990624, 0xf40e3585, 0x106aa070]
    else if r == 6 then [0x19a4c116, 0x1e376c08, 0x2748774c, 0x34b0bcb5, 0x391c0cb3, 0x4ed8aa4a, 0x5b9cca4f, 0x682e6ff3]
    else [0x748f82ee, 0x78a5636f, 0x84c87814, 0x8cc70208, 0x90befffa, 0xa4506ceb, 0xbef9a3f7, 0xc67178f2]
  }

  function K(t: nat): Word
    requires t < 64
  {
    WordOf(RoundConstants(t / 8)[t % 8])
  }

  /** Eight words: the chaining value, and the working variables of section 6.2. */
  datatype Regs = Regs(a: Word, b: Word, c: Word, d: Word, e: Word, f: Word, g: Word, h: Word)

  function InitialConstants(): (k: seq<nat>)
    ensures |k| == 8 && forall i :: 0 <= i < 8 ==> k[i] < 0x1_0000_0000
  {
    [0x6a09e667, 0xbb67ae85, 0x3c6ef372, 0xa54ff53a, 0x510e527f, 0x9b05688c, 0x1f83d9ab, 0x5be0cd19]
  }

  function H0(i: nat): Word
    requires i < 8
  {
    WordOf(InitialConstants()[i])
  }

  /** The registers by number. */
  function Register(s: Regs, i: nat): Word
    requires i < 8
  {
    if i == 0 then s.a else if i == 1 then s.b else if i == 2 then s.c else if i == 3 then s.d
    else if i == 4 then s.e else if i == 5 then s.f else if i == 6 then s.g else s.h
  }

  function InitialHash(): Regs {
    Regs(H0(0), H0(1), H0(2), H0(3), H0(4), H0(5), H0(6), H0(7))
  }

  type Block = b: seq<Byte> | |b| == 64 witness seq(64, i => 0)

  // ---------- The hash computation, section 6.2.2 ----------

  function Schedule(block: Block, t: nat): Word
    requires t < 64
  {
    if t < 16 then FromBigEndian(block[4 * t], block[4 * t + 1], block[4 * t + 2], block[4 * t + 3])
    else
      AddMod(AddMod(AddMod(SmallSigma1(Schedule(block, t - 2)), Schedule(block, t - 7)),
                    SmallSigma0(Schedule(block, t - 15))),
             Schedule(block, t - 16))
  }

  function T1(s: Regs, k: Word, w: Word): Word {
    AddMod(AddMod(AddMod(AddMod(s.h, BigSigma1(s.e)), Ch(s.e, s.f, s.g)), k), w)
  }

  function T2(s: Regs): Word {
    AddMod(BigSigma0(s.a), Maj(s.a, s.b, s.c))
  }

  /** The working variables after `t` rounds. */
  function Rounds(h: Regs, block: Block, t: nat): Regs
    requires t <= 64
    decreases block, t, 0
  {
    if t == 0 then h else NextRound(h, block, t - 1)
  }

  function NextRound(h: Regs, block: Block, t: nat): Regs
    requires t < 64
    decreases block, t, 1
  {
    var s := Rounds(h, block, t);
    var t1 := T1(s, K(t), Schedule(block, t));
    Regs(AddMod(t1, T2(s)), s.a, s.b, s.c, AddMod(s.d, t1), s.e, s.f, s.g)
  }

  function Sum(x: Regs, y: Regs): Regs {
    Regs(AddMod(x.a, y.a), AddMod(x.b, y.b), AddMod(x.c, y.c), AddMod(x.d, y.d),
         AddMod(x.e, y.e), AddMod(x.f, y.f), AddMod(x.g, y.g), AddMod(x.h, y.h))
  }

  function Compressed(h: Regs, block: Block): Regs {
    Sum(h, Rounds(h, block, 64))
  }

  // ---------- The functions of section 4.1.2, bit by bit ----------

  /** Choose between two words, and the majority of three. */
  lemma ChoiceBits(x: Word, y: Word, z: Word, i: nat)
    requires i < 32
    ensures Ch(x, y, z)[i] == if x[i] then y[i] else z[i]
    ensures Maj(x, y, z)[i] <==> (x[i] && y[i]) || (y[i] && z[i]) || (x[i] && z[i])
  {
  }

  /** An odd number of three. */
  predicate Odd(p: bool, q: bool, r: bool) { (p != q) != r }

  lemma RotatedBit(x: Word, n: nat, i: nat)
    requires n <= 32 && i < 32
    ensures RotateRight(x, n)[i] == x[(i + n) % 32]
    ensures Shr(x, n)[i] <==> i + n < 32 && x[i + n]
  {
  }

  /** Each bit of a sigma function combines three bits of its argument. */
  lemma SigmaBits(x: Word, i: nat)
    requires i < 32
    ensures BigSigma0(x)[i] == Odd(x[(i + 2) % 32], x[(i + 13) % 32], x[(i + 22) % 32])
    ensures BigSigma1(x)[i] == Odd(x[(i + 6) % 32], x[(i + 11) % 32], x[(i + 25) % 32])
    ensures SmallSigma0(x)[i] == Odd(x[(i + 7) % 32], x[(i + 18) % 32], i + 3 < 32 && x[i + 3])
    ensures SmallSigma1(x)[i] == Odd(x[(i + 17) % 32], x[(i + 19) % 32], i + 10 < 32 && x[i + 10])
  {
    RotatedBit(x, 2, i);
    RotatedBit(x, 13, i);
    RotatedBit(x, 22, i);
    RotatedBit(x, 6, i);
    RotatedBit(x, 11, i);
    RotatedBit(x, 25, i);
    RotatedBit(x, 7, i);
    RotatedBit(x, 18, i);
    RotatedBit(x, 3, i);
    RotatedBit(x, 17, i);
    RotatedBit(x, 19, i);
    RotatedBit(x, 10, i);
  }

  // ---------- The rounds as two sequences ----------

  const M := 0x1_0000_0000

  /** Four bytes as a number, the first the highest. */
  function Joined(a: nat, b: nat, c: nat, d: nat): nat { ((a * 256 + b) * 256 + c) * 256 + d }

  /** Word `t` of a message schedule, on numbers. */
  predicate MessageWord(block: Block, w: seq<Word>, t: nat)
    requires t < 64 == |w|
  {
    if t < 16 then ToNat(w[t]) == Joined(block[4 * t], block[4 * t + 1], block[4 * t + 2], block[4 * t + 3])
    else
      ToNat(w[t]) ==
      (ToNat(SmallSigma1(w[t - 2])) + ToNat(w[t - 7]) + ToNat(SmallSigma0(w[t - 15])) + ToNat(w[t - 16])) % M
  }

  predicate IsMessage(block: Block, w: seq<Word>) {
    |w| == 64 && forall t :: 0 <= t < 64 ==> MessageWord(block, w, t)
  }

  /** What the first and the fifth register get in common in round `t`, with constant `k`. */
  function Common(e: seq<Word>, k: nat, w: seq<Word>, t: nat): nat
    requires t < 64 == |w| && |e| == 68
  {
    ToNat(e[t]) + ToNat(BigSigma1(e[t + 3])) + ToNat(Ch(e[t + 3], e[t + 2], e[t + 1])) + k + ToNat(w[t])
  }

  /** The new values of the fifth and of the first register in round `t`, as numbers. */
  function FifthNumber(k: nat, w: seq<Word>, a: seq<Word>, e: seq<Word>, t: nat): nat
    requires t < 64 == |w| && |a| == |e| == 68
  {
    (ToNat(a[t]) + Common(e, k, w, t)) % M
  }

  function FirstNumber(k: nat, w: seq<Word>, a: seq<Word>, e: seq<Word>, t: nat): nat
    requires t < 64 == |w| && |a| == |e| == 68
  {
    (Common(e, k, w, t) + ToNat(BigSigma0(a[t + 3])) + ToNat(Maj(a[t + 3], a[t + 2], a[t + 1]))) % M
  }

  predicate RoundValues(k: nat, w: seq<Word>, a: seq<Word>, e: seq<Word>, t: nat)
    requires t < 64 == |w| && |a| == |e| == 68
  {
    ToNat(e[t + 4]) == FifthNumber(k, w, a, e, t) && ToNat(a[t + 4]) == FirstNumber(k, w, a, e, t)
  }

  /** The constants in one list. */
  predicate AreConstants(k: seq<nat>) {
    |k| == 64 && forall t :: 0 <= t < 64 ==> ListedConstant(k[t], t)
  }

  predicate ListedConstant(n: nat, t: nat)
    requires t < 64
  {
    n == RoundConstants(t / 8)[t % 8]
  }

  /** The values of the first and of the fifth register, from three rounds before the start. */
  predicate Recurs(h: Regs, k: seq<nat>, w: seq<Word>, a: seq<Word>, e: seq<Word>) {
    && |k| == |w| == 64 && |a| == |e| == 68
    && a[0] == h.d && a[1] == h.c && a[2] == h.b && a[3] == h.a
    && e[0] == h.h && e[1] == h.g && e[2] == h.f && e[3] == h.e
    && forall t :: 0 <= t < 64 ==> RoundValues(k[t], w, a, e, t)
  }

  /** The eight registers: the last four values of each sequence. */
  function Window(a: seq<Word>, e: seq<Word>, t: nat): Regs
    requires t <= 64 && |a| == |e| == 68
  {
    Regs(a[t + 3], a[t + 2], a[t + 1], a[t], e[t + 3], e[t + 2], e[t + 1], e[t])
  }

  predicate IsSum(x: Word, y: Word, z: Word) { ToNat(z) == (ToNat(x) + ToNat(y)) % M }

  /** `r` is the registers of `h` with those of `s` added. */
  predicate AreSums(h: Regs, s: Regs, r: Regs) {
    && IsSum(h.a, s.a, r.a) && IsSum(h.b, s.b, r.b) && IsSum(h.c, s.c, r.c) && IsSum(h.d, s.d, r.d)
    && IsSum(h.e, s.e, r.e) && IsSum(h.f, s.f, r.f) && IsSum(h.g, s.g, r.g) && IsSum(h.h, s.h, r.h)
  }

  /** What section 6.2.2 asks of the next chaining value. */
  ghost predicate Compresses(h: Regs, block: Block, k: seq<nat>, w: seq<Word>, a: seq<Word>, e: seq<Word>, r: Regs) {
    AreConstants(k) && IsMessage(block, w) && Recurs(h, k, w, a, e) && AreSums(h, Window(a, e, 64), r)
  }

  lemma SumIs(x: Word, y: Word, z: Word)
    ensures z == AddMod(x, y) <==> IsSum(x, y, z)
  {
    AddModIs(x, y);
    if IsSum(x, y, z) { SameNumber(z, AddMod(x, y)); }
  }

  lemma AddThree(x: Word, y: Word, z: Word)
    ensures ToNat(AddMod(AddMod(x, y), z)) == (ToNat(x) + ToNat(y) + ToNat(z)) % M
  {
    AddModIs(x, y);
    AddModIs(AddMod(x, y), z);
    ModAdd(ToNat(x) + ToNat(y), ToNat(z), M);
  }

  lemma AddFour(x: Word, y: Word, z: Word, u: Word)
    ensures ToNat(AddMod(AddMod(AddMod(x, y), z), u)) == (ToNat(x) + ToNat(y) + ToNat(z) + ToNat(u)) % M
  {
    AddThree(x, y, z);
    AddModIs(AddMod(AddMod(x, y), z), u);
    ModAdd(ToNat(x) + ToNat(y) + ToNat(z), ToNat(u), M);
  }

  lemma AddFive(x: Word, y: Word, z: Word, u: Word, v: Word)
    ensures ToNat(AddMod(AddMod(AddMod(AddMod(x, y), z), u), v)) ==
            (ToNat(x) + ToNat(y) + ToNat(z) + ToNat(u) + ToNat(v)) % M
  {
    AddFour(x, y, z, u);
    AddModIs(AddMod(AddMod(AddMod(x, y), z), u), v);
    ModAdd(ToNat(x) + ToNat(y) + ToNat(z) + ToNat(u), ToNat(v), M);
  }

  lemma ConstantIs(n: nat, t: nat)
    requires t < 64 && ListedConstant(n, t)
    ensures ToNat(K(t)) == n
  {
    WordOfIs(RoundConstants(t / 8)[t % 8]);
  }

  lemma TheConstants() returns (k: seq<nat>)
    ensures AreConstants(k)
  {
    k := seq(64, t requires 0 <= t < 64 => RoundConstants(t / 8)[t % 8]);
  }

  /** A later word of the schedule, from four words it stands for. */
  lemma ExpandedWord(block: Block, t: nat, x: Word, y: Word, z: Word, u: Word)
    requires 16 <= t < 64
    requires x == Schedule(block, t - 2) && y == Schedule(block, t - 7)
    requires z == Schedule(block, t - 15) && u == Schedule(block, t - 16)
    ensures ToNat(Schedule(block, t)) == (ToNat(SmallSigma1(x)) + ToNat(y) + ToNat(SmallSigma0(z)) + ToNat(u)) % M
  {
    AddFour(SmallSigma1(x), y, SmallSigma0(z), u);
    assert Schedule(block, t) == AddMod(AddMod(AddMod(SmallSigma1(x), y), SmallSigma0(z)), u);
  }

  lemma FirstWord(block: Block, t: nat)
    requires t < 16
    ensures ToNat(Schedule(block, t)) == Joined(block[4 * t], block[4 * t + 1], block[4 * t + 2], block[4 * t + 3])
  {
    FromBigEndianIs(block[4 * t], block[4 * t + 1], block[4 * t + 2], block[4 * t + 3]);
  }

  /** The words of the schedule are the only ones that meet its equations. */
  lemma {:induction false} MessageIs(block: Block, w: seq<Word>, t: nat)
    requires IsMessage(block, w) && t < 64
    ensures w[t] == Schedule(block, t)
    decreases t
  {
    assert MessageWord(block, w, t);
    if t < 16 {
      FirstWord(block, t);
    } else {
      MessageIs(block, w, t - 2);
      MessageIs(block, w, t - 7);
      MessageIs(block, w, t - 15);
      MessageIs(block, w, t - 16);
      ExpandedWord(block, t, w[t - 2], w[t - 7], w[t - 15], w[t - 16]);
    }
    SameNumber(w[t], Schedule(block, t));
  }

  lemma ScheduleIsMessage(block: Block, w: seq<Word>)
    requires IsSchedule(w, block)
    ensures IsMessage(block, w)
  {
    forall t | 0 <= t < 64
      ensures MessageWord(block, w, t)
    {
      assert w[t] == Schedule(block, t);
      if t < 16 { FirstWord(block, t); } else { LaterWord(block, w, t); }
    }
  }

  lemma LaterWord(block: Block, w: seq<Word>, t: nat)
    requires 16 <= t < 64 == |w| && w[t] == Schedule(block, t)
    requires w[t - 2] == Schedule(block, t - 2) && w[t - 7] == Schedule(block, t - 7)
    requires w[t - 15] == Schedule(block, t - 15) && w[t - 16] == Schedule(block, t - 16)
    ensures MessageWord(block, w, t)
  {
    ExpandedWord(block, t, w[t - 2], w[t - 7], w[t - 15], w[t - 16]);
  }

  /** The new fifth register, `t1` being what both new values have in common. */
  lemma FifthValue(d: Word, t1: Word, common: nat)
    requires ToNat(t1) == common % M
    ensures ToNat(AddMod(d, t1)) == (ToNat(d) + common) % M
  {
    AddModIs(d, t1);
    ModAdd(common, ToNat(d), M);
  }

  lemma FirstValue(t1: Word, s0: Word, maj: Word, common: nat)
    requires ToNat(t1) == common % M
    ensures ToNat(AddMod(t1, AddMod(s0, maj))) == (common + ToNat(s0) + ToNat(maj)) % M
  {
    var t2, sum := AddMod(s0, maj), ToNat(s0) + ToNat(maj);
    AddModIs(s0, maj);
    AddModIs(t1, t2);
    ModAdd(common, ToNat(t2), M);
    ModAdd(sum, common, M);
  }

  /** The registers after a round. */
  function After(s: Regs, k: Word, w: Word): Regs {
    Regs(AddMod(T1(s, k, w), T2(s)), s.a, s.b, s.c, AddMod(s.d, T1(s, k, w)), s.e, s.f, s.g)
  }

  lemma CommonIs(k: Word, w: seq<Word>, a: seq<Word>, e: seq<Word>, t: nat)
    requires t < 64 == |w| && |a| == |e| == 68
    ensures ToNat(T1(Window(a, e, t), k, w[t])) == Common(e, ToNat(k), w, t) % M
  {
    AddFive(e[t], BigSigma1(e[t + 3]), Ch(e[t + 3], e[t + 2], e[t + 1]), k, w[t]);
  }

  lemma FifthIs(k: Word, w: seq<Word>, a: seq<Word>, e: seq<Word>, t: nat)
    requires t < 64 == |w| && |a| == |e| == 68
    ensures ToNat(AddMod(a[t], T1(Window(a, e, t), k, w[t]))) == FifthNumber(ToNat(k), w, a, e, t)
  {
    CommonIs(k, w, a, e, t);
    FifthValue(a[t], T1(Window(a, e, t), k, w[t]), Common(e, ToNat(k), w, t));
  }

  lemma FirstIs(k: Word, w: seq<Word>, a: seq<Word>, e: seq<Word>, t: nat)
    requires t < 64 == |w| && |a| == |e| == 68
    ensures var s := Window(a, e, t);
            ToNat(AddMod(T1(s, k, w[t]), T2(s))) == FirstNumber(ToNat(k), w, a, e, t)
  {
    CommonIs(k, w, a, e, t);
    FirstFrom(T1(Window(a, e, t), k, w[t]), ToNat(k), w, a, e, t);
  }

  lemma FirstFrom(t1: Word, k: nat, w: seq<Word>, a: seq<Word>, e: seq<Word>, t: nat)
    requires t < 64 == |w| && |a| == |e| == 68 && ToNat(t1) == Common(e, k, w, t) % M
    ensures ToNat(AddMod(t1, T2(Window(a, e, t)))) == FirstNumber(k, w, a, e, t)
  {
    FirstValue(t1, BigSigma0(a[t + 3]), Maj(a[t + 3], a[t + 2], a[t + 1]), Common(e, k, w, t));
  }

  lemma HasNumber(x: Word, y: Word, n: nat)
    requires ToNat(x) == n
    ensures x == y <==> ToNat(y) == n
  {
    if ToNat(y) == n { SameNumber(x, y); }
  }

  lemma BothNumbers(s: Regs, x: Word, y: Word, m: nat, n: nat, next: Regs)
    requires ToNat(x) == m && ToNat(y) == n
    requires next.b == s.a && next.c == s.b && next.d == s.c && next.f == s.e && next.g == s.f && next.h == s.g
    ensures Regs(y, s.a, s.b, s.c, x, s.e, s.f, s.g) == next <==> ToNat(next.e) == m && ToNat(next.a) == n
  {
    HasNumber(x, next.e, m);
    HasNumber(y, next.a, n);
  }

  /** A round moves the window on exactly when its values meet the equations. */
  lemma WindowMoves(k: Word, w: seq<Word>, a: seq<Word>, e: seq<Word>, t: nat)
    requires t < 64 == |w| && |a| == |e| == 68
    ensures After(Window(a, e, t), k, w[t]) == Window(a, e, t + 1) <==> RoundValues(ToNat(k), w, a, e, t)
  {
    var s, n := Window(a, e, t), ToNat(k);
    var x, y := AddMod(s.d, T1(s, k, w[t])), AddMod(T1(s, k, w[t]), T2(s));
    FifthIs(k, w, a, e, t);
    FirstIs(k, w, a, e, t);
    BothNumbers(s, x, y, FifthNumber(n, w, a, e, t), FirstNumber(n, w, a, e, t), Window(a, e, t + 1));
  }

  lemma NextIsAfter(h: Regs, block: Block, t: nat)
    requires t < 64
    ensures Rounds(h, block, t + 1) == After(Rounds(h, block, t), K(t), Schedule(block, t))
  {
  }

  /** The registers after each round are the window of any two sequences that meet the recurrences. */
  lemma {:induction false} RoundsAreWindows(
    h: Regs, block: Block, k: seq<nat>, w: seq<Word>, a: seq<Word>, e: seq<Word>, t: nat)
    requires AreConstants(k) && IsMessage(block, w) && Recurs(h, k, w, a, e) && t <= 64
    ensures Rounds(h, block, t) == Window(a, e, t)
    decreases t
  {
    if t > 0 {
      RoundsAreWindows(h, block, k, w, a, e, t - 1);
      MessageIs(block, w, t - 1);
      assert ListedConstant(k[t - 1], t - 1) && RoundValues(k[t - 1], w, a, e, t - 1);
      NextWindow(h, block, k[t - 1], w, a, e, t - 1);
    }
  }

  lemma NextWindow(h: Regs, block: Block, k: nat, w: seq<Word>, a: seq<Word>, e: seq<Word>, t: nat)
    requires t < 64 == |w| && |a| == |e| == 68 && w[t] == Schedule(block, t) && ListedConstant(k, t)
    requires Rounds(h, block, t) == Window(a, e, t)
    ensures Rounds(h, block, t + 1) == Window(a, e, t + 1) <==> RoundValues(k, w, a, e, t)
  {
    ConstantIs(k, t);
    NextIsAfter(h, block, t);
    WindowMoves(K(t), w, a, e, t);
  }

  /** The sequences of the rounds. */
  function FirstAt(h: Regs, block: Block, t: nat): Word
    requires t < 68
  {
    if t == 0 then h.d else if t == 1 then h.c else if t == 2 then h.b else Rounds(h, block, t - 3).a
  }

  function FifthAt(h: Regs, block: Block, t: nat): Word
    requires t < 68
  {
    if t == 0 then h.h else if t == 1 then h.g else if t == 2 then h.f else Rounds(h, block, t - 3).e
  }

  predicate AreSequences(h: Regs, block: Block, a: seq<Word>, e: seq<Word>) {
    && |a| == |e| == 68
    && forall t {:trigger a[t]} {:trigger e[t]} :: 0 <= t < 68 ==>
         a[t] == FirstAt(h, block, t) && e[t] == FifthAt(h, block, t)
  }

  /** Each register holds what the one before it held a round ago. */
  lemma {:induction false} RegistersShift(h: Regs, block: Block, a: seq<Word>, e: seq<Word>, t: nat)
    requires t <= 64 && AreSequences(h, block, a, e)
    ensures Rounds(h, block, t) == Window(a, e, t)
    decreases t
  {
    if t > 0 {
      RegistersShift(h, block, a, e, t - 1);
      NextIsAfter(h, block, t - 1);
    }
    assert a[t + 3] == FirstAt(h, block, t + 3) && e[t + 3] == FifthAt(h, block, t + 3);
  }

  lemma RoundsRecur(h: Regs, block: Block, k: seq<nat>, w: seq<Word>, a: seq<Word>, e: seq<Word>)
    requires AreConstants(k) && IsSchedule(w, block) && AreSequences(h, block, a, e)
    ensures Recurs(h, k, w, a, e)
  {
    forall t | 0 <= t < 64
      ensures RoundValues(k[t], w, a, e, t)
    {
      assert ListedConstant(k[t], t) && w[t] == Schedule(block, t);
      RegistersShift(h, block, a, e, t);
      RegistersShift(h, block, a, e, t + 1);
      NextWindow(h, block, k[t], w, a, e, t);
    }
    RegistersShift(h, block, a, e, 0);
  }

  lemma AllSums(h: Regs, s: Regs, r: Regs)
    ensures r == Sum(h, s) <==> AreSums(h, s, r)
  {
    SumIs(h.a, s.a, r.a);
    SumIs(h.b, s.b, r.b);
    SumIs(h.c, s.c, r.c);
    SumIs(h.d, s.d, r.d);
    SumIs(h.e, s.e, r.e);
    SumIs(h.f, s.f, r.f);
    SumIs(h.g, s.g, r.g);
    SumIs(h.h, s.h, r.h);
  }

  lemma TheSequences(h: Regs, block: Block) returns (a: seq<Word>, e: seq<Word>)
    ensures AreSequences(h, block, a, e)
  {
    a := seq(68, t requires 0 <= t < 68 => FirstAt(h, block, t));
    e := seq(68, t requires 0 <= t < 68 => FifthAt(h, block, t));
  }

  lemma CompressedCompresses(h: Regs, block: Block)
    ensures exists k, w, a, e :: Compresses(h, block, k, w, a, e, Compressed(h, block))
  {
    var k := TheConstants();
    var w := TheSchedule(block);
    var a, e := TheSequences(h, block);
    ScheduleIsMessage(block, w);
    RoundsRecur(h, block, k, w, a, e);
    RoundsAreWindows(h, block, k, w, a, e, 64);
    AllSums(h, Window(a, e, 64), Compressed(h, block));
    assert Compresses(h, block, k, w, a, e, Compressed(h, block));
  }

  /** The compression function gives the one chaining value the standard's equations allow. */
  lemma CompressExact(h: Regs, block: Block, r: Regs)
    ensures r == Compressed(h, block) <==> exists k, w, a, e :: Compresses(h, block, k, w, a, e, r)
  {
    CompressedCompresses(h, block);
    if k, w, a, e :| Compresses(h, block, k, w, a, e, r) {
      RoundsAreWindows(h, block, k, w, a, e, 64);
      AllSums(h, Window(a, e, 64), r);
    }
  }

  // ---------- The source's compression loops ----------

  /** `sched` lists the schedule of a block; the list stands for it so that it need not be unfolded. */
  ghost predicate IsSchedule(sched: seq<Word>, block: Block) {
    |sched| == 64 && forall t {:trigger Schedule(block, t)} :: 0 <= t < 64 ==> sched[t] == Schedule(block, t)
  }

  lemma TheSchedule(block: Block) returns (sched: seq<Word>)
    ensures IsSchedule(sched, block)
  {
    sched := seq(64, t requires 0 <= t < 64 => Schedule(block, t));
  }

  /** The word a block holds at `i`. */
  method LoadWord(block: Block, i: nat, ghost sched: seq<Word>) returns (x: Word)
    requires IsSchedule(sched, block) && i < 16
    ensures x == sched[i]
  {
    x := FromBigEndian(block[i * 4], block[i * 4 + 1], block[i * 4 + 2], block[i * 4 + 3]);
    assert x == Schedule(block, i);
  }

  /** One word of the expansion from four before it. */
  method NextWord(w: array<Word>, block: Block, i: nat, ghost sched: seq<Word>) returns (x: Word)
    requires IsSchedule(sched, block) && 16 <= i < 64 == w.Length && w[..i] == sched[..i]
    ensures x == sched[i]
  {
    assert forall t :: 0 <= t < i ==> w[t] == w[..i][t] == sched[t];
    x := AddMod(AddMod(AddMod(SmallSigma1(w[i - 2]), w[i - 7]), SmallSigma0(w[i - 15])), w[i - 16]);
    assert x == Schedule(block, i);
  }

  method ExpandSchedule(block: Block, ghost sched: seq<Word>) returns (w: array<Word>)
    requires IsSchedule(sched, block)
    ensures fresh(w) && w[..] == sched
  {
    w := new Word[64](_ => Zeros(32));
    for i := 0 to 16
      invariant w[..i] == sched[..i]
    {
      var x := LoadWord(block, i, sched);
      w[i] := x;
      assert w[..i + 1] == w[..i] + [x];
    }
    for i := 16 to 64
      invariant w[..i] == sched[..i]
    {
      var x := NextWord(w, block, i, sched);
      w[i] := x;
      assert w[..i + 1] == w[..i] + [x];
    }
    assert w[..64] == w[..] && sched[..64] == sched;
  }

  /** The next chaining value, which meets the standard's equations. */
  method CompressBlock(h: Regs, block: Block) returns (r: Regs)
    ensures r == Compressed(h, block)
    ensures exists k, w, a, e :: Compresses(h, block, k, w, a, e, r)
  {
    CompressedCompresses(h, block);
    ghost var sched := TheSchedule(block);
    var w := ExpandSchedule(block, sched);
    var s := h;
    for i := 0 to 64
      invariant s == Rounds(h, block, i)
    {
      assert w[i] == w[..][i] == Schedule(block, i);
      var t1 := AddMod(AddMod(AddMod(AddMod(s.h, BigSigma1(s.e)), Ch(s.e, s.f, s.g)), K(i)), w[i]);
      var t2 := AddMod(BigSigma0(s.a), Maj(s.a, s.b, s.c));
      s := Regs(AddMod(t1, t2), s.a, s.b, s.c, AddMod(s.d, t1), s.e, s.f, s.g);
    }
    r := Sum(h, s);
  }
}
