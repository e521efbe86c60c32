/**
  The constants of SHA-256 by their definition in FIPS 180-4 (sections 4.2.2 and 5.3.3): the first 32
  bits of the fractional parts of the cube roots of the first 64 primes, and of the square roots of
  the first eight.
*/
module Sha256Constants {
  import opened Arithmetic
  import opened Sha256Rounds
  import opened Words

  // ---------- The first 64 primes ----------

  predicate Factors(a: nat, b: nat, n: nat) { a >= 2 && b >= 2 && a * b == n }

  ghost predicate IsPrime(n: nat) { n >= 2 && forall a, b :: !Factors(a, b, n) }

  /** In rows of eight, like the constants. */
  function PrimeRow(r: nat): (p: seq<nat>)
    requires r < 8
    ensures |p| == 8
  {
    if r == 0 then [2, 3, 5, 7, 11, 13, 17, 19]
    else if r == 1 then [23, 29, 31, 37, 41, 43, 47, 53]
    else if r == 2 then [59, 61, 67, 71, 73, 79, 83, 89]
    else if r == 3 then [97, 101, 103, 107, 109, 113, 127, 131]
    else if r == 4 then [137, 139, 149, 151, 157, 163, 167, 173]
    else if r == 5 then [179, 181, 191, 193, 197, 199, 211, 223]
    else if r == 6 then [227, 229, 233, 239, 241, 251, 257, 263]
    else [269, 271, 277, 281, 283, 293, 307, 311]
  }

  function PrimeAt(t: nat): nat
    requires t < 64
  {
    PrimeRow(t / 8)[t % 8]
  }

  /** No prime up to 17 divides it, other than itself. */
  predicate Sifted(n: nat) {
    && n >= 2 && (n > 2 ==> n % 2 != 0) && (n > 3 ==> n % 3 != 0) && (n > 5 ==> n % 5 != 0)
    && (n > 7 ==> n % 7 != 0) && (n > 11 ==> n % 11 != 0) && (n > 13 ==> n % 13 != 0) && (n > 17 ==> n % 17 != 0)
  }

  predicate NoneFrom(n: nat, q: nat)
    decreases q - n
  {
    n >= q || (!Sifted(n) && NoneFrom(n + 1, q))
  }

  /** `q` is the next sifted number after `p`. */
  predicate Follows(p: nat, q: nat) { Sifted(p) && Sifted(q) && p < q && NoneFrom(p + 1, q) }

  lemma {:induction false} NoneIn(n: nat, q: nat, m: nat)
    requires NoneFrom(n, q) && n <= m < q
    ensures !Sifted(m)
    decreases q - n
  {
    if n < m { NoneIn(n + 1, q, m); }
  }

  predicate InOrder(p: seq<nat>)
    requires |p| == 8
  {
    forall i :: 0 <= i < 7 ==> Follows(p[i], p[i + 1])
  }

  lemma Gaps0()
    ensures InOrder(PrimeRow(0)) && Follows(19, 23)
  {
    assert Follows(2, 3) && Follows(3, 5) && Follows(5, 7) && Follows(7, 11);
    assert Follows(11, 13) && Follows(13, 17) && Follows(17, 19) && Follows(19, 23);
  }

  lemma Gaps1()
    ensures InOrder(PrimeRow(1)) && Follows(53, 59)
  {
    assert Follows(23, 29) && Follows(29, 31) && Follows(31, 37) && Follows(37, 41);
    assert Follows(41, 43) && Follows(43, 47) && Follows(47, 53) && Follows(53, 59);
  }

  lemma Gaps2()
    ensures InOrder(PrimeRow(2)) && Follows(89, 97)
  {
    assert Follows(59, 61) && Follows(61, 67) && Follows(67, 71) && Follows(71, 73);
    assert Follows(73, 79) && Follows(79, 83) && Follows(83, 89) && Follows(89, 97);
  }

  lemma Gaps3()
    ensures InOrder(PrimeRow(3)) && Follows(131, 137)
  {
    assert Follows(97, 101) && Follows(101, 103) && Follows(103, 107) && Follows(107, 109);
    assert Follows(109, 113) && Follows(113, 127) && Follows(127, 131) && Follows(131, 137);
  }

  lemma Gaps4()
    ensures InOrder(PrimeRow(4)) && Follows(173, 179)
  {
    assert Follows(137, 139) && Follows(139, 149) && Follows(149, 151) && Follows(151, 157);
    assert Follows(157, 163) && Follows(163, 167) && Follows(167, 173) && Follows(173, 179);
  }

  lemma Gaps5()
    ensures InOrder(PrimeRow(5)) && Follows(223, 227)
  {
    assert Follows(179, 181) && Follows(181, 191) && Follows(191, 193) && Follows(193, 197);
    assert Follows(197, 199) && Follows(199, 211) && Follows(211, 223) && Follows(223, 227);
  }

  lemma Gaps6()
    ensures InOrder(PrimeRow(6)) && Follows(263, 269)
  {
    assert Follows(227, 229) && Follows(229, 233) && Follows(233, 239) && Follows(239, 241);
    assert Follows(241, 251) && Follows(251, 257) && Follows(257, 263) && Follows(263, 269);
  }

  lemma Gaps7()
    ensures InOrder(PrimeRow(7))
  {
    assert Follows(269, 271) && Follows(271, 277) && Follows(277, 281) && Follows(281, 283);
    assert Follows(283, 293) && Follows(293, 307) && Follows(307, 311);
  }

  lemma Consecutive(t: nat)
    requires t < 63
    ensures Follows(PrimeAt(t), PrimeAt(t + 1))
  {
    if t % 8 < 7 { WithinRow(t / 8); } else { NextRow(t / 8); }
  }

  lemma WithinRow(r: nat)
    requires r < 8
    ensures InOrder(PrimeRow(r))
  {
    if r == 0 { Gaps0(); } else if r == 1 { Gaps1(); } else if r == 2 { Gaps2(); } else if r == 3 { Gaps3(); }
    else if r == 4 { Gaps4(); } else if r == 5 { Gaps5(); } else if r == 6 { Gaps6(); } else { Gaps7(); }
  }

  lemma NextRow(r: nat)
    requires r < 7
    ensures Follows(PrimeRow(r)[7], PrimeRow(r + 1)[0])
  {
    if r == 0 { Gaps0(); } else if r == 1 { Gaps1(); } else if r == 2 { Gaps2(); } else if r == 3 { Gaps3(); }
    else if r == 4 { Gaps4(); } else if r == 5 { Gaps5(); } else { Gaps6(); }
  }

  /** A number below 19 * 19 that is not prime has a divisor the sieve knows. */
  lemma SiftedIsPrime(n: nat)
    requires n < 361
    ensures IsPrime(n) <==> Sifted(n)
  {
    if n >= 2 && !Sifted(n) {
      var d := Divisor(n);
      assert Factors(d, n / d, n);
    } else if a, b :| Factors(a, b, n) {
      SmallFactor(a, b, n);
    }
  }

  lemma Divisor(n: nat) returns (d: nat)
    requires n >= 2 && !Sifted(n)
    ensures 2 <= d < n && n % d == 0 && n / d >= 2 && d * (n / d) == n
  {
    d := if n % 2 == 0 && n > 2 then 2 else if n % 3 == 0 && n > 3 then 3 else if n % 5 == 0 && n > 5 then 5
         else if n % 7 == 0 && n > 7 then 7 else if n % 11 == 0 && n > 11 then 11
         else if n % 13 == 0 && n > 13 then 13 else 17;
  }

  /** One of two factors is below 19, and then so is one of its prime divisors. */
  lemma SmallFactor(a: nat, b: nat, n: nat)
    requires Factors(a, b, n) && n < 361
    ensures !Sifted(n)
  {
    if a <= 18 {
      Divides(a, b);
    } else {
      assert 19 * b <= a * b;
      Divides(b, a);
    }
  }

  lemma Divides(a: nat, b: nat)
    requires 2 <= a <= 18 && b >= 2
    ensures !Sifted(a * b)
  {
    var d := if a % 2 == 0 then 2 else if a % 3 == 0 then 3 else if a == 5 then 5 else if a == 7 then 7
             else if a == 11 then 11 else if a == 13 then 13 else 17;
    assert a == d * (a / d);
    Multiple(d, a / d, b);
  }

  lemma Multiple(d: nat, q: nat, b: nat)
    requires d in {2, 3, 5, 7, 11, 13, 17} && q >= 1 && b >= 2
    ensures !Sifted(d * q * b)
  {
    var m := q * b;
    assert m >= b && d * q * b == d * m;
    DivModIs(d * m, d, m, 0);
    assert d * m >= d * 2;
  }

  ghost function PrimesBelow(n: nat): set<nat> { set p: nat | p < n && IsPrime(p) }

  /** `PrimeAt(t)` is the prime with `t` primes below it. */
  lemma {:induction false} PrimeIs(t: nat)
    requires t < 64
    ensures PrimeAt(t) < 361 && IsPrime(PrimeAt(t)) && |PrimesBelow(PrimeAt(t))| == t
    decreases t
  {
    Bounded(t);
    if t == 0 {
      SiftedIsPrime(2);
      assert PrimesBelow(2) == {};
    } else {
      var p, q := PrimeAt(t - 1), PrimeAt(t);
      PrimeIs(t - 1);
      Consecutive(t - 1);
      NextPrime(p, q);
    }
  }

  lemma Bounded(t: nat)
    requires t < 64
    ensures PrimeAt(t) < 361
  {
  }

  lemma NextPrime(p: nat, q: nat)
    requires Follows(p, q) && q < 361
    ensures IsPrime(q) && PrimesBelow(q) == PrimesBelow(p) + {p} && |PrimesBelow(q)| == |PrimesBelow(p)| + 1
  {
    forall n: nat | n <= q
      ensures IsPrime(n) <==> Sifted(n)
    {
      SiftedIsPrime(n);
    }
    forall n: nat | p < n < q
      ensures !Sifted(n)
    {
      NoneIn(p + 1, q, n);
    }
    assert PrimesBelow(q) == PrimesBelow(p) + {p};
  }

  // ---------- Roots ----------

  /** The whole part of the cube root of a number below 343. */
  function CubeRoot(p: nat): nat {
    if p < 1 then 0 else if p < 8 then 1 else if p < 27 then 2 else if p < 64 then 3
    else if p < 125 then 4 else if p < 216 then 5 else 6
  }

  function Cube(x: nat): nat { x * x * x }

  lemma CubeRootIs(p: nat)
    requires p < 343
    ensures Cube(CubeRoot(p)) <= p < Cube(CubeRoot(p) + 1)
  {
  }

  /** `k` is the first 32 bits of the fraction of the cube root of `p`. */
  predicate CubeFraction(p: nat, k: nat) {
    var x := CubeRoot(p) * 0x1_0000_0000 + k;
    Cube(x) <= p * 0x1_0000_0000_0000_0000_0000_0000 < Cube(x + 1)
  }

  predicate IsRow(p: seq<nat>, k: seq<nat>)
    requires |p| == |k| == 8
  {
    forall i :: 0 <= i < 8 ==> CubeFraction(p[i], k[i])
  }

  lemma Row0()
    ensures IsRow(PrimeRow(0), RoundConstants(0))
  {
    assert CubeFraction(2, 0x428a2f98) && CubeFraction(3, 0x71374491) && CubeFraction(5, 0xb5c0fbcf);
    assert CubeFraction(7, 0xe9b5dba5) && CubeFraction(11, 0x3956c25b) && CubeFraction(13, 0x59f111f1);
    assert CubeFraction(17, 0x923f82a4) && CubeFraction(19, 0xab1c5ed5);
  }

  lemma Row1()
    ensures IsRow(PrimeRow(1), RoundConstants(1))
  {
    assert CubeFraction(23, 0xd807aa98) && CubeFraction(29, 0x12835b01) && CubeFraction(31, 0x243185be);
    assert CubeFraction(37, 0x550c7dc3) && CubeFraction(41, 0x72be5d74) && CubeFraction(43, 0x80deb1fe);
    assert CubeFraction(47, 0x9bdc06a7) && CubeFraction(53, 0xc19bf174);
  }

  lemma Row2()
    ensures IsRow(PrimeRow(2), RoundConstants(2))
  {
    assert CubeFraction(59, 0xe49b69c1) && CubeFraction(61, 0xefbe4786) && CubeFraction(67, 0x0fc19dc6);
    assert CubeFraction(71, 0x240ca1cc) && CubeFraction(73, 0x2de92c6f) && CubeFraction(79, 0x4a7484aa);
    assert CubeFraction(83, 0x5cb0a9dc) && CubeFraction(89, 0x76f988da);
  }

  lemma Row3()
    ensures IsRow(PrimeRow(3), RoundConstants(3))
  {
    assert CubeFraction(97, 0x983e5152) && CubeFraction(101, 0xa831c66d) && CubeFraction(103, 0xb00327c8);
    assert CubeFraction(107, 0xbf597fc7) && CubeFraction(109, 0xc6e00bf3) && CubeFraction(113, 0xd5a79147);
    assert CubeFraction(127, 0x06ca6351) && CubeFraction(131, 0x14292967);
  }

  lemma Row4()
    ensures IsRow(PrimeRow(4), RoundConstants(4))
  {
    assert CubeFraction(137, 0x27b70a85) && CubeFraction(139, 0x2e1b2138) && CubeFraction(149, 0x4d2c6dfc);
    assert CubeFraction(151, 0x53380d13) && CubeFraction(157, 0x650a7354) && CubeFraction(163, 0x766a0abb);
    assert CubeFraction(167, 0x81c2c92e) && CubeFraction(173, 0x92722c85);
  }

  lemma Row5()
    ensures IsRow(PrimeRow(5), RoundConstants(5))
  {
    assert CubeFraction(179, 0xa2bfe8a1) && CubeFraction(181, 0xa81a664b) && CubeFraction(191, 0xc24b8b70);
    assert CubeFraction(193, 0xc76c51a3) && CubeFraction(197, 0xd192e819) && CubeFraction(199, 0xd6990624);
    assert CubeFraction(211, 0xf40e3585) && CubeFraction(223, 0x106aa070);
  }

  lemma Row6()
    ensures IsRow(PrimeRow(6), RoundConstants(6))
  {
    assert CubeFraction(227, 0x19a4c116) && CubeFraction(229, 0x1e376c08) && CubeFraction(233, 0x2748774c);
    assert CubeFraction(239, 0x34b0bcb5) && CubeFraction(241, 0x391c0cb3) && CubeFraction(251, 0x4ed8aa4a);
    assert CubeFraction(257, 0x5b9cca4f) && CubeFraction(263, 0x682e6ff3);
  }

  lemma Row7()
    ensures IsRow(PrimeRow(7), RoundConstants(7))
  {
    assert CubeFraction(269, 0x748f82ee) && CubeFraction(271, 0x78a5636f) && CubeFraction(277, 0x84c87814);
    assert CubeFraction(281, 0x8cc70208) && CubeFraction(283, 0x90befffa) && CubeFraction(293, 0xa4506ceb);
    assert CubeFraction(307, 0xbef9a3f7) && CubeFraction(311, 0xc67178f2);
  }

  /** `k` is the fraction of the cube root of the prime that has `t` primes below it. */
  ghost predicate FromCubeRoot(p: nat, k: nat, t: nat) {
    && IsPrime(p) && |PrimesBelow(p)| == t
    && Cube(CubeRoot(p)) <= p < Cube(CubeRoot(p) + 1) && CubeFraction(p, k)
  }

  /** The round constants, by their definition. */
  lemma RoundConstantsExact(t: nat)
    requires t < 64
    ensures FromCubeRoot(PrimeAt(t), ToNat(K(t)), t)
  {
    PrimeIs(t);
    CubeRootIs(PrimeAt(t));
    AllRows(t / 8);
    ConstantIs(RoundConstants(t / 8)[t % 8], t);
  }

  lemma AllRows(r: nat)
    requires r < 8
    ensures IsRow(PrimeRow(r), RoundConstants(r))
  {
    if r == 0 { Row0(); } else if r == 1 { Row1(); } else if r == 2 { Row2(); } else if r == 3 { Row3(); }
    else if r == 4 { Row4(); } else if r == 5 { Row5(); } else if r == 6 { Row6(); } else { Row7(); }
  }

  // ---------- The initial hash value ----------

  function Square(x: nat): nat { x * x }

  /** The whole part of the square root of a number below 25. */
  function SquareRoot(p: nat): nat {
    if p < 1 then 0 else if p < 4 then 1 else if p < 9 then 2 else if p < 16 then 3 else 4
  }

  lemma SquareRootIs(p: nat)
    requires p < 25
    ensures Square(SquareRoot(p)) <= p < Square(SquareRoot(p) + 1)
  {
  }

  /** `k` is the first 32 bits of the fraction of the square root of `p`. */
  predicate SquareFraction(p: nat, k: nat) {
    var x := SquareRoot(p) * 0x1_0000_0000 + k;
    Square(x) <= p * 0x1_0000_0000_0000_0000 < Square(x + 1)
  }

  lemma InitialRow()
    ensures forall i :: 0 <= i < 8 ==> SquareFraction(PrimeRow(0)[i], InitialConstants()[i])
  {
    assert SquareFraction(2, 0x6a09e667) && SquareFraction(3, 0xbb67ae85) && SquareFraction(5, 0x3c6ef372);
    assert SquareFraction(7, 0xa54ff53a) && SquareFraction(11, 0x510e527f) && SquareFraction(13, 0x9b05688c);
    assert SquareFraction(17, 0x1f83d9ab) && SquareFraction(19, 0x5be0cd19);
  }

  /** `k` is the fraction of the square root of the prime that has `i` primes below it. */
  ghost predicate FromSquareRoot(p: nat, k: nat, i: nat) {
    && IsPrime(p) && |PrimesBelow(p)| == i
    && Square(SquareRoot(p)) <= p < Square(SquareRoot(p) + 1) && SquareFraction(p, k)
  }

  lemma InitialAt(i: nat)
    requires i < 8
    ensures FromSquareRoot(PrimeAt(i), InitialConstants()[i], i)
  {
    PrimeIs(i);
    InitialRow();
    assert PrimeAt(i) == PrimeRow(0)[i] && PrimeRow(0)[i] < 25;
    SquareRootIs(PrimeAt(i));
  }

  /** The initial hash value, by its definition. */
  lemma InitialHashExact(i: nat)
    requires i < 8
    ensures FromSquareRoot(PrimeAt(i), ToNat(Register(InitialHash(), i)), i)
  {
    InitialAt(i);
    InitialWord(i);
  }

  lemma InitialWord(i: nat)
    requires i < 8
    ensures ToNat(Register(InitialHash(), i)) == InitialConstants()[i]
  {
    InitialRegister(InitialHash(), i);
    InitialNumber(i);
  }

  lemma InitialRegister(h: Regs, i: nat)
    requires i < 8 && h == InitialHash()
    ensures Register(h, i) == H0(i)
  {
    assert h.a == H0(0) && h.b == H0(1) && h.c == H0(2) && h.d == H0(3);
    assert h.e == H0(4) && h.f == H0(5) && h.g == H0(6) && h.h == H0(7);
  }

  lemma InitialNumber(i: nat)
    requires i < 8
    ensures ToNat(H0(i)) == InitialConstants()[i]
  {
    WordOfIs(InitialConstants()[i]);
  }
}
