/**
 Where the constants of SHA-256 come from (FIPS 180-4, sections 4.2.2 and 5.3.3), the fractional parts of
 cube and square roots of the first primes, and what its six functions do to each bit.
 */
module Sha256Constants {
  import opened Division
  import opened Sha256
  import opened Words

  // ----- the first sixty-four primes -----

  ghost predicate IsPrime(n: nat) {
    n >= 2 && forall d | 2 <= d < n :: n % d != 0
  }

  /** Not divisible by a prime up to 17, unless it is that prime. */
  predicate Sifted(n: nat) {
    && n >= 2
    && (n % 2 != 0 || n == 2) && (n % 3 != 0 || n == 3) && (n % 5 != 0 || n == 5) && (n % 7 != 0 || n == 7)
    && (n % 11 != 0 || n == 11) && (n % 13 != 0 || n == 13) && (n % 17 != 0 || n == 17)
  }

  /** A divisor up to 18 has a prime factor up to 17. */
  lemma SmallDivisor(n: nat, d: nat)
    requires 2 <= d <= 18 && d < n && n % d == 0
    ensures !Sifted(n)
  {
    var p := SmallPrime(d);
    Factor(n, d, p, d / p);
  }

  lemma SmallPrime(d: nat) returns (p: nat)
    requires 2 <= d <= 18
    ensures p in {2, 3, 5, 7, 11, 13, 17} && p <= d && d == p * (d / p)
  {
    p := if d % 2 == 0 then 2 else if d % 3 == 0 then 3 else if d % 5 == 0 then 5 else d;
  }

  /** With a divisor goes the quotient, and one of them is small. */
  lemma Cofactor(n: nat, d: nat) returns (q: nat)
    requires 19 <= d < n < 361 && n % d == 0
    ensures 2 <= q <= 18 && q < n && n % q == 0
  {
    q := n / d;
    assert n == q * d;
    if q >= 19 { Grows(q, d); }
    if q > 0 { Multiple(d, q); }
  }

  lemma Grows(q: nat, d: nat)
    requires q >= 19 && d >= 19
    ensures q * d >= 361
  {
    assert (q - 19) * (d - 19) >= 0;
  }

  lemma SiftedIsPrime(n: nat)
    requires n < 361
    ensures Sifted(n) <==> IsPrime(n)
  {
    if Sifted(n) {
      forall d | 2 <= d < n
        ensures n % d != 0
      {
        if n % d == 0 {
          if d <= 18 {
            SmallDivisor(n, d);
          } else {
            var q := Cofactor(n, d);
            SmallDivisor(n, q);
          }
        }
      }
    }
  }

  /** No number from `lo` up to `hi` passes the sieve. */
  predicate Quiet(lo: nat, hi: nat)
    decreases hi - lo
  {
    lo >= hi || (!Sifted(lo) && Quiet(lo + 1, hi))
  }

  lemma {:induction false} QuietAt(lo: nat, hi: nat, n: nat)
    requires Quiet(lo, hi) && lo <= n < hi
    ensures !Sifted(n)
    decreases hi - lo
  {
    if n > lo { QuietAt(lo + 1, hi, n); }
  }

  predicate Next(p: nat, q: nat) {
    p < q < 361 && Sifted(q) && Quiet(p + 1, q)
  }

  ghost function Below(p: nat): set<nat> {
    set n: nat | n < p && IsPrime(n)
  }

  /** The prime with `t` primes below it. */
  ghost predicate NthPrime(p: nat, t: nat) {
    IsPrime(p) && |Below(p)| == t
  }

  lemma NextNth(p: nat, q: nat, t: nat)
    requires NthPrime(p, t) && Next(p, q)
    ensures NthPrime(q, t + 1)
  {
    SiftedIsPrime(q);
    forall n: nat | p < n < q
      ensures !IsPrime(n)
    {
      QuietAt(p + 1, q, n);
      SiftedIsPrime(n);
    }
    assert Below(q) == Below(p) + {p};
  }

  lemma First()
    ensures NthPrime(2, 0)
  {
    assert Below(2) == {};
  }

  // ----- roots -----

  const SPAN: nat := 0x1_0000_0000

  /** `k` is the first thirty-two bits after the point of the cube root of `p`. */
  ghost predicate CubeRoot(p: nat, k: word) {
    exists n: nat ::
      n * n * n <= p * 0x1_00000000_00000000_00000000 < (n + 1) * (n + 1) * (n + 1) && k as int == n % SPAN
  }

  ghost predicate SquareRoot(p: nat, k: word) {
    exists n: nat :: n * n <= p * 0x1_00000000_00000000 < (n + 1) * (n + 1) && k as int == n % SPAN
  }

  lemma Square(p: nat, k: word, n: nat)
    requires n * n <= p * 0x1_00000000_00000000 < (n + 1) * (n + 1) && k as int == n % SPAN
    ensures SquareRoot(p, k)
  {
  }

  lemma Cube(p: nat, k: word, n: nat)
    requires n * n * n <= p * 0x1_00000000_00000000_00000000 < (n + 1) * (n + 1) * (n + 1) && k as int == n % SPAN
    ensures CubeRoot(p, k)
  {
  }

  // ----- eight primes and eight constants at a time -----

  lemma Primes0()
    ensures Next(2, 3) && Next(3, 5) && Next(5, 7) && Next(7, 11)
    ensures Next(11, 13) && Next(13, 17) && Next(17, 19) && Next(19, 23)
  {
  }

  lemma Count0(t: nat)
    requires t == 0 && NthPrime(2, t)
    ensures NthPrime(3, t + 1) && NthPrime(5, t + 2) && NthPrime(7, t + 3) && NthPrime(11, t + 4)
    ensures NthPrime(13, t + 5) && NthPrime(17, t + 6) && NthPrime(19, t + 7) && NthPrime(23, t + 8)
  {
    Primes0();
    NextNth(2, 3, t + 0);
    NextNth(3, 5, t + 1);
    NextNth(5, 7, t + 2);
    NextNth(7, 11, t + 3);
    NextNth(11, 13, t + 4);
    NextNth(13, 17, t + 5);
    NextNth(17, 19, t + 6);
    NextNth(19, 23, t + 7);
  }

  lemma Cubes0()
    ensures CubeRoot(2, 0x428a2f98)
    ensures CubeRoot(3, 0x71374491)
    ensures CubeRoot(5, 0xb5c0fbcf)
    ensures CubeRoot(7, 0xe9b5dba5)
    ensures CubeRoot(11, 0x3956c25b)
    ensures CubeRoot(13, 0x59f111f1)
    ensures CubeRoot(17, 0x923f82a4)
    ensures CubeRoot(19, 0xab1c5ed5)
  {
    Cube(2, 0x428a2f98, 0x1428a2f98);
    Cube(3, 0x71374491, 0x171374491);
    Cube(5, 0xb5c0fbcf, 0x1b5c0fbcf);
    Cube(7, 0xe9b5dba5, 0x1e9b5dba5);
    Cube(11, 0x3956c25b, 0x23956c25b);
    Cube(13, 0x59f111f1, 0x259f111f1);
    Cube(17, 0x923f82a4, 0x2923f82a4);
    Cube(19, 0xab1c5ed5, 0x2ab1c5ed5);
  }

  lemma Constants0(i: nat) returns (p: nat)
    requires i < 8 && NthPrime(2, 0)
    ensures NthPrime(p, 0 + i) && CubeRoot(p, Constant(0 + i))
  {
    p := [2, 3, 5, 7, 11, 13, 17, 19][i];
    Count0(0);
    Cubes0();
    assert Constant(0 + i) == Row(0)[i];
  }

  lemma Primes1()
    ensures Next(23, 29) && Next(29, 31) && Next(31, 37) && Next(37, 41)
    ensures Next(41, 43) && Next(43, 47) && Next(47, 53) && Next(53, 59)
  {
  }

  lemma Count1(t: nat)
    requires t == 8 && NthPrime(23, t)
    ensures NthPrime(29, t + 1) && NthPrime(31, t + 2) && NthPrime(37, t + 3) && NthPrime(41, t + 4)
    ensures NthPrime(43, t + 5) && NthPrime(47, t + 6) && NthPrime(53, t + 7) && NthPrime(59, t + 8)
  {
    Primes1();
    NextNth(23, 29, t + 0);
    NextNth(29, 31, t + 1);
    NextNth(31, 37, t + 2);
    NextNth(37, 41, t + 3);
    NextNth(41, 43, t + 4);
    NextNth(43, 47, t + 5);
    NextNth(47, 53, t + 6);
    NextNth(53, 59, t + 7);
  }

  lemma Cubes1()
    ensures CubeRoot(23, 0xd807aa98)
    ensures CubeRoot(29, 0x12835b01)
    ensures CubeRoot(31, 0x243185be)
    ensures CubeRoot(37, 0x550c7dc3)
    ensures CubeRoot(41, 0x72be5d74)
    ensures CubeRoot(43, 0x80deb1fe)
    ensures CubeRoot(47, 0x9bdc06a7)
    ensures CubeRoot(53, 0xc19bf174)
  {
    Cube(23, 0xd807aa98, 0x2d807aa98);
    Cube(29, 0x12835b01, 0x312835b01);
    Cube(31, 0x243185be, 0x3243185be);
    Cube(37, 0x550c7dc3, 0x3550c7dc3);
    Cube(41, 0x72be5d74, 0x372be5d74);
    Cube(43, 0x80deb1fe, 0x380deb1fe);
    Cube(47, 0x9bdc06a7, 0x39bdc06a7);
    Cube(53, 0xc19bf174, 0x3c19bf174);
  }

  lemma Constants1(i: nat) returns (p: nat)
    requires i < 8 && NthPrime(23, 8)
    ensures NthPrime(p, 8 + i) && CubeRoot(p, Constant(8 + i))
  {
    p := [23, 29, 31, 37, 41, 43, 47, 53][i];
    Count1(8);
    Cubes1();
    assert Constant(8 + i) == Row(1)[i];
  }

  lemma Primes2()
    ensures Next(59, 61) && Next(61, 67) && Next(67, 71) && Next(71, 73)
    ensures Next(73, 79) && Next(79, 83) && Next(83, 89) && Next(89, 97)
  {
  }

  lemma Count2(t: nat)
    requires t == 16 && NthPrime(59, t)
    ensures NthPrime(61, t + 1) && NthPrime(67, t + 2) && NthPrime(71, t + 3) && NthPrime(73, t + 4)
    ensures NthPrime(79, t + 5) && NthPrime(83, t + 6) && NthPrime(89, t + 7) && NthPrime(97, t + 8)
  {
    Primes2();
    NextNth(59, 61, t + 0);
    NextNth(61, 67, t + 1);
    NextNth(67, 71, t + 2);
    NextNth(71, 73, t + 3);
    NextNth(73, 79, t + 4);
    NextNth(79, 83, t + 5);
    NextNth(83, 89, t + 6);
    NextNth(89, 97, t + 7);
  }

  lemma Cubes2()
    ensures CubeRoot(59, 0xe49b69c1)
    ensures CubeRoot(61, 0xefbe4786)
    ensures CubeRoot(67, 0x0fc19dc6)
    ensures CubeRoot(71, 0x240ca1cc)
    ensures CubeRoot(73, 0x2de92c6f)
    ensures CubeRoot(79, 0x4a7484aa)
    ensures CubeRoot(83, 0x5cb0a9dc)
    ensures CubeRoot(89, 0x76f988da)
  {
    Cube(59, 0xe49b69c1, 0x3e49b69c1);
    Cube(61, 0xefbe4786, 0x3efbe4786);
    Cube(67, 0x0fc19dc6, 0x40fc19dc6);
    Cube(71, 0x240ca1cc, 0x4240ca1cc);
    Cube(73, 0x2de92c6f, 0x42de92c6f);
    Cube(79, 0x4a7484aa, 0x44a7484aa);
    Cube(83, 0x5cb0a9dc, 0x45cb0a9dc);
    Cube(89, 0x76f988da, 0x476f988da);
  }

  lemma Constants2(i: nat) returns (p: nat)
    requires i < 8 && NthPrime(59, 16)
    ensures NthPrime(p, 16 + i) && CubeRoot(p, Constant(16 + i))
  {
    p := [59, 61, 67, 71, 73, 79, 83, 89][i];
    Count2(16);
    Cubes2();
    assert Constant(16 + i) == Row(2)[i];
  }

  lemma Primes3()
    ensures Next(97, 101) && Next(101, 103) && Next(103, 107) && Next(107, 109)
    ensures Next(109, 113) && Next(113, 127) && Next(127, 131) && Next(131, 137)
  {
  }

  lemma Count3(t: nat)
    requires t == 24 && NthPrime(97, t)
    ensures NthPrime(101, t + 1) && NthPrime(103, t + 2) && NthPrime(107, t + 3) && NthPrime(109, t + 4)
    ensures NthPrime(113, t + 5) && NthPrime(127, t + 6) && NthPrime(131, t + 7) && NthPrime(137, t + 8)
  {
    Primes3();
    NextNth(97, 101, t + 0);
    NextNth(101, 103, t + 1);
    NextNth(103, 107, t + 2);
    NextNth(107, 109, t + 3);
    NextNth(109, 113, t + 4);
    NextNth(113, 127, t + 5);
    NextNth(127, 131, t + 6);
    NextNth(131, 137, t + 7);
  }

  lemma Cubes3()
    ensures CubeRoot(97, 0x983e5152)
    ensures CubeRoot(101, 0xa831c66d)
    ensures CubeRoot(103, 0xb00327c8)
    ensures CubeRoot(107, 0xbf597fc7)
    ensures CubeRoot(109, 0xc6e00bf3)
    ensures CubeRoot(113, 0xd5a79147)
    ensures CubeRoot(127, 0x06ca6351)
    ensures CubeRoot(131, 0x14292967)
  {
    Cube(97, 0x983e5152, 0x4983e5152);
    Cube(101, 0xa831c66d, 0x4a831c66d);
    Cube(103, 0xb00327c8, 0x4b00327c8);
    Cube(107, 0xbf597fc7, 0x4bf597fc7);
    Cube(109, 0xc6e00bf3, 0x4c6e00bf3);
    Cube(113, 0xd5a79147, 0x4d5a79147);
    Cube(127, 0x06ca6351, 0x506ca6351);
    Cube(131, 0x14292967, 0x514292967);
  }

  lemma Constants3(i: nat) returns (p: nat)
    requires i < 8 && NthPrime(97, 24)
    ensures NthPrime(p, 24 + i) && CubeRoot(p, Constant(24 + i))
  {
    p := [97, 101, 103, 107, 109, 113, 127, 131][i];
    Count3(24);
    Cubes3();
    assert Constant(24 + i) == Row(3)[i];
  }

  lemma Primes4()
    ensures Next(137, 139) && Next(139, 149) && Next(149, 151) && Next(151, 157)
    ensures Next(157, 163) && Next(163, 167) && Next(167, 173) && Next(173, 179)
  {
  }

  lemma Count4(t: nat)
    requires t == 32 && NthPrime(137, t)
    ensures NthPrime(139, t + 1) && NthPrime(149, t + 2) && NthPrime(151, t + 3) && NthPrime(157, t + 4)
    ensures NthPrime(163, t + 5) && NthPrime(167, t + 6) && NthPrime(173, t + 7) && NthPrime(179, t + 8)
  {
    Primes4();
    NextNth(137, 139, t + 0);
    NextNth(139, 149, t + 1);
    NextNth(149, 151, t + 2);
    NextNth(151, 157, t + 3);
    NextNth(157, 163, t + 4);
    NextNth(163, 167, t + 5);
    NextNth(167, 173, t + 6);
    NextNth(173, 179, t + 7);
  }

  lemma Cubes4()
    ensures CubeRoot(137, 0x27b70a85)
    ensures CubeRoot(139, 0x2e1b2138)
    ensures CubeRoot(149, 0x4d2c6dfc)
    ensures CubeRoot(151, 0x53380d13)
    ensures CubeRoot(157, 0x650a7354)
    ensures CubeRoot(163, 0x766a0abb)
    ensures CubeRoot(167, 0x81c2c92e)
    ensures CubeRoot(173, 0x92722c85)
  {
    Cube(137, 0x27b70a85, 0x527b70a85);
    Cube(139, 0x2e1b2138, 0x52e1b2138);
    Cube(149, 0x4d2c6dfc, 0x54d2c6dfc);
    Cube(151, 0x53380d13, 0x553380d13);
    Cube(157, 0x650a7354, 0x5650a7354);
    Cube(163, 0x766a0abb, 0x5766a0abb);
    Cube(167, 0x81c2c92e, 0x581c2c92e);
    Cube(173, 0x92722c85, 0x592722c85);
  }

  lemma Constants4(i: nat) returns (p: nat)
    requires i < 8 && NthPrime(137, 32)
    ensures NthPrime(p, 32 + i) && CubeRoot(p, Constant(32 + i))
  {
    p := [137, 139, 149, 151, 157, 163, 167, 173][i];
    Count4(32);
    Cubes4();
    assert Constant(32 + i) == Row(4)[i];
  }

  lemma Primes5()
    ensures Next(179, 181) && Next(181, 191) && Next(191, 193) && Next(193, 197)
    ensures Next(197, 199) && Next(199, 211) && Next(211, 223) && Next(223, 227)
  {
  }

  lemma Count5(t: nat)
    requires t == 40 && NthPrime(179, t)
    ensures NthPrime(181, t + 1) && NthPrime(191, t + 2) && NthPrime(193, t + 3) && NthPrime(197, t + 4)
    ensures NthPrime(199, t + 5) && NthPrime(211, t + 6) && NthPrime(223, t + 7) && NthPrime(227, t + 8)
  {
    Primes5();
    NextNth(179, 181, t + 0);
    NextNth(181, 191, t + 1);
    NextNth(191, 193, t + 2);
    NextNth(193, 197, t + 3);
    NextNth(197, 199, t + 4);
    NextNth(199, 211, t + 5);
    NextNth(211, 223, t + 6);
    NextNth(223, 227, t + 7);
  }

  lemma Cubes5()
    ensures CubeRoot(179, 0xa2bfe8a1)
    ensures CubeRoot(181, 0xa81a664b)
    ensures CubeRoot(191, 0xc24b8b70)
    ensures CubeRoot(193, 0xc76c51a3)
    ensures CubeRoot(197, 0xd192e819)
    ensures CubeRoot(199, 0xd6990624)
    ensures CubeRoot(211, 0xf40e3585)
    ensures CubeRoot(223, 0x106aa070)
  {
    Cube(179, 0xa2bfe8a1, 0x5a2bfe8a1);
    Cube(181, 0xa81a664b, 0x5a81a664b);
    Cube(191, 0xc24b8b70, 0x5c24b8b70);
    Cube(193, 0xc76c51a3, 0x5c76c51a3);
    Cube(197, 0xd192e819, 0x5d192e819);
    Cube(199, 0xd6990624, 0x5d6990624);
    Cube(211, 0xf40e3585, 0x5f40e3585);
    Cube(223, 0x106aa070, 0x6106aa070);
  }

  lemma Constants5(i: nat) returns (p: nat)
    requires i < 8 && NthPrime(179, 40)
    ensures NthPrime(p, 40 + i) && CubeRoot(p, Constant(40 + i))
  {
    p := [179, 181, 191, 193, 197, 199, 211, 223][i];
    Count5(40);
    Cubes5();
    assert Constant(40 + i) == Row(5)[i];
  }

  lemma Primes6()
    ensures Next(227, 229) && Next(229, 233) && Next(233, 239) && Next(239, 241)
    ensures Next(241, 251) && Next(251, 257) && Next(257, 263) && Next(263, 269)
  {
  }

  lemma Count6(t: nat)
    requires t == 48 && NthPrime(227, t)
    ensures NthPrime(229, t + 1) && NthPrime(233, t + 2) && NthPrime(239, t + 3) && NthPrime(241, t + 4)
    ensures NthPrime(251, t + 5) && NthPrime(257, t + 6) && NthPrime(263, t + 7) && NthPrime(269, t + 8)
  {
    Primes6();
    NextNth(227, 229, t + 0);
    NextNth(229, 233, t + 1);
    NextNth(233, 239, t + 2);
    NextNth(239, 241, t + 3);
    NextNth(241, 251, t + 4);
    NextNth(251, 257, t + 5);
    NextNth(257, 263, t + 6);
    NextNth(263, 269, t + 7);
  }

  lemma Cubes6()
    ensures CubeRoot(227, 0x19a4c116)
    ensures CubeRoot(229, 0x1e376c08)
    ensures CubeRoot(233, 0x2748774c)
    ensures CubeRoot(239, 0x34b0bcb5)
    ensures CubeRoot(241, 0x391c0cb3)
    ensures CubeRoot(251, 0x4ed8aa4a)
    ensures CubeRoot(257, 0x5b9cca4f)
    ensures CubeRoot(263, 0x682e6ff3)
  {
    Cube(227, 0x19a4c116, 0x619a4c116);
    Cube(229, 0x1e376c08, 0x61e376c08);
    Cube(233, 0x2748774c, 0x62748774c);
    Cube(239, 0x34b0bcb5, 0x634b0bcb5);
    Cube(241, 0x391c0cb3, 0x6391c0cb3);
    Cube(251, 0x4ed8aa4a, 0x64ed8aa4a);
    Cube(257, 0x5b9cca4f, 0x65b9cca4f);
    Cube(263, 0x682e6ff3, 0x6682e6ff3);
  }

  lemma Constants6(i: nat) returns (p: nat)
    requires i < 8 && NthPrime(227, 48)
    ensures NthPrime(p, 48 + i) && CubeRoot(p, Constant(48 + i))
  {
    p := [227, 229, 233, 239, 241, 251, 257, 263][i];
    Count6(48);
    Cubes6();
    assert Constant(48 + i) == Row(6)[i];
  }

  lemma Primes7()
    ensures Next(269, 271) && Next(271, 277) && Next(277, 281) && Next(281, 283)
    ensures Next(283, 293) && Next(293, 307) && Next(307, 311) && Next(311, 313)
  {
  }

  lemma Count7(t: nat)
    requires t == 56 && NthPrime(269, t)
    ensures NthPrime(271, t + 1) && NthPrime(277, t + 2) && NthPrime(281, t + 3) && NthPrime(283, t + 4)
    ensures NthPrime(293, t + 5) && NthPrime(307, t + 6) && NthPrime(311, t + 7) && NthPrime(313, t + 8)
  {
    Primes7();
    NextNth(269, 271, t + 0);
    NextNth(271, 277, t + 1);
    NextNth(277, 281, t + 2);
    NextNth(281, 283, t + 3);
    NextNth(283, 293, t + 4);
    NextNth(293, 307, t + 5);
    NextNth(307, 311, t + 6);
    NextNth(311, 313, t + 7);
  }

  lemma Cubes7()
    ensures CubeRoot(269, 0x748f82ee)
    ensures CubeRoot(271, 0x78a5636f)
    ensures CubeRoot(277, 0x84c87814)
    ensures CubeRoot(281, 0x8cc70208)
    ensures CubeRoot(283, 0x90befffa)
    ensures CubeRoot(293, 0xa4506ceb)
    ensures CubeRoot(307, 0xbef9a3f7)
    ensures CubeRoot(311, 0xc67178f2)
  {
    Cube(269, 0x748f82ee, 0x6748f82ee);
    Cube(271, 0x78a5636f, 0x678a5636f);
    Cube(277, 0x84c87814, 0x684c87814);
    Cube(281, 0x8cc70208, 0x68cc70208);
    Cube(283, 0x90befffa, 0x690befffa);
    Cube(293, 0xa4506ceb, 0x6a4506ceb);
    Cube(307, 0xbef9a3f7, 0x6bef9a3f7);
    Cube(311, 0xc67178f2, 0x6c67178f2);
  }

  lemma Constants7(i: nat) returns (p: nat)
    requires i < 8 && NthPrime(269, 56)
    ensures NthPrime(p, 56 + i) && CubeRoot(p, Constant(56 + i))
  {
    p := [269, 271, 277, 281, 283, 293, 307, 311][i];
    Count7(56);
    Cubes7();
    assert Constant(56 + i) == Row(7)[i];
  }

  lemma Starts()
    ensures NthPrime(2, 0) && NthPrime(23, 8) && NthPrime(59, 16) && NthPrime(97, 24)
    ensures NthPrime(137, 32) && NthPrime(179, 40) && NthPrime(227, 48) && NthPrime(269, 56)
  {
    First();
    Count0(0);
    Count1(8);
    Count2(16);
    Count3(24);
    Count4(32);
    Count5(40);
    Count6(48);
  }

  /** Constant `t` is the beginning of the fraction of the cube root of the prime with `t` primes below it. */
  lemma ConstantIsCubeRoot(t: nat) returns (p: nat)
    requires t < 64
    ensures NthPrime(p, t) && CubeRoot(p, Constant(t))
  {
    Starts();
    var i := t % 8;
    match t / 8
    case 0 => p := Constants0(i);
    case 1 => p := Constants1(i);
    case 2 => p := Constants2(i);
    case 3 => p := Constants3(i);
    case 4 => p := Constants4(i);
    case 5 => p := Constants5(i);
    case 6 => p := Constants6(i);
    case _ => p := Constants7(i);
  }

  lemma Squares()
    ensures SquareRoot(2, 0x6a09e667)
    ensures SquareRoot(3, 0xbb67ae85)
    ensures SquareRoot(5, 0x3c6ef372)
    ensures SquareRoot(7, 0xa54ff53a)
    ensures SquareRoot(11, 0x510e527f)
    ensures SquareRoot(13, 0x9b05688c)
    ensures SquareRoot(17, 0x1f83d9ab)
    ensures SquareRoot(19, 0x5be0cd19)
  {
    Square(2, 0x6a09e667, 0x16a09e667);
    Square(3, 0xbb67ae85, 0x1bb67ae85);
    Square(5, 0x3c6ef372, 0x23c6ef372);
    Square(7, 0xa54ff53a, 0x2a54ff53a);
    Square(11, 0x510e527f, 0x3510e527f);
    Square(13, 0x9b05688c, 0x39b05688c);
    Square(17, 0x1f83d9ab, 0x41f83d9ab);
    Square(19, 0x5be0cd19, 0x45be0cd19);
  }

  /** And word `t` of the initial hash value, of that prime's square root. */
  lemma InitialIsSquareRoot(t: nat) returns (p: nat)
    requires t < 8
    ensures NthPrime(p, t) && SquareRoot(p, INITIAL[t])
  {
    p := [2, 3, 5, 7, 11, 13, 17, 19][t];
    First();
    Count0(0);
    Squares();
  }

  // ----- the six functions, bit by bit -----

  /** Bit `i` of a word, bit 0 the lowest. Places are counted around thirty-two. */
  function Bit(w: word, i: bv5): word {
    (w >> i) & 1
  }

  lemma BitIsBit(w: word, i: bv5)
    ensures Bit(w, i) == 0 || Bit(w, i) == 1
  {
  }

  lemma XorBit(v: word, w: word, i: bv5)
    ensures Bit(v ^ w, i) == Bit(v, i) ^ Bit(w, i)
  {
  }

  lemma AndBit(v: word, w: word, i: bv5)
    ensures Bit(v & w, i) == Bit(v, i) & Bit(w, i)
  {
  }

  lemma AndNotBit(v: word, w: word, i: bv5)
    ensures Bit(!v & w, i) == (1 ^ Bit(v, i)) & Bit(w, i)
  {
  }

  lemma RotatedBit(w: word, n: bv5, i: bv5)
    ensures n == 2 ==> Bit(w.RotateRight(2), i) == Bit(w, i + 2)
    ensures n == 6 ==> Bit(w.RotateRight(6), i) == Bit(w, i + 6)
    ensures n == 7 ==> Bit(w.RotateRight(7), i) == Bit(w, i + 7)
    ensures n == 11 ==> Bit(w.RotateRight(11), i) == Bit(w, i + 11)
    ensures n == 13 ==> Bit(w.RotateRight(13), i) == Bit(w, i + 13)
    ensures n == 17 ==> Bit(w.RotateRight(17), i) == Bit(w, i + 17)
    ensures n == 18 ==> Bit(w.RotateRight(18), i) == Bit(w, i + 18)
    ensures n == 19 ==> Bit(w.RotateRight(19), i) == Bit(w, i + 19)
    ensures n == 22 ==> Bit(w.RotateRight(22), i) == Bit(w, i + 22)
    ensures n == 25 ==> Bit(w.RotateRight(25), i) == Bit(w, i + 25)
  {
  }

  lemma ShiftedBit(w: word, i: bv5)
    ensures Bit(w >> 3, i) == if i < 29 then Bit(w, i + 3) else 0
    ensures Bit(w >> 10, i) == if i < 22 then Bit(w, i + 10) else 0
  {
  }

  /** The exclusive or of three words, known by name. */
  lemma Xor3Bit(p: word, q: word, r: word, i: bv5, x: word, y: word, z: word)
    requires Bit(p, i) == x && Bit(q, i) == y && Bit(r, i) == z
    ensures Bit(p ^ q ^ r, i) == x ^ y ^ z
  {
    XorBit(p, q, i);
    XorBit(p ^ q, r, i);
  }

  lemma Chosen(p: word, q: word, i: bv5, a: word, b: word, c: word)
    requires Bit(p, i) == a & b && Bit(q, i) == (1 ^ a) & c
    ensures a <= 1 && b <= 1 && c <= 1 ==> Bit(p ^ q, i) == if a == 1 then b else c
  {
    XorBit(p, q, i);
  }

  /** The first word chooses between the others. */
  lemma ChBit(x: word, y: word, z: word, i: bv5)
    ensures Bit(Ch(x, y, z), i) == if Bit(x, i) == 1 then Bit(y, i) else Bit(z, i)
  {
    AndBit(x, y, i);
    AndNotBit(x, z, i);
    Chosen(x & y, !x & z, i, Bit(x, i), Bit(y, i), Bit(z, i));
    BitIsBit(x, i);
    BitIsBit(y, i);
    BitIsBit(z, i);
  }

  lemma Majority(p: word, q: word, r: word, i: bv5, a: word, b: word, c: word)
    requires Bit(p, i) == a & b && Bit(q, i) == a & c && Bit(r, i) == b & c
    ensures a <= 1 && b <= 1 && c <= 1 ==> Bit(p ^ q ^ r, i) == if a == b then a else c
  {
    Xor3Bit(p, q, r, i, a & b, a & c, b & c);
  }

  /** At least two of the three. */
  lemma MajBit(x: word, y: word, z: word, i: bv5)
    ensures Bit(Maj(x, y, z), i) == if Bit(x, i) == Bit(y, i) then Bit(x, i) else Bit(z, i)
  {
    AndBit(x, y, i);
    AndBit(x, z, i);
    AndBit(y, z, i);
    Majority(x & y, x & z, y & z, i, Bit(x, i), Bit(y, i), Bit(z, i));
    BitIsBit(x, i);
    BitIsBit(y, i);
    BitIsBit(z, i);
  }

  lemma BigSigma0Bit(x: word, i: bv5)
    ensures Bit(BigSigma0(x), i) == Bit(x, i + 2) ^ Bit(x, i + 13) ^ Bit(x, i + 22)
  {
    RotatedBit(x, 2, i);
    RotatedBit(x, 13, i);
    RotatedBit(x, 22, i);
    Xor3Bit(x.RotateRight(2), x.RotateRight(13), x.RotateRight(22), i, Bit(x, i + 2), Bit(x, i + 13), Bit(x, i + 22));
  }

  lemma BigSigma1Bit(x: word, i: bv5)
    ensures Bit(BigSigma1(x), i) == Bit(x, i + 6) ^ Bit(x, i + 11) ^ Bit(x, i + 25)
  {
    RotatedBit(x, 6, i);
    RotatedBit(x, 11, i);
    RotatedBit(x, 25, i);
    Xor3Bit(x.RotateRight(6), x.RotateRight(11), x.RotateRight(25), i, Bit(x, i + 6), Bit(x, i + 11), Bit(x, i + 25));
  }

  /** The small ones shift their last term, so it has no bits near the top. */
  lemma SmallSigma0Bit(x: word, i: bv5)
    ensures Bit(SmallSigma0(x), i) == Bit(x, i + 7) ^ Bit(x, i + 18) ^ (if i < 29 then Bit(x, i + 3) else 0)
  {
    RotatedBit(x, 7, i);
    RotatedBit(x, 18, i);
    ShiftedBit(x, i);
    Xor3Bit(x.RotateRight(7), x.RotateRight(18), x >> 3, i,
            Bit(x, i + 7), Bit(x, i + 18), if i < 29 then Bit(x, i + 3) else 0);
  }

  lemma SmallSigma1Bit(x: word, i: bv5)
    ensures Bit(SmallSigma1(x), i) == Bit(x, i + 17) ^ Bit(x, i + 19) ^ (if i < 22 then Bit(x, i + 10) else 0)
  {
    RotatedBit(x, 17, i);
    RotatedBit(x, 19, i);
    ShiftedBit(x, i);
    Xor3Bit(x.RotateRight(17), x.RotateRight(19), x >> 10, i,
            Bit(x, i + 17), Bit(x, i + 19), if i < 22 then Bit(x, i + 10) else 0);
  }
}
