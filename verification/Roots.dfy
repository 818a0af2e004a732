// Constants that nobody chose: the first bits of the fractional parts of the
// square and cube roots of the first primes.
module Roots {
  import opened Arith

  // The first sixty-four primes.
  const PRIMES: seq<seq<nat>> := [
    [2, 3, 5, 7, 11, 13, 17, 19],
    [23, 29, 31, 37, 41, 43, 47, 53],
    [59, 61, 67, 71, 73, 79, 83, 89],
    [97, 101, 103, 107, 109, 113, 127, 131],
    [137, 139, 149, 151, 157, 163, 167, 173],
    [179, 181, 191, 193, 197, 199, 211, 223],
    [227, 229, 233, 239, 241, 251, 257, 263],
    [269, 271, 277, 281, 283, 293, 307, 311]]

  function Prime(t: nat): nat
    requires t < 64
  {
    PRIMES[t / 8][t % 8]
  }

  predicate Divides(d: nat, n: nat)
    requires d > 0
  {
    n % d == 0
  }

  ghost predicate IsPrime(n: nat) { n > 1 && forall d: nat :: 1 < d < n ==> !Divides(d, n) }

  // Divisible by a smaller prime up to 17.
  predicate SievedOut(n: nat) {
    || (n != 2 && n % 2 == 0) || (n != 3 && n % 3 == 0) || (n != 5 && n % 5 == 0) || (n != 7 && n % 7 == 0)
    || (n != 11 && n % 11 == 0) || (n != 13 && n % 13 == 0) || (n != 17 && n % 17 == 0)
  }

  // They are the primes up to 311, in order.
  lemma {:induction false} FirstPrimes(n: nat)
    requires n <= 311
    ensures IsPrime(n) <==> exists t: nat :: t < 64 && Prime(t) == n
    ensures forall i: nat, j: nat :: i < j < 64 ==> Prime(i) < Prime(j)
  {
    Sieve(n);
    forall i: nat, j: nat | i < j < 64
      ensures Prime(i) < Prime(j)
    {
      Ascend(i, j);
    }
    Row0();
    if n > 1 {
      var t := Place(n, 63);
      Gap(t, n);
    }
  }

  // Where n belongs among them.
  lemma {:induction false} Place(n: nat, k: nat) returns (t: nat)
    requires 2 <= n <= 311 && k < 64 && (k < 63 ==> n < Prime(k + 1))
    ensures t < 64 && Prime(t) <= n && (t < 63 ==> n < Prime(t + 1))
  {
    t := k;
    Follows(k);
    if Prime(k) > n {
      t := Place(n, k - 1);
    }
  }

  lemma {:induction false} Ascend(i: nat, j: nat)
    requires i < j < 64
    ensures Prime(i) < Prime(j)
    decreases j
  {
    Follows(j - 1);
    if i < j - 1 {
      Ascend(i, j - 1);
    }
  }

  // Each is left by the sieve, and nothing up to the next one is.
  lemma {:induction false} Gap(t: nat, n: nat)
    requires t < 64 && Prime(t) <= n && (if t < 63 then n < Prime(t + 1) else n == 311)
    ensures SievedOut(n) <==> n != Prime(t)
  {
    Follows(t);
    if n != Prime(t) {
      AllSieved(Prime(t) + 1, Prime(t + 1), n);
    }
  }

  predicate Sieves(from: nat, to: nat)
    decreases if from >= to then 0 else to - from
  {
    from >= to || (SievedOut(from) && Sieves(from + 1, to))
  }

  lemma {:induction false} AllSieved(from: nat, to: nat, n: nat)
    requires Sieves(from, to) && from <= n < to
    ensures SievedOut(n)
    decreases n - from
  {
    if n > from {
      AllSieved(from + 1, to, n);
    }
  }

  predicate IsNext(p: nat, q: nat) { 2 <= p < q && !SievedOut(p) && Sieves(p + 1, q) }

  // Entry t is followed by the next number the sieve leaves.
  predicate FollowsAt(t: nat)
    requires t < 64
  {
    if t < 63 then IsNext(Prime(t), Prime(t + 1)) else Prime(t) == 311 && !SievedOut(311)
  }

  lemma {:induction false} Follows(t: nat)
    requires t < 64
    ensures FollowsAt(t)
  {
    var f := (k: nat) => k < 64 && FollowsAt(k);
    RowsFollow(f, t / 8);
    OneOfEight(f, t, t / 8 * 8);
  }

  lemma {:induction false} RowsFollow(f: nat -> bool, k: nat)
    requires k < 8 && forall t: nat :: f(t) == (t < 64 && FollowsAt(t))
    ensures AllEight(f, 8 * k)
  {
    if k < 4 {
      FirstRowsFollow(f, k);
    } else {
      LastRowsFollow(f, k);
    }
  }

  lemma {:induction false} FirstRowsFollow(f: nat -> bool, k: nat)
    requires k < 4 && forall t: nat :: f(t) == (t < 64 && FollowsAt(t))
    ensures AllEight(f, 8 * k)
  {
    if k == 0 { Row0(); } else if k == 1 { Row1(); } else if k == 2 { Row2(); } else { Row3(); }
  }

  lemma {:induction false} LastRowsFollow(f: nat -> bool, k: nat)
    requires 4 <= k < 8 && forall t: nat :: f(t) == (t < 64 && FollowsAt(t))
    ensures AllEight(f, 8 * k)
  {
    if k == 4 { Row4(); } else if k == 5 { Row5(); } else if k == 6 { Row6(); } else { Row7(); }
  }

  ghost predicate AllEight(f: nat -> bool, k: nat) {
    f(k) && f(k + 1) && f(k + 2) && f(k + 3) && f(k + 4) && f(k + 5) && f(k + 6) && f(k + 7)
  }

  lemma {:induction false} OneOfEight(f: nat -> bool, t: nat, k: nat)
    requires k <= t < k + 8 && AllEight(f, k)
    ensures f(t)
  {
  }

  lemma {:induction false} Row0()
    ensures FollowsAt(0) && FollowsAt(1) && FollowsAt(2) && FollowsAt(3)
    ensures FollowsAt(4) && FollowsAt(5) && FollowsAt(6) && FollowsAt(7)
  {
  }

  lemma {:induction false} Row1()
    ensures FollowsAt(8) && FollowsAt(9) && FollowsAt(10) && FollowsAt(11)
    ensures FollowsAt(12) && FollowsAt(13) && FollowsAt(14) && FollowsAt(15)
  {
  }

  lemma {:induction false} Row2()
    ensures FollowsAt(16) && FollowsAt(17) && FollowsAt(18) && FollowsAt(19)
    ensures FollowsAt(20) && FollowsAt(21) && FollowsAt(22) && FollowsAt(23)
  {
  }

  lemma {:induction false} Row3()
    ensures FollowsAt(24) && FollowsAt(25) && FollowsAt(26) && FollowsAt(27)
    ensures FollowsAt(28) && FollowsAt(29) && FollowsAt(30) && FollowsAt(31)
  {
  }

  lemma {:induction false} Row4()
    ensures FollowsAt(32) && FollowsAt(33) && FollowsAt(34) && FollowsAt(35)
    ensures FollowsAt(36) && FollowsAt(37) && FollowsAt(38) && FollowsAt(39)
  {
  }

  lemma {:induction false} Row5()
    ensures FollowsAt(40) && FollowsAt(41) && FollowsAt(42) && FollowsAt(43)
    ensures FollowsAt(44) && FollowsAt(45) && FollowsAt(46) && FollowsAt(47)
  {
  }

  lemma {:induction false} Row6()
    ensures FollowsAt(48) && FollowsAt(49) && FollowsAt(50) && FollowsAt(51)
    ensures FollowsAt(52) && FollowsAt(53) && FollowsAt(54) && FollowsAt(55)
  {
  }

  lemma {:induction false} Row7()
    ensures FollowsAt(56) && FollowsAt(57) && FollowsAt(58) && FollowsAt(59)
    ensures FollowsAt(60) && FollowsAt(61) && FollowsAt(62) && FollowsAt(63)
  {
  }

  // A composite number below 18 squared has a divisor below 18.
  lemma {:induction false} Sieve(n: nat)
    requires n < 324
    ensures IsPrime(n) <==> n > 1 && !SievedOut(n)
  {
    if n > 1 && SievedOut(n) {
      assert exists d: nat :: 1 < d < n && Divides(d, n) by {
        assert Divides(2, n) || Divides(3, n) || Divides(5, n) || Divides(7, n) || Divides(11, n) || Divides(13, n) || Divides(17, n);
      }
    }
    if n > 1 && !SievedOut(n) {
      forall d: nat | 1 < d < n
        ensures !Divides(d, n)
      {
        if Divides(d, n) {
          Divided(n, d, n / d);
        }
      }
    }
  }

  lemma {:induction false} Divided(n: nat, d: nat, e: nat)
    requires n < 324 && 1 < d < n && n % d == 0 && e == n / d
    ensures SievedOut(n)
  {
    assert n == d * e;
    SmallFactor(n, d, e);
    if d < 18 {
      SmallDivisor(n, d, e);
    } else {
      SmallDivisor(n, e, d);
    }
  }

  lemma {:induction false} SmallFactor(n: nat, d: nat, e: nat)
    requires n == d * e < 324 && 1 < d < n
    ensures 1 < e < n && (d < 18 || e < 18)
  {
    Product(d, 0, d, e);
    Product(d, e, d, 1);
    Product(2, n, d, e);
    if d >= 18 && e >= 18 {
      Product(18, 18, d, e);
    }
  }

  lemma {:induction false} Product(a: nat, b: nat, c: nat, d: nat)
    ensures a <= c && b <= d ==> a * b <= c * d
    ensures d == 1 ==> c * d == c
  {
  }

  lemma {:induction false} SmallDivisor(n: nat, d: nat, e: nat)
    requires 1 < d < 18 && d < n == d * e
    ensures SievedOut(n)
  {
    if d == 2 || d == 4 || d == 6 || d == 8 || d == 10 || d == 12 || d == 14 || d == 16 {
      Multiple(n, 2, d / 2, e);
    } else if d == 3 || d == 9 || d == 15 {
      Multiple(n, 3, d / 3, e);
    } else {
      Multiple(n, d, 1, e);
    }
  }

  lemma {:induction false} Multiple(n: nat, q: nat, k: nat, e: nat)
    requires q > 0 && n == q * k * e
    ensures n % q == 0
  {
    assert q * k * e == q * (k * e);
    DivModUnique(n, q, k * e, 0);
  }

  // v is the first 32 bits of the fractional part of the cube root of p.
  ghost predicate IsCubeRootFraction(v: nat, p: nat) {
    v < 0x1_0000_0000 && exists a: nat :: CubeRootStarts(a, v, p)
  }

  // The cube root of p is a, and then v over 2^32, with less than 2^-32 to come.
  predicate CubeRootStarts(a: nat, v: nat, p: nat) {
    Cube(a * 0x1_0000_0000 + v) <= p * 0x1_0000_0000_0000_0000_0000_0000 < Cube(a * 0x1_0000_0000 + v + 1)
  }

  function Cube(x: nat): nat { x * x * x }

  // The same for square roots, in as many bits as `unit` has.
  ghost predicate IsSquareRootFraction(v: nat, p: nat, unit: nat) {
    v < unit && exists a: nat :: SquareRootStarts(a, v, p, unit)
  }

  predicate SquareRootStarts(a: nat, v: nat, p: nat, unit: nat) {
    Square(a * unit + v) <= p * Square(unit) < Square(a * unit + v + 1)
  }

  function Square(x: nat): nat { x * x }

  // The integer part of the cube root, up to 342.
  function CubeFloor(p: nat): nat {
    if p < 8 then 1 else if p < 27 then 2 else if p < 64 then 3 else if p < 125 then 4 else if p < 216 then 5 else 6
  }

  // And of the square root, up to 24.
  function SquareFloor(p: nat): nat { if p < 4 then 1 else if p < 9 then 2 else if p < 16 then 3 else 4 }
}
