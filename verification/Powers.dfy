// Powers modulo m, by which the addition chains are specified.
module Powers {
  import opened Arith

  function Pow(x: int, e: nat): int
    decreases e, x
  {
    if e == 0 then 1 else x * Pow(x, e - 1)
  }

  lemma {:induction false} PowAdd(x: int, j: nat, k: nat)
    ensures Pow(x, j + k) == Pow(x, j) * Pow(x, k)
    decreases j
  {
    if j > 0 {
      PowAdd(x, j - 1, k);
      MulAssoc(x, Pow(x, j - 1), Pow(x, k));
    }
  }

  lemma {:induction false} PowTimes(x: int, j: nat, k: nat)
    ensures Pow(Pow(x, j), k) == Pow(x, j * k)
    decreases k
  {
    if k == 0 {
      assert j * k == 0;
    } else {
      PowTimes(x, j, k - 1);
      assert j * k == j + j * (k - 1);
      PowAdd(x, j, j * (k - 1));
    }
  }

  lemma {:induction false} PowCong(x: int, y: int, e: nat, m: int)
    requires m > 0 && Cong(x, y, m)
    ensures Cong(Pow(x, e), Pow(y, e), m)
    decreases e
  {
    if e > 0 {
      PowCong(x, y, e - 1, m);
      CongMul(x, y, Pow(x, e - 1), Pow(y, e - 1), m);
    }
  }

  // t is congruent to x^e modulo m.
  ghost predicate IsPow(t: int, x: int, e: int, m: int)
    requires m > 0
  {
    e >= 0 && Cong(t, Pow(x, e), m)
  }

  lemma {:induction false} PowProduct(t: int, u: int, r: int, x: int, d: int, e: int, m: int)
    requires m > 0 && IsPow(t, x, d, m) && IsPow(u, x, e, m) && Cong(r, t * u, m)
    ensures IsPow(r, x, d + e, m)
  {
    CongMul(t, Pow(x, d), u, Pow(x, e), m);
    PowAdd(x, d, e);
  }

  lemma {:induction false} PowOne(x: int, m: int)
    requires m > 0
    ensures IsPow(x, x, 1, m)
  {
    assert Pow(x, 0) == 1;
  }

  // k squarings, then a product: the exponent is shifted by k bits and filled up.
  lemma {:induction false} OnesShift(n: nat, k: nat)
    ensures (Pow2(n) - 1) * Pow2(k) + (Pow2(k) - 1) == Pow2(n + k) - 1
  {
    Pow2Add(n, k);
  }

  lemma {:induction false} SmallPowers()
    ensures Pow2(1) == 2 && Pow2(2) == 4 && Pow2(3) == 8 && Pow2(4) == 16 && Pow2(5) == 32 && Pow2(6) == 64
    ensures Pow2(8) == 256 && Pow2(9) == 512 && Pow2(10) == 1024
  {
    assert Pow2(7) == 128;
  }
}
