// The addition chains for the inverse and the square root of a field element.
module FieldPower {
  import opened Arith
  import opened Field10x26
  import FieldNormalize
  import opened Powers

  // t may be multiplied and is x^e modulo P.
  ghost predicate IsPower(t: seq<int>, x: int, e: int) {
    IsFactor(t) && IsPow(Num(t), x, e, P)
  }

  method Mul(a: seq<int>, b: seq<int>, ghost x: int, ghost d: int, ghost e: int) returns (r: seq<int>)
    requires IsPower(a, x, d) && IsPower(b, x, e)
    ensures HasMagnitude(r, 1) && IsPower(r, x, d + e)
  {
    r := MulInner(a, b);
    MagnitudeIsFactor(r, 1);
    PowProduct(Num(a), Num(b), Num(r), x, d, e, P);
  }

  method Sqr(a: seq<int>, ghost x: int, ghost e: int) returns (r: seq<int>)
    requires IsPower(a, x, e)
    ensures HasMagnitude(r, 1) && IsPower(r, x, 2 * e)
  {
    r := SqrInner(a);
    MagnitudeIsFactor(r, 1);
    PowProduct(Num(a), Num(a), Num(r), x, e, e, P);
  }

  // Squares k times and multiplies by y.
  method Shift(a: seq<int>, k: nat, y: seq<int>, ghost x: int, ghost d: int, ghost e: int) returns (r: seq<int>, ghost f: int)
    requires IsPower(a, x, d) && IsPower(y, x, e)
    ensures f == d * Pow2(k) + e && HasMagnitude(r, 1) && IsPower(r, x, f)
  {
    r := a;
    for i := 0 to k
      invariant IsPower(r, x, d * Pow2(i))
    {
      r := Sqr(r, x, d * Pow2(i));
      assert 2 * (d * Pow2(i)) == d * Pow2(i + 1);
    }
    f := d * Pow2(k) + e;
    r := Mul(r, y, x, d * Pow2(k), e);
  }

  // x^(2^n - 1) and x^(2^k - 1) give x^(2^(n+k) - 1).
  method Ones(a: seq<int>, n: nat, y: seq<int>, k: nat, ghost x: int) returns (r: seq<int>)
    requires IsPower(a, x, Pow2(n) - 1) && IsPower(y, x, Pow2(k) - 1)
    ensures IsPower(r, x, Pow2(n + k) - 1)
  {
    ghost var f;
    r, f := Shift(a, k, y, x, Pow2(n) - 1, Pow2(k) - 1);
    OnesShift(n, k);
  }

  // Lines 56-80, 139-163: blocks of 2, 3 and 11 ones.
  method ShortBlocks(a: seq<int>, ghost x: int) returns (x2: seq<int>, x3: seq<int>, x11: seq<int>)
    requires IsPower(a, x, 1)
    ensures IsPower(x2, x, 3) && IsPower(x3, x, 7) && IsPower(x11, x, 2047)
  {
    SmallPowers();
    x2 := Ones(a, 1, a, 1, x);
    x3 := Ones(x2, 2, a, 1, x);
    var x6 := Ones(x3, 3, x3, 3, x);
    var x9 := Ones(x6, 6, x3, 3, x);
    x11 := Ones(x9, 9, x2, 2, x);
    assert Pow2(11) == 2048;
  }

  // Lines 82-115, 165-198: blocks of 22 and 223 ones, from 11 and 3.
  method LongBlocks(x11: seq<int>, n: nat, x3: seq<int>, k: nat, ghost x: int) returns (x22: seq<int>, x223: seq<int>)
    requires IsPower(x11, x, Pow2(n) - 1) && n == 11 && IsPower(x3, x, Pow2(k) - 1) && k == 3
    ensures IsPower(x22, x, Pow2(2 * n) - 1) && IsPower(x223, x, Pow2(20 * n + k) - 1)
  {
    x22 := Ones(x11, n, x11, n, x);
    var x44 := Ones(x22, 2 * n, x22, 2 * n, x);
    var x88 := Ones(x44, 4 * n, x44, 4 * n, x);
    var x176 := Ones(x88, 8 * n, x88, 8 * n, x);
    var x220 := Ones(x176, 16 * n, x44, 4 * n, x);
    x223 := Ones(x220, 20 * n, x3, k, x);
  }

  const ONES_22: int := 0x3FFFFF
  const ONES_223: int := 0x7fffffffffffffffffffffffffffffffffffffffffffffffffffffff

  method Blocks(a: seq<int>, ghost x: int) returns (x2: seq<int>, x22: seq<int>, x223: seq<int>)
    requires IsPower(a, x, 1)
    ensures IsPower(x2, x, 3) && IsPower(x22, x, ONES_22) && IsPower(x223, x, ONES_223)
  {
    var x3, x11;
    var n, k := 11, 3;
    x2, x3, x11 := ShortBlocks(a, x);
    BlockPowers(n, k);
    x22, x223 := LongBlocks(x11, n, x3, k, x);
  }

  lemma {:induction false} BlockPowers(n: nat, k: nat)
    requires n == 11 && k == 3
    ensures Pow2(k) == 8 && Pow2(n) == 2048 && Pow2(2 * n) == ONES_22 + 1 && Pow2(20 * n + k) == ONES_223 + 1
  {
    assert Pow2(3) == 8 && Pow2(11) == 2048;
    Pow2Sum(n, n, 2048, 2048);
    Pow2Sum(2 * n, 2 * n, 0x400000, 0x400000);
    Pow2Sum(4 * n, 4 * n, 0x100000000000, 0x100000000000);
    Pow2Sum(8 * n, 8 * n, 0x10000000000000000000000, 0x10000000000000000000000);
    Pow2Sum(16 * n, 4 * n, 0x100000000000000000000000000000000000000000000, 0x100000000000);
    Pow2Sum(20 * n, k, 0x10000000000000000000000000000000000000000000000000000000, 8);
  }

  // secp256k1_fe_inv: a to the power P - 2.
  method Inverse(a: seq<int>) returns (r: seq<int>)
    requires IsFactor(a)
    ensures HasMagnitude(r, 1) && IsPower(r, Num(a), P - 2)
  {
    ghost var x := Num(a);
    PowOne(x, P);
    var x2, x22, x223 := Blocks(a, x);
    var t := x223;
    ghost var e := ONES_223;
    SmallPowers();
    Pow2OfTwentyThree();
    t, e := Shift(t, 23, x22, x, e, ONES_22);
    t, e := Shift(t, 5, a, x, e, 1);
    t, e := Shift(t, 3, x2, x, e, 3);
    t, e := Shift(t, 2, a, x, e, 1);
    assert e == P - 2;
    r := t;
  }

  lemma {:induction false} Pow2OfTwentyThree()
    ensures Pow2(23) == 0x80_0000
  {
    assert Pow2(11) == 2048 && Pow2(12) == 4096;
    Pow2Sum(11, 12, 2048, 4096);
  }

  // Where Fermat's theorem holds, that power is the inverse.
  lemma {:induction false} PowerIsInverse(t: seq<int>, x: int)
    requires IsPower(t, x, P - 2) && Cong(Pow(x, P - 1), 1, P)
    ensures Cong(x * Num(t), 1, P)
  {
    PowAdd(x, 1, P - 2);
    assert Pow(x, 1) == x * Pow(x, 0);
    CongMul(x, x, Num(t), Pow(x, P - 2), P);
  }

  // secp256k1_fe_sqrt: a to the power (P + 1) / 4, and whether its square is a.
  method Sqrt(a: seq<int>, ghost m: nat) returns (ok: bool, r: seq<int>)
    requires HasMagnitude(a, m) && m <= 8
    ensures HasMagnitude(r, 1) && IsPower(r, Num(a), (P + 1) / 4)
    ensures ok <==> Cong(Num(r) * Num(r), Num(a), P)
  {
    ghost var x := Num(a);
    PowOne(x, P);
    MagnitudeIsFactor(a, m);
    var x2, x22, x223 := Blocks(a, x);
    var t1 := x223;
    ghost var e := ONES_223;
    SmallPowers();
    Pow2OfTwentyThree();
    t1, e := Shift(t1, 23, x22, x, e, ONES_22);
    t1, e := Shift(t1, 6, x2, x, e, 3);
    t1 := Sqr(t1, x, e);
    r := Sqr(t1, x, 2 * e);
    assert 4 * e == (P + 1) / 4;
    t1 := SqrInner(r);
    ok := FieldNormalize.Equal(t1, a, m);
  }

  // The test is exact: where Fermat's theorem holds, it succeeds for the squares and only for them.
  lemma {:induction false} SqrtOfSquare(a: int, s: int, r: int)
    requires Cong(s * s, a, P) && IsPow(r, a, (P + 1) / 4, P)
    requires Cong(Pow(s, P), s, P)
    ensures Cong(r * r, a, P)
  {
    var q := (P + 1) / 4;
    assert Pow(s, 2) == s * Pow(s, 1) && Pow(s, 1) == s * Pow(s, 0);
    PowCong(a, s * s, q, P);
    PowTimes(s, 2, q);
    CongMul(r, Pow(s, 2 * q), r, Pow(s, 2 * q), P);
    PowAdd(s, 2 * q, 2 * q);
    PowAdd(s, P, 1);
    CongMul(Pow(s, P), s, s, s, P);
  }
}
