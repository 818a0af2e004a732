// The addition chain of secp256k1_scalar_inverse.
module ScalarInverse {
  import opened Arith
  import opened Groups
  import opened Scalar8x32
  import opened ScalarReduce
  import opened Powers

  // t is x^e modulo N, reduced, in words.
  ghost predicate IsPower(t: seq<int>, x: int, e: int) {
    AreWords(t, 8) && 0 <= Num(t) < N && IsPow(Num(t), x, e, N)
  }

  method Mul(a: seq<int>, b: seq<int>, ghost x: int, ghost d: int, ghost e: int) returns (r: seq<int>)
    requires IsPower(a, x, d) && IsPower(b, x, e)
    ensures IsPower(r, x, d + e)
  {
    var l := Mul512(a, b);
    r := Reduce512(l);
    CongMod(Num(a) * Num(b), N);
    PowProduct(Num(a), Num(b), Num(r), x, d, e, N);
  }

  method Sqr(a: seq<int>, ghost x: int, ghost e: int) returns (r: seq<int>)
    requires IsPower(a, x, e)
    ensures IsPower(r, x, 2 * e)
  {
    var l := Sqr512(a);
    r := Reduce512(l);
    CongMod(Num(a) * Num(a), N);
    PowProduct(Num(a), Num(a), Num(r), x, e, e, N);
  }

  // Squares k times and multiplies by y.
  method Shift(a: seq<int>, k: nat, y: seq<int>, ghost x: int, ghost d: int, ghost e: int) returns (r: seq<int>, ghost f: int)
    requires IsPower(a, x, d) && IsPower(y, x, e)
    ensures f == d * Pow2(k) + e && IsPower(r, x, f)
  {
    r := a;
    for i := 0 to k
      invariant IsPower(r, x, d * Pow2(i))
    {
      r := Sqr(r, x, d * Pow2(i));
      assert 2 * (d * Pow2(i)) == d * Pow2(i + 1);
    }
    f := d * Pow2(k) + e;
    r := Mul(r, y, x, d * Pow2(k), e);
  }

  // x^(2^n - 1) and x^(2^k - 1) give x^(2^(n+k) - 1).
  method Ones(a: seq<int>, n: nat, y: seq<int>, k: nat, ghost x: int) returns (r: seq<int>)
    requires IsPower(a, x, Pow2(n) - 1) && IsPower(y, x, Pow2(k) - 1)
    ensures IsPower(r, x, Pow2(n + k) - 1)
  {
    ghost var f;
    r, f := Shift(a, k, y, x, Pow2(n) - 1, Pow2(k) - 1);
    OnesShift(n, k);
  }

  // Lines 75-86: the small odd powers.
  method SmallOdd(a: seq<int>, ghost x: int)
    returns (u2: seq<int>, x2: seq<int>, u5: seq<int>, x3: seq<int>, u9: seq<int>, u11: seq<int>, u13: seq<int>)
    requires IsPower(a, x, 1)
    ensures IsPower(x2, x, 3) && IsPower(u5, x, 5) && IsPower(x3, x, 7)
    ensures IsPower(u9, x, 9) && IsPower(u11, x, 11) && IsPower(u13, x, 13)
  {
    u2 := Sqr(a, x, 1);
    x2 := Mul(u2, a, x, 2, 1);
    u5 := Mul(u2, x2, x, 2, 3);
    x3 := Mul(u5, u2, x, 5, 2);
    u9 := Mul(x3, u2, x, 7, 2);
    u11 := Mul(u9, u2, x, 9, 2);
    u13 := Mul(u11, u2, x, 11, 2);
  }

  // Lines 88-134: a block of 126 ones.
  method Block(x2: seq<int>, u11: seq<int>, u13: seq<int>, ghost x: int) returns (x6: seq<int>, x8: seq<int>, x126: seq<int>)
    requires IsPower(x2, x, 3) && IsPower(u11, x, 11) && IsPower(u13, x, 13)
    ensures IsPower(x6, x, 63) && IsPower(x8, x, 255) && IsPower(x126, x, Pow2(126) - 1)
  {
    ghost var f;
    SmallPowers();
    x6, f := Shift(u13, 2, u11, x, 13, 11);
    x8 := Ones(x6, 6, x2, 2, x);
    var x14 := Ones(x8, 8, x6, 6, x);
    x126 := LongBlock(x14, 14, x);
  }

  // Lines 110-134, where x14 is x^(2^14 - 1).
  method LongBlock(x14: seq<int>, n: nat, ghost x: int) returns (x126: seq<int>)
    requires IsPower(x14, x, Pow2(n) - 1) && n == 14
    ensures IsPower(x126, x, Pow2(9 * n) - 1)
  {
    var x28 := Ones(x14, n, x14, n, x);
    var x56 := Ones(x28, 2 * n, x28, 2 * n, x);
    var x112 := Ones(x56, 4 * n, x56, 4 * n, x);
    x126 := Ones(x112, 8 * n, x14, n, x);
  }

  // secp256k1_scalar_inverse: x to the power N - 2.
  method Inverse(a: seq<int>) returns (r: seq<int>)
    requires AreWords(a, 8) && 0 <= Num(a) < N
    ensures IsPower(r, Num(a), N - 2)
  {
    ghost var x := Num(a);
    PowOne(x, N);
    var u2, x2, u5, x3, u9, u11, u13 := SmallOdd(a, x);
    var x6, x8, x126 := Block(x2, u11, u13, x);
    ghost var e := Pow2(126) - 1;
    var t := x126;
    SmallPowers();
    t, e := Shift(t, 3, u5, x, e, 5);
    t, e := Shift(t, 4, x3, x, e, 7);
    t, e := Shift(t, 4, u5, x, e, 5);
    t, e := Shift(t, 5, u11, x, e, 11);
    t, e := Shift(t, 4, u11, x, e, 11);
    t, e := Shift(t, 4, x3, x, e, 7);
    t, e := Shift(t, 5, x3, x, e, 7);
    t, e := Shift(t, 6, u13, x, e, 13);
    t, e := Shift(t, 4, u5, x, e, 5);
    t, e := Shift(t, 3, x3, x, e, 7);
    t, e := Shift(t, 5, u9, x, e, 9);
    t, e := Shift(t, 6, u5, x, e, 5);
    t, e := Shift(t, 10, x3, x, e, 7);
    t, e := Shift(t, 4, x3, x, e, 7);
    t, e := Shift(t, 9, x8, x, e, 255);
    t, e := Shift(t, 5, u9, x, e, 9);
    t, e := Shift(t, 6, u11, x, e, 11);
    t, e := Shift(t, 4, u13, x, e, 13);
    t, e := Shift(t, 5, x2, x, e, 3);
    t, e := Shift(t, 6, u13, x, e, 13);
    t, e := Shift(t, 10, u13, x, e, 13);
    t, e := Shift(t, 4, u9, x, e, 9);
    t, e := Shift(t, 6, a, x, e, 1);
    t, e := Shift(t, 8, x6, x, e, 63);
    Pow2Of126();
    assert e == N - 2;
    r := t;
  }

  lemma {:induction false} Pow2Of126()
    ensures Pow2(126) == 0x4000_0000_0000_0000_0000_0000_0000_0000
  {
    assert Pow2(15) == 0x8000;
    Pow2Sum(15, 15, 0x8000, 0x8000);
    Pow2Sum(30, 30, 0x4000_0000, 0x4000_0000);
    Pow2Sum(60, 60, 0x1000_0000_0000_0000, 0x1000_0000_0000_0000);
    assert Pow2(6) == 64;
    Pow2Sum(120, 6, 0x100_0000_0000_0000_0000_0000_0000_0000, 64);
  }

  // Where Fermat's theorem holds, that power is the inverse.
  lemma {:induction false} PowerIsInverse(t: seq<int>, x: int)
    requires IsPower(t, x, N - 2) && Cong(Pow(x, N - 1), 1, N)
    ensures (x * Num(t)) % N == 1
  {
    PowAdd(x, 1, N - 2);
    assert Pow(x, 1) == x * Pow(x, 0);
    CongMul(x, x, Num(t), Pow(x, N - 2), N);
  }
}
