// Scalars modulo the group order N in eight limbs of 32 bits: the 96-bit
// accumulator, 512-bit products, and their reduction.
module Scalar8x32 {
  import opened Arith
  import opened Groups
  import opened Recoding
  import opened Limbs
  import opened Words

  const W: int := 0x1_0000_0000

  // Words of the given number.
  ghost predicate AreWords(a: seq<int>, n: nat) {
    |a| == n && forall i :: 0 <= i < n ==> 0 <= a[i] < W
  }

  ghost function Num(a: seq<int>): int { Value(a, 32) }

  lemma {:induction false} WordRadix()
    ensures Pow2(32) == W
    ensures Pow2(32 * 8) == N + 0x14551231950B75FC4402DA1732FC9BEBF
  {
    assert Pow2(8) == 0x100;
    Pow2Sum(8, 8, 0x100, 0x100);
    Pow2Sum(16, 16, 0x10000, 0x10000);
    Pow2Of255();
    assert Pow2(256) == 2 * Pow2(255);
  }

  // ---- the accumulator (c0, c1, c2) ----

  datatype Acc = Acc(c0: int, c1: int, c2: int) {
    ghost predicate Valid() { 0 <= c0 < W && 0 <= c1 < W && 0 <= c2 < W }
    ghost function Total(): int { c0 + W * c1 + W * W * c2 }
  }

  // The carry out of a 32-bit sum shows in the comparison with an operand.
  lemma {:induction false} CarryOut(x: int, y: int)
    requires 0 <= x < W && 0 <= y < W
    ensures W32(x + y) + W * (if W32(x + y) < y then 1 else 0) == x + y
  {
  }

  // What the low words leave for the top one, given that the whole sum fits.
  lemma {:induction false} TopFits(c0: int, c1: int, c2: int)
    requires 0 <= c0 < W && 0 <= c1 < W && c0 + W * c1 + W * W * c2 < W * W * W
    ensures c2 < W
  {
  }

  // muladd: c2 never overflows if the sum fits in 96 bits.
  method MulAdd(s: Acc, a: int, b: int) returns (r: Acc)
    requires s.Valid() && 0 <= a < W && 0 <= b < W
    requires s.Total() + a * b < W * W * W
    ensures r.Valid() && r.Total() == s.Total() + a * b
  {
    WordProduct(a, b);
    var t := W64(a * b);
    r := AddWide(s, t);
  }

  method AddWide(s: Acc, t: int) returns (r: Acc)
    requires s.Valid() && 0 <= t <= (W - 1) * (W - 1)
    requires s.Total() + t < W * W * W
    ensures r.Valid() && r.Total() == s.Total() + t
  {
    var th, tl := t / W, t % W;
    var c0 := W32(s.c0 + tl);
    CarryOut(s.c0, tl);
    th := W32(th + (if c0 < tl then 1 else 0));
    var c1 := W32(s.c1 + th);
    CarryOut(s.c1, th);
    TopFits(c0, c1, s.c2 + (if c1 < th then 1 else 0));
    var c2 := W32(s.c2 + (if c1 < th then 1 else 0));
    r := Acc(c0, c1, c2);
  }

  // muladd_fast: two words suffice.
  method MulAddFast(s: Acc, a: int, b: int) returns (r: Acc)
    requires s.Valid() && s.c2 == 0 && 0 <= a < W && 0 <= b < W
    requires s.Total() + a * b < W * W
    ensures r.Valid() && r.c2 == 0 && r.Total() == s.Total() + a * b
  {
    WordProduct(a, b);
    var t := W64(a * b);
    var th, tl := t / W, t % W;
    var c0 := W32(s.c0 + tl);
    th := W32(th + (if c0 < tl then 1 else 0));
    r := Acc(c0, W32(s.c1 + th), s.c2);
  }

  // muladd2: twice the product.
  method MulAdd2(s: Acc, a: int, b: int) returns (r: Acc)
    requires s.Valid() && 0 <= a < W && 0 <= b < W
    requires s.Total() + 2 * (a * b) < W * W * W
    ensures r.Valid() && r.Total() == s.Total() + 2 * (a * b)
  {
    WordProduct(a, b);
    var t := W64(a * b);
    r := AddWideTwice(s, t);
  }

  method AddWideTwice(s: Acc, t: int) returns (r: Acc)
    requires s.Valid() && 0 <= t <= (W - 1) * (W - 1)
    requires s.Total() + 2 * t < W * W * W
    ensures r.Valid() && r.Total() == s.Total() + 2 * t
  {
    var tl2, th2, k := Double(t);
    DoubledTop(s, t, tl2, th2, k);
    var c2 := W32(s.c2 + k);
    var c0 := W32(s.c0 + tl2);
    CarryOut(s.c0, tl2);
    var over := if c0 < tl2 then 1 else 0;
    th2 := W32(th2 + over);
    var k2 := if over == 1 && th2 == 0 then 1 else 0;
    var c1 := W32(s.c1 + th2);
    CarryOut(s.c1, th2);
    var k3 := if c1 < th2 then 1 else 0;
    TopFits(c0, c1, c2 + k2 + k3);
    c2 := W32(c2 + k2);
    c2 := W32(c2 + k3);
    r := Acc(c0, c1, c2);
  }

  // The three words of 2*t.
  method Double(t: int) returns (tl2: int, th2: int, k: int)
    requires 0 <= t <= (W - 1) * (W - 1)
    ensures 0 <= tl2 < W && 0 <= th2 < W && 0 <= k <= 1 && 2 * t == tl2 + W * th2 + W * W * k
  {
    var th, tl := t / W, t % W;
    th2 := W32(th + th);
    CarryOut(th, th);
    k := if th2 < th then 1 else 0;
    tl2 := W32(tl + tl);
    CarryOut(tl, tl);
    th2 := W32(th2 + (if tl2 < tl then 1 else 0));
  }

  lemma {:induction false} DoubledTop(s: Acc, t: int, tl2: int, th2: int, k: int)
    requires s.Valid() && 0 <= tl2 && 0 <= th2
    requires 2 * t == tl2 + W * th2 + W * W * k && s.Total() + 2 * t < W * W * W
    ensures s.c2 + k < W
  {
  }

  lemma {:induction false} WordProduct(a: int, b: int)
    requires 0 <= a < W && 0 <= b < W
    ensures 0 <= a * b <= (W - 1) * (W - 1)
  {
    ProductBound(a, b, W - 1, W - 1);
  }

  // sumadd
  method SumAdd(s: Acc, a: int) returns (r: Acc)
    requires s.Valid() && 0 <= a < W && s.Total() + a < W * W * W
    ensures r.Valid() && r.Total() == s.Total() + a
  {
    var c0 := W32(s.c0 + a);
    var over := if c0 < a then 1 else 0;
    var c1 := W32(s.c1 + over);
    r := Acc(c0, c1, W32(s.c2 + (if c1 < over then 1 else 0)));
  }

  // sumadd_fast
  method SumAddFast(s: Acc, a: int) returns (r: Acc)
    requires s.Valid() && s.c2 == 0 && 0 <= a < W && s.Total() + a < W * W
    ensures r.Valid() && r.c2 == 0 && r.Total() == s.Total() + a
  {
    var c0 := W32(s.c0 + a);
    r := Acc(c0, W32(s.c1 + (if c0 < a then 1 else 0)), s.c2);
  }

  // extract: the lowest word leaves, the others move down.
  method Extract(s: Acc) returns (n: int, r: Acc)
    requires s.Valid()
    ensures 0 <= n < W && r.Valid() && r.c2 == 0 && s.Total() == n + W * r.Total()
  {
    n := s.c0;
    r := Acc(s.c1, s.c2, 0);
  }

  method ExtractFast(s: Acc) returns (n: int, r: Acc)
    requires s.Valid() && s.c2 == 0
    ensures 0 <= n < W && r.Valid() && r.c1 == 0 && r.c2 == 0 && s.Total() == n + W * r.Total()
  {
    n := s.c0;
    r := Acc(s.c1, 0, 0);
  }

  // ---- columns into words ----

  // The words written so far and the accumulator hold the columns taken in.
  ghost predicate Written(l: seq<int>, s: Acc, cols: seq<int>) {
    && |l| <= |cols| && AreWords(l, |l|)
    && s.Valid() && s.c2 == 0
    && Num(l) + Pow2(32 * |l|) * s.Total() == Value(cols[..|l|], 32)
  }

  lemma {:induction false} NothingWritten(cols: seq<int>)
    ensures Written([], Acc(0, 0, 0), cols)
  {
    assert cols[..0] == [];
  }

  // One more column has been added to s and its lowest word extracted.
  lemma {:induction false} ColumnWritten(l: seq<int>, s: Acc, cols: seq<int>, full: Acc, n: int, r: Acc)
    requires Written(l, s, cols) && |l| < |cols| && full.Total() == s.Total() + cols[|l|]
    requires 0 <= n < W && r.Valid() && r.c2 == 0 && full.Total() == n + W * r.Total()
    ensures Written(l + [n], r, cols)
  {
    var k := |l|;
    WordRadix();
    assert cols[..k + 1] == cols[..k] + [cols[k]];
    ValueAppend(l, 32, n);
    ValueAppend(cols[..k], 32, cols[k]);
    assert 32 * (k + 1) == 32 * k + 32;
    Pow2Add(32 * k, 32);
    ColumnAlgebra(Pow2(32 * k), n, r.Total(), s.Total(), cols[k]);
  }

  lemma {:induction false} ColumnAlgebra(p: int, n: int, r: int, s: int, x: int)
    requires s + x == n + W * r
    ensures p * n + (p * W) * r == p * s + p * x
  {
    MulAssoc(p, W, r);
    MulDistrib(p, n, W * r);
    MulDistrib(p, s, x);
  }

  // The muladd calls of one column of a product.
  method MulColumn(s: Acc, a: seq<int>, b: seq<int>, x: nat) returns (r: Acc)
    requires AreWords(a, 8) && AreWords(b, 8) && x < 15
    requires s.Valid() && s.c2 == 0
    ensures r.Valid() && r.Total() == s.Total() + Column(a, b, x)
  {
    r := s;
    var lo := if x < 8 then 0 else x - 7;
    var hi := if x < 8 then x + 1 else 8;
    for i := lo to hi
      invariant r.Valid() && r.Total() == s.Total() + RangeSum(a, b, x, lo, i)
    {
      PartialColumn(a, b, x, lo, i + 1);
      RangeSumLast(a, b, x, lo, i + 1);
      r := MulAdd(r, a[i], b[x - i]);
    }
  }

  lemma {:induction false} PartialColumn(a: seq<int>, b: seq<int>, x: nat, lo: nat, hi: nat)
    requires AreWords(a, |a|) && AreWords(b, |b|) && lo <= hi <= |a| && x - |b| < lo && hi <= x + 1
    requires hi - lo <= 8
    ensures 0 <= RangeSum(a, b, x, lo, hi) <= 8 * (W - 1) * (W - 1)
  {
    RangeSumBound(a, b, x, lo, hi, W - 1);
    MulMonotone(hi - lo, 8, (W - 1) * (W - 1));
  }

  method MulColumnOut(l0: seq<int>, s0: Acc, a: seq<int>, b: seq<int>, x: nat) returns (l: seq<int>, s: Acc)
    requires AreWords(a, 8) && AreWords(b, 8) && x < 15
    requires |l0| == x && Written(l0, s0, Columns(a, b))
    ensures |l| == x + 1 && Written(l, s, Columns(a, b))
  {
    var full := MulColumn(s0, a, b, x);
    var n;
    n, s := Extract(full);
    ColumnWritten(l0, s0, Columns(a, b), full, n, s);
    l := l0 + [n];
  }

  // secp256k1_scalar_mul_512: the full product.
  method Mul512(a: seq<int>, b: seq<int>) returns (l: seq<int>)
    requires AreWords(a, 8) && AreWords(b, 8)
    ensures AreWords(l, 16) && Num(l) == Num(a) * Num(b)
  {
    ghost var cols := Columns(a, b);
    var s := Acc(0, 0, 0);
    NothingWritten(cols);
    WordProduct(a[0], b[0]);
    ghost var s0 := s;
    var full := MulAddFast(s, a[0], b[0]);
    var n;
    n, s := ExtractFast(full);
    FirstColumn(a, b);
    ColumnWritten([], s0, cols, full, n, s);
    l := [] + [n];
    l, s := MulColumnOut(l, s, a, b, 1);
    l, s := MulColumnOut(l, s, a, b, 2);
    l, s := MulColumnOut(l, s, a, b, 3);
    l, s := MulColumnOut(l, s, a, b, 4);
    l, s := MulColumnOut(l, s, a, b, 5);
    l, s := MulColumnOut(l, s, a, b, 6);
    l, s := MulColumnOut(l, s, a, b, 7);
    l, s := MulColumnOut(l, s, a, b, 8);
    l, s := MulColumnOut(l, s, a, b, 9);
    l, s := MulColumnOut(l, s, a, b, 10);
    l, s := MulColumnOut(l, s, a, b, 11);
    l, s := MulColumnOut(l, s, a, b, 12);
    l, s := MulColumnOut(l, s, a, b, 13);
    l := TopColumn(l, s, a, b);
  }

  lemma {:induction false} FirstColumn(a: seq<int>, b: seq<int>)
    requires |a| == 8 && |b| == 8
    ensures Columns(a, b)[0] == a[0] * b[0]
  {
    assert RangeSum(a, b, 0, 1, 1) == 0;
    assert Column(a, b, 0) == a[0] * b[0] + RangeSum(a, b, 0, 1, 1);
  }

  lemma {:induction false} LastColumn(a: seq<int>, b: seq<int>)
    requires |a| == 8 && |b| == 8
    ensures Columns(a, b)[14] == a[7] * b[7]
  {
    assert RangeSum(a, b, 14, 8, 8) == 0;
    assert Column(a, b, 14) == a[7] * b[7] + RangeSum(a, b, 14, 8, 8);
  }

  // The top column needs no third word.
  method TopColumn(l0: seq<int>, s0: Acc, a: seq<int>, b: seq<int>) returns (l: seq<int>)
    requires AreWords(a, 8) && AreWords(b, 8)
    requires |l0| == 14 && Written(l0, s0, Columns(a, b))
    ensures AreWords(l, 16) && Num(l) == Num(a) * Num(b)
  {
    TopColumnFits(l0, s0, a, b);
    LastColumn(a, b);
    var full := MulAddFast(s0, a[7], b[7]);
    var n, s := ExtractFast(full);
    ColumnWritten(l0, s0, Columns(a, b), full, n, s);
    AllWritten(l0 + [n], s, Columns(a, b));
    ColumnsValue(a, b, 32);
    l := l0 + [n] + [s.c0];
  }

  lemma {:induction false} AllWritten(l: seq<int>, s: Acc, cols: seq<int>)
    requires Written(l, s, cols) && |l| == |cols| && s.c1 == 0
    ensures AreWords(l + [s.c0], |cols| + 1) && Num(l + [s.c0]) == Value(cols, 32)
  {
    assert cols[..|l|] == cols;
    ValueAppend(l, 32, s.c0);
  }

  lemma {:induction false} TopColumnFits(l: seq<int>, s: Acc, a: seq<int>, b: seq<int>)
    requires AreWords(a, 8) && AreWords(b, 8)
    requires |l| == 14 && Written(l, s, Columns(a, b))
    ensures s.Total() + a[7] * b[7] < W * W
  {
    var cols, p := Columns(a, b), Pow2(32 * 14);
    LastColumn(a, b);
    ColumnsValue(a, b, 32);
    assert cols == cols[..14] + [cols[14]];
    ValueAppend(cols[..14], 32, cols[14]);
    WordRadix();
    ValueBound(l, 32);
    ProductOfWords(a, b);
    MulDistrib(p, s.Total(), cols[14]);
    FactorBelow(p, s.Total() + cols[14], W * W);
  }

  lemma {:induction false} ProductOfWords(a: seq<int>, b: seq<int>)
    requires AreWords(a, 8) && AreWords(b, 8)
    ensures 0 <= Num(a) * Num(b) < Pow2(32 * 14) * (W * W)
  {
    WordRadix();
    ValueBound(a, 32);
    ValueBound(b, 32);
    ProductBelow(Num(a), Num(b), Pow2(32 * 8), Pow2(32 * 8));
    Pow2Add(32 * 8, 32 * 8);
    Pow2Add(32 * 14, 64);
    Pow2Sum(32, 32, W, W);
  }

  lemma {:induction false} FactorBelow(p: int, x: int, y: int)
    requires 0 < p && p * x < p * y
    ensures x < y
  {
    if y <= x {
      MulMonotone(y, x, p);
    }
  }

  lemma {:induction false} ProductBelow(x: int, y: int, p: int, q: int)
    requires 0 <= x < p && 0 <= y < q
    ensures 0 <= x * y < p * q
  {
    ProductBound(x, y, p - 1, q - 1);
    assert (p - 1) * (q - 1) == p * q - p - q + 1;
  }

  // The muladd2 and muladd calls of one column of a square.
  method SqrColumn(s: Acc, a: seq<int>, x: nat) returns (r: Acc)
    requires AreWords(a, 8) && x < 15
    requires s.Valid() && s.c2 == 0
    ensures r.Valid() && r.Total() == s.Total() + Column(a, a, x)
  {
    r := s;
    var i := if x < 8 then 0 else x - 7;
    SquareColumn(a, x);
    PartialColumn(a, a, x, i, x - i + 1);
    while i < x - i
      invariant 0 <= i <= x - i + 1 && x - i < 8
      invariant 0 <= PairSum(a, i, x - i) && s.Total() <= r.Total()
      invariant r.Valid() && r.Total() + PairSum(a, i, x - i) == s.Total() + Column(a, a, x)
    {
      WordProduct(a[i], a[x - i]);
      PairSumPositive(a, i + 1, x - i - 1);
      r := MulAdd2(r, a[i], a[x - i]);
      i := i + 1;
    }
    if i == x - i {
      WordProduct(a[i], a[i]);
      r := MulAdd(r, a[i], a[i]);
    }
  }

  lemma {:induction false} PairSumPositive(a: seq<int>, i: nat, j: int)
    requires AreWords(a, |a|) && j < |a|
    ensures 0 <= PairSum(a, i, j)
    decreases j - i
  {
    if i <= j {
      WordProduct(a[i], a[j]);
      PairSumPositive(a, i + 1, j - 1);
    }
  }

  method SqrColumnOut(l0: seq<int>, s0: Acc, a: seq<int>, x: nat) returns (l: seq<int>, s: Acc)
    requires AreWords(a, 8) && x < 15
    requires |l0| == x && Written(l0, s0, Columns(a, a))
    ensures |l| == x + 1 && Written(l, s, Columns(a, a))
  {
    var full := SqrColumn(s0, a, x);
    var n;
    n, s := Extract(full);
    ColumnWritten(l0, s0, Columns(a, a), full, n, s);
    l := l0 + [n];
  }

  // secp256k1_scalar_sqr_512
  method Sqr512(a: seq<int>) returns (l: seq<int>)
    requires AreWords(a, 8)
    ensures AreWords(l, 16) && Num(l) == Num(a) * Num(a)
  {
    ghost var cols := Columns(a, a);
    var s := Acc(0, 0, 0);
    NothingWritten(cols);
    WordProduct(a[0], a[0]);
    ghost var s0 := s;
    var full := MulAddFast(s, a[0], a[0]);
    var n;
    n, s := ExtractFast(full);
    FirstColumn(a, a);
    ColumnWritten([], s0, cols, full, n, s);
    l := [] + [n];
    l, s := SqrColumnOut(l, s, a, 1);
    l, s := SqrColumnOut(l, s, a, 2);
    l, s := SqrColumnOut(l, s, a, 3);
    l, s := SqrColumnOut(l, s, a, 4);
    l, s := SqrColumnOut(l, s, a, 5);
    l, s := SqrColumnOut(l, s, a, 6);
    l, s := SqrColumnOut(l, s, a, 7);
    l, s := SqrColumnOut(l, s, a, 8);
    l, s := SqrColumnOut(l, s, a, 9);
    l, s := SqrColumnOut(l, s, a, 10);
    l, s := SqrColumnOut(l, s, a, 11);
    l, s := SqrColumnOut(l, s, a, 12);
    l, s := SqrColumnOut(l, s, a, 13);
    l := TopColumn(l, s, a, a);
  }
}
