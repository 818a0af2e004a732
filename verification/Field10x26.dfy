// Field elements modulo P = 2^256 - 2^32 - 977 in ten limbs of 26 bits:
// multiplication and squaring with interleaved reduction.
module Field10x26 {
  import opened Arith
  import opened Recoding
  import opened Limbs
  import opened Words

  const P: int := 0xFFFFFFFFFFFFFFFFFFFFFFFFFFFFFFFFFFFFFFFFFFFFFFFFFFFFFFFEFFFFFC2F
  const B: int := 0x4000000
  const M: int := 0x3FFFFFF
  const M9: int := 0x03FFFFF
  const R0: int := 0x3D10
  const R1: int := 0x400

  // What the ten limbs stand for.
  ghost function Num(a: seq<int>): int { Value(a, 26) }

  // secp256k1_fe_verify for an element that need not be normalized.
  ghost predicate HasMagnitude(a: seq<int>, m: nat) {
    && |a| == 10
    && (forall i :: 0 <= i < 9 ==> 0 <= a[i] <= M * (2 * m))
    && 0 <= a[9] <= M9 * (2 * m)
  }

  // The operands of a product: 30 bits in each limb, 26 in the top one.
  ghost predicate IsFactor(a: seq<int>) {
    |a| == 10 && (forall i :: 0 <= i < 10 ==> 0 <= a[i] <= 0x3FFFFFFF) && a[9] <= M
  }

  lemma {:induction false} MagnitudeIsFactor(a: seq<int>, m: nat)
    requires HasMagnitude(a, m) && m <= 8
    ensures IsFactor(a)
  {
  }

  const COLUMN_MAX: int := 0xA000_0000_0000_0000
  const TOP_MAX: int := 0x10_0000_0000_0000

  // The nineteen columns of a product, small enough for 64-bit accumulators.
  ghost predicate AreColumns(p: seq<int>) {
    && |p| == 19
    && (forall x :: 0 <= x < 19 ==> 0 <= p[x] <= COLUMN_MAX)
    && p[18] <= TOP_MAX
  }

  lemma {:induction false} ColumnsAreSmall(a: seq<int>, b: seq<int>)
    requires IsFactor(a) && IsFactor(b)
    ensures AreColumns(Columns(a, b))
  {
    forall x | 0 <= x < 19
      ensures 0 <= Columns(a, b)[x] <= COLUMN_MAX
    {
      RangeSumBound(a, b, x, if x < 10 then 0 else x - 9, if x < 10 then x + 1 else 10, 0x3FFFFFFF);
    }
    ProductBound(a[9], b[9], M, M);
    assert Columns(a, b)[18] == Column(a, b, 18) == a[9] * b[9] + 0;
  }

  // ---- the reduction shared by fe_mul_inner and fe_sqr_inner ----

  // What has been taken in before step k: columns below k, column 9 and the k columns above it.
  ghost function Taken(p: seq<int>, k: nat): int
    requires |p| == 19 && k <= 9
  {
    Value(p[..k], 26) + Pow2(26 * 9) * p[9] + Pow2(26 * 10) * Value(p[10..10 + k], 26)
  }

  // The accumulators c and d, the limbs t and t9 before step k.
  ghost predicate Reducing(p: seq<int>, t: seq<int>, t9: int, c: int, d: int) {
    && AreColumns(p) && |t| <= 9
    && (forall i :: 0 <= i < |t| ==> 0 <= t[i] <= M)
    && 0 <= t9 <= M && 0 <= c < 0x40_0000_0000 && 0 <= d < 0x40_0000_0000
    && (|t| == 9 ==> d <= 0x4001000)
    && Cong(Held(t, t9, c, d), Taken(p, |t|), P)
  }

  // [d 0 ... 0 t9 0 ... 0 c t]
  ghost function Held(t: seq<int>, t9: int, c: int, d: int): int {
    Value(t, 26) + Pow2(26 * |t|) * c + Pow2(26 * 9) * t9 + Pow2(26 * 10 + 26 * |t|) * d
  }

  // One step: the next low and high columns come in, one limb of the high part
  // is folded down, one limb of the result leaves.
  method Step(p: seq<int>, t0: seq<int>, ghost t9: int, k: nat, c0: int, d0: int) returns (t: seq<int>, c: int, d: int)
    requires |t0| == k < 9 && Reducing(p, t0, t9, c0, d0)
    ensures |t| == k + 1 && Reducing(p, t, t9, c, d)
  {
    c := W64(c0 + p[k]);
    d := W64(d0 + p[k + 10]);
    assert c == c0 + p[k] && d == d0 + p[k + 10];
    var u := d % B;
    d := d / B;
    ghost var c1 := c;
    c := W64(c + W64(u * R0));
    assert c == c1 + u * R0;
    var tk := c % B;
    c := c / B;
    ghost var c2 := c;
    c := W64(c + W64(u * R1));
    assert c == c2 + u * R1;
    StepHeld(p, t0, t9, c0, d0, u, c, d, tk);
    t := t0 + [tk];
    if k == 8 {
      TopAccumulator(d, u, d0, p[18]);
    }
  }

  lemma {:induction false} StepHeld(p: seq<int>, t: seq<int>, t9: int, c0: int, d0: int, u: int, c: int, d: int, tk: int)
    requires |p| == 19 && |t| < 9 && Cong(Held(t, t9, c0, d0), Taken(p, |t|), P)
    requires d * B + u == d0 + p[|t| + 10]
    requires tk + B * (c - u * R1) == c0 + p[|t|] + u * R0
    ensures Cong(Held(t + [tk], t9, c, d), Taken(p, |t| + 1), P)
  {
    var k := |t|;
    var a, q := Pow2(26 * k), Pow2(26 * 10 + 26 * k);
    Radix();
    Pow2Add(26 * 10, 26 * k);
    HeldNext(t, t9, c, d, tk);
    TakenNext(p, k);
    StepAlgebra(a, q, u, d, d0, p[k + 10], c0, p[k], c, tk);
    StepCong(Held(t, t9, c0, d0), Held(t + [tk], t9, c, d), Taken(p, k), a * p[k] + q * p[k + 10], a * u);
  }

  lemma {:induction false} TopAccumulator(d: int, u: int, d0: int, top: int)
    requires d * B + u == d0 + top && 0 <= u
    requires d0 < 0x40_0000_0000 && top <= TOP_MAX
    ensures d <= 0x4001000
  {
  }

  lemma {:induction false} StepCong(held: int, held': int, taken: int, more: int, k: int)
    requires Cong(held, taken, P)
    requires held' == held + more - 16 * k * P
    ensures Cong(held', taken + more, P)
  {
    CongAdd(held, taken, more, more, P);
    CongIntro(held', held + more, -16 * k, P);
  }

  lemma {:induction false} HeldNext(t: seq<int>, t9: int, c: int, d: int, tk: int)
    requires Pow2(26) == B
    ensures var a, q := Pow2(26 * |t|), Pow2(26 * 10 + 26 * |t|);
      Held(t + [tk], t9, c, d) == Value(t, 26) + a * tk + (a * B) * c + Pow2(26 * 9) * t9 + (q * B) * d
  {
    var k := |t|;
    ValueAppend(t, 26, tk);
    Pow2Add(26 * k, 26);
    Pow2Add(26 * 10 + 26 * k, 26);
    assert 26 * (k + 1) == 26 * k + 26;
  }

  lemma {:induction false} TakenNext(p: seq<int>, k: nat)
    requires |p| == 19 && k < 9
    ensures Taken(p, k + 1) == Taken(p, k) + Pow2(26 * k) * p[k] + Pow2(26 * 10 + 26 * k) * p[k + 10]
  {
    LowColumns(p, k);
    HighColumns(p, k);
    Pow2Add(26 * 10, 26 * k);
    TakenStep(Value(p[..k], 26), Pow2(26 * k), p[k], Pow2(26 * 9) * p[9], Pow2(26 * 10), Value(p[10..10 + k], 26), p[k + 10],
              Pow2(26 * 10 + 26 * k));
  }

  lemma {:induction false} LowColumns(p: seq<int>, k: nat)
    requires |p| == 19 && k < 9
    ensures Value(p[..k + 1], 26) == Value(p[..k], 26) + Pow2(26 * k) * p[k]
  {
    assert p[..k + 1] == p[..k] + [p[k]];
    ValueAppend(p[..k], 26, p[k]);
  }

  lemma {:induction false} HighColumns(p: seq<int>, k: nat)
    requires |p| == 19 && k < 9
    ensures Value(p[10..10 + (k + 1)], 26) == Value(p[10..10 + k], 26) + Pow2(26 * k) * p[k + 10]
  {
    assert p[10..10 + (k + 1)] == p[10..10 + k] + [p[k + 10]];
    ValueAppend(p[10..10 + k], 26, p[k + 10]);
  }

  lemma {:induction false} TakenStep(v: int, a: int, x: int, mid: int, k: int, w: int, y: int, q: int)
    requires q == k * a
    ensures (v + a * x) + mid + k * (w + a * y) == (v + mid + k * w) + a * x + q * y
  {
    MulDistrib(k, w, a * y);
    MulAssoc(k, a, y);
  }

  // 2^260 folds to 2^36 + 15632.
  lemma {:induction false} Radix()
    ensures Pow2(26) == B
    ensures Pow2(26 * 10) == 16 * P + R1 * B + R0
  {
    Pow2Of255();
    Pow2Sum(255, 5, Pow2(255), 32);
    assert Pow2(13) == 0x2000;
    Pow2Sum(13, 13, 0x2000, 0x2000);
  }

  lemma {:induction false} StepAlgebra(a: int, q: int, u: int, d: int, d0: int, high: int, c0: int, low: int, c: int, t: int)
    requires q == (16 * P + R1 * B + R0) * a
    requires d * B + u == d0 + high
    requires t + B * (c - u * R1) == c0 + low + u * R0
    ensures a * t + (a * B) * c + (q * B) * d == a * c0 + q * d0 + a * low + q * high - 16 * (a * u) * P
  {
    assert q * (d * B + u) == q * (d0 + high);
    assert a * (t + B * (c - u * R1)) == a * (c0 + low + u * R0);
    assert q * u == 16 * (a * u) * P + R1 * B * (a * u) + R0 * (a * u);
  }

  lemma {:induction false} StartReducing(p: seq<int>, t9: int, d: int)
    requires AreColumns(p) && 0 <= t9 <= M && 0 <= d && t9 + B * d == p[9]
    ensures Reducing(p, [], t9, 0, d)
  {
    Radix();
    assert p[..0] == [] && p[10..10] == [];
    Pow2Add(26 * 9, 26);
    StartAlgebra(Pow2(26 * 9), t9, d, p[9]);
  }

  lemma {:induction false} StartAlgebra(a: int, t9: int, d: int, p9: int)
    requires t9 + B * d == p9
    ensures a * t9 + (a * B) * d == a * p9
  {
    MulDistrib(a, t9, B * d);
    MulAssoc(a, B, d);
  }

  // Limb 9 leaves; c becomes what stands above 2^256.
  method FoldHigh(t9: int, c0: int, d0: int) returns (c: int, r9: int)
    requires 0 <= t9 <= M && 0 <= c0 < 0x40_0000_0000 && 0 <= d0 <= 0x4001000
    ensures 0 <= r9 <= M9 && 0 <= c < 0x400_0000_0000
    ensures c0 + d0 * R0 + t9 == r9 + 0x400000 * (c - d0 * (R1 * 16))
  {
    c := W64(c0 + W64(W64(d0 * R0) + t9));
    r9 := c % 0x400000;
    c := c / 0x400000;
    c := W64(c + W64(d0 * (R1 * 16)));
  }

  // What stands above 2^256 is folded into the lowest limbs.
  method FoldLow(c: int, t0: int, t1: int, t2: int) returns (r0: int, r1: int, r2: int)
    requires 0 <= c < 0x400_0000_0000 && 0 <= t0 <= M && 0 <= t1 <= M && 0 <= t2 <= M
    ensures 0 <= r0 <= M && 0 <= r1 <= M && 0 <= r2 <= 2 * M
    ensures r0 + B * r1 + B * B * r2 == c * 977 + t0 + B * (c * 64 + t1) + B * B * t2
  {
    var d := W64(W64(c * (R0 / 16)) + t0);
    assert d == c * 977 + t0;
    r0 := d % B;
    d := d / B;
    ghost var d1 := d;
    d := W64(d + W64(W64(c * (R1 / 16)) + t1));
    assert d == d1 + c * 64 + t1;
    r1 := d % B;
    d := d / B;
    r2 := W64(d + t2);
  }

  // Limbs 0, 1, 2 and 9 take what is left above 2^256.
  method Fold(p: seq<int>, t: seq<int>, t9: int, c0: int, d0: int) returns (r: seq<int>)
    requires |t| == 9 && Reducing(p, t, t9, c0, d0)
    ensures HasMagnitude(r, 1) && Cong(Num(r), Value(p, 26), P)
  {
    var c, r9 := FoldHigh(t9, c0, d0);
    var r0, r1, r2 := FoldLow(c, t[0], t[1], t[2]);
    r := [r0, r1, r2, t[3], t[4], t[5], t[6], t[7], t[8], r9];
    FoldSound(p, t, t9, c0, d0, c, r);
  }

  lemma {:induction false} FoldSound(p: seq<int>, t: seq<int>, t9: int, c0: int, d0: int, c: int, r: seq<int>)
    requires |p| == 19 && |t| == 9 && |r| == 10 && r[3..9] == t[3..]
    requires Cong(Held(t, t9, c0, d0), Taken(p, 9), P)
    requires r[0] + B * r[1] + B * B * r[2] == c * 977 + t[0] + B * (c * 64 + t[1]) + B * B * t[2]
    requires c0 + d0 * R0 + t9 == r[9] + 0x400000 * (c - d0 * (R1 * 16))
    ensures Cong(Num(r), Value(p, 26), P)
  {
    FoldHeld(t, t9, c0, d0, c, r);
    AllTaken(p);
    FoldCong(Held(t, t9, c0, d0), Num(r), Value(p, 26), c + 16 * (Pow2(26 * 9) * d0));
  }

  lemma {:induction false} FoldCong(held: int, num: int, value: int, k: int)
    requires Cong(held, value, P) && num == held - k * P
    ensures Cong(num, value, P)
  {
    CongIntro(num, held, -k, P);
  }

  lemma {:induction false} AllTaken(p: seq<int>)
    requires |p| == 19
    ensures Taken(p, 9) == Value(p, 26)
  {
    assert p == (p[..9] + [p[9]]) + p[10..19];
    ValueConcat(p[..9] + [p[9]], p[10..19], 26);
    ValueAppend(p[..9], 26, p[9]);
  }

  lemma {:induction false} FoldHeld(t: seq<int>, t9: int, c0: int, d0: int, c: int, r: seq<int>)
    requires |t| == 9 && |r| == 10 && r[3..9] == t[3..]
    requires r[0] + B * r[1] + B * B * r[2] == c * 977 + t[0] + B * (c * 64 + t[1]) + B * B * t[2]
    requires c0 + d0 * R0 + t9 == r[9] + 0x400000 * (c - d0 * (R1 * 16))
    ensures Num(r) == Held(t, t9, c0, d0) - (c + 16 * (Pow2(26 * 9) * d0)) * P
  {
    var z, s := Pow2(26 * 9), Value(t[3..], 26);
    FoldWeights();
    LowThree(t);
    NumOf(r, s);
    FoldAlgebra(z, Pow2(156), s, t[0], t[1], t[2], t9, c0, d0, c, r[0], r[1], r[2], r[9]);
  }

  lemma {:induction false} NumOf(r: seq<int>, s: int)
    requires |r| == 10 && Pow2(26) == B && s == Value(r[3..9], 26)
    ensures Num(r) == r[0] + B * r[1] + B * B * r[2] + B * B * B * (s + Pow2(156) * r[9])
  {
    LowThree(r);
    assert r[3..] == r[3..9] + [r[9]];
    ValueAppend(r[3..9], 26, r[9]);
  }

  lemma {:induction false} FoldWeights()
    ensures Pow2(26) == B
    ensures Pow2(26 * 9) == (B * B * B) * Pow2(156)
    ensures Pow2(26 * 9) * B == 16 * P + R1 * B + R0
    ensures Pow2(26 * 10 + 26 * 9) == (16 * P + R1 * B + R0) * Pow2(26 * 9)
  {
    Radix();
    Pow2Add(26 * 9, 26);
    Pow2Add(26 * 10, 26 * 9);
    Pow2Sum(26, 26, B, B);
    Pow2Sum(52, 26, B * B, B);
    Pow2Sum(78, 156, B * B * B, Pow2(156));
  }

  lemma {:induction false} LowThree(d: seq<int>)
    requires |d| >= 3 && Pow2(26) == B
    ensures Value(d, 26) == d[0] + B * d[1] + B * B * d[2] + B * B * B * Value(d[3..], 26)
  {
    assert d[1..][1..] == d[2..] && d[2..][1..] == d[3..];
    assert Value(d[2..], 26) == d[2] + B * Value(d[3..], 26);
    assert Value(d[1..], 26) == d[1] + B * Value(d[2..], 26);
  }

  lemma {:induction false} FoldAlgebra(z: int, y: int, s: int, t0: int, t1: int, t2: int, t9: int, c0: int, d0: int,
                                      c: int, r0: int, r1: int, r2: int, r9: int)
    requires z == (B * B * B) * y && z * B == 16 * P + R1 * B + R0
    requires r0 + B * r1 + B * B * r2 == c * 977 + t0 + B * (c * 64 + t1) + B * B * t2
    requires c0 + d0 * R0 + t9 == r9 + 0x400000 * (c - d0 * (R1 * 16))
    ensures r0 + B * r1 + B * B * r2 + B * B * B * (s + y * r9)
         == t0 + B * t1 + B * B * t2 + B * B * B * s + z * c0 + z * t9 + ((16 * P + R1 * B + R0) * z) * d0
            - (c + 16 * (z * d0)) * P
  {
    assert z * (c0 + d0 * R0 + t9) == z * (r9 + 0x400000 * (c - d0 * (R1 * 16)));
    assert z * 0x400000 == P + 64 * B + 977;
    assert (z * 0x400000) * c == (P + 64 * B + 977) * c;
    assert B * B * B * (y * r9) == z * r9;
  }

  // The reduction of nineteen columns to ten limbs.
  method ReduceColumns(p: seq<int>) returns (r: seq<int>)
    requires AreColumns(p)
    ensures HasMagnitude(r, 1) && Cong(Num(r), Value(p, 26), P)
  {
    var d := W64(p[9]);
    var t9 := d % B;
    d := d / B;
    StartReducing(p, t9, d);
    var c := 0;
    var t := [];
    t, c, d := Step(p, t, t9, 0, c, d);
    t, c, d := Step(p, t, t9, 1, c, d);
    t, c, d := Step(p, t, t9, 2, c, d);
    t, c, d := Step(p, t, t9, 3, c, d);
    t, c, d := Step(p, t, t9, 4, c, d);
    t, c, d := Step(p, t, t9, 5, c, d);
    t, c, d := Step(p, t, t9, 6, c, d);
    t, c, d := Step(p, t, t9, 7, c, d);
    t, c, d := Step(p, t, t9, 8, c, d);
    r := Fold(p, t, t9, c, d);
  }

  // secp256k1_fe_mul_inner
  method MulInner(a: seq<int>, b: seq<int>) returns (r: seq<int>)
    requires IsFactor(a) && IsFactor(b)
    ensures HasMagnitude(r, 1) && Cong(Num(r), Num(a) * Num(b), P)
  {
    ColumnsAreSmall(a, b);
    r := ReduceColumns(Columns(a, b));
    ColumnsValue(a, b, 26);
  }

  // (a[i]*2) * a[j] + ..., the doubling done in 32 bits.
  function DoubledPairs(a: seq<int>, i: nat, j: int): int
    requires j < |a|
    decreases j - i
  {
    if i > j then 0
    else if i == j then a[i] * a[i]
    else W32(a[i] * 2) * a[j] + DoubledPairs(a, i + 1, j - 1)
  }

  function DoubledColumn(a: seq<int>, x: nat): int
    requires |a| == 10 && x < 19
  {
    DoubledPairs(a, if x < 10 then 0 else x - 9, if x < 10 then x else 9)
  }

  lemma {:induction false} DoubledPairsAre(a: seq<int>, i: nat, j: int)
    requires IsFactor(a) && j < 10
    ensures DoubledPairs(a, i, j) == PairSum(a, i, j)
    decreases j - i
  {
    if i < j {
      DoubledPairsAre(a, i + 1, j - 1);
      MulAssoc(2, a[i], a[j]);
    }
  }

  // secp256k1_fe_sqr_inner: equal products are taken once, with a doubled factor.
  method SqrInner(a: seq<int>) returns (r: seq<int>)
    requires IsFactor(a)
    ensures HasMagnitude(r, 1) && Cong(Num(r), Num(a) * Num(a), P)
  {
    var p := seq(19, x requires 0 <= x < 19 => DoubledColumn(a, x));
    forall x | 0 <= x < 19
      ensures p[x] == Columns(a, a)[x]
    {
      SquareColumn(a, x);
      DoubledPairsAre(a, if x < 10 then 0 else x - 9, if x < 10 then x else 9);
    }
    assert p == Columns(a, a);
    ColumnsAreSmall(a, a);
    r := ReduceColumns(p);
    ColumnsValue(a, a, 26);
  }

  // secp256k1_fe_mul: r may be either operand.
  method FeMul(r: array<int>, a: array<int>, b: array<int>, ghost m: nat, ghost k: nat)
    requires HasMagnitude(a[..], m) && m <= 8 && HasMagnitude(b[..], k) && k <= 8 && r.Length == 10
    modifies r
    ensures HasMagnitude(r[..], 1) && Cong(Num(r[..]), old(Num(a[..]) * Num(b[..])), P)
  {
    var t := MulInner(a[..], b[..]);
    Store(r, t);
  }

  // secp256k1_fe_sqr
  method FeSqr(r: array<int>, a: array<int>, ghost m: nat)
    requires HasMagnitude(a[..], m) && m <= 8 && r.Length == 10
    modifies r
    ensures HasMagnitude(r[..], 1) && Cong(Num(r[..]), old(Num(a[..]) * Num(a[..])), P)
  {
    var t := SqrInner(a[..]);
    Store(r, t);
  }
}
