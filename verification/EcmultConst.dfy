// Constant-time multiplication of one point: always the same number of
// doublings and additions, table entries picked by scanning the whole table.
module EcmultConst {
  import opened Arith
  import opened Groups
  import opened Recoding
  import opened Curve
  import opened Jacobian
  import opened Tables
  import opened OddTables
  import opened StraussJacobian

  const W: nat := Strauss.WINDOW_A - 1

  // ECMULT_CONST_TABLE_GET_GE: every entry is looked at, the wanted one is kept.
  method SelectOdd(pre: seq<Ge>, n: int) returns (r: Ge)
    requires n % 2 == 1 && -2 * |pre| < n < 2 * |pre|
    requires forall m :: 0 <= m < |pre| ==> !pre[m].infinity
    ensures r == TableGetGe(pre, n)
  {
    var absN := n * (if n > 0 then 1 else -1);
    var idx := absN / 2;
    r := Ge(0, 0, false);
    for m := 0 to |pre|
      invariant !r.infinity && (idx < m ==> r == pre[idx])
    {
      if m == idx {
        r := Ge(pre[m].x, pre[m].y, r.infinity);
      }
    }
    var negY := Neg(r.y);
    if n != absN {
      r := r.(y := negY);
    }
  }

  // Eight finite entries over the denominator z, the odd multiples of p.
  ghost predicate IsWindowTable(g: Group<CurvePoint>, pre: seq<Ge>, z: int, p: CurvePoint) {
    && |pre| == 8 && AreOver(pre, z, OddMultiples(g, p, 8))
    && Strauss.IsOddTable(g, OddMultiples(g, p, 8), p)
    && forall m :: 0 <= m < 8 ==> !pre[m].infinity
  }

  // One window: four doublings and one addition.
  method NextWindowPoint(ghost g: Group<CurvePoint>, pre: seq<Ge>, ghost z: int, ghost p: CurvePoint, d: seq<int>, i: nat, r0: Gej)
    returns (r: Gej)
    requires Fermat() && IsCurveGroup(g) && !Eq(z, 0) && IsWindowTable(g, pre, z, p)
    requires i < |d| && IsConstDigit(d[i], W)
    requires Represents(r0, z, g.Times(Value(d[i + 1..], W), p))
    ensures Represents(r, z, g.Times(Value(d[i..], W), p))
  {
    ghost var v := Value(d[i + 1..], W);
    r := DoubleWindow(g, z, p, v, r0);
    var n := d[i];
    DigitRange(n);
    var tmpa := SelectOdd(pre, n);
    TableGetGeIsMultiple(g, pre, z, OddMultiples(g, p, 8), p, n);
    ValueStep(d, W, i);
    TimesAdd(g, Pow2(W) * v, n, p);
    r := GejAddGe(g, r, tmpa, z, g.Times(Pow2(W) * v, p), g.Times(n, p));
  }

  method DoubleWindow(ghost g: Group<CurvePoint>, ghost z: int, ghost p: CurvePoint, ghost v: int, r0: Gej) returns (r: Gej)
    requires Fermat() && IsCurveGroup(g) && Represents(r0, z, g.Times(v, p))
    ensures Represents(r, z, g.Times(Pow2(W) * v, p))
  {
    r := r0;
    for j := 0 to W
      invariant Represents(r, z, g.Times(Pow2(j) * v, p))
    {
      TimesDouble(g, Pow2(j) * v, p);
      assert Pow2(j + 1) * v == 2 * (Pow2(j) * v);
      var rzr;
      r, rzr := GejDouble(g, r, z, g.Times(Pow2(j) * v, p));
    }
  }

  lemma {:induction false} DigitRange(n: int)
    requires IsConstDigit(n, W)
    ensures -16 < n < 16 && n % 2 == 1
  {
    assert Pow2(4) == 16 by {
      assert Pow2(2) == 4;
    }
  }

  // Lines 177-209: the top digit is looked up directly, the others follow downwards.
  method Windows(ghost g: Group<CurvePoint>, pre: seq<Ge>, ghost z: int, ghost p: CurvePoint, d: seq<int>) returns (r: Gej)
    requires Fermat() && IsCurveGroup(g) && !Eq(z, 0) && IsWindowTable(g, pre, z, p)
    requires |d| > 0 && forall i :: 0 <= i < |d| ==> IsConstDigit(d[i], W)
    ensures Represents(r, z, g.Times(Value(d, W), p))
  {
    var i := |d| - 1;
    DigitRange(d[i]);
    var tmpa := SelectOdd(pre, d[i]);
    TableGetGeIsMultiple(g, pre, z, OddMultiples(g, p, 8), p, d[i]);
    ValueStep(d, W, i);
    assert Value(d[i + 1..], W) == 0;
    r := Gej(tmpa.x, tmpa.y, 1, tmpa.infinity);
    while i > 0
      invariant 0 <= i < |d|
      invariant Represents(r, z, g.Times(Value(d[i..], W), p))
    {
      i := i - 1;
      r := NextWindowPoint(g, pre, z, p, d, i, r);
    }
    assert d[0..] == d;
  }

  // Lines 215-244: the negated correction is a, or 2a when the skew is 2.
  method Correct(ghost g: Group<CurvePoint>, a: Ge, skew: int, r0: Gej, ghost value: int, ghost p: CurvePoint) returns (r: Gej)
    requires Fermat() && IsCurveGroup(g) && (skew == 1 || skew == 2)
    requires RepresentsAffine(a, 1, p) && !a.infinity && Represents(r0, 1, g.Times(value, p))
    ensures Represents(r, 1, g.Times(value - skew, p))
  {
    var tmpj, rzr := GejDouble(g, Gej(a.x, a.y, 1, false), 1, p);
    var double;
    double, tmpj := GeSetGejVar(tmpj, g.add(p, p));
    ThroughStorage(a, p);
    ThroughStorage(double, g.add(p, p));
    var stored := ToStorage(a);
    if skew == 2 {
      stored := ToStorage(double);
    }
    TimesOne(g, p);
    MirroredIsNeg(g, FromStorage(stored), 1, g.Times(skew, p));
    TimesNeg(g, skew, p);
    TimesAdd(g, value, -skew, p);
    r := GejAddGe(g, r0, Mirrored(FromStorage(stored)), 1, g.Times(value, p), g.Times(-skew, p));
  }

  // secp256k1_ecmult_const: q times a. The size must cover the scalar, as the
  // recoding demands; 256 covers every scalar.
  method EcmultConst(ghost g: Group<CurvePoint>, a: Ge, q: int, size: nat, ghost p: CurvePoint) returns (r: Gej)
    requires Fermat() && FermatN() && IsCurveGroup(g) && RepresentsAffine(a, 1, p) && !a.infinity
    requires 0 <= q < N && 0 < size <= 256
    requires size == 256 || ConstSetup(q).0 < Pow2(W * (WindowCount(size, W) + 1))
    ensures Represents(r, 1, g.Times(q, p))
  {
    var wnaf := new int[1 + WindowCount(256, W)];
    var skew := WnafConst(wnaf, q, W, size);
    var pre, z := WindowTable(g, a, p);
    var d := wnaf[..WindowCount(size, W) + 1];
    r := Windows(g, pre, z, p, d);
    Unscaled(r, z, g.Times(Value(d, W), p));
    r := r.(z := Mul(r.z, z));
    r := Correct(g, a, skew, r, Value(d, W), p);
    CongIntro(Value(d, W) - skew, q, if IsHigh(q) then -1 else 0, N);
    TimesCong(g, Value(d, W) - skew, q, p, N);
  }

  // Lines 161-165: the eight odd multiples over one denominator.
  method WindowTable(ghost g: Group<CurvePoint>, a: Ge, ghost p: CurvePoint) returns (pre: seq<Ge>, z: int)
    requires Fermat() && FermatN() && IsCurveGroup(g) && RepresentsAffine(a, 1, p) && !a.infinity
    ensures !Eq(z, 0) && IsWindowTable(g, pre, z, p)
  {
    var preA := new Ge[8](_ => a);
    FinitePointsHaveOrderN(g, p);
    z := GlobalzWindowA(g, preA, Gej(a.x, a.y, 1, false), p);
    pre := preA[..];
    assert Scaled(pre[0].x, pre[0].y, z, Odd(g, p, 0));
  }
}
