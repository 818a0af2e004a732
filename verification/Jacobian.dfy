// Points in Jacobian coordinates: every formula of the group code computes the
// chord and tangent law, on the curve itself or on a scaled copy of it.
module Jacobian {
  import opened Arith
  import opened Groups
  import opened Curve

  // secp256k1_gej and secp256k1_ge
  datatype Gej = Gej(x: int, y: int, z: int, infinity: bool)
  datatype Ge = Ge(x: int, y: int, infinity: bool)

  // x / w^2 and y / w^3 are the coordinates of p.
  ghost predicate Scaled(x: int, y: int, w: int, p: Point) {
    && p.Affine? && !Eq(w, 0)
    && Eq(x, p.x * (w * w))
    && Eq(y, p.y * (w * (w * w)))
  }

  // j stands for p once its z is multiplied by u; u is 1 on the curve itself.
  ghost predicate Represents(j: Gej, u: int, p: Point) {
    if j.infinity then p == Infinity else Scaled(j.x, j.y, j.z * u, p)
  }

  ghost predicate RepresentsAffine(b: Ge, u: int, p: Point) {
    if b.infinity then p == Infinity else Scaled(b.x, b.y, u, p)
  }

  // What is represented is determined.
  lemma {:induction false} ScaledUnique(x: int, y: int, w: int, p: CurvePoint, q: CurvePoint)
    requires Fermat() && Scaled(x, y, w, p) && Scaled(x, y, w, q)
    ensures p == q
  {
    CancelSquare(p.x, q.x, x, w);
    CancelCube(p.y, q.y, y, w);
  }

  lemma {:induction false} CancelSquare(a: int, b: int, x: int, w: int)
    requires Fermat() && !Eq(w, 0) && 0 <= a < P && 0 <= b < P && Eq(x, a * (w * w)) && Eq(x, b * (w * w))
    ensures a == b
  {
    NonzeroProduct(w, w);
    Cancel(a, b, w * w);
    SameResidue(a, b);
  }

  lemma {:induction false} CancelCube(a: int, b: int, y: int, w: int)
    requires Fermat() && !Eq(w, 0) && 0 <= a < P && 0 <= b < P && Eq(y, a * (w * (w * w))) && Eq(y, b * (w * (w * w)))
    ensures a == b
  {
    NonzeroProduct(w, w);
    NonzeroProduct(w, w * w);
    Cancel(a, b, w * (w * w));
    SameResidue(a, b);
  }

  // ---- doubling ----

  // secp256k1_gej_double_var, with the ratio of the z coordinates.
  method GejDouble(ghost g: Group<CurvePoint>, a: Gej, ghost u: int, ghost p: CurvePoint) returns (r: Gej, rzr: int)
    requires Fermat() && IsCurveGroup(g) && Represents(a, u, p)
    ensures Represents(r, u, g.add(p, p)) && r.infinity == a.infinity
    ensures !a.infinity ==> Eq(r.z, a.z * rzr)
  {
    if a.infinity {
      r := a;
      rzr := 1;
      return;
    }
    rzr := Mul(a.y, 2);
    var z := Mul(Mul(a.z, a.y), 2);
    var t1 := Mul(Mul(a.x, a.x), 3);
    var t2 := Mul(t1, t1);
    var t3 := Mul(Mul(a.y, a.y), 2);
    var t4 := Mul(Mul(t3, t3), 2);
    t3 := Mul(t3, a.x);
    var x := Add(Neg(Mul(t3, 4)), t2);
    t2 := Neg(t2);
    t3 := Add(Mul(t3, 6), t2);
    var y := Add(Mul(t1, t3), Neg(t4));
    r := Gej(x, y, z, false);
    DoubleZ(a);
    NoPointOfOrderTwo(g, p);
    assert LawAt(g, p, p);
    ghost var l :| Tangent(p, g.add(p, p), l);
    DoubleXY(a, u, p, g.add(p, p), l, z);
  }

  lemma {:induction false} DoubleZ(a: Gej)
    ensures Eq(Mul(Mul(a.z, a.y), 2), a.z * Mul(a.y, 2))
    ensures Eq(Mul(Mul(a.z, a.y), 2), 2 * (a.z * a.y))
  {
    TwiceProduct(a.z, a.y);
  }

  lemma {:induction false} TwiceProduct(z: int, y: int)
    ensures Eq(Mul(Mul(z, y), 2), z * Mul(y, 2)) && Eq(Mul(Mul(z, y), 2), 2 * (z * y))
  {
    var d := z * y;
    EqMul(z, z, y, y);
    EqMul(Mul(z, y), d, 2, 2);
    EqMul(y, y, 2, 2);
    EqMul(z, z, Mul(y, 2), y * 2);
    assert z * (y * 2) == d * 2;
  }

  lemma {:induction false} DoubleXY(a: Gej, u: int, p: CurvePoint, s: CurvePoint, l: int, z: int)
    requires Fermat() && Scaled(a.x, a.y, a.z * u, p) && Tangent(p, s, l) && p.y != 0
    requires Eq(z, 2 * (a.z * a.y))
    ensures var t1 := Mul(Mul(a.x, a.x), 3);
      var t2 := Mul(t1, t1);
      var t3 := Mul(Mul(a.y, a.y), 2);
      var t4 := Mul(Mul(t3, t3), 2);
      var t3' := Mul(t3, a.x);
      Scaled(Add(Neg(Mul(t3', 4)), t2), Add(Mul(t1, Add(Mul(t3', 6), Neg(t2))), Neg(t4)), z * u, s)
  {
    var w := a.z * u;
    var v := 2 * (p.y * (w * (w * (w * w))));
    var t1 := Mul(Mul(a.x, a.x), 3);
    var t2 := Mul(t1, t1);
    var t3 := Mul(Mul(a.y, a.y), 2);
    var t4 := Mul(Mul(t3, t3), 2);
    var t3' := Mul(t3, a.x);
    DoubledScale(a, u, w, p, z, v);
    DoubleSlope(a.x, w, p, l, v, t1);
    DoubleProducts(a.x, a.y, w, p, v, t3, t4, t3');
    EqMul(t1, l * v, t1, l * v);
    DoubleX(t2, t3', l, v, p, s);
    DoubleY(t1, t2, t3', t4, l, v, p, s);
    Rescale(Add(Neg(Mul(t3', 4)), t2), Add(Mul(t1, Add(Mul(t3', 6), Neg(t2))), Neg(t4)), v, z * u, s);
  }

  // The scale may be replaced by an equal residue.
  lemma {:induction false} Rescale(x: int, y: int, v: int, w: int, s: Point)
    requires Scaled(x, y, v, s) && Eq(v, w)
    ensures Scaled(x, y, w, s)
  {
    EqMul(v, w, v, w);
    EqMul(v, w, v * v, w * w);
    EqMul(s.x, s.x, v * v, w * w);
    EqMul(s.y, s.y, v * (v * v), w * (w * w));
  }

  lemma {:induction false} DoubledScale(a: Gej, u: int, w: int, p: CurvePoint, z: int, v: int)
    requires Fermat() && w == a.z * u && Scaled(a.x, a.y, w, p) && p.y != 0
    requires Eq(z, 2 * (a.z * a.y)) && v == 2 * (p.y * (w * (w * (w * w))))
    ensures Eq(v, z * u) && !Eq(v, 0)
  {
    EqMul(z, 2 * (a.z * a.y), u, u);
    EqMul(a.y, p.y * (w * (w * w)), 2 * w, 2 * w);
    DoubledScaleTerms(a.z, u, a.y, p.y);
    NonzeroFourth(p.y, w);
  }

  lemma {:induction false} DoubledScaleTerms(z: int, u: int, y: int, py: int)
    ensures var w := z * u;
      && 2 * (z * y) * u == y * (2 * w)
      && py * (w * (w * w)) * (2 * w) == 2 * (py * (w * (w * (w * w))))
  {
  }

  lemma {:induction false} NonzeroFourth(y: int, w: int)
    requires Fermat() && !Eq(w, 0) && 0 < y < P
    ensures !Eq(2 * (y * (w * (w * (w * w)))), 0)
  {
    NonzeroProduct(w, w);
    NonzeroProduct(w, w * w);
    NonzeroProduct(w, w * (w * w));
    SameResidue(y, 0);
    NonzeroProduct(y, w * (w * (w * w)));
    NonzeroProduct(2, y * (w * (w * (w * w))));
  }

  lemma {:induction false} DoubleSlope(x: int, w: int, p: CurvePoint, l: int, v: int, t1: int)
    requires p.Affine? && Eq(x, p.x * (w * w)) && Eq(l * (2 * p.y), 3 * (p.x * p.x))
    requires v == 2 * (p.y * (w * (w * (w * w)))) && t1 == Mul(Mul(x, x), 3)
    ensures Eq(t1, l * v)
  {
    var w4 := w * (w * (w * w));
    EqMul(x, p.x * (w * w), x, p.x * (w * w));
    EqMul(Mul(x, x), (p.x * (w * w)) * (p.x * (w * w)), 3, 3);
    EqMul(l * (2 * p.y), 3 * (p.x * p.x), w4, w4);
    DoubleSlopeTerms(p.x, p.y, w, l);
  }

  lemma {:induction false} DoubleSlopeTerms(x: int, y: int, w: int, l: int)
    ensures (x * (w * w)) * (x * (w * w)) * 3 == 3 * (x * x) * (w * (w * (w * w)))
    ensures l * (2 * y) * (w * (w * (w * w))) == l * (2 * (y * (w * (w * (w * w)))))
  {
  }

  lemma {:induction false} DoubleProducts(x: int, y: int, w: int, p: CurvePoint, v: int, t3: int, t4: int, t3': int)
    requires p.Affine? && Eq(x, p.x * (w * w)) && Eq(y, p.y * (w * (w * w)))
    requires v == 2 * (p.y * (w * (w * (w * w))))
    requires t3 == Mul(Mul(y, y), 2) && t4 == Mul(Mul(t3, t3), 2) && t3' == Mul(t3, x)
    ensures Eq(Mul(t3', 4), 2 * p.x * (v * v)) && Eq(Mul(t3', 6), 3 * p.x * (v * v))
    ensures Eq(t4, p.y * (v * (v * v)))
  {
    var y3 := p.y * (w * (w * w));
    var x2 := p.x * (w * w);
    EqMul(y, y3, y, y3);
    EqMul(Mul(y, y), y3 * y3, 2, 2);
    EqMul(t3, y3 * y3 * 2, t3, y3 * y3 * 2);
    EqMul(Mul(t3, t3), (y3 * y3 * 2) * (y3 * y3 * 2), 2, 2);
    EqMul(t3, y3 * y3 * 2, x, x2);
    EqMul(t3', y3 * y3 * 2 * x2, 4, 4);
    EqMul(t3', y3 * y3 * 2 * x2, 6, 6);
    QuadraticTerms(p.x, p.y, w);
  }

  lemma {:induction false} QuadraticTerms(x: int, y: int, w: int)
    ensures var v := 2 * (y * (w * (w * (w * w)))); var y3 := y * (w * (w * w)); var x2 := x * (w * w);
      && y3 * y3 * 2 * x2 * 4 == 2 * x * (v * v)
      && y3 * y3 * 2 * x2 * 6 == 3 * x * (v * v)
      && (y3 * y3 * 2) * (y3 * y3 * 2) * 2 == y * (v * (v * v))
  {
    var w2, y3 := w * w, y * (w * (w * w));
    Regroup(y, w);
    assert y3 * y3 * 2 * (x * w2) == 2 * x * (y3 * y3 * w2);
    CubeTerm(y, w);
  }

  // The square of 2 y w^4 by the square of y w^3.
  lemma {:induction false} Regroup(y: int, w: int)
    ensures var v := 2 * (y * (w * (w * (w * w)))); var y3 := y * (w * (w * w)); v * v == 4 * (y3 * y3 * (w * w))
  {
    var y3 := y * (w * (w * w));
    assert y * (w * (w * (w * w))) == y3 * w;
  }

  lemma {:induction false} CubeTerm(y: int, w: int)
    ensures var v := 2 * (y * (w * (w * (w * w)))); var y3 := y * (w * (w * w));
      (y3 * y3 * 2) * (y3 * y3 * 2) * 2 == y * (v * (v * v))
  {
    var y3 := y * (w * (w * w));
    var q := y3 * y3;
    assert y * (w * (w * (w * w))) == y3 * w;
    assert y * ((2 * (y3 * w)) * ((2 * (y3 * w)) * (2 * (y3 * w)))) == 8 * (y3 * (y * (w * (w * w))) * q);
  }

  lemma {:induction false} DoubleX(t2: int, t3: int, l: int, v: int, p: CurvePoint, s: CurvePoint)
    requires OnLine(p, p, s, l) && Eq(t2, l * v * (l * v)) && Eq(Mul(t3, 4), 2 * p.x * (v * v))
    ensures Eq(Add(Neg(Mul(t3, 4)), t2), s.x * (v * v))
  {
    EqSub(Mul(t3, 4), 2 * p.x * (v * v), t2, l * v * (l * v));
    EqMul(s.x, l * l - p.x - p.x, v * v, v * v);
    DoubleXTerms(l, v, p.x);
  }

  lemma {:induction false} DoubleXTerms(l: int, v: int, x: int)
    ensures l * v * (l * v) - 2 * x * (v * v) == (l * l - x - x) * (v * v)
  {
  }

  lemma {:induction false} DoubleY(t1: int, t2: int, t3: int, t4: int, l: int, v: int, p: CurvePoint, s: CurvePoint)
    requires OnLine(p, p, s, l) && Eq(t1, l * v) && Eq(t2, l * v * (l * v))
    requires Eq(Mul(t3, 6), 3 * p.x * (v * v)) && Eq(t4, p.y * (v * (v * v)))
    ensures Eq(Add(Mul(t1, Add(Mul(t3, 6), Neg(t2))), Neg(t4)), s.y * (v * (v * v)))
  {
    var sq := l * v * (l * v);
    var m := 3 * p.x * (v * v) - sq;
    var y3 := p.y * (v * (v * v));
    EqNeg(t2, sq);
    EqAdd(Mul(t3, 6), 3 * p.x * (v * v), Neg(t2), -sq);
    EqMul(t1, l * v, Add(Mul(t3, 6), Neg(t2)), m);
    EqNeg(t4, y3);
    EqAdd(Mul(t1, Add(Mul(t3, 6), Neg(t2))), l * v * m, Neg(t4), -y3);
    LineY(p, p, s, l, v);
    DoubleYTerms(l, v, p.x, p.y);
  }

  lemma {:induction false} DoubleYTerms(l: int, v: int, x: int, y: int)
    ensures l * v * (3 * x * (v * v) - l * v * (l * v)) - y * (v * (v * v))
         == (l * (x - (l * l - x - x)) - y) * (v * (v * v))
  {
  }

  // The ordinate of the third point, with the abscissa replaced.
  lemma {:induction false} LineY(p: Point, q: Point, s: Point, l: int, v: int)
    requires OnLine(p, q, s, l)
    ensures Eq(s.y * (v * (v * v)), (l * (p.x - (l * l - p.x - q.x)) - p.y) * (v * (v * v)))
  {
    EqAdd(p.x, p.x, s.x, l * l - p.x - q.x);
    EqMul(l, l, p.x - s.x, p.x - (l * l - p.x - q.x));
    EqAdd(l * (p.x - s.x), l * (p.x - (l * l - p.x - q.x)), p.y, p.y);
    EqMul(s.y, l * (p.x - (l * l - p.x - q.x)) - p.y, v * (v * v), v * (v * v));
  }

  // ---- addition ----

  // The part shared by the addition formulas (lines 403-409, 457-463, 518-524):
  // h and i are the scaled differences of the coordinates.
  method ChordFormula(u1: int, s1: int, h: int, i: int, ghost w: int, ghost p: CurvePoint, ghost q: CurvePoint,
                      ghost s: CurvePoint, ghost l: int) returns (x: int, y: int)
    requires Fermat() && Chord(p, q, s, l) && Scaled(u1, s1, w, p) && !Eq(h, 0)
    requires Eq(h, (q.x - p.x) * (w * w)) && Eq(i, (q.y - p.y) * (w * (w * w)))
    ensures Scaled(x, y, w * h, s)
  {
    var i2 := Mul(i, i);
    var h2 := Mul(h, h);
    var h3 := Mul(h, h2);
    var t := Mul(u1, h2);
    x := Add(Neg(Add(Mul(t, 2), h3)), i2);
    y := Mul(Add(Neg(x), t), i);
    h3 := Neg(Mul(h3, s1));
    y := Add(y, h3);
    NonzeroProduct(w, h);
    ChordSlope(h, i, w, p, q, l);
    ChordX(u1, h, i, w, p, q, s, l);
    ChordY(u1, s1, h, i, x, w, p, q, s, l);
  }

  lemma {:induction false} ChordSlope(h: int, i: int, w: int, p: CurvePoint, q: CurvePoint, l: int)
    requires p.Affine? && q.Affine? && Eq(l * (q.x - p.x), q.y - p.y)
    requires Eq(h, (q.x - p.x) * (w * w)) && Eq(i, (q.y - p.y) * (w * (w * w)))
    ensures Eq(i, l * (w * h))
  {
    EqMul(l * (q.x - p.x), q.y - p.y, w * (w * w), w * (w * w));
    EqMul(l * w, l * w, h, (q.x - p.x) * (w * w));
    SlopeTerms(l, w, h, q.x - p.x);
  }

  lemma {:induction false} SlopeTerms(l: int, w: int, h: int, d: int)
    ensures l * w * h == l * (w * h) && l * w * (d * (w * w)) == l * d * (w * (w * w))
  {
  }

  lemma {:induction false} ChordX(u1: int, h: int, i: int, w: int, p: CurvePoint, q: CurvePoint, s: CurvePoint, l: int)
    requires OnLine(p, q, s, l) && Eq(u1, p.x * (w * w)) && Eq(h, (q.x - p.x) * (w * w)) && Eq(i, l * (w * h))
    ensures Eq(Mul(u1, Mul(h, h)), p.x * (w * h * (w * h)))
    ensures Eq(Add(Neg(Add(Mul(Mul(u1, Mul(h, h)), 2), Mul(h, Mul(h, h)))), Mul(i, i)), s.x * (w * h * (w * h)))
  {
    var v := w * h;
    var t, h3 := Mul(u1, Mul(h, h)), Mul(h, Mul(h, h));
    ChordPowers(u1, h, w, p.x, q.x);
    EqMul(t, p.x * (v * v), 2, 2);
    EqAdd(Mul(t, 2), p.x * (v * v) * 2, h3, (q.x - p.x) * (v * v));
    EqMul(i, l * v, i, l * v);
    EqSub(Add(Mul(t, 2), h3), p.x * (v * v) * 2 + (q.x - p.x) * (v * v), Mul(i, i), l * v * (l * v));
    EqMul(s.x, l * l - p.x - q.x, v * v, v * v);
    ChordXTerms(l, v, p.x, q.x);
  }

  lemma {:induction false} ChordXTerms(l: int, v: int, x: int, x': int)
    ensures l * v * (l * v) - (x * (v * v) * 2 + (x' - x) * (v * v)) == (l * l - x - x') * (v * v)
  {
  }

  lemma {:induction false} ChordPowers(u1: int, h: int, w: int, x: int, x': int)
    requires Eq(u1, x * (w * w)) && Eq(h, (x' - x) * (w * w))
    ensures Eq(Mul(u1, Mul(h, h)), x * (w * h * (w * h)))
    ensures Eq(Mul(h, Mul(h, h)), (x' - x) * (w * h * (w * h))) && Eq(Mul(h, Mul(h, h)), h * (h * h))
  {
    EqMul(h, h, h, h);
    EqMul(u1, x * (w * w), Mul(h, h), h * h);
    EqMul(h, (x' - x) * (w * w), Mul(h, h), h * h);
    EqMul(h, h, Mul(h, h), h * h);
    SquareTerms(x, w, h);
    SquareTerms(x' - x, w, h);
  }

  lemma {:induction false} SquareTerms(x: int, w: int, h: int)
    ensures x * (w * w) * (h * h) == x * (w * h * (w * h))
  {
  }

  lemma {:induction false} ChordY(u1: int, s1: int, h: int, i: int, x3: int, w: int, p: CurvePoint, q: CurvePoint,
                                 s: CurvePoint, l: int)
    requires OnLine(p, q, s, l) && Eq(u1, p.x * (w * w)) && Eq(s1, p.y * (w * (w * w)))
    requires Eq(h, (q.x - p.x) * (w * w)) && Eq(i, l * (w * h)) && Eq(x3, s.x * (w * h * (w * h)))
    ensures Eq(Add(Mul(Add(Neg(x3), Mul(u1, Mul(h, h))), i), Neg(Mul(Mul(h, Mul(h, h)), s1))),
               s.y * (w * h * (w * h * (w * h))))
  {
    var v := w * h;
    ChordPowers(u1, h, w, p.x, q.x);
    ChordOrdinate(Mul(u1, Mul(h, h)), Mul(h, Mul(h, h)), s1, i, x3, p.x * (v * v), s.x * (v * v), h * (h * h),
                  p.y * (w * (w * w)), l * v);
    EqMul(s.y, l * (p.x - s.x) - p.y, v * (v * v), v * (v * v));
    ChordYTerms(l, w, h, p.x, s.x, p.y);
  }

  // (t - x3) * i - h3 * s1, factor by factor.
  lemma {:induction false} ChordOrdinate(t: int, h3: int, s1: int, i: int, x3: int, t': int, x3': int, h3': int, s1': int, i': int)
    requires Eq(t, t') && Eq(x3, x3') && Eq(h3, h3') && Eq(s1, s1') && Eq(i, i')
    ensures Eq(Add(Mul(Add(Neg(x3), t), i), Neg(Mul(h3, s1))), (t' - x3') * i' - h3' * s1')
  {
    EqSub(x3, x3', t, t');
    EqMul(Add(Neg(x3), t), t' - x3', i, i');
    EqMul(h3, h3', s1, s1');
    EqNeg(Mul(h3, s1), h3' * s1');
    EqAdd(Mul(Add(Neg(x3), t), i), (t' - x3') * i', Neg(Mul(h3, s1)), -(h3' * s1'));
  }

  lemma {:induction false} ChordYTerms(l: int, w: int, h: int, x: int, x3: int, y: int)
    ensures var v := w * h;
      (x * (v * v) - x3 * (v * v)) * (l * v) - h * (h * h) * (y * (w * (w * w))) == (l * (x - x3) - y) * (v * (v * v))
  {
    var v := w * h;
    CubeTerms(y, w, h);
    LineTerms(l, v, x, x3);
    MulDistrib(v * (v * v), l * (x - x3), -y);
  }

  lemma {:induction false} CubeTerms(y: int, w: int, h: int)
    ensures h * (h * h) * (y * (w * (w * w))) == y * (w * h * (w * h * (w * h)))
  {
  }

  lemma {:induction false} LineTerms(l: int, v: int, x: int, x3: int)
    ensures (x * (v * v) - x3 * (v * v)) * (l * v) == l * (x - x3) * (v * (v * v))
  {
  }

  // The differences vanish exactly when the coordinates agree.
  lemma {:induction false} Differences(h: int, i: int, w: int, p: CurvePoint, q: CurvePoint)
    requires Fermat() && p.Affine? && q.Affine? && !Eq(w, 0)
    requires Eq(h, (q.x - p.x) * (w * w)) && Eq(i, (q.y - p.y) * (w * (w * w)))
    ensures IsZero(h) <==> p.x == q.x
    ensures IsZero(i) <==> p.y == q.y
  {
    NonzeroProduct(w, w);
    NonzeroProduct(w, w * w);
    DifferenceZero(h, p.x, q.x, w * w);
    DifferenceZero(i, p.y, q.y, w * (w * w));
  }

  lemma {:induction false} DifferenceZero(h: int, a: int, b: int, c: int)
    requires Fermat() && 0 <= a < P && 0 <= b < P && !Eq(c, 0) && Eq(h, (b - a) * c)
    ensures IsZero(h) <==> a == b
  {
    SmallSums(b, a);
    if a == b {
      assert (b - a) * c == 0;
    } else {
      NonzeroProduct(b - a, c);
    }
  }

  // secp256k1_gej_add_ge_var, with the ratio of the z coordinates: right for
  // every pair of points, infinite, equal and opposite ones included.
  method GejAddGeVar(ghost g: Group<CurvePoint>, a: Gej, b: Ge, ghost u: int, ghost p: CurvePoint, ghost q: CurvePoint)
    returns (r: Gej, rzr: int)
    requires Fermat() && IsCurveGroup(g) && !Eq(u, 0)
    requires Represents(a, u, p) && RepresentsAffine(b, u, q)
    ensures Represents(r, u, g.add(p, q))
    ensures !a.infinity && !r.infinity ==> Eq(r.z, a.z * rzr)
    ensures p.Affine? && q.Affine? && p.x != q.x ==> !r.infinity && Eq(rzr, (q.x - p.x) * (a.z * u * (a.z * u)))
  {
    if a.infinity {
      r := Gej(b.x, b.y, 1, b.infinity);
      rzr := 0;
      Comm(g, Infinity, q);
      return;
    }
    if b.infinity {
      return a, 1;
    }
    ghost var w := a.z * u;
    var z12 := Mul(a.z, a.z);
    var u2 := Mul(b.x, z12);
    var s2 := Mul(Mul(b.y, z12), a.z);
    var h := Add(Neg(a.x), u2);
    var i := Add(Neg(a.y), s2);
    MixedDifferences(a, b, u, p, q);
    Differences(h, i, w, p, q);
    assert LawAt(g, p, q);
    if IsZero(h) {
      if IsZero(i) {
        NoPointOfOrderTwo(g, p);
        r, rzr := GejDouble(g, a, u, p);
      } else {
        rzr := 0;
        r := Gej(a.x, a.y, a.z, true);
      }
      return;
    }
    ghost var l :| Chord(p, q, g.add(p, q), l);
    rzr := h;
    var z := Mul(a.z, h);
    var x, y := ChordFormula(a.x, a.y, h, i, w, p, q, g.add(p, q), l);
    r := Gej(x, y, z, false);
    MixedScale(a.z, u, h, z);
    Rescale(x, y, w * h, z * u, g.add(p, q));
  }

  lemma {:induction false} MixedScale(z1: int, u: int, h: int, z: int)
    requires z == Mul(z1, h)
    ensures Eq(z, z1 * h) && Eq(z1 * u * h, z * u)
  {
    EqMul(z1, z1, h, h);
    EqMul(z1 * h, z, u, u);
    assert z1 * u * h == z1 * h * u;
  }

  lemma {:induction false} MixedDifferences(a: Gej, b: Ge, u: int, p: CurvePoint, q: CurvePoint)
    requires Scaled(a.x, a.y, a.z * u, p) && Scaled(b.x, b.y, u, q)
    ensures var w := a.z * u;
      && Eq(Add(Neg(a.x), Mul(b.x, Mul(a.z, a.z))), (q.x - p.x) * (w * w))
      && Eq(Add(Neg(a.y), Mul(Mul(b.y, Mul(a.z, a.z)), a.z)), (q.y - p.y) * (w * (w * w)))
  {
    var z12 := Mul(a.z, a.z);
    EqMul(a.z, a.z, a.z, a.z);
    MixedX(a.x, b.x, z12, a.z, u, p.x, q.x);
    MixedY(a.y, b.y, z12, a.z, u, p.y, q.y);
  }

  lemma {:induction false} MixedX(ax: int, bx: int, z12: int, z: int, u: int, px: int, qx: int)
    requires Eq(z12, z * z) && Eq(bx, qx * (u * u)) && Eq(ax, px * (z * u * (z * u)))
    ensures Eq(Add(Neg(ax), Mul(bx, z12)), (qx - px) * (z * u * (z * u)))
  {
    EqMul(bx, qx * (u * u), z12, z * z);
    ScaledTerms(qx, 0, z, u);
    ScaledDifference(ax, Mul(bx, z12), px, qx, z * u * (z * u));
  }

  lemma {:induction false} ScaledDifference(a: int, b: int, p: int, q: int, k: int)
    requires Eq(a, p * k) && Eq(b, q * k)
    ensures Eq(Add(Neg(a), b), (q - p) * k)
  {
    EqSub(a, p * k, b, q * k);
    MulDistrib(k, q, -p);
  }

  lemma {:induction false} MixedY(a2: int, b2: int, z12: int, z: int, u: int, py: int, qy: int)
    requires Eq(z12, z * z) && Eq(b2, qy * (u * (u * u))) && Eq(a2, py * (z * u * (z * u * (z * u))))
    ensures Eq(Add(Neg(a2), Mul(Mul(b2, z12), z)), (qy - py) * (z * u * (z * u * (z * u))))
  {
    EqMul(b2, qy * (u * (u * u)), z12, z * z);
    EqMul(Mul(b2, z12), qy * (u * (u * u)) * (z * z), z, z);
    ScaledTerms(0, qy, z, u);
    ScaledDifference(a2, Mul(Mul(b2, z12), z), py, qy, z * u * (z * u * (z * u)));
  }

  lemma {:induction false} ScaledTerms(x: int, y: int, z: int, u: int)
    ensures var w := z * u;
      && x * (u * u) * (z * z) == x * (w * w)
      && y * (u * (u * u)) * (z * z) * z == y * (w * (w * w))
  {
  }

  // secp256k1_gej_add_var: both points in Jacobian coordinates.
  method GejAddVar(ghost g: Group<CurvePoint>, a: Gej, b: Gej, ghost p: CurvePoint, ghost q: CurvePoint) returns (r: Gej, rzr: int)
    requires Fermat() && IsCurveGroup(g) && Represents(a, 1, p) && Represents(b, 1, q)
    ensures Represents(r, 1, g.add(p, q))
    ensures !a.infinity && !r.infinity ==> Eq(r.z, a.z * rzr)
  {
    if a.infinity {
      Comm(g, Infinity, q);
      return b, 0;
    }
    if b.infinity {
      return a, 1;
    }
    ghost var w := a.z * b.z;
    var z22 := Mul(b.z, b.z);
    var z12 := Mul(a.z, a.z);
    var u1 := Mul(a.x, z22);
    var u2 := Mul(b.x, z12);
    var s1 := Mul(Mul(a.y, z22), b.z);
    var s2 := Mul(Mul(b.y, z12), a.z);
    var h := Add(Neg(u1), u2);
    var i := Add(Neg(s1), s2);
    CrossScaled(a, b, p);
    CrossScaled(b, a, q);
    assert b.z * a.z == w;
    ScaledDifference(u1, u2, p.x, q.x, w * w);
    ScaledDifference(s1, s2, p.y, q.y, w * (w * w));
    Differences(h, i, w, p, q);
    assert LawAt(g, p, q);
    if IsZero(h) {
      if IsZero(i) {
        NoPointOfOrderTwo(g, p);
        r, rzr := GejDouble(g, a, 1, p);
      } else {
        rzr := 0;
        r := Gej(a.x, a.y, a.z, true);
      }
      return;
    }
    ghost var l :| Chord(p, q, g.add(p, q), l);
    var x, y := ChordFormula(u1, s1, h, i, w, p, q, g.add(p, q), l);
    rzr := Mul(h, b.z);
    var z := Mul(a.z, rzr);
    r := Gej(x, y, z, false);
    CrossScale(a.z, b.z, h);
    Rescale(x, y, w * h, z * 1, g.add(p, q));
  }

  lemma {:induction false} CrossScale(z1: int, z2: int, h: int)
    ensures Eq(Mul(z1, Mul(h, z2)), z1 * Mul(h, z2)) && Eq(z1 * z2 * h, Mul(z1, Mul(h, z2)) * 1)
  {
    EqMul(h, h, z2, z2);
    EqMul(z1, z1, Mul(h, z2), h * z2);
    EqMul(z1, z1, Mul(h, z2), Mul(h, z2));
    assert z1 * z2 * h == z1 * (h * z2);
  }

  // The coordinates of a brought to the product of both scales.
  lemma {:induction false} CrossScaled(a: Gej, b: Gej, p: CurvePoint)
    requires Fermat() && Scaled(a.x, a.y, a.z * 1, p) && !Eq(b.z, 0)
    ensures Scaled(Mul(a.x, Mul(b.z, b.z)), Mul(Mul(a.y, Mul(b.z, b.z)), b.z), a.z * b.z, p)
  {
    var z22 := Mul(b.z, b.z);
    EqMul(b.z, b.z, b.z, b.z);
    EqMul(a.x, p.x * (a.z * a.z), z22, b.z * b.z);
    EqMul(a.y, p.y * (a.z * (a.z * a.z)), z22, b.z * b.z);
    EqMul(Mul(a.y, z22), p.y * (a.z * (a.z * a.z)) * (b.z * b.z), b.z, b.z);
    ScaledTerms(p.x, p.y, b.z, a.z);
    NonzeroProduct(a.z, b.z);
    assert b.z * a.z == a.z * b.z;
  }

  // secp256k1_gej_add_zinv_var: b is affine on the curve itself while a lives on
  // the copy scaled by bzinv, and so does the sum.
  method GejAddZinvVar(ghost g: Group<CurvePoint>, a: Gej, b: Ge, bzinv: int, ghost p: CurvePoint, ghost q: CurvePoint)
    returns (r: Gej)
    requires Fermat() && IsCurveGroup(g) && !Eq(bzinv, 0)
    requires Represents(a, bzinv, p) && RepresentsAffine(b, 1, q)
    ensures Represents(r, bzinv, g.add(p, q))
  {
    if b.infinity {
      return a;
    }
    if a.infinity {
      var bzinv2 := Mul(bzinv, bzinv);
      var bzinv3 := Mul(bzinv2, bzinv);
      r := Gej(Mul(b.x, bzinv2), Mul(b.y, bzinv3), 1, false);
      ToScale(b.x, b.y, bzinv, q);
      Comm(g, Infinity, q);
      return;
    }
    var az := Mul(a.z, bzinv);
    EqMul(a.z, a.z, bzinv, bzinv);
    Rescale(a.x, a.y, a.z * bzinv, az * 1, p);
    var z12 := Mul(az, az);
    var u2 := Mul(b.x, z12);
    var s2 := Mul(Mul(b.y, z12), az);
    var h := Add(Neg(a.x), u2);
    var i := Add(Neg(a.y), s2);
    MixedDifferences(a.(z := az), b, 1, p, q);
    Differences(h, i, az * 1, p, q);
    assert LawAt(g, p, q);
    if IsZero(h) {
      if IsZero(i) {
        NoPointOfOrderTwo(g, p);
        var rzr;
        r, rzr := GejDouble(g, a, bzinv, p);
      } else {
        r := Gej(a.x, a.y, a.z, true);
      }
      return;
    }
    ghost var l :| Chord(p, q, g.add(p, q), l);
    var z := Mul(a.z, h);
    var x, y := ChordFormula(a.x, a.y, h, i, az * 1, p, q, g.add(p, q), l);
    r := Gej(x, y, z, false);
    ZinvScale(a.z, bzinv, az, h, z);
    Rescale(x, y, az * 1 * h, z * bzinv, g.add(p, q));
  }

  lemma {:induction false} ToScale(x: int, y: int, k: int, q: CurvePoint)
    requires Scaled(x, y, 1, q) && !Eq(k, 0)
    ensures Scaled(Mul(x, Mul(k, k)), Mul(y, Mul(Mul(k, k), k)), 1 * k, q)
  {
    EqMul(k, k, k, k);
    EqMul(Mul(k, k), k * k, k, k);
    EqMul(x, q.x, Mul(k, k), k * k);
    EqMul(y, q.y, Mul(Mul(k, k), k), k * k * k);
    assert k * k * k == k * (k * k);
  }

  lemma {:induction false} ZinvScale(z1: int, k: int, az: int, h: int, z: int)
    requires az == Mul(z1, k) && z == Mul(z1, h)
    ensures Eq(az * 1 * h, z * k)
  {
    EqMul(z1, z1, k, k);
    EqMul(az, z1 * k, h, h);
    EqMul(z1, z1, h, h);
    EqMul(z, z1 * h, k, k);
    assert z1 * h * k == z1 * k * h;
  }

  // ---- the unified formula ----

  // secp256k1_gej_add_ge: one formula for sums and doublings, with the slope
  // (y1 - y2) / (x1 - x2) instead where the usual one is 0 / 0.
  method GejAddGe(ghost g: Group<CurvePoint>, a: Gej, b: Ge, ghost u: int, ghost p: CurvePoint, ghost q: CurvePoint) returns (r: Gej)
    requires Fermat() && IsCurveGroup(g) && !Eq(u, 0)
    requires Represents(a, u, p) && RepresentsAffine(b, u, q) && !b.infinity
    ensures Represents(r, u, g.add(p, q))
  {
    var t, m, rrAlt, mAlt, degenerate := UnifiedSlope(g, a, b, u, p, q);
    ghost var w := a.z * u;
    ghost var l := 0;
    if !a.infinity && g.add(p, q).Affine? {
      l := SlopeOf(g, p, q);
    }
    var x, y := UnifiedPoint(t, m, rrAlt, mAlt, degenerate, w, p, q, g.add(p, q), l);
    var z := Mul(a.z, mAlt);
    var infinity := IsZero(z) && !a.infinity;
    z := Mul(z, 2);
    if a.infinity {
      Comm(g, Infinity, q);
      return Gej(b.x, b.y, 1, infinity);
    }
    r := Gej(x, y, z, infinity);
    UnifiedScale(a.z, u, mAlt);
    if g.add(p, q).Affine? {
      FiniteSum(g, p, q);
      UnifiedRatio(p, q, g.add(p, q), l, w, t, m, rrAlt, mAlt, degenerate);
      FiniteScale(a.z, u, mAlt);
      Rescale(x, y, 2 * (w * mAlt), z * u, g.add(p, q));
    } else {
      InfiniteSum(g, p, q, w, t, m, rrAlt, mAlt, degenerate);
      EqMul(a.z, a.z, mAlt, 0);
    }
  }

  lemma {:induction false} FiniteScale(z: int, u: int, mAlt: int)
    requires !Eq(z * u * mAlt, 0)
    ensures !Eq(z * mAlt, 0)
  {
    assert z * mAlt * u == z * u * mAlt;
    if Eq(z * mAlt, 0) {
      EqMul(z * mAlt, 0, u, u);
    }
  }

  lemma {:induction false} FiniteSum(g: Group<CurvePoint>, p: CurvePoint, q: CurvePoint)
    requires IsCurveGroup(g) && p.Affine? && q.Affine? && g.add(p, q).Affine?
    ensures p.y != 0 && (p.x == q.x ==> p == q)
  {
    NoPointOfOrderTwo(g, p);
    assert LawAt(g, p, q);
  }

  // Opposite points make the denominator vanish, degenerate or not.
  lemma {:induction false} InfiniteSum(g: Group<CurvePoint>, p: CurvePoint, q: CurvePoint, w: int, t: int, m: int,
                                      rrAlt: int, mAlt: int, degenerate: bool)
    requires Fermat() && IsCurveGroup(g) && Fraction(p, q, w, t, m, rrAlt, mAlt, degenerate) && g.add(p, q) == Infinity
    ensures Eq(mAlt, 0)
  {
    OppositePoints(g, p, q);
    if degenerate {
      assert (p.x - q.x) * (w * w) == 0;
    } else {
      EqMul(p.y + q.y, 0, w * (w * w), w * (w * w));
    }
  }

  lemma {:induction false} OppositePoints(g: Group<CurvePoint>, p: CurvePoint, q: CurvePoint)
    requires Fermat() && IsCurveGroup(g) && p.Affine? && q.Affine? && g.add(p, q) == Infinity
    ensures p.x == q.x && Eq(p.y + q.y, 0)
  {
    NoPointOfOrderTwo(g, p);
    assert LawAt(g, p, q);
    SameX(g, p, q);
    NegIsMirror(g, p);
    assert p.y + q.y == P;
    EqIsCong(p.y + q.y, 0);
  }

  // What the first half leaves: the sum of the abscissas, the sum of the
  // ordinates, and numerator and denominator of the slope.
  ghost predicate Fraction(p: Point, q: Point, w: int, t: int, m: int, rrAlt: int, mAlt: int, degenerate: bool) {
    && p.Affine? && q.Affine? && !Eq(w, 0)
    && Eq(t, (p.x + q.x) * (w * w))
    && Eq(m, (p.y + q.y) * (w * (w * w)))
    && (degenerate <==> Eq(p.y + q.y, 0) && Eq(p.x * p.x + p.x * q.x + q.x * q.x, 0))
    && (degenerate ==> Eq(rrAlt, 2 * p.y * (w * (w * w))) && Eq(mAlt, (p.x - q.x) * (w * w)))
    && (!degenerate ==> Eq(rrAlt, (p.x * p.x + p.x * q.x + q.x * q.x) * (w * (w * (w * w)))) && mAlt == m)
  }

  // Lines 592-614.
  method UnifiedSlope(ghost g: Group<CurvePoint>, a: Gej, b: Ge, ghost u: int, ghost p: CurvePoint, ghost q: CurvePoint)
    returns (t: int, m: int, rrAlt: int, mAlt: int, degenerate: bool)
    requires Fermat() && Represents(a, u, p) && RepresentsAffine(b, u, q) && !b.infinity
    ensures !a.infinity ==> Fraction(p, q, a.z * u, t, m, rrAlt, mAlt, degenerate)
  {
    var zz := Mul(a.z, a.z);
    var u1, u2 := a.x, Mul(b.x, zz);
    var s1, s2 := a.y, Mul(Mul(b.y, zz), a.z);
    t := Add(u1, u2);
    m := Add(s1, s2);
    var rr := Mul(t, t);
    mAlt := Neg(u2);
    rr := Add(rr, Mul(u1, mAlt));
    degenerate := IsZero(m) && IsZero(rr);
    rrAlt := Mul(s1, 2);
    mAlt := Add(mAlt, u1);
    if !a.infinity {
      MixedCoordinates(a.z, u, b, q);
      UnifiedTerms(u1, s1, u2, s2, a.z * u, p, q);
      DegenerateCase(p, q, a.z * u, m, rr);
    }
    if !degenerate {
      rrAlt := rr;
      mAlt := m;
    }
  }

  lemma {:induction false} DegenerateCase(p: CurvePoint, q: CurvePoint, w: int, m: int, rr: int)
    requires Fermat() && p.Affine? && q.Affine? && !Eq(w, 0)
    requires Eq(m, (p.y + q.y) * (w * (w * w)))
    requires Eq(rr, (p.x * p.x + p.x * q.x + q.x * q.x) * (w * (w * (w * w))))
    ensures IsZero(m) <==> Eq(p.y + q.y, 0)
    ensures IsZero(rr) <==> Eq(p.x * p.x + p.x * q.x + q.x * q.x, 0)
  {
    NonzeroProduct(w, w);
    NonzeroProduct(w, w * w);
    NonzeroProduct(w, w * (w * w));
    ZeroFactor(m, p.y + q.y, w * (w * w));
    ZeroFactor(rr, p.x * p.x + p.x * q.x + q.x * q.x, w * (w * (w * w)));
  }

  lemma {:induction false} ZeroFactor(x: int, a: int, k: int)
    requires Fermat() && !Eq(k, 0) && Eq(x, a * k)
    ensures IsZero(x) <==> Eq(a, 0)
  {
    if Eq(a, 0) {
      EqMul(a, 0, k, k);
    } else {
      NonzeroProduct(a, k);
    }
  }

  // Lines 615-640: the point from the fraction.
  method UnifiedPoint(t: int, m: int, rrAlt: int, mAlt: int, degenerate: bool, ghost w: int, ghost p: CurvePoint,
                      ghost q: CurvePoint, ghost s: CurvePoint, ghost l: int) returns (x: int, y: int)
    requires Fermat()
    ensures Fraction(p, q, w, t, m, rrAlt, mAlt, degenerate) && Slope(p, q, s, l) && p.y != 0 && (p.x == q.x ==> p == q) ==>
              Scaled(x, y, 2 * (w * mAlt), s)
  {
    var n := Mul(mAlt, mAlt);
    var qq := Mul(n, t);
    n := Mul(n, n);
    if degenerate {
      n := m;
    }
    var tt := Mul(rrAlt, rrAlt);
    qq := Neg(qq);
    tt := Add(tt, qq);
    x := tt;
    tt := Add(Mul(tt, 2), qq);
    tt := Add(Mul(tt, rrAlt), n);
    y := Neg(tt);
    if Fraction(p, q, w, t, m, rrAlt, mAlt, degenerate) && Slope(p, q, s, l) && p.y != 0 && (p.x == q.x ==> p == q) {
      UnifiedRatio(p, q, s, l, w, t, m, rrAlt, mAlt, degenerate);
      UnifiedX(t, rrAlt, mAlt, w, p, q, s, l);
      UnifiedPower(p, q, w, t, m, rrAlt, mAlt, degenerate);
      UnifiedY(qq, rrAlt, n, x, l, w * mAlt, p, q, s);
      Quadruple(x, y, w * mAlt, s);
    }
    x := Mul(x, 4);
    y := Mul(y, 4);
  }

  lemma {:induction false} MixedCoordinates(z: int, u: int, b: Ge, q: CurvePoint)
    requires Scaled(b.x, b.y, u, q)
    ensures var w := z * u;
      Eq(Mul(b.x, Mul(z, z)), q.x * (w * w)) && Eq(Mul(Mul(b.y, Mul(z, z)), z), q.y * (w * (w * w)))
  {
    var zz := Mul(z, z);
    EqMul(z, z, z, z);
    EqMul(b.x, q.x * (u * u), zz, z * z);
    EqMul(b.y, q.y * (u * (u * u)), zz, z * z);
    EqMul(Mul(b.y, zz), q.y * (u * (u * u)) * (z * z), z, z);
    ScaledTerms(q.x, q.y, z, u);
  }

  // Both points' coordinates over the common scale w.
  ghost predicate Common(u1: int, s1: int, u2: int, s2: int, w: int, p: Point, q: Point) {
    && p.Affine? && q.Affine? && !Eq(w, 0)
    && Eq(u1, p.x * (w * w)) && Eq(s1, p.y * (w * (w * w)))
    && Eq(u2, q.x * (w * w)) && Eq(s2, q.y * (w * (w * w)))
  }

  lemma {:induction false} UnifiedTerms(u1: int, s1: int, u2: int, s2: int, w: int, p: CurvePoint, q: CurvePoint)
    requires Common(u1, s1, u2, s2, w, p, q)
    ensures Eq(Add(u1, u2), (p.x + q.x) * (w * w))
    ensures Eq(Add(s1, s2), (p.y + q.y) * (w * (w * w)))
    ensures Eq(Add(Mul(Add(u1, u2), Add(u1, u2)), Mul(u1, Neg(u2))),
               (p.x * p.x + p.x * q.x + q.x * q.x) * (w * (w * (w * w))))
    ensures Eq(Add(Neg(u2), u1), (p.x - q.x) * (w * w))
    ensures Eq(Mul(s1, 2), 2 * p.y * (w * (w * w)))
  {
    SumTerms(u1, u2, p.x, q.x, w * w);
    SumTerms(s1, s2, p.y, q.y, w * (w * w));
    ScaledDifference(u2, u1, q.x, p.x, w * w);
    TwiceTerm(s1, p.y, w * (w * w));
    UnifiedNumerator(u1, u2, Add(u1, u2), p.x, q.x, w * w);
    NumeratorTerms(p.x, q.x, w);
  }

  lemma {:induction false} SumTerms(a: int, b: int, x: int, y: int, k: int)
    requires Eq(a, x * k) && Eq(b, y * k)
    ensures Eq(Add(a, b), (x + y) * k)
  {
    EqAdd(a, x * k, b, y * k);
    MulDistrib(k, x, y);
  }

  lemma {:induction false} TwiceTerm(a: int, x: int, k: int)
    requires Eq(a, x * k)
    ensures Eq(Mul(a, 2), 2 * x * k)
  {
    EqMul(a, x * k, 2, 2);
    assert x * k * 2 == 2 * x * k;
  }

  lemma {:induction false} UnifiedNumerator(u1: int, u2: int, t: int, x: int, x': int, w2: int)
    requires Eq(u1, x * w2) && Eq(u2, x' * w2) && Eq(t, (x + x') * w2)
    ensures Eq(Add(Mul(t, t), Mul(u1, Neg(u2))), (x + x') * w2 * ((x + x') * w2) + x * w2 * -(x' * w2))
  {
    EqMul(t, (x + x') * w2, t, (x + x') * w2);
    EqNeg(u2, x' * w2);
    EqMul(u1, x * w2, Neg(u2), -(x' * w2));
    EqAdd(Mul(t, t), (x + x') * w2 * ((x + x') * w2), Mul(u1, Neg(u2)), x * w2 * -(x' * w2));
  }

  lemma {:induction false} NumeratorTerms(x: int, x': int, w: int)
    ensures (x + x') * (w * w) * ((x + x') * (w * w)) + x * (w * w) * -(x' * (w * w))
         == (x * x + x * x' + x' * x') * (w * (w * (w * w)))
  {
  }

  // The slope of the line through p and q, or of the tangent.
  ghost predicate Slope(p: Point, q: Point, s: Point, l: int) {
    && OnLine(p, q, s, l)
    && Eq(l * (q.x - p.x), q.y - p.y)
    && Eq(l * (p.y + q.y), p.x * p.x + p.x * q.x + q.x * q.x)
  }

  lemma {:induction false} SlopeOf(g: Group<CurvePoint>, p: CurvePoint, q: CurvePoint) returns (l: int)
    requires Fermat() && IsCurveGroup(g) && p.Affine? && q.Affine? && g.add(p, q).Affine?
    ensures Slope(p, q, g.add(p, q), l)
  {
    assert LawAt(g, p, q);
    if p.x == q.x {
      l :| Tangent(p, g.add(p, q), l);
      TangentSlope(p.x, p.y, l);
    } else {
      l :| Chord(p, q, g.add(p, q), l);
      ChordUnified(p, q, l);
    }
  }

  lemma {:induction false} TangentSlope(x: int, y: int, l: int)
    requires Eq(l * (2 * y), 3 * (x * x))
    ensures Eq(l * (x - x), y - y) && Eq(l * (y + y), x * x + x * x + x * x)
  {
    assert l * (x - x) == 0;
    assert l * (2 * y) == l * (y + y);
    assert 3 * (x * x) == x * x + x * x + x * x;
  }

  // Both points being on the curve, the chord's slope is also (x1^2 + x1*x2 + x2^2) / (y1 + y2).
  lemma {:induction false} ChordUnified(p: CurvePoint, q: CurvePoint, l: int)
    requires Fermat() && p.Affine? && q.Affine? && p.x != q.x && Eq(l * (q.x - p.x), q.y - p.y)
    ensures Eq(l * (p.y + q.y), p.x * p.x + p.x * q.x + q.x * q.x)
  {
    var d := q.x - p.x;
    EqMul(l * d, q.y - p.y, p.y + q.y, p.y + q.y);
    EqAdd(q.y * q.y, q.x * q.x * q.x + 7, p.y * p.y, p.x * p.x * p.x + 7);
    CubeDifference(l, p.x, p.y, q.x, q.y);
    SmallSums(q.x, p.x);
    Cancel(l * (p.y + q.y), p.x * p.x + p.x * q.x + q.x * q.x, d);
  }

  lemma {:induction false} CubeDifference(l: int, x: int, y: int, x': int, y': int)
    ensures l * (x' - x) * (y + y') == l * (y + y') * (x' - x)
    ensures (y' - y) * (y + y') == y' * y' - y * y
    ensures x' * x' * x' + 7 - (x * x * x + 7) == (x * x + x * x' + x' * x') * (x' - x)
  {
  }

  // The fraction is the slope, and its denominator vanishes only if the sum is infinite.
  lemma {:induction false} UnifiedRatio(p: CurvePoint, q: CurvePoint, s: CurvePoint, l: int, w: int, t: int, m: int,
                                       rrAlt: int, mAlt: int, degenerate: bool)
    requires Fermat() && Fraction(p, q, w, t, m, rrAlt, mAlt, degenerate)
    requires Slope(p, q, s, l) && p.y != 0 && (p.x == q.x ==> p == q)
    ensures Eq(rrAlt, l * (w * mAlt)) && !Eq(w * mAlt, 0)
  {
    var w3 := w * (w * w);
    if degenerate {
      AlternateSlope(p, q, l);
      EqMul(l * (p.x - q.x), 2 * p.y, w3, w3);
      EqMul(l * w, l * w, mAlt, (p.x - q.x) * (w * w));
      SlopeTerms(l, w, mAlt, p.x - q.x);
      DistinctIfOpposite(p, q);
      NonzeroProduct(w, w);
      SmallSums(p.x, q.x);
      NonzeroProduct(p.x - q.x, w * w);
      NonzeroProduct(w, mAlt);
    } else {
      EqMul(l * (p.y + q.y), p.x * p.x + p.x * q.x + q.x * q.x, w * w3, w * w3);
      EqMul(l * w, l * w, m, (p.y + q.y) * w3);
      SumSlopeTerms(l, w, m, p.y + q.y);
      NonzeroSum(p, q, s, l);
      NonzeroProduct(w, w);
      NonzeroProduct(w, w * w);
      NonzeroProduct(p.y + q.y, w3);
      NonzeroProduct(w, m);
    }
  }

  lemma {:induction false} SumSlopeTerms(l: int, w: int, m: int, d: int)
    ensures l * w * m == l * (w * m) && l * w * (d * (w * (w * w))) == l * d * (w * (w * (w * w)))
  {
  }

  lemma {:induction false} AlternateSlope(p: CurvePoint, q: CurvePoint, l: int)
    requires p.Affine? && q.Affine? && Eq(l * (q.x - p.x), q.y - p.y) && Eq(p.y + q.y, 0)
    ensures Eq(l * (p.x - q.x), 2 * p.y)
  {
    EqNeg(l * (q.x - p.x), q.y - p.y);
    assert -(l * (q.x - p.x)) == l * (p.x - q.x);
    EqAdd(p.y - q.y, p.y - q.y, p.y + q.y, 0);
  }

  lemma {:induction false} DistinctIfOpposite(p: CurvePoint, q: CurvePoint)
    requires p.Affine? && q.Affine? && Eq(p.y + q.y, 0) && p.y != 0 && (p.x == q.x ==> p == q)
    ensures p.x != q.x
  {
    SmallSums(p.y, q.y);
  }

  // Outside the degenerate case the ordinates do not cancel when the sum is finite.
  lemma {:induction false} NonzeroSum(p: CurvePoint, q: CurvePoint, s: CurvePoint, l: int)
    requires Slope(p, q, s, l)
    requires !(Eq(p.y + q.y, 0) && Eq(p.x * p.x + p.x * q.x + q.x * q.x, 0))
    ensures !Eq(p.y + q.y, 0)
  {
    ZeroSlope(l, p.y + q.y, p.x * p.x + p.x * q.x + q.x * q.x);
  }

  lemma {:induction false} ZeroSlope(l: int, d: int, n: int)
    requires Eq(l * d, n)
    ensures Eq(d, 0) ==> Eq(n, 0)
  {
    if Eq(d, 0) {
      EqMul(l, l, d, 0);
    }
  }

  lemma {:induction false} UnifiedX(t: int, rrAlt: int, mAlt: int, w: int, p: CurvePoint, q: CurvePoint, s: CurvePoint, l: int)
    requires OnLine(p, q, s, l) && Eq(t, (p.x + q.x) * (w * w)) && Eq(rrAlt, l * (w * mAlt))
    ensures var v := w * mAlt; var qq := Neg(Mul(Mul(mAlt, mAlt), t));
      Eq(qq, -((p.x + q.x) * (v * v))) && Eq(Add(Mul(rrAlt, rrAlt), qq), s.x * (v * v))
  {
    var v := w * mAlt;
    UnifiedQ(t, mAlt, w, p.x + q.x);
    UnifiedSquare(Neg(Mul(Mul(mAlt, mAlt), t)), rrAlt, l, v, p.x, q.x);
    EqMul(s.x, l * l - p.x - q.x, v * v, v * v);
  }

  lemma {:induction false} UnifiedQ(t: int, mAlt: int, w: int, d: int)
    requires Eq(t, d * (w * w))
    ensures Eq(Neg(Mul(Mul(mAlt, mAlt), t)), -(d * (w * mAlt * (w * mAlt))))
  {
    EqMul(mAlt, mAlt, mAlt, mAlt);
    EqMul(Mul(mAlt, mAlt), mAlt * mAlt, t, d * (w * w));
    SquareTerms(d, w, mAlt);
    EqNeg(Mul(Mul(mAlt, mAlt), t), d * (w * mAlt * (w * mAlt)));
  }

  lemma {:induction false} UnifiedSquare(qq: int, rrAlt: int, l: int, v: int, x: int, x': int)
    requires Eq(qq, -((x + x') * (v * v))) && Eq(rrAlt, l * v)
    ensures Eq(Add(Mul(rrAlt, rrAlt), qq), (l * l - x - x') * (v * v))
  {
    EqMul(rrAlt, l * v, rrAlt, l * v);
    EqAdd(Mul(rrAlt, rrAlt), l * v * (l * v), qq, -((x + x') * (v * v)));
    UnifiedXTerms(l, v, x, x');
  }

  lemma {:induction false} UnifiedXTerms(l: int, v: int, x: int, x': int)
    ensures l * v * (l * v) + -((x + x') * (v * v)) == (l * l - x - x') * (v * v)
  {
  }

  lemma {:induction false} UnifiedPower(p: CurvePoint, q: CurvePoint, w: int, t: int, m: int, rrAlt: int, mAlt: int, degenerate: bool)
    requires Fraction(p, q, w, t, m, rrAlt, mAlt, degenerate)
    ensures var v := w * mAlt; var n := Mul(mAlt, mAlt);
      Eq(if degenerate then m else Mul(n, n), (p.y + q.y) * (v * (v * v)))
  {
    var v := w * mAlt;
    if degenerate {
      EqMul(p.y + q.y, 0, v * (v * v), v * (v * v));
      EqMul(p.y + q.y, 0, w * (w * w), w * (w * w));
    } else {
      EqMul(m, m, m, m);
      EqMul(Mul(m, m), m * m, Mul(m, m), m * m);
      EqMul(m, (p.y + q.y) * (w * (w * w)), m * (m * m), m * (m * m));
      FourthPower(m, w, p.y + q.y);
    }
  }

  lemma {:induction false} FourthPower(m: int, w: int, d: int)
    ensures m * m * (m * m) == m * (m * (m * m))
    ensures d * (w * (w * w)) * (m * (m * m)) == d * (w * m * (w * m * (w * m)))
  {
  }

  lemma {:induction false} UnifiedY(qq: int, rrAlt: int, n: int, x: int, l: int, v: int, p: CurvePoint, q: CurvePoint, s: CurvePoint)
    requires Slope(p, q, s, l) && Eq(qq, -((p.x + q.x) * (v * v))) && Eq(rrAlt, l * v) && Eq(x, s.x * (v * v))
    requires Eq(n, (p.y + q.y) * (v * (v * v)))
    ensures Eq(Neg(Add(Mul(Add(Mul(x, 2), qq), rrAlt), n)), 2 * s.y * (v * (v * v)))
  {
    UnifiedOrdinate(qq, rrAlt, n, x, l, v, p.x + q.x, p.y + q.y, s.x);
    TwiceY(p, q, s, l);
    EqMul(2 * s.y, l * (p.x + q.x - 2 * s.x) - (p.y + q.y), v * (v * v), v * (v * v));
  }

  lemma {:induction false} UnifiedOrdinate(qq: int, rrAlt: int, n: int, x: int, l: int, v: int, xs: int, ys: int, x3: int)
    requires Eq(qq, -(xs * (v * v))) && Eq(rrAlt, l * v) && Eq(x, x3 * (v * v)) && Eq(n, ys * (v * (v * v)))
    ensures Eq(Neg(Add(Mul(Add(Mul(x, 2), qq), rrAlt), n)), (l * (xs - 2 * x3) - ys) * (v * (v * v)))
  {
    var b := x3 * (v * v) * 2 + -(xs * (v * v));
    EqMul(x, x3 * (v * v), 2, 2);
    EqAdd(Mul(x, 2), x3 * (v * v) * 2, qq, -(xs * (v * v)));
    EqMul(Add(Mul(x, 2), qq), b, rrAlt, l * v);
    OrdinateSum(Mul(Add(Mul(x, 2), qq), rrAlt), b * (l * v), n, ys * (v * (v * v)));
    UnifiedYTerms(l, v, xs, ys, x3);
  }

  lemma {:induction false} OrdinateSum(a: int, a': int, n: int, n': int)
    requires Eq(a, a') && Eq(n, n')
    ensures Eq(Neg(Add(a, n)), -(a' + n'))
  {
    EqAdd(a, a', n, n');
    EqNeg(Add(a, n), a' + n');
  }

  lemma {:induction false} UnifiedYTerms(l: int, v: int, xs: int, ys: int, x3: int)
    ensures -((x3 * (v * v) * 2 + -(xs * (v * v))) * (l * v) + ys * (v * (v * v)))
         == (l * (xs - 2 * x3) - ys) * (v * (v * v))
  {
  }

  // The line seen from both of its points.
  lemma {:induction false} TwiceY(p: CurvePoint, q: CurvePoint, s: CurvePoint, l: int)
    requires Slope(p, q, s, l)
    ensures Eq(2 * s.y, l * (p.x + q.x - 2 * s.x) - (p.y + q.y))
  {
    TwiceOrdinate(p.x, p.y, q.x, q.y, s.x, s.y, l);
  }

  lemma {:induction false} TwiceOrdinate(x: int, y: int, x': int, y': int, x3: int, y3: int, l: int)
    requires Eq(y3, l * (x - x3) - y) && Eq(l * (x' - x), y' - y)
    ensures Eq(2 * y3, l * (x + x' - 2 * x3) - (y + y'))
  {
    var a, d := l * (x - x3) - y, y' - y;
    EqAdd(y3, a, y3, a);
    EqAdd(d, l * (x' - x), d, d);
    EqAdd(y3 + y3, a + a, 0, l * (x' - x) - d) by {
      EqAdd(l * (x' - x), d, d, d);
    }
    TwiceYTerms(l, x, y, x', y', x3);
  }

  lemma {:induction false} TwiceYTerms(l: int, x: int, y: int, x': int, y': int, x3: int)
    ensures 2 * (l * (x - x3) - y) + (l * (x' - x) - (y' - y)) == l * (x + x' - 2 * x3) - (y + y')
  {
  }

  lemma {:induction false} Quadruple(x: int, y: int, v: int, s: CurvePoint)
    requires Fermat() && s.Affine? && !Eq(v, 0) && Eq(x, s.x * (v * v)) && Eq(y, 2 * s.y * (v * (v * v)))
    ensures Scaled(Mul(x, 4), Mul(y, 4), 2 * v, s)
  {
    NonzeroProduct(2, v);
    EqMul(x, s.x * (v * v), 4, 4);
    EqMul(y, 2 * s.y * (v * (v * v)), 4, 4);
    QuadrupleTerms(s.x, s.y, v);
  }

  lemma {:induction false} QuadrupleTerms(x: int, y: int, v: int)
    ensures x * (v * v) * 4 == x * (2 * v * (2 * v))
    ensures 2 * y * (v * (v * v)) * 4 == y * (2 * v * (2 * v * (2 * v)))
  {
  }

  lemma {:induction false} UnifiedScale(z: int, u: int, mAlt: int)
    ensures Eq(2 * (z * u * mAlt), Mul(Mul(z, mAlt), 2) * u)
    ensures IsZero(Mul(z, mAlt)) <==> Eq(z * mAlt, 0)
  {
    EqMul(z, z, mAlt, mAlt);
    EqMul(Mul(z, mAlt), z * mAlt, 2, 2);
    EqMul(Mul(Mul(z, mAlt), 2), z * mAlt * 2, u, u);
    assert z * mAlt * 2 * u == 2 * (z * u * mAlt);
  }
}
