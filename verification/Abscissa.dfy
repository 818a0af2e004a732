// Points from and compared by their x coordinate.
module Abscissa {
  import opened Powers
  import opened Groups
  import opened Curve
  import opened Jacobian
  import FieldPower

  // secp256k1_gej_eq_x_var: compares x * z^2 with the stored coordinate, so no inversion is needed.
  function GejEqXVar(x: int, a: Gej): bool {
    IsZero(Add(Neg(Mul(Mul(a.z, a.z), x)), a.x))
  }

  lemma {:induction false} GejEqXVarCompares(x: int, a: Gej, p: CurvePoint)
    requires Fermat() && Represents(a, 1, p) && !a.infinity && 0 <= x < P
    ensures GejEqXVar(x, a) <==> x == p.x
  {
    var z2 := Mul(a.z, a.z);
    EqMul(a.z, a.z, a.z, a.z);
    EqMul(z2, a.z * a.z, x, x);
    assert a.z * a.z * x == x * (a.z * a.z);
    EqSub(Mul(z2, x), x * (a.z * a.z), a.x, p.x * (a.z * a.z));
    assert p.x * (a.z * a.z) - x * (a.z * a.z) == (p.x - x) * (a.z * a.z);
    NonzeroProduct(a.z, a.z);
    DifferenceZero(Add(Neg(Mul(z2, x)), a.x), x, p.x, a.z * a.z);
  }

  // secp256k1_fe_sqrt: the candidate, and whether it is a root.
  function Root(c: int): int { Reduce(Pow(c, (P + 1) / 4)) }

  function IsSquare(c: int): bool { IsZero(Add(Neg(Mul(Root(c), Root(c))), c)) }

  lemma {:induction false} RootSquared(c: int)
    ensures IsSquare(c) <==> Eq(Root(c) * Root(c), c)
  {
    var r := Root(c);
    EqMul(r, r, r, r);
    EqSub(Mul(r, r), r * r, c, c);
    if Eq(c - r * r, 0) {
      EqAdd(c - r * r, 0, r * r, r * r);
    }
    if Eq(r * r, c) {
      EqAdd(c, c, r * r, c);
    }
  }

  lemma {:induction false} SquareHasRoot(c: int, s: int)
    requires Fermat() && Eq(s * s, c)
    ensures IsSquare(c)
  {
    EqReduce(Pow(c, (P + 1) / 4));
    FermatAll(s);
    EqIsCong(Root(c), Pow(c, (P + 1) / 4));
    EqIsCong(Pow(s, P), s);
    EqIsCong(s * s, c);
    FieldPower.SqrtOfSquare(c, s, Root(c));
    EqIsCong(Root(c) * Root(c), c);
    RootSquared(c);
  }

  lemma {:induction false} FermatAll(s: int)
    requires Fermat()
    ensures Eq(Pow(s, P), s)
  {
    if Eq(s, 0) {
      PowOfZero(s, P);
    } else {
      assert FermatAt(s);
      EqMul(s, s, Pow(s, P - 1), 1);
    }
  }

  ghost predicate IsPointAt(x: int, y: int) { OnCurve(Affine(x, y)) }

  // secp256k1_ge_set_xo_var: the point with the given x whose y has the given parity, if there is one.
  method GeSetXoVar(x: int, odd: bool) returns (ok: bool, p: CurvePoint)
    requires Fermat() && 0 <= x < P
    ensures ok <==> exists y :: IsPointAt(x, y)
    ensures ok ==> p.Affine? && p.x == x && ((p.y % 2 == 1 <==> odd) || p.y == 0)
  {
    var c := Add(7, Mul(x, Mul(x, x)));
    CurveEquation(x, c);
    SquareIffPoint(x, c);
    if !IsSquare(c) {
      return false, Infinity;
    }
    ok := true;
    RootIsOrdinate(x, c);
    p := Affine(x, Root(c));
    if (p.y % 2 == 1) != odd && p.y != 0 {
      MirrorOnCurve(p);
      OtherParity(p.y);
      p := Affine(x, P - p.y);
    }
  }

  // P is odd.
  lemma {:induction false} OtherParity(y: int)
    ensures (P - y) % 2 == 1 <==> y % 2 != 1
  {
  }

  lemma {:induction false} RootIsOrdinate(x: int, c: int)
    requires IsSquare(c) && 0 <= x < P && Eq(c, x * x * x + 7)
    ensures IsPointAt(x, Root(c))
  {
    RootSquared(c);
  }

  lemma {:induction false} OrdinateIsRoot(x: int, c: int, y: int)
    requires Fermat() && IsPointAt(x, y) && Eq(c, x * x * x + 7)
    ensures IsSquare(c)
  {
    SquareHasRoot(c, y);
  }

  lemma {:induction false} SquareIffPoint(x: int, c: int)
    requires Fermat() && 0 <= x < P && Eq(c, x * x * x + 7)
    ensures IsSquare(c) <==> exists y :: IsPointAt(x, y)
  {
    if IsSquare(c) {
      RootIsOrdinate(x, c);
    }
    if y :| IsPointAt(x, y) {
      OrdinateIsRoot(x, c, y);
    }
  }

  lemma {:induction false} CurveEquation(x: int, c: int)
    requires c == Add(7, Mul(x, Mul(x, x)))
    ensures Eq(c, x * x * x + 7)
  {
    EqMul(x, x, x, x);
    EqMul(x, x, Mul(x, x), x * x);
    EqAdd(7, 7, Mul(x, Mul(x, x)), x * (x * x));
    assert x * (x * x) + 7 == x * x * x + 7;
  }

  // x and the parity of y determine the point.
  lemma {:induction false} ParityDecides(g: Group<CurvePoint>, p: CurvePoint, q: CurvePoint)
    requires Fermat() && IsCurveGroup(g) && p.Affine? && q.Affine? && p.x == q.x && p.y % 2 == q.y % 2
    ensures p == q
  {
    SameX(g, p, q);
    NegIsMirror(g, p);
  }
}
