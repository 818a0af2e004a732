// The field modulo P as seen by the point formulas, and the curve
// y^2 = x^3 + 7 with its chord and tangent law.
module Curve {
  import opened Arith
  import opened Powers
  import opened Groups
  import Field10x26

  const P: int := Field10x26.P

  // The representative in [0, P). It is found by going round the cycle of the
  // residues, in three functions that call each other: this way the modulus shows
  // up in a proof only where ReduceIsMod brings it in.
  function Reduce(a: int): (r: int)
    ensures 0 <= r < P
    decreases Distance(a), 2
  {
    Walk(a)
  }

  function Walk(a: int): (r: int)
    ensures 0 <= r < P
    decreases Distance(a), 1
  {
    Round(a)
  }

  function Round(a: int): (r: int)
    ensures 0 <= r < P
    decreases Distance(a), 0
  {
    if a == 0 then 0 else if a > 0 then Next(Reduce(a - 1)) else Previous(Reduce(a + 1))
  }

  function Distance(a: int): nat { if a < 0 then -a else a }

  function Next(r: int): int { if r == P - 1 then 0 else r + 1 }

  function Previous(r: int): int { if r == 0 then P - 1 else r - 1 }

  lemma {:induction false} ReduceIsMod(a: int)
    ensures Reduce(a) == a % P
    decreases Distance(a)
  {
    assert Walk(a) == Round(a);
    if a > 0 {
      ReduceIsMod(a - 1);
    } else if a < 0 {
      ReduceIsMod(a + 1);
    }
  }

  // The same residue.
  predicate Eq(a: int, b: int) { Reduce(a) == Reduce(b) }

  lemma {:induction false} EqIsCong(a: int, b: int)
    ensures Eq(a, b) <==> Cong(a, b, P)
  {
    ReduceIsMod(a);
    ReduceIsMod(b);
  }

  lemma {:induction false} EqReduce(a: int)
    ensures Eq(Reduce(a), a)
  {
    ReduceIsMod(a);
    ReduceIsMod(Reduce(a));
  }

  // ---- field operations ----

  function Mul(a: int, b: int): int { Reduce(a * b) }

  function Add(a: int, b: int): int { Reduce(a + b) }

  function Neg(a: int): int { Reduce(-a) }

  // secp256k1_fe_inv, a power by the addition chain.
  function Inv(a: int): int { Reduce(Pow(a, P - 2)) }

  function IsZero(a: int): bool { Reduce(a) == 0 }

  lemma {:induction false} EqMul(a: int, a': int, b: int, b': int)
    requires Eq(a, a') && Eq(b, b')
    ensures Eq(a * b, a' * b') && Eq(Mul(a, b), a' * b')
  {
    EqIsCong(a, a');
    EqIsCong(b, b');
    CongMul(a, a', b, b', P);
    EqIsCong(a * b, a' * b');
    EqReduce(a * b);
  }

  lemma {:induction false} EqAdd(a: int, a': int, b: int, b': int)
    requires Eq(a, a') && Eq(b, b')
    ensures Eq(a + b, a' + b') && Eq(a - b, a' - b') && Eq(Add(a, b), a' + b')
  {
    EqIsCong(a, a');
    EqIsCong(b, b');
    CongAdd(a, a', b, b', P);
    EqIsCong(a + b, a' + b');
    EqIsCong(a - b, a' - b');
    EqReduce(a + b);
  }

  lemma {:induction false} EqNeg(a: int, a': int)
    requires Eq(a, a')
    ensures Eq(-a, -a') && Eq(Neg(a), -a')
  {
    EqAdd(0, 0, a, a');
    EqReduce(-a);
  }

  // b - a as the code forms it.
  lemma {:induction false} EqSub(a: int, a': int, b: int, b': int)
    requires Eq(a, a') && Eq(b, b')
    ensures Eq(Add(Neg(a), b), b' - a')
  {
    EqNeg(a, a');
    EqAdd(Neg(a), -a', b, b');
  }

  // ---- what is taken for granted about P and N ----

  ghost predicate FermatAt(a: int) { !Eq(a, 0) ==> Eq(Pow(a, P - 1), 1) }

  // Fermat's little theorem for P.
  ghost predicate Fermat() { forall a :: FermatAt(a) }

  ghost predicate FermatNAt(a: int) { !Cong(a, 0, N) ==> Cong(Pow(a, N - 1), 1, N) }

  // Fermat's little theorem for N.
  ghost predicate FermatN() { forall a :: FermatNAt(a) }

  lemma {:induction false} InvIsInverse(a: int)
    requires Fermat() && !Eq(a, 0)
    ensures Eq(a * Inv(a), 1)
  {
    assert FermatAt(a);
    PowAdd(a, 1, P - 2);
    assert Pow(a, 1) == a * Pow(a, 0);
    EqReduce(Pow(a, P - 2));
    EqMul(a, a, Inv(a), Pow(a, P - 2));
  }

  lemma {:induction false} PowOfZero(a: int, e: nat)
    requires Eq(a, 0) && e > 0
    ensures Eq(Pow(a, e), 0)
  {
    EqMul(a, 0, Pow(a, e - 1), Pow(a, e - 1));
  }

  lemma {:induction false} InvOfZero(a: int)
    requires Eq(a, 0)
    ensures Eq(Inv(a), 0)
  {
    PowOfZero(a, P - 2);
    EqReduce(Pow(a, P - 2));
  }

  // A nonzero factor cancels.
  lemma {:induction false} Cancel(a: int, b: int, c: int)
    requires Fermat() && !Eq(c, 0) && Eq(a * c, b * c)
    ensures Eq(a, b)
  {
    InvIsInverse(c);
    EqMul(a * c, b * c, Inv(c), Inv(c));
    MulAssoc(a, c, Inv(c));
    MulAssoc(b, c, Inv(c));
    EqMul(a, a, c * Inv(c), 1);
    EqMul(b, b, c * Inv(c), 1);
  }

  lemma {:induction false} NonzeroProduct(a: int, b: int)
    requires Fermat() && !Eq(a, 0) && !Eq(b, 0)
    ensures !Eq(a * b, 0)
  {
    if Eq(a * b, 0) {
      Cancel(a, 0, b);
    }
  }

  // ---- points ----

  datatype Point = Infinity | Affine(x: int, y: int)

  predicate OnCurve(p: Point) {
    p.Affine? ==> 0 <= p.x < P && 0 <= p.y < P && Eq(p.y * p.y, p.x * p.x * p.x + 7)
  }

  // The generator of SEC 2, section 2.4.1.
  const GENERATOR: Point := Affine(0x79BE667E_F9DCBBAC_55A06295_CE870B07_029BFCDB_2DCE28D9_59F2815B_16F81798,
                                   0x483ADA77_26A3C465_5DA4FBFC_0E1108A8_FD17B448_A6855419_9C47D08F_FB10D4B8)

  lemma {:induction false} GeneratorOnCurve()
    ensures OnCurve(GENERATOR)
  {
    var x, y := GENERATOR.x, GENERATOR.y;
    CongIntro(y * y, x * x * x + 7, -0x1B88_8E01_A06E_9740_17A2_8A5B_4DA4_3616_9761_C973_0B7A_EEDF_75FC_60F6_A33C_FC77_92FE_7471_1F02_5D59_0B10_E57F_1B3A_7CE3_8FFC_4C88_5C51_5894_B45C_19C9_F413_E5E9, P);
    EqIsCong(y * y, x * x * x + 7);
  }

  type CurvePoint = p: Point | OnCurve(p) witness Infinity

  // r is the third point of the line with slope l through p and q, reflected.
  ghost predicate OnLine(p: Point, q: Point, r: Point, l: int) {
    && p.Affine? && q.Affine? && r.Affine?
    && Eq(r.x, l * l - p.x - q.x)
    && Eq(r.y, l * (p.x - r.x) - p.y)
  }

  ghost predicate Chord(p: Point, q: Point, r: Point, l: int) {
    OnLine(p, q, r, l) && Eq(l * (q.x - p.x), q.y - p.y)
  }

  ghost predicate Tangent(p: Point, r: Point, l: int) {
    OnLine(p, p, r, l) && Eq(l * (2 * p.y), 3 * (p.x * p.x))
  }

  // The sum of two points is what the chord and tangent construction gives.
  ghost predicate LawAt(g: Group<CurvePoint>, p: CurvePoint, q: CurvePoint) {
    p.Affine? && q.Affine? ==>
      if p.x != q.x then exists l :: Chord(p, q, g.add(p, q), l)
      else if p.y == q.y && p.y != 0 then exists l :: Tangent(p, g.add(p, q), l)
      else g.add(p, q) == Infinity
  }

  // The curve's points with chord and tangent addition form a group of exponent N.
  ghost predicate IsCurveGroup(g: Group<CurvePoint>) {
    g.HasExponent(N) && g.zero == Infinity && forall p, q :: LawAt(g, p, q)
  }

  lemma {:induction false} SameResidue(a: int, b: int)
    requires 0 <= a < P && 0 <= b < P
    ensures Eq(a, b) <==> a == b
  {
    ReduceIsMod(a);
    ReduceIsMod(b);
  }

  // N is odd, so no point is its own negative.
  lemma {:induction false} NoPointOfOrderTwo(g: Group<CurvePoint>, p: CurvePoint)
    requires IsCurveGroup(g) && p.Affine?
    ensures p.y != 0 && g.add(p, p).Affine?
  {
    if g.add(p, p) == Infinity {
      TimesOne(g, p);
      TimesTimes(g, (N - 1) / 2, 2, p);
      TimesZero(g, (N - 1) / 2);
      TimesSucc(g, N - 1, p);
      Comm(g, g.zero, p);
      assert false;
    }
    assert LawAt(g, p, p);
  }

  // The negative of a point is its mirror image.
  lemma {:induction false} NegIsMirror(g: Group<CurvePoint>, p: CurvePoint)
    requires IsCurveGroup(g) && p.Affine?
    ensures g.neg(p).Affine? && g.neg(p).x == p.x && g.neg(p).y == P - p.y && p.y != 0
  {
    NoPointOfOrderTwo(g, p);
    var m := Affine(p.x, P - p.y);
    MirrorOnCurve(p);
    assert LawAt(g, p, m);
    NegUnique(g, p, m);
  }

  lemma {:induction false} MirrorOnCurve(p: CurvePoint)
    requires p.Affine? && p.y != 0
    ensures OnCurve(Affine(p.x, P - p.y)) && P - p.y != p.y
  {
    CongIntro((P - p.y) * (P - p.y), p.y * p.y, P - 2 * p.y, P);
    EqIsCong((P - p.y) * (P - p.y), p.y * p.y);
  }

  // Points with the same x are equal or opposite.
  lemma {:induction false} SameX(g: Group<CurvePoint>, p: CurvePoint, q: CurvePoint)
    requires Fermat() && IsCurveGroup(g) && p.Affine? && q.Affine? && p.x == q.x
    ensures q == p || q == g.neg(p)
  {
    NegIsMirror(g, p);
    assert (p.y - q.y) * (p.y + q.y) == p.y * p.y - q.y * q.y;
    EqAdd(p.y * p.y, q.y * q.y, q.y * q.y, q.y * q.y);
    if !Eq(p.y - q.y, 0) && !Eq(p.y + q.y, 0) {
      NonzeroProduct(p.y - q.y, p.y + q.y);
    }
    SmallSums(p.y, q.y);
  }

  lemma {:induction false} SmallSums(a: int, b: int)
    requires 0 <= a < P && 0 <= b < P
    ensures Eq(a - b, 0) ==> a == b
    ensures Eq(a + b, 0) ==> a + b == 0 || a + b == P
  {
    EqIsCong(a - b, 0);
    EqIsCong(a + b, 0);
  }
}
