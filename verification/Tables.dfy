// Tables of affine points from Jacobian ones with a single field inversion:
// every other inverse is recovered by walking backwards.
module Tables {
  import opened Arith
  import opened Curve
  import opened Jacobian

  // ---- Montgomery's batch inversion ----

  ghost function Product(a: seq<int>, k: nat): int
    requires k <= |a|
  {
    if k == 0 then 1 else Product(a, k - 1) * a[k - 1]
  }

  lemma {:induction false} ProductNonzero(a: seq<int>, k: nat)
    requires Fermat() && k <= |a|
    ensures Eq(Product(a, k), 0) <==> exists i :: 0 <= i < k && Eq(a[i], 0)
  {
    EqIsCong(1, 0);
    if k > 0 {
      ProductNonzero(a, k - 1);
      var x, y := Product(a, k - 1), a[k - 1];
      if Eq(x, 0) {
        EqMul(x, 0, y, y);
      } else if Eq(y, 0) {
        EqMul(x, x, y, 0);
      } else {
        NonzeroProduct(x, y);
      }
    }
  }

  // 1 if there is an inverse for every element, 0 otherwise.
  ghost function AllInvertible(a: seq<int>): int {
    if exists i :: 0 <= i < |a| && Eq(a[i], 0) then 0 else 1
  }

  // Before index i is finished, u inverts the product of everything up to it.
  ghost predicate Inverting(a: seq<int>, u: int, i: nat) {
    i < |a| && Eq(u * Product(a, i + 1), AllInvertible(a)) && (AllInvertible(a) == 0 ==> Eq(u, 0))
  }

  lemma {:induction false} StartInverting(a: seq<int>, last: int)
    requires Fermat() && |a| > 0 && Eq(last, Product(a, |a|))
    ensures Inverting(a, Inv(last), |a| - 1)
  {
    ProductNonzero(a, |a|);
    if AllInvertible(a) == 0 {
      InvOfZero(last);
      EqMul(Inv(last), 0, Product(a, |a|), Product(a, |a|));
    } else {
      InvIsInverse(last);
      EqMul(Inv(last), Inv(last), last, Product(a, |a|));
      assert last * Inv(last) == Inv(last) * last;
    }
  }

  lemma {:induction false} InvertOne(a: seq<int>, u: int, j: nat, before: int)
    requires Inverting(a, u, j) && j > 0 && Eq(before, Product(a, j))
    ensures Eq(Mul(before, u) * a[j], AllInvertible(a))
    ensures AllInvertible(a) == 0 ==> Eq(Mul(before, u), 0)
    ensures Inverting(a, Mul(u, a[j]), j - 1)
  {
    var x := Product(a, j);
    EqMul(before, x, u, u);
    EqMul(Mul(before, u), x * u, a[j], a[j]);
    MulSwap(x, u, a[j]);
    EqMul(u, u, a[j], a[j]);
    EqMul(Mul(u, a[j]), u * a[j], x, x);
    MulSwap(a[j], u, x);
    MulSwap(u, a[j], x);
    if AllInvertible(a) == 0 {
      EqMul(before, x, u, 0);
      EqMul(u, 0, a[j], a[j]);
    }
  }

  // Element k of the result is the inverse of element k of a; if any element
  // of a vanishes, the whole result does.
  ghost predicate InverseAt(r: seq<int>, a: seq<int>, k: nat)
    requires k < |r| && k < |a|
  {
    Eq(r[k] * a[k], AllInvertible(a)) && (AllInvertible(a) == 0 ==> Eq(r[k], 0))
  }

  // secp256k1_fe_inv_all_var
  method InvAll(r: array<int>, a: array<int>)
    requires Fermat() && r != a && r.Length == a.Length
    modifies r
    ensures forall k :: 0 <= k < a.Length ==> InverseAt(r[..], a[..], k)
  {
    if a.Length < 1 {
      return;
    }
    RunningProducts(r, a);
    var i := a.Length - 1;
    StartInverting(a[..], r[i]);
    var u := Inv(r[i]);
    while i > 0
      invariant 0 <= i < a.Length && Inverting(a[..], u, i)
      invariant ProductsBelow(r[..], a[..], i)
      invariant InversesAbove(r[..], a[..], i)
    {
      var j := i;
      i := i - 1;
      InvertOne(a[..], u, j, r[i]);
      ghost var before := r[..];
      r[j] := Mul(r[i], u);
      KeepInverses(before, r[..], a[..], j);
      u := Mul(u, a[j]);
    }
    ghost var before := r[..];
    r[0] := u;
    FirstInverse(before, r[..], a[..], u);
  }

  ghost predicate ProductsBelow(r: seq<int>, a: seq<int>, i: nat) {
    i <= |r| && i <= |a| && forall k :: 0 <= k < i ==> Eq(r[k], Product(a, k + 1))
  }

  ghost predicate InversesAbove(r: seq<int>, a: seq<int>, i: nat) {
    |r| == |a| && forall k :: i < k < |a| ==> InverseAt(r, a, k)
  }

  // Lines 276-281: r[i] becomes the product of everything up to i.
  method RunningProducts(r: array<int>, a: array<int>)
    requires r != a && 0 < r.Length == a.Length
    modifies r
    ensures ProductsBelow(r[..], a[..], a.Length)
  {
    r[0] := a[0];
    assert Product(a[..], 1) == Product(a[..], 0) * a[0];
    for i := 1 to a.Length
      invariant ProductsBelow(r[..], a[..], i)
    {
      EqMul(r[i - 1], Product(a[..], i), a[i], a[i]);
      r[i] := Mul(r[i - 1], a[i]);
    }
  }

  lemma {:induction false} KeepInverses(r: seq<int>, r': seq<int>, a: seq<int>, j: nat)
    requires 0 < j < |a| && ProductsBelow(r, a, j) && InversesAbove(r, a, j)
    requires |r'| == |r| && forall k :: 0 <= k < |r| && k != j ==> r'[k] == r[k]
    requires InverseAt(r', a, j)
    ensures ProductsBelow(r', a, j - 1) && InversesAbove(r', a, j - 1)
  {
    forall k: nat | j <= k < |a|
      ensures InverseAt(r', a, k)
    {
      assert k > j ==> InverseAt(r, a, k);
    }
  }

  lemma {:induction false} FirstInverse(r: seq<int>, r': seq<int>, a: seq<int>, u: int)
    requires |a| > 0 && Inverting(a, u, 0) && InversesAbove(r, a, 0)
    requires |r'| == |r| && r'[0] == u && forall k :: 0 < k < |r| ==> r'[k] == r[k]
    ensures forall k :: 0 <= k < |a| ==> InverseAt(r', a, k)
  {
    assert Product(a, 1) == Product(a, 0) * a[0];
    forall k: nat | k < |a|
      ensures InverseAt(r', a, k)
    {
      assert k > 0 ==> InverseAt(r, a, k);
    }
  }

  // ---- batch normalization ----

  // secp256k1_ge_set_gej_zinv
  function SetGejZinv(a: Gej, zi: int): Ge {
    var zi2 := Mul(zi, zi);
    var zi3 := Mul(zi2, zi);
    Ge(Mul(a.x, zi2), Mul(a.y, zi3), a.infinity)
  }

  // Multiplying by zi^2 and zi^3 multiplies the scale by zi.
  lemma {:induction false} SetGejZinvScales(a: Gej, zi: int, w: int, k: int, p: Point)
    requires Scaled(a.x, a.y, w, p) && Eq(w * zi, k) && !Eq(k, 0)
    ensures var b := SetGejZinv(a, zi); Scaled(b.x, b.y, k, p)
  {
    var zi2 := Mul(zi, zi);
    EqMul(zi, zi, zi, zi);
    EqMul(zi2, zi * zi, zi, zi);
    EqMul(a.x, p.x * (w * w), zi2, zi * zi);
    EqMul(a.y, p.y * (w * (w * w)), Mul(zi2, zi), zi * zi * zi);
    ZinvTerms(p.x, p.y, w, zi);
    Rescale(Mul(a.x, zi2), Mul(a.y, Mul(zi2, zi)), w * zi, k, p);
  }

  lemma {:induction false} ZinvTerms(x: int, y: int, w: int, zi: int)
    ensures x * (w * w) * (zi * zi) == x * (w * zi * (w * zi))
    ensures y * (w * (w * w)) * (zi * zi * zi) == y * (w * zi * (w * zi * (w * zi)))
  {
  }

  // secp256k1_ge_set_gej and secp256k1_ge_set_gej_var, which agree on finite points.
  // The Jacobian coordinates are replaced by the affine ones as well.
  method GeSetGejVar(a: Gej, ghost p: CurvePoint) returns (r: Ge, a': Gej)
    requires Fermat() && Represents(a, 1, p)
    ensures RepresentsAffine(r, 1, p) && r.infinity == a.infinity
    ensures Represents(a', 1, p) && a' == if a.infinity then a else Gej(r.x, r.y, 1, false)
  {
    if a.infinity {
      return Ge(0, 0, true), a;
    }
    var zi := Inv(a.z);
    InvIsInverse(a.z);
    SetGejZinvScales(a, zi, a.z * 1, 1, p);
    r := SetGejZinv(a, zi);
    a' := Gej(r.x, r.y, 1, false);
  }

  // The product of the z coordinates of the finite points among the first k.
  ghost function FiniteProduct(a: seq<Gej>, k: nat): int
    requires k <= |a|
  {
    if k == 0 then 1
    else if a[k - 1].infinity then FiniteProduct(a, k - 1)
    else FiniteProduct(a, k - 1) * a[k - 1].z
  }

  ghost predicate ArePoints(a: seq<Gej>, p: seq<CurvePoint>) {
    |a| == |p| && forall i :: 0 <= i < |a| ==> Represents(a[i], 1, p[i])
  }

  lemma {:induction false} FiniteProductNonzero(a: seq<Gej>, p: seq<CurvePoint>, k: nat)
    requires Fermat() && ArePoints(a, p) && k <= |a|
    ensures !Eq(FiniteProduct(a, k), 0)
  {
    EqIsCong(1, 0);
    if k > 0 {
      FiniteProductNonzero(a, p, k - 1);
      assert Represents(a[k - 1], 1, p[k - 1]);
      if !a[k - 1].infinity {
        NonzeroProduct(FiniteProduct(a, k - 1), a[k - 1].z);
      }
    }
  }

  // Infinite points do not contribute.
  lemma {:induction false} FiniteProductSkips(a: seq<Gej>, j: nat, k: nat)
    requires j <= k <= |a| && forall m :: j <= m < k ==> a[m].infinity
    ensures FiniteProduct(a, k) == FiniteProduct(a, j)
  {
    if j < k {
      FiniteProductSkips(a, j, k - 1);
    }
  }

  // Running products sit in the x coordinates below `last` and inverses above.
  ghost predicate Prefixes(r: seq<Ge>, a: seq<Gej>, last: nat) {
    |r| == |a| && forall k :: 0 <= k < last && k < |a| && !a[k].infinity ==> Eq(r[k].x, FiniteProduct(a, k + 1))
  }

  ghost predicate Inverses(r: seq<Ge>, a: seq<Gej>, last: int) {
    |r| == |a| && forall k :: last < k < |a| && k >= 0 && !a[k].infinity ==> Eq(a[k].z * r[k].x, 1)
  }

  // Lines 135-145: running products over the finite points, and the index of the last of them.
  method FinitePrefixes(r: array<Ge>, a: seq<Gej>) returns (last: int)
    requires r.Length == |a|
    modifies r
    ensures -1 <= last < |a| && Prefixes(r[..], a, |a|)
    ensures last >= 0 ==> !a[last].infinity
    ensures forall k :: last < k < |a| ==> a[k].infinity
    ensures last == -1 ==> r[..] == old(r[..])
  {
    last := -1;
    for i := 0 to |a|
      invariant -1 <= last < i && Prefixes(r[..], a, i)
      invariant last >= 0 ==> !a[last].infinity
      invariant forall k :: last < k < i ==> a[k].infinity
      invariant last == -1 ==> r[..] == old(r[..])
    {
      if !a[i].infinity {
        FiniteProductSkips(a, last + 1, i);
        if last == -1 {
          r[i] := r[i].(x := a[i].z);
        } else {
          EqMul(r[last].x, FiniteProduct(a, last + 1), a[i].z, a[i].z);
          r[i] := r[i].(x := Mul(r[last].x, a[i].z));
        }
        last := i;
      }
    }
  }

  // Lines 150-162: the products are replaced by inverses from the top down.
  method FiniteInverses(r: array<Ge>, a: seq<Gej>, last0: nat, ghost p: seq<CurvePoint>)
    requires Fermat() && r.Length == |a| && last0 < |a| && !a[last0].infinity && ArePoints(a, p)
    requires forall k :: last0 < k < |a| ==> a[k].infinity
    requires Prefixes(r[..], a, |a|)
    modifies r
    ensures Inverses(r[..], a, -1)
  {
    var last := last0;
    FiniteProductNonzero(a, p, last + 1);
    var u := Inv(r[last].x);
    InverseOf(u, r[last].x, FiniteProduct(a, last + 1));
    var i := last;
    while i > 0
      invariant 0 <= i <= last && Recovering(r[..], a, u, last, i)
    {
      i := i - 1;
      if !a[i].infinity {
        ghost var before := r[..];
        r[last] := r[last].(x := Mul(r[i].x, u));
        RecoverStep(before, r[..], a, u, last, i);
        u := Mul(u, a[last].z);
        last := i;
      }
    }
    ghost var before := r[..];
    r[last] := r[last].(x := u);
    RecoverFirst(before, r[..], a, u, last);
  }

  // u inverts the product up to `last`, and nothing finite lies from i to there.
  ghost predicate Recovering(r: seq<Ge>, a: seq<Gej>, u: int, last: nat, i: nat) {
    && last < |a| && !a[last].infinity
    && (forall k :: i <= k < last ==> a[k].infinity)
    && Eq(u * FiniteProduct(a, last + 1), 1)
    && Prefixes(r, a, last) && Inverses(r, a, last)
  }

  lemma {:induction false} RecoverStep(r: seq<Ge>, r': seq<Ge>, a: seq<Gej>, u: int, last: nat, i: nat)
    requires i < last && Recovering(r, a, u, last, i + 1) && !a[i].infinity
    requires |r'| == |r| && r'[last].x == Mul(r[i].x, u) && forall k :: 0 <= k < |r| && k != last ==> r'[k] == r[k]
    ensures Recovering(r', a, Mul(u, a[last].z), i, i)
  {
    FiniteProductSkips(a, i + 1, last);
    assert FiniteProduct(a, last + 1) == FiniteProduct(a, i + 1) * a[last].z;
    InvertPoint(u, r[i].x, FiniteProduct(a, i + 1), a[last].z);
  }

  lemma {:induction false} RecoverFirst(r: seq<Ge>, r': seq<Ge>, a: seq<Gej>, u: int, last: nat)
    requires Recovering(r, a, u, last, 0)
    requires |r'| == |r| && r'[last].x == u && forall k :: 0 <= k < |r| && k != last ==> r'[k] == r[k]
    ensures Inverses(r', a, -1)
  {
    FiniteProductSkips(a, 0, last);
    assert FiniteProduct(a, last + 1) == 1 * a[last].z;
    assert u * a[last].z == a[last].z * u;
  }

  lemma {:induction false} InverseOf(u: int, x: int, y: int)
    requires Fermat() && u == Inv(x) && Eq(x, y) && !Eq(y, 0)
    ensures Eq(u * y, 1)
  {
    InvIsInverse(x);
    EqMul(u, u, x, y);
    assert x * u == u * x;
  }

  lemma {:induction false} InvertPoint(u: int, x: int, before: int, z: int)
    requires Eq(u * (before * z), 1) && Eq(x, before)
    ensures Eq(z * Mul(x, u), 1) && Eq(Mul(u, z) * before, 1)
  {
    EqMul(x, before, u, u);
    EqMul(z, z, Mul(x, u), before * u);
    MulSwap(before, u, z);
    MulSwap(before, z, u);
    EqMul(u, u, z, z);
    EqMul(Mul(u, z), u * z, before, before);
    MulSwap(u, z, before);
  }

  // secp256k1_ge_set_all_gej_var: every point in affine coordinates, with one inversion for all.
  method SetAllGejVar(r: array<Ge>, a: seq<Gej>, ghost p: seq<CurvePoint>)
    requires Fermat() && r.Length == |a| && ArePoints(a, p)
    modifies r
    // If every point is infinite the function returns early and sets no flag.
    ensures (forall i :: 0 <= i < |a| ==> RepresentsAffine(r[i], 1, p[i])) <==>
            (exists k :: 0 <= k < |a| && !a[k].infinity) || (forall i :: 0 <= i < |a| ==> old(r[i]).infinity)
  {
    var last := FinitePrefixes(r, a);
    if last == -1 {
      assert forall i :: 0 <= i < |a| ==> Represents(a[i], 1, p[i]) && p[i] == Infinity;
      assert forall i :: 0 <= i < |a| ==> r[i] == old(r[..])[i] && RepresentsAffine(r[i], 1, p[i]) == r[i].infinity;
      return;
    }
    FiniteInverses(r, a, last, p);
    for i := 0 to |a|
      invariant Inverses(r[..], a, i - 1)
      invariant forall k :: 0 <= k < i ==> RepresentsAffine(r[k], 1, p[k])
    {
      assert Represents(a[i], 1, p[i]);
      r[i] := r[i].(infinity := a[i].infinity);
      if !a[i].infinity {
        SetGejZinvScales(a[i], r[i].x, a[i].z * 1, 1, p[i]);
        r[i] := SetGejZinv(a[i], r[i].x);
      }
    }
  }
}
