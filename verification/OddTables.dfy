// The tables of odd multiples: built by mixed additions on a scaled curve,
// then brought to a common denominator or to affine coordinates.
module OddTables {
  import opened Arith
  import opened Powers
  import opened Groups
  import opened Curve
  import opened Jacobian
  import opened Tables

  // p generates the whole group: no smaller multiple of it vanishes.
  ghost predicate HasOrderN(g: Group<CurvePoint>, p: CurvePoint) {
    forall k: int :: 0 < k < N ==> g.Times(k, p) != g.zero
  }

  // The i-th odd multiple.
  ghost function Odd(g: Group<CurvePoint>, p: CurvePoint, i: nat): CurvePoint { g.Times(2 * i + 1, p) }

  // Adding 2p to an odd multiple never meets an equal or opposite point.
  lemma {:induction false} OddIsApart(g: Group<CurvePoint>, p: CurvePoint, i: nat)
    requires Fermat() && IsCurveGroup(g) && HasOrderN(g, p) && 2 * i + 3 < N
    ensures var d := g.add(p, p);
      && Odd(g, p, i).Affine? && d.Affine? && Odd(g, p, i).x != d.x
      && g.add(Odd(g, p, i), d) == Odd(g, p, i + 1)
  {
    var m := 2 * i + 1;
    TimesOne(g, p);
    TimesAdd(g, m, 2, p);
    ZeroMultiple(g, p, m);
    ZeroMultiple(g, p, 2);
    TimesNeg(g, 2, p);
    DistinctMultiples(g, p, m, 2);
    DistinctMultiples(g, p, m, -2);
    ApartUnlessSame(g, g.Times(2, p), Odd(g, p, i));
  }

  lemma {:induction false} ApartUnlessSame(g: Group<CurvePoint>, d: CurvePoint, q: CurvePoint)
    requires Fermat() && IsCurveGroup(g) && d.Affine? && q.Affine? && q != d && q != g.neg(d)
    ensures q.x != d.x
  {
    if q.x == d.x {
      SameX(g, d, q);
    }
  }

  lemma {:induction false} ZeroMultiple(g: Group<CurvePoint>, p: CurvePoint, d: int)
    requires g.IsAbelian() && HasOrderN(g, p) && -N < d < N
    ensures g.Times(d, p) == g.zero <==> d == 0
  {
    if d < 0 && g.Times(d, p) == g.zero {
      TimesNeg(g, d, p);
      NegZero(g);
    }
  }

  // Where Fermat's theorem holds modulo N, every finite point generates the group.
  lemma {:induction false} FinitePointsHaveOrderN(g: Group<CurvePoint>, p: CurvePoint)
    requires g.HasExponent(N) && FermatN() && p != g.zero
    ensures HasOrderN(g, p)
  {
    forall k: int | 0 < k < N
      ensures g.Times(k, p) != g.zero
    {
      OnlyZeroVanishes(g, p, k);
    }
  }

  lemma {:induction false} OnlyZeroVanishes<Q(!new)>(g: Group<Q>, p: Q, k: int)
    requires g.HasExponent(N) && FermatN() && p != g.zero && 0 < k < N
    ensures g.Times(k, p) != g.zero
  {
    if g.Times(k, p) == g.zero {
      var m := Pow(k, N - 2);
      PowerInverts(k);
      TimesTimes(g, m, k, p);
      TimesZero(g, m);
      TimesCong(g, m * k, 1, p, N);
      TimesOne(g, p);
      assert false;
    }
  }

  lemma {:induction false} PowerInverts(k: int)
    requires FermatN() && 0 < k < N
    ensures Cong(Pow(k, N - 2) * k, 1, N)
  {
    assert FermatNAt(k);
    PowAdd(k, 1, N - 2);
    assert Pow(k, 1) == k * Pow(k, 0);
  }

  lemma {:induction false} DistinctMultiples(g: Group<CurvePoint>, p: CurvePoint, j: int, k: int)
    requires g.IsAbelian() && HasOrderN(g, p) && j != k && -N < j - k < N
    ensures g.Times(j, p) != g.Times(k, p)
  {
    TimesAdd(g, j, -k, p);
    TimesNeg(g, k, p);
    ZeroMultiple(g, p, j - k);
  }

  // Scales of consecutive entries differ by the recorded ratio.
  ghost predicate HasRatios(ws: seq<int>, zr: seq<int>, n: nat) {
    && n <= |ws| && n <= |zr|
    && forall i :: 0 < i < n ==> Eq(ws[i], ws[i - 1] * zr[i])
  }

  ghost predicate AreScaled(prej: seq<Gej>, ws: seq<int>, ps: seq<CurvePoint>, n: nat) {
    && n <= |prej| && n <= |ws| && n <= |ps|
    && forall i :: 0 <= i < n ==> Scaled(prej[i].x, prej[i].y, ws[i], ps[i])
  }

  ghost function OddMultiples(g: Group<CurvePoint>, p: CurvePoint, n: nat): (ps: seq<CurvePoint>)
    ensures |ps| == n && forall i :: 0 <= i < n ==> ps[i] == Odd(g, p, i)
  {
    seq(n, i requires 0 <= i < n => Odd(g, p, i))
  }

  // The starting point moved to the copy of the curve on which 2p is affine (lines 84-99, 156-168).
  method ToScaledCurve(ghost g: Group<CurvePoint>, a: Gej, ghost p: CurvePoint) returns (start: Gej, d: Gej)
    requires Fermat() && IsCurveGroup(g) && Represents(a, 1, p) && !a.infinity
    ensures !start.infinity && start.z == a.z && Represents(start, d.z, p)
    ensures !d.infinity && Represents(d, 1, g.add(p, p))
  {
    var rzr;
    d, rzr := GejDouble(g, a, 1, p);
    var aGe := SetGejZinv(a, d.z);
    start := Gej(aGe.x, aGe.y, a.z, false);
    NonzeroProduct(a.z, d.z);
    SetGejZinvScales(a, d.z, a.z * 1, a.z * d.z, p);
  }

  // Entry i stands for (2i+1)*p over its scale, and the ratios lead from scale to scale.
  ghost predicate AreOddMultiples(g: Group<CurvePoint>, table: seq<Gej>, zr: seq<int>, ws: seq<int>, p: CurvePoint) {
    && |table| == |zr| == |ws| >= 1
    && HasRatios(ws, zr, |ws|) && Eq(table[|ws| - 1].z, ws[|ws| - 1])
    && forall i :: 0 <= i < |ws| ==> !table[i].infinity && Scaled(table[i].x, table[i].y, ws[i], Odd(g, p, i))
  }

  // secp256k1_ecmult_odd_multiples_table, written from position `at` on: entry i
  // stands for (2i+1)*p over the scale ws[i], of which only the last is stored.
  method OddMultiplesTable(ghost g: Group<CurvePoint>, n: nat, prej: array<Gej>, zr: array<int>, at: nat, a: Gej, ghost p: CurvePoint)
    returns (ghost ws: seq<int>)
    requires Fermat() && IsCurveGroup(g) && HasOrderN(g, p) && Represents(a, 1, p) && !a.infinity
    requires 1 <= n < 0x8000_0000 && at + n <= prej.Length && at + n <= zr.Length
    modifies prej, zr
    ensures prej[..at] == old(prej[..at]) && prej[at + n..] == old(prej[at + n..])
    ensures zr[..at] == old(zr[..at]) && zr[at + n..] == old(zr[at + n..])
    ensures AreOddMultiples(g, prej[at..at + n], zr[at..at + n], ws, p) && Eq(ws[0], a.z * zr[at])
  {
    var start, d := ToScaledCurve(g, a, p);
    var dGe := Ge(d.x, d.y, false);
    prej[at] := start;
    zr[at] := d.z;
    ws := [a.z * d.z];
    TimesOne(g, p);
    for i := 1 to n
      invariant prej[..at] == old(prej[..at]) && prej[at + n..] == old(prej[at + n..])
      invariant zr[..at] == old(zr[..at]) && zr[at + n..] == old(zr[at + n..])
      invariant TableTo(g, prej[at..at + n], zr[at..at + n], ws, d.z, p, i)
      invariant zr[at] == d.z && ws[0] == a.z * d.z
    {
      ghost var before, ratios := prej[at..at + n], zr[at..at + n];
      assert prej[at + i - 1] == before[i - 1];
      var r, rzr := NextOdd(g, prej[at + i - 1], dGe, d.z, p, i - 1);
      prej[at + i] := r;
      zr[at + i] := rzr;
      ExtendTable(g, before, ratios, prej[at..at + n], zr[at..at + n], ws, d.z, p, i);
      ws := ws + [r.z * d.z];
    }
    ghost var before := prej[at..at + n];
    prej[at + n - 1] := prej[at + n - 1].(z := Mul(prej[at + n - 1].z, d.z));
    assert prej[at..at + n] == before[n - 1 := prej[at + n - 1]];
    EqReduce(before[n - 1].z * d.z);
  }

  // One more multiple on the scaled curve, and the ratio of the z coordinates.
  method NextOdd(ghost g: Group<CurvePoint>, pj: Gej, dGe: Ge, ghost u: int, ghost p: CurvePoint, ghost i: nat)
    returns (r: Gej, rzr: int)
    requires Fermat() && IsCurveGroup(g) && HasOrderN(g, p) && 2 * i + 3 < N
    requires Represents(pj, u, Odd(g, p, i)) && !pj.infinity
    requires !dGe.infinity && Scaled(dGe.x, dGe.y, u, g.add(p, p))
    ensures Represents(r, u, Odd(g, p, i + 1)) && !r.infinity
    ensures Eq(r.z * u, pj.z * u * rzr) && Eq(r.z, pj.z * rzr)
    ensures Eq(rzr, (g.add(p, p).x - Odd(g, p, i).x) * (pj.z * u * (pj.z * u)))
  {
    OddIsApart(g, p, i);
    r, rzr := GejAddGeVar(g, pj, dGe, u, Odd(g, p, i), g.add(p, p));
    EqMul(r.z, pj.z * rzr, u, u);
    MulSwap(pj.z, rzr, u);
  }

  // The first i entries, their ratios and their scales are right.
  ghost predicate TableTo(g: Group<CurvePoint>, prej: seq<Gej>, zr: seq<int>, ws: seq<int>, u: int, p: CurvePoint, i: nat) {
    && 1 <= i == |ws| && i <= |prej| && i <= |zr|
    && (forall k :: 0 <= k < i ==> !prej[k].infinity && Scaled(prej[k].x, prej[k].y, ws[k], Odd(g, p, k)))
    && (forall k :: 0 < k < i ==> Eq(ws[k], ws[k - 1] * zr[k]))
    && ws[i - 1] == prej[i - 1].z * u
  }

  lemma {:induction false} ExtendTable(g: Group<CurvePoint>, prej: seq<Gej>, zr: seq<int>, prej': seq<Gej>, zr': seq<int>,
                                      ws: seq<int>, u: int, p: CurvePoint, i: nat)
    requires TableTo(g, prej, zr, ws, u, p, i) && i < |prej| == |prej'| && i < |zr| == |zr'|
    requires forall k :: 0 <= k < |prej| && k != i ==> prej'[k] == prej[k]
    requires forall k :: 0 <= k < |zr| && k != i ==> zr'[k] == zr[k]
    requires Represents(prej'[i], u, Odd(g, p, i)) && !prej'[i].infinity
    requires Eq(prej'[i].z * u, prej[i - 1].z * u * zr'[i])
    ensures TableTo(g, prej', zr', ws + [prej'[i].z * u], u, p, i + 1)
  {
  }

  // secp256k1_ge_globalz_set_table_gej: all entries over one denominator.
  method GlobalzSetTable(r: array<Ge>, a: seq<Gej>, zr: seq<int>, ghost ws: seq<int>, ghost ps: seq<CurvePoint>)
    returns (globalz: int)
    requires |a| == |zr| == |ws| == |ps| && |a| <= r.Length
    requires AreScaled(a, ws, ps, |a|) && HasRatios(ws, zr, |a|)
    requires |a| > 0 ==> Eq(a[|a| - 1].z, ws[|a| - 1])
    requires forall i :: 0 <= i < |a| ==> !a[i].infinity
    modifies r
    ensures forall i :: 0 <= i < |a| ==> !r[i].infinity && Scaled(r[i].x, r[i].y, globalz, ps[i])
  {
    globalz := 0;
    if |a| == 0 {
      return;
    }
    var i := |a| - 1;
    r[i] := Ge(a[i].x, a[i].y, false);
    globalz := a[i].z;
    Rescale(a[i].x, a[i].y, ws[i], globalz, ps[i]);
    var zs := zr[i];
    // zs is the ratio between the last scale and the one below i
    while i > 0
      invariant 0 <= i < |a|
      invariant i < |a| - 1 ==> Eq(ws[i] * zs, globalz)
      invariant i == |a| - 1 ==> zs == zr[i] && Eq(ws[i], globalz)
      invariant forall k :: i <= k < |a| ==> !r[k].infinity && Scaled(r[k].x, r[k].y, globalz, ps[k])
      decreases i
    {
      ghost var old_zs := zs;
      if i != |a| - 1 {
        zs := Mul(zs, zr[i]);
      }
      RatioStep(ws[i - 1], ws[i], zr[i], old_zs, zs, globalz, i == |a| - 1);
      i := i - 1;
      SetGejZinvScales(a[i], zs, ws[i], globalz, ps[i]);
      r[i] := SetGejZinv(a[i], zs);
    }
  }

  lemma {:induction false} RatioStep(below: int, w: int, ratio: int, zs: int, zs': int, z: int, first: bool)
    requires Eq(w, below * ratio)
    requires if first then zs' == ratio && Eq(w, z) else zs' == Mul(zs, ratio) && Eq(w * zs, z)
    ensures Eq(below * zs', z)
  {
    if !first {
      EqMul(zs, zs, ratio, ratio);
      EqMul(below, below, zs', zs * ratio);
      EqMul(w, below * ratio, zs, zs);
      assert below * (zs * ratio) == below * ratio * zs;
    }
  }

  // secp256k1_ecmult_odd_multiples_table_globalz_windowa
  method GlobalzWindowA(ghost g: Group<CurvePoint>, pre: array<Ge>, a: Gej, ghost p: CurvePoint) returns (globalz: int)
    requires Fermat() && IsCurveGroup(g) && HasOrderN(g, p) && Represents(a, 1, p) && !a.infinity
    requires pre.Length == 8
    modifies pre
    ensures forall i :: 0 <= i < 8 ==> !pre[i].infinity && Scaled(pre[i].x, pre[i].y, globalz, Odd(g, p, i))
  {
    var prej := new Gej[8](_ => a);
    var zr := new int[8](_ => 0);
    ghost var ws := OddMultiplesTable(g, 8, prej, zr, 0, a, p);
    assert prej[0..8] == prej[..] && zr[0..8] == zr[..];
    globalz := GlobalzSetTable(pre, prej[..], zr[..], ws, OddMultiples(g, p, 8));
    assert forall i :: 0 <= i < 8 ==> OddMultiples(g, p, 8)[i] == Odd(g, p, i);
  }

  // ---- the stored table ----

  // secp256k1_ge_storage
  datatype Storage = Storage(x: int, y: int)

  // What the forward loop leaves in entry k: the ratio to the next scale and
  // the ordinate over its own scale.
  ghost predicate IsDraft(s: Storage, w: int, next: int, q: Point, d: Point) {
    && q.Affine? && d.Affine? && !Eq(w, 0)
    && Eq(next, w * s.x)
    && Eq(s.x, (d.x - q.x) * (w * w))
    && Eq(s.y, q.y * (w * (w * w)))
  }

  ghost predicate Drafts(g: Group<CurvePoint>, pre: seq<Storage>, ws: seq<int>, p: CurvePoint, n: nat) {
    && n < |ws| && n <= |pre|
    && forall k :: 0 <= k < n ==> IsDraft(pre[k], ws[k], ws[k + 1], Odd(g, p, k), g.add(p, p))
  }

  ghost predicate IsFinal(g: Group<CurvePoint>, s: Storage, p: CurvePoint, k: nat) {
    Odd(g, p, k).Affine? && s.x == Odd(g, p, k).x && s.y == Odd(g, p, k).y
  }

  // Lines 170-176: ordinates and ratios on the way up.
  method DraftTable(ghost g: Group<CurvePoint>, n: nat, pre: array<Storage>, start: Gej, dGe: Ge, ghost u: int, ghost p: CurvePoint)
    returns (pj: Gej, ghost ws: seq<int>)
    requires Fermat() && IsCurveGroup(g) && HasOrderN(g, p) && 1 <= n < 0x8000_0000 && pre.Length == n
    requires Represents(start, u, p) && !start.infinity
    requires !dGe.infinity && Scaled(dGe.x, dGe.y, u, g.add(p, p))
    modifies pre
    ensures |ws| == n && Drafts(g, pre[..], ws, p, n - 1)
    ensures !pj.infinity && Represents(pj, u, Odd(g, p, n - 1)) && ws[n - 1] == pj.z * u
  {
    pj := start;
    ws := [pj.z * u];
    TimesOne(g, p);
    for i := 0 to n - 1
      invariant |ws| == i + 1 && Drafts(g, pre[..], ws, p, i)
      invariant !pj.infinity && Represents(pj, u, Odd(g, p, i)) && ws[i] == pj.z * u
    {
      ghost var before := pre[..];
      var y := Reduce(pj.y);
      EqReduce(pj.y);
      OddIsApart(g, p, i);
      var r, rzr := NextOdd(g, pj, dGe, u, p, i);
      EqReduce(rzr);
      EqMul(ws[i], ws[i], rzr, Reduce(rzr));
      pre[i] := Storage(Reduce(rzr), y);
      pj := r;
      ExtendDrafts(g, before, pre[..], ws, p, i, pj.z * u);
      ws := ws + [pj.z * u];
    }
  }

  lemma {:induction false} ExtendDrafts(g: Group<CurvePoint>, pre: seq<Storage>, pre': seq<Storage>, ws: seq<int>,
                                       p: CurvePoint, i: nat, w: int)
    requires |ws| == i + 1 && Drafts(g, pre, ws, p, i) && i < |pre| == |pre'|
    requires forall k :: 0 <= k < |pre| && k != i ==> pre'[k] == pre[k]
    requires IsDraft(pre'[i], ws[i], w, Odd(g, p, i), g.add(p, p))
    ensures Drafts(g, pre', ws + [w], p, i + 1)
  {
    var ws' := ws + [w];
    forall k | 0 <= k < i + 1
      ensures IsDraft(pre'[k], ws'[k], ws'[k + 1], Odd(g, p, k), g.add(p, p))
    {
      assert k < i ==> IsDraft(pre[k], ws[k], ws[k + 1], Odd(g, p, k), g.add(p, p));
    }
  }

  // One entry on the way down: its inverse scale from the one above, its
  // abscissa from the ratio, its ordinate from the stored one.
  method Settle(s: Storage, zi0: int, dx: int, ghost w: int, ghost next: int, ghost q: CurvePoint, ghost d: CurvePoint)
    returns (r: Storage, zi: int)
    requires IsDraft(s, w, next, q, d) && Eq(zi0 * next, 1) && Eq(dx, d.x)
    ensures r == Storage(q.x, q.y) && Eq(zi * w, 1)
  {
    var rzr := s.x;
    zi := Mul(zi0, rzr);
    var zi2 := Mul(zi, zi);
    var zi3 := Mul(zi2, zi);
    var x := Add(Neg(Mul(rzr, zi2)), dx);
    var y := Mul(s.y, zi3);
    r := Storage(Reduce(x), Reduce(y));
    SettleScale(zi0, rzr, w, next, zi);
    SettleX(rzr, zi, zi2, w, d.x, q.x, dx);
    SettleY(s.y, zi, zi2, zi3, w, q.y);
    EqReduce(x);
    EqReduce(y);
    SameResidue(Reduce(x), q.x);
    SameResidue(Reduce(y), q.y);
  }

  lemma {:induction false} SettleScale(zi0: int, rzr: int, w: int, next: int, zi: int)
    requires Eq(zi0 * next, 1) && Eq(next, w * rzr) && zi == Mul(zi0, rzr)
    ensures Eq(zi * w, 1)
  {
    EqMul(zi0, zi0, rzr, rzr);
    EqMul(zi, zi0 * rzr, w, w);
    EqMul(zi0, zi0, next, w * rzr);
    MulSwap(zi0, rzr, w);
    MulAssoc(zi0, w, rzr);
  }

  lemma {:induction false} SettleX(rzr: int, zi: int, zi2: int, w: int, d: int, q: int, dx: int)
    requires Eq(rzr, (d - q) * (w * w)) && Eq(zi * w, 1) && zi2 == Mul(zi, zi) && Eq(dx, d)
    ensures Eq(Add(Neg(Mul(rzr, zi2)), dx), q)
  {
    EqMul(zi, zi, zi, zi);
    EqMul(rzr, (d - q) * (w * w), zi2, zi * zi);
    SettleTerms(d - q, w, zi);
    EqMul(zi * w, 1, zi * w, 1);
    EqMul(d - q, d - q, zi * w * (zi * w), 1);
    EqSub(Mul(rzr, zi2), d - q, dx, d);
  }

  lemma {:induction false} SettleY(y: int, zi: int, zi2: int, zi3: int, w: int, q: int)
    requires Eq(y, q * (w * (w * w))) && Eq(zi * w, 1) && zi2 == Mul(zi, zi) && zi3 == Mul(zi2, zi)
    ensures Eq(Mul(y, zi3), q)
  {
    var e := zi * w;
    EqMul(zi, zi, zi, zi);
    EqMul(zi2, zi * zi, zi, zi);
    EqMul(y, q * (w * (w * w)), zi3, zi * zi * zi);
    SettleTerms(q, w, zi);
    EqMul(e, 1, e, 1);
    EqMul(e, 1, e * e, 1);
    EqMul(q, q, e * (e * e), 1);
  }

  lemma {:induction false} SettleTerms(q: int, w: int, zi: int)
    ensures q * (w * w) * (zi * zi) == q * (zi * w * (zi * w))
    ensures q * (w * (w * w)) * (zi * zi * zi) == q * (zi * w * (zi * w * (zi * w)))
  {
  }

  // Lines 178-193: the last entry is settled by the one inversion, which also
  // yields the affine abscissa of 2p.
  method SettleLast(ghost g: Group<CurvePoint>, pj: Gej, d: Gej, ghost p: CurvePoint, ghost q: CurvePoint)
    returns (last: Storage, zi: int, dx: int)
    requires Fermat() && Represents(pj, d.z, q) && !pj.infinity && Represents(d, 1, g.add(p, p)) && !d.infinity
    ensures last == Storage(q.x, q.y) && Eq(zi * (pj.z * d.z), 1) && Eq(dx, g.add(p, p).x)
  {
    zi := Mul(pj.z, d.z);
    EqReduce(pj.z * d.z);
    InverseOf(Inv(zi), zi, pj.z * d.z);
    zi := Inv(zi);
    var pGe := SetGejZinv(pj, zi);
    assert zi * (pj.z * d.z) == pj.z * d.z * zi;
    SetGejZinvScales(pj, zi, pj.z * d.z, 1, q);
    last := Storage(Reduce(pGe.x), Reduce(pGe.y));
    EqReduce(pGe.x);
    EqReduce(pGe.y);
    SameResidue(last.x, q.x);
    SameResidue(last.y, q.y);
    var dz := Mul(zi, pj.z);
    dx := Mul(dz, dz);
    dx := Mul(dx, d.x);
    UnscaledX(zi, pj.z, d.z, dz, d.x, dx, g.add(p, p).x);
  }

  lemma {:induction false} UnscaledX(zi: int, z: int, dz: int, inv: int, x: int, dx: int, d: int)
    requires Eq(zi * (z * dz), 1) && inv == Mul(zi, z) && dx == Mul(Mul(inv, inv), x)
    requires Eq(x, d * (dz * 1 * (dz * 1)))
    ensures Eq(dx, d)
  {
    EqMul(zi, zi, z, z);
    EqMul(inv, zi * z, dz, dz);
    MulAssoc(zi, z, dz);
    EqMul(inv, inv, inv, inv);
    EqMul(Mul(inv, inv), inv * inv, x, d * (dz * 1 * (dz * 1)));
    UnscaledTerms(inv, d, dz);
    EqMul(inv * dz, 1, inv * dz, 1);
    EqMul(d, d, inv * dz * (inv * dz), 1);
  }

  lemma {:induction false} UnscaledTerms(inv: int, d: int, dz: int)
    ensures inv * inv * (d * (dz * 1 * (dz * 1))) == d * (inv * dz * (inv * dz))
  {
  }

  // secp256k1_ecmult_odd_multiples_table_storage_var: entry i holds the affine
  // coordinates of (2i+1)*p, recovered from a single inversion.
  method OddMultiplesTableStorage(ghost g: Group<CurvePoint>, n: nat, pre: array<Storage>, a: Gej, ghost p: CurvePoint)
    requires Fermat() && IsCurveGroup(g) && HasOrderN(g, p) && Represents(a, 1, p) && !a.infinity
    requires 1 <= n < 0x8000_0000 && pre.Length == n
    modifies pre
    ensures forall i :: 0 <= i < n ==> IsFinal(g, pre[i], p, i)
  {
    var start, d := ToScaledCurve(g, a, p);
    var pj;
    ghost var ws;
    pj, ws := DraftTable(g, n, pre, start, Ge(d.x, d.y, false), d.z, p);
    var last, zi, dx := SettleLast(g, pj, d, p, Odd(g, p, n - 1));
    pre[n - 1] := last;
    var i := n - 1;
    while i > 0
      invariant 0 <= i < n && Drafts(g, pre[..], ws, p, i) && Eq(zi * ws[i], 1)
      invariant forall k :: i <= k < n ==> IsFinal(g, pre[k], p, k)
    {
      i := i - 1;
      var s;
      s, zi := Settle(pre[i], zi, dx, ws[i], ws[i + 1], Odd(g, p, i), g.add(p, p));
      pre[i] := s;
    }
  }
}
