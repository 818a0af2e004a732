// Pippenger's bucket method on coordinates: for every window the points are
// dropped into buckets by digit, and a running sum weighs bucket j by 2j+1.
module Pippenger {
  import opened Arith
  import opened Groups
  import opened Recoding
  import opened Strauss
  import opened Curve
  import opened Jacobian
  import StraussJacobian

  // ---- weighing the buckets ----

  // 1, 1, 1, ...
  ghost function Ones(m: nat): (c: seq<int>)
    ensures |c| == m
  {
    seq(m, i => 1)
  }

  // 1, 2, 3, ...
  ghost function Ramp(m: nat): (c: seq<int>)
    ensures |c| == m
  {
    seq(m, i => i + 1)
  }

  // 1, 3, 5, ...
  ghost function Odds(m: nat): (c: seq<int>)
    ensures |c| == m
  {
    seq(m, i => 2 * i + 1)
  }

  // One step of the running sum, seen on the buckets from j upwards.
  lemma {:induction false} RunningStep<P(!new)>(g: Group<P>, b: seq<P>, p: P, r0: P, r: P, running: P)
    requires g.IsAbelian()
    requires running == g.Lin(Ones(|b|), b)
    requires r == g.add(r0, g.Lin(Ramp(|b|), b))
    ensures g.add(running, p) == g.Lin(Ones(|b| + 1), [p] + b)
    ensures g.add(r, g.add(running, p)) == g.add(r0, g.Lin(Ramp(|b| + 1), [p] + b))
  {
    var m := |b|;
    assert Ones(m + 1) == [1] + Ones(m);
    LinCons(g, 1, p, Ones(m), b);
    TimesOne(g, p);
    Comm(g, running, p);
    var shifted := [0] + Ramp(m);
    LinCons(g, 0, p, Ramp(m), b);
    Comm(g, g.zero, g.Lin(Ramp(m), b));
    assert g.Lin(shifted, [p] + b) == g.Lin(Ramp(m), b);
    LinSum(g, shifted, Ones(m + 1), Ramp(m + 1), [p] + b);
    Assoc(g, r0, g.Lin(Ramp(m), b), g.add(running, p));
  }

  // The last step: the doubling of r counts every bucket above the first twice.
  lemma {:induction false} RunningFinish<P(!new)>(g: Group<P>, b: seq<P>, p: P, r0: P, r: P, running: P)
    requires g.IsAbelian()
    requires running == g.Lin(Ones(|b|), b)
    requires r == g.add(r0, g.Lin(Ramp(|b|), b))
    ensures g.add(g.add(r, r), g.add(running, p)) == g.add(g.add(r0, r0), g.Lin(Odds(|b| + 1), [p] + b))
  {
    var m, x := |b|, g.Lin(Ramp(|b|), b);
    RunningStep(g, b, p, r0, r, running);
    Interchange(g, r0, x, r0, x);
    var twice := seq(m + 1, i => 2 * i);
    LinScale(g, 2, [0] + Ramp(m), twice, [p] + b);
    LinCons(g, 0, p, Ramp(m), b);
    Comm(g, g.zero, x);
    TimesOne(g, x);
    assert g.Lin(twice, [p] + b) == g.add(x, x);
    LinSum(g, twice, Ones(m + 1), Odds(m + 1), [p] + b);
    Assoc(g, g.add(r0, r0), g.add(x, x), g.add(running, p));
  }

  // Every bucket stands for its point.
  ghost predicate AreBuckets(buckets: seq<Gej>, b: seq<CurvePoint>) {
    |b| == |buckets| && forall k :: 0 <= k < |b| ==> Represents(buckets[k], 1, b[k])
  }

  // Lines 819-835: r becomes 2r plus bucket[0] + 3*bucket[1] + 5*bucket[2] + ...
  method SumBuckets(ghost g: Group<CurvePoint>, buckets: array<Gej>, ghost b: seq<CurvePoint>, r0: Gej, ghost p0: CurvePoint)
    returns (r: Gej)
    requires Fermat() && IsCurveGroup(g) && buckets.Length >= 1 && AreBuckets(buckets[..], b) && Represents(r0, 1, p0)
    ensures Represents(r, 1, g.add(g.add(p0, p0), g.Lin(Odds(|b|), b)))
  {
    ghost var m, sum, p := buckets.Length, g.zero, p0;
    r := r0;
    var runningSum := Gej(0, 0, 0, true);
    var j := buckets.Length - 1;
    assert b[m..] == [];
    while j > 0
      invariant 0 <= j < m
      invariant Represents(runningSum, 1, sum) && sum == g.Lin(Ones(m - 1 - j), b[j + 1..])
      invariant Represents(r, 1, p) && p == g.add(p0, g.Lin(Ramp(m - 1 - j), b[j + 1..]))
    {
      runningSum, r, sum, p := AddBucket(g, b[j + 1..], buckets[j], b[j], p0, runningSum, r, sum, p);
      assert b[j..] == [b[j]] + b[j + 1..];
      j := j - 1;
    }
    assert b == [b[0]] + b[1..];
    r := LastBucket(g, b[1..], buckets[0], b[0], p0, runningSum, r, sum, p);
  }

  // Lines 833-835: the lowest bucket, and the doubling deferred from above.
  method LastBucket(ghost g: Group<CurvePoint>, ghost above: seq<CurvePoint>, bucket: Gej, ghost q: CurvePoint, ghost p0: CurvePoint,
                    runningSum0: Gej, r0: Gej, ghost sum: CurvePoint, ghost p: CurvePoint)
    returns (r: Gej)
    requires Fermat() && IsCurveGroup(g) && Represents(bucket, 1, q)
    requires Represents(runningSum0, 1, sum) && sum == g.Lin(Ones(|above|), above)
    requires Represents(r0, 1, p) && p == g.add(p0, g.Lin(Ramp(|above|), above))
    ensures Represents(r, 1, g.add(g.add(p0, p0), g.Lin(Odds(|above| + 1), [q] + above)))
  {
    RunningFinish(g, above, q, p0, p, sum);
    var runningSum, rzr := GejAddVar(g, runningSum0, bucket, sum, q);
    r, rzr := GejDouble(g, r0, 1, p);
    r, rzr := GejAddVar(g, r, runningSum, g.add(p, p), g.add(sum, q));
  }

  // Lines 829-830: one more bucket.
  method AddBucket(ghost g: Group<CurvePoint>, ghost above: seq<CurvePoint>, bucket: Gej, ghost q: CurvePoint, ghost p0: CurvePoint,
                   runningSum0: Gej, r0: Gej, ghost sum0: CurvePoint, ghost p: CurvePoint)
    returns (runningSum: Gej, r: Gej, ghost sum: CurvePoint, ghost p': CurvePoint)
    requires Fermat() && IsCurveGroup(g) && Represents(bucket, 1, q)
    requires Represents(runningSum0, 1, sum0) && sum0 == g.Lin(Ones(|above|), above)
    requires Represents(r0, 1, p) && p == g.add(p0, g.Lin(Ramp(|above|), above))
    ensures Represents(runningSum, 1, sum) && sum == g.Lin(Ones(|above| + 1), [q] + above)
    ensures Represents(r, 1, p') && p' == g.add(p0, g.Lin(Ramp(|above| + 1), [q] + above))
  {
    RunningStep(g, above, q, p0, p, sum0);
    var rzr;
    runningSum, rzr := GejAddVar(g, runningSum0, bucket, sum0, q);
    sum := g.add(sum0, q);
    r, rzr := GejAddVar(g, r0, runningSum, p, sum);
    p' := g.add(p, sum);
  }

  // ---- filling the buckets ----

  // secp256k1_pippenger_point_state
  datatype BucketPoint = BucketPoint(skewNa: nat, inputPos: nat)

  // n * p goes into the bucket of |n|.
  function BucketOf(n: int): int
    requires n % 2 == 1
  {
    if n > 0 then (n - 1) / 2 else -(n + 1) / 2
  }

  lemma {:induction false} DropInBucket<P(!new)>(g: Group<P>, b: seq<P>, n: int, p: P)
    requires g.IsAbelian()
    requires n % 2 == 1 && -2 * |b| < n < 2 * |b|
    ensures 0 <= BucketOf(n) < |b|
    ensures var idx := BucketOf(n);
      var q := if n > 0 then p else g.neg(p);
      g.Lin(Odds(|b|), b[idx := g.add(b[idx], q)]) == g.add(g.Lin(Odds(|b|), b), g.Times(n, p))
  {
    var idx := BucketOf(n);
    var q := if n > 0 then p else g.neg(p);
    LinBumpPoint(g, Odds(|b|), b, idx, q);
    assert 2 * idx + 1 == if n > 0 then n else -n;
    TimesOfNeg(g, 2 * idx + 1, p);
  }

  // q is added to one bucket.
  method AddTo(ghost g: Group<CurvePoint>, buckets: array<Gej>, idx: nat, a: Ge, ghost q: CurvePoint, ghost b0: seq<CurvePoint>)
    returns (ghost b: seq<CurvePoint>)
    requires Fermat() && IsCurveGroup(g) && AreBuckets(buckets[..], b0) && idx < buckets.Length && RepresentsAffine(a, 1, q)
    modifies buckets
    ensures AreBuckets(buckets[..], b) && b == b0[idx := g.add(b0[idx], q)]
  {
    EqIsCong(1, 0);
    var sum, rzr := GejAddGeVar(g, buckets[idx], a, 1, b0[idx], q);
    buckets[idx] := sum;
    b := b0[idx := g.add(b0[idx], q)];
  }

  // Lines 801-802 and 805-812: n times the point, by adding it or its negative to one bucket.
  method DropDigit(ghost g: Group<CurvePoint>, buckets: array<Gej>, n: int, a: Ge, ghost p: CurvePoint, ghost b0: seq<CurvePoint>)
    returns (ghost b: seq<CurvePoint>)
    requires Fermat() && IsCurveGroup(g) && AreBuckets(buckets[..], b0) && RepresentsAffine(a, 1, p)
    requires n % 2 == 1 && -2 * buckets.Length < n < 2 * buckets.Length
    modifies buckets
    ensures AreBuckets(buckets[..], b)
    ensures g.Lin(Odds(|b|), b) == g.add(g.Lin(Odds(|b0|), b0), g.Times(n, p))
  {
    DropInBucket(g, b0, n, p);
    if n > 0 {
      b := AddTo(g, buckets, (n - 1) / 2, a, p, b0);
    } else {
      StraussJacobian.MirroredIsNeg(g, a, 1, p);
      b := AddTo(g, buckets, -(n + 1) / 2, StraussJacobian.Mirrored(a), g.neg(p), b0);
    }
  }

  // Lines 797-812: one point goes into its bucket, and its skew out of the first one.
  method DropPoint(ghost g: Group<CurvePoint>, buckets: array<Gej>, n: int, skew: nat, last: bool, a: Ge, ghost p: CurvePoint,
                   ghost b0: seq<CurvePoint>) returns (ghost b: seq<CurvePoint>)
    requires Fermat() && IsCurveGroup(g) && buckets.Length >= 1 && AreBuckets(buckets[..], b0) && RepresentsAffine(a, 1, p)
    requires skew <= 1
    requires n == 0 || (n % 2 == 1 && -2 * buckets.Length < n < 2 * buckets.Length)
    modifies buckets
    ensures AreBuckets(buckets[..], b)
    ensures g.Lin(Odds(|b|), b) == g.add(g.Lin(Odds(|b0|), b0), g.Times(if last then n - skew else n, p))
  {
    b := b0;
    if last {
      if skew != 0 {
        b := DropDigit(g, buckets, -1, a, p, b);
      }
    }
    if n != 0 {
      b := DropDigit(g, buckets, n, a, p, b);
    }
    SkewThenDigit(g, g.Lin(Odds(|b0|), b0), if last && skew != 0 then -1 else 0, n, p);
  }

  lemma {:induction false} SkewThenDigit<P(!new)>(g: Group<P>, x: P, j: int, k: int, p: P)
    requires g.IsAbelian()
    ensures g.add(g.add(x, g.Times(j, p)), g.Times(k, p)) == g.add(x, g.Times(j + k, p))
    ensures g.add(x, g.Times(0, p)) == x
  {
    Assoc(g, x, g.Times(j, p), g.Times(k, p));
    TimesAdd(g, j, k, p);
  }

  // ---- recoding ----

  // The digits of the k-th point, the skew taken off the lowest one.
  ghost function EffectiveDigits(wnaf: seq<int>, size: nat, k: nat, skew: int): (d: seq<int>)
    requires size >= 1 && k * size + size <= |wnaf|
    ensures |d| == size
  {
    var d := wnaf[k * size..k * size + size];
    d[0 := d[0] - skew]
  }

  ghost predicate IsBucketPoint<P(!new)>(wnaf: seq<int>, w: nat, k: nat, p: BucketPoint, sc: seq<int>, pt: seq<P>)
    requires w >= 1 && |sc| == |pt|
  {
    var size := WindowCount(256, w);
    && p.inputPos < |sc| && p.skewNa <= 1
    && size >= 1 && k * size + size <= |wnaf|
    && IsFixedRecoding(wnaf[k * size..k * size + size], sc[p.inputPos], w, p.skewNa)
  }

  // secp256k1_pippenger_state: the arrays a multiplication works in.
  datatype State = State(wnafNa: array<int>, ps: array<BucketPoint>)
  {
    // Room for the digits of n scalars.
    predicate Holds(n: nat, w: nat)
      requires w >= 1
    {
      n * WindowCount(256, w) <= wnafNa.Length && n <= ps.Length
    }
  }

  ghost predicate AreBucketPoints<P(!new)>(wnaf: seq<int>, w: nat, ps: seq<BucketPoint>, sc: seq<int>, pt: seq<P>)
    requires w >= 1 && |sc| == |pt|
  {
    && (forall k :: 0 <= k < |ps| ==> ps[k].inputPos < |pt|)
    && (forall k :: 0 <= k < |ps| ==> IsBucketPoint(wnaf, w, k, ps[k], sc, pt))
  }

  ghost function ScalarsOf(ps: seq<BucketPoint>, sc: seq<int>): (c: seq<int>)
    requires forall k :: 0 <= k < |ps| ==> ps[k].inputPos < |sc|
    ensures |c| == |ps|
  {
    seq(|ps|, k requires 0 <= k < |ps| => sc[ps[k].inputPos])
  }

  ghost function BucketPointsOf<P(!new)>(ps: seq<BucketPoint>, pt: seq<P>): (b: seq<P>)
    requires forall k :: 0 <= k < |ps| ==> ps[k].inputPos < |pt|
    ensures |b| == |ps|
  {
    seq(|ps|, k requires 0 <= k < |ps| => pt[ps[k].inputPos])
  }

  // The k-th block of `size` digits lies inside an array of n such blocks.
  lemma {:induction false} BlockInside(k: nat, n: nat, size: nat)
    requires k < n
    ensures k * size + size <= n * size
  {
    assert (k + 1) * size == k * size + size;
    MulMonotone(k + 1, n, size);
  }

  // Lines 774-775: the digits of one scalar, written after those of the points before it.
  method RecodeOne<P(!new)>(wnafNa: array<int>, no: nat, ghost ps: seq<BucketPoint>, sc: seq<int>, ghost pt: seq<P>, w: nat, np: nat)
    returns (p: BucketPoint)
    requires 1 <= w <= 31 && |sc| == |pt| && AreScalars(sc) && np < |sc| && no == |ps|
    requires AreBucketPoints(wnafNa[..], w, ps, sc, pt)
    requires |ps| * WindowCount(256, w) + WindowCount(256, w) <= wnafNa.Length
    modifies wnafNa
    ensures p.inputPos == np
    ensures AreBucketPoints(wnafNa[..], w, ps + [p], sc, pt)
  {
    var size := WindowCount(256, w);
    ghost var before := wnafNa[..];
    var skew := WnafFixed(wnafNa, no * size, sc[np], w);
    p := BucketPoint(skew, np);
    TopWindows(sc[np], w);
    AppendBucketPoint(before, wnafNa[..], w, ps, p, sc, pt);
  }

  // Affine points and what they stand for.
  ghost predicate AreAffine(pt: seq<Ge>, pts: seq<CurvePoint>) {
    |pt| == |pts| && forall k :: 0 <= k < |pt| ==> RepresentsAffine(pt[k], 1, pts[k])
  }

  // Lines 770-777: recode the scalars that matter.
  method RecodeFixed(ghost g: Group<CurvePoint>, sc: seq<int>, pt: seq<Ge>, ghost pts: seq<CurvePoint>, w: nat, state: State)
    returns (no: nat)
    requires IsCurveGroup(g) && |sc| == |pt| && AreAffine(pt, pts) && AreScalars(sc) && 1 <= w <= 31 && state.Holds(|sc|, w)
    modifies state.wnafNa, state.ps
    ensures no <= |sc| && AreBucketPoints(state.wnafNa[..], w, state.ps[..no], sc, pts)
    ensures g.Lin(ScalarsOf(state.ps[..no], sc), BucketPointsOf(state.ps[..no], pts)) == g.Lin(sc, pts)
  {
    no := 0;
    for np := 0 to |sc|
      invariant no <= np
      invariant AreBucketPoints(state.wnafNa[..], w, state.ps[..no], sc, pts)
      invariant g.Lin(ScalarsOf(state.ps[..no], sc), BucketPointsOf(state.ps[..no], pts)) == g.Lin(sc[..np], pts[..np])
    {
      no := RecodeNext(g, state, no, sc, pt[np].infinity, pts, w, np);
    }
    assert sc[..|sc|] == sc && pts[..|pts|] == pts;
  }

  // Lines 771-776: the next scalar, unless it or its point can be skipped.
  method RecodeNext(ghost g: Group<CurvePoint>, state: State, no0: nat, sc: seq<int>, infinity: bool,
                    ghost pts: seq<CurvePoint>, w: nat, np: nat) returns (no: nat)
    requires IsCurveGroup(g) && |sc| == |pts| && AreScalars(sc) && 1 <= w <= 31 && no0 <= np < |sc|
    requires infinity <==> pts[np] == Infinity
    requires state.Holds(|sc|, w) && AreBucketPoints(state.wnafNa[..], w, state.ps[..no0], sc, pts)
    requires g.Lin(ScalarsOf(state.ps[..no0], sc), BucketPointsOf(state.ps[..no0], pts)) == g.Lin(sc[..np], pts[..np])
    modifies state.wnafNa, state.ps
    ensures no <= np + 1 && AreBucketPoints(state.wnafNa[..], w, state.ps[..no], sc, pts)
    ensures g.Lin(ScalarsOf(state.ps[..no], sc), BucketPointsOf(state.ps[..no], pts)) == g.Lin(sc[..np + 1], pts[..np + 1])
  {
    LinPrefix(g, sc, pts, np);
    if sc[np] == 0 || infinity {
      TimesZero(g, sc[np]);
      return no0;
    }
    ghost var ps0 := state.ps[..no0];
    BlockInside(no0, |sc|, WindowCount(256, w));
    var p := RecodeOne(state.wnafNa, no0, ps0, sc, pts, w, np);
    AppendToSum(g, ps0, p, sc, pts);
    state.ps[no0] := p;
    no := no0 + 1;
    assert state.ps[..no] == ps0 + [p];
  }

  lemma {:induction false} AppendToSum<P(!new)>(g: Group<P>, ps: seq<BucketPoint>, p: BucketPoint, sc: seq<int>, pt: seq<P>)
    requires g.IsAbelian() && |sc| == |pt| && p.inputPos < |sc|
    requires forall k :: 0 <= k < |ps| ==> ps[k].inputPos < |sc|
    ensures g.Lin(ScalarsOf(ps + [p], sc), BucketPointsOf(ps + [p], pt))
         == g.add(g.Lin(ScalarsOf(ps, sc), BucketPointsOf(ps, pt)), g.Times(sc[p.inputPos], pt[p.inputPos]))
  {
    LinAppend(g, ScalarsOf(ps, sc), BucketPointsOf(ps, pt), sc[p.inputPos], pt[p.inputPos]);
    assert ScalarsOf(ps + [p], sc) == ScalarsOf(ps, sc) + [sc[p.inputPos]];
    assert BucketPointsOf(ps + [p], pt) == BucketPointsOf(ps, pt) + [pt[p.inputPos]];
  }

  lemma {:induction false} AppendBucketPoint<P(!new)>(before: seq<int>, after: seq<int>, w: nat, ps: seq<BucketPoint>,
                                                     p: BucketPoint, sc: seq<int>, pt: seq<P>)
    requires w >= 1 && |sc| == |pt| && AreBucketPoints(before, w, ps, sc, pt)
    requires p.inputPos < |sc| && p.skewNa <= 1
    requires WindowCount(256, w) >= 1 && |ps| * WindowCount(256, w) + WindowCount(256, w) <= |after| == |before|
    requires after[..|ps| * WindowCount(256, w)] == before[..|ps| * WindowCount(256, w)]
    requires IsFixedRecoding(after[|ps| * WindowCount(256, w)..|ps| * WindowCount(256, w) + WindowCount(256, w)],
                             sc[p.inputPos], w, p.skewNa)
    ensures AreBucketPoints(after, w, ps + [p], sc, pt)
  {
    var size := WindowCount(256, w);
    var q := ps + [p];
    forall k | 0 <= k < |q|
      ensures IsBucketPoint(after, w, k, q[k], sc, pt)
    {
      if k < |ps| {
        BlockInside(k, |ps|, size);
        assert IsBucketPoint(before, w, k, ps[k], sc, pt);
        var cut := |ps| * size;
        assert after[k * size..k * size + size] == after[..cut][k * size..k * size + size];
        assert before[k * size..k * size + size] == before[..cut][k * size..k * size + size];
      }
    }
  }

  // ---- the windows ----

  ghost function TermsOf<P(!new)>(wnaf: seq<int>, w: nat, ps: seq<BucketPoint>, sc: seq<int>, pt: seq<P>): (t: seq<seq<int>>)
    requires w >= 1 && |sc| == |pt| && AreBucketPoints(wnaf, w, ps, sc, pt)
    ensures |t| == |ps|
    ensures forall k :: 0 <= k < |t| ==> |t[k]| == WindowCount(256, w)
  {
    seq(|ps|, k requires 0 <= k < |ps| =>
      assert IsBucketPoint(wnaf, w, k, ps[k], sc, pt);
      EffectiveDigits(wnaf, WindowCount(256, w), k, ps[k].skewNa))
  }

  // The digits of window i, one per point.
  ghost function Column(terms: seq<seq<int>>, i: nat): (c: seq<int>)
    requires forall k :: 0 <= k < |terms| ==> i < |terms[k]|
    ensures |c| == |terms|
  {
    seq(|terms|, k requires 0 <= k < |terms| => terms[k][i])
  }

  // Horner's rule on the accumulated combination.
  lemma {:induction false} WindowStep<P(!new)>(g: Group<P>, terms: seq<seq<int>>, b: seq<P>, i: nat, w: nat)
    requires g.IsAbelian() && |terms| == |b|
    requires forall k :: 0 <= k < |terms| ==> i < |terms[k]|
    ensures g.Lin(Tails(terms, i, w), b)
         == g.add(g.Times(Pow2(w), g.Lin(Tails(terms, i + 1, w), b)), g.Lin(Column(terms, i), b))
  {
    var next := Tails(terms, i + 1, w);
    var scaled := seq(|terms|, k requires 0 <= k < |terms| => Pow2(w) * next[k]);
    LinScale(g, Pow2(w), next, scaled, b);
    forall k | 0 <= k < |terms|
      ensures Tails(terms, i, w)[k] == scaled[k] + Column(terms, i)[k]
    {
      ValueStep(terms[k], w, i);
    }
    LinSum(g, scaled, Column(terms, i), Tails(terms, i, w), b);
  }

  // The effective digits stand for the scalars themselves.
  lemma {:induction false} EffectiveValues<P(!new)>(wnaf: seq<int>, w: nat, ps: seq<BucketPoint>, sc: seq<int>, pt: seq<P>)
    requires w >= 1 && |sc| == |pt| && AreBucketPoints(wnaf, w, ps, sc, pt)
    ensures Tails(TermsOf(wnaf, w, ps, sc, pt), 0, w) == ScalarsOf(ps, sc)
  {
    var terms, size := TermsOf(wnaf, w, ps, sc, pt), WindowCount(256, w);
    forall k | 0 <= k < |ps|
      ensures Value(terms[k][0..], w) == sc[ps[k].inputPos]
    {
      assert IsBucketPoint(wnaf, w, k, ps[k], sc, pt);
      var d := wnaf[k * size..k * size + size];
      ValueUpdate(d, w, 0, d[0] - ps[k].skewNa);
      assert w * 0 == 0;
      assert terms[k][0..] == terms[k];
    }
  }

  // What window i needs to know of point k: the digit stored for it, and the
  // effective digit of column c and the point that go with it.
  ghost predicate WindowEntry<P(!new)>(wnaf: seq<int>, w: nat, size: nat, i: nat, k: nat, p: BucketPoint, pt: seq<P>, c: int, a: P)
    requires w >= 1
  {
    && k * size + i < |wnaf| && p.skewNa <= 1
    && p.inputPos < |pt| && a == pt[p.inputPos]
    && IsFixedDigit(wnaf[k * size + i], w)
    && c == if i == 0 then wnaf[k * size + i] - p.skewNa else wnaf[k * size + i]
  }

  // Lines 787-813: every point into the bucket of its i-th digit.
  method FillBuckets(ghost g: Group<CurvePoint>, buckets: array<Gej>, w: nat, size: nat, wnaf: seq<int>, ps: seq<BucketPoint>,
                     pt: seq<Ge>, ghost pts: seq<CurvePoint>, i: nat, ghost c: seq<int>, ghost a: seq<CurvePoint>)
    returns (ghost b: seq<CurvePoint>)
    requires Fermat() && IsCurveGroup(g) && w >= 1 && AreAffine(pt, pts)
    requires |c| == |a| == |ps|
    requires forall k :: 0 <= k < |ps| ==> WindowEntry(wnaf, w, size, i, k, ps[k], pts, c[k], a[k])
    requires buckets.Length == Pow2(w - 1)
    modifies buckets
    ensures AreBuckets(buckets[..], b) && g.Lin(Odds(|b|), b) == g.Lin(c, a)
  {
    b := ClearBuckets(g, buckets);
    EmptyBuckets(g, Odds(|b|), b);
    LinPrefix(g, c, a, 0);
    for np := 0 to |ps|
      invariant AreBuckets(buckets[..], b) && g.Lin(Odds(|b|), b) == g.Lin(c[..np], a[..np])
    {
      b := DropEntry(g, buckets, w, size, wnaf, np, ps[np], pt, pts, i, c[np], a[np], b);
      LinPrefix(g, c, a, np);
    }
    LinPrefix(g, c, a, |ps|);
  }

  // Lines 792-812: the i-th digit of one point.
  method DropEntry(ghost g: Group<CurvePoint>, buckets: array<Gej>, ghost w: nat, size: nat, wnaf: seq<int>, np: nat, p: BucketPoint,
                   pt: seq<Ge>, ghost pts: seq<CurvePoint>, i: nat, ghost c: int, ghost a: CurvePoint, ghost b0: seq<CurvePoint>)
    returns (ghost b: seq<CurvePoint>)
    requires Fermat() && IsCurveGroup(g) && w >= 1 && AreAffine(pt, pts) && WindowEntry(wnaf, w, size, i, np, p, pts, c, a)
    requires buckets.Length == Pow2(w - 1) && AreBuckets(buckets[..], b0)
    modifies buckets
    ensures AreBuckets(buckets[..], b)
    ensures g.Lin(Odds(|b|), b) == g.add(g.Lin(Odds(|b0|), b0), g.Times(c, a))
  {
    EntryDigit(wnaf, w, size, i, np, p, pts, c, a);
    b := DropPoint(g, buckets, wnaf[np * size + i], p.skewNa, i == 0, pt[p.inputPos], a, b0);
  }

  lemma {:induction false} EntryDigit<P(!new)>(wnaf: seq<int>, w: nat, size: nat, i: nat, k: nat, p: BucketPoint, pt: seq<P>, c: int, a: P)
    requires w >= 1 && WindowEntry(wnaf, w, size, i, k, p, pt, c, a)
    ensures 0 <= k * size + i < |wnaf|
    ensures var n := wnaf[k * size + i]; n == 0 || (n % 2 == 1 && -2 * Pow2(w - 1) < n < 2 * Pow2(w - 1))
  {
    assert Pow2(w) == 2 * Pow2(w - 1);
  }

  method ClearBuckets(ghost g: Group<CurvePoint>, buckets: array<Gej>) returns (ghost b: seq<CurvePoint>)
    requires g.zero == Infinity
    modifies buckets
    ensures AreBuckets(buckets[..], b) && forall l :: 0 <= l < |b| ==> b[l] == g.zero
  {
    for j := 0 to buckets.Length
      invariant forall l :: 0 <= l < j ==> buckets[l].infinity
    {
      buckets[j] := Gej(0, 0, 0, true);
    }
    b := seq(buckets.Length, i => g.zero);
  }

  lemma {:induction false} EmptyBuckets<P(!new)>(g: Group<P>, c: seq<int>, b: seq<P>)
    requires g.IsAbelian() && |c| == |b|
    requires forall l :: 0 <= l < |b| ==> b[l] == g.zero
    ensures g.Lin(c, b) == g.zero
  {
    if |c| > 0 {
      TimesZero(g, c[0]);
      EmptyBuckets(g, c[1..], b[1..]);
    }
  }

  lemma {:induction false} FixedDigitAt(d: seq<int>, s: int, w: nat, skew: int, i: nat)
    requires IsFixedRecoding(d, s, w, skew) && i < |d|
    ensures IsFixedDigit(d[i], w)
  {
  }

  lemma {:induction false} WindowEntryAt<P(!new)>(wnaf: seq<int>, w: nat, ps: seq<BucketPoint>, sc: seq<int>, pt: seq<P>, i: nat, k: nat)
    requires w >= 1 && |sc| == |pt| && AreBucketPoints(wnaf, w, ps, sc, pt)
    requires i < WindowCount(256, w) && k < |ps|
    ensures WindowEntry(wnaf, w, WindowCount(256, w), i, k, ps[k], pt,
                        Column(TermsOf(wnaf, w, ps, sc, pt), i)[k], BucketPointsOf(ps, pt)[k])
  {
    var size := WindowCount(256, w);
    assert IsBucketPoint(wnaf, w, k, ps[k], sc, pt);
    var d := wnaf[k * size..k * size + size];
    FixedDigitAt(d, sc[ps[k].inputPos], w, ps[k].skewNa, i);
    assert d[i] == wnaf[k * size + i];
    assert TermsOf(wnaf, w, ps, sc, pt)[k] == d[0 := d[0] - ps[k].skewNa];
  }

  lemma {:induction false} WindowEntries<P(!new)>(wnaf: seq<int>, w: nat, ps: seq<BucketPoint>, sc: seq<int>, pt: seq<P>, i: nat)
    requires w >= 1 && |sc| == |pt| && AreBucketPoints(wnaf, w, ps, sc, pt)
    requires i < WindowCount(256, w)
    ensures forall k :: 0 <= k < |ps| ==>
      WindowEntry(wnaf, w, WindowCount(256, w), i, k, ps[k], pt,
                  Column(TermsOf(wnaf, w, ps, sc, pt), i)[k], BucketPointsOf(ps, pt)[k])
  {
    forall k | 0 <= k < |ps|
      ensures WindowEntry(wnaf, w, WindowCount(256, w), i, k, ps[k], pt,
                          Column(TermsOf(wnaf, w, ps, sc, pt), i)[k], BucketPointsOf(ps, pt)[k])
    {
      WindowEntryAt(wnaf, w, ps, sc, pt, i, k);
    }
  }

  // Lines 784-836: the windows from the top, given the recoded points.
  method Windows(ghost g: Group<CurvePoint>, buckets: array<Gej>, bucketWindow: nat, wnaf: seq<int>, ps: seq<BucketPoint>, ghost sc: seq<int>, pt: seq<Ge>,
                 ghost pts: seq<CurvePoint>) returns (r: Gej)
    requires Fermat() && IsCurveGroup(g) && |sc| == |pts| && AreAffine(pt, pts)
    requires AreBucketPoints(wnaf, bucketWindow + 1, ps, sc, pts) && buckets.Length == Pow2(bucketWindow)
    modifies buckets
    ensures Represents(r, 1, g.Lin(ScalarsOf(ps, sc), BucketPointsOf(ps, pts)))
  {
    var w := bucketWindow + 1;
    var nWnaf := WindowCount(256, w);
    ghost var terms := TermsOf(wnaf, w, ps, sc, pts);
    ghost var a := BucketPointsOf(ps, pts);
    r := Gej(0, 0, 0, true);
    var i := nWnaf;
    TailsStart(g, terms, a, nWnaf, w);
    while i > 0
      invariant 0 <= i <= nWnaf
      invariant Represents(r, 1, g.Lin(Tails(terms, i, w), a))
    {
      i := i - 1;
      ghost var p0 := g.Lin(Tails(terms, i + 1, w), a);
      WindowEntries(wnaf, w, ps, sc, pts, i);
      ghost var b := FillBuckets(g, buckets, w, nWnaf, wnaf, ps, pt, pts, i, Column(terms, i), a);
      r := OneWindow(g, buckets, b, bucketWindow, r, p0);
      WindowStep(g, terms, a, i, w);
    }
    EffectiveValues(wnaf, w, ps, sc, pts);
  }

  // Lines 815-835: shift the accumulator by one window and add the weighed buckets.
  method OneWindow(ghost g: Group<CurvePoint>, buckets: array<Gej>, ghost b: seq<CurvePoint>, bucketWindow: nat, r0: Gej,
                   ghost p0: CurvePoint) returns (r: Gej)
    requires Fermat() && IsCurveGroup(g) && buckets.Length == Pow2(bucketWindow) && AreBuckets(buckets[..], b)
    requires Represents(r0, 1, p0)
    ensures Represents(r, 1, g.add(g.Times(Pow2(bucketWindow + 1), p0), g.Lin(Odds(|b|), b)))
  {
    r := r0;
    TimesOne(g, p0);
    for j := 0 to bucketWindow
      invariant Represents(r, 1, g.Times(Pow2(j), p0))
    {
      TimesDouble(g, Pow2(j), p0);
      var rzr;
      r, rzr := GejDouble(g, r, 1, g.Times(Pow2(j), p0));
    }
    TimesDouble(g, Pow2(bucketWindow), p0);
    r := SumBuckets(g, buckets, b, r, g.Times(Pow2(bucketWindow), p0));
  }

  // secp256k1_ecmult_pippenger_wnaf: the sum of sc[i]*pt[i].
  method PippengerWnaf(ghost g: Group<CurvePoint>, buckets: array<Gej>, bucketWindow: nat, state: State, sc: seq<int>, pt: seq<Ge>,
                       ghost pts: seq<CurvePoint>) returns (r: Gej)
    requires Fermat() && IsCurveGroup(g) && |sc| == |pt| && AreAffine(pt, pts) && AreScalars(sc)
    requires 1 <= bucketWindow <= 12 && buckets.Length == Pow2(bucketWindow) && state.Holds(|sc|, bucketWindow + 1)
    modifies buckets, state.wnafNa, state.ps
    ensures Represents(r, 1, g.Lin(sc, pts))
  {
    var no := RecodeFixed(g, sc, pt, pts, bucketWindow + 1, state);
    if no == 0 {
      return Gej(0, 0, 0, true);
    }
    r := Windows(g, buckets, bucketWindow, state.wnafNa[..], state.ps[..no], sc, pt, pts);
  }
}
