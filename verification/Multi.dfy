// The batching front end of multi-point multiplication: how many points fit
// in the scratch space, how they are cut into batches, and that the batches
// add up to the whole sum whichever algorithm runs.
module Multi {
  import opened Arith
  import opened Groups
  import opened Recoding
  import opened Scratch
  import opened Strauss
  import opened Wrappers
  import opened Curve
  import opened Jacobian
  import opened OddTables
  import StraussJacobian
  import Pippenger

  const SCRATCH_OBJECTS: nat := 6
  const PIPPENGER_MAX_BUCKET_WINDOW: nat := 12
  const ECMULT_PIPPENGER_THRESHOLD: nat := 160
  const ECMULT_MAX_POINTS_PER_BATCH: nat := 10000000

  // ---- sizes ----

  // The sizes of the C types that live in the scratch space.
  datatype Sizes = Sizes(ge: nat, gej: nat, fe: nat, scalar: nat, word: nat,
                         straussPoint: nat, pippengerState: nat, pippengerPoint: nat)
  {
    predicate Positive() {
      && ge > 0 && gej > 0 && fe > 0 && scalar > 0 && word > 0
      && straussPoint > 0 && pippengerState > 0 && pippengerPoint > 0
    }

    function StraussPointSize(): nat {
      (ge + gej + fe) * 8 + straussPoint + gej + scalar
    }

    // secp256k1_strauss_scratch_size
    function StraussScratchSize(n: nat): nat {
      n * StraussPointSize()
    }

    // The pieces secp256k1_ecmult_strauss_batch asks for, in order.
    function StraussPieces(n: nat): seq<nat> {
      [n * gej, n * scalar, n * 8 * gej, n * 8 * fe, n * 8 * ge, n * straussPoint]
    }

    function PippengerEntrySize(bucketWindow: nat): nat {
      ge + scalar + pippengerPoint + (WindowCount(256, bucketWindow + 1) + 1) * word
    }

    // secp256k1_pippenger_scratch_size
    function PippengerScratchSize(n: nat, bucketWindow: nat): nat {
      gej * Pow2(bucketWindow) + pippengerState + (n + 1) * PippengerEntrySize(bucketWindow)
    }

    // The pieces secp256k1_ecmult_pippenger_batch asks for, in order.
    function PippengerPieces(n: nat, bucketWindow: nat): seq<nat> {
      [(n + 1) * ge, (n + 1) * scalar, pippengerState, (n + 1) * pippengerPoint,
       (n + 1) * WindowCount(256, bucketWindow + 1) * word, gej * Pow2(bucketWindow)]
    }
  }

  lemma {:induction false} SumAppend(s: seq<nat>, x: nat)
    ensures Sum(s + [x]) == Sum(s) + x
  {
    assert (s + [x])[..|s|] == s;
  }

  lemma {:induction false} SumOfSix(a: nat, b: nat, c: nat, d: nat, e: nat, f: nat)
    ensures Sum([a, b, c, d, e, f]) == a + b + c + d + e + f
  {
    SumAppend([], a);
    SumAppend([a], b);
    SumAppend([a, b], c);
    SumAppend([a, b, c], d);
    SumAppend([a, b, c, d], e);
    SumAppend([a, b, c, d, e], f);
    assert [] + [a] == [a] && [a] + [b] == [a, b] && [a, b] + [c] == [a, b, c];
    assert [a, b, c] + [d] == [a, b, c, d] && [a, b, c, d] + [e] == [a, b, c, d, e];
    assert [a, b, c, d, e] + [f] == [a, b, c, d, e, f];
  }

  // The batches never ask for more than the frame they requested.
  lemma {:induction false} StraussPiecesFit(sz: Sizes, n: nat)
    ensures Sum(sz.StraussPieces(n)) == sz.StraussScratchSize(n)
  {
    SumOfSix(n * sz.gej, n * sz.scalar, n * 8 * sz.gej, n * 8 * sz.fe, n * 8 * sz.ge, n * sz.straussPoint);
    assert n * sz.StraussPointSize()
        == n * sz.gej + n * sz.scalar + n * 8 * sz.gej + n * 8 * sz.fe + n * 8 * sz.ge + n * sz.straussPoint;
  }

  // The request has one digit per entry to spare.
  lemma {:induction false} PippengerPiecesFit(sz: Sizes, n: nat, bucketWindow: nat)
    ensures Sum(sz.PippengerPieces(n, bucketWindow)) + (n + 1) * sz.word == sz.PippengerScratchSize(n, bucketWindow)
  {
    AddUp(n + 1, WindowCount(256, bucketWindow + 1), sz.ge, sz.scalar, sz.pippengerState, sz.pippengerPoint, sz.word,
          sz.gej * Pow2(bucketWindow));
  }

  lemma {:induction false} AddUp(m: nat, c: nat, x: nat, y: nat, state: nat, z: nat, u: nat, buckets: nat)
    ensures Sum([m * x, m * y, state, m * z, m * c * u, buckets]) + m * u == buckets + state + m * (x + y + z + (c + 1) * u)
  {
    SumOfSix(m * x, m * y, state, m * z, m * c * u, buckets);
    EntriesFit(m, c, x, y, z, u);
  }

  lemma {:induction false} EntriesFit(m: nat, c: nat, x: nat, y: nat, z: nat, u: nat)
    ensures m * x + m * y + m * z + m * c * u + m * u == m * (x + y + z + (c + 1) * u)
  {
    MulAssoc(m, c, u);
    assert (c + 1) * u == c * u + u;
    assert m * (x + y + z + (c * u + u)) == m * x + m * y + m * z + m * (c * u) + m * u;
  }

  // Every piece holds exactly the entries that are put into it: for each point a
  // table of odd multiples in each of three forms.
  ghost predicate HoldsStrauss(sz: Sizes, p: seq<nat>, n: nat)
    requires sz.Positive()
  {
    var entries := n * TableSize(WINDOW_A);
    && |p| == SCRATCH_OBJECTS
    && p[0] / sz.gej == n && p[1] / sz.scalar == n
    && p[2] / sz.gej == entries && p[3] / sz.fe == entries && p[4] / sz.ge == entries
    && p[5] / sz.straussPoint == n
  }

  lemma {:induction false} StraussPiecesHold(sz: Sizes, n: nat)
    requires sz.Positive()
    ensures HoldsStrauss(sz, sz.StraussPieces(n), n)
  {
    CountOf(n, sz.gej);
    CountOf(n, sz.scalar);
    CountOf(n * 8, sz.gej);
    CountOf(n * 8, sz.fe);
    CountOf(n * 8, sz.ge);
    CountOf(n, sz.straussPoint);
  }

  // An entry for the generator and each point, its digits, and all buckets.
  ghost predicate HoldsPippenger(sz: Sizes, p: seq<nat>, n: nat, bucketWindow: nat)
    requires sz.Positive()
  {
    && |p| == SCRATCH_OBJECTS
    && p[0] / sz.ge == n + 1 && p[1] / sz.scalar == n + 1 && p[2] / sz.pippengerState == 1
    && p[3] / sz.pippengerPoint == n + 1
    && p[4] / sz.word == (n + 1) * WindowCount(256, bucketWindow + 1)
    && p[5] / sz.gej == TableSize(bucketWindow + 2)
  }

  lemma {:induction false} PippengerPiecesHold(sz: Sizes, n: nat, bucketWindow: nat)
    requires sz.Positive()
    ensures HoldsPippenger(sz, sz.PippengerPieces(n, bucketWindow), n, bucketWindow)
  {
    CountOf(n + 1, sz.ge);
    CountOf(n + 1, sz.scalar);
    CountOf(1, sz.pippengerState);
    CountOf(n + 1, sz.pippengerPoint);
    CountOf((n + 1) * WindowCount(256, bucketWindow + 1), sz.word);
    CountOf(Pow2(bucketWindow), sz.gej);
    MulSwap(1, sz.gej, Pow2(bucketWindow));
  }

  lemma {:induction false} CountOf(n: nat, size: nat)
    requires size > 0
    ensures n * size / size == n
  {
    DivModUnique(n * size, size, n, 0);
  }

  // secp256k1_pippenger_bucket_window
  function BucketWindow(n: nat): nat {
    if n <= 1 then 1
    else if n <= 11 then 2
    else if n <= 45 then 3
    else if n <= 100 then 4
    else if n <= 275 then 5
    else if n <= 625 then 6
    else if n <= 1850 then 7
    else if n <= 3400 then 8
    else if n <= 9630 then 9
    else if n <= 17900 then 10
    else if n <= 32800 then 11
    else PIPPENGER_MAX_BUCKET_WINDOW
  }

  // secp256k1_pippenger_bucket_window_inv
  function BucketWindowInv(bucketWindow: nat): nat {
    if bucketWindow == 1 then 1
    else if bucketWindow == 2 then 11
    else if bucketWindow == 3 then 45
    else if bucketWindow == 4 then 100
    else if bucketWindow == 5 then 275
    else if bucketWindow == 6 then 625
    else if bucketWindow == 7 then 1850
    else if bucketWindow == 8 then 3400
    else if bucketWindow == 9 then 9630
    else if bucketWindow == 10 then 17900
    else if bucketWindow == 11 then 32800
    else if bucketWindow == PIPPENGER_MAX_BUCKET_WINDOW then SIZE_MAX
    else 0
  }

  // The two tables are inverse to each other: window b serves exactly the
  // numbers of points above inv(b-1) and up to inv(b).
  lemma {:induction false} BucketWindowsAgree(n: nat, b: nat)
    requires 1 <= n <= SIZE_MAX && 1 <= b <= PIPPENGER_MAX_BUCKET_WINDOW
    ensures BucketWindow(n) == b <==> BucketWindowInv(b - 1) < n <= BucketWindowInv(b)
  {
  }

  // secp256k1_strauss_max_points: every smaller number of points fits as well.
  method StraussMaxPoints(scratch: ScratchSpace, sz: Sizes) returns (r: nat)
    requires scratch.Valid() && sz.Positive()
    ensures forall n: nat :: n <= r ==> sz.StraussScratchSize(n) <= Room(scratch.maxSize, scratch.Total(), SCRATCH_OBJECTS)
    ensures sz.StraussScratchSize(r + 1) > Room(scratch.maxSize, scratch.Total(), SCRATCH_OBJECTS)
  {
    var maxAlloc := scratch.MaxAllocation(SCRATCH_OBJECTS);
    var unit := sz.StraussScratchSize(1);
    StraussFits(sz, maxAlloc, 0);
    r := maxAlloc / unit;
    LargestThatFits(sz, maxAlloc, r);
  }

  lemma {:induction false} LargestThatFits(sz: Sizes, total: nat, r: nat)
    requires sz.Positive() && sz.StraussScratchSize(1) > 0 && r == total / sz.StraussScratchSize(1)
    ensures forall n: nat :: n <= r ==> sz.StraussScratchSize(n) <= total
    ensures sz.StraussScratchSize(r + 1) > total
  {
    forall n: nat
      ensures n <= r <==> sz.StraussScratchSize(n) <= total
    {
      StraussFits(sz, total, n);
    }
  }

  lemma {:induction false} StraussFits(sz: Sizes, total: nat, n: nat)
    requires sz.Positive()
    ensures sz.StraussScratchSize(1) > 0
    ensures total / sz.StraussScratchSize(1) >= 0
    ensures sz.StraussScratchSize(n) <= total <==> n <= total / sz.StraussScratchSize(1)
  {
    QuotientFits(total, sz.StraussPointSize(), 0);
    QuotientFits(total, sz.StraussPointSize(), n);
  }

  // A quotient says how many units fit.
  lemma {:induction false} QuotientFits(total: nat, unit: nat, n: nat)
    requires unit > 0
    ensures n * unit <= total <==> n <= total / unit
  {
    var q := total / unit;
    assert total == unit * q + total % unit;
    if n <= q {
      MulMonotone(n, q, unit);
    } else {
      MulMonotone(q + 1, n, unit);
      assert (q + 1) * unit == unit * q + unit;
    }
  }

  // secp256k1_pippenger_max_points: every smaller number of points fits as well.
  method PippengerMaxPoints(scratch: ScratchSpace, sz: Sizes) returns (res: nat)
    requires scratch.Valid() && sz.Positive()
    ensures res <= SIZE_MAX
    ensures res > 0 <==> sz.PippengerScratchSize(1, 1) <= Room(scratch.maxSize, scratch.Total(), SCRATCH_OBJECTS)
    ensures forall n :: 1 <= n <= res ==>
      sz.PippengerScratchSize(n, BucketWindow(n)) <= Room(scratch.maxSize, scratch.Total(), SCRATCH_OBJECTS)
  {
    var maxAlloc := scratch.MaxAllocation(SCRATCH_OBJECTS);
    res := 0;
    var bucketWindow := 1;
    while bucketWindow <= PIPPENGER_MAX_BUCKET_WINDOW
      invariant 1 <= bucketWindow <= PIPPENGER_MAX_BUCKET_WINDOW + 1
      invariant res == BucketWindowInv(bucketWindow - 1)
      invariant bucketWindow > 1 ==> res > 0 && sz.PippengerScratchSize(1, 1) <= maxAlloc
      invariant forall n :: 1 <= n <= res ==> sz.PippengerScratchSize(n, BucketWindow(n)) <= maxAlloc
    {
      var maxPoints := BucketWindowInv(bucketWindow);
      var entrySize := sz.PippengerEntrySize(bucketWindow);
      var spaceOverhead := sz.gej * Pow2(bucketWindow) + entrySize + sz.pippengerState;
      if spaceOverhead > maxAlloc {
        break;
      }
      var spaceForPoints := maxAlloc - spaceOverhead;
      var nPoints := spaceForPoints / entrySize;
      nPoints := if nPoints > maxPoints then maxPoints else nPoints;
      OnePointFits(sz, bucketWindow, spaceForPoints);
      forall n | res < n <= nPoints
        ensures sz.PippengerScratchSize(n, BucketWindow(n)) <= maxAlloc
      {
        BucketWindowsAgree(n, bucketWindow);
        PointsFitInWindow(sz, n, bucketWindow, spaceForPoints);
      }
      if nPoints > res {
        res := nPoints;
      }
      if nPoints < maxPoints {
        break;
      }
      bucketWindow := bucketWindow + 1;
    }
  }

  lemma {:induction false} OnePointFits(sz: Sizes, bucketWindow: nat, space: nat)
    requires sz.Positive()
    ensures var e := sz.PippengerEntrySize(bucketWindow);
      && e > 0
      && (space / e >= 1 <==> e <= space)
      && sz.PippengerScratchSize(1, bucketWindow) == sz.gej * Pow2(bucketWindow) + e + sz.pippengerState + e
  {
    var e := sz.PippengerEntrySize(bucketWindow);
    assert space == e * (space / e) + space % e;
    if space / e >= 1 {
      MulMonotone(1, space / e, e);
    } else {
      MulMonotone(space / e, 0, e);
    }
  }

  lemma {:induction false} PointsFitInWindow(sz: Sizes, n: nat, bucketWindow: nat, space: nat)
    requires sz.Positive()
    requires sz.PippengerEntrySize(bucketWindow) > 0 && n <= space / sz.PippengerEntrySize(bucketWindow)
    ensures sz.PippengerScratchSize(n, bucketWindow)
         <= sz.gej * Pow2(bucketWindow) + sz.PippengerEntrySize(bucketWindow) + sz.pippengerState + space
  {
    var e := sz.PippengerEntrySize(bucketWindow);
    assert space == e * (space / e) + space % e;
    MulMonotone(n, space / e, e);
    assert (n + 1) * e == n * e + e;
  }

  // ---- one batch ----

  // The scratch space as a batch finds it and must leave it.
  ghost predicate Ready(scratch: ScratchSpace)
    reads scratch, scratch.offset, scratch.frameSize
  {
    scratch.Valid() && scratch.frame < SCRATCH_MAX_FRAMES && scratch.WithinLimit()
  }

  // The scratch space between batches: always the same.
  ghost predicate Idle(scratch: ScratchSpace, frame: nat, total: nat)
    reads scratch, scratch.offset, scratch.frameSize
  {
    Ready(scratch) && scratch.frame == frame && scratch.Total() == total
  }

  // The same with the frame of one batch on top.
  ghost predicate Entered(scratch: ScratchSpace, frame: nat, total: nat)
    reads scratch, scratch.offset, scratch.frameSize
  {
    && scratch.Valid() && scratch.frame == frame + 1 && total <= scratch.maxSize
    && scratch.Total() == total + scratch.frameSize[frame]
  }

  method LeaveFrame(scratch: ScratchSpace, ghost frame: nat, ghost total: nat)
    requires Entered(scratch, frame, total)
    modifies scratch
    ensures Idle(scratch, frame, total)
  {
    scratch.DeallocateFrame();
  }

  // All pieces of a batch, taken from a frame of the requested size: every
  // secp256k1_scratch_alloc succeeds, in bounds and disjoint from the others.
  method TakePieces(scratch: ScratchSpace, pieces: seq<nat>)
    requires scratch.Valid() && scratch.frame > 0
    requires scratch.offset[scratch.frame - 1] == 0 && scratch.served[scratch.frame - 1] == []
    requires Sum(pieces) + |pieces| * ALIGNMENT <= scratch.frameSize[scratch.frame - 1]
    modifies scratch, scratch.offset
    ensures scratch.Valid() && scratch.frame == old(scratch.frame)
    ensures |scratch.served[scratch.frame - 1]| == |pieces|
    ensures forall k :: 0 <= k < |pieces| ==> scratch.served[scratch.frame - 1][k].1 == pieces[k]
  {
    var top := scratch.frame - 1;
    for k := 0 to |pieces|
      invariant scratch.Valid() && scratch.frame == top + 1
      invariant scratch.offset[top] <= Sum(pieces[..k]) + k * ALIGNMENT
      invariant |scratch.served[top]| == k
      invariant forall j :: 0 <= j < k ==> scratch.served[top][j].1 == pieces[j]
    {
      SumPrefix(pieces, k);
      TakeOne(scratch, pieces[k]);
    }
  }

  method TakeOne(scratch: ScratchSpace, size: nat)
    requires scratch.Valid() && scratch.frame > 0
    requires scratch.offset[scratch.frame - 1] + size + ALIGNMENT <= scratch.frameSize[scratch.frame - 1]
    modifies scratch, scratch.offset
    ensures scratch.Valid() && scratch.frame == old(scratch.frame)
    ensures scratch.offset[scratch.frame - 1] <= old(scratch.offset[scratch.frame - 1]) + size + ALIGNMENT
    ensures var served, before := scratch.served[scratch.frame - 1], old(scratch.served[scratch.frame - 1]);
      |served| == |before| + 1 && served[..|before|] == before && served[|before|].1 == size
  {
    var piece := scratch.Alloc(size);
    assert piece.Some?;
  }

  lemma {:induction false} SumPrefix(s: seq<nat>, k: nat)
    requires k < |s|
    ensures Sum(s[..k + 1]) == Sum(s[..k]) + s[k]
    ensures Sum(s[..k + 1]) <= Sum(s)
    decreases |s| - k
  {
    assert s[..k + 1][..k] == s[..k];
    if k + 1 < |s| {
      SumPrefix(s, k + 1);
    } else {
      assert s[..k + 1] == s;
    }
  }

  // A batch enters its frame and takes all its pieces from it, or takes nothing.
  method EnterFrame(scratch: ScratchSpace, request: nat, pieces: seq<nat>, malloc: nat -> bool) returns (ok: bool)
    requires Ready(scratch) && request <= SIZE_MAX
    requires Sum(pieces) <= request && |pieces| == SCRATCH_OBJECTS
    modifies scratch, scratch.offset, scratch.frameSize
    ensures scratch.Valid()
    ensures ok <==> request <= Room(scratch.maxSize, old(scratch.Total()), SCRATCH_OBJECTS)
                    && malloc(request + SCRATCH_OBJECTS * ALIGNMENT)
    ensures !ok ==> Idle(scratch, old(scratch.frame), old(scratch.Total()))
    ensures ok ==>
      && Entered(scratch, old(scratch.frame), old(scratch.Total()))
      && |scratch.served[scratch.frame - 1]| == |pieces|
      && (forall k :: 0 <= k < |pieces| ==> scratch.served[scratch.frame - 1][k].1 == pieces[k])
  {
    ok := scratch.AllocateFrame(request, SCRATCH_OBJECTS, malloc);
    if ok {
      TakePieces(scratch, pieces);
    }
  }

  // The user's callback: the scalar and point at an index, or failure.
  type Callback = nat -> Option<(int, Ge)>

  // What a point in affine coordinates stands for.
  function PointOf(a: Ge): Point {
    if a.infinity then Infinity else Affine(Reduce(a.x), Reduce(a.y))
  }

  lemma {:induction false} PointOfIsMeant(a: Ge)
    ensures RepresentsAffine(a, 1, PointOf(a))
  {
    EqIsCong(1, 0);
    EqReduce(a.x);
    EqReduce(a.y);
  }

  // It yields scalars below the order and points on the curve.
  ghost predicate YieldsPoints(cb: Callback) { forall i :: YieldsPoint(cb(i)) }

  ghost predicate YieldsPoint(entry: Option<(int, Ge)>) {
    entry.Some? ==> 0 <= entry.value.0 < N && OnCurve(PointOf(entry.value.1))
  }

  ghost predicate AllSucceed(cb: Callback, from: nat, n: nat) {
    forall i :: from <= i < from + n ==> cb(i).Some?
  }

  function ScalarAt(cb: Callback, i: nat): int {
    if cb(i).Some? then cb(i).value.0 else 0
  }

  ghost function PointAt(cb: Callback, i: nat): CurvePoint {
    if cb(i).Some? && OnCurve(PointOf(cb(i).value.1)) then PointOf(cb(i).value.1) else Infinity
  }

  ghost function Scalars(cb: Callback, from: nat, n: nat): (c: seq<int>)
    ensures |c| == n
  {
    seq(n, i requires 0 <= i < n => ScalarAt(cb, from + i))
  }

  ghost function Points(cb: Callback, from: nat, n: nat): (b: seq<CurvePoint>)
    ensures |b| == n
  {
    seq<CurvePoint>(n, i requires 0 <= i < n => PointAt(cb, from + i))
  }

  // The sum over the indices from..from+n of scalar times point.
  ghost function Range(g: Group<CurvePoint>, cb: Callback, from: nat, n: nat): CurvePoint {
    g.Lin(Scalars(cb, from, n), Points(cb, from, n))
  }

  lemma {:induction false} RangeConcat(g: Group<CurvePoint>, cb: Callback, from: nat, m: nat, n: nat)
    requires g.IsAbelian()
    ensures Range(g, cb, from, m + n) == g.add(Range(g, cb, from, m), Range(g, cb, from + m, n))
  {
    assert Scalars(cb, from, m + n) == Scalars(cb, from, m) + Scalars(cb, from + m, n);
    assert Points(cb, from, m + n) == Points(cb, from, m) + Points(cb, from + m, n);
    LinConcat(g, Scalars(cb, from, m), Scalars(cb, from + m, n), Points(cb, from, m), Points(cb, from + m, n));
  }

  // What is in Jacobian coordinates and what it stands for.
  ghost predicate AreJacobian(a: seq<Gej>, pts: seq<CurvePoint>) {
    |a| == |pts| && forall k :: 0 <= k < |a| ==> Represents(a[k], 1, pts[k])
  }

  // Lines 656-664: the callback is asked for every scalar and point.
  method CollectStrauss(cb: Callback, from: nat, n: nat, scalars: array<int>, points: array<Gej>) returns (ok: bool)
    requires YieldsPoints(cb) && n <= scalars.Length && n <= points.Length
    modifies scalars, points
    ensures ok <==> AllSucceed(cb, from, n)
    ensures ok ==> AreScalars(scalars[..n]) && scalars[..n] == Scalars(cb, from, n) && AreJacobian(points[..n], Points(cb, from, n))
  {
    for i := 0 to n
      invariant AllSucceed(cb, from, i)
      invariant AreScalars(scalars[..i]) && scalars[..i] == Scalars(cb, from, i)
      invariant AreJacobian(points[..i], Points(cb, from, i))
    {
      var entry := cb(from + i);
      if entry == None {
        return false;
      }
      assert YieldsPoint(cb(from + i));
      PointOfIsMeant(entry.value.1);
      NextIndex(cb, from, i);
      ghost var before, was := scalars[..i], points[..i];
      scalars[i] := entry.value.0;
      points[i] := SetGe(entry.value.1);
      assert scalars[..i + 1] == before + [scalars[i]] && points[..i + 1] == was + [points[i]];
    }
    return true;
  }

  // Lines 1011-1021: likewise, from the index idx on.
  method CollectPippenger(cb: Callback, from: nat, n: nat, scalars: array<int>, points: array<Ge>, idx: nat) returns (ok: bool)
    requires YieldsPoints(cb) && idx + n <= scalars.Length && idx + n <= points.Length
    modifies scalars, points
    ensures scalars[..idx] == old(scalars[..idx]) && points[..idx] == old(points[..idx])
    ensures ok <==> AllSucceed(cb, from, n)
    ensures ok ==> AreScalars(scalars[idx..idx + n]) && scalars[idx..idx + n] == Scalars(cb, from, n)
    ensures ok ==> Pippenger.AreAffine(points[idx..idx + n], Points(cb, from, n))
  {
    for i := 0 to n
      invariant scalars[..idx] == old(scalars[..idx]) && points[..idx] == old(points[..idx])
      invariant AllSucceed(cb, from, i)
      invariant AreScalars(scalars[idx..idx + i]) && scalars[idx..idx + i] == Scalars(cb, from, i)
      invariant Pippenger.AreAffine(points[idx..idx + i], Points(cb, from, i))
    {
      var entry := cb(from + i);
      if entry == None {
        return false;
      }
      assert YieldsPoint(cb(from + i));
      PointOfIsMeant(entry.value.1);
      NextIndex(cb, from, i);
      ghost var before, was := scalars[idx..idx + i], points[idx..idx + i];
      scalars[idx + i] := entry.value.0;
      points[idx + i] := entry.value.1;
      assert scalars[idx..idx + i + 1] == before + [scalars[idx + i]];
      assert points[idx..idx + i + 1] == was + [points[idx + i]];
    }
    return true;
  }

  lemma {:induction false} NextIndex(cb: Callback, from: nat, i: nat)
    ensures Scalars(cb, from, i + 1) == Scalars(cb, from, i) + [ScalarAt(cb, from + i)]
    ensures Points(cb, from, i + 1) == Points(cb, from, i) + [PointAt(cb, from + i)]
  {
  }

  // What a batch may fail for: the frame, its malloc, or the callback.
  ghost predicate GoesThrough(cb: Callback, from: nat, n: nat, request: nat, maxSize: nat, used: nat, malloc: nat -> bool) {
    && request <= Room(maxSize, used, SCRATCH_OBJECTS)
    && malloc(request + SCRATCH_OBJECTS * ALIGNMENT)
    && AllSucceed(cb, from, n)
  }

  // The hypotheses on the curve group, the generator and its table.
  ghost predicate Setting(g: Group<CurvePoint>, gen: CurvePoint, ge: Ge, preG: seq<Storage>) {
    && Fermat() && FermatN() && IsCurveGroup(g) && RepresentsAffine(ge, 1, gen)
    && |preG| == TableSize(WINDOW_G) && StraussJacobian.IsStoredTable(g, preG, gen)
  }

  // secp256k1_ecmult_strauss_batch
  method StraussBatch(ghost g: Group<CurvePoint>, ghost gen: CurvePoint, ghost ge: Ge, preG: seq<Storage>, sz: Sizes,
                      scratch: ScratchSpace, malloc: nat -> bool, ng: Option<int>, cb: Callback, n: nat, from: nat)
    returns (ok: bool, r: Gej)
    requires Setting(g, gen, ge, preG) && YieldsPoints(cb) && (ng.Some? ==> 0 <= ng.value < N)
    requires Ready(scratch) && sz.Positive() && sz.StraussScratchSize(n) <= SIZE_MAX
    modifies scratch, scratch.offset, scratch.frameSize
    ensures Idle(scratch, old(scratch.frame), old(scratch.Total()))
    ensures ok ==> IsBatchSum(g, gen, ng, cb, from, n, r)
    ensures ok <==>
      || (ng == None && n == 0)
      || GoesThrough(cb, from, n, sz.StraussScratchSize(n), scratch.maxSize, old(scratch.Total()), malloc)
  {
    r := Gej(0, 0, 0, true);
    if ng == None && n == 0 {
      EmptyBatch(g, gen, cb, from, r);
      return true, r;
    }
    StraussPiecesFit(sz, n);
    StraussPiecesHold(sz, n);
    ok, r := StraussFramed(g, gen, ge, preG, sz, scratch, malloc, sz.StraussScratchSize(n), sz.StraussPieces(n), ng, cb, n, from);
  }

  // Lines 640-666
  method StraussFramed(ghost g: Group<CurvePoint>, ghost gen: CurvePoint, ghost ge: Ge, preG: seq<Storage>, sz: Sizes,
                       scratch: ScratchSpace, malloc: nat -> bool, request: nat, pieces: seq<nat>, ng: Option<int>, cb: Callback,
                       n: nat, from: nat) returns (ok: bool, r: Gej)
    requires Setting(g, gen, ge, preG) && YieldsPoints(cb) && (ng.Some? ==> 0 <= ng.value < N)
    requires Ready(scratch) && request <= SIZE_MAX && Sum(pieces) <= request
    requires sz.Positive() && HoldsStrauss(sz, pieces, n)
    modifies scratch, scratch.offset, scratch.frameSize
    ensures Idle(scratch, old(scratch.frame), old(scratch.Total()))
    ensures ok ==> IsBatchSum(g, gen, ng, cb, from, n, r)
    ensures ok <==> GoesThrough(cb, from, n, request, scratch.maxSize, old(scratch.Total()), malloc)
  {
    r := Gej(0, 0, 0, true);
    ghost var frame, total := scratch.frame, scratch.Total();
    var entered := EnterFrame(scratch, request, pieces, malloc);
    if !entered {
      return false, r;
    }
    ok, r := StraussOver(g, gen, ge, preG, sz, pieces, ng, cb, n, from);
    LeaveFrame(scratch, frame, total);
  }

  // Lines 643-664: each array has the entries that the bytes of its piece amount to.
  method StraussOver(ghost g: Group<CurvePoint>, ghost gen: CurvePoint, ghost ge: Ge, preG: seq<Storage>, sz: Sizes, pieces: seq<nat>,
                     ng: Option<int>, cb: Callback, n: nat, from: nat) returns (ok: bool, r: Gej)
    requires Setting(g, gen, ge, preG) && YieldsPoints(cb) && (ng.Some? ==> 0 <= ng.value < N)
    requires sz.Positive() && HoldsStrauss(sz, pieces, n)
    ensures ok <==> AllSucceed(cb, from, n)
    ensures ok ==> IsBatchSum(g, gen, ng, cb, from, n, r)
  {
    r := Gej(0, 0, 0, true);
    var points := new Gej[pieces[0] / sz.gej](_ => r);
    var scalars := new int[pieces[1] / sz.scalar](_ => 0);
    var prej := new Gej[pieces[2] / sz.gej](_ => r);
    var zr := new int[pieces[3] / sz.fe](_ => 0);
    var preA := new Ge[pieces[4] / sz.ge](_ => Ge(0, 0, true));
    var ps := new PointState[pieces[5] / sz.straussPoint](_ => PointState(0, 0, []));
    ok := CollectStrauss(cb, from, n, scalars, points);
    if ok {
      var state := StraussJacobian.State(prej, zr, preA, ps);
      r := StraussJacobian.StraussWnaf(g, gen, preG, state, scalars[..n], points[..n], ng, Points(cb, from, n));
    }
  }

  // r is the sum over the batch, and ng times the generator if there is an ng.
  ghost predicate IsBatchSum(g: Group<CurvePoint>, gen: CurvePoint, ng: Option<int>, cb: Callback, from: nat, n: nat, r: Gej) {
    AllSucceed(cb, from, n) && Represents(r, 1, g.add(Range(g, cb, from, n), MaybeTimes(g, ng, gen)))
  }

  lemma {:induction false} EmptyBatch(g: Group<CurvePoint>, gen: CurvePoint, cb: Callback, from: nat, r: Gej)
    requires IsCurveGroup(g) && r.infinity
    ensures IsBatchSum(g, gen, None, cb, from, 0, r)
  {
    assert Range(g, cb, from, 0) == g.zero;
  }

  // secp256k1_gej_set_ge
  function SetGe(a: Ge): Gej { Gej(a.x, a.y, 1, a.infinity) }

  // secp256k1_ecmult_pippenger_batch
  method PippengerBatch(ghost g: Group<CurvePoint>, ghost gen: CurvePoint, ge: Ge, ghost preG: seq<Storage>, sz: Sizes,
                        scratch: ScratchSpace, malloc: nat -> bool, ng: Option<int>, cb: Callback, n: nat, from: nat)
    returns (ok: bool, r: Gej)
    requires Setting(g, gen, ge, preG) && YieldsPoints(cb) && (ng.Some? ==> 0 <= ng.value < N)
    requires Ready(scratch) && sz.Positive() && sz.PippengerScratchSize(n, BucketWindow(n)) <= SIZE_MAX
    modifies scratch, scratch.offset, scratch.frameSize
    ensures Idle(scratch, old(scratch.frame), old(scratch.Total()))
    ensures ok ==> IsBatchSum(g, gen, ng, cb, from, n, r)
    ensures ok <==>
      || (ng == None && n == 0)
      || GoesThrough(cb, from, n, sz.PippengerScratchSize(n, BucketWindow(n)), scratch.maxSize, old(scratch.Total()), malloc)
  {
    if ng == None && n == 0 {
      r := Gej(0, 0, 0, true);
      EmptyBatch(g, gen, cb, from, r);
      return true, r;
    }
    var bucketWindow := BucketWindow(n);
    var pieces := sz.PippengerPieces(n, bucketWindow);
    PippengerPiecesFit(sz, n, bucketWindow);
    PippengerPiecesHold(sz, n, bucketWindow);
    ok, r := PippengerFramed(g, gen, ge, preG, sz, scratch, malloc, sz.PippengerScratchSize(n, bucketWindow), pieces, bucketWindow, ng, cb, n, from);
  }

  // Lines 986-1039
  method PippengerFramed(ghost g: Group<CurvePoint>, ghost gen: CurvePoint, ge: Ge, ghost preG: seq<Storage>, sz: Sizes,
                         scratch: ScratchSpace, malloc: nat -> bool, request: nat, pieces: seq<nat>, bucketWindow: nat,
                         ng: Option<int>, cb: Callback, n: nat, from: nat) returns (ok: bool, r: Gej)
    requires Setting(g, gen, ge, preG) && YieldsPoints(cb) && (ng.Some? ==> 0 <= ng.value < N) && 1 <= bucketWindow <= 12
    requires Ready(scratch) && request <= SIZE_MAX && Sum(pieces) <= request
    requires sz.Positive() && HoldsPippenger(sz, pieces, n, bucketWindow)
    modifies scratch, scratch.offset, scratch.frameSize
    ensures Idle(scratch, old(scratch.frame), old(scratch.Total()))
    ensures ok ==> IsBatchSum(g, gen, ng, cb, from, n, r)
    ensures ok <==> GoesThrough(cb, from, n, request, scratch.maxSize, old(scratch.Total()), malloc)
  {
    r := Gej(0, 0, 0, true);
    ghost var frame, total := scratch.frame, scratch.Total();
    var entered := EnterFrame(scratch, request, pieces, malloc);
    if !entered {
      return false, r;
    }
    ok, r := PippengerOver(g, gen, ge, preG, sz, pieces, bucketWindow, ng, cb, n, from);
    LeaveFrame(scratch, frame, total);
  }

  // Lines 991-1023: each array has the entries that the bytes of its piece amount to.
  method PippengerOver(ghost g: Group<CurvePoint>, ghost gen: CurvePoint, ge: Ge, ghost preG: seq<Storage>, sz: Sizes, pieces: seq<nat>,
                       bucketWindow: nat, ng: Option<int>, cb: Callback, n: nat, from: nat) returns (ok: bool, r: Gej)
    requires Setting(g, gen, ge, preG) && 1 <= bucketWindow <= 12 && YieldsPoints(cb) && (ng.Some? ==> 0 <= ng.value < N)
    requires sz.Positive() && HoldsPippenger(sz, pieces, n, bucketWindow)
    ensures ok <==> AllSucceed(cb, from, n)
    ensures ok ==> IsBatchSum(g, gen, ng, cb, from, n, r)
  {
    r := Gej(0, 0, 0, true);
    var points := new Ge[pieces[0] / sz.ge](_ => Ge(0, 0, true));
    var scalars := new int[pieces[1] / sz.scalar](_ => 0);
    var ps := new Pippenger.BucketPoint[pieces[3] / sz.pippengerPoint](_ => Pippenger.BucketPoint(0, 0));
    var wnafNa := new int[pieces[4] / sz.word](_ => 0);
    var buckets := new Gej[pieces[5] / sz.gej](_ => r);
    ok, r := WithGenerator(g, gen, ge, buckets, bucketWindow, Pippenger.State(wnafNa, ps), scalars, points, ng, cb, n, from);
  }

  // Lines 1001-1023: the generator and its scalar, if any, are put in front of the others.
  method WithGenerator(ghost g: Group<CurvePoint>, ghost gen: CurvePoint, ge: Ge, buckets: array<Gej>, bucketWindow: nat,
                       state: Pippenger.State, scalars: array<int>, points: array<Ge>, ng: Option<int>, cb: Callback, n: nat, from: nat)
    returns (ok: bool, r: Gej)
    requires Fermat() && IsCurveGroup(g) && RepresentsAffine(ge, 1, gen) && YieldsPoints(cb) && (ng.Some? ==> 0 <= ng.value < N)
    requires 1 <= bucketWindow <= 12 && buckets.Length == Pow2(bucketWindow) && state.Holds(n + 1, bucketWindow + 1)
    requires n + 1 <= scalars.Length && n + 1 <= points.Length && scalars != state.wnafNa
    modifies buckets, state.wnafNa, state.ps, scalars, points
    ensures ok <==> AllSucceed(cb, from, n)
    ensures ok ==> IsBatchSum(g, gen, ng, cb, from, n, r)
  {
    r := Gej(0, 0, 0, true);
    var idx := 0;
    if ng.Some? {
      scalars[0] := ng.value;
      points[0] := ge;
      idx := 1;
    }
    ok := CollectPippenger(cb, from, n, scalars, points, idx);
    if ok {
      var sc, pt := scalars[..idx + n], points[..idx + n];
      assert sc[idx..] == scalars[idx..idx + n] && pt[idx..] == points[idx..idx + n];
      assert ng.Some? ==> sc[0] == ng.value && pt[0] == ge;
      MulMonotone(idx + n, n + 1, WindowCount(256, bucketWindow + 1));
      r := SumJoined(g, gen, ge, buckets, bucketWindow, state, sc, pt, idx, ng, Scalars(cb, from, n), Points(cb, from, n));
    }
  }

  method SumJoined(ghost g: Group<CurvePoint>, ghost gen: CurvePoint, ghost ge: Ge, buckets: array<Gej>, bucketWindow: nat,
                   state: Pippenger.State, sc: seq<int>, pt: seq<Ge>, ghost idx: nat, ghost ng: Option<int>, ghost tail: seq<int>,
                   ghost pts: seq<CurvePoint>) returns (r: Gej)
    requires Fermat() && IsCurveGroup(g) && RepresentsAffine(ge, 1, gen) && (ng.Some? ==> 0 <= ng.value < N)
    requires 1 <= bucketWindow <= 12 && buckets.Length == Pow2(bucketWindow) && state.Holds(|sc|, bucketWindow + 1)
    requires idx <= |sc| == |pt| && idx == if ng.Some? then 1 else 0
    requires ng.Some? ==> sc[0] == ng.value && pt[0] == ge
    requires AreScalars(tail) && sc[idx..] == tail && Pippenger.AreAffine(pt[idx..], pts)
    modifies buckets, state.wnafNa, state.ps
    ensures Represents(r, 1, g.add(g.Lin(tail, pts), MaybeTimes(g, ng, gen)))
  {
    ghost var all := if ng.Some? then [gen] + pts else pts;
    Joined(ng, ge, gen, sc, pt, idx, tail, pts);
    GeneratorFirst(g, ng, gen, tail, pts);
    r := Pippenger.PippengerWnaf(g, buckets, bucketWindow, state, sc, pt, all);
  }

  lemma {:induction false} Joined(ng: Option<int>, ge: Ge, gen: CurvePoint, sc: seq<int>, pt: seq<Ge>, idx: nat, tail: seq<int>,
                                  pts: seq<CurvePoint>)
    requires RepresentsAffine(ge, 1, gen) && (ng.Some? ==> 0 <= ng.value < N)
    requires idx <= |sc| == |pt| && idx == if ng.Some? then 1 else 0
    requires ng.Some? ==> sc[0] == ng.value && pt[0] == ge
    requires AreScalars(tail) && sc[idx..] == tail && Pippenger.AreAffine(pt[idx..], pts)
    ensures sc == (if ng.Some? then [ng.value] + tail else tail) && AreScalars(sc)
    ensures Pippenger.AreAffine(pt, if ng.Some? then [gen] + pts else pts)
  {
    if ng.Some? {
      InFront(ng.value, sc, tail);
      AffineInFront(ge, gen, pt, pts);
    } else {
      assert sc[0..] == sc && pt[0..] == pt;
    }
  }

  lemma {:induction false} InFront(x: int, sc: seq<int>, tail: seq<int>)
    requires |sc| > 0 && sc[0] == x && sc[1..] == tail && 0 <= x < N && AreScalars(tail)
    ensures sc == [x] + tail && AreScalars(sc)
  {
    assert forall i :: 1 <= i < |sc| ==> sc[i] == tail[i - 1];
  }

  lemma {:induction false} AffineInFront(ge: Ge, gen: CurvePoint, pt: seq<Ge>, pts: seq<CurvePoint>)
    requires |pt| > 0 && pt[0] == ge && RepresentsAffine(ge, 1, gen) && Pippenger.AreAffine(pt[1..], pts)
    ensures Pippenger.AreAffine(pt, [gen] + pts)
  {
    forall k | 0 <= k < |pt|
      ensures RepresentsAffine(pt[k], 1, ([gen] + pts)[k])
    {
      assert k > 0 ==> pt[k] == pt[1..][k - 1];
    }
  }

  lemma {:induction false} GeneratorFirst<P(!new)>(g: Group<P>, ng: Option<int>, gen: P, sc: seq<int>, pt: seq<P>)
    requires g.IsAbelian() && |sc| == |pt|
    ensures ng.Some? ==> g.Lin([ng.value] + sc, [gen] + pt) == g.add(g.Lin(sc, pt), MaybeTimes(g, ng, gen))
    ensures ng == None ==> g.Lin(sc, pt) == g.add(g.Lin(sc, pt), MaybeTimes(g, ng, gen))
  {
    if ng.Some? {
      LinCons(g, ng.value, gen, sc, pt);
      Comm(g, g.Times(ng.value, gen), g.Lin(sc, pt));
    }
  }

  // ---- all batches ----

  // secp256k1_ecmult_multi_batch_size_helper: the batches are nonempty, within
  // the limit, and together cover the n points.
  method BatchSizeHelper(maxBatchPoints: nat, n: nat) returns (ok: bool, batches: nat, batchPoints: nat)
    ensures ok <==> maxBatchPoints > 0
    ensures ok ==> batchPoints <= maxBatchPoints && batchPoints <= ECMULT_MAX_POINTS_PER_BATCH
    ensures ok && n == 0 ==> batches == 0 && batchPoints == 0
    ensures ok && n > 0 ==> Covers(n, batches, batchPoints) && batchPoints <= n
  {
    if maxBatchPoints == 0 {
      return false, 0, 0;
    }
    var limit := maxBatchPoints;
    if limit > ECMULT_MAX_POINTS_PER_BATCH {
      limit := ECMULT_MAX_POINTS_PER_BATCH;
    }
    if n == 0 {
      return true, 0, 0;
    }
    batches := 1 + (n - 1) / limit;
    CeilDiv(n, limit, batches);
    batchPoints := 1 + (n - 1) / batches;
    CeilDiv(n, batches, batchPoints);
    BatchesAreTight(n, limit, batches, batchPoints);
    NoMoreThanThereAre(n, batches, batchPoints);
    return true, batches, batchPoints;
  }

  lemma {:induction false} CeilDiv(n: nat, d: nat, q: nat)
    requires n > 0 && d > 0 && q == 1 + (n - 1) / d
    ensures q > 0 && (q - 1) * d < n <= q * d
  {
    var k := (n - 1) / d;
    assert n - 1 == d * k + (n - 1) % d;
    assert q * d == d * k + d && (q - 1) * d == d * k;
  }

  lemma {:induction false} NoMoreThanThereAre(n: nat, batches: nat, batchPoints: nat)
    requires batches > 0 && (batchPoints - 1) * batches < n
    ensures batchPoints <= n
  {
    if batchPoints > n {
      MulMonotone(n, batchPoints - 1, batches);
      MulMonotone(1, batches, n);
    }
  }

  lemma {:induction false} BatchesAreTight(n: nat, limit: nat, batches: nat, batchPoints: nat)
    requires batches > 0 && limit > 0 && batchPoints > 0
    requires (batches - 1) * limit < n <= batches * limit
    requires (batchPoints - 1) * batches < n <= batchPoints * batches
    ensures batchPoints <= limit
    ensures (batches - 1) * batchPoints < n <= batches * batchPoints
  {
    if batchPoints - 1 >= limit {
      MulMonotone(limit, batchPoints - 1, batches);
    }
    MulMonotone(batchPoints, limit, batches - 1);
  }

  // The accumulated result once m points are done.
  ghost predicate Accumulated(g: Group<CurvePoint>, gen: CurvePoint, ng: Option<int>, cb: Callback, m: nat, r: Gej) {
    AllSucceed(cb, 0, m) && Represents(r, 1, Total(g, gen, ng, cb, m))
  }

  ghost function Total(g: Group<CurvePoint>, gen: CurvePoint, ng: Option<int>, cb: Callback, m: nat): CurvePoint {
    g.add(MaybeTimes(g, ng, gen), Range(g, cb, 0, m))
  }

  // secp256k1_ecmult_multi_simple_var
  method MultiSimple(ghost g: Group<CurvePoint>, ghost gen: CurvePoint, ghost ge: Ge, preG: seq<Storage>, ng: Option<int>, cb: Callback,
                     n: nat) returns (ok: bool, r: Gej)
    requires Setting(g, gen, ge, preG) && YieldsPoints(cb) && (ng.Some? ==> 0 <= ng.value < N)
    ensures ok <==> AllSucceed(cb, 0, n)
    ensures ok ==> Accumulated(g, gen, ng, cb, n, r)
  {
    r := OnlyGenerator(g, gen, ge, preG, ng, cb);
    for i := 0 to n
      invariant Accumulated(g, gen, ng, cb, i, r)
    {
      var entry := cb(i);
      if entry == None {
        return false, r;
      }
      assert YieldsPoint(cb(i));
      r := AddOne(g, gen, ge, preG, ng, cb, i, entry.value.0, entry.value.1, r);
    }
    return true, r;
  }

  // ng times the generator, computed with a zero multiple of infinity.
  method OnlyGenerator(ghost g: Group<CurvePoint>, ghost gen: CurvePoint, ghost ge: Ge, preG: seq<Storage>, ng: Option<int>,
                       ghost cb: Callback) returns (r: Gej)
    requires Setting(g, gen, ge, preG) && (ng.Some? ==> 0 <= ng.value < N)
    ensures Accumulated(g, gen, ng, cb, 0, r)
  {
    r := StraussJacobian.Ecmult(g, gen, preG, Gej(0, 0, 0, true), 0, ng, Infinity);
    Comm(g, g.zero, MaybeTimes(g, ng, gen));
    assert Range(g, cb, 0, 0) == g.zero;
  }

  // Lines 1098-1109: scalar times point is added.
  method AddOne(ghost g: Group<CurvePoint>, ghost gen: CurvePoint, ghost ge: Ge, preG: seq<Storage>, ghost ng: Option<int>,
                ghost cb: Callback, ghost i: nat, scalar: int, point: Ge, r0: Gej) returns (r: Gej)
    requires Setting(g, gen, ge, preG) && Accumulated(g, gen, ng, cb, i, r0)
    requires cb(i) == Some((scalar, point)) && YieldsPoint(cb(i))
    ensures Accumulated(g, gen, ng, cb, i + 1, r)
  {
    ghost var p := PointAt(cb, i);
    PointOfIsMeant(point);
    var tmpj := StraussJacobian.Ecmult(g, gen, preG, SetGe(point), scalar, None, p);
    ghost var term := g.add(g.Times(scalar, p), MaybeTimes(g, None, gen));
    var rzr;
    r, rzr := GejAddVar(g, r0, tmpj, Total(g, gen, ng, cb, i), term);
    NextTotal(g, gen, ng, cb, i);
  }

  lemma {:induction false} NextTotal(g: Group<CurvePoint>, gen: CurvePoint, ng: Option<int>, cb: Callback, i: nat)
    requires g.IsAbelian()
    ensures Total(g, gen, ng, cb, i + 1)
         == g.add(Total(g, gen, ng, cb, i), g.add(g.Times(ScalarAt(cb, i), PointAt(cb, i)), MaybeTimes(g, None, gen)))
  {
    RangeConcat(g, cb, 0, i, 1);
    assert Scalars(cb, i, 1) == [ScalarAt(cb, i)];
    assert Points(cb, i, 1) == [PointAt(cb, i)];
    LinOne(g, ScalarAt(cb, i), PointAt(cb, i));
    Assoc(g, MaybeTimes(g, ng, gen), Range(g, cb, 0, i), Range(g, cb, i, 1));
  }

  // Room for one point with either algorithm, on top of 16 bytes for each of six
  // pieces. Strauss' algorithm has three tables of eight for it; Pippenger's has
  // an entry for the point and one for the generator, 129 digits each, and two buckets.
  ghost predicate HasRoom(scratch: ScratchSpace, sz: Sizes)
    requires scratch.Valid()
    reads scratch, scratch.offset, scratch.frameSize
  {
    PippengerHasRoom(scratch, sz) && StraussHasRoom(scratch, sz)
  }

  ghost predicate StraussHasRoom(scratch: ScratchSpace, sz: Sizes)
    requires scratch.Valid()
    reads scratch, scratch.offset, scratch.frameSize
  {
    scratch.Total() + 8 * (sz.gej + sz.fe + sz.ge) + sz.gej + sz.scalar + sz.straussPoint + 96 <= scratch.maxSize
  }

  ghost predicate PippengerHasRoom(scratch: ScratchSpace, sz: Sizes)
    requires scratch.Valid()
    reads scratch, scratch.offset, scratch.frameSize
  {
    scratch.Total() + 2 * sz.gej + sz.pippengerState + 2 * (sz.ge + sz.scalar + sz.pippengerPoint + 129 * sz.word) + 96
      <= scratch.maxSize
  }

  lemma {:induction false} RoomForOne(scratch: ScratchSpace, sz: Sizes)
    requires Ready(scratch) && sz.Positive()
    ensures PippengerHasRoom(scratch, sz) <==> sz.PippengerScratchSize(1, 1) <= Room(scratch.maxSize, scratch.Total(), SCRATCH_OBJECTS)
    ensures StraussHasRoom(scratch, sz) <==> sz.StraussScratchSize(1) <= Room(scratch.maxSize, scratch.Total(), SCRATCH_OBJECTS)
  {
    assert WindowCount(256, 2) == 128;
    assert Pow2(1) == 2;
  }

  // A batch of m points fits with the algorithm chosen.
  ghost predicate BatchFits(sz: Sizes, usePippenger: bool, m: nat, room: nat) {
    if usePippenger then sz.PippengerScratchSize(m, BucketWindow(m)) <= room else sz.StraussScratchSize(m) <= room
  }

  ghost predicate NeverFails(malloc: nat -> bool) {
    forall bytes :: malloc(bytes)
  }

  // The batches cover n points, and all but the last are full.
  ghost predicate Covers(n: nat, batches: nat, batchPoints: nat) {
    batchPoints > 0 && (batches - 1) * batchPoints < n <= batches * batchPoints
  }

  // Before batch i, `left` points remain.
  ghost predicate LeftBefore(n: nat, batches: nat, batchPoints: nat, i: nat, left: nat) {
    && left <= n
    && (i < batches ==> left == n - batchPoints * i && left > 0)
    && (i >= batches ==> left == 0)
  }

  // The function the front end chose.
  method RunBatch(ghost g: Group<CurvePoint>, ghost gen: CurvePoint, ge: Ge, preG: seq<Storage>, sz: Sizes, scratch: ScratchSpace,
                  malloc: nat -> bool, ng: Option<int>, cb: Callback, usePippenger: bool, n: nat, from: nat,
                  ghost frame: nat, ghost total: nat) returns (ok: bool, r: Gej)
    requires Setting(g, gen, ge, preG) && sz.Positive() && YieldsPoints(cb) && (ng.Some? ==> 0 <= ng.value < N)
    requires Idle(scratch, frame, total)
    requires BatchFits(sz, usePippenger, n, Room(scratch.maxSize, total, SCRATCH_OBJECTS))
    modifies scratch, scratch.offset, scratch.frameSize
    ensures Idle(scratch, frame, total)
    ensures ok ==> IsBatchSum(g, gen, ng, cb, from, n, r)
    ensures AllSucceed(cb, from, n) && NeverFails(malloc) ==> ok
  {
    if usePippenger {
      ok, r := PippengerBatch(g, gen, ge, preG, sz, scratch, malloc, ng, cb, n, from);
    } else {
      ok, r := StraussBatch(g, gen, ge, preG, sz, scratch, malloc, ng, cb, n, from);
    }
  }

  // Lines 1168-1177: one batch after the other; only the first gets the generator's scalar.
  method RunBatches(ghost g: Group<CurvePoint>, ghost gen: CurvePoint, ge: Ge, preG: seq<Storage>, sz: Sizes, scratch: ScratchSpace,
                    malloc: nat -> bool, ng: Option<int>, cb: Callback, n: nat, usePippenger: bool, batches: nat, batchPoints: nat,
                    ghost frame: nat, ghost total: nat)
    returns (ok: bool, r: Gej)
    requires Setting(g, gen, ge, preG) && sz.Positive() && YieldsPoints(cb) && (ng.Some? ==> 0 <= ng.value < N)
    requires Idle(scratch, frame, total)
    requires n > 0 && Covers(n, batches, batchPoints)
    requires forall m :: 1 <= m <= batchPoints ==> BatchFits(sz, usePippenger, m, Room(scratch.maxSize, total, SCRATCH_OBJECTS))
    modifies scratch, scratch.offset, scratch.frameSize
    ensures Idle(scratch, frame, total)
    ensures ok ==> Accumulated(g, gen, ng, cb, n, r)
    ensures AllSucceed(cb, 0, n) && NeverFails(malloc) ==> ok
  {
    r := Gej(0, 0, 0, true);
    var left: nat := n;
    FirstBatch(g, gen, ng, cb, n, batches, batchPoints, r);
    for i := 0 to batches
      invariant Idle(scratch, frame, total)
      invariant Between(g, gen, ng, cb, n, batches, batchPoints, i, left, r)
    {
      ok, r, left := RunNext(g, gen, ge, preG, sz, scratch, malloc, ng, cb, n, usePippenger, batches, batchPoints, frame, total, i, left, r);
      if !ok {
        return;
      }
    }
    ok := true;
  }

  // Lines 1169-1176
  method RunNext(ghost g: Group<CurvePoint>, ghost gen: CurvePoint, ge: Ge, preG: seq<Storage>, sz: Sizes, scratch: ScratchSpace,
                 malloc: nat -> bool, ng: Option<int>, cb: Callback, ghost n: nat, usePippenger: bool, ghost batches: nat,
                 batchPoints: nat, ghost frame: nat, ghost total: nat, i: nat, left0: nat, r0: Gej)
    returns (ok: bool, r: Gej, left: nat)
    requires Setting(g, gen, ge, preG) && sz.Positive() && YieldsPoints(cb) && (ng.Some? ==> 0 <= ng.value < N)
    requires Idle(scratch, frame, total) && Covers(n, batches, batchPoints) && i < batches
    requires forall m :: 1 <= m <= batchPoints ==> BatchFits(sz, usePippenger, m, Room(scratch.maxSize, total, SCRATCH_OBJECTS))
    requires Between(g, gen, ng, cb, n, batches, batchPoints, i, left0, r0)
    modifies scratch, scratch.offset, scratch.frameSize
    ensures Idle(scratch, frame, total)
    ensures ok ==> Between(g, gen, ng, cb, n, batches, batchPoints, i + 1, left, r)
    ensures AllSucceed(cb, 0, n) && NeverFails(malloc) ==> ok
  {
    var nbp := if left0 < batchPoints then left0 else batchPoints;
    NextBatch(g, gen, ng, cb, n, batches, batchPoints, i, left0, r0);
    ok, r := AddBatch(g, gen, ge, preG, sz, scratch, malloc, ng, cb, n, usePippenger, batches, batchPoints, frame, total,
                      i, left0, nbp, batchPoints * i, r0);
    left := left0 - nbp;
  }

  // Lines 1169-1175: one batch of m points from the index `from` on.
  method AddBatch(ghost g: Group<CurvePoint>, ghost gen: CurvePoint, ge: Ge, preG: seq<Storage>, sz: Sizes, scratch: ScratchSpace,
                  malloc: nat -> bool, ng: Option<int>, cb: Callback, ghost n: nat, usePippenger: bool, ghost batches: nat,
                  ghost batchPoints: nat, ghost frame: nat, ghost total: nat, i: nat, ghost left: nat, m: nat, from: nat, r0: Gej)
    returns (ok: bool, r: Gej)
    requires Setting(g, gen, ge, preG) && sz.Positive() && YieldsPoints(cb) && (ng.Some? ==> 0 <= ng.value < N)
    requires Idle(scratch, frame, total) && BatchFits(sz, usePippenger, m, Room(scratch.maxSize, total, SCRATCH_OBJECTS))
    requires left <= n && from == n - left && m <= left && (i == 0 ==> from == 0)
    requires LeftBefore(n, batches, batchPoints, i + 1, left - m)
    requires Accumulated(g, gen, if i == 0 then None else ng, cb, from, r0)
    modifies scratch, scratch.offset, scratch.frameSize
    ensures Idle(scratch, frame, total)
    ensures ok ==> Between(g, gen, ng, cb, n, batches, batchPoints, i + 1, left - m, r)
    ensures AllSucceed(cb, from, m) && NeverFails(malloc) ==> ok
  {
    r := r0;
    var tmp;
    ok, tmp := RunBatch(g, gen, ge, preG, sz, scratch, malloc, if i == 0 then ng else None, cb, usePippenger, m, from, frame, total);
    if ok {
      r := JoinBatch(g, gen, ng, cb, n, batches, batchPoints, i, left, from, m, r, tmp);
    }
  }

  // Between batches: the points before the remaining ones are accumulated, and
  // from the first batch on the generator's share is too.
  ghost predicate Between(g: Group<CurvePoint>, gen: CurvePoint, ng: Option<int>, cb: Callback, n: nat, batches: nat,
                          batchPoints: nat, i: nat, left: nat, r: Gej)
  {
    && LeftBefore(n, batches, batchPoints, i, left)
    && Accumulated(g, gen, if i == 0 then None else ng, cb, n - left, r)
  }

  lemma {:induction false} FirstBatch(g: Group<CurvePoint>, gen: CurvePoint, ng: Option<int>, cb: Callback, n: nat, batches: nat,
                                     batchPoints: nat, r: Gej)
    requires IsCurveGroup(g) && n > 0 && Covers(n, batches, batchPoints) && r.infinity
    ensures batches > 0 && Between(g, gen, ng, cb, n, batches, batchPoints, 0, n, r)
  {
    assert Range(g, cb, 0, 0) == g.zero;
  }

  // The size of the next batch, and that it stays among the n points.
  lemma {:induction false} NextBatch(g: Group<CurvePoint>, gen: CurvePoint, ng: Option<int>, cb: Callback, n: nat, batches: nat,
                                    batchPoints: nat, i: nat, left: nat, r: Gej)
    requires Covers(n, batches, batchPoints) && i < batches && Between(g, gen, ng, cb, n, batches, batchPoints, i, left, r)
    ensures batchPoints * i == n - left && left > 0
    ensures var nbp := if left < batchPoints then left else batchPoints;
      && 1 <= nbp <= batchPoints
      && LeftBefore(n, batches, batchPoints, i + 1, left - nbp)
      && (AllSucceed(cb, 0, n) ==> AllSucceed(cb, batchPoints * i, nbp))
  {
    assert (i + 1) * batchPoints == i * batchPoints + batchPoints;
    if i + 1 < batches {
      MulMonotone(i + 1, batches - 1, batchPoints);
    }
  }

  // Line 1175. `from` is the index of the batch's first point.
  method JoinBatch(ghost g: Group<CurvePoint>, ghost gen: CurvePoint, ghost ng: Option<int>, ghost cb: Callback, ghost n: nat,
                   ghost batches: nat, ghost batchPoints: nat, ghost i: nat, ghost left: nat, ghost from: nat, ghost m: nat,
                   r0: Gej, tmp: Gej) returns (r: Gej)
    requires Fermat() && IsCurveGroup(g) && left <= n && from == n - left && m <= left && (i == 0 ==> from == 0)
    requires LeftBefore(n, batches, batchPoints, i + 1, left - m)
    requires Accumulated(g, gen, if i == 0 then None else ng, cb, from, r0)
    requires IsBatchSum(g, gen, if i == 0 then ng else None, cb, from, m, tmp)
    ensures Between(g, gen, ng, cb, n, batches, batchPoints, i + 1, left - m, r)
  {
    r := JoinRange(g, gen, ng, cb, i == 0, from, m, r0, tmp);
    assert n - (left - m) == from + m;
  }

  method JoinRange(ghost g: Group<CurvePoint>, ghost gen: CurvePoint, ghost ng: Option<int>, ghost cb: Callback, ghost first: bool,
                   ghost done: nat, ghost m: nat, r0: Gej, tmp: Gej) returns (r: Gej)
    requires Fermat() && IsCurveGroup(g) && (first ==> done == 0)
    requires Accumulated(g, gen, if first then None else ng, cb, done, r0)
    requires IsBatchSum(g, gen, if first then ng else None, cb, done, m, tmp)
    ensures Accumulated(g, gen, ng, cb, done + m, r)
  {
    ghost var p := Total(g, gen, if first then None else ng, cb, done);
    ghost var q := g.add(Range(g, cb, done, m), MaybeTimes(g, if first then ng else None, gen));
    var rzr;
    r, rzr := GejAddVar(g, r0, tmp, p, q);
    JoinTotals(g, gen, ng, cb, first, done, m);
  }

  lemma {:induction false} JoinTotals(g: Group<CurvePoint>, gen: CurvePoint, ng: Option<int>, cb: Callback, first: bool, done: nat, m: nat)
    requires g.IsAbelian() && (first ==> done == 0)
    ensures Total(g, gen, ng, cb, done + m)
         == g.add(Total(g, gen, if first then None else ng, cb, done),
                  g.add(Range(g, cb, done, m), MaybeTimes(g, if first then ng else None, gen)))
  {
    var x, a, b := MaybeTimes(g, ng, gen), Range(g, cb, 0, done), Range(g, cb, done, m);
    RangeConcat(g, cb, 0, done, m);
    if first {
      assert a == g.zero;
      Comm(g, g.zero, g.add(b, x));
      Comm(g, b, x);
      Comm(g, g.zero, b);
    } else {
      Assoc(g, x, a, b);
    }
  }

  // secp256k1_ecmult_multi_var: whenever it reports success the result is ng
  // times the generator plus the sum over all n points.
  method EcmultMulti(ghost g: Group<CurvePoint>, ghost gen: CurvePoint, ge: Ge, preG: seq<Storage>, sz: Sizes, scratch: ScratchSpace?,
                     malloc: nat -> bool, ng: Option<int>, cb: Callback, n: nat) returns (ok: bool, r: Gej)
    requires Setting(g, gen, ge, preG) && sz.Positive() && YieldsPoints(cb) && (ng.Some? ==> 0 <= ng.value < N)
    requires scratch != null ==> Ready(scratch)
    modifies scratch, if scratch == null then {} else {scratch.offset, scratch.frameSize}
    ensures scratch != null ==> Ready(scratch) && scratch.frame == old(scratch.frame) && scratch.Total() == old(scratch.Total())
    ensures ok ==> AllSucceed(cb, 0, n) && Represents(r, 1, g.add(MaybeTimes(g, ng, gen), Range(g, cb, 0, n)))
    // It fails only for want of memory or because the callback did.
    ensures AllSucceed(cb, 0, n) && NeverFails(malloc) && (scratch != null ==> HasRoom(scratch, sz)) ==> ok
    ensures ok && n > 0 && scratch != null ==> PippengerHasRoom(scratch, sz)
    // Where there are too few points for Pippenger's algorithm, room is needed for both.
    ensures ok && 0 < n < ECMULT_PIPPENGER_THRESHOLD && scratch != null ==> HasRoom(scratch, sz)
  {
    r := Gej(0, 0, 0, true);
    if n == 0 {
      if ng == None {
        assert Range(g, cb, 0, 0) == g.zero;
        return true, r;
      }
      r := OnlyGenerator(g, gen, ge, preG, ng, cb);
      return true, r;
    }
    if scratch == null {
      ok, r := MultiSimple(g, gen, ge, preG, ng, cb, n);
      return;
    }
    RoomForOne(scratch, sz);
    var maxPoints := PippengerMaxPoints(scratch, sz);
    var batches, batchPoints;
    ok, batches, batchPoints := BatchSizeHelper(maxPoints, n);
    if !ok {
      return false, r;
    }
    var usePippenger := batchPoints >= ECMULT_PIPPENGER_THRESHOLD;
    if !usePippenger {
      maxPoints := StraussMaxPoints(scratch, sz);
      ok, batches, batchPoints := BatchSizeHelper(maxPoints, n);
      if !ok {
        return false, r;
      }
    }
    ok, r := RunBatches(g, gen, ge, preG, sz, scratch, malloc, ng, cb, n, usePippenger, batches, batchPoints,
                        scratch.frame, scratch.Total());
  }
}
