// Strauss interleaving as it is carried out on coordinates: the tables of all
// points share one denominator, the accumulator lives on the copy of the curve
// scaled by it, and one multiplication at the end brings the sum back.
module StraussJacobian {
  import opened Arith
  import opened Groups
  import opened Wrappers
  import opened Recoding
  import opened Curve
  import opened Jacobian
  import opened OddTables
  import Strauss

  type PointState = Strauss.PointState

  // secp256k1_strauss_state: the arrays a multiplication works in.
  datatype State = State(prej: array<Gej>, zr: array<int>, preA: array<Ge>, ps: array<PointState>)
  {
    // Room for the tables of n points, of eight entries each.
    predicate HoldsTables(n: nat) { 8 * n <= prej.Length && 8 * n <= zr.Length && 8 * n <= preA.Length }

    predicate Holds(n: nat) { HoldsTables(n) && n <= ps.Length }
  }

  // ---- the tables of all points over one denominator ----

  // secp256k1_gej_rescale
  function Rescaled(a: Gej, s: int): Gej {
    var zz := Mul(s, s);
    Gej(Mul(a.x, zz), Mul(Mul(a.y, zz), s), Mul(a.z, s), a.infinity)
  }

  lemma {:induction false} RescaledIsSame(a: Gej, s: int, p: CurvePoint)
    requires Fermat() && Represents(a, 1, p) && !a.infinity && !Eq(s, 0)
    ensures Represents(Rescaled(a, s), 1, p) && Eq(Rescaled(a, s).z, a.z * s)
  {
    var zz, w := Mul(s, s), a.z * 1;
    EqMul(a.z, a.z, s, s);
    NonzeroProduct(w, s);
    EqMul(s, s, s, s);
    EqMul(a.x, p.x * (w * w), zz, s * s);
    EqMul(a.y, p.y * (w * (w * w)), zz, s * s);
    EqMul(Mul(a.y, zz), p.y * (w * (w * w)) * (s * s), s, s);
    ScaledTerms(p.x, p.y, s, w);
    assert s * w == a.z * s;
    Rescale(Mul(a.x, zz), Mul(Mul(a.y, zz), s), a.z * s, Mul(a.z, s) * 1, p);
  }

  // Finite points over scales that follow one another by the recorded ratios,
  // the last of which is at hand.
  ghost predicate Chained(prej: seq<Gej>, zr: seq<int>, ws: seq<int>, qs: seq<CurvePoint>) {
    && |prej| == |zr| == |ws| == |qs| > 0
    && AreScaled(prej, ws, qs, |prej|)
    && HasRatios(ws, zr, |prej|)
    && Eq(prej[|prej| - 1].z, ws[|prej| - 1])
    && forall i :: 0 <= i < |prej| ==> !prej[i].infinity
  }

  lemma {:induction false} JoinChains(prej: seq<Gej>, zr: seq<int>, ws: seq<int>, qs: seq<CurvePoint>,
                                     prej': seq<Gej>, zr': seq<int>, ws': seq<int>, qs': seq<CurvePoint>)
    requires Chained(prej, zr, ws, qs) && Chained(prej', zr', ws', qs')
    requires Eq(ws'[0], ws[|ws| - 1] * zr'[0])
    ensures Chained(prej + prej', zr + zr', ws + ws', qs + qs')
  {
    var n, m := |ws|, |ws'|;
    forall i | 0 < i < n + m
      ensures Eq((ws + ws')[i], (ws + ws')[i - 1] * (zr + zr')[i])
    {
      if i > n {
        assert Eq(ws'[i - n], ws'[i - n - 1] * zr'[i - n]);
      }
    }
  }

  // A finite point of full order in Jacobian coordinates.
  ghost predicate IsStart(g: Group<CurvePoint>, a: Gej, p: CurvePoint) {
    !a.infinity && Represents(a, 1, p) && HasOrderN(g, p)
  }

  // The eight odd multiples of one point, from position `at` on.
  method OneTable(ghost g: Group<CurvePoint>, prej: array<Gej>, zr: array<int>, at: nat, a: Gej, ghost p: CurvePoint)
    returns (ghost ws: seq<int>)
    requires Fermat() && IsCurveGroup(g) && IsStart(g, a, p) && at + 8 <= prej.Length && at + 8 <= zr.Length
    modifies prej, zr
    ensures prej[..at] == old(prej[..at]) && zr[..at] == old(zr[..at])
    ensures Chained(prej[at..at + 8], zr[at..at + 8], ws, OddMultiples(g, p, 8)) && Eq(ws[0], a.z * zr[at])
  {
    ws := OddMultiplesTable(g, 8, prej, zr, at, a, p);
    TableIsChain(g, prej[at..at + 8], zr[at..at + 8], ws, p);
  }

  lemma {:induction false} TableIsChain(g: Group<CurvePoint>, table: seq<Gej>, ratios: seq<int>, ws: seq<int>, p: CurvePoint)
    requires |table| == 8 && AreOddMultiples(g, table, ratios, ws, p)
    ensures Chained(table, ratios, ws, OddMultiples(g, p, 8))
  {
    forall i | 0 <= i < 8
      ensures Scaled(table[i].x, table[i].y, ws[i], OddMultiples(g, p, 8)[i])
    {
      assert OddMultiples(g, p, 8)[i] == Odd(g, p, i);
    }
  }

  // Lines 512-519: the next point is rescaled by the last denominator, so that
  // its table continues the chain.
  method ExtendChain(ghost g: Group<CurvePoint>, prej: array<Gej>, zr: array<int>, at: nat, ghost ws0: seq<int>,
                     ghost qs: seq<CurvePoint>, a: Gej, ghost p: CurvePoint) returns (ghost ws: seq<int>)
    requires Fermat() && IsCurveGroup(g) && IsStart(g, a, p) && 0 < at && at + 8 <= prej.Length && at + 8 <= zr.Length
    requires Chained(prej[..at], zr[..at], ws0, qs)
    modifies prej, zr
    ensures Chained(prej[..at + 8], zr[..at + 8], ws, qs + OddMultiples(g, p, 8))
  {
    var last := prej[at - 1];
    ghost var before, ratios, w := prej[..at], zr[..at], ws0[|ws0| - 1];
    assert before[at - 1] == last;
    var tmp := Rescaled(a, last.z);
    RescaledIsSame(a, last.z, p);
    ws := OneTable(g, prej, zr, at, tmp, p);
    ghost var table, ratio := prej[at..at + 8], zr[at];
    ghost var old_ratios := zr[at..at + 8];
    zr[at] := Mul(zr[at], a.z);
    assert zr[at..at + 8] == old_ratios[0 := zr[at]];
    ChainRatio(ws[0], tmp.z, a.z, last.z, ratio, w);
    JoinChains(before, ratios, ws0, qs, table, zr[at..at + 8], ws, OddMultiples(g, p, 8));
    assert prej[..at + 8] == before + table && zr[..at + 8] == ratios + zr[at..at + 8];
    ws := ws0 + ws;
  }

  lemma {:induction false} ChainRatio(start: int, tz: int, az: int, s: int, ratio: int, w: int)
    requires Eq(start, tz * ratio) && Eq(tz, az * s) && Eq(s, w)
    ensures Eq(start, w * Mul(ratio, az))
  {
    EqMul(az, az, s, w);
    EqMul(tz, az * w, ratio, ratio);
    EqMul(ratio, ratio, az, az);
    EqMul(w, w, Mul(ratio, az), ratio * az);
    MulAssoc(w, ratio, az);
    MulSwap(w, ratio, az);
  }

  // The affine points behind the tables, eight for every point kept.
  ghost function TablePoints(g: Group<CurvePoint>, b: seq<CurvePoint>): (t: seq<CurvePoint>)
    ensures |t| == 8 * |b|
  {
    if b == [] then [] else TablePoints(g, b[..|b| - 1]) + OddMultiples(g, b[|b| - 1], 8)
  }

  lemma {:induction false} TablesAreOdd(g: Group<CurvePoint>, b: seq<CurvePoint>, k: nat)
    requires k < |b|
    ensures Strauss.IsOddTable(g, Strauss.Slice(TablePoints(g, b), k), b[k])
  {
    var n := |b| - 1;
    SliceOfSum(TablePoints(g, b[..n]), OddMultiples(g, b[n], 8), n, k);
    if k < n {
      TablesAreOdd(g, b[..n], k);
    }
  }

  lemma {:induction false} SliceOfSum(t: seq<CurvePoint>, u: seq<CurvePoint>, n: nat, k: nat)
    requires |t| == 8 * n && |u| == 8 && k <= n
    ensures Strauss.Slice(t + u, k) == if k < n then Strauss.Slice(t, k) else u
  {
  }

  // Every entry is its point over the denominator z.
  ghost predicate AreOver(pre: seq<Ge>, z: int, t: seq<CurvePoint>) {
    |pre| == |t| && forall i :: 0 <= i < |pre| ==> RepresentsAffine(pre[i], z, t[i])
  }

  lemma {:induction false} TablePointsNext(g: Group<CurvePoint>, b: seq<CurvePoint>, k: nat)
    requires k < |b|
    ensures TablePoints(g, b[..k + 1]) == TablePoints(g, b[..k]) + OddMultiples(g, b[k], 8)
    ensures TablePoints(g, b[..0]) == []
  {
    assert b[..k + 1][..k] == b[..k];
  }

  ghost predicate AreStarts(g: Group<CurvePoint>, ps: seq<PointState>, a: seq<Gej>, b: seq<CurvePoint>) {
    |b| == |ps| && forall k :: 0 <= k < |ps| ==> ps[k].inputPos < |a| && IsStart(g, a[ps[k].inputPos], b[k])
  }

  // The tables of the first np points.
  ghost predicate ChainedTables(g: Group<CurvePoint>, prej: seq<Gej>, zr: seq<int>, ws: seq<int>, b: seq<CurvePoint>, np: nat) {
    np <= |b| && |prej| == 8 * np && Chained(prej, zr, ws, TablePoints(g, b[..np]))
  }

  // Line 511
  method FirstTable(ghost g: Group<CurvePoint>, ps: seq<PointState>, a: seq<Gej>, ghost b: seq<CurvePoint>, state: State)
    returns (ghost ws: seq<int>)
    requires Fermat() && IsCurveGroup(g) && AreStarts(g, ps, a, b) && |ps| > 0 && state.HoldsTables(|ps|)
    modifies state.prej, state.zr
    ensures ChainedTables(g, state.prej[..8], state.zr[..8], ws, b, 1)
  {
    assert IsStart(g, a[ps[0].inputPos], b[0]);
    ws := OneTable(g, state.prej, state.zr, 0, a[ps[0].inputPos], b[0]);
    TablePointsNext(g, b, 0);
    assert [] + OddMultiples(g, b[0], 8) == OddMultiples(g, b[0], 8);
    assert state.prej[0..8] == state.prej[..8] && state.zr[0..8] == state.zr[..8];
  }

  // Lines 513-519: the table of the next point.
  method NextTable(ghost g: Group<CurvePoint>, ps: seq<PointState>, a: seq<Gej>, ghost b: seq<CurvePoint>, state: State, np: nat,
                   ghost ws0: seq<int>) returns (ghost ws: seq<int>)
    requires Fermat() && IsCurveGroup(g) && AreStarts(g, ps, a, b) && 0 < np < |ps| && state.HoldsTables(|ps|)
    requires ChainedTables(g, state.prej[..8 * np], state.zr[..8 * np], ws0, b, np)
    modifies state.prej, state.zr
    ensures ChainedTables(g, state.prej[..8 * np + 8], state.zr[..8 * np + 8], ws, b, np + 1)
  {
    assert IsStart(g, a[ps[np].inputPos], b[np]);
    ws := ExtendChain(g, state.prej, state.zr, 8 * np, ws0, TablePoints(g, b[..np]), a[ps[np].inputPos], b[np]);
    TablePointsNext(g, b, np);
  }

  // Lines 510-520: one table after the other.
  method ChainTables(ghost g: Group<CurvePoint>, ps: seq<PointState>, a: seq<Gej>, ghost b: seq<CurvePoint>, state: State)
    returns (ghost ws: seq<int>)
    requires Fermat() && IsCurveGroup(g) && |b| == |ps| > 0 && AreStarts(g, ps, a, b) && state.HoldsTables(|ps|)
    modifies state.prej, state.zr
    ensures Chained(state.prej[..8 * |ps|], state.zr[..8 * |ps|], ws, TablePoints(g, b))
  {
    ws := FirstTable(g, ps, a, b, state);
    for np := 1 to |ps|
      invariant ChainedTables(g, state.prej[..8 * np], state.zr[..8 * np], ws, b, np)
    {
      ws := NextTable(g, ps, a, b, state, np, ws);
    }
    assert b[..|ps|] == b;
  }

  // Lines 509-525: all tables over the denominator z.
  method ScaledTables(ghost g: Group<CurvePoint>, ps: seq<PointState>, a: seq<Gej>, ghost b: seq<CurvePoint>, state: State)
    returns (z: int)
    requires Fermat() && IsCurveGroup(g) && AreStarts(g, ps, a, b) && state.HoldsTables(|ps|)
    modifies state.prej, state.zr, state.preA
    ensures !Eq(z, 0) && AreOver(state.preA[..8 * |ps|], z, TablePoints(g, b))
  {
    if |ps| == 0 {
      return 1;
    }
    var n := 8 * |ps|;
    ghost var ws := ChainTables(g, ps, a, b, state);
    z := GlobalzSetTable(state.preA, state.prej[..n], state.zr[..n], ws, TablePoints(g, b));
    assert RepresentsAffine(state.preA[..n][0], z, TablePoints(g, b)[0]);
  }

  // ---- table lookups ----

  // secp256k1_fe_negate on the ordinate
  function Mirrored(a: Ge): Ge { a.(y := Neg(a.y)) }

  lemma {:induction false} MirroredIsNeg(g: Group<CurvePoint>, a: Ge, z: int, p: CurvePoint)
    requires IsCurveGroup(g) && RepresentsAffine(a, z, p)
    ensures RepresentsAffine(Mirrored(a), z, g.neg(p))
  {
    if a.infinity {
      NegZero(g);
    } else {
      NegIsMirror(g, p);
      MirroredOrdinate(a.y, p.y, z * (z * z));
    }
  }

  lemma {:induction false} MirroredOrdinate(y: int, py: int, k: int)
    requires Eq(y, py * k)
    ensures Eq(Neg(y), (P - py) * k)
  {
    EqNeg(y, py * k);
    assert (P - py) * k == P * k - py * k;
    CongIntro(-(py * k), (P - py) * k, -k, P);
    EqIsCong(-(py * k), (P - py) * k);
  }

  // secp256k1_gej_neg
  function GejNeg(a: Gej): Gej { a.(y := Neg(a.y)) }

  lemma {:induction false} GejNegIsNeg(g: Group<CurvePoint>, a: Gej, u: int, p: CurvePoint)
    requires IsCurveGroup(g) && Represents(a, u, p)
    ensures Represents(GejNeg(a), u, g.neg(p))
  {
    if a.infinity {
      NegZero(g);
    } else {
      NegIsMirror(g, p);
      MirroredOrdinate(a.y, p.y, a.z * u * (a.z * u * (a.z * u)));
    }
  }

  // ECMULT_TABLE_GET_GE
  function TableGetGe(pre: seq<Ge>, n: int): Ge
    requires n % 2 == 1 && -2 * |pre| < n < 2 * |pre|
  {
    if n > 0 then pre[(n - 1) / 2] else Mirrored(pre[(-n - 1) / 2])
  }

  lemma {:induction false} TableGetGeIsMultiple(g: Group<CurvePoint>, pre: seq<Ge>, z: int, t: seq<CurvePoint>, p: CurvePoint, n: int)
    requires IsCurveGroup(g) && AreOver(pre, z, t) && Strauss.IsOddTable(g, t, p)
    requires n % 2 == 1 && -2 * |pre| < n < 2 * |pre|
    ensures RepresentsAffine(TableGetGe(pre, n), z, g.Times(n, p))
  {
    Strauss.TableGetIsMultiple(g, t, p, n);
    if n < 0 {
      MirroredIsNeg(g, pre[(-n - 1) / 2], z, t[(-n - 1) / 2]);
    }
  }

  // secp256k1_ge_from_storage
  function FromStorage(s: Storage): Ge { Ge(s.x, s.y, false) }

  // secp256k1_ge_to_storage
  function ToStorage(a: Ge): Storage { Storage(Reduce(a.x), Reduce(a.y)) }

  lemma {:induction false} ThroughStorage(a: Ge, p: CurvePoint)
    requires RepresentsAffine(a, 1, p) && !a.infinity
    ensures RepresentsAffine(FromStorage(ToStorage(a)), 1, p)
  {
    EqReduce(a.x);
    EqReduce(a.y);
  }

  // ECMULT_TABLE_GET_GE_STORAGE
  function TableGetStorage(pre: seq<Storage>, n: int): Ge
    requires n % 2 == 1 && -2 * |pre| < n < 2 * |pre|
  {
    if n > 0 then FromStorage(pre[(n - 1) / 2]) else Mirrored(FromStorage(pre[(-n - 1) / 2]))
  }

  // The stored table of the generator.
  ghost predicate IsStoredTable(g: Group<CurvePoint>, pre: seq<Storage>, gen: CurvePoint) {
    forall i :: 0 <= i < |pre| ==> IsFinal(g, pre[i], gen, i)
  }

  lemma {:induction false} StoredEntry(g: Group<CurvePoint>, pre: seq<Storage>, gen: CurvePoint, i: nat)
    requires IsStoredTable(g, pre, gen) && i < |pre|
    ensures RepresentsAffine(FromStorage(pre[i]), 1, Odd(g, gen, i))
  {
    assert IsFinal(g, pre[i], gen, i);
    EqIsCong(1, 0);
  }

  lemma {:induction false} MirroredEntry(g: Group<CurvePoint>, pre: seq<Storage>, gen: CurvePoint, i: nat)
    requires IsCurveGroup(g) && IsStoredTable(g, pre, gen) && i < |pre|
    ensures RepresentsAffine(Mirrored(FromStorage(pre[i])), 1, g.Times(-(2 * i + 1), gen))
  {
    StoredEntry(g, pre, gen, i);
    MirroredIsNeg(g, FromStorage(pre[i]), 1, Odd(g, gen, i));
    TimesNeg(g, 2 * i + 1, gen);
  }

  lemma {:induction false} TableGetStorageIsMultiple(g: Group<CurvePoint>, pre: seq<Storage>, gen: CurvePoint, n: int)
    requires IsCurveGroup(g) && IsStoredTable(g, pre, gen)
    requires n % 2 == 1 && -2 * |pre| < n < 2 * |pre|
    ensures RepresentsAffine(TableGetStorage(pre, n), 1, g.Times(n, gen))
  {
    if n > 0 {
      var i := (n - 1) / 2;
      assert n == 2 * i + 1;
      StoredEntry(g, pre, gen, i);
    } else {
      var i := (-n - 1) / 2;
      assert n == -(2 * i + 1);
      MirroredEntry(g, pre, gen, i);
    }
  }

  // ---- the shared doublings ----

  // Lines 582-587: the digits at position i of all points.
  method AddPointDigits(ghost g: Group<CurvePoint>, ps: seq<PointState>, preA: seq<Ge>, ghost z: int, ghost t: seq<CurvePoint>,
                        ghost bits: nat, i: nat, r0: Gej, ghost terms: seq<seq<int>>, ghost b: seq<CurvePoint>) returns (r: Gej)
    requires Fermat() && IsCurveGroup(g) && !Eq(z, 0) && i < bits <= 256
    requires |terms| == |b| == |ps| + 1 && |preA| == 8 * |ps| && AreOver(preA, z, t)
    requires forall k :: 0 <= k < |terms| ==> i < |terms[k]|
    requires forall k :: 0 <= k < |ps| ==> terms[k] == ps[k].wnafNa
    requires forall k :: 0 <= k < |ps| ==> Strauss.IsOddTable(g, Strauss.Slice(t, k), b[k])
    requires forall k :: 0 <= k < |ps| ==> Strauss.IsDigitString(ps[k].wnafNa, ps[k].bitsNa, bits, Strauss.WINDOW_A)
    requires Represents(r0, z, g.Lin(Strauss.Mixed(terms, i, 0), b))
    ensures Represents(r, z, g.Lin(Strauss.Mixed(terms, i, |ps|), b))
  {
    r := r0;
    for np := 0 to |ps|
      invariant Represents(r, z, g.Lin(Strauss.Mixed(terms, i, np), b))
    {
      ghost var sum := g.Lin(Strauss.Mixed(terms, i, np), b);
      var n := ps[np].wnafNa[i];
      Strauss.AddDigit(g, terms, b, i, np, sum);
      if i < ps[np].bitsNa && n != 0 {
        Strauss.DigitInTable(ps[np].wnafNa, ps[np].bitsNa, bits, Strauss.WINDOW_A, i);
        SliceIsOver(preA, z, t, np);
        TableGetGeIsMultiple(g, Strauss.Slice(preA, np), z, Strauss.Slice(t, np), b[np], n);
        var rzr;
        r, rzr := GejAddGeVar(g, r, TableGetGe(Strauss.Slice(preA, np), n), z, sum, g.Times(n, b[np]));
      }
    }
  }

  lemma {:induction false} SliceIsOver(pre: seq<Ge>, z: int, t: seq<CurvePoint>, k: nat)
    requires AreOver(pre, z, t) && k * 8 + 8 <= |pre|
    ensures AreOver(Strauss.Slice(pre, k), z, Strauss.Slice(t, k))
  {
  }

  // Lines 588-591: the generator's digit, its table being affine on the curve itself.
  method AddGeneratorDigit(ghost g: Group<CurvePoint>, r0: Gej, z: int, wnafNg: seq<int>, bitsNg: nat, preG: seq<Storage>,
                           i: nat, ghost gen: CurvePoint, ghost sum: CurvePoint) returns (r: Gej)
    requires Fermat() && IsCurveGroup(g) && !Eq(z, 0) && i < 256
    requires |preG| == Strauss.TableSize(Strauss.WINDOW_G) && IsStoredTable(g, preG, gen)
    requires Strauss.IsDigitString(wnafNg, bitsNg, 256, Strauss.WINDOW_G)
    requires Represents(r0, z, sum)
    ensures Represents(r, z, if wnafNg[i] == 0 then sum else g.add(sum, g.Times(wnafNg[i], gen)))
  {
    r := r0;
    var n := wnafNg[i];
    if i < bitsNg && n != 0 {
      Strauss.DigitInTable(wnafNg, bitsNg, 256, Strauss.WINDOW_G, i);
      TableGetStorageIsMultiple(g, preG, gen, n);
      r := GejAddZinvVar(g, r, TableGetStorage(preG, n), z, sum, g.Times(n, gen));
    }
  }

  // What the main loop works with: the recoded scalars, the tables of their
  // points over the denominator z, and the generator's table.
  ghost predicate Prepared(g: Group<CurvePoint>, ps: seq<PointState>, preA: seq<Ge>, z: int, t: seq<CurvePoint>, wnafNg: seq<int>,
                           bitsNg: nat, preG: seq<Storage>, bits: nat, b: seq<CurvePoint>)
  {
    && !Eq(z, 0) && |b| == |ps| + 1 && |preA| == 8 * |ps| && AreOver(preA, z, t)
    && |preG| == Strauss.TableSize(Strauss.WINDOW_G) && IsStoredTable(g, preG, b[|ps|])
    && bits <= 256 && bitsNg <= bits && |wnafNg| == 256
    && (forall k :: 0 <= k < |ps| ==> Strauss.IsOddTable(g, Strauss.Slice(t, k), b[k]))
    && (forall k :: 0 <= k < |ps| ==> Strauss.IsDigitString(ps[k].wnafNa, ps[k].bitsNa, bits, Strauss.WINDOW_A))
    && Strauss.IsDigitString(wnafNg, bitsNg, bits, Strauss.WINDOW_G)
  }

  // Lines 561-592: one bit, for all points and the generator.
  method AddBit(ghost g: Group<CurvePoint>, ps: seq<PointState>, preA: seq<Ge>, z: int, ghost t: seq<CurvePoint>, wnafNg: seq<int>,
                bitsNg: nat, preG: seq<Storage>, ghost bits: nat, i: nat, r0: Gej, ghost terms: seq<seq<int>>,
                ghost b: seq<CurvePoint>) returns (r: Gej)
    requires Fermat() && IsCurveGroup(g) && Prepared(g, ps, preA, z, t, wnafNg, bitsNg, preG, bits, b) && i < bits
    requires terms == Strauss.DigitsOf(ps) + [wnafNg]
    requires Represents(r0, z, g.Lin(Tails(terms, i + 1, 1), b))
    ensures Represents(r, z, g.Lin(Tails(terms, i, 1), b))
  {
    ghost var sum := g.Lin(Tails(terms, i + 1, 1), b);
    Strauss.DoubleAll(g, terms, b, i, sum);
    var rzr;
    r, rzr := GejDouble(g, r0, z, sum);
    r := AddPointDigits(g, ps, preA, z, t, bits, i, r, terms, b);
    sum := g.Lin(Strauss.Mixed(terms, i, |ps|), b);
    Strauss.AddDigit(g, terms, b, i, |ps|, sum);
    r := AddGeneratorDigit(g, r, z, wnafNg, bitsNg, preG, i, b[|ps|], sum);
    Strauss.MixedDone(terms, i);
  }

  // Lines 557-593: the accumulator stands for the sum over the denominator z.
  method Interleave(ghost g: Group<CurvePoint>, ps: seq<PointState>, preA: seq<Ge>, z: int, ghost t: seq<CurvePoint>,
                    wnafNg: seq<int>, bitsNg: nat, preG: seq<Storage>, bits: nat, ghost b: seq<CurvePoint>) returns (r: Gej)
    requires Fermat() && IsCurveGroup(g) && Prepared(g, ps, preA, z, t, wnafNg, bitsNg, preG, bits, b)
    ensures Represents(r, z, g.Lin(Tails(Strauss.DigitsOf(ps) + [wnafNg], 0, 1), b))
  {
    ghost var terms := Strauss.DigitsOf(ps) + [wnafNg];
    r := Gej(0, 0, 0, true);
    var i := bits;
    TailsStart(g, terms, b, bits, 1);
    while i > 0
      invariant 0 <= i <= bits
      invariant Represents(r, z, g.Lin(Tails(terms, i, 1), b))
    {
      i := i - 1;
      r := AddBit(g, ps, preA, z, t, wnafNg, bitsNg, preG, bits, i, r, terms, b);
    }
  }

  // secp256k1_ecmult_strauss_wnaf on coordinates: the sum of na[i]*a[i], plus ng
  // times the generator if given, on the curve itself.
  method StraussWnaf(ghost g: Group<CurvePoint>, ghost gen: CurvePoint, preG: seq<Storage>, state: State, na: seq<int>, a: seq<Gej>,
                     ng: Option<int>, ghost pts: seq<CurvePoint>) returns (r: Gej)
    requires Fermat() && FermatN() && IsCurveGroup(g)
    requires |preG| == Strauss.TableSize(Strauss.WINDOW_G) && IsStoredTable(g, preG, gen)
    requires |na| == |a| == |pts| && Strauss.AreScalars(na) && (ng.Some? ==> 0 <= ng.value < N)
    requires forall k :: 0 <= k < |a| ==> Represents(a[k], 1, pts[k])
    requires state.Holds(|na|)
    modifies state.prej, state.zr, state.preA, state.ps
    ensures Represents(r, 1, g.add(g.Lin(na, pts), Strauss.MaybeTimes(g, ng, gen)))
  {
    var no, bits, z := PrepareTables(g, state, na, a, pts);
    var ps := state.ps[..no];
    ghost var b := Strauss.PointsOf(ps, pts);
    var wnafNg, bitsNg := Strauss.RecodeGenerator(ng);
    if bitsNg > bits {
      bits := bitsNg;
    }
    AllTablesAreOdd(g, b, gen);
    r := Interleave(g, ps, state.preA[..8 * no], z, TablePoints(g, b), wnafNg, bitsNg, preG, bits, b + [gen]);
    Strauss.GeneratorTerm(g, ps, na, pts, wnafNg, ng, gen);
    r := Unscale(r, z, g.add(g.Lin(na, pts), Strauss.MaybeTimes(g, ng, gen)));
  }

  // Lines 469-527: the digits of the points that matter, and their tables.
  method PrepareTables(ghost g: Group<CurvePoint>, state: State, na: seq<int>, a: seq<Gej>, ghost pts: seq<CurvePoint>)
    returns (no: nat, bits: nat, z: int)
    requires Fermat() && FermatN() && IsCurveGroup(g)
    requires |na| == |a| == |pts| && Strauss.AreScalars(na) && forall k :: 0 <= k < |a| ==> Represents(a[k], 1, pts[k])
    requires state.Holds(|na|)
    modifies state.prej, state.zr, state.preA, state.ps
    ensures no <= |na| && bits <= 256 && !Eq(z, 0)
    ensures Strauss.ArePointStates(state.ps[..no], na, pts) && forall k :: 0 <= k < no ==> state.ps[..no][k].bitsNa <= bits
    ensures AreOver(state.preA[..8 * no], z, TablePoints(g, Strauss.PointsOf(state.ps[..no], pts)))
    ensures g.Lin(Tails(Strauss.DigitsOf(state.ps[..no]), 0, 1), Strauss.PointsOf(state.ps[..no], pts)) == g.Lin(na, pts)
  {
    no, bits := Strauss.RecodePoints(g, na, seq(|a|, k requires 0 <= k < |a| => a[k].infinity), pts, state.ps);
    var ps := state.ps[..no];
    ghost var b := Strauss.PointsOf(ps, pts);
    PointsStart(g, ps, a, pts, b);
    z := ScaledTables(g, ps, a, b, state);
  }

  lemma {:induction false} AllTablesAreOdd(g: Group<CurvePoint>, b: seq<CurvePoint>, gen: CurvePoint)
    ensures forall k :: 0 <= k < |b| ==> Strauss.IsOddTable(g, Strauss.Slice(TablePoints(g, b), k), (b + [gen])[k])
  {
    forall k | 0 <= k < |b|
      ensures Strauss.IsOddTable(g, Strauss.Slice(TablePoints(g, b), k), (b + [gen])[k])
    {
      TablesAreOdd(g, b, k);
    }
  }

  // Lines 595-597: back from the scaled copy of the curve.
  method Unscale(r0: Gej, z: int, ghost p: CurvePoint) returns (r: Gej)
    requires Represents(r0, z, p)
    ensures Represents(r, 1, p)
  {
    r := r0;
    Unscaled(r, z, p);
    if !r.infinity {
      r := r.(z := Mul(r.z, z));
    }
  }

  lemma {:induction false} PointsStart(g: Group<CurvePoint>, ps: seq<PointState>, a: seq<Gej>, pts: seq<CurvePoint>, b: seq<CurvePoint>)
    requires IsCurveGroup(g) && FermatN() && |a| == |pts|
    requires forall k :: 0 <= k < |a| ==> Represents(a[k], 1, pts[k])
    requires forall k :: 0 <= k < |ps| ==> ps[k].inputPos < |a| && !a[ps[k].inputPos].infinity
    requires b == Strauss.PointsOf(ps, pts)
    ensures AreStarts(g, ps, a, b)
  {
    forall k | 0 <= k < |ps|
      ensures IsStart(g, a[ps[k].inputPos], b[k])
    {
      FinitePointsHaveOrderN(g, b[k]);
    }
  }

  // Multiplying z by the denominator leads back to the curve itself.
  lemma {:induction false} Unscaled(r: Gej, z: int, p: CurvePoint)
    requires Represents(r, z, p)
    ensures Represents(r.(z := Mul(r.z, z)), 1, p)
  {
    if !r.infinity {
      EqReduce(r.z * z);
      Rescale(r.x, r.y, r.z * z, Mul(r.z, z) * 1, p);
    }
  }

  // secp256k1_ecmult_context: the generator's table, once it is built.
  class EcmultContext {
    ghost const g: Group<CurvePoint>
    ghost const gen: CurvePoint
    const ge: Ge
    var preG: array?<Storage>

    ghost predicate Valid()
      reads this, preG
    {
      && Fermat() && FermatN() && IsCurveGroup(g) && RepresentsAffine(ge, 1, gen) && !ge.infinity
      && (preG != null ==> preG.Length == Strauss.TableSize(Strauss.WINDOW_G) && IsStoredTable(g, preG[..], gen))
    }

    // secp256k1_ecmult_context_init
    constructor (ghost g: Group<CurvePoint>, ghost gen: CurvePoint, ge: Ge)
      requires Fermat() && FermatN() && IsCurveGroup(g) && RepresentsAffine(ge, 1, gen) && !ge.infinity
      ensures Valid() && preG == null && this.g == g && this.gen == gen
    {
      this.g, this.gen, this.ge := g, gen, ge;
      preG := null;
    }

    // secp256k1_ecmult_context_build: a context that is built is left alone.
    method Build()
      requires Valid()
      modifies this`preG
      ensures Valid() && preG != null
      ensures if old(preG) != null then preG == old(preG) else fresh(preG)
    {
      if preG != null {
        return;
      }
      var n := Strauss.TableSize(Strauss.WINDOW_G);
      TableSizeFits();
      var table := new Storage[n](_ => Storage(0, 0));
      FinitePointsHaveOrderN(g, gen);
      OddMultiplesTableStorage(g, n, table, Gej(ge.x, ge.y, 1, false), gen);
      preG := table;
    }

    // secp256k1_ecmult_context_clone: an independent copy.
    method CloneFrom(src: EcmultContext)
      requires Valid() && src.Valid() && src.g == g && src.gen == gen
      modifies this`preG
      ensures Valid() && (preG == null <==> old(src.preG) == null)
      ensures preG != null ==> fresh(preG) && preG[..] == old(src.preG[..])
    {
      if src.preG == null {
        preG := null;
        return;
      }
      var n := src.preG.Length;
      var table := new Storage[n](i requires 0 <= i < n && src.preG != null && i < src.preG.Length reads src, src.preG => src.preG[i]);
      assert table[..] == src.preG[..];
      preG := table;
    }
  }

  lemma {:induction false} TableSizeFits()
    ensures 1 <= Strauss.TableSize(Strauss.WINDOW_G) < 0x8000_0000
  {
    Pow2Add(7, 7);
    assert Pow2(7) == 128;
  }

  // secp256k1_ecmult
  method Ecmult(ghost g: Group<CurvePoint>, ghost gen: CurvePoint, preG: seq<Storage>, a: Gej, na: int, ng: Option<int>,
                ghost p: CurvePoint) returns (r: Gej)
    requires Fermat() && FermatN() && IsCurveGroup(g) && Represents(a, 1, p)
    requires |preG| == Strauss.TableSize(Strauss.WINDOW_G) && IsStoredTable(g, preG, gen)
    requires 0 <= na < N && (ng.Some? ==> 0 <= ng.value < N)
    ensures Represents(r, 1, g.add(g.Times(na, p), Strauss.MaybeTimes(g, ng, gen)))
  {
    var size := Strauss.TableSize(Strauss.WINDOW_A);
    var prej := new Gej[size](_ => a);
    var zr := new int[size](_ => 0);
    var preA := new Ge[size](_ => Ge(0, 0, true));
    var ps := new PointState[1](_ => Strauss.PointState(0, 0, []));
    r := StraussWnaf(g, gen, preG, State(prej, zr, preA, ps), [na], [a], ng, [p]);
    LinOne(g, na, p);
  }
}
