// Strauss interleaving: one chain of doublings shared by all points, with digits
// of every scalar added on the way down. Here are the digits and the sums; the
// tables and the loop, on coordinates, are in StraussJacobian.
module Strauss {
  import opened Arith
  import opened Groups
  import opened Recoding
  import opened Wrappers

  const WINDOW_A: nat := 5
  const WINDOW_G: nat := 16

  // ECMULT_TABLE_SIZE
  function TableSize(w: nat): nat
    requires w >= 2
  {
    Pow2(w - 2)
  }

  // pre holds a, 3a, 5a, ...
  ghost predicate IsOddTable<P(!new)>(g: Group<P>, pre: seq<P>, a: P) {
    forall i :: 0 <= i < |pre| ==> pre[i] == g.Times(2 * i + 1, a)
  }

  // ECMULT_TABLE_GET_GE: the multiple by the odd digit n.
  function TableGet<P(!new)>(g: Group<P>, pre: seq<P>, n: int): P
    requires n % 2 == 1 && -2 * |pre| < n < 2 * |pre|
  {
    if n > 0 then pre[(n - 1) / 2] else g.neg(pre[(-n - 1) / 2])
  }

  lemma {:induction false} TableGetIsMultiple<P(!new)>(g: Group<P>, pre: seq<P>, a: P, n: int)
    requires g.IsAbelian() && IsOddTable(g, pre, a)
    requires n % 2 == 1 && -2 * |pre| < n < 2 * |pre|
    ensures TableGet(g, pre, n) == g.Times(n, a)
  {
    TimesNeg(g, -n, a);
    if n > 0 {
      var i := (n - 1) / 2;
      assert pre[i] == g.Times(2 * i + 1, a);
    } else {
      var i := (-n - 1) / 2;
      assert pre[i] == g.Times(2 * i + 1, a);
    }
  }

  // secp256k1_strauss_point_state
  datatype PointState = PointState(inputPos: nat, bitsNa: nat, wnafNa: seq<int>)

  // The digits recode the scalar, the ones from bitsNa up are zero.
  ghost predicate IsRecoding(d: seq<int>, bits: nat, scalar: int, w: nat)
    requires w >= 1
  {
    && |d| == 256 && bits <= 256
    && IsWnaf(d, w)
    && (forall i :: bits <= i < 256 ==> d[i] == 0)
    && Cong(Value(d, 1), scalar, N)
  }

  ghost predicate IsPointState<P(!new)>(p: PointState, na: seq<int>, a: seq<P>)
    requires |na| == |a|
  {
    && p.inputPos < |na|
    && IsRecoding(p.wnafNa, p.bitsNa, na[p.inputPos], WINDOW_A)
  }

  ghost predicate ArePointStates<P(!new)>(ps: seq<PointState>, na: seq<int>, a: seq<P>)
    requires |na| == |a|
  {
    && (forall k :: 0 <= k < |ps| ==> ps[k].inputPos < |a|)
    && (forall k :: 0 <= k < |ps| ==> IsPointState(ps[k], na, a))
  }

  ghost predicate AreScalars(na: seq<int>) {
    forall i :: 0 <= i < |na| ==> 0 <= na[i] < N
  }

  ghost function PointsOf<P(!new)>(ps: seq<PointState>, a: seq<P>): (b: seq<P>)
    requires forall k :: 0 <= k < |ps| ==> ps[k].inputPos < |a|
    ensures |b| == |ps|
  {
    seq(|ps|, k requires 0 <= k < |ps| => a[ps[k].inputPos])
  }

  ghost function DigitsOf(ps: seq<PointState>): (d: seq<seq<int>>)
    ensures |d| == |ps|
  {
    seq(|ps|, k requires 0 <= k < |ps| => ps[k].wnafNa)
  }

  // The states of the points kept among the first np, and a bound on their digits.
  ghost predicate AreKept<P(!new)>(g: Group<P>, ps: seq<PointState>, bits: nat, na: seq<int>, infinity: seq<bool>, a: seq<P>, np: nat)
    requires |na| == |a| == |infinity|
  {
    && |ps| <= np <= |na| && bits <= 256
    && ArePointStates(ps, na, a)
    && (forall k :: 0 <= k < |ps| ==> !infinity[ps[k].inputPos])
    && (forall k :: 0 <= k < |ps| ==> ps[k].bitsNa <= bits)
    && g.Lin(Tails(DigitsOf(ps), 0, 1), PointsOf(ps, a)) == g.Lin(na[..np], a[..np])
  }

  // Lines 469-497: recode the scalars that matter, remembering where they came
  // from. Of the points only the infinity flags are looked at.
  method RecodePoints<P(!new)>(ghost g: Group<P>, na: seq<int>, infinity: seq<bool>, ghost a: seq<P>, ps: array<PointState>)
    returns (no: nat, bits: nat)
    requires g.HasExponent(N) && |na| == |a| == |infinity| <= ps.Length && AreScalars(na)
    requires forall k :: 0 <= k < |a| ==> (infinity[k] <==> a[k] == g.zero)
    modifies ps
    ensures bits <= 256 && no <= |na|
    ensures forall k :: 0 <= k < no ==> ps[..no][k].inputPos < |a| && !infinity[ps[..no][k].inputPos]
    ensures ArePointStates(ps[..no], na, a) && forall k :: 0 <= k < no ==> ps[..no][k].bitsNa <= bits
    ensures g.Lin(Tails(DigitsOf(ps[..no]), 0, 1), PointsOf(ps[..no], a)) == g.Lin(na, a)
  {
    no := 0;
    bits := 0;
    for np := 0 to |na|
      invariant no <= np && AreKept(g, ps[..no], bits, na, infinity, a, np)
    {
      no, bits := RecodeNext(g, na, infinity, a, ps, np, no, bits);
    }
    assert na[..|na|] == na && a[..|na|] == a;
  }

  // Lines 470-496: the next point, unless it or its scalar can be skipped.
  method RecodeNext<P(!new)>(ghost g: Group<P>, na: seq<int>, infinity: seq<bool>, ghost a: seq<P>, ps: array<PointState>, np: nat,
                             no0: nat, bits0: nat) returns (no: nat, bits: nat)
    requires g.HasExponent(N) && |na| == |a| == |infinity| <= ps.Length && AreScalars(na)
    requires forall k :: 0 <= k < |a| ==> (infinity[k] <==> a[k] == g.zero)
    requires no0 <= np < |na| && AreKept(g, ps[..no0], bits0, na, infinity, a, np)
    modifies ps
    ensures no <= np + 1 && AreKept(g, ps[..no], bits, na, infinity, a, np + 1)
  {
    no, bits := no0, bits0;
    assert na[..np + 1] == na[..np] + [na[np]] && a[..np + 1] == a[..np] + [a[np]];
    LinAppend(g, na[..np], a[..np], na[np], a[np]);
    if na[np] == 0 || infinity[np] {
      TimesZero(g, na[np]);
      return;
    }
    var p := RecodePoint(na, np, a);
    ghost var before := ps[..no];
    AppendState(g, before, p, na, a);
    ps[no] := p;
    no := no + 1;
    assert ps[..no] == before + [p];
    if p.bitsNa > bits {
      bits := p.bitsNa;
    }
  }

  // Lines 490-491: the state of one point that matters.
  method RecodePoint<P(!new)>(na: seq<int>, np: nat, ghost a: seq<P>) returns (p: PointState)
    requires |na| == |a| && np < |na| && AreScalars(na)
    ensures p.inputPos == np && p.bitsNa <= 256 && IsPointState(p, na, a)
  {
    var wnaf := new int[256];
    var bitsNa, _ := EcmultWnaf(wnaf, 256, na[np], WINDOW_A);
    assert wnaf[..256] == wnaf[..];
    p := PointState(np, bitsNa, wnaf[..]);
  }

  lemma {:induction false} AppendState<P(!new)>(g: Group<P>, ps: seq<PointState>, p: PointState, na: seq<int>, a: seq<P>)
    requires g.HasExponent(N) && |na| == |a|
    requires ArePointStates(ps, na, a)
    requires IsPointState(p, na, a)
    ensures ArePointStates(ps + [p], na, a)
    ensures g.Lin(Tails(DigitsOf(ps + [p]), 0, 1), PointsOf(ps + [p], a))
         == g.add(g.Lin(Tails(DigitsOf(ps), 0, 1), PointsOf(ps, a)), g.Times(na[p.inputPos], a[p.inputPos]))
  {
    var q := ps + [p];
    assert p.wnafNa[0..] == p.wnafNa;
    assert Tails(DigitsOf(q), 0, 1) == Tails(DigitsOf(ps), 0, 1) + [Value(p.wnafNa, 1)];
    assert PointsOf(q, a) == PointsOf(ps, a) + [a[p.inputPos]];
    LinAppend(g, Tails(DigitsOf(ps), 0, 1), PointsOf(ps, a), Value(p.wnafNa, 1), a[p.inputPos]);
    TimesCong(g, Value(p.wnafNa, 1), na[p.inputPos], a[p.inputPos], N);
  }

  // The table of the k-th point.
  function Slice<P>(pre: seq<P>, k: nat): (s: seq<P>)
    requires k * 8 + 8 <= |pre|
    ensures |s| == 8
  {
    pre[k * 8..k * 8 + 8]
  }

  // The accumulator while bit i is being processed: the first np terms have
  // received their digit, the others are only doubled.
  ghost function Mixed(terms: seq<seq<int>>, i: nat, np: nat): (c: seq<int>)
    requires forall k :: 0 <= k < |terms| ==> i < |terms[k]|
    ensures |c| == |terms|
  {
    seq(|terms|, k requires 0 <= k < |terms| =>
      if k < np then Value(terms[k][i..], 1) else 2 * Value(terms[k][i + 1..], 1))
  }

  lemma {:induction false} DoubleAll<P(!new)>(g: Group<P>, terms: seq<seq<int>>, b: seq<P>, i: nat, r: P)
    requires g.IsAbelian() && |terms| == |b|
    requires forall k :: 0 <= k < |terms| ==> i < |terms[k]|
    requires r == g.Lin(Tails(terms, i + 1, 1), b)
    ensures g.add(r, r) == g.Lin(Mixed(terms, i, 0), b)
  {
    LinScale(g, 2, Tails(terms, i + 1, 1), Mixed(terms, i, 0), b);
    TimesOne(g, r);
  }

  lemma {:induction false} AddDigit<P(!new)>(g: Group<P>, terms: seq<seq<int>>, b: seq<P>, i: nat, np: nat, r: P)
    requires g.IsAbelian() && |terms| == |b| && np < |terms|
    requires forall k :: 0 <= k < |terms| ==> i < |terms[k]|
    requires r == g.Lin(Mixed(terms, i, np), b)
    ensures g.add(r, g.Times(terms[np][i], b[np])) == g.Lin(Mixed(terms, i, np + 1), b)
    ensures terms[np][i] == 0 ==> r == g.Lin(Mixed(terms, i, np + 1), b)
  {
    var c := Mixed(terms, i, np);
    ValueStep(terms[np], 1, i);
    assert Pow2(1) == 2;
    assert Mixed(terms, i, np + 1) == c[np := c[np] + terms[np][i]];
    LinBump(g, c, b, np, terms[np][i]);
  }

  lemma {:induction false} MixedDone(terms: seq<seq<int>>, i: nat)
    requires forall k :: 0 <= k < |terms| ==> i < |terms[k]|
    ensures Mixed(terms, i, |terms|) == Tails(terms, i, 1)
  {
  }

  // A recoded scalar as the main loop reads it.
  ghost predicate IsDigitString(d: seq<int>, own: nat, bits: nat, w: nat)
    requires w >= 1
  {
    && |d| == 256 && own <= bits <= 256
    && IsWnaf(d, w)
    && (forall i :: own <= i < 256 ==> d[i] == 0)
  }

  lemma {:induction false} DigitInTable(d: seq<int>, own: nat, bits: nat, w: nat, i: nat)
    requires w >= 2 && IsDigitString(d, own, bits, w) && i < 256 && d[i] != 0
    ensures d[i] % 2 == 1 && -2 * TableSize(w) < d[i] < 2 * TableSize(w)
  {
    assert IsWindowDigit(d[i], w);
    assert Pow2(w - 1) == 2 * Pow2(w - 2);
  }

  // Lines 549-554: the generator's scalar, if there is one.
  method RecodeGenerator(ng: Option<int>) returns (wnafNg: seq<int>, bitsNg: nat)
    requires ng.Some? ==> 0 <= ng.value < N
    ensures |wnafNg| == 256 && bitsNg <= 256
    ensures IsDigitString(wnafNg, bitsNg, 256, WINDOW_G)
    ensures Cong(Value(wnafNg, 1), if ng.Some? then ng.value else 0, N)
  {
    if ng.None? {
      wnafNg, bitsNg := seq(256, i => 0), 0;
      ValueZeros(wnafNg, 1);
      return;
    }
    var wnaf := new int[256];
    ghost var carry;
    bitsNg, carry := EcmultWnaf(wnaf, 256, ng.value, WINDOW_G);
    wnafNg := wnaf[..];
    assert wnaf[..256] == wnafNg;
  }

  // ng times the generator, or nothing.
  ghost function MaybeTimes<P(!new)>(g: Group<P>, ng: Option<int>, gen: P): P {
    if ng.Some? then g.Times(ng.value, gen) else g.zero
  }

  lemma {:induction false} GeneratorTerm<P(!new)>(g: Group<P>, ps: seq<PointState>, na: seq<int>, a: seq<P>,
                                                 wnafNg: seq<int>, ng: Option<int>, gen: P)
    requires g.HasExponent(N) && |na| == |a| && ArePointStates(ps, na, a)
    requires Cong(Value(wnafNg, 1), if ng.Some? then ng.value else 0, N)
    ensures g.Lin(Tails(DigitsOf(ps) + [wnafNg], 0, 1), PointsOf(ps, a) + [gen])
         == g.add(g.Lin(Tails(DigitsOf(ps), 0, 1), PointsOf(ps, a)), MaybeTimes(g, ng, gen))
  {
    assert wnafNg[0..] == wnafNg;
    assert Tails(DigitsOf(ps) + [wnafNg], 0, 1) == Tails(DigitsOf(ps), 0, 1) + [Value(wnafNg, 1)];
    LinAppend(g, Tails(DigitsOf(ps), 0, 1), PointsOf(ps, a), Value(wnafNg, 1), gen);
    TimesCong(g, Value(wnafNg, 1), if ng.Some? then ng.value else 0, gen, N);
  }
}
