// Numbers written in limbs: products column by column, and the bitwise
// operations the limb code uses on whole limbs.
module Limbs {
  import opened Arith
  import opened Groups
  import opened Recoding

  // ---- values of limb sequences ----

  lemma {:induction false} ValueConcat(c: seq<int>, d: seq<int>, w: nat)
    ensures Value(c + d, w) == Value(c, w) + Pow2(w * |c|) * Value(d, w)
  {
    if |c| == 0 {
      assert c + d == d;
      assert w * |c| == 0;
    } else {
      assert (c + d)[1..] == c[1..] + d;
      ValueConcat(c[1..], d, w);
      var p, q, v := Pow2(w), Pow2(w * |c[1..]|), Value(d, w);
      assert w + w * |c[1..]| == w * |c|;
      Pow2Add(w, w * |c[1..]|);
      MulAssoc(p, q, v);
      MulDistrib(p, Value(c[1..], w), q * v);
    }
  }

  lemma {:induction false} ValueSum(c: seq<int>, d: seq<int>, e: seq<int>, w: nat)
    requires |c| == |d| == |e| && forall i :: 0 <= i < |e| ==> e[i] == c[i] + d[i]
    ensures Value(e, w) == Value(c, w) + Value(d, w)
  {
    if |e| > 0 {
      ValueSum(c[1..], d[1..], e[1..], w);
      MulDistrib(Pow2(w), Value(c[1..], w), Value(d[1..], w));
    }
  }

  // A number of k full limbs is below 2^(w*k).
  lemma {:induction false} ValueBound(d: seq<int>, w: nat)
    requires forall i :: 0 <= i < |d| ==> 0 <= d[i] < Pow2(w)
    ensures 0 <= Value(d, w) < Pow2(w * |d|)
  {
    if |d| > 0 {
      ValueBound(d[1..], w);
      assert w * |d| == w + w * (|d| - 1);
      Pow2Add(w, w * (|d| - 1));
      HornerBound(d[0], Value(d[1..], w), Pow2(w), Pow2(w * (|d| - 1)));
    }
  }

  lemma {:induction false} HornerBound(x: int, v: int, p: int, q: int)
    requires 0 <= x < p && 0 <= v < q
    ensures 0 <= x + p * v < p * q
  {
    MulMonotone(v, q - 1, p);
    MulMonotone(0, v, p);
    MulDistrib(p, q, -1);
  }

  // Limbs in range are determined by the number they write.
  lemma {:induction false} ValueUnique(a: seq<int>, b: seq<int>, w: nat)
    requires |a| == |b|
    requires forall i :: 0 <= i < |a| ==> 0 <= a[i] < Pow2(w)
    requires forall i :: 0 <= i < |b| ==> 0 <= b[i] < Pow2(w)
    requires Value(a, w) == Value(b, w)
    ensures a == b
  {
    if |a| > 0 {
      HornerUnique(a[0], Value(a[1..], w), b[0], Value(b[1..], w), Pow2(w));
      ValueUnique(a[1..], b[1..], w);
      assert a == [a[0]] + a[1..] && b == [b[0]] + b[1..];
    }
  }

  lemma {:induction false} HornerUnique(x: int, v: int, y: int, u: int, p: int)
    requires 0 <= x < p && 0 <= y < p && x + p * v == y + p * u
    ensures x == y && v == u
  {
    DivModUnique(x + p * v, p, v, x);
    DivModUnique(y + p * u, p, u, y);
  }

  // The topmost limb that differs decides the comparison.
  lemma {:induction false} TopLimbDecides(a: seq<int>, b: seq<int>, w: nat, i: nat)
    requires |a| == |b| && i < |a| && a[i] < b[i] && forall j :: i < j < |a| ==> a[j] == b[j]
    requires forall j :: 0 <= j < i ==> 0 <= a[j] < Pow2(w)
    requires forall j :: 0 <= j < i ==> 0 <= b[j] < Pow2(w)
    ensures Value(a, w) < Value(b, w)
    decreases i
  {
    var va, vb := Value(a[1..], w), Value(b[1..], w);
    if i == 0 {
      assert a[1..] == b[1..];
    } else {
      TopLimbDecides(a[1..], b[1..], w, i - 1);
      HornerLess(a[0], b[0], va, vb, Pow2(w));
    }
  }

  lemma {:induction false} HornerLess(x: int, y: int, v: int, u: int, p: int)
    requires 0 <= x < p && 0 <= y < p && v < u
    ensures x + p * v < y + p * u
  {
    MulMonotone(v + 1, u, p);
    MulDistrib(p, v, 1);
  }

  lemma {:induction false} ValueTail(a: seq<int>, w: nat, i: nat)
    requires i <= |a|
    ensures i == |a| ==> Value(a[i..], w) == 0
    ensures i < |a| ==> Value(a[i..], w) == a[i] + Pow2(w) * Value(a[i + 1..], w)
  {
    if i < |a| {
      ValueStep(a, w, i);
    }
  }

  // ---- products ----

  // The sum of a[i]*b[x-i] for lo <= i < hi.
  function RangeSum(a: seq<int>, b: seq<int>, x: int, lo: nat, hi: nat): int
    requires hi <= |a| && x - |b| < lo && hi <= x + 1
    decreases hi - lo
  {
    if lo >= hi then 0 else a[lo] * b[x - lo] + RangeSum(a, b, x, lo + 1, hi)
  }

  // The x-th column of the product of a and b.
  function Column(a: seq<int>, b: seq<int>, x: nat): int {
    RangeSum(a, b, x, if x < |b| then 0 else x - |b| + 1, if x < |a| then x + 1 else |a|)
  }

  lemma {:induction false} RangeSumLast(a: seq<int>, b: seq<int>, x: int, lo: nat, hi: nat)
    requires lo < hi <= |a| && x - |b| < lo && hi <= x + 1
    ensures RangeSum(a, b, x, lo, hi) == RangeSum(a, b, x, lo, hi - 1) + a[hi - 1] * b[x - (hi - 1)]
    decreases hi - lo
  {
    if lo + 1 < hi {
      RangeSumLast(a, b, x, lo + 1, hi);
    }
  }

  lemma {:induction false} RangeSumPrefix(a: seq<int>, m: nat, b: seq<int>, x: int, lo: nat, hi: nat)
    requires m <= |a| && hi <= m && x - |b| < lo && hi <= x + 1
    ensures RangeSum(a[..m], b, x, lo, hi) == RangeSum(a, b, x, lo, hi)
    decreases hi - lo
  {
    if lo < hi {
      RangeSumPrefix(a, m, b, x, lo + 1, hi);
    }
  }

  lemma {:induction false} RangeSumBound(a: seq<int>, b: seq<int>, x: int, lo: nat, hi: nat, k: int)
    requires lo <= hi <= |a| && x - |b| < lo && hi <= x + 1
    requires forall i :: 0 <= i < |a| ==> 0 <= a[i] <= k
    requires forall i :: 0 <= i < |b| ==> 0 <= b[i] <= k
    ensures 0 <= RangeSum(a, b, x, lo, hi) <= (hi - lo) * (k * k)
    decreases hi - lo
  {
    if lo < hi {
      RangeSumBound(a, b, x, lo + 1, hi, k);
      ProductBound(a[lo], b[x - lo], k, k);
      assert (hi - lo) * (k * k) == (hi - lo - 1) * (k * k) + k * k;
    }
  }

  lemma {:induction false} ProductBound(x: int, y: int, k: int, l: int)
    requires 0 <= x <= k && 0 <= y <= l
    ensures 0 <= x * y <= k * l
  {
    MulMonotone(x, k, y);
    MulMonotone(y, l, k);
    MulMonotone(0, x, y);
  }

  function Columns(a: seq<int>, b: seq<int>): (c: seq<int>)
    requires |a| > 0 && |b| > 0
    ensures |c| == |a| + |b| - 1
  {
    seq(|a| + |b| - 1, x requires 0 <= x < |a| + |b| - 1 => Column(a, b, x))
  }

  ghost function Scaled(b: seq<int>, y: int): (c: seq<int>)
    ensures |c| == |b| && forall i :: 0 <= i < |b| ==> c[i] == b[i] * y
  {
    seq(|b|, i requires 0 <= i < |b| => b[i] * y)
  }

  // The columns of a product write the product.
  lemma {:induction false} ColumnsValue(a: seq<int>, b: seq<int>, w: nat)
    requires |a| > 0 && |b| > 0
    ensures Value(Columns(a, b), w) == Value(a, w) * Value(b, w)
  {
    var m := |a| - 1;
    var y := a[m];
    var last := Zeros(m) + Scaled(b, y);
    ValueZeros(Zeros(m), w);
    ValueConcat(Zeros(m), Scaled(b, y), w);
    ValueScale(b, Scaled(b, y), w, y);
    assert a == a[..m] + [y];
    ValueAppend(a[..m], w, y);
    if m == 0 {
      ColumnsStep(a, b, Zeros(|b|));
      ValueZeros(Zeros(|b|), w);
      ValueSum(Zeros(|b|), last, Columns(a, b), w);
      assert a[..m] == [];
      assert w * m == 0;
    } else {
      var first := Columns(a[..m], b) + [0];
      ColumnsValue(a[..m], b, w);
      ValueAppend(Columns(a[..m], b), w, 0);
      ColumnsStep(a, b, first);
      ValueSum(first, last, Columns(a, b), w);
    }
    ProductStep(Value(a[..m], w), Pow2(w * m), y, Value(b, w));
  }

  lemma {:induction false} ProductStep(v: int, p: int, y: int, u: int)
    ensures (v + p * y) * u == v * u + p * (y * u)
  {
  }

  // The last limb of a adds its multiple of b, shifted, to every column.
  lemma {:induction false} ColumnsStep(a: seq<int>, b: seq<int>, first: seq<int>)
    requires |a| > 0 && |b| > 0
    requires |a| == 1 ==> first == Zeros(|b|)
    requires |a| > 1 ==> first == Columns(a[..|a| - 1], b) + [0]
    ensures |first| == |Columns(a, b)|
    ensures var last := Zeros(|a| - 1) + Scaled(b, a[|a| - 1]);
      forall x :: 0 <= x < |first| ==> Columns(a, b)[x] == first[x] + last[x]
  {
    var m := |a| - 1;
    var last := Zeros(m) + Scaled(b, a[m]);
    forall x | 0 <= x < |first|
      ensures Columns(a, b)[x] == first[x] + last[x]
    {
      ColumnStep(a, b, x);
      assert m > 0 && x < m + |b| - 1 ==> first[x] == Column(a[..m], b, x);
      assert x >= m ==> last[x] == b[x - m] * a[m];
    }
  }

  lemma {:induction false} ColumnStep(a: seq<int>, b: seq<int>, x: nat)
    requires |a| > 0 && |b| > 0 && x < |a| + |b| - 1
    ensures var m := |a| - 1;
      Column(a, b, x) == (if m > 0 && x < m + |b| - 1 then Column(a[..m], b, x) else 0)
                         + (if x < m then 0 else b[x - m] * a[m])
  {
    var m := |a| - 1;
    var lo := if x < |b| then 0 else x - |b| + 1;
    if x < m {
      RangeSumPrefix(a, m, b, x, lo, x + 1);
    } else {
      RangeSumLast(a, b, x, lo, m + 1);
      RangeSumPrefix(a, m, b, x, lo, m);
    }
  }

  // ---- squares ----

  // A column of a square: each pair of equal products is taken once and doubled.
  function PairSum(a: seq<int>, i: nat, j: int): int
    requires j < |a|
    decreases j - i
  {
    if i > j then 0
    else if i == j then a[i] * a[i]
    else 2 * (a[i] * a[j]) + PairSum(a, i + 1, j - 1)
  }

  lemma {:induction false} PairSumIsRangeSum(a: seq<int>, i: nat, j: int)
    requires i <= j + 1 && j < |a|
    ensures PairSum(a, i, j) == RangeSum(a, a, i + j, i, j + 1)
    decreases j - i
  {
    if i == j {
      assert RangeSum(a, a, i + j, i + 1, j + 1) == 0;
    } else if i < j {
      PairSumIsRangeSum(a, i + 1, j - 1);
      RangeSumLast(a, a, i + j, i, j + 1);
      assert RangeSum(a, a, i + j, i, j) == a[i] * a[j] + RangeSum(a, a, i + j, i + 1, j);
    }
  }

  lemma {:induction false} SquareColumn(a: seq<int>, x: nat)
    requires |a| > 0 && x < 2 * |a| - 1
    ensures var lo := if x < |a| then 0 else x - |a| + 1; PairSum(a, lo, x - lo) == Column(a, a, x)
  {
    var lo := if x < |a| then 0 else x - |a| + 1;
    PairSumIsRangeSum(a, lo, x - lo);
  }

  // ---- bitwise operations on whole limbs ----

  function And(x: nat, y: nat): nat {
    if x == 0 || y == 0 then 0 else (if x % 2 == 1 && y % 2 == 1 then 1 else 0) + 2 * And(x / 2, y / 2)
  }

  function Or(x: nat, y: nat): nat {
    if x == 0 then y else (if x % 2 == 1 || y % 2 == 1 then 1 else 0) + 2 * Or(x / 2, y / 2)
  }

  function Xor(x: nat, y: nat): nat
    decreases x + y
  {
    if x == 0 then y else if y == 0 then x
    else (if x % 2 != y % 2 then 1 else 0) + 2 * Xor(x / 2, y / 2)
  }

  // s[0] & s[1] & ...
  function AndAll(s: seq<nat>): nat
    requires |s| > 0
  {
    if |s| == 1 then s[0] else And(AndAll(s[..|s| - 1]), s[|s| - 1])
  }

  // s[0] | s[1] | ...
  function OrAll(s: seq<nat>): nat
    requires |s| > 0
  {
    if |s| == 1 then s[0] else Or(OrAll(s[..|s| - 1]), s[|s| - 1])
  }

  lemma {:induction false} AndAllOfThem(s: seq<nat>, k: nat)
    requires |s| > 0 && forall i :: 0 <= i < |s| ==> s[i] < Pow2(k)
    ensures AndAll(s) < Pow2(k)
    ensures AndAll(s) == Pow2(k) - 1 <==> forall i :: 0 <= i < |s| ==> s[i] == Pow2(k) - 1
  {
    if |s| > 1 {
      var front := s[..|s| - 1];
      AndAllOfThem(front, k);
      AndAllOnes(AndAll(front), s[|s| - 1], k);
      assert forall i :: 0 <= i < |front| ==> front[i] == s[i];
    }
  }

  lemma {:induction false} OrAllZero(s: seq<nat>)
    requires |s| > 0
    ensures OrAll(s) == 0 <==> forall i :: 0 <= i < |s| ==> s[i] == 0
  {
    if |s| > 1 {
      var front := s[..|s| - 1];
      OrAllZero(front);
      OrZero(OrAll(front), s[|s| - 1]);
      assert forall i :: 0 <= i < |front| ==> front[i] == s[i];
    }
  }

  // A conjunction has all k bits only if both operands do.
  lemma {:induction false} AndAllOnes(x: nat, y: nat, k: nat)
    requires x < Pow2(k) && y < Pow2(k)
    ensures And(x, y) < Pow2(k)
    ensures And(x, y) == Pow2(k) - 1 <==> x == Pow2(k) - 1 && y == Pow2(k) - 1
  {
    if k > 0 && x > 0 && y > 0 {
      AndAllOnes(x / 2, y / 2, k - 1);
    }
  }

  lemma {:induction false} OrZero(x: nat, y: nat)
    ensures Or(x, y) == 0 <==> x == 0 && y == 0
  {
    if x > 0 {
      OrZero(x / 2, y / 2);
    }
  }

  // A difference of bits is all ones only for the complement.
  lemma {:induction false} XorAllOnes(x: nat, y: nat, k: nat)
    requires x < Pow2(k) && y < Pow2(k)
    ensures Xor(x, y) < Pow2(k)
    ensures Xor(x, y) == Pow2(k) - 1 <==> x + y == Pow2(k) - 1
  {
    if k > 0 && x > 0 && y > 0 {
      XorAllOnes(x / 2, y / 2, k - 1);
    }
  }

  // A mask of k ones keeps everything or takes the complement, one of zeros
  // drops everything or changes nothing.
  lemma {:induction false} FullMask(x: nat, k: nat)
    requires x < Pow2(k)
    ensures And(x, Pow2(k) - 1) == x && Xor(x, Pow2(k) - 1) == Pow2(k) - 1 - x
  {
    if k > 0 {
      FullMask(x / 2, k - 1);
    }
  }

  lemma {:induction false} EmptyMask(x: nat)
    ensures And(x, 0) == 0 && Xor(x, 0) == x
  {
  }
}
