// Points are elements of an abelian group given by its operations. The group
// laws are a predicate that the theorems require, so nothing is postulated;
// the residues modulo the curve order are shown to satisfy them.
module Groups {
  import opened Arith

  // The order of the secp256k1 group.
  const N: int := 0xFFFFFFFFFFFFFFFFFFFFFFFFFFFFFFFEBAAEDCE6AF48A03BBFD25E8CD0364141

  datatype Group<!P(!new)> = Group(zero: P, add: (P, P) -> P, neg: P -> P) {

    ghost predicate AssocAt(a: P, b: P, c: P) { add(add(a, b), c) == add(a, add(b, c)) }

    ghost predicate CommAt(a: P, b: P) { add(a, b) == add(b, a) }

    // The laws of an abelian group.
    ghost predicate IsAbelian() {
      && (forall a, b, c :: AssocAt(a, b, c))
      && (forall a, b :: CommAt(a, b))
      && (forall a :: add(a, zero) == a)
      && (forall a :: add(a, neg(a)) == zero)
    }

    // k * a, for any integer k.
    function Times(k: int, a: P): P
      decreases if k < 0 then -k else k, k < 0
    {
      if k == 0 then zero
      else if k > 0 then add(Times(k - 1, a), a)
      else neg(Times(-k, a))
    }

    // An abelian group in which every element is annihilated by n.
    ghost predicate HasExponent(n: int) {
      && n > 0
      && IsAbelian()
      && (forall a :: Times(n, a) == zero)
    }

    // The linear combination c[0]*b[0] + c[1]*b[1] + ...
    ghost function Lin(c: seq<int>, b: seq<P>): P
      requires |c| == |b|
    {
      if |c| == 0 then zero
      else add(Times(c[0], b[0]), Lin(c[1..], b[1..]))
    }
  }

  lemma {:induction false} Assoc<P(!new)>(g: Group<P>, a: P, b: P, c: P)
    requires g.IsAbelian()
    ensures g.add(g.add(a, b), c) == g.add(a, g.add(b, c))
  {
    assert g.AssocAt(a, b, c);
  }

  lemma {:induction false} Comm<P(!new)>(g: Group<P>, a: P, b: P)
    requires g.IsAbelian()
    ensures g.add(a, b) == g.add(b, a)
  {
    assert g.CommAt(a, b);
  }

  // (a + b) + (c + d) == (a + c) + (b + d)
  lemma {:induction false} Interchange<P(!new)>(g: Group<P>, a: P, b: P, c: P, d: P)
    requires g.IsAbelian()
    ensures g.add(g.add(a, b), g.add(c, d)) == g.add(g.add(a, c), g.add(b, d))
  {
    Assoc(g, a, b, g.add(c, d));
    Assoc(g, b, c, d);
    Comm(g, b, c);
    Assoc(g, c, b, d);
    Assoc(g, a, c, g.add(b, d));
  }

  lemma {:induction false} CancelRight<P(!new)>(g: Group<P>, a: P, b: P, c: P)
    requires g.IsAbelian()
    requires g.add(a, c) == g.add(b, c)
    ensures a == b
  {
    Assoc(g, a, c, g.neg(c));
    Assoc(g, b, c, g.neg(c));
  }

  lemma {:induction false} NegUnique<P(!new)>(g: Group<P>, a: P, b: P)
    requires g.IsAbelian()
    requires g.add(a, b) == g.zero
    ensures b == g.neg(a)
  {
    Comm(g, a, b);
    Comm(g, a, g.neg(a));
    CancelRight(g, b, g.neg(a), a);
  }

  lemma {:induction false} NegZero<P(!new)>(g: Group<P>)
    requires g.IsAbelian()
    ensures g.neg(g.zero) == g.zero
  {
    NegUnique(g, g.zero, g.zero);
  }

  lemma {:induction false} NegNeg<P(!new)>(g: Group<P>, a: P)
    requires g.IsAbelian()
    ensures g.neg(g.neg(a)) == a
  {
    Comm(g, a, g.neg(a));
    NegUnique(g, g.neg(a), a);
  }

  lemma {:induction false} NegAdd<P(!new)>(g: Group<P>, a: P, b: P)
    requires g.IsAbelian()
    ensures g.neg(g.add(a, b)) == g.add(g.neg(a), g.neg(b))
  {
    Interchange(g, a, b, g.neg(a), g.neg(b));
    NegUnique(g, g.add(a, b), g.add(g.neg(a), g.neg(b)));
  }

  lemma {:induction false} TimesNeg<P(!new)>(g: Group<P>, k: int, a: P)
    requires g.IsAbelian()
    ensures g.Times(-k, a) == g.neg(g.Times(k, a))
  {
    if k < 0 {
      NegNeg(g, g.Times(-k, a));
    } else if k == 0 {
      NegZero(g);
    }
  }

  lemma {:induction false} TimesSucc<P(!new)>(g: Group<P>, k: int, a: P)
    requires g.IsAbelian()
    ensures g.Times(k + 1, a) == g.add(g.Times(k, a), a)
  {
    if k < 0 {
      // Times(k, a) + a == -(Times(-k-1, a) + a) + a
      var m := g.Times(-k - 1, a);
      assert g.Times(-k, a) == g.add(m, a);
      NegAdd(g, m, a);
      Assoc(g, g.neg(m), g.neg(a), a);
      Comm(g, g.neg(a), a);
      TimesNeg(g, -k - 1, a);
      assert g.Times(k, a) == g.neg(g.Times(-k, a));
    }
  }

  // (j + k) * a == j * a + k * a
  lemma {:induction false} TimesAdd<P(!new)>(g: Group<P>, j: int, k: int, a: P)
    requires g.IsAbelian()
    ensures g.Times(j + k, a) == g.add(g.Times(j, a), g.Times(k, a))
    decreases if k < 0 then -k else k
  {
    if k > 0 {
      TimesAdd(g, j, k - 1, a);
      TimesSucc(g, j + k - 1, a);
      Assoc(g, g.Times(j, a), g.Times(k - 1, a), a);
    } else if k < 0 {
      TimesAdd(g, j, k + 1, a);
      TimesSucc(g, j + k, a);
      TimesSucc(g, k, a);
      Assoc(g, g.Times(j, a), g.Times(k, a), a);
      CancelRight(g, g.Times(j + k, a), g.add(g.Times(j, a), g.Times(k, a)), a);
    }
  }

  lemma {:induction false} TimesOne<P(!new)>(g: Group<P>, a: P)
    requires g.IsAbelian()
    ensures g.Times(1, a) == a
    ensures g.Times(2, a) == g.add(a, a)
  {
    assert g.Times(0, a) == g.zero;
    Comm(g, g.zero, a);
  }

  lemma {:induction false} TimesDouble<P(!new)>(g: Group<P>, k: int, a: P)
    requires g.IsAbelian()
    ensures g.Times(2 * k, a) == g.add(g.Times(k, a), g.Times(k, a))
  {
    TimesAdd(g, k, k, a);
  }

  // k * (a + b) == k * a + k * b
  lemma {:induction false} TimesSum<P(!new)>(g: Group<P>, k: int, a: P, b: P)
    requires g.IsAbelian()
    ensures g.Times(k, g.add(a, b)) == g.add(g.Times(k, a), g.Times(k, b))
    decreases if k < 0 then -k else k, k < 0
  {
    if k > 0 {
      TimesSum(g, k - 1, a, b);
      Interchange(g, g.Times(k - 1, a), g.Times(k - 1, b), a, b);
    } else if k < 0 {
      TimesSum(g, -k, a, b);
      NegAdd(g, g.Times(-k, a), g.Times(-k, b));
    }
  }

  lemma {:induction false} TimesZero<P(!new)>(g: Group<P>, k: int)
    requires g.IsAbelian()
    ensures g.Times(k, g.zero) == g.zero
    decreases if k < 0 then -k else k, k < 0
  {
    if k > 0 {
      TimesZero(g, k - 1);
    } else if k < 0 {
      TimesZero(g, -k);
      NegZero(g);
    }
  }

  // k * (-a) == (-k) * a
  lemma {:induction false} TimesOfNeg<P(!new)>(g: Group<P>, k: int, a: P)
    requires g.IsAbelian()
    ensures g.Times(k, g.neg(a)) == g.Times(-k, a)
  {
    TimesSum(g, k, a, g.neg(a));
    TimesZero(g, k);
    NegUnique(g, g.Times(k, a), g.Times(k, g.neg(a)));
    TimesNeg(g, k, a);
  }

  // (j * k) * a == j * (k * a)
  lemma {:induction false} TimesTimes<P(!new)>(g: Group<P>, j: int, k: int, a: P)
    requires g.IsAbelian()
    ensures g.Times(j * k, a) == g.Times(j, g.Times(k, a))
    decreases if j < 0 then -j else j, j < 0
  {
    if j > 0 {
      TimesTimes(g, j - 1, k, a);
      assert (j - 1) * k + k == j * k;
      TimesAdd(g, (j - 1) * k, k, a);
    } else if j < 0 {
      TimesTimes(g, -j, k, a);
      assert (-j) * k == -(j * k);
      TimesNeg(g, j * k, a);
      NegNeg(g, g.Times(j * k, a));
    }
  }

  // Congruent multipliers give the same multiple.
  lemma {:induction false} TimesCong<P(!new)>(g: Group<P>, j: int, k: int, a: P, n: int)
    requires g.HasExponent(n)
    requires Cong(j, k, n)
    ensures g.Times(j, a) == g.Times(k, a)
  {
    var q := CongElim(j, k, n);
    TimesAdd(g, k, q * n, a);
    TimesTimes(g, q, n, a);
    TimesZero(g, q);
  }

  // ---- linear combinations ----

  ghost function Zeros(m: nat): (z: seq<int>)
    ensures |z| == m && forall i :: 0 <= i < m ==> z[i] == 0
  {
    seq(m, i => 0)
  }

  lemma {:induction false} LinZeros<P(!new)>(g: Group<P>, c: seq<int>, b: seq<P>)
    requires g.IsAbelian() && |c| == |b|
    requires forall i :: 0 <= i < |c| ==> c[i] == 0
    ensures g.Lin(c, b) == g.zero
  {
    if |c| > 0 {
      LinZeros(g, c[1..], b[1..]);
    }
  }

  // Adding d * b[j] to a combination adds d to its j-th coefficient.
  lemma {:induction false} LinBump<P(!new)>(g: Group<P>, c: seq<int>, b: seq<P>, j: nat, d: int)
    requires g.IsAbelian() && |c| == |b| && j < |c|
    ensures g.Lin(c[j := c[j] + d], b) == g.add(g.Lin(c, b), g.Times(d, b[j]))
  {
    var c' := c[j := c[j] + d];
    if j == 0 {
      assert c'[1..] == c[1..];
      TimesAdd(g, c[0], d, b[0]);
      var x, y, z := g.Times(c[0], b[0]), g.Times(d, b[0]), g.Lin(c[1..], b[1..]);
      Assoc(g, x, y, z);
      Comm(g, y, z);
      Assoc(g, x, z, y);
    } else {
      LinBump(g, c[1..], b[1..], j - 1, d);
      assert c'[1..] == c[1..][j - 1 := c[1..][j - 1] + d];
      Assoc(g, g.Times(c[0], b[0]), g.Lin(c[1..], b[1..]), g.Times(d, b[j]));
    }
  }

  // Coefficientwise sums give sums of combinations.
  lemma {:induction false} LinSum<P(!new)>(g: Group<P>, c: seq<int>, d: seq<int>, e: seq<int>, b: seq<P>)
    requires g.IsAbelian() && |c| == |d| == |e| == |b|
    requires forall i :: 0 <= i < |c| ==> e[i] == c[i] + d[i]
    ensures g.Lin(e, b) == g.add(g.Lin(c, b), g.Lin(d, b))
  {
    if |c| > 0 {
      LinSum(g, c[1..], d[1..], e[1..], b[1..]);
      TimesAdd(g, c[0], d[0], b[0]);
      Interchange(g, g.Times(c[0], b[0]), g.Times(d[0], b[0]), g.Lin(c[1..], b[1..]), g.Lin(d[1..], b[1..]));
    }
  }

  lemma {:induction false} LinScale<P(!new)>(g: Group<P>, k: int, c: seq<int>, d: seq<int>, b: seq<P>)
    requires g.IsAbelian() && |c| == |d| == |b|
    requires forall i :: 0 <= i < |c| ==> d[i] == k * c[i]
    ensures g.Lin(d, b) == g.Times(k, g.Lin(c, b))
  {
    if |c| == 0 {
      TimesZero(g, k);
    } else {
      LinScale(g, k, c[1..], d[1..], b[1..]);
      TimesTimes(g, k, c[0], b[0]);
      TimesSum(g, k, g.Times(c[0], b[0]), g.Lin(c[1..], b[1..]));
    }
  }

  // Coefficients matter only modulo the exponent, and not at all at the neutral element.
  lemma {:induction false} LinCong<P(!new)>(g: Group<P>, c: seq<int>, d: seq<int>, b: seq<P>, n: int)
    requires g.HasExponent(n) && |c| == |d| == |b|
    requires forall i :: 0 <= i < |c| ==> Cong(c[i], d[i], n) || b[i] == g.zero
    ensures g.Lin(c, b) == g.Lin(d, b)
  {
    if |c| > 0 {
      if b[0] == g.zero {
        TimesZero(g, c[0]);
        TimesZero(g, d[0]);
      } else {
        TimesCong(g, c[0], d[0], b[0], n);
      }
      LinCong(g, c[1..], d[1..], b[1..], n);
    }
  }

  lemma {:induction false} LinConcat<P(!new)>(g: Group<P>, c: seq<int>, d: seq<int>, b: seq<P>, e: seq<P>)
    requires g.IsAbelian() && |c| == |b| && |d| == |e|
    ensures g.Lin(c + d, b + e) == g.add(g.Lin(c, b), g.Lin(d, e))
  {
    if |c| == 0 {
      assert c + d == d && b + e == e;
      Comm(g, g.zero, g.Lin(d, e));
    } else {
      assert (c + d)[1..] == c[1..] + d && (b + e)[1..] == b[1..] + e;
      LinConcat(g, c[1..], d, b[1..], e);
      Assoc(g, g.Times(c[0], b[0]), g.Lin(c[1..], b[1..]), g.Lin(d, e));
    }
  }

  lemma {:induction false} LinOne<P(!new)>(g: Group<P>, k: int, a: P)
    requires g.IsAbelian()
    ensures g.Lin([k], [a]) == g.Times(k, a)
  {
    assert g.Lin([k][1..], [a][1..]) == g.zero;
  }

  lemma {:induction false} LinAppend<P(!new)>(g: Group<P>, c: seq<int>, b: seq<P>, k: int, p: P)
    requires g.IsAbelian() && |c| == |b|
    ensures g.Lin(c + [k], b + [p]) == g.add(g.Lin(c, b), g.Times(k, p))
  {
    LinConcat(g, c, [k], b, [p]);
    LinOne(g, k, p);
  }

  // Combinations taken over longer and longer prefixes.
  lemma {:induction false} LinPrefix<P(!new)>(g: Group<P>, c: seq<int>, b: seq<P>, k: nat)
    requires g.IsAbelian() && |c| == |b|
    ensures g.Lin(c[..0], b[..0]) == g.zero
    ensures k < |c| ==> g.Lin(c[..k + 1], b[..k + 1]) == g.add(g.Lin(c[..k], b[..k]), g.Times(c[k], b[k]))
    ensures k == |c| ==> c[..k] == c && b[..k] == b
  {
    if k < |c| {
      assert c[..k + 1] == c[..k] + [c[k]] && b[..k + 1] == b[..k] + [b[k]];
      LinAppend(g, c[..k], b[..k], c[k], b[k]);
    }
  }

  // Adding p to b[j] adds c[j] * p to the combination.
  lemma {:induction false} LinBumpPoint<P(!new)>(g: Group<P>, c: seq<int>, b: seq<P>, j: nat, p: P)
    requires g.IsAbelian() && |c| == |b| && j < |c|
    ensures g.Lin(c, b[j := g.add(b[j], p)]) == g.add(g.Lin(c, b), g.Times(c[j], p))
  {
    var b' := b[j := g.add(b[j], p)];
    if j == 0 {
      assert b'[1..] == b[1..];
      TimesSum(g, c[0], b[0], p);
      var x, y, z := g.Times(c[0], b[0]), g.Times(c[0], p), g.Lin(c[1..], b[1..]);
      Assoc(g, x, y, z);
      Comm(g, y, z);
      Assoc(g, x, z, y);
    } else {
      LinBumpPoint(g, c[1..], b[1..], j - 1, p);
      assert b'[1..] == b[1..][j - 1 := g.add(b[1..][j - 1], p)];
      Assoc(g, g.Times(c[0], b[0]), g.Lin(c[1..], b[1..]), g.Times(c[j], p));
    }
  }

  // Moving a combination under a new first point.
  lemma {:induction false} LinCons<P(!new)>(g: Group<P>, k: int, p: P, c: seq<int>, b: seq<P>)
    requires g.IsAbelian() && |c| == |b|
    ensures g.Lin([k] + c, [p] + b) == g.add(g.Times(k, p), g.Lin(c, b))
  {
    assert ([k] + c)[1..] == c && ([p] + b)[1..] == b;
  }

  // ---- the group laws are consistent: the residues modulo N ----

  type Residue = x: int | 0 <= x < N witness 0

  function AddResidues(a: Residue, b: Residue): Residue { (a + b) % N }

  function NegResidue(a: Residue): Residue { if a == 0 then 0 else N - a }

  const RESIDUES: Group<Residue> := Group(0, AddResidues, NegResidue)

  lemma {:induction false} ResidueTimes(k: nat, a: Residue)
    ensures RESIDUES.Times(k, a) == (k * a) % N
  {
    if k > 0 {
      ResidueTimes(k - 1, a);
      assert (k - 1) * a + a == k * a;
      CongMod((k - 1) * a, N);
      CongAdd(((k - 1) * a) % N, (k - 1) * a, a, a, N);
    }
  }

  lemma {:induction false} ResiduesHaveExponent()
    ensures RESIDUES.HasExponent(N)
  {
    forall a: Residue, b: Residue, c: Residue
      ensures RESIDUES.AssocAt(a, b, c)
    {
      CongMod(a + b, N);
      CongMod(b + c, N);
      CongAdd((a + b) % N, a + b, c, c, N);
      CongAdd(a, a, (b + c) % N, b + c, N);
    }
    forall a: Residue, b: Residue
      ensures RESIDUES.CommAt(a, b)
    {
    }
    forall a: Residue
      ensures RESIDUES.Times(N, a) == 0
    {
      ResidueTimes(N, a);
      DivModUnique(N * a, N, a, 0);
    }
  }
}
