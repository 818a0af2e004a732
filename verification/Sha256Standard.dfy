// SHA-256 as FIPS 180-4 has it: the functions of section 4.1.2, the constants of
// section 4.2.2 and the initial value of section 5.3.3, and that those of the
// code are the same.
module Sha256Standard {
  import opened Roots
  import opened Sha256Rounds

  // ---- the functions ----

  function ChStd(x: bv32, y: bv32, z: bv32): bv32 { (x & y) ^ (!x & z) }

  function MajStd(x: bv32, y: bv32, z: bv32): bv32 { (x & y) ^ (x & z) ^ (y & z) }

  function BigSigma0Std(x: bv32): bv32 { x.RotateRight(2) ^ x.RotateRight(13) ^ x.RotateRight(22) }

  function BigSigma1Std(x: bv32): bv32 { x.RotateRight(6) ^ x.RotateRight(11) ^ x.RotateRight(25) }

  function Sigma0Std(x: bv32): bv32 { x.RotateRight(7) ^ x.RotateRight(18) ^ (x >> 3) }

  function Sigma1Std(x: bv32): bv32 { x.RotateRight(17) ^ x.RotateRight(19) ^ (x >> 10) }

  const STANDARD: Ops<bv32> := Ops((a, b) => a + b, ChStd, MajStd, BigSigma0Std, BigSigma1Std, Sigma0Std, Sigma1Std, Constant)

  lemma {:induction false} ChIsStd(x: bv32, y: bv32, z: bv32)
    ensures Ch(x, y, z) == ChStd(x, y, z)
  {
    Choice(x, y, z);
  }

  lemma {:induction false} Choice(x: bv32, y: bv32, z: bv32)
    ensures z ^ (x & (y ^ z)) == (x & y) ^ (!x & z)
  {
  }

  lemma {:induction false} MajIsStd(x: bv32, y: bv32, z: bv32)
    ensures Maj(x, y, z) == MajStd(x, y, z)
  {
    Majority(x, y, z);
  }

  lemma {:induction false} Majority(x: bv32, y: bv32, z: bv32)
    ensures (x & y) | (z & (x | y)) == (x & y) ^ (x & z) ^ (y & z)
  {
  }

  lemma {:induction false} BigSigmaIsStd(x: bv32)
    ensures BigSigma0(x) == BigSigma0Std(x) && BigSigma1(x) == BigSigma1Std(x)
  {
  }

  lemma {:induction false} SigmaIsStd(x: bv32)
    ensures Sigma0(x) == Sigma0Std(x) && Sigma1(x) == Sigma1Std(x)
  {
  }

  // ---- operations that agree ----

  ghost predicate AgreeAt<W(!new)>(o: Ops<W>, p: Ops<W>, x: W, y: W, z: W) {
    && o.add(x, y) == p.add(x, y) && o.ch(x, y, z) == p.ch(x, y, z) && o.maj(x, y, z) == p.maj(x, y, z)
    && o.bigSigma0(x) == p.bigSigma0(x) && o.bigSigma1(x) == p.bigSigma1(x)
    && o.sigma0(x) == p.sigma0(x) && o.sigma1(x) == p.sigma1(x)
  }

  ghost predicate Agree<W(!new)>(o: Ops<W>, p: Ops<W>) {
    (forall x, y, z :: AgreeAt(o, p, x, y, z)) && forall t :: o.k(t) == p.k(t)
  }

  lemma {:induction false} MacrosAreStd()
    ensures Agree(SHA256, STANDARD)
  {
    forall x, y, z
      ensures AgreeAt(SHA256, STANDARD, x, y, z)
    {
      ChIsStd(x, y, z);
      MajIsStd(x, y, z);
      BigSigmaIsStd(x);
      SigmaIsStd(x);
    }
  }

  lemma {:induction false} SameSchedule<W(!new)>(o: Ops<W>, p: Ops<W>, chunk: seq<W>, t: nat)
    requires Agree(o, p) && |chunk| == 16
    ensures Schedule(o, chunk, t) == Schedule(p, chunk, t)
  {
    if t >= 16 {
      SameSchedule(o, p, chunk, t - 2);
      SameSchedule(o, p, chunk, t - 7);
      SameSchedule(o, p, chunk, t - 15);
      SameSchedule(o, p, chunk, t - 16);
      SameSum(o, p, Schedule(o, chunk, t - 2), Schedule(o, chunk, t - 7), Schedule(o, chunk, t - 15), Schedule(o, chunk, t - 16));
    }
  }

  lemma {:induction false} SameSum<W(!new)>(o: Ops<W>, p: Ops<W>, a: W, b: W, c: W, d: W)
    requires Agree(o, p)
    ensures o.add(o.add(o.add(o.sigma1(a), b), o.sigma0(c)), d) == p.add(p.add(p.add(p.sigma1(a), b), p.sigma0(c)), d)
  {
    assert AgreeAt(o, p, a, a, a) && AgreeAt(o, p, c, c, c);
    var x := o.add(o.sigma1(a), b);
    assert AgreeAt(o, p, o.sigma1(a), b, b) && AgreeAt(o, p, x, o.sigma0(c), c) && AgreeAt(o, p, o.add(x, o.sigma0(c)), d, d);
  }

  lemma {:induction false} SameStep<W(!new)>(o: Ops<W>, p: Ops<W>, v: seq<W>, k: W, w: W)
    requires Agree(o, p) && |v| == 8
    ensures Step(o, v, k, w) == Step(p, v, k, w)
  {
    assert AgreeAt(o, p, v[4], v[5], v[6]) && AgreeAt(o, p, v[0], v[1], v[2]);
    var h1 := o.add(v[7], o.bigSigma1(v[4]));
    assert AgreeAt(o, p, v[7], o.bigSigma1(v[4]), k);
    var h2 := o.add(h1, o.ch(v[4], v[5], v[6]));
    assert AgreeAt(o, p, h1, o.ch(v[4], v[5], v[6]), k);
    assert AgreeAt(o, p, h2, k, k) && AgreeAt(o, p, o.add(h2, k), w, w);
    var t1 := o.add(o.add(h2, k), w);
    var t2 := o.add(o.bigSigma0(v[0]), o.maj(v[0], v[1], v[2]));
    assert AgreeAt(o, p, o.bigSigma0(v[0]), o.maj(v[0], v[1], v[2]), k);
    assert AgreeAt(o, p, t1, t2, k) && AgreeAt(o, p, v[3], t1, k);
  }

  lemma {:induction false} SameRounds<W(!new)>(o: Ops<W>, p: Ops<W>, s: seq<W>, chunk: seq<W>, t: nat)
    requires Agree(o, p) && |s| == 8 && |chunk| == 16
    ensures Rounds(o, s, chunk, t) == Rounds(p, s, chunk, t)
  {
    if t > 0 {
      SameRounds(o, p, s, chunk, t - 1);
      SameSchedule(o, p, chunk, t - 1);
      SameStep(o, p, Rounds(o, s, chunk, t - 1), o.k(t - 1), Schedule(o, chunk, t - 1));
    }
  }

  // What the macros compress to is what the standard does.
  lemma {:induction false} SameCompress<W(!new)>(o: Ops<W>, p: Ops<W>, s: seq<W>, chunk: seq<W>)
    requires Agree(o, p) && |s| == 8 && |chunk| == 16
    ensures Compress(o, s, chunk) == Compress(p, s, chunk)
  {
    SameRounds(o, p, s, chunk, 64);
    forall i | 0 <= i < 8
      ensures AddAll(o, s, Rounds(o, s, chunk, 64))[i] == AddAll(p, s, Rounds(p, s, chunk, 64))[i]
    {
      assert AgreeAt(o, p, s[i], Rounds(o, s, chunk, 64)[i], s[i]);
    }
  }

  // ---- the constants ----

  predicate RootAt(t: nat)
    requires t < 64
  {
    CubeRootStarts(CubeFloor(Prime(t)), Constant(t) as int, Prime(t))
  }

  // Constant t is the first 32 bits of the fractional part of the cube root of prime t.
  lemma {:induction false} ConstantsAreRoots(t: nat)
    requires t < 64
    ensures IsCubeRootFraction(Constant(t) as int, Prime(t))
  {
    var f := (k: nat) => k < 64 && RootAt(k);
    RowsAreRoots(f, t / 8);
    OneOfEight(f, t, t / 8 * 8);
  }

  lemma {:induction false} RowsAreRoots(f: nat -> bool, k: nat)
    requires k < 8 && forall t: nat :: f(t) == (t < 64 && RootAt(t))
    ensures AllEight(f, 8 * k)
  {
    if k == 0 { Row0(); } else if k == 1 { Row1(); } else if k == 2 { Row2(); } else if k == 3 { Row3(); }
    else if k == 4 { Row4(); } else if k == 5 { Row5(); } else if k == 6 { Row6(); } else { Row7(); }
  }

  lemma {:induction false} Row0()
    ensures RootAt(0) && RootAt(1) && RootAt(2) && RootAt(3) && RootAt(4) && RootAt(5) && RootAt(6) && RootAt(7)
  {
  }

  lemma {:induction false} Row1()
    ensures RootAt(8) && RootAt(9) && RootAt(10) && RootAt(11) && RootAt(12) && RootAt(13) && RootAt(14) && RootAt(15)
  {
  }

  lemma {:induction false} Row2()
    ensures RootAt(16) && RootAt(17) && RootAt(18) && RootAt(19) && RootAt(20) && RootAt(21) && RootAt(22) && RootAt(23)
  {
  }

  lemma {:induction false} Row3()
    ensures RootAt(24) && RootAt(25) && RootAt(26) && RootAt(27) && RootAt(28) && RootAt(29) && RootAt(30) && RootAt(31)
  {
  }

  lemma {:induction false} Row4()
    ensures RootAt(32) && RootAt(33) && RootAt(34) && RootAt(35) && RootAt(36) && RootAt(37) && RootAt(38) && RootAt(39)
  {
  }

  lemma {:induction false} Row5()
    ensures RootAt(40) && RootAt(41) && RootAt(42) && RootAt(43) && RootAt(44) && RootAt(45) && RootAt(46) && RootAt(47)
  {
  }

  lemma {:induction false} Row6()
    ensures RootAt(48) && RootAt(49) && RootAt(50) && RootAt(51) && RootAt(52) && RootAt(53) && RootAt(54) && RootAt(55)
  {
  }

  lemma {:induction false} Row7()
    ensures RootAt(56) && RootAt(57) && RootAt(58) && RootAt(59) && RootAt(60) && RootAt(61) && RootAt(62) && RootAt(63)
  {
  }

  // The initial hash value.
  const INITIAL: seq<bv32> := [0x6a09e667, 0xbb67ae85, 0x3c6ef372, 0xa54ff53a, 0x510e527f, 0x9b05688c, 0x1f83d9ab, 0x5be0cd19]

  predicate InitialRootAt(t: nat)
    requires t < 8
  {
    SquareRootStarts(SquareFloor(Prime(t)), INITIAL[t] as int, Prime(t), 0x1_0000_0000)
  }

  // Its words are the first 32 bits of the fractional parts of the square roots of the first eight primes.
  lemma {:induction false} InitialIsRoots(t: nat)
    requires t < 8
    ensures IsSquareRootFraction(INITIAL[t] as int, Prime(t), 0x1_0000_0000)
  {
    var f := (k: nat) => k < 8 && InitialRootAt(k);
    InitialRow();
    assert AllEight(f, 0);
    OneOfEight(f, t, 0);
  }

  lemma {:induction false} InitialRow()
    ensures InitialRootAt(0) && InitialRootAt(1) && InitialRootAt(2) && InitialRootAt(3)
    ensures InitialRootAt(4) && InitialRootAt(5) && InitialRootAt(6) && InitialRootAt(7)
  {
  }
}
