// Normalization of ten-limb field elements, and the operations that rely on it.
module FieldNormalize {
  import opened Arith
  import opened Recoding
  import opened Limbs
  import opened Words
  import opened Field10x26

  // The value of ten limbs, written out.
  function Horner(a: seq<int>): int
    requires |a| == 10
  {
    a[0] + B * (a[1] + B * (a[2] + B * (a[3] + B * (a[4] + B * (a[5] + B * (a[6] + B * (a[7] + B * (a[8] + B * a[9]))))))))
  }

  lemma {:induction false} NumIsHorner(a: seq<int>)
    requires |a| == 10
    ensures Num(a) == Horner(a)
  {
    Radix();
    UpperLimbs(a);
    ValueTail(a, 26, 4);
    ValueTail(a, 26, 3);
    ValueTail(a, 26, 2);
    ValueTail(a, 26, 1);
    ValueTail(a, 26, 0);
    assert a[0..] == a;
  }

  lemma {:induction false} UpperLimbs(a: seq<int>)
    requires |a| == 10 && Pow2(26) == B
    ensures Value(a[5..], 26) == a[5] + B * (a[6] + B * (a[7] + B * (a[8] + B * a[9])))
  {
    ValueTail(a, 26, 10);
    ValueTail(a, 26, 9);
    ValueTail(a, 26, 8);
    ValueTail(a, 26, 7);
    ValueTail(a, 26, 6);
    ValueTail(a, 26, 5);
  }

  // Every limb fits, the top one may still carry past bit 256.
  ghost predicate IsRippled(t: seq<int>) {
    && |t| == 10 && (forall i :: 0 <= i < 9 ==> 0 <= t[i] <= M)
    && 0 <= t[9] < 0x800000
  }

  // The unique form: full limbs, below P.
  ghost predicate IsNormalized(t: seq<int>) {
    && |t| == 10 && (forall i :: 0 <= i < 9 ==> 0 <= t[i] <= M)
    && 0 <= t[9] <= M9 && Num(t) < P
  }

  // Adds x * (2^32 + 977) and carries from limb to limb (lines 52-61, 71-80).
  method Pass(t: seq<int>, x: int) returns (r: seq<int>)
    requires |t| == 10 && 0 <= x < 64
    requires forall i :: 0 <= i < 9 ==> 0 <= t[i] <= 62 * M
    requires 0 <= t[9] < 0x700000
    ensures IsRippled(r) && r[9] <= t[9] + 63
    ensures Num(r) == Num(t) + x * (0x1_0000_0000 + 977)
  {
    r := t[0 := W32(t[0] + W32(x * 0x3D1))][1 := W32(t[1] + W32(x * 64))];
    NumIsHorner(t);
    NumIsHorner(r);
    r := Carry(r, 0);
    r := Carry(r, 1);
    r := Carry(r, 2);
    r := Carry(r, 3);
    r := Carry(r, 4);
    r := Carry(r, 5);
    r := Carry(r, 6);
    r := Carry(r, 7);
    r := Carry(r, 8);
  }

  // The limbs below i are done, those above still wait for a carry.
  ghost predicate CarriedTo(t: seq<int>, i: nat) {
    && |t| == 10 && i <= 9
    && (forall j :: 0 <= j < i ==> 0 <= t[j] <= M)
    && (forall j :: i <= j < 10 ==> 0 <= t[j] < WORD32)
    && (forall j :: i < j < 10 ==> t[j] < WORD32 - 64)
  }

  // t[i+1] += t[i] >> 26; t[i] &= M
  method Carry(t: seq<int>, i: nat) returns (r: seq<int>)
    requires i < 9 && CarriedTo(t, i)
    ensures CarriedTo(r, i + 1) && t[i + 1] <= r[i + 1] <= t[i + 1] + 63
    ensures forall j :: i + 1 < j < 10 ==> r[j] == t[j]
    ensures Num(r) == Num(t)
  {
    var hi := W32(t[i + 1] + t[i] / B);
    var s := t[i + 1 := hi];
    r := s[i := t[i] % B];
    ValueUpdate(t, 26, i + 1, hi);
    ValueUpdate(s, 26, i, t[i] % B);
    CarryWeight(i, t[i]);
  }

  lemma {:induction false} CarryWeight(i: nat, x: nat)
    ensures Pow2(26 * (i + 1)) * (x / B) + Pow2(26 * i) * (x % B - x) == 0
  {
    Radix();
    assert 26 * (i + 1) == 26 * i + 26;
    Pow2Add(26 * i, 26);
    assert x == B * (x / B) + x % B;
    MulAssoc(Pow2(26 * i), B, x / B);
    MulDistrib(Pow2(26 * i), B * (x / B), x % B - x);
  }

  // The first pass: everything above bit 256 is folded down once.
  method FirstPass(a: seq<int>) returns (t: seq<int>, ghost k: int)
    requires HasMagnitude(a, 31)
    ensures IsRippled(t) && t[9] <= M9 + 63
    ensures Num(t) == Num(a) - k * P
  {
    var x := a[9] / 0x400000;
    k := x;
    var t9 := a[9] % 0x400000;
    t := Pass(a[9 := t9], x);
    NumIsHorner(a);
    NumIsHorner(a[9 := t9]);
  }

  // Lines 51-61: the conjunction of limbs 2 to 8.
  function Middle(t: seq<int>): nat
    requires IsRippled(t)
  {
    AndAll(t[2..9])
  }

  // Line 67: whether the value reaches P.
  function Overflows(t: seq<int>): bool
    requires IsRippled(t)
  {
    t[9] / 0x400000 == 1 || (t[9] == M9 && Middle(t) == M && W32(W32(t[1] + 0x40) + W32(t[0] + 0x3D1) / B) > M)
  }

  lemma {:induction false} OverflowsIsAtLeastP(t: seq<int>)
    requires IsRippled(t)
    ensures Overflows(t) <==> Num(t) >= P
  {
    Radix();
    NumIsHorner(t);
    MiddleIsFull(t);
    CompareP(t);
  }

  lemma {:induction false} MiddleIsFull(t: seq<int>)
    requires IsRippled(t)
    ensures Middle(t) == M <==> forall i :: 2 <= i < 9 ==> t[i] == M
  {
    Radix();
    MiddleLimbs(t, t[2..9]);
  }

  lemma {:induction false} MiddleLimbs(t: seq<int>, middle: seq<nat>)
    requires IsRippled(t) && middle == t[2..9] && Pow2(26) == B
    ensures AndAll(middle) == M <==> forall i :: 2 <= i < 9 ==> t[i] == M
  {
    AndAllOfThem(middle, 26);
    if forall j :: 0 <= j < 7 ==> middle[j] == M {
      forall i | 2 <= i < 9
        ensures t[i] == M
      {
        assert middle[i - 2] == M;
      }
    }
  }

  lemma {:induction false} CompareP(t: seq<int>)
    requires IsRippled(t)
    ensures Horner(t) >= P <==>
            t[9] >= 0x400000 || (t[9] == M9 && (forall i :: 2 <= i < 9 ==> t[i] == M) && t[0] + 0x3D1 + B * (t[1] + 0x40) >= B * B)
  {
    if i :| 2 <= i < 9 && t[i] < M {
      assert t[9] <= M9 ==> Horner(t) < P;
    }
  }

  // The final reduction, done always, with x either 0 or 1 (lines 69-88).
  method LastPass(t: seq<int>, x: int) returns (r: seq<int>)
    requires IsRippled(t) && t[9] <= M9 + 63 && x == if Overflows(t) then 1 else 0
    ensures IsNormalized(r) && Num(r) == Num(t) - x * P
  {
    var s := Pass(t, x);
    r := s[9 := s[9] % 0x400000];
    LastMask(t, s, r, x);
  }

  lemma {:induction false} LastMask(t: seq<int>, s: seq<int>, r: seq<int>, x: int)
    requires IsRippled(t) && t[9] <= M9 + 63 && x == if Overflows(t) then 1 else 0
    requires IsRippled(s) && Num(s) == Num(t) + x * (0x1_0000_0000 + 977)
    requires r == s[9 := s[9] % 0x400000]
    ensures IsNormalized(r) && Num(r) == Num(t) - x * P
  {
    OverflowsIsAtLeastP(t);
    RippledRange(t);
    RippledRange(s);
    MaskTop(s);
  }

  lemma {:induction false} MaskTop(s: seq<int>)
    requires IsRippled(s)
    ensures Num(s[9 := s[9] % 0x400000]) == Num(s) - (if s[9] >= 0x400000 then P + 0x1_0000_0000 + 977 else 0)
  {
    ValueUpdate(s, 26, 9, s[9] % 0x400000);
    NinthWeight();
    var excess := s[9] % 0x400000 - s[9];
    assert s[9] < 0x400000 ==> excess == 0;
    assert s[9] >= 0x400000 ==> excess == -0x400000;
  }

  lemma {:induction false} NinthWeight()
    ensures Pow2(26 * 9) * 0x400000 == P + 0x1_0000_0000 + 977
  {
    Radix();
    Pow2Add(26 * 9, 26);
  }

  lemma {:induction false} RippledRange(t: seq<int>)
    requires IsRippled(t)
    ensures 0 <= Num(t) && (t[9] <= M9 + 63 ==> Num(t) < 2 * P)
    ensures t[9] >= 0x400000 <==> Num(t) >= P + 0x1_0000_0000 + 977
  {
    NumIsHorner(t);
  }

  lemma {:induction false} Reduced(a: int, t: int, k: int)
    requires t == a - k * P && 0 <= t < P
    ensures t == a % P
  {
    DivModUnique(a, P, k, t);
  }

  // secp256k1_fe_normalize: the representative in [0, P).
  method Normalize(r: array<int>)
    requires HasMagnitude(r[..], 31)
    modifies r
    ensures IsNormalized(r[..]) && Num(r[..]) == old(Num(r[..])) % P
  {
    ghost var a := r[..];
    ghost var k;
    var t;
    t, k := FirstPass(r[..]);
    var x := if Overflows(t) then 1 else 0;
    t := LastPass(t, x);
    RippledRange(t);
    Reduced(Num(a), Num(t), k + x);
    Store(r, t);
  }

  // secp256k1_fe_normalize_var: the final reduction only when needed.
  method NormalizeVar(r: array<int>)
    requires HasMagnitude(r[..], 31)
    modifies r
    ensures IsNormalized(r[..]) && Num(r[..]) == old(Num(r[..])) % P
  {
    ghost var a := r[..];
    ghost var k;
    var t;
    t, k := FirstPass(r[..]);
    OverflowsIsAtLeastP(t);
    if Overflows(t) {
      t := LastPass(t, 1);
      k := k + 1;
    } else {
      NumIsHorner(t);
    }
    RippledRange(t);
    Reduced(Num(a), Num(t), k);
    Store(r, t);
  }

  // secp256k1_fe_normalize_weak: magnitude 1, the residue kept.
  method NormalizeWeak(r: array<int>)
    requires HasMagnitude(r[..], 31)
    modifies r
    ensures HasMagnitude(r[..], 1) && Cong(Num(r[..]), old(Num(r[..])), P)
  {
    ghost var a := r[..];
    ghost var k;
    var t;
    t, k := FirstPass(r[..]);
    CongIntro(Num(t), Num(a), -k, P);
    Store(r, t);
  }

  // ---- the test for zero ----

  // Lines 228-238: z0 gathers every set bit, z1 every bit that agrees with P.
  function ZeroBits(t: seq<int>): nat
    requires IsRippled(t)
  {
    OrAll(t)
  }

  function AgreementWithP(t: seq<int>): (s: seq<nat>)
    requires IsRippled(t)
    ensures |s| == 10
  {
    [Xor(t[0], 0x3D0), Xor(t[1], 0x40), t[2], t[3], t[4], t[5], t[6], t[7], t[8], Xor(t[9], 0x3C00000)]
  }

  function PBits(t: seq<int>): nat
    requires IsRippled(t)
  {
    AndAll(AgreementWithP(t))
  }

  lemma {:induction false} PBitsAreFull(t: seq<int>)
    requires IsRippled(t)
    ensures PBits(t) == M <==> t == P_LIMBS
  {
    Radix();
    var s := AgreementWithP(t);
    XorAllOnes(t[0], 0x3D0, 26);
    XorAllOnes(t[1], 0x40, 26);
    XorAllOnes(t[9], 0x3C00000, 26);
    AgreementLimbs(t, s);
  }

  lemma {:induction false} AgreementLimbs(t: seq<int>, s: seq<nat>)
    requires |t| == |s| == 10 && Pow2(26) == B
    requires forall i :: 2 <= i < 9 ==> 0 <= t[i] == s[i] <= M
    requires s[0] <= M && s[1] <= M && s[9] <= M
    requires (s[0] == M <==> t[0] == P_LIMBS[0]) && (s[1] == M <==> t[1] == P_LIMBS[1]) && (s[9] == M <==> t[9] == P_LIMBS[9])
    ensures AndAll(s) == M <==> t == P_LIMBS
  {
    forall i | 0 <= i < 10
      ensures s[i] < B && (s[i] == M <==> t[i] == P_LIMBS[i])
    {
      assert 2 <= i < 9 ==> s[i] == t[i];
    }
    AndAllOfThem(s, 26);
  }

  lemma {:induction false} OnlyZeroAndP(t: seq<int>)
    requires IsRippled(t) && t[9] <= M9 + 63
    ensures ZeroBits(t) == 0 || PBits(t) == M <==> Num(t) % P == 0
  {
    OrAllZero(t);
    PBitsAreFull(t);
    HornerZero(t);
    HornerP(t);
    RippledRange(t);
    MultipleBelowTwoP(Num(t));
  }

  lemma {:induction false} MultipleBelowTwoP(x: int)
    requires 0 <= x < 2 * P
    ensures x % P == 0 <==> x == 0 || x == P
  {
  }

  lemma {:induction false} HornerZero(t: seq<int>)
    requires IsRippled(t)
    ensures Num(t) == 0 <==> forall i :: 0 <= i < 10 ==> t[i] == 0
  {
    NumIsHorner(t);
  }

  lemma {:induction false} HornerP(t: seq<int>)
    requires IsRippled(t)
    ensures Num(t) == P <==> t == P_LIMBS
  {
    Radix();
    NumIsHorner(P_LIMBS);
    if Num(t) == P {
      ValueUnique(t, P_LIMBS, 26);
    }
  }

  // secp256k1_fe_normalizes_to_zero
  method NormalizesToZero(r: seq<int>) returns (zero: bool)
    requires HasMagnitude(r, 31)
    ensures zero <==> Num(r) % P == 0
  {
    ghost var k;
    var t;
    t, k := FirstPass(r);
    zero := ZeroBits(t) == 0 || PBits(t) == M;
    OnlyZeroAndP(t);
    CongIntro(Num(t), Num(r), -k, P);
  }

  // ---- sums and negations ----

  // secp256k1_fe_negate: P - a, up to the multiple that keeps every limb positive.
  method Negate(a: seq<int>, m: nat) returns (r: seq<int>)
    requires HasMagnitude(a, m) && m <= 31
    ensures HasMagnitude(r, m + 1) && Cong(Num(r), -Num(a), P)
  {
    var k := 2 * (m + 1);
    r := seq(10, i requires 0 <= i < 10 => W32(W32(P_LIMBS[i] * k) - a[i]));
    NegatedLimbs(a, m, r);
  }

  // P in limbs.
  const P_LIMBS: seq<int> := [0x3FFFC2F, 0x3FFFFBF, M, M, M, M, M, M, M, M9]

  lemma {:induction false} NegatedLimbs(a: seq<int>, m: nat, r: seq<int>)
    requires HasMagnitude(a, m) && m <= 31
    requires |r| == 10 && forall i :: 0 <= i < 10 ==> r[i] == W32(W32(P_LIMBS[i] * (2 * (m + 1))) - a[i])
    ensures HasMagnitude(r, m + 1) && Cong(Num(r), -Num(a), P)
  {
    var k := 2 * (m + 1);
    forall i | 0 <= i < 10
      ensures r[i] == P_LIMBS[i] * k - a[i] && 0 <= r[i] <= (if i < 9 then M else M9) * k
    {
      NegatedLimb(P_LIMBS[i], if i < 9 then M else M9, a[i], m);
    }
    NegatedSum(a, r, k);
  }

  lemma {:induction false} NegatedSum(a: seq<int>, r: seq<int>, k: int)
    requires |a| == |r| == 10 && forall i :: 0 <= i < 10 ==> r[i] == P_LIMBS[i] * k - a[i]
    ensures Cong(Num(r), -Num(a), P)
  {
    var all := seq(10, i requires 0 <= i < 10 => P_LIMBS[i] * k);
    ValueSum(a, r, all, 26);
    ValueScale(P_LIMBS, all, 26, k);
    NumIsHorner(P_LIMBS);
    CongIntro(Num(r), -Num(a), k, P);
  }

  lemma {:induction false} NegatedLimb(c: int, top: int, x: int, m: nat)
    requires top == M || (top == M9 && c == M9)
    requires top == M ==> c == M - 0x3D0 || c == M - 0x40 || c == M
    requires 0 <= x <= top * (2 * m) && m <= 31
    ensures W32(W32(c * (2 * (m + 1))) - x) == c * (2 * (m + 1)) - x
    ensures 0 <= c * (2 * (m + 1)) - x <= top * (2 * (m + 1))
  {
    if c == M {
    } else if c == M9 {
    } else if c == M - 0x40 {
    } else {
    }
  }

  // secp256k1_fe_add
  method Add(r: array<int>, a: seq<int>, ghost m: nat, ghost k: nat)
    requires HasMagnitude(r[..], m) && HasMagnitude(a, k) && m + k <= 32
    modifies r
    ensures HasMagnitude(r[..], m + k) && Num(r[..]) == old(Num(r[..])) + Num(a)
  {
    ghost var r0 := r[..];
    forall i | 0 <= i < 10 {
      r[i] := W32(r[i] + a[i]);
    }
    SumOfLimbs(r0, a, m, k, r[..]);
  }

  lemma {:induction false} SumOfLimbs(a: seq<int>, b: seq<int>, m: nat, k: nat, r: seq<int>)
    requires HasMagnitude(a, m) && HasMagnitude(b, k) && m + k <= 32
    requires |r| == 10 && forall i :: 0 <= i < 10 ==> r[i] == W32(a[i] + b[i])
    ensures HasMagnitude(r, m + k) && Num(r) == Num(a) + Num(b)
  {
    forall i | 0 <= i < 10
      ensures r[i] == a[i] + b[i]
    {
    }
    ValueSum(a, b, r, 26);
  }

  // secp256k1_fe_equal: the difference normalizes to zero.
  method Equal(a: seq<int>, b: seq<int>, ghost m: nat) returns (equal: bool)
    requires HasMagnitude(a, 1) && HasMagnitude(b, m) && m <= 29
    ensures equal <==> Cong(Num(a), Num(b), P)
  {
    var na := Negate(a, 1);
    var sum := new int[10](i requires 0 <= i < 10 => na[i]);
    assert sum[..] == na;
    Add(sum, b, 2, m);
    equal := NormalizesToZero(sum[..]);
    DifferenceIsZero(Num(a), Num(b), Num(na), Num(sum[..]));
  }

  lemma {:induction false} DifferenceIsZero(a: int, b: int, na: int, d: int)
    requires Cong(na, -a, P) && d == na + b
    ensures d % P == 0 <==> Cong(a, b, P)
  {
    CongAdd(na, -a, b, b, P);
    if d % P == 0 {
      CongAdd(b - a, 0, a, a, P);
    }
    if Cong(a, b, P) {
      CongAdd(b, a, a, a, P);
    }
  }

  // The normalized form is unique: equal residues have equal limbs.
  lemma {:induction false} NormalizedIsUnique(a: seq<int>, b: seq<int>)
    requires IsNormalized(a) && IsNormalized(b) && Cong(Num(a), Num(b), P)
    ensures a == b
  {
    RippledRange(a);
    RippledRange(b);
    ModSmall(Num(a), P);
    ModSmall(Num(b), P);
    Radix();
    ValueUnique(a, b, 26);
  }

  // secp256k1_fe_cmp_var: limbs compared from the top.
  method CompareVar(a: seq<int>, b: seq<int>) returns (c: int)
    requires IsNormalized(a) && IsNormalized(b)
    ensures c == if Num(a) > Num(b) then 1 else if Num(a) < Num(b) then -1 else 0
  {
    Radix();
    var i := 9;
    while i >= 0
      invariant -1 <= i <= 9
      invariant forall j :: i < j < 10 ==> a[j] == b[j]
    {
      if a[i] > b[i] {
        TopLimbDecides(b, a, 26, i);
        return 1;
      }
      if a[i] < b[i] {
        TopLimbDecides(a, b, 26, i);
        return -1;
      }
      i := i - 1;
    }
    assert a == b;
    return 0;
  }
}
