// The S-box of FIPS 197, section 5.1.1: inversion in the field of 256 elements
// and then an affine map. The gates of the code compute exactly this.
module AesField {
  import opened Aes

  const ONE: Bits := Bits(true, false, false, false, false, false, false, false)

  // {02} = x and {03} = x + 1
  const TWO: Bits := Bits(false, true, false, false, false, false, false, false)
  const THREE: Bits := Bits(true, true, false, false, false, false, false, false)

  // ---- the field ----

  // The sum of those x_i for which bit i of b is set.
  function Dot(b: Bits, x0: bool, x1: bool, x2: bool, x3: bool, x4: bool, x5: bool, x6: bool, x7: bool): bool {
    (((b.b0 && x0) != (b.b1 && x1)) != ((b.b2 && x2) != (b.b3 && x3)))
    != (((b.b4 && x4) != (b.b5 && x5)) != ((b.b6 && x6) != (b.b7 && x7)))
  }

  // Multiplication modulo x^8 + x^4 + x^3 + x + 1 (section 4.2): the sum of
  // those a * x^k for which bit k of b is set. Bit i of a * x^k is p_ki, unless
  // it is a bit of a * x^(k-1) moved up.
  function Times(a: Bits, b: Bits): Bits {
    var Bits(a0, a1, a2, a3, a4, a5, a6, a7) := a;
    var p11 := a0 != a7;
    var p13 := a2 != a7;
    var p14 := a3 != a7;
    var p21 := a7 != a6;
    var p23 := a1 != a6;
    var p24 := p13 != a6;
    var p31 := a6 != a5;
    var p33 := p11 != a5;
    var p34 := p23 != a5;
    var p41 := a5 != a4;
    var p43 := p21 != a4;
    var p44 := p33 != a4;
    var p51 := a4 != p14;
    var p53 := p31 != p14;
    var p54 := p43 != p14;
    var p61 := p14 != p24;
    var p63 := p41 != p24;
    var p64 := p53 != p24;
    var p71 := p24 != p34;
    var p73 := p51 != p34;
    var p74 := p63 != p34;
    Bits(Dot(b, a0, a7, a6, a5, a4, p14, p24, p34),
         Dot(b, a1, p11, p21, p31, p41, p51, p61, p71),
         Dot(b, a2, a1, p11, p21, p31, p41, p51, p61),
         Dot(b, a3, p13, p23, p33, p43, p53, p63, p73),
         Dot(b, a4, p14, p24, p34, p44, p54, p64, p74),
         Dot(b, a5, a4, p14, p24, p34, p44, p54, p64),
         Dot(b, a6, a5, a4, p14, p24, p34, p44, p54),
         Dot(b, a7, a6, a5, a4, p14, p24, p34, p44))
  }

  // The elements the standard writes {01}, {02}, {03} and {63}.
  lemma {:induction false} Elements()
    ensures FromBits(ONE) == 0x01 && FromBits(TWO) == 0x02 && FromBits(THREE) == 0x03 && FromBits(Affine(ZERO)) == 0x63
  {
    BitWeights(ONE);
    BitWeights(TWO);
    BitWeights(THREE);
    BitWeights(Affine(ZERO));
  }

  // Multiplication by x is the step the code uses.
  lemma {:induction false} TimesX(a: Bits)
    ensures Times(a, TWO) == MultX(a)
  {
  }

  // t is the inverse of s, zero being taken to itself.
  predicate IsInverse(s: Bits, t: Bits) { if s == ZERO then t == ZERO else Times(s, t) == ONE }

  // Bit i of the result is the sum of bits i, i+4, i+5, i+6 and i+7 modulo 8 and of bit i of {63}.
  function Affine(t: Bits): Bits {
    Bits(!Odd(t.b0, t.b4, t.b5, t.b6, t.b7), !Odd(t.b1, t.b5, t.b6, t.b7, t.b0), Odd(t.b2, t.b6, t.b7, t.b0, t.b1),
         Odd(t.b3, t.b7, t.b0, t.b1, t.b2), Odd(t.b4, t.b0, t.b1, t.b2, t.b3), !Odd(t.b5, t.b1, t.b2, t.b3, t.b4),
         !Odd(t.b6, t.b2, t.b3, t.b4, t.b5), Odd(t.b7, t.b3, t.b4, t.b5, t.b6))
  }

  function Odd(a: bool, b: bool, c: bool, d: bool, e: bool): bool { (((a != b) != c) != d) != e }

  // The inverse map: bits i+2, i+5 and i+7 and bit i of {05}.
  function Unaffine(r: Bits): Bits {
    Bits(!((r.b2 != r.b5) != r.b7), (r.b3 != r.b6) != r.b0, !((r.b4 != r.b7) != r.b1), (r.b5 != r.b0) != r.b2,
         (r.b6 != r.b1) != r.b3, (r.b7 != r.b2) != r.b4, (r.b0 != r.b3) != r.b5, (r.b1 != r.b4) != r.b6)
  }

  lemma {:induction false} AffineUndone(t: Bits)
    ensures Unaffine(Affine(t)) == t
  {
    if t.b7 { if t.b6 { } else { } } else { }
  }

  lemma {:induction false} UnaffineUndone(r: Bits)
    ensures Affine(Unaffine(r)) == r
  {
    if r.b7 { if r.b6 { } else { } } else { }
  }

  // What the gates compute before the affine map.
  function Inverse(s: Bits): Bits { Unaffine(SubBits(s)) }

  lemma {:induction false} TimesInverse(s: Bits)
    requires s != ZERO
    ensures Times(s, Inverse(s)) == ONE
  {
    if s.b7 { if s.b6 { } else { } } else { }
  }

  // Nothing else is inverse to s, by the two top bits of s.
  lemma {:induction false} OnlyInverse(s: Bits, t: Bits)
    requires s != ZERO && Times(s, t) == ONE
    ensures t == Inverse(s)
  {
    if s.b7 && s.b6 {
      OnlyInverse3(s, t);
    } else if s.b7 {
      OnlyInverse2(s, t);
    } else if s.b6 {
      OnlyInverse1(s, t);
    } else {
      OnlyInverse0(s, t);
    }
  }

  lemma {:induction false} OnlyInverse0(s: Bits, t: Bits)
    requires s != ZERO && !s.b7 && !s.b6 && Times(s, t) == ONE
    ensures t == Inverse(s)
  {
  }

  lemma {:induction false} OnlyInverse1(s: Bits, t: Bits)
    requires !s.b7 && s.b6 && Times(s, t) == ONE
    ensures t == Inverse(s)
  {
  }

  lemma {:induction false} OnlyInverse2(s: Bits, t: Bits)
    requires s.b7 && !s.b6 && Times(s, t) == ONE
    ensures t == Inverse(s)
  {
  }

  lemma {:induction false} OnlyInverse3(s: Bits, t: Bits)
    requires s.b7 && s.b6 && Times(s, t) == ONE
    ensures t == Inverse(s)
  {
  }

  lemma {:induction false} InverseOfZero()
    ensures Inverse(ZERO) == ZERO
  {
  }

  lemma {:induction false} InverseIsInverse(s: Bits, t: Bits)
    ensures IsInverse(s, t) <==> t == Inverse(s)
  {
    if s == ZERO {
      InverseOfZero();
    } else {
      TimesInverse(s);
      if Times(s, t) == ONE {
        OnlyInverse(s, t);
      }
    }
  }

  lemma {:induction false} AffineIsBijective(r: Bits, t: Bits)
    ensures r == Affine(t) <==> t == Unaffine(r)
  {
    AffineUndone(t);
    UnaffineUndone(r);
  }

  // The circuit is the S-box of the standard: its value is the affine map of
  // the inverse of its argument, and of nothing else.
  lemma {:induction false} SubBitsIsSbox(s: Bits, t: Bits)
    ensures IsInverse(s, t) <==> SubBits(s) == Affine(t)
  {
    InverseIsInverse(s, t);
    AffineIsBijective(SubBits(s), t);
  }

  lemma {:induction false} TimesThree(a: Bits)
    ensures Times(a, THREE) == Plus(a, MultX(a))
  {
  }
}
