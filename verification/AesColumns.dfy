// The linear layer of AES over any addition in which everything is its own
// negative, and any multiplication by x that respects it.
module AesColumns {
  import opened Groups

  // Sixteen bytes, position 4*r + c for row r and column c.
  predicate IsBlock<B>(s: seq<B>) { |s| == 16 }

  ghost predicate LinearAt<B(!new)>(g: Group<B>, mx: B -> B, a: B, b: B) { mx(g.add(a, b)) == g.add(mx(a), mx(b)) }

  // The laws of the byte arithmetic that mixing relies on.
  ghost predicate IsByteArithmetic<B(!new)>(g: Group<B>, mx: B -> B) {
    && g.IsAbelian()
    && (forall a :: g.add(a, a) == g.zero)
    && (forall a, b :: LinearAt(g, mx, a, b))
  }

  // AddRoundKey
  function AddAll<B(!new)>(g: Group<B>, s: seq<B>, k: seq<B>): (r: seq<B>)
    requires IsBlock(s) && IsBlock(k)
    ensures IsBlock(r)
  {
    seq(16, i requires 0 <= i < 16 => g.add(s[i], k[i]))
  }

  function MapAll<B, C>(f: B -> C, s: seq<B>): (r: seq<C>)
    requires IsBlock(s)
    ensures IsBlock(r)
  {
    seq(16, i requires 0 <= i < 16 => f(s[i]))
  }

  // ROT: the rows move up by b.
  function Rot<B>(s: seq<B>, b: nat): (r: seq<B>)
    requires IsBlock(s) && b <= 4
    ensures IsBlock(r)
  {
    s[4 * b..] + s[..4 * b]
  }

  // MixColumns(s, 0): s_123 + {02} * s_01
  function Mix<B(!new)>(g: Group<B>, mx: B -> B, s: seq<B>): (r: seq<B>)
    requires IsBlock(s)
    ensures IsBlock(r)
  {
    var s01 := AddAll(g, s, Rot(s, 1));
    var s123 := AddAll(g, Rot(s01, 1), Rot(s, 3));
    AddAll(g, s123, MapAll(mx, s01))
  }

  // The multiplication by {04}x^2 + {05}: s + {04} * (s + Rot(s, 2))
  function Four<B(!new)>(g: Group<B>, mx: B -> B, s: seq<B>): (r: seq<B>)
    requires IsBlock(s)
    ensures IsBlock(r)
  {
    AddAll(g, s, MapAll(mx, MapAll(mx, AddAll(g, s, Rot(s, 2)))))
  }

  // MixColumns
  function MixColumns<B(!new)>(g: Group<B>, mx: B -> B, s: seq<B>, inv: bool): (r: seq<B>)
    requires IsBlock(s)
    ensures IsBlock(r)
  {
    if inv then Four(g, mx, Mix(g, mx, s)) else Mix(g, mx, s)
  }

  lemma {:induction false} AddAllTwice<B(!new)>(g: Group<B>, mx: B -> B, s: seq<B>, k: seq<B>)
    requires IsByteArithmetic(g, mx) && IsBlock(s) && IsBlock(k)
    ensures AddAll(g, AddAll(g, s, k), k) == s
  {
    forall i | 0 <= i < 16
      ensures AddAll(g, AddAll(g, s, k), k)[i] == s[i]
    {
      Assoc(g, s[i], k[i], k[i]);
    }
  }

  // ---- sums of bytes ----

  // (a + p) + (p + f) == a + f
  lemma {:induction false} Cancels<B(!new)>(g: Group<B>, mx: B -> B, a: B, p: B, f: B)
    requires IsByteArithmetic(g, mx)
    ensures g.add(g.add(a, p), g.add(p, f)) == g.add(a, f)
  {
    Assoc(g, a, p, g.add(p, f));
    Assoc(g, p, p, f);
    Comm(g, g.zero, f);
  }

  // One byte of the mixed block, from its column read downwards.
  function Mixed<B(!new)>(g: Group<B>, mx: B -> B, a: B, b: B, c: B, d: B): B {
    g.add(g.add(g.add(b, c), d), mx(g.add(a, b)))
  }

  lemma {:induction false} TwoMixed<B(!new)>(g: Group<B>, mx: B -> B, a: B, b: B, c: B, d: B)
    requires IsByteArithmetic(g, mx)
    ensures g.add(Mixed(g, mx, a, b, c, d), Mixed(g, mx, b, c, d, a)) == g.add(g.add(a, b), mx(g.add(a, c)))
  {
    var p, q := mx(g.add(a, b)), mx(g.add(b, c));
    Interchange(g, g.add(g.add(b, c), d), p, g.add(g.add(c, d), a), q);
    Assoc(g, b, c, d);
    Cancels(g, mx, b, g.add(c, d), a);
    Comm(g, b, a);
    assert LinearAt(g, mx, g.add(a, b), g.add(b, c));
    Cancels(g, mx, a, b, c);
  }

  // The three other bytes of the column.
  lemma {:induction false} ThreeMixed<B(!new)>(g: Group<B>, mx: B -> B, a: B, b: B, c: B, d: B)
    requires IsByteArithmetic(g, mx)
    ensures g.add(g.add(Mixed(g, mx, b, c, d, a), Mixed(g, mx, c, d, a, b)), Mixed(g, mx, d, a, b, c)) == g.add(a, mx(g.add(a, b)))
  {
    var q, r, s := mx(g.add(b, c)), mx(g.add(c, d)), mx(g.add(d, a));
    TwoMixed(g, mx, b, c, d, a);
    Interchange(g, g.add(b, c), mx(g.add(b, d)), g.add(g.add(a, b), c), s);
    Assoc(g, a, b, c);
    Comm(g, a, g.add(b, c));
    Comm(g, g.add(b, c), a);
    Assoc(g, g.add(b, c), g.add(b, c), a);
    Comm(g, g.zero, a);
    assert LinearAt(g, mx, g.add(b, d), g.add(d, a));
    Cancels(g, mx, b, d, a);
    Comm(g, b, a);
  }

  // Mixing twice adds {04} times the sum with the byte two rows below.
  lemma {:induction false} MixedTwice<B(!new)>(g: Group<B>, mx: B -> B, a: B, b: B, c: B, d: B)
    requires IsByteArithmetic(g, mx)
    ensures Mixed(g, mx, Mixed(g, mx, a, b, c, d), Mixed(g, mx, b, c, d, a), Mixed(g, mx, c, d, a, b), Mixed(g, mx, d, a, b, c))
         == g.add(a, mx(mx(g.add(a, c))))
  {
    TwoMixed(g, mx, a, b, c, d);
    ThreeMixed(g, mx, a, b, c, d);
    assert LinearAt(g, mx, g.add(a, b), mx(g.add(a, c)));
    Cancels(g, mx, a, mx(g.add(a, b)), mx(mx(g.add(a, c))));
  }

  lemma {:induction false} FourTwice<B(!new)>(g: Group<B>, mx: B -> B, a: B, c: B)
    requires IsByteArithmetic(g, mx)
    ensures var a', c' := g.add(a, mx(mx(g.add(a, c)))), g.add(c, mx(mx(g.add(c, a))));
      g.add(a', mx(mx(g.add(a', c')))) == a
  {
    var f := mx(mx(g.add(a, c)));
    Comm(g, c, a);
    Comm(g, c, f);
    Cancels(g, mx, a, f, c);
    Assoc(g, a, f, f);
  }

  // ---- whole blocks ----

  lemma {:induction false} RotAt<B>(s: seq<B>, b: nat, i: nat)
    requires IsBlock(s) && 1 <= b <= 3 && i < 16
    ensures Rot(s, b)[i] == s[(i + 4 * b) % 16]
  {
  }

  lemma {:induction false} Around(i: nat)
    requires i < 16
    ensures ((i + 4) % 16 + 4) % 16 == (i + 8) % 16 && ((i + 4) % 16 + 8) % 16 == (i + 12) % 16
    ensures ((i + 4) % 16 + 12) % 16 == i && ((i + 8) % 16 + 8) % 16 == i
    ensures ((i + 8) % 16 + 4) % 16 == (i + 12) % 16 && ((i + 8) % 16 + 12) % 16 == (i + 4) % 16
    ensures ((i + 12) % 16 + 4) % 16 == i && ((i + 12) % 16 + 8) % 16 == (i + 4) % 16 && ((i + 12) % 16 + 12) % 16 == (i + 8) % 16
  {
  }

  lemma {:induction false} MixAt<B(!new)>(g: Group<B>, mx: B -> B, s: seq<B>, i: nat)
    requires IsBlock(s) && i < 16
    ensures Mix(g, mx, s)[i] == Mixed(g, mx, s[i], s[(i + 4) % 16], s[(i + 8) % 16], s[(i + 12) % 16])
  {
    var s01 := AddAll(g, s, Rot(s, 1));
    RotAt(s, 1, i);
    RotAt(s, 1, (i + 4) % 16);
    RotAt(s, 3, i);
    RotAt(s01, 1, i);
    Around(i);
  }

  lemma {:induction false} MixMix<B(!new)>(g: Group<B>, mx: B -> B, s: seq<B>)
    requires IsByteArithmetic(g, mx) && IsBlock(s)
    ensures Mix(g, mx, Mix(g, mx, s)) == Four(g, mx, s)
  {
    forall i: nat | i < 16
      ensures Mix(g, mx, Mix(g, mx, s))[i] == Four(g, mx, s)[i]
    {
      MixMixAt(g, mx, s, i);
    }
  }

  lemma {:induction false} MixMixAt<B(!new)>(g: Group<B>, mx: B -> B, s: seq<B>, i: nat)
    requires IsByteArithmetic(g, mx) && IsBlock(s) && i < 16
    ensures Mix(g, mx, Mix(g, mx, s))[i] == Four(g, mx, s)[i]
  {
    var j, k, l := (i + 4) % 16, (i + 8) % 16, (i + 12) % 16;
    Around(i);
    MixAt(g, mx, Mix(g, mx, s), i);
    MixAt(g, mx, s, i);
    MixAt(g, mx, s, j);
    MixAt(g, mx, s, k);
    MixAt(g, mx, s, l);
    MixedTwice(g, mx, s[i], s[j], s[k], s[l]);
    RotAt(s, 2, i);
  }

  lemma {:induction false} FourFour<B(!new)>(g: Group<B>, mx: B -> B, s: seq<B>)
    requires IsByteArithmetic(g, mx) && IsBlock(s)
    ensures Four(g, mx, Four(g, mx, s)) == s
  {
    var t := Four(g, mx, s);
    forall i: nat | i < 16
      ensures Four(g, mx, t)[i] == s[i]
    {
      var k := (i + 8) % 16;
      Around(i);
      RotAt(s, 2, i);
      RotAt(s, 2, k);
      RotAt(t, 2, i);
      FourTwice(g, mx, s[i], s[k]);
    }
  }

  // The inverse direction undoes mixing, and the other way round.
  lemma {:induction false} MixColumnsUndone<B(!new)>(g: Group<B>, mx: B -> B, s: seq<B>)
    requires IsByteArithmetic(g, mx) && IsBlock(s)
    ensures MixColumns(g, mx, MixColumns(g, mx, s, false), true) == s
    ensures MixColumns(g, mx, MixColumns(g, mx, s, true), false) == s
  {
    MixMix(g, mx, s);
    FourFour(g, mx, s);
    var m := Mix(g, mx, s);
    MixMix(g, mx, m);
    MixMix(g, mx, Mix(g, mx, m));
    FourFour(g, mx, s);
  }
}
