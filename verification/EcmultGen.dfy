// Generator multiplication with a precomputed, masked table and a blinded
// starting point, on Jacobian coordinates.
module EcmultGen {
  import opened Arith
  import opened Groups
  import opened Recoding
  import opened Curve
  import opened Jacobian
  import opened Tables
  import opened OddTables
  import opened StraussJacobian

  const ROWS: nat := 64
  const COLUMNS: nat := 16

  // The multiple of the nothing-up-my-sleeve point that masks row j: U_j.
  function MaskFactor(j: nat): int {
    if j < 63 then Pow2(j) else 1 - Pow2(63)
  }

  // U_0 + ... + U_(j-1), as a multiple of the same point.
  function MaskSum(j: nat): int {
    if j == 0 then 0 else MaskSum(j - 1) + MaskFactor(j - 1)
  }

  lemma {:induction false} MaskSumBelow(j: nat)
    requires j <= 63
    ensures MaskSum(j) == Pow2(j) - 1
  {
    if j > 0 {
      MaskSumBelow(j - 1);
    }
  }

  // The masks of all rows cancel.
  lemma {:induction false} MasksCancel()
    ensures MaskSum(ROWS) == 0
  {
    MaskSumBelow(63);
  }

  // prec[j][i] = 16^j * i * G + U_j
  ghost function Entry<P(!new)>(g: Group<P>, gen: P, nums: P, j: nat, i: nat): P {
    g.add(g.Times(MaskFactor(j), nums), g.Times(i * Pow2(4 * j), gen))
  }

  // The points the rows are made of.
  ghost function EntryAt(g: Group<CurvePoint>, gen: CurvePoint, nums: CurvePoint, k: nat): CurvePoint {
    Entry(g, gen, nums, k / COLUMNS, k % COLUMNS)
  }

  // No entry is the point at infinity, which has no affine coordinates to store.
  ghost predicate IsFiniteTable(g: Group<CurvePoint>, gen: CurvePoint, nums: CurvePoint) {
    forall k: nat :: k < ROWS * COLUMNS ==> EntryAt(g, gen, nums, k) != Infinity
  }

  // For a masking point that is k times the generator, the table is finite
  // exactly if k is none of 1024 known residues.
  lemma {:induction false} FiniteUnlessKnown(g: Group<CurvePoint>, gen: CurvePoint, nums: CurvePoint, k: int)
    requires IsCurveGroup(g) && FermatN() && gen != Infinity && nums == g.Times(k, gen)
    ensures IsFiniteTable(g, gen, nums) <==>
      forall i: nat :: i < ROWS * COLUMNS ==> !Vanishes(k, i)
  {
    forall i: nat | i < ROWS * COLUMNS
      ensures EntryAt(g, gen, nums, i) == Infinity <==> Vanishes(k, i)
    {
      EntryVanishes(g, gen, nums, k, i);
    }
  }

  ghost predicate Vanishes(k: int, i: nat) {
    Cong(MaskFactor(i / COLUMNS) * k + i % COLUMNS * Pow2(4 * (i / COLUMNS)), 0, N)
  }

  lemma {:induction false} EntryVanishes(g: Group<CurvePoint>, gen: CurvePoint, nums: CurvePoint, k: int, i: nat)
    requires IsCurveGroup(g) && FermatN() && gen != Infinity && nums == g.Times(k, gen)
    ensures EntryAt(g, gen, nums, i) == Infinity <==> Vanishes(k, i)
  {
    var m, e := MaskFactor(i / COLUMNS), i % COLUMNS * Pow2(4 * (i / COLUMNS));
    TimesTimes(g, m, k, gen);
    TimesAdd(g, m * k, e, gen);
    MultipleVanishes(g, gen, m * k + e);
  }

  lemma {:induction false} MultipleVanishes<P(!new)>(g: Group<P>, gen: P, k: int)
    requires g.HasExponent(N) && FermatN() && gen != g.zero
    ensures g.Times(k, gen) == g.zero <==> Cong(k, 0, N)
  {
    CongMod(k, N);
    TimesCong(g, k % N, k, gen, N);
    if k % N != 0 {
      OnlyZeroVanishes(g, gen, k % N);
    }
  }

  // The first n entries, in Jacobian coordinates.
  ghost predicate FilledTo(g: Group<CurvePoint>, gen: CurvePoint, nums: CurvePoint, precj: seq<Gej>, n: nat) {
    n <= |precj| && forall k: nat :: k < n ==> Represents(precj[k], 1, EntryAt(g, gen, nums, k))
  }

  // Lines 65-68: one row is numsbase, numsbase + gbase, ..., numsbase + 15*gbase.
  method FillRow(ghost g: Group<CurvePoint>, ghost gen: CurvePoint, ghost nums: CurvePoint, precj: array<Gej>, j: nat,
                 numsbase: Gej, gbase: Gej)
    requires Fermat() && IsCurveGroup(g) && precj.Length == ROWS * COLUMNS && j < ROWS
    requires Represents(numsbase, 1, g.Times(MaskFactor(j), nums)) && Represents(gbase, 1, g.Times(Pow2(4 * j), gen))
    requires FilledTo(g, gen, nums, precj[..], j * COLUMNS)
    modifies precj
    ensures FilledTo(g, gen, nums, precj[..], (j + 1) * COLUMNS)
  {
    ghost var before := precj[..];
    precj[j * COLUMNS] := numsbase;
    EntryStart(g, gen, nums, j);
    InRow(j, 0);
    OneMore(g, gen, nums, before, precj[..], j * COLUMNS);
    for i := 1 to COLUMNS
      invariant FilledTo(g, gen, nums, precj[..], j * COLUMNS + i)
    {
      var k := j * COLUMNS + i;
      var next := NextEntry(g, gen, nums, precj[k - 1], gbase, j, i, k);
      before := precj[..];
      precj[k] := next;
      OneMore(g, gen, nums, before, precj[..], k);
    }
  }

  lemma {:induction false} OneMore(g: Group<CurvePoint>, gen: CurvePoint, nums: CurvePoint, before: seq<Gej>, after: seq<Gej>, k: nat)
    requires FilledTo(g, gen, nums, before, k) && k < |before| == |after| && after == before[k := after[k]]
    requires Represents(after[k], 1, EntryAt(g, gen, nums, k))
    ensures FilledTo(g, gen, nums, after, k + 1)
  {
  }

  method NextEntry(ghost g: Group<CurvePoint>, ghost gen: CurvePoint, ghost nums: CurvePoint, last: Gej, gbase: Gej, ghost j: nat,
                   ghost i: nat, ghost k: nat) returns (next: Gej)
    requires Fermat() && IsCurveGroup(g) && 0 < i < COLUMNS && k == j * COLUMNS + i
    requires Represents(last, 1, EntryAt(g, gen, nums, k - 1)) && Represents(gbase, 1, g.Times(Pow2(4 * j), gen))
    ensures Represents(next, 1, EntryAt(g, gen, nums, k))
  {
    InRow(j, i - 1);
    InRow(j, i);
    EntryStep(g, gen, nums, j, i - 1);
    var rzr;
    next, rzr := GejAddVar(g, last, gbase, Entry(g, gen, nums, j, i - 1), g.Times(Pow2(4 * j), gen));
  }

  lemma {:induction false} InRow(j: nat, i: nat)
    requires i < COLUMNS
    ensures (j * COLUMNS + i) / COLUMNS == j && (j * COLUMNS + i) % COLUMNS == i
  {
  }

  lemma {:induction false} EntryStart<P(!new)>(g: Group<P>, gen: P, nums: P, j: nat)
    requires g.IsAbelian()
    ensures Entry(g, gen, nums, j, 0) == g.Times(MaskFactor(j), nums)
  {
    assert 0 * Pow2(4 * j) == 0;
  }

  lemma {:induction false} EntryStep<P(!new)>(g: Group<P>, gen: P, nums: P, j: nat, i: nat)
    requires g.IsAbelian()
    ensures Entry(g, gen, nums, j, i + 1) == g.add(Entry(g, gen, nums, j, i), g.Times(Pow2(4 * j), gen))
  {
    EntryAlgebra(g, g.Times(MaskFactor(j), nums), i, Pow2(4 * j), gen);
  }

  lemma {:induction false} EntryAlgebra<P(!new)>(g: Group<P>, mask: P, i: nat, p: int, gen: P)
    requires g.IsAbelian()
    ensures g.add(mask, g.Times((i + 1) * p, gen)) == g.add(g.add(mask, g.Times(i * p, gen)), g.Times(p, gen))
  {
    assert (i + 1) * p == i * p + p;
    TimesAdd(g, i * p, p, gen);
    Assoc(g, mask, g.Times(i * p, gen), g.Times(p, gen));
  }

  // Lines 70-72: gbase is multiplied by 16.
  method TimesSixteen(ghost g: Group<CurvePoint>, ghost gen: CurvePoint, ghost j: nat, gbase0: Gej) returns (gbase: Gej)
    requires Fermat() && IsCurveGroup(g) && Represents(gbase0, 1, g.Times(Pow2(4 * j), gen))
    ensures Represents(gbase, 1, g.Times(Pow2(4 * (j + 1)), gen))
  {
    gbase := gbase0;
    for i := 0 to 4
      invariant Represents(gbase, 1, g.Times(Pow2(4 * j + i), gen))
    {
      TimesAdd(g, Pow2(4 * j + i), Pow2(4 * j + i), gen);
      var rzr;
      gbase, rzr := GejDouble(g, gbase, 1, g.Times(Pow2(4 * j + i), gen));
    }
  }

  // Lines 73-79: the mask of the next row; the last one cancels all others.
  method NextMask(ghost g: Group<CurvePoint>, numsGej: Gej, ghost nums: CurvePoint, j: nat, numsbase0: Gej) returns (numsbase: Gej)
    requires Fermat() && IsCurveGroup(g) && j < ROWS && Represents(numsGej, 1, nums)
    requires Represents(numsbase0, 1, g.Times(MaskFactor(j), nums))
    ensures j + 1 < ROWS ==> Represents(numsbase, 1, g.Times(MaskFactor(j + 1), nums))
  {
    var rzr;
    ghost var p := g.Times(MaskFactor(j), nums);
    numsbase, rzr := GejDouble(g, numsbase0, 1, p);
    MasksDouble(g, nums, j);
    if j == 62 {
      GejNegIsNeg(g, numsbase, 1, g.add(p, p));
      numsbase, rzr := GejAddVar(g, GejNeg(numsbase), numsGej, g.neg(g.add(p, p)), nums);
    }
  }

  lemma {:induction false} MasksDouble<P(!new)>(g: Group<P>, nums: P, j: nat)
    requires g.IsAbelian()
    ensures j < 62 ==> g.add(g.Times(MaskFactor(j), nums), g.Times(MaskFactor(j), nums)) == g.Times(MaskFactor(j + 1), nums)
    ensures j == 62 ==>
      g.add(g.neg(g.add(g.Times(MaskFactor(j), nums), g.Times(MaskFactor(j), nums))), nums) == g.Times(MaskFactor(j + 1), nums)
  {
    TimesAdd(g, MaskFactor(j), MaskFactor(j), nums);
    if j == 62 {
      TimesNeg(g, Pow2(63), nums);
      TimesSucc(g, -Pow2(63), nums);
    }
  }

  // Lines 57-81: all rows.
  method FillTable(ghost g: Group<CurvePoint>, ghost gen: CurvePoint, ghost nums: CurvePoint, gj: Gej, numsGej: Gej)
    returns (precj: array<Gej>)
    requires Fermat() && IsCurveGroup(g) && Represents(gj, 1, gen) && Represents(numsGej, 1, nums)
    ensures fresh(precj) && precj.Length == ROWS * COLUMNS && FilledTo(g, gen, nums, precj[..], ROWS * COLUMNS)
  {
    precj := new Gej[ROWS * COLUMNS](_ => gj);
    var gbase, numsbase := gj, numsGej;
    TimesOne(g, gen);
    TimesOne(g, nums);
    for j := 0 to ROWS
      invariant FilledTo(g, gen, nums, precj[..], j * COLUMNS)
      invariant Represents(gbase, 1, g.Times(Pow2(4 * j), gen))
      invariant j < ROWS ==> Represents(numsbase, 1, g.Times(MaskFactor(j), nums))
    {
      FillRow(g, gen, nums, precj, j, numsbase, gbase);
      gbase := TimesSixteen(g, gen, j, gbase);
      numsbase := NextMask(g, numsGej, nums, j, numsbase);
    }
  }

  // Line 82: affine coordinates for all entries.
  method AffineTable(ghost g: Group<CurvePoint>, ghost gen: CurvePoint, ghost nums: CurvePoint, precj: seq<Gej>)
    returns (prec: seq<Ge>)
    requires Fermat() && |precj| == ROWS * COLUMNS && FilledTo(g, gen, nums, precj, ROWS * COLUMNS) && IsFiniteTable(g, gen, nums)
    ensures |prec| == ROWS * COLUMNS && AreStored(g, gen, nums, prec)
  {
    var ges := new Ge[ROWS * COLUMNS](_ => Ge(0, 0, true));
    ghost var p := seq(ROWS * COLUMNS, k requires 0 <= k < ROWS * COLUMNS => EntryAt(g, gen, nums, k));
    assert Represents(precj[0], 1, EntryAt(g, gen, nums, 0)) && EntryAt(g, gen, nums, 0) != Infinity;
    SetAllGejVar(ges, precj, p);
    prec := ges[..];
    forall k: nat | k < ROWS * COLUMNS
      ensures IsStored(ToStorage(prec[k]), EntryAt(g, gen, nums, k))
    {
      assert EntryAt(g, gen, nums, k) != Infinity && RepresentsAffine(prec[k], 1, p[k]);
      StoredAffine(prec[k], p[k]);
    }
  }

  ghost predicate AreStored(g: Group<CurvePoint>, gen: CurvePoint, nums: CurvePoint, prec: seq<Ge>)
    requires |prec| == ROWS * COLUMNS
  {
    forall k: nat :: k < ROWS * COLUMNS ==> IsStored(ToStorage(prec[k]), EntryAt(g, gen, nums, k))
  }

  // Lines 84-88: the entries go to storage row by row.
  method StoreTable(ghost g: Group<CurvePoint>, ghost gen: CurvePoint, ghost nums: CurvePoint, ges: seq<Ge>) returns (prec: array2<Storage>)
    requires |ges| == ROWS * COLUMNS && AreStored(g, gen, nums, ges)
    ensures fresh(prec) && IsTable(g, gen, nums, prec)
  {
    prec := new Storage[ROWS, COLUMNS]((j, i) => Storage(0, 0));
    forall j, i | 0 <= j < ROWS && 0 <= i < COLUMNS {
      prec[j, i] := ToStorage(ges[j * COLUMNS + i]);
    }
    forall j: nat, i: nat | j < ROWS && i < COLUMNS
      ensures IsStored(prec[j, i], Entry(g, gen, nums, j, i))
    {
      InRow(j, i);
      assert IsStored(ToStorage(ges[j * COLUMNS + i]), EntryAt(g, gen, nums, j * COLUMNS + i));
    }
  }

  // The affine coordinates of p.
  ghost predicate IsStored(s: Storage, p: CurvePoint) { p.Affine? && s.x == p.x && s.y == p.y }

  lemma {:induction false} StoredAffine(a: Ge, p: CurvePoint)
    requires RepresentsAffine(a, 1, p) && !a.infinity
    ensures IsStored(ToStorage(a), p)
  {
    EqReduce(a.x);
    EqReduce(a.y);
    SameResidue(Reduce(a.x), p.x);
    SameResidue(Reduce(a.y), p.y);
  }

  ghost predicate IsTable(g: Group<CurvePoint>, gen: CurvePoint, nums: CurvePoint, prec: array2<Storage>)
    reads prec
  {
    && prec.Length0 == ROWS && prec.Length1 == COLUMNS
    && forall j: nat, i: nat :: j < ROWS && i < COLUMNS ==> IsStored(prec[j, i], Entry(g, gen, nums, j, i))
  }

  // secp256k1_scalar_add
  function ScalarSum(a: int, b: int): (r: int)
    ensures 0 <= r < N && Cong(r, a + b, N)
  {
    CongMod(a + b, N);
    (a + b) % N
  }

  // secp256k1_ecmult_gen_context. ge is the generator and sleeveGe the point
  // with the nothing-up-my-sleeve abscissa.
  class Context {
    ghost const g: Group<CurvePoint>
    ghost const gen: CurvePoint
    ghost const sleeve: CurvePoint
    const ge: Ge
    const sleeveGe: Ge
    var prec: array2?<Storage>
    var blind: int
    var initial: Gej

    // The point the masks are multiples of.
    ghost function Nums(): CurvePoint { g.add(sleeve, gen) }

    // The constants are points, and no entry of the table is infinite.
    ghost predicate Constants() {
      && Fermat() && FermatN() && IsCurveGroup(g)
      && !ge.infinity && RepresentsAffine(ge, 1, gen) && RepresentsAffine(sleeveGe, 1, sleeve)
      && IsFiniteTable(g, gen, Nums())
    }

    // The blinding cancels: initial + blind*G = 0.
    ghost predicate IsBlinded()
      reads this
    {
      0 <= blind < N && Represents(initial, 1, g.Times(-blind, gen))
    }

    // What every call keeps: without a table nothing is claimed.
    ghost predicate Valid()
      reads this, prec
    {
      Constants() && (prec != null ==> IsTable(g, gen, Nums(), prec) && IsBlinded())
    }

    // secp256k1_ecmult_gen_context_init
    constructor (ghost g: Group<CurvePoint>, ghost gen: CurvePoint, ghost sleeve: CurvePoint, ge: Ge, sleeveGe: Ge)
      requires Fermat() && FermatN() && IsCurveGroup(g)
      requires !ge.infinity && RepresentsAffine(ge, 1, gen) && RepresentsAffine(sleeveGe, 1, sleeve)
      requires IsFiniteTable(g, gen, g.add(sleeve, gen))
      ensures Valid() && prec == null
      ensures this.g == g && this.gen == gen && this.sleeve == sleeve
    {
      this.g, this.gen, this.sleeve, this.ge, this.sleeveGe := g, gen, sleeve, ge, sleeveGe;
      prec := null;
      blind := 0;
      initial := Gej(0, 0, 0, true);
    }

    // secp256k1_ecmult_gen: gn times the generator, in every valid state.
    method Gen(gn: int) returns (r: Gej)
      requires Valid() && prec != null && 0 <= gn < N
      ensures Represents(r, 1, g.Times(gn, gen))
    {
      ghost var start := g.Times(-blind, gen);
      var gnb := ScalarSum(gn, blind);
      r := AddRows(gnb, start);
      GenFinish(g, gen, Nums(), gn, blind, gnb, start, ROWS);
    }

    // Lines 136-156: all rows on top of the initial point.
    method AddRows(gnb: nat, ghost start: CurvePoint) returns (r: Gej)
      requires Constants() && prec != null && IsTable(g, gen, Nums(), prec) && Represents(initial, 1, start)
      ensures Represents(r, 1, g.add(start, Partial(g, gen, Nums(), gnb, ROWS)))
    {
      r := initial;
      GenStart(g, gen, Nums(), gnb, start);
      for j := 0 to ROWS
        invariant Represents(r, 1, g.add(start, Partial(g, gen, Nums(), gnb, j)))
      {
        r := AddRow(gnb, j, start, r);
      }
    }

    // Lines 138-155: the entry for four bits is found and added.
    method AddRow(gnb: nat, j: nat, ghost start: CurvePoint, r0: Gej) returns (r: Gej)
      requires Constants() && prec != null && IsTable(g, gen, Nums(), prec) && j < ROWS
      requires Represents(r0, 1, g.add(start, Partial(g, gen, Nums(), gnb, j)))
      ensures Represents(r, 1, g.add(start, Partial(g, gen, Nums(), gnb, j + 1)))
    {
      var bits := Bits(gnb, j * 4, 4);
      NibbleInRow(gnb, j);
      var adds := Lookup(j, bits);
      PartialStep(g, gen, Nums(), gnb, j, start);
      r := AddStored(g, r0, adds, g.add(start, Partial(g, gen, Nums(), gnb, j)), Entry(g, gen, Nums(), j, bits));
    }

    // Lines 140-152: the row is scanned and the wanted entry kept.
    method Lookup(j: nat, bits: nat) returns (adds: Storage)
      requires Constants() && prec != null && IsTable(g, gen, Nums(), prec) && j < ROWS && bits < COLUMNS
      ensures IsStored(adds, Entry(g, gen, Nums(), j, bits))
    {
      adds := Storage(0, 0);
      for i := 0 to COLUMNS
        invariant bits < i ==> adds == prec[j, bits]
      {
        if i == bits {
          adds := prec[j, i];
        }
      }
    }

    // secp256k1_ecmult_gen_blind: s and b are what the generator of random numbers
    // yields once they are nonzero and in range.
    method Blind(seeded: bool, s: int, b: int)
      requires Valid() && prec != null && !Eq(s, 0) && 0 < b < N
      modifies this`blind, this`initial
      ensures Valid() && prec == old(prec)
      ensures blind == N - b && Represents(initial, 1, g.Times(b, gen))
    {
      if !seeded {
        Reset();
      }
      Rescale(s);
      var gb := Gen(b);
      blind := Negate(b);
      initial := gb;
      TimesCong(g, b, -(N - b), gen, N);
    }

    // Line 192: other coordinates of the initial point.
    method Rescale(s: int)
      requires Constants() && IsBlinded() && !Eq(s, 0)
      modifies this`initial
      ensures IsBlinded()
    {
      RescaledInitial(g, initial, s, g.Times(-blind, gen));
      initial := Rescaled(initial, s);
    }

    // Lines 168-172: the initial point is -G and the blinding value 1.
    method Reset()
      requires Constants()
      modifies this`blind, this`initial
      ensures IsBlinded()
    {
      var gj := Gej(ge.x, ge.y, 1, ge.infinity);
      GejNegIsNeg(g, gj, 1, gen);
      initial := GejNeg(gj);
      blind := 1;
      TimesOne(g, gen);
      TimesNeg(g, 1, gen);
    }

    // secp256k1_ecmult_gen_context_build
    method Build(s: int, b: int)
      requires Valid() && !Eq(s, 0) && 0 < b < N
      modifies this`prec, this`blind, this`initial
      ensures Valid() && prec != null
      ensures old(prec) != null ==> prec == old(prec) && blind == old(blind) && initial == old(initial)
      ensures old(prec) == null ==> fresh(prec) && blind == N - b
    {
      if prec != null {
        return;
      }
      var gj := Gej(ge.x, ge.y, 1, ge.infinity);
      var sleeveGej := Gej(sleeveGe.x, sleeveGe.y, 1, sleeveGe.infinity);
      var numsGej, rzr := GejAddGeVar(g, sleeveGej, ge, 1, sleeve, gen);
      var precj := FillTable(g, gen, Nums(), gj, numsGej);
      var ges := AffineTable(g, gen, Nums(), precj[..]);
      prec := StoreTable(g, gen, Nums(), ges);
      // the blinding is reset whatever was there
      Reset();
      Blind(false, s, b);
    }

    // secp256k1_ecmult_gen_context_clone: an independent copy.
    method CloneFrom(src: Context)
      requires src != this && Valid() && src.Valid()
      requires src.g == g && src.gen == gen && src.sleeve == sleeve
      modifies this`prec, this`blind, this`initial
      ensures Valid() && (prec == null <==> src.prec == null)
      ensures prec != null ==> fresh(prec) && blind == src.blind && initial == src.initial
    {
      if src.prec == null {
        prec := null;
        return;
      }
      var table := new Storage[ROWS, COLUMNS]((j, i) => Storage(0, 0));
      forall j, i | 0 <= j < ROWS && 0 <= i < COLUMNS {
        table[j, i] := src.prec[j, i];
      }
      prec := table;
      initial := src.initial;
      blind := src.blind;
    }

    // secp256k1_ecmult_gen_context_clear
    method Clear()
      requires Valid()
      modifies this`prec, this`blind, this`initial
      ensures Valid() && prec == null && blind == 0 && initial == Gej(0, 0, 0, false)
    {
      blind := 0;
      initial := Gej(0, 0, 0, false);
      prec := null;
    }
  }

  method AddStored(ghost g: Group<CurvePoint>, r0: Gej, adds: Storage, ghost p: CurvePoint, ghost q: CurvePoint) returns (r: Gej)
    requires Fermat() && IsCurveGroup(g) && Represents(r0, 1, p) && IsStored(adds, q)
    ensures Represents(r, 1, g.add(p, q))
  {
    EqIsCong(1, 0);
    r := GejAddGe(g, r0, FromStorage(adds), 1, p, q);
  }

  lemma {:induction false} RescaledInitial(g: Group<CurvePoint>, a: Gej, s: int, p: CurvePoint)
    requires Fermat() && Represents(a, 1, p) && !Eq(s, 0)
    ensures Represents(Rescaled(a, s), 1, p)
  {
    if !a.infinity {
      RescaledIsSame(a, s, p);
    }
  }

  // What the rows below j contribute.
  ghost function Partial<P(!new)>(g: Group<P>, gen: P, nums: P, gnb: nat, j: nat): P {
    g.add(g.Times(MaskSum(j), nums), g.Times(Low(gnb, 4 * j), gen))
  }

  lemma {:induction false} GenStart<P(!new)>(g: Group<P>, gen: P, nums: P, gnb: nat, initial: P)
    requires g.IsAbelian()
    ensures initial == g.add(initial, Partial(g, gen, nums, gnb, 0))
  {
  }

  lemma {:induction false} NibbleInRow(gnb: nat, j: nat)
    ensures Bits(gnb, j * 4, 4) < COLUMNS
    ensures Low(gnb, 4 * (j + 1)) == Low(gnb, 4 * j) + Bits(gnb, j * 4, 4) * Pow2(4 * j)
  {
    Pow2OfFour();
    NextWindow(gnb, 4 * j, 4);
    assert 4 * (j + 1) == 4 * j + 4 && j * 4 == 4 * j;
  }

  lemma {:induction false} NextWindow(gnb: nat, offset: nat, count: nat)
    ensures Low(gnb, offset + count) == Low(gnb, offset) + Bits(gnb, offset, count) * Pow2(offset)
  {
    LowSplit(gnb, offset, count);
    Commuted(Pow2(offset), Bits(gnb, offset, count));
  }

  lemma {:induction false} Commuted(x: int, y: int)
    ensures x * y == y * x
  {
  }

  lemma {:induction false} Pow2OfFour()
    ensures Pow2(4) == 16
  {
    assert Pow2(2) == 4;
  }

  lemma {:induction false} PartialStep<P(!new)>(g: Group<P>, gen: P, nums: P, gnb: nat, j: nat, initial: P)
    requires g.IsAbelian() && j < ROWS
    ensures g.add(g.add(initial, Partial(g, gen, nums, gnb, j)), Entry(g, gen, nums, j, Bits(gnb, j * 4, 4)))
         == g.add(initial, Partial(g, gen, nums, gnb, j + 1))
  {
    var bits := Bits(gnb, j * 4, 4);
    NibbleInRow(gnb, j);
    Assoc(g, initial, Partial(g, gen, nums, gnb, j), Entry(g, gen, nums, j, bits));
    NextRow(g, gen, nums, MaskSum(j), MaskFactor(j), Low(gnb, 4 * j), bits * Pow2(4 * j));
  }

  lemma {:induction false} NextRow<P(!new)>(g: Group<P>, gen: P, nums: P, sum: int, mask: int, low: int, high: int)
    requires g.IsAbelian()
    ensures g.add(g.add(g.Times(sum, nums), g.Times(low, gen)), g.add(g.Times(mask, nums), g.Times(high, gen)))
         == g.add(g.Times(sum + mask, nums), g.Times(low + high, gen))
  {
    Interchange(g, g.Times(sum, nums), g.Times(low, gen), g.Times(mask, nums), g.Times(high, gen));
    TimesAdd(g, sum, mask, nums);
    TimesAdd(g, low, high, gen);
  }

  // All rows together give gnb times the generator, and the start takes the blinding off again.
  lemma {:induction false} GenFinish<P(!new)>(g: Group<P>, gen: P, nums: P, gn: int, blind: int, gnb: int, start: P, rows: nat)
    requires g.HasExponent(N) && gnb == ScalarSum(gn, blind) && rows == ROWS && start == g.Times(-blind, gen)
    ensures g.add(start, Partial(g, gen, nums, gnb, rows)) == g.Times(gn, gen)
  {
    MasksCancel();
    AllNibbles(gnb, rows);
    AllRows(g, gen, nums, gnb, rows);
    Unblind(g, gen, gn, blind, gnb);
  }

  lemma {:induction false} Unblind<P(!new)>(g: Group<P>, gen: P, gn: int, blind: int, gnb: int)
    requires g.HasExponent(N) && gnb == ScalarSum(gn, blind)
    ensures g.add(g.Times(-blind, gen), g.Times(gnb, gen)) == g.Times(gn, gen)
  {
    TimesCong(g, gnb, gn + blind, gen, N);
    TimesAdd(g, -blind, gn + blind, gen);
  }

  lemma {:induction false} AllRows<P(!new)>(g: Group<P>, gen: P, nums: P, gnb: nat, rows: nat)
    requires g.IsAbelian() && rows == ROWS && Low(gnb, 4 * rows) == gnb && MaskSum(ROWS) == 0
    ensures Partial(g, gen, nums, gnb, rows) == g.Times(gnb, gen)
  {
    Comm(g, g.zero, g.Times(gnb, gen));
  }

  lemma {:induction false} AllNibbles(gnb: nat, rows: nat)
    requires gnb < N && rows == ROWS
    ensures Low(gnb, 4 * rows) == gnb
  {
    Pow2Of255();
    Pow2Add(255, 1);
    assert 4 * rows == 255 + 1;
    LowSmall(gnb, 4 * rows);
  }
}
