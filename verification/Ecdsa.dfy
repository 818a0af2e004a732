// Signing, verification and public key recovery over any curve group.
module Ecdsa {
  import opened Arith
  import opened Powers
  import opened Groups
  import opened Wrappers
  import opened Curve
  import opened Jacobian
  import opened Abscissa
  import opened Tables
  import opened OddTables
  import opened StraussJacobian
  import EcmultGen

  // ---- scalars ----

  function MulN(a: int, b: int): (r: int)
    ensures 0 <= r < N
  {
    (a * b) % N
  }

  // secp256k1_scalar_inverse
  function InvN(a: int): (r: int)
    ensures 0 <= r < N
  {
    Pow(a, N - 2) % N
  }

  lemma {:induction false} InvNIsInverse(a: int)
    requires FermatN() && 0 < a < N
    ensures Cong(a * InvN(a), 1, N)
  {
    assert FermatNAt(a);
    PowAdd(a, 1, N - 2);
    assert Pow(a, 1) == a * Pow(a, 0);
    CongMod(Pow(a, N - 2), N);
    CongMul(a, a, InvN(a), Pow(a, N - 2), N);
  }

  // ---- verification ----

  // What SEC 1, section 4.1.4 asks: r and s nonzero, the recomputed point
  // finite, and its x coordinate reduced modulo N equal to r.
  ghost predicate Accepts(g: Group<CurvePoint>, gen: CurvePoint, q: CurvePoint, r: int, s: int, m: int) {
    r != 0 && s != 0 && HasR(Recomputed(g, gen, q, r, s, m), r)
  }

  ghost predicate HasR(p: Point, r: int) { p.Affine? && p.x % N == r }

  ghost function Recomputed(g: Group<CurvePoint>, gen: CurvePoint, q: CurvePoint, r: int, s: int, m: int): CurvePoint {
    var sn := InvN(s);
    g.add(g.Times(MulN(sn, r), q), g.Times(MulN(sn, m), gen))
  }

  // secp256k1_ecdsa_sig_verify: accepts exactly the signatures SEC 1 accepts,
  // without computing the affine x coordinate. All points are coordinates.
  method SigVerify(ghost g: Group<CurvePoint>, ghost gen: CurvePoint, preG: seq<Storage>, sigr: int, sigs: int, pubkey: Ge,
                   message: int, ghost q: CurvePoint) returns (ok: bool)
    requires Fermat() && FermatN() && IsCurveGroup(g) && RepresentsAffine(pubkey, 1, q)
    requires |preG| == Strauss.TableSize(Strauss.WINDOW_G) && IsStoredTable(g, preG, gen)
    requires 0 <= sigr < N && 0 <= sigs < N && 0 <= message < N
    ensures ok <==> Accepts(g, gen, q, sigr, sigs, message)
  {
    if sigr == 0 || sigs == 0 {
      return false;
    }
    var sn := InvN(sigs);
    var u1 := MulN(sn, message);
    var u2 := MulN(sn, sigr);
    var pubkeyj := Gej(pubkey.x, pubkey.y, 1, pubkey.infinity);
    var pr := Ecmult(g, gen, preG, pubkeyj, u2, Some(u1), q);
    ghost var point := Recomputed(g, gen, q, sigr, sigs, message);
    if pr.infinity {
      return false;
    }
    var xr := sigr;
    GejEqXVarCompares(xr, pr, point);
    TwoCandidates(point.x, sigr);
    if GejEqXVar(xr, pr) {
      return true;
    }
    if xr >= P - N {
      return false;
    }
    xr := xr + N;
    GejEqXVarCompares(xr, pr, point);
    return GejEqXVar(xr, pr);
  }

  // P lies between N and 2N.
  lemma {:induction false} TwoCandidates(x: int, r: int)
    requires 0 <= x < P && 0 <= r < N
    ensures x % N == r <==> x == r || (r < P - N && x == r + N)
  {
  }

  // ---- signing ----

  datatype Signature = Signature(r: int, s: int, recid: nat)

  // secp256k1_ecdsa_sig_sign
  method SigSign(ctx: EcmultGen.Context, seckey: int, message: int, nonce: int) returns (ok: bool, sig: Signature)
    requires ctx.Valid() && ctx.prec != null
    requires 0 < seckey < N && 0 <= message < N && 0 < nonce < N
    ensures IsSigned(ctx.g, ctx.gen, seckey, message, nonce, ok, sig)
  {
    var rpj := ctx.Gen(nonce);
    OnlyZeroVanishes(ctx.g, ctx.gen, nonce);
    var rp;
    rp, rpj := GeSetGejVar(rpj, ctx.g.Times(nonce, ctx.gen));
    EcmultGen.StoredAffine(rp, ctx.g.Times(nonce, ctx.gen));
    // both coordinates normalized
    var x, y := Reduce(rp.x), Reduce(rp.y);
    var r := x % N;
    var overflow := x >= N;
    var recid := (if overflow then 2 else 0) + (if y % 2 == 1 then 1 else 0);
    var n := MulN(r, seckey);
    n := (n + message) % N;
    var s := MulN(InvN(nonce), n);
    if s == 0 {
      return false, Signature(r, s, recid);
    }
    ok := true;
    if Recoding.IsHigh(s) {
      s := Recoding.Negate(s);
      recid := if recid % 2 == 1 then recid - 1 else recid + 1;
    }
    sig := Signature(r, s, recid);
  }

  // s before it is brought to its low form.
  ghost function RawS(r: int, seckey: int, message: int, nonce: int): int {
    MulN(InvN(nonce), (MulN(r, seckey) + message) % N)
  }

  // What signing promises: r is the nonce point's x, s solves the signing
  // equation or its negation, whichever is low, and recid remembers the point.
  ghost predicate IsSigned(g: Group<CurvePoint>, gen: CurvePoint, seckey: int, message: int, nonce: int, ok: bool, sig: Signature) {
    var rp, s0 := g.Times(nonce, gen), RawS(sig.r, seckey, message, nonce);
    && HasR(rp, sig.r)
    && (ok <==> s0 != 0)
    && (ok ==> 0 < sig.s < N && !Recoding.IsHigh(sig.s) && sig.s == (if Recoding.IsHigh(s0) then N - s0 else s0))
    && (ok ==> sig.recid < 4 && (sig.recid >= 2 <==> rp.x >= N))
    && (ok ==> (sig.recid % 2 == 1 <==> (rp.y % 2 == 1) != Recoding.IsHigh(s0)))
  }

  lemma {:induction false} MulNCong(a: int, b: int)
    ensures Cong(MulN(a, b), a * b, N)
  {
    CongMod(a * b, N);
  }

  // s0 * nonce is r * seckey + message.
  lemma {:induction false} SigningEquation(r: int, seckey: int, message: int, nonce: int)
    requires FermatN() && 0 < nonce < N
    ensures Cong(RawS(r, seckey, message, nonce) * nonce, r * seckey + message, N)
  {
    var ki, n := InvN(nonce), (MulN(r, seckey) + message) % N;
    MulNCong(r, seckey);
    CongAdd(MulN(r, seckey), r * seckey, message, message, N);
    CongMod(MulN(r, seckey) + message, N);
    MulNCong(ki, n);
    InvNIsInverse(nonce);
    CancelInverse(MulN(ki, n), ki, n, nonce, r * seckey + message);
  }

  lemma {:induction false} CancelInverse(s: int, ki: int, n: int, k: int, v: int)
    requires Cong(s, ki * n, N) && Cong(k * ki, 1, N) && Cong(n, v, N)
    ensures Cong(s * k, v, N)
  {
    CongMul(s, ki * n, k, k, N);
    CongMul(k * ki, 1, n, v, N);
    assert ki * n * k == k * ki * n;
  }

  // The nonce, negated if s was: with it the equation holds for s as returned.
  ghost function SignedNonce(sig: Signature, seckey: int, message: int, nonce: int): int {
    if Recoding.IsHigh(RawS(sig.r, seckey, message, nonce)) then -nonce else nonce
  }

  lemma {:induction false} SignedEquation(g: Group<CurvePoint>, gen: CurvePoint, seckey: int, message: int, nonce: int, sig: Signature)
    requires FermatN() && 0 < nonce < N && IsSigned(g, gen, seckey, message, nonce, true, sig)
    ensures Cong(sig.s * SignedNonce(sig, seckey, message, nonce), sig.r * seckey + message, N)
  {
    SigningEquation(sig.r, seckey, message, nonce);
    var s0 := RawS(sig.r, seckey, message, nonce);
    if Recoding.IsHigh(s0) {
      assert (N - s0) * -nonce == s0 * nonce + -nonce * N;
      CongIntro((N - s0) * -nonce, s0 * nonce, -nonce, N);
    }
  }

  // ---- combinations of the key and the generator ----

  // b*q + c*gen, with q itself a multiple of gen.
  lemma {:induction false} OnGenerator(g: Group<CurvePoint>, gen: CurvePoint, b: int, d: int, c: int, j: int)
    requires g.HasExponent(N) && Cong(b * d + c, j, N)
    ensures g.add(g.Times(b, g.Times(d, gen)), g.Times(c, gen)) == g.Times(j, gen)
  {
    TimesTimes(g, b, d, gen);
    TimesAdd(g, b * d, c, gen);
    TimesCong(g, b * d + c, j, gen, N);
  }

  // a*(b*q + c*gen) + d*gen comes back to q when the factors cancel.
  lemma {:induction false} ComesBack(g: Group<CurvePoint>, gen: CurvePoint, q: CurvePoint, a: int, b: int, c: int, d: int)
    requires g.HasExponent(N) && Cong(a * b, 1, N) && Cong(a * c + d, 0, N)
    ensures g.add(g.Times(a, g.add(g.Times(b, q), g.Times(c, gen))), g.Times(d, gen)) == q
  {
    TimesSum(g, a, g.Times(b, q), g.Times(c, gen));
    TimesTimes(g, a, b, q);
    TimesTimes(g, a, c, gen);
    Assoc(g, g.Times(a * b, q), g.Times(a * c, gen), g.Times(d, gen));
    TimesAdd(g, a * c, d, gen);
    TimesCong(g, a * b, 1, q, N);
    TimesCong(g, a * c + d, 0, gen, N);
    TimesOne(g, q);
  }

  // sn*(r*d + m) is j when s*j is r*d + m.
  lemma {:induction false} Solve(s: int, r: int, d: int, m: int, j: int)
    requires FermatN() && 0 < s < N && Cong(s * j, r * d + m, N)
    ensures Cong(MulN(InvN(s), r) * d + MulN(InvN(s), m), j, N)
  {
    var sn := InvN(s);
    MulNCong(sn, r);
    MulNCong(sn, m);
    CongMul(MulN(sn, r), sn * r, d, d, N);
    CongAdd(MulN(sn, r) * d, sn * r * d, MulN(sn, m), sn * m, N);
    assert sn * r * d + sn * m == sn * (r * d + m);
    InvNIsInverse(s);
    CongMul(sn, sn, s * j, r * d + m, N);
    CongMul(s * sn, 1, j, j, N);
    assert sn * (s * j) == s * sn * j;
  }

  // The recomputed point of a produced signature is the nonce point or its negative.
  lemma {:induction false} SignedRecomputes(g: Group<CurvePoint>, gen: CurvePoint, seckey: int, message: int, nonce: int, sig: Signature)
    requires g.HasExponent(N) && FermatN() && 0 < nonce < N && IsSigned(g, gen, seckey, message, nonce, true, sig)
    ensures Recomputed(g, gen, g.Times(seckey, gen), sig.r, sig.s, message)
         == g.Times(SignedNonce(sig, seckey, message, nonce), gen)
  {
    var sn, j := InvN(sig.s), SignedNonce(sig, seckey, message, nonce);
    SignedEquation(g, gen, seckey, message, nonce, sig);
    Solve(sig.s, sig.r, seckey, message, j);
    OnGenerator(g, gen, MulN(sn, sig.r), seckey, MulN(sn, message), j);
  }

  lemma {:induction false} SignedNoncePoint(g: Group<CurvePoint>, gen: CurvePoint, seckey: int, message: int, nonce: int, sig: Signature)
    requires IsCurveGroup(g) && IsSigned(g, gen, seckey, message, nonce, true, sig)
    ensures var x := g.Times(SignedNonce(sig, seckey, message, nonce), gen); var rp := g.Times(nonce, gen);
      x.Affine? && x.x == rp.x && (x.y % 2 == 1 <==> sig.recid % 2 == 1)
  {
    TimesNeg(g, nonce, gen);
    NegIsMirror(g, g.Times(nonce, gen));
    OtherParity(g.Times(nonce, gen).y);
  }

  // Every signature produced with a nonzero r is accepted.
  lemma {:induction false} SignedVerifies(g: Group<CurvePoint>, gen: CurvePoint, seckey: int, message: int, nonce: int, sig: Signature)
    requires IsCurveGroup(g) && FermatN() && 0 < nonce < N
    requires IsSigned(g, gen, seckey, message, nonce, true, sig)
    ensures Accepts(g, gen, g.Times(seckey, gen), sig.r, sig.s, message) <==> sig.r != 0
  {
    SignedRecomputes(g, gen, seckey, message, nonce, sig);
    SignedNoncePoint(g, gen, seckey, message, nonce, sig);
  }

  // ---- recovery ----

  // The point that recid singles out among those whose x is r modulo N.
  ghost predicate IsCandidate(x: Point, r: int, recid: nat) {
    x.Affine? && x.x == (if recid >= 2 then r + N else r) && (x.y % 2 == 1 <==> recid % 2 == 1)
  }

  ghost function KeyFrom(g: Group<CurvePoint>, gen: CurvePoint, x: CurvePoint, r: int, s: int, m: int): CurvePoint {
    g.add(g.Times(MulN(InvN(r), s), x), g.Times(Recoding.Negate(MulN(InvN(r), m)), gen))
  }

  // q is the key that recovery must report.
  ghost predicate Recovers(g: Group<CurvePoint>, gen: CurvePoint, r: int, s: int, m: int, recid: nat, q: CurvePoint) {
    r != 0 && s != 0 && q.Affine? && exists x: CurvePoint :: IsCandidate(x, r, recid) && q == KeyFrom(g, gen, x, r, s, m)
  }

  // secp256k1_ecdsa_sig_recover: the key found is in affine coordinates.
  method SigRecover(ghost g: Group<CurvePoint>, ghost gen: CurvePoint, preG: seq<Storage>, sigr: int, sigs: int, message: int,
                    recid: nat) returns (ok: bool, pubkey: Ge, ghost q: CurvePoint)
    requires Fermat() && FermatN() && IsCurveGroup(g) && recid < 4
    requires |preG| == Strauss.TableSize(Strauss.WINDOW_G) && IsStoredTable(g, preG, gen)
    requires 0 <= sigr < N && 0 <= sigs < N && 0 <= message < N
    ensures ok ==> RepresentsAffine(pubkey, 1, q) && Recovers(g, gen, sigr, sigs, message, recid, q)
    ensures !ok ==> forall q' :: !Recovers(g, gen, sigr, sigs, message, recid, q')
  {
    pubkey, q := Ge(0, 0, true), Infinity;
    if sigr == 0 || sigs == 0 {
      return false, pubkey, q;
    }
    var found, x := FindCandidate(g, sigr, recid);
    if !found {
      return false, pubkey, q;
    }
    OneCandidate(g, x, sigr, recid);
    var rn := InvN(sigr);
    var u1 := MulN(rn, message);
    u1 := Recoding.Negate(u1);
    var u2 := MulN(rn, sigs);
    var qj := Ecmult(g, gen, preG, Gej(x.x, x.y, 1, false), u2, Some(u1), x);
    q := KeyFrom(g, gen, x, sigr, sigs, message);
    pubkey, qj := GeSetGejVar(qj, q);
    ok := !qj.infinity;
  }

  // Lines 100-112: the point whose x is r, or r + N if recid asks for it and that is below P.
  method FindCandidate(ghost g: Group<CurvePoint>, sigr: int, recid: nat) returns (found: bool, x: CurvePoint)
    requires Fermat() && IsCurveGroup(g) && recid < 4 && 0 <= sigr < N
    ensures found ==> IsCandidate(x, sigr, recid)
    ensures !found ==> forall x': CurvePoint :: !IsCandidate(x', sigr, recid)
  {
    var fx := sigr;
    if recid >= 2 {
      if fx >= P - N {
        return false, Infinity;
      }
      fx := fx + N;
    }
    found, x := GeSetXoVar(fx, recid % 2 == 1);
    if found {
      NoPointOfOrderTwo(g, x);
    } else {
      NoCandidate(sigr, recid, fx);
    }
  }

  lemma {:induction false} NoCandidate(r: int, recid: nat, fx: int)
    requires fx == (if recid >= 2 then r + N else r) && forall y :: !IsPointAt(fx, y)
    ensures forall x: CurvePoint :: !IsCandidate(x, r, recid)
  {
    forall x: CurvePoint
      ensures !IsCandidate(x, r, recid)
    {
      if x.Affine? {
        assert IsPointAt(x.x, x.y);
      }
    }
  }

  lemma {:induction false} OneCandidate(g: Group<CurvePoint>, x: CurvePoint, r: int, recid: nat)
    requires Fermat() && IsCurveGroup(g) && IsCandidate(x, r, recid)
    ensures forall x': CurvePoint :: IsCandidate(x', r, recid) ==> x' == x
  {
    forall x': CurvePoint | IsCandidate(x', r, recid)
      ensures x' == x
    {
      ParityDecides(g, x, x');
    }
  }

  // Recovery undoes verification: the key leads back to the point, and the point to the key.
  lemma {:induction false} KeyAndPoint(g: Group<CurvePoint>, gen: CurvePoint, r: int, s: int, m: int)
    requires g.HasExponent(N) && FermatN() && 0 < r < N && 0 < s < N
    ensures forall x :: Recomputed(g, gen, KeyFrom(g, gen, x, r, s, m), r, s, m) == x
    ensures forall q :: KeyFrom(g, gen, Recomputed(g, gen, q, r, s, m), r, s, m) == q
  {
    var rn, sn := InvN(r), InvN(s);
    Factors(r, s, m);
    forall x
      ensures Recomputed(g, gen, KeyFrom(g, gen, x, r, s, m), r, s, m) == x
    {
      ComesBack(g, gen, x, MulN(sn, r), MulN(rn, s), Recoding.Negate(MulN(rn, m)), MulN(sn, m));
    }
    forall q
      ensures KeyFrom(g, gen, Recomputed(g, gen, q, r, s, m), r, s, m) == q
    {
      ComesBack(g, gen, q, MulN(rn, s), MulN(sn, r), MulN(sn, m), Recoding.Negate(MulN(rn, m)));
    }
  }

  lemma {:induction false} Factors(r: int, s: int, m: int)
    requires FermatN() && 0 < r < N && 0 < s < N
    ensures var rn, sn := InvN(r), InvN(s);
      && Cong(MulN(sn, r) * MulN(rn, s), 1, N) && Cong(MulN(rn, s) * MulN(sn, r), 1, N)
      && Cong(MulN(sn, r) * Recoding.Negate(MulN(rn, m)) + MulN(sn, m), 0, N)
      && Cong(MulN(rn, s) * MulN(sn, m) + Recoding.Negate(MulN(rn, m)), 0, N)
  {
    var rn, sn := InvN(r), InvN(s);
    InvNIsInverse(r);
    InvNIsInverse(s);
    InverseFactors(r, rn, s, sn);
    OppositeFactors(r, rn, sn, m);
    OppositeFactors(s, sn, rn, m);
    OppositeSums(MulN(sn, r), MulN(rn, m), MulN(sn, m), MulN(rn, s) * MulN(sn, m));
  }

  // A product and a term that cancel modulo N.
  lemma {:induction false} OppositeSums(a: int, u: int, v: int, w: int)
    requires 0 <= u < N && Cong(v, a * u, N) && Cong(w, u, N)
    ensures Cong(a * Recoding.Negate(u) + v, 0, N) && Cong(w + Recoding.Negate(u), 0, N)
  {
    NegateCong(u);
    CongMul(a, a, Recoding.Negate(u), -u, N);
    CongAdd(a * Recoding.Negate(u), a * -u, v, a * u, N);
    CongAdd(w, u, Recoding.Negate(u), -u, N);
    assert a * -u + a * u == 0;
  }

  lemma {:induction false} NegateCong(a: int)
    requires 0 <= a < N
    ensures Cong(Recoding.Negate(a), -a, N)
  {
    if a != 0 {
      CongIntro(N - a, -a, 1, N);
    }
  }

  lemma {:induction false} InverseFactors(r: int, rn: int, s: int, sn: int)
    requires Cong(r * rn, 1, N) && Cong(s * sn, 1, N)
    ensures Cong(MulN(sn, r) * MulN(rn, s), 1, N) && Cong(MulN(rn, s) * MulN(sn, r), 1, N)
  {
    MulNCong(sn, r);
    MulNCong(rn, s);
    CongMul(MulN(sn, r), sn * r, MulN(rn, s), rn * s, N);
    CongMul(r * rn, 1, s * sn, 1, N);
    assert sn * r * (rn * s) == r * rn * (s * sn);
    assert MulN(rn, s) * MulN(sn, r) == MulN(sn, r) * MulN(rn, s);
  }

  // (sn*r) * (rn*m) is sn*m.
  lemma {:induction false} OppositeFactors(r: int, rn: int, sn: int, m: int)
    requires Cong(r * rn, 1, N)
    ensures Cong(MulN(sn, m), MulN(sn, r) * MulN(rn, m), N)
    ensures Cong(MulN(sn, r) * MulN(rn, m), MulN(sn, m), N)
  {
    MulNCong(sn, r);
    MulNCong(rn, m);
    MulNCong(sn, m);
    CongMul(MulN(sn, r), sn * r, MulN(rn, m), rn * m, N);
    CongMul(r * rn, 1, sn * m, sn * m, N);
    assert sn * r * (rn * m) == r * rn * (sn * m);
  }

  // Recovery with some recid reports q exactly when q verifies the signature.
  lemma {:induction false} RecoveredKeysAreThoseThatVerify(g: Group<CurvePoint>, gen: CurvePoint, r: int, s: int, m: int, q: CurvePoint)
    requires g.HasExponent(N) && FermatN() && 0 <= r < N && 0 <= s < N && q.Affine?
    ensures (exists recid :: 0 <= recid < 4 && Recovers(g, gen, r, s, m, recid, q)) <==> Accepts(g, gen, q, r, s, m)
  {
    if r != 0 && s != 0 {
      KeyAndPoint(g, gen, r, s, m);
      if recid :| 0 <= recid < 4 && Recovers(g, gen, r, s, m, recid, q) {
        var x: CurvePoint :| IsCandidate(x, r, recid) && q == KeyFrom(g, gen, x, r, s, m);
        assert Recomputed(g, gen, q, r, s, m) == x;
        TwoCandidates(x.x, r);
      }
      if Accepts(g, gen, q, r, s, m) {
        var x := Recomputed(g, gen, q, r, s, m);
        TwoCandidates(x.x, r);
        var recid := (if x.x == r then 0 else 2) + (if x.y % 2 == 1 then 1 else 0);
        assert IsCandidate(x, r, recid);
        assert Recovers(g, gen, r, s, m, recid, q);
      }
    }
  }

  // Signing then recovering with the recid produced returns the signer's key.
  lemma {:induction false} SignedRecovers(g: Group<CurvePoint>, gen: CurvePoint, seckey: int, message: int, nonce: int, sig: Signature)
    requires IsCurveGroup(g) && FermatN() && gen.Affine?
    requires 0 < seckey < N && 0 < nonce < N && IsSigned(g, gen, seckey, message, nonce, true, sig)
    ensures Recovers(g, gen, sig.r, sig.s, message, sig.recid, g.Times(seckey, gen)) <==> sig.r != 0
  {
    if sig.r != 0 {
      var q, x := g.Times(seckey, gen), g.Times(SignedNonce(sig, seckey, message, nonce), gen);
      OnlyZeroVanishes(g, gen, seckey);
      KeyAndPoint(g, gen, sig.r, sig.s, message);
      SignedRecomputes(g, gen, seckey, message, nonce, sig);
      SignedNoncePoint(g, gen, seckey, message, nonce, sig);
      TwoCandidates(x.x, sig.r);
      assert IsCandidate(x, sig.r, sig.recid);
      assert q == KeyFrom(g, gen, x, sig.r, sig.s, message);
    }
  }
}
