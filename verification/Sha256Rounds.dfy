// The SHA-256 transformation: sixteen words that roll and eight registers that
// take turns compute the 64 rounds of FIPS 180-4, section 6.2.2.
module Sha256Rounds {

  // Addition of words and the logical functions of section 4.1.2.
  datatype Ops<!W(!new)> = Ops(add: (W, W) -> W, ch: (W, W, W) -> W, maj: (W, W, W) -> W,
                              bigSigma0: W -> W, bigSigma1: W -> W, sigma0: W -> W, sigma1: W -> W, k: nat -> W)

  ghost predicate CommAt<W(!new)>(o: Ops<W>, a: W, b: W) { o.add(a, b) == o.add(b, a) }

  ghost predicate Commutes<W(!new)>(o: Ops<W>) { forall a, b :: CommAt(o, a, b) }

  // ---- the standard ----

  // The message schedule.
  function Schedule<W(!new)>(o: Ops<W>, chunk: seq<W>, t: nat): W
    requires |chunk| == 16
    decreases t, chunk
  {
    if t < 16 then chunk[t]
    else o.add(o.add(o.add(o.sigma1(Schedule(o, chunk, t - 2)), Schedule(o, chunk, t - 7)), o.sigma0(Schedule(o, chunk, t - 15))),
               Schedule(o, chunk, t - 16))
  }

  // One round on the working variables a to h.
  function Step<W(!new)>(o: Ops<W>, v: seq<W>, k: W, w: W): (r: seq<W>)
    requires |v| == 8
    ensures |r| == 8
  {
    var t1 := o.add(o.add(o.add(o.add(v[7], o.bigSigma1(v[4])), o.ch(v[4], v[5], v[6])), k), w);
    var t2 := o.add(o.bigSigma0(v[0]), o.maj(v[0], v[1], v[2]));
    [o.add(t1, t2), v[0], v[1], v[2], o.add(v[3], t1), v[4], v[5], v[6]]
  }

  function Rounds<W(!new)>(o: Ops<W>, s: seq<W>, chunk: seq<W>, t: nat): (r: seq<W>)
    requires |s| == 8 && |chunk| == 16
    ensures |r| == 8
    decreases t, s
  {
    if t == 0 then s else Step(o, Rounds(o, s, chunk, t - 1), o.k(t - 1), Schedule(o, chunk, t - 1))
  }

  function AddAll<W(!new)>(o: Ops<W>, s: seq<W>, v: seq<W>): (r: seq<W>)
    requires |s| == 8 && |v| == 8
    ensures |r| == 8
  {
    seq(8, i requires 0 <= i < 8 => o.add(s[i], v[i]))
  }

  function Compress<W(!new)>(o: Ops<W>, s: seq<W>, chunk: seq<W>): (r: seq<W>)
    requires |s| == 8 && |chunk| == 16
    ensures |r| == 8
  {
    AddAll(o, s, Rounds(o, s, chunk, 64))
  }

  // ---- the code ----

  // Which register plays role r in round t: the roles move down by one each round.
  function Register(t: nat, r: nat): (i: nat)
    requires r < 8
    ensures i < 8
  {
    var s := t % 8;
    if r >= s then r - s else r + 8 - s
  }

  // The registers seen through their roles.
  ghost predicate PlaysRoles<W(!new)>(regs: seq<W>, v: seq<W>, t: nat) {
    |regs| == 8 && |v| == 8 && forall r :: 0 <= r < 8 ==> regs[Register(t, r)] == v[r]
  }

  // Before round t the rolling words are the last sixteen of the schedule.
  ghost predicate Rolls<W(!new)>(o: Ops<W>, w: seq<W>, chunk: seq<W>, t: nat) {
    && |w| == 16 && |chunk| == 16 && t >= 16
    && forall i :: t - 16 <= i < t ==> w[i % 16] == Schedule(o, chunk, i)
  }

  // The macro Round: two registers change.
  function Round<W(!new)>(o: Ops<W>, regs: seq<W>, t: nat, k: W, w: W): (r: seq<W>)
    requires |regs| == 8
    ensures |r| == 8
  {
    var a, b, c, d := regs[Register(t, 0)], regs[Register(t, 1)], regs[Register(t, 2)], regs[Register(t, 3)];
    var e, f, g, h := regs[Register(t, 4)], regs[Register(t, 5)], regs[Register(t, 6)], regs[Register(t, 7)];
    var t1 := o.add(o.add(o.add(o.add(h, o.bigSigma1(e)), o.ch(e, f, g)), k), w);
    var t2 := o.add(o.bigSigma0(a), o.maj(a, b, c));
    regs[Register(t, 3) := o.add(d, t1)][Register(t, 7) := o.add(t1, t2)]
  }

  lemma {:induction false} RolesMove(t: nat)
    ensures Register(t + 1, 0) == Register(t, 7)
    ensures forall r :: 0 <= r < 7 ==> Register(t, r) == Register(t + 1, r + 1)
    ensures forall q, r :: 0 <= q < 8 && 0 <= r < 8 && q != r ==> Register(t, q) != Register(t, r)
  {
    assert (t + 1) % 8 == if t % 8 == 7 then 0 else t % 8 + 1;
  }

  // A round on the registers is a round on their roles.
  lemma {:induction false} RoundIsStep<W(!new)>(o: Ops<W>, regs: seq<W>, v: seq<W>, t: nat, k: W, w: W)
    requires PlaysRoles(regs, v, t)
    ensures PlaysRoles(Round(o, regs, t, k, w), Step(o, v, k, w), t + 1)
  {
    RolesMove(t);
  }

  method DoRound<W(!new)>(o: Ops<W>, regs: seq<W>, t: nat, k: W, w: W, ghost v: seq<W>) returns (r: seq<W>)
    requires PlaysRoles(regs, v, t)
    ensures PlaysRoles(r, Step(o, v, k, w), t + 1)
  {
    RoundIsStep(o, regs, v, t, k, w);
    r := Round(o, regs, t, k, w);
  }

  // w[t] += sigma1(w[t-2]) + w[t-7] + sigma0(w[t-15]), indices modulo 16
  function Roll<W(!new)>(o: Ops<W>, w: seq<W>, t: nat): (r: seq<W>)
    requires |w| == 16
    ensures |r| == 16
  {
    var sum := o.add(o.add(o.sigma1(w[(t + 14) % 16]), w[(t + 9) % 16]), o.sigma0(w[(t + 1) % 16]));
    w[t % 16 := o.add(w[t % 16], sum)]
  }

  lemma {:induction false} RollIsSchedule<W(!new)>(o: Ops<W>, w: seq<W>, chunk: seq<W>, t: nat)
    requires Commutes(o) && Rolls(o, w, chunk, t)
    ensures Rolls(o, Roll(o, w, t), chunk, t + 1)
  {
    Indices(t);
    var sum := o.add(o.add(o.sigma1(w[(t + 14) % 16]), w[(t + 9) % 16]), o.sigma0(w[(t + 1) % 16]));
    assert CommAt(o, w[t % 16], sum);
    assert w[(t - 2) % 16] == Schedule(o, chunk, t - 2) && w[(t - 7) % 16] == Schedule(o, chunk, t - 7);
    assert w[(t - 15) % 16] == Schedule(o, chunk, t - 15) && w[(t - 16) % 16] == Schedule(o, chunk, t - 16);
    forall i | t - 15 <= i < t + 1
      ensures Roll(o, w, t)[i % 16] == Schedule(o, chunk, i)
    {
      if i < t {
        OtherIndex(i, t);
        assert w[i % 16] == Schedule(o, chunk, i);
      }
    }
  }

  lemma {:induction false} Indices(t: nat)
    requires t >= 16
    ensures (t + 14) % 16 == (t - 2) % 16 && (t + 9) % 16 == (t - 7) % 16 && (t + 1) % 16 == (t - 15) % 16 && t % 16 == (t - 16) % 16
  {
  }

  lemma {:induction false} OtherIndex(i: nat, t: nat)
    requires i < t <= i + 15
    ensures i % 16 != t % 16
  {
  }

  // Lines 53-68: the first n of the sixteen rounds that load the chunk.
  method LoadRounds<W(!new)>(o: Ops<W>, s: seq<W>, chunk: seq<W>, n: nat) returns (regs: seq<W>)
    requires |s| == 8 && |chunk| == 16 && n <= 16
    ensures PlaysRoles(regs, Rounds(o, s, chunk, n), n)
  {
    regs := s;
    StartRoles(o, s, chunk);
    for t := 0 to n
      invariant PlaysRoles(regs, Rounds(o, s, chunk, t), t)
    {
      ghost var v := Rounds(o, s, chunk, t);
      RoundsNext(o, s, chunk, t);
      assert Schedule(o, chunk, t) == chunk[t];
      regs := DoRound(o, regs, t, o.k(t), chunk[t], v);
    }
  }

  lemma {:induction false} RoundsNext<W(!new)>(o: Ops<W>, s: seq<W>, chunk: seq<W>, t: nat)
    requires |s| == 8 && |chunk| == 16
    ensures Rounds(o, s, chunk, t + 1) == Step(o, Rounds(o, s, chunk, t), o.k(t), Schedule(o, chunk, t))
  {
  }

  // Lines 70-119: forty-eight rounds extend it.
  method ExtendRounds<W(!new)>(o: Ops<W>, ghost s: seq<W>, chunk: seq<W>, regs0: seq<W>) returns (regs: seq<W>)
    requires Commutes(o) && |s| == 8 && |chunk| == 16
    requires PlaysRoles(regs0, Rounds(o, s, chunk, 16), 16)
    ensures PlaysRoles(regs, Rounds(o, s, chunk, 64), 64)
  {
    regs := regs0;
    var w := chunk;
    for t := 16 to 64
      invariant PlaysRoles(regs, Rounds(o, s, chunk, t), t) && Rolls(o, w, chunk, t)
    {
      RollIsSchedule(o, w, chunk, t);
      w := Roll(o, w, t);
      ghost var v := Rounds(o, s, chunk, t);
      assert w[t % 16] == Schedule(o, chunk, t);
      RoundsNext(o, s, chunk, t);
      regs := DoRound(o, regs, t, o.k(t), w[t % 16], v);
    }
  }

  // secp256k1_sha256_transform, its unrolled rounds rolled up.
  method Transform<W(!new)>(o: Ops<W>, s: seq<W>, chunk: seq<W>) returns (r: seq<W>)
    requires Commutes(o) && |s| == 8 && |chunk| == 16
    ensures r == Compress(o, s, chunk)
  {
    var regs := LoadRounds(o, s, chunk, 16);
    regs := ExtendRounds(o, s, chunk, regs);
    EndRoles(regs, Rounds(o, s, chunk, 64));
    r := AddAll(o, s, regs);
  }

  lemma {:induction false} StartRoles<W(!new)>(o: Ops<W>, s: seq<W>, chunk: seq<W>)
    requires |s| == 8 && |chunk| == 16
    ensures PlaysRoles(s, Rounds(o, s, chunk, 0), 0)
  {
  }

  // After a multiple of eight rounds every register plays its own role again.
  lemma {:induction false} EndRoles<W(!new)>(regs: seq<W>, v: seq<W>)
    requires PlaysRoles(regs, v, 64)
    ensures regs == v
  {
    forall r: nat | r < 8
      ensures regs[r] == v[r]
    {
      assert Register(64, r) == r;
    }
  }

  // ---- the functions on 32-bit words ----

  // In rows of eight.
  const K: seq<seq<bv32>> := [
    [0x428a2f98, 0x71374491, 0xb5c0fbcf, 0xe9b5dba5, 0x3956c25b, 0x59f111f1, 0x923f82a4, 0xab1c5ed5],
    [0xd807aa98, 0x12835b01, 0x243185be, 0x550c7dc3, 0x72be5d74, 0x80deb1fe, 0x9bdc06a7, 0xc19bf174],
    [0xe49b69c1, 0xefbe4786, 0x0fc19dc6, 0x240ca1cc, 0x2de92c6f, 0x4a7484aa, 0x5cb0a9dc, 0x76f988da],
    [0x983e5152, 0xa831c66d, 0xb00327c8, 0xbf597fc7, 0xc6e00bf3, 0xd5a79147, 0x06ca6351, 0x14292967],
    [0x27b70a85, 0x2e1b2138, 0x4d2c6dfc, 0x53380d13, 0x650a7354, 0x766a0abb, 0x81c2c92e, 0x92722c85],
    [0xa2bfe8a1, 0xa81a664b, 0xc24b8b70, 0xc76c51a3, 0xd192e819, 0xd6990624, 0xf40e3585, 0x106aa070],
    [0x19a4c116, 0x1e376c08, 0x2748774c, 0x34b0bcb5, 0x391c0cb3, 0x4ed8aa4a, 0x5b9cca4f, 0x682e6ff3],
    [0x748f82ee, 0x78a5636f, 0x84c87814, 0x8cc70208, 0x90befffa, 0xa4506ceb, 0xbef9a3f7, 0xc67178f2]]

  function Constant(t: nat): bv32 {
    if t < 64 then K[t / 8][t % 8] else 0
  }

  // The macros.
  function Ch(x: bv32, y: bv32, z: bv32): bv32 { z ^ (x & (y ^ z)) }

  function Maj(x: bv32, y: bv32, z: bv32): bv32 { (x & y) | (z & (x | y)) }

  function BigSigma0(x: bv32): bv32 { ((x >> 2) | (x << 30)) ^ ((x >> 13) | (x << 19)) ^ ((x >> 22) | (x << 10)) }

  function BigSigma1(x: bv32): bv32 { ((x >> 6) | (x << 26)) ^ ((x >> 11) | (x << 21)) ^ ((x >> 25) | (x << 7)) }

  function Sigma0(x: bv32): bv32 { ((x >> 7) | (x << 25)) ^ ((x >> 18) | (x << 14)) ^ (x >> 3) }

  function Sigma1(x: bv32): bv32 { ((x >> 17) | (x << 15)) ^ ((x >> 19) | (x << 13)) ^ (x >> 10) }

  const SHA256: Ops<bv32> := Ops((a, b) => a + b, Ch, Maj, BigSigma0, BigSigma1, Sigma0, Sigma1, Constant)

  lemma {:induction false} Sha256Commutes()
    ensures Commutes(SHA256)
  {
    forall a, b
      ensures CommAt(SHA256, a, b)
    {
    }
  }
}
