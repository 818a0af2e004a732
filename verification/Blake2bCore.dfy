// The compression function of BLAKE2b, its initial value and its output bytes,
// as RFC 7693 has them and as the code computes them.
module Blake2bCore {
  import opened Bytes
  import opened Words
  import opened Roots
  import Blake2b

  // Addition, exclusive or, and the four rotations of the mixing function.
  datatype Ops<!W(!new)> = Ops(add: (W, W) -> W, xor: (W, W) -> W, r32: W -> W, r24: W -> W, r16: W -> W, r63: W -> W)

  // ---- RFC 7693 ----

  // The mixing function G (section 3.1).
  function Mix<W(!new)>(o: Ops<W>, v: seq<W>, a: nat, b: nat, c: nat, d: nat, x: W, y: W): (r: seq<W>)
    requires a < |v| && b < |v| && c < |v| && d < |v|
    ensures |r| == |v|
  {
    var v1 := v[a := o.add(o.add(v[a], v[b]), x)];
    var v2 := v1[d := o.r32(o.xor(v1[d], v1[a]))];
    var v3 := v2[c := o.add(v2[c], v2[d])];
    var v4 := v3[b := o.r24(o.xor(v3[b], v3[c]))];
    var v5 := v4[a := o.add(o.add(v4[a], v4[b]), y)];
    var v6 := v5[d := o.r16(o.xor(v5[d], v5[a]))];
    var v7 := v6[c := o.add(v6[c], v6[d])];
    v7[b := o.r63(o.xor(v7[b], v7[c]))]
  }

  // The message word schedule (section 2.7).
  const SIGMA: seq<seq<nat>> := [
    [0, 1, 2, 3, 4, 5, 6, 7, 8, 9, 10, 11, 12, 13, 14, 15],
    [14, 10, 4, 8, 9, 15, 13, 6, 1, 12, 0, 2, 11, 7, 5, 3],
    [11, 8, 12, 0, 5, 2, 15, 13, 10, 14, 3, 6, 7, 1, 9, 4],
    [7, 9, 3, 1, 13, 12, 11, 14, 2, 6, 5, 10, 4, 0, 15, 8],
    [9, 0, 5, 7, 2, 4, 10, 15, 14, 1, 11, 12, 6, 8, 3, 13],
    [2, 12, 6, 10, 0, 11, 8, 3, 4, 13, 7, 5, 15, 14, 1, 9],
    [12, 5, 1, 15, 14, 13, 4, 10, 0, 7, 6, 3, 9, 2, 8, 11],
    [13, 11, 7, 14, 12, 1, 3, 9, 5, 0, 15, 4, 8, 6, 2, 10],
    [6, 15, 14, 9, 11, 3, 0, 8, 12, 2, 13, 7, 1, 4, 10, 5],
    [10, 2, 8, 4, 7, 6, 1, 5, 15, 11, 9, 14, 3, 12, 13, 0]]

  // Sixteen indices of message words.
  predicate IsRow(s: seq<nat>) { |s| == 16 && forall i :: 0 <= i < 16 ==> s[i] < 16 }

  // Each of them once.
  predicate IsPermutation(s: seq<nat>) { IsRow(s) && forall i, j :: 0 <= i < j < 16 ==> s[i] != s[j] }

  // One round: the columns, then the diagonals.
  function Round<W(!new)>(o: Ops<W>, v: seq<W>, m: seq<W>, s: seq<nat>): (r: seq<W>)
    requires |v| == 16 && |m| == 16 && IsRow(s)
    ensures |r| == 16
  {
    var v1 := Mix(o, v, 0, 4, 8, 12, m[s[0]], m[s[1]]);
    var v2 := Mix(o, v1, 1, 5, 9, 13, m[s[2]], m[s[3]]);
    var v3 := Mix(o, v2, 2, 6, 10, 14, m[s[4]], m[s[5]]);
    var v4 := Mix(o, v3, 3, 7, 11, 15, m[s[6]], m[s[7]]);
    var v5 := Mix(o, v4, 0, 5, 10, 15, m[s[8]], m[s[9]]);
    var v6 := Mix(o, v5, 1, 6, 11, 12, m[s[10]], m[s[11]]);
    var v7 := Mix(o, v6, 2, 7, 8, 13, m[s[12]], m[s[13]]);
    Mix(o, v7, 3, 4, 9, 14, m[s[14]], m[s[15]])
  }

  lemma {:induction false} SigmaRows(r: nat)
    requires r < 10
    ensures IsPermutation(SIGMA[r])
  {
    if r == 0 {
      SigmaRow0();
    } else if r == 1 {
      SigmaRow1();
    } else if r == 2 {
      SigmaRow2();
    } else if r == 3 {
      SigmaRow3();
    } else if r == 4 {
      SigmaRow4();
    } else if r == 5 {
      SigmaRow5();
    } else if r == 6 {
      SigmaRow6();
    } else if r == 7 {
      SigmaRow7();
    } else if r == 8 {
      SigmaRow8();
    } else {
      SigmaRow9();
    }
  }

  lemma {:induction false} SigmaRow0()
    ensures IsPermutation(SIGMA[0])
  {
  }

  lemma {:induction false} SigmaRow1()
    ensures IsPermutation(SIGMA[1])
  {
  }

  lemma {:induction false} SigmaRow2()
    ensures IsPermutation(SIGMA[2])
  {
  }

  lemma {:induction false} SigmaRow3()
    ensures IsPermutation(SIGMA[3])
  {
  }

  lemma {:induction false} SigmaRow4()
    ensures IsPermutation(SIGMA[4])
  {
  }

  lemma {:induction false} SigmaRow5()
    ensures IsPermutation(SIGMA[5])
  {
  }

  lemma {:induction false} SigmaRow6()
    ensures IsPermutation(SIGMA[6])
  {
  }

  lemma {:induction false} SigmaRow7()
    ensures IsPermutation(SIGMA[7])
  {
  }

  lemma {:induction false} SigmaRow8()
    ensures IsPermutation(SIGMA[8])
  {
  }

  lemma {:induction false} SigmaRow9()
    ensures IsPermutation(SIGMA[9])
  {
  }

  // No two rows of the ten put the same word in the same place.
  lemma {:induction false} RowsApart(q: nat, r: nat)
    requires q < r < 10
    ensures Apart(SIGMA[q], SIGMA[r])
  {
    if r == 1 {
      RowsBefore1(q);
    } else if r == 2 {
      RowsBefore2(q);
    } else if r == 3 {
      RowsBefore3(q);
    } else if r == 4 {
      RowsBefore4(q);
    } else if r == 5 {
      RowsBefore5(q);
    } else if r == 6 {
      RowsBefore6(q);
    } else if r == 7 {
      RowsBefore7(q);
    } else if r == 8 {
      RowsBefore8(q);
    } else {
      RowsBefore9(q);
    }
  }

  predicate Apart(a: seq<nat>, b: seq<nat>) { |a| == |b| == 16 && forall i :: 0 <= i < 16 ==> a[i] != b[i] }

  lemma {:induction false} RowsBefore1(q: nat)
    requires q < 1
    ensures Apart(SIGMA[q], SIGMA[1])
  {
  }

  lemma {:induction false} RowsBefore2(q: nat)
    requires q < 2
    ensures Apart(SIGMA[q], SIGMA[2])
  {
  }

  lemma {:induction false} RowsBefore3(q: nat)
    requires q < 3
    ensures Apart(SIGMA[q], SIGMA[3])
  {
  }

  lemma {:induction false} RowsBefore4(q: nat)
    requires q < 4
    ensures Apart(SIGMA[q], SIGMA[4])
  {
  }

  lemma {:induction false} RowsBefore5(q: nat)
    requires q < 5
    ensures Apart(SIGMA[q], SIGMA[5])
  {
  }

  lemma {:induction false} RowsBefore6(q: nat)
    requires q < 6
    ensures Apart(SIGMA[q], SIGMA[6])
  {
  }

  lemma {:induction false} RowsBefore7(q: nat)
    requires q < 7
    ensures Apart(SIGMA[q], SIGMA[7])
  {
  }

  lemma {:induction false} RowsBefore8(q: nat)
    requires q < 8
    ensures Apart(SIGMA[q], SIGMA[8])
  {
  }

  lemma {:induction false} RowsBefore9(q: nat)
    requires q < 9
    ensures Apart(SIGMA[q], SIGMA[9])
  {
  }

  // The work vector after r rounds; SIGMA starts over after ten.
  function Rounds<W(!new)>(o: Ops<W>, v: seq<W>, m: seq<W>, r: nat): (u: seq<W>)
    requires |v| == 16 && |m| == 16
    ensures |u| == 16
    decreases r, v
  {
    SigmaRows((r - 1) % 10);
    if r == 0 then v else Round(o, Rounds(o, v, m, r - 1), m, SIGMA[(r - 1) % 10])
  }

  // The compression function F (section 3.2) on words.
  function Compressed<W(!new)>(o: Ops<W>, h: seq<W>, v: seq<W>, m: seq<W>): (r: seq<W>)
    requires |h| == 8 && |v| == 16 && |m| == 16
    ensures |r| == 8
  {
    FeedForward(o, h, Rounds(o, v, m, ROUNDS))
  }

  const ROUNDS: nat := 12

  function FeedForward<W(!new)>(o: Ops<W>, h: seq<W>, u: seq<W>): (r: seq<W>)
    requires |h| == 8 && |u| == 16
    ensures |r| == 8
  {
    seq(8, i requires 0 <= i < 8 => o.xor(o.xor(h[i], u[i]), u[i + 8]))
  }

  // ---- the code ----

  // blake2b_sigma
  const SIGMA12: seq<seq<nat>> := [
    [0, 1, 2, 3, 4, 5, 6, 7, 8, 9, 10, 11, 12, 13, 14, 15],
    [14, 10, 4, 8, 9, 15, 13, 6, 1, 12, 0, 2, 11, 7, 5, 3],
    [11, 8, 12, 0, 5, 2, 15, 13, 10, 14, 3, 6, 7, 1, 9, 4],
    [7, 9, 3, 1, 13, 12, 11, 14, 2, 6, 5, 10, 4, 0, 15, 8],
    [9, 0, 5, 7, 2, 4, 10, 15, 14, 1, 11, 12, 6, 8, 3, 13],
    [2, 12, 6, 10, 0, 11, 8, 3, 4, 13, 7, 5, 15, 14, 1, 9],
    [12, 5, 1, 15, 14, 13, 4, 10, 0, 7, 6, 3, 9, 2, 8, 11],
    [13, 11, 7, 14, 12, 1, 3, 9, 5, 0, 15, 4, 8, 6, 2, 10],
    [6, 15, 14, 9, 11, 3, 0, 8, 12, 2, 13, 7, 1, 4, 10, 5],
    [10, 2, 8, 4, 7, 6, 1, 5, 15, 11, 9, 14, 3, 12, 13, 0],
    [0, 1, 2, 3, 4, 5, 6, 7, 8, 9, 10, 11, 12, 13, 14, 15],
    [14, 10, 4, 8, 9, 15, 13, 6, 1, 12, 0, 2, 11, 7, 5, 3]]

  // Its twelve rows are those of the standard, the last two being the first two again.
  lemma {:induction false} SigmaRepeats(r: nat)
    requires r < 12
    ensures SIGMA12[r] == SIGMA[r % 10] && IsPermutation(SIGMA12[r])
  {
    SigmaRows(r % 10);
  }

  // The macro G.
  method G<W(!new)>(o: Ops<W>, v: array<W>, a: nat, b: nat, c: nat, d: nat, x: W, y: W)
    requires a < v.Length && b < v.Length && c < v.Length && d < v.Length
    modifies v
    ensures v[..] == Mix(o, old(v[..]), a, b, c, d, x, y)
  {
    v[a] := o.add(o.add(v[a], v[b]), x);
    v[d] := o.r32(o.xor(v[d], v[a]));
    v[c] := o.add(v[c], v[d]);
    v[b] := o.r24(o.xor(v[b], v[c]));
    v[a] := o.add(o.add(v[a], v[b]), y);
    v[d] := o.r16(o.xor(v[d], v[a]));
    v[c] := o.add(v[c], v[d]);
    v[b] := o.r63(o.xor(v[b], v[c]));
  }

  // The macro ROUND.
  method DoRound<W(!new)>(o: Ops<W>, v: array<W>, m: seq<W>, s: seq<nat>)
    requires v.Length == 16 && |m| == 16 && IsRow(s)
    modifies v
    ensures v[..] == Round(o, old(v[..]), m, s)
  {
    G(o, v, 0, 4, 8, 12, m[s[0]], m[s[1]]);
    G(o, v, 1, 5, 9, 13, m[s[2]], m[s[3]]);
    G(o, v, 2, 6, 10, 14, m[s[4]], m[s[5]]);
    G(o, v, 3, 7, 11, 15, m[s[6]], m[s[7]]);
    G(o, v, 0, 5, 10, 15, m[s[8]], m[s[9]]);
    G(o, v, 1, 6, 11, 12, m[s[10]], m[s[11]]);
    G(o, v, 2, 7, 8, 13, m[s[12]], m[s[13]]);
    G(o, v, 3, 4, 9, 14, m[s[14]], m[s[15]]);
  }

  // blake2b_compress once the words are loaded.
  method CompressWords<W(!new)>(o: Ops<W>, h: seq<W>, v0: seq<W>, m: seq<W>) returns (r: seq<W>)
    requires |h| == 8 && |v0| == 16 && |m| == 16
    ensures r == Compressed(o, h, v0, m)
  {
    var v := new W[16](i requires 0 <= i < 16 => v0[i]);
    assert v[..] == v0;
    RunRounds(o, v, m, v0, 12);
    r := FeedForward(o, h, v[..]);
  }

  method RunRounds<W(!new)>(o: Ops<W>, v: array<W>, m: seq<W>, ghost v0: seq<W>, n: nat)
    requires v.Length == 16 && |m| == 16 && v[..] == v0 && n <= 12
    modifies v
    ensures v[..] == Rounds(o, v0, m, n)
  {
    for r := 0 to n
      invariant v[..] == Rounds(o, v0, m, r)
    {
      SigmaRepeats(r);
      DoRound(o, v, m, SIGMA12[r]);
    }
  }

  // ---- on 64-bit words ----

  // rotr64 by 32, 24, 16 and 63 places
  function R32(x: bv64): bv64 { (x >> 32) | (x << 32) }

  function R24(x: bv64): bv64 { (x >> 24) | (x << 40) }

  function R16(x: bv64): bv64 { (x >> 16) | (x << 48) }

  function R63(x: bv64): bv64 { (x >> 63) | (x << 1) }

  const BLAKE2B: Ops<bv64> := Ops((a, b) => a + b, (a, b) => a ^ b, R32, R24, R16, R63)

  // They are the rotations of section 2.1.
  lemma {:induction false} Rotations(x: bv64)
    ensures R32(x) == x.RotateRight(32) && R24(x) == x.RotateRight(24)
    ensures R16(x) == x.RotateRight(16) && R63(x) == x.RotateRight(63)
  {
  }

  // The unsigned char b as a word, and the lowest eight bits of a word.
  function Octet(b: byte): bv64 { (b as bv8) as bv64 }

  function Byte(w: bv64): byte { (w & 0xFF) as int }

  // load64 and store64: the least significant byte comes first.
  function Load64(b: seq<byte>): bv64
    requires |b| == 8
  {
    Octet(b[0]) | (Octet(b[1]) << 8) | (Octet(b[2]) << 16) | (Octet(b[3]) << 24)
    | (Octet(b[4]) << 32) | (Octet(b[5]) << 40) | (Octet(b[6]) << 48) | (Octet(b[7]) << 56)
  }

  function Store64(w: bv64): (b: seq<byte>)
    ensures |b| == 8
  {
    [Byte(w), Byte(w >> 8), Byte(w >> 16), Byte(w >> 24), Byte(w >> 32), Byte(w >> 40), Byte(w >> 48), Byte(w >> 56)]
  }

  // Byte i of the memory is bits 8i to 8i+7 of the word.
  lemma {:induction false} LittleEndian(b: seq<byte>)
    requires |b| == 8
    ensures var w := Load64(b);
      && w & 0xFF == Octet(b[0]) && (w >> 8) & 0xFF == Octet(b[1]) && (w >> 16) & 0xFF == Octet(b[2])
      && (w >> 24) & 0xFF == Octet(b[3]) && (w >> 32) & 0xFF == Octet(b[4]) && (w >> 40) & 0xFF == Octet(b[5])
      && (w >> 48) & 0xFF == Octet(b[6]) && (w >> 56) & 0xFF == Octet(b[7])
  {
    Parts(b[0] as bv8, b[1] as bv8, b[2] as bv8, b[3] as bv8, b[4] as bv8, b[5] as bv8, b[6] as bv8, b[7] as bv8);
  }

  lemma {:induction false} Parts(a: bv8, b: bv8, c: bv8, d: bv8, e: bv8, f: bv8, g: bv8, h: bv8)
    ensures var w := (a as bv64) | ((b as bv64) << 8) | ((c as bv64) << 16) | ((d as bv64) << 24)
                     | ((e as bv64) << 32) | ((f as bv64) << 40) | ((g as bv64) << 48) | ((h as bv64) << 56);
      && w & 0xFF == a as bv64 && (w >> 8) & 0xFF == b as bv64 && (w >> 16) & 0xFF == c as bv64 && (w >> 24) & 0xFF == d as bv64
      && (w >> 32) & 0xFF == e as bv64 && (w >> 40) & 0xFF == f as bv64 && (w >> 48) & 0xFF == g as bv64 && (w >> 56) & 0xFF == h as bv64
  {
  }

  // Loading what was stored gives the word back.
  lemma {:induction false} LoadStore(w: bv64)
    ensures Load64(Store64(w)) == w
  {
    SameOctet(w);
    SameOctet(w >> 8);
    SameOctet(w >> 16);
    SameOctet(w >> 24);
    SameOctet(w >> 32);
    SameOctet(w >> 40);
    SameOctet(w >> 48);
    SameOctet(w >> 56);
    Joined(w);
  }

  lemma {:induction false} Joined(w: bv64)
    ensures (w & 0xFF) | (((w >> 8) & 0xFF) << 8) | (((w >> 16) & 0xFF) << 16) | (((w >> 24) & 0xFF) << 24)
            | (((w >> 32) & 0xFF) << 32) | (((w >> 40) & 0xFF) << 40) | (((w >> 48) & 0xFF) << 48) | (((w >> 56) & 0xFF) << 56) == w
  {
  }

  lemma {:induction false} SameOctet(w: bv64)
    ensures Octet(Byte(w)) == w & 0xFF
  {
    var x := (w & 0xFF) as bv8;
    Widened(x);
    BackAndForth(x);
  }

  lemma {:induction false} Widened(x: bv8)
    ensures (x as bv64) as int == x as int
  {
  }

  lemma {:induction false} BackAndForth(x: bv8)
    ensures (x as int) as bv8 == x
  {
  }

  type Chain = h: seq<bv64> | |h| == 8 witness [0, 0, 0, 0, 0, 0, 0, 0]

  // The initialization vector (section 2.6).
  const IV: Chain := [0x6a09e667f3bcc908, 0xbb67ae8584caa73b, 0x3c6ef372fe94f82b, 0xa54ff53a5f1d36f1,
    0x510e527fade682d1, 0x9b05688c2b3e6c1f, 0x1f83d9abfb41bd6b, 0x5be0cd19137e2179]

  // Its words are the first 64 bits of the fractional parts of the square roots of the first eight primes.
  lemma {:induction false} IvIsRoots(t: nat)
    requires t < 8
    ensures IsSquareRootFraction(IV[t] as int, Prime(t), 0x1_0000_0000_0000_0000)
  {
    var f := (k: nat) => k < 8 && RootAt(k);
    IvRow();
    assert AllEight(f, 0);
    OneOfEight(f, t, 0);
  }

  predicate RootAt(t: nat)
    requires t < 8
  {
    SquareRootStarts(SquareFloor(Prime(t)), IV[t] as int, Prime(t), 0x1_0000_0000_0000_0000)
  }

  lemma {:induction false} IvRow()
    ensures RootAt(0) && RootAt(1) && RootAt(2) && RootAt(3) && RootAt(4) && RootAt(5) && RootAt(6) && RootAt(7)
  {
  }

  function LoadWords(block: seq<byte>): (m: seq<bv64>)
    requires |block| == Blake2b.BLOCKBYTES
    ensures |m| == 16
  {
    seq(16, i requires 0 <= i < 16 => Load64(block[8 * i..8 * i + 8]))
  }

  // The work vector before the rounds: the counter and the last-block flag go into its last quarter.
  function Work(h: Chain, t0: bv64, t1: bv64, last: bool): (v: seq<bv64>)
    ensures |v| == 16
  {
    h + IV[..4] + [IV[4] ^ t0, IV[5] ^ t1, if last then IV[6] ^ 0xFFFF_FFFF_FFFF_FFFF else IV[6], IV[7]]
  }

  // F on bytes, for a counter of 128 bits.
  function F(h: Chain, block: seq<byte>, t: int, last: bool): Chain {
    if |block| != Blake2b.BLOCKBYTES then h
    else Compressed(BLAKE2B, h, Work(h, LowWord(t), LowWord(t / WORD64), last), LoadWords(block))
  }

  function LowWord(t: int): bv64 { W64(t) as bv64 }

  // blake2b_compress, the first finalization flag being all ones for the last block.
  method Compress(h: Chain, block: seq<byte>, t0: int, t1: int, last: bool) returns (r: Chain)
    requires |block| == Blake2b.BLOCKBYTES && 0 <= t0 < WORD64 && 0 <= t1 < WORD64
    ensures r == F(h, block, t0 + WORD64 * t1, last)
  {
    var f0: bv64 := if last then 0xFFFF_FFFF_FFFF_FFFF else 0;
    var v := CodeWork(h, LowWord(t0), LowWord(t1), f0);
    CounterWords(t0, t1);
    WorkIsCode(h, LowWord(t0), LowWord(t1), last, f0);
    r := CompressWords(BLAKE2B, h, v, LoadWords(block));
  }

  // Lines 192-203
  function CodeWork(h: Chain, t0: bv64, t1: bv64, f0: bv64): (v: seq<bv64>)
    ensures |v| == 16
  {
    h + [IV[0], IV[1], IV[2], IV[3], IV[4] ^ t0, IV[5] ^ t1, IV[6] ^ f0, IV[7] ^ 0]
  }

  lemma {:induction false} WorkIsCode(h: Chain, t0: bv64, t1: bv64, last: bool, f0: bv64)
    requires f0 == if last then 0xFFFF_FFFF_FFFF_FFFF else 0
    ensures CodeWork(h, t0, t1, f0) == Work(h, t0, t1, last)
  {
    XorZero(IV[7]);
    XorZero(IV[6]);
  }

  lemma {:induction false} XorZero(x: bv64)
    ensures x ^ 0 == x
  {
  }

  lemma {:induction false} CounterWords(t0: int, t1: int)
    requires 0 <= t0 < WORD64 && 0 <= t1 < WORD64
    ensures LowWord(t0 + WORD64 * t1) == LowWord(t0) && LowWord((t0 + WORD64 * t1) / WORD64) == LowWord(t1)
  {
    assert W64(t0 + WORD64 * t1) == t0 && (t0 + WORD64 * t1) / WORD64 == t1;
  }

  // ---- the initial value ----

  // The parameter block of sequential hashing (section 2.5).
  function ParamBlock(outlen: nat, keylen: nat): (p: seq<byte>)
    requires outlen < 256 && keylen < 256
    ensures |p| == 64
  {
    [outlen, keylen, 1, 1] + seq(60, i => 0)
  }

  // blake2b_init_param
  function InitParam(p: seq<byte>): Chain
    requires |p| == 64
  {
    seq(8, i requires 0 <= i < 8 => IV[i] ^ Load64(p[8 * i..8 * i + 8]))
  }

  // h[0] := h[0] ^ 0x01010000 ^ (kk << 8) ^ nn, as section 3.3 has it.
  lemma {:induction false} InitIsStandard(outlen: nat, keylen: nat)
    requires outlen < 256 && keylen < 256
    ensures Start(outlen, keylen)
         == IV[0 := IV[0] ^ 0x01010000 ^ (Octet(keylen) << 8) ^ Octet(outlen)]
  {
  }

  // All words of a chain value, least significant byte first.
  function ChainBytes(h: Chain): (b: seq<byte>)
    ensures |b| == Blake2b.OUTBYTES
  {
    Store64(h[0]) + Store64(h[1]) + Store64(h[2]) + Store64(h[3]) + Store64(h[4]) + Store64(h[5]) + Store64(h[6]) + Store64(h[7])
  }

  lemma {:induction false} ChainBytesAt(h: Chain, i: nat)
    requires i < 8
    ensures ChainBytes(h)[8 * i..8 * i + 8] == Store64(h[i])
  {
    JoinedAt([Store64(h[0]), Store64(h[1]), Store64(h[2]), Store64(h[3]), Store64(h[4]), Store64(h[5]), Store64(h[6]), Store64(h[7])], i);
  }

  lemma {:induction false} JoinedAt(b: seq<seq<byte>>, i: nat)
    requires |b| == 8 && i < 8 && forall k :: 0 <= k < 8 ==> |b[k]| == 8
    ensures (b[0] + b[1] + b[2] + b[3] + b[4] + b[5] + b[6] + b[7])[8 * i..8 * i + 8] == b[i]
  {
  }

  function Start(outlen: nat, keylen: nat): Chain {
    if outlen < 256 && keylen < 256 then InitParam(ParamBlock(outlen, keylen)) else IV
  }

  // The core over which the streaming state runs.
  const CORE: Blake2b.Core<Chain> := Blake2b.Core(F, Start, ChainBytes, [0, 0, 0, 0, 0, 0, 0, 0])

  lemma {:induction false} CoreIsCore()
    ensures Blake2b.IsCore(CORE)
  {
  }
}
