// Reduction modulo the group order, and the scalar operations built on it.
module ScalarReduce {
  import opened Arith
  import opened Groups
  import opened Recoding
  import opened Limbs
  import opened Words
  import opened Scalar8x32

  // 2^256 - N in words, and filled up to eight words.
  const NC_WORDS: seq<int> := [0x2FC9BEBF, 0x402DA173, 0x50B75FC4, 0x45512319, 1]
  const NC_EIGHT: seq<int> := [0x2FC9BEBF, 0x402DA173, 0x50B75FC4, 0x45512319, 1, 0, 0, 0]
  const N_WORDS: seq<int> := [0xD0364141, 0xBFD25E8C, 0xAF48A03B, 0xBAAEDCE6, 0xFFFFFFFE, 0xFFFFFFFF, 0xFFFFFFFF, 0xFFFFFFFF]
  const NC: int := 0x14551231950B75FC4402DA1732FC9BEBF

  // Eight words, the value written out.
  function Horner(a: seq<int>): int
    requires |a| == 8
  {
    a[0] + W * (a[1] + W * (a[2] + W * (a[3] + W * (a[4] + W * (a[5] + W * (a[6] + W * a[7]))))))
  }

  lemma {:induction false} NumIsHorner(a: seq<int>)
    requires |a| == 8
    ensures Num(a) == Horner(a)
  {
    WordRadix();
    ValueTail(a, 32, 8);
    ValueTail(a, 32, 7);
    ValueTail(a, 32, 6);
    ValueTail(a, 32, 5);
    ValueTail(a, 32, 4);
    ValueTail(a, 32, 3);
    ValueTail(a, 32, 2);
    ValueTail(a, 32, 1);
    ValueTail(a, 32, 0);
    assert a[0..] == a;
  }

  lemma {:induction false} OrderWords()
    ensures Num(N_WORDS) == N && AreWords(N_WORDS, 8)
  {
    NumIsHorner(N_WORDS);
  }

  lemma {:induction false} ComplementWords()
    ensures Num(NC_EIGHT) == NC && AreWords(NC_EIGHT, 8)
  {
    NumIsHorner(NC_EIGHT);
  }

  lemma {:induction false} ShortComplementWords()
    ensures Num(NC_WORDS) == NC && AreWords(NC_WORDS, 5)
  {
    ComplementWords();
    ValueTopZeros(NC_EIGHT, 32, 5);
    assert NC_EIGHT[..5] == NC_WORDS;
  }

  // ---- carry chains ----

  // t += x[i]; d[i] = t & 0xFFFFFFFF; t >>= 32, for all eight words.
  method Chain(x: seq<int>) returns (d: seq<int>, carry: int)
    requires |x| == 8 && forall i :: 0 <= i < 8 ==> 0 <= x[i] <= 8 * W
    ensures AreWords(d, 8) && 0 <= carry <= 8
    ensures Num(d) + Pow2(32 * 8) * carry == Num(x)
  {
    d := [];
    carry := 0;
    assert x[..0] == [];
    for i := 0 to 8
      invariant AreWords(d, i) && 0 <= carry <= 8
      invariant Num(d) + Pow2(32 * i) * carry == Num(x[..i])
    {
      var t := W64(carry + x[i]);
      ChainStep(d, x, i, carry, t % W, t / W);
      d := d + [t % W];
      carry := t / W;
    }
    assert x[..8] == x;
  }

  lemma {:induction false} ChainStep(d: seq<int>, x: seq<int>, i: nat, carry: int, n: int, carry': int)
    requires i < |x| && |d| == i && Num(d) + Pow2(32 * i) * carry == Num(x[..i])
    requires carry + x[i] == n + W * carry'
    ensures Num(d + [n]) + Pow2(32 * (i + 1)) * carry' == Num(x[..i + 1])
  {
    WordRadix();
    assert x[..i + 1] == x[..i] + [x[i]];
    ValueAppend(x[..i], 32, x[i]);
    ValueAppend(d, 32, n);
    assert 32 * (i + 1) == 32 * i + 32;
    Pow2Add(32 * i, 32);
    ColumnAlgebra(Pow2(32 * i), n, carry', carry, x[i]);
  }

  // ---- the comparison with the order ----

  // secp256k1_scalar_check_overflow
  function CheckOverflow(a: seq<int>): bool
    requires |a| == 8
  {
    var no := a[7] < N_WORDS[7] || a[6] < N_WORDS[6] || a[5] < N_WORDS[5] || a[4] < N_WORDS[4];
    var yes := a[4] > N_WORDS[4] && !no;
    var no := no || (a[3] < N_WORDS[3] && !yes);
    var yes := yes || (a[3] > N_WORDS[3] && !no);
    var no := no || (a[2] < N_WORDS[2] && !yes);
    var yes := yes || (a[2] > N_WORDS[2] && !no);
    var no := no || (a[1] < N_WORDS[1] && !yes);
    var yes := yes || (a[1] > N_WORDS[1] && !no);
    yes || (a[0] >= N_WORDS[0] && !no)
  }

  lemma {:induction false} CheckOverflowIsAtLeastN(a: seq<int>)
    requires AreWords(a, 8)
    ensures CheckOverflow(a) <==> Num(a) >= N
  {
    NumIsHorner(a);
  }

  // secp256k1_scalar_reduce: adds 2^256 - N when asked to, dropping the carry.
  method ReduceOnce(a: seq<int>, overflow: int) returns (r: seq<int>)
    requires AreWords(a, 8) && 0 <= overflow <= 1
    ensures AreWords(r, 8) && Num(r) == (Num(a) + overflow * NC) % (N + NC)
  {
    var x := seq(8, i requires 0 <= i < 8 => a[i] + W32(overflow * NC_EIGHT[i]));
    ComplementAdded(a, overflow, x);
    var carry;
    r, carry := Chain(x);
    Modulo256(r, carry, Num(a) + overflow * NC);
  }

  lemma {:induction false} ComplementAdded(a: seq<int>, overflow: int, x: seq<int>)
    requires AreWords(a, 8) && 0 <= overflow <= 1
    requires |x| == 8 && forall i :: 0 <= i < 8 ==> x[i] == a[i] + W32(overflow * NC_EIGHT[i])
    ensures Num(x) == Num(a) + overflow * NC
    ensures forall i :: 0 <= i < 8 ==> 0 <= x[i] <= 8 * W
  {
    ComplementWords();
    if overflow == 0 {
      assert x == a;
    } else {
      ValueSum(a, NC_EIGHT, x, 32);
    }
  }

  lemma {:induction false} Modulo256(r: seq<int>, carry: int, v: int)
    requires AreWords(r, 8) && Num(r) + Pow2(32 * 8) * carry == v
    ensures Num(r) == v % (N + NC)
  {
    WordRadix();
    ValueBound(r, 32);
    DivModUnique(v, N + NC, carry, Num(r));
  }

  lemma {:induction false} WordsBelow(a: seq<int>)
    requires AreWords(a, 8)
    ensures 0 <= Num(a) < N + NC
  {
    WordRadix();
    ValueBound(a, 32);
  }

  // The last step of addition and multiplication: a value below 2N, of which
  // the low 256 bits and the carry are known, is reduced.
  method Finish(d: seq<int>, carry: int, ghost v: int) returns (r: seq<int>, overflow: int)
    requires AreWords(d, 8) && 0 <= carry && Num(d) + Pow2(32 * 8) * carry == v < 2 * N
    ensures AreWords(r, 8) && Num(r) == v % N && overflow == v / N && 0 <= overflow <= 1
  {
    WordRadix();
    WordsBelow(d);
    CheckOverflowIsAtLeastN(d);
    FinishValue(Num(d), carry, v);
    overflow := carry + (if CheckOverflow(d) then 1 else 0);
    r := ReduceOnce(d, overflow);
  }

  lemma {:induction false} FinishValue(d: int, carry: int, v: int)
    requires 0 <= d < N + NC && 0 <= carry && d + (N + NC) * carry == v < 2 * N
    ensures var overflow := carry + (if d >= N then 1 else 0);
      0 <= overflow <= 1 && overflow == v / N && (d + overflow * NC) % (N + NC) == v % N
  {
  }

  // secp256k1_scalar_add: in place, r may be either operand.
  method ScalarAdd(r: array<int>, a: array<int>, b: array<int>) returns (overflow: int)
    requires AreWords(a[..], 8) && AreWords(b[..], 8) && r.Length == 8
    requires Num(a[..]) < N && Num(b[..]) < N
    modifies r
    ensures AreWords(r[..], 8) && Num(r[..]) == (old(Num(a[..])) + old(Num(b[..]))) % N
    ensures overflow == (old(Num(a[..])) + old(Num(b[..]))) / N
  {
    var da, db := a[..], b[..];
    var x := seq(8, i requires 0 <= i < 8 => da[i] + db[i]);
    ValueSum(da, db, x, 32);
    WordsBelow(da);
    WordsBelow(db);
    var d, carry := Chain(x);
    var t;
    t, overflow := Finish(d, carry, Num(da) + Num(db));
    Store(r, t);
  }

  // ---- 512 bits to 256 ----

  // The columns of low + n * (2^256 - N).
  ghost function FoldColumns(low: seq<int>, n: seq<int>): (c: seq<int>)
    requires |n| > 0
    ensures |c| == |n| + 4
  {
    seq(|n| + 4, x requires 0 <= x < |n| + 4 => Column(n, NC_WORDS, x) + (if x < |low| then low[x] else 0))
  }

  lemma {:induction false} FoldColumnsValue(low: seq<int>, n: seq<int>)
    requires |n| > 0 && |low| <= |n| + 4
    ensures Num(FoldColumns(low, n)) == Num(low) + Num(n) * NC
  {
    var pad := low + Zeros(|n| + 4 - |low|);
    ShortComplementWords();
    ColumnsValue(n, NC_WORDS, 32);
    ValueTopZeros(pad, 32, |low|);
    assert pad[..|low|] == low;
    ValueSum(Columns(n, NC_WORDS), pad, FoldColumns(low, n), 32);
  }

  // One column: the sumadd of low[x], then the muladd calls with the words of
  // 2^256 - N, the top one of which is 1 and takes a sumadd.
  method FoldColumn(s: Acc, low: seq<int>, n: seq<int>, x: nat) returns (r: Acc)
    requires AreWords(low, 8) && AreWords(n, |n|) && 1 <= |n| <= 8 && x < |n| + 4
    requires s.Valid() && s.c2 == 0 && (x == 1 ==> s.Total() < W * (W - 1))
    ensures r.Valid() && r.Total() == s.Total() + FoldColumns(low, n)[x] && r.Total() < 10 * W * W
  {
    r := s;
    if x == 1 {
      r := SumAddFast(r, low[x]);
    } else if x < 8 {
      r := SumAdd(r, low[x]);
    }
    ShortComplementWords();
    r := FoldProducts(r, n, NC_WORDS, x);
  }

  method FoldProducts(s: Acc, n: seq<int>, nc: seq<int>, x: nat) returns (r: Acc)
    requires AreWords(n, |n|) && 1 <= |n| <= 8 && x < |n| + 4
    requires AreWords(nc, 5) && nc[4] == 1
    requires s.Valid() && s.Total() < 2 * W * W
    ensures r.Valid() && r.Total() == s.Total() + Column(n, nc, x) && r.Total() < 10 * W * W
  {
    r := s;
    var lo := if x < 5 then 0 else x - 4;
    var hi := if x < |n| then x + 1 else |n|;
    var i := hi;
    PartialColumn(n, nc, x, lo, hi);
    while i > lo
      invariant lo <= i <= hi
      invariant r.Valid() && r.Total() + RangeSum(n, nc, x, lo, i) == s.Total() + Column(n, nc, x)
    {
      i := i - 1;
      RangeSumLast(n, nc, x, lo, i + 1);
      FoldRoom(n, nc, x, lo, i, hi);
      if x - i == 4 {
        r := SumAdd(r, n[i]);
      } else {
        r := MulAdd(r, n[i], nc[x - i]);
      }
    }
  }

  lemma {:induction false} FoldRoom(n: seq<int>, nc: seq<int>, x: nat, lo: nat, i: nat, hi: nat)
    requires AreWords(n, |n|) && AreWords(nc, 5) && lo <= i < hi <= |n| <= 8 && x - 5 < lo && hi <= x + 1
    ensures 0 <= RangeSum(n, nc, x, lo, i) && 0 <= n[i] * nc[x - i]
    ensures RangeSum(n, nc, x, lo, hi) <= 8 * (W - 1) * (W - 1)
  {
    PartialColumn(n, nc, x, lo, i);
    PartialColumn(n, nc, x, lo, hi);
    WordProduct(n[i], nc[x - i]);
  }

  method FoldColumnOut(l0: seq<int>, s0: Acc, low: seq<int>, n: seq<int>, x: nat) returns (l: seq<int>, s: Acc)
    requires AreWords(low, 8) && AreWords(n, |n|) && 1 <= |n| <= 8 && x < |n| + 4
    requires |l0| == x && Written(l0, s0, FoldColumns(low, n)) && (x == 1 ==> s0.Total() < W * (W - 1))
    ensures |l| == x + 1 && Written(l, s, FoldColumns(low, n)) && s.Total() < 10 * W
  {
    var full := FoldColumn(s0, low, n, x);
    var w;
    w, s := Extract(full);
    ColumnWritten(l0, s0, FoldColumns(low, n), full, w, s);
    l := l0 + [w];
  }

  // The lowest column, which fits in two words.
  method FoldFirst(low: seq<int>, n: seq<int>) returns (l: seq<int>, s: Acc)
    requires AreWords(low, 8) && AreWords(n, |n|) && 1 <= |n| <= 8
    ensures |l| == 1 && Written(l, s, FoldColumns(low, n)) && s.Total() < W
  {
    ghost var cols := FoldColumns(low, n);
    NothingWritten(cols);
    WordProduct(n[0], NC_WORDS[0]);
    FoldEnds(low, n);
    var full := MulAddFast(Acc(low[0], 0, 0), n[0], NC_WORDS[0]);
    var w;
    w, s := ExtractFast(full);
    ColumnWritten([], Acc(0, 0, 0), cols, full, w, s);
    l := [] + [w];
  }

  lemma {:induction false} FoldEnds(low: seq<int>, n: seq<int>)
    requires |low| == 8 && |n| > 0
    ensures FoldColumns(low, n)[0] == low[0] + n[0] * NC_WORDS[0]
    ensures |n| == 8 ==> FoldColumns(low, n)[11] == n[7]
    ensures |n| == 5 ==> FoldColumns(low, n)[7] == low[7] + n[4] * NC_WORDS[3] + n[3] && FoldColumns(low, n)[8] == n[4]
  {
    assert Column(n, NC_WORDS, 0) == n[0] * NC_WORDS[0] + RangeSum(n, NC_WORDS, 0, 1, 1);
    if |n| == 8 {
      assert Column(n, NC_WORDS, 11) == n[7] * NC_WORDS[4] + RangeSum(n, NC_WORDS, 11, 8, 8);
    }
    if |n| == 5 {
      assert RangeSum(n, NC_WORDS, 7, 4, 5) == n[4] * NC_WORDS[3] + RangeSum(n, NC_WORDS, 7, 5, 5);
      assert Column(n, NC_WORDS, 7) == n[3] * NC_WORDS[4] + RangeSum(n, NC_WORDS, 7, 4, 5);
      assert Column(n, NC_WORDS, 8) == n[4] * NC_WORDS[4] + RangeSum(n, NC_WORDS, 8, 5, 5);
    }
  }

  // 512 bits to 385 (lines 358-421): thirteen words, the top one at most 1.
  method FoldTo385(l: seq<int>) returns (m: seq<int>)
    requires AreWords(l, 16)
    ensures AreWords(m, 13) && m[12] <= 1 && Num(m) == Num(l[..8]) + Num(l[8..]) * NC
  {
    var low, n := l[..8], l[8..];
    var s;
    m, s := FoldFirst(low, n);
    m, s := FoldColumnOut(m, s, low, n, 1);
    m, s := FoldColumnOut(m, s, low, n, 2);
    m, s := FoldColumnOut(m, s, low, n, 3);
    m, s := FoldColumnOut(m, s, low, n, 4);
    m, s := FoldColumnOut(m, s, low, n, 5);
    m, s := FoldColumnOut(m, s, low, n, 6);
    m, s := FoldColumnOut(m, s, low, n, 7);
    m, s := FoldColumnOut(m, s, low, n, 8);
    m, s := FoldColumnOut(m, s, low, n, 9);
    m, s := FoldColumnOut(m, s, low, n, 10);
    m := FoldLast(m, s, low, n);
  }

  method FoldLast(l0: seq<int>, s0: Acc, low: seq<int>, n: seq<int>) returns (m: seq<int>)
    requires AreWords(low, 8) && AreWords(n, 8)
    requires |l0| == 11 && Written(l0, s0, FoldColumns(low, n)) && s0.Total() < 10 * W
    ensures AreWords(m, 13) && m[12] <= 1 && Num(m) == Num(low) + Num(n) * NC
  {
    FoldEnds(low, n);
    var full := SumAddFast(s0, n[7]);
    var w, s := ExtractFast(full);
    ColumnWritten(l0, s0, FoldColumns(low, n), full, w, s);
    AllWritten(l0 + [w], s, FoldColumns(low, n));
    FoldColumnsValue(low, n);
    m := l0 + [w] + [s.c0];
    TopIsBit(m, low, n);
  }

  lemma {:induction false} TopIsBit(m: seq<int>, low: seq<int>, n: seq<int>)
    requires AreWords(m, 13) && AreWords(low, 8) && AreWords(n, 8) && Num(m) == Num(low) + Num(n) * NC
    ensures m[12] <= 1
  {
    assert m == m[..12] + [m[12]];
    ValueAppend(m[..12], 32, m[12]);
    TwelveWords();
    WordRadix();
    ValueBound(m[..12], 32);
    WordsBelow(low);
    WordsBelow(n);
    MulMonotone(Num(n), N + NC - 1, NC);
    TopWordSmall(Num(m[..12]), m[12], Num(low), Num(n) * NC);
  }

  lemma {:induction false} TwelveWords()
    ensures Pow2(32 * 12) == (N + NC) * (W * W * W * W)
  {
    WordRadix();
    Pow2Sum(32, 32, W, W);
    Pow2Sum(64, 64, W * W, W * W);
    Pow2Sum(32 * 8, 128, N + NC, W * W * W * W);
  }

  lemma {:induction false} TopWordSmall(rest: int, top: int, low: int, high: int)
    requires 0 <= rest && low < N + NC && high <= (N + NC - 1) * NC
    requires rest + ((N + NC) * (W * W * W * W)) * top == low + high
    ensures top <= 1
  {
  }

  // What is left above 256 bits is at most 2^256 - N.
  lemma {:induction false} HighPart(m: seq<int>, low: seq<int>, n: seq<int>)
    requires AreWords(m, 13) && AreWords(low, 8) && AreWords(n, 8) && Num(m) == Num(low) + Num(n) * NC
    ensures 0 <= Num(m[8..]) <= NC
    ensures Num(m) == Num(m[..8]) + (N + NC) * Num(m[8..])
  {
    WordRadix();
    WordsBelow(low);
    WordsBelow(n);
    MulMonotone(Num(n), N + NC - 1, NC);
    assert m == m[..8] + m[8..];
    ValueConcat(m[..8], m[8..], 32);
    ValueBound(m[..8], 32);
    ValueBound(m[8..], 32);
  }

  // 385 bits to 258 (lines 423-466): eight words and what remains above them.
  method FoldTo258(m: seq<int>) returns (p: seq<int>, p8: int)
    requires AreWords(m, 13) && m[12] <= 1 && Num(m[8..]) <= NC
    ensures AreWords(p, 8) && 0 <= p8 <= 2
    ensures Num(p) + (N + NC) * p8 == Num(m[..8]) + Num(m[8..]) * NC
  {
    var low, n := m[..8], m[8..];
    var s;
    p, s := FoldFirst(low, n);
    p, s := FoldColumnOut(p, s, low, n, 1);
    p, s := FoldColumnOut(p, s, low, n, 2);
    p, s := FoldColumnOut(p, s, low, n, 3);
    p, s := FoldColumnOut(p, s, low, n, 4);
    p, s := FoldColumnOut(p, s, low, n, 5);
    p, s := FoldColumnOut(p, s, low, n, 6);
    p, p8 := FoldTop(p, s, low, n);
  }

  method FoldTop(l0: seq<int>, s0: Acc, low: seq<int>, n: seq<int>) returns (p: seq<int>, p8: int)
    requires AreWords(low, 8) && AreWords(n, 5) && n[4] <= 1 && Num(n) <= NC
    requires |l0| == 7 && Written(l0, s0, FoldColumns(low, n)) && s0.Total() < 10 * W
    ensures AreWords(p, 8) && 0 <= p8 <= 2 && Num(p) + (N + NC) * p8 == Num(low) + Num(n) * NC
  {
    ghost var cols := FoldColumns(low, n);
    FoldEnds(low, n);
    var s := SumAddFast(s0, low[7]);
    s := MulAddFast(s, n[4], NC_WORDS[3]);
    s := SumAddFast(s, n[3]);
    var w, rest := ExtractFast(s);
    ColumnWritten(l0, s0, cols, s, w, rest);
    p := l0 + [w];
    FoldTopValue(p, rest, low, n);
    p8 := W32(rest.c0 + n[4]);
  }

  lemma {:induction false} FoldTopValue(p: seq<int>, s: Acc, low: seq<int>, n: seq<int>)
    requires AreWords(low, 8) && AreWords(n, 5) && 0 <= n[4] <= 1 && Num(n) <= NC
    requires |p| == 8 && Written(p, s, FoldColumns(low, n)) && s.c1 == 0
    ensures s.c0 + n[4] <= 2 && Num(p) + (N + NC) * (s.c0 + n[4]) == Num(low) + Num(n) * NC
  {
    FoldTopIdentity(p, s, low, n);
    WordsBelow(low);
    WordsBelow(p);
    WordRadix();
    ValueBound(n, 32);
    MulMonotone(Num(n), NC, NC);
    AtMostTwo(Num(p), s.c0 + n[4], Num(low), Num(n) * NC);
  }

  lemma {:induction false} FoldTopIdentity(p: seq<int>, s: Acc, low: seq<int>, n: seq<int>)
    requires |low| == 8 && |n| == 5
    requires |p| == 8 && Written(p, s, FoldColumns(low, n)) && s.c1 == 0
    ensures Num(p) + (N + NC) * (s.c0 + n[4]) == Num(low) + Num(n) * NC
  {
    var cols := FoldColumns(low, n);
    FoldEnds(low, n);
    FoldColumnsValue(low, n);
    assert cols == cols[..8] + [cols[8]];
    ValueAppend(cols[..8], 32, cols[8]);
    WordRadix();
    MulDistrib(N + NC, s.c0, n[4]);
  }

  lemma {:induction false} AtMostTwo(p: int, p8: int, low: int, high: int)
    requires p + (N + NC) * p8 == low + high && 0 <= p && low < N + NC && high <= NC * NC
    ensures p8 <= 2
  {
  }

  // 258 bits to 256 (lines 468-485), and the final conditional reduction.
  method FoldTo256(p: seq<int>, p8: int) returns (r: seq<int>)
    requires AreWords(p, 8) && 0 <= p8 <= 2
    ensures AreWords(r, 8) && Num(r) == (Num(p) + p8 * NC) % N
  {
    var x := seq(8, i requires 0 <= i < 8 => p[i] + W64(NC_EIGHT[i] * p8));
    ComplementTimes(p, p8, x);
    var d, carry := Chain(x);
    WordsBelow(p);
    var overflow;
    r, overflow := Finish(d, carry, Num(p) + p8 * NC);
  }

  lemma {:induction false} ComplementTimes(p: seq<int>, p8: int, x: seq<int>)
    requires AreWords(p, 8) && 0 <= p8 <= 2
    requires |x| == 8 && forall i :: 0 <= i < 8 ==> x[i] == p[i] + W64(NC_EIGHT[i] * p8)
    ensures Num(x) == Num(p) + p8 * NC
    ensures forall i :: 0 <= i < 8 ==> 0 <= x[i] <= 8 * W
  {
    ComplementWords();
    var scaled := Scaled(NC_EIGHT, p8);
    forall i | 0 <= i < 8
      ensures x[i] == p[i] + scaled[i] && 0 <= x[i] <= 8 * W
    {
      SmallMultiple(NC_EIGHT[i], p8);
    }
    ValueScale(NC_EIGHT, scaled, 32, p8);
    ValueSum(p, scaled, x, 32);
  }

  lemma {:induction false} SmallMultiple(c: int, k: int)
    requires 0 <= c < W && 0 <= k <= 2
    ensures 0 <= c * k < 2 * W
  {
  }

  // secp256k1_scalar_reduce_512
  method Reduce512(l: seq<int>) returns (r: seq<int>)
    requires AreWords(l, 16)
    ensures AreWords(r, 8) && Num(r) == Num(l) % N
  {
    var m := FoldTo385(l);
    HighPart(m, l[..8], l[8..]);
    var p, p8 := FoldTo258(m);
    r := FoldTo256(p, p8);
    WordRadix();
    assert l == l[..8] + l[8..];
    ValueConcat(l[..8], l[8..], 32);
    FoldsAreCongruent(Num(l), Num(l[..8]), Num(l[8..]), Num(m), Num(m[..8]), Num(m[8..]), Num(p), p8);
  }

  lemma {:induction false} FoldsAreCongruent(l: int, l0: int, l1: int, m: int, m0: int, m1: int, p: int, p8: int)
    requires l == l0 + (N + NC) * l1 && m == l0 + l1 * NC
    requires m == m0 + (N + NC) * m1 && p + (N + NC) * p8 == m0 + m1 * NC
    ensures (p + p8 * NC) % N == l % N
  {
    CongIntro(p + p8 * NC, l, -l1 - m1 - p8, N);
  }

  // secp256k1_scalar_mul: r may be either operand.
  method ScalarMul(r: array<int>, a: array<int>, b: array<int>)
    requires AreWords(a[..], 8) && AreWords(b[..], 8) && r.Length == 8
    modifies r
    ensures AreWords(r[..], 8) && Num(r[..]) == (old(Num(a[..])) * old(Num(b[..]))) % N
  {
    var l := Mul512(a[..], b[..]);
    var t := Reduce512(l);
    Store(r, t);
  }

  // secp256k1_scalar_sqr
  method ScalarSqr(r: array<int>, a: array<int>)
    requires AreWords(a[..], 8) && r.Length == 8
    modifies r
    ensures AreWords(r[..], 8) && Num(r[..]) == (old(Num(a[..])) * old(Num(a[..]))) % N
  {
    var l := Sqr512(a[..]);
    var t := Reduce512(l);
    Store(r, t);
  }
}
