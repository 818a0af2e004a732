// The remaining scalar operations on eight words: negation, comparison, bit
// windows and shifts, each tied to the number the words stand for.
module ScalarBits {
  import opened Arith
  import opened Groups
  import opened Recoding
  import opened Limbs
  import opened Words
  import opened Scalar8x32
  import opened ScalarReduce

  // A reduced scalar in eight words.
  ghost predicate IsScalar(a: seq<int>) { AreWords(a, 8) && 0 <= Num(a) < N }

  // ---- negation ----

  // secp256k1_scalar_negate: the complement plus N plus 1, zero staying zero.
  method ScalarNegate(r: array<int>, a: array<int>)
    requires IsScalar(a[..]) && r.Length == 8
    modifies r
    ensures IsScalar(r[..]) && Num(r[..]) == Negate(old(Num(a[..])))
  {
    var da := a[..];
    var x := seq(8, i requires 0 <= i < 8 => W32(-1 - da[i]) + N_WORDS[i] + (if i == 0 then 1 else 0));
    ComplementSum(da, x);
    var d, carry := Chain(x);
    var t := ZeroKept(da, d);
    NegatedValue(da, d, carry, t);
    Store(r, t);
  }

  // What the mask `nonzero` leaves of the words of t: nothing if all words of a are zero.
  function ZeroKept(a: seq<int>, d: seq<int>): (t: seq<int>)
    requires AreWords(a, 8) && AreWords(d, 8)
    ensures |t| == 8
  {
    var nonzero := (W - 1) * (if OrAll(a) == 0 then 0 else 1);
    seq(8, i requires 0 <= i < 8 => And(d[i], nonzero))
  }

  lemma {:induction false} ZeroKeptOrAll(a: seq<int>, d: seq<int>)
    requires AreWords(a, 8) && AreWords(d, 8)
    ensures ZeroKept(a, d) == if OrAll(a) == 0 then seq(8, i => 0) else d
  {
    WordRadix();
    forall i | 0 <= i < 8
      ensures ZeroKept(a, d)[i] == if OrAll(a) == 0 then 0 else d[i]
    {
      FullMask(d[i], 32);
      EmptyMask(d[i]);
    }
  }

  lemma {:induction false} NegatedValue(a: seq<int>, d: seq<int>, carry: int, t: seq<int>)
    requires IsScalar(a) && AreWords(d, 8) && Num(d) + Pow2(32 * 8) * carry == N + NC + N - Num(a)
    requires t == ZeroKept(a, d)
    ensures IsScalar(t) && Num(t) == Negate(Num(a))
  {
    ZeroKeptOrAll(a, d);
    NumZero(a);
    if OrAll(a) == 0 {
      ValueZeros(t, 32);
    } else {
      Modulo256(d, carry, N + NC + N - Num(a));
      DivModUnique(N + NC + N - Num(a), N + NC, 1, N - Num(a));
    }
  }

  lemma {:induction false} NumZero(a: seq<int>)
    requires AreWords(a, 8)
    ensures OrAll(a) == 0 <==> Num(a) == 0
  {
    OrAllZero(a);
    var zero := seq(8, i => 0);
    ValueZeros(zero, 32);
    WordRadix();
    if Num(a) == 0 {
      ValueUnique(a, zero, 32);
    } else if forall i :: 0 <= i < 8 ==> a[i] == 0 {
      ValueZeros(a, 32);
    }
  }

  lemma {:induction false} ComplementSum(a: seq<int>, x: seq<int>)
    requires AreWords(a, 8) && |x| == 8
    requires forall i :: 0 <= i < 8 ==> x[i] == W32(-1 - a[i]) + N_WORDS[i] + (if i == 0 then 1 else 0)
    ensures Num(x) == N + NC + N - Num(a)
    ensures forall i :: 0 <= i < 8 ==> 0 <= x[i] <= 8 * W
  {
    var top := [W, W - 1, W - 1, W - 1, W - 1, W - 1, W - 1, W - 1];
    var rest := seq(8, i requires 0 <= i < 8 => top[i] - a[i]);
    OrderWords();
    forall i | 0 <= i < 8
      ensures x[i] == rest[i] + N_WORDS[i] && 0 <= x[i] <= 8 * W
    {
      Complement(a[i]);
    }
    ValueSum(rest, N_WORDS, x, 32);
    ValueSum(rest, a, top, 32);
    TopValue();
  }

  lemma {:induction false} TopValue()
    ensures Num([W, W - 1, W - 1, W - 1, W - 1, W - 1, W - 1, W - 1]) == N + NC
  {
    NumIsHorner([W, W - 1, W - 1, W - 1, W - 1, W - 1, W - 1, W - 1]);
  }

  lemma {:induction false} Complement(x: int)
    requires 0 <= x < W
    ensures W32(-1 - x) == W - 1 - x
  {
  }

  // secp256k1_scalar_cond_negate: a mask of ones makes it the negation, a mask
  // of zeros an addition of nothing.
  method CondNegate(r: array<int>, flag: bool) returns (sign: int)
    requires IsScalar(r[..])
    modifies r
    ensures IsScalar(r[..]) && sign == (if flag then -1 else 1)
    ensures Num(r[..]) == if flag then Negate(old(Num(r[..]))) else old(Num(r[..]))
  {
    var dr := r[..];
    var mask := W32((if flag then 0 else 1) - 1);
    var n := OrderPlusOne();
    var x := seq(8, i requires 0 <= i < 8 => Xor(dr[i], mask) + And(n[i], mask));
    MaskedSum(dr, n, flag, mask, x);
    var d, carry := Chain(x);
    var t := ZeroKept(dr, d);
    MaskedValue(dr, flag, d, carry, t);
    Store(r, t);
    return 2 * (if mask == 0 then 1 else 0) - 1;
  }

  function OrderPlusOne(): (n: seq<int>)
    ensures AreWords(n, 8)
    ensures forall i :: 0 <= i < 8 ==> n[i] == N_WORDS[i] + (if i == 0 then 1 else 0)
  {
    seq(8, i requires 0 <= i < 8 => N_WORDS[i] + (if i == 0 then 1 else 0))
  }

  lemma {:induction false} MaskedSum(a: seq<int>, n: seq<int>, flag: bool, mask: int, x: seq<int>)
    requires AreWords(a, 8) && n == OrderPlusOne() && mask == (if flag then W - 1 else 0) && |x| == 8
    requires forall i :: 0 <= i < 8 ==> x[i] == Xor(a[i], mask) + And(n[i], mask)
    ensures Num(x) == if flag then N + NC + N - Num(a) else Num(a)
    ensures forall i :: 0 <= i < 8 ==> 0 <= x[i] <= 8 * W
  {
    MaskedWords(a, n, flag, mask, x);
    if flag {
      ComplementSum(a, x);
    }
  }

  lemma {:induction false} MaskedValue(a: seq<int>, flag: bool, d: seq<int>, carry: int, t: seq<int>)
    requires IsScalar(a) && AreWords(d, 8) && t == ZeroKept(a, d)
    requires Num(d) + Pow2(32 * 8) * carry == if flag then N + NC + N - Num(a) else Num(a)
    ensures IsScalar(t) && Num(t) == if flag then Negate(Num(a)) else Num(a)
  {
    if flag {
      NegatedValue(a, d, carry, t);
    } else {
      UnchangedValue(a, d, carry, t);
    }
  }

  lemma {:induction false} MaskedWords(a: seq<int>, n: seq<int>, flag: bool, mask: int, x: seq<int>)
    requires AreWords(a, 8) && AreWords(n, 8) && mask == (if flag then W - 1 else 0) && |x| == 8
    requires forall i :: 0 <= i < 8 ==> x[i] == Xor(a[i], mask) + And(n[i], mask)
    ensures flag ==> forall i :: 0 <= i < 8 ==> x[i] == W32(-1 - a[i]) + n[i]
    ensures !flag ==> x == a
  {
    forall i | 0 <= i < 8
      ensures x[i] == if flag then W32(-1 - a[i]) + n[i] else a[i]
    {
      MaskedWord(a[i], n[i], flag, mask);
    }
  }

  lemma {:induction false} MaskedWord(a: int, n: int, flag: bool, mask: int)
    requires 0 <= a < W && 0 <= n < W && mask == (if flag then W - 1 else 0)
    ensures Xor(a, mask) + And(n, mask) == if flag then W32(-1 - a) + n else a
  {
    WordRadix();
    Complement(a);
    FullMask(a, 32);
    FullMask(n, 32);
    EmptyMask(a);
    EmptyMask(n);
  }

  lemma {:induction false} UnchangedValue(a: seq<int>, d: seq<int>, carry: int, t: seq<int>)
    requires IsScalar(a) && AreWords(d, 8) && Num(d) + Pow2(32 * 8) * carry == Num(a)
    requires t == ZeroKept(a, d)
    ensures IsScalar(t) && Num(t) == Num(a)
  {
    ZeroKeptOrAll(a, d);
    NumZero(a);
    if OrAll(a) == 0 {
      ValueZeros(t, 32);
    } else {
      Modulo256(d, carry, Num(a));
      ModSmall(Num(a), N + NC);
    }
  }

  // ---- comparisons ----

  // Half the order, in words.
  const H_WORDS: seq<int> := [0x681B20A0, 0xDFE92F46, 0x57A4501D, 0x5D576E73, 0xFFFFFFFF, 0xFFFFFFFF, 0xFFFFFFFF, 0x7FFFFFFF]

  // secp256k1_scalar_is_high
  function IsHighWords(a: seq<int>): bool
    requires |a| == 8
  {
    var no := a[7] < H_WORDS[7];
    var yes := a[7] > H_WORDS[7] && !no;
    var no := no || ((a[6] < H_WORDS[6] || a[5] < H_WORDS[5] || a[4] < H_WORDS[4]) && !yes);
    var no := no || (a[3] < H_WORDS[3] && !yes);
    var yes := yes || (a[3] > H_WORDS[3] && !no);
    var no := no || (a[2] < H_WORDS[2] && !yes);
    var yes := yes || (a[2] > H_WORDS[2] && !no);
    var no := no || (a[1] < H_WORDS[1] && !yes);
    var yes := yes || (a[1] > H_WORDS[1] && !no);
    yes || (a[0] > H_WORDS[0] && !no)
  }

  lemma {:induction false} IsHighWordsIsHigh(a: seq<int>)
    requires AreWords(a, 8)
    ensures IsHighWords(a) <==> IsHigh(Num(a))
    ensures IsHigh(Num(a)) <==> 2 * Num(a) > N
  {
    NumIsHorner(a);
  }

  // ---- bits ----

  // secp256k1_scalar_cadd_bit: 2^bit is added, or nothing.
  method CaddBit(r: array<int>, bit: nat, flag: bool)
    requires AreWords(r[..], 8) && bit < 256
    requires flag ==> Num(r[..]) + Pow2(bit) < N + NC
    modifies r
    ensures AreWords(r[..], 8) && Num(r[..]) == old(Num(r[..])) + (if flag then Pow2(bit) else 0)
  {
    var da := r[..];
    var at := (if flag then bit else bit + 256) / 32;
    var p := Pow2(bit % 32);
    BitInWord(bit);
    var x := seq(8, i requires 0 <= i < 8 => da[i] + (if i == at then p else 0));
    BitAdded(da, at, p, x);
    var d, carry := Chain(x);
    WordsBelow(da);
    BelowModulus(d, carry, Num(x));
    Store(r, d);
  }

  lemma {:induction false} BelowModulus(d: seq<int>, carry: int, v: int)
    requires AreWords(d, 8) && Num(d) + Pow2(32 * 8) * carry == v && 0 <= v < N + NC
    ensures Num(d) == v
  {
    Modulo256(d, carry, v);
  }

  lemma {:induction false} BitInWord(bit: nat)
    ensures 0 < Pow2(bit % 32) <= W && Pow2(32 * (bit / 32)) * Pow2(bit % 32) == Pow2(bit)
  {
    WordRadix();
    Pow2Monotone(bit % 32, 32);
    Pow2Add(32 * (bit / 32), bit % 32);
  }

  lemma {:induction false} BitAdded(a: seq<int>, at: nat, p: int, x: seq<int>)
    requires AreWords(a, 8) && 0 < p <= W
    requires |x| == 8 && forall i :: 0 <= i < 8 ==> x[i] == a[i] + (if i == at then p else 0)
    ensures Num(x) == Num(a) + (if at < 8 then Pow2(32 * at) * p else 0)
    ensures forall i :: 0 <= i < 8 ==> 0 <= x[i] <= 8 * W
  {
    if at < 8 {
      assert x == a[at := a[at] + p];
      ValueUpdate(a, 32, at, a[at] + p);
    } else {
      assert x == a;
    }
  }

  // The words shifted right by n bits, each taking in the low bits of the next.
  function Shifted(d: seq<int>, n: nat): (r: seq<int>)
    requires n <= 32
    ensures |r| == |d|
  {
    if |d| == 0 then []
    else [d[0] / Pow2(n) + (if |d| > 1 then W32(d[1] * Pow2(32 - n)) else 0)] + Shifted(d[1..], n)
  }

  lemma {:induction false} ShiftedValue(d: seq<int>, n: nat)
    requires |d| > 0 && AreWords(d, |d|) && 0 < n < 32
    ensures Num(d) == d[0] % Pow2(n) + Pow2(n) * Num(Shifted(d, n))
    ensures AreWords(Shifted(d, n), |d|)
  {
    var q, q' := Pow2(n), Pow2(32 - n);
    WordRadix();
    Pow2Add(n, 32 - n);
    if |d| == 1 {
      ShiftWord(d[0], 0, q, q');
      assert d == [d[0]] && Shifted(d, n) == [d[0] / q];
      OneWord(d[0], q);
    } else {
      ShiftedValue(d[1..], n);
      ShiftWord(d[0], d[1], q, q');
      ShiftedStep(d, n, Shifted(d[1..], n), q, q');
    }
  }

  lemma {:induction false} OneWord(x: int, q: int)
    requires q > 0
    ensures Num([x]) == x % q + q * Num([x / q])
  {
    assert Num([x][1..]) == 0 && Num([x / q][1..]) == 0;
    assert x == q * (x / q) + x % q;
  }

  lemma {:induction false} ShiftedStep(d: seq<int>, n: nat, tail: seq<int>, q: int, q': int)
    requires |d| > 1 && n <= 32 && tail == Shifted(d[1..], n) && AreWords(tail, |d| - 1)
    requires q == Pow2(n) && q' == Pow2(32 - n) && q * q' == W && Pow2(32) == W
    requires Num(d[1..]) == d[1] % q + q * Num(tail)
    requires W32(d[1] * q') == (d[1] % q) * q' && 0 <= d[0] / q + (d[1] % q) * q' < W
    ensures Num(d) == d[0] % q + q * Num(Shifted(d, n)) && AreWords(Shifted(d, n), |d|)
  {
    var r := Shifted(d, n);
    assert r == [d[0] / q + (d[1] % q) * q'] + tail;
    assert r[1..] == tail;
    assert Num(r) == r[0] + W * Num(tail) && Num(d) == d[0] + W * Num(d[1..]);
    ShiftAlgebra(d[0], q, q', d[1] % q, Num(tail), r[0]);
  }

  lemma {:induction false} ShiftWord(x: int, y: int, q: int, q': int)
    requires 0 <= x < W && 0 <= y < W && q > 0 && q' > 0 && q * q' == W
    ensures W32(y * q') == (y % q) * q'
    ensures 0 <= x / q + (y % q) * q' < W
  {
    assert y == q * (y / q) + y % q;
    assert y * q' == (y / q) * W + (y % q) * q' by {
      assert (q * (y / q)) * q' == (y / q) * (q * q');
    }
    ProductBound(y % q, q', q - 1, q');
    assert (q - 1) * q' == W - q';
    QuotientBelow(x, q, q');
    DivModUnique(y * q', W, y / q, (y % q) * q');
  }

  lemma {:induction false} QuotientBelow(x: int, q: int, q': int)
    requires 0 <= x < q * q' && q > 0
    ensures 0 <= x / q < q'
  {
    assert x == q * (x / q) + x % q;
    if x / q >= q' {
      MulMonotone(q', x / q, q);
    }
    var k := x / q;
    if k < 0 {
      MulMonotone(k, -1, q);
    }
  }

  lemma {:induction false} ShiftAlgebra(x: int, q: int, q': int, e: int, v: int, r: int)
    requires q > 0 && q * q' == W && r == x / q + e * q'
    ensures x + W * (e + q * v) == x % q + q * (r + W * v)
  {
    assert x == q * (x / q) + x % q;
    assert q * (e * q') == W * e;
    assert q * (W * v) == W * (q * v);
  }

  // secp256k1_scalar_shr_int: the n low bits leave, the rest moves down.
  method ShrInt(r: array<int>, n: nat) returns (ret: int)
    requires AreWords(r[..], 8) && 0 <= Num(r[..]) && 0 < n < 16
    modifies r
    ensures AreWords(r[..], 8)
    ensures ret == Low(old(Num(r[..])), n) && Num(r[..]) == High(old(Num(r[..])), n)
  {
    ghost var d := r[..];
    ret := r[0] % Pow2(n);
    for i := 0 to 7
      invariant forall j :: 0 <= j < i ==> r[j] == d[j] / Pow2(n) + W32(d[j + 1] * Pow2(32 - n))
      invariant forall j :: i <= j < 8 ==> r[j] == d[j]
    {
      r[i] := r[i] / Pow2(n) + W32(r[i + 1] * Pow2(32 - n));
    }
    r[7] := r[7] / Pow2(n);
    ShiftedNumber(d, n, r[..]);
  }

  lemma {:induction false} ShiftedNumber(d: seq<int>, n: nat, r: seq<int>)
    requires AreWords(d, 8) && |r| == 8 && 0 < n < 32 && 0 <= Num(d)
    requires forall j :: 0 <= j < 7 ==> r[j] == d[j] / Pow2(n) + W32(d[j + 1] * Pow2(32 - n))
    requires r[7] == d[7] / Pow2(n)
    ensures AreWords(r, 8) && d[0] % Pow2(n) == Low(Num(d), n) && Num(r) == High(Num(d), n)
  {
    ShiftedAll(d, n, r);
    ShiftedValue(d, n);
    LowHighAreDivMod(Num(d), n);
    DivModUnique(Num(d), Pow2(n), Num(r), d[0] % Pow2(n));
  }

  lemma {:induction false} ShiftedAll(d: seq<int>, n: nat, r: seq<int>)
    requires |d| > 0 && |r| == |d| && n <= 32
    requires forall j :: 0 <= j < |d| - 1 ==> r[j] == d[j] / Pow2(n) + W32(d[j + 1] * Pow2(32 - n))
    requires r[|d| - 1] == d[|d| - 1] / Pow2(n)
    ensures r == Shifted(d, n)
  {
    if |d| > 1 {
      forall j | 0 <= j < |d| - 2
        ensures r[1..][j] == d[1..][j] / Pow2(n) + W32(d[1..][j + 1] * Pow2(32 - n))
      {
        assert r[j + 1] == d[j + 1] / Pow2(n) + W32(d[j + 2] * Pow2(32 - n));
      }
      ShiftedAll(d[1..], n, r[1..]);
      assert r == [r[0]] + r[1..];
      assert r[0] == d[0] / Pow2(n) + W32(d[1] * Pow2(32 - n));
    }
  }

  // secp256k1_scalar_get_bits: a window inside one word.
  function GetBits(a: seq<int>, offset: nat, count: nat): int
    requires |a| == 8 && offset < 256
  {
    (a[offset / 32] / Pow2(offset % 32)) % Pow2(count)
  }

  // secp256k1_scalar_get_bits_var: a window that may cross into the next word.
  function GetBitsVar(a: seq<int>, offset: nat, count: nat): int
    requires AreWords(a, 8) && 0 < count < 32 && offset + count <= 256
  {
    var i, k := offset / 32, offset % 32;
    if (offset + count - 1) / 32 == i then GetBits(a, offset, count)
    else QuotientIsNat(a[i], Pow2(k)); Or(a[i] / Pow2(k), W32(a[i + 1] * Pow2(32 - k))) % Pow2(count)
  }

  lemma {:induction false} QuotientIsNat(x: int, q: int)
    requires 0 <= x && 0 < q
    ensures 0 <= x / q
  {
  }

  // Dropping whole words.
  lemma {:induction false} HighWords(a: seq<int>, i: nat)
    requires AreWords(a, |a|) && i <= |a|
    ensures 0 <= Num(a) && 0 <= Num(a[i..]) && High(Num(a), 32 * i) == Num(a[i..])
  {
    WordRadix();
    ValueBound(a, 32);
    ValueBound(a[..i], 32);
    ValueBound(a[i..], 32);
    assert a == a[..i] + a[i..];
    ValueConcat(a[..i], a[i..], 32);
    LowHighAreDivMod(Num(a), 32 * i);
    DivModUnique(Num(a), Pow2(32 * i), Num(a[i..]), Num(a[..i]));
  }

  // The shifted lowest word, with everything above it shifted in.
  lemma {:induction false} HighSum(x: nat, rest: nat, k: nat)
    requires k <= 32
    ensures High(x + W * rest, k) == x / Pow2(k) + Pow2(32 - k) * rest
  {
    var q := Pow2(k);
    WordRadix();
    Pow2Add(k, 32 - k);
    LowHighAreDivMod(x + W * rest, k);
    HighSumAlgebra(x, rest, q, Pow2(32 - k));
  }

  lemma {:induction false} HighSumAlgebra(x: nat, rest: nat, q: int, q': int)
    requires q > 0 && q * q' == W
    ensures (x + W * rest) / q == x / q + q' * rest
  {
    assert x == q * (x / q) + x % q;
    assert q * (q' * rest) == W * rest;
    DivModUnique(x + W * rest, q, x / q + q' * rest, x % q);
  }

  // Low bits do not see what is added above them.
  lemma {:induction false} LowIgnores(y: nat, z: nat, k: nat, count: nat, m: int)
    requires count <= k && m == Pow2(k) * z
    ensures 0 <= m && Low(y + m, count) == y % Pow2(count)
  {
    Pow2Add(count, k - count);
    MulMonotone(0, Pow2(k), z);
    LowHighAreDivMod(y + m, count);
    assert m == (Pow2(k - count) * z) * Pow2(count) by {
      MulAssoc(Pow2(count), Pow2(k - count), z);
    }
    CongIntro(y + m, y, Pow2(k - count) * z, Pow2(count));
  }

  // Both readers see the window of the number.
  lemma {:induction false} GetBitsIsBits(a: seq<int>, offset: nat, count: nat)
    requires AreWords(a, 8) && 0 < count && offset < 256 && offset % 32 + count <= 32
    ensures 0 <= Num(a) && GetBits(a, offset, count) == Bits(Num(a), offset, count)
  {
    var i, k := offset / 32, offset % 32;
    WindowFrom(a, offset);
    InnerWindow(a[i], Num(a[i + 1..]), k, count);
  }

  lemma {:induction false} InnerWindow(x: nat, rest: nat, k: nat, count: nat)
    requires k + count <= 32
    ensures 0 <= x + W * rest && Low(High(x + W * rest, k), count) == (x / Pow2(k)) % Pow2(count)
  {
    HighSum(x, rest, k);
    QuotientIsNat(x, Pow2(k));
    LowIgnores(x / Pow2(k), rest, 32 - k, count, Pow2(32 - k) * rest);
  }

  // What a window that starts at `offset` can see.
  lemma {:induction false} WindowFrom(a: seq<int>, offset: nat)
    requires AreWords(a, 8) && offset < 256
    ensures var i := offset / 32;
      && 0 <= Num(a) && 0 <= Num(a[i + 1..])
      && High(Num(a), offset) == High(a[i] + W * Num(a[i + 1..]), offset % 32)
  {
    var i, k := offset / 32, offset % 32;
    WordRadix();
    HighWords(a, i);
    HighWords(a, i + 1);
    HighHigh(Num(a), 32 * i, k);
    assert 32 * i + k == offset;
    ValueStep(a, 32, i);
  }

  lemma {:induction false} GetBitsVarIsBits(a: seq<int>, offset: nat, count: nat)
    requires AreWords(a, 8) && 0 < count < 32 && offset + count <= 256
    ensures 0 <= Num(a) && GetBitsVar(a, offset, count) == Bits(Num(a), offset, count)
  {
    var i, k := offset / 32, offset % 32;
    if (offset + count - 1) / 32 == i {
      GetBitsIsBits(a, offset, count);
    } else {
      WindowAcross(a, offset, count);
    }
  }

  lemma {:induction false} WindowAcross(a: seq<int>, offset: nat, count: nat)
    requires AreWords(a, 8) && 0 < count < 32 && offset + count <= 256
    requires (offset + count - 1) / 32 != offset / 32
    ensures 0 <= Num(a) && GetBitsVar(a, offset, count) == Bits(Num(a), offset, count)
  {
    var i, k := offset / 32, offset % 32;
    WordRadix();
    WindowFrom(a, offset);
    ValueStep(a, 32, i + 1);
    HighWords(a, i + 2);
    HighSum(a[i], Num(a[i + 1..]), k);
    CrossingWindow(a[i], a[i + 1], Num(a[i + 2..]), k, count);
  }

  lemma {:induction false} CrossingWindow(x: int, y: int, rest: nat, k: nat, count: nat)
    requires 0 <= x < W && 0 <= y < W && 0 < k < 32 && count < 32
    requires Pow2(32) == W
    ensures 0 <= x / Pow2(k) && 0 <= x / Pow2(k) + Pow2(32 - k) * (y + W * rest)
    ensures Low(x / Pow2(k) + Pow2(32 - k) * (y + W * rest), count)
         == Or(x / Pow2(k), W32(y * Pow2(32 - k))) % Pow2(count)
  {
    var q, q' := Pow2(k), Pow2(32 - k);
    Pow2Add(k, 32 - k);
    QuotientIsNat(x, q);
    QuotientIsNat(y, q);
    QuotientBelow(x, q, q');
    ShiftWord(x, y, q, q');
    OrDisjoint(x / q, y % q, 32 - k);
    CrossingAlgebra(x / q, y, rest, q, q');
    CrossingLow(x / q + (y % q) * q', y / q, q', rest, count);
  }

  lemma {:induction false} CrossingLow(v: nat, y: int, q': int, rest: nat, count: nat)
    requires 0 <= y && 0 < q' && count < 32 && Pow2(32) == W
    ensures 0 <= v + W * (y + q' * rest) && Low(v + W * (y + q' * rest), count) == v % Pow2(count)
  {
    MulMonotone(0, q', rest);
    LowIgnores(v, y + q' * rest, 32, count, W * (y + q' * rest));
  }

  lemma {:induction false} CrossingAlgebra(h: int, y: int, rest: int, q: int, q': int)
    requires q > 0 && q * q' == W
    ensures h + q' * (y + W * rest) == (h + (y % q) * q') + W * (y / q + q' * rest)
  {
    var u, e := y / q, y % q;
    assert y == q * u + e;
    assert q' * (q * u) == W * u;
    MulDistrib(q', q * u + e, W * rest);
    MulDistrib(q', q * u, e);
  }

  // Bits that do not overlap are added.
  lemma {:induction false} OrDisjoint(x: nat, y: nat, k: nat)
    requires x < Pow2(k)
    ensures Or(x, y * Pow2(k)) == x + y * Pow2(k)
  {
    if x > 0 {
      assert y * Pow2(k) == 2 * (y * Pow2(k - 1));
      OrDisjoint(x / 2, y, k - 1);
    }
  }
}
