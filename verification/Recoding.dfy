// The three signed-digit recoders: sliding-window NAF for variable-time
// multiplication, fixed-window NAF for the bucket method, and the all-odd
// form used by constant-time multiplication.
module Recoding {
  import opened Arith
  import opened Groups
  import opened Words

  // The number written by the digits d, least significant first, in base 2^w.
  ghost function Value(d: seq<int>, w: nat): int {
    if |d| == 0 then 0 else d[0] + Pow2(w) * Value(d[1..], w)
  }

  lemma {:induction false} ValueZeros(d: seq<int>, w: nat)
    requires forall i :: 0 <= i < |d| ==> d[i] == 0
    ensures Value(d, w) == 0
  {
    if |d| > 0 {
      ValueZeros(d[1..], w);
    }
  }

  // Overwriting one digit moves the value by the change of that digit.
  lemma {:induction false} ValueUpdate(d: seq<int>, w: nat, i: nat, x: int)
    requires i < |d|
    ensures Value(d[i := x], w) == Value(d, w) + Pow2(w * i) * (x - d[i])
    decreases i
  {
    var d' := d[i := x];
    if i == 0 {
      assert d'[1..] == d[1..];
      assert w * i == 0;
    } else {
      assert d'[1..] == d[1..][i - 1 := x];
      ValueUpdate(d[1..], w, i - 1, x);
      var v, p, q := Value(d[1..], w), Pow2(w), Pow2(w * (i - 1));
      assert Pow2(w * i) == p * q by {
        assert w + w * (i - 1) == w * i;
        Pow2Add(w, w * (i - 1));
      }
      MulDistrib(p, v, q * (x - d[i]));
      MulAssoc(p, q, x - d[i]);
    }
  }

  // Zero digits at the top do not count.
  lemma {:induction false} ValueTopZeros(d: seq<int>, w: nat, m: nat)
    requires m <= |d|
    requires forall i :: m <= i < |d| ==> d[i] == 0
    ensures Value(d, w) == Value(d[..m], w)
  {
    if m == 0 {
      ValueZeros(d, w);
    } else {
      ValueTopZeros(d[1..], w, m - 1);
      assert d[1..][..m - 1] == d[..m][1..];
    }
  }

  lemma {:induction false} ValueStep(d: seq<int>, w: nat, i: nat)
    requires i < |d|
    ensures Value(d[i..], w) == d[i] + Pow2(w) * Value(d[i + 1..], w)
  {
    assert d[i..][1..] == d[i + 1..];
  }

  // ---- several recoded scalars at once ----

  // What the digits from position i upwards stand for, one number per term.
  ghost function Tails(terms: seq<seq<int>>, i: nat, w: nat): (c: seq<int>)
    requires forall k :: 0 <= k < |terms| ==> i <= |terms[k]|
    ensures |c| == |terms|
  {
    seq(|terms|, k requires 0 <= k < |terms| => Value(terms[k][i..], w))
  }

  lemma {:induction false} TailsStart<P(!new)>(g: Group<P>, terms: seq<seq<int>>, b: seq<P>, bits: nat, w: nat)
    requires g.IsAbelian() && |terms| == |b|
    requires forall k :: 0 <= k < |terms| ==> bits <= |terms[k]|
    requires forall k, j :: 0 <= k < |terms| && bits <= j < |terms[k]| ==> terms[k][j] == 0
    ensures g.Lin(Tails(terms, bits, w), b) == g.zero
  {
    forall k | 0 <= k < |terms|
      ensures Tails(terms, bits, w)[k] == 0
    {
      ValueZeros(terms[k][bits..], w);
    }
    LinZeros(g, Tails(terms, bits, w), b);
  }

  // ---- secp256k1_ecmult_wnaf ----

  // What the scalar is replaced by when its top bit is set.
  function SignedPart(a: int): (r: (nat, int))
    requires 0 <= a < N
    ensures r.1 == 1 || r.1 == -1
  {
    if Bits(a, 255, 1) == 1 then (N - a, -1) else (a, 1)
  }

  lemma {:induction false} SignedPartIsSmall(a: int)
    requires 0 <= a < N
    ensures SignedPart(a).0 < Pow2(255)
    ensures Cong(SignedPart(a).1 * SignedPart(a).0, a, N)
  {
    Pow2Of255();
    TopBit(a, 255);
    if a >= Pow2(255) {
      CongIntro(-(N - a), a, -1, N);
    }
  }

  lemma {:induction false} Pow2Of255()
    ensures Pow2(255) == 0x8000000000000000000000000000000000000000000000000000000000000000
  {
    assert Pow2(15) == 0x8000;
    Pow2Sum(15, 15, 0x8000, 0x8000);
    Pow2Sum(30, 30, 0x40000000, 0x40000000);
    Pow2Sum(60, 60, 0x1000000000000000, 0x1000000000000000);
    Pow2Sum(120, 120, 0x1000000000000000000000000000000, 0x1000000000000000000000000000000);
    Pow2Sum(240, 15, 0x1000000000000000000000000000000000000000000000000000000000000, 0x8000);
  }

  // Every nonzero digit is odd and small, and any two are w places apart.
  ghost predicate IsWnaf(d: seq<int>, w: nat)
    requires w >= 1
  {
    && (forall i :: 0 <= i < |d| ==> d[i] == 0 || IsWindowDigit(d[i], w))
    && (forall i, j :: 0 <= i < j < |d| && d[i] != 0 && d[j] != 0 ==> j - i >= w)
  }

  ghost predicate IsWindowDigit(x: int, w: nat)
    requires w >= 1
  {
    x % 2 == 1 && -Pow2(w - 1) < x < Pow2(w - 1)
  }

  lemma {:induction false} WnafExtend(d: seq<int>, w: nat, last: int, bit: nat, x: int)
    requires w >= 1 && IsWnaf(d, w)
    requires -1 <= last < bit < |d|
    requires last >= 0 ==> last + w <= bit
    requires forall i :: last < i < |d| ==> d[i] == 0
    requires IsWindowDigit(x, w)
    ensures IsWnaf(d[bit := x], w)
  {
  }

  // One window of the recoder: word is odd, and once the carry is taken out it
  // is a window digit.
  lemma {:induction false} WindowDigit(s: nat, bit: nat, now: nat, w: nat, carry: int, word: nat)
    requires 2 <= w && 1 <= now <= w && 0 <= carry <= 1
    requires Bits(s, bit, 1) != carry
    requires word == Bits(s, bit, now) + carry
    ensures var c := Bits(word, w - 1, 1);
      && c <= 1
      && word - c * Pow2(w) != 0
      && IsWindowDigit(word - c * Pow2(w), w)
      && IsWindowDigit(-(word - c * Pow2(w)), w)
      && (now < w ==> c == 0)
      && (c == 1 ==> Bits(s, bit + now - 1, 1) == 1)
  {
    WordIsOdd(s, bit, now, carry, word);
    Pow2Monotone(now, w);
    TopBit(word, w - 1);
    CenteredWindow(word, Pow2(w - 2), Bits(word, w - 1, 1));
    if now < w {
      Pow2Monotone(now, w - 1);
    } else {
      BitsConcat(s, bit, w - 1, 1);
    }
  }

  lemma {:induction false} CenteredWindow(word: nat, quarter: nat, c: nat)
    requires word % 2 == 1 && word < 4 * quarter
    requires c == if word < 2 * quarter then 0 else 1
    ensures var d := word - c * (4 * quarter); d % 2 == 1 && (-d) % 2 == 1 && -2 * quarter < d < 2 * quarter
  {
    var d := word - c * (4 * quarter);
    assert d == word + 2 * (if c == 0 then 0 else -2 * quarter);
    EvenShift(word, if c == 0 then 0 else -2 * quarter);
    EvenShift(d, 0);
  }

  lemma {:induction false} WordIsOdd(s: nat, bit: nat, now: nat, carry: int, word: nat)
    requires 1 <= now && 0 <= carry <= 1
    requires Bits(s, bit, 1) != carry
    requires word == Bits(s, bit, now) + carry
    ensures word % 2 == 1 && word < Pow2(now)
  {
    BitsConcat(s, bit, 1, now - 1);
    assert Pow2(1) == 2;
    var low, rest := Bits(s, bit, 1), Bits(s, bit + 1, now - 1);
    assert low + carry == 1;
    assert word == 1 + 2 * rest;
    assert rest < Pow2(now - 1);
  }

  // secp256k1_ecmult_wnaf: recodes a into wnaf[..len] and returns one more than
  // the position of the highest nonzero digit.
  method EcmultWnaf(wnaf: array<int>, len: nat, a: int, w: nat) returns (bits: nat, ghost carry: nat)
    requires 0 <= a < N
    requires len <= 256 && len <= wnaf.Length
    requires 2 <= w <= 31
    modifies wnaf
    ensures bits <= len && carry <= 1
    ensures IsWnaf(wnaf[..len], w)
    ensures forall i :: bits <= i < len ==> wnaf[i] == 0
    ensures bits > 0 ==> wnaf[bits - 1] != 0
    ensures wnaf[len..] == old(wnaf[len..])
    ensures var (s, sign) := SignedPart(a);
      && Value(wnaf[..len], 1) == sign * Recoded(s, len, carry)
      && (len >= 1 && s < Pow2(len - 1) ==> carry == 0 && Value(wnaf[..len], 1) == sign * s)
    ensures len == 256 ==> carry == 0 && Cong(Value(wnaf[..len], 1), a, N)
  {
    var s, sign, c := a, 1, 0;
    var lastSetBit := -1;
    var bit := 0;
    ZeroFill(wnaf, 0, len);
    if Bits(s, 255, 1) == 1 {
      s := N - s;
      sign := -1;
    }
    ValueZeros(wnaf[..len], 1);
    while bit < len
      invariant 0 <= bit <= len
      invariant (s, sign) == SignedPart(a)
      invariant wnaf[len..] == old(wnaf[len..])
      invariant WnafState(wnaf[..len], s, sign, w, bit, lastSetBit, c)
    {
      if Bits(s, bit, 1) == c {
        SkipStep(wnaf[..len], s, sign, w, bit, lastSetBit, c);
        bit := bit + 1;
        continue;
      }
      var now;
      now, c := SetDigit(wnaf, len, s, sign, w, bit, lastSetBit, c);
      lastSetBit := bit;
      bit := bit + now;
    }
    bits := lastSetBit + 1;
    carry := c;
    FinalCarry(a, len, wnaf[..len], carry);
  }

  // Lines 402-418: one window becomes one digit, and perhaps a carry.
  method SetDigit(wnaf: array<int>, len: nat, s: nat, sign: int, w: nat, bit: nat, ghost last: int, c: int) returns (now: nat, c': int)
    requires 2 <= w && bit < len <= wnaf.Length && (sign == 1 || sign == -1)
    requires WnafState(wnaf[..len], s, sign, w, bit, last, c) && Bits(s, bit, 1) != c
    modifies wnaf
    ensures 1 <= now <= len - bit
    ensures WnafState(wnaf[..len], s, sign, w, bit + now, bit, c')
    ensures wnaf[len..] == old(wnaf[len..])
  {
    now := w;
    if now > len - bit {
      now := len - bit;
    }
    var word := Bits(s, bit, now) + c;
    c' := Bits(word, w - 1, 1);
    ghost var before := wnaf[..len];
    WnafStep(before, s, sign, w, bit, last, c, now, word);
    word := word - c' * Pow2(w);
    wnaf[bit] := sign * word;
    assert wnaf[..len] == before[bit := sign * word];
  }

  method ZeroFill(wnaf: array<int>, base: nat, len: nat)
    requires base + len <= wnaf.Length
    modifies wnaf
    ensures forall i :: base <= i < base + len ==> wnaf[i] == 0
    ensures wnaf[..base] == old(wnaf[..base])
    ensures wnaf[base + len..] == old(wnaf[base + len..])
  {
    for i := 0 to len
      invariant forall j :: base <= j < base + i ==> wnaf[j] == 0
      invariant wnaf[..base] == old(wnaf[..base])
      invariant wnaf[base + len..] == old(wnaf[base + len..])
    {
      wnaf[base + i] := 0;
    }
  }

  // The digits below `bit` are final and `last` is the topmost nonzero one.
  ghost predicate WnafState(d: seq<int>, s: nat, sign: int, w: nat, bit: nat, last: int, c: int)
    requires w >= 1
  {
    && 0 <= c <= 1 && -1 <= last < |d| && last < bit
    && (forall i :: last < i < |d| ==> d[i] == 0)
    && (last >= 0 ==> d[last] != 0)
    && (last >= 0 ==> last + w <= bit || bit == |d|)
    && IsWnaf(d, w)
    && (c == 1 ==> bit > 0 && Bits(s, bit - 1, 1) == 1)
    && Value(d, 1) == sign * Recoded(s, bit, c)
  }

  // Nothing is carried out of the top as soon as the top bit is clear, and over
  // 256 bits it always is.
  lemma {:induction false} FinalCarry(a: int, len: nat, d: seq<int>, carry: nat)
    requires 0 <= a < N && carry <= 1
    requires var (s, sign) := SignedPart(a);
      && (carry == 1 ==> len > 0 && Bits(s, len - 1, 1) == 1)
      && Value(d, 1) == sign * Recoded(s, len, carry)
    ensures var (s, sign) := SignedPart(a);
      len >= 1 && s < Pow2(len - 1) ==> carry == 0 && Value(d, 1) == sign * s
    ensures len == 256 ==> carry == 0 && Cong(Value(d, 1), a, N)
  {
    var (s, sign) := SignedPart(a);
    SignedPartIsSmall(a);
    if len >= 1 && s < Pow2(len - 1) {
      NoCarryOut(s, len, carry);
    }
  }

  lemma {:induction false} NoCarryOut(s: nat, len: nat, carry: nat)
    requires len >= 1 && s < Pow2(len - 1) && carry <= 1 && (carry == 1 ==> Bits(s, len - 1, 1) == 1)
    ensures carry == 0 && Recoded(s, len, carry) == s
  {
    TopBit(s, len - 1);
    Pow2Monotone(len - 1, len);
    LowSmall(s, len);
  }

  // The part of s below position `bit`, less the carry into that position.
  ghost function Recoded(s: nat, bit: nat, c: int): int {
    Low(s, bit) - c * Pow2(bit)
  }

  lemma {:induction false} SkipStep(d: seq<int>, s: nat, sign: int, w: nat, bit: nat, last: int, c: int)
    requires w >= 1 && bit < |d| && WnafState(d, s, sign, w, bit, last, c)
    requires Bits(s, bit, 1) == c
    ensures WnafState(d, s, sign, w, bit + 1, last, c)
  {
    LowSplit(s, bit, 1);
    assert Pow2(bit + 1) == 2 * Pow2(bit);
    assert Recoded(s, bit + 1, c) == Recoded(s, bit, c);
  }

  lemma {:induction false} WnafStep(d: seq<int>, s: nat, sign: int, w: nat, bit: nat, last: int, c: int, now: nat, word: nat)
    requires 2 <= w && bit < |d| && WnafState(d, s, sign, w, bit, last, c)
    requires sign == 1 || sign == -1
    requires Bits(s, bit, 1) != c
    requires 1 <= now <= w && bit + now <= |d| && (now < w ==> bit + now == |d|)
    requires word == Bits(s, bit, now) + c
    ensures var c' := Bits(word, w - 1, 1);
      WnafState(d[bit := sign * (word - c' * Pow2(w))], s, sign, w, bit + now, bit, c')
  {
    var c' := Bits(word, w - 1, 1);
    var x := word - c' * Pow2(w);
    WindowDigit(s, bit, now, w, c, word);
    SignTimes(sign, x);
    WnafExtend(d, w, last, bit, sign * x);
    WnafValue(d, s, sign, w, bit, c, now, word, c');
  }

  lemma {:induction false} WnafValue(d: seq<int>, s: nat, sign: int, w: nat, bit: nat, c: int, now: nat, word: int, c': int)
    requires bit < |d| && d[bit] == 0 && now <= w
    requires Value(d, 1) == sign * Recoded(s, bit, c)
    requires word == Bits(s, bit, now) + c
    requires now < w ==> c' == 0
    ensures Value(d[bit := sign * (word - c' * Pow2(w))], 1) == sign * Recoded(s, bit + now, c')
  {
    ValueUpdate(d, 1, bit, sign * (word - c' * Pow2(w)));
    assert 1 * bit == bit;
    LowSplit(s, bit, now);
    assert c' * Pow2(bit + now) == c' * (Pow2(bit) * Pow2(w)) by {
      if c' != 0 {
        Pow2Add(bit, w);
      }
    }
    StepAlgebra(sign, Low(s, bit), Pow2(bit), Pow2(w), Bits(s, bit, now), c, c');
  }

  lemma {:induction false} SignTimes(sign: int, x: int)
    requires sign == 1 || sign == -1
    ensures sign * x == if sign == 1 then x else -x
  {
  }

  lemma {:induction false} StepAlgebra(sign: int, low: int, p: int, q: int, b: int, c: int, c': int)
    ensures sign * (low - c * p) + p * (sign * (b + c - c' * q)) == sign * (low + p * b - c' * (p * q))
  {
    assert p * (sign * (b + c - c' * q)) == sign * (p * b + p * c - c' * (p * q));
  }

  // ---- secp256k1_wnaf_fixed ----

  // WNAF_SIZE_BITS: how many windows of w bits cover `bits` bits.
  function WindowCount(bits: nat, w: nat): (r: nat)
    requires w >= 1
    ensures bits <= w * r < bits + w
  {
    (bits + w - 1) / w
  }

  lemma {:induction false} ValueAppend(d: seq<int>, w: nat, x: int)
    ensures Value(d + [x], w) == Value(d, w) + Pow2(w * |d|) * x
  {
    ValueUpdate(d + [0], w, |d|, x);
    assert (d + [0])[|d| := x] == d + [x];
    ValueTopZeros(d + [0], w, |d|);
    assert (d + [0])[..|d|] == d;
  }

  // Moving 2^w from a digit to one unit of the next digit keeps the value.
  lemma {:induction false} ValueCarry(d: seq<int>, w: nat, i: nat, k: int)
    requires i + 1 < |d|
    ensures Value(d[i := d[i] + k * Pow2(w)][i + 1 := d[i + 1] - k], w) == Value(d, w)
  {
    var e := d[i := d[i] + k * Pow2(w)];
    ValueUpdate(d, w, i, d[i] + k * Pow2(w));
    ValueUpdate(e, w, i + 1, d[i + 1] - k);
    assert w * (i + 1) == w * i + w;
    Pow2Add(w * i, w);
    CarryAlgebra(Pow2(w * i), Pow2(w), k, d[i], d[i + 1]);
  }

  lemma {:induction false} CarryAlgebra(a: int, b: int, k: int, x: int, y: int)
    ensures a * (x + k * b - x) + (a * b) * (y - k - y) == 0
  {
    assert a * (k * b) == (a * b) * k;
  }

  // Zero, or odd and strictly between -2^w and 2^w.
  ghost predicate IsFixedDigit(x: int, w: nat) {
    x == 0 || (x % 2 == 1 && -Pow2(w) < x < Pow2(w))
  }

  // The digits below the one being written: all in range, the last one odd and positive.
  ghost predicate FixedPrefix(d: seq<int>, w: nat) {
    && |d| >= 1
    && (forall i :: 0 <= i < |d| ==> IsFixedDigit(d[i], w))
    && 0 < d[|d| - 1]
  }

  // Append the window val: an even window borrows from the digit below it.
  ghost function Borrow(d: seq<int>, val: int, w: nat): seq<int>
    requires |d| >= 1
  {
    if val % 2 == 0 then d[|d| - 1 := d[|d| - 1] - Pow2(w)] + [val + 1] else d + [val]
  }

  // Drop an isolated 1 or -1 below the top digit.
  ghost function DropUnit(d: seq<int>, w: nat): seq<int> {
    var i := |d| - 2;
    if i >= 1 && d[i] == 1 && d[i - 1] < 0 then d[i - 1 := d[i - 1] + Pow2(w)][i := 0]
    else if i >= 1 && d[i] == -1 && d[i - 1] > 0 then d[i - 1 := d[i - 1] - Pow2(w)][i := 0]
    else d
  }

  // Odd digits stay in range when 2^w is moved across zero.
  lemma {:induction false} FixedDigitShift(x: int, w: nat)
    requires w >= 1 && x % 2 == 1
    ensures 0 < x < Pow2(w) ==> IsFixedDigit(x, w) && IsFixedDigit(x - Pow2(w), w)
    ensures -Pow2(w) < x < 0 ==> IsFixedDigit(x + Pow2(w), w)
  {
    assert Pow2(w) == 2 * Pow2(w - 1);
  }

  lemma {:induction false} BorrowValue(d: seq<int>, val: int, w: nat)
    requires |d| >= 1
    ensures Value(Borrow(d, val, w), w) == Value(d, w) + Pow2(w * |d|) * val
  {
    ValueAppend(d, w, val);
    if val % 2 == 0 {
      var i := |d| - 1;
      var e := d + [val];
      ValueCarry(e, w, i, -1);
      assert e[i := e[i] + -1 * Pow2(w)][i + 1 := e[i + 1] - -1] == Borrow(d, val, w);
    }
  }

  lemma {:induction false} BorrowPrefix(d: seq<int>, val: int, w: nat)
    requires w >= 1 && FixedPrefix(d, w) && 0 <= val < Pow2(w)
    ensures FixedPrefix(Borrow(d, val, w), w)
  {
    var e := Borrow(d, val, w);
    assert IsFixedDigit(d[|d| - 1], w);
    FixedDigitShift(d[|d| - 1], w);
    assert val % 2 == 0 ==> val + 1 < Pow2(w) by { assert Pow2(w) == 2 * Pow2(w - 1); }
    FixedDigitShift(if val % 2 == 0 then val + 1 else val, w);
    forall i | 0 <= i < |e|
      ensures IsFixedDigit(e[i], w)
    {
      if i < |d| - 1 {
        assert e[i] == d[i];
      }
    }
  }

  lemma {:induction false} DropUnitValue(d: seq<int>, w: nat)
    ensures Value(DropUnit(d, w), w) == Value(d, w)
  {
    var i := |d| - 2;
    if i >= 1 && d[i] == 1 && d[i - 1] < 0 {
      ValueCarry(d, w, i - 1, 1);
    } else if i >= 1 && d[i] == -1 && d[i - 1] > 0 {
      ValueCarry(d, w, i - 1, -1);
      assert d[i - 1] + -1 * Pow2(w) == d[i - 1] - Pow2(w);
    }
  }

  lemma {:induction false} DropUnitPrefix(d: seq<int>, w: nat)
    requires w >= 1 && FixedPrefix(d, w)
    ensures FixedPrefix(DropUnit(d, w), w)
  {
    var e, j := DropUnit(d, w), |d| - 3;
    if j >= 0 {
      assert IsFixedDigit(d[j], w);
      if d[j] != 0 {
        FixedDigitShift(d[j], w);
      }
    }
    forall i | 0 <= i < |e|
      ensures IsFixedDigit(e[i], w)
    {
      if i != j && i != j + 1 {
        assert e[i] == d[i];
      }
    }
  }

  // Lines 720-739 of the recoder: the window at pos, its borrow from the digit
  // below, and the removal of an isolated unit digit.
  method PlaceWindow(wnaf: array<int>, base: nat, pos: nat, val: int, w: nat)
    requires pos >= 1 && base + pos < wnaf.Length
    modifies wnaf
    ensures wnaf[base..base + pos + 1] == DropUnit(Borrow(old(wnaf[base..base + pos]), val, w), w)
    ensures wnaf[..base] == old(wnaf[..base])
    ensures wnaf[base + pos + 1..] == old(wnaf[base + pos + 1..])
  {
    var top := base + pos;
    ghost var d := wnaf[base..top];
    if val % 2 == 0 {
      wnaf[top - 1] := wnaf[top - 1] - Pow2(w);
      wnaf[top] := val + 1;
    } else {
      wnaf[top] := val;
    }
    ghost var e := Borrow(d, val, w);
    assert wnaf[base..top + 1] == e;
    assert pos >= 2 ==> wnaf[top - 1] == e[pos - 1] && wnaf[top - 2] == e[pos - 2];
    if pos >= 2 && ((wnaf[top - 1] == 1 && wnaf[top - 2] < 0) || (wnaf[top - 1] == -1 && wnaf[top - 2] > 0)) {
      if wnaf[top - 1] == 1 {
        wnaf[top - 2] := wnaf[top - 2] + Pow2(w);
      } else {
        wnaf[top - 2] := wnaf[top - 2] - Pow2(w);
      }
      wnaf[top - 1] := 0;
      assert wnaf[base..top + 1] == DropUnit(e, w);
    }
  }

  // Lines 709-716: zero the windows above the highest nonzero one.
  method ZeroTopWindows(wnaf: array<int>, base: nat, s: int, w: nat, size: nat, lastW: nat) returns (maxPos: nat)
    requires 0 <= s < N && 1 <= w
    requires size == WindowCount(256, w) && lastW == 256 - (size - 1) * w
    requires size >= 1 && base + size <= wnaf.Length
    modifies wnaf
    ensures maxPos < size
    ensures High(s, w * (maxPos + 1)) == 0
    ensures wnaf[..base + maxPos + 1] == old(wnaf[..base + maxPos + 1])
    ensures forall i :: base + maxPos < i < base + size ==> wnaf[i] == 0
    ensures wnaf[base + size..] == old(wnaf[base + size..])
  {
    var pos := size - 1;
    TopWindows(s, w);
    while pos > 0
      invariant 0 <= pos < size
      invariant High(s, w * (pos + 1)) == 0
      invariant wnaf[..base + pos + 1] == old(wnaf[..base + pos + 1])
      invariant forall i :: base + pos < i < base + size ==> wnaf[i] == 0
      invariant wnaf[base + size..] == old(wnaf[base + size..])
    {
      WindowOf(s, w, pos, size);
      var val := Bits(s, pos * w, if pos == size - 1 then lastW else w);
      if val != 0 {
        break;
      }
      wnaf[base + pos] := 0;
      pos := pos - 1;
    }
    maxPos := pos;
  }

  // The rest of the digits once the first one and the top zeros are in place.
  method PlaceWindows(wnaf: array<int>, base: nat, s: int, w: nat, size: nat, lastW: nat, maxPos: nat, skew: nat)
    requires 0 <= s < N && 1 <= w
    requires size == WindowCount(256, w) && lastW == 256 - (size - 1) * w
    requires maxPos < size && base + size <= wnaf.Length
    requires skew == 1 - s % 2 && wnaf[base] == Bits(s, 0, w) + skew
    modifies wnaf
    ensures FixedPrefix(wnaf[base..base + maxPos + 1], w)
    ensures Value(wnaf[base..base + maxPos + 1], w) == Low(s, w * (maxPos + 1)) + skew
    ensures wnaf[..base] == old(wnaf[..base])
    ensures wnaf[base + maxPos + 1..] == old(wnaf[base + maxPos + 1..])
  {
    var pos := 1;
    FirstDigit(s, w, skew);
    assert wnaf[base..base + 1] == [Bits(s, 0, w) + skew];
    while pos <= maxPos
      invariant 1 <= pos <= maxPos + 1
      invariant IsPlaced(wnaf[base..base + pos], s, w, pos, skew)
      invariant wnaf[..base] == old(wnaf[..base])
      invariant wnaf[base + maxPos + 1..] == old(wnaf[base + maxPos + 1..])
    {
      ghost var before := wnaf[..];
      PlaceNext(wnaf, base, s, w, size, lastW, pos, skew);
      SameTail(before, wnaf[..], base + pos + 1, base + maxPos + 1);
      pos := pos + 1;
    }
  }

  method PlaceNext(wnaf: array<int>, base: nat, s: int, w: nat, size: nat, lastW: nat, pos: nat, ghost skew: nat)
    requires 0 <= s < N && 1 <= w
    requires size == WindowCount(256, w) && lastW == 256 - (size - 1) * w
    requires 1 <= pos < size && base + size <= wnaf.Length
    requires IsPlaced(wnaf[base..base + pos], s, w, pos, skew)
    modifies wnaf
    ensures IsPlaced(wnaf[base..base + pos + 1], s, w, pos + 1, skew)
    ensures wnaf[..base] == old(wnaf[..base])
    ensures wnaf[base + pos + 1..] == old(wnaf[base + pos + 1..])
  {
    WindowOf(s, w, pos, size);
    var val := Bits(s, pos * w, if pos == size - 1 then lastW else w);
    PlacedWindow(wnaf[base..base + pos], val, w);
    PlaceWindow(wnaf, base, pos, val, w);
  }

  // The first pos digits stand for the first pos windows and the skew.
  ghost predicate IsPlaced(d: seq<int>, s: nat, w: nat, pos: nat, skew: int)
    requires w >= 1
  {
    |d| == pos && FixedPrefix(d, w) && Value(d, w) == Low(s, w * pos) + skew
  }

  lemma {:induction false} PlacedWindow(d: seq<int>, val: int, w: nat)
    requires w >= 1 && FixedPrefix(d, w) && 0 <= val < Pow2(w)
    ensures var e := DropUnit(Borrow(d, val, w), w);
      && |e| == |d| + 1
      && FixedPrefix(e, w)
      && Value(e, w) == Value(d, w) + Pow2(w * |d|) * val
  {
    BorrowValue(d, val, w);
    BorrowPrefix(d, val, w);
    DropUnitValue(Borrow(d, val, w), w);
    DropUnitPrefix(Borrow(d, val, w), w);
  }

  // secp256k1_wnaf_fixed: writes the digits of s + skew to wnaf[base..base + WindowCount(256, w)].
  method WnafFixed(wnaf: array<int>, base: nat, s: int, w: nat) returns (skew: nat)
    requires 0 <= s < N
    requires 1 <= w <= 31
    requires base + WindowCount(256, w) <= wnaf.Length
    modifies wnaf
    ensures skew <= 1
    ensures IsFixedRecoding(wnaf[base..base + WindowCount(256, w)], s, w, skew)
    ensures wnaf[..base] == old(wnaf[..base])
    ensures wnaf[base + WindowCount(256, w)..] == old(wnaf[base + WindowCount(256, w)..])
  {
    var size := WindowCount(256, w);
    if s == 0 {
      ZeroFill(wnaf, base, size);
      ValueZeros(wnaf[base..base + size], w);
      return 0;
    }
    skew := 0;
    if s % 2 == 0 {
      skew := 1;
    }
    TopWindows(s, w);
    wnaf[base] := Bits(s, 0, w) + skew;
    var lastW := 256 - (size - 1) * w;
    var maxPos := ZeroTopWindows(wnaf, base, s, w, size, lastW);
    ghost var zeroed := wnaf[..];
    PlaceWindows(wnaf, base, s, w, size, lastW, maxPos, skew);
    FixedTop(zeroed, wnaf[..], wnaf[base..base + size], base, maxPos);
    FixedDone(wnaf[base..base + size], s, w, maxPos, skew);
    SameTail(zeroed, wnaf[..], base + maxPos + 1, base + size);
  }

  // What was zeroed above maxPos stays so.
  lemma {:induction false} FixedTop(zeroed: seq<int>, wnaf: seq<int>, d: seq<int>, base: nat, maxPos: nat)
    requires |zeroed| == |wnaf| && maxPos < |d| && base + |d| <= |wnaf| && d == wnaf[base..base + |d|]
    requires wnaf[base + maxPos + 1..] == zeroed[base + maxPos + 1..]
    requires forall i :: base + maxPos < i < base + |d| ==> zeroed[i] == 0
    ensures d[..maxPos + 1] == wnaf[base..base + maxPos + 1]
    ensures forall i :: maxPos < i < |d| ==> d[i] == 0
  {
    forall i | maxPos < i < |d|
      ensures d[i] == 0
    {
      assert wnaf[base + i] == wnaf[base + maxPos + 1..][i - maxPos - 1] == zeroed[base + i];
    }
  }

  // The digits d of s + skew: zero or odd, and below 2^w in absolute value.
  ghost predicate IsFixedRecoding(d: seq<int>, s: int, w: nat, skew: int) {
    && Value(d, w) == s + skew
    && (forall i :: 0 <= i < |d| ==> IsFixedDigit(d[i], w))
  }

  lemma {:induction false} FixedDone(d: seq<int>, s: nat, w: nat, maxPos: nat, skew: nat)
    requires maxPos < |d| && High(s, w * (maxPos + 1)) == 0
    requires FixedPrefix(d[..maxPos + 1], w)
    requires Value(d[..maxPos + 1], w) == Low(s, w * (maxPos + 1)) + skew
    requires forall i :: maxPos < i < |d| ==> d[i] == 0
    ensures IsFixedRecoding(d, s, w, skew)
  {
    LowHigh(s, w * (maxPos + 1));
    ValueTopZeros(d, w, maxPos + 1);
    forall i | 0 <= i < |d|
      ensures IsFixedDigit(d[i], w)
    {
      if i <= maxPos {
        assert d[i] == d[..maxPos + 1][i];
      }
    }
  }

  // The windows reach past the top of a scalar.
  lemma {:induction false} TopWindows(s: nat, w: nat)
    requires 1 <= w && s < N
    ensures WindowCount(256, w) >= 1
    ensures High(s, w * WindowCount(256, w)) == 0
  {
    var m := WindowCount(256, w);
    Pow2Of255();
    Pow2Monotone(256, w * m);
    LowSmall(s, w * m);
  }

  // The shortened top window sees the same bits as a full one.
  lemma {:induction false} WindowOf(s: nat, w: nat, pos: nat, size: nat)
    requires 1 <= w && s < N && pos < size == WindowCount(256, w)
    ensures
      && 0 < 256 - (size - 1) * w <= w
      && Bits(s, pos * w, if pos == size - 1 then 256 - (size - 1) * w else w) == Bits(s, w * pos, w)
    ensures Low(s, w * (pos + 1)) == Low(s, w * pos) + Pow2(w * pos) * Bits(s, w * pos, w)
    ensures High(s, w * (pos + 1)) == 0 && Bits(s, w * pos, w) == 0 ==> High(s, w * pos) == 0
  {
    var lastW := 256 - (size - 1) * w;
    assert w * size == (size - 1) * w + w;
    assert w * (pos + 1) == w * pos + w;
    LowSplit(s, w * pos, w);
    HighHigh(s, w * pos, w);
    LowHigh(High(s, w * pos), w);
    if pos == size - 1 {
      Pow2Of255();
      HighBound(s, w * pos, lastW);
      Pow2Monotone(lastW, w);
      LowSmall(High(s, w * pos), lastW);
      LowSmall(High(s, w * pos), w);
    }
  }

  lemma {:induction false} HighBound(s: nat, j: nat, k: nat)
    requires s < Pow2(j + k)
    ensures High(s, j) < Pow2(k)
  {
    LowSmall(s, j + k);
    HighHigh(s, j, k);
    LowHigh(High(s, j), k);
  }

  lemma {:induction false} FirstDigit(s: nat, w: nat, skew: nat)
    requires w >= 1 && skew == 1 - s % 2
    ensures FixedPrefix([Bits(s, 0, w) + skew], w)
    ensures Value([Bits(s, 0, w) + skew], w) == Low(s, w * 1) + skew
  {
    assert Pow2(w) == 2 * Pow2(w - 1);
    assert Low(s, w) % 2 == s % 2;
    assert Value([Bits(s, 0, w) + skew][1..], w) == 0;
  }

  // ---- secp256k1_wnaf_const ----

  // secp256k1_scalar_is_high: above half the group order.
  predicate IsHigh(s: int) {
    s > 0x7FFFFFFFFFFFFFFFFFFFFFFFFFFFFFFF5D576E7357A4501DDFE92F46681B20A0
  }

  // secp256k1_scalar_negate
  function Negate(s: int): (r: int)
    requires 0 <= s < N
    ensures 0 <= r < N
  {
    if s == 0 then 0 else N - s
  }

  // The odd number that is recoded, its sign and the skew (lines 78-92).
  function ConstSetup(s: int): (r: (nat, int, nat))
    requires 0 <= s < N
    ensures var (t, sign, skew) := r;
      && t < N && t % 2 == 1
      && (sign == 1 || sign == -1)
      && (skew == 1 || skew == 2)
      && sign * t == s + skew - (if IsHigh(s) then N else 0)
  {
    var flip := IsHigh(s);
    var even := s % 2 == 0;
    var bit := if flip != !even then 1 else 0;
    var notNegOne := Negate(s) != 1;
    var t := s + if notNegOne then (if bit == 1 then 2 else 1) else 0;
    var t' := if flip then Negate(t) else t;
    var sign := (if flip then -1 else 1) * (if notNegOne then 1 else -1);
    (t', sign, if bit == 1 then 2 else 1)
  }

  // Odd, hence nonzero, and strictly between -2^w and 2^w.
  ghost predicate IsConstDigit(x: int, w: nat) {
    x % 2 == 1 && -Pow2(w) < x < Pow2(w)
  }

  // secp256k1_wnaf_const: writes WindowCount(size, w) + 1 odd digits of s + skew.
  // The window count must cover the number recoded, as the final check of the
  // source demands; for size 256 it always does.
  method WnafConst(wnaf: array<int>, s: int, w: nat, size: nat) returns (skew: nat)
    requires 0 <= s < N && 0 < w < 16
    requires WindowCount(size, w) + 1 <= wnaf.Length
    requires size == 256 || (size > 0 && ConstSetup(s).0 < Pow2(w * (WindowCount(size, w) + 1)))
    modifies wnaf
    ensures skew == 1 || skew == 2
    ensures var d := wnaf[..WindowCount(size, w) + 1];
      && Value(d, w) == s + skew - (if IsHigh(s) then N else 0)
      && (forall i :: 0 <= i < |d| ==> IsConstDigit(d[i], w))
    ensures wnaf[WindowCount(size, w) + 1..] == old(wnaf[WindowCount(size, w) + 1..])
  {
    var words := WindowCount(size, w);
    var flip := IsHigh(s);
    var bit := if flip != (s % 2 == 1) then 1 else 0;
    var notNegOne := Negate(s) != 1;
    var t := s;
    if notNegOne {
      t := t + Pow2(bit);
    }
    var globalSign := 1;
    if flip {
      t := Negate(t);
      globalSign := -1;
    }
    if !notNegOne {
      globalSign := -globalSign;
    }
    skew := Pow2(bit);
    assert (t, globalSign, skew) == ConstSetup(s);
    ConstSizeSuffices(t, w, size);

    ghost var t0 := t;
    ghost var digits: seq<int> := [];
    var word := 0;
    var uLast := Low(t, w);
    t := High(t, w);
    var u := uLast;
    LowParity(t0, w);
    ConstStart(t0, w);
    WindowsLeft(size, w, 0);
    while word * w < size
      invariant 0 <= word <= words && t >= 0
      invariant word < words <==> word * w < size
      invariant word > 0 ==> u == uLast
      invariant |digits| == word
      invariant ConstState(digits, w, uLast, t, t0)
      invariant forall i :: 0 <= i < word ==> wnaf[i] == digits[i] * globalSign
      invariant wnaf[words + 1..] == old(wnaf[words + 1..])
      decreases words - word
    {
      u := Low(t, w);
      var even := if u % 2 == 0 then 1 else 0;
      var sign := if uLast > 0 then 1 else -1;
      ConstStep(digits, w, uLast, t, t0, even);
      WindowsLeft(size, w, word + 1);
      t := High(t, w);
      u := u + sign * even;
      uLast := uLast - sign * even * Pow2(w);
      wnaf[word] := uLast * globalSign;
      digits := digits + [uLast];
      word := word + 1;
      uLast := u;
    }
    wnaf[word] := u * globalSign;
    ConstFinish(wnaf[..words + 1], digits, t0, w, uLast, t, globalSign);
  }

  lemma {:induction false} WindowsLeft(size: nat, w: nat, word: nat)
    requires w > 0
    ensures word < WindowCount(size, w) <==> word * w < size
  {
    var r := WindowCount(size, w);
    if word < r {
      MulMonotone(word + 1, r, w);
    } else {
      MulMonotone(r, word, w);
    }
  }

  // The digits written, the window waiting for a borrow, and the rest of the number.
  ghost predicate ConstState(digits: seq<int>, w: nat, uLast: int, t: nat, t0: nat) {
    && 0 < uLast < Pow2(w) && uLast % 2 == 1
    && Value(digits, w) + Pow2(w * |digits|) * (uLast + Pow2(w) * t) == t0
    && t == High(t0, w * (|digits| + 1))
    && (forall i :: 0 <= i < |digits| ==> IsConstDigit(digits[i], w))
  }

  lemma {:induction false} LowParity(t: nat, w: nat)
    requires w > 0
    ensures Low(t, w) % 2 == t % 2
  {
    EvenShift(t % 2, Low(t / 2, w - 1));
  }

  lemma {:induction false} ConstSizeSuffices(t: nat, w: nat, size: nat)
    requires t < N && 0 < w
    requires size == 256 || t < Pow2(w * (WindowCount(size, w) + 1))
    ensures High(t, w * (WindowCount(size, w) + 1)) == 0
  {
    var k := w * (WindowCount(size, w) + 1);
    if size == 256 {
      Pow2Of255();
      assert k == w * WindowCount(size, w) + w;
      Pow2Monotone(256, k);
    }
    LowSmall(t, k);
  }

  lemma {:induction false} ConstStart(t: nat, w: nat)
    requires w > 0 && t % 2 == 1
    ensures ConstState([], w, Low(t, w), High(t, w), t)
  {
    LowHigh(t, w);
    LowParity(t, w);
    assert w * 0 == 0 && w * 1 == w;
  }

  // One window: an even one takes a unit from the digit below, which goes negative.
  lemma {:induction false} ConstStep(digits: seq<int>, w: nat, uLast: int, t: nat, t0: nat, e: int)
    requires w > 0 && ConstState(digits, w, uLast, t, t0)
    requires e == if Low(t, w) % 2 == 0 then 1 else 0
    ensures ConstState(digits + [uLast - e * Pow2(w)], w, Low(t, w) + e, High(t, w), t0)
  {
    ConstDigits(uLast, Low(t, w), e, w);
    ValueAppend(digits, w, uLast - e * Pow2(w));
    LowHigh(t, w);
    NextWindow(w, |digits|);
    NextWindow(w, |digits| + 1);
    HighHigh(t0, w * (|digits| + 1), w);
    ConstAlgebra(Pow2(w * |digits|), Pow2(w), uLast, e, Low(t, w), High(t, w));
  }

  lemma {:induction false} NextWindow(w: nat, i: nat)
    ensures w * (i + 1) == w * i + w
    ensures Pow2(w * (i + 1)) == Pow2(w * i) * Pow2(w)
  {
    assert w * (i + 1) == w * i + w;
    Pow2Add(w * i, w);
  }

  lemma {:induction false} ConstDigits(uLast: int, low: int, e: int, w: nat)
    requires w > 0 && 0 < uLast < Pow2(w) && uLast % 2 == 1
    requires 0 <= low < Pow2(w) && e == if low % 2 == 0 then 1 else 0
    ensures IsConstDigit(uLast - e * Pow2(w), w)
    ensures 0 < low + e < Pow2(w) && (low + e) % 2 == 1
  {
    var half := Pow2(w - 1);
    assert Pow2(w) == 2 * half;
    EvenShift(uLast, if e == 1 then -half else 0);
    if e == 1 {
      BelowEven(low, half);
    }
  }

  // An even number below an even bound leaves room for one more.
  lemma {:induction false} BelowEven(low: int, half: int)
    requires 0 <= low < 2 * half && low % 2 == 0
    ensures low + 1 < 2 * half && (low + 1) % 2 == 1
  {
  }

  lemma {:induction false} ConstAlgebra(a: int, b: int, u: int, e: int, low: int, high: int)
    ensures a * (u - e * b) + (a * b) * (low + e + b * high) == a * (u + b * (low + b * high))
  {
    assert a * (e * b) == (a * b) * e;
    assert (a * b) * (low + b * high) == a * (b * (low + b * high));
    MulDistrib(a, u, b * (low + b * high));
    MulDistrib(a, u, -(e * b));
    MulDistrib(a * b, low + b * high, e);
  }

  lemma {:induction false} ValueScale(d: seq<int>, e: seq<int>, w: nat, k: int)
    requires |d| == |e| && forall i :: 0 <= i < |d| ==> e[i] == d[i] * k
    ensures Value(e, w) == k * Value(d, w)
  {
    if |d| > 0 {
      ValueScale(d[1..], e[1..], w, k);
      assert Pow2(w) * (k * Value(d[1..], w)) == k * (Pow2(w) * Value(d[1..], w));
      MulDistrib(k, d[0], Pow2(w) * Value(d[1..], w));
    }
  }

  lemma {:induction false} ConstFinish(d: seq<int>, digits: seq<int>, t0: nat, w: nat, u: int, t: nat, sign: int)
    requires w > 0 && |d| == |digits| + 1
    requires sign == 1 || sign == -1
    requires forall i :: 0 <= i < |digits| ==> d[i] == digits[i] * sign
    requires d[|digits|] == u * sign
    requires ConstState(digits, w, u, t, t0) && t == 0
    ensures Value(d, w) == sign * t0
    ensures forall i :: 0 <= i < |d| ==> IsConstDigit(d[i], w)
  {
    var all := digits + [u];
    assert Pow2(w) * t == 0;
    ValueAppend(digits, w, u);
    ValueScale(all, d, w, sign);
    forall i | 0 <= i < |d|
      ensures IsConstDigit(d[i], w)
    {
      NegatedDigit(all[i], sign, w);
    }
  }

  lemma {:induction false} NegatedDigit(x: int, sign: int, w: nat)
    requires sign == 1 || sign == -1
    ensures IsConstDigit(x, w) ==> IsConstDigit(x * sign, w)
  {
  }
}
