// Powers of two, bit windows and the few facts about division that the
// recoders need.
module Arith {

  function Pow2(k: nat): (r: int)
    ensures r > 0
  {
    if k == 0 then 1 else 2 * Pow2(k - 1)
  }

  lemma {:induction false} Pow2Add(j: nat, k: nat)
    ensures Pow2(j + k) == Pow2(j) * Pow2(k)
  {
    if j == 0 {
    } else {
      Pow2Add(j - 1, k);
      MulAssoc(2, Pow2(j - 1), Pow2(k));
    }
  }

  lemma {:induction false} Pow2Monotone(j: nat, k: nat)
    requires j <= k
    ensures Pow2(j) <= Pow2(k)
  {
    if j < k {
      Pow2Monotone(j, k - 1);
    }
  }

  lemma {:induction false} MulAssoc(a: int, b: int, c: int)
    ensures (a * b) * c == a * (b * c)
  {
  }

  lemma {:induction false} MulSwap(a: int, b: int, c: int)
    ensures a * b * c == a * c * b && a * b * c == b * (a * c)
  {
  }

  lemma {:induction false} MulDistrib(a: int, b: int, c: int)
    ensures a * (b + c) == a * b + a * c
  {
  }

  lemma {:induction false} MulMonotone(a: int, b: int, c: int)
    requires a <= b && 0 <= c
    ensures a * c <= b * c
  {
  }

  // Uniqueness of quotient and remainder.
  lemma {:induction false} DivModUnique(x: int, d: int, q: int, r: int)
    requires 0 < d && 0 <= r < d && x == q * d + r
    ensures x / d == q && x % d == r
  {
    var q', r' := x / d, x % d;
    assert x == d * q' + r';
    assert (q - q') * d == r' - r by {
      MulDistrib(d, q', q - q');
    }
    if q - q' >= 1 {
      MulMonotone(1, q - q', d);
    } else if q - q' <= -1 {
      MulMonotone(q - q', -1, d);
    }
  }

  // ---- bits of a natural number ----

  // x mod 2^k
  function Low(x: nat, k: nat): (r: nat)
    ensures r < Pow2(k)
  {
    if k == 0 then 0 else x % 2 + 2 * Low(x / 2, k - 1)
  }

  // x div 2^k
  function High(x: nat, k: nat): nat {
    if k == 0 then x else High(x / 2, k - 1)
  }

  // The window of `count` bits of s that starts at bit `offset`.
  function Bits(s: nat, offset: nat, count: nat): (r: nat)
    ensures r < Pow2(count)
  {
    Low(High(s, offset), count)
  }

  lemma {:induction false} LowHigh(x: nat, k: nat)
    ensures x == Low(x, k) + Pow2(k) * High(x, k)
  {
    if k > 0 {
      LowHigh(x / 2, k - 1);
      MulAssoc(2, Pow2(k - 1), High(x, k));
    }
  }

  // The windows are what division and remainder by powers of two give.
  lemma {:induction false} BitsAreDivMod(s: nat, offset: nat, count: nat)
    ensures High(s, offset) == s / Pow2(offset)
    ensures Low(s, count) == s % Pow2(count)
    ensures Bits(s, offset, count) == (s / Pow2(offset)) % Pow2(count)
  {
    LowHighAreDivMod(s, offset);
    LowHighAreDivMod(s, count);
    LowHighAreDivMod(High(s, offset), count);
  }

  lemma {:induction false} LowHighAreDivMod(x: nat, k: nat)
    ensures Low(x, k) == x % Pow2(k) && High(x, k) == x / Pow2(k)
  {
    LowHigh(x, k);
    DivModUnique(x, Pow2(k), High(x, k), Low(x, k));
  }

  lemma {:induction false} HighHigh(x: nat, j: nat, k: nat)
    ensures High(High(x, j), k) == High(x, j + k)
  {
    if j > 0 {
      HighHigh(x / 2, j - 1, k);
    }
  }

  lemma {:induction false} LowSplit(x: nat, j: nat, k: nat)
    ensures Low(x, j + k) == Low(x, j) + Pow2(j) * Low(High(x, j), k)
  {
    if j > 0 {
      LowSplit(x / 2, j - 1, k);
      MulAssoc(2, Pow2(j - 1), Low(High(x, j), k));
    }
  }

  // A window cut into a low window and the one above it.
  lemma {:induction false} BitsConcat(s: nat, offset: nat, j: nat, k: nat)
    ensures Bits(s, offset, j + k) == Bits(s, offset, j) + Pow2(j) * Bits(s, offset + j, k)
  {
    LowSplit(High(s, offset), j, k);
    HighHigh(s, offset, j);
  }

  // A number below 2^k is its own k low bits.
  lemma {:induction false} LowSmall(x: nat, k: nat)
    requires x < Pow2(k)
    ensures Low(x, k) == x && High(x, k) == 0
  {
    if k > 0 {
      LowSmall(x / 2, k - 1);
    }
  }

  // The bit above the low k bits of a number below 2^(k+1).
  lemma {:induction false} TopBit(x: nat, k: nat)
    requires x < 2 * Pow2(k)
    ensures Bits(x, k, 1) == if x < Pow2(k) then 0 else 1
  {
    LowHigh(x, k);
    AtMostOne(High(x, k), Low(x, k), Pow2(k));
  }

  lemma {:induction false} AtMostOne(h: nat, l: nat, p: nat)
    requires l < p && l + p * h < 2 * p
    ensures h <= 1
  {
    if h >= 2 {
      MulMonotone(2, h, p);
    }
  }

  lemma {:induction false} Pow2Sum(j: nat, k: nat, v: int, u: int)
    requires Pow2(j) == v && Pow2(k) == u
    ensures Pow2(j + k) == v * u
  {
    Pow2Add(j, k);
  }

  lemma {:induction false} EvenShift(x: int, k: int)
    ensures (x + 2 * k) % 2 == x % 2
    ensures (-x) % 2 == x % 2
  {
  }

  lemma {:induction false} ModSmall(x: int, m: int)
    requires 0 <= x < m
    ensures x % m == x
  {
  }

  // Congruence modulo m.
  ghost predicate Cong(a: int, b: int, m: int)
    requires m > 0
  {
    a % m == b % m
  }

  lemma {:induction false} CongIntro(a: int, b: int, k: int, m: int)
    requires m > 0 && a == b + k * m
    ensures Cong(a, b, m)
  {
    var q := b / m;
    assert a == (q + k) * m + b % m by {
      assert b == m * q + b % m;
      MulDistrib(m, q, k);
    }
    DivModUnique(a, m, q + k, b % m);
  }

  lemma {:induction false} CongElim(a: int, b: int, m: int) returns (k: int)
    requires m > 0 && Cong(a, b, m)
    ensures a == b + k * m
  {
    k := a / m - b / m;
    assert a == m * (a / m) + a % m;
    assert b == m * (b / m) + b % m;
    MulDistrib(m, b / m, k);
  }

  lemma {:induction false} CongAdd(a: int, b: int, c: int, d: int, m: int)
    requires m > 0 && Cong(a, b, m) && Cong(c, d, m)
    ensures Cong(a + c, b + d, m)
    ensures Cong(a - c, b - d, m)
  {
    var j := CongElim(a, b, m);
    var k := CongElim(c, d, m);
    MulDistrib(m, j, k);
    CongIntro(a + c, b + d, j + k, m);
    MulDistrib(m, j, -k);
    CongIntro(a - c, b - d, j - k, m);
  }

  lemma {:induction false} CongMul(a: int, b: int, c: int, d: int, m: int)
    requires m > 0 && Cong(a, b, m) && Cong(c, d, m)
    ensures Cong(a * c, b * d, m)
  {
    var j := CongElim(a, b, m);
    var k := CongElim(c, d, m);
    MultipleProduct(b, j, d, k, m);
    CongIntro(a * c, b * d, b * k + j * d + j * k * m, m);
  }

  lemma {:induction false} MultipleProduct(b: int, j: int, d: int, k: int, m: int)
    ensures (b + j * m) * (d + k * m) == b * d + (b * k + j * d + j * k * m) * m
  {
  }

  lemma {:induction false} CongMod(a: int, m: int)
    requires m > 0
    ensures Cong(a % m, a, m)
  {
    var q := a / m;
    assert a == m * q + a % m;
    CongIntro(a, a % m, q, m);
  }
}
