// Numbers in bytes.
module Bytes {
  import opened Arith

  type byte = x: int | 0 <= x < 256

  // The number written by the bytes, most significant first.
  function Big(b: seq<byte>): nat {
    if |b| == 0 then 0 else 256 * Big(b[..|b| - 1]) + b[|b| - 1]
  }

  // The shortest such bytes, none for zero.
  function Minimal(n: nat): (b: seq<byte>)
    ensures |b| > 0 <==> n > 0
    ensures |b| > 0 ==> b[0] != 0
  {
    if n == 0 then [] else Minimal(n / 256) + [n % 256]
  }

  // Exactly k bytes.
  function Fixed(n: nat, k: nat): (b: seq<byte>)
    ensures |b| == k
  {
    if k == 0 then [] else Fixed(n / 256, k - 1) + [n % 256]
  }

  // Byte i counts 256^(k-1-i).
  lemma {:induction false} FixedAt(n: nat, k: nat, i: nat)
    requires i < k
    ensures Fixed(n, k)[i] == n / Pow256(k - 1 - i) % 256
  {
    if i < k - 1 {
      FixedAt(n / 256, k - 1, i);
      NestedQuotient(n, Pow256(k - 2 - i));
    }
  }

  lemma {:induction false} NestedQuotient(n: nat, p: nat)
    requires p > 0
    ensures n / 256 / p == n / (256 * p)
  {
    var q, r := n / 256 / p, n / 256 % p;
    assert n / 256 == p * q + r;
    assert n == 256 * (p * q + r) + n % 256;
    assert 256 * (p * q + r) == 256 * p * q + 256 * r;
    DivModUnique(n, 256 * p, q, 256 * r + n % 256);
  }

  function Pow256(k: nat): (r: nat)
    ensures r > 0
  {
    if k == 0 then 1 else 256 * Pow256(k - 1)
  }

  lemma {:induction false} BigMinimal(n: nat)
    ensures Big(Minimal(n)) == n
  {
    if n > 0 {
      BigMinimal(n / 256);
      assert Minimal(n)[..|Minimal(n)| - 1] == Minimal(n / 256);
    }
  }

  lemma {:induction false} MinimalBig(b: seq<byte>)
    requires |b| > 0 ==> b[0] != 0
    ensures Minimal(Big(b)) == b
  {
    if |b| > 0 {
      var front := b[..|b| - 1];
      if |b| > 1 {
        assert front[0] == b[0];
        MinimalBig(front);
        PositiveBig(front);
      } else {
        assert front == [];
      }
      assert Big(b) / 256 == Big(front) && Big(b) % 256 == b[|b| - 1];
      assert b == front + [b[|b| - 1]];
    }
  }

  lemma {:induction false} PositiveBig(b: seq<byte>)
    requires |b| > 0 && b[0] != 0
    ensures Big(b) > 0
  {
    if |b| > 1 {
      PositiveBig(b[..|b| - 1]);
    }
  }

  lemma {:induction false} BigFixed(n: nat, k: nat)
    requires n < Pow256(k)
    ensures Big(Fixed(n, k)) == n
  {
    if k > 0 {
      BigFixed(n / 256, k - 1);
      assert Fixed(n, k)[..k - 1] == Fixed(n / 256, k - 1);
    }
  }

  lemma {:induction false} FixedBig(b: seq<byte>)
    ensures Fixed(Big(b), |b|) == b && Big(b) < Pow256(|b|)
  {
    if |b| > 0 {
      var front := b[..|b| - 1];
      FixedBig(front);
      assert Big(b) / 256 == Big(front) && Big(b) % 256 == b[|b| - 1];
      assert b == front + [b[|b| - 1]];
    }
  }

  // A leading zero byte changes nothing.
  lemma {:induction false} BigLeadingZero(b: seq<byte>)
    requires |b| > 0 && b[0] == 0
    ensures Big(b[1..]) == Big(b)
  {
    if |b| == 1 {
      assert Big(b[..0]) == 0;
    } else {
      BigLeadingZero(b[..|b| - 1]);
      assert b[1..][..|b| - 2] == b[..|b| - 1][1..];
    }
  }

  lemma {:induction false} BigAtLeast(b: seq<byte>)
    requires |b| > 0 && b[0] != 0
    ensures Big(b) >= Pow256(|b| - 1)
  {
    if |b| == 1 {
      assert Big(b[..0]) == 0;
    } else {
      BigAtLeast(b[..|b| - 1]);
    }
  }

  // A longer prefix writes a number at least as large.
  lemma {:induction false} BigGrows(b: seq<byte>, k: nat)
    requires k <= |b|
    ensures Big(b[..k]) <= Big(b)
  {
    if k < |b| {
      BigGrows(b[..|b| - 1], k);
      assert b[..|b| - 1][..k] == b[..k];
    } else {
      assert b[..k] == b;
    }
  }

  lemma {:induction false} Pow256Monotone(j: nat, k: nat)
    requires j <= k
    ensures Pow256(j) <= Pow256(k)
  {
    if j < k {
      Pow256Monotone(j, k - 1);
    }
  }

  lemma {:induction false} Pow256Add(j: nat, k: nat)
    ensures Pow256(j + k) == Pow256(j) * Pow256(k)
  {
    if j > 0 {
      Pow256Add(j - 1, k);
      assert 256 * Pow256(j - 1) * Pow256(k) == 256 * (Pow256(j - 1) * Pow256(k));
    }
  }

  // A 32-bit number in memory, least significant byte first.
  function Word(n: nat): (b: seq<byte>)
    ensures |b| == 4
  {
    var n1 := n / 256;
    var n2 := n1 / 256;
    [n % 256, n1 % 256, n2 % 256, n2 / 256 % 256]
  }

  function FromWord(b: seq<byte>): nat
    requires |b| == 4
  {
    var w: seq<int> := b;
    w[0] + 256 * (w[1] + 256 * (w[2] + 256 * w[3]))
  }

  // Byte i counts 256^i.
  lemma {:induction false} WordBytes(n: nat)
    ensures var b := Word(n);
      b[0] == n % 256 && b[1] == n / 0x100 % 256 && b[2] == n / 0x1_0000 % 256 && b[3] == n / 0x100_0000 % 256
  {
  }

  lemma {:induction false} WordWeights(b: seq<byte>)
    requires |b| == 4
    ensures FromWord(b) == b[0] as int + 0x100 * b[1] as int + 0x1_0000 * b[2] as int + 0x100_0000 * b[3] as int
  {
  }

  lemma {:induction false} WordRoundTrip(n: nat)
    requires n < 0x1_0000_0000
    ensures FromWord(Word(n)) == n
  {
    var n1 := n / 256;
    var n2 := n1 / 256;
    assert n2 / 256 < 256 by {
      assert n1 < 0x100_0000 && n2 < 0x1_0000;
    }
  }
}
