// BLAKE2b as a streaming machine over any compression function: the last block
// is always held back, and the counter tells how many bytes were compressed.
module Blake2b {
  import opened Bytes
  import opened Words

  const BLOCKBYTES: nat := 128
  const OUTBYTES: nat := 64
  const KEYBYTES: nat := 64

  // The compression function F of RFC 7693, section 3.2, the initial value for
  // an output and a key length, and the bytes of a chain value.
  datatype Core<!H(!new)> = Core(compress: (H, seq<byte>, int, bool) -> H, start: (nat, nat) -> H, bytes: H -> seq<byte>, wiped: H)

  ghost predicate IsCore<H(!new)>(c: Core<H>) { forall h :: |c.bytes(h)| == OUTBYTES }

  function ZeroBytes(n: nat): (z: seq<byte>)
    ensures |z| == n && forall i :: 0 <= i < n ==> z[i] == 0
  {
    seq(n, i => 0)
  }

  // ---- the hash of section 3.3 ----

  // The chain value after the last block, t bytes having been compressed before.
  function Hashed<H(!new)>(c: Core<H>, h: H, t: nat, msg: seq<byte>): H
    decreases |msg|
  {
    if |msg| <= BLOCKBYTES then c.compress(h, msg + ZeroBytes(BLOCKBYTES - |msg|), t + |msg|, true)
    else Hashed(c, c.compress(h, msg[..BLOCKBYTES], t + BLOCKBYTES, false), t + BLOCKBYTES, msg[BLOCKBYTES..])
  }

  // A key takes the first block.
  function KeyBlock(key: seq<byte>): (b: seq<byte>)
    requires |key| <= KEYBYTES
    ensures |b| == if key == [] then 0 else 128
    ensures forall i :: 0 <= i < |b| ==> b[i] == if i < |key| then key[i] else 0
  {
    if |key| == 0 then [] else key + ZeroBytes(BLOCKBYTES - |key|)
  }

  function Digest<H(!new)>(c: Core<H>, outlen: nat, key: seq<byte>, msg: seq<byte>): (d: seq<byte>)
    requires |key| <= KEYBYTES
  {
    var all := c.bytes(Hashed(c, c.start(outlen, |key|), 0, KeyBlock(key) + msg));
    if outlen <= |all| then all[..outlen] else all
  }

  // Whatever follows, hashing everything from the start is hashing the held back
  // bytes and what follows from here.
  ghost predicate Continues<H(!new)>(c: Core<H>, start: H, msg: seq<byte>, h: H, buf: seq<byte>, rest: seq<byte>) {
    |buf| <= |msg| && Hashed(c, start, 0, msg + rest) == Hashed(c, h, |msg| - |buf|, buf + rest)
  }

  // Everything but the held back bytes is compressed.
  ghost predicate HoldsBack<H(!new)>(c: Core<H>, start: H, msg: seq<byte>, h: H, buf: seq<byte>) {
    forall rest :: Continues(c, start, msg, h, buf, rest)
  }

  lemma {:induction false} NothingHeld<H(!new)>(c: Core<H>, start: H)
    ensures HoldsBack(c, start, [], start, [])
  {
  }

  // More bytes held back.
  lemma {:induction false} HoldMore<H(!new)>(c: Core<H>, start: H, msg: seq<byte>, h: H, buf: seq<byte>, more: seq<byte>)
    requires HoldsBack(c, start, msg, h, buf)
    ensures HoldsBack(c, start, msg + more, h, buf + more)
  {
    forall rest
      ensures Continues(c, start, msg + more, h, buf + more, rest)
    {
      assert Continues(c, start, msg, h, buf, more + rest);
      assert msg + more + rest == msg + (more + rest) && buf + more + rest == buf + (more + rest);
    }
  }

  // A block with something after it is compressed.
  lemma {:induction false} CompressHeld<H(!new)>(c: Core<H>, start: H, msg: seq<byte>, h: H, block: seq<byte>, next: seq<byte>)
    requires HoldsBack(c, start, msg + next, h, block + next) && |block| == BLOCKBYTES && |next| > 0 && |block| <= |msg|
    ensures HoldsBack(c, start, msg + next, c.compress(h, block, |msg|, false), next)
  {
    forall rest
      ensures Continues(c, start, msg + next, c.compress(h, block, |msg|, false), next, rest)
    {
      assert Continues(c, start, msg + next, h, block + next, rest);
      var all := block + next + rest;
      assert all[..BLOCKBYTES] == block && all[BLOCKBYTES..] == next + rest;
    }
  }

  // ---- the state ----

  class State<H(==,!new)> {
    const core: Core<H>
    var h: H
    var t0: int
    var t1: int
    var f0: bool
    var buf: seq<byte>
    var outlen: nat
    // the bytes taken in, and the chain value they started from
    ghost var msg: seq<byte>
    ghost var start: H

    ghost predicate Counts(n: int)
      reads this
    {
      0 <= t0 < WORD64 && 0 <= t1 < WORD64 && t0 + WORD64 * t1 == n
    }

    // Between calls a whole or partial block is held back, nothing only at the
    // start, and the counter tells how many bytes were compressed.
    ghost predicate Absorbing()
      reads this
    {
      && IsCore(core) && !f0 && 1 <= outlen <= OUTBYTES
      && |buf| <= BLOCKBYTES && |buf| <= |msg| < WORD64 * WORD64 && (|buf| == 0 ==> |msg| == 0)
      && Counts(|msg| - |buf|)
      && HoldsBack(core, start, msg, h, buf)
    }

    // blake2b_init and the first part of blake2b_init_key
    constructor (core: Core<H>, outlen: nat, keylen: nat)
      requires IsCore(core)
      ensures this.core == core && fresh(this)
      ensures if 1 <= outlen <= OUTBYTES && keylen <= KEYBYTES
        then Absorbing() && msg == [] && start == core.start(outlen, keylen) && this.outlen == outlen
        else f0
    {
      this.core := core;
      buf, t0, t1 := [], 0, 0;
      msg := [];
      if outlen == 0 || outlen > OUTBYTES || keylen > KEYBYTES {
        h, start, f0 := core.wiped, core.wiped, true;
        this.outlen := 0;
      } else {
        h, start, f0 := core.start(outlen, keylen), core.start(outlen, keylen), false;
        this.outlen := outlen;
        NothingHeld(core, core.start(outlen, keylen));
      }
    }

    // blake2b_increment_counter
    method IncrementCounter(inc: nat, ghost n: nat)
      requires Counts(n) && inc < WORD64 && n + inc < WORD64 * WORD64
      modifies this`t0, this`t1
      ensures Counts(n + inc)
    {
      t0 := W64(t0 + inc);
      t1 := W64(t1 + (if t0 < inc then 1 else 0));
    }

    // One block that is known not to be the last.
    method CompressBlock(block: seq<byte>, ghost before: seq<byte>, ghost next: seq<byte>)
      requires |block| == BLOCKBYTES && |next| > 0 && |before| >= BLOCKBYTES && |before| < WORD64 * WORD64
      requires Counts(|before| - BLOCKBYTES) && HoldsBack(core, start, before + next, h, block + next)
      modifies this`h, this`t0, this`t1
      ensures Counts(|before|) && HoldsBack(core, start, before + next, h, next)
    {
      IncrementCounter(BLOCKBYTES, |before| - BLOCKBYTES);
      CompressHeld(core, start, before, h, block, next);
      h := core.compress(h, block, t0 + WORD64 * t1, false);
    }

    // blake2b_update
    method Update(input: seq<byte>) returns (ret: int)
      requires f0 || Absorbing()
      requires |msg| + |input| < WORD64 * WORD64
      modifies this
      ensures f0 == old(f0) && outlen == old(outlen) && start == old(start)
      // A finished state rejects more bytes and is left alone.
      ensures ret == (if input != [] && old(f0) then -1 else 0)
      ensures ret < 0 || input == [] ==> h == old(h) && t0 == old(t0) && t1 == old(t1) && buf == old(buf) && msg == old(msg)
      ensures !f0 ==> Absorbing() && msg == old(msg) + input
    {
      if |input| == 0 {
        assert msg + input == msg;
        return 0;
      }
      if f0 {
        return -1;
      }
      HoldMore(core, start, msg, h, buf, input);
      ghost var old_msg := msg;
      msg := msg + input;
      var pin := 0;
      if |buf| + |input| > BLOCKBYTES {
        pin := AbsorbBlocks(input);
        assert buf + input[pin..] == input[pin..];
      } else {
        assert input[pin..] == input;
      }
      buf := buf + input[pin..];
      return 0;
    }

    // Lines 259-276: the held back block is completed, and further whole blocks follow as long as something comes after them.
    method AbsorbBlocks(input: seq<byte>) returns (pin: nat)
      requires |buf| <= BLOCKBYTES && |buf| + |input| > BLOCKBYTES && |buf| + |input| <= |msg| < WORD64 * WORD64
      requires Counts(|msg| - |input| - |buf|) && HoldsBack(core, start, msg, h, buf + input)
      requires msg[|msg| - |input|..] == input
      modifies this`h, this`t0, this`t1, this`buf
      ensures pin <= |input| && buf == [] && 0 < |input| - pin <= BLOCKBYTES
      ensures Counts(|msg| - (|input| - pin)) && HoldsBack(core, start, msg, h, input[pin..])
    {
      var fill := BLOCKBYTES - |buf|;
      var block := buf + input[..fill];
      pin := fill;
      SplitInput(msg, input, pin);
      assert buf + input == block + input[pin..];
      CompressBlock(block, msg[..|msg| - |input| + pin], input[pin..]);
      buf := [];
      while |input| - pin > BLOCKBYTES
        invariant pin <= |input| && 0 < |input| - pin && buf == []
        invariant Counts(|msg| - (|input| - pin)) && HoldsBack(core, start, msg, h, input[pin..])
      {
        ghost var next := pin + BLOCKBYTES;
        SplitInput(msg, input, next);
        assert input[pin..] == input[pin..pin + BLOCKBYTES] + input[next..];
        CompressBlock(input[pin..pin + BLOCKBYTES], msg[..|msg| - |input| + next], input[next..]);
        pin := pin + BLOCKBYTES;
      }
    }

    // blake2b_final
    method Final(size: nat) returns (ret: int, out: seq<byte>)
      requires f0 || Absorbing()
      modifies this
      // A buffer too short, or a second call, is refused.
      ensures ret == if size < old(outlen) || old(f0) then -1 else 0
      ensures ret == 0 ==> f0 && out == core.bytes(Hashed(core, start, 0, old(msg)))[..old(outlen)]
      ensures start == old(start)
      ensures ret < 0 ==> out == [] && f0 == old(f0) && h == old(h) && buf == old(buf) && msg == old(msg) && (!f0 ==> Absorbing())
    {
      out := [];
      if size < outlen {
        return -1, out;
      }
      if f0 {
        return -1, out;
      }
      IncrementCounter(|buf|, |msg| - |buf|);
      f0 := true;
      FinalBlock(core, start, msg, h, buf);
      buf := buf + ZeroBytes(BLOCKBYTES - |buf|);
      h := core.compress(h, buf, t0 + WORD64 * t1, true);
      assert |core.bytes(h)| == OUTBYTES;
      out := core.bytes(h)[..outlen];
      buf := [];
      h := core.wiped;
      return 0, out;
    }
  }

  lemma {:induction false} SplitInput(msg: seq<byte>, input: seq<byte>, k: nat)
    requires |input| <= |msg| && msg[|msg| - |input|..] == input && k <= |input|
    ensures msg == msg[..|msg| - |input| + k] + input[k..]
  {
    assert input[k..] == msg[|msg| - |input| + k..];
  }

  lemma {:induction false} FinalBlock<H(!new)>(c: Core<H>, start: H, msg: seq<byte>, h: H, buf: seq<byte>)
    requires HoldsBack(c, start, msg, h, buf) && |buf| <= BLOCKBYTES
    ensures Hashed(c, start, 0, msg) == c.compress(h, buf + ZeroBytes(BLOCKBYTES - |buf|), |msg|, true)
  {
    assert Continues(c, start, msg, h, buf, []);
    assert msg + [] == msg && buf + [] == buf;
  }

  // ---- whole messages ----

  // blake2b_init_key: the key, filled up with zeros, is the first block.
  method InitKey<H(==,!new)>(core: Core<H>, outlen: nat, key: seq<byte>) returns (s: State<H>, ret: int)
    requires IsCore(core)
    ensures fresh(s) && s.core == core
    ensures ret == if 1 <= outlen <= OUTBYTES && 1 <= |key| <= KEYBYTES then 0 else -1
    ensures ret < 0 ==> s.f0
    ensures ret == 0 ==> s.Absorbing() && !s.f0 && s.msg == KeyBlock(key) && s.start == core.start(outlen, |key|) && s.outlen == outlen
  {
    if outlen == 0 || outlen > OUTBYTES || |key| == 0 || |key| > KEYBYTES {
      s := new State(core, 0, 0);
      return s, -1;
    }
    s := new State(core, outlen, |key|);
    var block := key + ZeroBytes(BLOCKBYTES - |key|);
    var status := s.Update(block);
    return s, 0;
  }

  // blake2b
  method OneShot<H(==,!new)>(core: Core<H>, outlen: nat, input: seq<byte>, key: seq<byte>) returns (ret: int, out: seq<byte>)
    requires IsCore(core) && |input| < WORD64
    ensures ret == if 1 <= outlen <= OUTBYTES && |key| <= KEYBYTES then 0 else -1
    ensures ret == 0 ==> out == Digest(core, outlen, key, input) && |out| == outlen
  {
    out := [];
    if outlen == 0 || outlen > OUTBYTES || |key| > KEYBYTES {
      return -1, out;
    }
    var s;
    if |key| > 0 {
      var status;
      s, status := InitKey(core, outlen, key);
    } else {
      s := new State(core, outlen, 0);
    }
    var status := s.Update(input);
    ret, out := s.Final(outlen);
    assert |core.bytes(Hashed(core, s.start, 0, KeyBlock(key) + input))| == OUTBYTES;
  }

  // The variable length hash of RFC 9106, section 3.3: V_1, V_2, ...
  function V<H(!new)>(core: Core<H>, x: seq<byte>, i: nat): seq<byte> {
    Digest(core, OUTBYTES, [], if i == 0 then x else V(core, x, i - 1))
  }

  // The first halves of V_1 to V_r.
  function Halves<H(!new)>(core: Core<H>, x: seq<byte>, r: nat): (b: seq<byte>)
    requires IsCore(core)
    ensures |b| == 32 * r
  {
    if r == 0 then []
    else
      assert |core.bytes(Hashed(core, core.start(OUTBYTES, 0), 0, KeyBlock([]) + if r == 1 then x else V(core, x, r - 2)))| == OUTBYTES;
      Halves(core, x, r - 1) + V(core, x, r - 1)[..32]
  }

  function LongHash<H(!new)>(core: Core<H>, outlen: nat, input: seq<byte>): seq<byte>
    requires IsCore(core)
  {
    var x := Word(outlen) + input;
    if outlen <= OUTBYTES then Digest(core, outlen, [], x)
    else
      var r := (outlen + 31) / 32 - 2;
      Halves(core, x, r) + Digest(core, outlen - 32 * r, [], V(core, x, r - 1))
  }

  // RFC 9106, section 3.3: every 32 bytes but the last ones are the first half of
  // V_1, V_2, ..., each the hash of the one before it, and the rest is the hash of
  // the last one in as many bytes as are missing.
  lemma {:induction false} LongHashParts<H(!new)>(core: Core<H>, outlen: nat, input: seq<byte>, k: nat)
    requires IsCore(core) && outlen > 64
    ensures var r, all := (outlen + 31) / 32 - 2, LongHash(core, outlen, input);
      && |all| >= 32 * r && r >= 1
      && (k < r ==> |V(core, Word(outlen) + input, k)| == 64 && all[32 * k..32 * k + 32] == V(core, Word(outlen) + input, k)[..32])
      && all[32 * r..] == Digest(core, outlen - 32 * r, [], V(core, Word(outlen) + input, r - 1))
  {
    var x, r := Word(outlen) + input, (outlen + 31) / 32 - 2;
    if k < r {
      HalvesAt(core, x, r, k);
      assert LongHash(core, outlen, input)[..32 * r] == Halves(core, x, r);
    }
  }

  lemma {:induction false} HalvesAt<H(!new)>(core: Core<H>, x: seq<byte>, r: nat, k: nat)
    requires IsCore(core) && k < r
    ensures |V(core, x, k)| == 64 && Halves(core, x, r)[32 * k..32 * k + 32] == V(core, x, k)[..32]
  {
    assert |core.bytes(Hashed(core, core.start(OUTBYTES, 0), 0, KeyBlock([]) + if k == 0 then x else V(core, x, k - 1)))| == OUTBYTES;
    if k < r - 1 {
      HalvesAt(core, x, r - 1, k);
      assert Halves(core, x, r)[..32 * (r - 1)] == Halves(core, x, r - 1);
    }
  }

  // blake2b_long
  method Long<H(==,!new)>(core: Core<H>, outlen: nat, input: seq<byte>) returns (ret: int, out: seq<byte>)
    requires IsCore(core) && |input| < WORD64
    ensures ret == if 1 <= outlen < 0x1_0000_0000 then 0 else -1
    ensures ret == 0 ==> out == LongHash(core, outlen, input) && |out| == outlen
  {
    out := [];
    if outlen >= 0x1_0000_0000 {
      return -1, out;
    }
    ghost var x := Word(outlen) + input;
    if outlen <= OUTBYTES {
      ret, out := HashPrefixed(core, outlen, Word(outlen), input);
      return;
    }
    var buffer;
    ret, buffer := HashPrefixed(core, OUTBYTES, Word(outlen), input);
    assert Halves(core, x, 0) == [];
    out := buffer[..32];
    var toproduce := outlen - 32;
    ghost var r := 1;
    assert out == Halves(core, x, 0) + V(core, x, 0)[..32];
    while toproduce > OUTBYTES
      invariant r >= 1 && toproduce == outlen - 32 * r && toproduce > 32 && |buffer| == OUTBYTES
      invariant buffer == V(core, x, r - 1) && out == Halves(core, x, r) && ret == 0
    {
      ret, buffer := OneShot(core, OUTBYTES, buffer, []);
      out := out + buffer[..32];
      toproduce := toproduce - 32;
      r := r + 1;
    }
    var last;
    ret, last := OneShot(core, toproduce, buffer, []);
    out := out + last;
    assert r == (outlen + 31) / 32 - 2;
  }

  // A prefix and a message taken in one after the other.
  method HashPrefixed<H(==,!new)>(core: Core<H>, outlen: nat, prefix: seq<byte>, input: seq<byte>) returns (ret: int, out: seq<byte>)
    requires IsCore(core) && |prefix| == 4 && |input| < WORD64 && outlen <= OUTBYTES
    ensures ret == if outlen >= 1 then 0 else -1
    ensures ret == 0 ==> out == Digest(core, outlen, [], prefix + input) && |out| == outlen
  {
    out := [];
    var s := new State(core, outlen, 0);
    if outlen == 0 {
      return -1, out;
    }
    var status := s.Update(prefix);
    status := s.Update(input);
    ret, out := s.Final(outlen);
    assert [] + prefix + input == KeyBlock([]) + (prefix + input);
    assert |core.bytes(Hashed(core, s.start, 0, prefix + input))| == OUTBYTES;
  }
}
