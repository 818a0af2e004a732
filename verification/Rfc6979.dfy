// The deterministic generator of RFC 6979, section 3.2.
module Rfc6979 {
  import opened Bytes
  import Hmac

  type Mac = (seq<byte>, seq<byte>) -> seq<byte>

  ghost predicate MacsAt(mac: Mac, k: seq<byte>, m: seq<byte>) { mac(k, m) == Hmac.Mac(k, m) && |mac(k, m)| == 32 }

  // mac is HMAC by another name, under which its definition stays out of sight.
  ghost predicate Macs(mac: Mac) { forall k, m :: MacsAt(mac, k, m) }

  // ---- the standard ----

  datatype Drbg = Drbg(k: seq<byte>, v: seq<byte>)

  // Steps d and e, f and g, and the update of step h, by what follows v.
  ghost function Updated(mac: Mac, d: Drbg, tag: seq<byte>): Drbg {
    var k := mac(d.k, d.v + tag);
    Drbg(k, mac(k, d.v))
  }

  // Steps b to g.
  ghost function Started(mac: Mac, seed: seq<byte>): Drbg {
    Updated(mac, Updated(mac, Drbg(Hmac.ZeroBytes(32), seq(32, i => 1)), [0] + seed), [1] + seed)
  }

  // The state after n more blocks.
  ghost function Steps(mac: Mac, d: Drbg, n: nat): Drbg {
    if n == 0 then d
    else
      var before := Steps(mac, d, n - 1);
      Drbg(before.k, mac(before.k, before.v))
  }

  // T of step h after n blocks.
  ghost function Blocks(mac: Mac, d: Drbg, n: nat): seq<byte> {
    if n == 0 then [] else Blocks(mac, d, n - 1) + Steps(mac, d, n).v
  }

  // The state after n requests for one block each, every one but the first being a retry.
  ghost function Requested(mac: Mac, seed: seq<byte>, n: nat): Drbg {
    if n == 0 then Started(mac, seed)
    else if n == 1 then Steps(mac, Started(mac, seed), 1)
    else Steps(mac, Updated(mac, Requested(mac, seed, n - 1), [0]), 1)
  }

  // Steps b to g of section 3.2 one by one.
  lemma {:induction false} StartedBySteps(mac: Mac, seed: seq<byte>, v: seq<byte>, k: seq<byte>)
    requires |v| == 32 && forall i :: 0 <= i < 32 ==> v[i] == 1
    requires |k| == 32 && forall i :: 0 <= i < 32 ==> k[i] == 0
    ensures
      var k1 := mac(k, v + [0] + seed);
      var v1 := mac(k1, v);
      var k2 := mac(k1, v1 + [1] + seed);
      Started(mac, seed) == Drbg(k2, mac(k2, v1))
  {
    assert k == Hmac.ZeroBytes(32) && v == seq<byte>(32, i => 1);
    var k1 := mac(k, v + ([0] + seed));
    Hmac.Regroup(v, [0], seed);
    Hmac.Regroup(mac(k1, v), [1], seed);
  }

  // Step h: the first candidate, and after each one that is not suitable a new key and the next.
  lemma {:induction false} CandidatesBySteps(mac: Mac, seed: seq<byte>, n: nat)
    ensures var d := Started(mac, seed); Requested(mac, seed, 1) == Drbg(d.k, mac(d.k, d.v))
    ensures n >= 1 ==>
      var d := Requested(mac, seed, n);
      var k := mac(d.k, d.v + [0]);
      Requested(mac, seed, n + 1) == Drbg(k, mac(k, mac(k, d.v)))
  {
    var d := Started(mac, seed);
    assert Steps(mac, d, 0) == d;
    if n >= 1 {
      var e := Updated(mac, Requested(mac, seed, n), [0]);
      assert Steps(mac, e, 0) == e;
    }
  }

  lemma {:induction false} OneBlock(mac: Mac, d: Drbg)
    requires Macs(mac)
    ensures Blocks(mac, d, 1) == Steps(mac, d, 1).v && |Blocks(mac, d, 1)| == 32
  {
    assert Blocks(mac, d, 0) == [];
    var before := Steps(mac, d, 0);
    assert MacsAt(mac, before.k, before.v);
  }

  // ---- the code ----

  // secp256k1_rfc6979_hmac_sha256
  class Rng {
    var k: seq<byte>
    var v: seq<byte>
    var retry: bool
    ghost const mac: Mac

    ghost predicate Valid()
      reads this
    {
      |k| == 32 && |v| == 32 && Macs(mac)
    }

    ghost function State(): Drbg
      reads this
    {
      Drbg(k, v)
    }

    // secp256k1_rfc6979_hmac_sha256_initialize
    constructor (seed: seq<byte>, ghost mac: Mac)
      requires |seed| < Hmac.LIMIT - 33 && Macs(mac)
      ensures Valid() && this.mac == mac && State() == Started(mac, seed) && !retry
    {
      var k0, v0 := Hmac.ZeroBytes(32), seq(32, i => 1);
      k0, v0 := UpdateWith(mac, k0, v0, [0], seed);
      k0, v0 := UpdateWith(mac, k0, v0, [1], seed);
      k, v, retry := k0, v0, false;
      this.mac := mac;
    }

    // secp256k1_rfc6979_hmac_sha256_generate: the first bytes of as many blocks
    // as are needed, after an update unless this is the first request.
    method Generate(outlen: nat) returns (out: seq<byte>)
      requires Valid()
      modifies this
      ensures Valid() && retry
      ensures var d := if old(retry) then Updated(mac, old(State()), [0]) else old(State());
        var n := (outlen + 31) / 32;
        |Blocks(mac, d, n)| >= outlen && out == Blocks(mac, d, n)[..outlen] && State() == Steps(mac, d, n)
    {
      if retry {
        k, v := UpdateWith(mac, k, v, [0], []);
        assert [0] + [] == [0 as byte];
      }
      out := TakeBlocks(outlen);
      retry := true;
    }

    // A request for 32 bytes, as a nonce is asked for: over any run of them the
    // n-th yields the n-th candidate of step h.
    method Request(ghost seed: seq<byte>, ghost n: nat) returns (out: seq<byte>)
      requires Valid() && State() == Requested(mac, seed, n) && (retry <==> n > 0)
      modifies this
      ensures Valid() && State() == Requested(mac, seed, n + 1) && retry
      ensures out == Requested(mac, seed, n + 1).v
    {
      ghost var d := if retry then Updated(mac, State(), [0]) else State();
      out := Generate(32);
      OneBlock(mac, d);
      assert Blocks(mac, d, 1)[..32] == Blocks(mac, d, 1);
    }

    // Lines 250-262
    method TakeBlocks(outlen: nat) returns (out: seq<byte>)
      requires Valid()
      modifies this`v
      ensures Valid()
      ensures var d, n := old(State()), (outlen + 31) / 32;
        |Blocks(mac, d, n)| >= outlen && out == Blocks(mac, d, n)[..outlen] && State() == Steps(mac, d, n)
    {
      ghost var d, n := State(), 0;
      out := [];
      while |out| < outlen
        invariant Valid() && State() == Steps(mac, d, n)
        invariant Taken(mac, d, n, out, outlen)
        decreases outlen - |out|
      {
        var last := v;
        v := MacOf(mac, k, last, [], []);
        var now := if outlen - |out| > 32 then 32 else outlen - |out|;
        TakeMore(mac, d, n, out, outlen, v, now);
        n := n + 1;
        out := out + v[..now];
      }
    }
  }

  // n blocks are made, of which `out` is the part wanted so far.
  ghost predicate Taken(mac: Mac, d: Drbg, n: nat, out: seq<byte>, outlen: nat) {
    && |out| <= outlen && |Blocks(mac, d, n)| == 32 * n
    && (|out| < outlen ==> out == Blocks(mac, d, n))
    && (|out| == outlen ==> 32 * n < outlen + 32 && outlen <= 32 * n && out == Blocks(mac, d, n)[..outlen])
  }

  lemma {:induction false} TakeMore(mac: Mac, d: Drbg, n: nat, out: seq<byte>, outlen: nat, v: seq<byte>, now: nat)
    requires Taken(mac, d, n, out, outlen) && |out| < outlen && |v| == 32 && v == Steps(mac, d, n + 1).v
    requires now == if outlen - |out| > 32 then 32 else outlen - |out|
    ensures Taken(mac, d, n + 1, out + v[..now], outlen)
  {
    assert Blocks(mac, d, n + 1) == Blocks(mac, d, n) + v;
    if now == 32 {
      assert v[..32] == v;
    }
  }

  // One initialize, writes and finalize.
  method MacOf(ghost mac: Mac, k: seq<byte>, a: seq<byte>, b: seq<byte>, c: seq<byte>) returns (r: seq<byte>)
    requires Macs(mac) && |k| < Hmac.LIMIT && |a| + |b| + |c| < Hmac.LIMIT
    ensures r == mac(k, a + b + c) && |r| == 32
    ensures b == [] && c == [] ==> r == mac(k, a)
  {
    var hmac := new Hmac.Hmac(k);
    hmac.Write(a);
    hmac.Write(b);
    hmac.Write(c);
    ghost var m := hmac.msg;
    Hmac.Regroup(a, [], []);
    assert m == a + b + c;
    r := hmac.Finalize();
    assert MacsAt(mac, k, m);
  }

  method UpdateWith(ghost mac: Mac, k0: seq<byte>, v0: seq<byte>, tag: seq<byte>, seed: seq<byte>) returns (k: seq<byte>, v: seq<byte>)
    requires Macs(mac) && |k0| == 32 && |v0| == 32 && |tag| == 1 && |seed| < Hmac.LIMIT - 33
    ensures Drbg(k, v) == Updated(mac, Drbg(k0, v0), tag + seed) && |k| == 32 && |v| == 32
  {
    k := MacOf(mac, k0, v0, tag, seed);
    Hmac.Regroup(v0, tag, seed);
    v := MacOf(mac, k, v0, [], []);
  }
}
