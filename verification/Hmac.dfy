// HMAC over the streaming hash (RFC 2104), and the deterministic generator of
// RFC 6979, section 3.2, on top of it.
module Hmac {
  import opened Bytes
  import Sha256

  // The hash takes messages below 2^64 bits; with a block in front this many bytes remain.
  const LIMIT: nat := 0x2000_0000_0000_0000 - 64

  function ZeroBytes(n: nat): (z: seq<byte>)
    ensures |z| == n && forall i :: 0 <= i < n ==> z[i] == 0
  {
    seq(n, i => 0)
  }

  function XorByte(a: byte, c: bv8): byte { ((a as bv8) ^ c) as int }

  function XorAll(a: seq<byte>, c: bv8): (r: seq<byte>)
    ensures |r| == |a|
  {
    if a == [] then [] else [XorByte(a[0], c)] + XorAll(a[1..], c)
  }

  const IPAD: bv8 := 0x36
  const OPAD: bv8 := 0x5c

  // ---- RFC 2104 ----

  // The key, hashed first if it is longer than a block, filled up with zeros.
  function BlockKey(key: seq<byte>): (k: seq<byte>)
    ensures |k| == Sha256.BLOCK
    ensures |key| <= 64 ==> forall i :: 0 <= i < 64 ==> k[i] == if i < |key| then key[i] else 0
    ensures |key| > 64 ==> forall i :: 0 <= i < 64 ==> k[i] == if i < 32 then Sha256.Digest(key)[i] else 0
  {
    if |key| <= Sha256.BLOCK then key + ZeroBytes(Sha256.BLOCK - |key|) else Sha256.Digest(key) + ZeroBytes(32)
  }

  function Padded(key: seq<byte>, pad: bv8): (p: seq<byte>)
    ensures |p| == Sha256.BLOCK
  {
    XorAll(BlockKey(key), pad)
  }

  function Mac(key: seq<byte>, msg: seq<byte>): (d: seq<byte>)
    ensures |d| == 32
  {
    Sha256.Digest(Padded(key, OPAD) + Sha256.Digest(Padded(key, IPAD) + msg))
  }

  // Every byte of the key block is combined with 36 for the inner hash and 5C for the outer one.
  lemma {:induction false} PaddedAt(key: seq<byte>, i: nat)
    requires i < 64
    ensures Padded(key, IPAD)[i] == ((BlockKey(key)[i] as bv8) ^ 0x36) as int
    ensures Padded(key, OPAD)[i] == ((BlockKey(key)[i] as bv8) ^ 0x5c) as int
  {
    XorAt(BlockKey(key), IPAD, i);
    XorAt(BlockKey(key), OPAD, i);
  }

  lemma {:induction false} XorAt(a: seq<byte>, c: bv8, i: nat)
    requires i < |a|
    ensures XorAll(a, c)[i] == XorByte(a[i], c)
  {
    if i > 0 {
      XorAt(a[1..], c, i - 1);
    }
  }

  // ---- the code ----

  // secp256k1_hmac_sha256
  class Hmac {
    const inner: Sha256.State
    const outer: Sha256.State
    ghost const key: seq<byte>
    ghost var msg: seq<byte>

    ghost predicate Valid()
      reads this, inner, outer, inner.buf, outer.buf
    {
      && inner != outer && inner.buf != outer.buf
      && inner.Valid() && outer.Valid()
      && inner.msg == Padded(key, IPAD) + msg && outer.msg == Padded(key, OPAD)
    }

    // secp256k1_hmac_sha256_initialize
    constructor (key: seq<byte>)
      requires |key| < 0x2000_0000_0000_0000
      ensures Valid() && this.key == key && msg == []
      ensures fresh(inner) && fresh(outer) && fresh(inner.buf) && fresh(outer.buf)
    {
      var rkey := NormalizeKey(key);
      rkey := XorAll(rkey, OPAD);
      var o := StartWith(rkey);
      rkey := XorAll(rkey, OPAD ^ IPAD);
      var i := StartWith(rkey);
      PadsAreXored(BlockKey(key));
      Regroup(Padded(key, IPAD), [], []);
      inner, outer := i, o;
      this.key, msg := key, [];
    }

    // secp256k1_hmac_sha256_write
    method Write(data: seq<byte>)
      requires Valid()
      modifies this`msg, inner`s, inner`bytes, inner`msg, inner.buf
      ensures Valid() && msg == old(msg) + data
    {
      ghost var before := msg;
      inner.Write(data);
      msg := msg + data;
      Regroup(Padded(key, IPAD), before, data);
    }

    // secp256k1_hmac_sha256_finalize
    method Finalize() returns (out32: seq<byte>)
      requires Valid() && |msg| < LIMIT
      modifies inner`s, inner`bytes, inner`msg, inner.buf, outer`s, outer`bytes, outer`msg, outer.buf
      ensures out32 == Mac(key, msg)
    {
      var temp := inner.Finalize();
      out32 := Append(temp);
    }

    // Lines 200-202
    method Append(temp: seq<byte>) returns (out32: seq<byte>)
      requires outer.Valid() && |outer.msg| == Sha256.BLOCK && |temp| == 32
      modifies outer`s, outer`bytes, outer`msg, outer.buf
      ensures out32 == Sha256.Digest(old(outer.msg) + temp)
    {
      outer.Write(temp);
      out32 := outer.Finalize();
    }
  }

  // A hash that has taken in one key block.
  method StartWith(rkey: seq<byte>) returns (st: Sha256.State)
    ensures fresh(st) && fresh(st.buf) && st.Valid() && st.msg == rkey
  {
    st := new Sha256.State();
    st.Write(rkey);
    Regroup(rkey, [], []);
  }

  // Lines 166-176
  method NormalizeKey(key: seq<byte>) returns (rkey: seq<byte>)
    requires |key| < 0x2000_0000_0000_0000
    ensures rkey == BlockKey(key)
  {
    if |key| <= Sha256.BLOCK {
      rkey := key + ZeroBytes(Sha256.BLOCK - |key|);
    } else {
      var sha := new Sha256.State();
      sha.Write(key);
      var digest := sha.Finalize();
      assert [] + key == key;
      rkey := digest + ZeroBytes(32);
    }
  }

  // The second pad is xored over the first.
  lemma {:induction false} PadsAreXored(key: seq<byte>)
    ensures XorAll(XorAll(key, OPAD), OPAD ^ IPAD) == XorAll(key, IPAD)
  {
    if key != [] {
      PadsAreXored(key[1..]);
      PadByte(key[0]);
    }
  }

  lemma {:induction false} PadByte(b: byte)
    ensures XorByte(XorByte(b, OPAD), OPAD ^ IPAD) == XorByte(b, IPAD)
  {
    PadOver(b as bv8);
    BackAndForth((b as bv8) ^ OPAD);
  }

  lemma {:induction false} PadOver(x: bv8)
    ensures (x ^ 0x5c) ^ (0x5c ^ 0x36) == x ^ 0x36
  {
  }

  lemma {:induction false} BackAndForth(x: bv8)
    ensures (x as int) as bv8 == x
  {
  }

  lemma {:induction false} Regroup(a: seq<byte>, b: seq<byte>, c: seq<byte>)
    ensures a + b + c == a + (b + c)
    ensures [] + a == a && a + [] == a
  {
  }
}
