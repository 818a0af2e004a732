// Cipher block chaining with padding, and the chat client's wrappers around it.
module Cbc {
  import opened Bytes
  import opened Words
  import opened Aes
  import opened AesStandard

  const BLOCK: nat := 16

  function Xor(a: byte, b: byte): byte { FromBits(Plus(ToBits(a), ToBits(b))) }

  lemma {:induction false} XorTwice(a: byte, b: byte)
    ensures Xor(Xor(a, b), b) == a
  {
    BitsRoundTrip(Plus(ToBits(a), ToBits(b)));
    PlusTwice(ToBits(a), ToBits(b));
    ByteRoundTrip(a);
  }

  lemma {:induction false} PlusTwice(a: Bits, b: Bits)
    ensures Plus(Plus(a, b), b) == a
  {
  }

  function XorAll(a: seq<byte>, b: seq<byte>): (r: seq<byte>)
    requires |a| == |b|
    ensures |r| == |a|
  {
    seq(|a|, i requires 0 <= i < |a| => Xor(a[i], b[i]))
  }

  lemma {:induction false} XorAllTwice(a: seq<byte>, b: seq<byte>)
    requires |a| == |b|
    ensures XorAll(XorAll(a, b), b) == a
  {
    forall i | 0 <= i < |a|
      ensures XorAll(XorAll(a, b), b)[i] == a[i]
    {
      XorTwice(a[i], b[i]);
    }
  }

  // A block cipher: two functions on blocks of sixteen bytes.
  type Cipher = seq<byte> -> seq<byte>

  ghost predicate InverseAt(e: Cipher, d: Cipher, b: seq<byte>) {
    |b| == BLOCK ==> |e(b)| == BLOCK && d(e(b)) == b
  }

  ghost predicate Inverse(e: Cipher, d: Cipher) { forall b :: InverseAt(e, d, b) }

  // ---- what chaining computes ----

  function Chain(e: Cipher, iv: seq<byte>, p: seq<byte>): (c: seq<byte>)
    decreases |p|
  {
    if |p| < BLOCK || |iv| != BLOCK then []
    else
      var c := e(XorAll(p[..BLOCK], iv));
      c + Chain(e, c, p[BLOCK..])
  }

  function Unchain(d: Cipher, iv: seq<byte>, c: seq<byte>): (p: seq<byte>)
    decreases |c|
  {
    if |c| < BLOCK || |iv| != BLOCK || |d(c[..BLOCK])| != BLOCK then []
    else XorAll(d(c[..BLOCK]), iv) + Unchain(d, c[..BLOCK], c[BLOCK..])
  }

  // The k-th block of sixteen.
  function BlockAt(s: seq<byte>, k: nat): (b: seq<byte>)
    requires BLOCK * k + BLOCK <= |s|
    ensures |b| == BLOCK
  {
    s[BLOCK * k..BLOCK * k + BLOCK]
  }

  // Every cipher block is the encryption of the text block and the cipher block
  // before it, or the initialization vector for the first.
  lemma {:induction false} ChainedBlock(e: Cipher, iv: seq<byte>, p: seq<byte>, k: nat)
    requires KeepsBlocks(e) && |iv| == BLOCK && BLOCK * k + BLOCK <= |p|
    ensures BLOCK * k + BLOCK <= |Chain(e, iv, p)|
    ensures var c := Chain(e, iv, p);
      BlockAt(c, k) == e(XorAll(BlockAt(p, k), if k == 0 then iv else BlockAt(c, k - 1)))
    decreases k
  {
    assert KeepsBlock(e, XorAll(p[..BLOCK], iv));
    var first := e(XorAll(p[..BLOCK], iv));
    var rest := Chain(e, first, p[BLOCK..]);
    assert Chain(e, iv, p) == first + rest && BlockAt(first + rest, 0) == first && BlockAt(p, 0) == p[..BLOCK];
    if k > 0 {
      ChainedBlock(e, first, p[BLOCK..], k - 1);
      LaterBlock(first, rest, k);
      LaterBlock(p[..BLOCK], p[BLOCK..], k);
      assert p[..BLOCK] + p[BLOCK..] == p;
      if k > 1 {
        LaterBlock(first, rest, k - 1);
      }
    }
  }

  // And every text block the decryption of the cipher block, with the one before it taken off.
  lemma {:induction false} UnchainedBlock(d: Cipher, iv: seq<byte>, c: seq<byte>, k: nat)
    requires KeepsBlocks(d) && |iv| == BLOCK && BLOCK * k + BLOCK <= |c|
    ensures BLOCK * k + BLOCK <= |Unchain(d, iv, c)| && |d(BlockAt(c, k))| == BLOCK
    ensures BlockAt(Unchain(d, iv, c), k) == XorAll(d(BlockAt(c, k)), if k == 0 then iv else BlockAt(c, k - 1))
    decreases k
  {
    var block := c[..BLOCK];
    assert KeepsBlock(d, block) && BlockAt(c, 0) == block;
    var first, rest := XorAll(d(block), iv), Unchain(d, block, c[BLOCK..]);
    assert Unchain(d, iv, c) == first + rest && BlockAt(first + rest, 0) == first;
    if k > 0 {
      UnchainedBlock(d, block, c[BLOCK..], k - 1);
      LaterBlock(first, rest, k);
      LaterBlock(block, c[BLOCK..], k);
      assert block + c[BLOCK..] == c;
      if k > 1 {
        LaterBlock(block, c[BLOCK..], k - 1);
      }
    }
  }

  lemma {:induction false} LaterBlock(first: seq<byte>, rest: seq<byte>, k: nat)
    requires k > 0 && |first| == BLOCK && BLOCK * k <= |rest|
    ensures BlockAt(first + rest, k) == BlockAt(rest, k - 1)
  {
  }

  lemma {:induction false} ChainLength(e: Cipher, d: Cipher, iv: seq<byte>, p: seq<byte>)
    requires Inverse(e, d) && |iv| == BLOCK && |p| % BLOCK == 0
    ensures |Chain(e, iv, p)| == |p|
    decreases |p|
  {
    if |p| >= BLOCK {
      assert InverseAt(e, d, XorAll(p[..BLOCK], iv));
      ChainLength(e, d, e(XorAll(p[..BLOCK], iv)), p[BLOCK..]);
    }
  }

  // Unchaining undoes chaining.
  lemma {:induction false} UnchainChain(e: Cipher, d: Cipher, iv: seq<byte>, p: seq<byte>)
    requires Inverse(e, d) && |iv| == BLOCK && |p| % BLOCK == 0
    ensures Unchain(d, iv, Chain(e, iv, p)) == p
    decreases |p|
  {
    if |p| >= BLOCK {
      var x := XorAll(p[..BLOCK], iv);
      var c := e(x);
      var rest := Chain(e, c, p[BLOCK..]);
      assert InverseAt(e, d, x);
      assert (c + rest)[..BLOCK] == c && (c + rest)[BLOCK..] == rest;
      XorAllTwice(p[..BLOCK], iv);
      UnchainChain(e, d, c, p[BLOCK..]);
      assert p == p[..BLOCK] + p[BLOCK..];
    }
  }

  // And chaining undoes unchaining.
  lemma {:induction false} ChainUnchain(e: Cipher, d: Cipher, iv: seq<byte>, c: seq<byte>)
    requires Inverse(d, e) && |iv| == BLOCK && |c| % BLOCK == 0
    ensures Chain(e, iv, Unchain(d, iv, c)) == c
    decreases |c|
  {
    if |c| >= BLOCK {
      var first := c[..BLOCK];
      assert InverseAt(d, e, first);
      var x := XorAll(d(first), iv);
      var rest := Unchain(d, first, c[BLOCK..]);
      assert (x + rest)[..BLOCK] == x && (x + rest)[BLOCK..] == rest;
      XorAllTwice(d(first), iv);
      ChainUnchain(e, d, first, c[BLOCK..]);
      assert c == first + c[BLOCK..];
    }
  }

  // ---- padding ----

  function Padding(k: byte): seq<byte> { seq(k as int, i => k) }

  // Every plaintext is filled up to a whole number of blocks, by at least one byte.
  function Pad(p: seq<byte>): (r: seq<byte>)
    ensures |r| % BLOCK == 0 && |p| < |r| <= |p| + BLOCK
    ensures r[..|p|] == p && forall i :: |p| <= i < |r| ==> r[i] == |r| - |p|
  {
    p + Padding(BLOCK - |p| % BLOCK)
  }

  // The length of the padding, or 0 if it is malformed.
  function PadLength(p: seq<byte>): (k: nat)
    requires |p| > 0
    ensures k <= BLOCK && k <= |p|
  {
    var k := p[|p| - 1];
    if 1 <= k <= BLOCK && k as int <= |p| && p[|p| - k..] == Padding(k) then k else 0
  }

  lemma {:induction false} PadLengthOfPad(p: seq<byte>)
    ensures PadLength(Pad(p)) == |Pad(p)| - |p| > 0
  {
    var k := BLOCK - |p| % BLOCK;
    var r := Pad(p);
    assert r[|r| - 1] == k;
    assert r[|r| - k..] == Padding(k);
  }

  lemma {:induction false} PadOfUnpadded(r: seq<byte>)
    requires |r| > 0 && |r| % BLOCK == 0 && PadLength(r) > 0
    ensures Pad(r[..|r| - PadLength(r)]) == r
  {
    var k := PadLength(r);
    assert BLOCK - (|r| - k) % BLOCK == k;
    assert r == r[..|r| - k] + r[|r| - k..];
  }

  // ---- the loops ----

  lemma {:induction false} XorComm(a: byte, b: byte)
    ensures Xor(a, b) == Xor(b, a)
  {
    PlusComm(ToBits(a), ToBits(b));
  }

  // mixed[i] ^= data[i]
  method MixIn(mixed: array<byte>, data: seq<byte>)
    requires |data| == mixed.Length
    modifies mixed
    ensures mixed[..] == XorAll(data, old(mixed[..]))
  {
    ghost var was := mixed[..];
    for i := 0 to |data|
      invariant forall k :: 0 <= k < i ==> mixed[k] == XorAll(data, was)[k]
      invariant forall k :: i <= k < mixed.Length ==> mixed[k] == was[k]
    {
      XorComm(mixed[i], data[i]);
      mixed[i] := Xor(mixed[i], data[i]);
    }
  }

  method Copy(out: array<byte>, at: nat, data: seq<byte>)
    requires at + |data| <= out.Length
    modifies out
    ensures out[at..at + |data|] == data
    ensures out[..at] == old(out[..at]) && out[at + |data|..] == old(out[at + |data|..])
  {
    forall i | 0 <= i < |data| {
      out[at + i] := data[i];
    }
  }

  ghost predicate KeepsBlocks(e: Cipher) { forall b :: KeepsBlock(e, b) }

  ghost predicate KeepsBlock(e: Cipher, b: seq<byte>) { |b| == BLOCK ==> |e(b)| == BLOCK }

  // What is encrypted, and how many bytes it makes.
  function Text(data: seq<byte>, pad: bool): seq<byte> { if pad then Pad(data) else data }

  function EncryptedLength(data: seq<byte>, pad: bool): nat {
    if |data| == 0 || (!pad && |data| % BLOCK != 0) then 0 else |Text(data, pad)|
  }

  // The first `written` bytes are out, mixed holds the last cipher block.
  ghost predicate Encrypting(enc: Cipher, iv: seq<byte>, text: seq<byte>, out: seq<byte>, mixed: seq<byte>, written: nat) {
    && written <= |out| && written <= |text| && |mixed| == BLOCK
    && out[..written] + Chain(enc, mixed, text[written..]) == Chain(enc, iv, text)
  }

  // One block: mixed becomes the cipher block, which is also written out.
  method EncryptOne(enc: Cipher, mixed: array<byte>, block: seq<byte>, out: array<byte>, at: nat, ghost iv: seq<byte>, ghost text: seq<byte>)
    requires mixed.Length == BLOCK && at + BLOCK <= out.Length && mixed != out && KeepsBlocks(enc)
    requires at + BLOCK <= |text| && block == text[at..at + BLOCK]
    requires Encrypting(enc, iv, text, out[..], mixed[..], at)
    modifies mixed, out
    ensures out[at + BLOCK..] == old(out[at + BLOCK..])
    ensures Encrypting(enc, iv, text, out[..], mixed[..], at + BLOCK)
  {
    ghost var was, before := mixed[..], out[..];
    MixIn(mixed, block);
    var c := enc(mixed[..]);
    assert KeepsBlock(enc, XorAll(block, was));
    Copy(out, at, c);
    Copy(mixed, 0, c);
    assert mixed[..] == c;
    EncryptStep(enc, iv, text, before, was, out[..], c, at);
  }

  lemma {:induction false} EncryptStep(enc: Cipher, iv: seq<byte>, text: seq<byte>, out: seq<byte>, mixed: seq<byte>,
                                      out': seq<byte>, c: seq<byte>, at: nat)
    requires Encrypting(enc, iv, text, out, mixed, at) && at + BLOCK <= |text| && at + BLOCK <= |out'| && |c| == BLOCK
    requires c == enc(XorAll(text[at..at + BLOCK], mixed))
    requires out'[..at] == out[..at] && out'[at..at + BLOCK] == c
    ensures Encrypting(enc, iv, text, out', c, at + BLOCK)
  {
    var rest := text[at..];
    assert rest[..BLOCK] == text[at..at + BLOCK] && rest[BLOCK..] == text[at + BLOCK..];
    assert out'[..at + BLOCK] == out[..at] + c;
    Regroup(out[..at], c, Chain(enc, c, rest[BLOCK..]));
  }

  // CBCEncrypt
  method CbcEncrypt(enc: Cipher, iv: seq<byte>, data: seq<byte>, pad: bool, out: array<byte>) returns (written: nat)
    requires |iv| == BLOCK && KeepsBlocks(enc) && EncryptedLength(data, pad) <= out.Length
    modifies out
    ensures written == EncryptedLength(data, pad)
    ensures written > 0 ==> out[..written] == Chain(enc, iv, Text(data, pad))
    ensures out[written..] == old(out[written..])
  {
    written := 0;
    var padsize := |data| % BLOCK;
    if |data| == 0 || (!pad && padsize != 0) {
      return;
    }
    ghost var text := Text(data, pad);
    var mixed := new byte[BLOCK](i requires 0 <= i < BLOCK => iv[i]);
    assert mixed[..] == iv && text[0..] == text;
    written := EncryptWhole(enc, mixed, data, pad, out, iv);
    if pad {
      LastBlock(data, written);
      EncryptOne(enc, mixed, data[written..] + Padding(BLOCK - padsize), out, written, iv, text);
      written := written + BLOCK;
    }
    assert written == |text|;
    assert text[written..] == [];
  }

  // Lines 60-67: the whole blocks of the data.
  method EncryptWhole(enc: Cipher, mixed: array<byte>, data: seq<byte>, pad: bool, out: array<byte>, ghost iv: seq<byte>)
    returns (written: nat)
    requires mixed.Length == BLOCK && mixed != out && KeepsBlocks(enc) && |Text(data, pad)| <= out.Length
    requires Encrypting(enc, iv, Text(data, pad), out[..], mixed[..], 0)
    modifies mixed, out
    ensures written % BLOCK == 0 && written <= |data| < written + BLOCK
    ensures Encrypting(enc, iv, Text(data, pad), out[..], mixed[..], written)
    ensures out[|Text(data, pad)|..] == old(out[|Text(data, pad)|..])
  {
    written := 0;
    while written + BLOCK <= |data|
      invariant written % BLOCK == 0 && written <= |data|
      invariant Encrypting(enc, iv, Text(data, pad), out[..], mixed[..], written)
      invariant out[|Text(data, pad)|..] == old(out[|Text(data, pad)|..])
    {
      ghost var before := out[..];
      BlockOf(data, pad, written);
      EncryptOne(enc, mixed, data[written..written + BLOCK], out, written, iv, Text(data, pad));
      SameTail(before, out[..], written + BLOCK, |Text(data, pad)|);
      NextBlock(written);
      written := written + BLOCK;
    }
  }

  lemma {:induction false} NextBlock(n: nat)
    requires n % BLOCK == 0
    ensures (n + BLOCK) % BLOCK == 0
  {
  }

  lemma {:induction false} BlockOf(data: seq<byte>, pad: bool, at: nat)
    requires at + BLOCK <= |data|
    ensures |Text(data, pad)| >= |data| && Text(data, pad)[at..at + BLOCK] == data[at..at + BLOCK]
  {
  }

  lemma {:induction false} LastBlock(data: seq<byte>, at: nat)
    requires at % BLOCK == 0 && at <= |data| < at + BLOCK
    ensures |Pad(data)| == at + BLOCK && Pad(data)[at..at + BLOCK] == data[at..] + Padding(BLOCK - |data| % BLOCK)
  {
  }

  // The first `written` bytes are decrypted, prev is the cipher block before the rest.
  ghost predicate Decrypting(dec: Cipher, iv: seq<byte>, data: seq<byte>, out: seq<byte>, prev: seq<byte>, written: nat) {
    && written <= |out| && written <= |data| && |prev| == BLOCK
    && out[..written] + Unchain(dec, prev, data[written..]) == Unchain(dec, iv, data)
  }

  lemma {:induction false} DecryptStep(dec: Cipher, iv: seq<byte>, data: seq<byte>, out: seq<byte>, prev: seq<byte>, out': seq<byte>, at: nat)
    requires Decrypting(dec, iv, data, out, prev, at) && at + BLOCK <= |data| && at + BLOCK <= |out'|
    requires var block := data[at..at + BLOCK]; |dec(block)| == BLOCK && out'[..at] == out[..at] && out'[at..at + BLOCK] == XorAll(dec(block), prev)
    ensures Decrypting(dec, iv, data, out', data[at..at + BLOCK], at + BLOCK)
  {
    var rest, block := data[at..], data[at..at + BLOCK];
    var p := XorAll(dec(block), prev);
    assert rest[..BLOCK] == block && rest[BLOCK..] == data[at + BLOCK..];
    assert out'[..at + BLOCK] == out[..at] + p;
    UnchainStep(dec, prev, rest);
    Regroup(out[..at], p, Unchain(dec, block, rest[BLOCK..]));
  }

  lemma {:induction false} UnchainStep(d: Cipher, prev: seq<byte>, c: seq<byte>)
    requires |c| >= BLOCK == |prev| && |d(c[..BLOCK])| == BLOCK
    ensures Unchain(d, prev, c) == XorAll(d(c[..BLOCK]), prev) + Unchain(d, c[..BLOCK], c[BLOCK..])
  {
  }

  lemma {:induction false} Regroup(a: seq<byte>, b: seq<byte>, c: seq<byte>)
    ensures a + (b + c) == a + b + c
  {
  }

  // Lines 95-101: one block after the other, each mixed with the cipher block before it.
  method DecryptAll(dec: Cipher, iv: seq<byte>, data: seq<byte>, out: array<byte>)
    requires |iv| == BLOCK && KeepsBlocks(dec) && |data| % BLOCK == 0 && |data| <= out.Length
    modifies out
    ensures out[..|data|] == Unchain(dec, iv, data) && out[|data|..] == old(out[|data|..])
  {
    var written := 0;
    var prev := iv;
    assert data[0..] == data;
    while written != |data|
      invariant written % BLOCK == 0 && 0 <= written <= |data|
      invariant Decrypting(dec, iv, data, out[..], prev, written)
      invariant out[|data|..] == old(out[|data|..])
      decreases |data| - written
    {
      prev := DecryptOne(dec, iv, data, out, prev, written);
      written := written + BLOCK;
    }
    assert data[written..] == [];
  }

  method DecryptOne(dec: Cipher, ghost iv: seq<byte>, data: seq<byte>, out: array<byte>, prev: seq<byte>, at: nat) returns (block: seq<byte>)
    requires KeepsBlocks(dec) && at + BLOCK <= |data| <= out.Length && Decrypting(dec, iv, data, out[..], prev, at)
    modifies out
    ensures Decrypting(dec, iv, data, out[..], block, at + BLOCK)
    ensures out[|data|..] == old(out[|data|..])
  {
    ghost var before := out[..];
    block := data[at..at + BLOCK];
    assert KeepsBlock(dec, block);
    Copy(out, at, XorAll(dec(block), prev));
    DecryptStep(dec, iv, data, before, prev, out[..], at);
    SameTail(before, out[..], at + BLOCK, |data|);
  }

  // Lines 107-117: the padding size, 0 and failure if it is not well-formed.
  method CheckPadding(p: seq<byte>) returns (fail: bool, padsize: nat)
    requires |p| >= BLOCK
    ensures fail <==> PadLength(p) == 0
    ensures !fail ==> padsize == PadLength(p)
  {
    var last := p[|p| - 1];
    fail := last == 0 || last > BLOCK;
    padsize := if fail then 0 else last;
    var at := |p| - 1;
    ghost var bad := fail;
    for i := BLOCK downto 0
      invariant at == |p| - 1 - (BLOCK - i)
      invariant fail <==> bad || exists k :: at < k < |p| && |p| - padsize <= k && p[k] != padsize
    {
      // the loop counter of the source is i + 1
      if i + 1 > BLOCK - padsize && p[at] != padsize {
        fail := true;
      }
      at := at - 1;
    }
    if !bad {
      PaddingOf(p, padsize, fail);
    }
  }

  lemma {:induction false} PaddingOf(p: seq<byte>, k: nat, fail: bool)
    requires 1 <= k <= BLOCK <= |p| && p[|p| - 1] == k
    requires fail <==> exists j :: |p| - 1 - BLOCK < j < |p| && |p| - k <= j && p[j] != k
    ensures !fail <==> p[|p| - k..] == Padding(k)
  {
    var tail := p[|p| - k..];
    if tail == Padding(k) {
      forall j | |p| - k <= j < |p|
        ensures p[j] == k
      {
        assert p[j] == tail[j - (|p| - k)];
      }
    }
  }

  function DecryptedLength(d: Cipher, iv: seq<byte>, data: seq<byte>, pad: bool): nat {
    var p := Unchain(d, iv, data);
    if |data| == 0 || |data| % BLOCK != 0 || |p| != |data| then 0
    else if !pad then |data|
    else if PadLength(p) == 0 then 0 else |data| - PadLength(p)
  }

  // CBCDecrypt
  method CbcDecrypt(dec: Cipher, iv: seq<byte>, data: seq<byte>, pad: bool, out: array<byte>) returns (written: nat)
    requires |iv| == BLOCK && KeepsBlocks(dec) && |data| <= out.Length
    modifies out
    ensures written == DecryptedLength(dec, iv, data, pad) <= |Unchain(dec, iv, data)|
    ensures written > 0 ==> out[..written] == Unchain(dec, iv, data)[..written]
    ensures out[|data|..] == old(out[|data|..])
  {
    if |data| == 0 || |data| % BLOCK != 0 {
      return 0;
    }
    DecryptAll(dec, iv, data, out);
    written := |data|;
    assert |out[..|data|]| == |data|;
    if pad {
      var fail, padsize := CheckPadding(out[..|data|]);
      if fail {
        return 0;
      }
      written := written - padsize;
    }
    assert out[..written] == out[..|data|][..written];
  }

  // ---- the two directions ----

  function CbcEncrypted(e: Cipher, iv: seq<byte>, p: seq<byte>): seq<byte> { Chain(e, iv, Pad(p)) }

  // The plaintext, empty if there is none.
  function CbcDecrypted(d: Cipher, iv: seq<byte>, c: seq<byte>): (p: seq<byte>) {
    var t, n := Unchain(d, iv, c), DecryptedLength(d, iv, c, true);
    if n <= |t| then t[..n] else []
  }

  // Decrypting an encrypted text gives it back.
  lemma {:induction false} DecryptUndoesEncrypt(e: Cipher, d: Cipher, iv: seq<byte>, p: seq<byte>)
    requires Inverse(e, d) && |iv| == BLOCK
    ensures CbcDecrypted(d, iv, CbcEncrypted(e, iv, p)) == p
  {
    ChainLength(e, d, iv, Pad(p));
    UnchainChain(e, d, iv, Pad(p));
    PadLengthOfPad(p);
  }

  // Whenever something is decrypted, encrypting it again gives back the cipher text.
  lemma {:induction false} EncryptUndoesDecrypt(e: Cipher, d: Cipher, iv: seq<byte>, c: seq<byte>)
    requires Inverse(d, e) && |iv| == BLOCK && DecryptedLength(d, iv, c, true) > 0
    ensures CbcEncrypted(e, iv, CbcDecrypted(d, iv, c)) == c
  {
    ChainUnchain(e, d, iv, c);
    PadOfUnpadded(Unchain(d, iv, c));
  }

  // ---- the wrappers ----

  // Keys are cut or filled with zeros to 32 bytes.
  function FitKey(key: seq<byte>): (k: seq<byte>)
    ensures |k| == 32
    ensures forall i :: 0 <= i < 32 ==> k[i] == if i < |key| then key[i] else 0
  {
    if |key| >= 32 then key[..32] else key + seq(32 - |key|, i => 0)
  }

  // The fifteen round keys of AES-256.
  function Rounds256(key: seq<byte>): (rounds: seq<Block>)
    ensures |rounds| == 15
  {
    RoundKeys(FitKey(key), 14)
  }

  function Enc(rounds: seq<Block>): Cipher
    requires |rounds| >= 2
  {
    b => if |b| == 16 then EncryptBlock(rounds, b) else b
  }

  function Dec(rounds: seq<Block>): Cipher
    requires |rounds| >= 2
  {
    b => if |b| == 16 then DecryptBlock(rounds, b) else b
  }

  lemma {:induction false} EncDecInverse(rounds: seq<Block>)
    requires |rounds| >= 2
    ensures Inverse(Enc(rounds), Dec(rounds)) && Inverse(Dec(rounds), Enc(rounds))
    ensures KeepsBlocks(Enc(rounds)) && KeepsBlocks(Dec(rounds))
  {
    forall b: seq<byte>
      ensures InverseAt(Enc(rounds), Dec(rounds), b) && InverseAt(Dec(rounds), Enc(rounds), b)
    {
      if |b| == BLOCK {
        BlockRoundTrips(rounds, b);
      }
    }
  }

  // AesEncode
  method AesEncode(key: seq<byte>, iv: seq<byte>, input: seq<byte>) returns (ok: bool, output: seq<byte>)
    requires |input| < 0x7FFF_FFF0
    // It reports failure for the empty text, which is never encrypted.
    ensures ok <==> |iv| == BLOCK && |input| > 0
    ensures ok ==> output == CbcEncrypted(Enc(Rounds256(key)), iv, input)
  {
    output := [];
    if |iv| != BLOCK {
      return false, output;
    }
    var rounds := KeySetup(FitKey(key), 14);
    EncDecInverse(rounds);
    ok, output := EncodeWith(Enc(rounds), iv, input);
  }

  // The buffer is sized for the padded text, and filling it exactly is success.
  method EncodeWith(enc: Cipher, iv: seq<byte>, input: seq<byte>) returns (ok: bool, output: seq<byte>)
    requires |iv| == BLOCK && KeepsBlocks(enc)
    ensures ok <==> |input| > 0
    ensures ok ==> output == CbcEncrypted(enc, iv, input)
  {
    var size := |input| + BLOCK - (|input| + BLOCK) % BLOCK;
    PaddedSize(input);
    var out := new byte[size](_ => 0);
    var len := CbcEncrypt(enc, iv, input, true, out);
    output := out[..];
    ok := len == size;
    assert ok ==> out[..len] == output;
  }

  lemma {:induction false} PaddedSize(p: seq<byte>)
    ensures |p| + BLOCK - (|p| + BLOCK) % BLOCK == |Pad(p)|
  {
  }

  // AesDecode
  method AesDecode(key: seq<byte>, iv: seq<byte>, input: seq<byte>) returns (ok: bool, output: seq<byte>)
    requires |input| < 0x8000_0000
    // It reports success for every cipher text, well-formed or not.
    ensures ok <==> |iv| == BLOCK
    ensures ok ==> output == CbcDecrypted(Dec(Rounds256(key)), iv, input)
  {
    output := [];
    if |iv| != BLOCK {
      return false, output;
    }
    var rounds := KeySetup(FitKey(key), 14);
    var size := |input| + BLOCK - (|input| + BLOCK) % BLOCK;
    var out := new byte[size](_ => 0);
    EncDecInverse(rounds);
    var len := CbcDecrypt(Dec(rounds), iv, input, true, out);
    ok := true;
    output := out[..len];
  }

  // What AesEncode makes of a nonempty text, AesDecode turns back into it.
  lemma {:induction false} WrappersRoundTrip(key: seq<byte>, iv: seq<byte>, input: seq<byte>)
    requires |iv| == BLOCK
    ensures var rounds := Rounds256(key);
      && CbcDecrypted(Dec(rounds), iv, CbcEncrypted(Enc(rounds), iv, input)) == input
      && (CbcDecrypted(Dec(rounds), iv, input) != [] ==> CbcEncrypted(Enc(rounds), iv, CbcDecrypted(Dec(rounds), iv, input)) == input)
  {
    CbcRoundTrips(Rounds256(key), iv, input);
  }

  lemma {:induction false} CbcRoundTrips(rounds: seq<Block>, iv: seq<byte>, input: seq<byte>)
    requires |rounds| >= 2 && |iv| == BLOCK
    ensures CbcDecrypted(Dec(rounds), iv, CbcEncrypted(Enc(rounds), iv, input)) == input
    ensures CbcDecrypted(Dec(rounds), iv, input) != [] ==>
      CbcEncrypted(Enc(rounds), iv, CbcDecrypted(Dec(rounds), iv, input)) == input
  {
    EncDecInverse(rounds);
    InverseCiphers(Enc(rounds), Dec(rounds), iv, input);
  }

  lemma {:induction false} InverseCiphers(e: Cipher, d: Cipher, iv: seq<byte>, input: seq<byte>)
    requires Inverse(e, d) && Inverse(d, e) && |iv| == BLOCK
    ensures CbcDecrypted(d, iv, CbcEncrypted(e, iv, input)) == input
    ensures CbcDecrypted(d, iv, input) != [] ==> CbcEncrypted(e, iv, CbcDecrypted(d, iv, input)) == input
  {
    DecryptUndoesEncrypt(e, d, iv, input);
    if CbcDecrypted(d, iv, input) != [] {
      EncryptUndoesDecrypt(e, d, iv, input);
    }
  }
}
