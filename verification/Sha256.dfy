// SHA-256: the streaming write, the padding and the 32 bytes of the digest.
module Sha256 {
  import opened Bytes
  import opened Sha256Rounds
  import opened Sha256Standard

  const BLOCK: nat := 64

  // ---- FIPS 180-4, sections 5.1.1 and 6.2 ----

  // The bytes of padding between the message and its length.
  function Filler(n: nat): (z: seq<byte>)
    ensures |z| > 0 && (n + |z| + 8) % BLOCK == 0
    // A one bit, and zeros from there on.
    ensures forall i :: 0 <= i < |z| ==> z[i] == if i == 0 then 0x80 else 0
  {
    [0x80] + seq((119 - n % BLOCK) % BLOCK, i => 0)
  }

  // The message, a one bit, the fewest zeros that fill a block, and the length in bits.
  function Padded(msg: seq<byte>): (p: seq<byte>)
    ensures |p| % BLOCK == 0
  {
    msg + Filler(|msg|) + Fixed(8 * |msg|, 8)
  }

  lemma {:induction false} FillerIsShortest(n: nat, k: nat)
    requires 1 <= k && (n + k + 8) % BLOCK == 0
    ensures |Filler(n)| <= k
  {
  }

  function Fold<H>(f: (H, seq<byte>) -> H, h: H, blocks: seq<byte>): H
    decreases |blocks|
  {
    if |blocks| < BLOCK then h else Fold(f, f(h, blocks[..BLOCK]), blocks[BLOCK..])
  }

  // Four bytes as a word, most significant first, and back (section 3.1).
  function WordOf(b: seq<byte>): bv32
    requires |b| == 4
  {
    (Octet(b[0]) << 24) | (Octet(b[1]) << 16) | (Octet(b[2]) << 8) | Octet(b[3])
  }

  function BytesOf(w: bv32): (b: seq<byte>)
    ensures |b| == 4
  {
    [Byte(w >> 24), Byte(w >> 16), Byte(w >> 8), Byte(w)]
  }

  // The unsigned char b as a word, and the lowest eight bits of a word.
  function Octet(b: byte): bv32 { (b as bv8) as bv32 }

  function Byte(w: bv32): byte { (w & 0xFF) as int }

  // The first byte is the most significant one.
  lemma {:induction false} BigEndian(b: seq<byte>)
    requires |b| == 4
    ensures (WordOf(b) >> 24) & 0xFF == Octet(b[0]) && (WordOf(b) >> 16) & 0xFF == Octet(b[1])
    ensures (WordOf(b) >> 8) & 0xFF == Octet(b[2]) && WordOf(b) & 0xFF == Octet(b[3])
  {
    Parts(b[0] as bv8, b[1] as bv8, b[2] as bv8, b[3] as bv8);
  }

  // And no bit is lost either way.
  lemma {:induction false} WordOfBytes(w: bv32)
    ensures WordOf(BytesOf(w)) == w
  {
    SameOctet(w >> 24);
    SameOctet(w >> 16);
    SameOctet(w >> 8);
    SameOctet(w);
    Joined(w);
  }

  lemma {:induction false} Joined(w: bv32)
    ensures (((w >> 24) & 0xFF) << 24) | (((w >> 16) & 0xFF) << 16) | (((w >> 8) & 0xFF) << 8) | (w & 0xFF) == w
  {
  }

  lemma {:induction false} SameOctet(w: bv32)
    ensures Octet(Byte(w)) == w & 0xFF
  {
    var x := (w & 0xFF) as bv8;
    Widened(x);
    BackAndForth(x);
  }

  lemma {:induction false} Parts(a: bv8, b: bv8, c: bv8, d: bv8)
    ensures var w := ((a as bv32) << 24) | ((b as bv32) << 16) | ((c as bv32) << 8) | (d as bv32);
      (w >> 24) & 0xFF == a as bv32 && (w >> 16) & 0xFF == b as bv32 && (w >> 8) & 0xFF == c as bv32 && w & 0xFF == d as bv32
  {
  }

  lemma {:induction false} Widened(x: bv8)
    ensures (x as bv32) as int == x as int
  {
  }

  lemma {:induction false} BackAndForth(x: bv8)
    ensures (x as int) as bv8 == x
  {
  }

  // The sixteen words of a block.
  function BlockWords(block: seq<byte>): (m: seq<bv32>)
    requires |block| == BLOCK
    ensures |m| == 16
  {
    seq(16, i requires 0 <= i < 16 => WordOf(block[4 * i..4 * i + 4]))
  }

  // One block is processed.
  function Process(s: seq<bv32>, block: seq<byte>): (r: seq<bv32>)
    ensures |r| == |s|
  {
    if |s| == 8 && |block| == BLOCK then Compress(STANDARD, s, BlockWords(block)) else s
  }

  ghost predicate ProcessesAt(f: (seq<bv32>, seq<byte>) -> seq<bv32>, s: seq<bv32>, block: seq<byte>) {
    f(s, block) == Process(s, block)
  }

  // f is Process by another name, under which its definition stays out of sight.
  ghost predicate Processes(f: (seq<bv32>, seq<byte>) -> seq<bv32>) { forall s, block :: ProcessesAt(f, s, block) }

  lemma {:induction false} SameLength(f: (seq<bv32>, seq<byte>) -> seq<bv32>, s: seq<bv32>, block: seq<byte>)
    requires Processes(f)
    ensures |f(s, block)| == |s|
  {
    assert ProcessesAt(f, s, block);
  }

  lemma {:induction false} SameFold(f: (seq<bv32>, seq<byte>) -> seq<bv32>, s: seq<bv32>, blocks: seq<byte>)
    requires Processes(f)
    ensures Fold(f, s, blocks) == Fold(Process, s, blocks)
    decreases |blocks|
  {
    if |blocks| >= BLOCK {
      assert ProcessesAt(f, s, blocks[..BLOCK]);
      SameFold(f, f(s, blocks[..BLOCK]), blocks[BLOCK..]);
    }
  }

  function AllBytes(s: seq<bv32>): (b: seq<byte>)
    ensures |b| == 4 * |s|
  {
    if s == [] then [] else AllBytes(s[..|s| - 1]) + BytesOf(s[|s| - 1])
  }

  lemma {:induction false} AllBytesAt(s: seq<bv32>, i: nat)
    requires i < |s|
    ensures AllBytes(s)[4 * i..4 * i + 4] == BytesOf(s[i])
  {
    var n := |s| - 1;
    if i < n {
      AllBytesAt(s[..n], i);
      assert AllBytes(s)[..4 * n] == AllBytes(s[..n]);
    }
  }

  // The message digest (section 6.2).
  function Digest(msg: seq<byte>): (d: seq<byte>)
    ensures |d| == 32
  {
    EightWords(INITIAL, Padded(msg));
    AllBytes(Fold(Process, INITIAL, Padded(msg)))
  }

  lemma {:induction false} EightWords(s: seq<bv32>, blocks: seq<byte>)
    requires |s| == 8
    ensures |Fold(Process, s, blocks)| == 8
    decreases |blocks|
  {
    if |blocks| >= BLOCK {
      EightWords(Process(s, blocks[..BLOCK]), blocks[BLOCK..]);
    }
  }

  // Whole blocks in front are processed first.
  lemma {:induction false} FoldConcat<H>(f: (H, seq<byte>) -> H, h: H, a: seq<byte>, b: seq<byte>)
    requires |a| % BLOCK == 0
    ensures Fold(f, h, a + b) == Fold(f, Fold(f, h, a), b)
    decreases |a|
  {
    if |a| == 0 {
      assert a + b == b;
    } else {
      assert (a + b)[..BLOCK] == a[..BLOCK] && (a + b)[BLOCK..] == a[BLOCK..] + b;
      FoldConcat(f, f(h, a[..BLOCK]), a[BLOCK..], b);
    }
  }

  // ---- the streaming state ----

  class State {
    var s: seq<bv32>
    var buf: array<byte>
    var bytes: nat
    // everything written so far
    ghost var msg: seq<byte>
    ghost const f: (seq<bv32>, seq<byte>) -> seq<bv32>

    // Whole blocks are processed, the rest waits at the front of the buffer.
    ghost predicate Valid()
      reads this, buf
    {
      && buf.Length == BLOCK && bytes == |msg| && Processes(f)
      && Absorbed(f, msg, s, buf[..bytes % BLOCK])
    }

    // secp256k1_sha256_initialize
    constructor ()
      ensures Valid() && fresh(buf) && msg == [] && s == INITIAL
    {
      s, bytes := INITIAL, 0;
      buf := new byte[BLOCK](_ => 0);
      msg := [];
      f := Process;
    }

    // The first n bytes of the buffer wait behind what `written` fed in.
    ghost predicate Holds(written: seq<byte>, n: nat)
      reads this, buf
    {
      buf.Length == BLOCK && n < BLOCK && Processes(f) && Absorbed(f, written, s, buf[..n])
    }

    // secp256k1_sha256_write
    method Write(data: seq<byte>)
      requires Valid()
      modifies this`s, this`bytes, this`msg, buf
      ensures Valid() && msg == old(msg) + data
    {
      var bufsize := bytes % BLOCK;
      bytes := bytes + |data|;
      ghost var before := msg;
      msg := msg + data;
      assert before + data[..0] == before;
      ghost var written := before;
      var pos := 0;
      while bufsize + (|data| - pos) >= BLOCK
        invariant 0 <= pos <= |data| && 0 <= bufsize < BLOCK
        invariant msg == before + data && bytes == |msg|
        invariant Holds(written, bufsize) && written == before + data[..pos]
      {
        var chunk := BLOCK - bufsize;
        FedSoFar(before, data, pos, pos + chunk);
        TakeChunk(data[pos..pos + chunk], bufsize, written);
        written := written + data[pos..pos + chunk];
        pos := pos + chunk;
        bufsize := 0;
      }
      FedSoFar(before, data, pos, |data|);
      assert data[pos..|data|] == data[pos..] && data[..|data|] == data;
      KeepTail(data[pos..], bufsize, written);
    }

    // Lines 136-141: the buffer is filled up and processed.
    method TakeChunk(chunk: seq<byte>, bufsize: nat, ghost written: seq<byte>)
      requires Holds(written, bufsize) && |chunk| == BLOCK - bufsize
      modifies this`s, buf
      ensures Holds(written + chunk, 0)
    {
      ghost var held := buf[..bufsize];
      Fill(buf, bufsize, chunk);
      assert buf[..] == buf[..BLOCK] == held + chunk;
      AbsorbBlock(f, written, s, held, chunk, buf[..0]);
      s := TransformBuffer(s, buf[..], f);
    }

    // Lines 143-146: what remains waits in the buffer.
    method KeepTail(rest: seq<byte>, bufsize: nat, ghost written: seq<byte>)
      requires Holds(written, bufsize) && bufsize + |rest| < BLOCK
      modifies buf
      ensures Holds(written + rest, bufsize + |rest|)
    {
      ghost var held := buf[..bufsize];
      AbsorbRest(f, written, s, held, rest);
      assert held + [] == held;
      if |rest| > 0 {
        Fill(buf, bufsize, rest);
      }
    }

    // secp256k1_sha256_finalize: the message is padded, its length having been
    // noted before; the words of the state go out as bytes and are cleared.
    method Finalize() returns (out32: seq<byte>)
      requires Valid() && |msg| < 0x2000_0000_0000_0000
      modifies this`s, this`bytes, this`msg, buf
      ensures out32 == Digest(old(msg))
      ensures |s| == 8 && forall k :: 0 <= k < 8 ==> s[k] == 0
    {
      ghost var m := msg;
      var high, low := bytes / 0x2000_0000 % 0x1_0000_0000, bytes * 8 % 0x1_0000_0000;
      var sizedesc := Fixed(high, 4) + Fixed(low, 4);
      SizeWords(bytes);
      var pad := [0x80] + seq(63, i => 0);
      assert Filler(bytes) == pad[..1 + (119 - bytes % BLOCK) % BLOCK];
      Write(pad[..1 + (119 - bytes % BLOCK) % BLOCK]);
      Write(sizedesc);
      assert msg == Padded(m);
      AllAbsorbed(f, msg, s, buf[..bytes % BLOCK]);
      out32 := TakeOut();
    }

    // Lines 157-162: the words leave in the standard's byte order.
    method TakeOut() returns (out32: seq<byte>)
      requires |s| == 8
      modifies this`s
      ensures out32 == AllBytes(old(s)) && |s| == 8 && forall k :: 0 <= k < 8 ==> s[k] == 0
    {
      ghost var words := s;
      out32 := [];
      for i := 0 to 8
        invariant |s| == 8 && forall k :: 0 <= k < 8 ==> s[k] == if k < i then 0 else words[k]
        invariant out32 == AllBytes(words[..i])
      {
        assert words[..i + 1][..i] == words[..i];
        SwappedBytes(words[i]);
        out32 := out32 + Stored(BE32(s[i]));
        s := s[i := 0];
      }
      assert words[..8] == words;
    }
  }

  // ---- words in a little-endian memory ----

  // BE32
  function BE32(p: bv32): bv32 {
    ((p & 0xFF) << 24) | ((p & 0xFF00) << 8) | ((p & 0xFF0000) >> 8) | ((p & 0xFF000000) >> 24)
  }

  // What reading and writing a uint32_t does to its four bytes.
  function Loaded(b: seq<byte>): bv32
    requires |b| == 4
  {
    Octet(b[0]) | (Octet(b[1]) << 8) | (Octet(b[2]) << 16) | (Octet(b[3]) << 24)
  }

  function Stored(w: bv32): (b: seq<byte>)
    ensures |b| == 4
  {
    [Byte(w), Byte(w >> 8), Byte(w >> 16), Byte(w >> 24)]
  }

  // Swapping turns the memory's order into the standard's.
  lemma {:induction false} SwappedWord(b: seq<byte>)
    requires |b| == 4
    ensures BE32(Loaded(b)) == WordOf(b)
  {
    SwapOctets(b[0] as bv8, b[1] as bv8, b[2] as bv8, b[3] as bv8);
  }

  lemma {:induction false} SwapOctets(a: bv8, b: bv8, c: bv8, d: bv8)
    ensures BE32((a as bv32) | ((b as bv32) << 8) | ((c as bv32) << 16) | ((d as bv32) << 24))
         == ((a as bv32) << 24) | ((b as bv32) << 16) | ((c as bv32) << 8) | (d as bv32)
  {
  }

  lemma {:induction false} SwappedBytes(w: bv32)
    ensures Stored(BE32(w)) == BytesOf(w)
  {
    SwapWord(w);
  }

  lemma {:induction false} SwapWord(w: bv32)
    ensures BE32(w) & 0xFF == (w >> 24) & 0xFF && (BE32(w) >> 8) & 0xFF == (w >> 16) & 0xFF
    ensures (BE32(w) >> 16) & 0xFF == (w >> 8) & 0xFF && (BE32(w) >> 24) & 0xFF == w & 0xFF
  {
  }

  // secp256k1_sha256_transform on the buffer, each word swapped as it is read.
  method TransformBuffer(s: seq<bv32>, buf: seq<byte>, ghost f: (seq<bv32>, seq<byte>) -> seq<bv32>) returns (r: seq<bv32>)
    requires Processes(f) && |s| == 8 && |buf| == BLOCK
    ensures r == f(s, buf) && |r| == 8
  {
    var chunk := seq(16, i requires 0 <= i < 16 => BE32(Loaded(buf[4 * i..4 * i + 4])));
    SwappedChunk(buf, chunk);
    Sha256Commutes();
    r := Transform(SHA256, s, chunk);
    MacrosAreStd();
    SameCompress(SHA256, STANDARD, s, chunk);
    assert ProcessesAt(f, s, buf);
  }

  lemma {:induction false} SwappedChunk(buf: seq<byte>, chunk: seq<bv32>)
    requires |buf| == BLOCK && |chunk| == 16
    requires forall i :: 0 <= i < 16 ==> chunk[i] == BE32(Loaded(buf[4 * i..4 * i + 4]))
    ensures chunk == BlockWords(buf)
  {
    forall i: nat | i < 16
      ensures chunk[i] == BlockWords(buf)[i]
    {
      SwappedWord(buf[4 * i..4 * i + 4]);
    }
  }

  // The state after msg, of which the bytes held are not processed yet.
  ghost predicate Absorbed(f: (seq<bv32>, seq<byte>) -> seq<bv32>, msg: seq<byte>, s: seq<bv32>, held: seq<byte>) {
    |s| == 8 && Waiting(f, INITIAL, msg, s, held)
  }

  lemma {:induction false} AbsorbBlock(f: (seq<bv32>, seq<byte>) -> seq<bv32>, msg: seq<byte>, s: seq<bv32>, held: seq<byte>,
                                               chunk: seq<byte>, none: seq<byte>)
    requires Processes(f) && Absorbed(f, msg, s, held) && |held| + |chunk| == BLOCK && |none| == 0
    ensures Absorbed(f, msg + chunk, f(s, held + chunk), none)
  {
    SameLength(f, s, held + chunk);
    TakeBlock(f, INITIAL, msg, s, held, chunk);
    assert none == [];
  }

  lemma {:induction false} AbsorbRest(f: (seq<bv32>, seq<byte>) -> seq<bv32>, msg: seq<byte>, s: seq<bv32>, held: seq<byte>,
                                              rest: seq<byte>)
    requires Absorbed(f, msg, s, held) && |held| + |rest| < BLOCK
    ensures Absorbed(f, msg + rest, s, held + rest)
  {
    KeepRest(f, INITIAL, msg, s, held, rest);
  }

  lemma {:induction false} AllAbsorbed(f: (seq<bv32>, seq<byte>) -> seq<bv32>, msg: seq<byte>, s: seq<bv32>, held: seq<byte>)
    requires Processes(f) && Absorbed(f, msg, s, held) && |msg| % BLOCK == 0
    ensures s == Fold(Process, INITIAL, msg)
  {
    SameFold(f, INITIAL, msg);
    AllProcessed(f, INITIAL, msg, s, held);
  }

  // The chain value covers all of msg but the held bytes.
  ghost predicate Waiting<H>(f: (H, seq<byte>) -> H, start: H, msg: seq<byte>, s: H, held: seq<byte>) {
    && |held| == |msg| % BLOCK
    && msg[|msg| - |held|..] == held
    && s == Fold(f, start, msg[..|msg| - |held|])
  }

  lemma {:induction false} FedSoFar(before: seq<byte>, data: seq<byte>, i: nat, j: nat)
    requires i <= j <= |data|
    ensures before + data[..i] + data[i..j] == before + data[..j]
  {
    assert data[..j] == data[..i] + data[i..j];
  }

  lemma {:induction false} TakeBlock<H>(f: (H, seq<byte>) -> H, start: H, msg: seq<byte>, s: H, held: seq<byte>, chunk: seq<byte>)
    requires Waiting(f, start, msg, s, held) && |held| + |chunk| == BLOCK
    ensures Waiting(f, start, msg + chunk, f(s, held + chunk), [])
  {
    var whole, block := msg[..|msg| - |held|], held + chunk;
    assert msg + chunk == whole + block;
    assert (whole + block)[..|msg + chunk|] == msg + chunk;
    FoldConcat(f, start, whole, block);
    assert block[..BLOCK] == block;
  }

  lemma {:induction false} KeepRest<H>(f: (H, seq<byte>) -> H, start: H, msg: seq<byte>, s: H, held: seq<byte>, rest: seq<byte>)
    requires Waiting(f, start, msg, s, held) && |held| + |rest| < BLOCK
    ensures Waiting(f, start, msg + rest, s, held + rest)
  {
    var n := |msg| - |held|;
    assert (msg + rest)[..n] == msg[..n] && (msg + rest)[n..] == held + rest;
  }

  lemma {:induction false} AllProcessed<H>(f: (H, seq<byte>) -> H, start: H, msg: seq<byte>, s: H, held: seq<byte>)
    requires Waiting(f, start, msg, s, held) && |msg| % BLOCK == 0
    ensures s == Fold(f, start, msg)
  {
    assert msg[..|msg|] == msg;
  }

  method Fill(buf: array<byte>, at: nat, data: seq<byte>)
    requires at + |data| <= buf.Length
    modifies buf
    ensures buf[..at] == old(buf[..at]) && buf[..at + |data|] == old(buf[..at]) + data
  {
    forall i | 0 <= i < |data| {
      buf[at + i] := data[i];
    }
  }

  // The two length words are the big-endian length in bits.
  lemma {:induction false} SizeWords(n: nat)
    requires n < 0x2000_0000_0000_0000
    ensures Fixed(n / 0x2000_0000 % 0x1_0000_0000, 4) + Fixed(n * 8 % 0x1_0000_0000, 4) == Fixed(8 * n, 8)
  {
    var high, low := n / 0x2000_0000, n * 8 % 0x1_0000_0000;
    SplitLength(n);
    assert Pow256(4) == 0x1_0000_0000;
    FixedJoin(high, low, 4);
  }

  lemma {:induction false} SplitLength(n: nat)
    requires n < 0x2000_0000_0000_0000
    ensures n / 0x2000_0000 % 0x1_0000_0000 == n / 0x2000_0000
    ensures 8 * n == n / 0x2000_0000 * 0x1_0000_0000 + n * 8 % 0x1_0000_0000
  {
  }

  lemma {:induction false} FixedJoin(high: nat, low: nat, k: nat)
    requires low < Pow256(k)
    ensures Fixed(high, 4) + Fixed(low, k) == Fixed(high * Pow256(k) + low, 4 + k)
  {
    if k == 0 {
      assert Fixed(high, 4) + [] == Fixed(high, 4);
    } else {
      FixedJoin(high, low / 256, k - 1);
      LowByte(high, Pow256(k - 1), low);
      assert Fixed(high, 4) + Fixed(low, k) == (Fixed(high, 4) + Fixed(low / 256, k - 1)) + [low % 256];
    }
  }

  lemma {:induction false} LowByte(high: nat, p: nat, low: nat)
    ensures 0 <= high * p && (high * (256 * p) + low) / 256 == high * p + low / 256
    ensures (high * (256 * p) + low) % 256 == low % 256
  {
    var x := high * p;
    assert high * (256 * p) == 256 * x;
    WholeBytes(x, low);
  }

  lemma {:induction false} WholeBytes(x: int, low: nat)
    ensures (256 * x + low) / 256 == x + low / 256 && (256 * x + low) % 256 == low % 256
  {
  }
}
