// The strict DER reader and writer for signatures.
module Der {
  import opened Bytes
  import opened Groups

  const SIZE_MAX: int := 0xFFFF_FFFF_FFFF_FFFF

  // ---- the grammar ----

  // X.690 section 8.1.3: short form below 128, otherwise the fewest length octets.
  function LengthOctets(n: nat): (b: seq<byte>)
    requires n < 0x8000_0000
    ensures |b| > 0
  {
    if n < 128 then [n] else ShortBytes(n); [0x80 + |Minimal(n)|] + Minimal(n)
  }

  lemma {:induction false} ShortBytes(n: nat)
    requires n < 0x8000_0000
    ensures |Minimal(n)| <= 4
  {
    BigMinimal(n);
    assert Pow256(4) == 0x1_0000_0000;
    if |Minimal(n)| > 4 {
      BigAtLeast(Minimal(n));
      Pow256Monotone(4, |Minimal(n)| - 1);
    }
  }

  // Section 8.3.2: at least one octet, and no superfluous leading one.
  predicate IsContent(c: seq<byte>) {
    && 1 <= |c| < 0x8000_0000
    && !(c[0] == 0 && |c| > 1 && c[1] < 0x80)
    && !(c[0] == 0xFF && |c| > 1 && c[1] >= 0x80)
  }

  function Integer(c: seq<byte>): (b: seq<byte>)
    requires |c| < 0x8000_0000
    ensures |b| > |c|
  {
    [0x02] + LengthOctets(|c|) + c
  }

  // What the reader makes of an integer: negative and too large ones count as zero.
  function ScalarOf(c: seq<byte>): (v: int)
    requires |c| > 0
    ensures 0 <= v < N
  {
    if c[0] >= 0x80 || Big(c) >= N then 0 else Big(c)
  }

  // The minimal nonnegative integer.
  function Content(v: nat): (c: seq<byte>)
    ensures |c| > 0
  {
    var b := Minimal(v);
    if |b| == 0 || b[0] >= 0x80 then [0] + b else b
  }

  // A signature in DER made of two integers.
  ghost predicate IsSignature(sig: seq<byte>, c1: seq<byte>, c2: seq<byte>) {
    && IsContent(c1) && IsContent(c2)
    && var body := Integer(c1) + Integer(c2); |body| < 0x8000_0000 && sig == [0x30] + LengthOctets(|body|) + body
  }

  // part stands in sig at position pos.
  ghost predicate At(sig: seq<byte>, pos: nat, part: seq<byte>) {
    pos + |part| <= |sig| && sig[pos..pos + |part|] == part
  }

  // ---- reading lengths ----

  // A length that the reader takes: in long form it must not reach past the end.
  ghost predicate LengthAt(sig: seq<byte>, pos: nat, n: int) {
    && 0 <= n < 0x8000_0000 && At(sig, pos, LengthOctets(n))
    && (n >= 128 ==> pos + |LengthOctets(n)| + n <= |sig|)
  }

  ghost predicate HasNoLength(sig: seq<byte>, pos: nat) { forall n :: !LengthAt(sig, pos, n) }

  // secp256k1_der_read_len
  method ReadLen(sig: seq<byte>, pos: nat) returns (len: int, next: nat)
    requires pos <= |sig| < 0x8000_0000
    ensures len >= 0 ==> LengthAt(sig, pos, len) && next == pos + |LengthOctets(len)| <= |sig|
    ensures len < 0 ==> len == -1 && HasNoLength(sig, pos)
  {
    next := pos;
    if next >= |sig| {
      return -1, next;
    }
    var b1 := sig[next];
    next := next + 1;
    if b1 == 0xFF {
      NoLength(sig, pos);
      return -1, next;
    }
    if b1 < 0x80 {
      return b1, next;
    }
    if b1 == 0x80 {
      NoLength(sig, pos);
      return -1, next;
    }
    var lenleft := b1 - 0x80;
    if lenleft > |sig| - next || sig[next] == 0 || lenleft > 8 {
      NoLength(sig, pos);
      return -1, next;
    }
    len, next := ReadLong(sig, pos, lenleft);
  }

  // Lines 83-96: the octets of a long length, none of which may make it reach past the end.
  method ReadLong(sig: seq<byte>, pos: nat, octets: nat) returns (len: int, next: nat)
    requires pos + 1 + octets <= |sig| < 0x8000_0000
    requires 0 < octets <= 8 && sig[pos] == 0x80 + octets && sig[pos + 1] != 0
    ensures len >= 0 ==> LengthAt(sig, pos, len) && next == pos + |LengthOctets(len)| <= |sig|
    ensures len < 0 ==> len == -1 && HasNoLength(sig, pos)
  {
    var ret;
    ret, next := ReadOctets(sig, pos, octets);
    if ret < 0 {
      return -1, next;
    }
    LongLength(sig, pos, octets);
    if ret < 128 {
      return -1, next;
    }
    len := ret;
  }

  method ReadOctets(sig: seq<byte>, pos: nat, octets: nat) returns (ret: int, next: nat)
    requires pos + 1 + octets <= |sig| < 0x8000_0000
    requires 0 < octets <= 8 && sig[pos] == 0x80 + octets
    ensures ret < 0 ==> HasNoLength(sig, pos)
    ensures ret >= 0 ==> ret == Big(sig[pos + 1..pos + 1 + octets]) && next == pos + 1 + octets && next + ret <= |sig|
  {
    ghost var all := sig[pos + 1..pos + 1 + octets];
    next := pos + 1;
    var lenleft := octets;
    ret := 0;
    assert Big(all[..0]) == 0;
    while lenleft > 0
      invariant 0 <= lenleft <= octets && next == pos + 1 + (octets - lenleft)
      invariant 0 <= ret == Big(all[..octets - lenleft])
      invariant lenleft < octets ==> ret + lenleft <= |sig| - next
      invariant lenleft == octets ==> ret == 0
    {
      ghost var k := octets - lenleft;
      NextOctet(sig, pos + 1, octets, k);
      ret := ShiftIn(ret, sig[next]);
      if ret + lenleft > |sig| - next {
        LongTooLong(sig, pos, octets, k + 1);
        return -1, next;
      }
      next := next + 1;
      lenleft := lenleft - 1;
    }
    assert all[..octets] == all;
  }

  // (ret << 8) | b, which does not overflow.
  function ShiftIn(ret: nat, b: byte): (r: nat)
    ensures ret < 0x8000_0000 ==> r == 256 * ret + b
  {
    (ret * 256) % (SIZE_MAX + 1) + b
  }

  lemma {:induction false} NextOctet(sig: seq<byte>, start: nat, octets: nat, k: nat)
    requires start + octets <= |sig| && k < octets
    ensures var all := sig[start..start + octets]; Big(all[..k + 1]) == 256 * Big(all[..k]) + sig[start + k]
  {
    var all := sig[start..start + octets];
    assert all[..k + 1][..k] == all[..k] && all[..k + 1][k] == sig[start + k];
  }

  // The octets name exactly the number they write, provided it is at least 128.
  lemma {:induction false} LongLength(sig: seq<byte>, pos: nat, octets: nat)
    requires pos + 1 + octets <= |sig| < 0x8000_0000
    requires 0 < octets <= 8 && sig[pos] == 0x80 + octets && sig[pos + 1] != 0
    requires var v := Big(sig[pos + 1..pos + 1 + octets]); v <= |sig| && pos + 1 + octets + v <= |sig|
    ensures var v := Big(sig[pos + 1..pos + 1 + octets]);
      && (v >= 128 ==> LengthAt(sig, pos, v) && |LengthOctets(v)| == 1 + octets)
      && (forall n :: LengthAt(sig, pos, n) ==> n == v && v >= 128)
  {
    var v := Big(sig[pos + 1..pos + 1 + octets]);
    if v >= 128 {
      LongIsLength(sig, pos, sig[pos + 1..pos + 1 + octets]);
    }
    forall n | LengthAt(sig, pos, n)
      ensures n == v && v >= 128
    {
      LongForm(sig, pos, n, sig[pos + 1..pos + 1 + octets]);
    }
  }

  lemma {:induction false} LongIsLength(sig: seq<byte>, pos: nat, all: seq<byte>)
    requires |sig| < 0x8000_0000 && At(sig, pos + 1, all) && 0 < |all| <= 8 && sig[pos] == 0x80 + |all| && all[0] != 0
    requires 128 <= Big(all) && pos + 1 + |all| + Big(all) <= |sig|
    ensures LengthAt(sig, pos, Big(all)) && LengthOctets(Big(all)) == [sig[pos]] + all
  {
    MinimalBig(all);
    assert sig[pos..pos + 1 + |all|] == [sig[pos]] + all;
  }

  // Parts of what stands at a position.
  lemma {:induction false} SubPart(sig: seq<byte>, pos: nat, part: seq<byte>, i: nat)
    requires At(sig, pos, part) && i <= |part|
    ensures At(sig, pos + i, part[i..])
    ensures i < |part| ==> sig[pos + i] == part[i]
  {
    var here := sig[pos..pos + |part|];
    assert i < |part| ==> here[i] == sig[pos + i];
    assert here[i..] == sig[pos + i..pos + |part|];
  }

  // Reading a length back from its first octet.
  lemma {:induction false} LengthForm(sig: seq<byte>, pos: nat, n: int)
    requires LengthAt(sig, pos, n)
    ensures pos < |sig|
    ensures n < 128 ==> sig[pos] == n
    ensures n >= 128 ==> var b := Minimal(n);
      1 <= |b| <= 4 && b[0] != 0 && sig[pos] == 0x80 + |b| && At(sig, pos + 1, b) && sig[pos + 1] == b[0]
  {
    var b := LengthOctets(n);
    SubPart(sig, pos, b, 0);
    if n >= 128 {
      ShortBytes(n);
      SubPart(sig, pos, b, 1);
      assert b[1..] == Minimal(n);
      SubPart(sig, pos + 1, Minimal(n), 0);
    }
  }

  lemma {:induction false} SameAt(sig: seq<byte>, pos: nat, a: seq<byte>, b: seq<byte>)
    requires At(sig, pos, a) && At(sig, pos, b) && |a| == |b|
    ensures a == b
  {
  }

  // A long length is read off its octets.
  lemma {:induction false} LongForm(sig: seq<byte>, pos: nat, n: int, all: seq<byte>)
    requires LengthAt(sig, pos, n) && At(sig, pos + 1, all) && sig[pos] == 0x80 + |all|
    ensures n >= 128 && n == Big(all) && pos + 1 + |all| + n <= |sig|
  {
    LengthForm(sig, pos, n);
    BigMinimal(n);
    SameAt(sig, pos + 1, all, Minimal(n));
  }

  // A first octet no length starts with.
  lemma {:induction false} NoLength(sig: seq<byte>, pos: nat)
    requires pos < |sig| < 0x8000_0000 && sig[pos] >= 0x80
    requires var k := sig[pos] - 0x80; k == 0 || k > |sig| - pos - 1 || sig[pos + 1] == 0 || k > 8
    ensures HasNoLength(sig, pos)
  {
    forall n
      ensures !LengthAt(sig, pos, n)
    {
      if LengthAt(sig, pos, n) {
        LengthForm(sig, pos, n);
      }
    }
  }

  // A partial length that reaches past the end stays too long.
  lemma {:induction false} LongTooLong(sig: seq<byte>, pos: nat, octets: nat, k: nat)
    requires pos + 1 + octets <= |sig| < 0x8000_0000 && 0 < k <= octets && sig[pos] == 0x80 + octets
    requires Big(sig[pos + 1..pos + 1 + octets][..k]) + (octets - k + 1) > |sig| - (pos + k)
    ensures HasNoLength(sig, pos)
  {
    var all := sig[pos + 1..pos + 1 + octets];
    BigGrows(all, k);
    forall n
      ensures !LengthAt(sig, pos, n)
    {
      if LengthAt(sig, pos, n) {
        LongReach(sig, pos, n, all);
      }
    }
  }

  lemma {:induction false} LongReach(sig: seq<byte>, pos: nat, n: int, all: seq<byte>)
    requires LengthAt(sig, pos, n) && At(sig, pos + 1, all) && sig[pos] == 0x80 + |all|
    ensures pos + 1 + |all| + Big(all) <= |sig|
  {
    LongForm(sig, pos, n, all);
  }

  // ---- reading integers ----

  ghost predicate IntegerAt(sig: seq<byte>, pos: nat, c: seq<byte>) {
    IsContent(c) && At(sig, pos, Integer(c))
  }

  // A tag, a length and a content, in one piece or in three.
  lemma {:induction false} ThreeParts(sig: seq<byte>, pos: nat, tag: byte, l: seq<byte>, c: seq<byte>)
    ensures At(sig, pos, [tag] + l + c) <==>
            pos < |sig| && sig[pos] == tag && At(sig, pos + 1, l) && At(sig, pos + 1 + |l|, c)
  {
    TwoParts(sig, pos, [tag] + l, c);
    TwoParts(sig, pos, [tag], l);
    assert pos < |sig| ==> sig[pos..pos + 1] == [sig[pos]];
  }

  lemma {:induction false} TwoParts(sig: seq<byte>, pos: nat, a: seq<byte>, b: seq<byte>)
    ensures At(sig, pos, a + b) <==> At(sig, pos, a) && At(sig, pos + |a|, b)
  {
    var m, e := pos + |a|, pos + |a| + |b|;
    if e <= |sig| {
      assert sig[pos..e] == sig[pos..m] + sig[m..e];
      if sig[pos..e] == a + b {
        assert sig[pos..e][..|a|] == a && sig[pos..e][|a|..] == b;
      }
    }
  }

  ghost predicate OnlyIntegerAt(sig: seq<byte>, pos: nat, c: seq<byte>) {
    forall c' :: IntegerAt(sig, pos, c') ==> c' == c
  }

  // The pieces of an integer.
  lemma {:induction false} IntegerForm(sig: seq<byte>, pos: nat, c: seq<byte>)
    requires |sig| < 0x8000_0000 && IntegerAt(sig, pos, c)
    ensures pos < |sig| && sig[pos] == 0x02 && ContentAt(sig, pos + 1, c)
  {
    ThreeParts(sig, pos, 0x02, LengthOctets(|c|), c);
  }

  // A position has at most one length.
  lemma {:induction false} OneLength(sig: seq<byte>, pos: nat, m: int, n: int)
    requires LengthAt(sig, pos, m) && LengthAt(sig, pos, n)
    ensures m == n
  {
    LengthForm(sig, pos, m);
    LengthForm(sig, pos, n);
    if m >= 128 {
      LongForm(sig, pos, m, Minimal(m));
      LongForm(sig, pos, n, Minimal(m));
    }
  }

  // What reading an integer yields: its content if there is one, which is then
  // the only one, and the scalar it stands for.
  ghost predicate ReadsInteger(sig: seq<byte>, pos: nat, ok: bool, value: int, next: nat, c: seq<byte>) {
    && 0 <= value < N
    && (if ok then IntegerAt(sig, pos, c) && next == pos + |Integer(c)| <= |sig| && value == ScalarOf(c)
        else HasNoInteger(sig, pos))
    && OnlyIntegerAt(sig, pos, c)
  }

  // secp256k1_der_parse_integer
  method ParseInteger(sig: seq<byte>, pos: nat) returns (ok: bool, value: int, next: nat, ghost c: seq<byte>)
    requires pos <= |sig| < 0x8000_0000
    ensures ReadsInteger(sig, pos, ok, value, next, c)
  {
    ok, value, c := false, 0, [];
    var rlen;
    rlen, next := ReadHeader(sig, pos);
    if rlen <= 0 {
      NoneRead(sig, pos, next);
      return;
    }
    c := sig[next..next + rlen];
    ok := PaddingIsMinimal(sig, next, rlen);
    if !ok {
      BadContent(sig, pos, next, c);
      return;
    }
    value := ReadScalar(sig, next, rlen, sig[next] >= 0x80);
    GoodContent(sig, pos, next, c);
    next := next + rlen;
  }

  lemma {:induction false} NoneRead(sig: seq<byte>, pos: nat, next: nat)
    requires HasNoInteger(sig, pos)
    ensures ReadsInteger(sig, pos, false, 0, next, [])
  {
  }

  // The tag and the length have been read, and c is what follows them.
  ghost predicate HeaderRead(sig: seq<byte>, pos: nat, next: nat, c: seq<byte>) {
    && pos < |sig| < 0x8000_0000 && sig[pos] == 0x02 && 0 < |c| && LengthAt(sig, pos + 1, |c|)
    && next == pos + 1 + |LengthOctets(|c|)| && At(sig, next, c)
  }

  lemma {:induction false} BadContent(sig: seq<byte>, pos: nat, next: nat, c: seq<byte>)
    requires HeaderRead(sig, pos, next, c) && !IsContent(c)
    ensures ReadsInteger(sig, pos, false, 0, next, c)
  {
    OnlyContent(sig, pos, c);
  }

  lemma {:induction false} GoodContent(sig: seq<byte>, pos: nat, next: nat, c: seq<byte>)
    requires HeaderRead(sig, pos, next, c) && IsContent(c)
    ensures ReadsInteger(sig, pos, true, ScalarOf(c), next + |c|, c)
  {
    OnlyContent(sig, pos, c);
    AssembleInteger(sig, pos, c);
  }

  ghost predicate HasNoInteger(sig: seq<byte>, pos: nat) { forall c :: !IntegerAt(sig, pos, c) }

  // Lines 104-113: the tag and a length that stays within bounds.
  method ReadHeader(sig: seq<byte>, pos: nat) returns (rlen: int, next: nat)
    requires pos <= |sig| < 0x8000_0000
    ensures rlen <= 0 ==> HasNoInteger(sig, pos)
    ensures rlen > 0 ==> pos < |sig| && sig[pos] == 0x02 && LengthAt(sig, pos + 1, rlen)
    ensures rlen > 0 ==> next == pos + 1 + |LengthOctets(rlen)| && next + rlen <= |sig|
  {
    if pos == |sig| || sig[pos] != 0x02 {
      NoInteger(sig, pos);
      return 0, pos;
    }
    rlen, next := ReadLen(sig, pos + 1);
    if rlen <= 0 || next + rlen > |sig| {
      NoIntegerLength(sig, pos, rlen);
      return 0, next;
    }
  }

  lemma {:induction false} AssembleInteger(sig: seq<byte>, pos: nat, c: seq<byte>)
    requires pos < |sig| < 0x8000_0000 && sig[pos] == 0x02 && IsContent(c)
    requires LengthAt(sig, pos + 1, |c|) && At(sig, pos + 1 + |LengthOctets(|c|)|, c)
    ensures IntegerAt(sig, pos, c) && |Integer(c)| == 1 + |LengthOctets(|c|)| + |c|
  {
    ThreeParts(sig, pos, 0x02, LengthOctets(|c|), c);
  }

  // Lines 114-121: no superfluous first octet.
  method PaddingIsMinimal(sig: seq<byte>, next: nat, rlen: nat) returns (ok: bool)
    requires 0 < rlen < 0x8000_0000 && next + rlen <= |sig|
    ensures ok <==> IsContent(sig[next..next + rlen])
  {
    ghost var c := sig[next..next + rlen];
    assert c[0] == sig[next] && (rlen > 1 ==> c[1] == sig[next + 1]);
    if sig[next] == 0x00 && rlen > 1 && sig[next + 1] < 0x80 {
      return false;
    }
    if sig[next] == 0xFF && rlen > 1 && sig[next + 1] >= 0x80 {
      return false;
    }
    return true;
  }

  lemma {:induction false} NoInteger(sig: seq<byte>, pos: nat)
    requires pos <= |sig| < 0x8000_0000 && (pos == |sig| || sig[pos] != 0x02)
    ensures HasNoInteger(sig, pos)
  {
    forall c
      ensures !IntegerAt(sig, pos, c)
    {
      if IntegerAt(sig, pos, c) {
        IntegerForm(sig, pos, c);
      }
    }
  }

  lemma {:induction false} NoIntegerLength(sig: seq<byte>, pos: nat, rlen: int)
    requires pos < |sig| < 0x8000_0000
    requires rlen < 0 ==> HasNoLength(sig, pos + 1)
    requires rlen >= 0 ==> LengthAt(sig, pos + 1, rlen) && (rlen == 0 || pos + 1 + |LengthOctets(rlen)| + rlen > |sig|)
    ensures HasNoInteger(sig, pos)
  {
    forall c
      ensures !IntegerAt(sig, pos, c)
    {
      if IntegerAt(sig, pos, c) {
        IntegerForm(sig, pos, c);
        if rlen >= 0 {
          OneLength(sig, pos + 1, rlen, |c|);
        }
      }
    }
  }

  // Only these octets can be the integer's content.
  lemma {:induction false} OnlyContent(sig: seq<byte>, pos: nat, c: seq<byte>)
    requires |sig| < 0x8000_0000 && ContentAt(sig, pos + 1, c)
    ensures OnlyIntegerAt(sig, pos, c)
  {
    forall c' | IntegerAt(sig, pos, c')
      ensures c' == c
    {
      SameInteger(sig, pos, c, c');
    }
  }

  lemma {:induction false} SameInteger(sig: seq<byte>, pos: nat, c: seq<byte>, c': seq<byte>)
    requires |sig| < 0x8000_0000 && ContentAt(sig, pos + 1, c) && IntegerAt(sig, pos, c')
    ensures c' == c
  {
    IntegerForm(sig, pos, c');
    SameContent(sig, pos + 1, c, c');
  }

  // A length at pos and the content after it.
  ghost predicate ContentAt(sig: seq<byte>, pos: nat, c: seq<byte>) {
    LengthAt(sig, pos, |c|) && At(sig, pos + |LengthOctets(|c|)|, c)
  }

  lemma {:induction false} SameContent(sig: seq<byte>, pos: nat, c: seq<byte>, c': seq<byte>)
    requires ContentAt(sig, pos, c) && ContentAt(sig, pos, c')
    ensures c' == c
  {
    OneLength(sig, pos, |c|, |c'|);
    SameAt(sig, pos + |LengthOctets(|c|)|, c, c');
  }

  // Lines 126-141: leading zeros are skipped, what does not fit counts as zero.
  method ReadScalar(sig: seq<byte>, start: nat, length: nat, negative: bool) returns (value: int)
    requires 0 < length && start + length <= |sig| && (negative <==> sig[start] >= 0x80)
    ensures value == ScalarOf(sig[start..start + length])
  {
    var pos, rlen := start, length;
    var overflow := negative;
    while rlen > 0 && sig[pos] == 0
      invariant 0 <= rlen && pos + rlen == start + length && start <= pos
      invariant Big(sig[pos..pos + rlen]) == Big(sig[start..start + length])
    {
      BigLeadingZero(sig[pos..pos + rlen]);
      assert sig[pos..pos + rlen][1..] == sig[pos + 1..pos + rlen];
      rlen := rlen - 1;
      pos := pos + 1;
    }
    ghost var rest := sig[pos..pos + rlen];
    assert sig[start..start + length][0] == sig[start];
    if rlen > 32 {
      TooManyBytes(rest);
      overflow := true;
    }
    value := 0;
    if !overflow {
      value := Big(sig[pos..pos + rlen]);
      overflow := value >= N;
    }
    if overflow {
      value := 0;
    }
  }

  lemma {:induction false} TooManyBytes(b: seq<byte>)
    requires |b| > 32 && b[0] != 0
    ensures Big(b) >= N
  {
    BigAtLeast(b);
    Pow256Monotone(32, |b| - 1);
    Pow256Of32();
  }

  lemma {:induction false} Pow256Of32()
    ensures Pow256(32) == N + 0x14551231950B75FC4402DA1732FC9BEBF
  {
    assert Pow256(8) == 0x1_0000_0000_0000_0000;
    Pow256Add(8, 8);
    Pow256Add(16, 16);
  }

  // ---- signatures ----

  // Two integers end exactly at the end of sig, after a header of the right length.
  ghost predicate PairAt(sig: seq<byte>, pos: nat, c1: seq<byte>, c2: seq<byte>) {
    && IntegerAt(sig, pos, c1)
    && IntegerAt(sig, pos + |Integer(c1)|, c2)
    && pos + |Integer(c1)| + |Integer(c2)| == |sig|
  }

  ghost predicate SequenceAt(sig: seq<byte>, pos: nat) {
    && 0 < |sig| < 0x8000_0000 && sig[0] == 0x30 && pos <= |sig|
    && LengthAt(sig, 1, |sig| - pos) && pos == 1 + |LengthOctets(|sig| - pos)|
  }

  // The shape of a signature, from the outside in.
  lemma {:induction false} SignatureForm(sig: seq<byte>, c1: seq<byte>, c2: seq<byte>)
    requires |sig| < 0x8000_0000 && IsSignature(sig, c1, c2)
    ensures exists pos :: SequenceAt(sig, pos) && PairAt(sig, pos, c1, c2)
  {
    var a, b := Integer(c1), Integer(c2);
    var l := LengthOctets(|a + b|);
    var pos := 1 + |l|;
    assert sig == [0x30] + l + (a + b);
    assert sig[0..0 + |sig|] == sig;
    ThreeParts(sig, 0, 0x30, l, a + b);
    TwoParts(sig, pos, a, b);
    assert SequenceAt(sig, pos) && PairAt(sig, pos, c1, c2);
  }

  lemma {:induction false} AssembleSignature(sig: seq<byte>, pos: nat, c1: seq<byte>, c2: seq<byte>)
    requires SequenceAt(sig, pos) && PairAt(sig, pos, c1, c2)
    ensures IsSignature(sig, c1, c2)
  {
    AssembleBody(sig, pos, Integer(c1), Integer(c2));
  }

  lemma {:induction false} AssembleBody(sig: seq<byte>, pos: nat, a: seq<byte>, b: seq<byte>)
    requires SequenceAt(sig, pos) && At(sig, pos, a) && At(sig, pos + |a|, b) && pos + |a| + |b| == |sig|
    ensures |a + b| < 0x8000_0000 && sig == [0x30] + LengthOctets(|a + b|) + (a + b)
  {
    TwoParts(sig, pos, a, b);
    AssembleSequence(sig, pos, LengthOctets(|sig| - pos), a + b);
  }

  lemma {:induction false} AssembleSequence(sig: seq<byte>, pos: nat, l: seq<byte>, body: seq<byte>)
    requires |sig| > 0 && sig[0] == 0x30 && At(sig, 1, l) && pos == 1 + |l| && At(sig, pos, body) && pos + |body| == |sig|
    ensures sig == [0x30] + l + body
  {
    ThreeParts(sig, 0, 0x30, l, body);
    assert sig[0..0 + |sig|] == sig;
  }

  lemma {:induction false} OneSequence(sig: seq<byte>, m: nat, n: nat)
    requires SequenceAt(sig, m) && SequenceAt(sig, n)
    ensures m == n
  {
    OneLength(sig, 1, |sig| - m, |sig| - n);
  }

  // Nothing but c1 and c2 makes up sig.
  ghost predicate OnlySignature(sig: seq<byte>, ok: bool, c1: seq<byte>, c2: seq<byte>) {
    forall d1, d2 :: IsSignature(sig, d1, d2) ==> ok && d1 == c1 && d2 == c2
  }

  lemma {:induction false} NoSignature(sig: seq<byte>)
    requires |sig| < 0x8000_0000 && forall pos :: !SequenceAt(sig, pos)
    ensures OnlySignature(sig, false, [], [])
  {
    forall d1, d2 | IsSignature(sig, d1, d2)
      ensures false
    {
      SignatureForm(sig, d1, d2);
    }
  }

  ghost predicate IsParsed(sig: seq<byte>, ok: bool, r: int, s: int, c1: seq<byte>, c2: seq<byte>) {
    && 0 <= r < N && 0 <= s < N
    && (ok ==> IsSignature(sig, c1, c2) && r == ScalarOf(c1) && s == ScalarOf(c2))
    && OnlySignature(sig, ok, c1, c2)
  }

  // secp256k1_ecdsa_sig_parse: accepts exactly the signatures in DER and reads their two integers.
  method SigParse(sig: seq<byte>) returns (ok: bool, r: int, s: int, ghost c1: seq<byte>, ghost c2: seq<byte>)
    requires |sig| < 0x8000_0000
    ensures IsParsed(sig, ok, r, s, c1, c2)
  {
    ok, r, s, c1, c2 := false, 0, 0, [], [];
    var start;
    ok, start := ReadSequence(sig);
    if !ok {
      NoSignature(sig);
      return;
    }
    var next;
    ok, r, next, c1 := ParseInteger(sig, start);
    if !ok {
      FirstFails(sig, start, c1, c2);
      return;
    }
    ghost var after := next;
    ok, s, next, c2 := ParseInteger(sig, next);
    ok := ok && next == |sig|;
    SecondDecides(sig, start, c1, after, ok, c2);
    if ok {
      AssembleSignature(sig, start, c1, c2);
    }
  }

  // Lines 148-160: the tag, and a length that covers everything after it.
  method ReadSequence(sig: seq<byte>) returns (ok: bool, next: nat)
    requires |sig| < 0x8000_0000
    ensures ok ==> SequenceAt(sig, next)
    ensures !ok ==> forall pos :: !SequenceAt(sig, pos)
  {
    if |sig| == 0 || sig[0] != 0x30 {
      return false, 0;
    }
    var rlen;
    rlen, next := ReadLen(sig, 1);
    ok := rlen >= 0 && next + rlen == |sig|;
    if !ok {
      NoSequence(sig, rlen, next);
    }
  }

  lemma {:induction false} NoSequence(sig: seq<byte>, rlen: int, next: nat)
    requires 1 <= |sig| < 0x8000_0000 && !(rlen >= 0 && next + rlen == |sig|)
    requires if rlen >= 0 then LengthAt(sig, 1, rlen) && next == 1 + |LengthOctets(rlen)| else HasNoLength(sig, 1)
    ensures forall pos :: !SequenceAt(sig, pos)
  {
    forall pos
      ensures !SequenceAt(sig, pos)
    {
      if SequenceAt(sig, pos) {
        OneLength(sig, 1, |sig| - pos, if rlen >= 0 then rlen else |sig| - pos);
      }
    }
  }

  lemma {:induction false} FirstFails(sig: seq<byte>, start: nat, c1: seq<byte>, c2: seq<byte>)
    requires SequenceAt(sig, start) && HasNoInteger(sig, start)
    ensures OnlySignature(sig, false, c1, c2)
  {
    forall d1, d2 | IsSignature(sig, d1, d2)
      ensures false
    {
      SignaturePair(sig, start, d1, d2);
    }
  }

  lemma {:induction false} SecondDecides(sig: seq<byte>, start: nat, c1: seq<byte>, after: nat, ok: bool, c2: seq<byte>)
    requires SequenceAt(sig, start) && IntegerAt(sig, start, c1) && OnlyIntegerAt(sig, start, c1)
    requires after == start + |Integer(c1)| && OnlyIntegerAt(sig, after, c2)
    requires ok || HasNoInteger(sig, after) || (IntegerAt(sig, after, c2) && after + |Integer(c2)| != |sig|)
    ensures OnlySignature(sig, ok, c1, c2)
  {
    forall d1, d2 | IsSignature(sig, d1, d2)
      ensures ok && d1 == c1 && d2 == c2
    {
      SignaturePair(sig, start, d1, d2);
      OnlyPair(sig, start, c1, after, ok, c2, d1, d2);
    }
  }

  lemma {:induction false} OnlyPair(sig: seq<byte>, start: nat, c1: seq<byte>, after: nat, ok: bool, c2: seq<byte>,
                                    d1: seq<byte>, d2: seq<byte>)
    requires PairAt(sig, start, d1, d2)
    requires IntegerAt(sig, start, c1) && OnlyIntegerAt(sig, start, c1)
    requires after == start + |Integer(c1)| && OnlyIntegerAt(sig, after, c2)
    requires ok || HasNoInteger(sig, after) || (IntegerAt(sig, after, c2) && after + |Integer(c2)| != |sig|)
    ensures ok && d1 == c1 && d2 == c2
  {
  }

  lemma {:induction false} SignaturePair(sig: seq<byte>, start: nat, d1: seq<byte>, d2: seq<byte>)
    requires SequenceAt(sig, start) && IsSignature(sig, d1, d2)
    ensures PairAt(sig, start, d1, d2)
  {
    SignatureForm(sig, d1, d2);
    var pos :| SequenceAt(sig, pos) && PairAt(sig, pos, d1, d2);
    OneSequence(sig, pos, start);
  }

  // ---- writing ----

  // The one content that stands for a nonzero scalar; zero has a content too.
  lemma {:induction false} ContentOfScalar(v: int)
    requires 0 <= v < N
    ensures IsContent(Content(v)) && ScalarOf(Content(v)) == v && |Content(v)| <= 33 && Content(v)[0] < 0x80
  {
    var b, c := Minimal(v), Content(v);
    BigMinimal(v);
    ScalarBytes(v);
    if |b| == 0 || b[0] >= 0x80 {
      assert c[1..] == b;
      BigLeadingZero(c);
    }
  }

  lemma {:induction false} ScalarBytes(v: int)
    requires 0 <= v < N
    ensures |Minimal(v)| <= 32
  {
    if |Minimal(v)| > 32 {
      BigMinimal(v);
      TooManyBytes(Minimal(v));
    }
  }

  lemma {:induction false} ContentIsUnique(c: seq<byte>)
    requires IsContent(c) && c[0] < 0x80
    ensures Content(Big(c)) == c
  {
    if c[0] == 0 {
      BigLeadingZero(c);
      MinimalBig(c[1..]);
      assert c == [0] + c[1..];
      assert |c| > 1 ==> c[1..][0] == c[1];
    } else {
      MinimalBig(c);
    }
  }

  // Only one content is read as a given nonzero scalar.
  lemma {:induction false} NonzeroContent(c: seq<byte>)
    requires IsContent(c) && ScalarOf(c) != 0
    ensures c == Content(ScalarOf(c))
  {
    ContentIsUnique(c);
  }

  // The bytes of a signature.
  function Encode(r: int, s: int): (sig: seq<byte>)
    requires 0 <= r < N && 0 <= s < N
    ensures |sig| == 6 + |Content(r)| + |Content(s)| <= 72
  {
    ContentOfScalar(r);
    ContentOfScalar(s);
    var body := Integer(Content(r)) + Integer(Content(s));
    [0x30] + LengthOctets(|body|) + body
  }

  // Parsing a written signature gives back the scalars, and a parsed signature
  // of nonzero scalars is the written one: the encoding is unique.
  lemma {:induction false} EncodingIsUnique(sig: seq<byte>, c1: seq<byte>, c2: seq<byte>, r: int, s: int)
    requires IsContent(c1) && IsContent(c2) && 0 <= r < N && 0 <= s < N
    ensures sig == Encode(r, s) ==> IsSignature(sig, Content(r), Content(s))
    ensures IsSignature(sig, c1, c2) && r == ScalarOf(c1) != 0 && s == ScalarOf(c2) != 0 ==> sig == Encode(r, s)
  {
    ContentOfScalar(r);
    ContentOfScalar(s);
    if ScalarOf(c1) != 0 {
      NonzeroContent(c1);
    }
    if ScalarOf(c2) != 0 {
      NonzeroContent(c2);
    }
  }

  // What the parser finds in a written signature is what was written; and a
  // signature parsed to nonzero scalars is the one that writing them gives.
  lemma {:induction false} ParsingUndoesWriting(sig: seq<byte>, ok: bool, r: int, s: int, c1: seq<byte>, c2: seq<byte>)
    requires IsParsed(sig, ok, r, s, c1, c2)
    ensures ok && r != 0 && s != 0 ==> sig == Encode(r, s)
    ensures forall r', s' :: 0 <= r' < N && 0 <= s' < N && sig == Encode(r', s') ==> ok && r == r' && s == s'
  {
    if ok {
      EncodingIsUnique(sig, c1, c2, r, s);
    }
    forall r', s' | 0 <= r' < N && 0 <= s' < N && sig == Encode(r', s')
      ensures ok && r == r' && s == s'
    {
      WrittenIsSignature(sig, r', s');
    }
  }

  lemma {:induction false} WrittenIsSignature(sig: seq<byte>, r: int, s: int)
    requires 0 <= r < N && 0 <= s < N && sig == Encode(r, s)
    ensures IsSignature(sig, Content(r), Content(s)) && ScalarOf(Content(r)) == r && ScalarOf(Content(s)) == s
  {
    ContentOfScalar(r);
    ContentOfScalar(s);
  }

  // Lines 178-184: a zero byte and the 32 bytes of the scalar, without superfluous leading zeros.
  method Strip(v: int) returns (p: seq<byte>)
    requires 0 <= v < N
    ensures p == Content(v) && 1 <= |p| <= 33
  {
    var r := [0] + Fixed(v, 32);
    Pow256Of32();
    BigFixed(v, 32);
    BigLeadingZero(r);
    assert r[1..] == Fixed(v, 32);
    var k := 0;
    assert r[0..] == r;
    while |r| - k > 1 && r[k] == 0 && r[k + 1] < 0x80
      invariant 0 <= k < |r| && Big(r[k..]) == v && r[k] < 0x80
    {
      BigLeadingZero(r[k..]);
      assert r[k..][1..] == r[k + 1..];
      k := k + 1;
    }
    p := r[k..];
    ContentIsUnique(p);
  }

  // secp256k1_ecdsa_sig_serialize: writes the signature if there is room, and says how long it is.
  method SigSerialize(sig: array<byte>, size: nat, ar: int, as_: int) returns (ok: bool, length: nat)
    requires 0 <= ar < N && 0 <= as_ < N && size <= sig.Length
    modifies sig
    ensures length == |Encode(ar, as_)| && (ok <==> size >= length)
    ensures ok ==> sig[..length] == Encode(ar, as_) && sig[length..] == old(sig[length..])
    ensures !ok ==> sig[..] == old(sig[..])
  {
    var rp := Strip(ar);
    var sp := Strip(as_);
    length := 6 + |sp| + |rp|;
    if size < length {
      return false, length;
    }
    ok := true;
    sig[0] := 0x30;
    sig[1] := 4 + |sp| + |rp|;
    sig[2] := 0x02;
    sig[3] := |rp|;
    forall i | 0 <= i < |rp| {
      sig[4 + i] := rp[i];
    }
    sig[4 + |rp|] := 0x02;
    sig[5 + |rp|] := |sp|;
    forall i | 0 <= i < |sp| {
      sig[6 + |rp| + i] := sp[i];
    }
    assert sig[..length] == [0x30, 4 + |sp| + |rp|, 0x02, |rp|] + rp + [0x02, |sp|] + sp;
    ShortForms(rp, sp);
  }

  // The bytes of an encoding: a sequence of two integers, each with as few octets as
  // a nonnegative number can have, most significant first.
  lemma {:induction false} EncodingBytes(r: int, s: int)
    requires 0 <= r < N && 0 <= s < N
    ensures var c1, c2 := Content(r), Content(s);
      && Encode(r, s) == [0x30, 4 + |c1| + |c2|, 0x02, |c1|] + c1 + [0x02, |c2|] + c2
      && IsShortest(c1, r) && IsShortest(c2, s)
  {
    ShortestContent(r);
    ShortestContent(s);
    ShortForms(Content(r), Content(s));
    Swapped(|Content(r)|, |Content(s)|);
  }

  lemma {:induction false} Swapped(a: nat, b: nat)
    ensures 4 + a + b == 4 + b + a
  {
  }

  // c is v in two's complement: 32 bytes can hold the number, and a zero byte in
  // front is there only if the next one, or nothing, would make it negative.
  ghost predicate IsShortest(c: seq<byte>, v: nat) {
    && 1 <= |c| <= 33 && c[0] < 0x80 && (|c| > 1 && c[0] == 0 ==> c[1] >= 0x80)
    && forall i :: 0 <= i < |c| ==> c[i] == v / Pow256(|c| - 1 - i) % 256
  }

  lemma {:induction false} ShortestContent(v: int)
    requires 0 <= v < N
    ensures IsShortest(Content(v), v)
  {
    var c := Content(v);
    ContentOfScalar(v);
    FixedBig(c);
    forall i: nat | i < |c|
      ensures c[i] == v / Pow256(|c| - 1 - i) % 256
    {
      FixedAt(v, |c|, i);
    }
  }

  lemma {:induction false} ShortForms(c1: seq<byte>, c2: seq<byte>)
    requires 1 <= |c1| <= 33 && 1 <= |c2| <= 33
    ensures var body := Integer(c1) + Integer(c2);
      |body| == 4 + |c1| + |c2| &&
      [0x30] + LengthOctets(|body|) + body == [0x30, 4 + |c2| + |c1|, 0x02, |c1|] + c1 + [0x02, |c2|] + c2
  {
  }
}
