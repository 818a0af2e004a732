// The cipher of FIPS 197, section 5.1, by the standard's own definitions, and
// that the block cipher of the code is this cipher.
module AesStandard {
  import opened Groups
  import opened Bytes
  import opened AesColumns
  import opened Aes
  import opened AesField
  import AesKeys

  // ---- the four transformations, on cell 4*r + c for row r and column c ----

  ghost function SBox(s: Bits): Bits {
    InverseExists(s);
    var t :| IsInverse(s, t);
    Affine(t)
  }

  lemma {:induction false} InverseExists(s: Bits)
    ensures exists t :: IsInverse(s, t)
  {
    InverseIsInverse(s, Inverse(s));
  }

  ghost function SubBytesStd(s: Block): Block { seq(16, i requires 0 <= i < 16 => SBox(s[i])) }

  // Row r is shifted to the left by r places.
  function ShiftRowsStd(s: Block): Block { seq(16, i requires 0 <= i < 16 => s[4 * (i / 4) + (i % 4 + i / 4) % 4]) }

  // Every column is multiplied by the matrix of {02}, {03}, {01}, {01} and its rotations.
  function MixColumnsStd(s: Block): Block {
    seq(16, i requires 0 <= i < 16 => MixCell(s, i))
  }

  function MixCell(s: Block, i: nat): Bits
    requires i < 16
  {
    MixByte(s[i], s[(i + 4) % 16], s[(i + 8) % 16], s[(i + 12) % 16])
  }

  function MixByte(a: Bits, b: Bits, c: Bits, d: Bits): Bits { Plus(Plus(Times(a, TWO), Times(b, THREE)), Plus(c, d)) }

  function AddRoundKeyStd(s: Block, k: Block): Block { seq(16, i requires 0 <= i < 16 => Plus(s[i], k[i])) }

  // What every round but the last makes of the state.
  ghost function RoundStd(s: Block, k: Block): Block { AddRoundKeyStd(MixColumnsStd(ShiftRowsStd(SubBytesStd(s))), k) }

  // The states of the cipher up to the last round but one (section 5.1).
  ghost predicate IsRun(states: seq<Block>, rounds: seq<Block>, s: Block) {
    && |states| == |rounds| - 1 >= 1
    && states[0] == AddRoundKeyStd(s, rounds[0])
    && forall r {:trigger states[r]} :: 1 <= r < |states| ==> states[r] == RoundStd(states[r - 1], rounds[r])
  }

  // ---- each layer of the code is the standard's ----

  lemma {:induction false} SubIsStd(s: Block)
    ensures SubBytes(s, false) == SubBytesStd(s)
  {
    forall i | 0 <= i < 16
      ensures SubBytes(s, false)[i] == SBox(s[i])
    {
      SBoxIsCircuit(s[i]);
    }
  }

  lemma {:induction false} SBoxIsCircuit(s: Bits)
    ensures SBox(s) == SubBits(s)
  {
    InverseExists(s);
    var t :| IsInverse(s, t) && SBox(s) == Affine(t);
    SubBitsIsSbox(s, t);
  }

  lemma {:induction false} ShiftIsStd(s: Block)
    ensures ShiftRows(s) == ShiftRowsStd(s)
  {
  }

  lemma {:induction false} MixIsStd(s: Block)
    ensures MixColumns(BITS, MultX, s, false) == MixColumnsStd(s)
  {
    forall i: nat | i < 16
      ensures Mix(BITS, MultX, s)[i] == MixCell(s, i)
    {
      MixCellIsStd(s, i);
    }
  }

  lemma {:induction false} MixCellIsStd(s: Block, i: nat)
    requires i < 16
    ensures Mix(BITS, MultX, s)[i] == MixCell(s, i)
  {
    MixAt(BITS, MultX, s, i);
    MixByteIsMixed(s[i], s[(i + 4) % 16], s[(i + 8) % 16], s[(i + 12) % 16]);
  }

  lemma {:induction false} MixByteIsMixed(a: Bits, b: Bits, c: Bits, d: Bits)
    ensures MixByte(a, b, c, d) == Mixed(BITS, MultX, a, b, c, d)
  {
    BitsAreBytes();
    TimesX(a);
    TimesThree(b);
    MixedIsStd(BITS, MultX, a, b, c, d);
  }

  lemma {:induction false} MixedIsStd<B(!new)>(g: Group<B>, mx: B -> B, a: B, b: B, c: B, d: B)
    requires IsByteArithmetic(g, mx)
    ensures Mixed(g, mx, a, b, c, d) == g.add(g.add(mx(a), g.add(b, mx(b))), g.add(c, d))
  {
    assert LinearAt(g, mx, a, b);
    Assoc(g, b, c, d);
    Comm(g, g.add(b, g.add(c, d)), g.add(mx(a), mx(b)));
    Assoc(g, g.add(mx(a), mx(b)), b, g.add(c, d));
    Assoc(g, mx(a), mx(b), b);
    Comm(g, mx(b), b);
  }

  lemma {:induction false} ForwardIsStd(s: Block)
    ensures Forward(s) == ShiftRowsStd(SubBytesStd(s))
  {
    SubIsStd(s);
    ShiftIsStd(SubBytes(s, false));
  }

  lemma {:induction false} RoundIsStd(s: Block, k: Block)
    ensures AES.add(AES.mix(AES.sub(s)), k) == RoundStd(s, k)
  {
    ForwardIsStd(s);
    MixIsStd(Forward(s));
    AddIsStd(MixForward(Forward(s)), k);
  }

  lemma {:induction false} AddIsStd(s: Block, k: Block)
    ensures AddRoundKey(s, k) == AddRoundKeyStd(s, k)
  {
  }

  // The states of the code are the states of the standard.
  lemma {:induction false} RunIsStd(states: seq<Block>, rounds: seq<Block>, s: Block)
    requires |states| == |rounds| - 1 >= 1
    ensures IsRun(states, rounds, s) <==> AES.IsRun(states, rounds, s)
  {
    FirstIsStd(s, rounds[0]);
    forall r | 1 <= r < |states|
      ensures AES.add(AES.mix(AES.sub(states[r - 1])), rounds[r]) == RoundStd(states[r - 1], rounds[r])
    {
      RoundIsStd(states[r - 1], rounds[r]);
    }
  }

  lemma {:induction false} FirstIsStd(s: Block, k: Block)
    ensures AES.add(s, k) == AddRoundKeyStd(s, k)
  {
    AddIsStd(s, k);
  }

  lemma {:induction false} RunExists(rounds: seq<Block>, s: Block)
    requires |rounds| >= 2
    ensures exists states :: IsRun(states, rounds, s)
  {
    var states := AES.RunExists(rounds, s);
    RunIsStd(states, rounds, s);
  }

  // The bytes go into the state column by column, and come out of it the same way (section 3.4).
  ghost predicate InState(data: seq<byte>, s: Block)
    requires |data| == 16
  {
    forall i :: 0 <= i < 16 ==> s[i] == ToBits(data[i / 4 + 4 * (i % 4)])
  }

  lemma {:induction false} LoadedInState(data: seq<byte>)
    requires |data| == 16
    ensures InState(data, LoadBytes(data))
  {
    forall i: nat | i < 16
      ensures LoadBytes(data)[i] == ToBits(data[i / 4 + 4 * (i % 4)])
    {
      LoadedCell(data, MapAll(ToBits, data), i, i / 4 + 4 * (i % 4));
    }
  }

  lemma {:induction false} LoadedCell(data: seq<byte>, t: seq<Bits>, i: nat, k: nat)
    requires |data| == 16 && t == MapAll(ToBits, data) && i < 16 && k == i / 4 + 4 * (i % 4)
    ensures LoadBytes(data)[i] == ToBits(data[k])
  {
    TransposedAt(t, i);
    assert t[k] == ToBits(data[k]);
  }

  lemma {:induction false} TransposedAt(s: seq<Bits>, i: nat)
    requires |s| == 16 && i < 16
    ensures Transposed(s)[i] == s[i / 4 + 4 * (i % 4)]
  {
  }

  lemma {:induction false} InOneState(data: seq<byte>, s: Block, t: Block)
    requires |data| == 16 && InState(data, s) && InState(data, t)
    ensures s == t
  {
  }

  // AES_encrypt computes the standard's cipher: the last round has no MixColumns.
  lemma {:induction false} EncryptIsStandard(rounds: seq<Block>, plain: seq<byte>, s: Block, states: seq<Block>)
    requires |plain| == 16 && InState(plain, s) && IsRun(states, rounds, s)
    ensures InState(EncryptBlock(rounds, plain),
                    AddRoundKeyStd(ShiftRowsStd(SubBytesStd(states[|states| - 1])), rounds[|rounds| - 1]))
  {
    CipherIsStd(rounds, s, states);
    Saved(rounds, plain, s);
  }

  lemma {:induction false} CipherIsStd(rounds: seq<Block>, s: Block, states: seq<Block>)
    requires IsRun(states, rounds, s)
    ensures AES.Cipher(rounds, s) == AddRoundKeyStd(ShiftRowsStd(SubBytesStd(states[|states| - 1])), rounds[|rounds| - 1])
  {
    RunIsStd(states, rounds, s);
    AES.CipherOfRun(states, rounds, s);
    LastIsStd(states[|states| - 1], rounds[|rounds| - 1]);
  }

  lemma {:induction false} LastIsStd(s: Block, k: Block)
    ensures AES.add(AES.sub(s), k) == AddRoundKeyStd(ShiftRowsStd(SubBytesStd(s)), k)
  {
    ForwardIsStd(s);
    AddIsStd(Forward(s), k);
  }

  lemma {:induction false} Saved(rounds: seq<Block>, plain: seq<byte>, s: Block)
    requires |rounds| >= 2 && |plain| == 16 && InState(plain, s)
    ensures InState(EncryptBlock(rounds, plain), AES.Cipher(rounds, s))
  {
    LoadedInState(plain);
    InOneState(plain, s, LoadBytes(plain));
    SaveLoad(AES.Cipher(rounds, s));
    LoadedInState(EncryptBlock(rounds, plain));
  }

  // ---- the keys ----

  type KeyWord = AesKeys.Word<Bits>

  function Or(a: Bits, b: Bits): Bits {
    Bits(a.b0 || b.b0, a.b1 || b.b1, a.b2 || b.b2, a.b3 || b.b3, a.b4 || b.b4, a.b5 || b.b5, a.b6 || b.b6, a.b7 || b.b7)
  }

  const KEY_OPS: AesKeys.KeyOps<Bits> := AesKeys.KeyOps(ZERO, ONE, Plus, Or, SubBits, MultX)

  lemma {:induction false} KeyOpsAreLawful()
    ensures KEY_OPS.Lawful()
  {
    forall a, b
      ensures KEY_OPS.LawsAt(a, b)
    {
      PlusComm(a, b);
    }
  }

  // Four bytes from position i on.
  function KeyWordOf(key: seq<byte>, i: nat): KeyWord
    requires i + 4 <= |key|
  {
    AesKeys.Word(ToBits(key[i]), ToBits(key[i + 1]), ToBits(key[i + 2]), ToBits(key[i + 3]))
  }

  function KeyWords(key: seq<byte>): (w: seq<KeyWord>)
    requires |key| % 4 == 0
    ensures |w| == |key| / 4
  {
    seq(|key| / 4, i requires 0 <= i < |key| / 4 => KeyWordOf(key, 4 * i))
  }

  // Row r of word i of the round keys.
  function WordRow(rounds: seq<Block>, i: nat, r: nat): Bits
    requires i < 4 * |rounds| && r < 4
  {
    rounds[i / 4][4 * r + i % 4]
  }

  // x^k
  function PowerOfX(k: nat): Bits {
    if k == 0 then ONE else Times(PowerOfX(k - 1), TWO)
  }

  // Figure 11 of the standard, row by row: after the key itself every word is the
  // sum of the word nk places back and the word before it. The latter is rotated,
  // substituted and given the round constant at multiples of nk, and substituted
  // four words later if there are more than six.
  ghost predicate IsScheduleAt(rounds: seq<Block>, key: seq<byte>, i: nat, r: nat)
    requires i < 4 * |rounds| && r < 4 && |key| % 4 == 0 && |key| > 0
  {
    var nk := |key| / 4;
    WordRow(rounds, i, r) ==
    if i < nk then ToBits(key[4 * i + r])
    else NextRow(WordRow(rounds, i - nk, r), WordRow(rounds, i - 1, r), WordRow(rounds, i - 1, (r + 1) % 4), nk, i, r)
  }

  // From the word nk places back, the word before and the row below in it.
  ghost function NextRow(back: Bits, before: Bits, below: Bits, nk: nat, i: nat, r: nat): Bits
    requires 0 < nk <= i
  {
    if i % nk == 0 then Plus(back, Plus(SBox(below), if r == 0 then PowerOfX(RunIndex(i, nk) - 1) else ZERO))
    else if nk > 6 && i % nk == 4 then Plus(back, SBox(before))
    else Plus(back, before)
  }

  function RunIndex(i: nat, nk: nat): (q: nat)
    requires 0 < nk <= i
    ensures q == i / nk >= 1
  {
    i / nk
  }

  ghost predicate IsSchedule(rounds: seq<Block>, key: seq<byte>)
    requires |key| % 4 == 0 && |key| > 0
  {
    forall i: nat, r: nat :: i < 4 * |rounds| && r < 4 ==> IsScheduleAt(rounds, key, i, r)
  }

  // Nothing else is the schedule.
  lemma {:induction false} ScheduleIsUnique(a: seq<Block>, b: seq<Block>, key: seq<byte>, i: nat, r: nat)
    requires |key| % 4 == 0 && |key| > 0 && IsSchedule(a, key) && IsSchedule(b, key) && |a| == |b|
    requires i < 4 * |a| && r < 4
    ensures WordRow(a, i, r) == WordRow(b, i, r)
    decreases i
  {
    var nk := |key| / 4;
    assert IsScheduleAt(a, key, i, r) && IsScheduleAt(b, key, i, r);
    if i >= nk {
      ScheduleIsUnique(a, b, key, i - nk, r);
      ScheduleIsUnique(a, b, key, i - 1, r);
      ScheduleIsUnique(a, b, key, i - 1, (r + 1) % 4);
    }
  }

  const RCON: seq<byte> := [0x01, 0x02, 0x04, 0x08, 0x10, 0x20, 0x40, 0x80, 0x1B, 0x36]

  // The ten round constants of AES-128; the longer keys use fewer.
  lemma {:induction false} RoundConstant(k: nat)
    requires k < 10
    ensures PowerOfX(k) == ToBits(RCON[k])
  {
    if k > 0 {
      RoundConstant(k - 1);
      TimesX(PowerOfX(k - 1));
      NextConstant(k, RCON[k - 1], RCON[k]);
    }
  }

  lemma {:induction false} NextConstant(k: nat, x: byte, y: byte)
    requires 0 < k < 10 && x == RCON[k - 1] && y == RCON[k]
    ensures MultX(ToBits(x)) == ToBits(y)
  {
    DoubledByte(x);
    assert k != 8 ==> x < 128 && y == 2 * x;
  }

  // Multiplication by x on the byte: the bit shifted out comes back as 1B.
  lemma {:induction false} DoubledByte(x: byte)
    ensures x < 128 ==> MultX(ToBits(x)) == ToBits(2 * x)
    ensures MultX(ToBits(0x80)) == ToBits(0x1B)
  {
    ByteRoundTrip(x);
    ShiftedUp(ToBits(x));
    BitsRoundTrip(MultX(ToBits(x)));
    ShiftedOut();
  }

  lemma {:induction false} ShiftedUp(b: Bits)
    ensures FromBits(b) < 128 ==> FromBits(MultX(b)) == 2 * FromBits(b)
  {
    BitWeights(b);
    BitWeights(MultX(b));
  }

  lemma {:induction false} ShiftedOut()
    ensures MultX(ToBits(0x80)) == ToBits(0x1B)
  {
  }

  lemma {:induction false} RconIsPower(j: nat)
    requires j > 0
    ensures KEY_OPS.RconByte(j) == PowerOfX(j - 1)
  {
    if j > 1 {
      RconIsPower(j - 1);
      TimesX(PowerOfX(j - 2));
    }
  }

  // nrounds + 1 round keys.
  function RoundKeys(key: seq<byte>, nrounds: nat): (rounds: seq<Block>)
    requires |key| % 4 == 0 && |key| > 0
    ensures |rounds| == nrounds + 1
  {
    seq(nrounds + 1, k requires 0 <= k < nrounds + 1 => AesKeys.RoundKey(KEY_OPS, KeyWords(key), k))
  }

  lemma {:induction false} RoundKeysAreStandard(key: seq<byte>, nrounds: nat)
    requires |key| % 4 == 0 && |key| > 0
    ensures IsSchedule(RoundKeys(key, nrounds), key)
  {
    var rounds := RoundKeys(key, nrounds);
    forall i: nat, r: nat | i < 4 * |rounds| && r < 4
      ensures RowHolds(rounds, KeyWords(key), i, r)
    {
      RowIsExpanded(key, nrounds, i, r);
    }
    forall i: nat, r: nat | i < 4 * |rounds| && r < 4
      ensures IsScheduleAt(rounds, key, i, r)
    {
      WordIsStandard(rounds, key, KeyWords(key), i, r);
    }
  }

  ghost predicate RowHolds(rounds: seq<Block>, w: seq<KeyWord>, i: nat, r: nat)
    requires i < 4 * |rounds| && r < 4 && |w| > 0
  {
    WordRow(rounds, i, r) == KEY_OPS.Expanded(w, i).Row(r)
  }

  // What is kept in row r of column i of the round keys.
  lemma {:induction false} RowIsExpanded(key: seq<byte>, nrounds: nat, i: nat, r: nat)
    requires |key| % 4 == 0 && |key| > 0 && i < 4 * (nrounds + 1) && r < 4
    ensures WordRow(RoundKeys(key, nrounds), i, r) == KEY_OPS.Expanded(KeyWords(key), i).Row(r)
  {
    AesKeys.RoundKeyRow(KEY_OPS, KeyWords(key), i / 4, i % 4, r);
    assert RoundKeys(key, nrounds)[i / 4] == AesKeys.RoundKey(KEY_OPS, KeyWords(key), i / 4);
    assert 4 * (i / 4) + i % 4 == i;
  }

  lemma {:induction false} WordIsStandard(rounds: seq<Block>, key: seq<byte>, w: seq<KeyWord>, i: nat, r: nat)
    requires |key| % 4 == 0 && |key| > 0 && w == KeyWords(key) && i < 4 * |rounds| && r < 4
    requires forall j: nat, q: nat :: j < 4 * |rounds| && q < 4 ==> RowHolds(rounds, w, j, q)
    ensures IsScheduleAt(rounds, key, i, r)
  {
    assert RowHolds(rounds, w, i, r);
    ExpandedRow(w, i, r);
    if i < |w| {
      KeyRow(key, i, r);
    } else {
      assert RowHolds(rounds, w, i - |w|, r) && RowHolds(rounds, w, i - 1, r) && RowHolds(rounds, w, i - 1, (r + 1) % 4);
      RowOfTransformed(WordRow(rounds, i - |w|, r), KEY_OPS.Expanded(w, i - 1), |w|, i, r);
    }
  }

  lemma {:induction false} KeyRow(key: seq<byte>, i: nat, r: nat)
    requires |key| % 4 == 0 && i < |key| / 4 && r < 4
    ensures KeyWords(key)[i].Row(r) == ToBits(key[4 * i + r])
  {
  }

  lemma {:induction false} ExpandedRow(w: seq<KeyWord>, i: nat, r: nat)
    requires |w| > 0 && r < 4
    ensures KEY_OPS.Expanded(w, i).Row(r) ==
      if i < |w| then w[i].Row(r)
      else Plus(KEY_OPS.Expanded(w, i - |w|).Row(r), KEY_OPS.Transformed(KEY_OPS.Expanded(w, i - 1), |w|, i).Row(r))
  {
  }

  lemma {:induction false} RowOfTransformed(back: Bits, t: KeyWord, nk: nat, i: nat, r: nat)
    requires 0 < nk <= i && r < 4
    ensures Plus(back, KEY_OPS.Transformed(t, nk, i).Row(r)) == NextRow(back, t.Row(r), t.Row((r + 1) % 4), nk, i, r)
  {
    SBoxIsCircuit(t.Row((r + 1) % 4));
    SBoxIsCircuit(t.Row(r));
    if i % nk == 0 {
      RconIsPower(RunIndex(i, nk));
    }
  }

  // AES_setup
  method KeySetup(key: seq<byte>, nrounds: nat) returns (rounds: seq<Block>)
    requires |key| % 4 == 0 && 0 < |key| / 4 <= 4 * (nrounds + 1)
    ensures rounds == RoundKeys(key, nrounds)
  {
    KeyOpsAreLawful();
    rounds := AesKeys.SetupRounds(KEY_OPS, KeyWords(key), nrounds);
  }
}
