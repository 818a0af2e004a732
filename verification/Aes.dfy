// The AES block cipher. The state's eight 16-bit slices are kept as sixteen
// cells of eight bits: a gate on whole slices acts on every cell alike.
module Aes {
  import opened Groups
  import opened AesColumns
  import opened AesRounds
  import opened Bytes

  // One bit of each slice, slice 0 first.
  datatype Bits = Bits(b0: bool, b1: bool, b2: bool, b3: bool, b4: bool, b5: bool, b6: bool, b7: bool)

  const ZERO: Bits := Bits(false, false, false, false, false, false, false, false)

  function Plus(a: Bits, b: Bits): Bits {
    Bits(a.b0 != b.b0, a.b1 != b.b1, a.b2 != b.b2, a.b3 != b.b3, a.b4 != b.b4, a.b5 != b.b5, a.b6 != b.b6, a.b7 != b.b7)
  }

  // MultX: times x modulo x^8 + x^4 + x^3 + x + 1
  function MultX(a: Bits): Bits {
    Bits(a.b7, a.b0 != a.b7, a.b1, a.b2 != a.b7, a.b3 != a.b7, a.b4, a.b5, a.b6)
  }

  const BITS: Group<Bits> := Group(ZERO, Plus, a => a)

  lemma {:induction false} BitsAreBytes()
    ensures IsByteArithmetic(BITS, MultX)
  {
    forall a: Bits, b: Bits, c: Bits
      ensures BITS.AssocAt(a, b, c)
    {
      PlusAssoc(a, b, c);
    }
    forall a: Bits, b: Bits
      ensures BITS.CommAt(a, b) && LinearAt(BITS, MultX, a, b)
    {
      PlusComm(a, b);
      MultXPlus(a, b);
    }
  }

  lemma {:induction false} BitAssoc(a: bool, b: bool, c: bool)
    ensures ((a != b) != c) == (a != (b != c))
  {
  }

  lemma {:induction false} PlusAssoc(a: Bits, b: Bits, c: Bits)
    ensures Plus(Plus(a, b), c) == Plus(a, Plus(b, c))
  {
    BitAssoc(a.b0, b.b0, c.b0);
    BitAssoc(a.b1, b.b1, c.b1);
    BitAssoc(a.b2, b.b2, c.b2);
    BitAssoc(a.b3, b.b3, c.b3);
    BitAssoc(a.b4, b.b4, c.b4);
    BitAssoc(a.b5, b.b5, c.b5);
    BitAssoc(a.b6, b.b6, c.b6);
    BitAssoc(a.b7, b.b7, c.b7);
  }

  lemma {:induction false} PlusComm(a: Bits, b: Bits)
    ensures Plus(a, b) == Plus(b, a)
  {
  }

  lemma {:induction false} BitSwap(a: bool, b: bool, c: bool, d: bool)
    ensures ((a != b) != (c != d)) == ((a != c) != (b != d))
  {
  }

  lemma {:induction false} MultXPlus(a: Bits, b: Bits)
    ensures MultX(Plus(a, b)) == Plus(MultX(a), MultX(b))
  {
    BitSwap(a.b0, b.b0, a.b7, b.b7);
    BitSwap(a.b2, b.b2, a.b7, b.b7);
    BitSwap(a.b3, b.b3, a.b7, b.b7);
  }

  // ---- SubBytes ----

  // SubBytes(s, 0), gate by gate.
  function SubBits(s: Bits): Bits {
    var Bits(U7, U6, U5, U4, U3, U2, U1, U0) := s;
    var T1 := U0 != U3;
    var T2 := U0 != U5;
    var T3 := U0 != U6;
    var T4 := U3 != U5;
    var T5 := U4 != U6;
    var T6 := T1 != T5;
    var T7 := U1 != U2;
    var T8 := U7 != T6;
    var T9 := U7 != T7;
    var T10 := T6 != T7;
    var T11 := U1 != U5;
    var T12 := U2 != U5;
    var T13 := T3 != T4;
    var T14 := T6 != T11;
    var T15 := T5 != T11;
    var T16 := T5 != T12;
    var T17 := T9 != T16;
    var T18 := U3 != U7;
    var T19 := T7 != T18;
    var T20 := T1 != T19;
    var T21 := U6 != U7;
    var T22 := T7 != T21;
    var T23 := T2 != T22;
    var T24 := T2 != T10;
    var T25 := T20 != T17;
    var T26 := T3 != T16;
    var T27 := T1 != T12;
    var D := U7;
    var M1 := T13 && T6;
    var M6 := T3 && T16;
    var M11 := T1 && T15;
    var M13 := (T4 && T27) != M11;
    var M15 := (T2 && T10) != M11;
    var M20 := ((T14 != M1) != (T23 && T8)) != M13;
    var M21 := (((T19 && D) != M1) != T24) != M15;
    var M22 := ((T26 != M6) != (T22 && T9)) != M13;
    var M23 := (((T20 && T17) != M6) != M15) != T25;
    var M25 := M22 && M20;
    var M37 := M21 != ((M20 != M21) && (M23 != M25));
    var M38 := (M20 != M25) != (M21 || (M20 && M23));
    var M39 := M23 != ((M22 != M23) && (M21 != M25));
    var M40 := (M22 != M25) != (M23 || (M21 && M22));
    var M41 := M38 != M40;
    var M42 := M37 != M39;
    var M43 := M37 != M38;
    var M44 := M39 != M40;
    var M45 := M42 != M41;
    var M46 := M44 && T6;
    var M47 := M40 && T8;
    var M48 := M39 && D;
    var M49 := M43 && T16;
    var M50 := M38 && T9;
    var M51 := M37 && T17;
    var M52 := M42 && T15;
    var M53 := M45 && T27;
    var M54 := M41 && T10;
    var M55 := M44 && T13;
    var M56 := M40 && T23;
    var M57 := M39 && T19;
    var M58 := M43 && T3;
    var M59 := M38 && T22;
    var M60 := M37 && T20;
    var M61 := M42 && T1;
    var M62 := M45 && T4;
    var M63 := M41 && T2;
    var L0 := M61 != M62;
    var L1 := M50 != M56;
    var L2 := M46 != M48;
    var L3 := M47 != M55;
    var L4 := M54 != M58;
    var L5 := M49 != M61;
    var L6 := M62 != L5;
    var L7 := M46 != L3;
    var L8 := M51 != M59;
    var L9 := M52 != M53;
    var L10 := M53 != L4;
    var L11 := M60 != L2;
    var L12 := M48 != M51;
    var L13 := M50 != L0;
    var L14 := M52 != M61;
    var L15 := M55 != L1;
    var L16 := M56 != L0;
    var L17 := M57 != L1;
    var L18 := M58 != L8;
    var L19 := M63 != L4;
    var L20 := L0 != L1;
    var L21 := L1 != L7;
    var L22 := L3 != L12;
    var L23 := L18 != L2;
    var L24 := L15 != L9;
    var L25 := L6 != L10;
    var L26 := L7 != L9;
    var L27 := L8 != L10;
    var L28 := L11 != L14;
    var L29 := L11 != L17;
    Bits(!(L6 != L23), !(L13 != L27), L25 != L29, L20 != L22, L6 != L21, !(L19 != L28), !(L16 != L26), L6 != L24)
  }

  // SubBytes(s, 1)
  function InvSubBits(s: Bits): Bits {
    var Bits(U7, U6, U5, U4, U3, U2, U1, U0) := s;
    var T23 := U0 != U3;
    var T22 := !(U1 != U3);
    var T2 := !(U0 != U1);
    var T1 := U3 != U4;
    var T24 := !(U4 != U7);
    var R5 := U6 != U7;
    var T8 := !(U1 != T23);
    var T19 := T22 != R5;
    var T9 := !(U7 != T1);
    var T10 := T2 != T24;
    var T13 := T2 != R5;
    var T3 := T1 != R5;
    var T25 := !(U2 != T1);
    var R13 := U1 != U6;
    var T17 := !(U2 != T19);
    var T20 := T24 != R13;
    var T4 := U4 != T8;
    var R17 := !(U2 != U5);
    var R18 := !(U5 != U6);
    var R19 := !(U2 != U4);
    var D := U0 != R17;
    var T6 := T22 != R17;
    var T16 := R13 != R19;
    var T27 := T1 != R18;
    var T15 := T10 != T27;
    var T14 := T10 != R18;
    var T26 := T3 != T16;
    var M1 := T13 && T6;
    var M6 := T3 && T16;
    var M11 := T1 && T15;
    var M13 := (T4 && T27) != M11;
    var M15 := (T2 && T10) != M11;
    var M20 := ((T14 != M1) != (T23 && T8)) != M13;
    var M21 := (((T19 && D) != M1) != T24) != M15;
    var M22 := ((T26 != M6) != (T22 && T9)) != M13;
    var M23 := (((T20 && T17) != M6) != M15) != T25;
    var M25 := M22 && M20;
    var M37 := M21 != ((M20 != M21) && (M23 != M25));
    var M38 := (M20 != M25) != (M21 || (M20 && M23));
    var M39 := M23 != ((M22 != M23) && (M21 != M25));
    var M40 := (M22 != M25) != (M23 || (M21 && M22));
    var M41 := M38 != M40;
    var M42 := M37 != M39;
    var M43 := M37 != M38;
    var M44 := M39 != M40;
    var M45 := M42 != M41;
    var M46 := M44 && T6;
    var M47 := M40 && T8;
    var M48 := M39 && D;
    var M49 := M43 && T16;
    var M50 := M38 && T9;
    var M51 := M37 && T17;
    var M52 := M42 && T15;
    var M53 := M45 && T27;
    var M54 := M41 && T10;
    var M55 := M44 && T13;
    var M56 := M40 && T23;
    var M57 := M39 && T19;
    var M58 := M43 && T3;
    var M59 := M38 && T22;
    var M60 := M37 && T20;
    var M61 := M42 && T1;
    var M62 := M45 && T4;
    var M63 := M41 && T2;
    var P0 := M52 != M61;
    var P1 := M58 != M59;
    var P2 := M54 != M62;
    var P3 := M47 != M50;
    var P4 := M48 != M56;
    var P5 := M46 != M51;
    var P6 := M49 != M60;
    var P7 := P0 != P1;
    var P8 := M50 != M53;
    var P9 := M55 != M63;
    var P10 := M57 != P4;
    var P11 := P0 != P3;
    var P12 := M46 != M48;
    var P13 := M49 != M51;
    var P14 := M49 != M62;
    var P15 := M54 != M59;
    var P16 := M57 != M61;
    var P17 := M58 != P2;
    var P18 := M63 != P5;
    var P19 := P2 != P3;
    var P20 := P4 != P6;
    var P22 := P2 != P7;
    var P23 := P7 != P8;
    var P24 := P5 != P7;
    var P25 := P6 != P10;
    var P26 := P9 != P11;
    var P27 := P10 != P18;
    var P28 := P11 != P25;
    var P29 := P15 != P20;
    Bits(P9 != P16, P14 != P23, P19 != P24, P23 != P27, P12 != P22, P17 != P28, P26 != P29, P13 != P22)
  }

  // The inverse circuit undoes the circuit, and the other way round.
  lemma {:induction false} SubBitsUndone(s: Bits)
    ensures InvSubBits(SubBits(s)) == s
  {
    if s.b7 { if s.b6 { } else { } } else { }
  }

  lemma {:induction false} InvSubBitsUndone(s: Bits)
    ensures SubBits(InvSubBits(s)) == s
  {
    if s.b7 { if s.b6 { } else { } } else { }
  }

  // SubBytes
  function SubBytes(s: seq<Bits>, inv: bool): (r: seq<Bits>)
    requires IsBlock(s)
    ensures IsBlock(r)
  {
    MapAll(if inv then InvSubBits else SubBits, s)
  }

  lemma {:induction false} SubBytesUndone(s: seq<Bits>)
    requires IsBlock(s)
    ensures SubBytes(SubBytes(s, false), true) == s
    ensures SubBytes(SubBytes(s, true), false) == s
  {
    forall i | 0 <= i < 16
      ensures SubBytes(SubBytes(s, false), true)[i] == s[i] && SubBytes(SubBytes(s, true), false)[i] == s[i]
    {
      SubBitsUndone(s[i]);
      InvSubBitsUndone(s[i]);
    }
  }

  // ---- ShiftRows ----

  // ShiftRows: row r is rotated by r positions.
  function ShiftRows(s: seq<Bits>): (r: seq<Bits>)
    requires IsBlock(s)
    ensures IsBlock(r)
  {
    [s[0], s[1], s[2], s[3], s[5], s[6], s[7], s[4], s[10], s[11], s[8], s[9], s[15], s[12], s[13], s[14]]
  }

  // InvShiftRows
  function InvShiftRows(s: seq<Bits>): (r: seq<Bits>)
    requires IsBlock(s)
    ensures IsBlock(r)
  {
    [s[0], s[1], s[2], s[3], s[7], s[4], s[5], s[6], s[10], s[11], s[8], s[9], s[13], s[14], s[15], s[12]]
  }

  lemma {:induction false} ShiftRowsUndone(s: seq<Bits>)
    requires IsBlock(s)
    ensures InvShiftRows(ShiftRows(s)) == s && ShiftRows(InvShiftRows(s)) == s
  {
  }

  // ---- bytes and cells ----

  // LoadByte: bit i of the byte goes to slice i.
  function ToBits(x: byte): Bits {
    var x1 := x / 2;
    var x2 := x1 / 2;
    var x3 := x2 / 2;
    var x4 := x3 / 2;
    var x5 := x4 / 2;
    var x6 := x5 / 2;
    Bits(x % 2 == 1, x1 % 2 == 1, x2 % 2 == 1, x3 % 2 == 1, x4 % 2 == 1, x5 % 2 == 1, x6 % 2 == 1, x6 / 2 % 2 == 1)
  }

  // One more bit below a number.
  function Under(bit: bool, n: nat): (r: nat)
    ensures r / 2 == n && (r % 2 == 1 <==> bit)
  {
    2 * n + Digit(bit)
  }

  // The byte of one cell, as SaveBytes collects it.
  function FromBits(b: Bits): byte {
    Under(b.b0, Under(b.b1, Under(b.b2, Under(b.b3, Under(b.b4, Under(b.b5, Under(b.b6, Under(b.b7, 0))))))))
  }

  function Digit(bit: bool): nat { if bit then 1 else 0 }

  // Bit i counts 2^i.
  lemma {:induction false} BitWeights(b: Bits)
    ensures FromBits(b) == Digit(b.b0) + 2 * Digit(b.b1) + 4 * Digit(b.b2) + 8 * Digit(b.b3)
                           + 16 * Digit(b.b4) + 32 * Digit(b.b5) + 64 * Digit(b.b6) + 128 * Digit(b.b7)
  {
  }

  lemma {:induction false} BitsRoundTrip(b: Bits)
    ensures ToBits(FromBits(b)) == b
  {
  }

  lemma {:induction false} ByteRoundTrip(x: byte)
    ensures FromBits(ToBits(x)) == x
  {
    var x1 := x / 2;
    var x2 := x1 / 2;
    var x3 := x2 / 2;
    var x4 := x3 / 2;
    var x5 := x4 / 2;
    var x6 := x5 / 2;
    LastBit(x6 / 2);
    Halved(x6);
    Halved(x5);
    Halved(x4);
    Halved(x3);
    Halved(x2);
    Halved(x1);
    Halved(x);
  }

  lemma {:induction false} LastBit(x: nat)
    requires x < 2
    ensures Under(x % 2 == 1, 0) == x
  {
  }

  lemma {:induction false} Halved(x: nat)
    ensures Under(x % 2 == 1, x / 2) == x
  {
  }

  // Rows and columns exchanged: the bytes fill the block column by column.
  function Transposed<B>(s: seq<B>): (r: seq<B>)
    requires IsBlock(s)
    ensures IsBlock(r)
  {
    [s[0], s[4], s[8], s[12], s[1], s[5], s[9], s[13], s[2], s[6], s[10], s[14], s[3], s[7], s[11], s[15]]
  }

  // LoadBytes
  function LoadBytes(data: seq<byte>): (s: seq<Bits>)
    requires |data| == 16
    ensures IsBlock(s)
  {
    Transposed(MapAll(ToBits, data))
  }

  // SaveBytes
  function SaveBytes(s: seq<Bits>): (data: seq<byte>)
    requires IsBlock(s)
    ensures |data| == 16
  {
    MapAll(FromBits, Transposed(s))
  }

  lemma {:induction false} TransposedTwice<B>(s: seq<B>)
    requires IsBlock(s)
    ensures Transposed(Transposed(s)) == s
  {
  }

  lemma {:induction false} LoadSave(data: seq<byte>)
    requires |data| == 16
    ensures SaveBytes(LoadBytes(data)) == data
  {
    var t := MapAll(ToBits, data);
    TransposedTwice(t);
    forall i | 0 <= i < 16
      ensures FromBits(t[i]) == data[i]
    {
      ByteRoundTrip(data[i]);
    }
  }

  lemma {:induction false} SaveLoad(s: seq<Bits>)
    requires IsBlock(s)
    ensures LoadBytes(SaveBytes(s)) == s
  {
    var t := Transposed(s);
    var u := MapAll(FromBits, t);
    forall i | 0 <= i < 16
      ensures ToBits(u[i]) == t[i]
    {
      BitsRoundTrip(t[i]);
    }
    assert MapAll(ToBits, u) == t;
    TransposedTwice(s);
  }

  // ---- rounds ----

  type Block = s: seq<Bits> | IsBlock(s) witness seq(16, i => ZERO)

  // AddRoundKey
  function AddRoundKey(s: Block, k: Block): Block { AddAll(BITS, s, k) }

  // What each step of the round loops does to the state.
  function Forward(s: Block): Block { ShiftRows(SubBytes(s, false)) }

  function Backward(s: Block): Block { SubBytes(InvShiftRows(s), true) }

  function MixForward(s: Block): Block { MixColumns(BITS, MultX, s, false) }

  function MixBackward(s: Block): Block { MixColumns(BITS, MultX, s, true) }

  const AES: Layers<Block, Block> := Layers(Forward, Backward, MixForward, MixBackward, AddRoundKey)

  lemma {:induction false} AesLayersUndone()
    ensures AES.Undone()
  {
    BitsAreBytes();
    forall s: Block, k: Block
      ensures AES.UndoneAt(s, k)
    {
      SubBytesUndone(s);
      SubBytesUndone(InvShiftRows(s));
      ShiftRowsUndone(s);
      ShiftRowsUndone(SubBytes(s, false));
      MixColumnsUndone(BITS, MultX, s);
      AddAllTwice(BITS, MultX, s, k);
    }
  }

  function EncryptBlock(rounds: seq<Block>, plain: seq<byte>): (cipher: seq<byte>)
    requires |rounds| >= 2 && |plain| == 16
    ensures |cipher| == 16
  {
    SaveBytes(AES.Cipher(rounds, LoadBytes(plain)))
  }

  function DecryptBlock(rounds: seq<Block>, cipher: seq<byte>): (plain: seq<byte>)
    requires |rounds| >= 2 && |cipher| == 16
    ensures |plain| == 16
  {
    SaveBytes(AES.InvCipher(rounds, LoadBytes(cipher)))
  }

  // AES_encrypt
  method Encrypt(rounds: seq<Block>, plain: seq<byte>) returns (cipher: seq<byte>)
    requires |rounds| >= 2 && |plain| == 16
    ensures cipher == EncryptBlock(rounds, plain)
  {
    var s := EncryptState(AES, rounds, LoadBytes(plain));
    cipher := SaveBytes(s);
  }

  // AES_decrypt
  method Decrypt(rounds: seq<Block>, cipher: seq<byte>) returns (plain: seq<byte>)
    requires |rounds| >= 2 && |cipher| == 16
    ensures plain == DecryptBlock(rounds, cipher)
  {
    var s := DecryptState(AES, rounds, LoadBytes(cipher));
    plain := SaveBytes(s);
  }

  // Decryption undoes encryption and encryption decryption, for every array of round keys.
  lemma {:induction false} BlockRoundTrips(rounds: seq<Block>, block: seq<byte>)
    requires |rounds| >= 2 && |block| == 16
    ensures DecryptBlock(rounds, EncryptBlock(rounds, block)) == block
    ensures EncryptBlock(rounds, DecryptBlock(rounds, block)) == block
  {
    var s: Block := LoadBytes(block);
    AesLayersUndone();
    AES.RoundTrips(rounds, s);
    SaveLoad(AES.Cipher(rounds, s));
    SaveLoad(AES.InvCipher(rounds, s));
    LoadSave(block);
  }
}
