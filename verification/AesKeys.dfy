// The key expansion of FIPS 197, section 5.2, over any arithmetic of bytes. The
// columns of the round keys never meet, so the blocks are kept as a row of
// columns: block k holds words 4k to 4k+3.
module AesKeys {
  import opened Arith

  // A column, row 0 first.
  datatype Word<B> = Word(r0: B, r1: B, r2: B, r3: B)
  {
    function Row(r: nat): B
      requires r < 4
    {
      if r == 0 then r0 else if r == 1 then r1 else if r == 2 then r2 else r3
    }
  }

  datatype KeyOps<!B(!new)> = KeyOps(zero: B, one: B, add: (B, B) -> B, or: (B, B) -> B, sub: B -> B, mx: B -> B) {

    // ---- the standard ----

    function AddWords(a: Word<B>, b: Word<B>): Word<B> { Word(add(a.r0, b.r0), add(a.r1, b.r1), add(a.r2, b.r2), add(a.r3, b.r3)) }

    function RotWord(a: Word<B>): Word<B> { Word(a.r1, a.r2, a.r3, a.r0) }

    function SubWord(a: Word<B>): Word<B> { Word(sub(a.r0), sub(a.r1), sub(a.r2), sub(a.r3)) }

    // x^(j-1)
    function RconByte(j: nat): B {
      if j <= 1 then one else mx(RconByte(j - 1))
    }

    function Rcon(j: nat): Word<B> { Word(RconByte(j), zero, zero, zero) }

    // What the word before it contributes to word i.
    function Transformed(t: Word<B>, nk: nat, i: nat): Word<B>
      requires nk > 0
    {
      if i % nk == 0 then AddWords(SubWord(RotWord(t)), Rcon(i / nk))
      else if nk > 6 && i % nk == 4 then SubWord(t)
      else t
    }

    // Word i of the expanded key.
    function Expanded(key: seq<Word<B>>, i: nat): Word<B>
      requires |key| > 0
      decreases i, 1
    {
      if i < |key| then key[i] else AddWords(Expanded(key, i - |key|), Contribution(key, i))
    }

    function Contribution(key: seq<Word<B>>, i: nat): Word<B>
      requires 0 < |key| <= i
      decreases i, 0
    {
      Transformed(Expanded(key, i - 1), |key|, i)
    }

    // ---- the code ----

    function OrWords(a: Word<B>, b: Word<B>): Word<B> { Word(or(a.r0, b.r0), or(a.r1, b.r1), or(a.r2, b.r2), or(a.r3, b.r3)) }

    function Zeros(): Word<B> { Word(zero, zero, zero, zero) }

    // KeySetupTransform: the rows move one position upwards and the round constant is added.
    function SetupTransform(s: Word<B>, rcon: Word<B>): Word<B> {
      Word(add(s.r1, rcon.r0), add(s.r2, rcon.r1), add(s.r3, rcon.r2), add(s.r0, rcon.r3))
    }

    // MultX on the round constant
    function MultXWord(r: Word<B>): Word<B> { Word(mx(r.r0), mx(r.r1), mx(r.r2), mx(r.r3)) }

    ghost predicate LawsAt(a: B, b: B) { or(zero, a) == a && add(a, b) == add(b, a) }

    ghost predicate Lawful() { mx(zero) == zero && forall a, b :: LawsAt(a, b) }

    lemma {:induction false} AddWordsComm(a: Word<B>, b: Word<B>)
      requires Lawful()
      ensures AddWords(a, b) == AddWords(b, a)
    {
      assert LawsAt(a.r0, b.r0) && LawsAt(a.r1, b.r1) && LawsAt(a.r2, b.r2) && LawsAt(a.r3, b.r3);
    }

    lemma {:induction false} OrZeros(a: Word<B>)
      requires Lawful()
      ensures OrWords(Zeros(), a) == a
    {
      assert LawsAt(a.r0, a.r0) && LawsAt(a.r1, a.r1) && LawsAt(a.r2, a.r2) && LawsAt(a.r3, a.r3);
    }
  }

  // ---- where a word stands ----

  // Where run j of nk words starts.
  function RunStart(nk: nat, j: nat): nat {
    if j == 0 then 0 else nk + RunStart(nk, j - 1)
  }

  lemma {:induction false} RunStartIsProduct(nk: nat, j: nat)
    ensures RunStart(nk, j) == nk * j
  {
    if j > 0 {
      RunStartIsProduct(nk, j - 1);
    }
  }

  // i is word pos of its run of nk words, and run j is the next to start.
  ghost predicate InRun(nk: nat, i: nat, j: nat, pos: nat) {
    pos < nk <= i && j > 0 && i == RunStart(nk, if pos == 0 then j else j - 1) + pos
  }

  lemma {:induction false} NextInRun(nk: nat, i: nat, j: nat, pos: nat)
    requires InRun(nk, i, j, pos)
    ensures InRun(nk, i + 1, if pos == 0 then j + 1 else j, if pos + 1 == nk then 0 else pos + 1)
  {
  }

  lemma {:induction false} PlaceInRun(nk: nat, i: nat, j: nat, pos: nat)
    requires InRun(nk, i, j, pos)
    ensures i % nk == pos && (pos == 0 ==> i / nk == j)
  {
    var run := if pos == 0 then j else j - 1;
    RunStartIsProduct(nk, run);
    DivModUnique(i, nk, run, pos);
  }

  // ---- the expansion ----

  // The words below i are in place, and nothing else is.
  ghost predicate FilledTo<B(!new)>(o: KeyOps<B>, words: seq<Word<B>>, key: seq<Word<B>>, i: nat)
    requires |key| > 0
  {
    forall j: nat :: j < |words| ==> words[j] == if j < i then o.Expanded(key, j) else o.Zeros()
  }

  // Lines 434-440: what pos says is done to the column and to the round constant.
  method TransformColumn<B(!new)>(o: KeyOps<B>, column0: Word<B>, rcon0: Word<B>, pos: nat, nk: nat, ghost i: nat, ghost j: nat)
    returns (column: Word<B>, rcon: Word<B>)
    requires o.Lawful() && InRun(nk, i, j, pos) && rcon0 == o.Rcon(j)
    ensures column == o.Transformed(column0, nk, i)
    ensures rcon == o.Rcon(if pos == 0 then j + 1 else j)
  {
    column, rcon := column0, rcon0;
    PlaceInRun(nk, i, j, pos);
    if pos == 0 {
      column := o.SubWord(column);
      column := o.SetupTransform(column, rcon);
      rcon := o.MultXWord(rcon);
    } else if nk > 6 && pos == 4 {
      column := o.SubWord(column);
    }
  }

  // Lines 415-429: zeros, then the key itself.
  method LoadKey<B(!new)>(o: KeyOps<B>, words: array<Word<B>>, key: seq<Word<B>>)
    requires o.Lawful() && 0 < |key| <= words.Length
    modifies words
    ensures FilledTo(o, words[..], key, |key|)
  {
    for i := 0 to words.Length
      invariant forall k :: 0 <= k < i ==> words[k] == o.Zeros()
    {
      words[i] := o.Zeros();
    }
    for i := 0 to |key|
      invariant FilledTo(o, words[..], key, i)
    {
      o.OrZeros(key[i]);
      words[i] := o.OrWords(words[i], key[i]);
    }
  }

  // KeySetupColumnMix: the word nk places back is added, and the column written out.
  method ColumnMix<B(!new)>(o: KeyOps<B>, words: array<Word<B>>, ghost key: seq<Word<B>>, nk: nat, i: nat, column0: Word<B>)
    returns (column: Word<B>)
    requires o.Lawful() && 0 < |key| == nk <= i < words.Length && FilledTo(o, words[..], key, i)
    requires column0 == o.Contribution(key, i)
    modifies words
    ensures FilledTo(o, words[..], key, i + 1) && column == o.Expanded(key, i)
  {
    o.AddWordsComm(column0, words[i - nk]);
    column := o.AddWords(column0, words[i - nk]);
    o.OrZeros(column);
    words[i] := o.OrWords(words[i], column);
  }

  // Before word i is made: pos is i modulo nk, the column holds the word before it.
  ghost predicate Expanding<B(!new)>(o: KeyOps<B>, words: seq<Word<B>>, key: seq<Word<B>>, i: nat, j: nat, pos: nat, rcon: Word<B>,
                                     column: Word<B>)
    requires |key| > 0
  {
    FilledTo(o, words, key, i) && InRun(|key|, i, j, pos) && rcon == o.Rcon(j) && column == o.Expanded(key, i - 1)
  }

  // Lines 433-442: one word.
  method NextWord<B(!new)>(o: KeyOps<B>, words: array<Word<B>>, ghost key: seq<Word<B>>, nk: nat, i: nat, ghost j0: nat, pos0: nat,
                           rcon0: Word<B>, column0: Word<B>) returns (ghost j: nat, pos: nat, rcon: Word<B>, column: Word<B>)
    requires o.Lawful() && 0 < |key| == nk && i < words.Length
    requires Expanding(o, words[..], key, i, j0, pos0, rcon0, column0)
    modifies words
    ensures Expanding(o, words[..], key, i + 1, j, pos, rcon, column)
  {
    column, rcon := TransformColumn(o, column0, rcon0, pos0, nk, i, j0);
    NextInRun(nk, i, j0, pos0);
    j := if pos0 == 0 then j0 + 1 else j0;
    pos := pos0 + 1;
    if pos == nk {
      pos := 0;
    }
    column := ColumnMix(o, words, key, nk, i, column);
  }

  // AES_setup
  method Setup<B(!new)>(o: KeyOps<B>, words: array<Word<B>>, key: seq<Word<B>>)
    requires o.Lawful() && 0 < |key| <= words.Length
    modifies words
    ensures forall j :: 0 <= j < words.Length ==> words[j] == o.Expanded(key, j)
  {
    var nk := |key|;
    LoadKey(o, words, key);
    var rcon := Word(o.one, o.zero, o.zero, o.zero);
    var pos: nat := 0;
    ghost var j := 1;
    var column := words[nk - 1];
    for i := nk to words.Length
      invariant Expanding(o, words[..], key, i, j, pos, rcon, column)
    {
      j, pos, rcon, column := NextWord(o, words, key, nk, i, j, pos, rcon, column);
    }
  }

  // ---- the round keys ----

  // Four columns side by side, row by row.
  function FourColumns<B>(a: Word<B>, b: Word<B>, c: Word<B>, d: Word<B>): (s: seq<B>)
    ensures |s| == 16
  {
    [a.r0, b.r0, c.r0, d.r0, a.r1, b.r1, c.r1, d.r1, a.r2, b.r2, c.r2, d.r2, a.r3, b.r3, c.r3, d.r3]
  }

  // The k-th round key.
  function RoundKey<B(!new)>(o: KeyOps<B>, key: seq<Word<B>>, k: nat): (s: seq<B>)
    requires |key| > 0
    ensures |s| == 16
  {
    FourColumns(o.Expanded(key, 4 * k), o.Expanded(key, 4 * k + 1), o.Expanded(key, 4 * k + 2), o.Expanded(key, 4 * k + 3))
  }

  // Row r of its column c.
  lemma {:induction false} RoundKeyRow<B(!new)>(o: KeyOps<B>, key: seq<Word<B>>, k: nat, c: nat, r: nat)
    requires |key| > 0 && c < 4 && r < 4
    ensures RoundKey(o, key, k)[4 * r + c] == o.Expanded(key, 4 * k + c).Row(r)
  {
  }

  ghost predicate AreRoundKeys<B(!new)>(o: KeyOps<B>, rounds: seq<seq<B>>, key: seq<Word<B>>)
    requires |key| > 0
  {
    forall k: nat :: k < |rounds| ==> rounds[k] == RoundKey(o, key, k)
  }

  method SetupRounds<B(!new)>(o: KeyOps<B>, key: seq<Word<B>>, nrounds: nat) returns (rounds: seq<seq<B>>)
    requires o.Lawful() && 0 < |key| <= 4 * (nrounds + 1)
    ensures |rounds| == nrounds + 1 && AreRoundKeys(o, rounds, key)
  {
    var words := new Word<B>[4 * (nrounds + 1)](_ => o.Zeros());
    Setup(o, words, key);
    rounds := [];
    for k := 0 to nrounds + 1
      invariant |rounds| == k && AreRoundKeys(o, rounds, key)
    {
      rounds := rounds + [FourColumns(words[4 * k], words[4 * k + 1], words[4 * k + 2], words[4 * k + 3])];
    }
  }
}
