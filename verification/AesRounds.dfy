// The round structure of AES over any layers that can be undone.
module AesRounds {

  // sub: SubBytes and ShiftRows, mix: MixColumns, add: AddRoundKey, each with its inverse.
  datatype Layers<!S(!new), !K(!new)> = Layers(sub: S -> S, unsub: S -> S, mix: S -> S, unmix: S -> S, add: (S, K) -> S) {

    ghost predicate UndoneAt(s: S, k: K) {
      && unsub(sub(s)) == s && sub(unsub(s)) == s
      && unmix(mix(s)) == s && mix(unmix(s)) == s
      && add(add(s, k), k) == s
    }

    ghost predicate Undone() { forall s, k :: UndoneAt(s, k) }

    // The state after the first key and `round` whole rounds.
    function After(keys: seq<K>, round: nat, s: S): S
      requires round < |keys|
    {
      if round == 0 then add(s, keys[0]) else add(mix(sub(After(keys, round - 1, s))), keys[round])
    }

    // The cipher of FIPS 197, section 5.1.
    function Cipher(keys: seq<K>, s: S): S
      requires |keys| >= 2
    {
      add(sub(After(keys, |keys| - 2, s)), keys[|keys| - 1])
    }

    // The states up to the last round but one, one after the other.
    ghost predicate IsRun(states: seq<S>, keys: seq<K>, s: S) {
      && |states| == |keys| - 1 >= 1
      && states[0] == add(s, keys[0])
      && forall r {:trigger states[r]} :: 1 <= r < |states| ==> states[r] == add(mix(sub(states[r - 1])), keys[r])
    }

    lemma {:induction false} RunIsAfter(states: seq<S>, keys: seq<K>, s: S, r: nat)
      requires IsRun(states, keys, s) && r < |states|
      ensures After(keys, r, s) == states[r]
    {
      if r > 0 {
        RunIsAfter(states, keys, s, r - 1);
      }
    }

    lemma {:induction false} CipherOfRun(states: seq<S>, keys: seq<K>, s: S)
      requires IsRun(states, keys, s)
      ensures Cipher(keys, s) == add(sub(states[|states| - 1]), keys[|keys| - 1])
    {
      RunIsAfter(states, keys, s, |states| - 1);
    }

    lemma {:induction false} RunExists(keys: seq<K>, s: S) returns (states: seq<S>)
      requires |keys| >= 2
      ensures IsRun(states, keys, s)
    {
      states := seq(|keys| - 1, r requires 0 <= r < |keys| - 1 => After(keys, r, s));
    }

    // The state on the way back once the keys down to `round` have been taken off.
    function Before(keys: seq<K>, round: nat, s: S): S
      requires 1 <= round < |keys|
      decreases |keys| - round
    {
      if round == |keys| - 1 then add(s, keys[round]) else unmix(add(unsub(Before(keys, round + 1, s)), keys[round]))
    }

    // The inverse cipher of section 5.3.
    function InvCipher(keys: seq<K>, s: S): S
      requires |keys| >= 2
    {
      add(unsub(Before(keys, 1, s)), keys[0])
    }

    // Going back from a cipher block passes through the states of encryption.
    lemma {:induction false} BeforeIsAfter(keys: seq<K>, round: nat, s: S)
      requires Undone() && 1 <= round < |keys|
      ensures Before(keys, round, Cipher(keys, s)) == sub(After(keys, round - 1, s))
      decreases |keys| - round
    {
      if round == |keys| - 1 {
        assert UndoneAt(sub(After(keys, round - 1, s)), keys[round]);
      } else {
        BeforeIsAfter(keys, round + 1, s);
        var t := After(keys, round - 1, s);
        assert UndoneAt(After(keys, round, s), keys[round]);
        assert UndoneAt(mix(sub(t)), keys[round]);
        assert UndoneAt(sub(t), keys[round]);
      }
    }

    // And encrypting a decrypted block passes through the states of decryption.
    lemma {:induction false} AfterIsBefore(keys: seq<K>, round: nat, s: S)
      requires Undone() && round < |keys| - 1
      ensures After(keys, round, InvCipher(keys, s)) == unsub(Before(keys, round + 1, s))
    {
      if round == 0 {
        assert UndoneAt(unsub(Before(keys, 1, s)), keys[0]);
      } else {
        AfterIsBefore(keys, round - 1, s);
        var t := unsub(Before(keys, round + 1, s));
        assert UndoneAt(Before(keys, round, s), keys[round]);
        assert UndoneAt(add(t, keys[round]), keys[round]);
        assert UndoneAt(t, keys[round]);
      }
    }

    lemma {:induction false} RoundTrips(keys: seq<K>, s: S)
      requires Undone() && |keys| >= 2
      ensures InvCipher(keys, Cipher(keys, s)) == s
      ensures Cipher(keys, InvCipher(keys, s)) == s
    {
      var n := |keys| - 1;
      BeforeIsAfter(keys, 1, s);
      assert UndoneAt(After(keys, 0, s), keys[0]);
      assert UndoneAt(s, keys[0]);
      AfterIsBefore(keys, n - 1, s);
      assert UndoneAt(Before(keys, n, s), keys[n]);
      assert UndoneAt(s, keys[n]);
    }
  }

  // The loop of AES_encrypt.
  method EncryptState<S(!new), K(!new)>(l: Layers<S, K>, rounds: seq<K>, s0: S) returns (s: S)
    requires |rounds| >= 2
    ensures s == l.Cipher(rounds, s0)
  {
    var nrounds := |rounds| - 1;
    s := l.add(s0, rounds[0]);
    for round := 1 to nrounds
      invariant s == l.After(rounds, round - 1, s0)
    {
      s := l.sub(s);
      s := l.mix(s);
      s := l.add(s, rounds[round]);
    }
    s := l.sub(s);
    s := l.add(s, rounds[nrounds]);
  }

  // The loop of AES_decrypt.
  method DecryptState<S(!new), K(!new)>(l: Layers<S, K>, rounds: seq<K>, s0: S) returns (s: S)
    requires |rounds| >= 2
    ensures s == l.InvCipher(rounds, s0)
  {
    var nrounds := |rounds| - 1;
    s := l.add(s0, rounds[nrounds]);
    for round := 1 to nrounds
      invariant s == l.Before(rounds, nrounds - round + 1, s0)
    {
      s := l.unsub(s);
      s := l.add(s, rounds[nrounds - round]);
      s := l.unmix(s);
    }
    s := l.unsub(s);
    s := l.add(s, rounds[0]);
  }
}
