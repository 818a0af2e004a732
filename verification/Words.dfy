// Machine words and memory.
module Words {

  const WORD32: int := 0x1_0000_0000
  const WORD64: int := 0x1_0000_0000_0000_0000

  // Unsigned arithmetic keeps only the low bits. It is a ring homomorphism, so
  // wrapping a whole sum once is the same as wrapping after every operation.
  function W32(x: int): (r: int)
    ensures 0 <= r < WORD32
    ensures 0 <= x < WORD32 ==> r == x
  {
    x % WORD32
  }

  function W64(x: int): (r: int)
    ensures 0 <= r < WORD64
    ensures 0 <= x < WORD64 ==> r == x
  {
    x % WORD64
  }

  // Writes a sequence back through a pointer.
  method Store<T>(r: array<T>, t: seq<T>)
    requires r.Length == |t|
    modifies r
    ensures r[..] == t
  {
    forall i | 0 <= i < |t| {
      r[i] := t[i];
    }
  }

  lemma {:induction false} SameTail<T>(a: seq<T>, b: seq<T>, i: nat, j: nat)
    requires |a| == |b| && i <= j <= |a| && a[i..] == b[i..]
    ensures a[j..] == b[j..]
  {
    assert a[j..] == a[i..][j - i..];
  }
}
