// The scratch space of the multi-point multiplication: a stack of frames,
// each a bump allocator over one malloc'ed block. size_t is 64 bits wide.
module Scratch {
  import opened Wrappers
  import opened Words

  const ALIGNMENT: nat := 16
  const SCRATCH_MAX_FRAMES: nat := 5
  const SIZE_MAX: nat := 0xFFFF_FFFF_FFFF_FFFF

  function Sum(s: seq<nat>): nat {
    if |s| == 0 then 0 else Sum(s[..|s| - 1]) + s[|s| - 1]
  }

  // secp256k1_scratch_alloc's rounding to the alignment, in size_t arithmetic.
  function RoundUp(size: nat): (r: nat)
    ensures r % ALIGNMENT == 0
    ensures size + ALIGNMENT - 1 <= SIZE_MAX ==> size <= r <= size + ALIGNMENT - 1
  {
    (W64(size + ALIGNMENT - 1) / ALIGNMENT) * ALIGNMENT
  }

  // The room a new frame may take, given the bytes already in frames: what is
  // left below the limit after 16 bytes for every object. A limit that is
  // already exceeded leaves the difference modulo 2^64.
  function Room(maxSize: nat, used: nat, objects: nat): (r: nat)
    ensures used <= maxSize <= SIZE_MAX ==> r == if used + 16 * objects < maxSize then maxSize - used - 16 * objects else 0
    ensures maxSize < used <= SIZE_MAX ==>
      r == if used + 16 * objects < maxSize + 0x1_0000_0000_0000_0000 then maxSize + 0x1_0000_0000_0000_0000 - used - 16 * objects else 0
  {
    if W64(maxSize - used) <= objects * ALIGNMENT then 0
    else W64(maxSize - used) - objects * ALIGNMENT
  }

  // Rounding size up and adding it to the offset both stay below 2^64.
  predicate NoWrap(size: nat, offset: nat) {
    size + ALIGNMENT - 1 <= SIZE_MAX && offset + RoundUp(size) <= SIZE_MAX
  }

  class ScratchSpace {
    var frame: nat
    const maxSize: nat
    const offset: array<nat>
    const frameSize: array<nat>
    // The requests served from each live frame: where they start and how long they are.
    ghost var served: seq<seq<(nat, nat)>>

    ghost predicate Valid()
      reads this, offset, frameSize
    {
      && maxSize <= SIZE_MAX
      && offset != frameSize
      && offset.Length == frameSize.Length == SCRATCH_MAX_FRAMES
      && frame <= SCRATCH_MAX_FRAMES
      && |served| == frame
      && (forall i :: 0 <= i < frame ==> frameSize[i] <= SIZE_MAX)
      && forall i :: 0 <= i < frame ==> FrameIsTidy(served[i], offset[i], frameSize[i])
    }

    // The bytes of all live frames.
    function Total(): nat
      requires frame <= frameSize.Length
      reads this, frameSize
    {
      Sum(frameSize[..frame])
    }

    ghost predicate WithinLimit()
      requires frame <= frameSize.Length
      reads this, frameSize
    {
      Total() <= maxSize
    }

    // secp256k1_scratch_create
    constructor (maxSize: nat)
      requires maxSize <= SIZE_MAX
      ensures Valid() && fresh(offset) && fresh(frameSize)
      ensures this.maxSize == maxSize && frame == 0 && WithinLimit()
    {
      this.maxSize := maxSize;
      frame := 0;
      offset := new nat[SCRATCH_MAX_FRAMES](_ => 0);
      frameSize := new nat[SCRATCH_MAX_FRAMES](_ => 0);
      served := [];
    }

    // secp256k1_scratch_max_allocation
    method MaxAllocation(objects: nat) returns (r: nat)
      requires Valid()
      ensures r == Room(maxSize, Total(), objects)
      ensures WithinLimit() ==> r == if Total() + 16 * objects < maxSize then maxSize - Total() - 16 * objects else 0
    {
      var used := 0;
      for i := 0 to frame
        invariant used == Sum(frameSize[..i])
      {
        assert frameSize[..i + 1][..i] == frameSize[..i];
        used := used + frameSize[i];
      }
      if W64(maxSize - used) <= objects * ALIGNMENT {
        return 0;
      }
      return W64(maxSize - used) - objects * ALIGNMENT;
    }

    // secp256k1_scratch_allocate_frame; malloc says whether a block of a given size is to be had.
    method AllocateFrame(n: nat, objects: nat, malloc: nat -> bool) returns (ok: bool)
      requires Valid() && frame < SCRATCH_MAX_FRAMES && objects * ALIGNMENT <= SIZE_MAX
      modifies this, offset, frameSize
      ensures Valid()
      ensures ok <==> n <= Room(maxSize, old(Total()), objects) && malloc(n + objects * ALIGNMENT)
      // Within the limit a frame is granted exactly when its bytes and 16 for every object still fit.
      ensures old(WithinLimit()) && n > 0 ==> (ok <==> old(Total()) + n + 16 * objects <= maxSize && malloc(n + 16 * objects))
      ensures n == 0 ==> (ok <==> malloc(16 * objects))
      ensures !ok ==>
        && frame == old(frame) && served == old(served)
        && frameSize[..] == old(frameSize[..]) && offset[..] == old(offset[..])
      ensures ok ==>
        && frame == old(frame) + 1 && served == old(served) + [[]]
        && frameSize[..] == old(frameSize[..])[old(frame) := n + objects * ALIGNMENT]
        && offset[..] == old(offset[..])[old(frame) := 0]
        && Total() == old(Total()) + n + objects * ALIGNMENT
      // The limit is kept exactly when something was asked for, or the overhead alone still fits.
      ensures ok && old(WithinLimit()) ==>
        (WithinLimit() <==> n > 0 || objects * ALIGNMENT <= maxSize - old(Total()))
    {
      var room := MaxAllocation(objects);
      if n <= room {
        var bytes := n + objects * ALIGNMENT;
        if !malloc(bytes) {
          return false;
        }
        frameSize[frame] := bytes;
        offset[frame] := 0;
        served := served + [[]];
        frame := frame + 1;
        assert frameSize[..frame][..frame - 1] == old(frameSize[..frame]);
        return true;
      } else {
        return false;
      }
    }

    // secp256k1_scratch_deallocate_frame
    method DeallocateFrame()
      requires Valid() && frame > 0
      modifies this
      ensures Valid()
      ensures frame == old(frame) - 1 && served == old(served)[..old(frame) - 1]
      ensures Total() == old(Total()) - frameSize[frame]
    {
      assert frameSize[..frame][..frame - 1] == frameSize[..frame - 1];
      frame := frame - 1;
      served := served[..frame];
    }

    // secp256k1_scratch_alloc: the start of the piece inside the topmost frame.
    method Alloc(size: nat) returns (ret: Option<nat>)
      requires Valid() && size <= SIZE_MAX
      modifies this, offset
      ensures frame == old(frame)
      ensures frame == 0 ==> ret == None
      ensures frame > 0 ==> (ret.Some? <==> W64(RoundUp(size) + old(offset[frame - 1])) <= frameSize[frame - 1])
      ensures ret == None ==> Valid() && served == old(served) && offset[..] == old(offset[..])
      ensures ret.Some? ==>
        && ret.value == old(offset[frame - 1])
        && offset[..] == old(offset[..])[frame - 1 := W64(old(offset[frame - 1]) + RoundUp(size))]
        && served == old(served)[frame - 1 := old(served)[frame - 1] + [(ret.value, size)]]
      // The piece lies in the frame, clear of the others, exactly when neither the
      // rounding nor the sum wraps around.
      ensures ret.Some? ==> (Valid() <==> NoWrap(size, ret.value))
    {
      var rounded := RoundUp(size);
      if frame == 0 || W64(rounded + offset[frame - 1]) > frameSize[frame - 1] {
        return None;
      }
      var start := offset[frame - 1];
      ret := Some(start);
      offset[frame - 1] := W64(start + rounded);
      served := served[frame - 1 := served[frame - 1] + [(start, size)]];
      if NoWrap(size, start) {
        ServeKeepsTidy(old(served)[frame - 1], start, frameSize[frame - 1], size, rounded);
      } else {
        ServeBreaksTidy(old(served)[frame - 1], start, frameSize[frame - 1], size);
        assert served[frame - 1] == old(served)[frame - 1] + [(start, size)];
      }
    }
  }

  // The pieces handed out lie one after the other below the offset, inside the frame.
  ghost predicate FrameIsTidy(pieces: seq<(nat, nat)>, offset: nat, size: nat) {
    && offset <= size
    && (forall k :: 0 <= k < |pieces| ==> pieces[k].0 + pieces[k].1 <= offset)
    && (forall j, k :: 0 <= j < k < |pieces| ==> pieces[j].0 + pieces[j].1 <= pieces[k].0)
  }

  lemma {:induction false} ServeKeepsTidy(pieces: seq<(nat, nat)>, offset: nat, frameSize: nat, size: nat, rounded: nat)
    requires FrameIsTidy(pieces, offset, frameSize)
    requires size <= rounded && offset + rounded <= frameSize
    ensures FrameIsTidy(pieces + [(offset, size)], offset + rounded, frameSize)
  {
  }

  lemma {:induction false} ServeBreaksTidy(pieces: seq<(nat, nat)>, offset: nat, frameSize: nat, size: nat)
    requires FrameIsTidy(pieces, offset, frameSize) && size <= SIZE_MAX && frameSize <= SIZE_MAX
    requires !NoWrap(size, offset)
    ensures !FrameIsTidy(pieces + [(offset, size)], W64(offset + RoundUp(size)), frameSize)
  {
    var all := pieces + [(offset, size)];
    assert all[|pieces|] == (offset, size);
  }

  // A request for nothing is granted although the alignment overhead does not fit.
  lemma {:induction false} EmptyRequestOverruns()
    ensures var n, maxSize, objects := 0, 8, 1;
      n <= Room(maxSize, 0, objects) && n + objects * ALIGNMENT > maxSize
  {
  }

  // A request close to 2^64 is rounded to nothing, so the piece handed out is too small.
  lemma {:induction false} HugeRequestWraps()
    ensures RoundUp(SIZE_MAX) == 0 && !NoWrap(SIZE_MAX, 0)
  {
  }
}
