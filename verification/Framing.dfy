// The chat connection: length-prefixed frames, the write buffer with one
// asynchronous write at a time, and the read buffer that collects frames.
module Framing {
  import opened Bytes
  import opened Wrappers

  // The message library as this code uses it: a type number per message, 0 if
  // it is not registered, and the content bytes.
  datatype Codec<!M(!new)> = Codec(typeOf: M -> nat, serialize: M -> seq<byte>, isKnown: nat -> bool, parse: (nat, seq<byte>) -> Option<M>)

  // Registered, short enough for the 32-bit length, and parsed back from its content.
  ghost predicate RoundTripsAt<M(!new)>(c: Codec<M>, m: M) {
    c.typeOf(m) != 0 ==>
      && c.typeOf(m) < 0x1_0000_0000 && c.isKnown(c.typeOf(m))
      && |c.serialize(m)| < 0xFFFF_FFF8
      && c.parse(c.typeOf(m), c.serialize(m)) == Some(m)
  }

  ghost predicate RoundTrips<M(!new)>(c: Codec<M>) { forall m :: RoundTripsAt(c, m) }

  // Msg::EncodeProtobuf2String
  function Encode<M(!new)>(c: Codec<M>, m: M): (b: seq<byte>) {
    var content := c.serialize(m);
    if c.typeOf(m) == 0 then [] else Word((|content| + 4) % 0x1_0000_0000) + Word(c.typeOf(m)) + content
  }

  // Msg::DecodeString2Protobuf: takes one frame off the buffer if it is there. A
  // frame of unknown type, or one that does not parse, is dropped.
  function Decode<M(!new)>(c: Codec<M>, msg: seq<byte>): (r: (Option<M>, seq<byte>))
    ensures |r.1| <= |msg| && (r.0.Some? ==> |r.1| < |msg|)
  {
    if |msg| < 8 then (None, msg)
    else
      var len, kind := FromWord(msg[..4]), FromWord(msg[4..8]);
      if |msg| - 4 < len then (None, msg)
      else
        // the length of the content is unsigned, so one below 4 takes everything
        var content := if len < 4 then msg[8..] else msg[8..4 + len];
        (if c.isKnown(kind) then c.parse(kind, content) else None, msg[4 + len..])
  }

  // The bytes of a frame: the number of bytes after the first four, the type, both
  // with the least significant byte first, and the content.
  lemma {:induction false} FrameBytes<M(!new)>(c: Codec<M>, m: M)
    requires c.typeOf(m) != 0
    ensures var f, len, kind := Encode(c, m), |c.serialize(m)| + 4, c.typeOf(m);
      && |f| == 4 + len
      && f[0] == len % 256 && f[1] == len / 0x100 % 256 && f[2] == len / 0x1_0000 % 256 && f[3] == len / 0x100_0000 % 256
      && f[4] == kind % 256 && f[5] == kind / 0x100 % 256 && f[6] == kind / 0x1_0000 % 256 && f[7] == kind / 0x100_0000 % 256
      && f[8..] == c.serialize(m)
  {
    var len := |c.serialize(m)| + 4;
    WordBytes(len % 0x1_0000_0000);
    LowBytes(len);
    WordBytes(c.typeOf(m));
  }

  lemma {:induction false} LowBytes(n: nat)
    ensures var w := n % 0x1_0000_0000;
      && w % 256 == n % 256 && w / 0x100 % 256 == n / 0x100 % 256
      && w / 0x1_0000 % 256 == n / 0x1_0000 % 256 && w / 0x100_0000 % 256 == n / 0x100_0000 % 256
  {
    var w, q := n % 0x1_0000_0000, n / 0x1_0000_0000;
    assert n == 0x1_0000_0000 * q + w;
    assert n / 0x100 == 0x100_0000 * q + w / 0x100;
    assert n / 0x1_0000 == 0x1_0000 * q + w / 0x1_0000;
    assert n / 0x100_0000 == 0x100 * q + w / 0x100_0000;
  }

  // And how any buffer is read: by the length in its first four bytes and the type
  // in the next four.
  lemma {:induction false} BufferBytes<M(!new)>(c: Codec<M>, msg: seq<byte>)
    ensures |msg| < 8 ==> Decode(c, msg) == (None, msg)
    ensures |msg| >= 8 ==>
      var len: int := msg[0] as int + 0x100 * msg[1] as int + 0x1_0000 * msg[2] as int + 0x100_0000 * msg[3] as int;
      var kind: int := msg[4] as int + 0x100 * msg[5] as int + 0x1_0000 * msg[6] as int + 0x100_0000 * msg[7] as int;
      if |msg| < 4 + len then Decode(c, msg) == (None, msg)
      else
        && Decode(c, msg).1 == msg[4 + len..]
        && Decode(c, msg).0 == if !c.isKnown(kind) then None else c.parse(kind, if len < 4 then msg[8..] else msg[8..4 + len])
  {
    if |msg| >= 8 {
      WordWeights(msg[..4]);
      WordWeights(msg[4..8]);
    }
  }

  // A frame in front is decoded, and exactly it is removed.
  lemma {:induction false} DecodeEncoded<M(!new)>(c: Codec<M>, m: M, rest: seq<byte>)
    requires RoundTripsAt(c, m) && c.typeOf(m) != 0
    ensures Decode(c, Encode(c, m) + rest) == (Some(m), rest)
  {
    var content := c.serialize(m);
    var len := |content| + 4;
    var msg := Encode(c, m) + rest;
    assert msg[..4] == Word(len) && msg[4..8] == Word(c.typeOf(m));
    assert msg[8..4 + len] == content && msg[4 + len..] == rest;
    WordRoundTrip(len);
    WordRoundTrip(c.typeOf(m));
  }

  // While a frame is incomplete nothing is decoded and nothing removed.
  lemma {:induction false} DecodeIncomplete<M(!new)>(c: Codec<M>, m: M, part: seq<byte>)
    requires RoundTripsAt(c, m) && c.typeOf(m) != 0
    requires |part| < |Encode(c, m)| && part == Encode(c, m)[..|part|]
    ensures Decode(c, part) == (None, part)
  {
    if |part| >= 8 {
      var len := |c.serialize(m)| + 4;
      var whole := Encode(c, m);
      assert part[..4] == whole[..4] == Word(len);
      WordRoundTrip(len);
    }
  }

  // ---- streams of frames ----

  ghost predicate AllKnown<M(!new)>(c: Codec<M>, msgs: seq<M>) {
    forall i :: 0 <= i < |msgs| ==> c.typeOf(msgs[i]) != 0
  }

  ghost function FramesOf<M(!new)>(c: Codec<M>, msgs: seq<M>): (f: seq<seq<byte>>)
    ensures |f| == |msgs| && forall i :: 0 <= i < |msgs| ==> f[i] == Encode(c, msgs[i])
  {
    seq(|msgs|, i requires 0 <= i < |msgs| => Encode(c, msgs[i]))
  }

  // All frames, one after the other.
  ghost function Flatten(f: seq<seq<byte>>): seq<byte> {
    if |f| == 0 then [] else f[0] + Flatten(f[1..])
  }

  ghost function Stream<M(!new)>(c: Codec<M>, msgs: seq<M>): seq<byte> { Flatten(FramesOf(c, msgs)) }

  // How many frames are complete within the first n bytes.
  ghost function Complete(f: seq<seq<byte>>, n: nat): (k: nat)
    ensures k <= |f|
  {
    if |f| == 0 || |f[0]| > n then 0 else 1 + Complete(f[1..], n - |f[0]|)
  }

  ghost function Arrived<M(!new)>(c: Codec<M>, msgs: seq<M>, n: nat): (k: nat)
    ensures k <= |msgs|
  {
    Complete(FramesOf(c, msgs), n)
  }

  ghost predicate IsPrefix(a: seq<byte>, b: seq<byte>) { |a| <= |b| && a == b[..|a|] }

  lemma {:induction false} FlattenConcat(a: seq<seq<byte>>, b: seq<seq<byte>>)
    ensures Flatten(a + b) == Flatten(a) + Flatten(b)
  {
    if |a| == 0 {
      assert a + b == b;
    } else {
      assert (a + b)[1..] == a[1..] + b;
      FlattenConcat(a[1..], b);
    }
  }

  lemma {:induction false} FlattenStep(f: seq<seq<byte>>, k: nat)
    requires k < |f|
    ensures Flatten(f[..k + 1]) == Flatten(f[..k]) + f[k]
    ensures Flatten(f) == Flatten(f[..k]) + (f[k] + Flatten(f[k + 1..]))
  {
    assert f[..k + 1] == f[..k] + [f[k]] && f == f[..k] + f[k..];
    FlattenConcat(f[..k], [f[k]]);
    FlattenConcat(f[..k], f[k..]);
    assert f[k..][1..] == f[k + 1..] && Flatten([f[k]]) == f[k] + Flatten([f[k]][1..]);
  }

  // Taking whole frames off the front.
  lemma {:induction false} CompleteSplit(f: seq<seq<byte>>, k: nat, n: nat)
    requires k <= |f| && |Flatten(f[..k])| <= n
    ensures Complete(f, n) == k + Complete(f[k..], n - |Flatten(f[..k])|)
  {
    if k > 0 {
      assert f[..k][1..] == f[1..][..k - 1] && f[1..][k - 1..] == f[k..];
      CompleteSplit(f[1..], k - 1, n - |f[0]|);
    } else {
      assert f[0..] == f && f[..0] == [];
    }
  }

  lemma {:induction false} CompleteMore(f: seq<seq<byte>>, n: nat, n': nat)
    requires n <= n'
    ensures Complete(f, n) <= Complete(f, n')
  {
    if |f| > 0 && |f[0]| <= n {
      CompleteMore(f[1..], n - |f[0]|, n' - |f[0]|);
    }
  }

  // The complete frames fit, the next one does not.
  lemma {:induction false} CompleteFits(f: seq<seq<byte>>, n: nat)
    ensures var k := Complete(f, n); |Flatten(f[..k])| <= n && (k < |f| ==> n < |Flatten(f[..k + 1])|)
  {
    if |f| == 0 || |f[0]| > n {
      assert f[..0] == [];
      if |f| > 0 {
        FlattenStep(f, 0);
      }
    } else {
      var k := Complete(f, n) - 1;
      CompleteFits(f[1..], n - |f[0]|);
      assert f[..k + 1][1..] == f[1..][..k];
      if k + 1 < |f| {
        assert f[..k + 2][1..] == f[1..][..k + 1];
      }
    }
  }

  // What is left of the received bytes once k frames are taken off: the next frame
  // and more, or less than it.
  lemma {:induction false} Rest(f: seq<seq<byte>>, received: seq<byte>, k: nat, buffer: seq<byte>)
    requires IsPrefix(received, Flatten(f)) && k <= Complete(f, |received|)
    requires received == Flatten(f[..k]) + buffer
    ensures k < Complete(f, |received|) ==> k < |f| && IsPrefix(f[k], buffer) && received == Flatten(f[..k + 1]) + buffer[|f[k]|..]
    ensures k == Complete(f, |received|) < |f| ==> |buffer| < |f[k]| && IsPrefix(buffer, f[k])
    ensures k == Complete(f, |received|) == |f| ==> buffer == []
  {
    CompleteSplit(f, k, |received|);
    if k < |f| {
      FlattenStep(f, k);
      RestBytes(Flatten(f[..k]), f[k], Flatten(f[k + 1..]), received, buffer);
    } else {
      assert f[..k] == f;
    }
  }

  lemma {:induction false} RestBytes(before: seq<byte>, next: seq<byte>, after: seq<byte>, received: seq<byte>, buffer: seq<byte>)
    requires received == before + buffer && IsPrefix(received, before + (next + after))
    ensures |buffer| >= |next| ==> IsPrefix(next, buffer) && received == (before + next) + buffer[|next|..]
    ensures |buffer| < |next| ==> IsPrefix(buffer, next)
  {
    var whole := before + (next + after);
    assert buffer == whole[..|received|][|before|..] == (next + after)[..|buffer|];
  }

  // ---- one end of the connection ----

  class ClientItem<M(==,!new)> {
    const codec: Codec<M>
    var bufferRead: seq<byte>
    var bufferWrite: seq<byte>
    // bytes handed to the socket and not yet reported written
    var inFlight: seq<byte>
    ghost var written: seq<M>
    ghost var sent: seq<byte>
    ghost var received: seq<byte>
    ghost var delivered: seq<M>

    // What every callback keeps about the sending side: the bytes sent and the
    // bytes waiting are the frames written, and a write is under way exactly
    // while bytes wait.
    ghost predicate Sending()
      reads this
    {
      && RoundTrips(codec)
      && AllKnown(codec, written)
      && sent + bufferWrite == Stream(codec, written)
      && IsPrefix(inFlight, bufferWrite)
      && (inFlight == [] <==> bufferWrite == [])
    }

    // And about the receiving side, when the peer writes msgs.
    ghost predicate Receiving(msgs: seq<M>)
      reads this
    {
      && RoundTrips(codec)
      && AllKnown(codec, msgs)
      && IsPrefix(received, Stream(codec, msgs))
      && delivered == msgs[..Arrived(codec, msgs, |received|)]
      && received == Stream(codec, delivered) + bufferRead
    }

    constructor (codec: Codec<M>)
      requires RoundTrips(codec)
      ensures Sending() && this.codec == codec
      ensures written == [] && sent == [] && received == [] && delivered == []
      ensures forall msgs :: AllKnown(codec, msgs) ==> Receiving(msgs)
    {
      this.codec := codec;
      bufferRead, bufferWrite, inFlight := [], [], [];
      written, sent, received, delivered := [], [], [], [];
      new;
      forall msgs | AllKnown(codec, msgs)
        ensures Receiving(msgs)
      {
        NothingArrived(codec, msgs);
      }
    }

    // ClientItem::Write for a message of registered type
    method Write(m: M)
      requires Sending() && codec.typeOf(m) != 0
      modifies this`bufferWrite, this`inFlight, this`written
      ensures Sending() && written == old(written) + [m]
      ensures bufferWrite == old(bufferWrite) + Encode(codec, m)
      ensures inFlight == if old(bufferWrite) == [] then bufferWrite else old(inFlight)
    {
      var buf := Encode(codec, m);
      bufferWrite := bufferWrite + buf;
      if |buf| == |bufferWrite| {
        inFlight := buf;
      }
      StreamAppend(codec, written, m);
      WriteIn(sent, old(bufferWrite), buf);
      written := written + [m];
    }

    // ClientItem::OnWrite without an error: some of the bytes in flight are out,
    // the rest is handed over again.
    method OnWrite(bytesTransferred: nat)
      requires Sending() && bytesTransferred <= |inFlight|
      modifies this`bufferWrite, this`inFlight, this`sent
      ensures Sending() && sent == old(sent) + old(inFlight)[..bytesTransferred]
      ensures bufferWrite == old(bufferWrite)[bytesTransferred..]
    {
      WriteOut(sent, bufferWrite, inFlight, bytesTransferred);
      sent := sent + bufferWrite[..bytesTransferred];
      bufferWrite := bufferWrite[bytesTransferred..];
      inFlight := [];
      if |bufferWrite| > 0 {
        inFlight := bufferWrite;
      }
    }

    // ClientItem::OnRead without an error: every message that is now complete is delivered, in order.
    method OnRead(chunk: seq<byte>, ghost msgs: seq<M>)
      requires Receiving(msgs) && IsPrefix(received + chunk, Stream(codec, msgs))
      modifies this`bufferRead, this`received, this`delivered
      ensures Receiving(msgs) && received == old(received) + chunk
    {
      MoreToTake(codec, msgs, received, chunk, delivered, bufferRead);
      bufferRead := bufferRead + chunk;
      received := received + chunk;
      bufferRead, delivered := DecodeAll(codec, bufferRead, delivered, msgs, received);
    }
  }

  lemma {:induction false} WriteIn(sent: seq<byte>, buffer: seq<byte>, buf: seq<byte>)
    ensures sent + (buffer + buf) == (sent + buffer) + buf
    ensures forall inFlight :: IsPrefix(inFlight, buffer) ==> IsPrefix(inFlight, buffer + buf)
    ensures |buf| == |buffer + buf| ==> buffer == [] && buffer + buf == buf
  {
  }

  lemma {:induction false} WriteOut(sent: seq<byte>, buffer: seq<byte>, inFlight: seq<byte>, n: nat)
    requires IsPrefix(inFlight, buffer) && n <= |inFlight|
    ensures (sent + buffer[..n]) + buffer[n..] == sent + buffer && buffer[..n] == inFlight[..n]
  {
  }

  // Bytes that arrive wait behind those that already do.
  lemma {:induction false} MoreToTake<M(!new)>(c: Codec<M>, msgs: seq<M>, received: seq<byte>, chunk: seq<byte>, delivered: seq<M>, buffer: seq<byte>)
    requires received == Stream(c, delivered) + buffer && delivered == msgs[..Arrived(c, msgs, |received|)]
    ensures Taking(c, msgs, received + chunk, delivered, buffer + chunk)
  {
    CompleteMore(FramesOf(c, msgs), |received|, |received + chunk|);
    assert received + chunk == Stream(c, delivered) + (buffer + chunk);
  }

  // Lines 84-86: frames are taken off the buffer and delivered while there are any.
  method DecodeAll<M(==,!new)>(codec: Codec<M>, buffer: seq<byte>, ghost before: seq<M>, ghost msgs: seq<M>, ghost received: seq<byte>)
    returns (rest: seq<byte>, ghost delivered: seq<M>)
    requires RoundTrips(codec) && AllKnown(codec, msgs) && IsPrefix(received, Stream(codec, msgs))
    requires Taking(codec, msgs, received, before, buffer)
    ensures Taking(codec, msgs, received, delivered, rest) && |delivered| == Arrived(codec, msgs, |received|)
  {
    rest, delivered := buffer, before;
    var more := true;
    while more
      invariant Taking(codec, msgs, received, delivered, rest)
      invariant !more ==> |delivered| == Arrived(codec, msgs, |received|)
      decreases |rest|, more
    {
      TakeNext(codec, msgs, received, delivered, rest);
      var (msg, left) := Decode(codec, rest);
      rest := left;
      more := msg.Some?;
      if more {
        delivered := delivered + [msg.value];
      }
    }
  }

  // The messages delivered so far, and the bytes not yet decoded.
  ghost predicate Taking<M(!new)>(c: Codec<M>, msgs: seq<M>, received: seq<byte>, delivered: seq<M>, buffer: seq<byte>) {
    && |delivered| <= Arrived(c, msgs, |received|) && delivered == msgs[..|delivered|]
    && received == Stream(c, delivered) + buffer
  }

  lemma {:induction false} TakeNext<M(!new)>(c: Codec<M>, msgs: seq<M>, received: seq<byte>, delivered: seq<M>, buffer: seq<byte>)
    requires RoundTrips(c) && AllKnown(c, msgs) && IsPrefix(received, Stream(c, msgs))
    requires Taking(c, msgs, received, delivered, buffer)
    ensures var (msg, rest) := Decode(c, buffer);
      && (msg.Some? ==> Taking(c, msgs, received, delivered + [msg.value], rest))
      && (msg.None? ==> rest == buffer && |delivered| == Arrived(c, msgs, |received|))
  {
    var k := |delivered|;
    NextBytes(c, msgs, received, k, buffer);
    if k < Arrived(c, msgs, |received|) {
      TakeFrame(c, msgs[k], buffer);
      assert msgs[..k + 1] == delivered + [msgs[k]];
    } else if k < |msgs| {
      KeepPart(c, msgs[k], buffer);
    }
  }

  lemma {:induction false} StreamAppend<M(!new)>(c: Codec<M>, msgs: seq<M>, m: M)
    ensures Stream(c, msgs + [m]) == Stream(c, msgs) + Encode(c, m)
  {
    var f := FramesOf(c, msgs + [m]);
    assert f[..|msgs|] == FramesOf(c, msgs) && f[..|msgs| + 1] == f;
    FlattenStep(f, |msgs|);
  }

  lemma {:induction false} StreamPrefix<M(!new)>(c: Codec<M>, msgs: seq<M>, k: nat)
    requires k <= |msgs|
    ensures FramesOf(c, msgs)[..k] == FramesOf(c, msgs[..k])
  {
  }

  lemma {:induction false} NothingArrived<M(!new)>(c: Codec<M>, msgs: seq<M>)
    requires AllKnown(c, msgs)
    ensures Arrived(c, msgs, 0) == 0 && msgs[..0] == []
  {
  }

  // With k messages taken off, the buffer starts with the next frame, or holds only a part of it.
  lemma {:induction false} NextBytes<M(!new)>(c: Codec<M>, msgs: seq<M>, received: seq<byte>, k: nat, buffer: seq<byte>)
    requires IsPrefix(received, Stream(c, msgs))
    requires k <= Arrived(c, msgs, |received|) && received == Stream(c, msgs[..k]) + buffer
    ensures k < Arrived(c, msgs, |received|) ==>
      && IsPrefix(Encode(c, msgs[k]), buffer)
      && received == Stream(c, msgs[..k + 1]) + buffer[|Encode(c, msgs[k])|..]
    ensures k == Arrived(c, msgs, |received|) < |msgs| ==> |buffer| < |Encode(c, msgs[k])| && IsPrefix(buffer, Encode(c, msgs[k]))
    ensures k == |msgs| ==> buffer == []
  {
    StreamPrefix(c, msgs, k);
    Rest(FramesOf(c, msgs), received, k, buffer);
    if k < |msgs| {
      StreamPrefix(c, msgs, k + 1);
    }
  }

  lemma {:induction false} KeepPart<M(!new)>(c: Codec<M>, m: M, buffer: seq<byte>)
    requires RoundTrips(c) && c.typeOf(m) != 0 && |buffer| < |Encode(c, m)| && IsPrefix(buffer, Encode(c, m))
    ensures Decode(c, buffer) == (None, buffer)
  {
    assert RoundTripsAt(c, m);
    DecodeIncomplete(c, m, buffer);
  }

  lemma {:induction false} TakeFrame<M(!new)>(c: Codec<M>, m: M, buffer: seq<byte>)
    requires RoundTrips(c) && c.typeOf(m) != 0 && IsPrefix(Encode(c, m), buffer)
    ensures Decode(c, buffer) == (Some(m), buffer[|Encode(c, m)|..])
  {
    var f := Encode(c, m);
    assert RoundTripsAt(c, m);
    assert buffer == f + buffer[|f|..];
    DecodeEncoded(c, m, buffer[|f|..]);
  }

  // End to end: when the receiver has a prefix of what the sender has sent, it has
  // delivered exactly the written messages whose frames have fully arrived, and
  // all of them once every byte has.
  lemma {:induction false} EndToEnd<M(!new)>(c: Codec<M>, written: seq<M>, sent: seq<byte>, waiting: seq<byte>,
                                            received: seq<byte>, delivered: seq<M>)
    requires sent + waiting == Stream(c, written) && IsPrefix(received, sent)
    requires delivered == written[..Arrived(c, written, |received|)]
    ensures IsPrefix(received, Stream(c, written))
    ensures IsPrefix(Stream(c, delivered), received)
    ensures |delivered| < |written| ==> |received| < |Stream(c, written[..|delivered| + 1])|
    ensures waiting == [] && received == sent ==> delivered == written
  {
    var k, f := |delivered|, FramesOf(c, written);
    assert sent[..|received|] == Stream(c, written)[..|received|];
    CompleteFits(f, |received|);
    StreamPrefix(c, written, k);
    FlattenFront(f, k);
    if k < |written| {
      StreamPrefix(c, written, k + 1);
      assert k + 1 < |written| ==> FramesOf(c, written)[..k + 1] == FramesOf(c, written[..k + 1]);
    }
  }

  lemma {:induction false} FlattenFront(f: seq<seq<byte>>, k: nat)
    requires k <= |f|
    ensures IsPrefix(Flatten(f[..k]), Flatten(f))
    ensures k < |f| ==> |Flatten(f[..k + 1])| <= |Flatten(f)|
  {
    assert f == f[..k] + f[k..];
    FlattenConcat(f[..k], f[k..]);
    if k < |f| {
      FlattenStep(f, k);
    }
  }
}
