/** Cutting a TCP byte stream into boundary messages
    (rust/emane-core/src/boundary_message_manager.rs:404-455). */
module BoundaryStream {
  import opened Common
  import opened BoundaryCodec

  /** The complete frames at the front of a buffer, the bytes behind them, and whether those bytes
      begin with a length that no message can have. */
  datatype Framed = Framed(frames: seq<seq<byte>>, rest: seq<byte>, bad: bool)

  function FrameLength(buffer: seq<byte>): u32
    requires |buffer| >= HEADER_LENGTH
  {
    FromBe32(buffer[2..6])
  }

  predicate GoodLength(total: int) {
    HEADER_LENGTH <= total <= MAX_MESSAGE_LENGTH
  }

  /** The meaning of a whole stream: cut it at once, from the front. */
  function Split(stream: seq<byte>): Framed
    decreases |stream|
  {
    if |stream| < HEADER_LENGTH then Framed([], stream, false)
    else
      var total := FrameLength(stream);
      if !GoodLength(total) then Framed([], stream, true)
      else if |stream| < total then Framed([], stream, false)
      else Follow([stream[..total]], Split(stream[total..]))
  }

  function Follow(frames: seq<seq<byte>>, f: Framed): Framed {
    Framed(frames + f.frames, f.rest, f.bad)
  }

  /** The messages the handler sees: frames that do not decode are dropped. */
  function Dispatch(frames: seq<seq<byte>>): seq<Message> {
    if frames == [] then []
    else
      var n := |frames| - 1;
      var m := Decode(frames[n]);
      Dispatch(frames[..n]) + (if m.Ok? then [m.value] else [])
  }

  function Concat(parts: seq<seq<byte>>): seq<byte> {
    if parts == [] then [] else parts[0] + Concat(parts[1..])
  }

  /** More bytes never change the frames already cut; they continue from the bytes left over. */
  lemma {:induction false} SplitAppend(stream: seq<byte>, more: seq<byte>)
    ensures var s := Split(stream);
      Split(stream + more) == if s.bad then Framed(s.frames, s.rest + more, true)
                              else Follow(s.frames, Split(s.rest + more))
    decreases |stream|
  {
    var s := Split(stream);
    if |stream| < HEADER_LENGTH {
      assert Follow([], Split(stream + more)) == Split(stream + more);
    } else {
      var total := FrameLength(stream);
      assert (stream + more)[2..6] == stream[2..6];
      if !GoodLength(total) {
      } else if |stream| < total {
        assert Follow([], Split(stream + more)) == Split(stream + more);
      } else {
        assert (stream + more)[..total] == stream[..total];
        assert (stream + more)[total..] == stream[total..] + more;
        SplitAppend(stream[total..], more);
        var t := Split(stream[total..]);
        FollowTwice([stream[..total]], t.frames, Split(t.rest + more));
      }
    }
  }

  lemma FollowTwice(a: seq<seq<byte>>, b: seq<seq<byte>>, f: Framed)
    ensures Follow(a, Follow(b, f)) == Follow(a + b, f)
  {
    assert a + (b + f.frames) == (a + b) + f.frames;
  }

  /** No byte is lost or reordered. */
  lemma {:induction false} SplitConserves(stream: seq<byte>)
    ensures Concat(Split(stream).frames) + Split(stream).rest == stream
    decreases |stream|
  {
    if |stream| >= HEADER_LENGTH && GoodLength(FrameLength(stream)) && |stream| >= FrameLength(stream) {
      var total := FrameLength(stream);
      SplitConserves(stream[total..]);
      ConcatCons(stream[..total], Split(stream[total..]).frames, Split(stream[total..]).rest);
      assert stream == stream[..total] + stream[total..];
    }
  }

  lemma ConcatCons(first: seq<byte>, parts: seq<seq<byte>>, rest: seq<byte>)
    ensures Concat([first] + parts) + rest == first + (Concat(parts) + rest)
  {
    assert ([first] + parts)[1..] == parts;
  }

  /** Every frame is as long as its header says, and no complete frame is left behind. With
      `SplitConserves` this determines the split. */
  lemma {:induction false} SplitComplete(stream: seq<byte>)
    ensures var s := Split(stream);
      && (forall f :: f in s.frames ==> 6 <= |f| <= 64 * 1024 * 1024 && FrameLength(f) == |f|)
      && (s.bad <==> |s.rest| >= 6 && !(6 <= FrameLength(s.rest) <= 64 * 1024 * 1024))
      && (!s.bad ==> |s.rest| < 6 || |s.rest| < FrameLength(s.rest))
    decreases |stream|
  {
    if |stream| >= HEADER_LENGTH && GoodLength(FrameLength(stream)) && |stream| >= FrameLength(stream) {
      var total := FrameLength(stream);
      SplitComplete(stream[total..]);
      assert stream[..total][2..6] == stream[2..6];
    }
  }

  lemma DispatchAppend(frames: seq<seq<byte>>, frame: seq<byte>)
    ensures Dispatch(frames + [frame])
         == Dispatch(frames) + (if Decode(frame).Ok? then [Decode(frame).value] else [])
  {
    assert (frames + [frame])[..|frames|] == frames;
  }

  /** A frame that does not decode is passed over; those around it reach the handler. */
  lemma BadFrameSkipped(before: seq<seq<byte>>, frame: seq<byte>, after: seq<seq<byte>>)
    requires Decode(frame).Err?
    ensures Dispatch(before + [frame] + after) == Dispatch(before + after)
  {
    DispatchConcat(before + [frame], after);
    DispatchAppend(before, frame);
    DispatchConcat(before, after);
  }

  // ---------- the receive loop ----------

  /** The outcome of one read: bytes, a timeout that is retried, or the end of the connection
      (an error, or a cancelled endpoint). A read of no bytes is the end of the stream. */
  datatype Read = Data(bytes: seq<byte>) | Retry | Closed

  predicate Ends(r: Read) {
    r.Closed? || (r.Data? && r.bytes == [])
  }

  /** All bytes that arrive before the connection ends. */
  function Stream(arrived: seq<Read>): seq<byte> {
    if arrived == [] || Ends(arrived[0]) then []
    else if arrived[0].Retry? then Stream(arrived[1..])
    else arrived[0].bytes + Stream(arrived[1..])
  }

  /** The inner loop of `receive_stream`: dispatch and drain every complete frame. */
  method DrainFrames(buffer: seq<byte>) returns (messages: seq<Message>, received: seq<byte>, bad: bool)
    ensures messages == Dispatch(Split(buffer).frames)
    ensures received == Split(buffer).rest && bad == Split(buffer).bad
  {
    messages, received, bad := [], buffer, false;
    ghost var frames := [];
    assert Follow([], Split(buffer)) == Split(buffer);
    while true
      invariant Split(buffer) == Follow(frames, Split(received))
      invariant messages == Dispatch(frames) && !bad
      decreases |received|
    {
      if |received| < HEADER_LENGTH {
        break;
      }
      var total := FromBe32(received[2..6]);
      if !(HEADER_LENGTH <= total <= MAX_MESSAGE_LENGTH) {
        bad := true;
        break;
      }
      if |received| < total {
        break;
      }
      var frame := received[..total];
      var m := Decode(frame);
      if m.Ok? {
        messages := messages + [m.value];
      }
      DispatchAppend(frames, frame);
      FollowTwice(frames, [frame], Split(received[total..]));
      frames := frames + [frame];
      received := received[total..];
    }
    assert frames + [] == frames;
  }

  /** `receive_stream`: however the stream is cut into reads, the handler sees the messages of the
      whole stream cut at once, up to the same first bad length. */
  method ReceiveStream(arrived: seq<Read>) returns (messages: seq<Message>, received: seq<byte>, bad: bool)
    ensures messages == Dispatch(Split(Stream(arrived)).frames)
    ensures bad == Split(Stream(arrived)).bad
    ensures if bad then received <= Split(Stream(arrived)).rest else received == Split(Stream(arrived)).rest
  {
    messages, received, bad := [], [], false;
    ghost var seen: seq<byte> := [];
    var i := 0;
    assert arrived[0..] == arrived;
    while i < |arrived|
      invariant 0 <= i <= |arrived|
      invariant Stream(arrived) == seen + Stream(arrived[i..])
      invariant messages == Dispatch(Split(seen).frames) && received == Split(seen).rest
      invariant !bad && !Split(seen).bad
    {
      var read := arrived[i];
      StreamNext(arrived, i, seen);
      if read.Closed? || (read.Data? && read.bytes == []) {
        break;
      }
      if read.Data? {
        var more, left, stop := DrainFrames(received + read.bytes);
        ReadAppends(seen, read.bytes);
        messages, received, seen := messages + more, left, seen + read.bytes;
        if stop {
          BadStays(seen, Stream(arrived[i + 1..]));
          bad := true;
          return;
        }
      }
      i := i + 1;
    }
    assert Stream(arrived) == seen;
  }

  /** What one read adds to the bytes seen. */
  lemma StreamNext(arrived: seq<Read>, i: nat, seen: seq<byte>)
    requires i < |arrived|
    ensures var r, s := arrived[i], seen + Stream(arrived[i..]);
      && (Ends(r) ==> s == seen)
      && (r.Retry? ==> s == seen + Stream(arrived[i + 1..]))
      && (r.Data? && r.bytes != [] ==> s == (seen + r.bytes) + Stream(arrived[i + 1..]))
  {
    assert arrived[i..][1..] == arrived[i + 1..];
  }

  /** After a bad length nothing more is cut. */
  lemma BadStays(seen: seq<byte>, later: seq<byte>)
    requires Split(seen).bad
    ensures var s := Split(seen + later);
      s.bad && s.frames == Split(seen).frames && Split(seen).rest <= s.rest
  {
    SplitAppend(seen, later);
  }

  /** Splitting what was left over together with a new read continues the split of the stream. */
  lemma ReadAppends(seen: seq<byte>, bytes: seq<byte>)
    requires !Split(seen).bad
    ensures var s, t := Split(seen), Split(Split(seen).rest + bytes);
      && Split(seen + bytes).rest == t.rest && Split(seen + bytes).bad == t.bad
      && Dispatch(Split(seen + bytes).frames) == Dispatch(s.frames) + Dispatch(t.frames)
  {
    SplitAppend(seen, bytes);
    DispatchConcat(Split(seen).frames, Split(Split(seen).rest + bytes).frames);
  }

  lemma {:induction false} DispatchConcat(a: seq<seq<byte>>, b: seq<seq<byte>>)
    ensures Dispatch(a + b) == Dispatch(a) + Dispatch(b)
  {
    if b == [] {
      assert a + b == a;
    } else {
      var n := |b| - 1;
      assert a + b == (a + b[..n]) + [b[n]];
      DispatchConcat(a, b[..n]);
      DispatchAppend(a + b[..n], b[n]);
      assert b == b[..n] + [b[n]];
    }
  }

  // ---------- reads ----------

  /** The bytes of these reads, in order. */
  function DataOf(arrived: seq<Read>): seq<byte> {
    if arrived == [] then []
    else (match arrived[0] case Data(bytes) => bytes case _ => []) + DataOf(arrived[1..])
  }

  /** The stream is the bytes of all reads up to the first that ends the connection: a closed one, or
      one of no bytes. Timeouts do not matter. */
  lemma {:induction false} StreamExactly(arrived: seq<Read>, n: nat)
    requires n <= |arrived| && (n < |arrived| ==> arrived[n] == Closed || arrived[n] == Data([]))
    requires forall i :: 0 <= i < n ==> arrived[i] != Closed && arrived[i] != Data([])
    ensures Stream(arrived) == DataOf(arrived[..n])
  {
    if n > 0 {
      StreamExactly(arrived[1..], n - 1);
      assert arrived[..n][1..] == arrived[1..][..n - 1];
    }
  }

  // ---------- from sender to handler ----------

  function EncodeAll(messages: seq<Message>): seq<byte>
    requires forall i :: 0 <= i < |messages| ==> Encode(messages[i]).Ok?
  {
    if messages == [] then [] else Encode(messages[0]).value + EncodeAll(messages[1..])
  }

  lemma EncodedLength(m: Message)
    requires Encode(m).Ok?
    ensures var data := Encode(m).value; |data| >= HEADER_LENGTH && FrameLength(data) == |data| && GoodLength(|data|)
  {
    EncodeDecode(m);
  }

  /** An encoded message is cut off the stream as one frame. */
  lemma EncodedFrame(m: Message, more: seq<byte>)
    requires Encode(m).Ok?
    ensures Split(Encode(m).value + more) == Follow([Encode(m).value], Split(more))
  {
    var data := Encode(m).value;
    EncodedLength(m);
    assert (data + more)[2..6] == data[2..6];
    assert (data + more)[..|data|] == data && (data + more)[|data|..] == more;
  }

  lemma DispatchFirst(m: Message, frames: seq<seq<byte>>)
    requires Encode(m).Ok?
    ensures Dispatch([Encode(m).value] + frames) == [m] + Dispatch(frames)
  {
    EncodeDecode(m);
    DispatchConcat([Encode(m).value], frames);
    DispatchAppend([], Encode(m).value);
    assert [] + [Encode(m).value] == [Encode(m).value];
  }

  lemma EncodedFirst(m: Message, more: seq<byte>)
    requires Encode(m).Ok?
    ensures var s, later := Split(Encode(m).value + more), Split(more);
      Dispatch(s.frames) == [m] + Dispatch(later.frames) && s.rest == later.rest && s.bad == later.bad
  {
    EncodedFrame(m, more);
    DispatchFirst(m, Split(more).frames);
  }

  lemma {:induction false} EncodedStream(messages: seq<Message>)
    requires forall i :: 0 <= i < |messages| ==> Encode(messages[i]).Ok?
    ensures var s := Split(EncodeAll(messages));
      Dispatch(s.frames) == messages && s.rest == [] && !s.bad
  {
    if messages != [] {
      EncodedStream(messages[1..]);
      EncodedFirst(messages[0], EncodeAll(messages[1..]));
      assert [messages[0]] + messages[1..] == messages;
    }
  }

  /** End to end: messages sent one after another over TCP reach the handler complete, in order
      and unchanged, whatever reads the bytes arrive in. */
  method SendAndReceive(messages: seq<Message>, arrived: seq<Read>)
    returns (handled: seq<Message>, left: seq<byte>, bad: bool)
    requires forall i :: 0 <= i < |messages| ==> Encode(messages[i]).Ok?
    requires Stream(arrived) == EncodeAll(messages)
    ensures handled == messages && left == [] && !bad
  {
    EncodedStream(messages);
    handled, left, bad := ReceiveStream(arrived);
  }
}
