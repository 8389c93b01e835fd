/** The boundary wire format (rust/emane-core/src/boundary_message_manager.rs:282-402). */
module BoundaryCodec {
  import opened Common

  const DATA_MESSAGE: u16 := 1
  const CONTROL_MESSAGE: u16 := 2
  const HEADER_LENGTH := 6
  const DATA_HEADER_LENGTH := 13
  const CONTROL_HEADER_LENGTH := 4
  const MAX_MESSAGE_LENGTH := 64 * 1024 * 1024

  datatype Control = Control(kind: u32, payload: seq<byte>)

  /** A packet without its creation time, which is not sent. */
  datatype Packet =
    Packet(source: u16, destination: u16, priority: byte, payload: seq<byte>, controls: seq<Control>)

  datatype Message = PacketMessage(packet: Packet) | ControlMessage(controls: seq<Control>)

  // ---------- control messages ----------

  predicate ControlFits(c: Control) {
    c.kind <= U16_MAX && |c.payload| <= U16_MAX
  }

  predicate ControlsFit(cs: seq<Control>) {
    |cs| <= U16_MAX && forall i :: 0 <= i < |cs| ==> ControlFits(cs[i])
  }

  function ControlBytes(c: Control): seq<byte>
    requires ControlFits(c)
  {
    Be16(c.kind) + Be16(|c.payload|) + c.payload
  }

  function Body(cs: seq<Control>): seq<byte>
    requires forall i :: 0 <= i < |cs| ==> ControlFits(cs[i])
  {
    if cs == [] then [] else ControlBytes(cs[0]) + Body(cs[1..])
  }

  function ControlsBytes(cs: seq<Control>): seq<byte>
    requires ControlsFit(cs)
  {
    Be16(|cs|) + Body(cs)
  }

  lemma {:induction false} BodyAppend(cs: seq<Control>, c: Control)
    requires ControlFits(c) && forall i :: 0 <= i < |cs| ==> ControlFits(cs[i])
    ensures Body(cs + [c]) == Body(cs) + ControlBytes(c)
  {
    if cs == [] {
      assert cs + [c] == [c] && [c][1..] == [];
    } else {
      assert (cs + [c])[1..] == cs[1..] + [c];
      BodyAppend(cs[1..], c);
    }
  }

  /** `encode_controls`: the bytes, or an error exactly when a count or a value is too wide. */
  method EncodeControls(cs: seq<Control>) returns (r: Result<seq<byte>>)
    ensures r == if ControlsFit(cs) then Ok(ControlsBytes(cs)) else Err
  {
    if |cs| > U16_MAX {
      return Err;
    }
    var data := Be16(|cs|);
    for i := 0 to |cs|
      invariant forall k :: 0 <= k < i ==> ControlFits(cs[k])
      invariant data == Be16(|cs|) + Body(cs[..i])
    {
      var c := cs[i];
      if c.kind > U16_MAX || |c.payload| > U16_MAX {
        return Err;
      }
      BodyAppend(cs[..i], c);
      assert cs[..i + 1] == cs[..i] + [c];
      data := data + Be16(c.kind);
      data := data + Be16(|c.payload|);
      data := data + c.payload;
    }
    assert cs[..|cs|] == cs;
    return Ok(data);
  }

  function DecodeBody(data: seq<byte>, count: nat): Result<seq<Control>>
    decreases count
  {
    if count == 0 then (if data == [] then Ok([]) else Err)
    else if |data| < 4 then Err
    else
      var length := FromBe16(data[2..4]);
      if |data| - 4 < length then Err
      else
        var rest := DecodeBody(data[4 + length..], count - 1);
        if rest.Err? then Err
        else Ok([Control(FromBe16(data[..2]), data[4..4 + length])] + rest.value)
  }

  function DecodeControls(data: seq<byte>): Result<seq<Control>> {
    if |data| < 2 then Err else DecodeBody(data[2..], FromBe16(data[..2]))
  }

  function Prepend(front: seq<Control>, r: Result<seq<Control>>): Result<seq<Control>> {
    if r.Err? then Err else Ok(front + r.value)
  }

  /** `decode_controls`, consuming the bytes in a loop. */
  method DecodeControlsLoop(bytes: seq<byte>) returns (r: Result<seq<Control>>)
    ensures r == DecodeControls(bytes)
  {
    if |bytes| < 2 {
      return Err;
    }
    var count := FromBe16(bytes[..2]);
    var data := bytes[2..];
    var controls := [];
    assert DecodeBody(data, count).Ok? ==> [] + DecodeBody(data, count).value == DecodeBody(data, count).value;
    for i := 0 to count
      invariant DecodeControls(bytes) == Prepend(controls, DecodeBody(data, count - i))
    {
      if |data| < 4 {
        return Err;
      }
      var kind := FromBe16(data[..2]);
      var length := FromBe16(data[2..4]);
      ghost var whole := data;
      data := data[4..];
      if |data| < length {
        return Err;
      }
      assert data[..length] == whole[4..4 + length] && data[length..] == whole[4 + length..];
      ghost var tail := DecodeBody(whole[4 + length..], count - i - 1);
      var c := Control(kind, data[..length]);
      assert tail.Ok? ==> controls + ([c] + tail.value) == (controls + [c]) + tail.value;
      controls := controls + [c];
      data := data[length..];
    }
    if data != [] {
      return Err;
    }
    assert controls + [] == controls;
    return Ok(controls);
  }

  /** Where the fields of an encoded control message lie. */
  lemma ControlFields(c: Control, rest: seq<byte>)
    requires ControlFits(c)
    ensures var data, n := ControlBytes(c) + rest, |c.payload|;
      && |data| == 4 + n + |rest| && FromBe16(data[..2]) == c.kind && FromBe16(data[2..4]) == n
      && data[4..4 + n] == c.payload && data[4 + n..] == rest
  {
  }

  lemma {:induction false} BodyRoundTrip(cs: seq<Control>)
    requires forall i :: 0 <= i < |cs| ==> ControlFits(cs[i])
    ensures DecodeBody(Body(cs), |cs|) == Ok(cs)
  {
    if cs != [] {
      BodyRoundTrip(cs[1..]);
      ControlFields(cs[0], Body(cs[1..]));
      assert [cs[0]] + cs[1..] == cs;
    }
  }

  /** Four header bytes and a payload are the encoding of what they decode to. */
  lemma ControlRebuilt(data: seq<byte>, n: nat)
    requires |data| >= 4 + n && FromBe16(data[2..4]) == n
    ensures ControlBytes(Control(FromBe16(data[..2]), data[4..4 + n])) + data[4 + n..] == data
  {
  }

  lemma {:induction false} BodyInverse(data: seq<byte>, count: nat)
    requires DecodeBody(data, count).Ok?
    ensures var cs := DecodeBody(data, count).value;
      && |cs| == count && (forall i :: 0 <= i < count ==> ControlFits(cs[i]))
      && Body(cs) == data
  {
    if count != 0 {
      var length := FromBe16(data[2..4]);
      var rest := data[4 + length..];
      BodyInverse(rest, count - 1);
      var cs := DecodeBody(data, count).value;
      assert cs[1..] == DecodeBody(rest, count - 1).value;
      ControlRebuilt(data, length);
    }
  }

  lemma ControlsRoundTrip(cs: seq<Control>)
    requires ControlsFit(cs)
    ensures DecodeControls(ControlsBytes(cs)) == Ok(cs)
  {
    var data := ControlsBytes(cs);
    Be16RoundTrip(|cs|);
    assert data[..2] == Be16(|cs|) && data[2..] == Body(cs);
    BodyRoundTrip(cs);
  }

  lemma ControlsInverse(data: seq<byte>)
    requires DecodeControls(data).Ok?
    ensures ControlsFit(DecodeControls(data).value) && ControlsBytes(DecodeControls(data).value) == data
  {
    BodyInverse(data[2..], FromBe16(data[..2]));
    Be16Inverse(data[..2]);
    assert data == data[..2] + data[2..];
  }

  // ---------- messages ----------

  function PacketLength(p: Packet): nat
    requires ControlsFit(p.controls)
  {
    HEADER_LENGTH + DATA_HEADER_LENGTH + |p.payload| + |ControlsBytes(p.controls)|
  }

  function PacketBytes(p: Packet): seq<byte>
    requires ControlsFit(p.controls) && PacketLength(p) <= MAX_MESSAGE_LENGTH
  {
    var controls := ControlsBytes(p.controls);
    Be16(DATA_MESSAGE) + Be32(PacketLength(p))
    + Be16(p.source) + Be16(p.destination)
    + Be32(|p.payload|) + Be32(|controls|) + [p.priority]
    + p.payload + controls
  }

  /** The byte building of `send_packet` and `send_control`. */
  function Encode(m: Message): Result<seq<byte>> {
    match m
    case PacketMessage(p) =>
      if !ControlsFit(p.controls) || PacketLength(p) > MAX_MESSAGE_LENGTH then Err
      else Ok(PacketBytes(p))
    case ControlMessage(cs) =>
      if !ControlsFit(cs) then Err
      else
        var controls := ControlsBytes(cs);
        var total := HEADER_LENGTH + CONTROL_HEADER_LENGTH + |controls|;
        if total > MAX_MESSAGE_LENGTH then Err
        else Ok(Be16(CONTROL_MESSAGE) + Be32(total) + Be32(|controls|) + controls)
  }

  /** `decode_message`. */
  function Decode(data: seq<byte>): Result<Message> {
    if |data| < HEADER_LENGTH then Err
    else
      var kind := FromBe16(data[..2]);
      var total := FromBe32(data[2..6]);
      if total != |data| || total > MAX_MESSAGE_LENGTH then Err
      else if kind == DATA_MESSAGE then DecodePacket(data)
      else if kind == CONTROL_MESSAGE then DecodeControl(data)
      else Err
  }

  function DecodePacket(data: seq<byte>): Result<Message> {
    if |data| < HEADER_LENGTH + DATA_HEADER_LENGTH then Err
    else
      var payloadLength := FromBe32(data[10..14]);
      var controlLength := FromBe32(data[14..18]);
      if HEADER_LENGTH + DATA_HEADER_LENGTH + payloadLength + controlLength != |data| then Err
      else
        var controls := DecodeControls(data[19 + payloadLength..]);
        if controls.Err? then Err
        else Ok(PacketMessage(Packet(FromBe16(data[6..8]), FromBe16(data[8..10]), data[18],
                                     data[19..19 + payloadLength], controls.value)))
  }

  function DecodeControl(data: seq<byte>): Result<Message> {
    if |data| < HEADER_LENGTH + CONTROL_HEADER_LENGTH then Err
    else if HEADER_LENGTH + CONTROL_HEADER_LENGTH + FromBe32(data[6..10]) != |data| then Err
    else
      var controls := DecodeControls(data[10..]);
      if controls.Err? then Err else Ok(ControlMessage(controls.value))
  }

  /** Where the fields of an encoded packet lie. */
  lemma PacketFields(p: Packet)
    requires Encode(PacketMessage(p)).Ok?
    ensures var data := Encode(PacketMessage(p)).value;
      && |data| == PacketLength(p)
      && data[..2] == Be16(DATA_MESSAGE) && data[2..6] == Be32(|data|)
      && data[6..8] == Be16(p.source) && data[8..10] == Be16(p.destination)
      && data[10..14] == Be32(|p.payload|) && data[14..18] == Be32(|ControlsBytes(p.controls)|)
      && data[18] == p.priority && data[19..19 + |p.payload|] == p.payload
      && data[19 + |p.payload|..] == ControlsBytes(p.controls)
  {
  }

  /** The layout of a packet: its kind 1, total length, addresses, payload length, controls length,
      priority, payload and controls. */
  lemma PacketLayout(p: Packet)
    requires Encode(PacketMessage(p)).Ok?
    ensures var data, n, c := Encode(PacketMessage(p)).value, |p.payload|, ControlsBytes(p.controls);
      && |data| == 19 + n + |c|
      && NumberAt(data, 0, 2) == 1 && NumberAt(data, 2, 4) == |data|
      && NumberAt(data, 6, 2) == p.source && NumberAt(data, 8, 2) == p.destination
      && NumberAt(data, 10, 4) == n && NumberAt(data, 14, 4) == |c|
      && data[18] == p.priority && data[19..19 + n] == p.payload && data[19 + n..] == c
  {
    var data := Encode(PacketMessage(p)).value;
    PacketFields(p);
    assert data[0..2] == data[..2];
    Number16At(data, 0, DATA_MESSAGE);
    Number32At(data, 2, |data|);
    Number16At(data, 6, p.source);
    Number16At(data, 8, p.destination);
    Number32At(data, 10, |p.payload|);
    Number32At(data, 14, |ControlsBytes(p.controls)|);
  }

  /** The layout of a control message: its kind 2, total length, controls length and controls. */
  lemma ControlMessageLayout(cs: seq<Control>)
    requires Encode(ControlMessage(cs)).Ok?
    ensures var data, c := Encode(ControlMessage(cs)).value, ControlsBytes(cs);
      && |data| == 10 + |c|
      && NumberAt(data, 0, 2) == 2 && NumberAt(data, 2, 4) == |data| && NumberAt(data, 6, 4) == |c|
      && data[10..] == c
  {
    var data, c := Encode(ControlMessage(cs)).value, ControlsBytes(cs);
    assert data[0..2] == Be16(CONTROL_MESSAGE) && data[2..6] == Be32(|data|) && data[6..10] == Be32(|c|);
    Number16At(data, 0, CONTROL_MESSAGE);
    Number32At(data, 2, |data|);
    Number32At(data, 6, |c|);
  }

  /** The layout of the controls: their number, and for each its kind, length and payload. */
  lemma ControlsLayout(cs: seq<Control>)
    requires ControlsFit(cs)
    ensures NumberAt(ControlsBytes(cs), 0, 2) == |cs| && ControlsBytes(cs)[2..] == Body(cs)
    ensures cs != [] ==>
      var c, body := cs[0], Body(cs);
      && |body| == 4 + |c.payload| + |Body(cs[1..])|
      && NumberAt(body, 0, 2) == c.kind && NumberAt(body, 2, 2) == |c.payload|
      && body[4..4 + |c.payload|] == c.payload && body[4 + |c.payload|..] == Body(cs[1..])
  {
    assert ControlsBytes(cs)[0..2] == Be16(|cs|);
    Number16At(ControlsBytes(cs), 0, |cs|);
    if cs != [] {
      var c, body := cs[0], Body(cs);
      assert body[0..2] == Be16(c.kind) && body[2..4] == Be16(|c.payload|);
      Number16At(body, 0, c.kind);
      Number16At(body, 2, |c.payload|);
    }
  }

  predicate AllNarrow(cs: seq<Control>) {
    |cs| < 0x1_0000 && forall i :: 0 <= i < |cs| ==> cs[i].kind < 0x1_0000 && |cs[i].payload| < 0x1_0000
  }

  /** The bytes of these control messages, each with four more. */
  function ControlsSize(cs: seq<Control>): nat {
    if cs == [] then 0 else 4 + |cs[0].payload| + ControlsSize(cs[1..])
  }

  lemma {:induction false} BodySize(cs: seq<Control>)
    requires forall i :: 0 <= i < |cs| ==> ControlFits(cs[i])
    ensures |Body(cs)| == ControlsSize(cs)
  {
    if cs != [] {
      BodySize(cs[1..]);
    }
  }

  /** What can be sent: at most 65535 control messages, with kinds and lengths of 16 bits, and at most
      64 MiB in all. */
  lemma EncodeExactly(m: Message)
    ensures Encode(m).Ok? <==>
      && AllNarrow(if m.PacketMessage? then m.packet.controls else m.controls)
      && (if m.PacketMessage? then 21 + |m.packet.payload| + ControlsSize(m.packet.controls)
          else 12 + ControlsSize(m.controls)) <= 64 * 1024 * 1024
  {
    var cs := if m.PacketMessage? then m.packet.controls else m.controls;
    if ControlsFit(cs) {
      BodySize(cs);
    }
  }

  lemma PacketRoundTrip(p: Packet)
    requires Encode(PacketMessage(p)).Ok?
    ensures Decode(Encode(PacketMessage(p)).value) == Ok(PacketMessage(p))
  {
    PacketFields(p);
    Be32RoundTrip(PacketLength(p));
    Be32RoundTrip(|p.payload|);
    Be32RoundTrip(|ControlsBytes(p.controls)|);
    ControlsRoundTrip(p.controls);
  }

  lemma ControlMessageRoundTrip(cs: seq<Control>)
    requires Encode(ControlMessage(cs)).Ok?
    ensures Decode(Encode(ControlMessage(cs)).value) == Ok(ControlMessage(cs))
  {
    var data := Encode(ControlMessage(cs)).value;
    var controls := ControlsBytes(cs);
    assert data[..2] == Be16(CONTROL_MESSAGE) && data[2..6] == Be32(|data|);
    assert data[6..10] == Be32(|controls|) && data[10..] == controls;
    Be32RoundTrip(|data|);
    Be32RoundTrip(|controls|);
    ControlsRoundTrip(cs);
  }

  /** Whatever can be sent is received as it was. */
  lemma EncodeDecode(m: Message)
    requires Encode(m).Ok?
    ensures Decode(Encode(m).value) == Ok(m)
  {
    match m
    case PacketMessage(p) => PacketRoundTrip(p);
    case ControlMessage(cs) => ControlMessageRoundTrip(cs);
  }

  /** The fields of a packet, put together again. */
  lemma PacketSlices(data: seq<byte>, n: nat)
    requires |data| >= 19 + n
    ensures data[..2] + data[2..6] + data[6..8] + data[8..10] + data[10..14] + data[14..18]
            + [data[18]] + data[19..19 + n] + data[19 + n..] == data
  {
  }

  /** The numbers of a packet's header, encoded again. */
  lemma PacketNumbers(data: seq<byte>)
    requires |data| >= 19
    ensures Be16(FromBe16(data[..2])) == data[..2] && Be32(FromBe32(data[2..6])) == data[2..6]
    ensures Be16(FromBe16(data[6..8])) == data[6..8] && Be16(FromBe16(data[8..10])) == data[8..10]
    ensures Be32(FromBe32(data[10..14])) == data[10..14] && Be32(FromBe32(data[14..18])) == data[14..18]
  {
    Be16Inverse(data[..2]);
    Be32Inverse(data[2..6]);
    Be16Inverse(data[6..8]);
    Be16Inverse(data[8..10]);
    Be32Inverse(data[10..14]);
    Be32Inverse(data[14..18]);
  }

  /** Bytes whose fields are those of a packet are its encoding. */
  lemma PacketRebuilt(data: seq<byte>, p: Packet)
    requires ControlsFit(p.controls) && PacketLength(p) == |data| <= MAX_MESSAGE_LENGTH
    requires FromBe16(data[..2]) == DATA_MESSAGE && FromBe32(data[2..6]) == |data|
    requires p.source == FromBe16(data[6..8]) && p.destination == FromBe16(data[8..10])
    requires |p.payload| == FromBe32(data[10..14]) && |ControlsBytes(p.controls)| == FromBe32(data[14..18])
    requires p.priority == data[18] && p.payload == data[19..19 + |p.payload|]
    requires ControlsBytes(p.controls) == data[19 + |p.payload|..]
    ensures PacketBytes(p) == data
  {
    PacketNumbers(data);
    PacketSlices(data, |p.payload|);
  }

  lemma DecodePacketEncode(data: seq<byte>)
    requires |data| >= HEADER_LENGTH && FromBe16(data[..2]) == DATA_MESSAGE
    requires FromBe32(data[2..6]) == |data| <= MAX_MESSAGE_LENGTH && DecodePacket(data).Ok?
    ensures Encode(DecodePacket(data).value) == Ok(data)
  {
    var n := FromBe32(data[10..14]);
    ControlsInverse(data[19 + n..]);
    PacketRebuilt(data, DecodePacket(data).value.packet);
  }

  lemma DecodeControlEncode(data: seq<byte>)
    requires |data| >= HEADER_LENGTH && FromBe16(data[..2]) == CONTROL_MESSAGE
    requires FromBe32(data[2..6]) == |data| <= MAX_MESSAGE_LENGTH && DecodeControl(data).Ok?
    ensures Encode(DecodeControl(data).value) == Ok(data)
  {
    ControlsInverse(data[10..]);
    Be16Inverse(data[..2]);
    Be32Inverse(data[2..6]);
    Be32Inverse(data[6..10]);
    assert data == data[..2] + data[2..6] + data[6..10] + data[10..];
  }

  /** Every byte string that is accepted is the one encoding of what it decodes to. */
  lemma DecodeEncode(data: seq<byte>)
    requires Decode(data).Ok?
    ensures Encode(Decode(data).value) == Ok(data)
  {
    if FromBe16(data[..2]) == DATA_MESSAGE {
      DecodePacketEncode(data);
    } else {
      DecodeControlEncode(data);
    }
  }
}
