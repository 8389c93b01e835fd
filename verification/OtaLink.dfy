/** From the sender loop to the handler: whatever order the datagrams of a message arrive in,
    however often they repeat, and whatever else arrives or expires in between. */
module OtaLink {
  import opened Common
  import opened OtaParts
  import opened OtaSender
  import opened OtaReceiver
  import opened OtaRoundTrip

  /** A message, the datagrams made of it, and a receiver. */
  datatype Link = Link(
    m: Message, header: seq<byte>, mtu: nat, parts: seq<Part>, datagrams: seq<seq<byte>>,
    decode: Decoder, localUuid: seq<byte>)
  {
    function Parsed(bytes: seq<byte>): Option<Fragment> { Parse(bytes, decode, localUuid) }
  }

  /** The datagrams are what the sender loop returned for the message, under a header that decodes
      to it; the receiver is another emulator. */
  ghost predicate Sent(l: Link) {
    && CutInto(l.m, l.parts) && AllCarry(l.header, |l.m.Payload()|, l.mtu, l.parts, l.datagrams)
    && l.decode(l.header) == Some(Header(l.m.source, l.m.destination, l.m.sequence, l.m.uuid,
                                         |l.m.events|, |l.m.controls|, |l.m.data|))
    && |l.m.uuid| == 16 && l.m.uuid != l.localUuid
  }

  /** The receiver reads every datagram as the fragment it was made from. */
  ghost predicate Parses(l: Link) {
    && CutInto(l.m, l.parts) && |l.datagrams| == |l.parts|
    && forall i :: 0 <= i < |l.parts| ==> l.Parsed(l.datagrams[i]) == Some(FragmentOf(l.m, l.parts, i))
  }

  lemma SentParses(l: Link)
    requires Sent(l)
    ensures Parses(l)
  {
    forall i | 0 <= i < |l.parts|
      ensures l.Parsed(l.datagrams[i]) == Some(FragmentOf(l.m, l.parts, i))
    {
      DatagramParses(l.m, l.header, l.mtu, l.parts, i, l.datagrams[i], l.decode, l.localUuid);
    }
  }

  /** What reaches the receiver: arbitrary bytes, and sweeps. */
  datatype Input = Incoming(bytes: seq<byte>, now: int) | Tick(now: int, timeout: int)

  /** Nobody else sends under the message's source and sequence number. */
  predicate Unforged(l: Link, input: Input) {
    var f := if input.Incoming? then l.Parsed(input.bytes) else None;
    f.Some? && f.value.Id() == l.m.Id() ==> Own(l, input)
  }

  predicate Own(l: Link, input: Input) { input.Incoming? && input.bytes in l.datagrams }

  function Take(l: Link, store: Store, input: Input): Receipt {
    match input
    case Incoming(bytes, now) =>
      var f := l.Parsed(bytes);
      if f.None? then Receipt(store, None) else Accept(store, f.value, now)
    case Tick(now, timeout) => Receipt(Sweep(store, now, timeout), None)
  }

  function TakeAll(l: Link, store: Store, inputs: seq<Input>): Store {
    if inputs == [] then store
    else Take(l, TakeAll(l, store, inputs[..|inputs| - 1]), inputs[|inputs| - 1]).store
  }

  /** How far the message has come: the datagrams held, and when the last of them arrived. */
  datatype Progress = Progress(have: set<nat>, last: int)

  ghost function IndexOf(l: Link, bytes: seq<byte>): (i: nat)
    requires bytes in l.datagrams
    ensures i < |l.datagrams| && l.datagrams[i] == bytes
  {
    var i :| 0 <= i < |l.datagrams| && l.datagrams[i] == bytes;
    i
  }

  /** Without bytes or parts: a datagram counts until all are there or a timeout passes. */
  ghost function Advance(l: Link, s: Progress, input: Input): Progress {
    match input
    case Incoming(bytes, now) =>
      if bytes !in l.datagrams then s
      else
        var have := s.have + {IndexOf(l, bytes)};
        Progress(if AllBelow(|l.parts|, have) then {} else have, now)
    case Tick(_, _) => if Expires(s, input) then s.(have := {}) else s
  }

  ghost function AdvanceAll(l: Link, inputs: seq<Input>): Progress {
    if inputs == [] then Progress({}, 0)
    else Advance(l, AdvanceAll(l, inputs[..|inputs| - 1]), inputs[|inputs| - 1])
  }

  ghost predicate Tracks(l: Link, store: Store, s: Progress) {
    && Held(store, l.m, l.parts, s.have)
    && (s.have != {} ==> store[l.m.Id()].lastTime == s.last)
    && (l.parts != [] ==> !AllBelow(|l.parts|, s.have)) && (forall i :: i in s.have ==> i < |l.parts|)
  }

  /** What this input makes the receiver hand on, of the message. */
  ghost function HandsOn(l: Link, s: Progress, input: Input): Option<Delivery>
    requires Own(l, input)
  {
    if AllBelow(|l.parts|, s.have + {IndexOf(l, input.bytes)}) then Some(l.m.Original()) else None
  }

  lemma OwnInput(l: Link, store: Store, s: Progress, input: Input)
    requires Parses(l) && Tracks(l, store, s) && Own(l, input)
    ensures Tracks(l, Take(l, store, input).store, Advance(l, s, input))
    ensures Take(l, store, input).delivered == HandsOn(l, s, input)
  {
    var i := IndexOf(l, input.bytes);
    if |l.parts| == 1 {
      assert s.have == {};
      SinglePartDelivers(l.m, l.parts, store, input.now);
    } else if AllBelow(|l.parts|, s.have + {i}) {
      OwnCompletes(store, l.m, l.parts, s.have, i, input.now);
    } else {
      OwnWaits(store, l.m, l.parts, s.have, i, input.now);
    }
  }

  lemma OtherInput(l: Link, store: Store, s: Progress, input: Input)
    requires Tracks(l, store, s) && Unforged(l, input) && !Own(l, input)
    ensures Tracks(l, Take(l, store, input).store, Advance(l, s, input))
  {
    if input.Incoming? && l.Parsed(input.bytes).Some? {
      OtherStep(store, l.m, l.parts, s.have, l.Parsed(input.bytes).value, input.now);
    }
  }

  lemma OneInput(l: Link, store: Store, s: Progress, input: Input)
    requires Parses(l) && Tracks(l, store, s) && Unforged(l, input)
    ensures Tracks(l, Take(l, store, input).store, Advance(l, s, input))
    ensures Own(l, input) ==> Take(l, store, input).delivered == HandsOn(l, s, input)
  {
    if Own(l, input) {
      OwnInput(l, store, s, input);
    } else {
      OtherInput(l, store, s, input);
    }
  }

  ghost predicate AllUnforged(l: Link, inputs: seq<Input>) {
    forall k :: 0 <= k < |inputs| ==> Unforged(l, inputs[k])
  }

  /** Whatever bytes arrive and whenever the receiver sweeps, with datagrams lost, repeated and out
      of order, the receiver holds the parts that the counting of datagrams says. */
  lemma {:induction false} EveryInputCounts(l: Link, store: Store, inputs: seq<Input>)
    requires Parses(l) && l.m.Id() !in store && AllUnforged(l, inputs)
    ensures Tracks(l, TakeAll(l, store, inputs), AdvanceAll(l, inputs))
  {
    if inputs == [] {
      assert 0 !in AdvanceAll(l, inputs).have;
    } else {
      var n := |inputs| - 1;
      EveryInputCounts(l, store, inputs[..n]);
      OneInput(l, TakeAll(l, store, inputs[..n]), AdvanceAll(l, inputs[..n]), inputs[n]);
    }
  }

  /** It hands on the original message at the datagram that completes the count, and only there. */
  lemma HandsOnWhenCounted(l: Link, store: Store, inputs: seq<Input>, n: nat)
    requires Parses(l) && l.m.Id() !in store && AllUnforged(l, inputs) && n < |inputs| && Own(l, inputs[n])
    ensures Take(l, TakeAll(l, store, inputs[..n]), inputs[n]).delivered
         == HandsOn(l, AdvanceAll(l, inputs[..n]), inputs[n])
  {
    EveryInputCounts(l, store, inputs[..n]);
    OwnInput(l, TakeAll(l, store, inputs[..n]), AdvanceAll(l, inputs[..n]), inputs[n]);
  }

  ghost predicate Arrived(inputs: seq<Input>, bytes: seq<byte>) {
    exists k :: 0 <= k < |inputs| && inputs[k].Incoming? && inputs[k].bytes == bytes
  }

  /** The datagrams that arrived, by index. */
  ghost function Got(l: Link, inputs: seq<Input>): set<nat> {
    set i: nat | i < |l.datagrams| && Arrived(inputs, l.datagrams[i])
  }

  /** No sweep comes a timeout after the latest datagram counted. */
  ghost predicate InTime(l: Link, inputs: seq<Input>) {
    inputs == []
    || (InTime(l, inputs[..|inputs| - 1]) && !Expires(AdvanceAll(l, inputs[..|inputs| - 1]), inputs[|inputs| - 1]))
  }

  predicate Expires(s: Progress, input: Input) {
    s.have != {} && input.Tick? && (input.timeout <= 0 || input.now - s.last >= input.timeout)
  }

  lemma ArrivedAppend(inputs: seq<Input>, input: Input, bytes: seq<byte>)
    ensures Arrived(inputs + [input], bytes) <==> Arrived(inputs, bytes) || (input.Incoming? && input.bytes == bytes)
  {
    var all := inputs + [input];
    assert all[|inputs|] == input;
    if Arrived(inputs, bytes) {
      var k :| 0 <= k < |inputs| && inputs[k].Incoming? && inputs[k].bytes == bytes;
      assert all[k] == inputs[k];
    }
  }

  lemma DatagramsDiffer(l: Link, i: nat, j: nat)
    requires Parses(l) && i < |l.parts| && j < |l.parts| && l.datagrams[i] == l.datagrams[j]
    ensures i == j
  {
    PartitionJoins(l.m.Payload(), l.parts);
  }

  lemma GotAppend(l: Link, inputs: seq<Input>, input: Input)
    requires Parses(l)
    ensures Got(l, inputs + [input])
         == Got(l, inputs) + if Own(l, input) then {IndexOf(l, input.bytes)} else {}
  {
    forall j: nat | j < |l.datagrams|
      ensures Arrived(inputs + [input], l.datagrams[j])
         <==> Arrived(inputs, l.datagrams[j]) || (Own(l, input) && j == IndexOf(l, input.bytes))
    {
      ArrivedAppend(inputs, input, l.datagrams[j]);
      if input.Incoming? && l.datagrams[j] == input.bytes {
        DatagramsDiffer(l, j, IndexOf(l, input.bytes));
      }
    }
  }

  /** While a datagram is missing and none expired, those counted are those that arrived. */
  lemma {:induction false} CountsArrivals(l: Link, inputs: seq<Input>)
    requires Parses(l) && InTime(l, inputs) && !AllBelow(|l.parts|, Got(l, inputs))
    ensures AdvanceAll(l, inputs).have == Got(l, inputs)
  {
    if inputs != [] {
      var n := |inputs| - 1;
      var front, input := inputs[..n], inputs[n];
      assert inputs == front + [input];
      GotAppend(l, front, input);
      CountsArrivals(l, front);
    }
  }

  lemma CountCompletes(l: Link, inputs: seq<Input>, n: nat)
    requires Parses(l) && n < |inputs| && Own(l, inputs[n])
    requires InTime(l, inputs[..n]) && !AllBelow(|l.parts|, Got(l, inputs[..n]))
    ensures HandsOn(l, AdvanceAll(l, inputs[..n]), inputs[n])
         == if AllBelow(|l.parts|, Got(l, inputs[..n + 1])) then Some(l.m.Original()) else None
  {
    var front, input := inputs[..n], inputs[n];
    assert inputs[..n + 1] == front + [input];
    CountsArrivals(l, front);
    GotAppend(l, front, input);
    assert Got(l, front + [input]) == AdvanceAll(l, front).have + {IndexOf(l, input.bytes)};
  }

  /** The datagrams of one message, in any order, repeated, and among arbitrary other traffic: the
      message is handed on, section by section as it was sent, at the arrival that leaves none
      missing, and at no earlier one. */
  lemma SentIsDelivered(l: Link, store: Store, inputs: seq<Input>, n: nat)
    requires Sent(l) && l.m.Id() !in store && AllUnforged(l, inputs)
    requires n < |inputs| && Own(l, inputs[n])
    requires InTime(l, inputs[..n]) && !AllBelow(|l.parts|, Got(l, inputs[..n]))
    ensures Take(l, TakeAll(l, store, inputs[..n]), inputs[n]).delivered
         == if AllBelow(|l.parts|, Got(l, inputs[..n + 1])) then Some(l.m.Original()) else None
  {
    SentParses(l);
    HandsOnWhenCounted(l, store, inputs, n);
    CountCompletes(l, inputs, n);
  }

  // ---------- own datagrams ----------

  /** A datagram that the receiver's own emulator sent. */
  ghost predicate Echo(l: Link, input: Input) {
    input.Incoming? && exists header, more, p :: OwnDatagram(l, input.bytes, header, more, p)
  }

  ghost predicate OwnDatagram(l: Link, bytes: seq<byte>, header: seq<byte>, more: bool, p: Part) {
    && |header| <= U16_MAX && p.offset <= U32_MAX && |p.bytes| <= U32_MAX
    && l.decode(header).Some? && l.decode(header).value.uuid == l.localUuid
    && bytes == Datagram(header, more, p)
  }

  ghost function WithoutEchoes(l: Link, inputs: seq<Input>): seq<Input> {
    if inputs == [] then []
    else
      var n := |inputs| - 1;
      WithoutEchoes(l, inputs[..n]) + (if Echo(l, inputs[n]) then [] else [inputs[n]])
  }

  /** It is ignored, whatever is stored. */
  lemma EchoIgnored(l: Link, store: Store, input: Input)
    requires Echo(l, input)
    ensures Take(l, store, input) == Receipt(store, None)
  {
    var header, more, p :| OwnDatagram(l, input.bytes, header, more, p);
    OwnDatagramIgnored(header, more, p, l.decode, l.localUuid);
  }

  /** Over every run, an emulator's own datagrams coming back leave no trace. */
  lemma {:induction false} EchoesChangeNothing(l: Link, store: Store, inputs: seq<Input>)
    ensures TakeAll(l, store, inputs) == TakeAll(l, store, WithoutEchoes(l, inputs))
  {
    if inputs != [] {
      var n := |inputs| - 1;
      var front, input := WithoutEchoes(l, inputs[..n]), inputs[n];
      EchoesChangeNothing(l, store, inputs[..n]);
      if Echo(l, input) {
        EchoIgnored(l, TakeAll(l, store, inputs[..n]), input);
        assert front + [] == front;
      } else {
        assert (front + [input])[..|front|] == front;
      }
    }
  }
}
