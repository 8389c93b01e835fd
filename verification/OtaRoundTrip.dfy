/** What the receiver does with one fragment of a message it holds some parts of. */
module OtaRoundTrip {
  import opened Common
  import opened OtaParts
  import opened OtaSender
  import opened OtaReceiver

  datatype Message = Message(
    source: u16, destination: u16, sequence: nat, uuid: seq<byte>,
    events: seq<byte>, controls: seq<byte>, data: seq<byte>)
  {
    function Payload(): seq<byte> { events + controls + data }

    function Id(): Key { Key(source, sequence) }

    function Original(): Delivery { Delivery(source, destination, uuid, events, controls, data) }
  }

  ghost predicate CutInto(m: Message, parts: seq<Part>) {
    |m.Payload()| <= MAX_OTA_PAYLOAD && Partition(m.Payload(), parts)
  }

  /** The fragment the receiver parses from the i-th datagram. */
  function FragmentOf(m: Message, parts: seq<Part>, i: nat): Fragment
    requires |m.Payload()| <= MAX_OTA_PAYLOAD && i < |parts|
  {
    Fragment(m.source, m.destination, m.sequence, m.uuid, |m.events|, |m.controls|, |m.data|,
             i + 1 < |parts|, parts[i])
  }

  /** Each datagram of the sender loop is parsed into its fragment. */
  lemma DatagramParses(m: Message, header: seq<byte>, mtu: nat, parts: seq<Part>, i: nat, datagram: seq<byte>,
                       decode: Decoder, localUuid: seq<byte>)
    requires CutInto(m, parts) && i < |parts|
    requires Carries(header, |m.Payload()|, mtu, parts[i], datagram)
    requires |m.uuid| == 16 && m.uuid != localUuid
    requires decode(header) == Some(Header(m.source, m.destination, m.sequence, m.uuid,
                                           |m.events|, |m.controls|, |m.data|))
    ensures Parse(datagram, decode, localUuid) == Some(FragmentOf(m, parts, i))
  {
    LastPart(m.Payload(), parts, i);
    ParseDatagram(header, i + 1 < |parts|, parts[i], decode, localUuid);
  }

  // ---------- received subsets ----------

  /** The parts whose index is in a set, among the first n. */
  function Pick(parts: seq<Part>, have: set<nat>, n: nat): seq<Part>
    requires n <= |parts|
  {
    if n == 0 then []
    else Pick(parts, have, n - 1) + (if n - 1 in have then [parts[n - 1]] else [])
  }

  lemma {:induction false} PickBelow(parts: seq<Part>, have: set<nat>, n: nat)
    requires n <= |parts| && Sorted(parts)
    ensures forall i :: 0 <= i < |Pick(parts, have, n)| && n < |parts| ==>
      Pick(parts, have, n)[i].offset < parts[n].offset
  {
    if n > 0 {
      PickBelow(parts, have, n - 1);
    }
  }

  lemma {:induction false} PickStep(parts: seq<Part>, have: set<nat>, n: nat)
    requires n < |parts|
    ensures Pick(parts, have, n + 1)
         == if n in have then Pick(parts, have, n) + [parts[n]] else Pick(parts, have, n)
  {
    assert Pick(parts, have, n) + [] == Pick(parts, have, n);
  }

  /** A part behind all others is appended, or replaces itself. */
  lemma {:induction false} InsertLast(front: seq<Part>, p: Part)
    requires forall i :: 0 <= i < |front| ==> front[i].offset < p.offset
    ensures Insert(front, p) == front + [p] && Insert(front + [p], p) == front + [p]
  {
    assert (front + [p])[..|front|] == front;
  }

  lemma {:induction false} InsertEarlier(front: seq<Part>, last: Part, p: Part)
    requires p.offset < last.offset
    ensures Insert(front + [last], p) == Insert(front, p) + [last]
  {
    assert (front + [last])[..|front|] == front;
  }

  /** Storing the n-th part behind some of the parts before it. */
  lemma {:induction false} InsertPickLast(parts: seq<Part>, have: set<nat>, n: nat)
    requires n < |parts| && Sorted(parts)
    ensures Insert(Pick(parts, have, n + 1), parts[n]) == Pick(parts, have + {n}, n + 1)
  {
    PickBelow(parts, have, n);
    PickSame(parts, have, have + {n}, n);
    PickStep(parts, have, n);
    PickStep(parts, have + {n}, n);
    InsertLast(Pick(parts, have, n), parts[n]);
  }

  /** Storing one more part of the message is picking one more index. */
  lemma {:induction false} InsertPick(parts: seq<Part>, have: set<nat>, n: nat, i: nat)
    requires n <= |parts| && i < n && Sorted(parts)
    ensures Insert(Pick(parts, have, n), parts[i]) == Pick(parts, have + {i}, n)
  {
    if i == n - 1 {
      InsertPickLast(parts, have, i);
    } else {
      InsertPick(parts, have, n - 1, i);
      InsertPickStep(parts, have, n - 1, i);
    }
  }

  lemma {:induction false} InsertPickStep(parts: seq<Part>, have: set<nat>, n: nat, i: nat)
    requires i < n < |parts| && Sorted(parts)
    requires Insert(Pick(parts, have, n), parts[i]) == Pick(parts, have + {i}, n)
    ensures Insert(Pick(parts, have, n + 1), parts[i]) == Pick(parts, have + {i}, n + 1)
  {
    PickStep(parts, have, n);
    PickStep(parts, have + {i}, n);
    InsertEarlier(Pick(parts, have, n), parts[n], parts[i]);
  }

  lemma {:induction false} PickSame(parts: seq<Part>, have: set<nat>, other: set<nat>, n: nat)
    requires n <= |parts| && forall i :: 0 <= i < n ==> (i in have <==> i in other)
    ensures Pick(parts, have, n) == Pick(parts, other, n)
  {
    if n > 0 {
      PickSame(parts, have, other, n - 1);
    }
  }

  /** The indices below n are all in the set. */
  predicate AllBelow(n: nat, have: set<nat>) {
    forall i :: 0 <= i < n ==> i in have
  }

  lemma {:induction false} PickAll(parts: seq<Part>, have: set<nat>, n: nat)
    requires n <= |parts| && AllBelow(n, have)
    ensures Pick(parts, have, n) == parts[..n]
  {
    if n > 0 {
      PickAll(parts, have, n - 1);
      assert parts[..n] == parts[..n - 1] + [parts[n - 1]];
    }
  }

  /** The bytes of the first n parts, and of those among them that were received. */
  function SentBytes(parts: seq<Part>, n: nat): nat
    requires n <= |parts|
  {
    if n == 0 then 0 else SentBytes(parts, n - 1) + |parts[n - 1].bytes|
  }

  function PickedBytes(parts: seq<Part>, have: set<nat>, n: nat): nat
    requires n <= |parts|
  {
    if n == 0 then 0 else PickedBytes(parts, have, n - 1) + if n - 1 in have then |parts[n - 1].bytes| else 0
  }

  lemma {:induction false} PickedSum(parts: seq<Part>, have: set<nat>, n: nat)
    requires n <= |parts|
    ensures SumLengths(Pick(parts, have, n)) == PickedBytes(parts, have, n)
  {
    if n > 0 {
      var front := Pick(parts, have, n - 1);
      PickedSum(parts, have, n - 1);
      SumAppend(front, parts[n - 1]);
      assert front + [] == front;
    }
  }

  lemma {:induction false} SentSum(parts: seq<Part>, n: nat)
    requires n <= |parts|
    ensures SumLengths(parts[..n]) == SentBytes(parts, n)
  {
    if n > 0 {
      SentSum(parts, n - 1);
      SumAppend(parts[..n - 1], parts[n - 1]);
      assert parts[..n] == parts[..n - 1] + [parts[n - 1]];
    }
  }

  lemma {:induction false} PickedFewer(parts: seq<Part>, have: set<nat>, n: nat)
    requires n <= |parts| && forall i :: 0 <= i < |parts| ==> parts[i].bytes != []
    ensures PickedBytes(parts, have, n) <= SentBytes(parts, n)
    ensures !AllBelow(n, have) ==> PickedBytes(parts, have, n) < SentBytes(parts, n)
  {
    if n > 0 {
      PickedFewer(parts, have, n - 1);
    }
  }

  /** The received lengths add up to the message only when no part is missing. */
  lemma PickMissing(parts: seq<Part>, have: set<nat>)
    requires !AllBelow(|parts|, have) && forall i :: 0 <= i < |parts| ==> parts[i].bytes != []
    ensures SumLengths(Pick(parts, have, |parts|)) < SumLengths(parts)
  {
    PickedFewer(parts, have, |parts|);
    PickedSum(parts, have, |parts|);
    SentSum(parts, |parts|);
    assert parts[..|parts|] == parts;
  }

  // ---------- one own fragment ----------

  /** The receiver holds exactly these parts of the message. */
  ghost predicate Held(store: Store, m: Message, parts: seq<Part>, have: set<nat>) {
    if have == {} then m.Id() !in store
    else
      && m.Id() in store
      && var e := store[m.Id()];
         && e.parts == Pick(parts, have, |parts|) && e.size == SumLengths(e.parts)
         && e.events == |m.events| && e.controls == |m.controls| && e.data == |m.data| && e.uuid == m.uuid
  }

  lemma PickNothing(parts: seq<Part>, n: nat)
    requires n <= |parts|
    ensures Pick(parts, {}, n) == []
  {
  }

  lemma {:induction false} PickSorted(parts: seq<Part>, have: set<nat>, n: nat)
    requires n <= |parts| && Sorted(parts)
    ensures Sorted(Pick(parts, have, n))
  {
    if n > 0 {
      PickSorted(parts, have, n - 1);
      PickBelow(parts, have, n - 1);
    }
  }

  /** The entry after one more own fragment. */
  lemma OwnEntry(store: Store, m: Message, parts: seq<Part>, have: set<nat>, i: nat, now: int)
    requires CutInto(m, parts) && |parts| >= 2 && i < |parts|
    requires Held(store, m, parts, have)
    ensures var f := FragmentOf(m, parts, i);
      var e := EntryFor(store, f, now);
      var e' := AddPart(e, f.part, now);
      && !f.Single() && Plausible(f) && Matches(e, f)
      && e'.parts == Pick(parts, have + {i}, |parts|) && e'.size == SumLengths(e'.parts)
  {
    var f := FragmentOf(m, parts, i);
    PartitionJoins(m.Payload(), parts);
    LastPart(m.Payload(), parts, i);
    if i > 0 {
      OffsetsIncrease(m.Payload(), parts, i - 1, i);
    }
    PickNothing(parts, |parts|);
    assert SumLengths([]) == 0;
    var e := EntryFor(store, f, now);
    assert e.parts == Pick(parts, have, |parts|);
    PickSorted(parts, have, |parts|);
    InsertSum(e.parts, parts[i]);
    InsertPick(parts, have, |parts|, i);
  }

  /** The joined parts split into the original sections. */
  lemma HandleOriginal(m: Message, parts: seq<Part>, i: nat)
    requires |m.Payload()| <= MAX_OTA_PAYLOAD && i < |parts|
    ensures Handle(FragmentOf(m, parts, i), m.uuid, m.Payload()) == Some(m.Original())
  {
    SectionsSplit(m);
  }

  /** The own fragment that completes the message delivers it. */
  lemma OwnCompletes(store: Store, m: Message, parts: seq<Part>, have: set<nat>, i: nat, now: int)
    requires CutInto(m, parts) && |parts| >= 2 && i < |parts|
    requires Held(store, m, parts, have) && AllBelow(|parts|, have + {i})
    ensures var r := Accept(store, FragmentOf(m, parts, i), now);
      r.delivered == Some(m.Original()) && m.Id() !in r.store
  {
    OwnEntry(store, m, parts, have, i, now);
    var f := FragmentOf(m, parts, i);
    var e' := AddPart(EntryFor(store, f, now), f.part, now);
    PickAll(parts, have + {i}, |parts|);
    assert parts[..|parts|] == parts;
    AllPartsComplete(e', m.Payload(), parts);
    HandleOriginal(m, parts, i);
    AcceptCompletes(store, f, now);
  }

  lemma {:induction false} AllPartsComplete(e: Entry, payload: seq<byte>, parts: seq<Part>)
    requires Partition(payload, parts) && e.parts == parts && e.size == SumLengths(parts)
    ensures Complete(e, |payload|) && Join(e.parts) == payload
  {
    PartitionComplete(payload, parts);
  }

  lemma {:induction false} AcceptCompletes(store: Store, f: Fragment, now: int)
    requires !f.Single() && Plausible(f) && Matches(EntryFor(store, f, now), f)
    requires Complete(AddPart(EntryFor(store, f, now), f.part, now), f.Total())
    ensures var e := AddPart(EntryFor(store, f, now), f.part, now);
      Accept(store, f, now) == Receipt(store - {f.Id()}, Handle(f, e.uuid, Join(e.parts)))
  {
  }

  /** Any other own fragment is stored, once. */
  lemma OwnWaits(store: Store, m: Message, parts: seq<Part>, have: set<nat>, i: nat, now: int)
    requires CutInto(m, parts) && |parts| >= 2 && i < |parts|
    requires Held(store, m, parts, have) && !AllBelow(|parts|, have + {i})
    ensures var r := Accept(store, FragmentOf(m, parts, i), now);
      && r.delivered == None && Held(r.store, m, parts, have + {i})
      && r.store[m.Id()].lastTime == now
  {
    OwnEntry(store, m, parts, have, i, now);
    var f := FragmentOf(m, parts, i);
    var e' := AddPart(EntryFor(store, f, now), f.part, now);
    PartitionJoins(m.Payload(), parts);
    PickMissing(parts, have + {i});
    assert !Complete(e', f.Total());
  }

  /** All the parts of a message pass the completeness check and join to it. */
  lemma PartitionComplete(payload: seq<byte>, parts: seq<Part>)
    requires Partition(payload, parts)
    ensures Reach(parts, |payload|) == Some(|payload|) && SumLengths(parts) == |payload| && Join(parts) == payload
  {
    PartitionJoins(payload, parts);
    assert Within(parts, |payload|);
    ReachExactly(parts, |payload|);
  }

  lemma SectionsSplit(m: Message)
    ensures var a, b := |m.events|, |m.events| + |m.controls|;
      && m.Payload()[..a] == m.events && m.Payload()[a..b] == m.controls && m.Payload()[b..] == m.data
  {
  }

  /** A fragment of another message leaves this one's entry alone. */
  lemma OtherStep(store: Store, m: Message, parts: seq<Part>, have: set<nat>, f: Fragment, now: int)
    requires Held(store, m, parts, have) && f.Id() != m.Id()
    ensures var after := Accept(store, f, now).store;
      && Held(after, m, parts, have)
      && (have != {} ==> after[m.Id()] == store[m.Id()])
  {
  }

  /** A message that fits one datagram is delivered when it arrives. */
  lemma SinglePartDelivers(m: Message, parts: seq<Part>, store: Store, now: int)
    requires CutInto(m, parts) && |parts| == 1
    ensures Accept(store, FragmentOf(m, parts, 0), now) == Receipt(store, Some(m.Original()))
  {
    SectionsSplit(m);
    assert m.Payload()[0..|m.Payload()|] == m.Payload();
  }
}
