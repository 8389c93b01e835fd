/** Reassembly of fragmented messages (rust/emane-core/src/ota_manager.rs:456-642 and 674-733). */
module OtaReceiver {
  import opened Common
  import opened OtaParts
  import opened OtaSender

  /** The decoded protobuf header; missing payload information reads as zero lengths. */
  datatype Header = Header(
    source: u32, destination: u32, sequence: nat, uuid: seq<byte>, events: u32, controls: u32, data: u32)

  type Decoder = seq<byte> -> Option<Header>

  /** A datagram that passed the checks on its frame. */
  datatype Fragment = Fragment(
    source: u16, destination: u16, sequence: nat, uuid: seq<byte>,
    events: u32, controls: u32, data: u32, more: bool, part: Part)
  {
    function Total(): nat { events as int + controls as int + data as int }

    function Id(): Key { Key(source, sequence) }

    predicate Single() { !more && part.offset == 0 }
  }

  datatype Key = Key(source: u16, sequence: nat)

  datatype Entry = Entry(
    size: int, events: u32, controls: u32, data: u32, parts: seq<Part>, lastTime: int, uuid: seq<byte>)

  type Store = map<Key, Entry>

  /** What the message handler passes on: the three sections. */
  datatype Delivery = Delivery(
    source: u16, destination: u16, uuid: seq<byte>, events: seq<byte>, controls: seq<byte>, data: seq<byte>)

  // ---------- frame checks ----------

  function Parse(buffer: seq<byte>, decode: Decoder, localUuid: seq<byte>): Option<Fragment> {
    if |buffer| < 2 then None
    else
      var at := 2 + FromBe16(buffer[..2]) as int;
      if |buffer| < at + PART_INFO_LENGTH then None
      else
        var header := decode(buffer[2..at]);
        if header.None? then None
        else
          var h := header.value;
          var offset, size := FromBe32(buffer[at + 1..at + 5]), FromBe32(buffer[at + 5..at + 9]);
          if h.source > U16_MAX || h.destination > U16_MAX || buffer[at] > 1 then None
          else if |h.uuid| != 16 || h.uuid == localUuid then None
          else if at + PART_INFO_LENGTH + size != |buffer| then None
          else Some(Fragment(h.source, h.destination, h.sequence, h.uuid, h.events, h.controls, h.data,
                             buffer[at] == 1, Part(offset, buffer[at + 9..])))
  }

  /** A datagram as sent is parsed into the part it carries. */
  lemma ParseDatagram(header: seq<byte>, more: bool, p: Part, decode: Decoder, localUuid: seq<byte>)
    requires |header| <= U16_MAX && p.offset <= U32_MAX && |p.bytes| <= U32_MAX && decode(header).Some?
    requires var h := decode(header).value;
      h.source <= U16_MAX && h.destination <= U16_MAX && |h.uuid| == 16 && h.uuid != localUuid
    ensures var h := decode(header).value;
      Parse(Datagram(header, more, p), decode, localUuid)
      == Some(Fragment(h.source, h.destination, h.sequence, h.uuid, h.events, h.controls, h.data, more, p))
  {
    var d := Datagram(header, more, p);
    var at := 2 + |header|;
    Be16RoundTrip(|header|);
    Be32RoundTrip(p.offset);
    Be32RoundTrip(|p.bytes|);
    assert d[..2] == Be16(|header|) && d[2..at] == header && d[at] == (if more then 1 else 0);
    assert d[at + 1..at + 5] == Be32(p.offset) && d[at + 5..at + 9] == Be32(|p.bytes|);
    assert d[at + 9..] == p.bytes;
  }

  /** The bytes of a datagram, cut at its fields. */
  lemma DatagramFields(buffer: seq<byte>, n: nat)
    requires |buffer| >= 2 + n + PART_INFO_LENGTH && FromBe16(buffer[..2]) == n && buffer[2 + n] <= 1
    requires FromBe32(buffer[7 + n..11 + n]) == |buffer| - (11 + n)
    ensures var p := Part(FromBe32(buffer[3 + n..7 + n]), buffer[11 + n..]);
      Datagram(buffer[2..2 + n], buffer[2 + n] == 1, p) == buffer
  {
    Be16Inverse(buffer[..2]);
    Be32Inverse(buffer[3 + n..7 + n]);
    Be32Inverse(buffer[7 + n..11 + n]);
    assert buffer == buffer[..2] + buffer[2..2 + n] + [buffer[2 + n]] + buffer[3 + n..7 + n]
                     + buffer[7 + n..11 + n] + buffer[11 + n..];
  }

  /** The bytes are the datagram with this header that carries the fragment, and the header is that of
      another emulator's message. */
  ghost predicate Encodes(buffer: seq<byte>, decode: Decoder, localUuid: seq<byte>, header: seq<byte>, f: Fragment) {
    && |header| <= U16_MAX && f.part.offset <= U32_MAX && |f.part.bytes| <= U32_MAX
    && decode(header) == Some(Header(f.source, f.destination, f.sequence, f.uuid, f.events, f.controls, f.data))
    && |f.uuid| == 16 && f.uuid != localUuid
    && buffer == Datagram(header, f.more, f.part)
  }

  lemma EncodedParses(buffer: seq<byte>, decode: Decoder, localUuid: seq<byte>, header: seq<byte>, f: Fragment)
    requires Encodes(buffer, decode, localUuid, header, f)
    ensures Parse(buffer, decode, localUuid) == Some(f)
  {
    ParseDatagram(header, f.more, f.part, decode, localUuid);
  }

  lemma ParsedEncodes(buffer: seq<byte>, decode: Decoder, localUuid: seq<byte>, f: Fragment)
    requires Parse(buffer, decode, localUuid) == Some(f)
    ensures |buffer| >= 2 && 2 + FromBe16(buffer[..2]) as int <= |buffer|
    ensures Encodes(buffer, decode, localUuid, buffer[2..2 + FromBe16(buffer[..2])], f)
  {
    DatagramFields(buffer, FromBe16(buffer[..2]));
  }

  /** Bytes are read as a fragment if and only if they are the datagram that carries it, under a header
      of 16-bit addresses, with a UUID of 16 bytes that is not the receiver's own. */
  lemma ParseExactly(buffer: seq<byte>, decode: Decoder, localUuid: seq<byte>, f: Fragment)
    ensures Parse(buffer, decode, localUuid) == Some(f)
       <==> exists header :: Encodes(buffer, decode, localUuid, header, f)
  {
    if Parse(buffer, decode, localUuid) == Some(f) {
      ParsedEncodes(buffer, decode, localUuid, f);
    }
    if header :| Encodes(buffer, decode, localUuid, header, f) {
      EncodedParses(buffer, decode, localUuid, header, f);
    }
  }

  /** What an emulator sent itself is ignored. */
  lemma OwnDatagramIgnored(header: seq<byte>, more: bool, p: Part, decode: Decoder, localUuid: seq<byte>)
    requires |header| <= U16_MAX && p.offset <= U32_MAX && |p.bytes| <= U32_MAX
    requires decode(header).Some? && decode(header).value.uuid == localUuid
    ensures Parse(Datagram(header, more, p), decode, localUuid) == None
  {
    var d := Datagram(header, more, p);
    Be16RoundTrip(|header|);
    assert d[..2] == Be16(|header|) && d[2..2 + |header|] == header;
  }

  // ---------- one fragment ----------

  /** `handle_ota_message`: split by the declared sizes, or refuse a payload of another length. */
  function Handle(f: Fragment, uuid: seq<byte>, payload: seq<byte>): Option<Delivery> {
    if f.Total() != |payload| || f.Total() > MAX_OTA_PAYLOAD then None
    else Some(Delivery(f.source, f.destination, uuid, payload[..f.events],
                       payload[f.events..f.events as int + f.controls as int],
                       payload[f.events as int + f.controls as int..]))
  }

  /** The part lies in the declared message, which is not too long, and a last part ends it. */
  predicate Plausible(f: Fragment) {
    && f.Total() <= MAX_OTA_PAYLOAD && f.part.End() <= f.Total()
    && (!f.more ==> f.part.End() == f.Total())
  }

  function EntryFor(store: Store, f: Fragment, now: int): Entry {
    var e := if f.Id() in store then store[f.Id()]
             else Entry(0, f.events, f.controls, f.data, [], now, f.uuid);
    if e.events == 0 && e.controls == 0 && e.data == 0
    then e.(events := f.events, controls := f.controls, data := f.data) else e
  }

  predicate Matches(e: Entry, f: Fragment) {
    e.events == f.events && e.controls == f.controls && e.data == f.data && e.uuid == f.uuid
  }

  function SaturatingSub(a: int, b: int): int { if a < b then 0 else a - b }

  function AddPart(e: Entry, p: Part, now: int): Entry {
    e.(parts := Insert(e.parts, p),
       size := SaturatingSub(e.size, ReplacedLength(e.parts, p.offset)) + |p.bytes|,
       lastTime := now)
  }

  predicate Complete(e: Entry, total: nat) {
    e.size == total && Reach(e.parts, total) == Some(total)
  }

  datatype Receipt = Receipt(store: Store, delivered: Option<Delivery>)

  function Accept(store: Store, f: Fragment, now: int): Receipt {
    if f.Single() then Receipt(store, Handle(f, f.uuid, f.part.bytes))
    else if !Plausible(f) then Receipt(store, None)
    else
      var e := EntryFor(store, f, now);
      if !Matches(e, f) then Receipt(store - {f.Id()}, None)
      else
        var e' := AddPart(e, f.part, now);
        if Complete(e', f.Total())
        then Receipt(store - {f.Id()}, Handle(f, e'.uuid, Join(e'.parts)))
        else Receipt(store[f.Id() := e'], None)
  }

  function Age(now: int, t: int): int { SaturatingSub(now, t) }

  /** The periodic sweep of entries that have waited too long. */
  function Sweep(store: Store, now: int, timeout: int): Store {
    map k | k in store && Age(now, store[k].lastTime) < timeout :: store[k]
  }

  // ---------- the receiver object ----------

  class Receiver {
    var store: Store
    var lastCheck: int
    const checkThreshold: int
    const timeout: int

    constructor (checkThreshold: int, timeout: int, now: int)
      ensures store == map[] && lastCheck == now
      ensures this.checkThreshold == checkThreshold && this.timeout == timeout
    {
      store := map[];
      lastCheck := now;
      this.checkThreshold := checkThreshold;
      this.timeout := timeout;
    }

    /** The scan over the parts in order of offset. */
    method Scan(parts: seq<Part>, total: nat) returns (contiguous: bool, next: nat)
      ensures contiguous == Reach(parts, total).Some?
      ensures contiguous ==> next == Reach(parts, total).value
    {
      contiguous, next := true, 0;
      var i := 0;
      assert parts[..0] == [];
      while i < |parts| && contiguous
        invariant 0 <= i <= |parts|
        invariant contiguous == Reach(parts[..i], total).Some?
        invariant contiguous ==> next == Reach(parts[..i], total).value
      {
        assert parts[..i + 1][..i] == parts[..i];
        if parts[i].offset != next {
          contiguous := false;
        } else {
          next := next + |parts[i].bytes|;
          contiguous := next <= total;
        }
        i := i + 1;
      }
      if contiguous {
        assert parts[..i] == parts;
      } else {
        ReachPrefixFails(parts, total, i);
      }
    }

    method Assemble(parts: seq<Part>) returns (payload: seq<byte>)
      ensures payload == Join(parts)
    {
      payload := [];
      for i := 0 to |parts|
        invariant payload == Join(parts[..i])
      {
        assert parts[..i + 1][..i] == parts[..i];
        payload := payload + parts[i].bytes;
      }
      assert parts[..|parts|] == parts;
    }

    /** One fragment: the store and the delivery are those of `Accept`. */
    method Receive(f: Fragment, now: int) returns (delivered: Option<Delivery>)
      modifies this`store
      ensures Receipt(store, delivered) == Accept(old(store), f, now)
    {
      if f.Single() {
        return Handle(f, f.uuid, f.part.bytes);
      }
      var total := f.Total();
      if total > MAX_OTA_PAYLOAD || f.part.End() > total || (!f.more && f.part.End() != total) {
        return None;
      }
      var key := f.Id();
      var entry := EntryFor(store, f, now);
      if !Matches(entry, f) {
        store := store - {key};
        return None;
      }
      entry := AddPart(entry, f.part, now);
      var contiguous, next := Scan(entry.parts, total);
      if entry.size == total && contiguous && next == total {
        var payload := Assemble(entry.parts);
        store := store - {key};
        return Handle(f, entry.uuid, payload);
      }
      store := store[key := entry];
      return None;
    }

    /** The sweep runs only when enough time passed since the last one. */
    method Cleanup(now: int) returns (expired: set<Key>)
      modifies this
      ensures 0 < checkThreshold && now - old(lastCheck) < checkThreshold ==>
        store == old(store) && lastCheck == old(lastCheck) && expired == {}
      ensures checkThreshold <= 0 || now - old(lastCheck) >= checkThreshold ==>
        store == Sweep(old(store), now, timeout) && lastCheck == now
        && expired == old(store).Keys - store.Keys
    {
      expired := {};
      if Age(now, lastCheck) >= checkThreshold {
        expired := set k | k in store && Age(now, store[k].lastTime) >= timeout;
        store := Sweep(store, now, timeout);
        lastCheck := now;
      }
    }
  }

  lemma {:induction false} ReachPrefixFails(parts: seq<Part>, total: nat, n: nat)
    requires n <= |parts| && Reach(parts[..n], total).None?
    ensures Reach(parts, total).None?
    decreases |parts| - n
  {
    if n < |parts| {
      assert parts[..n + 1][..n] == parts[..n];
      ReachPrefixFails(parts, total, n + 1);
    } else {
      assert parts[..n] == parts;
    }
  }

  // ---------- safety for arbitrary fragments ----------

  ghost predicate EntryInv(e: Entry) {
    var total := e.events as int + e.controls as int + e.data as int;
    && Sorted(e.parts) && e.size == SumLengths(e.parts)
    && Within(e.parts, total) && total <= MAX_OTA_PAYLOAD
  }

  ghost predicate StoreInv(store: Store) {
    forall k :: k in store ==> EntryInv(store[k])
  }

  /** The parts handed on together when this fragment completes a message. */
  function HandedOn(store: Store, f: Fragment, now: int): Option<seq<Part>> {
    if f.Single() || !Plausible(f) || !Matches(EntryFor(store, f, now), f) then None
    else
      var e := AddPart(EntryFor(store, f, now), f.part, now);
      if Complete(e, f.Total()) then Some(e.parts) else None
  }

  lemma AddPartInv(e: Entry, p: Part, now: int)
    requires EntryInv(e) && p.End() <= e.events as int + e.controls as int + e.data as int
    ensures EntryInv(AddPart(e, p, now))
    ensures forall q :: q in AddPart(e, p, now).parts ==> q == p || q in e.parts
  {
    InsertSorted(e.parts, p);
    InsertSum(e.parts, p);
  }

  lemma EntryForInv(store: Store, f: Fragment, now: int)
    requires StoreInv(store) && Plausible(f) && Matches(EntryFor(store, f, now), f)
    ensures EntryInv(EntryFor(store, f, now))
  {
  }

  /** A fragment changes no entry but its own. */
  lemma AcceptFrame(store: Store, f: Fragment, now: int)
    ensures Accept(store, f, now).store - {f.Id()} == store - {f.Id()}
  {
  }

  /** A fragment that reaches its entry makes the receiver hand on a message if and only if the
      stored parts, with it, tile the declared message. */
  lemma HandedOnExactly(store: Store, f: Fragment, now: int)
    requires StoreInv(store)
    requires !f.Single() && Plausible(f) && Matches(EntryFor(store, f, now), f)
    ensures var parts := Insert(EntryFor(store, f, now).parts, f.part);
      Accept(store, f, now).delivered.Some? <==> Contiguous(parts) && LastEnd(parts) == f.Total()
  {
    var e := EntryFor(store, f, now);
    EntryForInv(store, f, now);
    AddPartInv(e, f.part, now);
    ReachExactly(Insert(e.parts, f.part), f.Total());
  }

  /** Whatever fragment arrives, the store stays consistent: declared sizes bound every part and
      each size field is the sum of its parts. A completed message tiles its declared size, is
      never refused by the later length check, and is those parts joined. */
  lemma AcceptSafe(store: Store, f: Fragment, now: int)
    requires StoreInv(store)
    ensures StoreInv(Accept(store, f, now).store)
    ensures var parts := HandedOn(store, f, now);
      && (!f.Single() ==> (parts.Some? <==> Accept(store, f, now).delivered.Some?))
      && (parts.Some? ==>
            var d := Accept(store, f, now).delivered.value;
            && Contiguous(parts.value) && LastEnd(parts.value) == f.Total()
            && d.events + d.controls + d.data == Join(parts.value)
            && |d.events| == f.events && |d.controls| == f.controls && |d.data| == f.data
            && f.Id() !in Accept(store, f, now).store)
  {
    if !f.Single() && Plausible(f) && Matches(EntryFor(store, f, now), f) {
      var e := EntryFor(store, f, now);
      EntryForInv(store, f, now);
      AddPartInv(e, f.part, now);
      var e' := AddPart(e, f.part, now);
      ReachExactly(e'.parts, f.Total());
      if Complete(e', f.Total()) {
        SectionsJoin(Join(e'.parts), f.events, f.controls);
      }
    }
  }

  lemma SectionsJoin(payload: seq<byte>, a: nat, b: nat)
    requires a + b <= |payload|
    ensures payload[..a] + payload[a..a + b] + payload[a + b..] == payload
  {
  }

  /** A part with no more to follow that starts the message is handed on at once, if and only if it is
      as long as declared and not too long; the store is not touched. */
  lemma SingleExactly(store: Store, f: Fragment, now: int)
    requires !f.more && f.part.offset == 0
    ensures Accept(store, f, now).store == store
    ensures var d := Accept(store, f, now).delivered;
      && (d.Some? <==> |f.part.bytes| == f.events as int + f.controls as int + f.data as int <= 64 * 1024 * 1024)
      && (d.Some? ==>
            && d.value.events + d.value.controls + d.value.data == f.part.bytes
            && |d.value.events| == f.events && |d.value.controls| == f.controls && |d.value.data| == f.data
            && d.value.source == f.source && d.value.destination == f.destination && d.value.uuid == f.uuid)
  {
    if Handle(f, f.uuid, f.part.bytes).Some? {
      SectionsJoin(f.part.bytes, f.events, f.controls);
    }
  }

  /** A part that cannot belong to the declared message changes nothing. */
  lemma ImplausibleIgnored(store: Store, f: Fragment, now: int)
    requires f.more || f.part.offset != 0
    requires var total := f.events as int + f.controls as int + f.data as int;
      total > 64 * 1024 * 1024 || f.part.End() > total || (!f.more && f.part.End() != total)
    ensures Accept(store, f, now) == Receipt(store, None)
  {
  }

  /** A part whose declared lengths or UUID contradict those of the parts before it discards them. */
  lemma ContradictionDiscards(store: Store, f: Fragment, now: int)
    requires !f.Single() && Plausible(f) && f.Id() in store
    requires var e := store[f.Id()];
      (e.events != 0 || e.controls != 0 || e.data != 0)
      && (e.events != f.events || e.controls != f.controls || e.data != f.data || e.uuid != f.uuid)
    ensures Accept(store, f, now) == Receipt(store - {f.Id()}, None)
  {
  }

  /** Any other part that does not complete its message is kept, in place of one at the same offset,
      and renews the entry. */
  lemma PartKept(store: Store, f: Fragment, now: int)
    requires StoreInv(store) && !f.Single() && Plausible(f)
    requires f.Id() in store ==>
      var e := store[f.Id()];
      && e.uuid == f.uuid
      && (e.events == e.controls == e.data == 0 || (e.events == f.events && e.controls == f.controls && e.data == f.data))
    ensures var r := Accept(store, f, now);
      var before := if f.Id() in store then store[f.Id()].parts else [];
      r.delivered == None ==>
        && f.Id() in r.store
        && var e := r.store[f.Id()];
           && e.lastTime == now && e.uuid == f.uuid
           && e.events == f.events && e.controls == f.controls && e.data == f.data
           && Sorted(e.parts)
           && forall q :: q in e.parts <==> q == f.part || (q in before && q.offset != f.part.offset)
  {
    var e := EntryFor(store, f, now);
    EntryForInv(store, f, now);
    InsertSorted(e.parts, f.part);
    AcceptSafe(store, f, now);
  }

  /** A sweep removes exactly the entries whose last part is a timeout old, and changes no other. */
  lemma SweepExactly(store: Store, now: int, timeout: int, k: Key)
    ensures k in Sweep(store, now, timeout) <==> k in store && timeout > 0 && now - store[k].lastTime < timeout
    ensures k in Sweep(store, now, timeout) ==> Sweep(store, now, timeout)[k] == store[k]
  {
  }

  datatype Event = Arrive(fragment: Fragment, now: int) | Expire(now: int, timeout: int)

  function StoreAfter(events: seq<Event>): Store {
    if events == [] then map[]
    else
      var store := StoreAfter(events[..|events| - 1]);
      match events[|events| - 1]
      case Arrive(f, now) => Accept(store, f, now).store
      case Expire(now, timeout) => Sweep(store, now, timeout)
  }

  /** Over every run of arbitrary fragments and sweeps. */
  lemma {:induction false} EveryRunSafe(events: seq<Event>)
    ensures StoreInv(StoreAfter(events))
  {
    if events != [] {
      var n := |events| - 1;
      EveryRunSafe(events[..n]);
      if events[n].Arrive? {
        AcceptSafe(StoreAfter(events[..n]), events[n].fragment, events[n].now);
      }
    }
  }
}
