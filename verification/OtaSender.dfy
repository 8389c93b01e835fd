/** Cutting a message to the MTU (rust/emane-core/src/ota_manager.rs:853-930). The protobuf header
    is an opaque byte string. */
module OtaSender {
  import opened Common
  import opened OtaParts

  const PART_INFO_LENGTH := 9
  const MAX_OTA_PAYLOAD := 64 * 1024 * 1024

  function Overhead(header: seq<byte>): nat {
    2 + |header| + PART_INFO_LENGTH
  }

  /** One datagram: header length, header, part information, payload bytes. */
  function Datagram(header: seq<byte>, more: bool, p: Part): seq<byte>
    requires |header| <= U16_MAX && p.offset <= U32_MAX && |p.bytes| <= U32_MAX
  {
    Be16(|header|) + header + [if more then 1 else 0] + Be32(p.offset) + Be32(|p.bytes|) + p.bytes
  }

  /** Its layout: a 16-bit header length, the header, a flag, a 32-bit offset, a 32-bit size, and the
      bytes of the part. */
  lemma DatagramLayout(header: seq<byte>, more: bool, p: Part)
    requires |header| <= U16_MAX && p.offset <= U32_MAX && |p.bytes| <= U32_MAX
    ensures var d, n := Datagram(header, more, p), |header|;
      && |d| == 11 + n + |p.bytes|
      && NumberAt(d, 0, 2) == n && d[2..2 + n] == header
      && d[2 + n] == (if more then 1 else 0)
      && NumberAt(d, 3 + n, 4) == p.offset && NumberAt(d, 7 + n, 4) == |p.bytes|
      && d[11 + n..] == p.bytes
  {
    var d, n := Datagram(header, more, p), |header|;
    assert d[0..2] == Be16(n) && d[3 + n..7 + n] == Be32(p.offset) && d[7 + n..11 + n] == Be32(|p.bytes|);
    Number16At(d, 0, n);
    Number32At(d, 3 + n, p.offset);
    Number32At(d, 7 + n, |p.bytes|);
  }

  /** The parts cut a message, without gap, overlap or empty part. */
  ghost predicate Partition(payload: seq<byte>, parts: seq<Part>) {
    && Contiguous(parts) && LastEnd(parts) == |payload|
    && forall i :: 0 <= i < |parts| ==> PartOf(payload, parts[i])
  }

  predicate Sendable(header: seq<byte>, total: nat, mtu: nat) {
    total <= MAX_OTA_PAYLOAD && |header| <= U16_MAX && (mtu == 0 || total == 0 || Overhead(header) < mtu)
  }

  /** A stretch of one section is a stretch of the message, `base` bytes further on. */
  lemma SectionSlice(front: seq<byte>, section: seq<byte>, back: seq<byte>, at: nat, take: nat)
    requires at + take <= |section|
    ensures (front + section + back)[|front| + at..|front| + at + take] == section[at..at + take]
  {
  }

  lemma SliceExtend(payload: seq<byte>, a: nat, b: nat, c: nat)
    requires a <= b <= c <= |payload|
    ensures payload[a..b] + payload[b..c] == payload[a..c]
  {
  }

  /** Append what a section holds of the bytes still wanted, from `at` on. */
  method TakeSection(ghost front: seq<byte>, section: seq<byte>, ghost back: seq<byte>, start: nat,
                     taken: seq<byte>, ghost offset: nat, at: nat, wanted: nat)
    returns (bytes: seq<byte>, next: nat, left: nat)
    requires start == |front| && offset <= at && at + wanted <= |front + section + back|
    requires taken == (front + section + back)[offset..at]
    ensures next + left == at + wanted && at <= next
    ensures bytes == (front + section + back)[offset..next]
    ensures left > 0 && at >= start ==> next >= start + |section|
  {
    bytes, next, left := taken, at, wanted;
    if start <= at < start + |section| && wanted > 0 {
      var from := at - start;
      var take := if wanted < |section| - from then wanted else |section| - from;
      bytes := taken + section[from..from + take];
      SectionSlice(front, section, back, from, take);
      SliceExtend(front + section + back, offset, at, at + take);
      next, left := at + take, wanted - take;
    }
  }

  /** The bytes of one part, taken from the three sections in turn. */
  method TakeBytes(events: seq<byte>, controls: seq<byte>, data: seq<byte>, offset: nat, size: nat)
    returns (bytes: seq<byte>)
    requires offset + size <= |events| + |controls| + |data|
    ensures bytes == (events + controls + data)[offset..offset + size]
  {
    ghost var payload := events + controls + data;
    assert [] + events + (controls + data) == payload && (events + controls) + data + [] == payload;
    var at, left;
    bytes, at, left := TakeSection([], events, controls + data, 0, [], offset, offset, size);
    bytes, at, left := TakeSection(events, controls, data, |events|, bytes, offset, at, left);
    bytes, at, left := TakeSection(events + controls, data, [], |events| + |controls|, bytes, offset, at, left);
  }

  /** The first `sent` bytes of the message, cut into non-empty parts. */
  ghost predicate Cut(payload: seq<byte>, sent: nat, parts: seq<Part>) {
    && sent <= |payload| && Contiguous(parts) && LastEnd(parts) == sent
    && forall i :: 0 <= i < |parts| ==> PartOf(payload, parts[i]) && parts[i].End() <= sent
  }

  ghost predicate PartOf(payload: seq<byte>, p: Part) {
    p.bytes != [] && p.End() <= |payload| && p.bytes == payload[p.offset..p.End()]
  }

  lemma CutAppend(payload: seq<byte>, sent: nat, parts: seq<Part>, p: Part)
    requires Cut(payload, sent, parts) && PartOf(payload, p) && p.offset == sent
    ensures Cut(payload, p.End(), parts + [p])
  {
  }

  /** What holds of a datagram: it carries its part, says whether more follow, respects the MTU,
      and fills it unless it is the last. */
  ghost predicate Carries(header: seq<byte>, total: nat, mtu: nat, p: Part, datagram: seq<byte>) {
    && |header| <= U16_MAX && p.End() <= U32_MAX
    && datagram == Datagram(header, p.End() < total, p)
    && (mtu != 0 ==> |datagram| <= mtu)
    && (p.End() < total ==> mtu != 0 && |datagram| == mtu)
  }

  /** One turn of the sender loop. */
  method NextPart(header: seq<byte>, events: seq<byte>, controls: seq<byte>, data: seq<byte>, mtu: nat, sent: nat)
    returns (p: Part, datagram: seq<byte>)
    requires Sendable(header, |events| + |controls| + |data|, mtu) && sent < |events| + |controls| + |data|
    ensures PartOf(events + controls + data, p) && p.offset == sent
    ensures Carries(header, |events| + |controls| + |data|, mtu, p, datagram)
  {
    var total := |events| + |controls| + |data|;
    var wire := total - sent + Overhead(header);
    var more := mtu != 0 && wire > mtu;
    var size := if more then mtu - Overhead(header) else total - sent;
    var bytes := TakeBytes(events, controls, data, sent, size);
    p := Part(sent, bytes);
    datagram := Datagram(header, more, p);
  }

  ghost predicate AllCarry(header: seq<byte>, total: nat, mtu: nat, parts: seq<Part>, datagrams: seq<seq<byte>>) {
    |datagrams| == |parts| && forall i :: 0 <= i < |parts| ==> Carries(header, total, mtu, parts[i], datagrams[i])
  }

  lemma CarryAppend(header: seq<byte>, total: nat, mtu: nat, parts: seq<Part>, datagrams: seq<seq<byte>>, p: Part, d: seq<byte>)
    requires AllCarry(header, total, mtu, parts, datagrams) && Carries(header, total, mtu, p, d)
    ensures AllCarry(header, total, mtu, parts + [p], datagrams + [d])
  {
  }

  /** The sender loop: it refuses exactly the messages that cannot be cut, and otherwise sends a
      partition of the message, one part to a datagram. */
  method Send(header: seq<byte>, events: seq<byte>, controls: seq<byte>, data: seq<byte>, mtu: nat)
    returns (r: Result<seq<seq<byte>>>, parts: seq<Part>)
    ensures var total := |events| + |controls| + |data|;
      r.Ok? <==> total <= 64 * 1024 * 1024 && |header| < 0x1_0000 && (mtu == 0 || total == 0 || |header| + 11 < mtu)
    ensures r.Ok? ==> Partition(events + controls + data, parts)
    ensures r.Ok? ==> AllCarry(header, |events| + |controls| + |data|, mtu, parts, r.value)
  {
    parts := [];
    var total := |events| + |controls| + |data|;
    ghost var payload := events + controls + data;
    if total > MAX_OTA_PAYLOAD || |header| > U16_MAX {
      return Err, [];
    }
    if mtu != 0 && mtu <= Overhead(header) && total != 0 {
      return Err, [];
    }
    var datagrams := [];
    var sent := 0;
    while sent < total
      invariant Cut(payload, sent, parts) && AllCarry(header, total, mtu, parts, datagrams)
      decreases total - sent
    {
      var p, datagram := NextPart(header, events, controls, data, mtu, sent);
      CutAppend(payload, sent, parts, p);
      CarryAppend(header, total, mtu, parts, datagrams, p, datagram);
      datagrams := datagrams + [datagram];
      parts := parts + [p];
      sent := sent + |p.bytes|;
    }
    return Ok(datagrams), parts;
  }

  /** Only the last part of a partition reaches the end. */
  lemma LastPart(payload: seq<byte>, parts: seq<Part>, i: nat)
    requires Partition(payload, parts) && i < |parts|
    ensures parts[i].End() < |payload| <==> i + 1 < |parts|
  {
    if i + 1 < |parts| {
      assert parts[i + 1].offset == parts[i].End() && parts[i + 1].bytes != [];
    }
  }

  /** The parts of a partition, joined, are the message; none could be left out. */
  lemma PartitionJoins(payload: seq<byte>, parts: seq<Part>)
    requires Partition(payload, parts)
    ensures Join(parts) == payload && SumLengths(parts) == |payload| && Sorted(parts)
  {
    ReachExactly(parts, |payload|);
    var n := |parts|;
    forall i, j | 0 <= i < j < n
      ensures parts[i].offset < parts[j].offset
    {
      OffsetsIncrease(payload, parts, i, j);
    }
    JoinPrefix(payload, parts, n);
    assert parts[..n] == parts;
  }

  lemma {:induction false} OffsetsIncrease(payload: seq<byte>, parts: seq<Part>, i: nat, j: nat)
    requires Partition(payload, parts) && i < j < |parts|
    ensures parts[i].End() <= parts[j].offset
    decreases j
  {
    if i + 1 < j {
      OffsetsIncrease(payload, parts, i, j - 1);
    }
  }

  lemma {:induction false} JoinPrefix(payload: seq<byte>, parts: seq<Part>, n: nat)
    requires Partition(payload, parts) && n <= |parts|
    ensures LastEnd(parts[..n]) <= |payload| && Join(parts[..n]) == payload[..LastEnd(parts[..n])]
  {
    if n > 0 {
      JoinPrefix(payload, parts, n - 1);
      assert parts[..n][..n - 1] == parts[..n - 1];
      var p := parts[n - 1];
      assert payload[..p.End()] == payload[..p.offset] + payload[p.offset..p.End()];
    } else {
      assert parts[..0] == [];
    }
  }
}
