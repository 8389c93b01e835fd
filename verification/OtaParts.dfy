/** Message parts by offset: how the receiver keeps them and when they tile a message
    (rust/emane-core/src/ota_manager.rs:33-41 and 562-592). */
module OtaParts {
  import opened Common

  datatype Part = Part(offset: nat, bytes: seq<byte>) {
    function End(): nat { offset + |bytes| }
  }

  /** The order of a BTreeMap: one part for each offset, by increasing offset. */
  ghost predicate Sorted(parts: seq<Part>) {
    forall i, j :: 0 <= i < j < |parts| ==> parts[i].offset < parts[j].offset
  }

  /** `parts.insert`: a part at the same offset is replaced. */
  function Insert(parts: seq<Part>, p: Part): seq<Part> {
    if parts == [] then [p]
    else
      var n := |parts| - 1;
      if parts[n].offset < p.offset then parts + [p]
      else if parts[n].offset == p.offset then parts[..n] + [p]
      else Insert(parts[..n], p) + [parts[n]]
  }

  /** The length of the part that an insertion at this offset replaces. */
  function ReplacedLength(parts: seq<Part>, offset: nat): nat {
    if parts == [] then 0
    else
      var n := |parts| - 1;
      if parts[n].offset == offset then |parts[n].bytes| else ReplacedLength(parts[..n], offset)
  }

  function SumLengths(parts: seq<Part>): nat {
    if parts == [] then 0 else SumLengths(parts[..|parts| - 1]) + |parts[|parts| - 1].bytes|
  }

  function Join(parts: seq<Part>): seq<byte> {
    if parts == [] then [] else Join(parts[..|parts| - 1]) + parts[|parts| - 1].bytes
  }

  /** The contiguity scan: how far the parts reach from offset 0 without a gap or an overlap. */
  function Reach(parts: seq<Part>, limit: nat): Option<nat> {
    if parts == [] then Some(0)
    else
      var r := Reach(parts[..|parts| - 1], limit);
      var p := parts[|parts| - 1];
      if r.None? || p.offset != r.value || p.End() > limit then None else Some(p.End())
  }

  ghost predicate Within(parts: seq<Part>, limit: nat) {
    forall p :: p in parts ==> p.End() <= limit
  }

  /** Insertion keeps the order, adds exactly the new part, and keeps every part at another offset. */
  lemma {:induction false} InsertSorted(parts: seq<Part>, p: Part)
    requires Sorted(parts)
    ensures Sorted(Insert(parts, p))
    ensures forall q :: q in Insert(parts, p) <==> q == p || (q in parts && q.offset != p.offset)
  {
    if parts != [] {
      var n := |parts| - 1;
      var front, q := parts[..n], parts[n];
      assert parts == front + [q];
      if q.offset > p.offset {
        InsertSorted(front, p);
        InsertBelow(front, p, q.offset);
      }
    }
  }

  lemma SumAppend(parts: seq<Part>, p: Part)
    ensures SumLengths(parts + [p]) == SumLengths(parts) + |p.bytes|
  {
    assert (parts + [p])[..|parts|] == parts;
  }

  /** Insertion changes the sum of the lengths by the new part less the one it replaces. */
  lemma {:induction false} InsertSum(parts: seq<Part>, p: Part)
    requires Sorted(parts)
    ensures SumLengths(Insert(parts, p)) == SumLengths(parts) - ReplacedLength(parts, p.offset) + |p.bytes|
    ensures ReplacedLength(parts, p.offset) <= SumLengths(parts)
  {
    if parts == [] {
      SumAppend([], p);
      assert [] + [p] == [p];
    } else {
      var n := |parts| - 1;
      var front, q := parts[..n], parts[n];
      if q.offset < p.offset {
        NotFound(parts, p.offset);
        SumAppend(parts, p);
      } else if q.offset == p.offset {
        SumAppend(front, p);
      } else {
        InsertSum(front, p);
        SumAppend(Insert(front, p), q);
      }
    }
  }

  lemma {:induction false} NotFound(parts: seq<Part>, offset: nat)
    requires forall i :: 0 <= i < |parts| ==> parts[i].offset != offset
    ensures ReplacedLength(parts, offset) == 0
  {
    if parts != [] {
      NotFound(parts[..|parts| - 1], offset);
    }
  }

  lemma {:induction false} InsertBelow(parts: seq<Part>, p: Part, bound: nat)
    requires p.offset < bound && forall i :: 0 <= i < |parts| ==> parts[i].offset < bound
    ensures forall i :: 0 <= i < |Insert(parts, p)| ==> Insert(parts, p)[i].offset < bound
  {
    if parts != [] {
      InsertBelow(parts[..|parts| - 1], p, bound);
    }
  }

  /** Each part starts where the previous one ends. */
  ghost predicate Contiguous(parts: seq<Part>) {
    && (parts != [] ==> parts[0].offset == 0)
    && forall i :: 0 < i < |parts| ==> parts[i].offset == parts[i - 1].End()
  }

  function LastEnd(parts: seq<Part>): nat {
    if parts == [] then 0 else parts[|parts| - 1].End()
  }

  /** What a successful scan has seen. */
  lemma {:induction false} ReachContiguous(parts: seq<Part>, limit: nat)
    requires Reach(parts, limit).Some?
    ensures Contiguous(parts) && Within(parts, limit) && Reach(parts, limit).value == LastEnd(parts)
  {
    if parts != [] {
      var n := |parts| - 1;
      var front := parts[..n];
      ReachContiguous(front, limit);
      assert parts == front + [parts[n]];
      forall i | 0 < i < |parts|
        ensures parts[i].offset == parts[i - 1].End()
      {
        if i < n {
          assert front[i].offset == front[i - 1].End();
        }
      }
    }
  }

  /** Contiguous parts inside the message pass the scan. */
  lemma {:induction false} ContiguousReaches(parts: seq<Part>, limit: nat)
    requires Contiguous(parts) && Within(parts, limit)
    ensures Reach(parts, limit) == Some(LastEnd(parts))
    ensures LastEnd(parts) == SumLengths(parts) == |Join(parts)|
  {
    if parts != [] {
      var n := |parts| - 1;
      var front := parts[..n];
      assert forall i :: 0 <= i < n ==> front[i] == parts[i];
      assert forall p :: p in front ==> p in parts;
      ContiguousReaches(front, limit);
      assert parts[n] in parts;
    }
  }

  /** The scan succeeds exactly on contiguous parts inside the message, and returns their end. */
  lemma {:induction false} ReachExactly(parts: seq<Part>, limit: nat)
    ensures Reach(parts, limit).Some? <==> Contiguous(parts) && Within(parts, limit)
    ensures Reach(parts, limit).Some? ==>
      Reach(parts, limit).value == LastEnd(parts) == SumLengths(parts) == |Join(parts)|
  {
    if Reach(parts, limit).Some? {
      ReachContiguous(parts, limit);
    }
    if Contiguous(parts) && Within(parts, limit) {
      ContiguousReaches(parts, limit);
    }
  }

  lemma ContiguousFront(parts: seq<Part>)
    requires Contiguous(parts) && parts != []
    ensures Contiguous(parts[..|parts| - 1]) && LastEnd(parts[..|parts| - 1]) == parts[|parts| - 1].offset
  {
    var front := parts[..|parts| - 1];
    assert forall k :: 0 <= k < |front| ==> front[k] == parts[k];
  }

  lemma {:induction false} JoinLength(parts: seq<Part>)
    requires Contiguous(parts)
    ensures |Join(parts)| == LastEnd(parts) && forall i :: 0 <= i < |parts| ==> parts[i].End() <= LastEnd(parts)
  {
    if parts != [] {
      var n := |parts| - 1;
      ContiguousFront(parts);
      JoinLength(parts[..n]);
      assert forall i :: 0 <= i < n ==> parts[..n][i] == parts[i];
    }
  }

  /** Joined contiguous parts hold every part at its offset. */
  lemma {:induction false} JoinAt(parts: seq<Part>, i: nat)
    requires Contiguous(parts) && i < |parts|
    ensures |Join(parts)| == LastEnd(parts) && parts[i].End() <= LastEnd(parts)
    ensures Join(parts)[parts[i].offset..parts[i].End()] == parts[i].bytes
  {
    var n := |parts| - 1;
    var front, p := parts[..n], parts[i];
    JoinLength(parts);
    ContiguousFront(parts);
    JoinLength(front);
    if i < n {
      assert front[i] == p;
      JoinAt(front, i);
      assert Join(parts)[p.offset..p.End()] == Join(front)[p.offset..p.End()];
    }
  }
}
