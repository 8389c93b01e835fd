/** A recorder with several sub-bands, one sub-band at a time: the branches of
    `NoiseRecorder::update` for more than one sub-band
    (rust/emane-core/src/noise_recorder.rs:394-527). They write the whole reception where the
    branches for a single sub-band write only the bins in front of or behind the recorded range. */
module NoiseBands {
  import opened Common
  import opened NoiseWheel
  import opened NoiseSpan
  import opened NoiseExact

  // ---------- a sub-band that the reception covers ----------

  /** Clear some bins, then set all bins of the reception. */
  function ClearThenSet(slots: Slots, lo: int, count: int, start: int, end: int, power: real): Option<Slots> {
    var cleared := TrySet(slots, lo, count, 0.0);
    if cleared.None? then None else TrySet(cleared.value, start, end - start + 1, power)
  }

  function BandBefore(s: Span, start: int, end: int, power: real): Option<Slots> {
    var before := BeforeCount(s, start, end);
    if before > 0 then ClearThenSet(s.slots, start, before, start, end, power) else Some(s.slots)
  }

  function BandAfter(slots: Slots, s: Span, start: int, end: int, power: real): Option<Slots> {
    var after := AfterCount(s, start, end);
    if after > 0 then ClearThenSet(slots, end + 1 - after, after, start, end, power) else Some(slots)
  }

  function BandMerge(s: Span, start: int, end: int, power: real): Option<Slots> {
    var s1 := BandBefore(s, start, end, power);
    if s1.None? then None else
    var s2 := BandAfter(s1.value, s, start, end, power);
    if s2.None? then None else
    WriteWithin(s2.value, s, start, end, power)
  }

  /** One applied reception, in a sub-band it covers; None when the wheel panics. */
  function BandApply(s0: Span, start: int, end: int, power: real): Option<Span> {
    var s := Reset(s0, start);
    if s.first == 0 && s.last == 0 then Apply(s0, start, end, power)
    else
      var slots := BandMerge(s, start, end, power);
      if slots.None? then None else
      Some(Span(slots.value,
                if start < s.first then start else s.first,
                if end > s.last then end else s.last))
  }

  ghost predicate BandFaithful(s: Span, log: seq<Reception>, start: int, end: int, power: real) {
    var s' := BandApply(s, start, end, power);
    s'.Some? && Agrees(s'.value, log + [Reception(start, end, power, [], 0)])
  }

  /** The reception overlaps the recorded range without lying inside it. */
  predicate SticksOut(s: Span, start: int, end: int) {
    && s.last != 0 && start < s.last + |s.slots|
    && start <= s.last && s.first <= end && (start < s.first || s.last < end)
  }

  lemma FillAgain(slots: Slots, lo: int, n: int, power: real)
    ensures Fill(Fill(slots, lo, n, 0.0), lo, n, power) == Fill(slots, lo, n, power)
  {
  }

  /** A reception that does not stick out is written as with a single sub-band. */
  lemma BandIsPlain(s: Span, start: int, end: int, power: real)
    requires (s.first == 0 == s.last || 1 <= s.first <= s.last) && 1 <= start <= end
    requires !SticksOut(s, start, end)
    ensures BandApply(s, start, end, power) == Apply(s, start, end, power)
  {
    FillAgain(s.slots, start, end - start + 1, power);
  }

  /** The last two writes of a reception that sticks out: all its bins are set to its power, and then
      the bins it overlaps have its power added. */
  lemma BandShape(s: Span, start: int, end: int, power: real) returns (held: Slots)
    requires 1 <= s.first <= s.last && 1 <= start <= end && SticksOut(s, start, end)
    requires BandApply(s, start, end, power).Some?
    ensures |held| == |s.slots| && end - start < |s.slots|
    ensures var before := BeforeCount(s, start, end);
      BandApply(s, start, end, power).value.slots
      == Boost(Fill(held, start, end - start + 1, power), start + before,
               end - start + 1 - before - AfterCount(s, start, end), power)
  {
    var before, after := BeforeCount(s, start, end), AfterCount(s, start, end);
    var s1 := BandBefore(s, start, end, power).value;
    held := if after > 0 then Fill(s1, end + 1 - after, after, 0.0) else Fill(s.slots, start, before, 0.0);
  }

  lemma SetThenAdded(held: Slots, lo1: int, n1: int, lo2: int, n2: int, power: real, x: int, b: int)
    requires lo1 <= b < lo1 + n1 && lo2 <= b < lo2 + n2 && n1 <= |held| && n2 <= |held|
    requires Slot(x - b, |held|) == 0
    ensures At(Boost(Fill(held, lo1, n1, power), lo2, n2, power), x) == power + power
  {
    var w := |held|;
    SlotAlias(x, b, lo1, w);
    SlotAlias(x, b, lo2, w);
    HitsNear(b, lo1, n1, w);
    HitsNear(b, lo2, n2, w);
    WriteAt(held, lo1, n1, power, x);
    WriteAt(Fill(held, lo1, n1, power), lo2, n2, power, x);
  }

  /** So an overlapped bin holds the power twice, whatever it held before. */
  lemma Overwritten(s: Span, start: int, end: int, power: real, x: int, b: int)
    requires 1 <= s.first <= s.last && 1 <= start <= end && SticksOut(s, start, end)
    requires BandApply(s, start, end, power).Some?
    requires s.first <= b <= s.last && start <= b <= end && Slot(x - b, |s.slots|) == 0
    ensures At(BandApply(s, start, end, power).value.slots, x) == power + power
  {
    var held := BandShape(s, start, end, power);
    var n, before := end - start + 1, BeforeCount(s, start, end);
    SetThenAdded(held, start, n, start + before, n - before - AfterCount(s, start, end), power, x, b);
  }

  /** The same with numbers: on a wheel of ten bins, bins 1 and 2 receive p and then bins 2 and 3
      receive q; bin 2 reads q + q instead of p + q. */
  lemma OverwrittenExample(empty: Span, p: real, q: real)
    requires empty.first == 0 && empty.last == 0 && |empty.slots| == 10
    ensures var s := BandApply(empty, 1, 2, p);
      && s.Some? && BandApply(s.value, 2, 3, q).Some?
      && At(BandApply(s.value, 2, 3, q).value.slots, 2) == q + q
      && Power([Reception(1, 2, p, [], 0), Reception(2, 3, q, [], 0)], 2) == p + q
  {
    var s := BandApply(empty, 1, 2, p).value;
    Overwritten(s, 2, 3, q, 2, 2);
    var r1, r2 := Reception(1, 2, p, [], 0), Reception(2, 3, q, [], 0);
    assert [r1] + [r2] == [r1, r2] && [] + [r1] == [r1];
    PowerAppend([r1], r2, 2);
    PowerAppend([], r1, 2);
  }

  /** A bin the reception overlaps, and the live bin in whose slot it lies. */
  lemma OverlappedBin(s: Span, start: int, end: int) returns (b: int, x: int)
    requires 1 <= s.first <= s.last && 1 <= start <= end && SticksOut(s, start, end)
    requires end - start < |s.slots|
    ensures s.first <= b <= s.last && start <= b <= end && Slot(x - b, |s.slots|) == 0
    ensures x == b || end < x
    ensures var last := if end > s.last then end else s.last; last - |s.slots| < x <= last && b <= x
  {
    var w := |s.slots|;
    b := if start < s.first then s.first else start;
    x := b;
    var last := if end > s.last then end else s.last;
    if b <= last - w {
      x := Alias(last, b, w);
    }
  }

  /** A reception that sticks out is recorded wrongly for some power. */
  lemma SticksOutUnfaithful(s: Span, log: seq<Reception>, start: int, end: int) returns (p: real)
    requires log != [] && Refines(s, log) && 1 <= start <= end && SticksOut(s, start, end)
    ensures p > 0.0 && !BandFaithful(s, log, start, end, p)
  {
    p := 1.0;
    if BandApply(s, start, end, p).Some? {
      var held := BandShape(s, start, end, p);
      var b, x := OverlappedBin(s, start, end);
      p := Above(Power(log, x));
      if BandApply(s, start, end, p).Some? {
        BandRefuted(s, log, start, end, p, x, b);
      }
    }
  }

  /** An overlapped bin that reads twice the power, where less was due. */
  lemma BandRefuted(s: Span, log: seq<Reception>, start: int, end: int, p: real, x: int, b: int)
    requires 1 <= s.first <= s.last && 1 <= start <= end && SticksOut(s, start, end)
    requires BandApply(s, start, end, p).Some? && p > 0.0 && p > Power(log, x)
    requires s.first <= b <= s.last && start <= b <= end && Slot(x - b, |s.slots|) == 0 && (x == b || end < x)
    requires var last := if end > s.last then end else s.last; last - |s.slots| < x <= last && b <= x
    ensures !BandFaithful(s, log, start, end, p)
  {
    var held := BandShape(s, start, end, p);
    assert Live(BandApply(s, start, end, p).value, x);
    Overwritten(s, start, end, p, x, b);
    PowerAppend(log, Reception(start, end, p, [], 0), x);
  }

  /** The exact condition: with several sub-bands a reception is represented faithfully in a sub-band
      it covers, whatever its power, if and only if it fits and does not stick out of the recorded
      range it overlaps. */
  lemma BandFaithfulExactly(s: Span, log: seq<Reception>, start: int, end: int)
    requires Refines(s, log) && 1 <= start <= end
    ensures Harmless(s, log, start, end) && !SticksOut(s, start, end)
       <==> forall p :: p > 0.0 ==> BandFaithful(s, log, start, end, p)
  {
    if SticksOut(s, start, end) {
      var p := SticksOutUnfaithful(s, log, start, end);
    } else {
      FaithfulExactlyWhenFits(s, log, start, end);
      forall p | p > 0.0
        ensures BandFaithful(s, log, start, end, p) == Faithful(s, log, start, end, p)
      {
        BandIsPlain(s, start, end, p);
      }
    }
  }

  // ---------- a sub-band that the reception does not touch ----------

  function SkipMerge(s: Span, start: int, end: int): Option<Slots> {
    var s1 := WriteBefore(s, start, end, 0.0);
    if s1.None? then None else
    var s2 := WriteAfter(s1.value, s, start, end, 0.0);
    if s2.None? then None else
    if end - start + 1 - BeforeCount(s, start, end) - AfterCount(s, start, end) > 0 then s2
    else WriteWithin(s2.value, s, start, end, 0.0)
  }

  /** Such a sub-band is cleared where the range grows; nothing else is written to it, not even when
      the range starts anew. */
  function SkipApply(s0: Span, start: int, end: int): Option<Span> {
    var s := Reset(s0, start);
    if s.first == 0 && s.last == 0 then Some(Span(s.slots, start, end))
    else
      var slots := SkipMerge(s, start, end);
      if slots.None? then None else
      Some(Span(slots.value,
                if start < s.first then start else s.first,
                if end > s.last then end else s.last))
  }

  lemma BoostByNothing(slots: Slots, lo: int, n: int)
    ensures Boost(slots, lo, n, 0.0) == slots
  {
  }

  /** While the range goes on, an untouched sub-band is kept as by a reception without power. */
  lemma SkipIsZeroPower(s: Span, start: int, end: int)
    requires 1 <= s.first <= s.last && 1 <= start <= end && !Stale(s, start) && Fits(s, start, end)
    ensures SkipApply(s, start, end) == Apply(s, start, end, 0.0)
  {
    var s1 := WriteBefore(s, start, end, 0.0);
    if s1.Some? && WriteAfter(s1.value, s, start, end, 0.0).Some? {
      var before := BeforeCount(s, start, end);
      BoostByNothing(WriteAfter(s1.value, s, start, end, 0.0).value, start + before,
                     end - start + 1 - before - AfterCount(s, start, end));
    }
  }

  lemma SkipRefines(s: Span, log: seq<Reception>, r: Reception)
    requires log != [] && Refines(s, log) && r.power == 0.0 && 1 <= r.start <= r.end
    requires !Stale(s, r.start) && Fits(s, r.start, r.end)
    ensures var s' := SkipApply(s, r.start, r.end);
      s'.Some? && Refines(s'.value, log + [r]) && forall b :: Power(log + [r], b) == Power(log, b)
  {
    SkipIsZeroPower(s, r.start, r.end);
    ApplyRefines(s, log, r);
    forall b
      ensures Power(log + [r], b) == Power(log, b)
    {
      PowerAppend(log, r, b);
    }
  }

  /** When the range starts anew, an untouched sub-band is right if and only if the slots of the
      reception happen to hold zeros. */
  lemma SkipStaleSlots(s: Span, log: seq<Reception>, start: int, end: int)
    requires Refines(s, log) && 1 <= start <= end && end - start < |s.slots|
    requires log == [] || Stale(s, start)
    ensures Agrees(SkipApply(s, start, end).value, log + [Reception(start, end, 0.0, [], 0)])
       <==> Zeros(s, start, end)
  {
    var r := Reception(start, end, 0.0, [], 0);
    var s' := SkipApply(s, start, end).value;
    forall b | start <= b <= end
      ensures Live(s', b) && Power(log + [r], b) == 0.0
    {
      PowerAppend(log, r, b);
      PowerUncovered(log, b);
    }
  }

  ghost predicate Zeros(s: Span, start: int, end: int) {
    forall b :: start <= b <= end ==> At(s.slots, b) == 0.0
  }

  predicate ShareSlot(s: Span, x: int, b: int) {
    Slot(x - b, |s.slots|) == 0
  }

  /** What was recorded a turn or more ago reads as current: a bin of the reception reads as the live
      bin in whose slot it lies. */
  lemma SkipStaleReads(s: Span, log: seq<Reception>, start: int, end: int, x: int, b: int)
    requires log != [] && Refines(s, log) && Stale(s, start)
    requires start <= b <= end && Live(s, x) && ShareSlot(s, x, b)
    ensures At(SkipApply(s, start, end).value.slots, b) == Power(log, x)
  {
    SlotAlias(x, b, 0, |s.slots|);
  }

  /** The same with numbers: on a wheel of ten bins, bin 1 receives p in this sub-band, and then bin
      11 is received in another one; bin 11 reads p. */
  lemma SkipStaleExample(empty: Span, p: real)
    requires empty.first == 0 && empty.last == 0 && |empty.slots| == 10
    ensures var s := BandApply(empty, 1, 1, p);
      && s.Some? && SkipApply(s.value, 11, 11).Some?
      && Live(SkipApply(s.value, 11, 11).value, 11)
      && At(SkipApply(s.value, 11, 11).value.slots, 11) == p
      && Power([Reception(1, 1, p, [], 0), Reception(11, 11, 0.0, [], 0)], 11) == 0.0
  {
    FillAt(empty.slots, 1, 1, p, 11);
    var r1, r2 := Reception(1, 1, p, [], 0), Reception(11, 11, 0.0, [], 0);
    assert [r1] + [r2] == [r1, r2] && [] + [r1] == [r1];
    PowerAppend([r1], r2, 11);
    PowerAppend([], r1, 11);
  }

  /** The live bin in whose slot a later bin lies, when the recorded range spans a turn. */
  lemma LiveAlias(s: Span, b: int) returns (x: int)
    requires |s.slots| <= s.last - s.first + 1
    ensures Live(s, x) && ShareSlot(s, x, b)
  {
    var w, d := |s.slots|, s.last - b;
    x := s.last - Slot(d, w);
    SlotShift(d, -Slot(d, w), w);
    assert d + -Slot(d, w) == x - b;
  }

  /** No live bin lies in the slot of bin b. */
  ghost predicate Unshared(s: Span, b: int) {
    forall x :: Live(s, x) ==> !ShareSlot(s, x, b)
  }

  /** No bin recorded in the present range would read as power of the reception. */
  ghost predicate NoEcho(s: Span, log: seq<Reception>, start: int, end: int) {
    forall x, b :: Live(s, x) && start <= b <= end && ShareSlot(s, x, b) ==> Power(log, x) == 0.0
  }

  /** So an untouched sub-band is right after the range starts anew if and only if no live bin in a
      slot of the reception held power, and the slots of no live bin hold zeros. When the recorded
      range spans a turn there are none of the latter. */
  lemma SkipStaleExactly(s: Span, log: seq<Reception>, start: int, end: int)
    requires log != [] && Refines(s, log) && Stale(s, start) && 1 <= start <= end && end - start < |s.slots|
    ensures Agrees(SkipApply(s, start, end).value, log + [Reception(start, end, 0.0, [], 0)])
       <==> NoEcho(s, log, start, end) && forall b :: start <= b <= end && Unshared(s, b) ==> At(s.slots, b) == 0.0
    ensures |s.slots| <= s.last - s.first + 1 ==> forall b :: !Unshared(s, b)
  {
    SkipStaleSlots(s, log, start, end);
    forall x, b | Live(s, x) && start <= b <= end && ShareSlot(s, x, b)
      ensures At(s.slots, b) == Power(log, x)
    {
      SkipStaleReads(s, log, start, end, x, b);
    }
    if |s.slots| <= s.last - s.first + 1 {
      forall b
        ensures !Unshared(s, b)
      {
        var x := LiveAlias(s, b);
      }
    }
  }

  // ---------- runs ----------

  /** One reception as a sub-band sees it: with its share of the power, or not at all. */
  datatype Share = Share(start: int, end: int, power: Option<real>) {
    function AsReception(): Reception {
      Reception(start, end, if power.Some? then power.value else 0.0, [], 0)
    }
  }

  function BandStep(s: Span, e: Share): Option<Span> {
    if e.power.Some? then BandApply(s, e.start, e.end, e.power.value) else SkipApply(s, e.start, e.end)
  }

  /** Where the sub-band is covered the reception fits and does not stick out; where it is skipped the
      reception fits, or starts a new range over slots that hold nothing. */
  ghost predicate BandFits(s: Span, e: Share) {
    && 1 <= e.start <= e.end && Fits(s, e.start, e.end)
    && (if e.power.Some? then !SticksOut(s, e.start, e.end)
        else (s.last == 0 || s.last + |s.slots| <= e.start ==> Zeros(s, e.start, e.end)))
  }

  function BandRun(s: Span, shares: seq<Share>): Option<Span> {
    if shares == [] then Some(s)
    else
      var prior := BandRun(s, shares[..|shares| - 1]);
      if prior.None? then None else BandStep(prior.value, shares[|shares| - 1])
  }

  /** What the sub-band received. */
  function BandLog(shares: seq<Share>): seq<Reception> {
    seq(|shares|, i requires 0 <= i < |shares| => shares[i].AsReception())
  }

  ghost predicate BandRunFits(s: Span, shares: seq<Share>) {
    forall k :: 0 <= k < |shares| && BandRun(s, shares[..k]).Some? ==>
      BandFits(BandRun(s, shares[..k]).value, shares[k])
  }

  lemma BandStepRefines(s: Span, log: seq<Reception>, e: Share)
    requires Refines(s, log) && BandFits(s, e)
    ensures var s' := BandStep(s, e);
      s'.Some? && |s'.value.slots| == |s.slots| && Refines(s'.value, log + [e.AsReception()])
  {
    var r := e.AsReception();
    if e.power.Some? {
      BandIsPlain(s, e.start, e.end, e.power.value);
      ApplyRefines(s, log, r);
    } else if log == [] || Stale(s, e.start) {
      SkipStaleSlots(s, log, e.start, e.end);
      StaleRange(s, log, r, SkipApply(s, e.start, e.end).value);
    } else {
      SkipIsZeroPower(s, e.start, e.end);
      ApplyRefines(s, log, r);
    }
  }

  lemma BandRunExtends(s: Span, front: seq<Share>, mid: Span, e: Share)
    requires BandRun(s, front) == Some(mid) && Refines(mid, BandLog(front)) && BandFits(mid, e)
    ensures var s' := BandRun(s, front + [e]);
      s'.Some? && |s'.value.slots| == |mid.slots| && Refines(s'.value, BandLog(front + [e]))
  {
    assert (front + [e])[..|front|] == front;
    assert BandLog(front + [e]) == BandLog(front) + [e.AsReception()];
    BandStepRefines(mid, BandLog(front), e);
  }

  /** Over every run from an empty wheel, of receptions that cover the sub-band or skip it, after each
      of them: no update panics, and every live bin holds the sum of the shares received. */
  lemma {:induction false} BandRunRefines(s: Span, shares: seq<Share>, n: nat)
    requires s.first == 0 == s.last && BandRunFits(s, shares) && n <= |shares|
    ensures var s' := BandRun(s, shares[..n]);
      s'.Some? && |s'.value.slots| == |s.slots| && Refines(s'.value, BandLog(shares[..n]))
  {
    if n > 0 {
      var front, e := shares[..n - 1], shares[n - 1];
      assert shares[..n] == front + [e];
      BandRunRefines(s, shares, n - 1);
      assert BandFits(BandRun(s, front).value, e);
      BandRunExtends(s, front, BandRun(s, front).value, e);
    } else {
      assert shares[..0] == [];
    }
  }
}
