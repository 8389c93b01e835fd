/** The recorder object: the in-place form of `NoiseRecorder` for one sub-band, proved against
    the value-level update and against the log of applied receptions. */
module NoiseDevice {
  import opened Common
  import opened NoiseWheel
  import opened NoiseSpan
  import opened NoiseRecorder
  import opened NoiseArrivals

  /** "From the start of the window": the smallest 64-bit time. */
  const TIME_MIN: int := -0x8000_0000_0000_0000
  const TIME_MAX: int := 0x7fff_ffff_ffff_ffff

  function Max(a: int, b: int): int { if a < b then b else a }

  function Min(a: int, b: int): int { if a < b then a else b }

  /** An accepted query: its bins, and the time at which they start. */
  datatype Query = Query(first: int, last: int, start: int)

  /** The query is answered when it lies in the window that ends now. */
  function QueryOf(now: int, duration: int, startTime: int, binSize: int, windowBins: int): Option<Query>
    requires binSize > 0
  {
    var oldest := TimeToBin(now, binSize, true) - windowBins + 1;
    var start := if startTime == TIME_MIN then oldest * binSize else startTime;
    var end := if duration == 0 then now else start + duration;
    if duration < 0 || now < 0 || start < oldest * binSize || now < start || now < end
       || (duration != 0 && TIME_MAX < start + duration)
    then None
    else
      var first := TimeToBin(start, binSize, false);
      Some(Query(first, TimeToBin(end, binSize, true), first * binSize))
  }

  /** An accepted query starts in the window, has no negative length, and is at most a window. */
  lemma QueryBins(now: int, start: int, end: int, binSize: int, windowBins: int)
    requires binSize > 0 && windowBins >= 1 && 0 <= now
    requires (TimeToBin(now, binSize, true) - windowBins + 1) * binSize <= start <= end <= now
    ensures var oldest := TimeToBin(now, binSize, true) - windowBins + 1;
      var first, last := TimeToBin(start, binSize, false), TimeToBin(end, binSize, true);
      oldest <= first <= last + 1 && last - first + 1 <= windowBins && oldest * binSize <= first * binSize
  {
    var oldest := TimeToBin(now, binSize, true) - windowBins + 1;
    TruncOfMultiple(oldest, binSize);
    TruncMonotone(oldest * binSize, start, binSize);
    MulMonotone(oldest, TimeToBin(start, binSize, false), binSize);
    TruncMonotone(start, end, binSize);
    EndMonotone(end, now, binSize);
  }

  /** The bin of the last instant before the time; bin 0 for time 0. */
  predicate IsLastBin(now: int, binSize: int, last: int) {
    if now == 0 then last == 0 else last * binSize < now <= (last + 1) * binSize
  }

  lemma LastBin(now: int, binSize: int)
    requires binSize > 0 && now >= 0
    ensures IsLastBin(now, binSize, TimeToBin(now, binSize, true))
  {
    if now > 0 {
      assert now == now / binSize * binSize + now % binSize;
    }
  }

  lemma LastBinUnique(now: int, binSize: int, a: int, b: int)
    requires binSize > 0 && now >= 0 && IsLastBin(now, binSize, a) && IsLastBin(now, binSize, b)
    ensures a == b
  {
    if now > 0 {
      if a < b {
        MulMonotone(a + 1, b, binSize);
      } else if b < a {
        MulMonotone(b + 1, a, binSize);
      }
    }
  }

  lemma OldestNotAfterNow(now: int, binSize: int, windowBins: int)
    requires binSize > 0 && windowBins >= 1 && now >= 0
    ensures (TimeToBin(now, binSize, true) - windowBins + 1) * binSize <= now
  {
    var last := TimeToBin(now, binSize, true);
    LastBin(now, binSize);
    MulMonotone(last - windowBins + 1, last, binSize);
  }

  lemma EndMonotone(a: int, b: int, binSize: int)
    requires binSize > 0 && a <= b && 0 <= b
    ensures TimeToBin(a, binSize, true) <= TimeToBin(b, binSize, true)
  {
    TruncMonotone(a, b, binSize);
    if a < 0 {
      TruncMonotone(a, 0, binSize);
      if b > 0 {
        DivBounds(b, binSize);
      }
    } else if 0 < b && b % binSize == 0 && a % binSize != 0 {
      DivStrict(a, b, binSize);
    } else if a == 0 && b > 0 {
      DivBounds(b, binSize);
    }
  }

  lemma DivStrict(a: int, b: int, d: int)
    requires d > 0 && 0 <= a <= b && b % d == 0 && a % d != 0
    ensures a / d < b / d
  {
  }

  /** Bin b holds some of the time from start up to, not including, end. */
  predicate HoldsTime(start: int, end: int, binSize: int, b: int) {
    start < (b + 1) * binSize && b * binSize < end
  }

  /** In terms of time: a query is answered if and only if it lies between the start of the window,
      which is so many bins long and ends in the last bin before now, and now; and it is answered
      with exactly the positive bins that hold some of the time asked for. */
  lemma QueryExactly(now: int, duration: int, startTime: int, binSize: int, windowBins: int, last: int)
    requires binSize > 0 && windowBins >= 1 && 0 <= now && IsLastBin(now, binSize, last)
    ensures var window := (last - windowBins + 1) * binSize;
      var start := if startTime == TIME_MIN then window else startTime;
      var end := if duration == 0 then now else start + duration;
      var q := QueryOf(now, duration, startTime, binSize, windowBins);
      && (q.Some? <==> 0 <= duration && window <= start <= now && end <= now && (duration != 0 ==> end <= TIME_MAX))
      && (q.Some? ==>
            && q.value.start == q.value.first * binSize
            && forall b :: b >= 1 ==> (q.value.first <= b <= q.value.last <==> HoldsTime(start, end, binSize, b)))
  {
    LastBin(now, binSize);
    LastBinUnique(now, binSize, last, TimeToBin(now, binSize, true));
    var window := (last - windowBins + 1) * binSize;
    var start := if startTime == TIME_MIN then window else startTime;
    var end := if duration == 0 then now else start + duration;
    forall b | b >= 1
      ensures TimeToBin(start, binSize, false) <= b <= TimeToBin(end, binSize, true) <==> HoldsTime(start, end, binSize, b)
    {
      BinsAreExact(start, end, binSize, b);
    }
  }

  class Recorder {
    const binSize: int
    const windowBins: int
    const wheelBins: nat
    const wheel: Wheel
    var maxEnd: int
    var minStart: int
    var eor: Eor
    /** The receptions applied so far, and the updates they come from. */
    ghost var log: seq<Reception>
    ghost var arrivals: seq<Arrival>

    ghost predicate Shaped()
    {
      0 < binSize && 1 <= windowBins <= wheelBins == wheel.store.Length
    }

    ghost function Current(): State
      requires Shaped()
      reads this, wheel.store
    {
      State(binSize, windowBins, Span(wheel.store[..], minStart, maxEnd), eor)
    }

    ghost predicate Valid()
      reads this, wheel.store
    {
      Shaped() && Refines(Current().span, log)
    }

    /** The recorder is what the updates so far made of a new one. */
    ghost predicate Usable()
      reads this, wheel.store
    {
      && Shaped() && Ranged(Current().span)
      && Run(NewState(binSize, windowBins, wheelBins), arrivals) == Some(Outcome(Current(), log))
    }

    /** Times are clamped so that the wheel holds at least one window and at least one bin. */
    constructor (bin: int, maxOffset: int, maxPropagation: int, maxDuration: int)
      ensures Valid() && Usable() && fresh(wheel.store) && log == [] && arrivals == []
      ensures Current() == NewState(binSize, windowBins, wheelBins)
      ensures binSize == Max(bin, 1) && windowBins == Max(maxDuration, binSize) / binSize
      ensures wheelBins
           == Max((Max(maxOffset, 0) + Max(maxPropagation, 0) + Max(maxDuration, binSize) * 2) / binSize, 1)
    {
      var size := Max(bin, 1);
      var duration := Max(maxDuration, size);
      var wheelSpan := Max(maxOffset, 0) + Max(maxPropagation, 0) + duration * 2;
      DivMonotone(size, duration, size);
      DivOfMultiple(1, size);
      DivMonotone(duration, wheelSpan, size);
      binSize := size;
      windowBins := Max(duration / size, 1);
      var slots: nat := Max(wheelSpan / size, 1);
      wheelBins := slots;
      wheel := new Wheel(slots);
      maxEnd := 0;
      minStart := 0;
      eor := map[];
      log := [];
      arrivals := [];
      new;
      assert wheel.store[..] == seq(wheelBins, _ => 0.0);
    }

    method StoredMaxEor(transmitters: seq<nat>, antenna: nat) returns (stored: int)
      ensures stored == StoredMax(eor, transmitters, antenna)
    {
      stored := 0;
      for i := 0 to |transmitters|
        invariant stored == StoredMax(eor, transmitters[..i], antenna)
      {
        assert transmitters[..i + 1][..i] == transmitters[..i];
        var key := (transmitters[i], antenna);
        if key in eor && stored < eor[key] {
          stored := eor[key];
        }
      }
      assert transmitters[..|transmitters|] == transmitters;
    }

    method StoreEor(transmitters: seq<nat>, antenna: nat, end: int)
      modifies this`eor
      ensures eor == RecordEor(old(eor), transmitters, antenna, end)
    {
      for i := 0 to |transmitters|
        invariant eor == RecordEor(old(eor), transmitters[..i], antenna, end)
      {
        assert transmitters[..i + 1][..i] == transmitters[..i];
        eor := eor[(transmitters[i], antenna) := end];
      }
      assert transmitters[..|transmitters|] == transmitters;
    }

    /** The wheel writes of one reception; no call panics. */
    method ApplyReception(start: int, end: int, power: real)
      requires Shaped() && 1 <= start <= end
      requires minStart == 0 == maxEnd || 1 <= minStart <= maxEnd
      requires Apply(Current().span, start, end, power).Some?
      modifies this`minStart, this`maxEnd, wheel.store
      ensures Current().span == Apply(old(Current().span), start, end, power).value
    {
      var count := end - start + 1;
      ghost var s := Reset(Current().span, start);
      if maxEnd + wheelBins <= start {
        maxEnd := 0;
        minStart := 0;
      }
      var startIndex := SlotOf(start);
      if maxEnd == 0 && minStart == 0 {
        SetBins(startIndex, start, count, power);
        minStart := start;
        maxEnd := end;
        return;
      }
      MergeInto(start, end, power, startIndex);
      if start < minStart {
        minStart := start;
      }
      if end > maxEnd {
        maxEnd := end;
      }
    }

    /** `Wheel::set` on the run of bins that starts at bin lo. */
    method SetBins(index: nat, ghost lo: int, count: nat, value: real)
      requires Shaped() && 0 <= lo && index == Slot(lo, wheelBins) && count <= wheelBins
      modifies wheel.store
      ensures wheel.store[..] == Fill(old(wheel.store[..]), lo, count, value)
    {
      FillReduced(wheel.store[..], lo, count, value);
      wheel.Set(index, count, value);
    }

    method AddBins(index: nat, ghost lo: int, count: nat, value: real)
      requires Shaped() && 0 <= lo && index == Slot(lo, wheelBins) && count <= wheelBins
      modifies wheel.store
      ensures wheel.store[..] == Boost(old(wheel.store[..]), lo, count, value)
    {
      FillReduced(wheel.store[..], lo, count, value);
      wheel.Add(index, count, value);
    }

    /** The slot of a bin. */
    method SlotOf(bin: int) returns (r: nat)
      requires Shaped() && 0 <= bin
      ensures r == Slot(bin, wheelBins)
    {
      SlotIsMod(bin, wheelBins);
      r := bin % wheelBins;
    }

    /** The slot a number of bins after the slot of bin lo. */
    method IndexAfter(index: nat, ghost lo: int, bins: int) returns (r: nat)
      requires Shaped() && index == Slot(lo, wheelBins) && 0 <= bins
      ensures r == Slot(lo + bins, wheelBins)
    {
      SlotShift(lo, bins, wheelBins);
      SlotIsMod(index + bins, wheelBins);
      r := (index + bins) % wheelBins;
    }

    method PutBefore(start: int, end: int, power: real, startIndex: nat) returns (before: int)
      requires Shaped() && 1 <= start <= end && startIndex == Slot(start, wheelBins)
      requires WriteBefore(Current().span, start, end, power).Some?
      modifies wheel.store
      ensures wheel.store[..] == WriteBefore(old(Current().span), start, end, power).value
      ensures before == BeforeCount(old(Current().span), start, end)
    {
      before := 0;
      if start < minStart {
        before := if end < minStart then end - start + 1 else minStart - start;
        SetBins(startIndex, start, before, power);
      }
    }

    method PutAfter(start: int, end: int, power: real, startIndex: nat, ghost s: Span) returns (after: int)
      requires Shaped() && 1 <= start <= end && startIndex == Slot(start, wheelBins)
      requires s.first == minStart && s.last == maxEnd
      requires WriteAfter(wheel.store[..], s, start, end, power).Some?
      modifies wheel.store
      ensures wheel.store[..] == WriteAfter(old(wheel.store[..]), s, start, end, power).value
      ensures after == AfterCount(s, start, end)
    {
      after := 0;
      if end > maxEnd {
        var count := end - start + 1;
        after := if start > maxEnd then count else end - maxEnd;
        var afterStart := IndexAfter(startIndex, start, count - after);
        SetBins(afterStart, end + 1 - after, after, power);
      }
    }

    method PutWithin(start: int, end: int, power: real, startIndex: nat, before: int, after: int, ghost s: Span)
      requires Shaped() && 1 <= start <= end && startIndex == Slot(start, wheelBins)
      requires s.first == minStart && s.last == maxEnd && 1 <= minStart <= maxEnd
      requires before == BeforeCount(s, start, end) && after == AfterCount(s, start, end)
      requires WriteWithin(wheel.store[..], s, start, end, power).Some?
      modifies wheel.store
      ensures wheel.store[..] == WriteWithin(old(wheel.store[..]), s, start, end, power).value
    {
      var next := IndexAfter(startIndex, start, before);
      var within := end - start + 1 - before - after;
      if within > 0 {
        AddBins(next, start + before, within, power);
      } else {
        if before > 0 {
          SetBins(next, start + before, minStart - (start + before), 0.0);
        }
        if after > 0 {
          var gapStart := SlotOf(maxEnd + 1);
          SetBins(gapStart, maxEnd + 1, start - maxEnd - 1, 0.0);
        }
      }
    }

    method MergeInto(start: int, end: int, power: real, startIndex: nat)
      requires Shaped() && 1 <= start <= end && startIndex == Slot(start, wheelBins)
      requires 1 <= minStart <= maxEnd
      requires Merge(Current().span, start, end, power).Some?
      modifies wheel.store
      ensures wheel.store[..] == Merge(old(Current().span), start, end, power).value
    {
      ghost var s := Current().span;
      var before := PutBefore(start, end, power, startIndex);
      var after := PutAfter(start, end, power, startIndex, s);
      PutWithin(start, end, power, startIndex, before, after, s);
    }

    /** The times of an arrival, and the bins that it fills for the first time. */
    method ReceptionBins(a: Arrival) returns (sor: int, eorTime: int, start: int, end: int)
      requires Shaped()
      ensures sor == a.txTime + a.offset + a.propagation && eorTime == sor + a.duration
      ensures start == StartBin(Current(), a) && end == EndBin(binSize, a)
    {
      sor := a.txTime + a.offset + a.propagation;
      eorTime := sor + a.duration;
      start := TimeToBin(sor, binSize, false);
      end := TimeToBin(eorTime, binSize, true);
      var stored := StoredMaxEor(a.transmitters, a.antenna);
      if start <= stored {
        start := stored + 1;
      }
    }

    /** The part of `update` that changes the recorder: the value-level step. */
    method Record(a: Arrival) returns (sor: int, eorTime: int)
      requires Shaped() && Ranged(Current().span) && Step(Current(), a).Some?
      modifies this`minStart, this`maxEnd, this`eor, wheel.store
      ensures Some(Current()) == Step(old(Current()), a)
      ensures sor == a.txTime + a.offset + a.propagation && eorTime == sor + a.duration
    {
      var start, end;
      sor, eorTime, start, end := ReceptionBins(a);
      if end >= start {
        ApplyReception(start, end, a.power);
      }
      if !a.more {
        StoreEor(a.transmitters, a.antenna, end);
      }
    }

    /** `update`: the new state is the value-level step and the log grows by what was applied; where
        the arrival fits, the refinement holds again. */
    method Update(a: Arrival) returns (sor: int, eorTime: int)
      requires Usable() && Step(Current(), a).Some?
      modifies this`minStart, this`maxEnd, this`eor, this`log, this`arrivals, wheel.store
      ensures Usable() && arrivals == old(arrivals) + [a]
      ensures Some(Current()) == Step(old(Current()), a) && log == old(log) + AppliedBy(old(Current()), a)
      ensures old(Valid() && ArrivalFits(Current(), a)) ==> Valid()
      ensures sor == a.txTime + a.offset + a.propagation && eorTime == sor + a.duration
    {
      StepRanged(Current(), a);
      RunAppend(NewState(binSize, windowBins, wheelBins), arrivals, a, Outcome(Current(), log));
      if Valid() && ArrivalFits(Current(), a) {
        StepRefines(Current(), log, a);
      }
      arrivals, log := arrivals + [a], log + AppliedBy(Current(), a);
      sor, eorTime := Record(a);
    }

    /** The bins asked for, if the query is accepted, and the time at which they start. */
    method QueriedBins(now: int, duration: int, startTime: int) returns (q: Option<Query>)
      requires Shaped()
      ensures q == QueryOf(now, duration, startTime, binSize, windowBins)
      ensures q.Some? ==> 0 <= q.value.last - q.value.first + 1 <= windowBins
    {
      if duration < 0 || now < 0 {
        return None;
      }
      var nowBin := TimeToBin(now, binSize, true);
      var minStartTime := (nowBin - windowBins + 1) * binSize;
      var validStart := startTime;
      OldestNotAfterNow(now, binSize, windowBins);
      if validStart == TIME_MIN {
        validStart := minStartTime;
      } else if validStart < minStartTime || validStart > now {
        return None;
      }
      var startBin := TimeToBin(validStart, binSize, false);
      var endTime := now;
      if duration != 0 {
        if validStart + duration > TIME_MAX {
          return None;
        }
        endTime := validStart + duration;
        if endTime > now {
          return None;
        }
      }
      QueryBins(now, validStart, endTime, binSize, windowBins);
      if startBin * binSize < minStartTime {
        return None;
      }
      return Some(Query(startBin, TimeToBin(endTime, binSize, true), startBin * binSize));
    }

    /** `try_get`: answered exactly for the accepted queries, with a window no longer than
        configured whose entries are the values recorded for its bins; for a recorder that refines
        its log these are the summed powers, in every bin less than a turn old. */
    method TryGet(now: int, duration: int, startTime: int) returns (r: Option<(seq<real>, int)>)
      requires Usable()
      ensures r.Some? <==> QueryOf(now, duration, startTime, binSize, windowBins).Some?
      ensures r.Some? ==> Answers(r.value, QueryOf(now, duration, startTime, binSize, windowBins).value)
    {
      var q := QueriedBins(now, duration, startTime);
      if q.None? {
        return None;
      }
      r := ReadQuery(q.value);
    }

    /** The window of a query: its start, its length, what the recorder holds for its bins, and, for a
        recorder that refines its log, their summed powers. */
    ghost predicate Answers(answer: (seq<real>, int), q: Query)
      requires Shaped()
      reads this, wheel.store
    {
      && answer.1 == q.start && |answer.0| == q.last - q.first + 1 <= windowBins
      && (forall k :: 0 <= k < |answer.0| ==> answer.0[k] == Recorded(q.first + k))
      && (Valid() ==> Sums(answer.0, q.first))
    }

    method ReadQuery(q: Query) returns (r: Option<(seq<real>, int)>)
      requires Usable() && 0 <= q.last - q.first + 1 <= windowBins
      ensures r.Some? && Answers(r.value, q)
    {
      var window := ReadWindow(q.first, q.last);
      r := Some((window, q.start));
    }

    /** The wheel's values of the `count` bins from first on, the last of which is given. */
    method ReadBins(ghost first: int, last: int, count: int) returns (values: seq<real>)
      requires Shaped() && 1 <= count <= wheelBins && 0 <= last == first + count - 1
      ensures |values| == count
      ensures forall k :: 0 <= k < count ==> values[k] == At(wheel.store[..], first + k)
    {
      var begin := SlotOf(last);
      values := wheel.Get(begin, count);
      forall k | 0 <= k < count
        ensures values[k] == At(wheel.store[..], first + k)
      {
        SlotShift(last, 1 - count + k, wheelBins);
        assert last + (1 - count + k) == first + k;
      }
    }

    /** How many of the bins asked for lie in front of the recorded range, and how many behind it. */
    method Margins(startBin: int, endBin: int) returns (before: int, after: int)
      requires 0 <= endBin - startBin + 1 && minStart <= maxEnd
      ensures 0 <= before && 0 <= after && before + after <= endBin - startBin + 1
      ensures before > 0 ==> startBin + before <= minStart
      ensures after > 0 ==> maxEnd <= endBin - after
      ensures before + after < endBin - startBin + 1 ==> minStart <= startBin + before && endBin - after <= maxEnd
    {
      var count := endBin - startBin + 1;
      before, after := 0, 0;
      if endBin > maxEnd {
        after := Min(endBin - maxEnd, count);
      }
      if startBin < minStart {
        before := Min(minStart - startBin, count);
      }
    }

    /** The values with zeros in front and behind. */
    method Pad(before: nat, values: seq<real>, after: nat) returns (window: seq<real>)
      ensures |window| == before + |values| + after
      ensures forall k :: 0 <= k < |window| ==>
        window[k] == if before <= k < before + |values| then values[k - before] else 0.0
    {
      window := seq(before, _ => 0.0) + values + seq(after, _ => 0.0);
    }

    /** What the recorder answers for a bin. */
    ghost function Recorded(b: int): real
      requires Shaped()
      reads this, wheel.store
    {
      if minStart != 0 && minStart <= b <= maxEnd then At(wheel.store[..], b) else 0.0
    }

    /** The window's entries less than a turn old are the summed powers that the arrivals left in the
        bins from start on. */
    ghost predicate Sums(window: seq<real>, start: int)
      reads this
    {
      forall k :: 0 <= k < |window| && maxEnd - wheelBins < start + k ==>
        window[k] == Received(binSize, arrivals, |arrivals|, start + k)
    }

    lemma RecordedIsReceived(b: int)
      requires Valid() && Usable() && maxEnd - wheelBins < b
      ensures Recorded(b) == Received(binSize, arrivals, |arrivals|, b)
    {
      assert arrivals[..|arrivals|] == arrivals;
      RunReceives(NewState(binSize, windowBins, wheelBins), arrivals, |arrivals|);
      RecordedIsPower(b);
    }

    lemma RecordedIsPower(b: int)
      requires Valid() && maxEnd - wheelBins < b
      ensures Recorded(b) == Power(log, b)
    {
      if log == [] {
        PowerUncovered(log, b);
      } else if minStart <= b <= maxEnd {
        assert Live(Current().span, b);
      } else {
        PowerOutside(Current().span, log, b);
      }
    }

    lemma RecordedSums(window: seq<real>, start: int)
      requires Valid() && Usable() && forall k :: 0 <= k < |window| ==> window[k] == Recorded(start + k)
      ensures Sums(window, start)
    {
      forall k | 0 <= k < |window| && maxEnd - wheelBins < start + k
        ensures window[k] == Received(binSize, arrivals, |arrivals|, start + k)
      {
        RecordedIsReceived(start + k);
      }
    }

    method ReadRecorded(startBin: int, endBin: int) returns (window: seq<real>)
      requires Usable() && 0 <= endBin - startBin + 1 <= windowBins
      ensures |window| == endBin - startBin + 1
      ensures forall k :: 0 <= k < |window| ==> window[k] == Recorded(startBin + k)
    {
      var count := endBin - startBin + 1;
      if maxEnd == 0 || minStart == 0 {
        return seq(count, _ => 0.0);
      }
      var before, after := Margins(startBin, endBin);
      var remainder := count - (before + after);
      var mid := [];
      if remainder > 0 {
        mid := ReadBins(startBin + before, endBin - after, remainder);
      }
      window := Pad(before, mid, after);
    }

    method ReadWindow(startBin: int, endBin: int) returns (window: seq<real>)
      requires Usable() && 0 <= endBin - startBin + 1 <= windowBins
      ensures |window| == endBin - startBin + 1
      ensures forall k :: 0 <= k < |window| ==> window[k] == Recorded(startBin + k)
      ensures Valid() ==> Sums(window, startBin)
    {
      window := ReadRecorded(startBin, endBin);
      if Valid() {
        RecordedSums(window, startBin);
      }
    }
  }
}
