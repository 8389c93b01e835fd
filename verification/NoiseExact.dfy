/** The recorder is right exactly on the receptions that fit: for any other reception there is a
    power for which the wheel panics or a live bin reads wrong. */
module NoiseExact {
  import opened Common
  import opened NoiseWheel
  import opened NoiseSpan
  import opened NoiseRecorder

  /** One live bin with the wrong value refutes an update. */
  lemma Refute(s: Span, log: seq<Reception>, start: int, end: int, power: real, s': Span, b: int)
    requires Apply(s, start, end, power) == Some(s') && Live(s', b)
    requires At(s'.slots, b) != Power(log, b) + (if start <= b <= end then power else 0.0)
    ensures !Faithful(s, log, start, end, power)
  {
    PowerAppend(log, Reception(start, end, power, [], 0), b);
  }

  /** A positive power greater than the given one. */
  function Above(power: real): (p: real)
    ensures p > 0.0 && p > power
  {
    if power > 0.0 then power + 1.0 else 1.0
  }

  /** The bin of the newest turn that shares the slot of bin b. */
  lemma Alias(last: int, b: int, w: nat) returns (x: int)
    requires w > 0 && b <= last
    ensures last - w < x <= last && Slot(x - b, w) == 0
    ensures b <= last - w ==> x >= b + w
  {
    SlotRemainder(last - b, w);
    x := last - Slot(last - b, w);
  }

  /** Beyond the newest bin and ending more than a turn after it: the gap is cleared over the
      power just written. */
  lemma ClearedOver(s: Span, log: seq<Reception>, start: int, end: int)
    requires log != [] && Refines(s, log) && 1 <= start <= end
    requires s.last < start && !Stale(s, start)
    requires end - start < |s.slots| && s.last + |s.slots| < end
    ensures !Faithful(s, log, start, end, 1.0)
  {
    var w := |s.slots|;
    var n := end - start + 1;
    var b := s.last + 1 + w;
    var s1 := Fill(s.slots, start, n, 1.0);
    var s2 := Fill(s1, s.last + 1, start - s.last - 1, 0.0);
    FillAt(s1, s.last + 1, start - s.last - 1, 0.0, b);
    PowerOutside(s, log, b);
    Refute(s, log, start, end, 1.0, Span(s2, s.first, end), b);
  }

  /** A finished arrival whose bins and wheel writes are known. */
  lemma StepOf(st: State, a: Arrival, r: Reception, span: Span) returns (st': State)
    requires st.binSize > 0 && !a.more && r == Reception(r.start, r.end, a.power, a.transmitters, a.antenna)
    requires StartBin(st, a) == r.start <= r.end == EndBin(st.binSize, a)
    requires Apply(st.span, r.start, r.end, a.power) == Some(span)
    ensures Step(st, a) == Some(st') && AppliedBy(st, a) == [r]
    ensures st' == st.(span := span, eor := RecordEor(st.eor, a.transmitters, a.antenna, r.end))
  {
    st' := st.(span := span, eor := RecordEor(st.eor, a.transmitters, a.antenna, r.end));
  }

  /** A finished transmission of the time from t to t + d, in bins of one tick, by a transmitter not
      heard before. */
  lemma FreshBins(st: State, a: Arrival, who: nat, d: nat)
    requires st.binSize == 1 && a.transmitters == [who] && (who, a.antenna) !in st.eor
    requires a.txTime >= 1 && a.offset == 0 && a.propagation == 0 && a.duration == d >= 1
    ensures StartBin(st, a) == a.txTime && EndBin(1, a) == a.txTime + d - 1
  {
    assert a.transmitters[..0] == [];
    assert StoredMax(st.eor, a.transmitters, a.antenna) == 0;
  }

  lemma NearApplied(s: Span, power: real) returns (t: Span)
    requires |s.slots| == 10 && s.first == 0 && s.last == 0
    ensures Apply(s, 1, 1, power) == Some(t) && |t.slots| == 10 && t.first == 1 && t.last == 1
  {
    t := Span(Fill(s.slots, 1, 1, power), 1, 1);
  }

  lemma FarApplied(s: Span, power: real) returns (t: Span)
    requires |s.slots| == 10 && s.first == 1 && s.last == 1
    ensures Apply(s, 9, 12, power) == Some(t) && Live(t, 12) && At(t.slots, 12) == 0.0
  {
    var written := Fill(s.slots, 9, 4, power);
    FillAt(written, 2, 7, 0.0, 12);
    t := Span(Fill(written, 2, 7, 0.0), 1, 12);
  }

  lemma RunNear(st: State, near: Arrival) returns (st1: State, r1: Reception)
    requires st == NewState(1, 5, 10) && near == Arrival(1, 0, 0, 1, near.power, [1], 0, false)
    ensures Run(st, [near]) == Some(Outcome(st1, [r1])) && !Covers(r1, 12)
    ensures st1.binSize == 1 && (2, 0) !in st1.eor
    ensures |st1.span.slots| == 10 && st1.span.first == 1 && st1.span.last == 1
  {
    FreshBins(st, near, 1, 1);
    var span := NearApplied(st.span, near.power);
    r1 := Reception(1, 1, near.power, near.transmitters, near.antenna);
    st1 := StepOf(st, near, r1, span);
    RunAppend(st, [], near, Outcome(st, []));
    assert [] + [near] == [near] && [] + [r1] == [r1];
    assert near.transmitters[..0] == [];
  }

  lemma RunFar(st: State, near: Arrival, st1: State, r1: Reception, far: Arrival) returns (st2: State, r2: Reception)
    requires st.binSize == 1 && Run(st, [near]) == Some(Outcome(st1, [r1]))
    requires far == Arrival(9, 0, 0, 4, far.power, [2], 0, false)
    requires st1.binSize == 1 && (2, 0) !in st1.eor
    requires |st1.span.slots| == 10 && st1.span.first == 1 && st1.span.last == 1
    ensures Run(st, [near, far]) == Some(Outcome(st2, [r1, r2])) && Share(r2, 12) == far.power
    ensures Live(st2.span, 12) && At(st2.span.slots, 12) == 0.0
  {
    FreshBins(st1, far, 2, 4);
    var span := FarApplied(st1.span, far.power);
    r2 := Reception(9, 12, far.power, far.transmitters, far.antenna);
    st2 := StepOf(st1, far, r2, span);
    RunAppend(st, [near], far, Outcome(st1, [r1]));
    assert [near] + [far] == [near, far] && [r1] + [r2] == [r1, r2];
  }

  /** The same as two calls to a new recorder of one-tick bins and ten slots: the power of an arrival
      in bins 9 to 12, after one in bin 1, reads as none at all in bin 12. */
  lemma ClearedOverExample(st: State, near: Arrival, far: Arrival)
    requires st == NewState(1, 5, 10)
    requires near == Arrival(1, 0, 0, 1, near.power, [1], 0, false)
    requires far == Arrival(9, 0, 0, 4, far.power, [2], 0, false)
    ensures var r := Run(st, [near, far]);
      && r.Some? && Live(r.value.st.span, 12)
      && At(r.value.st.span.slots, 12) == 0.0 && Power(r.value.log, 12) == far.power
  {
    var st1, r1 := RunNear(st, near);
    var st2, r2 := RunFar(st, near, st1, r1, far);
    assert [r1] + [r2] == [r1, r2] && [] + [r1] == [r1];
    PowerAppend([r1], r2, 12);
    PowerAppend([], r1, 12);
  }

  /** The wheel after a reception that starts at or before the newest bin and ends behind it. */
  function Straddled(s: Span, start: int, end: int, p: real): (r: Slots)
    ensures |r| == |s.slots|
  {
    var s1 := if start < s.first then Fill(s.slots, start, s.first - start, p) else s.slots;
    var s2 := Fill(s1, s.last + 1, end - s.last, p);
    var lo := if start < s.first then s.first else start;
    Boost(s2, lo, s.last - lo + 1, p)
  }

  lemma StraddledShape(s: Span, start: int, end: int, p: real)
    requires 1 <= s.first <= s.last && 1 <= start <= s.last < end && !Stale(s, start)
    requires Apply(s, start, end, p).Some?
    ensures var first := if start < s.first then start else s.first;
      var lo := if start < s.first then s.first else start;
      && Apply(s, start, end, p).value == Span(Straddled(s, start, end, p), first, end)
      && s.first - start <= |s.slots| && end - s.last <= |s.slots| && s.last - lo < |s.slots|
  {
  }

  lemma StraddledAt(s: Span, start: int, end: int, p: real, x: int)
    requires var w := |s.slots|; s.last + 1 - w <= x < s.last + 1 + 2 * w
    requires var w, lo := |s.slots|, if start < s.first then s.first else start; lo - w <= x < lo + 2 * w
    ensures var w, lo := |s.slots|, if start < s.first then s.first else start;
      var v1 := if start < s.first && Hits(x, start, s.first - start, w) then p else At(s.slots, x);
      var v2 := if InTurn(x - (s.last + 1), end - s.last, w) then p else v1;
      At(Straddled(s, start, end, p), x) == if InTurn(x - lo, s.last - lo + 1, w) then v2 + p else v2
  {
    var s1 := if start < s.first then Fill(s.slots, start, s.first - start, p) else s.slots;
    var s2 := Fill(s1, s.last + 1, end - s.last, p);
    var lo := if start < s.first then s.first else start;
    WriteAt(s.slots, start, s.first - start, p, x);
    FillAt(s1, s.last + 1, end - s.last, p, x);
    BoostAt(s2, lo, s.last - lo + 1, p, x);
  }

  /** Reaching round to a bin that is still being added to: the last bin is counted twice. */
  lemma CountedTwice(s: Span, log: seq<Reception>, start: int, end: int)
    requires log != [] && Refines(s, log) && 1 <= start <= end
    requires start <= s.last < end && !Stale(s, start)
    requires (if start < s.first then s.first else start) <= end - |s.slots|
    ensures !Faithful(s, log, start, end, 1.0)
  {
    if Apply(s, start, end, 1.0).Some? {
      StraddledShape(s, start, end, 1.0);
      StraddledAt(s, start, end, 1.0, end);
      PowerOutside(s, log, end);
      Refute(s, log, start, end, 1.0, Apply(s, start, end, 1.0).value, end);
    }
  }

  /** A full turn late, inside the range: a newer bin receives the power. */
  lemma LateInside(s: Span, log: seq<Reception>, start: int, end: int)
    requires log != [] && Refines(s, log) && 1 <= start <= end
    requires s.first <= start <= s.last - |s.slots|
    ensures !Faithful(s, log, start, end, 1.0)
  {
    var w := |s.slots|;
    var n := end - start + 1;
    if end <= s.last && n <= w {
      var x := Alias(s.last, start, w);
      var s1 := Boost(s.slots, start, n, 1.0);
      WriteAt(s.slots, start, n, 1.0, x);
      assert Live(s, x);
      Refute(s, log, start, end, 1.0, Span(s1, s.first, s.last), x);
    }
  }

  /** A full turn late, overlapping the front of the range and ending inside it. */
  lemma LateAcrossFront(s: Span, log: seq<Reception>, start: int, end: int) returns (p: real)
    requires log != [] && Refines(s, log) && 1 <= start <= end
    requires start <= s.last - |s.slots| && start < s.first <= end <= s.last
    ensures p > 0.0 && !Faithful(s, log, start, end, p)
  {
    var w := |s.slots|;
    var x := Alias(s.last, start, w);
    p := Above(Power(log, x));
    var before, within := s.first - start, end - s.first + 1;
    if before <= w && within <= w {
      var s1 := Fill(s.slots, start, before, p);
      var s' := Span(Boost(s1, s.first, within, p), start, s.last);
      WriteAt(s.slots, start, before, p, x);
      WriteAt(s1, s.first, within, p, x);
      assert Apply(s, start, end, p) == Some(s') && Live(s', x);
      assert At(s'.slots, x) == p || At(s'.slots, x) == p + p;
      Refute(s, log, start, end, p, s', x);
    }
  }

  /** A full turn late, enclosing the range, not reaching round to it. */
  lemma LateEnclosing(s: Span, log: seq<Reception>, start: int, end: int) returns (p: real)
    requires log != [] && Refines(s, log) && 1 <= start <= end
    requires start <= s.last - |s.slots| && start < s.first && s.last < end < s.first + |s.slots|
    ensures p > 0.0 && !Faithful(s, log, start, end, p)
  {
    var x := start + |s.slots|;
    p := Above(Power(log, x));
    if Apply(s, start, end, p).Some? {
      StraddledShape(s, start, end, p);
      StraddledAt(s, start, end, p, x);
      HitsNear(x, start, s.first - start, |s.slots|);
      Refute(s, log, start, end, p, Apply(s, start, end, p).value, x);
    }
  }

  /** A full turn late and in front of the range: the bin that betrays it depends on how far the
      cleared gap reaches round. */
  lemma LateInFrontBin(s: Span, start: int, end: int) returns (x: int)
    requires 1 <= s.first <= s.last && 1 <= start <= end
    requires start <= s.last - |s.slots| && end < s.first
    requires end - start < |s.slots| && s.first - end - 1 < |s.slots|
    ensures s.first <= x <= s.last && s.last - |s.slots| < x
    ensures Hits(x, start, end - start + 1, |s.slots|)
    ensures !Hits(x, end + 1, s.first - end - 1, |s.slots|)
  {
    var w := |s.slots|;
    var n := end - start + 1;
    var gap := s.first - end - 1;
    if n + gap <= w {
      x := Alias(s.last, start, w);
      SlotAlias(x, start, end + 1, w);
      HitsNear(start, end + 1, gap, w);
    } else if end <= s.last - w {
      x := Alias(s.last, end, w);
      SlotAlias(x, end, start, w);
      SlotAlias(x, end, end + 1, w);
      HitsNear(end, start, n, w);
      HitsNear(end, end + 1, gap, w);
    } else {
      x := s.first;
      HitsNear(x, start, n, w);
      HitsNear(x, end + 1, gap, w);
    }
  }

  /** A full turn late and in front of the range, with a gap of less than a turn. */
  lemma LateInFront(s: Span, log: seq<Reception>, start: int, end: int) returns (p: real)
    requires log != [] && Refines(s, log) && 1 <= start <= end
    requires start <= s.last - |s.slots| && end < s.first && s.first - end - 1 != |s.slots|
    ensures p > 0.0 && !Faithful(s, log, start, end, p)
  {
    p := 1.0;
    var w := |s.slots|;
    var n := end - start + 1;
    var gap := s.first - end - 1;
    if n <= w && gap < w {
      var x := LateInFrontBin(s, start, end);
      p := Above(Power(log, x));
      var s1 := Fill(s.slots, start, n, p);
      WriteAt(s.slots, start, n, p, x);
      WriteAt(s1, end + 1, gap, 0.0, x);
      Refute(s, log, start, end, p, Span(Fill(s1, end + 1, gap, 0.0), start, s.last), x);
    }
  }

  /** No live bin holds any power. */
  ghost predicate Silent(s: Span, log: seq<Reception>) {
    forall b :: Live(s, b) ==> Power(log, b) == 0.0
  }

  /** In front of the range with a gap of exactly a turn, so that the whole wheel is cleared. */
  predicate Wipes(s: Span, start: int, end: int) {
    && s.last != 0 && start < s.last + |s.slots|
    && end - start < |s.slots| && s.first - end - 1 == |s.slots|
  }

  /** A wheel that is cleared throughout reads as zero. */
  lemma WipedAt(s: Span, start: int, end: int, power: real, x: int)
    requires 1 <= s.first <= s.last && 1 <= start <= end && Wipes(s, start, end)
    ensures var s' := Apply(s, start, end, power);
      && s'.Some? && |s'.value.slots| == |s.slots| && s'.value.first == start && s'.value.last == s.last
      && At(s'.value.slots, x) == 0.0
  {
    var s1 := Fill(s.slots, start, end - start + 1, power);
    WriteAt(s1, end + 1, s.first - end - 1, 0.0, x);
  }

  /** The one case in which a reception that does not fit does no harm: everything is cleared, and
      nothing that is still live was there. */
  lemma WipesExactly(s: Span, log: seq<Reception>, start: int, end: int, power: real)
    requires log != [] && Refines(s, log) && 1 <= start <= end && Wipes(s, start, end)
    ensures Faithful(s, log, start, end, power) <==> Silent(s, log)
  {
    var r := Reception(start, end, power, [], 0);
    WipedAt(s, start, end, power, 0);
    var s' := Apply(s, start, end, power).value;
    forall x | Live(s', x)
      ensures At(s'.slots, x) == 0.0 && Power(log + [r], x) == Power(log, x)
      ensures Live(s, x) || Power(log, x) == 0.0
    {
      WipedAt(s, start, end, power, x);
      PowerAppend(log, r, x);
      if x < s.first {
        PowerOutside(s, log, x);
      }
    }
    assert forall x :: Live(s, x) ==> Live(s', x);
  }

  /** The receptions that are represented: those that fit, and those that clear a silent wheel. */
  ghost predicate Harmless(s: Span, log: seq<Reception>, start: int, end: int) {
    Fits(s, start, end) || (Wipes(s, start, end) && Silent(s, log))
  }

  /** For any other reception, some power is recorded wrongly. */
  lemma Unfaithful(s: Span, log: seq<Reception>, start: int, end: int) returns (p: real)
    requires Refines(s, log) && 1 <= start <= end
    requires !Harmless(s, log, start, end)
    ensures p > 0.0 && !Faithful(s, log, start, end, p)
  {
    p := 1.0;
    var w := |s.slots|;
    if log == [] || Stale(s, start) {
    } else if Wipes(s, start, end) {
      WipesExactly(s, log, start, end, p);
    } else if s.last < start {
      if end - start < w {
        ClearedOver(s, log, start, end);
      }
    } else if (if start < s.first then s.first else start) <= end - w && s.last < end {
      CountedTwice(s, log, start, end);
    } else if s.first <= start {
      LateInside(s, log, start, end);
    } else if end < s.first {
      if end - start < w {
        p := LateInFront(s, log, start, end);
      }
    } else if end <= s.last {
      p := LateAcrossFront(s, log, start, end);
    } else {
      p := LateEnclosing(s, log, start, end);
    }
  }

  /** The exact condition: the recorder represents a reception faithfully, whatever its power, if and
      only if it fits, or clears a wheel on which no power is live. */
  lemma FaithfulExactlyWhenFits(s: Span, log: seq<Reception>, start: int, end: int)
    requires Refines(s, log) && 1 <= start <= end
    ensures Harmless(s, log, start, end) <==> forall p :: p > 0.0 ==> Faithful(s, log, start, end, p)
  {
    if Harmless(s, log, start, end) {
      forall p | p > 0.0
        ensures Faithful(s, log, start, end, p)
      {
        if Fits(s, start, end) {
          ApplyRefines(s, log, Reception(start, end, p, [], 0));
        } else {
          WipesExactly(s, log, start, end, p);
        }
      }
    } else {
      var p := Unfaithful(s, log, start, end);
    }
  }
}
