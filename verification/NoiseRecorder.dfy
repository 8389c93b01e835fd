/** The noise recorder: arrivals become receptions in bins, a transmitter's energy is counted once
    per bin, and windows are read back (rust/emane-core/src/noise_recorder.rs). */
module NoiseRecorder {
  import opened Common
  import opened NoiseWheel
  import opened NoiseSpan

  // ---------- time ----------

  /** Rust integer division: towards zero. */
  function TruncDiv(a: int, b: int): int
    requires b > 0
  {
    if a >= 0 then a / b else -((-a) / b)
  }

  /** `timepoint_to_bin`. */
  function TimeToBin(t: int, binSize: int, adjust: bool): int
    requires binSize > 0
  {
    if t == 0 then 0
    else TruncDiv(t, binSize) - (if adjust && t % binSize == 0 then 1 else 0)
  }

  lemma DivMonotone(a: int, b: int, d: int)
    requires d > 0 && a <= b
    ensures a / d <= b / d
  {
    DivBounds(a, d);
    DivBounds(b, d);
    if a / d > b / d {
      MulMonotone(b / d + 1, a / d, d);
    }
  }

  lemma TruncMonotone(a: int, b: int, d: int)
    requires d > 0 && a <= b
    ensures TruncDiv(a, d) <= TruncDiv(b, d)
  {
    if a >= 0 {
      DivMonotone(a, b, d);
    } else if b < 0 {
      DivMonotone(-b, -a, d);
    } else {
      DivNonNegative(-a, d);
      DivNonNegative(b, d);
    }
  }

  lemma DivNonNegative(a: int, d: int)
    requires d > 0 && a >= 0
    ensures a / d >= 0
  {
  }

  lemma DivOfMultiple(c: int, d: int)
    requires d > 0
    ensures c * d / d == c
  {
    var q := c * d / d;
    DivBounds(c * d, d);
    assert q * d <= c * d < (q + 1) * d;
    if q > c {
      MulMonotone(c + 1, q, d);
    } else if q < c {
      MulMonotone(q + 1, c, d);
    }
  }

  lemma TruncOfMultiple(c: int, d: int)
    requires d > 0
    ensures TruncDiv(c * d, d) == c
  {
    DivOfMultiple(c, d);
    DivOfMultiple(-c, d);
    assert (-c) * d == -(c * d);
  }

  lemma StartBinExact(sor: int, binSize: int, b: int)
    requires binSize > 0 && b >= 1
    ensures TimeToBin(sor, binSize, false) <= b <==> sor < (b + 1) * binSize
  {
    if sor < 0 {
      DivBounds(-sor, binSize);
      MulMonotone(0, b + 1, binSize);
    } else {
      DivBounds(sor, binSize);
      if sor / binSize <= b {
        MulMonotone(sor / binSize + 1, b + 1, binSize);
      } else {
        MulMonotone(b + 1, sor / binSize, binSize);
      }
    }
  }

  lemma BelowMultiple(q: int, r: int, d: int, b: int)
    requires d > 0 && 0 <= r < d
    ensures b <= q - (if r == 0 then 1 else 0) <==> b * d < q * d + r
  {
    if b < q {
      MulMonotone(b + 1, q, d);
      assert (b + 1) * d == b * d + d;
    } else if b > q {
      MulMonotone(q + 1, b, d);
      assert (q + 1) * d == q * d + d;
    }
  }

  lemma EndBinExact(eor: int, binSize: int, b: int)
    requires binSize > 0 && b >= 1
    ensures b <= TimeToBin(eor, binSize, true) <==> b * binSize < eor
  {
    if eor <= 0 {
      TruncMonotone(eor, 0, binSize);
      MulMonotone(0, b, binSize);
    } else {
      assert eor == eor / binSize * binSize + eor % binSize;
      BelowMultiple(eor / binSize, eor % binSize, binSize, b);
    }
  }

  /** The bins of a reception, among the positive ones, are exactly those whose time it touches: bin
      b is the time from b * binSize up to, not including, (b + 1) * binSize. */
  lemma BinsAreExact(sor: int, eor: int, binSize: int, b: int)
    requires binSize > 0 && b >= 1
    ensures TimeToBin(sor, binSize, false) <= b <= TimeToBin(eor, binSize, true)
       <==> sor < (b + 1) * binSize && b * binSize < eor
  {
    StartBinExact(sor, binSize, b);
    EndBinExact(eor, binSize, b);
  }

  // ---------- arrivals ----------

  /** The arguments of one `update` call. */
  datatype Arrival = Arrival(
    txTime: int, offset: int, propagation: int, duration: int, power: real,
    transmitters: seq<nat>, antenna: nat, more: bool)

  type Eor = map<(nat, nat), int>

  /** The recorder as a value: the span, and the end bin last stored for each pair of transmitter
      and antenna. */
  datatype State = State(binSize: int, windowBins: int, span: Span, eor: Eor)

  /** The end bin stored for a pair, at least 0. */
  function EorOf(eor: Eor, transmitter: nat, antenna: nat): (e: int)
    ensures e >= 0
  {
    if (transmitter, antenna) in eor && eor[(transmitter, antenna)] > 0
    then eor[(transmitter, antenna)] else 0
  }

  /** The latest end bin stored for any of the transmitters. */
  function StoredMax(eor: Eor, transmitters: seq<nat>, antenna: nat): (e: int)
    ensures e >= 0
    ensures forall t :: t in transmitters ==> EorOf(eor, t, antenna) <= e
    ensures e == 0 || exists t :: t in transmitters && EorOf(eor, t, antenna) == e
  {
    if transmitters == [] then 0
    else
      var rest := StoredMax(eor, transmitters[..|transmitters| - 1], antenna);
      var last := EorOf(eor, transmitters[|transmitters| - 1], antenna);
      if rest < last then last else rest
  }

  function RecordEor(eor: Eor, transmitters: seq<nat>, antenna: nat, end: int): Eor {
    if transmitters == [] then eor
    else RecordEor(eor, transmitters[..|transmitters| - 1], antenna, end)
         [(transmitters[|transmitters| - 1], antenna) := end]
  }

  function Sor(a: Arrival): int { a.txTime + a.offset + a.propagation }

  function EndBin(binSize: int, a: Arrival): int
    requires binSize > 0
  {
    TimeToBin(Sor(a) + a.duration, binSize, true)
  }

  /** The first bin of an arrival that none of its transmitters has filled yet. */
  function StartBin(st: State, a: Arrival): (s: int)
    requires st.binSize > 0
    ensures s >= 1 && s >= TimeToBin(Sor(a), st.binSize, false)
    ensures forall t :: t in a.transmitters ==> EorOf(st.eor, t, a.antenna) < s
  {
    var reported := TimeToBin(Sor(a), st.binSize, false);
    var stored := StoredMax(st.eor, a.transmitters, a.antenna);
    if reported <= stored then stored + 1 else reported
  }

  /** The reception an arrival leaves on the wheel: none when all its bins were filled before. */
  function AppliedBy(st: State, a: Arrival): seq<Reception>
    requires st.binSize > 0
  {
    var start, end := StartBin(st, a), EndBin(st.binSize, a);
    if start <= end then [Reception(start, end, a.power, a.transmitters, a.antenna)] else []
  }

  predicate ArrivalFits(st: State, a: Arrival)
    requires st.binSize > 0
  {
    var start, end := StartBin(st, a), EndBin(st.binSize, a);
    start <= end ==> Fits(st.span, start, end)
  }

  /** `update`; None when the wheel panics. */
  function Step(st: State, a: Arrival): Option<State>
    requires st.binSize > 0
  {
    var start, end := StartBin(st, a), EndBin(st.binSize, a);
    var span := if start <= end then Apply(st.span, start, end, a.power) else Some(st.span);
    if span.None? then None else
    Some(st.(span := span.value,
             eor := if a.more then st.eor else RecordEor(st.eor, a.transmitters, a.antenna, end)))
  }

  // ---------- runs ----------

  datatype Outcome = Outcome(st: State, log: seq<Reception>)

  /** A run of updates, with the log of what each one applied; None when some update panics. */
  function Run(st: State, arrivals: seq<Arrival>): (r: Option<Outcome>)
    requires st.binSize > 0
    ensures r.Some? ==> r.value.st.binSize == st.binSize
  {
    if arrivals == [] then Some(Outcome(st, [])) else
    var prior := Run(st, arrivals[..|arrivals| - 1]);
    if prior.None? then None else
    var a := arrivals[|arrivals| - 1];
    var next := Step(prior.value.st, a);
    if next.None? then None else
    Some(Outcome(next.value, prior.value.log + AppliedBy(prior.value.st, a)))
  }

  lemma RunAppend(st: State, arrivals: seq<Arrival>, a: Arrival, o: Outcome)
    requires st.binSize > 0 && o.st.binSize > 0
    ensures Run(st, arrivals) == Some(o) && Step(o.st, a).Some? ==>
      Run(st, arrivals + [a]) == Some(Outcome(Step(o.st, a).value, o.log + AppliedBy(o.st, a)))
  {
    assert (arrivals + [a])[..|arrivals|] == arrivals;
  }

  function NewState(binSize: int, windowBins: int, wheelBins: nat): State
    requires wheelBins > 0
  {
    State(binSize, windowBins, Span(seq(wheelBins, _ => 0.0), 0, 0), map[])
  }

  /** Every arrival of the run fits the wheel as it stands when the arrival comes. */
  ghost predicate RunFits(st: State, arrivals: seq<Arrival>)
    requires st.binSize > 0
  {
    forall k :: 0 <= k < |arrivals| && Run(st, arrivals[..k]).Some?
      ==> ArrivalFits(Run(st, arrivals[..k]).value.st, arrivals[k])
  }

  /** Both range fields are zero, or they bound a run of bins. */
  predicate Ranged(s: Span) {
    s.first == 0 == s.last || 1 <= s.first <= s.last
  }

  /** Every update that does not panic leaves a range, whether or not the arrival fits. */
  lemma StepRanged(st: State, a: Arrival)
    requires st.binSize > 0 && Ranged(st.span) && Step(st, a).Some?
    ensures Ranged(Step(st, a).value.span)
  {
  }

  lemma StepRefines(st: State, log: seq<Reception>, a: Arrival)
    requires st.binSize > 0 && Refines(st.span, log) && ArrivalFits(st, a)
    ensures var st' := Step(st, a);
      && st'.Some? && Refines(st'.value.span, log + AppliedBy(st, a))
      && |st'.value.span.slots| == |st.span.slots|
  {
    var start, end := StartBin(st, a), EndBin(st.binSize, a);
    if start <= end {
      ApplyRefines(st.span, log, Reception(start, end, a.power, a.transmitters, a.antenna));
    } else {
      assert log + AppliedBy(st, a) == log;
    }
  }

  lemma RunExtends(st: State, front: seq<Arrival>, o: Outcome, a: Arrival)
    requires st.binSize > 0 && o.st.binSize > 0 && Refines(o.st.span, o.log) && ArrivalFits(o.st, a)
    ensures var r := Run(st, front + [a]);
      Run(st, front) == Some(o) ==>
        r.Some? && |r.value.st.span.slots| == |o.st.span.slots| && Refines(r.value.st.span, r.value.log)
  {
    StepRefines(o.st, o.log, a);
    RunAppend(st, front, a, o);
  }

  /** Over every run of fitting arrivals, from the empty recorder, after each of them: no update
      panics, every bin the wheel holds is the sum of the receptions applied to it, and the range is
      (0, 0) exactly when nothing was applied. */
  lemma {:induction false} RunRefines(st: State, arrivals: seq<Arrival>, n: nat)
    requires st.binSize > 0 && st.span.first == 0 == st.span.last && RunFits(st, arrivals) && n <= |arrivals|
    ensures var r := Run(st, arrivals[..n]);
      && r.Some? && |r.value.st.span.slots| == |st.span.slots|
      && Refines(r.value.st.span, r.value.log)
  {
    if n > 0 {
      var front, a := arrivals[..n - 1], arrivals[n - 1];
      assert arrivals[..n] == front + [a];
      RunRefines(st, arrivals, n - 1);
      assert ArrivalFits(Run(st, front).value.st, a);
      RunExtends(st, front, Run(st, front).value, a);
    } else {
      assert arrivals[..0] == [];
    }
  }

  // ---------- each bin of a transmitter is counted once ----------

  predicate Sends(r: Reception, transmitter: nat, antenna: nat) {
    transmitter in r.transmitters && r.antenna == antenna
  }

  predicate Apart(r: Reception, start: int, end: int) {
    end < r.start || r.end < start
  }

  /** No stored end bin lies before a reception applied for its pair. */
  ghost predicate Guarded(eor: Eor, log: seq<Reception>) {
    forall r, t :: r in log && t in r.transmitters ==> r.end <= EorOf(eor, t, r.antenna)
  }

  /** Receptions that share a transmitter and an antenna cover different bins, in order. */
  ghost predicate CountedOnce(log: seq<Reception>) {
    forall i, j, t :: 0 <= i < j < |log| && t in log[i].transmitters && t in log[j].transmitters
                      && log[i].antenna == log[j].antenna
      ==> log[i].end < log[j].start
  }

  /** The arrival would put power into a bin that one of its transmitters filled before. */
  ghost predicate CountsAgain(st: State, log: seq<Reception>, a: Arrival)
    requires st.binSize > 0
  {
    exists r, t :: r in log && t in a.transmitters && Sends(r, t, a.antenna) && Overlaps(st, a, r)
  }

  predicate Overlaps(st: State, a: Arrival, r: Reception)
    requires st.binSize > 0
  {
    var applied := AppliedBy(st, a);
    applied != [] && !Apart(r, applied[0].start, applied[0].end)
  }

  /** An arrival of one transmitter that lasts from time zero to the end of bin b starts behind the
      end bin stored for it. */
  lemma LongArrival(st: State, a: Arrival, t: nat, b: int)
    requires st.binSize > 0 && b >= 1 && a.transmitters == [t]
    requires a.txTime == a.offset == a.propagation == 0 && a.duration == (b + 1) * st.binSize
    ensures StartBin(st, a) == EorOf(st.eor, t, a.antenna) + 1 && EndBin(st.binSize, a) == b
  {
    var t1 := (b + 1) * st.binSize;
    MulMonotone(1, b + 1, st.binSize);
    TruncOfMultiple(b + 1, st.binSize);
    DivOfMultiple(b + 1, st.binSize);
    assert t1 == t1 / st.binSize * st.binSize + t1 % st.binSize;
    assert a.transmitters[..0] == [];
    assert StoredMax(st.eor, a.transmitters, a.antenna) == EorOf(st.eor, t, a.antenna);
  }

  /** The stored end bins guard the log if and only if no arrival whatever could be counted again. */
  lemma GuardedExactly(st: State, log: seq<Reception>)
    requires st.binSize > 0 && forall r :: r in log ==> r.start <= r.end
    ensures Guarded(st.eor, log) <==> forall a :: !CountsAgain(st, log, a)
  {
    if !Guarded(st.eor, log) {
      var r, t :| r in log && t in r.transmitters && EorOf(st.eor, t, r.antenna) < r.end;
      var a := Arrival(0, 0, 0, (r.end + 1) * st.binSize, 1.0, [t], r.antenna, false);
      LongArrival(st, a, t, r.end);
      assert t in a.transmitters && Sends(r, t, a.antenna) && Overlaps(st, a, r);
      assert CountsAgain(st, log, a);
    }
  }

  lemma {:induction false} RecordEorAt(eor: Eor, transmitters: seq<nat>, antenna: nat, end: int, t: nat, other: nat)
    ensures EorOf(RecordEor(eor, transmitters, antenna, end), t, other)
         == if t in transmitters && other == antenna then (if end > 0 then end else 0)
            else EorOf(eor, t, other)
  {
    if transmitters != [] {
      var n := |transmitters| - 1;
      assert transmitters == transmitters[..n] + [transmitters[n]];
      RecordEorAt(eor, transmitters[..n], antenna, end, t, other);
    }
  }

  /** An update that finishes its transmission and does not move any end bin backwards. */
  predicate Advances(st: State, a: Arrival)
    requires st.binSize > 0
  {
    !a.more && forall t :: t in a.transmitters ==> EorOf(st.eor, t, a.antenna) <= EndBin(st.binSize, a)
  }

  ghost predicate RunAdvances(st: State, arrivals: seq<Arrival>)
    requires st.binSize > 0
  {
    forall k :: 0 <= k < |arrivals| && Run(st, arrivals[..k]).Some?
      ==> Advances(Run(st, arrivals[..k]).value.st, arrivals[k])
  }

  lemma StepGuarded(st: State, log: seq<Reception>, a: Arrival)
    requires st.binSize > 0 && Step(st, a).Some? && Advances(st, a)
    requires Guarded(st.eor, log) && CountedOnce(log)
    requires forall r :: r in log ==> r.start <= r.end
    ensures Guarded(Step(st, a).value.eor, log + AppliedBy(st, a))
    ensures CountedOnce(log + AppliedBy(st, a))
    ensures forall r :: r in log + AppliedBy(st, a) ==> r.start <= r.end
  {
    var eor' := Step(st, a).value.eor;
    var log' := log + AppliedBy(st, a);
    forall r, t | r in log' && t in r.transmitters
      ensures r.end <= EorOf(eor', t, r.antenna)
    {
      RecordEorAt(st.eor, a.transmitters, a.antenna, EndBin(st.binSize, a), t, r.antenna);
    }
    forall i, j, t | 0 <= i < j < |log'| && t in log'[i].transmitters && t in log'[j].transmitters
                     && log'[i].antenna == log'[j].antenna
      ensures log'[i].end < log'[j].start
    {
      assert log'[i] in log;
    }
  }

  /** Over every run of advancing updates, after each of them, a pair's applied receptions are pairwise
      disjoint. */
  lemma {:induction false} RunCountsOnce(st: State, arrivals: seq<Arrival>, n: nat)
    requires st.binSize > 0 && st.eor == map[] && RunAdvances(st, arrivals) && n <= |arrivals|
    ensures var r := Run(st, arrivals[..n]);
      r.Some? ==>
        && CountedOnce(r.value.log) && Guarded(r.value.st.eor, r.value.log)
        && forall x :: x in r.value.log ==> x.start <= x.end
  {
    if n > 0 && Run(st, arrivals[..n]).Some? {
      RunCountsOnce(st, arrivals, n - 1);
      assert arrivals[..n][..n - 1] == arrivals[..n - 1];
      var prior := Run(st, arrivals[..n - 1]).value;
      assert Advances(prior.st, arrivals[n - 1]);
      StepGuarded(prior.st, prior.log, arrivals[n - 1]);
    } else {
      assert n == 0 ==> arrivals[..0] == [];
    }
  }

  /** No reception already applied for one of the arrival's pairs ends after the arrival does. */
  ghost predicate EndsLast(binSize: int, log: seq<Reception>, a: Arrival)
    requires binSize > 0
  {
    forall r, t :: r in log && Sends(r, t, a.antenna) && t in a.transmitters
      ==> r.end <= EndBin(binSize, a)
  }

  /** The guard survives an update exactly when no end bin moves back behind a reception. */
  lemma GuardKeptExactly(st: State, log: seq<Reception>, a: Arrival)
    requires st.binSize > 0 && Step(st, a).Some? && !a.more
    requires Guarded(st.eor, log) && forall r :: r in log ==> 1 <= r.start <= r.end
    ensures Guarded(Step(st, a).value.eor, log + AppliedBy(st, a)) <==> EndsLast(st.binSize, log, a)
  {
    var end := EndBin(st.binSize, a);
    var eor' := RecordEor(st.eor, a.transmitters, a.antenna, end);
    assert Step(st, a).value.eor == eor';
    var log' := log + AppliedBy(st, a);
    if EndsLast(st.binSize, log, a) {
      forall r, t | r in log' && t in r.transmitters
        ensures r.end <= EorOf(eor', t, r.antenna)
      {
        RecordEorAt(st.eor, a.transmitters, a.antenna, end, t, r.antenna);
        if r in log && t in a.transmitters && r.antenna == a.antenna {
          assert Sends(r, t, a.antenna);
        }
      }
    }
    if Guarded(eor', log') {
      forall r, t | r in log && Sends(r, t, a.antenna) && t in a.transmitters
        ensures r.end <= end
      {
        assert r in log' && t in r.transmitters;
        RecordEorAt(st.eor, a.transmitters, a.antenna, end, t, a.antenna);
      }
    }
  }
}
