/** What one reception does to the wheel and to the recorded range of bins, and what it should do.

    The meaning of a recorder is a log of applied receptions: the power of a bin is the sum of the
    powers of the receptions that cover it. `Apply` is the branch structure of
    `NoiseRecorder::update` for one sub-band (rust/emane-core/src/noise_recorder.rs:375-561). */
module NoiseSpan {
  import opened Common
  import opened NoiseWheel

  /** A reception as it was applied: its bins, its power, and who sent it from which antenna. */
  datatype Reception =
    Reception(start: int, end: int, power: real, transmitters: seq<nat>, antenna: nat)

  /** The wheel together with `min_start_of_reception_bin` and `max_end_of_reception_bin`. */
  datatype Span = Span(slots: Slots, first: int, last: int)

  // ---------- meaning ----------

  predicate Covers(r: Reception, bin: int) {
    r.start <= bin <= r.end
  }

  function Share(r: Reception, bin: int): real {
    if Covers(r, bin) then r.power else 0.0
  }

  /** The summed power of a bin. */
  function Power(log: seq<Reception>, bin: int): real {
    if log == [] then 0.0 else Power(log[..|log| - 1], bin) + Share(log[|log| - 1], bin)
  }

  predicate Live(s: Span, bin: int) {
    s.first <= bin <= s.last && s.last - |s.slots| < bin
  }

  /** Every bin the wheel still holds reads as its summed power. */
  ghost predicate Agrees(s: Span, log: seq<Reception>) {
    forall b :: Live(s, b) ==> At(s.slots, b) == Power(log, b)
  }

  ghost predicate InRange(s: Span, log: seq<Reception>) {
    && (forall r :: r in log ==> 1 <= r.start <= r.end <= s.last)
    && (forall r :: r in log ==> s.first <= r.start || r.end <= s.last - |s.slots|)
    && (exists r :: r in log && r.end == s.last)
  }

  /** The recorder's invariant: both range fields are zero exactly when nothing was applied,
      and otherwise the live bins agree with the log. */
  ghost predicate Refines(s: Span, log: seq<Reception>) {
    if log == [] then s.first == 0 && s.last == 0
    else 1 <= s.first <= s.last && InRange(s, log) && Agrees(s, log)
  }

  // ---------- the update ----------

  /** `Wheel::set`; None is its panic on a count that exceeds the wheel. */
  function TrySet(s: Slots, lo: int, n: int, value: real): Option<Slots> {
    if n > |s| then None else Some(Fill(s, lo, n, value))
  }

  function TryAdd(s: Slots, lo: int, n: int, value: real): Option<Slots> {
    if n > |s| then None else Some(Boost(s, lo, n, value))
  }

  /** The number of bins in front of the recorded range. */
  function BeforeCount(s: Span, start: int, end: int): int {
    if start < s.first then (if end < s.first then end - start + 1 else s.first - start) else 0
  }

  /** The number of bins behind the recorded range. */
  function AfterCount(s: Span, start: int, end: int): int {
    if end > s.last then (if start > s.last then end - start + 1 else end - s.last) else 0
  }

  /** The reception starts at least a turn after the newest bin. */
  predicate Stale(s: Span, start: int) {
    s.last + |s.slots| <= start
  }

  function Reset(s: Span, start: int): Span {
    if Stale(s, start) then s.(first := 0, last := 0) else s
  }

  /** The write in front of the recorded range. */
  function WriteBefore(s: Span, start: int, end: int, power: real): Option<Slots> {
    var before := BeforeCount(s, start, end);
    if before > 0 then TrySet(s.slots, start, before, power) else Some(s.slots)
  }

  /** The write behind the recorded range. */
  function WriteAfter(slots: Slots, s: Span, start: int, end: int, power: real): Option<Slots> {
    var after := AfterCount(s, start, end);
    if after > 0 then TrySet(slots, end + 1 - after, after, power) else Some(slots)
  }

  /** The addition within the recorded range, or else the clearing of the gap to it. */
  function WriteWithin(slots: Slots, s: Span, start: int, end: int, power: real): Option<Slots> {
    var before := BeforeCount(s, start, end);
    var after := AfterCount(s, start, end);
    var within := end - start + 1 - before - after;
    if within > 0 then TryAdd(slots, start + before, within, power) else
    var cleared := if before > 0 then TrySet(slots, start + before, s.first - (start + before), 0.0)
                   else Some(slots);
    if cleared.None? then None else
    if after > 0 then TrySet(cleared.value, s.last + 1, start - s.last - 1, 0.0) else cleared
  }

  /** The wheel after all writes of a reception, for a non-empty range. */
  function Merge(s: Span, start: int, end: int, power: real): Option<Slots> {
    var s1 := WriteBefore(s, start, end, power);
    if s1.None? then None else
    var s2 := WriteAfter(s1.value, s, start, end, power);
    if s2.None? then None else
    WriteWithin(s2.value, s, start, end, power)
  }

  /** One applied reception; None when the wheel panics. */
  function Apply(s0: Span, start: int, end: int, power: real): Option<Span> {
    var s := Reset(s0, start);
    if s.first == 0 && s.last == 0 then
      var slots := TrySet(s.slots, start, end - start + 1, power);
      if slots.None? then None else Some(Span(slots.value, start, end))
    else
      var slots := Merge(s, start, end, power);
      if slots.None? then None else
      Some(Span(slots.value,
                if start < s.first then start else s.first,
                if end > s.last then end else s.last))
  }

  /** The receptions the wheel can take: when it is empty or stale, at most one turn long; beyond
      the newest bin, also ending at most one turn after it; otherwise not a full turn late, and
      not reaching round to a bin that is still being added to. */
  predicate Fits(s: Span, start: int, end: int) {
    var w := |s.slots|;
    if s.last == 0 || s.last + w <= start then end - start < w
    else if start > s.last then end - start < w && end <= s.last + w
    else s.last - w < start && end - w < (if start < s.first then s.first else start)
  }

  /** The update runs through and the live bins again agree with the log. */
  ghost predicate Faithful(s: Span, log: seq<Reception>, start: int, end: int, power: real) {
    var s' := Apply(s, start, end, power);
    s'.Some? && Agrees(s'.value, log + [Reception(start, end, power, [], 0)])
  }

  // ---------- power of a log ----------

  lemma PowerAppend(log: seq<Reception>, r: Reception, b: int)
    ensures Power(log + [r], b) == Power(log, b) + Share(r, b)
  {
    assert (log + [r])[..|log|] == log;
  }

  lemma {:induction false} PowerUncovered(log: seq<Reception>, b: int)
    requires forall r :: r in log ==> !Covers(r, b)
    ensures Power(log, b) == 0.0
  {
    if log != [] {
      var rest := log[..|log| - 1];
      assert forall r :: r in rest ==> r in log;
      PowerUncovered(rest, b);
    }
  }

  /** Nothing applied so far reaches a bin above the range, or one below it that is still live. */
  lemma PowerOutside(s: Span, log: seq<Reception>, b: int)
    requires log != [] && Refines(s, log)
    requires b > s.last || (s.last - |s.slots| < b < s.first)
    ensures Power(log, b) == 0.0
  {
    PowerUncovered(log, b);
  }

  // ---------- sufficiency ----------

  /** A slot's value after a run was set, in terms of the distance to the run's start. */
  function SetValue(d: int, n: int, w: int, value: real, held: real): real {
    if InTurn(d, n, w) then value else held
  }

  function AddValue(d: int, n: int, w: int, value: real, held: real): real {
    if InTurn(d, n, w) then held + value else held
  }

  /** What a bin should hold after a reception. */
  function Merged(s: Span, start: int, end: int, power: real, b: int): real {
    (if s.first <= b <= s.last then At(s.slots, b) else 0.0) + (if start <= b <= end then power else 0.0)
  }

  /** The arithmetic of the overlapping case: set before, set after, then add within. */
  lemma OverlappingValue(s: Span, start: int, end: int, power: real, b: int, v0: real)
    requires 1 <= s.first <= s.last && 1 <= start <= end
    requires start <= s.last && s.first <= end && Fits(s, start, end) && !Stale(s, start)
    requires var last := if end > s.last then end else s.last; last - |s.slots| < b <= last
    requires b >= s.first || b >= start
    ensures var w, before, after := |s.slots|, BeforeCount(s, start, end), AfterCount(s, start, end);
      var v1 := SetValue(b - start, before, w, power, v0);
      var v2 := SetValue(b - (end + 1 - after), after, w, power, v1);
      AddValue(b - (start + before), end - start + 1 - before - after, w, power, v2)
      == (if s.first <= b <= s.last then v0 else 0.0) + (if start <= b <= end then power else 0.0)
  {
  }

  lemma BeforeAt(s: Span, start: int, end: int, power: real, b: int)
    requires start <= end && WriteBefore(s, start, end, power).Some? && start - |s.slots| <= b < start + 2 * |s.slots|
    ensures At(WriteBefore(s, start, end, power).value, b)
         == SetValue(b - start, BeforeCount(s, start, end), |s.slots|, power, At(s.slots, b))
  {
    FillAt(s.slots, start, BeforeCount(s, start, end), power, b);
  }

  lemma AfterAt(slots: Slots, s: Span, start: int, end: int, power: real, b: int)
    requires start <= end && WriteAfter(slots, s, start, end, power).Some?
    requires var lo := end + 1 - AfterCount(s, start, end); lo - |slots| <= b < lo + 2 * |slots|
    ensures var after := AfterCount(s, start, end);
      At(WriteAfter(slots, s, start, end, power).value, b)
      == SetValue(b - (end + 1 - after), after, |slots|, power, At(slots, b))
  {
    FillAt(slots, end + 1 - AfterCount(s, start, end), AfterCount(s, start, end), power, b);
  }

  /** An overlapping reception that fits writes no run longer than the wheel. */
  lemma OverlappingCounts(s: Span, start: int, end: int)
    requires 1 <= s.first <= s.last && 1 <= start <= end
    requires start <= s.last && s.first <= end && Fits(s, start, end) && !Stale(s, start)
    ensures var before, after := BeforeCount(s, start, end), AfterCount(s, start, end);
      0 <= before <= |s.slots| && 0 <= after <= |s.slots| && 0 < end - start + 1 - before - after <= |s.slots|
  {
  }

  lemma WithinAt(slots: Slots, s: Span, start: int, end: int, power: real, b: int)
    requires start <= end && |slots| == |s.slots|
    requires var lo := start + BeforeCount(s, start, end); lo - |slots| <= b < lo + 2 * |slots|
    requires 0 < end - start + 1 - BeforeCount(s, start, end) - AfterCount(s, start, end) <= |slots|
    ensures var n := end - start + 1 - BeforeCount(s, start, end) - AfterCount(s, start, end);
      var m := WriteWithin(slots, s, start, end, power);
      m.Some? && |m.value| == |slots|
      && At(m.value, b) == AddValue(b - (start + BeforeCount(s, start, end)), n, |slots|, power, At(slots, b))
  {
    var before, after := BeforeCount(s, start, end), AfterCount(s, start, end);
    BoostAt(slots, start + before, end - start + 1 - before - after, power, b);
  }

  /** The overlapping case. */
  lemma MergeOverlapping(s: Span, start: int, end: int, power: real, b: int)
    requires 1 <= s.first <= s.last && 1 <= start <= end
    requires start <= s.last && s.first <= end && Fits(s, start, end) && !Stale(s, start)
    requires var last := if end > s.last then end else s.last; last - |s.slots| < b <= last
    requires b >= s.first || b >= start
    ensures var m := Merge(s, start, end, power);
      m.Some? && |m.value| == |s.slots| && At(m.value, b) == Merged(s, start, end, power, b)
  {
    OverlappingCounts(s, start, end);
    var before, after := BeforeCount(s, start, end), AfterCount(s, start, end);
    var s1 := WriteBefore(s, start, end, power).value;
    var s2 := WriteAfter(s1, s, start, end, power).value;
    BeforeAt(s, start, end, power, b);
    AfterAt(s1, s, start, end, power, b);
    WithinAt(s2, s, start, end, power, b);
    OverlappingValue(s, start, end, power, b, At(s.slots, b));
  }

  /** The case in front of the range: set, then clear the gap up to it. */
  lemma MergeInFront(s: Span, start: int, end: int, power: real, b: int)
    requires 1 <= s.first <= s.last && 1 <= start <= end
    requires end < s.first && Fits(s, start, end) && !Stale(s, start)
    requires s.last - |s.slots| < b <= s.last && b >= start
    ensures var m := Merge(s, start, end, power);
      m.Some? && |m.value| == |s.slots| && At(m.value, b) == Merged(s, start, end, power, b)
  {
    var n := end - start + 1;
    var s1 := Fill(s.slots, start, n, power);
    FillAt(s.slots, start, n, power, b);
    FillAt(s1, start + n, s.first - (start + n), 0.0, b);
  }

  /** The case behind the range: set, then clear the gap down to it. */
  lemma MergeBehind(s: Span, start: int, end: int, power: real, b: int)
    requires 1 <= s.first <= s.last && 1 <= start <= end
    requires s.last < start && Fits(s, start, end) && !Stale(s, start)
    requires end - |s.slots| < b <= end && b >= s.first
    ensures var m := Merge(s, start, end, power);
      m.Some? && |m.value| == |s.slots| && At(m.value, b) == Merged(s, start, end, power, b)
  {
    var n := end - start + 1;
    var s1 := Fill(s.slots, start, n, power);
    FillAt(s.slots, start, n, power, b);
    FillAt(s1, s.last + 1, start - s.last - 1, 0.0, b);
  }

  /** What the merged wheel holds at a live bin, given that the reception fits. */
  lemma MergeAt(s: Span, start: int, end: int, power: real, b: int)
    requires 1 <= s.first <= s.last && 1 <= start <= end
    requires !Stale(s, start) && Fits(s, start, end)
    requires var last := if end > s.last then end else s.last; last - |s.slots| < b <= last
    requires b >= s.first || b >= start
    ensures var m := Merge(s, start, end, power);
      m.Some? && |m.value| == |s.slots| && At(m.value, b) == Merged(s, start, end, power, b)
  {
    if end < s.first {
      MergeInFront(s, start, end, power, b);
    } else if s.last < start {
      MergeBehind(s, start, end, power, b);
    } else {
      MergeOverlapping(s, start, end, power, b);
    }
  }

  lemma FillInside(s: Slots, lo: int, n: int, value: real, b: int)
    requires lo <= b < lo + n && n <= |s|
    ensures At(Fill(s, lo, n, value), b) == value
  {
    FillAt(s, lo, n, value, b);
  }

  /** On an empty or stale wheel, a bin of the reception holds its power alone. */
  lemma StaleBin(s: Span, log: seq<Reception>, r: Reception, b: int)
    requires Refines(s, log) && (log == [] || Stale(s, r.start))
    requires r.start <= b <= r.end && r.end - r.start < |s.slots|
    ensures At(Fill(s.slots, r.start, r.end - r.start + 1, r.power), b) == Power(log + [r], b)
  {
    PowerAppend(log, r, b);
    PowerUncovered(log, b);
    FillInside(s.slots, r.start, r.end - r.start + 1, r.power, b);
  }

  lemma StaleRange(s: Span, log: seq<Reception>, r: Reception, s': Span)
    requires Refines(s, log) && (log == [] || Stale(s, r.start)) && 1 <= r.start <= r.end
    requires |s'.slots| == |s.slots| && s'.first == r.start && s'.last == r.end
    ensures InRange(s', log + [r])
  {
    assert r in log + [r];
  }

  lemma ApplyStaleAgrees(s: Span, log: seq<Reception>, r: Reception)
    requires Refines(s, log) && 1 <= r.start <= r.end && Fits(s, r.start, r.end)
    requires log == [] || Stale(s, r.start)
    ensures var s' := Apply(s, r.start, r.end, r.power);
      s'.Some? && |s'.value.slots| == |s.slots| && Refines(s'.value, log + [r])
  {
    var s' := Span(Fill(s.slots, r.start, r.end - r.start + 1, r.power), r.start, r.end);
    assert Apply(s, r.start, r.end, r.power) == Some(s');
    StaleRange(s, log, r, s');
    forall b | Live(s', b)
      ensures At(s'.slots, b) == Power(log + [r], b)
    {
      StaleBin(s, log, r, b);
    }
  }

  /** At a live bin, merging adds the reception's share to what the log says. */
  lemma MergedBin(s: Span, log: seq<Reception>, r: Reception, b: int)
    requires log != [] && Refines(s, log) && 1 <= r.start <= r.end
    requires !Stale(s, r.start) && Fits(s, r.start, r.end)
    requires var last := if r.end > s.last then r.end else s.last; last - |s.slots| < b <= last
    requires b >= s.first || b >= r.start
    ensures var m := Merge(s, r.start, r.end, r.power);
      m.Some? && At(m.value, b) == Power(log + [r], b)
  {
    PowerAppend(log, r, b);
    MergeAt(s, r.start, r.end, r.power, b);
    if b < s.first || s.last < b {
      PowerOutside(s, log, b);
    }
  }

  lemma MergedRange(s: Span, log: seq<Reception>, r: Reception, s': Span)
    requires log != [] && Refines(s, log) && 1 <= r.start <= r.end
    requires !Stale(s, r.start) && Fits(s, r.start, r.end) && |s'.slots| == |s.slots|
    requires s'.first == (if r.start < s.first then r.start else s.first)
    requires s'.last == (if r.end > s.last then r.end else s.last)
    ensures InRange(s', log + [r])
  {
    var top :| top in log && top.end == s.last;
    assert top in log + [r] && r in log + [r];
  }

  lemma ApplyMergedAgrees(s: Span, log: seq<Reception>, r: Reception)
    requires Refines(s, log) && 1 <= r.start <= r.end && Fits(s, r.start, r.end)
    requires log != [] && !Stale(s, r.start)
    ensures var s' := Apply(s, r.start, r.end, r.power);
      s'.Some? && |s'.value.slots| == |s.slots| && Refines(s'.value, log + [r])
  {
    var last := if r.end > s.last then r.end else s.last;
    MergeAt(s, r.start, r.end, r.power, last);
    var slots := Merge(s, r.start, r.end, r.power).value;
    var s' := Span(slots, if r.start < s.first then r.start else s.first, last);
    assert Apply(s, r.start, r.end, r.power) == Some(s');
    MergedRange(s, log, r, s');
    forall b | Live(s', b)
      ensures At(s'.slots, b) == Power(log + [r], b)
    {
      MergedBin(s, log, r, b);
    }
  }

  /** A reception that fits keeps the invariant. */
  lemma ApplyRefines(s: Span, log: seq<Reception>, r: Reception)
    requires Refines(s, log) && 1 <= r.start <= r.end && Fits(s, r.start, r.end)
    ensures var s' := Apply(s, r.start, r.end, r.power);
      s'.Some? && |s'.value.slots| == |s.slots| && Refines(s'.value, log + [r])
  {
    if log == [] || Stale(s, r.start) {
      ApplyStaleAgrees(s, log, r);
    } else {
      ApplyMergedAgrees(s, log, r);
    }
  }
}
