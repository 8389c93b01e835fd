/** Per-neighbor figures: missed frames, averages, bounds and deviations
    (rust/emane-core/src/neighbor_metric_manager.rs:360-381 and 408-438). */
module NeighborMetrics {
  import opened Common

  // ---------- missed frames ----------

  /** The reception fields of a neighbor's record. */
  datatype Rx = Rx(uuid: seq<int>, last: nat, missed: nat, frames: nat)

  datatype Frame = Frame(uuid: seq<int>, sequence: nat)

  const NO_UUID := seq(16, _ => 0)

  const NEW_RX := Rx(NO_UUID, 0, 0, 0)

  /** `update_rx_activity_data`. */
  function Receive(r: Rx, f: Frame): Rx {
    var counted :=
      if f.uuid != r.uuid then r.(uuid := f.uuid, last := f.sequence)
      else if f.sequence > r.last then
        r.(missed := r.missed + (f.sequence - r.last - 1), last := f.sequence)
      else if r.missed > 0 then r.(missed := r.missed - 1)
      else r;
    counted.(frames := counted.frames + 1)
  }

  function ReceiveAll(r: Rx, frames: seq<Frame>): Rx {
    if frames == [] then r
    else Receive(ReceiveAll(r, frames[..|frames| - 1]), frames[|frames| - 1])
  }

  lemma ReceiveOneMore(r: Rx, frames: seq<Frame>, f: Frame)
    ensures ReceiveAll(r, frames + [f]) == Receive(ReceiveAll(r, frames), f)
  {
    assert (frames + [f])[..|frames|] == frames;
  }

  /** Frames of the emulator the record currently follows. */
  predicate Follows(r: Rx, frames: seq<Frame>) {
    forall i :: 0 <= i < |frames| ==> frames[i].uuid == r.uuid
  }

  /** Frames newer than where the record started. */
  predicate Newer(r: Rx, frames: seq<Frame>) {
    forall i :: 0 <= i < |frames| ==> r.last < frames[i].sequence
  }

  predicate Distinct(frames: seq<Frame>) {
    forall i, j :: 0 <= i < j < |frames| ==> frames[i].sequence != frames[j].sequence
  }

  function Heard(frames: seq<Frame>): set<nat> {
    set f | f in frames :: f.sequence
  }

  /** The sequence numbers after `base`, up to the highest heard, that were never received. */
  function NeverHeard(base: nat, last: nat, frames: seq<Frame>): set<nat> {
    set k | base < k <= last && k !in Heard(frames)
  }

  lemma HeardAppend(frames: seq<Frame>, f: Frame)
    ensures Heard(frames + [f]) == Heard(frames) + {f.sequence}
  {
  }

  /** The numbers strictly between a and b. */
  function Between(a: nat, b: nat): (r: set<nat>)
    ensures forall k :: k in r <==> a < k < b
    ensures |r| == if a < b then b - a - 1 else 0
    decreases b
  {
    if b <= a + 1 then {} else Between(a, b - 1) + {b - 1}
  }

  lemma NeverHeardAbove(base: nat, last: nat, frames: seq<Frame>, f: Frame)
    requires base <= last < f.sequence && forall k :: k in Heard(frames) ==> k <= last
    ensures |NeverHeard(base, f.sequence, frames + [f])| == |NeverHeard(base, last, frames)| + (f.sequence - last - 1)
  {
    HeardAppend(frames, f);
    var gap := Between(last, f.sequence);
    assert NeverHeard(base, f.sequence, frames + [f]) == NeverHeard(base, last, frames) + gap;
    assert NeverHeard(base, last, frames) !! gap;
  }

  /** The number is no news: it lies where the record started or before, or was heard already. */
  predicate Old(base: nat, frames: seq<Frame>, f: Frame) {
    f.sequence <= base || f.sequence in Heard(frames)
  }

  lemma NeverHeardBelow(base: nat, last: nat, frames: seq<Frame>, f: Frame)
    requires f.sequence <= last
    ensures !Old(base, frames, f) ==>
      |NeverHeard(base, last, frames + [f])| == |NeverHeard(base, last, frames)| - 1
    ensures Old(base, frames, f) ==> NeverHeard(base, last, frames + [f]) == NeverHeard(base, last, frames)
  {
    HeardAppend(frames, f);
    if !Old(base, frames, f) {
      assert NeverHeard(base, last, frames) == NeverHeard(base, last, frames + [f]) + {f.sequence};
    }
  }

  /** The record counts the frames and tracks the highest number heard. */
  lemma {:induction false} HighestHeard(r: Rx, frames: seq<Frame>)
    requires Follows(r, frames)
    ensures var t := ReceiveAll(r, frames);
      && t.uuid == r.uuid && t.frames == r.frames + |frames| && r.last <= t.last
      && (forall k :: k in Heard(frames) ==> k <= t.last)
  {
    if frames != [] {
      var n := |frames| - 1;
      assert frames == frames[..n] + [frames[n]];
      HighestHeard(r, frames[..n]);
      HeardAppend(frames[..n], frames[n]);
    }
  }

  /** For frames in any order, with any repeats: the record never claims more missed frames than
      there are; without repeats and without frames from before it started the count is exact. */
  lemma {:induction false} MissedCount(r: Rx, frames: seq<Frame>)
    requires Follows(r, frames)
    ensures var t := ReceiveAll(r, frames);
      && t.missed <= r.missed + |NeverHeard(r.last, t.last, frames)|
      && (Distinct(frames) && Newer(r, frames) ==> t.missed == r.missed + |NeverHeard(r.last, t.last, frames)|)
  {
    if frames == [] {
      assert NeverHeard(r.last, r.last, []) == {};
    } else {
      var n := |frames| - 1;
      var front, f := frames[..n], frames[n];
      assert frames == front + [f];
      MissedCount(r, front);
      HighestHeard(r, front);
      var t := ReceiveAll(r, front);
      if f.sequence > t.last {
        NeverHeardAbove(r.last, t.last, front, f);
      } else {
        NeverHeardBelow(r.last, t.last, front, f);
      }
      if Distinct(frames) {
        NotHeardBefore(front, f);
      }
    }
  }

  /** The count is that of the numbers never heard, on top of what the record started with. */
  predicate Exact(r: Rx, frames: seq<Frame>) {
    var t := ReceiveAll(r, frames);
    t.missed == r.missed + |NeverHeard(r.last, t.last, frames)|
  }

  /** A frame that is no news and takes back a missed one. */
  predicate Hides(r: Rx, front: seq<Frame>, f: Frame) {
    Old(r.last, front, f) && ReceiveAll(r, front).missed > 0
  }

  /** A late frame, heard for the first time, for which no missed frame is left to take back. */
  predicate Refunds(r: Rx, front: seq<Frame>, f: Frame) {
    var t := ReceiveAll(r, front);
    f.sequence <= t.last && !Old(r.last, front, f) && t.missed == 0
  }

  function Hidden(r: Rx, frames: seq<Frame>): nat {
    if frames == [] then 0
    else
      var n := |frames| - 1;
      Hidden(r, frames[..n]) + (if Hides(r, frames[..n], frames[n]) then 1 else 0)
  }

  function Refunded(r: Rx, frames: seq<Frame>): nat {
    if frames == [] then 0
    else
      var n := |frames| - 1;
      Refunded(r, frames[..n]) + (if Refunds(r, frames[..n], frames[n]) then 1 else 0)
  }

  /** Over every run of frames, with any repeats, the count is off by exactly the old frames that took
      back a missed one less the late frames that found none to take back; so it is exact if and
      only if there were as many of the one as of the other. */
  lemma {:induction false} MissedExactly(r: Rx, frames: seq<Frame>)
    requires Follows(r, frames)
    ensures var t := ReceiveAll(r, frames);
      t.missed + Hidden(r, frames) == r.missed + |NeverHeard(r.last, t.last, frames)| + Refunded(r, frames)
    ensures Exact(r, frames) <==> Hidden(r, frames) == Refunded(r, frames)
  {
    if frames == [] {
      assert NeverHeard(r.last, r.last, []) == {};
    } else {
      var n := |frames| - 1;
      var front, f := frames[..n], frames[n];
      assert frames == front + [f];
      MissedExactly(r, front);
      HighestHeard(r, front);
      var t := ReceiveAll(r, front);
      if f.sequence > t.last {
        NeverHeardAbove(r.last, t.last, front, f);
      } else {
        NeverHeardBelow(r.last, t.last, front, f);
      }
    }
  }

  lemma FollowsFront(r: Rx, front: seq<Frame>, f: Frame)
    requires Follows(r, front + [f])
    ensures Follows(r, front) && f.uuid == r.uuid
  {
    var frames := front + [f];
    assert frames[|front|] == f && forall i :: 0 <= i < |front| ==> front[i] == frames[i];
  }

  /** One frame keeps an exact count exact unless it is old and takes back a missed frame: a condition
      on the record before the frame. */
  lemma ExactKeptExactly(r: Rx, front: seq<Frame>, f: Frame)
    requires Follows(r, front + [f]) && Exact(r, front)
    ensures Exact(r, front + [f]) <==> !(Old(r.last, front, f) && ReceiveAll(r, front).missed > 0)
  {
    ReceiveOneMore(r, front, f);
    FollowsFront(r, front, f);
    HighestHeard(r, front);
    var t := ReceiveAll(r, front);
    if f.sequence > t.last {
      NeverHeardAbove(r.last, t.last, front, f);
    } else {
      NeverHeardBelow(r.last, t.last, front, f);
      if !Old(r.last, front, f) {
        assert f.sequence in NeverHeard(r.last, t.last, front);
      }
    }
  }

  // ---------- frames of several emulators ----------

  /** The k-th frame comes from another emulator than the one before it. */
  predicate Switches(r: Rx, frames: seq<Frame>, k: nat)
    requires k < |frames|
  {
    frames[k].uuid != if k == 0 then r.uuid else frames[k - 1].uuid
  }

  ghost predicate LastSwitch(r: Rx, frames: seq<Frame>, k: nat) {
    k < |frames| && Switches(r, frames, k) && forall i :: k < i < |frames| ==> !Switches(r, frames, i)
  }

  lemma {:induction false} FollowsLast(r: Rx, frames: seq<Frame>)
    ensures ReceiveAll(r, frames).uuid == if frames == [] then r.uuid else frames[|frames| - 1].uuid
  {
    if frames != [] {
      FollowsLast(r, frames[..|frames| - 1]);
    }
  }

  /** The record at a change of emulator: it starts from the number of the new frame, and keeps the
      missed count. */
  lemma SwitchedRecord(r: Rx, frames: seq<Frame>, k: nat)
    requires k < |frames| && Switches(r, frames, k)
    ensures ReceiveAll(r, frames[..k + 1])
         == Rx(frames[k].uuid, frames[k].sequence, ReceiveAll(r, frames[..k]).missed, r.frames + k + 1)
  {
    assert frames[..k + 1] == frames[..k] + [frames[k]];
    ReceiveOneMore(r, frames[..k], frames[k]);
    FollowsLast(r, frames[..k]);
    FrameCount(r, frames[..k]);
  }

  lemma {:induction false} FrameCount(r: Rx, frames: seq<Frame>)
    ensures ReceiveAll(r, frames).frames == r.frames + |frames|
  {
    if frames != [] {
      FrameCount(r, frames[..|frames| - 1]);
    }
  }

  lemma {:induction false} ReceiveSplit(r: Rx, first: seq<Frame>, second: seq<Frame>)
    ensures ReceiveAll(r, first + second) == ReceiveAll(ReceiveAll(r, first), second)
  {
    if second == [] {
      assert first + second == first;
    } else {
      var front, f := second[..|second| - 1], second[|second| - 1];
      ReceiveSplit(r, first, front);
      ReceiveOneMore(r, first + front, f);
      assert second == front + [f] && first + second == (first + front) + [f];
    }
  }

  lemma {:induction false} SameSince(r: Rx, frames: seq<Frame>, k: nat, i: nat)
    requires LastSwitch(r, frames, k) && k <= i < |frames|
    ensures frames[i].uuid == frames[k].uuid
    decreases i
  {
    if i > k {
      SameSince(r, frames, k, i - 1);
      assert !Switches(r, frames, i);
    }
  }

  /** The accounting for every run of frames of any emulators, in terms of the frames alone. Since the
      last change of emulator, at frame k: the count is based on that frame's number, and on the count
      before it. */
  lemma EveryRunCounts(r: Rx, frames: seq<Frame>, k: nat)
    requires LastSwitch(r, frames, k)
    ensures var base := Rx(frames[k].uuid, frames[k].sequence, ReceiveAll(r, frames[..k]).missed, r.frames + k + 1);
      var since, t := frames[k + 1..], ReceiveAll(r, frames);
      && t == ReceiveAll(base, since) && Follows(base, since) && t.uuid == frames[k].uuid
      && t.missed + Hidden(base, since)
         == ReceiveAll(r, frames[..k]).missed + |NeverHeard(frames[k].sequence, t.last, since)| + Refunded(base, since)
      && t.missed <= ReceiveAll(r, frames[..k]).missed + |NeverHeard(frames[k].sequence, t.last, since)|
  {
    var base := Rx(frames[k].uuid, frames[k].sequence, ReceiveAll(r, frames[..k]).missed, r.frames + k + 1);
    var since := frames[k + 1..];
    SwitchedRecord(r, frames, k);
    assert frames == frames[..k + 1] + since;
    ReceiveSplit(r, frames[..k + 1], since);
    forall i | 0 <= i < |since|
      ensures since[i].uuid == base.uuid
    {
      SameSince(r, frames, k, k + 1 + i);
    }
    HighestHeard(base, since);
    MissedExactly(base, since);
    MissedCount(base, since);
  }

  /** Without a change of emulator the whole run is one emulator's. */
  lemma {:induction false} NoSwitchFollows(r: Rx, frames: seq<Frame>)
    requires forall i :: 0 <= i < |frames| ==> !Switches(r, frames, i)
    ensures Follows(r, frames)
  {
    if frames != [] {
      var n := |frames| - 1;
      var front := frames[..n];
      forall i | 0 <= i < n
        ensures !Switches(r, front, i)
      {
        assert !Switches(r, frames, i);
      }
      NoSwitchFollows(r, front);
      assert !Switches(r, frames, n);
      if n > 0 {
        assert frames[n - 1] == front[n - 1];
      }
      assert forall i :: 0 <= i < n ==> frames[i] == front[i];
    }
  }

  lemma NotHeardBefore(front: seq<Frame>, f: Frame)
    requires Distinct(front + [f])
    ensures f.sequence !in Heard(front)
  {
    forall i | 0 <= i < |front|
      ensures front[i].sequence != f.sequence
    {
      assert (front + [f])[i] == front[i] && (front + [f])[|front|] == f;
    }
  }

  lemma {:induction false} HeardSize(frames: seq<Frame>)
    requires Distinct(frames)
    ensures |Heard(frames)| == |frames|
  {
    if frames == [] {
      assert Heard([]) == {};
    } else {
      var n := |frames| - 1;
      assert frames == frames[..n] + [frames[n]];
      HeardSize(frames[..n]);
      HeardAppend(frames[..n], frames[n]);
      NotHeardBefore(frames[..n], frames[n]);
    }
  }

  /** A source heard from the start under the all-zero UUID, with distinct positive numbers in any
      order: received and missed frames add up to the highest number. */
  lemma ReceivedPlusMissed(frames: seq<Frame>)
    requires Distinct(frames) && Follows(NEW_RX, frames) && Newer(NEW_RX, frames)
    ensures var t := ReceiveAll(NEW_RX, frames);
      t.frames + t.missed == t.last && t.missed == |NeverHeard(0, t.last, frames)|
  {
    HighestHeard(NEW_RX, frames);
    MissedCount(NEW_RX, frames);
    HeardSize(frames);
    var t := ReceiveAll(NEW_RX, frames);
    assert Between(0, t.last + 1) == NeverHeard(0, t.last, frames) + Heard(frames);
    assert NeverHeard(0, t.last, frames) !! Heard(frames);
  }

  /** A repeated frame hides a missed one: number 2 was never heard, yet none is reported missed. */
  lemma RepeatHidesMissedFrame()
    ensures var frames := [Frame(NO_UUID, 1), Frame(NO_UUID, 3), Frame(NO_UUID, 3)];
      var t := ReceiveAll(NEW_RX, frames);
      t.missed == 0 && 2 in NeverHeard(0, t.last, frames)
  {
    var a, b := Frame(NO_UUID, 1), Frame(NO_UUID, 3);
    var frames := [a, b, b];
    assert [a][..0] == [] && [a, b][..1] == [a] && frames[..2] == [a, b];
    assert ReceiveAll(NEW_RX, []) == NEW_RX;
    assert ReceiveAll(NEW_RX, [a]) == Rx(NO_UUID, 1, 0, 1);
    assert ReceiveAll(NEW_RX, [a, b]) == Rx(NO_UUID, 3, 1, 2);
  }

  // ---------- running average ----------

  /** `update_running_average`. */
  function RunningAverage(avg: int, count: nat, value: int): int
    requires count > 0
  {
    if count == 1 then value else (avg * (count - 1) + value) / count
  }

  /** The average stored after these samples. */
  function Stored(samples: seq<nat>): int {
    if samples == [] then 0
    else RunningAverage(Stored(samples[..|samples| - 1]), |samples|, samples[|samples| - 1])
  }

  function Sum(samples: seq<nat>): nat {
    if samples == [] then 0 else Sum(samples[..|samples| - 1]) + samples[|samples| - 1]
  }

  /** Half of n (n - 1): what truncation can lose over n samples. */
  function Triangle(n: nat): nat {
    if n == 0 then 0 else Triangle(n - 1) + (n - 1)
  }

  lemma AtLeast(x: int, n: nat, least: int)
    requires n > 0 && least * n <= x
    ensures least <= x / n
  {
    DivBounds(x, n);
    if x / n < least {
      MulMonotone(x / n + 1, least, n);
    }
  }

  lemma AverageStep(a: int, n: nat, v: nat, sum: nat, slack: nat, least: nat)
    requires n > 0 && least <= a && least <= v && a * n <= sum <= a * n + slack
    ensures var b := RunningAverage(a, n + 1, v);
      least <= b && b * (n + 1) <= sum + v <= b * (n + 1) + slack + n
  {
    DivBounds(a * n + v, n + 1);
    MulMonotone(least, a, n);
    assert least * (n + 1) == least * n + least;
    AtLeast(a * n + v, n + 1, least);
  }

  /** After n samples the stored average a is no less than the least sample, and
      n a <= sum <= n a + n (n - 1) / 2. */
  lemma {:induction false} AverageBounds(samples: seq<nat>, least: nat)
    requires samples != [] && forall i :: 0 <= i < |samples| ==> least <= samples[i]
    ensures var n, a := |samples|, Stored(samples);
      least <= a && a * n <= Sum(samples) <= a * n + Triangle(n)
  {
    var n := |samples| - 1;
    var front, v := samples[..n], samples[n];
    if n > 0 {
      AverageBounds(front, least);
      AverageStep(Stored(front), n, v, Sum(front), Triangle(n), least);
    } else {
      assert front == [];
      assert Sum(samples) == v && Stored(samples) == v;
    }
  }

  /** One sample leaves the stored average where it is exactly when it is no less than the average
      and exceeds it by less than the number of samples. */
  lemma AverageStaysExactly(a: nat, n: nat, v: nat)
    requires n > 1
    ensures RunningAverage(a, n, v) == a <==> a <= v < a + n
  {
    var x := a * (n - 1) + v;
    assert x == a * n + (v - a);
    DivBounds(x, n);
    if a <= v < a + n {
      AtLeast(x, n, a);
      if x / n > a {
        MulMonotone(a + 1, x / n, n);
      }
    }
  }

  /** What the division discards at the last of these samples. */
  function Discarded(samples: seq<nat>): nat {
    var n := |samples|;
    if n <= 1 then 0 else (Stored(samples[..n - 1]) * (n - 1) + samples[n - 1]) % n
  }

  function Lost(samples: seq<nat>): nat {
    if samples == [] then 0 else Lost(samples[..|samples| - 1]) + Discarded(samples)
  }

  lemma DivisionLoses(a: int, n: nat, v: nat)
    requires n > 1
    ensures a * (n - 1) + v == RunningAverage(a, n, v) * n + (a * (n - 1) + v) % n
  {
    var x := a * (n - 1) + v;
    assert x == x / n * n + x % n;
  }

  /** The true sum is the stored average times the number of samples plus all that was discarded. */
  lemma {:induction false} AverageLoses(samples: seq<nat>)
    ensures Sum(samples) == Stored(samples) * |samples| + Lost(samples)
  {
    var n := |samples|;
    if n > 1 {
      AverageLoses(samples[..n - 1]);
      DivisionLoses(Stored(samples[..n - 1]), n, samples[n - 1]);
    } else if n == 1 {
      assert samples[..0] == [];
    }
  }

  /** None of the divisions so far discarded anything. */
  predicate NothingDiscarded(samples: seq<nat>) {
    samples == [] || (NothingDiscarded(samples[..|samples| - 1]) && Discarded(samples) == 0)
  }

  lemma {:induction false} NothingLost(samples: seq<nat>)
    ensures Lost(samples) == 0 <==> NothingDiscarded(samples)
  {
    if samples != [] {
      NothingLost(samples[..|samples| - 1]);
    }
  }

  /** The stored average is the true mean if and only if no division discarded anything. */
  lemma AverageExactly(samples: seq<nat>)
    ensures Sum(samples) == Stored(samples) * |samples| <==> NothingDiscarded(samples)
  {
    AverageLoses(samples);
    NothingLost(samples);
  }

  /** n samples, each one more than the one before. */
  function Staircase(first: nat, n: nat): (s: seq<nat>)
    ensures |s| == n
  {
    if n == 0 then [] else Staircase(first, n - 1) + [first + n - 1]
  }

  /** The bound is reached: on a staircase the stored average never leaves the first sample, while
      the true mean grows without limit. */
  lemma {:induction false} BoundIsTight(first: nat, n: nat)
    requires n > 0
    ensures Stored(Staircase(first, n)) == first
    ensures Sum(Staircase(first, n)) == first * n + Triangle(n)
  {
    var s := Staircase(first, n);
    var front := Staircase(first, n - 1);
    assert s[..n - 1] == front;
    if n > 1 {
      BoundIsTight(first, n - 1);
      AverageStaysExactly(first, n, first + n - 1);
      assert first * (n - 1) + first == first * n;
    } else {
      assert front == [] && Sum([]) == 0;
    }
  }

  // ---------- least and greatest sample ----------

  /** `update_min_max`, the minimum: zero also stands for "none yet". */
  function StoredMin(samples: seq<nat>): nat {
    if samples == [] then 0
    else
      var min, v := StoredMin(samples[..|samples| - 1]), samples[|samples| - 1];
      if min > v || min == 0 then v else min
  }

  /** `update_min_max`, the maximum. */
  function StoredMax(samples: seq<nat>): nat {
    if samples == [] then 0
    else
      var max, v := StoredMax(samples[..|samples| - 1]), samples[|samples| - 1];
      if max < v || max == 0 then v else max
  }

  predicate IsLeast(v: nat, samples: seq<nat>) {
    v in samples && forall i :: 0 <= i < |samples| ==> v <= samples[i]
  }

  predicate IsGreatest(v: nat, samples: seq<nat>) {
    v in samples && forall i :: 0 <= i < |samples| ==> samples[i] <= v
  }

  lemma {:induction false} MaxIsGreatest(samples: seq<nat>)
    requires samples != []
    ensures IsGreatest(StoredMax(samples), samples)
  {
    var n := |samples| - 1;
    var front := samples[..n];
    assert forall i :: 0 <= i < n ==> front[i] == samples[i];
    if n > 0 {
      MaxIsGreatest(front);
    }
  }

  lemma {:induction false} MinOfPositive(samples: seq<nat>)
    requires samples != [] && 0 !in samples
    ensures IsLeast(StoredMin(samples), samples)
  {
    var n := |samples| - 1;
    var front := samples[..n];
    assert forall i :: 0 <= i < n ==> front[i] == samples[i];
    if n > 0 {
      MinOfPositive(front);
    }
  }

  /** The stored minimum is the least sample if and only if no sample is zero or the last one is:
      the sample after a zero replaces it. */
  lemma {:induction false} MinExactly(samples: seq<nat>)
    requires samples != []
    ensures IsLeast(StoredMin(samples), samples) <==> 0 !in samples || samples[|samples| - 1] == 0
  {
    if 0 !in samples {
      MinOfPositive(samples);
    }
  }

  /** What it is then: the least of the samples since the last zero. */
  lemma {:induction false} MinSinceZero(before: seq<nat>, after: seq<nat>)
    requires after != [] && 0 !in after && (before != [] ==> before[|before| - 1] == 0)
    ensures IsLeast(StoredMin(before + after), after)
  {
    var n := |after| - 1;
    var front := after[..n];
    assert (before + after)[..|before| + n] == before + front;
    assert forall i :: 0 <= i < n ==> front[i] == after[i];
    if n > 0 {
      MinSinceZero(before, front);
    } else {
      assert before + front == before;
      MinAfterZero(before);
    }
  }

  lemma MinAfterZero(samples: seq<nat>)
    requires samples != [] ==> samples[|samples| - 1] == 0
    ensures StoredMin(samples) == 0
  {
  }

  // ---------- mean and deviation ----------

  function RealSum(samples: seq<real>): real {
    if samples == [] then 0.0 else RealSum(samples[..|samples| - 1]) + samples[|samples| - 1]
  }

  /** The product, with the sign rules the proofs below rest on. */
  function Product(x: real, y: real): (r: real)
    ensures (x > 0.0 && y > 0.0) || (x < 0.0 && y < 0.0) ==> r > 0.0
    ensures x == 0.0 || y == 0.0 ==> r == 0.0
  {
    x * y
  }

  function SquareSum(samples: seq<real>): real {
    if samples == [] then 0.0
    else SquareSum(samples[..|samples| - 1]) + Product(samples[|samples| - 1], samples[|samples| - 1])
  }

  /** The squared distances of the samples from m, added up. */
  function Deviations(samples: seq<real>, m: real): real {
    if samples == [] then 0.0
    else
      var d := samples[|samples| - 1] - m;
      Deviations(samples[..|samples| - 1], m) + Product(d, d)
  }

  lemma SquareOfDifference(x: real, m: real)
    ensures Product(x - m, x - m) == Product(x, x) - 2.0 * Product(m, x) + Product(m, m)
  {
  }

  lemma OneMoreProduct(n: nat, m: real, sum: real, x: real)
    ensures Product((n + 1) as real, m) == Product(n as real, m) + m
    ensures Product(m, sum + x) == Product(m, sum) + Product(m, x)
  {
  }

  lemma {:induction false} DeviationsExpand(samples: seq<real>, m: real)
    ensures Deviations(samples, m)
         == SquareSum(samples) - 2.0 * Product(m, RealSum(samples)) + Product(|samples| as real, Product(m, m))
  {
    if samples != [] {
      var n := |samples| - 1;
      DeviationsExpand(samples[..n], m);
      SquareOfDifference(samples[n], m);
      OneMoreProduct(n, m, RealSum(samples[..n]), samples[n]);
      OneMoreProduct(n, Product(m, m), 0.0, 0.0);
    }
  }

  lemma {:induction false} DeviationsSign(samples: seq<real>, m: real)
    ensures 0.0 <= Deviations(samples, m)
    ensures Deviations(samples, m) == 0.0 <==> forall i :: 0 <= i < |samples| ==> samples[i] == m
  {
    if samples != [] {
      var n := |samples| - 1;
      var front, d := samples[..n], samples[n] - m;
      DeviationsSign(front, m);
      assert forall i :: 0 <= i < n ==> front[i] == samples[i];
      assert Product(d, d) >= 0.0 && (Product(d, d) == 0.0 <==> d == 0.0);
    }
  }

  /** `get_avg_and_std`: the mean, and the square of the standard deviation. */
  function AverageAndVariance(sum: real, sum2: real, count: nat): (real, real) {
    if count == 0 then (0.0, 0.0)
    else
      var delta := sum2 - Product(sum, sum) / count as real;
      (sum / count as real,
       if count > 1 && delta > 0.0 then delta / (count as real - 1.0) else 0.0)
  }

  /** The difference of the sums is the squared distance from the mean. */
  lemma DeltaIsDeviation(samples: seq<real>)
    requires samples != []
    ensures var n, sum := |samples| as real, RealSum(samples);
      && Product(sum / n, n) == sum
      && SquareSum(samples) - Product(sum, sum) / n == Deviations(samples, sum / n)
  {
    var n, sum := |samples| as real, RealSum(samples);
    DeviationsExpand(samples, sum / n);
    MeanCancels(sum, n, sum / n);
  }

  lemma MeanCancels(sum: real, n: real, m: real)
    requires n > 0.0 && m == sum / n
    ensures Product(m, n) == sum
    ensures 2.0 * Product(m, sum) - Product(n, Product(m, m)) == Product(sum, sum) / n
  {
    assert sum == m * n;
    assert sum * sum / n == m * sum;
    assert n * (m * m) == m * sum;
  }

  /** From the sum and the sum of squares the report recovers the sample mean and the sample
      variance about it; the guard on the sign cuts off nothing but samples that are all equal. */
  lemma VarianceIsExact(samples: seq<real>)
    ensures var r := AverageAndVariance(RealSum(samples), SquareSum(samples), |samples|);
      && Product(r.0, |samples| as real) == RealSum(samples)
      && Product(r.1, |samples| as real - 1.0) == Deviations(samples, r.0)
      && (r.1 == 0.0 <==> forall i :: 0 <= i < |samples| ==> samples[i] == r.0)
  {
    var r := AverageAndVariance(RealSum(samples), SquareSum(samples), |samples|);
    DeviationsSign(samples, r.0);
    if samples != [] {
      DeltaIsDeviation(samples);
    }
    var d := Deviations(samples, r.0);
    if |samples| > 1 && d > 0.0 {
      QuotientCancels(d, |samples| as real - 1.0);
    } else if |samples| == 1 {
      OnlySample(samples);
    }
  }

  lemma OnlySample(samples: seq<real>)
    requires |samples| == 1
    ensures RealSum(samples) == samples[0]
  {
    assert samples[..0] == [];
  }

  lemma QuotientCancels(d: real, n: real)
    requires d > 0.0 && n > 0.0
    ensures Product(d / n, n) == d && d / n > 0.0
  {
  }
}
