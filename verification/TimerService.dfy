/** The timer service: callers schedule and cancel, one thread fires
    (rust/emane-core/src/timer_service.rs:47-215).

    The heap, the set of cancelled ids and the id counter are shared under one lock. Each stretch
    that the thread runs under the lock is one step, and so is each callback it makes without it;
    callers interleave anywhere. Times are given with the steps that read the clock. */
module TimerService {
  import opened Common

  datatype Entry = Entry(id: nat, expiry: int, schedule: int, interval: nat, frees: bool)

  datatype Ordering = Less | Equal | Greater

  function Compare(a: int, b: int): Ordering {
    if a < b then Less else if a == b then Equal else Greater
  }

  /** `Ord for TimerEntry`, reversed so that the greatest element of the heap expires first. */
  function CompareEntries(self: Entry, other: Entry): Ordering {
    var c := Compare(other.expiry, self.expiry);
    if c == Equal then Compare(other.id, self.id) else c
  }

  /** The position of a greatest element: what the heap's peek and pop refer to. */
  predicate IsPeek(timers: seq<Entry>, i: int) {
    0 <= i < |timers| && forall j :: 0 <= j < |timers| ==> CompareEntries(timers[j], timers[i]) != Greater
  }

  /** Where the timer thread is. */
  datatype Phase =
    | Deciding                                 // at the top of its loop
    | Asleep(deadline: Option<int>, woken: bool)
    | Committed(entry: Entry, now: int)        // popped the entry and dropped the lock
    | Calling(entry: Entry, now: int)          // in the callback
    | Releasing(entry: Entry)                  // about to call the free callback

  datatype Event =
    | Cancelled(id: nat)
    | Fired(id: nat, expiry: int, now: int, interval: nat)  // the entry was popped to be fired
    | Began(id: nat)                           // its callback began
    | Released(id: nat)                        // its free callback was called

  datatype State = State(
    timers: seq<Entry>, cancelled: set<nat>, nextId: nat, phase: Phase,
    retired: set<nat>,                         // ids the thread has given up
    history: seq<Event>)

  const INITIAL := State([], {}, 1, Deciding, {}, [])

  datatype Action =
    | Schedule(expiry: int, interval: nat, frees: bool, now: int)
    | Cancel(id: nat)
    | DropCancelled(top: int)
    | Fire(top: int, now: int)
    | Begin
    | Finish
    | Release
    | Sleep(top: int, now: int)
    | SleepEmpty
    | Wake

  function Remove(timers: seq<Entry>, i: int): seq<Entry>
    requires 0 <= i < |timers|
  {
    timers[..i] + timers[i + 1..]
  }

  predicate Enabled(s: State, a: Action) {
    match a
    case Schedule(_, _, _, _) => true
    case Cancel(_) => true
    case DropCancelled(i) => s.phase.Deciding? && IsPeek(s.timers, i) && s.timers[i].id in s.cancelled
    case Fire(i, now) =>
      s.phase.Deciding? && IsPeek(s.timers, i) && s.timers[i].id !in s.cancelled && s.timers[i].expiry <= now
    case Begin => s.phase.Committed?
    case Finish => s.phase.Calling?
    case Release => s.phase.Releasing?
    case Sleep(i, now) =>
      s.phase.Deciding? && IsPeek(s.timers, i) && s.timers[i].id !in s.cancelled && now < s.timers[i].expiry
    case SleepEmpty => s.phase.Deciding? && s.timers == []
    case Wake => s.phase.Asleep?
  }

  /** The condition variable is notified when the new entry would be the first to expire. */
  predicate WakesThread(timers: seq<Entry>, expiry: int) {
    forall i :: 0 <= i < |timers| && IsPeek(timers, i) ==> expiry < timers[i].expiry
  }

  function Notify(p: Phase): Phase {
    if p.Asleep? then p.(woken := true) else p
  }

  /** Give up an entry: forget its cancellation, and call its free callback if it has one. */
  function Retire(s: State, e: Entry): State {
    if e.frees then s.(cancelled := s.cancelled - {e.id}, phase := Releasing(e))
    else s.(cancelled := s.cancelled - {e.id}, phase := Deciding, retired := s.retired + {e.id})
  }

  function Next(s: State, a: Action): State
    requires Enabled(s, a)
  {
    match a
    case Schedule(expiry, interval, frees, now) =>
      s.(timers := s.timers + [Entry(s.nextId, expiry, now, interval, frees)], nextId := s.nextId + 1,
         phase := if WakesThread(s.timers, expiry) then Notify(s.phase) else s.phase)
    case Cancel(id) =>
      s.(cancelled := s.cancelled + {id}, phase := Notify(s.phase), history := s.history + [Cancelled(id)])
    case DropCancelled(i) =>
      Retire(s.(timers := Remove(s.timers, i)), s.timers[i])
    case Fire(i, now) =>
      var e := s.timers[i];
      s.(timers := Remove(s.timers, i), phase := Committed(e, now),
         history := s.history + [Fired(e.id, e.expiry, now, e.interval)])
    case Begin =>
      s.(phase := Calling(s.phase.entry, s.phase.now), history := s.history + [Began(s.phase.entry.id)])
    case Finish =>
      var e, now := s.phase.entry, s.phase.now;
      if e.interval > 0 && e.id !in s.cancelled
      then s.(timers := s.timers + [e.(schedule := now, expiry := now + e.interval)], phase := Deciding)
      else Retire(s, e)
    case Release =>
      s.(phase := Deciding, retired := s.retired + {s.phase.entry.id},
         history := s.history + [Released(s.phase.entry.id)])
    case Sleep(i, now) => s.(phase := Asleep(Some(s.timers[i].expiry), false))
    case SleepEmpty => s.(phase := Asleep(None, false))
    case Wake => s.(phase := Deciding)
  }

  ghost predicate IsRun(s: State, actions: seq<Action>, t: State)
    decreases |actions|
  {
    if actions == [] then s == t
    else Enabled(s, actions[0]) && IsRun(Next(s, actions[0]), actions[1..], t)
  }

  ghost predicate Reachable(s: State) {
    exists actions :: IsRun(INITIAL, actions, s)
  }

  // ---------- properties of histories ----------

  /** An id that was cancelled is not popped for firing afterwards. */
  ghost predicate NoFireAfterCancel(h: seq<Event>) {
    forall p, q :: 0 <= p < q < |h| && h[p].Cancelled? && h[q].Fired? ==> h[p].id != h[q].id
  }

  ghost predicate NoFireBeforeExpiry(h: seq<Event>) {
    forall p :: 0 <= p < |h| && h[p].Fired? ==> h[p].expiry <= h[p].now
  }

  /** A release is the last thing the thread does for an id, so there is at most one. */
  ghost predicate ReleaseIsLast(h: seq<Event>) {
    forall p, q :: 0 <= p < q < |h| && h[p].Released? && !h[q].Cancelled? ==> h[p].id != h[q].id
  }

  /** Between the pop of an entry and the begin of its callback only callers act. */
  predicate CommittedAt(h: seq<Event>, n: nat, id: nat)
    requires n <= |h|
  {
    n > 0 && ((h[n - 1].Fired? && h[n - 1].id == id) || (h[n - 1].Cancelled? && CommittedAt(h, n - 1, id)))
  }

  ghost predicate BeginsCommitted(h: seq<Event>) {
    forall p :: 0 <= p < |h| && h[p].Began? ==> CommittedAt(h, p, h[p].id)
  }

  /** The time of the last firing of an id among the first n events. */
  function LastFire(h: seq<Event>, n: nat, id: nat): Option<int>
    requires n <= |h|
  {
    if n == 0 then None
    else if h[n - 1].Fired? && h[n - 1].id == id then Some(h[n - 1].now)
    else LastFire(h, n - 1, id)
  }

  function LastFireOf(h: seq<Event>, id: nat): Option<int> {
    LastFire(h, |h|, id)
  }

  /** Only a periodic id fires again, and then for an expiry one interval after it last fired. */
  ghost predicate Spaced(h: seq<Event>) {
    forall q :: 0 <= q < |h| && h[q].Fired? && LastFire(h, q, h[q].id).Some? ==>
      h[q].interval > 0 && h[q].expiry == LastFire(h, q, h[q].id).value + h[q].interval
  }

  /** An id was cancelled, or fired as a one-shot. */
  ghost predicate Finished(h: seq<Event>, id: nat) {
    WasCancelled(h, id) || exists p :: 0 <= p < |h| && h[p].Fired? && h[p].id == id && h[p].interval == 0
  }

  // ---------- invariant ----------

  function InFlight(p: Phase): set<nat> {
    if p.Committed? || p.Calling? || p.Releasing? then {p.entry.id} else {}
  }

  predicate IsReleasing(p: Phase, id: nat) {
    p.Releasing? && p.entry.id == id
  }

  function QueuedIds(timers: seq<Entry>): set<nat> {
    set e | e in timers :: e.id
  }

  ghost predicate UniqueIds(timers: seq<Entry>) {
    forall i, j :: 0 <= i < j < |timers| ==> timers[i].id != timers[j].id
  }

  ghost predicate WasCancelled(h: seq<Event>, id: nat) {
    Cancelled(id) in h
  }

  /** Every issued id is in exactly one place: queued, in flight, or retired. */
  ghost predicate Accounted(s: State) {
    && UniqueIds(s.timers)
    && (forall id :: 1 <= id < s.nextId <==>
          id in QueuedIds(s.timers) || id in InFlight(s.phase) || id in s.retired)
    && (forall id :: id in QueuedIds(s.timers) ==> id !in InFlight(s.phase) && id !in s.retired)
    && (forall id :: id in InFlight(s.phase) ==> id !in s.retired)
  }

  /** A cancellation is remembered until the thread has dealt with it. */
  ghost predicate Remembers(s: State) {
    forall id :: WasCancelled(s.history, id) && id !in s.retired && !IsReleasing(s.phase, id) ==> id in s.cancelled
  }

  /** The thread, unless notified, sleeps no longer than the first expiry. */
  predicate SleepsInTime(s: State) {
    s.phase.Asleep? && !s.phase.woken ==>
      if s.phase.deadline.None? then s.timers == []
      else forall i :: 0 <= i < |s.timers| ==> s.phase.deadline.value <= s.timers[i].expiry
  }

  ghost predicate HistoryInv(s: State) {
    && NoFireAfterCancel(s.history) && NoFireBeforeExpiry(s.history) && BeginsCommitted(s.history)
    && ReleaseIsLast(s.history)
    && (forall p :: 0 <= p < |s.history| && s.history[p].Released? ==> s.history[p].id in s.retired)
    && CommitInv(s)
  }

  /** The history ends in a pop, up to cancels, exactly while the thread is between pop and call. */
  ghost predicate CommitInv(s: State) {
    forall id :: CommittedNow(s.history, id) <==> IsCommitted(s.phase, id)
  }

  predicate CommittedNow(h: seq<Event>, id: nat) {
    CommittedAt(h, |h|, id)
  }

  predicate IsCommitted(p: Phase, id: nat) {
    p.Committed? && p.entry.id == id
  }

  /** What the history says about each entry the service still has. */
  ghost predicate Periods(s: State) {
    && Spaced(s.history)
    && (forall i :: 0 <= i < |s.timers| ==> Rearmed(s.history, s.timers[i]))
    && (forall id :: s.nextId <= id ==> LastFireOf(s.history, id) == None)
    && (s.phase.Committed? || s.phase.Calling? ==> InFire(s.history, s.phase.entry, s.phase.now))
    && (s.phase.Releasing? ==> Finished(s.history, s.phase.entry.id))
    && (forall id :: id in s.cancelled ==> WasCancelled(s.history, id))
    && (forall id :: id in s.retired ==> Finished(s.history, id))
  }

  ghost predicate Rearmed(h: seq<Event>, e: Entry) {
    var last := LastFireOf(h, e.id);
    last.Some? ==> e.interval > 0 && e.expiry == last.value + e.interval && e.schedule == last.value
  }

  ghost predicate InFire(h: seq<Event>, e: Entry, now: int) {
    && LastFireOf(h, e.id) == Some(now)
    && (e.interval == 0 ==> Finished(h, e.id))
  }

  ghost predicate Inv(s: State) {
    1 <= s.nextId && Accounted(s) && Remembers(s) && SleepsInTime(s) && HistoryInv(s) && Periods(s)
  }

  // ---------- the heap ----------

  /** The greatest element in the reversed order is the least by expiry, then by id. */
  lemma PeekIsEarliest(timers: seq<Entry>, i: int)
    requires 0 <= i < |timers|
    ensures IsPeek(timers, i) <==> forall j :: 0 <= j < |timers| ==>
      timers[i].expiry < timers[j].expiry
      || (timers[i].expiry == timers[j].expiry && timers[i].id <= timers[j].id)
  {
  }

  lemma {:induction false} PeekExists(timers: seq<Entry>) returns (i: int)
    requires timers != []
    ensures IsPeek(timers, i)
  {
    if |timers| == 1 {
      i := 0;
    } else {
      var n := |timers| - 1;
      var k := PeekExists(timers[..n]);
      assert forall j :: 0 <= j < n ==> timers[..n][j] == timers[j];
      i := if CompareEntries(timers[n], timers[k]) == Greater then n else k;
    }
  }

  lemma QueuedAppend(timers: seq<Entry>, e: Entry)
    ensures QueuedIds(timers + [e]) == QueuedIds(timers) + {e.id}
    ensures UniqueIds(timers) && e.id !in QueuedIds(timers) ==> UniqueIds(timers + [e])
  {
  }

  lemma QueuedRemove(timers: seq<Entry>, i: int)
    requires 0 <= i < |timers| && UniqueIds(timers)
    ensures QueuedIds(Remove(timers, i)) == QueuedIds(timers) - {timers[i].id}
    ensures UniqueIds(Remove(timers, i)) && timers[i].id in QueuedIds(timers)
  {
  }

  // ---------- preservation ----------

  lemma CallerAccounted(s: State, a: Action)
    requires Accounted(s) && 1 <= s.nextId && (a.Schedule? || a.Cancel?)
    ensures Accounted(Next(s, a)) && 1 <= Next(s, a).nextId
  {
    if a.Schedule? {
      QueuedAppend(s.timers, Entry(s.nextId, a.expiry, a.now, a.interval, a.frees));
    }
  }

  lemma PopAccounted(s: State, a: Action)
    requires Accounted(s) && 1 <= s.nextId && (a.DropCancelled? || a.Fire?) && Enabled(s, a)
    ensures Accounted(Next(s, a)) && 1 <= Next(s, a).nextId
  {
    QueuedRemove(s.timers, a.top);
    assert QueuedIds(Next(s, a).timers) == QueuedIds(s.timers) - {s.timers[a.top].id};
  }

  lemma FinishAccounted(s: State)
    requires Accounted(s) && 1 <= s.nextId && Enabled(s, Finish)
    ensures Accounted(Next(s, Finish)) && 1 <= Next(s, Finish).nextId
  {
    var e, now := s.phase.entry, s.phase.now;
    if e.interval > 0 && e.id !in s.cancelled {
      QueuedAppend(s.timers, e.(schedule := now, expiry := now + e.interval));
      assert Next(s, Finish).timers == s.timers + [e.(schedule := now, expiry := now + e.interval)];
    }
  }

  lemma StepAccounted(s: State, a: Action)
    requires Accounted(s) && 1 <= s.nextId && Enabled(s, a)
    ensures Accounted(Next(s, a)) && 1 <= Next(s, a).nextId
  {
    match a
    case Schedule(_, _, _, _) => CallerAccounted(s, a);
    case Cancel(_) => CallerAccounted(s, a);
    case DropCancelled(_) => PopAccounted(s, a);
    case Fire(_, _) => PopAccounted(s, a);
    case Finish => FinishAccounted(s);
    case _ =>
  }

  lemma StepRemembers(s: State, a: Action)
    requires Inv(s) && Enabled(s, a)
    ensures Remembers(Next(s, a))
  {
  }

  lemma StepSleeps(s: State, a: Action)
    requires Inv(s) && Enabled(s, a)
    ensures SleepsInTime(Next(s, a))
  {
  }

  lemma {:induction false} CommittedPrefix(h: seq<Event>, e: Event, n: nat, id: nat)
    requires n <= |h|
    ensures CommittedAt(h + [e], n, id) == CommittedAt(h, n, id)
  {
    if n > 0 {
      CommittedPrefix(h, e, n - 1, id);
    }
  }

  /** What an event must satisfy to extend a good history. */
  lemma HistoryAppend(h: seq<Event>, e: Event)
    requires NoFireAfterCancel(h) && NoFireBeforeExpiry(h) && BeginsCommitted(h) && ReleaseIsLast(h)
    requires e.Fired? ==> !WasCancelled(h, e.id) && e.expiry <= e.now
    requires e.Began? ==> CommittedAt(h, |h|, e.id)
    requires !e.Cancelled? ==> Released(e.id) !in h
    ensures NoFireAfterCancel(h + [e]) && NoFireBeforeExpiry(h + [e])
    ensures BeginsCommitted(h + [e]) && ReleaseIsLast(h + [e])
  {
    forall p | 0 <= p < |h + [e]| && (h + [e])[p].Began?
      ensures CommittedAt(h + [e], p, (h + [e])[p].id)
    {
      CommittedPrefix(h, e, p, (h + [e])[p].id);
    }
    forall p | 0 <= p < |h|
      ensures h[p].Cancelled? ==> WasCancelled(h, h[p].id)
      ensures h[p].Released? ==> Released(h[p].id) in h
    {
      assert h[p] in h;
    }
  }

  lemma CommittedAppend(h: seq<Event>, e: Event)
    ensures forall id ::
      CommittedNow(h + [e], id) <==> (e.Fired? && e.id == id) || (e.Cancelled? && CommittedNow(h, id))
  {
    forall id
      ensures CommittedAt(h + [e], |h|, id) == CommittedNow(h, id)
    {
      CommittedPrefix(h, e, |h|, id);
    }
  }

  lemma StepCommit(s: State, a: Action)
    requires CommitInv(s) && Enabled(s, a)
    ensures CommitInv(Next(s, a))
  {
    match a
    case Cancel(id) => CommittedAppend(s.history, Cancelled(id));
    case Fire(i, now) =>
      CommittedAppend(s.history, Fired(s.timers[i].id, s.timers[i].expiry, now, s.timers[i].interval));
    case Begin => CommittedAppend(s.history, Began(s.phase.entry.id));
    case Release => CommittedAppend(s.history, Released(s.phase.entry.id));
    case _ =>
  }

  lemma StepHistory(s: State, a: Action)
    requires Inv(s) && Enabled(s, a)
    ensures HistoryInv(Next(s, a))
  {
    StepCommit(s, a);
    match a
    case Cancel(id) =>
      HistoryAppend(s.history, Cancelled(id));
    case Fire(i, now) =>
      QueuedRemove(s.timers, i);
      HistoryAppend(s.history, Fired(s.timers[i].id, s.timers[i].expiry, now, s.timers[i].interval));
    case Begin =>
      assert IsCommitted(s.phase, s.phase.entry.id) && CommittedNow(s.history, s.phase.entry.id);
      HistoryAppend(s.history, Began(s.phase.entry.id));
    case Release => HistoryAppend(s.history, Released(s.phase.entry.id));
    case _ =>
  }

  lemma {:induction false} LastFirePrefix(h: seq<Event>, e: Event, n: nat, id: nat)
    requires n <= |h|
    ensures LastFire(h + [e], n, id) == LastFire(h, n, id)
  {
    if n > 0 {
      LastFirePrefix(h, e, n - 1, id);
    }
  }

  lemma FinishedAppend(h: seq<Event>, e: Event, id: nat)
    requires Finished(h, id)
    ensures Finished(h + [e], id)
  {
    if !WasCancelled(h, id) {
      var p :| 0 <= p < |h| && h[p].Fired? && h[p].id == id && h[p].interval == 0;
      assert (h + [e])[p] == h[p];
    }
  }

  /** Appending an event: the last firings change only by a firing. */
  lemma PeriodsAppend(h: seq<Event>, e: Event)
    requires Spaced(h)
    requires e.Fired? && LastFireOf(h, e.id).Some? ==>
      e.interval > 0 && e.expiry == LastFireOf(h, e.id).value + e.interval
    ensures Spaced(h + [e])
    ensures forall id ::
      LastFireOf(h + [e], id) == if e.Fired? && e.id == id then Some(e.now) else LastFireOf(h, id)
    ensures forall id :: Finished(h, id) ==> Finished(h + [e], id)
    ensures forall id :: WasCancelled(h, id) ==> WasCancelled(h + [e], id)
  {
    forall n, id | 0 <= n <= |h|
      ensures LastFire(h + [e], n, id) == LastFire(h, n, id)
    {
      LastFirePrefix(h, e, n, id);
    }
    forall id | Finished(h, id)
      ensures Finished(h + [e], id)
    {
      FinishedAppend(h, e, id);
    }
  }

  lemma CallerPeriods(s: State, a: Action)
    requires Periods(s) && (a.Schedule? || a.Cancel?)
    ensures Periods(Next(s, a))
  {
    if a.Cancel? {
      PeriodsAppend(s.history, Cancelled(a.id));
      assert WasCancelled(s.history + [Cancelled(a.id)], a.id);
    }
  }

  /** A pop leaves the other entries as their own last fires re-armed them. */
  lemma OthersStayRearmed(h: seq<Event>, timers: seq<Entry>, i: int, fired: Event)
    requires 0 <= i < |timers| && UniqueIds(timers) && fired.Fired? && fired.id == timers[i].id
    requires forall j :: 0 <= j < |timers| ==> Rearmed(h, timers[j])
    requires forall id :: id != fired.id ==> LastFireOf(h + [fired], id) == LastFireOf(h, id)
    ensures var left := Remove(timers, i); forall j :: 0 <= j < |left| ==> Rearmed(h + [fired], left[j])
  {
    var left := Remove(timers, i);
    forall j | 0 <= j < |left|
      ensures Rearmed(h + [fired], left[j])
    {
      var x := timers[if j < i then j else j + 1];
      assert left[j] == x && x.id != fired.id;
    }
  }

  lemma FirePeriods(s: State, i: int, now: int)
    requires Accounted(s) && Periods(s) && Enabled(s, Fire(i, now))
    ensures Periods(Next(s, Fire(i, now)))
  {
    var e := s.timers[i];
    var fired := Fired(e.id, e.expiry, now, e.interval);
    assert Rearmed(s.history, e);
    PeriodsAppend(s.history, fired);
    QueuedRemove(s.timers, i);
    OthersStayRearmed(s.history, s.timers, i, fired);
    assert (s.history + [fired])[|s.history|] == fired;
    assert e.id in QueuedIds(s.timers);
  }

  lemma ThreadPeriods(s: State, a: Action)
    requires Periods(s) && Enabled(s, a) && !a.Schedule? && !a.Cancel? && !a.Fire?
    ensures Periods(Next(s, a))
  {
    match a
    case Begin => PeriodsAppend(s.history, Began(s.phase.entry.id));
    case Release => PeriodsAppend(s.history, Released(s.phase.entry.id));
    case _ =>
  }

  lemma {:induction false} RunInv(s: State, actions: seq<Action>, t: State)
    requires Inv(s) && IsRun(s, actions, t)
    ensures Inv(t)
    decreases |actions|
  {
    if actions != [] {
      StepAccounted(s, actions[0]);
      StepRemembers(s, actions[0]);
      StepSleeps(s, actions[0]);
      StepHistory(s, actions[0]);
      if actions[0].Fire? {
        FirePeriods(s, actions[0].top, actions[0].now);
      } else if actions[0].Schedule? || actions[0].Cancel? {
        CallerPeriods(s, actions[0]);
      } else {
        ThreadPeriods(s, actions[0]);
      }
      RunInv(Next(s, actions[0]), actions[1..], t);
    }
  }

  lemma ReachableInv(s: State)
    requires Reachable(s)
    ensures Inv(s)
  {
    var actions :| IsRun(INITIAL, actions, s);
    RunInv(INITIAL, actions, s);
  }

  // ---------- main results ----------

  /** In every interleaving: no entry is popped to be fired after its id was cancelled or before it
      expires, a callback begins only for an entry popped since the thread's last action, a release
      comes once and last, no id is queued twice, and the issued ids that are not retired are
      exactly those queued or in flight. */
  lemma TimerHistories(s: State)
    requires Reachable(s)
    ensures NoFireAfterCancel(s.history) && NoFireBeforeExpiry(s.history)
    ensures BeginsCommitted(s.history) && ReleaseIsLast(s.history)
    ensures UniqueIds(s.timers)
    ensures forall id :: 1 <= id < s.nextId && id !in s.retired <==> id in QueuedIds(s.timers) || id in InFlight(s.phase)
  {
    ReachableInv(s);
  }

  /** In every interleaving: successive firings of an id are at least its interval apart, a one-shot
      fires once, an entry that has fired is queued for one interval after that, and an id is given up
      only when it was cancelled or has fired as a one-shot. */
  lemma TimerPeriods(s: State, q: nat)
    requires Reachable(s) && q < |s.history| && s.history[q].Fired?
    ensures var f := s.history[q];
      var last := LastFire(s.history, q, f.id);
      last.Some? ==> f.interval > 0 && f.expiry == last.value + f.interval && f.now - last.value >= f.interval
    ensures forall i :: 0 <= i < |s.timers| ==> Rearmed(s.history, s.timers[i])
    ensures forall id :: id in s.retired ==> Finished(s.history, id)
  {
    ReachableInv(s);
  }

  // ---------- the thread ----------

  /** In every interleaving a thread that was not notified wakes no later than the first expiry. */
  lemma NeverLate(s: State, i: nat)
    requires Reachable(s) && i < |s.timers| && s.phase.Asleep? && !s.phase.woken
    ensures s.phase.deadline.Some? && s.phase.deadline.value <= s.timers[i].expiry
  {
    ReachableInv(s);
  }

  /** What the thread may do about entry i at the top of its loop. */
  predicate Decides(s: State, i: int, now: int) {
    Enabled(s, DropCancelled(i)) || Enabled(s, Fire(i, now)) || Enabled(s, Sleep(i, now))
  }

  /** At the top of its loop the thread is never stuck, whatever the heap, the cancelled ids and the
      clock say. */
  lemma ThreadDecides(s: State, now: int)
    requires s.phase.Deciding?
    ensures Enabled(s, SleepEmpty) || exists i :: Decides(s, i, now)
  {
    if s.timers != [] {
      var i := PeekExists(s.timers);
      assert Decides(s, i, now);
    }
  }

  /** A cancel wakes the thread, so that it drops the entry without waiting for its time; and so does
      a new entry that would be the first to expire. */
  lemma NotifiesThread(s: State, a: Action)
    requires s.phase.Asleep? && (a.Cancel? || a.Schedule?)
    requires a.Schedule? ==> forall i :: 0 <= i < |s.timers| ==> a.expiry < s.timers[i].expiry
    ensures Next(s, a).phase.Asleep? && Next(s, a).phase.woken
  {
  }

  /** It fires what is first to expire, when it is due, and sleeps only while nothing is. */
  lemma FiresWhenDue(s: State, i: int, now: int)
    requires s.phase.Deciding? && IsPeek(s.timers, i) && s.timers[i].id !in s.cancelled
    ensures Enabled(s, Fire(i, now)) <==> s.timers[i].expiry <= now
    ensures Enabled(s, Sleep(i, now)) <==> forall j :: 0 <= j < |s.timers| ==> now < s.timers[j].expiry
  {
    PeekIsEarliest(s.timers, i);
  }

  lemma {:induction false} RunExtends(s: State, actions: seq<Action>, t: State, a: Action)
    requires IsRun(s, actions, t) && Enabled(t, a)
    ensures IsRun(s, actions + [a], Next(t, a))
    decreases |actions|
  {
    if actions == [] {
      assert (actions + [a])[1..] == [];
      assert IsRun(Next(s, a), [], Next(t, a));
    } else {
      assert (actions + [a])[1..] == actions[1..] + [a];
      RunExtends(Next(s, actions[0]), actions[1..], t, a);
    }
  }

  lemma ReachableNext(s: State, a: Action)
    requires Reachable(s) && Enabled(s, a)
    ensures Reachable(Next(s, a))
  {
    var actions :| IsRun(INITIAL, actions, s);
    RunExtends(INITIAL, actions, s, a);
  }

  // ---------- cancelling ----------

  /** In this run from the cancel of the id, its callback begins after the cancel. */
  ghost predicate BeginsAfterCancel(s: State, id: nat, actions: seq<Action>, t: State, p: nat) {
    && IsRun(Next(s, Cancel(id)), actions, t)
    && |s.history| < p < |t.history| && t.history[p] == Began(id)
  }

  ghost predicate CallCanFollowCancel(s: State, id: nat) {
    exists actions, t, p :: BeginsAfterCancel(s, id, actions, t, p)
  }

  lemma {:induction false} RunKeepsHistory(s: State, actions: seq<Action>, t: State)
    requires IsRun(s, actions, t)
    ensures s.history <= t.history
    decreases |actions|
  {
    if actions != [] {
      RunKeepsHistory(Next(s, actions[0]), actions[1..], t);
    }
  }

  /** Going back from a committed point, either the pop lies in between or the point reached is
      committed too. */
  lemma {:induction false} CommittedBack(h: seq<Event>, q: nat, p: nat, id: nat)
    requires q <= p <= |h| && CommittedAt(h, p, id)
    ensures CommittedAt(h, q, id) || exists r :: q <= r < p && h[r].Fired? && h[r].id == id
  {
    if q < p && !(h[p - 1].Fired? && h[p - 1].id == id) {
      CommittedBack(h, q, p - 1, id);
    }
  }

  lemma {:induction false} CommittedPrefixOf(h: seq<Event>, g: seq<Event>, n: nat, id: nat)
    requires n <= |h| && h <= g
    ensures CommittedAt(g, n, id) == CommittedAt(h, n, id)
  {
    if n > 0 {
      CommittedPrefixOf(h, g, n - 1, id);
    }
  }

  /** In a good history, a begin behind a cancel of its id was popped before the cancel. */
  lemma BeginBehindCancel(h: seq<Event>, g: seq<Event>, id: nat, p: nat)
    requires h + [Cancelled(id)] <= g && NoFireAfterCancel(g) && BeginsCommitted(g)
    requires |h| < p < |g| && g[p] == Began(id)
    ensures CommittedNow(h, id)
  {
    var n := |h|;
    assert g[n] == Cancelled(id);
    CommittedBack(g, n, p, id);
    CommittedPrefixOf(h, g, n, id);
  }

  /** A call that follows the cancel of its id was popped before the cancel. */
  lemma LateCallWasPopped(s: State, id: nat, actions: seq<Action>, t: State, p: nat)
    requires Reachable(s) && BeginsAfterCancel(s, id, actions, t, p)
    ensures IsCommitted(s.phase, id)
  {
    ReachableInv(s);
    assert ([Cancel(id)] + actions)[1..] == actions;
    RunInv(s, [Cancel(id)] + actions, t);
    RunKeepsHistory(Next(s, Cancel(id)), actions, t);
    BeginBehindCancel(s.history, t.history, id, p);
  }

  /** A cancel comes too late exactly while the thread is between the pop of the id's entry and the
      call: from every reachable state, and for every id, some run after the cancel contains the
      begin of its callback if and only if the thread has committed to it. */
  lemma CancelTooLateExactly(s: State, id: nat)
    requires Reachable(s)
    ensures CallCanFollowCancel(s, id) <==> s.phase.Committed? && s.phase.entry.id == id
  {
    if CallCanFollowCancel(s, id) {
      var actions, t, p :| BeginsAfterCancel(s, id, actions, t, p);
      LateCallWasPopped(s, id, actions, t, p);
    }
    if s.phase.Committed? && s.phase.entry.id == id {
      var s1 := Next(s, Cancel(id));
      var t := Next(s1, Begin);
      assert IsRun(t, [], t);
      assert IsRun(s1, [Begin], t) by { assert [Begin][1..] == []; }
      assert BeginsAfterCancel(s, id, [Begin], t, |s.history| + 1);
    }
  }

  /** There are such states: timer 1, due at time 5, popped at time 7. */
  lemma PopExample()
    ensures exists s :: Reachable(s) && s.phase == Committed(Entry(1, 5, 0, 0, false), 7)
  {
    assert IsRun(INITIAL, [], INITIAL);
    ReachableNext(INITIAL, Schedule(5, 0, false, 0));
    var s1 := Next(INITIAL, Schedule(5, 0, false, 0));
    ReachableNext(s1, Fire(0, 7));
    assert Next(s1, Fire(0, 7)).phase == Committed(Entry(1, 5, 0, 0, false), 7);
  }
}
