/** What callers of the timer service asked for, and what they get. */
module TimerCalls {
  import opened Common
  import opened TimerService

  /** The schedule calls of a run, in order; the k-th of them returns id k. */
  function Requests(actions: seq<Action>): seq<Action> {
    if actions == [] then []
    else Asked(actions[0]) + Requests(actions[1..])
  }

  function Asked(a: Action): seq<Action> {
    if a.Schedule? then [a] else []
  }

  /** The entry is what its call asked for, up to re-arming. */
  ghost predicate AsAsked(h: seq<Event>, requests: seq<Action>, e: Entry) {
    && 1 <= e.id <= |requests|
    && var q := requests[e.id - 1];
       && q.Schedule? && e.interval == q.interval && e.frees == q.frees
       && (LastFireOf(h, e.id) == None ==> e.expiry == q.expiry && e.schedule == q.now)
  }

  /** The n-th event, if it is a firing, is one that was asked for. */
  ghost predicate FiredAsAsked(h: seq<Event>, requests: seq<Action>, n: nat)
    requires n < |h|
  {
    var f := h[n];
    f.Fired? ==>
      && 1 <= f.id <= |requests|
      && var q := requests[f.id - 1];
         && q.Schedule? && f.interval == q.interval
         && (LastFire(h, n, f.id) == None ==> f.expiry == q.expiry)
  }

  ghost predicate RetiredAsAsked(h: seq<Event>, requests: seq<Action>, id: nat) {
    && 1 <= id <= |requests| && requests[id - 1].Schedule?
    && (Released(id) in h <==> requests[id - 1].frees)
  }

  /** Every id belongs to a call; what is queued, in flight, fired or given up is as asked for. */
  ghost predicate Served(s: State, requests: seq<Action>) {
    && |requests| == s.nextId - 1
    && (forall i :: 0 <= i < |s.timers| ==> AsAsked(s.history, requests, s.timers[i]))
    && (InFlight(s.phase) != {} ==> AsAsked(s.history, requests, s.phase.entry))
    && (s.phase.Releasing? ==> s.phase.entry.frees)
    && (forall n :: 0 <= n < |s.history| ==> FiredAsAsked(s.history, requests, n))
    && (forall id :: id in s.retired ==> RetiredAsAsked(s.history, requests, id))
  }

  /** A new event leaves what holds of the earlier ones. */
  lemma ServedEvents(h: seq<Event>, requests: seq<Action>, e: Event)
    requires forall n :: 0 <= n < |h| ==> FiredAsAsked(h, requests, n)
    requires e.Fired? ==>
      && 1 <= e.id <= |requests| && requests[e.id - 1].Schedule? && e.interval == requests[e.id - 1].interval
      && (LastFireOf(h, e.id) == None ==> e.expiry == requests[e.id - 1].expiry)
    ensures forall n :: 0 <= n < |h + [e]| ==> FiredAsAsked(h + [e], requests, n)
  {
    forall n | 0 <= n < |h + [e]|
      ensures FiredAsAsked(h + [e], requests, n)
    {
      LastFirePrefix(h, e, n, (h + [e])[n].id);
      if n < |h| {
        assert FiredAsAsked(h, requests, n);
      }
    }
  }

  lemma ServedEntry(h: seq<Event>, requests: seq<Action>, e: Entry, event: Event)
    requires AsAsked(h, requests, e)
    ensures AsAsked(h + [event], requests, e)
  {
    LastFirePrefix(h, event, |h|, e.id);
  }

  lemma ServedEntries(h: seq<Event>, requests: seq<Action>, timers: seq<Entry>, event: Event)
    requires forall i :: 0 <= i < |timers| ==> AsAsked(h, requests, timers[i])
    ensures forall i :: 0 <= i < |timers| ==> AsAsked(h + [event], requests, timers[i])
  {
    forall i | 0 <= i < |timers|
      ensures AsAsked(h + [event], requests, timers[i])
    {
      ServedEntry(h, requests, timers[i], event);
    }
  }

  lemma ScheduleServed(s: State, requests: seq<Action>, a: Action)
    requires Inv(s) && Served(s, requests) && a.Schedule?
    ensures Served(Next(s, a), requests + [a])
  {
    var more := requests + [a];
    assert forall n :: 0 <= n < |s.history| && FiredAsAsked(s.history, requests, n) ==> FiredAsAsked(s.history, more, n);
    assert forall id :: RetiredAsAsked(s.history, requests, id) ==> RetiredAsAsked(s.history, more, id);
    assert LastFireOf(s.history, s.nextId) == None;
  }

  lemma FireServed(s: State, requests: seq<Action>, i: int, now: int)
    requires Inv(s) && Served(s, requests) && Enabled(s, Fire(i, now))
    ensures Served(Next(s, Fire(i, now)), requests)
  {
    var e := s.timers[i];
    var fired := Fired(e.id, e.expiry, now, e.interval);
    assert AsAsked(s.history, requests, e);
    ServedEvents(s.history, requests, fired);
    ServedEntry(s.history, requests, e, fired);
    ServedEntries(s.history, requests, s.timers, fired);
    ReleasedKept(s.history, fired);
  }

  lemma ReleasedKept(h: seq<Event>, e: Event)
    ensures forall id :: Released(id) in h + [e] <==> Released(id) in h || e == Released(id)
  {
  }

  lemma EventServed(s: State, requests: seq<Action>, a: Action)
    requires Inv(s) && Served(s, requests) && Enabled(s, a) && (a.Cancel? || a.Begin?)
    ensures Served(Next(s, a), requests)
  {
    var event := if a.Cancel? then Cancelled(a.id) else Began(s.phase.entry.id);
    ServedEvents(s.history, requests, event);
    ServedEntries(s.history, requests, s.timers, event);
    if InFlight(s.phase) != {} {
      ServedEntry(s.history, requests, s.phase.entry, event);
    }
    ReleasedKept(s.history, event);
  }

  lemma ReleaseServed(s: State, requests: seq<Action>)
    requires Inv(s) && Served(s, requests) && s.phase.Releasing?
    ensures Served(Next(s, Release), requests)
  {
    var event := Released(s.phase.entry.id);
    ServedEvents(s.history, requests, event);
    ServedEntries(s.history, requests, s.timers, event);
    ReleasedKept(s.history, event);
    assert s.phase.entry.id !in s.retired;
  }

  /** An id the thread has not given up was not released. */
  lemma NotReleased(s: State, id: nat)
    requires Inv(s) && id !in s.retired
    ensures Released(id) !in s.history
  {
  }

  /** An entry that the thread gives up, after it left the heap. */
  lemma RetireServed(s: State, requests: seq<Action>, e: Entry)
    requires Served(s.(phase := Deciding), requests) && AsAsked(s.history, requests, e)
    requires Released(e.id) !in s.history
    ensures Served(Retire(s, e), requests)
  {
  }

  lemma DropServed(s: State, requests: seq<Action>, i: int)
    requires Inv(s) && Served(s, requests) && Enabled(s, DropCancelled(i))
    ensures Served(Next(s, DropCancelled(i)), requests)
  {
    var e := s.timers[i];
    assert e.id in QueuedIds(s.timers);
    NotReleased(s, e.id);
    RetireServed(s.(timers := Remove(s.timers, i)), requests, e);
  }

  lemma FinishServed(s: State, requests: seq<Action>)
    requires Inv(s) && Served(s, requests) && Enabled(s, Finish)
    ensures Served(Next(s, Finish), requests)
  {
    var e := s.phase.entry;
    CallingFired(s);
    NotReleased(s, e.id);
    GiveUpOrRearm(s, requests);
  }

  lemma GiveUpOrRearm(s: State, requests: seq<Action>)
    requires Served(s, requests) && s.phase.Calling? && Released(s.phase.entry.id) !in s.history
    requires LastFireOf(s.history, s.phase.entry.id) != None
    ensures Served(Next(s, Finish), requests)
  {
    var e := s.phase.entry;
    if e.interval > 0 && e.id !in s.cancelled {
      RearmServed(s, requests, e.(schedule := s.phase.now, expiry := s.phase.now + e.interval));
    } else {
      RetireServed(s, requests, e);
    }
  }

  lemma CallingFired(s: State)
    requires Inv(s) && s.phase.Calling?
    ensures LastFireOf(s.history, s.phase.entry.id) == Some(s.phase.now) && s.phase.entry.id !in s.retired
  {
  }

  lemma RearmServed(s: State, requests: seq<Action>, e: Entry)
    requires Served(s, requests) && AsAsked(s.history, requests, e)
    ensures Served(s.(timers := s.timers + [e], phase := Deciding), requests)
  {
  }

  lemma StepServed(s: State, requests: seq<Action>, a: Action)
    requires Inv(s) && Served(s, requests) && Enabled(s, a)
    ensures Served(Next(s, a), requests + Asked(a))
  {
    if !a.Schedule? {
      assert requests + [] == requests;
    }
    match a
    case Schedule(_, _, _, _) => ScheduleServed(s, requests, a);
    case Fire(i, now) => FireServed(s, requests, i, now);
    case Cancel(_) => EventServed(s, requests, a);
    case Begin => EventServed(s, requests, a);
    case Release => ReleaseServed(s, requests);
    case DropCancelled(i) => DropServed(s, requests, i);
    case Finish => FinishServed(s, requests);
    case _ =>
  }

  lemma ReachableServed(s: State, requests: seq<Action>, a: Action)
    requires Reachable(s) && Served(s, requests) && Enabled(s, a)
    ensures Reachable(Next(s, a)) && Served(Next(s, a), requests + Asked(a))
  {
    ReachableInv(s);
    ReachableNext(s, a);
    StepServed(s, requests, a);
  }

  lemma RequestsFirst(requests: seq<Action>, actions: seq<Action>)
    ensures actions == [] ==> requests + Requests(actions) == requests
    ensures actions != [] ==>
      requests + Requests(actions) == (requests + Asked(actions[0])) + Requests(actions[1..])
  {
  }

  lemma {:induction false} RunServed(s: State, requests: seq<Action>, actions: seq<Action>, t: State)
    requires Reachable(s) && Served(s, requests) && IsRun(s, actions, t)
    ensures Served(t, requests + Requests(actions))
    decreases |actions|
  {
    RequestsFirst(requests, actions);
    if actions != [] {
      ReachableServed(s, requests, actions[0]);
      RunServed(Next(s, actions[0]), requests + Asked(actions[0]), actions[1..], t);
    }
  }

  /** In every interleaving, in terms of the schedule calls made, of which the k-th has id k: every
      entry queued or in flight has the interval and the free callback that were asked for, and until
      it has fired also the time; every firing is with the interval asked for, and the first of an id
      for the time asked for; a periodic timer is given up only when cancelled; and of the timers
      given up exactly those with a free callback were released. */
  lemma TimerRequests(actions: seq<Action>, s: State)
    requires IsRun(INITIAL, actions, s)
    ensures Served(s, Requests(actions))
    ensures forall id :: id in s.retired && Requests(actions)[id - 1].interval > 0 ==> WasCancelled(s.history, id)
  {
    ServedFromStart(actions, s);
    RetiredPeriodic(s, Requests(actions));
  }

  lemma ServedFromStart(actions: seq<Action>, s: State)
    requires IsRun(INITIAL, actions, s)
    ensures Reachable(s) && Served(s, Requests(actions))
  {
    var s0 := StartServed();
    RunServed(s0, [], actions, s);
    assert [] + Requests(actions) == Requests(actions);
  }

  lemma StartServed() returns (s0: State)
    ensures s0 == INITIAL && Reachable(s0) && Served(s0, [])
  {
    s0 := INITIAL;
    assert IsRun(INITIAL, [], INITIAL);
  }

  lemma RetiredPeriodic(s: State, requests: seq<Action>)
    requires Reachable(s) && Served(s, requests)
    ensures forall id :: id in s.retired && requests[id - 1].interval > 0 ==> WasCancelled(s.history, id)
  {
    ReachableInv(s);
    forall id | id in s.retired && requests[id - 1].interval > 0
      ensures WasCancelled(s.history, id)
    {
      assert RetiredAsAsked(s.history, requests, id);
      PeriodicFinished(s.history, requests, id);
    }
  }

  lemma PeriodicFinished(h: seq<Event>, requests: seq<Action>, id: nat)
    requires Finished(h, id) && forall n :: 0 <= n < |h| ==> FiredAsAsked(h, requests, n)
    requires 1 <= id <= |requests| && requests[id - 1].Schedule? && requests[id - 1].interval > 0
    ensures WasCancelled(h, id)
  {
    forall p | 0 <= p < |h| && h[p].Fired? && h[p].id == id
      ensures h[p].interval > 0
    {
      assert FiredAsAsked(h, requests, p);
    }
  }

  /** The cancellations on record are those that callers asked for. */
  lemma {:induction false} CancelsRecorded(s: State, actions: seq<Action>, t: State, id: nat)
    requires IsRun(s, actions, t)
    ensures WasCancelled(t.history, id) <==> WasCancelled(s.history, id) || Cancel(id) in actions
    decreases |actions|
  {
    if actions != [] {
      CancelsRecorded(Next(s, actions[0]), actions[1..], t, id);
      assert actions == [actions[0]] + actions[1..];
    }
  }
}
