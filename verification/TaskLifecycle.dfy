/** When the queued layer accepts a task, and that it runs the tasks it holds. */
module TaskLifecycle {
  import opened TaskQueue

  /** The nearest start or stop, by its locked block, is a start. */
  function LastIsStart(actions: seq<Action>, before: bool): bool {
    if actions == [] then before
    else if actions[0].StartBegin? then LastIsStart(actions[1..], true)
    else LastIsStart(actions[1..], before && !actions[0].StopMark?)
  }

  /** A worker that no stop is after belongs to a running layer. */
  predicate Lively(s: State) {
    && (s.worker != NoThread && !Stopping(s.holder) ==> s.lifecycle == Running)
    && (s.holder == Starting ==> s.lifecycle == Running)
    && (s.lifecycle == Running && s.holder != Starting ==> s.worker != NoThread)
  }

  lemma {:induction false} RunLifecycle(s: State, actions: seq<Action>, t: State)
    requires Inv(s) && Lively(s) && IsRun(s, actions, t)
    ensures Inv(t) && Lively(t) && (t.lifecycle == Running <==> LastIsStart(actions, s.lifecycle == Running))
    decreases |actions|
  {
    if actions != [] {
      StepOrdered(s, actions[0]);
      StepControl(s, actions[0]);
      RunLifecycle(Next(s, actions[0]), actions[1..], t);
    }
  }

  /** In every interleaving: a task is accepted, as the last of the queue and with its caller about to
      signal the worker, if and only if the nearest start or stop was a start; otherwise it is refused
      without a trace. Every signal reaches the event counter, and a started layer has a worker. */
  lemma AcceptedExactly(actions: seq<Action>, s: State)
    requires IsRun(INITIAL, actions, s)
    ensures LastIsStart(actions, false) ==>
      var t := Next(s, Enqueue);
      && t.accepted == s.accepted + 1 && t.queue == s.queue + [s.accepted]
      && t.unsignalled == s.unsignalled + 1
      && t.executed == s.executed && t.batch == s.batch && t.dropped == s.dropped
    ensures !LastIsStart(actions, false) ==> Next(s, Enqueue) == s
    ensures s.unsignalled > 0 ==> Enabled(s, Signal) && Next(s, Signal).counter > 0
    ensures LastIsStart(actions, false) && s.holder != Starting ==> s.worker != NoThread
  {
    RunLifecycle(INITIAL, actions, s);
  }

  /** The worker's next step, other than a failure of its wait. */
  function WorkerNext(s: State): Action {
    match s.worker
    case Waiting => WorkerWake
    case Awake => WorkerSwap
    case Swapped => WorkerCheck
    case _ => WorkerRun
  }

  /** The worker steps left before it runs the task that has waited longest. */
  function StepsToRun(s: State): nat {
    match s.worker
    case Waiting => 4
    case Awake => 3
    case Swapped => if s.batch == [] then 6 else 2
    case _ => if s.batch == [] then 5 else 1
  }

  /** Tasks make progress: a worker that no stop is after, with a task waiting and its wake-up given,
      has a step to take, which runs the task that has waited longest or brings it closer. */
  lemma TasksProgress(s: State)
    requires Reachable(s) && s.worker != NoThread && s.worker != Returned && !s.cancel
    requires s.batch + s.queue != [] && s.unsignalled == 0
    ensures Enabled(s, WorkerNext(s))
    ensures var t := Next(s, WorkerNext(s));
      || t.executed == s.executed + [(s.batch + s.queue)[0]]
      || (t.executed == s.executed && t.batch + t.queue == s.batch + s.queue && StepsToRun(t) < StepsToRun(s))
  {
    ReachableInv(s);
    assert s.batch == [] ==> s.batch + s.queue == s.queue && s.queue + [] == s.queue;
    assert s.batch != [] ==> (s.batch + s.queue)[0] == s.batch[0];
  }
}
