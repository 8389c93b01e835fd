/** The queued layer: tasks pass from any number of callers to one worker thread
    (rust/emane-core/src/nem_queued_layer.rs:183-230 and 340-383).

    Every section that runs under a lock, and every system call, is one step; steps of callers,
    of start and stop, and of the worker interleave freely. A task is the number of tasks accepted
    before it, so the sequence of accepted tasks is 0, 1, 2, ... */
module TaskQueue {

  datatype Lifecycle = Created | Running | Stopped

  /** Where the worker thread is: waiting in epoll, past the read of the event counter, past the
      swap of the queue, running the tasks it took, or returned but not yet joined. */
  datatype Worker = NoThread | Waiting | Awake | Swapped | Working | Returned

  /** Who holds the thread mutex, and how far it got. */
  datatype Holder = Free | Starting | StopMarked | StopSignalled | StopJoined

  datatype Event = Ran(task: nat) | StartCalled | StopReturned

  datatype State = State(
    queue: seq<nat>, cancel: bool, lifecycle: Lifecycle, counter: nat, worker: Worker,
    holder: Holder, batch: seq<nat>,
    unsignalled: nat,                      // accepted tasks whose caller has not written the event yet
    accepted: nat, executed: seq<nat>, dropped: set<nat>, history: seq<Event>)

  const INITIAL := State([], false, Created, 0, NoThread, Free, [], 0, 0, [], {}, [])

  datatype Action =
    | Enqueue            // the locked part of enqueue
    | Signal             // its write to the event counter
    | StartBegin         // start, up to the end of its locked block
    | StartSpawn         // the spawn, and the release of the thread mutex
    | StopMark           // stop, up to the end of its locked block
    | StopSignal         // its write to the event counter
    | StopJoin           // the join
    | StopReturn         // the reset of the cancel flag, and the return
    | WorkerWake         // epoll_wait returns, and the event counter is read
    | WorkerSwap         // the queue is swapped for an empty one
    | WorkerCheck        // the cancel flag is read
    | WorkerRun          // one task of the batch is run
    | WorkerFail         // epoll_wait fails for good

  predicate Enabled(s: State, a: Action) {
    match a
    case Enqueue => true
    case Signal => s.unsignalled > 0
    case StartBegin => s.holder == Free
    case StartSpawn => s.holder == Starting
    case StopMark => s.holder == Free
    case StopSignal => s.holder == StopMarked
    case StopJoin => s.holder == StopSignalled && (s.worker == NoThread || s.worker == Returned)
    case StopReturn => s.holder == StopJoined
    case WorkerWake => s.worker == Waiting && s.counter > 0
    case WorkerSwap => s.worker == Awake
    case WorkerCheck => s.worker == Swapped
    case WorkerRun => s.worker == Working
    case WorkerFail => s.worker == Waiting
  }

  function Elements(s: seq<nat>): set<nat> {
    set x | x in s
  }

  function Next(s: State, a: Action): State
    requires Enabled(s, a)
  {
    match a
    case Enqueue =>
      if s.lifecycle != Running then s
      else s.(queue := s.queue + [s.accepted], accepted := s.accepted + 1, unsignalled := s.unsignalled + 1)
    case Signal => s.(unsignalled := s.unsignalled - 1, counter := s.counter + 1)
    case StartBegin =>
      if s.worker != NoThread then s
      else s.(cancel := false, lifecycle := Running, holder := Starting, history := s.history + [StartCalled])
    case StartSpawn => s.(worker := Waiting, holder := Free)
    case StopMark => s.(cancel := true, lifecycle := Stopped, holder := StopMarked)
    case StopSignal => s.(counter := s.counter + 1, holder := StopSignalled)
    case StopJoin => s.(worker := NoThread, holder := StopJoined)
    case StopReturn => s.(cancel := false, holder := Free, history := s.history + [StopReturned])
    case WorkerWake => s.(counter := 0, worker := Awake)
    case WorkerSwap => s.(batch := s.queue, queue := [], worker := Swapped)
    case WorkerCheck =>
      if s.cancel then s.(worker := Returned, batch := [], dropped := s.dropped + Elements(s.batch))
      else s.(worker := Working)
    case WorkerRun =>
      if s.batch == [] then s.(worker := Waiting)
      else s.(executed := s.executed + [s.batch[0]], batch := s.batch[1..],
              history := s.history + [Ran(s.batch[0])])
    case WorkerFail => s.(worker := Returned)
  }

  ghost predicate IsRun(s: State, actions: seq<Action>, t: State)
    decreases |actions|
  {
    if actions == [] then s == t
    else Enabled(s, actions[0]) && IsRun(Next(s, actions[0]), actions[1..], t)
  }

  ghost predicate Reachable(s: State) {
    exists actions :: IsRun(INITIAL, actions, s)
  }

  // ---------- properties ----------

  /** Tasks in the order they were accepted, none twice. */
  ghost predicate Increasing(tasks: seq<nat>) {
    forall i, j :: 0 <= i < j < |tasks| ==> tasks[i] < tasks[j]
  }

  /** Everything that still has a place in the pipeline, oldest first. */
  function Pipeline(s: State): seq<nat> {
    s.executed + s.batch + s.queue
  }

  /** No task was run between the return of a stop and the next start: the nearest start or stop
      before each run is a start. */
  ghost predicate QuietAfterStop(history: seq<Event>) {
    forall i :: 0 <= i < |history| && history[i].Ran? ==> ActiveBefore(history, i)
  }

  predicate ActiveBefore(history: seq<Event>, i: nat)
    requires i <= |history|
  {
    i > 0 && (history[i - 1].StartCalled? || (history[i - 1].Ran? && ActiveBefore(history, i - 1)))
  }

  /** A wake-up for the queued tasks is on its way. */
  predicate WakePending(s: State) {
    s.counter > 0 || s.unsignalled > 0 || s.worker == Awake
  }

  /** Every accepted task is in the pipeline, in order and once, or was dropped. */
  ghost predicate Ordered(s: State) {
    && Increasing(Pipeline(s))
    && (forall t :: t in Pipeline(s) ==> t < s.accepted && t !in s.dropped)
    && (forall t :: t in s.dropped ==> t < s.accepted)
    && (forall t :: 0 <= t < s.accepted ==> t in s.dropped || t in Pipeline(s))
  }

  predicate Stopping(h: Holder) {
    h == StopMarked || h == StopSignalled || h == StopJoined
  }

  predicate Control(s: State) {
    && (s.queue != [] ==> WakePending(s))
    && (s.batch != [] ==> s.worker == Swapped || s.worker == Working)
    && (s.worker != NoThread ==> s.holder != Starting && s.holder != StopJoined)
    && (s.worker != NoThread || s.holder == Starting ==> ActiveBefore(s.history, |s.history|))
    && (Stopping(s.holder) <==> s.cancel) && (s.cancel ==> s.lifecycle == Stopped)
    && (s.holder == StopSignalled && (s.worker == Waiting || s.worker == Working) ==> s.counter > 0)
  }

  ghost predicate Inv(s: State) {
    Ordered(s) && Control(s) && QuietAfterStop(s.history)
  }

  // ---------- preservation ----------

  lemma SamePipeline(s: State, t: State)
    requires Ordered(s) && Pipeline(t) == Pipeline(s) && t.accepted == s.accepted && t.dropped == s.dropped
    ensures Ordered(t)
  {
  }

  lemma IncreasingAppend(p: seq<nat>, x: nat)
    requires Increasing(p) && forall t :: t in p ==> t < x
    ensures Increasing(p + [x])
  {
    forall i | 0 <= i < |p|
      ensures p[i] < x
    {
      assert p[i] in p;
    }
  }

  lemma EnqueueOrdered(s: State)
    requires Ordered(s)
    ensures Ordered(Next(s, Enqueue))
  {
    if s.lifecycle == Running {
      var t := Next(s, Enqueue);
      IncreasingAppend(Pipeline(s), s.accepted);
      assert Pipeline(t) == Pipeline(s) + [s.accepted];
    }
  }

  lemma DropMiddle(a: seq<nat>, b: seq<nat>, c: seq<nat>)
    requires Increasing(a + b + c)
    ensures Increasing(a + c)
    ensures forall x :: x in a + c ==> x !in b && x in a + b + c
    ensures forall x :: x in a + b + c ==> x in b || x in a + c
  {
    var p, q := a + b + c, a + c;
    assert forall i :: 0 <= i < |q| ==> q[i] == p[if i < |a| then i else i + |b|];
    assert forall k :: 0 <= k < |b| ==> p[|a| + k] == b[k];
  }

  lemma DropOrdered(s: State)
    requires Ordered(s) && s.worker == Swapped && s.cancel
    ensures Ordered(Next(s, WorkerCheck))
  {
    DropMiddle(s.executed, s.batch, s.queue);
    var t := Next(s, WorkerCheck);
    assert Pipeline(t) == s.executed + s.queue;
    assert forall x :: x in t.dropped <==> x in s.dropped || x in s.batch;
    assert forall x :: x in s.batch ==> x in Pipeline(s);
  }

  lemma StepOrdered(s: State, a: Action)
    requires Ordered(s) && Control(s) && Enabled(s, a)
    ensures Ordered(Next(s, a))
  {
    var t := Next(s, a);
    if a.Enqueue? {
      EnqueueOrdered(s);
    } else if a.WorkerCheck? && s.cancel {
      DropOrdered(s);
    } else {
      if a.WorkerSwap? {
        assert s.executed + [] + s.queue == s.executed + s.queue + [];
      } else if a.WorkerRun? && s.batch != [] {
        assert s.executed + s.batch == (s.executed + [s.batch[0]]) + s.batch[1..];
      }
      SamePipeline(s, t);
    }
  }

  lemma {:induction false} ActivePrefix(history: seq<Event>, e: Event, i: nat)
    requires i <= |history|
    ensures ActiveBefore(history + [e], i) == ActiveBefore(history, i)
  {
    if i > 0 {
      ActivePrefix(history, e, i - 1);
    }
  }

  lemma HistoryAppend(history: seq<Event>, e: Event)
    requires QuietAfterStop(history) && (e.Ran? ==> ActiveBefore(history, |history|))
    ensures QuietAfterStop(history + [e])
    ensures ActiveBefore(history + [e], |history| + 1) <==>
      e.StartCalled? || (e.Ran? && ActiveBefore(history, |history|))
  {
    forall i | 0 <= i < |history + [e]| && (history + [e])[i].Ran?
      ensures ActiveBefore(history + [e], i)
    {
      ActivePrefix(history, e, i);
    }
    ActivePrefix(history, e, |history|);
  }

  lemma StepControl(s: State, a: Action)
    requires Control(s) && QuietAfterStop(s.history) && Enabled(s, a)
    ensures Control(Next(s, a)) && QuietAfterStop(Next(s, a).history)
  {
    match a
    case StartBegin => HistoryAppend(s.history, StartCalled);
    case StopReturn => HistoryAppend(s.history, StopReturned);
    case WorkerRun =>
      if s.batch != [] {
        HistoryAppend(s.history, Ran(s.batch[0]));
      }
    case _ =>
  }

  lemma {:induction false} RunInv(s: State, actions: seq<Action>, t: State)
    requires Inv(s) && IsRun(s, actions, t)
    ensures Inv(t)
    decreases |actions|
  {
    if actions != [] {
      StepOrdered(s, actions[0]);
      StepControl(s, actions[0]);
      RunInv(Next(s, actions[0]), actions[1..], t);
    }
  }

  lemma ReachableInv(s: State)
    requires Reachable(s)
    ensures Inv(s)
  {
    var actions :| IsRun(INITIAL, actions, s);
    RunInv(INITIAL, actions, s);
  }

  // ---------- main results ----------

  /** In every interleaving: the executed tasks are accepted tasks in order, each at most once;
      every accepted task is executed, waiting, or dropped by a stop, and only one of these; and
      no task runs between the return of a stop and the next start. */
  lemma QueueHistories(s: State)
    requires Reachable(s)
    ensures Increasing(s.executed) && forall t :: t in s.executed ==> t < s.accepted
    ensures forall t :: 0 <= t < s.accepted ==>
      (t in s.dropped <==> t !in s.executed && t !in s.batch && t !in s.queue)
    ensures QuietAfterStop(s.history)
  {
    ReachableInv(s);
    assert forall i :: 0 <= i < |s.executed| ==> Pipeline(s)[i] == s.executed[i];
    assert forall t :: t in Pipeline(s) <==> t in s.executed || t in s.batch || t in s.queue;
  }

  /** In every interleaving no wake-up is lost: a queued task has one pending, about to be written,
      or read by a worker that is about to take the queue. */
  lemma NoLostWakeup(s: State)
    requires Reachable(s) && s.queue != []
    ensures s.counter > 0 || s.unsignalled > 0 || s.worker == Awake
  {
    ReachableInv(s);
  }

  /** A task is dropped only while a stop is under way. */
  lemma DroppedOnlyByStop(s: State, a: Action)
    requires Reachable(s) && Enabled(s, a) && Next(s, a).dropped != s.dropped
    ensures s.holder == StopMarked || s.holder == StopSignalled
  {
    ReachableInv(s);
  }

  // ---------- stopping ----------

  predicate WorkerStep(a: Action) {
    a.WorkerWake? || a.WorkerSwap? || a.WorkerCheck? || a.WorkerRun? || a.WorkerFail?
  }

  /** The worker steps left before a stop can join. */
  function StepsToJoin(s: State): nat {
    match s.worker
    case NoThread => 0
    case Returned => 0
    case Swapped => 1
    case Awake => 2
    case Waiting => 3
    case Working => 4 + |s.batch|
  }

  /** A stop that has signalled the worker returns: until the join can proceed the worker has a
      step to take, each such step brings the join closer, and no step of a caller sets it back. */
  lemma StopTerminates(s: State, a: Action)
    requires Reachable(s) && s.holder == StopSignalled && !Enabled(s, StopJoin)
    ensures exists w :: WorkerStep(w) && Enabled(s, w)
    ensures Enabled(s, a) ==> Next(s, a).holder == StopSignalled
    ensures Enabled(s, a) && WorkerStep(a) ==> StepsToJoin(Next(s, a)) < StepsToJoin(s)
    ensures Enabled(s, a) && !WorkerStep(a) ==> StepsToJoin(Next(s, a)) == StepsToJoin(s)
  {
    ReachableInv(s);
    var w := match s.worker
             case Waiting => WorkerWake
             case Awake => WorkerSwap
             case Swapped => WorkerCheck
             case _ => WorkerRun;
    assert WorkerStep(w) && Enabled(s, w);
  }
}
