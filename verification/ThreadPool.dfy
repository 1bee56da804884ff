/** The thread pool that runs the plugins of a case, as the steps of its goroutines: the
    submitter, the workers, the bounded task channel, the wait group and the cache that the
    tasks write to. A run is any interleaving of the steps. */
module ThreadPool {
  import opened Memory

  /** The size of a pool and the number of tasks submitted to it. */
  datatype Pool = Pool(workers: nat, queueSize: nat, tasks: nat)

  /** A worker receives, runs a task up to its cache lookup, executes its plugin, or has left. */
  datatype Worker = Idle | Running(task: nat) | Executing(task: nat) | Exited

  /** Where the submitter stands: starting workers and submitting, waiting in `Shutdown`,
      back from it, or done with setting the key of the pipeline. */
  datatype Phase = Filling | Waiting | Returned | Done

  /** The cache keys of a task. */
  datatype Key = ResultKey(task: nat) | ErrorKey(task: nat)

  /** `started`, `finished` and `lost` record the history: the tasks in the order workers took
      them, those that returned, and those whose write to the cache failed. */
  datatype State = State(workers: seq<Worker>, waitCount: int, queue: seq<nat>, closed: bool, phase: Phase, sent: nat,
                         keys: set<Key>, started: seq<nat>, finished: seq<nat>, lost: set<nat>)

  datatype Action =
    | Spawn | Submit | Close | Return | SetDone
    | Handoff(w: nat) | Take(w: nat) | Check(w: nat, found: bool) | Exit(w: nat)
    | Execute(w: nat, ok: bool, written: bool)
    | Foreign(key: Key)

  function Init(keys: set<Key>): State {
    State([], 0, [], false, Filling, 0, keys, [], [], {})
  }

  predicate Is(s: State, w: nat, state: Worker) {
    w < |s.workers| && s.workers[w] == state
  }

  /** When a step can happen. A send completes when the buffer has room or, with nothing
      buffered, a worker is waiting for it. A receive ends the worker's loop only when the
      channel is closed and drained. A hit in the cache is real; a failed lookup is a miss. */
  predicate Enabled(p: Pool, s: State, a: Action) {
    match a
    case Spawn => s.phase == Filling && |s.workers| < p.workers
    case Submit => CanSend(p, s) && |s.queue| < p.queueSize
    case Handoff(w) => CanSend(p, s) && s.queue == [] && Is(s, w, Idle)
    case Close => s.phase == Filling && |s.workers| == p.workers && s.sent == p.tasks
    case Return => s.phase == Waiting && s.waitCount == 0
    case SetDone => s.phase == Returned
    case Take(w) => Is(s, w, Idle) && s.queue != []
    case Check(w, found) => w < |s.workers| && s.workers[w].Running?
        && (found ==> ResultKey(s.workers[w].task) in s.keys)
    case Execute(w, _, _) => w < |s.workers| && s.workers[w].Executing?
    case Exit(w) => Is(s, w, Idle) && s.closed && s.queue == []
    case Foreign(_) => true
  }

  predicate CanSend(p: Pool, s: State) {
    s.phase == Filling && |s.workers| == p.workers && s.sent < p.tasks && !s.closed
  }

  /** The state after a step. */
  function Apply(p: Pool, s: State, a: Action): State
    requires Enabled(p, s, a)
  {
    match a
    case Spawn => s.(workers := s.workers + [Idle], waitCount := s.waitCount + 1)
    case Submit => s.(queue := s.queue + [s.sent], sent := s.sent + 1)
    case Handoff(w) =>
      s.(workers := s.workers[w := Running(s.sent)], started := s.started + [s.sent], sent := s.sent + 1)
    case Close => s.(closed := true, phase := Waiting)
    case Return => s.(phase := Returned)
    case SetDone => s.(phase := Done)
    case Take(w) =>
      s.(workers := s.workers[w := Running(s.queue[0])], started := s.started + [s.queue[0]], queue := s.queue[1..])
    case Check(w, found) =>
      var t := s.workers[w].task;
      if found then s.(workers := s.workers[w := Idle], finished := s.finished + [t])
      else s.(workers := s.workers[w := Executing(t)])
    case Execute(w, ok, written) =>
      var t := s.workers[w].task;
      var after := s.(workers := s.workers[w := Idle], finished := s.finished + [t]);
      if written then after.(keys := s.keys + {if ok then ResultKey(t) else ErrorKey(t)})
          else after.(lost := s.lost + {t})
    case Exit(w) => s.(workers := s.workers[w := Exited], waitCount := s.waitCount - 1)
    case Foreign(key) => s.(keys := s.keys + {key})
  }

  /** The state after a run of steps, if each of them can happen in turn. */
  function After(p: Pool, keys: set<Key>, run: seq<Action>): (s: seq<State>)
    ensures |s| <= 1
  {
    if run == [] then [Init(keys)]
    else
      var before := After(p, keys, run[..|run| - 1]);
      if before != [] && Enabled(p, before[0], run[|run| - 1]) then [Apply(p, before[0], run[|run| - 1])] else []
  }

  /** Some run reaches `s`. */
  ghost predicate Reachable(p: Pool, keys: set<Key>, s: State) {
    exists run :: After(p, keys, run) == [s]
  }

  lemma {:induction false} ReachableStep(p: Pool, keys: set<Key>, s: State, a: Action)
    requires Reachable(p, keys, s) && Enabled(p, s, a)
    ensures Reachable(p, keys, Apply(p, s, a))
  {
    var run :| After(p, keys, run) == [s];
    assert (run + [a])[..|run|] == run;
    assert After(p, keys, run + [a]) == [Apply(p, s, a)];
  }

  // ---- counting workers ----

  predicate HasTask(w: Worker, t: nat) {
    (w.Running? || w.Executing?) && w.task == t
  }

  /** How many workers have task `t` in hand. */
  function Held(ws: seq<Worker>, t: nat): nat {
    if ws == [] then 0 else Held(ws[..|ws| - 1], t) + if HasTask(ws[|ws| - 1], t) then 1 else 0
  }

  function Alive(ws: seq<Worker>): nat {
    if ws == [] then 0 else Alive(ws[..|ws| - 1]) + if ws[|ws| - 1].Exited? then 0 else 1
  }

  function Weight(w: Worker): nat {
    match w
    case Idle => 1
    case Running(_) => 3
    case Executing(_) => 2
    case Exited => 0
  }

  function Weights(ws: seq<Worker>): nat {
    if ws == [] then 0 else Weights(ws[..|ws| - 1]) + Weight(ws[|ws| - 1])
  }

  lemma {:induction false} Appended(ws: seq<Worker>, w: Worker, t: nat)
    ensures Held(ws + [w], t) == Held(ws, t) + (if HasTask(w, t) then 1 else 0)
    ensures Alive(ws + [w]) == Alive(ws) + (if w.Exited? then 0 else 1)
    ensures Weights(ws + [w]) == Weights(ws) + Weight(w)
  {
    assert (ws + [w])[..|ws|] == ws;
  }

  lemma {:induction false} UpdatedHeld(ws: seq<Worker>, i: nat, w: Worker, t: nat)
    requires i < |ws|
    ensures Held(ws[i := w], t) == Held(ws, t) - (if HasTask(ws[i], t) then 1 else 0) + (if HasTask(w, t) then 1 else 0)
    decreases |ws|
  {
    var n := |ws| - 1;
    if i == n {
      assert ws[i := w][..n] == ws[..n];
    } else {
      assert ws[i := w][..n] == ws[..n][i := w];
      UpdatedHeld(ws[..n], i, w, t);
    }
  }

  lemma {:induction false} UpdatedAlive(ws: seq<Worker>, i: nat, w: Worker)
    requires i < |ws|
    ensures Alive(ws[i := w]) == Alive(ws) - (if ws[i].Exited? then 0 else 1) + (if w.Exited? then 0 else 1)
    decreases |ws|
  {
    var n := |ws| - 1;
    if i == n {
      assert ws[i := w][..n] == ws[..n];
    } else {
      assert ws[i := w][..n] == ws[..n][i := w];
      UpdatedAlive(ws[..n], i, w);
    }
  }

  lemma {:induction false} UpdatedWeights(ws: seq<Worker>, i: nat, w: Worker)
    requires i < |ws|
    ensures Weights(ws[i := w]) == Weights(ws) - Weight(ws[i]) + Weight(w)
    decreases |ws|
  {
    var n := |ws| - 1;
    if i == n {
      assert ws[i := w][..n] == ws[..n];
    } else {
      assert ws[i := w][..n] == ws[..n][i := w];
      UpdatedWeights(ws[..n], i, w);
    }
  }

  lemma {:induction false} NoneAlive(ws: seq<Worker>)
    requires Alive(ws) == 0
    ensures forall i :: 0 <= i < |ws| ==> ws[i] == Exited
    ensures forall t :: Held(ws, t) == 0
  {
    if ws != [] { NoneAlive(ws[..|ws| - 1]); }
  }

  // ---- what every step keeps ----

  /** The first `n` tasks in the order of submission. */
  function Ids(n: nat): (ids: seq<nat>)
    ensures |ids| == n && forall i :: 0 <= i < n ==> ids[i] == i
  {
    seq(n, i => i)
  }

  predicate HasKey(s: State, t: nat) {
    ResultKey(t) in s.keys || ErrorKey(t) in s.keys
  }

  ghost predicate Inv(p: Pool, s: State) {
    Protocol(p, s) && Conserved(s) && Answered(s)
  }

  /** The wait group counts the workers that have not left; workers leave only once the
      channel is closed and drained, and `Shutdown` returns only when all have left. */
  ghost predicate Protocol(p: Pool, s: State) {
    && |s.workers| <= p.workers && s.sent <= p.tasks && |s.queue| <= p.queueSize
    && (s.closed <==> s.phase != Filling)
    && (s.sent > 0 || s.closed ==> |s.workers| == p.workers)
    && (s.closed ==> s.sent == p.tasks)
    && s.waitCount == Alive(s.workers)
    && (s.phase in {Returned, Done} ==> s.waitCount == 0)
    && (forall w :: 0 <= w < |s.workers| && s.workers[w].Exited? ==> s.closed && s.queue == [])
  }

  /** First in, first out: no task is skipped, repeated or made up, and a started one is in
      the hands of a worker or finished. */
  ghost predicate Conserved(s: State) {
    && Ordered(s)
    && (forall t: nat :: Balanced(s, t))
    && (s.started != [] ==> s.workers != [])
  }

  ghost predicate Balanced(s: State, t: nat) {
    multiset(s.started)[t] == Held(s.workers, t) + multiset(s.finished)[t]
  }

  ghost predicate Ordered(s: State) {
    s.started + s.queue == Ids(s.sent)
  }

  /** A finished task has a key in the cache, unless its write failed. */
  ghost predicate Answered(s: State) {
    forall t :: t in s.finished ==> HasKey(s, t) || t in s.lost
  }

  lemma {:induction false} StepKeepsProtocol(p: Pool, s: State, a: Action)
    requires Protocol(p, s) && Enabled(p, s, a)
    ensures Protocol(p, Apply(p, s, a))
  {
    if a.Spawn? {
      Appended(s.workers, Idle, 0);
    } else if OfWorker(a) {
      StepOfWorker(p, s, a);
      UpdatedAlive(s.workers, a.w, WorkerAfter(s, a, a.w));
    }
  }

  lemma {:induction false} StepKeepsOrder(p: Pool, s: State, a: Action)
    requires Ordered(s) && Enabled(p, s, a)
    ensures Ordered(Apply(p, s, a))
  {
    match a
    case Submit => assert s.started + (s.queue + [s.sent]) == Ids(s.sent) + [s.sent] == Ids(s.sent + 1);
    case Handoff(w) =>
      assert s.started + s.queue == s.started;
      assert s.started + [s.sent] + s.queue == Ids(s.sent) + [s.sent] == Ids(s.sent + 1);
    case Take(w) => assert s.started + [s.queue[0]] + s.queue[1..] == s.started + s.queue;
    case _ =>
  }

  /** How the worker of a step stands after it. */
  function WorkerAfter(s: State, a: Action, w: nat): Worker
    requires w < |s.workers|
    requires a.Take? ==> s.queue != []
    requires a.Check? ==> s.workers[w].Running?
  {
    match a
    case Handoff(_) => Running(s.sent)
    case Take(_) => Running(s.queue[0])
    case Check(_, found) => if found then Idle else Executing(s.workers[w].task)
    case Execute(_, _, _) => Idle
    case Exit(_) => Exited
    case _ => s.workers[w]
  }

  predicate OfWorker(a: Action) {
    a.Handoff? || a.Take? || a.Check? || a.Execute? || a.Exit?
  }

  lemma {:induction false} StepOfWorker(p: Pool, s: State, a: Action)
    requires Enabled(p, s, a) && OfWorker(a)
    ensures a.w < |s.workers| && Apply(p, s, a).workers == s.workers[a.w := WorkerAfter(s, a, a.w)]
  {
  }

  lemma {:induction false} StepKeepsCount(p: Pool, s: State, a: Action, t: nat)
    requires Enabled(p, s, a) && Balanced(s, t)
    ensures Balanced(Apply(p, s, a), t)
  {
    if a.Spawn? {
      Appended(s.workers, Idle, t);
    } else if OfWorker(a) {
      StepOfWorker(p, s, a);
      UpdatedHeld(s.workers, a.w, WorkerAfter(s, a, a.w), t);
      StepHistory(p, s, a, t);
      TaskMoves(p, s, a, t);
    }
  }

  /** A step moves a task from the queue to its worker, or from the worker to the finished. */
  lemma {:induction false} TaskMoves(p: Pool, s: State, a: Action, t: nat)
    requires Enabled(p, s, a) && OfWorker(a)
    ensures (if HasTask(WorkerAfter(s, a, a.w), t) then 1 else 0) + multiset(Finishes(s, a))[t]
            == (if HasTask(s.workers[a.w], t) then 1 else 0) + multiset(Starts(s, a))[t]
  {
  }

  /** What a step starts and finishes. */
  function Starts(s: State, a: Action): seq<nat>
    requires a.Take? ==> s.queue != []
  {
    if a.Handoff? then [s.sent] else if a.Take? then [s.queue[0]] else []
  }

  function Finishes(s: State, a: Action): seq<nat>
    requires a.Check? || a.Execute? ==> a.w < |s.workers| && (s.workers[a.w].Running? || s.workers[a.w].Executing?)
  {
    if a.Execute? || (a.Check? && a.found) then [s.workers[a.w].task] else []
  }

  lemma {:induction false} StepHistory(p: Pool, s: State, a: Action, t: nat)
    requires Enabled(p, s, a) && OfWorker(a)
    ensures multiset(Apply(p, s, a).started)[t] == multiset(s.started)[t] + multiset(Starts(s, a))[t]
    ensures multiset(Apply(p, s, a).finished)[t] == multiset(s.finished)[t] + multiset(Finishes(s, a))[t]
  {
    assert Apply(p, s, a).started == s.started + Starts(s, a);
    assert Apply(p, s, a).finished == s.finished + Finishes(s, a);
  }

  lemma {:induction false} StepConserves(p: Pool, s: State, a: Action)
    requires Conserved(s) && Enabled(p, s, a)
    ensures Conserved(Apply(p, s, a))
  {
    StepKeepsOrder(p, s, a);
    forall t: nat ensures Balanced(Apply(p, s, a), t) {
      assert Balanced(s, t);
      StepKeepsCount(p, s, a, t);
    }
  }

  lemma {:induction false} StepKeepsAnswers(p: Pool, s: State, a: Action)
    requires Answered(s) && Enabled(p, s, a)
    ensures Answered(Apply(p, s, a))
  {
  }

  lemma {:induction false} StepKeepsInv(p: Pool, s: State, a: Action)
    requires Inv(p, s) && Enabled(p, s, a)
    ensures Inv(p, Apply(p, s, a))
  {
    StepKeepsProtocol(p, s, a);
    StepConserves(p, s, a);
    StepKeepsAnswers(p, s, a);
  }

  lemma {:induction false} RunKeepsInv(p: Pool, keys: set<Key>, run: seq<Action>)
    ensures After(p, keys, run) != [] ==> Inv(p, After(p, keys, run)[0])
  {
    if run == [] {
      assert [] + [] == Ids(0);
    } else {
      var before := After(p, keys, run[..|run| - 1]);
      RunKeepsInv(p, keys, run[..|run| - 1]);
      if After(p, keys, run) != [] {
        StepKeepsInv(p, before[0], run[|run| - 1]);
      }
    }
  }

  lemma {:induction false} ReachableInv(p: Pool, keys: set<Key>, s: State)
    requires Reachable(p, keys, s)
    ensures Inv(p, s)
  {
    var run :| After(p, keys, run) == [s];
    RunKeepsInv(p, keys, run);
  }

  /** Every submitted task is queued, in the hands of one worker or finished, exactly once,
      and tasks start in the order of submission. */
  lemma {:induction false} TasksAreConserved(p: Pool, keys: set<Key>, s: State)
    requires Reachable(p, keys, s)
    ensures forall t: nat ::
              multiset(s.queue)[t] + Held(s.workers, t) + multiset(s.finished)[t] == if t < s.sent then 1 else 0
    ensures s.started <= Ids(s.sent)
  {
    ReachableInv(p, keys, s);
    assert multiset(s.started + s.queue) == multiset(s.started) + multiset(s.queue);
    forall t: nat
      ensures multiset(s.queue)[t] + Held(s.workers, t) + multiset(s.finished)[t] == if t < s.sent then 1 else 0
    {
      assert Balanced(s, t);
      IdsOnce(s.sent, t);
    }
  }

  lemma {:induction false} IdsOnce(n: nat, t: nat)
    ensures multiset(Ids(n))[t] == if t < n then 1 else 0
  {
    if n > 0 {
      IdsOnce(n - 1, t);
      assert Ids(n) == Ids(n - 1) + [n - 1];
    } else {
      assert Ids(0) == [];
    }
  }

  // ---- shutting down ----

  /** Every task has finished, and none twice. */
  ghost predicate AllFinished(p: Pool, s: State) {
    forall t: nat :: multiset(s.finished)[t] == if t < p.tasks then 1 else 0
  }

  ghost predicate ReturnsFinished(p: Pool, keys: set<Key>) {
    forall s :: Reachable(p, keys, s) && s.phase in {Returned, Done} ==> AllFinished(p, s)
  }

  lemma {:induction false} ReturnedWithWorkers(p: Pool, s: State)
    requires Inv(p, s) && s.phase in {Returned, Done} && (p.workers > 0 || p.tasks == 0)
    ensures AllFinished(p, s)
  {
    NoneAlive(s.workers);
    assert s.queue == [] by {
      if p.workers > 0 {
        assert s.workers[0].Exited?;
      } else {
        assert |s.started + s.queue| == 0;
      }
    }
    assert s.started + [] == s.started;
    forall t: nat ensures multiset(s.finished)[t] == if t < p.tasks then 1 else 0 {
      assert Balanced(s, t);
      IdsOnce(p.tasks, t);
    }
  }

  /** `Shutdown` returns only after every task has finished, in every run, exactly when the pool
      has a worker, or has nothing to run, or can never take all its tasks. */
  lemma {:induction false} ShutdownWaitsForAll(p: Pool, keys: set<Key>)
    ensures ReturnsFinished(p, keys) <==> p.workers > 0 || p.tasks == 0 || p.queueSize < p.tasks
  {
    if p.workers > 0 || p.tasks == 0 {
      forall s | Reachable(p, keys, s) && s.phase in {Returned, Done} ensures AllFinished(p, s) {
        ReachableInv(p, keys, s);
        ReturnedWithWorkers(p, s);
      }
    } else if p.queueSize < p.tasks {
      forall s | Reachable(p, keys, s) ensures s.phase == Filling {
        ReachableInv(p, keys, s);
        assert |s.started + s.queue| == s.sent;
      }
    } else {
      var s := SubmittedWithoutWorkers(p, keys, p.tasks);
      ReachableStep(p, keys, s, Close);
      var closed := Apply(p, s, Close);
      ReachableStep(p, keys, closed, Return);
      var returned := Apply(p, closed, Return);
      assert multiset(returned.finished)[0] == 0;
      assert !AllFinished(p, returned);
    }
  }

  lemma {:induction false} SubmittedWithoutWorkers(p: Pool, keys: set<Key>, n: nat) returns (s: State)
    requires p.workers == 0 && n <= p.tasks && n <= p.queueSize
    ensures Reachable(p, keys, s) && s.phase == Filling && s.sent == |s.queue| == n && s.workers == [] && !s.closed
    ensures s.waitCount == 0 && s.finished == []
  {
    if n == 0 {
      s := Init(keys);
      assert After(p, keys, []) == [s];
    } else {
      var t := SubmittedWithoutWorkers(p, keys, n - 1);
      ReachableStep(p, keys, t, Submit);
      s := Apply(p, t, Submit);
    }
  }

  // ---- progress ----

  /** A step of the pool itself, not of another user of the cache. */
  predicate Own(a: Action) {
    !a.Foreign?
  }

  ghost predicate CanMove(p: Pool, s: State) {
    exists a :: Own(a) && Enabled(p, s, a)
  }

  ghost predicate NeverStuck(p: Pool, keys: set<Key>) {
    forall s :: Reachable(p, keys, s) && s.phase != Done ==> CanMove(p, s)
  }

  lemma {:induction false} BusyWorkerMoves(p: Pool, s: State, w: nat)
    requires w < |s.workers| && !s.workers[w].Exited? && (s.workers[w].Idle? ==> s.queue != [] || s.closed)
    ensures CanMove(p, s)
  {
    match s.workers[w]
    case Idle =>
      if s.queue != [] { assert Enabled(p, s, Take(w)); } else { assert Enabled(p, s, Exit(w)); }
    case Running(_) => assert Enabled(p, s, Check(w, false));
    case Executing(_) => assert Enabled(p, s, Execute(w, true, true));
  }

  lemma {:induction false} SomeAlive(ws: seq<Worker>) returns (w: nat)
    requires Alive(ws) > 0
    ensures w < |ws| && !ws[w].Exited?
  {
    if ws[|ws| - 1].Exited? { w := SomeAlive(ws[..|ws| - 1]); } else { w := |ws| - 1; }
  }

  lemma {:induction false} MovesUnlessBlocked(p: Pool, s: State)
    requires Inv(p, s) && s.phase != Done && (p.workers > 0 || p.tasks <= p.queueSize)
    ensures CanMove(p, s)
  {
    if s.phase == Returned {
      assert Enabled(p, s, SetDone);
    } else if s.phase == Waiting {
      if s.waitCount == 0 {
        assert Enabled(p, s, Return);
      } else {
        var w := SomeAlive(s.workers);
        BusyWorkerMoves(p, s, w);
      }
    } else if |s.workers| < p.workers {
      assert Enabled(p, s, Spawn);
    } else if s.sent == p.tasks {
      assert Enabled(p, s, Close);
    } else if |s.queue| < p.queueSize {
      assert Enabled(p, s, Submit);
    } else {
      assert |s.started + s.queue| == s.sent;
      if s.workers[0].Idle? && s.queue == [] {
        assert Enabled(p, s, Handoff(0));
      } else {
        BusyWorkerMoves(p, s, 0);
      }
    }
  }

  /** In every state of every run before the end some step of the pool can happen, exactly
      when the pool has a worker or the queue can hold all tasks. */
  lemma {:induction false} ProgressIffWorkersOrRoom(p: Pool, keys: set<Key>)
    ensures NeverStuck(p, keys) <==> p.workers > 0 || p.tasks <= p.queueSize
  {
    if p.workers > 0 || p.tasks <= p.queueSize {
      forall s | Reachable(p, keys, s) && s.phase != Done ensures CanMove(p, s) {
        ReachableInv(p, keys, s);
        MovesUnlessBlocked(p, s);
      }
    } else {
      var s := SubmittedWithoutWorkers(p, keys, p.queueSize);
      assert !CanMove(p, s);
    }
  }

  /** How many steps the pool can still make. */
  function Measure(p: Pool, s: State): int {
    2 * (p.workers - |s.workers|) + Weights(s.workers) + 4 * (p.tasks - s.sent) + 3 * |s.queue|
    + match s.phase case Filling => 3 case Waiting => 2 case Returned => 1 case Done => 0
  }

  lemma {:induction false} StepsDecrease(p: Pool, s: State, a: Action)
    requires Inv(p, s) && Enabled(p, s, a)
    ensures 0 <= Measure(p, Apply(p, s, a)) <= Measure(p, s) - if Own(a) then 1 else 0
  {
    if a.Spawn? {
      Appended(s.workers, Idle, 0);
    } else if OfWorker(a) {
      StepOfWorker(p, s, a);
      UpdatedWeights(s.workers, a.w, WorkerAfter(s, a, a.w));
      WorkerGetsOn(p, s, a);
    }
  }

  lemma {:induction false} WorkerGetsOn(p: Pool, s: State, a: Action)
    requires Enabled(p, s, a) && OfWorker(a)
    ensures var s' := Apply(p, s, a);
            && s'.phase == s.phase && |s'.workers| == |s.workers|
            && Weight(WorkerAfter(s, a, a.w)) + 3 * |s'.queue| - 4 * s'.sent
               < Weight(s.workers[a.w]) + 3 * |s.queue| - 4 * s.sent
            && (s'.sent <= p.tasks || s.sent > p.tasks)
  {
  }

  function OwnSteps(run: seq<Action>): nat {
    if run == [] then 0 else OwnSteps(run[..|run| - 1]) + if Own(run[|run| - 1]) then 1 else 0
  }

  /** Every run makes at most `2 * workers + 4 * tasks + 3` steps of the pool: together with
      progress, a pool with a worker always comes to its end. */
  lemma {:induction false} RunsAreBounded(p: Pool, keys: set<Key>, run: seq<Action>)
    requires After(p, keys, run) != []
    ensures OwnSteps(run) + Measure(p, After(p, keys, run)[0]) <= 2 * p.workers + 4 * p.tasks + 3
    ensures OwnSteps(run) <= 2 * p.workers + 4 * p.tasks + 3
  {
    RunKeepsInv(p, keys, run);
    if run != [] {
      var before := After(p, keys, run[..|run| - 1]);
      RunKeepsInv(p, keys, run[..|run| - 1]);
      RunsAreBounded(p, keys, run[..|run| - 1]);
      StepsDecrease(p, before[0], run[|run| - 1]);
    }
  }

  // ---- what the key of the pipeline says ----

  predicate AllWritesSucceed(run: seq<Action>) {
    forall i :: 0 <= i < |run| && run[i].Execute? ==> run[i].written
  }

  lemma {:induction false} StepLoses(p: Pool, s: State, a: Action)
    requires Enabled(p, s, a) && (a.Execute? ==> a.written)
    ensures Apply(p, s, a).lost == s.lost
  {
  }

  lemma {:induction false} NothingLost(p: Pool, keys: set<Key>, run: seq<Action>)
    requires After(p, keys, run) != [] && AllWritesSucceed(run)
    ensures After(p, keys, run)[0].lost == {}
  {
    if run != [] {
      assert forall i :: 0 <= i < |run| - 1 ==> run[..|run| - 1][i] == run[i];
      NothingLost(p, keys, run[..|run| - 1]);
      StepLoses(p, After(p, keys, run[..|run| - 1])[0], run[|run| - 1]);
    }
  }

  /** When the writes to the cache succeed, the key of the pipeline is set only after every
      task has a result or an error in the cache. */
  lemma {:induction false} DoneMeansAnswered(p: Pool, keys: set<Key>, run: seq<Action>)
    requires p.workers > 0 && After(p, keys, run) != [] && AllWritesSucceed(run)
    requires After(p, keys, run)[0].phase == Done
    ensures forall t :: 0 <= t < p.tasks ==> HasKey(After(p, keys, run)[0], t)
  {
    var s := After(p, keys, run)[0];
    RunKeepsInv(p, keys, run);
    NothingLost(p, keys, run);
    ReturnedWithWorkers(p, s);
    forall t: nat | t < p.tasks ensures HasKey(s, t) {
      assert multiset(s.finished)[t] == 1;
      assert t in s.finished;
    }
  }

  /** A run without steps of other users of the cache. */
  predicate Alone(run: seq<Action>) {
    forall i :: 0 <= i < |run| ==> Own(run[i])
  }

  /** Only finished tasks have keys or lost their write, and none has both. */
  ghost predicate Accounted(s: State) {
    && (forall t: nat :: HasKey(s, t) ==> t in s.finished && t !in s.lost)
    && (forall t: nat :: t in s.lost ==> t in s.finished)
  }

  /** A task in the hands of a worker has not finished. */
  lemma {:induction false} HeldIsUnfinished(p: Pool, s: State, w: nat)
    requires Inv(p, s) && w < |s.workers| && (s.workers[w].Running? || s.workers[w].Executing?)
    ensures s.workers[w].task !in s.finished
  {
    var t := s.workers[w].task;
    HeldAtLeast(s.workers, w, t);
    assert Balanced(s, t);
    assert multiset(s.started + s.queue) == multiset(s.started) + multiset(s.queue);
    IdsOnce(s.sent, t);
  }

  lemma {:induction false} HeldAtLeast(ws: seq<Worker>, w: nat, t: nat)
    requires w < |ws| && HasTask(ws[w], t)
    ensures Held(ws, t) >= 1
  {
    if w < |ws| - 1 { HeldAtLeast(ws[..|ws| - 1], w, t); }
  }

  lemma {:induction false} StepAccounts(p: Pool, s: State, a: Action)
    requires Inv(p, s) && Accounted(s) && Enabled(p, s, a) && Own(a)
    ensures Accounted(Apply(p, s, a))
  {
    if a.Check? || a.Execute? {
      HeldIsUnfinished(p, s, a.w);
    }
  }

  lemma {:induction false} RunAccounts(p: Pool, run: seq<Action>)
    requires Alone(run) && After(p, {}, run) != []
    ensures Accounted(After(p, {}, run)[0])
  {
    if run != [] {
      var before := run[..|run| - 1];
      assert forall i :: 0 <= i < |before| ==> before[i] == run[i];
      RunKeepsInv(p, {}, before);
      RunAccounts(p, before);
      StepAccounts(p, After(p, {}, before)[0], run[|run| - 1]);
    }
  }

  /** A failed write of a run loses its task for good. */
  lemma {:induction false} FailedWriteLoses(p: Pool, keys: set<Key>, run: seq<Action>)
    requires After(p, keys, run) != [] && !AllWritesSucceed(run)
    ensures After(p, keys, run)[0].lost != {}
  {
    var before, a := run[..|run| - 1], run[|run| - 1];
    var s := After(p, keys, before)[0];
    if a.Execute? && !a.written {
      assert s.workers[a.w].task in Apply(p, s, a).lost;
    } else {
      FailedWriteLoses(p, keys, before);
      assert s.lost <= Apply(p, s, a).lost;
    }
  }

  lemma {:induction false} FinishedIsSubmitted(p: Pool, s: State, t: nat)
    requires Inv(p, s) && t in s.finished
    ensures t < p.tasks && s.workers != []
  {
    assert Balanced(s, t);
    assert multiset(s.started + s.queue) == multiset(s.started) + multiset(s.queue);
    IdsOnce(s.sent, t);
    assert t in multiset(s.started);
  }

  ghost predicate AllAnswered(p: Pool, s: State) {
    forall t: nat :: t < p.tasks ==> HasKey(s, t)
  }

  /** When the pool starts with an empty cache that nobody else writes to, then after the key
      of the pipeline is set every task has its answer exactly if no write failed and there was
      a worker, or nothing to run. */
  lemma {:induction false} AnsweredIffAllWritten(p: Pool, run: seq<Action>)
    requires Alone(run) && After(p, {}, run) != [] && After(p, {}, run)[0].phase == Done
    ensures AllAnswered(p, After(p, {}, run)[0]) <==> AllWritesSucceed(run) && (p.workers > 0 || p.tasks == 0)
  {
    var s := After(p, {}, run)[0];
    RunKeepsInv(p, {}, run);
    RunAccounts(p, run);
    if !AllWritesSucceed(run) {
      FailedWriteLoses(p, {}, run);
      var t :| t in s.lost;
      FinishedIsSubmitted(p, s, t);
      assert !HasKey(s, t);
    } else if p.workers > 0 {
      DoneMeansAnswered(p, {}, run);
    } else if p.tasks > 0 {
      if HasKey(s, 0) {
        FinishedIsSubmitted(p, s, 0);
        assert false;
      }
    }
  }

  /** A run, and the state it leads to. */
  ghost predicate Leads(p: Pool, run: seq<Action>, s: State) {
    Alone(run) && After(p, {}, run) == [s]
  }

  lemma {:induction false} LeadsOn(p: Pool, run: seq<Action>, s: State, a: Action)
    requires Leads(p, run, s) && Enabled(p, s, a) && Own(a)
    ensures Leads(p, run + [a], Apply(p, s, a))
  {
    assert (run + [a])[..|run|] == run;
  }

  /** All workers are started and wait. */
  lemma {:induction false} AllSpawned(p: Pool, n: nat) returns (run: seq<Action>, s: State)
    requires n <= p.workers
    ensures Leads(p, run, s) && |s.workers| == n && s == Init({}).(workers := s.workers, waitCount := n)
    ensures forall w :: 0 <= w < n ==> s.workers[w] == Idle
  {
    if n == 0 {
      run, s := [], Init({});
    } else {
      run, s := AllSpawned(p, n - 1);
      LeadsOn(p, run, s, Spawn);
      run, s := run + [Spawn], Apply(p, s, Spawn);
    }
  }

  /** A run of a pool with a worker can always be taken to its end. */
  lemma {:induction false} Completes(p: Pool, run: seq<Action>, s: State) returns (run': seq<Action>, end: State)
    requires p.workers > 0 && Leads(p, run, s)
    ensures Leads(p, run', end) && end.phase == Done && s.lost <= end.lost
    decreases Measure(p, s)
  {
    RunKeepsInv(p, {}, run);
    if s.phase == Done {
      run', end := run, s;
    } else {
      MovesUnlessBlocked(p, s);
      var a :| Own(a) && Enabled(p, s, a);
      LeadsOn(p, run, s, a);
      StepsDecrease(p, s, a);
      run', end := Completes(p, run + [a], Apply(p, s, a));
    }
  }

  /** In every pool with a worker and a task, the write of the first task can fail, every task
      still finishes, and the key of the pipeline is set without an answer to the first. */
  lemma {:induction false} LostWriteIsNotNoticed(p: Pool)
    requires p.workers > 0 && p.tasks > 0
    ensures exists run, s :: Leads(p, run, s) && s.phase == Done && AllFinished(p, s) && !HasKey(s, 0)
  {
    var run, s := AllSpawned(p, p.workers);
    LeadsOn(p, run, s, Handoff(0));
    run, s := run + [Handoff(0)], Apply(p, s, Handoff(0));
    LeadsOn(p, run, s, Check(0, false));
    run, s := run + [Check(0, false)], Apply(p, s, Check(0, false));
    LeadsOn(p, run, s, Execute(0, true, false));
    run, s := run + [Execute(0, true, false)], Apply(p, s, Execute(0, true, false));
    run, s := Completes(p, run, s);
    RunKeepsInv(p, {}, run);
    ReturnedWithWorkers(p, s);
    RunAccounts(p, run);
    assert 0 in s.lost;
  }

  // ---- what the keys tell ----

  /** The task in the hands of the worker that makes step `i` of a run. */
  function TaskAt(p: Pool, keys: set<Key>, run: seq<Action>, i: nat): Option<nat>
    requires i < |run|
  {
    var before, a := After(p, keys, run[..i]), run[i];
    if before != [] && (a.Check? || a.Execute?) && a.w < |before[0].workers|
       && (before[0].workers[a.w].Running? || before[0].workers[a.w].Executing?)
    then Some(before[0].workers[a.w].task)
    else None
  }

  ghost predicate ExecutedAt(p: Pool, keys: set<Key>, run: seq<Action>, i: nat, t: nat, ok: bool, written: bool)
    requires i < |run|
  {
    run[i].Execute? && run[i].ok == ok && run[i].written == written && TaskAt(p, keys, run, i) == Some(t)
  }

  /** Some step of the run executed the plugin of task `t`, with this outcome. */
  ghost predicate Executed(p: Pool, keys: set<Key>, run: seq<Action>, t: nat, ok: bool, written: bool) {
    exists i :: 0 <= i < |run| && ExecutedAt(p, keys, run, i, t, ok, written)
  }

  ghost predicate SkippedAt(p: Pool, keys: set<Key>, run: seq<Action>, i: nat, t: nat)
    requires i < |run|
  {
    && run[i].Check? && run[i].found && TaskAt(p, keys, run, i) == Some(t)
    && ResultKey(t) in After(p, keys, run[..i])[0].keys
  }

  /** Some step of the run found the result of task `t` in the cache. */
  ghost predicate Skipped(p: Pool, keys: set<Key>, run: seq<Action>, t: nat) {
    exists i :: 0 <= i < |run| && SkippedAt(p, keys, run, i, t)
  }

  lemma {:induction false} ExecutedSnoc(p: Pool, keys: set<Key>, run: seq<Action>, before: seq<Action>, n: nat, t: nat,
                                        ok: bool, written: bool)
    requires |run| == n + 1 && before == run[..n]
    ensures Executed(p, keys, run, t, ok, written)
            <==> Executed(p, keys, before, t, ok, written) || ExecutedAt(p, keys, run, n, t, ok, written)
  {
    forall i | 0 <= i < n
      ensures ExecutedAt(p, keys, before, i, t, ok, written) <==> ExecutedAt(p, keys, run, i, t, ok, written)
    {
      assert before[..i] == run[..i];
    }
  }

  lemma {:induction false} SkippedSnoc(p: Pool, keys: set<Key>, run: seq<Action>, before: seq<Action>, n: nat, t: nat)
    requires |run| == n + 1 && before == run[..n]
    ensures Skipped(p, keys, run, t) <==> Skipped(p, keys, before, t) || SkippedAt(p, keys, run, n, t)
  {
    forall i | 0 <= i < n ensures SkippedAt(p, keys, before, i, t) <==> SkippedAt(p, keys, run, i, t) {
      assert before[..i] == run[..i];
    }
  }

  lemma {:induction false} StepKeys(p: Pool, s: State, a: Action, t: nat)
    requires Enabled(p, s, a) && Own(a)
    ensures var s', runs := Apply(p, s, a), a.Execute? && s.workers[a.w].task == t;
            && (ResultKey(t) in s'.keys <==> ResultKey(t) in s.keys || (runs && a.ok && a.written))
            && (ErrorKey(t) in s'.keys <==> ErrorKey(t) in s.keys || (runs && !a.ok && a.written))
            && (t in s'.lost <==> t in s.lost || (runs && !a.written))
  {
  }

  lemma {:induction false} LastStep(p: Pool, keys: set<Key>, run: seq<Action>, before: seq<Action>, n: nat, t: nat)
    returns (s: State)
    requires |run| == n + 1 && before == run[..n] && After(p, keys, run) != []
    ensures After(p, keys, before) == [s] && Enabled(p, s, run[n]) && After(p, keys, run) == [Apply(p, s, run[n])]
    ensures run[n].Execute? ==> TaskAt(p, keys, run, n) == Some(s.workers[run[n].w].task)
  {
    s := After(p, keys, before)[0];
  }


  /** Over a cache that starts empty and is used by nobody else: a result key says that the plugin of
      the task ran well and its output was stored, an error key that it failed and that was stored. */
  lemma {:induction false} KeysTellOutcomes(p: Pool, run: seq<Action>, t: nat)
    requires Alone(run) && After(p, {}, run) != []
    ensures ResultKey(t) in After(p, {}, run)[0].keys <==> Executed(p, {}, run, t, true, true)
    ensures ErrorKey(t) in After(p, {}, run)[0].keys <==> Executed(p, {}, run, t, false, true)
    ensures t in After(p, {}, run)[0].lost
            <==> Executed(p, {}, run, t, true, false) || Executed(p, {}, run, t, false, false)
  {
    if run != [] {
      var n := |run| - 1;
      var before := run[..n];
      assert forall i :: 0 <= i < n ==> before[i] == run[i];
      var s := LastStep(p, {}, run, before, n, t);
      KeysTellOutcomes(p, before, t);
      StepKeys(p, s, run[n], t);
      ExecutedSnoc(p, {}, run, before, n, t, true, true);
      ExecutedSnoc(p, {}, run, before, n, t, false, true);
      ExecutedSnoc(p, {}, run, before, n, t, true, false);
      ExecutedSnoc(p, {}, run, before, n, t, false, false);
    }
  }

  /** A task finishes by running its plugin, or by a hit: its result key was in the cache before. An
      error key is no hit. */
  lemma {:induction false} FinishedIffRunOrHit(p: Pool, keys: set<Key>, run: seq<Action>, t: nat)
    requires After(p, keys, run) != []
    ensures t in After(p, keys, run)[0].finished
            <==> || Skipped(p, keys, run, t)
                 || (exists ok, written :: Executed(p, keys, run, t, ok, written))
  {
    if run != [] {
      var n := |run| - 1;
      var before := run[..n];
      FinishedIffRunOrHit(p, keys, before, t);
      SkippedSnoc(p, keys, run, before, n, t);
      forall ok, written
        ensures Executed(p, keys, run, t, ok, written)
                <==> Executed(p, keys, before, t, ok, written) || ExecutedAt(p, keys, run, n, t, ok, written)
      {
        ExecutedSnoc(p, keys, run, before, n, t, ok, written);
      }
      var a := run[n];
      if a.Execute? && TaskAt(p, keys, run, n) == Some(t) {
        assert ExecutedAt(p, keys, run, n, t, a.ok, a.written);
      }
    }
  }

  // ---- a case that is in the cache ----

  /** A run in which no plugin is executed. */
  predicate Quiet(run: seq<Action>) {
    forall i :: 0 <= i < |run| ==> !run[i].Execute? && (run[i].Check? ==> run[i].found)
  }

  ghost predicate AllCached(p: Pool, s: State) {
    forall t: nat :: t < p.tasks ==> ResultKey(t) in s.keys
  }

  ghost predicate NoneExecuting(s: State) {
    forall w :: 0 <= w < |s.workers| ==> !s.workers[w].Executing?
  }

  lemma {:induction false} HeldIsSubmitted(p: Pool, s: State, w: nat)
    requires Inv(p, s) && w < |s.workers| && (s.workers[w].Running? || s.workers[w].Executing?)
    ensures s.workers[w].task < p.tasks
  {
    var t := s.workers[w].task;
    HeldAtLeast(s.workers, w, t);
    assert Balanced(s, t);
    assert multiset(s.started + s.queue) == multiset(s.started) + multiset(s.queue);
    IdsOnce(s.sent, t);
  }

  /** A quiet run goes on quietly. */
  lemma {:induction false} MovesQuietly(p: Pool, s: State) returns (a: Action)
    requires Inv(p, s) && s.phase != Done && p.workers > 0 && AllCached(p, s) && NoneExecuting(s)
    ensures Own(a) && Enabled(p, s, a) && !a.Execute? && (a.Check? ==> a.found)
    ensures AllCached(p, Apply(p, s, a)) && NoneExecuting(Apply(p, s, a))
  {
    MovesUnlessBlocked(p, s);
    a :| Own(a) && Enabled(p, s, a);
    if a.Check? {
      HeldIsSubmitted(p, s, a.w);
      a := Check(a.w, true);
    }
    StaysQuiet(p, s, a);
  }

  lemma {:induction false} StaysQuiet(p: Pool, s: State, a: Action)
    requires Own(a) && Enabled(p, s, a) && !a.Execute? && (a.Check? ==> a.found)
    requires AllCached(p, s) && NoneExecuting(s)
    ensures AllCached(p, Apply(p, s, a)) && NoneExecuting(Apply(p, s, a))
  {
    if OfWorker(a) { StepOfWorker(p, s, a); }
  }

  lemma {:induction false} CompletesQuietly(p: Pool, keys: set<Key>, run: seq<Action>, s: State)
    returns (run': seq<Action>, end: State)
    requires p.workers > 0 && After(p, keys, run) == [s] && Quiet(run) && AllCached(p, s) && NoneExecuting(s)
    ensures After(p, keys, run') == [end] && Quiet(run') && end.phase == Done && AllFinished(p, end)
    decreases Measure(p, s)
  {
    RunKeepsInv(p, keys, run);
    if s.phase == Done {
      run', end := run, s;
      ReturnedWithWorkers(p, s);
    } else {
      var a := MovesQuietly(p, s);
      StepsDecrease(p, s, a);
      assert (run + [a])[..|run|] == run;
      run', end := CompletesQuietly(p, keys, run + [a], Apply(p, s, a));
    }
  }

  /** When the results of all tasks are in the cache, a pool with a worker can finish all tasks and
      set the key of the pipeline without running any plugin. */
  lemma {:induction false} CachedCaseRunsNothing(p: Pool, keys: set<Key>)
    requires p.workers > 0 && forall t: nat :: t < p.tasks ==> ResultKey(t) in keys
    ensures exists run, s ::
              After(p, keys, run) == [s] && Quiet(run) && s.phase == Done && AllFinished(p, s)
  {
    assert After(p, keys, []) == [Init(keys)];
    var run, s := CompletesQuietly(p, keys, [], Init(keys));
  }
}
