/**
 The worker-pool engine as a state machine: one step per channel operation, pool operation or
 critical section, in any interleaving of clients, workers, the result consumer and `Stop`.

 Task and result objects are shared by pointer, so they live in two heaps and every channel, worker
 and pool holds references into them.
 */
module EngineProtocol {
  import opened Wrappers

  type Ref = nat

  datatype Task = Task(id: string, system: string, input: string, createdAt: int)

  datatype TaskResult = TaskResult(taskId: string, output: string, duration: nat, error: Option<string>)

  const BLANK_TASK := Task("", "", "", 0)
  const BLANK_RESULT := TaskResult("", "", 0, None)

  /** Where a worker stands in its loop. */
  datatype Worker =
    | Idle
    | Running(task: Ref)
    | Sending(task: Ref, result: Ref)
    | Recycling(task: Ref)
    | Exited

  /** How far `Stop` has come: quit closed, then both queues closed in this order. A worker's panic ends it all. */
  datatype Phase = Open | QuitClosed | TasksClosed | AllClosed | Crashed

  datatype State = State(
    queueSize: nat,
    tasks: map<Ref, Task>,
    results: map<Ref, TaskResult>,
    taskQueue: seq<Ref>,
    resultQueue: seq<Ref>,
    workers: seq<Worker>,
    phase: Phase,
    taskPool: multiset<Ref>,
    resultPool: multiset<Ref>,
    clientTasks: multiset<Ref>,
    clientResults: multiset<Ref>,
    accepted: seq<string>,
    consumed: seq<string>)

  /** `Get` from a `sync.Pool` yields a pooled object or a new one; the pool may also drop objects. */
  datatype Step =
    | GetTask(task: Ref)
    | FillTask(task: Ref, contents: Task)
    | Submit(task: Ref)
    | Take(worker: nat)
    | Finish(worker: nat, result: Ref, output: string, duration: nat, error: Option<string>)
    | Send(worker: nat)
    | Recycle(worker: nat)
    | Quit(worker: nat)
    | Consume
    | RecycleResult(result: Ref)
    | DropTask(task: Ref)
    | DropResult(result: Ref)
    | CloseQuit
    | CloseTasks
    | CloseResults
    | ReceiveNil(worker: nat)
    | SendOnClosed(worker: nat)

  predicate Started(s: State, workerCount: nat, queueSize: nat) {
    s == State(queueSize, map[], map[], [], [], seq(workerCount, _ => Idle), Open,
               multiset{}, multiset{}, multiset{}, multiset{}, [], [])
  }

  predicate AllExited(s: State) {
    forall i :: 0 <= i < |s.workers| ==> s.workers[i].Exited?
  }

  predicate WorkerStep(e: Step) {
    e.Take? || e.Finish? || e.Send? || e.Recycle? || e.Quit?
  }

  /** A closed and empty task queue yields nil, which the worker dereferences; a send to a closed queue panics. */
  predicate Panics(e: Step) {
    e.ReceiveNil? || e.SendOnClosed?
  }

  /** Which steps may happen; for client steps this is what the engine demands of its clients. */
  predicate Enabled(s: State, e: Step) {
    && !s.phase.Crashed?
    && match e
       case GetTask(t) => t in s.taskPool || t !in s.tasks
       case FillTask(t, _) => t in s.clientTasks
       case Submit(t) => t in s.clientTasks && (s.phase.Open? || s.phase.QuitClosed?)
       case Take(i) => i < |s.workers| && s.workers[i].Idle? && s.taskQueue != []
       case Finish(i, r, _, _, _) =>
         i < |s.workers| && s.workers[i].Running? && (r in s.resultPool || r !in s.results)
       case Send(i) =>
         i < |s.workers| && s.workers[i].Sending? && |s.resultQueue| < s.queueSize && !s.phase.AllClosed?
       case Recycle(i) => i < |s.workers| && s.workers[i].Recycling?
       case Quit(i) => i < |s.workers| && s.workers[i].Idle? && !s.phase.Open?
       case Consume => s.resultQueue != []
       case RecycleResult(r) => r in s.clientResults
       case DropTask(t) => t in s.taskPool
       case DropResult(r) => r in s.resultPool
       case CloseQuit => s.phase.Open?
       case CloseTasks => s.phase.QuitClosed? && AllExited(s)
       case CloseResults => s.phase.TasksClosed?
       case ReceiveNil(i) =>
         i < |s.workers| && s.workers[i].Idle? && s.taskQueue == [] && (s.phase.TasksClosed? || s.phase.AllClosed?)
       case SendOnClosed(i) => i < |s.workers| && s.workers[i].Sending? && s.phase.AllClosed?
  }

  function TaskAt(s: State, t: Ref): Task {
    if t in s.tasks then s.tasks[t] else BLANK_TASK
  }

  function ResultAt(s: State, r: Ref): TaskResult {
    if r in s.results then s.results[r] else BLANK_RESULT
  }

  /** Is there room for one more task? */
  predicate Accepts(s: State) {
    |s.taskQueue| < s.queueSize
  }

  function Next(s: State, e: Step): State
    requires Enabled(s, e)
  {
    match e
    case GetTask(t) =>
      if t in s.taskPool then s.(taskPool := s.taskPool - multiset{t}, clientTasks := s.clientTasks + multiset{t})
      else s.(tasks := s.tasks[t := BLANK_TASK], clientTasks := s.clientTasks + multiset{t})
    case FillTask(t, contents) => s.(tasks := s.tasks[t := contents])
    case Submit(t) =>
      if Accepts(s) then
        s.(taskQueue := s.taskQueue + [t], clientTasks := s.clientTasks - multiset{t},
           accepted := s.accepted + [TaskAt(s, t).id])
      else s
    case Take(i) => s.(taskQueue := s.taskQueue[1..], workers := s.workers[i := Running(s.taskQueue[0])])
    case Finish(i, r, output, duration, error) =>
      var t := s.workers[i].task;
      s.(resultPool := s.resultPool - multiset{r},
         results := s.results[r := TaskResult(TaskAt(s, t).id, output, duration, error)],
         workers := s.workers[i := Sending(t, r)])
    case Send(i) =>
      s.(resultQueue := s.resultQueue + [s.workers[i].result],
         workers := s.workers[i := Recycling(s.workers[i].task)])
    case Recycle(i) =>
      var t := s.workers[i].task;
      s.(tasks := s.tasks[t := TaskAt(s, t).(id := "", system := "", input := "")],
         taskPool := s.taskPool + multiset{t}, workers := s.workers[i := Idle])
    case Quit(i) => s.(workers := s.workers[i := Exited])
    case Consume =>
      var r := s.resultQueue[0];
      s.(resultQueue := s.resultQueue[1..], clientResults := s.clientResults + multiset{r},
         consumed := s.consumed + [ResultAt(s, r).taskId])
    case RecycleResult(r) =>
      s.(results := s.results[r := BLANK_RESULT], resultPool := s.resultPool + multiset{r},
         clientResults := s.clientResults - multiset{r})
    case DropTask(t) => s.(taskPool := s.taskPool - multiset{t})
    case DropResult(r) => s.(resultPool := s.resultPool - multiset{r})
    case CloseQuit => s.(phase := QuitClosed)
    case CloseTasks => s.(phase := TasksClosed)
    case CloseResults => s.(phase := AllClosed)
    case ReceiveNil(_) => s.(phase := Crashed)
    case SendOnClosed(_) => s.(phase := Crashed)
  }

  // ------------------------------------------------------------ where things are

  function HoldsTask(w: Worker, t: Ref): nat {
    if (w.Running? || w.Sending? || w.Recycling?) && w.task == t then 1 else 0
  }

  function HoldsResult(w: Worker, r: Ref): nat {
    if w.Sending? && w.result == r then 1 else 0
  }

  function HeldTask(ws: seq<Worker>, t: Ref): nat {
    if ws == [] then 0 else HoldsTask(ws[0], t) + HeldTask(ws[1..], t)
  }

  function HeldResult(ws: seq<Worker>, r: Ref): nat {
    if ws == [] then 0 else HoldsResult(ws[0], r) + HeldResult(ws[1..], r)
  }

  lemma {:induction false} HeldAfter(ws: seq<Worker>, i: nat, w: Worker, x: Ref)
    requires i < |ws|
    ensures HeldTask(ws[i := w], x) + HoldsTask(ws[i], x) == HeldTask(ws, x) + HoldsTask(w, x)
    ensures HeldResult(ws[i := w], x) + HoldsResult(ws[i], x) == HeldResult(ws, x) + HoldsResult(w, x)
  {
    hide HoldsTask, HoldsResult;
    if i == 0 {
      assert ws[i := w][1..] == ws[1..];
    } else {
      assert ws[i := w][1..] == ws[1..][i - 1 := w];
      HeldAfter(ws[1..], i - 1, w, x);
    }
  }

  lemma {:induction false} HeldByWorker(ws: seq<Worker>, i: nat, x: Ref)
    requires i < |ws|
    ensures HoldsTask(ws[i], x) <= HeldTask(ws, x) && HoldsResult(ws[i], x) <= HeldResult(ws, x)
  {
    if i > 0 { HeldByWorker(ws[1..], i - 1, x); }
  }

  /** In how many places task pointer `t` lies. */
  function TaskPlaces(s: State, t: Ref): nat {
    multiset(s.taskQueue)[t] + HeldTask(s.workers, t) + s.taskPool[t] + s.clientTasks[t]
  }

  function ResultPlaces(s: State, r: Ref): nat {
    multiset(s.resultQueue)[r] + HeldResult(s.workers, r) + s.resultPool[r] + s.clientResults[r]
  }

  /** What a worker wipes before it puts a task back; the creation time stays. */
  predicate Scrubbed(t: Task) {
    t.id == "" && t.system == "" && t.input == ""
  }

  /**
   No pointer is in two places. Of its last use, a pooled task carries at most the creation time and a pooled
   result nothing.
   */
  ghost predicate Owned(s: State) {
    && (forall t :: TaskPlaces(s, t) <= 1)
    && (forall t :: TaskPlaces(s, t) > 0 ==> t in s.tasks)
    && (forall r :: ResultPlaces(s, r) <= 1)
    && (forall r :: ResultPlaces(s, r) > 0 ==> r in s.results)
    && (forall t :: t in s.taskPool ==> Scrubbed(TaskAt(s, t)))
    && (forall r :: r in s.resultPool ==> ResultAt(s, r) == BLANK_RESULT)
  }

  predicate Bounded(s: State) {
    |s.taskQueue| <= s.queueSize && |s.resultQueue| <= s.queueSize
  }

  predicate ClosedAfterExit(s: State) {
    s.phase.TasksClosed? || s.phase.AllClosed? ==> AllExited(s)
  }

  /** No worker leaves before `Stop` is called. */
  predicate StayWhileOpen(s: State) {
    s.phase.Open? ==> forall i :: 0 <= i < |s.workers| ==> !s.workers[i].Exited?
  }

  // ---------------------------------------------------------------- ownership

  lemma TakeFront(q: seq<Ref>, x: Ref)
    requires q != []
    ensures multiset(q)[x] == multiset(q[1..])[x] + if x == q[0] then 1 else 0
  {
    assert q == [q[0]] + q[1..];
  }

  function NewWorker(s: State, e: Step): Option<(nat, Worker)>
    requires Enabled(s, e)
  {
    match e
    case Take(i) => Some((i, Running(s.taskQueue[0])))
    case Finish(i, r, _, _, _) => Some((i, Sending(s.workers[i].task, r)))
    case Send(i) => Some((i, Recycling(s.workers[i].task)))
    case Recycle(i) => Some((i, Idle))
    case Quit(i) => Some((i, Exited))
    case _ => None
  }

  /** How one step moves pointers: nothing is duplicated, and only pools drop anything. */
  lemma PlacesAfter(s: State, e: Step, x: Ref)
    requires Enabled(s, e)
    ensures TaskPlaces(Next(s, e), x) + (if e == DropTask(x) then 1 else 0)
         == TaskPlaces(s, x) + if e == GetTask(x) && x !in s.taskPool then 1 else 0
    ensures ResultPlaces(Next(s, e), x) + (if e == DropResult(x) then 1 else 0)
         == ResultPlaces(s, x) + if e.Finish? && e.result == x && x !in s.resultPool then 1 else 0
  {
    if NewWorker(s, e).Some? {
      WorkerPlacesAfter(s, e, x);
    } else {
      ClientTaskPlacesAfter(s, e, x);
      ClientResultPlacesAfter(s, e, x);
    }
    hide Next, TaskPlaces, ResultPlaces;
  }

  /** Steps of clients, pools and `Stop` that leave the places of tasks, or of results, as they are. */
  lemma ClientFrame(s: State, e: Step)
    requires Enabled(s, e) && NewWorker(s, e).None?
    ensures var t := Next(s, e);
            e.GetTask? || e.Submit? || e.DropTask?
            || (t.taskQueue == s.taskQueue && t.workers == s.workers && t.taskPool == s.taskPool
                && t.clientTasks == s.clientTasks)
    ensures var t := Next(s, e);
            e.Consume? || e.RecycleResult? || e.DropResult?
            || (t.resultQueue == s.resultQueue && t.workers == s.workers && t.resultPool == s.resultPool
                && t.clientResults == s.clientResults)
  {
  }

  lemma ClientTaskPlacesAfter(s: State, e: Step, x: Ref)
    requires Enabled(s, e) && NewWorker(s, e).None?
    ensures TaskPlaces(Next(s, e), x) + (if e == DropTask(x) then 1 else 0)
         == TaskPlaces(s, x) + if e == GetTask(x) && x !in s.taskPool then 1 else 0
  {
    hide HeldTask, NewWorker;
    if e.GetTask? {
      GetTaskPlaces(s, e.task, x);
    } else if e.Submit? {
      SubmitPlaces(s, e.task, x);
    } else if e.DropTask? {
      DropTaskPlaces(s, e.task, x);
    } else {
      ClientFrame(s, e);
      hide Next, Enabled;
    }
  }

  lemma GetTaskPlaces(s: State, t: Ref, x: Ref)
    requires Enabled(s, GetTask(t))
    ensures TaskPlaces(Next(s, GetTask(t)), x)
         == TaskPlaces(s, x) + if t == x && x !in s.taskPool then 1 else 0
  {
    hide HeldTask;
  }

  lemma SubmitPlaces(s: State, t: Ref, x: Ref)
    requires Enabled(s, Submit(t))
    ensures TaskPlaces(Next(s, Submit(t)), x) == TaskPlaces(s, x)
  {
    hide HeldTask;
  }

  lemma DropTaskPlaces(s: State, t: Ref, x: Ref)
    requires Enabled(s, DropTask(t))
    ensures TaskPlaces(Next(s, DropTask(t)), x) + (if t == x then 1 else 0) == TaskPlaces(s, x)
  {
    hide HeldTask;
  }

  lemma ClientResultPlacesAfter(s: State, e: Step, x: Ref)
    requires Enabled(s, e) && NewWorker(s, e).None?
    ensures ResultPlaces(Next(s, e), x) + (if e == DropResult(x) then 1 else 0) == ResultPlaces(s, x)
  {
    hide HeldResult, NewWorker;
    if e.Consume? {
      ConsumePlaces(s, x);
    } else if e.RecycleResult? || e.DropResult? {
    } else {
      ClientFrame(s, e);
      hide Next, Enabled;
    }
  }

  lemma ConsumePlaces(s: State, x: Ref)
    requires Enabled(s, Consume)
    ensures ResultPlaces(Next(s, Consume), x) == ResultPlaces(s, x)
  {
    hide HeldResult;
    TakeFront(s.resultQueue, x);
  }

  lemma WorkerPlacesAfter(s: State, e: Step, x: Ref)
    requires Enabled(s, e) && NewWorker(s, e).Some?
    ensures TaskPlaces(Next(s, e), x) == TaskPlaces(s, x)
    ensures ResultPlaces(Next(s, e), x)
         == ResultPlaces(s, x) + if e.Finish? && e.result == x && x !in s.resultPool then 1 else 0
  {
    var (i, w) := NewWorker(s, e).value;
    HeldAfter(s.workers, i, w, x);
    if e.Take? { TakeFront(s.taskQueue, x); }
  }

  /** A worker's pointers are in their places. */
  lemma WorkerPlaces(s: State, i: nat)
    requires i < |s.workers|
    ensures var w := s.workers[i];
            && (w.Running? || w.Sending? || w.Recycling? ==> TaskPlaces(s, w.task) > 0)
            && (w.Sending? ==> ResultPlaces(s, w.result) > 0)
  {
    var w := s.workers[i];
    if w.Running? || w.Sending? || w.Recycling? { HeldByWorker(s.workers, i, w.task); }
    if w.Sending? { HeldByWorker(s.workers, i, w.result); }
  }

  lemma TakeStep(s: State, i: nat)
    requires Enabled(s, Take(i))
    ensures s.taskQueue != [] && i < |s.workers|
    ensures Next(s, Take(i)) == s.(taskQueue := s.taskQueue[1..], workers := s.workers[i := Running(s.taskQueue[0])])
  {
  }

  lemma RecycleStep(s: State, i: nat)
    requires Enabled(s, Recycle(i))
    ensures i < |s.workers| && s.workers[i].Recycling?
    ensures Next(s, Recycle(i)) ==
              var t := s.workers[i].task;
              s.(tasks := s.tasks[t := TaskAt(s, t).(id := "", system := "", input := "")],
                 taskPool := s.taskPool + multiset{t}, workers := s.workers[i := Idle])
  {
  }

  lemma ConsumeStep(s: State)
    requires Enabled(s, Consume)
    ensures s.resultQueue != []
    ensures Next(s, Consume) ==
              var r := s.resultQueue[0];
              s.(resultQueue := s.resultQueue[1..], clientResults := s.clientResults + multiset{r},
                 consumed := s.consumed + [ResultAt(s, r).taskId])
  {
  }

  lemma RecycleResultStep(s: State, r: Ref)
    requires Enabled(s, RecycleResult(r))
    ensures Next(s, RecycleResult(r)) ==
              s.(results := s.results[r := BLANK_RESULT], resultPool := s.resultPool + multiset{r},
                 clientResults := s.clientResults - multiset{r})
  {
  }

  lemma FinishStep(s: State, e: Step)
    requires !s.phase.Crashed? && e.Finish? && e.worker < |s.workers| && s.workers[e.worker].Running?
    requires e.result in s.resultPool || e.result !in s.results
    ensures Enabled(s, e)
    ensures Next(s, e) ==
              var t := s.workers[e.worker].task;
              s.(resultPool := s.resultPool - multiset{e.result},
                 results := s.results[e.result := TaskResult(TaskAt(s, t).id, e.output, e.duration, e.error)],
                 workers := s.workers[e.worker := Sending(t, e.result)])
  {
  }

  /** A submission is accepted exactly if the task queue has room; otherwise nothing changes. */
  lemma SubmitExactly(s: State, t: Ref)
    requires Inv(s) && Enabled(s, Submit(t))
    ensures t in s.tasks
    ensures Next(s, Submit(t)) ==
              if |s.taskQueue| >= s.queueSize then s
              else s.(taskQueue := s.taskQueue + [t], clientTasks := s.clientTasks - multiset{t},
                      accepted := s.accepted + [s.tasks[t].id])
  {
    UnseenInClient(s, t);
    hide Owned, Conserved;
  }

  lemma WorkersTaskExists(s: State, i: nat)
    requires Owned(s) && i < |s.workers|
    ensures var w := s.workers[i];
            w.Running? || w.Sending? || w.Recycling? ==> w.task in s.tasks
  {
    WorkerPlaces(s, i);
  }

  lemma OwnedAfter(s: State, e: Step)
    requires Owned(s) && Enabled(s, e)
    ensures Owned(Next(s, e))
  {
    hide TaskPlaces, ResultPlaces;
    forall x: Ref
      ensures TaskPlaces(Next(s, e), x) <= 1 && (TaskPlaces(Next(s, e), x) > 0 ==> x in Next(s, e).tasks)
      ensures ResultPlaces(Next(s, e), x) <= 1 && (ResultPlaces(Next(s, e), x) > 0 ==> x in Next(s, e).results)
    {
      PlacesAfter(s, e, x);
      PooledPlaces(s, x);
    }
    ScrubbedAfter(s, e);
  }

  lemma PooledPlaces(s: State, x: Ref)
    ensures TaskPlaces(s, x) >= multiset(s.taskQueue)[x] + s.taskPool[x] + s.clientTasks[x]
    ensures ResultPlaces(s, x) >= multiset(s.resultQueue)[x] + s.resultPool[x] + s.clientResults[x]
  {
  }

  /** Writes go only to objects that no pool holds, or leave them blank. */
  lemma ScrubbedAfter(s: State, e: Step)
    requires Owned(s) && Enabled(s, e)
    ensures forall t :: t in Next(s, e).taskPool ==> Scrubbed(TaskAt(Next(s, e), t))
    ensures forall r :: r in Next(s, e).resultPool ==> ResultAt(Next(s, e), r) == BLANK_RESULT
  {
    hide TaskPlaces, ResultPlaces, HeldTask, HeldResult;
    forall t | t in Next(s, e).taskPool
      ensures Scrubbed(TaskAt(Next(s, e), t))
    {
      PooledPlaces(s, t);
      PooledTaskAfter(s, e, t);
    }
    forall r | r in Next(s, e).resultPool
      ensures ResultAt(Next(s, e), r) == BLANK_RESULT
    {
      PooledPlaces(s, r);
      PooledResultAfter(s, e, r);
    }
  }

  lemma PooledTaskAfter(s: State, e: Step, t: Ref)
    requires Enabled(s, e) && s.taskPool[t] + s.clientTasks[t] <= 1
    requires t in s.taskPool ==> t in s.tasks && Scrubbed(TaskAt(s, t))
    ensures t in Next(s, e).taskPool ==> Scrubbed(TaskAt(Next(s, e), t))
  {
  }

  lemma PooledResultAfter(s: State, e: Step, r: Ref)
    requires Enabled(s, e) && s.resultPool[r] + s.clientResults[r] <= 1
    requires r in s.resultPool ==> ResultAt(s, r) == BLANK_RESULT
    ensures r in Next(s, e).resultPool ==> ResultAt(Next(s, e), r) == BLANK_RESULT
  {
  }

  // ------------------------------------------------------- nothing lost or doubled

  function IsId(id: string, x: string): nat {
    if id == x then 1 else 0
  }

  /** How many queued tasks carry ID `x`. */
  function Queued(q: seq<Ref>, tasks: map<Ref, Task>, x: string): nat {
    if q == [] then 0
    else (if q[0] in tasks then IsId(tasks[q[0]].id, x) else 0) + Queued(q[1..], tasks, x)
  }

  /** How many queued results carry ID `x`. */
  function Finished(q: seq<Ref>, results: map<Ref, TaskResult>, x: string): nat {
    if q == [] then 0
    else (if q[0] in results then IsId(results[q[0]].taskId, x) else 0) + Finished(q[1..], results, x)
  }

  /** Does this worker owe a result for ID `x`? */
  function Owes(w: Worker, tasks: map<Ref, Task>, results: map<Ref, TaskResult>, x: string): nat {
    match w
    case Running(t) => if t in tasks then IsId(tasks[t].id, x) else 0
    case Sending(_, r) => if r in results then IsId(results[r].taskId, x) else 0
    case _ => 0
  }

  function InFlight(ws: seq<Worker>, tasks: map<Ref, Task>, results: map<Ref, TaskResult>, x: string): nat {
    if ws == [] then 0 else Owes(ws[0], tasks, results, x) + InFlight(ws[1..], tasks, results, x)
  }

  /** Where the accepted tasks with ID `x` have gone. */
  function Accounted(s: State, x: string): nat {
    Queued(s.taskQueue, s.tasks, x) + InFlight(s.workers, s.tasks, s.results, x)
    + Finished(s.resultQueue, s.results, x) + multiset(s.consumed)[x]
  }

  /** The IDs accepted are, counted, the IDs queued, in flight, finished and consumed. */
  ghost predicate Conserved(s: State) {
    forall x :: multiset(s.accepted)[x] == Accounted(s, x)
  }

  lemma {:induction false} QueuedAppend(q: seq<Ref>, t: Ref, tasks: map<Ref, Task>, x: string)
    ensures Queued(q + [t], tasks, x) == Queued(q, tasks, x) + Queued([t], tasks, x)
  {
    if q == [] {
      assert q + [t] == [t];
    } else {
      assert (q + [t])[1..] == q[1..] + [t];
      QueuedAppend(q[1..], t, tasks, x);
    }
  }

  lemma {:induction false} FinishedAppend(q: seq<Ref>, r: Ref, results: map<Ref, TaskResult>, x: string)
    ensures Finished(q + [r], results, x) == Finished(q, results, x) + Finished([r], results, x)
  {
    if q == [] {
      assert q + [r] == [r];
    } else {
      assert (q + [r])[1..] == q[1..] + [r];
      FinishedAppend(q[1..], r, results, x);
    }
  }

  lemma {:induction false} InFlightAfter(
    ws: seq<Worker>, i: nat, w: Worker, tasks: map<Ref, Task>, results: map<Ref, TaskResult>, x: string)
    requires i < |ws|
    ensures InFlight(ws[i := w], tasks, results, x) + Owes(ws[i], tasks, results, x)
         == InFlight(ws, tasks, results, x) + Owes(w, tasks, results, x)
  {
    hide Owes;
    if i == 0 {
      assert ws[i := w][1..] == ws[1..];
    } else {
      assert ws[i := w][1..] == ws[1..][i - 1 := w];
      InFlightAfter(ws[1..], i - 1, w, tasks, results, x);
    }
  }

  /** Writing a task that is not queued changes nothing about the queue. */
  lemma {:induction false} QueuedFrame(q: seq<Ref>, tasks: map<Ref, Task>, t: Ref, v: Task, x: string)
    requires multiset(q)[t] == 0
    ensures Queued(q, tasks[t := v], x) == Queued(q, tasks, x)
  {
    if q != [] {
      assert q == [q[0]] + q[1..];
      QueuedFrame(q[1..], tasks, t, v, x);
    }
  }

  lemma {:induction false} FinishedFrame(q: seq<Ref>, results: map<Ref, TaskResult>, r: Ref, v: TaskResult, x: string)
    requires multiset(q)[r] == 0
    ensures Finished(q, results[r := v], x) == Finished(q, results, x)
  {
    if q != [] {
      assert q == [q[0]] + q[1..];
      FinishedFrame(q[1..], results, r, v, x);
    }
  }

  lemma {:induction false} InFlightTaskFrame(
    ws: seq<Worker>, tasks: map<Ref, Task>, results: map<Ref, TaskResult>, t: Ref, v: Task, x: string)
    requires HeldTask(ws, t) == 0
    ensures InFlight(ws, tasks[t := v], results, x) == InFlight(ws, tasks, results, x)
  {
    if ws != [] {
      InFlightTaskFrame(ws[1..], tasks, results, t, v, x);
    }
  }

  lemma {:induction false} InFlightResultFrame(
    ws: seq<Worker>, tasks: map<Ref, Task>, results: map<Ref, TaskResult>, r: Ref, v: TaskResult, x: string)
    requires HeldResult(ws, r) == 0
    ensures InFlight(ws, tasks, results[r := v], x) == InFlight(ws, tasks, results, x)
  {
    if ws != [] {
      InFlightResultFrame(ws[1..], tasks, results, r, v, x);
    }
  }

  /** A write to a task that lies in no queue and with no worker is not seen. */
  lemma UnseenTaskWrite(s: State, t: Ref, v: Task, x: string)
    requires multiset(s.taskQueue)[t] == 0 && HeldTask(s.workers, t) == 0
    ensures Accounted(s.(tasks := s.tasks[t := v]), x) == Accounted(s, x)
  {
    QueuedFrame(s.taskQueue, s.tasks, t, v, x);
    InFlightTaskFrame(s.workers, s.tasks, s.results, t, v, x);
  }

  lemma UnseenResultWrite(s: State, r: Ref, v: TaskResult, x: string)
    requires multiset(s.resultQueue)[r] == 0 && HeldResult(s.workers, r) == 0
    ensures Accounted(s.(results := s.results[r := v]), x) == Accounted(s, x)
  {
    FinishedFrame(s.resultQueue, s.results, r, v, x);
    InFlightResultFrame(s.workers, s.tasks, s.results, r, v, x);
  }

  lemma {:induction false} AccountedAfter(s: State, e: Step, x: string)
    requires Owned(s) && Enabled(s, e)
    ensures Accounted(Next(s, e), x)
         == Accounted(s, x) + if e.Submit? && Accepts(s) then IsId(TaskAt(s, e.task).id, x) else 0
  {
    hide HeldTask, HeldResult, Owned, TaskPlaces, ResultPlaces;
    match e {
      case GetTask(t) => GetTaskUnseen(s, t, x);
      case FillTask(t, contents) =>
        UnseenInClient(s, t);
        UnseenTaskWrite(s, t, contents, x);
      case Submit(t) =>
        UnseenInClient(s, t);
        QueuedAppend(s.taskQueue, t, s.tasks, x);
      case Take(i) => InFlightAfter(s.workers, i, Running(s.taskQueue[0]), s.tasks, s.results, x);
      case Finish(_, _, _, _, _) => FinishAccounted(s, e, x);
      case Send(_) => SendAccounted(s, e, x);
      case Recycle(_) => RecycleAccounted(s, e, x);
      case Quit(i) => InFlightAfter(s.workers, i, Exited, s.tasks, s.results, x);
      case Consume => ConsumeAccounted(s, x);
      case RecycleResult(r) =>
        UnseenResultInClient(s, r);
        UnseenResultWrite(s, r, BLANK_RESULT, x);
      case _ =>
    }
  }

  lemma UnseenInClient(s: State, t: Ref)
    requires Owned(s) && (t in s.clientTasks || t in s.taskPool || t !in s.tasks)
    ensures multiset(s.taskQueue)[t] == 0 && HeldTask(s.workers, t) == 0
    ensures t in s.clientTasks ==> t in s.tasks
  {
    assert TaskPlaces(s, t) <= 1 && (TaskPlaces(s, t) > 0 ==> t in s.tasks);
  }

  lemma UnseenResultInClient(s: State, r: Ref)
    requires Owned(s) && (r in s.clientResults || r in s.resultPool || r !in s.results)
    ensures multiset(s.resultQueue)[r] == 0 && HeldResult(s.workers, r) == 0
  {
    assert ResultPlaces(s, r) <= 1 && (ResultPlaces(s, r) > 0 ==> r in s.results);
  }

  lemma GetTaskUnseen(s: State, t: Ref, x: string)
    requires Owned(s) && Enabled(s, GetTask(t))
    ensures Accounted(Next(s, GetTask(t)), x) == Accounted(s, x)
  {
    if t !in s.taskPool {
      UnseenInClient(s, t);
      UnseenTaskWrite(s, t, BLANK_TASK, x);
    }
  }

  lemma FinishAccounted(s: State, e: Step, x: string)
    requires Owned(s) && e.Finish? && Enabled(s, e)
    ensures Accounted(Next(s, e), x) == Accounted(s, x)
  {
    var Finish(i, r, output, duration, error) := e;
    var t := s.workers[i].task;
    var v := TaskResult(TaskAt(s, t).id, output, duration, error);
    WorkerPlaces(s, i);
    assert t in s.tasks;
    UnseenResultInClient(s, r);
    UnseenResultWrite(s, r, v, x);
    InFlightAfter(s.workers, i, Sending(t, r), s.tasks, s.results[r := v], x);
  }

  lemma SendAccounted(s: State, e: Step, x: string)
    requires e.Send? && Enabled(s, e)
    ensures Accounted(Next(s, e), x) == Accounted(s, x)
  {
    var i := e.worker;
    FinishedAppend(s.resultQueue, s.workers[i].result, s.results, x);
    InFlightAfter(s.workers, i, Recycling(s.workers[i].task), s.tasks, s.results, x);
  }

  lemma RecycleAccounted(s: State, e: Step, x: string)
    requires Owned(s) && e.Recycle? && Enabled(s, e)
    ensures Accounted(Next(s, e), x) == Accounted(s, x)
  {
    var i := e.worker;
    var t := s.workers[i].task;
    WorkerPlaces(s, i);
    assert TaskPlaces(s, t) <= 1;
    HeldByWorker(s.workers, i, t);
    HeldAfter(s.workers, i, Idle, t);
    var idle := s.(workers := s.workers[i := Idle]);
    InFlightAfter(s.workers, i, Idle, s.tasks, s.results, x);
    UnseenTaskWrite(idle, t, TaskAt(s, t).(id := "", system := "", input := ""), x);
  }

  lemma ConsumeAccounted(s: State, x: string)
    requires Owned(s) && Enabled(s, Consume)
    ensures Accounted(Next(s, Consume), x) == Accounted(s, x)
  {
    var r := s.resultQueue[0];
    TakeFront(s.resultQueue, r);
    assert ResultPlaces(s, r) > 0;
    assert r in s.results;
  }

  // ------------------------------------------------------------ every interleaving

  /** What every reachable state satisfies. */
  ghost predicate Inv(s: State) {
    Owned(s) && Conserved(s) && Bounded(s) && ClosedAfterExit(s) && StayWhileOpen(s) && !s.phase.Crashed?
  }

  lemma StartedInv(s: State, workerCount: nat, queueSize: nat)
    requires Started(s, workerCount, queueSize)
    ensures Inv(s)
  {
    forall x: Ref
      ensures TaskPlaces(s, x) == 0 && ResultPlaces(s, x) == 0
    {
      IdleHold(s.workers, x);
    }
    forall x: string
      ensures multiset(s.accepted)[x] == Accounted(s, x)
    {
      IdleOwe(s.workers, s.tasks, s.results, x);
    }
  }

  lemma {:induction false} IdleHold(ws: seq<Worker>, x: Ref)
    requires forall i :: 0 <= i < |ws| ==> ws[i].Idle?
    ensures HeldTask(ws, x) == 0 && HeldResult(ws, x) == 0
  {
    if ws != [] { IdleHold(ws[1..], x); }
  }

  lemma {:induction false} IdleOwe(ws: seq<Worker>, tasks: map<Ref, Task>, results: map<Ref, TaskResult>, x: string)
    requires forall i :: 0 <= i < |ws| ==> ws[i].Idle?
    ensures InFlight(ws, tasks, results, x) == 0
  {
    if ws != [] { IdleOwe(ws[1..], tasks, results, x); }
  }

  lemma ConservedAfter(s: State, e: Step)
    requires Owned(s) && Conserved(s) && Enabled(s, e)
    ensures Conserved(Next(s, e))
  {
    hide Accounted, Owned;
    forall x: string
      ensures multiset(Next(s, e).accepted)[x] == Accounted(Next(s, e), x)
    {
      AccountedAfter(s, e, x);
      assert multiset(s.accepted)[x] == Accounted(s, x);
    }
  }

  /** No worker sends to, or receives nil from, a closed queue; and workers move only while both are open. */
  lemma WorkersUseOpenChannels(s: State, e: Step)
    requires Inv(s) && Enabled(s, e)
    ensures !Panics(e)
    ensures WorkerStep(e) ==> s.phase.Open? || s.phase.QuitClosed?
  {
    hide Owned, Conserved;
  }

  lemma InvAfter(s: State, e: Step)
    requires Inv(s) && Enabled(s, e)
    ensures Inv(Next(s, e)) && Next(s, e).queueSize == s.queueSize && |Next(s, e).workers| == |s.workers|
  {
    hide Owned, Conserved;
    OwnedAfter(s, e);
    ConservedAfter(s, e);
    WorkersUseOpenChannels(s, e);
    QueuesAfter(s, e);
    WorkersAfter(s, e);
    hide Enabled, Next, Bounded, ClosedAfterExit, StayWhileOpen;
  }

  lemma QueuesAfter(s: State, e: Step)
    requires Bounded(s) && Enabled(s, e) && !Panics(e)
    ensures Bounded(Next(s, e)) && !Next(s, e).phase.Crashed?
    ensures Next(s, e).queueSize == s.queueSize && |Next(s, e).workers| == |s.workers|
  {
  }

  lemma WorkersAfter(s: State, e: Step)
    requires ClosedAfterExit(s) && StayWhileOpen(s) && Enabled(s, e)
    ensures ClosedAfterExit(Next(s, e)) && StayWhileOpen(Next(s, e))
  {
    if WorkerStep(e) {
      WorkerMoves(s, e);
      hide Next, NewWorker;
    } else {
      OthersStay(s, e);
      hide Next;
    }
  }

  lemma WorkerMoves(s: State, e: Step)
    requires WorkerStep(e) && Enabled(s, e)
    ensures NewWorker(s, e).Some? && !s.workers[e.worker].Exited?
    ensures Next(s, e).phase == s.phase && Next(s, e).workers == s.workers[e.worker := NewWorker(s, e).value.1]
    ensures NewWorker(s, e).value.1.Exited? ==> !s.phase.Open?
  {
  }

  lemma OthersStay(s: State, e: Step)
    requires !WorkerStep(e) && Enabled(s, e)
    ensures Next(s, e).workers == s.workers
    ensures Next(s, e).phase.Open? ==> s.phase.Open?
    ensures Next(s, e).phase.TasksClosed? || Next(s, e).phase.AllClosed? ==>
              AllExited(s) || s.phase.TasksClosed? || s.phase.AllClosed?
  {
  }

  /** `es` can happen one after the other. */
  predicate Allowed(s: State, es: seq<Step>)
    decreases |es|
  {
    es == [] || (Enabled(s, es[0]) && Allowed(Next(s, es[0]), es[1..]))
  }

  function After(s: State, es: seq<Step>): State
    requires Allowed(s, es)
    decreases |es|
  {
    if es == [] then s else After(Next(s, es[0]), es[1..])
  }

  lemma {:induction false} InvAlways(s: State, es: seq<Step>)
    requires Inv(s) && Allowed(s, es)
    ensures Inv(After(s, es))
    ensures After(s, es).queueSize == s.queueSize && |After(s, es).workers| == |s.workers|
    decreases |es|
  {
    hide Inv, Enabled, Next;
    if es != [] {
      InvAfter(s, es[0]);
      InvAlways(Next(s, es[0]), es[1..]);
    }
  }

  /**
   Over every interleaving: the accepted tasks are, as a multiset of IDs, those queued, held by
   workers, finished and consumed; the queues keep their bound; no pointer is in two places; workers leave
   only once quit is closed, and the queues are closed only after all of them have; and no worker can panic.
   */
  lemma EveryInterleaving(s: State, workerCount: nat, queueSize: nat, es: seq<Step>)
    requires Started(s, workerCount, queueSize) && Allowed(s, es)
    ensures var t := After(s, es);
            && Conserved(t) && Owned(t)
            && |t.taskQueue| <= queueSize && |t.resultQueue| <= queueSize && |t.workers| == workerCount
            && ClosedAfterExit(t) && StayWhileOpen(t) && forall e :: Panics(e) ==> !Enabled(t, e)
  {
    StartedInv(s, workerCount, queueSize);
    InvAlways(s, es);
    var t := After(s, es);
    hide Owned, Conserved, Enabled, After, Allowed;
    forall e | Panics(e)
      ensures !Enabled(t, e)
    {
      if Enabled(t, e) { WorkersUseOpenChannels(t, e); }
    }
  }

  /**
   Object from a pool or fresh: nobody else refers to a task handed out, and all it can carry of an earlier
   use is the creation time. It is blank exactly if it is new or that time was never set.
   */
  lemma GottenTaskIsExclusive(s: State, t: Ref)
    requires Inv(s) && Enabled(s, GetTask(t))
    ensures var s' := Next(s, GetTask(t));
            && Scrubbed(TaskAt(s', t)) && TaskPlaces(s', t) == 1 && s'.clientTasks[t] == 1
            && (TaskAt(s', t) == BLANK_TASK <==> t !in s.taskPool || TaskAt(s, t).createdAt == 0)
  {
    OwnedAfter(s, GetTask(t));
    assert TaskPlaces(s, t) <= 1 && TaskPlaces(Next(s, GetTask(t)), t) <= 1;
    assert t in s.taskPool ==> Scrubbed(TaskAt(s, t));
  }

  /** A task goes back to the pool without its texts but with its creation time, and so it is handed out again. */
  lemma RecycledTaskKeepsItsTime(s: State, i: nat)
    requires Inv(s) && Enabled(s, Recycle(i))
    ensures var t := s.workers[i].task;
            var pooled := Next(s, Recycle(i));
            && Enabled(pooled, GetTask(t))
            && TaskAt(Next(pooled, GetTask(t)), t) == Task("", "", "", TaskAt(s, t).createdAt)
  {
    hide Inv;
  }

  // ----------------------------------------------------------------- shutdown

  /** A worker or the consumer of results moves. */
  predicate DrainStep(e: Step) {
    WorkerStep(e) || e.Consume?
  }

  function Weight(w: Worker): nat {
    match w
    case Exited => 0
    case Idle => 1
    case Recycling(_) => 2
    case Sending(_, _) => 4
    case Running(_) => 5
  }

  function Weights(ws: seq<Worker>): nat {
    if ws == [] then 0 else Weight(ws[0]) + Weights(ws[1..])
  }

  /** The work left before everything stands still. */
  function Measure(s: State): nat {
    6 * |s.taskQueue| + Weights(s.workers) + |s.resultQueue|
  }

  lemma {:induction false} WeightsAfter(ws: seq<Worker>, i: nat, w: Worker)
    requires i < |ws|
    ensures Weights(ws[i := w]) + Weight(ws[i]) == Weights(ws) + Weight(w)
  {
    hide Weight;
    if i == 0 {
      assert ws[i := w][1..] == ws[1..];
    } else {
      assert ws[i := w][1..] == ws[1..][i - 1 := w];
      WeightsAfter(ws[1..], i - 1, w);
    }
  }

  /** Every step of a worker or of the consumer brings the end nearer. */
  lemma DrainDecreases(s: State, e: Step)
    requires Enabled(s, e) && DrainStep(e)
    ensures Measure(Next(s, e)) < Measure(s)
    ensures Next(s, e).phase == s.phase
  {
    if NewWorker(s, e).Some? {
      var (i, w) := NewWorker(s, e).value;
      WeightsAfter(s.workers, i, w);
    }
  }

  lemma FreshRef(taken: set<Ref>) returns (r: Ref)
    ensures forall x :: x in taken ==> x < r
    decreases taken
  {
    if taken == {} {
      r := 0;
    } else {
      var y :| y in taken;
      var bound := FreshRef(taken - {y});
      r := if bound > y then bound else y + 1;
      assert forall x :: x in taken ==> x == y || x in taken - {y};
    }
  }

  /** A worker that has not exited can move, unless it waits to send into a full result queue. */
  lemma WorkerCanMove(s: State, i: nat) returns (e: Step)
    requires i < |s.workers| && !s.workers[i].Exited? && s.phase.QuitClosed?
    requires s.workers[i].Sending? ==> |s.resultQueue| < s.queueSize
    ensures WorkerStep(e) && Enabled(s, e) && (e.Quit? ==> s.workers[i].Idle?)
  {
    match s.workers[i]
    case Idle => e := Quit(i);
    case Running(_) =>
      var r := FreshRef(s.results.Keys);
      e := Finish(i, r, "", 0, None);
    case Sending(_, _) => e := Send(i);
    case Recycling(_) => e := Recycle(i);
  }

  /** Neither a submission nor a further step of `Stop`. */
  predicate Ceased(e: Step) {
    !(e.Submit? || e.CloseQuit? || e.CloseTasks? || e.CloseResults?)
  }

  predicate AllCeased(es: seq<Step>) {
    forall k :: 0 <= k < |es| ==> Ceased(es[k])
  }

  function DrainCount(es: seq<Step>): nat {
    if es == [] then 0 else (if DrainStep(es[0]) then 1 else 0) + DrainCount(es[1..])
  }

  /** Clients that fill or recycle objects, and pools, neither help nor hinder the shutdown. */
  lemma OthersDoNotMatter(s: State, e: Step)
    requires s.phase.QuitClosed? && Enabled(s, e) && Ceased(e) && !DrainStep(e)
    ensures var t := Next(s, e);
            && t.taskQueue == s.taskQueue && t.resultQueue == s.resultQueue && t.workers == s.workers
            && t.phase == s.phase
  {
  }

  lemma CeasedStep(s: State, e: Step)
    requires s.phase.QuitClosed? && Enabled(s, e) && Ceased(e)
    ensures Measure(Next(s, e)) + (if DrainStep(e) then 1 else 0) <= Measure(s)
    ensures Next(s, e).phase == s.phase && Next(s, e).queueSize == s.queueSize
  {
    QueueSizeStays(s, e);
    if DrainStep(e) {
      DrainDecreases(s, e);
    } else {
      OthersDoNotMatter(s, e);
    }
    hide Next, Enabled;
  }

  /** No worker and no consumer can move. */
  ghost predicate Drained(s: State) {
    forall e :: DrainStep(e) ==> !Enabled(s, e)
  }

  /**
   Once quit is closed and submissions have ceased, workers and consumer make at most `Measure` steps,
   whatever clients and pools do meanwhile, and when none of them can move any more all workers have
   exited: `Stop` goes on.
   */
  lemma {:induction false} DrainedShutdownFinishes(s: State, es: seq<Step>)
    requires s.phase.QuitClosed? && s.queueSize > 0
    requires Allowed(s, es) && AllCeased(es)
    ensures DrainCount(es) + Measure(After(s, es)) <= Measure(s)
    ensures var t := After(s, es);
            Drained(t) ==> t.resultQueue == [] && Enabled(t, CloseTasks)
    decreases |es|
  {
    if es == [] {
      if Drained(s) {
        assert !Enabled(s, Consume);
        forall i | 0 <= i < |s.workers|
          ensures s.workers[i].Exited?
        {
          if !s.workers[i].Exited? {
            var e := WorkerCanMove(s, i);
          }
        }
      }
    } else {
      hide Enabled, Next, Measure, Drained, DrainStep, Ceased;
      CeasedStep(s, es[0]);
      DrainedShutdownFinishes(Next(s, es[0]), es[1..]);
    }
  }

  lemma QueueSizeStays(s: State, e: Step)
    requires Enabled(s, e)
    ensures Next(s, e).queueSize == s.queueSize
  {
  }

  function Busy(ws: seq<Worker>): nat {
    if ws == [] then 0 else (if ws[0].Running? || ws[0].Sending? then 1 else 0) + Busy(ws[1..])
  }

  /** Results that exist or are still to come, if every queued task is taken. */
  function Load(s: State): nat {
    |s.taskQueue| + Busy(s.workers) + |s.resultQueue|
  }

  lemma {:induction false} BusyAfter(ws: seq<Worker>, i: nat, w: Worker)
    requires i < |ws|
    ensures Busy(ws[i := w]) + (if ws[i].Running? || ws[i].Sending? then 1 else 0)
         == Busy(ws) + if w.Running? || w.Sending? then 1 else 0
  {
    if i == 0 {
      assert ws[i := w][1..] == ws[1..];
    } else {
      assert ws[i := w][1..] == ws[1..][i - 1 := w];
      BusyAfter(ws[1..], i - 1, w);
    }
  }

  lemma {:induction false} BusyWorker(ws: seq<Worker>, i: nat)
    requires i < |ws| && (ws[i].Running? || ws[i].Sending?)
    ensures Busy(ws) > 0
  {
    if i > 0 { BusyWorker(ws[1..], i - 1); }
  }

  lemma LoadStays(s: State, e: Step)
    requires Enabled(s, e) && WorkerStep(e)
    ensures Load(Next(s, e)) == Load(s)
  {
    var (i, w) := NewWorker(s, e).value;
    BusyAfter(s.workers, i, w);
  }

  /** Submissions have ceased and nobody receives results. */
  predicate Unattended(e: Step) {
    Ceased(e) && !e.Consume?
  }

  predicate AllUnattended(es: seq<Step>) {
    forall k :: 0 <= k < |es| ==> Unattended(es[k])
  }

  /** No worker can move. */
  ghost predicate Standstill(s: State) {
    forall e :: WorkerStep(e) ==> !Enabled(s, e)
  }

  lemma UnattendedStep(s: State, e: Step)
    requires s.phase.QuitClosed? && Enabled(s, e) && Unattended(e)
    ensures Load(Next(s, e)) == Load(s)
    ensures AllExited(s) ==> AllExited(Next(s, e))
  {
    if WorkerStep(e) {
      LoadStays(s, e);
    } else {
      OthersDoNotMatter(s, e);
    }
  }

  /** Without a consumer, `Stop` still finishes if all outstanding work fits the result queue. */
  lemma {:induction false} FittingShutdownFinishes(s: State, es: seq<Step>)
    requires s.phase.QuitClosed? && (Load(s) <= s.queueSize || AllExited(s))
    requires Allowed(s, es) && AllUnattended(es)
    ensures DrainCount(es) + Measure(After(s, es)) <= Measure(s)
    ensures Standstill(After(s, es)) ==> Enabled(After(s, es), CloseTasks)
    decreases |es|
  {
    if es == [] {
      if Standstill(s) && !AllExited(s) {
        forall i | 0 <= i < |s.workers|
          ensures s.workers[i].Exited?
        {
          if !s.workers[i].Exited? {
            if s.workers[i].Sending? { BusyWorker(s.workers, i); }
            var e := WorkerCanMove(s, i);
          }
        }
      }
    } else {
      hide Enabled, Next, Measure, Load, AllExited, Standstill;
      CeasedStep(s, es[0]);
      UnattendedStep(s, es[0]);
      FittingShutdownFinishes(Next(s, es[0]), es[1..]);
    }
  }

  lemma {:induction false} BusyMeansWorker(ws: seq<Worker>) returns (i: nat)
    requires Busy(ws) > 0
    ensures i < |ws| && (ws[i].Running? || ws[i].Sending?)
  {
    if ws[0].Running? || ws[0].Sending? {
      i := 0;
    } else {
      i := BusyMeansWorker(ws[1..]);
      i := i + 1;
    }
  }

  /** If more work is left than fits and no worker can do any of it, one of them faces a full result queue. */
  lemma BlockedSender(s: State) returns (i: nat)
    requires s.phase.QuitClosed? && Bounded(s) && Load(s) > s.queueSize && !AllExited(s)
    requires forall e :: WorkerStep(e) && Enabled(s, e) ==> e.Quit?
    ensures i < |s.workers| && s.workers[i].Sending?
  {
    if s.taskQueue == [] {
      i := BusyMeansWorker(s.workers);
    } else {
      i :| 0 <= i < |s.workers| && !s.workers[i].Exited?;
    }
    if s.workers[i].Idle? {
      assert WorkerStep(Take(i)) && Enabled(s, Take(i));
    } else if !s.workers[i].Sending? {
      var e := WorkerCanMove(s, i);
    }
  }

  /** Whatever works is done first; then everyone who waits for a task quits, and a blocked sender remains. */
  lemma {:induction false} RunIntoBlock(s: State) returns (es: seq<Step>)
    requires s.phase.QuitClosed? && Bounded(s) && Load(s) > s.queueSize && !AllExited(s)
    ensures Allowed(s, es) && AllUnattended(es)
    ensures Standstill(After(s, es)) && !AllExited(After(s, es))
    decreases Measure(s)
  {
    if e :| WorkerStep(e) && Enabled(s, e) && !e.Quit? {
      StillAlive(s, e);
      es := RunOnInto(s, e);
    } else {
      var i := BlockedSender(s);
      if e :| WorkerStep(e) && Enabled(s, e) {
        assert Next(s, e).workers[i].Sending?;
        es := RunOnInto(s, e);
      } else {
        es := [];
      }
    }
  }

  lemma StillAlive(s: State, e: Step)
    requires WorkerStep(e) && Enabled(s, e) && !e.Quit?
    ensures !AllExited(Next(s, e))
  {
    assert !Next(s, e).workers[e.worker].Exited?;
  }

  lemma {:induction false} RunOnInto(s: State, e: Step) returns (es: seq<Step>)
    requires s.phase.QuitClosed? && Bounded(s) && Load(s) > s.queueSize
    requires WorkerStep(e) && Enabled(s, e) && !AllExited(Next(s, e))
    ensures Allowed(s, es) && AllUnattended(es)
    ensures Standstill(After(s, es)) && !AllExited(After(s, es))
    decreases Measure(s), 0
  {
    DrainDecreases(s, e);
    LoadStays(s, e);
    QueueSizeStays(s, e);
    assert Bounded(Next(s, e));
    hide Enabled, Next, Bounded, Load, Measure, AllExited, Standstill;
    var rest := RunIntoBlock(Next(s, e));
    es := [e] + rest;
    assert es[1..] == rest;
  }

  /** Without a consumer, no run of the workers gets stuck before they have all exited. */
  ghost predicate NeverStuck(s: State) {
    forall es :: Allowed(s, es) && AllUnattended(es) && Standstill(After(s, es)) ==> AllExited(After(s, es))
  }

  /** Exactly when `Stop` needs no consumer: all outstanding work fits the result queue, or nobody is left. */
  lemma NeverStuckExactly(s: State)
    requires s.phase.QuitClosed? && Bounded(s)
    ensures NeverStuck(s) <==> Load(s) <= s.queueSize || AllExited(s)
  {
    if Load(s) <= s.queueSize || AllExited(s) {
      forall es | Allowed(s, es) && AllUnattended(es) && Standstill(After(s, es))
        ensures AllExited(After(s, es))
      {
        FittingShutdownFinishes(s, es);
      }
    } else {
      var es := RunIntoBlock(s);
    }
  }

  /** The same read off before `Stop` is called. */
  lemma StopNeedsNoConsumerExactly(s: State)
    requires Inv(s) && s.phase.Open?
    ensures NeverStuck(Next(s, CloseQuit)) <==> Load(s) <= s.queueSize || AllExited(s)
  {
    NeverStuckExactly(Next(s, CloseQuit));
    hide NeverStuck, Inv;
  }

  lemma StillSending(s: State, i: nat, e: Step)
    requires i < |s.workers| && s.workers[i].Sending? && |s.resultQueue| == s.queueSize
    requires s.phase.QuitClosed? && Enabled(s, e) && Unattended(e)
    ensures var t := Next(s, e);
            && i < |t.workers| && t.workers[i].Sending? && |t.resultQueue| == t.queueSize
            && t.phase.QuitClosed?
  {
  }

  /** Without a consumer and with a full result queue, a sending worker never exits and `Stop` waits forever. */
  lemma {:induction false} FullResultQueueBlocksStop(s: State, i: nat, es: seq<Step>)
    requires s.phase.QuitClosed?
    requires i < |s.workers| && s.workers[i].Sending? && |s.resultQueue| == s.queueSize
    requires Allowed(s, es) && AllUnattended(es)
    ensures var t := After(s, es);
            i < |t.workers| && t.workers[i].Sending? && !Enabled(t, CloseTasks)
    decreases |es|
  {
    if es != [] {
      StillSending(s, i, es[0]);
      hide Enabled, Next;
      FullResultQueueBlocksStop(Next(s, es[0]), i, es[1..]);
    }
  }

  // ------------------------------------------------------------------ the engine

  datatype EngineError = QueueFull

  /** The engine's channels, pools and workers; each method is one atomic step of the protocol. */
  class Engine {
    const queueSize: nat
    var tasks: map<Ref, Task>
    var results: map<Ref, TaskResult>
    var taskQueue: seq<Ref>
    var resultQueue: seq<Ref>
    var workers: seq<Worker>
    var phase: Phase
    var taskPool: multiset<Ref>
    var resultPool: multiset<Ref>
    ghost var clientTasks: multiset<Ref>
    ghost var clientResults: multiset<Ref>
    ghost var accepted: seq<string>
    ghost var consumed: seq<string>

    ghost function Now(): State
      reads this
    {
      State(queueSize, tasks, results, taskQueue, resultQueue, workers, phase, taskPool, resultPool,
            clientTasks, clientResults, accepted, consumed)
    }

    constructor (workerCount: nat, queueSize: nat)
      ensures Started(Now(), workerCount, queueSize) && Inv(Now())
    {
      this.queueSize := queueSize;
      tasks, results, taskQueue, resultQueue := map[], map[], [], [];
      workers, phase := seq(workerCount, _ => Idle), Open;
      taskPool, resultPool := multiset{}, multiset{};
      clientTasks, clientResults, accepted, consumed := multiset{}, multiset{}, [], [];
      new;
      StartedInv(Now(), workerCount, queueSize);
    }

    /** The pool gives up `t`, or `t` is allocated. */
    method HandOut(t: Ref)
      requires Enabled(Now(), Step.GetTask(t))
      modifies this
      ensures Now() == Next(old(Now()), Step.GetTask(t))
    {
      if t in taskPool {
        taskPool := taskPool - multiset{t};
      } else {
        tasks := tasks[t := BLANK_TASK];
      }
      clientTasks := clientTasks + multiset{t};
    }

    method GetTask() returns (t: Ref)
      requires Inv(Now())
      modifies this
      ensures Enabled(old(Now()), Step.GetTask(t)) && Now() == Next(old(Now()), Step.GetTask(t)) && Inv(Now())
      ensures Scrubbed(TaskAt(Now(), t)) && TaskPlaces(Now(), t) == 1
      ensures TaskAt(Now(), t) == BLANK_TASK <==> t !in old(taskPool) || TaskAt(old(Now()), t).createdAt == 0
    {
      t := FromPool(taskPool, tasks.Keys);
      assert Enabled(Now(), Step.GetTask(t));
      InvAfter(Now(), Step.GetTask(t));
      GottenTaskIsExclusive(Now(), t);
      hide Inv, Next, Enabled, Scrubbed, TaskPlaces, TaskAt;
      HandOut(t);
    }

    method Submit(t: Ref) returns (err: Option<EngineError>)
      requires Inv(Now()) && Enabled(Now(), Step.Submit(t))
      modifies this
      ensures Now() == Next(old(Now()), Step.Submit(t)) && Inv(Now())
      ensures err == if |old(taskQueue)| < queueSize then None else Some(QueueFull)
      ensures err == None ==>
                && taskQueue == old(taskQueue) + [t] && clientTasks == old(clientTasks) - multiset{t}
                && t in tasks && accepted == old(accepted) + [tasks[t].id]
                && tasks == old(tasks) && workers == old(workers) && resultQueue == old(resultQueue)
      ensures err != None ==> Now() == old(Now())
    {
      UnseenInClient(Now(), t);
      InvAfter(Now(), Step.Submit(t));
      SubmitExactly(Now(), t);
      hide Inv, Next, Enabled;
      if |taskQueue| < queueSize {
        accepted := accepted + [tasks[t].id];
        clientTasks := clientTasks - multiset{t};
        taskQueue := taskQueue + [t];
        err := None;
      } else {
        err := Some(QueueFull);
      }
    }

    /** The worker's `select` picks the task queue. */
    method TakeTask(i: nat) returns (t: Ref)
      requires Inv(Now()) && Enabled(Now(), Take(i))
      modifies this
      ensures Now() == Next(old(Now()), Take(i)) && Inv(Now()) && t in tasks
      ensures old(taskQueue) == [t] + taskQueue && workers == old(workers)[i := Running(t)]
      ensures tasks == old(tasks) && resultQueue == old(resultQueue)
    {
      InvAfter(Now(), Take(i));
      TakeStep(Now(), i);
      WorkersTaskExists(Next(Now(), Take(i)), i);
      hide Inv, Next, Enabled;
      t := taskQueue[0];
      taskQueue := taskQueue[1..];
      workers := workers[i := Running(t)];
    }

    /** `executeEphemeral` has returned; its outcome goes into a recycled or new result. */
    method FinishTask(i: nat, output: string, duration: nat, error: Option<string>) returns (r: Ref)
      requires Inv(Now()) && i < |workers| && workers[i].Running?
      modifies this
      ensures Enabled(old(Now()), Finish(i, r, output, duration, error))
      ensures Now() == Next(old(Now()), Finish(i, r, output, duration, error)) && Inv(Now())
      ensures var t := old(workers[i].task);
              && t in old(tasks)
              && results == old(results)[r := TaskResult(old(tasks)[t].id, output, duration, error)]
              && workers == old(workers)[i := Sending(t, r)]
    {
      WorkersTaskExists(Now(), i);
      hide Inv, Next, Enabled;
      var t := workers[i].task;
      r := FromPool(resultPool, results.Keys);
      FinishStep(Now(), Finish(i, r, output, duration, error));
      InvAfter(Now(), Finish(i, r, output, duration, error));
      resultPool := resultPool - multiset{r};
      results := results[r := TaskResult(tasks[t].id, output, duration, error)];
      workers := workers[i := Sending(t, r)];
    }

    method SendResult(i: nat)
      requires Inv(Now()) && Enabled(Now(), Send(i))
      modifies this
      ensures Now() == Next(old(Now()), Send(i)) && Inv(Now())
      ensures resultQueue == old(resultQueue) + [old(workers[i].result)]
      ensures workers == old(workers)[i := Recycling(old(workers[i].task))]
    {
      InvAfter(Now(), Send(i));
      hide Inv;
      resultQueue := resultQueue + [workers[i].result];
      workers := workers[i := Recycling(workers[i].task)];
    }

    /** The task goes back into the pool without its texts; its creation time stays. */
    method RecycleTask(i: nat)
      requires Inv(Now()) && Enabled(Now(), Recycle(i))
      modifies this
      ensures Now() == Next(old(Now()), Recycle(i)) && Inv(Now())
      ensures var t := old(workers[i].task);
              && t in taskPool && t in old(tasks)
              && tasks == old(tasks)[t := Task("", "", "", old(tasks)[t].createdAt)]
              && workers == old(workers)[i := Idle]
    {
      InvAfter(Now(), Recycle(i));
      WorkersTaskExists(Now(), i);
      RecycleStep(Now(), i);
      hide Inv, Next, Enabled;
      var t := workers[i].task;
      tasks := tasks[t := tasks[t].(id := "", system := "", input := "")];
      taskPool := taskPool + multiset{t};
      workers := workers[i := Idle];
    }

    /** The worker's `select` picks the closed quit channel. */
    method QuitWorker(i: nat)
      requires Inv(Now()) && Enabled(Now(), Quit(i))
      modifies this
      ensures Now() == Next(old(Now()), Quit(i)) && Inv(Now()) && workers == old(workers)[i := Exited]
    {
      InvAfter(Now(), Quit(i));
      hide Inv;
      workers := workers[i := Exited];
    }

    /** A receive from `Results()`. */
    method ConsumeResult() returns (r: Ref)
      requires Inv(Now()) && Enabled(Now(), Consume)
      modifies this
      ensures Now() == Next(old(Now()), Consume) && Inv(Now())
      ensures old(resultQueue) == [r] + resultQueue && results == old(results)
    {
      InvAfter(Now(), Consume);
      ConsumeStep(Now());
      hide Inv, Next, Enabled, ResultAt;
      r := resultQueue[0];
      consumed := consumed + [ResultAt(Now(), r).taskId];
      clientResults := clientResults + multiset{r};
      resultQueue := resultQueue[1..];
    }

    method RecycleResult(r: Ref)
      requires Inv(Now()) && Enabled(Now(), Step.RecycleResult(r))
      modifies this
      ensures Now() == Next(old(Now()), Step.RecycleResult(r)) && Inv(Now())
      ensures r in resultPool && results == old(results)[r := TaskResult("", "", 0, None)]
    {
      InvAfter(Now(), Step.RecycleResult(r));
      RecycleResultStep(Now(), r);
      hide Inv, Next, Enabled;
      results := results[r := BLANK_RESULT];
      resultPool := resultPool + multiset{r};
      clientResults := clientResults - multiset{r};
    }

    /** `Stop`, up to the wait for the workers. */
    method StopBegin()
      requires Inv(Now()) && Enabled(Now(), CloseQuit)
      modifies this`phase
      ensures Now() == Next(old(Now()), CloseQuit) && Inv(Now()) && phase == QuitClosed
    {
      InvAfter(Now(), CloseQuit);
      hide Inv;
      phase := QuitClosed;
    }

    /** `Stop`, once the last worker is done. */
    method StopEnd()
      requires Inv(Now()) && Enabled(Now(), CloseTasks)
      modifies this`phase
      ensures Now() == Next(Next(old(Now()), CloseTasks), CloseResults) && Inv(Now())
      ensures phase == AllClosed && forall i :: 0 <= i < |workers| ==> workers[i] == Exited
    {
      InvAfter(Now(), CloseTasks);
      InvAfter(Next(Now(), CloseTasks), CloseResults);
      hide Inv;
      phase := TasksClosed;
      phase := AllClosed;
    }
  }

  /** `sync.Pool.Get`: some pooled object or a new one, as the pool sees fit. */
  method FromPool(pool: multiset<Ref>, taken: set<Ref>) returns (r: Ref)
    ensures r in pool || r !in taken
  {
    var reuse: bool := *;
    if reuse && pool != multiset{} {
      r :| r in pool;
    } else {
      r := NewRef(taken);
    }
  }

  /** The address of a new object. */
  method NewRef(taken: set<Ref>) returns (r: Ref)
    ensures r !in taken
  {
    r := 0;
    var rest := taken;
    while rest != {}
      invariant forall x :: x in taken && x !in rest ==> x < r
      decreases |rest|
    {
      var x :| x in rest;
      rest := rest - {x};
      r := if r > x then r else x + 1;
    }
  }
}
