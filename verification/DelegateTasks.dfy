/**
 The task queue between client threads and one worker, as atomic steps.

 Clients post tasks under a lock and write one record each to a pipe; the worker pops up
 to ten tasks, handles them, and reads that many records. A synchronous client waits on
 a promise with a timeout, marks its task as waited for, and looks whether it was
 running. `Apply` is one atomic step of any thread; an action that its thread cannot
 take now changes nothing. Tasks are named by the order of their posting.
 */
module DelegateTaskProtocol {
  import opened Basics

  const MAX_TASKS_LIMIT := 1000
  const ONCE_PROCESS_TASK_LIMIT := 10
  const UINT64_RANGE: int := 0x1_0000_0000_0000_0000

  datatype SyncResult = Value(value: int32) | TimeoutButRunning | Timeout

  /** Where the client that posted a task is. */
  datatype Client = Async | Waiting | SawReady | SawTimeout | WaitedReady | WaitedTimeout | Returned(result: SyncResult)

  /**
   A posted task. `waited`, `running` and `promise` are its shared fields; `firstCheck`,
   `runs` and `returned` record what the worker did: whether its first look found the
   task waited for, how often it ran the callback, and what the callback returned.
   */
  datatype Task = Task(
    id: nat,
    client: Client,
    waited: bool,
    running: bool,
    promise: Option<int32>,
    firstCheck: Option<bool>,
    runs: nat,
    returned: Option<int32>)

  /** What the worker does next; all but the first and last are about the head of the batch. */
  datatype Worker = Idle | FirstCheck | MarkRunning | RunCallback | SecondCheck | SetPromise | ReadPipe

  datatype State = State(
    tasks: seq<Task>,
    queue: seq<nat>,
    batch: seq<nat>,
    handled: seq<nat>,
    popped: nat,
    worker: Worker,
    lastId: nat,
    unread: nat)

  const INITIAL := State([], [], [], [], 0, Idle, 0, 0)

  datatype Action =
    | Post(sync: bool, written: bool)
    | Pop(locked: bool)
    | Work(result: int32)
    | Read(ok: bool)
    | EndWait(task: nat)
    | SetWaited(task: nat)
    | Return(task: nat)

  function Min(a: nat, b: nat): nat {
    if a <= b then a else b
  }

  function NextId(id: nat): nat {
    (id + 1) % UINT64_RANGE
  }

  predicate QueueFull(queue: seq<nat>) {
    |queue| > MAX_TASKS_LIMIT
  }

  /** How many tasks one look at the queue takes. */
  function TakeCount(queue: seq<nat>): nat {
    Min(|queue|, ONCE_PROCESS_TASK_LIMIT)
  }

  function NewTask(id: nat, sync: bool): Task {
    Task(id, if sync then Waiting else Async, false, false, None, None, 0, None)
  }

  /** The worker is through with the head of its batch. */
  function Finished(s: State): State
    requires s.batch != []
  {
    s.(handled := s.handled + [s.batch[0]],
       batch := s.batch[1..],
       worker := if |s.batch| == 1 then ReadPipe else FirstCheck)
  }

  function WithTask(s: State, k: nat, task: Task): State
    requires k < |s.tasks|
  {
    s.(tasks := s.tasks[k := task])
  }

  predicate Busy(s: State) {
    s.worker != Idle && s.worker != ReadPipe && s.batch != [] && s.batch[0] < |s.tasks|
  }

  /** One step of the worker on the head of its batch; `result` is what the callback returns if it runs. */
  function Worked(s: State, result: int32): State
    requires Busy(s)
  {
    var k := s.batch[0];
    var task := s.tasks[k];
    match s.worker
    case FirstCheck =>
      var seen := WithTask(s, k, task.(firstCheck := Some(task.waited)));
      if task.waited then Finished(seen) else seen.(worker := MarkRunning)
    case MarkRunning =>
      WithTask(s, k, task.(running := true)).(worker := RunCallback)
    case RunCallback =>
      WithTask(s, k, task.(runs := task.runs + 1, returned := Some(result))).(worker := SecondCheck)
    case SecondCheck =>
      if !task.waited && task.client != Async then s.(worker := SetPromise) else Finished(s)
    case SetPromise =>
      Finished(WithTask(s, k, task.(promise := task.returned)))
  }

  function Posted(s: State, sync: bool, written: bool): State {
    if QueueFull(s.queue) then s
    else
      var id := NextId(s.lastId);
      if !written then s.(lastId := id)
      else
        s.(lastId := id, unread := s.unread + 1, queue := s.queue + [|s.tasks|], tasks := s.tasks + [NewTask(id, sync)])
  }

  function Popped(s: State, locked: bool): State {
    if s.worker != Idle || !locked || s.queue == [] then s
    else
      var n := TakeCount(s.queue);
      s.(batch := s.queue[..n], queue := s.queue[n..], popped := n, worker := FirstCheck)
  }

  function Drained(s: State, ok: bool): State {
    if s.worker != ReadPipe then s
    else s.(worker := Idle, unread := if ok then s.unread - Min(s.popped, s.unread) else s.unread)
  }

  function ClientStepped(s: State, action: Action): State
    requires action.EndWait? || action.SetWaited? || action.Return?
  {
    var k := action.task;
    if k >= |s.tasks| then s
    else
      var task := s.tasks[k];
      match action
      case EndWait(_) =>
        if task.client != Waiting then s
        else WithTask(s, k, task.(client := if task.promise.Some? then SawReady else SawTimeout))
      case SetWaited(_) =>
        if task.client == SawReady then WithTask(s, k, task.(client := WaitedReady, waited := true))
        else if task.client == SawTimeout then WithTask(s, k, task.(client := WaitedTimeout, waited := true))
        else s
      case Return(_) =>
        if task.client == WaitedReady && task.promise.Some? then
          WithTask(s, k, task.(client := Returned(Value(task.promise.value))))
        else if task.client == WaitedTimeout then
          WithTask(s, k, task.(client := Returned(if task.running then TimeoutButRunning else Timeout)))
        else s
  }

  function Apply(s: State, action: Action): State {
    match action
    case Post(sync, written) => Posted(s, sync, written)
    case Pop(locked) => Popped(s, locked)
    case Work(result) => if Busy(s) then Worked(s, result) else s
    case Read(ok) => Drained(s, ok)
    case _ => ClientStepped(s, action)
  }

  function Run(actions: seq<Action>): State {
    if actions == [] then INITIAL else Apply(Run(actions[..|actions| - 1]), actions[|actions| - 1])
  }

  // ----- The queue -----

  function Upto(n: nat): seq<nat> {
    seq(n, i requires 0 <= i => i)
  }

  /** Records written for tasks popped but whose records the worker has still to read. */
  function InFlight(s: State): nat {
    if s.worker == Idle then 0 else s.popped
  }

  ghost predicate QueueInvariant(s: State) {
    && s.handled + s.batch + s.queue == Upto(|s.tasks|)
    && |s.queue| <= MAX_TASKS_LIMIT + 1
    && |s.batch| <= s.popped <= ONCE_PROCESS_TASK_LIMIT
    && (s.batch == [] <==> s.worker == Idle || s.worker == ReadPipe)
    && s.unread >= |s.queue| + InFlight(s)
  }

  lemma UptoSnoc(n: nat)
    ensures Upto(n + 1) == Upto(n) + [n]
  {
  }

  lemma BatchHead(s: State)
    requires QueueInvariant(s) && s.batch != []
    ensures s.batch[0] == |s.handled| && s.batch[0] < |s.tasks|
  {
    assert (s.handled + s.batch + s.queue)[|s.handled|] == s.batch[0];
  }

  lemma PostKeepsQueue(s: State, sync: bool, written: bool)
    requires QueueInvariant(s)
    ensures QueueInvariant(Posted(s, sync, written))
  {
    UptoSnoc(|s.tasks|);
    assert s.handled + s.batch + (s.queue + [|s.tasks|]) == s.handled + s.batch + s.queue + [|s.tasks|];
  }

  lemma PopKeepsQueue(s: State, locked: bool)
    requires QueueInvariant(s)
    ensures QueueInvariant(Popped(s, locked))
  {
    var n := TakeCount(s.queue);
    assert s.queue[..n] + s.queue[n..] == s.queue;
    assert s.worker == Idle ==> s.handled + s.queue[..n] + s.queue[n..] == s.handled + s.batch + s.queue;
  }

  lemma WorkKeepsQueue(s: State, result: int32)
    requires QueueInvariant(s) && Busy(s)
    ensures QueueInvariant(Worked(s, result))
  {
    BatchHead(s);
    assert s.handled + [s.batch[0]] + s.batch[1..] == s.handled + s.batch;
  }

  lemma ApplyKeepsQueue(s: State, action: Action)
    requires QueueInvariant(s)
    ensures QueueInvariant(Apply(s, action))
  {
    match action {
    case Post(sync, written) => PostKeepsQueue(s, sync, written);
    case Pop(locked) => PopKeepsQueue(s, locked);
    case Work(result) =>
      if Busy(s) {
        WorkKeepsQueue(s, result);
      }
    case Read(_) =>
    case _ =>
    }
  }

  // ----- The tasks -----

  ghost predicate Untouched(task: Task) {
    task.firstCheck == None && !task.running && task.runs == 0 && task.returned == None && task.promise == None
  }

  /** The head of the batch, by what the worker does next to it. */
  ghost predicate InHand(task: Task, worker: Worker) {
    match worker
    case FirstCheck => Untouched(task)
    case MarkRunning => Untouched(task.(firstCheck := None)) && task.firstCheck == Some(false)
    case RunCallback =>
      task.firstCheck == Some(false) && task.running && task.runs == 0 && task.returned == None && task.promise == None
    case _ =>
      && task.firstCheck == Some(false) && task.running && task.runs == 1 && task.returned.Some? && task.promise == None
      && (worker == SetPromise ==> task.client != Async)
  }

  ghost predicate Discarded(task: Task) {
    Untouched(task.(firstCheck := None)) && task.firstCheck == Some(true) && task.waited
  }

  ghost predicate Executed(task: Task) {
    && task.firstCheck == Some(false) && task.running && task.runs == 1 && task.returned.Some?
    && (task.promise == None || task.promise == task.returned)
    && (task.promise == None ==> task.waited || task.client == Async)
  }

  ghost predicate ClientSound(task: Task) {
    && (task.waited <==> task.client.WaitedReady? || task.client.WaitedTimeout? || task.client.Returned?)
    && (task.client == SawReady || task.client == WaitedReady ==> task.promise.Some?)
    && (task.client.Returned? && task.client.result.Value? ==> task.promise == Some(task.client.result.value))
    && (task.client == Returned(TimeoutButRunning) ==> task.running)
    && (task.client == Async ==> task.promise == None)
  }

  ghost predicate TaskSound(s: State, k: nat)
    requires k < |s.tasks|
  {
    && ClientSound(s.tasks[k])
    && if k < |s.handled| then Discarded(s.tasks[k]) || Executed(s.tasks[k])
       else if k == |s.handled| && s.batch != [] then InHand(s.tasks[k], s.worker)
       else Untouched(s.tasks[k])
  }

  ghost predicate Sound(s: State) {
    && QueueInvariant(s)
    && s.lastId < UINT64_RANGE
    && forall k :: 0 <= k < |s.tasks| ==> TaskSound(s, k)
  }

  lemma WorkedKeepsTask(s: State, result: int32, k: nat)
    requires QueueInvariant(s) && Busy(s) && k < |s.tasks| && TaskSound(s, k)
    requires TaskSound(s, s.batch[0])
    ensures TaskSound(Worked(s, result), k)
  {
    BatchHead(s);
    if k != s.batch[0] {
      assert Worked(s, result).tasks[k] == s.tasks[k];
    }
  }

  lemma PostedKeepsTask(s: State, sync: bool, written: bool, k: nat)
    requires QueueInvariant(s) && k < |Posted(s, sync, written).tasks| && (k < |s.tasks| ==> TaskSound(s, k))
    ensures TaskSound(Posted(s, sync, written), k)
  {
    assert |s.handled| + |s.batch| + |s.queue| == |s.tasks|;
  }

  lemma PoppedKeepsTask(s: State, locked: bool, k: nat)
    requires QueueInvariant(s) && k < |s.tasks| && TaskSound(s, k)
    ensures TaskSound(Popped(s, locked), k)
  {
  }

  lemma ClientKeepsTask(s: State, action: Action, k: nat)
    requires action.EndWait? || action.SetWaited? || action.Return?
    requires k < |s.tasks| && TaskSound(s, k)
    ensures |ClientStepped(s, action).tasks| == |s.tasks| && TaskSound(ClientStepped(s, action), k)
  {
  }

  lemma ApplyKeepsTask(s: State, action: Action, k: nat)
    requires Sound(s) && k < |Apply(s, action).tasks|
    ensures TaskSound(Apply(s, action), k)
  {
    assert k < |s.tasks| ==> TaskSound(s, k);
    match action
    case Post(sync, written) => PostedKeepsTask(s, sync, written, k);
    case Pop(locked) => PoppedKeepsTask(s, locked, k);
    case Work(result) =>
      if Busy(s) {
        BatchHead(s);
        WorkedKeepsTask(s, result, k);
      }
    case Read(ok) =>
    case _ => ClientKeepsTask(s, action, k);
  }

  lemma ApplyKeepsSound(s: State, action: Action)
    requires Sound(s)
    ensures Sound(Apply(s, action))
  {
    ApplyKeepsQueue(s, action);
    forall k: nat | k < |Apply(s, action).tasks| ensures TaskSound(Apply(s, action), k) {
      ApplyKeepsTask(s, action, k);
    }
    assert Apply(s, action).lastId == s.lastId || Apply(s, action).lastId == NextId(s.lastId);
  }

  /** Every interleaving keeps the queue and every task sound. */
  lemma {:induction false} RunIsSound(actions: seq<Action>)
    ensures Sound(Run(actions))
  {
    if actions == [] {
    } else {
      RunIsSound(actions[..|actions| - 1]);
      ApplyKeepsSound(Run(actions[..|actions| - 1]), actions[|actions| - 1]);
    }
  }

  // ----- Order -----

  /**
   Tasks are handled in the order of posting, each at most once and none lost: what is
   handled, what is popped and what is queued are the posted tasks, in order.
   */
  lemma HandledInOrder(actions: seq<Action>)
    ensures var s := Run(actions);
            && s.handled + s.batch + s.queue == Upto(|s.tasks|)
            && |s.batch| <= ONCE_PROCESS_TASK_LIMIT
            && |s.queue| <= MAX_TASKS_LIMIT + 1
  {
    RunIsSound(actions);
  }

  function Posts(actions: seq<Action>): nat {
    if actions == [] then 0
    else Posts(actions[..|actions| - 1]) + if actions[|actions| - 1].Post? then 1 else 0
  }

  ghost predicate IdsAscend(tasks: seq<Task>) {
    forall i, j :: 0 <= i < j < |tasks| ==> tasks[i].id < tasks[j].id
  }

  ghost predicate IdsBounded(s: State) {
    IdsAscend(s.tasks) && forall i :: 0 <= i < |s.tasks| ==> s.tasks[i].id <= s.lastId
  }

  lemma PostKeepsIds(s: State, sync: bool, written: bool)
    requires IdsBounded(s) && s.lastId + 1 < UINT64_RANGE
    ensures IdsBounded(Posted(s, sync, written)) && Posted(s, sync, written).lastId <= s.lastId + 1
  {
  }

  lemma OtherStepsKeepIds(s: State, action: Action)
    requires !action.Post?
    ensures Apply(s, action).lastId == s.lastId && |Apply(s, action).tasks| == |s.tasks|
    ensures forall i :: 0 <= i < |s.tasks| ==> Apply(s, action).tasks[i].id == s.tasks[i].id
  {
  }

  /** Ids ascend, so handling follows them, until 2^64 posts have been tried and the counter wraps. */
  lemma {:induction false} IdsFollowOrder(actions: seq<Action>)
    requires Posts(actions) < UINT64_RANGE
    ensures IdsBounded(Run(actions)) && Run(actions).lastId <= Posts(actions)
  {
    if actions == [] {
    } else {
      var s := Run(actions[..|actions| - 1]);
      var action := actions[|actions| - 1];
      IdsFollowOrder(actions[..|actions| - 1]);
      if action.Post? {
        PostKeepsIds(s, action.sync, action.written);
      } else {
        OtherStepsKeepIds(s, action);
      }
    }
  }

  // ----- Wakeups -----

  /** The records that failed reads have left in the pipe over a run. */
  function LeftBehind(actions: seq<Action>): nat {
    if actions == [] then 0
    else
      var before, action := actions[..|actions| - 1], actions[|actions| - 1];
      LeftBehind(before) + if action == Read(false) && Run(before).worker == ReadPipe then Run(before).popped else 0
  }

  lemma StepKeepsWakeups(s: State, action: Action, left: nat)
    requires QueueInvariant(s) && s.unread == |s.queue| + InFlight(s) + left
    ensures var after := Apply(s, action);
            after.unread == |after.queue| + InFlight(after) + left
                            + if action == Read(false) && s.worker == ReadPipe then s.popped else 0
  {
  }

  /**
   The pipe holds one record for each queued task, one for each popped task whose record is
   still to be read, and those that failed reads left. So a queued task always leaves the
   read end readable; and with the worker idle and the queue empty the pipe is readable
   exactly when a read has failed.
   */
  lemma {:induction false} WakeupsAreExact(actions: seq<Action>)
    ensures var s := Run(actions); s.unread == |s.queue| + InFlight(s) + LeftBehind(actions)
    ensures Run(actions).queue != [] ==> Run(actions).unread > 0
    ensures Run(actions).worker == Idle && Run(actions).queue == [] ==> (Run(actions).unread > 0 <==> LeftBehind(actions) > 0)
  {
    if actions == [] {
    } else {
      var before := actions[..|actions| - 1];
      WakeupsAreExact(before);
      RunIsSound(before);
      StepKeepsWakeups(Run(before), actions[|actions| - 1], LeftBehind(before));
    }
  }

  lemma RunSnoc(actions: seq<Action>, action: Action)
    ensures Run(actions + [action]) == Apply(Run(actions), action)
    ensures LeftBehind(actions + [action]) >= LeftBehind(actions)
  {
    assert (actions + [action])[..|actions|] == actions;
  }

  /** After one failed read the pipe never runs dry again, whatever follows. */
  lemma {:induction false} FailedReadWakesForever(actions: seq<Action>, more: seq<Action>)
    requires LeftBehind(actions) > 0
    ensures LeftBehind(actions + more) >= LeftBehind(actions)
    ensures Run(actions + more).unread > 0
  {
    if more == [] {
      assert actions + more == actions;
    } else {
      var init, last := more[..|more| - 1], more[|more| - 1];
      FailedReadWakesForever(actions, init);
      assert actions + more == (actions + init) + [last];
      RunSnoc(actions + init, last);
    }
    WakeupsAreExact(actions + more);
  }

  // ----- Results -----

  /** A value a client gets is what its callback returned on its single run. */
  lemma ValuesAreFaithful(actions: seq<Action>, k: nat)
    requires k < |Run(actions).tasks|
    ensures var task := Run(actions).tasks[k];
            && (task.client.Returned? && task.client.result.Value? ==>
                  task.runs == 1 && task.returned == Some(task.client.result.value))
            && (task.client == Returned(TimeoutButRunning) ==> task.firstCheck == Some(false))
            && task.runs <= 1
            && (k in Run(actions).handled ==> (task.runs == 1 <==> task.firstCheck == Some(false)))
  {
    var s := Run(actions);
    RunIsSound(actions);
    assert TaskSound(s, k);
    if k in s.handled {
      var i :| 0 <= i < |s.handled| && s.handled[i] == k;
      assert (s.handled + s.batch + s.queue)[i] == k;
    }
  }

  /**
   A handled task that nobody had given up waiting for was run, and its client, if it has
   one, is left what the callback returned. An asynchronous task is always run.
   */
  lemma HandledTasksDeliver(actions: seq<Action>, k: nat)
    requires k < |Run(actions).handled|
    ensures k < |Run(actions).tasks|
    ensures var task := Run(actions).tasks[k];
            && (task.client == Async ==> !task.waited)
            && (!task.waited ==> task.runs == 1 && task.returned.Some?)
            && (!task.waited && task.client != Async ==> task.promise == task.returned)
  {
    RunIsSound(actions);
    HandledInOrder(actions);
    assert TaskSound(Run(actions), k);
  }

  /** A client still waiting when its task has been handled gets what the callback returned on its one run. */
  lemma ClientGetsItsValue(actions: seq<Action>, k: nat)
    requires k < |Run(actions).handled| && k < |Run(actions).tasks| && Run(actions).tasks[k].client == Waiting
    ensures Run(actions).tasks[k].runs == 1 && Run(actions).tasks[k].returned.Some?
    ensures var told := Run(actions + [EndWait(k)] + [SetWaited(k)] + [Return(k)]);
            && k < |told.tasks|
            && told.tasks[k].client == Returned(Value(Run(actions).tasks[k].returned.value))
  {
    RunIsSound(actions);
    assert TaskSound(Run(actions), k);
    RunSnoc(actions, EndWait(k));
    RunSnoc(actions + [EndWait(k)], SetWaited(k));
    RunSnoc(actions + [EndWait(k)] + [SetWaited(k)], Return(k));
  }

  /** What a client is told when it returns, by whether it saw the promise ready, and if not, by whether the task is running. */
  lemma WhatClientsAreTold(actions: seq<Action>, k: nat)
    requires k < |Run(actions).tasks|
    ensures var before, after := Run(actions).tasks[k], Run(actions + [Return(k)]).tasks;
            && k < |after|
            && (before.client == WaitedReady ==>
                  before.returned.Some? && after[k].client == Returned(Value(before.returned.value)))
            && (before.client == WaitedTimeout ==>
                  after[k].client == Returned(if before.running then TimeoutButRunning else Timeout))
            && (!before.client.WaitedReady? && !before.client.WaitedTimeout? ==> after[k].client == before.client)
  {
    RunIsSound(actions);
    assert TaskSound(Run(actions), k);
    RunSnoc(actions, Return(k));
  }

  /** A wait ends ready exactly if the promise is set by then, and the task is marked as waited for next. */
  lemma HowWaitsEnd(actions: seq<Action>, k: nat)
    requires k < |Run(actions).tasks| && Run(actions).tasks[k].client == Waiting
    ensures var ended := Run(actions + [EndWait(k)]).tasks;
            var marked := Run(actions + [EndWait(k)] + [SetWaited(k)]).tasks;
            && |ended| == |marked| == |Run(actions).tasks|
            && !ended[k].waited && marked[k].waited
            && (Run(actions).tasks[k].promise.Some? ==> ended[k].client == SawReady && marked[k].client == WaitedReady)
            && (Run(actions).tasks[k].promise.None? ==> ended[k].client == SawTimeout && marked[k].client == WaitedTimeout)
  {
    RunIsSound(actions);
    assert TaskSound(Run(actions), k);
    RunSnoc(actions, EndWait(k));
    RunSnoc(actions + [EndWait(k)], SetWaited(k));
  }

  /** The client of a task moves on only by its own steps, in their order; nothing else marks its task as waited for. */
  lemma ClientsStepInOrder(actions: seq<Action>, action: Action, k: nat)
    requires k < |Run(actions).tasks|
    ensures k < |Run(actions + [action]).tasks|
    ensures var before, after := Run(actions).tasks[k], Run(actions + [action]).tasks[k];
            && (after.client != before.client ==>
                  || (action == EndWait(k) && before.client == Waiting)
                  || (action == SetWaited(k) && (before.client == SawReady || before.client == SawTimeout))
                  || (action == Return(k) && (before.client == WaitedReady || before.client == WaitedTimeout)))
            && (after.waited <==> before.waited
                                  || (action == SetWaited(k) && (before.client == SawReady || before.client == SawTimeout)))
  {
    RunIsSound(actions);
    RunSnoc(actions, action);
    ClientStep(Run(actions), action, k);
  }

  lemma WorkKeepsClient(s: State, result: int32, k: nat)
    requires Busy(s) && k < |s.tasks|
    ensures Worked(s, result).tasks[k].client == s.tasks[k].client && Worked(s, result).tasks[k].waited == s.tasks[k].waited
  {
  }

  lemma ClientStep(s: State, action: Action, k: nat)
    requires Sound(s) && k < |s.tasks|
    ensures k < |Apply(s, action).tasks|
    ensures var before, after := s.tasks[k], Apply(s, action).tasks[k];
            && (after.client != before.client ==>
                  || (action == EndWait(k) && before.client == Waiting)
                  || (action == SetWaited(k) && (before.client == SawReady || before.client == SawTimeout))
                  || (action == Return(k) && (before.client == WaitedReady || before.client == WaitedTimeout)))
            && (after.waited <==> before.waited
                                  || (action == SetWaited(k) && (before.client == SawReady || before.client == SawTimeout)))
  {
    if action.Work? && Busy(s) {
      WorkKeepsClient(s, action.result, k);
    }
  }

  /** The step after which a callback has run, with the result of the step, is what it returned. */
  ghost predicate RanAt(actions: seq<Action>, i: nat, k: nat, result: int32)
    requires i < |actions|
  {
    && k < |Run(actions[..i]).tasks| && Run(actions[..i]).tasks[k].runs == 0
    && k < |Run(actions[..i + 1]).tasks| && Run(actions[..i + 1]).tasks[k].runs == 1
    && actions[i] == Work(result)
  }

  lemma ReturnedByStep(s: State, action: Action, k: nat)
    requires Sound(s) && k < |s.tasks|
    ensures k < |Apply(s, action).tasks|
    ensures var before, after := s.tasks[k], Apply(s, action).tasks[k];
            && ((after.returned == before.returned && after.runs == before.runs)
                || (action.Work? && before.runs == 0 && after.runs == 1 && after.returned == Some(action.result)))
  {
    assert TaskSound(s, k);
    if s.batch != [] {
      BatchHead(s);
    }
  }

  lemma {:induction false} ReturnedWhenRun(actions: seq<Action>, k: nat, n: nat)
    requires n <= |actions| && k < |Run(actions[..n]).tasks|
    ensures forall result :: Run(actions[..n]).tasks[k].returned == Some(result)
                         ==> exists i: nat :: i < n && RanAt(actions, i, k, result)
  {
    if n > 0 {
      var before := Run(actions[..n - 1]);
      assert actions[..n] == actions[..n - 1] + [actions[n - 1]];
      RunSnoc(actions[..n - 1], actions[n - 1]);
      RunIsSound(actions[..n - 1]);
      if k < |before.tasks| {
        ReturnedWhenRun(actions, k, n - 1);
        ReturnedByStep(before, actions[n - 1], k);
        forall result | Run(actions[..n]).tasks[k].returned == Some(result)
          ensures exists i: nat :: i < n && RanAt(actions, i, k, result)
        {
          if before.tasks[k].returned != Some(result) {
            assert RanAt(actions, n - 1, k, result);
          }
        }
      } else {
        NewTasksAreUntouched(actions[..n - 1], actions[n - 1], k);
      }
    }
  }

  lemma NewTasksAreUntouched(actions: seq<Action>, action: Action, k: nat)
    requires |Run(actions).tasks| <= k < |Run(actions + [action]).tasks|
    ensures action.Post? && Run(actions + [action]).tasks[k].returned == None
    ensures Run(actions + [action]).tasks[k].client == if action.sync then Waiting else Async
  {
    RunSnoc(actions, action);
    RunIsSound(actions);
    OnlyPostsAdd(Run(actions), action);
  }

  lemma OnlyPostsAdd(s: State, action: Action)
    ensures !action.Post? ==> |Apply(s, action).tasks| == |s.tasks|
  {
  }

  /** What a callback returned is the result of the step that ran it. */
  lemma ReturnedIsItsResult(actions: seq<Action>, k: nat, result: int32)
    requires k < |Run(actions).tasks| && Run(actions).tasks[k].returned == Some(result)
    ensures exists i: nat :: i < |actions| && RanAt(actions, i, k, result)
  {
    assert actions[..|actions|] == actions;
    ReturnedWhenRun(actions, k, |actions|);
  }

  // ----- Posting, popping and progress -----

  /** What a post makes of a state: it is taken exactly if at most a thousand tasks are queued and the pipe takes its record. */
  ghost predicate PostTaken(before: State, after: State, sync: bool, written: bool) {
    && (|before.queue| <= 1000 && written ==>
          && after.queue == before.queue + [|before.tasks|]
          && |after.tasks| == |before.tasks| + 1 && after.tasks[..|before.tasks|] == before.tasks
          && after.tasks[|before.tasks|].client == if sync then Waiting else Async)
    && (!(|before.queue| <= 1000 && written) ==> after.tasks == before.tasks && after.queue == before.queue)
    && after.lastId == if |before.queue| <= 1000 then (before.lastId + 1) % 0x1_0000_0000_0000_0000 else before.lastId
  }

  lemma PostStep(s: State, sync: bool, written: bool)
    ensures PostTaken(s, Apply(s, Post(sync, written)), sync, written)
  {
  }

  /** The id is used up even if the pipe refuses. */
  lemma WhichPostsAreTaken(actions: seq<Action>, sync: bool, written: bool)
    ensures PostTaken(Run(actions), Run(actions + [Post(sync, written)]), sync, written)
  {
    RunSnoc(actions, Post(sync, written));
    PostStep(Run(actions), sync, written);
  }

  /** An idle worker that gets the lock takes the first ten tasks, or all if there are fewer. */
  lemma WhatIsPopped(actions: seq<Action>)
    requires Run(actions).worker == Idle
    ensures var before, after := Run(actions), Run(actions + [Pop(true)]);
            && after.batch + after.queue == before.queue
            && |after.batch| == if |before.queue| <= 10 then |before.queue| else 10
    ensures Run(actions + [Pop(false)]) == Run(actions)
  {
    RunIsSound(actions);
    RunSnoc(actions, Pop(true));
    RunSnoc(actions, Pop(false));
  }

  function Works(n: nat): seq<Action> {
    seq(n, _ => Work(0))
  }

  function Remaining(worker: Worker): nat {
    match worker
    case FirstCheck => 5
    case MarkRunning => 4
    case RunCallback => 3
    case SecondCheck => 2
    case SetPromise => 1
    case _ => 0
  }

  lemma WorkAdvances(s: State)
    requires QueueInvariant(s) && s.batch != []
    ensures var after := Apply(s, Work(0));
            || (after.handled == s.handled + [s.batch[0]] && after.batch == s.batch[1..])
            || (after.handled == s.handled && after.batch == s.batch && Remaining(after.worker) < Remaining(s.worker))
  {
    BatchHead(s);
  }

  /** The worker handles the head of its batch within as many of its steps as it has still to take, five at most. */
  lemma {:induction false} HeadIsHandled(actions: seq<Action>, fuel: nat)
    requires Run(actions).batch != [] && Remaining(Run(actions).worker) <= fuel
    ensures exists m: nat :: m <= fuel && HandledAfter(actions, m)
    decreases fuel
  {
    var s := Run(actions);
    RunIsSound(actions);
    RunSnoc(actions, Work(0));
    WorkAdvances(s);
    if Apply(s, Work(0)).handled == s.handled + [s.batch[0]] {
      assert Works(1) == [Work(0)];
      assert HandledAfter(actions, 1);
    } else {
      HeadIsHandled(actions + [Work(0)], fuel - 1);
      var m: nat :| m <= fuel - 1 && HandledAfter(actions + [Work(0)], m);
      assert actions + [Work(0)] + Works(m) == actions + Works(m + 1);
      assert HandledAfter(actions, m + 1);
    }
  }

  ghost predicate HandledAfter(actions: seq<Action>, m: nat) {
    && Run(actions).batch != []
    && Run(actions + Works(m)).handled == Run(actions).handled + [Run(actions).batch[0]]
    && Run(actions + Works(m)).batch == Run(actions).batch[1..]
  }

  /** Whatever the other threads have done, a popped task is handled within five steps of the worker. */
  lemma WorkerFinishes(actions: seq<Action>)
    requires Run(actions).batch != []
    ensures exists m: nat :: m <= 5 && HandledAfter(actions, m)
  {
    HeadIsHandled(actions, 5);
  }

  // ----- Set once -----

  ghost predicate SettingPromise(s: State, k: nat) {
    s.worker == SetPromise && s.batch != [] && s.batch[0] == k
  }

  /** The worker sets a promise only while it is unset, and no step changes it afterwards. */
  lemma PromiseSetOnce(actions: seq<Action>, action: Action, k: nat)
    requires k < |Run(actions).tasks|
    ensures k < |Run(actions + [action]).tasks|
    ensures SettingPromise(Run(actions), k) ==> Run(actions).tasks[k].promise == None
    ensures Run(actions).tasks[k].promise.Some? ==>
              Run(actions + [action]).tasks[k].promise == Run(actions).tasks[k].promise
  {
    RunSnoc(actions, action);
    RunIsSound(actions);
    PromiseStep(Run(actions), action, k);
  }

  lemma PromiseWorked(s: State, result: int32, k: nat)
    requires QueueInvariant(s) && Busy(s) && k < |s.tasks| && TaskSound(s, k)
    ensures s.tasks[k].promise.Some? ==> Worked(s, result).tasks[k].promise == s.tasks[k].promise
  {
    BatchHead(s);
  }

  lemma PromiseStep(s: State, action: Action, k: nat)
    requires Sound(s) && k < |s.tasks|
    ensures k < |Apply(s, action).tasks|
    ensures SettingPromise(s, k) ==> s.tasks[k].promise == None
    ensures s.tasks[k].promise.Some? ==> Apply(s, action).tasks[k].promise == s.tasks[k].promise
  {
    assert TaskSound(s, k);
    if s.batch != [] {
      BatchHead(s);
    }
    if action.Work? && Busy(s) {
      PromiseWorked(s, action.result, k);
    }
  }

  /** Marked as waited for before the worker first looked at it. */
  ghost predicate Doomed(task: Task) {
    task.waited && task.runs == 0 && (task.firstCheck == None || task.firstCheck == Some(true))
  }

  lemma DoomedStays(s: State, action: Action, k: nat)
    requires Sound(s) && k < |s.tasks| && Doomed(s.tasks[k])
    ensures k < |Apply(s, action).tasks| && Doomed(Apply(s, action).tasks[k])
  {
    assert TaskSound(s, k);
    if s.batch != [] {
      BatchHead(s);
    }
  }

  /** A task marked as waited for before the worker's first look never runs. */
  lemma {:induction false} DoomedNeverRuns(actions: seq<Action>, k: nat, more: seq<Action>)
    requires k < |Run(actions).tasks| && Doomed(Run(actions).tasks[k])
    ensures k < |Run(actions + more).tasks| && Doomed(Run(actions + more).tasks[k])
  {
    if more == [] {
      assert actions + more == actions;
    } else {
      var init, last := more[..|more| - 1], more[|more| - 1];
      DoomedNeverRuns(actions, k, init);
      assert actions + more == (actions + init) + [last];
      RunSnoc(actions + init, last);
      RunIsSound(actions + init);
      DoomedStays(Run(actions + init), last, k);
    }
  }

  /** The client is about to answer that the wait timed out and the task was not running. */
  ghost predicate AboutToTimeOut(s: State, k: nat) {
    k < |s.tasks| && s.tasks[k].client == WaitedTimeout && !s.tasks[k].running
  }

  /** The client has answered that the wait timed out and the task was not running. */
  ghost predicate ToldTimeout(s: State, k: nat) {
    k < |s.tasks| && s.tasks[k].client == Returned(Timeout)
  }

  /** The worker has looked at the task but not yet marked it as running. */
  ghost predicate Racing(s: State, k: nat) {
    s.worker == MarkRunning && s.batch != [] && s.batch[0] == k
  }

  ghost predicate RunsIn(actions: seq<Action>, k: nat) {
    k < |Run(actions).tasks| && Run(actions).tasks[k].runs > 0
  }

  lemma NeverDiscardedRuns(actions: seq<Action>, k: nat)
    requires k < |Run(actions).tasks|
    requires Run(actions).tasks[k].firstCheck == None || Run(actions).tasks[k].firstCheck == Some(true)
    requires Run(actions).tasks[k].waited
    ensures forall more :: !RunsIn(actions + more, k)
  {
    RunIsSound(actions);
    assert TaskSound(Run(actions), k);
    if Run(actions).batch != [] {
      BatchHead(Run(actions));
    }
    forall more ensures !RunsIn(actions + more, k) {
      DoomedNeverRuns(actions, k, more);
    }
  }

  /** The worker that has passed its first look at a task runs it within two of its steps. */
  lemma PassedTaskRuns(actions: seq<Action>, k: nat)
    requires k < |Run(actions).tasks| && Run(actions).tasks[k].firstCheck == Some(false)
    ensures RunsIn(actions, k) || RunsIn(actions + [Work(0)], k) || RunsIn(actions + [Work(0)] + [Work(0)], k)
  {
    var s := Run(actions);
    RunIsSound(actions);
    assert TaskSound(s, k);
    if s.tasks[k].runs == 0 {
      RunSnoc(actions, Work(0));
      RunSnoc(actions + [Work(0)], Work(0));
      TwoStepsRun(s, k);
    }
  }

  lemma TwoStepsRun(s: State, k: nat)
    requires QueueInvariant(s) && k < |s.tasks| && TaskSound(s, k)
    requires s.tasks[k].firstCheck == Some(false) && s.tasks[k].runs == 0
    ensures var once := Apply(s, Work(0));
            var twice := Apply(once, Work(0));
            && |once.tasks| == |twice.tasks| == |s.tasks|
            && (once.tasks[k].runs > 0 || twice.tasks[k].runs > 0)
  {
    BatchHead(s);
  }

  /**
   A plain timeout does not mean that the callback will not run. For a client that was told
   so, it never runs exactly when the worker's first look had not let the task pass.
   */
  lemma TimeoutIsFinalUnlessPassed(actions: seq<Action>, k: nat)
    requires ToldTimeout(Run(actions), k)
    ensures (forall more :: !RunsIn(actions + more, k)) <==> Run(actions).tasks[k].firstCheck != Some(false)
  {
    RunIsSound(actions);
    assert TaskSound(Run(actions), k);
    if Run(actions).tasks[k].firstCheck == Some(false) {
      PassedTaskRuns(actions, k);
      assert actions + [] == actions && actions + [Work(0)] + [Work(0)] == actions + [Work(0), Work(0)];
      assert RunsIn(actions + [], k) || RunsIn(actions + [Work(0)], k) || RunsIn(actions + [Work(0), Work(0)], k);
    } else {
      NeverDiscardedRuns(actions, k);
    }
  }

  lemma TellingTimeout(actions: seq<Action>, k: nat)
    requires AboutToTimeOut(Run(actions), k)
    ensures ToldTimeout(Run(actions + [Return(k)]), k)
    ensures Run(actions + [Return(k)]).tasks[k].firstCheck == Run(actions).tasks[k].firstCheck
    ensures Run(actions).tasks[k].firstCheck == Some(false) <==> Racing(Run(actions), k)
  {
    RunSnoc(actions, Return(k));
    RunIsSound(actions);
    assert TaskSound(Run(actions), k);
    if Run(actions).batch != [] {
      BatchHead(Run(actions));
    }
  }

  /** At the moment of telling: it never runs exactly when the worker is not just between its first look and marking the task as running. */
  lemma TimeoutIsFinalUnlessRacing(actions: seq<Action>, k: nat)
    requires AboutToTimeOut(Run(actions), k)
    ensures var told := actions + [Return(k)];
            && ToldTimeout(Run(told), k)
            && ((forall more :: !RunsIn(told + more, k)) <==> !Racing(Run(actions), k))
  {
    TellingTimeout(actions, k);
    TimeoutIsFinalUnlessPassed(actions + [Return(k)], k);
  }

  lemma RacingTaskRuns(actions: seq<Action>, k: nat)
    requires AboutToTimeOut(Run(actions), k) && Racing(Run(actions), k)
    ensures var after := Run(actions + [Return(k), Work(0), Work(0)]);
            ToldTimeout(after, k) && after.tasks[k].runs == 1
  {
    var told := actions + [Return(k)];
    RunIsSound(actions);
    assert TaskSound(Run(actions), k);
    BatchHead(Run(actions));
    RunSnoc(actions, Return(k));
    RunSnoc(told, Work(0));
    RunSnoc(told + [Work(0)], Work(0));
    assert told + [Work(0)] + [Work(0)] == actions + [Return(k), Work(0), Work(0)];
  }

  lemma RaceIsReached()
    ensures var actions := [Post(true, true), Pop(true), Work(0), EndWait(0), SetWaited(0)];
            AboutToTimeOut(Run(actions), 0) && Racing(Run(actions), 0)
  {
    var a1: seq<Action> := [Post(true, true)];
    var a2, a3 := a1 + [Pop(true)], a1 + [Pop(true)] + [Work(0)];
    var a4 := a3 + [EndWait(0)];
    assert a1[..0] == [];
    RunSnoc(a1, Pop(true));
    RunSnoc(a2, Work(0));
    RunSnoc(a3, EndWait(0));
    RunSnoc(a4, SetWaited(0));
    assert Run(a3).worker == MarkRunning && Run(a3).batch == [0];
    assert a4 + [SetWaited(0)] == [Post(true, true), Pop(true), Work(0), EndWait(0), SetWaited(0)];
  }

  /** It does happen: the client times out just after the worker's first look, is told so, and then the callback runs. */
  lemma TimeoutRaceHappens()
    ensures var actions := [Post(true, true), Pop(true), Work(0), EndWait(0), SetWaited(0), Return(0), Work(0), Work(0)];
            ToldTimeout(Run(actions), 0) && Run(actions).tasks[0].runs == 1
  {
    var actions := [Post(true, true), Pop(true), Work(0), EndWait(0), SetWaited(0)];
    RaceIsReached();
    RacingTaskRuns(actions, 0);
    assert actions + [Return(0), Work(0), Work(0)]
        == [Post(true, true), Pop(true), Work(0), EndWait(0), SetWaited(0), Return(0), Work(0), Work(0)];
  }
}

/** The queue, its lock-protected operations and the pipe, as the service keeps them. */
module DelegateTaskQueue {
  import opened Basics
  import P = DelegateTaskProtocol

  class DelegateTasks {
    var tasks: seq<nat>
    var id: nat
    var taskCount: nat
    var unread: nat

    /** The state of the protocol agrees with these fields. */
    ghost predicate Shows(s: P.State)
      reads this
    {
      tasks == s.queue && id == s.lastId && taskCount == |s.tasks| && unread == s.unread
    }

    constructor ()
      ensures Shows(P.INITIAL)
    {
      tasks, id, taskCount, unread := [], 0, 0, 0;
    }

    /** `written` says whether the pipe took the record; the worker's own thread is refused. */
    method PostTask(fromWorker: bool, sync: bool, written: bool, ghost s: P.State) returns (task: Option<nat>)
      requires Shows(s)
      modifies this
      ensures Shows(if fromWorker then s else P.Apply(s, P.Post(sync, written)))
      ensures task == if !fromWorker && |old(tasks)| <= P.MAX_TASKS_LIMIT && written then Some(old(taskCount)) else None
    {
      if fromWorker {
        return None;
      }
      if |tasks| > P.MAX_TASKS_LIMIT {
        return None;
      }
      id := (id + 1) % P.UINT64_RANGE;
      if !written {
        return None;
      }
      unread := unread + 1;
      tasks := tasks + [taskCount];
      task := Some(taskCount);
      taskCount := taskCount + 1;
    }

    /** `locked` says whether the lock was obtained in time. */
    method PopPendingTaskList(locked: bool, ghost s: P.State) returns (batch: seq<nat>)
      requires Shows(s) && s.worker == P.Idle && s.batch == []
      modifies this`tasks
      ensures Shows(P.Apply(s, P.Pop(locked)))
      ensures batch == P.Apply(s, P.Pop(locked)).batch
    {
      batch := [];
      if !locked {
        return;
      }
      ghost var queue := tasks;
      var count := 0;
      while count < P.ONCE_PROCESS_TASK_LIMIT
        invariant 0 <= count <= P.ONCE_PROCESS_TASK_LIMIT && count <= |queue|
        invariant batch == queue[..count] && tasks == queue[count..]
      {
        if tasks == [] {
          break;
        }
        assert queue[..count + 1] == queue[..count] + [queue[count]];
        batch := batch + [tasks[0]];
        tasks := tasks[1..];
        count := count + 1;
      }
      assert count == P.TakeCount(queue);
      assert queue == [] ==> batch == [] && tasks == [];
    }

    /** Reads as many records as tasks were popped; `ok` says whether the read succeeded. */
    method ReadRecords(count: nat, ok: bool, ghost s: P.State)
      requires Shows(s) && s.worker == P.ReadPipe && s.popped == count
      modifies this`unread
      ensures Shows(P.Apply(s, P.Read(ok)))
    {
      if ok {
        unread := unread - P.Min(count, unread);
      }
    }
  }
}
