/** chef::task_thread: a worker and its producers as a state machine whose steps are the critical sections under the
    mutex, one task execution, and the changes of clock and exit flag between them. */
module TaskThread {

  /** One call of add: its place in the order of add calls, and its deadline if it was deferred. */
  datatype Task = Task(id: nat, deferred: bool, deadline: int)

  datatype ReleaseMode = Asap | DoShouldDone | DoAllDone

  /** Where the worker is: waiting for the lock or a signal, executing what it collected, out of its loop, holding the
      lock for the last time, gone. */
  datatype Phase = Waiting | Executing | Leaving | Draining | Done

  /** One execution: when it began and whether it belongs to the final drain. */
  datatype Execution = Execution(task: Task, time: int, final: bool)

  /** The shared queues, the worker's own queue, flag, clock, and what happened: every task added, every execution, how
      many tasks had been added when stop_and_join began, when the worker collected for the last time, how many tasks
      had been added by then, and how many when it took the lock for the last time. */
  datatype State = State(
    mode: ReleaseMode,
    tasks: seq<Task>,
    deferred: seq<Task>,
    collected: seq<Task>,
    exitFlag: bool,
    phase: Phase,
    now: int,
    added: seq<Task>,
    executed: seq<Execution>,
    addedBeforeStop: nat,
    lastCollect: int,
    addedAtCollect: nat,
    addedAtLock: nat)

  function Start(mode: ReleaseMode, now: int): State {
    State(mode, [], [], [], false, Waiting, now, [], [], 0, 0, 0, 0)
  }

  // ----- the queues

  /** std::multimap::insert: behind the elements with the same key. */
  function Insert(ds: seq<Task>, t: Task): seq<Task> {
    if ds == [] || t.deadline < ds[0].deadline then [t] + ds else [ds[0]] + Insert(ds[1..], t)
  }

  /** How many deferred tasks append_expired_tasks_ takes from the front. */
  function ExpiredCount(ds: seq<Task>, now: int): (n: nat)
    ensures n <= |ds|
  {
    if ds == [] || ds[0].deadline > now then 0 else 1 + ExpiredCount(ds[1..], now)
  }

  // ----- the steps

  datatype Step = Add(deferredTimeMs: int) | Tick(ms: nat) | Stop | Collect | Execute | LoopBack | Lock | Drain

  /** Adding needs the mutex, which the worker keeps during the final drain. Waiting ends when there is work. */
  predicate Enabled(s: State, step: Step) {
    match step
    case Add(_) => s.phase != Draining
    case Tick(_) => true
    case Stop => !s.exitFlag
    case Collect => s.phase == Waiting && (s.exitFlag || s.tasks != [] || s.deferred != [])
    case Execute => s.phase == Executing && s.collected != []
    case LoopBack => s.phase == Executing && s.collected == []
    case Lock => s.phase == Leaving
    case Drain => s.phase == Draining
  }

  function AddImmediate(s: State, t: Task): State {
    s.(added := s.added + [t], tasks := s.tasks + [t])
  }

  function AddDeferred(s: State, t: Task): State {
    s.(added := s.added + [t], deferred := Insert(s.deferred, t))
  }

  function AddTask(s: State, deferredTimeMs: int): State {
    if deferredTimeMs == 0 then AddImmediate(s, Task(|s.added|, false, 0))
    else AddDeferred(s, Task(|s.added|, true, s.now + deferredTimeMs))
  }

  /** One critical section of the loop: all immediate tasks, then all expired ones. */
  function CollectTasks(s: State): State {
    var n := ExpiredCount(s.deferred, s.now);
    var c := s.(collected := s.tasks + s.deferred[..n], tasks := [], deferred := s.deferred[n..]);
    if s.exitFlag then c.(phase := Leaving, lastCollect := s.now, addedAtCollect := |s.added|)
    else c.(phase := Executing)
  }

  function RunFront(s: State, final: bool): State
    requires s.collected != []
  {
    s.(executed := s.executed + [Execution(s.collected[0], s.now, final)], collected := s.collected[1..])
  }

  function RunDeferredFront(s: State): State
    requires s.deferred != []
  {
    s.(executed := s.executed + [Execution(s.deferred[0], s.now, true)], deferred := s.deferred[1..])
  }

  /** One step of the final drain. */
  function DrainOne(s: State): State {
    if s.mode != Asap && s.collected != [] then RunFront(s, true)
    else if s.mode == DoAllDone && s.deferred != [] then
      RunDeferredFront(s)
    else s.(phase := Done)
  }

  function Next(s: State, step: Step): State
    requires Enabled(s, step)
  {
    match step
    case Add(d) => AddTask(s, d)
    case Tick(ms) => s.(now := s.now + ms)
    case Stop => s.(exitFlag := true, addedBeforeStop := |s.added|)
    case Collect => CollectTasks(s)
    case Execute => RunFront(s, false)
    case LoopBack => s.(phase := Waiting)
    case Lock => s.(phase := Draining, addedAtLock := |s.added|)
    case Drain => DrainOne(s)
  }

  /** A run: any interleaving of enabled steps. */
  predicate IsRun(s: State, steps: seq<Step>)
    decreases |steps|, 0
  {
    steps == [] ||
    (IsRun(s, steps[..|steps| - 1]) && Enabled(After(s, steps[..|steps| - 1]), steps[|steps| - 1]))
  }

  function After(s: State, steps: seq<Step>): State
    requires IsRun(s, steps)
    decreases |steps|, 1
  {
    if steps == [] then s else Next(After(s, steps[..|steps| - 1]), steps[|steps| - 1])
  }

  // ----- what every run keeps

  function Immediate(ts: seq<Task>): seq<Task> {
    if ts == [] then []
    else Immediate(ts[..|ts| - 1]) + (if ts[|ts| - 1].deferred then [] else [ts[|ts| - 1]])
  }

  function Ran(es: seq<Execution>): (r: seq<Task>)
    ensures |r| == |es|
  {
    seq(|es|, i requires 0 <= i < |es| => es[i].task)
  }

  predicate Numbered(ts: seq<Task>) {
    forall i :: 0 <= i < |ts| ==> ts[i].id == i
  }

  predicate Sorted(ds: seq<Task>) {
    forall i, j :: 0 <= i < j < |ds| ==> ds[i].deadline <= ds[j].deadline
  }

  predicate AllDeferred(ds: seq<Task>) {
    forall i :: 0 <= i < |ds| ==> ds[i].deferred
  }

  predicate NoneDeferred(ts: seq<Task>) {
    forall i :: 0 <= i < |ts| ==> !ts[i].deferred
  }

  /** Every task added is in exactly one place: executed, collected, queued or deferred. */
  predicate Conserved(s: State) {
    multiset(s.added) == multiset(Ran(s.executed)) + multiset(s.collected) + multiset(s.tasks) + multiset(s.deferred)
  }

  /** Immediate tasks leave the queue in the order they were added. */
  predicate InOrder(s: State) {
    Immediate(s.added) == Immediate(Ran(s.executed)) + Immediate(s.collected) + s.tasks
  }

  /** A deferred task is collected at its deadline or later; only the final drain runs others. */
  predicate OnTime(s: State) {
    && (forall i :: 0 <= i < |s.collected| && s.collected[i].deferred ==> s.collected[i].deadline <= s.now)
    && (forall i :: 0 <= i < |s.executed| && s.executed[i].task.deferred ==>
          s.executed[i].task.deadline <= s.executed[i].time || (s.executed[i].final && s.mode == DoAllDone))
    && (forall i :: 0 <= i < |s.executed| ==> s.executed[i].time <= s.now)
    && (forall i :: 0 <= i < |s.executed| && s.executed[i].final ==> s.phase in {Draining, Done})
  }

  predicate Late(ts: seq<Task>, n: nat) {
    forall i :: 0 <= i < |ts| ==> ts[i].id >= n
  }

  predicate Early(ts: seq<Task>, n: nat) {
    forall i :: 0 <= i < |ts| ==> ts[i].id < n
  }

  predicate LateOrUnexpired(ts: seq<Task>, n: nat, time: int) {
    forall i :: 0 <= i < |ts| ==> ts[i].id >= n || ts[i].deadline > time
  }

  /** Whether the worker found the task when it looked for the last time, or before. */
  predicate Found(t: Task, s: State) {
    t.id < s.addedAtCollect && (t.deferred ==> t.deadline <= s.lastCollect)
  }

  /** Whether the final drain reaches it all the same: the lock let it in, and it is deferred. */
  predicate Drained(t: Task, s: State) {
    s.mode == DoAllDone && t.deferred && t.id < s.addedAtLock
  }

  predicate AllFound(ts: seq<Task>, s: State) {
    forall i :: 0 <= i < |ts| ==> Found(ts[i], s) || (s.phase != Leaving && Drained(ts[i], s))
  }

  /** Once the worker has left its loop, what it took was found, and what is still queued was not; once it holds the
      lock for the last time, everything deferred was added before. */
  predicate Closed(s: State) {
    && s.addedBeforeStop <= |s.added|
    && (s.phase in {Leaving, Draining, Done} ==>
          && s.exitFlag && s.addedBeforeStop <= s.addedAtCollect <= |s.added|
          && Late(s.tasks, s.addedAtCollect)
          && (s.mode != DoAllDone || s.phase == Leaving ==>
                LateOrUnexpired(s.deferred, s.addedAtCollect, s.lastCollect))
          && AllFound(s.collected, s) && AllFound(Ran(s.executed), s))
    && (s.phase in {Draining, Done} ==> s.addedAtCollect <= s.addedAtLock <= |s.added|)
    && (s.phase == Draining ==> s.addedAtLock == |s.added|)
    && (s.phase == Done && s.mode != Asap ==> s.collected == [])
    && (s.phase == Done && s.mode == DoAllDone ==> Late(s.deferred, s.addedAtLock))
  }

  predicate Queued(s: State) {
    && Numbered(s.added) && NoneDeferred(s.tasks) && AllDeferred(s.deferred) && Sorted(s.deferred)
    && (s.phase == Waiting ==> s.collected == [])
  }

  predicate Inv(s: State) {
    Queued(s) && Conserved(s) && InOrder(s) && OnTime(s) && Closed(s)
  }

  // ----- lemmas about the queues

  lemma {:induction false} InsertKeepsAll(ds: seq<Task>, t: Task)
    ensures multiset(Insert(ds, t)) == multiset(ds) + multiset{t}
  {
    if ds != [] && t.deadline >= ds[0].deadline {
      InsertKeepsAll(ds[1..], t);
      assert ds == [ds[0]] + ds[1..];
    }
  }

  lemma {:induction false} InsertSorts(ds: seq<Task>, t: Task)
    requires AllDeferred(ds) && Sorted(ds) && t.deferred
    ensures AllDeferred(Insert(ds, t)) && Sorted(Insert(ds, t))
    ensures Insert(ds, t) != []
    ensures Insert(ds, t)[0].deadline ==
            (if ds == [] || t.deadline < ds[0].deadline then t.deadline else ds[0].deadline)
  {
    if ds == [] || t.deadline < ds[0].deadline {
      SortedCons(t, ds);
    } else {
      InsertSorts(ds[1..], t);
      SortedCons(ds[0], Insert(ds[1..], t));
    }
  }

  lemma {:induction false} InsertKeeps(ds: seq<Task>, t: Task)
    requires AllDeferred(ds) && Sorted(ds) && t.deferred
    ensures multiset(Insert(ds, t)) == multiset(ds) + multiset{t}
    ensures AllDeferred(Insert(ds, t)) && Sorted(Insert(ds, t))
  {
    InsertKeepsAll(ds, t);
    InsertSorts(ds, t);
  }

  lemma {:induction false} SortedCons(d: Task, ds: seq<Task>)
    requires Sorted(ds) && (ds != [] ==> d.deadline <= ds[0].deadline)
    ensures Sorted([d] + ds)
  {
    forall i, j | 0 <= i < j < |ds| + 1 ensures ([d] + ds)[i].deadline <= ([d] + ds)[j].deadline {
      if i == 0 && j > 1 { assert ds[0].deadline <= ds[j - 1].deadline; }
    }
  }

  /** In deadline order the tasks taken are exactly those whose time has come. */
  lemma {:induction false} ExpiredExactly(ds: seq<Task>, now: int)
    requires Sorted(ds)
    ensures forall i :: 0 <= i < |ds| ==> (ds[i].deadline <= now <==> i < ExpiredCount(ds, now))
  {
    if ds != [] {
      ExpiredExactly(ds[1..], now);
      assert forall i :: 0 < i < |ds| ==> ds[i] == ds[1..][i - 1] && ds[0].deadline <= ds[i].deadline;
    }
  }

  lemma {:induction false} ImmediateAppend(a: seq<Task>, b: seq<Task>)
    ensures Immediate(a + b) == Immediate(a) + Immediate(b)
  {
    if b == [] {
      assert a + b == a;
    } else {
      assert (a + b)[..|a + b| - 1] == a + b[..|b| - 1];
      ImmediateAppend(a, b[..|b| - 1]);
    }
  }

  lemma {:induction false} ImmediateAll(ts: seq<Task>)
    requires NoneDeferred(ts)
    ensures Immediate(ts) == ts
  {
    if ts != [] { ImmediateAll(ts[..|ts| - 1]); }
  }

  lemma {:induction false} ImmediateNone(ds: seq<Task>)
    requires AllDeferred(ds)
    ensures Immediate(ds) == []
  {
    if ds != [] { ImmediateNone(ds[..|ds| - 1]); }
  }

  lemma {:induction false} ImmediateOne(t: Task)
    ensures Immediate([t]) == if t.deferred then [] else [t]
  {
    assert [t][..0] == [];
  }

  lemma {:induction false} RanSnoc(es: seq<Execution>, e: Execution)
    ensures Ran(es + [e]) == Ran(es) + [e.task]
  {
  }

  // ----- every step keeps the invariant

  lemma {:induction false} AddQueued(s: State, t: Task)
    requires Queued(s) && t.id == |s.added|
    ensures !t.deferred ==> Queued(AddImmediate(s, t))
    ensures t.deferred ==> Queued(AddDeferred(s, t))
  {
    if t.deferred {
      InsertKeeps(s.deferred, t);
    }
    hide Insert, Sorted, AllDeferred;
  }

  lemma {:induction false} MoreOnBothSides(
      a: multiset<Task>, e: multiset<Task>, c: multiset<Task>, t: multiset<Task>, d: multiset<Task>, x: multiset<Task>)
    requires a == e + c + t + d
    ensures a + x == e + c + (t + x) + d && a + x == e + c + t + (d + x)
  {
  }

  lemma {:induction false} MultisetSnoc(ts: seq<Task>, t: Task)
    ensures multiset(ts + [t]) == multiset(ts) + multiset{t}
  {
  }

  lemma {:induction false} AddConserved(s: State, t: Task)
    requires Queued(s) && Conserved(s)
    ensures Conserved(AddImmediate(s, t))
    ensures t.deferred ==> Conserved(AddDeferred(s, t))
  {
    if t.deferred {
      QueuedParts(s);
      InsertKeeps(s.deferred, t);
    }
    hide Insert, Sorted, AllDeferred, Queued, Ran;
    MultisetSnoc(s.added, t);
    MultisetSnoc(s.tasks, t);
    MoreOnBothSides(multiset(s.added), multiset(Ran(s.executed)), multiset(s.collected), multiset(s.tasks),
                    multiset(s.deferred), multiset{t});
  }

  lemma {:induction false} AddInOrder(s: State, t: Task)
    requires InOrder(s)
    ensures !t.deferred ==> InOrder(AddImmediate(s, t))
    ensures t.deferred ==> InOrder(AddDeferred(s, t))
  {
    hide Immediate, Insert, Ran;
    ImmediateAppend(s.added, [t]);
    ImmediateOne(t);
    var front := Immediate(Ran(s.executed)) + Immediate(s.collected);
    assert (front + s.tasks) + [t] == front + (s.tasks + [t]);
    assert Immediate(s.added) + [] == Immediate(s.added);
  }

  lemma {:induction false} AddClosed(s: State, t: Task)
    requires Closed(s) && t.id == |s.added| && s.phase != Draining
    ensures Closed(AddImmediate(s, t)) && Closed(AddDeferred(s, t))
  {
    InsertLate(s.deferred, t, s.addedAtCollect, s.lastCollect);
    InsertLate(s.deferred, t, s.addedAtLock, s.lastCollect);
    hide Insert, Ran;
  }

  lemma {:induction false} AddOnTime(s: State, t: Task)
    requires OnTime(s)
    ensures OnTime(AddImmediate(s, t)) && OnTime(AddDeferred(s, t))
  {
    hide Insert;
  }

  lemma {:induction false} AddKeeps(s: State, d: int)
    requires Inv(s) && s.phase != Draining
    ensures Inv(AddTask(s, d))
  {
    hide Queued, Conserved, InOrder, OnTime, Closed, AddImmediate, AddDeferred;
    var t := Task(|s.added|, d != 0, if d == 0 then 0 else s.now + d);
    AddQueued(s, t);
    AddConserved(s, t);
    AddInOrder(s, t);
    AddOnTime(s, t);
    AddClosed(s, t);
  }

  lemma {:induction false} InsertLate(ds: seq<Task>, t: Task, n: nat, time: int)
    ensures Late(ds, n) && t.id >= n ==> Late(Insert(ds, t), n)
    ensures LateOrUnexpired(ds, n, time) && t.id >= n ==> LateOrUnexpired(Insert(ds, t), n, time)
  {
    if ds != [] && t.deadline >= ds[0].deadline {
      InsertLate(ds[1..], t, n, time);
    }
  }

  lemma {:induction false} CollectQueued(s: State)
    requires Queued(s)
    ensures Queued(CollectTasks(s))
  {
  }

  lemma {:induction false} CollectConserved(s: State)
    requires Conserved(s) && s.collected == []
    ensures Conserved(CollectTasks(s))
  {
    var n := ExpiredCount(s.deferred, s.now);
    assert s.deferred == s.deferred[..n] + s.deferred[n..];
  }

  lemma {:induction false} CollectInOrder(s: State)
    requires InOrder(s) && s.collected == [] && NoneDeferred(s.tasks) && AllDeferred(s.deferred)
    ensures InOrder(CollectTasks(s))
  {
    assert Immediate([]) == [];
    hide Immediate, ExpiredCount, Ran;
    var taken := s.deferred[..ExpiredCount(s.deferred, s.now)];
    ImmediateAppend(s.tasks, taken);
    ImmediateAll(s.tasks);
    ImmediateNone(taken);
    var ran := Immediate(Ran(s.executed));
    assert ran + [] + s.tasks == ran + (s.tasks + []) + [];
  }

  lemma {:induction false} CollectOnTime(s: State)
    requires OnTime(s) && NoneDeferred(s.tasks) && Sorted(s.deferred) && s.phase == Waiting
    ensures OnTime(CollectTasks(s))
  {
    ExpiredExactly(s.deferred, s.now);
    hide ExpiredCount;
  }

  /** Whatever is in a queue or has run was added, so its number is below the number of tasks added. */
  lemma {:induction false} PlacesEarly(s: State)
    requires Numbered(s.added) && Conserved(s)
    ensures Early(s.tasks, |s.added|) && Early(s.deferred, |s.added|) && Early(Ran(s.executed), |s.added|)
  {
    var e, c, t, d := multiset(Ran(s.executed)), multiset(s.collected), multiset(s.tasks), multiset(s.deferred);
    PartEarly(s.added, s.tasks, e + c + d);
    PartEarly(s.added, s.deferred, e + c + t);
    PartEarly(s.added, Ran(s.executed), c + t + d);
  }

  lemma {:induction false} PartEarly(added: seq<Task>, part: seq<Task>, others: multiset<Task>)
    requires Numbered(added) && multiset(added) == multiset(part) + others
    ensures Early(part, |added|)
  {
    forall i | 0 <= i < |part| ensures part[i].id < |added| {
      assert part[i] in multiset(part);
      assert part[i] in multiset(added);
      NumberedOnce(added, part[i]);
    }
  }

  /** What a run has executed by now was found by now. */
  lemma {:induction false} RanOnTime(s: State)
    requires OnTime(s) && s.phase == Waiting
    ensures forall i :: 0 <= i < |Ran(s.executed)| && Ran(s.executed)[i].deferred ==>
              Ran(s.executed)[i].deadline <= s.now
  {
  }

  lemma {:induction false} CollectClosed(s: State)
    requires Closed(s) && OnTime(s) && Conserved(s) && Numbered(s.added) && NoneDeferred(s.tasks) && Sorted(s.deferred)
    requires s.phase == Waiting
    ensures Closed(CollectTasks(s))
  {
    PlacesEarly(s);
    RanOnTime(s);
    ExpiredExactly(s.deferred, s.now);
    hide ExpiredCount, Conserved, OnTime, Ran, Sorted, Numbered;
  }

  lemma {:induction false} CollectKeeps(s: State)
    requires Inv(s) && s.phase == Waiting
    ensures Inv(CollectTasks(s))
  {
    QueuedParts(s);
    hide Queued, Conserved, InOrder, OnTime, Closed, CollectTasks;
    CollectQueued(s);
    CollectConserved(s);
    CollectInOrder(s);
    CollectOnTime(s);
    CollectClosed(s);
  }

  lemma {:induction false} QueuedParts(s: State)
    requires Queued(s)
    ensures Numbered(s.added) && NoneDeferred(s.tasks) && AllDeferred(s.deferred) && Sorted(s.deferred)
    ensures s.phase == Waiting ==> s.collected == []
  {
  }

  lemma {:induction false} MultisetFront(queue: seq<Task>)
    requires queue != []
    ensures multiset(queue) == multiset{queue[0]} + multiset(queue[1..])
  {
    assert queue == [queue[0]] + queue[1..];
  }

  lemma {:induction false} MoveOne(es: multiset<Task>, rest: multiset<Task>, t: multiset<Task>)
    ensures (es + t) + rest == es + (t + rest)
  {
  }

  /** One task moved from a queue of the worker to the list of executions. */
  lemma {:induction false} RunConserved(es: seq<Execution>, queue: seq<Task>, e: Execution)
    requires queue != [] && e.task == queue[0]
    ensures multiset(Ran(es + [e])) + multiset(queue[1..]) == multiset(Ran(es)) + multiset(queue)
  {
    RanSnoc(es, e);
    hide Ran;
    MultisetSnoc(Ran(es), e.task);
    MultisetFront(queue);
    MoveOne(multiset(Ran(es)), multiset(queue[1..]), multiset{e.task});
  }

  lemma {:induction false} RunInOrder(es: seq<Execution>, queue: seq<Task>, e: Execution)
    requires queue != [] && e.task == queue[0]
    ensures Immediate(Ran(es + [e])) + Immediate(queue[1..]) == Immediate(Ran(es)) + Immediate(queue)
  {
    assert queue == [queue[0]] + queue[1..];
    RanSnoc(es, e);
    hide Immediate, Ran;
    ImmediateAppend([queue[0]], queue[1..]);
    ImmediateAppend(Ran(es), [queue[0]]);
  }

  lemma {:induction false} RunFrontOnTime(s: State, final: bool)
    requires OnTime(s) && s.collected != [] && (final ==> s.phase == Draining)
    ensures OnTime(RunFront(s, final))
  {
  }

  lemma {:induction false} RunFrontConserved(s: State, final: bool)
    requires Conserved(s) && s.collected != []
    ensures Conserved(RunFront(s, final))
  {
    hide Ran;
    RunConserved(s.executed, s.collected, Execution(s.collected[0], s.now, final));
  }

  lemma {:induction false} RunFrontInOrder(s: State, final: bool)
    requires InOrder(s) && s.collected != []
    ensures InOrder(RunFront(s, final))
  {
    hide Ran, Immediate;
    RunInOrder(s.executed, s.collected, Execution(s.collected[0], s.now, final));
  }

  lemma {:induction false} RunFrontClosed(s: State, final: bool)
    requires Closed(s) && s.collected != [] && s.phase in {Executing, Draining}
    ensures Closed(RunFront(s, final))
  {
    RanSnoc(s.executed, Execution(s.collected[0], s.now, final));
    hide Ran;
  }

  lemma {:induction false} RunFrontKeeps(s: State, final: bool)
    requires Inv(s) && s.collected != [] && s.phase in {Executing, Draining} && (final ==> s.phase == Draining)
    ensures Inv(RunFront(s, final))
  {
    hide OnTime, Conserved, InOrder, Closed;
    RunFrontConserved(s, final);
    RunFrontInOrder(s, final);
    RunFrontOnTime(s, final);
    RunFrontClosed(s, final);
  }

  lemma {:induction false} Rearranged(
      a: multiset<Task>, e: multiset<Task>, c: multiset<Task>, t: multiset<Task>, d: multiset<Task>,
      e': multiset<Task>, d': multiset<Task>)
    requires a == e + c + t + d && e' + d' == e + d
    ensures a == e' + c + t + d'
  {
    forall x ensures a[x] == (e' + c + t + d')[x] {
      assert (e' + d')[x] == (e + d)[x];
    }
  }

  lemma {:induction false} RunDeferredConserved(s: State)
    requires Conserved(s) && s.deferred != []
    ensures Conserved(RunDeferredFront(s))
  {
    hide Ran;
    var t := RunDeferredFront(s);
    RunConserved(s.executed, s.deferred, Execution(s.deferred[0], s.now, true));
    Rearranged(multiset(s.added), multiset(Ran(s.executed)), multiset(s.collected), multiset(s.tasks),
               multiset(s.deferred), multiset(Ran(t.executed)), multiset(t.deferred));
  }

  lemma {:induction false} RunDeferredInOrder(s: State)
    requires InOrder(s) && s.deferred != [] && AllDeferred(s.deferred)
    ensures InOrder(RunDeferredFront(s))
  {
    var t := s.deferred[0];
    RanSnoc(s.executed, Execution(t, s.now, true));
    hide Ran, Immediate;
    ImmediateAppend(Ran(s.executed), [t]);
    ImmediateOne(t);
    assert Immediate(Ran(s.executed)) + [] == Immediate(Ran(s.executed));
  }

  lemma {:induction false} RunDeferredOnTime(s: State)
    requires OnTime(s) && s.phase == Draining && s.mode == DoAllDone && s.deferred != []
    ensures OnTime(RunDeferredFront(s))
  {
  }

  lemma {:induction false} RunDeferredClosed(s: State)
    requires Closed(s) && Conserved(s) && Numbered(s.added) && AllDeferred(s.deferred)
    requires s.phase == Draining && s.mode == DoAllDone && s.deferred != []
    ensures Closed(RunDeferredFront(s))
  {
    PlacesEarly(s);
    RanSnoc(s.executed, Execution(s.deferred[0], s.now, true));
    hide Ran, Conserved, Numbered;
  }

  lemma {:induction false} RunDeferredKeeps(s: State)
    requires Inv(s) && s.phase == Draining && s.mode == DoAllDone && s.deferred != []
    ensures Inv(RunDeferredFront(s))
  {
    hide Conserved, InOrder, OnTime, Closed;
    RunDeferredConserved(s);
    RunDeferredInOrder(s);
    RunDeferredOnTime(s);
    RunDeferredClosed(s);
  }

  lemma {:induction false} DoneKeeps(s: State)
    requires Inv(s) && s.phase == Draining
    requires (s.mode == Asap || s.collected == []) && (s.mode != DoAllDone || s.deferred == [])
    ensures Inv(s.(phase := Done))
  {
    hide Ran, Immediate, Numbered, NoneDeferred, AllDeferred, Sorted;
  }

  lemma {:induction false} DrainKeeps(s: State)
    requires Inv(s) && s.phase == Draining
    ensures Inv(DrainOne(s))
  {
    hide Inv, RunFront, RunDeferredFront;
    if s.mode != Asap && s.collected != [] {
      RunFrontKeeps(s, true);
    } else if s.mode == DoAllDone && s.deferred != [] {
      RunDeferredKeeps(s);
    } else {
      DoneKeeps(s);
    }
  }

  lemma {:induction false} StepKeeps(s: State, step: Step)
    requires Inv(s) && Enabled(s, step)
    ensures Inv(Next(s, step))
  {
    hide Numbered, NoneDeferred, AllDeferred, Sorted, Ran, Immediate, Insert, RunFront, DrainOne, AddTask, CollectTasks;
    match step
    case Add(d) => AddKeeps(s, d);
    case Collect => CollectKeeps(s);
    case Execute => RunFrontKeeps(s, false);
    case Drain => DrainKeeps(s);
    case _ =>
  }

  lemma {:induction false} RunKeeps(s: State, steps: seq<Step>)
    requires Inv(s) && IsRun(s, steps)
    ensures Inv(After(s, steps)) && After(s, steps).mode == s.mode
  {
    hide Inv;
    if steps != [] {
      RunKeeps(s, steps[..|steps| - 1]);
      StepKeeps(After(s, steps[..|steps| - 1]), steps[|steps| - 1]);
    }
  }

  // ----- what a user of the thread may rely on

  lemma {:induction false} StartInv(mode: ReleaseMode, now: int)
    ensures Inv(Start(mode, now))
  {
    assert Immediate([]) == [] && Ran([]) == [];
  }

  lemma {:induction false} NumberedOnce(ts: seq<Task>, t: Task)
    requires Numbered(ts)
    ensures multiset(ts)[t] <= 1 && (t in ts ==> 0 <= t.id < |ts|)
  {
    if ts != [] {
      var init, last := ts[..|ts| - 1], ts[|ts| - 1];
      NumberedOnce(init, t);
      assert ts == init + [last];
      MultisetSnoc(init, last);
    }
  }

  lemma {:induction false} TwiceCounts(ts: seq<Task>, i: nat, j: nat)
    requires i < j < |ts| && ts[i] == ts[j]
    ensures multiset(ts)[ts[i]] >= 2
  {
    var a, b := ts[..j], ts[j..];
    assert ts == a + b;
    assert a[i] in a && b[0] in b;
    assert multiset(ts) == multiset(a) + multiset(b);
  }

  lemma {:induction false} ExecutedWereAdded(s: State, t: Task)
    requires Conserved(s)
    ensures multiset(Ran(s.executed))[t] <= multiset(s.added)[t]
  {
  }

  /** No interleaving runs a task twice. */
  lemma {:induction false} NoTaskTwice(mode: ReleaseMode, start: int, steps: seq<Step>, i: nat, j: nat)
    requires IsRun(Start(mode, start), steps)
    requires i < j < |After(Start(mode, start), steps).executed|
    ensures var es := After(Start(mode, start), steps).executed;
            es[i].task != es[j].task && es[i].task in After(Start(mode, start), steps).added
  {
    StartInv(mode, start);
    RunKeeps(Start(mode, start), steps);
    var s := After(Start(mode, start), steps);
    hide After, IsRun, InOrder, OnTime, Closed;
    var ran := Ran(s.executed);
    NumberedOnce(s.added, ran[i]);
    ExecutedWereAdded(s, ran[i]);
    if ran[i] == ran[j] { TwiceCounts(ran, i, j); }
    assert ran[i] in multiset(ran);
  }

  predicate AscendsBelow(ts: seq<Task>, n: nat) {
    && Early(ts, n)
    && forall i, j :: 0 <= i < j < |ts| ==> ts[i].id < ts[j].id
  }

  lemma {:induction false} AscendsSnoc(ts: seq<Task>, t: Task)
    requires 0 <= t.id && AscendsBelow(ts, t.id)
    ensures AscendsBelow(ts + [t], t.id + 1) && AscendsBelow(ts, t.id + 1)
  {
  }

  lemma {:induction false} ImmediateAscends(ts: seq<Task>, n: nat)
    requires n <= |ts| && Numbered(ts)
    ensures AscendsBelow(Immediate(ts[..n]), n)
  {
    if n > 0 {
      ImmediateAscends(ts, n - 1);
      assert ts[..n][..n - 1] == ts[..n - 1] && ts[..n][n - 1] == ts[n - 1];
      var im := Immediate(ts[..n - 1]);
      assert Immediate(ts[..n]) == (if ts[n - 1].deferred then im + [] else im + [ts[n - 1]]);
      assert im + [] == im;
      hide AscendsBelow, Immediate;
      AscendsSnoc(im, ts[n - 1]);
    }
  }

  /** An immediate task of a list keeps its place in the list of its immediate tasks. */
  lemma {:induction false} ImmediateAt(ts: seq<Task>, i: nat)
    requires i < |ts| && !ts[i].deferred
    ensures |Immediate(ts[..i])| < |Immediate(ts)| && Immediate(ts)[|Immediate(ts[..i])|] == ts[i]
  {
    assert ts == ts[..i] + [ts[i]] + ts[i + 1..];
    ImmediateAppend(ts[..i] + [ts[i]], ts[i + 1..]);
    ImmediateAppend(ts[..i], [ts[i]]);
    ImmediateOne(ts[i]);
  }

  lemma {:induction false} ImmediateGrows(ts: seq<Task>, i: nat, j: nat)
    requires i < j <= |ts| && !ts[i].deferred
    ensures |Immediate(ts[..i])| < |Immediate(ts[..j])|
  {
    assert ts[..j][..i] == ts[..i];
    ImmediateAt(ts[..j], i);
  }

  /** Where an executed immediate task stands among all immediate tasks added. */
  lemma {:induction false} ExecutedAt(s: State, i: nat)
    requires InOrder(s) && i < |s.executed| && !s.executed[i].task.deferred
    ensures var a := |Immediate(Ran(s.executed)[..i])|;
            a < |Immediate(s.added)| && Immediate(s.added)[a] == s.executed[i].task
  {
    var ran := Ran(s.executed);
    assert ran[i] == s.executed[i].task;
    hide Immediate, Ran;
    ImmediateAt(ran, i);
    var front := Immediate(ran) + Immediate(s.collected);
    assert front[|Immediate(ran[..i])|] == ran[i];
    assert Immediate(s.added) == front + s.tasks;
  }

  /** Immediate tasks run in the order they were added. */
  lemma {:induction false} ImmediateRunInOrder(mode: ReleaseMode, start: int, steps: seq<Step>, i: nat, j: nat)
    requires IsRun(Start(mode, start), steps)
    requires i < j < |After(Start(mode, start), steps).executed|
    requires var es := After(Start(mode, start), steps).executed; !es[i].task.deferred && !es[j].task.deferred
    ensures var es := After(Start(mode, start), steps).executed; es[i].task.id < es[j].task.id
  {
    StartInv(mode, start);
    RunKeeps(Start(mode, start), steps);
    var s := After(Start(mode, start), steps);
    hide After, IsRun, OnTime, Closed, Conserved, InOrder;
    ExecutedAt(s, i);
    ExecutedAt(s, j);
    var ran := Ran(s.executed);
    assert ran[i] == s.executed[i].task;
    hide Ran, Immediate;
    ImmediateGrows(ran, i, j);
    ImmediateAscends(s.added, |s.added|);
    assert s.added[..|s.added|] == s.added;
  }

  /** A deferred task runs at its deadline or later, except in the final drain of a thread told to do everything. */
  lemma {:induction false} NeverEarly(mode: ReleaseMode, start: int, steps: seq<Step>, i: nat)
    requires IsRun(Start(mode, start), steps)
    requires i < |After(Start(mode, start), steps).executed|
    ensures var e := After(Start(mode, start), steps).executed[i];
            e.task.deferred && e.time < e.task.deadline ==> e.final && mode == DoAllDone
  {
    StartInv(mode, start);
    RunKeeps(Start(mode, start), steps);
  }

  // ----- the delay asked for, from the steps of a run alone

  /** How many tasks a run adds. */
  function AddsIn(steps: seq<Step>): nat {
    if steps == [] then 0 else AddsIn(steps[..|steps| - 1]) + (if steps[|steps| - 1].Add? then 1 else 0)
  }

  /** How many milliseconds pass in a run. */
  function TicksIn(steps: seq<Step>): nat {
    if steps == [] then 0
    else TicksIn(steps[..|steps| - 1]) + (match steps[|steps| - 1] case Tick(ms) => ms case _ => 0)
  }

  lemma {:induction false} StepCounts(s: State, step: Step)
    requires Enabled(s, step)
    ensures s.added <= Next(s, step).added
    ensures |Next(s, step).added| == |s.added| + (if step.Add? then 1 else 0)
    ensures Next(s, step).now == s.now + (match step case Tick(ms) => ms case _ => 0)
  {
    hide Insert, ExpiredCount;
  }

  lemma {:induction false} RunCounts(s: State, steps: seq<Step>)
    requires IsRun(s, steps)
    ensures |After(s, steps).added| == |s.added| + AddsIn(steps) && After(s, steps).now == s.now + TicksIn(steps)
  {
    if steps != [] {
      hide Next, Enabled;
      var init := steps[..|steps| - 1];
      RunCounts(s, init);
      StepCounts(After(s, init), steps[|steps| - 1]);
    }
  }

  /** Any beginning of a run is a run, and what it has added stays added. */
  lemma {:induction false} RunPrefix(s: State, steps: seq<Step>, k: nat)
    requires IsRun(s, steps) && k <= |steps|
    ensures IsRun(s, steps[..k]) && After(s, steps[..k]).added <= After(s, steps).added
  {
    hide Next, Enabled;
    if k < |steps| {
      var init := steps[..|steps| - 1];
      RunPrefix(s, init, k);
      assert init[..k] == steps[..k];
      StepCounts(After(s, init), steps[|steps| - 1]);
    } else {
      assert steps[..k] == steps;
    }
  }

  /** The task the k-th step adds, if it adds one: its number is the number of tasks added before. */
  lemma {:induction false} AddedByStep(s: State, steps: seq<Step>, k: nat, d: int)
    requires IsRun(s, steps) && s.added == [] && k < |steps| && steps[k] == Add(d)
    ensures var n, added := AddsIn(steps[..k]), After(s, steps).added;
            && n < |added| && added[n].id == n && (added[n].deferred <==> d != 0)
            && (d != 0 ==> added[n].deadline == s.now + TicksIn(steps[..k]) + d)
  {
    RunPrefix(s, steps, k);
    RunPrefix(s, steps, k + 1);
    RunCounts(s, steps[..k]);
    assert steps[..k + 1] == steps[..k] + [steps[k]] && steps[..k + 1][..k] == steps[..k];
    var before := After(s, steps[..k]);
    assert After(s, steps[..k + 1]) == AddTask(before, d);
    hide After, IsRun, Insert;
    assert AddTask(before, d).added[|before.added|].id == |before.added|;
  }

  /** A task added with a delay of `d` milliseconds is executed that long after it was added or later, except in the
      final drain of a thread told to do everything; a task added with delay 0 is not deferred at all. */
  lemma {:induction false} DelayKept(mode: ReleaseMode, start: int, steps: seq<Step>, k: nat, d: int, i: nat)
    requires IsRun(Start(mode, start), steps) && k < |steps| && steps[k] == Add(d)
    requires i < |After(Start(mode, start), steps).executed|
    requires After(Start(mode, start), steps).executed[i].task.id == AddsIn(steps[..k])
    ensures var e := After(Start(mode, start), steps).executed[i];
            && (e.task.deferred <==> d != 0)
            && (d != 0 ==> e.time >= start + TicksIn(steps[..k]) + d || (e.final && mode == DoAllDone))
  {
    AddedByStep(Start(mode, start), steps, k, d);
    StartInv(mode, start);
    RunKeeps(Start(mode, start), steps);
    NeverEarly(mode, start, steps, i);
    var s := After(Start(mode, start), steps);
    hide After, IsRun, InOrder, OnTime, Closed;
    var ran := Ran(s.executed);
    ExecutedWereAdded(s, ran[i]);
    NumberedOnce(s.added, ran[i]);
    assert ran[i] in multiset(ran);
    assert ran[i] in multiset(s.added);
  }

  lemma {:induction false} CollectEmpties(s: State, t: Task)
    requires Queued(s) && (t.deferred ==> t.deadline <= s.now)
    ensures t !in CollectTasks(s).tasks && t !in CollectTasks(s).deferred
  {
    ExpiredExactly(s.deferred, s.now);
    hide ExpiredCount, Sorted, Numbered;
  }

  lemma {:induction false} CollectLeaves(s: State, t: Task)
    requires Inv(s) && s.phase == Waiting && t in s.added && (t.deferred ==> t.deadline <= s.now)
    ensures HasRun(CollectTasks(s), t) || t in CollectTasks(s).collected
  {
    CollectEmpties(s, t);
    CollectKeeps(s);
    HasRunIff(CollectTasks(s), t);
    assert CollectTasks(s).added == s.added;
    hide CollectTasks, HasRun, Queued, InOrder, OnTime, Closed, Ran, Conserved;
    if t !in CollectTasks(s).collected {
      ConservedPlace(CollectTasks(s), t);
    }
  }

  lemma {:induction false} DueThen(s: State, steps: seq<Step>, k: nat, d: int)
    requires IsRun(s, steps) && s.added == [] && k < |steps| && steps[k] == Add(d)
    requires d == 0 || TicksIn(steps) >= TicksIn(steps[..k]) + d
    ensures var n, t := AddsIn(steps[..k]), After(s, steps);
            n < |t.added| && t.added[n].id == n && (t.added[n].deferred ==> t.added[n].deadline <= t.now)
  {
    AddedByStep(s, steps, k, d);
    RunCounts(s, steps);
    hide After, IsRun, TicksIn, AddsIn;
  }

  /** And the worker takes it as soon as it may: whenever it has looked `d` milliseconds after the task was added or
      later, the task has run or is among those collected. */
  lemma {:induction false} TakenWhenDue(mode: ReleaseMode, start: int, steps: seq<Step>, k: nat, d: int)
    requires IsRun(Start(mode, start), steps) && k < |steps| && steps[k] == Add(d)
    requires steps[|steps| - 1] == Collect && (d == 0 || TicksIn(steps) >= TicksIn(steps[..k]) + d)
    ensures var n, s := AddsIn(steps[..k]), After(Start(mode, start), steps);
            n < |s.added| && s.added[n].id == n && (HasRun(s, s.added[n]) || s.added[n] in s.collected)
  {
    var s0 := Start(mode, start);
    DueThen(s0, steps, k, d);
    CollectsAt(s0, steps);
    StartInv(mode, start);
    RunKeeps(s0, steps[..|steps| - 1]);
    hide After, IsRun, Inv, TicksIn, AddsIn, HasRun, CollectTasks;
    CollectLeaves(After(s0, steps[..|steps| - 1]), After(s0, steps).added[AddsIn(steps[..k])]);
  }

  lemma {:induction false} CollectsAt(s: State, steps: seq<Step>)
    requires IsRun(s, steps) && steps != [] && steps[|steps| - 1] == Collect
    ensures var init := steps[..|steps| - 1];
            && IsRun(s, init)
            && After(s, init).phase == Waiting && After(s, steps) == CollectTasks(After(s, init))
            && After(s, steps).added == After(s, init).added && After(s, steps).now == After(s, init).now
  {
  }

  // ----- the order within a batch

  /** Immediate tasks in the order of their add calls, then deferred ones by deadline and, for equal deadlines, in the
      order of their add calls. */
  predicate Precedes(a: Task, b: Task) {
    if a.deferred then b.deferred && (a.deadline < b.deadline || (a.deadline == b.deadline && a.id < b.id))
    else b.deferred || a.id < b.id
  }

  predicate Ordered(ts: seq<Task>) {
    forall i, j :: 0 <= i < j < |ts| ==> Precedes(ts[i], ts[j])
  }

  lemma {:induction false} InsertOrdered(ds: seq<Task>, t: Task)
    requires Ordered(ds) && AllDeferred(ds) && t.deferred && Early(ds, t.id)
    ensures Ordered(Insert(ds, t)) && AllDeferred(Insert(ds, t))
    ensures forall x :: x in Insert(ds, t) ==> x == t || x in ds
  {
    if ds != [] {
      var rest := Insert(ds[1..], t);
      InsertOrdered(ds[1..], t);
      if t.deadline >= ds[0].deadline {
        assert forall j :: 0 <= j < |rest| ==> rest[j] in rest && (rest[j] == t || rest[j] in ds[1..]);
        assert forall x :: x in ds[1..] ==> Precedes(ds[0], x);
      }
    }
  }

  lemma {:induction false} OrderedConcat(a: seq<Task>, b: seq<Task>)
    requires Ordered(a) && Ordered(b) && NoneDeferred(a) && AllDeferred(b)
    ensures Ordered(a + b)
  {
  }

  lemma {:induction false} OrderedPart(ts: seq<Task>, i: nat, j: nat)
    requires i <= j <= |ts| && Ordered(ts)
    ensures Ordered(ts[i..j]) && Ordered(ts[i..])
  {
  }

  predicate QueuesOrdered(s: State) {
    Ordered(s.tasks) && Ordered(s.deferred) && Ordered(s.collected)
  }

  lemma {:induction false} AddOrdered(s: State, d: int)
    requires Inv(s) && QueuesOrdered(s)
    ensures QueuesOrdered(AddTask(s, d))
  {
    QueuedParts(s);
    PlacesEarly(s);
    hide Queued, Conserved, InOrder, OnTime, Closed, Numbered, Sorted, Insert;
    if d != 0 {
      InsertOrdered(s.deferred, Task(|s.added|, true, s.now + d));
    }
  }

  lemma {:induction false} StepOrdered(s: State, step: Step)
    requires Inv(s) && Enabled(s, step) && QueuesOrdered(s)
    ensures QueuesOrdered(Next(s, step))
  {
    assert Queued(s);
    hide Inv, Queued, Ordered, AddTask, CollectTasks, RunFront, DrainOne, NoneDeferred, AllDeferred, Sorted, Numbered;
    match step
    case Add(d) => AddOrdered(s, d);
    case Collect => CollectOrdered(s);
    case Execute => RunFrontOrdered(s, false);
    case Drain => DrainOrdered(s);
    case _ =>
  }

  lemma {:induction false} RunFrontOrdered(s: State, final: bool)
    requires QueuesOrdered(s) && s.collected != []
    ensures QueuesOrdered(RunFront(s, final))
  {
    hide Ordered;
    OrderedPart(s.collected, 1, 1);
  }

  lemma {:induction false} DrainOrdered(s: State)
    requires QueuesOrdered(s)
    ensures QueuesOrdered(DrainOne(s))
  {
    hide Ordered;
    if s.mode != Asap && s.collected != [] {
      RunFrontOrdered(s, true);
    } else if s.deferred != [] {
      OrderedPart(s.deferred, 1, 1);
    }
  }

  lemma {:induction false} CollectOrdered(s: State)
    requires Queued(s) && QueuesOrdered(s)
    ensures QueuesOrdered(CollectTasks(s))
  {
    var n := ExpiredCount(s.deferred, s.now);
    CollectParts(s);
    OrderedPart(s.deferred, 0, n);
    OrderedPart(s.deferred, n, n);
    OrderedConcat(s.tasks, s.deferred[..n]);
    EmptyOrdered();
    hide Ordered, ExpiredCount, Queued, NoneDeferred, AllDeferred;
  }

  lemma {:induction false} EmptyOrdered()
    ensures Ordered([])
  {
  }

  lemma {:induction false} CollectParts(s: State)
    requires Queued(s)
    ensures var n := ExpiredCount(s.deferred, s.now);
            s.deferred[..n] == s.deferred[0..n] && NoneDeferred(s.tasks) && AllDeferred(s.deferred[..n])
  {
    hide ExpiredCount, Sorted, Numbered;
  }

  /** In every run the batch the worker executes, and what waits in its queues, is ordered: immediate tasks first, as
      they were added, then deferred ones by deadline, equal deadlines as they were added. */
  lemma {:induction false} BatchesOrdered(mode: ReleaseMode, start: int, steps: seq<Step>)
    requires IsRun(Start(mode, start), steps)
    ensures QueuesOrdered(After(Start(mode, start), steps))
  {
    var s0 := Start(mode, start);
    if steps == [] {
      EmptyOrdered();
    } else {
      hide QueuesOrdered, Inv, Next, Enabled;
      var init := steps[..|steps| - 1];
      BatchesOrdered(mode, start, init);
      StartInv(mode, start);
      RunKeeps(s0, init);
      StepOrdered(After(s0, init), steps[|steps| - 1]);
    }
  }

  lemma {:induction false} ConservedPlace(s: State, t: Task)
    requires Conserved(s) && t in s.added && t !in s.collected && t !in s.tasks && t !in s.deferred
    ensures t in Ran(s.executed)
  {
    assert t in multiset(s.added);
    assert multiset(s.collected)[t] == 0 && multiset(s.tasks)[t] == 0 && multiset(s.deferred)[t] == 0;
    assert multiset(Ran(s.executed))[t] > 0;
  }

  predicate HasRun(s: State, t: Task) {
    exists k :: 0 <= k < |s.executed| && s.executed[k].task == t
  }

  lemma {:induction false} HasRunIff(s: State, t: Task)
    ensures HasRun(s, t) <==> t in Ran(s.executed)
  {
    if t in Ran(s.executed) {
      var k :| 0 <= k < |Ran(s.executed)| && Ran(s.executed)[k] == t;
      assert s.executed[k].task == t;
    }
    if HasRun(s, t) {
      var k :| 0 <= k < |s.executed| && s.executed[k].task == t;
      assert Ran(s.executed)[k] == t;
    }
  }

  lemma {:induction false} RanNotCollected(s: State, t: Task)
    requires Conserved(s) && Numbered(s.added) && t in Ran(s.executed)
    ensures t !in s.collected
  {
    NumberedOnce(s.added, t);
    assert t in multiset(Ran(s.executed));
    assert t in s.collected ==> t in multiset(s.collected);
  }

  /** What a task must be for a finished worker to have run it. */
  predicate RunsInTheEnd(s: State, t: Task) {
    match s.mode
    case DoAllDone => t.id < s.addedAtCollect || (t.deferred && t.id < s.addedAtLock)
    case DoShouldDone => Found(t, s)
    case Asap => Found(t, s) && t !in s.collected
  }

  lemma {:induction false} DoneRunsExactly(s: State, t: Task)
    requires Inv(s) && s.phase == Done && t in s.added
    ensures HasRun(s, t) <==> RunsInTheEnd(s, t)
  {
    HasRunIff(s, t);
    hide HasRun, InOrder, OnTime, Ran, Sorted;
    if HasRun(s, t) {
      RanNotCollected(s, t);
      RanFound(s, t);
    } else if RunsInTheEnd(s, t) {
      NotQueued(s, t);
      hide Closed, Queued;
      ConservedPlace(s, t);
    }
  }

  lemma {:induction false} RanFound(s: State, t: Task)
    requires Closed(s) && s.phase == Done && t in Ran(s.executed)
    ensures Found(t, s) || Drained(t, s)
  {
    hide Ran;
  }

  lemma {:induction false} NotQueued(s: State, t: Task)
    requires Closed(s) && Queued(s) && s.phase == Done && RunsInTheEnd(s, t)
    ensures t !in s.collected && t !in s.tasks && t !in s.deferred
  {
    hide Ran, Sorted, Numbered;
  }

  /** Exactly what a finished worker has run: in DO_ALL_DONE, the tasks added before it looked for the last time and the
      deferred ones added before it locked for the last time; in DO_SHOULD_DONE, of the former those that were immediate
      or whose deadline had come by that look; and when told to stop at once, these less the ones collected last.
      NoTaskTwice says that none of them ran more than once. */
  lemma {:induction false} FinishedRunsExactly(mode: ReleaseMode, start: int, steps: seq<Step>, i: nat)
    requires IsRun(Start(mode, start), steps) && After(Start(mode, start), steps).phase == Done
    requires i < |After(Start(mode, start), steps).added|
    ensures var s := After(Start(mode, start), steps);
            var t := s.added[i];
            && s.mode == mode && t.id == i
            && s.addedBeforeStop <= s.addedAtCollect <= s.addedAtLock <= |s.added|
            && (HasRun(s, t) <==> RunsInTheEnd(s, t))
  {
    StartInv(mode, start);
    RunKeeps(Start(mode, start), steps);
    var s := After(Start(mode, start), steps);
    hide After, IsRun, InOrder, OnTime, Conserved, Ran, Sorted, AllFound;
    DoneRunsExactly(s, s.added[i]);
  }

  /** So the tasks added before stop_and_join began have run: in DO_ALL_DONE all of them, in DO_SHOULD_DONE every
      immediate one and every one whose deadline had come when the worker last looked. */
  lemma {:induction false} FinishedRunsAll(mode: ReleaseMode, start: int, steps: seq<Step>, i: nat)
    requires IsRun(Start(mode, start), steps) && After(Start(mode, start), steps).phase == Done
    requires i < After(Start(mode, start), steps).addedBeforeStop
    ensures var s := After(Start(mode, start), steps);
            && i < |s.added|
            && (mode == DoAllDone ==> HasRun(s, s.added[i]))
            && (mode == DoShouldDone && (s.added[i].deferred ==> s.added[i].deadline <= s.lastCollect) ==>
                  HasRun(s, s.added[i]))
  {
    StartInv(mode, start);
    RunKeeps(Start(mode, start), steps);
    hide IsRun, Queued, Conserved, InOrder, OnTime, HasRun;
    FinishedRunsExactly(mode, start, steps, i);
  }

  /** A task added after the last look at the queue is left behind, even when told to do everything: the worker has
      released the lock once more by then. */
  lemma {:induction false} AddedTooLate()
    ensures var steps := [Stop, Collect, Add(0), Lock, Drain];
            && IsRun(Start(DoAllDone, 0), steps)
            && var s := After(Start(DoAllDone, 0), steps);
               s.phase == Done && s.executed == [] && s.tasks == [Task(0, false, 0)]
  {
    hide *;
    LateStates();
    var s0 := Start(DoAllDone, 0);
    var s1 := Next(s0, Stop);
    var s2 := Next(s1, Collect);
    var s3 := Next(s2, Add(0));
    var s4 := Next(s3, Lock);
    RunOne(s4, Drain);
    RunCons(s3, Lock, [Drain]);
    RunCons(s2, Add(0), [Lock] + [Drain]);
    RunCons(s1, Collect, [Add(0)] + ([Lock] + [Drain]));
    RunCons(s0, Stop, [Collect] + ([Add(0)] + ([Lock] + [Drain])));
    assert [Stop] + ([Collect] + ([Add(0)] + ([Lock] + [Drain]))) == [Stop, Collect, Add(0), Lock, Drain];
  }

  lemma {:induction false} LateStates()
    ensures var s0 := Start(DoAllDone, 0);
            && Enabled(s0, Stop)
            && var s1 := Next(s0, Stop);
            && Enabled(s1, Collect)
            && var s2 := Next(s1, Collect);
            && Enabled(s2, Add(0))
            && var s3 := Next(s2, Add(0));
            && Enabled(s3, Lock)
            && var s4 := Next(s3, Lock);
            && Enabled(s4, Drain)
            && var s5 := Next(s4, Drain);
               s5.phase == Done && s5.executed == [] && s5.tasks == [Task(0, false, 0)]
  {
  }

  lemma {:induction false} RunOne(s: State, step: Step)
    requires Enabled(s, step)
    ensures IsRun(s, [step]) && After(s, [step]) == Next(s, step)
  {
    RunSnoc(s, [], step);
    assert [] + [step] == [step];
  }

  lemma {:induction false} RunSnoc(s: State, steps: seq<Step>, step: Step)
    requires IsRun(s, steps) && Enabled(After(s, steps), step)
    ensures IsRun(s, steps + [step]) && After(s, steps + [step]) == Next(After(s, steps), step)
  {
    assert (steps + [step])[..|steps|] == steps;
  }

  // ----- shutting down

  /** The step the worker itself takes next. */
  function WorkerStep(s: State): Step
    requires s.phase != Done
  {
    match s.phase
    case Waiting => Collect
    case Executing => if s.collected != [] then Execute else LoopBack
    case Leaving => Lock
    case _ => Drain
  }

  /** How many steps the worker has left at most. */
  function WorkLeft(s: State): nat {
    var queued := |s.collected| + |s.tasks| + |s.deferred|;
    match s.phase
    case Executing => queued + 5
    case Waiting => queued + 4
    case Leaving => queued + 3
    case Draining => queued + 2
    case Done => 0
  }

  /** With the exit flag set, the worker is never blocked and every step of it brings it closer to the end. */
  lemma {:induction false} WorkerProgresses(s: State)
    requires s.exitFlag && s.phase != Done && (s.phase == Waiting ==> s.collected == [])
    ensures Enabled(s, WorkerStep(s))
    ensures WorkLeft(Next(s, WorkerStep(s))) < WorkLeft(s)
    ensures Next(s, WorkerStep(s)).exitFlag
  {
  }

  /** Left alone, with no more tasks added, the worker ends within that many steps of its own. */
  lemma {:induction false} ShutdownEnds(s: State, budget: nat) returns (steps: seq<Step>)
    requires Inv(s) && s.exitFlag && WorkLeft(s) <= budget
    ensures IsRun(s, steps) && After(s, steps).phase == Done && |steps| <= budget
    decreases budget
  {
    if s.phase == Done {
      steps := [];
    } else {
      QueuedParts(s);
      WorkerProgresses(s);
      var step := WorkerStep(s);
      StepKeeps(s, step);
      hide Inv, Next, Enabled;
      var rest := ShutdownEnds(Next(s, step), budget - 1);
      RunCons(s, step, rest);
      steps := [step] + rest;
    }
  }

  lemma {:induction false} RunCons(s: State, step: Step, rest: seq<Step>)
    requires Enabled(s, step) && IsRun(Next(s, step), rest)
    ensures IsRun(s, [step] + rest) && After(s, [step] + rest) == After(Next(s, step), rest)
    decreases |rest|
  {
    hide Next, Enabled;
    if rest == [] {
      assert [step] + rest == [] + [step];
      RunSnoc(s, [], step);
    } else {
      var init, last := rest[..|rest| - 1], rest[|rest| - 1];
      RunCons(s, step, init);
      assert [step] + rest == ([step] + init) + [last];
      RunSnoc(s, [step] + init, last);
    }
  }

  // ----- a task whose time has come

  /** The worker is in its loop, and the task has been collected, or is queued and may be. */
  predicate Due(s: State, t: Task) {
    && s.phase in {Waiting, Executing} && !s.exitFlag
    && (t in s.collected || t in s.tasks || (t in s.deferred && t.deadline <= s.now))
  }

  /** How many steps of the worker it is away at most. */
  function Delay(s: State, t: Task): nat {
    if t in s.collected then |s.collected|
    else |s.tasks| + |s.deferred| + (if s.phase == Waiting then 1 else |s.collected| + 2)
  }

  lemma {:induction false} DueCollected(s: State, t: Task)
    requires Queued(s) && Due(s, t) && s.phase == Waiting
    ensures Due(CollectTasks(s), t) && t in CollectTasks(s).collected
    ensures |CollectTasks(s).collected| <= |s.tasks| + |s.deferred|
  {
    ExpiredExactly(s.deferred, s.now);
    hide ExpiredCount, Sorted, Numbered, AllDeferred, NoneDeferred;
  }

  lemma {:induction false} DueExecuted(s: State, t: Task)
    requires Due(s, t) && s.collected != [] && s.phase == Executing
    ensures HasRun(RunFront(s, false), t) || (Due(RunFront(s, false), t) && Delay(RunFront(s, false), t) < Delay(s, t))
  {
    var u := RunFront(s, false);
    assert s.collected == [s.collected[0]] + s.collected[1..];
    if s.collected[0] == t {
      assert u.executed[|s.executed|].task == t;
    }
  }

  predicate Towards(s: State, u: State, t: Task) {
    HasRun(u, t) || (Due(u, t) && Delay(u, t) < Delay(s, t))
  }

  lemma {:induction false} DueLoops(s: State, t: Task)
    requires Due(s, t) && s.collected == [] && s.phase == Executing
    ensures Towards(s, s.(phase := Waiting), t)
  {
  }

  lemma {:induction false} DueWaits(s: State, t: Task)
    requires Queued(s) && Due(s, t) && s.phase == Waiting
    ensures Enabled(s, Collect) && Towards(s, CollectTasks(s), t) && Delay(s, t) > 0
  {
    DueCollected(s, t);
    QueuedParts(s);
    hide CollectTasks, HasRun, Queued;
  }

  /** The worker's next step runs it or brings it closer. */
  lemma {:induction false} DueProgresses(s: State, t: Task)
    requires Queued(s) && Due(s, t)
    ensures WorkerStep(s) in {Collect, Execute, LoopBack} && Enabled(s, WorkerStep(s)) && Delay(s, t) > 0
    ensures Towards(s, Next(s, WorkerStep(s)), t)
  {
    hide HasRun, CollectTasks, RunFront, Queued;
    if s.phase == Waiting {
      hide Towards;
      DueWaits(s, t);
    } else if s.collected != [] {
      DueExecuted(s, t);
    } else {
      hide Towards;
      DueLoops(s, t);
    }
  }

  /** Left alone, a worker in its loop runs a task whose time has come within a bounded number of its own steps, whether
      or not anything else is ever added. */
  lemma {:induction false} DueTaskRuns(s: State, t: Task, budget: nat) returns (steps: seq<Step>)
    requires Inv(s) && Due(s, t) && Delay(s, t) <= budget
    ensures IsRun(s, steps) && HasRun(After(s, steps), t) && |steps| <= budget
    ensures forall i :: 0 <= i < |steps| ==> steps[i] in {Collect, Execute, LoopBack}
    decreases budget
  {
    hide *;
    var step := DueStep(s, t);
    if HasRun(Next(s, step), t) {
      RunOne(s, step);
      steps := [step];
    } else {
      var rest := DueTaskRuns(Next(s, step), t, budget - 1);
      RunCons(s, step, rest);
      steps := [step] + rest;
    }
  }

  lemma {:induction false} DueStep(s: State, t: Task) returns (step: Step)
    requires Inv(s) && Due(s, t)
    ensures step in {Collect, Execute, LoopBack} && Enabled(s, step) && Inv(Next(s, step)) && Delay(s, t) > 0
    ensures HasRun(Next(s, step), t) || (Due(Next(s, step), t) && Delay(Next(s, step), t) < Delay(s, t))
  {
    DueLoopOnly(s, t);
    assert Queued(s);
    hide Inv, Next, Enabled, Due, HasRun, WorkerStep, Delay, Queued;
    step := WorkerStep(s);
    DueProgresses(s, t);
    StepKeeps(s, step);
  }

  lemma {:induction false} DueLoopOnly(s: State, t: Task)
    requires Due(s, t)
    ensures s.phase != Done
  {
  }
}
