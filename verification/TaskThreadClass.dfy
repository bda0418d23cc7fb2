/** chef::task_thread: the queues its critical sections update, proved against the state machine of TaskThread. */
module TaskThreadClass {
  import T = TaskThread
  import opened TaskThread

  /** Draining until there is nothing left to do. */
  function DrainAll(s: State): State
    requires s.phase == Draining
    decreases |s.collected| + |s.deferred|
  {
    var t := DrainOne(s);
    if t.phase == Done then t else DrainAll(t)
  }

  /** The final drain is a run of drain steps that ends the worker. */
  lemma {:induction false} DrainAllEnds(s: State)
    requires s.phase == Draining && Inv(s)
    ensures DrainAll(s).phase == Done && Inv(DrainAll(s))
    decreases |s.collected| + |s.deferred|
  {
    DrainKeeps(s);
    hide Inv;
    if DrainOne(s).phase != Done {
      DrainAllEnds(DrainOne(s));
    }
  }

  class TaskQueue {
    const releaseMode: ReleaseMode
    var tasks: seq<Task>
    /** The multimap from begin() to end(). */
    var deferredTasks: seq<Task>
    /** Local to the worker. */
    var collectTasks: seq<Task>
    var exitFlag: bool
    var phase: Phase
    var now: int
    var added: seq<Task>
    var executed: seq<Execution>
    ghost var addedBeforeStop: nat
    ghost var lastCollect: int
    ghost var addedAtCollect: nat
    ghost var addedAtLock: nat

    ghost function State(): State
      reads this
    {
      T.State(releaseMode, tasks, deferredTasks, collectTasks, exitFlag, phase, now, added, executed,
              addedBeforeStop, lastCollect, addedAtCollect, addedAtLock)
    }

    constructor (rm: ReleaseMode, now: int)
      ensures State() == Start(rm, now)
    {
      releaseMode := rm;
      tasks, deferredTasks, collectTasks := [], [], [];
      exitFlag, phase, this.now := false, Waiting, now;
      added, executed := [], [];
      addedBeforeStop, lastCollect, addedAtCollect, addedAtLock := 0, 0, 0, 0;
    }

    method Add(deferredTimeMs: int)
      requires Enabled(State(), Step.Add(deferredTimeMs))
      modifies this
      ensures State() == Next(old(State()), Step.Add(deferredTimeMs))
    {
      if deferredTimeMs == 0 {
        var t := Task(|added|, false, 0);
        tasks := tasks + [t];
        added := added + [t];
      } else {
        var t := Task(|added|, true, now + deferredTimeMs);
        InsertDeferred(t);
        added := added + [t];
      }
    }

    /** std::multimap::insert. */
    method InsertDeferred(t: Task)
      modifies `deferredTasks
      ensures deferredTasks == Insert(old(deferredTasks), t)
    {
      var i := 0;
      while i < |deferredTasks| && t.deadline >= deferredTasks[i].deadline
        invariant i <= |deferredTasks|
        invariant Insert(deferredTasks, t) == deferredTasks[..i] + Insert(deferredTasks[i..], t)
      {
        assert deferredTasks[i..] == [deferredTasks[i]] + deferredTasks[i + 1..];
        assert deferredTasks[..i + 1] == deferredTasks[..i] + [deferredTasks[i]];
        i := i + 1;
      }
      deferredTasks := deferredTasks[..i] + [t] + deferredTasks[i..];
    }

    /** append_expired_tasks_. */
    method AppendExpiredTasks()
      modifies `collectTasks, `deferredTasks
      ensures var n := ExpiredCount(old(deferredTasks), now);
              collectTasks == old(collectTasks) + old(deferredTasks)[..n] && deferredTasks == old(deferredTasks)[n..]
    {
      var iter := 0;
      while iter < |deferredTasks| && deferredTasks[iter].deadline <= now
        modifies `collectTasks
        invariant iter <= |deferredTasks|
        invariant ExpiredCount(deferredTasks, now) == iter + ExpiredCount(deferredTasks[iter..], now)
        invariant collectTasks == old(collectTasks) + deferredTasks[..iter]
      {
        assert deferredTasks[iter..][1..] == deferredTasks[iter + 1..];
        assert deferredTasks[..iter + 1] == deferredTasks[..iter] + [deferredTasks[iter]];
        collectTasks := collectTasks + [deferredTasks[iter]];
        iter := iter + 1;
      }
      deferredTasks := deferredTasks[iter..];
    }

    /** The body of the worker's lock scope, once it stops waiting. */
    method CollectUnderLock()
      requires Enabled(State(), Collect) && collectTasks == []
      modifies this
      ensures State() == Next(old(State()), Collect)
    {
      if tasks != [] {
        collectTasks, tasks := tasks, collectTasks;
      }
      if deferredTasks != [] {
        AppendExpiredTasks();
      }
      if exitFlag {
        phase := Leaving;
        lastCollect := now;
        addedAtCollect := |added|;
      } else {
        phase := Executing;
      }
    }

    /** One turn of execute_tasks_ over the deque. */
    method ExecuteFront(final: bool)
      requires collectTasks != []
      modifies `collectTasks, `executed
      ensures State() == RunFront(old(State()), final)
    {
      executed := executed + [Execution(collectTasks[0], now, final)];
      collectTasks := collectTasks[1..];
    }

    /** stop_and_join, up to the join. */
    method Stop()
      requires !exitFlag
      modifies `exitFlag, `addedBeforeStop
      ensures State() == Next(old(State()), Step.Stop)
    {
      exitFlag := true;
      addedBeforeStop := |added|;
    }

    /** The worker locks once more, after its loop. */
    method LockAgain()
      requires phase == Leaving
      modifies `phase, `addedAtLock
      ensures State() == Next(old(State()), Lock)
    {
      phase := Draining;
      addedAtLock := |added|;
    }

    /** What the worker does under its last lock. */
    method FinalDrain()
      requires phase == Draining
      modifies this
      ensures State() == DrainAll(old(State()))
    {
      if releaseMode != Asap {
        while collectTasks != []
          invariant phase == Draining && DrainAll(State()) == DrainAll(old(State()))
          decreases |collectTasks|
        {
          ExecuteFront(true);
        }
      }
      if releaseMode == DoAllDone {
        while deferredTasks != []
          invariant phase == Draining && collectTasks == [] && DrainAll(State()) == DrainAll(old(State()))
          decreases |deferredTasks|
        {
          executed := executed + [Execution(deferredTasks[0], now, true)];
          deferredTasks := deferredTasks[1..];
        }
      }
      phase := Done;
    }
  }
}
