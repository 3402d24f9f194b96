/** The sections of TimerManager that hold its monitor, as they change its fields; each is a
    step of the state machine. */
module TimerManagerImpl {
  import opened Bytes
  import opened T = TimerManager

  datatype Refusal = InvalidArgument | IllegalState | NoSuchTask | UncancellableTask

  class Impl {
    var mode: Mode                // state_
    var taskMap: seq<Entry>       // taskMap_
    var taskCount: int            // taskCount_
    var timers: seq<Timer>        // the tasks and their state_
    var place: Place              // where the dispatcher is while it does not hold the monitor
    var now: nat                  // the clock

    ghost function Now(): Manager
      reads this
    {
      Manager(mode, taskMap, taskCount, timers, place, now)
    }

    constructor ()
      ensures T.Init(Now())
    {
      mode, taskMap, taskCount, timers, place := Uninitialized, [], 0, [], NoThread;
    }

    /** `task->state_ = …`. */
    method Mark(id: nat, s: Status)
      modifies this`timers
      ensures Now() == old(Now()).(timers := SetStatus(old(timers), id, s))
    {
      if id < |timers| {
        timers := timers[id := timers[id].(status := s)];
      }
    }

    /** `monitor_.notify()`. */
    method NotifyDispatcher()
      modifies this`place
      ensures Now() == Notify(old(Now()))
    {
      match place
      case Sleeping(until, _) => place := Sleeping(until, true);
      case _ =>
    }

    // ---------------------------------------------------------------- the dispatcher

    /** A section of the loop of `Dispatcher::run`, up to where it waits, lets the monitor go
        to run what is due, or leaves. */
    method DispatcherSection()
      requires Inv(Now()) && (place == Between || place.Sleeping?)
      modifies this`taskMap, this`taskCount, this`timers, this`place
      ensures Now() == Section(old(Now()))
      ensures Inv(Now())
    {
      SectionKeeps(Now());
      hide Inv, Due, SetAll;
      if mode != Started {
        place := Leaving;
        return;
      }
      var end := Due(taskMap, now);
      if end == 0 {
        place := Sleeping(if taskMap == [] then None else Some(now + Timeout(taskMap[0].deadline, now) * MILLISECOND), false);
        return;
      }
      var expired := TakeDue(end);
      place := Dispatching(expired);
    }

    /** The entries before `end` go from the map to the set of expired tasks. */
    method TakeDue(end: nat) returns (expired: set<nat>)
      requires Inv(Now()) && end <= |taskMap|
      modifies this`taskMap, this`taskCount, this`timers
      ensures expired == Ids(old(taskMap)[..end]) && taskMap == old(taskMap)[end..]
      ensures taskCount == old(taskCount) - end && timers == SetAll(old(timers), old(taskMap)[..end], Executing)
    {
      var ix := 0;
      expired := {};
      while ix < end
        invariant ix <= end && expired == Ids(taskMap[..ix]) && taskCount == old(taskCount) - ix
        invariant SetAll(old(timers), taskMap[..end], Executing) == SetAll(timers, taskMap[ix..end], Executing)
        invariant AwaitsFrom(taskMap, timers, ix)
        modifies this`taskCount, this`timers
      {
        var id := taskMap[ix].id;
        TakeOne(taskMap, ix, end);
        NextAwaits(taskMap, timers, ix);
        expired := expired + {id};
        if timers[id].status == Pending {
          Mark(id, Executing);
        }
        taskCount := taskCount - 1;
        ix := ix + 1;
      }
      taskMap := taskMap[end..];
    }

    static predicate AwaitsFrom(es: seq<Entry>, ts: seq<Timer>, k: nat) {
      && Ordered(es)
      && forall j :: k <= j < |es| ==> es[j].id < |ts| && ts[es[j].id].status == Pending
    }

    static lemma TakeOne(es: seq<Entry>, k: nat, end: nat)
      requires k < end <= |es|
      ensures es[k..end][0] == es[k] && es[k..end][1..] == es[k + 1..end]
      ensures Ids(es[..k + 1]) == Ids(es[..k]) + {es[k].id}
    {
    }

    static lemma NextAwaits(es: seq<Entry>, ts: seq<Timer>, k: nat)
      requires k < |es| && AwaitsFrom(es, ts, k)
      ensures AwaitsFrom(es, SetStatus(ts, es[k].id, Executing), k + 1)
    {
    }

    /** `Task::run` of a timer of the batch: it is due, and has never been run or removed. */
    method RunTimer(id: nat)
      requires Inv(Now()) && Enabled(Now(), RunOne(id))
      modifies this`timers, this`place
      ensures Now() == Next(old(Now()), RunOne(id)) && Inv(Now())
      ensures id < |timers| && timers[id].deadline <= now && old(timers)[id].status == Executing
      ensures forall steps :: IsRun(Now(), steps) ==> Runs(steps, id) == 0
    {
      StepKeeps(Now(), RunOne(id));
      Mark(id, Complete);
      place := Dispatching(place.batch - {id});
      forall steps | IsRun(Now(), steps) ensures Runs(steps, id) == 0 {
        RunsOnce(Now(), steps, id);
      }
    }

    // ---------------------------------------------------------------- callers

    /** `add`; `called` is the time at which it was called. */
    method Add(called: nat, deadline: nat, runnable: nat) returns (r: Result<nat, Refusal>)
      requires called <= now
      modifies this`taskMap, this`taskCount, this`timers, this`place
      ensures r == Err(InvalidArgument) <==> deadline < called
      ensures r == Err(IllegalState) <==> called <= deadline && mode != Started
      ensures r.Err? ==> Now() == old(Now())
      ensures r.Ok? ==> r.value == |old(timers)| && Enabled(old(Now()), Step.Add(called, deadline, runnable))
                        && Now() == Next(old(Now()), Step.Add(called, deadline, runnable))
    {
      if deadline < called { return Err(InvalidArgument); }
      if mode != Started { return Err(IllegalState); }
      var required := taskCount == 0 || taskMap == [] || deadline < taskMap[0].deadline;
      taskCount := taskCount + 1;
      taskMap := Insert(taskMap, Entry(deadline, |timers|));
      r := Ok(|timers|);
      timers := timers + [Timer(deadline, runnable, Pending)];
      if required {
        NotifyDispatcher();
      }
    }

    /** Whether a timer of the map, from `k` on, has this runnable. */
    static predicate Has(es: seq<Entry>, ts: seq<Timer>, runnable: nat, k: nat) {
      exists j :: k <= j < |es| && es[j].id < |ts| && ts[es[j].id].runnable == runnable
    }

    /** `remove` of a runnable: an error exactly when no entry has it. */
    method RemoveRunnable(runnable: nat) returns (r: Result<(), Refusal>)
      modifies this`taskMap, this`taskCount, this`timers
      ensures r == Err(IllegalState) <==> mode != Started
      ensures r == Err(NoSuchTask) <==> mode == Started && !Has(old(taskMap), old(timers), runnable, 0)
      ensures r.Err? ==> Now() == old(Now())
      ensures r.Ok? ==> Now() == Next(old(Now()), Step.RemoveRunnable(runnable))
    {
      hide Due, SetStatus, RemoveAll;
      if mode != Started { return Err(IllegalState); }
      var found, ix := false, 0;
      while ix < |taskMap|
        invariant ix <= |taskMap| && mode == Started
        invariant RemoveAll(old(Now()), runnable, 0) == RemoveAll(Now(), runnable, ix)
        invariant !found ==> Now() == old(Now())
        invariant Has(old(taskMap), old(timers), runnable, 0)
             <==> found || Has(old(taskMap), old(timers), runnable, ix)
        decreases |taskMap| - ix
      {
        ghost var m := Now();
        RemoveTurn(m, runnable, ix);
        var id := taskMap[ix].id;
        if id < |timers| && timers[id].runnable == runnable {
          found := true;
          taskCount := taskCount - 1;
          Mark(id, Removed);
          taskMap := taskMap[..ix] + taskMap[ix + 1..];
          assert Now() == DropAt(m, ix);
        } else {
          ix := ix + 1;
        }
      }
      RemoveTurn(Now(), runnable, ix);
      if !found { return Err(NoSuchTask); }
      r := Ok(());
    }

    static lemma RemoveTurn(m: Manager, runnable: nat, i: nat)
      requires i <= |m.taskMap|
      ensures RemoveAll(m, runnable, i) ==
              if i == |m.taskMap| then m
              else
                var id := m.taskMap[i].id;
                if id < |m.timers| && m.timers[id].runnable == runnable then RemoveAll(DropAt(m, i), runnable, i)
                else RemoveAll(m, runnable, i + 1)
    {
    }

    /** `remove` of a timer by its handle; `alive` is whether the handle still leads to a task,
        as it does while the map holds it. */
    method RemoveTimer(id: nat, alive: bool) returns (r: Result<(), Refusal>)
      requires Inv(Now()) && id < |timers| && (timers[id].status == Pending ==> alive)
      modifies this`taskMap, this`taskCount, this`timers
      ensures r == Err(IllegalState) <==> mode != Started
      ensures r.Ok? <==> mode == Started && old(timers[id]).status == Pending
      ensures r == Err(NoSuchTask) <==> mode == Started && !alive
      ensures r.Err? ==> Now() == old(Now())
      ensures r.Ok? ==> Enabled(old(Now()), Step.RemoveTimer(id)) && Now() == Next(old(Now()), Step.RemoveTimer(id))
    {
      Uncancellable(Now(), id);
      if mode != Started { return Err(IllegalState); }
      if !alive { return Err(NoSuchTask); }
      var it := IndexOf(taskMap, id);
      if it == None { return Err(UncancellableTask); }
      Mark(id, Removed);
      taskMap := taskMap[..it.value] + taskMap[it.value + 1..];
      taskCount := taskCount - 1;
      r := Ok(());
    }

    /** The first section of `stop`; whether this caller is the one to clean up. */
    method Stop() returns (doStop: bool)
      modifies this`mode, this`place
      ensures Now() == if Enabled(old(Now()), Step.Stop) then Next(old(Now()), Step.Stop) else old(Now())
      ensures doStop <==> Enabled(old(Now()), Step.Stop) && old(mode) != Uninitialized
    {
      if mode == Uninitialized {
        mode := Stopped;
        return false;
      }
      doStop := mode != Stopping && mode != Stopped;
      if doStop {
        mode := Stopping;
        NotifyDispatcher();
      }
    }
  }
}
