/** The sections of ThreadManager that run under its mutex, as the code that they are. */
module ThreadManagerImpl {
  import opened Bytes
  import opened ThreadManager
  import T = ThreadManager

  datatype Admission = Entered | Waits | NotStarted

  class Impl {
    var mode: Mode
    var workerCount: int
    var workerMaxCount: int
    var places: map<Worker, Place>       // what each thread does while it does not hold the mutex
    var tasks: seq<Task>                 // tasks_
    var status: seq<Status>              // the state_ of each task, and what became of it
    ghost var popped: seq<nat>
    var blocked: nat
    var pendingTaskCountMax: nat
    var expireCallback: bool
    var expiredCount: nat
    ghost var change: Change
    var now: nat                         // the clock

    ghost function Now(): Manager
      reads this
    {
      Manager(mode, workerCount, workerMaxCount, places, tasks, status, popped, blocked, pendingTaskCountMax,
              expireCallback, expiredCount, change, now)
    }

    constructor (pendingTaskCountMax: nat, expireCallback: bool)
      ensures T.Init(Now())
      ensures this.pendingTaskCountMax == pendingTaskCountMax && this.expireCallback == expireCallback
    {
      mode, workerCount, workerMaxCount, places := Uninitialized, 0, 0, map[];
      tasks, status, popped, blocked := [], [], [], 0;
      this.pendingTaskCountMax, this.expireCallback := pendingTaskCountMax, expireCallback;
      expiredCount, change, now := 0, NoChange, 0;
    }

    /** `task->state_ = …`. */
    method Mark(id: nat, s: Status)
      modifies this`status
      ensures Now() == SetStatus(old(Now()), id, s)
    {
      if id < |status| {
        status := status[id := s];
      }
    }

    /** `Worker::run` from the top of its loop until the mutex is let go. */
    method WorkerLoop(w: Worker)
      modifies this
      ensures Now() == Loop(old(Now()), w)
    {
      hide Loop, Pop, SetStatus, IsExpired;
      while true
        invariant Loop(old(Now()), w) == Loop(Now(), w)
        decreases |tasks|
      {
        LoopTurn(Now(), w);
        var active := workerCount <= workerMaxCount || (mode == Joining && tasks != []);
        if !active {
          places := places - {w};
          workerCount := workerCount - 1;
          return;
        }
        if tasks == [] {
          places := places[w := Waiting];
          return;
        }
        var t := tasks[0];
        var late := IsExpired(t, now);
        PopFields(Now(), if late then Expired else Executing);
        Mark(t.id, if late then Expired else Executing);
        tasks := tasks[1..];
        popped := popped + [t.id];
        if !late {
          places := places[w := Running(t)];
          return;
        }
        if expireCallback {
          places := places[w := Reporting(t)];
          return;
        }
      }
    }

    /** The first turn of the loop, field by field. */
    static lemma LoopTurn(m: Manager, w: Worker)
      ensures Loop(m, w) ==
              if !IsActive(m) then m.(workers := m.workers - {w}, workerCount := m.workerCount - 1)
              else if m.tasks == [] then m.(workers := m.workers[w := Waiting])
              else
                var t := m.tasks[0];
                var marked := SetStatus(m, t.id, if IsExpired(t, m.now) then Expired else Executing);
                var n := marked.(tasks := m.tasks[1..], popped := m.popped + [t.id]);
                if !IsExpired(t, m.now) then n.(workers := m.workers[w := Running(t)])
                else if m.expireCallback then n.(workers := m.workers[w := Reporting(t)])
                else Loop(n, w)
    {
      hide IsExpired;
    }

    static lemma PopFields(m: Manager, s: Status)
      requires m.tasks != []
      ensures Pop(m, s) == SetStatus(m, m.tasks[0].id, s).(tasks := m.tasks[1..], popped := m.popped + [m.tasks[0].id])
      ensures SetStatus(m, m.tasks[0].id, s) == m.(status := SetStatus(m, m.tasks[0].id, s).status)
    {
    }

    /** A worker thread starts. */
    method WorkerBegin(w: Worker)
      requires At(Now(), w, Starting)
      modifies this
      ensures Now() == Admit(old(Now()), w)
    {
      hide Loop;
      var active := workerCount < workerMaxCount;
      if active {
        workerCount := workerCount + 1;
        places := places[w := Waiting];
        WorkerLoop(w);
      } else {
        places := places - {w};
        workerCount := workerCount - 1;
      }
    }

    /** A worker comes back from its task, or from the callback. */
    method WorkerFinish(w: Worker)
      requires Enabled(Now(), Finish(w))
      modifies this
      ensures Now() == Next(old(Now()), Finish(w))
    {
      hide Loop;
      match places[w]
      case Running(t) =>
        Mark(t.id, Completed);
        WorkerLoop(w);
      case Reporting(_) =>
        expiredCount := expiredCount + 1;
        WorkerLoop(w);
    }

    /** `removeExpired`. */
    method RemoveExpiredTasks(justOne: bool)
      modifies this`tasks, this`status, this`expiredCount
      ensures Now() == RemoveExpired(old(Now()), 0, justOne)
    {
      hide IsExpired, SetStatus;
      var it := 0;
      while it < |tasks|
        invariant 0 <= it <= |tasks|
        invariant RemoveExpired(old(Now()), 0, justOne) == RemoveExpired(Now(), it, justOne)
        decreases |tasks| - it
      {
        if IsExpired(tasks[it], now) {
          ghost var m := Now();
          DropFields(m, it, Expired);
          Mark(tasks[it].id, Expired);
          tasks := tasks[..it] + tasks[it + 1..];
          expiredCount := expiredCount + 1;
          if justOne { return; }
        } else {
          it := it + 1;
        }
      }
    }

    static lemma DropFields(m: Manager, i: nat, s: Status)
      requires i < |m.tasks|
      ensures DropAt(m, i, s) == SetStatus(m, m.tasks[i].id, s).(tasks := m.tasks[..i] + m.tasks[i + 1..])
      ensures SetStatus(m, m.tasks[i].id, s) == m.(status := SetStatus(m, m.tasks[i].id, s).status)
    {
    }

    /** `add`, up to where it has pushed its task or has to wait. */
    method Add(runnable: nat, expire: Option<nat>) returns (r: Admission)
      modifies this`tasks, this`status, this`expiredCount, this`blocked
      ensures r == NotStarted <==> old(mode) != Started
      ensures r == NotStarted ==> Now() == old(Now())
      ensures r == Entered ==> Enabled(old(Now()), Step.Add(runnable, expire))
                               && Now() == Next(old(Now()), Step.Add(runnable, expire))
      ensures r == Waits ==> Enabled(old(Now()), Block) && Now() == Next(old(Now()), Block)
    {
      hide RemoveExpired;
      if mode != Started { return NotStarted; }
      if pendingTaskCountMax > 0 && |tasks| >= pendingTaskCountMax {
        RemoveExpiredTasks(true);
      }
      if pendingTaskCountMax > 0 && |tasks| >= pendingTaskCountMax {
        blocked := blocked + 1;
        return Waits;
      }
      tasks := tasks + [Task(|status|, runnable, expire)];
      status := status + [Pending];
      r := Entered;
    }

    /** A blocked `add` wakes: it does not look at the state of the manager again. */
    method AddWakes(runnable: nat, expire: Option<nat>) returns (entered: bool)
      requires blocked > 0
      modifies this`tasks, this`status, this`blocked
      ensures entered ==> Enabled(old(Now()), Unblock(runnable, expire))
                          && Now() == Next(old(Now()), Unblock(runnable, expire))
      ensures !entered ==> Full(Now()) && Now() == old(Now())
    {
      if pendingTaskCountMax > 0 && |tasks| >= pendingTaskCountMax { return false; }
      tasks := tasks + [Task(|status|, runnable, expire)];
      status := status + [Pending];
      blocked := blocked - 1;
      return true;
    }

    /** `remove`: the first pending task that has this runnable. */
    method Remove(runnable: nat) returns (ok: bool)
      modifies this`tasks, this`status
      ensures ok <==> old(mode) == Started
      ensures Now() == if ok then Next(old(Now()), Step.Remove(runnable)) else old(Now())
    {
      hide SetStatus, IndexOf;
      if mode != Started { return false; }
      var it := 0;
      while it < |tasks|
        invariant 0 <= it <= |tasks| && Now() == old(Now())
        invariant IndexOf(tasks, runnable)
               == match IndexOf(tasks[it..], runnable) case None => None case Some(k) => Some(it + k)
      {
        IndexTurn(tasks, it, runnable);
        if tasks[it].runnable == runnable {
          DropFields(Now(), it, Status.Removed);
          Mark(tasks[it].id, Status.Removed);
          tasks := tasks[..it] + tasks[it + 1..];
          return true;
        }
        it := it + 1;
      }
      IndexTurn(tasks, it, runnable);
      return true;
    }

    static lemma IndexTurn(tasks: seq<Task>, it: nat, runnable: nat)
      requires it <= |tasks|
      ensures IndexOf(tasks[it..], runnable) ==
              if it == |tasks| then None
              else if tasks[it].runnable == runnable then Some(0)
              else match IndexOf(tasks[it + 1..], runnable) case None => None case Some(k) => Some(k + 1)
    {
      if it < |tasks| { assert tasks[it..][1..] == tasks[it + 1..]; }
    }

    /** `removeNextPending`. */
    method TakeNextPending() returns (t: Option<Task>)
      modifies this`tasks, this`status, this`popped
      ensures t == None <==> old(mode) != Started || old(tasks) == []
      ensures t == None ==> Now() == old(Now())
      ensures t.Some? ==> t.value == old(tasks)[0] && Now() == Next(old(Now()), RemoveNextPending)
    {
      hide SetStatus;
      if mode != Started || tasks == [] { return None; }
      PopFields(Now(), Status.Removed);
      t := Some(tasks[0]);
      Mark(tasks[0].id, Status.Removed);
      popped := popped + [tasks[0].id];
      tasks := tasks[1..];
    }
  }
}
