/** ThreadManager: each section that runs under the mutex is one atomic step. */
module ThreadManager {
  import opened Bytes

  type Worker = nat

  datatype Task = Task(id: nat, runnable: nat, expire: Option<nat>)

  /** Where an accepted task is. */
  datatype Status = Pending | Executing | Completed | Expired | Removed

  /** Where a worker thread is while it does not hold the mutex. */
  datatype Place = Starting | Waiting | Running(task: Task) | Reporting(task: Task)

  datatype Mode = Uninitialized | Started | Joining | Stopped

  /** The call that is changing the number of workers; such calls come one at a time. */
  datatype Change = NoChange | Adding | Removing(stopping: bool)

  datatype Manager = Manager(
    mode: Mode,
    workerCount: int,
    workerMaxCount: int,
    workers: map<Worker, Place>,
    tasks: seq<Task>,
    status: seq<Status>,            // of the accepted tasks, by id
    popped: seq<nat>,               // the ids taken from the front of the queue, in order
    blocked: nat,                   // calls of `add` waiting for room
    pendingTaskCountMax: nat,
    expireCallback: bool,
    expiredCount: nat,
    change: Change,
    now: nat)

  predicate Init(m: Manager) {
    && m.mode == Uninitialized && m.workerCount == 0 && m.workerMaxCount == 0 && m.workers == map[]
    && m.tasks == [] && m.status == [] && m.popped == [] && m.blocked == 0 && m.change == NoChange
  }

  /** `Worker::isActive`. */
  predicate IsActive(m: Manager) {
    m.workerCount <= m.workerMaxCount || (m.mode == Joining && m.tasks != [])
  }

  predicate IsExpired(t: Task, now: nat) {
    t.expire.Some? && t.expire.value < now
  }

  predicate Full(m: Manager) {
    m.pendingTaskCountMax > 0 && |m.tasks| >= m.pendingTaskCountMax
  }

  function SetStatus(m: Manager, id: nat, s: Status): Manager {
    if id < |m.status| then m.(status := m.status[id := s]) else m
  }

  // ---------------------------------------------------------------- workers

  /** The final accounting of a worker. */
  function Exit(m: Manager, w: Worker): Manager {
    m.(workers := m.workers - {w}, workerCount := m.workerCount - 1)
  }

  /** The front of the queue is taken and marked. */
  function Pop(m: Manager, s: Status): Manager
    requires m.tasks != []
  {
    SetStatus(m, m.tasks[0].id, s).(tasks := m.tasks[1..], popped := m.popped + [m.tasks[0].id])
  }

  function Put(m: Manager, w: Worker, p: Place): Manager {
    m.(workers := m.workers[w := p])
  }

  /** The loop of `Worker::run` from the top to the next point where the mutex is let go. */
  function Loop(m: Manager, w: Worker): Manager
    decreases |m.tasks|
  {
    if !IsActive(m) then Exit(m, w)
    else if m.tasks == [] then Put(m, w, Waiting)
    else
      var t := m.tasks[0];
      if !IsExpired(t, m.now) then Put(Pop(m, Executing), w, Running(t))
      else if m.expireCallback then Put(Pop(m, Expired), w, Reporting(t))
      else Loop(Pop(m, Expired), w)
  }

  /** The first section of a worker: admission, then the loop; a worker that is not admitted
      goes straight to the final accounting. */
  function Admit(m: Manager, w: Worker): Manager {
    if m.workerCount < m.workerMaxCount then Loop(Put(m, w, Waiting).(workerCount := m.workerCount + 1), w)
    else Exit(m, w)
  }

  // ---------------------------------------------------------------- tasks

  /** A task is taken out of the queue, wherever it is. */
  function DropAt(m: Manager, i: nat, s: Status): Manager
    requires i < |m.tasks|
  {
    SetStatus(m, m.tasks[i].id, s).(tasks := m.tasks[..i] + m.tasks[i + 1..])
  }

  /** `removeExpired`. */
  function RemoveExpired(m: Manager, from: nat, justOne: bool): Manager
    requires from <= |m.tasks|
    decreases |m.tasks| - from
  {
    if from == |m.tasks| then m
    else if IsExpired(m.tasks[from], m.now) then
      var x := DropAt(m, from, Expired).(expiredCount := m.expiredCount + 1);
      if justOne then x else RemoveExpired(x, from, justOne)
    else RemoveExpired(m, from + 1, justOne)
  }

  function Push(m: Manager, runnable: nat, expire: Option<nat>): Manager {
    m.(tasks := m.tasks + [Task(|m.status|, runnable, expire)], status := m.status + [Pending])
  }

  /** What `add` finds when it holds the mutex: room is made by dropping an expired task. */
  function MakeRoom(m: Manager): Manager {
    if Full(m) then RemoveExpired(m, 0, true) else m
  }

  /** The first pending task with a given runnable. */
  function IndexOf(tasks: seq<Task>, runnable: nat): (i: Option<nat>)
    ensures i.Some? ==> i.value < |tasks| && tasks[i.value].runnable == runnable
  {
    if tasks == [] then None
    else if tasks[0].runnable == runnable then Some(0)
    else
      match IndexOf(tasks[1..], runnable)
      case None => None
      case Some(i) => Some(i + 1)
  }

  // ---------------------------------------------------------------- steps

  datatype Step =
    | Start
    | Add(runnable: nat, expire: Option<nat>)       // enters with room, or after making some
    | Block                                         // finds none and waits
    | Unblock(runnable: nat, expire: Option<nat>)   // wakes to room
    | GiveUp                                        // times out
    | Remove(runnable: nat)
    | RemoveNextPending
    | AddWorkers(fresh_: set<Worker>)               // first section of `addWorker`
    | RemoveWorkers(value: nat)                     // first section of `removeWorker`
    | Stop                                          // first section of `stop`
    | StopAgain                                     // `stop` while another call of it waits
    | Return                                        // the worker-changing call finishes
    | Begin(w: Worker)                              // a started worker gets the mutex
    | Wake(w: Worker)                               // a waiting worker gets it, for whatever reason
    | Finish(w: Worker)                             // a worker is done with its task
    | Tick

  predicate At(m: Manager, w: Worker, p: Place) {
    w in m.workers && m.workers[w] == p
  }

  predicate Enabled(m: Manager, s: Step) {
    match s
    case Start => m.mode == Uninitialized
    case Add(_, _) => m.mode == Started && !Full(MakeRoom(m))
    case Block => m.mode == Started && Full(MakeRoom(m))
    case Unblock(_, _) => m.blocked > 0 && !Full(m)
    case GiveUp => m.blocked > 0
    case Remove(_) => m.mode == Started
    case RemoveNextPending => m.mode == Started && m.tasks != []
    case AddWorkers(f) => m.change == NoChange && f !! m.workers.Keys
    case RemoveWorkers(v) => m.change == NoChange && v <= m.workerMaxCount
    case Stop => m.change == NoChange && (m.mode == Uninitialized || m.mode == Started)
    case StopAgain => m.mode == Joining
    case Return => m.change != NoChange && m.workerCount == m.workerMaxCount
    case Begin(w) => At(m, w, Starting)
    case Wake(w) => At(m, w, Waiting)
    case Finish(w) => w in m.workers && (m.workers[w].Running? || m.workers[w].Reporting?)
    case Tick => true
  }

  function Next(m: Manager, s: Step): Manager
    requires Enabled(m, s)
  {
    match s
    case Start => m.(mode := Started)
    case Add(r, e) => Push(MakeRoom(m), r, e)
    case Block => MakeRoom(m).(blocked := m.blocked + 1)
    case Unblock(r, e) => Push(m, r, e).(blocked := m.blocked - 1)
    case GiveUp => m.(blocked := m.blocked - 1)
    case Remove(r) =>
      (match IndexOf(m.tasks, r)
       case None => m
       case Some(i) => DropAt(m, i, Removed))
    case RemoveNextPending => Pop(m, Removed)
    case AddWorkers(f) =>
      m.(workerMaxCount := m.workerMaxCount + |f|, workers := m.workers + (map w | w in f :: Starting),
         change := Adding)
    case RemoveWorkers(v) => m.(workerMaxCount := m.workerMaxCount - v, change := Removing(false))
    case Stop =>
      m.(mode := Joining, workerMaxCount := m.workerMaxCount - m.workerCount, change := Removing(true))
    case StopAgain => m.(mode := Stopped)
    case Return => m.(change := NoChange, mode := if m.change == Removing(true) then Stopped else m.mode)
    case Begin(w) => Admit(m, w)
    case Wake(w) => Loop(m, w)
    case Finish(w) =>
      (match m.workers[w]
       case Running(t) => Loop(SetStatus(m, t.id, Completed), w)
       case Reporting(_) => Loop(m.(expiredCount := m.expiredCount + 1), w)
       case _ => m)
    case Tick => m.(now := m.now + 1)
  }

  predicate IsRun(m: Manager, steps: seq<Step>)
    decreases steps
  {
    steps == [] || (Enabled(m, steps[0]) && IsRun(Next(m, steps[0]), steps[1..]))
  }

  function After(m: Manager, steps: seq<Step>): Manager
    requires IsRun(m, steps)
    decreases steps
  {
    if steps == [] then m else After(Next(m, steps[0]), steps[1..])
  }

  // ---------------------------------------------------------------- the invariant on workers

  function StartingOf(m: Manager): set<Worker> {
    set w | w in m.workers && m.workers[w] == Starting
  }

  /** Admitted workers. */
  function Admitted(m: Manager): set<Worker> {
    set w | w in m.workers && m.workers[w] != Starting
  }

  /** The counts against the threads: while workers are added, those on their way make up the
      difference; while some are removed, there are never fewer than wanted; otherwise there
      are exactly as many as wanted. */
  predicate WorkersOk(m: Manager) {
    && m.workerCount == |Admitted(m)| && m.workerMaxCount >= 0
    && (m.change == NoChange ==> m.workerCount == m.workerMaxCount && StartingOf(m) == {})
    && (m.change == Adding ==> m.workerCount + |StartingOf(m)| == m.workerMaxCount && m.mode != Joining)
    && (m.change.Removing? ==> m.workerCount >= m.workerMaxCount && StartingOf(m) == {})
    && (m.mode == Joining ==> m.change == Removing(true))
    && (m.change == Removing(true) ==> (m.mode == Joining || m.mode == Stopped) && m.workerMaxCount == 0)
  }

  /** The counts alone. */
  predicate SameCounts(m: Manager, n: Manager) {
    && n.mode == m.mode && n.workerMaxCount == m.workerMaxCount && n.change == m.change && n.now == m.now
    && n.blocked == m.blocked && n.pendingTaskCountMax == m.pendingTaskCountMax
    && n.expireCallback == m.expireCallback
  }

  lemma PutKeeps(m: Manager, n: Manager, w: Worker, p: Place)
    requires WorkersOk(m) && w in Admitted(m) && p != Starting
    requires n.workers == m.workers[w := p] && n.workerCount == m.workerCount && SameCounts(m, n)
    ensures WorkersOk(n)
  {
    assert Admitted(n) == Admitted(m) && StartingOf(n) == StartingOf(m);
  }

  lemma ExitKeeps(m: Manager, w: Worker)
    requires WorkersOk(m) && w in Admitted(m) && m.workerCount > m.workerMaxCount
    ensures WorkersOk(Exit(m, w)) && SameCounts(m, Exit(m, w))
  {
    var n := Exit(m, w);
    assert Admitted(n) == Admitted(m) - {w} && StartingOf(n) == StartingOf(m);
  }

  lemma PopKeeps(m: Manager, s: Status)
    requires m.tasks != []
    ensures SameCounts(m, Pop(m, s)) && Pop(m, s).workers == m.workers && Pop(m, s).workerCount == m.workerCount
    ensures Pop(m, s).tasks == m.tasks[1..]
    ensures WorkersOk(Pop(m, s)) == WorkersOk(m) && Admitted(Pop(m, s)) == Admitted(m)
  {
  }

  /** A worker inside the loop keeps the counts; it leaves only when there are more workers
      than wanted, and while the manager is joining only when no task is left. */
  lemma {:induction false} LoopWorkers(m: Manager, w: Worker)
    requires WorkersOk(m) && w in Admitted(m)
    ensures WorkersOk(Loop(m, w)) && SameCounts(m, Loop(m, w))
    ensures w !in Loop(m, w).workers ==>
              && m.workerCount > m.workerMaxCount
              && (m.mode == Joining ==> Loop(m, w).tasks == [])
    decreases |m.tasks|
  {
    hide WorkersOk, Admitted, Pop, IsExpired;
    if !IsActive(m) {
      ExitKeeps(m, w);
    } else if m.tasks == [] {
      PutKeeps(m, Put(m, w, Waiting), w, Waiting);
    } else {
      var t := m.tasks[0];
      PopKeeps(m, Executing);
      PopKeeps(m, Expired);
      if !IsExpired(t, m.now) {
        PutKeeps(m, Loop(m, w), w, Running(t));
      } else if m.expireCallback {
        PutKeeps(m, Loop(m, w), w, Reporting(t));
      } else {
        LoopWorkers(Pop(m, Expired), w);
      }
    }
  }

  /** Every worker that was started is admitted. */
  lemma BeginAdmits(m: Manager, w: Worker)
    requires WorkersOk(m) && At(m, w, Starting)
    ensures m.workerCount < m.workerMaxCount && WorkersOk(Admit(m, w)) && SameCounts(m, Admit(m, w))
  {
    var n := Put(m, w, Waiting).(workerCount := m.workerCount + 1);
    assert w in StartingOf(m) && w !in Admitted(m);
    assert Admitted(n) == Admitted(m) + {w} && StartingOf(n) == StartingOf(m) - {w};
    LoopWorkers(n, w);
    hide Loop;
  }

  /** Every step keeps the counts of the workers. */
  lemma StepWorkers(m: Manager, s: Step)
    requires WorkersOk(m) && Enabled(m, s)
    ensures WorkersOk(Next(m, s))
  {
    hide Loop, Admit, RemoveExpired, IndexOf, Pop;
    match s
    case Add(_, _) => DropKeeps(m, 0, true); SameThreads(MakeRoom(m), Next(m, s));
    case Block => DropKeeps(m, 0, true); SameThreads(MakeRoom(m), Next(m, s));
    case RemoveNextPending => PopKeeps(m, Removed);
    case AddWorkers(f) => AddKeeps(m, f);
    case Begin(w) => BeginAdmits(m, w);
    case Wake(w) => LoopWorkers(m, w);
    case Finish(w) => FinishWorkers(m, w);
    case _ => SameThreads(m, Next(m, s));
  }

  lemma SameThreads(m: Manager, n: Manager)
    requires n.workers == m.workers
    ensures Admitted(n) == Admitted(m) && StartingOf(n) == StartingOf(m)
  {
  }

  lemma {:induction false} DropKeeps(m: Manager, from: nat, justOne: bool)
    requires from <= |m.tasks|
    ensures var n := RemoveExpired(m, from, justOne);
            && WorkersOk(n) == WorkersOk(m) && SameCounts(m, n) && n.workers == m.workers
            && n.workerCount == m.workerCount && n.popped == m.popped && |n.tasks| <= |m.tasks|
    decreases |m.tasks| - from
  {
    hide IsExpired, WorkersOk;
    if from < |m.tasks| {
      if IsExpired(m.tasks[from], m.now) {
        var x := DropAt(m, from, Expired).(expiredCount := m.expiredCount + 1);
        DropAtKeeps(m, from, Expired);
        if !justOne { DropKeeps(x, from, justOne); }
      } else {
        DropKeeps(m, from + 1, justOne);
      }
    }
  }

  lemma DropAtKeeps(m: Manager, i: nat, s: Status)
    requires i < |m.tasks|
    ensures var n := DropAt(m, i, s).(expiredCount := m.expiredCount + 1);
            && WorkersOk(n) == WorkersOk(m) && SameCounts(m, n) && n.workers == m.workers
            && n.workerCount == m.workerCount && n.popped == m.popped && |n.tasks| == |m.tasks| - 1
  {
  }

  lemma AddKeeps(m: Manager, f: set<Worker>)
    requires WorkersOk(m) && m.change == NoChange && f !! m.workers.Keys
    ensures WorkersOk(Next(m, AddWorkers(f)))
  {
    var n := Next(m, AddWorkers(f));
    assert forall w :: w in m.workers ==> w in Admitted(m) || w in StartingOf(m);
    assert forall w :: w in n.workers ==> w in f || (w in m.workers && n.workers[w] == m.workers[w]);
    assert StartingOf(n) == f && Admitted(n) == Admitted(m);
  }

  lemma FinishWorkers(m: Manager, w: Worker)
    requires WorkersOk(m) && Enabled(m, Finish(w))
    ensures WorkersOk(Next(m, Finish(w)))
  {
    hide Loop;
    match m.workers[w]
    case Running(t) =>
      var n := SetStatus(m, t.id, Completed);
      SameThreads(m, n);
      LoopWorkers(n, w);
    case Reporting(_) =>
      var n := m.(expiredCount := m.expiredCount + 1);
      SameThreads(m, n);
      LoopWorkers(n, w);
  }

  // ---------------------------------------------------------------- the invariant on tasks

  predicate Queued(tasks: seq<Task>, id: nat) {
    exists i :: 0 <= i < |tasks| && tasks[i].id == id
  }

  predicate Increasing(ids: seq<nat>) {
    forall i, j :: 0 <= i < j < |ids| ==> ids[i] < ids[j]
  }

  /** The queue holds exactly the pending tasks, in the order in which they were added. */
  ghost predicate QueueOk(tasks: seq<Task>, status: seq<Status>) {
    && (forall i :: 0 <= i < |tasks| ==> tasks[i].id < |status| && status[tasks[i].id] == Pending)
    && (forall i, j :: 0 <= i < j < |tasks| ==> tasks[i].id < tasks[j].id)
    && (forall id: nat :: id < |status| && status[id] == Pending ==> Queued(tasks, id))
  }

  /** What was taken from the front came before all that is in the queue, each once. */
  ghost predicate OrderOk(popped: seq<nat>, tasks: seq<Task>, status: seq<Status>) {
    && Increasing(popped)
    && (forall i :: 0 <= i < |popped| ==> popped[i] < |status| && status[popped[i]] != Pending)
    && (forall i, j :: 0 <= i < |popped| && 0 <= j < |tasks| ==> popped[i] < tasks[j].id)
  }

  predicate RoomOk(m: Manager) {
    m.pendingTaskCountMax > 0 ==> |m.tasks| <= m.pendingTaskCountMax
  }

  predicate RunsIt(m: Manager, w: Worker, id: nat) {
    w in m.workers && m.workers[w].Running? && m.workers[w].task.id == id
  }

  /** The executing tasks are with the workers, one each; `skip` are workers in the middle of
      a section. */
  ghost predicate PlacesOk(m: Manager, skip: set<Worker>) {
    && (forall w: Worker, id: nat :: w !in skip && RunsIt(m, w, id) ==> id < |m.status| && m.status[id] == Executing)
    && (forall w :: w in m.workers && w !in skip && m.workers[w].Reporting? ==>
          m.workers[w].task.id < |m.status| && m.status[m.workers[w].task.id] == Expired)
    && (forall v: Worker, w: Worker, id: nat :: v !in skip && w !in skip && RunsIt(m, v, id) && RunsIt(m, w, id) ==> v == w)
    && (forall id: nat :: id < |m.status| && m.status[id] == Executing ==> exists w :: w !in skip && RunsIt(m, w, id))
  }

  lemma DropQueue(tasks: seq<Task>, status: seq<Status>, i: nat, s: Status)
    requires QueueOk(tasks, status) && i < |tasks| && s != Pending
    ensures QueueOk(tasks[..i] + tasks[i + 1..], status[tasks[i].id := s])
  {
    var ts, st := tasks[..i] + tasks[i + 1..], status[tasks[i].id := s];
    assert forall j :: 0 <= j < |ts| ==> ts[j] == tasks[if j < i then j else j + 1];
    forall id: nat | id < |st| && st[id] == Pending ensures Queued(ts, id) {
      assert Queued(tasks, id);
      var j :| 0 <= j < |tasks| && tasks[j].id == id;
      assert j != i;
      assert ts[if j < i then j else j - 1].id == id;
    }
  }

  lemma FrontQueue(tasks: seq<Task>, status: seq<Status>, s: Status)
    requires QueueOk(tasks, status) && tasks != [] && s != Pending
    ensures tasks[0].id < |status| && status[tasks[0].id] == Pending
    ensures QueueOk(tasks[1..], status[tasks[0].id := s])
  {
  }

  lemma DropOrder(popped: seq<nat>, tasks: seq<Task>, status: seq<Status>, i: nat, s: Status)
    requires OrderOk(popped, tasks, status) && i < |tasks| && tasks[i].id < |status| && s != Pending
    ensures OrderOk(popped, tasks[..i] + tasks[i + 1..], status[tasks[i].id := s])
  {
  }

  lemma PopOrder(popped: seq<nat>, tasks: seq<Task>, status: seq<Status>, s: Status)
    requires QueueOk(tasks, status) && OrderOk(popped, tasks, status) && tasks != [] && s != Pending
    ensures OrderOk(popped + [tasks[0].id], tasks[1..], status[tasks[0].id := s])
  {
  }

  lemma PushQueue(tasks: seq<Task>, status: seq<Status>, popped: seq<nat>, t: Task)
    requires QueueOk(tasks, status) && OrderOk(popped, tasks, status) && t.id == |status|
    ensures QueueOk(tasks + [t], status + [Pending]) && OrderOk(popped, tasks + [t], status + [Pending])
  {
    var ts, st := tasks + [t], status + [Pending];
    forall id: nat | id < |st| && st[id] == Pending ensures Queued(ts, id) {
      if id < |status| {
        assert Queued(tasks, id);
        var j :| 0 <= j < |tasks| && tasks[j].id == id;
        assert ts[j].id == id;
      } else {
        assert ts[|tasks|].id == id;
      }
    }
  }

  /** A task that is taken out, or added, leaves the executing ones alone. */
  lemma PlacesStay(m: Manager, n: Manager, skip: set<Worker>, id: nat)
    requires PlacesOk(m, skip) && n.workers == m.workers && |n.status| >= |m.status|
    requires forall k :: 0 <= k < |n.status| && k != id ==> k < |m.status| && n.status[k] == m.status[k]
    requires id < |n.status| ==> n.status[id] != Executing && (id < |m.status| ==> m.status[id] == Pending)
    ensures PlacesOk(n, skip)
  {
    forall w, k: nat ensures RunsIt(n, w, k) == RunsIt(m, w, k) {}
    forall k: nat | k < |n.status| && n.status[k] == Executing ensures exists w :: w !in skip && RunsIt(n, w, k) {
      var w :| w !in skip && RunsIt(m, w, k);
      assert RunsIt(n, w, k);
    }
  }

  /** A worker comes to rest somewhere else than at a task. */
  lemma RestPlaces(m: Manager, n: Manager, w: Worker)
    requires PlacesOk(m, {w}) && n.status == m.status
    requires forall v :: v in n.workers && v != w ==> v in m.workers && n.workers[v] == m.workers[v]
    requires forall v :: v in m.workers && v != w ==> v in n.workers
    requires w in n.workers ==> !n.workers[w].Running? && !n.workers[w].Reporting?
    ensures PlacesOk(n, {})
  {
    forall v, k: nat | RunsIt(n, v, k) ensures v != w && RunsIt(m, v, k) {}
    forall k: nat | k < |n.status| && n.status[k] == Executing ensures exists v :: v !in {} && RunsIt(n, v, k) {
      var v :| v !in {w} && RunsIt(m, v, k);
      assert RunsIt(n, v, k);
    }
  }

  /** A worker takes the front of the queue. */
  lemma TakePlaces(m: Manager, w: Worker)
    requires QueueOk(m.tasks, m.status) && PlacesOk(m, {w}) && m.tasks != []
    ensures PlacesOk(Put(Pop(m, Executing), w, Running(m.tasks[0])), {})
  {
    var n := Put(Pop(m, Executing), w, Running(m.tasks[0]));
    var id := m.tasks[0].id;
    assert RunsIt(n, w, id);
    forall v, k: nat | RunsIt(n, v, k) ensures if v == w then k == id else RunsIt(m, v, k) && k != id {
      if v != w { assert v !in {w} && RunsIt(m, v, k); }
    }
    forall k: nat | k < |n.status| && n.status[k] == Executing ensures exists v :: v !in {} && RunsIt(n, v, k) {
      if k != id {
        var v :| v !in {w} && RunsIt(m, v, k);
        assert RunsIt(n, v, k);
      }
    }
  }

  lemma ReportPlaces(m: Manager, w: Worker)
    requires QueueOk(m.tasks, m.status) && PlacesOk(m, {w}) && m.tasks != []
    ensures PlacesOk(Put(Pop(m, Expired), w, Reporting(m.tasks[0])), {})
  {
    var n := Put(Pop(m, Expired), w, Reporting(m.tasks[0]));
    forall v, k: nat | RunsIt(n, v, k) ensures v != w && RunsIt(m, v, k) && k != m.tasks[0].id {
      assert v !in {w} && RunsIt(m, v, k);
    }
    forall k: nat | k < |n.status| && n.status[k] == Executing ensures exists v :: v !in {} && RunsIt(n, v, k) {
      var v :| v !in {w} && RunsIt(m, v, k);
      assert RunsIt(n, v, k);
    }
  }

  ghost predicate TasksOk(m: Manager, skip: set<Worker>) {
    && QueueOk(m.tasks, m.status) && OrderOk(m.popped, m.tasks, m.status)
    && PlacesOk(m, skip) && RoomOk(m)
  }

  lemma DropTasks(m: Manager, skip: set<Worker>, i: nat, s: Status)
    requires TasksOk(m, skip) && i < |m.tasks| && s != Pending && s != Executing
    ensures TasksOk(DropAt(m, i, s), skip)
    ensures TasksOk(DropAt(m, i, s).(expiredCount := m.expiredCount + 1), skip)
  {
    DropQueue(m.tasks, m.status, i, s);
    DropOrder(m.popped, m.tasks, m.status, i, s);
    var id, n := m.tasks[i].id, DropAt(m, i, s);
    PlacesStay(m, n, skip, id);
    PlacesStay(m, n.(expiredCount := m.expiredCount + 1), skip, id);
    hide QueueOk, OrderOk, PlacesOk;
  }

  lemma PopTasks(m: Manager, skip: set<Worker>, s: Status)
    requires TasksOk(m, skip) && m.tasks != [] && s != Pending
    ensures var n := Pop(m, s);
            && QueueOk(n.tasks, n.status) && OrderOk(n.popped, n.tasks, n.status) && RoomOk(n)
            && (s != Executing ==> PlacesOk(n, skip))
  {
    hide QueueOk, OrderOk, PlacesOk;
    FrontQueue(m.tasks, m.status, s);
    PopOrder(m.popped, m.tasks, m.status, s);
    if s != Executing { PlacesStay(m, Pop(m, s), skip, m.tasks[0].id); }
  }

  lemma {:induction false} RemoveExpiredTasks(m: Manager, skip: set<Worker>, from: nat, justOne: bool)
    requires TasksOk(m, skip) && from <= |m.tasks|
    ensures TasksOk(RemoveExpired(m, from, justOne), skip)
    decreases |m.tasks| - from
  {
    hide TasksOk, IsExpired;
    if from < |m.tasks| {
      if IsExpired(m.tasks[from], m.now) {
        DropTasks(m, skip, from, Expired);
        DropAtKeeps(m, from, Expired);
        if !justOne {
          RemoveExpiredTasks(DropAt(m, from, Expired).(expiredCount := m.expiredCount + 1), skip, from, justOne);
        }
      } else {
        RemoveExpiredTasks(m, skip, from + 1, justOne);
      }
    }
  }

  lemma PushTasks(m: Manager, skip: set<Worker>, runnable: nat, expire: Option<nat>)
    requires TasksOk(m, skip) && !Full(m)
    ensures TasksOk(Push(m, runnable, expire), skip)
  {
    PushQueue(m.tasks, m.status, m.popped, Task(|m.status|, runnable, expire));
    PlacesStay(m, Push(m, runnable, expire), skip, |m.status|);
    hide QueueOk, OrderOk, PlacesOk;
  }

  lemma {:induction false} LoopTasks(m: Manager, w: Worker)
    requires TasksOk(m, {w})
    ensures TasksOk(Loop(m, w), {})
    decreases |m.tasks|
  {
    hide QueueOk, OrderOk, PlacesOk, IsExpired, Pop;
    if !IsActive(m) || m.tasks == [] {
      RestPlaces(m, Loop(m, w), w);
    } else {
      PopTasks(m, {w}, Executing);
      PopTasks(m, {w}, Expired);
      PopKeeps(m, Expired);
      PopKeeps(m, Executing);
      if !IsExpired(m.tasks[0], m.now) {
        TakePlaces(m, w);
      } else if m.expireCallback {
        ReportPlaces(m, w);
      } else {
        LoopTasks(Pop(m, Expired), w);
      }
    }
  }

  /** A worker about to run its section. */
  lemma SkipWorker(m: Manager, w: Worker)
    requires TasksOk(m, {}) && (w in m.workers ==> !m.workers[w].Running?)
    ensures TasksOk(m, {w})
  {
  }

  /** A task is over. */
  lemma CompleteTask(m: Manager, w: Worker, t: Task)
    requires TasksOk(m, {}) && At(m, w, Running(t))
    ensures TasksOk(SetStatus(m, t.id, Completed), {w})
  {
    var n := SetStatus(m, t.id, Completed);
    assert RunsIt(m, w, t.id);
    assert t.id < |m.status| && m.status[t.id] == Executing;
    forall v, k: nat ensures RunsIt(n, v, k) == RunsIt(m, v, k) {}
    forall v, k: nat | v !in {w} && RunsIt(n, v, k) ensures k < |n.status| && n.status[k] == Executing {
      assert v !in {} && RunsIt(m, v, k);
    }
    forall k: nat | k < |n.status| && n.status[k] == Executing ensures exists v :: v !in {w} && RunsIt(n, v, k) {
      var v :| v !in {} && RunsIt(m, v, k);
      assert v !in {w} && RunsIt(n, v, k);
    }
    CompleteQueue(m, t.id);
  }

  lemma CompleteQueue(m: Manager, id: nat)
    requires QueueOk(m.tasks, m.status) && OrderOk(m.popped, m.tasks, m.status)
    requires id < |m.status| && m.status[id] == Executing
    ensures QueueOk(m.tasks, m.status[id := Completed]) && OrderOk(m.popped, m.tasks, m.status[id := Completed])
  {
  }

  lemma FinishTasks(m: Manager, w: Worker)
    requires TasksOk(m, {}) && Enabled(m, Finish(w))
    ensures TasksOk(Next(m, Finish(w)), {})
  {
    hide TasksOk, Loop;
    match m.workers[w]
    case Running(t) =>
      CompleteTask(m, w, t);
      LoopTasks(SetStatus(m, t.id, Completed), w);
    case Reporting(_) =>
      SkipWorker(m, w);
      Unaffected(m, m.(expiredCount := m.expiredCount + 1), {w});
      LoopTasks(m.(expiredCount := m.expiredCount + 1), w);
  }

  lemma Unaffected(m: Manager, n: Manager, skip: set<Worker>)
    requires TasksOk(m, skip) && n.workers == m.workers && n.tasks == m.tasks && n.status == m.status
    requires n.popped == m.popped && n.pendingTaskCountMax == m.pendingTaskCountMax
    ensures TasksOk(n, skip)
  {
    hide QueueOk, OrderOk;
    PlacesStay(m, n, skip, |m.status|);
  }

  lemma BeginTasks(m: Manager, w: Worker)
    requires TasksOk(m, {}) && At(m, w, Starting)
    ensures TasksOk(Admit(m, w), {})
  {
    hide QueueOk, OrderOk, Loop;
    SkipWorker(m, w);
    if m.workerCount < m.workerMaxCount {
      var n := Put(m, w, Waiting).(workerCount := m.workerCount + 1);
      RestPlaces(m, n, w);
      SkipWorker(n, w);
      LoopTasks(n, w);
    } else {
      RestPlaces(m, Exit(m, w), w);
    }
  }

  lemma AddWorkersTasks(m: Manager, f: set<Worker>)
    requires TasksOk(m, {}) && Enabled(m, AddWorkers(f))
    ensures TasksOk(Next(m, AddWorkers(f)), {})
  {
    hide QueueOk, OrderOk;
    var n := Next(m, AddWorkers(f));
    forall v, k: nat ensures RunsIt(n, v, k) == RunsIt(m, v, k) {}
    forall k: nat | k < |n.status| && n.status[k] == Executing ensures exists v :: v !in {} && RunsIt(n, v, k) {
      var v :| v !in {} && RunsIt(m, v, k);
      assert RunsIt(n, v, k);
    }
  }

  lemma StepTasks(m: Manager, s: Step)
    requires TasksOk(m, {}) && Enabled(m, s)
    ensures TasksOk(Next(m, s), {})
  {
    hide TasksOk, Loop, Admit, RemoveExpired, IndexOf, Pop, Push, DropAt, Full;
    match s
    case Add(r, e) =>
      MakeRoomTasks(m);
      PushTasks(MakeRoom(m), {}, r, e);
    case Block =>
      MakeRoomTasks(m);
      Unaffected(MakeRoom(m), Next(m, s), {});
    case Unblock(r, e) =>
      PushTasks(m, {}, r, e);
      Unaffected(Push(m, r, e), Next(m, s), {});
    case Remove(r) =>
      if IndexOf(m.tasks, r).Some? { DropTasks(m, {}, IndexOf(m.tasks, r).value, Removed); }
    case RemoveNextPending => PopAll(m);
    case AddWorkers(f) => AddWorkersTasks(m, f);
    case Begin(w) => BeginTasks(m, w);
    case Wake(w) => SkipWorker(m, w); LoopTasks(m, w);
    case Finish(w) => FinishTasks(m, w);
    case _ => Unaffected(m, Next(m, s), {});
  }

  lemma MakeRoomTasks(m: Manager)
    requires TasksOk(m, {})
    ensures TasksOk(MakeRoom(m), {})
  {
    hide TasksOk, RemoveExpired;
    RemoveExpiredTasks(m, {}, 0, true);
  }

  lemma PopAll(m: Manager)
    requires TasksOk(m, {}) && m.tasks != []
    ensures TasksOk(Pop(m, Removed), {})
  {
    hide QueueOk, OrderOk, PlacesOk;
    PopTasks(m, {}, Removed);
  }

  // ---------------------------------------------------------------- every run

  ghost predicate Inv(m: Manager) {
    WorkersOk(m) && TasksOk(m, {})
  }

  lemma {:induction false} RunKeeps(m: Manager, steps: seq<Step>)
    requires Inv(m) && IsRun(m, steps)
    ensures Inv(After(m, steps))
    decreases steps
  {
    hide WorkersOk, TasksOk;
    if steps != [] {
      StepWorkers(m, steps[0]);
      StepTasks(m, steps[0]);
      RunKeeps(Next(m, steps[0]), steps[1..]);
    }
  }

  /** In every run each accepted task has one status, which says where it is; the queue is in
      the order of acceptance and within its limit; tasks leave its front in that order, each
      once; and the counts of workers are as promised. */
  lemma {:induction false} EveryRun(m: Manager, steps: seq<Step>)
    requires Init(m) && IsRun(m, steps)
    ensures Inv(After(m, steps))
    ensures var n := After(m, steps);
            && (forall id: nat :: id < |n.status| ==> (n.status[id] == Pending <==> Queued(n.tasks, id)))
            && (forall i, j :: 0 <= i < j < |n.tasks| ==> n.tasks[i].id < n.tasks[j].id)
            && Increasing(n.popped) && (n.pendingTaskCountMax > 0 ==> |n.tasks| <= n.pendingTaskCountMax)
            && forall v, w, id: nat :: RunsIt(n, v, id) && RunsIt(n, w, id) ==> v == w
  {
    assert Admitted(m) == {} && StartingOf(m) == {};
    RunKeeps(m, steps);
  }

  /** `workerCount_` never falls below `workerMaxCount_` while workers are removed, and equals
      it whenever no change of their number is under way. */
  lemma RemovalBounds(m: Manager, steps: seq<Step>)
    requires Init(m) && IsRun(m, steps)
    ensures var n := After(m, steps);
            && (n.change.Removing? ==> n.workerCount >= n.workerMaxCount)
            && (n.change == NoChange ==> n.workerCount == n.workerMaxCount)
            && (n.change == Adding ==> n.workerCount <= n.workerMaxCount)
  {
    EveryRun(m, steps);
    hide TasksOk, After, IsRun, Init;
  }

  // ---------------------------------------------------------------- what becomes of a task

  /** A status only ever moves on: a task runs at most once, and what is over stays over. */
  predicate Onward(a: Status, b: Status) {
    a == b || a == Pending || (a == Executing && b == Completed)
  }

  predicate AllOnward(a: seq<Status>, b: seq<Status>) {
    |a| <= |b| && forall id :: 0 <= id < |a| ==> Onward(a[id], b[id])
  }

  lemma OnwardTwice(a: seq<Status>, b: seq<Status>, c: seq<Status>)
    requires AllOnward(a, b) && AllOnward(b, c)
    ensures AllOnward(a, c)
  {
  }

  /** A task that is taken out of the queue moves on. */
  lemma DropOnward(m: Manager, i: nat, s: Status)
    requires QueueOk(m.tasks, m.status) && i < |m.tasks| && s != Pending
    ensures AllOnward(m.status, DropAt(m, i, s).status) && |DropAt(m, i, s).status| == |m.status|
    ensures QueueOk(DropAt(m, i, s).tasks, DropAt(m, i, s).status)
  {
    DropQueue(m.tasks, m.status, i, s);
  }

  lemma PopOnward(m: Manager, s: Status)
    requires QueueOk(m.tasks, m.status) && m.tasks != [] && s != Pending
    ensures AllOnward(m.status, Pop(m, s).status) && |Pop(m, s).status| == |m.status|
    ensures QueueOk(Pop(m, s).tasks, Pop(m, s).status)
  {
  }

  lemma {:induction false} LoopOnward(m: Manager, w: Worker)
    requires QueueOk(m.tasks, m.status)
    ensures AllOnward(m.status, Loop(m, w).status) && |Loop(m, w).status| == |m.status|
    decreases |m.tasks|
  {
    hide IsExpired, QueueOk, Pop, AllOnward;
    StaysOnward(m.status);
    if IsActive(m) && m.tasks != [] {
      PopOnward(m, Executing);
      PopOnward(m, Expired);
      if IsExpired(m.tasks[0], m.now) && !m.expireCallback {
        PopKeeps(m, Expired);
        LoopOnward(Pop(m, Expired), w);
        OnwardTwice(m.status, Pop(m, Expired).status, Loop(m, w).status);
      }
    }
  }

  lemma StaysOnward(a: seq<Status>)
    ensures AllOnward(a, a)
  {
  }

  lemma {:induction false} RemoveOnward(m: Manager, from: nat, justOne: bool)
    requires QueueOk(m.tasks, m.status) && from <= |m.tasks|
    ensures AllOnward(m.status, RemoveExpired(m, from, justOne).status)
    decreases |m.tasks| - from
  {
    hide IsExpired, QueueOk, AllOnward;
    StaysOnward(m.status);
    if from < |m.tasks| {
      if IsExpired(m.tasks[from], m.now) {
        var x := DropAt(m, from, Expired).(expiredCount := m.expiredCount + 1);
        DropOnward(m, from, Expired);
        if !justOne {
          RemoveOnward(x, from, justOne);
          OnwardTwice(m.status, x.status, RemoveExpired(m, from, justOne).status);
        }
      } else {
        RemoveOnward(m, from + 1, justOne);
      }
    }
  }

  lemma StepOnward(m: Manager, s: Step)
    requires TasksOk(m, {}) && Enabled(m, s)
    ensures AllOnward(m.status, Next(m, s).status)
  {
    hide OrderOk, PlacesOk, Loop, RemoveExpired;
    match s
    case Add(_, _) => RemoveOnward(m, 0, true);
    case Block => RemoveOnward(m, 0, true);
    case Begin(w) => LoopOnward(Put(m, w, Waiting).(workerCount := m.workerCount + 1), w);
    case Wake(w) => LoopOnward(m, w);
    case Finish(w) => FinishOnward(m, w);
    case _ =>
  }

  lemma FinishOnward(m: Manager, w: Worker)
    requires TasksOk(m, {}) && Enabled(m, Finish(w))
    ensures AllOnward(m.status, Next(m, Finish(w)).status)
  {
    hide Loop, OrderOk;
    match m.workers[w]
    case Running(t) =>
      assert w !in {} && RunsIt(m, w, t.id);
      assert t.id < |m.status| && m.status[t.id] == Executing;
      CompleteQueue(m, t.id);
      LoopOnward(SetStatus(m, t.id, Completed), w);
    case Reporting(_) => LoopOnward(m.(expiredCount := m.expiredCount + 1), w);
  }

  lemma {:induction false} RunOnward(m: Manager, steps: seq<Step>)
    requires Inv(m) && IsRun(m, steps)
    ensures AllOnward(m.status, After(m, steps).status)
    decreases steps
  {
    hide WorkersOk, TasksOk;
    if steps != [] {
      StepOnward(m, steps[0]);
      StepWorkers(m, steps[0]);
      StepTasks(m, steps[0]);
      RunOnward(Next(m, steps[0]), steps[1..]);
    }
  }

  /** The step from `m` to `n` starts the task. */
  predicate StartsNow(m: Manager, n: Manager, id: nat) {
    id < |n.status| && n.status[id] == Executing && !(id < |m.status| && m.status[id] == Executing)
  }

  /** How many steps of a run start it. */
  function Starts(m: Manager, steps: seq<Step>, id: nat): nat
    requires IsRun(m, steps)
    decreases steps
  {
    if steps == [] then 0
    else (if StartsNow(m, Next(m, steps[0]), id) then 1 else 0) + Starts(Next(m, steps[0]), steps[1..], id)
  }

  /** The task has been started. */
  predicate Begun(status: seq<Status>, id: nat) {
    id < |status| && (status[id] == Executing || status[id] == Completed)
  }

  /** A section of a worker makes no task complete. */
  lemma {:induction false} LoopCompletes(m: Manager, w: Worker, id: nat)
    ensures var n := Loop(m, w);
            id < |n.status| && n.status[id] == Completed ==> id < |m.status| && m.status[id] == Completed
    decreases |m.tasks|
  {
    hide IsExpired;
    if m.tasks != [] {
      PopKeeps(m, Expired);
      if IsActive(m) && IsExpired(m.tasks[0], m.now) && !m.expireCallback { LoopCompletes(Pop(m, Expired), w, id); }
    }
  }

  lemma {:induction false} RemoveCompletes(m: Manager, from: nat, justOne: bool, id: nat)
    requires from <= |m.tasks|
    ensures var n := RemoveExpired(m, from, justOne);
            id < |n.status| && n.status[id] == Completed ==> id < |m.status| && m.status[id] == Completed
    decreases |m.tasks| - from
  {
    hide IsExpired;
    if from < |m.tasks| {
      if IsExpired(m.tasks[from], m.now) {
        var x := DropAt(m, from, Expired).(expiredCount := m.expiredCount + 1);
        if !justOne { RemoveCompletes(x, from, justOne, id); }
      } else {
        RemoveCompletes(m, from + 1, justOne, id);
      }
    }
  }

  /** Only what was executing becomes complete. */
  lemma StepCompletes(m: Manager, s: Step, id: nat)
    requires TasksOk(m, {}) && Enabled(m, s) && id < |Next(m, s).status| && Next(m, s).status[id] == Completed
    ensures Begun(m.status, id)
  {
    hide QueueOk, OrderOk, Loop, RemoveExpired, IndexOf;
    match s
    case Add(_, _) => RemoveCompletes(m, 0, true, id);
    case Block => RemoveCompletes(m, 0, true, id);
    case Begin(w) => LoopCompletes(Put(m, w, Waiting).(workerCount := m.workerCount + 1), w, id);
    case Wake(w) => LoopCompletes(m, w, id);
    case Finish(w) => FinishCompletes(m, w, id);
    case _ =>
  }

  lemma FinishCompletes(m: Manager, w: Worker, id: nat)
    requires TasksOk(m, {}) && Enabled(m, Finish(w))
    requires id < |Next(m, Finish(w)).status| && Next(m, Finish(w)).status[id] == Completed
    ensures Begun(m.status, id)
  {
    hide QueueOk, OrderOk, Loop;
    match m.workers[w]
    case Running(t) =>
      assert w !in {} && RunsIt(m, w, t.id);
      LoopCompletes(SetStatus(m, t.id, Completed), w, id);
    case Reporting(_) => LoopCompletes(m.(expiredCount := m.expiredCount + 1), w, id);
  }

  /** Over the history of any run a task is started exactly once if it has come to be executing or
      complete, and not at all otherwise; so not at all once it was started, removed or found
      expired. */
  lemma {:induction false} StartsOnce(m: Manager, steps: seq<Step>, id: nat)
    requires Inv(m) && IsRun(m, steps)
    ensures Starts(m, steps, id) == if Begun(After(m, steps).status, id) && !Begun(m.status, id) then 1 else 0
    ensures Begun(m.status, id) ==> Begun(After(m, steps).status, id)
    ensures id < |m.status| && m.status[id] != Pending ==> Starts(m, steps, id) == 0
    decreases steps
  {
    hide WorkersOk, TasksOk, Next, Enabled;
    if steps != [] {
      var n := Next(m, steps[0]);
      StepOnward(m, steps[0]);
      StepWorkers(m, steps[0]);
      StepTasks(m, steps[0]);
      assert id < |m.status| ==> Onward(m.status[id], n.status[id]);
      if id < |n.status| && n.status[id] == Completed { StepCompletes(m, steps[0], id); }
      StartsOnce(n, steps[1..], id);
    }
  }

  /** The task a worker leaves the mutex with to run was the first in the queue that had not
      expired by then: it has no time to expire at, or the clock is not past it, and the clock is
      past those of all tasks in front of it. */
  lemma {:induction false} TakesInOrder(m: Manager, w: Worker)
    requires w in Loop(m, w).workers && Loop(m, w).workers[w].Running?
    ensures var t := Loop(m, w).workers[w].task;
            exists i :: 0 <= i < |m.tasks| && m.tasks[i] == t
                        && (t.expire == None || m.now <= t.expire.value)
                        && forall j :: 0 <= j < i ==> m.tasks[j].expire.Some? && m.tasks[j].expire.value < m.now
    decreases |m.tasks|
  {
    hide SetStatus;
    var t := Loop(m, w).workers[w].task;
    if IsExpired(m.tasks[0], m.now) {
      var n := Pop(m, Expired);
      PopKeeps(m, Expired);
      TakesInOrder(n, w);
      var i :| 0 <= i < |n.tasks| && n.tasks[i] == t && (t.expire == None || m.now <= t.expire.value)
               && forall j :: 0 <= j < i ==> n.tasks[j].expire.Some? && n.tasks[j].expire.value < m.now;
      assert m.tasks[i + 1] == t;
      assert forall j :: 0 < j < i + 1 ==> m.tasks[j] == n.tasks[j - 1];
    } else {
      assert m.tasks[0] == t;
    }
  }

  /** What a worker does inside its loop, one task at a time: with more workers than wanted it
      leaves, unless the manager is joining with tasks to do; with nothing to do it waits; a task
      that the clock is not past is run, and one that it is past goes to the callback if there is
      one and is dropped otherwise. */
  lemma WorkerTurn(m: Manager, w: Worker)
    requires forall i :: 0 <= i < |m.tasks| ==> m.tasks[i].id < |m.status|
    ensures var n := Loop(m, w);
            if m.workerCount > m.workerMaxCount && (m.mode != Joining || m.tasks == []) then
              n == m.(workers := m.workers - {w}, workerCount := m.workerCount - 1)
            else if m.tasks == [] then n == m.(workers := m.workers[w := Waiting])
            else
              var t := m.tasks[0];
              var late := t.expire.Some? && t.expire.value < m.now;
              var taken := m.(tasks := m.tasks[1..], popped := m.popped + [t.id],
                              status := m.status[t.id := if late then Expired else Executing]);
              if !late then n == taken.(workers := m.workers[w := Running(t)])
              else if m.expireCallback then n == taken.(workers := m.workers[w := Reporting(t)])
              else n == Loop(taken, w)
  {
  }

  /** What it does when it comes back: its task is complete, or the callback has been told. */
  lemma WorkerReturns(m: Manager, w: Worker)
    requires Enabled(m, Finish(w))
    ensures m.workers[w].Running? && m.workers[w].task.id < |m.status| ==>
              Next(m, Finish(w)) == Loop(m.(status := m.status[m.workers[w].task.id := Completed]), w)
    ensures m.workers[w].Reporting? ==> Next(m, Finish(w)) == Loop(m.(expiredCount := m.expiredCount + 1), w)
    ensures At(m, w, Waiting) ==> Enabled(m, Wake(w)) && Next(m, Wake(w)) == Loop(m, w)
  {
    hide Loop;
  }

  // ---------------------------------------------------------------- callers

  /** The tasks that the clock is not past. */
  function InTime(tasks: seq<Task>, now: nat): seq<Task> {
    if tasks == [] then []
    else if tasks[0].expire.Some? && tasks[0].expire.value < now then InTime(tasks[1..], now)
    else [tasks[0]] + InTime(tasks[1..], now)
  }

  /** How many of them it is past. */
  function Late(tasks: seq<Task>, now: nat): nat {
    if tasks == [] then 0 else (if tasks[0].expire.Some? && tasks[0].expire.value < now then 1 else 0) + Late(tasks[1..], now)
  }

  /** `removeExpired` keeps exactly the tasks that the clock is not past, in order, and counts the
      others. */
  lemma {:induction false} RemovesLate(m: Manager, from: nat)
    requires from <= |m.tasks|
    ensures var n := RemoveExpired(m, from, false);
            && n.tasks == m.tasks[..from] + InTime(m.tasks[from..], m.now)
            && n.expiredCount == m.expiredCount + Late(m.tasks[from..], m.now)
    decreases |m.tasks| - from
  {
    hide SetStatus;
    var rest := m.tasks[from..];
    if from < |m.tasks| {
      assert rest[1..] == m.tasks[from + 1..];
      if m.tasks[from].expire.Some? && m.tasks[from].expire.value < m.now {
        var x := DropAt(m, from, Expired).(expiredCount := m.expiredCount + 1);
        SetStatusTasks(m, m.tasks[from].id, Expired);
        assert x.tasks[..from] == m.tasks[..from] && x.tasks[from..] == m.tasks[from + 1..];
        RemovesLate(x, from);
      } else {
        RemovesLate(m, from + 1);
        var tail := InTime(m.tasks[from + 1..], m.now);
        assert m.tasks[..from + 1] == m.tasks[..from] + [m.tasks[from]];
        Assoc(m.tasks[..from], [m.tasks[from]], tail);
      }
    } else {
      assert rest == [] && m.tasks[..from] + [] == m.tasks;
    }
  }

  lemma SetStatusTasks(m: Manager, id: nat, s: Status)
    ensures SetStatus(m, id, s).tasks == m.tasks && SetStatus(m, id, s).expiredCount == m.expiredCount
    ensures SetStatus(m, id, s).now == m.now
  {
  }

  /** Where the first of them is, if there is one. */
  function FirstLate(tasks: seq<Task>, now: nat, from: nat): (i: nat)
    requires from <= |tasks|
    ensures from <= i <= |tasks|
    ensures i < |tasks| ==> tasks[i].expire.Some? && tasks[i].expire.value < now
    ensures forall j :: from <= j < i ==> !(tasks[j].expire.Some? && tasks[j].expire.value < now)
    decreases |tasks| - from
  {
    if from == |tasks| || (tasks[from].expire.Some? && tasks[from].expire.value < now) then from
    else FirstLate(tasks, now, from + 1)
  }

  /** `removeExpired` of just one takes the first that the clock is past. */
  lemma {:induction false} RemovesFirstLate(m: Manager, from: nat)
    requires from <= |m.tasks|
    ensures var i := FirstLate(m.tasks, m.now, from);
            RemoveExpired(m, from, true)
            == if i == |m.tasks| then m else DropAt(m, i, Expired).(expiredCount := m.expiredCount + 1)
    decreases |m.tasks| - from
  {
    hide DropAt;
    if from < |m.tasks| && !(m.tasks[from].expire.Some? && m.tasks[from].expire.value < m.now) {
      RemovesFirstLate(m, from + 1);
    }
  }

  /** A task of that runnable and expiry joins the queue, as pending, when the manager is started
      and has room, or can make some by dropping the first task that the clock is past; otherwise
      the call waits. A limit of zero is none. */
  lemma AddsTask(m: Manager, runnable: nat, expire: Option<nat>)
    requires m.mode == Started && (forall i :: 0 <= i < |m.tasks| ==> m.tasks[i].id < |m.status|)
    requires m.pendingTaskCountMax > 0 ==> |m.tasks| <= m.pendingTaskCountMax
    ensures var late := FirstLate(m.tasks, m.now, 0);
            var full := m.pendingTaskCountMax > 0 && |m.tasks| == m.pendingTaskCountMax;
            var task := Task(|m.status|, runnable, expire);
            && (Enabled(m, Add(runnable, expire)) <==> !full || late < |m.tasks|)
            && (Enabled(m, Block) <==> full && late == |m.tasks|)
            && (!full ==> Next(m, Add(runnable, expire)) == m.(tasks := m.tasks + [task], status := m.status + [Pending]))
            && (full && late < |m.tasks| ==>
                  Next(m, Add(runnable, expire))
                  == m.(tasks := m.tasks[..late] + m.tasks[late + 1..] + [task],
                        status := m.status[m.tasks[late].id := Expired] + [Pending], expiredCount := m.expiredCount + 1))
            && (full && late == |m.tasks| ==> Next(m, Block) == m.(blocked := m.blocked + 1))
  {
    RemovesFirstLate(m, 0);
    hide RemoveExpired, FirstLate;
  }

  /** A call that waits puts its task into the queue when there is room again, whatever the state
      of the manager, or gives up. */
  lemma WaitingCalls(m: Manager, runnable: nat, expire: Option<nat>)
    ensures Enabled(m, Unblock(runnable, expire))
       <==> m.blocked > 0 && (m.pendingTaskCountMax == 0 || |m.tasks| < m.pendingTaskCountMax)
    ensures Enabled(m, Unblock(runnable, expire)) ==>
              Next(m, Unblock(runnable, expire)) == m.(blocked := m.blocked - 1, status := m.status + [Pending],
                                                       tasks := m.tasks + [Task(|m.status|, runnable, expire)])
    ensures Enabled(m, GiveUp) <==> m.blocked > 0
    ensures m.blocked > 0 ==> Next(m, GiveUp) == m.(blocked := m.blocked - 1)
  {
  }

  /** `remove` takes out the first task with that runnable, and `removeNextPending` the first of
      all; every other task keeps its place and its status. */
  lemma RemovesTask(m: Manager, runnable: nat, i: nat)
    requires m.mode == Started && i < |m.tasks| && m.tasks[i].id < |m.status|
    requires m.tasks[i].runnable == runnable && forall j :: 0 <= j < i ==> m.tasks[j].runnable != runnable
    ensures Enabled(m, Remove(runnable)) && Enabled(m, RemoveNextPending)
    ensures Next(m, Remove(runnable))
         == m.(tasks := m.tasks[..i] + m.tasks[i + 1..], status := m.status[m.tasks[i].id := Removed])
    ensures i == 0 ==> Next(m, RemoveNextPending)
                       == m.(tasks := m.tasks[1..], popped := m.popped + [m.tasks[0].id],
                             status := m.status[m.tasks[0].id := Removed])
  {
    FirstOf(m.tasks, runnable, i);
    hide IndexOf;
  }

  lemma {:induction false} FirstOf(tasks: seq<Task>, runnable: nat, i: nat)
    requires i <= |tasks| && (i < |tasks| ==> tasks[i].runnable == runnable)
    requires forall j :: 0 <= j < i ==> tasks[j].runnable != runnable
    ensures IndexOf(tasks, runnable) == if i < |tasks| then Some(i) else None
    decreases i
  {
    if i > 0 { FirstOf(tasks[1..], runnable, i - 1); }
  }

  /** Without one, and before `start` and after `stop`, nothing changes. */
  lemma RemovesNothing(m: Manager, runnable: nat)
    ensures Enabled(m, Remove(runnable)) && (forall j :: 0 <= j < |m.tasks| ==> m.tasks[j].runnable != runnable)
            ==> Next(m, Remove(runnable)) == m
    ensures m.mode != Started ==> !Enabled(m, Remove(runnable)) && !Enabled(m, RemoveNextPending)
                                  && !Enabled(m, Add(runnable, None)) && !Enabled(m, Block)
    ensures Enabled(m, RemoveNextPending) <==> m.mode == Started && m.tasks != []
  {
    if forall j :: 0 <= j < |m.tasks| ==> m.tasks[j].runnable != runnable {
      FirstOf(m.tasks, runnable, |m.tasks|);
    }
    hide IndexOf, RemoveExpired;
  }

  /** The calls that change the number of workers, one after another. `addWorker` raises the
      number wanted by that of the threads it starts, `removeWorker` lowers it, `stop` lowers it by
      that of all workers; each returns when there are as many as wanted, and `stop` stops. A
      thread that gets the mutex is counted and enters the loop. */
  lemma ChangesWorkers(m: Manager, f: set<Worker>, value: nat, w: Worker)
    ensures Enabled(m, AddWorkers(f)) <==> m.change == NoChange && f !! m.workers.Keys
    ensures Enabled(m, AddWorkers(f)) ==>
              && Next(m, AddWorkers(f)).workers == m.workers + (map v | v in f :: Starting)
              && Next(m, AddWorkers(f)) == m.(workerMaxCount := m.workerMaxCount + |f|, change := Adding,
                                              workers := Next(m, AddWorkers(f)).workers)
    ensures Enabled(m, RemoveWorkers(value)) <==> m.change == NoChange && value <= m.workerMaxCount
    ensures Enabled(m, RemoveWorkers(value)) ==>
              Next(m, RemoveWorkers(value)) == m.(workerMaxCount := m.workerMaxCount - value, change := Removing(false))
    ensures Enabled(m, Stop) <==> m.change == NoChange && (m.mode == Started || m.mode == Uninitialized)
    ensures Enabled(m, Stop) && m.workerCount == m.workerMaxCount ==>
              Next(m, Stop) == m.(mode := Joining, workerMaxCount := 0, change := Removing(true))
    ensures Enabled(m, StopAgain) <==> m.mode == Joining
    ensures m.mode == Joining ==> Next(m, StopAgain) == m.(mode := Stopped)
    ensures Enabled(m, Return) <==> m.change != NoChange && m.workerCount == m.workerMaxCount
    ensures Enabled(m, Return) ==>
              Next(m, Return) == if m.change == Removing(true) then m.(change := NoChange, mode := Stopped)
                                 else m.(change := NoChange)
    ensures Enabled(m, Begin(w)) <==> w in m.workers && m.workers[w] == Starting
    ensures Enabled(m, Begin(w)) && m.workerCount < m.workerMaxCount ==>
              Next(m, Begin(w)) == Loop(m.(workers := m.workers[w := Waiting], workerCount := m.workerCount + 1), w)
    ensures Enabled(m, Start) <==> m.mode == Uninitialized
    ensures Enabled(m, Start) ==> Next(m, Start) == m.(mode := Started)
  {
    hide Loop, RemoveExpired, IndexOf;
  }

  /** Until such a call returns nobody else changes the number wanted. */
  lemma {:induction false} Meanwhile(m: Manager, steps: seq<Step>)
    requires m.change != NoChange && IsRun(m, steps) && Return !in steps
    ensures After(m, steps).change == m.change && After(m, steps).workerMaxCount == m.workerMaxCount
    decreases steps
  {
    hide Enabled, Next;
    if steps != [] {
      assert steps[0] != Return;
      KeepsChange(m, steps[0]);
      Meanwhile(Next(m, steps[0]), steps[1..]);
    }
  }

  lemma KeepsChange(m: Manager, s: Step)
    requires m.change != NoChange && Enabled(m, s) && s != Return
    ensures Next(m, s).change == m.change && Next(m, s).workerMaxCount == m.workerMaxCount
  {
    hide Loop, RemoveExpired, IndexOf;
    match s
    case Add(_, _) => DropKeeps(m, 0, true);
    case Block => DropKeeps(m, 0, true);
    case Begin(w) => AdmitCounts(m, w);
    case Wake(w) => LoopCounts(m, w);
    case Finish(w) => FinishCounts(m, w);
    case _ =>
  }

  lemma {:induction false} LoopCounts(m: Manager, w: Worker)
    ensures Loop(m, w).change == m.change && Loop(m, w).workerMaxCount == m.workerMaxCount
    decreases |m.tasks|
  {
    hide IsExpired, SetStatus;
    if m.tasks != [] {
      PopKeeps(m, Executing);
      PopKeeps(m, Expired);
      if IsActive(m) && IsExpired(m.tasks[0], m.now) && !m.expireCallback { LoopCounts(Pop(m, Expired), w); }
    }
  }

  lemma AdmitCounts(m: Manager, w: Worker)
    ensures Admit(m, w).change == m.change && Admit(m, w).workerMaxCount == m.workerMaxCount
  {
    hide Loop;
    LoopCounts(Put(m, w, Waiting).(workerCount := m.workerCount + 1), w);
  }

  lemma FinishCounts(m: Manager, w: Worker)
    requires Enabled(m, Finish(w))
    ensures Next(m, Finish(w)).change == m.change && Next(m, Finish(w)).workerMaxCount == m.workerMaxCount
  {
    hide Loop;
    match m.workers[w]
    case Running(t) => LoopCounts(SetStatus(m, t.id, Completed), w);
    case Reporting(_) => LoopCounts(m.(expiredCount := m.expiredCount + 1), w);
  }

  /** Whatever happens meanwhile, `addWorker` returns with as many more workers as it was asked
      for, `removeWorker` with as many fewer, and `stop` with none, and stopped. */
  lemma ChangeReturns(m: Manager, s: Step, steps: seq<Step>)
    requires Inv(m) && Enabled(m, s) && (s.AddWorkers? || s.RemoveWorkers? || s.Stop?)
    requires IsRun(Next(m, s), steps) && Return !in steps && Enabled(After(Next(m, s), steps), Return)
    ensures var n := Next(After(Next(m, s), steps), Return);
            && n.change == NoChange
            && n.workerCount == (match s
                                 case AddWorkers(f) => m.workerCount + |f|
                                 case RemoveWorkers(value) => m.workerCount - value
                                 case _ => 0)
            && |Admitted(n)| == n.workerCount == |n.workers|
            && (s.Stop? ==> n.mode == Stopped)
  {
    hide IsRun, After, TasksOk, Loop, RemoveExpired;
    StepWorkers(m, s);
    StepTasks(m, s);
    RunKeeps(Next(m, s), steps);
    Meanwhile(Next(m, s), steps);
    var n := After(Next(m, s), steps);
    AllAdmitted(Next(n, Return));
    StepWorkers(n, Return);
  }

  lemma AllAdmitted(m: Manager)
    ensures StartingOf(m) == {} ==> Admitted(m) == m.workers.Keys && |Admitted(m)| == |m.workers|
  {
    if StartingOf(m) == {} {
      forall w | w in m.workers ensures w in Admitted(m) { assert w !in StartingOf(m); }
    }
  }

  // ---------------------------------------------------------------- stopping

  /** The manager is joining or stopped, with no call of `add` left over. */
  predicate Ending(m: Manager) {
    && m.blocked == 0 && (m.mode == Joining || m.mode == Stopped)
    && (m.mode == Joining ==> m.workerCount > 0 || m.tasks == [])
    && (m.mode == Stopped ==> m.tasks == [] && (Executing in m.status ==> m.change == Removing(true)))
  }

  predicate OneStop(steps: seq<Step>) {
    StopAgain !in steps
  }

  predicate Settled(status: seq<Status>) {
    forall id :: 0 <= id < |status| ==> status[id] == Completed || status[id] == Expired || status[id] == Removed
  }

  /** When `stop` has returned: no task is queued, and every accepted one was run, expired or
      removed. */
  predicate Finished(m: Manager) {
    m.mode == Stopped && m.change != Removing(true) ==> m.tasks == [] && Settled(m.status)
  }

  lemma NoWorkersNoRuns(m: Manager)
    requires Inv(m) && m.workerCount == 0
    ensures Executing !in m.status
  {
  }

  /** A section of a worker while the manager is ending. */
  lemma LoopEnds(m: Manager, w: Worker)
    requires WorkersOk(m) && w in Admitted(m) && m.blocked == 0
    requires m.mode == Joining || (m.mode == Stopped && m.tasks == [])
    requires m.mode == Stopped && Executing in m.status ==> m.change == Removing(true)
    ensures Ending(Loop(m, w)) && |Loop(m, w).status| == |m.status|
    ensures m.tasks == [] ==> Loop(m, w).tasks == []
  {
    LoopWorkers(m, w);
    SameLength(m, w);
    hide WorkersOk;
    var n := Loop(m, w);
    if m.mode == Joining && w in n.workers {
      AdmittedAfter(m, w);
      CountPositive(n, w);
    }
  }

  lemma {:induction false} SameLength(m: Manager, w: Worker)
    ensures |Loop(m, w).status| == |m.status|
    ensures m.tasks == [] ==> Loop(m, w).status == m.status && Loop(m, w).tasks == []
    decreases |m.tasks|
  {
    hide IsExpired, SetStatus;
    if m.tasks != [] {
      SetStatusLength(m, m.tasks[0].id, Executing);
      SetStatusLength(m, m.tasks[0].id, Expired);
      if IsActive(m) && IsExpired(m.tasks[0], m.now) && !m.expireCallback {
        PopKeeps(m, Expired);
        SameLength(Pop(m, Expired), w);
      }
    }
  }

  lemma SetStatusLength(m: Manager, id: nat, s: Status)
    ensures |SetStatus(m, id, s).status| == |m.status|
  {
  }

  lemma {:induction false} AdmittedAfter(m: Manager, w: Worker)
    requires w in Loop(m, w).workers
    ensures Loop(m, w).workers[w] != Starting
    decreases |m.tasks|
  {
    hide IsExpired, SetStatus;
    if IsActive(m) && m.tasks != [] && IsExpired(m.tasks[0], m.now) && !m.expireCallback {
      PopKeeps(m, Expired);
      AdmittedAfter(Pop(m, Expired), w);
    }
  }

  lemma CountPositive(m: Manager, w: Worker)
    requires WorkersOk(m) && w in m.workers && m.workers[w] != Starting
    ensures m.workerCount > 0
  {
    assert w in Admitted(m);
  }

  lemma FinishEnds(m: Manager, w: Worker)
    requires Inv(m) && Ending(m) && Enabled(m, Finish(w))
    ensures Ending(Next(m, Finish(w))) && |Next(m, Finish(w)).status| == |m.status|
    ensures m.tasks == [] ==> Next(m, Finish(w)).tasks == []
  {
    hide Loop, QueueOk, OrderOk;
    match m.workers[w]
    case Running(t) =>
      assert w !in {} && RunsIt(m, w, t.id);
      assert m.status[t.id] in m.status;
      var n := SetStatus(m, t.id, Completed);
      SameThreads(m, n);
      LoopEnds(n, w);
    case Reporting(_) =>
      var n := m.(expiredCount := m.expiredCount + 1);
      SameThreads(m, n);
      LoopEnds(n, w);
  }

  lemma BeginEnds(m: Manager, w: Worker)
    requires Inv(m) && Ending(m) && At(m, w, Starting)
    ensures Ending(Admit(m, w)) && |Admit(m, w).status| == |m.status| && Admit(m, w).tasks == []
  {
    hide TasksOk, Loop;
    BeginAdmits(m, w);
    assert w in StartingOf(m) && m.mode == Stopped;
    SameLength(Put(m, w, Waiting).(workerCount := m.workerCount + 1), w);
  }

  lemma StepEnds(m: Manager, s: Step)
    requires Inv(m) && Ending(m) && Enabled(m, s) && (s == StopAgain ==> m.tasks == [])
    ensures Ending(Next(m, s)) && |Next(m, s).status| == |m.status|
    ensures m.tasks == [] ==> Next(m, s).tasks == []
  {
    hide TasksOk, Loop, Admit, RemoveExpired;
    match s
    case Return =>
      if m.change == Removing(true) { NoWorkersNoRuns(m); }
    case Begin(w) => BeginEnds(m, w);
    case Wake(w) => LoopEnds(m, w);
    case Finish(w) => FinishEnds(m, w);
    case _ =>
  }

  lemma {:induction false} RunEnds(m: Manager, steps: seq<Step>)
    requires Inv(m) && Ending(m) && IsRun(m, steps) && (OneStop(steps) || m.tasks == [])
    ensures Inv(After(m, steps)) && Ending(After(m, steps)) && |After(m, steps).status| == |m.status|
    decreases steps
  {
    hide WorkersOk, TasksOk, Ending;
    if steps != [] {
      StepEnds(m, steps[0]);
      StepWorkers(m, steps[0]);
      StepTasks(m, steps[0]);
      RunEnds(Next(m, steps[0]), steps[1..]);
    }
  }

  /** When `stop` is called with no `add` waiting, and with a worker if there is a task, or with
      nothing to do if it is called again meanwhile, then in every run after it no worker leaves
      while a task is queued, no task is accepted any more, and once `stop` has returned every
      task accepted before it has been run, expired or removed. */
  lemma StopFinishes(m: Manager, steps: seq<Step>)
    requires Inv(m) && Enabled(m, Stop) && m.blocked == 0
    requires m.tasks == [] || (m.workerCount > 0 && OneStop(steps))
    requires IsRun(Next(m, Stop), steps)
    ensures var n := After(Next(m, Stop), steps);
            && |n.status| == |m.status|
            && (n.mode == Joining && n.workerCount == 0 ==> n.tasks == [])
            && Finished(n)
  {
    hide Init, After, IsRun, OrderOk, PlacesOk, WorkersOk;
    var s := Next(m, Stop);
    StepWorkers(m, Stop);
    StepTasks(m, Stop);
    RunEnds(s, steps);
    var n := After(s, steps);
    if n.mode == Stopped && n.change != Removing(true) {
      assert forall id: nat :: id < |n.status| && n.status[id] == Pending ==> Queued(n.tasks, id);
      assert forall id: nat :: id < |n.status| ==> n.status[id] in n.status;
    }
  }

  // ---------------------------------------------------------------- what stop leaves behind

  lemma Prepend(m: Manager, s: Step, steps: seq<Step>)
    requires Enabled(m, s) && IsRun(Next(m, s), steps)
    ensures IsRun(m, [s] + steps) && After(m, [s] + steps) == After(Next(m, s), steps)
  {
    hide Next, Enabled;
    assert ([s] + steps)[1..] == steps;
  }

  lemma {:induction false} Append(m: Manager, steps: seq<Step>, more: seq<Step>)
    requires IsRun(m, steps) && IsRun(After(m, steps), more)
    ensures IsRun(m, steps + more) && After(m, steps + more) == After(After(m, steps), more)
    decreases steps
  {
    hide Next, Enabled;
    if steps == [] {
      assert steps + more == more;
    } else {
      Append(Next(m, steps[0]), steps[1..], more);
      assert (steps + more)[1..] == steps[1..] + more;
    }
  }

  lemma LastState(m: Manager)
    ensures IsRun(m, []) && After(m, []) == m
  {
  }

  lemma OneStep(m: Manager, s: Step)
    requires Enabled(m, s)
    ensures IsRun(m, [s]) && After(m, [s]) == Next(m, s)
  {
    hide Next, Enabled;
    LastState(Next(m, s));
    Prepend(m, s, []);
  }

  /** A section of a worker while the manager is joining takes a task, or the worker leaves. */
  lemma {:induction false} LoopShrinks(m: Manager, w: Worker)
    ensures var n := Loop(m, w);
            && |n.tasks| <= |m.tasks| && n.workerCount <= m.workerCount
            && (m.tasks != [] && IsActive(m) ==> |n.tasks| < |m.tasks|)
            && (!IsActive(m) ==> n.tasks == m.tasks && n.workerCount == m.workerCount - 1)
    decreases |m.tasks|
  {
    hide IsExpired;
    if m.tasks != [] {
      PopKeeps(m, Executing);
      PopKeeps(m, Expired);
      if IsActive(m) && IsExpired(m.tasks[0], m.now) && !m.expireCallback {
        LoopShrinks(Pop(m, Expired), w);
      }
    }
  }

  /** The step that a worker takes next. */
  function StepOf(m: Manager, w: Worker): Step
    requires w in Admitted(m)
    ensures Enabled(m, StepOf(m, w)) && StepOf(m, w) != StopAgain
  {
    if m.workers[w] == Waiting then Wake(w) else Finish(w)
  }

  lemma StepShrinks(m: Manager, w: Worker)
    requires WorkersOk(m) && m.mode == Joining && w in Admitted(m)
    ensures var n := Next(m, StepOf(m, w));
            && n.mode == Joining && n.blocked == m.blocked && n.workerCount >= 0
            && (|n.tasks| < |m.tasks| || (|n.tasks| == |m.tasks| && n.workerCount < m.workerCount))
  {
    hide Loop;
    var x := match m.workers[w]
      case Running(t) => SetStatus(m, t.id, Completed)
      case Reporting(_) => m.(expiredCount := m.expiredCount + 1)
      case _ => m;
    SameThreads(m, x);
    LoopWorkers(x, w);
    LoopShrinks(x, w);
    CountPositive(m, w);
  }

  /** From any joining state there is a run in which all workers leave. */
  lemma {:induction false} Drains(m: Manager) returns (steps: seq<Step>)
    requires Inv(m) && m.mode == Joining
    ensures IsRun(m, steps) && OneStop(steps)
    ensures var n := After(m, steps); Inv(n) && n.mode == Joining && n.workerCount == 0 && n.blocked == m.blocked
    decreases |m.tasks|, m.workerCount
  {
    hide TasksOk, Loop, Next, Enabled, IsRun, After;
    if m.workerCount == 0 {
      LastState(m);
      return [];
    }
    var w :| w in Admitted(m);
    var s := StepOf(m, w);
    StepShrinks(m, w);
    StepWorkers(m, s);
    StepTasks(m, s);
    var later := Drains(Next(m, s));
    Prepend(m, s, later);
    return [s] + later;
  }

  /** Without workers `stop` returns at once. */
  lemma Returns(m: Manager)
    requires Inv(m) && m.mode == Joining && m.workerCount == 0
    ensures Enabled(m, Return) && Next(m, Return) == m.(change := NoChange, mode := Stopped)
  {
  }

  /** A task left in the queue. */
  lemma QueueLeft(m: Manager)
    requires Inv(m) && m.mode == Joining && m.workerCount == 0 && m.tasks != []
    ensures IsRun(m, [Return]) && !Finished(After(m, [Return]))
  {
    hide Inv, IsRun, After;
    Returns(m);
    OneStep(m, Return);
  }

  /** A blocked call puts its task into the queue of the stopped manager. */
  lemma BlockedLeft(m: Manager)
    requires Inv(m) && m.mode == Joining && m.workerCount == 0 && m.tasks == [] && m.blocked > 0
    ensures IsRun(m, [Return] + [Unblock(0, None)]) && !Finished(After(m, [Return] + [Unblock(0, None)]))
  {
    hide Inv, IsRun, After;
    Returns(m);
    OneStep(m, Return);
    var n := Next(m, Return);
    OneStep(n, Unblock(0, None));
    assert Next(n, Unblock(0, None)).tasks != [];
    Append(m, [Return], [Unblock(0, None)]);
  }

  /** A run after `stop` that leaves a task pending, whenever an `add` is waiting, and whenever
      there are tasks and no worker. */
  lemma LeavesTask(m: Manager) returns (steps: seq<Step>)
    requires Inv(m) && Enabled(m, Stop) && (m.blocked > 0 || (m.workerCount == 0 && m.tasks != []))
    ensures IsRun(Next(m, Stop), steps) && OneStop(steps) && !Finished(After(Next(m, Stop), steps))
  {
    var s := Next(m, Stop);
    StepWorkers(m, Stop);
    StepTasks(m, Stop);
    hide WorkersOk, TasksOk, IsRun, After;
    if m.workerCount == 0 && m.tasks != [] {
      QueueLeft(s);
      return [Return];
    }
    steps := Drains(s);
    var n := After(s, steps);
    if n.tasks != [] {
      QueueLeft(n);
      Append(s, steps, [Return]);
      steps := steps + [Return];
    } else {
      BlockedLeft(n);
      Append(s, steps, [Return] + [Unblock(0, None)]);
      steps := steps + ([Return] + [Unblock(0, None)]);
    }
  }

  /** `stop` leaves no task behind, in any run in which it is called once, if and only if no
      `add` is waiting when it is called and there is a worker, or nothing to do. */
  lemma StopSettles(m: Manager)
    requires Inv(m) && Enabled(m, Stop)
    ensures (forall steps :: IsRun(Next(m, Stop), steps) && OneStop(steps) ==> Finished(After(Next(m, Stop), steps)))
       <==> m.blocked == 0 && (m.workerCount > 0 || m.tasks == [])
  {
    hide Inv, Next, Enabled, IsRun, After, Settled, OneStop;
    if m.blocked == 0 && (m.workerCount > 0 || m.tasks == []) {
      forall steps | IsRun(Next(m, Stop), steps) && OneStop(steps) ensures Finished(After(Next(m, Stop), steps)) {
        StopFinishes(m, steps);
      }
    } else {
      NotNegative(m);
      var steps := LeavesTask(m);
    }
  }

  lemma NotNegative(m: Manager)
    requires Inv(m)
    ensures m.workerCount >= 0
  {
  }

  /** When it may be called again while it waits, that is so if and only if there was nothing
      to do and no `add` waiting. */
  lemma SecondStopSettles(m: Manager)
    requires Inv(m) && Enabled(m, Stop)
    ensures (forall steps :: IsRun(Next(m, Stop), steps) ==> Finished(After(Next(m, Stop), steps)))
       <==> m.blocked == 0 && m.tasks == []
  {
    hide Inv, Next, Enabled, IsRun, After, Settled, OneStop;
    if m.blocked == 0 && m.tasks == [] {
      forall steps | IsRun(Next(m, Stop), steps) ensures Finished(After(Next(m, Stop), steps)) {
        StopFinishes(m, steps);
      }
    } else if m.blocked > 0 {
      var steps := LeavesTask(m);
    } else {
      var steps := CutShort(m);
    }
  }

  /** No worker is added after the second `stop`. */
  predicate NoneAdded(steps: seq<Step>) {
    forall i :: 0 <= i < |steps| ==> !steps[i].AddWorkers?
  }

  /** The second `stop` has cut the first one short: nobody takes a task any more. */
  predicate CutOff(m: Manager) {
    m.mode == Stopped && m.workerMaxCount == 0 && m.change != Adding
  }

  lemma StepCutOff(m: Manager, s: Step)
    requires Inv(m) && CutOff(m) && Enabled(m, s) && !s.AddWorkers?
    ensures CutOff(Next(m, s)) && m.tasks <= Next(m, s).tasks
  {
    hide TasksOk, RemoveExpired;
    match s
    case Begin(w) => BeginAdmits(m, w);
    case Wake(w) => CountPositive(m, w);
    case Finish(w) => CountPositive(m, w);
    case _ =>
  }

  /** In every run after the second `stop`, as long as no worker is added, what is queued stays
      queued and pending: no worker takes it, and nobody can remove it. */
  lemma {:induction false} SecondStop(m: Manager, steps: seq<Step>)
    requires Inv(m) && CutOff(m) && IsRun(m, steps) && NoneAdded(steps)
    ensures var n := After(m, steps);
            && Inv(n) && CutOff(n) && m.tasks <= n.tasks
            && forall i :: 0 <= i < |m.tasks| ==> n.status[m.tasks[i].id] == Pending
    decreases steps
  {
    hide WorkersOk, OrderOk, PlacesOk, CutOff;
    if steps != [] {
      StepCutOff(m, steps[0]);
      StepWorkers(m, steps[0]);
      StepTasks(m, steps[0]);
      SecondStop(Next(m, steps[0]), steps[1..]);
    }
  }

  /** Every worker leaves, and the first `stop` returns. */
  lemma {:induction false} Leaves(m: Manager) returns (steps: seq<Step>)
    requires Inv(m) && CutOff(m) && m.change == Removing(true)
    ensures IsRun(m, steps) && NoneAdded(steps)
    ensures After(m, steps).mode == Stopped && After(m, steps).change == NoChange
    decreases m.workerCount
  {
    hide TasksOk, Loop, Next, Enabled, IsRun, After;
    if m.workerCount == 0 {
      StopReturns(m);
      OneStep(m, Return);
      return [Return];
    }
    var w :| w in Admitted(m);
    var s := StepOf(m, w);
    StepLeaves(m, w);
    StepWorkers(m, s);
    StepTasks(m, s);
    var later := Leaves(Next(m, s));
    Prepend(m, s, later);
    return [s] + later;
  }

  lemma StepLeaves(m: Manager, w: Worker)
    requires WorkersOk(m) && CutOff(m) && m.change == Removing(true) && w in Admitted(m)
    ensures var n := Next(m, StepOf(m, w));
            CutOff(n) && n.change == Removing(true) && 0 <= n.workerCount < m.workerCount
  {
    CountPositive(m, w);
  }

  lemma StopReturns(m: Manager)
    requires WorkersOk(m) && m.change == Removing(true) && m.workerCount == 0
    ensures Enabled(m, Return) && Next(m, Return) == m.(change := NoChange, mode := Stopped)
  {
  }

  /** From every state with a task in which `stop` can be called there is a run with a second
      call after which the first returns with that task pending. */
  lemma CutShort(m: Manager) returns (steps: seq<Step>)
    requires Inv(m) && Enabled(m, Stop) && m.tasks != []
    ensures IsRun(Next(m, Stop), steps) && !Finished(After(Next(m, Stop), steps))
  {
    var s := Next(m, Stop);
    var n := Next(s, StopAgain);
    StepWorkers(m, Stop);
    StepTasks(m, Stop);
    StepWorkers(s, StopAgain);
    StepTasks(s, StopAgain);
    hide WorkersOk, TasksOk, IsRun, After;
    var later := Leaves(n);
    SecondStop(n, later);
    Prepend(s, StopAgain, later);
    steps := [StopAgain] + later;
  }

  // ---------------------------------------------------------------- an add left waiting

  /** A manager for at most one pending task and no expiry. */
  function Small(mode: Mode, count: int, workers: map<Worker, Place>, tasks: seq<Task>, status: seq<Status>,
                 blocked: nat, change: Change): Manager {
    Manager(mode, count, if change == Adding then 1 else count, workers, tasks, status, [], blocked, 1, false, 0, change, 0)
  }

  const FIRST := Task(0, 7, None)

  const FRESH := Small(Uninitialized, 0, map[], [], [], 0, NoChange)

  /** One worker waiting, one task pending, one call of `add` blocked. */
  const CROWDED := Small(Started, 1, map[0 := Waiting], [FIRST], [Pending], 1, NoChange)

  /** Such a state is reached by starting, adding a worker, and two calls of `add`. */
  lemma GetsCrowded() returns (steps: seq<Step>)
    ensures IsRun(FRESH, steps) && After(FRESH, steps) == CROWDED
  {
    hide IsRun, After;
    var m1 := Small(Started, 0, map[], [], [], 0, NoChange);
    var m2 := Small(Started, 0, map[0 := Starting], [], [], 0, Adding);
    var m3 := Small(Started, 1, map[0 := Waiting], [], [], 0, Adding);
    var m4 := Small(Started, 1, map[0 := Waiting], [], [], 0, NoChange);
    var m5 := Small(Started, 1, map[0 := Waiting], [FIRST], [Pending], 0, NoChange);
    LastState(CROWDED);
    NoneExpired(m5);
    assert Next(m5, Block) == CROWDED;
    Prepend(m5, Block, []);
    assert Next(m4, Add(7, None)) == m5;
    Prepend(m4, Add(7, None), [Block] + []);
    assert Next(m3, Return) == m4;
    Prepend(m3, Return, [Add(7, None)] + ([Block] + []));
    Begins();
    Prepend(m2, Begin(0), [Return] + ([Add(7, None)] + ([Block] + [])));
    AddsOne();
    steps := [Begin(0)] + ([Return] + ([Add(7, None)] + ([Block] + [])));
    Prepend(m1, AddWorkers({0}), steps);
    steps := [AddWorkers({0})] + steps;
    assert Next(FRESH, Start) == m1;
    Prepend(FRESH, Start, steps);
    steps := [Start] + steps;
  }

  /** So in some run from the start a task is left behind by a `stop` with a worker. */
  lemma BlockedAddOutlivesStop()
    ensures exists m, steps :: Init(m) && IsRun(m, steps) && !Finished(After(m, steps))
  {
    hide IsRun, After, Next;
    var steps := GetsCrowded();
    assert Init(FRESH);
    EveryRun(FRESH, steps);
    assert Enabled(CROWDED, Stop);
    var later := LeavesTask(CROWDED);
    Prepend(CROWDED, Stop, later);
    Append(FRESH, steps, [Stop] + later);
  }

  lemma NoneExpired(m: Manager)
    requires |m.tasks| == 1 && m.tasks[0].expire == None
    ensures RemoveExpired(m, 0, true) == m
  {
  }

  lemma AddsOne()
    ensures Next(Small(Started, 0, map[], [], [], 0, NoChange), AddWorkers({0}))
         == Small(Started, 0, map[0 := Starting], [], [], 0, Adding)
  {
  }

  lemma Begins()
    ensures Admit(Small(Started, 0, map[0 := Starting], [], [], 0, Adding), 0)
         == Small(Started, 1, map[0 := Waiting], [], [], 0, Adding)
  {
  }

  // ---------------------------------------------------------------- an unlocked scan

  /** The second half of a turn of `removeExpired`: the task at its position is erased. */
  function Erase(m: Manager, i: nat): Manager
    requires i < |m.tasks|
  {
    DropAt(m, i, Expired).(expiredCount := m.expiredCount + 1)
  }

  const LATE := Task(0, 7, Some(0))
  const OTHER := Task(1, 8, None)

  /** A worker, a task that has expired and one that never does. */
  const SCANNED := Manager(Started, 1, 1, map[0 := Waiting], [LATE, OTHER], [Pending, Pending], [], 0, 0, true, 0,
                           NoChange, 1)

  /** `removeExpiredTasks` scans without the mutex, so anything may happen between the two
      halves of a turn, the test of the task at a position and the removal of what is there. It
      removes the task that it tested if and only if this and all in front of it are still
      pending; otherwise a later one, if there is one. */
  lemma UnlockedScan(m: Manager, steps: seq<Step>, i: nat)
    requires Inv(m) && IsRun(m, steps) && i < |m.tasks|
    ensures var n := After(m, steps);
            && (i < |n.tasks| ==> n.tasks[i].id >= m.tasks[i].id)
            && (forall j :: 0 <= j <= i ==> m.tasks[j].id < |n.status|)
            && (i < |n.tasks| && n.tasks[i].id == m.tasks[i].id
                <==> forall j :: 0 <= j <= i ==> n.status[m.tasks[j].id] == Pending)
  {
    RunKeeps(m, steps);
    RunOnward(m, steps);
    hide WorkersOk, OrderOk, PlacesOk, IsRun, After;
    var n := After(m, steps);
    if i < |n.tasks| {
      PlacesGrow(m, n, i);
      if n.tasks[i].id == m.tasks[i].id { SamePlaces(m, n, i); }
    }
    if forall j :: 0 <= j <= i ==> n.status[m.tasks[j].id] == Pending {
      StaysPut(m, n, i);
    }
  }

  /** The queue of `n` comes after that of `m`. */
  ghost predicate Later(m: Manager, n: Manager) {
    QueueOk(m.tasks, m.status) && QueueOk(n.tasks, n.status) && AllOnward(m.status, n.status)
  }

  /** Where a task of the later queue was in the earlier one. */
  lemma WasAt(m: Manager, n: Manager, j: nat) returns (q: nat)
    requires Later(m, n) && j < |n.tasks| && n.tasks[j].id < |m.status|
    ensures q < |m.tasks| && m.tasks[q].id == n.tasks[j].id
  {
    assert Queued(m.tasks, n.tasks[j].id);
    q :| 0 <= q < |m.tasks| && m.tasks[q].id == n.tasks[j].id;
  }

  /** Tasks only move forward in the queue. */
  lemma {:induction false} PlacesGrow(m: Manager, n: Manager, j: nat)
    requires Later(m, n) && j < |n.tasks| && j < |m.tasks|
    ensures n.tasks[j].id >= m.tasks[j].id
  {
    if j > 0 { PlacesGrow(m, n, j - 1); }
    if n.tasks[j].id < |m.status| {
      var q := WasAt(m, n, j);
      assert q >= j;
    }
  }

  /** A task that has kept its place has kept those in front of it. */
  lemma {:induction false} SamePlaces(m: Manager, n: Manager, i: nat)
    requires Later(m, n) && i < |m.tasks| && i < |n.tasks| && n.tasks[i].id == m.tasks[i].id
    ensures forall j :: 0 <= j <= i ==> n.status[m.tasks[j].id] == Pending
  {
    if i > 0 {
      var q := WasAt(m, n, i - 1);
      PlacesGrow(m, n, i - 1);
      assert q < i;
      SamePlaces(m, n, i - 1);
    }
  }

  lemma {:induction false} StaysPut(m: Manager, n: Manager, i: nat)
    requires Later(m, n) && i < |m.tasks| && forall j :: 0 <= j <= i ==> n.status[m.tasks[j].id] == Pending
    ensures i < |n.tasks| && n.tasks[i].id == m.tasks[i].id
  {
    assert Queued(n.tasks, m.tasks[i].id);
    var p :| 0 <= p < |n.tasks| && n.tasks[p].id == m.tasks[i].id;
    if i > 0 { StaysPut(m, n, i - 1); }
    assert i <= p;
    PlacesGrow(m, n, i);
  }

  /** For instance, a worker takes the task that was tested, and the scan removes another one,
      which has not expired and is never run. */
  lemma ScanRemovesAnother()
    ensures Inv(SCANNED) && IsExpired(SCANNED.tasks[0], SCANNED.now) && Enabled(SCANNED, Wake(0))
    ensures var n := Next(SCANNED, Wake(0));
            && n.workers == map[0 := Reporting(LATE)] && n.tasks == [OTHER]
            && Erase(n, 0).tasks == [] && Erase(n, 0).status == [Expired, Expired]
  {
    ScannedInv();
    hide Inv;
    assert SCANNED.tasks[1..] == [OTHER];
    assert Next(SCANNED, Wake(0)) == Put(Pop(SCANNED, Expired), 0, Reporting(LATE));
    assert [OTHER][..0] + [OTHER][1..] == [];
  }

  lemma ScannedInv()
    ensures Inv(SCANNED)
  {
    assert Admitted(SCANNED) == {0} && StartingOf(SCANNED) == {};
    assert SCANNED.tasks[0].id == 0 && SCANNED.tasks[1].id == 1;
  }
}
