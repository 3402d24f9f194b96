/** TimerManager: every section under its monitor is one atomic step; time is in nanoseconds. */
module TimerManager {
  import opened Bytes

  const MILLISECOND: nat := 1_000_000

  datatype Mode = Uninitialized | Starting | Started | Stopping | Stopped

  /** What has become of a timer. */
  datatype Status = Pending | Executing | Complete | Removed | Dropped

  datatype Timer = Timer(deadline: nat, runnable: nat, status: Status)

  datatype Entry = Entry(deadline: nat, id: nat)

  /** Where the dispatcher thread is while it does not hold the monitor. */
  datatype Place =
    | NoThread
    | Launched                                        // before its first section
    | Between                                         // before a section of its loop
    | Sleeping(until: Option<nat>, notified: bool)    // in `waitForTimeRelative`
    | Dispatching(batch: set<nat>)                    // running expired timers, in any order
    | Leaving                                         // before its last section
    | Gone

  datatype Manager = Manager(
    mode: Mode,
    taskMap: seq<Entry>,        // the multimap, in its order
    taskCount: int,
    timers: seq<Timer>,         // all timers ever added, by id
    place: Place,
    now: nat)

  predicate Init(m: Manager) {
    m.mode == Uninitialized && m.taskMap == [] && m.taskCount == 0 && m.timers == [] && m.place == NoThread
  }

  // ---------------------------------------------------------------- the multimap

  /** `upper_bound`: how many entries are due. */
  function Due(es: seq<Entry>, now: nat): (n: nat)
    ensures n <= |es|
    ensures forall i :: 0 <= i < n ==> es[i].deadline <= now
    ensures n < |es| ==> es[n].deadline > now
  {
    if es == [] || es[0].deadline > now then 0 else 1 + Due(es[1..], now)
  }

  /** `emplace`: behind the entries that are not later. */
  function Insert(es: seq<Entry>, e: Entry): seq<Entry> {
    InsertAt(es, e, Due(es, e.deadline))
  }

  function InsertAt(es: seq<Entry>, e: Entry, n: nat): (fs: seq<Entry>)
    requires n <= |es|
    ensures |fs| == |es| + 1
    ensures forall j :: 0 <= j < |fs| ==> fs[j] == if j < n then es[j] else if j == n then e else es[j - 1]
  {
    es[..n] + [e] + es[n..]
  }

  function SetStatus(ts: seq<Timer>, id: nat, s: Status): seq<Timer> {
    if id < |ts| then ts[id := ts[id].(status := s)] else ts
  }

  function SetAll(ts: seq<Timer>, es: seq<Entry>, s: Status): seq<Timer>
    decreases es
  {
    if es == [] then ts else SetAll(SetStatus(ts, es[0].id, s), es[1..], s)
  }

  function Ids(es: seq<Entry>): (r: set<nat>)
    ensures forall id :: id in r <==> Listed(es, id)
  {
    set i | 0 <= i < |es| :: es[i].id
  }

  // ---------------------------------------------------------------- the dispatcher

  /** The time to wait for an entry that is not due: whole milliseconds, at least one. */
  function Timeout(first: nat, now: nat): nat
    requires first > now
  {
    var ms := (first - now) / MILLISECOND;
    if ms == 0 then 1 else ms
  }

  /** A wait for the earliest deadline ends in the future, at most a millisecond after it and less
      than a millisecond before it. */
  lemma WakesInTime(first: nat, now: nat)
    requires first > now
    ensures now < now + Timeout(first, now) * 1_000_000 < first + 1_000_000
    ensures first < now + Timeout(first, now) * 1_000_000 + 1_000_000
  {
  }

  function Until(es: seq<Entry>, now: nat): Option<nat>
    requires es != [] ==> es[0].deadline > now
  {
    if es == [] then None else Some(now + Timeout(es[0].deadline, now) * MILLISECOND)
  }

  /** The section of the dispatcher's loop, at its start or on waking up. */
  function Section(m: Manager): Manager {
    if m.mode != Started then m.(place := Leaving)
    else
      var n := Due(m.taskMap, m.now);
      if n == 0 then m.(place := Sleeping(Until(m.taskMap, m.now), false))
      else
        m.(taskMap := m.taskMap[n..], taskCount := m.taskCount - n,
           timers := SetAll(m.timers, m.taskMap[..n], Executing), place := Dispatching(Ids(m.taskMap[..n])))
  }

  function Notify(m: Manager): Manager {
    match m.place
    case Sleeping(until, _) => m.(place := Sleeping(until, true))
    case _ => m
  }

  // ---------------------------------------------------------------- callers

  /** `add`: the dispatcher is told when it would sleep too long. */
  function Added(m: Manager, deadline: nat, runnable: nat): Manager {
    var required := m.taskCount == 0 || m.taskMap == [] || deadline < m.taskMap[0].deadline;
    var n := m.(taskMap := Insert(m.taskMap, Entry(deadline, |m.timers|)), taskCount := m.taskCount + 1,
                timers := m.timers + [Timer(deadline, runnable, Pending)]);
    if required then Notify(n) else n
  }

  /** `remove` of a runnable: every entry that has it, from position `i` on. */
  function RemoveAll(m: Manager, runnable: nat, i: nat): Manager
    requires i <= |m.taskMap|
    decreases |m.taskMap| - i
  {
    if i == |m.taskMap| then m
    else
      var id := m.taskMap[i].id;
      if id < |m.timers| && m.timers[id].runnable == runnable then RemoveAll(DropAt(m, i), runnable, i)
      else RemoveAll(m, runnable, i + 1)
  }

  function DropAt(m: Manager, i: nat): Manager
    requires i < |m.taskMap|
  {
    m.(taskMap := m.taskMap[..i] + m.taskMap[i + 1..], taskCount := m.taskCount - 1,
       timers := SetStatus(m.timers, m.taskMap[i].id, Removed))
  }

  function IndexOf(es: seq<Entry>, id: nat): (i: Option<nat>)
    ensures i.Some? ==> i.value < |es| && es[i.value].id == id
    ensures i == None ==> forall j :: 0 <= j < |es| ==> es[j].id != id
  {
    if es == [] then None
    else if es[0].id == id then Some(0)
    else
      match IndexOf(es[1..], id)
      case None => None
      case Some(i) => Some(i + 1)
  }

  // ---------------------------------------------------------------- steps

  datatype Step =
    | Start                                   // first section of `start`
    | First                                   // first section of the dispatcher
    | Enter                                   // it gets the monitor for its loop
    | Wake                                    // it wakes: notified, timed out or for no reason
    | RunOne(id: nat)                         // it runs a timer of its batch: they are ordered by address
    | Recheck                                 // the batch is done: it looks at the state again
    | Last                                    // its last section
    | Add(called: nat, deadline: nat, runnable: nat)
    | RemoveRunnable(runnable: nat)
    | RemoveTimer(id: nat)
    | Stop                                    // first section of `stop`
    | Clear                                   // `stop` has seen the end and clears the map
    | Tick(d: nat)

  predicate Enabled(m: Manager, s: Step) {
    match s
    case Start => m.mode == Uninitialized
    case First => m.place == Launched
    case Enter => m.place == Between
    case Wake => m.place.Sleeping?
    case RunOne(id) => m.place.Dispatching? && id in m.place.batch
    case Recheck => m.place == Dispatching({})
    case Last => m.place == Leaving
    case Add(called, deadline, _) => called <= m.now && called <= deadline && m.mode == Started
    case RemoveRunnable(_) => m.mode == Started
    case RemoveTimer(id) => m.mode == Started && IndexOf(m.taskMap, id).Some?
    case Stop => m.mode != Stopping && m.mode != Stopped
    case Clear => m.mode == Stopped
    case Tick(_) => true
  }

  function Next(m: Manager, s: Step): Manager
    requires Enabled(m, s)
  {
    match s
    case Start => m.(mode := Starting, place := Launched)
    case First => m.(mode := if m.mode == Starting then Started else m.mode, place := Between)
    case Enter => Section(m)
    case Wake => Section(m)
    case RunOne(id) => m.(timers := SetStatus(m.timers, id, Complete), place := Dispatching(m.place.batch - {id}))
    case Recheck => m.(place := if m.mode == Started then Between else Leaving)
    case Last => m.(mode := if m.mode == Stopping then Stopped else m.mode, place := Gone)
    case Add(_, deadline, runnable) => Added(m, deadline, runnable)
    case RemoveRunnable(runnable) => RemoveAll(m, runnable, 0)
    case RemoveTimer(id) => DropAt(m, IndexOf(m.taskMap, id).value)
    case Stop => if m.mode == Uninitialized then m.(mode := Stopped) else Notify(m.(mode := Stopping))
    case Clear => m.(taskMap := [], timers := SetAll(m.timers, m.taskMap, Dropped))
    case Tick(d) => m.(now := m.now + d)
  }

  predicate IsRun(m: Manager, steps: seq<Step>)
    decreases steps
  {
    steps == [] || (Enabled(m, steps[0]) && IsRun(Next(m, steps[0]), steps[1..]))
  }

  function After(m: Manager, steps: seq<Step>): Manager
    requires IsRun(m, steps)
    decreases steps
  {
    if steps == [] then m else After(Next(m, steps[0]), steps[1..])
  }

  // ---------------------------------------------------------------- the invariant

  predicate Listed(es: seq<Entry>, id: nat) {
    exists i :: 0 <= i < |es| && es[i].id == id
  }

  ghost predicate EntriesOk(es: seq<Entry>, ts: seq<Timer>) {
    forall i :: 0 <= i < |es| ==>
      es[i].id < |ts| && ts[es[i].id].status == Pending && ts[es[i].id].deadline == es[i].deadline
  }

  predicate Ordered(es: seq<Entry>) {
    forall i, j :: 0 <= i < j < |es| ==> es[i].deadline <= es[j].deadline && es[i].id != es[j].id
  }

  ghost predicate AllListed(es: seq<Entry>, ts: seq<Timer>) {
    forall id: nat :: id < |ts| && ts[id].status == Pending ==> Listed(es, id)
  }

  /** The map holds exactly the pending timers, each once, by deadline. */
  ghost predicate MapOk(es: seq<Entry>, ts: seq<Timer>) {
    EntriesOk(es, ts) && Ordered(es) && AllListed(es, ts)
  }

  /** The timers that have been taken to run are those of the batch, and they were due; so
      were those that have run. */
  ghost predicate BatchOk(place: Place, ts: seq<Timer>, now: nat) {
    && (place.Dispatching? ==> forall id :: id in place.batch ==> id < |ts| && ts[id].status == Executing)
    && (forall id: nat :: id < |ts| && ts[id].status == Executing ==> place.Dispatching? && id in place.batch)
    && (forall id: nat :: id < |ts| && (ts[id].status == Executing || ts[id].status == Complete) ==> ts[id].deadline <= now)
  }

  /** While started, a dispatcher that sleeps without having been notified will wake within a
      millisecond of the earliest deadline. */
  predicate SleepOk(m: Manager) {
    m.mode == Started && m.place.Sleeping? && !m.place.notified && m.taskMap != [] ==>
      m.place.until.Some? && m.place.until.value <= m.taskMap[0].deadline + MILLISECOND
  }

  predicate ModeOk(m: Manager) {
    && (m.mode == Uninitialized ==> m.place == NoThread && m.taskMap == [])
    && (m.mode == Starting ==> m.place == Launched && m.taskMap == [])
    && (m.mode == Started ==> m.place == Between || m.place.Sleeping? || m.place.Dispatching?)
    && (m.mode == Stopping ==> m.place != NoThread && m.place != Gone
                               && (m.place.Sleeping? ==> m.place.notified))
    && (m.mode == Stopped ==> m.place == NoThread || m.place == Gone)
  }

  ghost predicate Inv(m: Manager) {
    && MapOk(m.taskMap, m.timers) && BatchOk(m.place, m.timers, m.now)
    && SleepOk(m) && ModeOk(m)
    && (m.mode != Stopped ==> m.taskCount == |m.taskMap|)
  }

  lemma {:induction false} SetAllEffect(ts: seq<Timer>, es: seq<Entry>, s: Status, id: nat)
    requires id < |ts|
    ensures |SetAll(ts, es, s)| == |ts|
    ensures SetAll(ts, es, s)[id] == if Listed(es, id) then ts[id].(status := s) else ts[id]
    decreases es
  {
    if es != [] {
      SetAllEffect(SetStatus(ts, es[0].id, s), es[1..], s, id);
      assert Listed(es, id) <==> es[0].id == id || Listed(es[1..], id) by { ListedStep(es, id); }
    }
  }

  lemma ListedStep(es: seq<Entry>, id: nat)
    requires es != []
    ensures Listed(es, id) <==> es[0].id == id || Listed(es[1..], id)
  {
  }

  lemma SetAllLength(ts: seq<Timer>, es: seq<Entry>, s: Status)
    ensures |SetAll(ts, es, s)| == |ts|
  {
    if ts != [] { SetAllEffect(ts, es, s, 0); } else { EmptyStays(es, s); }
  }

  lemma {:induction false} EmptyStays(es: seq<Entry>, s: Status)
    ensures SetAll([], es, s) == []
    decreases es
  {
    if es != [] { EmptyStays(es[1..], s); }
  }

  // ---------------------------------------------------------------- the map

  lemma DropMap(es: seq<Entry>, ts: seq<Timer>, i: nat, s: Status)
    requires MapOk(es, ts) && i < |es| && s != Pending
    ensures MapOk(es[..i] + es[i + 1..], SetStatus(ts, es[i].id, s))
  {
    var fs, us := es[..i] + es[i + 1..], SetStatus(ts, es[i].id, s);
    assert forall j :: 0 <= j < |fs| ==> fs[j] == es[if j < i then j else j + 1];
    forall id: nat | id < |us| && us[id].status == Pending ensures Listed(fs, id) {
      assert Listed(es, id);
      var j :| 0 <= j < |es| && es[j].id == id;
      assert fs[if j < i then j else j - 1].id == id;
    }
  }

  lemma InsertOrdered(es: seq<Entry>, e: Entry, n: nat)
    requires Ordered(es) && (forall i :: 0 <= i < |es| ==> es[i].id != e.id) && n <= |es|
    requires (forall i :: 0 <= i < n ==> es[i].deadline <= e.deadline) && (n < |es| ==> es[n].deadline > e.deadline)
    ensures Ordered(InsertAt(es, e, n))
  {
  }

  lemma InsertListed(es: seq<Entry>, e: Entry, n: nat, id: nat)
    requires n <= |es|
    ensures Listed(InsertAt(es, e, n), id) <==> id == e.id || Listed(es, id)
  {
    var fs := InsertAt(es, e, n);
    assert fs[n] == e;
    if Listed(es, id) {
      var j :| 0 <= j < |es| && es[j].id == id;
      assert fs[if j < n then j else j + 1].id == id;
    }
  }

  lemma InsertMap(es: seq<Entry>, ts: seq<Timer>, deadline: nat, runnable: nat)
    requires MapOk(es, ts)
    ensures MapOk(Insert(es, Entry(deadline, |ts|)), ts + [Timer(deadline, runnable, Pending)])
  {
    InsertMapAt(es, ts, Entry(deadline, |ts|), runnable, Due(es, deadline));
  }

  lemma InsertMapAt(es: seq<Entry>, ts: seq<Timer>, e: Entry, runnable: nat, n: nat)
    requires MapOk(es, ts) && e.id == |ts| && n <= |es|
    requires (forall i :: 0 <= i < n ==> es[i].deadline <= e.deadline) && (n < |es| ==> es[n].deadline > e.deadline)
    ensures MapOk(InsertAt(es, e, n), ts + [Timer(e.deadline, runnable, Pending)])
  {
    var us := ts + [Timer(e.deadline, runnable, Pending)];
    assert forall i :: 0 <= i < |es| ==> es[i].id != e.id;
    InsertOrdered(es, e, n);
    forall id: nat | id < |us| && us[id].status == Pending ensures Listed(InsertAt(es, e, n), id) {
      InsertListed(es, e, n, id);
    }
  }

  /** The timers of some entries, marked. */
  ghost predicate Marked(ts: seq<Timer>, us: seq<Timer>, es: seq<Entry>, s: Status) {
    |us| == |ts| && forall id: nat :: id < |us| ==> us[id] == if Listed(es, id) then ts[id].(status := s) else ts[id]
  }

  lemma SetAllMarks(ts: seq<Timer>, es: seq<Entry>, s: Status)
    ensures Marked(ts, SetAll(ts, es, s), es, s)
  {
    SetAllLength(ts, es, s);
    hide Listed;
    forall id: nat | id < |ts| ensures SetAll(ts, es, s)[id] == if Listed(es, id) then ts[id].(status := s) else ts[id] {
      SetAllEffect(ts, es, s, id);
    }
  }

  lemma SplitListed(es: seq<Entry>, n: nat, id: nat)
    requires n <= |es|
    ensures Listed(es, id) <==> Listed(es[..n], id) || Listed(es[n..], id)
  {
  }

  /** All due entries leave the map together. */
  lemma TakeMap(es: seq<Entry>, ts: seq<Timer>, n: nat, s: Status)
    requires MapOk(es, ts) && n <= |es| && s != Pending
    ensures MapOk(es[n..], SetAll(ts, es[..n], s))
  {
    var us := SetAll(ts, es[..n], s);
    SetAllMarks(ts, es[..n], s);
    assert forall j :: 0 <= j < |es| - n ==> es[n..][j] == es[n + j];
    forall j | 0 <= j < |es[n..]| ensures !Listed(es[..n], es[n..][j].id) {}
    hide SetAll, Listed;
    forall id: nat | id < |us| && us[id].status == Pending ensures Listed(es[n..], id) {
      assert Listed(es, id);
      SplitListed(es, n, id);
    }
  }

  // ---------------------------------------------------------------- the batch

  lemma TakeBatch(m: Manager)
    requires MapOk(m.taskMap, m.timers) && BatchOk(m.place, m.timers, m.now) && !m.place.Dispatching?
    ensures var due := m.taskMap[..Due(m.taskMap, m.now)];
            BatchOk(Dispatching(Ids(due)), SetAll(m.timers, due, Executing), m.now)
  {
    var due := m.taskMap[..Due(m.taskMap, m.now)];
    SetAllMarks(m.timers, due, Executing);
    hide SetAll, Due;
    MarkedBatch(m.taskMap, m.timers, SetAll(m.timers, due, Executing), m.place, |due|, m.now);
  }

  lemma MarkedBatch(es: seq<Entry>, ts: seq<Timer>, us: seq<Timer>, place: Place, n: nat, now: nat)
    requires MapOk(es, ts) && BatchOk(place, ts, now) && !place.Dispatching? && n <= |es|
    requires Marked(ts, us, es[..n], Executing) && forall i :: 0 <= i < n ==> es[i].deadline <= now
    ensures BatchOk(Dispatching(Ids(es[..n])), us, now)
  {
  }

  lemma RunBatch(m: Manager, id: nat)
    requires MapOk(m.taskMap, m.timers) && BatchOk(m.place, m.timers, m.now)
    requires m.place.Dispatching? && id in m.place.batch
    ensures var ts := SetStatus(m.timers, id, Complete);
            MapOk(m.taskMap, ts) && BatchOk(Dispatching(m.place.batch - {id}), ts, m.now)
  {
  }

  /** Other timers being added, removed or dropped, and time passing, leave the batch alone. */
  lemma SameBatch(place: Place, ts: seq<Timer>, now: nat, p: Place, us: seq<Timer>, later: nat)
    requires BatchOk(place, ts, now) && later >= now && |us| >= |ts|
    requires p == place || (!p.Dispatching? && !place.Dispatching?) || (place == Dispatching({}) && !p.Dispatching?)
    requires forall id: nat :: id < |us| ==>
               if id < |ts| && (ts[id].status == Executing || ts[id].status == Complete) then us[id] == ts[id]
               else us[id].status != Executing && us[id].status != Complete
    ensures BatchOk(p, us, later)
  {
  }

  // ---------------------------------------------------------------- every step

  lemma AddKeeps(m: Manager, deadline: nat, runnable: nat)
    requires Inv(m) && m.mode == Started
    ensures Inv(Added(m, deadline, runnable))
  {
    hide EntriesOk, Ordered, AllListed, BatchOk;
    InsertMap(m.taskMap, m.timers, deadline, runnable);
    var n := Added(m, deadline, runnable);
    SameTimers(m.timers, n.timers);
    SameBatch(m.place, m.timers, m.now, n.place, n.timers, m.now);
  }

  lemma SameTimers(ts: seq<Timer>, us: seq<Timer>)
    requires |us| == |ts| + 1 && us[..|ts|] == ts && us[|ts|].status == Pending
    ensures forall id: nat :: id < |us| ==>
              if id < |ts| && (ts[id].status == Executing || ts[id].status == Complete) then us[id] == ts[id]
              else us[id].status != Executing && us[id].status != Complete
  {
  }

  /** An entry is taken out of the map. */
  lemma DropAtKeeps(m: Manager, i: nat)
    requires Inv(m) && m.mode == Started && i < |m.taskMap|
    ensures Inv(DropAt(m, i))
  {
    hide BatchOk, AllListed;
    DropMap(m.taskMap, m.timers, i, Removed);
    var n := DropAt(m, i);
    SameBatch(m.place, m.timers, m.now, n.place, n.timers, m.now);
  }

  lemma {:induction false} RemoveAllKeeps(m: Manager, runnable: nat, i: nat)
    requires Inv(m) && m.mode == Started && i <= |m.taskMap|
    ensures Inv(RemoveAll(m, runnable, i)) && RemoveAll(m, runnable, i).mode == Started
    decreases |m.taskMap| - i
  {
    hide Inv;
    if i < |m.taskMap| {
      var id := m.taskMap[i].id;
      if id < |m.timers| && m.timers[id].runnable == runnable {
        DropAtKeeps(m, i);
        RemoveAllKeeps(DropAt(m, i), runnable, i);
      } else {
        RemoveAllKeeps(m, runnable, i + 1);
      }
    }
  }

  /** A section of the dispatcher leaves nothing in the map that is due. */
  lemma SectionKeeps(m: Manager)
    requires Inv(m) && (m.place == Between || m.place.Sleeping?)
    ensures Inv(Section(m))
    ensures m.mode == Started ==> forall i :: 0 <= i < |Section(m).taskMap| ==> Section(m).taskMap[i].deadline > m.now
  {
    hide EntriesOk, AllListed, BatchOk;
    if m.mode == Started {
      var n := Due(m.taskMap, m.now);
      if n == 0 {
        RestKeeps(m, Section(m).place);
        if m.taskMap != [] { WakesInTime(m.taskMap[0].deadline, m.now); }
      } else {
        TakeMap(m.taskMap, m.timers, n, Executing);
        TakeBatch(m);
      }
    } else {
      RestKeeps(m, Leaving);
    }
  }

  lemma RestKeeps(m: Manager, p: Place)
    requires BatchOk(m.place, m.timers, m.now) && (!m.place.Dispatching? || m.place == Dispatching({})) && !p.Dispatching?
    ensures BatchOk(p, m.timers, m.now)
  {
  }

  lemma ListedPending(es: seq<Entry>, ts: seq<Timer>, id: nat)
    requires EntriesOk(es, ts) && Listed(es, id)
    ensures id < |ts| && ts[id].status == Pending
  {
  }

  lemma ClearKeeps(m: Manager)
    requires Inv(m) && m.mode == Stopped
    ensures Inv(Next(m, Clear))
  {
    hide Ordered, AllListed, SetAll, Listed;
    var es := m.taskMap;
    assert es[..|es|] == es && es[|es|..] == [];
    TakeMap(es, m.timers, |es|, Dropped);
    SetAllMarks(m.timers, es, Dropped);
    forall id: nat | Listed(es, id) ensures id < |m.timers| && m.timers[id].status == Pending {
      ListedPending(es, m.timers, id);
    }
    SameBatch(m.place, m.timers, m.now, m.place, SetAll(m.timers, es, Dropped), m.now);
  }

  lemma StepKeeps(m: Manager, s: Step)
    requires Inv(m) && Enabled(m, s)
    ensures Inv(Next(m, s))
  {
    hide EntriesOk, Ordered, AllListed, BatchOk, Section, Added, RemoveAll, DropAt, IndexOf, SetAll;
    match s
    case Start => RestKeeps(m, Launched);
    case First => RestKeeps(m, Between);
    case Enter => SectionKeeps(m);
    case Wake => SectionKeeps(m);
    case RunOne(id) => RunBatch(m, id);
    case Recheck => RestKeeps(m, Next(m, s).place);
    case Last => RestKeeps(m, Gone);
    case Add(_, deadline, runnable) => AddKeeps(m, deadline, runnable);
    case RemoveRunnable(runnable) => RemoveAllKeeps(m, runnable, 0);
    case RemoveTimer(id) => DropAtKeeps(m, IndexOf(m.taskMap, id).value);
    case Stop => StopKeeps(m);
    case Clear => ClearKeeps(m);
    case Tick(d) => SameBatch(m.place, m.timers, m.now, m.place, m.timers, m.now + d);
  }

  lemma StopKeeps(m: Manager)
    requires Inv(m) && Enabled(m, Stop)
    ensures Inv(Next(m, Stop))
  {
  }

  lemma {:induction false} RunKeeps(m: Manager, steps: seq<Step>)
    requires Inv(m) && IsRun(m, steps)
    ensures Inv(After(m, steps))
    decreases steps
  {
    hide Inv;
    if steps != [] {
      StepKeeps(m, steps[0]);
      RunKeeps(Next(m, steps[0]), steps[1..]);
    }
  }

  /** In every run: until the manager has stopped, `taskCount_` is the number of entries; the
      entries are the pending timers; a timer that runs or has run was due; and a sleeping
      dispatcher that has not been notified wakes within a millisecond of the first deadline. */
  lemma {:induction false} EveryRun(m: Manager, steps: seq<Step>)
    requires Init(m) && IsRun(m, steps)
    ensures Inv(After(m, steps))
    ensures var n := After(m, steps);
            && (n.mode == Started ==> n.taskCount == |n.taskMap|)
            && (forall id: nat :: id < |n.timers| ==> (n.timers[id].status == Pending <==> Listed(n.taskMap, id)))
            && (forall id: nat :: id < |n.timers| && (n.timers[id].status == Executing || n.timers[id].status == Complete)
                  ==> n.timers[id].deadline <= n.now)
            && SleepOk(n)
  {
    RunKeeps(m, steps);
    hide IsRun, After, Listed, Init;
    var n := After(m, steps);
    forall id: nat | id < |n.timers| && Listed(n.taskMap, id) ensures n.timers[id].status == Pending {
      ListedPending(n.taskMap, n.timers, id);
    }
  }

  // ---------------------------------------------------------------- what becomes of a timer

  /** A timer only ever moves on: it runs at most once, and never once it has been removed. */
  predicate Onward(a: Timer, b: Timer) {
    && b.deadline == a.deadline && b.runnable == a.runnable
    && (b.status == a.status || a.status == Pending || (a.status == Executing && b.status == Complete))
  }

  predicate AllOnward(a: seq<Timer>, b: seq<Timer>) {
    |a| <= |b| && forall id :: 0 <= id < |a| ==> Onward(a[id], b[id])
  }

  lemma OnwardTwice(a: seq<Timer>, b: seq<Timer>, c: seq<Timer>)
    requires AllOnward(a, b) && AllOnward(b, c)
    ensures AllOnward(a, c)
  {
  }

  lemma MarkedOnward(es: seq<Entry>, ts: seq<Timer>, n: nat, s: Status)
    requires EntriesOk(es, ts) && n <= |es|
    ensures AllOnward(ts, SetAll(ts, es[..n], s))
  {
    hide SetAll, Listed;
    SetAllMarks(ts, es[..n], s);
    forall id: nat | Listed(es[..n], id) ensures id < |ts| && ts[id].status == Pending {
      assert EntriesOk(es[..n], ts);
      ListedPending(es[..n], ts, id);
    }
  }

  lemma {:induction false} RemoveOnward(m: Manager, runnable: nat, i: nat)
    requires Inv(m) && m.mode == Started && i <= |m.taskMap|
    ensures AllOnward(m.timers, RemoveAll(m, runnable, i).timers)
    decreases |m.taskMap| - i
  {
    hide Ordered, AllListed, BatchOk;
    if i < |m.taskMap| {
      var id := m.taskMap[i].id;
      if id < |m.timers| && m.timers[id].runnable == runnable {
        DropAtKeeps(m, i);
        RemoveOnward(DropAt(m, i), runnable, i);
        OnwardTwice(m.timers, DropAt(m, i).timers, RemoveAll(m, runnable, i).timers);
      } else {
        RemoveOnward(m, runnable, i + 1);
      }
    }
  }

  lemma StepOnward(m: Manager, s: Step)
    requires Inv(m) && Enabled(m, s)
    ensures AllOnward(m.timers, Next(m, s).timers)
  {
    hide Ordered, AllListed, SetAll, RemoveAll, Due, IndexOf;
    match s
    case Enter => MarkedOnward(m.taskMap, m.timers, Due(m.taskMap, m.now), Executing);
    case Wake => MarkedOnward(m.taskMap, m.timers, Due(m.taskMap, m.now), Executing);
    case RemoveRunnable(runnable) => RemoveOnward(m, runnable, 0);
    case Clear => ClearOnward(m);
    case _ =>
  }

  lemma ClearOnward(m: Manager)
    requires Inv(m)
    ensures AllOnward(m.timers, SetAll(m.timers, m.taskMap, Dropped))
  {
    hide Ordered, AllListed, SetAll, BatchOk;
    assert m.taskMap[..|m.taskMap|] == m.taskMap;
    MarkedOnward(m.taskMap, m.timers, |m.taskMap|, Dropped);
  }

  lemma {:induction false} RunOnward(m: Manager, steps: seq<Step>)
    requires Inv(m) && IsRun(m, steps)
    ensures AllOnward(m.timers, After(m, steps).timers)
    decreases steps
  {
    hide Inv, AllOnward, Next, Enabled;
    if steps == [] {
      StaysOnward(m.timers);
    } else {
      StepKeeps(m, steps[0]);
      StepOnward(m, steps[0]);
      RunOnward(Next(m, steps[0]), steps[1..]);
      OnwardTwice(m.timers, Next(m, steps[0]).timers, After(m, steps).timers);
    }
  }

  lemma StaysOnward(a: seq<Timer>)
    ensures AllOnward(a, a)
  {
  }

  /** How many steps of a run execute a timer. */
  function Runs(steps: seq<Step>, id: nat): nat {
    if steps == [] then 0 else (if steps[0] == RunOne(id) then 1 else 0) + Runs(steps[1..], id)
  }

  predicate Completed(ts: seq<Timer>, id: nat) {
    id < |ts| && ts[id].status == Complete
  }

  lemma {:induction false} RemoveCompletes(m: Manager, runnable: nat, i: nat, id: nat)
    requires i <= |m.taskMap| && EntriesOk(m.taskMap, m.timers) && Ordered(m.taskMap)
    ensures Completed(RemoveAll(m, runnable, i).timers, id) <==> Completed(m.timers, id)
    decreases |m.taskMap| - i
  {
    hide Completed;
    if i < |m.taskMap| {
      var first := m.taskMap[i].id;
      if first < |m.timers| && m.timers[first].runnable == runnable {
        DropCompletes(m, i, id);
        RemoveCompletes(DropAt(m, i), runnable, i, id);
      } else {
        RemoveCompletes(m, runnable, i + 1, id);
      }
    }
  }

  lemma DropCompletes(m: Manager, i: nat, id: nat)
    requires i < |m.taskMap| && EntriesOk(m.taskMap, m.timers) && Ordered(m.taskMap)
    ensures var n := DropAt(m, i); EntriesOk(n.taskMap, n.timers) && Ordered(n.taskMap)
    ensures Completed(DropAt(m, i).timers, id) <==> Completed(m.timers, id)
  {
    var es, fs := m.taskMap, DropAt(m, i).taskMap;
    assert forall j :: 0 <= j < |fs| ==> fs[j] == es[if j < i then j else j + 1];
  }

  lemma MarkCompletes(m: Manager, n: nat, s: Status, id: nat)
    requires EntriesOk(m.taskMap, m.timers) && n <= |m.taskMap| && s != Complete
    ensures Completed(SetAll(m.timers, m.taskMap[..n], s), id) <==> Completed(m.timers, id)
  {
    hide SetAll, Listed;
    SetAllMarks(m.timers, m.taskMap[..n], s);
    if Listed(m.taskMap[..n], id) {
      assert EntriesOk(m.taskMap[..n], m.timers);
      ListedPending(m.taskMap[..n], m.timers, id);
    }
  }

  /** A timer is complete after a step if it was before, or that step ran it. */
  lemma StepCompletes(m: Manager, s: Step, id: nat)
    requires Inv(m) && Enabled(m, s)
    ensures Completed(Next(m, s).timers, id) <==> Completed(m.timers, id) || s == RunOne(id)
    ensures s == RunOne(id) ==> !Completed(m.timers, id)
  {
    hide AllListed, SetAll, RemoveAll, Due, IndexOf;
    match s
    case Enter => MarkCompletes(m, Due(m.taskMap, m.now), Executing, id);
    case Wake => MarkCompletes(m, Due(m.taskMap, m.now), Executing, id);
    case RemoveRunnable(runnable) => RemoveCompletes(m, runnable, 0, id);
    case RemoveTimer(x) => DropCompletes(m, IndexOf(m.taskMap, x).value, id);
    case Clear => ClearCompletes(m, id);
    case _ =>
  }

  lemma ClearCompletes(m: Manager, id: nat)
    requires EntriesOk(m.taskMap, m.timers)
    ensures Completed(SetAll(m.timers, m.taskMap, Dropped), id) <==> Completed(m.timers, id)
  {
    assert m.taskMap[..|m.taskMap|] == m.taskMap;
    MarkCompletes(m, |m.taskMap|, Dropped, id);
  }

  /** Over the history of any run a timer is executed exactly once if it has come to be complete,
      and not at all otherwise; so never again once it was executed, nor once it was removed or
      dropped. */
  lemma {:induction false} RunsOnce(m: Manager, steps: seq<Step>, id: nat)
    requires Inv(m) && IsRun(m, steps)
    ensures Runs(steps, id) == if Completed(After(m, steps).timers, id) && !Completed(m.timers, id) then 1 else 0
    ensures Completed(m.timers, id) ==> Completed(After(m, steps).timers, id)
    ensures id < |m.timers| && m.timers[id].status != Pending && m.timers[id].status != Executing ==> Runs(steps, id) == 0
    decreases steps
  {
    hide MapOk, SleepOk, ModeOk, Section, Added, RemoveAll, DropAt;
    if steps != [] {
      StepKeeps(m, steps[0]);
      StepOnward(m, steps[0]);
      StepCompletes(m, steps[0], id);
      assert id < |m.timers| ==> Onward(m.timers[id], Next(m, steps[0]).timers[id]);
      RunsOnce(Next(m, steps[0]), steps[1..], id);
    }
  }

  /** In every run after a successful `remove` of a timer it never runs; and in every run none
      is taken to run before its deadline. */
  lemma RemovedStays(m: Manager, id: nat, steps: seq<Step>)
    requires Inv(m) && Enabled(m, RemoveTimer(id)) && IsRun(Next(m, RemoveTimer(id)), steps)
    ensures var n := After(Next(m, RemoveTimer(id)), steps);
            id < |n.timers| && n.timers[id].status == Removed
  {
    hide Ordered, AllListed, BatchOk, IsRun, After;
    var x := Next(m, RemoveTimer(id));
    StepKeeps(m, RemoveTimer(id));
    RunOnward(x, steps);
    assert x.timers[id].status == Removed;
    assert Onward(x.timers[id], After(x, steps).timers[id]);
  }

  /** The same for all timers of a removed runnable. */
  lemma {:induction false} RemoveAllRemoves(m: Manager, runnable: nat, i: nat, id: nat)
    requires Inv(m) && m.mode == Started && i <= |m.taskMap|
    requires exists j :: i <= j < |m.taskMap| && m.taskMap[j].id == id
    requires id < |m.timers| && m.timers[id].runnable == runnable
    ensures var n := RemoveAll(m, runnable, i); id < |n.timers| && n.timers[id].status == Removed
    decreases |m.taskMap| - i
  {
    hide Inv, DropAt;
    var j :| i <= j < |m.taskMap| && m.taskMap[j].id == id;
    var first := m.taskMap[i].id;
    if first < |m.timers| && m.timers[first].runnable == runnable {
      var n := DropAt(m, i);
      DropAtKeeps(m, i);
      FirstRemoved(m, runnable, i);
      if j > i {
        OthersStay(m, i, j, id);
        RemoveAllRemoves(n, runnable, i, id);
      }
    } else {
      RemoveAllRemoves(m, runnable, i + 1, id);
    }
  }

  lemma FirstRemoved(m: Manager, runnable: nat, i: nat)
    requires Inv(m) && m.mode == Started && i < |m.taskMap|
    ensures var n, id := RemoveAll(DropAt(m, i), runnable, i), m.taskMap[i].id;
            id < |n.timers| && n.timers[id].status == Removed
  {
    hide BatchOk, AllListed, Ordered, RemoveAll;
    var n, id := DropAt(m, i), m.taskMap[i].id;
    DropAtKeeps(m, i);
    RemoveOnward(n, runnable, i);
    assert n.timers[id].status == Removed;
    assert Onward(n.timers[id], RemoveAll(n, runnable, i).timers[id]);
  }

  lemma OthersStay(m: Manager, i: nat, j: nat, id: nat)
    requires i < j < |m.taskMap| && m.taskMap[j].id == id < |m.timers|
    ensures var n := DropAt(m, i);
            && |n.taskMap| == |m.taskMap| - 1 && n.taskMap[j - 1].id == id && n.mode == m.mode
            && |n.timers| == |m.timers| && n.timers[id].runnable == m.timers[id].runnable
  {
  }

  /** The handle of a timer that is not in the map is refused: it is being run, or is over. */
  lemma Uncancellable(m: Manager, id: nat)
    requires Inv(m) && id < |m.timers|
    ensures IndexOf(m.taskMap, id).Some? <==> m.timers[id].status == Pending
  {
  }
  // ---------------------------------------------------------------- what callers see

  /** In every run after `add` of a runnable with a deadline the timer is there, with that
      runnable, and it has not been run, nor been taken to run, before that deadline. */
  lemma RunsNotBefore(m: Manager, called: nat, deadline: nat, runnable: nat, steps: seq<Step>)
    requires Inv(m) && Enabled(m, Add(called, deadline, runnable))
    requires IsRun(Next(m, Add(called, deadline, runnable)), steps)
    ensures var n, id := After(Next(m, Add(called, deadline, runnable)), steps), |m.timers|;
            && id < |n.timers| && n.timers[id].runnable == runnable
            && (n.timers[id].status == Executing || n.timers[id].status == Complete ==> deadline <= n.now)
  {
    var x := Next(m, Add(called, deadline, runnable));
    StepKeeps(m, Add(called, deadline, runnable));
    RunKeeps(x, steps);
    RunOnward(x, steps);
    hide IsRun, After, MapOk, SleepOk, ModeOk, Insert;
    assert Onward(x.timers[|m.timers|], After(x, steps).timers[|m.timers|]);
  }

  /** `add` is refused for a deadline before the clock was read and when not started. Otherwise the
      new timer stands behind all that are not later, and a sleeping dispatcher is woken if it is
      now the first. */
  lemma AddsTimer(m: Manager, called: nat, deadline: nat, runnable: nat)
    requires Inv(m)
    ensures Enabled(m, Add(called, deadline, runnable)) <==> m.mode == Started && called <= m.now && called <= deadline
    ensures Enabled(m, Add(called, deadline, runnable)) ==>
              var n := Next(m, Add(called, deadline, runnable));
              && n.timers == m.timers + [Timer(deadline, runnable, Pending)] && n.taskCount == m.taskCount + 1
              && n.mode == m.mode && n.now == m.now
              && (exists i :: 0 <= i <= |m.taskMap|
                    && n.taskMap == m.taskMap[..i] + [Entry(deadline, |m.timers|)] + m.taskMap[i..]
                    && (forall j :: 0 <= j < i ==> m.taskMap[j].deadline <= deadline)
                    && (forall j :: i <= j < |m.taskMap| ==> m.taskMap[j].deadline > deadline))
              && n.place == (match m.place
                             case Sleeping(until, notified) =>
                               Sleeping(until, notified || m.taskMap == [] || deadline < m.taskMap[0].deadline)
                             case other => other)
  {
    hide BatchOk, SleepOk, EntriesOk, AllListed;
    if Enabled(m, Add(called, deadline, runnable)) {
      var i, n := Due(m.taskMap, deadline), Next(m, Add(called, deadline, runnable));
      assert n.taskMap == m.taskMap[..i] + [Entry(deadline, |m.timers|)] + m.taskMap[i..];
    }
  }

  /** The dispatcher takes to run exactly the pending timers whose deadline the clock has reached,
      all of them; if there is none it sleeps, until the earliest deadline or for good. */
  lemma Dispatches(m: Manager, id: nat)
    requires Inv(m) && m.mode == Started && !m.place.Dispatching?
    ensures var n := Section(m);
            && (n.place.Dispatching? && id in n.place.batch
                <==> id < |m.timers| && m.timers[id].status == Pending && m.timers[id].deadline <= m.now)
            && n.mode == m.mode && n.now == m.now
            && |n.timers| == |m.timers|
            && (id < |m.timers| ==>
                  n.timers[id] == if n.place.Dispatching? && id in n.place.batch then m.timers[id].(status := Executing)
                                  else m.timers[id])
            && (!n.place.Dispatching? ==>
                  && n.place.Sleeping? && !n.place.notified && (n.place.until == None <==> m.taskMap == [])
                  && (m.taskMap != [] ==>
                        var first, until := m.taskMap[0].deadline, n.place.until.value;
                        m.now < until <= first + 1_000_000 && first < until + 1_000_000))
  {
    if m.taskMap != [] && m.taskMap[0].deadline > m.now { WakesInTime(m.taskMap[0].deadline, m.now); }
    hide BatchOk, SleepOk, ModeOk, SetAll;
    var k := Due(m.taskMap, m.now);
    var due := m.taskMap[..k];
    SetAllMarks(m.timers, due, Executing);
    DueListed(m, k, id);
    hide Due;
  }

  lemma DueListed(m: Manager, k: nat, id: nat)
    requires MapOk(m.taskMap, m.timers) && k == Due(m.taskMap, m.now)
    ensures Listed(m.taskMap[..k], id)
       <==> id < |m.timers| && m.timers[id].status == Pending && m.timers[id].deadline <= m.now
  {
    hide Due;
    var due := m.taskMap[..k];
    if id < |m.timers| && m.timers[id].status == Pending && m.timers[id].deadline <= m.now {
      assert Listed(m.taskMap, id);
      var i :| 0 <= i < |m.taskMap| && m.taskMap[i].id == id;
      assert i < k;
      assert due[i].id == id;
    }
    if Listed(due, id) {
      var i :| 0 <= i < |due| && due[i].id == id;
      assert m.taskMap[i].id == id;
    }
  }

  /** `remove` of a handle marks that timer, which must be pending, and no other. */
  lemma RemovesTimer(m: Manager, id: nat)
    requires Inv(m) && id < |m.timers|
    ensures Enabled(m, RemoveTimer(id)) <==> m.mode == Started && m.timers[id].status == Pending
    ensures Enabled(m, RemoveTimer(id)) ==>
              var n := Next(m, RemoveTimer(id));
              && n.timers == m.timers[id := m.timers[id].(status := Removed)] && n.taskCount == m.taskCount - 1
              && (exists i :: 0 <= i < |m.taskMap| && m.taskMap[i].id == id
                              && n.taskMap == m.taskMap[..i] + m.taskMap[i + 1..])
              && n.mode == m.mode && n.now == m.now && n.place == m.place
  {
    Uncancellable(m, id);
    hide Inv, IndexOf;
  }

  /** How the dispatcher and `stop` go through the states: started by the first section, back to the
      top after a batch while started, and stopped by the last section, after which the map is
      cleared. A timer is run by its batch. */
  lemma Lifecycle(m: Manager, id: nat)
    ensures Enabled(m, Start) <==> m.mode == Uninitialized
    ensures Enabled(m, Start) ==> Next(m, Start) == m.(mode := Starting, place := Launched)
    ensures m.place == Launched ==>
              Next(m, First) == m.(mode := if m.mode == Starting then Started else m.mode, place := Between)
    ensures m.place == Between ==> Next(m, Enter) == Section(m)
    ensures m.place.Sleeping? ==> Next(m, Wake) == Section(m)
    ensures m.mode != Started ==> Section(m) == m.(place := Leaving)
    ensures m.place == Dispatching({}) ==> Next(m, Recheck) == m.(place := if m.mode == Started then Between else Leaving)
    ensures m.place == Leaving ==>
              Next(m, Last) == m.(mode := if m.mode == Stopping then Stopped else m.mode, place := Gone)
    ensures m.place.Dispatching? && id in m.place.batch && id < |m.timers| ==>
              Next(m, RunOne(id)) == m.(timers := m.timers[id := m.timers[id].(status := Complete)],
                                        place := Dispatching(m.place.batch - {id}))
    ensures Enabled(m, Stop) <==> m.mode == Uninitialized || m.mode == Starting || m.mode == Started
    ensures m.mode == Uninitialized ==> Next(m, Stop) == m.(mode := Stopped)
    ensures m.mode == Starting || m.mode == Started ==>
              Next(m, Stop) == m.(mode := Stopping, place := match m.place
                                                             case Sleeping(until, _) => Sleeping(until, true)
                                                             case other => other)
    ensures m.mode == Stopped ==> Next(m, Clear).taskMap == [] && Next(m, Clear).mode == Stopped
  {
    hide Due, SetAll;
  }

  /** The entries whose timer has another runnable. */
  function Others(es: seq<Entry>, ts: seq<Timer>, runnable: nat): seq<Entry> {
    if es == [] then []
    else if es[0].id < |ts| && ts[es[0].id].runnable == runnable then Others(es[1..], ts, runnable)
    else [es[0]] + Others(es[1..], ts, runnable)
  }

  /** `remove` of a runnable leaves exactly the entries of other runnables, in order, and counts the
      rest off. */
  lemma {:induction false} RemovesRunnable(m: Manager, runnable: nat, i: nat)
    requires i <= |m.taskMap|
    ensures var n := RemoveAll(m, runnable, i);
            && n.taskMap == m.taskMap[..i] + Others(m.taskMap[i..], m.timers, runnable)
            && n.taskCount == m.taskCount - (|m.taskMap| - |n.taskMap|)
            && n.mode == m.mode && n.now == m.now && n.place == m.place
    decreases |m.taskMap| - i
  {
    var rest := m.taskMap[i..];
    if i < |m.taskMap| {
      assert rest[1..] == m.taskMap[i + 1..];
      var id := m.taskMap[i].id;
      if id < |m.timers| && m.timers[id].runnable == runnable {
        var x := DropAt(m, i);
        assert x.taskMap[..i] == m.taskMap[..i] && x.taskMap[i..] == m.taskMap[i + 1..];
        SameRunnables(m.taskMap[i + 1..], m.timers, x.timers, runnable);
        RemovesRunnable(x, runnable, i);
      } else {
        RemovesRunnable(m, runnable, i + 1);
        assert m.taskMap[..i + 1] == m.taskMap[..i] + [m.taskMap[i]];
        Assoc(m.taskMap[..i], [m.taskMap[i]], Others(m.taskMap[i + 1..], m.timers, runnable));
      }
    } else {
      assert rest == [] && m.taskMap[..i] + [] == m.taskMap;
    }
  }

  lemma {:induction false} SameRunnables(es: seq<Entry>, ts: seq<Timer>, us: seq<Timer>, runnable: nat)
    requires |us| == |ts| && forall id :: 0 <= id < |ts| ==> us[id].runnable == ts[id].runnable
    ensures Others(es, us, runnable) == Others(es, ts, runnable)
    decreases es
  {
    if es != [] { SameRunnables(es[1..], ts, us, runnable); }
  }
}
