/** The connection pool and the processor count of TNonblockingServer, over all runs of its
    I/O threads, its worker threads and the overload actions. */
module NonblockingPool {
  import opened Bytes

  type Conn = nat

  /** Where a request of an active connection is. */
  datatype Phase =
    | NoRequest          // reading or sending
    | Handling           // counted; in the I/O thread, on its way to the processor or the queue
    | Queued             // its task is pending
    | Running            // its task runs in a worker thread
    | Finished           // the worker has notified the I/O thread
    | Dismissed          // `forceClose` has notified the I/O thread

  datatype Server = Server(
    activeConnections: map<Conn, Phase>,
    connectionStack: seq<Conn>,         // top last
    numTConnections: nat,
    numActiveProcessors: nat,
    connectionStackLimit: nat,
    nextIOThread: nat,
    ioThreads: nat)

  predicate Init(s: Server) {
    s.activeConnections == map[] && s.connectionStack == [] && s.numTConnections == 0
    && s.numActiveProcessors == 0 && s.nextIOThread < s.ioThreads
  }

  // ---------------------------------------------------------------- locked sections

  /** `createConnection`: the top of the stack, or a new object. */
  function Create(s: Server, fresh_: Conn): (Server, Conn)
    requires s.ioThreads > 0
  {
    var next := (s.nextIOThread + 1) % s.ioThreads;
    if s.connectionStack == [] then
      (s.(activeConnections := s.activeConnections[fresh_ := NoRequest],
          numTConnections := s.numTConnections + 1, nextIOThread := next), fresh_)
    else
      var top := |s.connectionStack| - 1;
      var c := s.connectionStack[top];
      (s.(activeConnections := s.activeConnections[c := NoRequest],
          connectionStack := s.connectionStack[..top], nextIOThread := next), c)
  }

  /** `returnConnection`. */
  function Return(s: Server, c: Conn): Server {
    var t := s.(activeConnections := s.activeConnections - {c});
    if s.connectionStackLimit > 0 && |s.connectionStack| >= s.connectionStackLimit then
      t.(numTConnections := if t.numTConnections > 0 then t.numTConnections - 1 else 0)
    else t.(connectionStack := s.connectionStack + [c])
  }

  function Increment(s: Server): Server {
    s.(numActiveProcessors := s.numActiveProcessors + 1)
  }

  /** `decrementActiveProcessors`: never below zero. */
  function Decrement(s: Server): Server {
    s.(numActiveProcessors := if s.numActiveProcessors > 0 then s.numActiveProcessors - 1 else 0)
  }

  function Enter(s: Server, c: Conn, p: Phase): Server {
    s.(activeConnections := s.activeConnections[c := p])
  }

  // ---------------------------------------------------------------- steps

  datatype Step =
    | Accept(fresh_: Conn)                   // a client connects
    | HangUp(c: Conn)                        // `close` while no request is in hand
    | Begin(c: Conn)                         // a complete request: counted
    | Enqueue(c: Conn)                       // `addTask` takes it
    | Refuse(c: Conn)                        // `addTask` throws, or so does the processor
    | Answer(c: Conn)                        // the processor returns in the I/O thread
    | Take(c: Conn)                          // a worker takes the task
    | Discard(c: Conn, notified: bool)       // drained or expired: `forceClose`
    | EndTask(c: Conn, notified: bool)       // the task is over
    | Deliver(c: Conn)                       // the I/O thread reads the notification

  predicate In(s: Server, c: Conn, p: Phase) {
    c in s.activeConnections && s.activeConnections[c] == p
  }

  predicate Enabled(s: Server, step: Step) {
    match step
    case Accept(f) => s.ioThreads > 0 && f !in s.activeConnections && f !in s.connectionStack
    case HangUp(c) => In(s, c, NoRequest)
    case Begin(c) => In(s, c, NoRequest)
    case Enqueue(c) => In(s, c, Handling)
    case Refuse(c) => In(s, c, Handling)
    case Answer(c) => In(s, c, Handling)
    case Take(c) => In(s, c, Queued)
    case Discard(c, _) => In(s, c, Queued)
    case EndTask(c, _) => In(s, c, Running)
    case Deliver(c) => In(s, c, Finished) || In(s, c, Dismissed)
  }

  function Next(s: Server, step: Step): Server
    requires Enabled(s, step)
  {
    match step
    case Accept(f) => Create(s, f).0
    case HangUp(c) => Return(s, c)
    case Begin(c) => Enter(Increment(s), c, Handling)
    case Enqueue(c) => Enter(s, c, Queued)
    case Refuse(c) => Return(Decrement(s), c)
    case Answer(c) => Enter(Decrement(s), c, NoRequest)
    case Take(c) => Enter(s, c, Running)
    case Discard(c, notified) => if notified then Enter(s, c, Dismissed) else Return(Decrement(s), c)
    case EndTask(c, notified) => if notified then Enter(s, c, Finished) else Return(Decrement(s), c)
    case Deliver(c) =>
      if In(s, c, Finished) then Enter(Decrement(s), c, NoRequest) else Return(Decrement(s), c)
  }

  predicate IsRun(s: Server, steps: seq<Step>)
    decreases steps
  {
    steps == [] || (Enabled(s, steps[0]) && IsRun(Next(s, steps[0]), steps[1..]))
  }

  function After(s: Server, steps: seq<Step>): Server
    requires IsRun(s, steps)
    decreases steps
  {
    if steps == [] then s else After(Next(s, steps[0]), steps[1..])
  }

  // ---------------------------------------------------------------- the invariant

  /** The connections whose request has been counted and not yet finished. */
  function Busy(s: Server): set<Conn> {
    set c | c in s.activeConnections && s.activeConnections[c] != NoRequest
  }

  predicate Inv(s: Server) {
    && (forall c :: c in s.connectionStack ==> c !in s.activeConnections)
    && (forall i, j :: 0 <= i < j < |s.connectionStack| ==> s.connectionStack[i] != s.connectionStack[j])
    && s.numTConnections == |s.activeConnections| + |s.connectionStack|
    && (s.connectionStackLimit > 0 ==> |s.connectionStack| <= s.connectionStackLimit)
    && s.numActiveProcessors == |Busy(s)|
    && s.nextIOThread < s.ioThreads
  }

  lemma MapWith<K, V>(m: map<K, V>, k: K, v: V)
    ensures |m[k := v]| == |m| + (if k in m then 0 else 1)
  {
  }

  lemma MapWithout<K, V>(m: map<K, V>, k: K)
    requires k in m
    ensures |m - {k}| == |m| - 1
  {
  }

  lemma BusyEnter(s: Server, c: Conn, p: Phase)
    requires c in s.activeConnections || p == NoRequest
    ensures Busy(Enter(s, c, p)) == if p == NoRequest then Busy(s) - {c} else Busy(s) + {c}
  {
  }

  lemma ReturnKeeps(s: Server, c: Conn)
    requires c in s.activeConnections
    requires forall d :: d in s.connectionStack ==> d !in s.activeConnections
    requires forall i, j :: 0 <= i < j < |s.connectionStack| ==> s.connectionStack[i] != s.connectionStack[j]
    requires s.numTConnections == |s.activeConnections| + |s.connectionStack|
    requires s.connectionStackLimit > 0 ==> |s.connectionStack| <= s.connectionStackLimit
    requires s.numActiveProcessors == |Busy(s) - {c}| && s.nextIOThread < s.ioThreads
    ensures Inv(Return(s, c))
  {
    MapWithout(s.activeConnections, c);
    assert Busy(Return(s, c)) == Busy(s) - {c};
  }

  /** Leaving a phase in which the request counts: the counter was not zero. */
  lemma CountedOut(s: Server, c: Conn)
    requires Inv(s) && c in Busy(s)
    ensures Decrement(s).numActiveProcessors == s.numActiveProcessors - 1 == |Busy(s) - {c}|
  {
  }

  lemma AcceptKeeps(s: Server, f: Conn)
    requires Inv(s) && Enabled(s, Accept(f))
    ensures Inv(Create(s, f).0) && Create(s, f).1 in Create(s, f).0.activeConnections
  {
    var (t, c) := Create(s, f);
    MapWith(s.activeConnections, c, NoRequest);
    assert Busy(t) == Busy(s);
  }

  lemma EnterKeeps(s: Server, c: Conn, p: Phase)
    requires Inv(s) && c in s.activeConnections
    requires (p == NoRequest) <==> c !in Busy(s)
    ensures Inv(Enter(s, c, p))
  {
    MapWith(s.activeConnections, c, p);
    BusyEnter(s, c, p);
    assert Busy(Enter(s, c, p)) == Busy(s);
  }

  lemma EnterCounted(s: Server, c: Conn, p: Phase)
    requires Inv(s) && c in s.activeConnections && p != NoRequest && c !in Busy(s)
    ensures Inv(Enter(Increment(s), c, p))
  {
    MapWith(s.activeConnections, c, p);
    BusyEnter(Increment(s), c, p);
    assert Busy(Increment(s)) == Busy(s);
  }

  lemma EnterUncounted(s: Server, c: Conn)
    requires Inv(s) && c in Busy(s)
    ensures Inv(Enter(Decrement(s), c, NoRequest))
  {
    CountedOut(s, c);
    MapWith(s.activeConnections, c, NoRequest);
    BusyEnter(Decrement(s), c, NoRequest);
    assert Busy(Decrement(s)) == Busy(s);
  }

  lemma ReturnCounted(s: Server, c: Conn)
    requires Inv(s) && c in Busy(s)
    ensures Inv(Return(Decrement(s), c))
  {
    CountedOut(s, c);
    assert Busy(Decrement(s)) == Busy(s);
    ReturnKeeps(Decrement(s), c);
  }

  /** Every step keeps the invariant. */
  lemma StepKeeps(s: Server, step: Step)
    requires Inv(s) && Enabled(s, step)
    ensures Inv(Next(s, step))
  {
    hide Create, Return, Enter, Increment, Decrement, Inv;
    match step
    case Accept(f) => AcceptKeeps(s, f);
    case HangUp(c) => HangUpKeeps(s, c);
    case Begin(c) => EnterCounted(s, c, Handling);
    case Enqueue(c) => EnterKeeps(s, c, Queued);
    case Refuse(c) => ReturnCounted(s, c);
    case Answer(c) => EnterUncounted(s, c);
    case Take(c) => EnterKeeps(s, c, Running);
    case Discard(c, notified) => if notified { EnterKeeps(s, c, Dismissed); } else { ReturnCounted(s, c); }
    case EndTask(c, notified) => if notified { EnterKeeps(s, c, Finished); } else { ReturnCounted(s, c); }
    case Deliver(c) => if In(s, c, Finished) { EnterUncounted(s, c); } else { ReturnCounted(s, c); }
  }

  lemma HangUpKeeps(s: Server, c: Conn)
    requires Inv(s) && In(s, c, NoRequest)
    ensures Inv(Return(s, c))
  {
    assert Busy(s) - {c} == Busy(s);
    ReturnKeeps(s, c);
  }

  lemma {:induction false} RunKeeps(s: Server, steps: seq<Step>)
    requires Inv(s) && IsRun(s, steps)
    ensures Inv(After(s, steps))
    decreases steps
  {
    if steps != [] {
      StepKeeps(s, steps[0]);
      RunKeeps(Next(s, steps[0]), steps[1..]);
    }
  }

  /** In every run the connections in use and those on the stack are apart, their numbers
      add up to the number of objects, the stack stays within its limit, and the processor
      count is the number of requests accepted and not yet finished. */
  lemma {:induction false} EveryRun(s: Server, steps: seq<Step>)
    requires Init(s) && IsRun(s, steps)
    ensures Inv(After(s, steps))
    ensures var t := After(s, steps);
            && (forall c :: c in t.connectionStack ==> c !in t.activeConnections)
            && t.numTConnections == |t.activeConnections| + |t.connectionStack|
            && (t.connectionStackLimit > 0 ==> |t.connectionStack| <= t.connectionStackLimit)
            && t.numActiveProcessors == |Busy(t)|
  {
    assert Busy(s) == {};
    RunKeeps(s, steps);
  }

  datatype Count = Count(accepted: nat, finished: nat)

  /** Requests accepted and finished in the course of a run. */
  function Tally(s: Server, steps: seq<Step>): Count
    requires IsRun(s, steps)
    decreases steps
  {
    if steps == [] then Count(0, 0)
    else
      var rest := Tally(Next(s, steps[0]), steps[1..]);
      match steps[0]
      case Begin(_) => Count(rest.accepted + 1, rest.finished)
      case Refuse(_) => Count(rest.accepted, rest.finished + 1)
      case Answer(_) => Count(rest.accepted, rest.finished + 1)
      case Discard(_, notified) => if notified then rest else Count(rest.accepted, rest.finished + 1)
      case EndTask(_, notified) => if notified then rest else Count(rest.accepted, rest.finished + 1)
      case Deliver(_) => Count(rest.accepted, rest.finished + 1)
      case _ => rest
  }

  /** The counter against the history: accepted less finished. */
  lemma {:induction false} CountIsTally(s: Server, steps: seq<Step>)
    requires Inv(s) && IsRun(s, steps)
    ensures After(s, steps).numActiveProcessors + Tally(s, steps).finished
         == s.numActiveProcessors + Tally(s, steps).accepted
    decreases steps
  {
    if steps != [] {
      StepKeeps(s, steps[0]);
      CountIsTally(Next(s, steps[0]), steps[1..]);
      StepCount(s, steps[0]);
    }
  }

  lemma StepCount(s: Server, step: Step)
    requires Inv(s) && Enabled(s, step)
    ensures Next(s, step).numActiveProcessors - s.numActiveProcessors
         == match step
            case Begin(_) => 1
            case Refuse(_) => -1
            case Answer(_) => -1
            case Discard(_, notified) => if notified then 0 else -1
            case EndTask(_, notified) => if notified then 0 else -1
            case Deliver(_) => -1
            case _ => 0
  {
    hide Inv, Busy;
    match step
    case Refuse(c) => NotZero(s, c);
    case Answer(c) => NotZero(s, c);
    case Discard(c, _) => NotZero(s, c);
    case EndTask(c, _) => NotZero(s, c);
    case Deliver(c) => NotZero(s, c);
    case _ =>
  }

  lemma NotZero(s: Server, c: Conn)
    requires Inv(s) && c in s.activeConnections && s.activeConnections[c] != NoRequest
    ensures s.numActiveProcessors > 0
  {
    assert c in Busy(s);
  }

  // ---------------------------------------------------------------- the object

  // ---------------------------------------------------------------- in plain terms

  /** A request on its way through the task queue: the connection is counted from the moment it is
      complete until its response is there, and everything is then as before. */
  lemma RequestComesBack(s: Server, c: Conn)
    requires In(s, c, NoRequest)
    ensures var queued := [Begin(c), Enqueue(c), Take(c), EndTask(c, true), Deliver(c)];
            IsRun(s, queued) && After(s, queued) == s
    ensures IsRun(s, [Begin(c), Answer(c)]) && After(s, [Begin(c), Answer(c)]) == s
    ensures Next(s, Begin(c)).numActiveProcessors == s.numActiveProcessors + 1
  {
    var a := Next(s, Begin(c));
    var b := Next(a, Enqueue(c));
    var d := Next(b, Take(c));
    var e := Next(d, EndTask(c, true));
    var f := Next(e, Deliver(c));
    assert f.activeConnections == s.activeConnections && Next(a, Answer(c)).activeConnections == s.activeConnections;
    Five(s, Begin(c), Enqueue(c), Take(c), EndTask(c, true), Deliver(c));
    Two(s, Begin(c), Answer(c));
  }

  lemma Two(s: Server, x: Step, y: Step)
    requires Enabled(s, x) && Enabled(Next(s, x), y)
    ensures IsRun(s, [x, y]) && After(s, [x, y]) == Next(Next(s, x), y)
  {
    hide Enabled, Next;
    One(Next(s, x), y);
    assert [x, y][1..] == [y];
  }

  lemma One(s: Server, x: Step)
    requires Enabled(s, x)
    ensures IsRun(s, [x]) && After(s, [x]) == Next(s, x)
  {
    hide Enabled, Next;
    assert [x][1..] == [];
  }

  lemma Five(s: Server, x: Step, y: Step, z: Step, u: Step, v: Step)
    requires Enabled(s, x) && Enabled(Next(s, x), y) && Enabled(Next(Next(s, x), y), z)
    requires var t := Next(Next(Next(s, x), y), z); Enabled(t, u) && Enabled(Next(t, u), v)
    ensures IsRun(s, [x, y, z, u, v])
    ensures After(s, [x, y, z, u, v]) == Next(Next(Next(Next(Next(s, x), y), z), u), v)
  {
    hide Enabled, Next;
    Two(Next(Next(Next(s, x), y), z), u, v);
    assert [x, y, z, u, v][1..] == [y, z, u, v] && [y, z, u, v][1..] == [z, u, v] && [z, u, v][1..] == [u, v];
    var a, b := Next(s, x), Next(Next(s, x), y);
    assert IsRun(b, [z, u, v]) && After(b, [z, u, v]) == After(Next(b, z), [u, v]);
    assert IsRun(a, [y, z, u, v]) && After(a, [y, z, u, v]) == After(b, [z, u, v]);
  }

  /** Whatever cuts a request short takes its connection out of use and its count off: a refusal, or
      a task that is discarded or ends without a notification, or a forced close that is delivered. */
  lemma CutShort(s: Server, c: Conn)
    requires s.numActiveProcessors > 0
    ensures var gone := Return(s.(numActiveProcessors := s.numActiveProcessors - 1), c);
            && (In(s, c, Handling) ==> Enabled(s, Refuse(c)) && Next(s, Refuse(c)) == gone)
            && (In(s, c, Queued) ==> Enabled(s, Discard(c, false)) && Next(s, Discard(c, false)) == gone)
            && (In(s, c, Running) ==> Enabled(s, EndTask(c, false)) && Next(s, EndTask(c, false)) == gone)
            && (In(s, c, Dismissed) ==> Enabled(s, Deliver(c)) && Next(s, Deliver(c)) == gone)
    ensures In(s, c, Queued) ==> In(Next(s, Discard(c, true)), c, Dismissed)
    ensures In(s, c, NoRequest) ==> Enabled(s, HangUp(c)) && Next(s, HangUp(c)) == Return(s, c)
  {
  }

  /** The connection that was given back last is the next to be used again, unless the stack is at
      its limit; then it is gone. */
  lemma Reuses(s: Server, c: Conn, fresh_: Conn)
    requires s.ioThreads > 0
    ensures var full := s.connectionStackLimit > 0 && |s.connectionStack| >= s.connectionStackLimit;
            var t := Return(s, c);
            && t.activeConnections == s.activeConnections - {c}
            && (if full then t.connectionStack == s.connectionStack
                     && (s.numTConnections > 0 ==> t.numTConnections == s.numTConnections - 1)
                else Create(t, fresh_).1 == c && Create(t, fresh_).0.connectionStack == s.connectionStack
                     && t.numTConnections == s.numTConnections)
  {
  }

  /** New clients go to the I/O threads in turn, with a new connection only if none is stacked. */
  lemma InTurn(s: Server, fresh_: Conn)
    requires s.nextIOThread < s.ioThreads
    ensures var (t, d) := Create(s, fresh_);
            && t.activeConnections == s.activeConnections[d := NoRequest]
            && t.nextIOThread == (if s.nextIOThread == s.ioThreads - 1 then 0 else s.nextIOThread + 1)
            && (s.connectionStack == [] ==> d == fresh_ && t.numTConnections == s.numTConnections + 1)
            && (s.connectionStack != [] ==> t.numTConnections == s.numTConnections)
  {
  }

  /** The server's own fields; which requests are where is known to the connections. */
  class Pool {
    var activeConnections: set<Conn>
    var connectionStack: seq<Conn>
    var numTConnections: nat
    var numActiveProcessors: nat
    var connectionStackLimit: nat
    var nextIOThread: nat
    const ioThreads: nat

    /** The fields are those of `s`. */
    ghost predicate Shows(s: Server)
      reads this
    {
      && activeConnections == s.activeConnections.Keys && connectionStack == s.connectionStack
      && numTConnections == s.numTConnections && numActiveProcessors == s.numActiveProcessors
      && connectionStackLimit == s.connectionStackLimit && nextIOThread == s.nextIOThread && ioThreads == s.ioThreads
    }

    constructor (connectionStackLimit: nat, ioThreads: nat)
      requires ioThreads > 0
      ensures Shows(Server(map[], [], 0, 0, connectionStackLimit, 0, ioThreads))
    {
      activeConnections, connectionStack := {}, [];
      numTConnections, numActiveProcessors := 0, 0;
      this.connectionStackLimit, nextIOThread, this.ioThreads := connectionStackLimit, 0, ioThreads;
    }

    method CreateConnection(fresh_: Conn, ghost s: Server) returns (c: Conn, thread: nat)
      requires Shows(s) && Enabled(s, Accept(fresh_))
      modifies this
      ensures Shows(Create(s, fresh_).0) && c == Create(s, fresh_).1 && thread == s.nextIOThread
    {
      thread := nextIOThread;
      nextIOThread := (nextIOThread + 1) % ioThreads;
      if connectionStack == [] {
        c := fresh_;
        numTConnections := numTConnections + 1;
      } else {
        c := connectionStack[|connectionStack| - 1];
        connectionStack := connectionStack[..|connectionStack| - 1];
      }
      activeConnections := activeConnections + {c};
      assert s.activeConnections[c := NoRequest].Keys == s.activeConnections.Keys + {c};
    }

    method ReturnConnection(c: Conn, ghost s: Server)
      requires Shows(s) && Inv(s) && c in s.activeConnections
      modifies this
      ensures Shows(Return(s, c))
    {
      MapWithout(s.activeConnections, c);
      activeConnections := activeConnections - {c};
      if connectionStackLimit != 0 && |connectionStack| >= connectionStackLimit {
        numTConnections := numTConnections - 1;
      } else {
        connectionStack := connectionStack + [c];
      }
    }

    /** The request of a connection is counted: the counter is the number of requests in hand. */
    method IncrementActiveProcessors(c: Conn, ghost s: Server)
      requires Shows(s) && Inv(s) && Enabled(s, Begin(c))
      modifies this`numActiveProcessors
      ensures Shows(Next(s, Begin(c))) && Inv(Next(s, Begin(c)))
      ensures numActiveProcessors == |Busy(s) + {c}| && c !in Busy(s)
    {
      StepKeeps(s, Begin(c));
      BusyEnter(Increment(s), c, Handling);
      assert Busy(Increment(s)) == Busy(s);
      MapWith(s.activeConnections, c, Handling);
      numActiveProcessors := numActiveProcessors + 1;
    }

    /** The request of a connection is over: the counter is the number of the others in hand,
        as the guard is never what stops it. */
    method DecrementActiveProcessors(c: Conn, ghost s: Server)
      requires Shows(s) && Inv(s) && c in Busy(s)
      modifies this`numActiveProcessors
      ensures Shows(Decrement(s)) && numActiveProcessors == |Busy(s) - {c}|
    {
      NotZero(s, c);
      if numActiveProcessors > 0 {
        numActiveProcessors := numActiveProcessors - 1;
      }
    }

    /** What `serverOverloaded` takes for the number of connections in use. */
    method CountInUse(ghost s: Server) returns (n: nat)
      requires Shows(s) && Inv(s)
      ensures n == |activeConnections|
    {
      assert |s.activeConnections| == |s.activeConnections.Keys|;
      n := numTConnections - |connectionStack|;
    }
  }
}
