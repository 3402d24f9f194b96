/** The protocol between a thread that uses a TFileTransport and its writer thread, one
    step per lock-held section (or unlocked read) of the source. Waking from a condition
    variable may happen at any time: by notification, by timeout or spuriously. */
module FileQueue {
  import opened Bytes
  import opened FileLog

  /** A `TFileTransportBuffer` as a value. */
  datatype Buffer = Buffer(items: seq<Event>, read: nat, reading: bool)

  const EMPTY_BUFFER: Buffer := Buffer([], 0, false)

  datatype Producer =
    | Idle
    | Enqueueing(e: Event)   // `enqueueEvent`, past its checks and before the lock
    | AwaitNotFull(e: Event)
    | AwaitFlush
    | Joining                // in the destructor, waiting for the writer to exit
    | Gone

  datatype Writer =
    | NotStarted
    | Top                    // start of the `while (1)` of `writerThread`
    | Swapping               // `swapEventBuffers` called, lock not yet taken
    | AwaitNotEmpty
    | Draining               // inside the `getNext` loop
    | CheckFlush
    | Deciding(forced: bool)
    | Exited

  datatype State = State(
    cfg: Config,
    size: nat,               // eventBufferSize_
    closing: bool,
    forceFlush: bool,
    enqueue: Buffer,
    dequeue: Buffer,
    file: seq<byte>,
    accepted: seq<Event>,    // history: everything put into the enqueue buffer
    handled: seq<Event>,     // history: everything taken out, written or dropped
    producer: Producer,
    writer: Writer)

  predicate Init(s: State) {
    && s.cfg.Valid()
    && s == State(s.cfg, s.size, false, false, EMPTY_BUFFER, EMPTY_BUFFER, [], [], [], Idle, NotStarted)
  }

  // ---------------------------------------------------------------- producer steps

  ghost predicate BeginWrite(s: State, t: State, e: Event) {
    && s.producer == Idle && !s.closing
    && t == if Enqueueable(s.cfg, e) then s.(producer := Enqueueing(e)) else s
  }

  predicate IsFull(s: State, b: Buffer) { |b.items| == s.size }

  /** `addEvent` on the enqueue buffer. */
  function Added(s: State, e: Event): State {
    s.(enqueue := s.enqueue.(items := s.enqueue.items + [e]),
       accepted := s.accepted + [e],
       producer := Idle)
  }

  function StartWriter(s: State): State {
    if s.writer == NotStarted
    then s.(writer := Top, enqueue := EMPTY_BUFFER, dequeue := EMPTY_BUFFER)
    else s
  }

  /** The lock-held section of `enqueueEvent` up to the first wait. */
  ghost predicate Enqueue(s: State, t: State) {
    && s.producer.Enqueueing?
    && var u := StartWriter(s);
       t == if IsFull(u, u.enqueue) then u.(producer := AwaitNotFull(s.producer.e))
            else Added(u, s.producer.e)
  }

  ghost predicate WakeProducer(s: State, t: State) {
    && s.producer.AwaitNotFull?
    && t == if IsFull(s, s.enqueue) then s else Added(s, s.producer.e)
  }

  ghost predicate CallFlush(s: State, t: State) {
    && s.producer == Idle && !s.closing
    && t == if s.writer == NotStarted then s else s.(forceFlush := true, producer := AwaitFlush)
  }

  ghost predicate ReturnFromFlush(s: State, t: State) {
    && s.producer == AwaitFlush && !s.forceFlush
    && t == s.(producer := Idle)
  }

  ghost predicate Destroy(s: State, t: State) {
    && s.producer == Idle && !s.closing
    && t == if s.writer == NotStarted then s.(producer := Gone)
            else s.(closing := true, producer := Joining)
  }

  ghost predicate Join(s: State, t: State) {
    && s.producer == Joining && s.writer == Exited
    && t == s.(producer := Gone)
  }

  // ---------------------------------------------------------------- writer steps

  ghost predicate LoopTop(s: State, t: State) {
    && s.writer == Top
    && t == if s.closing && s.enqueue.items == [] && s.dequeue.items == []
            then s.(writer := Exited) else s.(writer := Swapping)
  }

  function Swapped(s: State): State {
    s.(enqueue := s.dequeue, dequeue := s.enqueue, writer := Draining)
  }

  ghost predicate SwapOrWait(s: State, t: State) {
    && s.writer == Swapping
    && t == if s.enqueue.items != [] then Swapped(s)
            else if s.closing then s.(writer := CheckFlush)
            else s.(writer := AwaitNotEmpty)
  }

  /** After a wait the source swaps when the buffer is still empty, not when it has filled. */
  ghost predicate WakeWriter(s: State, t: State) {
    && s.writer == AwaitNotEmpty
    && t == if s.enqueue.items == [] then Swapped(s) else s.(writer := CheckFlush)
  }

  /** Unless the padding before the event ends the process. */
  ghost predicate DrainOne(s: State, t: State) {
    && s.cfg.Valid()
    && s.writer == Draining && s.dequeue.read < |s.dequeue.items|
    && var e := s.dequeue.items[s.dequeue.read];
       !StopsWriter(s.cfg, |s.file|, e) &&
       t == s.(dequeue := s.dequeue.(read := s.dequeue.read + 1, reading := true),
               file := s.file + Emit(s.cfg, |s.file|, e),
               handled := s.handled + [e])
  }

  ghost predicate DrainEnd(s: State, t: State) {
    && s.writer == Draining && s.dequeue.read >= |s.dequeue.items|
    && t == s.(dequeue := EMPTY_BUFFER, writer := CheckFlush)
  }

  ghost predicate ReadForceFlush(s: State, t: State) {
    && s.writer == CheckFlush
    && t == s.(writer := if !s.forceFlush then Deciding(false)
                         else if s.enqueue.items != [] then Top
                         else Deciding(true))
  }

  /** `fsync` or not; only a forced flush changes anything the producer can see. */
  ghost predicate Decide(s: State, t: State) {
    && s.writer.Deciding?
    && t == if s.writer.forced then s.(forceFlush := false, writer := Top) else s.(writer := Top)
  }

  ghost predicate ProducerStep(s: State, t: State) {
    || (exists e :: BeginWrite(s, t, e))
    || Enqueue(s, t) || WakeProducer(s, t)
    || CallFlush(s, t) || ReturnFromFlush(s, t)
    || Destroy(s, t) || Join(s, t)
  }

  ghost predicate WriterStep(s: State, t: State) {
    || LoopTop(s, t) || SwapOrWait(s, t) || WakeWriter(s, t)
    || DrainOne(s, t) || DrainEnd(s, t) || ReadForceFlush(s, t) || Decide(s, t)
  }

  ghost predicate Next(s: State, t: State) {
    ProducerStep(s, t) || WriterStep(s, t)
  }

  // ---------------------------------------------------------------- invariant

  function Unread(b: Buffer): seq<Event> {
    if b.read <= |b.items| then b.items[b.read..] else []
  }

  /** Nothing is lost, duplicated or reordered. */
  predicate Conserved(s: State) {
    s.handled + Unread(s.dequeue) + s.enqueue.items == s.accepted
  }

  predicate Complete(s: State) {
    s.enqueue.items == [] && s.dequeue.items == [] && s.handled == s.accepted
  }

  /** The enqueue buffer is in write mode and within its size. */
  predicate BuffersOk(s: State) {
    && s.enqueue.read == 0 && !s.enqueue.reading && |s.enqueue.items| <= s.size
    && s.dequeue.read <= |s.dequeue.items| <= s.size
    && (s.writer != Draining ==> s.dequeue == EMPTY_BUFFER)
  }

  predicate ControlOk(s: State) {
    && (s.forceFlush ==> s.producer == AwaitFlush)
    && (s.writer == Deciding(true) ==> s.forceFlush && s.enqueue.items == [])
    && (s.producer == AwaitFlush && !s.forceFlush ==> Complete(s))
    && (s.closing ==> s.producer == Joining || s.producer == Gone)
    && (s.producer == Joining ==> s.closing)
    && (s.writer == NotStarted ==> Complete(s) && s.producer != AwaitFlush && !s.closing)
    && (s.writer == Exited ==> s.closing && Complete(s))
    && (s.producer == Gone ==> Complete(s) && (s.writer == NotStarted || s.writer == Exited))
    && (s.producer.Enqueueing? ==> Enqueueable(s.cfg, s.producer.e))
    && (s.producer.AwaitNotFull? ==> Enqueueable(s.cfg, s.producer.e) && s.writer != NotStarted)
  }

  ghost predicate HistoryOk(s: State) {
    && s.cfg.Valid()
    && AllEnqueueable(s.cfg, s.accepted)
    && s.file == Layout(s.cfg, s.handled)
  }

  ghost predicate Inv(s: State) {
    HistoryOk(s) && Conserved(s) && BuffersOk(s) && ControlOk(s)
  }

  lemma InitInv(s: State)
    requires Init(s)
    ensures Inv(s)
  {
  }

  // ---------------------------------------------------------------- every step keeps it

  /** Adding keeps everything: the assertion that no flush is in progress holds, and so
      does the one that the buffer has room. */
  lemma AddedKeeps(s: State, e: Event)
    requires Inv(s) && !IsFull(s, s.enqueue) && Enqueueable(s.cfg, e)
    requires s.producer.Enqueueing? || s.producer.AwaitNotFull?
    requires s.writer != NotStarted
    ensures !s.forceFlush && !s.enqueue.reading && |s.enqueue.items| < s.size
    ensures Inv(Added(s, e))
  {
  }

  lemma EnqueueKeeps(s: State, t: State)
    requires Inv(s) && Enqueue(s, t)
    ensures Inv(t)
  {
    var u := StartWriter(s);
    assert Inv(u);
    if !IsFull(u, u.enqueue) {
      AddedKeeps(u, s.producer.e);
    }
  }

  lemma WakeProducerKeeps(s: State, t: State)
    requires Inv(s) && WakeProducer(s, t)
    ensures Inv(t)
  {
    if !IsFull(s, s.enqueue) {
      AddedKeeps(s, s.producer.e);
    }
  }

  lemma CallsKeep(s: State, t: State)
    requires Inv(s) && (CallFlush(s, t) || ReturnFromFlush(s, t) || Destroy(s, t) || Join(s, t))
    ensures Inv(t)
  {
    hide Layout, AllEnqueueable, Unread;
    assert Unread(s.dequeue) == Unread(t.dequeue);
  }

  lemma BeginWriteKeeps(s: State, t: State, e: Event)
    requires Inv(s) && BeginWrite(s, t, e)
    ensures Inv(t)
  {
  }

  lemma ProducerKeeps(s: State, t: State)
    requires Inv(s) && ProducerStep(s, t)
    ensures Inv(t)
  {
    hide Inv, BeginWrite, Enqueue, WakeProducer, CallFlush, ReturnFromFlush, Destroy, Join;
    if Enqueue(s, t) {
      EnqueueKeeps(s, t);
    } else if WakeProducer(s, t) {
      WakeProducerKeeps(s, t);
    } else if e :| BeginWrite(s, t, e) {
      BeginWriteKeeps(s, t, e);
    } else {
      CallsKeep(s, t);
    }
  }

  /** Swapping is harmless even when both buffers are empty, as after a wait. */
  lemma SwappedKeeps(s: State)
    requires Inv(s) && (s.writer == Swapping || s.writer == AwaitNotEmpty)
    ensures Inv(Swapped(s)) && Unread(Swapped(s).dequeue) == s.enqueue.items
    ensures Swapped(s).enqueue == EMPTY_BUFFER
  {
  }

  lemma DrainOneConserves(s: State, t: State)
    requires Conserved(s) && DrainOne(s, t)
    ensures Conserved(t)
  {
  }

  lemma DrainOneWrites(s: State, t: State)
    requires HistoryOk(s) && DrainOne(s, t)
    ensures HistoryOk(t)
  {
    hide Emit, LayoutFrom, AllEnqueueable;
    var e := s.dequeue.items[s.dequeue.read];
    LayoutSplits(s.cfg, 0, s.handled, [e]);
    LayoutOfOne(s.cfg, |s.file|, e);
  }

  lemma DrainOneKeeps(s: State, t: State)
    requires Inv(s) && DrainOne(s, t)
    ensures Inv(t)
  {
    hide Emit, HistoryOk, Conserved;
    DrainOneConserves(s, t);
    DrainOneWrites(s, t);
  }

  lemma LayoutOfOne(cfg: Config, off: nat, e: Event)
    requires cfg.Valid()
    ensures LayoutFrom(cfg, off, [e]) == Emit(cfg, off, e)
  {
  }

  lemma SwapKeeps(s: State, t: State)
    requires Inv(s) && (SwapOrWait(s, t) || WakeWriter(s, t))
    ensures Inv(t)
  {
    hide Swapped, Layout, AllEnqueueable;
    SwappedKeeps(s);
  }

  lemma ControlKeeps(s: State, t: State)
    requires Inv(s) && (LoopTop(s, t) || DrainEnd(s, t) || ReadForceFlush(s, t) || Decide(s, t))
    ensures Inv(t)
  {
    hide Layout, AllEnqueueable;
  }

  lemma WriterKeeps(s: State, t: State)
    requires Inv(s) && WriterStep(s, t)
    ensures Inv(t)
  {
    hide Inv, LoopTop, SwapOrWait, WakeWriter, DrainOne, DrainEnd, ReadForceFlush, Decide;
    if DrainOne(s, t) {
      DrainOneKeeps(s, t);
    } else if SwapOrWait(s, t) || WakeWriter(s, t) {
      SwapKeeps(s, t);
    } else {
      ControlKeeps(s, t);
    }
  }

  // ---------------------------------------------------------------- runs

  /** A finite run: every step is a step of one of the two threads. */
  ghost predicate Run(r: seq<State>) {
    && |r| > 0 && Init(r[0])
    && forall i :: 0 < i < |r| ==> Next(r[i - 1], r[i])
  }

  lemma {:induction false} RunInv(r: seq<State>, i: nat)
    requires Run(r) && i < |r|
    ensures Inv(r[i])
    decreases i
  {
    if i == 0 {
      InitInv(r[0]);
    } else {
      RunInv(r, i - 1);
      if ProducerStep(r[i - 1], r[i]) {
        ProducerKeeps(r[i - 1], r[i]);
      } else {
        WriterKeeps(r[i - 1], r[i]);
      }
    }
  }

  /** In every interleaving, the events written or dropped, then the unread part of the
      dequeue buffer, then the enqueue buffer, are the accepted events in order; and the
      file is what the handled events lay out to. */
  lemma EveryRunConserves(r: seq<State>, i: nat)
    requires Run(r) && i < |r|
    ensures r[i].handled + Unread(r[i].dequeue) + r[i].enqueue.items == r[i].accepted
    ensures r[i].cfg.Valid() && r[i].file == Layout(r[i].cfg, r[i].handled)
    ensures |r[i].enqueue.items| <= r[i].size
  {
    RunInv(r, i);
  }

  /** `flush` returns only when both buffers are empty and everything accepted has been
      handled; a reader of the file then gets every accepted event that was not dropped. */
  lemma FlushCompletes(r: seq<State>, i: nat)
    requires Run(r) && 0 < i < |r| && ReturnFromFlush(r[i - 1], r[i])
    ensures Complete(r[i]) && r[i].cfg.Valid()
    ensures NoneWraps(r[i].cfg, r[i].accepted) ==>
              ReadAll(r[i].cfg, r[i].file, 0) == (Kept(r[i].cfg, r[i].accepted), Eof)
  {
    hide Next, Inv, ReadAll, Kept, NoneWraps, AllEnqueueable, Layout;
    RunInv(r, i - 1);
    FlushReturned(r[i - 1], r[i]);
    if NoneWraps(r[i].cfg, r[i].accepted) {
      RoundTrip(r[i].cfg, r[i].accepted);
    }
  }

  lemma FlushReturned(s: State, t: State)
    requires Inv(s) && ReturnFromFlush(s, t)
    ensures Complete(t) && HistoryOk(t)
  {
    hide Layout, AllEnqueueable;
  }

  /** Closing waits for the same: nothing accepted is lost by destroying the transport. */
  lemma CloseCompletes(r: seq<State>, i: nat)
    requires Run(r) && i < |r| && r[i].producer == Gone
    ensures Complete(r[i]) && r[i].cfg.Valid() && r[i].file == Layout(r[i].cfg, r[i].accepted)
  {
    RunInv(r, i);
  }

  /** The writer's assertions on a forced flush never fail, nor does the producer's that no
      flush is in progress when it adds. */
  lemma AssertionsHold(r: seq<State>, i: nat)
    requires Run(r) && i < |r|
    ensures r[i].writer == Deciding(true) ==> r[i].enqueue.items == [] && r[i].dequeue.items == []
    ensures r[i].producer.Enqueueing? || r[i].producer.AwaitNotFull? ==> !r[i].forceFlush
    ensures !r[i].enqueue.reading
  {
    RunInv(r, i);
  }
  // ---------------------------------------------------------------- getting there

  /** What the writer thread does next on its own, a wait that it is in being over. */
  function Turn(s: State): State
    requires s.cfg.Valid()
  {
    match s.writer
    case Top =>
      s.(writer := if s.closing && s.enqueue.items == [] && s.dequeue.items == [] then Exited else Swapping)
    case Swapping =>
      if s.enqueue.items != [] then Swapped(s) else s.(writer := if s.closing then CheckFlush else AwaitNotEmpty)
    case AwaitNotEmpty => if s.enqueue.items == [] then Swapped(s) else s.(writer := CheckFlush)
    case Draining =>
      if s.dequeue.read < |s.dequeue.items| then
        var e := s.dequeue.items[s.dequeue.read];
        s.(dequeue := s.dequeue.(read := s.dequeue.read + 1, reading := true),
           file := s.file + Emit(s.cfg, |s.file|, e), handled := s.handled + [e])
      else s.(dequeue := EMPTY_BUFFER, writer := CheckFlush)
    case CheckFlush =>
      s.(writer := if s.forceFlush && s.enqueue.items != [] then Top else Deciding(s.forceFlush))
    case Deciding(forced) => s.(forceFlush := if forced then false else s.forceFlush, writer := Top)
    case _ => s
  }

  /** Everything accepted is written or dropped, and no flush is asked for any more. */
  predicate Settled(s: State) {
    s.handled == s.accepted && !s.forceFlush
  }

  function Unwritten(s: State): seq<Event> {
    Unread(s.dequeue) + s.enqueue.items
  }

  predicate Writing(s: State) {
    s.writer != NotStarted && s.writer != Exited
  }

  lemma TurnIsStep(s: State)
    requires Inv(s) && Writing(s) && !WriterAborts(s.cfg, |s.file|, Unwritten(s))
    ensures WriterStep(s, Turn(s))
  {
    hide Emit, Layout, AllEnqueueable, StopsWriter;
    if s.writer == Draining && s.dequeue.read < |s.dequeue.items| {
      Behind(s.dequeue.items, s.dequeue.read, s.enqueue.items);
    }
  }

  /** How far the writer is from the next event, or from answering a flush. */
  function Distance(s: State): nat {
    match s.writer
    case Draining =>
      if Unread(s.dequeue) != [] then 0 else if s.enqueue.items != [] then 6 else 3
    case AwaitNotEmpty => if s.enqueue.items != [] then 6 else 4
    case CheckFlush => if s.enqueue.items != [] then 5 else 2
    case Deciding(forced) => if s.enqueue.items != [] then 4 else if forced then 1 else 7
    case Top => if s.enqueue.items != [] then 3 else 6
    case Swapping => if s.enqueue.items != [] then 2 else 5
    case _ => 0
  }

  lemma Behind<T>(a: seq<T>, i: nat, b: seq<T>)
    requires i < |a|
    ensures (a[i..] + b)[0] == a[i] && (a[i..] + b)[1..] == a[i + 1..] + b
  {
    assert a[i..][1..] == a[i + 1..];
  }

  /** The calls are where they were, and the writer has not ended unless it is closing. */
  predicate SameCalls(s: State, t: State) {
    && t.closing == s.closing && t.producer == s.producer && t.writer != NotStarted
    && (!s.closing ==> t.writer != Exited)
  }

  lemma SameTurn(s: State)
    requires Inv(s) && Writing(s)
    ensures SameCalls(s, Turn(s))
  {
    hide Emit, Layout, AllEnqueueable;
  }

  lemma DrainApproaches(s: State)
    requires Inv(s) && s.writer == Draining && s.dequeue.read < |s.dequeue.items|
    requires !WriterAborts(s.cfg, |s.file|, Unwritten(s))
    ensures var t := Turn(s);
            && t.accepted == s.accepted && t.cfg == s.cfg && t.writer == Draining
            && |Unwritten(t)| < |Unwritten(s)| && !WriterAborts(t.cfg, |t.file|, Unwritten(t))
  {
    hide Emit, Layout, AllEnqueueable, StopsWriter, Conserved, ControlOk;
    Behind(s.dequeue.items, s.dequeue.read, s.enqueue.items);
  }

  lemma ControlSame(s: State)
    requires Inv(s) && Writing(s) && (s.writer == Draining ==> s.dequeue.read == |s.dequeue.items|)
    ensures var t := Turn(s);
            && t.accepted == s.accepted && t.handled == s.handled && t.file == s.file && t.cfg == s.cfg
            && Unwritten(t) == Unwritten(s)
  {
    hide Emit, HistoryOk, Conserved, ControlOk;
  }

  lemma AllWritten(s: State)
    requires Conserved(s) && Unwritten(s) == []
    ensures s.handled == s.accepted
  {
    assert s.handled + [] + [] == s.handled;
  }

  lemma ControlApproaches(s: State)
    requires Inv(s) && Writing(s) && !Settled(s) && (s.writer == Draining ==> s.dequeue.read == |s.dequeue.items|)
    ensures var t := Turn(s); Settled(t) || (Writing(t) && Distance(t) < Distance(s))
  {
    hide Emit, HistoryOk;
    if Unwritten(s) == [] { AllWritten(s); }
    hide Conserved;
  }

  lemma TurnApproaches(s: State)
    requires Inv(s) && Writing(s) && !Settled(s) && !WriterAborts(s.cfg, |s.file|, Unwritten(s))
    ensures var t := Turn(s);
            && t.accepted == s.accepted && t.cfg == s.cfg && !WriterAborts(t.cfg, |t.file|, Unwritten(t))
            && SameCalls(s, t)
            && (Settled(t)
                || (Writing(t) && (|Unwritten(t)| < |Unwritten(s)|
                                   || (|Unwritten(t)| == |Unwritten(s)| && Distance(t) < Distance(s)))))
  {
    SameTurn(s);
    hide Turn, Distance, WriterAborts, Unwritten, HistoryOk, Conserved, ControlOk, SameCalls;
    if s.writer == Draining && s.dequeue.read < |s.dequeue.items| {
      DrainApproaches(s);
    } else {
      ControlSame(s);
      ControlApproaches(s);
    }
  }

  /** From every state of every run, as long as no padding stops it, the writer alone can bring it
      about that everything accepted is written or dropped and a waiting flush returns. */
  lemma {:induction false} WriterFinishes(s: State) returns (r: seq<State>)
    requires Inv(s) && Writing(s) && !WriterAborts(s.cfg, |s.file|, Unwritten(s))
    ensures |r| > 0 && r[0] == s && Inv(r[|r| - 1]) && r[|r| - 1].accepted == s.accepted
    ensures r[|r| - 1].handled == s.accepted && !r[|r| - 1].forceFlush && r[|r| - 1].closing == s.closing
    ensures r[|r| - 1].producer == s.producer && (!s.closing ==> Writing(r[|r| - 1])) && r[|r| - 1].writer != NotStarted
    ensures forall i :: 0 < i < |r| ==> Next(r[i - 1], r[i])
    decreases |Unwritten(s)|, Distance(s), if Settled(s) then 0 else 1
  {
    hide ProducerStep, WriterStep, Turn, Distance, Unwritten, Layout, Conserved, BuffersOk, ControlOk;
    if Settled(s) { return [s]; }
    var t := Turn(s);
    TurnIsStep(s);
    TurnApproaches(s);
    WriterKeeps(s, t);
    if Settled(t) { return [s, t]; }
    var more := WriterFinishes(t);
    r := [s] + more;
  }

  /** A closing writer that has written everything comes to its end. */
  lemma {:induction false} WriterExits(s: State) returns (r: seq<State>)
    requires Inv(s) && s.closing && Settled(s) && s.writer != NotStarted
    ensures |r| > 0 && r[0] == s && Inv(r[|r| - 1]) && r[|r| - 1].accepted == s.accepted
    ensures r[|r| - 1].writer == Exited && r[|r| - 1].producer == s.producer
    ensures forall i :: 0 < i < |r| ==> Next(r[i - 1], r[i])
    decreases EndDistance(s.writer)
  {
    hide ProducerStep, WriterStep, Turn, Unwritten, Layout, Conserved, BuffersOk, ControlOk;
    if s.writer == Exited { return [s]; }
    NothingUnwritten(s);
    var t := Turn(s);
    TurnIsStep(s);
    SameTurn(s);
    TurnEnds(s);
    WriterKeeps(s, t);
    var more := WriterExits(t);
    r := [s] + more;
  }

  function EndDistance(w: Writer): nat {
    match w
    case AwaitNotEmpty => 5
    case Swapping => 4
    case Draining => 4
    case CheckFlush => 3
    case Deciding(_) => 2
    case Top => 1
    case _ => 0
  }

  lemma NothingUnwritten(s: State)
    requires Inv(s) && Settled(s)
    ensures Unwritten(s) == [] && !WriterAborts(s.cfg, |s.file|, Unwritten(s))
    ensures s.enqueue.items == [] && Unread(s.dequeue) == []
  {
    hide HistoryOk;
    assert s.handled + Unwritten(s) == s.handled + Unread(s.dequeue) + s.enqueue.items;
    assert |Unwritten(s)| == 0;
  }

  lemma TurnEnds(s: State)
    requires Inv(s) && Writing(s) && s.closing && Settled(s)
    ensures Settled(Turn(s)) && Turn(s).accepted == s.accepted && EndDistance(Turn(s).writer) < EndDistance(s.writer)
  {
    NothingUnwritten(s);
    hide Emit, Layout, AllEnqueueable, Conserved, Unwritten;
  }

  // ---------------------------------------------------------------- what a call comes to

  /** A run that goes on where another one ends. */
  lemma Joined(r: seq<State>, q: seq<State>) returns (w: seq<State>)
    requires |r| > 0 && |q| > 0 && Next(r[|r| - 1], q[0])
    requires forall i :: 0 < i < |r| ==> Next(r[i - 1], r[i])
    requires forall i :: 0 < i < |q| ==> Next(q[i - 1], q[i])
    ensures |w| > 0 && w[0] == r[0] && w[|w| - 1] == q[|q| - 1]
    ensures forall i :: 0 < i < |w| ==> Next(w[i - 1], w[i])
  {
    hide Next;
    w := r + q;
  }

  lemma Continued(r: seq<State>, q: seq<State>) returns (w: seq<State>)
    requires |r| > 0 && |q| > 0 && r[|r| - 1] == q[0]
    requires forall i :: 0 < i < |r| ==> Next(r[i - 1], r[i])
    requires forall i :: 0 < i < |q| ==> Next(q[i - 1], q[i])
    ensures |w| > 0 && w[0] == r[0] && w[|w| - 1] == q[|q| - 1]
    ensures forall i :: 0 < i < |w| ==> Next(w[i - 1], w[i])
  {
    hide Next;
    w := r[..|r| - 1] + q;
  }

  /** The state in which the writer can finish. */
  ghost predicate Sound(s: State) {
    Inv(s) && Writing(s) && !WriterAborts(s.cfg, |s.file|, Unwritten(s))
  }

  lemma FlushCalled(s: State)
    requires Sound(s) && s.producer == Idle && !s.closing
    ensures var t := s.(forceFlush := true, producer := AwaitFlush); Next(s, t) && Sound(t)
  {
    var t := s.(forceFlush := true, producer := AwaitFlush);
    assert CallFlush(s, t);
    hide Layout, WriterAborts, WriterStep, BeginWrite, Enqueue, WakeProducer, ReturnFromFlush, Destroy, Join;
    CallsKeep(s, t);
  }

  lemma FlushBack(s: State)
    requires s.producer == AwaitFlush && !s.forceFlush
    ensures Next(s, s.(producer := Idle))
  {
    assert ReturnFromFlush(s, s.(producer := Idle));
  }

  lemma DestroyCalled(s: State)
    requires Sound(s) && s.producer == Idle && !s.closing
    ensures var t := s.(closing := true, producer := Joining); Next(s, t) && Sound(t)
  {
    var t := s.(closing := true, producer := Joining);
    assert Destroy(s, t);
    hide Layout, WriterAborts, WriterStep, BeginWrite, Enqueue, WakeProducer, CallFlush, ReturnFromFlush, Join;
    CallsKeep(s, t);
  }

  lemma JoinBack(s: State)
    requires Inv(s) && s.producer == Joining && s.writer == Exited
    ensures Next(s, s.(producer := Gone)) && s.handled == s.accepted
  {
    assert Join(s, s.(producer := Gone));
  }

  lemma WriteCalled(s: State, e: Event)
    requires Sound(s) && s.producer == Idle && !s.closing
    requires |e| > 0 && (s.cfg.maxEventSize == 0 || |e| <= s.cfg.maxEventSize)
    ensures var t := s.(producer := Enqueueing(e)); Next(s, t) && Sound(t)
  {
    var t := s.(producer := Enqueueing(e));
    assert BeginWrite(s, t, e);
    hide Layout, WriterAborts, WriterStep, Enqueue, WakeProducer, CallFlush, ReturnFromFlush, Destroy, Join;
    BeginWriteKeeps(s, t, e);
  }

  lemma WriteWaits(s: State)
    requires Sound(s) && s.producer.Enqueueing?
    ensures var e := s.producer.e;
            if |s.enqueue.items| == s.size then
              var t := s.(producer := AwaitNotFull(e)); Next(s, t) && Sound(t)
            else Next(s, Added(s, e))
  {
    var e := s.producer.e;
    var t := if |s.enqueue.items| == s.size then s.(producer := AwaitNotFull(e)) else Added(s, e);
    assert Enqueue(s, t);
    hide Layout, WriterAborts, WriterStep, BeginWrite, WakeProducer, CallFlush, ReturnFromFlush, Destroy, Join;
    EnqueueKeeps(s, t);
  }

  lemma WriteBack(s: State)
    requires Inv(s) && s.producer.AwaitNotFull? && s.size > 0 && s.handled == s.accepted && !s.forceFlush
    ensures Next(s, Added(s, s.producer.e))
  {
    NothingUnwritten(s);
    assert WakeProducer(s, Added(s, s.producer.e));
  }

  /** `flush`, called whenever the producer is idle, can return, with everything accepted written or
      dropped. */
  lemma FlushReturns(s: State) returns (r: seq<State>)
    requires Sound(s) && s.producer == Idle && !s.closing
    ensures |r| > 0 && r[0] == s && r[|r| - 1].producer == Idle && r[|r| - 1].handled == s.accepted
    ensures forall i :: 0 < i < |r| ==> Next(r[i - 1], r[i])
  {
    FlushCalled(s);
    hide Inv, Next, WriterAborts, Unwritten;
    var t := s.(forceFlush := true, producer := AwaitFlush);
    var q := WriterFinishes(t);
    FlushBack(q[|q| - 1]);
    r := Joined([s], q);
    r := Joined(r, [q[|q| - 1].(producer := Idle)]);
  }

  /** Destroying the transport can come to its end, with everything accepted written or dropped. */
  lemma CloseReturns(s: State) returns (r: seq<State>)
    requires Sound(s) && s.producer == Idle && !s.closing
    ensures |r| > 0 && r[0] == s && r[|r| - 1].producer == Gone && r[|r| - 1].handled == s.accepted
    ensures forall i :: 0 < i < |r| ==> Next(r[i - 1], r[i])
  {
    DestroyCalled(s);
    hide Inv, Next, WriterAborts, Unwritten;
    var t := s.(closing := true, producer := Joining);
    var q := WriterFinishes(t);
    r := Joined([s], q);
    var more := WriterExits(q[|q| - 1]);
    JoinBack(more[|more| - 1]);
    r := Continued(r, more);
    r := Joined(r, [more[|more| - 1].(producer := Gone)]);
  }

  /** An event that gets past the checks can be accepted, if a buffer has room for one at all. */
  lemma WriteReturns(s: State, e: Event) returns (r: seq<State>)
    requires Sound(s) && s.producer == Idle && !s.closing && s.size > 0
    requires |e| > 0 && (s.cfg.maxEventSize == 0 || |e| <= s.cfg.maxEventSize)
    ensures |r| > 0 && r[0] == s && r[|r| - 1].producer == Idle && r[|r| - 1].accepted == s.accepted + [e]
    ensures forall i :: 0 < i < |r| ==> Next(r[i - 1], r[i])
  {
    var t := s.(producer := Enqueueing(e));
    WriteCalled(s, e);
    WriteWaits(t);
    hide Inv, Next, WriterAborts, Unwritten;
    if |s.enqueue.items| != s.size { return [s, t, Added(t, e)]; }
    var w := t.(producer := AwaitNotFull(e));
    var q := WriterFinishes(w);
    var u := q[|q| - 1];
    SameSize(q);
    WriteBack(u);
    r := Joined([s, t], q);
    r := Joined(r, [Added(u, e)]);
  }

  /** The size of the buffers never changes. */
  lemma {:induction false} SameSize(r: seq<State>)
    requires |r| > 0 && forall i :: 0 < i < |r| ==> Next(r[i - 1], r[i])
    ensures r[|r| - 1].size == r[0].size && r[|r| - 1].cfg == r[0].cfg
    decreases |r|
  {
    hide Emit;
    if |r| > 1 {
      var q := r[..|r| - 1];
      SameSize(q);
      assert Next(q[|q| - 1], r[|r| - 1]);
    }
  }

  /** A producer gets an event past its checks exactly if it is not empty and not above the limit,
      and then it is accepted, now or once there is room; `size` events fill a buffer. */
  lemma Accepts(s: State, t: State, e: Event)
    requires s.producer == Idle && !s.closing
    ensures BeginWrite(s, t, e)
       <==> t == if |e| > 0 && (s.cfg.maxEventSize == 0 || |e| <= s.cfg.maxEventSize)
                 then s.(producer := Enqueueing(e)) else s
    ensures var u := s.(producer := Enqueueing(e));
            s.writer != NotStarted ==>
              (Enqueue(u, t) <==> t == if |s.enqueue.items| == s.size then s.(producer := AwaitNotFull(e))
                                       else s.(accepted := s.accepted + [e],
                                               enqueue := s.enqueue.(items := s.enqueue.items + [e])))
    ensures var u := s.(producer := Enqueueing(e));
            s.writer == NotStarted && s.size > 0 ==>
              (Enqueue(u, t) <==> t == s.(accepted := s.accepted + [e], enqueue := Buffer([e], 0, false),
                                          dequeue := Buffer([], 0, false), writer := Top))
    ensures var u := s.(producer := AwaitNotFull(e));
            WakeProducer(u, t) <==> t == if |s.enqueue.items| == s.size then u
                                         else s.(accepted := s.accepted + [e],
                                                 enqueue := s.enqueue.(items := s.enqueue.items + [e]))
  {
    var u, v := s.(producer := Enqueueing(e)), s.(producer := AwaitNotFull(e));
    var full := s.(accepted := s.accepted + [e], enqueue := s.enqueue.(items := s.enqueue.items + [e]));
    assert Added(u, e) == full && Added(v, e) == full;
  }
}
