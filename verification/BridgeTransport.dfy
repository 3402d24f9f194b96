/** The bridge from PHP to a Thrift processor: its transport object, and one call of a
    processor between two memory buffers. */
module BridgeTransport {
  import opened Bytes
  import opened MemoryBuffer

  type Text = seq<byte>

  /** What a processor does with a request: the pieces it writes, a refusal, or a TException. */
  datatype Reply = Replied(pieces: seq<seq<byte>>) | Declined | Threw

  /** A registered processor, or a null pointer registered in its place. A service has a state
      of its own: what it does may depend on the number of the call as well as on the request. */
  datatype Processor = Processor(process: (nat, seq<byte>) -> Reply) | Null

  /** The global state behind every bridge object. */
  datatype Core = Core(initialized: bool, processors: map<Text, Processor>)

  /** The buffer of the reply takes what a `uint32_t` can count. */
  function Collected(ps: seq<seq<byte>>): Option<seq<byte>> {
    if |Concat(ps)| < U32_MODULUS then Some(Concat(ps)) else None
  }

  /** What the input buffer shows of a request: its size is cut to 32 bits. */
  function Visible(request: seq<byte>): seq<byte> {
    request[..|request| % U32_MODULUS]
  }

  /** The processor sees the whole request exactly when it is below 4 GiB. */
  lemma VisibleExactly(request: seq<byte>)
    ensures Visible(request) == request <==> |request| < U32_MODULUS
  {
  }

  /** `process_thrift_data_generic`, in the call with number `n`. */
  function Respond(core: Core, service: Text, n: nat, request: seq<byte>): Option<seq<byte>> {
    if !core.initialized || service !in core.processors then None
    else
      match core.processors[service]
      case Null => None
      case Processor(process) =>
        match process(n, Visible(request))
        case Replied(pieces) => Collected(pieces)
        case Declined => None
        case Threw => None
  }

  lemma ConcatStep(ps: seq<seq<byte>>, i: nat)
    requires i < |ps|
    ensures Concat(ps[..i + 1]) == Concat(ps[..i]) + ps[i]
    ensures Concat(ps) == Concat(ps[..i + 1]) + Concat(ps[i + 1..])
  {
    hide Concat;
    ConcatOne(ps[i]);
    SliceStep(ps, i);
    var front, back := ps[..i + 1], ps[i + 1..];
    ConcatAppend(ps[..i], [ps[i]]);
    ConcatAppend(front, back);
  }

  lemma SliceStep<T>(ps: seq<T>, i: nat)
    requires i < |ps|
    ensures ps[..i + 1] == ps[..i] + [ps[i]] && ps == ps[..i + 1] + ps[i + 1..]
  {
  }

  lemma ConcatOne(p: seq<byte>)
    ensures Concat([p]) == p
  {
    assert Concat([p]) == p + Concat([]) == p;
  }

  /** The reply is gathered in a buffer of default size that grows. */
  method Gather(ps: seq<seq<byte>>) returns (r: Option<seq<byte>>)
    ensures r == Collected(ps)
  {
    var output := new MemoryBuffer(DEFAULT_SIZE);
    assert Concat(ps[..0]) == [];
    for i := 0 to |ps|
      invariant output.Valid() && fresh(output) && fresh(output.buffer) && output.rBase == 0
      invariant output.Contents() == Concat(ps[..i]) && output.owner
      invariant output.maxBufferSize == U32_MODULUS - 1
    {
      ConcatStep(ps, i);
      if |ps[i]| >= U32_MODULUS { return None; }
      var w := output.Write(ps[i]);
      if w.Err? { return None; }
    }
    assert ps[..|ps|] == ps;
    var reply := output.GetBuffer();
    r := Some(reply);
  }

  /** The whole call, through an input buffer that observes the request. */
  method ProcessGeneric(core: Core, service: Text, n: nat, request: seq<byte>) returns (r: Option<seq<byte>>)
    ensures r == Respond(core, service, n, request)
  {
    if !core.initialized || service !in core.processors { return None; }
    var processor := core.processors[service];
    if processor.Null? { return None; }
    var len: u32 := |request| % U32_MODULUS;
    var memory := new byte[len](i requires 0 <= i < len => request[i]);
    assert memory[..] == Visible(request);
    var input := new MemoryBuffer.On(memory, Observe);
    var seen := input.Read(len);
    assert seen == Visible(request);
    match processor.process(n, seen)
    case Replied(pieces) => r := Gather(pieces);
    case Declined => r := None;
    case Threw => r := None;
  }

  // ---------------------------------------------------------------- calls and runs

  /** The fields of the object, and how often `flush` has been called. */
  datatype State = State(wBuf: seq<byte>, rBuf: seq<byte>, rBufPos: nat, flushes: nat)

  predicate InBounds(s: State) {
    s.rBufPos <= |s.rBuf|
  }

  datatype Call = Write(bytes: seq<byte>) | Read(len: int) | Flush
  datatype Answer = Void | Data(bytes: seq<byte>) | Exception

  const SIZE_MODULUS: int := 0x1_0000_0000_0000_0000

  /** `(size_t)len`. */
  function AsSize(len: int): nat {
    len % SIZE_MODULUS
  }

  function Step(core: Core, service: Text, s: State, c: Call): (State, Answer)
    requires InBounds(s)
  {
    match c
    case Write(bytes) => (s.(wBuf := s.wBuf + bytes), Void)
    case Read(len) =>
      var n: nat := Min(AsSize(len), |s.rBuf| - s.rBufPos);
      if n == 0 && len > 0 then (s, Exception)
      else (s.(rBufPos := s.rBufPos + n), Data(s.rBuf[s.rBufPos..s.rBufPos + n]))
    case Flush =>
      match Respond(core, service, s.flushes, s.wBuf)
      case None => (s.(flushes := s.flushes + 1), Exception)
      case Some(reply) => (State([], reply, 0, s.flushes + 1), Void)
  }

  // ---------------------------------------------------------------- one call

  /** A flush calls the processor of the service with the bytes written, all of them, and the
      response is what it writes, all of it. */
  lemma FlushAnswers(core: Core, service: Text, s: State, process: (nat, seq<byte>) -> Reply, pieces: seq<seq<byte>>)
    requires InBounds(s) && core.initialized && service in core.processors
    requires core.processors[service] == Processor(process) && |s.wBuf| < 0x1_0000_0000
    requires process(s.flushes, s.wBuf) == Replied(pieces) && |Concat(pieces)| < 0x1_0000_0000
    ensures Step(core, service, s, Flush) == (State([], Concat(pieces), 0, s.flushes + 1), Void)
  {
    assert s.wBuf[..|s.wBuf|] == s.wBuf;
  }

  /** A flush fails, and changes nothing but the number of the call, exactly when there is no
      initialized core, no service of that name, a null pointer in its place, or a processor that
      declines, throws, or replies with 4 GiB or more. */
  lemma FlushFails(core: Core, service: Text, s: State)
    requires InBounds(s) && |s.wBuf| < 0x1_0000_0000
    ensures var failed := Step(core, service, s, Flush) == (State(s.wBuf, s.rBuf, s.rBufPos, s.flushes + 1), Exception);
            && (failed <==> Step(core, service, s, Flush).1 != Void)
            && (failed <==>
                  || !core.initialized || service !in core.processors || core.processors[service] == Null
                  || var reply := core.processors[service].process(s.flushes, s.wBuf);
                     reply == Declined || reply == Threw || |Concat(reply.pieces)| >= 0x1_0000_0000)
  {
    assert s.wBuf[..|s.wBuf|] == s.wBuf;
  }

  /** A read gives the next bytes of the response, as many as asked for or as there are, and a
      length below zero asks for all; it fails exactly where something is asked for and nothing
      is left. A write appends. */
  lemma ReadsAndWrites(core: Core, service: Text, s: State, len: int, bytes: seq<byte>)
    requires InBounds(s) && -0x8000_0000_0000_0000 <= len < 0x8000_0000_0000_0000 && |s.rBuf| < 0x8000_0000_0000_0000
    ensures var left := s.rBuf[s.rBufPos..];
            var n := if 0 <= len < |left| then len else |left|;
            Step(core, service, s, Read(len)) ==
            if left == [] && len > 0 then (s, Exception)
            else (State(s.wBuf, s.rBuf, s.rBufPos + n, s.flushes), Data(left[..n]))
    ensures Step(core, service, s, Write(bytes)) == (State(s.wBuf + bytes, s.rBuf, s.rBufPos, s.flushes), Void)
  {
    var left := s.rBuf[s.rBufPos..];
    var n := if 0 <= len < |left| then len else |left|;
    assert left[..n] == s.rBuf[s.rBufPos..s.rBufPos + n];
  }

  // ---------------------------------------------------------------- runs

  function Run(core: Core, service: Text, s: State, cs: seq<Call>): (r: (State, seq<Answer>))
    requires InBounds(s)
    ensures InBounds(r.0) && |r.1| == |cs|
    decreases cs
  {
    if cs == [] then (s, [])
    else
      var (t, a) := Step(core, service, s, cs[0]);
      var (u, more) := Run(core, service, t, cs[1..]);
      (u, [a] + more)
  }

  /** One call in which the processor, if it is called, gets what has been written since its last
      reply, and its reply is what is read next. */
  function Direct(process: (nat, seq<byte>) -> Reply, s: State, c: Call): (State, Answer)
    requires InBounds(s)
  {
    var failed := (s.(flushes := s.flushes + 1), Exception);
    match c
    case Write(bytes) => (s.(wBuf := s.wBuf + bytes), Void)
    case Read(len) =>
      var left := s.rBuf[s.rBufPos..];
      var n := if 0 <= len < |left| then len else |left|;
      if left == [] && len > 0 then (s, Exception) else (s.(rBufPos := s.rBufPos + n), Data(left[..n]))
    case Flush =>
      match process(s.flushes, s.wBuf)
      case Replied(pieces) =>
        if |Concat(pieces)| < 0x1_0000_0000 then (State([], Concat(pieces), 0, s.flushes + 1), Void) else failed
      case Declined => failed
      case Threw => failed
  }

  function DirectRun(process: (nat, seq<byte>) -> Reply, s: State, cs: seq<Call>): (State, seq<Answer>)
    requires InBounds(s)
    decreases cs
  {
    if cs == [] then (s, [])
    else
      var (t, a) := Direct(process, s, cs[0]);
      var (u, more) := DirectRun(process, t, cs[1..]);
      (u, [a] + more)
  }

  lemma StepIsDirect(core: Core, service: Text, process: (nat, seq<byte>) -> Reply, s: State, c: Call)
    requires InBounds(s) && core.initialized && service in core.processors
    requires core.processors[service] == Processor(process) && |s.wBuf| < 0x1_0000_0000
    requires |s.rBuf| < 0x8000_0000_0000_0000
    requires c.Read? ==> -0x8000_0000_0000_0000 <= c.len < 0x8000_0000_0000_0000
    ensures Step(core, service, s, c) == Direct(process, s, c)
  {
    match c
    case Write(bytes) =>
    case Read(len) => ReadsAndWrites(core, service, s, len, []);
    case Flush =>
      FlushFails(core, service, s);
      var reply := process(s.flushes, s.wBuf);
      if reply.Replied? && |Concat(reply.pieces)| < 0x1_0000_0000 {
        FlushAnswers(core, service, s, process, reply.pieces);
      }
  }

  /** That is what the runs of a service with a processor are, for requests below 4 GiB. */
  lemma {:induction false} RunsAreDirect(core: Core, service: Text, process: (nat, seq<byte>) -> Reply,
                                         s: State, cs: seq<Call>)
    requires InBounds(s) && core.initialized && service in core.processors
    requires core.processors[service] == Processor(process)
    requires |s.wBuf| + |Written(cs)| < 0x1_0000_0000 && |s.rBuf| < 0x8000_0000_0000_0000
    requires forall i :: 0 <= i < |cs| && cs[i].Read? ==> -0x8000_0000_0000_0000 <= cs[i].len < 0x8000_0000_0000_0000
    ensures Run(core, service, s, cs) == DirectRun(process, s, cs)
    decreases cs
  {
    if cs != [] {
      StepIsDirect(core, service, process, s, cs[0]);
      var t := Direct(process, s, cs[0]).0;
      assert forall i :: 0 <= i < |cs| - 1 ==> cs[1..][i] == cs[i + 1];
      RunsAreDirect(core, service, process, t, cs[1..]);
    }
  }

  /** What the successful flushes of a run handed to the processor. */
  function Requests(core: Core, service: Text, s: State, cs: seq<Call>): seq<seq<byte>>
    requires InBounds(s)
    decreases cs
  {
    if cs == [] then []
    else
      var (t, a) := Step(core, service, s, cs[0]);
      (if cs[0] == Flush && a == Void then [s.wBuf] else []) + Requests(core, service, t, cs[1..])
  }

  function Written(cs: seq<Call>): seq<byte> {
    if cs == [] then [] else (if cs[0].Write? then cs[0].bytes else []) + Written(cs[1..])
  }

  /** Over every run, the requests handed over and what is still buffered are what was
      written, in order: nothing is lost by a failing flush, sent twice by a succeeding one. */
  lemma {:induction false} RequestsAreWrites(core: Core, service: Text, s: State, cs: seq<Call>)
    requires InBounds(s)
    ensures Concat(Requests(core, service, s, cs)) + Run(core, service, s, cs).0.wBuf == s.wBuf + Written(cs)
    decreases cs
  {
    hide Respond;
    if cs == [] {
      assert [] + s.wBuf == s.wBuf + [];
    } else {
      var (t, a) := Step(core, service, s, cs[0]);
      RequestsAreWrites(core, service, t, cs[1..]);
      var rest := Requests(core, service, t, cs[1..]);
      if cs[0] == Flush && a == Void {
        assert ([s.wBuf] + rest)[1..] == rest;
        Assoc(s.wBuf, Concat(rest), Run(core, service, t, cs[1..]).0.wBuf);
        assert [] + Written(cs[1..]) == Written(cs[1..]);
      } else {
        assert [] + rest == rest;
        if cs[0].Write? {
          Assoc(s.wBuf, cs[0].bytes, Written(cs[1..]));
        } else {
          assert [] + Written(cs[1..]) == Written(cs[1..]);
        }
      }
    }
  }

  /** What the reads of a run returned since its last successful flush; `sofar` before it. */
  function ReadSince(core: Core, service: Text, s: State, cs: seq<Call>, sofar: seq<byte>): seq<byte>
    requires InBounds(s)
    decreases cs
  {
    if cs == [] then sofar
    else
      var (t, a) := Step(core, service, s, cs[0]);
      ReadSince(core, service, t, cs[1..],
                match cs[0]
                case Write(_) => sofar
                case Read(_) => if a.Data? then sofar + a.bytes else sofar
                case Flush => if a == Void then [] else sofar)
  }

  /** The response of the processor to the last flush of a run that succeeded; `before` if
      none did. */
  function LastReply(core: Core, service: Text, s: State, cs: seq<Call>, before: seq<byte>): seq<byte>
    requires InBounds(s)
    decreases cs
  {
    if cs == [] then before
    else
      var (t, a) := Step(core, service, s, cs[0]);
      LastReply(core, service, t, cs[1..],
                if cs[0] == Flush && a == Void then Respond(core, service, s.flushes, s.wBuf).value else before)
  }

  /** Over every run, the reads since the last successful flush returned consecutive pieces
      of its reply, from the start up to `rBufPos`. */
  lemma {:induction false} ReadsArePieces(core: Core, service: Text, s: State, cs: seq<Call>, sofar: seq<byte>)
    requires InBounds(s) && sofar == s.rBuf[..s.rBufPos]
    ensures var t := Run(core, service, s, cs).0;
            && t.rBuf == LastReply(core, service, s, cs, s.rBuf)
            && ReadSince(core, service, s, cs, sofar) == t.rBuf[..t.rBufPos]
    decreases cs
  {
    hide Respond, AsSize;
    if cs != [] {
      var (t, a) := Step(core, service, s, cs[0]);
      match cs[0]
      case Write(_) => ReadsArePieces(core, service, t, cs[1..], sofar);
      case Read(_) =>
        if a.Data? {
          assert sofar + a.bytes == t.rBuf[..t.rBufPos];
          ReadsArePieces(core, service, t, cs[1..], sofar + a.bytes);
        } else {
          ReadsArePieces(core, service, t, cs[1..], sofar);
        }
      case Flush =>
        ReadsArePieces(core, service, t, cs[1..], if a == Void then [] else sofar);
    }
  }

  // ---------------------------------------------------------------- the object

  class Bridge {
    const serviceName: Text
    var wBuf: seq<byte>
    var rBuf: seq<byte>
    var rBufPos: nat
    var flushes: nat             // no field of the source: it numbers the calls of the processor

    ghost function Now(): State
      reads this
    {
      State(wBuf, rBuf, rBufPos, flushes)
    }

    constructor (serviceName: Text)
      ensures this.serviceName == serviceName && Now() == State([], [], 0, 0)
    {
      this.serviceName, wBuf, rBuf, rBufPos, flushes := serviceName, [], [], 0, 0;
    }

    /** `write`: a new string is allocated and both parts copied into it. */
    method Write(core: Core, buf: seq<byte>)
      requires InBounds(Now())
      modifies this`wBuf
      ensures (Now(), Void) == Step(core, serviceName, old(Now()), Call.Write(buf))
    {
      var oldLen, writeLen := |wBuf|, |buf|;
      var fresh_ := new byte[oldLen + writeLen];
      forall i | 0 <= i < oldLen {
        fresh_[i] := wBuf[i];
      }
      forall i | 0 <= i < writeLen {
        fresh_[oldLen + i] := buf[i];
      }
      assert fresh_[..] == wBuf + buf;
      wBuf := fresh_[..];
    }

    /** `read`. */
    method Read(core: Core, len: int) returns (a: Answer)
      requires InBounds(Now()) && -0x8000_0000_0000_0000 <= len < 0x8000_0000_0000_0000
      modifies this`rBufPos
      ensures (Now(), a) == Step(core, serviceName, old(Now()), Call.Read(len))
    {
      var readLen := AsSize(len);
      var remaining := |rBuf| - rBufPos;
      if readLen > remaining {
        readLen := remaining;
      }
      if readLen == 0 && len > 0 { return Exception; }
      a := Data(rBuf[rBufPos..rBufPos + readLen]);
      rBufPos := rBufPos + readLen;
    }

    /** `flush`: a failure changes none of the buffers. */
    method Flush(core: Core) returns (a: Answer)
      requires InBounds(Now())
      modifies this
      ensures (Now(), a) == Step(core, serviceName, old(Now()), Call.Flush)
      ensures a == Exception ==> wBuf == old(wBuf) && rBuf == old(rBuf) && rBufPos == old(rBufPos)
    {
      var response := ProcessGeneric(core, serviceName, flushes, wBuf);
      flushes := flushes + 1;
      if response == None { return Exception; }
      rBuf, rBufPos, wBuf := response.value, 0, [];
      return Void;
    }

    /** Any run of calls on one object. */
    method Perform(core: Core, cs: seq<Call>) returns (answers: seq<Answer>)
      requires InBounds(Now())
      requires forall i :: 0 <= i < |cs| && cs[i].Read? ==> -0x8000_0000_0000_0000 <= cs[i].len < 0x8000_0000_0000_0000
      modifies this
      ensures InBounds(Now()) && (Now(), answers) == Run(core, serviceName, old(Now()), cs)
    {
      hide Step;
      answers := [];
      assert cs[0..] == cs && [] + Run(core, serviceName, Now(), cs).1 == Run(core, serviceName, Now(), cs).1;
      for i := 0 to |cs|
        invariant InBounds(Now()) && |answers| == i
        invariant Run(core, serviceName, old(Now()), cs)
               == (Run(core, serviceName, Now(), cs[i..]).0, answers + Run(core, serviceName, Now(), cs[i..]).1)
      {
        ghost var before := Now();
        assert cs[i..][0] == cs[i] && cs[i..][1..] == cs[i + 1..];
        var a := Perform1(core, cs[i]);
        Assoc(answers, [a], Run(core, serviceName, Now(), cs[i + 1..]).1);
        answers := answers + [a];
      }
      assert answers + [] == answers;
    }

    method Perform1(core: Core, c: Call) returns (a: Answer)
      requires InBounds(Now()) && (c.Read? ==> -0x8000_0000_0000_0000 <= c.len < 0x8000_0000_0000_0000)
      modifies this
      ensures InBounds(Now()) && (Now(), a) == Step(core, serviceName, old(Now()), c)
    {
      match c
      case Write(bytes) =>
        Write(core, bytes);
        a := Void;
      case Read(len) => a := Read(core, len);
      case Flush => a := Flush(core);
    }
  }
}
