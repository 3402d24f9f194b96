/** TNonblockingServer::TConnection: two state variables, a socket that delivers and accepts
    any pieces, and what requests and responses come out of it. */
module NonblockingConnection {
  import opened Bytes
  import F = FramedTransport

  datatype SocketState = RecvFraming | Recv | Send
  datatype AppState = Init | ReadFrameSize | ReadRequest | WaitTask | SendResult | CloseConnection
  datatype Events = Idle | Readable | Writable

  const MAX_WANT: int := 0x8000_0000

  // ---------------------------------------------------------------- the processor

  /** Reading a message takes at least one byte. */
  type Taken = n: nat | n > 0 witness 1

  /** One call of the processor: how much input it takes, what it writes one piece after
      another, and whether it asks for more or throws. */
  datatype Call = Call(used: Taken, writes: seq<seq<byte>>, more: bool, throws: bool)

  /** By the number of the request, that of the call for it, and the input that is left. */
  type Processor = (nat, nat, seq<byte>) -> Call

  /** The pieces the output takes: a write for which there is no room throws. */
  function Kept(writes: seq<seq<byte>>, room: nat): (r: seq<byte>)
    ensures |r| <= room
  {
    if writes == [] || |writes[0]| > room then [] else writes[0] + Kept(writes[1..], room - |writes[0]|)
  }

  predicate Returns(call: Call, room: nat) {
    !call.throws && |Concat(call.writes)| <= room
  }

  lemma {:induction false} KeptWhole(writes: seq<seq<byte>>, room: nat)
    requires |Concat(writes)| <= room
    ensures Kept(writes, room) == Concat(writes)
  {
    if writes != [] { KeptWhole(writes[1..], room - |writes[0]|); }
  }

  /** What the task of request `k` writes from call `n` on: the processor is called as long as
      it returns, asks for more, and input is left. */
  function TaskReply(process: Processor, k: nat, n: nat, input: seq<byte>, room: nat): (r: seq<byte>)
    ensures |r| <= room
    decreases |input|
  {
    var call := process(k, n, input);
    var kept := Kept(call.writes, room);
    if Returns(call, room) && call.more && call.used < |input|
    then kept + TaskReply(process, k, n + 1, input[call.used..], room - |kept|)
    else kept
  }

  /** The output takes the longest run of pieces for which there is room. */
  lemma {:induction false} KeepsPrefix(writes: seq<seq<byte>>, room: nat) returns (j: nat)
    ensures j <= |writes| && Kept(writes, room) == Concat(writes[..j])
    ensures j < |writes| ==> |Kept(writes, room)| + |writes[j]| > room
    decreases writes
  {
    if writes == [] || |writes[0]| > room {
      return 0;
    }
    var i := KeepsPrefix(writes[1..], room - |writes[0]|);
    assert writes[..i + 1] == [writes[0]] + writes[1..][..i];
    assert ([writes[0]] + writes[1..][..i])[1..] == writes[1..][..i];
    return i + 1;
  }

  /** A task ends with a call that throws or whose output does not fit, that does not ask for more,
      or that leaves no input; otherwise it calls again with the input that is left. The I/O thread
      calls once, and has no answer if that throws. */
  lemma CallsInTurn(process: Processor, k: nat, n: nat, input: seq<byte>, room: nat)
    ensures var call := process(k, n, input);
            TaskReply(process, k, n, input, room) ==
            if call.throws || |Concat(call.writes)| > room then Kept(call.writes, room)
            else if !call.more || call.used >= |input| then Concat(call.writes)
            else Concat(call.writes)
                 + TaskReply(process, k, n + 1, input[call.used..], room - |Concat(call.writes)|)
    ensures var call := process(k, 0, input);
            Answer(process, false, k, input)
            == if call.throws || 4 + |Concat(call.writes)| >= 0x1_0000_0000 then None else Some(Concat(call.writes))
    ensures Answer(process, true, k, input) == Some(TaskReply(process, k, 0, input, 0xffff_fffb))
  {
    var call := process(k, n, input);
    if |Concat(call.writes)| <= room { KeptWhole(call.writes, room); }
  }

  /** The room in the output, behind the place for the size word. */
  const ROOM: nat := U32_MODULUS - 5

  /** The response to a request, if it gets one: all that a task makes of it, or what one call
      in the I/O thread does. */
  function Answer(process: Processor, threadPool: bool, k: nat, q: seq<byte>): Option<seq<byte>> {
    if threadPool then Some(TaskReply(process, k, 0, q, ROOM))
    else if Returns(process(k, 0, q), ROOM) then Some(Concat(process(k, 0, q).writes))
    else None
  }

  /** The call that finds the messages from `i` on takes the first of them and asks for more. */
  predicate TakesEach(process: Processor, k: nat, n: nat, messages: seq<seq<byte>>) {
    forall i :: 0 <= i < |messages| ==>
      var call := process(k, n + i, Concat(messages[i..]));
      |messages[i]| == call.used && call.more && !call.throws
  }

  function Replied(process: Processor, k: nat, n: nat, messages: seq<seq<byte>>): seq<byte>
    decreases |messages|
  {
    if messages == [] then []
    else Concat(process(k, n, Concat(messages)).writes) + Replied(process, k, n + 1, messages[1..])
  }

  /** A task answers every message in a frame, in order, where the I/O thread answers the first
      and drops the others. */
  lemma {:induction false} TaskAnswersAll(process: Processor, k: nat, n: nat, messages: seq<seq<byte>>, room: nat)
    requires messages != [] && TakesEach(process, k, n, messages) && |Replied(process, k, n, messages)| <= room
    ensures TaskReply(process, k, n, Concat(messages), room) == Replied(process, k, n, messages)
    decreases messages
  {
    hide Returns, Concat;
    FirstMessage(process, k, n, messages, room);
    if |messages| > 1 {
      var call := process(k, n, Concat(messages));
      TaskAnswersAll(process, k, n + 1, messages[1..], room - |Concat(call.writes)|);
    }
  }

  lemma FirstMessage(process: Processor, k: nat, n: nat, messages: seq<seq<byte>>, room: nat)
    requires messages != [] && TakesEach(process, k, n, messages) && |Replied(process, k, n, messages)| <= room
    ensures TakesEach(process, k, n + 1, messages[1..])
    ensures var call := process(k, n, Concat(messages));
            && Kept(call.writes, room) == Concat(call.writes) && Returns(call, room) && call.more
            && Concat(messages)[call.used..] == Concat(messages[1..])
            && (call.used < |Concat(messages)| <==> |messages| > 1)
            && (|messages| == 1 ==> Replied(process, k, n, messages) == Concat(call.writes))
  {
    var call, rest := process(k, n, Concat(messages)), messages[1..];
    assert messages[0..] == messages;
    KeptWhole(call.writes, room);
    forall i | 0 <= i < |rest|
      ensures var c := process(k, n + 1 + i, Concat(rest[i..])); |rest[i]| == c.used && c.more && !c.throws
    {
      assert messages[i + 1..] == rest[i..];
    }
    if |messages| > 1 {
      assert |rest[0]| > 0;
    } else {
      assert Concat(call.writes) + [] == Concat(call.writes);
    }
  }

  // ---------------------------------------------------------------- frames

  /** The payloads of the complete frames at the front of a stream; an empty frame or one
      above the maximum ends it. */
  function Frames(b: seq<byte>, max: nat): seq<seq<byte>>
    decreases |b|
  {
    if |b| < 4 then []
    else
      var n := FromBigEndian32(b[..4]);
      if n == 0 || n > max || |b| < 4 + n then [] else [b[4..4 + n]] + Frames(b[4 + n..], max)
  }

  predicate Legible(ps: seq<seq<byte>>, max: nat) {
    F.Sizes(ps, Min(max, U32_MODULUS - 1))
  }

  lemma FirstFrame(p: seq<byte>, more: seq<byte>)
    requires |p| < U32_MODULUS
    ensures var b := F.Framed(p) + more;
            && |b| == 4 + |p| + |more| && FromBigEndian32(b[..4]) == |p|
            && b[4..4 + |p|] == p && b[4 + |p|..] == more
  {
    hide BigEndian32, FromBigEndian32;
    BigEndianInverse(|p|);
    var b := F.Framed(p) + more;
    Middle([], BigEndian32(|p|), p + more);
    Middle(BigEndian32(|p|), p, more);
    assert b == [] + BigEndian32(|p|) + (p + more);
    assert b == BigEndian32(|p|) + p + more;
  }

  /** The frames of a stream, one at a time: an empty one, one above the maximum and one that breaks
      off end them. */
  lemma FramesInTurn(word: seq<byte>, p: seq<byte>, more: seq<byte>, max: nat)
    requires |word| == 4 && FromBigEndian32(word) == |p|
    ensures Frames(word + p + more, max) == if p == [] || |p| > max then [] else [p] + Frames(more, max)
    ensures p != [] ==> Frames(word + p[1..], max) == [] && Frames(word[1..], max) == []
  {
    var b := word + p + more;
    assert b[..4] == word && b[4..4 + |p|] == p && b[4 + |p|..] == more;
    if p != [] { assert (word + p[1..])[..4] == word; }
  }

  /** The stream of whole frames and an incomplete rest determines the frames. */
  lemma {:induction false} FramesOf(ps: seq<seq<byte>>, rest: seq<byte>, max: nat)
    requires Legible(ps, max) && Frames(rest, max) == []
    ensures Frames(F.Wire(ps) + rest, max) == ps
    decreases ps
  {
    hide F.Framed, FromBigEndian32;
    if ps == [] {
      assert [] + rest == rest;
    } else {
      FramesOf(ps[1..], rest, max);
      FirstFrame(ps[0], F.Wire(ps[1..]) + rest);
      Assoc(F.Framed(ps[0]), F.Wire(ps[1..]), rest);
      assert [ps[0]] + ps[1..] == ps;
    }
  }

  predicate Countable(rs: seq<seq<byte>>) {
    forall i :: 0 <= i < |rs| ==> |rs[i]| < U32_MODULUS
  }

  /** The responses as they go on the wire: framed, and nothing for an empty one. */
  function Replies(rs: seq<seq<byte>>): seq<byte>
    requires Countable(rs)
  {
    if rs == [] then []
    else
      var last := rs[|rs| - 1];
      Replies(rs[..|rs| - 1]) + (if last == [] then [] else F.Framed(last))
  }

  lemma RepliesAppend(rs: seq<seq<byte>>, r: seq<byte>)
    requires Countable(rs) && |r| < U32_MODULUS
    ensures Countable(rs + [r])
    ensures Replies(rs + [r]) == Replies(rs) + (if r == [] then [] else F.Framed(r))
  {
  }

  // ---------------------------------------------------------------- doubling

  function Doubled(size: nat, k: nat): (r: nat)
    ensures r >= size
  {
    if k == 0 then size else 2 * Doubled(size, k - 1)
  }

  /** The size after `k` doublings in 32 bits. */
  function Doubled32(size: u32, k: nat): u32 {
    if k == 0 then size
    else
      var half: int := Doubled32(size, k - 1);
      if half * 2 < U32_MODULUS then half * 2 else half * 2 - U32_MODULUS
  }

  lemma {:induction false} DoublingStalls(k: nat)
    ensures Doubled32(1, k) == (if k <= 31 then Doubled(1, k) else 0) <= MAX_WANT
    decreases k
  {
    PowersOfTwo();
    if k > 0 {
      if k <= 31 { DoubledStep(k); }
      hide Doubled;
      DoublingStalls(k - 1);
    } else {
      assert Doubled(1, 0) == 1;
    }
  }

  lemma DoubledStep(k: nat)
    requires 0 < k <= 31
    ensures Doubled(1, k) == 2 * Doubled(1, k - 1) && Doubled(1, k - 1) <= 0x4000_0000
  {
    PowersOfTwo();
    DoubledMono(k - 1, 30);
  }

  lemma {:induction false} DoubledMono(a: nat, b: nat)
    requires a <= b
    ensures Doubled(1, a) <= Doubled(1, b)
    decreases b - a
  {
    if a < b { DoubledMono(a, b - 1); }
  }

  lemma PowersOfTwo()
    ensures Doubled(1, 30) == 0x4000_0000 && Doubled(1, 31) == MAX_WANT
  {
    assert Doubled(1, 10) == 0x400;
    assert Doubled(1, 20) == 0x10_0000;
  }

  /** `readWant_` for a frame: its size and four bytes, in 32 bits. */
  function Want(size: u32): u32 {
    (size + 4) % U32_MODULUS
  }

  /** The loop that doubles the read buffer ends exactly for frames of at most 2 GiB less four
      bytes, and for those so large that the four bytes wrap round. */
  lemma GrowthEnds(size: u32)
    ensures (exists k: nat :: Doubled32(1, k) >= Want(size)) <==> size <= MAX_WANT - 4 || size >= U32_MODULUS - 4
  {
    var want := Want(size);
    PowersOfTwo();
    DoublingStalls(31);
    if want > MAX_WANT {
      forall k: nat ensures Doubled32(1, k) < want { DoublingStalls(k); }
    }
  }

  // ---------------------------------------------------------------- the socket

  datatype Received = Bytes(b: seq<byte>) | Disconnected | Retry | Broken

  class Socket {
    var input: seq<byte>      // what the peer has sent and the connection has not read
    var output: seq<byte>     // what the connection has written

    /** `read`: some bytes, end of file, a request to try again, or an error. */
    method Read(len: nat) returns (r: Received)
      requires len > 0
      modifies this`input
      ensures r.Bytes? ==> 0 < |r.b| <= len && old(input) == r.b + input
      ensures !r.Bytes? ==> input == old(input)
    {
      var trouble: bool, ended: bool, again: bool := *, *, *;
      if input == [] || trouble {
        return if ended then Disconnected else if again then Retry else Broken;
      }
      var k: nat :| 1 <= k <= len && k <= |input|;
      r := Bytes(input[..k]);
      input := input[k..];
    }

    /** `write_partial`: a prefix is taken, or an error. */
    method WritePartial(bytes: seq<byte>) returns (sent: Option<nat>)
      modifies this`output
      ensures sent.Some? ==> sent.value <= |bytes| && output == old(output) + bytes[..sent.value]
      ensures sent == None ==> output == old(output)
    {
      var trouble: bool := *;
      if trouble { return None; }
      var k: nat :| k <= |bytes|;
      output := output + bytes[..k];
      sent := Some(k);
    }

    /** `hasPendingDataToRead`. */
    method HasPendingData() returns (more: bool)
    {
      more := *;
    }
  }

  // ---------------------------------------------------------------- the connection

  class Connection {
    const socket: Socket
    const maxFrameSize: nat
    const threadPool: bool
    const process: Processor
    const accepts: nat -> bool   // whether the task queue takes a request
    const resizeEveryN: nat
    const idleReadLimit: nat

    var open: bool
    var events: Events
    var socketState: SocketState
    var appState: AppState
    var readWant: u32            // the wanted size; before it is known, the bytes of it so far
    var readBufferPos: nat
    var readBuffer: array<byte>
    var input: seq<byte>         // inputTransport_
    var output: seq<byte>        // outputTransport_
    var taskEnded: bool          // the task has run and has notified the I/O thread
    var writeBuffer: seq<byte>
    var writeBufferPos: nat
    var callsForResize: nat
    var handled: nat             // how many requests have been handed over

    ghost var received: seq<byte>            // every byte read from the socket
    ghost var requests: seq<seq<byte>>       // what has been handed to the processor
    ghost var responses: seq<seq<byte>>      // what has come back from it

    /** The part of the current response that has not been written. */
    ghost function Outstanding(): seq<byte>
      reads this`socketState, this`writeBuffer, this`writeBufferPos
      requires writeBufferPos <= |writeBuffer|
    {
      if socketState == Send then writeBuffer[writeBufferPos..] else []
    }

    /** The pairs of states a connection can be in between two events, with the events it
        waits for. */
    predicate Legal()
      reads this`socketState, this`appState, this`events
    {
      match appState
      case Init => socketState == RecvFraming && events == Idle
      case ReadFrameSize => socketState == RecvFraming && events == Readable
      case ReadRequest => socketState == Recv && events == Readable
      case WaitTask => socketState == Recv && events == Idle
      case CloseConnection => socketState == Recv && events == Idle
      case SendResult => socketState == Send && events == Writable
    }

    predicate Waiting()
      reads this`appState
    {
      appState == WaitTask || appState == CloseConnection
    }

    /** The buffer positions of each state. */
    predicate Positions()
      reads this`appState, this`socketState, this`readBufferPos, this`readWant, this`readBuffer, this`writeBuffer,
            this`writeBufferPos, this`output, this`handled, this`input, this`taskEnded
    {
      && writeBufferPos <= |writeBuffer|
      && (appState == ReadFrameSize ==> readBufferPos < 4)
      && (appState == ReadRequest ==> 4 <= readBufferPos <= readWant <= readBuffer.Length
                                      && (readBufferPos < readWant || readWant == 4))
      && (appState == SendResult ==> writeBufferPos < |writeBuffer|)
      && (Waiting() ==> threadPool)
      && (appState == WaitTask && !taskEnded ==> output == [0, 0, 0, 0])
    }

    /** The request of a task and, once it has run, its output. */
    ghost predicate Working()
      reads this`appState, this`output, this`handled, this`input, this`taskEnded, this`requests
    {
      appState == WaitTask && |requests| > 0 ==>
        var request := requests[|requests| - 1];
        if taskEnded then output == [0, 0, 0, 0] + TaskReply(process, handled, 0, request, ROOM) else input == request
    }

    /** The part of the current frame that has been received. */
    ghost function Partial(): seq<byte>
      reads this, readBuffer
      requires Positions()
    {
      if appState == ReadFrameSize then LittleEndian32(readWant)[..readBufferPos]
      else if appState == ReadRequest then readBuffer[..readBufferPos]
      else []
    }

    /** Each response is what the processor makes of its request. */
    ghost predicate Answered()
      reads this`handled, this`requests, this`responses
    {
      handled == |requests| && |responses| <= |requests| && Answers(process, threadPool, requests, responses)
    }

    static predicate Answers(process: Processor, threadPool: bool, qs: seq<seq<byte>>, rs: seq<seq<byte>>) {
      |rs| <= |qs| && forall i :: 0 <= i < |rs| ==> Answer(process, threadPool, i + 1, qs[i]) == Some(rs[i])
    }

    /** What has happened so far, whether or not the connection is still open. */
    ghost predicate History()
      reads this, socket`output
    {
      && requests == Frames(received, maxFrameSize)
      && |responses| <= |requests| <= |responses| + 1
      && Countable(responses) && Answered() && socket.output <= Replies(responses)
    }

    /** Requests and responses against what has been received and sent. */
    ghost predicate Accounts()
      reads this, socket`output, readBuffer
      requires Positions()
    {
      && Legible(requests, maxFrameSize) && Countable(responses) && Answered()
      && received == F.Wire(requests) + Partial()
      && |requests| == |responses| + (if Waiting() then 1 else 0)
      && socket.output + Outstanding() == Replies(responses)
    }

    ghost predicate Valid()
      reads this, socket`output, readBuffer
    {
      && maxFrameSize <= MAX_WANT - 4
      && if !open then History()
         else
           && Legal() && Positions() && Accounts() && Working()
           && (appState == ReadRequest ==> readBuffer[..4] == BigEndian32(readWant - 4) && readWant - 4 <= maxFrameSize)
    }

    /** In every state the requests are the frames received, in order, and what was sent is
        a part of the framed responses that are not empty, from the start. */
    lemma ValidHistory()
      requires Valid()
      ensures History()
    {
      if open {
        hide F.Wire, F.Framed, Replies, BigEndian32, LittleEndian32;
        PartialHasNoFrame();
        FramesOf(requests, Partial(), maxFrameSize);
      }
    }

    lemma PartialHasNoFrame()
      requires Valid() && open
      ensures Frames(Partial(), maxFrameSize) == []
    {
      hide F.Wire, F.Framed, Replies;
      if appState == ReadRequest {
        BigEndianInverse(readWant - 4);
        hide BigEndian32, FromBigEndian32;
        assert readBuffer[..readBufferPos][..4] == readBuffer[..4];
      }
    }

    constructor (socket: Socket, maxFrameSize: nat, threadPool: bool, process: Processor,
                 accepts: nat -> bool, resizeEveryN: nat, idleReadLimit: nat)
      requires maxFrameSize <= MAX_WANT - 4 && socket.output == []
      ensures Valid() && open && appState == Init && received == [] && requests == [] && responses == []
      ensures this.socket == socket && fresh(readBuffer)
    {
      this.socket, this.maxFrameSize, this.threadPool := socket, maxFrameSize, threadPool;
      this.process, this.accepts, this.resizeEveryN, this.idleReadLimit := process, accepts, resizeEveryN, idleReadLimit;
      open, events, socketState, appState := true, Idle, RecvFraming, Init;
      readWant, readBufferPos, readBuffer := 0, 0, new byte[0];
      input, output, taskEnded := [], [], false;
      writeBuffer, writeBufferPos, callsForResize, handled := [], 0, 0, 0;
      received, requests, responses := [], [], [];
    }

    /** `close`: the events are cleared; nothing more is handed over or sent. */
    method Close()
      requires History() && maxFrameSize <= MAX_WANT - 4
      modifies this`open, this`events
      ensures Valid() && !open && events == Idle
    {
      open, events := false, Idle;
    }

    /** The initial state, also entered after each exchange. */
    method BackToStart()
      requires open && maxFrameSize <= MAX_WANT - 4
      requires Legible(requests, maxFrameSize) && Countable(responses) && Answered() && |requests| == |responses|
      requires received == F.Wire(requests) && socket.output == Replies(responses)
      modifies this`writeBuffer, this`writeBufferPos, this`socketState, this`appState, this`readBufferPos, this`events
      ensures Valid() && open && appState == ReadFrameSize && readBufferPos == 0
    {
      hide F.Wire, Replies, LittleEndian32;
      writeBuffer, writeBufferPos := [], 0;
      socketState, appState := RecvFraming, ReadFrameSize;
      readBufferPos := 0;
      events := Readable;
      assert LittleEndian32(readWant)[..0] == [];
      assert received + [] == received && socket.output + [] == socket.output;
    }

    /** Between two frames the requests are the frames received. */
    lemma HandedOver()
      requires Legible(requests, maxFrameSize) && Countable(responses) && Answered()
      requires |responses| <= |requests| <= |responses| + 1
      requires received == F.Wire(requests) && socket.output == Replies(responses)
      ensures History()
    {
      hide F.Wire, Replies;
      FramesOf(requests, [], maxFrameSize);
      assert received + [] == received;
    }

    static lemma OneAnswer(process: Processor, threadPool: bool, qs: seq<seq<byte>>, rs: seq<seq<byte>>, r: seq<byte>)
      requires |qs| == |rs| + 1 && Answers(process, threadPool, qs, rs)
      requires Answer(process, threadPool, |qs|, qs[|qs| - 1]) == Some(r)
      ensures Answers(process, threadPool, qs, rs + [r])
    {
      hide Answer;
    }

    static lemma MoreAsked(process: Processor, threadPool: bool, qs: seq<seq<byte>>, rs: seq<seq<byte>>, q: seq<byte>)
      ensures Answers(process, threadPool, qs, rs) ==> Answers(process, threadPool, qs + [q], rs)
    {
      hide Answer;
    }

    static lemma OneMore(ps: seq<seq<byte>>, p: seq<byte>, max: nat)
      requires Legible(ps, max) && 0 < |p| <= max && max < U32_MODULUS
      ensures Legible(ps + [p], max) && F.Wire(ps + [p]) == F.Wire(ps) + F.Framed(p)
    {
      hide F.Framed;
      F.WireConcat(ps, [p]);
      var one := [p];
      assert one[1..] == [] && F.Framed(p) + [] == F.Framed(p);
    }

    /** The end of a request: its response is sent, or nothing is if it is empty. */
    method TaskDone()
      requires open && maxFrameSize <= MAX_WANT - 4 && 4 <= |output| < U32_MODULUS
      requires Legible(requests, maxFrameSize) && Countable(responses) && Answered() && |requests| == |responses| + 1
      requires Answer(process, threadPool, handled, requests[handled - 1]) == Some(output[4..])
      requires received == F.Wire(requests) && socket.output == Replies(responses)
      modifies this`writeBuffer, this`writeBufferPos, this`socketState, this`appState, this`readBufferPos, this`events
      modifies this`responses
      ensures Valid() && open && responses == old(responses) + [output[4..]]
      ensures appState == if |output| > 4 then SendResult else ReadFrameSize
    {
      hide Answers, Answer, F.Wire, Replies, BigEndian32, LittleEndian32;
      ghost var response := output[4..];
      RepliesAppend(responses, response);
      OneAnswer(process, threadPool, requests, responses, response);
      responses := responses + [response];
      writeBuffer := output;
      if |writeBuffer| > 4 {
        StartSending(response);
      } else {
        assert socket.output + [] == socket.output;
        BackToStart();
      }
    }

    /** The size of the response goes to the place kept for it. */
    method StartSending(ghost response: seq<byte>)
      requires open && maxFrameSize <= MAX_WANT - 4 && 4 < |writeBuffer| < U32_MODULUS && writeBuffer[4..] == response
      requires Legible(requests, maxFrameSize) && Countable(responses) && Answered() && |requests| == |responses|
      requires received == F.Wire(requests) && socket.output + F.Framed(response) == Replies(responses)
      modifies this`writeBuffer, this`writeBufferPos, this`socketState, this`appState, this`events
      ensures Valid() && open && appState == SendResult
    {
      hide Answers, Answer, F.Wire, Replies, BigEndian32;
      writeBufferPos := 0;
      socketState := Send;
      writeBuffer := BigEndian32(|writeBuffer| - 4) + writeBuffer[4..];
      appState := SendResult;
      events := Writable;
      assert writeBuffer[0..] == writeBuffer == F.Framed(response);
      assert received + [] == received;
    }

    /** A complete request: it is handed to the processor, here or through the task queue. */
    method GotRequest()
      requires open && maxFrameSize <= MAX_WANT - 4 && appState == ReadRequest && socketState == Recv
      requires writeBufferPos <= |writeBuffer|
      requires 4 < readBufferPos == readWant <= readBuffer.Length && readWant - 4 <= maxFrameSize
      requires readBuffer[..4] == BigEndian32(readWant - 4)
      requires Legible(requests, maxFrameSize) && Countable(responses) && Answered() && |requests| == |responses|
      requires received == F.Wire(requests) + readBuffer[..readBufferPos] && socket.output == Replies(responses)
      modifies this`open, this`events, this`input, this`output, this`taskEnded, this`handled, this`requests,
               this`responses
      modifies this`writeBuffer, this`writeBufferPos, this`socketState, this`appState, this`readBufferPos
      ensures Valid() && requests == old(requests) + [old(readBuffer[4..readBufferPos])]
      ensures threadPool ==> responses == old(responses) && output == [0, 0, 0, 0]
      ensures old(responses) <= responses && (open && !threadPool ==> |responses| == |requests|)
      ensures open <==> if threadPool then accepts(handled)
                        else Returns(process(handled, 0, old(readBuffer[4..readBufferPos])), ROOM)
      ensures open ==> appState == if threadPool then WaitTask else if |output| > 4 then SendResult else ReadFrameSize
    {
      hide Answers, Answer, Returns, F.Wire, Replies, BigEndian32, LittleEndian32;
      var request := readBuffer[4..readBufferPos];
      assert F.Framed(request) == readBuffer[..readBufferPos];
      OneMore(requests, request, maxFrameSize);
      MoreAsked(process, threadPool, requests, responses, request);
      input, output, taskEnded := request, [0, 0, 0, 0], false;
      requests := requests + [request];
      handled := handled + 1;
      if threadPool {
        Enqueue();
      } else {
        Process(request);
      }
    }

    /** The request becomes a task; the connection waits for it unless the queue refuses it. */
    method Enqueue()
      requires open && maxFrameSize <= MAX_WANT - 4 && socketState == Recv && writeBufferPos <= |writeBuffer|
      requires threadPool && !taskEnded && output == [0, 0, 0, 0]
      requires Legible(requests, maxFrameSize) && Countable(responses) && Answered() && |requests| == |responses| + 1
      requires received == F.Wire(requests) && socket.output == Replies(responses) && input == requests[|requests| - 1]
      modifies this`appState, this`events, this`open
      ensures Valid() && (open <==> accepts(handled)) && (open ==> appState == WaitTask)
    {
      hide Answered, Countable, F.Wire, Replies;
      appState := WaitTask;
      events := Idle;
      assert received + [] == received && socket.output + [] == socket.output;
      if !accepts(handled) {
        HandedOver();
        Close();
      }
    }

    /** The I/O thread calls the processor itself, once. */
    method Process(ghost request: seq<byte>)
      requires open && maxFrameSize <= MAX_WANT - 4 && !threadPool && output == [0, 0, 0, 0]
      requires Legible(requests, maxFrameSize) && Countable(responses) && Answered() && |requests| == |responses| + 1
      requires received == F.Wire(requests) && socket.output == Replies(responses)
      requires input == request == requests[|requests| - 1]
      modifies this`open, this`events, this`output, this`responses
      modifies this`writeBuffer, this`writeBufferPos, this`socketState, this`appState, this`readBufferPos
      ensures Valid() && old(responses) <= responses && (open ==> |responses| == |requests|)
      ensures open <==> Returns(process(handled, 0, request), ROOM)
      ensures open ==> appState == if |output| > 4 then SendResult else ReadFrameSize
    {
      hide Countable, Answers, Answer, Kept, Returns, F.Wire, Replies;
      var call := process(handled, 0, input);
      output := output + Kept(call.writes, ROOM);
      if !Returns(call, ROOM) {
        HandedOver();
        Close();
        return;
      }
      OneCall(request);
      TaskDone();
    }

    lemma OneCall(request: seq<byte>)
      requires !threadPool && Returns(process(handled, 0, request), ROOM)
      ensures Answer(process, threadPool, handled, request) == Some(Kept(process(handled, 0, request).writes, ROOM))
    {
      hide TaskReply;
      KeptWhole(process(handled, 0, request).writes, ROOM);
    }

    /** The size is known: room is made for the frame with its size word in front. */
    method GotFrameSize()
      requires open && maxFrameSize <= MAX_WANT - 4 && appState == ReadFrameSize && events == Readable
      requires readWant <= maxFrameSize && writeBufferPos <= |writeBuffer|
      requires Legible(requests, maxFrameSize) && Countable(responses) && Answered() && |requests| == |responses|
      requires received == F.Wire(requests) + BigEndian32(readWant) && socket.output == Replies(responses)
      modifies this`readWant, this`readBuffer, this`readBufferPos, this`socketState, this`appState, readBuffer
      ensures Valid() && open && appState == ReadRequest && readBufferPos == 4 && readWant == old(readWant) + 4
      ensures readBuffer == old(readBuffer) || fresh(readBuffer)
    {
      hide Valid, Answered, Countable, Legible, F.Wire, Replies, BigEndian32;
      readWant := readWant + 4;
      MakeRoom();
      readBufferPos := 4;
      socketState, appState := Recv, ReadRequest;
      StillReceiving();
    }

    /** What holds while a frame is being received. */
    ghost predicate Receives()
      reads this, readBuffer, socket`output
    {
      && maxFrameSize <= MAX_WANT - 4 && readWant - 4 <= maxFrameSize
      && 4 <= readBufferPos <= readWant <= readBuffer.Length && writeBufferPos <= |writeBuffer|
      && readBuffer[..4] == BigEndian32(readWant - 4)
      && Legible(requests, maxFrameSize) && Countable(responses) && Answered() && |requests| == |responses|
      && received == F.Wire(requests) + readBuffer[..readBufferPos] && socket.output == Replies(responses)
    }

    lemma Receiving()
      requires Valid() && open && appState == ReadRequest
      ensures Receives()
    {
      hide Answered, Countable, F.Wire, Replies, BigEndian32;
      assert socket.output + [] == socket.output;
    }

    lemma StillReceiving()
      requires Receives() && open && events == Readable && socketState == Recv && appState == ReadRequest
      requires readBufferPos < readWant || readWant == 4
      ensures Valid()
    {
      hide Answered, Countable, F.Wire, Replies, BigEndian32;
      assert socket.output + [] == socket.output;
    }

    /** The read buffer grows if it has to; the size word goes to its front. */
    method MakeRoom()
      requires 4 <= readWant <= MAX_WANT
      modifies this`readBuffer, readBuffer
      ensures readBuffer == old(readBuffer) || fresh(readBuffer)
      ensures readWant <= readBuffer.Length && readBuffer[..4] == BigEndian32(readWant - 4)
    {
      if readWant > readBuffer.Length {
        GrowReadBuffer();
      }
      Store(BigEndian32(readWant - 4));
    }

    /** The size word at the front of the read buffer. */
    method Store(word: seq<byte>)
      requires |word| == 4 <= readBuffer.Length
      modifies readBuffer
      ensures readBuffer[..4] == word
    {
      readBuffer[0], readBuffer[1], readBuffer[2], readBuffer[3] := word[0], word[1], word[2], word[3];
    }

    /** The doubling loop and the `realloc`, in 32 bits. */
    method GrowReadBuffer()
      requires readBuffer.Length < readWant <= MAX_WANT
      modifies this`readBuffer
      ensures fresh(readBuffer) && readWant <= readBuffer.Length < 2 * readWant
      ensures readBuffer[..old(readBuffer.Length)] == old(readBuffer[..])
    {
      var size := if readBuffer.Length == 0 then 1 else readBuffer.Length;
      while readWant > size
        invariant 0 < size < 2 * readWant
        decreases readWant - size
      {
        size := size * 2 % U32_MODULUS;
      }
      var bigger := new byte[size];
      forall i | 0 <= i < readBuffer.Length {
        bigger[i] := readBuffer[i];
      }
      readBuffer := bigger;
    }

    /** The response has been sent: now and then a large read buffer is given back. */
    method SentResult()
      requires open && maxFrameSize <= MAX_WANT - 4
      requires Legible(requests, maxFrameSize) && Countable(responses) && Answered() && |requests| == |responses|
      requires received == F.Wire(requests) && socket.output == Replies(responses)
      modifies this`writeBuffer, this`writeBufferPos, this`socketState, this`appState, this`readBufferPos, this`events
      modifies this`callsForResize, this`readBuffer
      ensures Valid() && open && appState == ReadFrameSize && readBufferPos == 0
      ensures readBuffer == old(readBuffer) || fresh(readBuffer)
      ensures var checks := resizeEveryN > 0 && old(callsForResize) + 1 >= resizeEveryN;
              && callsForResize == (if resizeEveryN == 0 then old(callsForResize)
                                    else if checks then 0 else old(callsForResize) + 1)
              && (if checks && 0 < idleReadLimit < old(readBuffer.Length) then readBuffer.Length == 0
                  else readBuffer == old(readBuffer))
    {
      if resizeEveryN > 0 {
        callsForResize := callsForResize + 1;
        if callsForResize >= resizeEveryN {
          if idleReadLimit > 0 && readBuffer.Length > idleReadLimit {
            readBuffer := new byte[0];
          }
          callsForResize := 0;
        }
      }
      BackToStart();
    }

    /** The worker thread runs the task: one call of the processor after another, until one does
        not ask for more, throws, or leaves no input. */
    method RunTask()
      requires Valid() && open && appState == WaitTask && !taskEnded
      modifies this`input, this`output, this`taskEnded
      ensures Valid() && open && appState == WaitTask && taskEnded
      ensures output == [0, 0, 0, 0] + TaskReply(process, handled, 0, requests[|requests| - 1], ROOM)
    {
      hide Answers, Answer, Kept, F.Wire, Replies, BigEndian32, LittleEndian32;
      CallProcessor();
      taskEnded := true;
    }

    method CallProcessor()
      requires output == [0, 0, 0, 0]
      modifies this`input, this`output
      ensures output == [0, 0, 0, 0] + TaskReply(process, handled, 0, old(input), ROOM)
    {
      hide Kept, Returns;
      ghost var reply := TaskReply(process, handled, 0, input, ROOM);
      var n, more := 0, true;
      while more
        invariant |output| < U32_MODULUS
        invariant [0, 0, 0, 0] + reply ==
                  output + if more then TaskReply(process, handled, n, input, U32_MODULUS - 1 - |output|) else []
        decreases if more then |input| + 1 else 0
      {
        var call, room := process(handled, n, input), U32_MODULUS - 1 - |output|;
        var kept := Kept(call.writes, room);
        more := Returns(call, room) && call.more && call.used < |input|;
        input := if call.used < |input| then input[call.used..] else [];
        if more { Assoc(output, kept, TaskReply(process, handled, n + 1, input, room - |kept|)); }
        output, n := output + kept, n + 1;
      }
      assert output + [] == output;
    }

    /** `forceClose` of a connection whose task was taken off the queue. */
    method ForceClose(notified: bool)
      requires Valid() && open && appState == WaitTask
      modifies this`appState, this`open, this`events
      ensures Valid() && (if notified then open && appState == CloseConnection else !open)
    {
      hide Answers, Answer, F.Wire, Replies, BigEndian32, LittleEndian32;
      ValidHistory();
      appState := CloseConnection;
      if !notified {
        Close();
      }
    }

    /** `transition` when the notification of a task, or of a forced close, arrives. */
    method Notified()
      requires Valid() && open && Waiting() && (appState == WaitTask ==> taskEnded)
      modifies this`writeBuffer, this`writeBufferPos, this`socketState, this`appState, this`readBufferPos, this`events
      modifies this`responses, this`open
      ensures Valid()
      ensures old(appState) == CloseConnection ==> !open && responses == old(responses)
      ensures old(appState) == WaitTask ==>
                && open && responses == old(responses) + [output[4..]]
                && appState == if |output| > 4 then SendResult else ReadFrameSize
    {
      hide Answers, Answer, F.Wire, Replies, BigEndian32, LittleEndian32;
      ValidHistory();
      if appState == CloseConnection {
        Close();
      } else {
        assert received + [] == received && socket.output + [] == socket.output;
        TaskAnswers();
        TaskDone();
      }
    }

    lemma TaskAnswers()
      requires Valid() && open && appState == WaitTask && taskEnded
      ensures 4 <= |output| < U32_MODULUS && handled == |requests| > 0
      ensures Answer(process, threadPool, handled, requests[handled - 1]) == Some(output[4..])
    {
      hide Answers, TaskReply, F.Wire, Replies;
    }

    /** `transition` of a fresh connection. */
    method Start()
      requires Valid() && open && appState == Init
      modifies this`writeBuffer, this`writeBufferPos, this`socketState, this`appState, this`readBufferPos, this`events
      ensures Valid() && open && appState == ReadFrameSize
    {
      hide Answers, Answer, F.Wire, Replies, BigEndian32, LittleEndian32;
      assert received == F.Wire(requests) + [] == F.Wire(requests);
      assert socket.output + [] == socket.output;
      BackToStart();
    }

    // ---------------------------------------------------------------- events

    /** The size word of the next frame, as much of it as comes. */
    method FramingEvent() returns (again: bool)
      requires Valid() && open && appState == ReadFrameSize
      modifies this, readBuffer, socket
      ensures Valid() && requests == old(requests) && responses == old(responses)
      ensures received + socket.input == old(received + socket.input) && socket.output == old(socket.output)
      ensures readBuffer == old(readBuffer) || fresh(readBuffer)
      ensures again ==> open && events == Readable && |socket.input| < old(|socket.input|)
      ensures |socket.input| <= old(|socket.input|)
    {
      hide Answers, Answer, F.Wire, Replies, BigEndian32, LittleEndian32, FromBigEndian32;
      again := false;
      var framing := TakeSize();
      if framing.Some? {
        assert socket.output == Replies(responses) by { assert socket.output + [] == socket.output; }
        GotSizeWord(framing.value);
        if open {
          again := socket.HasPendingData();
        }
      }
    }

    /** The bytes of the size word that come; the word when it is complete. */
    method TakeSize() returns (word: Option<seq<byte>>)
      requires Valid() && open && appState == ReadFrameSize
      modifies this`readWant, this`readBufferPos, this`received, this`open, this`events, socket`input
      ensures received + socket.input == old(received + socket.input) && |socket.input| <= old(|socket.input|)
      ensures word == None ==> Valid()
      ensures word.Some? ==>
                && open && |word.value| == 4 && received == F.Wire(requests) + word.value
                && events == Readable && |socket.input| < old(|socket.input|)
    {
      hide Answers, Answer, Answered, Countable, Frames, F.Wire, Replies, LittleEndian32, FromLittleEndian32;
      var framing := LittleEndian32(readWant);
      ValidHistory();
      var got := socket.Read(4 - readBufferPos);
      match got {
        case Disconnected => Close(); return None;
        case Broken => Close(); return None;
        case Retry =>
        case Bytes(b) =>
          framing := Overlay(framing, readBufferPos, b);
          Assoc(F.Wire(requests), LittleEndian32(readWant)[..readBufferPos], b);
          Assoc(received, b, socket.input);
          readBufferPos := readBufferPos + |b|;
          received := received + b;
      }
      if readBufferPos < 4 {
        readWant := FromLittleEndian32(framing);
        LittleEndianBytes(framing);
        return None;
      }
      assert framing[..4] == framing;
      return Some(framing);
    }

    /** The size word is complete: a frame that is too large closes the connection. */
    method GotSizeWord(framing: seq<byte>)
      requires open && maxFrameSize <= MAX_WANT - 4 && appState == ReadFrameSize && events == Readable
      requires |framing| == 4 && writeBufferPos <= |writeBuffer|
      requires Legible(requests, maxFrameSize) && Countable(responses) && Answered() && |requests| == |responses|
      requires received == F.Wire(requests) + framing && socket.output == Replies(responses)
      modifies this`readWant, this`readBuffer, this`readBufferPos, this`socketState, this`appState, this`open,
               this`events, readBuffer
      ensures Valid() && (readBuffer == old(readBuffer) || fresh(readBuffer))
      ensures open <==> FromBigEndian32(framing) <= maxFrameSize
      ensures open ==> appState == ReadRequest && events == Readable && readWant == FromBigEndian32(framing) + 4
    {
      hide Answers, Answer, F.Wire, Replies, BigEndian32, FromBigEndian32;
      readWant := FromBigEndian32(framing);
      if readWant > maxFrameSize {
        TooLarge(framing);
        Close();
        return;
      }
      BigEndianBytes(framing);
      GotFrameSize();
    }

    /** The bytes `b` laid over those at `at`. */
    static function Overlay(s: seq<byte>, at: nat, b: seq<byte>): (r: seq<byte>)
      requires |s| == 4 && at + |b| <= 4
      ensures |r| == 4 && r[..at + |b|] == s[..at] + b
    {
      s[..at] + b + s[at + |b|..]
    }

    lemma TooLarge(framing: seq<byte>)
      requires |framing| == 4 && FromBigEndian32(framing) > maxFrameSize
      requires Legible(requests, maxFrameSize) && received == F.Wire(requests) + framing
      requires Countable(responses) && Answered() && |requests| == |responses| && socket.output <= Replies(responses)
      ensures History()
    {
      hide F.Wire, Replies, FromBigEndian32;
      assert framing[..4] == framing;
      FramesOf(requests, framing, maxFrameSize);
    }

    /** More of the frame; when it is complete it is handed over. */
    method RecvEvent() returns (again: bool)
      requires Valid() && open && appState == ReadRequest
      modifies this, readBuffer, socket
      ensures Valid() && old(requests) <= requests && old(responses) <= responses
      ensures old(readBufferPos >= readWant) ==> !open && requests == old(requests)      // an empty frame
      ensures received + socket.input == old(received + socket.input) && socket.output == old(socket.output)
      ensures readBuffer == old(readBuffer) || fresh(readBuffer)
      ensures again ==> open && events == Readable && |socket.input| < old(|socket.input|)
      ensures |socket.input| <= old(|socket.input|)
    {
      hide Answers, Answer, Positions, Accounts, F.Wire, Replies, BigEndian32;
      ValidHistory();
      again := false;
      if readBufferPos >= readWant {
        Close();
        return;
      }
      var got := socket.Read(readWant - readBufferPos);
      match got
      case Retry =>
      case Disconnected => Close();
      case Broken => Close();
      case Bytes(b) =>
        Assoc(received, b, socket.input);
        RecvBytes(b);
        if open && socketState == RecvFraming {
          again := socket.HasPendingData();
        }
    }

    method RecvBytes(b: seq<byte>)
      requires Valid() && open && appState == ReadRequest && 0 < |b| <= readWant - readBufferPos
      modifies this, readBuffer
      ensures Valid() && old(requests) <= requests && old(responses) <= responses
      ensures received == old(received) + b && (readBuffer == old(readBuffer) || fresh(readBuffer))
      ensures open && socketState == RecvFraming ==> events == Readable
    {
      hide Accounts, Positions, Answered, Countable, F.Wire, Replies, BigEndian32;
      Receiving();
      Assoc(F.Wire(requests), readBuffer[..readBufferPos], b);
      Receive(b);
      received := received + b;
      if readBufferPos == readWant {
        GotRequest();
      } else {
        StillReceiving();
      }
    }

    /** Copy what was read to its place in the buffer. */
    method Receive(b: seq<byte>)
      requires readBufferPos >= 4 && readBufferPos + |b| <= readBuffer.Length
      modifies this`readBufferPos, readBuffer
      ensures readBufferPos == old(readBufferPos) + |b|
      ensures readBuffer[..readBufferPos] == old(readBuffer[..readBufferPos]) + b
      ensures readBuffer[..4] == old(readBuffer[..4])
    {
      var at := readBufferPos;
      forall i | 0 <= i < |b| {
        readBuffer[at + i] := b[i];
      }
      readBufferPos := at + |b|;
      assert readBuffer[at..at + |b|] == b;
      assert readBuffer[..at + |b|] == readBuffer[..at] + readBuffer[at..at + |b|];
    }

    /** As much of the response as the socket takes. */
    method SendEvent()
      requires Valid() && open && appState == SendResult
      modifies this, socket`output
      ensures Valid() && requests == old(requests) && responses == old(responses) && received == old(received)
      ensures old(socket.output) <= socket.output
      ensures readBuffer == old(readBuffer) || fresh(readBuffer)
    {
      hide Accounts, Positions, Answered, Countable, Legible, F.Wire, Replies;
      ValidHistory();
      Sending();
      var sent := socket.WritePartial(writeBuffer[writeBufferPos..]);
      if sent == None {
        Close();
        return;
      }
      ghost var left := writeBuffer[writeBufferPos..];
      assert left == left[..sent.value] + left[sent.value..];
      Assoc(old(socket.output), left[..sent.value], left[sent.value..]);
      writeBufferPos := writeBufferPos + sent.value;
      assert writeBuffer[writeBufferPos..] == left[sent.value..];
      if writeBufferPos == |writeBuffer| {
        assert socket.output + [] == socket.output;
        SentResult();
      } else {
        StillSending();
      }
    }

    /** What holds while a response is being sent. */
    ghost predicate SendsResponse()
      reads this, socket`output
    {
      && Legible(requests, maxFrameSize) && Countable(responses) && Answered() && |requests| == |responses|
      && received == F.Wire(requests) && writeBufferPos <= |writeBuffer|
      && socket.output + writeBuffer[writeBufferPos..] == Replies(responses)
    }

    lemma Sending()
      requires Valid() && open && appState == SendResult
      ensures SendsResponse()
    {
      hide Answered, Countable, F.Wire, Replies;
      assert F.Wire(requests) + [] == F.Wire(requests);
    }

    lemma StillSending()
      requires maxFrameSize <= MAX_WANT - 4 && open && Legal() && appState == SendResult
      requires SendsResponse() && writeBufferPos < |writeBuffer|
      ensures Valid()
    {
      hide Answered, Countable, F.Wire, Replies;
      assert received == F.Wire(requests) + [];
    }

    /** `workSocket`: one event, and more while there is pending data. */
    method WorkSocket()
      requires Valid() && open && events != Idle
      modifies this, readBuffer, socket
      ensures Valid() && History() && (readBuffer == old(readBuffer) || fresh(readBuffer))
      ensures old(requests) <= requests && old(responses) <= responses && old(socket.output) <= socket.output
      ensures received + socket.input == old(received + socket.input)
    {
      hide Answers, Answer, Positions, Accounts, F.Wire, Replies, Frames;
      var again := true;
      while again
        invariant Valid() && (again ==> open && events != Idle)
        invariant old(requests) <= requests && old(responses) <= responses && old(socket.output) <= socket.output
        invariant received + socket.input == old(received + socket.input)
        invariant readBuffer == old(readBuffer) || fresh(readBuffer)
        decreases |socket.input|, again
      {
        match appState
        case ReadFrameSize => again := FramingEvent();
        case ReadRequest => again := RecvEvent();
        case SendResult =>
          SendEvent();
          again := false;
        case _ => assert false;
      }
      ValidHistory();
    }

    /** A connection from its start on, for any number of socket events and of notifications,
        of any tasks that are run or given up. Whatever becomes of it, the requests are the
        frames of what was received, in order, and what was sent is the start of the framed
        responses. */
    method Serve(turns: nat)
      requires Valid() && open && appState == Init
      modifies this, readBuffer, socket
      ensures Valid() && History()
      ensures received + socket.input == old(received + socket.input)
      ensures open ==> received == F.Wire(requests) + Partial() && socket.output + Outstanding() == Replies(responses)
      ensures |responses| <= |requests|
      ensures forall i :: 0 <= i < |responses| ==> Answer(process, threadPool, i + 1, requests[i]) == Some(responses[i])
    {
      hide F.Wire, Replies, Frames, BigEndian32, LittleEndian32;
      var turn := 0;
      while turn < turns && open
        invariant Valid() && received + socket.input == old(received + socket.input)
        invariant readBuffer == old(readBuffer) || fresh(readBuffer)
      {
        if events != Idle {
          WorkSocket();
        } else {
          Turn();
        }
        turn := turn + 1;
      }
      ValidHistory();
    }

    /** What happens to a connection that does not wait for its socket. */
    method Turn()
      requires Valid() && open && events == Idle
      modifies this
      ensures Valid() && readBuffer == old(readBuffer) && received == old(received)
    {
      hide Accounts, History;
      match appState
      case Init => Start();
      case CloseConnection => Notified();
      case WaitTask =>
        var givenUp: bool, notified: bool := *, *;
        if taskEnded {
          Notified();
        } else if givenUp {
          ForceClose(notified);
        } else {
          RunTask();
        }
      case _ => assert false;
    }
  }
}
