/** TFramedTransport: a growing write buffer with room for the size word, and frame reading. */
module FramedTransport {
  import opened Bytes
  import opened Stream

  const DEFAULT_BUFFER_SIZE: nat := 512

  /** The `int32_t` with the bits of `n`. */
  function Signed32(n: nat): int {
    if n % U32_MODULUS < INT32_SIGN then n % U32_MODULUS else n % U32_MODULUS - U32_MODULUS
  }

  /** A payload as it goes on the wire. */
  function Framed(p: seq<byte>): seq<byte>
    requires |p| < U32_MODULUS
  {
    BigEndian32(|p|) + p
  }

  datatype Incoming = NoFrame | Got(payload: seq<byte>, rest: seq<byte>) | Bad

  /** `readFrame`. */
  function ParseFrame(input: seq<byte>, max: u32): Incoming {
    if input == [] then NoFrame
    else if |input| < 4 then Bad
    else
      var sz := Signed32(FromBigEndian32(input[..4]));
      if sz < 0 || sz > Signed32(max) || |input| < 4 + sz then Bad
      else Got(input[4..4 + sz], input[4 + sz..])
  }

  /** How many bytes a read of up to `len` gives: those that are left of the frame, and if none are
      those of the next frame. */
  function Next(len: nat, left: nat, input: seq<byte>, max: u32): nat {
    if left > 0 || len == 0 then Min(len, left)
    else
      match ParseFrame(input, max)
      case Got(p, _) => Min(len, |p|)
      case _ => 0
  }

  /** End of file, or an empty frame, which a reader cannot tell from it. */
  predicate NothingNext(input: seq<byte>, max: u32) {
    match ParseFrame(input, max)
    case NoFrame => true
    case Got(p, _) => p == []
    case Bad => false
  }

  /** What reading to the end, or to the first bad frame, delivers. */
  function Contents(input: seq<byte>, max: u32): seq<byte>
    decreases |input|
  {
    match ParseFrame(input, max)
    case NoFrame => []
    case Bad => []
    case Got(p, rest) => p + Contents(rest, max)
  }

  /** Frames the reader allows, none of them empty, up to the end. */
  predicate WellFramed(input: seq<byte>, max: u32)
    decreases |input|
  {
    match ParseFrame(input, max)
    case NoFrame => true
    case Bad => false
    case Got(p, rest) => p != [] && WellFramed(rest, max)
  }

  predicate Sizes(ps: seq<seq<byte>>, max: int) {
    forall i :: 0 <= i < |ps| ==> 0 < |ps[i]| <= max
  }

  function Wire(ps: seq<seq<byte>>): seq<byte>
    requires Sizes(ps, U32_MODULUS - 1)
  {
    if ps == [] then [] else Framed(ps[0]) + Wire(ps[1..])
  }

  /** A frame is given back exactly when the reader allows its size. */
  lemma FrameRoundTrip(p: seq<byte>, more: seq<byte>, max: u32)
    requires |p| <= INT32_MAX
    ensures ParseFrame(Framed(p) + more, max) == (if |p| <= Signed32(max) then Got(p, more) else Bad)
  {
    hide BigEndian32, FromBigEndian32;
    BigEndianInverse(|p|);
    var input := Framed(p) + more;
    Middle([], BigEndian32(|p|), p + more);
    Middle(BigEndian32(|p|), p, more);
    assert input == [] + BigEndian32(|p|) + (p + more);
    assert input == BigEndian32(|p|) + p + more;
  }

  /** A frame, byte for byte: its size with the highest byte first, then the payload. */
  lemma FrameBytes(p: seq<byte>)
    requires |p| < 0x1_0000_0000
    ensures Framed(p) == [|p| / 0x100_0000, |p| / 0x1_0000 % 0x100, |p| / 0x100 % 0x100, |p| % 0x100] + p
  {
  }

  /** What is no frame: a size with the high bit, a size or a payload that breaks off. A maximum with
      the high bit allows nothing. */
  lemma NoFrames(word: seq<byte>, p: seq<byte>, max: u32)
    requires |word| == 4
    ensures word[0] >= 0x80 ==> ParseFrame(word + p, max) == Bad
    ensures |p| < FromBigEndian32(word) < 0x8000_0000 ==> ParseFrame(word + p, max) == Bad
    ensures max >= 0x8000_0000 ==> ParseFrame(word + p, max) == Bad
    ensures FromBigEndian32(word) == |p| <= max < 0x8000_0000 ==> ParseFrame(word + p, max) == Got(p, [])
    ensures ParseFrame(word[1..], max) == Bad && ParseFrame([], max) == NoFrame
  {
    assert (word + p)[..4] == word;
    ByteOrders(word[3], word[2], word[1], word[0]);
  }

  /** Reading back any sequence of frames the reader allows yields the payloads, in order. */
  lemma {:induction false} WireRoundTrip(ps: seq<seq<byte>>, max: u32)
    requires Sizes(ps, Signed32(max))
    ensures Contents(Wire(ps), max) == Concat(ps) && WellFramed(Wire(ps), max)
    decreases ps
  {
    if ps != [] {
      FrameRoundTrip(ps[0], Wire(ps[1..]), max);
      WireRoundTrip(ps[1..], max);
    }
  }

  // ---------------------------------------------------------------- growth

  /** The doubling loop of `writeSlow`. */
  function Grown(size: nat, need: nat): (r: nat)
    ensures r >= need && r >= size
    ensures size < need ==> r < 2 * need
    decreases if size < need then need - size else 0
  {
    if size >= need then size else Grown(if size > 0 then size * 2 else 1, need)
  }

  /** The doubling never leaves 32 bits for a size `writeSlow` lets through. */
  method Double(size: u32, need: nat) returns (r: u32)
    requires need <= INT32_MAX
    ensures r == Grown(size, need)
  {
    hide Grown;
    var newSize: int := size;
    while newSize < need
      invariant 0 <= newSize < U32_MODULUS && Grown(newSize, need) == Grown(size, need)
      decreases need - newSize
    {
      GrownStep(newSize, need);
      assert newSize * 2 < U32_MODULUS;
      newSize := if newSize > 0 then newSize * 2 % U32_MODULUS else 1;
    }
    GrownStep(newSize, need);
    r := newSize;
  }

  lemma GrownStep(size: nat, need: nat)
    ensures Grown(size, need) == if size >= need then size else Grown(if size > 0 then size * 2 else 1, need)
  {
  }

  /** A flush before any write trips the assertion exactly for these buffer sizes. */
  lemma FreshBufferTooSmall(sz: nat)
    ensures Grown(sz, 4) <= 4 <==> sz == 0 || sz == 1 || sz == 2 || sz == 4
  {
  }

  /** A buffer that starts with `size` bytes can come to hold a payload of 2 GiB. */
  predicate Outgrows(size: nat) {
    Grown(size, INT32_MAX) >= INT32_SIGN + 4
  }

  /** Every size but zero, the powers of two and five more does. */
  lemma {:induction false} OutgrowsExactly(size: nat)
    ensures !Outgrows(size) <==>
              || size == 0 || (PowerOfTwo(size) && size <= INT32_SIGN)
              || size == 0x4000_0001 || size == 0x7fff_ffff
              || size == 0x8000_0001 || size == 0x8000_0002 || size == 0x8000_0003
    decreases if size < INT32_MAX then INT32_MAX - size else 0
  {
    if size == 0 {
      OutgrowsExactly(1);
    } else if size < INT32_MAX {
      assert size * 2 / 2 == size;
      OutgrowsExactly(size * 2);
      if PowerOfTwo(size) { DoubledPower(size); }
    } else if size == INT32_SIGN {
      OneGiB();
    }
  }

  /** Growth on the way makes no difference to it. */
  lemma {:induction false} GrownTwice(size: nat, need: nat, more: nat)
    requires need <= more
    ensures Grown(Grown(size, need), more) == Grown(size, more)
    decreases if size < need then need - size else 0
  {
    if size < need { GrownTwice(if size > 0 then size * 2 else 1, need, more); }
  }

  datatype Op = Put(bytes: seq<byte>) | Flush

  /** How a run ends: with every call done, a write refused, the assertion of `flush`, or a
      payload that was not sent. */
  datatype Ended = Done | Refused | Asserted | Unsent

  /** The payloads a run of calls sends, with `pending` written before it. */
  function Payloads(ops: seq<Op>, pending: seq<byte>): seq<seq<byte>> {
    if ops == [] then []
    else
      match ops[0]
      case Put(b) => Payloads(ops[1..], pending + b)
      case Flush => (if pending == [] then [] else [pending]) + Payloads(ops[1..], [])
  }

  /** What is left in the buffer then. */
  function Left(ops: seq<Op>, pending: seq<byte>): seq<byte> {
    if ops == [] then pending
    else
      match ops[0]
      case Put(b) => Left(ops[1..], pending + b)
      case Flush => Left(ops[1..], [])
  }

  /** The pending payload, with its size word, stays below 2 GiB. */
  predicate Moderate(ops: seq<Op>, pending: nat) {
    && 4 + pending <= INT32_MAX
    && (ops == [] || match ops[0]
                     case Put(b) => Moderate(ops[1..], pending + |b|)
                     case Flush => Moderate(ops[1..], 0))
  }

  /** What one call leaves pending, and what it sends. */
  function PendingAfter(op: Op, pending: seq<byte>): seq<byte> {
    match op case Put(b) => pending + b case Flush => []
  }

  function SentBy(op: Op, pending: seq<byte>): seq<seq<byte>> {
    if op.Flush? && pending != [] then [pending] else []
  }

  lemma OneOp(ops: seq<Op>, i: nat, pending: seq<byte>)
    requires i < |ops|
    ensures var q := PendingAfter(ops[i], pending);
            && Payloads(ops[i..], pending) == SentBy(ops[i], pending) + Payloads(ops[i + 1..], q)
            && Left(ops[i..], pending) == Left(ops[i + 1..], q)
            && (Moderate(ops[i..], |pending|) ==>
                  Moderate(ops[i + 1..], |q|) && 4 + |pending| <= INT32_MAX && 4 + |q| <= INT32_MAX)
  {
    assert ops[i..][0] == ops[i] && ops[i..][1..] == ops[i + 1..];
    if ops[i].Put? {
      var tail := Payloads(ops[i + 1..], pending + ops[i].bytes);
      assert [] + tail == tail;
    }
  }

  lemma NoWire()
    ensures Wire([]) == []
  {
  }

  lemma NoOps(pending: seq<byte>)
    ensures Payloads([], pending) == [] && Left([], pending) == pending
  {
  }

  /** No frame loses or gains a byte: payloads and rest together are what was written. */
  lemma {:induction false} PayloadsAreWrites(ops: seq<Op>, pending: seq<byte>)
    ensures Concat(Payloads(ops, pending)) + Left(ops, pending) == pending + Writes(ops)
    decreases ops
  {
    if ops == [] {
      assert [] + pending == pending + [];
    } else {
      match ops[0]
      case Put(b) =>
        PayloadsAreWrites(ops[1..], pending + b);
        Assoc(pending, b, Writes(ops[1..]));
      case Flush =>
        PayloadsAreWrites(ops[1..], []);
        var tail := Payloads(ops[1..], []);
        assert [] + Writes(ops[1..]) == Writes(ops[1..]);
        if pending == [] {
          assert [] + tail == tail;
        } else {
          assert ([pending] + tail)[1..] == tail;
          Assoc(pending, Concat(tail), Left(ops[1..], []));
        }
    }
  }

  function Writes(ops: seq<Op>): seq<byte> {
    if ops == [] then [] else (match ops[0] case Put(b) => b case Flush => []) + Writes(ops[1..])
  }

  // ---------------------------------------------------------------- the object

  class Framer {
    const transport: Transport
    var rBuf: array<byte>
    var wBuf: array<byte>
    var rBase: nat               // unread: rBuf[rBase..rBound]
    var rBound: nat
    var wBase: nat               // written: wBuf[4..wBase], behind room for the size word
    const reclaimThresh: u32
    const maxFrameSize: u32

    ghost predicate Valid()
      reads this
    {
      && rBase <= rBound <= rBuf.Length <= INT32_MAX && 4 <= wBase <= wBuf.Length < U32_MODULUS
      && rBuf != wBuf
    }

    ghost function Pending(): seq<byte>
      reads this, wBuf
      requires Valid()
    {
      wBuf[4..wBase]
    }

    /** What the reader is still going to deliver. */
    ghost function Unread(): seq<byte>
      reads this, rBuf, transport
      requires Valid()
    {
      rBuf[rBase..rBound] + Contents(transport.input, maxFrameSize)
    }

    /** The buffer is asked for `sz` bytes and padded by four, through `write`. */
    constructor (transport: Transport, sz: u32, reclaimThresh: u32, maxFrameSize: u32)
      ensures Valid() && this.transport == transport && Pending() == []
      ensures this.reclaimThresh == reclaimThresh && this.maxFrameSize == maxFrameSize
      ensures rBase == rBound && wBuf.Length == Grown(sz, 4) && fresh(wBuf) && fresh(rBuf)
    {
      this.transport, this.reclaimThresh, this.maxFrameSize := transport, reclaimThresh, maxFrameSize;
      var size := Double(sz, 4);
      rBuf, wBuf := new byte[0], new byte[size];
      rBase, rBound, wBase := 0, 0, 4;
    }

    // ---------------------------------------------------------------- writing

    /** Copy to the write position. */
    method Append(bytes: seq<byte>)
      requires Valid() && wBase + |bytes| <= wBuf.Length
      modifies this`wBase, wBuf
      ensures Valid() && Pending() == old(Pending()) + bytes && wBase == old(wBase) + |bytes|
    {
      forall i | 0 <= i < |bytes| {
        wBuf[wBase + i] := bytes[i];
      }
      assert wBuf[wBase..wBase + |bytes|] == bytes;
      assert wBuf[4..wBase + |bytes|] == wBuf[4..wBase] + wBuf[wBase..wBase + |bytes|];
      wBase := wBase + |bytes|;
    }

    /** `write`: refused only beyond 2 GiB, and then nothing has changed. */
    method Write(buf: seq<byte>) returns (ok: bool)
      requires Valid() && |buf| < U32_MODULUS
      modifies this`wBase, this`wBuf, wBuf
      ensures Valid() && (wBuf == old(wBuf) || fresh(wBuf))
      ensures ok <==> old(wBase) + |buf| <= old(wBuf.Length) || old(wBase) + |buf| <= INT32_MAX
      ensures Pending() == if ok then old(Pending()) + buf else old(Pending())
      ensures wBuf.Length == if ok then Grown(old(wBuf.Length), old(wBase) + |buf|) else old(wBuf.Length)
    {
      if wBase + |buf| <= wBuf.Length {
        Append(buf);
        return true;
      }
      ok := WriteSlow(buf);
    }

    method WriteSlow(buf: seq<byte>) returns (ok: bool)
      requires Valid() && |buf| < U32_MODULUS && wBase + |buf| > wBuf.Length
      modifies this`wBase, this`wBuf
      ensures Valid() && (wBuf == old(wBuf) || fresh(wBuf))
      ensures ok <==> old(wBase) + |buf| <= INT32_MAX
      ensures Pending() == if ok then old(Pending()) + buf else old(Pending())
      ensures wBuf.Length == if ok then Grown(old(wBuf.Length), old(wBase) + |buf|) else old(wBuf.Length)
    {
      hide Grown;
      var have := wBase;
      var sum := (|buf| + have) % U32_MODULUS;
      if sum < have || sum > INT32_MAX { return false; }
      var newSize := Double(wBuf.Length, sum);
      var newBuf := new byte[newSize];
      forall i | 0 <= i < have {
        newBuf[i] := wBuf[i];
      }
      ghost var pending := wBuf[4..have];
      assert newBuf[4..have] == pending;
      wBuf := newBuf;
      Append(buf);
      return true;
    }

    /** `flush`. It asserts that the buffer is larger than the size word. */
    method FlushOut() returns (ok: bool)
      requires Valid()
      modifies this`wBase, this`wBuf, wBuf, transport`output
      ensures Valid() && (wBuf == old(wBuf) || fresh(wBuf))
      ensures ok <==> old(wBuf.Length) > 4
      ensures !ok ==> transport.output == old(transport.output)
      ensures ok && old(wBase) - 4 <= INT32_MAX ==>
                && Pending() == []
                && var p := old(Pending());
                   transport.output == old(transport.output) + (if p == [] then [] else Framed(p))
      ensures old(wBase) - 4 > INT32_MAX ==> transport.output == old(transport.output)
      ensures wBuf.Length == if ok && old(wBuf.Length) > reclaimThresh then DEFAULT_BUFFER_SIZE else old(wBuf.Length)
    {
      hide BigEndian32, Grown;
      if wBuf.Length <= 4 { return false; }
      ghost var p := Pending();
      var size: nat := wBase - 4;
      var sz := BigEndian32(size);
      wBuf[0], wBuf[1], wBuf[2], wBuf[3] := sz[0], sz[1], sz[2], sz[3];
      if Signed32(size) > 0 {
        wBase := 4;
        transport.Write(wBuf[..4 + size]);
        assert wBuf[..4 + size] == sz + p;
      } else {
        assert transport.output == old(transport.output) + [];
      }
      if wBuf.Length > reclaimThresh {
        wBuf := new byte[DEFAULT_BUFFER_SIZE];
        wBase := 4;
      }
      return true;
    }

    /** Any run of writes and flushes: one frame per flush with something to send, holding what
        was written since. No write is refused that stays below 2 GiB; the assertion of `flush`
        fails only on a buffer no larger than the size word; and no payload stays behind in a
        buffer that does not outgrow 2 GiB. */
    method Run(ops: seq<Op>) returns (r: Ended)
      requires Valid()
      requires forall i :: 0 <= i < |ops| && ops[i].Put? ==> |ops[i].bytes| < U32_MODULUS
      modifies this`wBase, this`wBuf, wBuf, transport`output
      ensures Valid()
      ensures r == Done ==> Sizes(Payloads(ops, old(Pending())), INT32_MAX)
      ensures r == Done ==> transport.output == old(transport.output) + Wire(Payloads(ops, old(Pending())))
      ensures r == Done ==> Pending() == Left(ops, old(Pending()))
      ensures Moderate(ops, |old(Pending())|) && old(wBuf.Length) > 4 ==> r == Done
      ensures r == Asserted ==> old(wBuf.Length) <= 4
      ensures r == Unsent ==> Outgrows(old(wBuf.Length))
    {
      hide Framed, Outgrows, Payloads, Left, Moderate, PendingAfter, SentBy, Wire, Valid;
      ghost var start, p0 := transport.output, Pending();
      ghost var good, larger, outgrows := Moderate(ops, |p0|), wBuf.Length > 4, Outgrows(wBuf.Length);
      ghost var done: seq<seq<byte>> := [];
      assert Wire(done) == [] && start + [] == start && ops[0..] == ops by { NoWire(); }
      assert done + Payloads(ops, p0) == Payloads(ops, p0);
      var i := 0;
      while i < |ops|
        invariant Valid() && 0 <= i <= |ops|
        invariant wBuf == old(wBuf) || fresh(wBuf)
        invariant Sizes(done, INT32_MAX) && transport.output == start + Wire(done)
        invariant done + Payloads(ops[i..], Pending()) == Payloads(ops, p0)
        invariant Left(ops[i..], Pending()) == Left(ops, p0)
        invariant (good ==> Moderate(ops[i..], |Pending()|)) && (larger ==> wBuf.Length > 4)
        invariant Outgrows(wBuf.Length) ==> outgrows
      {
        OneOp(ops, i, Pending());
        ghost var piece := [];
        r, piece := Step(ops[i]);
        if r != Done { return; }
        Advance(start, done, piece, Payloads(ops[i + 1..], Pending()));
        done := done + piece;
        i := i + 1;
      }
      NoOps(Pending());
      assert ops[i..] == [] && done + [] == done;
      return Done;
    }

    static lemma Advance(start: seq<byte>, done: seq<seq<byte>>, piece: seq<seq<byte>>, tail: seq<seq<byte>>)
      requires Sizes(done, INT32_MAX) && Sizes(piece, INT32_MAX)
      ensures Sizes(done + piece, INT32_MAX) && done + piece + tail == done + (piece + tail)
      ensures start + Wire(done) + Wire(piece) == start + Wire(done + piece)
    {
      hide Wire;
      Assoc(done, piece, tail);
      WireConcat(done, piece);
      Assoc(start, Wire(done), Wire(piece));
    }

    method Step(op: Op) returns (r: Ended, ghost sent: seq<seq<byte>>)
      requires Valid() && (op.Put? ==> |op.bytes| < U32_MODULUS)
      modifies this`wBase, this`wBuf, wBuf, transport`output
      ensures Valid() && (wBuf == old(wBuf) || fresh(wBuf))
      ensures r == Done ==> Pending() == PendingAfter(op, old(Pending())) && sent == SentBy(op, old(Pending()))
      ensures r == Done ==> Sizes(sent, INT32_MAX) && transport.output == old(transport.output) + Wire(sent)
      ensures old(wBuf.Length) > 4 ==> r != Asserted && wBuf.Length > 4
      ensures old(wBuf.Length) > 4 && 4 + |old(Pending())| <= INT32_MAX
              && 4 + |PendingAfter(op, old(Pending()))| <= INT32_MAX
              ==> r == Done
      ensures r == Unsent || Outgrows(wBuf.Length) ==> Outgrows(old(wBuf.Length))
    {
      sent, r := [], Done;
      match op
      case Put(bytes) =>
        if wBase + |bytes| <= INT32_MAX { GrownTwice(wBuf.Length, wBase + |bytes|, INT32_MAX); }
        var ok := Write(bytes);
        if !ok { return Refused, []; }
        assert transport.output == old(transport.output) + [];
      case Flush =>
        ghost var p := Pending();
        var small := wBase - 4 <= INT32_MAX;
        var ok := FlushOut();
        OutgrowsExactly(DEFAULT_BUFFER_SIZE);
        assert PowerOfTwo(DEFAULT_BUFFER_SIZE);
        if !ok { return Asserted, []; }
        if !small { return Unsent, []; }
        sent := if p == [] then [] else [p];
        if p != [] {
          assert sent[1..] == [] && Framed(p) + [] == Framed(p);
        }
    }

    // ---------------------------------------------------------------- reading

    /** The loop that reads the size word: end of file is an error only in the middle. */
    method ReadSize() returns (r: Option<seq<byte>>)
      modifies transport`input
      ensures var input := old(transport.input);
              if input == [] then r == Some([]) && transport.input == []
              else if |input| < 4 then r == None
              else r == Some(input[..4]) && transport.input == input[4..]
    {
      var sz: seq<byte> := [];
      while |sz| < 4
        invariant |sz| <= 4 && old(transport.input) == sz + transport.input
      {
        var more := transport.Read(4 - |sz|);
        if more == [] {
          return if sz == [] then Some([]) else None;
        }
        sz := sz + more;
      }
      assert old(transport.input)[..4] == sz;
      r := Some(sz);
    }

    /** `readFrame`: `Some(false)` at end of file, `None` for an exception. */
    method ReadFrame() returns (r: Option<bool>)
      requires Valid() && rBase == rBound
      modifies this`rBuf, this`rBase, this`rBound, rBuf, transport`input
      ensures Valid() && (rBuf == old(rBuf) || fresh(rBuf))
      ensures match ParseFrame(old(transport.input), maxFrameSize)
              case NoFrame => r == Some(false) && rBase == rBound && transport.input == old(transport.input)
              case Bad => r == None
              case Got(p, rest) => r == Some(true) && rBuf[rBase..rBound] == p && transport.input == rest
    {
      hide FromBigEndian32;
      ghost var input := transport.input;
      var word := ReadSize();
      if word == None { return None; }
      if word.value == [] { return Some(false); }
      var sz := Signed32(FromBigEndian32(word.value));
      if sz < 0 || sz > Signed32(maxFrameSize) { return None; }
      if sz > rBuf.Length {
        rBuf := new byte[sz];
        rBase, rBound := 0, 0;
      }
      var body := transport.ReadAll(sz);
      if body == None { return None; }
      forall i | 0 <= i < sz {
        rBuf[i] := body.value[i];
      }
      rBase, rBound := 0, sz;
      assert rBuf[0..sz] == body.value == input[4..][..sz] == input[4..4 + sz];
      assert input[4..][sz..] == input[4 + sz..];
      return Some(true);
    }

    /** `read`: one frame at a time, whatever the sizes asked for. */
    method Read(len: u32) returns (r: Option<seq<byte>>)
      requires Valid()
      modifies this`rBuf, this`rBase, this`rBound, rBuf, transport`input
      ensures Valid() && (rBuf == old(rBuf) || fresh(rBuf))
      ensures r == None <==> len > 0 && old(rBase == rBound) && ParseFrame(old(transport.input), maxFrameSize) == Bad
      ensures r.Some? ==> old(Unread()) == r.value + Unread() && |r.value| <= len
      ensures r.Some? ==> |r.value| == Next(len, old(rBound - rBase), old(transport.input), maxFrameSize)
      ensures r == Some([]) ==>
                len == 0 || (old(rBase == rBound) && NothingNext(old(transport.input), maxFrameSize))
      ensures WellFramed(old(transport.input), maxFrameSize) ==> r.Some? && WellFramed(transport.input, maxFrameSize)
    {
      if rBase + len <= rBound {
        rBase := rBase + len;
        return Some(rBuf[rBase - len..rBase]);
      }
      r := ReadSlow(len);
    }

    method ReadSlow(len: u32) returns (r: Option<seq<byte>>)
      requires Valid() && rBound - rBase < len
      modifies this`rBuf, this`rBase, this`rBound, rBuf, transport`input
      ensures Valid() && (rBuf == old(rBuf) || fresh(rBuf))
      ensures r == None <==> old(rBase == rBound) && ParseFrame(old(transport.input), maxFrameSize) == Bad
      ensures r.Some? ==> old(Unread()) == r.value + Unread() && |r.value| <= len
      ensures r.Some? ==> |r.value| == Next(len, old(rBound - rBase), old(transport.input), maxFrameSize)
      ensures r == Some([]) ==> old(rBase == rBound) && NothingNext(old(transport.input), maxFrameSize)
      ensures WellFramed(old(transport.input), maxFrameSize) ==> r.Some? && WellFramed(transport.input, maxFrameSize)
    {
      hide ParseFrame, Contents, WellFramed;
      if rBound - rBase > 0 {
        r := Some(rBuf[rBase..rBound]);
        rBase, rBound := 0, 0;
        assert rBuf[0..0] == [] && [] + Contents(transport.input, maxFrameSize) == Contents(transport.input, maxFrameSize);
        return;
      }
      ghost var tail := Contents(transport.input, maxFrameSize);
      assert old(Unread()) == [] + tail == tail;
      FirstFrame(transport.input, maxFrameSize);
      var got := ReadFrame();
      if got == None { return None; }
      if !got.value {
        assert Unread() == [] + tail;
        return Some([]);
      }
      var piece := Give(len);
      Assoc(piece, rBuf[rBase..rBound], Contents(transport.input, maxFrameSize));
      r := Some(piece);
    }

    /** Hand out what is in the buffer, up to `len` bytes. */
    method Give(len: u32) returns (got: seq<byte>)
      requires Valid()
      modifies this`rBase
      ensures Valid() && old(rBuf[rBase..rBound]) == got + rBuf[rBase..rBound]
      ensures |got| == Min(len, old(rBound - rBase))
    {
      ghost var was := rBuf[rBase..rBound];
      var give := Min(len, rBound - rBase);
      got := rBuf[rBase..rBase + give];
      rBase := rBase + give;
      assert was == got + rBuf[rBase..rBound];
    }

    /** Reads of any sizes, as long as none fails, deliver consecutive pieces. */
    method ReadPieces(lens: seq<u32>) returns (bytes: seq<byte>)
      requires Valid()
      modifies this`rBuf, this`rBase, this`rBound, rBuf, transport`input
      ensures Valid() && bytes <= old(Unread())
    {
      hide Valid, Contents, ParseFrame;
      bytes := [];
      ghost var all := Unread();
      ghost var left := all;
      for i := 0 to |lens|
        invariant Valid() && (rBuf == old(rBuf) || fresh(rBuf))
        invariant left == Unread() && all == bytes + left
      {
        var got := Read(lens[i]);
        if got == None { return; }
        Assoc(bytes, got.value, Unread());
        bytes, left := bytes + got.value, Unread();
      }
    }

    lemma Exhausted()
      requires Valid()
      ensures rBase == rBound && WellFramed(transport.input, maxFrameSize) && NothingNext(transport.input, maxFrameSize)
              ==> Unread() == []
    {
      hide ParseFrame;
      if WellFramed(transport.input, maxFrameSize) && NothingNext(transport.input, maxFrameSize) {
        NothingLeft(transport.input, maxFrameSize);
      }
    }

    /** Reads to the end of well-formed frames deliver everything they hold. */
    method ReadToEnd(len: u32) returns (bytes: seq<byte>)
      requires Valid() && len > 0 && WellFramed(transport.input, maxFrameSize)
      modifies this`rBuf, this`rBase, this`rBound, rBuf, transport`input
      ensures Valid() && bytes == old(Unread()) && Unread() == []
    {
      hide Valid, Contents, ParseFrame;
      bytes := [];
      while true
        invariant Valid() && (rBuf == old(rBuf) || fresh(rBuf)) && WellFramed(transport.input, maxFrameSize)
        invariant old(Unread()) == bytes + Unread()
        decreases |Unread()|
      {
        Exhausted();
        var got := Read(len);
        if got.value == [] { return; }
        Assoc(bytes, got.value, Unread());
        bytes := bytes + got.value;
      }
    }

    /** `readEnd`: the size of the frame with its size word; a large buffer is given back,
        with what was left in it. */
    method ReadEnd() returns (n: nat)
      requires Valid()
      modifies this`rBuf, this`rBase, this`rBound
      ensures Valid() && n == old(rBound) + 4
      ensures if old(rBuf.Length) > reclaimThresh then rBuf.Length == rBase == rBound == 0 && fresh(rBuf)
              else rBuf == old(rBuf) && rBase == old(rBase) && rBound == old(rBound)
    {
      n := rBound + 4;
      if rBuf.Length > reclaimThresh {
        rBuf := new byte[0];
        rBase, rBound := 0, 0;
      }
    }
  }

  lemma FirstFrame(input: seq<byte>, max: u32)
    ensures match ParseFrame(input, max)
            case NoFrame => Contents(input, max) == [] && WellFramed(input, max)
            case Bad => !WellFramed(input, max)
            case Got(p, rest) =>
              && Contents(input, max) == p + Contents(rest, max)
              && (WellFramed(input, max) <==> p != [] && WellFramed(rest, max))
  {
    hide ParseFrame;
  }

  lemma NothingLeft(input: seq<byte>, max: u32)
    requires WellFramed(input, max) && NothingNext(input, max)
    ensures Contents(input, max) == []
  {
  }

  /** What any run of writes and flushes sends is read back to the end, byte for byte, whatever
      the sizes asked for, by a reader that allows the payloads. */
  method SendAndReceive(ops: seq<Op>, sz: u32, len: u32, reclaimThresh: u32, maxFrameSize: u32)
    returns (ok: bool, got: seq<byte>)
    requires len > 0 && Sizes(Payloads(ops, []), Signed32(maxFrameSize))
    requires forall i :: 0 <= i < |ops| && ops[i].Put? ==> |ops[i].bytes| < U32_MODULUS
    ensures ok ==> got == Concat(Payloads(ops, []))
    ensures Moderate(ops, 0) && sz != 0 && sz != 1 && sz != 2 && sz != 4 ==> ok
  {
    hide Contents, ParseFrame, WellFramed, Moderate, Grown, Outgrows;
    FreshBufferTooSmall(sz);
    var there := new Transport([]);
    var writer := new Framer(there, sz, reclaimThresh, maxFrameSize);
    var end := writer.Run(ops);
    if end != Done { return false, []; }
    ok := true;
    ghost var ps := Payloads(ops, []);
    assert there.output == [] + Wire(ps) == Wire(ps);
    WireRoundTrip(ps, maxFrameSize);
    var back := new Transport(there.output);
    var reader := new Framer(back, sz, reclaimThresh, maxFrameSize);
    assert reader.Unread() == [] + Contents(Wire(ps), maxFrameSize) == Concat(ps);
    got := reader.ReadToEnd(len);
  }

  /** From every size that outgrows 2 GiB there is a run of two writes and a flush that ends with
      a payload reported as flushed and not sent. */
  method PayloadNotSent(sz: u32) returns (flushed: bool, sent: seq<byte>)
    requires Outgrows(sz)
    ensures flushed && sent == []
  {
    GrownTwice(sz, 4, INT32_MAX);
    hide Grown, Zeros;
    var transport := new Transport([]);
    var framer := new Framer(transport, sz, U32_MODULUS - 1, 0);
    GrownStep(framer.wBuf.Length, INT32_MAX);
    var first := framer.Write(Zeros(INT32_MAX - 4));
    assert first && framer.wBuf.Length >= INT32_SIGN + 4;
    var second := framer.Write(Zeros(5));
    assert second && |framer.Pending()| == INT32_SIGN;
    flushed := framer.FlushOut();
    sent := transport.output;
  }

  lemma {:induction false} WireConcat(ps: seq<seq<byte>>, qs: seq<seq<byte>>)
    requires Sizes(ps, U32_MODULUS - 1) && Sizes(qs, U32_MODULUS - 1)
    ensures Sizes(ps + qs, U32_MODULUS - 1) && Wire(ps + qs) == Wire(ps) + Wire(qs)
    decreases ps
  {
    hide Framed;
    if ps == [] {
      assert [] + qs == qs && [] + Wire(qs) == Wire(qs);
    } else {
      assert (ps + qs)[1..] == ps[1..] + qs;
      WireConcat(ps[1..], qs);
      Assoc(Framed(ps[0]), Wire(ps[1..]), Wire(qs));
    }
  }
}
