/** The reading half of TFileTransport: `readEvent`, resumable over any split of the file
    into reads. */
module FileReader {
  import opened Bytes
  import opened FileLog
  import FileWriter

  /** The `eventInfo` under construction: its declared size and what has been copied in. */
  datatype EventInfo = EventInfo(size: nat, buff: seq<byte>)

  class LogReader {
    const cfg: Config
    const readTimeout: nat        // 0 is NO_TAIL_READ_TIMEOUT
    const file: seq<byte>
    var filePos: nat              // position of the descriptor
    var offset: nat               // file offset of readBuff[0]
    const readBuff: array<byte>
    var bufferPtr: nat
    var bufferLen: nat
    var lastDispatchPtr: nat
    var readingSize: bool
    const eventSizeBuff: array<byte>
    var eventSizeBuffPos: nat
    var event: Option<EventInfo>

    ghost predicate Valid()
      reads this, readBuff, eventSizeBuff
    {
      && cfg.Valid() && readBuff != eventSizeBuff
      && readBuff.Length > 0 && eventSizeBuff.Length == 4
      && bufferPtr <= bufferLen <= readBuff.Length
      && filePos == offset + bufferLen <= |file|
      && readBuff[..bufferLen] == file[offset..filePos]
      && (readingSize ==> eventSizeBuffPos < 4 && eventSizeBuffPos <= Pos())
      && (!readingSize ==> event.Some? && |event.value.buff| < event.value.size)
    }

    /** The absolute offset of the next byte to be looked at. */
    ghost function Pos(): nat
      reads this
    {
      offset + bufferPtr
    }

    ghost function State(): Parser
      reads this, readBuff, eventSizeBuff
      requires Valid()
    {
      if readingSize then Sizing(eventSizeBuff[..eventSizeBuffPos])
      else Filling(event.value.size, event.value.buff)
    }

    constructor (cfg: Config, file: seq<byte>, readBuffSize: nat, readTimeout: nat)
      requires cfg.Valid() && readBuffSize > 0
      ensures Valid() && fresh(readBuff) && fresh(eventSizeBuff)
      ensures this.cfg == cfg && this.file == file
      ensures Pos() == 0 && State() == Sizing([])
    {
      this.cfg, this.file, this.readTimeout := cfg, file, readTimeout;
      readBuff := new byte[readBuffSize](_ => 0);
      eventSizeBuff := new byte[4](_ => 0);
      filePos, offset, bufferPtr, bufferLen, lastDispatchPtr := 0, 0, 0, 0, 0;
      readingSize, eventSizeBuffPos, event := true, 0, None;
    }

    /** `::read`: some bytes, as many as it likes, or none at end of file. */
    method FileRead() returns (got: nat)
      requires readBuff.Length > 0 && filePos <= |file|
      modifies this`filePos, readBuff
      ensures got <= readBuff.Length && filePos == old(filePos) + got <= |file|
      ensures got == 0 <==> old(filePos) == |file|
      ensures readBuff[..got] == file[old(filePos)..filePos]
    {
      var most := Min(readBuff.Length, |file| - filePos);
      got := if most == 0 then 0 else 1;
      if * {
        got := most;
      } else {
        // any split in between
        while got < most
          invariant got <= most && (got == 0 <==> most == 0)
        {
          if * { break; }
          got := got + 1;
        }
      }
      forall i | 0 <= i < got {
        readBuff[i] := file[filePos + i];
      }
      filePos := filePos + got;
    }

    method ResetState(dispatch: nat)
      modifies this`readingSize, this`eventSizeBuffPos, this`lastDispatchPtr
      ensures readingSize && eventSizeBuffPos == 0 && lastDispatchPtr == dispatch
    {
      readingSize, eventSizeBuffPos, lastDispatchPtr := true, 0, dispatch;
    }

    /** One turn of the inner loop of `readEvent`: skip a byte, take a byte of the size
        word, or copy payload out of the read buffer. */
    method Advance() returns (o: Option<Outcome>)
      requires Valid() && bufferPtr < bufferLen
      modifies this`bufferPtr, this`lastDispatchPtr, this`readingSize
      modifies this`eventSizeBuffPos, this`event, eventSizeBuff
      ensures Valid()
      ensures o == None ==> old(Pos()) < Pos()
                            && Parse(cfg, file, Pos(), State()) == old(Parse(cfg, file, Pos(), State()))
      ensures o.Some? ==> o.value == old(Parse(cfg, file, Pos(), State())) && !o.value.Eof?
      ensures o.Some? && o.value.Got? ==> Pos() == o.value.next && State() == Sizing([])
    {
      if readingSize {
        o := AdvanceSize();
      } else {
        o := AdvancePayload();
      }
    }

    method AdvanceSize() returns (o: Option<Outcome>)
      requires Valid() && bufferPtr < bufferLen && readingSize
      modifies this`bufferPtr, this`lastDispatchPtr, this`readingSize
      modifies this`eventSizeBuffPos, this`event, eventSizeBuff
      ensures Valid()
      ensures o == None ==> Pos() == old(Pos()) + 1
                            && Parse(cfg, file, Pos(), State()) == old(Parse(cfg, file, Pos(), State()))
      ensures o.Some? ==> o.value == old(Parse(cfg, file, Pos(), State())) && o.value.Corrupt?
    {
      hide Parse, IsEventCorrupted, FromLittleEndian32;
      ghost var word := eventSizeBuff[..eventSizeBuffPos];
      ghost var p := Pos();
      if eventSizeBuffPos == 0 {
        assert word == [];
        if (offset + bufferPtr) / cfg.chunkSize != (offset + bufferPtr + 3) / cfg.chunkSize {
          SkipStep(cfg, file, p);
          bufferPtr := bufferPtr + 1;
          return None;
        }
      }
      SizingStep(cfg, file, p, word);
      NextByte();
      TakeByte();
      if eventSizeBuffPos == 4 {
        var size := FromLittleEndian32(eventSizeBuff[..]);
        assert eventSizeBuff[..] == eventSizeBuff[..4];
        if size == 0 {
          ResetState(lastDispatchPtr);
          assert eventSizeBuff[..eventSizeBuffPos] == [];
          return None;
        }
        readingSize := false;
        event := Some(EventInfo(size, []));
        if IsEventCorrupted(cfg, offset + bufferPtr, size) {
          return Some(Corrupt(offset + bufferPtr));
        }
      }
      return None;
    }

    /** `readState_.eventSizeBuff_[…++] = readBuff_[…++]`. */
    method TakeByte()
      requires bufferPtr < readBuff.Length && eventSizeBuffPos < eventSizeBuff.Length
      modifies this`bufferPtr, this`eventSizeBuffPos, eventSizeBuff
      ensures bufferPtr == old(bufferPtr) + 1 && eventSizeBuffPos == old(eventSizeBuffPos) + 1
      ensures eventSizeBuff[..eventSizeBuffPos] == old(eventSizeBuff[..eventSizeBuffPos]) + [old(readBuff[bufferPtr])]
    {
      eventSizeBuff[eventSizeBuffPos] := readBuff[bufferPtr];
      eventSizeBuffPos, bufferPtr := eventSizeBuffPos + 1, bufferPtr + 1;
    }

    lemma NextByte()
      requires Valid() && bufferPtr < bufferLen
      ensures readBuff[bufferPtr] == file[Pos()]
    {
      assert readBuff[bufferPtr] == readBuff[..bufferLen][bufferPtr];
    }

    method AdvancePayload() returns (o: Option<Outcome>)
      requires Valid() && bufferPtr < bufferLen && !readingSize
      modifies this`bufferPtr, this`lastDispatchPtr, this`readingSize
      modifies this`eventSizeBuffPos, this`event
      ensures Valid()
      ensures o == None ==> old(Pos()) < Pos()
                            && Parse(cfg, file, Pos(), State()) == old(Parse(cfg, file, Pos(), State()))
      ensures o.Some? ==> o.value == old(Parse(cfg, file, Pos(), State())) && o.value.Got?
                          && Pos() == o.value.next && State() == Sizing([])
    {
      hide Parse;
      var e := event.value;
      var reclaim := Min(bufferLen - bufferPtr, e.size - |e.buff|);
      ghost var p := Pos();
      var piece := readBuff[bufferPtr..bufferPtr + reclaim];
      var more := e.buff + piece;
      ghost var want := file[p..p + reclaim];
      forall i | 0 <= i < reclaim ensures piece[i] == want[i] {
        assert piece[i] == readBuff[..bufferLen][bufferPtr + i];
      }
      assert piece == want;
      bufferPtr := bufferPtr + reclaim;
      if |more| == e.size {
        FillAll(cfg, file, p, e.size, e.buff);
        event := None;
        ResetState(bufferPtr);
        assert eventSizeBuff[..eventSizeBuffPos] == [];
        return Some(Got(more, offset + bufferPtr));
      } else {
        FillSome(cfg, file, p, e.size, e.buff, reclaim);
        event := Some(e.(buff := more));
        return None;
      }
    }

    /** `readEvent`. Its result depends on the file, the position and the partial event
        only: how the reads were split makes no difference. */
    method ReadEvent() returns (o: Outcome)
      requires Valid()
      modifies this, readBuff, eventSizeBuff
      ensures Valid()
      ensures o == old(Parse(cfg, file, Pos(), State()))
      ensures o.Got? ==> Pos() == o.next && State() == Sizing([])
      ensures o.Eof? ==> Pos() == |file| && State() == Sizing([])
    {
      hide Parse;
      ghost var goal := Parse(cfg, file, Pos(), State());
      var readTries := 0;
      while true
        invariant Valid() && Parse(cfg, file, Pos(), State()) == goal
        invariant 0 <= readTries <= 1
        decreases |file| - Pos(), 1 - readTries
      {
        if bufferPtr == bufferLen {
          Refill();
          if bufferLen == 0 {
            if readTimeout == 0 || readTries > 0 {
              AtEndOfFile(cfg, file, State());
              ResetState(0);
              assert eventSizeBuff[..eventSizeBuffPos] == [];
              return Eof;
            } else {
              readTries := readTries + 1;
              continue;
            }
          }
        }
        readTries := 0;
        ghost var start := Pos();
        while bufferPtr < bufferLen
          invariant Valid() && Parse(cfg, file, Pos(), State()) == goal
          invariant start < Pos() || (start == Pos() && bufferPtr < bufferLen)
          decreases |file| - Pos()
        {
          var done := Advance();
          if done.Some? {
            return done.value;
          }
        }
      }
    }

    /** The loop of the replaying processor: events are read until there is none. */
    method ReadEvents() returns (events: seq<seq<byte>>, end: Outcome)
      requires Valid() && State() == Sizing([])
      modifies this, readBuff, eventSizeBuff
      ensures Valid() && (events, end) == old(ReadAll(cfg, file, Pos()))
    {
      hide Parse;
      events := [];
      assert [] + ReadAll(cfg, file, Pos()).0 == ReadAll(cfg, file, Pos()).0;
      while true
        invariant Valid() && State() == Sizing([])
        invariant var rest := ReadAll(cfg, file, Pos()); old(ReadAll(cfg, file, Pos())) == (events + rest.0, rest.1)
        decreases |file| - Pos()
      {
        Onward(cfg, file, Pos());
        end := ReadEvent();
        if !end.Got? {
          assert events + [] == events;
          return;
        }
        ghost var rest := ReadAll(cfg, file, Pos());
        assert events + ([end.event] + rest.0) == events + [end.event] + rest.0;
        events := events + [end.event];
      }
    }

    /** The read buffer is exhausted: move past it and read again. */
    method Refill()
      requires Valid() && bufferPtr == bufferLen
      modifies this`offset, this`bufferPtr, this`bufferLen, this`lastDispatchPtr, this`filePos, readBuff
      ensures Valid() && Pos() == old(Pos()) && State() == old(State())
      ensures bufferPtr == 0 && (bufferLen == 0 <==> Pos() == |file|)
    {
      offset := offset + bufferLen;
      bufferLen := FileRead();
      bufferPtr, lastDispatchPtr := 0, 0;
    }
  }
  /** An event that is returned lies behind where it was looked for. */
  lemma Onward(cfg: Config, file: seq<byte>, p: nat)
    requires cfg.Valid() && p <= |file|
    ensures var o := Parse(cfg, file, p, Sizing([])); o.Got? ==> p < o.next <= |file|
  {
  }

  /** A writer stops over two batches if it does over one of them. */
  lemma {:induction false} AbortsSplits(cfg: Config, off: nat, a: seq<Event>, b: seq<Event>)
    requires cfg.Valid()
    ensures WriterAborts(cfg, off, a + b)
       <==> WriterAborts(cfg, off, a) || WriterAborts(cfg, off + |LayoutFrom(cfg, off, a)|, b)
    decreases |a|
  {
    hide Emit, StopsWriter;
    if a == [] {
      assert [] + b == b;
    } else {
      assert (a + b)[1..] == a[1..] + b;
      AbortsSplits(cfg, off + |Emit(cfg, off, a[0])|, a[1..], b);
    }
  }

  /** Events put through a buffer into a log, whenever the buffer is full, and read back. */
  method WriteAndRead(cfg: Config, es: seq<Event>, bufferSize: nat, readBuffSize: nat, readTimeout: nat)
    returns (stopped: bool, events: seq<seq<byte>>, end: Outcome)
    requires cfg.Valid() && bufferSize > 0 && readBuffSize > 0 && AllEnqueueable(cfg, es)
    ensures stopped <==> WriterAborts(cfg, 0, es)
    ensures !stopped ==> ((events, end) == (Kept(cfg, es), Eof) <==> NoneWraps(cfg, es))
  {
    hide LayoutFrom, WriterAborts, ReadAll, Kept;
    events, end := [], Eof;
    var file: seq<byte>;
    stopped, file := WriteLog(cfg, es, bufferSize);
    if stopped { return; }
    RoundTrip(cfg, es);
    var reader := new LogReader(cfg, file, readBuffSize, readTimeout);
    events, end := reader.ReadEvents();
  }

  method WriteLog(cfg: Config, es: seq<Event>, bufferSize: nat) returns (stopped: bool, file: seq<byte>)
    requires cfg.Valid() && bufferSize > 0
    ensures stopped <==> WriterAborts(cfg, 0, es)
    ensures !stopped ==> file == Layout(cfg, es)
  {
    hide LayoutFrom, WriterAborts, Remains;
    var buffer := new FileWriter.EventBuffer(bufferSize);
    var writer := new FileWriter.LogWriter(cfg);
    var i := 0;
    file := [];
    assert es[0..] == es;
    AllRemains(cfg, es);
    while i < |es|
      invariant i <= |es| && writer.Valid() && writer.cfg == cfg && Remains(cfg, es, writer.file, es[i..])
      invariant buffer.Valid() && !buffer.reading && buffer.Contents() == [] && buffer.buffer.Length == bufferSize
      invariant fresh(writer) && fresh(buffer) && fresh(buffer.buffer)
    {
      var j := Fill(buffer, es, i);
      assert es[i..] == es[i..j] + es[j..] && buffer.Pending() == es[i..j];
      BatchWritten(cfg, es, writer.file, es[i..j], es[j..]);
      stopped := writer.Drain(buffer);
      if stopped { return; }
      i := j;
    }
    assert es[i..] == [];
    NothingRemains(cfg, es, writer.file);
    return false, writer.file;
  }

  /** Events are added until the buffer is full. */
  method Fill(buffer: FileWriter.EventBuffer, es: seq<Event>, i: nat) returns (j: nat)
    requires buffer.Valid() && !buffer.reading && buffer.Contents() == [] && buffer.buffer.Length > 0 && i < |es|
    modifies buffer`writePoint, buffer.buffer
    ensures buffer.Valid() && !buffer.reading && i < j <= |es| && buffer.Contents() == es[i..j]
  {
    j := i;
    while j < |es|
      invariant buffer.Valid() && !buffer.reading && i <= j <= |es| && buffer.Contents() == es[i..j]
    {
      var added := buffer.AddEvent(es[j]);
      if !added { return; }
      j := j + 1;
    }
  }

  /** Of the events `es`, those in `left` are still to be written to the file. */
  predicate Remains(cfg: Config, es: seq<Event>, file: seq<byte>, left: seq<Event>)
    requires cfg.Valid()
  {
    && Layout(cfg, es) == file + LayoutFrom(cfg, |file|, left)
    && (WriterAborts(cfg, 0, es) <==> WriterAborts(cfg, |file|, left))
  }

  lemma AllRemains(cfg: Config, es: seq<Event>)
    requires cfg.Valid()
    ensures Remains(cfg, es, [], es)
  {
    hide LayoutFrom, WriterAborts;
    assert [] + LayoutFrom(cfg, 0, es) == LayoutFrom(cfg, 0, es);
  }

  lemma NothingRemains(cfg: Config, es: seq<Event>, file: seq<byte>)
    requires cfg.Valid() && Remains(cfg, es, file, [])
    ensures file == Layout(cfg, es) && !WriterAborts(cfg, 0, es)
  {
    hide Layout;
    assert file + [] == file;
  }

  lemma BatchWritten(cfg: Config, es: seq<Event>, file: seq<byte>, batch: seq<Event>, left: seq<Event>)
    requires cfg.Valid() && Remains(cfg, es, file, batch + left)
    ensures if WriterAborts(cfg, |file|, batch) then WriterAborts(cfg, 0, es)
            else Remains(cfg, es, file + LayoutFrom(cfg, |file|, batch), left)
  {
    hide LayoutFrom, WriterAborts, Layout;
    OneBatch(cfg, file, batch, left);
  }

  lemma OneBatch(cfg: Config, file: seq<byte>, batch: seq<Event>, left: seq<Event>)
    requires cfg.Valid()
    ensures var more := file + LayoutFrom(cfg, |file|, batch);
            && file + LayoutFrom(cfg, |file|, batch + left) == more + LayoutFrom(cfg, |more|, left)
            && (WriterAborts(cfg, |file|, batch + left)
                <==> WriterAborts(cfg, |file|, batch) || WriterAborts(cfg, |more|, left))
  {
    hide *;
    var written := LayoutFrom(cfg, |file|, batch);
    assert |file + written| == |file| + |written|;
    LayoutSplits(cfg, |file|, batch, left);
    AbortsSplits(cfg, |file|, batch, left);
    Assoc(file, written, LayoutFrom(cfg, |file| + |written|, left));
  }
}
