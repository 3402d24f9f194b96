/** The writing half of TFileTransport: the event buffers, and the loop with which the
    writer thread empties one into the file. */
module FileWriter {
  import opened Bytes
  import opened FileLog

  /** `TFileTransportBuffer`: filled with `AddEvent`, then drained with `GetNext`. */
  class EventBuffer {
    const buffer: array<Event>
    var writePoint: nat
    var readPoint: nat
    var reading: bool    // bufferMode_ == READ

    ghost predicate Valid()
      reads this
    {
      readPoint <= writePoint <= buffer.Length && (readPoint > 0 ==> reading)
    }

    ghost function Contents(): seq<Event>
      reads this, buffer
      requires Valid()
    {
      buffer[..writePoint]
    }

    /** What has been added and not yet taken out. */
    ghost function Pending(): seq<Event>
      reads this, buffer
      requires Valid()
    {
      Contents()[readPoint..]
    }

    constructor (size: nat)
      ensures Valid() && fresh(buffer) && buffer.Length == size
      ensures Contents() == [] && !reading
    {
      buffer := new Event[size](_ => []);
      writePoint, readPoint, reading := 0, 0, false;
    }

    method AddEvent(e: Event) returns (added: bool)
      requires Valid() && !reading
      modifies this`writePoint, buffer
      ensures Valid() && !reading
      ensures added <==> old(|Contents()|) < buffer.Length
      ensures Contents() == if added then old(Contents()) + [e] else old(Contents())
    {
      if writePoint < buffer.Length {
        buffer[writePoint] := e;
        writePoint := writePoint + 1;
        return true;
      }
      return false;
    }

    method GetNext() returns (e: Option<Event>)
      requires Valid()
      modifies this`readPoint, this`reading
      ensures Valid() && reading
      ensures e == None <==> old(readPoint) == writePoint
      ensures e == None ==> readPoint == writePoint
      ensures e.Some? ==> readPoint == old(readPoint) + 1 && e.value == Contents()[old(readPoint)]
    {
      reading := true;
      if readPoint < writePoint {
        readPoint := readPoint + 1;
        return Some(buffer[readPoint - 1]);
      }
      return None;
    }

    method Reset()
      requires Valid()
      modifies this`readPoint, this`writePoint, this`reading
      ensures Valid() && Contents() == [] && !reading
    {
      writePoint, readPoint, reading := 0, 0, false;
    }
  }

  /** The distance to the next chunk boundary, worked out as the writer does. */
  function PaddingToNextChunk(chunk: nat, off: nat): (n: int)
    requires chunk > 0
    ensures n == chunk - off % chunk > 0
  {
    assert (off / chunk + 1) * chunk == off / chunk * chunk + chunk;
    (off / chunk + 1) * chunk - off
  }

  /** One event moves from the pending part of a layout to the written part. */
  lemma DrainStep(cfg: Config, off: nat, all: seq<Event>, i: nat, written: seq<byte>)
    requires cfg.Valid() && i < |all|
    ensures var t := Emit(cfg, off, all[i]);
            && written + LayoutFrom(cfg, off, all[i..])
               == (written + t) + LayoutFrom(cfg, off + |t|, all[i + 1..])
            && WriterAborts(cfg, off, all[i..])
               == (StopsWriter(cfg, off, all[i]) || WriterAborts(cfg, off + |t|, all[i + 1..]))
  {
  }

  /** Nothing is pending. */
  lemma DrainDone(cfg: Config, off: nat, written: seq<byte>)
    requires cfg.Valid()
    ensures written + LayoutFrom(cfg, off, []) == written && !WriterAborts(cfg, off, [])
  {
  }

  class LogWriter {
    const cfg: Config
    var file: seq<byte>    // what the descriptor, opened for appending, has received
    var offset: nat

    ghost predicate Valid()
      reads this
    {
      cfg.Valid() && offset == |file|
    }

    constructor (cfg: Config)
      requires cfg.Valid()
      ensures Valid() && this.cfg == cfg && file == []
    {
      this.cfg, file, offset := cfg, [], 0;
    }

    /** One event: dropped, or written behind the padding that keeps it in one chunk. */
    method WriteEvent(e: Event) returns (aborted: bool)
      requires Valid()
      modifies this
      ensures Valid()
      ensures aborted <==> StopsWriter(cfg, old(offset), e)
      ensures file == if aborted then old(file) else old(file) + Emit(cfg, old(offset), e)
    {
      hide PaddingToNextChunk, Record, RecordSize;
      var eventSize := RecordSize(e);
      if cfg.maxEventSize > 0 && eventSize > cfg.maxEventSize {
        return false;
      }
      ghost var pad := Padding(cfg.chunkSize, offset, eventSize);
      if eventSize > 0 {
        if eventSize > cfg.chunkSize {
          return false;
        }
        var chunk1 := offset / cfg.chunkSize;
        var chunk2 := (offset + eventSize - 1) / cfg.chunkSize;
        if chunk1 != chunk2 {
          var padding := PaddingToNextChunk(cfg.chunkSize, offset);
          if padding > INT32_MAX {
            return true;
          }
          file := file + Zeros(padding);
          offset := offset + padding;
        }
      }
      WriteRecord(e, old(file), pad);
      return false;
    }

    method WriteRecord(e: Event, ghost before: seq<byte>, ghost pad: nat)
      requires Valid() && file == before + (if pad == 0 then [] else Zeros(pad))
      modifies this
      ensures Valid() && file == before + (Zeros(pad) + Record(e)[..RecordSize(e)])
    {
      var eventSize := RecordSize(e);
      assert before + Zeros(pad) == file;
      if eventSize > 0 {
        file := file + Record(e)[..eventSize];
        offset := offset + eventSize;
      }
    }

    /** The dequeue loop of `writerThread`: what one buffer adds to the file. */
    method Drain(events: EventBuffer) returns (aborted: bool)
      requires Valid() && events.Valid()
      modifies this, events`readPoint, events`writePoint, events`reading
      ensures Valid() && events.Valid()
      ensures aborted <==> WriterAborts(cfg, old(offset), old(events.Pending()))
      ensures !aborted ==> file == old(file) + LayoutFrom(cfg, old(offset), old(events.Pending()))
                           && events.Contents() == [] && !events.reading
    {
      hide Emit, StopsWriter, LayoutFrom, WriterAborts;
      ghost var all := events.Contents();
      ghost var first, start := events.readPoint, offset;
      ghost var i := first;
      var next := events.GetNext();
      while next.Some?
        invariant Valid() && events.Valid() && first <= i <= |all| && events.Contents() == all
        invariant events.readPoint == i + (if next.Some? then 1 else 0)
        invariant if next.Some? then i < |all| && next.value == all[i] else i == |all|
        invariant old(file) + LayoutFrom(cfg, start, all[first..]) == file + LayoutFrom(cfg, offset, all[i..])
        invariant WriterAborts(cfg, start, all[first..]) == WriterAborts(cfg, offset, all[i..])
        decreases |all| - i
      {
        DrainStep(cfg, offset, all, i, file);
        aborted := WriteEvent(next.value);
        if aborted {
          return;
        }
        i := i + 1;
        next := events.GetNext();
      }
      assert all[i..] == [];
      DrainDone(cfg, offset, file);
      events.Reset();
      aborted := false;
    }
  }
}
