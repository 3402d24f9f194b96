/** The sections of TFileTransport under its mutex, over the two buffers it exchanges; each
    is a step of the protocol. */
module FileQueueImpl {
  import opened Bytes
  import opened FileLog
  import W = FileWriter
  import opened Q = FileQueue

  class Queue {
    const cfg: Config
    const size: nat                      // eventBufferSize_
    var closing: bool
    var forceFlush: bool
    var enqueueBuffer: W.EventBuffer
    var dequeueBuffer: W.EventBuffer
    const log: W.LogWriter               // the file, and the loop that writes it
    ghost var accepted: seq<Event>
    ghost var handled: seq<Event>
    var producer: Producer
    var writer: Writer                   // NotStarted until the buffers are initialised

    ghost predicate Valid()
      reads this, enqueueBuffer, dequeueBuffer, log
    {
      && log.Valid() && log.cfg == cfg
      && enqueueBuffer != dequeueBuffer && enqueueBuffer.buffer != dequeueBuffer.buffer
      && enqueueBuffer.Valid() && dequeueBuffer.Valid()
      && enqueueBuffer.buffer.Length == size == dequeueBuffer.buffer.Length
    }

    /** The state of the protocol. */
    ghost function Now(): State
      reads this, enqueueBuffer, dequeueBuffer, enqueueBuffer.buffer, dequeueBuffer.buffer, log
      requires Valid()
    {
      State(cfg, size, closing, forceFlush, Value(enqueueBuffer), Value(dequeueBuffer), log.file, accepted, handled,
            producer, writer)
    }

    static ghost function Value(b: W.EventBuffer): Buffer
      reads b, b.buffer
      requires b.Valid()
    {
      Buffer(b.Contents(), b.readPoint, b.reading)
    }

    constructor (cfg: Config, size: nat)
      requires cfg.Valid()
      ensures Valid() && Q.Init(Now()) && this.cfg == cfg && this.size == size
      ensures fresh(enqueueBuffer) && fresh(dequeueBuffer) && fresh(enqueueBuffer.buffer) && fresh(dequeueBuffer.buffer)
      ensures fresh(log) && Inv(Now())
    {
      this.cfg, this.size := cfg, size;
      closing, forceFlush, producer, writer := false, false, Idle, NotStarted;
      enqueueBuffer := new W.EventBuffer(size);
      dequeueBuffer := new W.EventBuffer(size);
      log := new W.LogWriter(cfg);
      accepted, handled := [], [];
      new;
      InitInv(Now());
    }

    /** `initBufferAndWriteThread`. */
    method StartWriter()
      requires Valid() && writer == NotStarted
      modifies this`enqueueBuffer, this`dequeueBuffer, this`writer
      ensures Valid() && Now() == Q.StartWriter(old(Now()))
      ensures fresh(enqueueBuffer) && fresh(dequeueBuffer) && fresh(enqueueBuffer.buffer)
    {
      enqueueBuffer := new W.EventBuffer(size);
      dequeueBuffer := new W.EventBuffer(size);
      writer := Top;
    }

    /** The section of `enqueueEvent`, up to where it has added its event or has to wait. */
    method EnqueueSection()
      requires Valid() && Inv(Now()) && producer.Enqueueing?
      modifies this, enqueueBuffer, enqueueBuffer.buffer
      ensures Valid() && Enqueue(old(Now()), Now()) && Inv(Now())
    {
      hide Inv;
      if writer == NotStarted {
        StartWriter();
      }
      InWriteMode(old(Now()));
      if enqueueBuffer.writePoint == size {
        producer := AwaitNotFull(producer.e);
      } else {
        AddToBuffer(producer.e);
      }
      EnqueueKeeps(old(Now()), Now());
    }

    static lemma InWriteMode(s: State)
      requires Inv(s)
      ensures !s.enqueue.reading
      ensures s.producer.Enqueueing? || s.producer.AwaitNotFull? ==> !s.forceFlush
    {
    }

    /** The source asserts that no flush is under way. */
    method AddToBuffer(e: Event)
      requires Valid() && !enqueueBuffer.reading && enqueueBuffer.writePoint < size && !forceFlush
      modifies this`accepted, this`producer, enqueueBuffer`writePoint, enqueueBuffer.buffer
      ensures Valid() && Now() == Added(old(Now()), e)
    {
      var _ := enqueueBuffer.AddEvent(e);
      accepted := accepted + [e];
      producer := Idle;
    }

    /** `enqueueEvent` wakes from its wait. */
    method WakeProducerSection()
      requires Valid() && Inv(Now()) && producer.AwaitNotFull?
      modifies this, enqueueBuffer, enqueueBuffer.buffer
      ensures Valid() && WakeProducer(old(Now()), Now()) && Inv(Now())
    {
      hide Inv;
      InWriteMode(Now());
      if enqueueBuffer.writePoint < size {
        AddToBuffer(producer.e);
      }
      WakeProducerKeeps(old(Now()), Now());
    }

    /** `flush`, up to its wait. If it does not wait, there was nothing to flush. */
    method FlushSection()
      requires Valid() && Inv(Now()) && producer == Idle && !closing
      modifies this`forceFlush, this`producer
      ensures Valid() && CallFlush(old(Now()), Now()) && Inv(Now())
      ensures producer == Idle ==> Complete(Now())
    {
      if writer == NotStarted { return; }
      forceFlush := true;
      producer := AwaitFlush;
      CallsKeep(old(Now()), Now());
    }

    /** The end of its wait: everything accepted is in the file, or was dropped. */
    method FlushReturns()
      requires Valid() && Inv(Now()) && producer == AwaitFlush && !forceFlush
      modifies this`producer
      ensures Valid() && ReturnFromFlush(old(Now()), Now()) && Inv(Now())
      ensures handled == accepted && log.file == Layout(cfg, accepted)
    {
      producer := Idle;
      CallsKeep(old(Now()), Now());
    }

    /** `swapEventBuffers`, up to its wait if it waits. */
    method SwapSection()
      requires Valid() && Inv(Now()) && writer == Swapping
      modifies this`enqueueBuffer, this`dequeueBuffer, this`writer
      ensures Valid() && SwapOrWait(old(Now()), Now()) && Inv(Now())
    {
      if enqueueBuffer.writePoint != 0 {
        Exchange();
      } else if closing {
        writer := CheckFlush;
      } else {
        writer := AwaitNotEmpty;
      }
      SwapKeeps(old(Now()), Now());
    }

    /** The same after its wait. */
    method AfterWaitSection()
      requires Valid() && Inv(Now()) && writer == AwaitNotEmpty
      modifies this`enqueueBuffer, this`dequeueBuffer, this`writer
      ensures Valid() && WakeWriter(old(Now()), Now()) && Inv(Now())
    {
      if enqueueBuffer.writePoint == 0 {
        Exchange();
      } else {
        writer := CheckFlush;
      }
      SwapKeeps(old(Now()), Now());
    }

    /** Two pointers are exchanged. */
    method Exchange()
      requires Valid()
      modifies this`enqueueBuffer, this`dequeueBuffer, this`writer
      ensures Valid() && Now() == Swapped(old(Now()))
    {
      var temp := enqueueBuffer;
      enqueueBuffer := dequeueBuffer;
      dequeueBuffer := temp;
      writer := Draining;
    }

    /** One turn of the writer's loop over the dequeue buffer, which it alone uses. It ends the
        process exactly when the padding before the next event comes out negative. */
    method DrainTurn() returns (stopped: bool)
      requires Valid() && Inv(Now()) && writer == Draining
      modifies this`handled, this`writer, dequeueBuffer`readPoint, dequeueBuffer`writePoint, dequeueBuffer`reading, log
      ensures stopped <==> old(dequeueBuffer.Pending()) != []
                           && StopsWriter(cfg, |old(log.file)|, old(dequeueBuffer.Pending())[0])
      ensures !stopped ==> Valid() && Inv(Now()) && (DrainOne(old(Now()), Now()) || DrainEnd(old(Now()), Now()))
    {
      hide Inv, Emit, StopsWriter;
      var e := dequeueBuffer.GetNext();
      match e
      case None =>
        dequeueBuffer.Reset();
        writer := CheckFlush;
        ControlKeeps(old(Now()), Now());
        return false;
      case Some(event) =>
        stopped := log.WriteEvent(event);
        if !stopped {
          handled := handled + [event];
          DrainOneKeeps(old(Now()), Now());
        }
    }

    /** The section that looks at `forceFlush_`. A flush is answered only when everything
        accepted has been handled. */
    method ReadForceFlushSection()
      requires Valid() && Inv(Now()) && writer == CheckFlush
      modifies this`writer
      ensures Valid() && ReadForceFlush(old(Now()), Now()) && Inv(Now())
      ensures writer == Deciding(true) ==> handled == accepted && log.file == Layout(cfg, accepted)
    {
      if !forceFlush {
        writer := Deciding(false);
      } else if enqueueBuffer.writePoint != 0 {
        writer := Top;
      } else {
        writer := Deciding(true);
      }
      ControlKeeps(old(Now()), Now());
    }

    /** The section that answers a forced flush; both assertions of the source hold. */
    method DecideSection()
      requires Valid() && Inv(Now()) && writer.Deciding?
      modifies this`forceFlush, this`writer
      ensures Valid() && Decide(old(Now()), Now()) && Inv(Now())
      ensures old(writer).forced ==> enqueueBuffer.Contents() == [] && dequeueBuffer.Contents() == []
    {
      if writer.forced {
        forceFlush := false;
        assert enqueueBuffer.writePoint == 0 && dequeueBuffer.writePoint == 0;
      }
      writer := Top;
      ControlKeeps(old(Now()), Now());
    }
  }
}
