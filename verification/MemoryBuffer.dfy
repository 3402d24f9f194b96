/** TMemoryBuffer: a byte queue in a growing buffer whose read bound may lag behind. */
module MemoryBuffer {
  import opened Bytes

  const DEFAULT_SIZE: nat := 1024

  /** `exp2(ceil(log2(n)))`. */
  function CeilPow2(n: nat): nat
    requires n > 0
  {
    if n == 1 then 1 else 2 * CeilPow2((n + 1) / 2)
  }

  /** It is the least power of two that is not below `n`. */
  lemma {:induction false} CeilPow2IsLeast(n: nat, p: nat)
    requires n > 0
    ensures PowerOfTwo(CeilPow2(n)) && n <= CeilPow2(n) < 2 * n
    ensures PowerOfTwo(p) && p >= n ==> CeilPow2(n) <= p
    decreases n
  {
    if n > 1 {
      CeilPow2IsLeast((n + 1) / 2, p / 2);
      assert 2 * CeilPow2((n + 1) / 2) / 2 == CeilPow2((n + 1) / 2);
    }
  }

  /** The size to grow to. */
  function NewSize(required: nat, max: u32): nat
    requires 0 < required <= max
  {
    Min(CeilPow2(required), max)
  }

  /** A buffer grows to the least power of two that is large enough, or to its maximum if that power
      is above it. */
  lemma GrowsTo(required: nat, max: u32, p: nat)
    requires 0 < required <= max && PowerOfTwo(p) && required <= p < 2 * required
    ensures NewSize(required, max) == if p <= max then p else max
  {
    CeilPow2IsLeast(required, p);
    PowerGap(CeilPow2(required), p);
    PowerGap(p, CeilPow2(required));
  }

  datatype Refusal = Insufficient | TooLarge | TooMuch | NotBorrowed | BelowCurrent

  datatype Policy = Observe | Copy | TakeOwnership

  class MemoryBuffer {
    var buffer: array<byte>
    var bufferSize: nat
    var rBase: nat
    var rBound: nat            // up to here reads take the fast path; may lag behind wBase
    var wBase: nat
    var wBound: nat
    var owner: bool
    var maxBufferSize: u32

    ghost predicate Valid()
      reads this
    {
      && rBase <= rBound <= wBase <= wBound == bufferSize <= buffer.Length < U32_MODULUS
    }

    /** The bytes in the queue. */
    ghost function Contents(): seq<byte>
      reads this, buffer
      requires Valid()
    {
      buffer[rBase..wBase]
    }

    constructor (size: u32)
      ensures Valid() && Contents() == [] && owner && maxBufferSize == U32_MODULUS - 1
      ensures bufferSize == size && rBase == 0 && fresh(buffer)
    {
      buffer, bufferSize := new byte[size], size;
      rBase, rBound, wBase, wBound := 0, 0, 0, size;
      owner, maxBufferSize := true, U32_MODULUS - 1;
    }

    /** On memory of the caller: observed or taken over as it is, full; or copied. */
    constructor On(buf: array<byte>, policy: Policy)
      requires buf.Length < U32_MODULUS
      ensures Valid() && Contents() == buf[..] && rBase == 0
      ensures owner == !policy.Observe? && (if policy.Copy? then fresh(buffer) else buffer == buf)
      ensures maxBufferSize == U32_MODULUS - 1 && bufferSize == buf.Length
    {
      if policy.Copy? {
        buffer := new byte[buf.Length](i requires 0 <= i < buf.Length reads buf => buf[i]);
      } else {
        buffer := buf;
      }
      // a copy is written through the fast path, which leaves the read bound behind
      rBase, rBound := 0, if policy.Copy? then 0 else buf.Length;
      bufferSize, wBase, wBound := buf.Length, buf.Length, buf.Length;
      owner, maxBufferSize := !policy.Observe?, U32_MODULUS - 1;
      new;
      assert buffer[..] == buf[..];
    }

    // ---------------------------------------------------------------- reading

    /** `computeRead`: the bound is corrected first. */
    method ComputeRead(len: u32) returns (start: nat, give: nat)
      requires Valid()
      modifies this`rBase, this`rBound
      ensures Valid() && start == old(rBase) && give == Min(len, |old(Contents())|) && rBase == start + give
      ensures rBound == wBase
    {
      rBound := wBase;
      give := Min(len, wBase - rBase);
      start := rBase;
      rBase := rBase + give;
    }

    /** `read`: the next bytes of the queue, as many as asked for or all there are, whether
        or not the fast path was taken. */
    method Read(len: u32) returns (got: seq<byte>)
      requires Valid()
      modifies this`rBase, this`rBound
      ensures Valid() && |got| == Min(len, |old(Contents())|)
      ensures old(Contents()) == got + Contents()
    {
      if rBase + len <= rBound {
        rBase := rBase + len;
        return buffer[rBase - len..rBase];
      }
      got := ReadSlow(len);
    }

    method ReadSlow(len: u32) returns (got: seq<byte>)
      requires Valid()
      modifies this`rBase, this`rBound
      ensures Valid() && |got| == Min(len, |old(Contents())|)
      ensures old(Contents()) == got + Contents()
    {
      var start, give := ComputeRead(len);
      got := buffer[start..start + give];
    }

    /** `borrow`: a view of at least `len` bytes, or nothing. */
    method Borrow(len: u32) returns (view: Option<seq<byte>>)
      requires Valid()
      modifies this`rBound
      ensures Valid() && Contents() == old(Contents())
      ensures view.Some? <==> |Contents()| >= len
      ensures view.Some? ==> view.value == Contents()[..rBound - rBase] && |view.value| >= len
    {
      if len > rBound - rBase {
        rBound := wBase;
        if len > wBase - rBase { return None; }
      }
      view := Some(buffer[rBase..rBound]);
      TakeSlice(buffer[..], wBase, rBase, rBound);
      assert buffer[rBase..wBase][..rBound - rBase] == buffer[rBase..rBound];
    }

    /** `consume` of what was borrowed. */
    method Consume(len: u32) returns (r: Result<(), Refusal>)
      requires Valid()
      modifies this`rBase
      ensures Valid() && (r.Ok? <==> len <= old(rBound - rBase))
      ensures Contents() == if r.Ok? then old(Contents())[len..] else old(Contents())
    {
      if len > rBound - rBase { return Err(NotBorrowed); }
      rBase := rBase + len;
      r := Ok(());
    }

    /** `readEnd`: an emptied buffer starts over. */
    method ReadEnd() returns (n: nat)
      requires Valid()
      modifies this`rBase, this`rBound, this`wBase, this`wBound, this`bufferSize
      ensures Valid() && n == old(rBase) && Contents() == old(Contents())
      ensures old(Contents()) == [] ==> rBase == 0
    {
      n := rBase;
      if rBase == wBase {
        Reset();
        assert old(Contents()) == [];
      }
    }

    // ---------------------------------------------------------------- writing

    /** When `ensureCanWrite` lets `len` more bytes in. */
    predicate Accepts(len: nat)
      reads this
      requires Valid()
    {
      len <= wBound - wBase || (owner && wBase + len <= maxBufferSize)
    }

    /** `ensureCanWrite`: grow to the next power of two, or to the maximum. The contents stay
        at their offsets. */
    method EnsureCanWrite(len: u32) returns (r: Result<(), Refusal>)
      requires Valid()
      modifies this`buffer, this`bufferSize, this`wBound
      ensures Valid() && (buffer == old(buffer) || fresh(buffer))
      ensures r.Ok? <==> old(Accepts(len))
      ensures r == Err(Insufficient) <==> len > old(wBound) - wBase && !owner
      ensures r.Ok? ==> len <= wBound - wBase
      ensures buffer[..wBase] == old(buffer[..wBase])
      ensures bufferSize == if r.Ok? && len > old(wBound) - wBase then NewSize(wBase + len, maxBufferSize)
                            else old(bufferSize)
      ensures buffer != old(buffer) ==> r.Ok? && len > old(wBound) - wBase
    {
      var avail := wBound - wBase;
      if len <= avail { return Ok(()); }
      if !owner { return Err(Insufficient); }
      var used := bufferSize - avail;
      var required := len + used;
      if required > maxBufferSize { return Err(TooLarge); }
      CeilPow2IsLeast(required, required);
      var newSize := NewSize(required, maxBufferSize);
      var newBuffer := new byte[newSize];
      forall i | 0 <= i < wBase {
        newBuffer[i] := buffer[i];
      }
      assert newBuffer[..wBase] == buffer[..wBase];
      buffer, wBound, bufferSize := newBuffer, newSize, newSize;
      return Ok(());
    }

    /** Copy to the write position. */
    method Append(bytes: seq<byte>)
      requires Valid() && |bytes| <= wBound - wBase
      modifies this`wBase, buffer
      ensures Valid() && Contents() == old(Contents()) + bytes
      ensures wBase == old(wBase) + |bytes|
    {
      ghost var was := Contents();
      forall i | 0 <= i < |bytes| {
        buffer[wBase + i] := bytes[i];
      }
      ghost var end := wBase + |bytes|;
      assert buffer[wBase..end] == bytes && buffer[rBase..wBase] == was;
      assert buffer[rBase..end] == was + bytes by {
        assert buffer[rBase..end] == buffer[rBase..wBase] + buffer[wBase..end];
      }
      wBase := wBase + |bytes|;
    }

    /** `write`: the bytes join the queue, or it is refused and nothing changes; an owned
        buffer refuses only what would take it beyond its maximum. */
    method Write(bytes: seq<byte>) returns (r: Result<(), Refusal>)
      requires Valid() && |bytes| < U32_MODULUS
      modifies this`buffer, this`bufferSize, this`wBound, this`wBase, buffer
      ensures Valid() && (buffer == old(buffer) || fresh(buffer))
      ensures r.Ok? <==> old(Accepts(|bytes|))
      ensures Contents() == if r.Ok? then old(Contents()) + bytes else old(Contents())
      ensures rBase == old(rBase) && wBase == if r.Ok? then old(wBase) + |bytes| else old(wBase)
      ensures bufferSize == if r.Ok? && |bytes| > old(wBound - wBase) then NewSize(old(wBase) + |bytes|, maxBufferSize)
                            else old(bufferSize)
      ensures !owner ==> buffer == old(buffer)
    {
      if wBase + |bytes| <= wBound {
        Append(bytes);
        return Ok(());
      }
      r := WriteSlow(bytes);
    }

    method WriteSlow(bytes: seq<byte>) returns (r: Result<(), Refusal>)
      requires Valid() && wBound - wBase < |bytes| < U32_MODULUS
      modifies this`buffer, this`bufferSize, this`wBound, this`wBase, buffer
      ensures Valid() && (buffer == old(buffer) || fresh(buffer))
      ensures r.Ok? <==> old(Accepts(|bytes|))
      ensures Contents() == if r.Ok? then old(Contents()) + bytes else old(Contents())
      ensures bufferSize == if r.Ok? then NewSize(old(wBase) + |bytes|, maxBufferSize) else old(bufferSize)
      ensures wBase == if r.Ok? then old(wBase) + |bytes| else old(wBase)
      ensures !owner ==> buffer == old(buffer)
    {
      ghost var was, front := Contents(), buffer[..wBase];
      r := EnsureCanWrite(|bytes|);
      assert Contents() == front[rBase..] == was;
      if r.Err? { return; }
      Append(bytes);
    }

    /** `getWritePtr`, the caller storing through the pointer, and `wroteBytes`. */
    method WriteThrough(room: u32, bytes: seq<byte>) returns (r: Result<(), Refusal>)
      requires Valid() && |bytes| <= room
      modifies this`buffer, this`bufferSize, this`wBound, this`wBase, buffer
      ensures Valid() && (r.Ok? <==> old(Accepts(room)))
      ensures Contents() == if r.Ok? then old(Contents()) + bytes else old(Contents())
    {
      ghost var was, front := Contents(), buffer[..wBase];
      r := EnsureCanWrite(room);
      assert Contents() == front[rBase..] == was;
      if r.Err? { return; }
      Append(bytes);
    }

    /** `wroteBytes` alone. */
    method WroteBytes(len: u32) returns (r: Result<(), Refusal>)
      requires Valid()
      modifies this`wBase
      ensures Valid() && (r.Ok? <==> len <= old(wBound - wBase))
      ensures wBase == if r.Ok? then old(wBase) + len else old(wBase)
      ensures old(Contents()) <= Contents()
    {
      if len > wBound - wBase { return Err(TooMuch); }
      wBase := wBase + len;
      r := Ok(());
    }

    /** `setMaxBufferSize`. */
    method SetMaxBufferSize(max: u32) returns (r: Result<(), Refusal>)
      requires Valid()
      modifies this`maxBufferSize
      ensures Valid() && (r.Ok? <==> max >= bufferSize)
      ensures maxBufferSize == if r.Ok? then max else old(maxBufferSize)
    {
      if max < bufferSize { return Err(BelowCurrent); }
      maxBufferSize := max;
      r := Ok(());
    }

    // ---------------------------------------------------------------- resetting

    /** `resetBuffer()`: empty; memory of somebody else is not written to again. */
    method Reset()
      requires Valid()
      modifies this`rBase, this`rBound, this`wBase, this`wBound, this`bufferSize
      ensures Valid() && Contents() == [] && rBase == 0
      ensures bufferSize == if owner then old(bufferSize) else 0
    {
      rBase, rBound, wBase := 0, 0, 0;
      if !owner {
        wBound, bufferSize := 0, 0;
      }
    }

    /** `resetBuffer(buf, sz, policy)`: a new buffer is made and swapped in, all but the
        maximum size. */
    method ResetOn(buf: array<byte>, policy: Policy)
      requires Valid() && buf.Length < U32_MODULUS
      modifies this
      ensures Valid() && Contents() == buf[..] && rBase == 0 && bufferSize == buf.Length
      ensures owner == !policy.Observe? && (if policy.Copy? then fresh(buffer) else buffer == buf)
      ensures maxBufferSize == old(maxBufferSize)
    {
      var that := new MemoryBuffer.On(buf, policy);
      Swap(that);
    }

    /** `resetBuffer(sz)`. */
    method ResetSize(size: u32)
      requires Valid()
      modifies this
      ensures Valid() && Contents() == [] && rBase == 0 && bufferSize == size && owner && fresh(buffer)
      ensures maxBufferSize == old(maxBufferSize)
    {
      var that := new MemoryBuffer(size);
      Swap(that);
    }

    /** `swap`. */
    method Swap(that: MemoryBuffer)
      requires Valid() && that.Valid() && this != that
      modifies this, that
      ensures Valid() && that.Valid()
      ensures Contents() == old(that.Contents()) && that.Contents() == old(Contents())
      ensures rBase == old(that.rBase) && bufferSize == old(that.bufferSize) && owner == old(that.owner)
      ensures buffer == old(that.buffer) && that.buffer == old(buffer)
      ensures maxBufferSize == old(maxBufferSize) && that.maxBufferSize == old(that.maxBufferSize)
    {
      ghost var mine, other := buffer[rBase..wBase], that.buffer[that.rBase..that.wBase];
      buffer, that.buffer := that.buffer, buffer;
      bufferSize, that.bufferSize := that.bufferSize, bufferSize;
      rBase, that.rBase := that.rBase, rBase;
      rBound, that.rBound := that.rBound, rBound;
      wBase, that.wBase := that.wBase, wBase;
      wBound, that.wBound := that.wBound, wBound;
      owner, that.owner := that.owner, owner;
      assert buffer[rBase..wBase] == other && that.buffer[that.rBase..that.wBase] == mine;
    }

    /** `getBufferAsString`. */
    method GetBuffer() returns (s: seq<byte>)
      requires Valid()
      ensures s == Contents()
    {
      s := buffer[rBase..wBase];
    }
  }
}
