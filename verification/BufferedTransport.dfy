/** TBufferedTransport: fast and slow paths over a transport, with nothing lost or reordered. */
module BufferedTransport {
  import opened Bytes
  import opened Stream

  /** The slow write takes its copying path although the rest does not fit the buffer: the
      comparison `have_bytes + len >= 2 * wBufSize_` is made in 32 bits. */
  predicate Misjudged(have: nat, len: nat, size: nat) {
    && size < have + len && have > 0
    && (have + len) % U32_MODULUS < 2 * size % U32_MODULUS
    && have + len >= 2 * size
  }

  /** For instance, with the default buffer and one byte in it. */
  lemma MisjudgedOnce()
    ensures Misjudged(1, 0xffff_ffff, 512) && 1 + 0xffff_ffff - 512 >= 512
  {
  }

  /** For a buffer below 2 GiB that is when the sum wraps round to less than two buffers. */
  lemma MisjudgedExactly(have: nat, len: nat, size: nat)
    requires have <= size < 0x8000_0000 && len < U32_MODULUS
    ensures Misjudged(have, len, size) <==> have > 0 && U32_MODULUS <= have + len < U32_MODULUS + 2 * size
  {
  }

  datatype Op = Put(bytes: seq<byte>) | Flush

  function Piece(op: Op): seq<byte> {
    match op case Put(b) => b case Flush => []
  }

  function Written(ops: seq<Op>): seq<byte> {
    if ops == [] then [] else Piece(ops[0]) + Written(ops[1..])
  }

  predicate Moderate(ops: seq<Op>) {
    forall i :: 0 <= i < |ops| && ops[i].Put? ==> |ops[i].bytes| <= 0x8000_0000
  }

  class Buffered {
    const transport: Transport
    const rBuf: array<byte>
    const wBuf: array<byte>
    var rBase: nat               // buffered for reading: rBuf[rBase..rBound]
    var rBound: nat
    var wBase: nat               // buffered for writing: wBuf[..wBase]

    ghost predicate Valid()
      reads this
    {
      && rBase <= rBound <= rBuf.Length && wBase <= wBuf.Length && rBuf != wBuf
      && rBuf.Length < U32_MODULUS && wBuf.Length < U32_MODULUS
    }

    /** Everything written so far: what has been sent, then what is buffered. */
    ghost function Out(): seq<byte>
      reads this, transport, wBuf
      requires Valid()
    {
      transport.output + wBuf[..wBase]
    }

    /** Everything still to be read: what is buffered, then what is below. */
    ghost function In(): seq<byte>
      reads this, transport, rBuf
      requires Valid()
    {
      rBuf[rBase..rBound] + transport.input
    }

    constructor (transport: Transport, rsz: u32, wsz: u32)
      ensures Valid() && this.transport == transport
      ensures Out() == transport.output && In() == transport.input
      ensures rBuf.Length == rsz && wBuf.Length == wsz && fresh(rBuf) && fresh(wBuf)
    {
      this.transport := transport;
      rBuf, wBuf := new byte[rsz], new byte[wsz];
      rBase, rBound, wBase := 0, 0, 0;
    }

    /** `read`: fast path, then slow path. */
    method Read(len: u32) returns (got: seq<byte>)
      requires Valid()
      modifies this`rBase, this`rBound, rBuf, transport`input
      ensures Valid() && old(In()) == got + In() && |got| <= len
      ensures old(rBound - rBase) >= len ==> |got| == len
      ensures 0 < old(rBound - rBase) < len ==> |got| == old(rBound - rBase)
      ensures got == [] <==> len == 0 || old(In()) == [] || rBuf.Length == 0
      ensures |got| < len ==> rBase == rBound
    {
      if rBase + len <= rBound {
        got := rBuf[rBase..rBase + len];
        rBase := rBase + len;
        return;
      }
      got := ReadSlow(len);
    }

    method ReadSlow(len: u32) returns (got: seq<byte>)
      requires Valid() && rBound - rBase < len
      modifies this`rBase, this`rBound, rBuf, transport`input
      ensures Valid() && old(In()) == got + In() && |got| <= len
      ensures 0 < old(rBound - rBase) ==> |got| == old(rBound - rBase)
      ensures got == [] <==> old(In()) == [] || rBuf.Length == 0
      ensures |got| < len ==> rBase == rBound
    {
      if rBound - rBase > 0 {
        got := rBuf[rBase..rBound];
        rBase, rBound := 0, 0;
        return;
      }
      Load();
      var give := Min(len, rBound);
      got := rBuf[..give];
      rBase := give;
      Rejoined(rBuf[..rBound], give, transport.input);
      assert rBuf[..rBound][give..] == rBuf[give..rBound] && rBuf[..rBound][..give] == got;
    }

    static lemma Rejoined(s: seq<byte>, n: nat, t: seq<byte>)
      requires n <= |s|
      ensures s + t == s[..n] + (s[n..] + t)
    {
    }

    /** One read from below into the buffer, which is empty. */
    method Load()
      requires Valid() && rBase == rBound
      modifies this`rBase, this`rBound, rBuf, transport`input
      ensures Valid() && rBase == 0 && In() == old(In())
      ensures rBound > 0 <==> In() != [] && rBuf.Length > 0
    {
      ghost var input := transport.input;
      var more := transport.Read(rBuf.Length);
      forall i | 0 <= i < |more| {
        rBuf[i] := more[i];
      }
      rBase, rBound := 0, |more|;
      assert rBuf[..rBound] == more;
      assert old(In()) == [] + input == input;
    }

    /** `readAll`: the fast path is that of `read`. A buffer of size zero never brings anything. */
    method ReadAll(len: u32) returns (got: Option<seq<byte>>)
      requires Valid()
      modifies this`rBase, this`rBound, rBuf, transport`input
      ensures Valid()
      ensures if |old(In())| < len || (rBuf.Length == 0 < len) then got == None && (rBuf.Length > 0 ==> In() == [])
              else got.Some? && |got.value| == len && old(In()) == got.value + In()
    {
      var bytes: seq<byte> := [];
      while |bytes| < len
        invariant Valid() && |bytes| <= len && old(In()) == bytes + In() && (rBuf.Length == 0 ==> bytes == [])
      {
        var more := Read(len - |bytes|);
        if more == [] { return None; }
        Assoc(bytes, more, In());
        bytes := bytes + more;
      }
      return Some(bytes);
    }

    /** `peek`. */
    method Peek() returns (more: bool)
      requires Valid()
      modifies this`rBase, this`rBound, rBuf, transport`input
      ensures Valid() && In() == old(In())
      ensures more <==> In() != [] && rBuf.Length > 0
    {
      if rBase == rBound {
        Load();
      }
      more := rBound > rBase;
    }

    /** Copy to the end of what is buffered. */
    method Append(bytes: seq<byte>)
      requires Valid() && wBase + |bytes| <= wBuf.Length
      modifies this`wBase, wBuf
      ensures Valid() && wBuf[..wBase] == old(wBuf[..wBase]) + bytes
      ensures wBase == old(wBase) + |bytes|
    {
      forall i | 0 <= i < |bytes| {
        wBuf[wBase + i] := bytes[i];
      }
      assert wBuf[wBase..wBase + |bytes|] == bytes;
      assert wBuf[..wBase + |bytes|] == wBuf[..wBase] + wBuf[wBase..wBase + |bytes|];
      wBase := wBase + |bytes|;
    }

    /** `write`. When the size comparison goes wrong the source stops at its assertion. */
    method Write(buf: seq<byte>) returns (ok: bool)
      requires Valid() && |buf| < U32_MODULUS
      modifies this`wBase, wBuf, transport`output
      ensures Valid() && (ok <==> !Misjudged(old(wBase), |buf|, wBuf.Length))
      ensures ok ==> Out() == old(Out()) + buf
    {
      if wBase + |buf| <= wBuf.Length {
        Append(buf);
        assert transport.output + (old(wBuf[..wBase]) + buf) == old(Out()) + buf;
        return true;
      }
      ok := WriteSlow(buf);
    }

    method WriteSlow(buf: seq<byte>) returns (ok: bool)
      requires Valid() && |buf| < U32_MODULUS && wBuf.Length - wBase < |buf|
      modifies this`wBase, wBuf, transport`output
      ensures Valid() && (ok <==> !Misjudged(old(wBase), |buf|, wBuf.Length))
      ensures ok ==> Out() == old(Out()) + buf
    {
      var have, space := wBase, wBuf.Length - wBase;
      if (have + |buf|) % U32_MODULUS >= 2 * wBuf.Length % U32_MODULUS || have == 0 {
        WriteThrough(buf);
        return true;
      }
      ok := FillUp(buf, space);
    }

    /** Two writes below: what is buffered, then `buf`. */
    method WriteThrough(buf: seq<byte>)
      requires Valid()
      modifies this`wBase, transport`output
      ensures Valid() && Out() == old(Out()) + buf
    {
      if wBase > 0 {
        transport.Write(wBuf[..wBase]);
      }
      transport.Write(buf);
      wBase := 0;
      assert wBuf[..0] == [];
    }

    /** One write below of a full buffer, and the rest copied. */
    method FillUp(buf: seq<byte>, space: nat) returns (ok: bool)
      requires Valid() && space == wBuf.Length - wBase < |buf|
      modifies this`wBase, wBuf, transport`output
      ensures Valid() && (ok <==> old(wBase) + |buf| < 2 * wBuf.Length)
      ensures ok ==> Out() == old(Out()) + buf
    {
      ghost var sent, was := transport.output, wBuf[..wBase];
      Rejoin(sent, was, buf, space);
      Append(buf[..space]);
      assert wBuf[..] == wBuf[..wBase] == was + buf[..space];
      transport.Write(wBuf[..]);
      var rest := buf[space..];
      if |rest| >= wBuf.Length { return false; }
      wBase := 0;
      Append(rest);
      assert wBuf[..wBase] == rest;
      return true;
    }

    static lemma Rejoin(sent: seq<byte>, was: seq<byte>, buf: seq<byte>, space: nat)
      requires space <= |buf|
      ensures sent + (was + buf[..space]) + buf[space..] == sent + was + buf
      ensures [] + buf[space..] == buf[space..]
    {
    }

    /** `flush`. */
    method FlushOut()
      requires Valid()
      modifies this`wBase, transport`output
      ensures Valid() && wBase == 0 && transport.output == old(Out())
    {
      var have := wBase;
      if have > 0 {
        wBase := 0;
        transport.Write(wBuf[..have]);
      } else {
        assert old(Out()) == transport.output + [];
      }
    }

    /** Any run of writes and flushes: what was sent and what is buffered is what was
        written, in order. No run goes wrong whose sizes cannot wrap round. */
    method Run(ops: seq<Op>) returns (ok: bool)
      requires Valid() && forall i :: 0 <= i < |ops| && ops[i].Put? ==> |ops[i].bytes| < U32_MODULUS
      modifies this`wBase, wBuf, transport`output
      ensures Valid()
      ensures ok ==> Out() == old(Out()) + Written(ops)
      ensures wBuf.Length < 0x8000_0000 && Moderate(ops) ==> ok
    {
      hide Misjudged, Valid;
      var i := 0;
      while i < |ops|
        invariant Valid() && 0 <= i <= |ops|
        invariant Out() + Written(ops[i..]) == old(Out()) + Written(ops)
      {
        ghost var before, tail := Out(), Written(ops[i + 1..]);
        assert ops[i..][0] == ops[i] && ops[i..][1..] == ops[i + 1..];
        ok := Step(ops[i]);
        if !ok { return; }
        Assoc(before, Piece(ops[i]), tail);
        i := i + 1;
      }
      assert Out() + [] == Out();
      return true;
    }

    method Step(op: Op) returns (ok: bool)
      requires Valid() && (op.Put? ==> |op.bytes| < U32_MODULUS)
      modifies this`wBase, wBuf, transport`output
      ensures Valid()
      ensures ok ==> Out() == old(Out()) + Piece(op)
      ensures wBuf.Length < 0x8000_0000 && (op.Put? ==> |op.bytes| <= 0x8000_0000) ==> ok
    {
      match op
      case Put(bytes) =>
        if wBuf.Length < 0x8000_0000 { MisjudgedExactly(wBase, |bytes|, wBuf.Length); }
        ok := Write(bytes);
      case Flush =>
        ok := true;
        FlushOut();
        assert wBuf[..0] == [];
        assert Out() == old(Out()) + [];
    }
  }
}
