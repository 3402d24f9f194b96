/** The reading side of THttpTransport as the object it is. */
module HttpReader {
  import opened Bytes
  import opened HttpTransport
  import opened Stream
  import M = MemoryBuffer

  /** From this many bytes in the line buffer on it may have to be doubled beyond 32 bits. */
  const FULL: nat := 0x6000_0000

  /** The size of the line buffer after a refill that finds `len` of `size` bytes taken: it is
      doubled when at most a quarter is free. */
  function Resized(size: nat, len: nat): nat
    requires len <= size
  {
    if size - len <= size / 4 then size * 2 else size
  }

  /** The state a call of `readChunked` moves: what is unread, what the read buffer holds and
      where it ends, the flag, and how much the line buffer and the transport hold. */
  datatype Progress = Progress(unread: seq<byte>, contents: seq<byte>, end: nat, done: bool, held: nat)

  /** What an overflow tells: `FULL` bytes have come without the end of a line, or all consumed,
      and what they belong to is still to be ended. */
  predicate Crowded(p: Piece, held: nat) {
    held >= FULL && (p.End? ==> held >= FULL + 3) && (p.Data? ==> held >= FULL + 1 + |p.rest|)
  }

  lemma {:induction false} DecodedLength(u: seq<byte>)
    requires Decoded(u).Some?
    ensures |u| >= 4
  {
  }

  /** How such a call ends when `p` is what comes next. End of file is reported only if that
      is malformed; an overflow only if `FULL` bytes and some more were in the line buffer or to
      come; a refusal only for 4 GiB of content. */
  predicate Outcome(r: Result<u32, Error>, p: Piece, before: Progress, after: Progress) {
    && after.held <= before.held
    && match r
       case Ok(n) => (
         match p
         case Data(d, rest) =>
           n == |d| && after == Progress(rest, before.contents + d, before.end + |d|, before.done, after.held)
         case End(rest) => n == 0 && after == Progress(rest, before.contents, before.end, true, after.held)
         case Bad => false)
       case Err(EndOfFile) => p == Bad
       case Err(Overflow) => Crowded(p, before.held)
       case Err(Refused) => !p.End? && (p.Data? ==> before.end + |p.data| >= U32_MODULUS)
  }

  /** A power of two from 1.5 GiB on is 2 GiB; below that its double is one. */
  lemma PowerSteps(n: nat)
    requires PowerOfTwo(n) && n <= 0x8000_0000
    ensures PowerOfTwo(2 * n)
    ensures n < 0x8000_0000 ==> n <= 0x4000_0000
  {
    if n < 0x8000_0000 {
      assert n != 0x7fff_ffff;
      DoubledPower(n);
    }
  }

  class Reader {
    const transport: Transport
    const readBuffer: M.MemoryBuffer
    var httpBuf: array<byte>         // httpBufSize bytes and room for a terminating zero
    var httpPos: nat
    var httpBufLen: nat
    var httpBufSize: nat
    var chunked: bool
    var chunkedDone: bool

    ghost predicate Bounds()
      reads this`httpPos, this`httpBufLen, this`httpBufSize, this`httpBuf
    {
      && httpPos <= httpBufLen <= httpBufSize && 0 < httpBufSize < U32_MODULUS
      && httpBuf.Length == httpBufSize + 1
    }

    /** What holds between calls: the bounds and the terminating zero. */
    ghost predicate BufferOk()
      reads this`httpPos, this`httpBufLen, this`httpBufSize, this`httpBuf, httpBuf
    {
      Bounds() && httpBuf[httpBufLen] == 0
    }

    ghost predicate Valid()
      reads this, httpBuf, readBuffer
    {
      && BufferOk() && readBuffer.Valid() && readBuffer.owner && readBuffer.buffer != httpBuf
      && readBuffer.maxBufferSize == U32_MODULUS - 1
    }

    /** What has not been consumed: what is buffered, then what is below. */
    ghost function Unread(): seq<byte>
      reads this`httpPos, this`httpBufLen, this`httpBufSize, this`httpBuf, httpBuf, transport
      requires Bounds()
    {
      httpBuf[httpPos..httpBufLen] + transport.input
    }

    /** The part of it that is buffered. */
    ghost function Shown(): seq<byte>
      reads this`httpPos, this`httpBufLen, this`httpBufSize, this`httpBuf, httpBuf
      requires Bounds()
    {
      httpBuf[httpPos..httpBufLen]
    }

    /** How many bytes the line buffer holds, consumed or not, and how many are to come. It
        never grows. */
    ghost function Held(): nat
      reads this`httpBufLen, transport`input
    {
      httpBufLen + |transport.input|
    }

    /** What is below, and how full and how large the line buffer is. */
    ghost function Below(): (seq<byte>, nat, nat)
      reads this`httpBufLen, this`httpBufSize, transport`input
    {
      (transport.input, httpBufLen, httpBufSize)
    }

    /** How much the next read below is to bring. */
    ghost function Due(): nat
      reads transport
    {
      transport.pace(|transport.input|)
    }

    /** Everything buffered is consumed, and what the next read is to bring fits behind it. */
    ghost predicate Brings()
      reads this`httpPos, this`httpBufLen, this`httpBufSize, this`httpBuf, transport
      requires Bounds()
    {
      && httpPos == httpBufLen && Resized(httpBufSize, httpBufLen) < U32_MODULUS
      && 0 < Due() <= |transport.input| && Due() <= Resized(httpBufSize, httpBufLen) - httpBufLen
    }

    /** Everything buffered is consumed, and the buffer is so full that it cannot be doubled. */
    ghost predicate Jammed()
      reads this`httpPos, this`httpBufLen, this`httpBufSize, this`httpBuf
      requires Bounds()
    {
      httpPos == httpBufLen && Resized(httpBufSize, httpBufLen) >= U32_MODULUS
    }

    /** What is below then. */
    ghost function NextBelow(): (seq<byte>, nat, nat)
      reads this`httpPos, this`httpBufLen, this`httpBufSize, this`httpBuf, transport
      requires Bounds() && Brings()
    {
      (transport.input[Due()..], httpBufLen + Due(), Resized(httpBufSize, httpBufLen))
    }

    /** On the way to an overflow: there is no line end in the next `FULL` bytes, and the reads
        below bring these first and then the rest. */
    ghost predicate Stalls()
      reads this`httpPos, this`httpBufLen, this`httpBufSize, this`httpBuf, httpBuf, transport
      requires Bounds()
    {
      && httpPos == 0 && httpBufLen <= FULL < |Unread()| && FindCrlf(Unread()[..FULL]) == None
      && PowerOfTwo(httpBufSize) && httpBufSize <= 0x8000_0000
      && forall left: nat :: left > |Unread()| - FULL ==> transport.pace(left) == left - (|Unread()| - FULL)
    }

    /** A reader whose headers have been read. */
    constructor (transport: Transport, chunked: bool)
      ensures Valid() && this.transport == transport && Unread() == transport.input
      ensures readBuffer.Contents() == [] && !chunkedDone && this.chunked == chunked
      ensures fresh(httpBuf) && fresh(readBuffer) && fresh(readBuffer.buffer)
      ensures httpBufSize == 1024 && httpPos == httpBufLen == 0
    {
      this.transport, this.chunked, chunkedDone := transport, chunked, false;
      readBuffer := new M.MemoryBuffer(M.DEFAULT_SIZE);
      httpBuf := new byte[1025](_ => 0);
      httpPos, httpBufLen, httpBufSize := 0, 0, 1024;
    }

    // ---------------------------------------------------------------- the buffer

    /** `shift`: what is left moves to the front. */
    method Shift()
      requires BufferOk()
      modifies this`httpPos, this`httpBufLen, httpBuf
      ensures BufferOk() && httpPos == 0 && Unread() == old(Unread())
      ensures httpBufLen == old(httpBufLen - httpPos) && Held() <= old(Held())
      ensures old(Stalls()) ==> Stalls()
    {
      ghost var left := httpBuf[httpPos..httpBufLen];
      if httpBufLen > httpPos {
        var length := httpBufLen - httpPos;
        forall i | 0 <= i < length {
          httpBuf[i] := httpBuf[httpPos + i];
        }
        httpBufLen := length;
      } else {
        httpBufLen := 0;
      }
      httpPos := 0;
      httpBuf[httpBufLen] := 0;
      assert httpBuf[..httpBufLen] == left;
    }

    /** `refill`: the buffer is doubled when at most a quarter is free. The doubling is in 32
        bits. */
    method Refill() returns (r: Result<(), Error>)
      requires Bounds()
      modifies this`httpBuf, this`httpBufLen, this`httpBufSize, httpBuf, transport`input
      ensures Bounds() && Unread() == old(Unread())
      ensures old(httpBuf[httpBufLen]) == 0 || r != Err(Overflow) ==> BufferOk()
      ensures httpBuf == old(httpBuf) || fresh(httpBuf)
      ensures r.Ok? ==> |transport.input| < |old(transport.input)|
      ensures r == Err(EndOfFile) ==> old(transport.input) == []
      ensures Held() == old(Held())
      ensures r == Err(Overflow) <==> Resized(old(httpBufSize), old(httpBufLen)) >= U32_MODULUS
      ensures r == Err(Overflow) ==> old(httpBufLen) >= FULL
      ensures r != Err(Overflow) ==> httpBufSize == Resized(old(httpBufSize), old(httpBufLen))
      ensures old(Stalls()) ==> r == Err(Overflow) || (r.Ok? && Stalls())
      ensures r.Ok? || r == Err(EndOfFile) || r == Err(Overflow)
      ensures old(Brings()) ==> r.Ok? && httpBufLen == old(httpBufLen + Due())
    {
      NextSize();
      ghost var stalls, tail := Stalls(), |Unread()| - FULL;
      assert stalls ==> |transport.input| == tail + (FULL - httpBufLen);
      var avail := httpBufSize - httpBufLen;
      if avail <= httpBufSize / 4 {
        if httpBufSize * 2 >= U32_MODULUS { return Err(Overflow); }
        Grow();
      }
      var got := ReadMore();
      assert stalls ==> got > 0 && httpBufLen <= FULL;
      r := if got == 0 then Err(EndOfFile) else Ok(());
    }

    /** While it stalls the buffer is doubled up to 2 GiB, and beyond that when it holds `FULL`
        bytes. */
    lemma NextSize()
      requires Bounds()
      ensures Stalls() ==>
                var next := Resized(httpBufSize, httpBufLen);
                && (next < U32_MODULUS ==> PowerOfTwo(next) && next <= 0x8000_0000 && httpBufLen < FULL)
                && (httpBufLen == FULL ==> next >= U32_MODULUS)
    {
      if Stalls() {
        PowerSteps(httpBufSize);
      }
    }

    /** One read into the free part of the buffer. */
    method ReadMore() returns (got: nat)
      requires Bounds() && httpBufLen < httpBufSize
      modifies this`httpBufLen, httpBuf, transport`input
      ensures BufferOk() && Unread() == old(Unread())
      ensures got == 0 ==> old(transport.input) == []
      ensures got > 0 ==> |transport.input| < |old(transport.input)|
      ensures Held() == old(Held()) && httpBufLen == old(httpBufLen) + got
      ensures var pace := transport.pace(|old(transport.input)|);
              pace > 0 ==> got == Min(pace, Min(old(httpBufSize - httpBufLen), |old(transport.input)|))
    {
      ghost var left := httpBuf[httpPos..httpBufLen];
      var more := transport.Read(httpBufSize - httpBufLen);
      forall i | 0 <= i < |more| {
        httpBuf[httpBufLen + i] := more[i];
      }
      httpBuf[httpBufLen + |more|] := 0;
      assert httpBuf[httpBufLen..httpBufLen + |more|] == more;
      assert httpBuf[httpPos..httpBufLen] == left;
      assert httpBuf[httpPos..httpBufLen + |more|]
          == httpBuf[httpPos..httpBufLen] + httpBuf[httpBufLen..httpBufLen + |more|];
      Assoc(left, more, transport.input);
      httpBufLen := httpBufLen + |more|;
      got := |more|;
    }

    /** The `realloc` to twice the size. */
    method Grow()
      requires Bounds() && httpBufSize * 2 < U32_MODULUS
      modifies this`httpBuf, this`httpBufSize
      ensures Bounds() && httpBufSize == 2 * old(httpBufSize) && fresh(httpBuf)
      ensures httpBuf[httpPos..httpBufLen] == old(httpBuf[httpPos..httpBufLen])
    {
      var tmp := new byte[httpBufSize * 2 + 1];
      forall i | 0 <= i < httpBuf.Length {
        tmp[i] := httpBuf[i];
      }
      httpBuf := tmp;
      httpBufSize := httpBufSize * 2;
    }

    /** `strstr` from the current position: up to the first zero byte, at the latest the
        terminating one. */
    method FindEol() returns (eol: Option<nat>)
      requires BufferOk()
      ensures eol == Shifted(FindCrlf(httpBuf[httpPos..httpBufLen]), httpPos)
    {
      hide FindCrlf, Shifted;
      var i := httpPos;
      while httpBuf[i] != 0
        invariant httpPos <= i <= httpBufLen
        invariant Shifted(FindCrlf(httpBuf[httpPos..httpBufLen]), httpPos)
               == Shifted(FindCrlf(httpBuf[i..httpBufLen]), i)
        decreases httpBufLen - i
      {
        ghost var s := httpBuf[i..httpBufLen];
        FindStep(s, i);
        assert s[1..] == httpBuf[i + 1..httpBufLen];
        if httpBuf[i] == CR && httpBuf[i + 1] == LF {
          assert i + 1 < httpBufLen;
          return Some(i);
        }
        i := i + 1;
      }
      FindNone(httpBuf[i..httpBufLen], i);
      return None;
    }

    static function Shifted(o: Option<nat>, d: nat): Option<nat> {
      match o case None => None case Some(k) => Some(d + k)
    }

    static lemma FindStep(s: seq<byte>, i: nat)
      requires s != [] && s[0] != 0
      ensures Shifted(FindCrlf(s), i)
           == if |s| > 1 && s[0] == CR && s[1] == LF then Some(i) else Shifted(FindCrlf(s[1..]), i + 1)
    {
      hide FindCrlf;
      FindTurn(s);
    }

    static lemma FindTurn(s: seq<byte>)
      requires s != [] && s[0] != 0
      ensures FindCrlf(s) == if |s| > 1 && s[0] == CR && s[1] == LF then Some(0) else Shifted(FindCrlf(s[1..]), 1)
    {
    }

    static lemma FindNone(s: seq<byte>, i: nat)
      requires s == [] || s[0] == 0
      ensures Shifted(FindCrlf(s), i) == None
    {
    }

    /** The line up to `eol`: its end is overwritten by a zero byte. */
    method TakeLine(eol: nat) returns (line: seq<byte>)
      requires BufferOk() && FindCrlf(httpBuf[httpPos..httpBufLen]) == Some(eol - httpPos)
      modifies this`httpPos, httpBuf
      ensures BufferOk() && FindCrlf(old(Unread())) == Some(|line|)
      ensures line == old(Unread())[..|line|] && Unread() == old(Unread())[|line| + 2..]
      ensures FindCrlf(old(Shown())) == Some(|line|)
      ensures line == old(Shown())[..|line|] && Shown() == old(Shown())[|line| + 2..]
    {
      hide FindCrlf;
      ghost var shown := httpBuf[httpPos..httpBufLen];
      FindInPrefix(shown, transport.input);
      line := httpBuf[httpPos..eol];
      httpBuf[eol] := 0;
      httpPos := eol + 2;
      assert shown[..|line|] == line && httpBuf[httpPos..httpBufLen] == shown[|line| + 2..];
      assert (shown + transport.input)[|line| + 2..] == shown[|line| + 2..] + transport.input;
    }

    /** `readLine`: the first line, however the reads below cut it up; end of file if there
        is none. */
    method ReadLine() returns (r: Result<seq<byte>, Error>)
      requires BufferOk()
      modifies this`httpBuf, this`httpPos, this`httpBufLen, this`httpBufSize, httpBuf, transport`input
      ensures BufferOk() && (httpBuf == old(httpBuf) || fresh(httpBuf))
      ensures r.Ok? ==> && FindCrlf(old(Unread())) == Some(|r.value|)
                        && r.value == old(Unread())[..|r.value|]
                        && Unread() == old(Unread())[|r.value| + 2..]
      ensures r == Err(EndOfFile) ==> FindCrlf(old(Unread())) == None
      ensures Held() <= old(Held())
      ensures r == Err(Overflow) ==>
                old(Held()) >= FULL && (FindCrlf(old(Unread())).Some? ==> FindCrlf(old(Unread())).value + 1 >= FULL)
      ensures r.Ok? || r == Err(EndOfFile) || r == Err(Overflow)
      ensures old(Stalls()) ==> r == Err(Overflow)
      ensures FindCrlf(old(Shown())).Some? ==>
                && r.Ok? && Below() == old(Below()) && |r.value| == FindCrlf(old(Shown())).value
                && r.value == old(Shown())[..|r.value|] && Shown() == old(Shown())[|r.value| + 2..]
    {
      hide FindCrlf, Bounds, Stalls;
      ghost var known := FindCrlf(Shown()).Some?;
      while true
        invariant BufferOk() && Unread() == old(Unread()) && Held() <= old(Held())
        invariant known ==> Below() == old(Below()) && Shown() == old(Shown())
        invariant old(Stalls()) ==> Stalls()
        invariant httpBuf == old(httpBuf) || fresh(httpBuf)
        decreases |transport.input|
      {
        NoLineYet();
        var eol := FindEol();
        if eol.Some? {
          var line := TakeLine(eol.value);
          return Ok(line);
        }
        var refilled := ShiftRefill();
        if refilled.Err? { return Err(refilled.error); }
      }
    }

    method ShiftRefill() returns (r: Result<(), Error>)
      requires BufferOk() && FindCrlf(httpBuf[httpPos..httpBufLen]) == None
      modifies this`httpBuf, this`httpPos, this`httpBufLen, this`httpBufSize, httpBuf, transport`input
      ensures BufferOk() && Unread() == old(Unread()) && (httpBuf == old(httpBuf) || fresh(httpBuf))
      ensures r.Ok? ==> |transport.input| < |old(transport.input)|
      ensures r == Err(EndOfFile) ==> FindCrlf(Unread()) == None
      ensures Held() <= old(Held())
      ensures r == Err(Overflow) ==>
                old(Held()) >= FULL && (FindCrlf(Unread()).Some? ==> FindCrlf(Unread()).value + 1 >= FULL)
      ensures r.Ok? || r == Err(EndOfFile) || r == Err(Overflow)
      ensures old(Stalls()) ==> r == Err(Overflow) || (r.Ok? && Stalls())
    {
      hide FindCrlf, Stalls;
      ghost var shown := httpBuf[httpPos..httpBufLen];
      EndsLater(shown, transport.input);
      assert transport.input == [] ==> Unread() == shown + [] == shown;
      Shift();
      r := Refill();
    }

    /** A line end that is not in a prefix ends behind it. */
    static lemma {:induction false} EndsLater(s: seq<byte>, t: seq<byte>)
      ensures FindCrlf(s) == None && FindCrlf(s + t).Some? ==> FindCrlf(s + t).value + 1 >= |s|
      decreases s
    {
      if s != [] {
        assert (s + t)[1..] == s[1..] + t;
        EndsLater(s[1..], t);
      }
    }

    lemma NoLineYet()
      requires Bounds()
      ensures Stalls() ==> FindCrlf(Shown()) == None
    {
      if Stalls() && FindCrlf(Shown()).Some? {
        var s, more := Shown(), Unread()[httpBufLen..FULL];
        assert s + more == Unread()[..FULL];
        FindInPrefix(s, more);
      }
    }

    lemma HeldAll()
      requires Bounds()
      ensures |Unread()| <= Held()
    {
    }

    // ---------------------------------------------------------------- content

    /** Hand `give` buffered bytes to the read buffer. */
    method Give(give: nat) returns (r: Result<(), Error>)
      requires Valid() && give <= httpBufLen - httpPos
      modifies this`httpPos, readBuffer, readBuffer.buffer
      ensures Valid() && (readBuffer.buffer == old(readBuffer.buffer) || fresh(readBuffer.buffer))
      ensures r.Ok? || r == Err(Refused)
      ensures r.Ok? ==>
                && readBuffer.Contents() == old(readBuffer.Contents()) + old(Unread())[..give]
                && Unread() == old(Unread())[give..] && Shown() == old(Shown())[give..]
                && readBuffer.wBase == old(readBuffer.wBase) + give
      ensures r == Err(Refused) ==> old(readBuffer.wBase) + give >= U32_MODULUS
    {
      ghost var shown := httpBuf[httpPos..httpBufLen];
      var piece := httpBuf[httpPos..httpPos + give];
      assert piece == shown[..give] == (shown + transport.input)[..give];
      assert (shown + transport.input)[give..] == shown[give..] + transport.input;
      ghost var w := readBuffer.wBase;
      var ok := readBuffer.Write(piece);
      if ok.Err? { return Err(Refused); }
      httpPos := httpPos + give;
      assert httpBuf[httpPos..httpBufLen] == shown[give..];
      r := Ok(());
    }

    /** One round of `readContent`: what is buffered, after a refill if that is nothing. */
    method GiveSome(need: nat) returns (r: Result<nat, Error>)
      requires Valid() && need > 0
      modifies this`httpBuf, this`httpPos, this`httpBufLen, this`httpBufSize, httpBuf, transport`input
      modifies readBuffer, readBuffer.buffer
      ensures Valid() && (httpBuf == old(httpBuf) || fresh(httpBuf))
      ensures readBuffer.buffer == old(readBuffer.buffer) || fresh(readBuffer.buffer)
      ensures r.Ok? ==>
                && 0 < r.value <= need && r.value <= |old(Unread())|
                && readBuffer.Contents() == old(readBuffer.Contents()) + old(Unread())[..r.value]
                && Unread() == old(Unread())[r.value..]
                && readBuffer.wBase == old(readBuffer.wBase) + r.value
      ensures Held() <= old(Held())
      ensures r == Err(EndOfFile) ==> old(Unread()) == []
      ensures r == Err(Refused) ==> old(readBuffer.wBase) + need >= U32_MODULUS
      ensures r.Ok? || r == Err(EndOfFile) || r == Err(Refused)
      ensures old(Shown()) != [] ==>
                && r != Err(EndOfFile) && Below() == old(Below())
                && (r.Ok? ==> r.value == Min(need, |old(Shown())|) && Shown() == old(Shown())[r.value..])
    {
      var avail := httpBufLen - httpPos;
      if avail == 0 {
        var _ :- Restart();
        avail := httpBufLen;
      }
      var give := Min(need, avail);
      var _ :- Give(give);
      r := Ok(give);
    }

    /** `readContent`: the next `size` bytes, across as many refills as it takes. */
    method ReadContent(size: u32) returns (r: Result<(), Error>)
      requires Valid()
      modifies this`httpBuf, this`httpPos, this`httpBufLen, this`httpBufSize, httpBuf, transport`input
      modifies readBuffer, readBuffer.buffer
      ensures Valid() && (httpBuf == old(httpBuf) || fresh(httpBuf))
      ensures readBuffer.buffer == old(readBuffer.buffer) || fresh(readBuffer.buffer)
      ensures r.Ok? ==>
                && |old(Unread())| >= size && Unread() == old(Unread())[size..]
                && readBuffer.Contents() == old(readBuffer.Contents()) + old(Unread())[..size]
                && readBuffer.wBase == old(readBuffer.wBase) + size
      ensures Held() <= old(Held())
      ensures r == Err(EndOfFile) ==> |old(Unread())| < size
      ensures r == Err(Refused) ==> old(readBuffer.wBase) + size >= U32_MODULUS
      ensures r.Ok? || r == Err(EndOfFile) || r == Err(Refused)
      ensures size <= |old(Shown())| ==>
                r != Err(EndOfFile) && Below() == old(Below()) && (r.Ok? ==> Shown() == old(Shown())[size..])
    {
      hide Bounds, Unread, Held, Shown, Below;
      ghost var u, c, w, shown := Unread(), readBuffer.Contents(), readBuffer.wBase, Shown();
      var need: nat := size;
      assert u[..0] == [] && u[0..] == u && c + [] == c;
      while need > 0
        invariant Valid() && (httpBuf == old(httpBuf) || fresh(httpBuf)) && need <= size && Held() <= old(Held())
        invariant readBuffer.buffer == old(readBuffer.buffer) || fresh(readBuffer.buffer)
        invariant size - need <= |u| && Unread() == u[size - need..]
        invariant size <= |shown| ==> Below() == old(Below()) && Shown() == shown[size - need..]
        invariant readBuffer.Contents() == c + u[..size - need] && readBuffer.wBase == w + (size - need)
        decreases need
      {
        var given :- GiveSome(need);
        Advance(u, c, size - need, given);
        if size <= |shown| { Dropped(shown, size - need, given); }
        need := need - given;
      }
      r := Ok(());
    }

    static lemma Dropped(s: seq<byte>, done: nat, give: nat)
      requires done + give <= |s|
      ensures s[done..][give..] == s[done + give..]
    {
    }

    static lemma Advance(u: seq<byte>, c: seq<byte>, done: nat, give: nat)
      requires done + give <= |u|
      ensures c + u[..done] + u[done..][..give] == c + u[..done + give]
      ensures u[done..][give..] == u[done + give..]
    {
    }

    /** All the data given: start over at the head of the buffer. */
    method Restart() returns (r: Result<(), Error>)
      requires Valid() && httpPos == httpBufLen
      modifies this`httpBuf, this`httpPos, this`httpBufLen, this`httpBufSize, httpBuf, transport`input
      ensures Valid() && (httpBuf == old(httpBuf) || fresh(httpBuf)) && Unread() == old(Unread())
      ensures r.Ok? ==> httpPos == 0 < httpBufLen
      ensures Held() <= old(Held())
      ensures r == Err(EndOfFile) ==> Unread() == []
      ensures r.Ok? || r == Err(EndOfFile)
    {
      ghost var input := transport.input;
      assert Unread() == [] + input == input;
      httpPos, httpBufLen := 0, 0;
      assert Unread() == [] + input == input;
      r := Refill();
    }

    // ---------------------------------------------------------------- chunks

    /** `readChunkedFooters`. */
    method ReadChunkedFooters() returns (r: Result<(), Error>)
      requires BufferOk()
      modifies this`httpBuf, this`httpPos, this`httpBufLen, this`httpBufSize, this`chunkedDone, httpBuf, transport`input
      ensures BufferOk() && (httpBuf == old(httpBuf) || fresh(httpBuf))
      ensures r.Ok? ==> chunkedDone && AfterFooters(old(Unread())) == Some(Unread())
      ensures r.Err? ==> chunkedDone == old(chunkedDone)
      ensures r == Err(EndOfFile) ==> AfterFooters(old(Unread())) == None
      ensures Held() <= old(Held())
      ensures r == Err(Overflow) ==> old(Held()) >= FULL && (AfterFooters(old(Unread())).Some? ==> old(Held()) >= FULL + 3)
      ensures r.Ok? || r == Err(EndOfFile) || r == Err(Overflow)
    {
      hide Bounds, FindCrlf, Unread, Held, Shown, Below;
      while true
        invariant BufferOk() && (httpBuf == old(httpBuf) || fresh(httpBuf)) && Held() <= old(Held())
        invariant AfterFooters(Unread()) == AfterFooters(old(Unread())) && chunkedDone == old(chunkedDone)
        decreases |Unread()|
      {
        HeldAll();
        var line :- ReadLine();
        if line == [] {
          chunkedDone := true;
          return Ok(());
        }
      }
    }

    /** The data of a chunk and the line behind it. */
    method ReadData(size: u32) returns (r: Result<(), Error>)
      requires Valid()
      modifies this`httpBuf, this`httpPos, this`httpBufLen, this`httpBufSize, httpBuf, transport`input
      modifies readBuffer, readBuffer.buffer
      ensures Valid() && (httpBuf == old(httpBuf) || fresh(httpBuf))
      ensures readBuffer.buffer == old(readBuffer.buffer) || fresh(readBuffer.buffer)
      ensures r.Ok? ==>
                && var u := old(Unread());
                && |u| >= size && FindCrlf(u[size..]).Some?
                && Unread() == u[size..][FindCrlf(u[size..]).value + 2..]
                && readBuffer.Contents() == old(readBuffer.Contents()) + u[..size]
                && readBuffer.wBase == old(readBuffer.wBase) + size
      ensures r == Err(EndOfFile) ==> |old(Unread())| < size || FindCrlf(old(Unread())[size..]) == None
      ensures Held() <= old(Held())
      ensures r == Err(Overflow) && size > 0 ==> Crowded(PieceAfter(size, old(Unread())), old(Held()))
      ensures r == Err(Refused) ==> old(readBuffer.wBase) + size >= U32_MODULUS
      ensures size <= |old(Shown())| && FindCrlf(old(Shown())[size..]).Some? ==>
                && (r.Ok? || r == Err(Refused)) && Below() == old(Below())
                && (r.Ok? ==> Shown() == old(Shown())[size..][FindCrlf(old(Shown())[size..]).value + 2..])
    {
      hide Bounds, FindCrlf, Unread, Held, Shown, Below;
      var _ :- ReadContent(size);
      HeldAll();
      var _ :- ReadLine();
      r := Ok(());
    }

    /** What follows the line with the chunk size. */
    method ReadPiece(chunkSize: u32) returns (r: Result<u32, Error>)
      requires Valid()
      modifies this`httpBuf, this`httpPos, this`httpBufLen, this`httpBufSize, this`chunkedDone, httpBuf, transport`input
      modifies readBuffer, readBuffer.buffer
      ensures Valid() && (httpBuf == old(httpBuf) || fresh(httpBuf))
      ensures readBuffer.buffer == old(readBuffer.buffer) || fresh(readBuffer.buffer)
      ensures Outcome(r, PieceAfter(chunkSize, old(Unread())), old(State()), State())
      ensures PieceAfter(chunkSize, old(Shown())).Data? ==>
                && (r.Ok? || r == Err(Refused)) && Below() == old(Below())
                && (r.Ok? ==> Shown() == PieceAfter(chunkSize, old(Shown())).rest)
    {
      DataPiece(chunkSize, Shown());
      hide Bounds, FindCrlf, AfterFooters, PieceAfter;
      ghost var before := State();
      if chunkSize == 0 {
        var footers := ReadChunkedFooters();
        r := if footers.Ok? then Ok(0) else Err(footers.error);
        EndOutcome(r, before, State());
      } else {
        var data := ReadData(chunkSize);
        r := if data.Ok? then Ok(chunkSize) else Err(data.error);
        DataOutcome(r, chunkSize, before, State());
      }
    }

    static lemma DataPiece(size: u32, t: seq<byte>)
      ensures PieceAfter(size, t).Data? ==>
                && 0 < size <= |t| && FindCrlf(t[size..]).Some?
                && PieceAfter(size, t).rest == t[size..][FindCrlf(t[size..]).value + 2..]
    {
    }

    static lemma EndOutcome(r: Result<u32, Error>, before: Progress, after: Progress)
      requires r.Ok? ==> r.value == 0 && AfterFooters(before.unread) == Some(after.unread) &&
                         after == before.(unread := after.unread, done := true, held := after.held)
      requires after.held <= before.held
      requires r == Err(EndOfFile) ==> AfterFooters(before.unread) == None
      requires r == Err(Overflow) ==>
                 before.held >= FULL && (AfterFooters(before.unread).Some? ==> before.held >= FULL + 3)
      requires r != Err(Refused)
      ensures Outcome(r, PieceAfter(0, before.unread), before, after)
    {
    }

    static lemma DataOutcome(r: Result<u32, Error>, size: u32, before: Progress, after: Progress)
      requires size > 0
      requires r.Ok? ==>
                 && r.value == size && |before.unread| >= size && FindCrlf(before.unread[size..]).Some?
                 && after == Progress(before.unread[size..][FindCrlf(before.unread[size..]).value + 2..],
                                      before.contents + before.unread[..size], before.end + size,
                                      before.done, after.held)
      requires after.held <= before.held
      requires r == Err(EndOfFile) ==> |before.unread| < size || FindCrlf(before.unread[size..]) == None
      requires r == Err(Overflow) ==> Crowded(PieceAfter(size, before.unread), before.held)
      requires r == Err(Refused) ==> before.end + size >= U32_MODULUS
      ensures Outcome(r, PieceAfter(size, before.unread), before, after)
    {
    }

    ghost function State(): Progress
      reads this, httpBuf, transport, readBuffer, readBuffer.buffer
      requires Bounds() && readBuffer.Valid()
    {
      Progress(Unread(), readBuffer.Contents(), readBuffer.wBase, chunkedDone, Held())
    }

    /** `readChunked`: the next chunk joins the read buffer, or the footers are passed. */
    method ReadChunked() returns (r: Result<u32, Error>)
      requires Valid()
      modifies this`httpBuf, this`httpPos, this`httpBufLen, this`httpBufSize, this`chunkedDone, httpBuf, transport`input
      modifies readBuffer, readBuffer.buffer
      ensures Valid() && (httpBuf == old(httpBuf) || fresh(httpBuf))
      ensures readBuffer.buffer == old(readBuffer.buffer) || fresh(readBuffer.buffer)
      ensures Outcome(r, NextPiece(old(Unread())), old(State()), State())
      ensures old(Stalls()) ==> r == Err(Overflow)
      ensures NextPiece(old(Shown())).Data? ==>
                && (r.Ok? || r == Err(Refused)) && Below() == old(Below())
                && (r.Ok? ==> Shown() == NextPiece(old(Shown())).rest)
    {
      hide Bounds, FindCrlf, ChunkSize, PieceAfter, Stalls;
      HeldAll();
      var line :- ReadLine();
      r := ReadPiece(ChunkSize(line));
    }

    /** The refill in front of `readMoreData` when everything buffered has been consumed. */
    method RefillIfEmpty() returns (r: Result<(), Error>)
      requires Valid()
      modifies this`httpBuf, this`httpBufLen, this`httpBufSize, httpBuf, transport`input
      ensures Valid() && Unread() == old(Unread()) && (httpBuf == old(httpBuf) || fresh(httpBuf))
      ensures r == Err(EndOfFile) ==> Unread() == []
      ensures Held() <= old(Held())
      ensures r == Err(Overflow) ==> old(Held()) >= FULL + |Unread()|
      ensures r.Ok? || r == Err(EndOfFile) || r == Err(Overflow)
      ensures old(Stalls()) ==> r == Err(Overflow) || (r.Ok? && Stalls())
      ensures old(Jammed()) ==> r == Err(Overflow)
      ensures old(Brings()) ==>
                r.Ok? && Below() == old(NextBelow()) && Shown() == old(transport.input)[..old(Due())]
    {
      hide Stalls;
      ghost var input, brings, due := transport.input, Brings(), Due();
      assert httpPos == httpBufLen ==> Unread() == [] + input == input;
      if httpPos == httpBufLen {
        r := Refill();
        if brings {
          Behind(Shown(), transport.input, input, due);
        }
      } else {
        r := Ok(());
      }
    }

    static lemma Behind(shown: seq<byte>, rest: seq<byte>, input: seq<byte>, due: nat)
      requires due <= |input| && |shown| == due && shown + rest == input
      ensures shown == input[..due] && rest == input[due..]
    {
    }

    /** `readMoreData` of a chunked body. */
    method ReadMoreData() returns (r: Result<u32, Error>)
      requires Valid() && chunked
      modifies this`httpBuf, this`httpPos, this`httpBufLen, this`httpBufSize, this`chunkedDone
      modifies httpBuf, transport`input, readBuffer, readBuffer.buffer
      ensures Valid() && (httpBuf == old(httpBuf) || fresh(httpBuf))
      ensures readBuffer.buffer == old(readBuffer.buffer) || fresh(readBuffer.buffer)
      ensures Outcome(r, NextPiece(old(Unread())), old(State()), State())
      ensures old(Stalls()) || old(Jammed()) ==> r == Err(Overflow)
      ensures old(Brings()) && NextPiece(old(transport.input)[..old(Due())]).Data? ==>
                && (r.Ok? || r == Err(Refused)) && Below() == old(NextBelow())
                && (r.Ok? ==> Shown() == NextPiece(old(transport.input)[..old(Due())]).rest)
    {
      hide Bounds, NextPiece, Outcome, Stalls, Brings, Jammed;
      ghost var before := State();
      var refilled := RefillIfEmpty();
      if refilled.Err? {
        r := Err(refilled.error);
        NothingComes(r, before, State());
        return;
      }
      ghost var refreshed := State();
      r := ReadChunked();
      EarlierHeld(r, NextPiece(before.unread), before, refreshed, State());
    }

    static lemma NothingComes(r: Result<u32, Error>, before: Progress, after: Progress)
      requires after.held <= before.held
      requires (r == Err(EndOfFile) && before.unread == []) || (r == Err(Overflow) && before.held >= FULL + |before.unread|)
      ensures Outcome(r, NextPiece(before.unread), before, after)
    {
    }

    static lemma EarlierHeld(r: Result<u32, Error>, p: Piece, a: Progress, b: Progress, after: Progress)
      requires b == a.(held := b.held) && b.held <= a.held && Outcome(r, p, b, after)
      ensures Outcome(r, p, a, after)
    {
    }

    /** The next chunk into the emptied read buffer. */
    method Fetch() returns (r: Result<u32, Error>)
      requires Valid() && chunked && readBuffer.Contents() == []
      modifies this`httpBuf, this`httpPos, this`httpBufLen, this`httpBufSize, this`chunkedDone
      modifies httpBuf, transport`input, readBuffer, readBuffer.buffer
      ensures Valid() && (httpBuf == old(httpBuf) || fresh(httpBuf))
      ensures readBuffer.buffer == old(readBuffer.buffer) || fresh(readBuffer.buffer)
      ensures r.Ok? ==>
                match NextPiece(old(Unread()))
                case Data(d, rest) =>
                  r.value == |d| > 0 && readBuffer.Contents() == d && Unread() == rest && chunkedDone == old(chunkedDone)
                case End(rest) =>
                  r.value == 0 && readBuffer.Contents() == [] && Unread() == rest && chunkedDone
                case Bad => false
      ensures Held() <= old(Held())
      ensures r.Err? ==> NextPiece(old(Unread())) == Bad || r == Err(Overflow)
      ensures r == Err(Overflow) ==> Crowded(NextPiece(old(Unread())), old(Held()))
      ensures old(Stalls()) || old(Jammed()) ==> r == Err(Overflow)
      ensures old(Brings()) && NextPiece(old(transport.input)[..old(Due())]).Data? ==>
                && (r.Ok? || r == Err(Refused)) && Below() == old(NextBelow())
                && (r.Ok? ==> Shown() == NextPiece(old(transport.input)[..old(Due())]).rest)
    {
      hide Bounds, NextPiece, Outcome, Stalls, Brings, Jammed;
      readBuffer.Reset();
      assert Stalls() == old(Stalls()) && Unread() == old(Unread()) && Held() == old(Held());
      assert Jammed() == old(Jammed()) && Brings() == old(Brings()) && (Brings() ==> NextBelow() == old(NextBelow()));
      ghost var before := State();
      r := ReadMoreData();
      EmptyOutcome(r, NextPiece(before.unread), before, State());
    }

    static lemma EmptyOutcome(r: Result<u32, Error>, p: Piece, before: Progress, after: Progress)
      requires Outcome(r, p, before, after) && before.contents == [] && before.end == 0
      requires p.Data? ==> 0 < |p.data| < U32_MODULUS
      ensures after.held <= before.held
      ensures r.Ok? ==>
                match p
                case Data(d, rest) =>
                  r.value == |d| > 0 && after.contents == d && after.unread == rest && after.done == before.done
                case End(rest) => r.value == 0 && after.contents == [] && after.unread == rest && after.done
                case Bad => false
      ensures r.Err? ==> p == Bad || r == Err(Overflow)
      ensures r == Err(Overflow) ==> Crowded(p, before.held)
    {
      if p.Data? { assert [] + p.data == p.data; }
    }

    /** `read` of a chunked body. */
    method Read(len: u32) returns (r: Result<seq<byte>, Error>)
      requires Valid() && chunked
      modifies this`httpBuf, this`httpPos, this`httpBufLen, this`httpBufSize, this`chunkedDone
      modifies httpBuf, transport`input, readBuffer, readBuffer.buffer
      ensures Valid() && (httpBuf == old(httpBuf) || fresh(httpBuf))
      ensures readBuffer.buffer == old(readBuffer.buffer) || fresh(readBuffer.buffer)
      ensures old(readBuffer.Contents()) != [] ==>
                && r.Ok? && |r.value| == Min(len, |old(readBuffer.Contents())|)
                && old(readBuffer.Contents()) == r.value + readBuffer.Contents()
                && Unread() == old(Unread()) && chunkedDone == old(chunkedDone)
      ensures old(readBuffer.Contents()) == [] && r.Ok? ==>
                match NextPiece(old(Unread()))
                case Data(d, rest) =>
                  && d == r.value + readBuffer.Contents() && |r.value| == Min(len, |d|)
                  && Unread() == rest && chunkedDone == old(chunkedDone)
                case End(rest) =>
                  r.value == [] == readBuffer.Contents() && Unread() == rest && chunkedDone
                case Bad => false
      ensures Held() <= old(Held())
      ensures r.Err? ==> NextPiece(old(Unread())) == Bad || r == Err(Overflow)
      ensures r == Err(Overflow) ==> Crowded(NextPiece(old(Unread())), old(Held()))
      ensures (old(Stalls()) || old(Jammed())) && old(readBuffer.Contents()) == [] ==> r == Err(Overflow)
      ensures old(Brings()) && old(readBuffer.Contents()) == [] && NextPiece(old(transport.input)[..old(Due())]).Data? ==>
                && Below() == old(NextBelow()) && (r.Ok? || r == Err(Refused))
                && (r.Ok? ==> Shown() == NextPiece(old(transport.input)[..old(Due())]).rest)
    {
      hide Bounds, NextPiece, Stalls, Brings, Jammed;
      if readBuffer.rBase == readBuffer.wBase {
        var got :- Fetch();
        if got == 0 { return Ok([]); }
      }
      var bytes := readBuffer.Read(len);
      r := Ok(bytes);
    }

    /** What a reader of the body is still going to get, and what stands behind it. */
    ghost function Remaining(): Option<(seq<byte>, seq<byte>)>
      reads this, httpBuf, transport, readBuffer, readBuffer.buffer
      requires Bounds() && readBuffer.Valid()
    {
      if chunkedDone then Some((readBuffer.Contents(), Unread()))
      else
        match Decoded(Unread())
        case None => None
        case Some((d, end)) => Some((readBuffer.Contents() + d, end))
    }

    /** A whole chunked body, read with sizes of the caller's choosing: while the body is well
        formed, what comes out are consecutive pieces of the data of its chunks, and a read
        that returns nothing has stopped exactly behind it. */
    method ReadBody(lens: seq<u32>) returns (r: Result<seq<byte>, Error>)
      requires Valid() && chunked && !chunkedDone
      requires forall i :: 0 <= i < |lens| ==> lens[i] > 0
      modifies this`httpBuf, this`httpPos, this`httpBufLen, this`httpBufSize, this`chunkedDone
      modifies httpBuf, transport`input, readBuffer, readBuffer.buffer
      ensures Valid()
      ensures r.Ok? && old(Remaining()).Some? ==>
                && Remaining().Some? && Remaining().value.1 == old(Remaining()).value.1
                && old(Remaining()).value.0 == r.value + Remaining().value.0
      ensures r.Ok? && chunkedDone && old(Remaining()).Some? ==>
                r.value == old(Remaining()).value.0 && Unread() == old(Remaining()).value.1
      ensures Held() <= old(Held())
      ensures r.Err? && old(Remaining()).Some? ==> r == Err(Overflow) && old(Held()) >= FULL + 3
    {
      hide Bounds, NextPiece;
      ghost var all := Remaining();
      var bytes: seq<byte> := [];
      for i := 0 to |lens|
        invariant Valid() && !chunkedDone && Held() <= old(Held())
        invariant httpBuf == old(httpBuf) || fresh(httpBuf)
        invariant readBuffer.buffer == old(readBuffer.buffer) || fresh(readBuffer.buffer)
        invariant all.Some? ==> Remaining().Some? && Remaining().value.1 == all.value.1
                                && all.value.0 == bytes + Remaining().value.0
      {
        ghost var before := Remaining();
        var got :- ReadStep(lens[i]);
        if before.Some? { Assoc(bytes, got, Remaining().value.0); }
        bytes := bytes + got;
        if got == [] { break; }
      }
      r := Ok(bytes);
    }

    /** One read of it. */
    method ReadStep(len: u32) returns (r: Result<seq<byte>, Error>)
      requires Valid() && chunked && !chunkedDone && len > 0
      modifies this`httpBuf, this`httpPos, this`httpBufLen, this`httpBufSize, this`chunkedDone
      modifies httpBuf, transport`input, readBuffer, readBuffer.buffer
      ensures Valid() && (httpBuf == old(httpBuf) || fresh(httpBuf))
      ensures readBuffer.buffer == old(readBuffer.buffer) || fresh(readBuffer.buffer)
      ensures r.Ok? ==> (r.value == [] <==> chunkedDone) && (chunkedDone ==> readBuffer.Contents() == [])
      ensures r.Ok? && old(Remaining()).Some? ==>
                && Remaining().Some? && Remaining().value.1 == old(Remaining()).value.1
                && old(Remaining()).value.0 == r.value + Remaining().value.0
      ensures Held() <= old(Held())
      ensures r.Err? && old(Remaining()).Some? ==> r == Err(Overflow) && old(Held()) >= FULL + 3
    {
      hide Bounds, NextPiece;
      ghost var c, u := readBuffer.Contents(), Unread();
      StillEnds(u);
      r := Read(len);
      if r.Ok? && Decoded(u).Some? {
        var d := Decoded(u).value.0;
        if c != [] {
          Assoc(r.value, readBuffer.Contents(), d);
        } else if NextPiece(u).Data? {
          assert [] + d == d;
          Assoc(r.value, readBuffer.Contents(), Decoded(Unread()).value.0);
        } else {
          assert [] + d == d;
        }
      }
    }

    /** `readEnd`: what is left of a chunked body is read, footers included. */
    method ReadEnd() returns (r: Result<(), Error>)
      requires Valid()
      modifies this`httpBuf, this`httpPos, this`httpBufLen, this`httpBufSize, this`chunkedDone
      modifies httpBuf, transport`input, readBuffer, readBuffer.buffer
      ensures Valid()
      ensures !chunked || old(chunkedDone) ==> r.Ok? && Unread() == old(Unread())
      ensures r.Ok? && chunked ==> chunkedDone
      ensures r.Ok? && chunked && !old(chunkedDone) ==>
                && old(readBuffer.Contents()) <= readBuffer.Contents()
                && Decoded(old(Unread())) == Some((readBuffer.Contents()[|old(readBuffer.Contents())|..], Unread()))
      ensures r == Err(EndOfFile) ==> Decoded(old(Unread())) == None
      ensures r == Err(Refused) && Decoded(old(Unread())).Some? ==>
                old(readBuffer.wBase) + |Decoded(old(Unread())).value.0| >= U32_MODULUS
      ensures Held() <= old(Held())
      ensures r == Err(Overflow) ==> old(Held()) >= FULL && (Decoded(old(Unread())).Some? ==> old(Held()) >= FULL + 3)
      ensures old(Stalls()) && chunked && !old(chunkedDone) ==> r == Err(Overflow)
    {
      hide Bounds, NextPiece, Stalls, Jammed, Brings, Decoded;
      if !chunked { return Ok(()); }
      ghost var c, u, was := readBuffer.Contents(), Unread(), chunkedDone;
      ghost var data: seq<byte> := [];
      assert c + [] == c;
      assert Onto([], Decoded(u)) == Decoded(u) by {
        assert Decoded(u).Some? ==> [] + Decoded(u).value.0 == Decoded(u).value.0;
      }
      while !chunkedDone
        invariant Valid() && (httpBuf == old(httpBuf) || fresh(httpBuf)) && Held() <= old(Held())
        invariant readBuffer.buffer == old(readBuffer.buffer) || fresh(readBuffer.buffer)
        invariant readBuffer.Contents() == c + data && readBuffer.wBase == old(readBuffer.wBase) + |data|
        invariant was ==> chunkedDone && Unread() == u
        invariant old(Stalls()) && !was ==> Stalls() && !chunkedDone
        invariant !was && chunkedDone ==> Decoded(u) == Some((data, Unread()))
        invariant !was && !chunkedDone ==> Decoded(u) == Onto(data, Decoded(Unread()))
        decreases !chunkedDone, |Unread()|
      {
        ghost var v := Unread();
        DecodedStep(v, data);
        StillEnds(v);
        var n :- ReadChunked();
        ghost var p := NextPiece(v);
        if p.Data? {
          Assoc(c, data, p.data);
          data := data + p.data;
        }
      }
      assert readBuffer.Contents()[|c|..] == data;
      r := Ok(());
    }

    /** What follows a chunk of a well-formed body has four bytes at least. */
    static lemma StillEnds(u: seq<byte>)
      ensures Decoded(u).Some? && NextPiece(u).Data? ==> |NextPiece(u).rest| >= 4
      ensures Decoded(u).Some? ==> !NextPiece(u).Bad?
    {
      if Decoded(u).Some? && NextPiece(u).Data? { DecodedLength(NextPiece(u).rest); }
    }

    static function Onto(data: seq<byte>, o: Option<(seq<byte>, seq<byte>)>): Option<(seq<byte>, seq<byte>)> {
      match o
      case None => None
      case Some((d, end)) => Some((data + d, end))
    }

    static lemma DecodedStep(v: seq<byte>, data: seq<byte>)
      ensures match NextPiece(v)
              case Bad => Decoded(v) == None
              case End(rest) => Onto(data, Decoded(v)) == Some((data, rest))
              case Data(d, rest) => Onto(data, Decoded(v)) == Onto(data + d, Decoded(rest))
    {
      assert data + [] == data;
      match NextPiece(v)
      case Bad =>
      case End(_) =>
      case Data(d, rest) =>
        if Decoded(rest).Some? { Assoc(data, d, Decoded(rest).value.0); }
    }
  }
}
