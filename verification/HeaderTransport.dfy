/** THeaderTransport as the object it is: assembling a frame in `tBuf_`, parsing one in `rBuf_`. */
module HeaderTransport {
  import opened Bytes
  import opened HeaderFormat
  import opened Stream

  const DEFAULT_BUFFER_SIZE: nat := 512

  /** The estimate fits a `uint32_t` and the buffer, and the lengths their casts. */
  predicate Sendable(order: seq<Pair>, payload: seq<byte>, room: nat) {
    Short(order) && Estimate(order, payload) < U32_MODULUS && Estimate(order, payload) <= room
  }

  /** A frame that passes the check against the estimate fits, or the estimate has wrapped. */
  lemma CheckedFits(protoId: nat, order: seq<Pair>, m: map<Text, Text>, payload: seq<byte>, room: nat)
    requires protoId < 0x8000 && Enumerates(order, m) && |payload| <= MAX_FRAME_SIZE
    requires CheckedEstimate(order, payload).Some? && CheckedEstimate(order, payload).value <= room
    ensures Assembled(protoId, order) > room ==> Estimate(order, payload) >= U32_MODULUS
    ensures Sendable(order, payload, room) ==>
              && Short(order) && Assembled(protoId, order) <= room
              && (|Padded(Head(protoId, order))| + |payload|) % U32_MODULUS + 10 < U32_MODULUS
  {
    hide Enumerates, MaxHeaders, Short, Padded, Head;
    EstimateSound(protoId, order, m, payload);
    EstimateSound(protoId, order, m, []);
  }

  lemma NotChecked(order: seq<Pair>, payload: seq<byte>, room: nat)
    requires Sendable(order, payload, room)
    ensures CheckedEstimate(order, payload).Some? && CheckedEstimate(order, payload).value <= room
    ensures MaxHeaders(order) < U32_MODULUS
  {
  }

  lemma WholeFrame(input: seq<byte>, sz: nat)
    requires 4 <= sz && |input| >= 4 + sz
    ensures input[4..8] + input[8..][..sz - 4] == input[4..4 + sz] && input[8..][sz - 4..] == input[4 + sz..]
    ensures input[4..4 + sz][..4] == input[4..8]
  {
  }

  class Header {
    const transport: Transport
    var wBuf: array<byte>          // what has been written since the last flush: wBuf[..wBase]
    var wBase: nat
    var tBuf: array<byte>
    var rBuf: array<byte>
    var rBase: nat                 // unread: rBuf[rBase..rBound]
    var rBound: nat
    var clientType: Client
    var protoId: int
    var flags: nat
    var seqId: u32
    var writeHeaders: map<Text, Text>
    var readHeaders: map<Text, Text>

    ghost predicate Valid()
      reads this
    {
      && wBase <= wBuf.Length && rBase <= rBound <= rBuf.Length
      && wBuf != tBuf && wBuf != rBuf && tBuf != rBuf
      && flags < 0x1_0000 && -0x8000 <= protoId < 0x8000
    }

    ghost function Unread(): seq<byte>
      reads this, rBuf
      requires Valid()
    {
      rBuf[rBase..rBound]
    }

    constructor (transport: Transport, wBufSize: nat)
      ensures Valid() && this.transport == transport && wBase == 0 && Unread() == []
      ensures clientType == HeaderClient && protoId == 2 && flags == 0 && seqId == 0
      ensures writeHeaders == readHeaders == map[] && wBuf.Length == wBufSize
      ensures fresh(wBuf) && fresh(tBuf) && fresh(rBuf)
    {
      this.transport := transport;
      wBuf, tBuf, rBuf := new byte[wBufSize], new byte[0], new byte[0];
      wBase, rBase, rBound := 0, 0, 0;
      clientType, protoId, flags, seqId := HeaderClient, 2, 0, 0;
      writeHeaders, readHeaders := map[], map[];
    }

    // ---------------------------------------------------------------- writing

    /** `resizeTransformBuffer`: at least 512 bytes more than the write buffer. */
    method ResizeTransformBuffer()
      requires Valid()
      modifies this`tBuf
      ensures Valid() && (tBuf == old(tBuf) || fresh(tBuf))
      ensures tBuf.Length >= (wBuf.Length + DEFAULT_BUFFER_SIZE) % U32_MODULUS
      ensures tBuf.Length >= old(tBuf).Length
    {
      var size := (wBuf.Length + DEFAULT_BUFFER_SIZE) % U32_MODULUS;
      if tBuf.Length < size {
        tBuf := new byte[size];
      }
    }

    /** The order in which the map is walked. */
    method Walk(m: map<Text, Text>) returns (order: seq<Pair>)
      ensures Enumerates(order, m)
      decreases |m|
    {
      if m == map[] { return []; }
      var key :| key in m;
      var rest := Walk(m - {key});
      order := [Pair(key, m[key])] + rest;
    }

    /** `getMaxWriteHeadersSize`: the cast throws when the sum does not fit. */
    method GetMaxWriteHeadersSize(order: seq<Pair>) returns (r: Result<nat, Error>)
      ensures r == if MaxHeaders(order) < U32_MODULUS then Ok(MaxHeaders(order)) else Err(TooLong)
    {
      var sum, i := 0, 0;
      while i < |order|
        invariant 0 <= i <= |order| && sum + MaxHeaders(order[i..]) == MaxHeaders(order)
      {
        assert order[i..][1..] == order[i + 1..];
        sum := sum + 5 + 5 + |order[i].key| + |order[i].value|;
        i := i + 1;
      }
      r := if sum < U32_MODULUS then Ok(sum) else Err(TooLong);
    }

    /** Copy some bytes to `at` and return the position behind them. */
    method Put(at: nat, bytes: seq<byte>) returns (r: Result<nat, Error>)
      modifies tBuf
      ensures r == if at + |bytes| <= tBuf.Length then Ok(at + |bytes|) else Err(OutOfBounds)
      ensures r.Ok? ==> tBuf[..r.value] == old(tBuf[..at]) + bytes
    {
      if at + |bytes| > tBuf.Length { return Err(OutOfBounds); }
      forall i | 0 <= i < |bytes| {
        tBuf[at + i] := bytes[i];
      }
      assert tBuf[at..at + |bytes|] == bytes;
      assert tBuf[..at + |bytes|] == tBuf[..at] + tBuf[at..at + |bytes|];
      return Ok(at + |bytes|);
    }

    /** `writeVarint32`: the digits go through a buffer of five bytes. */
    method WriteVarint32(n: int, at: nat) returns (r: Result<nat, Error>)
      requires -INT32_SIGN <= n <= INT32_MAX
      modifies tBuf
      ensures r == if n >= 0 && at + |Varint(n)| <= tBuf.Length then Ok(at + |Varint(n)|) else Err(OutOfBounds)
      ensures r.Ok? ==> tBuf[..r.value] == old(tBuf[..at]) + Varint(n)
    {
      var buf: array<byte> := new byte[5];
      var size := VarintDigits(n, buf);
      if size == None { return Err(OutOfBounds); }
      r := Put(at, buf[..size.value]);
    }

    /** The loop that fills the buffer of five bytes. For a negative number the last digit never
        comes, and the sixth store leaves the buffer. */
    static method VarintDigits(n: int, buf: array<byte>) returns (size: Option<nat>)
      requires n <= INT32_MAX && buf.Length == 5
      modifies buf
      ensures size == if n < 0 then None else Some(|Varint(n)|)
      ensures n >= 0 ==> |Varint(n)| <= 5 && buf[..|Varint(n)|] == Varint(n)
    {
      hide Varint;
      if n >= 0 { VarintLength(n); }
      var k, at := n, 0;
      assert n >= 0 ==> buf[..0] + Varint(n) == Varint(n);
      while !(0 <= k < 0x80)
        invariant 0 <= at <= 5 && (n >= 0 <==> k >= 0)
        invariant n >= 0 ==> at + |Varint(k)| == |Varint(n)| && buf[..at] + Varint(k) == Varint(n)
        decreases 5 - at
      {
        if k >= 0 { VarintDigit(k); VarintDigit(k / 0x80); }
        if at == 5 { return None; }
        ghost var done := buf[..at];
        buf[at] := k % 0x80 + 0x80;
        assert buf[..at + 1] == done + [k % 0x80 + 0x80];
        if k >= 0 { Assoc(done, [buf[at]], Varint(k / 0x80)); }
        at, k := at + 1, k / 0x80;
      }
      VarintDigit(k);
      ghost var done := buf[..at];
      buf[at] := k;
      assert buf[..at + 1] == done + [k];
      size := Some(at + 1);
    }

    static lemma VarintDigit(k: nat)
      ensures Varint(k) == if k < 0x80 then [k] else [k % 0x80 + 0x80] + Varint(k / 0x80)
      ensures |Varint(k)| > 0 && k / 0x80 <= k
    {
    }

    /** `writeString`. */
    method WriteString(s: Text, at: nat) returns (r: Result<nat, Error>)
      modifies tBuf
      ensures |s| < INT32_SIGN && at + |Str(s)| <= tBuf.Length ==> r == Ok(at + |Str(s)|)
      ensures r.Ok? ==> |s| < INT32_SIGN && r.value == at + |Str(s)| <= tBuf.Length
      ensures r.Ok? ==> tBuf[..r.value] == old(tBuf[..at]) + Str(s)
      ensures r == Err(OutOfBounds) ==> at + |Str(s)| > tBuf.Length
      ensures r == Err(TooLong) ==> |s| >= INT32_SIGN
      ensures r.Ok? || r == Err(OutOfBounds) || r == Err(TooLong)
    {
      if |s| >= INT32_SIGN { return Err(TooLong); }
      var p :- WriteVarint32(|s|, at);
      r := Put(p, s);
    }

    /** The loop over the headers. */
    method WritePairs(order: seq<Pair>, at: nat) returns (r: Result<nat, Error>)
      requires at <= tBuf.Length
      modifies tBuf
      ensures StringsFit(order) && at + |Pairs(order)| <= tBuf.Length ==> r == Ok(at + |Pairs(order)|)
      ensures r.Ok? ==> StringsFit(order) && r.value == at + |Pairs(order)| <= tBuf.Length
      ensures r.Ok? ==> tBuf[..r.value] == old(tBuf[..at]) + Pairs(order)
      ensures r == Err(OutOfBounds) ==> at + |Pairs(order)| > tBuf.Length
      ensures r == Err(TooLong) ==> !StringsFit(order)
      ensures r.Ok? || r == Err(OutOfBounds) || r == Err(TooLong)
    {
      hide Str, Varint;
      var p: nat := at;
      var i := 0;
      while i < |order|
        invariant 0 <= i <= |order| && p <= tBuf.Length
        invariant StringsFit(order) == StringsFit(order[i..])
        invariant p + |Pairs(order[i..])| == at + |Pairs(order)|
        invariant tBuf[..p] + Pairs(order[i..]) == old(tBuf[..at]) + Pairs(order)
      {
        ghost var rest, was := order[i..], tBuf[..p];
        var Pair(key, value) := order[i];
        assert rest[0] == order[i] && rest[1..] == order[i + 1..];
        p :- WriteString(key, p);
        p :- WriteString(value, p);
        Assoc(was + Str(key), Str(value), Pairs(rest[1..]));
        Assoc(was, Str(key), Str(value) + Pairs(rest[1..]));
        i := i + 1;
      }
      assert tBuf[..p] + [] == tBuf[..p];
      return Ok(p);
    }

    /** The key/value block. */
    method WriteInfo(order: seq<Pair>, at: nat) returns (r: Result<nat, Error>)
      requires at <= tBuf.Length && MaxHeaders(order) < U32_MODULUS
      modifies tBuf
      ensures Short(order) && at + |Info(order)| <= tBuf.Length ==> r == Ok(at + |Info(order)|)
      ensures r.Ok? ==> Short(order) && r.value == at + |Info(order)| <= tBuf.Length
      ensures r.Ok? ==> tBuf[..r.value] == old(tBuf[..at]) + Info(order)
      ensures r == Err(OutOfBounds) ==> at + |Info(order)| > tBuf.Length
      ensures r == Err(TooLong) ==> !Short(order)
      ensures r.Ok? || r == Err(OutOfBounds) || r == Err(TooLong)
    {
      hide Varint, MaxHeaders, Pairs, Short;
      StringsShort(order);
      if order == [] {
        assert tBuf[..at] + [] == tBuf[..at];
        return Ok(at);
      }
      ghost var was := tBuf[..at];
      var p: nat :- WriteVarint32(KEYVALUE, at);
      p :- WriteVarint32(|order|, p);
      p :- WritePairs(order, p);
      Assoc(was + Varint(KEYVALUE), Varint(|order|), Pairs(order));
      Assoc(was, Varint(KEYVALUE), Varint(|order|) + Pairs(order));
      return Ok(p);
    }

    /** Protocol id, number of transforms and info headers. */
    method WriteHead(order: seq<Pair>, at: nat) returns (r: Result<nat, Error>)
      requires at <= tBuf.Length && MaxHeaders(order) < U32_MODULUS && -0x8000 <= protoId < 0x8000
      modifies tBuf
      ensures protoId < 0 ==> r == Err(OutOfBounds)
      ensures protoId >= 0 && Short(order) && at + |Head(protoId, order)| <= tBuf.Length
              ==> r == Ok(at + |Head(protoId, order)|)
      ensures r.Ok? ==> Short(order) && r.value == at + |Head(protoId, order)| <= tBuf.Length
      ensures r.Ok? ==> tBuf[..r.value] == old(tBuf[..at]) + Head(protoId, order)
      ensures r == Err(OutOfBounds) && protoId >= 0 ==> at + |Head(protoId, order)| > tBuf.Length
      ensures r.Ok? || r == Err(OutOfBounds) || r == Err(TooLong)
    {
      hide Varint, Info, Short, MaxHeaders;
      ghost var front := tBuf[..at];
      var pkt: nat :- WriteVarint32(protoId, at);
      pkt :- WriteVarint32(0, pkt);
      pkt :- WriteInfo(order, pkt);
      Assoc(front + Varint(protoId), Varint(0), Info(order));
      Assoc(front, Varint(protoId), Varint(0) + Info(order));
      return Ok(pkt);
    }

    /** Magic, flags and sequence number, behind the place of the size word. */
    method PutCommon() returns (headerSizePtr: nat)
      requires tBuf.Length >= 14
      modifies tBuf
      ensures headerSizePtr == 12
      ensures tBuf[4..12] == [0x0f, 0xff] + BigEndian16(flags) + BigEndian32(seqId)
    {
      hide BigEndian32, BigEndian16;
      ghost var front := tBuf[..4];
      var p1 := Put(4, [0x0f, 0xff]);
      var p2 := Put(p1.value, BigEndian16(flags));
      var p3 := Put(p2.value, BigEndian32(seqId));
      headerSizePtr := p3.value;
      ghost var start := [0x0f, 0xff] + BigEndian16(flags) + BigEndian32(seqId);
      Assoc(front + [0x0f, 0xff], BigEndian16(flags), BigEndian32(seqId));
      assert tBuf[..12] == front + start;
      assert tBuf[4..12] == tBuf[..12][4..];
    }

    /** Assemble everything but the payload in `tBuf`, from its start. */
    method Assemble(order: seq<Pair>, haveBytes: nat) returns (r: Result<nat, Error>)
      requires Valid() && MaxHeaders(order) < U32_MODULUS
      modifies tBuf
      ensures protoId < 0 ==> r == Err(OutOfBounds)
      ensures protoId >= 0 && Short(order) && Assembled(protoId, order) <= tBuf.Length
              && (|Padded(Head(protoId, order))| + haveBytes) % U32_MODULUS + 10 < U32_MODULUS
              ==> r.Ok?
      ensures r.Ok? ==>
                && Short(order) && r.value == Assembled(protoId, order) <= tBuf.Length
                && var h := Padded(Head(protoId, order));
                   tBuf[..r.value] == BigEndian32((10 + |h| + haveBytes) % U32_MODULUS)
                                      + (Common(flags, seqId, |h| / 4) + h)
      ensures r == Err(OutOfBounds) && protoId >= 0 ==> Assembled(protoId, order) > tBuf.Length
    {
      hide Head, Short, BigEndian32, BigEndian16, MaxHeaders;
      if tBuf.Length < 14 { return Err(OutOfBounds); }
      ghost var start := [0x0f, 0xff] + BigEndian16(flags) + BigEndian32(seqId);
      var headerSizePtr := PutCommon();
      var pkt: nat := headerSizePtr + 2;
      var headerStart := pkt;
      ghost var front := tBuf[..14];
      assert front[4..12] == start;
      pkt :- WriteHead(order, pkt);
      ghost var head := Head(protoId, order);
      var headerSize := pkt - headerStart;
      var padding := 4 - headerSize % 4;
      headerSize := headerSize + padding;
      pkt :- Put(pkt, Zeros(padding));
      Assoc(front, head, Zeros(padding));
      assert tBuf[..pkt] == front + Padded(head);
      if 10 > U32_MODULUS - 1 - (headerSize + haveBytes) % U32_MODULUS { return Err(Unreasonable); }
      var szHbo := (headerSize + haveBytes + 10) % U32_MODULUS;
      Patch(front, Padded(head), start, headerSizePtr, pkt, BigEndian32(szHbo), BigEndian16(headerSize / 4));
      return Ok(pkt);
    }

    /** The two fields that are filled in last. */
    method Patch(ghost front: seq<byte>, ghost h: seq<byte>, ghost start: seq<byte>, headerSizePtr: nat,
                 ghost pkt: nat, size: seq<byte>, words: seq<byte>)
      requires |front| == 14 && headerSizePtr == 12 && front[4..12] == start
      requires pkt == 14 + |h| <= tBuf.Length && tBuf[..pkt] == front + h
      requires |size| == 4 && |words| == 2
      modifies tBuf
      ensures tBuf[..pkt] == size + (start + words + h)
    {
      tBuf[headerSizePtr], tBuf[headerSizePtr + 1] := words[0], words[1];
      tBuf[0], tBuf[1], tBuf[2], tBuf[3] := size[0], size[1], size[2], size[3];
      assert forall i :: 4 <= i < 12 ==> tBuf[i] == (front + h)[i] == start[i - 4];
      assert forall i :: 14 <= i < pkt ==> tBuf[i] == (front + h)[i] == h[i - 14];
    }

    /** Its branch for the header format. */
    method FlushHeader(haveBytes: nat, order: seq<Pair>) returns (r: Result<(), Error>)
      requires Valid() && Enumerates(order, writeHeaders)
      requires haveBytes <= wBuf.Length && haveBytes <= MAX_FRAME_SIZE
      modifies this`writeHeaders, tBuf, transport`output
      ensures Valid()
      ensures r.Err? ==> transport.output == old(transport.output)
      ensures r.Ok? ==> protoId >= 0 && transport.output == old(transport.output)
                        + HeaderFrame(flags, seqId, protoId, order, old(wBuf[..haveBytes]))
      ensures writeHeaders == if r.Ok? || r.error == Unreasonable then map[] else old(writeHeaders)
      ensures var payload := old(wBuf[..haveBytes]);
              && (Sendable(order, payload, tBuf.Length) ==> if protoId >= 0 then r.Ok? else r == Err(OutOfBounds))
              && (r == Err(OutOfBounds) ==> protoId < 0 || Estimate(order, payload) >= U32_MODULUS)
    {
      hide Enumerates, MaxHeaders, Short, Padded, BigEndian32, Head, Common, HeaderFrame, Sendable, Estimate;
      hide CheckedEstimate, Assembled;
      ghost var payload := wBuf[..haveBytes];
      if Sendable(order, payload, tBuf.Length) { NotChecked(order, payload, tBuf.Length); }
      var _ :- CheckEstimate(haveBytes, order);
      if protoId >= 0 { CheckedFits(protoId, order, writeHeaders, payload, tBuf.Length); }
      var pkt := Assemble(order, haveBytes);
      if pkt.Ok? || pkt.error == Unreasonable {
        writeHeaders := map[];
      }
      if pkt.Err? { return Err(pkt.error); }
      FrameJoins(flags, seqId, protoId, order, payload);
      Send(pkt.value, haveBytes);
      return Ok(());
    }

    method Send(headerBytes: nat, haveBytes: nat)
      requires headerBytes <= tBuf.Length && haveBytes <= wBuf.Length
      modifies transport`output
      ensures transport.output == old(transport.output) + (tBuf[..headerBytes] + wBuf[..haveBytes])
    {
      transport.Write(tBuf[..headerBytes]);
      transport.Write(wBuf[..haveBytes]);
      Assoc(old(transport.output), tBuf[..headerBytes], wBuf[..haveBytes]);
    }

    /** The size check, in 32 bits. */
    method CheckEstimate(haveBytes: nat, order: seq<Pair>) returns (r: Result<(), Error>)
      requires haveBytes <= wBuf.Length
      ensures var estimate := CheckedEstimate(order, wBuf[..haveBytes]);
              r.Ok? <==> estimate.Some? && estimate.value <= tBuf.Length
      ensures r.Ok? ==> MaxHeaders(order) < U32_MODULUS
      ensures r.Err? ==> r.error != OutOfBounds && r.error != Unreasonable
    {
      hide MaxHeaders;
      var maxHeaders :- GetMaxWriteHeadersSize(order);
      var maxSzHbo := (2 * 5 + 4 + maxHeaders + haveBytes + 10) % U32_MODULUS;
      r := if maxSzHbo > tBuf.Length then Err(TooLarge) else Ok(());
    }

    /** `flush`, without transforms. The write buffer is emptied first, so that a refused
        frame is dropped. With a negative protocol id, which a received header can set, no header
        frame goes out. `order` is the order of the header map. */
    method Flush() returns (r: Result<(), Error>, order: seq<Pair>)
      requires Valid()
      modifies this`wBase, this`tBuf, this`writeHeaders, tBuf, transport`output
      ensures Valid() && wBase == 0 && Enumerates(order, old(writeHeaders))
      ensures tBuf == old(tBuf) || fresh(tBuf)
      ensures r.Err? ==> transport.output == old(transport.output)
      ensures r.Ok? ==>
                && old(wBase) <= MAX_FRAME_SIZE && (clientType == HeaderClient ==> protoId >= 0)
                && var payload := old(wBuf[..wBase]);
                   transport.output == old(transport.output) +
                     match clientType
                     case HeaderClient => HeaderFrame(flags, seqId, protoId, order, payload)
                     case FramedBinary => BigEndian32(|payload|) + payload
                     case FramedCompact => BigEndian32(|payload|) + payload
                     case _ => payload
      ensures writeHeaders == if clientType == HeaderClient && (r.Ok? || r.error == Unreasonable)
                              then map[] else old(writeHeaders)
      // what makes a header frame go out, and what makes the assembly leave its buffer
      ensures clientType == HeaderClient ==>
                var payload := old(wBuf[..wBase]);
                && (old(wBase) <= MAX_FRAME_SIZE && Sendable(order, payload, tBuf.Length)
                    ==> if protoId >= 0 then r.Ok? else r == Err(OutOfBounds))
                && (r == Err(OutOfBounds) ==> protoId < 0 || Estimate(order, payload) >= U32_MODULUS)
      ensures clientType.UnknownType? ==> r.Err?
    {
      hide Enumerates, HeaderFrame, Sendable, Estimate, Padded, BigEndian32;
      var haveBytes := wBase;
      ghost var payload := wBuf[..wBase];
      order := Walk(writeHeaders);
      if clientType == HeaderClient {
        ResizeTransformBuffer();
      }
      wBase := 0;
      if haveBytes > MAX_FRAME_SIZE { return Err(TooLarge), order; }
      match clientType
      case HeaderClient =>
        r := FlushHeader(haveBytes, order);
      case FramedBinary =>
        transport.Write(BigEndian32(haveBytes));
        transport.Write(wBuf[..haveBytes]);
        Assoc(old(transport.output), BigEndian32(haveBytes), payload);
        r := Ok(());
      case FramedCompact =>
        transport.Write(BigEndian32(haveBytes));
        transport.Write(wBuf[..haveBytes]);
        Assoc(old(transport.output), BigEndian32(haveBytes), payload);
        r := Ok(());
      case UnknownType => r := Err(UnknownClient);
      case _ =>
        transport.Write(wBuf[..haveBytes]);
        r := Ok(());
    }

    // ---------------------------------------------------------------- reading

    /** `readVarint32` from `ptr` up to the boundary. */
    method ReadVarint32(start: nat, boundary: nat) returns (r: Result<nat, Error>, ptr: nat)
      requires start <= boundary <= rBuf.Length
      ensures match ReadVarint(rBuf[start..boundary])
              case Err(e) => r == Err(e)
              case Ok((v, rest)) => r == Ok(v) && start < ptr <= boundary && rest == rBuf[ptr..boundary]
    {
      ptr := start;
      var val: nat, scale: nat := 0, 1;      // scale is 1 << shift
      while true
        invariant start <= ptr <= boundary
        invariant ReadVarint(rBuf[start..boundary]) == VarintFrom(rBuf[ptr..boundary], scale, val)
        decreases boundary - ptr
      {
        if ptr == boundary { return Err(PastBoundary), ptr; }
        if scale >= UINT64_MODULUS { return Err(Undefined), ptr; }
        var b := rBuf[ptr];
        ghost var s := rBuf[ptr..boundary];
        assert s[0] == b && s[1..] == rBuf[ptr + 1..boundary];
        ptr := ptr + 1;
        val := val + b % 0x80 * scale % U32_MODULUS;
        scale := scale * 0x80;
        if b < 0x80 { return Ok(val), ptr; }
      }
    }

    /** `readString`. */
    method ReadString(start: nat, boundary: nat) returns (r: Result<Text, Error>, ptr: nat)
      requires start <= boundary <= rBuf.Length
      ensures match ReadStr(rBuf[start..boundary])
              case Err(e) => r == Err(e)
              case Ok((s, rest)) => r == Ok(s) && start < ptr <= boundary && rest == rBuf[ptr..boundary]
    {
      hide ReadVarint;
      ptr := start;
      var strLen, p :- ReadVarint32(ptr, boundary);
      if strLen >= INT32_SIGN || strLen > boundary - ptr { return Err(TooLong), ptr; }
      ptr := p;
      if strLen > boundary - ptr { return Err(OutOfBounds), ptr; }
      ghost var t := rBuf[ptr..boundary];
      assert t[..strLen] == rBuf[ptr..ptr + strLen] && t[strLen..] == rBuf[ptr + strLen..boundary];
      r := Ok(rBuf[ptr..ptr + strLen]);
      ptr := ptr + strLen;
    }

    /** The key/value loop. */
    method ReadKeyValues(count: nat, start: nat, boundary: nat) returns (r: Result<(), Error>, ptr: nat)
      requires start <= boundary <= rBuf.Length
      modifies this`readHeaders
      ensures match ReadPairs(count, rBuf[start..boundary], old(readHeaders))
              case Err(e) => r == Err(e)
              case Ok((m, rest)) => r == Ok(()) && start <= ptr <= boundary && rest == rBuf[ptr..boundary]
                                    && readHeaders == m
    {
      hide ReadStr;
      ptr := start;
      var left := count;
      while left > 0 && ptr < boundary
        invariant start <= ptr <= boundary
        invariant ReadPairs(count, rBuf[start..boundary], old(readHeaders))
               == ReadPairs(left, rBuf[ptr..boundary], readHeaders)
        decreases left
      {
        left := left - 1;
        var key, p :- ReadString(ptr, boundary);
        var value, q :- ReadString(p, boundary);
        ptr := q;
        readHeaders := readHeaders[key := value];
      }
      r := Ok(());
    }

    /** The loop over info headers. */
    method ReadInfoHeaders(start: nat, boundary: nat) returns (r: Result<(), Error>)
      requires start <= boundary <= rBuf.Length
      modifies this`readHeaders
      ensures match ReadInfo(rBuf[start..boundary], old(readHeaders))
              case Err(e) => r == Err(e)
              case Ok(m) => r == Ok(()) && readHeaders == m
    {
      hide ReadVarint, ReadPairs;
      var ptr := start;
      while ptr < boundary
        invariant start <= ptr <= boundary
        invariant ReadInfo(rBuf[start..boundary], old(readHeaders))
               == ReadInfo(rBuf[ptr..boundary], readHeaders)
        decreases boundary - ptr
      {
        var infoId, p :- ReadVarint32(ptr, boundary);
        ptr := p;
        if infoId == 0 { break; }
        if END_OF_IDS <= infoId < INT32_SIGN { break; }
        if infoId == KEYVALUE {
          var count, q :- ReadVarint32(ptr, boundary);
          var _, more :- ReadKeyValues(count, q, boundary);
          ptr := more;
        }
      }
      r := Ok(());
    }

    /** The header section, from rBuf[10] up to the boundary. */
    method ReadSection(boundary: nat) returns (r: Result<(), Error>)
      requires 10 <= boundary <= rBuf.Length
      modifies this`readHeaders, this`protoId
      ensures match ReadHead(rBuf[10..boundary])
              case Err(e) => r == Err(e)
              case Ok((id, headers)) => r == Ok(()) && protoId == id && readHeaders == headers
      ensures -0x8000 <= protoId < 0x8000 || protoId == old(protoId)
    {
      hide ReadVarint, ReadInfo;
      readHeaders := map[];
      var id, ptr := ReadVarint32(10, boundary);
      if id.Err? { return Err(id.error); }
      protoId := Signed16(id.value);
      var n, p :- ReadVarint32(ptr, boundary);
      ptr := p;
      var numTransforms, i := Signed16(n), 0;
      while i < numTransforms
        invariant 10 <= ptr <= boundary && i >= 0
        invariant ReadTransforms(numTransforms, rBuf[p..boundary])
               == ReadTransforms(numTransforms - i, rBuf[ptr..boundary])
        modifies {}
      {
        var _, q :- ReadVarint32(ptr, boundary);
        ptr := q;
        i := i + 1;
      }
      var _ :- ReadInfoHeaders(ptr, boundary);
      r := if numTransforms > 0 then Err(Transformed) else Ok(());
    }

    /** `readHeaderFormat` over the frame in rBuf[..sz], and `untransform` without transforms. */
    method ReadHeaderFormat(words: nat, sz: nat) returns (r: Result<(), Error>)
      requires Valid() && 10 <= sz <= rBuf.Length && words == FromBigEndian16(rBuf[8..10])
      modifies this`readHeaders, this`protoId, this`rBase, this`rBound
      ensures Valid()
      ensures match ParseHeaded(rBuf[..sz])
              case Err(e) => r == Err(e) && rBase == old(rBase) && rBound == old(rBound)
              case Ok(f) =>
                && r == Ok(()) && protoId == f.protoId && readHeaders == f.headers
                && Unread() == f.payload
    {
      hide ReadHead, FromBigEndian16, FromBigEndian32;
      TakeSlice(rBuf[..], sz, 8, 10);
      if words >= 16384 { return Err(Unreasonable); }
      var headerSize := words * 4;
      if headerSize > sz { return Err(Unreasonable); }
      if 10 + headerSize > sz { return Err(OutOfBounds); }
      TakeSlice(rBuf[..], sz, 10, 10 + headerSize);
      TakeSlice(rBuf[..], sz, 10 + headerSize, sz);
      var _ :- ReadSection(10 + headerSize);
      rBase, rBound := 10 + headerSize, sz;
      r := Ok(());
    }

    /** `ensureReadBuffer`. */
    method EnsureReadBuffer(size: nat)
      requires Valid()
      modifies this`rBuf, this`rBase, this`rBound
      ensures rBuf.Length >= size && rBuf.Length >= old(rBuf).Length && (rBuf == old(rBuf) || fresh(rBuf))
      ensures rBuf == old(rBuf) ==> rBase == old(rBase) && rBound == old(rBound)
      ensures rBuf != old(rBuf) ==> rBase == rBound == 0
      ensures Valid()
    {
      if size > rBuf.Length {
        rBuf := new byte[size];
        rBase, rBound := 0, 0;
      }
    }

    /** The loop that reads the size word: end of file is an error only in the middle. */
    method ReadSize() returns (r: Result<seq<byte>, Error>)
      modifies transport`input
      ensures var input := old(transport.input);
              if input == [] then r == Ok([])
              else if |input| < 4 then r == Err(EndOfFile)
              else r == Ok(input[..4]) && transport.input == input[4..]
    {
      var szN: seq<byte> := [];
      while |szN| < 4
        invariant |szN| <= 4 && old(transport.input) == szN + transport.input
      {
        var more := transport.Read(4 - |szN|);
        if more == [] {
          return if szN == [] then Ok([]) else Err(EndOfFile);
        }
        szN := szN + more;
      }
      assert old(transport.input)[..4] == szN;
      r := Ok(szN);
    }

    /** Copy into the front of the read buffer, from `at`. */
    method Fill(at: nat, bytes: seq<byte>)
      requires at + |bytes| <= rBuf.Length
      modifies rBuf
      ensures rBuf[..at + |bytes|] == old(rBuf[..at]) + bytes
    {
      forall i | 0 <= i < |bytes| {
        rBuf[at + i] := bytes[i];
      }
      assert rBuf[at..at + |bytes|] == bytes;
      assert rBuf[..at + |bytes|] == rBuf[..at] + rBuf[at..at + |bytes|];
    }

    /** The rest of a frame whose first four bytes are in place. */
    method ReadRest(sz: nat) returns (r: Result<(), Error>)
      requires 4 <= sz <= rBuf.Length
      modifies rBuf, transport`input
      ensures var input := old(transport.input);
              if |input| < sz - 4 then r == Err(EndOfFile)
              else && r == Ok(()) && transport.input == input[sz - 4..]
                   && rBuf[..sz] == old(rBuf[..4]) + input[..sz - 4]
    {
      var body := transport.ReadAll(sz - 4);
      if body == None { return Err(EndOfFile); }
      Fill(4, body.value);
      r := Ok(());
    }

    /** The header branch, with the frame in rBuf[..sz]. */
    method ReadHeaded(magic: seq<byte>, sz: nat) returns (r: Result<bool, Error>)
      requires Valid() && 10 <= sz <= rBuf.Length && magic == rBuf[..4]
      modifies this`readHeaders, this`protoId, this`rBase, this`rBound, this`clientType, this`flags, this`seqId
      ensures Valid()
      ensures match ParseHeaded(rBuf[..sz])
              case Err(e) => r == Err(e)
              case Ok(f) => r == Ok(true) && Received(f)
    {
      hide FromBigEndian16, FromBigEndian32, ReadHead;
      clientType := HeaderClient;
      TakeSlice(rBuf[..], sz, 2, 4);
      TakeSlice(rBuf[..], sz, 4, 8);
      TakeSlice(rBuf[..], 4, 2, 4);
      flags := FromBigEndian16(magic[2..4]);
      seqId := FromBigEndian32(rBuf[4..8]);
      rBase, rBound := 0, sz;
      var words := FromBigEndian16(rBuf[8..10]);
      var _ :- ReadHeaderFormat(words, sz);
      r := Ok(true);
    }

    /** What a completed call leaves behind. */
    ghost predicate Received(f: Frame)
      reads this, rBuf
      requires Valid()
    {
      match f
      case Headed(fl, id, p, headers, payload) =>
        && clientType == HeaderClient && flags == fl && seqId == id && protoId == p
        && readHeaders == headers && Unread() == payload
      case Plain(client, bytes) => clientType == client && Unread() == bytes
    }

    /** The rest of a framed message, whose first four bytes are in place. */
    method ReadPlain(client: Client, sz: u32) returns (r: Result<bool, Error>)
      requires Valid() && rBuf.Length >= 4 && rBuf.Length >= sz
      modifies this`clientType, this`rBase, this`rBound, rBuf, transport`input
      ensures Valid()
      ensures sz < 4 ==> r == Err(OutOfBounds)
      ensures sz >= 4 && |old(transport.input)| < sz - 4 ==> r == Err(EndOfFile)
      ensures sz >= 4 && |old(transport.input)| >= sz - 4 ==>
                && r == Ok(true) && clientType == client && transport.input == old(transport.input)[sz - 4..]
                && Unread() == old(rBuf[..4]) + old(transport.input)[..sz - 4]
    {
      clientType := client;
      if sz < 4 { return Err(OutOfBounds); }
      var _ :- ReadRest(sz);
      ShowFrame(sz);
      r := Ok(true);
    }

    /** `setReadBuffer` on the front of the buffer. */
    method ShowFrame(sz: nat)
      requires Valid() && sz <= rBuf.Length
      modifies this`rBase, this`rBound
      ensures Valid() && Unread() == rBuf[..sz]
    {
      rBase, rBound := 0, sz;
    }

    /** A frame of size `sz` whose size word has been taken off `input`. */
    method ReadFramed(sz: u32, ghost input: seq<byte>) returns (r: Result<bool, Error>)
      requires Valid() && rBuf.Length >= 4 && rBuf.Length >= sz
      requires |input| >= 4 && transport.input == input[4..] && sz == FromBigEndian32(input[..4]) <= MAX_FRAME_SIZE
      requires !IsBinary(input[..4]) && !IsCompact(input[..4])
      modifies this`clientType, this`readHeaders, this`protoId, this`rBase, this`rBound, this`flags, this`seqId
      modifies rBuf, transport`input
      ensures Valid()
      ensures match ParseFrame(input)
              case NoFrame => false
              case Got(f, rest) => r == Ok(true) && Received(f) && transport.input == rest
              case Failed(e) => r == Err(e)
    {
      hide ParseHeaded, FromBigEndian32, FromBigEndian16, IsBinary, IsCompact, IsHeader;
      var got := transport.ReadAll(4);
      if got == None { return Err(EndOfFile); }
      var magic := got.value;
      assert magic == input[4..8];
      assert transport.input == input[8..];
      Fill(0, magic);
      assert rBuf[..0] + magic == magic;
      if IsBinary(magic) || IsCompact(magic) {
        r := ReadPlain(if IsBinary(magic) then FramedBinary else FramedCompact, sz);
        if sz >= 4 && |input| >= 4 + sz { WholeFrame(input, sz); }
      } else if IsHeader(magic) {
        if sz < 10 { return Err(TooSmall); }
        var _ :- ReadRest(sz);
        WholeFrame(input, sz);
        TakeSlice(rBuf[..], sz, 0, 4);
        r := ReadHeaded(magic, sz);
      } else {
        clientType := UnknownType;
        r := Err(UnknownClient);
      }
    }

    /** The message begins where the size word would be. */
    method ReadUnframed(start: seq<byte>)
      requires Valid() && rBuf.Length >= 4 == |start|
      modifies this`clientType, this`rBase, this`rBound, rBuf
      ensures Valid() && Received(Plain(if IsBinary(start) then UnframedBinary else UnframedCompact, start))
    {
      hide IsBinary;
      clientType := if IsBinary(start) then UnframedBinary else UnframedCompact;
      Fill(0, start);
      rBase, rBound := 0, 4;
      assert rBuf[..0] + start == start;
    }

    /** `readFrame`: the outcome does not depend on how the transport cuts up its input. */
    method ReadFrame() returns (r: Result<bool, Error>)
      requires Valid()
      modifies this, rBuf, transport`input
      ensures Valid() && (rBuf == old(rBuf) || fresh(rBuf))
      ensures wBuf == old(wBuf) && tBuf == old(tBuf) && wBase == old(wBase) && writeHeaders == old(writeHeaders)
      ensures match ParseFrame(old(transport.input))
              case NoFrame => r == Ok(false) && Unread() == old(Unread()) && clientType == old(clientType)
              case Got(f, rest) => r == Ok(true) && Received(f) && transport.input == rest
              case Failed(e) => r == Err(e)
    {
      hide ParseFrame, Received, FromBigEndian32, IsBinary, IsCompact;
      ghost var input := transport.input;
      SizeWord(input);
      var szN :- ReadSize();
      if szN == [] { return Ok(false); }
      EnsureReadBuffer(4);
      if IsBinary(szN) || IsCompact(szN) {
        ReadUnframed(szN);
        return Ok(true);
      }
      var sz := FromBigEndian32(szN);
      if sz > MAX_FRAME_SIZE { return Err(TooLarge); }
      EnsureReadBuffer(sz);
      r := ReadFramed(sz, input);
    }
  }

  /** What the size word alone decides. */
  lemma SizeWord(input: seq<byte>)
    ensures input == [] ==> ParseFrame(input) == NoFrame
    ensures 0 < |input| < 4 ==> ParseFrame(input) == Failed(EndOfFile)
    ensures |input| >= 4 ==>
              var w := input[..4];
              if IsBinary(w) then ParseFrame(input) == Got(Plain(UnframedBinary, w), input[4..])
              else if IsCompact(w) then ParseFrame(input) == Got(Plain(UnframedCompact, w), input[4..])
              else FromBigEndian32(w) > MAX_FRAME_SIZE ==> ParseFrame(input) == Failed(TooLarge)
  {
  }
}
