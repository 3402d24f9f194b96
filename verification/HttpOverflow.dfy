/** When reading a well-formed chunked body can fail: exactly from `FULL + 3` bytes on. */
module HttpOverflow {
  import opened Bytes
  import opened HttpTransport
  import opened Stream
  import opened HttpReader

  // ---------------------------------------------------------------- below the limit

  /** A well-formed body in fewer bytes, with what follows it, is decoded under every
      fragmentation and with whatever sizes it is read. */
  method SmallDecodes(transport: Transport, chunks: seq<Chunk>, last: Size, trailers: seq<seq<byte>>,
                      rest: seq<byte>, lens: seq<u32>) returns (got: seq<byte>, ended: bool, left: seq<byte>)
    requires ValidBody(chunks, last, trailers) && transport.input == Body(chunks, last, trailers) + rest
    requires |transport.input| < FULL + 3 && forall i :: 0 <= i < |lens| ==> lens[i] > 0
    modifies transport`input
    ensures got <= AllData(chunks)
    ensures ended ==> got == AllData(chunks) && left == rest
  {
    hide Decoded, Body, AllData, ValidBody;
    BodyRoundTrip(chunks, last, trailers, rest);
    var reader := new Reader(transport, true);
    var data := AllData(chunks);
    assert reader.readBuffer.Contents() + data == data;
    assert reader.Remaining() == Some((data, rest));
    var r := reader.ReadBody(lens);
    assert r.Ok?;
    got, ended := r.value, reader.chunkedDone;
    left := reader.httpBuf[reader.httpPos..reader.httpBufLen] + transport.input;
  }

  // ---------------------------------------------------------------- from the limit on

  /** Any body without a line end in its first `FULL` bytes fails on a transport that delivers
      these first. */
  method StallsOn(body: seq<byte>) returns (r: Result<seq<byte>, Error>)
    requires |body| > FULL && FindCrlf(body[..FULL]) == None
    ensures r == Err(Overflow)
  {
    hide FindCrlf;
    var tail := |body| - FULL;
    var transport := new Transport.Paced(body, left => if left > tail then left - tail else 0);
    var reader := new Reader(transport, true);
    assert PowerOfTwo(1024) by { assert PowerOfTwo(16); }
    assert reader.Stalls();
    r := reader.Read(1);
  }

  /** A last chunk whose size line fills a body of `n` bytes. */
  function LongSize(n: nat): Size
    requires n >= 6
  {
    Size(['0' as int], [SEMICOLON] + seq(n - 6, _ => 'x' as int))
  }

  /** The end of a line is no line end. */
  lemma {:induction false} NoLineEnd(s: seq<byte>)
    requires forall i :: 0 <= i < |s| - 1 ==> s[i] != CR
    ensures FindCrlf(s) == None
    decreases s
  {
    if s != [] { NoLineEnd(s[1..]); }
  }

  lemma ZeroDigit()
    ensures HexDigit('0' as int) == Some(0) && HexPrefix(['0' as int], 0) == 0
  {
    assert ['0' as int][1..] == [];
  }

  lemma LongBody(n: nat)
    requires n >= FULL + 3
    ensures var body := Body([], LongSize(n), []);
            ValidBody([], LongSize(n), []) && |body| == n && FindCrlf(body[..FULL]) == None
  {
    var size := LongSize(n);
    ZeroDigit();
    var text, body := size.Text(), Body([], size, []);
    assert |text| == n - 4 && forall i :: 0 <= i < |text| ==> text[i] != CR;
    assert body == text + [CR, LF] + [CR, LF];
    NoLineEnd(body[..FULL]);
  }

  /** For every size from the limit on there is a well-formed body of that size, and a
      fragmentation of it, that cannot be read. */
  method LargeFails(n: nat) returns (body: seq<byte>, r: Result<seq<byte>, Error>)
    requires n >= FULL + 3
    ensures |body| == n && body == Body([], LongSize(n), []) && ValidBody([], LongSize(n), [])
    ensures Decoded(body) == Some(([], [])) && r == Err(Overflow)
  {
    hide FindCrlf;
    LongBody(n);
    var size := LongSize(n);
    BodyRoundTrip([], size, [], []);
    hide Body, LongSize, ValidBody;
    body := Body([], size, []);
    assert body + [] == body;
    r := StallsOn(body);
  }

  // ---------------------------------------------------------------- short lines

  function Digit(v: nat): (d: byte)
    requires v < 16
    ensures HexDigit(d) == Some(v)
  {
    if v < 10 then '0' as int + v else 'a' as int + (v - 10)
  }

  /** The last `k` hex digits of a number. */
  function Hex(v: nat, k: nat): (s: seq<byte>)
    ensures |s| == k && forall i :: 0 <= i < |s| ==> HexDigit(s[i]) != None
  {
    if k == 0 then [] else Hex(v / 16, k - 1) + [Digit(v % 16)]
  }

  function Pow16(k: nat): nat {
    if k == 0 then 1 else 16 * Pow16(k - 1)
  }

  lemma {:induction false} PrefixSnoc(s: seq<byte>, d: byte, acc: nat)
    requires (forall i :: 0 <= i < |s| ==> HexDigit(s[i]) != None) && HexDigit(d) != None
    ensures HexPrefix(s + [d], acc) == HexPrefix(s, acc) * 16 + HexDigit(d).value
    decreases s
  {
    hide HexDigit;
    if s == [] {
      assert (s + [d])[1..] == [] && s + [d] == [d];
    } else {
      assert (s + [d])[1..] == s[1..] + [d];
      PrefixSnoc(s[1..], d, acc * 16 + HexDigit(s[0]).value);
    }
  }

  lemma {:induction false} HexInverts(v: nat, k: nat)
    requires v < Pow16(k)
    ensures HexPrefix(Hex(v, k), 0) == v
    decreases k
  {
    if k > 0 {
      HexInverts(v / 16, k - 1);
      PrefixSnoc(Hex(v / 16, k - 1), Digit(v % 16), 0);
    }
  }

  /** A chunk of zeros whose text has `n` bytes, eight of them in its size line. */
  function PlainChunk(n: nat): Chunk
    requires n > 12
  {
    Chunk(Size(Hex(n - 12, 8), []), Zeros(n - 12))
  }

  lemma PlainChunkFits(n: nat)
    requires 12 < n < U32_MODULUS
    ensures ValidChunk(PlainChunk(n)) && |ChunkText(PlainChunk(n))| == n
  {
    assert Pow16(4) == 0x1_0000;
    assert Pow16(8) == U32_MODULUS;
    HexInverts(n - 12, 8);
    hide Hex, HexPrefix, Zeros;
  }

  /** The next read, when `taken` bytes have come: as much as the buffer has room for, until
      `FULL` is reached. */
  function NextRead(taken: nat): nat {
    if taken == 0 then 1024 else if taken < 0x4000_0000 then taken else 0x2000_0000
  }

  /** The numbers of bytes that come to have been taken. */
  predicate OnTheWay(taken: nat) {
    taken == 0 || (1024 <= taken <= 0x4000_0000 && PowerOfTwo(taken)) || taken == FULL
  }

  function SizeThen(taken: nat): nat {
    if taken == 0 then 1024 else if taken <= 0x4000_0000 then taken else 0x8000_0000
  }

  lemma NextStop(taken: nat)
    requires OnTheWay(taken) && taken < FULL
    ensures var next := taken + NextRead(taken);
            && OnTheWay(next) && next <= FULL && 12 < NextRead(taken) < U32_MODULUS
            && Resized(SizeThen(taken), taken) == SizeThen(next) < U32_MODULUS
            && NextRead(taken) <= SizeThen(next) - taken
  {
    if taken == 0 {
      assert PowerOfTwo(16);
    } else if taken < 0x4000_0000 {
      DoubledPower(taken);
      PowerSteps(taken);
      OneGiB();
      PowerGap(0x4000_0000, taken);
    }
  }

  /** The chunks that are left when `taken` bytes have come, one for each read. */
  function ChunksFrom(taken: nat): seq<Chunk>
    requires OnTheWay(taken)
    decreases FULL - taken
  {
    if taken == FULL then []
    else
      NextStop(taken);
      [PlainChunk(NextRead(taken))] + ChunksFrom(taken + NextRead(taken))
  }

  /** `0` alone. */
  const LAST: Size := Size(['0' as int], [])

  function BodyFrom(taken: nat): seq<byte>
    requires OnTheWay(taken)
  {
    Body(ChunksFrom(taken), LAST, [])
  }

  /** No size line has more than eight digits. */
  predicate ShortLines(chunks: seq<Chunk>) {
    forall i :: 0 <= i < |chunks| ==> |chunks[i].size.Text()| <= 8
  }

  lemma {:induction false} BodyFromFits(taken: nat)
    requires OnTheWay(taken)
    ensures ValidBody(ChunksFrom(taken), LAST, []) && |BodyFrom(taken)| == FULL - taken + 5
    ensures ShortLines(ChunksFrom(taken))
    decreases FULL - taken
  {
    if taken == FULL {
      ZeroDigit();
    } else {
      BodyStep(taken);
      BodyFromFits(taken + NextRead(taken));
      hide NextRead, OnTheWay, BodyFrom, Body, ChunkText, PlainChunk;
      PlainChunkFits(NextRead(taken));
      EightDigits(NextRead(taken));
    }
  }

  lemma BodyStep(taken: nat)
    requires OnTheWay(taken) && taken < FULL
    ensures 12 < NextRead(taken) < U32_MODULUS && OnTheWay(taken + NextRead(taken))
    ensures ChunksFrom(taken) == [PlainChunk(NextRead(taken))] + ChunksFrom(taken + NextRead(taken))
    ensures BodyFrom(taken) == ChunkText(PlainChunk(NextRead(taken))) + BodyFrom(taken + NextRead(taken))
  {
    hide PlainChunk, ChunkText;
    NextStop(taken);
    var c, cs := PlainChunk(NextRead(taken)), ChunksFrom(taken + NextRead(taken));
    assert ([c] + cs)[0] == c && ([c] + cs)[1..] == cs;
  }

  lemma EightDigits(n: nat)
    requires n > 12
    ensures |PlainChunk(n).size.Text()| == 8
  {
  }

  lemma BodyIs(taken: nat)
    requires OnTheWay(taken)
    ensures BodyFrom(taken) == Body(ChunksFrom(taken), LAST, [])
  {
  }

  /** The reader at one of these stops, with everything that has come consumed. */
  ghost predicate At(reader: Reader, taken: nat)
    reads reader, reader.httpBuf, reader.readBuffer, reader.readBuffer.buffer, reader.transport
    requires OnTheWay(taken)
  {
    && reader.Valid() && reader.chunked && reader.readBuffer.Contents() == []
    && reader.httpPos == reader.httpBufLen == taken && reader.httpBufSize == SizeThen(taken)
    && reader.transport.input == BodyFrom(taken)
    && forall left: nat :: 5 < left <= FULL + 5 ==> reader.transport.pace(left) == NextRead(FULL + 5 - left)
  }

  /** What is left of the body starts with the chunk of the next read. */
  lemma ChunkComes(taken: nat)
    requires OnTheWay(taken) && taken < FULL
    ensures var n, input := NextRead(taken), BodyFrom(taken);
            && 12 < n < U32_MODULUS && |input| == FULL + 5 - taken && n <= |input|
            && OnTheWay(taken + n) && input[n..] == BodyFrom(taken + n)
            && NextPiece(input[..n]) == Data(PlainChunk(n).data, [])
            && NextPiece(input) == Data(PlainChunk(n).data, BodyFrom(taken + n))
  {
    hide PlainChunk, ChunkText, BodyFrom, ChunksFrom, ValidChunk, ValidBody, NextPiece, NextRead, OnTheWay;
    BodyStep(taken);
    BodyFromFits(taken);
    NextStop(taken);
    var n := NextRead(taken);
    PlainChunkFits(n);
    var text, rest := ChunkText(PlainChunk(n)), BodyFrom(taken + n);
    ReadsChunk(PlainChunk(n), rest);
    ReadsChunk(PlainChunk(n), []);
    Cut(text, rest);
  }

  lemma Cut(text: seq<byte>, rest: seq<byte>)
    ensures text + [] == text && (text + rest)[..|text|] == text && (text + rest)[|text|..] == rest
  {
  }

  lemma Ready(reader: Reader, taken: nat)
    requires OnTheWay(taken) && taken < FULL && At(reader, taken)
    ensures var next := taken + NextRead(taken);
            && OnTheWay(next) && reader.Unread() == BodyFrom(taken) && reader.Due() == NextRead(taken)
            && reader.Brings() && reader.NextBelow() == (BodyFrom(next), next, SizeThen(next))
  {
    hide BodyFrom, NextRead, SizeThen, Resized, NextPiece, OnTheWay, PlainChunk;
    ChunkComes(taken);
    NextStop(taken);
    var input := reader.transport.input;
    assert reader.Unread() == [] + input == input;
  }

  /** One read of the transport brings one chunk, and it is given to the caller at once. */
  method OneChunk(reader: Reader, taken: nat)
    requires OnTheWay(taken) && taken < FULL && At(reader, taken)
    modifies reader`httpBuf, reader`httpPos, reader`httpBufLen, reader`httpBufSize, reader`chunkedDone
    modifies reader.httpBuf, reader.transport`input, reader.readBuffer, reader.readBuffer.buffer
    ensures OnTheWay(taken + NextRead(taken)) && At(reader, taken + NextRead(taken))
    ensures reader.httpBuf == old(reader.httpBuf) || fresh(reader.httpBuf)
    ensures reader.readBuffer.buffer == old(reader.readBuffer.buffer) || fresh(reader.readBuffer.buffer)
  {
    hide NextPiece, BodyFrom, PlainChunk, NextRead, SizeThen, OnTheWay, Crowded;
    Ready(reader, taken);
    ChunkComes(taken);
    ghost var n := NextRead(taken);
    var r := reader.Read(U32_MODULUS - 1);
    assert reader.Below() == (BodyFrom(taken + n), taken + n, SizeThen(taken + n));
    assert reader.Shown() == [];
  }

  lemma WholeBody()
    ensures OnTheWay(0) && |BodyFrom(0)| == FULL + 5
    ensures ValidBody(ChunksFrom(0), LAST, []) && ShortLines(ChunksFrom(0))
    ensures Decoded(BodyFrom(0)) == Some((AllData(ChunksFrom(0)), []))
  {
    hide ChunksFrom, BodyFrom, AllData, Body, Decoded, ValidBody, ShortLines;
    BodyFromFits(0);
    BodyIs(0);
    BodyRoundTrip(ChunksFrom(0), LAST, [], []);
    Cut(BodyFrom(0), []);
  }

  /** A well-formed body of 1.5 GiB and five bytes, with no line of more than eight bytes in it,
      each read of which brings one chunk, up to the end of the buffer: it is never shifted to the
      front, and after 22 chunks the buffer cannot be doubled. */
  method ShortLinesFail() returns (body: seq<byte>, data: seq<byte>, r: Result<seq<byte>, Error>)
    ensures body == BodyFrom(0) && |body| == FULL + 5
    ensures ValidBody(ChunksFrom(0), LAST, []) && ShortLines(ChunksFrom(0))
    ensures Decoded(body) == Some((data, [])) && r == Err(Overflow)
  {
    hide ChunksFrom, BodyFrom, AllData, Body, Decoded, ValidBody, ShortLines, NextRead, OnTheWay, At;
    Stops();
    WholeBody();
    body, data := BodyFrom(0), AllData(ChunksFrom(0));
    var transport := new Transport.Paced(body, left => if 5 < left <= FULL + 5 then NextRead(FULL + 5 - left) else 0);
    var reader := new Reader(transport, true);
    Starts(reader);
    r := ReadAllChunks(reader);
  }

  /** The reads of the caller, up to the one that fails. */
  method ReadAllChunks(reader: Reader) returns (r: Result<seq<byte>, Error>)
    requires OnTheWay(0) && At(reader, 0)
    modifies reader, reader.httpBuf, reader.transport`input, reader.readBuffer, reader.readBuffer.buffer
    ensures r == Err(Overflow)
  {
    hide BodyFrom, NextRead, OnTheWay, At;
    var taken: nat := 0;
    while taken < FULL
      invariant OnTheWay(taken) && taken <= FULL && At(reader, taken)
      invariant reader.httpBuf == old(reader.httpBuf) || fresh(reader.httpBuf)
      invariant reader.readBuffer.buffer == old(reader.readBuffer.buffer) || fresh(reader.readBuffer.buffer)
      decreases FULL - taken
    {
      NextStop(taken);
      OneChunk(reader, taken);
      taken := taken + NextRead(taken);
    }
    Ends(reader);
    r := reader.Read(1);
  }

  lemma Stops()
    ensures OnTheWay(0) && OnTheWay(FULL)
  {
  }

  lemma Starts(reader: Reader)
    requires OnTheWay(0) && reader.Valid() && reader.chunked && reader.readBuffer.Contents() == []
    requires reader.httpPos == reader.httpBufLen == 0 && reader.httpBufSize == 1024
    requires reader.transport.input == BodyFrom(0)
    requires forall left: nat :: 5 < left <= FULL + 5 ==> reader.transport.pace(left) == NextRead(FULL + 5 - left)
    ensures At(reader, 0)
  {
    hide BodyFrom, OnTheWay, NextRead;
  }

  lemma Ends(reader: Reader)
    requires OnTheWay(FULL) && At(reader, FULL)
    ensures reader.Valid() && reader.chunked && reader.Jammed() && reader.readBuffer.Contents() == []
  {
    hide BodyFrom, OnTheWay, NextRead;
  }
}
