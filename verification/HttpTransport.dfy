/** THttpTransport: chunked bodies decoded from a buffer that is shifted and refilled. */
module HttpTransport {
  import opened Bytes
  import opened MemoryBuffer
  import opened Stream

  const CR: byte := 13
  const LF: byte := 10
  const SEMICOLON: byte := ';' as int

  datatype Error = EndOfFile | Overflow | Refused

  // ---------------------------------------------------------------- lines

  /** `strstr(…, "\r\n")` on a zero-terminated string: it does not look past a zero byte. */
  function FindCrlf(s: seq<byte>): (k: Option<nat>)
    ensures k.Some? ==> k.value + 2 <= |s| && s[k.value] == CR && s[k.value + 1] == LF
  {
    if s == [] || s[0] == 0 then None
    else if |s| > 1 && s[0] == CR && s[1] == LF then Some(0)
    else
      match FindCrlf(s[1..])
      case None => None
      case Some(k) => Some(k + 1)
  }

  /** A line end found in a prefix is the one found in the whole. */
  lemma {:induction false} FindInPrefix(s: seq<byte>, t: seq<byte>)
    requires FindCrlf(s).Some?
    ensures FindCrlf(s + t) == FindCrlf(s)
    decreases |s|
  {
    if !(|s| > 1 && s[0] == CR && s[1] == LF) {
      assert (s + t)[1..] == s[1..] + t;
      FindInPrefix(s[1..], t);
    }
  }

  /** A text that can stand in a line. */
  predicate IsLine(s: seq<byte>) {
    forall i :: 0 <= i < |s| ==> s[i] != 0 && s[i] != CR
  }

  function Line(s: seq<byte>): seq<byte> {
    s + [CR, LF]
  }

  lemma {:induction false} FindsLine(s: seq<byte>, rest: seq<byte>)
    requires IsLine(s)
    ensures FindCrlf(Line(s) + rest) == Some(|s|)
    ensures (Line(s) + rest)[..|s|] == s && (Line(s) + rest)[|s| + 2..] == rest
    decreases |s|
  {
    var u := Line(s) + rest;
    if s != [] {
      assert u[1..] == Line(s[1..]) + rest;
      FindsLine(s[1..], rest);
    }
  }

  // ---------------------------------------------------------------- chunk sizes

  function HexDigit(ch: byte): (v: Option<nat>)
    ensures v.Some? ==> v.value < 16
  {
    if '0' as int <= ch <= '9' as int then Some(ch - '0' as int)
    else if 'a' as int <= ch <= 'f' as int then Some(ch - 'a' as int + 10)
    else if 'A' as int <= ch <= 'F' as int then Some(ch - 'A' as int + 10)
    else None
  }

  /** The leading hex digits, read onto `acc`. */
  function HexPrefix(s: seq<byte>, acc: nat): nat {
    if s == [] || HexDigit(s[0]) == None then acc else HexPrefix(s[1..], acc * 16 + HexDigit(s[0]).value)
  }

  predicate IsSpace(ch: byte) {
    ch == 32 || 9 <= ch <= 13
  }

  function SkipSpaces(s: seq<byte>): seq<byte> {
    if s != [] && IsSpace(s[0]) then SkipSpaces(s[1..]) else s
  }

  /** The line up to a semicolon. */
  function BeforeSemicolon(s: seq<byte>): seq<byte> {
    if s == [] || s[0] == SEMICOLON then [] else [s[0]] + BeforeSemicolon(s[1..])
  }

  const ULONG_MAX: int := 0xffff_ffff_ffff_ffff

  /** `sscanf(…, "%x", …)`: white space, a sign, `0x`, digits; clamped as `strtoul` does and
      cut to 32 bits; zero when there are no digits. */
  function ScanHex(s: seq<byte>): u32 {
    var t := SkipSpaces(s);
    var negative := t != [] && t[0] == '-' as int;
    var signed := negative || (t != [] && t[0] == '+' as int);
    var d := if signed then t[1..] else t;
    var prefixed := |d| >= 2 && d[0] == '0' as int && (d[1] == 'x' as int || d[1] == 'X' as int);
    var v := HexPrefix(if prefixed then d[2..] else d, 0);
    if v > ULONG_MAX then U32_MODULUS - 1
    else if negative then (ULONG_MAX + 1 - v) % U32_MODULUS
    else v % U32_MODULUS
  }

  /** `parseChunkSize`. */
  function ChunkSize(line: seq<byte>): u32 {
    ScanHex(BeforeSemicolon(line))
  }

  // ---------------------------------------------------------------- chunks

  datatype Piece = Data(data: seq<byte>, rest: seq<byte>) | End(rest: seq<byte>) | Bad

  /** `readChunkedFooters`: lines up to a blank one. */
  function AfterFooters(u: seq<byte>): (r: Option<seq<byte>>)
    ensures r.Some? ==> |r.value| + 2 <= |u|
    decreases |u|
  {
    match FindCrlf(u)
    case None => None
    case Some(k) => if k == 0 then Some(u[2..]) else AfterFooters(u[k + 2..])
  }

  /** What follows a chunk size: the data and a line that is not looked at, or for size zero
      the footers. */
  function PieceAfter(size: u32, t: seq<byte>): (p: Piece)
    ensures p.Data? ==> |p.data| + 2 + |p.rest| <= |t| && 0 < |p.data| < U32_MODULUS
    ensures p.End? ==> 2 + |p.rest| <= |t|
  {
    if size == 0 then
      match AfterFooters(t)
      case None => Bad
      case Some(rest) => End(rest)
    else if |t| < size then Bad
    else
      match FindCrlf(t[size..])
      case None => Bad
      case Some(j) => Data(t[..size], t[size..][j + 2..])
  }

  /** `readChunked`: the next chunk, or the end. */
  function NextPiece(u: seq<byte>): (p: Piece)
    ensures p.Data? ==> 5 + |p.rest| <= |u| && 0 < |p.data| < U32_MODULUS
    ensures p.End? ==> 4 + |p.rest| <= |u|
  {
    match FindCrlf(u)
    case None => Bad
    case Some(k) => PieceAfter(ChunkSize(u[..k]), u[k + 2..])
  }

  /** The data of the chunks up to the end, and what stands behind it. */
  function Decoded(u: seq<byte>): Option<(seq<byte>, seq<byte>)>
    decreases |u|
  {
    match NextPiece(u)
    case Bad => None
    case End(rest) => Some(([], rest))
    case Data(d, rest) =>
      match Decoded(rest)
      case None => None
      case Some((more, end)) => Some((d + more, end))
  }

  // ---------------------------------------------------------------- well-formed bodies

  /** `chunk-size [ chunk-ext ]` of section 7.1 of RFC 9112: hex digits, then nothing or an
      extension set off by a semicolon or white space. */
  datatype Size = Size(digits: seq<byte>, ext: seq<byte>) {
    function Text(): seq<byte> { digits + ext }

    predicate Valid() {
      && digits != [] && (forall i :: 0 <= i < |digits| ==> HexDigit(digits[i]) != None)
      && IsLine(ext) && (ext != [] ==> ext[0] == SEMICOLON || ext[0] == 32 || ext[0] == 9)
    }

    /** Its value; the source keeps 32 bits, so that larger ones are not for it. */
    function Value(): nat { HexPrefix(digits, 0) }
  }

  datatype Chunk = Chunk(size: Size, data: seq<byte>)

  predicate ValidChunk(c: Chunk) {
    c.size.Valid() && c.data != [] && c.size.Value() == |c.data| < U32_MODULUS
  }

  function ChunkText(c: Chunk): seq<byte> {
    Line(c.size.Text()) + (c.data + [CR, LF])
  }

  function Trailers(ts: seq<seq<byte>>): seq<byte> {
    if ts == [] then [CR, LF] else Line(ts[0]) + Trailers(ts[1..])
  }

  predicate ValidTrailers(ts: seq<seq<byte>>) {
    ts == [] || (ts[0] != [] && IsLine(ts[0]) && ValidTrailers(ts[1..]))
  }

  function Body(chunks: seq<Chunk>, last: Size, trailers: seq<seq<byte>>): seq<byte> {
    if chunks == [] then Line(last.Text()) + Trailers(trailers)
    else ChunkText(chunks[0]) + Body(chunks[1..], last, trailers)
  }

  predicate ValidBody(chunks: seq<Chunk>, last: Size, trailers: seq<seq<byte>>) {
    if chunks == [] then last.Valid() && last.Value() == 0 && ValidTrailers(trailers)
    else ValidChunk(chunks[0]) && ValidBody(chunks[1..], last, trailers)
  }

  function AllData(chunks: seq<Chunk>): seq<byte> {
    if chunks == [] then [] else chunks[0].data + AllData(chunks[1..])
  }

  lemma {:induction false} PrefixStops(digits: seq<byte>, tail: seq<byte>, acc: nat)
    requires forall i :: 0 <= i < |digits| ==> HexDigit(digits[i]) != None
    requires tail == [] || HexDigit(tail[0]) == None
    ensures HexPrefix(digits + tail, acc) == HexPrefix(digits, acc)
    decreases |digits|
  {
    hide HexDigit;
    if digits == [] {
      assert digits + tail == tail;
    } else {
      assert (digits + tail)[1..] == digits[1..] + tail;
      PrefixStops(digits[1..], tail, acc * 16 + HexDigit(digits[0]).value);
    }
  }

  lemma {:induction false} CutsExtension(digits: seq<byte>, ext: seq<byte>)
    requires forall i :: 0 <= i < |digits| ==> digits[i] != SEMICOLON
    ensures BeforeSemicolon(digits + ext) == digits + BeforeSemicolon(ext)
    decreases |digits|
  {
    if digits == [] {
      assert digits + ext == ext && [] + BeforeSemicolon(ext) == BeforeSemicolon(ext);
    } else {
      assert (digits + ext)[1..] == digits[1..] + ext;
      CutsExtension(digits[1..], ext);
      assert [digits[0]] + digits[1..] == digits;
      Assoc([digits[0]], digits[1..], BeforeSemicolon(ext));
    }
  }

  lemma HexIsPlain(ch: byte)
    requires HexDigit(ch) != None
    ensures ch != SEMICOLON && !IsSpace(ch) && ch != '-' as int && ch != '+' as int && ch != 0 && ch != CR
    ensures ch != 'x' as int && ch != 'X' as int
  {
  }

  /** The size is read whatever extension follows it. */
  lemma ReadsSize(s: Size)
    requires s.Valid() && s.Value() < U32_MODULUS
    ensures ChunkSize(s.Text()) == s.Value() && IsLine(s.Text())
  {
    forall i | 0 <= i < |s.digits|
      ensures s.digits[i] != SEMICOLON && s.digits[i] != 0 && s.digits[i] != CR
    {
      HexIsPlain(s.digits[i]);
    }
    CutsExtension(s.digits, s.ext);
    var tail := BeforeSemicolon(s.ext);
    assert tail == [] || tail[0] == s.ext[0];
    PrefixStops(s.digits, tail, 0);
    HexIsPlain(s.digits[0]);
    if |s.digits| > 1 { HexIsPlain(s.digits[1]); }
    hide HexPrefix, HexDigit, BeforeSemicolon;
    assert SkipSpaces(s.digits + tail) == s.digits + tail;
  }

  lemma ReadsChunk(c: Chunk, rest: seq<byte>)
    requires ValidChunk(c)
    ensures NextPiece(ChunkText(c) + rest) == Data(c.data, rest)
  {
    var text := c.size.Text();
    var t := c.data + [CR, LF] + rest;
    ReadsSize(c.size);
    Assoc(Line(text), c.data + [CR, LF], rest);
    FindsLine(text, t);
    FindsLine([], rest);
    assert t[..|c.data|] == c.data && t[|c.data|..] == Line([]) + rest;
    assert t[|c.data| + 2..] == rest;
    hide FindCrlf, ChunkSize, Line;
  }

  lemma {:induction false} ReadsTrailers(ts: seq<seq<byte>>, rest: seq<byte>)
    requires ValidTrailers(ts)
    ensures AfterFooters(Trailers(ts) + rest) == Some(rest)
    decreases ts
  {
    hide FindCrlf;
    if ts == [] {
      FindsLine([], rest);
      assert [CR, LF] == Line([]);
    } else {
      Assoc(Line(ts[0]), Trailers(ts[1..]), rest);
      FindsLine(ts[0], Trailers(ts[1..]) + rest);
      ReadsTrailers(ts[1..], rest);
    }
  }

  lemma ReadsEnd(last: Size, trailers: seq<seq<byte>>, rest: seq<byte>)
    requires last.Valid() && last.Value() == 0 && ValidTrailers(trailers)
    ensures NextPiece(Line(last.Text()) + Trailers(trailers) + rest) == End(rest)
  {
    ReadsSize(last);
    Assoc(Line(last.Text()), Trailers(trailers), rest);
    FindsLine(last.Text(), Trailers(trailers) + rest);
    ReadsTrailers(trailers, rest);
    hide FindCrlf, ChunkSize, Line, Trailers, AfterFooters;
  }

  /** Decoding a well-formed body gives the data of its chunks and stops exactly behind the
      final blank line. */
  lemma {:induction false} BodyRoundTrip(chunks: seq<Chunk>, last: Size, trailers: seq<seq<byte>>, rest: seq<byte>)
    requires ValidBody(chunks, last, trailers)
    ensures Decoded(Body(chunks, last, trailers) + rest) == Some((AllData(chunks), rest))
    decreases chunks
  {
    hide NextPiece, ChunkText, Trailers, ValidChunk;
    if chunks == [] {
      ReadsEnd(last, trailers, rest);
    } else {
      var more := Body(chunks[1..], last, trailers);
      Assoc(ChunkText(chunks[0]), more, rest);
      ReadsChunk(chunks[0], more + rest);
      BodyRoundTrip(chunks[1..], last, trailers, rest);
    }
  }
}
