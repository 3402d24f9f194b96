/** Chunked bodies and chunk sizes spelled out, byte for byte, against the decoder. */
module HttpPlain {
  import opened Bytes
  import opened HttpTransport

  // ---------------------------------------------------------------- sizes

  function Lower(v: nat): byte
    requires v < 16
  {
    Ascii("0123456789abcdef")[v]
  }

  function Upper(v: nat): byte
    requires v < 16
  {
    Ascii("0123456789ABCDEF")[v]
  }

  lemma ReadsBoth(v: nat)
    requires v < 16
    ensures HexDigit(Lower(v)) == Some(v) && HexDigit(Upper(v)) == Some(v)
  {
  }

  lemma ReadsNoOther(ch: byte)
    requires HexDigit(ch).Some?
    ensures ch == Lower(HexDigit(ch).value) || ch == Upper(HexDigit(ch).value)
  {
  }

  /** Hex digits are read in either case, and nothing else is one. */
  lemma HexDigits(ch: byte, v: nat)
    requires v < 16
    ensures HexDigit(ch) == Some(v) <==> ch == Lower(v) || ch == Upper(v)
    ensures (forall w: nat :: w < 16 ==> ch != Lower(w) && ch != Upper(w)) ==> HexDigit(ch) == None
  {
    hide HexDigit, Lower, Upper;
    ReadsBoth(v);
    if HexDigit(ch).Some? { ReadsNoOther(ch); }
  }

  /** A number in lower-case hex. */
  function Hex(n: nat): (s: seq<byte>)
    ensures |s| > 0
  {
    (if n < 16 then [] else Hex(n / 16)) + [Lower(n % 16)]
  }

  lemma {:induction false} HexValue(s: seq<byte>, last: byte, acc: nat)
    requires HexDigit(last) != None && forall i :: 0 <= i < |s| ==> HexDigit(s[i]) != None
    ensures HexPrefix(s + [last], acc) == 16 * HexPrefix(s, acc) + HexDigit(last).value
    decreases s
  {
    hide HexDigit;
    if s == [] {
      assert [] + [last] == [last] && [last][1..] == [];
    } else {
      assert (s + [last])[1..] == s[1..] + [last];
      HexValue(s[1..], last, acc * 16 + HexDigit(s[0]).value);
    }
  }

  lemma {:induction false} HexReads(n: nat)
    ensures HexPrefix(Hex(n), 0) == n && forall i :: 0 <= i < |Hex(n)| ==> HexDigit(Hex(n)[i]) != None
  {
    hide HexDigit, HexPrefix, Lower;
    var last := Lower(n % 16);
    HexDigits(last, n % 16);
    if n >= 16 {
      HexReads(n / 16);
      HexValue(Hex(n / 16), last, 0);
    } else {
      NoDigits();
      HexValue([], last, 0);
    }
  }

  lemma NoDigits()
    ensures HexPrefix([], 0) == 0
  {
  }

  /** White space in front of a size, a sign and a hex prefix are taken, a minus sign wraps round in
      64 bits, a size beyond them is the largest, and only the low 32 bits count. */
  lemma Scans(n: nat, space: byte)
    requires space == 0x20 || 0x09 <= space <= 0x0d
    ensures var size := if n > 0xffff_ffff_ffff_ffff then 0xffff_ffff else n % 0x1_0000_0000;
            && ScanHex(Hex(n)) == size && ScanHex([space] + Hex(n)) == size
            && ScanHex(Ascii("+") + Hex(n)) == size && ScanHex(Ascii("0x") + Hex(n)) == size
            && ScanHex(Ascii("0X") + Hex(n)) == size
    ensures n <= 0xffff_ffff_ffff_ffff ==> ScanHex(Ascii("-") + Hex(n)) == (0x1_0000_0000_0000_0000 - n) % 0x1_0000_0000
  {
    HexReads(n);
    hide HexPrefix, Hex;
    var s := Hex(n);
    HexIsPlain(s[0]);
    if |s| > 1 { HexIsPlain(s[1]); }
    hide HexDigit;
    assert ([space] + s)[1..] == s && (Ascii("+") + s)[1..] == s && (Ascii("-") + s)[1..] == s;
    assert (Ascii("0x") + s)[2..] == s && (Ascii("0X") + s)[2..] == s;
    assert SkipSpaces(s) == s && SkipSpaces([space] + s) == s;
  }

  /** A size that begins with anything else is none. */
  lemma NoSize(x: byte, s: seq<byte>)
    requires x != 0x20 && !(0x09 <= x <= 0x0d) && x != '+' as int && x != '-' as int && HexDigit(x) == None
    ensures ScanHex([x] + s) == 0 && ScanHex([]) == 0
  {
    assert ([x] + s)[0] == x;
  }

  // ---------------------------------------------------------------- lines

  /** A line ends at the first carriage return with a line feed behind it, and is not found behind a
      zero byte. */
  lemma {:induction false} FirstLineEnd(s: seq<byte>, k: nat)
    ensures FindCrlf(s) == Some(k)
       <==> && k + 2 <= |s| && s[k] == 0x0d && s[k + 1] == 0x0a
            && forall j :: 0 <= j < k ==> s[j] != 0 && !(s[j] == 0x0d && s[j + 1] == 0x0a)
    decreases s
  {
    if s != [] && k > 0 {
      FirstLineEnd(s[1..], k - 1);
      if s[0] != 0 && !(|s| > 1 && s[0] == 0x0d && s[1] == 0x0a) {
        var t := s[1..];
        assert forall j :: 0 < j < |s| ==> s[j] == t[j - 1];
        assert forall j :: 0 <= j < |t| ==> t[j] == s[j + 1];
      }
    }
  }

  // ---------------------------------------------------------------- bodies

  /** Lines, each with a carriage return and a line feed. */
  function Lines(ls: seq<seq<byte>>): seq<byte> {
    if ls == [] then [] else ls[0] + [0x0d, 0x0a] + Lines(ls[1..])
  }

  /** The pieces as chunks: each with its size in hex on a line of its own, a line end behind it,
      then a size of zero, trailer lines and a blank line. */
  function Chunked(pieces: seq<seq<byte>>, trailers: seq<seq<byte>>): seq<byte> {
    if pieces == [] then [0x30, 0x0d, 0x0a] + (Lines(trailers) + [0x0d, 0x0a])
    else Hex(|pieces[0]|) + [0x0d, 0x0a] + (pieces[0] + [0x0d, 0x0a]) + Chunked(pieces[1..], trailers)
  }

  function Chunks(pieces: seq<seq<byte>>): seq<Chunk> {
    if pieces == [] then [] else [Chunk(Size(Hex(|pieces[0]|), []), pieces[0])] + Chunks(pieces[1..])
  }

  const ZERO: Size := Size([0x30], [])

  predicate Plain(ls: seq<seq<byte>>) {
    forall i :: 0 <= i < |ls| ==> ls[i] != [] && forall j :: 0 <= j < |ls[i]| ==> ls[i][j] != 0 && ls[i][j] != 0x0d
  }

  lemma {:induction false} LinesAreTrailers(ls: seq<seq<byte>>)
    requires Plain(ls)
    ensures Trailers(ls) == Lines(ls) + [0x0d, 0x0a] && ValidTrailers(ls)
  {
    if ls == [] {
      assert [] + [0x0d, 0x0a] == [0x0d, 0x0a];
    } else {
      LinesAreTrailers(ls[1..]);
      Assoc(ls[0] + [0x0d, 0x0a], Lines(ls[1..]), [0x0d, 0x0a]);
    }
  }

  lemma {:induction false} ChunkedIsBody(pieces: seq<seq<byte>>, trailers: seq<seq<byte>>)
    requires Plain(trailers) && forall i :: 0 <= i < |pieces| ==> 0 < |pieces[i]| < 0x1_0000_0000
    ensures Chunked(pieces, trailers) == Body(Chunks(pieces), ZERO, trailers)
    ensures ValidBody(Chunks(pieces), ZERO, trailers) && AllData(Chunks(pieces)) == Concat(pieces)
    decreases pieces
  {
    hide Plain, Trailers, Lines, ValidTrailers;
    if pieces == [] {
      LinesAreTrailers(trailers);
      assert ZERO.Text() == [0x30];
      assert HexPrefix([0x30], 0) == 0;
    } else {
      var p, c := pieces[0], Chunk(Size(Hex(|pieces[0]|), []), pieces[0]);
      HexReads(|p|);
      hide Hex, HexPrefix, HexDigit;
      ChunkedIsBody(pieces[1..], trailers);
      assert c.size.Text() == Hex(|p|);
      assert ([c] + Chunks(pieces[1..]))[1..] == Chunks(pieces[1..]);
    }
  }

  /** Such a body is decoded to the pieces put together, whatever the trailers say and whatever
      stands behind it. */
  lemma ReadsChunked(pieces: seq<seq<byte>>, trailers: seq<seq<byte>>, rest: seq<byte>)
    requires Plain(trailers) && forall i :: 0 <= i < |pieces| ==> 0 < |pieces[i]| < 0x1_0000_0000
    ensures Decoded(Chunked(pieces, trailers) + rest) == Some((Concat(pieces), rest))
  {
    ChunkedIsBody(pieces, trailers);
    BodyRoundTrip(Chunks(pieces), ZERO, trailers, rest);
    hide *;
  }

  /** A body that breaks off is malformed: without the end of the line with the size, with less data
      than that says, or without the end of the line behind the data. */
  lemma BreaksOff(n: nat, t: seq<byte>)
    requires 0 < n < 0x1_0000_0000
    ensures NextPiece(Hex(n)) == Bad
    ensures |t| < n ==> NextPiece(Hex(n) + [0x0d, 0x0a] + t) == Bad
    ensures |t| >= n && FindCrlf(t[n..]) == None ==> NextPiece(Hex(n) + [0x0d, 0x0a] + t) == Bad
  {
    HexReads(n);
    var size := Size(Hex(n), []);
    hide Hex, HexPrefix;
    ReadsSize(size);
    assert size.Text() == Hex(n);
    FindsLine(Hex(n), t);
    forall i | 0 <= i < |Hex(n)| ensures Hex(n)[i] != 0x0d { HexIsPlain(Hex(n)[i]); }
    hide HexDigit, ChunkSize;
    if FindCrlf(Hex(n)).Some? { FirstLineEnd(Hex(n), FindCrlf(Hex(n)).value); }
    hide FindCrlf;
  }
}
