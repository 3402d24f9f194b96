/** What the JSON reader takes one byte at a time, byte for byte, and what it refuses. */
module JsonRefusals {
  import opened Bytes
  import opened JsonText
  import opened JsonReader
  import opened JsonScalars

  // ---------------------------------------------------------------- characters

  /** Hex digits are the lower-case ones and no others. */
  lemma HexDigits(ch: byte, v: nat)
    requires v < 16
    ensures HexVal(ch) == Some(v) <==> ch == Ascii("0123456789abcdef")[v]
    ensures (forall w: nat :: w < 16 ==> ch != Ascii("0123456789abcdef")[w]) ==> HexVal(ch) == None
  {
    if HexVal(ch).Some? { assert ch == Ascii("0123456789abcdef")[HexVal(ch).value]; }
  }

  /** The four digits of an escape, most significant first. */
  lemma HexEscapes(a: nat, b: nat, c: nat, d: nat)
    requires a < 16 && b < 16 && c < 16 && d < 16
    ensures var figure := Ascii("0123456789abcdef");
            CodeUnit([figure[a], figure[b], figure[c], figure[d]]) == Some(((a * 16 + b) * 16 + c) * 16 + d)
  {
    var figure := Ascii("0123456789abcdef");
    HexDigits(figure[a], a);
    HexDigits(figure[b], b);
    HexDigits(figure[c], c);
    HexDigits(figure[d], d);
    hide HexVal;
  }

  /** The characters that may follow a backslash, and what they stand for. */
  lemma ShortEscapes(ch: byte, i: nat)
    requires i < 7
    ensures Unescape(Ascii("\"\\bfnrt")[i]) == Some([0x22, 0x5c, 0x08, 0x0c, 0x0a, 0x0d, 0x09][i])
    ensures (forall j: nat :: j < 7 ==> ch != Ascii("\"\\bfnrt")[j]) ==> Unescape(ch) == None
  {
    assert ch == 0x22 ==> ch == Ascii("\"\\bfnrt")[0];
    assert ch == 0x5c ==> ch == Ascii("\"\\bfnrt")[1];
    assert ch == 0x62 ==> ch == Ascii("\"\\bfnrt")[2];
    assert ch == 0x66 ==> ch == Ascii("\"\\bfnrt")[3];
    assert ch == 0x6e ==> ch == Ascii("\"\\bfnrt")[4];
    assert ch == 0x72 ==> ch == Ascii("\"\\bfnrt")[5];
    assert ch == 0x74 ==> ch == Ascii("\"\\bfnrt")[6];
  }

  /** The number a UTF-8 sequence of up to three bytes stands for (section 3 of RFC 3629). */
  function FromUtf8(s: seq<byte>): Option<nat> {
    if |s| == 1 && s[0] < 0x80 then Some(s[0])
    else if |s| == 2 && 0xc2 <= s[0] < 0xe0 && 0x80 <= s[1] < 0xc0 then
      var a: int, b: int := s[0], s[1];
      Some((a - 0xc0) * 0x40 + (b - 0x80))
    else if |s| == 3 && 0xe0 <= s[0] < 0xf0 && 0x80 <= s[1] < 0xc0 && 0x80 <= s[2] < 0xc0 then
      var a: int, b: int, c: int := s[0], s[1], s[2];
      Some(((a - 0xe0) * 0x40 + (b - 0x80)) * 0x40 + (c - 0x80))
    else None
  }

  /** An escaped code unit becomes its UTF-8 sequence, of the shortest length; zero is lost. */
  lemma EscapesAreUtf8(cp: nat)
    requires cp < 0x1_0000
    ensures cp > 0 ==> FromUtf8(Utf8(cp)) == Some(cp)
    ensures |Utf8(cp)| == if cp == 0 then 0 else if cp < 0x80 then 1 else if cp < 0x800 then 2 else 3
  {
  }

  /** A type is told by the first two letters of its name, whatever follows, and by no fewer; a name
      that begins with no letter of a type is refused. */
  lemma TypeLetters(t: TType, more: seq<byte>)
    ensures |TypeName(t)| >= 2 && TypeForName(TypeName(t)[..2] + more) == Some(t)
    ensures |more| < 2 ==> TypeForName(more) == None
    ensures |more| >= 2 && (forall i :: 0 <= i < 8 ==> more[0] != Ascii("dilmrstu")[i]) ==> TypeForName(more) == None
  {
    var s := Ascii("dilmrstu");
    assert s[0] == 'd' as int && s[1] == 'i' as int && s[2] == 'l' as int && s[3] == 'm' as int;
    assert s[4] == 'r' as int && s[5] == 's' as int && s[6] == 't' as int && s[7] == 'u' as int;
  }

  /** A number is spelled with these characters. */
  lemma NumberCharacters(ch: byte)
    ensures IsNumeric(ch) <==> exists i :: 0 <= i < 15 && ch == Ascii("+-.0123456789Ee")[i]
  {
    var s := Ascii("+-.0123456789Ee");
    if 0x30 <= ch <= 0x39 { assert ch == s[ch - 0x30 + 3]; }
    assert ch == 0x2b ==> ch == s[0];
    assert ch == 0x2d ==> ch == s[1];
    assert ch == 0x2e ==> ch == s[2];
    assert ch == 0x45 ==> ch == s[13];
    assert ch == 0x65 ==> ch == s[14];
  }
  // ---------------------------------------------------------------- refusals

  /** One separator where the context wants one, and nothing else in its place. */
  lemma Separators(first: bool, colon: bool, x: byte, rest: seq<byte>, st: seq<Context>)
    ensures var p := ReadContext(Reader([x] + rest, Pair(first, colon), st));
            if first then p == Done((), Reader([x] + rest, Pair(false, true), st))
            else if x == (if colon then ':' else ',') as int then p == Done((), Reader(rest, Pair(false, !colon), st))
            else p == Fail(InvalidData)
    ensures var p := ReadContext(Reader([x] + rest, List(first), st));
            if first then p == Done((), Reader([x] + rest, List(false), st))
            else if x == ',' as int then p == Done((), Reader(rest, List(false), st))
            else p == Fail(InvalidData)
    ensures ReadContext(Reader([x] + rest, Base, st)) == Done((), Reader([x] + rest, Base, st))
    ensures ReadContext(Reader([], Pair(false, colon), st)) == ReadContext(Reader([], List(false), st)) == Fail(EndOfFile)
  {
    assert ([x] + rest)[1..] == rest;
  }

  /** A bracket opens a context of its own and its partner goes back to the one outside. */
  lemma Brackets(x: byte, bracket: byte, rest: seq<byte>, inner: Context, c: Context, st: seq<Context>)
    ensures ReadOpening(Reader([x] + rest, Base, st), bracket, inner)
         == if x == bracket then Done((), Reader(rest, inner, [Base] + st)) else Fail(InvalidData)
    ensures ReadClosing(Reader([x] + rest, inner, [c] + st), bracket)
         == if x == bracket then Done((), Reader(rest, c, st)) else Fail(InvalidData)
    ensures ReadOpening(Reader([], Base, st), bracket, inner) == Fail(EndOfFile)
    ensures ReadClosing(Reader([], inner, [c] + st), bracket) == Fail(EndOfFile)
    ensures ReadClosing(Reader([bracket] + rest, inner, []), bracket) == Fail(OutOfBounds)
  {
    assert ([x] + rest)[1..] == rest && ([c] + st)[1..] == st;
  }

  /** A string begins with a quote, and ends with one. */
  lemma StringsEnd(x: byte, s: seq<byte>, st: seq<Context>)
    requires forall i :: 0 <= i < |s| ==> s[i] != '\"' as int && s[i] != '\\' as int
    ensures x != '\"' as int ==> ReadString(Reader([x] + s, Base, st)) == Fail(InvalidData)
    ensures ReadString(Reader(['\"' as int] + s, Base, st)) == Fail(EndOfFile)
  {
    Unended(s, []);
    assert (['\"' as int] + s)[1..] == s;
  }

  lemma {:induction false} Unended(s: seq<byte>, acc: seq<byte>)
    requires forall i :: 0 <= i < |s| ==> s[i] != '\"' as int && s[i] != '\\' as int
    ensures ReadBody(s, acc) == Broken(EndOfFile)
    decreases s
  {
    if s != [] { Unended(s[1..], acc + [s[0]]); }
  }

  /** A backslash is followed by one of the characters above, or by `u` and four hex digits. */
  lemma BadEscapes(x: byte, rest: seq<byte>, acc: seq<byte>)
    requires x != 'u' as int ==> Unescape(x) == None
    requires x == 'u' as int ==> |rest| >= 4 && exists i :: 0 <= i < 4 && HexVal(rest[i]) == None
    ensures ReadBody(['\\' as int, x] + rest, acc) == Broken(InvalidData)
  {
    hide HexVal, Unescape;
    var s := ['\\' as int, x] + rest;
    if x == 'u' as int {
      assert s[2..6] == rest[..4];
    }
  }

  // ---------------------------------------------------------------- numbers

  /** Digits beyond the range give its nearest end. */
  lemma Clamped(n: nat, lo: int, hi: int)
    requires lo <= 0 <= hi
    ensures FromString(Digits(n), lo, hi) == Result.Ok(if n > hi then hi else n)
    ensures lo < 0 ==> FromString(['-' as int] + Digits(n), lo, hi) == Result.Ok(if 0 - n < lo then lo else 0 - n)
  {
    DigitsInvert(n);
    AllDigits(n);
    hide Digits, DigitsValue;
    var s := ['-' as int] + Digits(n);
    assert s[1..] == Digits(n) && IsDigit(Digits(n)[0]);
  }

  /** The ranges of the integer types; a byte that is read as a number from 128 to 255 is negative. */
  lemma Ranges(w: Width, n: nat)
    ensures n < 128 ==> SignedByte(n) == n && SignedByte(128 + n) == n - 128
    ensures w.Lo() == -w.Hi() - 1
    ensures w.Hi() == match w case W8 => 127 case W16 => 32767 case W32 => 2147483647 case W64 => 9223372036854775807
  {
  }

  /** What is no integer is refused: a point, an exponent or a sign within. */
  lemma {:induction false} NoInteger(s: seq<byte>, i: nat, acc: nat)
    requires i < |s| && !('0' as int <= s[i] <= '9' as int)
    ensures DigitsValue(s, acc) == None
    decreases s
  {
    if i > 0 && '0' as int <= s[0] <= '9' as int {
      NoInteger(s[1..], i - 1, acc * 10 + (s[0] - ZERO));
    }
  }

  lemma Fractions(s: seq<byte>, i: nat, lo: int, hi: int)
    requires lo <= 0 <= hi && 0 < i < |s| && !('0' as int <= s[i] <= '9' as int)
    ensures FromString(s, lo, hi) == Result.Err(InvalidData)
  {
    NoInteger(s, i, 0);
    NoInteger(s[1..], i - 1, 0);
    hide DigitsValue;
  }

  /** A list of another type is refused by who reads it, and so is a message whose sequence number does
      not fit 32 bits. */
  lemma Mismatches(e: Kind, r: Reader)
    ensures var l := ReadListBegin(r);
            l.Done? && l.value.0 != TypeOf(e) ==> ReadValue(KList(e), r) == ReadValue(KSet(e), r) == Fail(Mismatch)
    ensures var l := ReadOpening(r, '[' as int, List(true));
            l.Done? ==>
              var v := ReadInteger(l.rest, W64.Lo(), W64.Hi());
              v.Done? && v.value == 1 ==>
                var name := ReadString(v.rest);
                name.Done? ==>
                  var t := ReadInteger(name.rest, W64.Lo(), W64.Hi());
                  t.Done? ==>
                    var s := ReadInteger(t.rest, W64.Lo(), W64.Hi());
                    s.Done? ==> ReadMessageBegin(r) == if -0x8000_0000 <= s.value <= 0x7fff_ffff
                                                       then Done(Message(name.value, t.value, s.value), s.rest)
                                                       else Fail(InvalidData)
  {
    hide ReadOpening, ReadInteger, ReadString, ReadTypeName, ReadCount;
  }

  /** A message of another version is refused, and so is a list that counts 2 to the 32nd. */
  lemma Limits(r: Reader)
    ensures var l := ReadOpening(r, '[' as int, List(true));
            l.Done? ==>
              var v := ReadInteger(l.rest, W64.Lo(), W64.Hi());
              v.Done? && v.value != 1 ==> ReadMessageBegin(r) == Fail(BadVersion)
    ensures var n := ReadInteger(r, 0, 0xffff_ffff_ffff_ffff);
            n.Done? ==> ReadCount(r) == if n.value < 0x1_0000_0000 then Done(n.value, n.rest) else Fail(SizeLimit)
  {
    hide ReadOpening, ReadInteger, ReadString;
  }
}
