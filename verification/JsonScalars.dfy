/** Each item the writer emits is read back by the matching read. */
module JsonScalars {
  import opened Bytes
  import opened JsonText
  import opened JsonReader
  import B64 = Base64

  /** What a text loses on the way: its zero bytes. */
  function DropNuls(s: seq<byte>): seq<byte> {
    if s == [] then []
    else if s[0] == 0 then DropNuls(s[1..])
    else [s[0]] + DropNuls(s[1..])
  }

  lemma {:induction false} NulFree(s: seq<byte>)
    ensures DropNuls(s) == s <==> 0 !in s
    ensures |DropNuls(s)| <= |s|
  {
    if s != [] {
      NulFree(s[1..]);
      assert s == [s[0]] + s[1..];
    }
  }

  // ---------------------------------------------------------------- strings

  lemma HexInverts(v: nat)
    requires v < 16
    ensures HexVal(HexChar(v)) == Some(v)
  {
  }

  lemma ReadsEscape(ch: byte, more: seq<byte>, acc: seq<byte>)
    requires ch < 0x20 && CharTable(ch) == 0
    ensures ReadBody(CharText(ch) + more, acc) == ReadBody(more, acc + Utf8(ch))
  {
    hide HexChar, HexVal;
    var input := CharText(ch) + more;
    assert input[2..6] == [ZERO, ZERO, HexChar(ch / 16), HexChar(ch)];
    assert input[6..] == more;
    HexInverts(0);
    HexInverts(ch / 16);
    HexInverts(ch % 16);
    assert HexChar(0) == ZERO && HexChar(ch) == HexChar(ch % 16) by { HexFacts(ch); }
  }

  lemma HexFacts(ch: byte)
    ensures HexChar(0) == ZERO && HexChar(ch) == HexChar(ch % 16)
  {
  }

  /** One character is read back, unless it is the zero byte. */
  lemma ReadsChar(ch: byte, more: seq<byte>, acc: seq<byte>)
    ensures ReadBody(CharText(ch) + more, acc) == ReadBody(more, acc + DropNuls([ch]))
  {
    var input := CharText(ch) + more;
    assert DropNuls([ch]) == if ch == 0 then [] else [ch] by {
      assert [ch][1..] == [];
    }
    if ch < 0x30 && CharTable(ch) == 0 {
      ReadsEscape(ch, more, acc);
    } else if |CharText(ch)| == 2 {
      assert input[2..] == more;
    } else {
      assert input[1..] == more;
    }
  }

  lemma {:induction false} ReadsBody(s: seq<byte>, rest: seq<byte>, acc: seq<byte>)
    ensures ReadBody(BodyText(s) + ([QUOTE] + rest), acc) == Whole(acc + DropNuls(s), rest)
    decreases |s|
  {
    hide CharText;
    if s == [] {
      assert BodyText(s) + ([QUOTE] + rest) == [QUOTE] + rest;
      assert ([QUOTE] + rest)[1..] == rest;
      assert acc + [] == acc;
    } else {
      hide ReadBody;
      var more := BodyText(s[1..]) + ([QUOTE] + rest);
      Assoc(CharText(s[0]), BodyText(s[1..]), [QUOTE] + rest);
      ReadsChar(s[0], more, acc);
      ReadsBody(s[1..], rest, acc + DropNuls([s[0]]));
      DropNulsStep(s);
      Assoc(acc, DropNuls([s[0]]), DropNuls(s[1..]));
    }
  }

  lemma DropNulsStep(s: seq<byte>)
    requires s != []
    ensures DropNuls(s) == DropNuls([s[0]]) + DropNuls(s[1..])
  {
    assert [s[0]][1..] == [];
    assert DropNuls([]) == [];
    assert [] + DropNuls(s[1..]) == DropNuls(s[1..]);
    assert [s[0]] + [] == [s[0]];
  }

  lemma ReadsSyntax(ch: byte, rest: seq<byte>, c: Context, st: seq<Context>)
    ensures ReadSyntax(Reader([ch] + rest, c, st), ch) == Done((), Reader(rest, c, st))
  {
  }

  lemma ReadsContext(c: Context, rest: seq<byte>, st: seq<Context>)
    ensures ReadContext(Reader(Sep(c) + rest, c, st)) == Done((), Reader(rest, After(c), st))
  {
  }

  /** A text between quotes, read as a string. */
  lemma ReadsQuoted(c: Context, t: seq<byte>, rest: seq<byte>, st: seq<Context>, s: seq<byte>)
    requires ReadBody(t + ([QUOTE] + rest), []) == Whole(s, rest)
    ensures ReadString(Reader(Sep(c) + Quoted(t) + rest, c, st)) == Done(s, Reader(rest, After(c), st))
  {
    hide ReadBody, ReadContext, ReadSyntax, Sep, After;
    Assoc(Sep(c), Quoted(t), rest);
    Assoc([QUOTE], t + [QUOTE], rest);
    Assoc(t, [QUOTE], rest);
    ReadsContext(c, Quoted(t) + rest, st);
    ReadsSyntax(QUOTE, t + ([QUOTE] + rest), After(c), st);
  }

  lemma ReadsString(c: Context, s: seq<byte>, rest: seq<byte>, st: seq<Context>)
    ensures ReadString(Reader(StringItem(c, s) + rest, c, st))
         == Done(DropNuls(s), Reader(rest, After(c), st))
  {
    ReadsBody(s, rest, []);
    assert [] + DropNuls(s) == DropNuls(s);
    hide BodyText, ReadBody, ReadString, DropNuls;
    ReadsQuoted(c, BodyText(s), rest, st, DropNuls(s));
  }

  // ---------------------------------------------------------------- binary

  /** Characters that need no escape and are not zero. */
  predicate IsPlain(ch: byte) {
    ch != BACKSLASH && ch != QUOTE && ch >= 0x20
  }

  lemma {:induction false} PlainBody(t: seq<byte>)
    requires forall i :: 0 <= i < |t| ==> IsPlain(t[i])
    ensures BodyText(t) == t && DropNuls(t) == t
  {
    if t != [] {
      assert IsPlain(t[0]);
      forall i | 0 <= i < |t[1..]| ensures IsPlain(t[1..][i]) {
        assert t[1..][i] == t[i + 1];
      }
      PlainBody(t[1..]);
      assert CharText(t[0]) == [t[0]];
      assert t == [t[0]] + t[1..];
    }
  }

  lemma PlainBlock(s: seq<byte>)
    requires 1 <= |s| <= 3
    ensures forall i :: 0 <= i < |s| + 1 ==> IsPlain(B64.EncodeBlock(s)[i])
  {
  }

  lemma {:induction false} PlainBase64(s: seq<byte>)
    ensures forall i :: 0 <= i < |B64.Encode(s)| ==> IsPlain(B64.Encode(s)[i])
    decreases |s|
  {
    hide IsPlain, B64.EncodeBlock;
    if |s| >= 3 {
      PlainBlock(s[..3]);
      PlainBase64(s[3..]);
    } else if |s| > 0 {
      PlainBlock(s);
    }
  }

  lemma ReadsBinary(c: Context, s: seq<byte>, rest: seq<byte>, st: seq<Context>)
    ensures ReadBinary(Reader(BinaryItem(c, s) + rest, c, st)) == Done(s, Reader(rest, After(c), st))
  {
    var t := B64.Encode(s);
    PlainBase64(s);
    PlainBody(t);
    hide B64.Encode, B64.DecodeText, BodyText, DropNuls, ReadString;
    assert BinaryItem(c, s) == StringItem(c, t);
    ReadsString(c, t, rest, st);
    B64.TextRoundTrip(s);
  }

  // ---------------------------------------------------------------- numbers

  predicate IsDigit(ch: byte) {
    ZERO <= ch <= '9' as int
  }

  lemma {:induction false} AllDigits(n: nat)
    ensures forall i :: 0 <= i < |Digits(n)| ==> IsDigit(Digits(n)[i])
    decreases n
  {
    if n >= 10 { AllDigits(n / 10); }
  }

  lemma {:induction false} DigitsSnoc(s: seq<byte>, d: byte, acc: nat, n: nat)
    requires DigitsValue(s, acc) == Some(n) && IsDigit(d)
    ensures DigitsValue(s + [d], acc) == Some(n * 10 + (d - ZERO))
    decreases |s|
  {
    if s == [] {
      assert s + [d] == [d] && [d][1..] == [];
      assert DigitsValue([], n * 10 + (d - ZERO)) == Some(n * 10 + (d - ZERO));
    } else {
      assert (s + [d])[1..] == s[1..] + [d];
      DigitsSnoc(s[1..], d, acc * 10 + (s[0] - ZERO), n);
    }
  }

  lemma {:induction false} DigitsInvert(n: nat)
    ensures DigitsValue(Digits(n), 0) == Some(n)
    decreases n
  {
    if n < 10 {
      assert [ZERO + n][1..] == [];
      assert DigitsValue([], n) == Some(n);
    } else {
      DigitsInvert(n / 10);
      DigitsSnoc(Digits(n / 10), ZERO + n % 10, 0, n / 10);
    }
  }

  /** An integer in range is read back; a negative one read as unsigned comes back modulo
      two to the 64th. */
  lemma FromStringInverts(n: int, lo: int, hi: int)
    requires lo <= 0 <= hi && n <= hi && (lo < 0 ==> lo <= n) && (lo == 0 ==> -n <= hi)
    ensures FromString(IntText(n), lo, hi)
         == Result.Ok(if n >= 0 || lo < 0 then n else hi + 1 + n)
  {
    var m := if n < 0 then -n else n;
    DigitsInvert(m);
    AllDigits(m);
    hide Digits, DigitsValue;
    var s := IntText(n);
    if n < 0 {
      assert s[1..] == Digits(m);
    } else {
      assert IsDigit(s[0]);
    }
  }

  /** What is read when digits are followed by `rest`: what is numeric in it is taken too. */
  lemma {:induction false} TakesOn(t: seq<byte>, rest: seq<byte>)
    requires forall i :: 0 <= i < |t| ==> IsNumeric(t[i])
    ensures TakeNumeric(t + rest) == match TakeNumeric(rest)
                                     case None => None
                                     case Some((more, tail)) => Some((t + more, tail))
    decreases |t|
  {
    hide IsNumeric;
    if t == [] {
      assert t + rest == rest;
      if TakeNumeric(rest).Some? { assert [] + TakeNumeric(rest).value.0 == TakeNumeric(rest).value.0; }
    } else {
      assert IsNumeric(t[0]);
      TakesOn(t[1..], rest);
      assert (t + rest)[1..] == t[1..] + rest;
      if TakeNumeric(rest).Some? {
        var more := TakeNumeric(rest).value.0;
        assert [t[0]] + (t[1..] + more) == t + more;
      }
    }
  }

  lemma TakesNumeric(t: seq<byte>, rest: seq<byte>)
    requires forall i :: 0 <= i < |t| ==> IsNumeric(t[i])
    requires rest != [] && !IsNumeric(rest[0])
    ensures TakeNumeric(t + rest) == Some((t, rest))
  {
    TakesOn(t, rest);
    assert t + [] == t;
  }

  lemma IntTextNumeric(n: int)
    ensures forall i :: 0 <= i < |IntText(n)| ==> IsNumeric(IntText(n)[i])
  {
    AllDigits(if n < 0 then -n else n);
    hide Digits;
  }

  /** What must stand behind a number for the reader to find its end. */
  predicate Delimits(c: Context, rest: seq<byte>) {
    EscapeNum(c) || (rest != [] && !IsNumeric(rest[0]))
  }

  /** What the reader makes of `n` when it reads into a range. */
  function Wrapped(n: int, lo: int, hi: int): int {
    if n >= 0 || lo < 0 then n else hi + 1 + n
  }

  lemma ReadsInteger(c: Context, n: int, lo: int, hi: int, rest: seq<byte>, st: seq<Context>)
    requires lo <= 0 <= hi && n <= hi && (lo < 0 ==> lo <= n) && (lo == 0 ==> -n <= hi)
    requires Delimits(After(c), rest)
    ensures ReadInteger(Reader(IntItem(c, n) + rest, c, st), lo, hi)
         == Done(Wrapped(n, lo, hi), Reader(rest, After(c), st))
  {
    var t := IntText(n);
    FromStringInverts(n, lo, hi);
    IntTextNumeric(n);
    hide IntText, FromString, TakeNumeric, ReadContext, ReadSyntax, Sep, After;
    Assoc(Sep(c), NumText(After(c), n), rest);
    ReadsContext(c, NumText(After(c), n) + rest, st);
    if EscapeNum(After(c)) {
      var tail := [QUOTE] + rest;
      Assoc([QUOTE], t, [QUOTE]);
      Assoc([QUOTE], t + [QUOTE], rest);
      Assoc(t, [QUOTE], rest);
      ReadsSyntax(QUOTE, t + tail, After(c), st);
      TakesNumeric(t, tail);
      ReadsSyntax(QUOTE, rest, After(c), st);
    } else {
      TakesNumeric(t, rest);
    }
  }

  /** A bare number with nothing behind it that ends it: the number goes on up to the first
      byte that is not numeric, and there must be one. */
  function RunsOn(n: int, lo: int, hi: int, rest: seq<byte>, c: Context, st: seq<Context>): (p: Parsed<int>)
    requires lo <= 0 <= hi
    ensures p.Done? && rest != [] && IsNumeric(rest[0]) ==> |p.rest.input| < |rest|
  {
    match TakeNumeric(rest)
    case None => Fail(EndOfFile)
    case Some((more, tail)) =>
      match FromString(IntText(n) + more, lo, hi)
      case Err(e) => Fail(e)
      case Ok(m) => Done(m, Reader(tail, c, st))
  }

  lemma ReadsOn(c: Context, n: int, lo: int, hi: int, rest: seq<byte>, st: seq<Context>)
    requires lo <= 0 <= hi && !Delimits(After(c), rest)
    ensures ReadInteger(Reader(IntItem(c, n) + rest, c, st), lo, hi) == RunsOn(n, lo, hi, rest, After(c), st)
  {
    var t := IntText(n);
    IntTextNumeric(n);
    hide IntText, FromString, TakeNumeric, ReadContext, Sep, After;
    Assoc(Sep(c), NumText(After(c), n), rest);
    ReadsContext(c, NumText(After(c), n) + rest, st);
    TakesOn(t, rest);
  }

  lemma ReadsBool(c: Context, b: bool, rest: seq<byte>, st: seq<Context>)
    requires Delimits(After(c), rest)
    ensures ReadBool(Reader(IntItem(c, if b then 1 else 0) + rest, c, st))
         == Done(b, Reader(rest, After(c), st))
  {
    hide IntItem, ReadInteger, Delimits;
    ReadsInteger(c, if b then 1 else 0, W64.Lo(), W64.Hi(), rest, st);
  }

  lemma ReadsI8(c: Context, n: int, rest: seq<byte>, st: seq<Context>)
    requires -0x80 <= n <= 0x7f && Delimits(After(c), rest)
    ensures ReadI8(Reader(IntItem(c, n) + rest, c, st)) == Done(n, Reader(rest, After(c), st))
  {
    hide IntItem, ReadInteger, Delimits;
    ReadsInteger(c, n, W16.Lo(), W16.Hi(), rest, st);
  }
}
