/** The reading functions of TJSONProtocol as functions of the unread bytes and the contexts. */
module JsonReader {
  import opened Bytes
  import opened JsonText
  import B64 = Base64

  datatype Error =
    | EndOfFile
    | InvalidData
    | SizeLimit
    | NotImplemented
    | BadVersion
    | DepthLimit
    | Indeterminate     // the source goes on with a number it never assigned
    | OutOfBounds       // the source reads outside an object
    | AssertionFailed   // an `assert` of the source does not hold
    | Surrogate         // UTF-16 surrogates are not part of this model
    | Mismatch          // not the kind of value the caller asked for

  /** `input` is what `reader_` has yet to deliver, the byte it holds included. */
  datatype Reader = Reader(input: seq<byte>, context: Context, contexts: seq<Context>)

  datatype Parsed<+T> = Done(value: T, rest: Reader) | Fail(error: Error) {
    predicate IsFailure() { Fail? }
    function PropagateFailure<U>(): Parsed<U> requires Fail? { Fail(error) }
    function Extract(): (T, Reader) requires Done? { (value, rest) }
  }

  // ---------------------------------------------------------------- bytes

  /** `readSyntaxChar`. */
  function ReadSyntax(r: Reader, ch: byte): (p: Parsed<()>)
    ensures p.Done? ==> |p.rest.input| + 1 == |r.input|
  {
    if r.input == [] then Fail(EndOfFile)
    else if r.input[0] != ch then Fail(InvalidData)
    else Done((), r.(input := r.input[1..]))
  }

  /** `context_->read`. */
  function ReadContext(r: Reader): (p: Parsed<()>)
    ensures p.Done? ==> |p.rest.input| <= |r.input|
  {
    var next := r.(context := After(r.context));
    if Sep(r.context) == [] then Done((), next)
    else ReadSyntax(next, Sep(r.context)[0])
  }

  // ---------------------------------------------------------------- strings

  function HexVal(ch: byte): (v: Option<nat>)
    ensures v.Some? ==> v.value < 16
  {
    if ZERO <= ch <= '9' as int then Some(ch - ZERO)
    else if 'a' as int <= ch <= 'f' as int then Some(ch - 'a' as int + 10)
    else None
  }

  /** `readJSONEscapeChar` on the four characters after `\u`. */
  function CodeUnit(s: seq<byte>): (u: Option<nat>)
    requires |s| == 4
    ensures u.Some? ==> u.value < 0x1_0000
  {
    match (HexVal(s[0]), HexVal(s[1]), HexVal(s[2]), HexVal(s[3]))
    case (Some(a), Some(b), Some(c), Some(d)) => Some(a * 0x1000 + b * 0x100 + c * 0x10 + d)
    case _ => None
  }

  /** The conversion to UTF-8 of a zero-terminated array holding one code unit: a code unit
      of zero is taken for the terminator. */
  function Utf8(cp: nat): seq<byte>
    requires cp < 0x1_0000
  {
    if cp == 0 then []
    else if cp < 0x80 then [cp]
    else if cp < 0x800 then [0xc0 + cp / 0x40, 0x80 + cp % 0x40]
    else [0xe0 + cp / 0x1000, 0x80 + cp / 0x40 % 0x40, 0x80 + cp % 0x40]
  }

  /** The position of `ch` in `kEscapeChars` picks the value. */
  function Unescape(ch: byte): Option<byte> {
    if ch == QUOTE then Some(QUOTE)
    else if ch == BACKSLASH then Some(BACKSLASH)
    else if ch == 'b' as int then Some(8)
    else if ch == 'f' as int then Some(12)
    else if ch == 'n' as int then Some(10)
    else if ch == 'r' as int then Some(13)
    else if ch == 't' as int then Some(9)
    else None
  }

  datatype Body = Whole(s: seq<byte>, rest: seq<byte>) | Broken(error: Error)

  /** The loop of `readJSONString`, with `acc` read so far. */
  function ReadBody(input: seq<byte>, acc: seq<byte>): (b: Body)
    ensures b.Whole? ==> |b.rest| < |input|
    decreases |input|
  {
    if input == [] then Broken(EndOfFile)
    else if input[0] == QUOTE then Whole(acc, input[1..])
    else if input[0] != BACKSLASH then ReadBody(input[1..], acc + [input[0]])
    else if |input| == 1 then Broken(EndOfFile)
    else if input[1] != 'u' as int then
      match Unescape(input[1])
      case None => Broken(InvalidData)
      case Some(ch) => ReadBody(input[2..], acc + [ch])
    else if |input| < 6 then Broken(EndOfFile)
    else
      match CodeUnit(input[2..6])
      case None => Broken(InvalidData)
      case Some(cp) =>
        if 0xd800 <= cp <= 0xdfff then Broken(Surrogate)
        else ReadBody(input[6..], acc + Utf8(cp))
  }

  /** `readJSONString`. */
  function ReadString(r: Reader): (p: Parsed<seq<byte>>)
    ensures p.Done? ==> |p.rest.input| < |r.input|
  {
    var (_, r1) :- ReadContext(r);
    var (_, r2) :- ReadSyntax(r1, QUOTE);
    match ReadBody(r2.input, [])
    case Broken(e) => Fail(e)
    case Whole(s, rest) => Done(s, r2.(input := rest))
  }

  /** `readJSONBase64`. */
  function ReadBinary(r: Reader): (p: Parsed<seq<byte>>)
    ensures p.Done? ==> |p.rest.input| < |r.input|
  {
    var (s, r1) :- ReadString(r);
    match B64.DecodeText(s)
    case None => Fail(OutOfBounds)
    case Some(t) => Done(t, r1)
  }

  // ---------------------------------------------------------------- numbers

  /** `isJSONNumeric`. */
  predicate IsNumeric(ch: byte) {
    || ZERO <= ch <= '9' as int || ch == '+' as int || ch == MINUS
    || ch == '.' as int || ch == 'E' as int || ch == 'e' as int
  }

  /** `readJSONNumericChars`: it has to see the byte that ends the number. */
  function TakeNumeric(input: seq<byte>): (t: Option<(seq<byte>, seq<byte>)>)
    ensures t.Some? ==> |t.value.0| + |t.value.1| == |input|
  {
    if input == [] then None
    else if !IsNumeric(input[0]) then Some(([], input))
    else
      match TakeNumeric(input[1..])
      case None => None
      case Some((num, rest)) => Some(([input[0]] + num, rest))
  }

  /** Digits, read from the left onto `acc`, up to the end. */
  function DigitsValue(s: seq<byte>, acc: nat): Option<nat> {
    if s == [] then Some(acc)
    else if ZERO <= s[0] <= '9' as int then DigitsValue(s[1..], acc * 10 + (s[0] - ZERO))
    else None
  }

  /** `fromString`: an optional sign and digits up to the end of the string. Out of range
      values are clamped, as stream extraction does without setting `badbit`; an unsigned
      target takes a negative number modulo two to the 64th, as it does for `-1`. */
  function FromString(s: seq<byte>, lo: int, hi: int): (p: Result<int, Error>)
    requires lo <= 0 <= hi
    ensures p.Ok? ==> lo <= p.value <= hi
  {
    var signed := s != [] && (s[0] == MINUS || s[0] == '+' as int);
    var body := if signed then s[1..] else s;
    if s == [] then Result.Err(Indeterminate)
    else if body == [] then Result.Ok(0)      // a lone sign: extraction stores zero
    else
      match DigitsValue(body, 0)
      case None => Result.Err(InvalidData)
      case Some(n) =>
        if signed && s[0] == MINUS then
          if lo < 0 then Result.Ok(if 0 - n < lo then lo else 0 - n)
          else if n == 0 then Result.Ok(0)
          else Result.Ok(if n > hi then hi else hi + 1 - n)
        else Result.Ok(if n > hi then hi else n)
  }

  /** `readJSONInteger` for a target type with the given range. */
  function ReadInteger(r: Reader, lo: int, hi: int): (p: Parsed<int>)
    requires lo <= 0 <= hi
    ensures p.Done? ==> |p.rest.input| < |r.input| && lo <= p.value <= hi
  {
    var (_, r1) :- ReadContext(r);
    var (_, r2) :- if EscapeNum(r1.context) then ReadSyntax(r1, QUOTE) else Done((), r1);
    match TakeNumeric(r2.input)
    case None => Fail(EndOfFile)
    case Some((num, rest)) =>
      match FromString(num, lo, hi)
      case Err(e) => Fail(e)
      case Ok(n) =>
        var r3 := r2.(input := rest);
        var (_, r4) :- if EscapeNum(r3.context) then ReadSyntax(r3, QUOTE) else Done((), r3);
        Done(n, r4)
  }

  /** `(int8_t)` of an `int16_t`. */
  function SignedByte(n: int): int {
    if n % 0x100 < 0x80 then n % 0x100 else n % 0x100 - 0x100
  }

  /** `readByte`: read as `int16_t`, asserted to be below 256, then cast. */
  function ReadI8(r: Reader): (p: Parsed<int>)
    ensures p.Done? ==> |p.rest.input| < |r.input|
  {
    var (n, r1) :- ReadInteger(r, W16.Lo(), W16.Hi());
    if n < 0x100 then Done(SignedByte(n), r1) else Fail(AssertionFailed)
  }

  const UINT64_MAX: int := 0xffff_ffff_ffff_ffff

  /** `readBool`: stream extraction into a `bool` takes any number but 0 and 1 for true. */
  function ReadBool(r: Reader): (p: Parsed<bool>)
    ensures p.Done? ==> |p.rest.input| < |r.input|
  {
    var (n, r1) :- ReadInteger(r, W64.Lo(), W64.Hi());
    Done(n != 0, r1)
  }

  // ---------------------------------------------------------------- brackets

  /** `readJSONObjectStart` and `readJSONArrayStart`. */
  function ReadOpening(r: Reader, bracket: byte, inner: Context): (p: Parsed<()>)
    ensures p.Done? ==> |p.rest.input| < |r.input|
  {
    var (_, r1) :- ReadContext(r);
    var (_, r2) :- ReadSyntax(r1, bracket);
    Done((), r2.(context := inner, contexts := [r2.context] + r2.contexts))
  }

  /** `readJSONObjectEnd` and `readJSONArrayEnd`. */
  function ReadClosing(r: Reader, bracket: byte): (p: Parsed<()>)
    ensures p.Done? ==> |p.rest.input| < |r.input|
  {
    var (_, r1) :- ReadSyntax(r, bracket);
    if r1.contexts == [] then Fail(OutOfBounds)
    else Done((), r1.(context := r1.contexts[0], contexts := r1.contexts[1..]))
  }

  function ReadTypeName(r: Reader): (p: Parsed<TType>)
    ensures p.Done? ==> |p.rest.input| < |r.input|
  {
    var (s, r1) :- ReadString(r);
    match TypeForName(s)
    case None => Fail(NotImplemented)
    case Some(t) => Done(t, r1)
  }

  // ---------------------------------------------------------------- begins

  datatype FieldHeader = Stop | FieldHeader(id: int, t: TType)

  /** `readFieldBegin`. */
  function ReadFieldBegin(r: Reader): (p: Parsed<FieldHeader>)
    ensures p.Done? ==> |p.rest.input| <= |r.input|
    ensures p.Done? && !p.value.Stop? ==> |p.rest.input| < |r.input|
  {
    if r.input == [] then Fail(EndOfFile)
    else if r.input[0] == OBJECT_END then Done(Stop, r)
    else
      var (id, r1) :- ReadInteger(r, 0, UINT64_MAX);
      if id > 0x7fff then Fail(SizeLimit)
      else
        var (_, r2) :- ReadOpening(r1, OBJECT_START, NEW_PAIR);
        var (t, r3) :- ReadTypeName(r2);
        Done(FieldHeader(id, t), r3)
  }

  function ReadCount(r: Reader): (p: Parsed<nat>)
    ensures p.Done? ==> |p.rest.input| < |r.input|
  {
    var (n, r1) :- ReadInteger(r, 0, UINT64_MAX);
    if n >= U32_MODULUS then Fail(SizeLimit) else Done(n, r1)
  }

  /** `readListBegin` and `readSetBegin`. */
  function ReadListBegin(r: Reader): (p: Parsed<(TType, nat)>)
    ensures p.Done? ==> |p.rest.input| < |r.input|
  {
    var (_, r1) :- ReadOpening(r, ARRAY_START, NEW_LIST);
    var (t, r2) :- ReadTypeName(r1);
    var (n, r3) :- ReadCount(r2);
    Done((t, n), r3)
  }

  function ReadMapBegin(r: Reader): (p: Parsed<(TType, TType, nat)>)
    ensures p.Done? ==> |p.rest.input| < |r.input|
  {
    var (_, r1) :- ReadOpening(r, ARRAY_START, NEW_LIST);
    var (a, r2) :- ReadTypeName(r1);
    var (b, r3) :- ReadTypeName(r2);
    var (n, r4) :- ReadCount(r3);
    var (_, r5) :- ReadOpening(r4, OBJECT_START, NEW_PAIR);
    Done((a, b, n), r5)
  }

  function ReadMapEnd(r: Reader): (p: Parsed<()>)
    ensures p.Done? ==> |p.rest.input| < |r.input|
  {
    var (_, r1) :- ReadClosing(r, OBJECT_END);
    ReadClosing(r1, ARRAY_END)
  }

  datatype Message = Message(name: seq<byte>, messageType: int, seqid: int)

  /** `readMessageBegin`: all three numbers are read as `int64_t`. */
  function ReadMessageBegin(r: Reader): (p: Parsed<Message>)
    ensures p.Done? ==> |p.rest.input| < |r.input|
  {
    var (_, r1) :- ReadOpening(r, ARRAY_START, NEW_LIST);
    var (version, r2) :- ReadInteger(r1, W64.Lo(), W64.Hi());
    if version != VERSION_1 then Fail(BadVersion)
    else
      var (name, r3) :- ReadString(r2);
      var (messageType, r4) :- ReadInteger(r3, W64.Lo(), W64.Hi());
      var (seqid, r5) :- ReadInteger(r4, W64.Lo(), W64.Hi());
      if seqid > W32.Hi() || seqid < W32.Lo() then Fail(InvalidData)
      else Done(Message(name, messageType, seqid), r5)
  }

  // ---------------------------------------------------------------- trees

  /** The calls a reader of kind `k` makes. */
  function ReadValue(k: Kind, r: Reader): (p: Parsed<Value>)
    ensures p.Done? ==> |p.rest.input| < |r.input|
    decreases |r.input|, 1, 0
  {
    match k
    case KBool => (var (b, r1) :- ReadBool(r); Done(Bool(b), r1))
    case KInt(w) =>
      var (n, r1) :- if w == W8 then ReadI8(r) else ReadInteger(r, w.Lo(), w.Hi());
      Done(Int(n), r1)
    case KText => (var (s, r1) :- ReadString(r); Done(Bytes(s), r1))
    case KBinary => (var (s, r1) :- ReadBinary(r); Done(Bytes(s), r1))
    case KStruct(kinds) =>
      var (_, r1) :- ReadOpening(r, OBJECT_START, NEW_PAIR);
      var (fs, r2) :- ReadFields(kinds, r1);
      var (_, r3) :- ReadClosing(r2, OBJECT_END);
      Done(Struct(fs), r3)
    case KList(e) => ReadSequence(e, r)
    case KSet(e) => ReadSequence(e, r)
    case KMap(a, b) =>
      var (h, r1) :- ReadMapBegin(r);
      if h.0 != TypeOf(a) || h.1 != TypeOf(b) then Fail(Mismatch)
      else
        var (es, r2) :- ReadEntries(a, b, h.2, r1);
        var (_, r3) :- ReadMapEnd(r2);
        Done(Map(es), r3)
  }

  function ReadSequence(e: Kind, r: Reader): (p: Parsed<Value>)
    ensures p.Done? ==> |p.rest.input| < |r.input|
    decreases |r.input|, 0, 0
  {
    var (h, r1) :- ReadListBegin(r);
    if h.0 != TypeOf(e) then Fail(Mismatch)
    else
      var (vs, r2) :- ReadElems(e, h.1, r1);
      var (_, r3) :- ReadClosing(r2, ARRAY_END);
      Done(Elems(vs), r3)
  }

  function ReadFields(kinds: map<int, Kind>, r: Reader): (p: Parsed<seq<Field>>)
    ensures p.Done? ==> |p.rest.input| <= |r.input|
    decreases |r.input|, 2, 0
  {
    var (h, r1) :- ReadFieldBegin(r);
    if h == Stop then Done([], r1)
    else if h.id !in kinds || TypeOf(kinds[h.id]) != h.t then Fail(Mismatch)
    else
      var (v, r2) :- ReadValue(kinds[h.id], r1);
      var (_, r3) :- ReadClosing(r2, OBJECT_END);
      var (fs, r4) :- ReadFields(kinds, r3);
      Done([Field(h.id, v)] + fs, r4)
  }

  function ReadElems(k: Kind, n: nat, r: Reader): (p: Parsed<seq<Value>>)
    ensures p.Done? ==> |p.rest.input| <= |r.input|
    decreases |r.input|, 2, n
  {
    if n == 0 then Done([], r)
    else
      var (v, r1) :- ReadValue(k, r);
      var (vs, r2) :- ReadElems(k, n - 1, r1);
      Done([v] + vs, r2)
  }

  function ReadEntries(a: Kind, b: Kind, n: nat, r: Reader): (p: Parsed<seq<Entry>>)
    ensures p.Done? ==> |p.rest.input| <= |r.input|
    decreases |r.input|, 2, n
  {
    if n == 0 then Done([], r)
    else
      var (e, r1) :- ReadEntry(a, b, r);
      var (es, r2) :- ReadEntries(a, b, n - 1, r1);
      Done([e] + es, r2)
  }

  function ReadEntry(a: Kind, b: Kind, r: Reader): (p: Parsed<Entry>)
    ensures p.Done? ==> |p.rest.input| < |r.input|
    decreases |r.input|, 1, 1
  {
    var (key, r1) :- ReadValue(a, r);
    var (val, r2) :- ReadValue(b, r1);
    Done(Entry(key, val), r2)
  }
}
