/** TJSONProtocol as the object it is: contexts, one byte of lookahead and a transport. */
module JsonProtocol {
  import opened Bytes
  import opened JsonText
  import opened JsonReader
  import R = JsonReader
  import B64 = Base64
  import S = JsonSkip

  /** Byte counts are `uint32_t` and wrap round. */
  function Wrap(n: int): u32 {
    n % U32_MODULUS
  }

  function Add(a: u32, b: u32): u32 {
    var x: int := a;
    Wrap(x + b)
  }

  lemma Adds(a: int, b: int)
    ensures Add(Wrap(a), Wrap(b)) == Wrap(a + b)
  {
  }

  lemma Small(n: int)
    requires 0 <= n < U32_MODULUS
    ensures Wrap(n) == n
  {
  }

  /** `LookaheadReader` over a transport that still holds `input`. */
  class LookaheadReader {
    var input: seq<byte>
    var hasData: bool
    var data: byte

    ghost function Unread(): seq<byte>
      reads this
    {
      (if hasData then [data] else []) + input
    }

    constructor (input: seq<byte>)
      ensures Unread() == input && !hasData
    {
      this.input, hasData, data := input, false, 0;
    }

    /** `readAll(&data_, 1)`: throws at end of file. */
    method Fetch() returns (ok: bool)
      requires !hasData
      modifies this`input, this`data
      ensures ok <==> old(input) != []
      ensures ok ==> data == old(input)[0] && input == old(input)[1..]
      ensures !ok ==> input == old(input)
    {
      if input == [] { return false; }
      data, input := input[0], input[1..];
      return true;
    }

    method Read() returns (ch: Option<byte>)
      modifies this
      ensures ch == None <==> old(Unread()) == []
      ensures ch.Some? ==> ch.value == old(Unread())[0] && Unread() == old(Unread())[1..]
    {
      if hasData {
        hasData := false;
      } else {
        var ok := Fetch();
        if !ok { return None; }
      }
      return Some(data);
    }

    method Peek() returns (ch: Option<byte>)
      modifies this
      ensures ch == None <==> old(Unread()) == []
      ensures ch.Some? ==> ch.value == old(Unread())[0]
      ensures Unread() == old(Unread())
    {
      if !hasData {
        var ok := Fetch();
        if !ok { return None; }
      }
      hasData := true;
      return Some(data);
    }
  }

  /** The outcome of a read agrees with its specification: the same value, the same state
      and the number of bytes taken, or the same error. */
  ghost predicate Agrees<T>(r: Result<T, Error>, n: u32, before: Reader, p: Parsed<T>, now: Reader) {
    match p
    case Done(v, rest) => r == Ok(v) && now == rest && n == Wrap(|before.input| - |now.input|)
    case Fail(e) => r == Err(e)
  }

  /** The same for `skip`, with the recursion depth. */
  ghost predicate Passes(r: Result<(), Error>, n: u32, before: Reader, o: S.Outcome, now: Reader, depth: nat) {
    match o
    case Skipped(rest, d) => r == Ok(()) && now == rest && depth == d && n == Wrap(|before.input| - |now.input|)
    case Stuck(e, d) => r == Err(e) && depth == d
  }

  class Protocol {
    var out: seq<byte>            // what has been given to trans_->write
    const reader: LookaheadReader
    var context: Context
    var contexts: seq<Context>    // top first
    var depth: nat                // input_recursion_depth_
    const limit: nat              // recursion_limit_

    ghost function State(): Reader
      reads this, reader
    {
      Reader(reader.Unread(), context, contexts)
    }

    constructor (input: seq<byte>, limit: nat)
      ensures State() == Reader(input, Base, []) && out == [] && depth == 0
      ensures fresh(reader) && this.limit == limit
    {
      reader := new LookaheadReader(input);
      out, context, contexts, depth := [], Base, [], 0;
      this.limit := limit;
    }

    // ---------------------------------------------------------------- writing

    /** `context_->write`. */
    method WriteContext() returns (n: u32)
      modifies this`out, this`context
      ensures out == old(out) + Sep(old(context)) && context == After(old(context))
      ensures n == Wrap(|out| - |old(out)|)
    {
      var c := context;
      match c
      case Base =>
        n := 0;
      case Pair(first, colon) =>
        if first {
          context := Pair(false, true);
          n := 0;
        } else {
          out := out + [if colon then COLON else COMMA];
          context := Pair(false, !colon);
          n := 1;
        }
      case List(first) =>
        if first {
          n := 0;
        } else {
          out := out + [COMMA];
          n := 1;
        }
        context := List(false);
    }

    /** `trans_->write` of some bytes, counted. */
    method Put(bytes: seq<byte>, n: u32, ghost start: nat) returns (m: u32)
      requires start <= |out| && n == Wrap(|out| - start)
      modifies this`out
      ensures out == old(out) + bytes && m == Wrap(|out| - start)
    {
      Adds(|out| - start, |bytes|);
      out := out + bytes;
      m := Add(n, Wrap(|bytes|));
    }

    /** `writeJSONString`. */
    method WriteString(s: seq<byte>) returns (n: u32)
      modifies this`out, this`context
      ensures out == old(out) + StringItem(old(context), s) && context == After(old(context))
      ensures n == Wrap(|out| - |old(out)|)
    {
      hide CharText, Sep, After, Wrap;
      ghost var before, sep := out, Sep(context);
      n := WriteContext();
      n := Put([QUOTE], n, |before|);
      ghost var start := out;
      var i := 0;
      while i < |s|
        invariant 0 <= i <= |s| && |before| <= |out|
        invariant context == After(old(context))
        invariant start + BodyText(s) == out + BodyText(s[i..])
        invariant n == Wrap(|out| - |before|)
      {
        assert s[i..][0] == s[i] && s[i..][1..] == s[i + 1..];
        Bytes.Assoc(out, CharText(s[i]), BodyText(s[i + 1..]));
        n := Put(CharText(s[i]), n, |before|);
        i := i + 1;
      }
      assert s[|s|..] == [] && out + [] == out;
      n := Put([QUOTE], n, |before|);
      assert before + sep + [QUOTE] + BodyText(s) + [QUOTE] == before + (sep + ([QUOTE] + (BodyText(s) + [QUOTE])));
    }

    /** `writeJSONBase64`. */
    method WriteBinary(s: seq<byte>) returns (n: u32)
      modifies this`out, this`context
      ensures out == old(out) + BinaryItem(old(context), s) && context == After(old(context))
      ensures n == Wrap(|out| - |old(out)|)
    {
      hide Sep, After, B64.EncodeBlock, Wrap;
      ghost var before, sep := out, Sep(context);
      n := WriteContext();
      n := Put([QUOTE], n, |before|);
      ghost var start := out;
      n := WriteBlocks(s, n, |before|);
      n := Put([QUOTE], n, |before|);
      assert before + sep + [QUOTE] + B64.Encode(s) + [QUOTE] == before + (sep + ([QUOTE] + (B64.Encode(s) + [QUOTE])));
    }

    /** Its loop: three bytes at a time through a buffer of four. */
    method WriteBlocks(s: seq<byte>, m: u32, ghost base: nat) returns (n: u32)
      requires base <= |out| && m == Wrap(|out| - base)
      modifies this`out
      ensures out == old(out) + B64.Encode(s) && n == Wrap(|out| - base)
    {
      hide B64.EncodeBlock, Wrap;
      ghost var start := out;
      var b := new byte[4](_ => 0);
      var bytes := s;
      n := m;
      while |bytes| >= 3
        invariant base <= |out|
        invariant start + B64.Encode(s) == out + B64.Encode(bytes)
        invariant n == Wrap(|out| - base)
        decreases |bytes|
      {
        B64.EncodeInto(bytes[..3], b);
        Bytes.Assoc(out, B64.EncodeBlock(bytes[..3]), B64.Encode(bytes[3..]));
        n := Put(b[..4], n, base);
        bytes := bytes[3..];
      }
      if |bytes| > 0 {
        B64.EncodeInto(bytes, b);
        n := Put(b[..|bytes| + 1], n, base);
      } else {
        assert out + [] == out;
      }
    }

    /** `writeJSONInteger`. */
    method WriteInteger(k: int) returns (n: u32)
      modifies this`out, this`context
      ensures out == old(out) + IntItem(old(context), k) && context == After(old(context))
      ensures n == Wrap(|out| - |old(out)|)
    {
      hide IntText, Sep, After, Wrap;
      ghost var before, sep := out, Sep(context);
      n := WriteContext();
      var text := IntText(k);
      var escapeNum := EscapeNum(context);
      if escapeNum { n := Put([QUOTE], n, |before|); }
      n := Put(text, n, |before|);
      if escapeNum {
        n := Put([QUOTE], n, |before|);
        assert out == before + (sep + ([QUOTE] + text + [QUOTE]));
      } else {
        assert out == before + (sep + text);
      }
    }

    /** `writeJSONObjectStart` and `writeJSONArrayStart`. */
    method WriteOpening(bracket: byte, inner: Context) returns (n: u32)
      modifies this`out, this`context, this`contexts
      ensures out == old(out) + Opening(old(context), bracket)
      ensures context == inner && contexts == [After(old(context))] + old(contexts)
      ensures n == Wrap(|out| - |old(out)|)
    {
      hide Sep, After, Wrap;
      ghost var before := out;
      n := WriteContext();
      n := Put([bracket], n, |before|);
      contexts := [context] + contexts;
      context := inner;
    }

    /** `writeJSONObjectEnd` and `writeJSONArrayEnd`. */
    method WriteClosing(bracket: byte) returns (n: u32)
      requires contexts != []
      modifies this`out, this`context, this`contexts
      ensures out == old(out) + [bracket] && n == 1
      ensures context == old(contexts)[0] && contexts == old(contexts)[1..]
    {
      context, contexts := contexts[0], contexts[1..];
      out := out + [bracket];
      n := 1;
    }

    method WriteFieldBegin(t: TType, id: int) returns (n: u32)
      modifies this`out, this`context, this`contexts
      ensures out == old(out) + FieldBeginText(old(context), id, t)
      ensures context == Pair(false, true)
      ensures contexts == [After(After(old(context)))] + old(contexts)
      ensures n == Wrap(|out| - |old(out)|)
    {
      hide IntItem, StringItem, Opening, TypeName, Wrap, Add;
      ghost var c, l0 := context, out;
      n := WriteInteger(id);
      ghost var l1 := out;
      var m := WriteOpening(OBJECT_START, NEW_PAIR);
      ghost var l2 := out;
      Adds(|l1| - |l0|, |l2| - |l1|);
      n := Add(n, m);
      m := WriteString(TypeName(t));
      Adds(|l2| - |l0|, |out| - |l2|);
      n := Add(n, m);
      assert out == l0 + (IntItem(c, id) + (Opening(After(c), OBJECT_START) + StringItem(NEW_PAIR, TypeName(t))));
    }

    /** `writeListBegin` and `writeSetBegin`. */
    method WriteListBegin(t: TType, size: u32) returns (n: u32)
      modifies this`out, this`context, this`contexts
      ensures out == old(out) + ListBeginText(old(context), t, size)
      ensures context == List(false) && contexts == [After(old(context))] + old(contexts)
      ensures n == Wrap(|out| - |old(out)|)
    {
      hide IntItem, StringItem, Opening, TypeName, Wrap, Add;
      ghost var c, l0 := context, out;
      n := WriteOpening(ARRAY_START, NEW_LIST);
      ghost var l1 := out;
      var m := WriteString(TypeName(t));
      ghost var l2 := out;
      Adds(|l1| - |l0|, |l2| - |l1|);
      n := Add(n, m);
      m := WriteInteger(size);
      Adds(|l2| - |l0|, |out| - |l2|);
      n := Add(n, m);
      assert out == l0 + (Opening(c, ARRAY_START) + (StringItem(NEW_LIST, TypeName(t)) + IntItem(List(false), size)));
    }

    method WriteMapBegin(ka: TType, kb: TType, size: u32) returns (n: u32)
      modifies this`out, this`context, this`contexts
      ensures out == old(out) + MapBeginText(old(context), ka, kb, size)
      ensures context == NEW_PAIR && contexts == [List(false), After(old(context))] + old(contexts)
      ensures n == Wrap(|out| - |old(out)|)
    {
      hide IntItem, StringItem, Opening, TypeName, Wrap, Add;
      ghost var c, l0, l := context, out, List(false);
      n := WriteOpening(ARRAY_START, NEW_LIST);
      ghost var l1 := out;
      var m := WriteString(TypeName(ka));
      ghost var l2 := out;
      Adds(|l1| - |l0|, |l2| - |l1|);
      n := Add(n, m);
      m := WriteString(TypeName(kb));
      ghost var l3 := out;
      Adds(|l2| - |l0|, |l3| - |l2|);
      n := Add(n, m);
      m := WriteInteger(size);
      ghost var l4 := out;
      Adds(|l3| - |l0|, |l4| - |l3|);
      n := Add(n, m);
      m := WriteOpening(OBJECT_START, NEW_PAIR);
      Adds(|l4| - |l0|, |out| - |l4|);
      n := Add(n, m);
      FiveParts(l0, Opening(c, ARRAY_START), StringItem(NEW_LIST, TypeName(ka)), StringItem(l, TypeName(kb)),
                IntItem(l, size), Opening(l, OBJECT_START));
    }

    static lemma FiveParts(o: seq<byte>, a: seq<byte>, b: seq<byte>, c: seq<byte>, d: seq<byte>, e: seq<byte>)
      ensures o + a + b + c + d + e == o + (a + (b + (c + (d + e))))
    {
    }

    method WriteMapEnd() returns (n: u32)
      requires |contexts| >= 2
      modifies this`out, this`context, this`contexts
      ensures out == old(out) + ([OBJECT_END] + [ARRAY_END]) && n == 2
      ensures context == old(contexts)[1] && contexts == old(contexts)[2..]
    {
      n := WriteClosing(OBJECT_END);
      var m := WriteClosing(ARRAY_END);
      n := Add(n, m);
    }

    method WriteMessageBegin(name: seq<byte>, messageType: int, seqid: int) returns (n: u32)
      modifies this`out, this`context, this`contexts
      ensures out == old(out) + MessageBeginText(old(context), name, messageType, seqid)
      ensures context == List(false) && contexts == [After(old(context))] + old(contexts)
      ensures n == Wrap(|out| - |old(out)|)
    {
      hide IntItem, StringItem, Opening, Wrap, Add;
      ghost var c, l0, l := context, out, List(false);
      n := WriteOpening(ARRAY_START, NEW_LIST);
      ghost var l1 := out;
      var m := WriteInteger(VERSION_1);
      ghost var l2 := out;
      Adds(|l1| - |l0|, |l2| - |l1|);
      n := Add(n, m);
      m := WriteString(name);
      ghost var l3 := out;
      Adds(|l2| - |l0|, |l3| - |l2|);
      n := Add(n, m);
      m := WriteInteger(messageType);
      ghost var l4 := out;
      Adds(|l3| - |l0|, |l4| - |l3|);
      n := Add(n, m);
      m := WriteInteger(seqid);
      Adds(|l4| - |l0|, |out| - |l4|);
      n := Add(n, m);
      FiveParts(l0, Opening(c, ARRAY_START), IntItem(NEW_LIST, VERSION_1), StringItem(l, name),
                IntItem(l, messageType), IntItem(l, seqid));
    }

    /** The calls a writer of kind `k` makes. */
    method WriteValue(k: Kind, v: Value)
      requires Fits(k, v)
      modifies this`out, this`context, this`contexts
      ensures out == old(out) + Text(k, v, old(context), [])
      ensures context == After(old(context)) && contexts == old(contexts)
      decreases v, 1
    {
      hide IntItem, StringItem, BinaryItem, Opening, ListBeginText, MapBeginText, After, Wrap;
      hide FieldsText, ElemsText, EntriesText;
      ghost var l0, c := out, context;
      match k
      case KBool =>
        var _ := WriteInteger(if v.b then 1 else 0);
        assert IntItem(c, if v.b then 1 else 0) + [] == IntItem(c, if v.b then 1 else 0);
      case KInt(_) =>
        var _ := WriteInteger(v.n);
        assert IntItem(c, v.n) + [] == IntItem(c, v.n);
      case KText =>
        var _ := WriteString(v.s);
        assert StringItem(c, v.s) + [] == StringItem(c, v.s);
      case KBinary =>
        var _ := WriteBinary(v.s);
        assert BinaryItem(c, v.s) + [] == BinaryItem(c, v.s);
      case KStruct(kinds) =>
        var _ := WriteOpening(OBJECT_START, NEW_PAIR);
        WriteFields(kinds, v.fs);
        var _ := WriteClosing(OBJECT_END);
        FieldsTail(kinds, v.fs, NEW_PAIR, [], [OBJECT_END]);
        Closes(l0, Opening(c, OBJECT_START), FieldsText(kinds, v.fs, NEW_PAIR, []), [OBJECT_END]);
      case KList(e) =>
        WriteElems(e, v.vs);
        assert [ARRAY_END] + [] == [ARRAY_END];
      case KSet(e) =>
        WriteElems(e, v.vs);
        assert [ARRAY_END] + [] == [ARRAY_END];
      case KMap(a, b) =>
        var _ := WriteMapBegin(TypeOf(a), TypeOf(b), |v.es|);
        WriteEntries(a, b, v.es);
        var _ := WriteMapEnd();
        EntriesTail(a, b, v.es, NEW_PAIR, [], [OBJECT_END] + [ARRAY_END]);
        assert [OBJECT_END] + ([ARRAY_END] + []) == [] + ([OBJECT_END] + [ARRAY_END]);
        Closes(l0, MapBeginText(c, TypeOf(a), TypeOf(b), |v.es|), EntriesText(a, b, v.es, NEW_PAIR, []),
               [OBJECT_END] + [ARRAY_END]);
    }

    static lemma Closes(o: seq<byte>, a: seq<byte>, b: seq<byte>, close: seq<byte>)
      ensures o + a + b + close == o + (a + (b + close))
      ensures [] + close == close == close + []
    {
    }

    method WriteFields(kinds: map<int, Kind>, fs: seq<Field>)
      requires FieldsFit(kinds, fs)
      modifies this`out, this`context, this`contexts
      ensures out == old(out) + FieldsText(kinds, fs, old(context), [])
      ensures contexts == old(contexts)
      decreases fs, 1
    {
      hide FieldBeginText, Text, After, Fits, TypeOf, Wrap;
      ghost var l0 := out;
      var i := 0;
      while i < |fs|
        invariant 0 <= i <= |fs| && FieldsFit(kinds, fs[i..])
        invariant l0 + FieldsText(kinds, fs, old(context), []) == out + FieldsText(kinds, fs[i..], context, [])
        invariant contexts == old(contexts)
      {
        ghost var rest, l1, c := fs[i..], out, context;
        assert rest[0] == fs[i] && rest[1..] == fs[i + 1..];
        assert fs decreases to fs[i];
        assert rest decreases to rest[0];
        var Field(id, value) := fs[i];
        var k := kinds[id];
        var _ := WriteFieldBegin(TypeOf(k), id);
        WriteValue(k, value);
        var _ := WriteClosing(OBJECT_END);
        var t := Text(k, value, Pair(false, true), []);
        ghost var tail := FieldsText(kinds, rest[1..], After(After(c)), []);
        TextTail(k, value, Pair(false, true), [OBJECT_END] + tail);
        FourParts(l1, FieldBeginText(c, id, TypeOf(k)), t, [OBJECT_END], tail);
        i := i + 1;
      }
      assert out + [] == out;
    }

    static lemma FourParts(o: seq<byte>, a: seq<byte>, b: seq<byte>, c: seq<byte>, d: seq<byte>)
      ensures o + a + b + c + d == o + (a + (b + (c + d)))
    {
    }

    /** A list or a set. */
    method WriteElems(e: Kind, vs: seq<Value>)
      requires ElemsFit(e, vs) && |vs| < U32_MODULUS
      modifies this`out, this`context, this`contexts
      ensures out == old(out) + (ListBeginText(old(context), TypeOf(e), |vs|)
                                 + ElemsText(e, vs, List(false), [ARRAY_END]))
      ensures context == After(old(context)) && contexts == old(contexts)
      decreases vs, 1
    {
      hide ListBeginText, Text, Fits, TypeOf, Wrap;
      ghost var c, start := context, out;
      var _ := WriteListBegin(TypeOf(e), |vs|);
      ghost var l0 := out;
      var i := 0;
      while i < |vs|
        invariant 0 <= i <= |vs| && ElemsFit(e, vs[i..])
        invariant l0 + ElemsText(e, vs, List(false), []) == out + ElemsText(e, vs[i..], context, [])
        invariant context == List(false) && contexts == [After(c)] + old(contexts)
      {
        ghost var rest := vs[i..];
        assert rest[0] == vs[i] && rest[1..] == vs[i + 1..];
        TextTail(e, vs[i], context, ElemsText(e, rest[1..], List(false), []));
        Bytes.Assoc(out, Text(e, vs[i], context, []), ElemsText(e, rest[1..], List(false), []));
        WriteValue(e, vs[i]);
        i := i + 1;
      }
      assert out + [] == out;
      var _ := WriteClosing(ARRAY_END);
      ElemsTail(e, vs, List(false), [], [ARRAY_END]);
      Closes(start, ListBeginText(c, TypeOf(e), |vs|), ElemsText(e, vs, List(false), []), [ARRAY_END]);
    }

    method WriteEntries(a: Kind, b: Kind, es: seq<Entry>)
      requires EntriesFit(a, b, es)
      modifies this`out, this`context, this`contexts
      ensures out == old(out) + EntriesText(a, b, es, old(context), [])
      ensures contexts == old(contexts)
      decreases es, 1
    {
      hide Text, After, Fits, Wrap;
      ghost var l0 := out;
      var i := 0;
      while i < |es|
        invariant 0 <= i <= |es| && EntriesFit(a, b, es[i..])
        invariant l0 + EntriesText(a, b, es, old(context), []) == out + EntriesText(a, b, es[i..], context, [])
        invariant contexts == old(contexts)
      {
        ghost var rest, l1, c := es[i..], out, context;
        assert rest[0] == es[i] && rest[1..] == es[i + 1..];
        assert es decreases to es[i];
        assert rest decreases to rest[0];
        var Entry(key, val) := es[i];
        WriteValue(a, key);
        WriteValue(b, val);
        ghost var tail := EntriesText(a, b, rest[1..], After(After(c)), []);
        TextTail(b, val, After(c), tail);
        TextTail(a, key, c, Text(b, val, After(c), tail));
        Closes(l1, Text(a, key, c, []), Text(b, val, After(c), []), tail);
        i := i + 1;
      }
      assert out + [] == out;
    }

    // ---------------------------------------------------------------- reading

    /** `readJSONSyntaxChar`. */
    method ReadSyntaxChar(ch: byte) returns (r: Result<(), Error>, n: u32)
      modifies reader
      ensures Agrees(r, n, old(State()), ReadSyntax(old(State()), ch), State())
    {
      n := 1;
      var got := reader.Read();
      match got
      case None => r := Err(EndOfFile);
      case Some(b) => r := if b != ch then Err(InvalidData) else Ok(());
    }

    /** `context_->read`. */
    method ReadContext() returns (r: Result<(), Error>, n: u32)
      modifies reader, this`context
      ensures Agrees(r, n, old(State()), R.ReadContext(old(State())), State())
    {
      r, n := Ok(()), 0;
      var c := context;
      match c
      case Base =>
      case Pair(first, colon) =>
        if first {
          context := Pair(false, true);
        } else {
          context := Pair(false, !colon);
          r, n := ReadSyntaxChar(if colon then COLON else COMMA);
        }
      case List(first) =>
        context := List(false);
        if !first {
          r, n := ReadSyntaxChar(COMMA);
        }
    }

    /** `readJSONEscapeChar`. */
    method ReadEscapeChar() returns (r: Result<nat, Error>)
      modifies reader
      ensures var u := old(reader.Unread());
              if |u| < 4 then r == Err(EndOfFile)
              else match CodeUnit(u[..4])
                   case None => r == Err(InvalidData)
                   case Some(cp) => r == Ok(cp) && reader.Unread() == u[4..]
    {
      var b0 := reader.Read();
      if b0 == None { return Err(EndOfFile); }
      var b1 := reader.Read();
      if b1 == None { return Err(EndOfFile); }
      var b2 := reader.Read();
      if b2 == None { return Err(EndOfFile); }
      var b3 := reader.Read();
      if b3 == None { return Err(EndOfFile); }
      var h0, h1, h2, h3 := HexVal(b0.value), HexVal(b1.value), HexVal(b2.value), HexVal(b3.value);
      if h0 == None || h1 == None || h2 == None || h3 == None { return Err(InvalidData); }
      r := Ok(h0.value * 0x1000 + h1.value * 0x100 + h2.value * 0x10 + h3.value);
    }

    /** What follows a backslash, `u` being the text from the backslash on. */
    method ReadEscaped(ghost u: seq<byte>, ghost acc: seq<byte>) returns (r: Result<seq<byte>, Error>, n: u32)
      requires u != [] && u[0] == BACKSLASH && reader.Unread() == u[1..]
      modifies reader
      ensures match r
              case Err(e) => ReadBody(u, acc) == Broken(e)
              case Ok(piece) =>
                && |reader.Unread()| + n + 1 == |u|
                && ReadBody(u, acc) == ReadBody(reader.Unread(), acc + piece)
    {
      hide HexVal, CodeUnit, Utf8, Unescape;
      n := 1;
      var ch := reader.Read();
      if ch == None { return Err(EndOfFile), n; }
      assert reader.Unread() == u[2..];
      if ch.value == 'u' as int {
        assert |u| >= 6 ==> u[2..][..4] == u[2..6] && u[2..][4..] == u[6..];
        var cp :- ReadEscapeChar();
        n := 5;
        r := if 0xd800 <= cp <= 0xdfff then Err(Surrogate) else Ok(Utf8(cp));
      } else {
        var plain := Unescape(ch.value);
        r := if plain == None then Err(InvalidData) else Ok([plain.value]);
      }
    }

    /** The loop of `readJSONString`. */
    method ReadStringBody() returns (r: Result<seq<byte>, Error>, n: u32)
      modifies reader
      ensures match ReadBody(old(reader.Unread()), [])
              case Broken(e) => r == Err(e)
              case Whole(s, rest) => r == Ok(s) && reader.Unread() == rest
                                     && n == Wrap(|old(reader.Unread())| - |rest|)
    {
      hide ReadBody, Wrap;
      ghost var start := reader.Unread();
      var str := [];
      n := 0;
      Small(0);
      while true
        invariant |reader.Unread()| <= |start| && n == Wrap(|start| - |reader.Unread()|)
        invariant ReadBody(start, []) == ReadBody(reader.Unread(), str)
        decreases |reader.Unread()|
      {
        ghost var u := reader.Unread();
        PlainStep(u, str);
        var ch := reader.Read();
        if ch == None { return Err(EndOfFile), n; }
        n := Count(n, 1, |start| - |u|);
        if ch.value == QUOTE { return Ok(str), n; }
        if ch.value == BACKSLASH {
          var piece, m :- ReadEscaped(u, str);
          n := Count(n, m, |start| - |u| + 1);
          str := str + piece;
        } else {
          str := str + [ch.value];
        }
      }
    }

    static lemma PlainStep(u: seq<byte>, acc: seq<byte>)
      ensures u == [] ==> ReadBody(u, acc) == Broken(EndOfFile)
      ensures u != [] && u[0] != BACKSLASH ==>
                ReadBody(u, acc) == if u[0] == QUOTE then Whole(acc, u[1..]) else ReadBody(u[1..], acc + [u[0]])
    {
    }

    /** `result += k`. */
    static method Count(n: u32, k: u32, ghost sofar: int) returns (m: u32)
      requires n == Wrap(sofar)
      ensures m == Wrap(sofar + k)
    {
      Small(k);
      Adds(sofar, k);
      m := Add(n, k);
    }

    /** `readJSONString`. */
    method ReadString() returns (r: Result<seq<byte>, Error>, n: u32)
      modifies reader, this`context
      ensures Agrees(r, n, old(State()), R.ReadString(old(State())), State())
    {
      hide ReadBody, R.ReadContext, Wrap, Add;
      ghost var u0: nat := |reader.Unread()|;
      n := 0;
      var _, n1 :- ReadContext();
      ghost var u1: nat := |reader.Unread()|;
      var _, n2 :- ReadSyntaxChar(QUOTE);
      ghost var u2: nat := |reader.Unread()|;
      var str, n3 :- ReadStringBody();
      Adds(u0 - u1, u1 - u2);
      Adds(u0 - u2, u2 - |reader.Unread()|);
      r, n := Ok(str), Add(Add(n1, n2), n3);
    }

    /** `readJSONBase64`, decoding in place in a copy of the text. */
    method ReadBinary() returns (r: Result<seq<byte>, Error>, n: u32)
      modifies reader, this`context
      ensures Agrees(r, n, old(State()), R.ReadBinary(old(State())), State())
    {
      hide R.ReadString, B64.DecodeText, Wrap;
      n := 0;
      var tmp, m :- ReadString();
      n := m;
      r := DecodeBinary(tmp);
    }

    static method DecodeBinary(tmp: seq<byte>) returns (r: Result<seq<byte>, Error>)
      ensures r == match B64.DecodeText(tmp) case None => Err(OutOfBounds) case Some(t) => Ok(t)
    {
      hide B64.DecodeBlock, B64.StripPadding;
      var len :- StripPadding(tmp);
      ghost var text := tmp[..len];
      var b := new byte[|tmp|](i requires 0 <= i < |tmp| => tmp[i]);
      var str, at := [], 0;
      assert b[..] == tmp;
      while len >= 4
        invariant at + len == |text|
        invariant b[at..|text|] == text[at..]
        invariant B64.Decode(text) == str + B64.Decode(text[at..])
        decreases len
      {
        ghost var left := text[at..];
        assert b[at..at + 4] == left[..4] && left[4..] == text[at + 4..];
        ghost var tail := b[at + 4..];
        B64.DecodeInPlace(b, at, 4);
        assert b[at + 4..] == tail;
        assert b[at + 4..|text|] == tail[..|text| - at - 4] == text[at + 4..];
        Bytes.Assoc(str, b[at..at + 3], B64.Decode(left[4..]));
        str := str + b[at..at + 3];
        at, len := at + 4, len - 4;
      }
      ghost var left := text[at..];
      if len > 1 {
        assert b[at..at + len] == left;
        B64.DecodeInPlace(b, at, len);
        str := str + b[at..at + len - 1];
      } else {
        assert str + [] == str;
      }
      return Ok(str);
    }

    /** Its first loop, whose index is a `uint32_t` that wraps below zero. */
    static method StripPadding(b: seq<byte>) returns (r: Result<nat, Error>)
      ensures match B64.StripPadding(b)
              case None => r == Err(OutOfBounds)
              case Some(t) => r.Ok? && r.value <= |b| && t == b[..r.value]
    {
      var len := |b|;
      assert b[..|b|] == b;
      if len >= 2 {
        var bound, i := len - 2, len - 1;
        while true
          invariant len <= |b| && bound == |b| - 2
          invariant bound <= len && (len < |b| ==> b[|b| - 1] == B64.EQUALS)
          invariant bound < len ==> i == len - 1
          invariant len == bound ==> b[bound] == B64.EQUALS
          invariant len == bound ==> if len == 0 then i == U32_MODULUS - 1 else i < bound
          decreases len
        {
          if i < bound { break; }
          if i >= |b| {
            assert b == [B64.EQUALS, B64.EQUALS];
            return Err(OutOfBounds);
          }
          if b[i] != B64.EQUALS { break; }
          len := len - 1;
          i := if i == 0 then U32_MODULUS - 1 else i - 1;
        }
      }
      return Ok(len);
    }

    /** `readJSONNumericChars`. */
    method ReadNumericChars() returns (r: Result<seq<byte>, Error>, n: u32)
      modifies reader
      ensures match TakeNumeric(old(reader.Unread()))
              case None => r == Err(EndOfFile)
              case Some((num, rest)) =>
                && r == Ok(num) && reader.Unread() == rest
                && n == Wrap(|old(reader.Unread())| - |rest|)
    {
      hide IsNumeric, Wrap;
      ghost var start := reader.Unread();
      var str: seq<byte> := [];
      n := 0;
      Small(0);
      assert TakeNumeric(start).Some? ==> [] + TakeNumeric(start).value.0 == TakeNumeric(start).value.0;
      while true
        invariant |reader.Unread()| <= |start| && n == Wrap(|start| - |reader.Unread()|)
        invariant TakeNumeric(start) == Onto(str, TakeNumeric(reader.Unread()))
        decreases |reader.Unread()|
      {
        ghost var u := reader.Unread();
        var ch := reader.Peek();
        if ch == None { return Err(EndOfFile), n; }
        if !IsNumeric(ch.value) { break; }
        var _ := reader.Read();
        OntoStep(str, u);
        str := str + [ch.value];
        n := Count(n, 1, |start| - |u|);
      }
      r := Ok(str);
      assert str + [] == str;
    }

    static function Onto(str: seq<byte>, t: Option<(seq<byte>, seq<byte>)>): Option<(seq<byte>, seq<byte>)> {
      match t
      case None => None
      case Some((num, rest)) => Some((str + num, rest))
    }

    static lemma OntoStep(str: seq<byte>, u: seq<byte>)
      requires u != [] && IsNumeric(u[0])
      ensures Onto(str, TakeNumeric(u)) == Onto(str + [u[0]], TakeNumeric(u[1..]))
    {
      match TakeNumeric(u[1..])
      case None =>
      case Some((num, rest)) => Bytes.Assoc(str, [u[0]], num);
    }

    /** The quote around a number that is a key. */
    method ReadKeyQuote() returns (r: Result<(), Error>, n: u32)
      modifies reader
      ensures Agrees(r, n, old(State()),
                     if EscapeNum(context) then ReadSyntax(old(State()), QUOTE) else Done((), old(State())), State())
    {
      if EscapeNum(context) {
        r, n := ReadSyntaxChar(QUOTE);
      } else {
        r, n := Ok(()), 0;
      }
    }

    /** `readJSONInteger`. */
    method ReadInteger(lo: int, hi: int) returns (r: Result<int, Error>, n: u32)
      requires lo <= 0 <= hi
      modifies reader, this`context
      ensures Agrees(r, n, old(State()), R.ReadInteger(old(State()), lo, hi), State())
    {
      hide R.ReadContext, FromString, TakeNumeric, ReadSyntax, Wrap, Add;
      ghost var u0: nat := |reader.Unread()|;
      n := 0;
      var _, n1 :- ReadContext();
      ghost var u1: nat := |reader.Unread()|;
      var _, n2 :- ReadKeyQuote();
      ghost var u2: nat := |reader.Unread()|;
      var str, n3 :- ReadNumericChars();
      ghost var u3: nat := |reader.Unread()|;
      var num :- FromString(str, lo, hi);
      var _, n4 :- ReadKeyQuote();
      Adds(u0 - u1, u1 - u2);
      Adds(u0 - u2, u2 - u3);
      Adds(u0 - u3, u3 - |reader.Unread()|);
      r, n := Ok(num), Add(Add(Add(n1, n2), n3), n4);
    }

    method ReadI8() returns (r: Result<int, Error>, n: u32)
      modifies reader, this`context
      ensures Agrees(r, n, old(State()), R.ReadI8(old(State())), State())
    {
      hide R.ReadInteger, Wrap;
      n := 0;
      var tmp, m :- ReadInteger(W16.Lo(), W16.Hi());
      n := m;
      r := if tmp < 0x100 then Ok(SignedByte(tmp)) else Err(AssertionFailed);
    }

    method ReadBool() returns (r: Result<bool, Error>, n: u32)
      modifies reader, this`context
      ensures Agrees(r, n, old(State()), R.ReadBool(old(State())), State())
    {
      hide R.ReadInteger, Wrap;
      n := 0;
      var k, m :- ReadInteger(W64.Lo(), W64.Hi());
      r, n := Ok(k != 0), m;
    }

    /** `readJSONObjectStart` and `readJSONArrayStart`. */
    method ReadOpening(bracket: byte, inner: Context) returns (r: Result<(), Error>, n: u32)
      modifies reader, this`context, this`contexts
      ensures Agrees(r, n, old(State()), R.ReadOpening(old(State()), bracket, inner), State())
    {
      hide R.ReadContext, Wrap, Add;
      ghost var u0: nat := |reader.Unread()|;
      n := 0;
      var _, n1 :- ReadContext();
      ghost var u1: nat := |reader.Unread()|;
      var _, n2 :- ReadSyntaxChar(bracket);
      Adds(u0 - u1, u1 - |reader.Unread()|);
      contexts := [context] + contexts;
      context := inner;
      r, n := Ok(()), Add(n1, n2);
    }

    /** `readJSONObjectEnd` and `readJSONArrayEnd`. */
    method ReadClosing(bracket: byte) returns (r: Result<(), Error>, n: u32)
      modifies reader, this`context, this`contexts
      ensures Agrees(r, n, old(State()), R.ReadClosing(old(State()), bracket), State())
    {
      hide Wrap;
      n := 0;
      var _, m :- ReadSyntaxChar(bracket);
      n := m;
      if contexts == [] { return Err(OutOfBounds), n; }
      context, contexts := contexts[0], contexts[1..];
      r := Ok(());
    }

    method ReadTypeName() returns (r: Result<TType, Error>, n: u32)
      modifies reader, this`context
      ensures Agrees(r, n, old(State()), R.ReadTypeName(old(State())), State())
    {
      hide R.ReadString, TypeForName, Wrap;
      n := 0;
      var name, m :- ReadString();
      n := m;
      var t := TypeForName(name);
      r := if t == None then Err(NotImplemented) else Ok(t.value);
    }

    method ReadFieldBegin() returns (r: Result<FieldHeader, Error>, n: u32)
      modifies reader, this`context, this`contexts
      ensures Agrees(r, n, old(State()), R.ReadFieldBegin(old(State())), State())
    {
      hide R.ReadInteger, R.ReadOpening, R.ReadTypeName, Wrap, Add;
      ghost var u0: nat := |reader.Unread()|;
      n := 0;
      Small(0);
      var ch := reader.Peek();
      if ch == None { return Err(EndOfFile), n; }
      if ch.value == OBJECT_END { return Ok(Stop), n; }
      var id, n1 :- ReadInteger(0, UINT64_MAX);
      if id > 0x7fff { return Err(SizeLimit), n; }
      ghost var u1: nat := |reader.Unread()|;
      var _, n2 :- ReadOpening(OBJECT_START, NEW_PAIR);
      ghost var u2: nat := |reader.Unread()|;
      var t, n3 :- ReadTypeName();
      Adds(u0 - u1, u1 - u2);
      Adds(u0 - u2, u2 - |reader.Unread()|);
      r, n := Ok(FieldHeader(id, t)), Add(Add(n1, n2), n3);
    }

    method ReadCount() returns (r: Result<nat, Error>, n: u32)
      modifies reader, this`context
      ensures Agrees(r, n, old(State()), R.ReadCount(old(State())), State())
    {
      hide R.ReadInteger, Wrap;
      n := 0;
      var k, m :- ReadInteger(0, UINT64_MAX);
      n := m;
      r := if k >= U32_MODULUS then Err(SizeLimit) else Ok(k);
    }

    /** `readListBegin` and `readSetBegin`. */
    method ReadListBegin() returns (r: Result<(TType, nat), Error>, n: u32)
      modifies reader, this`context, this`contexts
      ensures Agrees(r, n, old(State()), R.ReadListBegin(old(State())), State())
    {
      hide R.ReadOpening, R.ReadTypeName, R.ReadCount, Wrap, Add;
      ghost var u0: nat := |reader.Unread()|;
      n := 0;
      var _, n1 :- ReadOpening(ARRAY_START, NEW_LIST);
      ghost var u1: nat := |reader.Unread()|;
      var t, n2 :- ReadTypeName();
      ghost var u2: nat := |reader.Unread()|;
      var size, n3 :- ReadCount();
      Adds(u0 - u1, u1 - u2);
      Adds(u0 - u2, u2 - |reader.Unread()|);
      r, n := Ok((t, size)), Add(Add(n1, n2), n3);
    }

    method ReadMapBegin() returns (r: Result<(TType, TType, nat), Error>, n: u32)
      modifies reader, this`context, this`contexts
      ensures Agrees(r, n, old(State()), R.ReadMapBegin(old(State())), State())
    {
      hide R.ReadOpening, R.ReadTypeName, R.ReadCount, Wrap, Add;
      ghost var u0: nat := |reader.Unread()|;
      n := 0;
      var _, n1 :- ReadOpening(ARRAY_START, NEW_LIST);
      ghost var u1: nat := |reader.Unread()|;
      var a, n2 :- ReadTypeName();
      ghost var u2: nat := |reader.Unread()|;
      var b, n3 :- ReadTypeName();
      ghost var u3: nat := |reader.Unread()|;
      var size, n4 :- ReadCount();
      ghost var u4: nat := |reader.Unread()|;
      var _, n5 :- ReadOpening(OBJECT_START, NEW_PAIR);
      Adds(u0 - u1, u1 - u2);
      Adds(u0 - u2, u2 - u3);
      Adds(u0 - u3, u3 - u4);
      Adds(u0 - u4, u4 - |reader.Unread()|);
      r, n := Ok((a, b, size)), Add(Add(Add(Add(n1, n2), n3), n4), n5);
    }

    method ReadMapEnd() returns (r: Result<(), Error>, n: u32)
      modifies reader, this`context, this`contexts
      ensures Agrees(r, n, old(State()), R.ReadMapEnd(old(State())), State())
    {
      hide R.ReadClosing, Wrap, Add;
      ghost var u0: nat := |reader.Unread()|;
      n := 0;
      var _, n1 :- ReadClosing(OBJECT_END);
      ghost var u1: nat := |reader.Unread()|;
      var _, n2 :- ReadClosing(ARRAY_END);
      Adds(u0 - u1, u1 - |reader.Unread()|);
      r, n := Ok(()), Add(n1, n2);
    }

    method ReadMessageBegin() returns (r: Result<Message, Error>, n: u32)
      modifies reader, this`context, this`contexts
      ensures Agrees(r, n, old(State()), R.ReadMessageBegin(old(State())), State())
    {
      hide R.ReadOpening, R.ReadInteger, R.ReadString, Wrap, Add;
      ghost var u0: nat := |reader.Unread()|;
      n := 0;
      var _, n1 :- ReadOpening(ARRAY_START, NEW_LIST);
      ghost var u1: nat := |reader.Unread()|;
      var version, n2 :- ReadInteger(W64.Lo(), W64.Hi());
      if version != VERSION_1 { return Err(BadVersion), n; }
      ghost var u2: nat := |reader.Unread()|;
      var name, n3 :- ReadString();
      ghost var u3: nat := |reader.Unread()|;
      var messageType, n4 :- ReadInteger(W64.Lo(), W64.Hi());
      ghost var u4: nat := |reader.Unread()|;
      var seqid, n5 :- ReadInteger(W64.Lo(), W64.Hi());
      if seqid > W32.Hi() || seqid < W32.Lo() { return Err(InvalidData), n; }
      Adds(u0 - u1, u1 - u2);
      Adds(u0 - u2, u2 - u3);
      Adds(u0 - u3, u3 - u4);
      Adds(u0 - u4, u4 - |reader.Unread()|);
      r, n := Ok(Message(name, messageType, seqid)), Add(Add(Add(Add(n1, n2), n3), n4), n5);
    }

    // ---------------------------------------------------------------- skipping

    /** `skip`: the depth counter goes up on entry and, unless that throws, down again on
        every way out. */
    method Skip(t: TType) returns (r: Result<(), Error>, n: u32)
      modifies reader, this`context, this`contexts, this`depth
      ensures Passes(r, n, old(State()), S.Skip(t, old(State()), old(depth), limit), State(), depth)
      ensures depth >= old(depth)
      decreases |reader.Unread()|, 1
    {
      hide S.SkipBody, Wrap;
      n := 0;
      depth := depth + 1;
      if limit < depth { return Err(DepthLimit), n; }
      r, n := SkipBody(t);
      depth := depth - 1;
    }

    /** Its switch over the type. */
    method SkipBody(t: TType) returns (r: Result<(), Error>, n: u32)
      modifies reader, this`context, this`contexts, this`depth
      ensures Passes(r, n, old(State()), S.SkipBody(t, old(State()), old(depth), limit), State(), depth)
      ensures depth >= old(depth)
      decreases |reader.Unread()|, 0, 1
    {
      hide R.ReadBool, R.ReadI8, R.ReadInteger, R.ReadBinary, S.SkipStruct, S.SkipList, S.SkipMap, Wrap;
      n := 0;
      match t
      case TBool => { var b, m := ReadBool(); r, n := Finish(b), m; }
      case TByte => { var b, m := ReadI8(); r, n := Finish(b), m; }
      case TI16 => { var b, m := ReadInteger(W16.Lo(), W16.Hi()); r, n := Finish(b), m; }
      case TI32 => { var b, m := ReadInteger(W32.Lo(), W32.Hi()); r, n := Finish(b), m; }
      case TI64 => { var b, m := ReadInteger(W64.Lo(), W64.Hi()); r, n := Finish(b), m; }
      case TDouble => r := Err(Mismatch);
      case TString => { var b, m := ReadBinary(); r, n := Finish(b), m; }
      case TStruct => r, n := SkipStruct();
      case TMap => r, n := SkipMap();
      case TSet => r, n := SkipList();
      case TList => r, n := SkipList();
      case TUuid => r := Err(InvalidData);
    }

    static function Finish<T>(r: Result<T, Error>): Result<(), Error> {
      match r case Ok(_) => Ok(()) case Err(e) => Err(e)
    }

    method SkipStruct() returns (r: Result<(), Error>, n: u32)
      modifies reader, this`context, this`contexts, this`depth
      ensures Passes(r, n, old(State()), S.SkipStruct(old(State()), old(depth), limit), State(), depth)
      ensures depth >= old(depth)
      decreases |reader.Unread()|, 0, 0
    {
      hide R.ReadOpening, R.ReadFieldBegin, R.ReadClosing, S.Skip, Wrap, Add;
      ghost var u0: nat := |reader.Unread()|;
      n := 0;
      var _, n1 :- ReadOpening(OBJECT_START, NEW_PAIR);
      n := n1;
      ghost var s1, d1 := State(), depth;
      while true
        invariant |reader.Unread()| < u0 && n == Wrap(u0 - |reader.Unread()|)
        invariant S.SkipFields(s1, d1, limit) == S.SkipFields(State(), depth, limit)
        invariant depth >= old(depth)
        decreases |reader.Unread()|
      {
        ghost var u := |reader.Unread()|;
        var h, m :- ReadFieldBegin();
        Adds(u0 - u, u - |reader.Unread()|);
        n := Add(n, m);
        if h == Stop { break; }
        u := |reader.Unread()|;
        var _, m1 :- Skip(h.t);
        Adds(u0 - u, u - |reader.Unread()|);
        n := Add(n, m1);
        u := |reader.Unread()|;
        var _, m2 :- ReadClosing(OBJECT_END);
        Adds(u0 - u, u - |reader.Unread()|);
        n := Add(n, m2);
      }
      ghost var u := |reader.Unread()|;
      var _, m :- ReadClosing(OBJECT_END);
      Adds(u0 - u, u - |reader.Unread()|);
      r, n := Ok(()), Add(n, m);
    }

    /** A list or a set. */
    method SkipList() returns (r: Result<(), Error>, n: u32)
      modifies reader, this`context, this`contexts, this`depth
      ensures Passes(r, n, old(State()), S.SkipList(old(State()), old(depth), limit), State(), depth)
      ensures depth >= old(depth)
      decreases |reader.Unread()|, 0, 0
    {
      hide R.ReadListBegin, R.ReadClosing, S.Skip, Wrap, Add;
      ghost var u0: nat := |reader.Unread()|;
      n := 0;
      var h, n1 :- ReadListBegin();
      n := n1;
      ghost var s1, d1 := State(), depth;
      var i := 0;
      while i < h.1
        invariant i <= h.1 && |reader.Unread()| < u0 && n == Wrap(u0 - |reader.Unread()|)
        invariant S.SkipElems(h.0, h.1, s1, d1, limit) == S.SkipElems(h.0, h.1 - i, State(), depth, limit)
        invariant depth >= old(depth)
      {
        ghost var u := |reader.Unread()|;
        var _, m :- Skip(h.0);
        Adds(u0 - u, u - |reader.Unread()|);
        n := Add(n, m);
        i := i + 1;
      }
      ghost var u := |reader.Unread()|;
      var _, m :- ReadClosing(ARRAY_END);
      Adds(u0 - u, u - |reader.Unread()|);
      r, n := Ok(()), Add(n, m);
    }

    method SkipMap() returns (r: Result<(), Error>, n: u32)
      modifies reader, this`context, this`contexts, this`depth
      ensures Passes(r, n, old(State()), S.SkipMap(old(State()), old(depth), limit), State(), depth)
      ensures depth >= old(depth)
      decreases |reader.Unread()|, 0, 0
    {
      hide R.ReadMapBegin, R.ReadMapEnd, S.Skip, Wrap, Add;
      ghost var u0: nat := |reader.Unread()|;
      n := 0;
      var h, n1 :- ReadMapBegin();
      n := n1;
      ghost var s1, d1 := State(), depth;
      var i := 0;
      while i < h.2
        invariant i <= h.2 && |reader.Unread()| < u0 && n == Wrap(u0 - |reader.Unread()|)
        invariant S.SkipEntries(h.0, h.1, h.2, s1, d1, limit)
               == S.SkipEntries(h.0, h.1, h.2 - i, State(), depth, limit)
        invariant depth >= old(depth)
      {
        ghost var u := |reader.Unread()|;
        var _, m :- Skip(h.0);
        Adds(u0 - u, u - |reader.Unread()|);
        n := Add(n, m);
        u := |reader.Unread()|;
        var _, m1 :- Skip(h.1);
        Adds(u0 - u, u - |reader.Unread()|);
        n := Add(n, m1);
        i := i + 1;
      }
      ghost var u := |reader.Unread()|;
      var _, m :- ReadMapEnd();
      Adds(u0 - u, u - |reader.Unread()|);
      r, n := Ok(()), Add(n, m);
    }
  }
}
