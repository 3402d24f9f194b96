/** The calls that code for a Thrift type makes to read a value of it from a protocol. */
module JsonTrees {
  import opened Bytes
  import opened JsonText
  import opened JsonReader
  import opened JsonProtocol
  import R = JsonReader
  import RT = JsonRoundTrip
  import S = JsonSkip

  /** The same value and the same state, or the same error. */
  ghost predicate Gives<T>(r: Result<T, Error>, p: Parsed<T>, now: Reader) {
    match p
    case Done(v, rest) => r == Ok(v) && now == rest
    case Fail(e) => r == Err(e)
  }

  /** A value read behind `front`. */
  function Onto<T>(front: seq<T>, p: Parsed<seq<T>>): Parsed<seq<T>> {
    match p
    case Done(v, rest) => Done(front + v, rest)
    case Fail(e) => Fail(e)
  }

  lemma OntoTwice<T>(a: seq<T>, x: T, p: Parsed<seq<T>>)
    ensures Onto(a, Onto([x], p)) == Onto(a + [x], p)
  {
    if p.Done? { assert a + ([x] + p.value) == a + [x] + p.value; }
  }

  lemma OntoNone<T>(p: Parsed<seq<T>>)
    ensures Onto([], p) == p
  {
    if p.Done? { assert [] + p.value == p.value; }
  }

  method ReadValue(p: Protocol, k: Kind) returns (r: Result<Value, Error>)
    modifies p.reader, p`context, p`contexts
    ensures Gives(r, R.ReadValue(k, old(p.State())), p.State())
    decreases |p.reader.Unread()|, 1, 0
  {
    hide R.ReadBool, R.ReadI8, R.ReadInteger, R.ReadString, R.ReadBinary, R.ReadSequence;
    match k
    case KBool =>
      var x, _ := p.ReadBool();
      var b :- x;
      return Ok(Bool(b));
    case KInt(w) =>
      var x, n;
      if w == W8 { x, n := p.ReadI8(); } else { x, n := p.ReadInteger(w.Lo(), w.Hi()); }
      var i :- x;
      return Ok(Int(i));
    case KText =>
      var x, _ := p.ReadString();
      var s :- x;
      return Ok(Value.Bytes(s));
    case KBinary =>
      var x, _ := p.ReadBinary();
      var s :- x;
      return Ok(Value.Bytes(s));
    case KStruct(kinds) => r := ReadStruct(p, kinds);
    case KList(e) => r := ReadSequence(p, e);
    case KSet(e) => r := ReadSequence(p, e);
    case KMap(a, b) => r := ReadMap(p, a, b);
  }

  method ReadStruct(p: Protocol, kinds: map<int, Kind>) returns (r: Result<Value, Error>)
    modifies p.reader, p`context, p`contexts
    ensures Gives(r, R.ReadValue(KStruct(kinds), old(p.State())), p.State())
    decreases |p.reader.Unread()|, 0, 0
  {
    hide R.ReadOpening, R.ReadFieldBegin, R.ReadClosing;
    ghost var s0 := p.State();
    var _, _ :- p.ReadOpening(OBJECT_START, NEW_PAIR);
    ghost var s1 := p.State();
    var fs: seq<Field> := [];
    OntoNone(ReadFields(kinds, s1));
    while true
      invariant |p.reader.Unread()| < |s0.input|
      invariant ReadFields(kinds, s1) == Onto(fs, ReadFields(kinds, p.State()))
      decreases |p.reader.Unread()|
    {
      ghost var s := p.State();
      var h, _ :- p.ReadFieldBegin();
      if h == Stop { break; }
      if h.id !in kinds || TypeOf(kinds[h.id]) != h.t { return Err(Mismatch); }
      var v :- ReadValue(p, kinds[h.id]);
      var _, _ :- p.ReadClosing(OBJECT_END);
      OntoTwice(fs, Field(h.id, v), ReadFields(kinds, p.State()));
      fs := fs + [Field(h.id, v)];
    }
    assert fs + [] == fs;
    var _, _ :- p.ReadClosing(OBJECT_END);
    r := Ok(Struct(fs));
  }

  /** A list or a set. */
  method ReadSequence(p: Protocol, e: Kind) returns (r: Result<Value, Error>)
    modifies p.reader, p`context, p`contexts
    ensures Gives(r, R.ReadSequence(e, old(p.State())), p.State())
    decreases |p.reader.Unread()|, 0, 0
  {
    hide R.ReadListBegin, R.ReadClosing, ReadElems;
    var h, _ :- p.ReadListBegin();
    if h.0 != TypeOf(e) { return Err(Mismatch); }
    var vs :- ReadElements(p, e, h.1);
    var _, _ :- p.ReadClosing(ARRAY_END);
    r := Ok(Elems(vs));
  }

  method ReadElements(p: Protocol, e: Kind, n: nat) returns (r: Result<seq<Value>, Error>)
    modifies p.reader, p`context, p`contexts
    ensures Gives(r, ReadElems(e, n, old(p.State())), p.State())
    decreases |p.reader.Unread()|, 2
  {
    hide R.ReadValue, ReadElems, Onto;
    ghost var s0 := p.State();
    var vs: seq<Value>, i := [], 0;
    OntoNone(ReadElems(e, n, s0));
    while i < n
      invariant i <= n && |p.reader.Unread()| <= |s0.input|
      invariant ReadElems(e, n, s0) == Onto(vs, ReadElems(e, n - i, p.State()))
    {
      ElemsStep(e, n - i, p.State(), vs);
      var v :- ReadValue(p, e);
      i, vs := i + 1, vs + [v];
    }
    ElemsStep(e, 0, p.State(), vs);
    r := Ok(vs);
  }

  lemma ElemsStep(k: Kind, n: nat, r: Reader, vs: seq<Value>)
    ensures Onto(vs, ReadElems(k, n, r)) ==
            if n == 0 then Done(vs, r)
            else
              match R.ReadValue(k, r)
              case Fail(e) => Fail(e)
              case Done(v, rest) => Onto(vs + [v], ReadElems(k, n - 1, rest))
  {
    hide R.ReadValue;
    if n == 0 {
      assert vs + [] == vs;
    } else if R.ReadValue(k, r).Done? {
      var Done(v, rest) := R.ReadValue(k, r);
      OntoTwice(vs, v, ReadElems(k, n - 1, rest));
    }
  }

  method ReadMap(p: Protocol, a: Kind, b: Kind) returns (r: Result<Value, Error>)
    modifies p.reader, p`context, p`contexts
    ensures Gives(r, R.ReadValue(KMap(a, b), old(p.State())), p.State())
    decreases |p.reader.Unread()|, 0, 0
  {
    hide R.ReadMapBegin, R.ReadMapEnd, ReadEntries;
    var h, _ :- p.ReadMapBegin();
    if h.0 != TypeOf(a) || h.1 != TypeOf(b) { return Err(Mismatch); }
    var es :- ReadPairs(p, a, b, h.2);
    var _, _ :- p.ReadMapEnd();
    r := Ok(Map(es));
  }

  method ReadPairs(p: Protocol, a: Kind, b: Kind, n: nat) returns (r: Result<seq<Entry>, Error>)
    modifies p.reader, p`context, p`contexts
    ensures Gives(r, ReadEntries(a, b, n, old(p.State())), p.State())
    decreases |p.reader.Unread()|, 2
  {
    hide R.ReadEntry, ReadEntries, Onto;
    ghost var s0 := p.State();
    var es: seq<Entry>, i := [], 0;
    OntoNone(ReadEntries(a, b, n, s0));
    while i < n
      invariant i <= n && |p.reader.Unread()| <= |s0.input|
      invariant ReadEntries(a, b, n, s0) == Onto(es, ReadEntries(a, b, n - i, p.State()))
    {
      PairsStep(a, b, n - i, p.State(), es);
      var e :- ReadPair(p, a, b);
      i, es := i + 1, es + [e];
    }
    PairsStep(a, b, 0, p.State(), es);
    r := Ok(es);
  }

  lemma PairsStep(a: Kind, b: Kind, n: nat, r: Reader, es: seq<Entry>)
    ensures Onto(es, ReadEntries(a, b, n, r)) ==
            if n == 0 then Done(es, r)
            else
              match ReadEntry(a, b, r)
              case Fail(e) => Fail(e)
              case Done(e, rest) => Onto(es + [e], ReadEntries(a, b, n - 1, rest))
  {
    hide R.ReadEntry;
    if n == 0 {
      assert es + [] == es;
    } else if ReadEntry(a, b, r).Done? {
      var Done(e, rest) := ReadEntry(a, b, r);
      OntoTwice(es, e, ReadEntries(a, b, n - 1, rest));
    }
  }

  method ReadPair(p: Protocol, a: Kind, b: Kind) returns (r: Result<Entry, Error>)
    modifies p.reader, p`context, p`contexts
    ensures Gives(r, ReadEntry(a, b, old(p.State())), p.State())
    decreases |p.reader.Unread()|, 1, 1
  {
    hide R.ReadValue;
    var key :- ReadValue(p, a);
    var val :- ReadValue(p, b);
    r := Ok(Entry(key, val));
  }

  // ---------------------------------------------------------------- there and back

  /** What one protocol object writes another reads back, whatever follows: the same tree, with
      what follows left alone, exactly for the trees of the round trip. */
  method WriteAndRead(k: Kind, v: Value, more: seq<byte>) returns (r: Result<Value, Error>, ghost left: seq<byte>)
    requires Fits(k, v)
    ensures r == Ok(v) && left == more
       <==> RT.IdsOk(k, v) && RT.TextsNulFree(k, v) && RT.Delimited(k, Base, more)
  {
    hide R.ReadValue, Text, RT.NumberOn, RT.IdsOk, RT.Normal, RT.TextsNulFree, RT.Delimited, After;
    var writer := new Protocol([], 0);
    writer.WriteValue(k, v);
    assert writer.out == Text(k, v, Base, []);
    TextTail(k, v, Base, more);
    var p := new Protocol(writer.out + more, 0);
    RT.ReadsText(k, v, Base, more, []);
    RT.NormalIsIdentity(k, v);
    if !RT.Delimited(k, Base, more) { RT.GoesOn(k, v, Base, more, []); }
    r := ReadValue(p, k);
    left := p.State().input;
  }

  /** `skip` over what was written returns the number of its bytes, in 32 bits, and leaves what
      follows, exactly when there is no trouble and something ends a bare number. */
  method WriteAndSkip(k: Kind, v: Value, more: seq<byte>, limit: nat)
    returns (r: Result<(), Error>, n: u32, written: seq<byte>, ghost left: seq<byte>)
    requires Fits(k, v)
    ensures written == Text(k, v, Base, [])
    ensures r == Ok(()) && n == |written| % U32_MODULUS && left == more
       <==> S.Trouble(k, v, limit) == None && RT.Delimited(k, Base, more)
  {
    hide S.Skip, Text, RT.NumberOn, S.Trouble, RT.Delimited, After;
    var writer := new Protocol([], 0);
    writer.WriteValue(k, v);
    written := writer.out;
    TextTail(k, v, Base, more);
    var p := new Protocol(written + more, limit);
    S.SkipsText(k, v, Base, more, [], 0, limit);
    if !RT.Delimited(k, Base, more) { RT.GoesOn(k, v, Base, more, []); }
    r, n := p.Skip(TypeOf(k));
    left := p.State().input;
  }
}
