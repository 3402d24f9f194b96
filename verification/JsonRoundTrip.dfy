/** Whole value trees are read back. */
module JsonRoundTrip {
  import opened Bytes
  import opened JsonText
  import opened JsonReader
  import opened JsonScalars
  import B64 = Base64

  // ---------------------------------------------------------------- brackets and headers

  lemma ReadsOpening(c: Context, bracket: byte, inner: Context, rest: seq<byte>, st: seq<Context>)
    ensures ReadOpening(Reader(Opening(c, bracket) + rest, c, st), bracket, inner)
         == Done((), Reader(rest, inner, [After(c)] + st))
  {
  }

  lemma ReadsClosing(bracket: byte, rest: seq<byte>, c: Context, outer: Context, st: seq<Context>)
    ensures ReadClosing(Reader([bracket] + rest, c, [outer] + st), bracket)
         == Done((), Reader(rest, outer, st))
  {
  }

  lemma TypeNamePlain(t: TType)
    ensures DropNuls(TypeName(t)) == TypeName(t)
  {
    NulFree(TypeName(t));
  }

  lemma ReadsTypeName(c: Context, t: TType, rest: seq<byte>, st: seq<Context>)
    ensures ReadTypeName(Reader(StringItem(c, TypeName(t)) + rest, c, st))
         == Done(t, Reader(rest, After(c), st))
  {
    TypeNamePlain(t);
    TypeNamesInvert(t);
    hide StringItem, TypeName, TypeForName, ReadString, DropNuls, After;
    ReadsString(c, TypeName(t), rest, st);
  }

  lemma ReadsCount(c: Context, n: nat, rest: seq<byte>, st: seq<Context>)
    requires n < U32_MODULUS && Delimits(After(c), rest)
    ensures ReadCount(Reader(IntItem(c, n) + rest, c, st)) == Done(n, Reader(rest, After(c), st))
  {
    hide IntItem, ReadInteger, Delimits, After;
    ReadsInteger(c, n, 0, UINT64_MAX, rest, st);
  }

  lemma ReadsListBegin(c: Context, t: TType, n: nat, rest: seq<byte>, st: seq<Context>)
    requires n < U32_MODULUS && rest != [] && !IsNumeric(rest[0])
    ensures ReadListBegin(Reader(ListBeginText(c, t, n) + rest, c, st))
         == Done((t, n), Reader(rest, List(false), [After(c)] + st))
  {
    hide Opening, StringItem, IntItem, TypeName, IsNumeric;
    hide ReadOpening, ReadTypeName, ReadCount;
    var name, count := StringItem(NEW_LIST, TypeName(t)), IntItem(List(false), n);
    Assoc(Opening(c, ARRAY_START), name + count, rest);
    Assoc(name, count, rest);
    ReadsOpening(c, ARRAY_START, NEW_LIST, name + (count + rest), st);
    ReadsTypeName(NEW_LIST, t, count + rest, [After(c)] + st);
    ReadsCount(List(false), n, rest, [After(c)] + st);
  }

  lemma ReadsMapBegin(c: Context, a: TType, b: TType, n: nat, rest: seq<byte>, st: seq<Context>)
    requires n < U32_MODULUS
    ensures ReadMapBegin(Reader(MapBeginText(c, a, b, n) + rest, c, st))
         == Done((a, b, n), Reader(rest, NEW_PAIR, [List(false), After(c)] + st))
  {
    hide Opening, StringItem, IntItem, TypeName;
    hide ReadOpening, ReadTypeName, ReadCount;
    var l := List(false);
    var n1, n2 := StringItem(NEW_LIST, TypeName(a)), StringItem(l, TypeName(b));
    var count, open := IntItem(l, n), Opening(l, OBJECT_START);
    Assoc(Opening(c, ARRAY_START), n1 + (n2 + (count + open)), rest);
    Assoc(n1, n2 + (count + open), rest);
    Assoc(n2, count + open, rest);
    Assoc(count, open, rest);
    var st1 := [After(c)] + st;
    ReadsOpening(c, ARRAY_START, NEW_LIST, n1 + (n2 + (count + (open + rest))), st);
    ReadsTypeName(NEW_LIST, a, n2 + (count + (open + rest)), st1);
    ReadsTypeName(l, b, count + (open + rest), st1);
    CommaFirst(rest);
    ReadsCount(l, n, open + rest, st1);
    ReadsOpening(l, OBJECT_START, NEW_PAIR, rest, st1);
    assert [l] + st1 == [l, After(c)] + st;
  }

  lemma CommaFirst(rest: seq<byte>)
    ensures var t := Opening(List(false), OBJECT_START) + rest; t != [] && !IsNumeric(t[0])
  {
  }

  lemma ReadsMapEnd(rest: seq<byte>, c: Context, mid: Context, outer: Context, st: seq<Context>)
    ensures ReadMapEnd(Reader([OBJECT_END] + ([ARRAY_END] + rest), c, [mid, outer] + st))
         == Done((), Reader(rest, outer, st))
  {
  }

  /** Where keys stand: nothing has been read yet, or a value has just been. */
  predicate KeyPosition(c: Context) {
    c == NEW_PAIR || c == Pair(false, false)
  }

  lemma KeysAreEscaped(c: Context)
    requires KeyPosition(c)
    ensures EscapeNum(After(c)) && After(c) == Pair(false, true)
    ensures KeyPosition(After(After(c))) && After(After(c)) == Pair(false, false)
  {
  }

  /** A field header is read back when its id is not negative, and refused otherwise. */
  lemma ReadsFieldBegin(c: Context, id: int, t: TType, rest: seq<byte>, st: seq<Context>)
    requires KeyPosition(c) && -0x8000 <= id <= 0x7fff
    ensures ReadFieldBegin(Reader(FieldBeginText(c, id, t) + rest, c, st))
         == if id < 0 then Fail(SizeLimit)
            else Done(FieldHeader(id, t), Reader(rest, Pair(false, true), [Pair(false, false)] + st))
  {
    KeysAreEscaped(c);
    KeyNotEnd(c, id, t, rest);
    hide Opening, StringItem, IntItem, TypeName, After, KeyPosition;
    hide ReadInteger, ReadOpening, ReadTypeName;
    var key, open := IntItem(c, id), Opening(After(c), OBJECT_START);
    var name := StringItem(NEW_PAIR, TypeName(t));
    Assoc(key, open + name, rest);
    Assoc(open, name, rest);
    ReadsInteger(c, id, 0, UINT64_MAX, open + (name + rest), st);
    if id >= 0 {
      ReadsOpening(After(c), OBJECT_START, NEW_PAIR, name + rest, st);
      ReadsTypeName(NEW_PAIR, t, rest, [After(After(c))] + st);
      assert After(NEW_PAIR) == Pair(false, true) by { KeyAfter(); }
    }
  }

  lemma KeyAfter()
    ensures After(NEW_PAIR) == Pair(false, true)
  {
  }

  lemma KeyNotEnd(c: Context, id: int, t: TType, rest: seq<byte>)
    requires KeyPosition(c)
    ensures var text := FieldBeginText(c, id, t) + rest; text != [] && text[0] != OBJECT_END
  {
  }

  // ---------------------------------------------------------------- trees

  /** The value that comes back: text without its zero bytes. */
  function Normal(k: Kind, v: Value): Value
    requires Fits(k, v)
    decreases v
  {
    match k
    case KBool => v
    case KInt(_) => v
    case KText => Bytes(DropNuls(v.s))
    case KBinary => v
    case KStruct(kinds) => Struct(NormalFields(kinds, v.fs))
    case KList(e) => Elems(NormalElems(e, v.vs))
    case KSet(e) => Elems(NormalElems(e, v.vs))
    case KMap(a, b) => Map(NormalEntries(a, b, v.es))
  }

  function NormalFields(kinds: map<int, Kind>, fs: seq<Field>): seq<Field>
    requires FieldsFit(kinds, fs)
    decreases fs
  {
    if fs == [] then []
    else
      assert fs decreases to fs[0];
      var Field(id, value) := fs[0];
      [Field(id, Normal(kinds[id], value))] + NormalFields(kinds, fs[1..])
  }

  function NormalElems(k: Kind, vs: seq<Value>): seq<Value>
    requires ElemsFit(k, vs)
    decreases vs
  {
    if vs == [] then [] else [Normal(k, vs[0])] + NormalElems(k, vs[1..])
  }

  function NormalEntries(a: Kind, b: Kind, es: seq<Entry>): seq<Entry>
    requires EntriesFit(a, b, es)
    decreases es
  {
    if es == [] then []
    else
      assert es decreases to es[0];
      var Entry(key, val) := es[0];
      [Entry(Normal(a, key), Normal(b, val))] + NormalEntries(a, b, es[1..])
  }

  /** No struct in the tree has a negative field id. */
  predicate IdsOk(k: Kind, v: Value)
    requires Fits(k, v)
    decreases v
  {
    match k
    case KBool => true
    case KInt(_) => true
    case KText => true
    case KBinary => true
    case KStruct(kinds) => FieldIdsOk(kinds, v.fs)
    case KList(e) => ElemIdsOk(e, v.vs)
    case KSet(e) => ElemIdsOk(e, v.vs)
    case KMap(a, b) => EntryIdsOk(a, b, v.es)
  }

  predicate FieldIdsOk(kinds: map<int, Kind>, fs: seq<Field>)
    requires FieldsFit(kinds, fs)
    decreases fs
  {
    fs == [] ||
    (assert fs decreases to fs[0];
     var Field(id, value) := fs[0];
     id >= 0 && IdsOk(kinds[id], value) && FieldIdsOk(kinds, fs[1..]))
  }

  predicate ElemIdsOk(k: Kind, vs: seq<Value>)
    requires ElemsFit(k, vs)
    decreases vs
  {
    vs == [] || (IdsOk(k, vs[0]) && ElemIdsOk(k, vs[1..]))
  }

  predicate EntryIdsOk(a: Kind, b: Kind, es: seq<Entry>)
    requires EntriesFit(a, b, es)
    decreases es
  {
    es == [] ||
    (assert es decreases to es[0];
     var Entry(key, val) := es[0];
     IdsOk(a, key) && IdsOk(b, val) && EntryIdsOk(a, b, es[1..]))
  }

  /** A bare number needs a byte behind it that ends it. */
  predicate Delimited(k: Kind, c: Context, rest: seq<byte>) {
    k.KBool? || k.KInt? ==> Delimits(After(c), rest)
  }


  // ---------------------------------------------------------------- what a text begins with

  predicate EndsNumber(t: seq<byte>) {
    t != [] && !IsNumeric(t[0])
  }

  lemma SepFirst(c: Context, x: seq<byte>)
    requires Sep(c) != []
    ensures Sep(c) + x != [] && (Sep(c) + x)[0] == Sep(c)[0] && EndsNumber(Sep(c) + x)
  {
  }

  /** A text in a context that separates starts with the separator. */
  lemma TextStart(k: Kind, v: Value, c: Context, rest: seq<byte>)
    requires Fits(k, v) && Sep(c) != []
    ensures EndsNumber(Text(k, v, c, rest))
  {
    hide Sep, NumText, BodyText, FieldsText, ElemsText, EntriesText, EndsNumber;
    if k.KBool? {
      var x := NumText(After(c), if v.b then 1 else 0);
      Assoc(Sep(c), x, rest);
      SepFirst(c, x + rest);
    } else if k.KInt? {
      Assoc(Sep(c), NumText(After(c), v.n), rest);
      SepFirst(c, NumText(After(c), v.n) + rest);
    } else if k.KText? {
      Assoc(Sep(c), Quoted(BodyText(v.s)), rest);
      SepFirst(c, Quoted(BodyText(v.s)) + rest);
    } else if k.KBinary? {
      Assoc(Sep(c), Quoted(B64.Encode(v.s)), rest);
      SepFirst(c, Quoted(B64.Encode(v.s)) + rest);
    } else {
      ContainerStart(k, v, c, rest);
    }
  }

  lemma ContainerStart(k: Kind, v: Value, c: Context, rest: seq<byte>)
    requires Fits(k, v) && Sep(c) != [] && !IsBase(k)
    ensures EndsNumber(Text(k, v, c, rest))
  {
  }

  /** What stands behind an element is a comma or the closing bracket. */
  lemma ElemsStart(k: Kind, vs: seq<Value>, rest: seq<byte>)
    requires ElemsFit(k, vs)
    ensures EndsNumber(ElemsText(k, vs, List(false), [ARRAY_END] + rest))
  {
    hide Text;
    if vs != [] {
      TextStart(k, vs[0], List(false), ElemsText(k, vs[1..], List(false), [ARRAY_END] + rest));
    }
  }

  lemma EntriesStart(a: Kind, b: Kind, es: seq<Entry>, rest: seq<byte>)
    requires EntriesFit(a, b, es)
    ensures EndsNumber(EntriesText(a, b, es, Pair(false, false), [OBJECT_END] + rest))
  {
  }

  // ---------------------------------------------------------------- reading trees back

  /** The JSON round trip. Reading the text of any tree gives the tree back, its texts
      without their zero bytes, leaves exactly what stood behind it, and restores the
      contexts; unless the tree has a negative field id, which the reader refuses. */
  lemma {:induction false} ReadsDelimited(k: Kind, v: Value, c: Context, rest: seq<byte>, st: seq<Context>)
    requires Fits(k, v) && Delimited(k, c, rest)
    ensures ReadValue(k, Reader(Text(k, v, c, rest), c, st))
         == if IdsOk(k, v) then Done(Normal(k, v), Reader(rest, After(c), st)) else Fail(SizeLimit)
    decreases v, 1
  {
    hide IntItem, StringItem, BinaryItem, Opening, ListBeginText, MapBeginText, After, Delimits;
    hide ReadBool, ReadI8, ReadInteger, ReadString, ReadBinary, ReadOpening, ReadClosing, ReadSequence;
    hide ReadMapBegin, ReadMapEnd, ReadFields, ReadEntries, DropNuls, FieldsText, ElemsText, EntriesText;
    match k
    case KBool => ReadsBool(c, v.b, rest, st);
    case KInt(w) => if w == W8 { ReadsI8(c, v.n, rest, st); } else { ReadsInteger(c, v.n, w.Lo(), w.Hi(), rest, st); }
    case KText => ReadsString(c, v.s, rest, st);
    case KBinary => ReadsBinary(c, v.s, rest, st);
    case KStruct(kinds) =>
      var inner := [OBJECT_END] + rest;
      ReadsOpening(c, OBJECT_START, NEW_PAIR, FieldsText(kinds, v.fs, NEW_PAIR, inner), st);
      ReadsFields(kinds, v.fs, NEW_PAIR, rest, [After(c)] + st);
      ReadsClosing(OBJECT_END, rest, AfterPairs(NEW_PAIR, |v.fs|), After(c), st);
    case KList(e) => ReadsSequence(e, v.vs, c, rest, st);
    case KSet(e) => ReadsSequence(e, v.vs, c, rest, st);
    case KMap(a, b) =>
      var inner := [OBJECT_END] + ([ARRAY_END] + rest);
      var st1 := [List(false), After(c)] + st;
      ReadsMapBegin(c, TypeOf(a), TypeOf(b), |v.es|, EntriesText(a, b, v.es, NEW_PAIR, inner), st);
      ReadsEntries(a, b, v.es, NEW_PAIR, [ARRAY_END] + rest, st1);
      ReadsMapEnd(rest, AfterPairs(NEW_PAIR, |v.es|), List(false), After(c), st);
  }

  /** A bare number that nothing ends, read with the digits behind it. */
  function NumberOn(k: Kind, v: Value, c: Context, rest: seq<byte>, st: seq<Context>): Parsed<Value>
    requires Fits(k, v) && (k.KBool? || k.KInt?)
  {
    match k
    case KBool =>
      var (n, r) :- RunsOn(if v.b then 1 else 0, W64.Lo(), W64.Hi(), rest, After(c), st);
      Done(Bool(n != 0), r)
    case KInt(w) =>
      if w == W8 then
        var (n, r) :- RunsOn(v.n, W16.Lo(), W16.Hi(), rest, After(c), st);
        if n < 0x100 then Done(Int(SignedByte(n)), r) else Fail(AssertionFailed)
      else
        var (n, r) :- RunsOn(v.n, w.Lo(), w.Hi(), rest, After(c), st);
        Done(Int(n), r)
  }

  /** What reading does with the text of any tree, whatever stands behind it. */
  lemma ReadsText(k: Kind, v: Value, c: Context, rest: seq<byte>, st: seq<Context>)
    requires Fits(k, v)
    ensures ReadValue(k, Reader(Text(k, v, c, rest), c, st))
         == if !Delimited(k, c, rest) then NumberOn(k, v, c, rest, st)
            else if IdsOk(k, v) then Done(Normal(k, v), Reader(rest, After(c), st)) else Fail(SizeLimit)
  {
    hide IntItem, ReadInteger, RunsOn, After, Delimits, IdsOk, Normal;
    if Delimited(k, c, rest) {
      ReadsDelimited(k, v, c, rest, st);
    } else {
      match k
      case KBool => ReadsOn(c, if v.b then 1 else 0, W64.Lo(), W64.Hi(), rest, st);
      case KInt(w) =>
        if w == W8 { ReadsOn(c, v.n, W16.Lo(), W16.Hi(), rest, st); } else { ReadsOn(c, v.n, w.Lo(), w.Hi(), rest, st); }
    }
  }

  /** The context of an object once `n` pairs have gone by. */
  function AfterPairs(c: Context, n: nat): Context {
    if n == 0 then c else Pair(false, false)
  }

  function AfterElems(c: Context, n: nat): Context {
    if n == 0 then c else List(false)
  }

  lemma {:induction false} ReadsSequence(e: Kind, vs: seq<Value>, c: Context, rest: seq<byte>, st: seq<Context>)
    requires ElemsFit(e, vs) && |vs| < U32_MODULUS
    ensures ReadSequence(e, Reader(ListBeginText(c, TypeOf(e), |vs|)
                                   + ElemsText(e, vs, List(false), [ARRAY_END] + rest), c, st))
         == if ElemIdsOk(e, vs) then Done(Elems(NormalElems(e, vs)), Reader(rest, After(c), st))
            else Fail(SizeLimit)
    decreases vs, 1
  {
    ElemsStart(e, vs, rest);
    hide ListBeginText, After, ReadListBegin, ReadElems, ReadClosing, ElemsText, NormalElems, TypeOf;
    ReadsListBegin(c, TypeOf(e), |vs|, ElemsText(e, vs, List(false), [ARRAY_END] + rest), st);
    ReadsElems(e, vs, List(false), rest, [After(c)] + st);
    ReadsClosing(ARRAY_END, rest, AfterElems(List(false), |vs|), After(c), st);
  }

  lemma {:induction false} ReadsFields(kinds: map<int, Kind>, fs: seq<Field>, c: Context,
                                       rest: seq<byte>, st: seq<Context>)
    requires FieldsFit(kinds, fs) && KeyPosition(c)
    ensures ReadFields(kinds, Reader(FieldsText(kinds, fs, c, [OBJECT_END] + rest), c, st))
         == if FieldIdsOk(kinds, fs)
            then Done(NormalFields(kinds, fs), Reader([OBJECT_END] + rest, AfterPairs(c, |fs|), st))
            else Fail(SizeLimit)
    decreases fs, 1
  {
    hide FieldBeginText, ReadFieldBegin, ReadValue, ReadClosing, Text, IdsOk, Normal, TypeOf;
    if fs == [] {
      StopsAtEnd(rest, c, st);
    } else {
      assert fs decreases to fs[0];
      var Field(id, value) := fs[0];
      var k, tail := kinds[id], FieldsText(kinds, fs[1..], Pair(false, false), [OBJECT_END] + rest);
      KeysAreEscaped(c);
      var body := Text(k, value, Pair(false, true), [OBJECT_END] + tail);
      ReadsFieldBegin(c, id, TypeOf(k), body, st);
      if id >= 0 {
        EndDelimits(k, Pair(false, true), tail);
        ReadsDelimited(k, value, Pair(false, true), [OBJECT_END] + tail, [Pair(false, false)] + st);
        ReadsClosing(OBJECT_END, tail, After(Pair(false, true)), Pair(false, false), st);
        ReadsFields(kinds, fs[1..], Pair(false, false), rest, st);
      }
    }
  }

  lemma StopsAtEnd(rest: seq<byte>, c: Context, st: seq<Context>)
    ensures ReadFieldBegin(Reader([OBJECT_END] + rest, c, st)) == Done(Stop, Reader([OBJECT_END] + rest, c, st))
  {
  }

  lemma EndDelimits(k: Kind, c: Context, tail: seq<byte>)
    ensures Delimited(k, c, [OBJECT_END] + tail)
  {
  }

  lemma {:induction false} ReadsElems(k: Kind, vs: seq<Value>, c: Context, rest: seq<byte>, st: seq<Context>)
    requires ElemsFit(k, vs) && c.List?
    ensures ReadElems(k, |vs|, Reader(ElemsText(k, vs, c, [ARRAY_END] + rest), c, st))
         == if ElemIdsOk(k, vs)
            then Done(NormalElems(k, vs), Reader([ARRAY_END] + rest, AfterElems(c, |vs|), st))
            else Fail(SizeLimit)
    decreases vs, 0
  {
    hide ReadValue, Text, IdsOk, Normal;
    if vs != [] {
      ElemsStart(k, vs[1..], rest);
      ReadsDelimited(k, vs[0], c, ElemsText(k, vs[1..], List(false), [ARRAY_END] + rest), st);
      ReadsElems(k, vs[1..], List(false), rest, st);
    }
  }

  lemma {:induction false} ReadsEntries(a: Kind, b: Kind, es: seq<Entry>, c: Context,
                                        rest: seq<byte>, st: seq<Context>)
    requires EntriesFit(a, b, es) && KeyPosition(c)
    ensures ReadEntries(a, b, |es|, Reader(EntriesText(a, b, es, c, [OBJECT_END] + rest), c, st))
         == if EntryIdsOk(a, b, es)
            then Done(NormalEntries(a, b, es), Reader([OBJECT_END] + rest, AfterPairs(c, |es|), st))
            else Fail(SizeLimit)
    decreases es, 0
  {
    hide ReadEntries, ReadEntry, EntriesText, EntriesFit, Fits, EntryIdsOk, NormalEntries, Text, IdsOk, Normal;
    hide EndsNumber, KeyPosition, AfterPairs;
    if es == [] {
      NoEntries(a, b, c, rest);
    } else {
      FirstEntry(a, b, es, c, rest);
      var tail := EntriesText(a, b, es[1..], Pair(false, false), [OBJECT_END] + rest);
      ReadsEntry(a, b, es[0], c, tail, st);
      ReadsEntries(a, b, es[1..], Pair(false, false), rest, st);
      MoreEntries(a, b, |es|, Reader(EntriesText(a, b, es, c, [OBJECT_END] + rest), c, st));
    }
  }

  lemma NoEntries(a: Kind, b: Kind, c: Context, rest: seq<byte>)
    ensures EntriesText(a, b, [], c, [OBJECT_END] + rest) == [OBJECT_END] + rest
    ensures NormalEntries(a, b, []) == [] && EntryIdsOk(a, b, []) && AfterPairs(c, 0) == c
    ensures forall r :: ReadEntries(a, b, 0, r) == Done([], r)
  {
  }

  /** What the first entry contributes to the text, to what is read and to the contexts. */
  lemma FirstEntry(a: Kind, b: Kind, es: seq<Entry>, c: Context, rest: seq<byte>)
    requires EntriesFit(a, b, es) && KeyPosition(c) && es != []
    ensures es decreases to es[0]
    ensures EntriesFit(a, b, es[1..]) && Fits(a, es[0].key) && Fits(b, es[0].val) && KeyPosition(Pair(false, false))
    ensures var tail := EntriesText(a, b, es[1..], Pair(false, false), [OBJECT_END] + rest);
            && EndsNumber(tail)
            && EntriesText(a, b, es, c, [OBJECT_END] + rest)
               == Text(a, es[0].key, c, Text(b, es[0].val, Pair(false, true), tail))
    ensures EntryIdsOk(a, b, es) == (IdsOk(a, es[0].key) && IdsOk(b, es[0].val) && EntryIdsOk(a, b, es[1..]))
    ensures NormalEntries(a, b, es)
         == [Entry(Normal(a, es[0].key), Normal(b, es[0].val))] + NormalEntries(a, b, es[1..])
    ensures AfterPairs(c, |es|) == AfterPairs(Pair(false, false), |es| - 1)
  {
    hide Text, Fits, IdsOk, Normal, EndsNumber;
    assert es decreases to es[0];
    KeysAreEscaped(c);
    EntriesStart(a, b, es[1..], rest);
  }

  lemma MoreEntries(a: Kind, b: Kind, n: nat, r: Reader)
    requires n > 0
    ensures var p := ReadEntry(a, b, r);
            if p.Fail? then ReadEntries(a, b, n, r) == Fail(p.error)
            else
              var q := ReadEntries(a, b, n - 1, p.rest);
              ReadEntries(a, b, n, r) == if q.Fail? then Fail(q.error) else Done([p.value] + q.value, q.rest)
  {
    hide ReadEntry;
  }

  lemma {:induction false} ReadsEntry(a: Kind, b: Kind, e: Entry, c: Context, tail: seq<byte>, st: seq<Context>)
    requires Fits(a, e.key) && Fits(b, e.val) && KeyPosition(c) && EndsNumber(tail)
    ensures ReadEntry(a, b, Reader(Text(a, e.key, c, Text(b, e.val, Pair(false, true), tail)), c, st))
         == if IdsOk(a, e.key) && IdsOk(b, e.val)
            then Done(Entry(Normal(a, e.key), Normal(b, e.val)), Reader(tail, Pair(false, false), st))
            else Fail(SizeLimit)
    decreases e, 2
  {
    hide ReadValue, Text, Fits, IdsOk, Normal, Delimited, EndsNumber, KeyPosition, After, EscapeNum;
    var colon := Pair(false, true);
    KeysAreEscaped(c);
    EntryDelimited(a, b, c, Text(b, e.val, colon, tail), tail);
    ReadsDelimited(a, e.key, c, Text(b, e.val, colon, tail), st);
    ReadsDelimited(b, e.val, colon, tail, st);
  }

  lemma EntryDelimited(a: Kind, b: Kind, c: Context, second: seq<byte>, tail: seq<byte>)
    requires KeyPosition(c) && EndsNumber(tail)
    ensures Delimited(a, c, second) && Delimited(b, Pair(false, true), tail)
    ensures KeyPosition(Pair(false, false)) && After(Pair(false, true)) == Pair(false, false)
  {
  }

  // ---------------------------------------------------------------- nothing but zero bytes is lost

  /** No text in the tree holds a zero byte. */
  predicate TextsNulFree(k: Kind, v: Value)
    requires Fits(k, v)
    decreases v
  {
    match k
    case KBool => true
    case KInt(_) => true
    case KText => 0 !in v.s
    case KBinary => true
    case KStruct(kinds) => FieldTextsNulFree(kinds, v.fs)
    case KList(e) => ElemTextsNulFree(e, v.vs)
    case KSet(e) => ElemTextsNulFree(e, v.vs)
    case KMap(a, b) => EntryTextsNulFree(a, b, v.es)
  }

  predicate FieldTextsNulFree(kinds: map<int, Kind>, fs: seq<Field>)
    requires FieldsFit(kinds, fs)
    decreases fs
  {
    fs == [] ||
    (assert fs decreases to fs[0];
     var Field(id, value) := fs[0];
     TextsNulFree(kinds[id], value) && FieldTextsNulFree(kinds, fs[1..]))
  }

  predicate ElemTextsNulFree(k: Kind, vs: seq<Value>)
    requires ElemsFit(k, vs)
    decreases vs
  {
    vs == [] || (TextsNulFree(k, vs[0]) && ElemTextsNulFree(k, vs[1..]))
  }

  predicate EntryTextsNulFree(a: Kind, b: Kind, es: seq<Entry>)
    requires EntriesFit(a, b, es)
    decreases es
  {
    es == [] ||
    (assert es decreases to es[0];
     var Entry(key, val) := es[0];
     TextsNulFree(a, key) && TextsNulFree(b, val) && EntryTextsNulFree(a, b, es[1..]))
  }

  lemma SameList<T>(x: T, xs: seq<T>, y: T, ys: seq<T>)
    ensures [x] + xs == [y] + ys <==> x == y && xs == ys
  {
    assert ([x] + xs)[0] == x && ([x] + xs)[1..] == xs;
    assert ([y] + ys)[0] == y && ([y] + ys)[1..] == ys;
  }

  /** Reading changes a tree exactly when one of its texts holds a zero byte. */
  lemma {:induction false} NormalIsIdentity(k: Kind, v: Value)
    requires Fits(k, v)
    ensures Normal(k, v) == v <==> TextsNulFree(k, v)
    decreases v, 1
  {
    hide DropNuls, NormalFields, NormalElems, NormalEntries;
    hide FieldTextsNulFree, ElemTextsNulFree, EntryTextsNulFree;
    match k
    case KBool =>
    case KInt(_) =>
    case KText => NulFree(v.s);
    case KBinary =>
    case KStruct(kinds) => FieldsIdentity(kinds, v.fs);
    case KList(e) => ElemsIdentity(e, v.vs);
    case KSet(e) => ElemsIdentity(e, v.vs);
    case KMap(a, b) => EntriesIdentity(a, b, v.es);
  }

  lemma {:induction false} FieldsIdentity(kinds: map<int, Kind>, fs: seq<Field>)
    requires FieldsFit(kinds, fs)
    ensures NormalFields(kinds, fs) == fs <==> FieldTextsNulFree(kinds, fs)
    decreases fs, 0
  {
    hide Normal, TextsNulFree;
    if fs != [] {
      assert fs decreases to fs[0];
      var Field(id, value) := fs[0];
      NormalIsIdentity(kinds[id], value);
      FieldsIdentity(kinds, fs[1..]);
      SameList(Field(id, Normal(kinds[id], value)), NormalFields(kinds, fs[1..]), fs[0], fs[1..]);
      assert fs == [fs[0]] + fs[1..];
    }
  }

  lemma {:induction false} ElemsIdentity(k: Kind, vs: seq<Value>)
    requires ElemsFit(k, vs)
    ensures NormalElems(k, vs) == vs <==> ElemTextsNulFree(k, vs)
    decreases vs, 0
  {
    hide Normal, TextsNulFree;
    if vs != [] {
      NormalIsIdentity(k, vs[0]);
      ElemsIdentity(k, vs[1..]);
      SameList(Normal(k, vs[0]), NormalElems(k, vs[1..]), vs[0], vs[1..]);
      assert vs == [vs[0]] + vs[1..];
    }
  }

  lemma {:induction false} EntriesIdentity(a: Kind, b: Kind, es: seq<Entry>)
    requires EntriesFit(a, b, es)
    ensures NormalEntries(a, b, es) == es <==> EntryTextsNulFree(a, b, es)
    decreases es, 0
  {
    hide Normal, TextsNulFree;
    if es != [] {
      assert es decreases to es[0];
      var Entry(key, val) := es[0];
      NormalIsIdentity(a, key);
      NormalIsIdentity(b, val);
      EntriesIdentity(a, b, es[1..]);
      SameList(Entry(Normal(a, key), Normal(b, val)), NormalEntries(a, b, es[1..]), es[0], es[1..]);
      assert es == [es[0]] + es[1..];
    }
  }

  /** A tree comes back unchanged, with everything behind it left alone, exactly when it has
      neither a negative field id nor a zero byte in a text, and something ends it if it is a
      bare number. */
  lemma RoundTrip(k: Kind, v: Value, c: Context, rest: seq<byte>, st: seq<Context>)
    requires Fits(k, v)
    ensures ReadValue(k, Reader(Text(k, v, c, rest), c, st)) == Done(v, Reader(rest, After(c), st))
       <==> IdsOk(k, v) && TextsNulFree(k, v) && Delimited(k, c, rest)
  {
    hide *;
    ReadsText(k, v, c, rest, st);
    if Delimited(k, c, rest) {
      NormalIsIdentity(k, v);
    } else {
      GoesOn(k, v, c, rest, st);
    }
  }

  /** A bare number that nothing ends takes something of what is behind it. */
  lemma GoesOn(k: Kind, v: Value, c: Context, rest: seq<byte>, st: seq<Context>)
    requires Fits(k, v) && !Delimited(k, c, rest)
    ensures var p := NumberOn(k, v, c, rest, st); p.Done? ==> |p.rest.input| < |rest|
  {
    hide FromString, IntText, After;
  }

  /** A message header comes back, its name without zero bytes. */
  lemma MessageRoundTrip(c: Context, name: seq<byte>, messageType: int, seqid: int,
                         rest: seq<byte>, st: seq<Context>)
    requires W32.Lo() <= messageType <= W32.Hi() && W32.Lo() <= seqid <= W32.Hi()
    requires EndsNumber(rest)
    ensures ReadMessageBegin(Reader(MessageBeginText(c, name, messageType, seqid) + rest, c, st))
         == Done(Message(DropNuls(name), messageType, seqid), Reader(rest, List(false), [After(c)] + st))
  {
    hide Opening, StringItem, IntItem, DropNuls, After, ReadOpening, ReadInteger, ReadString, EndsNumber, Delimits;
    var l := List(false);
    var version, text := IntItem(NEW_LIST, VERSION_1), StringItem(l, name);
    var t, s := IntItem(l, messageType), IntItem(l, seqid);
    var st1 := [After(c)] + st;
    Assoc(Opening(c, ARRAY_START), version + (text + (t + s)), rest);
    Assoc(version, text + (t + s), rest);
    Assoc(text, t + s, rest);
    Assoc(t, s, rest);
    ListItems(name, seqid, rest, t + (s + rest));
    ReadsOpening(c, ARRAY_START, NEW_LIST, version + (text + (t + (s + rest))), st);
    ReadsInteger(NEW_LIST, VERSION_1, W64.Lo(), W64.Hi(), text + (t + (s + rest)), st1);
    ReadsString(l, name, t + (s + rest), st1);
    ReadsInteger(l, messageType, W64.Lo(), W64.Hi(), s + rest, st1);
    ReadsInteger(l, seqid, W64.Lo(), W64.Hi(), rest, st1);
  }

  /** Items of a list delimit the numbers in front of them. */
  lemma ListItems(name: seq<byte>, seqid: int, rest: seq<byte>, more: seq<byte>)
    requires EndsNumber(rest)
    ensures After(NEW_LIST) == List(false) == After(List(false))
    ensures Delimits(List(false), StringItem(List(false), name) + more)
    ensures Delimits(List(false), IntItem(List(false), seqid) + rest)
    ensures Delimits(List(false), rest)
  {
  }
}
