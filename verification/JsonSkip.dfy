/** `skip` over JSON: passing over a value of which only the wire type is known, with the
    recursion depth counted. */
module JsonSkip {
  import opened Bytes
  import opened JsonText
  import opened JsonReader
  import opened JsonScalars
  import opened JsonRoundTrip
  import B64 = Base64

  /** How a call ends, and what `input_recursion_depth_` is then. */
  datatype Outcome =
    | Skipped(rest: Reader, depth: nat)
    | Stuck(error: Error, depth: nat)

  function Leaf<T>(p: Parsed<T>, d: nat): Outcome {
    match p
    case Done(_, rest) => Skipped(rest, d)
    case Fail(e) => Stuck(e, d)
  }

  /** The exit depth of a call that started at depth `d`: as it was, except that a counter
      pushed over the limit is not taken back, because the tracker's constructor threw. */
  predicate DepthKept(o: Outcome, d: nat) {
    match o
    case Skipped(_, e) => e == d
    case Stuck(error, e) => if error == DepthLimit then e == d + 1 else e == d
  }

  /** The reads themselves never report the depth limit. */
  lemma NoDepthLimit(r: Reader, lo: int, hi: int)
    requires lo <= 0 <= hi
    ensures ReadInteger(r, lo, hi) != Fail(DepthLimit)
  {
  }

  lemma ContextNoDepthLimit(r: Reader)
    ensures ReadContext(r) != Fail(DepthLimit)
  {
  }

  lemma {:induction false} BodyNoDepthLimit(input: seq<byte>, acc: seq<byte>)
    ensures ReadBody(input, acc) != Broken(DepthLimit)
    decreases |input|
  {
    hide CodeUnit, Utf8, Unescape;
    if |input| > 1 && input[0] != QUOTE {
      if input[0] != BACKSLASH {
        BodyNoDepthLimit(input[1..], acc + [input[0]]);
      } else if input[1] != 'u' as int {
        match Unescape(input[1])
        case None =>
        case Some(ch) => BodyNoDepthLimit(input[2..], acc + [ch]);
      } else if |input| >= 6 {
        match CodeUnit(input[2..6])
        case None =>
        case Some(cp) =>
          BodyNoDepthLimit(input[6..], acc + Utf8(cp));
      }
    } else if |input| == 1 && input[0] != QUOTE && input[0] != BACKSLASH {
      BodyNoDepthLimit(input[1..], acc + [input[0]]);
    }
  }

  lemma StringNoDepthLimit(r: Reader)
    ensures ReadString(r) != Fail(DepthLimit) && ReadBinary(r) != Fail(DepthLimit)
    ensures ReadTypeName(r) != Fail(DepthLimit)
  {
    hide ReadContext, ReadBody, B64.DecodeText, TypeForName;
    ContextNoDepthLimit(r);
    var p := ReadContext(r);
    if p.Done? {
      var q := ReadSyntax(p.rest, QUOTE);
      if q.Done? { BodyNoDepthLimit(q.rest.input, []); }
    }
  }

  lemma BracketsNoDepthLimit(r: Reader, bracket: byte, inner: Context)
    ensures ReadOpening(r, bracket, inner) != Fail(DepthLimit)
    ensures ReadClosing(r, bracket) != Fail(DepthLimit)
    ensures ReadMapEnd(r) != Fail(DepthLimit)
  {
  }

  lemma CountNoDepthLimit(r: Reader)
    ensures ReadCount(r) != Fail(DepthLimit)
  {
  }

  lemma HeadersNoDepthLimit(r: Reader)
    ensures ReadFieldBegin(r) != Fail(DepthLimit)
    ensures ReadListBegin(r) != Fail(DepthLimit)
    ensures ReadMapBegin(r) != Fail(DepthLimit)
  {
    hide ReadInteger, ReadOpening, ReadTypeName, ReadCount;
    NoDepthLimit(r, 0, UINT64_MAX);
    forall q: Reader, b: byte, i: Context ensures ReadOpening(q, b, i) != Fail(DepthLimit) {
      BracketsNoDepthLimit(q, b, i);
    }
    forall q: Reader ensures ReadTypeName(q) != Fail(DepthLimit) { StringNoDepthLimit(q); }
    forall q: Reader ensures ReadCount(q) != Fail(DepthLimit) { CountNoDepthLimit(q); }
  }

  // ---------------------------------------------------------------- skip

  /** `~TInputRecursionTracker` on the way out of a call. */
  function Leave(o: Outcome): Outcome {
    match o
    case Skipped(r, d) => Skipped(r, if d > 0 then d - 1 else 0)
    case Stuck(e, d) => Stuck(e, if d > 0 then d - 1 else 0)
  }

  /** `skip`, entered at depth `d` with the given recursion limit. */
  function Skip(t: TType, r: Reader, d: nat, limit: nat): (o: Outcome)
    ensures o.Skipped? ==> |o.rest.input| < |r.input|
    decreases |r.input|, 1, 0
  {
    if limit < d + 1 then Stuck(DepthLimit, d + 1)
    else Leave(SkipBody(t, r, d + 1, limit))
  }

  /** Its switch over the type, at the depth `d` reached. */
  function SkipBody(t: TType, r: Reader, d: nat, limit: nat): (o: Outcome)
    ensures o.Skipped? ==> |o.rest.input| < |r.input|
    decreases |r.input|, 0, 1
  {
    match t
    case TBool => Leaf(ReadBool(r), d)
    case TByte => Leaf(ReadI8(r), d)
    case TI16 => Leaf(ReadInteger(r, W16.Lo(), W16.Hi()), d)
    case TI32 => Leaf(ReadInteger(r, W32.Lo(), W32.Hi()), d)
    case TI64 => Leaf(ReadInteger(r, W64.Lo(), W64.Hi()), d)
    case TDouble => Stuck(Mismatch, d)   // doubles are not part of this model
    case TString => Leaf(ReadBinary(r), d)
    case TStruct => SkipStruct(r, d, limit)
    case TMap => SkipMap(r, d, limit)
    case TSet => SkipList(r, d, limit)
    case TList => SkipList(r, d, limit)
    case TUuid => Stuck(InvalidData, d)
  }

  function SkipStruct(r: Reader, d: nat, limit: nat): (o: Outcome)
    ensures o.Skipped? ==> |o.rest.input| < |r.input|
    decreases |r.input|, 0, 0
  {
    match ReadOpening(r, OBJECT_START, NEW_PAIR)
    case Fail(e) => Stuck(e, d)
    case Done(_, r1) =>
      match SkipFields(r1, d, limit)
      case Stuck(e, x) => Stuck(e, x)
      case Skipped(r2, x) => Leaf(ReadClosing(r2, OBJECT_END), x)
  }

  function SkipFields(r: Reader, d: nat, limit: nat): (o: Outcome)
    ensures o.Skipped? ==> |o.rest.input| <= |r.input|
    decreases |r.input|, 2, 0
  {
    match ReadFieldBegin(r)
    case Fail(e) => Stuck(e, d)
    case Done(h, r1) =>
      if h == Stop then Skipped(r1, d)
      else
        match Skip(h.t, r1, d, limit)
        case Stuck(e, x) => Stuck(e, x)
        case Skipped(r2, x) =>
          match ReadClosing(r2, OBJECT_END)
          case Fail(e) => Stuck(e, x)
          case Done(_, r3) => SkipFields(r3, x, limit)
  }

  function SkipList(r: Reader, d: nat, limit: nat): (o: Outcome)
    ensures o.Skipped? ==> |o.rest.input| < |r.input|
    decreases |r.input|, 0, 0
  {
    match ReadListBegin(r)
    case Fail(e) => Stuck(e, d)
    case Done(h, r1) =>
      match SkipElems(h.0, h.1, r1, d, limit)
      case Stuck(e, x) => Stuck(e, x)
      case Skipped(r2, x) => Leaf(ReadClosing(r2, ARRAY_END), x)
  }

  function SkipElems(t: TType, n: nat, r: Reader, d: nat, limit: nat): (o: Outcome)
    ensures o.Skipped? ==> |o.rest.input| <= |r.input|
    decreases |r.input|, 2, n
  {
    if n == 0 then Skipped(r, d)
    else
      match Skip(t, r, d, limit)
      case Stuck(e, x) => Stuck(e, x)
      case Skipped(r1, x) => SkipElems(t, n - 1, r1, x, limit)
  }

  function SkipMap(r: Reader, d: nat, limit: nat): (o: Outcome)
    ensures o.Skipped? ==> |o.rest.input| < |r.input|
    decreases |r.input|, 0, 0
  {
    match ReadMapBegin(r)
    case Fail(e) => Stuck(e, d)
    case Done(h, r1) =>
      match SkipEntries(h.0, h.1, h.2, r1, d, limit)
      case Stuck(e, x) => Stuck(e, x)
      case Skipped(r2, x) => Leaf(ReadMapEnd(r2), x)
  }

  function SkipEntries(a: TType, b: TType, n: nat, r: Reader, d: nat, limit: nat): (o: Outcome)
    ensures o.Skipped? ==> |o.rest.input| <= |r.input|
    decreases |r.input|, 2, n
  {
    if n == 0 then Skipped(r, d)
    else
      match Skip(a, r, d, limit)
      case Stuck(e, x) => Stuck(e, x)
      case Skipped(r1, x) =>
        match Skip(b, r1, x, limit)
        case Stuck(e, y) => Stuck(e, y)
        case Skipped(r2, y) => SkipEntries(a, b, n - 1, r2, y, limit)
  }

  // ---------------------------------------------------------------- the depth counter

  /** On any input, a call of `skip` leaves the depth counter as it found it, unless it
      fails for being too deep: then the counter stays one too high. */
  lemma {:induction false} SkipKeepsDepth(t: TType, r: Reader, d: nat, limit: nat)
    ensures DepthKept(Skip(t, r, d, limit), d)
    decreases |r.input|, 1, 0
  {
    hide ReadBool, ReadI8, ReadInteger, ReadBinary, SkipStruct, SkipList, SkipMap;
    if limit >= d + 1 {
      match t
      case TBool => BoolNoDepthLimit(r);
      case TByte => I8NoDepthLimit(r);
      case TI16 => NoDepthLimit(r, W16.Lo(), W16.Hi());
      case TI32 => NoDepthLimit(r, W32.Lo(), W32.Hi());
      case TI64 => NoDepthLimit(r, W64.Lo(), W64.Hi());
      case TDouble =>
      case TString => StringNoDepthLimit(r);
      case TStruct => StructKeepsDepth(r, d + 1, limit);
      case TMap => MapKeepsDepth(r, d + 1, limit);
      case TSet => ListKeepsDepth(r, d + 1, limit);
      case TList => ListKeepsDepth(r, d + 1, limit);
      case TUuid =>
    }
  }

  lemma I8NoDepthLimit(r: Reader)
    ensures ReadI8(r) != Fail(DepthLimit)
  {
  }

  lemma BoolNoDepthLimit(r: Reader)
    ensures ReadBool(r) != Fail(DepthLimit)
  {
  }

  lemma {:induction false} StructKeepsDepth(r: Reader, d: nat, limit: nat)
    ensures DepthKept(SkipStruct(r, d, limit), d)
    decreases |r.input|, 0, 0
  {
    hide ReadOpening, ReadClosing, SkipFields;
    BracketsNoDepthLimit(r, OBJECT_START, NEW_PAIR);
    var p := ReadOpening(r, OBJECT_START, NEW_PAIR);
    if p.Done? {
      FieldsKeepDepth(p.rest, d, limit);
      var o := SkipFields(p.rest, d, limit);
      if o.Skipped? { BracketsNoDepthLimit(o.rest, OBJECT_END, NEW_PAIR); }
    }
  }

  lemma {:induction false} FieldsKeepDepth(r: Reader, d: nat, limit: nat)
    ensures DepthKept(SkipFields(r, d, limit), d)
    decreases |r.input|, 2, 0
  {
    hide ReadFieldBegin, ReadClosing, Skip;
    HeadersNoDepthLimit(r);
    var p := ReadFieldBegin(r);
    if p.Done? && p.value != Stop {
      SkipKeepsDepth(p.value.t, p.rest, d, limit);
      var o := Skip(p.value.t, p.rest, d, limit);
      if o.Skipped? {
        BracketsNoDepthLimit(o.rest, OBJECT_END, NEW_PAIR);
        var q := ReadClosing(o.rest, OBJECT_END);
        if q.Done? { FieldsKeepDepth(q.rest, d, limit); }
      }
    }
  }

  lemma {:induction false} ListKeepsDepth(r: Reader, d: nat, limit: nat)
    ensures DepthKept(SkipList(r, d, limit), d)
    decreases |r.input|, 0, 0
  {
    hide ReadListBegin, ReadClosing, SkipElems;
    HeadersNoDepthLimit(r);
    var p := ReadListBegin(r);
    if p.Done? {
      ElemsKeepDepth(p.value.0, p.value.1, p.rest, d, limit);
      var o := SkipElems(p.value.0, p.value.1, p.rest, d, limit);
      if o.Skipped? { BracketsNoDepthLimit(o.rest, ARRAY_END, NEW_PAIR); }
    }
  }

  lemma {:induction false} ElemsKeepDepth(t: TType, n: nat, r: Reader, d: nat, limit: nat)
    ensures DepthKept(SkipElems(t, n, r, d, limit), d)
    decreases |r.input|, 2, n
  {
    hide Skip;
    if n > 0 {
      SkipKeepsDepth(t, r, d, limit);
      var o := Skip(t, r, d, limit);
      if o.Skipped? { ElemsKeepDepth(t, n - 1, o.rest, d, limit); }
    }
  }

  lemma {:induction false} MapKeepsDepth(r: Reader, d: nat, limit: nat)
    ensures DepthKept(SkipMap(r, d, limit), d)
    decreases |r.input|, 0, 0
  {
    hide ReadMapBegin, ReadMapEnd, SkipEntries;
    HeadersNoDepthLimit(r);
    var p := ReadMapBegin(r);
    if p.Done? {
      EntriesKeepDepth(p.value.0, p.value.1, p.value.2, p.rest, d, limit);
      var o := SkipEntries(p.value.0, p.value.1, p.value.2, p.rest, d, limit);
      if o.Skipped? { BracketsNoDepthLimit(o.rest, ARRAY_END, NEW_PAIR); }
    }
  }

  lemma {:induction false} EntriesKeepDepth(a: TType, b: TType, n: nat, r: Reader, d: nat, limit: nat)
    ensures DepthKept(SkipEntries(a, b, n, r, d, limit), d)
    decreases |r.input|, 2, n
  {
    hide Skip;
    if n > 0 {
      SkipKeepsDepth(a, r, d, limit);
      var o := Skip(a, r, d, limit);
      if o.Skipped? {
        SkipKeepsDepth(b, o.rest, d, limit);
        var q := Skip(b, o.rest, d, limit);
        if q.Skipped? { EntriesKeepDepth(a, b, n - 1, q.rest, d, limit); }
      }
    }
  }

  // ---------------------------------------------------------------- skipping a value

  /** The first trouble, in reading order, that `skip` has with a tree when `room` levels are
      left: a value nested too deep, a negative field id, a text that reads as exactly `==`. */
  function Trouble(k: Kind, v: Value, room: int): Option<Error>
    requires Fits(k, v)
    decreases v
  {
    if room < 1 then Some(DepthLimit)
    else
      match k
      case KBool => None
      case KInt(_) => None
      case KText => if DropNuls(v.s) == [B64.EQUALS, B64.EQUALS] then Some(OutOfBounds) else None
      case KBinary => None
      case KStruct(kinds) => FieldsTrouble(kinds, v.fs, room - 1)
      case KList(e) => ElemsTrouble(e, v.vs, room - 1)
      case KSet(e) => ElemsTrouble(e, v.vs, room - 1)
      case KMap(a, b) => EntriesTrouble(a, b, v.es, room - 1)
  }

  /** The second trouble, if there is no first. */
  function Else(first: Option<Error>, second: Option<Error>): Option<Error> {
    if first == None then second else first
  }

  function FieldsTrouble(kinds: map<int, Kind>, fs: seq<Field>, room: int): Option<Error>
    requires FieldsFit(kinds, fs)
    decreases fs
  {
    if fs == [] then None
    else
      assert fs decreases to fs[0];
      var Field(id, value) := fs[0];
      if id < 0 then Some(SizeLimit)
      else Else(Trouble(kinds[id], value, room), FieldsTrouble(kinds, fs[1..], room))
  }

  function ElemsTrouble(k: Kind, vs: seq<Value>, room: int): Option<Error>
    requires ElemsFit(k, vs)
    decreases vs
  {
    if vs == [] then None else Else(Trouble(k, vs[0], room), ElemsTrouble(k, vs[1..], room))
  }

  function EntriesTrouble(a: Kind, b: Kind, es: seq<Entry>, room: int): Option<Error>
    requires EntriesFit(a, b, es)
    decreases es
  {
    if es == [] then None
    else
      assert es decreases to es[0];
      var Entry(key, val) := es[0];
      Else(Trouble(a, key, room), Else(Trouble(b, val, room), EntriesTrouble(a, b, es[1..], room)))
  }

  // ---------------------------------------------------------------- depth

  /** How deep a value is nested: one level for itself, and those of its deepest part. */
  function Depth(k: Kind, v: Value): (n: nat)
    requires Fits(k, v)
    ensures n >= 1
    decreases v
  {
    match k
    case KStruct(kinds) => 1 + FieldsDepth(kinds, v.fs)
    case KList(e) => 1 + ElemsDepth(e, v.vs)
    case KSet(e) => 1 + ElemsDepth(e, v.vs)
    case KMap(a, b) => 1 + EntriesDepth(a, b, v.es)
    case _ => 1
  }

  function Larger(a: nat, b: nat): nat {
    if a < b then b else a
  }

  function FieldsDepth(kinds: map<int, Kind>, fs: seq<Field>): nat
    requires FieldsFit(kinds, fs)
    decreases fs
  {
    if fs == [] then 0
    else
      assert fs decreases to fs[0];
      Larger(Depth(kinds[fs[0].id], fs[0].value), FieldsDepth(kinds, fs[1..]))
  }

  function ElemsDepth(k: Kind, vs: seq<Value>): nat
    requires ElemsFit(k, vs)
    decreases vs
  {
    if vs == [] then 0 else Larger(Depth(k, vs[0]), ElemsDepth(k, vs[1..]))
  }

  function EntriesDepth(a: Kind, b: Kind, es: seq<Entry>): nat
    requires EntriesFit(a, b, es)
    decreases es
  {
    if es == [] then 0
    else
      assert es decreases to es[0];
      Larger(Larger(Depth(a, es[0].key), Depth(b, es[0].val)), EntriesDepth(a, b, es[1..]))
  }

  /** No field id is negative, and no text is `==` but for zero bytes. */
  predicate Harmless(k: Kind, v: Value)
    requires Fits(k, v)
    decreases v
  {
    match k
    case KText => DropNuls(v.s) != Ascii("==")
    case KStruct(kinds) => HarmlessFields(kinds, v.fs)
    case KList(e) => HarmlessElems(e, v.vs)
    case KSet(e) => HarmlessElems(e, v.vs)
    case KMap(a, b) => HarmlessEntries(a, b, v.es)
    case _ => true
  }

  predicate HarmlessFields(kinds: map<int, Kind>, fs: seq<Field>)
    requires FieldsFit(kinds, fs)
    decreases fs
  {
    fs == [] ||
    (assert fs decreases to fs[0];
     fs[0].id >= 0 && Harmless(kinds[fs[0].id], fs[0].value) && HarmlessFields(kinds, fs[1..]))
  }

  predicate HarmlessElems(k: Kind, vs: seq<Value>)
    requires ElemsFit(k, vs)
    decreases vs
  {
    vs == [] || (Harmless(k, vs[0]) && HarmlessElems(k, vs[1..]))
  }

  predicate HarmlessEntries(a: Kind, b: Kind, es: seq<Entry>)
    requires EntriesFit(a, b, es)
    decreases es
  {
    es == [] ||
    (assert es decreases to es[0];
     Harmless(a, es[0].key) && Harmless(b, es[0].val) && HarmlessEntries(a, b, es[1..]))
  }

  /** Trouble for a harmless value is only ever its depth, and for the others there is always some. */
  predicate Foretold(trouble: Option<Error>, harmless: bool, depth: nat, room: int) {
    && (trouble == None <==> harmless && depth <= room)
    && (harmless && depth > room ==> trouble == Some(DepthLimit))
  }

  lemma {:induction false} DepthForetells(k: Kind, v: Value, room: int)
    requires Fits(k, v)
    ensures Foretold(Trouble(k, v, room), Harmless(k, v), Depth(k, v), room)
    decreases v, 1
  {
    hide FieldsTrouble, ElemsTrouble, EntriesTrouble, FieldsDepth, ElemsDepth, EntriesDepth, DropNuls;
    hide HarmlessFields, HarmlessElems, HarmlessEntries;
    match k
    case KText => assert Ascii("==") == [B64.EQUALS, B64.EQUALS];
    case KStruct(kinds) => FieldsForetell(kinds, v.fs, room - 1);
    case KList(e) => ElemsForetell(e, v.vs, room - 1);
    case KSet(e) => ElemsForetell(e, v.vs, room - 1);
    case KMap(a, b) => EntriesForetell(a, b, v.es, room - 1);
    case _ =>
  }

  lemma {:induction false} FieldsForetell(kinds: map<int, Kind>, fs: seq<Field>, room: int)
    requires FieldsFit(kinds, fs)
    ensures room >= 0 ==> Foretold(FieldsTrouble(kinds, fs, room), HarmlessFields(kinds, fs), FieldsDepth(kinds, fs), room)
    decreases fs, 0
  {
    hide Trouble, Depth, Harmless;
    if fs != [] {
      assert fs decreases to fs[0];
      DepthForetells(kinds[fs[0].id], fs[0].value, room);
      FieldsForetell(kinds, fs[1..], room);
    }
  }

  lemma {:induction false} ElemsForetell(k: Kind, vs: seq<Value>, room: int)
    requires ElemsFit(k, vs)
    ensures room >= 0 ==> Foretold(ElemsTrouble(k, vs, room), HarmlessElems(k, vs), ElemsDepth(k, vs), room)
    decreases vs, 0
  {
    hide Trouble, Depth, Harmless;
    if vs != [] {
      DepthForetells(k, vs[0], room);
      ElemsForetell(k, vs[1..], room);
    }
  }

  lemma {:induction false} EntriesForetell(a: Kind, b: Kind, es: seq<Entry>, room: int)
    requires EntriesFit(a, b, es)
    ensures room >= 0 ==> Foretold(EntriesTrouble(a, b, es, room), HarmlessEntries(a, b, es), EntriesDepth(a, b, es), room)
    decreases es, 0
  {
    hide Trouble, Depth, Harmless;
    if es != [] {
      assert es decreases to es[0];
      DepthForetells(a, es[0].key, room);
      DepthForetells(b, es[0].val, room);
      EntriesForetell(a, b, es[1..], room);
    }
  }

  // ---------------------------------------------------------------- written text

  /** Without trouble `o` is a clean pass up to `rest`. Otherwise it is the failure the trouble
      makes, the depth counter being one too high exactly when something was too deep. */
  predicate Passes(o: Outcome, trouble: Option<Error>, rest: Reader, d: nat) {
    match trouble
    case None => o == Skipped(rest, d)
    case Some(e) => o == Stuck(e, if e == DepthLimit then d + 1 else d)
  }

  lemma SkipsTextLeaf(c: Context, s: seq<byte>, rest: seq<byte>, st: seq<Context>)
    ensures ReadBinary(Reader(StringItem(c, s) + rest, c, st)).Done?
       <==> DropNuls(s) != [B64.EQUALS, B64.EQUALS]
    ensures DropNuls(s) != [B64.EQUALS, B64.EQUALS] ==>
              ReadBinary(Reader(StringItem(c, s) + rest, c, st)).rest == Reader(rest, After(c), st)
    ensures DropNuls(s) == [B64.EQUALS, B64.EQUALS] ==>
              ReadBinary(Reader(StringItem(c, s) + rest, c, st)) == Fail(OutOfBounds)
  {
    hide StringItem, ReadString, DropNuls, After, B64.Decode;
    ReadsString(c, s, rest, st);
  }

  /** Without trouble `skip` passes over exactly the text of a tree and restores contexts and
      depth; with trouble it fails with the error and the depth counter foretold. */
  lemma {:induction false} SkipsDelimited(k: Kind, v: Value, c: Context, rest: seq<byte>, st: seq<Context>,
                                     d: nat, limit: nat)
    requires Fits(k, v) && Delimited(k, c, rest)
    ensures Passes(Skip(TypeOf(k), Reader(Text(k, v, c, rest), c, st), d, limit),
                   Trouble(k, v, limit - d), Reader(rest, After(c), st), d)
    decreases v, 1
  {
    hide IntItem, StringItem, BinaryItem, Opening, ListBeginText, MapBeginText, After, Delimits;
    hide ReadBool, ReadI8, ReadInteger, ReadString, ReadBinary, ReadOpening, ReadClosing, ReadMapBegin;
    hide ReadMapEnd, SkipStruct, SkipList, SkipMap, DropNuls, FieldsText, ElemsText, EntriesText;
    hide FieldsTrouble, ElemsTrouble, EntriesTrouble;
    if limit >= d + 1 {
      match k
      case KBool => ReadsBool(c, v.b, rest, st);
      case KInt(w) => if w == W8 { ReadsI8(c, v.n, rest, st); } else { ReadsInteger(c, v.n, w.Lo(), w.Hi(), rest, st); }
      case KText => SkipsTextLeaf(c, v.s, rest, st);
      case KBinary => ReadsBinary(c, v.s, rest, st);
      case KStruct(kinds) => SkipsStruct(kinds, v.fs, c, rest, st, d + 1, limit);
      case KList(e) => SkipsList(e, v.vs, c, rest, st, d + 1, limit);
      case KSet(e) => SkipsList(e, v.vs, c, rest, st, d + 1, limit);
      case KMap(a, b) => SkipsMap(a, b, v.es, c, rest, st, d + 1, limit);
    }
  }

  /** What `skip` does with the text of any tree, whatever stands behind it. It passes over
      exactly that text if and only if there is no trouble and, for a bare number, something
      that ends it. */
  lemma SkipsText(k: Kind, v: Value, c: Context, rest: seq<byte>, st: seq<Context>, d: nat, limit: nat)
    requires Fits(k, v)
    ensures var o, trouble := Skip(TypeOf(k), Reader(Text(k, v, c, rest), c, st), d, limit), Trouble(k, v, limit - d);
            && (if trouble == None && !Delimited(k, c, rest) then o == Leaf(NumberOn(k, v, c, rest, st), d)
                else Passes(o, trouble, Reader(rest, After(c), st), d))
            && (o == Skipped(Reader(rest, After(c), st), d) <==> trouble == None && Delimited(k, c, rest))
  {
    hide Text, ReadBool, ReadI8, ReadInteger, NumberOn, After;
    if Delimited(k, c, rest) {
      SkipsDelimited(k, v, c, rest, st, d, limit);
    } else if limit >= d + 1 {
      ReadsText(k, v, c, rest, st);
      GoesOn(k, v, c, rest, st);
    }
  }

  lemma {:induction false} SkipsStruct(kinds: map<int, Kind>, fs: seq<Field>, c: Context, rest: seq<byte>,
                                       st: seq<Context>, d: nat, limit: nat)
    requires FieldsFit(kinds, fs)
    ensures Passes(SkipStruct(Reader(Opening(c, OBJECT_START)
                                     + FieldsText(kinds, fs, NEW_PAIR, [OBJECT_END] + rest), c, st), d, limit),
                   FieldsTrouble(kinds, fs, limit - d), Reader(rest, After(c), st), d)
    decreases fs, 2
  {
    hide Opening, After, ReadOpening, ReadClosing, SkipFields, FieldsText, FieldsTrouble;
    ReadsOpening(c, OBJECT_START, NEW_PAIR, FieldsText(kinds, fs, NEW_PAIR, [OBJECT_END] + rest), st);
    SkipsFields(kinds, fs, NEW_PAIR, rest, [After(c)] + st, d, limit);
    ReadsClosing(OBJECT_END, rest, AfterPairs(NEW_PAIR, |fs|), After(c), st);
  }

  lemma {:induction false} SkipsFields(kinds: map<int, Kind>, fs: seq<Field>, c: Context, rest: seq<byte>,
                                       st: seq<Context>, d: nat, limit: nat)
    requires FieldsFit(kinds, fs) && KeyPosition(c)
    ensures Passes(SkipFields(Reader(FieldsText(kinds, fs, c, [OBJECT_END] + rest), c, st), d, limit),
                   FieldsTrouble(kinds, fs, limit - d),
                   Reader([OBJECT_END] + rest, AfterPairs(c, |fs|), st), d)
    decreases fs, 1
  {
    hide FieldBeginText, ReadFieldBegin, ReadClosing, Text, Skip, Trouble, TypeOf, Delimited;
    if fs == [] {
      StopsAtEnd(rest, c, st);
    } else {
      assert fs decreases to fs[0];
      var Field(id, value) := fs[0];
      var k, tail := kinds[id], FieldsText(kinds, fs[1..], Pair(false, false), [OBJECT_END] + rest);
      KeysAreEscaped(c);
      ReadsFieldBegin(c, id, TypeOf(k), Text(k, value, Pair(false, true), [OBJECT_END] + tail), st);
      if id >= 0 {
        EndDelimits(k, Pair(false, true), tail);
        SkipsDelimited(k, value, Pair(false, true), [OBJECT_END] + tail, [Pair(false, false)] + st, d, limit);
        ReadsClosing(OBJECT_END, tail, After(Pair(false, true)), Pair(false, false), st);
        SkipsFields(kinds, fs[1..], Pair(false, false), rest, st, d, limit);
      }
    }
  }

  lemma {:induction false} SkipsList(e: Kind, vs: seq<Value>, c: Context, rest: seq<byte>,
                                     st: seq<Context>, d: nat, limit: nat)
    requires ElemsFit(e, vs) && |vs| < U32_MODULUS
    ensures Passes(SkipList(Reader(ListBeginText(c, TypeOf(e), |vs|)
                                   + ElemsText(e, vs, List(false), [ARRAY_END] + rest), c, st), d, limit),
                   ElemsTrouble(e, vs, limit - d), Reader(rest, After(c), st), d)
    decreases vs, 1
  {
    hide ListBeginText, After, ReadListBegin, SkipElems, ReadClosing, ElemsText, ElemsTrouble, TypeOf;
    ElemsStart(e, vs, rest);
    ReadsListBegin(c, TypeOf(e), |vs|, ElemsText(e, vs, List(false), [ARRAY_END] + rest), st);
    SkipsElems(e, vs, List(false), rest, [After(c)] + st, d, limit);
    ReadsClosing(ARRAY_END, rest, AfterElems(List(false), |vs|), After(c), st);
  }

  lemma {:induction false} SkipsElems(k: Kind, vs: seq<Value>, c: Context, rest: seq<byte>,
                                      st: seq<Context>, d: nat, limit: nat)
    requires ElemsFit(k, vs) && c.List?
    ensures Passes(SkipElems(TypeOf(k), |vs|, Reader(ElemsText(k, vs, c, [ARRAY_END] + rest), c, st), d, limit),
                   ElemsTrouble(k, vs, limit - d),
                   Reader([ARRAY_END] + rest, AfterElems(c, |vs|), st), d)
    decreases vs, 0
  {
    hide Text, Skip, Trouble, TypeOf;
    if vs != [] {
      ElemsStart(k, vs[1..], rest);
      SkipsDelimited(k, vs[0], c, ElemsText(k, vs[1..], List(false), [ARRAY_END] + rest), st, d, limit);
      SkipsElems(k, vs[1..], List(false), rest, st, d, limit);
    }
  }

  lemma {:induction false} SkipsMap(a: Kind, b: Kind, es: seq<Entry>, c: Context, rest: seq<byte>,
                                    st: seq<Context>, d: nat, limit: nat)
    requires EntriesFit(a, b, es) && |es| < U32_MODULUS
    ensures Passes(SkipMap(Reader(MapBeginText(c, TypeOf(a), TypeOf(b), |es|)
                                  + EntriesText(a, b, es, NEW_PAIR, [OBJECT_END] + ([ARRAY_END] + rest)),
                                  c, st), d, limit),
                   EntriesTrouble(a, b, es, limit - d), Reader(rest, After(c), st), d)
    decreases es, 1
  {
    hide MapBeginText, After, ReadMapBegin, ReadMapEnd, SkipEntries, EntriesText, EntriesTrouble, TypeOf;
    var inner := [OBJECT_END] + ([ARRAY_END] + rest);
    var st1 := [List(false), After(c)] + st;
    ReadsMapBegin(c, TypeOf(a), TypeOf(b), |es|, EntriesText(a, b, es, NEW_PAIR, inner), st);
    assert KeyPosition(NEW_PAIR);
    SkipsEntries(a, b, es, NEW_PAIR, [ARRAY_END] + rest, st1, d, limit);
    ReadsMapEnd(rest, AfterPairs(NEW_PAIR, |es|), List(false), After(c), st);
  }

  lemma {:induction false} SkipsEntries(a: Kind, b: Kind, es: seq<Entry>, c: Context, rest: seq<byte>,
                                        st: seq<Context>, d: nat, limit: nat)
    requires EntriesFit(a, b, es) && KeyPosition(c)
    ensures Passes(SkipEntries(TypeOf(a), TypeOf(b), |es|,
                               Reader(EntriesText(a, b, es, c, [OBJECT_END] + rest), c, st), d, limit),
                   EntriesTrouble(a, b, es, limit - d),
                   Reader([OBJECT_END] + rest, AfterPairs(c, |es|), st), d)
    decreases es, 0
  {
    hide Text, Skip, Trouble, TypeOf, Delimited, EndsNumber, KeyPosition, After, EscapeNum;
    if es != [] {
      assert es decreases to es[0];
      var Entry(key, val) := es[0];
      var colon, comma := Pair(false, true), Pair(false, false);
      var tail := EntriesText(a, b, es[1..], comma, [OBJECT_END] + rest);
      KeysAreEscaped(c);
      EntriesStart(a, b, es[1..], rest);
      EntryDelimited(a, b, c, Text(b, val, colon, tail), tail);
      SkipsDelimited(a, key, c, Text(b, val, colon, tail), st, d, limit);
      SkipsDelimited(b, val, colon, tail, st, d, limit);
      SkipsEntries(a, b, es[1..], comma, rest, st, d, limit);
    }
  }
}
