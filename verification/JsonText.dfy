/** The text TJSONProtocol puts on the wire for each kind of Thrift value. */
module JsonText {
  import opened Bytes
  import B64 = Base64

  const QUOTE: byte := '\"' as int
  const BACKSLASH: byte := '\\' as int
  const COLON: byte := ':' as int
  const COMMA: byte := ',' as int
  const OBJECT_START: byte := '{' as int
  const OBJECT_END: byte := '}' as int
  const ARRAY_START: byte := '[' as int
  const ARRAY_END: byte := ']' as int
  const MINUS: byte := '-' as int
  const ZERO: byte := '0' as int

  // ---------------------------------------------------------------- types and values

  /** The `TType`s that have a JSON name. */
  datatype TType = TBool | TByte | TI16 | TI32 | TI64 | TDouble | TString
                 | TStruct | TMap | TSet | TList | TUuid

  /** `getTypeNameForTypeID`. */
  function TypeName(t: TType): seq<byte> {
    match t
    case TBool => ['t' as int, 'f' as int]
    case TByte => ['i' as int, '8' as int]
    case TI16 => ['i' as int, '1' as int, '6' as int]
    case TI32 => ['i' as int, '3' as int, '2' as int]
    case TI64 => ['i' as int, '6' as int, '4' as int]
    case TDouble => ['d' as int, 'b' as int, 'l' as int]
    case TString => ['s' as int, 't' as int, 'r' as int]
    case TStruct => ['r' as int, 'e' as int, 'c' as int]
    case TMap => ['m' as int, 'a' as int, 'p' as int]
    case TSet => ['s' as int, 'e' as int, 't' as int]
    case TList => ['l' as int, 's' as int, 't' as int]
    case TUuid => ['u' as int, 'i' as int, 'd' as int]
  }

  /** `getTypeIDForTypeName`: looks at one or two characters only. */
  function TypeForName(name: seq<byte>): Option<TType> {
    if |name| <= 1 then None
    else if name[0] == 'd' as int then Some(TDouble)
    else if name[0] == 'i' as int then
      if name[1] == '8' as int then Some(TByte)
      else if name[1] == '1' as int then Some(TI16)
      else if name[1] == '3' as int then Some(TI32)
      else if name[1] == '6' as int then Some(TI64)
      else None
    else if name[0] == 'l' as int then Some(TList)
    else if name[0] == 'm' as int then Some(TMap)
    else if name[0] == 'r' as int then Some(TStruct)
    else if name[0] == 's' as int then
      if name[1] == 't' as int then Some(TString)
      else if name[1] == 'e' as int then Some(TSet)
      else None
    else if name[0] == 't' as int then Some(TBool)
    else if name[0] == 'u' as int then Some(TUuid)
    else None
  }

  lemma TypeNamesInvert(t: TType)
    ensures TypeForName(TypeName(t)) == Some(t)
  {
  }

  datatype Width = W8 | W16 | W32 | W64 {
    function Lo(): int { -Hi() - 1 }
    function Hi(): int {
      match this
      case W8 => 0x7f
      case W16 => 0x7fff
      case W32 => 0x7fff_ffff
      case W64 => 0x7fff_ffff_ffff_ffff
    }
  }

  /** What reader and writer of a value agree on: its wire type, and whether a string is
      text or binary. A struct maps field ids to kinds. */
  datatype Kind =
    | KBool | KInt(w: Width) | KText | KBinary
    | KStruct(fields: map<int, Kind>)
    | KList(elem: Kind) | KSet(elem: Kind)
    | KMap(key: Kind, val: Kind)

  function TypeOf(k: Kind): TType {
    match k
    case KBool => TBool
    case KInt(w) => (match w case W8 => TByte case W16 => TI16 case W32 => TI32 case W64 => TI64)
    case KText => TString
    case KBinary => TString
    case KStruct(_) => TStruct
    case KList(_) => TList
    case KSet(_) => TSet
    case KMap(_, _) => TMap
  }

  predicate IsBase(k: Kind) {
    k.KBool? || k.KInt? || k.KText? || k.KBinary?
  }

  datatype Value =
    | Bool(b: bool)
    | Int(n: int)
    | Bytes(s: seq<byte>)
    | Struct(fs: seq<Field>)
    | Elems(vs: seq<Value>)
    | Map(es: seq<Entry>)

  datatype Field = Field(id: int, value: Value)
  datatype Entry = Entry(key: Value, val: Value)

  /** `v` is a value of kind `k`; map keys are of a base kind, as JSON keys must be. Field
      ids are `int16_t` and counts `uint32_t`. */
  predicate Fits(k: Kind, v: Value)
    decreases v
  {
    match k
    case KBool => v.Bool?
    case KInt(w) => v.Int? && w.Lo() <= v.n <= w.Hi()
    case KText => v.Bytes?
    case KBinary => v.Bytes?
    case KStruct(kinds) => v.Struct? && FieldsFit(kinds, v.fs)
    case KList(e) => v.Elems? && |v.vs| < U32_MODULUS && ElemsFit(e, v.vs)
    case KSet(e) => v.Elems? && |v.vs| < U32_MODULUS && ElemsFit(e, v.vs)
    case KMap(a, b) => v.Map? && |v.es| < U32_MODULUS && IsBase(a) && EntriesFit(a, b, v.es)
  }

  predicate FieldsFit(kinds: map<int, Kind>, fs: seq<Field>)
    decreases fs
  {
    fs == [] ||
    (assert fs decreases to fs[0];
     var Field(id, value) := fs[0];
     -0x8000 <= id <= 0x7fff && id in kinds && Fits(kinds[id], value) && FieldsFit(kinds, fs[1..]))
  }

  predicate ElemsFit(k: Kind, vs: seq<Value>)
    decreases vs
  {
    vs == [] || (Fits(k, vs[0]) && ElemsFit(k, vs[1..]))
  }

  predicate EntriesFit(a: Kind, b: Kind, es: seq<Entry>)
    decreases es
  {
    es == [] ||
    (assert es decreases to es[0];
     var Entry(key, val) := es[0];
     Fits(a, key) && Fits(b, val) && EntriesFit(a, b, es[1..]))
  }

  // ---------------------------------------------------------------- contexts

  /** `TJSONContext` and its subclasses, with their `first_` and `colon_` flags. */
  datatype Context = Base | Pair(first: bool, colon: bool) | List(first: bool)

  const NEW_PAIR: Context := Pair(true, true)
  const NEW_LIST: Context := List(true)

  /** What a context writes, or expects, in front of the next item. */
  function Sep(c: Context): seq<byte> {
    match c
    case Base => []
    case Pair(first, colon) => if first then [] else if colon then [COLON] else [COMMA]
    case List(first) => if first then [] else [COMMA]
  }

  /** The context once that item has been announced. */
  function After(c: Context): Context {
    match c
    case Base => Base
    case Pair(first, colon) => if first then Pair(false, true) else Pair(false, !colon)
    case List(_) => List(false)
  }

  predicate EscapeNum(c: Context) {
    c.Pair? && c.colon
  }

  // ---------------------------------------------------------------- scalars

  function Digits(n: nat): (s: seq<byte>)
    ensures |s| > 0
  {
    if n < 10 then [ZERO + n] else Digits(n / 10) + [ZERO + n % 10]
  }

  /** `to_string`. */
  function IntText(n: int): (s: seq<byte>)
    ensures |s| > 0
  {
    if n < 0 then [MINUS] + Digits(-n) else Digits(n)
  }

  /** An integer where the context is already `c`: quoted when it is a key. */
  function NumText(c: Context, n: int): seq<byte> {
    if EscapeNum(c) then [QUOTE] + IntText(n) + [QUOTE] else IntText(n)
  }

  function HexChar(val: nat): byte {
    var v := val % 16;
    if v < 10 then ZERO + v else 'a' as int + (v - 10)
  }

  /** `kJSONCharTable`. */
  function CharTable(ch: byte): byte
    requires ch < 0x30
  {
    if ch == 8 then 'b' as int
    else if ch == 9 then 't' as int
    else if ch == 10 then 'n' as int
    else if ch == 12 then 'f' as int
    else if ch == 13 then 'r' as int
    else if ch == QUOTE then QUOTE
    else if ch >= 0x20 then 1
    else 0
  }

  /** `writeJSONChar`. */
  function CharText(ch: byte): (t: seq<byte>)
    ensures |t| > 0
  {
    if ch >= 0x30 then
      if ch == BACKSLASH then [BACKSLASH, BACKSLASH] else [ch]
    else
      var out := CharTable(ch);
      if out == 1 then [ch]
      else if out > 1 then [BACKSLASH, out]
      else [BACKSLASH, 'u' as int, ZERO, ZERO, HexChar(ch / 16), HexChar(ch)]
  }

  function BodyText(s: seq<byte>): seq<byte> {
    if s == [] then [] else CharText(s[0]) + BodyText(s[1..])
  }

  function Quoted(t: seq<byte>): seq<byte> {
    [QUOTE] + (t + [QUOTE])
  }

  // ---------------------------------------------------------------- items with separators

  function IntItem(c: Context, n: int): seq<byte> {
    Sep(c) + NumText(After(c), n)
  }

  function StringItem(c: Context, s: seq<byte>): seq<byte> {
    Sep(c) + Quoted(BodyText(s))
  }

  function BinaryItem(c: Context, s: seq<byte>): seq<byte> {
    Sep(c) + Quoted(B64.Encode(s))
  }

  function Opening(c: Context, bracket: byte): seq<byte> {
    Sep(c) + [bracket]
  }

  /** `writeFieldBegin`: the id as a key, then an object holding type name and value. */
  function FieldBeginText(c: Context, id: int, t: TType): seq<byte> {
    IntItem(c, id) + (Opening(After(c), OBJECT_START) + StringItem(NEW_PAIR, TypeName(t)))
  }

  /** `writeListBegin` and `writeSetBegin`. */
  function ListBeginText(c: Context, t: TType, n: nat): seq<byte> {
    Opening(c, ARRAY_START) + (StringItem(NEW_LIST, TypeName(t)) + IntItem(List(false), n))
  }

  function MapBeginText(c: Context, a: TType, b: TType, n: nat): seq<byte> {
    Opening(c, ARRAY_START)
    + (StringItem(NEW_LIST, TypeName(a))
       + (StringItem(List(false), TypeName(b))
          + (IntItem(List(false), n) + Opening(List(false), OBJECT_START))))
  }

  const VERSION_1: int := 1

  /** `writeMessageBegin`. */
  function MessageBeginText(c: Context, name: seq<byte>, messageType: int, seqid: int): seq<byte> {
    Opening(c, ARRAY_START)
    + (IntItem(NEW_LIST, VERSION_1)
       + (StringItem(List(false), name)
          + (IntItem(List(false), messageType) + IntItem(List(false), seqid))))
  }

  // ---------------------------------------------------------------- trees

  /** The text of `v` in context `c`, with `rest` behind it. */
  function Text(k: Kind, v: Value, c: Context, rest: seq<byte>): seq<byte>
    requires Fits(k, v)
    decreases v
  {
    match k
    case KBool => IntItem(c, if v.b then 1 else 0) + rest
    case KInt(_) => IntItem(c, v.n) + rest
    case KText => StringItem(c, v.s) + rest
    case KBinary => BinaryItem(c, v.s) + rest
    case KStruct(kinds) =>
      Opening(c, OBJECT_START) + FieldsText(kinds, v.fs, NEW_PAIR, [OBJECT_END] + rest)
    case KList(e) =>
      ListBeginText(c, TypeOf(e), |v.vs|) + ElemsText(e, v.vs, List(false), [ARRAY_END] + rest)
    case KSet(e) =>
      ListBeginText(c, TypeOf(e), |v.vs|) + ElemsText(e, v.vs, List(false), [ARRAY_END] + rest)
    case KMap(a, b) =>
      MapBeginText(c, TypeOf(a), TypeOf(b), |v.es|)
      + EntriesText(a, b, v.es, NEW_PAIR, [OBJECT_END] + ([ARRAY_END] + rest))
  }

  function FieldsText(kinds: map<int, Kind>, fs: seq<Field>, c: Context, rest: seq<byte>): seq<byte>
    requires FieldsFit(kinds, fs)
    decreases fs
  {
    if fs == [] then rest
    else
      assert fs decreases to fs[0];
      var Field(id, value) := fs[0];
      var k := kinds[id];
      FieldBeginText(c, id, TypeOf(k))
      + Text(k, value, Pair(false, true),
             [OBJECT_END] + FieldsText(kinds, fs[1..], After(After(c)), rest))
  }

  function ElemsText(k: Kind, vs: seq<Value>, c: Context, rest: seq<byte>): seq<byte>
    requires ElemsFit(k, vs)
    decreases vs
  {
    if vs == [] then rest
    else Text(k, vs[0], c, ElemsText(k, vs[1..], After(c), rest))
  }

  function EntriesText(a: Kind, b: Kind, es: seq<Entry>, c: Context, rest: seq<byte>): seq<byte>
    requires EntriesFit(a, b, es)
    decreases es
  {
    if es == [] then rest
    else
      assert es decreases to es[0];
      var Entry(key, val) := es[0];
      Text(a, key, c,
           Text(b, val, After(c), EntriesText(a, b, es[1..], After(After(c)), rest)))
  }

  // ---------------------------------------------------------------- text and its tail

  /** The text of a value does not depend on what follows it. */
  lemma {:induction false} TextTail(k: Kind, v: Value, c: Context, rest: seq<byte>)
    requires Fits(k, v)
    ensures Text(k, v, c, rest) == Text(k, v, c, []) + rest
    decreases v
  {
    hide IntItem, StringItem, BinaryItem, Opening, ListBeginText, MapBeginText;
    hide FieldsText, ElemsText, EntriesText;
    match k
    case KBool => AppendNil(IntItem(c, if v.b then 1 else 0), rest);
    case KInt(_) => AppendNil(IntItem(c, v.n), rest);
    case KText => AppendNil(StringItem(c, v.s), rest);
    case KBinary => AppendNil(BinaryItem(c, v.s), rest);
    case KStruct(kinds) =>
      FieldsTail(kinds, v.fs, NEW_PAIR, [OBJECT_END], rest);
      Assoc(Opening(c, OBJECT_START), FieldsText(kinds, v.fs, NEW_PAIR, [OBJECT_END] + []), rest);
      assert [OBJECT_END] + [] == [OBJECT_END];
    case KList(e) =>
      ElemsTail(e, v.vs, List(false), [ARRAY_END], rest);
      Assoc(ListBeginText(c, TypeOf(e), |v.vs|), ElemsText(e, v.vs, List(false), [ARRAY_END] + []), rest);
      assert [ARRAY_END] + [] == [ARRAY_END];
    case KSet(e) =>
      ElemsTail(e, v.vs, List(false), [ARRAY_END], rest);
      Assoc(ListBeginText(c, TypeOf(e), |v.vs|), ElemsText(e, v.vs, List(false), [ARRAY_END] + []), rest);
      assert [ARRAY_END] + [] == [ARRAY_END];
    case KMap(a, b) =>
      var close := [OBJECT_END] + ([ARRAY_END] + []);
      EntriesTail(a, b, v.es, NEW_PAIR, close, rest);
      Assoc(MapBeginText(c, TypeOf(a), TypeOf(b), |v.es|), EntriesText(a, b, v.es, NEW_PAIR, close), rest);
      assert close + rest == [OBJECT_END] + ([ARRAY_END] + rest);
  }

  lemma AppendNil(s: seq<byte>, rest: seq<byte>)
    ensures s + rest == (s + []) + rest
  {
  }

  lemma {:induction false} FieldsTail(kinds: map<int, Kind>, fs: seq<Field>, c: Context,
                                      mid: seq<byte>, rest: seq<byte>)
    requires FieldsFit(kinds, fs)
    ensures FieldsText(kinds, fs, c, mid + rest) == FieldsText(kinds, fs, c, mid) + rest
    decreases fs
  {
    if fs != [] {
      assert fs decreases to fs[0];
      var Field(id, value) := fs[0];
      var k := kinds[id];
      var tail := FieldsText(kinds, fs[1..], After(After(c)), mid);
      FieldsTail(kinds, fs[1..], After(After(c)), mid, rest);
      Assoc([OBJECT_END], tail, rest);
      TextTail(k, value, Pair(false, true), [OBJECT_END] + tail);
      TextTail(k, value, Pair(false, true), ([OBJECT_END] + tail) + rest);
      Assoc(Text(k, value, Pair(false, true), []), [OBJECT_END] + tail, rest);
      Assoc(FieldBeginText(c, id, TypeOf(k)),
            Text(k, value, Pair(false, true), [OBJECT_END] + tail), rest);
    }
  }

  lemma {:induction false} ElemsTail(k: Kind, vs: seq<Value>, c: Context, mid: seq<byte>, rest: seq<byte>)
    requires ElemsFit(k, vs)
    ensures ElemsText(k, vs, c, mid + rest) == ElemsText(k, vs, c, mid) + rest
    decreases vs
  {
    if vs != [] {
      var tail := ElemsText(k, vs[1..], After(c), mid);
      ElemsTail(k, vs[1..], After(c), mid, rest);
      TextTail(k, vs[0], c, tail);
      TextTail(k, vs[0], c, tail + rest);
      Assoc(Text(k, vs[0], c, []), tail, rest);
    }
  }

  lemma {:induction false} EntriesTail(a: Kind, b: Kind, es: seq<Entry>, c: Context,
                                       mid: seq<byte>, rest: seq<byte>)
    requires EntriesFit(a, b, es)
    ensures EntriesText(a, b, es, c, mid + rest) == EntriesText(a, b, es, c, mid) + rest
    decreases es
  {
    if es != [] {
      assert es decreases to es[0];
      var Entry(key, val) := es[0];
      var tail := EntriesText(a, b, es[1..], After(After(c)), mid);
      EntriesTail(a, b, es[1..], After(After(c)), mid, rest);
      TextTail(b, val, After(c), tail);
      TextTail(b, val, After(c), tail + rest);
      Assoc(Text(b, val, After(c), []), tail, rest);
      var second := Text(b, val, After(c), tail);
      TextTail(a, key, c, second);
      TextTail(a, key, c, second + rest);
      Assoc(Text(a, key, c, []), second, rest);
    }
  }
}
