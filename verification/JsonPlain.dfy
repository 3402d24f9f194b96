/** The JSON that a reader of the wire sees, written down without contexts: every value in its
    place, with its punctuation. The context-driven writer produces exactly this. */
module JsonPlain {
  import opened Bytes
  import opened JsonText
  import B64 = Base64

  /** A byte of punctuation. */
  function Mark(c: char): seq<byte>
    requires c < 128 as char
  {
    [c as int]
  }

  function String(t: seq<byte>): seq<byte> {
    Mark('\"') + (t + Mark('\"'))
  }

  function Figure(d: nat): byte
    requires d < 16
  {
    Ascii("0123456789abcdef")[d]
  }

  /** The digits of a number, as they are spelled. */
  function Numeral(n: nat): (s: seq<byte>) {
    (if n < 10 then [] else Numeral(n / 10)) + [Figure(n % 10)]
  }

  function Decimal(n: int): seq<byte> {
    if n < 0 then Mark('-') + Numeral(-n) else Numeral(n)
  }

  /** A byte in a string, as section 7 of RFC 8259 has it. */
  function Escape(ch: byte): seq<byte> {
    if ch == '\"' as int then Ascii("\\\"")
    else if ch == '\\' as int then Ascii("\\\\")
    else if ch == 0x08 then Ascii("\\b")
    else if ch == 0x09 then Ascii("\\t")
    else if ch == 0x0a then Ascii("\\n")
    else if ch == 0x0c then Ascii("\\f")
    else if ch == 0x0d then Ascii("\\r")
    else if ch < 0x20 then Ascii("\\u00") + [Figure(ch / 16), Figure(ch % 16)]
    else [ch]
  }

  function Escaped(s: seq<byte>): seq<byte> {
    if s == [] then [] else Escape(s[0]) + Escaped(s[1..])
  }

  /** A number is quoted where JSON wants a string: as a key. */
  function Number(n: int, key: bool): seq<byte> {
    if key then String(Decimal(n)) else Decimal(n)
  }

  /** The names the protocol gives to types. */
  function Letters(t: TType): string {
    match t
    case TBool => "tf"
    case TByte => "i8"
    case TI16 => "i16"
    case TI32 => "i32"
    case TI64 => "i64"
    case TDouble => "dbl"
    case TString => "str"
    case TStruct => "rec"
    case TMap => "map"
    case TSet => "set"
    case TList => "lst"
    case TUuid => "uid"
  }

  function Name(t: TType): seq<byte> {
    String(Ascii(Letters(t)))
  }

  /** `"id":{"type":` before the value of a field. */
  function FieldHead(id: int, t: TType): seq<byte> {
    Number(id, true) + (Mark(':') + (Mark('{') + (Name(t) + Mark(':'))))
  }

  /** `["type",count` before the elements of a list or set. */
  function ListHead(t: TType, n: nat): seq<byte> {
    Mark('[') + (Name(t) + (Mark(',') + Decimal(n)))
  }

  /** `["type","type",count,{` before the entries of a map. */
  function MapHead(a: TType, b: TType, n: nat): seq<byte> {
    Mark('[') + (Name(a) + (Mark(',') + (Name(b) + (Mark(',') + (Decimal(n) + (Mark(',') + Mark('{')))))))
  }

  /** `[1,"name",type,seqid` before the body of a message. */
  function MessageHead(name: seq<byte>, messageType: int, seqid: int): seq<byte> {
    Mark('[') + (Mark('1') + (Mark(',') + (String(Escaped(name))
      + (Mark(',') + (Decimal(messageType) + (Mark(',') + Decimal(seqid)))))))
  }

  /** `v` with `rest` behind it. */
  function Plain(k: Kind, v: Value, key: bool, rest: seq<byte>): seq<byte>
    requires Fits(k, v)
    decreases v
  {
    match k
    case KBool => Number(if v.b then 1 else 0, key) + rest
    case KInt(_) => Number(v.n, key) + rest
    case KText => String(Escaped(v.s)) + rest
    case KBinary => String(B64.Encode(v.s)) + rest
    case KStruct(kinds) => Mark('{') + PlainFields(kinds, v.fs, true, Mark('}') + rest)
    case KList(e) => ListHead(TypeOf(e), |v.vs|) + PlainElems(e, v.vs, Mark(']') + rest)
    case KSet(e) => ListHead(TypeOf(e), |v.vs|) + PlainElems(e, v.vs, Mark(']') + rest)
    case KMap(a, b) =>
      MapHead(TypeOf(a), TypeOf(b), |v.es|) + PlainEntries(a, b, v.es, true, Mark('}') + (Mark(']') + rest))
  }

  /** The fields, with commas between. */
  function PlainFields(kinds: map<int, Kind>, fs: seq<Field>, first: bool, rest: seq<byte>): seq<byte>
    requires FieldsFit(kinds, fs)
    decreases fs
  {
    if fs == [] then rest
    else
      assert fs decreases to fs[0];
      var Field(id, value) := fs[0];
      Between(first) + (FieldHead(id, TypeOf(kinds[id]))
        + Plain(kinds[id], value, false, Mark('}') + PlainFields(kinds, fs[1..], false, rest)))
  }

  function Between(first: bool): seq<byte> {
    if first then [] else Mark(',')
  }

  /** The elements, each behind a comma. */
  function PlainElems(k: Kind, vs: seq<Value>, rest: seq<byte>): seq<byte>
    requires ElemsFit(k, vs)
    decreases vs
  {
    if vs == [] then rest else Mark(',') + Plain(k, vs[0], false, PlainElems(k, vs[1..], rest))
  }

  /** The entries `key:value`, with commas between. */
  function PlainEntries(a: Kind, b: Kind, es: seq<Entry>, first: bool, rest: seq<byte>): seq<byte>
    requires EntriesFit(a, b, es)
    decreases es
  {
    if es == [] then rest
    else
      assert es decreases to es[0];
      var Entry(key, val) := es[0];
      Between(first)
      + Plain(a, key, true, Mark(':') + Plain(b, val, false, PlainEntries(a, b, es[1..], false, rest)))
  }

  // ---------------------------------------------------------------- contexts

  /** What a context puts in front of its next item. */
  function Front(c: Context): seq<byte> {
    match c
    case Base => []
    case Pair(first, colon) => if first then [] else if colon then Mark(':') else Mark(',')
    case List(first) => Between(first)
  }

  /** Whether that item is a key. */
  predicate IsKey(c: Context) {
    c.Pair? && (c.first || !c.colon)
  }

  lemma Figures(d: nat)
    requires d < 16
    ensures Figure(d) == if d < 10 then ZERO + d else 'a' as int + (d - 10)
  {
  }

  lemma {:induction false} Numerals(n: nat)
    ensures Digits(n) == Numeral(n)
  {
    hide Figure;
    Figures(n % 10);
    if n >= 10 { Numerals(n / 10); }
  }

  lemma Decimals(n: int)
    ensures IntText(n) == Decimal(n)
  {
    hide Numeral, Digits;
    Numerals(if n < 0 then -n else n);
  }

  lemma Escapes(ch: byte)
    ensures CharText(ch) == Escape(ch)
  {
    hide Figure;
    Figures(ch / 16);
    Figures(ch % 16);
  }

  lemma {:induction false} EscapesAll(s: seq<byte>)
    ensures BodyText(s) == Escaped(s)
  {
    hide CharText, Escape;
    if s != [] {
      Escapes(s[0]);
      EscapesAll(s[1..]);
    }
  }

  lemma Fronts(c: Context)
    ensures Sep(c) == Front(c) && EscapeNum(After(c)) == IsKey(c)
  {
  }

  lemma Scalars(c: Context, n: int, s: seq<byte>)
    ensures IntItem(c, n) == Front(c) + Number(n, IsKey(c))
    ensures StringItem(c, s) == Front(c) + String(Escaped(s)) && BinaryItem(c, s) == Front(c) + String(B64.Encode(s))
    ensures Opening(c, OBJECT_START) == Front(c) + Mark('{') && Opening(c, ARRAY_START) == Front(c) + Mark('[')
  {
    hide IntText, Decimal, BodyText, Escaped, B64.Encode, Sep, Front, After, IsKey;
    Fronts(c);
    Decimals(n);
    EscapesAll(s);
    Assoc(Mark('\"'), Decimal(n), Mark('\"'));
  }

  lemma {:induction false} NoEscapes(s: seq<byte>)
    requires forall i :: 0 <= i < |s| ==> s[i] >= 0x30 && s[i] != BACKSLASH
    ensures Escaped(s) == s
  {
    if s != [] {
      NoEscapes(s[1..]);
      assert Escape(s[0]) == [s[0]];
    }
  }

  /** The type of each kind of value, by its name. */
  lemma KindsSpelled(k: Kind)
    ensures Letters(TypeOf(k)) == match k
                                  case KBool => "tf"
                                  case KInt(w) => (match w case W8 => "i8" case W16 => "i16" case W32 => "i32" case W64 => "i64")
                                  case KText => "str"
                                  case KBinary => "str"
                                  case KStruct(_) => "rec"
                                  case KList(_) => "lst"
                                  case KSet(_) => "set"
                                  case KMap(_, _) => "map"
  {
  }

  lemma Spelled(t: TType)
    ensures TypeName(t) == Ascii(Letters(t))
    ensures forall i :: 0 <= i < |TypeName(t)| ==> TypeName(t)[i] >= 0x30 && TypeName(t)[i] != BACKSLASH
  {
  }

  /** Type names need no escapes. */
  lemma Names(c: Context, t: TType)
    ensures StringItem(c, TypeName(t)) == Front(c) + Name(t)
  {
    hide Front, Escaped, TypeName, Letters, StringItem, String;
    Spelled(t);
    NoEscapes(TypeName(t));
    Scalars(c, 0, TypeName(t));
  }

  // ---------------------------------------------------------------- the writer

  lemma FieldHeads(c: Context, id: int, t: TType, value: seq<byte>)
    requires IsKey(c)
    ensures FieldBeginText(c, id, t) + (Mark(':') + value) == Front(c) + (FieldHead(id, t) + value)
  {
    hide IntItem, StringItem, Opening, Number, Name, Front;
    Scalars(c, id, []);
    Scalars(After(c), id, []);
    Names(NEW_PAIR, t);
    assert Front(After(c)) == Mark(':') && Front(NEW_PAIR) == [] by { Places(c); }
    Six(Front(c), Number(id, true), Mark(':'), Mark('{'), Name(t), Mark(':'), value);
    assert [] + Name(t) == Name(t);
  }

  lemma Places(c: Context)
    requires IsKey(c)
    ensures Front(After(c)) == Mark(':') && Front(NEW_PAIR) == [] && !IsKey(After(c)) && IsKey(After(After(c)))
    ensures Front(After(After(c))) == Mark(',') && IsKey(NEW_PAIR)
  {
  }

  lemma Six(a: seq<byte>, b: seq<byte>, c: seq<byte>, d: seq<byte>, e: seq<byte>, f: seq<byte>, g: seq<byte>)
    ensures (a + b) + ((c + d) + e) + (f + g) == a + ((b + (c + (d + (e + f)))) + g)
  {
  }
  lemma ListPlaces()
    ensures Front(NEW_LIST) == [] && Front(List(false)) == Mark(',') && !IsKey(NEW_LIST) && !IsKey(List(false))
    ensures After(NEW_LIST) == List(false) == After(List(false))
  {
  }

  lemma ListHeads(c: Context, t: TType, n: nat)
    ensures ListBeginText(c, t, n) == Front(c) + ListHead(t, n)
  {
    hide IntItem, StringItem, Opening, Name, Front, IsKey, Decimal;
    ListPlaces();
    Scalars(c, 0, []);
    Scalars(List(false), n, []);
    Names(NEW_LIST, t);
    assert [] + Name(t) == Name(t);
    Assoc(Front(c), Mark('['), Name(t) + (Mark(',') + Decimal(n)));
  }

  lemma MapHeads(c: Context, a: TType, b: TType, n: nat)
    ensures MapBeginText(c, a, b, n) == Front(c) + MapHead(a, b, n)
  {
    hide IntItem, StringItem, Opening, Name, Front, IsKey, Decimal;
    ListPlaces();
    Scalars(c, 0, []);
    Scalars(List(false), n, []);
    Names(NEW_LIST, a);
    Names(List(false), b);
    assert [] + Name(a) == Name(a);
    var tail := Mark(',') + Decimal(n) + (Mark(',') + Mark('{'));
    Assoc(Mark(','), Decimal(n), Mark(',') + Mark('{'));
    Assoc(Mark(','), Name(b), tail);
    Assoc(Front(c), Mark('['), Name(a) + (Mark(',') + Name(b) + tail));
  }

  lemma One()
    ensures Decimal(1) == Mark('1')
  {
    hide Figure;
    Figures(1);
  }

  /** The header of a message, outside of everything. */
  lemma MessageHeads(name: seq<byte>, messageType: int, seqid: int)
    ensures MessageBeginText(Base, name, messageType, seqid) == MessageHead(name, messageType, seqid)
  {
    hide IntItem, StringItem, Opening, Escaped, Numeral, IsKey;
    ListPlaces();
    Scalars(Base, 0, []);
    Scalars(NEW_LIST, 1, []);
    Scalars(List(false), messageType, name);
    Scalars(List(false), seqid, []);
    One();
    assert !IsKey(List(false)) && !IsKey(NEW_LIST) && Front(Base) == [];
    hide Decimal, Front, String;
    var t, s := Mark(',') + Decimal(messageType), Mark(',') + Decimal(seqid);
    Assoc(Mark(','), Decimal(messageType), s);
    Assoc(Mark(','), String(Escaped(name)), t + s);
    assert [] + Mark('[') == Mark('[') && [] + Mark('1') == Mark('1');
  }

  /** The writer, whose contexts decide about separators and quotes one item at a time, produces
      the plain text of every value, in every context. */
  lemma {:induction false} Writes(k: Kind, v: Value, c: Context, rest: seq<byte>)
    requires Fits(k, v)
    ensures Text(k, v, c, rest) == Front(c) + Plain(k, v, IsKey(c), rest)
    decreases v, 1
  {
    hide IntItem, StringItem, BinaryItem, Opening, ListBeginText, MapBeginText, Number, String, ListHead, MapHead;
    hide FieldsText, ElemsText, EntriesText, PlainFields, PlainElems, PlainEntries, Front, IsKey, TypeOf;
    match k
    case KBool => Scalars(c, if v.b then 1 else 0, []); Assoc(Front(c), Number(if v.b then 1 else 0, IsKey(c)), rest);
    case KInt(_) => Scalars(c, v.n, []); Assoc(Front(c), Number(v.n, IsKey(c)), rest);
    case KText => Scalars(c, 0, v.s); Assoc(Front(c), String(Escaped(v.s)), rest);
    case KBinary => Scalars(c, 0, v.s); Assoc(Front(c), String(B64.Encode(v.s)), rest);
    case KStruct(kinds) =>
      Scalars(c, 0, []);
      StartOfPairs();
      WritesFields(kinds, v.fs, NEW_PAIR, Mark('}') + rest);
      Assoc(Front(c), Mark('{'), PlainFields(kinds, v.fs, true, Mark('}') + rest));
    case KList(e) => WritesList(e, v.vs, c, rest);
    case KSet(e) => WritesList(e, v.vs, c, rest);
    case KMap(a, b) =>
      MapHeads(c, TypeOf(a), TypeOf(b), |v.es|);
      var close := Mark('}') + (Mark(']') + rest);
      StartOfPairs();
      WritesEntries(a, b, v.es, NEW_PAIR, close);
      Assoc(Front(c), MapHead(TypeOf(a), TypeOf(b), |v.es|), PlainEntries(a, b, v.es, true, close));
  }

  lemma StartOfPairs()
    ensures IsKey(NEW_PAIR) && NEW_PAIR.first
  {
  }

  lemma {:induction false} WritesList(e: Kind, vs: seq<Value>, c: Context, rest: seq<byte>)
    requires ElemsFit(e, vs)
    ensures ListBeginText(c, TypeOf(e), |vs|) + ElemsText(e, vs, List(false), Mark(']') + rest)
         == Front(c) + (ListHead(TypeOf(e), |vs|) + PlainElems(e, vs, Mark(']') + rest))
    decreases vs, 1
  {
    hide ListBeginText, ListHead, ElemsText, PlainElems, Front, TypeOf;
    ListHeads(c, TypeOf(e), |vs|);
    WritesElems(e, vs, Mark(']') + rest);
    Assoc(Front(c), ListHead(TypeOf(e), |vs|), PlainElems(e, vs, Mark(']') + rest));
  }

  lemma {:induction false} WritesElems(k: Kind, vs: seq<Value>, rest: seq<byte>)
    requires ElemsFit(k, vs)
    ensures ElemsText(k, vs, List(false), rest) == PlainElems(k, vs, rest)
    decreases vs, 0
  {
    hide Text, Plain, Front, IsKey;
    if vs != [] {
      ListPlaces();
      WritesElems(k, vs[1..], rest);
      Writes(k, vs[0], List(false), PlainElems(k, vs[1..], rest));
    }
  }

  lemma {:induction false} WritesFields(kinds: map<int, Kind>, fs: seq<Field>, c: Context, rest: seq<byte>)
    requires FieldsFit(kinds, fs) && IsKey(c)
    ensures FieldsText(kinds, fs, c, rest) == PlainFields(kinds, fs, c.first, rest)
    decreases fs, 0
  {
    hide Text, Plain, FieldBeginText, FieldHead, TypeOf, IsKey, Front;
    if fs != [] {
      assert fs decreases to fs[0];
      var Field(id, value) := fs[0];
      var k, next := kinds[id], After(After(c));
      PairPlaces(c);
      WritesFields(kinds, fs[1..], next, rest);
      var tail := Mark('}') + PlainFields(kinds, fs[1..], false, rest);
      Writes(k, value, Pair(false, true), tail);
      FieldHeads(c, id, TypeOf(k), Plain(k, value, false, tail));
    }
  }

  lemma PairPlaces(c: Context)
    requires IsKey(c)
    ensures var value, next := Pair(false, true), After(After(c));
            && After(c) == value && IsKey(next) && next.Pair? && !next.first
            && Front(value) == Mark(':') && !IsKey(value) && Front(c) == Between(c.first)
  {
  }

  lemma {:induction false} WritesEntries(a: Kind, b: Kind, es: seq<Entry>, c: Context, rest: seq<byte>)
    requires EntriesFit(a, b, es) && IsKey(c)
    ensures EntriesText(a, b, es, c, rest) == PlainEntries(a, b, es, c.first, rest)
    decreases es, 0
  {
    hide Text, Plain, IsKey, Front;
    if es != [] {
      assert es decreases to es[0];
      var Entry(key, val) := es[0];
      PairPlaces(c);
      var tail := PlainEntries(a, b, es[1..], false, rest);
      WritesEntries(a, b, es[1..], After(After(c)), rest);
      Writes(b, val, After(c), tail);
      Writes(a, key, c, Mark(':') + Plain(b, val, false, tail));
    }
  }

  /** Outside of everything there is no context to speak of. */
  lemma WritesPlainJson(k: Kind, v: Value, rest: seq<byte>)
    requires Fits(k, v)
    ensures Text(k, v, Base, rest) == Plain(k, v, false, rest)
  {
    hide Text, Plain;
    Writes(k, v, Base, rest);
    assert [] + Plain(k, v, false, rest) == Plain(k, v, false, rest);
  }
}
