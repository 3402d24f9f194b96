/** The frames of THeaderTransport: varints, key/value headers, padding, client types. */
module HeaderFormat {
  import opened Bytes

  const MAX_FRAME_SIZE: int := 0x3fff_ffff
  const KEYVALUE: nat := 1
  const END_OF_IDS: nat := 2
  const UINT64_MODULUS: int := 0x1_0000_0000_0000_0000

  type Text = seq<byte>
  datatype Pair = Pair(key: Text, value: Text)

  datatype Error =
    | EndOfFile
    | TooLarge            // the frame is larger than MAX_FRAME_SIZE
    | TooSmall
    | Unreasonable        // the header section is too large
    | PastBoundary        // a varint runs into the end of the header section
    | TooLong             // a length does not fit the type it is cast to
    | Transformed         // transforms are not part of this model
    | UnknownClient
    | OutOfBounds         // the source reads or writes outside a buffer
    | Undefined           // the source shifts a word by 64 bits or more

  datatype Client =
    HeaderClient | FramedBinary | UnframedBinary | FramedCompact | UnframedCompact | UnknownType

  // ---------------------------------------------------------------- varints

  /** `writeVarint32` for a non-negative number; for a negative one it does not terminate. */
  function Varint(n: nat): (s: seq<byte>)
    ensures |s| > 0
  {
    if n < 0x80 then [n] else [n % 0x80 + 0x80] + Varint(n / 0x80)
  }

  /** The loop of `readVarint32` over the bytes up to the boundary: `scale` is two to the
      power of `shift`. */
  function VarintFrom(s: seq<byte>, scale: nat, val: nat): (r: Result<(nat, seq<byte>), Error>)
    ensures r.Ok? ==> |r.value.1| < |s|
  {
    if s == [] then Err(PastBoundary)
    else if scale >= UINT64_MODULUS then Err(Undefined)
    else
      var now := val + s[0] % 0x80 * scale % U32_MODULUS;
      if s[0] < 0x80 then Ok((now, s[1..])) else VarintFrom(s[1..], scale * 0x80, now)
  }

  /** `readVarint32`, as the unsigned word it assembles. */
  function ReadVarint(s: seq<byte>): (r: Result<(nat, seq<byte>), Error>)
    ensures r.Ok? ==> |r.value.1| < |s|
  {
    VarintFrom(s, 1, 0)
  }

  lemma ScaleSplits(n: nat, scale: nat)
    ensures n % 0x80 * scale + n / 0x80 * (scale * 0x80) == n * scale
    ensures n % 0x80 * scale <= n * scale && n / 0x80 * (scale * 0x80) <= n * scale
  {
  }

  lemma VarintStep(b: byte, s: seq<byte>, scale: nat, val: nat)
    requires scale < UINT64_MODULUS
    ensures VarintFrom([b] + s, scale, val)
         == var now := val + b % 0x80 * scale % U32_MODULUS;
            if b < 0x80 then Ok((now, s)) else VarintFrom(s, scale * 0x80, now)
  {
  }

  lemma {:induction false} VarintInverts(n: nat, rest: seq<byte>, scale: nat, val: nat)
    requires 0 < scale < U32_MODULUS && n * scale < U32_MODULUS
    ensures VarintFrom(Varint(n) + rest, scale, val) == Ok((val + n * scale, rest))
    decreases n
  {
    hide VarintFrom;
    ScaleSplits(n, scale);
    if n < 0x80 {
      VarintStep(n, rest, scale, val);
    } else {
      var q, r := n / 0x80, n % 0x80;
      AtLeast(q, scale * 0x80);
      VarintInverts(q, rest, scale * 0x80, val + r * scale);
      VarintMore(q, r, rest, scale, val, val + n * scale);
    }
  }

  lemma VarintMore(q: nat, r: nat, rest: seq<byte>, scale: nat, val: nat, total: nat)
    requires q > 0 && r < 0x80 && scale < UINT64_MODULUS && r * scale < U32_MODULUS
    requires VarintFrom(Varint(q) + rest, scale * 0x80, val + r * scale) == Ok((total, rest))
    ensures VarintFrom(Varint(q * 0x80 + r) + rest, scale, val) == Ok((total, rest))
  {
    hide VarintFrom;
    var n := q * 0x80 + r;
    assert n / 0x80 == q && n % 0x80 == r;
    Assoc([r + 0x80], Varint(q), rest);
    assert (r + 0x80) % 0x80 == r;
    VarintStep(r + 0x80, Varint(q) + rest, scale, val);
  }

  lemma AtLeast(q: nat, scale: nat)
    requires q >= 1
    ensures scale <= q * scale
  {
  }

  /** Varints invert. */
  lemma ReadsVarint(n: nat, rest: seq<byte>)
    requires n < U32_MODULUS
    ensures ReadVarint(Varint(n) + rest) == Ok((n, rest))
  {
    VarintInverts(n, rest, 1, 0);
  }

  /** One to five bytes on the wire. */
  lemma {:induction false} VarintLength(n: nat)
    requires n < U32_MODULUS
    ensures |Varint(n)| <= 5
    ensures n < 0x80 ==> |Varint(n)| == 1
    ensures n < 0x8000 ==> |Varint(n)| <= 3
  {
    hide Varint;
    var a: nat, b: nat, c: nat, d: nat := n / 0x80, n / 0x4000, n / 0x20_0000, n / 0x1000_0000;
    assert a / 0x80 == b && b / 0x80 == c && c / 0x80 == d && d < 0x80;
    OneDigitMore(n);
    OneDigitMore(a);
    OneDigitMore(b);
    OneDigitMore(c);
    OneDigitMore(d);
  }

  lemma OneDigitMore(n: nat)
    ensures |Varint(n)| == if n < 0x80 then 1 else 1 + |Varint(n / 0x80)|
  {
  }

  /** What `n >>= 7` makes of a signed number in `k` rounds. */
  function ShiftedDown(n: int, k: nat): int {
    if k == 0 then n else ShiftedDown(n, k - 1) / 0x80
  }

  lemma {:induction false} ShiftedSign(n: int, k: nat)
    ensures ShiftedDown(n, k) < 0 <==> n < 0
  {
    if k > 0 { ShiftedSign(n, k - 1); }
  }

  lemma {:induction false} ShiftsToDigit(n: nat, start: int, k: nat) returns (j: nat)
    requires n == ShiftedDown(start, k)
    ensures 0 <= ShiftedDown(start, j) < 0x80
    decreases n
  {
    if n < 0x80 { return k; }
    j := ShiftsToDigit(n / 0x80, start, k + 1);
  }

  /** The loop of `writeVarint32` comes to a last digit if and only if the number is not
      negative. */
  lemma VarintEnds(n: int)
    ensures (exists k: nat :: 0 <= ShiftedDown(n, k) < 0x80) <==> n >= 0
  {
    if n >= 0 {
      var j := ShiftsToDigit(n, n, 0);
    } else {
      forall k: nat ensures ShiftedDown(n, k) < 0 { ShiftedSign(n, k); }
    }
  }

  // ---------------------------------------------------------------- writing

  /** `writeString`. */
  function Str(s: Text): seq<byte> {
    Varint(|s|) + s
  }

  function Pairs(order: seq<Pair>): seq<byte> {
    if order == [] then [] else Str(order[0].key) + (Str(order[0].value) + Pairs(order[1..]))
  }

  /** The key/value block; nothing at all when there are no headers. */
  function Info(order: seq<Pair>): seq<byte> {
    if order == [] then [] else Varint(KEYVALUE) + (Varint(|order|) + Pairs(order))
  }

  /** The variable part of the header, without transforms. */
  function Head(protoId: nat, order: seq<Pair>): seq<byte> {
    Varint(protoId) + (Varint(0) + Info(order))
  }

  /** One to four zero bytes, up to a multiple of four. */
  function Padding(h: nat): nat {
    4 - h % 4
  }

  function Padded(h: seq<byte>): (p: seq<byte>)
    ensures |p| == |h| + Padding(|h|) && |p| % 4 == 0
  {
    h + Zeros(Padding(|h|))
  }

  /** `htons` of a number cut to 16 bits. */
  function BigEndian16(n: nat): (s: seq<byte>)
    ensures |s| == 2
  {
    [n / 0x100 % 0x100, n % 0x100]
  }

  /** Magic, flags, sequence number and header words. */
  function Common(flags: nat, seqId: u32, words: nat): (s: seq<byte>)
    ensures |s| == 10
  {
    [0x0f, 0xff] + BigEndian16(flags) + BigEndian32(seqId) + BigEndian16(words)
  }

  /** The size word: what follows it. */
  function FrameSize(protoId: nat, order: seq<Pair>, payload: seq<byte>): nat {
    10 + |Padded(Head(protoId, order))| + |payload|
  }

  /** What a header-type `flush` sends; the size word is a `uint32_t`. */
  function HeaderFrame(flags: nat, seqId: u32, protoId: nat, order: seq<Pair>, payload: seq<byte>): seq<byte> {
    var h := Padded(Head(protoId, order));
    BigEndian32(FrameSize(protoId, order, payload) % U32_MODULUS) + (Common(flags, seqId, |h| / 4) + h + payload)
  }

  lemma FrameJoins(flags: nat, seqId: u32, protoId: nat, order: seq<Pair>, payload: seq<byte>)
    ensures var h := Padded(Head(protoId, order));
            BigEndian32((10 + |h| + |payload|) % U32_MODULUS) + (Common(flags, seqId, |h| / 4) + h) + payload
            == HeaderFrame(flags, seqId, protoId, order, payload)
  {
  }

  // ---------------------------------------------------------------- reading

  function Signed16(n: nat): int {
    if n % 0x1_0000 < 0x8000 then n % 0x1_0000 else n % 0x1_0000 - 0x1_0000
  }

  /** `readString`: the length is compared before the pointer moves past it. */
  function ReadStr(s: seq<byte>): (r: Result<(Text, seq<byte>), Error>)
    ensures r.Ok? ==> |r.value.1| < |s|
  {
    var (len, t) :- ReadVarint(s);
    if len >= INT32_SIGN then Err(TooLong)
    else if len > |s| then Err(TooLong)
    else if len > |t| then Err(OutOfBounds)
    else Ok((t[..len], t[len..]))
  }

  function ReadPairs(count: nat, s: seq<byte>, headers: map<Text, Text>)
    : (r: Result<(map<Text, Text>, seq<byte>), Error>)
    ensures r.Ok? ==> |r.value.1| <= |s|
    decreases count
  {
    if count == 0 || s == [] then Ok((headers, s))
    else
      var (key, s1) :- ReadStr(s);
      var (value, s2) :- ReadStr(s1);
      ReadPairs(count - 1, s2, headers[key := value])
  }

  /** The info headers: up to padding, an unknown id or the boundary. */
  function ReadInfo(s: seq<byte>, headers: map<Text, Text>): Result<map<Text, Text>, Error>
    decreases |s|
  {
    if s == [] then Ok(headers)
    else
      var (id, s1) :- ReadVarint(s);
      if id == 0 then Ok(headers)
      else if END_OF_IDS <= id < INT32_SIGN then Ok(headers)
      else if id == KEYVALUE then
        var (count, s2) :- ReadVarint(s1);
        var (more, s3) :- ReadPairs(count, s2, headers);
        ReadInfo(s3, more)
      else ReadInfo(s1, headers)
  }

  /** The transform ids, of which only the number is kept. */
  function ReadTransforms(n: int, s: seq<byte>): (r: Result<seq<byte>, Error>)
    ensures r.Ok? ==> |r.value| <= |s|
    decreases n
  {
    if n <= 0 then Ok(s)
    else
      var (_, t) :- ReadVarint(s);
      ReadTransforms(n - 1, t)
  }

  /** `readHeaderFormat` over the header section. */
  function ReadHead(s: seq<byte>): Result<(int, map<Text, Text>), Error> {
    var (protoId, s1) :- ReadVarint(s);
    var (n, s2) :- ReadVarint(s1);
    var s3 :- ReadTransforms(Signed16(n), s2);
    var headers :- ReadInfo(s3, map[]);
    if Signed16(n) > 0 then Err(Transformed) else Ok((Signed16(protoId), headers))
  }

  predicate IsBinary(w: seq<byte>)
    requires |w| == 4
  {
    w[0] == 0x80 && w[1] == 0x01
  }

  predicate IsCompact(w: seq<byte>)
    requires |w| == 4
  {
    w[0] == 0x82 && w[1] % 0x20 == 1
  }

  predicate IsHeader(w: seq<byte>)
    requires |w| == 4
  {
    w[0] == 0x0f && w[1] == 0xff
  }

  datatype Frame =
    | Headed(flags: nat, seqId: u32, protoId: int, headers: map<Text, Text>, payload: seq<byte>)
    | Plain(client: Client, bytes: seq<byte>)

  datatype Incoming = NoFrame | Got(frame: Frame, rest: seq<byte>) | Failed(error: Error)

  function FromBigEndian16(s: seq<byte>): (n: nat)
    requires |s| == 2
    ensures n < 0x1_0000
  {
    var a: int, b: int := s[0], s[1];
    a * 0x100 + b
  }

  /** A frame in header format, from the magic on. */
  function ParseHeaded(f: seq<byte>): (r: Result<Frame, Error>)
    requires |f| >= 10
    ensures r.Ok? ==> r.value.Headed?
  {
    var words := FromBigEndian16(f[8..10]);
    if words >= 16384 then Err(Unreasonable)
    else if 4 * words > |f| then Err(Unreasonable)
    else if 10 + 4 * words > |f| then Err(OutOfBounds)
    else
      var (protoId, headers) :- ReadHead(f[10..10 + 4 * words]);
      Ok(Headed(FromBigEndian16(f[2..4]), FromBigEndian32(f[4..8]), protoId, headers, f[10 + 4 * words..]))
  }

  /** `readFrame`. */
  function ParseFrame(input: seq<byte>): Incoming {
    if input == [] then NoFrame
    else if |input| < 4 then Failed(EndOfFile)
    else
      var sz := FromBigEndian32(input[..4]);
      if IsBinary(input[..4]) then Got(Plain(UnframedBinary, input[..4]), input[4..])
      else if IsCompact(input[..4]) then Got(Plain(UnframedCompact, input[..4]), input[4..])
      else if sz > MAX_FRAME_SIZE then Failed(TooLarge)
      else if |input| < 8 then Failed(EndOfFile)
      else
        var m := input[4..8];
        if IsBinary(m) || IsCompact(m) then
          if sz < 4 then Failed(OutOfBounds)
          else if |input| < 4 + sz then Failed(EndOfFile)
          else Got(Plain(if IsBinary(m) then FramedBinary else FramedCompact, input[4..4 + sz]), input[4 + sz..])
        else if IsHeader(m) then
          if sz < 10 then Failed(TooSmall)
          else if |input| < 4 + sz then Failed(EndOfFile)
          else
            match ParseHeaded(input[4..4 + sz])
            case Err(e) => Failed(e)
            case Ok(f) => Got(f, input[4 + sz..])
        else Failed(UnknownClient)
  }

  // ---------------------------------------------------------------- the maps

  /** `order` runs through `m` once, key by key. */
  predicate Enumerates(order: seq<Pair>, m: map<Text, Text>)
  {
    if order == [] then m == map[]
    else
      var Pair(key, value) := order[0];
      key in m && m[key] == value && Enumerates(order[1..], m - {key})
  }

  function Collect(order: seq<Pair>, acc: map<Text, Text>): map<Text, Text> {
    if order == [] then acc else Collect(order[1..], acc[order[0].key := order[0].value])
  }

  lemma {:induction false} CollectsAll(order: seq<Pair>, m: map<Text, Text>, acc: map<Text, Text>)
    requires Enumerates(order, m)
    ensures Collect(order, acc) == acc + m
    decreases order
  {
    if order == [] {
      assert acc + map[] == acc;
    } else {
      var Pair(key, value) := order[0];
      CollectsAll(order[1..], m - {key}, acc[key := value]);
      assert acc[key := value] + (m - {key}) == acc + m;
    }
  }

  lemma {:induction false} EnumeratesSize(order: seq<Pair>, m: map<Text, Text>)
    requires Enumerates(order, m)
    ensures |order| == |m|
    decreases order
  {
    if order != [] {
      var key := order[0].key;
      EnumeratesSize(order[1..], m - {key});
      assert m == (m - {key})[key := m[key]];
    }
  }

  // ---------------------------------------------------------------- round trip

  predicate Short(order: seq<Pair>) {
    && |order| < INT32_SIGN
    && forall i :: 0 <= i < |order| ==> |order[i].key| < INT32_SIGN && |order[i].value| < INT32_SIGN
  }

  lemma ReadsStr(s: Text, rest: seq<byte>)
    requires |s| < INT32_SIGN
    ensures ReadStr(Str(s) + rest) == Ok((s, rest))
  {
    Assoc(Varint(|s|), s, rest);
    ReadsVarint(|s|, s + rest);
    hide ReadVarint, Varint;
    assert (s + rest)[..|s|] == s && (s + rest)[|s|..] == rest;
  }

  lemma {:induction false} ReadsPairs(order: seq<Pair>, rest: seq<byte>, acc: map<Text, Text>)
    requires Short(order)
    ensures ReadPairs(|order|, Pairs(order) + rest, acc) == Ok((Collect(order, acc), rest))
    decreases order
  {
    hide ReadStr, Str;
    if order == [] {
      assert [] + rest == rest;
    } else {
      var Pair(key, value) := order[0];
      var tail := Pairs(order[1..]) + rest;
      Assoc(Str(key), Str(value) + Pairs(order[1..]), rest);
      Assoc(Str(value), Pairs(order[1..]), rest);
      ReadsStr(key, Str(value) + tail);
      ReadsStr(value, tail);
      StrNotEmpty(key);
      ReadsPairs(order[1..], rest, acc[key := value]);
    }
  }

  lemma StrNotEmpty(s: Text)
    ensures Str(s) != []
  {
  }

  /** Padding is never taken for a header. */
  lemma StopsAtPadding(n: nat, m: map<Text, Text>)
    ensures ReadInfo(Zeros(n), m) == Ok(m)
  {
    if n > 0 {
      assert Zeros(n)[0] == 0;
      assert ReadVarint(Zeros(n)) == Ok((0, Zeros(n)[1..]));
    }
  }

  lemma ReadsInfo(order: seq<Pair>, pad: nat)
    requires Short(order)
    ensures ReadInfo(Info(order) + Zeros(pad), map[]) == Ok(Collect(order, map[]))
  {
    hide ReadVarint, ReadPairs, Varint, Pairs;
    StopsAtPadding(pad, Collect(order, map[]));
    if order == [] {
      assert [] + Zeros(pad) == Zeros(pad);
    } else {
      Assoc(Varint(KEYVALUE), Varint(|order|) + Pairs(order), Zeros(pad));
      Assoc(Varint(|order|), Pairs(order), Zeros(pad));
      ReadsVarint(KEYVALUE, Varint(|order|) + (Pairs(order) + Zeros(pad)));
      ReadsVarint(|order|, Pairs(order) + Zeros(pad));
      ReadsPairs(order, Zeros(pad), map[]);
    }
  }

  lemma ReadsHead(protoId: nat, order: seq<Pair>)
    requires protoId < 0x8000 && Short(order)
    ensures ReadHead(Padded(Head(protoId, order))) == Ok((protoId, Collect(order, map[])))
  {
    hide ReadVarint, ReadInfo, Varint, Info;
    var pad := Zeros(Padding(|Head(protoId, order)|));
    Assoc(Varint(protoId), Varint(0) + Info(order), pad);
    Assoc(Varint(0), Info(order), pad);
    ReadsVarint(protoId, Varint(0) + (Info(order) + pad));
    ReadsVarint(0, Info(order) + pad);
    ReadsInfo(order, |pad|);
  }

  lemma Digits16(a: nat, b: nat, c: nat, n: nat)
    requires b < 0x100 && c < 0x100 && n == (a * 0x100 + b) * 0x100 + c
    ensures n % 0x1_0000 == b * 0x100 + c
  {
  }

  lemma BigEndian16Inverse(n: nat)
    ensures FromBigEndian16(BigEndian16(n)) == n % 0x1_0000
  {
    Digits16(n / 0x100 / 0x100, n / 0x100 % 0x100, n % 0x100, n);
  }

  /** The fields of the fixed part are where the reader looks for them. */
  lemma CommonFields(flags: nat, seqId: u32, words: nat, tail: seq<byte>)
    ensures var f := Common(flags, seqId, words) + tail;
            && f[..4] == [0x0f, 0xff] + BigEndian16(flags)
            && f[2..4] == BigEndian16(flags) && f[4..8] == BigEndian32(seqId)
            && f[8..10] == BigEndian16(words) && f[10..] == tail
  {
  }

  /** Where the frame is in what the reader sees. */
  lemma FrameParts(input: seq<byte>, size: seq<byte>, f: seq<byte>, more: seq<byte>)
    requires |size| == 4 && |f| >= 4 && input == size + f + more
    ensures |input| == 4 + |f| + |more| && input[..4] == size && input[4..8] == f[..4]
    ensures input[4..4 + |f|] == f && input[4 + |f|..] == more
  {
  }

  /** Reading back what a header-type `flush` sent restores flags, sequence number, protocol
      id, the whole map and the payload, and leaves what stood behind the frame, exactly when
      the header section is below 65536 bytes and the frame within the maximum. */
  lemma RoundTrip(flags: nat, seqId: u32, protoId: nat, m: map<Text, Text>, order: seq<Pair>,
                  payload: seq<byte>, more: seq<byte>)
    requires flags < 0x1_0000 && protoId < 0x8000
    requires Enumerates(order, m) && Short(order)
    ensures ParseFrame(HeaderFrame(flags, seqId, protoId, order, payload) + more)
         == Got(Headed(flags, seqId, protoId, m, payload), more)
       <==> FrameSize(protoId, order, payload) <= MAX_FRAME_SIZE && |Padded(Head(protoId, order))| < 0x1_0000
  {
    hide Head, ReadHead, BigEndian16, FromBigEndian16, BigEndian32, FromBigEndian32, Common, Collect;
    hide Enumerates, ParseFrame, Padded, Short;
    var h := Padded(Head(protoId, order));
    var size := FrameSize(protoId, order, payload);
    var f := Common(flags, seqId, |h| / 4) + h + payload;
    Assoc(Common(flags, seqId, |h| / 4), h, payload);
    CommonFields(flags, seqId, |h| / 4, h + payload);
    ReadsHead(protoId, order);
    CollectsAll(order, m, map[]);
    assert map[] + m == m;
    var word := size % U32_MODULUS;
    FrameParts(BigEndian32(word) + f + more, BigEndian32(word), f, more);
    BigEndianInverse(word);
    BigEndianInverse(seqId);
    BigEndian16Inverse(flags);
    BigEndian16Inverse(|h| / 4);
    if size >= U32_MODULUS {
      WrappedNotFramed(BigEndian32(word) + f + more, word, more);
    } else {
      Conclude(BigEndian32(word) + f + more, size, flags, seqId, protoId, h, m, payload, more);
    }
  }

  /** A size word that is too small leaves more than what stood behind the frame. */
  lemma WrappedNotFramed(input: seq<byte>, word: u32, more: seq<byte>)
    requires |input| > 4 + word + |more| && FromBigEndian32(input[..4]) == word
    ensures ParseFrame(input).Got? ==> ParseFrame(input).rest != more || ParseFrame(input).frame.Plain?
  {
  }

  lemma Conclude(input: seq<byte>, size: u32, flags: nat, seqId: u32, protoId: nat, h: seq<byte>,
                 m: map<Text, Text>, payload: seq<byte>, more: seq<byte>)
    requires |input| >= 4 + size && size == 10 + |h| + |payload| && |h| % 4 == 0
    requires input[..4] == BigEndian32(size) && FromBigEndian32(input[..4]) == size
    requires input[4..8] == [0x0f, 0xff] + BigEndian16(flags)
    requires input[4 + size..] == more
    requires var f := input[4..4 + size];
             && FromBigEndian16(f[2..4]) == flags && FromBigEndian32(f[4..8]) == seqId
             && FromBigEndian16(f[8..10]) == |h| / 4 % 0x1_0000
             && f[10..] == h + payload
    requires ReadHead(h) == Ok((protoId, m))
    ensures ParseFrame(input) == Got(Headed(flags, seqId, protoId, m, payload), more)
       <==> size <= MAX_FRAME_SIZE && |h| < 0x1_0000
  {
    hide *;
    if size > MAX_FRAME_SIZE {
      TooLargeFails(input, size);
    } else {
      InHeaderBranch(input, size, flags);
      HeadedRoundTrip(input[4..4 + size], flags, seqId, protoId, h, m, payload);
    }
  }

  /** A size word above the maximum never yields a header frame. */
  lemma TooLargeFails(input: seq<byte>, size: u32)
    requires |input| >= 4 && FromBigEndian32(input[..4]) == size > MAX_FRAME_SIZE
    ensures ParseFrame(input).Failed? || (ParseFrame(input).Got? && ParseFrame(input).frame.Plain?)
  {
  }

  lemma SizeNotMagic(size: u32)
    requires size <= MAX_FRAME_SIZE
    ensures !IsBinary(BigEndian32(size)) && !IsCompact(BigEndian32(size))
  {
  }

  lemma InHeaderBranch(input: seq<byte>, size: u32, flags: nat)
    requires |input| >= 4 + size >= 14 && size <= MAX_FRAME_SIZE && input[..4] == BigEndian32(size)
    requires FromBigEndian32(input[..4]) == size && input[4..8] == [0x0f, 0xff] + BigEndian16(flags)
    ensures ParseFrame(input) == match ParseHeaded(input[4..4 + size])
                                 case Err(e) => Failed(e)
                                 case Ok(f) => Got(f, input[4 + size..])
  {
  }

  lemma HeadedRoundTrip(f: seq<byte>, flags: nat, seqId: u32, protoId: nat, h: seq<byte>,
                        m: map<Text, Text>, payload: seq<byte>)
    requires |f| == 10 + |h| + |payload| && |h| % 4 == 0
    requires FromBigEndian16(f[2..4]) == flags && FromBigEndian32(f[4..8]) == seqId
    requires FromBigEndian16(f[8..10]) == |h| / 4 % 0x1_0000
    requires f[10..] == h + payload
    requires ReadHead(h) == Ok((protoId, m))
    ensures ParseHeaded(f) == Ok(Headed(flags, seqId, protoId, m, payload)) <==> |h| < 0x1_0000
  {
    hide ReadHead, FromBigEndian16, FromBigEndian32;
    Middle(f[..10], h, payload);
    assert f == f[..10] + h + payload;
    if |h| >= 0x1_0000 && ParseHeaded(f).Ok? {
      var words := FromBigEndian16(f[8..10]);
      assert 4 * words < |h|;
      assert |f[10 + 4 * words..]| > |payload|;
    }
  }

  predicate Looks(client: Client, w: seq<byte>)
    requires |w| == 4
  {
    match client
    case FramedBinary => IsBinary(w)
    case FramedCompact => IsCompact(w)
    case _ => false
  }

  /** A framed payload is given back, and its protocol recognised, exactly when it is within
      the maximum and starts like a message of that protocol. */
  lemma FramedRoundTrip(client: Client, payload: seq<byte>, more: seq<byte>)
    requires client.FramedBinary? || client.FramedCompact?
    requires |payload| < U32_MODULUS
    ensures ParseFrame(BigEndian32(|payload|) + payload + more) == Got(Plain(client, payload), more)
       <==> 4 <= |payload| <= MAX_FRAME_SIZE && Looks(client, payload[..4])
  {
    hide BigEndian32, FromBigEndian32, ParseHeaded;
    var input := BigEndian32(|payload|) + payload + more;
    BigEndianInverse(|payload|);
    if |payload| >= 4 {
      FrameParts(input, BigEndian32(|payload|), payload, more);
    } else {
      Middle([], BigEndian32(|payload|), payload + more);
      assert input == [] + BigEndian32(|payload|) + (payload + more);
    }
    if |payload| <= MAX_FRAME_SIZE { SizeNotMagic(|payload|); }
  }

  /** A frame that starts like a message of the binary protocol, 80 01, or of the compact one, 82
      and a version of 1 in five bits, is known by that, and given back whole. */
  lemma FramedMessages(p: seq<byte>, more: seq<byte>)
    requires 4 <= |p| <= MAX_FRAME_SIZE
    ensures p[0] == 0x80 && p[1] == 0x01
            ==> ParseFrame(BigEndian32(|p|) + p + more) == Got(Plain(FramedBinary, p), more)
    ensures p[0] == 0x82 && p[1] % 0x20 == 0x01
            ==> ParseFrame(BigEndian32(|p|) + p + more) == Got(Plain(FramedCompact, p), more)
  {
    FramedRoundTrip(FramedBinary, p, more);
    FramedRoundTrip(FramedCompact, p, more);
    hide ParseFrame, BigEndian32;
  }

  /** So is a message without a frame, by what stands where the size would be; its first four
      bytes are given back and the rest is left. */
  lemma UnframedMessages(input: seq<byte>)
    requires |input| >= 4
    ensures input[0] == 0x80 && input[1] == 0x01
            ==> ParseFrame(input) == Got(Plain(UnframedBinary, input[..4]), input[4..])
    ensures input[0] == 0x82 && input[1] % 0x20 == 0x01
            ==> ParseFrame(input) == Got(Plain(UnframedCompact, input[..4]), input[4..])
  {
  }

  /** Anything else in a frame must be the header format, 0f ff, and is refused otherwise. */
  lemma OtherFrames(p: seq<byte>, more: seq<byte>)
    requires 4 <= |p| <= MAX_FRAME_SIZE
    requires !(p[0] == 0x80 && p[1] == 0x01) && !(p[0] == 0x82 && p[1] % 0x20 == 0x01)
    ensures var r := ParseFrame(BigEndian32(|p|) + p + more);
            if p[0] != 0x0f || p[1] != 0xff then r == Failed(UnknownClient)
            else if |p| < 10 then r == Failed(TooSmall)
            else r == match ParseHeaded(p) case Err(e) => Failed(e) case Ok(f) => Got(f, more)
  {
    hide ParseHeaded;
    var input := BigEndian32(|p|) + p + more;
    FrameParts(input, BigEndian32(|p|), p, more);
    SizeNotMagic(|p|);
    BigEndianInverse(|p|);
    hide BigEndian32, FromBigEndian32;
  }

  /** Frames above the maximum, and those that end early. */
  lemma ShortAndLong(word: seq<byte>, rest: seq<byte>)
    requires |word| == 4 && word[0] != 0x80 && word[0] != 0x82
    ensures FromBigEndian32(word) > 0x3fff_ffff ==> ParseFrame(word + rest) == Failed(TooLarge)
    ensures FromBigEndian32(word) <= 0x3fff_ffff && |rest| < 4 ==> ParseFrame(word + rest) == Failed(EndOfFile)
    ensures |rest| >= 4 && |rest| < FromBigEndian32(word) <= 0x3fff_ffff && FromBigEndian32(word) >= 10
            && ((rest[0] == 0x80 && rest[1] == 0x01) || (rest[0] == 0x82 && rest[1] % 0x20 == 0x01)
                || (rest[0] == 0x0f && rest[1] == 0xff))
            ==> ParseFrame(word + rest) == Failed(EndOfFile)
    ensures ParseFrame(word[1..]) == Failed(EndOfFile) && ParseFrame([]) == NoFrame
  {
    hide FromBigEndian32, ParseHeaded;
    var input := word + rest;
    assert input[..4] == word;
    if |rest| >= 4 { assert input[4..8] == rest[..4]; }
  }

  /** A block of an unknown kind ends the headers like padding does; a string that is longer than
      the section, a varint that does not end in it, and transforms are errors. */
  lemma OddHeaders(id: byte, n: byte, s: seq<byte>, headers: map<Text, Text>)
    ensures id == 0 || 2 <= id < 0x80 ==> ReadInfo([id] + s, headers) == Ok(headers)
    ensures n < 0x80 && |s| < n ==> ReadStr([n] + s) == Err(if n > |s| + 1 then TooLong else OutOfBounds)
    ensures n < 0x80 && |s| >= n ==> ReadStr([n] + s) == Ok((s[..n], s[n..]))
    ensures ReadInfo([], headers) == Ok(headers) && ReadVarint([]) == Err(PastBoundary)
  {
    assert ([id] + s)[1..] == s && ([n] + s)[1..] == s;
    if id < 0x80 { assert ReadVarint([id] + s) == Ok((id, s)); }
    if n < 0x80 { assert ReadVarint([n] + s) == Ok((n, s)); }
  }

  /** The protocol id and the number of transforms are cut to signed 16-bit numbers. Transforms are
      an error of the model, a negative number of them is none, and no block behind is no header. */
  lemma ShortHeads(id: nat, n: nat, ids: seq<byte>)
    requires id < 0x1_0000_0000 && n < 0x1_0000_0000 && forall i :: 0 <= i < |ids| ==> ids[i] < 0x80
    ensures var low, count := id % 0x1_0000, n % 0x1_0000;
            var r := ReadHead(Varint(id) + (Varint(n) + ids));
            && (ids == [] && (count == 0 || count >= 0x8000) ==>
                  r == Ok((if low < 0x8000 then low else low - 0x1_0000, map[])))
            && (0 < count < 0x8000 && |ids| == count ==> r == Err(Transformed))
            && (0 < count < 0x8000 && |ids| < count ==> r == Err(PastBoundary))
  {
    hide Varint, ReadVarint, ReadInfo;
    ReadsVarint(id, Varint(n) + ids);
    ReadsVarint(n, ids);
    NoInfo(map[]);
    if 0 < n % 0x1_0000 < 0x8000 && |ids| <= n % 0x1_0000 { PassesTransforms(n % 0x1_0000, ids); }
  }

  lemma NoInfo(headers: map<Text, Text>)
    ensures ReadInfo([], headers) == Ok(headers)
  {
  }

  lemma {:induction false} PassesTransforms(n: nat, ids: seq<byte>)
    requires |ids| <= n && forall i :: 0 <= i < |ids| ==> ids[i] < 0x80
    ensures ReadTransforms(n, ids) == if |ids| == n then Ok([]) else Err(PastBoundary)
    decreases n
  {
    if n > 0 && ids != [] {
      assert ReadVarint(ids) == Ok((ids[0], ids[1..]));
      PassesTransforms(n - 1, ids[1..]);
    }
  }

  /** A frame whose header section is said to have 16384 words or more, or more than the frame has
      room for, is refused. Pairs end with the section, however many were announced. */
  lemma HeaderSizes(f: seq<byte>, count: nat, headers: map<Text, Text>)
    requires |f| >= 10
    ensures var f2: int, f3: int, f8: int, f9: int := f[2], f[3], f[8], f[9];
            var words := f8 * 0x100 + f9;
            && (words >= 0x4000 || 4 * words > |f| ==> ParseHeaded(f) == Err(Unreasonable))
            && (words < 0x4000 && 4 * words <= |f| < 10 + 4 * words ==> ParseHeaded(f) == Err(OutOfBounds))
            && (10 + 4 * words <= |f| && words < 0x4000 ==>
                  ParseHeaded(f) == match ReadHead(f[10..10 + 4 * words])
                                    case Err(e) => Err(e)
                                    case Ok((id, m)) =>
                                      Ok(Headed(f2 * 0x100 + f3, FromBigEndian32(f[4..8]), id, m, f[10 + 4 * words..])))
    ensures ReadPairs(count, [], headers) == Ok((headers, []))
  {
    hide ReadHead, FromBigEndian32;
    assert f[8..10] == [f[8], f[9]] && f[2..4] == [f[2], f[3]];
  }

  lemma {:induction false} OpenVarint(s: seq<byte>, scale: nat, val: nat)
    requires scale > 0 && forall i :: 0 <= i < |s| ==> s[i] >= 0x80
    ensures VarintFrom(s, scale, val) == Err(PastBoundary) || VarintFrom(s, scale, val) == Err(Undefined)
    decreases s
  {
    if s != [] && scale < UINT64_MODULUS {
      OpenVarint(s[1..], scale * 0x80, val + s[0] % 0x80 * scale % U32_MODULUS);
    }
  }

  // ---------------------------------------------------------------- byte for byte

  /** The number that seven-bit digits stand for, the lowest first. */
  function Value(digits: seq<byte>): nat {
    if digits == [] then 0 else digits[0] % 0x80 + 0x80 * Value(digits[1..])
  }

  /** A varint is its number in digits of seven bits, of which all but the last have the high bit. */
  lemma {:induction false} VarintDigits(n: nat)
    ensures Value(Varint(n)) == n
    ensures forall i :: 0 <= i < |Varint(n)| ==> (Varint(n)[i] < 0x80 <==> i == |Varint(n)| - 1)
    decreases n
  {
    if n >= 0x80 {
      VarintDigits(n / 0x80);
      var digit: byte, more := n % 0x80 + 0x80, Varint(n / 0x80);
      assert Varint(n) == [digit] + more && Varint(n)[1..] == more;
    } else {
      assert Varint(n) == [n] && Value(Varint(n)[1..]) == 0;
    }
  }

  /** A frame, byte for byte: its size, 0f ff, flags, sequence number, the number of words of its
      header section, that section padded by one to four zeros, and the payload. */
  lemma FrameBytes(flags: nat, seqId: u32, protoId: nat, order: seq<Pair>, payload: seq<byte>)
    requires flags < 0x1_0000
    ensures var h := Head(protoId, order);
            var pad := 4 - |h| % 4;
            var words := (|h| + pad) / 4;
            HeaderFrame(flags, seqId, protoId, order, payload)
            == BigEndian32((10 + 4 * words + |payload|) % 0x1_0000_0000)
               + ([0x0f, 0xff, flags / 0x100, flags % 0x100] + BigEndian32(seqId)
                  + [words / 0x100 % 0x100, words % 0x100] + (h + Zeros(pad)) + payload)
  {
    hide Head, BigEndian32;
    var h := Head(protoId, order);
    var words := |Padded(h)| / 4;
    assert Common(flags, seqId, words)
        == [0x0f, 0xff, flags / 0x100, flags % 0x100] + BigEndian32(seqId) + [words / 0x100 % 0x100, words % 0x100];
  }

  /** A header section with one short pair: protocol id, no transforms, the block of pairs, one
      pair, key and value with their lengths. */
  lemma OneHeader(protoId: nat, key: Text, value: Text)
    requires protoId < 0x80 && |key| < 0x80 && |value| < 0x80
    ensures Head(protoId, [Pair(key, value)]) == [protoId] + [0, 1, 1] + ([|key|] + key + ([|value|] + value))
    ensures Head(protoId, []) == [protoId, 0]
  {
    OneDigit(protoId);
    OneDigit(0);
    OneDigit(1);
    OneDigit(|key|);
    OneDigit(|value|);
    hide Varint;
    var order := [Pair(key, value)];
    assert order[1..] == [] && Pairs([]) == [];
    var pairs := [|key|] + key + ([|value|] + value);
    assert Pairs(order) == pairs by {
      assert Str(value) + [] == Str(value);
      Assoc([|key|], key, [|value|] + value);
    }
    assert Info(order) == [1] + ([1] + pairs);
    assert [0] + ([1] + ([1] + pairs)) == [0, 1, 1] + pairs;
    Assoc([protoId], [0, 1, 1], pairs);
  }

  lemma OneDigit(n: nat)
    requires n < 0x80
    ensures Varint(n) == [n]
  {
  }

  // ---------------------------------------------------------------- the size estimate

  /** `getMaxWriteHeadersSize` before its cast. */
  function MaxHeaders(order: seq<Pair>): nat {
    if order == [] then 0
    else 5 + 5 + |order[0].key| + |order[0].value| + MaxHeaders(order[1..])
  }

  /** The estimate without wrap-around: two varints, four bytes of padding, the headers, the
      payload and the common section. */
  function Estimate(order: seq<Pair>, payload: seq<byte>): nat {
    2 * 5 + 4 + MaxHeaders(order) + |payload| + 10
  }

  /** `maxSzHbo`, the `uint32_t` compared with the size of the buffer; the cast inside throws
      when the headers alone do not fit. */
  function CheckedEstimate(order: seq<Pair>, payload: seq<byte>): Option<u32> {
    if MaxHeaders(order) >= U32_MODULUS then None else Some(Estimate(order, payload) % U32_MODULUS)
  }

  /** What `flush` puts into the buffer: everything but the payload. */
  function Assembled(protoId: nat, order: seq<Pair>): nat {
    4 + 10 + |Padded(Head(protoId, order))|
  }

  /** The lengths that `writeString` casts. */
  predicate StringsFit(order: seq<Pair>) {
    order == [] || (|order[0].key| < INT32_SIGN && |order[0].value| < INT32_SIGN && StringsFit(order[1..]))
  }

  lemma {:induction false} StringsShort(order: seq<Pair>)
    requires MaxHeaders(order) < U32_MODULUS
    ensures 10 * |order| <= MaxHeaders(order)
    ensures StringsFit(order) <==> Short(order)
    decreases order
  {
    if order != [] {
      StringsShort(order[1..]);
      assert forall i :: 1 <= i < |order| ==> order[i] == order[1..][i - 1];
      assert forall i :: 0 <= i < |order| - 1 ==> order[1..][i] == order[i + 1];
    }
  }

  /** Each header takes at least eight bytes less than was put aside for a one-byte pair of
      lengths, and a length takes all five bytes only for a string of 256 MiB. */
  lemma {:induction false} PairsBounds(order: seq<Pair>)
    requires MaxHeaders(order) < U32_MODULUS
    ensures |Pairs(order)| <= MaxHeaders(order) <= |Pairs(order)| + 8 * |order|
    ensures order == [] ==> MaxHeaders(order) == 0
    ensures 2 * |order| - (MaxHeaders(order) - |Pairs(order)|) <= MaxHeaders(order) / 0x1000_0000
  {
    hide Varint;
    if order != [] {
      PairsBounds(order[1..]);
      StrBounds(order[0].key);
      StrBounds(order[0].value);
    }
  }

  lemma StrBounds(s: Text)
    requires |s| < U32_MODULUS
    ensures 1 + |s| <= |Str(s)| <= 5 + |s|
    ensures |s| < 0x1000_0000 ==> |Str(s)| <= 4 + |s|
  {
    VarintLength(|s|);
    if |s| < 0x1000_0000 { FourBytes(|s|); }
  }

  lemma FourBytes(n: nat)
    requires n < 0x1000_0000
    ensures |Varint(n)| <= 4
  {
    if n >= 0x80 {
      var a, b := n / 0x80, n / 0x80 / 0x80;
      assert |Varint(n)| == 1 + |Varint(a)|;
      if a >= 0x80 {
        assert |Varint(a)| == 1 + |Varint(b)|;
        if b >= 0x80 { assert |Varint(b)| == 1 + |Varint(b / 0x80)| && b / 0x80 < 0x80; }
      }
    }
  }

  /** A map has at most one empty key. */
  lemma {:induction false} KeysCost(order: seq<Pair>, m: map<Text, Text>)
    requires Enumerates(order, m)
    ensures MaxHeaders(order) >= 11 * |order| - (if [] in m then 1 else 0)
    decreases order
  {
    if order != [] {
      KeysCost(order[1..], m - {order[0].key});
    }
  }

  /** What is assembled never exceeds the estimate it is checked with, unless the estimate
      has wrapped round; and then it always does. */
  lemma EstimateSound(protoId: nat, order: seq<Pair>, m: map<Text, Text>, payload: seq<byte>)
    requires protoId < 0x8000 && Enumerates(order, m) && |payload| <= MAX_FRAME_SIZE
    requires CheckedEstimate(order, payload).Some?
    ensures Assembled(protoId, order) <= CheckedEstimate(order, payload).value
       <==> Estimate(order, payload) < U32_MODULUS
  {
    PairsBounds(order);
    KeysCost(order, m);
    AssembledBounds(protoId, order);
    hide Varint, Pairs, Enumerates, MaxHeaders, Assembled;
    Arithmetic(Assembled(protoId, order), |Pairs(order)|, MaxHeaders(order), |order|, |payload|);
  }

  lemma Arithmetic(a: nat, pairs: nat, max: nat, n: nat, have: nat)
    requires max < U32_MODULUS && have <= MAX_FRAME_SIZE
    requires pairs <= max <= pairs + 8 * n && 11 * n - 1 <= max
    requires 2 * n - (max - pairs) <= max / 0x1000_0000
    requires n == 0 ==> max == 0 && a <= 22
    requires n > 0 ==> 19 + pairs <= a <= (if n < 0x80 then 24 else 28) + pairs
    ensures a <= (24 + max + have) % U32_MODULUS <==> 24 + max + have < U32_MODULUS
  {
  }

  lemma AssembledBounds(protoId: nat, order: seq<Pair>)
    requires protoId < 0x8000 && |order| < U32_MODULUS
    ensures 17 <= Assembled(protoId, order) <= 22 || order != []
    ensures order != [] ==> 19 + |Pairs(order)| <= Assembled(protoId, order)
                            <= (if |order| < 0x80 then 24 else 28) + |Pairs(order)|
  {
    hide Varint, Pairs;
    VarintLength(protoId);
    VarintLength(0);
    VarintLength(KEYVALUE);
    VarintLength(|order|);
  }

  // ---------------------------------------------------------------- an estimate that wraps

  /** `n` headers with one-byte keys and values of just under 256 MiB. */
  function Bulky(n: nat): seq<Pair>
    requires n <= 0x100
  {
    seq(n, i requires 0 <= i < n => Pair([i], Zeros(0xfff_ffff)))
  }

  lemma {:induction false} BulkySize(order: seq<Pair>)
    requires forall i :: 0 <= i < |order| ==> |order[i].key| == 1 && |order[i].value| == 0xfff_ffff
    ensures MaxHeaders(order) == |order| * 0x1000_000a
  {
    if order != [] { BulkySize(order[1..]); }
  }

  /** Fifteen such headers and 256 MiB of payload: an estimate of 174 bytes for more than
      3.7 GiB. */
  lemma EstimateWraps(payload: seq<byte>)
    requires |payload| == 0x1000_0000
    ensures CheckedEstimate(Bulky(15), payload) == Some(174)
    ensures Assembled(0, Bulky(15)) > 0xf000_0000
  {
    hide Varint, MaxHeaders, Pairs;
    var order := Bulky(15);
    forall i | 0 <= i < 15 ensures |order[i].key| == 1 && |order[i].value| == 0xfff_ffff {
      assert order[i] == Pair([i], Zeros(0xfff_ffff));
    }
    BulkySize(order);
    PairsBounds(Bulky(15));
  }
}
