/** The chunked event log: the layout the writer thread gives a file, and the resumable
    reader that takes it apart again (TFileTransport). */
module FileLog {
  import opened Bytes

  // ---------------------------------------------------------------- layout

  /** A payload handed to `write`: its length is a `uint32_t`. */
  type Event = e: seq<byte> | |e| < U32_MODULUS

  /** The two settings the layout depends on; `setChunkSize` refuses 0. */
  datatype Config = Config(chunkSize: u32, maxEventSize: u32) {
    predicate Valid() { chunkSize > 0 }
  }

  /** What `enqueueEvent` lets into the queue. */
  predicate Enqueueable(cfg: Config, e: Event) {
    !(cfg.maxEventSize > 0 && |e| > cfg.maxEventSize) && |e| != 0
  }

  /** `eventSize_`: payload plus length prefix, in 32-bit arithmetic. */
  function RecordSize(e: Event): u32 {
    (|e| + 4) % U32_MODULUS
  }

  /** The length prefix did not wrap `eventSize_` round. */
  predicate Unwrapped(e: Event) {
    |e| + 4 < U32_MODULUS
  }

  /** The buffer `enqueueEvent` builds. */
  function Record(e: Event): (s: seq<byte>)
    ensures |s| == |e| + 4
  {
    LittleEndian32(|e|) + e
  }

  /** The writer skips these with an error message. */
  predicate Oversized(cfg: Config, e: Event) {
    || (cfg.maxEventSize > 0 && RecordSize(e) > cfg.maxEventSize)
    || RecordSize(e) > cfg.chunkSize
  }

  /** Zero bytes put in front of a record of `size` bytes that would start at `off`. */
  function Padding(chunk: nat, off: nat, size: nat): (p: nat)
    requires chunk > 0
  {
    if size == 0 || off / chunk == (off + size - 1) / chunk then 0
    else chunk - off % chunk
  }

  /** `(int32_t)` applied to the padding: `new uint8_t[n]` throws when it comes out negative. */
  predicate PaddingOverflows(chunk: nat, off: nat, size: nat)
    requires chunk > 0
  {
    Padding(chunk, off, size) > INT32_MAX
  }

  /** The bytes one dequeued event adds to a file that ends at `off`. */
  function Emit(cfg: Config, off: nat, e: Event): seq<byte>
    requires cfg.Valid()
  {
    if Oversized(cfg, e) then []
    else Zeros(Padding(cfg.chunkSize, off, RecordSize(e))) + Record(e)[..RecordSize(e)]
  }

  /** The bytes a sequence of dequeued events adds to a file that ends at `off`. */
  function LayoutFrom(cfg: Config, off: nat, es: seq<Event>): seq<byte>
    requires cfg.Valid()
    decreases es
  {
    if es == [] then []
    else
      var first := Emit(cfg, off, es[0]);
      first + LayoutFrom(cfg, off + |first|, es[1..])
  }

  /** The padding before an event cannot be allocated: the exception ends the process. */
  predicate StopsWriter(cfg: Config, off: nat, e: Event)
    requires cfg.Valid()
  {
    !Oversized(cfg, e) && PaddingOverflows(cfg.chunkSize, off, RecordSize(e))
  }

  /** The writer is stopped by one of some events. */
  predicate WriterAborts(cfg: Config, off: nat, es: seq<Event>)
    requires cfg.Valid()
    decreases es
  {
    es != [] &&
    (StopsWriter(cfg, off, es[0]) || WriterAborts(cfg, off + |Emit(cfg, off, es[0])|, es[1..]))
  }

  /** The events that are not dropped, in order. */
  function Kept(cfg: Config, es: seq<Event>): seq<Event> {
    if es == [] then []
    else if Oversized(cfg, es[0]) then Kept(cfg, es[1..])
    else [es[0]] + Kept(cfg, es[1..])
  }

  /** The file offset at which each kept record begins. */
  function Starts(cfg: Config, off: nat, es: seq<Event>): seq<nat>
    requires cfg.Valid()
    decreases es
  {
    if es == [] then []
    else
      var next := off + |Emit(cfg, off, es[0])|;
      if Oversized(cfg, es[0]) then Starts(cfg, next, es[1..])
      else [off + Padding(cfg.chunkSize, off, RecordSize(es[0]))] + Starts(cfg, next, es[1..])
  }

  // ---------------------------------------------------------------- parser

  /** What is carried from one byte to the next: a partial size, or a partial payload. */
  datatype Parser =
    | Sizing(buf: seq<byte>)
    | Filling(size: nat, got: seq<byte>)
  {
    predicate Valid() {
      match this
      case Sizing(buf) => |buf| < 4
      case Filling(size, got) => |got| < size
    }
  }

  datatype Outcome = Eof | Corrupt(at: nat) | Got(event: seq<byte>, next: nat)

  /** `isEventCorrupted`, with `p` the offset just after the size word. */
  predicate IsEventCorrupted(cfg: Config, p: nat, size: nat)
    requires cfg.Valid() && p >= 4
  {
    || (cfg.maxEventSize > 0 && size > cfg.maxEventSize)
    || size > cfg.chunkSize
    || (p - 4) / cfg.chunkSize != (p + size - 1) / cfg.chunkSize
  }

  /** One call of `readEvent`, as a function of absolute file offset alone: how the bytes
      arrived in the read buffer does not appear in it. */
  function Parse(cfg: Config, file: seq<byte>, p: nat, st: Parser): (o: Outcome)
    requires cfg.Valid() && p <= |file| && st.Valid() && (st.Sizing? ==> |st.buf| <= p)
    ensures o.Got? ==> p < o.next <= |file|
    decreases |file| - p
  {
    if p == |file| then Eof
    else
      match st
      case Sizing(buf) =>
        if buf == [] && p / cfg.chunkSize != (p + 3) / cfg.chunkSize then
          Parse(cfg, file, p + 1, st)
        else
          var word := buf + [file[p]];
          if |word| < 4 then Parse(cfg, file, p + 1, Sizing(word))
          else
            var size := FromLittleEndian32(word);
            if size == 0 then Parse(cfg, file, p + 1, Sizing([]))
            else if IsEventCorrupted(cfg, p + 1, size) then Corrupt(p + 1)
            else Parse(cfg, file, p + 1, Filling(size, []))
      case Filling(size, got) =>
        var more := got + [file[p]];
        if |more| == size then Got(more, p + 1)
        else Parse(cfg, file, p + 1, Filling(size, more))
  }

  /** Repeated `readEvent` from offset `p`: the events, and what the last call returned. */
  function ReadAll(cfg: Config, file: seq<byte>, p: nat): (r: (seq<seq<byte>>, Outcome))
    requires cfg.Valid() && p <= |file|
    decreases |file| - p
  {
    var o := Parse(cfg, file, p, Sizing([]));
    if o.Got? then
      var rest := ReadAll(cfg, file, o.next);
      ([o.event] + rest.0, rest.1)
    else ([], o)
  }

  // ---------------------------------------------------------------- arithmetic

  lemma ChunkBounds(chunk: nat, off: nat)
    requires chunk > 0
    ensures off / chunk * chunk <= off < (off / chunk + 1) * chunk
  {
  }

  /** Staying in a chunk is a statement about the offset within it. */
  lemma SameChunk(chunk: nat, p: nat, k: nat)
    requires chunk > 0
    ensures p / chunk == (p + k) / chunk <==> p % chunk + k < chunk
  {
    var q, r := p / chunk, p % chunk;
    assert p == q * chunk + r;
    if r + k < chunk {
      DivisionUnique(chunk, p + k, q, r + k);
    } else {
      ChunkBounds(chunk, p + k);
      assert (q + 1) * chunk == q * chunk + chunk;
    }
  }

  /** A padded record starts on a chunk boundary, less than a chunk later. */
  lemma PaddingLands(chunk: nat, off: nat, size: nat)
    requires chunk > 0 && 0 < size <= chunk
    ensures var p := Padding(chunk, off, size);
            && (p > 0 ==> (off + p) % chunk == 0 && off % chunk + p == chunk && p < chunk)
            && (off + p) % chunk + size <= chunk
  {
    var p := Padding(chunk, off, size);
    SameChunk(chunk, off, size - 1);
    if p > 0 {
      var q, r := off / chunk, off % chunk;
      assert (q + 1) * chunk == q * chunk + chunk;
      DivisionUnique(chunk, off + p, q + 1, 0);
    }
  }

  lemma NextInChunk(chunk: nat, p: nat, k: nat)
    requires chunk > 0 && p % chunk + k < chunk
    ensures (p + k) % chunk == p % chunk + k
  {
    DivisionUnique(chunk, p + k, p / chunk, p % chunk + k);
  }

  // ---------------------------------------------------------------- reading back

  /** A run of zeros up to the chunk boundary is passed over without a trace. */
  lemma {:induction false} SkipPadding(cfg: Config, file: seq<byte>, p: nat, n: nat)
    requires cfg.Valid() && p + n <= |file|
    requires forall i :: p <= i < p + n ==> file[i] == 0
    requires n > 0 ==> p % cfg.chunkSize + n == cfg.chunkSize
    ensures Parse(cfg, file, p, Sizing([])) == Parse(cfg, file, p + n, Sizing([]))
    decreases n
  {
    if n == 0 {
    } else {
      SameChunk(cfg.chunkSize, p, 3);
      if n < 4 {
        if n > 1 { NextInChunk(cfg.chunkSize, p, 1); }
        SkipPadding(cfg, file, p + 1, n - 1);
      } else {
        WordAt(cfg, file, p);
        assert FromLittleEndian32(file[p..p + 4]) == 0;
        if n > 4 { NextInChunk(cfg.chunkSize, p, 4); }
        SkipPadding(cfg, file, p + 4, n - 4);
      }
    }
  }

  /** Four bytes inside one chunk are taken as a size word. */
  lemma {:induction false} WordAt(cfg: Config, file: seq<byte>, p: nat)
    requires cfg.Valid() && p + 4 <= |file|
    requires p / cfg.chunkSize == (p + 3) / cfg.chunkSize
    ensures var size := FromLittleEndian32(file[p..p + 4]);
            Parse(cfg, file, p, Sizing([])) ==
            if size == 0 then Parse(cfg, file, p + 4, Sizing([]))
            else if IsEventCorrupted(cfg, p + 4, size) then Corrupt(p + 4)
            else Parse(cfg, file, p + 4, Filling(size, []))
  {
    var a, b, c := [file[p]], [file[p], file[p + 1]], [file[p], file[p + 1], file[p + 2]];
    assert [] + [file[p]] == a && a + [file[p + 1]] == b && b + [file[p + 2]] == c;
    assert c + [file[p + 3]] == file[p..p + 4];
    assert Parse(cfg, file, p, Sizing([])) == Parse(cfg, file, p + 1, Sizing(a));
    assert Parse(cfg, file, p + 1, Sizing(a)) == Parse(cfg, file, p + 2, Sizing(b));
    assert Parse(cfg, file, p + 2, Sizing(b)) == Parse(cfg, file, p + 3, Sizing(c));
  }

  /** A payload that is all there is returned whole. */
  lemma {:induction false} FillAll(cfg: Config, file: seq<byte>, p: nat, size: nat, got: seq<byte>)
    requires cfg.Valid() && |got| < size && p + size - |got| <= |file|
    ensures Parse(cfg, file, p, Filling(size, got))
         == Got(got + file[p..p + size - |got|], p + size - |got|)
    decreases size - |got|
  {
    var more := got + [file[p]];
    if |more| == size {
      assert file[p..p + 1] == [file[p]];
    } else {
      FillAll(cfg, file, p + 1, size, more);
      assert more + file[p + 1..p + size - |got|] == got + file[p..p + size - |got|];
    }
  }

  /** Some bytes of a payload move the parser along without completing it. */
  lemma {:induction false} FillSome(cfg: Config, file: seq<byte>, p: nat, size: nat, got: seq<byte>, k: nat)
    requires cfg.Valid() && |got| + k < size && p + k <= |file|
    ensures Parse(cfg, file, p, Filling(size, got))
         == Parse(cfg, file, p + k, Filling(size, got + file[p..p + k]))
    decreases k
  {
    if k == 0 {
      assert got + file[p..p] == got;
    } else {
      var more := got + [file[p]];
      FillSome(cfg, file, p + 1, size, more, k - 1);
      assert more + file[p + 1..p + k] == got + file[p..p + k];
    }
  }

  lemma TwoParts(file: seq<byte>, off: nat, a: seq<byte>, b: seq<byte>)
    requires off + |a| + |b| <= |file| && file[off..off + |a| + |b|] == a + b
    ensures file[off..off + |a|] == a
    ensures file[off + |a|..off + |a| + |b|] == b
  {
    var t := file[off..off + |a| + |b|];
    forall i | 0 <= i < |b| ensures file[off + |a| + i] == b[i] {
      assert file[off + |a| + i] == t[|a| + i];
    }
    forall i | 0 <= i < |a| ensures file[off + i] == a[i] {
      assert file[off + i] == t[i];
    }
  }

  /** A record that stays in its chunk and within the limits is not judged corrupt. */
  lemma NotCorrupt(cfg: Config, s: nat, size: nat)
    requires cfg.Valid() && 0 < size && s % cfg.chunkSize + 4 + size <= cfg.chunkSize
    requires cfg.maxEventSize > 0 ==> size <= cfg.maxEventSize
    ensures !IsEventCorrupted(cfg, s + 4, size)
    ensures s / cfg.chunkSize == (s + 3) / cfg.chunkSize
  {
    SameChunk(cfg.chunkSize, s, 3);
    SameChunk(cfg.chunkSize, s, 3 + size);
  }

  /** A record inside one chunk is read whole. */
  lemma {:induction false} ReadsPlaced(cfg: Config, file: seq<byte>, s: nat, e: Event)
    requires cfg.Valid() && Enqueueable(cfg, e)
    requires s % cfg.chunkSize + 4 + |e| <= cfg.chunkSize
    requires s + 4 + |e| <= |file|
    requires file[s..s + 4] == LittleEndian32(|e|) && file[s + 4..s + 4 + |e|] == e
    ensures Parse(cfg, file, s, Sizing([])) == Got(e, s + 4 + |e|)
  {
    NotCorrupt(cfg, s, |e|);
    WordAt(cfg, file, s);
    LittleEndianInverse(|e|);
    FillAll(cfg, file, s + 4, |e|, []);
    assert [] + file[s + 4..s + 4 + |e|] == e;
  }

  /** The reader recovers a record from wherever the writer put it. */
  lemma {:induction false} ReadsRecord(cfg: Config, file: seq<byte>, off: nat, e: Event)
    requires cfg.Valid() && Enqueueable(cfg, e) && Unwrapped(e) && !Oversized(cfg, e)
    requires off + |Emit(cfg, off, e)| <= |file|
    requires file[off..off + |Emit(cfg, off, e)|] == Emit(cfg, off, e)
    ensures Parse(cfg, file, off, Sizing([])) == Got(e, off + |Emit(cfg, off, e)|)
  {
    hide Parse, Padding, Emit, LittleEndian32;
    var pad := Padding(cfg.chunkSize, off, |e| + 4);
    EmitParts(cfg, off, e);
    TwoParts(file, off, Zeros(pad), Record(e));
    TwoParts(file, off + pad, LittleEndian32(|e|), e);
    PaddingLands(cfg.chunkSize, off, |e| + 4);
    ZeroRun(file, off, pad);
    SkipPadding(cfg, file, off, pad);
    ReadsPlaced(cfg, file, off + pad, e);
  }

  lemma EmitParts(cfg: Config, off: nat, e: Event)
    requires cfg.Valid() && Unwrapped(e) && !Oversized(cfg, e)
    ensures Emit(cfg, off, e)
         == Zeros(Padding(cfg.chunkSize, off, |e| + 4)) + Record(e)
  {
    assert RecordSize(e) == |e| + 4;
    assert Record(e)[..RecordSize(e)] == Record(e);
  }

  lemma ZeroRun(file: seq<byte>, off: nat, n: nat)
    requires off + n <= |file| && file[off..off + n] == Zeros(n)
    ensures forall i :: off <= i < off + n ==> file[i] == 0
  {
    forall i | off <= i < off + n ensures file[i] == 0 {
      assert file[i] == file[off..off + n][i - off];
    }
  }

  /** No event that reaches the file had its `eventSize_` wrapped. */
  ghost predicate NoneWraps(cfg: Config, es: seq<Event>) {
    forall i :: 0 <= i < |es| ==> Oversized(cfg, es[i]) || Unwrapped(es[i])
  }

  ghost predicate AllEnqueueable(cfg: Config, es: seq<Event>) {
    forall i :: 0 <= i < |es| ==> Enqueueable(cfg, es[i])
  }

  lemma DroppedEmitsNothing(cfg: Config, off: nat, e: Event)
    requires cfg.Valid() && Oversized(cfg, e)
    ensures Emit(cfg, off, e) == []
  {
  }

  /** A layout is the first event's bytes and the layout of the rest. */
  lemma FirstOfLayout(cfg: Config, file: seq<byte>, off: nat, es: seq<Event>)
    requires cfg.Valid() && es != []
    requires off <= |file| && file[off..] == LayoutFrom(cfg, off, es)
    ensures var next := off + |Emit(cfg, off, es[0])|;
            && next <= |file|
            && file[off..next] == Emit(cfg, off, es[0])
            && file[next..] == LayoutFrom(cfg, next, es[1..])
  {
    hide Emit;
    var t := Emit(cfg, off, es[0]);
    var rest := LayoutFrom(cfg, off + |t|, es[1..]);
    assert file[off..] == t + rest;
    assert file[off..off + |t|] == file[off..][..|t|];
    assert file[off + |t|..] == file[off..][|t|..];
  }

  /** Reading from where a layout begins gives its events, then end of file. */
  lemma {:induction false} ReadsLayout(cfg: Config, file: seq<byte>, off: nat, es: seq<Event>)
    requires cfg.Valid() && AllEnqueueable(cfg, es) && NoneWraps(cfg, es)
    requires off <= |file| && file[off..] == LayoutFrom(cfg, off, es)
    ensures ReadAll(cfg, file, off) == (Kept(cfg, es), Eof)
    decreases es
  {
    if es == [] {
    } else {
      hide Emit, Parse;
      var next := off + |Emit(cfg, off, es[0])|;
      FirstOfLayout(cfg, file, off, es);
      ReadsLayout(cfg, file, next, es[1..]);
      if Oversized(cfg, es[0]) {
        DroppedEmitsNothing(cfg, off, es[0]);
      } else {
        ReadsRecord(cfg, file, off, es[0]);
      }
    }
  }

  /** The file the writer lays out from empty. */
  function Layout(cfg: Config, es: seq<Event>): seq<byte>
    requires cfg.Valid()
  {
    LayoutFrom(cfg, 0, es)
  }

  lemma UncorruptedFits(cfg: Config, p: nat, size: nat)
    requires cfg.Valid() && p >= 4 && !IsEventCorrupted(cfg, p, size)
    ensures size + 4 <= cfg.chunkSize
  {
  }

  /** Whatever the bytes, a returned event fits a chunk together with its size word. */
  lemma {:induction false} ReturnedFits(cfg: Config, file: seq<byte>, p: nat, st: Parser)
    requires cfg.Valid() && p <= |file| && st.Valid() && (st.Sizing? ==> |st.buf| <= p)
    requires st.Filling? ==> st.size + 4 <= cfg.chunkSize
    ensures var o := Parse(cfg, file, p, st); o.Got? ==> |o.event| + 4 <= cfg.chunkSize
    decreases |file| - p
  {
    hide IsEventCorrupted, FromLittleEndian32;
    if p < |file| {
      match st
      case Sizing(buf) =>
        if buf == [] && p / cfg.chunkSize != (p + 3) / cfg.chunkSize {
          ReturnedFits(cfg, file, p + 1, st);
        } else {
          var word := buf + [file[p]];
          if |word| < 4 {
            ReturnedFits(cfg, file, p + 1, Sizing(word));
          } else {
            var size := FromLittleEndian32(word);
            if size == 0 {
              ReturnedFits(cfg, file, p + 1, Sizing([]));
            } else if !IsEventCorrupted(cfg, p + 1, size) {
              UncorruptedFits(cfg, p + 1, size);
              ReturnedFits(cfg, file, p + 1, Filling(size, []));
            }
          }
        }
      case Filling(size, got) =>
        var more := got + [file[p]];
        if |more| < size {
          ReturnedFits(cfg, file, p + 1, Filling(size, more));
        }
    }
  }

  lemma {:induction false} AllReturnedFit(cfg: Config, file: seq<byte>, p: nat)
    requires cfg.Valid() && p <= |file|
    ensures forall i :: 0 <= i < |ReadAll(cfg, file, p).0| ==> |ReadAll(cfg, file, p).0[i]| + 4 <= cfg.chunkSize
    decreases |file| - p
  {
    ReturnedFits(cfg, file, p, Sizing([]));
    var o := Parse(cfg, file, p, Sizing([]));
    if o.Got? {
      AllReturnedFit(cfg, file, o.next);
    }
  }

  lemma {:induction false} KeptContains(cfg: Config, es: seq<Event>, i: nat)
    requires i < |es| && !Oversized(cfg, es[i])
    ensures es[i] in Kept(cfg, es)
  {
    if i > 0 {
      KeptContains(cfg, es[1..], i - 1);
    }
  }

  /** The log round trip: for every chunk size and event sequence, `readEvent` returns the
      events that were not dropped, in order, then end of file, without ever seeing
      corruption. It does so exactly when no length prefix wrapped `eventSize_`. */
  lemma RoundTrip(cfg: Config, es: seq<Event>)
    requires cfg.Valid() && AllEnqueueable(cfg, es)
    ensures ReadAll(cfg, Layout(cfg, es), 0) == (Kept(cfg, es), Eof) <==> NoneWraps(cfg, es)
  {
    var file := Layout(cfg, es);
    if NoneWraps(cfg, es) {
      assert file[0..] == file;
      ReadsLayout(cfg, file, 0, es);
    } else {
      var i :| 0 <= i < |es| && !Oversized(cfg, es[i]) && !Unwrapped(es[i]);
      KeptContains(cfg, es, i);
      AllReturnedFit(cfg, file, 0);
    }
  }

  // ---------------------------------------------------------------- records in place

  /** The record of `e` is at `s`, on one side of every chunk boundary. */
  ghost predicate RecordAt(cfg: Config, file: seq<byte>, s: nat, e: Event)
    requires cfg.Valid()
  {
    && s + 4 + |e| <= |file|
    && file[s..s + 4 + |e|] == Record(e)
    && s / cfg.chunkSize == (s + 3 + |e|) / cfg.chunkSize
  }

  ghost predicate RecordsAt(cfg: Config, file: seq<byte>, starts: seq<nat>, es: seq<Event>)
    requires cfg.Valid()
  {
    |starts| == |es| && forall i :: 0 <= i < |es| ==> RecordAt(cfg, file, starts[i], es[i])
  }

  lemma PrependRecord(cfg: Config, file: seq<byte>, s: nat, e: Event, starts: seq<nat>, es: seq<Event>)
    requires cfg.Valid() && RecordAt(cfg, file, s, e) && RecordsAt(cfg, file, starts, es)
    ensures RecordsAt(cfg, file, [s] + starts, [e] + es)
  {
  }

  /** Every kept record lies whole in the file at its start, in one chunk. */
  lemma {:induction false} RecordsInPlace(cfg: Config, file: seq<byte>, off: nat, es: seq<Event>)
    requires cfg.Valid() && AllEnqueueable(cfg, es) && NoneWraps(cfg, es)
    requires off <= |file| && file[off..] == LayoutFrom(cfg, off, es)
    ensures RecordsAt(cfg, file, Starts(cfg, off, es), Kept(cfg, es))
    decreases es
  {
    hide Emit, Padding, RecordAt, RecordsAt, LayoutFrom, RecordSize, Starts, Kept, Oversized;
    if es == [] {
      NoRecords(cfg, file, off);
    } else {
      var next := off + |Emit(cfg, off, es[0])|;
      FirstOfLayout(cfg, file, off, es);
      RecordsInPlace(cfg, file, next, es[1..]);
      if !Oversized(cfg, es[0]) { FirstInPlace(cfg, file, off, es[0]); }
      OneMoreRecord(cfg, file, off, next, es);
    }
  }

  lemma NoRecords(cfg: Config, file: seq<byte>, off: nat)
    requires cfg.Valid()
    ensures RecordsAt(cfg, file, Starts(cfg, off, []), Kept(cfg, []))
  {
  }

  lemma OneMoreRecord(cfg: Config, file: seq<byte>, off: nat, next: nat, es: seq<Event>)
    requires cfg.Valid() && es != [] && next == off + |Emit(cfg, off, es[0])|
    requires RecordsAt(cfg, file, Starts(cfg, next, es[1..]), Kept(cfg, es[1..]))
    requires !Oversized(cfg, es[0]) ==>
               RecordAt(cfg, file, off + Padding(cfg.chunkSize, off, RecordSize(es[0])), es[0])
    ensures RecordsAt(cfg, file, Starts(cfg, off, es), Kept(cfg, es))
  {
    hide Emit, Padding, RecordAt, RecordsAt, RecordSize, Oversized;
    if !Oversized(cfg, es[0]) {
      PrependRecord(cfg, file, off + Padding(cfg.chunkSize, off, RecordSize(es[0])), es[0],
                    Starts(cfg, next, es[1..]), Kept(cfg, es[1..]));
    }
  }

  lemma FirstInPlace(cfg: Config, file: seq<byte>, off: nat, e: Event)
    requires cfg.Valid() && Unwrapped(e) && !Oversized(cfg, e)
    requires off + |Emit(cfg, off, e)| <= |file|
    requires file[off..off + |Emit(cfg, off, e)|] == Emit(cfg, off, e)
    ensures RecordAt(cfg, file, off + Padding(cfg.chunkSize, off, RecordSize(e)), e)
  {
    hide Padding, Emit, Record, RecordAt, RecordSize, Oversized;
    var pad := Padding(cfg.chunkSize, off, |e| + 4);
    WholeSize(cfg, e);
    EmitParts(cfg, off, e);
    TwoParts(file, off, Zeros(pad), Record(e));
    StaysInChunk(cfg.chunkSize, off, |e| + 4);
    WholeRecord(cfg, file, off + pad, e);
  }

  lemma WholeSize(cfg: Config, e: Event)
    requires Unwrapped(e)
    ensures RecordSize(e) == |e| + 4 == |Record(e)| && (!Oversized(cfg, e) ==> |e| + 4 <= cfg.chunkSize)
  {
  }

  lemma WholeRecord(cfg: Config, file: seq<byte>, s: nat, e: Event)
    requires cfg.Valid()
    requires s + (|e| + 4) <= |file| && file[s..s + (|e| + 4)] == Record(e)
    requires s / cfg.chunkSize == (s + (|e| + 4) - 1) / cfg.chunkSize
    ensures RecordAt(cfg, file, s, e)
  {
    hide Record;
    assert s + (|e| + 4) == s + 4 + |e| && s + (|e| + 4) - 1 == s + 3 + |e|;
  }

  lemma StaysInChunk(chunk: nat, off: nat, size: nat)
    requires chunk > 0 && 0 < size <= chunk
    ensures var s := off + Padding(chunk, off, size); s / chunk == (s + size - 1) / chunk
  {
    PaddingLands(chunk, off, size);
    SameChunk(chunk, off + Padding(chunk, off, size), size - 1);
  }

  // ---------------------------------------------------------------- composition

  lemma LayoutNil(cfg: Config, off: nat)
    requires cfg.Valid()
    ensures LayoutFrom(cfg, off, []) == []
  {
  }

  lemma LayoutStep(cfg: Config, off: nat, e: Event, es: seq<Event>)
    requires cfg.Valid()
    ensures LayoutFrom(cfg, off, [e] + es)
         == Emit(cfg, off, e) + LayoutFrom(cfg, off + |Emit(cfg, off, e)|, es)
  {
    assert ([e] + es)[1..] == es;
  }

  /** Writing two batches is writing their concatenation. */
  lemma {:induction false} LayoutSplits(cfg: Config, off: nat, a: seq<Event>, b: seq<Event>)
    requires cfg.Valid()
    ensures LayoutFrom(cfg, off, a + b)
         == LayoutFrom(cfg, off, a) + LayoutFrom(cfg, off + |LayoutFrom(cfg, off, a)|, b)
    decreases |a|
  {
    hide *;
    if a == [] {
      LayoutNil(cfg, off);
      assert [] + b == b;
      assert LayoutFrom(cfg, off, b) == [] + LayoutFrom(cfg, off, b);
    } else {
      var t := Emit(cfg, off, a[0]);
      var tail := LayoutFrom(cfg, off + |t|, a[1..]);
      var last := LayoutFrom(cfg, off + |t| + |tail|, b);
      LayoutStep(cfg, off, a[0], a[1..]);
      LayoutStep(cfg, off, a[0], a[1..] + b);
      LayoutSplits(cfg, off + |t|, a[1..], b);
      assert [a[0]] + a[1..] == a && [a[0]] + (a[1..] + b) == a + b;
      assert t + (tail + last) == (t + tail) + last;
      assert off + |t| + |tail| == off + |t + tail|;
    }
  }

  // ---------------------------------------------------------------- sizes and chunks

  /** An event of which nothing wraps is dropped exactly when it does not fit a chunk together with
      its size word, or is over the limit together with it. */
  lemma DroppedExactly(cfg: Config, e: Event)
    requires |e| + 4 < 0x1_0000_0000
    ensures Kept(cfg, [e]) == if |e| + 4 > cfg.chunkSize || (cfg.maxEventSize > 0 && |e| + 4 > cfg.maxEventSize) then []
                              else [e]
    ensures Enqueueable(cfg, e) <==> |e| > 0 && (cfg.maxEventSize > 0 ==> |e| <= cfg.maxEventSize)
  {
    assert Kept(cfg, []) == [] && [e][1..] == [];
  }

  /** A record is written where it is if it fits the rest of the chunk, and otherwise at the start
      of the next one. */
  lemma PlacedExactly(chunk: nat, off: nat, size: nat)
    requires 0 < size <= chunk
    ensures Padding(chunk, off, size) == if off % chunk + size <= chunk then 0 else chunk - off % chunk
  {
    SameChunk(chunk, off, size - 1);
  }

  /** The bytes of a written event: zeros up to where it is placed, its size with the lowest byte
      first, and its payload. */
  lemma EmittedBytes(cfg: Config, off: nat, e: Event)
    requires cfg.Valid() && |e| + 4 < 0x1_0000_0000 && Kept(cfg, [e]) == [e]
    ensures var room := cfg.chunkSize - off % cfg.chunkSize;
            Emit(cfg, off, e) == Zeros(if |e| + 4 <= room then 0 else room)
                                 + ([|e| % 0x100, |e| / 0x100 % 0x100, |e| / 0x1_0000 % 0x100, |e| / 0x100_0000] + e)
  {
    hide Emit, Padding, Record, Kept, Oversized;
    KeptFits(cfg, e);
    EmitParts(cfg, off, e);
    PlacedExactly(cfg.chunkSize, off, |e| + 4);
    RecordBytes(e);
  }

  lemma AtEndOfFile(cfg: Config, file: seq<byte>, st: Parser)
    requires cfg.Valid() && st.Valid() && (st.Sizing? ==> |st.buf| <= |file|)
    ensures Parse(cfg, file, |file|, st) == Eof
  {
  }

  /** One byte taken towards a size word. */
  lemma SizingStep(cfg: Config, file: seq<byte>, p: nat, buf: seq<byte>)
    requires cfg.Valid() && p < |file| && |buf| < 4 && |buf| <= p
    requires buf == [] ==> p / cfg.chunkSize == (p + 3) / cfg.chunkSize
    ensures var word := buf + [file[p]];
            Parse(cfg, file, p, Sizing(buf)) ==
            if |word| < 4 then Parse(cfg, file, p + 1, Sizing(word))
            else if FromLittleEndian32(word) == 0 then Parse(cfg, file, p + 1, Sizing([]))
            else if IsEventCorrupted(cfg, p + 1, FromLittleEndian32(word)) then Corrupt(p + 1)
            else Parse(cfg, file, p + 1, Filling(FromLittleEndian32(word), []))
  {
  }

  lemma SkipStep(cfg: Config, file: seq<byte>, p: nat)
    requires cfg.Valid() && p < |file| && p / cfg.chunkSize != (p + 3) / cfg.chunkSize
    ensures Parse(cfg, file, p, Sizing([])) == Parse(cfg, file, p + 1, Sizing([]))
  {
  }

  lemma KeptFits(cfg: Config, e: Event)
    requires |e| + 4 < 0x1_0000_0000 && Kept(cfg, [e]) == [e]
    ensures !Oversized(cfg, e) && |e| + 4 <= cfg.chunkSize
  {
    DroppedExactly(cfg, e);
  }

  lemma RecordBytes(e: Event)
    ensures Record(e) == [|e| % 0x100, |e| / 0x100 % 0x100, |e| / 0x1_0000 % 0x100, |e| / 0x100_0000] + e
  {
  }

  /** A record is judged corrupt exactly when its size is over the limit, or does not fit the rest
      of the chunk behind its size word, which ends at `p`. */
  lemma JudgedExactly(cfg: Config, p: nat, size: nat)
    requires cfg.Valid() && p >= 4 && size > 0
    ensures !IsEventCorrupted(cfg, p, size)
       <==> (cfg.maxEventSize > 0 ==> size <= cfg.maxEventSize) && (p - 4) % cfg.chunkSize + 4 + size <= cfg.chunkSize
  {
    SameChunk(cfg.chunkSize, p - 4, size + 3);
  }

  /** What the reader makes of any bytes at `p`: up to a chunk boundary that the size word would
      cross they are passed over, and so is a zero size; otherwise the size says whether the record
      is corrupt, complete, or cut off by the end of the file. */
  lemma ReadsAnyBytes(cfg: Config, file: seq<byte>, p: nat)
    requires cfg.Valid() && p < |file|
    ensures var room := cfg.chunkSize - p % cfg.chunkSize;
            var o := Parse(cfg, file, p, Sizing([]));
            if room < 4 then o == Parse(cfg, file, p + 1, Sizing([]))
            else if |file| < p + 4 then o == Eof
            else
              var size := FromLittleEndian32(file[p..p + 4]);
              if size == 0 then o == Parse(cfg, file, p + 4, Sizing([]))
              else if (cfg.maxEventSize > 0 && size > cfg.maxEventSize) || 4 + size > room then o == Corrupt(p + 4)
              else if |file| < p + 4 + size then o == Eof
              else o == Got(file[p + 4..p + 4 + size], p + 4 + size)
  {
    hide Parse, IsEventCorrupted, FromLittleEndian32;
    SameChunk(cfg.chunkSize, p, 3);
    if cfg.chunkSize - p % cfg.chunkSize < 4 {
      SkipStep(cfg, file, p);
    } else {
      ReadsWord(cfg, file, p, []);
      if |file| >= p + 4 {
        var size := FromLittleEndian32(file[p..p + 4]);
        if size > 0 {
          JudgedAt(cfg, p, size);
          ReadsPayload(cfg, file, p + 4, size);
        }
      }
    }
  }

  lemma JudgedAt(cfg: Config, p: nat, size: nat)
    requires cfg.Valid() && size > 0
    ensures IsEventCorrupted(cfg, p + 4, size)
       <==> (cfg.maxEventSize > 0 && size > cfg.maxEventSize) || 4 + size > cfg.chunkSize - p % cfg.chunkSize
  {
    hide IsEventCorrupted;
    JudgedExactly(cfg, p + 4, size);
  }

  lemma ReadsPayload(cfg: Config, file: seq<byte>, p: nat, size: nat)
    requires cfg.Valid() && p <= |file| && size > 0
    ensures Parse(cfg, file, p, Filling(size, []))
         == if |file| < p + size then Eof else Got(file[p..p + size], p + size)
  {
    hide Parse;
    if |file| < p + size {
      FillSome(cfg, file, p, size, [], |file| - p);
      AtEndOfFile(cfg, file, Filling(size, [] + file[p..]));
      assert file[p..|file|] == file[p..];
    } else {
      FillAll(cfg, file, p, size, []);
      assert [] + file[p..p + size] == file[p..p + size];
    }
  }

  lemma {:induction false} ReadsWord(cfg: Config, file: seq<byte>, p: nat, buf: seq<byte>)
    requires cfg.Valid() && |buf| < 4 && |buf| <= p <= |file| && buf == file[p - |buf|..p]
    requires p - |buf| < |file| && (p - |buf|) / cfg.chunkSize == (p - |buf| + 3) / cfg.chunkSize
    ensures var start := p - |buf|;
            var o := Parse(cfg, file, p, Sizing(buf));
            if |file| < start + 4 then o == Eof
            else
              var size := FromLittleEndian32(file[start..start + 4]);
              if size == 0 then o == Parse(cfg, file, start + 4, Sizing([]))
              else if IsEventCorrupted(cfg, start + 4, size) then o == Corrupt(start + 4)
              else o == Parse(cfg, file, start + 4, Filling(size, []))
    decreases 4 - |buf|
  {
    hide Parse, IsEventCorrupted, FromLittleEndian32;
    var start := p - |buf|;
    if p == |file| {
      AtEndOfFile(cfg, file, Sizing(buf));
    } else {
      SizingStep(cfg, file, p, buf);
      var word := buf + [file[p]];
      assert word == file[start..p + 1];
      if |word| < 4 { ReadsWord(cfg, file, p + 1, word); }
    }
  }

  // ---------------------------------------------------------------- padding width

  /** The padding is narrower than the record behind it. */
  lemma PaddingBelowSize(chunk: nat, off: nat, size: nat)
    requires chunk > 0
    ensures Padding(chunk, off, size) == 0 || Padding(chunk, off, size) < size
  {
    if size > 0 { SameChunk(chunk, off, size - 1); }
  }

  /** No record that is written is of one to four bytes, as only wrapped sizes are. */
  ghost predicate SizesOk(cfg: Config, es: seq<Event>) {
    forall i :: 0 <= i < |es| ==> Oversized(cfg, es[i]) || RecordSize(es[i]) == 0 || RecordSize(es[i]) >= 5
  }

  /** No padding is too wide in chunks of at most 0x80000004 bytes, whose first offsets no
      record ends at. */
  lemma {:induction false} PaddingWidth(cfg: Config, off: nat, es: seq<Event>)
    requires cfg.Valid() && SizesOk(cfg, es) && cfg.chunkSize <= 0x8000_0004
    requires off % cfg.chunkSize == 0 || off % cfg.chunkSize >= 5
    ensures !WriterAborts(cfg, off, es)
    decreases es
  {
    if es != [] {
      var e := es[0];
      var size := RecordSize(e);
      if !Oversized(cfg, e) && size > 0 {
        var pad := Padding(cfg.chunkSize, off, size);
        PaddingLands(cfg.chunkSize, off, size);
        EmitLength(cfg, off, e);
        EndOfRecord(cfg.chunkSize, off + pad, size);
      }
      PaddingWidth(cfg, off + |Emit(cfg, off, e)|, es[1..]);
    }
  }

  lemma EndOfRecord(chunk: nat, s: nat, size: nat)
    requires chunk > 0 && size >= 5 && s % chunk + size <= chunk
    ensures (s + size) % chunk == 0 || (s + size) % chunk >= 5
  {
    if s % chunk + size == chunk {
      assert (s / chunk + 1) * chunk == s / chunk * chunk + chunk;
      DivisionUnique(chunk, s + size, s / chunk + 1, 0);
    } else {
      NextInChunk(chunk, s, size);
    }
  }

  /** No padding is too wide when no record is above 2 GiB, for its size or its chunk. */
  lemma {:induction false} NarrowRecords(cfg: Config, off: nat, es: seq<Event>)
    requires cfg.Valid() && (cfg.chunkSize <= 0x8000_0000 || 0 < cfg.maxEventSize <= 0x8000_0000)
    ensures !WriterAborts(cfg, off, es)
    decreases es
  {
    if es != [] {
      PaddingBelowSize(cfg.chunkSize, off, RecordSize(es[0]));
      NarrowRecords(cfg, off + |Emit(cfg, off, es[0])|, es[1..]);
    }
  }

  lemma EmitLength(cfg: Config, off: nat, e: Event)
    requires cfg.Valid() && !Oversized(cfg, e)
    ensures |Emit(cfg, off, e)| == Padding(cfg.chunkSize, off, RecordSize(e)) + RecordSize(e)
  {
    hide Padding;
    assert RecordSize(e) <= |Record(e)|;
  }

  /** Two records, the second of which is moved to the next chunk. */
  lemma TwoRecords(cfg: Config, a: Event, b: Event)
    requires cfg.Valid() && !Oversized(cfg, a) && !Oversized(cfg, b)
    requires 0 < RecordSize(a) < cfg.chunkSize && RecordSize(a) + RecordSize(b) > cfg.chunkSize
    requires cfg.chunkSize - RecordSize(a) > INT32_MAX
    ensures WriterAborts(cfg, 0, [a, b])
  {
    FirstPaddings(cfg.chunkSize, RecordSize(a), RecordSize(b));
    EmitLength(cfg, 0, a);
    hide Padding, RecordSize, Oversized, Emit;
    assert [a, b][1..] == [b];
    assert WriterAborts(cfg, RecordSize(a), [b]);
  }

  lemma FirstPaddings(chunk: nat, n: nat, k: nat)
    requires 0 < n < chunk < n + k
    ensures Padding(chunk, 0, n) == 0 && Padding(chunk, n, k) == chunk - n
  {
    DivisionUnique(chunk, 0, 0, 0);
    DivisionUnique(chunk, n, 0, n);
    DivisionUnique(chunk, n - 1, 0, n - 1);
    SameChunk(chunk, n, k - 1);
    assert n + k - 1 == n + (k - 1);
  }

  /** The configurations in which a run of events can stop the writer. */
  predicate PaddingTooWide(cfg: Config) {
    cfg.chunkSize > 0x8000_0004 && (cfg.maxEventSize == 0 || cfg.maxEventSize > 0x8000_0000)
  }

  /** The writer can be stopped by a padding that comes out negative, by events whose sizes do
      not wrap, exactly for chunks above 0x80000004 bytes and no event limit, or one above 2
      GiB. */
  lemma WriterStops(cfg: Config)
    requires cfg.Valid()
    ensures (exists es :: AllEnqueueable(cfg, es) && NoneWraps(cfg, es) && WriterAborts(cfg, 0, es))
       <==> PaddingTooWide(cfg)
  {
    if PaddingTooWide(cfg) {
      var a: Event, b: Event := Zeros(cfg.chunkSize - 0x8000_0000 - 4), Zeros(0x8000_0001 - 4);
      TwoRecords(cfg, a, b);
      assert AllEnqueueable(cfg, [a, b]) && NoneWraps(cfg, [a, b]);
    } else {
      forall es | AllEnqueueable(cfg, es) && NoneWraps(cfg, es) ensures !WriterAborts(cfg, 0, es) {
        if cfg.chunkSize <= 0x8000_0004 {
          PaddingWidth(cfg, 0, es);
        } else {
          NarrowRecords(cfg, 0, es);
        }
      }
    }
  }

  /** By events of any sizes it can be stopped from chunks of 0x80000001 bytes on when an event
      of 0xfffffffd bytes is let in, whose record wraps to one byte. */
  lemma WriterStopsByAny(cfg: Config)
    requires cfg.Valid()
    ensures (exists es :: AllEnqueueable(cfg, es) && WriterAborts(cfg, 0, es))
       <==> PaddingTooWide(cfg)
            || (cfg.chunkSize > 0x8000_0000 && (cfg.maxEventSize == 0 || cfg.maxEventSize >= 0xffff_fffd))
  {
    WriterStops(cfg);
    if PaddingTooWide(cfg) {
    } else if cfg.chunkSize > 0x8000_0000 && (cfg.maxEventSize == 0 || cfg.maxEventSize >= 0xffff_fffd) {
      var a: Event, b: Event := Zeros(0xffff_fffd), Zeros(cfg.chunkSize - 4);
      TwoRecords(cfg, a, b);
      assert AllEnqueueable(cfg, [a, b]);
    } else {
      forall es | AllEnqueueable(cfg, es) ensures !WriterAborts(cfg, 0, es) {
        if cfg.chunkSize <= 0x8000_0000 || 0 < cfg.maxEventSize <= 0x8000_0000 {
          NarrowRecords(cfg, 0, es);
        } else {
          PaddingWidth(cfg, 0, es);
        }
      }
    }
  }
}
