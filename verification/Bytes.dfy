/** Bytes, machine words and their wire orders, shared by every other module. */
module Bytes {

  /** A `uint8_t`. */
  type byte = x: int | 0 <= x < 0x100

  /** A `uint32_t`. */
  type u32 = x: int | 0 <= x < 0x1_0000_0000

  const U32_MODULUS: int := 0x1_0000_0000
  const INT32_MAX: int := 0x7fff_ffff
  const INT32_SIGN: int := 0x8000_0000

  datatype Option<+T> = None | Some(value: T)

  datatype Result<+T, +E> = Ok(value: T) | Err(error: E) {
    predicate IsFailure() { Err? }
    function PropagateFailure<U>(): Result<U, E> requires Err? { Err(error) }
    function Extract(): T requires Ok? { value }
  }

  function Min(a: int, b: int): int {
    if a < b then a else b
  }

  /** The bytes of ASCII text. */
  function Ascii(s: string): (b: seq<byte>)
    requires forall i :: 0 <= i < |s| ==> s[i] < 128 as char
    ensures |b| == |s| && forall i :: 0 <= i < |s| ==> b[i] == s[i] as int
  {
    seq(|s|, i requires 0 <= i < |s| => s[i] as int)
  }

  /** `n` copies of the byte zero. */
  function Zeros(n: nat): (s: seq<byte>)
    ensures |s| == n && forall i :: 0 <= i < n ==> s[i] == 0
  {
    seq(n, _ => 0)
  }

  /** The four bytes of `n`, least significant first (the host order the log is written in). */
  function LittleEndian32(n: u32): (s: seq<byte>)
    ensures |s| == 4
  {
    [n % 0x100, n / 0x100 % 0x100, n / 0x1_0000 % 0x100, n / 0x100_0000]
  }

  function FromLittleEndian32(s: seq<byte>): u32
    requires |s| == 4
  {
    var b0: int, b1: int, b2: int, b3: int := s[0], s[1], s[2], s[3];
    b0 + b1 * 0x100 + b2 * 0x1_0000 + b3 * 0x100_0000
  }

  /** `htonl`: the four bytes of `n`, most significant first. */
  function BigEndian32(n: u32): (s: seq<byte>)
    ensures |s| == 4
  {
    [n / 0x100_0000, n / 0x1_0000 % 0x100, n / 0x100 % 0x100, n % 0x100]
  }

  /** `ntohl`. */
  function FromBigEndian32(s: seq<byte>): u32
    requires |s| == 4
  {
    var b0: int, b1: int, b2: int, b3: int := s[0], s[1], s[2], s[3];
    b0 * 0x100_0000 + b1 * 0x1_0000 + b2 * 0x100 + b3
  }

  /** The two orders, byte for byte: the host order of the log starts with the lowest byte, the
      network order with the highest. */
  lemma ByteOrders(b0: byte, b1: byte, b2: byte, b3: byte)
    ensures var n := ((b3 * 0x100 + b2) * 0x100 + b1) * 0x100 + b0;
            && 0 <= n < 0x1_0000_0000
            && LittleEndian32(n) == [b0, b1, b2, b3] && BigEndian32(n) == [b3, b2, b1, b0]
            && FromLittleEndian32([b0, b1, b2, b3]) == n && FromBigEndian32([b3, b2, b1, b0]) == n
  {
    var low, high := [b0, b1, b2, b3], [b3, b2, b1, b0];
    LittleEndianBytes(low);
    BigEndianBytes(high);
    assert FromLittleEndian32(low) == ((b3 * 0x100 + b2) * 0x100 + b1) * 0x100 + b0;
    assert FromBigEndian32(high) == ((b3 * 0x100 + b2) * 0x100 + b1) * 0x100 + b0;
  }

  lemma LittleEndianInverse(n: u32)
    ensures FromLittleEndian32(LittleEndian32(n)) == n
  {
    assert n / 0x1_0000 == n / 0x100 / 0x100;
    assert n / 0x100_0000 == n / 0x1_0000 / 0x100;
  }

  /** The digits of a number to the base 256. */
  lemma FourDigits(b0: byte, b1: byte, b2: byte, b3: byte)
    ensures var n := b0 + b1 * 0x100 + b2 * 0x1_0000 + b3 * 0x100_0000;
            && n % 0x100 == b0 && n / 0x100 % 0x100 == b1 && n / 0x1_0000 % 0x100 == b2 && n / 0x100_0000 == b3
  {
    var n := b0 + b1 * 0x100 + b2 * 0x1_0000 + b3 * 0x100_0000;
    DivisionUnique(0x100, n, b1 + b2 * 0x100 + b3 * 0x1_0000, b0);
    DivisionUnique(0x1_0000, n, b2 + b3 * 0x100, b0 + b1 * 0x100);
    DivisionUnique(0x100_0000, n, b3, b0 + b1 * 0x100 + b2 * 0x1_0000);
  }

  /** Four bytes are those of the word they make up. */
  lemma LittleEndianBytes(s: seq<byte>)
    requires |s| == 4
    ensures LittleEndian32(FromLittleEndian32(s)) == s
  {
    FourDigits(s[0], s[1], s[2], s[3]);
  }

  lemma BigEndianBytes(s: seq<byte>)
    requires |s| == 4
    ensures BigEndian32(FromBigEndian32(s)) == s
  {
    FourDigits(s[3], s[2], s[1], s[0]);
  }

  lemma BigEndianInverse(n: u32)
    ensures FromBigEndian32(BigEndian32(n)) == n
  {
    assert n / 0x1_0000 == n / 0x100 / 0x100;
    assert n / 0x100_0000 == n / 0x1_0000 / 0x100;
  }

  lemma Assoc<T>(a: seq<T>, b: seq<T>, c: seq<T>)
    ensures (a + b) + c == a + (b + c)
  {
  }

  lemma Middle<T>(a: seq<T>, b: seq<T>, c: seq<T>)
    ensures (a + b + c)[|a|..|a| + |b|] == b && (a + b + c)[|a| + |b|..] == c
  {
  }

  lemma TakeSlice<T>(s: seq<T>, n: nat, i: nat, j: nat)
    requires i <= j <= n <= |s|
    ensures s[..n][i..j] == s[i..j] && s[..n][i..] == s[i..n]
  {
  }

  lemma AtLeastOnce(d: nat, k: int)
    requires k >= 1
    ensures k * d >= d
  {
  }

  lemma DivisionUnique(d: nat, n: nat, q: nat, r: nat)
    requires d > 0 && n == q * d + r && r < d
    ensures n / d == q && n % d == r
  {
    var q', r' := n / d, n % d;
    assert (q - q') * d == r' - r;
    if q' < q {
      AtLeastOnce(d, q - q');
    } else if q' > q {
      AtLeastOnce(d, q' - q);
    }
  }

  /** Pieces, one behind the other. */
  function Concat(ps: seq<seq<byte>>): seq<byte> {
    if ps == [] then [] else ps[0] + Concat(ps[1..])
  }

  lemma {:induction false} ConcatAppend(ps: seq<seq<byte>>, qs: seq<seq<byte>>)
    ensures Concat(ps + qs) == Concat(ps) + Concat(qs)
    decreases ps
  {
    if ps == [] {
      assert [] + qs == qs && [] + Concat(qs) == Concat(qs);
    } else {
      assert (ps + qs)[1..] == ps[1..] + qs;
      ConcatAppend(ps[1..], qs);
      Assoc(ps[0], Concat(ps[1..]), Concat(qs));
    }
  }

  predicate PowerOfTwo(n: nat) {
    n == 1 || (n > 0 && n % 2 == 0 && PowerOfTwo(n / 2))
  }

  /** No power of two lies strictly between 2 to the 30th and 2 to the 31st. */
  lemma DoubledPower(n: nat)
    requires PowerOfTwo(n) && n < INT32_MAX
    ensures n * 2 <= INT32_SIGN
  {
    OneGiB();
    PowerGap(n, 0x4000_0000);
  }

  lemma OneGiB()
    ensures PowerOfTwo(0x4000_0000)
  {
    assert PowerOfTwo(0x400);
    hide PowerOfTwo;
    PowerTimes(0x400, 0x400);
    PowerTimes(0x10_0000, 0x400);
  }

  lemma {:induction false} PowerTimes(n: nat, k: nat)
    requires PowerOfTwo(n) && PowerOfTwo(k)
    ensures PowerOfTwo(n * k)
    decreases k
  {
    if k > 1 {
      assert (2 * n) / 2 == n && (2 * n) * (k / 2) == n * (2 * (k / 2)) && k == 2 * (k / 2);
      PowerTimes(2 * n, k / 2);
    }
  }

  lemma {:induction false} PowerGap(n: nat, m: nat)
    requires PowerOfTwo(n) && PowerOfTwo(m)
    ensures n <= m || n >= 2 * m
    decreases n
  {
    if n > 1 && m > 1 { PowerGap(n / 2, m / 2); }
  }
}
