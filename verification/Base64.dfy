/** Base64 as TBase64Utils does it: without padding on the way out (sections 3.2 and 4 of
    RFC 4648), and decoding in place. */
module Base64 {
  import opened Bytes

  const EQUALS: byte := '=' as int

  /** `kBase64EncodeTable`. */
  function EncodeTable(i: nat): (c: byte)
    requires i < 64
  {
    if i < 26 then 'A' as int + i
    else if i < 52 then 'a' as int + (i - 26)
    else if i < 62 then '0' as int + (i - 52)
    else if i == 62 then '+' as int
    else '/' as int
  }

  /** `kBase64DecodeTable`: 0xff marks a character that is not in the alphabet. */
  function DecodeTable(c: byte): (i: byte)
  {
    if 'A' as int <= c <= 'Z' as int then c - 'A' as int
    else if 'a' as int <= c <= 'z' as int then c - 'a' as int + 26
    else if '0' as int <= c <= '9' as int then c - '0' as int + 52
    else if c == '+' as int then 62
    else if c == '/' as int then 63
    else 0xff
  }

  lemma TablesInvert(i: nat)
    requires i < 64
    ensures DecodeTable(EncodeTable(i)) == i && EncodeTable(i) != EQUALS
  {
  }

  /** Bitwise or. */
  function Or(a: nat, b: nat): nat {
    if a == 0 && b == 0 then 0
    else (if a % 2 == 1 || b % 2 == 1 then 1 else 0) + 2 * Or(a / 2, b / 2)
  }

  /** Bitwise and. */
  function And(a: nat, b: nat): (r: nat)
    ensures r <= a && r <= b
  {
    if a == 0 || b == 0 then 0
    else (if a % 2 == 1 && b % 2 == 1 then 1 else 0) + 2 * And(a / 2, b / 2)
  }

  lemma {:induction false} OrZero(a: nat)
    ensures Or(a, 0) == a && Or(0, a) == a
  {
    if a != 0 { OrZero(a / 2); }
  }

  function Pow2(k: nat): (p: nat)
    ensures p > 0
  {
    if k == 0 then 1 else 2 * Pow2(k - 1)
  }

  /** Or is a sum when the operands share no bit. */
  lemma {:induction false} OrDisjoint(a: nat, b: nat, k: nat)
    requires b < Pow2(k)
    ensures Or(a * Pow2(k), b) == a * Pow2(k) + b
    decreases k
  {
    if k == 0 {
      OrZero(a);
    } else {
      var p := a * Pow2(k - 1);
      assert a * Pow2(k) == 2 * p;
      OrDisjoint(a, b / 2, k - 1);
    }
  }

  /** Masking the low bits is taking a remainder. */
  lemma {:induction false} AndLow(a: nat, k: nat)
    ensures And(a, Pow2(k) - 1) == a % Pow2(k)
    decreases k
  {
    hide And;
    if k == 0 {
      AndZero(a);
    } else {
      var p := Pow2(k - 1);
      assert Pow2(k) == 2 * p;
      AndLow(a / 2, k - 1);
      AndHalves(a, 2 * p - 1);
      assert (2 * p - 1) / 2 == p - 1;
      RemainderStep(a, p);
    }
  }

  lemma AndZero(a: nat)
    ensures And(a, 0) == 0
  {
  }

  /** Masking with an odd number keeps the last bit. */
  lemma AndHalves(a: nat, m: nat)
    requires m % 2 == 1
    ensures And(a, m) == a % 2 + 2 * And(a / 2, m / 2)
  {
  }

  lemma RemainderStep(a: nat, p: nat)
    requires p > 0
    ensures a % (2 * p) == a % 2 + 2 * (a / 2 % p)
  {
    var q, r := a / 2 / p, a / 2 % p;
    assert a == q * (2 * p) + (a % 2 + 2 * r);
    DivisionUnique(2 * p, a, q, a % 2 + 2 * r);
  }

  lemma AndTwice(a: nat, m: nat)
    ensures And(2 * a, 2 * m) == 2 * And(a, m)
  {
  }

  /** One to three bytes become two to four characters, each for six bits. */
  function EncodeBlock(s: seq<byte>): (t: seq<byte>)
    requires 1 <= |s| <= 3
    ensures |t| == |s| + 1
  {
    var first := EncodeTable(s[0] / 4);
    if |s| == 3 then
      [first, EncodeTable(s[0] % 4 * 16 + s[1] / 16), EncodeTable(s[1] % 16 * 4 + s[2] / 64),
       EncodeTable(s[2] % 64)]
    else if |s| == 2 then
      [first, EncodeTable(s[0] % 4 * 16 + s[1] / 16), EncodeTable(s[1] % 16 * 4)]
    else
      [first, EncodeTable(s[0] % 4 * 16)]
  }

  /** Two to four characters, of any kind, become one to three bytes. */
  function DecodeBlock(s: seq<byte>): (t: seq<byte>)
    requires 2 <= |s| <= 4
    ensures |t| == |s| - 1
  {
    var b0: byte := Or(DecodeTable(s[0]) * 4, DecodeTable(s[1]) / 16) % 0x100;
    if |s| == 2 then [b0]
    else
      var b1: byte := Or(DecodeTable(s[1]) % 16 * 16, DecodeTable(s[2]) / 4) % 0x100;
      if |s| == 3 then [b0, b1]
      else
        var b2: byte := Or(DecodeTable(s[2]) % 4 * 64, DecodeTable(s[3])) % 0x100;
        [b0, b1, b2]
  }

  lemma OrShifts(a: nat, b: nat)
    ensures b < 4 ==> Or(a * 4, b) == a * 4 + b
    ensures b < 16 ==> Or(a * 16, b) == a * 16 + b
    ensures b < 64 ==> Or(a * 64, b) == a * 64 + b
  {
    Powers();
    if b < 4 { OrDisjoint(a, b, 2); }
    if b < 16 { OrDisjoint(a, b, 4); }
    if b < 64 { OrDisjoint(a, b, 6); }
  }

  /** The first output byte comes back from two sextets, whatever follows in the second. */
  lemma FirstByte(b: byte, x: nat)
    requires x < 16
    ensures Or(b / 4 * 4, (b % 4 * 16 + x) / 16) % 0x100 == b
  {
    hide Or;
    OrShifts(b / 4, b % 4);
    assert (b % 4 * 16 + x) / 16 == b % 4;
  }

  lemma LowDigit4(y: nat, d: nat)
    requires d < 4
    ensures (y * 4 + d) % 4 == d
  {
  }

  lemma LowDigit16(y: nat, d: nat)
    requires d < 16
    ensures (y * 16 + d) % 16 == d
  {
  }

  lemma SecondByte(b: byte, x: nat, y: nat)
    requires x < 4
    ensures Or((y * 16 + b / 16) % 16 * 16, (b % 16 * 4 + x) / 4) % 0x100 == b
  {
    hide Or;
    OrShifts(b / 16, b % 16);
    assert (b % 16 * 4 + x) / 4 == b % 16;
    LowDigit16(y, b / 16);
  }

  lemma ThirdByte(b: byte, y: nat)
    ensures Or((y * 4 + b / 64) % 4 * 64, b % 64) % 0x100 == b
  {
    hide Or;
    OrShifts(b / 64, b % 64);
    LowDigit4(y, b / 64);
  }

  lemma Powers()
    ensures Pow2(2) == 4 && Pow2(4) == 16 && Pow2(6) == 64
  {
    assert Pow2(3) == 8;
    assert Pow2(5) == 32;
  }

  lemma LowMasks(a: nat)
    ensures And(a, 0x3f) == a % 64 && And(a, 0x0f) == a % 16 && And(a, 0x03) == a % 4
  {
    Powers();
    AndLow(a, 6);
    AndLow(a, 4);
    AndLow(a, 2);
    hide And, Pow2;
  }

  /** The masks of the source, on any numbers, shifted or not. */
  lemma Masks(a: nat)
    ensures And(a, 0x3f) == a % 64 && And(a, 0x0f) == a % 16 && And(a, 0x03) == a % 4
    ensures And(a * 16, 0x30) == a % 4 * 16 && And(a * 4, 0x3c) == a % 16 * 4
    ensures And(a * 16, 0xf0) == a % 16 * 16 && And(a * 64, 0xc0) == a % 4 * 64
  {
    hide And;
    LowMasks(a);
    var low2: nat, low4: nat, b: nat, c: nat := a % 4, a % 16, a * 4, a * 16;
    TimesFour(a, 0x0f, 0x3c);
    TimesFour(a, 0x03, 0x0c);
    assert And(b, 0x0c) == low2 * 4 && And(b, 0x3c) == low4 * 4;
    TimesFour(b, 0x0c, 0x30);
    TimesFour(b, 0x3c, 0xf0);
    assert b * 4 == c;
    assert And(c, 0x30) == low2 * 16 && And(c, 0xf0) == low4 * 16;
    TimesFour(c, 0x30, 0xc0);
  }

  lemma TimesFour(a: nat, m: nat, n: nat)
    requires n == m * 4
    ensures And(a * 4, n) == And(a, m) * 4
  {
    hide And;
    AndTwice(a, m);
    AndTwice(2 * a, 2 * m);
    assert 2 * (2 * a) == a * 4 && 2 * (2 * m) == n;
  }

  /** The two halves that make up a character never share a bit. */
  lemma Halves(a: nat, b: nat)
    requires b < 256
    ensures Or(And(a * 16, 0x30), And(b / 16, 0x0f)) == a % 4 * 16 + b / 16
    ensures Or(And(a * 4, 0x3c), And(b / 64, 0x03)) == a % 16 * 4 + b / 64
  {
    hide And, Or;
    var high: nat, top: nat, low2: nat, low4: nat := b / 16, b / 64, a % 4, a % 16;
    Masks(a);
    Unmasked(high, top);
    OrShifts(low2, high);
    OrShifts(low4, top);
  }

  lemma Unmasked(high: nat, top: nat)
    requires high < 16 && top < 4
    ensures And(high, 0x0f) == high && And(top, 0x03) == top
  {
    hide And;
    LowMasks(high);
    LowMasks(top);
  }

  lemma BlockRoundTrip(s: seq<byte>)
    requires 1 <= |s| <= 3
    ensures DecodeBlock(EncodeBlock(s)) == s
    ensures EQUALS !in EncodeBlock(s)
  {
    hide EncodeTable, DecodeTable, Or;
    TablesInvert(s[0] / 4);
    if |s| == 1 {
      TablesInvert(s[0] % 4 * 16);
      FirstByte(s[0], 0);
    } else {
      TablesInvert(s[0] % 4 * 16 + s[1] / 16);
      FirstByte(s[0], s[1] / 16);
      if |s| == 2 {
        TablesInvert(s[1] % 16 * 4);
        SecondByte(s[1], 0, s[0] % 4);
      } else {
        TablesInvert(s[1] % 16 * 4 + s[2] / 64);
        TablesInvert(s[2] % 64);
        SecondByte(s[1], s[2] / 64, s[0] % 4);
        ThirdByte(s[2], s[1] % 16);
      }
    }
  }

  /** The loop of `writeJSONBase64`. */
  function Encode(s: seq<byte>): seq<byte> {
    if |s| >= 3 then EncodeBlock(s[..3]) + Encode(s[3..])
    else if |s| > 0 then EncodeBlock(s)
    else []
  }

  /** The loop of `readJSONBase64`: a single leftover character is ignored. */
  function Decode(s: seq<byte>): seq<byte> {
    if |s| >= 4 then DecodeBlock(s[..4]) + Decode(s[4..])
    else if |s| > 1 then DecodeBlock(s)
    else []
  }

  lemma {:induction false} EncodeDecode(s: seq<byte>)
    ensures Decode(Encode(s)) == s && EQUALS !in Encode(s) && |Encode(s)| != 1
    decreases |s|
  {
    if |s| >= 3 {
      var t, rest := EncodeBlock(s[..3]), Encode(s[3..]);
      BlockRoundTrip(s[..3]);
      EncodeDecode(s[3..]);
      assert (t + rest)[..4] == t && (t + rest)[4..] == rest;
      assert s[..3] + s[3..] == s;
    } else if |s| > 0 {
      BlockRoundTrip(s);
    }
  }

  /** Drop up to two trailing `=`. On the exact text `==` the unsigned index of the source
      wraps round and it reads outside the string: that is `None`. */
  function StripPadding(s: seq<byte>): (t: Option<seq<byte>>) {
    if s == [EQUALS, EQUALS] then None
    else if |s| >= 2 && s[|s| - 1] == EQUALS then
      if s[|s| - 2] == EQUALS then Some(s[..|s| - 2]) else Some(s[..|s| - 1])
    else Some(s)
  }

  /** What the binary reader makes of the text between the quotes. */
  function DecodeText(s: seq<byte>): (t: Option<seq<byte>>) {
    match StripPadding(s)
    case None => None
    case Some(u) => Some(Decode(u))
  }

  /** The padding RFC 4648 would add, which this encoder does not. */
  function PaddingFor(n: nat): seq<byte> {
    if n % 4 == 2 then [EQUALS, EQUALS] else if n % 4 == 3 then [EQUALS] else []
  }

  /** Any bytes survive base64, whether or not the padding was added on the way. */
  lemma TextRoundTrip(s: seq<byte>)
    ensures DecodeText(Encode(s)) == Some(s)
    ensures DecodeText(Encode(s) + PaddingFor(|Encode(s)|)) == Some(s)
  {
    hide Encode, Decode, StripPadding;
    EncodeDecode(s);
    var t := Encode(s);
    NoPadding(t);
    if |t| % 4 == 2 {
      StripsTwo(t);
    } else if |t| % 4 == 3 {
      StripsOne(t);
    } else {
      assert t + [] == t;
    }
  }

  lemma NoPadding(t: seq<byte>)
    requires EQUALS !in t
    ensures StripPadding(t) == Some(t)
  {
  }

  lemma StripsTwo(t: seq<byte>)
    requires EQUALS !in t && |t| >= 2
    ensures StripPadding(t + [EQUALS, EQUALS]) == Some(t)
  {
  }

  lemma StripsOne(t: seq<byte>)
    requires EQUALS !in t && |t| >= 2
    ensures StripPadding(t + [EQUALS]) == Some(t)
  {
  }

  lemma FirstMasks(a: nat)
    requires a < 256
    ensures And(a / 4, 0x3f) == a / 4 && And(a * 16, 0x30) == a % 4 * 16 && And(a * 4, 0x3c) == a % 16 * 4
  {
    hide And;
    Masks(a);
    Masks(a / 4);
  }

  lemma LastMask(a: nat)
    ensures And(a, 0x3f) == a % 64
  {
    hide And;
    Masks(a);
  }

  /** `base64_encode` into the caller's buffer. */
  method EncodeInto(input: seq<byte>, buf: array<byte>)
    requires 1 <= |input| <= 3 && buf.Length >= 4
    modifies buf
    ensures buf[..|input| + 1] == EncodeBlock(input)
    ensures buf[|input| + 1..] == old(buf[|input| + 1..])
  {
    hide And, Or, EncodeTable;
    var x: nat := input[0];
    FirstMasks(x);
    buf[0] := EncodeTable(And(x / 4, 0x3f));
    if |input| == 3 {
      var y: nat, z: nat := input[1], input[2];
      Halves(x, y);
      Halves(y, z);
      LastMask(z);
      buf[1] := EncodeTable(Or(And(x * 16, 0x30), And(y / 16, 0x0f)));
      buf[2] := EncodeTable(Or(And(y * 4, 0x3c), And(z / 64, 0x03)));
      buf[3] := EncodeTable(And(z, 0x3f));
    } else if |input| == 2 {
      var y: nat := input[1];
      Halves(x, y);
      FirstMasks(y);
      buf[1] := EncodeTable(Or(And(x * 16, 0x30), And(y / 16, 0x0f)));
      buf[2] := EncodeTable(And(y * 4, 0x3c));
    } else {
      buf[1] := EncodeTable(And(x * 16, 0x30));
    }
  }

  /** `base64_decode`: each byte is overwritten only after its last use. */
  method DecodeInPlace(buf: array<byte>, at: nat, len: nat)
    requires 2 <= len <= 4 && at + len <= buf.Length
    modifies buf
    ensures buf[at..at + len - 1] == DecodeBlock(old(buf[at..at + len]))
    ensures buf[..at] == old(buf[..at]) && buf[at + len..] == old(buf[at + len..])
  {
    hide And, Or, DecodeTable;
    buf[at] := Or(DecodeTable(buf[at]) * 4, DecodeTable(buf[at + 1]) / 16) % 0x100;
    if len > 2 {
      Masks(DecodeTable(buf[at + 1]));
      buf[at + 1] := Or(And(DecodeTable(buf[at + 1]) * 16, 0xf0), DecodeTable(buf[at + 2]) / 4) % 0x100;
      if len > 3 {
        Masks(DecodeTable(buf[at + 2]));
        buf[at + 2] := Or(And(DecodeTable(buf[at + 2]) * 64, 0xc0), DecodeTable(buf[at + 3])) % 0x100;
      }
    }
  }
  // ---------------------------------------------------------------- section 4 of RFC 4648

  /** The alphabet, letter by letter. */
  lemma Capitals(i: nat)
    requires i < 26
    ensures EncodeTable(i) == Ascii("ABCDEFGHIJKLMNOPQRSTUVWXYZ")[i]
  {
  }

  lemma SmallLetters(i: nat)
    requires i < 26
    ensures EncodeTable(26 + i) == Ascii("abcdefghijklmnopqrstuvwxyz")[i]
  {
  }

  lemma Figures(i: nat)
    requires i < 12
    ensures EncodeTable(52 + i) == Ascii("0123456789+/")[i]
  {
  }

  /** What is not in it stands for no digit. */
  lemma NoDigit(c: byte)
    ensures (forall j: nat :: j < 64 ==> EncodeTable(j) != c) ==> DecodeTable(c) == 0xff
  {
    if DecodeTable(c) < 64 { assert EncodeTable(DecodeTable(c)) == c; }
  }

  /** Three bytes make a number of 24 bits, whose digits to the base 64 are written, the highest
      first; one or two bytes are filled up with zero bits, and only the digits they reach are
      written. */
  lemma DigitsOf(x: byte, y: byte, z: byte)
    ensures var n: nat := x * 0x1_0000 + y * 0x100 + z;
            EncodeBlock([x, y, z]) == [EncodeTable(n / 0x4_0000), EncodeTable(n / 0x1000 % 64), EncodeTable(n / 64 % 64),
                                       EncodeTable(n % 64)]
    ensures var n: nat := x * 0x1_0000 + y * 0x100;
            EncodeBlock([x, y]) == [EncodeTable(n / 0x4_0000), EncodeTable(n / 0x1000 % 64), EncodeTable(n / 64 % 64)]
    ensures var n: nat := x * 0x1_0000; EncodeBlock([x]) == [EncodeTable(n / 0x4_0000), EncodeTable(n / 0x1000 % 64)]
  {
    hide EncodeTable;
    Digits24(x, y, z);
    Digits24(x, y, 0);
    Digits24(x, 0, 0);
  }

  lemma Digits24(x: byte, y: byte, z: byte)
    ensures var n: nat := x * 0x1_0000 + y * 0x100 + z;
            && n / 0x4_0000 == x / 4 && n / 0x1000 % 64 == x % 4 * 16 + y / 16
            && n / 64 % 64 == y % 16 * 4 + z / 64 && n % 64 == z % 64
  {
    var n: nat := x * 0x1_0000 + y * 0x100 + z;
    DivisionUnique(0x4_0000, n, x / 4, x % 4 * 0x1_0000 + y * 0x100 + z);
    DivisionUnique(0x1000, n, x * 16 + y / 16, y % 16 * 0x100 + z);
    DivisionUnique(64, n, x * 0x400 + y * 4 + z / 64, z % 64);
    DivisionUnique(64, x * 16 + y / 16, x / 4, x % 4 * 16 + y / 16);
    DivisionUnique(64, x * 0x400 + y * 4 + z / 64, x * 16 + y / 16, y % 16 * 4 + z / 64);
  }

  /** Padding is at most two characters at the end, and on its own leaves the text. */
  lemma Padded(s: seq<byte>)
    requires s != [] && s[|s| - 1] != '=' as int
    ensures StripPadding(s) == Some(s) && StripPadding([]) == Some([])
    ensures StripPadding(s + Ascii("=")) == StripPadding(s + Ascii("==")) == Some(s)
    ensures StripPadding(Ascii("==")) == None && StripPadding(Ascii("=")) == Some(Ascii("="))
    ensures StripPadding(s + Ascii("===")) == Some(s + Ascii("="))
  {
    var one, two, three := s + Ascii("="), s + Ascii("=="), s + Ascii("===");
    assert one[..|s|] == two[..|s|] == s && three[..|s| + 1] == one;
    assert Ascii("==") == [EQUALS, EQUALS] && two[0] == s[0] && three[0] == s[0];
  }
}
