/**
 * The UUID version 7 generator of utils/uuid.ts, following section 5.7 of RFC 9562:
 * 48 bits of Unix time in milliseconds, big-endian, then random bits, with the version
 * (section 4.2) and variant (section 4.1) fields set.
 *
 * `Date.now()` is the parameter `now` and the ten bytes `getRandomValues` writes are
 * the parameter `random`.
 */
module Uuid {

  type Byte = x: int | 0 <= x < 0x100

  predicate IsLowerHex(c: char) {
    '0' <= c <= '9' || 'a' <= c <= 'f'
  }

  function HexValue(c: char): (d: int)
    requires IsLowerHex(c)
    ensures 0 <= d < 16
  {
    if c <= '9' then c as int - '0' as int else c as int - 'a' as int + 10
  }

  /** The lower-case hexadecimal digit of `d`, as `Number.prototype.toString(16)` writes it. */
  function HexDigit(d: int): (c: char)
    requires 0 <= d < 16
    ensures IsLowerHex(c) && HexValue(c) == d
  {
    if d < 10 then ('0' as int + d) as char else ('a' as int + d - 10) as char
  }

  /** `hexByte`: exactly two lower-case hex digits, high nibble first, that encode `v`. */
  function HexByte(v: Byte): (r: string)
    ensures |r| == 2 && IsLowerHex(r[0]) && IsLowerHex(r[1])
    ensures HexValue(r[0]) * 16 + HexValue(r[1]) == v
  {
    // toString(16) gives one digit below 16, which padStart(2, "0") completes with '0'
    if v < 16 then ['0', HexDigit(v)] else [HexDigit(v / 16), HexDigit(v % 16)]
  }

  predicate IsDashPosition(i: int) {
    i == 8 || i == 13 || i == 18 || i == 23
  }

  /** 36 characters: dashes at 8, 13, 18 and 23, lower-case hex digits everywhere else. */
  predicate Layout(s: string) {
    && |s| == 36
    && forall i | 0 <= i < 36 :: if IsDashPosition(i) then s[i] == '-' else IsLowerHex(s[i])
  }

  /** The dash written in front of byte `j`: groups of 4, 2, 2, 2 and 6 bytes. */
  function Dash(j: int): string {
    if j == 4 || j == 6 || j == 8 || j == 10 then "-" else ""
  }

  /** Where the text of byte `j`, with its dash, starts. */
  function Start(j: int): int {
    2 * j + (if j > 4 then 1 else 0) + (if j > 6 then 1 else 0) + (if j > 8 then 1 else 0) + (if j > 10 then 1 else 0)
  }

  /** Where the first digit of byte `j` sits in the text form. */
  function Position(j: int): (p: int)
    requires 0 <= j < 16
    ensures 0 <= p < 35 && !IsDashPosition(p) && !IsDashPosition(p + 1)
  {
    Start(j) + |Dash(j)|
  }

  /** The text of bytes `j` to 15. */
  function FormatFrom(b: seq<Byte>, j: nat): (r: string)
    requires |b| == 16 && j <= 16
    ensures |r| == 36 - Start(j)
    decreases 16 - j
  {
    if j == 16 then "" else Dash(j) + HexByte(b[j]) + FormatFrom(b, j + 1)
  }

  /** The text form: the sixteen `hexByte`s in order, with a dash before bytes 4, 6, 8 and 10. */
  function Format(b: seq<Byte>): string
    requires |b| == 16
  {
    FormatFrom(b, 0)
  }

  /** The bytes a well-laid-out UUID text spells. */
  function DecodeBytes(s: string): (b: seq<Byte>)
    requires Layout(s)
    ensures |b| == 16
  {
    seq(16, j requires 0 <= j < 16 => HexValue(s[Position(j)]) * 16 + HexValue(s[Position(j) + 1]))
  }

  /** What the layout asks for at index `i` of the text. */
  predicate FitsLayout(i: int, c: char) {
    if IsDashPosition(i) then c == '-' else IsLowerHex(c)
  }

  /** The dash and two digits of byte `j` sit where the layout puts them. */
  lemma HeadLayout(b: seq<Byte>, j: nat)
    requires |b| == 16 && j < 16
    ensures forall k | 0 <= k < |Dash(j)| + 2 :: FitsLayout(Start(j) + k, FormatFrom(b, j)[k])
  {
    var r := FormatFrom(b, j);
    var head := Dash(j) + HexByte(b[j]);
    assert r == head + FormatFrom(b, j + 1);
    forall k | 0 <= k < |head|
      ensures FitsLayout(Start(j) + k, r[k])
    {
      assert r[k] == head[k];
      if k >= |Dash(j)| {
        assert head[k] == HexByte(b[j])[k - |Dash(j)|];
      }
    }
  }

  /** The text of bytes `j` to 15 carries the dashes and digits of its stretch of the layout. */
  lemma {:induction false} FormatFromLayout(b: seq<Byte>, j: nat)
    requires |b| == 16 && j <= 16
    ensures forall k | 0 <= k < |FormatFrom(b, j)| :: FitsLayout(Start(j) + k, FormatFrom(b, j)[k])
    decreases 16 - j
  {
    if j < 16 {
      FormatFromLayout(b, j + 1);
      HeadLayout(b, j);
      var r, rest := FormatFrom(b, j), FormatFrom(b, j + 1);
      var n := |Dash(j)| + 2;
      assert r == Dash(j) + HexByte(b[j]) + rest;
      forall k | n <= k < |r|
        ensures FitsLayout(Start(j) + k, r[k])
      {
        assert r[k] == rest[k - n];
      }
    }
  }

  lemma FormatLayout(b: seq<Byte>)
    requires |b| == 16
    ensures Layout(Format(b))
  {
    FormatFromLayout(b, 0);
  }

  /** Shifting an index of `rest` past the head of `head + rest`. */
  lemma PastHead(r: string, head: string, rest: string, p: int)
    requires r == head + rest && 0 <= p < |rest| - 1
    ensures r[p + |head|] == rest[p] && r[p + 1 + |head|] == rest[p + 1]
  {
  }

  lemma {:induction false} FormatFromAt(b: seq<Byte>, j: nat, k: int)
    requires |b| == 16 && j <= k < 16
    ensures var r := FormatFrom(b, j);
      r[Position(k) - Start(j)] == HexByte(b[k])[0] && r[Position(k) + 1 - Start(j)] == HexByte(b[k])[1]
    decreases 16 - j
  {
    var r, rest := FormatFrom(b, j), FormatFrom(b, j + 1);
    var head := Dash(j) + HexByte(b[j]);
    assert r == head + rest;
    if j < k {
      FormatFromAt(b, j + 1, k);
      PastHead(r, head, rest, Position(k) - Start(j + 1));
    } else {
      assert r[|Dash(j)|] == head[|Dash(j)|] && r[|Dash(j)| + 1] == head[|Dash(j)| + 1];
    }
  }

  /** The two characters at `Position(j)` are `hexByte(b[j])`. */
  lemma FormatAt(b: seq<Byte>, j: int)
    requires |b| == 16 && 0 <= j < 16
    ensures var s := Format(b);
      s[Position(j)] == HexByte(b[j])[0] && s[Position(j) + 1] == HexByte(b[j])[1]
  {
    FormatFromAt(b, 0, j);
  }

  /** The text form is lossless: decoding it gives back the bytes. */
  lemma DecodeFormat(b: seq<Byte>)
    requires |b| == 16
    ensures Layout(Format(b)) && DecodeBytes(Format(b)) == b
  {
    FormatLayout(b);
    forall j | 0 <= j < 16
      ensures DecodeBytes(Format(b))[j] == b[j]
    {
      FormatAt(b, j);
    }
  }

  /** A byte under the version mask shows as '7' at index 14. */
  lemma VersionChar(b: seq<Byte>)
    requires |b| == 16 && b[6] / 16 == 7
    ensures Format(b)[14] == '7'
  {
    FormatAt(b, 6);
    assert HexByte(b[6])[0] == HexDigit(7);
  }

  /** A byte under the variant mask shows as 8, 9, a or b at index 19. */
  lemma VariantChar(b: seq<Byte>)
    requires |b| == 16 && b[8] / 64 == 2
    ensures Format(b)[19] in "89ab"
  {
    FormatAt(b, 8);
    var d := b[8] / 16;
    assert 8 <= d < 12 && HexByte(b[8])[0] == HexDigit(d);
    assert HexDigit(d) == if d == 8 then '8' else if d == 9 then '9' else if d == 10 then 'a' else 'b';
  }

  /** The unsigned value of a run of bytes, most significant first. */
  function BigEndian(bs: seq<Byte>): (v: nat)
  {
    if bs == [] then 0 else BigEndian(bs[..|bs| - 1]) * 0x100 + bs[|bs| - 1]
  }

  /** `(v & 0x0f) | 0x70`: the low nibble of `v` under the version nibble 7. */
  function WithVersion(v: Byte): (r: Byte)
    ensures r / 16 == 7 && r % 16 == v % 16
  {
    0x70 + v % 0x10
  }

  /** `(v & 0x3f) | 0x80`: the low six bits of `v` under the variant bits `10`. */
  function WithVariant(v: Byte): (r: Byte)
    ensures r / 64 == 2 && r % 64 == v % 64
  {
    0x80 + v % 0x40
  }

  /** Two bytes, high one first, spell a number modulo 2^16. */
  lemma TwoBytes(x: nat)
    ensures (x / 0x100 % 0x100) * 0x100 + x % 0x100 == x % 0x1_0000
  {
  }

  /** The four bytes `timeLow >>> 24`, `>>> 16`, `>>> 8` and `timeLow` itself spell `timeLow`. */
  lemma FourBytes(x: nat)
    requires x < 0x1_0000_0000
    ensures (((x / 0x100_0000 % 0x100) * 0x100 + x / 0x1_0000 % 0x100) * 0x100 + x / 0x100 % 0x100) * 0x100 + x % 0x100 == x
  {
    var hi := x / 0x1_0000;
    TwoBytes(hi);
    TwoBytes(x);
    assert hi / 0x100 == x / 0x100_0000;
    assert hi % 0x1_0000 == hi;
    assert x == hi * 0x1_0000 + x % 0x1_0000;
  }

  /** The byte values of a six-byte run, most significant first. */
  lemma BigEndianSix(b: seq<Byte>)
    requires |b| == 6
    ensures BigEndian(b) == ((((b[0] as int * 0x100 + b[1]) * 0x100 + b[2]) * 0x100 + b[3]) * 0x100 + b[4]) * 0x100 + b[5]
  {
    assert BigEndian(b[..1]) == b[0] by { assert b[..1][..0] == []; }
    assert BigEndian(b[..2]) == BigEndian(b[..1]) * 0x100 + b[1] by { assert b[..2][..1] == b[..1]; }
    assert BigEndian(b[..3]) == BigEndian(b[..2]) * 0x100 + b[2] by { assert b[..3][..2] == b[..2]; }
    assert BigEndian(b[..4]) == BigEndian(b[..3]) * 0x100 + b[3] by { assert b[..4][..3] == b[..3]; }
    assert BigEndian(b[..5]) == BigEndian(b[..4]) * 0x100 + b[4] by { assert b[..5][..4] == b[..4]; }
    assert b == b[..6] && b[..6][..5] == b[..5];
  }

  /** The six time bytes spell `now` modulo 2^48. */
  lemma TimeBytes(now: nat, b: seq<Byte>)
    requires |b| == 6
    requires var timeHigh, timeLow := now / 0x1_0000_0000, now % 0x1_0000_0000;
      && b[0] == (timeHigh % 0x1_0000_0000) / 0x100 % 0x100 && b[1] == timeHigh % 0x100
      && b[2] == timeLow / 0x100_0000 % 0x100 && b[3] == timeLow / 0x1_0000 % 0x100
      && b[4] == timeLow / 0x100 % 0x100 && b[5] == timeLow % 0x100
    ensures BigEndian(b) == now % 0x1_0000_0000_0000
  {
    var timeHigh, timeLow := now / 0x1_0000_0000, now % 0x1_0000_0000;
    BigEndianSix(b);
    TwoBytes(timeHigh);
    SecondByteOfLowWord(timeHigh);
    assert b[0] as int * 0x100 + b[1] == timeHigh % 0x1_0000;
    FourBytes(timeLow);
    assert BigEndian(b) == (timeHigh % 0x1_0000) * 0x1_0000_0000 + timeLow;
    SplitAt48(now);
  }

  /** `(x >>> 8) & 0xff` is the second byte of `x`, whatever `x`'s bits above 2^32. */
  lemma SecondByteOfLowWord(x: nat)
    ensures (x % 0x1_0000_0000) / 0x100 % 0x100 == x / 0x100 % 0x100
  {
    var q, r := x / 0x1_0000_0000, x % 0x1_0000_0000;
    var t := r / 0x100;
    assert x == 0x100 * (q * 0x100_0000 + t) + r % 0x100;
    ByteShiftDiv(x, q * 0x100_0000 + t, r % 0x100);
    ByteShiftMod(t, q * 0x1_0000);
  }

  lemma ByteShiftDiv(x: nat, hi: nat, lo: nat)
    requires lo < 0x100 && x == 0x100 * hi + lo
    ensures x / 0x100 == hi
  {
  }

  lemma ByteShiftMod(t: nat, n: nat)
    ensures (0x100 * n + t) % 0x100 == t % 0x100
  {
  }

  /** `now` modulo 2^48 is its low 16 bits above 2^32 and its low 32 bits. */
  lemma SplitAt48(now: nat)
    ensures now % 0x1_0000_0000_0000 == (now / 0x1_0000_0000 % 0x1_0000) * 0x1_0000_0000 + now % 0x1_0000_0000
  {
    var timeHigh, timeLow := now / 0x1_0000_0000, now % 0x1_0000_0000;
    var q := timeHigh / 0x1_0000;
    assert now == q * 0x1_0000_0000_0000 + ((timeHigh % 0x1_0000) * 0x1_0000_0000 + timeLow);
  }

  /** The time bytes `uuidV7` writes: `timeHigh` and `timeLow` shifted and masked. */
  predicate TimeFields(now: nat, b: seq<Byte>)
    requires |b| >= 6
  {
    var timeHigh, timeLow := now / 0x1_0000_0000, now % 0x1_0000_0000;
    && b[0] == (timeHigh % 0x1_0000_0000) / 0x100 % 0x100 && b[1] == timeHigh % 0x100
    && b[2] == timeLow / 0x100_0000 % 0x100 && b[3] == timeLow / 0x1_0000 % 0x100
    && b[4] == timeLow / 0x100 % 0x100 && b[5] == timeLow % 0x100
  }

  /** The random bytes `uuidV7` keeps, under the version and variant masks. */
  predicate RandomFields(random: seq<Byte>, b: seq<Byte>)
    requires |random| == 10 && |b| == 16
  {
    && b[6] == WithVersion(random[0]) && b[7] == random[1] && b[8] == WithVariant(random[2])
    && b[9..] == random[3..]
  }

  /** What the text of such bytes shows. */
  lemma V7Text(now: nat, random: seq<Byte>, b: seq<Byte>)
    requires |random| == 10 && |b| == 16 && TimeFields(now, b) && RandomFields(random, b)
    ensures var s := Format(b);
      && Layout(s) && DecodeBytes(s) == b
      && BigEndian(b[..6]) == now % 0x1_0000_0000_0000
      && s[14] == '7' && s[19] in "89ab"
  {
    TimeBytes(now, b[..6]);
    DecodeFormat(b);
    VersionChar(b);
    VariantChar(b);
  }

  /**
   * `uuidV7()`: the 16 bytes are filled in place — the time bytes, then the random
   * bytes over bytes 6 to 15, then the version and variant masks — and written out.
   */
  method UuidV7(now: nat, random: seq<Byte>) returns (s: string)
    requires |random| == 10
    ensures Layout(s)
    ensures var b := DecodeBytes(s);
      && BigEndian(b[..6]) == now % 0x1_0000_0000_0000
      && RandomFields(random, b)
    ensures s[14] == '7' && s[19] in "89ab"
  {
    var timeHigh := now / 0x1_0000_0000;
    var timeLow := now % 0x1_0000_0000;  // `now >>> 0`
    var bytes := new Byte[16];
    // `x >>> n` is `ToUint32(x)` shifted, and `x & 0xff` the low byte of a non-negative `x`
    bytes[0] := (timeHigh % 0x1_0000_0000) / 0x100 % 0x100;
    bytes[1] := timeHigh % 0x100;
    bytes[2] := timeLow / 0x100_0000 % 0x100;
    bytes[3] := timeLow / 0x1_0000 % 0x100;
    bytes[4] := timeLow / 0x100 % 0x100;
    bytes[5] := timeLow % 0x100;
    assert TimeFields(now, bytes[..]);
    forall i | 6 <= i < 16 {
      bytes[i] := random[i - 6];
    }
    bytes[6] := WithVersion(bytes[6]);
    bytes[8] := WithVariant(bytes[8]);
    assert TimeFields(now, bytes[..]);
    assert bytes[9..] == random[3..];
    s := Format(bytes[..]);
    V7Text(now, random, bytes[..]);
  }
}
