/**
 * `stringToColor` of 3dviz/src/DataVisualization.js: a 32-bit rolling string hash
 * rendered as a `#rrggbb`-shaped colour string.
 *
 * JavaScript numbers are doubles; the bit operators `<<`, `>>` and `&` first reduce
 * their operands to signed 32-bit integers (ToInt32) and yield signed 32-bit
 * integers, while `+` and `-` are ordinary arithmetic. Integers stand for the
 * doubles here, which is exact as long as the hash stays below 2^53.
 */
module ColorHash {

  const Mod32: int := 0x1_0000_0000
  const Half32: int := 0x8000_0000

  /** JavaScript's ToInt32: the signed 32-bit integer congruent to `x` modulo 2^32. */
  function ToInt32(x: int): (r: int)
    ensures -Half32 <= r < Half32
    ensures (x - r) % Mod32 == 0
  {
    var m := x % Mod32;
    if m >= Half32 then m - Mod32 else m
  }

  /** A signed 32-bit value is its own ToInt32. */
  lemma Int32Unchanged(x: int)
    requires -Half32 <= x < Half32
    ensures ToInt32(x) == x
  {
    if x < 0 {
      assert x % Mod32 == x + Mod32;
    }
  }

  /** The number of times 2^32 was taken off `x` to reach its signed 32-bit value. */
  ghost function Int32Quotient(x: int): (q: int)
    ensures x == ToInt32(x) + q * Mod32
  {
    if x % Mod32 >= Half32 then x / Mod32 + 1 else x / Mod32
  }

  /** Two integers that differ by a multiple of 2^32 have the same signed 32-bit value. */
  lemma SameInt32(x: int, y: int, q: int)
    requires x == y + q * Mod32
    ensures ToInt32(x) == ToInt32(y)
  {
    var d, m := y / Mod32, y % Mod32;
    assert x == (d + q) * Mod32 + m;
    assert x % Mod32 == m;
  }

  /** `x << 5`: the operand and the result are both signed 32-bit; the value is 32 * x modulo 2^32. */
  function ShiftLeft5(x: int): (r: int)
    ensures -Half32 <= r < Half32
    ensures (r - 32 * x) % Mod32 == 0
  {
    ShiftCongruent(x);
    ToInt32(ToInt32(x) * 32)
  }

  lemma ShiftCongruent(x: int)
    ensures (ToInt32(ToInt32(x) * 32) - 32 * x) % Mod32 == 0
  {
    var t := ToInt32(x);
    var q1 := Int32Quotient(x);
    var q2 := Int32Quotient(t * 32);
    assert ToInt32(t * 32) - 32 * x == (-q2 - 32 * q1) * Mod32;
  }

  /** One iteration of the hashing loop, `hash = code + ((hash << 5) - hash)`, on JavaScript numbers. */
  function HashStep(hash: int, code: int): int
  {
    code + (ShiftLeft5(hash) - hash)
  }

  /** The step is `31 * hash + code` reduced to a signed 32-bit integer. */
  lemma HashStepWraps(hash: int, code: int)
    ensures ToInt32(HashStep(hash, code)) == ToInt32(31 * ToInt32(hash) + code)
  {
    var t := ToInt32(hash);
    var q1 := Int32Quotient(hash);
    var q2 := Int32Quotient(t * 32);
    assert ShiftLeft5(hash) == ToInt32(t * 32);
    assert HashStep(hash, code) == 31 * t + code + (-q1 - q2) * Mod32;
    SameInt32(HashStep(hash, code), 31 * t + code, -q1 - q2);
  }

  /**
   * The code point of `c`, which equals the code unit `str.charCodeAt(i)` reads for a
   * character of the Basic Multilingual Plane.
   */
  function Code(c: char): int
  {
    c as int
  }

  /**
   * The signed 32-bit value (ToInt32) of the first loop's accumulator after `s`, which
   * is all that the `>>` of the second loop reads. The accumulator itself is never
   * reduced; its ToInt32 follows the recurrence `h := ToInt32(31 * h + code)`.
   */
  function Hash(s: string): (h: int)
    ensures -Half32 <= h < Half32
  {
    if s == [] then 0 else ToInt32(31 * Hash(s[..|s| - 1]) + Code(s[|s| - 1]))
  }

  /** Hashing one more character of `str`. */
  lemma HashExtend(str: string, i: nat)
    requires i < |str|
    ensures Hash(str[..i + 1]) == ToInt32(31 * Hash(str[..i]) + Code(str[i]))
  {
    assert str[..i + 1][..i] == str[..i];
  }

  /** The polynomial sum of the codes of `s` with base 31, without any reduction. */
  function Polynomial(s: string): int
  {
    if s == [] then 0 else 31 * Polynomial(s[..|s| - 1]) + Code(s[|s| - 1])
  }

  /** The wrapped recurrence computes the polynomial hash modulo 2^32. */
  lemma {:induction false} HashIsPolynomial(s: string)
    ensures Hash(s) == ToInt32(Polynomial(s))
  {
    if s != [] {
      var p := s[..|s| - 1];
      HashIsPolynomial(p);
      var c := Code(s[|s| - 1]);
      var q := Int32Quotient(Polynomial(p));
      SameInt32(31 * Polynomial(p) + c, 31 * Hash(p) + c, 31 * q);
    }
  }

  /** 2^(8 * i), the divisor that `>> (i * 8)` applies. */
  function ShiftDivisor(i: nat): int
    requires i < 3
  {
    if i == 0 then 1 else if i == 1 then 0x100 else 0x1_0000
  }

  /**
   * `(hash >> (i * 8)) & 0xFF`: an arithmetic (flooring) shift of the signed value,
   * then the low eight bits of its two's complement form, i.e. byte `i` of the
   * unsigned 32-bit representation of the hash.
   */
  function Channel(hash: int, i: nat): (v: int)
    requires i < 3
    ensures 0 <= v < 256
  {
    (ToInt32(hash) / ShiftDivisor(i)) % 256
  }

  /** Channel `i` is byte `i` of the unsigned 32-bit form of the hash, whatever its sign. */
  lemma ChannelIsUnsignedByte(hash: int, i: nat)
    requires i < 3
    ensures Channel(hash, i) == (hash % Mod32) / ShiftDivisor(i) % 256
  {
    var d := ShiftDivisor(i);
    var t := ToInt32(hash);
    var u := hash % Mod32;
    assert t == u || t == u - Mod32;
    if t != u {
      var k := Mod32 / d;
      assert Mod32 == d * k;
      assert k == 256 * (k / 256);
      assert (u - d * k) / d == u / d - k;
      assert (u / d - 256 * (k / 256)) % 256 == (u / d) % 256;
    }
  }

  /** A lowercase hexadecimal digit, as `toString(16)` writes them. */
  predicate IsHexDigit(c: char)
  {
    '0' <= c <= '9' || 'a' <= c <= 'f'
  }

  predicate AllHexDigits(s: string)
  {
    forall k :: 0 <= k < |s| ==> IsHexDigit(s[k])
  }

  /** The digit for 0..15: `0`-`9`, then `a`-`f`. */
  function HexDigit(d: int): (c: char)
    requires 0 <= d < 16
    ensures IsHexDigit(c)
  {
    if d < 10 then ('0' as int + d) as char else ('a' as int + d - 10) as char
  }

  /** The value of a lowercase hexadecimal digit. */
  function DigitValue(c: char): (d: int)
    requires IsHexDigit(c)
    ensures 0 <= d < 16 && HexDigit(d) == c
  {
    if c <= '9' then c as int - '0' as int else c as int - 'a' as int + 10
  }

  lemma DigitRoundTrip(d: int)
    requires 0 <= d < 16
    ensures DigitValue(HexDigit(d)) == d
  {
  }

  /** `v.toString(16)`: the lowercase base-16 digits of `v`, without leading zeros. */
  function ToHexString(v: nat): (s: string)
    ensures 1 <= |s|
    ensures AllHexDigits(s)
    ensures |s| == 1 <==> v < 16
  {
    if v < 16 then [HexDigit(v)] else ToHexString(v / 16) + [HexDigit(v % 16)]
  }

  /** Reading a string of lowercase hexadecimal digits back as a number. */
  function HexValue(s: string): nat
    requires AllHexDigits(s)
  {
    if s == [] then 0 else 16 * HexValue(s[..|s| - 1]) + DigitValue(s[|s| - 1])
  }

  /** `toString(16)` loses nothing: its digits read back as the number. */
  lemma {:induction false} HexRoundTrip(v: nat)
    ensures HexValue(ToHexString(v)) == v
  {
    var s := ToHexString(v);
    if v >= 16 {
      HexRoundTrip(v / 16);
      assert s[..|s| - 1] == ToHexString(v / 16);
      DigitRoundTrip(v % 16);
      assert HexValue(s) == 16 * (v / 16) + v % 16;
    } else {
      DigitRoundTrip(v);
      assert HexValue(s) == 16 * HexValue([]) + v;
    }
  }

  /** `('00' + s).substr(-2)`: the last two characters of `s` padded on the left with zeros. */
  function PadTwo(s: string): (r: string)
  {
    var padded := "00" + s;
    padded[|padded| - 2..]
  }

  /** The padding gives two characters: the last two of `s`, or `s` behind enough zeros. */
  lemma PadTwoCases(s: string)
    ensures |PadTwo(s)| == 2
    ensures |s| >= 2 ==> PadTwo(s) == s[|s| - 2..]
    ensures |s| == 1 ==> PadTwo(s) == ['0', s[0]]
    ensures |s| == 0 ==> PadTwo(s) == "00"
  {
  }

  /** One colour channel as it is appended to the colour string. */
  function ByteHex(v: nat): string
  {
    PadTwo(ToHexString(v))
  }

  /** For a byte, the padding gives exactly its two-digit, zero-padded hexadecimal form. */
  lemma ByteHexDigits(v: nat)
    requires v < 256
    ensures ByteHex(v) == [HexDigit(v / 16), HexDigit(v % 16)]
  {
    if v >= 16 {
      assert ToHexString(v / 16) == [HexDigit(v / 16)];
    }
  }

  /** `#` followed by the first `n` channels of `hash`: the colour string after `n` turns of the second loop. */
  function ColorPrefix(hash: int, n: nat): string
    requires n <= 3
  {
    if n == 0 then "#" else ColorPrefix(hash, n - 1) + ByteHex(Channel(hash, n - 1))
  }

  /** The shape of a CSS hex colour: `#` followed by six lowercase hexadecimal digits. */
  predicate IsHexColor(color: string)
  {
    |color| == 7 && color[0] == '#' && forall k :: 1 <= k < 7 ==> IsHexDigit(color[k])
  }

  /** The colour of a string: `#` followed by channels 0, 1 and 2 of its hash. */
  function ColorOf(str: string): (color: string)
    ensures IsHexColor(color)
  {
    ColorLayout(Hash(str));
    ColorPrefix(Hash(str), 3)
  }

  /** The colour string after `n` channels: `#`, then two digits per channel, high digit first. */
  lemma {:induction false} ColorPrefixLayout(hash: int, n: nat)
    requires n <= 3
    ensures |ColorPrefix(hash, n)| == 1 + 2 * n && ColorPrefix(hash, n)[0] == '#'
    ensures forall k :: 1 <= k < 1 + 2 * n ==> IsHexDigit(ColorPrefix(hash, n)[k])
    ensures forall i :: 0 <= i < n ==>
      ColorPrefix(hash, n)[1 + 2 * i] == HexDigit(Channel(hash, i) / 16) &&
      ColorPrefix(hash, n)[2 + 2 * i] == HexDigit(Channel(hash, i) % 16)
  {
    if n > 0 {
      ColorPrefixLayout(hash, n - 1);
      ByteHexDigits(Channel(hash, n - 1));
    }
  }

  /** The value of the two hexadecimal digits that follow `#` for channel `i`. */
  function PairValue(color: string, i: nat): int
    requires i < 3 && |color| == 7
    requires forall k :: 1 <= k < 7 ==> IsHexDigit(color[k])
  {
    16 * DigitValue(color[1 + 2 * i]) + DigitValue(color[2 + 2 * i])
  }

  /** One digit pair of a colour reads back as its channel. */
  lemma PairLayout(color: string, hash: int, i: nat)
    requires i < 3 && |color| == 7
    requires color[1 + 2 * i] == HexDigit(Channel(hash, i) / 16)
    requires color[2 + 2 * i] == HexDigit(Channel(hash, i) % 16)
    requires forall k :: 1 <= k < 7 ==> IsHexDigit(color[k])
    ensures PairValue(color, i) == Channel(hash, i)
  {
    DigitRoundTrip(Channel(hash, i) / 16);
    DigitRoundTrip(Channel(hash, i) % 16);
  }

  /** The three-channel colour of any hash: `#`, then six digits whose pairs read back as the channels. */
  lemma ColorLayout(h: int)
    ensures |ColorPrefix(h, 3)| == 7 && ColorPrefix(h, 3)[0] == '#'
    ensures forall k :: 1 <= k < 7 ==> IsHexDigit(ColorPrefix(h, 3)[k])
    ensures PairValue(ColorPrefix(h, 3), 0) == Channel(h, 0)
    ensures PairValue(ColorPrefix(h, 3), 1) == Channel(h, 1)
    ensures PairValue(ColorPrefix(h, 3), 2) == Channel(h, 2)
  {
    var color := ColorPrefix(h, 3);
    ColorPrefixLayout(h, 3);
    PairLayout(color, h, 0);
    PairLayout(color, h, 1);
    PairLayout(color, h, 2);
  }

  /**
   * Every colour is seven characters long, `#` and six lowercase hexadecimal digits,
   * and digit pair `i` reads back as channel `i` of the hash.
   */
  lemma ColorFormat(str: string)
    ensures |ColorOf(str)| == 7 && ColorOf(str)[0] == '#'
    ensures forall k :: 1 <= k < 7 ==> IsHexDigit(ColorOf(str)[k])
    ensures PairValue(ColorOf(str), 0) == Channel(Hash(str), 0)
    ensures PairValue(ColorOf(str), 1) == Channel(Hash(str), 1)
    ensures PairValue(ColorOf(str), 2) == Channel(Hash(str), 2)
  {
    ColorLayout(Hash(str));
  }

  /** The source's two loops: hash every character code, then append three padded channels. */
  method StringToColor(str: string) returns (color: string)
    ensures color == ColorOf(str)
  {
    var hash := 0;
    for i := 0 to |str|
      invariant ToInt32(hash) == Hash(str[..i])
    {
      HashStepWraps(hash, Code(str[i]));
      HashExtend(str, i);
      hash := HashStep(hash, Code(str[i]));
    }
    assert str[..|str|] == str;
    color := "#";
    for i := 0 to 3
      invariant color == ColorPrefix(hash, i)
    {
      var value := Channel(hash, i);
      color := color + PadTwo(ToHexString(value));
    }
    ColorOfAnyHash(str, hash);
  }

  /** The colour can be built from any number whose signed 32-bit value is the hash. */
  lemma ColorOfAnyHash(str: string, h: int)
    requires ToInt32(h) == Hash(str)
    ensures ColorOf(str) == ColorPrefix(h, 3)
  {
    var hash := Hash(str);
    Int32Unchanged(hash);
    SamePrefix(h, hash, 3);
  }

  /** The colour depends on the hash only through its signed 32-bit value. */
  lemma {:induction false} SamePrefix(h1: int, h2: int, n: nat)
    requires n <= 3 && ToInt32(h1) == ToInt32(h2)
    ensures ColorPrefix(h1, n) == ColorPrefix(h2, n)
  {
    if n > 0 {
      SamePrefix(h1, h2, n - 1);
    }
  }
}
