/** The colour of a tag chip: `stringToDarkerColor` hashes the tag and turns
    three bytes of the hash into a dark `#rrggbb` colour. */
module TagColor {
  import opened JsString

  const TWO_31: int := 0x8000_0000
  const TWO_32: int := 0x1_0000_0000

  // ----- ECMAScript number operators -----------------------------------------

  /** ToInt32: the 32-bit two's-complement integer congruent to x. */
  function ToInt32(x: int): (r: int)
    ensures -TWO_31 <= r < TWO_31
    ensures r % TWO_32 == x % TWO_32
  {
    var u := x % TWO_32;
    if u >= TWO_31 then u - TWO_32 else u
  }

  function Pow2(n: nat): (r: nat)
    ensures r >= 1
  {
    if n == 0 then 1 else 2 * Pow2(n - 1)
  }

  /** `x << n`: the shift count is taken modulo 32. */
  function ShiftLeft(x: int, n: nat): (r: int)
    ensures -TWO_31 <= r < TWO_31
    ensures r % TWO_32 == (ToInt32(x) * Pow2(n % 32)) % TWO_32
  {
    ToInt32(ToInt32(x) * Pow2(n % 32))
  }

  /** `x >> n`: the sign-propagating shift, a floor division. */
  function ShiftRight(x: int, n: nat): (r: int)
    ensures -TWO_31 <= r < TWO_31
    ensures r * Pow2(n % 32) <= ToInt32(x) < (r + 1) * Pow2(n % 32)
  {
    var t, p := ToInt32(x), Pow2(n % 32);
    FloorDiv(t, p);
    t / p
  }

  /** Division by a positive divisor rounds down and keeps a 32-bit value
      within 32 bits. */
  lemma FloorDiv(t: int, p: int)
    requires -TWO_31 <= t < TWO_31 && p >= 1
    ensures t / p * p <= t < (t / p + 1) * p
    ensures -TWO_31 <= t / p < TWO_31
  {
  }

  /** `x & 0xFF`: the low byte of the two's-complement representation. */
  function LowByte(x: int): (r: int)
    ensures 0 <= r < 256 && r == x % 256
  {
    ToInt32(x) % 256
  }

  // ----- The hash ----------------------------------------------------------------

  /** The value of `hash` after the loop has read all of s, as the exact
      integer `charCodeAt(i) + ((hash << 5) - hash)` produces. */
  function JsHash(s: JsString): (h: int)
    ensures -|s| * TWO_32 <= h <= |s| * TWO_32
    decreases |s|
  {
    if s == [] then 0
    else
      var h := JsHash(s[..|s| - 1]);
      s[|s| - 1] as int + (ShiftLeft(h, 5) - h)
  }

  /** The 32-bit hash the loop computes: h := 31 * h + c, modulo 2^32. */
  function Hash32(s: JsString): (h: nat)
    ensures h < TWO_32
    decreases |s|
  {
    if s == [] then 0 else (31 * Hash32(s[..|s| - 1]) + s[|s| - 1] as int) % TWO_32
  }

  lemma ShiftLeftFive(h: int)
    ensures ShiftLeft(h, 5) % TWO_32 == (32 * (h % TWO_32)) % TWO_32
  {
    var t := ToInt32(h);
    assert Pow2(5) == 32;
    var u := h % TWO_32;
    assert t == u || t == u - TWO_32;
    if t == u - TWO_32 {
      assert 32 * t == 32 * u - 32 * TWO_32;
    }
  }

  /** The exact hash and the 32-bit hash agree modulo 2^32: everything after
      the hash loop depends only on the hash modulo 2^32. */
  lemma {:induction false} HashAgrees(s: JsString)
    ensures JsHash(s) % TWO_32 == Hash32(s)
    decreases |s|
  {
    if s != [] {
      var p := s[..|s| - 1];
      var c := s[|s| - 1] as int;
      var h := JsHash(p);
      HashAgrees(p);
      ShiftLeftFive(h);
      var u := h % TWO_32;
      var a := ShiftLeft(h, 5);
      var q := h / TWO_32;
      assert a == a % TWO_32 + TWO_32 * (a / TWO_32);
      assert h == u + TWO_32 * q;
      var m := (32 * u) % TWO_32;
      assert a == m + TWO_32 * (a / TWO_32);
      assert 32 * u == m + TWO_32 * ((32 * u) / TWO_32);
      assert JsHash(s) == c + 31 * u + TWO_32 * (a / TWO_32 - (32 * u) / TWO_32 - q);
      ModShift(c + 31 * u, a / TWO_32 - (32 * u) / TWO_32 - q);
    }
  }

  lemma ModShift(x: int, k: int)
    ensures (x + TWO_32 * k) % TWO_32 == x % TWO_32
  {
  }

  // ----- Hexadecimal -------------------------------------------------------------

  /** The lower-case hexadecimal digit for d. */
  function HexDigit(d: nat): (c: CodeUnit)
    requires d < 16
    ensures IsHexDigit(c)
  {
    if d < 10 then (DIGIT_ZERO as int + d) as CodeUnit else (SMALL_A as int + d - 10) as CodeUnit
  }

  predicate IsHexDigit(c: CodeUnit) {
    DIGIT_ZERO <= c <= DIGIT_ZERO + 9 || SMALL_A <= c <= SMALL_A + 5
  }

  /** The value of a lower-case hexadecimal digit. */
  function DigitValue(c: CodeUnit): (d: nat)
    requires IsHexDigit(c)
    ensures d < 16 && HexDigit(d) == c
  {
    if c <= DIGIT_ZERO + 9 then (c - DIGIT_ZERO) as nat else (c - SMALL_A) as nat + 10
  }

  /** `n.toString(16)`: no leading zeros, lower-case digits. */
  function ToHex(n: nat): (r: JsString)
    ensures |r| >= 1 && (forall k :: 0 <= k < |r| ==> IsHexDigit(r[k]))
    decreases n
  {
    if n < 16 then [HexDigit(n)] else ToHex(n / 16) + [HexDigit(n % 16)]
  }

  /** The number a string of lower-case hexadecimal digits denotes. */
  function HexValue(s: JsString): nat
    requires forall k :: 0 <= k < |s| ==> IsHexDigit(s[k])
    decreases |s|
  {
    if s == [] then 0 else 16 * HexValue(s[..|s| - 1]) + DigitValue(s[|s| - 1])
  }

  /** Reading `toString(16)` back gives the number. */
  lemma {:induction false} HexRoundTrip(n: nat)
    ensures HexValue(ToHex(n)) == n
    decreases n
  {
    var r := ToHex(n);
    if n >= 16 {
      HexRoundTrip(n / 16);
      assert r[..|r| - 1] == ToHex(n / 16);
    }
  }

  /** A number of two hexadecimal digits prints as exactly those two digits. */
  lemma ToHexTwoDigits(n: nat)
    requires 16 <= n < 256
    ensures ToHex(n) == HexPair(n)
  {
    assert ToHex(n / 16) == [HexDigit(n / 16)];
  }

  // ----- The colour --------------------------------------------------------------

  /** Byte i of h, counting from the least significant. */
  function ByteOf(h: nat, i: nat): (b: nat)
    ensures b < 256
  {
    (h / Pow2(8 * i)) % 256
  }

  /** Channel i of the colour: the low seven bits of byte i, raised by 64. */
  function Channel(h: nat, i: nat): (v: nat)
    ensures 64 <= v < 192
  {
    ByteOf(h, i) % 128 + 64
  }

  /** The two-digit form of a byte. */
  function HexPair(v: nat): JsString
    requires v < 256
  {
    [HexDigit(v / 16), HexDigit(v % 16)]
  }

  /** `#` followed by the first n channels of h, two digits each. */
  function ColorPrefix(h: nat, n: nat): (r: JsString)
    ensures |r| == 1 + 2 * n
    decreases n
  {
    if n == 0 then [NUMBER_SIGN] else ColorPrefix(h, n - 1) + HexPair(Channel(h, n - 1))
  }

  /** The colour of tag s: channels 0, 1 and 2 of its 32-bit hash. */
  function DarkerColor(s: JsString): JsString {
    ColorPrefix(Hash32(s), 3)
  }

  lemma Pow2Bytes()
    ensures Pow2(0) == 1 && Pow2(8) == 0x100 && Pow2(16) == 0x1_0000
  {
    assert Pow2(4) == 16;
    assert Pow2(8) == 0x100;
    assert Pow2(12) == 0x1000;
  }

  /** Subtracting 2^32 leaves byte 0, 1 or 2 unchanged. */
  lemma WrapKeepsByte(u: int, p: int)
    requires p == 1 || p == 0x100 || p == 0x1_0000
    ensures ((u - TWO_32) / p) % 256 == (u / p) % 256
  {
    assert (u - TWO_32) / p == u / p - TWO_32 / p;
  }

  /** For the three channels the colour uses, `(hash >> (i * 8)) & 0xFF`
      is byte i of the hash taken modulo 2^32. */
  lemma LowByteOfShift(h: int, i: nat)
    requires i < 3
    ensures LowByte(ShiftRight(h, i * 8)) == ByteOf(h % TWO_32, i)
  {
    var u := h % TWO_32;
    var t := ToInt32(h);
    var p := Pow2(8 * i);
    assert i * 8 % 32 == 8 * i;
    Pow2Bytes();
    assert ToInt32(t / p) == t / p;
    if t != u {
      WrapKeepsByte(u, p);
    }
  }

  /** The padding with `'0'` is never needed: every channel has two digits. */
  lemma ChannelHasTwoDigits(h: int, i: nat)
    requires i < 3
    ensures |ToHex(LowByte(ShiftRight(h, i * 8)) % 128 + 64)| == 2
  {
    var v := LowByte(ShiftRight(h, i * 8)) % 128 + 64;
    ToHexTwoDigits(v);
  }

  /** `stringToDarkerColor(str)`. */
  method StringToDarkerColor(str: JsString) returns (color: JsString)
    ensures color == DarkerColor(str)
  {
    var hash := 0;
    for i := 0 to |str|
      invariant hash == JsHash(str[..i])
    {
      HashStep(str, i);
      hash := str[i] as int + (ShiftLeft(hash, 5) - hash);
    }
    assert str[..|str|] == str;
    HashAgrees(str);
    color := [NUMBER_SIGN];
    for i := 0 to 3
      invariant color == ColorPrefix(JsHash(str) % TWO_32, i)
    {
      var value := LowByte(ShiftRight(hash, i * 8));
      var darkValue := ToHex(value % 128 + 64);
      ColorStep(hash, i);
      color := color + (if |darkValue| < 2 then [DIGIT_ZERO] else []) + darkValue;
    }
  }

  /** One turn of the hash loop. */
  lemma HashStep(s: JsString, i: nat)
    requires i < |s|
    ensures JsHash(s[..i + 1]) == s[i] as int + (ShiftLeft(JsHash(s[..i]), 5) - JsHash(s[..i]))
  {
    assert s[..i + 1][..i] == s[..i];
  }

  /** One turn of the colour loop appends channel i of the hash. */
  lemma ColorStep(hash: int, i: nat)
    requires i < 3
    ensures var darkValue := ToHex(LowByte(ShiftRight(hash, i * 8)) % 128 + 64);
      ColorPrefix(hash % TWO_32, i + 1)
        == ColorPrefix(hash % TWO_32, i) + (if |darkValue| < 2 then [DIGIT_ZERO] else []) + darkValue
  {
    var v := LowByte(ShiftRight(hash, i * 8)) % 128 + 64;
    LowByteOfShift(hash, i);
    ToHexTwoDigits(v);
  }

  // ----- Properties of the colour ------------------------------------------------

  /** The colour written out channel by channel. */
  lemma ColorChannels(h: nat)
    ensures var c0, c1, c2 := Channel(h, 0), Channel(h, 1), Channel(h, 2);
      ColorPrefix(h, 3) == [NUMBER_SIGN,
        HexDigit(c0 / 16), HexDigit(c0 % 16),
        HexDigit(c1 / 16), HexDigit(c1 % 16),
        HexDigit(c2 / 16), HexDigit(c2 % 16)]
  {
  }

  /** The colour is `#` and six lower-case hexadecimal digits. */
  lemma DarkerColorShape(s: JsString)
    ensures var r := DarkerColor(s);
      |r| == 7 && r[0] == NUMBER_SIGN && forall k :: 1 <= k < 7 ==> IsHexDigit(r[k])
  {
    ColorChannels(Hash32(s));
  }

  /** Digits 2i+1 and 2i+2 of the colour spell channel i of the 32-bit hash,
      a value in [64, 191], so no channel is brighter than 0xbf. */
  lemma DarkerColorChannels(s: JsString, i: nat)
    requires i < 3
    ensures var r := DarkerColor(s); var d := r[1 + 2 * i..3 + 2 * i];
      (forall k :: 0 <= k < 2 ==> IsHexDigit(d[k])) &&
      HexValue(d) == Channel(Hash32(s), i) &&
      64 <= HexValue(d) < 192
  {
    var h := Hash32(s);
    var v := Channel(h, i);
    ChannelSlice(h, i);
    PairValue(v);
  }

  lemma ChannelSlice(h: nat, i: nat)
    requires i < 3
    ensures ColorPrefix(h, 3)[1 + 2 * i..3 + 2 * i] == HexPair(Channel(h, i))
  {
    ColorChannels(h);
  }

  /** The two digits of a channel read back as the channel. */
  lemma PairValue(v: nat)
    requires 16 <= v < 256
    ensures (forall k :: 0 <= k < 2 ==> IsHexDigit(HexPair(v)[k])) && HexValue(HexPair(v)) == v
  {
    ToHexTwoDigits(v);
    HexRoundTrip(v);
  }

  /** The empty tag hashes to 0 and gets `#404040`. */
  lemma DarkerColorEmpty()
    ensures DarkerColor([]) == [NUMBER_SIGN, 0x34, 0x30, 0x34, 0x30, 0x34, 0x30]
  {
    ColorChannels(0);
    LowChannel(0);
    HighBytesOfSmall(0);
    assert HexDigit(64 / 16) == 0x34 && HexDigit(64 % 16) == 0x30;
  }

  /** Channel 0 of a hash below 128 is the hash raised by 64. */
  lemma LowChannel(h: nat)
    requires h < 128
    ensures Channel(h, 0) == h + 64
  {
    assert Pow2(0) == 1;
  }

  /** A hash below 256 has zero bytes 1 and 2. */
  lemma HighBytesOfSmall(h: nat)
    requires h < 256
    ensures Channel(h, 1) == 64 && Channel(h, 2) == 64
  {
    Pow2Bytes();
    assert h / 0x100 == 0 && h / 0x1_0000 == 0;
  }

  /** The tag `a` (code unit 0x61) hashes to 97 and gets `#a14040`. */
  lemma DarkerColorOfA()
    ensures DarkerColor([SMALL_A]) == [NUMBER_SIGN, SMALL_A, 0x31, 0x34, 0x30, 0x34, 0x30]
  {
    assert Hash32([SMALL_A]) == 97 by {
      assert [SMALL_A][..0] == [];
    }
    ColorChannels(97);
    LowChannel(97);
    HighBytesOfSmall(97);
    assert HexDigit(161 / 16) == SMALL_A && HexDigit(161 % 16) == 0x31;
    assert HexDigit(64 / 16) == 0x34 && HexDigit(64 % 16) == 0x30;
  }
}
