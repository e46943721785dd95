/** Hexadecimal colour strings: the `#rrggbb` format every palette value has,
    the two-digit channel formatter (`'{:02x}'`), the channel parser
    (`int(s, 16)` on a two-character slice) and `to_hex`, which turns a
    real-valued RGB triple into a palette string. */
module Hex {

  /** A lower-case hexadecimal digit, the only kind `'{:02x}'` emits. */
  predicate IsLowerHexDigit(c: char) {
    ('0' <= c <= '9') || ('a' <= c <= 'f')
  }

  /** A hexadecimal digit as `int(_, 16)` reads it (either case). */
  predicate IsHexDigit(c: char) {
    IsLowerHexDigit(c) || ('A' <= c <= 'F')
  }

  /** The palette invariant: `#` followed by exactly six lower-case hex digits. */
  predicate IsHexColor(s: string) {
    |s| == 7 && s[0] == '#' && forall i :: 1 <= i < 7 ==> IsLowerHexDigit(s[i])
  }

  /** The lower-case digit for a value below 16. */
  function Digit(d: int): (c: char)
    requires 0 <= d < 16
    ensures IsLowerHexDigit(c)
  {
    if d < 10 then ('0' as int + d) as char else ('a' as int + (d - 10)) as char
  }

  /** The value of one hexadecimal digit. */
  function DigitValue(c: char): (d: nat)
    requires IsHexDigit(c)
    ensures d < 16
    ensures IsLowerHexDigit(c) ==> Digit(d) == c
  {
    if '0' <= c <= '9' then (c as int - '0' as int)
    else if 'a' <= c <= 'f' then (c as int - 'a' as int) + 10
    else (c as int - 'A' as int) + 10
  }

  /** `'{:02x}'.format(n)` for a channel value `n` in [0, 255]: two lower-case
      digits, zero-padded. */
  function FormatByte(n: int): (s: string)
    requires 0 <= n < 256
    ensures |s| == 2 && IsLowerHexDigit(s[0]) && IsLowerHexDigit(s[1])
    ensures 16 * DigitValue(s[0]) + DigitValue(s[1]) == n
  {
    [Digit(n / 16), Digit(n % 16)]
  }

  /** `int(s, 16)` on a two-digit slice of a palette string. */
  function ParseByte(s: string): (n: int)
    requires |s| == 2 && IsHexDigit(s[0]) && IsHexDigit(s[1])
    ensures 0 <= n < 256
  {
    16 * DigitValue(s[0]) + DigitValue(s[1])
  }

  /** Formatting then parsing a channel gives the channel back. */
  lemma ParseFormatByte(n: int)
    requires 0 <= n < 256
    ensures ParseByte(FormatByte(n)) == n
  {
  }

  /** Parsing then formatting a lower-case two-digit slice gives the slice back:
      the formatter is a bijection between [0, 255] and lower-case digit pairs. */
  lemma FormatParseByte(s: string)
    requires |s| == 2 && IsLowerHexDigit(s[0]) && IsLowerHexDigit(s[1])
    ensures FormatByte(ParseByte(s)) == s
  {
    var n := ParseByte(s);
    var d0, d1 := DigitValue(s[0]), DigitValue(s[1]);
    assert n / 16 == d0 && n % 16 == d1;
    assert FormatByte(n) == [Digit(d0), Digit(d1)];
  }

  /** `'#{:02x}{:02x}{:02x}'.format(r, g, b)` for three channels in [0, 255]. */
  function FormatColor(r: int, g: int, b: int): (s: string)
    requires 0 <= r < 256 && 0 <= g < 256 && 0 <= b < 256
    ensures IsHexColor(s)
    ensures ParseByte(s[1..3]) == r && ParseByte(s[3..5]) == g && ParseByte(s[5..7]) == b
  {
    var s := "#" + FormatByte(r) + FormatByte(g) + FormatByte(b);
    assert s[1..3] == FormatByte(r) && s[3..5] == FormatByte(g) && s[5..7] == FormatByte(b);
    s
  }

  /** The three channels of a palette string, read from the slices `[1:3]`,
      `[3:5]` and `[5:7]`. */
  function Channels(s: string): (c: (int, int, int))
    requires IsHexColor(s)
    ensures 0 <= c.0 < 256 && 0 <= c.1 < 256 && 0 <= c.2 < 256
  {
    (ParseByte(s[1..3]), ParseByte(s[3..5]), ParseByte(s[5..7]))
  }

  /** Reading the channels of a palette string and formatting them again
      reproduces the string exactly. */
  lemma FormatChannels(s: string)
    requires IsHexColor(s)
    ensures FormatColor(Channels(s).0, Channels(s).1, Channels(s).2) == s
  {
    FormatParseByte(s[1..3]);
    FormatParseByte(s[3..5]);
    FormatParseByte(s[5..7]);
    assert s == "#" + s[1..3] + s[3..5] + s[5..7];
  }

  /** `max(0, min(1, x))`. */
  function Clamp01(x: real): real {
    if x < 0.0 then 0.0 else if x > 1.0 then 1.0 else x
  }

  /** `int(max(0, min(1, x)) * 255)`: the 8-bit channel of a real channel.
      The clamped product is never negative, so Python's truncation toward
      zero is the floor. */
  function ToByte(x: real): (n: int)
    ensures 0 <= n <= 255
    ensures x <= 0.0 ==> n == 0
    ensures x >= 1.0 ==> n == 255
    ensures 0.0 <= x <= 1.0 ==> n as real <= x * 255.0 < n as real + 1.0
  {
    (Clamp01(x) * 255.0).Floor
  }

  /** A channel given as a fraction of 255 comes back exactly: `ToByte` is a
      left inverse of `n / 255`. */
  lemma ToByteOfFraction(n: int)
    requires 0 <= n <= 255
    ensures ToByte(n as real / 255.0) == n
  {
  }

  /** `to_hex(r, g, b)`: always a well-formed palette string whose channels are
      the truncated, clamped products of the inputs with 255. */
  function ToHex(r: real, g: real, b: real): (s: string)
    ensures IsHexColor(s)
    ensures Channels(s) == (ToByte(r), ToByte(g), ToByte(b))
  {
    FormatColor(ToByte(r), ToByte(g), ToByte(b))
  }

  /** Truncation, not rounding: 1.0, 0.0 and 0.5 give `ff`, `00` and `7f`. */
  lemma ToHexExample()
    ensures ToHex(1.0, 0.0, 0.5) == "#ff007f"
  {
    assert ToByte(0.5) == 127;
    assert FormatByte(255) == "ff";
    assert FormatByte(0) == "00";
    assert FormatByte(127) == "7f";
  }
}
