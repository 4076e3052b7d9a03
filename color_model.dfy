/**
 * Hex colour strings: hexToRgb and rgbToHex of image-manipulation.js.
 *
 * hexToRgb removes the first '#' and hands the three two-character pieces to
 * parseInt(piece, 16), so its result is stated with a model of that built-in
 * (section 19.2.5 of ECMA-262): leading white space is skipped, one sign is taken,
 * a "0x" prefix is dropped, and the longest run of hex digits is read; no digit at
 * all gives NaN, written None here.  A parsed channel reaches a pixel only through a
 * store into a Uint8ClampedArray, modelled by ToUint8Clamp.
 */
module ColorModel {

  datatype Option<T> = None | Some(value: T)

  /** The three channels hexToRgb returns; None stands for NaN. */
  datatype ParsedRgb = ParsedRgb(r: Option<int>, g: Option<int>, b: Option<int>)

  // ---------------------------------------------------------------------------
  // Strings
  // ---------------------------------------------------------------------------

  /** The position of the first occurrence of ch in s. */
  function IndexOf(s: string, ch: char): (i: nat)
    requires ch in s
    ensures i < |s| && s[i] == ch && ch !in s[..i]
  {
    if s[0] == ch then 0 else
      var i := IndexOf(s[1..], ch) + 1;
      assert s[..i] == [s[0]] + s[1..][..i - 1];
      i
  }

  /** `s.replace(ch, '')` for a one-character pattern: only the first occurrence is removed. */
  function RemoveFirst(s: string, ch: char): (r: string)
    ensures ch !in s ==> r == s
    ensures ch in s ==> |r| == |s| - 1
  {
    if ch in s then s[..IndexOf(s, ch)] + s[IndexOf(s, ch) + 1..] else s
  }

  /** `s.substr(start, length)` for non-negative arguments: what remains of that window. */
  function Substr(s: string, start: nat, length: nat): (r: string)
    ensures |r| <= length
    ensures start + length <= |s| ==> r == s[start..start + length]
  {
    var from := if start < |s| then start else |s|;
    var to := if from + length < |s| then from + length else |s|;
    s[from..to]
  }

  // ---------------------------------------------------------------------------
  // parseInt(s, 16)
  // ---------------------------------------------------------------------------

  /** The characters that StrWhiteSpaceChar admits: white space and line terminators. */
  predicate IsWhiteSpace(ch: char) {
    ch == '\t' || ch == '\n' || ch == '\U{000B}' || ch == '\U{000C}' || ch == '\r' || ch == ' ' ||
    ch == '\U{00A0}' || ch == '\U{1680}' || ('\U{2000}' <= ch <= '\U{200A}') ||
    ch == '\U{2028}' || ch == '\U{2029}' || ch == '\U{202F}' || ch == '\U{205F}' ||
    ch == '\U{3000}' || ch == '\U{FEFF}'
  }

  /** `s` without its leading white space. */
  function TrimStart(s: string): (r: string)
    ensures |r| <= |s|
  {
    if |s| > 0 && IsWhiteSpace(s[0]) then TrimStart(s[1..]) else s
  }

  /** TrimStart removes exactly the white space in front: a suffix that does not start with any. */
  lemma {:induction false} TrimStartSpec(s: string)
    ensures var r := TrimStart(s);
      r == s[|s| - |r|..] && (|r| > 0 ==> !IsWhiteSpace(r[0])) &&
      forall i | 0 <= i < |s| - |r| :: IsWhiteSpace(s[i])
  {
    if |s| > 0 && IsWhiteSpace(s[0]) {
      TrimStartSpec(s[1..]);
      assert forall i | 1 <= i < |s| - |TrimStart(s)| :: s[i] == s[1..][i - 1];
    }
  }

  predicate IsHexDigit(ch: char) {
    '0' <= ch <= '9' || 'a' <= ch <= 'f' || 'A' <= ch <= 'F'
  }

  /** No hex digit is white space, a sign or the 'x' of a "0x" prefix. */
  lemma HexDigitPlain(ch: char)
    requires IsHexDigit(ch)
    ensures !IsWhiteSpace(ch) && ch != '-' && ch != '+' && ch != 'x' && ch != 'X'
  {
  }

  /** The value of a hex digit, in either case (0 for any other character). */
  function DigitValue(ch: char): (v: int)
    ensures 0 <= v < 16
  {
    if '0' <= ch <= '9' then ch as int - '0' as int
    else if 'a' <= ch <= 'f' then ch as int - 'a' as int + 10
    else if 'A' <= ch <= 'F' then ch as int - 'A' as int + 10
    else 0
  }

  /** The length of the longest prefix of `s` made of hex digits. */
  function HexRun(s: string): (n: nat)
    ensures n <= |s|
  {
    if |s| > 0 && IsHexDigit(s[0]) then 1 + HexRun(s[1..]) else 0
  }

  /** HexRun(s) digits are read, and the next character, if any, is not a digit. */
  lemma {:induction false} HexRunSpec(s: string)
    ensures var n := HexRun(s);
      (forall i | 0 <= i < n :: IsHexDigit(s[i])) && (n < |s| ==> !IsHexDigit(s[n]))
  {
    if |s| > 0 && IsHexDigit(s[0]) {
      HexRunSpec(s[1..]);
      assert forall i | 1 <= i < HexRun(s) :: s[i] == s[1..][i - 1];
    }
  }

  /** The number a string of hex digits denotes, most significant digit first. */
  function HexValue(ds: string): (v: nat)
  {
    if |ds| == 0 then 0 else HexValue(ds[..|ds| - 1]) * 16 + DigitValue(ds[|ds| - 1])
  }

  /** The value of one or two hex digits is below 16 to the number of digits. */
  lemma HexValueBound(ds: string)
    requires 1 <= |ds| <= 2
    ensures HexValue(ds) < if |ds| == 1 then 16 else 256
  {
    if |ds| == 2 {
      assert HexValue(ds[..1]) == DigitValue(ds[0]) by {
        assert ds[..1][..0] == [];
      }
    } else {
      assert ds[..0] == [];
    }
  }

  /** parseInt(s, 16); None is NaN. */
  function ParseInt16(s: string): Option<int> {
    var t := TrimStart(s);
    var negative := |t| > 0 && t[0] == '-';
    var digits := StripHexPrefix(StripSign(t));
    var n := HexRun(digits);
    if n == 0 then None
    else
      var v: int := HexValue(digits[..n]);
      Option<int>.Some(if negative then -v else v)
  }

  /** `t` without one leading '+' or '-'. */
  function StripSign(t: string): string {
    if |t| > 0 && (t[0] == '-' || t[0] == '+') then t[1..] else t
  }

  /** `u` without a leading "0x" or "0X", which radix 16 allows. */
  function StripHexPrefix(u: string): string {
    if |u| >= 2 && u[0] == '0' && (u[1] == 'x' || u[1] == 'X') then u[2..] else u
  }

  /** A number written into a Uint8ClampedArray: NaN is 0 and values are clamped to 0..255. */
  function ToUint8Clamp(v: Option<int>): (b: int)
    ensures 0 <= b < 256
    ensures v.Some? && 0 <= v.value < 256 ==> b == v.value
  {
    match v
    case None => 0
    case Some(n) => if n < 0 then 0 else if n > 255 then 255 else n
  }

  /** parseInt of at most two characters is NaN or a number between -255 and 255. */
  lemma ParseInt16Short(s: string)
    requires |s| <= 2
    ensures ParseInt16(s).Some? ==> -255 <= ParseInt16(s).value <= 255
  {
    var digits := StripHexPrefix(StripSign(TrimStart(s)));
    var n := HexRun(digits);
    if n > 0 {
      HexValueBound(digits[..n]);
    }
  }

  /** parseInt of two hex digits is the number they denote. */
  lemma ParseTwoDigits(s: string)
    requires |s| == 2 && IsHexDigit(s[0]) && IsHexDigit(s[1])
    ensures ParseInt16(s) == Some(DigitValue(s[0]) * 16 + DigitValue(s[1]))
  {
    HexDigitPlain(s[0]);
    HexDigitPlain(s[1]);
    assert TrimStart(s) == s;
    assert StripSign(s) == s;
    assert StripHexPrefix(s) == s;
    assert HexRun(s[1..][1..]) == 0;
    assert HexRun(s) == 2;
    assert s[..2] == s;
    assert s[..1][..0] == [];
    assert HexValue(s[..1]) == DigitValue(s[0]);
  }

  // ---------------------------------------------------------------------------
  // hexToRgb
  // ---------------------------------------------------------------------------

  /** hexToRgb: the first '#' removed, then characters 0-1, 2-3 and 4-5 parsed in radix 16. */
  function HexToRgb(hexColor: string): ParsedRgb {
    var hex := RemoveFirst(hexColor, '#');
    ParsedRgb(ParseInt16(Substr(hex, 0, 2)), ParseInt16(Substr(hex, 2, 2)), ParseInt16(Substr(hex, 4, 2)))
  }

  // ---------------------------------------------------------------------------
  // rgbToHex
  // ---------------------------------------------------------------------------

  /** The lowercase digit Number#toString(16) writes for d. */
  function HexChar(d: int): (ch: char)
    requires 0 <= d < 16
    ensures IsHexDigit(ch) && DigitValue(ch) == d
    ensures '0' <= ch <= '9' || 'a' <= ch <= 'f'
  {
    if d < 10 then ('0' as int + d) as char else ('a' as int + d - 10) as char
  }

  /** Number#toString(16) of a natural number: its digits without leading zeros. */
  function NatToHex(n: nat): (s: string)
    ensures 1 <= |s|
    decreases n
  {
    if n < 16 then [HexChar(n)] else NatToHex(n / 16) + [HexChar(n % 16)]
  }

  /** The digits NatToHex writes are hex digits, the first not a leading zero, and denote n. */
  lemma {:induction false} NatToHexValue(n: nat)
    ensures var s := NatToHex(n);
      (forall i | 0 <= i < |s| :: IsHexDigit(s[i])) && (n > 0 ==> s[0] != '0') && HexValue(s) == n
    decreases n
  {
    var s := NatToHex(n);
    if n < 16 {
      assert s[..0] == [];
    } else {
      NatToHexValue(n / 16);
      assert s[..|s| - 1] == NatToHex(n / 16);
    }
  }

  /** Number#toString(16) of an integer: a '-' before the digits of a negative value. */
  function IntToHex(n: int): string {
    if n < 0 then "-" + NatToHex(-n) else NatToHex(n)
  }

  /** The toHex helper of rgbToHex: at least two characters, a '0' put before a single digit. */
  function ToHex(c: int): (s: string)
    ensures |s| >= 2
  {
    var hex := IntToHex(c);
    if |hex| == 1 then "0" + hex else hex
  }

  /** rgbToHex for integer channels, where Math.round changes nothing. */
  function RgbToHex(r: int, g: int, b: int): string {
    "#" + ToHex(r) + ToHex(g) + ToHex(b)
  }

  /** A byte prints as exactly two lowercase hex digits, high digit first. */
  lemma ToHexByte(c: int)
    requires 0 <= c < 256
    ensures ToHex(c) == [HexChar(c / 16), HexChar(c % 16)]
  {
    if c >= 16 {
      assert NatToHex(c / 16) == [HexChar(c / 16)];
    }
  }

  /** For bytes, rgbToHex yields '#' and six lowercase hex digits, two per channel. */
  lemma RgbToHexShape(r: int, g: int, b: int)
    requires 0 <= r < 256 && 0 <= g < 256 && 0 <= b < 256
    ensures var s := RgbToHex(r, g, b);
      |s| == 7 && s[0] == '#' &&
      (forall i | 1 <= i < 7 :: '0' <= s[i] <= '9' || 'a' <= s[i] <= 'f') &&
      s[1..3] == ToHex(r) && s[3..5] == ToHex(g) && s[5..7] == ToHex(b)
  {
    var s := RgbToHex(r, g, b);
    RgbToHexDigits(r, g, b);
    ToHexByte(r);
    ToHexByte(g);
    ToHexByte(b);
    assert s[1..3] == [HexChar(r / 16), HexChar(r % 16)];
    assert s[3..5] == [HexChar(g / 16), HexChar(g % 16)];
    assert s[5..7] == [HexChar(b / 16), HexChar(b % 16)];
    var d := [HexChar(r / 16), HexChar(r % 16), HexChar(g / 16), HexChar(g % 16), HexChar(b / 16), HexChar(b % 16)];
    assert s[1..] == d;
    forall i | 0 <= i < 6 ensures '0' <= d[i] <= '9' || 'a' <= d[i] <= 'f' {
      if i == 0 { assert d[i] == HexChar(r / 16); }
      else if i == 1 { assert d[i] == HexChar(r % 16); }
      else if i == 2 { assert d[i] == HexChar(g / 16); }
      else if i == 3 { assert d[i] == HexChar(g % 16); }
      else if i == 4 { assert d[i] == HexChar(b / 16); }
      else { assert d[i] == HexChar(b % 16); }
    }
    assert forall i | 1 <= i < 7 :: s[i] == d[i - 1];
  }

  /** The seven characters rgbToHex writes for three bytes. */
  lemma RgbToHexDigits(r: int, g: int, b: int)
    requires 0 <= r < 256 && 0 <= g < 256 && 0 <= b < 256
    ensures RgbToHex(r, g, b) ==
      ['#', HexChar(r / 16), HexChar(r % 16), HexChar(g / 16), HexChar(g % 16), HexChar(b / 16), HexChar(b % 16)]
  {
    ToHexByte(r);
    ToHexByte(g);
    ToHexByte(b);
    var hr, hg, hb := ToHex(r), ToHex(g), ToHex(b);
    assert "#" + hr == ['#', HexChar(r / 16), HexChar(r % 16)];
    assert "#" + hr + hg == ['#', HexChar(r / 16), HexChar(r % 16), HexChar(g / 16), HexChar(g % 16)];
  }

  /** A byte's two digits parse back to the byte. */
  lemma ParseToHex(c: int)
    requires 0 <= c < 256
    ensures ParseInt16(ToHex(c)) == Some(c)
  {
    var hi, lo := HexChar(c / 16), HexChar(c % 16);
    ToHexByte(c);
    var s := ToHex(c);
    assert s[0] == hi && s[1] == lo;
    ParseTwoDigits(s);
    assert DigitValue(hi) == c / 16 && DigitValue(lo) == c % 16;
    ByteDigits(c);
  }

  /** A byte is its high hex digit times 16 plus its low one. */
  lemma ByteDigits(c: int)
    requires 0 <= c < 256
    ensures (c / 16) * 16 + c % 16 == c
  {
  }

  /** hexToRgb(rgbToHex(r, g, b)) gives back the three bytes. */
  lemma HexRoundTrip(r: int, g: int, b: int)
    requires 0 <= r < 256 && 0 <= g < 256 && 0 <= b < 256
    ensures HexToRgb(RgbToHex(r, g, b)) == ParsedRgb(Some(r), Some(g), Some(b))
  {
    var s := RgbToHex(r, g, b);
    RgbToHexShape(r, g, b);
    StripHash(s);
    var hex := s[1..];
    assert hex[0..2] == s[1..3] && hex[2..4] == s[3..5] && hex[4..6] == s[5..7];
    ParseToHex(r);
    ParseToHex(g);
    ParseToHex(b);
  }

  /** Removing the first '#' of a string that starts with one drops that character. */
  lemma StripHash(s: string)
    requires |s| > 0 && s[0] == '#'
    ensures RemoveFirst(s, '#') == s[1..]
  {
    assert IndexOf(s, '#') == 0;
    assert s[..0] == [];
  }
}
