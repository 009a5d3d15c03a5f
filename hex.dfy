/**
 * `rgb2hex`: each channel formatted as by Python's `{:02x}` (and `%02x`, which
 * formats integers the same way), after a `#`. Python prints a negative number
 * as `-` and the digits of its magnitude, and pads only to a width of two, so
 * channels outside [0, 255] give strings that are not six-digit colours.
 */
module Hex {
  import opened Wrappers
  import opened Convert

  /** The lowercase hexadecimal digits in order. */
  const DIGITS: string := "0123456789abcdef"

  /** A lowercase hexadecimal digit. */
  predicate IsHexDigit(c: char) {
    '0' <= c <= '9' || 'a' <= c <= 'f'
  }

  /** A string of lowercase hexadecimal digits. */
  predicate AllHexDigits(s: string) {
    forall i :: 0 <= i < |s| ==> IsHexDigit(s[i])
  }

  /** The digit for a value below 16. */
  function HexDigit(d: nat): (c: char)
    requires d < 16
    ensures IsHexDigit(c)
  {
    DIGITS[d]
  }

  /** The value of a digit, the inverse of `HexDigit`. */
  function DigitValue(c: char): (d: nat)
    requires IsHexDigit(c)
    ensures d < 16 && HexDigit(d) == c
  {
    if c <= '9' then c as int - '0' as int else c as int - 'a' as int + 10
  }

  /** Reading back the digit written for `d` gives `d`. */
  lemma DigitValueOfHexDigit(d: nat)
    requires d < 16
    ensures DigitValue(HexDigit(d)) == d
  {
  }

  /** The digits of `n` in base 16 with no leading zero (`0` for zero), as `format(n, "x")` writes them. */
  function HexDigits(n: nat): (s: string)
    ensures 1 <= |s| && AllHexDigits(s)
    ensures |s| == 1 <==> n < 16
    ensures n > 0 ==> s[0] != '0'
    decreases n
  {
    if n < 16 then [HexDigit(n)] else HexDigits(n / 16) + [HexDigit(n % 16)]
  }

  /** The number a string of hexadecimal digits stands for, most significant first. */
  function HexValue(s: string): nat
    requires AllHexDigits(s)
    decreases |s|
  {
    if |s| == 0 then 0 else HexValue(s[..|s| - 1]) * 16 + DigitValue(s[|s| - 1])
  }

  /** Reading the digits back gives the number written. */
  lemma {:induction false} HexValueOfDigits(n: nat)
    ensures HexValue(HexDigits(n)) == n
    decreases n
  {
    var s := HexDigits(n);
    if n < 16 {
      DigitValueOfHexDigit(n);
    } else {
      HexValueOfDigits(n / 16);
      assert s[..|s| - 1] == HexDigits(n / 16);
      DigitValueOfHexDigit(n % 16);
    }
  }

  /** A number below 256 has at most two digits; one of 256 or more has at least three. */
  lemma HexDigitsLength(n: nat)
    ensures 16 <= n < 256 ==> |HexDigits(n)| == 2
    ensures 256 <= n ==> |HexDigits(n)| >= 3
  {
    if n >= 16 {
      assert HexDigits(n) == HexDigits(n / 16) + [HexDigit(n % 16)];
    }
  }

  /** `{:02x}` applied to an integer: a minus sign and the magnitude's digits for a
      negative number, otherwise the digits zero-padded to two. */
  function Format02x(n: int): (s: string)
    ensures |s| >= 2
    ensures n < 0 ==> s[0] == '-' && AllHexDigits(s[1..]) && HexValue(s[1..]) == -n
    ensures n >= 0 ==> AllHexDigits(s) && HexValue(s) == n
    ensures 0 <= n < 256 <==> |s| == 2 && AllHexDigits(s)
    ensures n < 0 ==> s == "-" + HexDigits(-n)
    ensures 0 <= n < 16 ==> s == "0" + HexDigits(n)
    ensures n >= 16 ==> s == HexDigits(n)
  {
    HexValueOfDigits(if n < 0 then -n else n);
    HexDigitsLength(if n < 0 then -n else n);
    if n < 0 then
      var s := "-" + HexDigits(-n);
      assert s[1..] == HexDigits(-n);
      s
    else if n < 16 then
      var s := "0" + HexDigits(n);
      assert s[..1] == "0" && s[1..] == HexDigits(n);
      s
    else
      HexDigits(n)
  }

  /** A channel value `{:02x}` writes as exactly two digits. */
  predicate IsByte(n: int) {
    0 <= n < 256
  }

  /** All three channels in [0, 255]. */
  predicate InByteRange(rgb: Rgb) {
    IsByte(rgb.r) && IsByte(rgb.g) && IsByte(rgb.b)
  }

  /** A CSS-style colour: `#` and six lowercase hexadecimal digits. */
  predicate IsHexColor(s: string) {
    |s| == 7 && s[0] == '#' && AllHexDigits(s[1..])
  }

  /** Reads a colour back from `#rrggbb`, or None when the string is not of that form. */
  function ParseHexColor(s: string): Option<Rgb> {
    if IsHexColor(s) then
      assert forall i :: 1 <= i < 7 ==> IsHexDigit(s[i]) by {
        forall i | 1 <= i < 7 ensures IsHexDigit(s[i]) {
          assert s[i] == s[1..][i - 1];
        }
      }
      Some(Rgb(HexValue(s[1..3]), HexValue(s[3..5]), HexValue(s[5..7])))
    else
      None
  }

  /** `rgb2hex`: `#` followed by the three channels, each formatted with `{:02x}`. For
      channels in [0, 255] the result is a `#rrggbb` colour that reads back as `rgb`. */
  function Rgb2Hex(rgb: Rgb): (hex: string)
    ensures |hex| >= 7 && hex[0] == '#'
    ensures InByteRange(rgb) ==> IsHexColor(hex) && ParseHexColor(hex) == Some(rgb)
  {
    var hex := "#" + Format02x(rgb.r) + Format02x(rgb.g) + Format02x(rgb.b);
    assert InByteRange(rgb) ==> IsHexColor(hex) && ParseHexColor(hex) == Some(rgb) by {
      if InByteRange(rgb) {
        ParseFormatted(rgb);
      }
    }
    hex
  }

  /** The three two-digit fields of a formatted colour read back as its channels. */
  lemma ParseFormatted(rgb: Rgb)
    requires InByteRange(rgb)
    ensures var hex := "#" + Format02x(rgb.r) + Format02x(rgb.g) + Format02x(rgb.b);
      IsHexColor(hex) && ParseHexColor(hex) == Some(rgb)
  {
    var r, g, b := Format02x(rgb.r), Format02x(rgb.g), Format02x(rgb.b);
    var hex := "#" + r + g + b;
    assert hex[1..] == r + g + b;
    assert |hex| == 7;
    assert AllHexDigits(hex[1..]) by {
      forall i | 0 <= i < 6 ensures IsHexDigit(hex[1..][i]) {
        if i < 2 {
          assert hex[1..][i] == r[i];
        } else if i < 4 {
          assert hex[1..][i] == g[i - 2];
        } else {
          assert hex[1..][i] == b[i - 4];
        }
      }
    }
    assert hex[1..3] == r && hex[3..5] == g && hex[5..7] == b;
  }

  /** `rgb2hex` gives a `#rrggbb` colour exactly when every channel is in [0, 255]. */
  lemma HexColorIffInRange(rgb: Rgb)
    ensures IsHexColor(Rgb2Hex(rgb)) <==> InByteRange(rgb)
  {
    var r, g, b := Format02x(rgb.r), Format02x(rgb.g), Format02x(rgb.b);
    var hex := Rgb2Hex(rgb);
    assert hex == "#" + r + g + b;
    if IsHexColor(hex) {
      // every field is at least two characters and there are six in all
      assert |r| == 2 && |g| == 2 && |b| == 2;
      assert hex[1..] == r + g + b;
      assert AllHexDigits(r) by {
        forall i | 0 <= i < 2 ensures IsHexDigit(r[i]) {
          assert r[i] == hex[1..][i];
        }
      }
      assert AllHexDigits(g) by {
        forall i | 0 <= i < 2 ensures IsHexDigit(g[i]) {
          assert g[i] == hex[1..][i + 2];
        }
      }
      assert AllHexDigits(b) by {
        forall i | 0 <= i < 2 ensures IsHexDigit(b[i]) {
          assert b[i] == hex[1..][i + 4];
        }
      }
    }
  }

  /** Two hexadecimal digits are what `{:02x}` writes for the number they stand for. */
  lemma Format02xOfPair(d: string)
    requires |d| == 2 && AllHexDigits(d)
    ensures Format02x(HexValue(d)) == d
  {
    var n := HexValue(d);
    assert d[..1] == [d[0]];
    assert HexValue([d[0]]) == DigitValue(d[0]) by {
      assert [d[0]][..0] == [];
    }
    var hi, lo := DigitValue(d[0]), DigitValue(d[1]);
    assert n == hi * 16 + lo;
    if hi == 0 {
      assert n < 16;
      assert HexDigits(n) == [HexDigit(lo)];
    } else {
      assert 16 <= n && n / 16 == hi && n % 16 == lo;
      assert HexDigits(n) == HexDigits(hi) + [HexDigit(lo)];
    }
  }

  /** Parsing and formatting are inverse the other way too: a `#rrggbb` colour is what
      `rgb2hex` writes for the channels read from it. */
  lemma Rgb2HexOfParse(s: string)
    requires ParseHexColor(s).Some?
    ensures InByteRange(ParseHexColor(s).value)
    ensures Rgb2Hex(ParseHexColor(s).value) == s
  {
    var rgb := ParseHexColor(s).value;
    forall i | 1 <= i < 7 ensures IsHexDigit(s[i]) {
      assert s[i] == s[1..][i - 1];
    }
    Format02xOfPair(s[1..3]);
    Format02xOfPair(s[3..5]);
    Format02xOfPair(s[5..7]);
    assert s == "#" + s[1..3] + s[3..5] + s[5..7];
  }

  /** So `rgb2hex` is one to one on channels in [0, 255]. */
  lemma Rgb2HexInjective(a: Rgb, b: Rgb)
    requires InByteRange(a) && InByteRange(b) && Rgb2Hex(a) == Rgb2Hex(b)
    ensures a == b
  {
  }

  /** Pure red. */
  lemma RedHex()
    ensures Rgb2Hex(Rgb(255, 0, 0)) == "#ff0000"
  {
    assert HexDigits(255) == "ff";
    assert HexDigits(0) == "0";
  }

  /** Pure blue. */
  lemma BlueHex()
    ensures Rgb2Hex(Rgb(0, 0, 255)) == "#0000ff"
  {
    assert HexDigits(255) == "ff";
    assert HexDigits(0) == "0";
  }

  /** The "Hello World" colour. */
  lemma HelloWorldHex()
    ensures Rgb2Hex(Rgb(45, 210, 75)) == "#2dd24b"
  {
    assert HexDigits(45) == "2d";
    assert HexDigits(210) == "d2";
    assert HexDigits(75) == "4b";
  }
}
