# colorhash in Dafny

A model of colorhash, a small Python library that turns any object into a
stable colour. The object's string form is encoded as UTF-8 and
checksummed with CRC-32. The checksum picks three things:

- a hue, either in `[0, 358]` or remapped into a caller-given `[min_h, max_h]`;
- a saturation from a pool;
- a lightness from a second pool.

The resulting HSL triple is then converted to RGB and to a `#rrggbb` string.

The project has one module per stage:

| file | module | what it holds |
|---|---|---|
| `wrappers.dfy` | `Wrappers` | the `Option` and `Result` datatypes |
| `utf8.dfy` | `Utf8` | `str.encode("utf-8")` on Dafny strings, a decoder, and the round trip between the two |
| `octet.dfy` | `Octet` | the fact that a byte value survives conversion to an octet and back |
| `crc32.dfy` | `Crc32` | `binascii.crc32` and `crc32_hash` (see below) |
| `bucketize.dfy` | `Bucketize` | `color_hash` |
| `convert.dfy` | `Convert` | `hue_to_rgb` and `hsl2rgb` |
| `hex.dfy` | `Hex` | `rgb2hex` and Python's `{:02x}` formatting, with a parser for the result |
| `colorhash.dfy` | `ColorHashes` | the `ColorHash` class |
| `legacy.dfy` | `Legacy` | the legacy `colorhash/colorhash.py`, which differs only in `rgb2hex` |

How the Python is modelled:

- **CRC-32.** The model writes the checksum as the table-driven reference
  code in section 8 of RFC 1952. It uses the reflected polynomial
  0xEDB88320, a preset register and a final complement.
- **Numbers.** Python floats are modelled as Dafny `real`s. `round` is
  rounding half to even.
- **Errors.** Every `ValueError` that `color_hash` raises becomes an `Err`
  of `HashError`, in the order the code checks for it. The code does not
  guard against an empty pool: `% len(...)` at src/colorhash/colorhash.py:157
  and :159 then raises `ZeroDivisionError`, and that is the `DivisionByZero` error.
- **`ColorHash`.** It is a class whose only field, `hsl`, is set once at
  construction. `rgb` and `hex` are functions reading it. Construction
  can fail, so it is a static factory returning a `Result`.
- **Where the code and its documentation differ, the model follows the code.**
  - The error message at src/colorhash/colorhash.py:134 describes pool values as lying in `(0.0, 1.0)`. The
    code accepts the closed `[0.0, 1.0]`.
  - The hue is documented as lying in `[min_h, max_h]`. The code,
    `(h / 1000) * (max_h - min_h) + min_h`, only ever reaches the first
    35.8 % of that range. `ColorHashSpec` states exactly that bound.

## Model

| member | source | states |
|---|---|---|
| Utf8.EncodeChar | src/colorhash/colorhash.py:41 | The UTF-8 form of one character is 1 to 4 bytes, as the code point requires. The lead byte's class identifies the length exactly, and every later byte is a continuation byte. |
| Utf8.Encode | src/colorhash/colorhash.py:41 | The encoding of a string has at least one and at most four bytes per character. |
| Utf8.DecodeChar | src/colorhash/colorhash.py:41 | Decoding a character consumes 1 to 4 bytes, and never more than are present. |
| Utf8.EncodeDecodeChar | src/colorhash/colorhash.py:41 | Whatever the decoder accepts is exactly the encoding of the character it returns, so it refuses overlong forms and reads each well-formed sequence one way only. |
| Utf8.EncodeDecodeTwo | src/colorhash/colorhash.py:41 | The two-byte case of that converse. |
| Utf8.EncodeDecodeThree | src/colorhash/colorhash.py:41 | The three-byte case of that converse. |
| Utf8.EncodeDecodeFour | src/colorhash/colorhash.py:41 | The four-byte case of that converse. |
| Utf8.DecodeEncodeChar | src/colorhash/colorhash.py:41 | Decoding reads back exactly the encoded character and its length, whatever bytes follow. |
| Utf8.DecodeTwo | src/colorhash/colorhash.py:41 | The round trip for two-byte characters. |
| Utf8.DecodeThree | src/colorhash/colorhash.py:41 | The round trip for three-byte characters. |
| Utf8.DecodeFour | src/colorhash/colorhash.py:41 | The round trip for four-byte characters. |
| Utf8.DecodeEncode | src/colorhash/colorhash.py:41 | Decoding the UTF-8 encoding of any string gives back that string. |
| Utf8.EncodeInjective | src/colorhash/colorhash.py:38-41 | Different strings have different encodings. |
| Utf8.EncodeAscii | src/colorhash/colorhash.py:41 | An ASCII string encodes to one byte per character, and each byte equals its character's code. |
| Crc32.Octets | src/colorhash/colorhash.py:41-42 | There is one octet per byte. |
| Crc32.OctetsValues | src/colorhash/colorhash.py:41-42 | Each octet has the value of the byte at its position. |
| Octet.OctetValue | src/colorhash/colorhash.py:41-42 | A byte value is unchanged by the trip to an octet and back. |
| Crc32.Crc32Hash | src/colorhash/colorhash.py:32-42 | `crc32_hash` is a non-negative integer below 2^32, because of the `& 0xFFFFFFFF` mask. The legacy copy is at colorhash/colorhash.py:31-41. |
| Crc32.UpdateCrcAppend | src/colorhash/colorhash.py:42 | Checksumming `a + b` is the same as checksumming `a` and carrying the register on into `b`. |
| Crc32.EmptyCheck | src/colorhash/colorhash.py:42 | The CRC-32 of the empty string is 0. |
| Crc32.UpdateCrcOfTrace | src/colorhash/colorhash.py:42 | If a register sequence follows the per-byte update step along a string, then updating from any point of it reaches its last register. |
| Crc32.Crc32OfTrace | src/colorhash/colorhash.py:42 | A trace that starts from the preset register gives the CRC-32 as its last register complemented. |
| Crc32.HelloWorldCheckTrace | src/colorhash/colorhash.py:42 | The register sequence given for "Hello World" is a CRC trace of it. |
| Crc32.HelloWorldCheck | src/colorhash/colorhash.py:9-16 | The CRC-32 of the octets of "Hello World" is 0x4A17B156, the checksum behind the documented example. |
| Crc32.StandardCheckTrace | src/colorhash/colorhash.py:42 | The register sequence given for "123456789" is a CRC trace of it. |
| Crc32.StandardCheck | src/colorhash/colorhash.py:42 | The CRC-32 of "123456789" is 0xCBF43926, the standard check value of this CRC. |
| Bucketize.CheckPool | src/colorhash/colorhash.py:133-138 | The loop accepts a pool exactly when every value lies in `[0.0, 1.0]`. |
| Bucketize.DefaultHueRange | src/colorhash/colorhash.py:140-143 | There is a hue range exactly when `min_h`, `max_h` or both are given. A missing bound defaults to 0 or 360, and a given bound is kept. Legacy: colorhash/colorhash.py:106-109. |
| Bucketize.RawHue | src/colorhash/colorhash.py:146 | The unremapped hue `hash_val % 359` is at most 358. |
| Bucketize.RemapHue | src/colorhash/colorhash.py:155 | When `lo <= hi`, a remapped hue lies in `[lo, lo + 0.358 * (hi - lo)]`. Equal bounds give exactly `lo`. |
| Bucketize.RemapBound | src/colorhash/colorhash.py:155 | `(raw / 1000) * d` lies in `[0, 0.358 * d]` for `raw <= 358` and `d >= 0`. |
| Bucketize.ColorHashSpec | src/colorhash/colorhash.py:117-161 | See below this table. Legacy: colorhash/colorhash.py:85-128. |
| Bucketize.ComputeColorHash | src/colorhash/colorhash.py:117-161 | The step-by-step `color_hash` on a string's UTF-8 CRC-32 gives exactly `ColorHashSpec` of that checksum, so it makes the same error choice and the same picks. |
| Bucketize.HelloWorldBuckets | src/colorhash/colorhash.py:9-12 | With the default pools and no hue range, checksum 1243066710 gives HSL (131, 0.65, 0.5). |
| Convert.RoundHalfEven | src/colorhash/colorhash.py:97-99 | `round` picks an integer within 0.5 of its argument, and an even one on a tie. It maps `[0, 255]` into `[0, 255]`. |
| Convert.RoundUnique | src/colorhash/colorhash.py:97-99 | Any integer within 0.5 of `x` that is even on ties is `RoundHalfEven(x)`, so the rounding is fully determined. |
| Convert.WrapHue | src/colorhash/colorhash.py:62-65 | The wrap adds or subtracts at most one whole turn. It brings any `t` in `[-1, 2]` into `[0, 1]`. |
| Convert.Shape | src/colorhash/colorhash.py:67-73 | The weight of `q` in the four `hue_to_rgb` branches lies in `[0, 1]` for a wrapped hue. |
| Convert.Lerp | src/colorhash/colorhash.py:68-73 | Interpolating from `p` towards `q` by a weight in `[0, 1]` stays within `[p, q]`. |
| Convert.HueToRgbValue | src/colorhash/colorhash.py:45-73 | For `p <= q` and `t` in `[-1, 2]`, the component lies between `p` and `q`. Legacy: colorhash/colorhash.py:44-56. |
| Convert.HueToRgb | src/colorhash/colorhash.py:45-73 | The method, which adjusts `t` in place, returns `HueToRgbValue(p, q, t)`, so for `p <= q` and `t` in `[-1, 2]` the result lies in `[p, q]`. |
| Convert.Frac | src/colorhash/colorhash.py:62-65 | The fractional part lies in `[0, 1)`. |
| Convert.HueToRgbPeriodic | src/colorhash/colorhash.py:62-73 | On `[-1, 2]`, `hue_to_rgb` depends only on the fractional part of `t`. |
| Convert.ExtremesInRange | src/colorhash/colorhash.py:94-95 | For `s` and `l` in `[0, 1]`, `0 <= p <= q <= 1`. |
| Convert.ExtremesChroma | src/colorhash/colorhash.py:94-95 | `q - p` is the chroma `(1 - abs(2l - 1)) * s`, and `p + q = 2l`. Both branches of `q` are the standard HSL extremes. |
| Convert.Hsl2Rgb | src/colorhash/colorhash.py:76-101 | An HSL triple with hue in `[0, 360]` and `s`, `l` in `[0, 1]` gives three channels in `[0, 255]`. Legacy: colorhash/colorhash.py:59-69. |
| Convert.ChannelRange | src/colorhash/colorhash.py:97-99 | A channel built from extremes in `[0, 1]` and a shifted hue in `[-1, 2]` lies in `[0, 255]`. |
| Convert.RoundHelloWorld | src/colorhash/colorhash.py:97-99 | 44.625, 210.375 and 75.0125 round to 45, 210 and 75. |
| Convert.HelloWorldRgb | src/colorhash/colorhash.py:11-14 | HSL (131, 0.65, 0.5) converts to RGB (45, 210, 75). |
| Convert.RedRgb | src/colorhash/colorhash.py:76-101 | Pure red, (0, 1, 0.5), converts to (255, 0, 0). |
| Convert.BlueRgb | src/colorhash/colorhash.py:76-101 | Pure blue, (240, 1, 0.5), converts to (0, 0, 255). |
| Convert.BlackRgb | src/colorhash/colorhash.py:76-101 | Black, (0, 0, 0), converts to (0, 0, 0). |
| Convert.DefaultExtremes | src/colorhash/colorhash.py:119-120 | With `s` and `l` drawn from the default pool, `0.1225 <= p <= q <= 0.8775`. |
| Convert.DefaultPoolChannels | src/colorhash/colorhash.py:76-101 | Any hue in `[0, 360]` with default-pool `s` and `l` gives channels in `[31, 224]`. |
| Convert.DefaultChannel | src/colorhash/colorhash.py:97-99 | A channel built from default-pool extremes lies in `[31, 224]`. |
| Hex.HexDigit | src/colorhash/colorhash.py:112 | A digit below 16 is written as a lowercase hex digit. |
| Hex.DigitValue | src/colorhash/colorhash.py:112 | Reading a hex digit gives a value below 16 that writes back as the same digit. |
| Hex.DigitValueOfHexDigit | src/colorhash/colorhash.py:112 | Writing and then reading a digit is the identity. |
| Hex.HexDigits | src/colorhash/colorhash.py:112 | `n` is written as at least one hex digit, with no leading zero. It takes one digit exactly when `n < 16`. |
| Hex.HexValueOfDigits | src/colorhash/colorhash.py:112 | The hex digits read back as `n`. |
| Hex.HexDigitsLength | src/colorhash/colorhash.py:112 | Values 16..255 take two digits, and 256 and above take three or more. |
| Hex.Format02x | src/colorhash/colorhash.py:112 | `{:02x}` gives at least two characters. A negative value is `-` followed by the digits of its magnitude, and any other value is its own digits. The result is exactly two hex digits if and only if the value is in `0..255`. The output is pinned exactly: `-` and the digits for a negative value, `0` and one digit below 16, and the bare digits from 16 on, so -1 gives `-1` and 256 gives `100`. |
| Hex.Rgb2Hex | src/colorhash/colorhash.py:104-114 | The result starts with `#` and has at least 7 characters. For channels in `0..255` it is a lowercase `#rrggbb` that parses back to the channels. |
| Hex.ParseFormatted | src/colorhash/colorhash.py:112 | The three formatted fields of byte-range channels read back as those channels. |
| Hex.HexColorIffInRange | src/colorhash/colorhash.py:112 | `rgb2hex` gives a well-formed `#rrggbb` if and only if every channel is in `0..255`. |
| Hex.Format02xOfPair | src/colorhash/colorhash.py:112 | Formatting the value of any two hex digits gives those digits back. |
| Hex.Rgb2HexOfParse | src/colorhash/colorhash.py:104-114 | Any `#rrggbb` string parses to byte-range channels that format back to the same string. |
| Hex.Rgb2HexInjective | src/colorhash/colorhash.py:104-114 | Different byte-range colours have different hex strings. |
| Hex.RedHex | src/colorhash/colorhash.py:107-109 | `(255, 0, 0)` is `#ff0000`. |
| Hex.BlueHex | src/colorhash/colorhash.py:112 | `(0, 0, 255)` is `#0000ff`. |
| Hex.HelloWorldHex | src/colorhash/colorhash.py:13-16 | `(45, 210, 75)` is `#2dd24b`. |
| ColorHashes.ColorHash.FromHsl | src/colorhash/colorhash.py:193 | The object holds the given HSL triple. |
| ColorHashes.ColorHash.New | src/colorhash/colorhash.py:185-199 | See below this table. Legacy: colorhash/colorhash.py:152-166. |
| ColorHashes.ColorHash.Default | src/colorhash/colorhash.py:185-199 | With the default pools and no hue range, construction always succeeds, with `hsl` as `ColorHashSpec` gives it. |
| ColorHashes.ColorHash.ToRgb | src/colorhash/colorhash.py:201-203 | The `rgb` property of a constructed object has every channel in `0..255`. Legacy: colorhash/colorhash.py:168-170. |
| ColorHashes.ColorHash.ToHex | src/colorhash/colorhash.py:205-207 | The `hex` property is a well-formed `#rrggbb` that parses back to the `rgb` property. |
| ColorHashes.DefaultPoolValid | src/colorhash/colorhash.py:119-120 | The default pool `(0.35, 0.5, 0.65)` has three values, all in `[0, 1]`. |
| ColorHashes.SpecInDomain | src/colorhash/colorhash.py:161 | Every successful `color_hash` result is a valid `hsl2rgb` input: hue in `[0, 360]`, and `s` and `l` in `[0, 1]`. |
| ColorHashes.ReadsAgree | src/colorhash/colorhash.py:201-207 | Two objects with the same `hsl` have the same `rgb` and `hex`. |
| ColorHashes.DefaultPoolsNoExtremeChannel | src/colorhash/colorhash.py:117-161 | With the default pools and any valid hue range, every channel of the colour is strictly between 0 and 255. |
| ColorHashes.HelloWorldBytes | src/colorhash/colorhash.py:41 | "Hello World" encodes to its eleven ASCII bytes. |
| ColorHashes.HelloWorldOctets | src/colorhash/colorhash.py:41-42 | Those bytes are the octets the checksum reads. |
| ColorHashes.HelloWorldColor | src/colorhash/colorhash.py:9-16 | See below this table. |
| Legacy.Rgb2HexTuple | colorhash/colorhash.py:72-82 | See below this table. |
| Legacy.LegacyAgreesOnTriples | colorhash/colorhash.py:80 | On a triple, `"#%02x%02x%02x" % rgb` is exactly the current `rgb2hex`. |
| Legacy.LegacyHex | colorhash/colorhash.py:172-174 | The legacy `hex` of a constructed object is its `hex` property. |

The longer contracts:

- **`Bucketize.ColorHashSpec`.** The error cases come first, in source
  order, each as an if-and-only-if:
  - lightness out of range;
  - saturation out of range;
  - an invalid hue range, once `min_h` and `max_h` are defaulted;
  - an empty pool.

  On success:
  - `s` is `saturation[hash // 360 % len]` and `l` is
    `lightness[hash // 360 // len(saturation) % len]`. Both are pool
    members in `[0, 1]`.
  - With no range, `h` is `hash % 359`, in `[0, 358]`.
  - With a range, `lo <= h <= lo + 0.358 * (hi - lo) <= hi`, and equal
    bounds pin `h` to `lo`.
  - `h` always lies in `[0, 360]`.
- **`ColorHashes.ColorHash.New`.** Construction succeeds exactly when
  `ColorHashSpec` of the string's checksum succeeds. On success the fresh
  object is valid and its `hsl` is that result. On failure the error is
  `ColorHashSpec`'s.
- **`ColorHashes.HelloWorldColor`.** This is the documented example, end
  to end:
  - "Hello World" hashes to 1243066710;
  - that gives HSL (131, 0.65, 0.5);
  - which gives RGB (45, 210, 75);
  - which gives `#2dd24b`.
- **`Legacy.Rgb2HexTuple`.** An argument that is not a 3-tuple gives an
  error carrying the argument, which is the `ValueError(rgb)` of line 82.
  A 3-tuple is formatted as `#` plus at least six characters. For
  byte-range channels the result is a `#rrggbb` that parses back.

## Left out

- `str(obj)`: the model's input is the string that `str(obj)` returns. It
  does not model `__str__` on arbitrary objects.
- Lone surrogates: encoding a string with a lone surrogate raises
  `UnicodeEncodeError` in Python. Dafny's `char` excludes surrogates, so
  the case cannot arise in the model.
- `binascii.crc32` is a C function outside the repository. It is modelled
  as the RFC 1952 table code. The model does not prove that code equal to
  the bit-serial definition for all inputs; only the check values are
  proved.
- Crc32.Crc32Hash: its contract states only the range of the result. What
  the checksum is comes from its definition and the check-value lemmas.
- Floating point: pools, hues and the HSL/RGB arithmetic are exact reals.
  Where binary floating point would round differently is not modelled,
  such as `1 / 3` or `0.358` not being exact, or a float landing just off
  a `.5` tie.
- NaN pool entries: Python rejects them, because comparisons with NaN are
  false. Reals have no NaN.
- Pool and hue-bound types: the class docstring says a pool "can also be
  a single number". The code indexes the pool as a sequence, so a number
  raises `TypeError`. Pools are modelled as sequences only. `min_h` and
  `max_h` are integers, as annotated; floats are not modelled.
- The integer type of the hue in the no-range case: Python returns an
  `int` there and a `float` otherwise. The model uses one `real`, which
  is equal in value.
- `rgb2hex` on other arguments:
  - the current code raises a bare `IndexError` for a tuple shorter than
    three, and ignores extra elements;
  - a non-integer channel raises `ValueError`;
  - the legacy `"#%02x%02x%02x" % rgb` treats any argument that is not a
    tuple as a single value, so even a list of three integers raises
    `TypeError`, rewrapped as `ValueError`, where the current copy formats it.

  The current `rgb2hex` is modelled on three integer channels only. The
  `seq<int>` argument of `Legacy.Rgb2HexTuple` stands for a tuple only; a
  list or other non-tuple argument to the legacy copy is not modelled.
- Error messages: the model keeps them as comments on the `HashError`
  constructors, not as strings.
- Package metadata (`__init__.py`, `get_version`), docs generation,
  publishing scripts and the test harness are not part of this model.
