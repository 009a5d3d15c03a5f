/**
 * `hue_to_rgb` and `hsl2rgb`: the piecewise HSL to RGB conversion, over Dafny's
 * exact reals as an idealisation of Python's floats, with Python's `round`
 * (round half to even) turning each channel into an integer.
 */
module Convert {
  import opened Bucketize

  /** A colour as three integer channels, the tuple `hsl2rgb` returns. */
  datatype Rgb = Rgb(r: int, g: int, b: int)

  /** Python's `round` on one argument: the nearest integer, ties going to the even one. */
  function RoundHalfEven(x: real): (n: int)
    ensures -0.5 <= n as real - x <= 0.5
    ensures n as real - x == 0.5 || n as real - x == -0.5 ==> n % 2 == 0
    ensures 0.0 <= x <= 255.0 ==> 0 <= n <= 255
  {
    var f := x.Floor;
    var d := x - f as real;
    if d < 0.5 then f
    else if d > 0.5 then f + 1
    else if f % 2 == 0 then f
    else f + 1
  }

  /** Rounding picks the one integer the contract allows: any `n` within half of `x`,
      and even on a tie, is the rounded value. */
  lemma RoundUnique(x: real, n: int)
    requires -0.5 <= n as real - x <= 0.5
    requires n as real - x == 0.5 || n as real - x == -0.5 ==> n % 2 == 0
    ensures n == RoundHalfEven(x)
  {
  }

  /** The one adjustment `hue_to_rgb` makes to `t`: into [0, 1] by adding or taking off one turn. */
  function WrapHue(t: real): (u: real)
    ensures -1.0 <= t <= 2.0 ==> 0.0 <= u <= 1.0
    ensures u == t || u == t + 1.0 || u == t - 1.0
  {
    if t < 0.0 then t + 1.0 else if t > 1.0 then t - 1.0 else t
  }

  /** The shape of one channel along the hue circle, from 0 (at p) to 1 (at q):
      rising over the first sixth, flat at 1 up to the half, falling until two thirds,
      flat at 0 after. */
  function Shape(u: real): (f: real)
    ensures 0.0 <= u ==> 0.0 <= f <= 1.0
  {
    if u < 1.0 / 6.0 then 6.0 * u
    else if u < 1.0 / 2.0 then 1.0
    else if u < 2.0 / 3.0 then (2.0 / 3.0 - u) * 6.0
    else 0.0
  }

  /** What `hue_to_rgb(p, q, t)` returns: `p` moved towards `q` by the shape at the wrapped `t`. */
  function HueToRgbValue(p: real, q: real, t: real): (c: real)
    ensures p <= q && -1.0 <= t <= 2.0 ==> p <= c <= q
  {
    Lerp(p, q, Shape(WrapHue(t)))
  }

  /** The point a fraction `f` of the way from `p` to `q`; for `f` in [0, 1] it lies between them. */
  function Lerp(p: real, q: real, f: real): (r: real)
    ensures p <= q && 0.0 <= f <= 1.0 ==> p <= r <= q
  {
    var r := p + (q - p) * f;
    assert p <= q && 0.0 <= f <= 1.0 ==> p <= r <= q by {
      if p <= q && 0.0 <= f <= 1.0 {
        MulNonNegative(q - p, f);
        MulNonNegative(q - p, 1.0 - f);
      }
    }
    r
  }

  /** `hue_to_rgb` as the source runs it: adjust `t` in place, then take the first branch that applies. */
  method HueToRgb(p: real, q: real, t0: real) returns (c: real)
    ensures c == HueToRgbValue(p, q, t0)
    ensures p <= q && -1.0 <= t0 <= 2.0 ==> p <= c <= q
  {
    var t := t0;
    if t < 0.0 {
      t := t + 1.0;
    } else if t > 1.0 {
      t := t - 1.0;
    }
    if t < 1.0 / 6.0 {
      return p + (q - p) * 6.0 * t;
    }
    if t < 1.0 / 2.0 {
      return q;
    }
    if t < 2.0 / 3.0 {
      return p + (q - p) * (2.0 / 3.0 - t) * 6.0;
    }
    return p;
  }

  /** The fractional part of a real, the position on the hue circle. */
  function Frac(t: real): (u: real)
    ensures 0.0 <= u < 1.0
  {
    t - t.Floor as real
  }

  /** For every `t` that `hsl2rgb` can pass, the single wrap agrees with reading `t`
      modulo one turn, so a channel is a periodic function of the hue. */
  lemma HueToRgbPeriodic(p: real, q: real, t: real)
    requires -1.0 <= t <= 2.0
    ensures HueToRgbValue(p, q, t) == p + (q - p) * Shape(Frac(t))
  {
    var u := WrapHue(t);
    if t == 1.0 || t == 2.0 {
      assert Frac(t) == 0.0;
      assert Shape(u) == 0.0 && Shape(0.0) == 0.0;
    } else if t < 0.0 {
      assert t.Floor == -1;
    } else if t < 1.0 {
      assert t.Floor == 0;
    } else {
      assert t.Floor == 1;
    }
  }

  /** The larger of the two channel extremes `hsl2rgb` computes from lightness and saturation. */
  function Q(s: real, l: real): real {
    if l < 0.5 then l * (1.0 + s) else l + s - l * s
  }

  /** The smaller one, `2 * l - q`. */
  function P(s: real, l: real): real {
    2.0 * l - Q(s, l)
  }

  /** For saturation and lightness in [0, 1] the extremes are ordered and lie in [0, 1]. */
  lemma ExtremesInRange(s: real, l: real)
    requires 0.0 <= s <= 1.0 && 0.0 <= l <= 1.0
    ensures 0.0 <= P(s, l) <= Q(s, l) <= 1.0
  {
    if l < 0.5 {
      MulNonNegative(l, s);
      MulNonNegative(l, 1.0 - s);
      assert 0.0 <= l * s <= l;
    } else {
      MulNonNegative(s, 1.0 - l);
      MulNonNegative(1.0 - s, 1.0 - l);
      assert 0.0 <= s * (1.0 - l) <= 1.0 - l;
    }
  }

  /** A product of non-negative reals is non-negative. */
  lemma MulNonNegative(a: real, b: real)
    requires 0.0 <= a && 0.0 <= b
    ensures 0.0 <= a * b
  {
  }

  /** The extremes are the usual chroma form of the conversion: they lie the chroma
      `(1 - |2l - 1|) * s` apart, centred on the lightness. */
  lemma ExtremesChroma(s: real, l: real)
    ensures Q(s, l) - P(s, l) == (1.0 - (if 2.0 * l - 1.0 < 0.0 then 1.0 - 2.0 * l else 2.0 * l - 1.0)) * s
    ensures P(s, l) + Q(s, l) == 2.0 * l
  {
  }

  /** A colour whose hue is in [0, 360] and whose saturation and lightness are in [0, 1]. */
  predicate InHslDomain(hsl: Hsl) {
    0.0 <= hsl.h <= 360.0 && 0.0 <= hsl.s <= 1.0 && 0.0 <= hsl.l <= 1.0
  }

  /** One channel: the value at hue `t` scaled to 255 and rounded. */
  function Channel(p: real, q: real, t: real): int {
    RoundHalfEven(HueToRgbValue(p, q, t) * 255.0)
  }

  /** `hsl2rgb`: the hue as a fraction of a turn, then red a third of a turn ahead, green
      at it, and blue a third behind. For a colour in the HSL domain every channel is an
      integer in [0, 255]. */
  function Hsl2Rgb(hsl: Hsl): (rgb: Rgb)
    ensures InHslDomain(hsl) ==> 0 <= rgb.r <= 255 && 0 <= rgb.g <= 255 && 0 <= rgb.b <= 255
  {
    var h := hsl.h / 360.0;
    var q := Q(hsl.s, hsl.l);
    var p := P(hsl.s, hsl.l);
    var rgb := Rgb(Channel(p, q, h + 1.0 / 3.0), Channel(p, q, h), Channel(p, q, h - 1.0 / 3.0));
    assert InHslDomain(hsl) ==> 0 <= rgb.r <= 255 && 0 <= rgb.g <= 255 && 0 <= rgb.b <= 255 by {
      if InHslDomain(hsl) {
        ExtremesInRange(hsl.s, hsl.l);
        ChannelRange(p, q, h + 1.0 / 3.0);
        ChannelRange(p, q, h);
        ChannelRange(p, q, h - 1.0 / 3.0);
      }
    }
    rgb
  }

  /** A channel computed from ordered extremes in [0, 1] is in [0, 255]. */
  lemma ChannelRange(p: real, q: real, t: real)
    requires 0.0 <= p <= q <= 1.0 && -1.0 <= t <= 2.0
    ensures 0 <= Channel(p, q, t) <= 255
  {
    var c := HueToRgbValue(p, q, t);
    assert 0.0 <= c * 255.0 <= 255.0;
  }

  /** The rounding of the three channels of the "Hello World" colour. */
  lemma RoundHelloWorld()
    ensures RoundHalfEven(44.625) == 45
    ensures RoundHalfEven(210.375) == 210
    ensures RoundHalfEven(75.0125) == 75
  {
    assert (44.625).Floor == 44;
    assert (210.375).Floor == 210;
    assert (75.0125).Floor == 75;
  }

  /** Hue 131, saturation 0.65 and lightness 0.5 convert to (45, 210, 75). */
  lemma HelloWorldRgb()
    ensures Hsl2Rgb(Hsl(131.0, 0.65, 0.5)) == Rgb(45, 210, 75)
  {
    assert Q(0.65, 0.5) == 0.825 && P(0.65, 0.5) == 0.175;
    var h := 131.0 / 360.0;
    assert HueToRgbValue(0.175, 0.825, h + 1.0 / 3.0) == 0.175;
    assert HueToRgbValue(0.175, 0.825, h) == 0.825;
    assert HueToRgbValue(0.175, 0.825, h - 1.0 / 3.0) == 0.175 + 0.65 * 6.0 * (11.0 / 360.0);
    RoundHelloWorld();
  }

  /** Pure red: hue 0 at full saturation and half lightness. */
  lemma RedRgb()
    ensures Hsl2Rgb(Hsl(0.0, 1.0, 0.5)) == Rgb(255, 0, 0)
  {
    var h := 0.0 / 360.0;
    assert Q(1.0, 0.5) == 1.0 && P(1.0, 0.5) == 0.0;
    assert Channel(0.0, 1.0, h + 1.0 / 3.0) == 255;
    assert Channel(0.0, 1.0, h) == 0;
    assert Channel(0.0, 1.0, h - 1.0 / 3.0) == 0;
  }

  /** Pure blue: hue 240 at full saturation and half lightness. */
  lemma BlueRgb()
    ensures Hsl2Rgb(Hsl(240.0, 1.0, 0.5)) == Rgb(0, 0, 255)
  {
    var h := 240.0 / 360.0;
    assert Q(1.0, 0.5) == 1.0 && P(1.0, 0.5) == 0.0;
    assert Channel(0.0, 1.0, h + 1.0 / 3.0) == 0;
    assert Channel(0.0, 1.0, h) == 0;
    assert Channel(0.0, 1.0, h - 1.0 / 3.0) == 255;
  }

  /** Black: zero saturation and zero lightness. */
  lemma BlackRgb()
    ensures Hsl2Rgb(Hsl(0.0, 0.0, 0.0)) == Rgb(0, 0, 0)
  {
    var black := Hsl(0.0, 0.0, 0.0);
    var p, q := P(black.s, black.l), Q(black.s, black.l);
    assert p == 0.0 && q == 0.0;
    assert RoundHalfEven(0.0) == 0;
    forall t | true ensures Channel(p, q, t) == 0 {
      assert HueToRgbValue(p, q, t) == 0.0;
    }
  }

  /** The saturations and lightnesses `ColorHash` picks from by default. */
  predicate InDefaultPool(x: real) {
    x == 0.35 || x == 0.5 || x == 0.65
  }

  /** With the default pools the extremes stay strictly inside (0, 1): the smaller is at
      least 0.1225 (lightness 0.35, saturation 0.65), the larger at most 0.8775. */
  lemma DefaultExtremes(s: real, l: real)
    requires InDefaultPool(s) && InDefaultPool(l)
    ensures 0.1225 <= P(s, l) <= Q(s, l) <= 0.8775
  {
  }

  /** So a colour picked with the default pools has every channel in [31, 224], never 0
      and never 255. */
  lemma DefaultPoolChannels(hsl: Hsl)
    requires 0.0 <= hsl.h <= 360.0 && InDefaultPool(hsl.s) && InDefaultPool(hsl.l)
    ensures var rgb := Hsl2Rgb(hsl);
      31 <= rgb.r <= 224 && 31 <= rgb.g <= 224 && 31 <= rgb.b <= 224
  {
    var h := hsl.h / 360.0;
    var p, q := P(hsl.s, hsl.l), Q(hsl.s, hsl.l);
    DefaultExtremes(hsl.s, hsl.l);
    DefaultChannel(p, q, h + 1.0 / 3.0);
    DefaultChannel(p, q, h);
    DefaultChannel(p, q, h - 1.0 / 3.0);
  }

  /** One channel computed from extremes in [0.1225, 0.8775] is in [31, 224]. */
  lemma DefaultChannel(p: real, q: real, t: real)
    requires 0.1225 <= p <= q <= 0.8775 && -1.0 <= t <= 2.0
    ensures 31 <= Channel(p, q, t) <= 224
  {
    var c := HueToRgbValue(p, q, t);
    assert 31.2375 <= c * 255.0 <= 223.7625;
  }
}
