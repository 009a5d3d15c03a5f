/**
 * `color_hash`: validating the lightness and saturation pools and the hue
 * range, then cutting the checksum into a hue and two pool indices with a
 * chain of non-negative `%` and `//` steps.
 *
 * The checksum is non-negative and every divisor is positive, so Dafny's
 * Euclidean `/` and `%` agree with Python's `//` and `%` here.
 */
module Bucketize {
  import opened Wrappers
  import opened Utf8
  import opened Crc32

  /** The bounds a hue range must lie in. */
  const MIN_HUE: int := 0
  const MAX_HUE: int := 360

  /** A colour as hue in degrees, saturation and lightness. */
  datatype Hsl = Hsl(h: real, s: real, l: real)

  /** What `color_hash` raises. */
  datatype HashError =
    | LightnessOutOfRange   // ValueError "lightness params must be in range (0.0, 1.0)"
    | SaturationOutOfRange  // ValueError "saturation params must be in range (0.0, 1.0)"
    | HueRangeInvalid       // ValueError "min_h and max_h must be in range [0, 360] with min_h <= max_h"
    | DivisionByZero        // ZeroDivisionError from `% len(pool)` on an empty pool

  /** The bounds test each pool entry must pass, `0.0 <= x <= 1.0`. */
  predicate InUnitRange(x: real) {
    0.0 <= x <= 1.0
  }

  /** What `all([0.0 <= x <= 1.0 for x in pool])` computes. */
  predicate AllInUnitRange(pool: seq<real>) {
    forall i :: 0 <= i < |pool| ==> InUnitRange(pool[i])
  }

  /** The pool check as the comprehension and `all` run it: one entry after the other. */
  method CheckPool(pool: seq<real>) returns (ok: bool)
    ensures ok <==> AllInUnitRange(pool)
  {
    ok := true;
    var i := 0;
    while i < |pool|
      invariant 0 <= i <= |pool|
      invariant ok <==> forall j :: 0 <= j < i ==> InUnitRange(pool[j])
    {
      ok := ok && InUnitRange(pool[i]);
      i := i + 1;
    }
  }

  /** A half-given hue range is completed with the missing default bound; no bounds give no range. */
  function DefaultHueRange(minH: Option<int>, maxH: Option<int>): (r: Option<(int, int)>)
    ensures r.None? <==> minH.None? && maxH.None?
    ensures r.Some? ==> r.value.0 == (if minH.Some? then minH.value else MIN_HUE)
    ensures r.Some? ==> r.value.1 == (if maxH.Some? then maxH.value else MAX_HUE)
  {
    match (minH, maxH)
    case (None, None) => None
    case (None, Some(hi)) => Some((MIN_HUE, hi))
    case (Some(lo), None) => Some((lo, MAX_HUE))
    case (Some(lo), Some(hi)) => Some((lo, hi))
  }

  /** The condition the hue bounds must meet: 0 <= min_h <= max_h <= 360. */
  predicate HueRangeValid(lo: int, hi: int) {
    MIN_HUE <= lo <= MAX_HUE && MIN_HUE <= hi <= MAX_HUE && lo <= hi
  }

  /** The hue before any remap, an integer in [0, 358]. */
  function RawHue(checksum: nat): (h: nat)
    ensures h <= 358
  {
    checksum % 359
  }

  /** The linear remap into a hue range, with the fixed divisor 1000. Because the raw
      hue stops at 358, the result never passes 35.8% of the way along the range. */
  function RemapHue(raw: nat, lo: int, hi: int): (h: real)
    ensures raw <= 358 && lo <= hi ==> lo as real <= h <= lo as real + 0.358 * (hi - lo) as real
    ensures lo == hi ==> h == lo as real
  {
    RemapBound(raw, (hi - lo) as real);
    (raw as real / 1000.0) * (hi - lo) as real + lo as real
  }

  /** The fraction of the range the remap moves by stays in [0, 0.358]. */
  lemma RemapBound(raw: nat, d: real)
    ensures raw <= 358 && d >= 0.0 ==> 0.0 <= (raw as real / 1000.0) * d <= 0.358 * d
  {
    if raw <= 358 && d >= 0.0 {
      var f := raw as real / 1000.0;
      assert 0.0 <= f <= 0.358;
      assert f * d <= 0.358 * d by {
        assert (0.358 - f) * d >= 0.0;
      }
    }
  }

  /** The hue `color_hash` returns for a checksum and an optional (completed) range. */
  function HueFor(checksum: nat, range: Option<(int, int)>): real {
    match range
    case None => RawHue(checksum) as real
    case Some((lo, hi)) => RemapHue(RawHue(checksum), lo, hi)
  }

  /** The specification of `color_hash` on a checksum: the first failing check in the
      source's order, or the picked colour. */
  function ColorHashSpec(checksum: nat, lightness: seq<real>, saturation: seq<real>,
                         minH: Option<int>, maxH: Option<int>): (r: Result<Hsl, HashError>)
    // the checks, in the order they fail
    ensures r == Err(LightnessOutOfRange) <==> !AllInUnitRange(lightness)
    ensures r == Err(SaturationOutOfRange) <==> AllInUnitRange(lightness) && !AllInUnitRange(saturation)
    ensures r == Err(HueRangeInvalid) <==>
      AllInUnitRange(lightness) && AllInUnitRange(saturation) &&
      (minH.Some? || maxH.Some?) &&
      !HueRangeValid(if minH.Some? then minH.value else MIN_HUE, if maxH.Some? then maxH.value else MAX_HUE)
    ensures r == Err(DivisionByZero) <==>
      AllInUnitRange(lightness) && AllInUnitRange(saturation) &&
      (minH.Some? || maxH.Some? ==>
        HueRangeValid(if minH.Some? then minH.value else MIN_HUE, if maxH.Some? then maxH.value else MAX_HUE)) &&
      (|saturation| == 0 || |lightness| == 0)
    // the picked saturation and lightness come out of their pools
    ensures r.Ok? ==> r.value.s in saturation && r.value.l in lightness
    ensures r.Ok? ==> r.value.s == saturation[checksum / 360 % |saturation|]
    ensures r.Ok? ==> r.value.l == lightness[checksum / 360 / |saturation| % |lightness|]
    ensures r.Ok? ==> InUnitRange(r.value.s) && InUnitRange(r.value.l)
    // the hue: an integer in [0, 358] without a range, inside the range otherwise
    ensures r.Ok? && minH.None? && maxH.None? ==>
      r.value.h == (checksum % 359) as real && 0.0 <= r.value.h <= 358.0
    ensures r.Ok? && (minH.Some? || maxH.Some?) ==>
      var lo := if minH.Some? then minH.value else MIN_HUE;
      var hi := if maxH.Some? then maxH.value else MAX_HUE;
      lo as real <= r.value.h <= lo as real + 0.358 * (hi - lo) as real <= hi as real
    ensures r.Ok? && minH.Some? && maxH.Some? && minH.value == maxH.value ==> r.value.h == minH.value as real
    ensures r.Ok? ==> MIN_HUE as real <= r.value.h <= MAX_HUE as real
  {
    if !AllInUnitRange(lightness) then Err(LightnessOutOfRange)
    else if !AllInUnitRange(saturation) then Err(SaturationOutOfRange)
    else
      var range := DefaultHueRange(minH, maxH);
      if range.Some? && !HueRangeValid(range.value.0, range.value.1) then Err(HueRangeInvalid)
      else if |saturation| == 0 || |lightness| == 0 then Err(DivisionByZero)
      else
        var si := checksum / 360 % |saturation|;
        var li := checksum / 360 / |saturation| % |lightness|;
        Ok(Hsl(HueFor(checksum, range), saturation[si], lightness[li]))
  }

  /** `color_hash` on a string, step by step as the source runs it: the pool checks, the
      defaulting of `min_h`/`max_h`, the checksum, and the working value cut down by
      `//= 360` and `//= len(saturation)`. */
  method ComputeColorHash(text: string, lightness: seq<real>, saturation: seq<real>,
                          minH: Option<int>, maxH: Option<int>) returns (r: Result<Hsl, HashError>)
    ensures r == ColorHashSpec(Crc32Hash(Encode(text)), lightness, saturation, minH, maxH)
  {
    var lightnessOk := CheckPool(lightness);
    if !lightnessOk {
      return Err(LightnessOutOfRange);
    }
    var saturationOk := CheckPool(saturation);
    if !saturationOk {
      return Err(SaturationOutOfRange);
    }
    var lo, hi := minH, maxH;
    if lo.None? && hi.Some? {
      lo := Some(MIN_HUE);
    }
    if lo.Some? && hi.None? {
      hi := Some(MAX_HUE);
    }
    var hashVal := Crc32Hash(Encode(text));
    assert lo == if minH.Some? || maxH.Some? then Some(DefaultHueRange(minH, maxH).value.0) else None;
    assert hi == if minH.Some? || maxH.Some? then Some(DefaultHueRange(minH, maxH).value.1) else None;
    var h: real := (hashVal % 359) as real;
    if lo.Some? && hi.Some? {
      if !HueRangeValid(lo.value, hi.value) {
        return Err(HueRangeInvalid);
      }
      h := RemapHue(hashVal % 359, lo.value, hi.value);
    }
    hashVal := hashVal / 360;
    if |saturation| == 0 {
      return Err(DivisionByZero);
    }
    var s := saturation[hashVal % |saturation|];
    hashVal := hashVal / |saturation|;
    if |lightness| == 0 {
      return Err(DivisionByZero);
    }
    var l := lightness[hashVal % |lightness|];
    return Ok(Hsl(h, s, l));
  }

  /** The pools `ColorHash` uses when none are given. */
  const DEFAULT_POOL: seq<real> := [0.35, 0.5, 0.65]

  /** The checksum of "Hello World" with the default pools and no hue range picks
      hue 131, saturation 0.65 and lightness 0.5. */
  lemma HelloWorldBuckets()
    ensures ColorHashSpec(1243066710, DEFAULT_POOL, DEFAULT_POOL, None, None) == Ok(Hsl(131.0, 0.65, 0.5))
  {
    assert AllInUnitRange(DEFAULT_POOL) by {
      assert forall i :: 0 <= i < 3 ==> DEFAULT_POOL[i] in {0.35, 0.5, 0.65};
    }
  }
}
