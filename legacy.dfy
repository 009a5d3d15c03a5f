/**
 * The older copy of the module. Its checksum, bucketing, conversion and class are
 * the same definitions as the current copy's; its `rgb2hex` formats with
 * `"#%02x%02x%02x" % rgb`, which takes the channels from a tuple of any length
 * and raises `TypeError` unless there are exactly three, rewrapped as `ValueError(rgb)`.
 */
module Legacy {
  import opened Wrappers
  import opened Convert
  import opened Hex
  import opened ColorHashes

  /** The legacy `rgb2hex` on a tuple of integer channels: the colour string for a
      triple, `ValueError` carrying the tuple otherwise. */
  function Rgb2HexTuple(rgb: seq<int>): (r: Result<string, seq<int>>)
    ensures r.Err? <==> |rgb| != 3
    ensures r.Err? ==> r.error == rgb
    ensures r.Ok? ==> |r.value| >= 7 && r.value[0] == '#'
    ensures r.Ok? && InByteRange(Rgb(rgb[0], rgb[1], rgb[2])) ==>
      IsHexColor(r.value) && ParseHexColor(r.value) == Some(Rgb(rgb[0], rgb[1], rgb[2]))
  {
    if |rgb| != 3 then Err(rgb)
    // `%02x` writes an integer exactly as `{:02x}` does
    else Ok(Rgb2Hex(Rgb(rgb[0], rgb[1], rgb[2])))
  }

  /** On a triple the legacy formatting writes what the current `rgb2hex` writes. */
  lemma LegacyAgreesOnTriples(rgb: Rgb)
    ensures Rgb2HexTuple([rgb.r, rgb.g, rgb.b]) == Ok(Rgb2Hex(rgb))
  {
  }

  /** So the legacy `hex` property, which formats the `rgb` triple, never raises and
      equals the current one. */
  lemma LegacyHex(c: ColorHash)
    requires c.Valid()
    ensures Rgb2HexTuple([c.ToRgb().r, c.ToRgb().g, c.ToRgb().b]) == Ok(c.ToHex())
  {
    LegacyAgreesOnTriples(c.ToRgb());
  }
}
