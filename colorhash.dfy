/**
 * The `ColorHash` class: the colour of a string, computed once as HSL when the
 * object is made, with its RGB and hex forms derived from that on each read.
 */
module ColorHashes {
  import opened Wrappers
  import opened Utf8
  import opened Crc32
  import opened Bucketize
  import opened Convert
  import opened Hex

  class ColorHash {
    /** The colour as (hue, saturation, lightness), set once when the object is made. */
    const hsl: Hsl

    /** What every `ColorHash` satisfies: its colour lies in the HSL domain. */
    predicate Valid() {
      InHslDomain(hsl)
    }

    /** Wraps an already computed colour. */
    constructor FromHsl(hsl: Hsl)
      requires InHslDomain(hsl)
      ensures this.hsl == hsl && Valid()
    {
      this.hsl := hsl;
    }

    /** `ColorHash(obj, lightness, saturation, min_h, max_h)` for the string form `text`
        of `obj`: the new object holds what `color_hash` computes, or the error it raises. */
    static method New(text: string, lightness: seq<real>, saturation: seq<real>,
                      minH: Option<int>, maxH: Option<int>) returns (r: Result<ColorHash, HashError>)
      ensures r.Ok? ==> fresh(r.value) && r.value.Valid()
      ensures r.Ok? <==> ColorHashSpec(Crc32Hash(Encode(text)), lightness, saturation, minH, maxH).Ok?
      ensures r.Ok? ==> Ok(r.value.hsl) == ColorHashSpec(Crc32Hash(Encode(text)), lightness, saturation, minH, maxH)
      ensures r.Err? ==> Err(r.error) == ColorHashSpec(Crc32Hash(Encode(text)), lightness, saturation, minH, maxH)
    {
      var c := ComputeColorHash(text, lightness, saturation, minH, maxH);
      if c.Err? {
        return Err(c.error);
      }
      var obj := new ColorHash.FromHsl(c.value);
      r := Ok(obj);
    }

    /** `ColorHash(obj)` with the default pools and no hue range, which never raises. */
    static method Default(text: string) returns (obj: ColorHash)
      ensures fresh(obj) && obj.Valid()
      ensures Ok(obj.hsl) == ColorHashSpec(Crc32Hash(Encode(text)), DEFAULT_POOL, DEFAULT_POOL, None, None)
    {
      DefaultPoolValid();
      var c := ComputeColorHash(text, DEFAULT_POOL, DEFAULT_POOL, None, None);
      obj := new ColorHash.FromHsl(c.value);
    }

    /** The `rgb` property: the stored colour converted, every channel in [0, 255]. */
    function ToRgb(): (rgb: Rgb)
      requires Valid()
      ensures InByteRange(rgb)
    {
      Hsl2Rgb(hsl)
    }

    /** The `hex` property: `#rrggbb`, which reads back as the `rgb` property. */
    function ToHex(): (hex: string)
      requires Valid()
      ensures IsHexColor(hex) && ParseHexColor(hex) == Some(ToRgb())
    {
      Rgb2Hex(ToRgb())
    }
  }

  /** The default pools pass the pool check and are not empty. */
  lemma DefaultPoolValid()
    ensures AllInUnitRange(DEFAULT_POOL) && |DEFAULT_POOL| == 3
  {
    assert forall i :: 0 <= i < 3 ==> DEFAULT_POOL[i] in {0.35, 0.5, 0.65};
  }

  /** A colour `color_hash` returns always lies in the HSL domain, whatever the pools and range. */
  lemma SpecInDomain(checksum: nat, lightness: seq<real>, saturation: seq<real>,
                     minH: Option<int>, maxH: Option<int>)
    requires ColorHashSpec(checksum, lightness, saturation, minH, maxH).Ok?
    ensures InHslDomain(ColorHashSpec(checksum, lightness, saturation, minH, maxH).value)
  {
  }

  /** The `rgb` and `hex` properties depend on the stored colour alone, so two objects
      made from the same arguments, or one object read twice, give the same answers. */
  lemma ReadsAgree(a: ColorHash, b: ColorHash)
    requires a.Valid() && b.Valid() && a.hsl == b.hsl
    ensures a.ToRgb() == b.ToRgb() && a.ToHex() == b.ToHex()
  {
  }

  /** With the default pools the colour of any string, under any valid hue range, has
      every channel strictly between 0 and 255. */
  lemma DefaultPoolsNoExtremeChannel(checksum: nat, minH: Option<int>, maxH: Option<int>)
    requires ColorHashSpec(checksum, DEFAULT_POOL, DEFAULT_POOL, minH, maxH).Ok?
    ensures var rgb := Hsl2Rgb(ColorHashSpec(checksum, DEFAULT_POOL, DEFAULT_POOL, minH, maxH).value);
      0 < rgb.r < 255 && 0 < rgb.g < 255 && 0 < rgb.b < 255
  {
    var hsl := ColorHashSpec(checksum, DEFAULT_POOL, DEFAULT_POOL, minH, maxH).value;
    assert hsl.s in DEFAULT_POOL && hsl.l in DEFAULT_POOL;
    DefaultPoolChannels(hsl);
  }

  /** The UTF-8 bytes of "Hello World", one per character. */
  const HELLO_WORLD_BYTES: seq<Byte> := [72, 101, 108, 108, 111, 32, 87, 111, 114, 108, 100]

  /** "Hello World" is ASCII, so it encodes to its character codes. */
  lemma HelloWorldBytes(s: string)
    requires s == "Hello World"
    ensures Encode(s) == HELLO_WORLD_BYTES
  {
    EncodeAscii(s);
    assert Encode(s)[0] == 72 by { assert s[0] == 'H'; }
    assert Encode(s)[1] == 101 by { assert s[1] == 'e'; }
    assert Encode(s)[2] == 108 by { assert s[2] == 'l'; }
    assert Encode(s)[3] == 108 by { assert s[3] == 'l'; }
    assert Encode(s)[4] == 111 by { assert s[4] == 'o'; }
    assert Encode(s)[5] == 32 by { assert s[5] == ' '; }
    assert Encode(s)[6] == 87 by { assert s[6] == 'W'; }
    assert Encode(s)[7] == 111 by { assert s[7] == 'o'; }
    assert Encode(s)[8] == 114 by { assert s[8] == 'r'; }
    assert Encode(s)[9] == 108 by { assert s[9] == 'l'; }
    assert Encode(s)[10] == 100 by { assert s[10] == 'd'; }
  }

  /** The octets the checksum reads for "Hello World". */
  lemma HelloWorldOctets(s: string)
    requires s == "Hello World"
    ensures Octets(Encode(s)) == HELLO_WORLD
  {
    HelloWorldBytes(s);
    assert Octets(HELLO_WORLD_BYTES) == HELLO_WORLD;
  }

  /** The example of the module documentation: "Hello World" checksums to 1243066710,
      which with the default pools is hsl (131, 0.65, 0.5), rgb (45, 210, 75) and hex `#2dd24b`. */
  lemma HelloWorldColor()
    ensures Crc32Hash(Encode("Hello World")) == 1243066710
    ensures ColorHashSpec(Crc32Hash(Encode("Hello World")), DEFAULT_POOL, DEFAULT_POOL, None, None)
      == Ok(Hsl(131.0, 0.65, 0.5))
    ensures Hsl2Rgb(Hsl(131.0, 0.65, 0.5)) == Rgb(45, 210, 75)
    ensures Rgb2Hex(Rgb(45, 210, 75)) == "#2dd24b"
  {
    HelloWorldOctets("Hello World");
    HelloWorldCheck();
    HelloWorldBuckets();
    HelloWorldRgb();
    HelloWorldHex();
  }
}
