/** ImageFiler: turns the near-white background of an image transparent.
    The background test is a whitelist of 216 "r-g-b" keys, one per channel
    triple in [250, 255]^3; each pixel whose key is listed loses its alpha byte,
    every other pixel is returned unchanged. */
module ImageFiler {
  import opened DecimalText

  /** A packed ARGB pixel, the bit pattern of a Java `int`: alpha in bits 24..31,
      red in 16..23, green in 8..15, blue in 0..7. */
  type Pixel = bv32

  datatype Option<T> = None | Some(value: T)

  // ---------------------------------------------------------------------------
  // Channels, as java.awt.Color(int) splits a pixel

  function Red(p: Pixel): (c: nat)
    ensures c < 256
  {
    ((p >> 16) & 0xFF) as nat
  }

  function Green(p: Pixel): (c: nat)
    ensures c < 256
  {
    ((p >> 8) & 0xFF) as nat
  }

  function Blue(p: Pixel): (c: nat)
    ensures c < 256
  {
    (p & 0xFF) as nat
  }

  // ---------------------------------------------------------------------------
  // The alpha byte, which Color(int) drops and the filter's mask clears

  function Alpha(p: Pixel): (a: nat)
    ensures a < 256
  {
    (p >> 24) as nat
  }

  /** `0x00FFFFFF & rgb`: the alpha byte cleared, the colour channels kept. */
  function ClearAlpha(p: Pixel): (q: Pixel)
    ensures Alpha(q) == 0
    ensures Red(q) == Red(p) && Green(q) == Green(p) && Blue(q) == Blue(p)
  {
    p & 0x00FF_FFFF
  }

  // ---------------------------------------------------------------------------
  // The whitelist

  const BandLow := 250
  const BandHigh := 255

  /** The closed channel range [250, 255] that counts as near-white. */
  predicate InBand(v: int)
  {
    BandLow <= v <= BandHigh
  }

  /** The direct range test that the whitelist lookup stands for. */
  predicate IsBackground(p: Pixel)
  {
    InBand(Red(p)) && InBand(Green(p)) && InBand(Blue(p))
  }

  /** The string `first + "-" + second + "-" + third`: the decimal texts of the
      three numbers with a '-' right after the first and right after the second. */
  function ChannelKey(first: nat, second: nat, third: nat): (k: string)
    ensures |k| == |Decimal(first)| + |Decimal(second)| + |Decimal(third)| + 2
    ensures k[|Decimal(first)|] == '-'
    ensures k[|Decimal(first)| + 1 + |Decimal(second)|] == '-'
  {
    Decimal(first) + "-" + Decimal(second) + "-" + Decimal(third)
  }

  /** Where the nested loops put the key of (r, g, b): red varies slowest, blue fastest. */
  function Position(r: int, g: int, b: int): int
  {
    36 * (r - BandLow) + 6 * (g - BandLow) + (b - BandLow)
  }

  /** The list the loops build: entry i is the key of red 250 + i / 36,
      green 250 + (i / 6) % 6 and blue 250 + i % 6. */
  function WhiteList(): seq<string>
  {
    seq(216, i requires 0 <= i < 216 =>
      ChannelKey(BandLow + i / 36, BandLow + i / 6 % 6, BandLow + i % 6))
  }

  /** getRGBWhiteList: three nested loops over [250, 255], appending "r-g-b". */
  method GetRgbWhiteList() returns (whiteList: seq<string>)
    ensures whiteList == WhiteList()
  {
    whiteList := [];
    var r := BandLow;
    while r <= BandHigh
      invariant BandLow <= r <= BandHigh + 1
      invariant whiteList == WhiteList()[..Position(r, BandLow, BandLow)]
    {
      var g := BandLow;
      while g <= BandHigh
        invariant BandLow <= g <= BandHigh + 1
        invariant whiteList == WhiteList()[..Position(r, g, BandLow)]
      {
        var b := BandLow;
        while b <= BandHigh
          invariant BandLow <= b <= BandHigh + 1
          invariant whiteList == WhiteList()[..Position(r, g, b)]
        {
          WhiteListAt(r, g, b);
          whiteList := whiteList + [ChannelKey(r, g, b)];
          b := b + 1;
        }
        g := g + 1;
      }
      r := r + 1;
    }
  }

  /** Entry `Position(r, g, b)` of the whitelist is the key of (r, g, b):
      the list is in red-major, then green, then blue order. */
  lemma WhiteListAt(r: int, g: int, b: int)
    requires InBand(r) && InBand(g) && InBand(b)
    ensures 0 <= Position(r, g, b) < |WhiteList()|
    ensures WhiteList()[Position(r, g, b)] == ChannelKey(r, g, b)
  {
    var x, y, z := r - BandLow, g - BandLow, b - BandLow;
    var i := Position(r, g, b);
    DivModThirtySix(x, 6 * y + z);
    assert i / 36 == x;
    DivModSix(6 * x + y, z);
    assert i / 6 == 6 * x + y && i % 6 == z;
    DivModSix(x, y);
    assert i / 6 % 6 == y;
  }

  lemma DivModSix(q: int, rem: int)
    requires 0 <= rem < 6
    ensures (6 * q + rem) / 6 == q && (6 * q + rem) % 6 == rem
  {
  }

  lemma DivModThirtySix(q: int, rem: int)
    requires 0 <= rem < 36
    ensures (36 * q + rem) / 36 == q
  {
  }

  /** Keys built from different channel triples are different strings. */
  lemma ChannelKeyInjective(a: nat, b: nat, c: nat, x: nat, y: nat, z: nat)
    ensures ChannelKey(a, b, c) == ChannelKey(x, y, z) <==> a == x && b == y && c == z
  {
    if ChannelKey(a, b, c) == ChannelKey(x, y, z) {
      KeyShape(a, b, c);
      KeyShape(x, y, z);
      SplitAtFirst(Decimal(a), Decimal(b) + ['-'] + Decimal(c), Decimal(x), Decimal(y) + ['-'] + Decimal(z), '-');
      SplitAtFirst(Decimal(b), Decimal(c), Decimal(y), Decimal(z), '-');
      DecimalInjective(a, x);
      DecimalInjective(b, y);
      DecimalInjective(c, z);
    }
  }

  /** A key is its first number, a '-', and the rest; neither number before a '-' holds one. */
  lemma KeyShape(a: nat, b: nat, c: nat)
    ensures ChannelKey(a, b, c) == Decimal(a) + ['-'] + (Decimal(b) + ['-'] + Decimal(c))
    ensures '-' !in Decimal(a) && '-' !in Decimal(b)
  {
    NoDashInDecimal(a);
    NoDashInDecimal(b);
  }

  /** The whitelist has 216 entries and no key twice. */
  lemma WhiteListDistinct()
    ensures |WhiteList()| == 216
    ensures forall i, j :: 0 <= i < j < |WhiteList()| ==> WhiteList()[i] != WhiteList()[j]
  {
    forall i, j | 0 <= i < j < |WhiteList()|
      ensures WhiteList()[i] != WhiteList()[j]
    {
      EntriesDiffer(i, j);
    }
  }

  lemma EntriesDiffer(i: int, j: int)
    requires 0 <= i < j < 216
    ensures WhiteList()[i] != WhiteList()[j]
  {
    var r1, g1, b1 := TripleOf(i);
    var r2, g2, b2 := TripleOf(j);
    KeysDiffer(r1, g1, b1, r2, g2, b2);
  }

  /** The channel triple whose key is entry i of the whitelist. */
  lemma TripleOf(i: int) returns (r: nat, g: nat, b: nat)
    requires 0 <= i < 216
    ensures InBand(r) && InBand(g) && InBand(b)
    ensures Position(r, g, b) == i
    ensures WhiteList()[i] == ChannelKey(r, g, b)
  {
    r, g, b := BandLow + i / 36, BandLow + i / 6 % 6, BandLow + i % 6;
    PositionOfIndex(i);
  }

  lemma KeysDiffer(a: nat, b: nat, c: nat, x: nat, y: nat, z: nat)
    requires Position(a, b, c) != Position(x, y, z)
    ensures ChannelKey(a, b, c) != ChannelKey(x, y, z)
  {
    ChannelKeyInjective(a, b, c, x, y, z);
  }

  /** Entry i comes from the triple whose position is i. */
  lemma PositionOfIndex(i: int)
    requires 0 <= i < 216
    ensures Position(BandLow + i / 36, BandLow + i / 6 % 6, BandLow + i % 6) == i
  {
    var q, rem := i / 36, i % 36;
    DivModSix(6 * q + rem / 6, rem % 6);
    assert i == 6 * (6 * q + rem / 6) + rem % 6;
    DivModSix(q, rem / 6);
  }

  /** A key is listed exactly when all three of its numbers lie in [250, 255]. */
  lemma WhiteListMembership(a: nat, b: nat, c: nat)
    ensures ChannelKey(a, b, c) in WhiteList() <==> InBand(a) && InBand(b) && InBand(c)
  {
    var w := WhiteList();
    if ChannelKey(a, b, c) in w {
      var i :| 0 <= i < |w| && w[i] == ChannelKey(a, b, c);
      var r, g, bl := TripleOf(i);
      ChannelKeyInjective(a, b, c, r, g, bl);
    }
    if InBand(a) && InBand(b) && InBand(c) {
      WhiteListAt(a, b, c);
    }
  }

  /** The lookup key puts blue before green, the list puts green before blue;
      since the band is the same on every channel the answer is the same. */
  lemma KeyOrderIrrelevant(r: nat, g: nat, b: nat)
    ensures ChannelKey(r, b, g) in WhiteList() <==> ChannelKey(r, g, b) in WhiteList()
  {
    WhiteListMembership(r, b, g);
    WhiteListMembership(r, g, b);
  }

  // ---------------------------------------------------------------------------
  // The per-pixel filter

  /** filterRGB of the anonymous RGBImageFilter, with the whitelist it closes over
      as a parameter. The key is built red, blue, green. The result is either the
      pixel itself or the pixel with its alpha byte cleared. */
  function FilterRgb(whiteList: seq<string>, rgb: Pixel): (r: Pixel)
    ensures r == rgb || r == ClearAlpha(rgb)
  {
    var key := ChannelKey(Red(rgb), Blue(rgb), Green(rgb));
    if key in whiteList then ClearAlpha(rgb) else rgb
  }

  /** A near-white pixel comes out with alpha 0 and its colour bits unchanged. */
  lemma BackgroundBecomesTransparent(rgb: Pixel)
    requires IsBackground(rgb)
    ensures FilterRgb(WhiteList(), rgb) == ClearAlpha(rgb)
    ensures Alpha(FilterRgb(WhiteList(), rgb)) == 0
  {
    WhiteListMembership(Red(rgb), Blue(rgb), Green(rgb));
  }

  /** Any other pixel comes out exactly as it went in, alpha included. */
  lemma OtherPixelsUnchanged(rgb: Pixel)
    requires !IsBackground(rgb)
    ensures FilterRgb(WhiteList(), rgb) == rgb
  {
    WhiteListMembership(Red(rgb), Blue(rgb), Green(rgb));
  }

  /** The output alpha is 0 exactly for near-white pixels and for pixels that were
      already fully transparent. */
  lemma TransparentExactly(rgb: Pixel)
    ensures Alpha(FilterRgb(WhiteList(), rgb)) == 0 <==> IsBackground(rgb) || Alpha(rgb) == 0
  {
    WhiteListMembership(Red(rgb), Blue(rgb), Green(rgb));
  }

  /** The classification reads only the colour bits, which the filter keeps,
      so filtering twice is filtering once, for any whitelist. */
  lemma FilterIdempotent(whiteList: seq<string>, rgb: Pixel)
    ensures FilterRgb(whiteList, FilterRgb(whiteList, rgb)) == FilterRgb(whiteList, rgb)
  {
  }

  /** Worked cases: white, black, (252,253,254), (10,200,10) and (249,255,255),
      each fully opaque on input. */
  lemma FilterExamples()
    ensures FilterRgb(WhiteList(), 0xFFFF_FFFF) == 0x00FF_FFFF
    ensures FilterRgb(WhiteList(), 0xFF00_0000) == 0xFF00_0000
    ensures FilterRgb(WhiteList(), 0xFFFC_FDFE) == 0x00FC_FDFE
    ensures FilterRgb(WhiteList(), 0xFF0A_C80A) == 0xFF0A_C80A
    ensures FilterRgb(WhiteList(), 0xFFF9_FFFF) == 0xFFF9_FFFF
  {
    BackgroundBecomesTransparent(0xFFFF_FFFF);
    OtherPixelsUnchanged(0xFF00_0000);
    BackgroundBecomesTransparent(0xFFFC_FDFE);
    OtherPixelsUnchanged(0xFF0A_C80A);
    OtherPixelsUnchanged(0xFFF9_FFFF);
  }

  // ---------------------------------------------------------------------------
  // Images and the whole transformation

  /** A BufferedImage of type TYPE_INT_ARGB: pixel (x, y) is at y * width + x. */
  class Raster {
    const width: nat
    const height: nat
    const pixels: array<Pixel>

    ghost predicate Valid()
      reads this
    {
      pixels.Length == width * height
    }

    constructor (width: nat, height: nat, pixels: array<Pixel>)
      requires pixels.Length == width * height
      ensures Valid()
      ensures this.width == width && this.height == height && this.pixels == pixels
    {
      this.width := width;
      this.height := height;
      this.pixels := pixels;
    }

    /** getRGB(x, y): defined exactly on the image's coordinates (Java throws
        outside them), and then the row-major pixel at (x, y). */
    function GetRgb(x: nat, y: nat): (r: Option<Pixel>)
      reads this, pixels
      requires Valid()
      ensures r.Some? <==> x < width && y < height
      ensures r.Some? ==> y * width + x < pixels.Length && r.value == pixels[y * width + x]
    {
      if x < width && y < height then
        RowMajorInRange(x, y, width, height);
        Some(pixels[y * width + x])
      else
        None
    }
  }

  lemma RowMajorInRange(x: nat, y: nat, width: nat, height: nat)
    requires x < width && y < height
    ensures y * width + x < width * height
  {
    assert y * width + x < (y + 1) * width;
    assert (y + 1) * width <= height * width;
  }

  /** makeColorTransparent: build the whitelist, then filter every pixel into a
      new image of the same size. The reference colour is accepted and ignored,
      and the source image is not modified. */
  method MakeColorTransparent(im: Raster, color: Pixel) returns (filtered: Raster)
    requires im.Valid()
    ensures fresh(filtered) && fresh(filtered.pixels) && filtered.Valid()
    ensures filtered.width == im.width && filtered.height == im.height
    ensures filtered.pixels.Length == im.pixels.Length
    ensures forall i :: 0 <= i < im.pixels.Length ==>
              filtered.pixels[i] == FilterRgb(WhiteList(), im.pixels[i])
  {
    var whiteList := GetRgbWhiteList();
    var n := im.pixels.Length;
    var out := new Pixel[n];
    var i := 0;
    while i < n
      invariant 0 <= i <= n
      invariant forall k :: 0 <= k < i ==> out[k] == FilterRgb(whiteList, im.pixels[k])
    {
      out[i] := FilterRgb(whiteList, im.pixels[i]);
      i := i + 1;
    }
    filtered := new Raster(im.width, im.height, out);
  }

  const Prefix := "transparent-"

  /** The output path: directory, separator, "transparent-", then the title.
      It splits back into those parts, with the prefix right after the
      separator and the title at the very end, nothing appended. */
  function OutputPath(targetFilePath: string, separator: string, title: string): (path: string)
    ensures var cut := |targetFilePath| + |separator|;
      && |path| == cut + |Prefix| + |title|
      && path[..|targetFilePath|] == targetFilePath
      && path[|targetFilePath|..cut] == separator
      && path[cut..cut + |Prefix|] == Prefix
      && path[cut + |Prefix|..] == title
  {
    targetFilePath + separator + Prefix + title
  }

  predicate EndsWith(s: string, suffix: string)
  {
    |suffix| <= |s| && s[|s| - |suffix|..] == suffix
  }

  /** No extension is added: the path ends in ".png" exactly when the title does. */
  lemma PngOnlyFromTitle(targetFilePath: string, separator: string, title: string)
    ensures EndsWith(OutputPath(targetFilePath, separator, title), ".png") <==> EndsWith(title, ".png")
  {
    var path := OutputPath(targetFilePath, separator, title);
    var n := |path|;
    if |title| >= 4 {
      assert path[n - 4..] == title[|title| - 4..];
    } else {
      assert path[n - 4] == Prefix[8 + |title|];
      assert path[n - 4..][0] != '.';
    }
  }

  datatype ImageError = CoordinateOutOfBounds

  /** What one call produces: the path the PNG goes to and the image written there. */
  datatype Outcome = Written(path: string, image: Raster) | Failed(error: ImageError)

  /** makeBackgroundTransparent: sample pixel (0, 0), filter the image, and name
      the output. An image with no pixel (0, 0) fails where Java's getRGB throws. */
  method MakeBackgroundTransparent(source: Raster, title: string, targetFilePath: string, separator: string)
    returns (result: Outcome)
    requires source.Valid()
    ensures result.Failed? <==> source.width == 0 || source.height == 0
    ensures result.Written? ==>
              && result.path == OutputPath(targetFilePath, separator, title)
              && fresh(result.image) && fresh(result.image.pixels) && result.image.Valid()
              && result.image.width == source.width && result.image.height == source.height
              && result.image.pixels.Length == source.pixels.Length
              && forall i :: 0 <= i < source.pixels.Length ==>
                   result.image.pixels[i] == FilterRgb(WhiteList(), source.pixels[i])
  {
    var rgbSource := source.GetRgb(0, 0);
    if rgbSource.None? {
      return Failed(CoordinateOutOfBounds);
    }
    var color := rgbSource.value;
    var transparentImage := MakeColorTransparent(source, color);
    var imagePath := OutputPath(targetFilePath, separator, title);
    result := Written(imagePath, transparentImage);
  }
}
