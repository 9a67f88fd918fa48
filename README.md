# imagefiler in Dafny

A model of the pixel logic of `ImageFiler`. `ImageFiler` makes the near-white background of an image transparent and writes the result as a PNG.

- `GetRgbWhiteList` builds the whitelist of background colours with the source's three nested loops. Each channel runs over the closed range [250, 255], and each triple is stored as the decimal string key `"r-g-b"`. That gives 216 keys in red-major, then green, then blue order.
- `FilterRgb` is the anonymous `RGBImageFilter.filterRGB`. It splits a packed ARGB pixel into red, green and blue the way `java.awt.Color(int)` does, ignoring alpha. It builds the key in the order red, blue, green and looks it up in the whitelist. On a match it returns the pixel with its alpha byte cleared (`rgb & 0x00FFFFFF`); otherwise it returns the pixel unchanged.
- `MakeColorTransparent` applies the filter to every pixel of a `Raster`, a model of a `TYPE_INT_ARGB` `BufferedImage`. It writes the results into a fresh image of the same size. The reference colour it receives is never used.
- `MakeBackgroundTransparent` samples pixel (0, 0), filters the image and builds the output path `targetFilePath + separator + "transparent-" + title`.
- Module `DecimalText` models how Java prints a non-negative `int` inside a string concatenation. It also provides the inverse of that printing, which is used to show that distinct channel triples give distinct keys.

A pixel is the 32-bit pattern of the Java `int` (`bv32`). The source applies only shifts and masks to it, so Java's sign does not matter.

Behaviour of the code worth noting:

- The Javadoc of `makeColorTransparent` (src/main/java/com/java/imagefiler/ImageFiler.java:63-65) says pixels become transparent wherever they match the provided colour. The code never reads that colour: the background test is the fixed band [250, 255] on every channel. The Javadoc of `makeBackgroundTransparent` (line 27) also documents a `bgHexColorList` parameter that the method does not have.
- Pixels outside the band keep their own alpha. Nothing sets them to fully opaque.
- The output path is `"transparent-" + title` in the target directory, and no extension is appended. The file is written as PNG (line 44), but the title keeps its own extension: a title `photo.jpg` gives `transparent-photo.jpg` holding PNG data.
- The model returns `Failed(CoordinateOutOfBounds)` for an image with no pixel (0, 0), which is where `getRGB(0, 0)` at line 35 would throw. Java cannot build such an image, because a `BufferedImage` always has width and height of at least 1, so in the program this branch is never taken. It is kept so that the model's `Raster`, which admits zero sizes, is total.

## Model

| member | source | states |
|---|---|---|
| `DecimalText.Decimal` | src/main/java/com/java/imagefiler/ImageFiler.java:106 | the decimal text of a channel value is non-empty, digits only, with a leading '0' only for zero |
| `DecimalText.ValueOfDecimal` | src/main/java/com/java/imagefiler/ImageFiler.java:106 | reading the printed decimal text back gives the printed number (round trip) |
| `DecimalText.DecimalInjective` | src/main/java/com/java/imagefiler/ImageFiler.java:80 | two numbers print the same decimal text if and only if they are equal |
| `ImageFiler.Alpha` | src/main/java/com/java/imagefiler/ImageFiler.java:83-84 | the alpha byte (bits 24..31), the byte the `0x00FFFFFF` mask clears, lies in [0, 255] |
| `ImageFiler.Red` | src/main/java/com/java/imagefiler/ImageFiler.java:76 | `Color.getRed`: bits 16..23, a value in [0, 255] |
| `ImageFiler.Blue` | src/main/java/com/java/imagefiler/ImageFiler.java:77 | `Color.getBlue`: bits 0..7, a value in [0, 255] |
| `ImageFiler.Green` | src/main/java/com/java/imagefiler/ImageFiler.java:78 | `Color.getGreen`: bits 8..15, a value in [0, 255] |
| `ImageFiler.ClearAlpha` | src/main/java/com/java/imagefiler/ImageFiler.java:84 | `0x00FFFFFF & rgb` has alpha 0 and the same red, green and blue as `rgb` |
| `ImageFiler.GetRgbWhiteList` | src/main/java/com/java/imagefiler/ImageFiler.java:101-112 | the nested loops return exactly the whitelist specification `WhiteList()` |
| `ImageFiler.WhiteListAt` | src/main/java/com/java/imagefiler/ImageFiler.java:103-106 | the key of (r, g, b) in [250, 255]^3 sits at index 36(r-250) + 6(g-250) + (b-250): red-major, then green, then blue order |
| `ImageFiler.PositionOfIndex` | src/main/java/com/java/imagefiler/ImageFiler.java:103-105 | every index below 216 is the position of exactly the triple the loops visit at that step |
| `ImageFiler.TripleOf` | src/main/java/com/java/imagefiler/ImageFiler.java:103-106 | entry i of the whitelist is the key of an in-band triple whose loop position is i (the inverse of the position map) |
| `ImageFiler.WhiteListDistinct` | src/main/java/com/java/imagefiler/ImageFiler.java:101-112 | the whitelist has 216 entries and no duplicates |
| `ImageFiler.ChannelKey` | src/main/java/com/java/imagefiler/ImageFiler.java:106 | the key `a + "-" + b + "-" + c` (also built at line 80) is the three decimal texts with a '-' right after the first and after the second; `ChannelKeyInjective` states that distinct triples give distinct keys |
| `ImageFiler.ChannelKeyInjective` | src/main/java/com/java/imagefiler/ImageFiler.java:106 | keys `a-b-c` and `x-y-z` are equal if and only if the triples are equal |
| `ImageFiler.WhiteListMembership` | src/main/java/com/java/imagefiler/ImageFiler.java:103-106 | a key `a-b-c` is in the whitelist if and only if a, b and c all lie in [250, 255] |
| `ImageFiler.KeyOrderIrrelevant` | src/main/java/com/java/imagefiler/ImageFiler.java:80-82 | building the key red-blue-green instead of red-green-blue never changes the membership answer |
| `ImageFiler.FilterRgb` | src/main/java/com/java/imagefiler/ImageFiler.java:73-90 | the filter returns either the pixel itself or the pixel with its alpha byte cleared, whatever the whitelist |
| `ImageFiler.BackgroundBecomesTransparent` | src/main/java/com/java/imagefiler/ImageFiler.java:75-84 | a pixel with red, green and blue in [250, 255] comes out as `rgb & 0x00FFFFFF`, with alpha 0 |
| `ImageFiler.OtherPixelsUnchanged` | src/main/java/com/java/imagefiler/ImageFiler.java:86-88 | a pixel with any channel outside [250, 255] comes out exactly as it went in, alpha included |
| `ImageFiler.TransparentExactly` | src/main/java/com/java/imagefiler/ImageFiler.java:73-90 | the output alpha is 0 if and only if the pixel is near-white or its alpha was already 0 |
| `ImageFiler.FilterIdempotent` | src/main/java/com/java/imagefiler/ImageFiler.java:75-90 | filtering a filtered pixel changes nothing (for any whitelist) |
| `ImageFiler.FilterExamples` | src/main/java/com/java/imagefiler/ImageFiler.java:82-88 | opaque white and (252,253,254) become transparent; black, (10,200,10) and (249,255,255) stay opaque |
| `ImageFiler.Raster.constructor` | src/main/java/com/java/imagefiler/ImageFiler.java:54-55 | a raster holds width × height row-major ARGB pixels |
| `ImageFiler.Raster.GetRgb` | src/main/java/com/java/imagefiler/ImageFiler.java:35 | `getRGB(x, y)` is defined if and only if (x, y) is inside the image, and then gives the row-major pixel |
| `ImageFiler.MakeColorTransparent` | src/main/java/com/java/imagefiler/ImageFiler.java:67-95 | the result is a fresh image of the same width and height whose pixel i is `FilterRgb` of source pixel i; the reference colour has no influence and the source is not modified |
| `ImageFiler.OutputPath` | src/main/java/com/java/imagefiler/ImageFiler.java:42 | `targetFilePath + File.separator + "transparent-" + title`: the path splits back into directory, separator, `transparent-` right after the separator, and the title at the very end |
| `ImageFiler.PngOnlyFromTitle` | src/main/java/com/java/imagefiler/ImageFiler.java:42 | the path ends in `.png` if and only if the title does: no extension is added |
| `ImageFiler.MakeBackgroundTransparent` | src/main/java/com/java/imagefiler/ImageFiler.java:30-50 | fails if and only if the image has no pixel (0, 0); otherwise it gives the output path and the filtered image of the same size |

## Left out

- `IImageFiler` is a one-method interface with no logic, so it is not modelled.
- `imageToBufferedImage` is not modelled. It draws the filtered image into a new ARGB buffer through `Graphics2D`, an AWT library call. The model treats this step as a plain pixel copy. In Java, `drawImage` blends with the default SrcOver rule onto the freshly zeroed buffer. That turns every alpha-0 pixel into 0x00000000, and partly transparent pixels go through 8-bit blending arithmetic. So the "colour bits unchanged" of `BackgroundBecomesTransparent` holds for the filter's output, not for the pixels in the written file.
- `FilteredImageSource` and `Toolkit.createImage` are a lazy image-producer framework. The model replaces them with an explicit loop over the pixel array.
- `ImageIO.write`, the `File` object and the catch-and-rethrow of `IOException` are left out: PNG encoding and disk I/O cannot be modelled. `Written` carries the path and the image that would be written.
- `ImagePlus.getBufferedImage` and `getTitle` are calls into ImageJ. The model takes the raster and the title as parameters.
- `File.separator` depends on the platform, so it is a parameter.
- `getRGB` can convert from an image's colour model to ARGB. The model handles only `TYPE_INT_ARGB` data, where that conversion changes nothing.
- `ArrayList.contains` is modelled as membership in a sequence (string equality).
- The `x` and `y` arguments of `filterRGB` are never read by the source, so the model does not take them.
