/** The scan the Android and desktop detectors share. Both read each pixel as one packed
    ARGB `Int` (`bitmap.getPixel(x, y)` on Android, `image.getRGB(x, y)` on the desktop),
    split it into channels with `shr` and `and 0xFF`, and run the same nested loop
    (composeApp/src/androidMain/kotlin/com/tofu/imagefusion/AndroidDetectionResult.kt:18-56,
    composeApp/src/jvmMain/kotlin/com/tofu/imagefusion/DesktopDetectionResult.kt:21-57). */
module PackedArgb {
  import opened Results
  import opened BoundingBox

  /** Kotlin's `Int`. */
  newtype int32 = p: int | -0x8000_0000 <= p < 0x8000_0000

  // `p shr k` is an arithmetic shift, i.e. division by 2^k rounded down, which is
  // Dafny's `/` by a positive divisor; `q and 0xFF` keeps the low eight bits of the
  // two's-complement value, which is Dafny's Euclidean `% 0x100`.

  /** `(pixel shr 16) and 0xFF` */
  function Red(pixel: int32): (c: int)
    ensures 0 <= c < 0x100
  {
    (pixel as int / 0x1_0000) % 0x100
  }

  /** `(pixel shr 8) and 0xFF` */
  function Green(pixel: int32): (c: int)
    ensures 0 <= c < 0x100
  {
    (pixel as int / 0x100) % 0x100
  }

  /** `pixel and 0xFF` */
  function Blue(pixel: int32): (c: int)
    ensures 0 <= c < 0x100
  {
    pixel as int % 0x100
  }

  /** The packed pixel the platform stores for the four channels: alpha in the top
      byte, so any alpha of 0x80 or more makes the `Int` negative. Splitting it again
      returns the three colour channels unchanged. */
  function Argb(alpha: int, red: int, green: int, blue: int): (p: int32)
    requires 0 <= alpha < 0x100 && 0 <= red < 0x100 && 0 <= green < 0x100 && 0 <= blue < 0x100
    ensures Red(p) == red && Green(p) == green && Blue(p) == blue
  {
    var u := alpha * 0x100_0000 + red * 0x1_0000 + green * 0x100 + blue;
    var p := if u < 0x8000_0000 then u else u - 0x1_0000_0000;
    var top := if u < 0x8000_0000 then alpha else alpha - 0x100;
    SplitDivMod(p, 0x1_0000, top * 0x100 + red, green * 0x100 + blue);
    SplitDivMod(top * 0x100 + red, 0x100, top, red);
    SplitDivMod(p, 0x100, top * 0x1_0000 + red * 0x100 + green, blue);
    SplitDivMod(top * 0x1_0000 + red * 0x100 + green, 0x100, top * 0x100 + red, green);
    p as int32
  }

  /** Euclidean division is determined by quotient and remainder. */
  lemma SplitDivMod(n: int, d: int, q: int, r: int)
    requires 0 < d && 0 <= r < d && n == q * d + r
    ensures n / d == q && n % d == r
  {
    var q', r' := n / d, n % d;
    assert (q - q') * d == r' - r;
    if q > q' {
      MulAtLeast(q - q', d);
    } else if q < q' {
      MulAtLeast(q' - q, d);
    }
  }

  lemma MulAtLeast(k: int, d: int)
    requires 1 <= k && 0 < d
    ensures d <= k * d
  {
  }

  function Unpack(pixel: int32): Rgb {
    Rgb(Red(pixel), Green(pixel), Blue(pixel))
  }

  /** A decoded image as Android's `Bitmap` or the desktop's `BufferedImage` exposes it. */
  datatype PackedImage = PackedImage(width: nat, height: nat, pixels: seq<seq<int32>>) {

    /** Sizes are Kotlin `Int`s and every row holds `width` pixels. */
    predicate Valid() {
      && width <= IntMax && height <= IntMax
      && |pixels| == height
      && forall y :: 0 <= y < height ==> |pixels[y]| == width
    }

    /** `getPixel(x, y)` / `getRGB(x, y)` */
    function GetPixel(x: int, y: int): int32
      requires Valid()
      requires 0 <= x < width && 0 <= y < height
    {
      pixels[y][x]
    }
  }

  /** The raster of channel triples a packed image holds. */
  function ArgbGrid(image: PackedImage): (g: Grid)
    requires image.Valid()
    ensures IsRaster(g, image.width, image.height)
    ensures forall y, x :: 0 <= y < image.height && 0 <= x < image.width ==> g[y][x] == Unpack(image.GetPixel(x, y))
  {
    seq(image.height, y requires 0 <= y < image.height =>
      seq(image.width, x requires 0 <= x < image.width => Unpack(image.GetPixel(x, y))))
  }

  /** The reads of the scan at pixel `(x, y)`: `getPixel(x, y)` split into its red,
      green and blue channels, which are the raster's pixel `(x, y)`. */
  method ReadPixel(image: PackedImage, x: int, y: int) returns (red: int, green: int, blue: int)
    requires image.Valid()
    requires 0 <= x < image.width && 0 <= y < image.height
    ensures Rgb(red, green, blue) == ArgbGrid(image)[y][x]
  {
    var pixel := image.GetPixel(x, y);
    red := Red(pixel);
    green := Green(pixel);
    blue := Blue(pixel);
  }

  /** The nested scan: `box` is the scan-order box `BBox` of the image's raster, which
      is the bounding box of the pixels `pred` accepts and absent exactly when none
      does. */
  method ScanPacked(image: PackedImage, pred: ColorPredicate) returns (box: Option<Box>)
    requires image.Valid()
    ensures box == BBox(ArgbGrid(image), pred)
  {
    ghost var g := ArgbGrid(image);
    var minX, minY, maxX, maxY := IntMax, IntMax, IntMin, IntMin;
    var found := false;
    var width := image.width;
    var height := image.height;
    var y := 0;
    while y < height
      invariant 0 <= y <= height
      invariant Untouched(found, minX, minY, maxX, maxY)
      invariant Tracked(found, minX, minY, maxX, maxY) == BBox(g[..y], pred)
    {
      ghost var row := g[y];
      ghost var above := BBox(g[..y], pred);
      assert |row| == width;
      var x := 0;
      while x < width
        invariant 0 <= x <= width
        invariant Untouched(found, minX, minY, maxX, maxY)
        invariant Tracked(found, minX, minY, maxX, maxY) == Hull(above, RowBox(row[..x], y, pred))
      {
        var red, green, blue := ReadPixel(image, x, y);
        assert Rgb(red, green, blue) == row[x];
        if pred(red, green, blue) {
          TrackHit(found, minX, minY, maxX, maxY, x, y);
          found := true;
          minX := Min(minX, x);
          minY := Min(minY, y);
          maxX := Max(maxX, x);
          maxY := Max(maxY, y);
        }
        ColumnStep(above, row, x, y, pred);
        x := x + 1;
      }
      RowStep(g, y, pred);
      y := y + 1;
    }
    assert g[..height] == g;
    box := Tracked(found, minX, minY, maxX, maxY);
  }

  /** The shared body of both `detectGreenDot`s: a decoder that returns `null` gives
      `null`; otherwise the image is scanned with `pred` and the box, if any, is
      normalised. */
  method DetectPacked(image: Option<PackedImage>, pred: ColorPredicate) returns (r: Option<DetectionResult>)
    requires image.Some? ==> image.value.Valid()
    ensures image.None? ==> r == None
    ensures image.Some? ==>
      r == Locate(ArgbGrid(image.value), image.value.width, image.value.height, pred)
  {
    if image.None? {
      return None;
    }
    var img := image.value;
    var box := ScanPacked(img, pred);
    match box {
      case None =>
        r := None;
      case Some(b) =>
        BBoxIsBoundingBox(ArgbGrid(img), pred);
        BoxWithinRaster(ArgbGrid(img), img.width, img.height, pred, b);
        r := Some(Normalize(b, img.width, img.height));
    }
  }
}
