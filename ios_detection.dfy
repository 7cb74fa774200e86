/** The iOS detectors (composeApp/src/iosMain/kotlin/com/tofu/imagefusion/DetectionResult.kt).
    CoreGraphics draws the decoded PNG into a `ByteArray` of `height * bytesPerRow`
    signed bytes, four per pixel in R, G, B, A order; the scan reads the first three
    bytes of every pixel at offset `y * bytesPerRow + x * 4`. */
module IosDetection {
  import opened Results
  import opened BoundingBox

  /** Kotlin's `Byte`. */
  newtype int8 = b: int | -0x80 <= b < 0x80

  const BytesPerPixel: int := 4

  /** `b.toInt() and 0xFF`: the sign-extended byte masked to its low eight bits, i.e.
      the unsigned channel value the signed byte stores. */
  function UnsignedByte(b: int8): (v: int)
    ensures 0 <= v < 0x100
    ensures (v - b as int) % 0x100 == 0
  {
    if b < 0 then b as int + 0x100 else b as int
  }

  /** How an 8-bit sample `v` written by CoreGraphics reads back as a Kotlin `Byte`. */
  function SignedByte(v: int): (b: int8)
    requires 0 <= v < 0x100
    ensures UnsignedByte(b) == v
  {
    if v < 0x80 then v as int8 else (v - 0x100) as int8
  }

  /** Reading a byte as unsigned and storing it back gives the same byte. */
  lemma SignedUnsignedByte(b: int8)
    ensures SignedByte(UnsignedByte(b)) == b
  {
  }

  /** Offset of the red byte of pixel `(x, y)`. */
  function PixelIndex(bytesPerRow: int, x: int, y: int): int {
    y * bytesPerRow + x * BytesPerPixel
  }

  /** Every pixel of the image has all four of its bytes inside the buffer of
      `height * bytesPerRow` bytes, so the three reads of the scan never fail. */
  lemma {:induction false} PixelIndexInBounds(width: int, height: int, x: int, y: int)
    requires 0 <= x < width && 0 <= y < height
    ensures 0 <= PixelIndex(BytesPerPixel * width, x, y)
    ensures PixelIndex(BytesPerPixel * width, x, y) + BytesPerPixel <= height * (BytesPerPixel * width)
  {
    var bytesPerRow := BytesPerPixel * width;
    assert 0 <= y * bytesPerRow;
    calc {
      PixelIndex(bytesPerRow, x, y) + BytesPerPixel;
      <= y * bytesPerRow + bytesPerRow;
      == (y + 1) * bytesPerRow;
      <= { MulLeft(y + 1, height, bytesPerRow); }
      height * bytesPerRow;
    }
  }

  lemma MulLeft(a: int, b: int, c: int)
    requires a <= b && 0 <= c
    ensures a * c <= b * c
  {
  }

  /** The channels of pixel `(x, y)` as the scan reads them. */
  function RgbaAt(rawData: seq<int8>, width: int, height: int, x: int, y: int): Rgb
    requires |rawData| == height * (BytesPerPixel * width)
    requires 0 <= x < width && 0 <= y < height
  {
    PixelIndexInBounds(width, height, x, y);
    var index := PixelIndex(BytesPerPixel * width, x, y);
    Rgb(UnsignedByte(rawData[index]), UnsignedByte(rawData[index + 1]), UnsignedByte(rawData[index + 2]))
  }

  /** The three reads at pixel `(x, y)`'s offset are in bounds and give the raster's
      pixel `(x, y)`. */
  lemma ReadsPixel(rawData: seq<int8>, width: nat, height: nat, x: int, y: int)
    requires |rawData| == height * (BytesPerPixel * width)
    requires 0 <= x < width && 0 <= y < height
    ensures PixelIndex(BytesPerPixel * width, x, y) + 2 < |rawData|
    ensures var index := PixelIndex(BytesPerPixel * width, x, y);
      RgbaGrid(rawData, width, height)[y][x]
        == Rgb(UnsignedByte(rawData[index]), UnsignedByte(rawData[index + 1]), UnsignedByte(rawData[index + 2]))
  {
    PixelIndexInBounds(width, height, x, y);
  }

  /** The raster an RGBA buffer holds. */
  function RgbaGrid(rawData: seq<int8>, width: nat, height: nat): (g: Grid)
    requires |rawData| == height * (BytesPerPixel * width)
    ensures IsRaster(g, width, height)
    ensures forall y, x :: 0 <= y < height && 0 <= x < width ==> g[y][x] == RgbaAt(rawData, width, height, x, y)
  {
    seq(height, y requires 0 <= y < height =>
      seq(width, x requires 0 <= x < width => RgbaAt(rawData, width, height, x, y)))
  }

  /** Every channel of every pixel is an 8-bit value. */
  predicate ByteChannels(c: Rgb) {
    0 <= c.red < 0x100 && 0 <= c.green < 0x100 && 0 <= c.blue < 0x100
  }

  /** The four bytes CoreGraphics writes for an opaque pixel (with alpha 0xFF the
      premultiplied channels are the channels themselves). */
  function PixelBytes(c: Rgb): (bytes: seq<int8>)
    requires ByteChannels(c)
    ensures |bytes| == BytesPerPixel
  {
    [SignedByte(c.red), SignedByte(c.green), SignedByte(c.blue), SignedByte(0xFF)]
  }

  /** One row laid out pixel after pixel. */
  function RowBytes(row: seq<Rgb>): (bytes: seq<int8>)
    requires forall x :: 0 <= x < |row| ==> ByteChannels(row[x])
    ensures |bytes| == BytesPerPixel * |row|
    decreases |row|
  {
    if row == [] then [] else RowBytes(row[..|row| - 1]) + PixelBytes(row[|row| - 1])
  }

  /** A `width`-wide raster laid out row after row, `bytesPerRow` bytes per row: the
      buffer the scan expects to find. */
  function RasterBytes(g: Grid, width: nat): (bytes: seq<int8>)
    requires forall y :: 0 <= y < |g| ==> |g[y]| == width
    requires forall y, x :: 0 <= y < |g| && 0 <= x < width ==> ByteChannels(g[y][x])
    ensures |bytes| == |g| * (BytesPerPixel * width)
    decreases |g|
  {
    if g == [] then []
    else
      var y := |g| - 1;
      assert (y + 1) * (BytesPerPixel * width) == y * (BytesPerPixel * width) + BytesPerPixel * width;
      RasterBytes(g[..y], width) + RowBytes(g[y])
  }

  lemma {:induction false} RowBytesAt(row: seq<Rgb>, x: int, c: int)
    requires forall i :: 0 <= i < |row| ==> ByteChannels(row[i])
    requires 0 <= x < |row| && 0 <= c < BytesPerPixel
    ensures RowBytes(row)[x * BytesPerPixel + c] == PixelBytes(row[x])[c]
    decreases |row|
  {
    var n := |row| - 1;
    if x < n {
      RowBytesAt(row[..n], x, c);
      assert row[..n][x] == row[x];
    }
  }

  lemma {:induction false} RasterBytesAt(g: Grid, width: nat, x: int, y: int, c: int)
    requires forall i :: 0 <= i < |g| ==> |g[i]| == width
    requires forall i, j :: 0 <= i < |g| && 0 <= j < width ==> ByteChannels(g[i][j])
    requires 0 <= x < width && 0 <= y < |g| && 0 <= c < BytesPerPixel
    ensures PixelIndex(BytesPerPixel * width, x, y) + c < |RasterBytes(g, width)|
    ensures RasterBytes(g, width)[PixelIndex(BytesPerPixel * width, x, y) + c] == PixelBytes(g[y][x])[c]
    decreases |g|
  {
    var n := |g| - 1;
    PixelIndexInBounds(width, |g|, x, y);
    if y < n {
      RasterBytesAt(g[..n], width, x, y, c);
      assert g[..n][y] == g[y];
    } else {
      RowBytesAt(g[y], x, c);
    }
  }

  /** Reading the buffer back with the scan's byte offsets recovers the raster that was
      laid out: the offset arithmetic `y * bytesPerRow + x * 4` and the unsigned reads
      invert the layout exactly. */
  lemma RgbaLayoutRoundTrip(g: Grid, width: nat, height: nat)
    requires IsRaster(g, width, height)
    requires forall y, x :: 0 <= y < height && 0 <= x < width ==> ByteChannels(g[y][x])
    ensures |RasterBytes(g, width)| == height * (BytesPerPixel * width)
    ensures RgbaGrid(RasterBytes(g, width), width, height) == g
  {
    var bytes := RasterBytes(g, width);
    var h := RgbaGrid(bytes, width, height);
    forall y | 0 <= y < height ensures h[y] == g[y] {
      forall x | 0 <= x < width ensures h[y][x] == g[y][x] {
        RasterBytesAt(g, width, x, y, 0);
        RasterBytesAt(g, width, x, y, 1);
        RasterBytesAt(g, width, x, y, 2);
      }
    }
  }

  /** The QR anchor marker, target colour #00FF6A: a tolerance box that accepts the
      target and rejects the referral marker's #0000FF. */
  predicate DetectQRPixels(red: int, green: int, blue: int): (accepted: bool)
    ensures (red, green, blue) == (0x00, 0xFF, 0x6A) ==> accepted
    ensures (red, green, blue) == (0x00, 0x00, 0xFF) ==> !accepted
  {
    red < 50 && green > 200 && 70 <= blue <= 150
  }

  /** The referral-text anchor marker, target colour #0000FF: a tolerance box that
      accepts the target and rejects the QR marker's #00FF6A. */
  predicate DetectReferralPixels(red: int, green: int, blue: int): (accepted: bool)
    ensures (red, green, blue) == (0x00, 0x00, 0xFF) ==> accepted
    ensures (red, green, blue) == (0x00, 0xFF, 0x6A) ==> !accepted
  {
    red < 50 && green < 50 && blue > 200
  }

  /** Each marker accepts its own target colour and rejects the other's, and no colour
      is accepted by both, since green cannot be both above 200 and below 50. */
  lemma MarkersDisjoint()
    ensures DetectQRPixels(0x00, 0xFF, 0x6A) && !DetectReferralPixels(0x00, 0xFF, 0x6A)
    ensures DetectReferralPixels(0x00, 0x00, 0xFF) && !DetectQRPixels(0x00, 0x00, 0xFF)
    ensures forall r, g, b :: !(DetectQRPixels(r, g, b) && DetectReferralPixels(r, g, b))
  {
  }

  /** On any raster the QR matches and the referral matches are different pixels. */
  lemma MarkerHitsDisjoint(g: Grid)
    ensures Hits(g, DetectQRPixels) !! Hits(g, DetectReferralPixels)
  {
    MarkersDisjoint();
    HitsDisjoint(g, DetectQRPixels, DetectReferralPixels);
  }

  /** A 10 x 10 poster, black except for two #00FF6A pixels at (3, 4) and (6, 4). */
  function TwoDotPoster(): (g: Grid)
    ensures IsRaster(g, 10, 10)
  {
    seq(10, y => seq(10, x => if y == 4 && (x == 3 || x == 6) then Rgb(0x00, 0xFF, 0x6A) else Rgb(0, 0, 0)))
  }

  /** Drawn into the RGBA buffer, the two-dot poster gives the QR marker the centre
      (4.5 / 10, 4 / 10): the midpoint is the exact half-integer of the `/ 2f`, not a
      rounded one, and the size is the horizontal extent 3 / 10. The referral marker
      finds nothing there. */
  lemma TwoDotScenario()
    ensures |RasterBytes(TwoDotPoster(), 10)| == 10 * (BytesPerPixel * 10)
    ensures Locate(RgbaGrid(RasterBytes(TwoDotPoster(), 10), 10, 10), 10, 10, DetectQRPixels)
         == Some(DetectionResult(Offset(0.45, 0.4), 0.3))
    ensures Locate(RgbaGrid(RasterBytes(TwoDotPoster(), 10), 10, 10), 10, 10, DetectReferralPixels)
         == None
  {
    var g := TwoDotPoster();
    RgbaLayoutRoundTrip(g, 10, 10);
    TwoDotHits();
    LocateIsNormalizedBox(g, 10, 10, DetectQRPixels, Box(3, 4, 6, 4));
    assert Normalize(Box(3, 4, 6, 4), 10, 10) == DetectionResult(Offset(0.45, 0.4), 0.3);
  }

  lemma TwoDotHits()
    ensures Hits(TwoDotPoster(), DetectQRPixels) == {(3, 4), (6, 4)}
    ensures Hits(TwoDotPoster(), DetectReferralPixels) == {}
  {
    var g := TwoDotPoster();
    forall p | p in Hits(g, DetectQRPixels) ensures p in {(3, 4), (6, 4)} {
      var y, x :| 0 <= y < |g| && 0 <= x < |g[y]| && Hit(g[y][x], DetectQRPixels) && p == (x, y);
    }
    assert Hit(g[4][3], DetectQRPixels) && Hit(g[4][6], DetectQRPixels);
    assert forall y, x :: 0 <= y < |g| && 0 <= x < |g[y]| ==> !Hit(g[y][x], DetectReferralPixels);
  }

  /** The three reads of the scan at pixel `(x, y)`: `rawData[index]`,
      `rawData[index + 1]` and `rawData[index + 2]`, each through `and 0xFF`. They are in
      bounds and give the raster's pixel `(x, y)`. */
  method ReadPixel(rawData: array<int8>, bytesPerRow: int, width: nat, height: nat, x: int, y: int)
    returns (red: int, green: int, blue: int)
    requires rawData.Length == height * (BytesPerPixel * width) && bytesPerRow == BytesPerPixel * width
    requires 0 <= x < width && 0 <= y < height
    ensures Rgb(red, green, blue) == RgbaGrid(rawData[..], width, height)[y][x]
  {
    var index := PixelIndex(bytesPerRow, x, y);
    ReadsPixel(rawData[..], width, height, x, y);
    red := UnsignedByte(rawData[index]);
    green := UnsignedByte(rawData[index + 1]);
    blue := UnsignedByte(rawData[index + 2]);
  }

  /** The nested scan of the buffer (source lines 56-77 and 136-157): `box` is the
      scan-order box `BBox` of the buffer's raster, which is the bounding box of the
      pixels `pred` accepts and absent exactly when none does. */
  method ScanRgba(rawData: array<int8>, width: nat, height: nat, pred: ColorPredicate)
    returns (box: Option<Box>)
    requires rawData.Length == height * (BytesPerPixel * width)
    requires width <= IntMax && height <= IntMax
    ensures box == BBox(RgbaGrid(rawData[..], width, height), pred)
  {
    ghost var g := RgbaGrid(rawData[..], width, height);
    var bytesPerRow := BytesPerPixel * width;
    var minX, minY, maxX, maxY := IntMax, IntMax, IntMin, IntMin;
    var found := false;
    var y := 0;
    while y < height
      invariant 0 <= y <= height
      invariant Untouched(found, minX, minY, maxX, maxY)
      invariant Tracked(found, minX, minY, maxX, maxY) == BBox(g[..y], pred)
    {
      ghost var row := g[y];
      ghost var above := BBox(g[..y], pred);
      assert |row| == width;
      var x := 0;
      while x < width
        invariant 0 <= x <= width
        invariant Untouched(found, minX, minY, maxX, maxY)
        invariant Tracked(found, minX, minY, maxX, maxY) == Hull(above, RowBox(row[..x], y, pred))
      {
        var red, green, blue := ReadPixel(rawData, bytesPerRow, width, height, x, y);
        assert Rgb(red, green, blue) == row[x];
        if pred(red, green, blue) {
          TrackHit(found, minX, minY, maxX, maxY, x, y);
          found := true;
          minX := Min(minX, x);
          minY := Min(minY, y);
          maxX := Max(maxX, x);
          maxY := Max(maxY, y);
        }
        ColumnStep(above, row, x, y, pred);
        x := x + 1;
      }
      RowStep(g, y, pred);
      y := y + 1;
    }
    assert g[..height] == g;
    box := Tracked(found, minX, minY, maxX, maxY);
  }

  /** A decoded PNG together with the bytes CoreGraphics draws for it into the RGBA
      buffer. */
  datatype CGImage = CGImage(width: nat, height: nat, drawn: seq<int8>)

  /** The decoded image fits Kotlin `Int` sizes and draws exactly `height * bytesPerRow`
      bytes. */
  predicate Drawable(image: CGImage) {
    && image.width <= IntMax && image.height <= IntMax
    && |image.drawn| == image.height * (BytesPerPixel * image.width)
  }

  /** The body shared by `detectQRPosition` and `detectReferralPosition`: a failed decode
      gives `null`; otherwise the buffer is filled, scanned with `pred`, and the box, if
      any, is normalised. */
  method DetectPosition(image: Option<CGImage>, pred: ColorPredicate) returns (r: Option<DetectionResult>)
    requires image.Some? ==> Drawable(image.value)
    ensures image.None? ==> r == None
    ensures image.Some? ==>
      r == Locate(RgbaGrid(image.value.drawn, image.value.width, image.value.height),
                  image.value.width, image.value.height, pred)
  {
    if image.None? {
      return None;
    }
    var img := image.value;
    var width := img.width;
    var height := img.height;
    var bytesPerRow := BytesPerPixel * width;
    var rawData := new int8[height * bytesPerRow](i requires 0 <= i < |img.drawn| => img.drawn[i]);
    assert rawData[..] == img.drawn;
    var box := ScanRgba(rawData, width, height, pred);
    ghost var g := RgbaGrid(img.drawn, width, height);
    match box {
      case None =>
        r := None;
      case Some(b) =>
        BBoxIsBoundingBox(g, pred);
        BoxWithinRaster(g, width, height, pred, b);
        r := Some(Normalize(b, width, height));
    }
  }

  /** `detectQRPosition`: the shared scan with the QR marker predicate. */
  method DetectQRPosition(image: Option<CGImage>) returns (r: Option<DetectionResult>)
    requires image.Some? ==> Drawable(image.value)
    ensures image.None? ==> r == None
    ensures image.Some? ==>
      r == Locate(RgbaGrid(image.value.drawn, image.value.width, image.value.height),
                  image.value.width, image.value.height, DetectQRPixels)
  {
    r := DetectPosition(image, DetectQRPixels);
  }

  /** `detectReferralPosition`: the shared scan with the referral marker predicate. */
  method DetectReferralPosition(image: Option<CGImage>) returns (r: Option<DetectionResult>)
    requires image.Some? ==> Drawable(image.value)
    ensures image.None? ==> r == None
    ensures image.Some? ==>
      r == Locate(RgbaGrid(image.value.drawn, image.value.width, image.value.height),
                  image.value.width, image.value.height, DetectReferralPixels)
  {
    r := DetectPosition(image, DetectReferralPixels);
  }
}
