# ImageFusion marker detector, modelled in Dafny

ImageFusion overlays a QR code and a referral-code label on a poster. It places them by
finding small coloured marker dots painted into the poster artwork. The QR anchor is green
(#00FF6A) and the referral-text anchor is blue (#0000FF). Each platform (iOS, Android,
desktop JVM) has its own copy of the detector. Every copy decodes the poster, visits every
pixel row by row, and tests the pixel's red, green and blue channels against a fixed
tolerance box. While scanning, it keeps `found` plus the running bounds `minX`, `minY`,
`maxX` and `maxY`. It returns `null` when nothing matched. Otherwise it returns a
`DetectionResult`: the box centre divided by the image width and height, and the box's
horizontal extent divided by the width.

The model has six modules:

- `Results` (results.dfy): the `DetectionResult` record and `Option` for Kotlin's nullable
  result.
- `BoundingBox` (bounding_box.dfy): the detection logic that all copies share.
  - A raster is a grid of channel triples.
  - `Hits` is the set of matching coordinates.
  - `IsBoundingBox` is the reference meaning of "the tightest box": every match is inside
    it, and each bound is reached by a match.
  - `BBox` folds the grid in the source's scan order.
  - `Normalize` is the final division.
  - `Locate` is the whole detection on a decoded raster.
- `IosDetection` (ios_detection.dfy):
  - the signed-byte RGBA buffer and its offset arithmetic `y * bytesPerRow + x * 4`;
  - the two predicates `DetectQRPixels` and `DetectReferralPixels`;
  - the buffer scan `ScanRgba`, a method with nested `while` loops over an `array`;
  - `detectQRPosition` and `detectReferralPosition`, which are one scan with two
    predicates.
- `PackedArgb` (packed_argb.dfy): a pixel is a packed 32-bit `Int`. The channels are split
  with `shr` and `and 0xFF`. The nested scan `ScanPacked` is identical in the Android and
  desktop files, and both use it.
- `AndroidDetection` and `DesktopDetection`: the `isGreenPixel` predicate of each file, each
  file's `detectGreenDot`, and lemmas showing that the platforms agree.

Both scan methods are proved against `BBox`: after every pixel, the five scan variables
equal the fold over the pixels visited so far. `BBoxIsBoundingBox` proves that `BBox` is
the tightest box of the matches, and `BoundingBoxUnique` proves that this box is unique.
So the result depends only on the set of matching pixels, not on the visiting order.

Notes on the source's arithmetic:

- The centre is `(minX + maxX) / 2f`, a float division, so it is the exact half-integer
  midpoint of the box. For example, dots at x = 3 and x = 6 in a 10-wide image give
  0.45 (`TwoDotScenario`).
- Position and size lie in [0, 1): every matched coordinate is below the width or the
  height it is divided by.
- A 0-wide or 0-high image has no pixels to scan, so the result is `null`.

## Model

| member | source | states |
|---|---|---|
| `IosDetection.ScanRgba` | composeApp/src/iosMain/kotlin/com/tofu/imagefusion/DetectionResult.kt:56-77 | The nested scan of the RGBA byte buffer, starting from the `Int.MAX_VALUE`/`Int.MIN_VALUE` sentinels, ends with exactly the scan-order box `BBox` of the buffer's raster. By `BBoxIsBoundingBox`, that box is the tightest box of the pixels the predicate accepts, and it is absent exactly when no pixel matches. |
| `IosDetection.DetectPosition` | composeApp/src/iosMain/kotlin/com/tofu/imagefusion/DetectionResult.kt:16-93 | A failed PNG decode gives `null` without scanning. Otherwise the result is `Locate` of the drawn buffer's raster: `null` when nothing matches, else the normalised bounding box. |
| `IosDetection.DetectQRPosition` | composeApp/src/iosMain/kotlin/com/tofu/imagefusion/DetectionResult.kt:16-93 | `detectQRPosition` is the shared scan with `DetectQRPixels` as the match test. |
| `IosDetection.DetectReferralPosition` | composeApp/src/iosMain/kotlin/com/tofu/imagefusion/DetectionResult.kt:96-173 | `detectReferralPosition` is the same scan with `DetectReferralPixels` as the match test. |
| `IosDetection.UnsignedByte` | composeApp/src/iosMain/kotlin/com/tofu/imagefusion/DetectionResult.kt:65-67 | `toInt() and 0xFF` on a signed byte gives a value in [0, 255] that is congruent to the byte modulo 256. |
| `IosDetection.SignedByte` | composeApp/src/iosMain/kotlin/com/tofu/imagefusion/DetectionResult.kt:36 | The byte an 8-bit sample is stored as in the `ByteArray` reads back, through `and 0xFF`, as the same sample. |
| `IosDetection.SignedUnsignedByte` | composeApp/src/iosMain/kotlin/com/tofu/imagefusion/DetectionResult.kt:65-67 | Reading a byte as unsigned and storing it back gives the same byte, so the two conversions are inverse bijections. |
| `IosDetection.PixelIndexInBounds` | composeApp/src/iosMain/kotlin/com/tofu/imagefusion/DetectionResult.kt:64-67 | For 0 <= x < width and 0 <= y < height, `y * bytesPerRow + x * 4` and the next three offsets lie inside the `height * bytesPerRow` buffer, so no read of the scan is out of bounds. |
| `IosDetection.ReadsPixel` | composeApp/src/iosMain/kotlin/com/tofu/imagefusion/DetectionResult.kt:64-67 | The three reads at pixel (x, y)'s offset are in bounds and yield exactly that pixel's channels in the raster. |
| `IosDetection.ReadPixel` | composeApp/src/iosMain/kotlin/com/tofu/imagefusion/DetectionResult.kt:64-67 | The three unsigned reads at offset `y * bytesPerRow + x * 4` (plus 0, 1 and 2) return exactly pixel (x, y) of the buffer's raster. |
| `IosDetection.RgbaGrid` | composeApp/src/iosMain/kotlin/com/tofu/imagefusion/DetectionResult.kt:62-67 | The raster the scan reads is `width` by `height`, and pixel (x, y) holds the unsigned bytes at the pixel's offset plus 0, 1 and 2. |
| `IosDetection.RgbaLayoutRoundTrip` | composeApp/src/iosMain/kotlin/com/tofu/imagefusion/DetectionResult.kt:32-36 | Lay a raster out as RGBA rows of `bytesPerRow = 4 * width` signed bytes and read it back with the scan's offsets: this returns the original raster. |
| `IosDetection.DetectQRPixels` | composeApp/src/iosMain/kotlin/com/tofu/imagefusion/DetectionResult.kt:175-180 | The QR tolerance box accepts its target #00FF6A and rejects the referral target #0000FF. |
| `IosDetection.DetectReferralPixels` | composeApp/src/iosMain/kotlin/com/tofu/imagefusion/DetectionResult.kt:182-187 | The referral tolerance box accepts its target #0000FF and rejects the QR target #00FF6A. |
| `IosDetection.MarkersDisjoint` | composeApp/src/iosMain/kotlin/com/tofu/imagefusion/DetectionResult.kt:175-187 | #00FF6A is a QR marker colour and not a referral colour. #0000FF is a referral colour and not a QR colour. No colour satisfies both predicates, because green cannot be both above 200 and below 50. |
| `IosDetection.MarkerHitsDisjoint` | composeApp/src/iosMain/kotlin/com/tofu/imagefusion/DetectionResult.kt:175-187 | On any raster, the pixels matched by the QR predicate and those matched by the referral predicate are disjoint sets. |
| `IosDetection.TwoDotScenario` | composeApp/src/iosMain/kotlin/com/tofu/imagefusion/DetectionResult.kt:79-88 | A 10 x 10 black buffer with #00FF6A at (3, 4) and (6, 4) gives position (0.45, 0.4) and size 0.3 for the QR marker. It gives `null` for the referral marker. |
| `BoundingBox.BBox` | composeApp/src/iosMain/kotlin/com/tofu/imagefusion/DetectionResult.kt:62-77 | The box the scan accumulates over the rows seen so far. When present, `minX <= maxX` and `0 <= minY <= maxY <` the number of rows. |
| `BoundingBox.RowBox` | composeApp/src/iosMain/kotlin/com/tofu/imagefusion/DetectionResult.kt:63-75 | The box the inner loop accumulates over one row `y`. When present, `0 <= minX <= maxX <` the row's length and `minY == maxY == y`. |
| `BoundingBox.BBoxIsBoundingBox` | composeApp/src/iosMain/kotlin/com/tofu/imagefusion/DetectionResult.kt:69-74 | The box accumulated in scan order is absent exactly when no pixel matches. Otherwise it contains every matching pixel, and each of its four bounds is reached by a matching pixel. |
| `BoundingBox.RowBoxIsBoundingBox` | composeApp/src/iosMain/kotlin/com/tofu/imagefusion/DetectionResult.kt:63-75 | The same property for the inner loop over one row. |
| `BoundingBox.HullIsBoundingBox` | composeApp/src/iosMain/kotlin/com/tofu/imagefusion/DetectionResult.kt:71-74 | Joining two boxes with `minOf`/`maxOf` on each bound gives the box of the union of their point sets. |
| `BoundingBox.TrackHit` | composeApp/src/iosMain/kotlin/com/tofu/imagefusion/DetectionResult.kt:69-74 | On a match, `found = true` and the four `minOf`/`maxOf` updates grow the tracked box by exactly that pixel, including the first match, which replaces the sentinels. |
| `BoundingBox.BoundingBoxUnique` | composeApp/src/iosMain/kotlin/com/tofu/imagefusion/DetectionResult.kt:62-77 | A point set has only one tightest box, so any visiting order yields the same box. |
| `BoundingBox.BoxWithinRaster` | composeApp/src/jvmMain/kotlin/com/tofu/imagefusion/DesktopDetectionResult.kt:38-44 | When found, 0 <= minX <= maxX < width and 0 <= minY <= maxY < height. |
| `BoundingBox.Normalize` | composeApp/src/iosMain/kotlin/com/tofu/imagefusion/DetectionResult.kt:79-87 | Both position components and the size lie in [0, 1). The centre times the width (or height) is exactly the half-integer midpoint `(minX + maxX) / 2` (or `(minY + maxY) / 2`) of the `/ 2f`, so it lies between the box's bounds on that axis. The size times the width is the horizontal extent `maxX - minX`. |
| `BoundingBox.Locate` | composeApp/src/iosMain/kotlin/com/tofu/imagefusion/DetectionResult.kt:60-88 | The result is `null` exactly when no pixel matches. Otherwise position and size lie in [0, 1). |
| `BoundingBox.LocateIsNormalizedBox` | composeApp/src/iosMain/kotlin/com/tofu/imagefusion/DetectionResult.kt:79-87 | For any tightest box of the matches, the detection result is that box's normalisation. |
| `BoundingBox.LocateSinglePixel` | composeApp/src/androidMain/kotlin/com/tofu/imagefusion/AndroidDetectionResult.kt:48-55 | With exactly one matching pixel (x0, y0), the size is 0 and the position is (x0 / width, y0 / height). |
| `BoundingBox.LocateSamePredicate` | composeApp/src/jvmMain/kotlin/com/tofu/imagefusion/DesktopDetectionResult.kt:64-69 | Two predicates that accept the same colours give the same detection on every raster. |
| `BoundingBox.HitsDisjoint` | composeApp/src/iosMain/kotlin/com/tofu/imagefusion/DetectionResult.kt:175-187 | Predicates that never accept the same colour match disjoint pixel sets. |
| `PackedArgb.Red` | composeApp/src/androidMain/kotlin/com/tofu/imagefusion/AndroidDetectionResult.kt:31 | `(pixel shr 16) and 0xFF` lies in [0, 255] for every 32-bit pixel, including negative ones. |
| `PackedArgb.Green` | composeApp/src/androidMain/kotlin/com/tofu/imagefusion/AndroidDetectionResult.kt:32 | `(pixel shr 8) and 0xFF` lies in [0, 255] for every 32-bit pixel. |
| `PackedArgb.Blue` | composeApp/src/jvmMain/kotlin/com/tofu/imagefusion/DesktopDetectionResult.kt:36 | `rgb and 0xFF` lies in [0, 255] for every 32-bit pixel. |
| `PackedArgb.Argb` | composeApp/src/jvmMain/kotlin/com/tofu/imagefusion/DesktopDetectionResult.kt:34-36 | Pack alpha, red, green and blue into a 32-bit `Int`, negative when alpha >= 0x80, and split it again: this returns the three colour channels. |
| `PackedArgb.ArgbGrid` | composeApp/src/androidMain/kotlin/com/tofu/imagefusion/AndroidDetectionResult.kt:29-33 | The raster the scan reads is `width` by `height`, and pixel (x, y) holds the channels of `getPixel(x, y)`. |
| `PackedArgb.ReadPixel` | composeApp/src/androidMain/kotlin/com/tofu/imagefusion/AndroidDetectionResult.kt:29-33 | `getPixel(x, y)` (or `getRGB(x, y)`), split with `shr` and `and 0xFF`, returns exactly pixel (x, y) of the image's raster. |
| `PackedArgb.ScanPacked` | composeApp/src/androidMain/kotlin/com/tofu/imagefusion/AndroidDetectionResult.kt:18-43 | After the nested scan over packed pixels, the five variables hold exactly `BBox` of the image's raster. By `BBoxIsBoundingBox`, that is the tightest box of the matches, absent exactly when none match. The desktop loop at DesktopDetectionResult.kt:21-46 is the same code. |
| `PackedArgb.DetectPacked` | composeApp/src/androidMain/kotlin/com/tofu/imagefusion/AndroidDetectionResult.kt:11-61 | A decoder that returns `null` gives `null`. Otherwise the result is `Locate` of the image's raster. |
| `AndroidDetection.IsGreenPixel` | composeApp/src/androidMain/kotlin/com/tofu/imagefusion/AndroidDetectionResult.kt:63-69 | Accepts the target #00FF6A and accepts exactly the colours the iOS QR predicate accepts. |
| `AndroidDetection.DetectGreenDot` | composeApp/src/androidMain/kotlin/com/tofu/imagefusion/AndroidDetectionResult.kt:11-61 | A `null` bitmap gives `null`. Otherwise the result is `Locate` with `isGreenPixel`, so no green pixel gives `null`. |
| `AndroidDetection.GreenIsQRMarker` | composeApp/src/androidMain/kotlin/com/tofu/imagefusion/AndroidDetectionResult.kt:63-69 | On the same raster, Android's green-dot detection equals iOS's QR detection. |
| `DesktopDetection.IsGreenPixel` | composeApp/src/jvmMain/kotlin/com/tofu/imagefusion/DesktopDetectionResult.kt:64-69 | Accepts the target #00FF6A and accepts exactly the colours Android's `isGreenPixel` accepts. |
| `DesktopDetection.DetectGreenDot` | composeApp/src/jvmMain/kotlin/com/tofu/imagefusion/DesktopDetectionResult.kt:14-62 | A `null` image from `ImageIO` gives `null`. Otherwise the result is `Locate` with `isGreenPixel`, so no green pixel gives `null`. |
| `DesktopDetection.AgreesWithAndroid` | composeApp/src/jvmMain/kotlin/com/tofu/imagefusion/DesktopDetectionResult.kt:30-46 | On the same packed pixels, the desktop scan and the Android scan give the same result. |

## Left out

- Resource loading (`Res.readBytes`) and PNG decoding (`CGImageCreateWithPNGDataProvider`, `BitmapFactory.decodeByteArray`, `ImageIO.read`) are platform calls. Each detector takes the decoder's output as an `Option`: a decoded image, or `None` for a decoder that returned `null`.
- How CoreGraphics fills the buffer (`CGBitmapContextCreate`, `CGContextDrawImage`, premultiplied alpha) is not modelled. The iOS image carries the bytes the drawing produces, and the detector copies them into its `ByteArray`. `RasterBytes` describes only an opaque poster, where premultiplying changes nothing.
- The release calls (`CGContextRelease`, `CGColorSpaceRelease`, `CGImageRelease`, `CGDataProviderRelease`, `bitmap.recycle`) free platform resources and do not affect the result.
- `withContext(Dispatchers.Default)` and `suspend` are coroutine dispatch. The scan itself is sequential.
- `try`/`catch` with `printStackTrace`: every read of the scan is proved in bounds, so no exception is reachable in the model. The logging is I/O.
- `Float` rounding in `/ 2f`, `/ width` and `/ height` is not modelled. The results are exact `real`s.
- IosDetection.DetectPosition: requires the buffer length `height * bytesPerRow` to be the mathematical product. The model does not cover images above 2^31 bytes, where the Kotlin `Int` product wraps and the source ends up in its `catch`.
- BoundingBox.Normalize: computes `minX + maxX` without 32-bit wrap-around. The sum can only wrap for images wider than 2^30 pixels.
- composeApp/src/commonMain/kotlin/com/tofu/imagefusion/App.kt (Compose UI, QR painter, overlay offsets) and composeApp/src/jvmMain/kotlin/com/tofu/imagefusion/main.kt (window setup) are UI glue and are not part of this model.
- The `expect` declaration `detectGreenDot` in the common DetectionResult.kt does not match the iOS function names. This is a build-level naming issue with no behaviour.
