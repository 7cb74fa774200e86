/** The Android detector
    (composeApp/src/androidMain/kotlin/com/tofu/imagefusion/AndroidDetectionResult.kt):
    `BitmapFactory` decodes the poster into a `Bitmap`, or into `null`. */
module AndroidDetection {
  import opened Results
  import opened BoundingBox
  import opened PackedArgb
  import IosDetection

  /** The green QR anchor marker, target colour #00FF6A, with the same tolerance box as
      the iOS QR marker. */
  predicate IsGreenPixel(red: int, green: int, blue: int): (accepted: bool)
    ensures (red, green, blue) == (0x00, 0xFF, 0x6A) ==> accepted
    ensures accepted == IosDetection.DetectQRPixels(red, green, blue)
  {
    red < 50 && green > 200 && 70 <= blue <= 150
  }

  /** `detectGreenDot`: `null` for an undecodable poster, otherwise the normalised
      bounding box of the green pixels, `null` when there are none. */
  method DetectGreenDot(bitmap: Option<PackedImage>) returns (r: Option<DetectionResult>)
    requires bitmap.Some? ==> bitmap.value.Valid()
    ensures bitmap.None? ==> r == None
    ensures bitmap.Some? ==>
      r == Locate(ArgbGrid(bitmap.value), bitmap.value.width, bitmap.value.height, IsGreenPixel)
  {
    r := DetectPacked(bitmap, IsGreenPixel);
  }

  /** Android's green marker is the iOS QR marker: on the same raster both detections
      give the same result. */
  lemma GreenIsQRMarker(g: Grid, width: int, height: int)
    requires IsRaster(g, width, height)
    ensures Locate(g, width, height, IsGreenPixel) == Locate(g, width, height, IosDetection.DetectQRPixels)
  {
    LocateSamePredicate(g, width, height, IsGreenPixel, IosDetection.DetectQRPixels);
  }
}
