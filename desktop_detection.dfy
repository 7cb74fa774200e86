/** The desktop detector
    (composeApp/src/jvmMain/kotlin/com/tofu/imagefusion/DesktopDetectionResult.kt):
    `ImageIO.read` decodes the poster into a `BufferedImage`, or into `null`. */
module DesktopDetection {
  import opened Results
  import opened BoundingBox
  import opened PackedArgb
  import AndroidDetection

  /** The green QR anchor marker, target colour #00FF6A, with the same tolerance box as
      the Android one. */
  predicate IsGreenPixel(red: int, green: int, blue: int): (accepted: bool)
    ensures (red, green, blue) == (0x00, 0xFF, 0x6A) ==> accepted
    ensures accepted == AndroidDetection.IsGreenPixel(red, green, blue)
  {
    red < 50 && green > 200 && 70 <= blue <= 150
  }

  /** `detectGreenDot`: `null` for an undecodable poster, otherwise the normalised
      bounding box of the green pixels, `null` when there are none. */
  method DetectGreenDot(image: Option<PackedImage>) returns (r: Option<DetectionResult>)
    requires image.Some? ==> image.value.Valid()
    ensures image.None? ==> r == None
    ensures image.Some? ==>
      r == Locate(ArgbGrid(image.value), image.value.width, image.value.height, IsGreenPixel)
  {
    r := DetectPacked(image, IsGreenPixel);
  }

  /** On the same pixels the desktop and the Android detectors report the same result. */
  lemma AgreesWithAndroid(image: PackedImage)
    requires image.Valid()
    ensures Locate(ArgbGrid(image), image.width, image.height, IsGreenPixel)
         == Locate(ArgbGrid(image), image.width, image.height, AndroidDetection.IsGreenPixel)
  {
    LocateSamePredicate(ArgbGrid(image), image.width, image.height, IsGreenPixel, AndroidDetection.IsGreenPixel);
  }
}
