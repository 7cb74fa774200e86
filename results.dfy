/** The value every platform detector hands back to the UI
    (composeApp/src/commonMain/kotlin/com/tofu/imagefusion/DetectionResult.kt). */
module Results {

  /** Kotlin's nullable result: `None` is `null`. */
  datatype Option<+T> = None | Some(value: T)

  /** Compose's `Offset`, with exact reals in place of `Float`. */
  datatype Offset = Offset(x: real, y: real)

  /** `position` is the marker centre as a fraction of the image width and height;
      `size` is the marker's horizontal extent as a fraction of the image width. */
  datatype DetectionResult = DetectionResult(position: Offset, size: real)
}
