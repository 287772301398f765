/**
 * The encoder policy of FileResizer.GetEncoder: a closed choice between the
 * lossless PNG encoder and a JPEG encoder with fixed parameters.
 */
module Encoder {

  /** ImageSharp's JPEG chroma subsampling modes. */
  datatype JpegSubsample = Ratio444 | Ratio420

  /** The two encoders the resizer can hand to ImageSharp. */
  datatype ImageEncoder = Png | Jpeg(quality: int, subsample: JpegSubsample)

  /** The JPEG quality the resizer always uses; it is never tuned against the budget. */
  const JpegQuality: int := 95

  /**
   * PNG exactly when the caller asks for it; otherwise JPEG at quality 95
   * with 4:2:0 subsampling.
   */
  function GetEncoder(usePngEncoder: bool): (e: ImageEncoder)
    ensures e.Png? <==> usePngEncoder
    ensures e.Jpeg? ==> e.quality == JpegQuality && e.subsample == Ratio420
  {
    if usePngEncoder then Png else Jpeg(JpegQuality, Ratio420)
  }
}
