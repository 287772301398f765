/**
 * FileResizer.GetFileWithLimitedSize: load an image, choose the encoder,
 * search for the size that fits the byte budget, resize to it and encode.
 *
 * The file system, ImageSharp's loader, its resampler and its encoders are
 * collaborators outside the model: whether the file exists and what loading
 * it gave are inputs, and resizing and encoding are function values.
 */
module FileResizer {
  import opened Wrappers
  import opened Encoder
  import opened SizeSearch
  import SearchProperties

  /** The default byte budget of GetFileWithLimitedSize. */
  const MaxFileSize: int := 524288

  /** A decoded raster image: its size and an opaque pixel buffer. */
  datatype Image = Image(size: Size, pixels: seq<bv8>)

  /** ImageSharp's max-fit resize of an image to a target size. */
  type Resizer = (Image, Size) -> Image

  /** ImageSharp's encoding of an image with an encoder, as the bytes written to the stream. */
  type Saver = (Image, ImageEncoder) -> seq<bv8>

  /**
   * GetImageFileSize: the byte count of a resized copy of the image, encoded
   * and then discarded. The image itself is not changed.
   */
  function ImageFileSize(image: Image, size: Size, encoder: ImageEncoder,
                         resize: Resizer, save: Saver): int
  {
    |save(resize(image, size), encoder)|
  }

  /** The cost the search measures for an image and an encoder. */
  function TrialCost(image: Image, encoder: ImageEncoder, resize: Resizer, save: Saver): Cost {
    s => ImageFileSize(image, s, encoder, resize, save)
  }

  /**
   * A stream is produced exactly when the file exists and loads; a missing
   * file and a load failure give the same null result. The stream is the
   * image resized to the searched size and encoded with the encoder the
   * trials used: its length fits the budget as soon as any trial fitted,
   * and equals the byte count of every trial made at the same size. When
   * no trial fitted, the size is the heuristic bound. `trials` is the ghost
   * history of the search: empty when nothing was loaded.
   */
  method GetFileWithLimitedSize(fileExists: bool, loaded: Option<Image>, maxFileSize: int,
                                usePngEncoder: bool, resize: Resizer, save: Saver)
    returns (imageStream: Option<seq<bv8>>, ghost trials: seq<Trial>)
    requires maxFileSize >= 0
    requires loaded.Some? ==> Positive(loaded.value.size)
    ensures imageStream.Some? <==> fileExists && loaded.Some?
    ensures imageStream.None? ==> trials == []
    ensures imageStream.Some? ==>
      var image := loaded.value;
      var encoder := GetEncoder(usePngEncoder);
      var cost := TrialCost(image, encoder, resize, save);
      var size := OptimumSize(image.size, maxFileSize, cost);
      trials == Search(image.size, maxFileSize, cost).trials &&
      imageStream.value == save(resize(image, size), encoder) &&
      ((exists i :: 0 <= i < |trials| && trials[i].bytes <= maxFileSize) ==>
         |imageStream.value| <= maxFileSize) &&
      ((forall i :: 0 <= i < |trials| ==> trials[i].bytes > maxFileSize) ==>
         size.width == MinimumPossibleWidth(image.size, maxFileSize)) &&
      (forall i :: 0 <= i < |trials| && trials[i].size == size ==>
         |imageStream.value| == trials[i].bytes)
  {
    imageStream := None;
    trials := [];
    if !fileExists {
      return;
    }
    if loaded.None? {
      return;
    }
    var image := loaded.value;
    var imageEncoder := GetEncoder(usePngEncoder);
    var cost := TrialCost(image, imageEncoder, resize, save);
    var size;
    size, trials := GetOptimumImageSize(image.size, maxFileSize, cost);
    SearchProperties.ResultFitsIfAnyTrialFits(image.size, maxFileSize, cost);
    SearchProperties.TrialsMeasureCost(image.size, maxFileSize, cost);
    image := resize(image, size);
    imageStream := Some(save(image, imageEncoder));
  }

  /**
   * The call with the default arguments: the budget MaxFileSize and the
   * JPEG encoder.
   */
  method GetFileWithDefaultLimit(fileExists: bool, loaded: Option<Image>, resize: Resizer, save: Saver)
    returns (imageStream: Option<seq<bv8>>, ghost trials: seq<Trial>)
    requires loaded.Some? ==> Positive(loaded.value.size)
    ensures imageStream.Some? <==> fileExists && loaded.Some?
    ensures imageStream.None? ==> trials == []
    ensures imageStream.Some? ==>
      var image := loaded.value;
      var encoder := GetEncoder(false);
      var size := OptimumSize(image.size, MaxFileSize, TrialCost(image, encoder, resize, save));
      encoder.Jpeg? &&
      trials == Search(image.size, MaxFileSize, TrialCost(image, encoder, resize, save)).trials &&
      imageStream.value == save(resize(image, size), encoder) &&
      ((exists i :: 0 <= i < |trials| && trials[i].bytes <= MaxFileSize) ==>
         |imageStream.value| <= MaxFileSize) &&
      ((forall i :: 0 <= i < |trials| ==> trials[i].bytes > MaxFileSize) ==>
         size.width == MinimumPossibleWidth(image.size, MaxFileSize)) &&
      (forall i :: 0 <= i < |trials| && trials[i].size == size ==>
         |imageStream.value| == trials[i].bytes)
  {
    imageStream, trials := GetFileWithLimitedSize(fileExists, loaded, MaxFileSize, false, resize, save);
  }
}
