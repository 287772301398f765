# Box.FileResizerLibrary: the size search, in Dafny

This project models the core of `FileResizer`. It takes an image and a byte
budget and returns the image, downscaled with its aspect ratio kept, so that
its PNG or JPEG encoding fits the budget. The model has four parts:

- `Encoder` models `GetEncoder`. The encoder is a closed choice: PNG, or JPEG
  at quality 95 with 4:2:0 chroma subsampling.
- `SizeSearch` models the binary search over widths in `GetOptimumImageSize`
  and the heuristic lower bound `GetMinimumPossibleWidth`. The search is
  given twice:
  - `Search`/`Rest` are functions that define the search one trial at a
    time. They record a history of trials: the bounds before each trial, the
    size tried and the bytes measured.
  - `GetOptimumImageSize` is the source's do-while loop over the two bound
    variables. It is proved to return the size that `Search` determines.
- `SearchProperties` proves what the search guarantees for an arbitrary cost
  function:
  - the shape of the trial history;
  - the first trial is at the original size;
  - the invariants on the lower and upper bounds;
  - when the result fits the budget;
  - a logarithmic bound on the number of trials;
  - for a cost that grows with the width, that the result is at most one
    pixel narrower than the widest size that fits. A concrete case shows
    that this one-pixel gap can really occur.
- `FileResizer` models `GetFileWithLimitedSize`. It returns null (`None`) when
  the file is missing or fails to load. Otherwise it runs the search, resizes
  and encodes.

The cost of a trial is resize, re-encode and count the bytes. The search
treats it as an arbitrary function value `cost: Size -> int`. In the
orchestrator, `ImageFileSize` models `GetImageFileSize`: the byte count is
the length of `save(resize(image, size), encoder)`. So the trials and the
final encoding use the same collaborators and the same encoder.

Preconditions: image width and height are positive, and the budget is
non-negative.
- ImageSharp never produces an image with a zero dimension.
- The search divides by the width (FileResizer.cs:107, :111), and nothing in
  the code catches a division by zero. So a zero-size image is not
  short-circuited to a 0×0 result. It is outside the model.
- With non-negative operands, C#'s truncating `/` agrees with Dafny's `/`.

The code does not promise that the result is no wider than the original, or
that it always fits the budget. The model follows the code:
- `ResultShape` shows that the result is wider than the original only when
  it is the heuristic bound.
- `ResultFitsIfAnyTrialFits` shows that the result fits the budget as soon
  as any trial fitted. When no trial fitted, no trial raised the lower bound,
  and the result is the heuristic width.

The search stops as soon as the bounds are adjacent, so the upper bound is
never tried. `StopsOneShortOfLargestFit` shows this on a 4×4 image: width 3
fits, but the search returns width 2. `WithinOneOfLargestFit` shows that for
a monotone cost this one pixel is the largest possible gap. The model keeps
the behaviour as written.

## Model

| member | source | states |
|---|---|---|
| `Encoder.GetEncoder` | Box.FileResizerLibrary/FileResizer.cs:114-126 | PNG exactly when `usePngEncoder`; otherwise JPEG with quality 95 and 4:2:0 subsampling |
| `SizeSearch.MinimumPossibleWidth` | Box.FileResizerLibrary/FileResizer.cs:128-131 | 0 when either dimension is 0; otherwise the largest width `r` with `4·H·r <= maxFileSize`, i.e. the widest image that fits at 4 bytes per pixel |
| `SizeSearch.ScaledSizeRoundsDown` | Box.FileResizerLibrary/FileResizer.cs:106-111 | a trial or result height is `w·H/W` rounded down (`h·W <= w·H < (h+1)·W`), and width `W` gives back the original size |
| `SizeSearch.Rest` | Box.FileResizerLibrary/FileResizer.cs:92-109 | the loop from given bounds ends with `max <= min + 1`; the lower bound never falls and the upper never rises; from open bounds the final lower bound stays below the starting upper bound |
| `SizeSearch.Search` | Box.FileResizerLibrary/FileResizer.cs:83-111 | the first trial is at the original, unscaled size from bounds (heuristic, `W`) and measures `cost(original)`; the search ends with `max <= min + 1` and `min >= 0` |
| `SizeSearch.GetOptimumImageSize` | Box.FileResizerLibrary/FileResizer.cs:81-112 | the do-while loop returns `(min, min·H/W)` for the final bounds of `Search`, and its ghost history is the one `Search` records |
| `SearchProperties.RestStartsAt` | Box.FileResizerLibrary/FileResizer.cs:109 | the loop makes no further trial exactly when the bounds are already adjacent, and then keeps them |
| `SearchProperties.RestHistory` | Box.FileResizerLibrary/FileResizer.cs:92-109 | every loop trial is at the midpoint of open bounds, strictly between them and within the starting bounds, measured by `cost`; each starts from the bounds the previous left; the final bounds are those the last left |
| `SearchProperties.SearchHistory` | Box.FileResizerLibrary/FileResizer.cs:84-111 | the whole history: first trial at the original size, then midpoint trials strictly inside their bounds, chained through the bound updates, with `max - min` strictly shrinking from the second trial on |
| `SearchProperties.FitsAtOriginalSize` | Box.FileResizerLibrary/FileResizer.cs:89-111 | when `cost(W, H) <= maxFileSize` the search makes exactly one trial and returns `(W, H)` unchanged, whatever the heuristic |
| `SearchProperties.RestMinFits` | Box.FileResizerLibrary/FileResizer.cs:97-104 | the loop keeps "`min` is the heuristic or a width whose trial fits the budget" |
| `SearchProperties.RestMaxExceeds` | Box.FileResizerLibrary/FileResizer.cs:97-100 | the loop keeps "`max` is `W` or one less than a width whose trial exceeds the budget" |
| `SearchProperties.SearchBoundsInvariant` | Box.FileResizerLibrary/FileResizer.cs:84-104 | on exit `min` is the heuristic or a width that fits, and `max` is `W` or one less than a width that does not |
| `SearchProperties.TrialsMeasureCost` | Box.FileResizerLibrary/FileResizer.cs:95 | every byte count in the history is the cost of the size that trial tried |
| `SearchProperties.RestFitsAfterFittingTrial` | Box.FileResizerLibrary/FileResizer.cs:97-109 | once a loop trial fits, the final lower bound is a width that fits |
| `SearchProperties.RestKeepsMinWithoutFit` | Box.FileResizerLibrary/FileResizer.cs:97-109 | while no loop trial fits, the lower bound never moves |
| `SearchProperties.ResultFitsIfAnyTrialFits` | Box.FileResizerLibrary/FileResizer.cs:81-111 | the returned size fits the budget whenever any trial fitted; when none fitted, its width is the heuristic lower bound |
| `SearchProperties.ResultShape` | Box.FileResizerLibrary/FileResizer.cs:84-111 | the result keeps the aspect ratio with the height rounded down; it is wider than the original only when it is the heuristic bound, and narrower than the heuristic only when it is the original size |
| `SearchProperties.RestTrialCount` | Box.FileResizerLibrary/FileResizer.cs:92-109 | from open bounds of span `L` the loop makes `k` trials with `2^k <= 2(L-1)` |
| `SearchProperties.SearchTrialCount` | Box.FileResizerLibrary/FileResizer.cs:92-109 | the search makes `n` cost calls with `2^(n-1) <= 2W`, for any cost function |
| `SearchProperties.WithinOneOfLargestFit` | Box.FileResizerLibrary/FileResizer.cs:92-111 | for a cost non-decreasing in width, every width up to `W` that fits is at most one more than the returned width |
| `SearchProperties.StopsOneShortOfLargestFit` | Box.FileResizerLibrary/FileResizer.cs:106-111 | the one-pixel gap occurs: a 4×4 image with budget 10, where exactly the widths up to 3 fit, yields width 2 |
| `FileResizer.GetFileWithLimitedSize` | Box.FileResizerLibrary/FileResizer.cs:27-63 | a stream exactly when the file exists and loads, with no search otherwise. The stream is the image resized to the searched size and encoded with the trials' encoder. Its length is within the budget whenever any trial fitted. It equals the byte count of any trial made at the same size: a trial of `GetImageFileSize` (FileResizer.cs:133-155) measures exactly what the final encode writes. When no trial fitted, the size is the heuristic bound |
| `FileResizer.GetFileWithDefaultLimit` | Box.FileResizerLibrary/FileResizer.cs:13-27 | the call with default arguments uses the budget 524288 and the JPEG encoder, with every guarantee of `GetFileWithLimitedSize` at that budget: no search on failure, a stream that fits whenever any trial fitted, the heuristic width when none did, and a length equal to the bytes of any trial at the same size |

## Left out

- The console application (`Box.FileResizerLibrary.ConsoleApp/Program.cs`) is I/O plumbing and is not part of this model. It prompts, calls the resizer and optionally copies the stream to a file.
- `IFileResizer` is a one-method interface with no behaviour.
- ImageSharp calls are not modelled. The model does not cover `Image.Load`, max-fit resampling (`ResizeMode.Max`) or the PNG/JPEG encoders. They appear as the function values `resize` and `save` and the input `loaded`, so the model says nothing about the pixels or the exact byte counts.
- `File.Exists` is the input `fileExists`. The exception caught in `LoadImageFile` is a `None` in `loaded`. No file system is modelled.
- `Console.WriteLine` diagnostics carry no behaviour and are not modelled.
- Disposal of images and streams (`using`) is resource management and is not modelled.
- FileResizer.GetFileWithLimitedSize: the in-place `image.Mutate` is modelled as a new image value. The original image is not used again before it is disposed.
- SizeSearch.GetOptimumImageSize: `lastImageFileSize` is assigned on every pass but never read, so it is not modelled.
- SizeSearch.GetOptimumImageSize: does not model 32-bit overflow of `min + max`, `tryWidth * size.Height` or `4 * size.Height`. The model uses unbounded integers with non-negative operands.
- SizeSearch.MinimumPossibleWidth: does not model a negative `maxFileSize`. C# truncating division and Dafny's Euclidean division differ there, and the search would try negative widths.
