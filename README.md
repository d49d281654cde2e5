# Semantic-segmentation inference script: a Dafny model of its deterministic core

The script `test.py` runs a pretrained segmentation network over one image or a
directory of images. It writes a color-coded segmentation map for each image, optionally
blended over the image. Then it compares every written map with a reference map.
This project models the plain logic around the network, with its error paths.
- **Resizing** (`SemSeg.resize`): the short side is scaled to `IMAGE_SIZE[0]`,
  both sides are rounded with Python's `round` (ties to even), and each is
  rounded up to a multiple of the stride 32. Scaling is exact rational arithmetic.
- **Postprocessing** (`SemSeg.postprocess`): the per-pixel class is the argmax
  over the class scores, taking the first maximal index on ties. The class id indexes
  the palette, and the color map is channel-first, 3 x H x W.
- **Shapes**: the tensor shapes at the end of `postprocess`, where the source
  has a defect (see Findings).
- **Prediction** (`SemSeg.predict`): the pipeline with the network's upsampled
  scores as a parameter. It fails, in pipeline order, on: an empty `IMAGE_SIZE`,
  a zero division on an empty side, a resize to a non-positive size, a
  three-channel Normalize on an image of another depth, and an argmax over zero
  classes. It follows the `squeeze(0)` correction described under Findings, so
  it does not fail where the source as written raises in `permute` for an image
  one pixel high or one pixel wide. On success, with overlay off the output is the color map. With overlay on,
  each byte is `floor(0.4 * image + 0.6 * color)`, which lies between its inputs,
  so the uint8 cast never wraps.
- **Validation** (the `__main__` comparison): the decoded reference and result
  buffers of each file are compared. Python's `hash` equality is modelled as byte
  equality. A verdict line is printed per file. `flags` is the conjunction of the verdicts,
  and "Ok!" is printed only when it holds. An unreadable image (`cv2.imread`
  returns None) aborts the loop.

The overlay is truncated by `.to(torch.uint8)` (test.py:75), not rounded to
the nearest integer. The bound `min(nH, nW) >= ceil(S/32)*32` holds for every
target S >= 0. It fails for some negative targets: S = -1 with a 1 x 100 image
gives (0, -96) (`NegativeTargetExample`). `Predict` rejects every target S <= 0
as a resize to a non-positive size.

The error cases `EmptyResize` and `ChannelMismatch` come from the libraries that
the source calls. Interpolation to a non-positive size raises. The fixed
three-channel mean and standard deviation of `T.Normalize` (test.py:30, 50)
cannot be applied in place to an image with another number of channels.

## Model

| member | source | states |
|---|---|---|
| Resizing.RoundHalfEven | test.py:36 | the result is a nearest integer to p/q, and on an exact tie it is even (Python's `round`) |
| Resizing.NearestUnique | test.py:36 | p/q has only one nearest integer with ties to even |
| Resizing.RoundHalfEvenUnique | test.py:36 | any integer meeting that description is the value of `round` |
| Resizing.RoundHalfEvenExact | test.py:35-36 | rounding an exact integer gives it back |
| Resizing.RoundHalfEvenMonotone | test.py:36 | rounding is monotone in the scaled value |
| Resizing.CeilDiv | test.py:38 | `math.ceil(n / d)` is the integer c with d(c-1) < n <= dc |
| Resizing.AlignUp | test.py:38 | the result is a multiple of 32 and the least one that is at least n: n <= m < n + 32 |
| Resizing.AlignUpMonotone | test.py:38 | aligning up preserves order |
| Resizing.AlignUpClosedForm | test.py:38 | the aligned value equals `ceil(n/32)*32` written with integer division |
| Resizing.TargetSize | test.py:33-38 | succeeds exactly when `IMAGE_SIZE` is non-empty and both sides are positive, and otherwise raises IndexError or ZeroDivisionError in that order; on success both sides are multiples of 32 |
| Resizing.AlignedRoundNear | test.py:35-38 | the aligned rounding of d*s/m lies between d*s/m - 1/2 and d*s/m + 31 1/2 |
| Resizing.TargetSizeNear | test.py:33-38 | each aligned side is within the stride of the exactly scaled side, so aspect ratio is kept up to rounding |
| Resizing.ScaledAtLeastTarget | test.py:35-36 | with a positive target, a side at least as long as the short side rounds to at least the target |
| Resizing.ScaledOrder | test.py:35-38 | with a positive target, a longer side never gets a smaller aligned length |
| Resizing.ShortSide | test.py:33-38 | the short side's aligned length is `ceil(S/32)*32`; with S > 0 both sides are at least 32, and H <= W implies nH <= nW (and symmetrically) |
| Resizing.NegativeTargetExample | test.py:35-38 | with IMAGE_SIZE [-1] a 1 x 100 image gets (0, -96), so the short-side bound needs a non-negative target |
| Resizing.ExampleHundredByHundredFifty | test.py:32-38 | a 100 x 150 image with `IMAGE_SIZE` [64] is resized to 64 x 96 |
| Postprocessing.ArgMax | test.py:59 | the result is a valid class index whose score is at least every score, and every earlier index has a strictly smaller score (ties go to the lowest index) |
| Postprocessing.FirstMaxUnique | test.py:59 | only one index is the first maximum |
| Postprocessing.ArgMaxOrderInvariant | test.py:59 | the argmax depends only on the order of the scores, so in exact arithmetic taking it after the softmax or on the raw scores gives the same class |
| Postprocessing.Classify | test.py:59 | the class map has the original H x W, and each entry is the first index of a largest score of that pixel |
| Postprocessing.Colorize | test.py:61-62 | the color map is channel-first 3 x H x W, and channel c of pixel (y, x) is channel c of the palette entry of its class |
| Postprocessing.Postprocess | test.py:55-62 | fails only for an empty class dimension; otherwise the result is 3 x H x W and each pixel has the palette color of its argmax class |
| Postprocessing.PostprocessPixel | test.py:59-61 | for any first-maximum class k of a pixel, that pixel's output color is `palette[k]` |
| Postprocessing.SingleClassIsConstant | test.py:59-61 | with a one-entry palette every pixel has color `palette[0]`, whatever the scores |
| Shapes.SqueezeAll | test.py:62 | `squeeze()` leaves no dimension of size 1, keeps every other dimension, and on one dimension drops it exactly when it has size 1 |
| Shapes.SqueezeAllAppend | test.py:62 | `squeeze()` of a concatenation is the concatenation of the squeezed parts, so the kept dimensions stay in order |
| Shapes.AsWrittenFailsOnUnitSide | test.py:61-62 | as written, the color map gets shape (3, H, W) exactly when neither side is 1, and otherwise `permute` fails |
| Shapes.AsWrittenOneRowImage | test.py:61-62 | for a 1 x 5 image the squeezed lookup is (5, 3) and cannot be permuted |
| Shapes.ColorMapShape | test.py:61-62 | with the batch dimension squeezed explicitly, the color map always has shape (3, H, W) |
| Tensors.CastUint8 | test.py:75 | `.to(torch.uint8)` keeps values in [0, 255] unchanged and otherwise wraps modulo 256 |
| Prediction.Blend | test.py:74-75 | the overlaid byte is `floor(0.4a + 0.6b)`, and it lies between a and b |
| Prediction.Overlay | test.py:74 | the overlay keeps the 3 x H x W shape and blends each value of the image with the same value of the color map |
| Prediction.Predict | test.py:69-75 | fails exactly on an empty or non-positive `IMAGE_SIZE`, an empty side, a non-three-channel image or no classes, with the first error in pipeline order; on success the output has the original H x W, equals the color map with overlay off, and is the truncated blend with overlay on |
| Prediction.PredictPixel | test.py:69-75 | each output pixel is the palette color of the first class with the largest score, blended with the image when overlay is on |
| Validation.ReadablePrefix | test.py:115-119 | the number of files read before the first one whose image could not be read |
| Validation.MatchDirectory | test.py:109-126 | compares files in order until one cannot be read, prints one verdict line per compared file, makes `flags` the conjunction of the verdicts (so that with all files read it holds iff every file matched), and prints "Ok!" only then |
| Validation.MatchSingleFile | test.py:109-113 | a single file gives no verdict line; `flags` is its comparison and "Ok!" follows only if it matched |
| Validation.IdenticalFilesAllMatch | test.py:115-126 | identical buffers for every file make every verdict equal and the aggregate hold |
| Validation.OneAlteredReference | test.py:115-126 | altering one reference of a matching set flips that file's verdict and the aggregate, and no other file's verdict |

## Left out

- Model construction is not modelled: `eval` of configuration strings, weight loading, device placement,
  `model.eval`, the `timer` decorator and the forward pass (test.py:18-27, 64-67). These are
  foreign calls. The network's upsampled scores are a parameter of `Predict`.
- Postprocessing.Postprocess: takes the scores after the bilinear align-corners upsampling
  (test.py:57). The interpolation values are floating-point library code and are not modelled.
- The pixel values of `T.Resize`, the `/ 255` scaling and `T.Normalize` (test.py:40, 48-50) are not
  modelled. Only their failure conditions are, and the resized image itself feeds only the opaque network.
- The softmax values are not modelled (test.py:59). In exact arithmetic softmax preserves the
  order of the scores, so `ArgMaxOrderInvariant` shows it leaves the argmax unchanged.
- Float ties from the softmax are not modelled. In float32, two nearly equal scores can become
  equal probabilities. `argmax(dim=1)` then returns the lower index, while `ArgMax` on the
  raw scores returns the strictly larger one.
- Floating-point rounding in `H * scale_factor` and in `0.4 * a + 0.6 * b` is not modelled (test.py:35-36, 74). The model
  uses exact rationals and integers, so results that floats would round across an
  integer boundary are not captured.
- File I/O and its orchestration are not modelled: `io.read_image`, `io.write_png`, `cv2.imread`,
  glob order, directory creation, argparse, YAML and the progress prints (test.py:70, 79-103,
  111-112, 117-118). The images and decoded buffers are parameters.
- The single-file branch builds `ref_dir / test_file` rather than `<stem>.png` (test.py:111-112).
  That is path handling and is not modelled. A failed read is modelled as an unreadable `Comparison`.
- Hash collisions of Python's `hash` are not modelled: equal hashes are taken as equal bytes.
- Postprocessing.Postprocess: follows the `squeeze(0)` correction (see Findings). As written, an
  image one pixel high or one pixel wide (1 x W or H x 1) raises in `permute(2, 0, 1)`
  (test.py:62). The model instead returns its 3 x H x W color map. `PostprocessPixel` and
  `SingleClassIsConstant` inherit this.
- Prediction.Predict: follows the same `squeeze(0)` correction. As written, a 1 x W or H x 1
  image raises in `permute` (test.py:62), and the model does not report that failure.
  `PredictPixel` inherits this.
- Prediction.Predict: any channel count other than three is one `ChannelMismatch` error. The
  exact exception and the stage that raises it are not distinguished.

## Findings

| source | as written | input that shows it | evidently intended | confidence | as-written member | corrected member |
|---|---|---|---|---|---|---|
| test.py:61-62 | `squeeze()` drops every dimension of size 1, so for an image one pixel high or wide the (1, H, W, 3) lookup loses a spatial dimension and `permute(2, 0, 1)` raises | a 1 x 5 image: the lookup squeezes to (5, 3) | drop only the batch dimension (`squeeze(0)`), giving (3, H, W) for every image | high, not executed | Shapes.AsWrittenOneRowImage | Shapes.ColorMapShape |
