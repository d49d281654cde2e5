/** `SemSeg.predict` around the opaque model: resize, normalize, forward,
    postprocess, and the optional overlay with its cast to uint8. The model's
    upsampled scores are a parameter. */
module Prediction {
  import opened Results
  import opened Tensors
  import Resizing
  import opened Postprocessing

  /** v is `0.4 * a + 0.6 * b` truncated to an integer. */
  predicate IsBlend(a: int, b: int, v: int) {
    10 * v <= 4 * a + 6 * b < 10 * v + 10
  }

  /** One overlaid channel value: `image * 0.4 + color * 0.6`, then `.to(torch.uint8)`.
      The blend lies between its two inputs, so the cast never wraps. */
  function Blend(a: Byte, b: Byte): (r: Byte)
    ensures IsBlend(a, b, r)
    ensures (if a <= b then a else b) <= r <= (if a <= b then b else a)
  {
    CastUint8((4 * a + 6 * b) / 10)
  }

  /** The overlay of a three-channel image and its color map. */
  function Overlay(image: Image, color: Image, h: nat, w: nat): (r: Image)
    requires IsGrid(image, 3, h, w) && IsGrid(color, 3, h, w)
    ensures IsGrid(r, 3, h, w)
    ensures forall c, y, x :: 0 <= c < 3 && 0 <= y < h && 0 <= x < w ==>
      IsBlend(image[c][y][x], color[c][y][x], r[c][y][x])
  {
    seq(3, c requires 0 <= c < 3 =>
      seq(h, y requires 0 <= y < h =>
        seq(w, x requires 0 <= x < w => Blend(image[c][y][x], color[c][y][x]))))
  }

  /** The exception `predict` raises first, in pipeline order. */
  function PredictError(image: Image, h: nat, w: nat, size: seq<int>, palette: Palette): Error {
    if |size| == 0 then IndexError
    else if h == 0 || w == 0 then ZeroDivisionError
    else if size[0] <= 0 then EmptyResize
    else if |image| != 3 then ChannelMismatch
    else EmptyArgmax
  }

  /** The output image for an H x W image whose upsampled scores are given.
      Fails exactly when IMAGE_SIZE is empty or not positive, a side is empty,
      the image does not have three channels, or there are no classes. */
  function Predict(image: Image, h: nat, w: nat, size: seq<int>, scores: Scores, palette: Palette, overlay: bool): (r: Result<Image>)
    requires IsGrid(image, |image|, h, w)
    requires |scores| == |palette| && IsGrid(scores, |palette|, h, w)
    ensures r.Success? <==> |size| > 0 && size[0] > 0 && h > 0 && w > 0 && |image| == 3 && |palette| > 0
    ensures r.Failure? ==> r.error == PredictError(image, h, w, size, palette)
    ensures r.Success? ==> IsGrid(r.value, 3, h, w)
    ensures r.Success? && !overlay ==> r.value == Postprocess(scores, h, w, palette).value
    ensures r.Success? && overlay ==> forall c, y, x :: 0 <= c < 3 && 0 <= y < h && 0 <= x < w ==>
      IsBlend(image[c][y][x], Postprocess(scores, h, w, palette).value[c][y][x], r.value[c][y][x])
  {
    var dims :- Resizing.TargetSize(h, w, size);
    Resizing.ShortSide(h, w, size);
    if dims.0 <= 0 || dims.1 <= 0 then Failure(EmptyResize)
    else if |image| != 3 then Failure(ChannelMismatch)
    else
      var color :- Postprocess(scores, h, w, palette);
      Success(if overlay then Overlay(image, color, h, w) else color)
  }

  /** Each output pixel is the palette color of the first class with the
      largest score, or, with overlay on, that color blended into the image. */
  lemma PredictPixel(image: Image, h: nat, w: nat, size: seq<int>, scores: Scores, palette: Palette,
                     overlay: bool, y: nat, x: nat, k: nat)
    requires IsGrid(image, |image|, h, w)
    requires |scores| == |palette| && IsGrid(scores, |palette|, h, w)
    requires |size| > 0 && size[0] > 0 && |image| == 3
    requires y < h && x < w
    requires IsFirstMax(PixelScores(scores, h, w, y, x), k)
    ensures Predict(image, h, w, size, scores, palette, overlay).Success?
    ensures forall c :: 0 <= c < 3 ==>
      var v := Predict(image, h, w, size, scores, palette, overlay).value[c][y][x];
      if overlay then IsBlend(image[c][y][x], palette[k].Channel(c), v)
      else v == palette[k].Channel(c)
  {
    PostprocessPixel(scores, h, w, palette, y, x, k);
  }
}
