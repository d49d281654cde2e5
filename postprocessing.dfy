/** `SemSeg.postprocess` after the (opaque) bilinear upsampling: the per-pixel
    class is the first index of a largest score, and the class id indexes the
    palette; the color map is channel-first. */
module Postprocessing {
  import opened Results
  import opened Tensors

  /** One palette entry. */
  datatype Rgb = Rgb(red: Byte, green: Byte, blue: Byte) {
    /** The entry's value in output channel c (0 red, 1 green, 2 blue). */
    function Channel(c: nat): Byte
      requires c < 3
    {
      if c == 0 then red else if c == 1 then green else blue
    }
  }

  /** Class colors; the model is built with one output class per entry. */
  type Palette = seq<Rgb>

  /** Upsampled scores indexed [class][row][column]: the tensor of shape
      (1, K, H, W) without its batch dimension. */
  type Scores = seq<seq<seq<real>>>

  /** A channel-first image, indexed [channel][row][column]. */
  type Image = seq<seq<seq<Byte>>>

  /** k is the first index of a largest value of s. */
  predicate IsFirstMax(s: seq<real>, k: nat) {
    && k < |s|
    && (forall j :: 0 <= j < |s| ==> s[j] <= s[k])
    && (forall j :: 0 <= j < k ==> s[j] < s[k])
  }

  /** `argmax` over one class vector, scanning indices in ascending order and
      keeping the first of equal maxima. */
  function ArgMax(s: seq<real>): (k: nat)
    requires |s| > 0
    ensures IsFirstMax(s, k)
  {
    if |s| == 1 then 0
    else
      var k := ArgMax(s[..|s| - 1]);
      if s[k] < s[|s| - 1] then |s| - 1 else k
  }

  /** At most one index is the first maximum. */
  lemma FirstMaxUnique(s: seq<real>, k1: nat, k2: nat)
    requires IsFirstMax(s, k1) && IsFirstMax(s, k2)
    ensures k1 == k2
  {
    assert s[k1] <= s[k2] && s[k2] <= s[k1];
  }

  /** The argmax depends only on the order of the scores, so any per-pixel map
      that keeps that order (softmax among them) leaves the class unchanged. */
  lemma ArgMaxOrderInvariant(s: seq<real>, t: seq<real>)
    requires |s| == |t| > 0
    requires forall i, j :: 0 <= i < |s| && 0 <= j < |s| ==> (s[i] <= s[j] <==> t[i] <= t[j])
    ensures ArgMax(s) == ArgMax(t)
  {
    var k := ArgMax(s);
    assert IsFirstMax(t, k) by {
      forall j | 0 <= j < |t| ensures t[j] <= t[k] {
        assert s[j] <= s[k];
      }
      forall j | 0 <= j < k ensures t[j] < t[k] {
        assert !(s[k] <= s[j]);
      }
    }
    FirstMaxUnique(t, k, ArgMax(t));
  }

  /** The class vector of pixel (y, x). */
  function PixelScores(scores: Scores, h: nat, w: nat, y: nat, x: nat): (v: seq<real>)
    requires IsGrid(scores, |scores|, h, w) && y < h && x < w
  {
    seq(|scores|, k requires 0 <= k < |scores| => scores[k][y][x])
  }

  /** `.argmax(dim=1)`: the class map, one class id per pixel. */
  function Classify(scores: Scores, h: nat, w: nat): (cm: seq<seq<nat>>)
    requires |scores| > 0 && IsGrid(scores, |scores|, h, w)
    ensures |cm| == h
    ensures forall y :: 0 <= y < h ==> |cm[y]| == w
    ensures forall y, x :: 0 <= y < h && 0 <= x < w ==> IsFirstMax(PixelScores(scores, h, w, y, x), cm[y][x])
  {
    seq(h, y requires 0 <= y < h =>
      seq(w, x requires 0 <= x < w => ArgMax(PixelScores(scores, h, w, y, x))))
  }

  /** `palette[class_map]` permuted to channel-first. */
  function Colorize(cm: seq<seq<nat>>, palette: Palette, h: nat, w: nat): (img: Image)
    requires |cm| == h
    requires forall y :: 0 <= y < h ==> |cm[y]| == w
    requires forall y, x :: 0 <= y < h && 0 <= x < w ==> cm[y][x] < |palette|
    ensures IsGrid(img, 3, h, w)
    ensures forall c, y, x :: 0 <= c < 3 && 0 <= y < h && 0 <= x < w ==>
      img[c][y][x] == palette[cm[y][x]].Channel(c)
  {
    seq(3, c requires 0 <= c < 3 =>
      seq(h, y requires 0 <= y < h =>
        seq(w, x requires 0 <= x < w => palette[cm[y][x]].Channel(c))))
  }

  /** The color map of upsampled scores for an H x W image, or the error of an
      argmax over zero classes. */
  function Postprocess(scores: Scores, h: nat, w: nat, palette: Palette): (r: Result<Image>)
    requires |scores| == |palette| && IsGrid(scores, |palette|, h, w)
    ensures r.Success? <==> |palette| > 0
    ensures r.Failure? ==> r.error == EmptyArgmax
    ensures r.Success? ==> IsGrid(r.value, 3, h, w)
    ensures r.Success? ==> forall c, y, x :: 0 <= c < 3 && 0 <= y < h && 0 <= x < w ==>
      r.value[c][y][x] == palette[ArgMax(PixelScores(scores, h, w, y, x))].Channel(c)
  {
    if |palette| == 0 then Failure(EmptyArgmax)
    else
      var cm := Classify(scores, h, w);
      forall y, x | 0 <= y < h && 0 <= x < w ensures cm[y][x] == ArgMax(PixelScores(scores, h, w, y, x)) {
        FirstMaxUnique(PixelScores(scores, h, w, y, x), cm[y][x], ArgMax(PixelScores(scores, h, w, y, x)));
      }
      Success(Colorize(cm, palette, h, w))
  }

  /** Each pixel of the color map has the palette color of the first class with
      the largest score. */
  lemma PostprocessPixel(scores: Scores, h: nat, w: nat, palette: Palette, y: nat, x: nat, k: nat)
    requires |scores| == |palette| && IsGrid(scores, |palette|, h, w)
    requires y < h && x < w
    requires IsFirstMax(PixelScores(scores, h, w, y, x), k)
    ensures Postprocess(scores, h, w, palette).Success?
    ensures forall c :: 0 <= c < 3 ==> Postprocess(scores, h, w, palette).value[c][y][x] == palette[k].Channel(c)
  {
    FirstMaxUnique(PixelScores(scores, h, w, y, x), k, ArgMax(PixelScores(scores, h, w, y, x)));
  }

  /** With a one-entry palette every pixel is class 0, whatever the scores:
      the color map is constant. */
  lemma SingleClassIsConstant(scores: Scores, h: nat, w: nat, palette: Palette)
    requires |palette| == 1 && |scores| == 1 && IsGrid(scores, 1, h, w)
    ensures Postprocess(scores, h, w, palette).Success?
    ensures forall c, y, x :: 0 <= c < 3 && 0 <= y < h && 0 <= x < w ==>
      Postprocess(scores, h, w, palette).value[c][y][x] == palette[0].Channel(c)
  {
    forall c, y, x | 0 <= c < 3 && 0 <= y < h && 0 <= x < w
      ensures Postprocess(scores, h, w, palette).value[c][y][x] == palette[0].Channel(c)
    {
      PostprocessPixel(scores, h, w, palette, y, x, 0);
    }
  }
}
