/** Tensor shapes at the end of `SemSeg.postprocess`: the palette lookup yields
    a (1, H, W, 3) tensor, which is squeezed and permuted to (3, H, W). */
module Shapes {
  import opened Results

  /** `Tensor.squeeze()` with no argument: every dimension of size 1 is dropped. */
  function SqueezeAll(shape: seq<nat>): (r: seq<nat>)
    ensures |r| <= |shape|
    ensures forall i :: 0 <= i < |r| ==> r[i] != 1
    ensures forall d :: d != 1 ==> multiset(r)[d] == multiset(shape)[d]
    ensures |shape| == 1 ==> r == (if shape[0] == 1 then [] else shape)
  {
    if shape == [] then []
    else
      assert shape == [shape[0]] + shape[1..];
      (if shape[0] == 1 then [] else [shape[0]]) + SqueezeAll(shape[1..])
  }

  /** `Tensor.squeeze(0)`: only a leading dimension of size 1 is dropped. */
  function SqueezeLeading(shape: seq<nat>): seq<nat> {
    if |shape| > 0 && shape[0] == 1 then shape[1..] else shape
  }

  /** `Tensor.permute(2, 0, 1)`, which fails unless the tensor has exactly three
      dimensions. */
  function PermuteChannelFirst(shape: seq<nat>): Option<seq<nat>> {
    if |shape| == 3 then Some([shape[2], shape[0], shape[1]]) else None
  }

  /** `squeeze()` works dimension by dimension and keeps the order of the
      dimensions it leaves. */
  lemma {:induction false} SqueezeAllAppend(a: seq<nat>, b: seq<nat>)
    ensures SqueezeAll(a + b) == SqueezeAll(a) + SqueezeAll(b)
  {
    if a == [] {
      assert a + b == b;
    } else {
      assert (a + b)[1..] == a[1..] + b;
      SqueezeAllAppend(a[1..], b);
    }
  }

  /** The color map's shape as the source computes it, with `squeeze()`;
      None where `permute` raises. */
  function ColorMapShapeAsWritten(h: nat, w: nat): Option<seq<nat>> {
    PermuteChannelFirst(SqueezeAll([1, h, w, 3]))
  }

  /** As written, an image one pixel high or one pixel wide loses a spatial
      dimension to `squeeze()`, and `permute(2, 0, 1)` then fails; other sizes
      give (3, H, W). */
  lemma AsWrittenFailsOnUnitSide(h: nat, w: nat)
    ensures ColorMapShapeAsWritten(h, w).Some? <==> h != 1 && w != 1
    ensures ColorMapShapeAsWritten(h, w).Some? ==> ColorMapShapeAsWritten(h, w).value == [3, h, w]
  {
    assert [3][1..] == [] && [w, 3][1..] == [3] && [h, w, 3][1..] == [w, 3] && [1, h, w, 3][1..] == [h, w, 3];
    var tail := (if w == 1 then [] else [w]) + [3];
    assert SqueezeAll([w, 3]) == tail;
    assert SqueezeAll([1, h, w, 3]) == (if h == 1 then [] else [h]) + tail;
  }

  /** A 1 x 5 image: the squeezed lookup has shape (5, 3) and cannot be permuted. */
  lemma AsWrittenOneRowImage()
    ensures SqueezeAll([1, 1, 5, 3]) == [5, 3]
    ensures ColorMapShapeAsWritten(1, 5) == None
  {
    AsWrittenFailsOnUnitSide(1, 5);
    assert [1, 1, 5, 3][1..] == [1, 5, 3] && [1, 5, 3][1..] == [5, 3] && [5, 3][1..] == [3];
    assert SqueezeAll([3]) == [3];
  }

  /** The color map's shape with the batch dimension squeezed explicitly
      (`squeeze(0)`), the behaviour the model uses. */
  function ColorMapShape(h: nat, w: nat): (r: Option<seq<nat>>)
    ensures r == Some([3, h, w])
  {
    var looked := [1, h, w, 3];
    assert looked[1..] == [h, w, 3];
    PermuteChannelFirst(SqueezeLeading(looked))
  }
}
