/** Dense tensors of the pipeline, as nested sequences. */
module Tensors {

  /** An element of a `torch.uint8` tensor. */
  type Byte = x: int | 0 <= x < 256

  /** `g` is a d0 x d1 x d2 grid: every row of every plane has the same length. */
  predicate IsGrid<T>(g: seq<seq<seq<T>>>, d0: nat, d1: nat, d2: nat) {
    && |g| == d0
    && (forall i :: 0 <= i < d0 ==> |g[i]| == d1)
    && (forall i, j :: 0 <= i < d0 && 0 <= j < d1 ==> |g[i][j]| == d2)
  }

  /** `.to(torch.uint8)` on an integer value: keeps the low eight bits. */
  function CastUint8(v: int): (b: Byte)
    ensures 0 <= v < 256 ==> b == v
    ensures (v - b) % 256 == 0
  {
    v % 256
  }
}
