/** The size arithmetic of `SemSeg.resize`: the short side of the image is scaled
    to the configured length, both sides are rounded, and each is then rounded
    up to a multiple of the model's stride. Scaling is exact rational arithmetic. */
module Resizing {
  import opened Results

  /** Output stride of the segmentation backbones. */
  const Stride: int := 32

  function Min(a: int, b: int): int { if a <= b then a else b }

  /** Python's `round` of the rational p / q: the nearest integer, ties to even. */
  function RoundHalfEven(p: int, q: int): (n: int)
    requires q > 0
    ensures -q <= 2 * (p - q * n) <= q
    ensures (2 * (p - q * n) == q || 2 * (p - q * n) == -q) ==> n % 2 == 0
  {
    var f := p / q;
    var r := p % q;
    FloorCandidates(p, q);
    if 2 * r < q then f
    else if 2 * r > q then f + 1
    else if f % 2 == 0 then f
    else f + 1
  }

  /** The offsets of p / q from its floor and from the next integer, scaled by q. */
  lemma FloorCandidates(p: int, q: int)
    requires q > 0
    ensures p - q * (p / q) == p % q
    ensures p - q * (p / q + 1) == p % q - q
  {
    assert q * (p / q + 1) == q * (p / q) + q;
  }

  /** `math.ceil(n / d)` for an integer n and a positive divisor. */
  function CeilDiv(n: int, d: int): (c: int)
    requires d > 0
    ensures d * (c - 1) < n <= d * c
  {
    var f := (-n) / d;
    assert -n == d * f + (-n) % d;
    assert d * (-f - 1) == -(d * f) - d;
    -f
  }

  /** `ceil(n / 32) * 32`: the least multiple of the stride that is at least n. */
  function AlignUp(n: int): (m: int)
    ensures m % Stride == 0
    ensures n <= m < n + Stride
  {
    CeilDiv(n, Stride) * Stride
  }

  /** The aligned height and width for an H x W image and the configured
      IMAGE_SIZE list, or the exception the computation raises. */
  function TargetSize(h: nat, w: nat, size: seq<int>): (r: Result<(int, int)>)
    ensures r.Success? <==> |size| > 0 && h > 0 && w > 0
    ensures r.Failure? ==> r.error == (if |size| == 0 then IndexError else ZeroDivisionError)
    ensures r.Success? ==> r.value.0 % Stride == 0 && r.value.1 % Stride == 0
  {
    if |size| == 0 then Failure(IndexError)
    else if h == 0 || w == 0 then Failure(ZeroDivisionError)
    else
      var m := Min(h, w);
      Success((AlignUp(RoundHalfEven(h * size[0], m)), AlignUp(RoundHalfEven(w * size[0], m))))
  }

  /** n is the stride-aligned rounding of d * s / m: it lies between
      d * s / m - 1/2 and d * s / m + 31 + 1/2. */
  predicate AlignedNear(d: int, s: int, m: int, n: int) {
    m * (2 * n - 2 * Stride + 1) <= 2 * d * s <= m * (2 * n + 1)
  }

  lemma MulMonotone(a: int, b: int, c: int)
    requires a >= 0 && b <= c
    ensures a * b <= a * c
  {
    assert a * c - a * b == a * (c - b);
  }

  /** Multiples q * d of a positive q, for d near zero and away from it. */
  lemma MulByNearInteger(q: int, d: int)
    requires q > 0
    ensures d >= 2 ==> q * d >= 2 * q
    ensures d <= -2 ==> q * d <= -2 * q
    ensures d == 1 ==> q * d == q
    ensures d == 0 ==> q * d == 0
    ensures d == -1 ==> q * d == -q
  {
    if d >= 2 { MulMonotone(q, 2, d); }
    if d <= -2 { MulMonotone(q, d, -2); }
  }

  /** Two nearest integers k and n of one rational, with offsets a and b from it
      (scaled by q) and q * (n - k) == x, are equal. Linear reasoning only. */
  lemma NearestAgree(q: int, k: int, n: int, a: int, b: int, x: int)
    requires q > 0 && b == a - x
    requires -q <= 2 * a <= q && -q <= 2 * b <= q
    requires (2 * a == q || 2 * a == -q) ==> k % 2 == 0
    requires (2 * b == q || 2 * b == -q) ==> n % 2 == 0
    requires n - k >= 2 ==> x >= 2 * q
    requires n - k <= -2 ==> x <= -2 * q
    requires n - k == 1 ==> x == q
    requires n - k == -1 ==> x == -q
    ensures n == k
  {
  }

  /** q * n splits at any k. */
  lemma MulSplit(q: int, n: int, k: int)
    ensures q * n == q * k + q * (n - k)
  {
  }

  /** p / q has at most one nearest integer with ties to even. */
  lemma NearestUnique(p: int, q: int, n: int, k: int)
    requires q > 0
    requires -q <= 2 * (p - q * n) <= q
    requires (2 * (p - q * n) == q || 2 * (p - q * n) == -q) ==> n % 2 == 0
    requires -q <= 2 * (p - q * k) <= q
    requires (2 * (p - q * k) == q || 2 * (p - q * k) == -q) ==> k % 2 == 0
    ensures n == k
  {
    MulSplit(q, n, k);
    MulByNearInteger(q, n - k);
    NearestAgree(q, k, n, p - q * k, p - q * n, q * (n - k));
  }

  /** Any integer satisfying the two clauses of RoundHalfEven's contract is its value. */
  lemma RoundHalfEvenUnique(p: int, q: int, n: int)
    requires q > 0
    requires -q <= 2 * (p - q * n) <= q
    requires (2 * (p - q * n) == q || 2 * (p - q * n) == -q) ==> n % 2 == 0
    ensures RoundHalfEven(p, q) == n
  {
    NearestUnique(p, q, n, RoundHalfEven(p, q));
  }

  /** Rounding a value that is already an integer gives it back. */
  lemma RoundHalfEvenExact(k: int, q: int)
    requires q > 0
    ensures RoundHalfEven(k * q, q) == k
  {
    RoundHalfEvenUnique(k * q, q, k);
  }

  /** Rounding is monotone in the numerator. */
  lemma RoundHalfEvenMonotone(p1: int, p2: int, q: int)
    requires q > 0 && p1 <= p2
    ensures RoundHalfEven(p1, q) <= RoundHalfEven(p2, q)
  {
    var n1, n2 := RoundHalfEven(p1, q), RoundHalfEven(p2, q);
    MulMonotone(q, n2 + 1, if n1 >= n2 + 1 then n1 else n2 + 1);
    assert q * (n2 + 1) == q * n2 + q;
  }

  /** Aligning up is monotone. */
  lemma AlignUpMonotone(a: int, b: int)
    requires a <= b
    ensures AlignUp(a) <= AlignUp(b)
  {
    var ma, mb := AlignUp(a), AlignUp(b);
    assert (ma - mb) % Stride == 0;
  }

  /** The aligned side of a rounded scaled dimension stays within the stride of the exact value. */
  lemma AlignedRoundNear(d: int, s: int, m: int)
    requires m > 0
    ensures AlignedNear(d, s, m, AlignUp(RoundHalfEven(d * s, m)))
  {
    var n0 := RoundHalfEven(d * s, m);
    var n := AlignUp(n0);
    MulMonotone(m, 2 * n0 + 1, 2 * n + 1);
    MulMonotone(m, 2 * n - 2 * Stride + 1, 2 * n0 - 1);
    assert m * (2 * n0 + 1) == 2 * (m * n0) + m;
    assert m * (2 * n0 - 1) == 2 * (m * n0) - m;
    assert 2 * d * s == 2 * (d * s);
  }

  /** Each aligned side is within the stride of the exactly scaled side. */
  lemma TargetSizeNear(h: nat, w: nat, size: seq<int>)
    requires |size| > 0 && h > 0 && w > 0
    ensures TargetSize(h, w, size).Success?
    ensures AlignedNear(h, size[0], Min(h, w), TargetSize(h, w, size).value.0)
    ensures AlignedNear(w, size[0], Min(h, w), TargetSize(h, w, size).value.1)
  {
    AlignedRoundNear(h, size[0], Min(h, w));
    AlignedRoundNear(w, size[0], Min(h, w));
  }

  /** `ceil(s / 32) * 32` in closed form. */
  lemma AlignUpClosedForm(s: int)
    ensures AlignUp(s) == ((s + Stride - 1) / Stride) * Stride
  {
    var m := AlignUp(s);
    var c := (s + Stride - 1) / Stride;
    assert Stride * c <= s + Stride - 1 < Stride * c + Stride;
    assert m == Stride * (m / Stride);
  }

  /** A side at least as long as the short side scales to at least the target. */
  lemma ScaledAtLeastTarget(d: int, m: int, s: int)
    requires 0 < m <= d && s > 0
    ensures RoundHalfEven(d * s, m) >= s
  {
    MulMonotone(s, m, d);
    assert m * s == s * m && d * s == s * d;
    RoundHalfEvenExact(s, m);
    RoundHalfEvenMonotone(s * m, s * d, m);
  }

  /** With a positive target, the longer side's aligned length is not below the shorter's. */
  lemma ScaledOrder(d1: int, d2: int, m: int, s: int)
    requires m > 0 && d1 <= d2 && s > 0
    ensures AlignUp(RoundHalfEven(d1 * s, m)) <= AlignUp(RoundHalfEven(d2 * s, m))
  {
    MulMonotone(s, d1, d2);
    assert d1 * s == s * d1 && d2 * s == s * d2;
    RoundHalfEvenMonotone(d1 * s, d2 * s, m);
    AlignUpMonotone(RoundHalfEven(d1 * s, m), RoundHalfEven(d2 * s, m));
  }

  /** The short side scales exactly to the target, so its aligned length is
      `ceil(S / 32) * 32`; with a positive target both sides are at least one
      stride and the longer side never gets the shorter aligned length. */
  lemma ShortSide(h: nat, w: nat, size: seq<int>)
    requires |size| > 0 && h > 0 && w > 0
    ensures TargetSize(h, w, size).Success?
    ensures var (nh, nw) := TargetSize(h, w, size).value;
      && (if h <= w then nh else nw) == ((size[0] + Stride - 1) / Stride) * Stride
      && (size[0] > 0 ==> nh >= Stride && nw >= Stride)
      && (size[0] > 0 && h <= w ==> nh <= nw)
      && (size[0] > 0 && w <= h ==> nw <= nh)
  {
    var s, m := size[0], Min(h, w);
    RoundHalfEvenExact(s, m);
    assert m * s == s * m;
    AlignUpClosedForm(s);
    if s > 0 {
      ScaledAtLeastTarget(h, m, s);
      ScaledAtLeastTarget(w, m, s);
      if h <= w { ScaledOrder(h, w, m, s); } else { ScaledOrder(w, h, m, s); }
    }
  }

  /** With a negative target the short-side bound fails: a 1 x 100 image with
      IMAGE_SIZE [-1] gives (0, -96), whose smaller side is below `ceil(-1/32)*32 == 0`. */
  lemma NegativeTargetExample()
    ensures TargetSize(1, 100, [-1]) == Success((0, -96))
    ensures ((-1 + Stride - 1) / Stride) * Stride == 0
  {
    RoundHalfEvenExact(-1, 1);
    RoundHalfEvenExact(-100, 1);
    assert -1 * 1 == 1 * -1 && -100 * 1 == 100 * -1;
  }

  /** A 100 x 150 image with IMAGE_SIZE [64] is resized to 64 x 96. */
  lemma ExampleHundredByHundredFifty()
    ensures TargetSize(100, 150, [64]) == Success((64, 96))
  {
    RoundHalfEvenExact(64, 100);
    RoundHalfEvenExact(96, 100);
    assert 64 * 100 == 100 * 64 && 96 * 100 == 150 * 64;
  }
}
