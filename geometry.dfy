/** Panel geometry of the Waveshare 2.7" panel and the byte-alignment arithmetic
    the controller needs for horizontal coordinates. */
module Geometry {

  /** Display resolution, in pixels. */
  const Width: nat := 176
  const Height: nat := 264

  /** Number of bytes in a full-panel frame buffer (one bit per pixel). */
  const FrameBytes: nat := Width * Height / 8

  /** Rounds `n` up (`up`) or down to a multiple of 8. Python's `//` floors, and so does
      Dafny's `/` for the positive divisor used here, so this also holds for negative `n`. */
  function NearestMultOf8(n: int, up: bool := true): (r: int)
    ensures r % 8 == 0
    ensures up ==> n <= r < n + 8
    ensures !up ==> r <= n < r + 8
  {
    if up then ((n + 7) / 8) * 8 else (n / 8) * 8
  }

  /** Rounding down gives the largest multiple of 8 that is at most `n`. */
  lemma RoundDownIsLargest(n: int, m: int)
    requires m % 8 == 0 && m <= n
    ensures m <= NearestMultOf8(n, false)
  {
  }

  /** Rounding up gives the smallest multiple of 8 that is at least `n`. */
  lemma RoundUpIsSmallest(n: int, m: int)
    requires m % 8 == 0 && n <= m
    ensures NearestMultOf8(n, true) <= m
  {
  }

  /** A multiple of 8 is left alone by both roundings. */
  lemma MultipleIsFixed(n: int, up: bool)
    requires n % 8 == 0
    ensures NearestMultOf8(n, up) == n
  {
    if up {
      RoundUpIsSmallest(n, n);
    } else {
      RoundDownIsLargest(n, n);
    }
  }

  /** Both roundings are idempotent. */
  lemma RoundingIdempotent(n: int, up: bool)
    ensures NearestMultOf8(NearestMultOf8(n, up), up) == NearestMultOf8(n, up)
  {
    MultipleIsFixed(NearestMultOf8(n, up), up);
  }

  /** Rounding the left edge down and the width up never shrinks the span [x0, x1). */
  lemma AlignedSpanCovers(x0: int, x1: int)
    requires x0 <= x1
    ensures var x := NearestMultOf8(x0, false);
            var w := NearestMultOf8(x1 - x, true);
            x <= x0 && x1 <= x + w && w < x1 - x0 + 15
  {
  }

  /** Rounding the left edge down and then the width up ends the span where rounding
      its right edge up would. */
  lemma AlignedSpanEnd(x0: int, x1: int)
    ensures var x := NearestMultOf8(x0, false);
            x + NearestMultOf8(x1 - x, true) == NearestMultOf8(x1, true)
  {
    var x := NearestMultOf8(x0, false);
    var k := x / 8;
    assert x == 8 * k;
    assert (x1 - x + 7) / 8 == (x1 + 7) / 8 - k;
  }

  /** The panel width is a multiple of 8, so the full frame buffer has an exact byte count. */
  lemma FrameBytesValue()
    ensures Width % 8 == 0 && FrameBytes == 5808 && FrameBytes * 8 == Width * Height
  {
  }
}
