/** Small facts about integer multiplication and Euclidean division used by the
    frame-buffer index arithmetic. */
module Arithmetic {

  lemma MulAtLeast(a: int, d: int)
    requires a >= 1 && d > 0
    ensures a * d >= d
  {
  }
  lemma DivModUnique(p: int, q: int, r: int, d: int)
    requires d > 0 && 0 <= r < d && p == q * d + r
    ensures p / d == q && p % d == r
  {
    var q', r' := p / d, p % d;
    assert p == q' * d + r';
    assert 0 <= r' < d;
    assert (q' - q) * d == r - r' by {
      assert (q' - q) * d == q' * d - q * d;
    }
    if q' > q {
      MulAtLeast(q' - q, d);
    } else if q' < q {
      MulAtLeast(q - q', d);
    }
  }
  lemma ByteOf(x: nat, y: nat, w: nat)
    requires w % 8 == 0 && x < w
    ensures (x + y * w) / 8 == x / 8 + y * (w / 8) && (x + y * w) % 8 == x % 8
  {
    var wb := w / 8;
    assert y * w == 8 * (y * wb) by { assert w == 8 * wb; }
    assert x + y * w == (x / 8 + y * wb) * 8 + x % 8;
    DivModUnique(x + y * w, x / 8 + y * wb, x % 8, 8);
  }
  lemma RowOf(x: nat, y: nat, w: nat)
    requires x < w
    ensures (x + y * w) / w == y && (x + y * w) % w == x
  {
    DivModUnique(x + y * w, y, x, w);
  }
  lemma MulMono(a: int, b: int, c: int)
    requires a <= b && c >= 0
    ensures a * c <= b * c
  {
    assert b * c - a * c == (b - a) * c;
  }
  lemma ByteInRange(x: nat, y: nat, w: nat, h: nat)
    requires w % 8 == 0 && x < w && y < h
    ensures x / 8 + y * (w / 8) < w * h / 8
  {
    var wb := w / 8;
    assert w * h == (wb * h) * 8 by { assert w == 8 * wb; }
    DivModUnique(w * h, wb * h, 0, 8);
    assert x / 8 < wb;
    assert (y + 1) * wb == y * wb + wb;
    MulMono(y + 1, h, wb);
    assert h * wb == wb * h;
  }

  /** Bit `j` of byte `k` of a `w` x `h` buffer is a pixel inside the region. */
  lemma BitInRange(k: nat, j: nat, w: nat, h: nat)
    requires w % 8 == 0 && k < w * h / 8 && j < 8
    ensures w > 0 && 8 * k + j < w * h
  {
    var wb := w / 8;
    assert w * h == (wb * h) * 8 by { assert w == 8 * wb; }
    DivModUnique(w * h, wb * h, 0, 8);
    MulMono(k + 1, wb * h, 8);
  }

  /** The pixel (x, y) that bit `j` of byte `k` stands for. */
  lemma BitPixel(k: nat, j: nat, w: nat, h: nat) returns (x: nat, y: nat)
    requires w % 8 == 0 && k < w * h / 8 && j < 8
    ensures x < w && y < h && 8 * k + j == x + y * w
    ensures (8 * k + j) / w == y && (8 * k + j) % w == x
  {
    BitInRange(k, j, w, h);
    var p := 8 * k + j;
    var q, r := p / w, p % w;
    assert p == q * w + r && 0 <= r < w;
    if q < 0 {
      MulMono(q, -1, w);
      assert false;
    }
    if q >= h {
      MulMono(h, q, w);
      assert false;
    }
    x, y := r, q;
  }

  /** After the last pixel of a `w` x `h` region, every bit of the buffer has been visited. */
  lemma AllBitsVisited(k: nat, j: nat, w: nat, h: nat)
    requires w % 8 == 0 && k < w * h / 8 && j < 8
    ensures 8 * k + j < h * w
  {
    BitInRange(k, j, w, h);
    assert h * w == w * h;
  }
}
