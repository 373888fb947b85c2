/** The frame-buffer codec: pixels packed one bit each, most significant bit first,
    row-major (x varies fastest). A set bit is a white (non-zero) pixel. */
module FrameBuffer {
  import opened Geometry
  import opened Images
  import opened Arithmetic

  /** The bit for column position `j` within a byte: `0x80 >> j`. */
  function Mask(j: nat): bv8
    requires j < 8
  {
    0x80 >> j
  }

  predicate BitSet(b: bv8, j: nat)
    requires j < 8
  {
    b & Mask(j) != 0
  }

  /** Setting bit `k` of a byte sets exactly that bit. */
  lemma SetBit(b: bv8, k: nat, j: nat)
    requires k < 8 && j < 8
    ensures BitSet(b | Mask(k), j) <==> BitSet(b, j) || j == k
  {
  }

  /** A byte is determined by its eight bits. */
  lemma BitsDetermineByte(a: bv8, b: bv8)
    requires forall j :: 0 <= j < 8 ==> (BitSet(a, j) <==> BitSet(b, j))
    ensures a == b
  {
    assert BitSet(a, 0) == BitSet(b, 0) && BitSet(a, 1) == BitSet(b, 1);
    assert BitSet(a, 2) == BitSet(b, 2) && BitSet(a, 3) == BitSet(b, 3);
    assert BitSet(a, 4) == BitSet(b, 4) && BitSet(a, 5) == BitSet(b, 5);
    assert BitSet(a, 6) == BitSet(b, 6) && BitSet(a, 7) == BitSet(b, 7);
  }

  /** Pixel number `p`, counted row-major over rows of width `w`, is white. Pixels past
      the image count as black. */
  predicate WhiteAt(img: Image, w: nat, p: nat) {
    w > 0 && p / w < |img.rows| && p % w < |img.rows[p / w]| && img.rows[p / w][p % w] != 0
  }

  function Contribution(img: Image, w: nat, p: nat, j: nat): bv8
    requires j < 8
  {
    if WhiteAt(img, w, p + j) then Mask(j) else 0
  }

  /** Byte `k` of the buffer: pixels 8k .. 8k+7, the first in the most significant bit. */
  function PackByte(img: Image, w: nat, k: nat): bv8 {
    var p := 8 * k;
    Contribution(img, w, p, 0) | Contribution(img, w, p, 1) | Contribution(img, w, p, 2) |
    Contribution(img, w, p, 3) | Contribution(img, w, p, 4) | Contribution(img, w, p, 5) |
    Contribution(img, w, p, 6) | Contribution(img, w, p, 7)
  }

  /** The frame buffer of the top-left `w` x `h` pixels of `img`. */
  function Encode(img: Image, h: nat, w: nat): (buf: seq<bv8>)
    ensures |buf| == w * h / 8
  {
    seq(w * h / 8, k requires 0 <= k < w * h / 8 => PackByte(img, w, k))
  }

  /** The region being encoded lies inside the image and has byte-aligned rows. */
  ghost predicate Encodable(img: Image, h: nat, w: nat) {
    WellFormed(img) && w <= img.width && h <= img.height && w % 8 == 0
  }

  /** Bit `j` of a packed byte is the pixel that byte's `j`-th contribution stands for. */
  lemma PackByteBits(img: Image, w: nat, k: nat, j: nat)
    requires j < 8
    ensures BitSet(PackByte(img, w, k), j) <==> WhiteAt(img, w, 8 * k + j)
  {
    var p := 8 * k;
    ContributionBit(img, w, p, 0, j); ContributionBit(img, w, p, 1, j);
    ContributionBit(img, w, p, 2, j); ContributionBit(img, w, p, 3, j);
    ContributionBit(img, w, p, 4, j); ContributionBit(img, w, p, 5, j);
    ContributionBit(img, w, p, 6, j); ContributionBit(img, w, p, 7, j);
    OrBits(Contribution(img, w, p, 0), Contribution(img, w, p, 1), Contribution(img, w, p, 2),
           Contribution(img, w, p, 3), Contribution(img, w, p, 4), Contribution(img, w, p, 5),
           Contribution(img, w, p, 6), Contribution(img, w, p, 7), j);
  }

  lemma ContributionBit(img: Image, w: nat, p: nat, i: nat, j: nat)
    requires i < 8 && j < 8
    ensures BitSet(Contribution(img, w, p, i), j) <==> i == j && WhiteAt(img, w, p + j)
  {
    SetBit(0, i, j);
  }

  /** A bit of an OR of eight bytes is set when it is set in one of them. */
  lemma OrBits(c0: bv8, c1: bv8, c2: bv8, c3: bv8, c4: bv8, c5: bv8, c6: bv8, c7: bv8, j: nat)
    requires j < 8
    ensures BitSet(c0 | c1 | c2 | c3 | c4 | c5 | c6 | c7, j) <==>
            BitSet(c0, j) || BitSet(c1, j) || BitSet(c2, j) || BitSet(c3, j) ||
            BitSet(c4, j) || BitSet(c5, j) || BitSet(c6, j) || BitSet(c7, j)
  {
  }

  /** Bit `j` of byte `k` is pixel number 8k+j in row-major order. */
  lemma EncodeByteBits(img: Image, h: nat, w: nat, k: nat, j: nat)
    requires k < w * h / 8 && j < 8
    ensures BitSet(Encode(img, h, w)[k], j) <==> WhiteAt(img, w, 8 * k + j)
  {
    PackByteBits(img, w, k, j);
  }

  /** Where the source's index arithmetic puts pixel (x, y): byte `(x + y*w) / 8`, bit
      `x % 8`; that bit is pixel number x + y*w. */
  lemma PixelPosition(img: Image, h: nat, w: nat, x: nat, y: nat)
    requires Encodable(img, h, w) && x < w && y < h
    ensures (x + y * w) / 8 < w * h / 8
    ensures 8 * ((x + y * w) / 8) + x % 8 == x + y * w
    ensures WhiteAt(img, w, x + y * w) <==> Pixel(img, x, y) != 0
  {
    ByteOf(x, y, w);
    RowOf(x, y, w);
    ByteInRange(x, y, w, h);
  }

  /** The property the source's packing loop promises: bit `0x80 >> (x % 8)` of byte
      `(x + y*w) / 8` is set exactly when pixel (x, y) is white. */
  lemma EncodeBit(img: Image, h: nat, w: nat, x: nat, y: nat)
    requires Encodable(img, h, w) && x < w && y < h
    ensures (x + y * w) / 8 < |Encode(img, h, w)|
    ensures BitSet(Encode(img, h, w)[(x + y * w) / 8], x % 8) <==> Pixel(img, x, y) != 0
  {
    PixelPosition(img, h, w, x, y);
    EncodeByteBits(img, h, w, (x + y * w) / 8, x % 8);
  }

  /** Every bit of the buffer belongs to a pixel of the region, so no bit other than
      those of white pixels is set: bit `j` of byte `k` is pixel (x, y) with
      8k + j == x + y*w. */
  lemma EncodeBitsBelongToPixels(img: Image, h: nat, w: nat, k: nat, j: nat) returns (x: nat, y: nat)
    requires Encodable(img, h, w) && k < w * h / 8 && j < 8
    ensures x < w && y < h && 8 * k + j == x + y * w
    ensures BitSet(Encode(img, h, w)[k], j) <==> Pixel(img, x, y) != 0
  {
    x, y := BitPixel(k, j, w, h);
    EncodeByteBits(img, h, w, k, j);
  }

  /** A pixel value recovered from the buffer: 255 for a set bit, 0 otherwise. */
  function Decode(buf: seq<bv8>, h: nat, w: nat): (img: Image)
    requires |buf| == w * h / 8 && w % 8 == 0
    ensures WellFormed(img) && img.width == w && img.height == h
  {
    Image(w, h, seq(h, y requires 0 <= y < h =>
      seq(w, x requires 0 <= x < w =>
        DecodeIndex(w, h, x, y);
        if BitSet(buf[(x + y * w) / 8], x % 8) then 255 else 0)))
  }

  lemma DecodeIndex(w: nat, h: nat, x: nat, y: nat)
    requires w % 8 == 0 && x < w && y < h
    ensures (x + y * w) / 8 < w * h / 8
  {
    ByteOf(x, y, w);
    ByteInRange(x, y, w, h);
  }

  /** Every pixel is 0 or 255, as in the library's one-bit mode. */
  ghost predicate Binary(img: Image)
    requires WellFormed(img)
  {
    forall x, y :: 0 <= x < img.width && 0 <= y < img.height ==>
      Pixel(img, x, y) == 0 || Pixel(img, x, y) == 255
  }

  /** Encoding then decoding a one-bit image gives the image back. */
  lemma DecodeEncode(img: Image)
    requires WellFormed(img) && img.width % 8 == 0 && Binary(img)
    ensures Decode(Encode(img, img.height, img.width), img.height, img.width) == img
  {
    var h, w := img.height, img.width;
    var d := Decode(Encode(img, h, w), h, w);
    forall y | 0 <= y < h ensures d.rows[y] == img.rows[y] {
      forall x | 0 <= x < w ensures d.rows[y][x] == img.rows[y][x] {
        EncodeBit(img, h, w, x, y);
      }
    }
    assert d.rows == img.rows;
  }

  /** The bits of `buf` hold the first `done` pixels, in row-major order, and the rest
      are clear. */
  ghost predicate PackedUpTo(buf: seq<bv8>, img: Image, w: nat, done: nat) {
    forall k, j :: 0 <= k < |buf| && 0 <= j < 8 ==>
      (BitSet(buf[k], j) <==> 8 * k + j < done && WhiteAt(img, w, 8 * k + j))
  }

  /** One step of the packing loop: OR-ing the mask of pixel number `p` into its byte
      (when the pixel is white) extends the packed prefix by one pixel. */
  lemma {:induction false} PackStep(buf: seq<bv8>, img: Image, w: nat, p: nat, i: nat)
    requires PackedUpTo(buf, img, w, p) && i < |buf| && 8 * i <= p < 8 * i + 8
    ensures PackedUpTo(if WhiteAt(img, w, p) then buf[i := buf[i] | Mask(p - 8 * i)] else buf, img, w, p + 1)
  {
    var b := if WhiteAt(img, w, p) then buf[i := buf[i] | Mask(p - 8 * i)] else buf;
    forall k, j | 0 <= k < |b| && 0 <= j < 8
      ensures BitSet(b[k], j) <==> 8 * k + j < p + 1 && WhiteAt(img, w, 8 * k + j)
    {
      if k == i && WhiteAt(img, w, p) {
        SetBit(buf[i], p - 8 * i, j);
      }
    }
  }

  /** The loop body for pixel (x, y), in the source's own index arithmetic. */
  lemma PackPixel(buf: seq<bv8>, img: Image, h: nat, w: nat, x: nat, y: nat)
    requires Encodable(img, h, w) && x < w && y < h && |buf| == w * h / 8
    requires PackedUpTo(buf, img, w, x + y * w)
    ensures (x + y * w) / 8 < |buf|
    ensures var i := (x + y * w) / 8;
            PackedUpTo(if Pixel(img, x, y) != 0 then buf[i := buf[i] | (0x80 >> (x % 8))] else buf,
                       img, w, x + 1 + y * w)
  {
    var p := x + y * w;
    var i := p / 8;
    PixelPosition(img, h, w, x, y);
    assert p - 8 * i == x % 8;
    PackStep(buf, img, w, p, i);
  }

  /** Once all `h` rows are packed, the buffer is the encoding. */
  lemma PackedAllIsEncode(buf: seq<bv8>, img: Image, h: nat, w: nat)
    requires w % 8 == 0 && |buf| == w * h / 8 && PackedUpTo(buf, img, w, h * w)
    ensures buf == Encode(img, h, w)
  {
    forall k | 0 <= k < |buf| ensures buf[k] == Encode(img, h, w)[k] {
      forall j | 0 <= j < 8 ensures BitSet(buf[k], j) <==> BitSet(Encode(img, h, w)[k], j) {
        AllBitsVisited(k, j, w, h);
        EncodeByteBits(img, h, w, k, j);
      }
      BitsDetermineByte(buf[k], Encode(img, h, w)[k]);
    }
  }

  /** The source's packing loop: start from all-zero bytes and, for every white pixel,
      OR its mask into its byte. */
  method GetFrameBufferForSize(img: Image, h: nat, w: nat) returns (buf: seq<bv8>)
    requires Encodable(img, h, w)
    ensures buf == Encode(img, h, w)
  {
    var a := new bv8[w * h / 8](_ => 0);
    for y := 0 to h
      invariant PackedUpTo(a[..], img, w, y * w)
    {
      for x := 0 to w
        invariant PackedUpTo(a[..], img, w, x + y * w)
      {
        PackPixel(a[..], img, h, w, x, y);
        var i := (x + y * w) / 8;
        if Pixel(img, x, y) != 0 {
          a[i] := a[i] | (0x80 >> (x % 8));
        }
      }
      assert w + y * w == (y + 1) * w;
    }
    PackedAllIsEncode(a[..], img, h, w);
    buf := a[..];
  }

  datatype FrameError = DimensionMismatch

  datatype Result<T> = Ok(value: T) | Err(error: FrameError)

  /** The full-panel frame buffer: a dimension error unless the image is exactly
      176 x 264; otherwise the 5808-byte encoding with height 264 and width 176. */
  method GetFrameBuffer(img: Image) returns (r: Result<seq<bv8>>)
    requires WellFormed(img)
    ensures r.Err? <==> !PanelSized(img)
    ensures r.Ok? ==> r.value == Encode(img, Height, Width) && |r.value| == FrameBytes
  {
    if img.width != Width || img.height != Height {
      return Err(DimensionMismatch);
    }
    var buf := GetFrameBufferForSize(img, Height, Width);
    return Ok(buf);
  }
}
