/** One-bit images as the driver consumes them, and the two image operations it
    borrows from its imaging library: cropping, and the bounding box of the pixels
    in which two images differ (the library's `difference(...).getbbox()`), given
    here by a definition together with the properties that specify it. */
module Images {
  import opened Geometry

  /** A rectangular grid of pixel values, `rows[y][x]`. Pixel value 0 is black;
      any other value is white. */
  datatype Image = Image(width: nat, height: nat, rows: seq<seq<int>>)

  ghost predicate WellFormed(img: Image) {
    |img.rows| == img.height && forall y :: 0 <= y < |img.rows| ==> |img.rows[y]| == img.width
  }

  /** The image has the panel's size. */
  predicate PanelSized(img: Image) {
    img.width == Width && img.height == Height
  }

  function Pixel(img: Image, x: nat, y: nat): int
    requires WellFormed(img) && x < img.width && y < img.height
  {
    img.rows[y][x]
  }

  /** The sub-image of the box with corners (left, upper) and (right, lower), the latter
      two exclusive. The library pads a box that leaves the image; this model needs the
      box inside the image. */
  function Crop(img: Image, left: nat, upper: nat, right: nat, lower: nat): (r: Image)
    requires WellFormed(img) && left <= right <= img.width && upper <= lower <= img.height
    ensures WellFormed(r) && r.width == right - left && r.height == lower - upper
    ensures forall x, y :: 0 <= x < r.width && 0 <= y < r.height ==>
              Pixel(r, x, y) == Pixel(img, left + x, upper + y)
  {
    Image(right - left, lower - upper,
          seq(lower - upper, y requires 0 <= y < lower - upper => img.rows[upper + y][left..right]))
  }

  /** No pixel of the image is black (the source's `0 not in image.getdata()`). */
  predicate AllWhite(img: Image)
    requires WellFormed(img)
  {
    forall x, y :: 0 <= x < img.width && 0 <= y < img.height ==> Pixel(img, x, y) != 0
  }

  /** A crop is all white exactly when the image has no black pixel inside the box. */
  lemma CropAllWhite(img: Image, left: nat, upper: nat, right: nat, lower: nat)
    requires WellFormed(img) && left <= right <= img.width && upper <= lower <= img.height
    ensures AllWhite(Crop(img, left, upper, right, lower)) <==>
            forall x, y :: left <= x < right && upper <= y < lower ==> Pixel(img, x, y) != 0
  {
    var crop := Crop(img, left, upper, right, lower);
    if AllWhite(crop) {
      forall x, y | left <= x < right && upper <= y < lower
        ensures Pixel(img, x, y) != 0
      {
        assert Pixel(crop, x - left, y - upper) != 0;
      }
    }
  }

  /** Both images are well formed and have the same size. */
  ghost predicate Comparable(a: Image, b: Image) {
    WellFormed(a) && WellFormed(b) && a.width == b.width && a.height == b.height
  }

  predicate Differs(a: Image, b: Image, x: nat, y: nat)
    requires Comparable(a, b) && x < a.width && y < a.height
  {
    Pixel(a, x, y) != Pixel(b, x, y)
  }

  predicate RowDiffers(a: Image, b: Image, y: nat)
    requires Comparable(a, b) && y < a.height
  {
    exists x :: 0 <= x < a.width && Differs(a, b, x, y)
  }

  predicate ColumnDiffers(a: Image, b: Image, x: nat)
    requires Comparable(a, b) && x < a.width
  {
    exists y :: 0 <= y < a.height && Differs(a, b, x, y)
  }

  /** First row at or after `y` in which the images differ, or the height if none. */
  function FirstRow(a: Image, b: Image, y: nat): nat
    requires Comparable(a, b) && y <= a.height
    decreases a.height - y
  {
    if y == a.height then a.height
    else if RowDiffers(a, b, y) then y
    else FirstRow(a, b, y + 1)
  }

  /** One past the last row before `y` in which the images differ, or 0 if none. */
  function RowEnd(a: Image, b: Image, y: nat): nat
    requires Comparable(a, b) && y <= a.height
  {
    if y == 0 then 0
    else if RowDiffers(a, b, y - 1) then y
    else RowEnd(a, b, y - 1)
  }

  /** First column at or after `x` in which the images differ, or the width if none. */
  function FirstColumn(a: Image, b: Image, x: nat): nat
    requires Comparable(a, b) && x <= a.width
    decreases a.width - x
  {
    if x == a.width then a.width
    else if ColumnDiffers(a, b, x) then x
    else FirstColumn(a, b, x + 1)
  }

  /** One past the last column before `x` in which the images differ, or 0 if none. */
  function ColumnEnd(a: Image, b: Image, x: nat): nat
    requires Comparable(a, b) && x <= a.width
  {
    if x == 0 then 0
    else if ColumnDiffers(a, b, x - 1) then x
    else ColumnEnd(a, b, x - 1)
  }

  /** A rectangle with exclusive right and bottom edges, in the library's order
      (left, upper, right, lower). */
  datatype Box = Box(left: nat, top: nat, right: nat, bottom: nat)

  datatype Option<T> = None | Some(value: T)

  /** The bounding box of the pixels in which `a` and `b` differ; `None` when they are
      pixel-identical. */
  function BoundingBox(a: Image, b: Image): Option<Box>
    requires Comparable(a, b)
  {
    var top := FirstRow(a, b, 0);
    if top == a.height then None
    else Some(Box(FirstColumn(a, b, 0), top, ColumnEnd(a, b, a.width), RowEnd(a, b, a.height)))
  }

  lemma {:induction false} FirstRowSpec(a: Image, b: Image, y: nat)
    requires Comparable(a, b) && y <= a.height
    ensures var r := FirstRow(a, b, y);
            y <= r <= a.height &&
            (forall y' :: y <= y' < r ==> !RowDiffers(a, b, y')) &&
            (r < a.height ==> RowDiffers(a, b, r))
    decreases a.height - y
  {
    if y < a.height && !RowDiffers(a, b, y) {
      FirstRowSpec(a, b, y + 1);
    }
  }

  lemma {:induction false} RowEndSpec(a: Image, b: Image, y: nat)
    requires Comparable(a, b) && y <= a.height
    ensures var r := RowEnd(a, b, y);
            r <= y &&
            (forall y' :: r <= y' < y ==> !RowDiffers(a, b, y')) &&
            (r > 0 ==> RowDiffers(a, b, r - 1))
  {
    if y > 0 && !RowDiffers(a, b, y - 1) {
      RowEndSpec(a, b, y - 1);
    }
  }

  lemma {:induction false} FirstColumnSpec(a: Image, b: Image, x: nat)
    requires Comparable(a, b) && x <= a.width
    ensures var r := FirstColumn(a, b, x);
            x <= r <= a.width &&
            (forall x' :: x <= x' < r ==> !ColumnDiffers(a, b, x')) &&
            (r < a.width ==> ColumnDiffers(a, b, r))
    decreases a.width - x
  {
    if x < a.width && !ColumnDiffers(a, b, x) {
      FirstColumnSpec(a, b, x + 1);
    }
  }

  lemma {:induction false} ColumnEndSpec(a: Image, b: Image, x: nat)
    requires Comparable(a, b) && x <= a.width
    ensures var r := ColumnEnd(a, b, x);
            r <= x &&
            (forall x' :: r <= x' < x ==> !ColumnDiffers(a, b, x')) &&
            (r > 0 ==> ColumnDiffers(a, b, r - 1))
  {
    if x > 0 && !ColumnDiffers(a, b, x - 1) {
      ColumnEndSpec(a, b, x - 1);
    }
  }

  /** The bounding box is absent exactly when the two images are identical. */
  lemma BoundingBoxNoneIffIdentical(a: Image, b: Image)
    requires Comparable(a, b)
    ensures BoundingBox(a, b).None? <==> a == b
  {
    FirstRowSpec(a, b, 0);
    if BoundingBox(a, b).None? {
      forall y | 0 <= y < a.height ensures a.rows[y] == b.rows[y] {
        assert !RowDiffers(a, b, y);
        forall x | 0 <= x < a.width ensures a.rows[y][x] == b.rows[y][x] {
          assert !Differs(a, b, x, y);
        }
      }
      assert a.rows == b.rows;
    } else {
      var y := FirstRow(a, b, 0);
      var x :| 0 <= x < a.width && Differs(a, b, x, y);
      assert a.rows[y][x] != b.rows[y][x];
    }
  }

  /** A present bounding box is a non-empty rectangle inside the images that contains
      every differing pixel. */
  lemma BoundingBoxCovers(a: Image, b: Image)
    requires Comparable(a, b) && BoundingBox(a, b).Some?
    ensures var box := BoundingBox(a, b).value;
            box.left < box.right <= a.width && box.top < box.bottom <= a.height &&
            forall x, y :: 0 <= x < a.width && 0 <= y < a.height && Differs(a, b, x, y) ==>
              box.left <= x < box.right && box.top <= y < box.bottom
  {
    var box := BoundingBox(a, b).value;
    FirstRowSpec(a, b, 0);
    RowEndSpec(a, b, a.height);
    FirstColumnSpec(a, b, 0);
    ColumnEndSpec(a, b, a.width);
    var x0 :| 0 <= x0 < a.width && Differs(a, b, x0, box.top);
    assert ColumnDiffers(a, b, x0);
    assert RowDiffers(a, b, box.top);
    forall x, y | 0 <= x < a.width && 0 <= y < a.height && Differs(a, b, x, y)
      ensures box.left <= x < box.right && box.top <= y < box.bottom
    {
      assert RowDiffers(a, b, y);
      assert ColumnDiffers(a, b, x);
    }
  }

  /** The bounding box is the smallest such rectangle: each of its four edges touches a
      differing pixel. */
  lemma BoundingBoxIsTight(a: Image, b: Image)
    requires Comparable(a, b) && BoundingBox(a, b).Some?
    ensures var box := BoundingBox(a, b).value;
            box.left < box.right <= a.width && box.top < box.bottom <= a.height &&
            RowDiffers(a, b, box.top) && RowDiffers(a, b, box.bottom - 1) &&
            ColumnDiffers(a, b, box.left) && ColumnDiffers(a, b, box.right - 1)
  {
    BoundingBoxCovers(a, b);
    FirstRowSpec(a, b, 0);
    RowEndSpec(a, b, a.height);
    FirstColumnSpec(a, b, 0);
    ColumnEndSpec(a, b, a.width);
  }

  /** No rectangle smaller than the bounding box contains every differing pixel: any
      half-open rectangle that does contains the box. */
  lemma BoundingBoxIsSmallest(a: Image, b: Image, l: nat, t: nat, r: nat, bt: nat)
    requires Comparable(a, b) && BoundingBox(a, b).Some?
    requires forall x, y :: 0 <= x < a.width && 0 <= y < a.height && Differs(a, b, x, y) ==>
               l <= x < r && t <= y < bt
    ensures var box := BoundingBox(a, b).value;
            l <= box.left && box.right <= r && t <= box.top && box.bottom <= bt
  {
    BoundingBoxIsTight(a, b);
  }
}
