/** The area primitives of `ImageBuffer<C_>`: `clear` and `box`, and the
    guarded single-pixel, row and column writes the other primitives use. */
module Draw {
  import opened Base
  import opened Rects
  import opened ImageBuffers

  /** Paints (x, y) when it lies in the canvas. */
  method Plot<C>(img: ImageBuffer<C>, x: int, y: int, color: C)
    requires img.Valid()
    modifies img.buf
    ensures forall j, i :: 0 <= j < img.h && 0 <= i < img.w ==>
      img.buf[j, i] == if (i, j) == (x, y) then color else old(img.buf[j, i])
  {
    if 0 <= x < img.w && 0 <= y < img.h {
      img.buf[y, x] := color;
    }
  }

  /** `std::fill_n(lineBuffer(y) + left, right - left + 1, color)`: columns
      `left` to `right` inclusive of row `y` become `color`. */
  method FillRow<C>(img: ImageBuffer<C>, y: int, left: int, right: int, color: C)
    requires img.Valid() && 0 <= y < img.h && 0 <= left && right < img.w
    modifies img.buf
    ensures forall j, x :: 0 <= j < img.h && 0 <= x < img.w ==>
      img.buf[j, x] == if j == y && left <= x <= right then color else old(img.buf[j, x])
  {
    var i := left;
    while i <= right
      invariant left <= i <= Max(left, right + 1)
      invariant forall j, x :: 0 <= j < img.h && 0 <= x < img.w ==>
        img.buf[j, x] == if j == y && left <= x < i then color else old(img.buf[j, x])
    {
      img.buf[y, i] := color;
      i := i + 1;
    }
  }

  /** Rows `top` to `bottom` inclusive of column `x` become `color`. */
  method FillColumn<C>(img: ImageBuffer<C>, x: int, top: int, bottom: int, color: C)
    requires img.Valid() && 0 <= x < img.w && 0 <= top && bottom < img.h
    modifies img.buf
    ensures forall y, i :: 0 <= y < img.h && 0 <= i < img.w ==>
      img.buf[y, i] == if i == x && top <= y <= bottom then color else old(img.buf[y, i])
  {
    var j := top;
    while j <= bottom
      invariant top <= j <= Max(top, bottom + 1)
      invariant forall y, i :: 0 <= y < img.h && 0 <= i < img.w ==>
        img.buf[y, i] == if i == x && top <= y < j then color else old(img.buf[y, i])
    {
      img.buf[j, x] := color;
      j := j + 1;
    }
  }

  /** `clear(color)`: every pixel becomes `color`, one row at a time. */
  method Clear<C>(img: ImageBuffer<C>, color: C)
    requires img.Valid()
    modifies img.buf
    ensures forall y, x :: 0 <= y < img.h && 0 <= x < img.w ==> img.buf[y, x] == color
  {
    var j := 0;
    while j < img.h
      invariant 0 <= j <= img.h
      invariant forall y, x :: 0 <= y < j && 0 <= x < img.w ==> img.buf[y, x] == color
    {
      FillRow(img, j, 0, img.w - 1, color);
      j := j + 1;
    }
  }

  /** (x, y) lies in the closed rectangle `r` (edges included). */
  predicate InBox(r: Rect, x: int, y: int)
  {
    r.left <= x <= r.right && r.top <= y <= r.bottom
  }

  /** (x, y) lies on an edge of the closed rectangle `r`. */
  predicate OnBorder(r: Rect, x: int, y: int)
  {
    InBox(r, x, y) && (x == r.left || x == r.right || y == r.top || y == r.bottom)
  }

  /** The filled branch of `box`: rows `yy1 .. yy2` of the clipped
      rectangle are filled one at a time. */
  method FillBox<C>(img: ImageBuffer<C>, r: Rect, color: C)
    requires img.Valid() && IsNormalized(r)
    requires r.left < img.w && r.right >= 0 && r.top < img.h && r.bottom >= 0
    modifies img.buf
    ensures forall y, x :: 0 <= y < img.h && 0 <= x < img.w ==>
      img.buf[y, x] == if InBox(r, x, y) then color else old(img.buf[y, x])
  {
    var xx1 := Max(r.left, 0);
    var xx2 := Min(r.right, img.w - 1);
    var yy1 := Max(r.top, 0);
    var yy2 := Min(r.bottom, img.h - 1);
    var j := yy1;
    while j <= yy2
      invariant yy1 <= j <= yy2 + 1
      invariant forall y, x :: 0 <= y < img.h && 0 <= x < img.w ==>
        img.buf[y, x] == if yy1 <= y < j && xx1 <= x <= xx2 then color else old(img.buf[y, x])
    {
      FillRow(img, j, xx1, xx2, color);
      j := j + 1;
    }
  }

  /** The outline branch of `box`: the top and bottom edges when they lie
      in the canvas, then the left and right edges row by row. */
  method FrameBox<C>(img: ImageBuffer<C>, r: Rect, color: C)
    requires img.Valid() && IsNormalized(r)
    requires r.left < img.w && r.right >= 0 && r.top < img.h && r.bottom >= 0
    modifies img.buf
    ensures forall y, x :: 0 <= y < img.h && 0 <= x < img.w ==>
      img.buf[y, x] == if OnBorder(r, x, y) then color else old(img.buf[y, x])
  {
    var xx1 := Max(r.left, 0);
    var xx2 := Min(r.right, img.w - 1);
    var yy1 := Max(r.top, 0);
    var yy2 := Min(r.bottom, img.h - 1);
    if r.top >= 0 {
      FillRow(img, r.top, xx1, xx2, color);
    }
    if r.bottom < img.h {
      FillRow(img, r.bottom, xx1, xx2, color);
    }
    var j := yy1;
    while j <= yy2
      invariant yy1 <= j <= yy2 + 1
      invariant forall y, x :: 0 <= y < img.h && 0 <= x < img.w ==>
        img.buf[y, x] == if (xx1 <= x <= xx2 && (y == r.top || y == r.bottom))
                            || (yy1 <= y < j && (x == r.left || x == r.right))
                         then color else old(img.buf[y, x])
    {
      if r.left >= 0 {
        img.buf[j, r.left] := color;
      }
      if r.right < img.w {
        img.buf[j, r.right] := color;
      }
      j := j + 1;
    }
  }

  /** `box(left, top, right, bottom, color, fill)`.  The corners are put in
      order first; then exactly the canvas pixels of the closed rectangle
      (with `fill`) or of its four edges (without) become `color`.  A
      rectangle wholly outside the canvas changes nothing. */
  method Box<C>(img: ImageBuffer<C>, left: int, top: int, right: int, bottom: int, color: C, fill: bool)
    requires img.Valid()
    modifies img.buf
    ensures var r := NormalForm(Rect(left, top, right, bottom));
      forall y, x :: 0 <= y < img.h && 0 <= x < img.w ==>
        img.buf[y, x] == if (if fill then InBox(r, x, y) else OnBorder(r, x, y)) then color else old(img.buf[y, x])
  {
    var left, top, right, bottom := left, top, right, bottom;
    if left > right {
      left, right := right, left;
    }
    if top > bottom {
      top, bottom := bottom, top;
    }
    if left >= img.w || right < 0 || top >= img.h || bottom < 0 {
      return;
    }
    if fill {
      FillBox(img, Rect(left, top, right, bottom), color);
    } else {
      FrameBox(img, Rect(left, top, right, bottom), color);
    }
  }

  /** The outline is part of the filled box, and a box one pixel wide or high
      has no interior, so there outline and fill agree. */
  lemma BorderWithinBox(r: Rect)
    requires IsNormalized(r)
    ensures forall x, y :: OnBorder(r, x, y) ==> InBox(r, x, y)
    ensures Width(r) <= 1 || Height(r) <= 1 ==> forall x, y :: OnBorder(r, x, y) <==> InBox(r, x, y)
    ensures Width(r) >= 2 && Height(r) >= 2 ==> InBox(r, r.left + 1, r.top + 1) && !OnBorder(r, r.left + 1, r.top + 1)
  {
  }
}
