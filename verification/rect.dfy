/** The two rectangle representations: `Rect` by its four edges and
    `AnotherRect` by its top-left corner and extent, with normalisation and the
    conversions between them. */
module Rects {
  import opened Base

  /** `Rect`: left, top, right and bottom edges. */
  datatype Rect = Rect(left: int, top: int, right: int, bottom: int)

  /** `AnotherRect`: (left) x, (top) y, width and height. */
  datatype AnotherRect = AnotherRect(x: int, y: int, width: int, height: int)

  /** `Rect::isNormalized` */
  predicate IsNormalized(r: Rect)
  {
    r.left <= r.right && r.top <= r.bottom
  }

  /** `Rect::width` */
  function Width(r: Rect): (w: int)
    ensures w >= 0 <==> r.left <= r.right
    ensures r.left + w == r.right
  {
    r.right - r.left
  }

  /** `Rect::height` */
  function Height(r: Rect): (h: int)
    ensures h >= 0 <==> r.top <= r.bottom
    ensures r.top + h == r.bottom
  {
    r.bottom - r.top
  }

  /** The rectangle covering the same edges with left <= right and
      top <= bottom: the reference for `Rect::normalize`. */
  function NormalForm(r: Rect): Rect
  {
    Rect(Min(r.left, r.right), Min(r.top, r.bottom), Max(r.left, r.right), Max(r.top, r.bottom))
  }

  /** `Rect::normalize`: swap left/right and then top/bottom when they are out
      of order. */
  method Normalize(r: Rect) returns (n: Rect)
    ensures n == NormalForm(r)
    ensures IsNormalized(n)
    ensures {n.left, n.right} == {r.left, r.right} && {n.top, n.bottom} == {r.top, r.bottom}
    ensures IsNormalized(r) ==> n == r
    ensures Width(n) >= 0 && Height(n) >= 0
  {
    n := r;
    if n.left > n.right {
      n := n.(left := n.right, right := n.left);
    }
    if n.top > n.bottom {
      n := n.(top := n.bottom, bottom := n.top);
    }
  }

  /** Normalising twice is normalising once, and a normalised rectangle is its
      own normal form. */
  lemma NormalFormIdempotent(r: Rect)
    ensures IsNormalized(NormalForm(r))
    ensures NormalForm(NormalForm(r)) == NormalForm(r)
    ensures IsNormalized(r) <==> NormalForm(r) == r
  {
  }

  /** `AnotherRect::operator bool`: a non-negative extent. */
  predicate IsValid(a: AnotherRect)
  {
    a.width >= 0 && a.height >= 0
  }

  /** `AnotherRect(const Rect&)`: the corner is the smaller of each pair of
      edges and the extent reaches the larger. */
  function AnotherOf(r: Rect): (a: AnotherRect)
    ensures IsValid(a)
    ensures a.x == Min(r.left, r.right) && a.y == Min(r.top, r.bottom)
    ensures a.width == Abs(r.right - r.left) && a.height == Abs(r.bottom - r.top)
  {
    var x := Min(r.left, r.right);
    var y := Min(r.top, r.bottom);
    AnotherRect(x, y, Max(r.left, r.right) - x, Max(r.top, r.bottom) - y)
  }

  /** `AnotherRect::operator Rect` */
  function RectOf(a: AnotherRect): (r: Rect)
    ensures IsNormalized(r) <==> IsValid(a)
    ensures Width(r) == a.width && Height(r) == a.height
  {
    Rect(a.x, a.y, a.x + a.width, a.y + a.height)
  }

  /** Converting a `Rect` to `AnotherRect` and back normalises it. */
  lemma RectOfAnotherOf(r: Rect)
    ensures RectOf(AnotherOf(r)) == NormalForm(r)
  {
  }

  /** A valid `AnotherRect` survives the round trip through `Rect`; an
      invalid one does not (its extent becomes non-negative). */
  lemma AnotherOfRectOf(a: AnotherRect)
    ensures IsValid(a) <==> AnotherOf(RectOf(a)) == a
  {
  }
}
