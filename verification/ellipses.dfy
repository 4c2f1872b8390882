/** `ImageBuffer<C_>::ellipse` and `circle`: Michener's midpoint walk.  The
    walk runs `p` up from 0 and `q` down from the longer radius while
    `p <= q`; each step scales one of `p`, `q` by the radius ratio and paints
    two arcs of four symmetric points (or four row spans when filling):
    points 1, 2, 7, 8 at (x -+ dx1, y -+ dy1) and 3, 4, 5, 6 at
    (x -+ dx2, y -+ dy2). */
module Ellipses {
  import opened Base
  import opened Arith
  import opened ImageBuffers
  import opened Draw

  /** The offsets of the two arcs painted in one step. */
  datatype Arcs = Arcs(dx1: int, dy1: int, dx2: int, dy2: int)

  /** The step's offsets for radii `a`, `b` (both positive): the shorter
      radius' direction is scaled by `a/b` or `b/a`. */
  function Deltas(a: int, b: int, p: int, q: int): Arcs
    requires a > 0 && b > 0
  {
    if a < b then Arcs(p * a / b, q, q * a / b, p)
    else Arcs(p, q * b / a, q, p * b / a)
  }

  /** The walk's successor state: the decision term `e` picks whether `q`
      moves inward. */
  function Next(p: int, q: int, e: int): (int, int, int)
  {
    if e < 0 then (p + 1, q, e + p * 4 + 6)
    else (p + 1, q - 1, e + (p - q) * 4 + 10)
  }

  /** The (p, q) pairs the walk visits from state (p, q, e). */
  function Trace(p: int, q: int, e: int): (t: seq<(int, int)>)
    ensures forall k :: 0 <= k < |t| ==> p <= t[k].0 <= t[k].1 <= q
    ensures forall k :: 0 <= k < |t| ==> t[k].0 == p + k
    ensures p <= q ==> |t| > 0 && t[0] == (p, q)
    decreases q - p + 1
  {
    if p > q then []
    else
      var (p', q', e') := Next(p, q, e);
      [(p, q)] + Trace(p', q', e')
  }

  /** The walk for radii `a`, `b`: it starts at p = 0 on the longer radius. */
  function TraceOf(a: int, b: int): seq<(int, int)>
  {
    var r := Max(a, b);
    Trace(0, r, 2 - 3 * r)
  }

  /** (px, py) is one of the four points (x -+ dx, y -+ dy), or, when
      filling, on one of the two spans between them. */
  predicate OnQuad(x: int, y: int, dx: int, dy: int, fill: bool, px: int, py: int)
  {
    (py == y - dy || py == y + dy)
    && (if fill then x - dx <= px <= x + dx else px == x - dx || px == x + dx)
  }

  predicate OnArcs(x: int, y: int, d: Arcs, fill: bool, px: int, py: int)
  {
    OnQuad(x, y, d.dx1, d.dy1, fill, px, py) || OnQuad(x, y, d.dx2, d.dy2, fill, px, py)
  }

  /** (px, py) is painted by one of the first `n` steps of walk `t`. */
  ghost predicate PaintedBy(x: int, y: int, a: int, b: int, fill: bool, t: seq<(int, int)>, n: int, px: int, py: int)
    requires a > 0 && b > 0 && n <= |t|
  {
    exists k :: 0 <= k < n && OnArcs(x, y, Deltas(a, b, t[k].0, t[k].1), fill, px, py)
  }

  /** The pixels `ellipse(x, y, a, b, color, fill)` paints, before clipping to
      the canvas.  Zero radii paint nothing; negative radii count as their
      absolute values. */
  ghost predicate OnEllipse(x: int, y: int, a: int, b: int, fill: bool, px: int, py: int)
  {
    a != 0 && b != 0 &&
    var t := TraceOf(Abs(a), Abs(b));
    PaintedBy(x, y, Abs(a), Abs(b), fill, t, |t|, px, py)
  }

  lemma PaintedByNext(x: int, y: int, a: int, b: int, fill: bool, t: seq<(int, int)>, n: nat)
    requires a > 0 && b > 0 && n < |t|
    ensures forall px, py :: PaintedBy(x, y, a, b, fill, t, n + 1, px, py) <==>
      PaintedBy(x, y, a, b, fill, t, n, px, py) || OnArcs(x, y, Deltas(a, b, t[n].0, t[n].1), fill, px, py)
  {
    forall px, py | PaintedBy(x, y, a, b, fill, t, n + 1, px, py)
      ensures PaintedBy(x, y, a, b, fill, t, n, px, py) || OnArcs(x, y, Deltas(a, b, t[n].0, t[n].1), fill, px, py)
    {
      var k :| 0 <= k < n + 1 && OnArcs(x, y, Deltas(a, b, t[k].0, t[k].1), fill, px, py);
      if k < n {
        assert PaintedBy(x, y, a, b, fill, t, n, px, py);
      }
    }
  }

  /** Where the rest of a walk starts at `(p, q)`, the step taken there is
      its next pair and the walk goes on from the successor state. */
  lemma TraceStep(t: seq<(int, int)>, n: int, p: int, q: int, e: int)
    requires 0 <= n <= |t| && t[n..] == Trace(p, q, e) && p <= q
    ensures n < |t| && t[n] == (p, q)
    ensures forall p', q', e' :: (p', q', e') == Next(p, q, e) ==> t[n + 1..] == Trace(p', q', e')
  {
    assert t[n..][1..] == t[n + 1..];
  }

  /** Paints one quadruple of symmetric points, or the two spans between
      them, clipped to the canvas. */
  method PaintQuad<C>(img: ImageBuffer<C>, x: int, y: int, dx: int, dy: int, color: C, fill: bool)
    requires img.Valid() && 0 <= dx && 0 <= dy
    modifies img.buf
    ensures forall j, i :: 0 <= j < img.h && 0 <= i < img.w ==>
      img.buf[j, i] == if OnQuad(x, y, dx, dy, fill, i, j) then color else old(img.buf[j, i])
  {
    if x - dx < img.w && x + dx >= 0 && y - dy < img.h && y + dy >= 0 {
      if fill {
        var left := Max(x - dx, 0);
        var right := Min(x + dx, img.w - 1);
        if y - dy >= 0 {
          FillRow(img, y - dy, left, right, color);
        }
        if y + dy < img.h {
          FillRow(img, y + dy, left, right, color);
        }
      } else {
        if y - dy >= 0 {
          if x - dx >= 0 {
            img.buf[y - dy, x - dx] := color;
          }
          if x + dx < img.w {
            img.buf[y - dy, x + dx] := color;
          }
        }
        if y + dy < img.h {
          if x - dx >= 0 {
            img.buf[y + dy, x - dx] := color;
          }
          if x + dx < img.w {
            img.buf[y + dy, x + dx] := color;
          }
        }
      }
    }
  }

  lemma DeltasNonNegative(a: int, b: int, p: int, q: int)
    requires a > 0 && b > 0 && 0 <= p && 0 <= q
    ensures var d := Deltas(a, b, p, q); 0 <= d.dx1 && 0 <= d.dy1 && 0 <= d.dx2 && 0 <= d.dy2
  {
    if a < b {
      MulNonNeg(p, a);
      MulNonNeg(q, a);
      DivMonotone(0, p * a, b);
      DivMonotone(0, q * a, b);
    } else {
      MulNonNeg(p, b);
      MulNonNeg(q, b);
      DivMonotone(0, q * b, a);
      DivMonotone(0, p * b, a);
    }
  }

  /** One step of the walk at `(p, q)`: both groups of four points (or
      spans) are painted. */
  method PaintStep<C>(img: ImageBuffer<C>, x: int, y: int, a: int, b: int, p: int, q: int, color: C, fill: bool)
    requires img.Valid() && a > 0 && b > 0 && 0 <= p && 0 <= q
    modifies img.buf
    ensures forall j, i :: 0 <= j < img.h && 0 <= i < img.w ==>
      img.buf[j, i] == if OnArcs(x, y, Deltas(a, b, p, q), fill, i, j) then color else old(img.buf[j, i])
  {
    // the offset along the shorter radius is scaled by the radius ratio
    var d := Deltas(a, b, p, q);
    DeltasNonNegative(a, b, p, q);
    PaintQuad(img, x, y, d.dx1, d.dy1, color, fill);   // points 1, 2, 7, 8
    PaintQuad(img, x, y, d.dx2, d.dy2, color, fill);   // points 3, 4, 5, 6
  }

  /** Step `n` of walk `t` paints its arcs over the pixels the steps before
      it painted on the canvas `orig`. */
  method WalkStep<C>(img: ImageBuffer<C>, x: int, y: int, a: int, b: int, p: int, q: int, e: int, color: C, fill: bool,
                     ghost t: seq<(int, int)>, ghost n: nat, ghost orig: seq<seq<C>>)
      returns (p': int, q': int, e': int)
    requires img.Valid() && a > 0 && b > 0 && 0 <= p <= q
    requires n <= |t| && t[n..] == Trace(p, q, e)
    requires |orig| == img.h && forall j :: 0 <= j < img.h ==> |orig[j]| == img.w
    requires forall j, i :: 0 <= j < img.h && 0 <= i < img.w ==>
      img.buf[j, i] == if PaintedBy(x, y, a, b, fill, t, n, i, j) then color else orig[j][i]
    modifies img.buf
    ensures p' == p + 1 && q' <= q && n < |t| && t[n + 1..] == Trace(p', q', e')
    ensures forall j, i :: 0 <= j < img.h && 0 <= i < img.w ==>
      img.buf[j, i] == if PaintedBy(x, y, a, b, fill, t, n + 1, i, j) then color else orig[j][i]
  {
    TraceStep(t, n, p, q, e);
    PaintStep(img, x, y, a, b, p, q, color, fill);
    PaintedByNext(x, y, a, b, fill, t, n);
    p', q', e' := p, q, e;
    if e' < 0 {
      e' := e' + p' * 4 + 6;
    } else {
      e' := e' + (p' - q') * 4 + 10;
      q' := q' - 1;
    }
    p' := p' + 1;
    assert (p', q', e') == Next(p, q, e);
  }

  /** The walk for positive radii `a` and `b`, painting over the canvas
      `orig`. */
  method Walk<C>(img: ImageBuffer<C>, x: int, y: int, a: int, b: int, color: C, fill: bool, ghost orig: seq<seq<C>>)
    requires img.Valid() && a > 0 && b > 0
    requires |orig| == img.h && forall j :: 0 <= j < img.h ==> |orig[j]| == img.w
    requires forall j, i :: 0 <= j < img.h && 0 <= i < img.w ==> img.buf[j, i] == orig[j][i]
    modifies img.buf
    ensures forall j, i :: 0 <= j < img.h && 0 <= i < img.w ==>
      img.buf[j, i] == if PaintedBy(x, y, a, b, fill, TraceOf(a, b), |TraceOf(a, b)|, i, j) then color else orig[j][i]
  {
    var p := 0;
    var q: int, e: int;
    if a < b {
      e := 2 - 3 * b;
      q := b;
    } else {
      e := 2 - 3 * a;
      q := a;
    }
    ghost var t := TraceOf(a, b);
    ghost var n := 0;
    while p <= q
      invariant 0 <= n <= |t| && t[n..] == Trace(p, q, e) && p == n
      invariant forall j, i :: 0 <= j < img.h && 0 <= i < img.w ==>
        img.buf[j, i] == if PaintedBy(x, y, a, b, fill, t, n, i, j) then color else orig[j][i]
      decreases q - p + 1
    {
      p, q, e := WalkStep(img, x, y, a, b, p, q, e, color, fill, t, n, orig);
      n := n + 1;
    }
  }

  /** `ellipse(x, y, a, b, color, fill)`: exactly the canvas pixels of the
      walk's arcs become `color`; the rest of the image is unchanged.  The
      walk ends because `p` rises by one each step and `q` never rises.

      Point 6 is written only when `x + dx2 < w`; see `Point6AsWritten` for
      the guard the code actually tests. */
  method Ellipse<C>(img: ImageBuffer<C>, x: int, y: int, a: int, b: int, color: C, fill: bool)
    requires img.Valid()
    modifies img.buf
    ensures forall j, i :: 0 <= j < img.h && 0 <= i < img.w ==>
      img.buf[j, i] == if OnEllipse(x, y, a, b, fill, i, j) then color else old(img.buf[j, i])
  {
    if a == 0 || b == 0 {
      return;
    }
    Walk(img, x, y, Abs(a), Abs(b), color, fill, img.Rows());
  }

  /** `circle(x, y, r, color, fill)` is `ellipse(x, y, r, r, color, fill)`. */
  method Circle<C>(img: ImageBuffer<C>, x: int, y: int, r: int, color: C, fill: bool)
    requires img.Valid()
    modifies img.buf
    ensures forall j, i :: 0 <= j < img.h && 0 <= i < img.w ==>
      img.buf[j, i] == if OnEllipse(x, y, r, r, fill, i, j) then color else old(img.buf[j, i])
  {
    Ellipse(img, x, y, r, r, color, fill);
  }

  /** One step's arcs are symmetric about the centre's column and row. */
  lemma ArcsSymmetric(x: int, y: int, d: Arcs, fill: bool, px: int, py: int)
    ensures OnArcs(x, y, d, fill, px, py) <==> OnArcs(x, y, d, fill, 2 * x - px, py)
    ensures OnArcs(x, y, d, fill, px, py) <==> OnArcs(x, y, d, fill, px, 2 * y - py)
  {
  }

  /** The painted set is symmetric about the centre's column. */
  lemma EllipseMirrorX(x: int, y: int, a: int, b: int, fill: bool, px: int, py: int)
    ensures OnEllipse(x, y, a, b, fill, px, py) <==> OnEllipse(x, y, a, b, fill, 2 * x - px, py)
  {
    if a != 0 && b != 0 {
      var A, B := Abs(a), Abs(b);
      var t := TraceOf(A, B);
      if PaintedBy(x, y, A, B, fill, t, |t|, px, py) {
        var k :| 0 <= k < |t| && OnArcs(x, y, Deltas(A, B, t[k].0, t[k].1), fill, px, py);
        ArcsSymmetric(x, y, Deltas(A, B, t[k].0, t[k].1), fill, px, py);
      }
      if PaintedBy(x, y, A, B, fill, t, |t|, 2 * x - px, py) {
        var k :| 0 <= k < |t| && OnArcs(x, y, Deltas(A, B, t[k].0, t[k].1), fill, 2 * x - px, py);
        ArcsSymmetric(x, y, Deltas(A, B, t[k].0, t[k].1), fill, px, py);
      }
    }
  }

  /** The painted set is symmetric about the centre's row. */
  lemma EllipseMirrorY(x: int, y: int, a: int, b: int, fill: bool, px: int, py: int)
    ensures OnEllipse(x, y, a, b, fill, px, py) <==> OnEllipse(x, y, a, b, fill, px, 2 * y - py)
  {
    if a != 0 && b != 0 {
      var A, B := Abs(a), Abs(b);
      var t := TraceOf(A, B);
      if PaintedBy(x, y, A, B, fill, t, |t|, px, py) {
        var k :| 0 <= k < |t| && OnArcs(x, y, Deltas(A, B, t[k].0, t[k].1), fill, px, py);
        ArcsSymmetric(x, y, Deltas(A, B, t[k].0, t[k].1), fill, px, py);
      }
      if PaintedBy(x, y, A, B, fill, t, |t|, px, 2 * y - py) {
        var k :| 0 <= k < |t| && OnArcs(x, y, Deltas(A, B, t[k].0, t[k].1), fill, px, 2 * y - py);
        ArcsSymmetric(x, y, Deltas(A, B, t[k].0, t[k].1), fill, px, py);
      }
    }
  }

  /** The four ends of the axes, (x -+ |a|, y) and (x, y -+ |b|), are painted
      (the first step of the walk). */
  lemma EllipseVertices(x: int, y: int, a: int, b: int, fill: bool)
    requires a != 0 && b != 0
    ensures OnEllipse(x, y, a, b, fill, x - Abs(a), y) && OnEllipse(x, y, a, b, fill, x + Abs(a), y)
    ensures OnEllipse(x, y, a, b, fill, x, y - Abs(b)) && OnEllipse(x, y, a, b, fill, x, y + Abs(b))
  {
    var A, B := Abs(a), Abs(b);
    var t := TraceOf(A, B);
    assert t[0] == (0, Max(A, B));
    var d := Deltas(A, B, 0, Max(A, B));
    if A < B {
      DivUnique(B * A, B, A);
      assert d == Arcs(0, B, A, 0);
    } else {
      DivUnique(A * B, A, B);
      assert d == Arcs(0, B, A, 0);
    }
    assert OnArcs(x, y, d, fill, x - A, y) && OnArcs(x, y, d, fill, x + A, y);
    assert OnArcs(x, y, d, fill, x, y - B) && OnArcs(x, y, d, fill, x, y + B);
  }

  lemma DeltasBounded(a: int, b: int, p: int, q: int)
    requires a > 0 && b > 0 && 0 <= p <= q <= Max(a, b)
    ensures var d := Deltas(a, b, p, q);
      0 <= d.dx1 <= a && 0 <= d.dx2 <= a && 0 <= d.dy1 <= b && 0 <= d.dy2 <= b
  {
    DeltasNonNegative(a, b, p, q);
    if a < b {
      MulMonotone(p, b, a);
      MulMonotone(q, b, a);
      DivMonotone(p * a, b * a, b);
      DivMonotone(q * a, b * a, b);
      DivUnique(b * a, b, a);
    } else {
      MulMonotone(p, a, b);
      MulMonotone(q, a, b);
      DivMonotone(p * b, a * b, a);
      DivMonotone(q * b, a * b, a);
      DivUnique(a * b, a, b);
    }
  }

  /** Every painted pixel lies in the ellipse's bounding box
      [x - |a|, x + |a|] x [y - |b|, y + |b|]. */
  lemma EllipseInBox(x: int, y: int, a: int, b: int, fill: bool, px: int, py: int)
    requires OnEllipse(x, y, a, b, fill, px, py)
    ensures x - Abs(a) <= px <= x + Abs(a) && y - Abs(b) <= py <= y + Abs(b)
  {
    var A, B := Abs(a), Abs(b);
    var t := TraceOf(A, B);
    var k :| 0 <= k < |t| && OnArcs(x, y, Deltas(A, B, t[k].0, t[k].1), fill, px, py);
    DeltasBounded(A, B, t[k].0, t[k].1);
  }

  /** A circle is also symmetric about its diagonals: (x + u, y + v) is
      painted exactly when (x + v, y + u) is. */
  lemma CircleDiagonal(x: int, y: int, r: int, u: int, v: int)
    ensures OnEllipse(x, y, r, r, false, x + u, y + v) <==> OnEllipse(x, y, r, r, false, x + v, y + u)
  {
    if r != 0 {
      var R := Abs(r);
      var t := TraceOf(R, R);
      forall k | 0 <= k < |t|
        ensures Deltas(R, R, t[k].0, t[k].1) == Arcs(t[k].0, t[k].1, t[k].1, t[k].0)
      {
        DivUnique(t[k].1 * R, R, t[k].1);
        DivUnique(t[k].0 * R, R, t[k].0);
      }
      if PaintedBy(x, y, R, R, false, t, |t|, x + u, y + v) {
        var k :| 0 <= k < |t| && OnArcs(x, y, Deltas(R, R, t[k].0, t[k].1), false, x + u, y + v);
        assert OnArcs(x, y, Deltas(R, R, t[k].0, t[k].1), false, x + v, y + u);
      }
      if PaintedBy(x, y, R, R, false, t, |t|, x + v, y + u) {
        var k :| 0 <= k < |t| && OnArcs(x, y, Deltas(R, R, t[k].0, t[k].1), false, x + v, y + u);
        assert OnArcs(x, y, Deltas(R, R, t[k].0, t[k].1), false, x + u, y + v);
      }
    }
  }

  /** The column point 6 (x + dx2, y + dy2) is written at, AS WRITTEN: the
      guard tests `x + dx1 < w` instead of `x + dx2 < w`.  `None` means the
      guard rejects the write. */
  function Point6AsWritten(w: int, x: int, d: Arcs): (col: Option<int>)
    ensures col.Some? <==> x + d.dx1 < w
  {
    if x + d.dx1 < w then Some(x + d.dx2) else None
  }

  /** With the guard as written, `ellipse(9, 5, 3, 3)` on a 10-pixel-wide
      image writes point 6 of its first step at column 12, outside the row
      (in the byte buffer, into the next row or past the end).  The corrected
      guard used by `PaintQuad` rejects that write. */
  lemma Point6OutOfCanvas()
    ensures TraceOf(3, 3)[0] == (0, 3) && Deltas(3, 3, 0, 3) == Arcs(0, 3, 3, 0)
    ensures Point6AsWritten(10, 9, Deltas(3, 3, 0, 3)) == Some(12) && 12 >= 10
    ensures !(9 + Deltas(3, 3, 0, 3).dx2 < 10)
  {
  }
}
