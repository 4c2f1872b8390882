/** `ImageBuffer<C_>::line`: a two-ended Bresenham walk.  Both ends step
    toward each other along the major axis, `(d+1)/2` steps each, and when the
    major extent `d` is even the first end paints the middle pixel as well.

    The pixels painted are characterised without reference to the loop: the
    point `i` major steps from an end is offset on the minor axis by the ideal
    line's offset rounded half up, `(2*minor*i + major) / (2*major)`. */
module Lines {
  import opened Base
  import opened Arith
  import opened ImageBuffers
  import opened Draw

  /** The arguments `x1, y1, x2, y2` of `line`. */
  datatype Segment = Segment(x1: int, y1: int, x2: int, y2: int)

  function Dx(s: Segment): nat { Abs(s.x2 - s.x1) }

  function Dy(s: Segment): nat { Abs(s.y2 - s.y1) }

  /** The walk runs along x when `dx >= dy`. */
  predicate XMajor(s: Segment) { Dx(s) >= Dy(s) }

  function Major(s: Segment): nat { if XMajor(s) then Dx(s) else Dy(s) }

  function Minor(s: Segment): nat { if XMajor(s) then Dy(s) else Dx(s) }

  /** Steps taken from each end: `(dx+1)/2` or `(dy+1)/2`. */
  function Steps(s: Segment): nat { (Major(s) + 1) / 2 }

  /** `a` moved `t` units toward `b`. */
  function Toward(a: int, b: int, t: int): int
  {
    if b >= a then a + t else a - t
  }

  /** Minor-axis offset after `i` major steps: `minor*i/major` rounded half
      up. */
  function Offset(s: Segment, i: int): int
  {
    if Major(s) == 0 then 0 else (2 * Minor(s) * i + Major(s)) / (2 * Major(s))
  }

  /** The `i`-th pixel of the walk from (x1, y1). */
  function Forward(s: Segment, i: int): (int, int)
  {
    if XMajor(s) then (Toward(s.x1, s.x2, i), Toward(s.y1, s.y2, Offset(s, i)))
    else (Toward(s.x1, s.x2, Offset(s, i)), Toward(s.y1, s.y2, i))
  }

  /** The `i`-th pixel of the walk from (x2, y2). */
  function Backward(s: Segment, i: int): (int, int)
  {
    if XMajor(s) then (Toward(s.x2, s.x1, i), Toward(s.y2, s.y1, Offset(s, i)))
    else (Toward(s.x2, s.x1, Offset(s, i)), Toward(s.y2, s.y1, i))
  }

  /** `p` is among the first `n` pixels of either walk. */
  ghost predicate OnHalf(s: Segment, p: (int, int), n: int)
  {
    exists j :: 0 <= j < n && (Forward(s, j) == p || Backward(s, j) == p)
  }

  /** The pixels `line` paints, before clipping to the canvas. */
  ghost predicate OnLine(s: Segment, p: (int, int))
  {
    OnHalf(s, p, Steps(s)) || (Major(s) % 2 == 0 && Forward(s, Steps(s)) == p)
  }

  lemma OnHalfNext(s: Segment, n: nat)
    ensures forall p :: OnHalf(s, p, n + 1) <==> OnHalf(s, p, n) || Forward(s, n) == p || Backward(s, n) == p
  {
    forall p | OnHalf(s, p, n + 1)
      ensures OnHalf(s, p, n) || Forward(s, n) == p || Backward(s, n) == p
    {
      var j :| 0 <= j < n + 1 && (Forward(s, j) == p || Backward(s, j) == p);
      if j < n {
        assert OnHalf(s, p, n);
      }
    }
    assert OnHalf(s, Forward(s, n), n + 1) && OnHalf(s, Backward(s, n), n + 1) by {
      assert 0 <= n < n + 1;
    }
  }

  lemma OffsetRange(s: Segment, i: int)
    requires 0 <= i <= Major(s)
    ensures 0 <= Offset(s, i) <= Minor(s)
  {
    if Major(s) > 0 {
      var M, m := Major(s), Minor(s);
      MulNonNeg(m, i);
      MulNonNeg(m, M - i);
      assert m * i <= m * M;
      assert 2 * M * (m + 1) == 2 * M * m + 2 * M;
      DivLess(2 * m * i + M, 2 * M, m + 1);
    }
  }

  lemma OffsetZero(s: Segment)
    ensures Offset(s, 0) == 0
  {
    if Major(s) > 0 {
      DivUnique(Major(s), 2 * Major(s), 0);
    }
  }

  /** A walk pixel `i <= Major` steps from an end lies in the bounding box
      of the two ends. */
  lemma WalkInBox(s: Segment, i: int)
    requires 0 <= i <= Major(s)
    ensures var p := Forward(s, i);
      Min(s.x1, s.x2) <= p.0 <= Max(s.x1, s.x2) && Min(s.y1, s.y2) <= p.1 <= Max(s.y1, s.y2)
    ensures var p := Backward(s, i);
      Min(s.x1, s.x2) <= p.0 <= Max(s.x1, s.x2) && Min(s.y1, s.y2) <= p.1 <= Max(s.y1, s.y2)
  {
    OffsetRange(s, i);
  }

  /** Every painted pixel lies in the bounding box of the two ends. */
  lemma LineInBox(s: Segment, p: (int, int))
    requires OnLine(s, p)
    ensures Min(s.x1, s.x2) <= p.0 <= Max(s.x1, s.x2) && Min(s.y1, s.y2) <= p.1 <= Max(s.y1, s.y2)
  {
    if OnHalf(s, p, Steps(s)) {
      var j :| 0 <= j < Steps(s) && (Forward(s, j) == p || Backward(s, j) == p);
      WalkInBox(s, j);
    } else {
      if Major(s) == 0 {
        assert p == Forward(s, 0);
      }
      WalkInBox(s, Steps(s));
    }
  }

  /** Both ends are painted. */
  lemma LineEnds(s: Segment)
    ensures OnLine(s, (s.x1, s.y1)) && OnLine(s, (s.x2, s.y2))
  {
    OffsetZero(s);
    if Major(s) > 0 {
      assert Forward(s, 0) == (s.x1, s.y1) && Backward(s, 0) == (s.x2, s.y2);
      assert OnHalf(s, (s.x1, s.y1), Steps(s));
      assert OnHalf(s, (s.x2, s.y2), Steps(s));
    } else {
      assert Forward(s, Steps(s)) == (s.x1, s.y1) == (s.x2, s.y2);
    }
  }

  /** Every position `t` along the major axis between the ends (0 at the
      first end, `Major` at the second) gets a painted pixel: the line has no
      gaps along its major axis. */
  lemma LineCoversMajorAxis(s: Segment, t: int)
    requires 0 <= t <= Major(s)
    ensures exists p :: (OnLine(s, p) &&
      if XMajor(s) then p.0 == Toward(s.x1, s.x2, t) else p.1 == Toward(s.y1, s.y2, t))
  {
    var M := Major(s);
    if t < Steps(s) {
      var p := Forward(s, t);
      assert OnHalf(s, p, Steps(s));
      assert OnLine(s, p);
    } else if M - t < Steps(s) {
      var p := Backward(s, M - t);
      assert OnHalf(s, p, Steps(s));
      assert OnLine(s, p);
    } else {
      var p := Forward(s, t);
      assert OnLine(s, p);
    }
  }

  /** A horizontal segment paints exactly its row between the ends. */
  lemma HorizontalLine(s: Segment)
    requires s.y1 == s.y2
    ensures forall p :: OnLine(s, p) <==> p.1 == s.y1 && Min(s.x1, s.x2) <= p.0 <= Max(s.x1, s.x2)
  {
    forall p | OnLine(s, p)
      ensures p.1 == s.y1 && Min(s.x1, s.x2) <= p.0 <= Max(s.x1, s.x2)
    {
      LineInBox(s, p);
    }
    forall p: (int, int) | p.1 == s.y1 && Min(s.x1, s.x2) <= p.0 <= Max(s.x1, s.x2)
      ensures OnLine(s, p)
    {
      var t := Abs(p.0 - s.x1);
      LineCoversMajorAxis(s, t);
      var q :| OnLine(s, q) && q.0 == Toward(s.x1, s.x2, t);
      LineInBox(s, q);
      assert q == p;
    }
  }

  /** A vertical segment paints exactly its column between the ends. */
  lemma VerticalLine(s: Segment)
    requires s.x1 == s.x2 && s.y1 != s.y2
    ensures forall p :: OnLine(s, p) <==> p.0 == s.x1 && Min(s.y1, s.y2) <= p.1 <= Max(s.y1, s.y2)
  {
    forall p | OnLine(s, p)
      ensures p.0 == s.x1 && Min(s.y1, s.y2) <= p.1 <= Max(s.y1, s.y2)
    {
      LineInBox(s, p);
    }
    forall p: (int, int) | p.0 == s.x1 && Min(s.y1, s.y2) <= p.1 <= Max(s.y1, s.y2)
      ensures OnLine(s, p)
    {
      var t := Abs(p.1 - s.y1);
      LineCoversMajorAxis(s, t);
      var q :| OnLine(s, q) && q.1 == Toward(s.y1, s.y2, t);
      LineInBox(s, q);
      assert q == p;
    }
  }

  /** The walk is not symmetric in its ends: for an even major extent the
      middle pixel comes from the first end's walk. */
  lemma LineNotSymmetric()
    ensures OnLine(Segment(0, 0, 2, 1), (1, 1)) && !OnLine(Segment(0, 0, 2, 1), (1, 0))
    ensures OnLine(Segment(2, 1, 0, 0), (1, 0)) && !OnLine(Segment(2, 1, 0, 0), (1, 1))
  {
    var s, r := Segment(0, 0, 2, 1), Segment(2, 1, 0, 0);
    assert Steps(s) == 1 && Steps(r) == 1;
    OffsetZero(s);
    OffsetZero(r);
    assert Offset(s, 1) == 1 && Offset(r, 1) == 1;
    assert Forward(s, 0) == (0, 0) && Backward(s, 0) == (2, 1) && Forward(s, 1) == (1, 1);
    assert Forward(r, 0) == (2, 1) && Backward(r, 0) == (0, 0) && Forward(r, 1) == (1, 0);
  }

  /** `line(x1, y1, x2, y2, color)`: exactly the pixels of the walk that lie in
      the canvas become `color`; the rest of the image is unchanged.  A
      segment with both ends beyond one edge of the canvas is rejected up
      front, which changes nothing because the walk stays in the segment's
      bounding box. */
  method Line<C>(img: ImageBuffer<C>, x1: int, y1: int, x2: int, y2: int, color: C)
    requires img.Valid()
    modifies img.buf
    ensures forall y, x :: 0 <= y < img.h && 0 <= x < img.w ==>
      img.buf[y, x] == if OnLine(Segment(x1, y1, x2, y2), (x, y)) then color else old(img.buf[y, x])
  {
    var s := Segment(x1, y1, x2, y2);
    if (x1 < 0 && x2 < 0) || (x1 >= img.w && x2 >= img.w) || (y1 < 0 && y2 < 0) || (y1 >= img.h && y2 >= img.h) {
      forall y, x | 0 <= y < img.h && 0 <= x < img.w
        ensures !OnLine(s, (x, y))
      {
        if OnLine(s, (x, y)) {
          LineInBox(s, (x, y));
        }
      }
      return;
    }

    var dx, dy := x2 - x1, y2 - y1;
    var sx, sy := 0, 0;
    if dx < 0 {
      sx, dx := -1, -dx;
    } else if dx > 0 {
      sx := 1;
    }
    if dy < 0 {
      sy, dy := -1, -dy;
    } else if dy > 0 {
      sy := 1;
    }

    if dy == 0 {
      HorizontalLine(s);
      if 0 <= y1 < img.h {
        var left := Max(0, Min(x1, x2));
        var right := Min(img.w - 1, Max(x1, x2));
        FillRow(img, y1, left, right, color);
      }
    } else if dx == 0 {
      VerticalLine(s);
      if 0 <= x1 < img.w {
        var top := Max(0, Min(y1, y2));
        var bottom := Min(img.h - 1, Max(y1, y2));
        FillColumn(img, x1, top, bottom, color);
      }
    } else if dx >= dy {
      WalkAlongX(img, s, sx, sy, dx, dy, color);
    } else {
      WalkAlongY(img, s, sx, sy, dx, dy, color);
    }
  }

  /** One step of the error term: adding `2*minor` and, once it reaches zero,
      subtracting `2*major` keeps it in [-2*major, 0) and keeps the minor
      position equal to the rounded ideal offset. */
  lemma ErrorStep(M: int, m: int, i: int, k: int, e: int)
    requires 0 < m <= M && e == -M + 2 * m * i - 2 * M * k && -2 * M <= e < 0
    ensures e + 2 * m >= 0 ==>
      e + 2 * m - 2 * M == -M + 2 * m * (i + 1) - 2 * M * (k + 1) && -2 * M <= e + 2 * m - 2 * M < 0
      && (2 * m * (i + 1) + M) / (2 * M) == k + 1
    ensures e + 2 * m < 0 ==>
      e + 2 * m == -M + 2 * m * (i + 1) - 2 * M * k && -2 * M <= e + 2 * m
      && (2 * m * (i + 1) + M) / (2 * M) == k
  {
    assert 2 * m * (i + 1) == 2 * m * i + 2 * m;
    assert 2 * M * (k + 1) == 2 * M * k + 2 * M;
    assert 2 * M * (k + 2) == 2 * M * k + 4 * M;
    if e + 2 * m >= 0 {
      DivUnique(2 * m * (i + 1) + M, 2 * M, k + 1);
    } else {
      DivUnique(2 * m * (i + 1) + M, 2 * M, k);
    }
  }

  /** The `dx >= dy` branch: x advances every step, y when the error term
      reaches zero. */
  method WalkAlongX<C>(img: ImageBuffer<C>, s: Segment, sx: int, sy: int, dx: int, dy: int, color: C)
    requires img.Valid()
    requires dx == Dx(s) && dy == Dy(s) && 0 < dy <= dx
    requires sx == (if s.x2 > s.x1 then 1 else -1) && sy == (if s.y2 > s.y1 then 1 else -1)
    modifies img.buf
    ensures forall y, x :: 0 <= y < img.h && 0 <= x < img.w ==>
      img.buf[y, x] == if OnLine(s, (x, y)) then color else old(img.buf[y, x])
  {
    var e := -dx;
    var lx := (dx + 1) / 2;
    var xx1, yy1, xx2, yy2 := s.x1, s.y1, s.x2, s.y2;
    ghost var k := 0;
    OffsetZero(s);
    var i := 0;
    while i < lx
      invariant 0 <= i <= lx && lx == Steps(s) && XMajor(s) && Major(s) == dx && Minor(s) == dy
      invariant (xx1, yy1) == Forward(s, i) && (xx2, yy2) == Backward(s, i)
      invariant yy1 == Toward(s.y1, s.y2, k) && yy2 == Toward(s.y2, s.y1, k)
      invariant e == -dx + 2 * dy * i - 2 * dx * k && -2 * dx <= e < 0
      invariant k == Offset(s, i)
      invariant forall y, x :: 0 <= y < img.h && 0 <= x < img.w ==>
        img.buf[y, x] == if OnHalf(s, (x, y), i) then color else old(img.buf[y, x])
    {
      Plot(img, xx1, yy1, color);
      Plot(img, xx2, yy2, color);
      OnHalfNext(s, i);
      ErrorStep(dx, dy, i, k, e);
      xx1, xx2 := xx1 + sx, xx2 - sx;
      e := e + 2 * dy;
      if e >= 0 {
        if sy > 0 {
          yy1, yy2 := yy1 + 1, yy2 - 1;
        } else if sy < 0 {
          yy1, yy2 := yy1 - 1, yy2 + 1;
        }
        e := e - 2 * dx;
        k := k + 1;
      }
      i := i + 1;
    }
    if dx % 2 == 0 {
      Plot(img, xx1, yy1, color);
    }
  }

  /** The `dx < dy` branch: y advances every step, x when the error term
      reaches zero. */
  method WalkAlongY<C>(img: ImageBuffer<C>, s: Segment, sx: int, sy: int, dx: int, dy: int, color: C)
    requires img.Valid()
    requires dx == Dx(s) && dy == Dy(s) && 0 < dx < dy
    requires sx == (if s.x2 > s.x1 then 1 else -1) && sy == (if s.y2 > s.y1 then 1 else -1)
    modifies img.buf
    ensures forall y, x :: 0 <= y < img.h && 0 <= x < img.w ==>
      img.buf[y, x] == if OnLine(s, (x, y)) then color else old(img.buf[y, x])
  {
    var e := -dy;
    var ly := (dy + 1) / 2;
    var xx1, yy1, xx2, yy2 := s.x1, s.y1, s.x2, s.y2;
    ghost var k := 0;
    OffsetZero(s);
    var i := 0;
    while i < ly
      invariant 0 <= i <= ly && ly == Steps(s) && !XMajor(s) && Major(s) == dy && Minor(s) == dx
      invariant (xx1, yy1) == Forward(s, i) && (xx2, yy2) == Backward(s, i)
      invariant xx1 == Toward(s.x1, s.x2, k) && xx2 == Toward(s.x2, s.x1, k)
      invariant e == -dy + 2 * dx * i - 2 * dy * k && -2 * dy <= e < 0
      invariant k == Offset(s, i)
      invariant forall y, x :: 0 <= y < img.h && 0 <= x < img.w ==>
        img.buf[y, x] == if OnHalf(s, (x, y), i) then color else old(img.buf[y, x])
    {
      Plot(img, xx1, yy1, color);
      Plot(img, xx2, yy2, color);
      OnHalfNext(s, i);
      ErrorStep(dy, dx, i, k, e);
      if sy > 0 {
        yy1, yy2 := yy1 + 1, yy2 - 1;
      } else if sy < 0 {
        yy1, yy2 := yy1 - 1, yy2 + 1;
      }
      e := e + 2 * dx;
      if e >= 0 {
        xx1, xx2 := xx1 + sx, xx2 - sx;
        e := e - 2 * dy;
        k := k + 1;
      }
      i := i + 1;
      assert yy1 == Toward(s.y1, s.y2, i) && yy2 == Toward(s.y2, s.y1, i);
      assert k == Offset(s, i);
    }
    if dy % 2 == 0 {
      Plot(img, xx1, yy1, color);
    }
  }
}
