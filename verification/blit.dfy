/** `ImageBuffer<C_>::blt`: transfer a rectangle of a source image onto this
    image through a per-pixel copier, after `Clipper_` has fitted the request
    into both images and the optional clip rectangle. */
module Blit {
  import opened Base
  import opened Rects
  import opened ImageBuffers
  import opened Clipping

  /** Destination pixel (x, y) lies in the clipped destination rectangle. */
  predicate InBox(c: ClipBox, x: int, y: int)
  {
    c.dx <= x < c.dx + c.w && c.dy <= y < c.dy + c.h
  }

  /** `dst.blt(src, sx, sy, w, h, dx, dy, cliprect, copier)`.  When the
      clipper reports no overlap nothing changes; otherwise each destination
      pixel of the clipped box becomes `copier(source pixel, old destination
      pixel)` for the source pixel at the same offset, and every other
      destination pixel is unchanged.  The source is only read. */
  method Blt<CS, C>(dst: ImageBuffer<C>, src: ImageBuffer<CS>, sx: int, sy: int, w: int, h: int,
                    dx: int, dy: int, cliprect: Option<Rect>, copier: (CS, C) -> C)
    requires dst.Valid() && src.Valid()
    requires src.buf as object != dst.buf
    modifies dst.buf
    ensures var r := Clip(sx, sy, src.w, src.h, w, h, dx, dy, dst.w, dst.h, cliprect);
      forall y, x :: 0 <= y < dst.h && 0 <= x < dst.w ==>
        dst.buf[y, x] == if r.Some? && InBox(r.value, x, y)
                         then copier(src.buf[y - r.value.dy + r.value.sy, x - r.value.dx + r.value.sx], old(dst.buf[y, x]))
                         else old(dst.buf[y, x])
  {
    var r := Clip(sx, sy, src.w, src.h, w, h, dx, dy, dst.w, dst.h, cliprect);
    if r.Some? {
      var c := r.value;
      var j := 0;
      while j < c.h
        invariant 0 <= j <= c.h
        invariant forall y, x :: 0 <= y < dst.h && 0 <= x < dst.w ==>
          dst.buf[y, x] == if InBox(c, x, y) && y < c.dy + j
                           then copier(src.buf[y - c.dy + c.sy, x - c.dx + c.sx], old(dst.buf[y, x]))
                           else old(dst.buf[y, x])
      {
        var i := 0;
        while i < c.w
          invariant 0 <= i <= c.w
          invariant forall y, x :: 0 <= y < dst.h && 0 <= x < dst.w ==>
            dst.buf[y, x] == if InBox(c, x, y) && (y < c.dy + j || (y == c.dy + j && x < c.dx + i))
                             then copier(src.buf[y - c.dy + c.sy, x - c.dx + c.sx], old(dst.buf[y, x]))
                             else old(dst.buf[y, x])
        {
          dst.buf[c.dy + j, c.dx + i] := copier(src.buf[c.sy + j, c.sx + i], dst.buf[c.dy + j, c.dx + i]);
          i := i + 1;
        }
        j := j + 1;
      }
    }
  }

  /** The overload without a copier: `dpixel = spixel`.  Inside the clipped
      box the destination becomes the source pixel at the same offset; a
      request lying inside both images with no clip rectangle copies exactly
      that rectangle. */
  method BltCopy<C>(dst: ImageBuffer<C>, src: ImageBuffer<C>, sx: int, sy: int, w: int, h: int,
                    dx: int, dy: int, cliprect: Option<Rect>)
    requires dst.Valid() && src.Valid()
    requires src.buf != dst.buf
    modifies dst.buf
    ensures var r := Clip(sx, sy, src.w, src.h, w, h, dx, dy, dst.w, dst.h, cliprect);
      forall y, x :: 0 <= y < dst.h && 0 <= x < dst.w ==>
        dst.buf[y, x] == if r.Some? && InBox(r.value, x, y)
                         then src.buf[y - r.value.dy + r.value.sy, x - r.value.dx + r.value.sx]
                         else old(dst.buf[y, x])
    ensures cliprect.None? && 0 <= w && 0 <= h && 0 <= sx && sx + w <= src.w && 0 <= sy && sy + h <= src.h
            && 0 <= dx && dx + w <= dst.w && 0 <= dy && dy + h <= dst.h ==>
      forall y, x :: 0 <= y < dst.h && 0 <= x < dst.w ==>
        dst.buf[y, x] == if dx <= x < dx + w && dy <= y < dy + h
                         then src.buf[y - dy + sy, x - dx + sx]
                         else old(dst.buf[y, x])
  {
    if cliprect.None? && 0 <= w && 0 <= h && 0 <= sx && sx + w <= src.w && 0 <= sy && sy + h <= src.h
       && 0 <= dx && dx + w <= dst.w && 0 <= dy && dy + h <= dst.h {
      ClipInside(sx, sy, src.w, src.h, w, h, dx, dy, dst.w, dst.h);
    }
    Blt(dst, src, sx, sy, w, h, dx, dy, cliprect, (s: C, d: C) => s);
  }
}
