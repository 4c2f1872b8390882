/** `Clipper_`: the rectangle arithmetic that fits a blit request into the
    source image, the destination image and an optional clip rectangle.  The
    constructor computes its public fields with `min`/`max` only, so it is a
    function returning the fields, or `None` where its flag stays false. */
module Clipping {
  import opened Base
  import opened Rects

  /** The public fields `sx, sy, w, h, dx, dy` of a clipper whose flag is
      true. */
  datatype ClipBox = ClipBox(sx: int, sy: int, w: int, h: int, dx: int, dy: int)

  /** Destination column `v` receives a pixel from a blit of `len` columns
      from source column `src` to destination column `dst`: it lies in the
      requested span, the corresponding source column lies in the source
      image, `v` lies in the destination image and within the clip interval
      [lo, hi) when there is one.  The same predicate serves rows. */
  predicate InWindow(v: int, src: int, srcSize: int, len: int, dst: int, dstSize: int,
                     clip: Option<(int, int)>)
  {
    dst <= v < dst + len
    && 0 <= v - dst + src < srcSize
    && 0 <= v < dstSize
    && (clip.Some? ==> clip.value.0 <= v < clip.value.1)
  }

  function ClipX(cliprect: Option<Rect>): Option<(int, int)>
  {
    if cliprect.Some? then Some((cliprect.value.left, cliprect.value.right)) else None
  }

  function ClipY(cliprect: Option<Rect>): Option<(int, int)>
  {
    if cliprect.Some? then Some((cliprect.value.top, cliprect.value.bottom)) else None
  }

  /** `Clipper_(srcx, srcy, srcw, srch, bltw, blth, dstx, dsty, dstw, dsth, cliprect)`.

      On success the clipped destination span [dx, dx+w) is exactly the set
      of columns in the window (and likewise for rows), the source moves with
      the destination, and everything lies inside both images and the clip
      rectangle (whose right and bottom edges are exclusive).  The flag is
      false only when one of the two windows is empty; a true flag may still
      come with `w == 0` or `h == 0`, because the emptiness tests are strict. */
  function Clip(srcx: int, srcy: int, srcw: int, srch: int, bltw: int, blth: int,
                dstx: int, dsty: int, dstw: int, dsth: int, cliprect: Option<Rect>): (r: Option<ClipBox>)
    ensures r.Some? ==>
      forall x :: r.value.dx <= x < r.value.dx + r.value.w
        <==> InWindow(x, srcx, srcw, bltw, dstx, dstw, ClipX(cliprect))
    ensures r.Some? ==>
      forall y :: r.value.dy <= y < r.value.dy + r.value.h
        <==> InWindow(y, srcy, srch, blth, dsty, dsth, ClipY(cliprect))
    ensures r.None? ==>
      (forall x :: !InWindow(x, srcx, srcw, bltw, dstx, dstw, ClipX(cliprect)))
      || (forall y :: !InWindow(y, srcy, srch, blth, dsty, dsth, ClipY(cliprect)))
    ensures r.Some? ==> r.value.sx - r.value.dx == srcx - dstx && r.value.sy - r.value.dy == srcy - dsty
    ensures r.Some? ==> 0 <= r.value.w <= Max(bltw, 0) && 0 <= r.value.h <= Max(blth, 0)
    ensures r.Some? ==> 0 <= r.value.dx && r.value.dx + r.value.w <= dstw
                        && 0 <= r.value.dy && r.value.dy + r.value.h <= dsth
    ensures r.Some? ==> 0 <= r.value.sx && r.value.sx + r.value.w <= srcw
                        && 0 <= r.value.sy && r.value.sy + r.value.h <= srch
    ensures r.Some? ==> r.value.dx >= dstx && r.value.dy >= dsty
    ensures r.Some? && cliprect.Some? ==>
      cliprect.value.left <= r.value.dx && r.value.dx + r.value.w <= cliprect.value.right
      && cliprect.value.top <= r.value.dy && r.value.dy + r.value.h <= cliprect.value.bottom
  {
    // clip against the source image
    var sleft := Max(srcx, 0);
    var sright := Min(srcx + bltw, srcw);
    var stop := Max(srcy, 0);
    var sbottom := Min(srcy + blth, srch);
    if sleft > sright || stop > sbottom then
      None
    else
      // shift the destination with the source and shrink the extent
      var dstx' := dstx + (sleft - srcx);
      var dsty' := dsty + (stop - srcy);
      var bltw' := sright - sleft;
      var blth' := sbottom - stop;
      // clip against the destination image and the clip rectangle
      var dleft := if cliprect.Some? then Max(Max(dstx', cliprect.value.left), 0) else Max(dstx', 0);
      var dtop := if cliprect.Some? then Max(Max(dsty', cliprect.value.top), 0) else Max(dsty', 0);
      var dright := if cliprect.Some? then Min(Min(dstx' + bltw', dstw), cliprect.value.right)
                    else Min(dstx' + bltw', dstw);
      var dbottom := if cliprect.Some? then Min(Min(dsty' + blth', dsth), cliprect.value.bottom)
                     else Min(dsty' + blth', dsth);
      if dleft > dright || dtop > dbottom then
        None
      else
        Some(ClipBox(sleft + dleft - dstx', stop + dtop - dsty', dright - dleft, dbottom - dtop, dleft, dtop))
  }

  /** A request that lies inside both images, with no clip rectangle, is
      passed through unchanged. */
  lemma ClipInside(srcx: int, srcy: int, srcw: int, srch: int, bltw: int, blth: int,
                   dstx: int, dsty: int, dstw: int, dsth: int)
    requires 0 <= bltw && 0 <= blth
    requires 0 <= srcx && srcx + bltw <= srcw && 0 <= srcy && srcy + blth <= srch
    requires 0 <= dstx && dstx + bltw <= dstw && 0 <= dsty && dsty + blth <= dsth
    ensures Clip(srcx, srcy, srcw, srch, bltw, blth, dstx, dsty, dstw, dsth, None)
            == Some(ClipBox(srcx, srcy, bltw, blth, dstx, dsty))
  {
  }

  /** A 20x20 request at (90, 90) of a 100x100 source, drawn at (40, 40) on a
      50x50 destination, keeps only its 10x10 top-left corner. */
  lemma ClipExample()
    ensures Clip(90, 90, 100, 100, 20, 20, 40, 40, 50, 50, None) == Some(ClipBox(90, 90, 10, 10, 40, 40))
  {
  }

  /** A request whose source window is empty but touching, e.g. of width 0,
      still raises the flag, with an empty extent. */
  lemma ClipEmptyExtent()
    ensures Clip(10, 0, 10, 10, 5, 5, 0, 0, 10, 10, None) == Some(ClipBox(10, 0, 0, 5, 0, 0))
  {
  }

  /** One column further right and the source window is empty. */
  lemma ClipDisjoint()
    ensures Clip(11, 0, 10, 10, 5, 5, 0, 0, 10, 10, None) == None
  {
  }
}
