# eunomia raster core in Dafny

This project models the integer raster core of the eunomia image library (C++) and proves properties of the model. It covers the following parts:

- **Canvas.** `ImageBuffer<C>` is a class over a two-dimensional array indexed `[y, x]`, with the pitch counted in pixels. It has checked and unchecked access, `lineBuffer`, `forEachPixel`, and the copy-only `blt` overload.
- **Drawing primitives**, each a method that writes the array in place:
  - `clear`;
  - the two-ended Bresenham `line`;
  - `box`, filled or outline;
  - Michener's `ellipse`, and `circle` on top of it;
  - the scan-line `paintFill` driven by an explicit stack of seeds.
- **Clipped blit.** The `Clipper_` rectangle arithmetic is a function returning `Option` of the clipped box. The nested copy loop is a method that takes the copier as a function from source and destination pixel to the new destination pixel.
- **Colour types and compositors.** `RgbColour` and `RgbaColour` come with their conversions and equalities, and with the normal, additive, multiplicative, alpha and fixed-alpha copiers. `NormalBrendCopierFromPictureIndexed` is modelled as well.
- **Geometry values.** `Rect` normalisation and the `AnotherRect` conversions.
- **Pictures.** `Picture` and `PictureIndexed` with `create` and `clone`, the palette accessors, `stripAlpha`, and the `duplicatePictureIndexed` pipeline.
- **Colour reduction** (`pict_indexing.h`):
  - the median-cut `ColourChannelRange_` and `PixelRange_` with `add`, `clear`, `cutoff` and `divide`;
  - `generatePalette_`;
  - the bucketed nearest-colour search `PaletteFinder_`, specified as the exhaustive arg-min in visit order, with its early exit proved sound;
  - Jarvis–Judice–Ninke error diffusion over the three-row error buffers;
  - the simple mode without diffusion.
- **String splitting.** The three `split` overloads of `utility.h`.
- **Windows BMP byte layout**, on byte sequences:
  - BITMAPFILEHEADER and the 40-byte BITMAPINFOHEADER;
  - palettes;
  - bottom-up rows padded to 4 bytes;
  - unpacking of 1- and 4-bit rows;
  - the 24/32-bit row mapping;
  - round trips from the writers back through the readers.
- **`HexPainter`.** The integer state and the integer hexagon `distance`.

Every `.dfy` file is one module that follows one source file. They are meant to be verified together.

Some conventions of the model:

- A C++ `int` division that can see a negative operand is written with `TruncDiv`, which truncates toward zero.
- `uint32` sums wrap explicitly modulo 2^32.
- A `std::uint8_t` is the subset type `Byte`.
- An allocation that may throw `std::bad_alloc` is a `memoryAvailable` parameter. When it is false, `create` returns null.

## Model

| member | source | states |
|---|---|---|
| Rects.Width | rect.h:75 | `width()` is the signed distance from left to right; it is non-negative exactly when left ≤ right |
| Rects.Height | rect.h:76 | `height()` is the signed distance from top to bottom; it is non-negative exactly when top ≤ bottom |
| Rects.Normalize | rect.h:59-73 | after `normalize` the rectangle is normalised, its {left, right} and {top, bottom} pairs are the same sets, a normalised rectangle is unchanged, and width and height are ≥ 0 |
| Rects.NormalFormIdempotent | rect.h:59-73 | normalising twice equals normalising once; a rectangle is normalised iff normalising leaves it unchanged |
| Rects.AnotherOf | rect.h:94-103 | `AnotherRect(r)` starts at the smaller corner, has width and height equal to the absolute extents, and so converts to true |
| Rects.RectOf | rect.h:105-108 | `operator Rect` keeps width and height; the result is normalised iff the AnotherRect is valid |
| Rects.RectOfAnotherOf | rect.h:94-108 | `Rect(AnotherRect(r))` is `r` normalised |
| Rects.AnotherOfRectOf | rect.h:94-108 | an AnotherRect survives the round trip through `Rect` iff its width and height are ≥ 0 |
| Colour.RgbaOf | colour.h:113-115 | `RgbaColour(RgbColour)` is opaque, and converting back gives the original colour |
| Colour.RgbOf | colour.h:118-119 | `operator RgbColour` keeps red, green and blue |
| Colour.EqRgb | colour.h:76-77 | RGB `==` holds iff all fields agree |
| Colour.NeRgb | colour.h:81-82 | RGB `!=` is the negation of `==` |
| Colour.EqRgba | colour.h:123-128 | RGBA `==` holds iff all four fields agree |
| Colour.NeRgba | colour.h:132-133 | RGBA `!=` is the negation of `==` |
| Colour.EqRgbaRgb | colour.h:143-144 | mixed `==` ignores alpha: it holds iff the RGB parts agree, i.e. for the opaque conversion or any alpha with the same colour |
| Colour.NeRgbaRgb | colour.h:148-149 | mixed `!=` holds iff the RGB parts differ |
| Colour.EqRgbRgba | colour.h:153-154 | mixed `==` (other order) holds iff the RGB parts agree |
| Colour.NeRgbRgba | colour.h:158-159 | mixed `!=` (other order) holds iff the RGB parts differ |
| Colour.NormalCopyToRgb | colour.h:172-177 | the destination becomes the source colour without its alpha |
| Colour.NormalCopyToRgba | colour.h:179-185 | the destination colour becomes the source colour and its alpha is kept |
| Colour.AddChannel | colour.h:198-199 | one channel of the additive blend is the sum clamped to 255 |
| Colour.AddCopyAsWritten | colour.h:196-201 | as written: red ends as the clamped blue sum, green is the clamped green sum, blue is unchanged |
| Colour.AddCopyToRgbaAsWritten | colour.h:210-216 | the RGBA destination gets the same defective colour and keeps its alpha |
| Colour.AddCopy | colour.h:196-201 | the intended additive blend: each channel is its own clamped sum |
| Colour.AddCopyToRgba | colour.h:210-224 | the intended blend onto RGBA keeps alpha |
| Colour.AddCopyAsWrittenLosesBlue | colour.h:200 | adding blue (0,0,1) onto black gives red (1,0,0) as written, but blue with the intended blend |
| Colour.AddCopyProperties | colour.h:196-224 | the intended blend is commutative, never darkens the destination, and adding black changes nothing |
| Colour.MulCopyToRgba | colour.h:249-263 | the multiplicative blend onto RGBA is the RGB blend with alpha kept |
| Colour.MulCopyProperties | colour.h:235-247 | each channel is `dst*src/255`, at most both operands, so the clamp never acts; white is neutral and black absorbs |
| Colour.BlendChannelProperties | colour.h:276-287 | the alpha-blend channel never needs its clamp, opaque gives the source, transparent keeps the destination, and blending a value with itself never exceeds it |
| Colour.AlphaCopyToRgba | colour.h:290-308 | onto RGBA the colour is the RGB alpha blend, and the new alpha is `sa + da*(255-sa)/255`, at least both alphas |
| Colour.AlphaCopyProperties | colour.h:274-288 | an opaque source replaces the colour, a transparent one keeps it, and each channel is the blend formula |
| Colour.FixedAlphaCopy | colour.h:327-341 | the fixed-alpha copier from RGB is the alpha blend with the fixed alpha |
| Colour.FixedAlphaCopyToRgba | colour.h:361-379 | onto RGBA it is the RGBA alpha blend with the fixed alpha |
| Colour.FixedAlphaCopyRgbaToRgba | colour.h:381-402 | from RGBA onto RGBA the colour is the RGBA→RGB fixed-alpha blend, and the new alpha is `a/255 + dst.alpha*(65025-a)/65025` with `a = alpha*src.alpha`, never clamped |
| Colour.FixedAlphaRgbaTransparent | colour.h:383-401 | with `alpha*src.alpha == 0` the whole destination, alpha included, is kept |
| Colour.FixedAlphaRgbaOpaque | colour.h:361-401 | with an opaque source the RGBA-source copier gives exactly what the RGB-source copier gives for its colour, alpha included |
| Colour.FixedAlphaRgbaCopies | colour.h:381-402 | with both alphas 255 the source is copied, alpha 255 included |
| Colour.FixedAlphaRgbaProperties | colour.h:381-402 | the zero-weight and fully-opaque cases, and the new alpha is at least the effective source alpha `alpha*src.alpha/255` |
| Colour.FixedAlphaFromRgbaProperties | colour.h:343-359 | with both alphas 255 the source colour is copied exactly; with either alpha 0 the destination is kept |
| ImageBuffers.ImageBuffer.constructor | imagebuffer.h:101-118 | width, height and pixel size are those given, the pitch is width × pixel size, and every pixel holds the initial value |
| ImageBuffers.ImageBuffer.LineBuffer | imagebuffer.h:126-145 | row `y` has `w` pixels and its element `x` is `pixel(x, y)` |
| ImageBuffers.ImageBuffer.Rows | imagebuffer.h:126-145 | the picture as its h rows, row y being `lineBuffer(y)` |
| ImageBuffers.ImageBuffer.At | imagebuffer.h:152-169 | `at` throws exactly when x < 0, y < 0, x ≥ w or y ≥ h; otherwise it is `pixel(x, y)` |
| ImageBuffers.ImageBuffer.PutAt | imagebuffer.h:152-157 | a write through `at` succeeds iff in range, stores the value, and changes no other pixel |
| ImageBuffers.ImageBuffer.ForEachPixel | imagebuffer.h:295-300 | every pixel becomes `func` of its old value, once each |
| Clipping.Clip | ibuf_blt.cpp:37-85 | no overlap iff the clipped source or destination interval is empty; on success source and destination windows lie in their images and in the clip rectangle, the offset between them is kept, and the size is at most the request |
| Clipping.ClipInside | ibuf_blt.cpp:43-82 | a request inside both images, without clip rectangle, is returned unchanged |
| Clipping.ClipExample | ibuf_blt.cpp:43-84 | a 20×20 request at (90, 90) of a 100×100 source onto (40, 40) of a 50×50 image is cut to 10×10 |
| Clipping.ClipEmptyExtent | ibuf_blt.cpp:43-49 | a source window that only touches the image still reports success, with width 0 |
| Clipping.ClipDisjoint | ibuf_blt.cpp:43-49 | a source window one column past the image reports no overlap |
| Blit.Blt | ibuf_blt.h:81-104 | with no overlap the destination is unchanged; otherwise each destination pixel of the clipped box is the copier of its source pixel and old value, and every other pixel is unchanged; the source is only read |
| Blit.BltCopy | imagebuffer.h:272-281 | the copier-less overload copies source pixels into the clipped box and changes nothing else |
| Draw.Plot | ibuf_draw.h:119-123 | pixel (x, y) is painted when it lies in the canvas; every other pixel is unchanged |
| Draw.FillRow | ibuf_draw.h:95-101 | `fill_n` along a row paints exactly the given columns of that row |
| Draw.FillColumn | ibuf_draw.h:102-110 | the given rows of one column are painted and nothing else |
| Draw.Clear | ibuf_draw.h:44-50 | every pixel becomes the colour |
| Draw.FillBox | ibuf_draw.h:214-224 | exactly the clipped closed rectangle becomes the colour |
| Draw.FrameBox | ibuf_draw.h:225-242 | exactly the edges of the rectangle that lie in the canvas, clipped to it, become the colour |
| Draw.Box | ibuf_draw.h:200-243 | after normalising the corners, a box outside the canvas changes nothing; fill paints exactly the clipped box, outline exactly its visible edges |
| Draw.BorderWithinBox | ibuf_draw.h:219-242 | the outline lies within the filled box, equals it for a box one pixel wide or high, and leaves an interior pixel otherwise |
| Lines.Line | ibuf_draw.h:60-191 | exactly the pixels of the two-ended walk that lie in the canvas become the colour; nothing else changes |
| Lines.WalkAlongX | ibuf_draw.h:111-151 | the x-major loop paints exactly the walk from both ends, with the midpoint taken from the first end's walk |
| Lines.WalkAlongY | ibuf_draw.h:152-190 | the y-major loop, likewise |
| Lines.ErrorStep | ibuf_draw.h:141-149 | the error term tracks the rounded minor-axis offset step by step |
| Lines.LineInBox | ibuf_draw.h:60-191 | every painted pixel lies in the bounding box of the ends, so a segment entirely off one side of the canvas paints nothing |
| Lines.LineEnds | ibuf_draw.h:111-123 | both ends are painted |
| Lines.LineCoversMajorAxis | ibuf_draw.h:111-190 | every major-axis position between the ends gets a pixel |
| Lines.HorizontalLine | ibuf_draw.h:95-101 | with dy = 0 exactly the row between the ends is painted |
| Lines.VerticalLine | ibuf_draw.h:102-110 | with dx = 0 exactly the column between the ends is painted |
| Lines.LineNotSymmetric | ibuf_draw.h:149 | (0,0)-(2,1) paints (1,1) and not (1,0); (2,1)-(0,0) paints (1,0) and not (1,1) |
| Lines.OffsetRange | ibuf_draw.h:111-190 | the minor-axis offset stays within [0, minor] |
| Lines.WalkInBox | ibuf_draw.h:111-190 | every point of both walks lies in the bounding box of the two ends |
| Ellipses.Trace | ibuf_draw.h:280-367 | the trace from (p, q) starts there when p ≤ q, its k-th step has p + k, and every q stays between that p and the starting q |
| Ellipses.TraceStep | ibuf_draw.h:280-366 | while p ≤ q the loop visits (p, q) and continues with the trace of its next state |
| Ellipses.PaintQuad | ibuf_draw.h:302-357 | one step paints exactly the in-canvas points of the eight arcs (or the in-canvas spans when filling), with point 6 guarded by its own column |
| Ellipses.PaintStep | ibuf_draw.h:282-357 | a step paints what the deltas of the current (p, q) prescribe and nothing else |
| Ellipses.WalkStep | ibuf_draw.h:280-366 | one iteration of the loop advances the trace by one |
| Ellipses.Walk | ibuf_draw.h:268-367 | the loop paints exactly the points of the whole trace that lie in the canvas |
| Ellipses.Ellipse | ibuf_draw.h:258-368 | with a = 0 or b = 0 nothing changes; otherwise exactly the in-canvas points of the traced ellipse become the colour |
| Ellipses.Circle | imagebuffer.h:212-215 | `circle` is `ellipse` with both radii r |
| Ellipses.ArcsSymmetric | ibuf_draw.h:302-357 | the painted set is symmetric under the mirror images the eight arcs use |
| Ellipses.EllipseMirrorX | ibuf_draw.h:258-368 | the ellipse is symmetric left to right about its centre |
| Ellipses.EllipseMirrorY | ibuf_draw.h:258-368 | the ellipse is symmetric top to bottom about its centre |
| Ellipses.EllipseVertices | ibuf_draw.h:268-328 | the four vertices (x ± a, y) and (x, y ± b) are painted |
| Ellipses.DeltasBounded | ibuf_draw.h:284-299 | the offsets of each step lie within the radii |
| Ellipses.EllipseInBox | ibuf_draw.h:258-368 | every painted point lies in the bounding box of the ellipse |
| Ellipses.CircleDiagonal | imagebuffer.h:212-215 | the circle's painted set is symmetric about the diagonal |
| Ellipses.Point6AsWritten | ibuf_draw.h:353-354 | as written, point 6 is drawn exactly when `x + dx1 < w`, whatever column `x + dx2` it lands on |
| Ellipses.Point6OutOfCanvas | ibuf_draw.h:353-354 | `ellipse(9, 5, 3, 3)` on a 10-wide canvas writes point 6 at column 12; the corrected guard rejects it |
| PaintFill.PaintFill | ibuf_draw.h:375-471 | a no-op when (x, y) is outside or already holds the colour; otherwise exactly the pixels 4-connected to the start through the start colour become the colour: every changed pixel held the start colour, is connected and now holds the colour, and every connected pixel ends as the colour; the loop terminates |
| PaintFill.Round | ibuf_draw.h:387-470 | one pop of the stack keeps the rest of the stack and every seed connected, repaints the popped seed, changes pixels only to the colour, keeps every painted pixel connected and every start-colour neighbour of a painted pixel in the run of a seed, and decreases the termination measure |
| PaintFill.Spread | ibuf_draw.h:391-470 | the work on one seed paints exactly one span of its row: the span contains the seed, its other pixels held the start colour, the pixels just past both ends do not, and the start-colour pixels above and below it lie in the runs of seeds pushed (all connected to the start) |
| PaintFill.Seed | ibuf_draw.h:394-418 | the pixels above and below the seed are pushed exactly when they hold the start colour, then the seed alone is repainted |
| PaintFill.Scan | ibuf_draw.h:424-470 | one horizontal walk stops at the first column outside the canvas or not holding the start colour, repaints exactly the columns it passed, and leaves the start-colour pixels above and below them in the runs of seeds |
| PaintFill.Walk | ibuf_draw.h:424-446 | the walk loop keeps the walk state (`Walking`) and the image state (`Swept`) one column at a time, and stops on a column outside the canvas or not holding the start colour |
| PaintFill.ScanColumn | ibuf_draw.h:425-445 | one column of a walk moves the walk state on by one column: the pixel is connected, the run flags describe the new column, and its start-colour neighbours above and below are covered by seeds |
| PaintFill.Neighbours | ibuf_draw.h:427-443 | the run flags above and below become exactly "holds the start colour", pushed seeds are connected and hold the start colour, and the start-colour pixels above and below lie in the run of a seed |
| PaintFill.Neighbour | ibuf_draw.h:428-433 | one run check pushes at most the pixel it looks at, exactly when it starts a new run of the start colour, and leaves that pixel in the run of a seed |
| PaintFill.WalkReady | ibuf_draw.h:424-425 | a start-colour pixel next to the walked columns is connected, and a set run flag has its previous pixel covered |
| PaintFill.WalkStep | ibuf_draw.h:424-446 | taking one more column keeps every part of the walk state |
| PaintFill.ColumnsStep | ibuf_draw.h:424-446 | the covered columns of a walk grow by the column just checked, and stay covered as seeds are pushed |
| PaintFill.CoveredExtends | ibuf_draw.h:428-429 | a run flag kept set is right: the cover of the previous pixel of a run passes on to the next one |
| PaintFill.RunInside | ibuf_draw.h:424-470 | a run of the start colour that meets a painted span, bounded by pixels of another colour, lies inside that span |
| PaintFill.KeptCovered | ibuf_draw.h:387-470 | a start-colour pixel covered by a seed still on the stack stays covered after a round |
| PaintFill.FreshCovered | ibuf_draw.h:394-470 | a start-colour neighbour of a pixel painted in this round is covered by a seed the round pushed |
| PaintFill.BorderStep | ibuf_draw.h:387-470 | one round keeps every start-colour neighbour of every painted pixel in the run of a seed on the stack |
| PaintFill.SpanFilled | ibuf_draw.h:418-470 | painting a span of start-colour pixels that holds a connected pixel paints only connected pixels |
| PaintFill.RowConnected | ibuf_draw.h:424-470 | start-colour pixels of a row next to a connected pixel are connected |
| PaintFill.PathPainted | ibuf_draw.h:387-471 | once the stack is empty, a start-colour path leaving a painted pixel is painted all along |
| PaintFill.Complete | ibuf_draw.h:387-471 | once the stack is empty and the start is painted, every pixel connected to the start is painted |
| PaintFill.ConnectedEnd | ibuf_draw.h:380-382 | the end of a connecting path lies in the canvas and holds the start colour, so with the colour already the start colour every connected pixel holds it |
| PaintFill.ConnectedStep | ibuf_draw.h:396-465 | a 4-neighbour holding the start colour of a connected pixel is connected |
| PaintFill.ConnectedStart | ibuf_draw.h:380-385 | the start pixel, holding the start colour, is connected to itself |
| PaintFill.Progress | ibuf_draw.h:387-471 | each round either shrinks the set of start-colour pixels or keeps it and has one seed fewer that is already repainted |
| PaintFill.RoundProgress | ibuf_draw.h:387-471 | that progress, stated on the rows before and after one round |
| MedianCut.Clear | pict_indexing.h:71-75 | `clear` empties the bits and zeroes the sum, and leaves min and max |
| MedianCut.Add | pict_indexing.h:78-82 | `add(v)` records v, adds it to the 32-bit sum modulo 2^32, and leaves min and max |
| MedianCut.LowestFrom | pict_indexing.h:90-102 | the least recorded value at or above v, or 256 |
| MedianCut.HighestFrom | pict_indexing.h:105-117 | the greatest recorded value at or below v, or −1 |
| MedianCut.LowestFound | pict_indexing.h:90-102 | a result below 256 is recorded and no value between v and it is |
| MedianCut.HighestFound | pict_indexing.h:105-117 | a result above −1 is recorded and no value between it and v is |
| MedianCut.LowestIs | pict_indexing.h:90-102 | a recorded value with none between v and it is the lowest from v |
| MedianCut.HighestIs | pict_indexing.h:105-117 | a recorded value with none between it and v is the highest down to v |
| MedianCut.RaiseMin | pict_indexing.h:90-102 | the first loop of `cutoff` computes the raised minimum |
| MedianCut.LowerMax | pict_indexing.h:105-117 | the second loop computes the lowered maximum, with the sign-extending `f >>= 1` |
| MedianCut.Cutoff | pict_indexing.h:87-121 | `cutoff` computes the tightened range and returns max − min + 1 |
| MedianCut.CutoffTightens | pict_indexing.h:87-121 | when every recorded value lies in [min, max], min and max become the lowest and highest recorded values (unchanged if none), inside the old interval |
| MedianCut.RaiseMinTightens | pict_indexing.h:90-102 | the first half moves min to the least recorded value, never past max |
| MedianCut.LowerMaxTightens | pict_indexing.h:105-117 | the second half moves max to the greatest recorded value, never below min |
| MedianCut.HighSplit | pict_indexing.h:109-110 | the scan mask at bit k is the mask at bit k+1 plus bit k |
| MedianCut.HighShift | pict_indexing.h:109-110 | each arithmetic shift keeps the form of the mask |
| MedianCut.SignExtendedMask | pict_indexing.h:109-110 | the sign-extended mask tests bit k once the bits above are known clear |
| MedianCut.ClearRange | pict_indexing.h:154-160 | `PixelRange_::clear` clears each channel and the count and keeps the box |
| MedianCut.AddPixel | pict_indexing.h:165-171 | `add(r, g, b)` records each channel, increments the unsigned count, and keeps the box |
| MedianCut.Widest | pict_indexing.h:189-200 | green is chosen only when at least as wide as both others, blue only when strictly wider than both, red only when strictly wider than green |
| MedianCut.CutBox | pict_indexing.h:180-186 | after the cutoffs the count is at least 1 |
| MedianCut.Divide | pict_indexing.h:178-201 | `divide` computes the pair whose halves DivideCovers and DividePartitions characterise |
| MedianCut.SplitCovers | pict_indexing.h:189-200 | on the split channel the halves cover the interval and, below 255, do not overlap |
| MedianCut.DivideCovers | pict_indexing.h:178-201 | every colour of the cut box lies in one of the two halves, and in only one when the split point is below 255 |
| MedianCut.SplitPartitions | pict_indexing.h:189-200 | with the mean inside the interval the halves partition it |
| MedianCut.DividePartitions | pict_indexing.h:178-201 | with the split mean inside its cut interval the two boxes partition the cut box |
| PaletteGeneration.Colours | pict_indexing.h:225-229 | the colour seen for each pixel is `rgb` of that pixel, row by row, with the image's shape |
| PaletteGeneration.FirstFit | pict_indexing.h:232-237 | a pixel is added to the first active box that holds it, or to none |
| PaletteGeneration.FirstFrom | pict_indexing.h:232-237 | the first box from i that holds the colour, with none before it |
| PaletteGeneration.HistogramCounts | pict_indexing.h:225-239 | after a pass the count of box j is its old count plus the pixels whose first box is j, modulo 2^32: each pixel is counted at most once |
| PaletteGeneration.IncrementWraps | pict_indexing.h:170 | incrementing the stored 32-bit count wraps like the true count modulo 2^32 |
| PaletteGeneration.AddFirstCount | pict_indexing.h:232-237 | the count of box j grows by one iff the pixel's first box is j |
| PaletteGeneration.HistogramKeepsBoxes | pict_indexing.h:225-239 | counting never moves a box and leaves the inactive boxes alone |
| PaletteGeneration.HistogramKeepsFits | pict_indexing.h:225-239 | counting keeps every recorded value inside its box |
| PaletteGeneration.PassCounts | pict_indexing.h:221-239 | after clear and count, every active box satisfies the cutoff precondition and counts its hits |
| PaletteGeneration.DivideNext | pict_indexing.h:244-246 | the division loop reads box i before writing it, and writes boxes i and n + i |
| PaletteGeneration.Rounds | pict_indexing.h:219-247 | the 256 boxes after k clear-count-divide passes |
| PaletteGeneration.PaletteOf | pict_indexing.h:249-254 | entry i is the channel sums of the final box i divided by its count raised to 1 |
| PaletteGeneration.ClearRanges | pict_indexing.h:222-223 | the clear loop clears exactly the active boxes |
| PaletteGeneration.ClearFirst | pict_indexing.h:222-223 | the first n boxes are cleared and the rest are unchanged |
| PaletteGeneration.AddToFirst | pict_indexing.h:232-237 | the inner loop adds the pixel to its first box |
| PaletteGeneration.CountPixels | pict_indexing.h:225-239 | the two image loops count the pixels in scan order |
| PaletteGeneration.CountRow | pict_indexing.h:226-238 | the pixels of row y are counted in order, each into the first range that holds it |
| PaletteGeneration.DivideRanges | pict_indexing.h:244-246 | the division loop divides each box i into i and n + i and doubles the count |
| PaletteGeneration.CountPass | pict_indexing.h:221-239 | one clear-and-count pass computes the counted boxes |
| PaletteGeneration.CountAndDivide | pict_indexing.h:221-246 | a pass followed by the division loop computes the divided boxes |
| PaletteGeneration.RunPasses | pict_indexing.h:217-247 | the nine passes, with the break before the ninth division, give the final boxes |
| PaletteGeneration.WritePalette | pict_indexing.h:249-254 | the last loop writes the mean colour of each box |
| PaletteGeneration.GeneratePalette | pict_indexing.h:215-255 | `generatePalette_` fills the 256 entries with the palette of the image's colours in scan order |
| PaletteOrder.Sum | pict_indexing.h:407 | the channel sum lies in [0, 765] |
| PaletteOrder.SqIsSquare | pict_indexing.h:270-298 | entry n of `POW2_` is n·n |
| PaletteOrder.SqMonotone | pict_indexing.h:270-298 | the table grows with n |
| PaletteOrder.SqBounds | pict_indexing.h:270-298 | each entry is at most 65025 and is 0 only at 0 |
| PaletteOrder.DistanceProperties | pict_indexing.h:302-309 | `distance_` stays below `ULONG_MAX`, is symmetric, and is 0 exactly for equal colours |
| PaletteOrder.SumDiffMonotone | pict_indexing.h:312-388 | `SUMDIFF_[d]` = d·d/3 grows with d |
| PaletteOrder.SumDiffBound | pict_indexing.h:312-388 | two colours whose channel sums differ by d are at least `SUMDIFF_[d]` apart |
| PaletteOrder.BucketExact | pict_indexing.h:403-411 | a bucket holds exactly the entries of its sum, each once, in decreasing order |
| PaletteOrder.LastWithSum | pict_indexing.h:403-411 | the head of bucket k among the first n entries: an entry whose sum is k, or −1 |
| PaletteOrder.NearestMinimal | pict_indexing.h:413-471 | the search's answer is at minimal distance over all 256 entries, and a palette colour finds itself |
| PaletteOrder.NearestUnique | pict_indexing.h:413-471 | only one entry comes first in the visit order among the nearest |
| PaletteOrder.NearestFirst | pict_indexing.h:413-471 | the answer over the first n entries comes before each of them in visit order |
| PaletteOrder.EarlyExit | pict_indexing.h:433-434 | breaking when `mindiff < SUMDIFF_[absval]` returns the true answer |
| PaletteOrder.ZeroFirst | pict_indexing.h:443-444 | returning at distance 0 returns the true answer |
| PaletteOrder.AllVisited | pict_indexing.h:428-470 | once every offset is walked, the running answer is the true answer |
| PaletteOrder.OffsetBlocks | pict_indexing.h:437-454 | at offset a the search walks bucket base + a and then bucket base − a |
| PaletteOrder.WalkStep | pict_indexing.h:438-451 | visiting one entry returns the true answer at distance 0, otherwise keeps the running answer the best so far |
| PaletteOrder.WalkEnd | pict_indexing.h:438-451 | reaching the end of a list leaves the running answer best over the whole block |
| PaletteOrder.EmptyBlock | pict_indexing.h:437-454 | a bucket outside the 766 sums holds no entry |
| PaletteOrder.NoBucket | pict_indexing.h:437-438 | a sum outside [0, 765] has no list |
| PaletteFinding.Link | pict_indexing.h:403-411 | the constructor's loop makes each `index_[k]` the head of bucket k and links each entry to the previous entry with its sum |
| PaletteFinding.HeadsStep | pict_indexing.h:406-410 | one iteration makes entry n the head of its bucket |
| PaletteFinding.LinksStep | pict_indexing.h:406-410 | one iteration links entry n to the previous head of its bucket |
| PaletteFinding.PaletteFinder.constructor | pict_indexing.h:403-411 | the finder's lists are valid for the palette it was built on |
| PaletteFinding.PaletteFinder.BucketList | pict_indexing.h:403-411 | the list of bucket k holds exactly the palette indices whose channels sum to k, each once |
| PaletteFinding.PaletteFinder.ListIsBucket | pict_indexing.h:403-411 | following `next_` from the last entry of bucket k below n lists exactly that bucket |
| PaletteFinding.PaletteFinder.BucketHead | pict_indexing.h:437-438 | `index_[k]`, or −1 outside the table, is the last entry of bucket k |
| PaletteFinding.PaletteFinder.Follow | pict_indexing.h:450-467 | `next_[p]` is the previous entry with the same sum |
| PaletteFinding.PaletteFinder.Walk | pict_indexing.h:438-451 | one list walk updates the running answer as the exhaustive scan would, or returns an entry at distance 0 |
| PaletteFinding.PaletteFinder.WalkAbove | pict_indexing.h:436-451 | the walk of the bucket absval above the colour's sum either returns the nearest entry or leaves the best of the search order so far |
| PaletteFinding.PaletteFinder.WalkBelow | pict_indexing.h:453-468 | the walk of the bucket absval below the colour's sum either returns the nearest entry or leaves the best of the search order so far |
| PaletteFinding.PaletteFinder.Offset | pict_indexing.h:433-468 | one round either finds the answer or moves the cursor past both buckets |
| PaletteFinding.PaletteFinder.FindNearest | pict_indexing.h:416-471 | `findNearest` returns the nearest entry, the first in visit order among equals |
| Diffusion.SumPattern | pict_indexing.h:501-503 | the loop summing the kernel returns 48 |
| Diffusion.PatternTotal | pict_indexing.h:498-503 | the fifteen kernel weights add up to 48 |
| Diffusion.SpreadAhead | pict_indexing.h:498-499 | within row 0 the spread changes only cells to the right of the pixel; rows 1 and 2 may change |
| Diffusion.ShiftRows | pict_indexing.h:552-561 | the shift moves rows 1 and 2 up and zeroes row 2 |
| Diffusion.Quantise | pict_indexing.h:519-546 | one pixel: the index chosen for the clamped wanted colour, and the buffers with the unclamped residual spread |
| Diffusion.QuantiseOf | pict_indexing.h:521-546 | the method's pixel step computes `Quantise` |
| Diffusion.DiffusionOfPaletteColours | pict_indexing.h:516-562 | on an image of palette colours diffusion gives the same indices as the simple mode |
| Diffusion.QuantiseExact | pict_indexing.h:521-535 | with no error gathered, a palette colour is its own nearest entry and leaves no residual |
| Diffusion.RowExact | pict_indexing.h:517-549 | on palette colours with no error gathered, a row gets its nearest indices and leaves no error |
| Diffusion.ImageExact | pict_indexing.h:516-562 | on palette colours, every row gets the simple-mode indices and the buffers stay clean |
| Diffusion.SpreadErrors | pict_indexing.h:538-546 | the spreading loops add each kernel share to the right cell of all three buffers, within [0, 3·(width+4)) |
| Diffusion.Accumulate | pict_indexing.h:542-544 | one inner step adds one kernel share to its cell and leaves the rest |
| Diffusion.SpreadRow | pict_indexing.h:541-545 | one pass of the inner loop gives kernel row iy its five shares in all three buffers |
| Diffusion.SpreadDone | pict_indexing.h:538-546 | after all cells the buffer is the spread one |
| Diffusion.ShiftDone | pict_indexing.h:552-561 | after all cells the buffer is the shifted one |
| Diffusion.ShiftErrors | pict_indexing.h:551-561 | the shifting loops compute the shifted buffers |
| Diffusion.MoveUp | pict_indexing.h:554-556 | cell j of column i takes the cell one row below it |
| Diffusion.ClearBottom | pict_indexing.h:558-560 | the bottom cell of column i becomes 0 |
| Diffusion.DiffusePixel | pict_indexing.h:519-546 | the wanted colour, the nearest entry of its clamped value and the spread of the residual |
| Diffusion.DiffuseAt | pict_indexing.h:519-547 | one pixel extends the written row and the buffers as the definition says, and writes no other pixel |
| Diffusion.WriteIndex | pict_indexing.h:548 | `dst.pixel(x, y) = best` extends the row's indices by one and changes no other pixel |
| Diffusion.DiffuseRow | pict_indexing.h:517-549 | the pixel loop writes row y with the indices of `RowUpTo` |
| Diffusion.DiffuseImageRow | pict_indexing.h:517-562 | one row of the outer loop, with the shift after it, extends the written rows and the buffers |
| Diffusion.DiffuseImage | pict_indexing.h:516-562 | the outer loop writes every row of the diffused image |
| Diffusion.DecreaseColourUsingErrorDiffusion | pict_indexing.h:489-563 | each source pixel's index is the diffused one; the other destination pixels are unchanged |
| Diffusion.NearestAlongRow | pict_indexing.h:578-582 | in simple mode each pixel of row y gets its nearest entry |
| Diffusion.DecreaseColourSimply | pict_indexing.h:572-584 | every source pixel's index is `findNearest` of its colour; the rest is unchanged |
| Pictures.CopyPixels | picture.cpp:70 | the `copy_n` of `h*pitch` bytes copies every pixel |
| Pictures.CreatePicture | picture.cpp:44-62 | `create` gives a fresh w×h black picture with pitch 3w, or null exactly when allocation fails |
| Pictures.ClonePicture | picture.cpp:65-72 | `clone` has the same size and every pixel, in fresh storage, or is null |
| Pictures.PictureIndexed.constructor | picture_indexed.cpp:44-50 | w×h pixels of index 0, pitch w, and 256 palette entries |
| Pictures.PictureIndexed.Create | picture_indexed.cpp:53-62 | a fresh picture, or null exactly when allocation fails |
| Pictures.PictureIndexed.SetPalette | picture_indexed.h:94-109 | writing entry id through `palette(id)` changes that entry and no other |
| Pictures.PictureIndexed.Clone | picture_indexed.cpp:65-74 | same size, same pixels and all 256 palette entries, in fresh storage; or null |
| Pictures.IndexedCopyToRgb | picture_indexed.h:131-134 | the RGB destination becomes the palette entry of the source index |
| Pictures.IndexedCopyToRgba | picture_indexed.h:136-141 | the RGBA destination gets the entry's colour and keeps its alpha |
| Pictures.StripAlpha | pictrgba_stripalpha.cpp:41-51 | a fresh picture of the same size whose pixels are the source's RGB, or null on allocation failure; the source is only read |
| Duplication.DuplicatePictureIndexed | pictrgba_dupl_pictidx.cpp:40-53 | same size; the palette is the median-cut palette of the RGB colours; the pixels are the diffusion indices with that palette; null on allocation failure; the source is only read |
| Split.FindFirstOf | utility.h:64-67 | `find_first_of` returns the first delimiter position at or after f, or the length |
| Split.Strip | utility.h:63-73 | the characters that are not delimiters |
| Split.TokensShape | utility.h:63-73 | no token is empty or holds a delimiter, and the tokens concatenated are the string without its delimiters |
| Split.TokensOfEmpty | utility.h:63-75 | an empty string gives no tokens |
| Split.TokensWithout | utility.h:63-75 | a non-empty string without delimiters gives itself |
| Split.ScanShape | utility.h:63-73 | the scan yields non-empty delimiter-free pieces, whose concatenation with the pending run is the string without delimiters |
| Split.ScanWithout | utility.h:63-75 | a string without delimiters scans to no pieces and itself pending |
| Split.ScanRun | utility.h:63-73 | extending a prefix that ended at a delimiter by a delimiter-free run adds that run as pending |
| Split.SplitStep | utility.h:63-73 | one iteration appends the run up to the next delimiter when non-empty, and f strictly increases |
| Split.SplitBy | utility.h:60-75 | the loop returns the maximal delimiter-free runs in order |
| Split.SplitString | utility.h:54-76 | the `basic_string` overload splits at the characters of `dlm` |
| Split.SplitCString | utility.h:87-108 | the C-string overload splits at the characters before the first NUL |
| Split.SplitChar | utility.h:119-140 | the single-character overload splits at that character |
| Split.SameDelimiters | utility.h:54-140 | a delimiter string without NUL names the same set for the string and C-string overloads, and a single char is a one-element set |
| DibFormat.ValueOfLeBytes | dibout.cpp:50-113 | bytes written by `os.write` of an integer read back as the value modulo 256^n |
| DibFormat.Int32Of | dibin.cpp:113-120 | reading 4 bytes into `int32_t` yields the value in [−2^31, 2^31) congruent modulo 2^32 |
| DibFormat.Uint16RoundTrip | dibin.cpp:66-92 | a 16-bit field reads back as the value written |
| DibFormat.Decode | dibin.cpp:66-149 | reading fields of the given sizes gives one value below 256^size per field, or fails on a short stream |
| DibFormat.EncodeLength | dibout.cpp:50-113 | the written header is as long as its field sizes add up to |
| DibFormat.StoredInt32 | dibout.cpp:79-113 | a signed 32-bit field is read back as the same signed value |
| DibFormat.Int32RoundTrip | dibin.cpp:113-120 | a 4-byte field read into `int32_t` gives back any value in range |
| DibFormat.DecodeEncode | dibin.cpp:66-149 | reading fields back gives each written value modulo its width |
| DibFormat.HeaderRoundTrip | dibout.cpp:50-73 | the file header `writeHeader_` emits is accepted by `readHeader_`; size = 54 + bitsize + 4·npal and offset = 54 + 4·npal |
| DibFormat.InfoRoundTrip | dibout.cpp:79-113 | the info header is 40 bytes and `readInfo_` reads back width, height, bit count and colours used |
| DibFormat.GetBufSize | dibin.cpp:183-184 | `getBufSize_` is the least multiple of 4 at or above l |
| DibFormat.RowSizesAgree | dibout.cpp:196-197 | `((l+3)/4)*4` equals `getBufSize_(l)` |
| DibRead.Read01OneLine | dibin.cpp:190-205 | as written: full bytes unpack most significant bit first; the trailing pixels take the low bits, the last pixel bit 0 |
| DibRead.Read01Byte | dibin.cpp:193-197 | byte i unpacks into pixels 8i to 8i+7, most significant bit first, and is shifted down to 0 |
| DibRead.Read01Trailing | dibin.cpp:199-204 | as written: the width mod 8 trailing pixels take the low bits of the last byte, the last pixel bit 0 |
| DibRead.Read04OneLine | dibin.cpp:211-221 | as written: high nibble then low nibble; an odd last pixel takes the low nibble |
| DibRead.Unpack1Pack1 | dibin.cpp:190-205 | the corrected 1-bit unpacking inverts the bitmap packing |
| DibRead.Unpack4Pack4 | dibin.cpp:211-221 | the corrected 4-bit unpacking inverts the bitmap packing |
| DibRead.TrailingPixelsMisread | dibin.cpp:199-204 | one white 1-bit pixel is stored as 0x80 and read back as 0; one 4-bit pixel 5 is stored as 0x50 and read back as 0 |
| DibRead.ReadPaletteAsWritten | dibin.cpp:155-175 | quad (b, g, r, v) becomes entry (r, g, b); the read fails iff the stream is short or npal is negative; npal is not bounded |
| DibRead.ReadPalette | dibin.cpp:155-175 | the bounded read fails also for npal > 256 |
| DibRead.PaletteCount | dibin.cpp:391 | the count is the colours-used field, or 1 << bpp when that is 0 |
| DibRead.RowSize | dibin.cpp:236-355 | each reader's row size is the bitmap stride: bpp·w bits rounded up to 32-bit words |
| DibRead.Stride | dibin.cpp:236-355 | for every bit count the padded row is (bpp·w + 31)/32 words of 4 bytes |
| DibRead.Padded | dibin.cpp:240-246 | the zero-initialised buffer after the unchecked `is.read` of n bytes: the stream's first n bytes, then zeros past the end of a short stream (as also in `read32bit_`, dibin.cpp:273-279) |
| DibRead.FileLines | dibin.cpp:310-312 | h rows of bs bytes each, or failure on a short stream |
| DibRead.IndexedLine | dibin.cpp:315-367 | each depth unpacks w pixels by its own row routine, as written, and 8 bits take the bytes |
| DibRead.PaletteOverflow | dibin.cpp:163-165 | a header with 257 colours reaches `readPalette_`, which stores 257 entries; the bounded read refuses it |
| DibRead.ReadTrueColour | dibin.cpp:231-291 | picture row y comes from file row h−1−y; pixel x takes blue, green and red at 3x (or 4x) |
| DibRead.ReadTrueColourRow | dibin.cpp:248-287 | picture row y takes blue, green and red of each pixel from the file row h−1−y, and no other row changes |
| DibRead.IndexedRows | dibin.cpp:297-371 | picture row y comes from file row h−1−y, unpacked by the row routine for its depth |
| DibWrite.PaletteBytes | dibout.cpp:119-139 | four bytes per palette entry; their order is fixed by PaletteRoundTrip |
| DibWrite.WritePalette | dibout.cpp:119-139 | the loop emits the palette bytes |
| DibWrite.PaletteRoundTrip | dibout.cpp:119-139 | written quads are read back by `readPalette_` as the palette |
| DibWrite.WriteIndexedBits | dibout.cpp:145-158 | rows bottom to top, w index bytes then zero padding |
| DibWrite.FillLineIndexed | dibout.cpp:153 | `copy_n` of row j makes the line buffer that row padded with zeros |
| DibWrite.WriteBits24 | dibout.cpp:162-182 | rows bottom to top, bytes 3i..3i+2 = blue, green, red, padding zero |
| DibWrite.FillLine24 | dibout.cpp:171-177 | the inner loop makes the line buffer row j as three bytes a pixel, padded with zeros |
| DibWrite.Bits24RoundTrip | dibout.cpp:162-182 | rows from the 24-bit `writeBits_`, mapped as `read24bit_` does, give back every pixel |
| DibWrite.Bits24Recovered | dibout.cpp:162-182 | each pixel is read back from the file row h−1−y of the written bits |
| DibWrite.SaveDib24 | dibout.cpp:188-206 | `saveDib` writes the file header, an info header for 24 bits, and the rows |
| DibWrite.RowBytes | dibout.cpp:197-220 | the row size `saveDib` computes equals `getBufSize_` of the same length |
| DibWrite.SaveDibIndexed | dibout.cpp:209-230 | `saveDib` writes npal 256 in the file header, 0 in the info header, 256 palette quads, and the rows |
| DibWrite.IndexedRecovered | dibout.cpp:209-230 | an 8-bit file has 256 palette entries, the written palette, then the written rows read back |
| DibWrite.IndexedRowsRecovered | dibout.cpp:145-158 | `read08bit_` reads back every row the indexed `writeBits_` wrote |
| DibWrite.HeadersRoundTrip | dibout.cpp:201-202 | both headers are accepted and skipped by `loadDib`, 54 bytes in all |
| DibWrite.SaveDib24RoundTrip | dibout.cpp:188-206 | a 24-bit file from `saveDib` is read back by `loadDib` pixel for pixel |
| DibWrite.SaveDibIndexedRoundTrip | dibout.cpp:209-230 | an indexed file from `saveDib` reads back with a 256-entry palette and the same rows |
| HexPainting.HexPainter.constructor | hexpainter.h:74 | the constructor stores r, p0 and q0 |
| HexPainting.HexPainter.ResetOrigin | hexpainter.h:81-85 | the origin changes and the radius is kept |
| HexPainting.HexPainter.ResetRadius | hexpainter.h:91 | the radius changes and the origin is kept |
| HexPainting.HexPainter.GetOrigin | hexpainter.h:98-102 | returns the stored origin |
| HexPainting.HexPainter.GetRadius | hexpainter.h:107 | returns the stored radius |
| HexPainting.Distance | hexpainter.h:187-202 | `distance` is at least the row difference and is 0 from a hexagon to itself |
| HexPainting.DistanceSymmetric | hexpainter.h:187-202 | `distance` is symmetric |
| HexPainting.DistanceTriangle | hexpainter.h:187-202 | `distance` satisfies the triangle inequality |
| HexPainting.HalfRowAsWritten | hexpainter.h:189-195 | the row shift is y/2 for y ≥ 0 and one less than y/2 truncated for y < 0 |
| HexPainting.TruncRem | hexpainter.h:167 | C++ `y % 2`: the remainder takes the sign of y |
| HexPainting.DistanceSameSide | hexpainter.h:189-195 | for two rows on the same side of row 0, `distance` equals the distance of the layout |
| HexPainting.DistanceAcrossRowZero | hexpainter.h:189-195 | hexagons (0, −1) and (−1, 0) share a side, yet `distance` gives 2 |
| HexPainting.DistanceCorrectedIsLayout | hexpainter.h:165-169 | the corrected distance counts the steps of `getPixelPosition`'s layout for every pair |
| HexPainting.CorrectedNeighbours | hexpainter.h:165-202 | corrected distance 1 holds exactly for hexagons sharing a side |
| HexPainting.LayoutDistanceOne | hexpainter.h:165-169 | layout distance 1 holds exactly for hexagons sharing a side |

## Left out

- Stream I/O is not modelled: `ifstream`/`ofstream`, opening files, and `is.read` failure other than a short stream. The BMP code is modelled on byte sequences; a stream is its remaining bytes.
- PNG and JPEG reading and writing are foreign code over libpng and libjpeg.
- Magnification, reduction, grayscale and the luminance arithmetic are not modelled. They are floating point.
- The `HexPainter` pixel geometry is floating point (√3): `getPixelPosition`, `getHexPosition`, `calcVertex_`, `draw` and `fill`. Only its integer shape is kept, as `Column`.
- The logger, scope guards, non-copyable bases and exception classes have no behaviour to state.
- Raw `uint8_t*` storage with pitch and `reinterpret_cast` is not modelled. Pixels are a two-dimensional array and the pitch is a recorded number.
- `std::bad_alloc` becomes the `memoryAvailable` parameter. The allocations inside `read24bit_`, `read01bit_`, `writeBits_` and the diffusion buffers are assumed to succeed.
- Blit.Blt: requires the source and destination buffers to be distinct. A blit of an image onto itself (aliasing) is not modelled.
- Blit.BltCopy: has the same distinct-buffer requirement as `Blt`, for the same reason.
- HexPainting.Distance: the 32-bit `int` overflow of very large coordinates is not modelled.
- Lines.Line: `line` is not symmetric in its ends, so no symmetry is claimed. `LineNotSymmetric` shows it.
- Draw.Clear: `clear` declares its row pointer as `std::uint8_t lp` (ibuf_draw.h:47), which does not compile as a pointer. The evident row-by-row fill is modelled.
- Ellipses.Ellipse: models point 6 with its corrected guard. The as-written guard is `Point6AsWritten`, under Findings.
- Ellipses.PaintQuad: writes point 6 under the corrected guard, as `Ellipse` does.
- Ellipses.PaintStep: builds on `PaintQuad`, so point 6 has the corrected guard.
- Ellipses.Walk: repeats `PaintStep`, so point 6 has the corrected guard.
- Ellipses.Circle: is `Ellipse` with equal radii, so point 6 has the corrected guard.
- DibRead.IndexedRows: unpacks 1- and 4-bit rows as written, as `loadDib` does. Only the corrected `Unpack1`/`Unpack4` carry the packing round trip.
- DibWrite.SaveDibIndexedRoundTrip: states the round trip for the 8-bit files `saveDib` writes. 1- and 4-bit files are never written.
- DibWrite.SaveDib24RoundTrip: requires the file size 54 + rowsize·h to fit in 32 bits. Above that, the size field wraps modulo 2^32 as written, and the lemma does not describe what is read.
- PaletteGeneration.GeneratePalette: the sums wrap modulo 2^32 as written. No lemma relates a wrapped sum to the true mean.
- `loadDib`'s creation of the picture before reading the palette, and its `reset` on failure, are not modelled: those are stream and ownership plumbing.

## Findings

| source | as written | input that shows it | evidently intended | confidence | as-written member | corrected member |
|---|---|---|---|---|---|---|
| colour.h:200, 207, 214, 222 | `AddBrendCopier` assigns `dst.red` twice, the second time from the blue sum, and never updates blue | source (0, 0, 1) onto black gives (1, 0, 0) | each channel gets its own clamped sum | high, not executed | Colour.AddCopyAsWritten, Colour.AddCopyAsWrittenLosesBlue | Colour.AddCopy, Colour.AddCopyProperties |
| ibuf_draw.h:353-354 | point 6 tests `x + dx1 < w` but writes column `x + dx2` | `ellipse(9, 5, 3, 3)` on a 10-pixel-wide image writes column 12 | test `x + dx2 < w` | high, not executed | Ellipses.Point6AsWritten, Ellipses.Point6OutOfCanvas | Ellipses.PaintQuad, Ellipses.Ellipse |
| dibin.cpp:199-204 | the trailing pixels of a 1-bit row are taken from the low bits of the last byte | a row of one white pixel, stored 0x80, reads back as 0 | take them from the top bits, as for full bytes | high, not executed | DibRead.Read01OneLine, DibRead.TrailingPixelsMisread | DibRead.Unpack1, DibRead.Unpack1Pack1 |
| dibin.cpp:219-220 | the last pixel of an odd 4-bit row is taken from the low nibble | a row of one pixel 5, stored 0x50, reads back as 0 | take it from the high nibble | high, not executed | DibRead.Read04OneLine, DibRead.TrailingPixelsMisread | DibRead.Unpack4, DibRead.Unpack4Pack4 |
| dibin.cpp:163-165, 391 | `readPalette_` reads `npal` quads into `quad[256]` and the palette with no bound on `npal` | an 8-bit header with colours-used 257 | refuse more than 256 entries | high, not executed | DibRead.ReadPaletteAsWritten, DibRead.PaletteOverflow | DibRead.ReadPalette, DibWrite.PaletteRoundTrip |
| hexpainter.h:189-195 | `distance` subtracts an extra 1 from the row shift of negative rows, while `getPixelPosition` lays rows out with C++'s truncating `y % 2` | (0, −1) and (−1, 0) share a side, yet their distance is 2 | shift every row by `y / 2` truncated | medium, not executed | HexPainting.Distance, HexPainting.DistanceAcrossRowZero | HexPainting.DistanceCorrected, HexPainting.DistanceCorrectedIsLayout, HexPainting.CorrectedNeighbours |
