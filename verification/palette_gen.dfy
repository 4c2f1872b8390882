/** `generatePalette_`: median-cut palette generation.  An array of 256
    `PixelRange_` boxes is refined in nine passes over the image; in each
    pass the active boxes are cleared, every pixel is counted in the first
    active box holding it, and (in the first eight passes) every active box
    is divided in two, doubling the number of active boxes from 1 to 256.
    The palette entry of a box is the mean colour of its pixels in the last
    pass. */
module PaletteGeneration {
  import opened Base
  import opened Colour
  import opened ImageBuffers
  import opened MedianCut

  /** The colour of every pixel, as the red, green and blue members the
      template reads. */
  function Colours<C>(rows: seq<seq<C>>, rgb: C -> Rgb): (cs: seq<seq<Rgb>>)
    ensures |cs| == |rows|
    ensures forall y :: 0 <= y < |rows| ==> |cs[y]| == |rows[y]|
    ensures forall y, x :: 0 <= y < |rows| && 0 <= x < |rows[y]| ==> cs[y][x] == rgb(rows[y][x])
  {
    seq(|rows|, y requires 0 <= y < |rows| => seq(|rows[y]|, x requires 0 <= x < |rows[y]| => rgb(rows[y][x])))
  }

  /** The pixels in the order the two nested loops visit them. */
  function Flatten(rows: seq<seq<Rgb>>): seq<Rgb>
  {
    if |rows| == 0 then [] else Flatten(rows[..|rows| - 1]) + rows[|rows| - 1]
  }

  lemma FlattenStep(rows: seq<seq<Rgb>>, y: int)
    requires 0 <= y < |rows|
    ensures Flatten(rows[..y + 1]) == Flatten(rows[..y]) + rows[y]
  {
    assert rows[..y + 1][..y] == rows[..y];
  }

  predicate Holds(p: PixelRange, c: Rgb)
  {
    InBox(p, c.red, c.green, c.blue)
  }

  /** The first of the boxes `i .. n-1` that holds `c`, or `n`. */
  function FirstFrom(rs: seq<PixelRange>, n: int, c: Rgb, i: int): (k: int)
    requires 0 <= i <= n <= |rs|
    ensures i <= k <= n
    ensures k < n ==> Holds(rs[k], c)
    ensures forall j :: i <= j < k ==> !Holds(rs[j], c)
    decreases n - i
  {
    if i == n then n else if Holds(rs[i], c) then i else FirstFrom(rs, n, c, i + 1)
  }

  /** The first active box that holds `c`, or `n` when none does. */
  function FirstFit(rs: seq<PixelRange>, n: int, c: Rgb): (k: int)
    requires 0 <= n <= |rs|
    ensures 0 <= k <= n
    ensures k < n ==> Holds(rs[k], c)
    ensures forall j :: 0 <= j < k ==> !Holds(rs[j], c)
  {
    FirstFrom(rs, n, c, 0)
  }

  /** The boxes agree on every channel interval. */
  predicate SameBox(p: PixelRange, q: PixelRange)
  {
    p.red.min == q.red.min && p.red.max == q.red.max
    && p.green.min == q.green.min && p.green.max == q.green.max
    && p.blue.min == q.blue.min && p.blue.max == q.blue.max
  }

  /** The innermost loop of a histogram pass: the pixel `c` is added to the
      first active box that holds it, and to no other. */
  function AddFirst(rs: seq<PixelRange>, n: int, c: Rgb): (r: seq<PixelRange>)
    requires 0 <= n <= |rs|
    ensures |r| == |rs|
  {
    var k := FirstFit(rs, n, c);
    if k < n then rs[k := AddPixel(rs[k], c.red, c.green, c.blue)] else rs
  }

  /** The boxes after counting the pixels `px` in order. */
  function Histogram(rs: seq<PixelRange>, n: int, px: seq<Rgb>): (r: seq<PixelRange>)
    requires 0 <= n <= |rs|
    ensures |r| == |rs|
    decreases |px|
  {
    if |px| == 0 then rs else AddFirst(Histogram(rs, n, px[..|px| - 1]), n, px[|px| - 1])
  }

  lemma HistogramAppend(rs: seq<PixelRange>, n: int, px: seq<Rgb>, c: Rgb)
    requires 0 <= n <= |rs|
    ensures Histogram(rs, n, px + [c]) == AddFirst(Histogram(rs, n, px), n, c)
  {
    assert (px + [c])[..|px|] == px;
  }

  /** One more pixel of the current row. */
  lemma HistogramStep(rs: seq<PixelRange>, n: int, done: seq<Rgb>, row: seq<Rgb>, x: int)
    requires 0 <= n <= |rs| && 0 <= x < |row|
    ensures Histogram(rs, n, done + row[..x + 1]) == AddFirst(Histogram(rs, n, done + row[..x]), n, row[x])
  {
    assert done + row[..x + 1] == (done + row[..x]) + [row[x]];
    HistogramAppend(rs, n, done + row[..x], row[x]);
  }

  /** Adding a value inside the box keeps the class invariant. */
  lemma AddKeepsFits(p: PixelRange, c: Rgb)
    requires Fits(p) && Holds(p, c)
    ensures Fits(AddPixel(p, c.red, c.green, c.blue))
  {
  }

  /** Counting never moves a box and leaves the inactive boxes alone. */
  lemma {:induction false} HistogramKeepsBoxes(rs: seq<PixelRange>, n: int, px: seq<Rgb>)
    requires 0 <= n <= |rs|
    ensures var r := Histogram(rs, n, px);
      (forall j :: 0 <= j < |rs| ==> SameBox(r[j], rs[j]))
      && (forall j :: n <= j < |rs| ==> r[j] == rs[j])
    decreases |px|
  {
    if |px| > 0 {
      HistogramKeepsBoxes(rs, n, px[..|px| - 1]);
    }
  }

  /** Counting keeps the class invariant of every box. */
  lemma {:induction false} HistogramKeepsFits(rs: seq<PixelRange>, n: int, px: seq<Rgb>, j: int)
    requires 0 <= j < |rs| && 0 <= n <= |rs| && Fits(rs[j])
    ensures Fits(Histogram(rs, n, px)[j])
    decreases |px|
  {
    if |px| > 0 {
      var s := Histogram(rs, n, px[..|px| - 1]);
      HistogramKeepsFits(rs, n, px[..|px| - 1], j);
      var c := px[|px| - 1];
      if FirstFit(s, n, c) == j < n {
        AddKeepsFits(s[j], c);
      }
    }
  }

  /** Boxes that agree on their intervals select the same first box. */
  lemma {:induction false} FirstFromSameBoxes(rs: seq<PixelRange>, ss: seq<PixelRange>, n: int, c: Rgb, i: int)
    requires 0 <= i <= n <= |rs| == |ss|
    requires forall j :: 0 <= j < |rs| ==> SameBox(rs[j], ss[j])
    ensures FirstFrom(rs, n, c, i) == FirstFrom(ss, n, c, i)
    decreases n - i
  {
    if i < n {
      FirstFromSameBoxes(rs, ss, n, c, i + 1);
    }
  }

  /** The number of pixels of `px` whose first box is `j`. */
  function Hits(rs: seq<PixelRange>, n: int, px: seq<Rgb>, j: int): nat
    requires 0 <= n <= |rs|
    decreases |px|
  {
    if |px| == 0 then 0
    else Hits(rs, n, px[..|px| - 1], j) + (if FirstFit(rs, n, px[|px| - 1]) == j then 1 else 0)
  }

  lemma IncrementWraps(a: nat)
    ensures (a % UINT32_MOD + 1) % UINT32_MOD == (a + 1) % UINT32_MOD
  {
    var q := a / UINT32_MOD;
    assert a == UINT32_MOD * q + a % UINT32_MOD;
    assert a + 1 == UINT32_MOD * q + (a % UINT32_MOD + 1);
  }

  /** The count of box `j` grows by one, as an `unsigned`, exactly when
      `j` is the first active box holding the pixel. */
  lemma AddFirstCount(rs: seq<PixelRange>, n: int, c: Rgb, j: int)
    requires 0 <= j < n <= |rs|
    ensures AddFirst(rs, n, c)[j].count == if FirstFit(rs, n, c) == j then (rs[j].count + 1) % UINT32_MOD else rs[j].count
  {
  }

  /** Each pixel is counted once, in the first active box holding it: the
      count of an active box grows by the number of such pixels, as an
      `unsigned`. */
  lemma {:induction false} HistogramCounts(rs: seq<PixelRange>, n: int, px: seq<Rgb>, j: int)
    requires 0 <= j < n <= |rs|
    ensures Histogram(rs, n, px)[j].count == (rs[j].count + Hits(rs, n, px, j)) % UINT32_MOD
    decreases |px|
  {
    if |px| > 0 {
      var c, init := px[|px| - 1], px[..|px| - 1];
      var s := Histogram(rs, n, init);
      HistogramCounts(rs, n, init, j);
      HistogramKeepsBoxes(rs, n, init);
      FirstFromSameBoxes(rs, s, n, c, 0);
      AddFirstCount(s, n, c, j);
      var h := Hits(rs, n, init, j);
      if FirstFit(rs, n, c) == j {
        assert Hits(rs, n, px, j) == h + 1;
        IncrementWraps(rs[j].count + h);
      } else {
        assert Hits(rs, n, px, j) == h;
      }
    }
  }

  /** The first loop of a pass: the active boxes are cleared. */
  function ClearFirst(rs: seq<PixelRange>, n: int): (r: seq<PixelRange>)
    ensures |r| == |rs|
    ensures forall j :: 0 <= j < |rs| ==> r[j] == if j < n then ClearRange(rs[j]) else rs[j]
  {
    seq(|rs|, j requires 0 <= j < |rs| => if j < n then ClearRange(rs[j]) else rs[j])
  }

  /** One histogram pass over the active boxes. */
  function Pass(rs: seq<PixelRange>, n: int, px: seq<Rgb>): seq<PixelRange>
    requires 0 <= n <= |rs|
  {
    Histogram(ClearFirst(rs, n), n, px)
  }

  /** After a pass every active box holds the class invariant, so `cutoff`
      tightens it to the values counted in it (`CutoffTightens`), and its
      count is the number of pixels whose first box it is. */
  lemma PassCounts(rs: seq<PixelRange>, n: int, px: seq<Rgb>, j: int)
    requires 0 <= j < n <= |rs|
    ensures Fits(Pass(rs, n, px)[j])
    ensures Pass(rs, n, px)[j].count == Hits(ClearFirst(rs, n), n, px, j) % UINT32_MOD
  {
    var cs := ClearFirst(rs, n);
    assert Fits(cs[j]);
    HistogramKeepsFits(cs, n, px, j);
    HistogramCounts(cs, n, px, j);
  }

  /** The boxes after the first `i` divisions of a round of `n` active
      boxes: box `j < i` holds the lower half of its old value and box
      `n + j` the upper half; every other box is untouched. */
  function DivideUpTo(rs: seq<PixelRange>, n: int, i: int): (r: seq<PixelRange>)
    requires 0 <= i <= n && 2 * n <= |rs|
    ensures |r| == |rs|
  {
    seq(|rs|, j requires 0 <= j < |rs| =>
      if j < i then DivideOf(rs[j]).0 else if n <= j < n + i then DivideOf(rs[j - n]).1 else rs[j])
  }

  /** The division loop reads box `i` before anything writes it, and its
      step `i` writes only boxes `i` and `n + i`: dividing in place, one
      box after another, gives the boxes above. */
  lemma DivideNext(rs: seq<PixelRange>, n: int, i: int)
    requires 0 <= i < n && 2 * n <= |rs|
    ensures DivideUpTo(rs, n, i)[i] == rs[i]
    ensures DivideUpTo(rs, n, i + 1) == DivideUpTo(rs, n, i)[i := DivideOf(rs[i]).0][n + i := DivideOf(rs[i]).1]
  {
    var p := DivideUpTo(rs, n, i);
    var q := p[i := DivideOf(rs[i]).0][n + i := DivideOf(rs[i]).1];
    forall j | 0 <= j < |rs|
      ensures DivideUpTo(rs, n, i + 1)[j] == q[j]
    {
    }
  }

  lemma {:induction false} Pow2Bound(k: nat)
    requires k <= 8
    ensures Pow2(k) <= 256
    decreases 8 - k
  {
    if k < 8 {
      Pow2Bound(k + 1);
    }
  }

  /** The boxes before pass `k` (`bits == k`), with `Pow2(k)` of them
      active. */
  function Rounds(px: seq<Rgb>, k: nat): (r: seq<PixelRange>)
    requires k <= 8
    ensures |r| == 256
  {
    if k == 0 then seq(256, _ => EmptyRange)
    else
      Pow2Bound(k);
      var n := Pow2(k - 1);
      DivideUpTo(Pass(Rounds(px, k - 1), n, px), n, n)
  }

  /** The mean of a channel, `sum / c` with `c` the count raised to 1,
      stored in a `uint8_t`. */
  function Mean(sum: int, count: int): Byte
    requires sum >= 0
  {
    (sum / (if count == 0 then 1 else count)) % 256
  }

  function Entry(p: PixelRange): Rgb
  {
    Rgb(Mean(p.red.sum, p.count), Mean(p.green.sum, p.count), Mean(p.blue.sum, p.count))
  }

  /** The boxes after the last pass and the palette they give. */
  function FinalRanges(px: seq<Rgb>): (r: seq<PixelRange>)
    ensures |r| == 256
  {
    Pass(Rounds(px, 8), 256, px)
  }

  function PaletteOf(px: seq<Rgb>): (pal: seq<Rgb>)
    ensures |pal| == 256
    ensures forall i :: 0 <= i < 256 ==> pal[i] == Entry(FinalRanges(px)[i])
  {
    var r := FinalRanges(px);
    seq(256, i requires 0 <= i < 256 => Entry(r[i]))
  }

  /** `range[i].clear()` for the active boxes. */
  method ClearRanges(range: array<PixelRange>, n: int)
    requires 0 <= n <= range.Length
    modifies range
    ensures range[..] == ClearFirst(old(range[..]), n)
  {
    var i := 0;
    while i < n
      invariant 0 <= i <= n
      invariant forall j :: 0 <= j < range.Length ==> range[j] == if j < i then ClearRange(old(range[j])) else old(range[j])
    {
      range[i] := ClearRange(range[i]);
      i := i + 1;
    }
  }

  /** The loop over the active boxes for one pixel. */
  method AddToFirst(range: array<PixelRange>, n: int, c: Rgb)
    requires 0 <= n <= range.Length
    modifies range
    ensures range[..] == AddFirst(old(range[..]), n, c)
  {
    ghost var rs := range[..];
    var i := 0;
    while i < n
      invariant 0 <= i <= n && range[..] == rs
      invariant forall j :: 0 <= j < i ==> !Holds(rs[j], c)
    {
      if range[i].red.min <= c.red <= range[i].red.max
        && range[i].green.min <= c.green <= range[i].green.max
        && range[i].blue.min <= c.blue <= range[i].blue.max
      {
        assert FirstFit(rs, n, c) == i;
        range[i] := AddPixel(range[i], c.red, c.green, c.blue);
        return;
      }
      i := i + 1;
    }
  }

  /** The two loops over the image of one pass. */
  method CountPixels<C>(image: ImageBuffer<C>, rgb: C -> Rgb, range: array<PixelRange>, n: int)
    requires image.Valid() && 0 <= n <= range.Length
    modifies range
    ensures range[..] == Histogram(old(range[..]), n, Flatten(Colours(image.Rows(), rgb)))
  {
    ghost var rows := Colours(image.Rows(), rgb);
    ghost var start := range[..];
    var y := 0;
    while y < image.h
      invariant 0 <= y <= image.h
      invariant range[..] == Histogram(start, n, Flatten(rows[..y]))
    {
      CountRow(image, rgb, range, n, y, start, Flatten(rows[..y]));
      FlattenStep(rows, y);
      y := y + 1;
    }
    assert rows[..image.h] == rows;
  }

  /** The inner loop: the pixels of row `y`, left to right. */
  method CountRow<C>(image: ImageBuffer<C>, rgb: C -> Rgb, range: array<PixelRange>, n: int, y: int,
                     ghost start: seq<PixelRange>, ghost done: seq<Rgb>)
    requires image.Valid() && 0 <= n <= range.Length && 0 <= y < image.h
    requires |start| == range.Length && range[..] == Histogram(start, n, done)
    modifies range
    ensures range[..] == Histogram(start, n, done + Colours(image.Rows(), rgb)[y])
  {
    ghost var row := Colours(image.Rows(), rgb)[y];
    var x := 0;
    assert done + row[..x] == done;
    while x < image.w
      invariant 0 <= x <= image.w
      invariant range[..] == Histogram(start, n, done + row[..x])
    {
      var c := rgb(image.buf[y, x]);
      assert c == row[x];
      AddToFirst(range, n, c);
      HistogramStep(start, n, done, row, x);
      x := x + 1;
    }
    assert row[..image.w] == row;
  }

  /** The division loop: box `i` is divided into itself and box
      `current_range++`. */
  method DivideRanges(range: array<PixelRange>, n: int) returns (current: int)
    requires 1 <= n && 2 * n <= range.Length
    modifies range
    ensures current == 2 * n
    ensures range[..] == DivideUpTo(old(range[..]), n, n)
  {
    ghost var rs := range[..];
    current := n;
    var stop := current;
    var i := 0;
    while i < stop
      invariant 0 <= i <= n && stop == n && current == n + i
      invariant range[..] == DivideUpTo(rs, n, i)
    {
      DivideNext(rs, n, i);
      ghost var before := range[..];
      var a, neu := Divide(range[i]);
      range[i] := a;
      assert range[..] == before[i := a];
      range[current] := neu;
      assert range[..] == before[i := a][n + i := neu];
      current := current + 1;
      i := i + 1;
    }
  }

  /** One histogram pass: the active boxes are cleared and the pixels
      counted. */
  method CountPass<C>(image: ImageBuffer<C>, rgb: C -> Rgb, range: array<PixelRange>, n: int, ghost px: seq<Rgb>)
    requires image.Valid() && px == Flatten(Colours(image.Rows(), rgb))
    requires 0 <= n <= range.Length
    modifies range
    ensures range[..] == Pass(old(range[..]), n, px)
  {
    ClearRanges(range, n);
    CountPixels(image, rgb, range, n);
  }

  /** One pass of `generatePalette_` that is not the last: count, then
      divide every active box. */
  method CountAndDivide<C>(image: ImageBuffer<C>, rgb: C -> Rgb, range: array<PixelRange>, n: int, ghost px: seq<Rgb>)
    requires image.Valid() && px == Flatten(Colours(image.Rows(), rgb))
    requires 1 <= n && 2 * n <= range.Length
    modifies range
    ensures range[..] == DivideUpTo(Pass(old(range[..]), n, px), n, n)
  {
    CountPass(image, rgb, range, n, px);
    var current := DivideRanges(range, n);
  }

  /** The nine passes of `generatePalette_`, up to the `break` after the
      last histogram. */
  method RunPasses<C>(image: ImageBuffer<C>, rgb: C -> Rgb, ghost px: seq<Rgb>) returns (range: array<PixelRange>)
    requires image.Valid() && px == Flatten(Colours(image.Rows(), rgb))
    ensures fresh(range)
    ensures range[..] == FinalRanges(px)
  {
    range := new PixelRange[256](_ => EmptyRange);
    var current := 1;
    var bits := 0;
    while bits < 8
      invariant 0 <= bits <= 8 && current == Pow2(bits)
      invariant range.Length == 256 && range[..] == Rounds(px, bits)
    {
      Pow2Bound(bits + 1);
      CountAndDivide(image, rgb, range, current, px);
      current := 2 * current;
      bits := bits + 1;
    }
    assert current == Pow2(8) == 256;
    CountPass(image, rgb, range, current, px);
  }

  /** The last loop: entry `i` is the mean colour of box `i`. */
  method WritePalette(range: array<PixelRange>, palette: array<Rgb>)
    requires range.Length == 256 && palette.Length == 256
    modifies palette
    ensures forall i :: 0 <= i < 256 ==> palette[i] == Entry(range[i])
  {
    var i := 0;
    while i < 256
      invariant 0 <= i <= 256
      invariant forall k :: 0 <= k < i ==> palette[k] == Entry(range[k])
    {
      var c := if range[i].count == 0 then 1 else range[i].count;
      palette[i] := Rgb(range[i].red.sum / c % 256, range[i].green.sum / c % 256, range[i].blue.sum / c % 256);
      i := i + 1;
    }
  }

  /** `generatePalette_(image, palette)`: the palette is the mean colour of
      each of the 256 boxes of the last pass, and depends on nothing but
      the red, green and blue of the pixels. */
  method GeneratePalette<C>(image: ImageBuffer<C>, rgb: C -> Rgb, palette: array<Rgb>)
    requires image.Valid() && palette.Length == 256
    modifies palette
    ensures palette[..] == PaletteOf(Flatten(Colours(image.Rows(), rgb)))
  {
    ghost var px := Flatten(Colours(image.Rows(), rgb));
    var range := RunPasses(image, rgb, px);
    WritePalette(range, palette);
    assert palette[..] == PaletteOf(px);
  }
}
