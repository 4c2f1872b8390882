/** `decreaseColourUsingErrorDiffusion_` and `decreaseColourSimply_`: the
    two ways of turning a true-colour image into palette indices with a
    `PaletteFinder_`.  Error diffusion keeps, for each channel, a buffer of
    three rows of `w + 4` cells (the current image row and the two below it,
    with two spare cells at either end); each pixel is quantised after adding
    the error gathered at its cell, and its own error is spread over the
    cells ahead of it with the weights of Jarvis, Judice and Ninke.

    The pure functions below define the indices and buffers the two loops
    produce, pixel by pixel; the methods are the loops themselves, proved to
    produce them. */
module Diffusion {
  import opened Base
  import opened Colour
  import opened ImageBuffers
  import opened PaletteOrder
  import opened PaletteFinding
  import opened PaletteGeneration
  import opened Pictures

  /** `ERRPTN`: `PTNH == 3` rows of `PTNW == 5` weights; the pixel being
      quantised sits in column `DAREA == 2` of row 0. */
  const ERRPTN: seq<int> := [0, 0, 0, 7, 5,  3, 5, 7, 5, 3,  1, 3, 5, 3, 1]
  const DAREA: int := 2

  /** The sum of the first `n` weights. */
  function PatternSum(n: int): int
    requires 0 <= n <= |ERRPTN|
  {
    if n == 0 then 0 else PatternSum(n - 1) + ERRPTN[n - 1]
  }

  /** The rows of the pattern weigh 12, 23 and 13: 48 in all. */
  lemma PatternTotal()
    ensures PatternSum(15) == 48
  {
    assert PatternSum(5) == 12;
    assert PatternSum(10) == 12 + 23;
  }

  /** The loop that computes `sumPtn`: the weights add up to 48. */
  method SumPattern() returns (sumPtn: int)
    ensures sumPtn == 48
  {
    sumPtn := 0;
    var i := 0;
    while i < 5 * 3
      invariant 0 <= i <= 15 && sumPtn == PatternSum(i)
    {
      sumPtn := sumPtn + ERRPTN[i];
      i := i + 1;
    }
    PatternTotal();
  }

  //// The error buffers ////////

  /** The weight the pattern gives cell `i` of a buffer of rows of `mx`
      cells when its left column is at column `x`: pattern row and buffer
      row coincide, and cells outside the five columns get nothing. */
  function Weight(mx: int, x: int, i: int): int
  {
    var row := if i < mx then 0 else if i < 2 * mx then 1 else 2;
    var col := if i < mx then i else if i < 2 * mx then i - mx else i - 2 * mx;
    if x <= col < x + 5 then ERRPTN[col - x + 5 * row] else 0
  }

  /** The error `e` of the pixel at column `x + DAREA` spread over the
      buffer: every cell gains `e` times its weight. */
  function Spread(buf: seq<int>, mx: int, x: int, e: int): (r: seq<int>)
    ensures |r| == |buf|
  {
    seq(|buf|, i requires 0 <= i < |buf| => buf[i] + Share(mx, x, e, i))
  }

  /** What cell `i` receives of the error `e`. */
  function Share(mx: int, x: int, e: int, i: int): int
  {
    e * Weight(mx, x, i)
  }

  /** Row 0 of the pattern is zero up to the pixel itself: the pixels of
      the current row already quantised, and the current one, receive
      nothing; nor does anything beyond the pattern's reach in that row. */
  lemma SpreadAhead(buf: seq<int>, mx: int, x: int, e: int)
    requires |buf| == 3 * mx && 0 <= x && x + 4 < mx
    ensures forall i :: 0 <= i < mx && !(x + DAREA < i < x + 5) ==> Spread(buf, mx, x, e)[i] == buf[i]
  {
    forall i | 0 <= i < mx && !(x + DAREA < i < x + 5)
      ensures Spread(buf, mx, x, e)[i] == buf[i]
    {
      assert Share(mx, x, e, i) == 0;
    }
  }

  /** Cell `ix` of pattern row `iy` is cell `x + iy * mx + ix` of the
      buffer. */
  lemma WeightCell(mx: int, x: int, iy: int, ix: int, e: int)
    requires 0 <= x && x + 4 < mx && 0 <= iy < 3 && 0 <= ix < 5
    ensures var k := x + iy * mx + ix;
      0 <= k < 3 * mx && Weight(mx, x, k) == ERRPTN[ix + iy * 5] && Share(mx, x, e, k) == e * ERRPTN[ix + iy * 5]
  {
    var k := x + iy * mx + ix;
    if iy == 0 {
      assert k == x + ix;
    } else if iy == 1 {
      assert k == x + mx + ix;
    } else {
      assert k == x + 2 * mx + ix;
    }
  }

  /** Between the end of one pattern row and the start of the next, and
      after the last, every cell has weight 0. */
  lemma WeightGap(mx: int, x: int, iy: int)
    requires 0 <= x && x + 4 < mx && 0 <= iy < 3
    ensures x + (iy + 1) * mx == x + iy * mx + mx
    ensures forall i, e :: x + iy * mx + 5 <= i < x + (iy + 1) * mx && i < 3 * mx ==> Share(mx, x, e, i) == 0
  {
    var lo, hi := x + iy * mx + 5, x + (iy + 1) * mx;
    if iy == 0 {
      assert lo == x + 5 && hi == x + mx;
    } else if iy == 1 {
      assert lo == x + mx + 5 && hi == x + 2 * mx;
    } else {
      assert lo == x + 2 * mx + 5 && hi == x + 3 * mx;
    }
  }

  /** Cell `k` once the shift has moved every column below `n`, and the
      first `j` rows of column `n`: rows 0 and 1 take the cell below, row 2
      becomes 0. */
  function ShiftCell(buf: seq<int>, mx: int, n: int, j: int, k: int): int
    requires |buf| == 3 * mx && 0 <= k < |buf|
  {
    var row := if k < mx then 0 else if k < 2 * mx then 1 else 2;
    var col := if k < mx then k else if k < 2 * mx then k - mx else k - 2 * mx;
    if col < n || (col == n && row < j) then (if row < 2 then buf[k + mx] else 0) else buf[k]
  }

  /** The buffer after the shift that follows each image row. */
  function Shifted(buf: seq<int>, mx: int): (r: seq<int>)
    requires |buf| == 3 * mx
    ensures |r| == |buf|
  {
    seq(|buf|, k requires 0 <= k < |buf| => ShiftCell(buf, mx, mx, 0, k))
  }

  function Zeros(n: nat): (z: seq<int>)
    ensures |z| == n && forall i :: 0 <= i < n ==> z[i] == 0
  {
    seq(n, _ => 0)
  }

  /** The shift moves rows 1 and 2 up and clears row 2. */
  lemma ShiftRows(buf: seq<int>, mx: nat)
    requires |buf| == 3 * mx
    ensures Shifted(buf, mx) == buf[mx..] + Zeros(mx)
  {
    var r := Shifted(buf, mx);
    forall k | 0 <= k < |buf|
      ensures r[k] == (buf[mx..] + Zeros(mx))[k]
    {
      if k < 2 * mx {
        assert r[k] == buf[k + mx];
      }
    }
  }

  /** Row `j` of column `i` takes the cell below it, which has not moved
      yet; no other cell changes. */
  lemma ShiftMove(buf: seq<int>, mx: int, i: int, j: int)
    requires |buf| == 3 * mx && 0 <= i < mx && 0 <= j < 2
    ensures var k := i + j * mx;
      0 <= k && k + mx < |buf| && i + (j + 1) * mx == k + mx
      && ShiftCell(buf, mx, i, j, k + mx) == buf[k + mx] && ShiftCell(buf, mx, i, j + 1, k) == buf[k + mx]
      && forall k' :: 0 <= k' < |buf| && k' != k ==> ShiftCell(buf, mx, i, j + 1, k') == ShiftCell(buf, mx, i, j, k')
  {
    var k := i + j * mx;
    if j == 0 {
      assert k == i;
    } else {
      assert k == i + mx;
    }
  }

  /** Row 2 of column `i` is cleared, which completes the column. */
  lemma ShiftClear(buf: seq<int>, mx: int, i: int)
    requires |buf| == 3 * mx && 0 <= i < mx
    ensures ShiftCell(buf, mx, i + 1, 0, i + 2 * mx) == 0
    ensures forall k :: 0 <= k < |buf| && k != i + 2 * mx ==> ShiftCell(buf, mx, i + 1, 0, k) == ShiftCell(buf, mx, i, 2, k)
  {
  }

  //// Error diffusion, pixel by pixel ////////

  /** The three buffers `rerr`, `gerr`, `berr`. */
  datatype Errors = Errors(r: seq<int>, g: seq<int>, b: seq<int>)

  predicate Sized(e: Errors, mx: int)
  {
    |e.r| == 3 * mx && |e.g| == 3 * mx && |e.b| == 3 * mx
  }

  function NoErrors(mx: nat): (e: Errors)
    ensures Sized(e, mx)
  {
    Errors(Zeros(3 * mx), Zeros(3 * mx), Zeros(3 * mx))
  }

  /** The pixel at column `x` of colour `c`: each channel plus the error at
      the pixel's cell divided by `sumPtn` (truncated toward zero) is the
      colour wanted; the index is the nearest entry to that colour clamped
      to a channel's range, and what is spread is the wanted colour, not
      clamped, less the entry's. */
  function Quantise(pal: seq<Rgb>, mx: int, x: int, c: Rgb, e: Errors): (res: (Byte, Errors))
    requires |pal| == NPALETTE && 0 <= x && x + 4 < mx && Sized(e, mx)
    ensures Sized(res.1, mx)
  {
    var adr := x + DAREA;
    var rr := c.red + TruncDiv(e.r[adr], 48);
    var gg := c.green + TruncDiv(e.g[adr], 48);
    var bb := c.blue + TruncDiv(e.b[adr], 48);
    var best := Nearest(pal, Rgb(Clamp(rr, 0, 255), Clamp(gg, 0, 255), Clamp(bb, 0, 255)));
    (best, Errors(Spread(e.r, mx, x, rr - pal[best].red), Spread(e.g, mx, x, gg - pal[best].green),
                  Spread(e.b, mx, x, bb - pal[best].blue)))
  }

  /** The indices of the first `n` pixels of a row and the buffers after
      them. */
  function RowUpTo(pal: seq<Rgb>, mx: int, row: seq<Rgb>, n: int, e: Errors): (res: (seq<Byte>, Errors))
    requires |pal| == NPALETTE && 0 <= n <= |row| && |row| + 4 == mx && Sized(e, mx)
    ensures |res.0| == n && Sized(res.1, mx)
    decreases n, 0
  {
    if n == 0 then ([], e)
    else
      var q := Pixel(pal, mx, row, n - 1, e);
      (RowUpTo(pal, mx, row, n - 1, e).0 + [q.0], q.1)
  }

  /** Pixel `x` of a row: its index and the buffers after it, quantised
      from the buffers the pixels before it left. */
  function Pixel(pal: seq<Rgb>, mx: int, row: seq<Rgb>, x: int, e: Errors): (res: (Byte, Errors))
    requires |pal| == NPALETTE && 0 <= x < |row| && |row| + 4 == mx && Sized(e, mx)
    ensures Sized(res.1, mx)
    decreases x, 1
  {
    Quantise(pal, mx, x, row[x], RowUpTo(pal, mx, row, x, e).1)
  }

  function ShiftAll(e: Errors, mx: int): (r: Errors)
    requires Sized(e, mx)
    ensures Sized(r, mx)
  {
    Errors(Shifted(e.r, mx), Shifted(e.g, mx), Shifted(e.b, mx))
  }

  predicate Rectangular(rows: seq<seq<Rgb>>, w: int)
  {
    forall y :: 0 <= y < |rows| ==> |rows[y]| == w
  }

  /** The indices of the first `m` rows of an image `w` pixels wide, and
      the buffers after them: each row starts from the buffers the row
      above left, shifted. */
  function ImageUpTo(pal: seq<Rgb>, w: nat, rows: seq<seq<Rgb>>, m: int): (res: (seq<seq<Byte>>, Errors))
    requires |pal| == NPALETTE && 0 <= m <= |rows| && Rectangular(rows, w)
    ensures |res.0| == m && Sized(res.1, w + 4)
    ensures forall y :: 0 <= y < m ==> |res.0[y]| == w
    decreases m, 0
  {
    if m == 0 then ([], NoErrors(w + 4))
    else
      var r := ImageRow(pal, w, rows, m - 1);
      (ImageUpTo(pal, w, rows, m - 1).0 + [r.0], ShiftAll(r.1, w + 4))
  }

  /** Row `y` of an image: its indices and the buffers after it, starting
      from the buffers the rows above left. */
  function ImageRow(pal: seq<Rgb>, w: nat, rows: seq<seq<Rgb>>, y: int): (res: (seq<Byte>, Errors))
    requires |pal| == NPALETTE && 0 <= y < |rows| && Rectangular(rows, w)
    ensures |res.0| == w && Sized(res.1, w + 4)
    decreases y, 1
  {
    RowUpTo(pal, w + 4, rows[y], w, ImageUpTo(pal, w, rows, y).1)
  }

  /** The indices error diffusion gives an image. */
  function Diffused(pal: seq<Rgb>, w: nat, rows: seq<seq<Rgb>>): (out: seq<seq<Byte>>)
    requires |pal| == NPALETTE && Rectangular(rows, w)
  {
    ImageUpTo(pal, w, rows, |rows|).0
  }

  /** The indices the simple mode gives an image: each pixel's nearest
      entry. */
  function Simple(pal: seq<Rgb>, rows: seq<seq<Rgb>>): (out: seq<seq<Byte>>)
    requires |pal| == NPALETTE
  {
    seq(|rows|, y requires 0 <= y < |rows| => NearestRow(pal, rows[y]))
  }

  //// Diffusion only spreads quantisation error ////////

  /** Every cell of the three buffers is 0. */
  ghost predicate Clean(e: Errors)
  {
    (forall i :: 0 <= i < |e.r| ==> e.r[i] == 0) && (forall i :: 0 <= i < |e.g| ==> e.g[i] == 0)
    && (forall i :: 0 <= i < |e.b| ==> e.b[i] == 0)
  }

  /** Spreading an error of 0 leaves a clean buffer clean. */
  lemma SpreadNothing(buf: seq<int>, mx: int, x: int)
    requires forall i :: 0 <= i < |buf| ==> buf[i] == 0
    ensures forall i :: 0 <= i < |buf| ==> Spread(buf, mx, x, 0)[i] == 0
  {
    forall i | 0 <= i < |buf|
      ensures Spread(buf, mx, x, 0)[i] == 0
    {
      assert Share(mx, x, 0, i) == 0;
    }
  }

  /** With no error gathered, a colour of the palette is its own nearest
      entry and leaves no error. */
  lemma QuantiseExact(pal: seq<Rgb>, mx: int, x: int, c: Rgb, e: Errors)
    requires |pal| == NPALETTE && 0 <= x && x + 4 < mx && Sized(e, mx) && Clean(e) && c in pal
    ensures Quantise(pal, mx, x, c, e).0 == Nearest(pal, c) && Clean(Quantise(pal, mx, x, c, e).1)
  {
    var adr := x + DAREA;
    assert e.r[adr] == 0 && e.g[adr] == 0 && e.b[adr] == 0;
    assert TruncDiv(0, 48) == 0;
    assert Rgb(Clamp(c.red, 0, 255), Clamp(c.green, 0, 255), Clamp(c.blue, 0, 255)) == c;
    NearestMinimal(pal, c);
    SpreadNothing(e.r, mx, x);
    SpreadNothing(e.g, mx, x);
    SpreadNothing(e.b, mx, x);
  }

  /** Each pixel's nearest entry, along a row. */
  function NearestRow(pal: seq<Rgb>, row: seq<Rgb>): (out: seq<Byte>)
    requires |pal| == NPALETTE
    ensures |out| == |row| && forall x :: 0 <= x < |row| ==> out[x] == Nearest(pal, row[x])
  {
    seq(|row|, x requires 0 <= x < |row| => Nearest(pal, row[x]))
  }

  lemma NearestRowSnoc(pal: seq<Rgb>, row: seq<Rgb>, n: int)
    requires |pal| == NPALETTE && 0 < n <= |row|
    ensures NearestRow(pal, row[..n]) == NearestRow(pal, row[..n - 1]) + [Nearest(pal, row[n - 1])]
  {
    assert row[..n][..n - 1] == row[..n - 1];
  }

  /** One more pixel of a palette colour, on clean buffers. */
  lemma RowStep(pal: seq<Rgb>, mx: int, row: seq<Rgb>, n: int, e: Errors)
    requires |pal| == NPALETTE && 0 < n <= |row| && |row| + 4 == mx && Sized(e, mx) && row[n - 1] in pal
    requires RowUpTo(pal, mx, row, n - 1, e).0 == NearestRow(pal, row[..n - 1])
    requires Clean(RowUpTo(pal, mx, row, n - 1, e).1)
    ensures RowUpTo(pal, mx, row, n, e).0 == NearestRow(pal, row[..n])
    ensures Clean(RowUpTo(pal, mx, row, n, e).1)
  {
    var prev := RowUpTo(pal, mx, row, n - 1, e);
    var q := Quantise(pal, mx, n - 1, row[n - 1], prev.1);
    assert Pixel(pal, mx, row, n - 1, e) == q;
    assert RowUpTo(pal, mx, row, n, e) == (prev.0 + [q.0], q.1);
    QuantiseExact(pal, mx, n - 1, row[n - 1], prev.1);
    NearestRowSnoc(pal, row, n);
  }

  /** Along a row of palette colours, starting from clean buffers, each
      pixel gets its nearest entry and the buffers stay clean. */
  lemma {:induction false} RowExact(pal: seq<Rgb>, mx: int, row: seq<Rgb>, n: int, e: Errors)
    requires |pal| == NPALETTE && 0 <= n <= |row| && |row| + 4 == mx && Sized(e, mx) && Clean(e)
    requires forall x :: 0 <= x < |row| ==> row[x] in pal
    ensures RowUpTo(pal, mx, row, n, e).0 == NearestRow(pal, row[..n])
    ensures Clean(RowUpTo(pal, mx, row, n, e).1)
  {
    if n > 0 {
      RowExact(pal, mx, row, n - 1, e);
      RowStep(pal, mx, row, n, e);
    } else {
      assert NearestRow(pal, row[..0]) == [];
    }
  }

  lemma SimpleSnoc(pal: seq<Rgb>, rows: seq<seq<Rgb>>, m: int)
    requires |pal| == NPALETTE && 0 < m <= |rows|
    ensures Simple(pal, rows[..m]) == Simple(pal, rows[..m - 1]) + [NearestRow(pal, rows[m - 1])]
  {
    assert rows[..m][..m - 1] == rows[..m - 1];
  }

  /** The shift keeps clean buffers clean. */
  lemma ShiftClean(e: Errors, mx: int)
    requires Sized(e, mx) && Clean(e)
    ensures Clean(ShiftAll(e, mx))
  {
    assert 0 <= mx;
    ShiftRows(e.r, mx);
    ShiftRows(e.g, mx);
    ShiftRows(e.b, mx);
  }

  /** One more row of palette colours, on clean buffers. */
  lemma ImageStep(pal: seq<Rgb>, w: nat, rows: seq<seq<Rgb>>, m: int)
    requires |pal| == NPALETTE && 0 < m <= |rows| && Rectangular(rows, w)
    requires forall y, x :: 0 <= y < |rows| && 0 <= x < w ==> rows[y][x] in pal
    requires ImageUpTo(pal, w, rows, m - 1).0 == Simple(pal, rows[..m - 1])
    requires Clean(ImageUpTo(pal, w, rows, m - 1).1)
    ensures ImageUpTo(pal, w, rows, m).0 == Simple(pal, rows[..m])
    ensures Clean(ImageUpTo(pal, w, rows, m).1)
  {
    var prev := ImageUpTo(pal, w, rows, m - 1);
    assert ImageRow(pal, w, rows, m - 1) == RowUpTo(pal, w + 4, rows[m - 1], w, prev.1);
    RowExact(pal, w + 4, rows[m - 1], w, prev.1);
    assert rows[m - 1][..w] == rows[m - 1];
    ShiftClean(RowUpTo(pal, w + 4, rows[m - 1], w, prev.1).1, w + 4);
    SimpleSnoc(pal, rows, m);
  }

  /** Over an image of palette colours the buffers stay clean and each
      row gets the nearest entries of its pixels. */
  lemma {:induction false} ImageExact(pal: seq<Rgb>, w: nat, rows: seq<seq<Rgb>>, m: int)
    requires |pal| == NPALETTE && 0 <= m <= |rows| && Rectangular(rows, w)
    requires forall y, x :: 0 <= y < |rows| && 0 <= x < w ==> rows[y][x] in pal
    ensures ImageUpTo(pal, w, rows, m).0 == Simple(pal, rows[..m])
    ensures Clean(ImageUpTo(pal, w, rows, m).1)
  {
    if m > 0 {
      ImageExact(pal, w, rows, m - 1);
      ImageStep(pal, w, rows, m);
    } else {
      assert Simple(pal, rows[..0]) == [];
    }
  }

  /** On an image whose every colour is in the palette, error diffusion
      gives the same indices as the simple mode: it only spreads the error
      of quantising. */
  lemma DiffusionOfPaletteColours(pal: seq<Rgb>, w: nat, rows: seq<seq<Rgb>>)
    requires |pal| == NPALETTE && Rectangular(rows, w)
    requires forall y, x :: 0 <= y < |rows| && 0 <= x < w ==> rows[y][x] in pal
    ensures Diffused(pal, w, rows) == Simple(pal, rows)
  {
    ImageExact(pal, w, rows, |rows|);
    assert rows[..|rows|] == rows;
  }

  //// The loops ////////

  /** The cells of `a` below `lim` have received their share of `e`; the
      others still hold `buf`. */
  ghost predicate SpreadTo(a: array<int>, buf: seq<int>, mx: int, x: int, e: int, lim: int)
    reads a
  {
    a.Length == |buf| && forall i :: 0 <= i < |buf| ==> a[i] == buf[i] + (if i < lim then Share(mx, x, e, i) else 0)
  }

  /** The cells between two pattern rows receive nothing. */
  lemma SpreadGap(a: array<int>, buf: seq<int>, mx: int, x: int, e: int, iy: int)
    requires |buf| == 3 * mx && 0 <= x && x + 4 < mx && 0 <= iy < 3
    requires SpreadTo(a, buf, mx, x, e, x + iy * mx + 5)
    ensures SpreadTo(a, buf, mx, x, e, x + iy * mx + mx)
  {
    WeightGap(mx, x, iy);
  }

  /** Once the three pattern rows are done, the buffer is spread. */
  lemma SpreadDone(a: array<int>, buf: seq<int>, mx: int, x: int, e: int)
    requires |buf| == 3 * mx && 0 <= x && SpreadTo(a, buf, mx, x, e, x + 3 * mx)
    ensures a[..] == Spread(buf, mx, x, e)
  {
  }

  /** `err[adr + ix] += e * ERRPTN[ix + iy * PTNW]` on one buffer: the
      next cell of the pattern receives its share. */
  method Accumulate(a: array<int>, ghost buf: seq<int>, mx: int, x: int, e: int, iy: int, ix: int, adr: int)
    requires a.Length == 3 * mx && 0 <= x && x + 4 < mx && 0 <= iy < 3 && 0 <= ix < 5 && adr == x + iy * mx
    requires SpreadTo(a, buf, mx, x, e, adr + ix)
    modifies a
    ensures SpreadTo(a, buf, mx, x, e, adr + ix + 1)
  {
    WeightCell(mx, x, iy, ix, e);
    a[adr + ix] := a[adr + ix] + e * ERRPTN[ix + iy * 5];
  }

  /** The inner loop over `ix` for pattern row `iy`, which starts at
      `adr`: the five cells of that row receive their shares, and the cells
      up to the next pattern row nothing. */
  method SpreadRow(rerr: array<int>, gerr: array<int>, berr: array<int>, ghost r0: seq<int>, ghost g0: seq<int>,
                   ghost b0: seq<int>, mx: int, x: int, re: int, ge: int, be: int, iy: int, adr: int)
    requires rerr.Length == 3 * mx && gerr.Length == 3 * mx && berr.Length == 3 * mx && 0 <= x && x + 4 < mx
    requires rerr != gerr && rerr != berr && gerr != berr && 0 <= iy < 3 && adr == x + iy * mx
    requires SpreadTo(rerr, r0, mx, x, re, adr) && SpreadTo(gerr, g0, mx, x, ge, adr) && SpreadTo(berr, b0, mx, x, be, adr)
    modifies rerr, gerr, berr
    ensures SpreadTo(rerr, r0, mx, x, re, adr + mx) && SpreadTo(gerr, g0, mx, x, ge, adr + mx)
    ensures SpreadTo(berr, b0, mx, x, be, adr + mx)
  {
    var ix := 0;
    while ix < 5
      invariant 0 <= ix <= 5
      invariant SpreadTo(rerr, r0, mx, x, re, adr + ix) && SpreadTo(gerr, g0, mx, x, ge, adr + ix)
      invariant SpreadTo(berr, b0, mx, x, be, adr + ix)
    {
      Accumulate(rerr, r0, mx, x, re, iy, ix, adr);
      Accumulate(gerr, g0, mx, x, ge, iy, ix, adr);
      Accumulate(berr, b0, mx, x, be, iy, ix, adr);
      ix := ix + 1;
    }
    SpreadGap(rerr, r0, mx, x, re, iy);
    SpreadGap(gerr, g0, mx, x, ge, iy);
    SpreadGap(berr, b0, mx, x, be, iy);
  }

  /** The loops spreading one pixel's error over the three buffers:
      `adr` walks the three rows, and every index written stays inside
      the buffers. */
  method SpreadErrors(rerr: array<int>, gerr: array<int>, berr: array<int>, mx: int, x: int, re: int, ge: int, be: int)
    requires rerr.Length == 3 * mx && gerr.Length == 3 * mx && berr.Length == 3 * mx && 0 <= x && x + 4 < mx
    requires rerr != gerr && rerr != berr && gerr != berr
    modifies rerr, gerr, berr
    ensures rerr[..] == Spread(old(rerr[..]), mx, x, re)
    ensures gerr[..] == Spread(old(gerr[..]), mx, x, ge)
    ensures berr[..] == Spread(old(berr[..]), mx, x, be)
  {
    ghost var r0, g0, b0 := rerr[..], gerr[..], berr[..];
    var adr := x;
    var iy := 0;
    while iy < 3
      invariant 0 <= iy <= 3 && adr == x + iy * mx
      invariant SpreadTo(rerr, r0, mx, x, re, adr) && SpreadTo(gerr, g0, mx, x, ge, adr) && SpreadTo(berr, b0, mx, x, be, adr)
    {
      SpreadRow(rerr, gerr, berr, r0, g0, b0, mx, x, re, ge, be, iy, adr);
      iy := iy + 1;
      adr := adr + mx;
    }
    SpreadDone(rerr, r0, mx, x, re);
    SpreadDone(gerr, g0, mx, x, ge);
    SpreadDone(berr, b0, mx, x, be);
  }

  /** The cells of `a` hold the buffer `buf` part-way through the
      shift. */
  ghost predicate ShiftedTo(a: array<int>, buf: seq<int>, mx: int, n: int, j: int)
    reads a
  {
    |buf| == 3 * mx && a.Length == |buf| && forall k :: 0 <= k < |buf| ==> a[k] == ShiftCell(buf, mx, n, j, k)
  }

  lemma ShiftDone(a: array<int>, buf: seq<int>, mx: int)
    requires ShiftedTo(a, buf, mx, mx, 0)
    ensures a[..] == Shifted(buf, mx)
  {
  }

  /** `a[i + j * mx] = a[i + (j + 1) * mx]`: row `j` of column `i` takes
      the cell below it. */
  method MoveUp(a: array<int>, ghost buf: seq<int>, mx: int, i: int, j: int)
    requires 0 <= i < mx && 0 <= j < 2 && ShiftedTo(a, buf, mx, i, j)
    modifies a
    ensures ShiftedTo(a, buf, mx, i, j + 1)
  {
    ShiftMove(buf, mx, i, j);
    a[i + j * mx] := a[i + (j + 1) * mx];
  }

  /** `a[i + 2 * mx] = 0`: row 2 of column `i` is cleared. */
  method ClearBottom(a: array<int>, ghost buf: seq<int>, mx: int, i: int)
    requires 0 <= i < mx && ShiftedTo(a, buf, mx, i, 2)
    modifies a
    ensures ShiftedTo(a, buf, mx, i + 1, 0)
  {
    ShiftClear(buf, mx, i);
    a[i + 2 * mx] := 0;
  }

  /** The shift after each image row: rows 1 and 2 of each buffer move up
      and row 2 is cleared, column by column. */
  method ShiftErrors(rerr: array<int>, gerr: array<int>, berr: array<int>, mx: int)
    requires rerr.Length == 3 * mx && gerr.Length == 3 * mx && berr.Length == 3 * mx
    requires rerr != gerr && rerr != berr && gerr != berr
    modifies rerr, gerr, berr
    ensures rerr[..] == Shifted(old(rerr[..]), mx)
    ensures gerr[..] == Shifted(old(gerr[..]), mx)
    ensures berr[..] == Shifted(old(berr[..]), mx)
  {
    ghost var r0, g0, b0 := rerr[..], gerr[..], berr[..];
    var i := 0;
    while i < mx
      invariant 0 <= i && (mx >= 0 ==> i <= mx)
      invariant ShiftedTo(rerr, r0, mx, i, 0) && ShiftedTo(gerr, g0, mx, i, 0) && ShiftedTo(berr, b0, mx, i, 0)
    {
      var j := 0;
      while j < 2
        invariant 0 <= j <= 2
        invariant ShiftedTo(rerr, r0, mx, i, j) && ShiftedTo(gerr, g0, mx, i, j) && ShiftedTo(berr, b0, mx, i, j)
      {
        MoveUp(rerr, r0, mx, i, j);
        MoveUp(gerr, g0, mx, i, j);
        MoveUp(berr, b0, mx, i, j);
        j := j + 1;
      }
      ClearBottom(rerr, r0, mx, i);
      ClearBottom(gerr, g0, mx, i);
      ClearBottom(berr, b0, mx, i);
      i := i + 1;
    }
    ShiftDone(rerr, r0, mx);
    ShiftDone(gerr, g0, mx);
    ShiftDone(berr, b0, mx);
  }

  //// The loops over the image ////////

  /** `Quantise` from the wanted colour `(rr, gg, bb)` and the entry the
      finder picked for it. */
  lemma QuantiseOf(pal: seq<Rgb>, mx: int, x: int, c: Rgb, e: Errors, rr: int, gg: int, bb: int, best: Byte,
                   re: int, ge: int, be: int)
    requires |pal| == NPALETTE && 0 <= x && x + 4 < mx && Sized(e, mx)
    requires rr == c.red + TruncDiv(e.r[x + DAREA], 48) && gg == c.green + TruncDiv(e.g[x + DAREA], 48)
    requires bb == c.blue + TruncDiv(e.b[x + DAREA], 48)
    requires best == Nearest(pal, Rgb(Clamp(rr, 0, 255), Clamp(gg, 0, 255), Clamp(bb, 0, 255)))
    requires re == rr - pal[best].red && ge == gg - pal[best].green && be == bb - pal[best].blue
    ensures Quantise(pal, mx, x, c, e) == (best, Errors(Spread(e.r, mx, x, re), Spread(e.g, mx, x, ge), Spread(e.b, mx, x, be)))
  {
  }

  /** The body of the pixel loop up to the write: the wanted colour from
      the buffers, its nearest entry found through the finder, and the
      error spread.  The buffers become those `Quantise` leaves and the
      index is the one it picks. */
  method DiffusePixel(pal: array<Rgb>, pf: PaletteFinder, color: Rgb, rerr: array<int>, gerr: array<int>,
                      berr: array<int>, mx: int, x: int, sumPtn: int) returns (best: Byte)
    requires pf.Valid() && pal[..] == pf.pal && sumPtn == 48
    requires rerr.Length == 3 * mx && gerr.Length == 3 * mx && berr.Length == 3 * mx && 0 <= x && x + 4 < mx
    requires rerr != gerr && rerr != berr && gerr != berr
    modifies rerr, gerr, berr
    ensures var q := Quantise(pf.pal, mx, x, color, Errors(old(rerr[..]), old(gerr[..]), old(berr[..])));
      best == q.0 && Errors(rerr[..], gerr[..], berr[..]) == q.1
  {
    ghost var e := Errors(rerr[..], gerr[..], berr[..]);
    var adr := x + DAREA;
    var rr := color.red + TruncDiv(rerr[adr], sumPtn);
    var gg := color.green + TruncDiv(gerr[adr], sumPtn);
    var bb := color.blue + TruncDiv(berr[adr], sumPtn);
    var r2, g2, b2 := Clamp(rr, 0, 255), Clamp(gg, 0, 255), Clamp(bb, 0, 255);
    best := pf.FindNearest(pal[..], Rgb(r2, g2, b2));
    assert pal[best] == pf.pal[best];
    var re := rr - pal[best].red;
    var ge := gg - pal[best].green;
    var be := bb - pal[best].blue;
    assert Errors(rerr[..], gerr[..], berr[..]) == e;
    QuantiseOf(pf.pal, mx, x, color, e, rr, gg, bb, best, re, ge, be);
    SpreadErrors(rerr, gerr, berr, mx, x, re, ge, be);
  }

  /** `RowUpTo` one pixel further. */
  lemma RowNext(pal: seq<Rgb>, mx: int, row: seq<Rgb>, n: int, e: Errors)
    requires |pal| == NPALETTE && 0 <= n < |row| && |row| + 4 == mx && Sized(e, mx)
    ensures var prev := RowUpTo(pal, mx, row, n, e);
      var q := Quantise(pal, mx, n, row[n], prev.1);
      RowUpTo(pal, mx, row, n + 1, e) == (prev.0 + [q.0], q.1)
  {
    assert Pixel(pal, mx, row, n, e) == Quantise(pal, mx, n, row[n], RowUpTo(pal, mx, row, n, e).1);
  }

  /** The pixel `x` of the row, as `RowUpTo` takes it one pixel further. */
  method DiffuseNext(pal: array<Rgb>, pf: PaletteFinder, color: Rgb, rerr: array<int>, gerr: array<int>,
                     berr: array<int>, mx: int, x: int, sumPtn: int, ghost row: seq<Rgb>, ghost e0: Errors,
                     ghost out: seq<Byte>) returns (best: Byte)
    requires pf.Valid() && pal[..] == pf.pal && sumPtn == 48
    requires rerr.Length == 3 * mx && gerr.Length == 3 * mx && berr.Length == 3 * mx
    requires rerr != gerr && rerr != berr && gerr != berr
    requires |row| + 4 == mx && 0 <= x < |row| && color == row[x] && Sized(e0, mx)
    requires (out, Errors(rerr[..], gerr[..], berr[..])) == RowUpTo(pf.pal, mx, row, x, e0)
    modifies rerr, gerr, berr
    ensures (out + [best], Errors(rerr[..], gerr[..], berr[..])) == RowUpTo(pf.pal, mx, row, x + 1, e0)
  {
    RowNext(pf.pal, mx, row, x, e0);
    best := DiffusePixel(pal, pf, color, rerr, gerr, berr, mx, x, sumPtn);
  }

  /** Row `y` of `buf` starts with the indices `out`. */
  ghost predicate RowHolds(buf: array2<Byte>, y: int, out: seq<Byte>)
    reads buf
  {
    0 <= y < buf.Length0 && |out| <= buf.Length1 && forall i :: 0 <= i < |out| ==> buf[y, i] == out[i]
  }

  /** The body of the pixel loop: pixel `x` of row `y` of the destination
      becomes the next index of the row, and no other pixel changes. */
  method DiffuseAt<C>(src: ImageBuffer<C>, rgb: C -> Rgb, dst: PictureIndexed, pf: PaletteFinder, y: int, x: int,
                      rerr: array<int>, gerr: array<int>, berr: array<int>, mx: int, sumPtn: int,
                      ghost row: seq<Rgb>, ghost e0: Errors, ghost out: seq<Byte>)
    requires src.Valid() && dst.Valid() && pf.Valid() && dst.pal[..] == pf.pal && sumPtn == 48
    requires 0 <= y < src.h && 0 <= x < src.w <= dst.image.w && src.h <= dst.image.h && mx == src.w + 4
    requires |row| == src.w && row[x] == rgb(src.buf[y, x]) && Sized(e0, mx)
    requires rerr.Length == 3 * mx && gerr.Length == 3 * mx && berr.Length == 3 * mx
    requires rerr != gerr && rerr != berr && gerr != berr
    requires (out, Errors(rerr[..], gerr[..], berr[..])) == RowUpTo(pf.pal, mx, row, x, e0)
    modifies rerr, gerr, berr, dst.image.buf
    requires |out| == x && RowHolds(dst.image.buf, y, out)
    ensures (out + [dst.image.buf[y, x]], Errors(rerr[..], gerr[..], berr[..])) == RowUpTo(pf.pal, mx, row, x + 1, e0)
    ensures RowHolds(dst.image.buf, y, out + [dst.image.buf[y, x]])
    ensures forall j, i :: 0 <= j < dst.image.h && 0 <= i < dst.image.w && !(j == y && i == x) ==>
                            dst.image.buf[j, i] == old(dst.image.buf[j, i])
  {
    var color := rgb(src.buf[y, x]);
    var best := DiffuseNext(dst.pal, pf, color, rerr, gerr, berr, mx, x, sumPtn, row, e0, out);
    ghost var errs := Errors(rerr[..], gerr[..], berr[..]);
    WriteIndex(dst.image.buf, y, x, best, out);
    assert Errors(rerr[..], gerr[..], berr[..]) == errs;
  }

  /** `pdst[x] = best` in row `y`: the row's indices grow by one, and no
      other pixel changes. */
  method WriteIndex(buf: array2<Byte>, y: int, x: int, best: Byte, ghost out: seq<Byte>)
    requires 0 <= y < buf.Length0 && 0 <= x < buf.Length1 && |out| == x && RowHolds(buf, y, out)
    modifies buf
    ensures buf[y, x] == best && RowHolds(buf, y, out + [best])
    ensures forall j, i :: 0 <= j < buf.Length0 && 0 <= i < buf.Length1 && !(j == y && i == x) ==>
                            buf[j, i] == old(buf[j, i])
  {
    buf[y, x] := best;
  }

  /** One pass of the pixel loop over row `y` of the source: pixel `x` of
      the destination becomes the index `RowUpTo` gives it, the buffers
      become those the row leaves, and no other pixel changes. */
  method DiffuseRow<C>(src: ImageBuffer<C>, rgb: C -> Rgb, dst: PictureIndexed, pf: PaletteFinder, y: int,
                       rerr: array<int>, gerr: array<int>, berr: array<int>, mx: int, sumPtn: int, ghost row: seq<Rgb>)
    requires src.Valid() && dst.Valid() && pf.Valid() && dst.pal[..] == pf.pal && sumPtn == 48
    requires 0 <= y < src.h && src.w <= dst.image.w && src.h <= dst.image.h && mx == src.w + 4
    requires src.buf as object != dst.image.buf
    requires |row| == src.w && forall x :: 0 <= x < src.w ==> row[x] == rgb(src.buf[y, x])
    requires rerr.Length == 3 * mx && gerr.Length == 3 * mx && berr.Length == 3 * mx
    requires rerr != gerr && rerr != berr && gerr != berr && {rerr, gerr, berr} !! {pf.next, pf.index}
    modifies rerr, gerr, berr, dst.image.buf
    ensures var r := RowUpTo(pf.pal, mx, row, src.w, old(Errors(rerr[..], gerr[..], berr[..])));
      Errors(rerr[..], gerr[..], berr[..]) == r.1 && RowHolds(dst.image.buf, y, r.0)
    ensures forall j, i :: 0 <= j < dst.image.h && 0 <= i < dst.image.w && !(j == y && i < src.w) ==>
                            dst.image.buf[j, i] == old(dst.image.buf[j, i])
  {
    ghost var e0 := Errors(rerr[..], gerr[..], berr[..]);
    ghost var out: seq<Byte> := [];
    var x := 0;
    while x < src.w
      invariant 0 <= x <= src.w
      invariant |out| == x && (out, Errors(rerr[..], gerr[..], berr[..])) == RowUpTo(pf.pal, mx, row, x, e0)
      invariant RowHolds(dst.image.buf, y, out)
      invariant forall j, i :: 0 <= j < dst.image.h && 0 <= i < dst.image.w && !(j == y && i < x) ==>
                                dst.image.buf[j, i] == old(dst.image.buf[j, i])
    {
      DiffuseAt(src, rgb, dst, pf, y, x, rerr, gerr, berr, mx, sumPtn, row, e0, out);
      out := out + [dst.image.buf[y, x]];
      x := x + 1;
    }
  }

  /** The source's colours, row by row. */
  ghost function ColourRows<C>(src: ImageBuffer<C>, rgb: C -> Rgb): (rows: seq<seq<Rgb>>)
    requires src.Valid()
    reads src, src.buf
    ensures |rows| == src.h && Rectangular(rows, src.w)
    ensures forall y, x :: 0 <= y < src.h && 0 <= x < src.w ==> rows[y][x] == rgb(src.buf[y, x])
  {
    Colours(src.Rows(), rgb)
  }

  /** `ImageUpTo` one row further. */
  lemma ImageNext(pal: seq<Rgb>, w: nat, rows: seq<seq<Rgb>>, m: int)
    requires |pal| == NPALETTE && 0 <= m < |rows| && Rectangular(rows, w)
    ensures var prev := ImageUpTo(pal, w, rows, m);
      var r := RowUpTo(pal, w + 4, rows[m], w, prev.1);
      ImageUpTo(pal, w, rows, m + 1) == (prev.0 + [r.0], ShiftAll(r.1, w + 4))
  {
    assert ImageRow(pal, w, rows, m) == RowUpTo(pal, w + 4, rows[m], w, ImageUpTo(pal, w, rows, m).1);
  }

  /** The rows `out` of indices are the first rows of `buf`. */
  ghost predicate RowsHold(buf: array2<Byte>, out: seq<seq<Byte>>, w: int)
    reads buf
  {
    |out| <= buf.Length0 && 0 <= w <= buf.Length1
    && forall j, i :: 0 <= j < |out| && 0 <= i < w && i < |out[j]| ==> buf[j, i] == out[j][i]
  }

  lemma RowsHoldSnoc(buf: array2<Byte>, out: seq<seq<Byte>>, w: int, r: seq<Byte>)
    requires RowsHold(buf, out, w) && RowHolds(buf, |out|, r) && |r| == w
    ensures RowsHold(buf, out + [r], w)
  {
  }

  /** One pass of the outer loop: row `y`, then the shift of the buffers
      one row up. */
  method DiffuseImageRow<C>(src: ImageBuffer<C>, rgb: C -> Rgb, dst: PictureIndexed, pf: PaletteFinder, y: int,
                            rerr: array<int>, gerr: array<int>, berr: array<int>, mx: int, sumPtn: int,
                            ghost rows: seq<seq<Rgb>>)
    requires src.Valid() && dst.Valid() && pf.Valid() && dst.pal[..] == pf.pal && sumPtn == 48
    requires 0 <= y < src.h && src.w <= dst.image.w && src.h <= dst.image.h && mx == src.w + 4
    requires src.buf as object != dst.image.buf && rows == ColourRows(src, rgb)
    requires rerr.Length == 3 * mx && gerr.Length == 3 * mx && berr.Length == 3 * mx
    requires rerr != gerr && rerr != berr && gerr != berr && {rerr, gerr, berr} !! {pf.next, pf.index}
    requires Errors(rerr[..], gerr[..], berr[..]) == ImageUpTo(pf.pal, src.w, rows, y).1
    requires RowsHold(dst.image.buf, ImageUpTo(pf.pal, src.w, rows, y).0, src.w)
    modifies rerr, gerr, berr, dst.image.buf
    ensures Errors(rerr[..], gerr[..], berr[..]) == ImageUpTo(pf.pal, src.w, rows, y + 1).1
    ensures RowsHold(dst.image.buf, ImageUpTo(pf.pal, src.w, rows, y + 1).0, src.w)
    ensures forall j, i :: 0 <= j < dst.image.h && 0 <= i < dst.image.w && !(j == y && i < src.w) ==>
                            dst.image.buf[j, i] == old(dst.image.buf[j, i])
  {
    ghost var prev := ImageUpTo(pf.pal, src.w, rows, y);
    ImageNext(pf.pal, src.w, rows, y);
    DiffuseRow(src, rgb, dst, pf, y, rerr, gerr, berr, mx, sumPtn, rows[y]);
    ghost var r := RowUpTo(pf.pal, mx, rows[y], src.w, prev.1);
    RowsHoldSnoc(dst.image.buf, prev.0, src.w, r.0);
    ShiftErrors(rerr, gerr, berr, mx);
  }

  /** The outer loop over the rows, from empty buffers: the first `src.h`
      rows of the destination become the indices `ImageUpTo` gives. */
  method DiffuseImage<C>(src: ImageBuffer<C>, rgb: C -> Rgb, dst: PictureIndexed, pf: PaletteFinder,
                         rerr: array<int>, gerr: array<int>, berr: array<int>, mx: int, sumPtn: int,
                         ghost rows: seq<seq<Rgb>>)
    requires src.Valid() && dst.Valid() && pf.Valid() && dst.pal[..] == pf.pal && sumPtn == 48
    requires src.w <= dst.image.w && src.h <= dst.image.h && mx == src.w + 4
    requires src.buf as object != dst.image.buf && rows == ColourRows(src, rgb)
    requires rerr.Length == 3 * mx && gerr.Length == 3 * mx && berr.Length == 3 * mx
    requires rerr != gerr && rerr != berr && gerr != berr && {rerr, gerr, berr} !! {pf.next, pf.index}
    requires Errors(rerr[..], gerr[..], berr[..]) == NoErrors(mx)
    modifies rerr, gerr, berr, dst.image.buf
    ensures RowsHold(dst.image.buf, ImageUpTo(pf.pal, src.w, rows, src.h).0, src.w)
    ensures forall j, i :: 0 <= j < dst.image.h && 0 <= i < dst.image.w && !(j < src.h && i < src.w) ==>
                            dst.image.buf[j, i] == old(dst.image.buf[j, i])
  {
    var y := 0;
    while y < src.h
      invariant 0 <= y <= src.h
      invariant Errors(rerr[..], gerr[..], berr[..]) == ImageUpTo(pf.pal, src.w, rows, y).1
      invariant RowsHold(dst.image.buf, ImageUpTo(pf.pal, src.w, rows, y).0, src.w)
      invariant forall j, i :: 0 <= j < dst.image.h && 0 <= i < dst.image.w && !(j < y && i < src.w) ==>
                                dst.image.buf[j, i] == old(dst.image.buf[j, i])
    {
      DiffuseImageRow(src, rgb, dst, pf, y, rerr, gerr, berr, mx, sumPtn, rows);
      y := y + 1;
    }
  }

  /** `decreaseColourUsingErrorDiffusion_`: every pixel of the source's
      `w` by `h` rectangle gets the index error diffusion gives it with the
      finder's palette, and no other pixel of the destination changes. */
  method DecreaseColourUsingErrorDiffusion<C>(src: ImageBuffer<C>, rgb: C -> Rgb, dst: PictureIndexed, pf: PaletteFinder)
    requires src.Valid() && dst.Valid() && pf.Valid() && dst.pal[..] == pf.pal
    requires src.w <= dst.image.w && src.h <= dst.image.h && src.buf as object != dst.image.buf
    modifies dst.image.buf
    ensures forall y, x :: 0 <= y < src.h && 0 <= x < src.w ==>
                            dst.image.buf[y, x] == Diffused(pf.pal, src.w, ColourRows(src, rgb))[y][x]
    ensures forall y, x :: 0 <= y < dst.image.h && 0 <= x < dst.image.w && !(y < src.h && x < src.w) ==>
                            dst.image.buf[y, x] == old(dst.image.buf[y, x])
  {
    var sumPtn := SumPattern();
    var mx := src.w + DAREA * 2;
    var sum := mx * 3;
    // `make_unique<int[]>` followed by `fill_n(…, 0)`
    var rerr := new int[sum](_ => 0);
    var gerr := new int[sum](_ => 0);
    var berr := new int[sum](_ => 0);
    ghost var rows := ColourRows(src, rgb);
    assert Errors(rerr[..], gerr[..], berr[..]) == NoErrors(mx);
    DiffuseImage(src, rgb, dst, pf, rerr, gerr, berr, mx, sumPtn, rows);
    assert ColourRows(src, rgb) == rows;
  }

  /** One pass of the outer loop of `decreaseColourSimply_`: each pixel of
      row `y` gets the nearest entry to its colour. */
  method NearestAlongRow<C>(src: ImageBuffer<C>, rgb: C -> Rgb, dst: PictureIndexed, pf: PaletteFinder, y: int)
    requires src.Valid() && dst.Valid() && pf.Valid() && dst.pal[..] == pf.pal
    requires 0 <= y < src.h && src.w <= dst.image.w && src.h <= dst.image.h && src.buf as object != dst.image.buf
    modifies dst.image.buf
    ensures forall x :: 0 <= x < src.w ==> dst.image.buf[y, x] == Nearest(pf.pal, rgb(src.buf[y, x]))
    ensures forall j, i :: 0 <= j < dst.image.h && 0 <= i < dst.image.w && !(j == y && i < src.w) ==>
                            dst.image.buf[j, i] == old(dst.image.buf[j, i])
  {
    var x := 0;
    while x < src.w
      invariant 0 <= x <= src.w
      invariant forall i :: 0 <= i < x ==> dst.image.buf[y, i] == Nearest(pf.pal, rgb(src.buf[y, i]))
      invariant forall j, i :: 0 <= j < dst.image.h && 0 <= i < dst.image.w && !(j == y && i < x) ==>
                                dst.image.buf[j, i] == old(dst.image.buf[j, i])
    {
      var best := pf.FindNearest(dst.pal[..], rgb(src.buf[y, x]));
      dst.image.buf[y, x] := best;
      x := x + 1;
    }
  }

  /** `decreaseColourSimply_`: every pixel of the source's `w` by `h`
      rectangle gets the index the simple mode gives it, the nearest entry
      of the finder's palette, and no other pixel of the destination
      changes. */
  method DecreaseColourSimply<C>(src: ImageBuffer<C>, rgb: C -> Rgb, dst: PictureIndexed, pf: PaletteFinder)
    requires src.Valid() && dst.Valid() && pf.Valid() && dst.pal[..] == pf.pal
    requires src.w <= dst.image.w && src.h <= dst.image.h && src.buf as object != dst.image.buf
    modifies dst.image.buf
    ensures forall y, x :: 0 <= y < src.h && 0 <= x < src.w ==>
                            dst.image.buf[y, x] == Simple(pf.pal, ColourRows(src, rgb))[y][x]
    ensures forall y, x :: 0 <= y < dst.image.h && 0 <= x < dst.image.w && !(y < src.h && x < src.w) ==>
                            dst.image.buf[y, x] == old(dst.image.buf[y, x])
  {
    var y := 0;
    while y < src.h
      invariant 0 <= y <= src.h
      invariant forall j, i :: 0 <= j < y && 0 <= i < src.w ==> dst.image.buf[j, i] == Nearest(pf.pal, rgb(src.buf[j, i]))
      invariant forall j, i :: 0 <= j < dst.image.h && 0 <= i < dst.image.w && !(j < y && i < src.w) ==>
                                dst.image.buf[j, i] == old(dst.image.buf[j, i])
    {
      NearestAlongRow(src, rgb, dst, pf, y);
      y := y + 1;
    }
  }
}
