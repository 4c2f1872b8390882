/** The raster every drawing, blit and quantisation operation works on:
    `ImageBuffer<C>`, a `w` x `h` grid of pixels of type `C` stored row by row,
    `pitch` bytes per row.  The byte buffer and the `reinterpret_cast` from a
    row address to `C*` become a two-dimensional array indexed `[y, x]`. */
module ImageBuffers {
  import opened Base

  /** `Point` */
  datatype Point = Point(x: int, y: int)

  class ImageBuffer<C> {
    /** `width()`, `height()`, `pitch()` */
    const w: int
    const h: int
    const pitch: int
    /** Bytes per pixel, `sizeof(C)`. */
    const pixelSize: nat
    /** Pixel (x, y) is `buf[y, x]`. */
    const buf: array2<C>

    ghost predicate Valid()
      reads this
    {
      0 <= w && 0 <= h && pitch == w * pixelSize && buf.Length0 == h && buf.Length1 == w
    }

    /** The storage of a derived picture class: the buffer holds `w * h`
        pixels, each `init` (the pixel type's value-initialised colour), and
        the pitch is `w * sizeof(C)`. */
    constructor(width: nat, height: nat, size: nat, init: C)
      ensures Valid()
      ensures w == width && h == height && pixelSize == size && pitch == width * size
      ensures fresh(buf)
      ensures forall y, x :: 0 <= y < h && 0 <= x < w ==> buf[y, x] == init
    {
      w := width;
      h := height;
      pixelSize := size;
      pitch := width * size;
      buf := new C[height, width]((_, _) => init);
    }

    predicate InRange(x: int, y: int)
      reads this
    {
      0 <= x < w && 0 <= y < h
    }

    /** `pixel(x, y)`: unchecked access; the caller keeps (x, y) in range. */
    function Pixel(x: int, y: int): (c: C)
      requires Valid() && InRange(x, y)
      reads this, buf
    {
      buf[y, x]
    }

    /** `lineBuffer(y)`: row `y`, left to right. */
    function LineBuffer(y: int): (row: seq<C>)
      requires Valid() && 0 <= y < h
      reads this, buf
      ensures |row| == w
      ensures forall x :: 0 <= x < w ==> row[x] == Pixel(x, y)
    {
      seq(w, x requires 0 <= x < w reads this, buf => buf[y, x])
    }

    /** Every row, top to bottom. */
    ghost function Rows(): (rows: seq<seq<C>>)
      requires Valid()
      reads this, buf
      ensures |rows| == h
      ensures forall y :: 0 <= y < h ==> rows[y] == LineBuffer(y)
    {
      seq(h, y requires 0 <= y < h reads this, buf => LineBuffer(y))
    }

    /** `at(x, y)` read access: `RangeOverException` (None) exactly when
        (x, y) is outside the image. */
    function At(x: int, y: int): (r: Option<C>)
      requires Valid()
      reads this, buf
      ensures r.None? <==> (x < 0 || y < 0 || x >= w || y >= h)
      ensures r.Some? ==> r.value == Pixel(x, y)
    {
      if x < 0 || y < 0 || x >= w || y >= h then None else Some(buf[y, x])
    }

    /** `at(x, y) = c`: writes through the checked reference; out of range
        it throws before touching the image. */
    method PutAt(x: int, y: int, c: C) returns (ok: bool)
      requires Valid()
      modifies buf
      ensures ok <==> InRange(x, y)
      ensures ok ==> buf[y, x] == c
      ensures forall j, i :: 0 <= j < h && 0 <= i < w && !(ok && i == x && j == y) ==> buf[j, i] == old(buf[j, i])
    {
      if x < 0 || y < 0 || x >= w || y >= h {
        return false;
      }
      buf[y, x] := c;
      return true;
    }

    /** `forEachPixel(func)`: applies `func` to every pixel, row by row. */
    method ForEachPixel(f: C -> C)
      requires Valid()
      modifies buf
      ensures forall y, x :: 0 <= y < h && 0 <= x < w ==> buf[y, x] == f(old(buf[y, x]))
    {
      var j := 0;
      while j < h
        invariant 0 <= j <= h
        invariant forall y, x :: 0 <= y < j && 0 <= x < w ==> buf[y, x] == f(old(buf[y, x]))
        invariant forall y, x :: j <= y < h && 0 <= x < w ==> buf[y, x] == old(buf[y, x])
      {
        var i := 0;
        while i < w
          invariant 0 <= i <= w
          invariant forall y, x :: 0 <= y < j && 0 <= x < w ==> buf[y, x] == f(old(buf[y, x]))
          invariant forall x :: 0 <= x < i ==> buf[j, x] == f(old(buf[j, x]))
          invariant forall x :: i <= x < w ==> buf[j, x] == old(buf[j, x])
          invariant forall y, x :: j < y < h && 0 <= x < w ==> buf[y, x] == old(buf[y, x])
        {
          buf[j, i] := f(buf[j, i]);
          i := i + 1;
        }
        j := j + 1;
      }
    }
  }
}
