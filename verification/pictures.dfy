/** The pictures that own their pixels: `Picture` (24-bit RGB),
    `PictureIndexed` (8-bit indices into a 256-entry palette) and the
    `PictureRgba` operation `stripAlpha`.  A `Picture` adds nothing to its
    `ImageBuffer<RgbColour>` but ownership of the storage, so it is an
    `ImageBuffer<Rgb>` here; a `PictureIndexed` adds a palette, so it is a
    class holding its pixel buffer and its palette array.  `create` catches
    the `std::bad_alloc` of the allocation and returns a null pointer; whether
    memory is available is the parameter `memoryAvailable`. */
module Pictures {
  import opened Base
  import opened Colour
  import opened ImageBuffers
  import opened Clipping
  import opened Blit

  /** `sizeof(RgbColour)`: three bytes, no padding. */
  const RGB_SIZE: nat := 3

  /** The black a value-initialised `RgbColour` holds. */
  const BLACK: Rgb := Rgb(0, 0, 0)

  /** `std::copy_n(buf_, h_ * pitch_, res->buf_)`: with the pitch equal to
      the row size, the `h * pitch` bytes are exactly the pixels, row by
      row. */
  method CopyPixels<C>(src: ImageBuffer<C>, dst: ImageBuffer<C>)
    requires src.Valid() && dst.Valid() && src.w == dst.w && src.h == dst.h && src.buf != dst.buf
    modifies dst.buf
    ensures forall y, x :: 0 <= y < dst.h && 0 <= x < dst.w ==> dst.buf[y, x] == src.buf[y, x]
  {
    var j := 0;
    while j < src.h
      invariant 0 <= j <= src.h
      invariant forall y, x :: 0 <= y < j && 0 <= x < dst.w ==> dst.buf[y, x] == src.buf[y, x]
    {
      var i := 0;
      while i < src.w
        invariant 0 <= i <= src.w
        invariant forall y, x :: 0 <= y < j && 0 <= x < dst.w ==> dst.buf[y, x] == src.buf[y, x]
        invariant forall x :: 0 <= x < i ==> dst.buf[j, x] == src.buf[j, x]
      {
        dst.buf[j, i] := src.buf[j, i];
        i := i + 1;
      }
      j := j + 1;
    }
  }

  /** `Picture::create(w, h)`: a new black picture of `w` by `h` pixels and
      pitch `w * sizeof(RgbColour)`, or null when the allocation fails. */
  method CreatePicture(w: nat, h: nat, memoryAvailable: bool) returns (p: ImageBuffer?<Rgb>)
    ensures p != null <==> memoryAvailable
    ensures p != null ==> fresh(p) && fresh(p.buf) && p.Valid()
    ensures p != null ==> p.w == w && p.h == h && p.pixelSize == RGB_SIZE && p.pitch == w * RGB_SIZE
    ensures p != null ==> forall y, x :: 0 <= y < h && 0 <= x < w ==> p.buf[y, x] == BLACK
  {
    if !memoryAvailable {
      return null;
    }
    p := new ImageBuffer(w, h, RGB_SIZE, BLACK);
  }

  /** `Picture::clone()`: a picture of the same size with its own copy of
      every pixel, or null when `create` fails. */
  method ClonePicture(p: ImageBuffer<Rgb>, memoryAvailable: bool) returns (q: ImageBuffer?<Rgb>)
    requires p.Valid() && p.pixelSize == RGB_SIZE
    ensures q != null <==> memoryAvailable
    ensures q != null ==> fresh(q) && fresh(q.buf) && q.Valid()
    ensures q != null ==> q.w == p.w && q.h == p.h && q.pixelSize == p.pixelSize && q.pitch == p.pitch
    ensures q != null ==> forall y, x :: 0 <= y < q.h && 0 <= x < q.w ==> q.buf[y, x] == p.buf[y, x]
  {
    q := CreatePicture(p.w, p.h, memoryAvailable);
    if q != null {
      CopyPixels(p, q);
    }
  }

  class PictureIndexed {
    /** The `ImageBuffer<std::uint8_t>` part: one byte per pixel. */
    const image: ImageBuffer<Byte>
    /** `pal_[256]` */
    const pal: array<Rgb>

    ghost predicate Valid()
      reads this, image
    {
      image.Valid() && image.pixelSize == 1 && pal.Length == 256
    }

    /** `PictureIndexed(w, h)`: pixels value-initialised to index 0 and a
        palette of 256 black entries. */
    constructor(w: nat, h: nat)
      ensures Valid() && fresh(image) && fresh(image.buf) && fresh(pal)
      ensures image.w == w && image.h == h && image.pitch == w
      ensures forall y, x :: 0 <= y < h && 0 <= x < w ==> image.buf[y, x] == 0
      ensures forall i :: 0 <= i < 256 ==> pal[i] == BLACK
    {
      image := new ImageBuffer(w, h, 1, 0);
      pal := new Rgb[256](_ => BLACK);
    }

    /** `PictureIndexed::create(w, h)`, or null when the allocation fails. */
    static method Create(w: nat, h: nat, memoryAvailable: bool) returns (p: PictureIndexed?)
      ensures p != null <==> memoryAvailable
      ensures p != null ==> fresh(p) && fresh(p.image) && fresh(p.image.buf) && fresh(p.pal) && p.Valid()
      ensures p != null ==> p.image.w == w && p.image.h == h && p.image.pitch == w
      ensures p != null ==> forall y, x :: 0 <= y < h && 0 <= x < w ==> p.image.buf[y, x] == 0
      ensures p != null ==> forall i :: 0 <= i < 256 ==> p.pal[i] == BLACK
    {
      if !memoryAvailable {
        return null;
      }
      p := new PictureIndexed(w, h);
    }

    /** `palette(id)` and `paletteBuffer()[id]`: the entry `id` of `pal_`. */
    function Palette(id: Byte): Rgb
      requires Valid()
      reads this, image, pal
    {
      pal[id]
    }

    /** `palette(id) = c` (or `paletteBuffer()[id] = c`): writing through the
        reference changes entry `id` and nothing else. */
    method SetPalette(id: Byte, c: Rgb)
      requires Valid()
      modifies pal
      ensures Palette(id) == c
      ensures forall i :: 0 <= i < 256 && i != id ==> Palette(i) == old(Palette(i))
    {
      pal[id] := c;
    }

    /** `clone()`: a picture of the same size with its own copy of every
        pixel and of all 256 palette entries, or null when `create` fails. */
    method Clone(memoryAvailable: bool) returns (q: PictureIndexed?)
      requires Valid()
      ensures q != null <==> memoryAvailable
      ensures q != null ==> fresh(q) && fresh(q.image) && fresh(q.image.buf) && fresh(q.pal) && q.Valid()
      ensures q != null ==> q.image.w == image.w && q.image.h == image.h && q.image.pitch == image.pitch
      ensures q != null ==> forall y, x :: 0 <= y < image.h && 0 <= x < image.w ==> q.image.buf[y, x] == image.buf[y, x]
      ensures q != null ==> q.pal[..] == pal[..]
    {
      q := Create(image.w, image.h, memoryAvailable);
      if q != null {
        CopyPixels(image, q.image);
        var i := 0;
        while i < 256
          invariant 0 <= i <= 256
          invariant forall k :: 0 <= k < i ==> q.pal[k] == pal[k]
          invariant forall y, x :: 0 <= y < image.h && 0 <= x < image.w ==> q.image.buf[y, x] == image.buf[y, x]
        {
          q.pal[i] := pal[i];
          i := i + 1;
        }
      }
    }
  }

  /** `NormalBrendCopierFromPictureIndexed` into an RGB destination: the
      destination becomes the palette entry of the source index, whatever it
      held.  The copier only reads the palette it refers to. */
  function IndexedCopyToRgb(pal: seq<Rgb>, src: Byte, dst: Rgb): (r: Rgb)
    requires |pal| == 256
    ensures r == pal[src]
  {
    pal[src]
  }

  /** `NormalBrendCopierFromPictureIndexed` into an RGBA destination: the
      colour of the palette entry, with the destination's alpha kept. */
  function IndexedCopyToRgba(pal: seq<Rgb>, src: Byte, dst: Rgba): (r: Rgba)
    requires |pal| == 256
    ensures RgbOf(r) == pal[src] && r.alpha == dst.alpha
  {
    dst.(red := pal[src].red, green := pal[src].green, blue := pal[src].blue)
  }

  /** `PictureRgba::stripAlpha()`: a new picture of the same size whose
      pixels are the source's colours without their alpha, made by a
      full-size `blt` with `NormalBrendCopier`; null when `create` fails.
      The source is only read. */
  method StripAlpha(src: ImageBuffer<Rgba>, memoryAvailable: bool) returns (pict: ImageBuffer?<Rgb>)
    requires src.Valid()
    ensures pict != null <==> memoryAvailable
    ensures pict != null ==> fresh(pict) && fresh(pict.buf) && pict.Valid()
    ensures pict != null ==> pict.w == src.w && pict.h == src.h && pict.pixelSize == RGB_SIZE
    ensures pict != null ==> forall y, x :: 0 <= y < src.h && 0 <= x < src.w ==> pict.buf[y, x] == RgbOf(src.buf[y, x])
  {
    pict := CreatePicture(src.w, src.h, memoryAvailable);
    if pict != null {
      ClipInside(0, 0, src.w, src.h, src.w, src.h, 0, 0, src.w, src.h);
      Blt(pict, src, 0, 0, src.w, src.h, 0, 0, None, NormalCopyToRgb);
    }
  }
}
