/** `PictureRgba::duplicatePictureIndexed`: an indexed copy of an RGBA
    picture, with a palette the median cut generates from the picture's
    colours and indices given by error diffusion. */
module Duplication {
  import opened Base
  import opened Colour
  import opened ImageBuffers
  import opened PaletteOrder
  import opened PaletteFinding
  import opened PaletteGeneration
  import opened Pictures
  import opened Diffusion

  /** A new indexed picture of the same size, or null when `create` fails;
      its palette is the one `generatePalette_` computes from the picture's
      colours in scan order, and its pixels are the indices error diffusion
      gives with that palette.  The source is only read. */
  method DuplicatePictureIndexed(src: ImageBuffer<Rgba>, memoryAvailable: bool) returns (pi: PictureIndexed?)
    requires src.Valid()
    ensures pi != null <==> memoryAvailable
    ensures pi != null ==> fresh(pi) && fresh(pi.image) && fresh(pi.image.buf) && fresh(pi.pal) && pi.Valid()
    ensures pi != null ==> pi.image.w == src.w && pi.image.h == src.h
    ensures pi != null ==> pi.pal[..] == PaletteOf(Flatten(Colours(src.Rows(), RgbOf)))
    ensures pi != null ==> forall y, x :: 0 <= y < src.h && 0 <= x < src.w ==>
                                          pi.image.buf[y, x] == Diffused(pi.pal[..], src.w, ColourRows(src, RgbOf))[y][x]
  {
    pi := PictureIndexed.Create(src.w, src.h, memoryAvailable);
    if pi != null {
      ghost var rows := src.Rows();
      GeneratePalette(src, RgbOf, pi.pal);
      assert src.Rows() == rows;
      ghost var pal := pi.pal[..];
      var pf := new PaletteFinder(pi.pal[..]);
      assert src.Rows() == rows;
      DecreaseColourUsingErrorDiffusion(src, RgbOf, pi, pf);
      assert src.Rows() == rows;
      assert pi.pal[..] == pal;
    }
  }
}
