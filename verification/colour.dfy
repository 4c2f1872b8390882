/** The two true-colour pixel formats (24-bit RGB and 32-bit RGBA), their
    conversions and comparisons, and the per-pixel compositors ("copiers")
    that a blit applies to each source/destination pixel pair.

    A copier's `operator()` assigns fields of `dst` in place; here each one is a
    function that returns the new destination pixel.  The overloads that take
    an RGBA source read only its red, green and blue (except the fixed-alpha
    copier, which also reads the source alpha), so they are modelled once with
    the source's RGB part. */
module Colour {
  import opened Base
  import Arith

  /** `RgbColour` */
  datatype Rgb = Rgb(red: Byte, green: Byte, blue: Byte)

  /** `RgbaColour`: alpha 0 is transparent, 255 opaque. */
  datatype Rgba = Rgba(red: Byte, green: Byte, blue: Byte, alpha: Byte)

  /** `RgbColour()` is black. */
  const DefaultRgb: Rgb := Rgb(0, 0, 0)

  /** `RgbaColour()` is opaque black. */
  const DefaultRgba: Rgba := Rgba(0, 0, 0, 255)

  /** `RgbaColour(const RgbColour&)`: the same colour, fully opaque. */
  function RgbaOf(c: Rgb): (r: Rgba)
    ensures r.alpha == 255
    ensures RgbOf(r) == c
  {
    Rgba(c.red, c.green, c.blue, 255)
  }

  /** `RgbaColour::operator RgbColour()`: drops the alpha. */
  function RgbOf(c: Rgba): (r: Rgb)
    ensures r.red == c.red && r.green == c.green && r.blue == c.blue
  {
    Rgb(c.red, c.green, c.blue)
  }

  //// Comparisons ////////

  /** `RgbColour::operator==` */
  predicate EqRgb(x: Rgb, y: Rgb)
    ensures EqRgb(x, y) <==> x == y
  {
    x.red == y.red && x.green == y.green && x.blue == y.blue
  }

  /** `RgbColour::operator!=` */
  predicate NeRgb(x: Rgb, y: Rgb)
    ensures NeRgb(x, y) <==> x != y
  {
    !EqRgb(x, y)
  }

  /** `RgbaColour::operator==` */
  predicate EqRgba(x: Rgba, y: Rgba)
    ensures EqRgba(x, y) <==> x == y
  {
    x.red == y.red && x.green == y.green && x.blue == y.blue && x.alpha == y.alpha
  }

  /** `RgbaColour::operator!=` */
  predicate NeRgba(x: Rgba, y: Rgba)
    ensures NeRgba(x, y) <==> x != y
  {
    !EqRgba(x, y)
  }

  /** `operator==(const RgbaColour&, const RgbColour&)`: alpha is ignored. */
  predicate EqRgbaRgb(x: Rgba, y: Rgb)
    ensures EqRgbaRgb(x, y) <==> RgbOf(x) == y
    ensures EqRgbaRgb(x, y) <==> x == RgbaOf(y) || (x.alpha != 255 && x == Rgba(y.red, y.green, y.blue, x.alpha))
  {
    x.red == y.red && x.green == y.green && x.blue == y.blue
  }

  /** `operator!=(const RgbaColour&, const RgbColour&)` */
  predicate NeRgbaRgb(x: Rgba, y: Rgb)
    ensures NeRgbaRgb(x, y) <==> RgbOf(x) != y
  {
    !EqRgbaRgb(x, y)
  }

  /** `operator==(const RgbColour&, const RgbaColour&)` */
  predicate EqRgbRgba(x: Rgb, y: Rgba)
    ensures EqRgbRgba(x, y) <==> x == RgbOf(y)
  {
    EqRgbaRgb(y, x)
  }

  /** `operator!=(const RgbColour&, const RgbaColour&)` */
  predicate NeRgbRgba(x: Rgb, y: Rgba)
    ensures NeRgbRgba(x, y) <==> x != RgbOf(y)
  {
    !EqRgbRgba(x, y)
  }

  //// NormalBrendCopier ////////

  /** `NormalBrendCopier()(const RgbaColour& src, RgbColour& dst)` */
  function NormalCopyToRgb(src: Rgba, dst: Rgb): (r: Rgb)
    ensures r == RgbOf(src)
  {
    Rgb(src.red, src.green, src.blue)
  }

  /** `NormalBrendCopier()(const RgbColour& src, RgbaColour& dst)`: the
      destination keeps its alpha. */
  function NormalCopyToRgba(src: Rgb, dst: Rgba): (r: Rgba)
    ensures RgbOf(r) == src && r.alpha == dst.alpha
  {
    dst.(red := src.red, green := src.green, blue := src.blue)
  }

  //// AddBrendCopier ////////

  function AddChannel(d: Byte, s: Byte): (r: Byte)
    ensures r == Min(d + s, 255)
  {
    Clamp(d + s, 0, 255)
  }

  /** `AddBrendCopier()(src, RgbColour& dst)` AS WRITTEN: the third statement
      assigns `dst.red` again, from the blue channels, and `dst.blue` is never
      assigned. */
  function AddCopyAsWritten(src: Rgb, dst: Rgb): (r: Rgb)
    ensures r.red == Min(dst.blue + src.blue, 255)
    ensures r.green == Min(dst.green + src.green, 255)
    ensures r.blue == dst.blue
  {
    var d1 := dst.(red := AddChannel(dst.red, src.red));
    var d2 := d1.(green := AddChannel(d1.green, src.green));
    d2.(red := AddChannel(d2.blue, src.blue))
  }

  /** `AddBrendCopier()(src, RgbaColour& dst)` AS WRITTEN (same defect; alpha
      untouched). */
  function AddCopyToRgbaAsWritten(src: Rgb, dst: Rgba): (r: Rgba)
    ensures RgbOf(r) == AddCopyAsWritten(src, RgbOf(dst))
    ensures r.alpha == dst.alpha
  {
    var d1 := dst.(red := AddChannel(dst.red, src.red));
    var d2 := d1.(green := AddChannel(d1.green, src.green));
    d2.(red := AddChannel(d2.blue, src.blue))
  }

  /** The additive blend the class is meant to perform: each channel is the
      saturated sum. */
  function AddCopy(src: Rgb, dst: Rgb): (r: Rgb)
    ensures r.red == Min(dst.red + src.red, 255)
    ensures r.green == Min(dst.green + src.green, 255)
    ensures r.blue == Min(dst.blue + src.blue, 255)
  {
    Rgb(AddChannel(dst.red, src.red), AddChannel(dst.green, src.green),
        AddChannel(dst.blue, src.blue))
  }

  /** The intended additive blend onto an RGBA destination: alpha untouched. */
  function AddCopyToRgba(src: Rgb, dst: Rgba): (r: Rgba)
    ensures RgbOf(r) == AddCopy(src, RgbOf(dst)) && r.alpha == dst.alpha
  {
    var c := AddCopy(src, RgbOf(dst));
    Rgba(c.red, c.green, c.blue, dst.alpha)
  }

  /** The defect is visible: adding blue (0,0,1) to black leaves the blue
      channel 0 and puts the blue sum into red. */
  lemma AddCopyAsWrittenLosesBlue()
    ensures AddCopyAsWritten(Rgb(0, 0, 1), Rgb(0, 0, 0)) == Rgb(1, 0, 0)
    ensures AddCopy(Rgb(0, 0, 1), Rgb(0, 0, 0)) == Rgb(0, 0, 1)
  {
  }

  /** The saturated sum is commutative in source and destination and never
      smaller than either operand. */
  lemma AddCopyProperties(s: Rgb, d: Rgb)
    ensures AddCopy(s, d) == AddCopy(d, s)
    ensures AddCopy(s, d).red >= d.red && AddCopy(s, d).green >= d.green && AddCopy(s, d).blue >= d.blue
    ensures AddCopy(Rgb(0, 0, 0), d) == d
  {
  }

  //// MulBrendCopier ////////

  lemma MulBound(d: Byte, s: Byte)
    ensures d * s / 255 <= d && d * s / 255 <= s && 0 <= d * s / 255
  {
    Arith.MulNonNeg(d, s);
    Arith.MulMonotone(s, 255, d);
    Arith.MulMonotone(d, 255, s);
    DivMonotone(0, d * s);
    DivMonotone(d * s, d * 255);
    DivMonotone(d * s, s * 255);
    Cancel255(d);
    Cancel255(s);
  }

  lemma DivMonotone(x: int, y: int)
    requires 0 <= x <= y
    ensures x / 255 <= y / 255
  {
  }

  function MulChannel(d: Byte, s: Byte): (r: Byte)
  {
    MulBound(d, s);
    Clamp(d * s / 255, 0, 255)
  }

  /** `MulBrendCopier()(src, RgbColour& dst)` */
  function MulCopy(src: Rgb, dst: Rgb): (r: Rgb)
  {
    Rgb(MulChannel(dst.red, src.red), MulChannel(dst.green, src.green),
        MulChannel(dst.blue, src.blue))
  }

  /** `MulBrendCopier()(src, RgbaColour& dst)`: alpha untouched. */
  function MulCopyToRgba(src: Rgb, dst: Rgba): (r: Rgba)
    ensures RgbOf(r) == MulCopy(src, RgbOf(dst)) && r.alpha == dst.alpha
  {
    dst.(red := MulChannel(dst.red, src.red), green := MulChannel(dst.green, src.green),
         blue := MulChannel(dst.blue, src.blue))
  }

  /** Every product channel is `dst*src/255`, is at most both operands, so the
      clamp never acts; white is the identity and black absorbs. */
  lemma MulCopyProperties(s: Rgb, d: Rgb)
    ensures MulCopy(s, d).red == d.red * s.red / 255 <= Min(d.red, s.red)
    ensures MulCopy(s, d).green == d.green * s.green / 255 <= Min(d.green, s.green)
    ensures MulCopy(s, d).blue == d.blue * s.blue / 255 <= Min(d.blue, s.blue)
    ensures MulCopy(Rgb(255, 255, 255), d) == d
    ensures MulCopy(Rgb(0, 0, 0), d) == Rgb(0, 0, 0)
  {
    MulBound(d.red, s.red);
    MulBound(d.green, s.green);
    MulBound(d.blue, s.blue);
  }

  //// AlphaBrendCopier ////////

  lemma BlendBound(s: Byte, d: Byte, a: Byte)
    ensures 0 <= s * a / 255 + d * (255 - a) / 255 <= 255
  {
    MulBound(s, a);
    MulBound(d, 255 - a);
  }

  /** One channel of `src*a/255 + dst*(255-a)/255`, clamped to [0, 255]. */
  function BlendChannel(s: Byte, d: Byte, a: Byte): (r: Byte)
  {
    Clamp(s * a / 255 + d * (255 - a) / 255, 0, 255)
  }

  /** The blend never needs its clamp; opaque gives the source, transparent
      keeps the destination. */
  lemma BlendChannelProperties(s: Byte, d: Byte, a: Byte)
    ensures BlendChannel(s, d, a) == s * a / 255 + d * (255 - a) / 255
    ensures a == 255 ==> BlendChannel(s, d, a) == s
    ensures a == 0 ==> BlendChannel(s, d, a) == d
    ensures s == d ==> BlendChannel(s, d, a) <= s
  {
    BlendBound(s, d, a);
    if a == 255 {
      BlendOpaque(s, d);
    } else if a == 0 {
      BlendTransparent(s, d);
    }
    if s == d {
      BlendSame(s, a);
    }
  }

  lemma BlendOpaque(s: Byte, d: Byte)
    ensures s * 255 / 255 + d * (255 - 255) / 255 == s
  {
    Cancel255(s);
  }

  lemma BlendTransparent(s: Byte, d: Byte)
    ensures s * 0 / 255 + d * (255 - 0) / 255 == d
  {
    Cancel255(d);
  }

  lemma BlendSame(s: Byte, a: Byte)
    ensures s * a / 255 + s * (255 - a) / 255 <= s
  {
    DivSumBound(s * a, s * (255 - a));
    assert s * a + s * (255 - a) == s * 255;
    Cancel255(s);
  }

  lemma Cancel255(x: int)
    ensures x * 255 / 255 == x
  {
  }

  lemma DivSumBound(x: nat, y: nat)
    ensures x / 255 + y / 255 <= (x + y) / 255
  {
  }

  /** `AlphaBrendCopier()(const RgbaColour& src, RgbColour& dst)` */
  function AlphaCopy(src: Rgba, dst: Rgb): (r: Rgb)
  {
    Rgb(BlendChannel(src.red, dst.red, src.alpha),
        BlendChannel(src.green, dst.green, src.alpha),
        BlendChannel(src.blue, dst.blue, src.alpha))
  }

  /** `AlphaBrendCopier()(const RgbaColour& src, RgbaColour& dst)`: the colour
      is blended as for an RGB destination and the new alpha is
      `src.alpha + dst.alpha*(255-src.alpha)/255`. */
  function AlphaCopyToRgba(src: Rgba, dst: Rgba): (r: Rgba)
    ensures RgbOf(r) == AlphaCopy(src, RgbOf(dst))
    ensures r.alpha == src.alpha + dst.alpha * (255 - src.alpha) / 255
    ensures r.alpha >= src.alpha && r.alpha >= dst.alpha
  {
    MulBound(dst.alpha, 255 - src.alpha);
    AlphaOverBound(src.alpha, dst.alpha);
    Rgba(BlendChannel(src.red, dst.red, src.alpha),
         BlendChannel(src.green, dst.green, src.alpha),
         BlendChannel(src.blue, dst.blue, src.alpha),
         Clamp(src.alpha + dst.alpha * (255 - src.alpha) / 255, 0, 255))
  }

  lemma AlphaOverBound(sa: Byte, da: Byte)
    ensures sa + da * (255 - sa) / 255 >= da
  {
    // da * (255 - sa) / 255 >= da - sa, because da * sa <= 255 * sa
    if da > sa {
      Arith.MulMonotone(da, 255, sa);
      assert da * (255 - sa) - (da - sa) * 255 == 255 * sa - da * sa;
      DivMonotone((da - sa) * 255, da * (255 - sa));
      Cancel255(da - sa);
    }
  }

  /** Opaque sources replace the destination colour, transparent ones leave it,
      and the result never leaves [0, 255] before clamping. */
  lemma AlphaCopyProperties(src: Rgba, dst: Rgb)
    ensures src.alpha == 255 ==> AlphaCopy(src, dst) == RgbOf(src)
    ensures src.alpha == 0 ==> AlphaCopy(src, dst) == dst
    ensures AlphaCopy(src, dst).red == src.red * src.alpha / 255 + dst.red * (255 - src.alpha) / 255
    ensures AlphaCopy(src, dst).green == src.green * src.alpha / 255 + dst.green * (255 - src.alpha) / 255
    ensures AlphaCopy(src, dst).blue == src.blue * src.alpha / 255 + dst.blue * (255 - src.alpha) / 255
  {
    BlendChannelProperties(src.red, dst.red, src.alpha);
    BlendChannelProperties(src.green, dst.green, src.alpha);
    BlendChannelProperties(src.blue, dst.blue, src.alpha);
  }

  //// CopierUsingFixedAlpha ////////

  /** `CopierUsingFixedAlpha(alpha)(const RgbColour& src, RgbColour& dst)` */
  function FixedAlphaCopy(alpha: Byte, src: Rgb, dst: Rgb): (r: Rgb)
    ensures r == AlphaCopy(Rgba(src.red, src.green, src.blue, alpha), dst)
  {
    Rgb(BlendChannel(src.red, dst.red, alpha), BlendChannel(src.green, dst.green, alpha),
        BlendChannel(src.blue, dst.blue, alpha))
  }

  /** `CopierUsingFixedAlpha(alpha)(const RgbColour& src, RgbaColour& dst)` */
  function FixedAlphaCopyToRgba(alpha: Byte, src: Rgb, dst: Rgba): (r: Rgba)
    ensures r == AlphaCopyToRgba(Rgba(src.red, src.green, src.blue, alpha), dst)
  {
    MulBound(dst.alpha, 255 - alpha);
    Rgba(BlendChannel(src.red, dst.red, alpha), BlendChannel(src.green, dst.green, alpha),
         BlendChannel(src.blue, dst.blue, alpha),
         Clamp(alpha + dst.alpha * (255 - alpha) / 255, 0, 255))
  }

  /** One channel blended with the 16-bit weight `a = alpha*src.alpha` out of
      65025. */
  function Blend16Channel(s: Byte, d: Byte, a: int): (r: Byte)
    requires 0 <= a <= 65025
  {
    Clamp(s * a / 65025 + d * (65025 - a) / 65025, 0, 255)
  }

  lemma ProductBound(x: Byte, y: Byte)
    ensures 0 <= x * y <= 65025
  {
    assert x * y <= x * 255 <= 65025;
  }

  /** `CopierUsingFixedAlpha(alpha)(const RgbaColour& src, RgbColour& dst)` */
  function FixedAlphaCopyFromRgba(alpha: Byte, src: Rgba, dst: Rgb): (r: Rgb)
  {
    var a := alpha * src.alpha;
    ProductBound(alpha, src.alpha);
    Rgb(Blend16Channel(src.red, dst.red, a), Blend16Channel(src.green, dst.green, a),
        Blend16Channel(src.blue, dst.blue, a))
  }

  /** Weights out of 65025 that are multiples of 255 are weights out of 255. */
  lemma Scale255(n: nat)
    ensures n * 255 / 65025 == n / 255
  {
    var k := n / 255;
    Arith.MulMonotone(255 * k, n, 255);
    Arith.MulMonotone(n, 255 * (k + 1) - 1, 255);
    Arith.DivUnique(n * 255, 65025, k);
  }

  /** The alpha of the RGBA-onto-RGBA fixed-alpha blend never needs its
      clamp. */
  lemma Alpha16Bound(a: int, da: Byte)
    requires 0 <= a <= 65025
    ensures 0 <= a / 255 + da * (65025 - a) / 65025 <= 255
  {
    Arith.MulNonNeg(da, 65025 - a);
    Arith.MulMonotone(da, 255, 65025 - a);
    Arith.DivMonotone(0, da * (65025 - a), 65025);
    Arith.DivMonotone(da * (65025 - a), (65025 - a) * 255, 65025);
    Scale255(65025 - a);
    DivSumBound(a, 65025 - a);
  }

  /** `CopierUsingFixedAlpha(alpha)(const RgbaColour& src, RgbaColour& dst)`:
      the colour is blended as for an RGB destination, and the new alpha is
      `a/255 + dst.alpha*(65025-a)/65025` with `a = alpha*src.alpha`, which
      never needs its clamp. */
  function FixedAlphaCopyRgbaToRgba(alpha: Byte, src: Rgba, dst: Rgba): (r: Rgba)
    ensures RgbOf(r) == FixedAlphaCopyFromRgba(alpha, src, RgbOf(dst))
    ensures r.alpha == alpha * src.alpha / 255 + dst.alpha * (65025 - alpha * src.alpha) / 65025
  {
    var a := alpha * src.alpha;
    ProductBound(alpha, src.alpha);
    Alpha16Bound(a, dst.alpha);
    Rgba(Blend16Channel(src.red, dst.red, a), Blend16Channel(src.green, dst.green, a),
         Blend16Channel(src.blue, dst.blue, a),
         Clamp(a / 255 + dst.alpha * (65025 - a) / 65025, 0, 255))
  }

  /** With both the fixed alpha and the source alpha at 255 the source colour
      is copied exactly; with either at 0 the destination is kept. */
  lemma FixedAlphaFromRgbaProperties(alpha: Byte, src: Rgba, dst: Rgb)
    ensures alpha == 255 && src.alpha == 255 ==> FixedAlphaCopyFromRgba(alpha, src, dst) == RgbOf(src)
    ensures alpha == 0 || src.alpha == 0 ==> FixedAlphaCopyFromRgba(alpha, src, dst) == dst
  {
    if alpha == 0 || src.alpha == 0 {
      assert alpha * src.alpha == 0;
    }
  }

  /** A 16-bit weight of `alpha * 255` blends a channel as the 8-bit weight
      `alpha` does. */
  lemma Blend16Opaque(s: Byte, d: Byte, alpha: Byte)
    ensures Blend16Channel(s, d, alpha * 255) == BlendChannel(s, d, alpha)
  {
    assert s * (alpha * 255) == (s * alpha) * 255;
    assert d * (65025 - alpha * 255) == (d * (255 - alpha)) * 255;
    Arith.MulNonNeg(s, alpha);
    Arith.MulNonNeg(d, 255 - alpha);
    Scale255(s * alpha);
    Scale255(d * (255 - alpha));
  }

  /** The 16-bit alpha of weight `alpha * 255` is the 8-bit alpha of weight
      `alpha`. */
  lemma Alpha16Opaque(alpha: Byte, da: Byte)
    ensures alpha * 255 / 255 + da * (65025 - alpha * 255) / 65025 == alpha + da * (255 - alpha) / 255
  {
    Cancel255(alpha);
    assert da * (65025 - alpha * 255) == (da * (255 - alpha)) * 255;
    Arith.MulNonNeg(da, 255 - alpha);
    Scale255(da * (255 - alpha));
  }

  /** The 16-bit alpha is at least the weight's own share `a / 255`. */
  lemma Alpha16AtLeast(a: int, da: Byte)
    requires 0 <= a <= 65025
    ensures a / 255 <= a / 255 + da * (65025 - a) / 65025
  {
    Arith.MulNonNeg(da, 65025 - a);
    Arith.DivMonotone(0, da * (65025 - a), 65025);
  }

  /** With a zero weight the RGBA-onto-RGBA fixed-alpha copier keeps the
      whole destination, alpha included. */
  lemma FixedAlphaRgbaTransparent(alpha: Byte, src: Rgba, dst: Rgba)
    requires alpha * src.alpha == 0
    ensures FixedAlphaCopyRgbaToRgba(alpha, src, dst) == dst
  {
    assert dst.red * 65025 / 65025 == dst.red;
    assert dst.green * 65025 / 65025 == dst.green;
    assert dst.blue * 65025 / 65025 == dst.blue;
    assert dst.alpha * 65025 / 65025 == dst.alpha;
  }

  /** An opaque source is blended onto RGBA exactly as its RGB colour is by
      the RGB-source copier, alpha included. */
  lemma FixedAlphaRgbaOpaque(alpha: Byte, src: Rgba, dst: Rgba)
    requires src.alpha == 255
    ensures FixedAlphaCopyRgbaToRgba(alpha, src, dst) == FixedAlphaCopyToRgba(alpha, RgbOf(src), dst)
  {
    Blend16Opaque(src.red, dst.red, alpha);
    Blend16Opaque(src.green, dst.green, alpha);
    Blend16Opaque(src.blue, dst.blue, alpha);
    Alpha16Opaque(alpha, dst.alpha);
  }

  /** An opaque source under the fixed alpha 255 is copied, alpha included. */
  lemma FixedAlphaRgbaCopies(src: Rgba, dst: Rgba)
    requires src.alpha == 255
    ensures FixedAlphaCopyRgbaToRgba(255, src, dst) == src
  {
    FixedAlphaRgbaOpaque(255, src, dst);
    AlphaCopyProperties(Rgba(src.red, src.green, src.blue, 255), RgbOf(dst));
  }

  /** The RGBA-onto-RGBA fixed-alpha copier: a zero weight keeps the whole
      destination; an opaque source under the fixed alpha 255 is copied,
      alpha included; and the new alpha is at least the effective source
      alpha `alpha*src.alpha/255`. */
  lemma FixedAlphaRgbaProperties(alpha: Byte, src: Rgba, dst: Rgba)
    ensures alpha * src.alpha == 0 ==> FixedAlphaCopyRgbaToRgba(alpha, src, dst) == dst
    ensures alpha == 255 && src.alpha == 255 ==> FixedAlphaCopyRgbaToRgba(alpha, src, dst) == src
    ensures FixedAlphaCopyRgbaToRgba(alpha, src, dst).alpha >= alpha * src.alpha / 255
  {
    ProductBound(alpha, src.alpha);
    Alpha16AtLeast(alpha * src.alpha, dst.alpha);
    if alpha * src.alpha == 0 {
      FixedAlphaRgbaTransparent(alpha, src, dst);
    }
    if alpha == 255 && src.alpha == 255 {
      FixedAlphaRgbaCopies(src, dst);
    }
  }

}
