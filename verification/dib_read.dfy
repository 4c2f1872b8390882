/** What `loadDib` does to the bytes of a Windows bitmap once its headers are
    read: the palette quads, the unpacking of 1- and 4-bit rows into one index
    per byte, the bottom-up rows of a 24- or 32-bit image, and the choice of
    picture type and palette size from the bits per pixel.  The stream is a
    sequence of bytes; opening and reading the file are not modelled. */
module DibRead {
  import opened Base
  import opened Colour
  import opened ImageBuffers
  import opened DibFormat
  import Arith

  //// Bits and nibbles ////////

  /** `b >> k` for a non-negative `b`. */
  function Shr(b: nat, k: nat): (r: nat)
    ensures r <= b
  {
    if k == 0 then b else Shr(b, k - 1) / 2
  }

  /** Bit `k` of `b`, counting from the least significant. */
  function Bit(b: Byte, k: nat): (r: Byte)
    ensures r == 0 || r == 1
  {
    Shr(b, k) % 2
  }

  /** Eight shifts empty a byte. */
  lemma ShrByte(b: Byte)
    ensures Shr(b, 8) == 0
  {
    assert Shr(b, 1) < 128;
    assert Shr(b, 2) < 64;
    assert Shr(b, 3) < 32;
    assert Shr(b, 4) < 16;
    assert Shr(b, 5) < 8;
    assert Shr(b, 6) < 4;
    assert Shr(b, 7) < 2;
  }

  /** `(b >> 4) & 0x0F`, the first pixel of a 4-bit pair. */
  function High(b: Byte): (r: Byte)
    ensures r <= 15 && 16 * r <= b < 16 * r + 16
  {
    b / 16
  }

  /** `b & 0x0F`, the second pixel of a 4-bit pair. */
  function Low(b: Byte): (r: Byte)
    ensures r <= 15 && (b - r) % 16 == 0
  {
    b % 16
  }

  //// read01_oneline_ ////////

  /** `read01_oneline_(src, width, dst)` AS WRITTEN.  Each full byte is
      spread over eight pixels, most significant bit first, by taking bit 0
      and shifting the byte right while `j` counts down, so the bytes end up
      zero.  The `width & 7` pixels left over are taken the same way from the
      LOW bits of the next byte: the last pixel gets bit 0, which puts the
      trailing pixels at the opposite end from where the full bytes have
      them. */
  method Read01OneLine(src: array<Byte>, width: int, dst: array<Byte>)
    requires src != dst
    requires 0 <= width <= dst.Length && (width + 7) / 8 <= src.Length
    modifies src, dst
    ensures forall k :: 0 <= k < width - width % 8 ==> dst[k] == Bit(old(src[k / 8]), 7 - k % 8)
    ensures forall k :: width - width % 8 <= k < width ==> dst[k] == Bit(old(src[k / 8]), width - 1 - k)
    ensures forall k :: width <= k < dst.Length ==> dst[k] == old(dst[k])
    ensures forall i :: 0 <= i < width / 8 ==> src[i] == 0
    ensures width % 8 != 0 ==> src[width / 8] == Shr(old(src[width / 8]), width % 8)
    ensures forall i :: (width + 7) / 8 <= i < src.Length ==> src[i] == old(src[i])
  {
    var i := 0;
    while i < width / 8
      invariant 0 <= i <= width / 8
      invariant forall k :: 0 <= k < 8 * i ==> dst[k] == Bit(old(src[k / 8]), 7 - k % 8)
      invariant forall k :: 8 * i <= k < dst.Length ==> dst[k] == old(dst[k])
      invariant forall n :: 0 <= n < i ==> src[n] == 0
      invariant forall n :: i <= n < src.Length ==> src[n] == old(src[n])
    {
      Read01Byte(src, i, dst);
      i := i + 1;
    }
    var dw := width % 8;
    if dw > 0 {
      Read01Trailing(src, width, dst);
    }
  }

  /** The inner loop over the eight pixels of full byte `i`: pixel
      `8 * i + j` gets bit `7 - j`, and the byte is shifted down to 0. */
  method Read01Byte(src: array<Byte>, i: int, dst: array<Byte>)
    requires src != dst && 0 <= i < src.Length && 8 * i + 8 <= dst.Length
    modifies src, dst
    ensures src[i] == 0
    ensures forall k :: 8 * i <= k < 8 * i + 8 ==> dst[k] == Bit(old(src[i]), 7 - k % 8)
    ensures forall k :: 0 <= k < dst.Length && !(8 * i <= k < 8 * i + 8) ==> dst[k] == old(dst[k])
    ensures forall n :: 0 <= n < src.Length && n != i ==> src[n] == old(src[n])
  {
    ghost var b := src[i];
    var j := 7;
    while j >= 0
      invariant -1 <= j <= 7
      invariant src[i] == Shr(b, 7 - j)
      invariant forall k :: 8 * i + j < k < 8 * i + 8 ==> dst[k] == Bit(b, 7 - k % 8)
      invariant forall k :: 0 <= k < dst.Length && !(8 * i + j < k < 8 * i + 8) ==> dst[k] == old(dst[k])
      invariant forall n :: 0 <= n < src.Length && n != i ==> src[n] == old(src[n])
    {
      dst[i * 8 + j] := src[i] % 2;
      src[i] := src[i] / 2;
      j := j - 1;
    }
    ShrByte(b);
  }

  /** The loop over the `width % 8` trailing pixels: the last pixel gets bit
      0 of the next byte, the one before it bit 1, and so on. */
  method Read01Trailing(src: array<Byte>, width: int, dst: array<Byte>)
    requires src != dst && 0 <= width <= dst.Length && width % 8 != 0 && (width + 7) / 8 <= src.Length
    modifies src, dst
    ensures forall k :: width - width % 8 <= k < width ==> dst[k] == Bit(old(src[width / 8]), width - 1 - k)
    ensures forall k :: 0 <= k < dst.Length && !(width - width % 8 <= k < width) ==> dst[k] == old(dst[k])
    ensures src[width / 8] == Shr(old(src[width / 8]), width % 8)
    ensures forall m :: 0 <= m < src.Length && m != width / 8 ==> src[m] == old(src[m])
  {
    var dw := width % 8;
    var uw := width - dw;
    assert uw / 8 == width / 8;
    ghost var b := src[uw / 8];
    var n := dw - 1;
    while n >= 0
      invariant -1 <= n < dw
      invariant src[uw / 8] == Shr(b, dw - 1 - n)
      invariant forall k :: uw + n < k < width ==> dst[k] == Bit(b, width - 1 - k)
      invariant forall k :: 0 <= k < dst.Length && !(uw + n < k < width) ==> dst[k] == old(dst[k])
      invariant forall m :: 0 <= m < src.Length && m != uw / 8 ==> src[m] == old(src[m])
    {
      dst[uw + n] := src[uw / 8] % 2;
      src[uw / 8] := src[uw / 8] / 2;
      n := n - 1;
    }
  }

  /** The 1-bit row as written, pixel by pixel. */
  function Unpack1AsWritten(src: seq<Byte>, width: nat): (px: seq<Byte>)
    requires (width + 7) / 8 <= |src|
  {
    seq(width, k requires 0 <= k < width =>
      if k < width - width % 8 then Bit(src[k / 8], 7 - k % 8) else Bit(src[k / 8], width - 1 - k))
  }

  /** The 1-bit row as a bitmap stores it: pixel `k` is bit `7 - k % 8` of
      byte `k / 8`, for the last, partly filled byte too. */
  function Unpack1(src: seq<Byte>, width: nat): (px: seq<Byte>)
    requires (width + 7) / 8 <= |src|
  {
    seq(width, k requires 0 <= k < width => Bit(src[k / 8], 7 - k % 8))
  }

  //// read04_oneline_ ////////

  /** `read04_oneline_(src, width, dst)` AS WRITTEN: each byte gives two
      pixels, high nibble first; for an odd width the last pixel is taken
      from the LOW nibble of the next byte, where a bitmap keeps it in the
      high one. */
  method Read04OneLine(src: array<Byte>, width: int, dst: array<Byte>)
    requires src != dst
    requires 0 <= width <= dst.Length && (width + 1) / 2 <= src.Length
    modifies dst
    ensures forall k :: 0 <= k < width - width % 2 ==>
              dst[k] == if k % 2 == 0 then High(src[k / 2]) else Low(src[k / 2])
    ensures width % 2 == 1 ==> dst[width - 1] == Low(src[width / 2])
    ensures forall k :: width <= k < dst.Length ==> dst[k] == old(dst[k])
  {
    var i := 0;
    while i < width / 2
      invariant 0 <= i <= width / 2
      invariant forall k :: 0 <= k < 2 * i ==> dst[k] == if k % 2 == 0 then High(src[k / 2]) else Low(src[k / 2])
      invariant forall k :: 2 * i <= k < dst.Length ==> dst[k] == old(dst[k])
    {
      dst[i * 2 + 1] := src[i] % 16;
      dst[i * 2] := src[i] / 16 % 16;
      i := i + 1;
    }
    if width % 2 == 1 {
      dst[width - 1] := src[width / 2] % 16;
    }
  }

  /** The 4-bit row as written, pixel by pixel. */
  function Unpack4AsWritten(src: seq<Byte>, width: nat): (px: seq<Byte>)
    requires (width + 1) / 2 <= |src|
  {
    seq(width, k requires 0 <= k < width =>
      if k % 2 == 0 && k < width - 1 then High(src[k / 2]) else Low(src[k / 2]))
  }

  /** The 4-bit row as a bitmap stores it: pixel `k` is the high nibble of
      byte `k / 2` when `k` is even and its low nibble when `k` is odd. */
  function Unpack4(src: seq<Byte>, width: nat): (px: seq<Byte>)
    requires (width + 1) / 2 <= |src|
  {
    seq(width, k requires 0 <= k < width => if k % 2 == 0 then High(src[k / 2]) else Low(src[k / 2]))
  }

  //// How a bitmap packs 1- and 4-bit pixels ////////

  predicate IsBits(s: seq<Byte>)
  {
    forall i :: 0 <= i < |s| ==> s[i] <= 1
  }

  /** The bits `s` read as a binary number, `s[0]` the most significant. */
  function PackBits(s: seq<Byte>): (v: nat)
  {
    if s == [] then 0 else 2 * PackBits(s[..|s| - 1]) + s[|s| - 1]
  }

  lemma {:induction false} PackBitsBound(s: seq<Byte>)
    requires IsBits(s)
    ensures PackBits(s) < Pow2(|s|)
    decreases |s|
  {
    if s != [] {
      PackBitsBound(s[..|s| - 1]);
    }
  }

  /** Shifting right by `k` drops the last `k` bits. */
  lemma {:induction false} ShrPackBits(s: seq<Byte>, k: nat)
    requires IsBits(s) && k <= |s|
    ensures Shr(PackBits(s), k) == PackBits(s[..|s| - k])
    decreases k
  {
    if k > 0 {
      ShrPackBits(s, k - 1);
      var t := s[..|s| - k + 1];
      assert t[..|t| - 1] == s[..|s| - k];
      assert t[|t| - 1] == s[|s| - k] <= 1;
      assert PackBits(t) == 2 * PackBits(s[..|s| - k]) + t[|t| - 1];
    } else {
      assert s[..|s|] == s;
    }
  }

  /** The eight pixels `8 * i` to `8 * i + 7`, zero past the end of the row. */
  function Octet(px: seq<Byte>, i: nat): (bits: seq<Byte>)
    ensures |bits| == 8
  {
    seq(8, j requires 0 <= j < 8 => if 8 * i + j < |px| then px[8 * i + j] else 0)
  }

  /** The byte holding eight 1-bit pixels, the first in the top bit. */
  function PackOctet(bits: seq<Byte>): (b: Byte)
    requires |bits| == 8 && IsBits(bits)
  {
    PackBitsBound(bits);
    assert Pow2(8) == 256;
    PackBits(bits)
  }

  /** Bit `7 - j` of the packed byte is pixel `j`. */
  lemma BitOfOctet(bits: seq<Byte>, j: nat)
    requires |bits| == 8 && IsBits(bits) && j < 8
    ensures Bit(PackOctet(bits), 7 - j) == bits[j]
  {
    ShrPackBits(bits, 7 - j);
    var t := bits[..j + 1];
    assert t[..|t| - 1] == bits[..j];
  }

  /** A row of 1-bit pixels as a bitmap stores it: eight to a byte, most
      significant bit first, the last byte filled up with zero bits. */
  function Pack1(px: seq<Byte>): (bs: seq<Byte>)
    requires IsBits(px)
    ensures |bs| == (|px| + 7) / 8
  {
    seq((|px| + 7) / 8, i requires 0 <= i < (|px| + 7) / 8 => PackOctet(Octet(px, i)))
  }

  /** Unpacking a stored 1-bit row gives its pixels back. */
  lemma Unpack1Pack1(px: seq<Byte>)
    requires IsBits(px)
    ensures Unpack1(Pack1(px), |px|) == px
  {
    var bs := Pack1(px);
    forall k | 0 <= k < |px|
      ensures Unpack1(bs, |px|)[k] == px[k]
    {
      BitOfOctet(Octet(px, k / 8), k % 8);
    }
  }

  /** A row of 4-bit pixels as a bitmap stores it: two to a byte, the first
      in the high nibble, the last byte of an odd row with a zero low
      nibble. */
  function Pack4(px: seq<Byte>): (bs: seq<Byte>)
    requires forall k :: 0 <= k < |px| ==> px[k] <= 15
    ensures |bs| == (|px| + 1) / 2
  {
    seq((|px| + 1) / 2, i requires 0 <= i < (|px| + 1) / 2 =>
      16 * px[2 * i] + if 2 * i + 1 < |px| then px[2 * i + 1] else 0)
  }

  /** Unpacking a stored 4-bit row gives its pixels back. */
  lemma Unpack4Pack4(px: seq<Byte>)
    requires forall k :: 0 <= k < |px| ==> px[k] <= 15
    ensures Unpack4(Pack4(px), |px|) == px
  {
  }

  /** The trailing pixels are read from the wrong end of the last byte: a
      row of one white 1-bit pixel is stored as 0x80 and read back as 0, and
      a row of one 4-bit pixel 5 is stored as 0x50 and read back as 0. */
  lemma TrailingPixelsMisread()
    ensures Pack1([1]) == [0x80] && Unpack1AsWritten([0x80], 1) == [0] && Unpack1([0x80], 1) == [1]
    ensures Pack4([5]) == [0x50] && Unpack4AsWritten([0x50], 1) == [0] && Unpack4([0x50], 1) == [5]
  {
    assert Octet([1], 0) == [1, 0, 0, 0, 0, 0, 0, 0];
    BitOfOctet(Octet([1], 0), 0);
    assert PackBits([1, 0, 0, 0, 0, 0, 0, 0]) == 128 by {
      assert PackBits([1]) == 1;
      assert [1, 0][..1] == [1];
      assert [1, 0, 0][..2] == [1, 0];
      assert [1, 0, 0, 0][..3] == [1, 0, 0];
      assert [1, 0, 0, 0, 0][..4] == [1, 0, 0, 0];
      assert [1, 0, 0, 0, 0, 0][..5] == [1, 0, 0, 0, 0];
      assert [1, 0, 0, 0, 0, 0, 0][..6] == [1, 0, 0, 0, 0, 0];
      assert [1, 0, 0, 0, 0, 0, 0, 0][..7] == [1, 0, 0, 0, 0, 0, 0];
    }
    assert Shr(0x80, 0) == 0x80;
  }

  //// readPalette_ ////////

  /** The colour of a palette quad, stored blue, green, red, reserved. */
  function QuadColour(s: seq<Byte>, i: nat): (c: Rgb)
    requires 4 * i + 4 <= |s|
  {
    Rgb(s[4 * i + 2], s[4 * i + 1], s[4 * i])
  }

  /** `readPalette_(is, pal, npal)` AS WRITTEN: the palette entries read from
      `npal` quads and the rest of the stream, or None when the stream has
      fewer than `4 * npal` bytes (a negative `npal` asks `is.read` for an
      enormous count, which fails).  Nothing limits `npal` to the 256 quads
      of the local buffer `quad` or the 256 entries of the palette. */
  function ReadPaletteAsWritten(s: seq<Byte>, npal: int): (r: Option<(seq<Rgb>, seq<Byte>)>)
    ensures r.Some? <==> 0 <= npal && 4 * npal <= |s|
    ensures r.Some? ==> |r.value.0| == npal && r.value.1 == s[4 * npal..]
    ensures r.Some? ==> forall i :: 0 <= i < npal ==> r.value.0[i] == QuadColour(s, i)
  {
    if npal < 0 || |s| < 4 * npal then None
    else Some((seq(npal, i requires 0 <= i < npal => QuadColour(s, i)), s[4 * npal..]))
  }

  /** `readPalette_` with the bound its buffers need: a count above 256
      fails instead of writing past `quad` and the palette. */
  function ReadPalette(s: seq<Byte>, npal: int): (r: Option<(seq<Rgb>, seq<Byte>)>)
    ensures r.Some? <==> 0 <= npal <= 256 && 4 * npal <= |s|
    ensures r.Some? ==> r == ReadPaletteAsWritten(s, npal) && |r.value.0| <= 256
  {
    if npal > 256 then None else ReadPaletteAsWritten(s, npal)
  }

  //// The choice made from the bits per pixel ////////

  datatype PictureKind = Indexed | TrueColour

  /** `loadDib`'s switch: 1, 4 and 8 bits per pixel make a `PictureIndexed`,
      24 and 32 a `Picture`; any other depth fails. */
  function KindOf(bpp: int): (k: Option<PictureKind>)
  {
    if bpp == 1 || bpp == 4 || bpp == 8 then Some(Indexed)
    else if bpp == 24 || bpp == 32 then Some(TrueColour)
    else None
  }

  /** `np` in `loadDibPictureIndexed_`: the colours-used field, or `1 << bpp`
      when it is zero. */
  function PaletteCount(info: Info): (np: int)
    requires KindOf(info.bpp) == Some(Indexed)
    ensures info.numpalette != 0 ==> np == info.numpalette
    ensures info.numpalette == 0 ==> np == Pow2(info.bpp) && np <= 256
  {
    assert Pow2(1) == 2 && Pow2(4) == 16 && Pow2(8) == 256;
    if info.numpalette != 0 then info.numpalette else Pow2(info.bpp)
  }

  /** The bytes of one file row each reader takes: `getBufSize_((w + 7) / 8)`
      for 1 bit, `getBufSize_((w + 1) / 2)` for 4, `getBufSize_(w)` for 8 and
      `getBufSize_(w * 3)` or `getBufSize_(w * 4)` for 24 and 32.  Every one
      is the bitmap row stride, `bpp * w` bits rounded up to whole 32-bit
      words. */
  function RowSize(bpp: int, w: nat): (r: Option<nat>)
    ensures r.Some? <==> KindOf(bpp).Some?
    ensures r.Some? ==> r.value == (bpp * w + 31) / 32 * 4
  {
    if KindOf(bpp).None? then None
    else
      Stride(bpp, w);
      if bpp == 1 then Some(GetBufSize((w + 7) / 8))
      else if bpp == 4 then Some(GetBufSize((w + 1) / 2))
      else if bpp == 8 then Some(GetBufSize(w))
      else if bpp == 24 then Some(GetBufSize(w * 3))
      else Some(GetBufSize(w * 4))
  }

  /** `bytes` rounded up to a multiple of four is `bits` rounded up to a
      multiple of 32, in bytes, when `bytes` is `bits` rounded up to whole
      bytes. */
  lemma StrideOfBytes(bits: nat, bytes: nat)
    requires bytes == (bits + 7) / 8
    ensures GetBufSize(bytes) == (bits + 31) / 32 * 4
  {
    var q := (bits + 31) / 32;
    assert 32 * q <= bits + 31 < 32 * q + 32;
    assert 8 * bytes <= bits + 7 < 8 * bytes + 8;
    assert 4 * q <= bytes + 3 < 4 * q + 4;
    Arith.DivUnique(bytes + 3, 4, q);
  }

  lemma Stride(bpp: int, w: nat)
    requires bpp == 1 || bpp == 4 || bpp == 8 || bpp == 24 || bpp == 32
    ensures bpp == 1 ==> GetBufSize((w + 7) / 8) == (bpp * w + 31) / 32 * 4
    ensures bpp == 4 ==> GetBufSize((w + 1) / 2) == (bpp * w + 31) / 32 * 4
    ensures bpp == 8 ==> GetBufSize(w) == (bpp * w + 31) / 32 * 4
    ensures bpp == 24 ==> GetBufSize(w * 3) == (bpp * w + 31) / 32 * 4
    ensures bpp == 32 ==> GetBufSize(w * 4) == (bpp * w + 31) / 32 * 4
  {
    if bpp == 1 {
      StrideOfBytes(w, (w + 7) / 8);
    } else if bpp == 4 {
      assert (4 * w + 7) / 8 == (w + 1) / 2;
      StrideOfBytes(4 * w, (w + 1) / 2);
    } else if bpp == 8 {
      StrideOfBytes(8 * w, w);
    } else if bpp == 24 {
      StrideOfBytes(24 * w, w * 3);
    } else {
      StrideOfBytes(32 * w, w * 4);
    }
  }

  /** A header asking for 257 palette entries is read as such, the count
      reaches `readPalette_` unchecked, and the read stores 257 entries:
      one quad past `quad[256]` and one entry past the palette.  The bounded
      read refuses it. */
  lemma PaletteOverflow(rest: seq<Byte>)
    requires |rest| >= 4 * 257
    ensures ReadInfo(InfoHeader(1, 1, 8, 257) + rest) == Some((Info(1, 1, 8, 257), rest))
    ensures PaletteCount(Info(1, 1, 8, 257)) == 257
    ensures ReadPaletteAsWritten(rest, 257).Some? && |ReadPaletteAsWritten(rest, 257).value.0| == 257 > 256
    ensures ReadPalette(rest, 257) == None
  {
    InfoRoundTrip(1, 1, 8, 257, rest);
  }

  //// read24bit_ and read32bit_ ////////

  /** The first `n` bytes of the stream, zero past its end: what
      `is.read(buf, n)` leaves in a zero-initialised buffer. */
  function Padded(s: seq<Byte>, n: nat): (b: seq<Byte>)
    ensures |b| == n
    ensures forall i :: 0 <= i < n ==> b[i] == if i < |s| then s[i] else 0
  {
    if |s| >= n then s[..n] else s + seq(n - |s|, _ => 0)
  }

  /** The image buffer cut into `n` file rows of `ls` bytes, the first row
      from the start of the stream. */
  function FileRows(s: seq<Byte>, ls: nat, n: nat): (rows: seq<seq<Byte>>)
    ensures |rows| == n && forall k :: 0 <= k < n ==> |rows[k]| == ls
    decreases n
  {
    if n == 0 then [] else [Padded(s, ls)] + FileRows(if |s| >= ls then s[ls..] else [], ls, n - 1)
  }

  /** The byte offset of pixel `x` in a row of `step`-byte pixels. */
  function PixelOffset(step: nat, x: nat): (off: nat)
    requires step == 3 || step == 4
    ensures off == step * x
  {
    if step == 3 then 3 * x else 4 * x
  }

  /** Row `y` of the picture read from the file rows: pixel `x` is the blue,
      green and red bytes at offset `step * x` of file row `h - 1 - y`; the
      fourth byte of a 32-bit pixel is ignored. */
  function TrueColourPixel(rows: seq<seq<Byte>>, step: nat, w: nat, x: nat, y: nat): (c: Rgb)
    requires step == 3 || step == 4
    requires x < w && y < |rows| && forall k :: 0 <= k < |rows| ==> |rows[k]| >= PixelOffset(step, w)
  {
    var row, off := rows[|rows| - 1 - y], PixelOffset(step, x);
    assert off + step <= PixelOffset(step, w);
    Rgb(row[off + 2], row[off + 1], row[off])
  }

  /** `read24bit_` (`step` 3) and `read32bit_` (`step` 4): `linesize * height`
      bytes are read at once, file row `k` at offset `k * linesize` with
      `linesize = getBufSize_(width * step)`, and file row `k` becomes
      picture row `height - 1 - k`.  A short stream leaves the rest of the
      buffer zero; the read does not fail. */
  method ReadTrueColour(s: seq<Byte>, step: nat, pict: ImageBuffer<Rgb>)
    requires step == 3 || step == 4
    requires pict.Valid()
    modifies pict.buf
    ensures forall y, x :: 0 <= y < pict.h && 0 <= x < pict.w ==>
              pict.buf[y, x] == TrueColourPixel(FileRows(s, GetBufSize(PixelOffset(step, pict.w)), pict.h), step, pict.w, x, y)
  {
    var width, height := pict.w, pict.h;
    var linesize := GetBufSize(PixelOffset(step, width));
    var rows := FileRows(s, linesize, height);
    var y := height - 1;
    while y >= 0
      invariant -1 <= y < height
      invariant forall j, x :: y < j < height && 0 <= x < width ==> pict.buf[j, x] == TrueColourPixel(rows, step, width, x, j)
    {
      var lb := rows[height - 1 - y];
      ReadTrueColourRow(lb, step, pict, y, rows);
      y := y - 1;
    }
  }

  /** The inner loop of `read24bit_` and `read32bit_`: picture row `y` from
      the file row `lb`, the other rows untouched. */
  method ReadTrueColourRow(lb: seq<Byte>, step: nat, pict: ImageBuffer<Rgb>, y: int, ghost rows: seq<seq<Byte>>)
    requires step == 3 || step == 4
    requires pict.Valid() && 0 <= y < pict.h && |rows| == pict.h && lb == rows[pict.h - 1 - y]
    requires forall k :: 0 <= k < |rows| ==> |rows[k]| >= PixelOffset(step, pict.w)
    modifies pict.buf
    ensures forall x :: 0 <= x < pict.w ==> pict.buf[y, x] == TrueColourPixel(rows, step, pict.w, x, y)
    ensures forall j, x :: 0 <= j < pict.h && j != y && 0 <= x < pict.w ==> pict.buf[j, x] == old(pict.buf[j, x])
  {
    var width := pict.w;
    var x, k := 0, 0;
    while x < width
      invariant 0 <= x <= width && k == PixelOffset(step, x)
      invariant forall j, i :: 0 <= j < pict.h && j != y && 0 <= i < width ==> pict.buf[j, i] == old(pict.buf[j, i])
      invariant forall i :: 0 <= i < x ==> pict.buf[y, i] == TrueColourPixel(rows, step, width, i, y)
    {
      assert k + step <= PixelOffset(step, width);
      pict.buf[y, x] := Rgb(lb[k + 2], lb[k + 1], lb[k]);
      x, k := x + 1, k + step;
    }
  }

  //// read01bit_, read04bit_ and read08bit_ ////////

  /** `n` file rows of `bs` bytes, read with one `is.read` each, and the
      stream after them; None as soon as a row finds too few bytes. */
  function FileLines(s: seq<Byte>, bs: nat, n: nat): (r: Option<(seq<seq<Byte>>, seq<Byte>)>)
    ensures r.Some? ==> |r.value.0| == n && forall k :: 0 <= k < n ==> |r.value.0[k]| == bs
    decreases n
  {
    if n == 0 then Some(([], s))
    else if |s| < bs then None
    else
      match FileLines(s[bs..], bs, n - 1)
      case None => None
      case Some(d) => Some(([s[..bs]] + d.0, d.1))
  }

  /** The pixels of one file row of an indexed bitmap: `read01_oneline_`,
      `read04_oneline_`, or the first `w` bytes copied by `read08bit_`. */
  function IndexedLine(bpp: int, w: nat, line: seq<Byte>): (px: seq<Byte>)
    requires bpp == 1 || bpp == 4 || bpp == 8
    requires |line| == RowSize(bpp, w).value
    ensures |px| == w
    ensures bpp == 1 ==> px == Unpack1AsWritten(line, w)
    ensures bpp == 4 ==> px == Unpack4AsWritten(line, w)
    ensures bpp == 8 ==> px == line[..w]
  {
    if bpp == 1 then Unpack1AsWritten(line, w)
    else if bpp == 4 then Unpack4AsWritten(line, w)
    else line[..w]
  }

  /** The pixel rows `read01bit_`, `read04bit_` or `read08bit_` fills, top
      to bottom: picture row `y` comes from file row `h - 1 - y`. */
  function IndexedRows(s: seq<Byte>, bpp: int, w: nat, h: nat): (r: Option<(seq<seq<Byte>>, seq<Byte>)>)
    requires bpp == 1 || bpp == 4 || bpp == 8
    ensures r.Some? <==> FileLines(s, RowSize(bpp, w).value, h).Some?
    ensures r.Some? ==> |r.value.0| == h && forall y :: 0 <= y < h ==>
              r.value.0[y] == IndexedLine(bpp, w, FileLines(s, RowSize(bpp, w).value, h).value.0[h - 1 - y])
  {
    match FileLines(s, RowSize(bpp, w).value, h)
    case None => None
    case Some(d) => Some((seq(h, y requires 0 <= y < h => IndexedLine(bpp, w, d.0[h - 1 - y])), d.1))
  }
}
