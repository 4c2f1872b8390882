/** What `saveDib` writes after opening the file: the palette quads and the
    pixel rows of a 24-bit `Picture` or an 8-bit `PictureIndexed`, bottom row
    first, each padded with zero bytes to a multiple of four; and the whole
    file those make with the two headers.  The stream is the sequence of
    bytes written so far; `os.write` appends to it. */
module DibWrite {
  import opened Base
  import opened Colour
  import opened ImageBuffers
  import opened DibFormat
  import opened DibRead
  import opened Pictures

  //// Rows, bottom to top ////////

  /** The rows written last to first, as the `for (j = height - 1; j >= 0; --j)`
      loops of both `writeBits_` emit them. */
  function BottomUp(lines: seq<seq<Byte>>): (bs: seq<Byte>)
    decreases |lines|
  {
    if lines == [] then [] else lines[|lines| - 1] + BottomUp(lines[..|lines| - 1])
  }

  /** Writing one more row above the ones written: it comes last. */
  lemma {:induction false} BottomUpCons(a: seq<Byte>, lines: seq<seq<Byte>>)
    ensures BottomUp([a] + lines) == BottomUp(lines) + a
    decreases |lines|
  {
    if lines == [] {
      assert [a] + lines == [a];
      assert [a][..0] == [];
    } else {
      var t := [a] + lines;
      assert t[..|t| - 1] == [a] + lines[..|lines| - 1];
      BottomUpCons(a, lines[..|lines| - 1]);
    }
  }

  /** Reading rows of `bs` bytes back from the start, as `read24bit_` cuts
      its buffer, gives the last row first. */
  lemma {:induction false} FileRowsOfBottomUp(lines: seq<seq<Byte>>, bs: nat, rest: seq<Byte>)
    requires forall j :: 0 <= j < |lines| ==> |lines[j]| == bs
    ensures forall k :: 0 <= k < |lines| ==> FileRows(BottomUp(lines) + rest, bs, |lines|)[k] == lines[|lines| - 1 - k]
    decreases |lines|
  {
    if lines != [] {
      var n := |lines|;
      var init := lines[..n - 1];
      FileRowsOfBottomUp(init, bs, rest);
      var s := BottomUp(lines) + rest;
      var t := BottomUp(init) + rest;
      assert s == lines[n - 1] + t;
      assert s[..bs] == lines[n - 1];
      assert s[bs..] == t;
      assert Padded(s, bs) == lines[n - 1];
      var fr, tr := FileRows(s, bs, n), FileRows(t, bs, n - 1);
      assert fr == [lines[n - 1]] + tr;
      forall k | 0 <= k < n
        ensures fr[k] == lines[n - 1 - k]
      {
        if k > 0 {
          assert fr[k] == tr[k - 1];
        }
      }
    }
  }

  /** Reading rows of `bs` bytes one at a time, as `read08bit_` does, gives
      the last row first and leaves what followed them. */
  lemma {:induction false} FileLinesOfBottomUp(lines: seq<seq<Byte>>, bs: nat, rest: seq<Byte>)
    requires forall j :: 0 <= j < |lines| ==> |lines[j]| == bs
    ensures FileLines(BottomUp(lines) + rest, bs, |lines|).Some?
    ensures var d := FileLines(BottomUp(lines) + rest, bs, |lines|).value;
      d.1 == rest && forall k :: 0 <= k < |lines| ==> d.0[k] == lines[|lines| - 1 - k]
    decreases |lines|
  {
    if lines != [] {
      var n := |lines|;
      var init := lines[..n - 1];
      FileLinesOfBottomUp(init, bs, rest);
      var s := BottomUp(lines) + rest;
      assert s == lines[n - 1] + (BottomUp(init) + rest);
      assert s[..bs] == lines[n - 1];
      assert s[bs..] == BottomUp(init) + rest;
    } else {
      assert BottomUp(lines) + rest == rest;
    }
  }

  /** Writing row `j` after rows `j + 1` and up: the rows from `j` on. */
  lemma BottomUpStep(lines: seq<seq<Byte>>, j: nat, line: seq<Byte>)
    requires j < |lines| && line == lines[j]
    ensures BottomUp(lines[j + 1..]) + line == BottomUp(lines[j..])
  {
    BottomUpCons(lines[j], lines[j + 1..]);
    assert [lines[j]] + lines[j + 1..] == lines[j..];
  }

  //// writePalette_ ////////

  /** Byte `k` of a palette quad: blue, green, red, then a zero. */
  function QuadByte(c: Rgb, k: nat): (b: Byte)
    requires k < 4
  {
    if k == 0 then c.blue else if k == 1 then c.green else if k == 2 then c.red else 0
  }

  /** The palette as quads, entry `i` at bytes `4 * i` to `4 * i + 3`. */
  function PaletteBytes(pal: seq<Rgb>): (bs: seq<Byte>)
    ensures |bs| == 4 * |pal|
  {
    seq(4 * |pal|, k requires 0 <= k < 4 * |pal| => QuadByte(pal[k / 4], k % 4))
  }

  /** `writePalette_(os, pal, np)`: fills `np` quads of the local
      `quad[256]` from the palette and writes them in one piece.  Its one
      caller passes 256. */
  method WritePalette(pal: array<Rgb>, np: int) returns (out: seq<Byte>)
    requires 0 <= np <= 256 && np <= pal.Length
    ensures out == PaletteBytes(pal[..np])
  {
    var quad := new Byte[4 * 256];
    var i := 0;
    while i < np
      invariant 0 <= i <= np
      invariant forall k :: 0 <= k < 4 * i ==> quad[k] == QuadByte(pal[k / 4], k % 4)
    {
      quad[4 * i] := pal[i].blue;
      quad[4 * i + 1] := pal[i].green;
      quad[4 * i + 2] := pal[i].red;
      quad[4 * i + 3] := 0;
      i := i + 1;
    }
    out := quad[..4 * np];
  }

  /** Palette quads read back by `readPalette_` give the palette and leave
      the pixel bytes after them. */
  lemma PaletteRoundTrip(pal: seq<Rgb>, rest: seq<Byte>)
    requires |pal| <= 256
    ensures ReadPalette(PaletteBytes(pal) + rest, |pal|) == Some((pal, rest))
  {
    var s := PaletteBytes(pal) + rest;
    var r := ReadPalette(s, |pal|);
    assert r.value.1 == rest by {
      assert s[4 * |pal|..] == rest;
    }
    assert r.value.0 == pal by {
      forall i | 0 <= i < |pal|
        ensures r.value.0[i] == pal[i]
      {
        assert s[4 * i] == pal[i].blue && s[4 * i + 1] == pal[i].green && s[4 * i + 2] == pal[i].red;
      }
    }
  }

  //// writeBits_ for a PictureIndexed ////////

  /** A row of indices padded with zeros to `bs` bytes. */
  function IndexedBitsLine(row: seq<Byte>, bs: nat): (line: seq<Byte>)
    ensures |line| == bs
  {
    seq(bs, k requires 0 <= k < bs => if k < |row| then row[k] else 0)
  }

  function IndexedBitsLines(rows: seq<seq<Byte>>, bs: nat): (lines: seq<seq<Byte>>)
    ensures |lines| == |rows| && forall j :: 0 <= j < |rows| ==> lines[j] == IndexedBitsLine(rows[j], bs)
  {
    seq(|rows|, j requires 0 <= j < |rows| => IndexedBitsLine(rows[j], bs))
  }

  /** `writeBits_(os, pict, bufsize)` for an indexed picture: the zeroed
      `linebuf` takes the `w` indices of each row, bottom row first, and is
      written whole, so the `bufsize - w` padding bytes stay zero. */
  method WriteIndexedBits(pict: PictureIndexed, bufsize: int) returns (out: seq<Byte>)
    requires pict.Valid() && pict.image.w <= bufsize
    ensures out == BottomUp(IndexedBitsLines(pict.image.Rows(), bufsize))
  {
    var img := pict.image;
    ghost var rows := img.Rows();
    ghost var lines := IndexedBitsLines(rows, bufsize);
    var linebuf := new Byte[bufsize](_ => 0);
    var w := img.w;
    var j := img.h - 1;
    out := [];
    while j >= 0
      invariant -1 <= j < img.h
      invariant img.Rows() == rows
      invariant forall k :: w <= k < bufsize ==> linebuf[k] == 0
      invariant out == BottomUp(lines[j + 1..])
    {
      FillLineIndexed(img, j, linebuf, rows[j]);
      BottomUpStep(lines, j, linebuf[..]);
      out := out + linebuf[..];
      j := j - 1;
    }
    assert j == -1;
    assert lines[0..] == lines;
    assert out == BottomUp(lines);
  }

  /** The inner loop of the indexed `writeBits_`: the `w` indices of row
      `j` go into `linebuf`, whose padding stays zero, which makes it the
      row's line. */
  method FillLineIndexed(img: ImageBuffer<Byte>, j: int, linebuf: array<Byte>, ghost row: seq<Byte>)
    requires img.Valid() && 0 <= j < img.h && img.w <= linebuf.Length && row == img.Rows()[j]
    requires forall k :: img.w <= k < linebuf.Length ==> linebuf[k] == 0
    modifies linebuf
    ensures linebuf[..] == IndexedBitsLine(row, linebuf.Length)
    ensures forall k :: img.w <= k < linebuf.Length ==> linebuf[k] == 0
  {
    var w := img.w;
    var i := 0;
    while i < w
      invariant 0 <= i <= w
      invariant forall k :: w <= k < linebuf.Length ==> linebuf[k] == 0
      invariant forall k :: 0 <= k < i ==> linebuf[k] == img.buf[j, k]
    {
      linebuf[i] := img.buf[j, i];
      i := i + 1;
    }
    assert row == img.LineBuffer(j);
  }

  //// writeBits_ for a Picture ////////

  /** Byte `k` of a 24-bit row: blue, green and red of pixel `k / 3`. */
  function ChannelByte(c: Rgb, k: nat): (b: Byte)
    requires k < 3
  {
    if k == 0 then c.blue else if k == 1 then c.green else c.red
  }

  /** A row of colours as three bytes a pixel, padded with zeros to `bs`
      bytes. */
  function Bits24Line(row: seq<Rgb>, bs: nat): (line: seq<Byte>)
    ensures |line| == bs
  {
    seq(bs, k requires 0 <= k < bs => if k < 3 * |row| then ChannelByte(row[k / 3], k % 3) else 0)
  }

  function Bits24Lines(rows: seq<seq<Rgb>>, bs: nat): (lines: seq<seq<Byte>>)
    ensures |lines| == |rows| && forall j :: 0 <= j < |rows| ==> lines[j] == Bits24Line(rows[j], bs)
  {
    seq(|rows|, j requires 0 <= j < |rows| => Bits24Line(rows[j], bs))
  }

  /** Bytes `3 * n` to `3 * n + 2` of `line` hold the blue, green and red
      of `c`. */
  predicate PixelBytes(line: seq<Byte>, n: nat, c: Rgb)
  {
    3 * n + 2 < |line| && line[3 * n] == c.blue && line[3 * n + 1] == c.green && line[3 * n + 2] == c.red
  }

  lemma Bits24LineAt(row: seq<Rgb>, bs: nat, n: nat)
    requires 3 * |row| <= bs && n < |row|
    ensures PixelBytes(Bits24Line(row, bs), n, row[n])
  {
    var line := Bits24Line(row, bs);
    assert (3 * n) / 3 == n && (3 * n + 1) / 3 == n && (3 * n + 2) / 3 == n;
    assert line[3 * n] == ChannelByte(row[n], 0);
    assert line[3 * n + 1] == ChannelByte(row[n], 1);
    assert line[3 * n + 2] == ChannelByte(row[n], 2);
  }

  /** A buffer holding the bytes of every pixel and zero padding is the
      row's line. */
  lemma Bits24LineIs(line: seq<Byte>, row: seq<Rgb>, bs: nat)
    requires |line| == bs && 3 * |row| <= bs
    requires forall n :: 0 <= n < |row| ==> PixelBytes(line, n, row[n])
    requires forall k :: 3 * |row| <= k < bs ==> line[k] == 0
    ensures line == Bits24Line(row, bs)
  {
    forall k | 0 <= k < bs
      ensures line[k] == Bits24Line(row, bs)[k]
    {
      if k < 3 * |row| {
        var n := k / 3;
        assert PixelBytes(line, n, row[n]);
        assert k == 3 * n || k == 3 * n + 1 || k == 3 * n + 2;
      }
    }
  }

  /** `writeBits_(os, pict, bufsize)` for a 24-bit picture: bytes `3 * i`,
      `3 * i + 1` and `3 * i + 2` of the zeroed `linebuf` take the blue,
      green and red of pixel `i`; each row is written whole, bottom row
      first, so the padding bytes stay zero. */
  method WriteBits24(pict: ImageBuffer<Rgb>, bufsize: int) returns (out: seq<Byte>)
    requires pict.Valid() && 3 * pict.w <= bufsize
    ensures out == BottomUp(Bits24Lines(pict.Rows(), bufsize))
  {
    ghost var rows := pict.Rows();
    ghost var lines := Bits24Lines(rows, bufsize);
    var linebuf := new Byte[bufsize](_ => 0);
    var w := pict.w;
    var j := pict.h - 1;
    out := [];
    while j >= 0
      invariant -1 <= j < pict.h
      invariant pict.Rows() == rows
      invariant forall k :: 3 * w <= k < bufsize ==> linebuf[k] == 0
      invariant out == BottomUp(lines[j + 1..])
    {
      FillLine24(pict, j, linebuf, rows[j]);
      BottomUpStep(lines, j, linebuf[..]);
      out := out + linebuf[..];
      j := j - 1;
    }
    assert j == -1;
    assert lines[0..] == lines;
    assert out == BottomUp(lines);
  }

  /** The inner loop of the 24-bit `writeBits_`: the pixels of row `j` go
      into `linebuf`, whose padding stays zero, which makes it the row's
      line. */
  method FillLine24(pict: ImageBuffer<Rgb>, j: int, linebuf: array<Byte>, ghost row: seq<Rgb>)
    requires pict.Valid() && 0 <= j < pict.h && 3 * pict.w <= linebuf.Length && row == pict.Rows()[j]
    requires forall k :: 3 * pict.w <= k < linebuf.Length ==> linebuf[k] == 0
    modifies linebuf
    ensures linebuf[..] == Bits24Line(row, linebuf.Length)
    ensures forall k :: 3 * pict.w <= k < linebuf.Length ==> linebuf[k] == 0
  {
    var w := pict.w;
    var i := 0;
    while i < w
      invariant 0 <= i <= w
      invariant forall k :: 3 * w <= k < linebuf.Length ==> linebuf[k] == 0
      invariant forall n :: 0 <= n < i ==> PixelBytes(linebuf[..], n, pict.buf[j, n])
    {
      var c := pict.buf[j, i];
      linebuf[3 * i] := c.blue;
      linebuf[3 * i + 1] := c.green;
      linebuf[3 * i + 2] := c.red;
      i := i + 1;
    }
    Bits24LineIs(linebuf[..], row, linebuf.Length);
  }

  /** Rows written by the 24-bit `writeBits_` and cut and mapped as
      `read24bit_` does, with its `linesize`, give back every pixel. */
  lemma Bits24RoundTrip(rows: seq<seq<Rgb>>, w: nat, y: nat, x: nat)
    requires forall j :: 0 <= j < |rows| ==> |rows[j]| == w
    requires y < |rows| && x < w
    ensures var ls := GetBufSize(PixelOffset(3, w));
      TrueColourPixel(FileRows(BottomUp(Bits24Lines(rows, ls)), ls, |rows|), 3, w, x, y) == rows[y][x]
  {
    var ls := GetBufSize(PixelOffset(3, w));
    var lines := Bits24Lines(rows, ls);
    FileRowsOfBottomUp(lines, ls, []);
    assert BottomUp(lines) + [] == BottomUp(lines);
    var fr := FileRows(BottomUp(lines), ls, |rows|);
    assert fr[|rows| - 1 - y] == Bits24Line(rows[y], ls);
    Bits24LineAt(rows[y], ls, x);
  }

  //// saveDib ////////

  /** The row size `saveDib` computes, `((l + 3) / 4) * 4` in C++: `l`
      rounded up to a multiple of four, as `getBufSize_` rounds it. */
  function RowBytes(l: nat): (bs: nat)
    ensures bs == GetBufSize(l)
  {
    RowSizesAgree(l);
    TruncDiv(l + 3, 4) * 4
  }

  /** `saveDib(const Picture&, path)` once the file is open: the file header
      with no palette, the information header for 24 bits per pixel and the
      rows, each `((w * 3 + 3) / 4) * 4` bytes. */
  method SaveDib24(pict: ImageBuffer<Rgb>) returns (out: seq<Byte>)
    requires pict.Valid()
    ensures var bs := RowBytes(pict.w * 3);
      out == FileHeader(bs * pict.h, 0) + InfoHeader(pict.w, pict.h, 24, 0) + BottomUp(Bits24Lines(pict.Rows(), bs))
  {
    var bufsize := pict.w * 3;
    bufsize := TruncDiv(bufsize + 3, 4) * 4;
    RowSizesAgree(pict.w * 3);
    var mapsize := bufsize * pict.h;
    var bits := WriteBits24(pict, bufsize);
    out := FileHeader(mapsize, 0) + InfoHeader(pict.w, pict.h, 24, 0) + bits;
  }

  /** `saveDib(const PictureIndexed&, path)` once the file is open: the file
      header counting 256 palette entries, the information header for 8 bits
      per pixel with 0 colours used, all 256 palette quads and the rows, each
      `((w + 3) / 4) * 4` bytes. */
  method SaveDibIndexed(pict: PictureIndexed) returns (out: seq<Byte>)
    requires pict.Valid()
    ensures var bs := RowBytes(pict.image.w);
      out == FileHeader(bs * pict.image.h, 256) + InfoHeader(pict.image.w, pict.image.h, 8, 0)
             + PaletteBytes(pict.pal[..]) + BottomUp(IndexedBitsLines(pict.image.Rows(), bs))
  {
    var bufsize := pict.image.w;
    bufsize := TruncDiv(bufsize + 3, 4) * 4;
    RowSizesAgree(pict.image.w);
    var mapsize := bufsize * pict.image.h;
    var pal := WritePalette(pict.pal, 256);
    assert pict.pal[..256] == pict.pal[..];
    var bits := WriteIndexedBits(pict, bufsize);
    out := FileHeader(mapsize, 256) + InfoHeader(pict.image.w, pict.image.h, 8, 0) + pal + bits;
  }

  /** Both headers `saveDib` writes are accepted and skipped by `loadDib`,
      whatever follows them. */
  lemma HeadersRoundTrip(mapsize: nat, npal: nat, w: nat, h: nat, bpp: nat, rest: seq<Byte>)
    requires w < P31 && h < P31 && bpp < P16 && 54 + mapsize + 4 * npal < P32
    ensures ReadHeader(FileHeader(mapsize, npal) + InfoHeader(w, h, bpp, 0) + rest) == Some(InfoHeader(w, h, bpp, 0) + rest)
    ensures ReadInfo(InfoHeader(w, h, bpp, 0) + rest) == Some((Info(w, h, bpp, 0), rest))
    ensures |FileHeader(mapsize, npal) + InfoHeader(w, h, bpp, 0)| == 54
  {
    var tail := InfoHeader(w, h, bpp, 0) + rest;
    HeaderRoundTrip(mapsize, npal, tail);
    assert FileHeader(mapsize, npal) + InfoHeader(w, h, bpp, 0) + rest == FileHeader(mapsize, npal) + tail;
    InfoRoundTrip(w, h, bpp, 0, rest);
  }

  /** Every pixel `read24bit_` takes from the file rows `bits` is the pixel
      of `rows` at the same place. */
  ghost predicate Reads24As(bits: seq<Byte>, rows: seq<seq<Rgb>>, w: nat, h: nat)
    requires |rows| == h && forall j :: 0 <= j < h ==> |rows[j]| == w
  {
    forall y, x :: 0 <= y < h && 0 <= x < w ==>
      TrueColourPixel(FileRows(bits, GetBufSize(PixelOffset(3, w)), h), 3, w, x, y) == rows[y][x]
  }

  /** The rows of a 24-bit file `saveDib` writes are read back pixel for
      pixel by `read24bit_`. */
  lemma Bits24Recovered(rows: seq<seq<Rgb>>, w: nat, h: nat)
    requires |rows| == h && forall j :: 0 <= j < h ==> |rows[j]| == w
    ensures Reads24As(BottomUp(Bits24Lines(rows, RowBytes(w * 3))), rows, w, h)
  {
    var ls := GetBufSize(PixelOffset(3, w));
    assert RowBytes(w * 3) == ls;
    forall y, x | 0 <= y < h && 0 <= x < w
      ensures TrueColourPixel(FileRows(BottomUp(Bits24Lines(rows, ls)), ls, h), 3, w, x, y) == rows[y][x]
    {
      Bits24RoundTrip(rows, w, y, x);
    }
  }

  /** A 24-bit file `saveDib` writes is read back by `loadDib`: the headers
      are accepted, the depth selects a `Picture` of the same size, and
      `read24bit_` recovers every pixel.  The size field counts every byte of
      the file and the rows start right after the two headers. */
  lemma SaveDib24RoundTrip(rows: seq<seq<Rgb>>, w: nat, h: nat)
    requires |rows| == h && forall j :: 0 <= j < h ==> |rows[j]| == w
    requires w < P31 && h < P31 && 54 + RowBytes(w * 3) * h < P32
    ensures var bs := RowBytes(w * 3);
      var bits := BottomUp(Bits24Lines(rows, bs));
      && ReadHeader(FileHeader(bs * h, 0) + InfoHeader(w, h, 24, 0) + bits) == Some(InfoHeader(w, h, 24, 0) + bits)
      && ReadInfo(InfoHeader(w, h, 24, 0) + bits) == Some((Info(w, h, 24, 0), bits))
      && |FileHeader(bs * h, 0) + InfoHeader(w, h, 24, 0)| == 54
    ensures KindOf(24) == Some(TrueColour)
    ensures var bs := RowBytes(w * 3);
      |BottomUp(Bits24Lines(rows, bs))| == bs * h
    ensures Reads24As(BottomUp(Bits24Lines(rows, RowBytes(w * 3))), rows, w, h)
  {
    var bs := RowBytes(w * 3);
    var bits := BottomUp(Bits24Lines(rows, bs));
    Arith.MulNonNeg(bs, h);
    HeadersRoundTrip(bs * h, 0, w, h, 24, bits);
    BitsLength(Bits24Lines(rows, bs), bs);
    Bits24Recovered(rows, w, h);
  }

  /** The palette and rows of an indexed file `saveDib` writes are read back
      by `loadDib`: the zero colours-used field makes `readPalette_` read
      `1 << 8` entries, which are the palette written, and `read08bit_`
      recovers every row. */
  lemma IndexedRecovered(pal: seq<Rgb>, rows: seq<seq<Byte>>, w: nat, h: nat)
    requires |pal| == 256
    requires |rows| == h && forall j :: 0 <= j < h ==> |rows[j]| == w
    ensures var bits := BottomUp(IndexedBitsLines(rows, RowBytes(w)));
      && PaletteCount(Info(w, h, 8, 0)) == 256
      && ReadPalette(PaletteBytes(pal) + bits, 256) == Some((pal, bits))
      && IndexedRows(bits, 8, w, h) == Some((rows, []))
  {
    var bs := RowBytes(w);
    var bits := BottomUp(IndexedBitsLines(rows, bs));
    PaletteRoundTrip(pal, bits);
    IndexedRowsRecovered(rows, w, h, bs, bits);
  }

  /** `read08bit_` recovers every row `writeBits_` wrote. */
  lemma IndexedRowsRecovered(rows: seq<seq<Byte>>, w: nat, h: nat, bs: nat, bits: seq<Byte>)
    requires |rows| == h && forall j :: 0 <= j < h ==> |rows[j]| == w
    requires bs == RowBytes(w) && bits == BottomUp(IndexedBitsLines(rows, bs))
    ensures IndexedRows(bits, 8, w, h) == Some((rows, []))
  {
    RowSizesAgree(w);
    assert RowSize(8, w).value == bs;
    var lines := IndexedBitsLines(rows, bs);
    FileLinesOfBottomUp(lines, bs, []);
    assert bits + [] == bits;
    var r := IndexedRows(bits, 8, w, h);
    assert r.value.0 == rows by {
      forall y | 0 <= y < h
        ensures r.value.0[y] == rows[y]
      {
        assert IndexedBitsLine(rows[y], bs)[..w] == rows[y];
      }
    }
  }

  /** An indexed file `saveDib` writes is read back by `loadDib`: the headers
      are accepted, the depth selects a `PictureIndexed`, and the palette and
      rows come back.  The offset field, `54 + 4 * 256`, is where the rows
      start. */
  lemma SaveDibIndexedRoundTrip(pal: seq<Rgb>, rows: seq<seq<Byte>>, w: nat, h: nat)
    requires |pal| == 256
    requires |rows| == h && forall j :: 0 <= j < h ==> |rows[j]| == w
    requires w < P31 && h < P31 && 54 + RowBytes(w) * h + 4 * 256 < P32
    ensures var bs := RowBytes(w);
      var bits := BottomUp(IndexedBitsLines(rows, bs));
      var head := FileHeader(bs * h, 256) + InfoHeader(w, h, 8, 0);
      && ReadHeader(head + (PaletteBytes(pal) + bits)) == Some(InfoHeader(w, h, 8, 0) + (PaletteBytes(pal) + bits))
      && ReadInfo(InfoHeader(w, h, 8, 0) + (PaletteBytes(pal) + bits)) == Some((Info(w, h, 8, 0), PaletteBytes(pal) + bits))
      && KindOf(8) == Some(Indexed) && PaletteCount(Info(w, h, 8, 0)) == 256
      && ReadPalette(PaletteBytes(pal) + bits, 256) == Some((pal, bits))
      && IndexedRows(bits, 8, w, h) == Some((rows, []))
      && |head + PaletteBytes(pal)| == 54 + 4 * 256
  {
    var bs := RowBytes(w);
    var bits := BottomUp(IndexedBitsLines(rows, bs));
    Arith.MulNonNeg(bs, h);
    HeadersRoundTrip(bs * h, 256, w, h, 8, PaletteBytes(pal) + bits);
    IndexedRecovered(pal, rows, w, h);
  }

  lemma {:induction false} BitsLength(lines: seq<seq<Byte>>, bs: nat)
    requires forall j :: 0 <= j < |lines| ==> |lines[j]| == bs
    ensures |BottomUp(lines)| == bs * |lines|
    decreases |lines|
  {
    if lines != [] {
      BitsLength(lines[..|lines| - 1], bs);
    }
  }
}
