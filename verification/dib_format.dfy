/** The layout a Windows bitmap file shares between reading and writing:
    little-endian integer fields, the 14-byte file header and the 40-byte
    information header (BITMAPFILEHEADER and BITMAPINFOHEADER), and the
    padding of each pixel row to a multiple of four bytes.  A stream is a
    sequence of bytes. */
module DibFormat {
  import opened Base
  import Arith

  /** `n` bytes of `v`, least significant first: the memory image of an
      `n`-byte integer holding `v` modulo `256^n` (two's complement for a
      negative `v`). */
  function LeBytes(v: int, n: nat): (bs: seq<Byte>)
    ensures |bs| == n
    decreases n
  {
    if n == 0 then [] else [v % 256] + LeBytes(v / 256, n - 1)
  }

  /** The unsigned value of little-endian bytes. */
  function Value(bs: seq<Byte>): (v: nat)
  {
    if bs == [] then 0 else bs[0] + 256 * Value(bs[1..])
  }

  function Pow256(n: nat): (p: nat)
    ensures p > 0
  {
    if n == 0 then 1 else 256 * Pow256(n - 1)
  }

  lemma ModSplit(v: int, p: int)
    requires p > 0
    ensures v % (256 * p) == v % 256 + 256 * ((v / 256) % p)
  {
    var m := 256 * p;
    var q, r := v / 256, v % 256;
    var t, s := q / p, q % p;
    assert q == p * t + s;
    assert m * t == 256 * (p * t);
    assert v == m * t + (256 * s + r);
    assert m * (t + 1) == m * t + m;
    Arith.DivUnique(v, m, t);
  }

  /** Reading back `n` written bytes gives the value modulo `256^n`. */
  lemma {:induction false} ValueOfLeBytes(v: int, n: nat)
    ensures Value(LeBytes(v, n)) == v % Pow256(n)
    decreases n
  {
    if n > 0 {
      ValueOfLeBytes(v / 256, n - 1);
      assert LeBytes(v, n)[1..] == LeBytes(v / 256, n - 1);
      ModSplit(v, Pow256(n - 1));
    }
  }

  const P16: int := 0x1_0000
  const P31: int := 0x8000_0000
  const P32: int := 0x1_0000_0000

  lemma Pow256Values()
    ensures Pow256(2) == 0x1_0000 && Pow256(4) == 0x1_0000_0000
  {
  }

  /** A `uint32` stored into an `int`: the value modulo `2^32`, read as
      two's complement. */
  function Int32Of(u: int): (d: int)
    requires 0 <= u < P32
    ensures -P31 <= d < P31 && d % P32 == u
  {
    if u < P31 then u else u - P32
  }

  /** A 4-byte field written from `v` and read back as a signed `int32`
      (`std::int32_t`, or a `std::uint32_t` assigned to an `int`). */
  lemma Int32RoundTrip(v: int)
    requires -P31 <= v < P31
    ensures Value(LeBytes(v, 4)) < P32 && Int32Of(Value(LeBytes(v, 4))) == v
  {
    ValueOfLeBytes(v, 4);
    Pow256Values();
  }

  /** A 2-byte field written from `v` and read back. */
  lemma Uint16RoundTrip(v: int)
    requires 0 <= v < P16
    ensures Value(LeBytes(v, 2)) == v
  {
    ValueOfLeBytes(v, 2);
    Pow256Values();
  }

  /** An integer field of a header: the value written and its size in
      bytes. */
  datatype Field = Field(value: int, size: nat)

  /** The bytes of the fields, one after the other, as `os.write` of each
      in turn lays them out. */
  function Encode(fs: seq<Field>): (bs: seq<Byte>)
    decreases |fs|
  {
    if fs == [] then [] else LeBytes(fs[0].value, fs[0].size) + Encode(fs[1..])
  }

  /** `is.read` of fields of the given sizes, one after the other: their
      unsigned values and the rest of the stream, or None as soon as a read
      finds too few bytes. */
  function Decode(s: seq<Byte>, sizes: seq<nat>): (r: Option<(seq<nat>, seq<Byte>)>)
    ensures r.Some? ==> |r.value.0| == |sizes|
    ensures r.Some? ==> forall i :: 0 <= i < |sizes| ==> r.value.0[i] < Pow256(sizes[i])
    decreases |sizes|
  {
    if sizes == [] then Some(([], s))
    else if |s| < sizes[0] then None
    else
      match Decode(s[sizes[0]..], sizes[1..])
      case None => None
      case Some(d) =>
        ValueBound(s[..sizes[0]]);
        Some(([Value(s[..sizes[0]])] + d.0, d.1))
  }

  lemma {:induction false} ValueBound(bs: seq<Byte>)
    ensures Value(bs) < Pow256(|bs|)
    decreases |bs|
  {
    if bs != [] {
      ValueBound(bs[1..]);
    }
  }

  function Sizes(fs: seq<Field>): (sizes: seq<nat>)
    ensures |sizes| == |fs| && forall i :: 0 <= i < |fs| ==> sizes[i] == fs[i].size
  {
    seq(|fs|, i requires 0 <= i < |fs| => fs[i].size)
  }

  /** The value of each field modulo 256 to the power of its size: what a
      field of that many bytes holds. */
  function Stored(fs: seq<Field>): (vs: seq<nat>)
    ensures |vs| == |fs| && forall i :: 0 <= i < |fs| ==> vs[i] == fs[i].value % Pow256(fs[i].size)
  {
    seq(|fs|, i requires 0 <= i < |fs| => fs[i].value % Pow256(fs[i].size))
  }

  /** Reading one more field in front of the fields read from `t`. */
  lemma DecodeCons(head: seq<Byte>, t: seq<Byte>, sizes: seq<nat>)
    requires sizes != [] && |head| == sizes[0] && Decode(t, sizes[1..]).Some?
    ensures Decode(head + t, sizes)
            == Some(([Value(head)] + Decode(t, sizes[1..]).value.0, Decode(t, sizes[1..]).value.1))
  {
    assert (head + t)[..sizes[0]] == head;
    assert (head + t)[sizes[0]..] == t;
  }

  lemma DecodeEncodeStep(fs: seq<Field>, rest: seq<Byte>)
    requires fs != [] && Decode(Encode(fs[1..]) + rest, Sizes(fs[1..])) == Some((Stored(fs[1..]), rest))
    ensures Decode(Encode(fs) + rest, Sizes(fs)) == Some((Stored(fs), rest))
  {
    var head := LeBytes(fs[0].value, fs[0].size);
    var t := Encode(fs[1..]) + rest;
    var sizes := Sizes(fs);
    assert sizes[1..] == Sizes(fs[1..]);
    DecodeFront(head, t, sizes, Stored(fs[1..]), rest);
    EncodeFront(fs, rest, head, t);
    StoredCons(fs, head);
  }

  /** Reading one more field in front of fields that read back as `vs`. */
  lemma DecodeFront(head: seq<Byte>, t: seq<Byte>, sizes: seq<nat>, vs: seq<nat>, rest: seq<Byte>)
    requires sizes != [] && |head| == sizes[0] && Decode(t, sizes[1..]) == Some((vs, rest))
    ensures Decode(head + t, sizes) == Some(([Value(head)] + vs, rest))
  {
    DecodeCons(head, t, sizes);
  }

  /** The bytes of the first field come first. */
  lemma EncodeFront(fs: seq<Field>, rest: seq<Byte>, head: seq<Byte>, t: seq<Byte>)
    requires fs != [] && head == LeBytes(fs[0].value, fs[0].size) && t == Encode(fs[1..]) + rest
    ensures Encode(fs) + rest == head + t
  {
    assert Encode(fs) == head + Encode(fs[1..]);
  }

  /** The value read from the first field's bytes is its stored value. */
  lemma StoredCons(fs: seq<Field>, head: seq<Byte>)
    requires fs != [] && head == LeBytes(fs[0].value, fs[0].size)
    ensures [Value(head)] + Stored(fs[1..]) == Stored(fs)
  {
    ValueOfLeBytes(fs[0].value, fs[0].size);
  }

  /** Reading fields back gives each value modulo 256 to the power of its
      size, and leaves exactly what followed them. */
  lemma {:induction false} DecodeEncode(fs: seq<Field>, rest: seq<Byte>)
    ensures Decode(Encode(fs) + rest, Sizes(fs)) == Some((Stored(fs), rest))
    decreases |fs|
  {
    if fs != [] {
      DecodeEncode(fs[1..], rest);
      DecodeEncodeStep(fs, rest);
    } else {
      assert Encode(fs) + rest == rest;
    }
  }

  /** `*(std::uint16_t*)("BM")` on a little-endian machine: the bytes 'B'
      and 'M'. */
  const MAGIC: int := 0x4D42

  /** `writeHeader_(os, bitsize, npal)`: "BM", the file size
      `54 + bitsize + 4 * npal`, two zero reserved words and the offset of
      the pixels, `54 + 4 * npal` (`uint32` fields, so modulo `2^32`). */
  function HeaderFields(bitsize: int, npal: int): (fs: seq<Field>)
  {
    [Field(MAGIC, 2), Field(54 + bitsize + 4 * npal, 4), Field(0, 2), Field(0, 2), Field(54 + 4 * npal, 4)]
  }

  function FileHeader(bitsize: int, npal: int): (bs: seq<Byte>)
  {
    Encode(HeaderFields(bitsize, npal))
  }

  const HEADER_SIZES: seq<nat> := [2, 4, 2, 2, 4]

  /** `readHeader_`: the stream after the file header, or None when it is
      too short or does not start with "BM".  Only the magic is checked. */
  function ReadHeader(s: seq<Byte>): (r: Option<seq<Byte>>)
  {
    match Decode(s, HEADER_SIZES)
    case None => None
    case Some(d) => if d.0[0] != MAGIC then None else Some(d.1)
  }

  /** The file header is accepted and skipped; its size field holds the
      size of the file and its offset field where the pixels start. */
  lemma HeaderRoundTrip(bitsize: int, npal: int, rest: seq<Byte>)
    requires 0 <= 54 + 4 * npal <= 54 + bitsize + 4 * npal < P32
    ensures ReadHeader(FileHeader(bitsize, npal) + rest) == Some(rest)
    ensures var d := Decode(FileHeader(bitsize, npal) + rest, HEADER_SIZES).value;
      d.0[1] == 54 + bitsize + 4 * npal && d.0[4] == 54 + 4 * npal && |FileHeader(bitsize, npal)| == 14
  {
    var fs := HeaderFields(bitsize, npal);
    DecodeEncode(fs, rest);
    assert Sizes(fs) == HEADER_SIZES;
    Pow256Values();
    StoredSmall(fs, 0);
    StoredSmall(fs, 1);
    StoredSmall(fs, 4);
    EncodeLength(fs);
  }

  /** A value that fits its field is stored unchanged. */
  lemma StoredSmall(fs: seq<Field>, i: int)
    requires 0 <= i < |fs| && 0 <= fs[i].value < Pow256(fs[i].size)
    ensures Stored(fs)[i] == fs[i].value
  {
    Arith.DivUnique(fs[i].value, Pow256(fs[i].size), 0);
  }

  lemma {:induction false} EncodeLength(fs: seq<Field>)
    ensures |Encode(fs)| == Sum(Sizes(fs))
    decreases |fs|
  {
    if fs != [] {
      EncodeLength(fs[1..]);
      assert Sizes(fs)[1..] == Sizes(fs[1..]);
    }
  }

  function Sum(ns: seq<nat>): (r: nat)
  {
    if ns == [] then 0 else ns[0] + Sum(ns[1..])
  }

  /** The size of BITMAPINFOHEADER: five `uint32`, four `int32` and two
      `uint16` fields. */
  const INFO_SIZE: int := 5 * 4 + 4 * 4 + 2 * 2

  /** `writeInfo_(os, w, h, bits, npal)`: the header size, the width and
      height, one plane, the bits per pixel, no compression, zero image size
      and resolution, `npal` colours used and 0 important. */
  function InfoFields(w: int, h: int, bits: int, npal: int): (fs: seq<Field>)
  {
    [Field(INFO_SIZE, 4), Field(w, 4), Field(h, 4), Field(1, 2), Field(bits, 2),
     Field(0, 4), Field(0, 4), Field(0, 4), Field(0, 4), Field(npal, 4), Field(0, 4)]
  }

  function InfoHeader(w: int, h: int, bits: int, npal: int): (bs: seq<Byte>)
  {
    Encode(InfoFields(w, h, bits, npal))
  }

  const INFO_SIZES: seq<nat> := [4, 4, 4, 2, 2, 4, 4, 4, 4, 4, 4]

  /** `Info_`: what `readInfo_` keeps of the information header. */
  datatype Info = Info(width: int, height: int, bpp: int, numpalette: int)

  /** `readInfo_`: the width and height (`int32`), the bits per pixel
      (`uint16`) and the colours used (a `uint32` stored into an `int`), and
      the stream after the header, or None when a read finds too few bytes.
      The header size, planes, compression, image size, resolution and
      important colours are read and dropped. */
  function ReadInfo(s: seq<Byte>): (r: Option<(Info, seq<Byte>)>)
  {
    match Decode(s, INFO_SIZES)
    case None => None
    case Some(d) =>
      Pow256Values();
      Some((Info(Int32Of(d.0[1]), Int32Of(d.0[2]), d.0[4], Int32Of(d.0[9])), d.1))
  }

  /** The fields of the information header read back as they were written,
      and its size is the 40 bytes its own first field declares. */
  lemma InfoRoundTrip(w: int, h: int, bits: int, npal: int, rest: seq<Byte>)
    requires -P31 <= w < P31 && -P31 <= h < P31 && 0 <= bits < P16 && -P31 <= npal < P31
    ensures ReadInfo(InfoHeader(w, h, bits, npal) + rest) == Some((Info(w, h, bits, npal), rest))
    ensures |InfoHeader(w, h, bits, npal)| == INFO_SIZE == 40
  {
    var fs := InfoFields(w, h, bits, npal);
    DecodeEncode(fs, rest);
    assert Sizes(fs) == INFO_SIZES;
    Pow256Values();
    StoredInt32(fs, 1);
    StoredInt32(fs, 2);
    StoredSmall(fs, 4);
    StoredInt32(fs, 9);
    EncodeLength(fs);
  }

  /** A signed 32-bit value in a 4-byte field is read back by `Int32Of`. */
  lemma StoredInt32(fs: seq<Field>, i: int)
    requires 0 <= i < |fs| && fs[i].size == 4 && -P31 <= fs[i].value < P31
    ensures Stored(fs)[i] < P32 && Int32Of(Stored(fs)[i]) == fs[i].value
  {
    Int32RoundTrip(fs[i].value);
    ValueOfLeBytes(fs[i].value, 4);
  }

  /** `getBufSize_(l)`, `(l + 3) & ~3`: `l` rounded up to a multiple of
      four (masking off the two low bits of a two's complement integer
      rounds down, for a negative sum too). */
  function GetBufSize(l: int): (r: int)
    ensures r % 4 == 0 && l <= r < l + 4
  {
    (l + 3) / 4 * 4
  }

  /** The row size `saveDib` computes, `((l + 3) / 4) * 4` in C++, agrees with
      `getBufSize_` for the non-negative lengths it is used on. */
  lemma RowSizesAgree(l: int)
    requires l >= 0
    ensures TruncDiv(l + 3, 4) * 4 == GetBufSize(l)
  {
  }
}
