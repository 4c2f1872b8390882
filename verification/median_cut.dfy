/** The histogram boxes of the median-cut palette generator:
    `ColourChannelRange_` (one channel's interval, presence bits and sum) and
    `PixelRange_` (a box of three channel intervals with a pixel count).  Both
    are values in the source (copied by `neu = *this` and stored inline in an
    array), so they are datatypes here; the operations that update them in
    place return the updated value. */
module MedianCut {
  import opened Base

  /** `std::uint32_t`, the type of `sum` and `count`. */
  type Uint32 = x: int | 0 <= x < UINT32_MOD

  /** `std::uint32_t bits[8]`, bit `v & 31` of word `v >> 5` taken as
      element `v`: word `j` is elements `32 * j .. 32 * j + 31`.  The bit is
      set when the value `v` has been added. */
  type Bits = s: seq<bool> | |s| == 256 witness seq(256, _ => false)

  /** `{0, 0, 0, 0, 0, 0, 0, 0}` */
  function NoBits(): Bits
  {
    seq(256, _ => false)
  }

  /** Word `j` of the bit field. */
  function WordOf(bits: Bits, j: int): seq<bool>
    requires 0 <= j < 8
  {
    bits[32 * j .. 32 * j + 32]
  }

  /** `ColourChannelRange_` */
  datatype ChannelRange = ChannelRange(min: Byte, max: Byte, bits: Bits, sum: Uint32)

  /** The default constructor: the whole interval [0, 255], nothing added. */
  const FullChannel := ChannelRange(0, 255, NoBits(), 0)

  /** Value `v` has been recorded in `bits`. */
  predicate Present(bits: Bits, v: int)
  {
    0 <= v < 256 && bits[v]
  }

  /** `isWithin(v)` */
  predicate Within(c: ChannelRange, v: int)
  {
    c.min <= v <= c.max
  }

  /** `clear()`: the presence bits and the sum are reset; the interval is
      kept. */
  function Clear(c: ChannelRange): (r: ChannelRange)
    ensures r.min == c.min && r.max == c.max && r.sum == 0
    ensures forall v :: !Present(r.bits, v)
  {
    ChannelRange(c.min, c.max, NoBits(), 0)
  }

  /** `add(v)`: `v` joins the recorded values and the 32-bit sum. */
  function Add(c: ChannelRange, v: Byte): (r: ChannelRange)
    ensures r.min == c.min && r.max == c.max
    ensures r.sum == (c.sum + v) % UINT32_MOD
    ensures forall u :: Present(r.bits, u) <==> Present(c.bits, u) || u == v
  {
    var r := ChannelRange(c.min, c.max, c.bits[v := true], (c.sum + v) % UINT32_MOD);
    r
  }

  /** The least recorded value at or above `v`, or 256. */
  function LowestFrom(bits: Bits, v: int): (r: int)
    requires 0 <= v <= 256
    ensures v <= r <= 256
    decreases 256 - v
  {
    if v == 256 then 256 else if Present(bits, v) then v else LowestFrom(bits, v + 1)
  }

  /** The greatest recorded value at or below `v`, or -1. */
  function HighestFrom(bits: Bits, v: int): (r: int)
    requires -1 <= v < 256
    ensures -1 <= r <= v
    decreases v + 1
  {
    if v < 0 then -1 else if Present(bits, v) then v else HighestFrom(bits, v - 1)
  }

  /** `LowestFrom` finds a recorded value with none before it. */
  lemma {:induction false} LowestFound(bits: Bits, v: int)
    requires 0 <= v <= 256
    ensures var r := LowestFrom(bits, v);
      (r < 256 ==> Present(bits, r)) && forall u :: v <= u < r ==> !Present(bits, u)
    decreases 256 - v
  {
    if v < 256 && !Present(bits, v) {
      LowestFound(bits, v + 1);
    }
  }

  lemma {:induction false} HighestFound(bits: Bits, v: int)
    requires -1 <= v < 256
    ensures var r := HighestFrom(bits, v);
      (r >= 0 ==> Present(bits, r)) && forall u :: r < u <= v ==> !Present(bits, u)
    decreases v + 1
  {
    if v >= 0 && !Present(bits, v) {
      HighestFound(bits, v - 1);
    }
  }

  /** `LowestFrom` is pinned down by those two facts. */
  lemma LowestIs(bits: Bits, v: int, i: int)
    requires 0 <= v <= i <= 256 && (i < 256 ==> Present(bits, i))
    requires forall u :: v <= u < i ==> !Present(bits, u)
    ensures LowestFrom(bits, v) == i
  {
    LowestFound(bits, v);
  }

  lemma HighestIs(bits: Bits, v: int, i: int)
    requires -1 <= i <= v < 256 && (i >= 0 ==> Present(bits, i))
    requires forall u :: i < u <= v ==> !Present(bits, u)
    ensures HighestFrom(bits, v) == i
  {
    HighestFound(bits, v);
  }

  /** The first half of `cutoff`: the first recorded value from the start
      of the word holding `min` becomes `min`, unless it lies above `max`. */
  function RaiseMinOf(c: ChannelRange): ChannelRange
  {
    var lo := LowestFrom(c.bits, 32 * (c.min / 32));
    if lo < 256 && lo <= c.max then c.(min := lo) else c
  }

  /** The second half of `cutoff`: the last recorded value up to the end of
      the word holding `max` becomes `max`, unless it lies below `min`. */
  function LowerMaxOf(c: ChannelRange): ChannelRange
  {
    var hi := HighestFrom(c.bits, 32 * (c.max / 32) + 31);
    if hi >= 0 && hi >= c.min then c.(max := hi) else c
  }

  /** What `cutoff` does to the range. */
  function CutoffOf(c: ChannelRange): ChannelRange
  {
    LowerMaxOf(RaiseMinOf(c))
  }

  /** What `cutoff` returns: the width of the new interval. */
  function Width(c: ChannelRange): int
  {
    c.max - c.min + 1
  }

  /** The class invariant of `ColourChannelRange_`: every recorded value
      lies in [min, max]. */
  ghost predicate BitsWithin(c: ChannelRange)
  {
    forall v :: Present(c.bits, v) ==> Within(c, v)
  }

  /** Under the class invariant, `cutoff` shrinks the interval to the least
      and greatest recorded values, inside the old interval; with nothing
      recorded the range is unchanged.  The invariant survives. */
  lemma {:induction false} CutoffTightens(c: ChannelRange)
    requires BitsWithin(c)
    ensures var r := CutoffOf(c);
      r.bits == c.bits && r.sum == c.sum && BitsWithin(r)
      && ((exists v :: Present(c.bits, v)) ==>
            Present(c.bits, r.min) && Present(c.bits, r.max)
            && (forall v :: Present(c.bits, v) ==> r.min <= v <= r.max)
            && c.min <= r.min <= r.max <= c.max)
      && ((forall v :: !Present(c.bits, v)) ==> r == c)
  {
    RaiseMinTightens(c);
    LowerMaxTightens(RaiseMinOf(c));
  }

  /** The first half of `cutoff` moves `min` up to the least recorded value,
      if there is one. */
  lemma RaiseMinTightens(c: ChannelRange)
    requires BitsWithin(c)
    ensures var m := RaiseMinOf(c);
      m.bits == c.bits && m.sum == c.sum && m.max == c.max && BitsWithin(m)
      && ((exists v :: Present(c.bits, v)) ==>
            Present(c.bits, m.min) && c.min <= m.min && (forall v :: Present(c.bits, v) ==> m.min <= v))
      && ((forall v :: !Present(c.bits, v)) ==> m == c)
  {
    var start := 32 * (c.min / 32);
    var lo := LowestFrom(c.bits, start);
    LowestFound(c.bits, start);
    if exists v :: Present(c.bits, v) {
      var v :| Present(c.bits, v);
      assert lo <= v;
    } else {
      assert lo == 256;
    }
  }

  /** The second half of `cutoff` moves `max` down to the greatest recorded
      value, if there is one. */
  lemma LowerMaxTightens(c: ChannelRange)
    requires BitsWithin(c)
    ensures var m := LowerMaxOf(c);
      m.bits == c.bits && m.sum == c.sum && m.min == c.min && BitsWithin(m)
      && ((exists v :: Present(c.bits, v)) ==>
            Present(c.bits, m.max) && m.max <= c.max && (forall v :: Present(c.bits, v) ==> v <= m.max))
      && ((forall v :: !Present(c.bits, v)) ==> m == c)
  {
    var start := 32 * (c.max / 32) + 31;
    var hi := HighestFrom(c.bits, start);
    HighestFound(c.bits, start);
    if exists v :: Present(c.bits, v) {
      var v :| Present(c.bits, v);
      assert v <= hi;
    } else {
      assert hi == -1;
    }
  }

  /** `cutoff()` on its first loop: from the word holding `min` upwards,
      the first non-zero word is scanned bit by bit from bit 0. */
  method RaiseMin(c: ChannelRange) returns (r: ChannelRange)
    ensures r == RaiseMinOf(c)
  {
    r := c;
    var start := 32 * (c.min / 32);
    var j := c.min / 32;
    while j < 8
      invariant c.min / 32 <= j <= 8 && r == c
      invariant forall v :: start <= v < 32 * j ==> !Present(c.bits, v)
    {
      if true in WordOf(c.bits, j) {
        var i := 0;
        while i < 32 && !c.bits[32 * j + i]
          invariant 0 <= i <= 32
          invariant forall v :: 32 * j <= v < 32 * j + i ==> !c.bits[v]
        {
          i := i + 1;
        }
        assert Present(c.bits, 32 * j + i);
        i := i + 32 * j;
        LowestIs(c.bits, start, i);
        if i <= c.max {
          r := r.(min := i);
        }
        return;
      }
      j := j + 1;
    }
    LowestIs(c.bits, start, 256);
  }

  /** `cutoff()` on its second loop: from the word holding `max` downwards,
      the first non-zero word is scanned bit by bit from bit 31. */
  method LowerMax(c: ChannelRange) returns (r: ChannelRange)
    ensures r == LowerMaxOf(c)
  {
    r := c;
    var top := 32 * (c.max / 32) + 31;
    var j := c.max / 32;
    while j >= 0
      invariant -1 <= j <= c.max / 32 && r == c
      invariant forall v :: 32 * (j + 1) <= v <= top ==> !Present(c.bits, v)
    {
      if true in WordOf(c.bits, j) {
        var i := 31;
        while i >= 0 && !c.bits[32 * j + i]
          invariant -1 <= i <= 31
          invariant forall v :: 32 * j + i < v < 32 * j + 32 ==> !c.bits[v]
        {
          i := i - 1;
        }
        assert Present(c.bits, 32 * j + i);
        i := i + 32 * j;
        HighestIs(c.bits, top, i);
        if i >= c.min {
          r := r.(max := i);
        }
        return;
      }
      j := j - 1;
    }
    HighestIs(c.bits, top, -1);
  }

  /** `cutoff()`: tightens the interval and returns its new width. */
  method Cutoff(c: ChannelRange) returns (r: ChannelRange, width: int)
    ensures r == CutoffOf(c)
    ensures width == Width(r)
  {
    r := RaiseMin(c);
    r := LowerMax(r);
    width := r.max - r.min + 1;
  }

  /** The mask of the downward scan is an `int` that starts at `1 << 31` and
      is shifted right with sign extension, so at bit `k` it holds every bit
      from `k` up, not bit `k` alone.  This mask, `High(k)`: */
  function High(k: bv32): bv32
    requires k <= 32
  {
    if k == 32 then 0 else !(((1 as bv32) << k) - 1)
  }

  /** The mask at bit `k` is the mask at bit `k + 1` plus bit `k`. */
  lemma HighSplit(k: bv32)
    requires k < 32
    ensures High(k) == High(k + 1) | ((1 as bv32) << k)
  {
  }

  /** Each arithmetic shift keeps the form of the mask. */
  lemma HighShift(k: bv32)
    requires 0 < k < 32
    ensures (High(k) >> 1) | 0x8000_0000 == High(k - 1)
  {
  }

  /** The extra bits lie above `k`, which the scan has already found clear,
      so testing the mask is testing bit `k`: the boolean bit test of
      `LowerMax` is exact. */
  lemma SignExtendedMask(w: bv32, k: bv32)
    requires k < 32 && w & High(k + 1) == 0
    ensures (w & High(k) == 0) <==> (w & ((1 as bv32) << k) == 0)
  {
    HighSplit(k);
    var above, bit := High(k + 1), (1 as bv32) << k;
    assert w & (above | bit) == (w & above) | (w & bit);
  }

  /** `PixelRange_`: a box in RGB space and the number of pixels counted in
      it. */
  datatype PixelRange = PixelRange(count: Uint32, red: ChannelRange, green: ChannelRange, blue: ChannelRange)

  /** The default constructor. */
  const EmptyRange := PixelRange(0, FullChannel, FullChannel, FullChannel)

  /** `isWithin(r, g, b)` */
  predicate InBox(p: PixelRange, r: int, g: int, b: int)
  {
    Within(p.red, r) && Within(p.green, g) && Within(p.blue, b)
  }

  /** `clear()` */
  function ClearRange(p: PixelRange): (q: PixelRange)
    ensures q.count == 0
    ensures q.red == Clear(p.red) && q.green == Clear(p.green) && q.blue == Clear(p.blue)
    ensures forall r, g, b :: InBox(q, r, g, b) <==> InBox(p, r, g, b)
  {
    PixelRange(0, Clear(p.red), Clear(p.green), Clear(p.blue))
  }

  /** `add(r, g, b)`: each channel records its value and `count` grows by
      one (as an `unsigned`). */
  function AddPixel(p: PixelRange, r: Byte, g: Byte, b: Byte): (q: PixelRange)
    ensures q.count == (p.count + 1) % UINT32_MOD
    ensures q.red == Add(p.red, r) && q.green == Add(p.green, g) && q.blue == Add(p.blue, b)
    ensures forall x, y, z :: InBox(q, x, y, z) <==> InBox(p, x, y, z)
  {
    PixelRange((p.count + 1) % UINT32_MOD, Add(p.red, r), Add(p.green, g), Add(p.blue, b))
  }

  /** The class invariant of every channel. */
  ghost predicate Fits(p: PixelRange)
  {
    BitsWithin(p.red) && BitsWithin(p.green) && BitsWithin(p.blue)
  }

  datatype Channel = Red | Green | Blue

  /** The channel `divide` splits: green if its width is at least the other
      two, else red if its width is at least the other two, else blue. */
  function Widest(rw: int, gw: int, bw: int): (ch: Channel)
    ensures ch == Green ==> gw >= rw && gw >= bw
    ensures ch == Blue ==> bw > rw && bw > gw
    ensures ch == Red ==> rw > gw
  {
    if gw >= bw && gw >= rw then Green
    else if rw >= bw && rw >= gw then Red
    else Blue
  }

  /** The split point on a channel: the mean `sum / count`, stored in a
      `uint8_t`. */
  function SplitPoint(c: ChannelRange, count: int): Byte
    requires count > 0
  {
    (c.sum / count) % 256
  }

  /** The lower half of a split channel: `max = sum / count`. */
  function LowerHalf(c: ChannelRange, count: int): ChannelRange
    requires count > 0
  {
    c.(max := SplitPoint(c, count))
  }

  /** The upper half of a split channel: `neu.min = sum / count + 1`,
      wrapped to a byte. */
  function UpperHalf(c: ChannelRange, count: int): ChannelRange
    requires count > 0
  {
    c.(min := (c.sum / count + 1) % 256)
  }

  /** The box with every channel cut off and the count raised to 1. */
  function CutBox(p: PixelRange): (q: PixelRange)
    ensures q.count >= 1
  {
    PixelRange(if p.count == 0 then 1 else p.count, CutoffOf(p.red), CutoffOf(p.green), CutoffOf(p.blue))
  }

  /** What `divide(neu)` leaves in `*this` and in `neu`. */
  function DivideOf(p: PixelRange): (PixelRange, PixelRange)
  {
    var q := CutBox(p);
    match Widest(Width(q.red), Width(q.green), Width(q.blue))
    case Green => (q.(green := LowerHalf(q.green, q.count)), q.(green := UpperHalf(q.green, q.count)))
    case Red => (q.(red := LowerHalf(q.red, q.count)), q.(red := UpperHalf(q.red, q.count)))
    case Blue => (q.(blue := LowerHalf(q.blue, q.count)), q.(blue := UpperHalf(q.blue, q.count)))
  }

  /** `divide(neu)`: cuts off every channel, raises a zero count to 1, copies
      the box into `neu` and splits the widest channel at its mean. */
  method Divide(p: PixelRange) returns (a: PixelRange, neu: PixelRange)
    ensures (a, neu) == DivideOf(p)
  {
    var red, rw := Cutoff(p.red);
    var green, gw := Cutoff(p.green);
    var blue, bw := Cutoff(p.blue);
    var count := p.count;
    if count == 0 {
      count := 1;
    }
    a := PixelRange(count, red, green, blue);
    neu := a;
    if gw >= bw && gw >= rw {
      a := a.(green := a.green.(max := (green.sum / count) % 256));
      neu := neu.(green := neu.green.(min := (green.sum / count + 1) % 256));
    } else if rw >= bw && rw >= gw {
      a := a.(red := a.red.(max := (red.sum / count) % 256));
      neu := neu.(red := neu.red.(min := (red.sum / count + 1) % 256));
    } else {
      a := a.(blue := a.blue.(max := (blue.sum / count) % 256));
      neu := neu.(blue := neu.blue.(min := (blue.sum / count + 1) % 256));
    }
  }

  /** The split point of the channel `divide` chooses. */
  function DivideSplitPoint(p: PixelRange): Byte
  {
    var q := CutBox(p);
    match Widest(Width(q.red), Width(q.green), Width(q.blue))
    case Green => SplitPoint(q.green, q.count)
    case Red => SplitPoint(q.red, q.count)
    case Blue => SplitPoint(q.blue, q.count)
  }

  /** On one channel, the two halves cover the interval, and overlap only
      when the split point is 255 (where `neu.min` wraps to 0). */
  lemma {:induction false} SplitCovers(c: ChannelRange, count: int, v: int)
    requires count > 0
    ensures Within(c, v) ==> Within(LowerHalf(c, count), v) || Within(UpperHalf(c, count), v)
    ensures SplitPoint(c, count) < 255 ==> !(Within(LowerHalf(c, count), v) && Within(UpperHalf(c, count), v))
  {
    var t := c.sum / count;
    assert t >= 0;
    if t % 256 < 255 {
      assert (t + 1) % 256 == t % 256 + 1 by {
        assert t + 1 == 256 * (t / 256) + (t % 256 + 1);
      }
    }
  }

  /** Every colour in the cut-off box lies in one of the two halves, and the
      halves agree with the cut-off box outside the split channel.  When the
      split point is below 255 the halves are disjoint. */
  lemma DivideCovers(p: PixelRange, r: int, g: int, b: int)
    ensures InBox(CutBox(p), r, g, b) ==> InBox(DivideOf(p).0, r, g, b) || InBox(DivideOf(p).1, r, g, b)
    ensures DivideSplitPoint(p) < 255 ==> !(InBox(DivideOf(p).0, r, g, b) && InBox(DivideOf(p).1, r, g, b))
  {
    var q := CutBox(p);
    match Widest(Width(q.red), Width(q.green), Width(q.blue))
    case Green => SplitCovers(q.green, q.count, g);
    case Red => SplitCovers(q.red, q.count, r);
    case Blue => SplitCovers(q.blue, q.count, b);
  }

  /** On one channel: with the mean inside the interval and the split point
      below 255, the halves are exactly the two parts of the interval. */
  lemma {:induction false} SplitPartitions(c: ChannelRange, count: int, v: int)
    requires count > 0 && Within(c, c.sum / count) && SplitPoint(c, count) < 255
    ensures Within(LowerHalf(c, count), v) || Within(UpperHalf(c, count), v) <==> Within(c, v)
  {
    SplitCovers(c, count, v);
  }

  /** With the mean of the split channel inside its cut-off interval and
      below 255, the two halves cover exactly the cut-off box and do not
      overlap. */
  lemma DividePartitions(p: PixelRange, r: int, g: int, b: int)
    requires var q := CutBox(p);
      match Widest(Width(q.red), Width(q.green), Width(q.blue))
      case Green => Within(q.green, q.green.sum / q.count)
      case Red => Within(q.red, q.red.sum / q.count)
      case Blue => Within(q.blue, q.blue.sum / q.count)
    requires DivideSplitPoint(p) < 255
    ensures InBox(DivideOf(p).0, r, g, b) || InBox(DivideOf(p).1, r, g, b) <==> InBox(CutBox(p), r, g, b)
    ensures !(InBox(DivideOf(p).0, r, g, b) && InBox(DivideOf(p).1, r, g, b))
  {
    DivideCovers(p, r, g, b);
    var q := CutBox(p);
    match Widest(Width(q.red), Width(q.green), Width(q.blue))
    case Green => SplitPartitions(q.green, q.count, g);
    case Red => SplitPartitions(q.red, q.count, r);
    case Blue => SplitPartitions(q.blue, q.count, b);
  }
}
