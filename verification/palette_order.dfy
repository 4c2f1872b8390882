/** `PaletteFinder_`: the nearest-colour search over a 256-entry palette.
    Palette entries are chained into buckets by the sum of their channels,
    and a search walks the buckets outwards from the sum of the colour
    sought, stopping once no remaining bucket can hold a nearer entry.

    The tables `POW2_` and `SUMDIFF_` are modelled by what they tabulate:
    `POW2_` by the recurrence of the squares (`SqIsSquare` shows
    `POW2_[n] == n * n`) and `SUMDIFF_[d]` by `POW2_[d] / 3`. */
module PaletteOrder {
  import opened Base
  import opened Colour
  import Arith

  const NPALETTE: int := 256
  /** `NCLASS_`: the channel sums 0 .. 3 * 255. */
  const NCLASS: int := 766
  /** The initial `mindiff`, `ULONG_MAX` of a 64-bit `unsigned long`. */
  const ULONG_MAX: int := 0xFFFF_FFFF_FFFF_FFFF

  function Sum(c: Rgb): (s: int)
    ensures 0 <= s < NCLASS
  {
    c.red + c.green + c.blue
  }

  /** `POW2_[n]`, the table of squares, entry by entry:
      `(n + 1)^2 == n^2 + 2n + 1`. */
  function Sq(n: nat): nat
  {
    if n == 0 then 0 else Sq(n - 1) + 2 * n - 1
  }

  lemma {:induction false} SqIsSquare(n: nat)
    ensures Sq(n) == n * n
  {
    if n > 0 {
      SqIsSquare(n - 1);
      assert n * n == (n - 1) * (n - 1) + 2 * n - 1;
    }
  }

  /** The table grows with `n`. */
  lemma {:induction false} SqMonotone(i: nat, j: nat)
    requires i <= j
    ensures Sq(i) <= Sq(j)
    decreases j
  {
    if i < j {
      SqMonotone(i, j - 1);
    }
  }

  /** `distance_(c1, c2)`: the squared Euclidean distance in RGB space. */
  function Distance(c1: Rgb, c2: Rgb): (d: int)
  {
    Sq(Abs(c1.red - c2.red)) + Sq(Abs(c1.green - c2.green)) + Sq(Abs(c1.blue - c2.blue))
  }

  lemma SqBounds(n: nat)
    requires n <= 255
    ensures Sq(n) <= 65025
    ensures Sq(n) == 0 <==> n == 0
  {
    SqMonotone(n, 255);
    SqIsSquare(255);
  }

  /** The distance stays below `ULONG_MAX`, is symmetric, and is zero
      exactly between equal colours. */
  lemma DistanceProperties(c1: Rgb, c2: Rgb)
    ensures 0 <= Distance(c1, c2) <= 3 * 65025 < ULONG_MAX
    ensures Distance(c1, c2) == Distance(c2, c1)
    ensures Distance(c1, c2) == 0 <==> c1 == c2
  {
    SqBounds(Abs(c1.red - c2.red));
    SqBounds(Abs(c1.green - c2.green));
    SqBounds(Abs(c1.blue - c2.blue));
    assert Abs(c1.red - c2.red) == Abs(c2.red - c1.red);
    assert Abs(c1.green - c2.green) == Abs(c2.green - c1.green);
    assert Abs(c1.blue - c2.blue) == Abs(c2.blue - c1.blue);
  }

  /** `SUMDIFF_[d] == d * d / 3`: the least distance between two colours
      whose channel sums differ by `d`. */
  function SumDiff(d: nat): nat
  {
    Sq(d) / 3
  }

  lemma SumDiffMonotone(i: nat, j: nat)
    requires i <= j
    ensures SumDiff(i) <= SumDiff(j)
  {
    SqMonotone(i, j);
    Arith.DivMonotone(Sq(i), Sq(j), 3);
  }

  lemma SquareNonNeg(n: int)
    ensures n * n >= 0
  {
    if n < 0 {
      assert n * n == (-n) * (-n);
      Arith.MulNonNeg(-n, -n);
    } else {
      Arith.MulNonNeg(n, n);
    }
  }

  lemma SqAbs(n: int)
    ensures Sq(Abs(n)) == n * n
  {
    SqIsSquare(Abs(n));
    if n < 0 {
      assert (-n) * (-n) == n * n;
    }
  }

  /** `(a + b + c)^2 <= 3 * (a^2 + b^2 + c^2)`: the difference is the sum
      of the squares of `a - b`, `b - c` and `a - c`. */
  lemma SquareOfSum(a: int, b: int, c: int)
    ensures (a + b + c) * (a + b + c) <= 3 * (a * a + b * b + c * c)
  {
    assert (a + b + c) * (a + b + c) == a * a + b * b + c * c + 2 * (a * b) + 2 * (b * c) + 2 * (a * c);
    assert (a - b) * (a - b) == a * a - 2 * (a * b) + b * b;
    assert (b - c) * (b - c) == b * b - 2 * (b * c) + c * c;
    assert (a - c) * (a - c) == a * a - 2 * (a * c) + c * c;
    SquareNonNeg(a - b);
    SquareNonNeg(b - c);
    SquareNonNeg(a - c);
  }

  /** The bound behind the early exit: colours whose channel sums differ by
      `d` lie at least `SUMDIFF_[d]` apart. */
  lemma SumDiffBound(c1: Rgb, c2: Rgb)
    ensures SumDiff(Abs(Sum(c1) - Sum(c2))) <= Distance(c1, c2)
  {
    var a, b, c := c1.red - c2.red, c1.green - c2.green, c1.blue - c2.blue;
    var d := Sum(c1) - Sum(c2);
    SqAbs(a);
    SqAbs(b);
    SqAbs(c);
    SqAbs(d);
    SquareOfSum(a, b, c);
    assert d == a + b + c;
    Arith.DivMonotone(Sq(Abs(d)), 3 * Distance(c1, c2), 3);
  }

  /** The entry before position `n` whose channels sum to `k`, the last
      one; -1 if there is none. */
  function LastWithSum(pal: seq<Rgb>, k: int, n: int): (r: int)
    requires 0 <= n <= |pal|
    ensures -1 <= r < n
    ensures r >= 0 ==> Sum(pal[r]) == k
  {
    if n == 0 then -1
    else if Sum(pal[n - 1]) == k then n - 1
    else LastWithSum(pal, k, n - 1)
  }

  /** No entry after the last one of sum `k` has sum `k`. */
  lemma {:induction false} NoneAfter(pal: seq<Rgb>, k: int, n: int)
    requires 0 <= n <= |pal|
    ensures forall j :: LastWithSum(pal, k, n) < j < n ==> Sum(pal[j]) != k
  {
    if n > 0 && Sum(pal[n - 1]) != k {
      NoneAfter(pal, k, n - 1);
    }
  }

  /** Bucket `k` read from position `n` downwards: the entries before `n`
      whose channels sum to `k`, last first. */
  function Bucket(pal: seq<Rgb>, k: int, n: int): (b: seq<int>)
    requires 0 <= n <= |pal|
    decreases n
  {
    var r := LastWithSum(pal, k, n);
    if r < 0 then [] else [r] + Bucket(pal, k, r)
  }

  /** A bucket holds exactly the entries of its sum, each once, in
      decreasing order. */
  lemma {:induction false} BucketExact(pal: seq<Rgb>, k: int, n: int)
    requires 0 <= n <= |pal|
    ensures forall j :: j in Bucket(pal, k, n) <==> 0 <= j < n && Sum(pal[j]) == k
    ensures forall i, j :: 0 <= i < j < |Bucket(pal, k, n)| ==> Bucket(pal, k, n)[i] > Bucket(pal, k, n)[j]
    decreases n
  {
    var r := LastWithSum(pal, k, n);
    NoneAfter(pal, k, n);
    if r >= 0 {
      BucketExact(pal, k, r);
      var b := Bucket(pal, k, n);
      assert b == [r] + Bucket(pal, k, r);
      forall i | 0 < i < |b|
        ensures b[i] < r
      {
        assert b[i] in Bucket(pal, k, r);
      }
    }
  }

  /** The search for a colour with channel sum `base` visits the entries
      in blocks: block `2 * d` holds the sum `base + d`, block `2 * d + 1`
      the sum `base - d`. */
  function Block(s: int, base: int): nat
  {
    if s >= base then 2 * (s - base) else 2 * (base - s) + 1
  }

  /** The place of entry `j` in the order of the search: by block, and
      within a block from the highest index down. */
  function Pos(pal: seq<Rgb>, base: int, j: int): int
    requires 0 <= j < |pal| == NPALETTE
  {
    256 * Block(Sum(pal[j]), base) + (255 - j)
  }

  lemma PosInjective(pal: seq<Rgb>, base: int, i: int, j: int)
    requires 0 <= i < |pal| == NPALETTE && 0 <= j < |pal|
    requires Pos(pal, base, i) == Pos(pal, base, j)
    ensures i == j
  {
    Arith.DivUnique(Pos(pal, base, i), NPALETTE, Block(Sum(pal[i]), base));
    Arith.DivUnique(Pos(pal, base, j), NPALETTE, Block(Sum(pal[j]), base));
  }

  /** The rank of entry `j` for `color`: its distance, then its place in
      the search order, which is below `256 * 2 * NCLASS == 392192`. */
  function Rank(pal: seq<Rgb>, color: Rgb, j: int): int
    requires 0 <= j < |pal| == NPALETTE
  {
    Distance(color, pal[j]) * 392192 + Pos(pal, Sum(color), j)
  }

  /** Entry `i` comes before entry `j`. */
  predicate Before(pal: seq<Rgb>, color: Rgb, i: int, j: int)
    requires 0 <= i < |pal| == NPALETTE && 0 <= j < |pal|
  {
    Rank(pal, color, i) <= Rank(pal, color, j)
  }

  /** Coming before means being nearer to `color`, or as near and visited
      first. */
  lemma BeforeMeans(pal: seq<Rgb>, color: Rgb, i: int, j: int)
    requires 0 <= i < |pal| == NPALETTE && 0 <= j < |pal|
    ensures var di, dj := Distance(color, pal[i]), Distance(color, pal[j]);
      Before(pal, color, i, j) <==> di < dj || (di == dj && Pos(pal, Sum(color), i) <= Pos(pal, Sum(color), j))
  {
    var di, dj := Distance(color, pal[i]), Distance(color, pal[j]);
    var pi, pj := Pos(pal, Sum(color), i), Pos(pal, Sum(color), j);
    assert 0 <= pi < 392192 && 0 <= pj < 392192;
    if di < dj {
      assert di * 392192 + 392192 <= dj * 392192;
    } else if dj < di {
      assert dj * 392192 + 392192 <= di * 392192;
    }
  }

  /** The answer of `findNearest`, by a plain scan of the first `n`
      entries: the entry that comes first, the later one replacing the
      earlier only when it comes strictly before it. */
  function NearestUpTo(pal: seq<Rgb>, color: Rgb, n: int): (r: int)
    requires |pal| == NPALETTE && 1 <= n <= NPALETTE
    ensures 0 <= r < n
  {
    if n == 1 then 0
    else
      var r := NearestUpTo(pal, color, n - 1);
      if Before(pal, color, r, n - 1) then r else n - 1
  }

  /** The scan's answer comes before every entry scanned. */
  lemma {:induction false} NearestFirst(pal: seq<Rgb>, color: Rgb, n: int)
    requires |pal| == NPALETTE && 1 <= n <= NPALETTE
    ensures forall j :: 0 <= j < n ==> Before(pal, color, NearestUpTo(pal, color, n), j)
  {
    var q := NearestUpTo(pal, color, n);
    if n > 1 {
      var r := NearestUpTo(pal, color, n - 1);
      NearestFirst(pal, color, n - 1);
      if Before(pal, color, r, n - 1) {
        assert q == r;
        forall j | 0 <= j < n
          ensures Before(pal, color, q, j)
        {
          if j < n - 1 {
            assert Before(pal, color, r, j);
          }
        }
      } else {
        assert q == n - 1;
        BeforeTrans(pal, color, q, r, n - 1);
        forall j | 0 <= j < n
          ensures Before(pal, color, q, j)
        {
          if j == q {
            assert Rank(pal, color, q) <= Rank(pal, color, j);
          }
        }
      }
    } else {
      assert Before(pal, color, q, 0);
    }
  }

  /** `Before` is transitive: an entry before `r`, which comes before the
      first `m` entries, comes before them too. */
  lemma BeforeTrans(pal: seq<Rgb>, color: Rgb, i: int, r: int, m: int)
    requires |pal| == NPALETTE && 0 <= i < NPALETTE && 0 <= r < NPALETTE && 0 <= m <= NPALETTE
    requires Rank(pal, color, i) <= Rank(pal, color, r)
    requires forall j :: 0 <= j < m ==> Before(pal, color, r, j)
    ensures forall j :: 0 <= j < m ==> Before(pal, color, i, j)
  {
    forall j | 0 <= j < m
      ensures Before(pal, color, i, j)
    {
      assert Before(pal, color, r, j);
    }
  }

  lemma RankInjective(pal: seq<Rgb>, color: Rgb, i: int, j: int)
    requires 0 <= i < |pal| == NPALETTE && 0 <= j < |pal|
    requires Rank(pal, color, i) == Rank(pal, color, j)
    ensures i == j
  {
    DistanceProperties(color, pal[i]);
    DistanceProperties(color, pal[j]);
    Arith.DivUnique(Rank(pal, color, i), 392192, Distance(color, pal[i]));
    Arith.DivUnique(Rank(pal, color, j), 392192, Distance(color, pal[j]));
    PosInjective(pal, Sum(color), i, j);
  }

  function Nearest(pal: seq<Rgb>, color: Rgb): (r: Byte)
    requires |pal| == NPALETTE
  {
    NearestUpTo(pal, color, |pal|)
  }

  /** Only one entry comes before every other, so `Nearest` is the entry
      of least distance, the first one visited among equals. */
  lemma NearestUnique(pal: seq<Rgb>, color: Rgb, r: int)
    requires |pal| == NPALETTE && 0 <= r < NPALETTE
    requires forall j :: 0 <= j < NPALETTE ==> Before(pal, color, r, j)
    ensures r == Nearest(pal, color)
  {
    var n := Nearest(pal, color);
    NearestFirst(pal, color, NPALETTE);
    assert Before(pal, color, r, n) && Before(pal, color, n, r);
    RankInjective(pal, color, r, n);
  }

  /** No entry is nearer to `color` than `Nearest`; a colour of the palette
      is found exactly. */
  lemma NearestMinimal(pal: seq<Rgb>, color: Rgb)
    requires |pal| == NPALETTE
    ensures forall j :: 0 <= j < NPALETTE ==> Distance(color, pal[Nearest(pal, color)]) <= Distance(color, pal[j])
    ensures color in pal ==> pal[Nearest(pal, color)] == color
  {
    var n := Nearest(pal, color);
    NearestFirst(pal, color, NPALETTE);
    forall j | 0 <= j < NPALETTE
      ensures Distance(color, pal[n]) <= Distance(color, pal[j])
    {
      assert Before(pal, color, n, j);
      BeforeMeans(pal, color, n, j);
    }
    if color in pal {
      var j :| 0 <= j < NPALETTE && pal[j] == color;
      DistanceProperties(color, pal[j]);
      DistanceProperties(color, pal[n]);
    }
  }

  /** The state of the search once every entry before position `cur` has
      been visited: nothing yet (`mindiff` still `ULONG_MAX`), or `nearest`
      comes before every visited entry, `mindiff` is its distance, and no
      visited entry is at distance 0. */
  ghost predicate Best(pal: seq<Rgb>, color: Rgb, nearest: int, mindiff: int, cur: int)
    requires |pal| == NPALETTE
  {
    0 <= nearest < NPALETTE &&
    if mindiff == ULONG_MAX then
      nearest == 0 && forall j :: 0 <= j < NPALETTE ==> Pos(pal, Sum(color), j) >= cur
    else
      Pos(pal, Sum(color), nearest) < cur && mindiff == Distance(color, pal[nearest])
      && forall j :: 0 <= j < NPALETTE && Pos(pal, Sum(color), j) < cur ==>
           Distance(color, pal[j]) > 0 && Before(pal, color, nearest, j)
  }

  /** Moving the cursor past positions that no entry holds. */
  lemma BestSkip(pal: seq<Rgb>, color: Rgb, nearest: int, mindiff: int, cur: int, cur': int)
    requires |pal| == NPALETTE && cur <= cur' && Best(pal, color, nearest, mindiff, cur)
    requires forall j :: 0 <= j < NPALETTE ==> !(cur <= Pos(pal, Sum(color), j) < cur')
    ensures Best(pal, color, nearest, mindiff, cur')
  {
  }

  /** Visiting the entry `p` at the cursor with the update of the search:
      a strictly nearer entry replaces `nearest`. */
  lemma BestVisit(pal: seq<Rgb>, color: Rgb, nearest: int, mindiff: int, cur: int, p: int)
    requires |pal| == NPALETTE && 0 <= p < NPALETTE && Best(pal, color, nearest, mindiff, cur)
    requires Pos(pal, Sum(color), p) == cur && Distance(color, pal[p]) != 0
    ensures var diff := Distance(color, pal[p]);
      if diff < mindiff then Best(pal, color, p, diff, cur + 1)
      else Best(pal, color, nearest, mindiff, cur + 1)
  {
    var base := Sum(color);
    DistanceProperties(color, pal[p]);
    forall j | 0 <= j < NPALETTE && Pos(pal, base, j) == cur
      ensures j == p
    {
      PosInjective(pal, base, j, p);
    }
  }

  /** An entry at distance 0 at the cursor comes before every entry. */
  lemma ZeroFirst(pal: seq<Rgb>, color: Rgb, nearest: int, mindiff: int, cur: int, p: int)
    requires |pal| == NPALETTE && 0 <= p < NPALETTE && Best(pal, color, nearest, mindiff, cur)
    requires Pos(pal, Sum(color), p) == cur && Distance(color, pal[p]) == 0
    ensures forall j :: 0 <= j < NPALETTE ==> Before(pal, color, p, j)
  {
    var base := Sum(color);
    forall j | 0 <= j < NPALETTE
      ensures Before(pal, color, p, j)
    {
      DistanceProperties(color, pal[j]);
      if Pos(pal, base, j) == cur {
        PosInjective(pal, base, j, p);
      }
    }
  }

  /** Revisiting an entry already visited changes nothing. */
  lemma BestRevisit(pal: seq<Rgb>, color: Rgb, nearest: int, mindiff: int, cur: int, p: int)
    requires |pal| == NPALETTE && 0 <= p < NPALETTE && Best(pal, color, nearest, mindiff, cur)
    requires Pos(pal, Sum(color), p) < cur
    ensures 0 < Distance(color, pal[p]) && mindiff <= Distance(color, pal[p])
  {
    BeforeMeans(pal, color, nearest, p);
  }

  /** In a block whose entries are exactly those of bucket `k`, no entry
      lies strictly between the cursor after the bucket's entries at or
      above `hi` and the place of the next one, `p`. */
  lemma BucketGap(pal: seq<Rgb>, base: int, k: int, blk: nat, hi: int, p: int)
    requires |pal| == NPALETTE && 0 <= hi <= NPALETTE && p == LastWithSum(pal, k, hi)
    requires BlockIsBucket(pal, base, k, blk)
    ensures p >= 0 ==> Pos(pal, base, p) == 256 * blk + 255 - p
    ensures forall j :: 0 <= j < NPALETTE ==> !(256 * blk + 256 - hi <= Pos(pal, base, j) < 256 * blk + 255 - p)
  {
    NoneAfter(pal, k, hi);
    forall j | 0 <= j < NPALETTE
      ensures !(256 * blk + 256 - hi <= Pos(pal, base, j) < 256 * blk + 255 - p)
    {
      var b := Block(Sum(pal[j]), base);
      if b != blk {
        assert b < blk || b > blk;
      } else {
        assert Sum(pal[j]) == k;
      }
    }
  }

  /** A block holding no entry of the palette holds no place either. */
  lemma EmptyBlock(pal: seq<Rgb>, base: int, k: int, blk: nat)
    requires |pal| == NPALETTE
    requires BucketBefore(pal, base, k, blk)
    ensures forall j :: 0 <= j < NPALETTE ==> !(256 * blk <= Pos(pal, base, j) < 256 * (blk + 1))
  {
    forall j | 0 <= j < NPALETTE
      ensures !(256 * blk <= Pos(pal, base, j) < 256 * (blk + 1))
    {
      var b := Block(Sum(pal[j]), base);
      assert b < blk || b > blk;
    }
  }

  /** Block `blk` holds exactly the entries of bucket `k`. */
  ghost predicate BlockIsBucket(pal: seq<Rgb>, base: int, k: int, blk: nat)
    requires |pal| == NPALETTE
  {
    forall j :: 0 <= j < NPALETTE ==> (Sum(pal[j]) == k <==> Block(Sum(pal[j]), base) == blk)
  }

  /** Block `blk` holds no entry, and bucket `k` lies wholly before it. */
  ghost predicate BucketBefore(pal: seq<Rgb>, base: int, k: int, blk: nat)
    requires |pal| == NPALETTE
  {
    forall j :: 0 <= j < NPALETTE ==>
      Block(Sum(pal[j]), base) != blk && (Sum(pal[j]) == k ==> Pos(pal, base, j) < 256 * blk)
  }

  /** What a walk of bucket `k` through block `blk` relies on: the block
      is the bucket's, or (when it is not a new block) the block is empty
      and the bucket was walked before it. */
  ghost predicate WalkBlock(pal: seq<Rgb>, base: int, k: int, blk: nat, newBlock: bool)
    requires |pal| == NPALETTE
  {
    if newBlock then BlockIsBucket(pal, base, k, blk) else BucketBefore(pal, base, k, blk)
  }

  /** Where the search stands in block `blk` once the entries of the
      bucket at or above `hi` are visited. */
  function Cursor(blk: nat, newBlock: bool, hi: int): int
  {
    if newBlock then 256 * blk + NPALETTE - hi else 256 * blk
  }

  /** One step of a bucket walk at entry `p`: an entry at distance 0 comes
      first of all; otherwise a strictly nearer entry replaces `nearest`,
      and either way the cursor moves past `p`. */
  lemma WalkStep(pal: seq<Rgb>, color: Rgb, k: int, blk: nat, newBlock: bool, hi: int, p: int,
                 nearest: int, mindiff: int)
    requires |pal| == NPALETTE && 0 <= hi <= NPALETTE && p == LastWithSum(pal, k, hi) && 0 <= p
    requires WalkBlock(pal, Sum(color), k, blk, newBlock)
    requires Best(pal, color, nearest, mindiff, Cursor(blk, newBlock, hi))
    ensures var diff := Distance(color, pal[p]);
      if diff == 0 then p == Nearest(pal, color)
      else if diff < mindiff then Best(pal, color, p, diff, Cursor(blk, newBlock, p))
      else Best(pal, color, nearest, mindiff, Cursor(blk, newBlock, p))
  {
    var base := Sum(color);
    var diff := Distance(color, pal[p]);
    if newBlock {
      BucketGap(pal, base, k, blk, hi, p);
      BestSkip(pal, color, nearest, mindiff, Cursor(blk, newBlock, hi), Pos(pal, base, p));
      if diff == 0 {
        ZeroFirst(pal, color, nearest, mindiff, Pos(pal, base, p), p);
        NearestUnique(pal, color, p);
      } else {
        BestVisit(pal, color, nearest, mindiff, Pos(pal, base, p), p);
      }
    } else {
      BestRevisit(pal, color, nearest, mindiff, 256 * blk, p);
    }
  }

  /** The end of a bucket walk: the cursor moves to the next block. */
  lemma WalkEnd(pal: seq<Rgb>, color: Rgb, k: int, blk: nat, newBlock: bool, hi: int,
                nearest: int, mindiff: int)
    requires |pal| == NPALETTE && 0 <= hi <= NPALETTE && LastWithSum(pal, k, hi) < 0
    requires WalkBlock(pal, Sum(color), k, blk, newBlock)
    requires Best(pal, color, nearest, mindiff, Cursor(blk, newBlock, hi))
    ensures Best(pal, color, nearest, mindiff, 256 * (blk + 1))
  {
    if newBlock {
      BucketGap(pal, Sum(color), k, blk, hi, LastWithSum(pal, k, hi));
    } else {
      EmptyBlock(pal, Sum(color), k, blk);
    }
    BestSkip(pal, color, nearest, mindiff, Cursor(blk, newBlock, hi), 256 * (blk + 1));
  }

  /** The two blocks at offset `a`: sum `base + a` upwards, sum `base - a`
      downwards; at offset 0 the downward block is empty and its bucket is
      the one already walked. */
  lemma OffsetBlocks(pal: seq<Rgb>, base: int, a: nat)
    requires |pal| == NPALETTE
    ensures WalkBlock(pal, base, base + a, 2 * a, true)
    ensures WalkBlock(pal, base, base - a, 2 * a + 1, a > 0)
  {
  }

  /** A sum no entry can have has an empty bucket. */
  lemma NoBucket(pal: seq<Rgb>, k: int)
    requires |pal| == NPALETTE && !(0 <= k < NCLASS)
    ensures LastWithSum(pal, k, NPALETTE) == -1
  {
  }

  /** The early exit at offset `a`: every entry not yet visited has a sum
      at least `a` away, so it lies at least `SUMDIFF_[a]` away, further
      than `mindiff`. */
  lemma EarlyExit(pal: seq<Rgb>, color: Rgb, nearest: int, mindiff: int, a: int, cur: int)
    requires |pal| == NPALETTE && 0 <= a < NCLASS && cur == 512 * a && Best(pal, color, nearest, mindiff, cur)
    requires mindiff < SumDiff(a)
    ensures nearest == Nearest(pal, color)
  {
    var base := Sum(color);
    SqMonotone(a, NCLASS);
    SqIsSquare(NCLASS);
    assert mindiff < ULONG_MAX;
    forall j | 0 <= j < NPALETTE && Pos(pal, base, j) >= 512 * a
      ensures Before(pal, color, nearest, j)
    {
      var d := Abs(Sum(pal[j]) - base);
      assert Block(Sum(pal[j]), base) >= 2 * a;
      SumDiffMonotone(a, d);
      SumDiffBound(pal[j], color);
      assert Distance(pal[j], color) > mindiff;
      DistanceProperties(pal[j], color);
      BeforeMeans(pal, color, nearest, j);
    }
    NearestUnique(pal, color, nearest);
  }

  /** Once all offsets are walked, every entry has been visited. */
  lemma AllVisited(pal: seq<Rgb>, color: Rgb, nearest: int, mindiff: int, cur: int)
    requires |pal| == NPALETTE && cur == 392192 && Best(pal, color, nearest, mindiff, cur)
    ensures nearest == Nearest(pal, color)
  {
    assert Pos(pal, Sum(color), 0) < 392192;
    NearestUnique(pal, color, nearest);
  }
}
