module PaletteFinding {
  import opened Base
  import opened Colour
  import opened PaletteOrder

  /** `idx` holds the head of every bucket of the first `n` entries. */
  ghost predicate Heads(pal: seq<Rgb>, idx: seq<int>, n: int)
    requires 0 <= n <= |pal|
  {
    |idx| == NCLASS && forall k {:trigger idx[k]} :: 0 <= k < NCLASS ==> idx[k] == LastWithSum(pal, k, n)
  }

  /** `nx` links each of the first `n` entries to the previous entry of its
      sum. */
  ghost predicate Links(pal: seq<Rgb>, nx: seq<int>, n: int)
    requires 0 <= n <= |pal| && n <= |nx|
  {
    forall j {:trigger nx[j]} :: 0 <= j < n ==> nx[j] == LastWithSum(pal, Sum(pal[j]), j)
  }

  /** Entry `n` becomes the head of its bucket. */
  lemma HeadsStep(pal: seq<Rgb>, idx: seq<int>, n: int)
    requires 0 <= n < |pal| && Heads(pal, idx, n)
    ensures Heads(pal, idx[Sum(pal[n]) := n], n + 1)
  {
    var idx' := idx[Sum(pal[n]) := n];
    forall k | 0 <= k < NCLASS
      ensures idx'[k] == LastWithSum(pal, k, n + 1)
    {
      if k != Sum(pal[n]) {
        assert idx'[k] == idx[k];
      }
    }
  }

  /** Entry `n` links to the old head of its bucket. */
  lemma LinksStep(pal: seq<Rgb>, idx: seq<int>, nx: seq<int>, n: int)
    requires 0 <= n < |pal| && n < |nx| && Heads(pal, idx, n) && Links(pal, nx, n)
    ensures Links(pal, nx[n := idx[Sum(pal[n])]], n + 1)
  {
    var nx' := nx[n := idx[Sum(pal[n])]];
    forall j | 0 <= j < n + 1
      ensures nx'[j] == LastWithSum(pal, Sum(pal[j]), j)
    {
      if j < n {
        assert nx'[j] == nx[j];
      }
    }
  }

  /** The constructor's loop: threads every entry onto the list of its
      channel sum, so that each list runs from the highest index down. */
  method Link(palette: seq<Rgb>, index: array<int>, next: array<int>)
    requires |palette| == NPALETTE && index.Length == NCLASS && next.Length == NPALETTE && index != next
    requires forall k :: 0 <= k < NCLASS ==> index[k] == -1
    modifies index, next
    ensures Heads(palette, index[..], NPALETTE) && Links(palette, next[..], NPALETTE)
  {
    var i := 0;
    while i < NPALETTE
      invariant 0 <= i <= NPALETTE
      invariant Heads(palette, index[..], i) && Links(palette, next[..], i)
    {
      var k := palette[i].red + palette[i].green + palette[i].blue;
      LinksStep(palette, index[..], next[..], i);
      HeadsStep(palette, index[..], i);
      next[i] := index[k];
      index[k] := i;
      i := i + 1;
    }
  }

  class PaletteFinder {
    /** `next_[i]`: the next entry of the bucket of entry `i`, or -1. */
    const next: array<int>
    /** `index_[k]`: the first entry of bucket `k`, or -1. */
    const index: array<int>
    /** The palette the buckets were built from. */
    ghost const pal: seq<Rgb>

    /** Bucket `k` starts at the last entry of sum `k`, and each entry links
        to the previous entry of its sum. */
    ghost predicate Valid()
      reads this, next, index
    {
      next.Length == NPALETTE && index.Length == NCLASS && |pal| == NPALETTE
      && Heads(pal, index[..], NPALETTE) && Links(pal, next[..], NPALETTE)
    }

    /** The list read from entry `p` by following `next_`. */
    ghost function ListFrom(p: int): seq<int>
      requires Valid() && -1 <= p < NPALETTE
      reads this, next, index
      decreases p + 1
    {
      if p < 0 then [] else [p] + ListFrom(next[p])
    }

    /** Following `next_` from the last entry of sum `k` before `n` reads
        the bucket of `k` from `n` down. */
    lemma {:induction false} ListIsBucket(k: int, n: int)
      requires Valid() && 0 <= n <= NPALETTE
      ensures ListFrom(LastWithSum(pal, k, n)) == Bucket(pal, k, n)
      decreases n
    {
      var p := LastWithSum(pal, k, n);
      if p >= 0 {
        ListIsBucket(k, p);
      }
    }

    /** The list of bucket `k` holds exactly the entries whose channels sum
        to `k`, each once. */
    lemma BucketList(k: int)
      requires Valid() && 0 <= k < NCLASS
      ensures forall j :: j in ListFrom(index[k]) <==> 0 <= j < NPALETTE && Sum(pal[j]) == k
      ensures forall i, j :: 0 <= i < j < |ListFrom(index[k])| ==> ListFrom(index[k])[i] != ListFrom(index[k])[j]
    {
      ListIsBucket(k, NPALETTE);
      BucketExact(pal, k, NPALETTE);
    }

    /** The head of bucket `k` as the search reads it: `index_[k]` for a
        sum some colour can have, -1 for any other. */
    lemma BucketHead(k: int, p: int)
      requires Valid()
      requires if 0 <= k < NCLASS then p == index[k] else p == -1
      ensures p == LastWithSum(pal, k, NPALETTE)
    {
      if !(0 <= k < NCLASS) {
        NoBucket(pal, k);
      }
    }

    /** Following `next_` from an entry of bucket `k` reaches the previous
        entry of the bucket. */
    lemma Follow(k: int, hi: int, p: int)
      requires Valid() && 0 <= hi <= NPALETTE && p == LastWithSum(pal, k, hi) && 0 <= p
      ensures next[p] == LastWithSum(pal, k, p)
    {
      assert next[..][p] == next[p];
    }

    /** `PaletteFinder_(palette)`: every bucket lists the entries of its sum. */
    constructor(palette: seq<Rgb>)
      requires |palette| == NPALETTE
      ensures Valid() && pal == palette
    {
      pal := palette;
      var idx := new int[NCLASS](_ => -1);
      var nxt := new int[NPALETTE];
      Link(palette, idx, nxt);
      next := nxt;
      index := idx;
    }

    /** One of the two list walks of `findNearest`: bucket `k`, which starts
        at `p0`, holds block `blk` of the search order (`newBlock`), or, on the
        downward walk at offset 0, the bucket already walked upwards.  It
        stops at once on an entry at distance 0 (`found`). */
    method Walk(palette: seq<Rgb>, color: Rgb, p0: int, ghost k: int, ghost blk: nat, ghost newBlock: bool,
                ghost cur: int, nearest: int, mindiff: int)
      returns (found: bool, nearest': int, mindiff': int)
      requires Valid() && palette == pal
      requires if 0 <= k < NCLASS then p0 == index[k] else p0 == -1
      requires cur == 256 * blk && Best(pal, color, nearest, mindiff, cur)
      requires WalkBlock(pal, Sum(color), k, blk, newBlock)
      ensures found ==> nearest' == Nearest(pal, color)
      ensures !found ==> Best(pal, color, nearest', mindiff', cur + 256)
    {
      BucketHead(k, p0);
      var p := p0;
      ghost var hi := NPALETTE;
      nearest', mindiff' := nearest, mindiff;
      while p >= 0 && p < NPALETTE
        invariant 0 <= hi <= NPALETTE && p == LastWithSum(pal, k, hi)
        invariant Best(pal, color, nearest', mindiff', Cursor(blk, newBlock, hi))
        decreases hi
      {
        var diff := Distance(color, palette[p]);
        WalkStep(pal, color, k, blk, newBlock, hi, p, nearest', mindiff');
        if diff == 0 {
          return true, p, mindiff';
        } else if diff < mindiff' {
          nearest', mindiff' := p, diff;
        }
        Follow(k, hi, p);
        hi := p;
        p := next[p];
      }
      WalkEnd(pal, color, k, blk, newBlock, hi, nearest', mindiff');
      assert 256 * (blk + 1) == cur + 256;
      found := false;
    }

    /** One round of `findNearest`: the walk of the bucket `absval` above
        the sum of the channels of `color`, then, unless it met an entry at
        distance 0, the walk of the bucket `absval` below. */
    method Offset(palette: seq<Rgb>, color: Rgb, absval: int, ghost cur: int, nearest: int, mindiff: int)
      returns (found: bool, nearest': int, mindiff': int)
      requires Valid() && palette == pal && 0 <= absval
      requires cur == 512 * absval && Best(pal, color, nearest, mindiff, cur)
      ensures found ==> nearest' == Nearest(pal, color)
      ensures !found ==> Best(pal, color, nearest', mindiff', cur + 256 + 256)
    {
      found, nearest', mindiff' := WalkAbove(palette, color, absval, cur, nearest, mindiff);
      if found {
        return;
      }
      found, nearest', mindiff' := WalkBelow(palette, color, absval, cur + 256, nearest', mindiff');
    }

    /** The walk of the bucket `Sum(color) + absval`. */
    method WalkAbove(palette: seq<Rgb>, color: Rgb, absval: int, ghost cur: int, nearest: int, mindiff: int)
      returns (found: bool, nearest': int, mindiff': int)
      requires Valid() && palette == pal && 0 <= absval
      requires cur == 512 * absval && Best(pal, color, nearest, mindiff, cur)
      ensures found ==> nearest' == Nearest(pal, color)
      ensures !found ==> Best(pal, color, nearest', mindiff', cur + 256)
    {
      var base := Sum(color);
      OffsetBlocks(pal, base, absval);
      var p := if base + absval < NCLASS then index[base + absval] else -1;
      found, nearest', mindiff' := Walk(palette, color, p, base + absval, 2 * absval, true, cur, nearest, mindiff);
    }

    /** The walk of the bucket `Sum(color) - absval`. */
    method WalkBelow(palette: seq<Rgb>, color: Rgb, absval: int, ghost cur: int, nearest: int, mindiff: int)
      returns (found: bool, nearest': int, mindiff': int)
      requires Valid() && palette == pal && 0 <= absval
      requires cur == 512 * absval + 256 && Best(pal, color, nearest, mindiff, cur)
      ensures found ==> nearest' == Nearest(pal, color)
      ensures !found ==> Best(pal, color, nearest', mindiff', cur + 256)
    {
      var base := Sum(color);
      OffsetBlocks(pal, base, absval);
      var p := if base - absval >= 0 then index[base - absval] else -1;
      found, nearest', mindiff' := Walk(palette, color, p, base - absval, 2 * absval + 1, absval > 0, cur, nearest, mindiff);
    }

    /** `findNearest(palette, color)` with the palette the finder was built
        from: the entry nearest to `color`, the first visited among equally
        near ones, exactly as the plain scan `Nearest` finds it. */
    method FindNearest(palette: seq<Rgb>, color: Rgb) returns (r: Byte)
      requires Valid() && palette == pal
      ensures r == Nearest(pal, color)
    {
      var nearest, mindiff := 0, ULONG_MAX;
      var absval := 0;
      ghost var cur := 0;
      while absval < NCLASS
        invariant 0 <= absval <= NCLASS && cur == 512 * absval
        invariant Best(pal, color, nearest, mindiff, cur)
      {
        if mindiff < SumDiff(absval) {
          EarlyExit(pal, color, nearest, mindiff, absval, cur);
          return nearest;
        }
        var found;
        found, nearest, mindiff := Offset(palette, color, absval, cur, nearest, mindiff);
        if found {
          return nearest;
        }
        cur := cur + 256 + 256;
        absval := absval + 1;
      }
      AllVisited(pal, color, nearest, mindiff, cur);
      return nearest;
    }
  }
}
