/** `ImageBuffer<C_>::paintFill`: the scan-line seed fill driven by an
    explicit stack of seed points.  The stack is a sequence whose last element
    is the top. */
module PaintFill {
  import opened Base
  import opened ImageBuffers

  /** The points of the rows `g` that hold `from`. */
  ghost function FromSet<C>(g: seq<seq<C>>, from: C): set<Point>
  {
    set j, i | 0 <= j < |g| && 0 <= i < |g[j]| && g[j][i] == from :: Point(i, j)
  }

  /** Positions of the stack whose seed no longer holds `from`, given the
      set `live` of points that still do. */
  ghost function DeadSeeds(live: set<Point>, s: seq<Point>): set<int>
  {
    set k | 0 <= k < |s| && s[k] !in live
  }

  lemma ProperSubsetSmaller<T>(a: set<T>, b: set<T>)
    requires a < b
    ensures |a| < |b|
  {
    assert b - a != {};
    assert b == a + (b - a);
  }

  /** 4-neighbourhood: the points differ by one in exactly one coordinate. */
  predicate Adjacent(p: Point, q: Point)
  {
    (p.x == q.x && (p.y == q.y + 1 || q.y == p.y + 1)) || (p.y == q.y && (p.x == q.x + 1 || q.x == p.x + 1))
  }

  /** Point `p` lies in the grid `g` of rows. */
  predicate InGrid<C>(g: seq<seq<C>>, p: Point)
  {
    0 <= p.y < |g| && 0 <= p.x < |g[p.y]|
  }

  /** `path` is a walk through 4-neighbours of `g` that only visits pixels
      holding `from`. */
  ghost predicate IsPath<C>(g: seq<seq<C>>, from: C, path: seq<Point>)
  {
    (forall k :: 0 <= k < |path| ==> InGrid(g, path[k]) && g[path[k].y][path[k].x] == from)
    && (forall k :: 0 <= k < |path| - 1 ==> Adjacent(path[k], path[k + 1]))
  }

  /** `q` is reachable from `p` through 4-neighbours that hold `from` in `g`
      (both ends included). */
  ghost predicate Connected<C>(g: seq<seq<C>>, from: C, p: Point, q: Point)
  {
    exists path :: |path| > 0 && path[0] == p && path[|path| - 1] == q && IsPath(g, from, path)
  }

  lemma ConnectedStart<C>(g: seq<seq<C>>, from: C, p: Point)
    requires InGrid(g, p) && g[p.y][p.x] == from
    ensures Connected(g, from, p, p)
  {
    assert IsPath(g, from, [p]);
  }

  /** A connected region grows by any neighbour holding `from`. */
  lemma ConnectedStep<C>(g: seq<seq<C>>, from: C, p: Point, q: Point, r: Point)
    requires Connected(g, from, p, q) && Adjacent(q, r) && InGrid(g, r) && g[r.y][r.x] == from
    ensures Connected(g, from, p, r)
  {
    var path :| |path| > 0 && path[0] == p && path[|path| - 1] == q && IsPath(g, from, path);
    var path' := path + [r];
    assert IsPath(g, from, path');
  }

  /** `g` holds the rows of an image with the canvas of `img`. */
  predicate Shaped<C>(g: seq<seq<C>>, img: ImageBuffer<C>)
    reads img
  {
    |g| == img.h && forall j :: 0 <= j < |g| ==> |g[j]| == img.w
  }

  /** Compared with the original rows `g`, every pixel of `a` either kept
      its value, or held `from`, is connected to `start` and now holds
      `color`. */
  ghost predicate Filled<C>(a: seq<seq<C>>, g: seq<seq<C>>, from: C, color: C, start: Point)
  {
    |a| == |g| && (forall j :: 0 <= j < |g| ==> |a[j]| == |g[j]|)
    && forall j, i :: 0 <= j < |g| && 0 <= i < |g[j]| ==>
      a[j][i] == g[j][i] || (g[j][i] == from && a[j][i] == color && Connected(g, from, start, Point(i, j)))
  }

  /** Every pixel of `a` that holds `from` held it in `g` too. */
  ghost predicate FromKept<C>(a: seq<seq<C>>, g: seq<seq<C>>, from: C)
  {
    |a| == |g| && (forall j :: 0 <= j < |g| ==> |a[j]| == |g[j]|)
    && forall j, i :: 0 <= j < |g| && 0 <= i < |g[j]| && a[j][i] == from ==> g[j][i] == from
  }

  lemma FromSetMember<C>(g: seq<seq<C>>, from: C, p: Point)
    ensures p in FromSet(g, from) <==> InGrid(g, p) && g[p.y][p.x] == from
  {
    if InGrid(g, p) && g[p.y][p.x] == from {
      assert Point(p.x, p.y) in FromSet(g, from);
    }
  }

  /** Repainting pixels with a colour other than `from` only shrinks the set
      of pixels holding `from`. */
  lemma FromSetShrinks<C>(before: seq<seq<C>>, after: seq<seq<C>>, from: C, color: C)
    requires color != from && |after| == |before|
    requires forall j :: 0 <= j < |before| ==> |after[j]| == |before[j]|
    requires forall j, i :: 0 <= j < |before| && 0 <= i < |before[j]| ==>
      after[j][i] == before[j][i] || after[j][i] == color
    ensures FromSet(after, from) <= FromSet(before, from)
  {
    forall q | q in FromSet(after, from)
      ensures q in FromSet(before, from)
    {
      FromSetMember(after, from, q);
      FromSetMember(before, from, q);
    }
  }

  /** The seeds from position `m` on were pushed by the walk along row `yy`
      of the rows `a`: they lie on another row and hold `from`. */
  ghost predicate Pending<C>(a: seq<seq<C>>, s: seq<Point>, m: nat, yy: int, from: C)
  {
    forall k :: m <= k < |s| ==> InGrid(a, s[k]) && s[k].y != yy && a[s[k].y][s[k].x] == from
  }

  /** Every seed of the stack lies in `g` and is connected to `start`. */
  ghost predicate Reachable<C>(g: seq<seq<C>>, from: C, start: Point, s: seq<Point>)
  {
    forall k :: 0 <= k < |s| ==> InGrid(g, s[k]) && Connected(g, from, start, s[k])
  }

  /** Column `i` lies strictly between columns `a` and `b`. */
  predicate Between(a: int, b: int, i: int)
  {
    a < i < b || b < i < a
  }

  /** Seed `t` and pixel `r` lie on one row of `a`, and every pixel from
      one to the other, both included, holds `from`: a round popping `t`
      walks along that row to `r`. */
  ghost predicate Run<C>(a: seq<seq<C>>, from: C, t: Point, r: Point)
  {
    t.y == r.y && InGrid(a, t) && InGrid(a, r)
    && forall i :: t.x <= i <= r.x || r.x <= i <= t.x ==> a[r.y][i] == from
  }

  /** Pixel `r` lies in the run of some seed of the stack `s`. */
  ghost predicate Covered<C>(a: seq<seq<C>>, from: C, s: seq<Point>, r: Point)
  {
    exists k :: 0 <= k < |s| && Run(a, from, s[k], r)
  }

  /** The pixels above and below (c, yy) that hold `from` are covered. */
  ghost predicate ColumnCovered<C>(a: seq<seq<C>>, from: C, s: seq<Point>, c: int, yy: int)
  {
    (InGrid(a, Point(c, yy - 1)) && a[yy - 1][c] == from ==> Covered(a, from, s, Point(c, yy - 1)))
    && (InGrid(a, Point(c, yy + 1)) && a[yy + 1][c] == from ==> Covered(a, from, s, Point(c, yy + 1)))
  }

  /** The frontier of the fill: every pixel painted so far (it held `from` in
      the original rows `g` and holds `color` in `a`) has each 4-neighbour
      that still holds `from` covered by a seed of the stack `s`. */
  ghost predicate Bordered<C>(g: seq<seq<C>>, a: seq<seq<C>>, from: C, color: C, s: seq<Point>)
  {
    forall q, r ::
      (Adjacent(q, r) && InGrid(g, q) && InGrid(a, q) && InGrid(a, r)
       && g[q.y][q.x] == from && a[q.y][q.x] == color && a[r.y][r.x] == from) ==> Covered(a, from, s, r)
  }

  lemma CoveredGrows<C>(a: seq<seq<C>>, from: C, s: seq<Point>, s': seq<Point>, r: Point)
    requires s <= s' && Covered(a, from, s, r)
    ensures Covered(a, from, s', r)
  {
    var k :| 0 <= k < |s| && Run(a, from, s[k], r);
    assert s'[k] == s[k];
  }

  lemma ColumnGrows<C>(a: seq<seq<C>>, from: C, s: seq<Point>, s': seq<Point>, c: int, yy: int)
    requires s <= s' && ColumnCovered(a, from, s, c, yy)
    ensures ColumnCovered(a, from, s', c, yy)
  {
    if InGrid(a, Point(c, yy - 1)) && a[yy - 1][c] == from {
      CoveredGrows(a, from, s, s', Point(c, yy - 1));
    }
    if InGrid(a, Point(c, yy + 1)) && a[yy + 1][c] == from {
      CoveredGrows(a, from, s, s', Point(c, yy + 1));
    }
  }

  /** Pushing seeds keeps the columns from `xx` up to (not including) `c` covered. */
  lemma ColumnsGrow<C>(a: seq<seq<C>>, from: C, s: seq<Point>, s': seq<Point>, yy: int, xx: int, c: int)
    requires s <= s'
    requires forall i :: i == xx || Between(xx, c, i) ==> ColumnCovered(a, from, s, i, yy)
    ensures forall i :: i == xx || Between(xx, c, i) ==> ColumnCovered(a, from, s', i, yy)
  {
    forall i | i == xx || Between(xx, c, i)
      ensures ColumnCovered(a, from, s', i, yy)
    {
      ColumnGrows(a, from, s, s', i, yy);
    }
  }

  /** One more column of a walk in direction `dir`: the columns from `xx`
      up to `c`, now including `c`, stay covered when seeds are pushed. */
  lemma ColumnsStep<C>(a: seq<seq<C>>, from: C, s: seq<Point>, s': seq<Point>, yy: int, xx: int, c: int, dir: int)
    requires s <= s' && (dir == -1 || dir == 1) && (if dir < 0 then c < xx else xx < c)
    requires forall i :: i == xx || Between(xx, c, i) ==> ColumnCovered(a, from, s, i, yy)
    requires ColumnCovered(a, from, s', c, yy)
    ensures forall i :: i == xx || Between(xx, c + dir, i) ==> ColumnCovered(a, from, s', i, yy)
  {
    forall i | i == xx || Between(xx, c + dir, i)
      ensures ColumnCovered(a, from, s', i, yy)
    {
      if i != c {
        ColumnGrows(a, from, s, s', i, yy);
      }
    }
  }

  /** A covered pixel passes its cover on to a neighbour in its row that
      holds `from`. */
  lemma CoveredExtends<C>(a: seq<seq<C>>, from: C, s: seq<Point>, prev: int, c: int, ny: int)
    requires Covered(a, from, s, Point(prev, ny)) && (c == prev - 1 || c == prev + 1)
    requires InGrid(a, Point(c, ny)) && a[ny][c] == from
    ensures Covered(a, from, s, Point(c, ny))
  {
    var k :| 0 <= k < |s| && Run(a, from, s[k], Point(prev, ny));
    assert Run(a, from, s[k], Point(c, ny));
  }

  /** A stretch `l`..`h` of `from` pixels that meets the columns `lo`..`hi`
      of a row, where the pixels just outside `lo`..`hi` do not hold `from`,
      lies inside `lo`..`hi`. */
  lemma RunInside<C>(row: seq<C>, from: C, l: int, h: int, lo: int, hi: int)
    requires 0 <= l <= h < |row| && forall i :: l <= i <= h ==> row[i] == from
    requires 0 <= lo <= hi < |row|
    requires lo == 0 || row[lo - 1] != from
    requires hi == |row| - 1 || row[hi + 1] != from
    ensures l <= hi && lo <= h ==> lo <= l && h <= hi
  {
  }

  /** The rows `A` are the rows `B` with columns `lo`..`hi` of row `yy`
      painted `color`. */
  ghost predicate PaintedSpan<C>(B: seq<seq<C>>, A: seq<seq<C>>, color: C, yy: int, lo: int, hi: int)
  {
    |A| == |B| && (forall j :: 0 <= j < |B| ==> |A[j]| == |B[j]|)
    && forall j, i :: 0 <= j < |B| && 0 <= i < |B[j]| ==>
      A[j][i] == if j == yy && lo <= i <= hi then color else B[j][i]
  }

  /** A run that stays clear of the painted columns survives the painting. */
  lemma RunKept<C>(B: seq<seq<C>>, A: seq<seq<C>>, from: C, color: C, yy: int, lo: int, hi: int, t: Point, r: Point)
    requires PaintedSpan(B, A, color, yy, lo, hi) && Run(B, from, t, r)
    requires r.y != yy || Max(t.x, r.x) < lo || hi < Min(t.x, r.x)
    ensures Run(A, from, t, r)
  {
  }

  /** A neighbour of a pixel painted by the round that still holds `from`
      lies above or below it, where the round's seeds cover it. */
  lemma FreshCovered<C>(B: seq<seq<C>>, A: seq<seq<C>>, from: C, color: C, s': seq<Point>,
                        yy: int, lo: int, hi: int, q: Point, r: Point)
    requires color != from && PaintedSpan(B, A, color, yy, lo, hi)
    requires 0 <= yy < |B| && 0 <= lo <= hi < |B[yy]|
    requires lo == 0 || B[yy][lo - 1] != from
    requires hi == |B[yy]| - 1 || B[yy][hi + 1] != from
    requires forall c :: lo <= c <= hi ==> ColumnCovered(B, from, s', c, yy)
    requires Adjacent(q, r) && q.y == yy && lo <= q.x <= hi && InGrid(A, r) && A[r.y][r.x] == from
    ensures Covered(A, from, s', r)
  {
    assert r.y != yy;
    assert ColumnCovered(B, from, s', q.x, yy);
    var k :| 0 <= k < |s'| && Run(B, from, s'[k], r);
    RunKept(B, A, from, color, yy, lo, hi, s'[k], r);
  }

  /** A neighbour that a seed of `s` other than the popped top covered
      before the round, and that still holds `from`, stays covered: its run
      met no painted column, since a run that meets them lies inside them. */
  lemma KeptCovered<C>(B: seq<seq<C>>, A: seq<seq<C>>, from: C, color: C, s: seq<Point>, s': seq<Point>,
                       yy: int, lo: int, hi: int, r: Point, k: int)
    requires color != from && PaintedSpan(B, A, color, yy, lo, hi) && |s| > 0 && s[..|s| - 1] <= s'
    requires 0 <= yy < |B| && s[|s| - 1].y == yy && 0 <= lo <= s[|s| - 1].x <= hi < |B[yy]|
    requires lo == 0 || B[yy][lo - 1] != from
    requires hi == |B[yy]| - 1 || B[yy][hi + 1] != from
    requires 0 <= k < |s| && Run(B, from, s[k], r) && InGrid(A, r) && A[r.y][r.x] == from
    ensures Covered(A, from, s', r)
  {
    var t := s[k];
    var l, h := Min(t.x, r.x), Max(t.x, r.x);
    if r.y == yy {
      RunInside(B[yy], from, l, h, lo, hi);
      assert h < lo || hi < l;
    }
    RunKept(B, A, from, color, yy, lo, hi, t, r);
    assert k < |s| - 1;
    assert s'[k] == s[..|s| - 1][k] == t;
  }

  /** One round keeps the frontier covered.  The round popped the top seed
      of `s` and painted the columns `lo`..`hi` of its row, which contain the
      seed and are bounded by pixels other than `from`; the stack became
      `s'`, which keeps the rest of `s` and covers the `from` pixels above and
      below the painted columns. */
  lemma BorderStep<C>(g: seq<seq<C>>, B: seq<seq<C>>, A: seq<seq<C>>, from: C, color: C,
                      s: seq<Point>, s': seq<Point>, yy: int, lo: int, hi: int)
    requires color != from && |s| > 0 && s[..|s| - 1] <= s'
    requires PaintedSpan(B, A, color, yy, lo, hi)
    requires 0 <= yy < |B| && s[|s| - 1].y == yy && 0 <= lo <= s[|s| - 1].x <= hi < |B[yy]|
    requires lo == 0 || B[yy][lo - 1] != from
    requires hi == |B[yy]| - 1 || B[yy][hi + 1] != from
    requires forall c :: lo <= c <= hi ==> ColumnCovered(B, from, s', c, yy)
    requires Bordered(g, B, from, color, s)
    ensures Bordered(g, A, from, color, s')
  {
    forall q, r | Adjacent(q, r) && InGrid(g, q) && InGrid(A, q) && InGrid(A, r)
      && g[q.y][q.x] == from && A[q.y][q.x] == color && A[r.y][r.x] == from
      ensures Covered(A, from, s', r)
    {
      if q.y == yy && lo <= q.x <= hi {
        FreshCovered(B, A, from, color, s', yy, lo, hi, q, r);
      } else {
        assert B[q.y][q.x] == color && B[r.y][r.x] == from;
        var k :| 0 <= k < |s| && Run(B, from, s[k], r);
        KeptCovered(B, A, from, color, s, s', yy, lo, hi, r, k);
      }
    }
  }

  /** With no seed left, the painted region has no neighbour of the start
      colour, so a path of that colour from a painted pixel is painted all
      along. */
  lemma {:induction false} PathPainted<C>(g: seq<seq<C>>, a: seq<seq<C>>, from: C, color: C, path: seq<Point>, n: nat)
    requires color != from && |a| == |g| && forall j :: 0 <= j < |g| ==> |a[j]| == |g[j]|
    requires forall j, i :: 0 <= j < |g| && 0 <= i < |g[j]| ==> a[j][i] == g[j][i] || a[j][i] == color
    requires Bordered(g, a, from, color, [])
    requires IsPath(g, from, path) && 0 < n <= |path| && a[path[0].y][path[0].x] == color
    ensures a[path[n - 1].y][path[n - 1].x] == color
    decreases n
  {
    if n > 1 {
      PathPainted(g, a, from, color, path, n - 1);
      var q, r := path[n - 2], path[n - 1];
      assert Adjacent(q, r);
      assert a[r.y][r.x] != from;
    }
  }

  /** Completeness: when the stack is empty and the start is painted, every
      pixel connected to the start through the start colour is painted. */
  lemma Complete<C>(g: seq<seq<C>>, a: seq<seq<C>>, from: C, color: C, start: Point, q: Point)
    requires color != from && |a| == |g| && forall j :: 0 <= j < |g| ==> |a[j]| == |g[j]|
    requires forall j, i :: 0 <= j < |g| && 0 <= i < |g[j]| ==> a[j][i] == g[j][i] || a[j][i] == color
    requires Bordered(g, a, from, color, [])
    requires InGrid(g, start) && a[start.y][start.x] == color
    requires Connected(g, from, start, q)
    ensures InGrid(g, q) && a[q.y][q.x] == color
  {
    var path :| |path| > 0 && path[0] == start && path[|path| - 1] == q && IsPath(g, from, path);
    PathPainted(g, a, from, color, path, |path|);
  }

  /** The end of a connecting path lies in the grid and holds its colour. */
  lemma ConnectedEnd<C>(g: seq<seq<C>>, from: C, p: Point, q: Point)
    requires Connected(g, from, p, q)
    ensures InGrid(g, q) && g[q.y][q.x] == from
  {
    var path :| |path| > 0 && path[0] == p && path[|path| - 1] == q && IsPath(g, from, path);
    assert path[|path| - 1] == q;
  }

  /** Looks at the neighbour in row `ny` of column `c` while walking along
      row `yy`: a run of `from` pixels there gets one seed, pushed at the
      first column of the run.  `run` says whether the previous column `prev`
      of that row already belonged to a run, which then lies in the run of a
      seed of `s`.  Afterwards `run'` says whether the neighbour holds `from`,
      and if it does it lies in the run of a seed.  `B` holds the rows as the
      round found them; the walk never changes row `ny`. */
  method Neighbour<C(==)>(img: ImageBuffer<C>, c: int, ny: int, yy: int, color: C, from: C, run: bool,
                          ghost g: seq<seq<C>>, ghost start: Point, ghost B: seq<seq<C>>,
                          s: seq<Point>, ghost m: nat, ghost prev: int)
    returns (run': bool, s': seq<Point>)
    requires img.Valid() && 0 <= c < img.w && 0 <= ny < img.h && (ny == yy - 1 || ny == yy + 1) && color != from
    requires Shaped(B, img) && img.buf[ny, c] == B[ny][c]
    requires FromKept(B, g, from) && Connected(g, from, start, Point(c, yy))
    requires Reachable(g, from, start, s) && Pending(B, s, m, yy, from)
    requires run ==> (prev == c - 1 || prev == c + 1) && Covered(B, from, s, Point(prev, ny))
    ensures s' == s || (s' == s + [Point(c, ny)] && B[ny][c] == from)
    ensures s <= s' && Reachable(g, from, start, s') && Pending(B, s', m, yy, from)
    ensures run' <==> B[ny][c] == from
    ensures B[ny][c] == from ==> Covered(B, from, s', Point(c, ny))
  {
    run', s' := run, s;
    if run && img.buf[ny, c] != from {
      run' := false;
    } else if !run && img.buf[ny, c] == from {
      run' := true;
      s' := s + [Point(c, ny)];
      assert Run(B, from, s'[|s|], Point(c, ny));
      ConnectedStep(g, from, start, Point(c, yy), Point(c, ny));
      ReachablePush(g, from, start, s, Point(c, ny));
    }
    if run && img.buf[ny, c] == from {
      CoveredExtends(B, from, s, prev, c, ny);
    }
  }

  /** The termination argument of one round of `paintFill`: the round
      popped seed `whole[m]`, which no longer holds `from`, kept the rest of
      the stack and pushed only seeds that still hold `from`.  Either fewer
      pixels hold `from`, or the same ones do and one seed fewer on the
      stack has been repainted. */
  lemma Progress(live: set<Point>, now: set<Point>, dead: set<int>, whole: seq<Point>, s: seq<Point>, m: nat)
    requires now <= live && |whole| == m + 1 && whole[m] !in now && dead == DeadSeeds(live, whole)
    requires m <= |s| && (forall k :: 0 <= k < m ==> s[k] == whole[k])
    requires forall k :: m <= k < |s| ==> s[k] in now
    ensures |now| < |live| || (now == live && |DeadSeeds(now, s)| < |dead|)
  {
    if now != live {
      ProperSubsetSmaller(now, live);
    } else {
      assert DeadSeeds(now, s) <= dead - {m};
      ProperSubsetSmaller(DeadSeeds(now, s), dead);
    }
  }

  /** `Progress` in terms of the rows before and after a round that only
      painted `color`, repainted the popped seed, kept the rest of the stack
      and pushed only seeds holding `from`. */
  lemma RoundProgress<C>(before: seq<seq<C>>, after: seq<seq<C>>, from: C, color: C, s: seq<Point>, s': seq<Point>)
    requires color != from && |after| == |before| && |s| > 0
    requires forall j :: 0 <= j < |before| ==> |after[j]| == |before[j]|
    requires forall j, i :: 0 <= j < |before| && 0 <= i < |before[j]| ==>
      after[j][i] == before[j][i] || after[j][i] == color
    requires InGrid(after, s[|s| - 1]) && after[s[|s| - 1].y][s[|s| - 1].x] == color
    requires s[..|s| - 1] <= s'
    requires forall k :: |s| - 1 <= k < |s'| ==> InGrid(after, s'[k]) && after[s'[k].y][s'[k].x] == from
    ensures var live, now := FromSet(before, from), FromSet(after, from);
      |now| < |live| || (now == live && |DeadSeeds(now, s')| < |DeadSeeds(live, s)|)
  {
    var m := |s| - 1;
    FromSetShrinks(before, after, from, color);
    FromSetMember(after, from, s[m]);
    forall k | m <= k < |s'|
      ensures s'[k] in FromSet(after, from)
    {
      FromSetMember(after, from, s'[k]);
    }
    Progress(FromSet(before, from), FromSet(after, from), DeadSeeds(FromSet(before, from), s), s, s', m);
  }

  /** A seed below the top of the stack survives a round that keeps the
      rest of the stack. */
  lemma StillStacked(s: seq<Point>, s': seq<Point>, p: Point)
    requires |s| > 0 && s[..|s| - 1] <= s' && p in s && p != s[|s| - 1]
    ensures p in s'
  {
    var k :| 0 <= k < |s| && s[k] == p;
    assert s[..|s| - 1][k] == s'[k];
  }

  /** A seed connected to the start keeps every seed of the stack connected. */
  lemma ReachablePush<C>(g: seq<seq<C>>, from: C, start: Point, s: seq<Point>, p: Point)
    requires Reachable(g, from, start, s) && InGrid(g, p) && Connected(g, from, start, p)
    ensures Reachable(g, from, start, s + [p])
  {
  }

  /** The runs above and below pixel (c, yy), which is connected to the
      start, are checked; the seeds pushed are connected to the start too.
      Afterwards `up'` and `down'` say whether the pixels above and below
      hold `from`, and those that do lie in the run of a seed.  With both
      flags false this is the check of the pixels above and below a popped
      seed. */
  method Neighbours<C(==)>(img: ImageBuffer<C>, c: int, yy: int, color: C, from: C,
                           ghost g: seq<seq<C>>, ghost start: Point, ghost B: seq<seq<C>>,
                           up: bool, down: bool, s: seq<Point>, ghost m: nat, ghost prev: int)
    returns (up': bool, down': bool, s': seq<Point>)
    requires img.Valid() && img.InRange(c, yy) && color != from
    requires Shaped(B, img) && forall j :: 0 <= j < img.h && j != yy ==> img.buf[j, c] == B[j][c]
    requires FromKept(B, g, from) && Connected(g, from, start, Point(c, yy))
    requires Reachable(g, from, start, s) && Pending(B, s, m, yy, from)
    requires up ==> 0 < yy && (prev == c - 1 || prev == c + 1) && Covered(B, from, s, Point(prev, yy - 1))
    requires down ==> yy + 1 < img.h && (prev == c - 1 || prev == c + 1) && Covered(B, from, s, Point(prev, yy + 1))
    ensures s <= s' && Reachable(g, from, start, s') && Pending(B, s', m, yy, from)
    ensures up' <==> 0 < yy && B[yy - 1][c] == from
    ensures down' <==> yy + 1 < img.h && B[yy + 1][c] == from
    ensures ColumnCovered(B, from, s', c, yy)
  {
    up', down', s' := up, down, s;
    if yy > 0 {
      up', s' := Neighbour(img, c, yy - 1, yy, color, from, up, g, start, B, s', m, prev);
    }
    if yy + 1 < img.h {
      ghost var before := s';
      if down {
        CoveredGrows(B, from, s, before, Point(prev, yy + 1));
      }
      down', s' := Neighbour(img, c, yy + 1, yy, color, from, down, g, start, B, s', m, prev);
      if yy > 0 && B[yy - 1][c] == from {
        CoveredGrows(B, from, before, s', Point(c, yy - 1));
      }
    }
  }

  /** The state of a walk along row `yy` of the rows `B` from the seed
      column `xx` in direction `dir`, about to look at column `c`: the
      previous column is connected to the start; the stack `s'` extends `s`
      with seeds connected to the start that hold `from` off row `yy`; the
      columns walked so far held `from`; `up` and `down` say whether the
      pixels above and below the previous column hold `from`; and the `from`
      pixels above and below the columns from `xx` up to `c` are covered. */
  ghost predicate Walking<C>(B: seq<seq<C>>, g: seq<seq<C>>, from: C, start: Point, s: seq<Point>, s': seq<Point>,
                             m: nat, yy: int, xx: int, dir: int, c: int, up: bool, down: bool)
  {
    (dir == -1 || dir == 1) && 0 <= yy < |B| && (forall j :: 0 <= j < |B| ==> |B[j]| == |B[yy]|)
    && 0 <= xx < |B[yy]| && (if dir < 0 then -1 <= c < xx else xx < c <= |B[yy]|)
    && Connected(g, from, start, Point(c - dir, yy))
    && s <= s' && Reachable(g, from, start, s') && Pending(B, s', m, yy, from)
    && (forall i :: Between(xx, c, i) ==> B[yy][i] == from)
    && (up ==> 0 < yy && B[yy - 1][c - dir] == from)
    && (down ==> yy + 1 < |B| && B[yy + 1][c - dir] == from)
    && forall i :: i == xx || Between(xx, c, i) ==> ColumnCovered(B, from, s', i, yy)
  }

  /** A walk standing on a `from` pixel at column `c` may take it: the pixel
      is connected to the start, and a set run flag has its pixel covered. */
  lemma WalkReady<C>(B: seq<seq<C>>, g: seq<seq<C>>, from: C, start: Point, s: seq<Point>, s': seq<Point>,
                     m: nat, yy: int, xx: int, dir: int, c: int, up: bool, down: bool)
    requires Walking(B, g, from, start, s, s', m, yy, xx, dir, c, up, down)
    requires (dir == -1 || dir == 1) && FromKept(B, g, from) && 0 <= xx < |B[yy]| && 0 <= c < |B[yy]| && B[yy][c] == from
    ensures Connected(g, from, start, Point(c, yy))
    ensures up ==> 0 < yy && Covered(B, from, s', Point(c - dir, yy - 1))
    ensures down ==> yy + 1 < |B| && Covered(B, from, s', Point(c - dir, yy + 1))
  {
    ConnectedStep(g, from, start, Point(c - dir, yy), Point(c, yy));
    assert c - dir == xx || Between(xx, c, c - dir);
    assert ColumnCovered(B, from, s', c - dir, yy);
  }

  /** Taking column `c` keeps the walk's state, one column further on. */
  lemma WalkStep<C>(B: seq<seq<C>>, g: seq<seq<C>>, from: C, start: Point, s: seq<Point>, s0: seq<Point>, s': seq<Point>,
                    m: nat, yy: int, xx: int, dir: int, c: int, up: bool, down: bool, up': bool, down': bool)
    requires Walking(B, g, from, start, s, s0, m, yy, xx, dir, c, up, down)
    requires (dir == -1 || dir == 1) && 0 <= c < |B[yy]| && B[yy][c] == from && Connected(g, from, start, Point(c, yy))
    requires s0 <= s' && Reachable(g, from, start, s') && Pending(B, s', m, yy, from)
    requires up' <==> 0 < yy && B[yy - 1][c] == from
    requires down' <==> yy + 1 < |B| && B[yy + 1][c] == from
    requires ColumnCovered(B, from, s', c, yy)
    ensures Walking(B, g, from, start, s, s', m, yy, xx, dir, c + dir, up', down')
  {
    ColumnsStep(B, from, s0, s', yy, xx, c, dir);
  }

  /** The image during a walk along row `yy` from column `xx`, about to
      look at column `c`: the rows other than `yy` are still those of `B`,
      the columns strictly between `xx` and `c` are repainted, and the rest
      of row `yy` is still `R`, the row as the walk found it. */
  ghost predicate Swept<C>(img: ImageBuffer<C>, B: seq<seq<C>>, R: seq<C>, yy: int, xx: int, c: int, color: C)
    reads img, img.buf
  {
    img.Valid() && Shaped(B, img) && |R| == img.w && 0 <= yy < img.h
    && forall j, i :: 0 <= j < img.h && 0 <= i < img.w ==>
      img.buf[j, i] == if j != yy then B[j][i] else if Between(xx, c, i) then color else R[i]
  }

  /** One column of a horizontal walk: the runs above and below pixel
      (c, yy), which holds `from`, are checked and the walk moves on to the
      column `next`.  The image agrees with `B` off row `yy`. */
  method ScanColumn<C(==)>(img: ImageBuffer<C>, xx: int, yy: int, dir: int, c: int, next: int, color: C, from: C,
                           ghost g: seq<seq<C>>, ghost start: Point, ghost B: seq<seq<C>>,
                           up: bool, down: bool, ghost s: seq<Point>, s': seq<Point>, ghost m: nat)
    returns (up': bool, down': bool, s'': seq<Point>)
    requires img.Valid() && Shaped(B, img) && color != from && FromKept(B, g, from)
    requires Walking(B, g, from, start, s, s', m, yy, xx, dir, c, up, down)
    requires 0 <= c < img.w && B[yy][c] == from && next == c + dir
    requires forall j :: 0 <= j < img.h && j != yy ==> img.buf[j, c] == B[j][c]
    ensures Walking(B, g, from, start, s, s'', m, yy, xx, dir, next, up', down')
  {
    WalkReady(B, g, from, start, s, s', m, yy, xx, dir, c, up, down);
    up', down', s'' := Neighbours(img, c, yy, color, from, g, start, B, up, down, s', m, c - dir);
    WalkStep(B, g, from, start, s, s', s'', m, yy, xx, dir, c, up, down, up', down');
  }

  /** The loop of a horizontal walk: from column `xx + dir`, while the row
      holds `from`, each column is scanned and repainted.  The walk stops at
      column `c`, outside the canvas or not holding `from` in `B`, with the
      walk's state and image one column short of it. */
  method Walk<C(==)>(img: ImageBuffer<C>, xx: int, yy: int, dir: int, color: C, from: C,
                     ghost g: seq<seq<C>>, ghost start: Point, ghost B: seq<seq<C>>, ghost R: seq<C>,
                     up: bool, down: bool, s: seq<Point>, ghost m: nat)
    returns (s': seq<Point>, c: int, up': bool, down': bool)
    requires color != from && FromKept(B, g, from)
    requires Walking(B, g, from, start, s, s, m, yy, xx, dir, xx + dir, up, down)
    requires Swept(img, B, R, yy, xx, xx + dir, color)
    requires forall i :: 0 <= i < img.w && (if dir < 0 then i < xx else i > xx) ==> R[i] == B[yy][i]
    modifies img.buf
    ensures Walking(B, g, from, start, s, s', m, yy, xx, dir, c, up', down')
    ensures Swept(img, B, R, yy, xx, c, color)
    ensures 0 <= c < img.w ==> B[yy][c] != from
  {
    up', down' := up, down;
    s' := s;
    c := xx + dir;
    while 0 <= c < img.w && img.buf[yy, c] == from
      invariant Walking(B, g, from, start, s, s', m, yy, xx, dir, c, up', down')
      invariant Swept(img, B, R, yy, xx, c, color)
      decreases if dir < 0 then c + 1 else img.w - c
    {
      assert img.buf[yy, c] == R[c] == B[yy][c];
      var next := c + dir;
      up', down', s' := ScanColumn(img, xx, yy, dir, c, next, color, from, g, start, B, up', down', s, s', m);
      img.buf[yy, c] := color;
      c := next;
    }
  }

  /** One of the two horizontal walks of `paintFill` from the seed
      (xx, yy): leftwards (`dir == -1`) or rightwards (`dir == 1`) while the
      row holds `from`, repainting each pixel and seeding each run of `from`
      in the rows above and below.  `up` and `down` say whether the pixel
      above or below the seed holds `from`; it was then pushed.  The walk
      stops at column `stop`, outside the canvas or not holding `from`;
      exactly the columns strictly between `xx` and `stop` are repainted,
      they all held `from`, and the `from` pixels above and below them are
      covered.  `B` holds the rows as the round found them, which agree with
      the image except on the columns of row `yy` behind the walk. */
  method Scan<C(==)>(img: ImageBuffer<C>, xx: int, yy: int, dir: int, color: C, from: C,
                     ghost g: seq<seq<C>>, ghost start: Point, ghost B: seq<seq<C>>,
                     up: bool, down: bool, s: seq<Point>, ghost m: nat)
    returns (s': seq<Point>, ghost stop: int)
    requires img.Valid() && img.InRange(xx, yy) && (dir == -1 || dir == 1) && color != from
    requires Shaped(B, img)
    requires forall j, i :: 0 <= j < img.h && 0 <= i < img.w && (j != yy || (dir < 0 && i < xx) || (dir > 0 && i > xx)) ==>
      img.buf[j, i] == B[j][i]
    requires FromKept(B, g, from) && Connected(g, from, start, Point(xx, yy))
    requires Reachable(g, from, start, s) && Pending(B, s, m, yy, from)
    requires up ==> 0 < yy && B[yy - 1][xx] == from
    requires down ==> yy + 1 < img.h && B[yy + 1][xx] == from
    requires ColumnCovered(B, from, s, xx, yy)
    modifies img.buf
    ensures s <= s' && Reachable(g, from, start, s') && Pending(B, s', m, yy, from)
    ensures if dir < 0 then -1 <= stop < xx else xx < stop <= img.w
    ensures 0 <= stop < img.w ==> B[yy][stop] != from
    ensures forall i :: Between(xx, stop, i) ==> B[yy][i] == from
    ensures forall j, i :: 0 <= j < img.h && 0 <= i < img.w ==>
      img.buf[j, i] == if j == yy && Between(xx, stop, i) then color else old(img.buf[j, i])
    ensures forall i :: i == xx || Between(xx, stop, i) ==> ColumnCovered(B, from, s', i, yy)
  {
    ghost var R := img.LineBuffer(yy);
    assert forall i :: 0 <= i < img.w ==> R[i] == old(img.buf[yy, i]);
    assert forall i :: 0 <= i < img.w && (if dir < 0 then i < xx else i > xx) ==> R[i] == B[yy][i];
    var up', down';
    s', stop, up', down' := Walk(img, xx, yy, dir, color, from, g, start, B, R, up, down, s, m);
  }

  /** The start of a round: the pixels above and below the popped seed `p`
      are pushed when they hold `from`, and the seed is repainted. */
  method Seed<C(==)>(img: ImageBuffer<C>, p: Point, color: C, from: C,
                     ghost g: seq<seq<C>>, ghost start: Point, ghost B: seq<seq<C>>, s: seq<Point>)
    returns (up: bool, down: bool, s': seq<Point>)
    requires img.Valid() && img.InRange(p.x, p.y) && color != from
    requires Shaped(B, img) && forall j :: 0 <= j < img.h && j != p.y ==> img.buf[j, p.x] == B[j][p.x]
    requires FromKept(B, g, from) && Connected(g, from, start, p)
    requires Reachable(g, from, start, s)
    modifies img.buf
    ensures s <= s' && Reachable(g, from, start, s') && Pending(B, s', |s|, p.y, from)
    ensures up <==> 0 < p.y && B[p.y - 1][p.x] == from
    ensures down <==> p.y + 1 < img.h && B[p.y + 1][p.x] == from
    ensures ColumnCovered(B, from, s', p.x, p.y)
    ensures forall j, i :: 0 <= j < img.h && 0 <= i < img.w ==>
      img.buf[j, i] == if (i, j) == (p.x, p.y) then color else old(img.buf[j, i])
  {
    up, down, s' := Neighbours(img, p.x, p.y, color, from, g, start, B, false, false, s, |s|, p.x);
    img.buf[p.y, p.x] := color;
  }

  /** The work of one round on the popped seed `p`, which is connected to
      the start: seed the rows above and below it and walk left and right
      from it.  Exactly the columns `lo`..`hi` of its row are painted; they
      contain the seed, the others among them held `from`, the pixels just
      outside them do not hold `from`, and the `from` pixels above and below
      them are covered by seeds.  `B` holds the rows as the round found
      them. */
  method Spread<C(==)>(img: ImageBuffer<C>, p: Point, color: C, from: C,
                       ghost g: seq<seq<C>>, ghost start: Point, ghost B: seq<seq<C>>, s: seq<Point>)
    returns (s': seq<Point>, ghost lo: int, ghost hi: int)
    requires img.Valid() && img.InRange(p.x, p.y) && color != from
    requires Shaped(B, img) && forall j, i :: 0 <= j < img.h && 0 <= i < img.w ==> img.buf[j, i] == B[j][i]
    requires FromKept(B, g, from) && Connected(g, from, start, p)
    requires Reachable(g, from, start, s)
    modifies img.buf
    ensures s <= s' && Reachable(g, from, start, s') && Pending(B, s', |s|, p.y, from)
    ensures 0 <= lo <= p.x <= hi < img.w
    ensures lo == 0 || B[p.y][lo - 1] != from
    ensures hi == img.w - 1 || B[p.y][hi + 1] != from
    ensures forall i :: lo <= i <= hi && i != p.x ==> B[p.y][i] == from
    ensures forall j, i :: 0 <= j < img.h && 0 <= i < img.w ==>
      img.buf[j, i] == if j == p.y && lo <= i <= hi then color else B[j][i]
    ensures forall c :: lo <= c <= hi ==> ColumnCovered(B, from, s', c, p.y)
  {
    var up, down;
    up, down, s' := Seed(img, p, color, from, g, start, B, s);
    ghost var stopL, stopR;
    s', stopL := Scan(img, p.x, p.y, -1, color, from, g, start, B, up, down, s', |s|);
    ghost var left := s';
    s', stopR := Scan(img, p.x, p.y, 1, color, from, g, start, B, up, down, s', |s|);
    ColumnsGrow(B, from, left, s', p.y, p.x, stopL);
    lo, hi := stopL + 1, stopR - 1;
  }

  /** Painting a span of a row, whose pixels other than the connected
      pixel (x, yy) held `from`, keeps the rows filled. */
  lemma SpanFilled<C>(g: seq<seq<C>>, B: seq<seq<C>>, A: seq<seq<C>>, from: C, color: C, start: Point,
                      yy: int, lo: int, hi: int, x: int)
    requires color != from && Filled(B, g, from, color, start) && PaintedSpan(B, A, color, yy, lo, hi)
    requires 0 <= yy < |B| && 0 <= lo <= x <= hi < |B[yy]| && Connected(g, from, start, Point(x, yy))
    requires forall i :: lo <= i <= hi && i != x ==> B[yy][i] == from
    ensures Filled(A, g, from, color, start)
  {
    ConnectedEnd(g, from, start, Point(x, yy));
    forall i | lo <= i <= hi
      ensures g[yy][i] == from && Connected(g, from, start, Point(i, yy))
    {
      RowConnected(g, from, start, yy, x, i);
    }
  }

  /** Pixels of a row holding `from` in `g` next to each other, one of them
      connected to the start, are all connected to the start. */
  lemma {:induction false} RowConnected<C>(g: seq<seq<C>>, from: C, start: Point, yy: int, x: int, i: int)
    requires 0 <= yy < |g| && 0 <= x < |g[yy]| && 0 <= i < |g[yy]|
    requires Connected(g, from, start, Point(x, yy))
    requires forall k :: Min(x, i) <= k <= Max(x, i) ==> g[yy][k] == from
    ensures Connected(g, from, start, Point(i, yy))
    decreases Abs(i - x)
  {
    if i != x {
      var j := if i < x then i + 1 else i - 1;
      RowConnected(g, from, start, yy, x, j);
      ConnectedStep(g, from, start, Point(j, yy), Point(i, yy));
    }
  }

  /** One round of the fill loop: pop the top seed, seed the rows above and
      below it, and walk left and right from it.  The round keeps the rest
      of the stack, repaints the popped seed, keeps the rows filled and
      every `from` neighbour of the painted pixels covered by a seed, and
      makes progress in the order used for termination. */
  method Round<C(==)>(img: ImageBuffer<C>, color: C, from: C, ghost g: seq<seq<C>>, ghost start: Point,
                      s: seq<Point>)
    returns (s': seq<Point>)
    requires img.Valid() && color != from && |s| > 0
    requires Shaped(g, img) && Filled(img.Rows(), g, from, color, start) && Reachable(g, from, start, s)
    requires Bordered(g, img.Rows(), from, color, s)
    modifies img.buf
    ensures s[..|s| - 1] <= s' && Reachable(g, from, start, s')
    ensures Filled(img.Rows(), g, from, color, start) && Bordered(g, img.Rows(), from, color, s')
    ensures forall j, i :: 0 <= j < img.h && 0 <= i < img.w ==> img.buf[j, i] == old(img.buf[j, i]) || img.buf[j, i] == color
    ensures img.InRange(s[|s| - 1].x, s[|s| - 1].y) && img.buf[s[|s| - 1].y, s[|s| - 1].x] == color
    ensures var live, now := old(FromSet(img.Rows(), from)), FromSet(img.Rows(), from);
      |now| < |live| || (now == live && |DeadSeeds(now, s')| < |DeadSeeds(live, s)|)
  {
    ghost var before := img.Rows();
    var p := s[|s| - 1];
    assert FromKept(before, g, from);
    ghost var lo, hi;
    s', lo, hi := Spread(img, p, color, from, g, start, before, s[..|s| - 1]);
    ghost var after := img.Rows();
    assert PaintedSpan(before, after, color, p.y, lo, hi);
    SpanFilled(g, before, after, from, color, start, p.y, lo, hi, p.x);
    assert Pending(after, s', |s| - 1, p.y, from);
    RoundProgress(before, after, from, color, s, s');
    BorderStep(g, before, after, from, color, s, s', p.y, lo, hi);
  }

  /** `paintFill(x, y, color)`.  Nothing changes when (x, y) lies outside
      the canvas or already holds `color`.  Otherwise exactly the pixels
      4-connected to the start through pixels of the start colour become
      `color`: every pixel that changes is one of them, and every one of
      them ends as `color`.  Each seed on the stack lies in the canvas.
      Completeness rests on the frontier (`Bordered`): each painted pixel's
      neighbour of the start colour lies in the run of a seed, so once the
      stack is empty the painted region has no such neighbour.  The walk
      ends because each round either repaints a pixel of the start colour
      or pops a seed repainted since it was pushed, pushing only seeds that
      still hold the start colour. */
  method PaintFill<C(==)>(img: ImageBuffer<C>, x: int, y: int, color: C)
    requires img.Valid()
    modifies img.buf
    ensures !img.InRange(x, y) || old(img.buf[y, x]) == color ==>
      forall j, i :: 0 <= j < img.h && 0 <= i < img.w ==> img.buf[j, i] == old(img.buf[j, i])
    ensures img.InRange(x, y) ==> img.buf[y, x] == color
    ensures img.InRange(x, y) ==>
      forall j, i :: 0 <= j < img.h && 0 <= i < img.w ==>
        img.buf[j, i] == old(img.buf[j, i])
        || (img.buf[j, i] == color && old(img.buf[j, i]) == old(img.buf[y, x])
            && Connected(old(img.Rows()), old(img.buf[y, x]), Point(x, y), Point(i, j)))
    ensures img.InRange(x, y) ==>
      forall j, i ::
        (0 <= j < img.h && 0 <= i < img.w
         && Connected(old(img.Rows()), old(img.buf[y, x]), Point(x, y), Point(i, j))) ==> img.buf[j, i] == color
  {
    if x < 0 || y < 0 || x >= img.w || y >= img.h {
      return;
    }
    var from := img.buf[y, x];
    if color == from {
      forall j, i | 0 <= j < img.h && 0 <= i < img.w && Connected(img.Rows(), from, Point(x, y), Point(i, j))
        ensures img.buf[j, i] == color
      {
        ConnectedEnd(img.Rows(), from, Point(x, y), Point(i, j));
      }
      return;
    }
    ghost var g := img.Rows();
    ghost var start := Point(x, y);
    ConnectedStart(g, from, start);
    var stack := [Point(x, y)];
    while |stack| > 0
      invariant Shaped(g, img) && Filled(img.Rows(), g, from, color, start)
      invariant Reachable(g, from, start, stack)
      invariant Bordered(g, img.Rows(), from, color, stack)
      invariant img.buf[y, x] == color || start in stack
      decreases |FromSet(img.Rows(), from)|, |DeadSeeds(FromSet(img.Rows(), from), stack)|
    {
      ghost var prev := stack;
      stack := Round(img, color, from, g, start, stack);
      if start in prev && start != prev[|prev| - 1] {
        StillStacked(prev, stack, start);
      }
    }
    ghost var a := img.Rows();
    forall j, i | 0 <= j < img.h && 0 <= i < img.w
      ensures a[j][i] == img.buf[j, i] && g[j][i] == old(img.buf[j, i])
    {
    }
    forall j, i | 0 <= j < img.h && 0 <= i < img.w && Connected(g, from, start, Point(i, j))
      ensures img.buf[j, i] == color
    {
      Complete(g, a, from, color, start, Point(i, j));
    }
  }
}
