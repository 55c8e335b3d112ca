/**
 * The busbar outline of dxf_exporter.cpp: the centroid of every cell ring,
 * the columns grouped into a negative terminal, interior pairs and a
 * positive terminal, and one closed polyline per group, a rectangle on a
 * square grid or a row-following path on a honeycomb grid.
 */
module Busbars {
  import opened Vector2
  import opened Wrappers
  import CellLayout

  /** dxf::Polyline, dxf::Circle and dxf::Drawing (dxf_exporter.h). */
  datatype Polyline = Polyline(pts: seq<Vec2>, closed: bool, layer: string)
  datatype Circle = Circle(cx: real, cy: real, r: real, layer: string)
  datatype Drawing = Drawing(polylines: seq<Polyline>, circles: seq<Circle>)

  /** The 1e30f start value of the min accumulators (its negation starts the max ones). */
  const Big: real := 1000000000000000000000000000000.0

  // ---------------------------------------------------------------------------
  // Centroids

  function SumX(p: seq<Vec2>): real
  {
    if |p| == 0 then 0.0 else SumX(p[..|p| - 1]) + p[|p| - 1].x
  }

  function SumY(p: seq<Vec2>): real
  {
    if |p| == 0 then 0.0 else SumY(p[..|p| - 1]) + p[|p| - 1].y
  }

  /** The vertex mean of a ring; the source divides by the point count, so a ring must not be empty. */
  function CentroidOf(p: seq<Vec2>): Vec2
    requires |p| > 0
  {
    Vec2(SumX(p) / |p| as real, SumY(p) / |p| as real)
  }

  lemma {:induction false} SumXBounds(p: seq<Vec2>, lo: real, hi: real)
    requires forall i :: 0 <= i < |p| ==> lo <= p[i].x <= hi
    ensures |p| as real * lo <= SumX(p) <= |p| as real * hi
  {
    if |p| > 0 {
      SumXBounds(p[..|p| - 1], lo, hi);
    }
  }

  lemma {:induction false} SumYBounds(p: seq<Vec2>, lo: real, hi: real)
    requires forall i :: 0 <= i < |p| ==> lo <= p[i].y <= hi
    ensures |p| as real * lo <= SumY(p) <= |p| as real * hi
  {
    if |p| > 0 {
      SumYBounds(p[..|p| - 1], lo, hi);
    }
  }

  /** The centroid lies in every axis-aligned box that holds all the ring's points. */
  lemma CentroidWithin(p: seq<Vec2>, xlo: real, xhi: real, ylo: real, yhi: real)
    requires |p| > 0
    requires forall i :: 0 <= i < |p| ==> xlo <= p[i].x <= xhi && ylo <= p[i].y <= yhi
    ensures xlo <= CentroidOf(p).x <= xhi && ylo <= CentroidOf(p).y <= yhi
  {
    var n := |p| as real;
    var c := CentroidOf(p);
    assert c.x == SumX(p) / n && c.y == SumY(p) / n;
    SumXBounds(p, xlo, xhi);
    MeanBetween(SumX(p), n, xlo, xhi);
    SumYBounds(p, ylo, yhi);
    MeanBetween(SumY(p), n, ylo, yhi);
  }

  lemma MeanBetween(s: real, n: real, lo: real, hi: real)
    requires n > 0.0 && n * lo <= s <= n * hi
    ensures lo <= s / n <= hi
  {
    var q := s / n;
    assert q * n == s;
    assert (q - lo) * n >= 0.0;
    assert (hi - q) * n >= 0.0;
  }

  /** centroid: the running sums of x and y divided by the point count. */
  method Centroid(p: seq<Vec2>) returns (c: Vec2)
    requires |p| > 0
    ensures c == CentroidOf(p)
  {
    var cx, cy := 0.0, 0.0;
    var i := 0;
    while i < |p|
      invariant 0 <= i <= |p|
      invariant cx == SumX(p[..i]) && cy == SumY(p[..i])
    {
      assert p[..i + 1][..i] == p[..i];
      cx := cx + p[i].x;
      cy := cy + p[i].y;
      i := i + 1;
    }
    assert p[..i] == p;
    c := Vec2(cx / |p| as real, cy / |p| as real);
  }

  /** Every cell ring 1..n exists and has at least one point. */
  predicate CellRingsPresent(rings: seq<seq<Vec2>>, n: nat)
  {
    |rings| >= 1 + n && forall j :: 1 <= j <= n ==> |rings[j]| > 0
  }

  /** C: entry k is the centroid of ring 1 + k, that is of cell (k / series, k % series). */
  function CentroidsOf(rings: seq<seq<Vec2>>, n: nat): (C: seq<Vec2>)
    requires CellRingsPresent(rings, n)
  {
    seq(n, k requires 0 <= k < n => CentroidOf(rings[1 + k]))
  }

  /** The centroid loop: rows outer, columns inner, so C is in row-major order. */
  method Centroids(rings: seq<seq<Vec2>>, series: nat, parallel: nat) returns (C: seq<Vec2>)
    requires CellRingsPresent(rings, series * parallel)
    ensures C == CentroidsOf(rings, series * parallel)
  {
    ghost var n := series * parallel;
    C := [];
    for r := 0 to parallel
      invariant |C| == r * series && |C| <= n
      invariant forall k :: 0 <= k < |C| ==> C[k] == CentroidOf(rings[1 + k])
    {
      for c := 0 to series
        invariant |C| == r * series + c && |C| <= n
        invariant forall k :: 0 <= k < |C| ==> C[k] == CentroidOf(rings[1 + k])
      {
        CellLayout.RowMajorBound(r, c, series, parallel);
        var p := Centroid(rings[1 + r * series + c]);
        C := C + [p];
      }
      MulMonotone(r + 1, parallel, series);
      assert r * series + series == (r + 1) * series;
    }
  }

  lemma MulMonotone(a: nat, b: nat, c: nat)
    requires a <= b
    ensures a * c <= b * c
  {
    assert b * c - a * c == (b - a) * c;
  }

  /** A point of the centroid grid; out-of-range positions read as the origin, which no caller reaches. */
  function Cell(C: seq<Vec2>, series: nat, r: nat, c: nat): Vec2
  {
    var k := Idx(series, r, c);
    if k < |C| then C[k] else Vec2(0.0, 0.0)
  }

  /** The row-major position r*series + c of cell (r, c). */
  function Idx(series: nat, r: nat, c: nat): nat
  {
    r * series + c
  }

  /** Every position below series*parallel is the row-major position of a cell of the grid. */
  lemma IdxCovers(series: nat, parallel: nat, k: nat)
    requires k < series * parallel
    ensures series > 0 && k / series < parallel && k % series < series
    ensures k == Idx(series, k / series, k % series)
  {
    if k / series >= parallel {
      MulMonotone(parallel, k / series, series);
    }
  }

  lemma CellIsEntry(C: seq<Vec2>, series: nat, parallel: nat, r: nat, c: nat)
    requires |C| == series * parallel && r < parallel && c < series
    ensures r * series + c < |C| && Cell(C, series, r, c) == C[r * series + c]
  {
    CellLayout.RowMajorBound(r, c, series, parallel);
  }

  // ---------------------------------------------------------------------------
  // Column groups

  /** The interior pairs {c, c+1}, {c+2, c+3}, ... while the second column is at most series - 1. */
  function PairGroups(c: nat, series: nat): seq<seq<nat>>
    decreases series - c
  {
    if c + 1 <= series - 1 then [[c, c + 1]] + PairGroups(c + 2, series) else []
  }

  /** The group list: {0} alone for at most one column, else {0}, the pairs from column 1, and {series-1}. */
  function Groups(series: nat): seq<seq<nat>>
  {
    if series <= 1 then [[0]] else [[0]] + PairGroups(1, series) + [[series - 1]]
  }

  lemma {:induction false} PairGroupsShape(c: nat, series: nat)
    requires c % 2 == 1
    ensures |PairGroups(c, series)| == if c + 1 <= series - 1 then (series - c) / 2 else 0
    ensures forall i :: 0 <= i < |PairGroups(c, series)| ==>
      PairGroups(c, series)[i] == [c + 2 * i, c + 2 * i + 1]
    decreases series - c
  {
    if c + 1 <= series - 1 {
      PairGroupsShape(c + 2, series);
      var rest := PairGroups(c + 2, series);
      assert PairGroups(c, series) == [[c, c + 1]] + rest;
      forall i | 0 < i < |PairGroups(c, series)|
        ensures PairGroups(c, series)[i] == [c + 2 * i, c + 2 * i + 1]
      {
        assert PairGroups(c, series)[i] == rest[i - 1];
      }
    }
  }

  /**
   * There are 2 + (series-1) div 2 groups from two columns on (one before):
   * {0} first, {series-1} last, and {2i-1, 2i} in position i between them.
   * Every column lies in some group, and no group names a column past the last.
   */
  lemma GroupsShape(series: nat)
    ensures |Groups(series)| == if series <= 1 then 1 else 2 + (series - 1) / 2
    ensures Groups(series)[0] == [0]
    ensures series >= 2 ==> Groups(series)[|Groups(series)| - 1] == [series - 1]
    ensures forall i :: 1 <= i < |Groups(series)| - 1 ==> Groups(series)[i] == [2 * i - 1, 2 * i]
    ensures forall i, j :: 0 <= i < |Groups(series)| && 0 <= j < |Groups(series)[i]| ==>
      Groups(series)[i][j] < if series == 0 then 1 else series
    ensures forall c :: 0 <= c < series ==> Covered(Groups(series), c)
  {
    var G := Groups(series);
    if series >= 2 {
      PairGroupsShape(1, series);
      var P := PairGroups(1, series);
      assert G == [[0]] + P + [[series - 1]];
      forall i | 1 <= i < |G| - 1 ensures G[i] == [2 * i - 1, 2 * i] {
        assert G[i] == P[i - 1];
      }
      forall c | 0 <= c < series ensures Covered(G, c) {
        if c == 0 {
          assert c in G[0];
        } else if c == series - 1 {
          assert c in G[|G| - 1];
        } else {
          var i := (c + 1) / 2;
          assert G[i] == [2 * i - 1, 2 * i];
          assert c in G[i];
        }
      }
    }
  }

  /**
   * With an odd number of columns, three or more, the last column is in the
   * final pair and in the final singleton.
   */
  lemma OddSeriesLastColumnTwice(series: nat)
    requires series >= 3 && series % 2 == 1
    ensures var G := Groups(series);
      G[|G| - 2] == [series - 2, series - 1] && G[|G| - 1] == [series - 1]
  {
    GroupsShape(series);
  }

  /** Column c belongs to some group of G. */
  predicate Covered(G: seq<seq<nat>>, c: nat)
  {
    exists i :: 0 <= i < |G| && c in G[i]
  }

  /** The group's kind: -1 for the singleton {0}, +1 for any other singleton, 0 for a pair. */
  function Kind(g: seq<nat>): int
  {
    if |g| == 1 then (if g[0] == 0 then -1 else 1) else 0
  }

  /** The layer tag of a group's polyline. */
  function Layer(kind: int): string
  {
    if kind == -1 then "B-" else if kind == 1 then "B+" else "BUSBAR"
  }

  /** The first group is the negative terminal, the last (from two columns on) the positive one, the rest pairs. */
  lemma GroupKinds(series: nat)
    ensures var G := Groups(series);
      Kind(G[0]) == -1 && Layer(Kind(G[0])) == "B-" &&
      (series >= 2 ==> Kind(G[|G| - 1]) == 1 && Layer(Kind(G[|G| - 1])) == "B+") &&
      (forall i :: 1 <= i < |G| - 1 ==> Kind(G[i]) == 0 && Layer(Kind(G[i])) == "BUSBAR")
  {
    GroupsShape(series);
  }

  /** The group loop: {0}, then the pairs while c + 1 <= series - 1, then {series-1}. */
  method BuildGroups(series: nat) returns (groups: seq<seq<nat>>)
    ensures groups == Groups(series)
  {
    if series <= 1 {
      groups := [[0]];
    } else {
      groups := [[0]];
      var c := 1;
      while c + 1 <= series - 1
        invariant c % 2 == 1 && c <= series
        invariant groups + PairGroups(c, series) == [[0]] + PairGroups(1, series)
        decreases series - c
      {
        groups := groups + [[c, c + 1]];
        c := c + 2;
      }
      groups := groups + [[series - 1]];
    }
  }

  /** halfGap: half the gap, negative gaps counting as none. */
  function HalfGap(gap: real): (h: real)
    ensures h >= 0.0
    ensures gap >= 0.0 ==> h + h == gap
    ensures gap <= 0.0 ==> h == 0.0
  {
    0.5 * (if gap > 0.0 then gap else 0.0)
  }

  // ---------------------------------------------------------------------------
  // Least and greatest values, with the sentinels the accumulators start from

  function Min(a: real, b: real): real
  {
    if b < a then b else a
  }

  function Max(a: real, b: real): real
  {
    if a < b then b else a
  }

  /** The min accumulator over xs, started at Big. */
  function Least(xs: seq<real>): real
  {
    if |xs| == 0 then Big else Min(Least(xs[..|xs| - 1]), xs[|xs| - 1])
  }

  /** The max accumulator over xs, started at -Big. */
  function Greatest(xs: seq<real>): real
  {
    if |xs| == 0 then -Big else Max(Greatest(xs[..|xs| - 1]), xs[|xs| - 1])
  }

  /** m is the least of Big and the entries of xs at the positions in seen. */
  predicate LeastOver(m: real, xs: seq<real>, seen: set<nat>)
  {
    m <= Big &&
    (forall k :: k in seen ==> k < |xs| && m <= xs[k]) &&
    (m == Big || exists k :: k in seen && k < |xs| && m == xs[k])
  }

  /** m is the greatest of -Big and the entries of xs at the positions in seen. */
  predicate GreatestOver(m: real, xs: seq<real>, seen: set<nat>)
  {
    m >= -Big &&
    (forall k :: k in seen ==> k < |xs| && m >= xs[k]) &&
    (m == -Big || exists k :: k in seen && k < |xs| && m == xs[k])
  }

  /** m is the least of Big and all the entries of xs. */
  predicate IsLeast(m: real, xs: seq<real>)
  {
    m <= Big &&
    (forall k :: 0 <= k < |xs| ==> m <= xs[k]) &&
    (m == Big || exists k :: 0 <= k < |xs| && m == xs[k])
  }

  /** m is the greatest of -Big and all the entries of xs. */
  predicate IsGreatest(m: real, xs: seq<real>)
  {
    m >= -Big &&
    (forall k :: 0 <= k < |xs| ==> m >= xs[k]) &&
    (m == -Big || exists k :: 0 <= k < |xs| && m == xs[k])
  }

  lemma LeastStep(m: real, xs: seq<real>, seen: set<nat>, k: nat)
    requires LeastOver(m, xs, seen) && k < |xs|
    ensures LeastOver(Min(m, xs[k]), xs, seen + {k})
  {
  }

  lemma GreatestStep(m: real, xs: seq<real>, seen: set<nat>, k: nat)
    requires GreatestOver(m, xs, seen) && k < |xs|
    ensures GreatestOver(Max(m, xs[k]), xs, seen + {k})
  {
  }

  /** Least(xs) is at most Big and every entry, and is Big or one of the entries. */
  lemma {:induction false} LeastIsLeast(xs: seq<real>)
    ensures IsLeast(Least(xs), xs)
  {
    if |xs| > 0 {
      var n := |xs| - 1;
      LeastIsLeast(xs[..n]);
      assert forall k :: 0 <= k < n ==> xs[..n][k] == xs[k];
    }
  }

  /** Greatest(xs) is at least -Big and every entry, and is -Big or one of the entries. */
  lemma {:induction false} GreatestIsGreatest(xs: seq<real>)
    ensures IsGreatest(Greatest(xs), xs)
  {
    if |xs| > 0 {
      var n := |xs| - 1;
      GreatestIsGreatest(xs[..n]);
      assert forall k :: 0 <= k < n ==> xs[..n][k] == xs[k];
    }
  }

  /** Any accumulation order that visits every position ends at Least(xs). */
  lemma LeastUnique(m: real, xs: seq<real>, seen: set<nat>)
    requires LeastOver(m, xs, seen)
    requires forall k :: 0 <= k < |xs| ==> k in seen
    ensures m == Least(xs)
  {
    LeastIsLeast(xs);
  }

  /** Any accumulation order that visits every position ends at Greatest(xs). */
  lemma GreatestUnique(m: real, xs: seq<real>, seen: set<nat>)
    requires GreatestOver(m, xs, seen)
    requires forall k :: 0 <= k < |xs| ==> k in seen
    ensures m == Greatest(xs)
  {
    GreatestIsGreatest(xs);
  }

  function Xs(C: seq<Vec2>): (xs: seq<real>)
    ensures |xs| == |C| && forall k :: 0 <= k < |C| ==> xs[k] == C[k].x
  {
    seq(|C|, k requires 0 <= k < |C| => C[k].x)
  }

  function Ys(C: seq<Vec2>): (ys: seq<real>)
    ensures |ys| == |C| && forall k :: 0 <= k < |C| ==> ys[k] == C[k].y
  {
    seq(|C|, k requires 0 <= k < |C| => C[k].y)
  }

  // ---------------------------------------------------------------------------
  // Square grid: one rectangle per group

  /** The x sum of column c over its first `rows` rows. */
  function ColumnSum(C: seq<Vec2>, series: nat, c: nat, rows: nat): real
  {
    if rows == 0 then 0.0 else ColumnSum(C, series, c, rows - 1) + Cell(C, series, rows - 1, c).x
  }

  /** meanX[c]: the column's x sum over max(1, parallel), so a grid without rows has means 0. */
  function MeanX(C: seq<Vec2>, series: nat, parallel: nat, c: nat): real
  {
    ColumnSum(C, series, c, parallel) / (if parallel < 1 then 1 else parallel) as real
  }

  /** The four accumulators hold the least and greatest x and y over the positions in seen. */
  predicate Extremes(minx: real, maxx: real, miny: real, maxy: real, C: seq<Vec2>, seen: set<nat>)
  {
    LeastOver(minx, Xs(C), seen) && GreatestOver(maxx, Xs(C), seen) &&
    LeastOver(miny, Ys(C), seen) && GreatestOver(maxy, Ys(C), seen)
  }

  lemma ExtremesStep(minx: real, maxx: real, miny: real, maxy: real, C: seq<Vec2>, seen: set<nat>, k: nat)
    requires Extremes(minx, maxx, miny, maxy, C, seen) && k < |C|
    ensures Extremes(Min(minx, C[k].x), Max(maxx, C[k].x), Min(miny, C[k].y), Max(maxy, C[k].y), C, seen + {k})
  {
    LeastStep(minx, Xs(C), seen, k);
    GreatestStep(maxx, Xs(C), seen, k);
    LeastStep(miny, Ys(C), seen, k);
    GreatestStep(maxy, Ys(C), seen, k);
  }

  /** Every cell in the first `rows` rows and the first `cols` columns has been visited. */
  predicate Seen(seen: set<nat>, series: nat, rows: nat, cols: nat)
  {
    forall r, c :: 0 <= r < rows && 0 <= c < cols ==> Idx(series, r, c) in seen
  }

  /** The positions of the first `rows` cells of column c. */
  function ColumnCells(series: nat, c: nat, rows: nat): set<nat>
  {
    if rows == 0 then {} else ColumnCells(series, c, rows - 1) + {Idx(series, rows - 1, c)}
  }

  /** ColumnCells holds exactly the positions of column c in rows below `rows`. */
  lemma {:induction false} ColumnCellsAre(series: nat, c: nat, rows: nat, k: nat)
    ensures k in ColumnCells(series, c, rows) <==> exists r :: 0 <= r < rows && k == Idx(series, r, c)
  {
    if rows > 0 {
      ColumnCellsAre(series, c, rows - 1, k);
    }
  }

  /** The first `rows` cells of column c have been visited. */
  predicate RowsSeen(seen: set<nat>, series: nat, c: nat, rows: nat)
  {
    forall r :: 0 <= r < rows ==> Idx(series, r, c) in seen
  }

  lemma RowsSeenStep(seen: set<nat>, series: nat, c: nat, r: nat)
    requires RowsSeen(seen, series, c, r)
    ensures RowsSeen(seen + {Idx(series, r, c)}, series, c, r + 1)
  {
  }

  lemma ColumnsSeenStep(before: set<nat>, seen: set<nat>, series: nat, parallel: nat, c: nat)
    requires Seen(before, series, parallel, c) && before <= seen
    requires RowsSeen(seen, series, c, parallel)
    ensures Seen(seen, series, parallel, c + 1)
  {
    forall r, c' | 0 <= r < parallel && 0 <= c' < c + 1 ensures Idx(series, r, c') in seen {
      if c' < c {
        assert Idx(series, r, c') in before;
      }
    }
  }

  /** Having visited every column of the grid is having visited every position below series*parallel. */
  lemma AllSeen(seen: set<nat>, series: nat, parallel: nat)
    requires Seen(seen, series, parallel, series)
    ensures forall k :: 0 <= k < series * parallel ==> k in seen
  {
    forall k | 0 <= k < series * parallel ensures k in seen {
      IdxCovers(series, parallel, k);
    }
  }

  /** The column's state after its first `rows` cells: their x sum and the accumulators over every index seen. */
  predicate ColumnUpTo(C: seq<Vec2>, series: nat, c: nat, rows: nat, sx: real,
                       minx: real, maxx: real, miny: real, maxy: real, seen0: set<nat>, seen: set<nat>)
  {
    sx == ColumnSum(C, series, c, rows) && Extremes(minx, maxx, miny, maxy, C, seen) &&
    seen == seen0 + ColumnCells(series, c, rows) && RowsSeen(seen, series, c, rows)
  }

  /** The body of the row loop for the cell in (r, c): add its x, fold it into the accumulators. */
  method VisitCell(C: seq<Vec2>, series: nat, parallel: nat, c: nat, r: nat, sx0: real,
                   minx0: real, maxx0: real, miny0: real, maxy0: real, ghost seenStart: set<nat>, ghost seen0: set<nat>)
    returns (sx: real, minx: real, maxx: real, miny: real, maxy: real, ghost seen: set<nat>)
    requires |C| == series * parallel && c < series && r < parallel
    requires ColumnUpTo(C, series, c, r, sx0, minx0, maxx0, miny0, maxy0, seenStart, seen0)
    ensures ColumnUpTo(C, series, c, r + 1, sx, minx, maxx, miny, maxy, seenStart, seen)
    ensures Idx(series, r, c) < |C| && seen == seen0 + {Idx(series, r, c)}
    ensures sx == sx0 + C[Idx(series, r, c)].x
    ensures minx == Min(minx0, C[Idx(series, r, c)].x) && maxx == Max(maxx0, C[Idx(series, r, c)].x)
    ensures miny == Min(miny0, C[Idx(series, r, c)].y) && maxy == Max(maxy0, C[Idx(series, r, c)].y)
  {
    CellIsEntry(C, series, parallel, r, c);
    var k := Idx(series, r, c);
    var P := C[k];
    sx := sx0 + P.x;
    ExtremesStep(minx0, maxx0, miny0, maxy0, C, seen0, k);
    RowsSeenStep(seen0, series, c, r);
    minx := Min(minx0, P.x);
    maxx := Max(maxx0, P.x);
    miny := Min(miny0, P.y);
    maxy := Max(maxy0, P.y);
    seen := seen0 + {k};
  }

  /** The row loop over one column c: its x sum, and the accumulators carried over its cells. */
  method ColumnPass(C: seq<Vec2>, series: nat, parallel: nat, c: nat,
                    minx0: real, maxx0: real, miny0: real, maxy0: real, ghost seen0: set<nat>)
    returns (sx: real, minx: real, maxx: real, miny: real, maxy: real, ghost seen: set<nat>)
    requires |C| == series * parallel && c < series
    requires Extremes(minx0, maxx0, miny0, maxy0, C, seen0)
    ensures sx == ColumnSum(C, series, c, parallel)
    ensures Extremes(minx, maxx, miny, maxy, C, seen)
    ensures seen == seen0 + ColumnCells(series, c, parallel) && RowsSeen(seen, series, c, parallel)
  {
    sx, minx, maxx, miny, maxy, seen := 0.0, minx0, maxx0, miny0, maxy0, seen0;
    for r := 0 to parallel
      invariant ColumnUpTo(C, series, c, r, sx, minx, maxx, miny, maxy, seen0, seen)
    {
      sx, minx, maxx, miny, maxy, seen := VisitCell(C, series, parallel, c, r, sx, minx, maxx, miny, maxy, seen0, seen);
    }
  }

  /**
   * The column loop of the square branch: the mean x of every column and,
   * visited column by column, the least and greatest x and y of all
   * centroids, starting from the sentinels.
   */
  method ColumnStats(C: seq<Vec2>, series: nat, parallel: nat)
    returns (meanX: seq<real>, minx: real, maxx: real, miny: real, maxy: real)
    requires |C| == series * parallel
    ensures |meanX| == series && forall c :: 0 <= c < series ==> meanX[c] == MeanX(C, series, parallel, c)
    ensures minx == Least(Xs(C)) && maxx == Greatest(Xs(C))
    ensures miny == Least(Ys(C)) && maxy == Greatest(Ys(C))
  {
    ghost var seen: set<nat> := {};
    meanX := [];
    minx, maxx, miny, maxy := Big, -Big, Big, -Big;
    for c := 0 to series
      invariant |meanX| == c && forall c' :: 0 <= c' < c ==> meanX[c'] == MeanX(C, series, parallel, c')
      invariant Extremes(minx, maxx, miny, maxy, C, seen)
      invariant Seen(seen, series, parallel, c)
    {
      var sx;
      ghost var before := seen;
      sx, minx, maxx, miny, maxy, seen := ColumnPass(C, series, parallel, c, minx, maxx, miny, maxy, seen);
      ColumnsSeenStep(before, seen, series, parallel, c);
      meanX := meanX + [sx / (if parallel < 1 then 1 else parallel) as real];
    }
    AllSeen(seen, series, parallel);
    LeastUnique(minx, Xs(C), seen);
    GreatestUnique(maxx, Xs(C), seen);
    LeastUnique(miny, Ys(C), seen);
    GreatestUnique(maxy, Ys(C), seen);
  }

  /** midX: the midpoint between neighbouring column means, so it has one entry fewer. */
  method Midpoints(meanX: seq<real>) returns (midX: seq<real>)
    requires |meanX| >= 1
    ensures |midX| == |meanX| - 1
    ensures forall j :: 0 <= j < |midX| ==> midX[j] + midX[j] == meanX[j] + meanX[j + 1]
  {
    midX := [];
    for c := 1 to |meanX|
      invariant |midX| == c - 1
      invariant forall j :: 0 <= j < |midX| ==> midX[j] + midX[j] == meanX[j] + meanX[j + 1]
    {
      midX := midX + [0.5 * (meanX[c - 1] + meanX[c])];
    }
  }

  /** A group's columns: one or two columns of the grid. */
  predicate GroupIn(g: seq<nat>, series: nat)
  {
    1 <= |g| <= 2 && forall j :: 0 <= j < |g| ==> g[j] < series
  }

  lemma GroupsIn(series: nat)
    requires series >= 1
    ensures forall i :: 0 <= i < |Groups(series)| ==> GroupIn(Groups(series)[i], series)
  {
    GroupsShape(series);
  }

  /** A closed four-corner outline (xL,y0), (xR,y0), (xR,y1), (xL,y1). */
  function Rectangle(xL: real, xR: real, y0: real, y1: real, layer: string): Polyline
  {
    Polyline([Vec2(xL, y0), Vec2(xR, y0), Vec2(xR, y1), Vec2(xL, y1)], true, layer)
  }

  /** The left edge before column c: the outer left edge before the first column, else the midpoint before it. */
  function MidLeft(midX: seq<real>, outerL: real, c: nat): real
    requires c <= |midX|
  {
    if c == 0 then outerL else midX[c - 1]
  }

  /** The right edge after column c: the outer right edge after the last column, else the midpoint after it. */
  function MidRight(midX: seq<real>, outerR: real, c: nat): real
  {
    if c >= |midX| then outerR else midX[c]
  }

  /**
   * The x extent of a group's rectangle, midX having one entry per pair of
   * neighbouring columns. Terminal edges lie on the outer edges; between
   * groups the edge is the midpoint of the neighbouring columns, moved
   * halfGap into the group.
   */
  function SquareEdges(g: seq<nat>, midX: seq<real>, outerL: real, outerR: real, halfGap: real): (real, real)
    requires GroupIn(g, |midX| + 1)
  {
    var kind := Kind(g);
    if kind == -1 then (outerL, MidRight(midX, outerR, 0) - halfGap)
    else if kind == 1 then (MidLeft(midX, outerL, |midX|) + halfGap, outerR)
    else (MidLeft(midX, outerL, g[0]) + halfGap, MidRight(midX, outerR, g[1]) - halfGap)
  }

  /**
   * The same extent as the source reads it, straight from midX: None where
   * it indexes midX out of range (index 0 of an empty midX for a single
   * column, index series-1 for the last pair of an odd column count).
   */
  function AsWrittenSquareEdges(g: seq<nat>, midX: seq<real>, outerL: real, outerR: real, halfGap: real): Option<(real, real)>
    requires GroupIn(g, |midX| + 1)
  {
    var kind := Kind(g);
    if kind == -1 then
      (if 0 < |midX| then Some((outerL, midX[0] - halfGap)) else None)
    else if kind == 1 then
      (if 0 <= |midX| - 1 then Some((midX[|midX| - 1] + halfGap, outerR)) else None)
    else
      (if 0 <= g[0] - 1 < |midX| && g[1] < |midX| then Some((midX[g[0] - 1] + halfGap, midX[g[1]] - halfGap)) else None)
  }

  /** Where the source's reads stay within midX it computes exactly the guarded extent. */
  lemma AsWrittenAgrees(g: seq<nat>, midX: seq<real>, outerL: real, outerR: real, halfGap: real)
    requires GroupIn(g, |midX| + 1)
    ensures AsWrittenSquareEdges(g, midX, outerL, outerR, halfGap).Some? ==>
      AsWrittenSquareEdges(g, midX, outerL, outerR, halfGap).value == SquareEdges(g, midX, outerL, outerR, halfGap)
  {
  }

  /**
   * The source's reads stay within midX for group i exactly when there are
   * at least two columns and group i is not the last pair of an odd column
   * count.
   */
  lemma AsWrittenInRange(series: nat, midX: seq<real>, outerL: real, outerR: real, halfGap: real, i: nat)
    requires series >= 1 && |midX| == series - 1 && i < |Groups(series)|
    ensures GroupIn(Groups(series)[i], series)
    ensures AsWrittenSquareEdges(Groups(series)[i], midX, outerL, outerR, halfGap).Some? <==>
      !(series == 1 || (series % 2 == 1 && i == |Groups(series)| - 2))
  {
    GroupsShape(series);
    GroupsIn(series);
    var G := Groups(series);
    if series == 1 {
      assert G[i] == [0];
    } else if i == 0 {
      assert G[i] == [0];
    } else if i == |G| - 1 {
      assert G[i] == [series - 1];
    } else {
      assert G[i] == [2 * i - 1, 2 * i];
      assert |G| == 2 + (series - 1) / 2;
    }
  }

  /** Three columns: the pair {1, 2} reads midX[2] of a two-entry midX; one column: {0} reads midX[0] of an empty one. */
  lemma AsWrittenOutOfRange(a: real, b: real, outerL: real, outerR: real, halfGap: real)
    ensures Groups(3)[1] == [1, 2] && AsWrittenSquareEdges([1, 2], [a, b], outerL, outerR, halfGap) == None
    ensures Groups(1) == [[0]] && AsWrittenSquareEdges([0], [], outerL, outerR, halfGap) == None
  {
    assert PairGroups(3, 3) == [];
    assert PairGroups(1, 3) == [[1, 2]];
  }

  /** The polyline of one group on a square grid. */
  function SquareBar(g: seq<nat>, midX: seq<real>, outerL: real, outerR: real, y0: real, y1: real, halfGap: real): Polyline
    requires GroupIn(g, |midX| + 1)
  {
    var e := SquareEdges(g, midX, outerL, outerR, halfGap);
    Rectangle(e.0, e.1, y0, y1, Layer(Kind(g)))
  }

  /** The square branch's polylines, one per group in group order. */
  function SquareBars(series: nat, midX: seq<real>, outerL: real, outerR: real, y0: real, y1: real, halfGap: real): seq<Polyline>
    requires series >= 1 && |midX| == series - 1
  {
    GroupsIn(series);
    var G := Groups(series);
    seq(|G|, i requires 0 <= i < |G| => SquareBar(G[i], midX, outerL, outerR, y0, y1, halfGap))
  }

  /** midX of the centroid grid. */
  function MidXOf(C: seq<Vec2>, series: nat, parallel: nat): seq<real>
    requires series >= 1
  {
    seq(series - 1, j requires 0 <= j < series - 1 => 0.5 * (MeanX(C, series, parallel, j) + MeanX(C, series, parallel, j + 1)))
  }

  /**
   * The square-grid drawing: the outer edges lie the side clearance beyond
   * the least and greatest centroid x, the rectangles span the least and
   * greatest centroid y widened by the end margin, and no circles.
   */
  function SquareDrawing(C: seq<Vec2>, series: nat, parallel: nat, clearance: real, endMargin: real, gap: real): Drawing
    requires series >= 1
  {
    Drawing(SquareBars(series, MidXOf(C, series, parallel),
                       Least(Xs(C)) - clearance, Greatest(Xs(C)) + clearance,
                       Least(Ys(C)) - endMargin, Greatest(Ys(C)) + endMargin, HalfGap(gap)),
            [])
  }

  /** SquareDrawing with its bounds already computed. */
  lemma SquareDrawingIs(C: seq<Vec2>, series: nat, parallel: nat, clearance: real, endMargin: real, gap: real,
                        outerL: real, outerR: real, y0: real, y1: real)
    requires series >= 1
    requires outerL == Least(Xs(C)) - clearance && outerR == Greatest(Xs(C)) + clearance
    requires y0 == Least(Ys(C)) - endMargin && y1 == Greatest(Ys(C)) + endMargin
    ensures SquareDrawing(C, series, parallel, clearance, endMargin, gap) ==
      Drawing(SquareBars(series, MidXOf(C, series, parallel), outerL, outerR, y0, y1, HalfGap(gap)), [])
  {
  }

  /** The group loop of the square branch, with the guarded edges. */
  method EmitSquareBars(groups: seq<seq<nat>>, series: nat, midX: seq<real>, outerL: real, outerR: real,
                        y0: real, y1: real, halfGap: real) returns (polylines: seq<Polyline>)
    requires series >= 1 && |midX| == series - 1 && groups == Groups(series)
    ensures polylines == SquareBars(series, midX, outerL, outerR, y0, y1, halfGap)
  {
    GroupsIn(series);
    polylines := [];
    for i := 0 to |groups|
      invariant polylines == SquareBars(series, midX, outerL, outerR, y0, y1, halfGap)[..i]
    {
      var g := groups[i];
      var kind := if |g| == 1 then (if g[0] == 0 then -1 else 1) else 0;
      var xL, xR;
      if kind == -1 {
        xL := outerL;
        xR := (if 0 >= series - 1 then outerR else midX[0]) - halfGap;
      } else if kind == 1 {
        xL := (if series - 1 <= 0 then outerL else midX[series - 2]) + halfGap;
        xR := outerR;
      } else {
        var c0, c1 := g[0], g[1];
        xL := (if c0 <= 0 then outerL else midX[c0 - 1]) + halfGap;
        xR := (if c1 >= series - 1 then outerR else midX[c1]) - halfGap;
      }
      var layer := if kind == -1 then "B-" else if kind == 1 then "B+" else "BUSBAR";
      polylines := polylines + [Polyline([Vec2(xL, y0), Vec2(xR, y0), Vec2(xR, y1), Vec2(xL, y1)], true, layer)];
    }
  }

  // ---------------------------------------------------------------------------
  // Honeycomb grid: one row-following path per group

  /** rowY: the y of each row's first centroid. */
  function RowY(C: seq<Vec2>, series: nat, parallel: nat): (rowY: seq<real>)
    ensures |rowY| == parallel
  {
    seq(parallel, r requires 0 <= r < parallel => Cell(C, series, r, 0).y)
  }

  /** midL_at: the midpoint between column col and the one before it in row r, or outerL at the first column. */
  function MidLAt(C: seq<Vec2>, series: nat, outerL: real, r: nat, col: int): real
  {
    if col <= 0 then outerL else 0.5 * (Cell(C, series, r, col - 1).x + Cell(C, series, r, col).x)
  }

  /** midR_at: the midpoint between column col and the one after it in row r, or outerR at the last column. */
  function MidRAt(C: seq<Vec2>, series: nat, outerR: real, r: nat, col: nat): real
  {
    if col >= series - 1 then outerR else 0.5 * (Cell(C, series, r, col).x + Cell(C, series, r, col + 1).x)
  }

  /** L[r]: the left edge of the group's band in row r. */
  function LeftEdge(C: seq<Vec2>, series: nat, g: seq<nat>, outerL: real, halfGap: real, r: nat): real
    requires 1 <= |g| <= 2
  {
    var kind := Kind(g);
    if kind == -1 then outerL
    else if kind == 1 then MidLAt(C, series, outerL, r, series - 1) + halfGap
    else MidLAt(C, series, outerL, r, g[0]) + halfGap
  }

  /** R[r]: the right edge of the group's band in row r. */
  function RightEdge(C: seq<Vec2>, series: nat, g: seq<nat>, outerR: real, halfGap: real, r: nat): real
    requires 1 <= |g| <= 2
  {
    var kind := Kind(g);
    if kind == -1 then MidRAt(C, series, outerR, r, 0) - halfGap
    else if kind == 1 then outerR
    else MidRAt(C, series, outerR, r, g[1]) - halfGap
  }

  /** The x of the left path in row r: outerL throughout for the negative terminal. */
  function PathLeftX(C: seq<Vec2>, series: nat, g: seq<nat>, outerL: real, halfGap: real, r: nat): real
    requires 1 <= |g| <= 2
  {
    if Kind(g) == -1 then outerL else LeftEdge(C, series, g, outerL, halfGap, r)
  }

  /** The x of the right path in row r: outerR throughout for the positive terminal. */
  function PathRightX(C: seq<Vec2>, series: nat, g: seq<nat>, outerR: real, halfGap: real, r: nat): real
    requires 1 <= |g| <= 2
  {
    if Kind(g) == 1 then outerR else RightEdge(C, series, g, outerR, halfGap, r)
  }

  /** The left side of a group's path: from yTop down through every row's y to yBot. */
  function LeftSide(C: seq<Vec2>, series: nat, parallel: nat, g: seq<nat>,
                    outerL: real, yTop: real, yBot: real, halfGap: real): seq<Vec2>
    requires parallel >= 1 && 1 <= |g| <= 2
  {
    var rowY := RowY(C, series, parallel);
    [Vec2(PathLeftX(C, series, g, outerL, halfGap, 0), yTop)] +
    seq(parallel, r requires 0 <= r < parallel => Vec2(PathLeftX(C, series, g, outerL, halfGap, r), rowY[r])) +
    [Vec2(PathLeftX(C, series, g, outerL, halfGap, parallel - 1), yBot)]
  }

  /** The right side of a group's path: from yBot back up through the rows in reverse to yTop. */
  function RightSide(C: seq<Vec2>, series: nat, parallel: nat, g: seq<nat>,
                     outerR: real, yTop: real, yBot: real, halfGap: real): seq<Vec2>
    requires parallel >= 1 && 1 <= |g| <= 2
  {
    var rowY := RowY(C, series, parallel);
    [Vec2(PathRightX(C, series, g, outerR, halfGap, parallel - 1), yBot)] +
    seq(parallel, i requires 0 <= i < parallel =>
      Vec2(PathRightX(C, series, g, outerR, halfGap, parallel - 1 - i), rowY[parallel - 1 - i])) +
    [Vec2(PathRightX(C, series, g, outerR, halfGap, 0), yTop)]
  }

  /** The outline of one group on a honeycomb grid: the left side, then the right side. */
  function HoneyPath(C: seq<Vec2>, series: nat, parallel: nat, g: seq<nat>,
                     outerL: real, outerR: real, yTop: real, yBot: real, halfGap: real): seq<Vec2>
    requires parallel >= 1 && 1 <= |g| <= 2
  {
    LeftSide(C, series, parallel, g, outerL, yTop, yBot, halfGap) +
    RightSide(C, series, parallel, g, outerR, yTop, yBot, halfGap)
  }

  /** The honeycomb branch's polylines, one per group in group order. */
  function HoneyBars(C: seq<Vec2>, series: nat, parallel: nat, outerL: real, outerR: real,
                     yTop: real, yBot: real, halfGap: real): seq<Polyline>
    requires series >= 1 && parallel >= 1
  {
    GroupsIn(series);
    var G := Groups(series);
    seq(|G|, i requires 0 <= i < |G| =>
      Polyline(HoneyPath(C, series, parallel, G[i], outerL, outerR, yTop, yBot, halfGap), true, Layer(Kind(G[i]))))
  }

  /**
   * The honeycomb drawing: the outer edges lie the side clearance beyond the
   * least and greatest centroid x, the paths run from the first row's y
   * less the end margin to the last row's y plus the end margin, and no
   * circles.
   */
  function HoneyDrawing(C: seq<Vec2>, series: nat, parallel: nat, clearance: real, endMargin: real, gap: real): Drawing
    requires series >= 1 && parallel >= 1
  {
    var rowY := RowY(C, series, parallel);
    Drawing(HoneyBars(C, series, parallel, Least(Xs(C)) - clearance, Greatest(Xs(C)) + clearance,
                      rowY[0] - endMargin, rowY[parallel - 1] + endMargin, HalfGap(gap)),
            [])
  }

  /** HoneyDrawing with its bounds already computed. */
  lemma HoneyDrawingIs(C: seq<Vec2>, series: nat, parallel: nat, clearance: real, endMargin: real, gap: real,
                       outerL: real, outerR: real, yTop: real, yBot: real)
    requires series >= 1 && parallel >= 1
    requires outerL == Least(Xs(C)) - clearance && outerR == Greatest(Xs(C)) + clearance
    requires yTop == RowY(C, series, parallel)[0] - endMargin
    requires yBot == RowY(C, series, parallel)[parallel - 1] + endMargin
    ensures HoneyDrawing(C, series, parallel, clearance, endMargin, gap) ==
      Drawing(HoneyBars(C, series, parallel, outerL, outerR, yTop, yBot, HalfGap(gap)), [])
  {
  }

  /** The row loop of the honeycomb branch: row ys, and the least and greatest x visited row by row. */
  method HoneyRows(C: seq<Vec2>, series: nat, parallel: nat) returns (rowY: seq<real>, minx: real, maxx: real)
    requires |C| == series * parallel && series >= 1
    ensures rowY == RowY(C, series, parallel)
    ensures minx == Least(Xs(C)) && maxx == Greatest(Xs(C))
  {
    ghost var seen: set<nat> := {};
    rowY := [];
    minx, maxx := Big, -Big;
    for r := 0 to parallel
      invariant rowY == RowY(C, series, parallel)[..r]
      invariant LeastOver(minx, Xs(C), seen) && GreatestOver(maxx, Xs(C), seen)
      invariant Seen(seen, series, r, series)
    {
      CellIsEntry(C, series, parallel, r, 0);
      rowY := rowY + [C[r * series + 0].y];
      ghost var before := seen;
      minx, maxx, seen := RowPass(C, series, parallel, r, minx, maxx, seen);
      RowsStep(before, seen, series, r);
    }
    AllSeen(seen, series, parallel);
    LeastUnique(minx, Xs(C), seen);
    GreatestUnique(maxx, Xs(C), seen);
  }

  /** The first `cols` cells of row r have been visited. */
  /** The positions of the first `cols` cells of row r. */
  function RowCells(series: nat, r: nat, cols: nat): set<nat>
  {
    if cols == 0 then {} else RowCells(series, r, cols - 1) + {Idx(series, r, cols - 1)}
  }

  /** RowCells holds exactly the positions of row r in columns below `cols`. */
  lemma {:induction false} RowCellsAre(series: nat, r: nat, cols: nat, k: nat)
    ensures k in RowCells(series, r, cols) <==> exists c :: 0 <= c < cols && k == Idx(series, r, c)
  {
    if cols > 0 {
      RowCellsAre(series, r, cols - 1, k);
    }
  }

  predicate RowSeen(seen: set<nat>, series: nat, r: nat, cols: nat)
  {
    forall c :: 0 <= c < cols ==> Idx(series, r, c) in seen
  }

  lemma RowsStep(before: set<nat>, seen: set<nat>, series: nat, r: nat)
    requires Seen(before, series, r, series) && before <= seen
    requires RowSeen(seen, series, r, series)
    ensures Seen(seen, series, r + 1, series)
  {
    forall r', c | 0 <= r' < r + 1 && 0 <= c < series ensures Idx(series, r', c) in seen {
      if r' < r {
        assert Idx(series, r', c) in before;
      }
    }
  }

  /** Row r's state after its first `cols` cells: the x accumulators over every index seen. */
  predicate RowUpTo(C: seq<Vec2>, series: nat, r: nat, cols: nat, minx: real, maxx: real,
                    seen0: set<nat>, seen: set<nat>)
  {
    LeastOver(minx, Xs(C), seen) && GreatestOver(maxx, Xs(C), seen) &&
    seen == seen0 + RowCells(series, r, cols) && RowSeen(seen, series, r, cols)
  }

  /** The body of the column loop for the cell in (r, c): fold its x into both accumulators. */
  method VisitRowCell(C: seq<Vec2>, series: nat, parallel: nat, r: nat, c: nat, minx0: real, maxx0: real,
                      ghost seenStart: set<nat>, ghost seen0: set<nat>)
    returns (minx: real, maxx: real, ghost seen: set<nat>)
    requires |C| == series * parallel && r < parallel && c < series
    requires RowUpTo(C, series, r, c, minx0, maxx0, seenStart, seen0)
    ensures RowUpTo(C, series, r, c + 1, minx, maxx, seenStart, seen)
    ensures Idx(series, r, c) < |C| && seen == seen0 + {Idx(series, r, c)}
    ensures minx == Min(minx0, C[Idx(series, r, c)].x) && maxx == Max(maxx0, C[Idx(series, r, c)].x)
  {
    CellIsEntry(C, series, parallel, r, c);
    var k := Idx(series, r, c);
    var x := C[k].x;
    LeastStep(minx0, Xs(C), seen0, k);
    GreatestStep(maxx0, Xs(C), seen0, k);
    minx := Min(minx0, x);
    maxx := Max(maxx0, x);
    seen := seen0 + {k};
  }

  /**
   * minx and maxx after row r's first cols cells, from minx0 and maxx0: they
   * are bounds of every x seen in the row and of the start values, and each
   * is its start value or one of those x.
   */
  predicate RowBounds(C: seq<Vec2>, series: nat, r: nat, cols: nat, minx0: real, maxx0: real, minx: real, maxx: real)
  {
    minx <= minx0 && maxx0 <= maxx &&
    (forall c :: 0 <= c < cols ==> Idx(series, r, c) < |C| && minx <= C[Idx(series, r, c)].x <= maxx) &&
    (minx == minx0 || exists c :: 0 <= c < cols && Idx(series, r, c) < |C| && minx == C[Idx(series, r, c)].x) &&
    (maxx == maxx0 || exists c :: 0 <= c < cols && Idx(series, r, c) < |C| && maxx == C[Idx(series, r, c)].x)
  }

  /** The column loop over one row r, carrying the x accumulators over its cells. */
  method RowPass(C: seq<Vec2>, series: nat, parallel: nat, r: nat, minx0: real, maxx0: real, ghost seen0: set<nat>)
    returns (minx: real, maxx: real, ghost seen: set<nat>)
    requires |C| == series * parallel && r < parallel
    requires LeastOver(minx0, Xs(C), seen0) && GreatestOver(maxx0, Xs(C), seen0)
    ensures LeastOver(minx, Xs(C), seen) && GreatestOver(maxx, Xs(C), seen)
    ensures seen == seen0 + RowCells(series, r, series) && RowSeen(seen, series, r, series)
    ensures RowBounds(C, series, r, series, minx0, maxx0, minx, maxx)
  {
    minx, maxx, seen := minx0, maxx0, seen0;
    for c := 0 to series
      invariant RowUpTo(C, series, r, c, minx, maxx, seen0, seen)
      invariant RowBounds(C, series, r, c, minx0, maxx0, minx, maxx)
    {
      ghost var minPrev, maxPrev := minx, maxx;
      minx, maxx, seen := VisitRowCell(C, series, parallel, r, c, minx, maxx, seen0, seen);
      RowBoundsStep(C, series, r, c, minx0, maxx0, minPrev, maxPrev, minx, maxx);
    }
  }

  lemma RowBoundsStep(C: seq<Vec2>, series: nat, r: nat, c: nat, minx0: real, maxx0: real,
                      minPrev: real, maxPrev: real, minx: real, maxx: real)
    requires RowBounds(C, series, r, c, minx0, maxx0, minPrev, maxPrev)
    requires Idx(series, r, c) < |C|
    requires minx == Min(minPrev, C[Idx(series, r, c)].x) && maxx == Max(maxPrev, C[Idx(series, r, c)].x)
    ensures RowBounds(C, series, r, c + 1, minx0, maxx0, minx, maxx)
  {
    if minx != minx0 && minx != minPrev {
      assert minx == C[Idx(series, r, c)].x;
    }
    if maxx != maxx0 && maxx != maxPrev {
      assert maxx == C[Idx(series, r, c)].x;
    }
  }

  /** The L and R loop for one group: its band's edges in every row. */
  method EdgeColumns(C: seq<Vec2>, series: nat, parallel: nat, g: seq<nat>, outerL: real, outerR: real, halfGap: real)
    returns (L: seq<real>, R: seq<real>)
    requires |C| == series * parallel && GroupIn(g, series)
    ensures |L| == parallel && |R| == parallel
    ensures forall r :: 0 <= r < parallel ==> L[r] == LeftEdge(C, series, g, outerL, halfGap, r)
    ensures forall r :: 0 <= r < parallel ==> R[r] == RightEdge(C, series, g, outerR, halfGap, r)
  {
    var kind := if |g| == 1 then (if g[0] == 0 then -1 else 1) else 0;
    L, R := [], [];
    for r := 0 to parallel
      invariant |L| == r && |R| == r
      invariant forall r' :: 0 <= r' < r ==> L[r'] == LeftEdge(C, series, g, outerL, halfGap, r')
      invariant forall r' :: 0 <= r' < r ==> R[r'] == RightEdge(C, series, g, outerR, halfGap, r')
    {
      var left, right;
      if kind == -1 {
        left := outerL;
        right := MidRAt(C, series, outerR, r, 0) - halfGap;
      } else if kind == 1 {
        left := MidLAt(C, series, outerL, r, series - 1) + halfGap;
        right := outerR;
      } else {
        var c0, c1 := g[0], g[1];
        left := MidLAt(C, series, outerL, r, c0) + halfGap;
        right := MidRAt(C, series, outerR, r, c1) - halfGap;
      }
      L, R := L + [left], R + [right];
    }
  }

  /** The left path loop: yTop, then every row's y, then yBot. */
  method EmitLeftPath(C: seq<Vec2>, series: nat, parallel: nat, g: seq<nat>, rowY: seq<real>, L: seq<real>,
                      outerL: real, yTop: real, yBot: real, halfGap: real)
    returns (leftPath: seq<Vec2>)
    requires parallel >= 1 && GroupIn(g, series)
    requires rowY == RowY(C, series, parallel) && |L| == parallel
    requires forall r :: 0 <= r < parallel ==> L[r] == LeftEdge(C, series, g, outerL, halfGap, r)
    ensures leftPath == LeftSide(C, series, parallel, g, outerL, yTop, yBot, halfGap)
  {
    var kind := if |g| == 1 then (if g[0] == 0 then -1 else 1) else 0;
    leftPath := [Vec2(if kind == -1 then outerL else L[0], yTop)];
    for r := 0 to parallel
      invariant |leftPath| == r + 1
      invariant leftPath[0] == Vec2(PathLeftX(C, series, g, outerL, halfGap, 0), yTop)
      invariant forall k :: 0 <= k < r ==> leftPath[1 + k] == Vec2(PathLeftX(C, series, g, outerL, halfGap, k), rowY[k])
    {
      leftPath := leftPath + [Vec2(if kind == -1 then outerL else L[r], rowY[r])];
    }
    leftPath := leftPath + [Vec2(if kind == -1 then outerL else L[parallel - 1], yBot)];
  }

  /** The right path loop: yBot, then the rows from the last to the first, then yTop. */
  method EmitRightPath(C: seq<Vec2>, series: nat, parallel: nat, g: seq<nat>, rowY: seq<real>, R: seq<real>,
                       outerR: real, yTop: real, yBot: real, halfGap: real)
    returns (rightPath: seq<Vec2>)
    requires parallel >= 1 && GroupIn(g, series)
    requires rowY == RowY(C, series, parallel) && |R| == parallel
    requires forall r :: 0 <= r < parallel ==> R[r] == RightEdge(C, series, g, outerR, halfGap, r)
    ensures rightPath == RightSide(C, series, parallel, g, outerR, yTop, yBot, halfGap)
  {
    var kind := if |g| == 1 then (if g[0] == 0 then -1 else 1) else 0;
    rightPath := [Vec2(if kind == 1 then outerR else R[parallel - 1], yBot)];
    var r := parallel - 1;
    while r >= 0
      invariant -1 <= r <= parallel - 1
      invariant |rightPath| == parallel - r
      invariant rightPath[0] == Vec2(PathRightX(C, series, g, outerR, halfGap, parallel - 1), yBot)
      invariant forall q :: r < q < parallel ==>
        rightPath[parallel - q] == Vec2(PathRightX(C, series, g, outerR, halfGap, q), rowY[q])
    {
      rightPath := rightPath + [Vec2(if kind == 1 then outerR else R[r], rowY[r])];
      r := r - 1;
    }
    rightPath := rightPath + [Vec2(if kind == 1 then outerR else R[0], yTop)];
    ghost var spec := RightSide(C, series, parallel, g, outerR, yTop, yBot, halfGap);
    forall k | 1 <= k <= parallel
      ensures rightPath[k] == spec[k]
    {
      var q := parallel - k;
      assert rightPath[parallel - q] == Vec2(PathRightX(C, series, g, outerR, halfGap, q), rowY[q]);
    }
  }

  /** The left and right path loops for one group, concatenated. */
  method EmitHoneyPath(C: seq<Vec2>, series: nat, parallel: nat, g: seq<nat>, rowY: seq<real>,
                       outerL: real, outerR: real, yTop: real, yBot: real, halfGap: real)
    returns (poly: seq<Vec2>)
    requires |C| == series * parallel && parallel >= 1 && GroupIn(g, series)
    requires rowY == RowY(C, series, parallel)
    ensures poly == HoneyPath(C, series, parallel, g, outerL, outerR, yTop, yBot, halfGap)
  {
    var L, R := EdgeColumns(C, series, parallel, g, outerL, outerR, halfGap);
    var leftPath := EmitLeftPath(C, series, parallel, g, rowY, L, outerL, yTop, yBot, halfGap);
    var rightPath := EmitRightPath(C, series, parallel, g, rowY, R, outerR, yTop, yBot, halfGap);
    poly := leftPath + rightPath;
  }

  /** The group loop of the honeycomb branch. */
  method EmitHoneyBars(C: seq<Vec2>, groups: seq<seq<nat>>, series: nat, parallel: nat, rowY: seq<real>,
                       outerL: real, outerR: real, yTop: real, yBot: real, halfGap: real)
    returns (polylines: seq<Polyline>)
    requires |C| == series * parallel && series >= 1 && parallel >= 1
    requires groups == Groups(series) && rowY == RowY(C, series, parallel)
    ensures polylines == HoneyBars(C, series, parallel, outerL, outerR, yTop, yBot, halfGap)
  {
    GroupsIn(series);
    polylines := [];
    for i := 0 to |groups|
      invariant polylines == HoneyBars(C, series, parallel, outerL, outerR, yTop, yBot, halfGap)[..i]
    {
      var g := groups[i];
      var kind := if |g| == 1 then (if g[0] == 0 then -1 else 1) else 0;
      var poly := EmitHoneyPath(C, series, parallel, g, rowY, outerL, outerR, yTop, yBot, halfGap);
      var layer := if kind == -1 then "B-" else if kind == 1 then "B+" else "BUSBAR";
      polylines := polylines + [Polyline(poly, true, layer)];
    }
  }

  // ---------------------------------------------------------------------------
  // busbars_series_groups

  /** What busbars_series_groups draws for the ring set. */
  function BusbarDrawing(rings: seq<seq<Vec2>>, series: nat, parallel: nat, honeycomb: bool,
                         clearance: real, endMargin: real, gap: real): Drawing
    requires series >= 1 && (honeycomb ==> parallel >= 1)
    requires CellRingsPresent(rings, series * parallel)
  {
    var C := CentroidsOf(rings, series * parallel);
    if honeycomb then HoneyDrawing(C, series, parallel, clearance, endMargin, gap)
    else SquareDrawing(C, series, parallel, clearance, endMargin, gap)
  }

  /**
   * busbars_series_groups: centroids, then per branch the edge statistics,
   * the groups and one closed polyline per group. The weld diameter only
   * feeds circles the source leaves commented out.
   */
  method BusbarsSeriesGroups(rings: seq<seq<Vec2>>, series: nat, parallel: nat, honeycomb: bool,
                             clearance: real, endMargin: real, weldDiameter: real, gap: real)
    returns (d: Drawing)
    requires series >= 1 && (honeycomb ==> parallel >= 1)
    requires CellRingsPresent(rings, series * parallel)
    ensures d == BusbarDrawing(rings, series, parallel, honeycomb, clearance, endMargin, gap)
  {
    var C := Centroids(rings, series, parallel);
    if !honeycomb {
      d := SquareBranch(C, series, parallel, clearance, endMargin, gap);
      return;
    }
    d := HoneyBranch(C, series, parallel, clearance, endMargin, gap);
  }

  /** The square branch: column statistics, midpoints, groups and rectangles. */
  method SquareBranch(C: seq<Vec2>, series: nat, parallel: nat, clearance: real, endMargin: real, gap: real)
    returns (d: Drawing)
    requires |C| == series * parallel && series >= 1
    ensures d == SquareDrawing(C, series, parallel, clearance, endMargin, gap)
  {
    var halfGap := HalfGap(gap);
    var meanX, minx, maxx, miny, maxy := ColumnStats(C, series, parallel);
    var midX := Midpoints(meanX);
    assert midX == MidXOf(C, series, parallel);
    var outerL, outerR := minx - clearance, maxx + clearance;
    var groups := BuildGroups(series);
    var y0, y1 := miny - endMargin, maxy + endMargin;
    var polylines := EmitSquareBars(groups, series, midX, outerL, outerR, y0, y1, halfGap);
    d := Drawing(polylines, []);
    SquareDrawingIs(C, series, parallel, clearance, endMargin, gap, outerL, outerR, y0, y1);
  }

  /** The honeycomb branch: row ys and x extremes, groups and row-following paths. */
  method HoneyBranch(C: seq<Vec2>, series: nat, parallel: nat, clearance: real, endMargin: real, gap: real)
    returns (d: Drawing)
    requires |C| == series * parallel && series >= 1 && parallel >= 1
    ensures d == HoneyDrawing(C, series, parallel, clearance, endMargin, gap)
  {
    var halfGap := HalfGap(gap);
    var rowY, minx, maxx := HoneyRows(C, series, parallel);
    var outerL, outerR := minx - clearance, maxx + clearance;
    var groups := BuildGroups(series);
    var yTop, yBot := rowY[0] - endMargin, rowY[parallel - 1] + endMargin;
    var polylines := EmitHoneyBars(C, groups, series, parallel, rowY, outerL, outerR, yTop, yBot, halfGap);
    d := Drawing(polylines, []);
    HoneyDrawingIs(C, series, parallel, clearance, endMargin, gap, outerL, outerR, yTop, yBot);
  }

  /**
   * The drawing has no circles and one closed polyline per group in group
   * order, on the group's layer: four points on a square grid, 2*parallel + 4
   * on a honeycomb grid.
   */
  lemma DrawingShape(rings: seq<seq<Vec2>>, series: nat, parallel: nat, honeycomb: bool,
                     clearance: real, endMargin: real, gap: real)
    requires series >= 1 && (honeycomb ==> parallel >= 1)
    requires CellRingsPresent(rings, series * parallel)
    ensures var d := BusbarDrawing(rings, series, parallel, honeycomb, clearance, endMargin, gap);
      var G := Groups(series);
      d.circles == [] && |d.polylines| == |G| &&
      forall i :: 0 <= i < |G| ==>
        d.polylines[i].closed && d.polylines[i].layer == Layer(Kind(G[i])) &&
        |d.polylines[i].pts| == if honeycomb then 2 * parallel + 4 else 4
  {
  }

  /**
   * On a square grid group i's rectangle spans the least centroid y less the
   * end margin to the greatest plus it; the negative terminal starts the
   * side clearance left of the least centroid x and ends halfGap before
   * midX[0], the positive one starts halfGap after midX[series-2] and ends
   * the clearance right of the greatest, and a pair {c0, c1} runs from
   * midX[c0-1] to midX[c1], each moved halfGap inwards (the outer edge again
   * where there is no such midpoint).
   */
  lemma SquareOutline(C: seq<Vec2>, series: nat, parallel: nat, clearance: real, endMargin: real, gap: real, i: nat)
    requires series >= 1 && i < |Groups(series)|
    ensures var G := Groups(series);
      var midX := MidXOf(C, series, parallel);
      var outerL, outerR := Least(Xs(C)) - clearance, Greatest(Xs(C)) + clearance;
      var y0, y1 := Least(Ys(C)) - endMargin, Greatest(Ys(C)) + endMargin;
      var pts := SquareDrawing(C, series, parallel, clearance, endMargin, gap).polylines[i].pts;
      |pts| == 4 && GroupIn(G[i], series) &&
      pts[0].y == y0 && pts[1].y == y0 && pts[2].y == y1 && pts[3].y == y1 &&
      pts[0].x == pts[3].x && pts[1].x == pts[2].x &&
      (Kind(G[i]) == -1 ==> pts[0].x == outerL && pts[1].x == MidRight(midX, outerR, 0) - HalfGap(gap)) &&
      (Kind(G[i]) == 1 ==> pts[0].x == MidLeft(midX, outerL, |midX|) + HalfGap(gap) && pts[1].x == outerR) &&
      (Kind(G[i]) == 0 ==> pts[0].x == MidLeft(midX, outerL, G[i][0]) + HalfGap(gap) &&
                           pts[1].x == MidRight(midX, outerR, G[i][1]) - HalfGap(gap))
  {
    GroupsIn(series);
  }

  /**
   * Neighbouring groups that do not share a column, the last column 2i of
   * group i next to the first column 2i + 1 of group i + 1, have rectangles
   * (SquareBar's x extent) separated by a gap of 2 halfGap centred on
   * midX[2i], the midpoint of those two column means.
   * (For an odd column count the last pair and the positive terminal share
   * column series-1, so that pair is excluded.)
   */
  lemma SquareBoundaryGap(series: nat, midX: seq<real>, outerL: real, outerR: real, halfGap: real, i: nat)
    requires series >= 1 && |midX| == series - 1
    requires i + 1 < |Groups(series)| && (series % 2 == 0 || i + 2 < |Groups(series)|)
    ensures var G := Groups(series);
      2 * i + 1 < series && GroupIn(G[i], series) && GroupIn(G[i + 1], series) &&
      G[i][|G[i]| - 1] == 2 * i && G[i + 1][0] == 2 * i + 1 &&
      SquareEdges(G[i], midX, outerL, outerR, halfGap).1 == midX[2 * i] - halfGap &&
      SquareEdges(G[i + 1], midX, outerL, outerR, halfGap).0 == midX[2 * i] + halfGap
  {
    GroupsShape(series);
    GroupsIn(series);
    var G := Groups(series);
    if i == 0 {
      assert G[i] == [0] && Kind(G[i]) == -1;
    } else {
      assert G[i] == [2 * i - 1, 2 * i] && Kind(G[i]) == 0;
    }
    if i + 1 == |G| - 1 {
      assert G[i + 1] == [series - 1] && Kind(G[i + 1]) == 1;
      assert series - 1 == 2 * i + 1;
    } else {
      assert G[i + 1] == [2 * i + 1, 2 * i + 2] && Kind(G[i + 1]) == 0;
    }
  }

  /**
   * Where the source reads past midX, the guarded edges fall back to the
   * outer edge: the last pair of an odd column count ends halfGap inside
   * outerR, and a single column spans outerL to halfGap inside outerR.
   */
  lemma GuardedEdges(C: seq<Vec2>, series: nat, parallel: nat, clearance: real, endMargin: real, gap: real)
    requires series >= 1 && (series == 1 || series % 2 == 1)
    ensures var G := Groups(series);
      var outerR := Greatest(Xs(C)) + clearance;
      var i := if series == 1 then 0 else |G| - 2;
      0 <= i < |G| &&
      var pts := SquareDrawing(C, series, parallel, clearance, endMargin, gap).polylines[i].pts;
      |pts| == 4 && pts[1].x == outerR - HalfGap(gap) &&
      (series == 1 ==> pts[0].x == Least(Xs(C)) - clearance)
  {
    GroupsShape(series);
    var G := Groups(series);
    var i := if series == 1 then 0 else |G| - 2;
    SquareOutline(C, series, parallel, clearance, endMargin, gap, i);
  }

  /**
   * On a honeycomb grid the first parallel + 2 points of group i's path are
   * its left side and the rest its right side (LeftSideAt and RightSideAt
   * give their points: each row's x on that row's edge L[r] or R[r]); the
   * negative terminal's left side lies wholly on outerL and the positive
   * terminal's right side wholly on outerR, and both sides pass every row's
   * y, down on the left and back up on the right.
   */
  lemma HoneyOutline(C: seq<Vec2>, series: nat, parallel: nat, g: seq<nat>,
                     outerL: real, outerR: real, yTop: real, yBot: real, halfGap: real)
    requires parallel >= 1 && 1 <= |g| <= 2
    ensures var p := HoneyPath(C, series, parallel, g, outerL, outerR, yTop, yBot, halfGap);
      var rowY := RowY(C, series, parallel);
      |p| == 2 * parallel + 4 &&
      p[..parallel + 2] == LeftSide(C, series, parallel, g, outerL, yTop, yBot, halfGap) &&
      p[parallel + 2..] == RightSide(C, series, parallel, g, outerR, yTop, yBot, halfGap) &&
      p[0].y == yTop && p[parallel + 1].y == yBot && p[parallel + 2].y == yBot && p[2 * parallel + 3].y == yTop &&
      (forall r :: 0 <= r < parallel ==> p[1 + r].y == rowY[r] && p[2 * parallel + 2 - r].y == rowY[r]) &&
      (Kind(g) == -1 ==> forall k :: 0 <= k < parallel + 2 ==> p[k].x == outerL) &&
      (Kind(g) == 1 ==> forall k :: parallel + 2 <= k < 2 * parallel + 4 ==> p[k].x == outerR)
  {
    var p := HoneyPath(C, series, parallel, g, outerL, outerR, yTop, yBot, halfGap);
    var l := LeftSide(C, series, parallel, g, outerL, yTop, yBot, halfGap);
    assert p[..parallel + 2] == l;
    forall r | 0 <= r < parallel ensures p[2 * parallel + 2 - r].y == RowY(C, series, parallel)[r] {
      var i := parallel - 1 - r;
      assert 2 * parallel + 2 - r == parallel + 3 + i;
    }
    if Kind(g) == 1 {
      forall k | parallel + 2 <= k < 2 * parallel + 4 ensures p[k].x == outerR {
        if parallel + 3 <= k < 2 * parallel + 3 {
          var i := k - (parallel + 3);
          assert p[k].x == PathRightX(C, series, g, outerR, halfGap, parallel - 1 - i);
        }
      }
    }
  }

  /** The points of the left side: the top, each row's L[r] at its y, then the bottom. */
  lemma LeftSideAt(C: seq<Vec2>, series: nat, parallel: nat, g: seq<nat>,
                   outerL: real, yTop: real, yBot: real, halfGap: real)
    requires parallel >= 1 && 1 <= |g| <= 2
    ensures var l := LeftSide(C, series, parallel, g, outerL, yTop, yBot, halfGap);
      var rowY := RowY(C, series, parallel);
      |l| == parallel + 2 &&
      l[0] == Vec2(LeftEdge(C, series, g, outerL, halfGap, 0), yTop) &&
      l[parallel + 1] == Vec2(LeftEdge(C, series, g, outerL, halfGap, parallel - 1), yBot) &&
      forall r :: 0 <= r < parallel ==> l[1 + r] == Vec2(LeftEdge(C, series, g, outerL, halfGap, r), rowY[r])
  {
  }

  /** The points of the right side: the bottom, each row's R[r] at its y from the last row up, then the top. */
  lemma RightSideAt(C: seq<Vec2>, series: nat, parallel: nat, g: seq<nat>,
                    outerR: real, yTop: real, yBot: real, halfGap: real)
    requires parallel >= 1 && 1 <= |g| <= 2
    ensures var q := RightSide(C, series, parallel, g, outerR, yTop, yBot, halfGap);
      var rowY := RowY(C, series, parallel);
      |q| == parallel + 2 &&
      q[0] == Vec2(RightEdge(C, series, g, outerR, halfGap, parallel - 1), yBot) &&
      q[parallel + 1] == Vec2(RightEdge(C, series, g, outerR, halfGap, 0), yTop) &&
      forall r :: 0 <= r < parallel ==> q[parallel - r] == Vec2(RightEdge(C, series, g, outerR, halfGap, r), rowY[r])
  {
    var q := RightSide(C, series, parallel, g, outerR, yTop, yBot, halfGap);
    forall r | 0 <= r < parallel
      ensures q[parallel - r] == Vec2(RightEdge(C, series, g, outerR, halfGap, r), RowY(C, series, parallel)[r])
    {
      var i := parallel - 1 - r;
      assert parallel - r == 1 + i;
      assert q[1 + i] == Vec2(PathRightX(C, series, g, outerR, halfGap, parallel - 1 - i), RowY(C, series, parallel)[parallel - 1 - i]);
    }
  }

  /**
   * On a honeycomb grid, in every row, the right edge of group i and the left
   * edge of group i + 1 (when they do not share a column) lie halfGap either
   * side of the midpoint between that row's centroids of columns 2i and 2i + 1.
   */
  lemma HoneyBoundaryGap(C: seq<Vec2>, series: nat, outerL: real, outerR: real, halfGap: real, i: nat, r: nat)
    requires series >= 1 && i + 1 < |Groups(series)| && (series % 2 == 0 || i + 2 < |Groups(series)|)
    ensures var G := Groups(series);
      var mid := 0.5 * (Cell(C, series, r, 2 * i).x + Cell(C, series, r, 2 * i + 1).x);
      2 * i + 1 < series && 1 <= |G[i]| <= 2 && 1 <= |G[i + 1]| <= 2 &&
      G[i][|G[i]| - 1] == 2 * i && G[i + 1][0] == 2 * i + 1 &&
      RightEdge(C, series, G[i], outerR, halfGap, r) == mid - halfGap &&
      LeftEdge(C, series, G[i + 1], outerL, halfGap, r) == mid + halfGap
  {
    GroupsShape(series);
  }
}
