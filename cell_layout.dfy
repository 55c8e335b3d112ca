/**
 * The fit check and the ring set of the enclosure (cell_layout.cpp):
 * FitRect decides whether a series x parallel grid of cells fits a
 * rectangle, and RectangleFixed builds the outer rectangle followed by one
 * sampled, reversed circle per cell in row-major order.
 */
module CellLayout {
  import opened Vector2
  import opened Wrappers

  /** The honeycomb row-step factor, sqrt(3)/2 as written in the source. */
  const HoneycombRowFactor: real := 0.86602540378

  /** M_PI. */
  const Pi: real := 3.14159265358979323846

  /** FitResult, in the field order of the aggregate at cell_layout.cpp:30-32. */
  datatype FitResult = FitResult(
    fits: bool,
    maxSeries: int,
    maxParallel: int,
    reqWidth: real,
    reqHeight: real,
    deltaWidth: real,
    deltaHeight: real)

  /** Centre-to-centre distance of neighbouring cells in a row. */
  function Pitch(cellDia: real, spacing: real): real
  {
    cellDia + spacing
  }

  /** Vertical distance between rows: shortened to sqrt(3)/2 of the pitch in honeycomb mode. */
  function RowStep(pitch: real, honeycomb: bool): real
  {
    if honeycomb then pitch * HoneycombRowFactor else pitch
  }

  /** Extra width reserved for the half-pitch shift of odd honeycomb rows. */
  function RowShiftAllowance(pitch: real, honeycomb: bool): real
  {
    if honeycomb then 0.5 * pitch else 0.0
  }

  /** Width needed by `series` columns plus both walls. */
  function RequiredWidth(series: int, pitch: real, wall: real, honeycomb: bool): real
  {
    series as real * pitch + 2.0 * wall + RowShiftAllowance(pitch, honeycomb)
  }

  /** Height needed by `parallel` rows plus both walls. */
  function RequiredHeight(parallel: int, rowStep: real, wall: real): real
  {
    parallel as real * rowStep + 2.0 * wall
  }

  /** C++ int(x) for a float: truncation toward zero. */
  function Trunc(x: real): (r: int)
    ensures 0.0 <= x ==> 0 <= r && r as real <= x < r as real + 1.0
    ensures x < 0.0 ==> r <= 0 && r as real - 1.0 < x <= r as real
  {
    if x >= 0.0 then x.Floor else -((-x).Floor)
  }

  /** std::max(0, int(room / step)): how many steps fit into room, never negative. */
  function StepsIn(room: real, step: real): (r: int)
    requires step != 0.0
    ensures r >= 0
  {
    var t := Trunc(room / step);
    if t > 0 then t else 0
  }

  /** std::max(0.0f, d). */
  function NonNegative(d: real): (r: real)
    ensures r >= 0.0 && r >= d && (r == 0.0 || r == d)
  {
    if d > 0.0 then d else 0.0
  }

  /**
   * fitRect: the required size of the requested grid, whether it fits, the
   * largest grid along each axis that fits (for the axes that overflow), and
   * by how much the rectangle is short.
   */
  function FitRect(width: real, height: real, cellDia: real, spacing: real, wall: real,
                   series: int, parallel: int, honeycomb: bool): (r: FitResult)
    requires Pitch(cellDia, spacing) != 0.0
    ensures r.reqWidth == RequiredWidth(series, Pitch(cellDia, spacing), wall, honeycomb)
    ensures r.reqHeight == RequiredHeight(parallel, RowStep(Pitch(cellDia, spacing), honeycomb), wall)
    ensures r.fits <==> r.reqWidth <= width && r.reqHeight <= height
    ensures r.deltaWidth >= 0.0 && r.deltaHeight >= 0.0
    ensures r.deltaWidth == 0.0 <==> r.reqWidth <= width
    ensures r.deltaHeight == 0.0 <==> r.reqHeight <= height
    ensures r.reqWidth > width ==> r.deltaWidth == r.reqWidth - width
    ensures r.reqHeight > height ==> r.deltaHeight == r.reqHeight - height
    ensures r.reqWidth <= width ==> r.maxSeries == series
    ensures r.reqHeight <= height ==> r.maxParallel == parallel
    ensures r.maxSeries != series ==> r.maxSeries >= 0
    ensures r.maxParallel != parallel ==> r.maxParallel >= 0
  {
    var pitch := Pitch(cellDia, spacing);
    var vSpacing := RowStep(pitch, honeycomb);
    var reqW := RequiredWidth(series, pitch, wall, honeycomb);
    var reqH := RequiredHeight(parallel, vSpacing, wall);
    var fits := reqW <= width && reqH <= height;
    var maxS :=
      if !fits && reqW > width
      then StepsIn(width - 2.0 * wall - RowShiftAllowance(pitch, honeycomb), pitch)
      else series;
    var maxP :=
      if !fits && reqH > height
      then StepsIn(height - 2.0 * wall, vSpacing)
      else parallel;
    FitResult(fits, maxS, maxP, reqW, reqH, NonNegative(reqW - width), NonNegative(reqH - height))
  }

  lemma ScaleMonotone(a: real, b: real, c: real)
    requires a <= b && c > 0.0
    ensures a * c <= b * c
  {
    assert b * c - a * c == (b - a) * c;
  }

  /**
   * StepsIn is the largest count whose steps fit: n steps of length `step`
   * fit into a non-negative room exactly when n is at most StepsIn.
   */
  lemma StepsInIsLargest(room: real, step: real, n: int)
    requires step > 0.0 && room >= 0.0
    ensures StepsIn(room, step) as real * step <= room
    ensures n as real * step <= room <==> n <= StepsIn(room, step)
  {
    var q := room / step;
    var m := StepsIn(room, step);
    assert q * step == room;
    assert m == q.Floor;
    ScaleMonotone(m as real, q, step);
    if n <= m {
      ScaleMonotone(n as real, m as real, step);
    } else {
      assert q < n as real;
      assert n as real * step - q * step == (n as real - q) * step;
      assert (n as real - q) * step > 0.0;
    }
  }

  /**
   * One axis of the fit: when n steps overflow a non-negative room, StepsIn
   * proposes fewer than n, which fit, and one more would not.
   */
  lemma OverflowingAxis(room: real, step: real, n: int)
    requires step > 0.0 && room >= 0.0 && n as real * step > room
    ensures var m := StepsIn(room, step);
      0 <= m < n && m as real * step <= room && (m + 1) as real * step > room
  {
    var m := StepsIn(room, step);
    StepsInIsLargest(room, step, m + 1);
    StepsInIsLargest(room, step, n);
  }

  /**
   * When the requested columns overflow the width, the proposed column count
   * is smaller than requested and, fed back into the width formula, fits,
   * while one column more would not.
   */
  lemma MaxSeriesFits(width: real, height: real, cellDia: real, spacing: real, wall: real,
                      series: int, parallel: int, honeycomb: bool)
    requires Pitch(cellDia, spacing) > 0.0
    requires width >= 2.0 * wall + RowShiftAllowance(Pitch(cellDia, spacing), honeycomb)
    requires RequiredWidth(series, Pitch(cellDia, spacing), wall, honeycomb) > width
    ensures var r := FitRect(width, height, cellDia, spacing, wall, series, parallel, honeycomb);
      0 <= r.maxSeries < series &&
      RequiredWidth(r.maxSeries, Pitch(cellDia, spacing), wall, honeycomb) <= width &&
      RequiredWidth(r.maxSeries + 1, Pitch(cellDia, spacing), wall, honeycomb) > width
  {
    var pitch := Pitch(cellDia, spacing);
    var room := width - 2.0 * wall - RowShiftAllowance(pitch, honeycomb);
    ProposedSeries(width, height, cellDia, spacing, wall, series, parallel, honeycomb);
    OverflowingAxis(room, pitch, series);
  }

  lemma ProposedSeries(width: real, height: real, cellDia: real, spacing: real, wall: real,
                       series: int, parallel: int, honeycomb: bool)
    requires Pitch(cellDia, spacing) > 0.0
    requires RequiredWidth(series, Pitch(cellDia, spacing), wall, honeycomb) > width
    ensures FitRect(width, height, cellDia, spacing, wall, series, parallel, honeycomb).maxSeries
         == StepsIn(width - 2.0 * wall - RowShiftAllowance(Pitch(cellDia, spacing), honeycomb), Pitch(cellDia, spacing))
  {
  }

  /** The same for the rows against the height, with the row step of the mode. */
  lemma MaxParallelFits(width: real, height: real, cellDia: real, spacing: real, wall: real,
                        series: int, parallel: int, honeycomb: bool)
    requires Pitch(cellDia, spacing) > 0.0
    requires height >= 2.0 * wall
    requires RequiredHeight(parallel, RowStep(Pitch(cellDia, spacing), honeycomb), wall) > height
    ensures var r := FitRect(width, height, cellDia, spacing, wall, series, parallel, honeycomb);
      var step := RowStep(Pitch(cellDia, spacing), honeycomb);
      0 <= r.maxParallel < parallel &&
      RequiredHeight(r.maxParallel, step, wall) <= height &&
      RequiredHeight(r.maxParallel + 1, step, wall) > height
  {
    var step := RowStep(Pitch(cellDia, spacing), honeycomb);
    assert step > 0.0;
    var room := height - 2.0 * wall;
    ProposedParallel(width, height, cellDia, spacing, wall, series, parallel, honeycomb);
    OverflowingAxis(room, step, parallel);
  }

  lemma ProposedParallel(width: real, height: real, cellDia: real, spacing: real, wall: real,
                         series: int, parallel: int, honeycomb: bool)
    requires Pitch(cellDia, spacing) > 0.0
    requires RequiredHeight(parallel, RowStep(Pitch(cellDia, spacing), honeycomb), wall) > height
    ensures RowStep(Pitch(cellDia, spacing), honeycomb) > 0.0
    ensures FitRect(width, height, cellDia, spacing, wall, series, parallel, honeycomb).maxParallel
         == StepsIn(height - 2.0 * wall, RowStep(Pitch(cellDia, spacing), honeycomb))
  {
  }

  /**
   * The proposed grid is itself accepted: checking the reported maxSeries x
   * maxParallel grid in the same rectangle reports that it fits, provided the
   * rectangle has room for the walls at all.
   */
  lemma RefitFits(width: real, height: real, cellDia: real, spacing: real, wall: real,
                  series: int, parallel: int, honeycomb: bool)
    requires Pitch(cellDia, spacing) > 0.0
    requires width >= 2.0 * wall + RowShiftAllowance(Pitch(cellDia, spacing), honeycomb)
    requires height >= 2.0 * wall
    ensures var r := FitRect(width, height, cellDia, spacing, wall, series, parallel, honeycomb);
      FitRect(width, height, cellDia, spacing, wall, r.maxSeries, r.maxParallel, honeycomb).fits
  {
    var pitch := Pitch(cellDia, spacing);
    if RequiredWidth(series, pitch, wall, honeycomb) > width {
      MaxSeriesFits(width, height, cellDia, spacing, wall, series, parallel, honeycomb);
    }
    if RequiredHeight(parallel, RowStep(pitch, honeycomb), wall) > height {
      MaxParallelFits(width, height, cellDia, spacing, wall, series, parallel, honeycomb);
    }
  }

  /** The reference configuration fits; thirty columns in the same rectangle do not. */
  lemma ReferenceConfiguration()
    ensures FitRect(460.0, 140.0, 21.4, 0.5, 0.5, 10, 4, true).fits
    ensures var r := FitRect(460.0, 140.0, 21.4, 0.5, 0.5, 30, 4, true);
      !r.fits && r.deltaWidth > 0.0 && r.maxSeries == 20 && r.maxParallel == 4
  {
    var r := FitRect(460.0, 140.0, 21.4, 0.5, 0.5, 30, 4, true);
    assert r.reqWidth == 668.95;
    assert (460.0 - 1.0 - 10.95) / 21.9 == 448.05 / 21.9;
    assert 20.0 <= 448.05 / 21.9 < 21.0;
  }

  // ---------------------------------------------------------------------------
  // The ring set

  /** The outer boundary ring of a width x height rectangle. */
  function OuterRect(width: real, height: real): seq<Vec2>
  {
    [Vec2(0.0, 0.0), Vec2(width, 0.0), Vec2(width, height), Vec2(0.0, height)]
  }

  /** Centre of the cell in (row, col): odd rows are shifted half a pitch in honeycomb mode. */
  function HoleCenter(row: nat, col: nat, pitch: real, rowStep: real, wall: real, honeycomb: bool): Vec2
  {
    Vec2(wall + (col as real + 0.5) * pitch + (if honeycomb && row % 2 == 1 then 0.5 * pitch else 0.0),
         wall + (row as real + 0.5) * rowStep)
  }

  /** Sample i of segs on the circle of the given centre and radius, at angle 2*pi*i/segs. */
  function CirclePoint(c: Vec2, radius: real, segs: nat, i: nat,
                       cos: real -> real, sin: real -> real): Vec2
    requires segs > 0
  {
    var ang := 2.0 * Pi * i as real / segs as real;
    Vec2(c.x + radius * cos(ang), c.y + radius * sin(ang))
  }

  /** The segs samples of a circle, in increasing angle. */
  function CircleSamples(c: Vec2, radius: real, segs: nat,
                         cos: real -> real, sin: real -> real): seq<Vec2>
  {
    seq(segs, i requires 0 <= i < segs => CirclePoint(c, radius, segs, i, cos, sin))
  }

  /** s backwards (std::reverse). */
  function Reversed<T>(s: seq<T>): seq<T>
  {
    if |s| == 0 then [] else [s[|s| - 1]] + Reversed(s[..|s| - 1])
  }

  lemma {:induction false} ReversedAt<T>(s: seq<T>, k: nat)
    requires k < |s|
    ensures |Reversed(s)| == |s| && Reversed(s)[k] == s[|s| - 1 - k]
  {
    if k > 0 {
      ReversedAt(s[..|s| - 1], k - 1);
    } else if |s| > 1 {
      ReversedAt(s[..|s| - 1], 0);
    }
  }

  lemma ReversedLength<T>(s: seq<T>)
    ensures |Reversed(s)| == |s|
  {
    if |s| > 0 {
      ReversedAt(s, 0);
    }
  }

  /** The hole ring of the cell in (row, col): its circle samples in reverse order. */
  function Hole(row: nat, col: nat, cellDia: real, spacing: real, wall: real, segs: nat,
                honeycomb: bool, cos: real -> real, sin: real -> real): seq<Vec2>
  {
    var pitch := Pitch(cellDia, spacing);
    var center := HoleCenter(row, col, pitch, RowStep(pitch, honeycomb), wall, honeycomb);
    Reversed(CircleSamples(center, cellDia * 0.5, segs, cos, sin))
  }

  lemma HoleLength(row: nat, col: nat, cellDia: real, spacing: real, wall: real, segs: nat,
                   honeycomb: bool, cos: real -> real, sin: real -> real)
    ensures |Hole(row, col, cellDia, spacing, wall, segs, honeycomb, cos, sin)| == segs
  {
    var pitch := Pitch(cellDia, spacing);
    var center := HoleCenter(row, col, pitch, RowStep(pitch, honeycomb), wall, honeycomb);
    ReversedLength(CircleSamples(center, cellDia * 0.5, segs, cos, sin));
  }

  /** The first n hole rings in row-major order for a grid of `series` columns. */
  function Holes(n: nat, series: nat, cellDia: real, spacing: real, wall: real, segs: nat,
                 honeycomb: bool, cos: real -> real, sin: real -> real): seq<seq<Vec2>>
    requires n > 0 ==> series > 0
  {
    seq(n, h requires 0 <= h < n => Hole(h / series, h % series, cellDia, spacing, wall, segs, honeycomb, cos, sin))
  }

  /** rectangleFixed's result: the outer rectangle, then every cell's hole ring row by row. */
  function RingSet(width: real, height: real, cellDia: real, spacing: real, wall: real,
                   series: nat, parallel: nat, segs: nat, honeycomb: bool,
                   cos: real -> real, sin: real -> real): seq<seq<Vec2>>
  {
    [OuterRect(width, height)] + Holes(series * parallel, series, cellDia, spacing, wall, segs, honeycomb, cos, sin)
  }

  lemma MulAtLeast(k: int, d: int)
    requires k >= 1 && d >= 0
    ensures k * d >= d
  {
    assert k * d - d == (k - 1) * d;
  }

  /**
   * For every grid, empty ones included: there are 1 + series*parallel
   * rings, ring 0 is the outer rectangle (0,0), (w,0), (w,h), (0,h), and
   * every ring after it has segs points.
   */
  lemma RingSetShape(width: real, height: real, cellDia: real, spacing: real, wall: real,
                     series: nat, parallel: nat, segs: nat, honeycomb: bool,
                     cos: real -> real, sin: real -> real)
    ensures var rings := RingSet(width, height, cellDia, spacing, wall, series, parallel, segs, honeycomb, cos, sin);
      |rings| == 1 + series * parallel &&
      rings[0] == [Vec2(0.0, 0.0), Vec2(width, 0.0), Vec2(width, height), Vec2(0.0, height)] &&
      forall j :: 0 < j < |rings| ==> |rings[j]| == segs
  {
    var rings := RingSet(width, height, cellDia, spacing, wall, series, parallel, segs, honeycomb, cos, sin);
    forall j | 0 < j < |rings| ensures |rings[j]| == segs {
      HoleLength((j - 1) / series, (j - 1) % series, cellDia, spacing, wall, segs, honeycomb, cos, sin);
    }
  }

  /** Cell (row, col) sits at row-major position row*series + col, and back. */
  lemma RowMajor(row: nat, col: nat, series: nat)
    requires col < series
    ensures (row * series + col) / series == row && (row * series + col) % series == col
  {
    var n := row * series + col;
    var q, r := n / series, n % series;
    assert n == q * series + r;
    assert (row - q) * series == r - col;
    if row > q {
      MulAtLeast(row - q, series);
    } else if row < q {
      MulAtLeast(q - row, series);
    }
  }

  lemma RowMajorBound(row: nat, col: nat, series: nat, parallel: nat)
    requires row < parallel && col < series
    ensures row * series + col < series * parallel
  {
    assert row * series + col < (row + 1) * series;
    assert (row + 1) * series <= parallel * series;
  }

  /**
   * The ring set has 1 + series*parallel rings: ring 0 is the rectangle and
   * the cell in (row, col) is ring 1 + row*series + col, a ring of exactly
   * segs points whose point k is circle sample segs-1-k around the centre
   * wall + (col + 1/2) pitch (+ pitch/2 on odd honeycomb rows),
   * wall + (row + 1/2) rowStep.
   */
  lemma {:induction false} CellRing(width: real, height: real, cellDia: real, spacing: real, wall: real,
                                    series: nat, parallel: nat, segs: nat, honeycomb: bool,
                                    cos: real -> real, sin: real -> real, row: nat, col: nat, k: nat)
    requires row < parallel && col < series && k < segs
    ensures var rings := RingSet(width, height, cellDia, spacing, wall, series, parallel, segs, honeycomb, cos, sin);
      var pitch := Pitch(cellDia, spacing);
      var shift := if honeycomb && row % 2 == 1 then 0.5 * pitch else 0.0;
      var center := Vec2(wall + (col as real + 0.5) * pitch + shift,
                         wall + (row as real + 0.5) * RowStep(pitch, honeycomb));
      |rings| == 1 + series * parallel &&
      rings[0] == [Vec2(0.0, 0.0), Vec2(width, 0.0), Vec2(width, height), Vec2(0.0, height)] &&
      1 + row * series + col < |rings| &&
      |rings[1 + row * series + col]| == segs &&
      rings[1 + row * series + col][k] == CirclePoint(center, cellDia * 0.5, segs, segs - 1 - k, cos, sin)
  {
    var rings := RingSet(width, height, cellDia, spacing, wall, series, parallel, segs, honeycomb, cos, sin);
    var h := row * series + col;
    RowMajorBound(row, col, series, parallel);
    RowMajor(row, col, series);
    assert rings[1 + h] == Hole(row, col, cellDia, spacing, wall, segs, honeycomb, cos, sin);
    var pitch := Pitch(cellDia, spacing);
    var center := HoleCenter(row, col, pitch, RowStep(pitch, honeycomb), wall, honeycomb);
    ReversedAt(CircleSamples(center, cellDia * 0.5, segs, cos, sin), k);
  }

  /** s is t with its first i and last i elements exchanged end for end, the rest in place. */
  ghost predicate EndsSwapped<T>(s: seq<T>, t: seq<T>, i: nat)
  {
    |s| == |t| &&
    (forall k :: 0 <= k < |s| && (k < i || |s| - 1 - k < i) ==> s[k] == t[|t| - 1 - k]) &&
    (forall k :: i <= k < |s| - i ==> s[k] == t[k])
  }

  /** std::reverse on the hole buffer. */
  method ReverseInPlace(a: array<Vec2>)
    modifies a
    ensures a[..] == Reversed(old(a[..]))
  {
    ghost var before := a[..];
    var n := a.Length;
    var i := 0;
    while i < n / 2
      invariant 0 <= i <= n / 2
      invariant EndsSwapped(a[..], before, i)
    {
      var j := n - 1 - i;
      ghost var prev := a[..];
      a[i], a[j] := a[j], a[i];
      SwapStep(prev, a[..], before, i);
      i := i + 1;
    }
    HalfSwappedIsReversed(a[..], before, i);
  }

  /** With half of the pairs swapped, the whole sequence is reversed. */
  lemma HalfSwappedIsReversed<T>(s: seq<T>, t: seq<T>, i: nat)
    requires EndsSwapped(s, t, i) && i == |s| / 2
    ensures s == Reversed(t)
  {
    var n := |s|;
    forall k | 0 <= k < n ensures s[k] == t[n - 1 - k] {
      if !(k < i || n - 1 - k < i) {
        assert k == n - 1 - k;
      }
    }
    ReversedByIndex(t, s);
  }

  /** Exchanging the two elements next to the swapped ends swaps one more pair. */
  lemma SwapStep<T>(prev: seq<T>, s: seq<T>, t: seq<T>, i: nat)
    requires EndsSwapped(prev, t, i) && 2 * i + 1 < |prev|
    requires s == prev[i := prev[|prev| - 1 - i]][|prev| - 1 - i := prev[i]]
    ensures EndsSwapped(s, t, i + 1)
  {
  }

  /** A sequence that holds s's elements in opposite order is Reversed(s). */
  lemma ReversedByIndex<T>(s: seq<T>, t: seq<T>)
    requires |t| == |s| && forall k :: 0 <= k < |t| ==> t[k] == s[|s| - 1 - k]
    ensures t == Reversed(s)
  {
    forall k | 0 <= k < |t| ensures |Reversed(s)| == |s| && t[k] == Reversed(s)[k] {
      ReversedAt(s, k);
    }
    if |s| == 0 {
      assert Reversed(s) == [];
    }
  }

  /** The next hole in row-major order extends the list of the earlier ones. */
  lemma HolesSnoc(row: nat, col: nat, series: nat, cellDia: real, spacing: real, wall: real, segs: nat,
                  honeycomb: bool, cos: real -> real, sin: real -> real)
    requires col < series
    ensures Holes(row * series + col + 1, series, cellDia, spacing, wall, segs, honeycomb, cos, sin)
         == Holes(row * series + col, series, cellDia, spacing, wall, segs, honeycomb, cos, sin)
            + [Hole(row, col, cellDia, spacing, wall, segs, honeycomb, cos, sin)]
  {
    RowMajor(row, col, series);
  }

  /**
   * The body of the column loop: samples the circle into a fresh buffer of
   * segs points in increasing angle, then reverses the buffer in place.
   */
  method SampleHole(center: Vec2, radius: real, segs: nat, cos: real -> real, sin: real -> real)
    returns (hole: seq<Vec2>)
    ensures hole == Reversed(CircleSamples(center, radius, segs, cos, sin))
  {
    var buffer := new Vec2[segs];
    var i := 0;
    while i < segs
      invariant 0 <= i <= segs
      invariant forall k :: 0 <= k < i ==> buffer[k] == CirclePoint(center, radius, segs, k, cos, sin)
    {
      // the sample at angle 2*pi*i/segs
      buffer[i] := CirclePoint(center, radius, segs, i, cos, sin);
      i := i + 1;
    }
    assert buffer[..] == CircleSamples(center, radius, segs, cos, sin);
    ReverseInPlace(buffer);
    hole := buffer[..];
  }

  /** The body of the column loop for the cell in (row, col): its centre, then its sampled, reversed circle. */
  method PlaceHole(row: nat, col: nat, cellDia: real, spacing: real, wall: real, segs: nat, honeycomb: bool,
                   pitch: real, vSpacing: real, radius: real, cos: real -> real, sin: real -> real)
    returns (hole: seq<Vec2>)
    requires pitch == Pitch(cellDia, spacing) && vSpacing == RowStep(pitch, honeycomb) && radius == cellDia * 0.5
    ensures hole == Hole(row, col, cellDia, spacing, wall, segs, honeycomb, cos, sin)
  {
    var center := HoleCenter(row, col, pitch, vSpacing, wall, honeycomb);
    hole := SampleHole(center, radius, segs, cos, sin);
  }

  /**
   * rectangleFixed: pushes the outer rectangle, then for every row and column
   * the cell's sampled, reversed circle.
   */
  method RectangleFixed(width: real, height: real, cellDia: real, spacing: real, wall: real,
                        series: nat, parallel: nat, segs: nat, honeycomb: bool,
                        cos: real -> real, sin: real -> real)
    returns (rings: seq<seq<Vec2>>)
    ensures rings == RingSet(width, height, cellDia, spacing, wall, series, parallel, segs, honeycomb, cos, sin)
  {
    var pitch := cellDia + spacing;
    var vSpacing := if honeycomb then pitch * HoneycombRowFactor else pitch;
    var radius := cellDia * 0.5;

    rings := [[Vec2(0.0, 0.0), Vec2(width, 0.0), Vec2(width, height), Vec2(0.0, height)]];

    var row := 0;
    while row < parallel
      invariant 0 <= row <= parallel
      invariant rings == [OuterRect(width, height)] +
                         Holes(row * series, series, cellDia, spacing, wall, segs, honeycomb, cos, sin)
    {
      var col := 0;
      while col < series
        invariant 0 <= col <= series
        invariant rings == [OuterRect(width, height)] +
                           Holes(row * series + col, series, cellDia, spacing, wall, segs, honeycomb, cos, sin)
      {
        var hole := PlaceHole(row, col, cellDia, spacing, wall, segs, honeycomb, pitch, vSpacing, radius, cos, sin);
        HolesSnoc(row, col, series, cellDia, spacing, wall, segs, honeycomb, cos, sin);
        rings := rings + [hole];
        col := col + 1;
      }
      assert row * series + series == (row + 1) * series;
      row := row + 1;
    }
    assert row * series == series * parallel;
  }

  /** How many times a counting loop from 0 up to a signed bound n runs: none when n is not positive. */
  function Passes(n: int): (r: nat)
    ensures n <= 0 ==> r == 0
    ensures n >= 0 ==> r == n
  {
    if n < 0 then 0 else n
  }

  /**
   * Where rectangleFixed's signed counts make `reserve` throw: the ring
   * reserve when 1 + series*parallel is negative, or the hole reserve when
   * segs is negative and at least one cell is visited.
   */
  predicate ReserveThrows(series: int, parallel: int, segs: int)
  {
    1 + series * parallel < 0 || (series > 0 && parallel > 0 && segs < 0)
  }

  /**
   * rectangleFixed over its signed int counts: None where a `reserve`
   * throws; otherwise the ring set over the loops' pass counts, which is
   * the outer rectangle alone as soon as series or parallel is not positive.
   */
  method RectangleFixedSigned(width: real, height: real, cellDia: real, spacing: real, wall: real,
                              series: int, parallel: int, segs: int, honeycomb: bool,
                              cos: real -> real, sin: real -> real)
    returns (r: Option<seq<seq<Vec2>>>)
    ensures r.None? <==> ReserveThrows(series, parallel, segs)
    ensures r.Some? ==> r.value == RingSet(width, height, cellDia, spacing, wall,
                                           Passes(series), Passes(parallel), Passes(segs), honeycomb, cos, sin)
    ensures r.Some? && (series <= 0 || parallel <= 0) ==> r.value == [OuterRect(width, height)]
    ensures r.Some? && series > 0 && parallel > 0 ==> segs >= 0 && |r.value| == 1 + series * parallel
  {
    if 1 + series * parallel < 0 || (series > 0 && parallel > 0 && segs < 0) {
      return None;
    }
    var rings := RectangleFixed(width, height, cellDia, spacing, wall,
                                Passes(series), Passes(parallel), Passes(segs), honeycomb, cos, sin);
    assert series <= 0 || parallel <= 0 ==> Passes(series) * Passes(parallel) == 0;
    return Some(rings);
  }
}
