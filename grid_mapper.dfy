/** The grid mapper of the heat map widget: it turns a flat payload that holds
    a rows x columns matrix, column by column, into weighted points spread
    over the container, and fixes the value range handed to the renderer. */
module GridMapper {
  import opened HeatMapTypes

  /** The callback only draws a payload that is an array holding exactly one
      entry per grid cell; every other message is ignored. */
  predicate Accepts(payload: Payload, cfg: Config)
  {
    payload.Cells? && |payload.values| == cfg.rows * cfg.columns
  }

  /** Pixel coordinate of grid line `i` (1-based) out of `n` lines over a side
      of `size` pixels: the side is cut into `n + 1` equal steps and the
      coordinate is rounded down. */
  function Coord(i: nat, size: nat, n: nat): int
  {
    (i * size) / (n + 1)
  }

  /** Position in the payload (and in the point list) of the cell at 1-based
      `column` and `row`, counting column by column. */
  function CellIndex(column: int, row: int, rows: int): int
  {
    (column - 1) * rows + (row - 1)
  }

  function Max(a: real, b: real): real
  {
    if a >= b then a else b
  }

  function Min(a: real, b: real): real
  {
    if a <= b then a else b
  }

  /** The running maximum `Math.max(acc, v)` over `s`, starting from `seed`. */
  function RunningMax(seed: real, s: seq<real>): real
    decreases |s|
  {
    if |s| == 0 then seed else Max(RunningMax(seed, s[..|s| - 1]), s[|s| - 1])
  }

  /** The running minimum `Math.min(acc, v)` over `s`, starting from `seed`. */
  function RunningMin(seed: real, s: seq<real>): real
    decreases |s|
  {
    if |s| == 0 then seed else Min(RunningMin(seed, s[..|s| - 1]), s[|s| - 1])
  }

  /** The range reported after the cells `seen` have been visited: the
      configured one when `minMax === true`, the running extremes seeded with
      `Number.MAX_VALUE` and 0 when `minMax === false`, and the untouched seeds
      otherwise. */
  predicate RangeOf(cfg: Config, seen: seq<real>, lo: real, hi: real)
  {
    match cfg.minMax
    case IsTrue => lo == cfg.minimumValue && hi == cfg.maximumValue
    case IsFalse => lo == RunningMin(MaxValue, seen) && hi == RunningMax(0.0, seen)
    case Neither => lo == MaxValue && hi == 0.0
  }

  /** `heat` is what the mapper hands to the renderer for the accepted payload
      `cells`: one point per cell in payload order, each carrying its cell's
      value, placed at its column's x and its row's y, with the range fixed by
      `RangeOf`. */
  predicate GridMapped(cells: seq<real>, cfg: Config, width: nat, height: nat, heat: HeatData)
  {
    && |heat.data| == |cells| == cfg.rows * cfg.columns
    && (forall k :: 0 <= k < |heat.data| ==> heat.data[k].value == cells[k])
    && (forall column, row :: 1 <= column <= cfg.columns && 1 <= row <= cfg.rows ==>
          && 0 <= CellIndex(column, row, cfg.rows) < |heat.data|
          && heat.data[CellIndex(column, row, cfg.rows)].x == Coord(column, width, cfg.columns)
          && heat.data[CellIndex(column, row, cfg.rows)].y == Coord(row, height, cfg.rows))
    && RangeOf(cfg, cells, heat.min, heat.max)
  }

  /** The point the mapper pushes for payload position `k`: the cell's value,
      at the x of its column `k / rows + 1` and the y of its row
      `k % rows + 1`. */
  function PointAt(cells: seq<real>, k: nat, rows: nat, columns: nat, width: nat, height: nat): Point
    requires k < |cells| && rows > 0
  {
    Point(Coord(k / rows + 1, width, columns), Coord(k % rows + 1, height, rows), cells[k])
  }

  /** The `$watch('msg')` mapping pass: ignores a payload that is not an array
      of exactly `rows * columns` entries, otherwise walks the grid column by column
      and, inside each column, row by row, pushing one point per cell. */
  method MapGrid(payload: Payload, cfg: Config, width: nat, height: nat) returns (r: Option<HeatData>)
    ensures r.Some? <==> Accepts(payload, cfg)
    ensures r.Some? ==> GridMapped(payload.values, cfg, width, height, r.value)
  {
    if !Accepts(payload, cfg) {
      return None;
    }
    var cells := payload.values;
    assert |cells| == cfg.rows * cfg.columns;
    var maxValue: real := 0.0;
    var minValue: real := MaxValue;
    var points: seq<Point> := [];
    var columns, rows := cfg.columns, cfg.rows;
    if cfg.minMax == IsTrue {
      maxValue := cfg.maximumValue;
      minValue := cfg.minimumValue;
    }
    var column := 1;
    while column <= columns
      invariant 1 <= column <= columns + 1
      invariant |points| == CellIndex(column, 1, rows) <= |cells|
      invariant rows > 0 || |points| == 0
      invariant forall k :: 0 <= k < |points| ==> points[k] == PointAt(cells, k, rows, columns, width, height)
      invariant RangeOf(cfg, cells[..|points|], minValue, maxValue)
    {
      points, minValue, maxValue := MapColumn(cells, cfg, width, height, column, points, minValue, maxValue);
      column := column + 1;
    }
    assert cells[..|points|] == cells;
    MappedByPosition(cells, cfg, width, height, HeatData(minValue, maxValue, points));
    r := Some(HeatData(minValue, maxValue, points));
  }

  /** The inner loop of the mapping pass, over the rows of one `column`: it
      pushes the point of each cell of that column, in row order, reading the
      payload at the running index, and folds each value into the range. */
  method MapColumn(cells: seq<real>, cfg: Config, width: nat, height: nat, column: int,
                   points: seq<Point>, minValue: real, maxValue: real)
    returns (points': seq<Point>, minValue': real, maxValue': real)
    requires |cells| == cfg.rows * cfg.columns && 1 <= column <= cfg.columns
    requires |points| == CellIndex(column, 1, cfg.rows) <= |cells|
    requires forall k :: 0 <= k < |points| ==> points[k] == PointAt(cells, k, cfg.rows, cfg.columns, width, height)
    requires RangeOf(cfg, cells[..|points|], minValue, maxValue)
    ensures |points'| == CellIndex(column + 1, 1, cfg.rows) <= |cells|
    ensures forall k :: 0 <= k < |points'| ==> points'[k] == PointAt(cells, k, cfg.rows, cfg.columns, width, height)
    ensures RangeOf(cfg, cells[..|points'|], minValue', maxValue')
  {
    var columns, rows := cfg.columns, cfg.rows;
    points', minValue', maxValue' := points, minValue, maxValue;
    var index := |points|;
    var row := 1;
    while row <= rows
      invariant 1 <= row <= rows + 1
      invariant index == CellIndex(column, row, rows) == |points'| <= |cells|
      invariant forall k :: 0 <= k < index ==> points'[k] == PointAt(cells, k, rows, columns, width, height)
      invariant RangeOf(cfg, cells[..index], minValue', maxValue')
    {
      CellIndexInGrid(column, row, rows, columns);
      var val := cells[index];
      if cfg.minMax == IsFalse {
        maxValue' := Max(maxValue', val);
        minValue' := Min(minValue', val);
      }
      var point := Point(Coord(column, width, columns), Coord(row, height, rows), val);
      PointAtCell(cells, column, row, rows, columns, width, height);
      points' := points' + [point];
      assert cells[..index + 1][..index] == cells[..index];
      index := index + 1;
      row := row + 1;
    }
    assert CellIndex(column, rows + 1, rows) == CellIndex(column + 1, 1, rows);
  }

  // ---------------------------------------------------------------------------
  // Arithmetic helpers for the coordinate lemmas.

  lemma MulLeft(a: int, b: int, c: int)
    requires a >= 0 && b <= c
    ensures a * b <= a * c
  {
  }

  /** Division undoes multiplication, whatever remainder below the divisor is
      added. */
  lemma DivOfMulAdd(m: int, r: int, d: int)
    requires 0 <= r < d
    ensures (d * m + r) / d == m
  {
    var q, rest := (d * m + r) / d, (d * m + r) % d;
    assert d * (m - q) == rest - r;
    if m - q >= 1 {
      MulLeft(d, 1, m - q);
    } else if m - q <= -1 {
      MulLeft(d, m - q, -1);
    }
  }

  lemma DivMonotone(a: int, b: int, d: int)
    requires a <= b && d > 0
    ensures a / d <= b / d
  {
    assert d * (b / d + 1) == d * (b / d) + d;
    if a / d > b / d {
      MulLeft(d, b / d + 1, a / d);
    }
  }

  /** Every grid cell has its place inside the payload. */
  lemma CellIndexInGrid(column: int, row: int, rows: int, columns: int)
    requires 1 <= column <= columns && 1 <= row <= rows
    ensures 0 <= CellIndex(column, row, rows) < rows * columns
  {
    MulLeft(rows, 0, column - 1);
    MulLeft(rows, column, columns);
    assert (column - 1) * rows + rows == rows * column;
  }

  /** The point pushed for position `CellIndex(column, row, rows)` is the one
      at that column's x and that row's y. */
  lemma PointAtCell(cells: seq<real>, column: int, row: int, rows: nat, columns: nat, width: nat, height: nat)
    requires 1 <= column && 1 <= row <= rows && CellIndex(column, row, rows) < |cells|
    ensures 0 <= CellIndex(column, row, rows)
    ensures PointAt(cells, CellIndex(column, row, rows), rows, columns, width, height)
            == Point(Coord(column, width, columns), Coord(row, height, rows), cells[CellIndex(column, row, rows)])
  {
    var k := CellIndex(column, row, rows);
    MulLeft(rows, 0, column - 1);
    assert k == rows * (column - 1) + (row - 1);
    DivOfMulAdd(column - 1, row - 1, rows);
    assert k == rows * (k / rows) + k % rows;
  }

  /** Points listed position by position, as `PointAt` gives them, are the
      grid mapped column by column. */
  lemma MappedByPosition(cells: seq<real>, cfg: Config, width: nat, height: nat, heat: HeatData)
    requires |heat.data| == |cells| == cfg.rows * cfg.columns
    requires cfg.rows > 0 || |cells| == 0
    requires forall k :: 0 <= k < |heat.data| ==>
               heat.data[k] == PointAt(cells, k, cfg.rows, cfg.columns, width, height)
    requires RangeOf(cfg, cells, heat.min, heat.max)
    ensures GridMapped(cells, cfg, width, height, heat)
  {
    forall column, row | 1 <= column <= cfg.columns && 1 <= row <= cfg.rows
      ensures 0 <= CellIndex(column, row, cfg.rows) < |heat.data|
      ensures heat.data[CellIndex(column, row, cfg.rows)].x == Coord(column, width, cfg.columns)
      ensures heat.data[CellIndex(column, row, cfg.rows)].y == Coord(row, height, cfg.rows)
    {
      CellIndexInGrid(column, row, cfg.rows, cfg.columns);
      PointAtCell(cells, column, row, cfg.rows, cfg.columns, width, height);
    }
  }

  /** Conversely, every payload position is the place of a grid cell. */
  lemma CellOfIndex(k: int, rows: nat, columns: nat) returns (column: int, row: int)
    requires 0 <= k < rows * columns
    ensures 1 <= column <= columns && 1 <= row <= rows
    ensures CellIndex(column, row, rows) == k
  {
    column, row := k / rows + 1, k % rows + 1;
    if k / rows >= columns {
      MulLeft(rows, columns, k / rows);
    }
  }

  // ---------------------------------------------------------------------------
  // Coordinates.

  /** A grid line lies on the container side, and strictly before its far end
      when the side is not empty. With at least one pixel per step it also lies
      strictly after the near end. */
  lemma CoordBounds(i: nat, size: nat, n: nat)
    requires 1 <= i <= n
    ensures 0 <= Coord(i, size, n) <= size
    ensures size > 0 ==> Coord(i, size, n) < size
    ensures size >= n + 1 ==> Coord(i, size, n) > 0
  {
    DivMonotone(0, i * size, n + 1);
    MulLeft(size, i, n);
    if size > 0 {
      assert (n + 1) * (size - 1) + n == n * size + size - 1;
      DivMonotone(i * size, (n + 1) * (size - 1) + n, n + 1);
      DivOfMulAdd(size - 1, n, n + 1);
    } else {
      assert i * size == 0;
    }
    if size >= n + 1 {
      MulLeft(i, 1, size);
      DivMonotone((n + 1) * 1 + 0, i * size, n + 1);
      DivOfMulAdd(1, 0, n + 1);
    }
  }

  /** Grid lines further along the grid never come earlier on the screen. */
  lemma CoordMonotone(i: nat, j: nat, size: nat, n: nat)
    requires i <= j
    ensures Coord(i, size, n) <= Coord(j, size, n)
  {
    MulLeft(size, i, j);
    DivMonotone(i * size, j * size, n + 1);
  }

  /** With at least one pixel per step, distinct grid lines land on distinct
      pixels. */
  lemma CoordSeparated(i: nat, j: nat, size: nat, n: nat)
    requires i < j && size >= n + 1
    ensures Coord(i, size, n) < Coord(j, size, n)
  {
    var q := Coord(i, size, n);
    MulLeft(size, i + 1, j);
    assert (n + 1) * q <= i * size;
    assert (n + 1) * (q + 1) <= j * size;
    DivMonotone((n + 1) * (q + 1) + 0, j * size, n + 1);
    DivOfMulAdd(q + 1, 0, n + 1);
  }

  // ---------------------------------------------------------------------------
  // Range.

  /** The running maximum is the largest of the seed and the visited values. */
  lemma {:induction false} RunningMaxIsMaximum(seed: real, s: seq<real>)
    ensures seed <= RunningMax(seed, s)
    ensures forall i :: 0 <= i < |s| ==> s[i] <= RunningMax(seed, s)
    ensures RunningMax(seed, s) == seed || exists i :: 0 <= i < |s| && RunningMax(seed, s) == s[i]
  {
    if |s| > 0 {
      var init := s[..|s| - 1];
      RunningMaxIsMaximum(seed, init);
      assert forall i :: 0 <= i < |init| ==> init[i] == s[i];
      if RunningMax(seed, s) != seed && RunningMax(seed, s) != s[|s| - 1] {
        var i :| 0 <= i < |init| && RunningMax(seed, init) == init[i];
        assert RunningMax(seed, s) == s[i];
      }
    }
  }

  /** The running minimum is the smallest of the seed and the visited values. */
  lemma {:induction false} RunningMinIsMinimum(seed: real, s: seq<real>)
    ensures RunningMin(seed, s) <= seed
    ensures forall i :: 0 <= i < |s| ==> RunningMin(seed, s) <= s[i]
    ensures RunningMin(seed, s) == seed || exists i :: 0 <= i < |s| && RunningMin(seed, s) == s[i]
  {
    if |s| > 0 {
      var init := s[..|s| - 1];
      RunningMinIsMinimum(seed, init);
      assert forall i :: 0 <= i < |init| ==> init[i] == s[i];
      if RunningMin(seed, s) != seed && RunningMin(seed, s) != s[|s| - 1] {
        var i :| 0 <= i < |init| && RunningMin(seed, init) == init[i];
        assert RunningMin(seed, s) == s[i];
      }
    }
  }

  // ---------------------------------------------------------------------------
  // What the mapper's output satisfies.

  /** Every point lies inside the container, and strictly inside it along a
      side that is not empty. */
  lemma PointsInsideContainer(cells: seq<real>, cfg: Config, width: nat, height: nat, heat: HeatData)
    requires GridMapped(cells, cfg, width, height, heat)
    ensures forall k :: 0 <= k < |heat.data| ==>
              && 0 <= heat.data[k].x <= width && (width > 0 ==> heat.data[k].x < width)
              && 0 <= heat.data[k].y <= height && (height > 0 ==> heat.data[k].y < height)
  {
    forall k | 0 <= k < |heat.data|
      ensures 0 <= heat.data[k].x <= width && (width > 0 ==> heat.data[k].x < width)
      ensures 0 <= heat.data[k].y <= height && (height > 0 ==> heat.data[k].y < height)
    {
      var column, row := CellOfIndex(k, cfg.rows, cfg.columns);
      CoordBounds(column, width, cfg.columns);
      CoordBounds(row, height, cfg.rows);
    }
  }

  /** Points of one column share their x, points of one row share their y, and
      x never decreases from one column to the next. */
  lemma PointsFollowGrid(cells: seq<real>, cfg: Config, width: nat, height: nat, heat: HeatData,
                         c1: int, r1: int, c2: int, r2: int)
    requires GridMapped(cells, cfg, width, height, heat)
    requires 1 <= c1 <= c2 <= cfg.columns && 1 <= r1 <= cfg.rows && 1 <= r2 <= cfg.rows
    ensures 0 <= CellIndex(c1, r1, cfg.rows) < |heat.data| && 0 <= CellIndex(c2, r2, cfg.rows) < |heat.data|
    ensures heat.data[CellIndex(c1, r1, cfg.rows)].x <= heat.data[CellIndex(c2, r2, cfg.rows)].x
    ensures c1 == c2 ==> heat.data[CellIndex(c1, r1, cfg.rows)].x == heat.data[CellIndex(c2, r2, cfg.rows)].x
    ensures r1 == r2 ==> heat.data[CellIndex(c1, r1, cfg.rows)].y == heat.data[CellIndex(c2, r2, cfg.rows)].y
  {
    CoordMonotone(c1, c2, width, cfg.columns);
  }

  /** When `minMax === false` the reported range covers every value; its
      minimum is `Number.MAX_VALUE` or a value of the grid, its maximum is 0 or
      a value of the grid. So the maximum is never below 0, and a grid of
      values that are all at most 0 reports a maximum of exactly 0. */
  lemma ComputedRange(cells: seq<real>, cfg: Config, width: nat, height: nat, heat: HeatData)
    requires GridMapped(cells, cfg, width, height, heat) && cfg.minMax == IsFalse
    ensures forall k :: 0 <= k < |cells| ==> heat.min <= cells[k] <= heat.max
    ensures heat.min <= MaxValue && 0.0 <= heat.max
    ensures heat.min == MaxValue || exists k :: 0 <= k < |cells| && heat.min == cells[k]
    ensures heat.max == 0.0 || exists k :: 0 <= k < |cells| && heat.max == cells[k]
    ensures (forall k :: 0 <= k < |cells| ==> cells[k] <= 0.0) ==> heat.max == 0.0
  {
    RunningMaxIsMaximum(0.0, cells);
    RunningMinIsMinimum(MaxValue, cells);
  }

  /** When `minMax === true` the configured range is reported whatever the
      data; when `minMax` is neither true nor false the seeds are. */
  lemma FixedRange(cells: seq<real>, cfg: Config, width: nat, height: nat, heat: HeatData)
    requires GridMapped(cells, cfg, width, height, heat) && !cfg.minMax.IsFalse?
    ensures cfg.minMax == IsTrue ==> heat.min == cfg.minimumValue && heat.max == cfg.maximumValue
    ensures cfg.minMax == Neither ==> heat.min == MaxValue && heat.max == 0.0
  {
  }

  /** The mapping is a function of its inputs: two outputs that both satisfy
      `GridMapped` for the same payload, configuration and container are
      equal, so mapping the same message twice yields the same points and
      range. */
  lemma GridMappedUnique(cells: seq<real>, cfg: Config, width: nat, height: nat, a: HeatData, b: HeatData)
    requires GridMapped(cells, cfg, width, height, a) && GridMapped(cells, cfg, width, height, b)
    ensures a == b
  {
    forall k | 0 <= k < |a.data|
      ensures a.data[k] == b.data[k]
    {
      var column, row := CellOfIndex(k, cfg.rows, cfg.columns);
    }
  }
}
