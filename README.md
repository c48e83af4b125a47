# Heat map widget: grid mapping and legend, in Dafny

This project models the computational core of the `heat-map` dashboard widget
(`heat_map.js`): the `$watch('msg')` callback that runs once for each incoming
message. The callback does two things that this project models:

- **Grid mapper.** It accepts a payload only if it is an array of exactly
  `rows * columns` entries. It walks the grid column by column and, inside
  each column, row by row. For each cell it pushes a point at
  `x = floor(column * W / (columns + 1))`, `y = floor(row * H / (rows + 1))`
  that carries the cell's value. It then fixes the `min`/`max` range handed
  to the density-map renderer.
- **Legend.** It draws `parseInt(legendCount) || 2` samples. Each sample has
  a value interpolated between `min` and `max`, a colour on the blue-to-red
  scale, and an x position on the legend canvas, scaled from display pixels
  to backing-store pixels.

Modules:

- `HeatMapTypes` (`heat_map_types.dfy`): the configuration, the message, the
  points, the renderer data, the legend entries, and `Number.MAX_VALUE`.
- `GridMapper` (`grid_mapper.dfy`): `MapGrid` is the two nested loops; the
  inner loop over the rows of one column is `MapColumn`. It is proved against the predicate `GridMapped`, which is built from `Coord`,
  `CellIndex`, `RunningMin` and `RunningMax`. The lemmas cover bounds,
  ordering and the range rules.
- `Legend` (`legend.dfy`): `BuildLegend` is the legend loop. It is proved
  against `LegendBuilt`, which is built from `Fraction`, `Interpolate`,
  `Colour` and `LegendX`. The lemmas cover the endpoints, monotonicity and
  colours.
- `HeatMapWidget` (`widget.dfy`): `OnMessage` is the callback. It maps the
  grid and, when `showLegend === true`, builds the legend from the range the
  mapper reported.

Modelling decisions:

- JavaScript numbers in the payload and the configured range are `real`. The
  container and canvas sizes are `nat`, as DOM `clientWidth`/`clientHeight`
  are integers. With integer sizes, `Math.floor(column * (W / (columns + 1)))`
  becomes the exact `(column * W) / (columns + 1)`.
- `config.minMax` is compared with `=== true` and `=== false`. It is modelled
  as three cases: `IsTrue`, `IsFalse`, and `Neither` (undefined, a string, ...).
- `config.legendCount` is modelled as the result of `parseInt`: `None` stands
  for NaN.
- `Number.MAX_VALUE` is written out exactly, as 2^1024 - 2^971.

What the code does, and does not do:

- The code handles bare numeric cells only. There are no label-tagged cells.
- Rows and columns come from the configuration only. A message cannot
  override them.
- A payload of the wrong shape is silently ignored. No error is raised.
- With `minMax === false`, the running minimum is seeded with
  `Number.MAX_VALUE`, not with infinity. The running maximum is seeded with 0.
  So the reported maximum is never below 0; `GridMapper.ComputedRange`
  proves this.
- When `minMax` is neither `true` nor `false`, the seeds are reported
  unchanged.
- The legend count falls back to 2 only when it parses to 0 or NaN. A
  negative count draws no samples. A count of 1 divides 0 by 0.
- The legend x uses the canvas's displayed width (`clientWidth`). It is
  multiplied by `width / clientWidth`, or by 1 when `clientWidth` is 0.

## Model

| member | source | states |
|---|---|---|
| `GridMapper.Accepts` | heat_map.js:91 | The guard of a drawing pass: the payload is an array and its length is exactly `rows * columns`. |
| `GridMapper.Coord` | heat_map.js:128-152 | The pixel coordinate of 1-based grid line i out of n over a side of `size` pixels: `i * (size / (n + 1))`, rounded down. |
| `GridMapper.CellIndex` | heat_map.js:95-158 | The payload position read for the cell at (column, row): the running index, which starts at 0 and grows by one per cell in column-major order, is `(column-1)*rows + (row-1)`. |
| `GridMapper.RunningMax` | heat_map.js:145 | The `Math.max` accumulator over the values read so far, starting from its seed. |
| `GridMapper.RunningMin` | heat_map.js:146 | The `Math.min` accumulator over the values read so far, starting from its seed. |
| `GridMapper.RangeOf` | heat_map.js:92-147 | The range after a prefix of the cells: the configured one with `minMax === true`; the running extremes seeded with `Number.MAX_VALUE` and 0 with `minMax === false`; the untouched seeds otherwise. |
| `GridMapper.GridMapped` | heat_map.js:139-163 | The renderer data for an accepted payload: one point per cell in payload order, each carrying its cell's value, at its column's x and its row's y, with the range given by `RangeOf`. |
| `GridMapper.PointAt` | heat_map.js:141-156 | The point pushed for payload position k: the value at k, at the x of column `k / rows + 1` and the y of row `k % rows + 1`. |
| `GridMapper.MapColumn` | heat_map.js:140-159 | One pass of the inner loop: starting at the first position of a column, it pushes the points of that column's rows, each equal to the point for its payload position, and keeps the range rules over the longer prefix. |
| `GridMapper.PointAtCell` | heat_map.js:139-158 | The point the loops push for cell (column, row) is the point for its payload position. |
| `GridMapper.MappedByPosition` | heat_map.js:139-163 | A point list that holds, at every payload position, the point for that position, together with the range rules, is the renderer data `GridMapped` describes. |
| `GridMapper.GridMappedUnique` | heat_map.js:91-163 | The renderer data is fully determined by the payload, the configuration and the container size: two results that both satisfy `GridMapped` are equal. |
| `GridMapper.MapGrid` | heat_map.js:91-163 | Returns nothing exactly when the payload is not an array of exactly `rows * columns` entries. Otherwise: exactly `rows * columns` points. The point at list position k carries payload value k unchanged. The cell at (column, row) sits at position `(column-1)*rows + (row-1)`, at x = `column*W/(columns+1)` and y = `row*H/(rows+1)`, both rounded down. The range follows the three `minMax` rules. |
| `GridMapper.CellIndexInGrid` | heat_map.js:139-141 | Every cell visited by the column-major walk reads a position inside the payload. |
| `GridMapper.CellOfIndex` | heat_map.js:139-158 | Every payload position k below `rows * columns` is the position of a visited (column, row) cell, with `1 <= column <= columns` and `1 <= row <= rows`. |
| `GridMapper.CoordBounds` | heat_map.js:128-152 | A coordinate lies within `[0, size]`. It is strictly below `size` when `size > 0`. It is strictly above 0 when there is at least one pixel per step. |
| `GridMapper.CoordMonotone` | heat_map.js:151-152 | Coordinates never decrease as the column (or row) number grows. |
| `GridMapper.CoordSeparated` | heat_map.js:151-152 | With `size >= n + 1`, distinct columns (or rows) get distinct pixels, in increasing order. |
| `GridMapper.RunningMaxIsMaximum` | heat_map.js:144-147 | The `Math.max` accumulator is at least its seed and every value seen, and equals the seed or one of the values. |
| `GridMapper.RunningMinIsMinimum` | heat_map.js:144-147 | The `Math.min` accumulator is at most its seed and every value seen, and equals the seed or one of the values. |
| `GridMapper.PointsInsideContainer` | heat_map.js:139-156 | Every point of a mapped grid has `0 <= x <= W` and `0 <= y <= H`, strictly below the far edge when that side is not empty. |
| `GridMapper.PointsFollowGrid` | heat_map.js:139-156 | Points in one column share x. Points in one row share y. x never decreases from one column to a later one. |
| `GridMapper.ComputedRange` | heat_map.js:92-147 | With `minMax === false`, every value lies in `[min, max]`. min is `Number.MAX_VALUE` or a grid value. max is 0 or a grid value. So max is never below 0, and it is exactly 0 when no value is positive. |
| `GridMapper.FixedRange` | heat_map.js:92-135 | With `minMax === true`, the configured range is reported whatever the data. With `minMax` neither true nor false, the seeds `Number.MAX_VALUE` and 0 are reported. |
| `Legend.LegendCount` | heat_map.js:247 | The sample count is never 0. It is 2 when the setting does not parse. Otherwise it is the parsed number, or 2 in place of 0. |
| `Legend.Fraction` | heat_map.js:254 | Sample j of count sits at fraction `j / (count - 1)` along the scale. |
| `Legend.Interpolate` | heat_map.js:257 | The value shown at a fraction: `(max - min) * fraction + min`. |
| `Legend.Colour` | heat_map.js:260-262 | The colour at a fraction, between blue `rgb(0, 0, 255)` and red `rgb(255, 0, 0)`. |
| `Legend.LegendX` | heat_map.js:266 | The x of a sample: `((clientWidth - 2*40) * fraction + 40) * ratio`. |
| `Legend.LegendBuilt` | heat_map.js:252-270 | A built legend: `max(count, 0)` entries; entry j carries fraction j's value, colour and x. |
| `Legend.Ratio` | heat_map.js:233-237 | The scale factor times the displayed width is the backing-store width, when the canvas is displayed. It is 1 when `clientWidth` is 0. |
| `Legend.BuildLegend` | heat_map.js:233-270 | Produces `count` entries (none for a negative count). Entry j has fraction `j/(count-1)`, value `(max-min)*fraction + min`, the blue-to-red colour at that fraction, and x `((clientWidth - 80)*fraction + 40)*ratio`. |
| `Legend.FractionOrder` | heat_map.js:252-254 | For count >= 2, fractions are 0 at the first sample and 1 at the last, and strictly increase, staying in [0, 1]. |
| `Legend.InterpolateOrder` | heat_map.js:257 | The legend value is min at fraction 0 and max at fraction 1. When min <= max it never decreases along the scale and stays within [min, max] for fractions in [0, 1]. |
| `Legend.ColourScale` | heat_map.js:259-262 | Green is always 0 and red + blue = 255. Fraction 0 is pure blue and fraction 1 pure red. For fractions in [0, 1] both channels stay in 0..255. |
| `Legend.LegendXOrder` | heat_map.js:249-266 | When `clientWidth > 80` and the backing store is not empty, x strictly increases with the fraction. |
| `Legend.RatioPositive` | heat_map.js:233-237 | A non-empty backing store gives a positive scale factor, whether or not the canvas is displayed. |
| `Legend.LegendEnds` | heat_map.js:252-266 | In a built legend with at least two samples, the first entry is (0, min, blue, `40*ratio`) and the last is (1, max, red, `(clientWidth-40)*ratio`). |
| `Legend.LegendOrdered` | heat_map.js:252-266 | Along a built legend, fractions strictly increase. Values never decrease when min <= max. x strictly increases when `clientWidth > 80` and the backing store is not empty. |
| `Legend.LegendColours` | heat_map.js:257-262 | Every entry of a built legend has green 0, red + blue = 255, both channels in 0..255, and a value within [min, max] when min <= max. |
| `HeatMapWidget.OnMessage` | heat_map.js:85-272 | Produces a frame exactly when a message arrived whose payload is an array of exactly `rows * columns` entries. The frame's renderer data is the mapped grid. It holds a legend exactly when `showLegend === true`, and that legend is built from the range the mapper reported. |

## Left out

- The HTML template, the configuration check, widget registration, the
  `close` handler and the static file route (`HTML`, `checkConfig`,
  `HeatMapNode`, `ui.addWidget`, `registerType`, `RED.httpNode.get`). These
  are the host runtime's plumbing and file/network I/O.
- The external `h337` renderer: `h337.create`, `configure`, `setData` and the
  zero-size renderer workaround. Its internals are not visible. The model
  stops at the `{ min, max, data }` object that would be handed to `setData`.
- All canvas drawing: `getContext`, fonts, `fillText`, `clearRect`,
  `fillStyle`, and the value overlay drawn when `showValues === true`. The
  model computes positions, values and colours, not pixels.
- `toFixed` rounding of displayed numbers, `parseInt`/`parseFloat` string
  coercion (the model takes their results), and IEEE floating point. Values
  are reals, so NaN, infinities, `Math.max`/`Math.min` with NaN, and
  rounding in `column * (W / (columns + 1))` are not modelled.
- GridMapper.MapGrid: the length check multiplies the raw configured
  `rows * columns`, while the loops use `parseInt` of each. The model takes
  both as the same natural numbers, so a non-integer configuration is not
  modelled.
- GridMapper.MapGrid: payload entries are taken to be numbers. The code
  also accepts an array of the right length whose entries are not numbers
  (strings, objects, ...). `Math.max`/`Math.min` coerce those, possibly to
  NaN, and the point stores them unchanged. Such payloads cannot be
  represented here.
- Legend.BuildLegend: a legend count of 1 is excluded by its precondition,
  because the code then computes `0 / 0` (NaN).
- HeatMapWidget.OnMessage: excludes a legend count of 1 when the legend is
  shown, for the same reason.
- The UI handlers `$scope.change` and `$scope.enterkey`, which only forward
  user input to the host.
