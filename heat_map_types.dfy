/** Values shared by the grid mapper, the legend and the message handler of
    the heat map widget (heat_map.js). Every value here is transient: it is
    recomputed from the configuration and the incoming message on each pass. */
module HeatMapTypes {

  datatype Option<+T> = None | Some(value: T)

  /** The largest finite JavaScript number, `Number.MAX_VALUE`, which is
      (2 - 2^-52) * 2^1023 = 2^1024 - 2^971. The grid mapper seeds its running
      minimum with it. */
  const MaxValue: real := 179769313486231570814527423731704356798070567525844996598917476803157260780028538760589558632766878171540458953514382464234321326889464182768467546703537516986049910576551282076245490090389328944075868508455133942304583236903222948165808559332123348274797826204144723168738177180919299881250404026184124858368.0

  /** What `msg.payload` is: an array, whose entries the model takes to be
      numbers, or anything that is not an array (missing, falsy, an object,
      a string ...). Only an array can ever be drawn. */
  datatype Payload = Cells(values: seq<real>) | NotAnArray

  datatype Message = Message(payload: Payload)

  /** The three ways `config.minMax` is compared: `=== true`, `=== false`, or
      neither (undefined, a string, ...). */
  datatype MinMaxFlag = IsTrue | IsFalse | Neither

  /** The widget configuration, after the numeric coercions the widget applies:
      `rows` and `columns` are the grid size, `minimumValue`/`maximumValue` the
      configured range, and `legendCount` is what `parseInt(config.legendCount)`
      gives, `None` standing for NaN. */
  datatype Config = Config(
    rows: nat,
    columns: nat,
    minMax: MinMaxFlag,
    minimumValue: real,
    maximumValue: real,
    showLegend: bool,
    legendCount: Option<int>)

  /** One weighted point handed to the density-map renderer. */
  datatype Point = Point(x: int, y: int, value: real)

  /** The `{ min, max, data }` object handed to the renderer's `setData`. */
  datatype HeatData = HeatData(min: real, max: real, data: seq<Point>)

  datatype Rgb = Rgb(red: real, green: real, blue: real)

  /** One sample of the legend strip: where it sits, what number it shows and
      in which colour. */
  datatype LegendEntry = LegendEntry(fraction: real, value: real, colour: Rgb, x: real)

  /** The legend canvas: `width` is its backing-store width in pixels,
      `clientWidth` its displayed width. */
  datatype LegendCanvas = LegendCanvas(width: nat, clientWidth: nat)
}
