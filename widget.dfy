/** The heat map widget's `$watch('msg')` callback: one pass per incoming
    message, from the payload to what is handed to the density-map renderer
    and, when the legend is shown, the legend samples. */
module HeatMapWidget {
  import opened HeatMapTypes
  import GridMapper
  import Legend

  /** What one pass produces: the renderer's `{ min, max, data }` object and,
      when `showLegend === true`, the legend samples. */
  datatype Frame = Frame(heat: HeatData, legend: Option<seq<LegendEntry>>)

  /** Handles one message. An undefined message, or one whose payload is not
      an array of exactly `rows * columns` entries, produces nothing.
      Otherwise the grid is mapped over the `containerWidth` x `containerHeight` container,
      and the legend is built from the range the mapper reported. */
  method OnMessage(msg: Option<Message>, cfg: Config, containerWidth: nat, containerHeight: nat,
                   legendCanvas: LegendCanvas)
    returns (r: Option<Frame>)
    requires cfg.showLegend ==> Legend.LegendCount(cfg.legendCount) != 1
    ensures r.Some? <==> msg.Some? && GridMapper.Accepts(msg.value.payload, cfg)
    ensures r.Some? ==>
              GridMapper.GridMapped(msg.value.payload.values, cfg, containerWidth, containerHeight, r.value.heat)
    ensures r.Some? ==> (r.value.legend.Some? <==> cfg.showLegend)
    ensures r.Some? && cfg.showLegend ==>
              Legend.LegendBuilt(r.value.heat.min, r.value.heat.max, Legend.LegendCount(cfg.legendCount),
                                 legendCanvas, r.value.legend.value)
  {
    if msg.None? {
      return None;
    }
    var heat := GridMapper.MapGrid(msg.value.payload, cfg, containerWidth, containerHeight);
    if heat.None? {
      return None;
    }
    var legend: Option<seq<LegendEntry>> := None;
    if cfg.showLegend {
      var entries := Legend.BuildLegend(heat.value.min, heat.value.max, cfg.legendCount, legendCanvas);
      legend := Some(entries);
    }
    r := Some(Frame(heat.value, legend));
  }
}
