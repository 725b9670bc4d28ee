/** The temperature graph drawn on each frame, as the coordinates handed to
    each drawing call. Geometry is exact `real` arithmetic; colours, widths
    and fonts are not modelled. */
module GraphGeometry {
  import opened Outcomes
  import opened PyFormat

  /** The graph settings of a `TimeLapse` object, in pixels. */
  datatype GraphConfig = GraphConfig(
    graphHeight: int,
    graphWidth: int,
    padding: int,
    graphHeightMargin: int,
    graphWidthMargin: int,
    tickerWidth: int,
    plotPointSize: Option<real>)

  /** The defaults set by the constructor. */
  const DefaultGraph := GraphConfig(650, 4086, 60, 75, 190, 20, None)

  /** The temperature of the freezing line. */
  const Freezing := 32

  /** The arguments of one drawing call: a box or a line as its two corner
      or end points, a text as its anchor and string. */
  datatype DrawCall =
    | Rectangle(x0: real, y0: real, x1: real, y1: real)
    | Line(x0: real, y0: real, x1: real, y1: real)
    | Ellipse(x0: real, y0: real, x1: real, y1: real)
    | Text(x: real, y: real, text: string)

  datatype Point = Point(x: real, y: real)

  /** Bottom of the plot area (where `deg_min` is drawn). */
  function PlotBottom(cfg: GraphConfig): real
  {
    (cfg.graphHeightMargin + cfg.graphHeight - cfg.padding) as real
  }

  /** Top of the plot area (where `deg_max` is drawn). */
  function PlotTop(cfg: GraphConfig): real
  {
    (cfg.graphHeightMargin + cfg.padding) as real
  }

  /** Left end of the x axis. */
  function PlotLeft(cfg: GraphConfig): real
  {
    (cfg.graphWidthMargin + cfg.padding) as real
  }

  /** Right end of the x axis. */
  function PlotRight(cfg: GraphConfig): real
  {
    (cfg.graphWidthMargin + cfg.graphWidth - cfg.padding) as real
  }

  /** `compute_pixels_per_temp`: the y-axis height over the temperature
      range. `float(None)` raises TypeError; an empty range divides by zero. */
  function PixelsPerTemp(cfg: GraphConfig, degMin: Option<int>, degMax: Option<int>): (r: Result<real>)
    ensures r.Failure? <==> degMin.None? || degMax.None? || degMin.value == degMax.value
    ensures r.Failure? && (degMin.None? || degMax.None?) ==> r.error == TypeError
    ensures r.Failure? && degMin.Some? && degMax.Some? ==> r.error == ZeroDivisionError
    ensures r.Success? ==> r.value * (degMax.value - degMin.value) as real == PlotBottom(cfg) - PlotTop(cfg)
  {
    if degMax.None? || degMin.None? then Failure(TypeError)
    else if degMax.value == degMin.value then Failure(ZeroDivisionError)
    else Success((cfg.graphHeight - cfg.padding * 2) as real / (degMax.value - degMin.value) as real)
  }

  /** `get_temp_y_point`: the bottom of the plot area, raised by the
      temperature's distance from `deg_min` scaled by `pixels_per_degree`. */
  function YPoint(cfg: GraphConfig, degMin: int, pixelsPerDegree: real, temp: int): real
  {
    (cfg.graphHeightMargin + cfg.graphHeight - cfg.padding) as real - (temp - degMin) as real * pixelsPerDegree
  }

  /** The scale set by PixelsPerTemp puts `deg_min` on the bottom of the plot
      area, `deg_max` on its top, a higher temperature strictly higher up
      (smaller y) and every temperature of the range inside the area. */
  lemma YScale(cfg: GraphConfig, lo: int, hi: int, t: int, u: int)
    requires lo < hi && cfg.graphHeight > 2 * cfg.padding
    ensures var ppd := PixelsPerTemp(cfg, Some(lo), Some(hi)).value;
      && YPoint(cfg, lo, ppd, lo) == PlotBottom(cfg)
      && YPoint(cfg, lo, ppd, hi) == PlotTop(cfg)
      && (t < u ==> YPoint(cfg, lo, ppd, u) < YPoint(cfg, lo, ppd, t))
      && (lo <= t <= hi ==> PlotTop(cfg) <= YPoint(cfg, lo, ppd, t) <= PlotBottom(cfg))
  {
    var ppd := PixelsPerTemp(cfg, Some(lo), Some(hi)).value;
    ScaleOfRange(cfg, lo, hi);
    YAtBounds(cfg, lo, hi, ppd);
    if t < u {
      YDecreasing(cfg, lo, ppd, t, u);
    }
    if lo <= t <= hi {
      YInside(cfg, lo, hi, ppd, t);
    }
  }

  /** A non-empty range gets a positive scale that maps it onto the plot height. */
  lemma ScaleOfRange(cfg: GraphConfig, lo: int, hi: int)
    requires lo < hi && cfg.graphHeight > 2 * cfg.padding
    ensures PixelsPerTemp(cfg, Some(lo), Some(hi)).Success?
    ensures PixelsPerTemp(cfg, Some(lo), Some(hi)).value > 0.0
    ensures PixelsPerTemp(cfg, Some(lo), Some(hi)).value * (hi - lo) as real == PlotBottom(cfg) - PlotTop(cfg)
  {
    var ppd := PixelsPerTemp(cfg, Some(lo), Some(hi)).value;
    PositiveQuotient(ppd, (hi - lo) as real, PlotBottom(cfg) - PlotTop(cfg));
  }

  lemma YAtBounds(cfg: GraphConfig, lo: int, hi: int, ppd: real)
    requires ppd * (hi - lo) as real == PlotBottom(cfg) - PlotTop(cfg)
    ensures YPoint(cfg, lo, ppd, lo) == PlotBottom(cfg)
    ensures YPoint(cfg, lo, ppd, hi) == PlotTop(cfg)
  {
    assert (lo - lo) as real * ppd == 0.0;
    assert (hi - lo) as real * ppd == ppd * (hi - lo) as real;
  }

  lemma YDecreasing(cfg: GraphConfig, lo: int, ppd: real, t: int, u: int)
    requires ppd > 0.0 && t < u
    ensures YPoint(cfg, lo, ppd, u) < YPoint(cfg, lo, ppd, t)
  {
    ScaleLess(ppd, (t - lo) as real, (u - lo) as real);
  }

  lemma YInside(cfg: GraphConfig, lo: int, hi: int, ppd: real, t: int)
    requires ppd > 0.0 && lo <= t <= hi
    requires ppd * (hi - lo) as real == PlotBottom(cfg) - PlotTop(cfg)
    ensures PlotTop(cfg) <= YPoint(cfg, lo, ppd, t) <= PlotBottom(cfg)
  {
    ScaleAtMost(ppd, 0.0, (t - lo) as real);
    ScaleAtMost(ppd, (t - lo) as real, (hi - lo) as real);
    assert (hi - lo) as real * ppd == ppd * (hi - lo) as real;
  }

  lemma PositiveQuotient(q: real, d: real, p: real)
    requires q * d == p && d > 0.0 && p > 0.0
    ensures q > 0.0
  {
    if q <= 0.0 {
      ScaleAtMost(d, q, 0.0);
    }
  }

  lemma ScaleLess(k: real, a: real, b: real)
    requires k > 0.0 && a < b
    ensures a * k < b * k
  {
  }

  lemma ScaleAtMost(k: real, a: real, b: real)
    requires k > 0.0 && a <= b
    ensures a * k <= b * k
  {
  }

  /** `get_x_point` for a series of `n` images. */
  function XPoint(cfg: GraphConfig, n: nat, index: nat): (r: Result<real>)
    ensures r.Failure? <==> n == 1
    ensures r.Failure? ==> r.error == ZeroDivisionError
    ensures r.Success? ==> (r.value - PlotLeft(cfg)) * (n - 1) as real == (cfg.graphWidth - 2 * cfg.padding) as real * index as real
  {
    if n == 1 then Failure(ZeroDivisionError)
    else Success(XAt(cfg, n, index))
  }

  /** The x coordinate `get_x_point` computes when it does not divide by zero. */
  function XAt(cfg: GraphConfig, n: nat, index: nat): real
    requires n != 1
  {
    PlotLeft(cfg) + ((cfg.graphWidth - cfg.padding * 2) as real / (n - 1) as real) * index as real
  }

  /** For n >= 2, the first image sits on the left end of the x axis, the
      last on the right end, and neighbours are a constant step apart; the
      step divides by the whole series length, not by the history shown. */
  lemma XScale(cfg: GraphConfig, n: nat, index: nat)
    requires n >= 2
    ensures XAt(cfg, n, 0) == PlotLeft(cfg)
    ensures XAt(cfg, n, n - 1) == PlotRight(cfg)
    ensures XAt(cfg, n, index + 1) - XAt(cfg, n, index) == (cfg.graphWidth - 2 * cfg.padding) as real / (n - 1) as real
  {
    var step := (cfg.graphWidth - cfg.padding * 2) as real / (n - 1) as real;
    assert step * (n - 1) as real == (cfg.graphWidth - cfg.padding * 2) as real;
    assert step * (index + 1) as real == step * index as real + step;
  }

  /** On the default graph a range of 0..59 degrees gives 530/59 pixels a
      degree, and a 31-image series puts image 15 in the middle of the axis. */
  lemma DefaultScale()
    ensures PixelsPerTemp(DefaultGraph, Some(0), Some(59)) == Success(530.0 / 59.0)
    ensures YPoint(DefaultGraph, 0, 530.0 / 59.0, 59) == 135.0
    ensures XPoint(DefaultGraph, 31, 15) == Success(2233.0)
  {
  }

  /** `draw_graph_borders`: the graph box. */
  function Border(cfg: GraphConfig): DrawCall
  {
    Rectangle(cfg.graphWidthMargin as real, cfg.graphHeightMargin as real,
              (cfg.graphWidthMargin + cfg.graphWidth) as real, (cfg.graphHeightMargin + cfg.graphHeight) as real)
  }

  /** The y axis and the x axis of `draw_grid`. */
  function Axes(cfg: GraphConfig): seq<DrawCall>
  {
    [Line(PlotLeft(cfg), PlotBottom(cfg), PlotLeft(cfg), PlotTop(cfg)),
     Line(PlotLeft(cfg), PlotBottom(cfg), PlotRight(cfg), PlotBottom(cfg))]
  }

  /** A tick on the y axis at height `y`, `ticker_width` wide. */
  function TickLine(cfg: GraphConfig, y: real): DrawCall
  {
    Line(PlotLeft(cfg) - cfg.tickerWidth as real / 2.0, y, PlotLeft(cfg) + cfg.tickerWidth as real / 2.0, y)
  }

  /** The freezing line across the plot area at height `y`. */
  function FreezingLine(cfg: GraphConfig, y: real): DrawCall
  {
    Line(PlotLeft(cfg), y, PlotRight(cfg), y)
  }

  /** The `str(deg) + '°'` labels at the bottom and the top of the graph. */
  function Labels(cfg: GraphConfig, lo: int, hi: int): seq<DrawCall>
  {
    var x := (cfg.graphWidthMargin + 20) as real;
    [Text(x, (cfg.graphHeightMargin + cfg.graphHeight) as real - cfg.padding as real / 2.0 - 20.0, IntToString(lo) + "°"),
     Text(x, cfg.graphHeightMargin as real + cfg.padding as real / 2.0 - 20.0, IntToString(hi) + "°")]
  }

  /** The temperatures `lo <= t <= hi` with `t % 10 == 0`, in the order the
      tick loop meets them (Python's `%` and Dafny's agree for divisor 10). */
  function TicksBetween(lo: int, hi: int): seq<int>
    decreases hi - lo
  {
    if lo > hi then [] else TicksBetween(lo, hi - 1) + (if hi % 10 == 0 then [hi] else [])
  }

  /** The ticks are exactly the multiples of 10 in the range. */
  lemma {:induction false} TicksBetweenExact(lo: int, hi: int, t: int)
    ensures t in TicksBetween(lo, hi) <==> lo <= t <= hi && t % 10 == 0
    decreases hi - lo
  {
    if lo <= hi {
      TicksBetweenExact(lo, hi - 1, t);
    }
  }

  /** The ticks come in strictly increasing order, all within the range. */
  lemma {:induction false} TicksBetweenIncreasing(lo: int, hi: int)
    ensures forall i :: 0 <= i < |TicksBetween(lo, hi)| ==> lo <= TicksBetween(lo, hi)[i] <= hi
    ensures forall i, j :: 0 <= i < j < |TicksBetween(lo, hi)| ==> TicksBetween(lo, hi)[i] < TicksBetween(lo, hi)[j]
    decreases hi - lo
  {
    if lo <= hi {
      TicksBetweenIncreasing(lo, hi - 1);
    }
  }

  /** A tick line for each tick temperature, in order. */
  function TickLines(cfg: GraphConfig, lo: int, pixelsPerDegree: real, ticks: seq<int>): (r: seq<DrawCall>)
    ensures |r| == |ticks|
  {
    if ticks == [] then []
    else TickLines(cfg, lo, pixelsPerDegree, ticks[..|ticks| - 1]) + [TickLine(cfg, YPoint(cfg, lo, pixelsPerDegree, ticks[|ticks| - 1]))]
  }

  lemma {:induction false} TickLinesAt(cfg: GraphConfig, lo: int, pixelsPerDegree: real, ticks: seq<int>, i: int)
    requires 0 <= i < |ticks|
    ensures TickLines(cfg, lo, pixelsPerDegree, ticks)[i] == TickLine(cfg, YPoint(cfg, lo, pixelsPerDegree, ticks[i]))
  {
    if i < |ticks| - 1 {
      TickLinesAt(cfg, lo, pixelsPerDegree, ticks[..|ticks| - 1], i);
    }
  }

  /** Everything `draw_grid` draws once both bounds are set. */
  function GridCalls(cfg: GraphConfig, lo: int, hi: int, pixelsPerDegree: real): seq<DrawCall>
  {
    Axes(cfg)
      + TickLines(cfg, lo, pixelsPerDegree, TicksBetween(lo, hi))
      + (if lo <= Freezing <= hi then [FreezingLine(cfg, YPoint(cfg, lo, pixelsPerDegree, Freezing))] else [])
      + Labels(cfg, lo, hi)
  }

  /** `draw_grid` draws the two axes, then one tick exactly at each multiple
      of 10 from `deg_min` to `deg_max` in increasing order, then the
      freezing line if and only if `deg_min <= 32 <= deg_max`, then the two
      labels. */
  lemma GridLayout(cfg: GraphConfig, lo: int, hi: int, pixelsPerDegree: real)
    ensures var calls, ticks := GridCalls(cfg, lo, hi, pixelsPerDegree), TicksBetween(lo, hi);
      && |calls| == 4 + |ticks| + (if lo <= Freezing <= hi then 1 else 0)
      && calls[..2] == Axes(cfg)
      && (forall i :: 0 <= i < |ticks| ==> calls[2 + i] == TickLine(cfg, YPoint(cfg, lo, pixelsPerDegree, ticks[i])))
      && (forall t :: t in ticks <==> lo <= t <= hi && t % 10 == 0)
      && (forall i, j :: 0 <= i < j < |ticks| ==> ticks[i] < ticks[j])
      && (lo <= Freezing <= hi ==> calls[2 + |ticks|] == FreezingLine(cfg, YPoint(cfg, lo, pixelsPerDegree, Freezing)))
      && calls[|calls| - 2..] == Labels(cfg, lo, hi)
  {
    var ticks := TicksBetween(lo, hi);
    forall t ensures t in ticks <==> lo <= t <= hi && t % 10 == 0 {
      TicksBetweenExact(lo, hi, t);
    }
    TicksBetweenIncreasing(lo, hi);
    forall i | 0 <= i < |ticks| ensures GridCalls(cfg, lo, hi, pixelsPerDegree)[2 + i] == TickLine(cfg, YPoint(cfg, lo, pixelsPerDegree, ticks[i])) {
      TickLinesAt(cfg, lo, pixelsPerDegree, ticks, i);
    }
  }

  /** With the scale PixelsPerTemp sets, every tick and the freezing line
      lie inside the plot area. */
  lemma GridInsidePlot(cfg: GraphConfig, lo: int, hi: int, t: int)
    requires lo < hi && cfg.graphHeight > 2 * cfg.padding
    requires t in TicksBetween(lo, hi) || (t == Freezing && lo <= Freezing <= hi)
    ensures var ppd := PixelsPerTemp(cfg, Some(lo), Some(hi)).value;
      PlotTop(cfg) <= YPoint(cfg, lo, ppd, t) <= PlotBottom(cfg)
  {
    TicksBetweenExact(lo, hi, t);
    YScale(cfg, lo, hi, t, t);
  }

  /** Whether `add_temps` draws a marker at each point: `plot_point_size`
      is truthy, that is neither None nor zero. */
  predicate MarkersOn(cfg: GraphConfig)
  {
    cfg.plotPointSize.Some? && cfg.plotPointSize.value != 0.0
  }

  /** The ellipse of `plot_point_size` centred on `p`. */
  function Marker(cfg: GraphConfig, p: Point): DrawCall
    requires cfg.plotPointSize.Some?
  {
    var h := cfg.plotPointSize.value / 2.0;
    Ellipse(p.x - h, p.y - h, p.x + h, p.y + h)
  }

  /** Where `add_temps` puts history entry `index` with temperature `temp`. */
  function PointAt(cfg: GraphConfig, lo: int, pixelsPerDegree: real, n: nat, index: nat, temp: int): Point
    requires n != 1
  {
    Point(XAt(cfg, n, index), YPoint(cfg, lo, pixelsPerDegree, temp))
  }

  /** The segment from `p` to `q`. */
  function Segment(p: Point, q: Point): DrawCall
  {
    Line(p.x, p.y, q.x, q.y)
  }

  /** What one iteration of the `add_temps` loop draws for history entry `k`:
      its marker when markers are on, then the segment from the previous
      point when there is one. */
  function StepCalls(cfg: GraphConfig, lo: int, pixelsPerDegree: real, n: nat, temps: seq<int>, k: nat): seq<DrawCall>
    requires n != 1 && k < |temps|
  {
    var p := PointAt(cfg, lo, pixelsPerDegree, n, k, temps[k]);
    (if MarkersOn(cfg) then [Marker(cfg, p)] else [])
      + (if k > 0 then [Segment(PointAt(cfg, lo, pixelsPerDegree, n, k - 1, temps[k - 1]), p)] else [])
  }

  /** Everything `add_temps` draws for the history `temps`. */
  function PlotCalls(cfg: GraphConfig, lo: int, pixelsPerDegree: real, n: nat, temps: seq<int>): seq<DrawCall>
    requires n != 1 || temps == []
  {
    if temps == [] then []
    else PlotCalls(cfg, lo, pixelsPerDegree, n, temps[..|temps| - 1]) + StepCalls(cfg, lo, pixelsPerDegree, n, temps, |temps| - 1)
  }

  /** Without markers, `add_temps` draws exactly one segment joining each
      pair of consecutive history points, in order. */
  lemma {:induction false} PlotConnectsPoints(cfg: GraphConfig, lo: int, pixelsPerDegree: real, n: nat, temps: seq<int>)
    requires n != 1 && !MarkersOn(cfg)
    ensures var calls := PlotCalls(cfg, lo, pixelsPerDegree, n, temps);
      && |calls| == (if temps == [] then 0 else |temps| - 1)
      && forall i :: 0 <= i < |calls| ==>
           calls[i] == Segment(PointAt(cfg, lo, pixelsPerDegree, n, i, temps[i]), PointAt(cfg, lo, pixelsPerDegree, n, i + 1, temps[i + 1]))
  {
    if temps != [] {
      var prefix := temps[..|temps| - 1];
      PlotConnectsPoints(cfg, lo, pixelsPerDegree, n, prefix);
      assert forall i :: 0 <= i < |prefix| ==> prefix[i] == temps[i];
    }
  }

  /** With markers, `add_temps` alternates: the marker of point 0, then for
      each later point its marker followed by the segment reaching it. */
  lemma {:induction false} PlotMarksPoints(cfg: GraphConfig, lo: int, pixelsPerDegree: real, n: nat, temps: seq<int>)
    requires n != 1 && MarkersOn(cfg)
    ensures var calls := PlotCalls(cfg, lo, pixelsPerDegree, n, temps);
      && |calls| == (if temps == [] then 0 else 2 * |temps| - 1)
      && (temps != [] ==> calls[0] == Marker(cfg, PointAt(cfg, lo, pixelsPerDegree, n, 0, temps[0])))
      && (forall k :: 1 <= k < |temps| ==> calls[2 * k - 1] == Marker(cfg, PointAt(cfg, lo, pixelsPerDegree, n, k, temps[k])))
      && (forall k :: 1 <= k < |temps| ==>
           calls[2 * k] == Segment(PointAt(cfg, lo, pixelsPerDegree, n, k - 1, temps[k - 1]), PointAt(cfg, lo, pixelsPerDegree, n, k, temps[k])))
  {
    if temps != [] {
      var prefix := temps[..|temps| - 1];
      PlotMarksPoints(cfg, lo, pixelsPerDegree, n, prefix);
      assert forall i :: 0 <= i < |prefix| ==> prefix[i] == temps[i];
    }
  }

  /** The plot of a shorter history is the start of the plot of a longer one:
      each frame redraws the previous frame's curve and extends it. */
  lemma {:induction false} PlotExtends(cfg: GraphConfig, lo: int, pixelsPerDegree: real, n: nat, temps: seq<int>, m: nat)
    requires n != 1 && m <= |temps|
    ensures PlotCalls(cfg, lo, pixelsPerDegree, n, temps[..m]) <= PlotCalls(cfg, lo, pixelsPerDegree, n, temps)
  {
    if m < |temps| {
      var prefix := temps[..|temps| - 1];
      PlotExtends(cfg, lo, pixelsPerDegree, n, prefix, m);
      assert prefix[..m] == temps[..m];
    } else {
      assert temps[..m] == temps;
    }
  }

  /** `draw_grid`: the axes, the tick loop stepping `current_deg` from
      `deg_min` up to `deg_max`, the freezing line and the labels.
      Comparing None raises TypeError. */
  method DrawGrid(cfg: GraphConfig, degMin: Option<int>, degMax: Option<int>, pixelsPerDegree: real)
    returns (r: Result<seq<DrawCall>>)
    ensures degMin.None? || degMax.None? ==> r == Failure(TypeError)
    ensures degMin.Some? && degMax.Some? ==> r == Success(GridCalls(cfg, degMin.value, degMax.value, pixelsPerDegree))
  {
    if degMin.None? || degMax.None? {
      return Failure(TypeError);
    }
    var lo, hi := degMin.value, degMax.value;
    var ticks: seq<DrawCall> := [];
    var currentDeg := lo;
    while currentDeg <= hi
      invariant lo <= currentDeg <= if hi < lo then lo else hi + 1
      invariant ticks == TickLines(cfg, lo, pixelsPerDegree, TicksBetween(lo, currentDeg - 1))
      decreases hi - currentDeg
    {
      TicksStep(lo, currentDeg);
      if currentDeg % 10 == 0 {
        ticks := ticks + [TickLine(cfg, YPoint(cfg, lo, pixelsPerDegree, currentDeg))];
        TickLinesSnoc(cfg, lo, pixelsPerDegree, TicksBetween(lo, currentDeg - 1), currentDeg);
      }
      currentDeg := currentDeg + 1;
    }
    var freezing := if lo <= Freezing <= hi then [FreezingLine(cfg, YPoint(cfg, lo, pixelsPerDegree, Freezing))] else [];
    return Success(Axes(cfg) + ticks + freezing + Labels(cfg, lo, hi));
  }

  lemma TicksStep(lo: int, t: int)
    requires lo <= t
    ensures t % 10 == 0 ==> TicksBetween(lo, t) == TicksBetween(lo, t - 1) + [t]
    ensures t % 10 != 0 ==> TicksBetween(lo, t) == TicksBetween(lo, t - 1)
  {
    assert TicksBetween(lo, t - 1) + [] == TicksBetween(lo, t - 1);
  }

  lemma TickLinesSnoc(cfg: GraphConfig, lo: int, pixelsPerDegree: real, ticks: seq<int>, t: int)
    ensures TickLines(cfg, lo, pixelsPerDegree, ticks + [t]) == TickLines(cfg, lo, pixelsPerDegree, ticks) + [TickLine(cfg, YPoint(cfg, lo, pixelsPerDegree, t))]
  {
    assert (ticks + [t])[..|ticks|] == ticks;
  }

  /** `add_temps`: walks the history carrying the last point, drawing each
      marker and each connecting segment. `get_x_point` divides by zero on
      a one-image series as soon as there is a point to place. */
  method AddTemps(cfg: GraphConfig, lo: int, pixelsPerDegree: real, n: nat, temps: seq<int>)
    returns (r: Result<seq<DrawCall>>)
    ensures r.Failure? <==> n == 1 && temps != []
    ensures r.Failure? ==> r.error == ZeroDivisionError
    ensures r.Success? ==> r.value == PlotCalls(cfg, lo, pixelsPerDegree, n, temps)
  {
    var calls: seq<DrawCall> := [];
    var lastPoint: Option<Point> := None;
    var index := 0;
    while index < |temps|
      invariant 0 <= index <= |temps|
      invariant n != 1 || index == 0
      invariant calls == PlotCalls(cfg, lo, pixelsPerDegree, n, temps[..index])
      invariant index == 0 ==> lastPoint.None?
      invariant index > 0 ==> lastPoint == Some(PointAt(cfg, lo, pixelsPerDegree, n, index - 1, temps[index - 1]))
    {
      var y := YPoint(cfg, lo, pixelsPerDegree, temps[index]);
      var x := XPoint(cfg, n, index);
      if x.Failure? {
        return Failure(x.error);
      }
      var p := Point(x.value, y);
      if MarkersOn(cfg) {
        calls := calls + [Marker(cfg, p)];
      }
      if lastPoint.Some? {
        calls := calls + [Segment(lastPoint.value, p)];
      }
      assert temps[..index + 1][..index] == temps[..index];
      lastPoint := Some(p);
      index := index + 1;
    }
    assert temps[..index] == temps;
    return Success(calls);
  }

  /** What `draw_graph` draws on one frame: the border, the grid and the
      history's points. A record that was never processed has no image or
      history (KeyError). */
  function GraphCalls(cfg: GraphConfig, degMin: Option<int>, degMax: Option<int>, pixelsPerDegree: real, n: nat, history: Option<seq<int>>): Result<seq<DrawCall>>
  {
    if history.None? then Failure(KeyError)
    else if degMin.None? || degMax.None? then Failure(TypeError)
    else if n == 1 && history.value != [] then Failure(ZeroDivisionError)
    else Success([Border(cfg)] + GridCalls(cfg, degMin.value, degMax.value, pixelsPerDegree)
                   + PlotCalls(cfg, degMin.value, pixelsPerDegree, n, history.value))
  }

  /** `draw_graph`: border, then `draw_grid`, then `add_temps`, stopping at
      the first exception. */
  method DrawGraph(cfg: GraphConfig, degMin: Option<int>, degMax: Option<int>, pixelsPerDegree: real, n: nat, history: Option<seq<int>>)
    returns (r: Result<seq<DrawCall>>)
    ensures r == GraphCalls(cfg, degMin, degMax, pixelsPerDegree, n, history)
  {
    if history.None? {
      return Failure(KeyError);
    }
    var border := Border(cfg);
    var grid := DrawGrid(cfg, degMin, degMax, pixelsPerDegree);
    if grid.Failure? {
      return Failure(grid.error);
    }
    var plot := AddTemps(cfg, degMin.value, pixelsPerDegree, n, history.value);
    if plot.Failure? {
      return Failure(plot.error);
    }
    return Success([border] + grid.value + plot.value);
  }

  /** A frame's graph is drawn exactly when the record has its history, both
      bounds are set, and the series is not a single image with points to
      place; it then starts with the border and the grid, and ends with the
      plot of the history. */
  lemma GraphCallsOutcome(cfg: GraphConfig, degMin: Option<int>, degMax: Option<int>, pixelsPerDegree: real, n: nat, history: Option<seq<int>>)
    ensures var r := GraphCalls(cfg, degMin, degMax, pixelsPerDegree, n, history);
      && (r.Success? <==> history.Some? && degMin.Some? && degMax.Some? && (n != 1 || history.value == []))
      && (r.Success? ==>
            && r.value[0] == Border(cfg)
            && r.value[1..1 + |GridCalls(cfg, degMin.value, degMax.value, pixelsPerDegree)|] == GridCalls(cfg, degMin.value, degMax.value, pixelsPerDegree)
            && PlotCalls(cfg, degMin.value, pixelsPerDegree, n, history.value) <= r.value[1 + |GridCalls(cfg, degMin.value, degMax.value, pixelsPerDegree)|..])
  {
    var r := GraphCalls(cfg, degMin, degMax, pixelsPerDegree, n, history);
    if r.Success? {
      var grid := GridCalls(cfg, degMin.value, degMax.value, pixelsPerDegree);
      var plot := PlotCalls(cfg, degMin.value, pixelsPerDegree, n, history.value);
      assert r.value == [Border(cfg)] + grid + plot;
      assert r.value[1 + |grid|..] == plot;
    }
  }
}
