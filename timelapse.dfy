/** The `TimeLapse` object: load a directory listing into an ordered,
    numbered series, extract a temperature for each image and aggregate the
    range and the per-frame histories, render the frames (with or without
    the graph) under sequential names, and build the ffmpeg command.
    Files, images, OCR and the shell are replaced by inputs and outputs. */
module Pipeline {
  import opened Outcomes
  import opened PyStr
  import opened PyFormat
  import opened SeriesLoader
  import opened Aggregation
  import opened GraphGeometry
  import opened FrameNames
  import opened Extraction

  /** The constructor's default settings. */
  const DefaultExtensions: seq<string> := [".png", ".jpg", ".jpeg"]
  const DefaultFramerate := 25
  const DefaultImagesPerSecond := 15

  /** The default settings at work: a camera's upper-case `.JPG` and a
      `.png` are accepted and a text file is not, and the frame rate is at
      least the image rate, as the comment on `framerate` asks. */
  lemma DefaultSettings()
    ensures IsImageFile("IMG_0001.JPG", DefaultExtensions)
    ensures IsImageFile("scan.png", DefaultExtensions)
    ensures !IsImageFile("notes.txt", DefaultExtensions)
    ensures DefaultFramerate >= DefaultImagesPerSecond
  {
    var lowered := Lower("notes.txt");
    assert lowered[4] == 's' && lowered[6] == 't';
  }

  /** One saved output frame: the image it was made from, the name it is
      saved under, and what was drawn on it. */
  datatype Frame = Frame(source: string, name: string, overlay: seq<DrawCall>)

  /** What `make_video` produces: the saved frames and the ffmpeg command. */
  datatype Video = Video(frames: seq<Frame>, command: string)

  /** The temperature `process_image` settles on for each file name: the
      reading of the OCR text `textOf` gives for it, or else the value the
      user types in for it, `typedOf`. */
  function Reading(textOf: string -> string, typedOf: string -> int): string -> int
  {
    name => ExtractTemperature(textOf(name), typedOf(name))
  }

  /** The temperature found for each record of `s`, in series order. */
  function TemperaturesOf(s: seq<ImageRecord>, temperatureOf: string -> int): (ts: seq<int>)
    ensures |ts| == |s|
  {
    seq(|s|, i requires 0 <= i < |s| => temperatureOf(s[i].fileName))
  }

  /** `p.map(self.process_image, self.image_series)`: new records with the
      same name, order and index, the extracted temperature, and no
      'temps' history yet. */
  function Extracted(s: seq<ImageRecord>, temperatureOf: string -> int): (r: seq<ImageRecord>)
    ensures |r| == |s|
  {
    seq(|s|, i requires 0 <= i < |s| => s[i].(temp := temperatureOf(s[i].fileName), history := None))
  }

  /** The series after the aggregation loop: record i holds a copy of the
      temperatures of records 0..i. */
  function Processed(s: seq<ImageRecord>, temperatureOf: string -> int): (r: seq<ImageRecord>)
    ensures |r| == |s|
  {
    seq(|s|, i requires 0 <= i < |s| =>
      Extracted(s, temperatureOf)[i].(history := Some(TemperaturesOf(s, temperatureOf)[..i + 1])))
  }

  /** After processing, every record keeps its name, key and index, and its
      history has length i + 1 and lists the temperatures of records 0..i
      in series order, its own last. */
  lemma ProcessedHistories(s: seq<ImageRecord>, temperatureOf: string -> int, i: int)
    requires 0 <= i < |s|
    ensures var p := Processed(s, temperatureOf);
      && p[i].fileName == s[i].fileName && p[i].order == s[i].order && p[i].index == s[i].index
      && p[i].temp == temperatureOf(s[i].fileName)
      && p[i].history.Some?
      && |p[i].history.value| == i + 1
      && (forall j :: 0 <= j <= i ==> p[i].history.value[j] == p[j].temp)
  {
  }

  /** Every frame's history extends the previous frame's by exactly the
      frame's own temperature. */
  lemma ProcessedHistoriesGrow(s: seq<ImageRecord>, temperatureOf: string -> int, i: int)
    requires 0 < i < |s|
    ensures var p := Processed(s, temperatureOf);
      p[i].history.value == p[i - 1].history.value + [p[i].temp]
  {
    var ts := TemperaturesOf(s, temperatureOf);
    assert ts[..i + 1] == ts[..i] + [ts[i]];
  }

  /** How a record's graph is drawn for the object's current bounds, scale
      and series length: a function of the record's history. */
  function GraphDrawer(cfg: GraphConfig, degMin: Option<int>, degMax: Option<int>, pixelsPerDegree: real, n: nat)
    : Option<seq<int>> -> Result<seq<DrawCall>>
  {
    history => GraphCalls(cfg, degMin, degMax, pixelsPerDegree, n, history)
  }

  /** One iteration of the aggregation loop at position i: the bounds take
      one more step and record i receives the temperatures so far. */
  lemma AggregationStep(s: seq<ImageRecord>, temperatureOf: string -> int, minInit: Option<int>, maxInit: Option<int>, i: int)
    requires 0 <= i < |s|
    ensures var ts := TemperaturesOf(s, temperatureOf);
      && ts[..i + 1] == ts[..i] + [ts[i]]
      && RunningMax(maxInit, ts[..i + 1]) == MaxStep(RunningMax(maxInit, ts[..i]), ts[i])
      && RunningMin(minInit, ts[..i + 1]) == MinStep(RunningMin(minInit, ts[..i]), ts[i])
      && Extracted(s, temperatureOf)[i].temp == ts[i]
      && Processed(s, temperatureOf)[i] == Extracted(s, temperatureOf)[i].(history := Some(ts[..i] + [ts[i]]))
  {
    var ts := TemperaturesOf(s, temperatureOf);
    assert ts[..i + 1][..i] == ts[..i];
  }

  /** The frames `render_images` saves for the records `records` of a series
      of `n` images: with the graph, each record's drawing (by `draw`) under
      the name of its `index`; without, a plain copy under its 1-based
      position. The first exception stops the loop. */
  function RenderedFrames(records: seq<ImageRecord>, n: nat, addGraph: bool,
                          draw: Option<seq<int>> -> Result<seq<DrawCall>>): Result<seq<Frame>>
  {
    if records == [] then Success([])
    else
      var prev := RenderedFrames(records[..|records| - 1], n, addGraph, draw);
      var rec := records[|records| - 1];
      if prev.Failure? then prev
      else if addGraph then
        var g := draw(rec.history);
        if g.Failure? then Failure(g.error)
        else Success(prev.value + [Frame(rec.fileName, FrameName(rec.index, n), g.value)])
      else Success(prev.value + [Frame(rec.fileName, FrameName(|records|, n), [])])
  }

  /** A successful render with the graph saves one frame per record, in
      series order, from that record's image, under the name of the
      record's index and carrying that record's graph. */
  lemma {:induction false} RenderedGraphFrames(records: seq<ImageRecord>, n: nat,
                                               draw: Option<seq<int>> -> Result<seq<DrawCall>>)
    ensures var r := RenderedFrames(records, n, true, draw);
      r.Success? ==>
        && |r.value| == |records|
        && forall i :: 0 <= i < |records| ==>
             && r.value[i].source == records[i].fileName
             && r.value[i].name == FrameName(records[i].index, n)
             && draw(records[i].history) == Success(r.value[i].overlay)
  {
    if records != [] {
      var init := records[..|records| - 1];
      RenderedGraphFrames(init, n, draw);
      var r := RenderedFrames(records, n, true, draw);
      var prev := RenderedFrames(init, n, true, draw);
      if r.Success? {
        var rec := records[|records| - 1];
        var g := draw(rec.history);
        assert prev.Success? && g.Success?;
        assert r.value == prev.value + [Frame(rec.fileName, FrameName(rec.index, n), g.value)];
        forall i | 0 <= i < |init| ensures r.value[i] == prev.value[i] && records[i] == init[i] { }
      }
    }
  }

  /** A render without the graph saves one unchanged copy per record, in
      series order, under the name of its 1-based position. */
  lemma {:induction false} RenderedCopies(records: seq<ImageRecord>, n: nat,
                                          draw: Option<seq<int>> -> Result<seq<DrawCall>>)
    ensures var r := RenderedFrames(records, n, false, draw);
      && r.Success?
      && |r.value| == |records|
      && forall i :: 0 <= i < |records| ==>
           r.value[i] == Frame(records[i].fileName, FrameName(i + 1, n), [])
  {
    if records != [] {
      var init := records[..|records| - 1];
      RenderedCopies(init, n, draw);
      var r := RenderedFrames(records, n, false, draw);
      var prev := RenderedFrames(init, n, false, draw);
      forall i | 0 <= i < |init| ensures r.value[i] == prev.value[i] && records[i] == init[i] { }
    }
  }

  /** One more record: the render of the first i + 1 records extends the
      render of the first i by that record's frame. */
  lemma RenderStep(records: seq<ImageRecord>, i: nat, n: nat, addGraph: bool,
                   draw: Option<seq<int>> -> Result<seq<DrawCall>>, frames: seq<Frame>)
    requires i < |records|
    requires RenderedFrames(records[..i], n, addGraph, draw) == Success(frames)
    ensures var rec, g := records[i], draw(records[i].history);
      RenderedFrames(records[..i + 1], n, addGraph, draw)
        == if !addGraph then Success(frames + [Frame(rec.fileName, FrameName(i + 1, n), [])])
           else if g.Failure? then Failure(g.error)
           else Success(frames + [Frame(rec.fileName, FrameName(rec.index, n), g.value)])
  {
    assert records[..i + 1][..i] == records[..i];
  }

  /** Rendering with the graph fails exactly when some record's graph
      cannot be drawn, and then with the exception of the first such
      record; rendering without it never fails. */
  lemma {:induction false} RenderedFramesOutcome(records: seq<ImageRecord>, n: nat, addGraph: bool,
                                                 draw: Option<seq<int>> -> Result<seq<DrawCall>>)
    ensures var r := RenderedFrames(records, n, addGraph, draw);
      && (!addGraph ==> r.Success?)
      && (r.Success? <==> !addGraph || forall i :: 0 <= i < |records| ==> draw(records[i].history).Success?)
      && (r.Failure? ==>
            exists i :: && 0 <= i < |records|
                        && draw(records[i].history) == Failure(r.error)
                        && forall j :: 0 <= j < i ==> draw(records[j].history).Success?)
  {
    if records != [] {
      var init := records[..|records| - 1];
      RenderedFramesOutcome(init, n, addGraph, draw);
      assert forall i :: 0 <= i < |init| ==> init[i] == records[i];
    }
  }

  /** Once a prefix of the series fails, the whole render fails the same way. */
  lemma {:induction false} RenderedFramesStop(records: seq<ImageRecord>, m: nat, n: nat, addGraph: bool,
                                              draw: Option<seq<int>> -> Result<seq<DrawCall>>)
    requires m <= |records|
    requires RenderedFrames(records[..m], n, addGraph, draw).Failure?
    ensures RenderedFrames(records, n, addGraph, draw)
         == RenderedFrames(records[..m], n, addGraph, draw)
  {
    if m < |records| {
      var init := records[..|records| - 1];
      assert init[..m] == records[..m];
      RenderedFramesStop(init, m, n, addGraph, draw);
    } else {
      assert records[..m] == records;
    }
  }

  /** On a numbered series the two branches of `render_images` save the
      k-th record under the same name, and those names are what the ffmpeg
      pattern expands to for frame numbers 1..N, in string order. */
  lemma RenderBranchesAgree(records: seq<ImageRecord>, draw: Option<seq<int>> -> Result<seq<DrawCall>>)
    requires forall i :: 0 <= i < |records| ==> records[i].index == i + 1
    requires RenderedFrames(records, |records|, true, draw).Success?
    ensures var n := |records|;
      var graphed := RenderedFrames(records, n, true, draw).value;
      var copied := RenderedFrames(records, n, false, draw);
      && copied.Success?
      && |graphed| == |copied.value| == n
      && (forall i :: 0 <= i < n ==> graphed[i].name == copied.value[i].name == FrameName(i + 1, n))
      && (forall i :: 0 <= i < n ==> ExpandSequencePattern(FramePattern(n), i + 1) == Some(graphed[i].name))
      && (forall i, j :: 0 <= i < j < n ==> StrLt(graphed[i].name, graphed[j].name))
  {
    var n := |records|;
    RenderedGraphFrames(records, n, draw);
    RenderedCopies(records, n, draw);
    forall k | 1 <= k <= n ensures ExpandSequencePattern(FramePattern(n), k) == Some(FrameName(k, n)) {
      PatternMatchesNames(n, k);
    }
    forall k, l | 1 <= k < l <= n ensures StrLt(FrameName(k, n), FrameName(l, n)) {
      FrameNamesOrdered(k, l, n);
    }
  }

  /** On a numbered series, whichever branch renders, a successful render
      saves frame i + 1 of N from record i under `FrameName(i + 1, N)`. */
  lemma NumberedRenderNames(records: seq<ImageRecord>, addGraph: bool, draw: Option<seq<int>> -> Result<seq<DrawCall>>)
    requires forall i :: 0 <= i < |records| ==> records[i].index == i + 1
    ensures var r := RenderedFrames(records, |records|, addGraph, draw);
      r.Success? ==>
        && |r.value| == |records|
        && forall i :: 0 <= i < |records| ==>
             r.value[i].source == records[i].fileName && r.value[i].name == FrameName(i + 1, |records|)
  {
    if addGraph {
      RenderedGraphFrames(records, |records|, draw);
    } else {
      RenderedCopies(records, |records|, draw);
    }
  }

  /** The frames rendered from a numbered copy of the series `s` are named
      by position and come from the records of `s`, one each. This is
      NumberedRenderNames restated over `s`, the series MakeVideo's
      contract speaks of, so that its proof needs no step on `records`. */
  lemma VideoFramesNamed(records: seq<ImageRecord>, s: seq<ImageRecord>, addGraph: bool,
                         draw: Option<seq<int>> -> Result<seq<DrawCall>>)
    requires |records| == |s|
    requires forall i :: 0 <= i < |records| ==> records[i].index == i + 1 && records[i].fileName == s[i].fileName
    ensures var r := RenderedFrames(records, |records|, addGraph, draw);
      r.Success? ==>
        && |r.value| == |s|
        && forall i :: 0 <= i < |s| ==> r.value[i].source == s[i].fileName && r.value[i].name == FrameName(i + 1, |s|)
  {
    NumberedRenderNames(records, addGraph, draw);
  }

  /** With the graph, the frame saved for record i of a processed series
      carries the graph of the temperatures of records 0..i. */
  lemma GraphFramesCarryHistories(s: seq<ImageRecord>, temperatureOf: string -> int, cfg: GraphConfig,
                                  degMin: Option<int>, degMax: Option<int>, pixelsPerDegree: real, frames: seq<Frame>)
    requires RenderedFrames(Processed(s, temperatureOf), |s|, true, GraphDrawer(cfg, degMin, degMax, pixelsPerDegree, |s|)) == Success(frames)
    ensures |frames| == |s|
    ensures var ts := TemperaturesOf(s, temperatureOf);
      forall i :: 0 <= i < |s| ==>
        GraphCalls(cfg, degMin, degMax, pixelsPerDegree, |s|, Some(ts[..i + 1])) == Success(frames[i].overlay)
  {
    var p := Processed(s, temperatureOf);
    var ts := TemperaturesOf(s, temperatureOf);
    var draw := GraphDrawer(cfg, degMin, degMax, pixelsPerDegree, |s|);
    RenderedGraphFrames(p, |s|, draw);
    forall i | 0 <= i < |s|
      ensures GraphCalls(cfg, degMin, degMax, pixelsPerDegree, |s|, Some(ts[..i + 1])) == Success(frames[i].overlay)
    {
      ProcessedHistory(s, temperatureOf, i);
    }
  }

  /** Record i of a processed series holds the temperatures of records 0..i.
      A special case of ProcessedHistories, stated in the exact terms
      GraphFramesCarryHistories needs, which keeps that proof small. */
  lemma ProcessedHistory(s: seq<ImageRecord>, temperatureOf: string -> int, i: int)
    requires 0 <= i < |s|
    ensures Processed(s, temperatureOf)[i].history == Some(TemperaturesOf(s, temperatureOf)[..i + 1])
  {
  }

  /** `load_images` numbers the series 1..N: the index clause of
      LoadedSeriesCorrect on its own, so that MakeVideo's proof does not
      unfold the other clauses. */
  lemma LoadedNumbered(listing: seq<string>, extensions: seq<string>, ordering: Ordering)
    ensures var s := LoadedSeries(listing, extensions, ordering);
      forall i :: 0 <= i < |s| ==> s[i].index == i + 1
  {
  }

  /** Processing keeps every record's name and index: the part of
      ProcessedHistories MakeVideo uses, for all records at once. */
  lemma ProcessedKeepsRecords(s: seq<ImageRecord>, temperatureOf: string -> int)
    ensures var p := Processed(s, temperatureOf);
      forall i :: 0 <= i < |s| ==> p[i].index == s[i].index && p[i].fileName == s[i].fileName
  {
  }

  /** From a fresh object, the range computed over a series gives a usable
      scale exactly when the series holds two different temperatures. */
  lemma FreshScaleDefined(cfg: GraphConfig, ts: seq<int>)
    ensures PixelsPerTemp(cfg, RunningMin(None, ts), RunningMax(None, ts)).Success?
        <==> exists i, j :: 0 <= i < |ts| && 0 <= j < |ts| && ts[i] != ts[j]
  {
    SeriesRange(ts);
    if ts != [] {
      var lo, hi := RunningMin(None, ts).value, RunningMax(None, ts).value;
      if lo == hi {
        assert forall i :: 0 <= i < |ts| ==> ts[i] == lo;
      } else {
        var i :| 0 <= i < |ts| && ts[i] == lo;
        var j :| 0 <= j < |ts| && ts[j] == hi;
        assert ts[i] != ts[j];
      }
    }
  }

  /** Once a fresh run's scale is defined, every processed record's graph
      can be drawn: the bounds are set, each record has its history and the
      series has at least two images. */
  lemma FreshRunDraws(s: seq<ImageRecord>, temperatureOf: string -> int, cfg: GraphConfig)
    requires var ts := TemperaturesOf(s, temperatureOf);
      PixelsPerTemp(cfg, RunningMin(None, ts), RunningMax(None, ts)).Success?
    ensures var ts := TemperaturesOf(s, temperatureOf);
      var p := Processed(s, temperatureOf);
      var lo, hi := RunningMin(None, ts), RunningMax(None, ts);
      RenderedFrames(p, |p|, true, GraphDrawer(cfg, lo, hi, PixelsPerTemp(cfg, lo, hi).value, |p|)).Success?
  {
    var ts := TemperaturesOf(s, temperatureOf);
    var p := Processed(s, temperatureOf);
    var lo, hi := RunningMin(None, ts), RunningMax(None, ts);
    var ppd := PixelsPerTemp(cfg, lo, hi).value;
    FreshScaleDefined(cfg, ts);
    assert |p| != 1;
    var draw := GraphDrawer(cfg, lo, hi, ppd, |p|);
    RenderedFramesOutcome(p, |p|, true, draw);
    forall i | 0 <= i < |p| ensures draw(p[i].history).Success? {
      GraphCallsOutcome(cfg, lo, hi, ppd, |p|, p[i].history);
    }
  }

  class TimeLapse {
    /** The settings (fixed after construction). */
    const graph: GraphConfig
    const validFileExtensions: seq<string>
    const order: Ordering
    const framerate: int
    const imagesPerSecond: int
    const saveDirectory: string

    /** The computed values. */
    var degMin: Option<int>
    var degMax: Option<int>
    var pixelsPerDegree: real
    var totalFrames: int
    var imageSeries: seq<ImageRecord>

    /** `__init__` with the settings given (the defaults are DefaultGraph,
        DefaultExtensions, OrderName, DefaultFramerate and
        DefaultImagesPerSecond); the computed values start unset. */
    constructor (graph: GraphConfig, validFileExtensions: seq<string>, order: Ordering,
                 framerate: int, imagesPerSecond: int, saveDirectory: string)
      ensures this.graph == graph && this.validFileExtensions == validFileExtensions && this.order == order
      ensures this.framerate == framerate && this.imagesPerSecond == imagesPerSecond && this.saveDirectory == saveDirectory
      ensures degMin.None? && degMax.None? && pixelsPerDegree == 1.0 && totalFrames == 1 && imageSeries == []
    {
      this.graph := graph;
      this.validFileExtensions := validFileExtensions;
      this.order := order;
      this.framerate := framerate;
      this.imagesPerSecond := imagesPerSecond;
      this.saveDirectory := saveDirectory;
      degMin := None;
      degMax := None;
      pixelsPerDegree := 1.0;
      totalFrames := 1;
      imageSeries := [];
    }

    /** `load_images` on the directory listing `listing`: collect the
        accepted names with their keys, sort them, then number them. */
    method LoadImages(listing: seq<string>)
      modifies this
      ensures imageSeries == LoadedSeries(listing, validFileExtensions, order)
      ensures degMin == old(degMin) && degMax == old(degMax)
      ensures pixelsPerDegree == old(pixelsPerDegree) && totalFrames == old(totalFrames)
    {
      var fileList: seq<ImageRecord> := [];
      var i := 0;
      while i < |listing|
        invariant 0 <= i <= |listing|
        invariant fileList == Selected(listing[..i], validFileExtensions, order)
      {
        var fileName := listing[i];
        assert listing[..i + 1][..i] == listing[..i];
        if IsImageFile(fileName, validFileExtensions) {
          var orderValue := KeyOf(order, fileName);
          fileList := fileList + [NewRecord(fileName, orderValue)];
        }
        i := i + 1;
      }
      assert listing[..i] == listing;
      imageSeries := SortByKey(fileList);
      ghost var sorted := imageSeries;
      var index := 0;
      while index < |imageSeries|
        invariant 0 <= index <= |imageSeries| == |sorted|
        invariant forall k :: 0 <= k < index ==> imageSeries[k] == sorted[k].(index := k + 1)
        invariant forall k :: index <= k < |imageSeries| ==> imageSeries[k] == sorted[k]
        invariant degMin == old(degMin) && degMax == old(degMax)
        invariant pixelsPerDegree == old(pixelsPerDegree) && totalFrames == old(totalFrames)
      {
        imageSeries := imageSeries[index := imageSeries[index].(index := index + 1)];
        index := index + 1;
      }
    }

    /** `process_images`: replace each record by its extracted version (the
        pool's `map` keeps series order), then walk the series updating
        `deg_max`/`deg_min` and storing a copy of the temperatures so far in
        each record, then set the scale and the frame count.

        `temperatureOf` is what `process_image` settles on for each file
        name; `MakeVideo` passes `Reading(textOf, typedOf)`, the intended
        `int(parser(text))` with its fallback. The source as written raises
        TypeError there instead (`Extraction.ExtractAsWritten`).

        The bounds are not reset first: a second run starts from the bounds
        the first one left. */
    method ProcessImages(temperatureOf: string -> int) returns (outcome: Outcome)
      modifies this
      ensures imageSeries == Processed(old(imageSeries), temperatureOf)
      ensures degMax == RunningMax(old(degMax), TemperaturesOf(old(imageSeries), temperatureOf))
      ensures degMin == RunningMin(old(degMin), TemperaturesOf(old(imageSeries), temperatureOf))
      ensures var ppd := PixelsPerTemp(graph, degMin, degMax);
        && (outcome.Pass? <==> ppd.Success?)
        && (outcome.Fail? ==> outcome.error == ppd.error
                              && pixelsPerDegree == old(pixelsPerDegree) && totalFrames == old(totalFrames))
        && (outcome.Pass? ==> pixelsPerDegree == ppd.value && totalFrames == |imageSeries|)
    {
      ghost var s := imageSeries;
      ghost var ts := TemperaturesOf(s, temperatureOf);
      imageSeries := Extracted(imageSeries, temperatureOf);
      var currentTemps: seq<int> := [];
      var i := 0;
      while i < |imageSeries|
        invariant 0 <= i <= |imageSeries| == |s|
        invariant currentTemps == ts[..i]
        invariant degMax == RunningMax(old(degMax), ts[..i])
        invariant degMin == RunningMin(old(degMin), ts[..i])
        invariant forall k :: 0 <= k < i ==> imageSeries[k] == Processed(s, temperatureOf)[k]
        invariant forall k :: i <= k < |s| ==> imageSeries[k] == Extracted(s, temperatureOf)[k]
        invariant pixelsPerDegree == old(pixelsPerDegree) && totalFrames == old(totalFrames)
      {
        var temp := imageSeries[i].temp;
        AggregationStep(s, temperatureOf, old(degMin), old(degMax), i);
        if degMax.None? || temp > degMax.value {
          degMax := Some(temp);
        }
        if degMin.None? || temp < degMin.value {
          degMin := Some(temp);
        }
        currentTemps := currentTemps + [temp];
        imageSeries := imageSeries[i := imageSeries[i].(history := Some(currentTemps))];
        i := i + 1;
      }
      assert ts[..i] == ts;
      var ppd := PixelsPerTemp(graph, degMin, degMax);
      if ppd.Failure? {
        return Fail(ppd.error);
      }
      pixelsPerDegree := ppd.value;
      totalFrames := |imageSeries|;
      return Pass;
    }

    /** `render_images`: save every record as a frame named by the
        zero-padded index, drawing the graph on it when `addGraph`. */
    method RenderImages(addGraph: bool) returns (r: Result<seq<Frame>>)
      ensures r == RenderedFrames(imageSeries, |imageSeries|, addGraph, GraphDrawer(graph, degMin, degMax, pixelsPerDegree, |imageSeries|))
    {
      var n := |imageSeries|;
      var maxDigits := |NatToString(n)|;
      ghost var draw := GraphDrawer(graph, degMin, degMax, pixelsPerDegree, n);
      var frames: seq<Frame> := [];
      var i := 0;
      if addGraph {
        while i < n
          invariant 0 <= i <= n
          invariant RenderedFrames(imageSeries[..i], n, true, draw) == Success(frames)
        {
          var img := imageSeries[i];
          RenderStep(imageSeries, i, n, true, draw, frames);
          var overlay := DrawGraph(graph, degMin, degMax, pixelsPerDegree, n, img.history);
          if overlay.Failure? {
            RenderedFramesStop(imageSeries, i + 1, n, true, draw);
            return Failure(overlay.error);
          }
          var newFilename := "TIMELAPSE" + ZeroPad(img.index, maxDigits) + ".JPG";
          frames := frames + [Frame(img.fileName, newFilename, overlay.value)];
          i := i + 1;
        }
      } else {
        while i < n
          invariant 0 <= i <= n
          invariant RenderedFrames(imageSeries[..i], n, false, draw) == Success(frames)
        {
          var img := imageSeries[i];
          RenderStep(imageSeries, i, n, false, draw, frames);
          var newFilename := "TIMELAPSE" + ZeroPad(i + 1, maxDigits) + ".JPG";
          frames := frames + [Frame(img.fileName, newFilename, [])];
          i := i + 1;
        }
      }
      assert imageSeries[..i] == imageSeries;
      return Success(frames);
    }

    /** `render_video`: the shell command that turns the saved frames into
        `saveAs`. */
    method RenderVideo(saveAs: string) returns (command: string)
      ensures command == FfmpegCommand(saveDirectory, framerate, imagesPerSecond, |imageSeries|, saveAs)
    {
      command := FfmpegCommand(saveDirectory, framerate, imagesPerSecond, |imageSeries|, saveAs);
    }

    /** `make_video`: load, process when the graph is wanted, render, and
        build the ffmpeg command. A run without the graph always succeeds;
        a fresh run with it succeeds exactly when the series holds two
        different temperatures. Either way frame k+1 of N is named by k+1
        padded to the digits of N, and the command reads the N frames. */
    method MakeVideo(listing: seq<string>, textOf: string -> string, typedOf: string -> int, withGraph: bool, outputFile: string)
      returns (r: Result<Video>)
      modifies this
      ensures var s := LoadedSeries(listing, validFileExtensions, order);
        && (r.Success? ==>
              && |r.value.frames| == |s|
              && (forall i :: 0 <= i < |s| ==> r.value.frames[i].source == s[i].fileName && r.value.frames[i].name == FrameName(i + 1, |s|))
              && r.value.command == FfmpegCommand(saveDirectory, framerate, imagesPerSecond, |s|, outputFile))
        && (!withGraph ==> r.Success?)
      ensures var ts := TemperaturesOf(LoadedSeries(listing, validFileExtensions, order), Reading(textOf, typedOf));
        withGraph && old(degMin).None? && old(degMax).None? ==>
          (r.Success? <==> exists i, j :: 0 <= i < |ts| && 0 <= j < |ts| && ts[i] != ts[j])
      // the object's state afterwards
      ensures var s := LoadedSeries(listing, validFileExtensions, order);
        var ts := TemperaturesOf(s, Reading(textOf, typedOf));
        && imageSeries == (if withGraph then Processed(s, Reading(textOf, typedOf)) else s)
        && degMin == (if withGraph then RunningMin(old(degMin), ts) else old(degMin))
        && degMax == (if withGraph then RunningMax(old(degMax), ts) else old(degMax))
      ensures var s := LoadedSeries(listing, validFileExtensions, order);
        var ppd := PixelsPerTemp(graph, degMin, degMax);
        if withGraph && ppd.Success? then pixelsPerDegree == ppd.value && totalFrames == |s|
        else pixelsPerDegree == old(pixelsPerDegree) && totalFrames == old(totalFrames)
      ensures var ppd := PixelsPerTemp(graph, degMin, degMax);
        withGraph && ppd.Failure? ==> r == Failure(ppd.error)
      // what each saved frame carries
      ensures var s := LoadedSeries(listing, validFileExtensions, order);
        var ts := TemperaturesOf(s, Reading(textOf, typedOf));
        r.Success? && withGraph ==>
          forall i :: 0 <= i < |s| ==>
            GraphCalls(graph, degMin, degMax, pixelsPerDegree, |s|, Some(ts[..i + 1])) == Success(r.value.frames[i].overlay)
      ensures r.Success? && !withGraph ==> forall i :: 0 <= i < |r.value.frames| ==> r.value.frames[i].overlay == []
    {
      LoadImages(listing);
      var temperatureOf := Reading(textOf, typedOf);
      ghost var s := imageSeries;
      ghost var ts := TemperaturesOf(s, temperatureOf);
      ghost var unset := degMin.None? && degMax.None?;
      LoadedNumbered(listing, validFileExtensions, order);
      if withGraph {
        var outcome := ProcessImages(temperatureOf);
        if unset {
          FreshScaleDefined(graph, ts);
        }
        if outcome.Fail? {
          return Failure(outcome.error);
        }
        if unset {
          FreshRunDraws(s, temperatureOf, graph);
        }
        ProcessedKeepsRecords(s, temperatureOf);
      }
      var frames := RenderImages(withGraph);
      ghost var draw := GraphDrawer(graph, degMin, degMax, pixelsPerDegree, |imageSeries|);
      VideoFramesNamed(imageSeries, s, withGraph, draw);
      if withGraph && frames.Success? {
        GraphFramesCarryHistories(s, temperatureOf, graph, degMin, degMax, pixelsPerDegree, frames.value);
      } else if !withGraph {
        RenderedCopies(imageSeries, |imageSeries|, draw);
      }
      if frames.Failure? {
        return Failure(frames.error);
      }
      var command := RenderVideo(outputFile);
      return Success(Video(frames.value, command));
    }
  }
}
