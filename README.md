# timelapse: a verified model of the TimeLapse pipeline

`timelapse.py` turns a directory of still images into a video. The
`TimeLapse` object:

1. lists the directory, keeps the files whose lower-cased name ends with an
   allowed extension, orders them by name (or by a file timestamp) with
   Python's stable `sorted`, and numbers them 1..N (`load_images`);
2. is meant to read a temperature off each image's OCR'd overlay with a
   text parser, and otherwise to ask for it at `input()`
   (`process_image`). `process_image` runs in a `Pool` worker, whose
   standard input is closed, so that `input()` raises EOFError; the model
   takes the answer as a given value instead (see "## Left out"). As
   written, line 305 converts the parser function rather than its result,
   so every image raises an uncaught TypeError (see "## Findings"). The
   model keeps that code as `Extraction.ExtractAsWritten`. The pipeline
   below uses the corrected extraction, `Extraction.ExtractTemperature`;
   every statement about temperatures, bounds and graphs is about that
   corrected program;
3. walks the series keeping the running minimum and maximum temperature
   and giving each image the list of temperatures so far, then sets the
   graph's pixels per degree (`process_images`);
4. draws on each frame a graph: a border, axes, a tick at every multiple
   of 10 degrees, a freezing line at 32 degrees, min/max labels, and the
   curve of the temperatures so far (`draw_graph` and its helpers);
5. saves the frames as `TIMELAPSE<k>.JPG`, with k zero-padded to the digit
   count of N (`render_images`);
6. runs ffmpeg with the pattern `TIMELAPSE%0<w>d.JPG` (`render_video`).
   `make_video` chains these steps.

The model has these modules:

- `Outcomes`: Option, the Python exceptions, results.
- `PyStr`: `str.split` with its inverse `join`, `lower`, `endswith`, string
  `<`.
- `PyFormat`: `str(n)`, `format(n, '0<w>')`, and the value of a digit
  string.
- `TemperatureText`: `parse_temperature_text`.
- `Extraction`: `int()` and the extraction step of `process_image`.
- `SeriesLoader`: the pure part of `load_images`.
- `Aggregation`: the running bounds.
- `GraphGeometry`: every drawing call as its coordinates, in exact `real`
  arithmetic, and `draw_grid` and `add_temps` as loops.
- `FrameNames`: the frame names, the ffmpeg pattern, the command line.
- `Pipeline`: the `TimeLapse` class itself, whose methods update its
  fields as the source does.

Python exceptions that escape an operation are `Failure` results. The
directory listing, the file timestamps, the OCR text and the typed-in
temperatures are inputs.

## Model

| member | source | states |
|---|---|---|
| TemperatureText.ParseTemperatureText | timelapse.py:50-60 | fails only with IndexError; a returned token holds neither a degree sign nor a space |
| TemperatureText.ParseReadsSecondToken | timelapse.py:58-60 | on text `a°u t…` the parser returns `t`, the token after the first space following the first degree sign |
| TemperatureText.ParseFailsWithoutDegree | timelapse.py:58-60 | text without a degree sign raises IndexError |
| TemperatureText.ParseFailsWithoutSpace | timelapse.py:58-60 | a segment after the first degree sign without a space raises IndexError |
| TemperatureText.ParseCelsiusFahrenheitOverlay | timelapse.py:56-60 | "21°C 70°F" parses to "70", the Fahrenheit reading |
| PyStr.SplitCount | timelapse.py:58 | `split` yields one more field than separators |
| PyStr.JoinSplit | timelapse.py:58 | joining the fields of `split` with the separator gives back the text |
| PyStr.SplitJoin | timelapse.py:58 | splitting a join of separator-free fields gives back the fields |
| PyStr.SplitFieldsFree | timelapse.py:58 | no field of `split` contains the separator |
| Extraction.ParseIntRoundTrip | timelapse.py:305 | `int(str(n)) == n` for every integer |
| Extraction.ParseIntNeedsDigit | timelapse.py:305-316 | text without a digit raises ValueError |
| Extraction.ExtractionCatchesAll | timelapse.py:303-319 | the parser and `int()` raise only the two exceptions `process_image` catches |
| Extraction.ExtractReadsFahrenheit | timelapse.py:303-312 | the overlay `<c>°C <f>°F` yields `f`, whatever was typed |
| Extraction.ExtractFallsBackWithoutDegree | timelapse.py:316-319 | unreadable text falls back to the value asked for at `input()`, the parameter `typedOf` |
| Extraction.ExtractFallsBackOnLetters | timelapse.py:316-319 | a token without a digit falls back to the value asked for at `input()`, the parameter `typedOf` |
| Extraction.AsWrittenLosesReading | timelapse.py:305 | as written, "21°C 70°F" raises TypeError; the intended extraction gives 70 |
| SeriesLoader.KeyLtStrictTotal | timelapse.py:283 | the key order is irreflexive, transitive and total |
| SeriesLoader.SortByKeySorted | timelapse.py:283 | `sorted` returns a sequence non-decreasing by key |
| SeriesLoader.SortByKeyPermutes | timelapse.py:283 | `sorted` returns a permutation of its input |
| SeriesLoader.SortByKeyStable | timelapse.py:283 | records with equal keys keep their input order |
| SeriesLoader.SelectedNames | timelapse.py:272-281 | the collected names are the listing's names with an allowed extension, with their multiplicity |
| SeriesLoader.SelectedRecords | timelapse.py:273-281 | every collected record has an allowed extension and its ordering key |
| SeriesLoader.SelectedRuns | timelapse.py:272-281 | records of one key are collected in listing order |
| SeriesLoader.LoadedSeriesCorrect | timelapse.py:262-287 | the loaded series holds exactly the accepted names, keyed, sorted, stable within a key, and indexed 1..N by position |
| Aggregation.RunningMaxIsMaximum | timelapse.py:347-348 | `deg_max` is set once anything is seen, bounds every temperature and the start value, and is one of them |
| Aggregation.RunningMinIsMinimum | timelapse.py:349-350 | `deg_min` is set once anything is seen, is at most every temperature and the start value, and is one of them |
| Aggregation.SeriesRange | timelapse.py:346-350 | from unset bounds, a non-empty series leaves its least and greatest temperature, both attained; an empty one leaves both unset |
| Aggregation.RangeIndependentOfOrder | timelapse.py:346-350 | the bounds depend only on the multiset of temperatures |
| GraphGeometry.PixelsPerTemp | timelapse.py:152-164 | fails iff a bound is unset (TypeError) or the bounds are equal (ZeroDivisionError); otherwise scale × range = plot height |
| GraphGeometry.YScale | timelapse.py:166-171 | `deg_min` maps to the plot bottom, `deg_max` to its top; higher temperatures are strictly higher up and the range stays inside the plot |
| GraphGeometry.XPoint | timelapse.py:173-183 | fails iff the series has one image (ZeroDivisionError); otherwise the offset × (N−1) = axis length × index |
| GraphGeometry.XScale | timelapse.py:173-183 | image 0 is at the left end of the axis, image N−1 at the right end, with a constant step |
| GraphGeometry.DefaultScale | timelapse.py:112-118 | default graph: 0..59 degrees gives 530/59 pixels a degree; image 15 of 31 is at x = 2233 |
| GraphGeometry.TicksBetweenExact | timelapse.py:206-213 | ticks are drawn exactly at the multiples of 10 from `deg_min` to `deg_max` |
| GraphGeometry.TicksBetweenIncreasing | timelapse.py:206-213 | ticks come in increasing order, within the range |
| GraphGeometry.GridLayout | timelapse.py:193-225 | the grid is: axes, one tick per multiple of 10 in order, the freezing line iff `deg_min <= 32 <= deg_max`, two labels |
| GraphGeometry.GridInsidePlot | timelapse.py:206-218 | with the computed scale every tick and the freezing line lie inside the plot area |
| GraphGeometry.DrawGrid | timelapse.py:193-225 | with both bounds set the loop stepping `current_deg` yields exactly the grid of axes, ticks, freezing line and labels; an unset bound raises TypeError |
| GraphGeometry.AddTemps | timelapse.py:227-248 | the loop carrying `last_point` yields exactly the markers and segments of the history; fails iff one image and a point to place (ZeroDivisionError) |
| GraphGeometry.PlotConnectsPoints | timelapse.py:236-246 | without markers, exactly one segment joins each pair of consecutive points, in order |
| GraphGeometry.PlotMarksPoints | timelapse.py:236-246 | with markers: marker 0, then for each later point its marker and the segment reaching it |
| GraphGeometry.PlotExtends | timelapse.py:227-248 | a shorter history's plot is a prefix of a longer one's |
| GraphGeometry.DrawGraph | timelapse.py:250-258 | border, grid, then plot; stops at the first exception |
| GraphGeometry.GraphCallsOutcome | timelapse.py:250-258 | a frame's graph is drawn iff it has its history, both bounds are set, and it is not one image with points; the calls begin with border and grid and end with the plot |
| FrameNames.FrameNameDigits | timelapse.py:371-381 | for k ≤ N the number part has exactly `len(str(N))` digits and denotes k |
| FrameNames.FrameNamesOrdered | timelapse.py:371-386 | for j, k ≤ N, frame name j sorts before frame name k iff j < k |
| FrameNames.FrameNamesDistinct | timelapse.py:381-386 | different indices never share a frame name |
| FrameNames.FrameNameExamples | timelapse.py:371-386 | frame 7 of 12 is TIMELAPSE07.JPG; frame 100 of 100 is TIMELAPSE100.JPG |
| FrameNames.PatternMatchesNames | timelapse.py:395 | the ffmpeg pattern expands, for each frame number, to the name that frame was saved under |
| FrameNames.FfmpegCommand | timelapse.py:395 | the command ends by reading the frame pattern and writing `save_as` |
| Pipeline.ProcessedHistories | timelapse.py:351-353 | after processing, record i keeps name, key and index, and its history is the temperatures of records 0..i |
| Pipeline.ProcessedHistoriesGrow | timelapse.py:351-353 | each history extends the previous one by the record's own temperature |
| Pipeline.RenderedGraphFrames | timelapse.py:376-382 | with the graph, one frame per record, in order, named by the record's index and carrying its graph |
| Pipeline.RenderedCopies | timelapse.py:383-387 | without the graph, the render always succeeds: one copy per record named by its 1-based position |
| Pipeline.RenderedFramesOutcome | timelapse.py:364-387 | rendering with the graph fails iff some record's graph fails, with the first such record's exception |
| Pipeline.RenderedFramesStop | timelapse.py:376-382 | once a prefix fails, the whole render fails the same way |
| Pipeline.RenderBranchesAgree | timelapse.py:364-395 | on a numbered series both branches use the same names, which the ffmpeg pattern expands to and which sort in frame order |
| Pipeline.NumberedRenderNames | timelapse.py:364-387 | on a numbered series either branch names frame i+1 after position i |
| Pipeline.FreshScaleDefined | timelapse.py:152-164 | from unset bounds, the scale is defined iff the series holds two different temperatures |
| Pipeline.FreshRunDraws | timelapse.py:329-382 | once a fresh run's scale is defined, every processed record's graph can be drawn |
| Pipeline.DefaultSettings | timelapse.py:71-135 | with the default extensions an upper-case `.JPG` and a `.png` are accepted and a `.txt` is not; the default frame rate is at least the default image rate |
| Pipeline.TimeLapse.constructor | timelapse.py:70-149 | the settings as given, bounds unset, scale 1, one frame, empty series |
| Pipeline.TimeLapse.LoadImages | timelapse.py:262-289 | the listing loop, the sort and the numbering loop leave `image_series` equal to the loaded series; other fields unchanged |
| Pipeline.TimeLapse.ProcessImages | timelapse.py:329-362 | with the temperatures of the corrected extraction (see "## Findings"), the series gets its temperatures and histories; the bounds are the running max/min continued from the old bounds; then the scale is set (or its exception returned) and `total_frames` is N |
| Pipeline.TimeLapse.RenderImages | timelapse.py:364-387 | both loops produce exactly the rendered frames of the current series |
| Pipeline.TimeLapse.RenderVideo | timelapse.py:389-396 | the ffmpeg command for the current series length |
| Pipeline.TimeLapse.MakeVideo | timelapse.py:398-415 | with the corrected extraction (see "## Findings"): frame i+1 of N comes from loaded record i under its padded name, and the command reads the N frames; with the graph, frame i carries the graph of the temperatures of records 0..i, and without it an unchanged copy; the object ends with the loaded series (processed when the graph is drawn), the bounds continued from the old ones, and the scale and frame count set only when the scale is defined; an undefined scale is the run's exception; without the graph it always succeeds; a fresh run with it succeeds iff two different temperatures occur |
| Pipeline.GraphFramesCarryHistories | timelapse.py:351-382 | with the graph, the frame of record i carries the graph of the temperatures of records 0..i |

## Left out

- File system, images and processes are inputs or outputs, not effects:
  - `os.listdir` is the `listing` parameter;
  - `getctime`/`getmtime` are the `stampOf` function of the ordering;
  - PIL drawing is the list of drawing calls;
  - `Image.save`, `shutil.copyfile` and `os.system` are the returned frames and command;
  - `print`, `im.show()` and `datetime` are omitted.
- Tesseract OCR is the input `textOf`.
- Extraction.ExtractTemperature: `typedOf` stands for what a user would type at the prompt of line 319, already an integer. `process_image` runs only inside `Pool.map` (lines 341-342), and a multiprocessing worker's standard input is redirected to the null device. There `input()` raises EOFError, which line 316 does not catch and `map` re-raises, so an overlay the parser cannot read stops the whole run. That EOFError is not modelled, and neither is a non-integer typed value (an uncaught ValueError).
- The process `Pool` is modelled by its result: `map` returns the records in series order.
- Colours, fonts, line widths and the OCR crop box draw nothing the model can check, so they are not fields.
- `__init__`'s `**kwargs` override is modelled as constructor parameters for the settings the core uses.
- Pipeline.TimeLapse.constructor: the image and save directories are assumed to be given, so `saveDirectory` is a `string`. Both default to None (lines 93 and 96). Left as None, they make `os.path.join` raise TypeError in `render_images` (lines 382 and 387) and `"cd " + None` raise TypeError in `render_video` (line 395). That TypeError is not modelled.
- Pipeline.TimeLapse.ProcessImages: uses the corrected extraction of the "## Findings" row. As written, every call on a non-empty series raises TypeError at line 305.
- Pipeline.TimeLapse.MakeVideo: uses the corrected extraction of the "## Findings" row. As written, every run with the graph on a non-empty series raises TypeError at line 305; on an empty series, line 158 raises TypeError from `float(None)`.
- A custom `temperature_text_parser` is not modelled; extraction uses the default parser.
- GraphGeometry.PixelsPerTemp: coordinates are exact reals, not IEEE doubles, so float rounding is not modelled.
- PyStr.Lower: lower-cases ASCII letters only.
- Extraction.ParseInt: accepts ASCII digits and strips only space and ASCII control white space. Underscore separators and non-ASCII digits, which Python's `int()` also accepts, are not modelled.
- SeriesLoader.KeyLt: a listing sorted by one ordering has keys of one kind only. The model orders names before stamps where Python would raise TypeError; that case cannot arise.
- FrameNames.ExpandSequencePattern: models ffmpeg's reading of a pattern only for a single `%0<w>d` directive.
- A directory with no matching files is not an error in the code. `load_images` leaves an empty series, and the model follows the code.
- `example/example.py` only configures and calls `make_video`; it is not part of this model.

## Findings

| source | as written | input that shows it | evidently intended | confidence | as-written member | corrected member |
|---|---|---|---|---|---|---|
| timelapse.py:305 | `int(self.temperature_text_parser)` converts the parser function itself. That raises TypeError, which `except (IndexError, ValueError)` does not catch, so processing any non-empty series raises | OCR text "21°C 70°F" | `int(self.temperature_text_parser(text))`, which gives 70; on IndexError or ValueError it falls back to asking for the value at line 319, which in the pool worker raises EOFError | high; not executed | Extraction.ExtractAsWritten, Extraction.AsWrittenLosesReading | Extraction.ExtractTemperature |
