# Predictive OS resource monitor — verified model of its decision logic

The program samples host utilisation (CPU, memory, disk, network) into a
log, trains two linear regressions that forecast the next CPU and memory
reading, and shows live predictions with a warning status. This project
models the deterministic part of that pipeline in `final.py`:

- **Sampling** (`sampling.dfy`): the loop of `collect_system_metrics`, as a
  method that appends one row per iteration to a table with the six named
  columns. The counter reads and the clock form an abstract sample source
  `source: nat -> Sample`; the returned table is what is written to the log.
- **Series** (`series.dfy`): the pandas operations `shift(-1)` and
  forward-fill on series whose cells may be missing, with a reference
  definition of forward-fill ("nearest present cell at or before i").
- **Training** (`training.dfy`): `dropna`, the empty-data early return,
  the five feature columns and the one-step-ahead labels handed to the
  scaler and the two regressions.
- **Display** (`display.dfy`): the clip of each raw prediction to [0, 100]
  and the warning / stable decision of one refresh.
- **Pipeline** (`pipeline.dfy`): what training makes of a log the sampler
  has just written.

Values are mathematical reals; a missing cell (NaN) is `None`.

Three points about the code that a reader might expect otherwise:

- With one clean row, `shift(-1)` leaves the only label missing and
  forward-fill has nothing earlier to copy (`Training.LabelsSingleRow`).
  `LinearRegression().fit` (final.py:58) rejects a label series with a
  missing value and raises, so `joblib.dump` (final.py:62) never runs:
  `Training.Train` gives `FitError` exactly when one row is clean. Only from
  two rows on is the last label the last value carried forward.
- `main` calls `start_gui` even after the empty-data return
  (final.py:147-150). `main` is not part of this model.
- `time.time()` promises no order, so nothing is claimed about timestamps.

## Model

| member | source | states |
|---|---|---|
| `Sampling.CollectSystemMetrics` | final.py:14-39 | the table has the six-column header and exactly `duration` rows, row `i` being the reading of iteration `i`; with `duration` 0 it is the header alone |
| `Sampling.CollectedLength` | final.py:18-34 | `n` iterations leave exactly `n` rows |
| `Sampling.CollectedAt` | final.py:18-34 | row `i` of the collected log is the reading taken in iteration `i` |
| `Sampling.CollectedPrefix` | final.py:18-34 | a longer run extends a shorter one; rows already appended are never changed |
| `Series.ShiftBack` | final.py:50-51 | `shift(-1)` keeps the length, moves each cell one place earlier and leaves the last cell missing |
| `Series.ForwardFill` | final.py:50-51 | forward-fill keeps the length of the series |
| `Series.ForwardFillAt` | final.py:50-51 | forward-fill at every position equals the nearest present cell at or before it (or missing) |
| `Series.ForwardFillKeepsPresent` | final.py:50-51 | forward-fill never overwrites a present cell |
| `Series.ForwardFillNoneIff` | final.py:50-51 | a cell is still missing after forward-fill exactly when it and all cells before it are missing |
| `Series.ForwardFillSource` | final.py:50-51 | every filled value is a copy of a present cell at or before its position |
| `Series.ForwardFillIdempotent` | final.py:50-51 | filling an already filled series changes nothing |
| `Training.DropIncompleteEmptyIff` | final.py:43-45 | nothing survives `dropna` exactly when every row has a missing cell |
| `Training.DropIncompleteAppend` | final.py:43 | cleaning a concatenation of logs is concatenating the cleaned parts, so `dropna` keeps the order of the rows it keeps |
| `Training.DropIncompleteSkips` | final.py:43 | an incomplete row is removed and the clean rows before and after it stay in order, next to each other |
| `Training.DropIncompleteMember` | final.py:43 | a sample survives `dropna` exactly when it comes from a complete row |
| `Training.DropIncompleteAllComplete` | final.py:43 | on a log without missing cells `dropna` keeps every row, in order |
| `Training.Labels` | final.py:50-51 | the label series has one label per clean row |
| `Training.LabelsAt` | final.py:50-51 | with at least two rows the label of row `i < n-1` is the value at row `i+1`, and the last label is the last value |
| `Training.LabelsShape` | final.py:50-51 | with at least two rows the labels are the column without its first value, followed by the last value again |
| `Training.LabelsSingleRow` | final.py:50-51 | with one row the only label stays missing |
| `Training.LabelsPresentIff` | final.py:50-51 | every label is present exactly when the number of rows is not one |
| `Training.Train` | final.py:42-62 | the early return happens exactly when no row is complete; the fit fails on a missing label exactly when one row is complete; otherwise nothing is missing, the features and both label series have one entry per clean row, the features are the five metric columns and the labels are built from each metric's own column |
| `Training.MemoryLabelsIgnoreCpu` | final.py:51 | with at least two clean rows, two logs with the same clean memory column get the same memory labels, whatever their other cells |
| `Training.CpuLabelsIgnoreMemory` | final.py:50 | with at least two clean rows, two logs with the same clean CPU column get the same CPU labels, whatever their other cells |
| `Training.TrainLabelsAt` | final.py:49-51 | with at least two clean rows a model is saved, and each CPU and memory label is the next row's value, and the last is the row's own |
| `Training.ThreeRowExample` | final.py:50 | CPU values 10, 50, 90 give labels 50, 90, 90 |
| `Display.Clip` | final.py:88-89 | the clipped value lies in [0, 100]; it is the raw value when that is in range, 0 below and 100 above |
| `Display.ClipNearest` | final.py:88-89 | the clipped value is the point of [0, 100] nearest the raw one |
| `Display.ClipIdempotent` | final.py:88-89 | clipping twice is clipping once |
| `Display.ClipMonotone` | final.py:88-89 | clipping preserves the order of predictions |
| `Display.Refresh` | final.py:84-100 | each shown prediction is its raw value clipped to [0, 100]: the raw value when in range, 0 below it, 100 above it; a warning is shown exactly when a clipped prediction exceeds 80, which holds exactly when a raw one does |
| `Display.ThresholdIsStrict` | final.py:97-100 | predictions of at most 80, and exactly 80, give "stable"; just above 80 gives a warning |
| `Display.OutOfRangeExample` | final.py:88-100 | raw outputs -50 and 150 are shown as 0 and 100 with a warning |
| `Pipeline.Persisted` | final.py:39-43 | reading back a log written with the six-column header gives one complete row per sample, equal to it |
| `Pipeline.CleanedLogIsCollected` | final.py:39-43 | cleaning a log written with the sampler's header gives back exactly its rows |
| `Pipeline.TrainOnCollectedOutcome` | final.py:18-62 | training on a fresh log stops with the empty-data error exactly when `duration` is 0, fails in the fit exactly when it is 1, and saves a model exactly when it is at least 2 |
| `Pipeline.TrainOnCollectedLabels` | final.py:18-51 | with `duration >= 2`, sample `i` is labelled with the CPU and memory readings of sample `i+1`, the last sample with its own |

## Left out

- Counter reads (`psutil`), the clock (`time.time`) and `time.sleep`: external queries and wall-clock effects; they are the abstract sample source, and `interval` has no effect on the model.
- Conversion of byte counters to megabytes: floating-point arithmetic; the network columns are taken as given by the source.
- `StandardScaler` and `LinearRegression` fitting and prediction: floating-point numerics in a foreign library. `Training.Train` ends with the data they are fitted on, and the raw regressor outputs are arbitrary reals given to `Display.Refresh`. Of the fit's own checks only the one that matters here is modelled: it raises on a missing label, so a log with one clean row writes nothing (`FitError`). Other numerical failures of the fit are not modelled.
- Writing and reading the CSV file, `joblib` dump and load, console messages: I/O. The read-back is modelled as exact (`Pipeline.Persisted`); decimal formatting of floats is not.
- NaN values produced by the counters themselves: the sampler's values are reals.
- The tkinter window, the label texts and colours, and the five-second `root.after` rescheduling: UI and event-loop plumbing; only the clip and the status decision of one refresh are modelled.
- `main` and its worker thread; `plot_resource_usage`: entry point, concurrency scaffolding and plotting with no decision logic.
- `duration` is a `nat`: a negative duration, for which `range` runs no iteration and the header alone is written, is not expressible; it behaves like 0.
- The default arguments (`duration=60`, `interval=1`, the `log_file` and `model_file` names) and the file paths themselves: only the number of iterations is a parameter of the model.
- The model follows pandas 1.x: `DataFrame.append` (final.py:27) no longer exists in pandas 2.0, and `fillna(method='ffill')` (final.py:50-51) is deprecated from pandas 2.1; under pandas 2.0 the sampler raises instead.
