/**
 How the sampler's output feeds the trainer: the log written by the
 sampler is read back cell for cell (decimal formatting of the floats is
 not modelled), so every row it wrote survives `dropna`.
 */
module Pipeline {
  import opened Wrappers
  import opened Sampling
  import opened Training

  function ToCsvRow(s: Sample): CsvRow
  {
    CsvRow(Some(s.timestamp), Some(s.cpu), Some(s.memory), Some(s.disk), Some(s.netSent), Some(s.netRecv))
  }

  /**
   The rows of a table after writing it with `to_csv` and reading it back
   with `read_csv`. The header is what lets the trainer find each cell by
   its column name, so only a table with the sampler's header is read this way.
   */
  function Persisted(t: Table): (rows: seq<CsvRow>)
    requires t.columns == Columns
    ensures |rows| == |t.rows|
    ensures forall i :: 0 <= i < |rows| ==> Complete(rows[i]) && ToSample(rows[i]) == t.rows[i]
  {
    seq(|t.rows|, i requires 0 <= i < |t.rows| => ToCsvRow(t.rows[i]))
  }

  /** Cleaning a log the sampler wrote gives back exactly the rows it collected. */
  lemma CleanedLogIsCollected(t: Table)
    requires t.columns == Columns
    ensures DropIncomplete(Persisted(t)) == t.rows
  {
    DropIncompleteAllComplete(Persisted(t));
  }

  /**
   Training on a freshly collected log stops with the empty-data error
   exactly when no sample was taken, fails in the fit exactly when one was,
   and saves a model otherwise.
   */
  lemma TrainOnCollectedOutcome(source: nat -> Sample, duration: nat)
    ensures var out := Train(Persisted(Table(Columns, Collected(source, duration))));
      && (out.EmptyData? <==> duration == 0)
      && (out.FitError? <==> duration == 1)
      && (out.Saved? <==> duration >= 2)
  {
    var t := Table(Columns, Collected(source, duration));
    CollectedLength(source, duration);
    CleanedLogIsCollected(t);
  }

  /**
   Training on a freshly collected log of at least two samples labels
   sample `i` with the CPU and memory readings of sample `i + 1`, and the
   last sample with its own readings.
   */
  lemma TrainOnCollectedLabels(source: nat -> Sample, duration: nat, i: nat)
    requires 2 <= duration && i < duration
    ensures var out := Train(Persisted(Table(Columns, Collected(source, duration))));
      var j := if i < duration - 1 then i + 1 else i;
      && out.Saved?
      && |out.data.yCpu| == duration
      && out.data.yCpu[i] == Some(source(j).cpu)
      && out.data.yMem[i] == Some(source(j).memory)
  {
    var t := Table(Columns, Collected(source, duration));
    CollectedLength(source, duration);
    TrainOnCollectedOutcome(source, duration);
    CleanedLogIsCollected(t);
    TrainLabelsAt(Persisted(t), i);
    var j := if i < duration - 1 then i + 1 else i;
    CollectedAt(source, duration, j);
  }
}
