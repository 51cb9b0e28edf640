/**
 The decision logic of `train_prediction_model`: drop the rows of the log
 that have a missing cell, stop when nothing is left, otherwise build the
 five-column feature rows and the one-step-ahead CPU and memory labels
 that are handed to the scaler and the two regressions.
 */
module Training {
  import opened Wrappers
  import opened Series
  import opened Sampling

  /** A row of the log as it is read back: each cell may be missing. */
  datatype CsvRow = CsvRow(
    timestamp: Option<real>,
    cpu: Option<real>,
    memory: Option<real>,
    disk: Option<real>,
    netSent: Option<real>,
    netRecv: Option<real>)

  /** A row `dropna` keeps: no cell missing. */
  predicate Complete(r: CsvRow)
  {
    r.timestamp.Some? && r.cpu.Some? && r.memory.Some? && r.disk.Some? && r.netSent.Some? && r.netRecv.Some?
  }

  function ToSample(r: CsvRow): Sample
    requires Complete(r)
  {
    Sample(r.timestamp.value, r.cpu.value, r.memory.value, r.disk.value, r.netSent.value, r.netRecv.value)
  }

  /** `dropna`: the complete rows, in their original order. */
  function DropIncomplete(rows: seq<CsvRow>): seq<Sample>
  {
    if rows == [] then []
    else (if Complete(rows[0]) then [ToSample(rows[0])] else []) + DropIncomplete(rows[1..])
  }

  /** Nothing survives `dropna` exactly when every row has a missing cell. */
  lemma {:induction false} DropIncompleteEmptyIff(rows: seq<CsvRow>)
    ensures DropIncomplete(rows) == [] <==> forall i :: 0 <= i < |rows| ==> !Complete(rows[i])
  {
    if rows != [] {
      DropIncompleteEmptyIff(rows[1..]);
      if forall i :: 0 <= i < |rows| - 1 ==> !Complete(rows[1..][i]) {
        assert forall i :: 1 <= i < |rows| ==> rows[i] == rows[1..][i - 1];
      }
    }
  }

  /** `dropna` works row by row: cleaning a concatenation is concatenating the cleaned parts, so order is kept. */
  lemma {:induction false} DropIncompleteAppend(a: seq<CsvRow>, b: seq<CsvRow>)
    ensures DropIncomplete(a + b) == DropIncomplete(a) + DropIncomplete(b)
  {
    if a != [] {
      assert (a + b)[1..] == a[1..] + b;
      DropIncompleteAppend(a[1..], b);
    } else {
      assert a + b == b;
    }
  }

  /** Rows after an incomplete row keep their place relative to the rows before it. */
  lemma DropIncompleteSkips(a: seq<CsvRow>, r: CsvRow, b: seq<CsvRow>)
    requires !Complete(r)
    ensures DropIncomplete(a + [r] + b) == DropIncomplete(a) + DropIncomplete(b)
  {
    assert a + [r] + b == a + ([r] + b);
    DropIncompleteAppend(a, [r] + b);
    assert ([r] + b)[1..] == b;
  }

  /** A sample survives `dropna` exactly when it comes from a complete row. */
  lemma {:induction false} DropIncompleteMember(rows: seq<CsvRow>, s: Sample)
    ensures s in DropIncomplete(rows) <==> exists r :: r in rows && Complete(r) && ToSample(r) == s
  {
    if rows != [] {
      DropIncompleteMember(rows[1..], s);
      assert rows == [rows[0]] + rows[1..];
      if exists r :: r in rows[1..] && Complete(r) && ToSample(r) == s {
        var r :| r in rows[1..] && Complete(r) && ToSample(r) == s;
        assert r in rows;
      }
    }
  }

  /** When every row is complete, `dropna` only reads the rows and keeps them all. */
  lemma {:induction false} DropIncompleteAllComplete(rows: seq<CsvRow>)
    requires forall i :: 0 <= i < |rows| ==> Complete(rows[i])
    ensures |DropIncomplete(rows)| == |rows|
    ensures forall i :: 0 <= i < |rows| ==> DropIncomplete(rows)[i] == ToSample(rows[i])
  {
    if rows != [] {
      assert forall i :: 0 <= i < |rows| - 1 ==> rows[1..][i] == rows[i + 1];
      DropIncompleteAllComplete(rows[1..]);
    }
  }

  /** The five feature columns of one row, in the order they are selected. */
  datatype Features = Features(cpu: real, memory: real, disk: real, netSent: real, netRecv: real)

  function FeaturesOf(s: Sample): Features
  {
    Features(s.cpu, s.memory, s.disk, s.netSent, s.netRecv)
  }

  function CpuColumn(rows: seq<Sample>): (c: seq<real>)
    ensures |c| == |rows| && forall i :: 0 <= i < |rows| ==> c[i] == rows[i].cpu
  {
    seq(|rows|, i requires 0 <= i < |rows| => rows[i].cpu)
  }

  function MemoryColumn(rows: seq<Sample>): (c: seq<real>)
    ensures |c| == |rows| && forall i :: 0 <= i < |rows| ==> c[i] == rows[i].memory
  {
    seq(|rows|, i requires 0 <= i < |rows| => rows[i].memory)
  }

  /** A column with no missing cell, as a series. */
  function Lift(col: seq<real>): (r: seq<Option<real>>)
    ensures |r| == |col| && forall i :: 0 <= i < |col| ==> r[i] == Some(col[i])
  {
    seq(|col|, i requires 0 <= i < |col| => Some(col[i]))
  }

  /** `col.shift(-1).fillna(method='ffill')`: the label series of one metric. */
  function Labels(col: seq<real>): (y: seq<Option<real>>)
    ensures |y| == |col|
  {
    ForwardFill(ShiftBack(Lift(col)))
  }

  /**
   With at least two rows, the label of every row but the last is the next
   row's value, and the last row's label is its own value, carried forward.
   */
  lemma LabelsAt(col: seq<real>, i: nat)
    requires 2 <= |col| && i < |col|
    ensures i < |col| - 1 ==> Labels(col)[i] == Some(col[i + 1])
    ensures i == |col| - 1 ==> Labels(col)[i] == Some(col[|col| - 1])
  {
    var shifted := ShiftBack(Lift(col));
    var n := |col|;
    if i < n - 1 {
      ForwardFillKeepsPresent(shifted, i);
    } else {
      ForwardFillAt(shifted, i);
      assert shifted[n - 1] == None;
      assert shifted[n - 2] == Some(col[n - 1]);
    }
  }

  /** With at least two rows the labels are the column without its head, followed by its last value again. */
  lemma LabelsShape(col: seq<real>)
    requires 2 <= |col|
    ensures Labels(col) == Lift(col[1..] + [col[|col| - 1]])
  {
    var expected := Lift(col[1..] + [col[|col| - 1]]);
    forall i | 0 <= i < |col|
      ensures Labels(col)[i] == expected[i]
    {
      LabelsAt(col, i);
    }
  }

  /** With a single row there is no later value, and no earlier one to carry: the label stays missing. */
  lemma LabelsSingleRow(c: real)
    ensures Labels([c]) == [None]
  {
    ForwardFillAt(ShiftBack(Lift([c])), 0);
  }

  /** Every label is present exactly when there are at least two rows. */
  lemma LabelsPresentIff(col: seq<real>)
    ensures (forall i :: 0 <= i < |col| ==> Labels(col)[i].Some?) <==> |col| != 1
  {
    if |col| == 1 {
      LabelsSingleRow(col[0]);
      assert col == [col[0]];
    } else if |col| >= 2 {
      forall i | 0 <= i < |col|
        ensures Labels(col)[i].Some?
      {
        LabelsAt(col, i);
      }
    }
  }

  /** What the scaler and both regressions are fitted on. */
  datatype TrainingSet = TrainingSet(x: seq<Features>, yCpu: seq<Option<real>>, yMem: seq<Option<real>>)

  /**
   `EmptyData`: the early return, nothing written. `FitError`: a regression
   refuses a label series with a missing value and raises, so nothing is
   written. `Saved(data)`: the scaler and both regressions are fitted on
   `data` and the three are written out together.
   */
  datatype TrainOutcome = EmptyData | FitError | Saved(data: TrainingSet)

  /** A label series a regression accepts: no label missing. */
  predicate AllPresent(y: seq<Option<real>>)
  {
    forall i :: 0 <= i < |y| ==> y[i].Some?
  }

  /**
   `train_prediction_model`: the early return exactly when no row is
   complete, a failing fit exactly when one row is, and otherwise the
   training data of the five feature columns and each metric's own labels.
   */
  function Train(csv: seq<CsvRow>): (out: TrainOutcome)
    ensures out.EmptyData? <==> forall i :: 0 <= i < |csv| ==> !Complete(csv[i])
    ensures out.FitError? <==> |DropIncomplete(csv)| == 1
    ensures out.Saved? ==>
      var clean := DropIncomplete(csv);
      && 2 <= |clean|
      && |out.data.x| == |out.data.yCpu| == |out.data.yMem| == |clean|
      && (forall i :: 0 <= i < |clean| ==> out.data.x[i] == FeaturesOf(clean[i]))
      && AllPresent(out.data.yCpu) && AllPresent(out.data.yMem)
      && out.data.yCpu == Labels(CpuColumn(clean))
      && out.data.yMem == Labels(MemoryColumn(clean))
  {
    DropIncompleteEmptyIff(csv);
    var clean := DropIncomplete(csv);
    var yCpu := Labels(CpuColumn(clean));
    var yMem := Labels(MemoryColumn(clean));
    LabelsPresentIff(CpuColumn(clean));
    LabelsPresentIff(MemoryColumn(clean));
    if clean == [] then EmptyData
    else if !AllPresent(yCpu) || !AllPresent(yMem) then FitError
    else
      Saved(TrainingSet(
        seq(|clean|, i requires 0 <= i < |clean| => FeaturesOf(clean[i])),
        yCpu,
        yMem))
  }

  /** The memory labels depend on the memory column alone: changing any other cell leaves them unchanged. */
  lemma MemoryLabelsIgnoreCpu(a: seq<CsvRow>, b: seq<CsvRow>)
    requires 2 <= |DropIncomplete(a)|
    requires MemoryColumn(DropIncomplete(a)) == MemoryColumn(DropIncomplete(b))
    ensures Train(a).Saved? && Train(b).Saved?
    ensures Train(a).data.yMem == Train(b).data.yMem
  {
  }

  /** The CPU labels depend on the CPU column alone. */
  lemma CpuLabelsIgnoreMemory(a: seq<CsvRow>, b: seq<CsvRow>)
    requires 2 <= |DropIncomplete(a)|
    requires CpuColumn(DropIncomplete(a)) == CpuColumn(DropIncomplete(b))
    ensures Train(a).Saved? && Train(b).Saved?
    ensures Train(a).data.yCpu == Train(b).data.yCpu
  {
  }

  /**
   With at least two clean rows a model is saved, and each CPU and memory
   label is the next clean row's value; the last label repeats the last value.
   */
  lemma TrainLabelsAt(csv: seq<CsvRow>, i: nat)
    requires 2 <= |DropIncomplete(csv)| && i < |DropIncomplete(csv)|
    ensures Train(csv).Saved?
    ensures var clean, d := DropIncomplete(csv), Train(csv).data;
      var j := if i < |clean| - 1 then i + 1 else i;
      d.yCpu[i] == Some(clean[j].cpu) && d.yMem[i] == Some(clean[j].memory)
  {
    var clean := DropIncomplete(csv);
    DropIncompleteEmptyIff(csv);
    var out := Train(csv);
    assert !out.EmptyData? && !out.FitError?;
    LabelsAt(CpuColumn(clean), i);
    LabelsAt(MemoryColumn(clean), i);
  }

  /** CPU values 10, 50, 90 give labels 50, 90, 90. */
  lemma ThreeRowExample()
    ensures Labels([10.0, 50.0, 90.0]) == [Some(50.0), Some(90.0), Some(90.0)]
  {
    LabelsShape([10.0, 50.0, 90.0]);
  }
}
