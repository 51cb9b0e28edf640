/**
 The sampler of `collect_system_metrics`: one reading of the system
 counters per iteration, appended in order to a table whose header names
 the six columns. The counter reads (and the clock) are an abstract
 sample source: `source(k)` is what the counters report in iteration `k`.
 */
module Sampling {

  /** One row of the log: the timestamp and the five monitored metrics. */
  datatype Sample = Sample(
    timestamp: real,
    cpu: real,
    memory: real,
    disk: real,
    netSent: real,
    netRecv: real)

  /** The header of the log, in the order the rows are written. */
  const Columns: seq<string> :=
    ["timestamp", "cpu_usage", "memory_usage", "disk_usage", "network_sent", "network_recv"]

  /** The in-memory table the sampler grows and finally writes out. */
  datatype Table = Table(columns: seq<string>, rows: seq<Sample>)

  /** The rows the first `n` iterations produce, in iteration order. */
  function Collected(source: nat -> Sample, n: nat): seq<Sample>
  {
    if n == 0 then [] else Collected(source, n - 1) + [source(n - 1)]
  }

  /** Iteration `n` leaves exactly `n` rows, and row `i` is the reading of iteration `i`. */
  lemma {:induction false} CollectedAt(source: nat -> Sample, n: nat, i: nat)
    requires i < n
    ensures |Collected(source, n)| == n
    ensures Collected(source, n)[i] == source(i)
  {
    CollectedLength(source, n - 1);
    if i < n - 1 {
      CollectedAt(source, n - 1, i);
    }
  }

  lemma {:induction false} CollectedLength(source: nat -> Sample, n: nat)
    ensures |Collected(source, n)| == n
  {
    if n > 0 {
      CollectedLength(source, n - 1);
    }
  }

  /** A longer run extends a shorter one: earlier rows are never rewritten. */
  lemma {:induction false} CollectedPrefix(source: nat -> Sample, m: nat, n: nat)
    requires m <= n
    ensures |Collected(source, m)| == m <= |Collected(source, n)|
    ensures Collected(source, m) == Collected(source, n)[..m]
  {
    CollectedLength(source, m);
    CollectedLength(source, n);
    if m < n {
      CollectedPrefix(source, m, n - 1);
      assert Collected(source, n)[..n - 1] == Collected(source, n - 1);
    }
  }

  /**
   The sampling loop: `duration` iterations, each appending the reading of
   that iteration. The returned table is what is written to the log file;
   with `duration == 0` it is the header alone.
   */
  method CollectSystemMetrics(source: nat -> Sample, duration: nat) returns (log: Table)
    ensures log.columns == Columns
    ensures log.rows == Collected(source, duration)
    ensures |log.rows| == duration
    ensures forall i :: 0 <= i < duration ==> log.rows[i] == source(i)
    ensures duration == 0 ==> log.rows == []
  {
    var df := Table(Columns, []);
    for k := 0 to duration
      invariant df.columns == Columns
      invariant |df.rows| == k
      invariant forall i :: 0 <= i < k ==> df.rows[i] == source(i)
    {
      var reading := source(k);
      df := df.(rows := df.rows + [reading]);
    }
    log := df;
    CollectedLength(source, duration);
    forall i | 0 <= i < duration
      ensures Collected(source, duration)[i] == source(i)
    {
      CollectedAt(source, duration, i);
    }
  }
}
