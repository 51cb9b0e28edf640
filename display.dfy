/**
 The decision made on every refresh of the monitor window: clip both raw
 regressor outputs into the percentage range and choose the status line.
 Widgets, text formatting and the five-second rescheduling are not part
 of this model.
 */
module Display {

  const Lowest: real := 0.0
  const Highest: real := 100.0
  /** A predicted value strictly above this raises the warning. */
  const Threshold: real := 80.0

  /** `np.clip(x, 0, 100)`. */
  function Clip(x: real): (r: real)
    ensures Lowest <= r <= Highest
    ensures Lowest <= x <= Highest ==> r == x
    ensures x < Lowest ==> r == Lowest
    ensures x > Highest ==> r == Highest
  {
    if x < Lowest then Lowest else if x > Highest then Highest else x
  }

  /** Clipping is the nearest point of the range: no value in range is closer to the raw one. */
  lemma ClipNearest(x: real, y: real)
    requires Lowest <= y <= Highest
    ensures (if Clip(x) >= x then Clip(x) - x else x - Clip(x)) <= (if y >= x then y - x else x - y)
  {
  }

  lemma ClipIdempotent(x: real)
    ensures Clip(Clip(x)) == Clip(x)
  {
  }

  /** Clipping never reverses the order of two predictions. */
  lemma ClipMonotone(x: real, y: real)
    requires x <= y
    ensures Clip(x) <= Clip(y)
  {
  }

  datatype Status = Warning | Stable

  /** What one refresh shows: both clipped predictions and the status. */
  datatype View = View(predCpu: real, predMem: real, status: Status)

  /**
   One refresh from the two raw regressor outputs. The shown predictions are
   in range and are the raw ones when those already are; the warning is
   raised exactly when a raw prediction exceeds the threshold, because
   clipping to [0, 100] keeps every value above 80 above 80.
   */
  function Refresh(rawCpu: real, rawMem: real): (v: View)
    ensures Lowest <= v.predCpu <= Highest && Lowest <= v.predMem <= Highest
    ensures Lowest <= rawCpu <= Highest ==> v.predCpu == rawCpu
    ensures Lowest <= rawMem <= Highest ==> v.predMem == rawMem
    ensures rawCpu < Lowest ==> v.predCpu == Lowest
    ensures rawCpu > Highest ==> v.predCpu == Highest
    ensures rawMem < Lowest ==> v.predMem == Lowest
    ensures rawMem > Highest ==> v.predMem == Highest
    ensures v.status == Warning <==> rawCpu > Threshold || rawMem > Threshold
    ensures v.status == Warning <==> v.predCpu > Threshold || v.predMem > Threshold
  {
    var c := Clip(rawCpu);
    var m := Clip(rawMem);
    View(c, m, if c > Threshold || m > Threshold then Warning else Stable)
  }

  /** A prediction of exactly 80 does not raise the warning; anything above it does. */
  lemma ThresholdIsStrict(a: real, b: real)
    requires a <= Threshold && b <= Threshold
    ensures Refresh(a, b).status == Stable
    ensures Refresh(a, Threshold + 0.01).status == Warning
    ensures Refresh(Threshold, Threshold).status == Stable
  {
  }

  /** Raw outputs -50 and 150 are shown as 0 and 100, and 100 raises the warning. */
  lemma OutOfRangeExample()
    ensures Refresh(-50.0, 150.0) == View(0.0, 100.0, Warning)
  {
  }
}
