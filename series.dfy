/**
 The two pandas series operations the label construction relies on, on
 series whose cells may be missing: `shift(-1)` and forward-fill
 (`fillna(method='ffill')`).
 */
module Series {
  import opened Wrappers

  /** `shift(-1)`: every cell moves one place earlier and the last place becomes missing. */
  function ShiftBack<T>(xs: seq<Option<T>>): (r: seq<Option<T>>)
    ensures |r| == |xs|
    ensures forall i :: 0 <= i < |xs| - 1 ==> r[i] == xs[i + 1]
    ensures |xs| > 0 ==> r[|xs| - 1] == None
  {
    if xs == [] then [] else xs[1..] + [None]
  }

  /** Forward-fill carrying `last` into the leading gaps of `xs`. */
  function FillFrom<T>(last: Option<T>, xs: seq<Option<T>>): (r: seq<Option<T>>)
    ensures |r| == |xs|
    decreases |xs|
  {
    if xs == [] then []
    else
      var v := if xs[0].Some? then xs[0] else last;
      [v] + FillFrom(v, xs[1..])
  }

  /** Forward-fill: a missing cell takes the nearest present cell before it; with none before it, it stays missing. */
  function ForwardFill<T>(xs: seq<Option<T>>): (r: seq<Option<T>>)
    ensures |r| == |xs|
  {
    FillFrom(None, xs)
  }

  /**
   The reference meaning of forward-fill at one position: the nearest
   present cell at or before `i`, or `dflt` when there is none.
   */
  function LastKnown<T>(dflt: Option<T>, xs: seq<Option<T>>, i: nat): Option<T>
    requires i < |xs|
  {
    if xs[i].Some? then xs[i] else if i == 0 then dflt else LastKnown(dflt, xs, i - 1)
  }

  /** Dropping the first cell and folding it into the default does not change the answer. */
  lemma {:induction false} LastKnownTail<T>(dflt: Option<T>, xs: seq<Option<T>>, i: nat)
    requires 0 < i < |xs|
    ensures LastKnown(if xs[0].Some? then xs[0] else dflt, xs[1..], i - 1) == LastKnown(dflt, xs, i)
  {
    if xs[i].Some? {
    } else if i == 1 {
    } else {
      LastKnownTail(dflt, xs, i - 1);
    }
  }

  lemma {:induction false} FillFromAt<T>(last: Option<T>, xs: seq<Option<T>>, i: nat)
    requires i < |xs|
    ensures FillFrom(last, xs)[i] == LastKnown(last, xs, i)
    decreases |xs|
  {
    var v := if xs[0].Some? then xs[0] else last;
    assert FillFrom(last, xs) == [v] + FillFrom(v, xs[1..]);
    if i > 0 {
      FillFromAt(v, xs[1..], i - 1);
      LastKnownTail(last, xs, i);
    }
  }

  /** Forward-fill agrees with the reference definition at every position. */
  lemma ForwardFillAt<T>(xs: seq<Option<T>>, i: nat)
    requires i < |xs|
    ensures ForwardFill(xs)[i] == LastKnown(None, xs, i)
  {
    FillFromAt(None, xs, i);
  }

  /** A present cell is never overwritten. */
  lemma ForwardFillKeepsPresent<T>(xs: seq<Option<T>>, i: nat)
    requires i < |xs| && xs[i].Some?
    ensures ForwardFill(xs)[i] == xs[i]
  {
    ForwardFillAt(xs, i);
  }

  lemma {:induction false} LastKnownNoneIff<T>(xs: seq<Option<T>>, i: nat)
    requires i < |xs|
    ensures LastKnown(None, xs, i) == None <==> forall j :: 0 <= j <= i ==> xs[j] == None
  {
    if xs[i].Some? {
    } else if i > 0 {
      LastKnownNoneIff(xs, i - 1);
    }
  }

  /** A cell stays missing after forward-fill exactly when it and every cell before it are missing. */
  lemma ForwardFillNoneIff<T>(xs: seq<Option<T>>, i: nat)
    requires i < |xs|
    ensures ForwardFill(xs)[i] == None <==> forall j :: 0 <= j <= i ==> xs[j] == None
  {
    ForwardFillAt(xs, i);
    LastKnownNoneIff(xs, i);
  }

  lemma {:induction false} LastKnownSource<T>(xs: seq<Option<T>>, i: nat)
    requires i < |xs| && LastKnown(None, xs, i).Some?
    ensures exists j :: 0 <= j <= i && xs[j] == LastKnown(None, xs, i)
  {
    if xs[i].Some? {
      assert xs[i] == LastKnown(None, xs, i);
    } else {
      LastKnownSource(xs, i - 1);
    }
  }

  /** A present cell after forward-fill is a copy of a present cell at or before it. */
  lemma ForwardFillSource<T>(xs: seq<Option<T>>, i: nat)
    requires i < |xs| && ForwardFill(xs)[i].Some?
    ensures exists j :: 0 <= j <= i && xs[j] == ForwardFill(xs)[i]
  {
    ForwardFillAt(xs, i);
    LastKnownSource(xs, i);
  }

  lemma {:induction false} LastKnownOfFilled<T>(xs: seq<Option<T>>, i: nat)
    requires i < |xs|
    ensures LastKnown(None, ForwardFill(xs), i) == LastKnown(None, xs, i)
  {
    ForwardFillAt(xs, i);
    var f := ForwardFill(xs);
    if f[i].Some? {
    } else {
      ForwardFillNoneIff(xs, i);
      if i > 0 {
        LastKnownOfFilled(xs, i - 1);
        LastKnownNoneIff(xs, i - 1);
      }
    }
  }

  /** Filling an already filled series changes nothing. */
  lemma ForwardFillIdempotent<T>(xs: seq<Option<T>>)
    ensures ForwardFill(ForwardFill(xs)) == ForwardFill(xs)
  {
    var f := ForwardFill(xs);
    forall i | 0 <= i < |xs|
      ensures ForwardFill(f)[i] == f[i]
    {
      ForwardFillAt(f, i);
      LastKnownOfFilled(xs, i);
      ForwardFillAt(xs, i);
    }
  }
}
