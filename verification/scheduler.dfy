/** The sliced schedule of the request plan: targets are fetched `CONCURRENT_LIMIT` at a
    time, each slice's results are flattened onto the running list in plan order, and a short
    pause separates consecutive slices. The fetch of one target is an injected function and
    the concurrency inside a slice is left out (its results are ordered as the slice is). */
module Scheduler {
  import opened Seqs

  /** Targets fetched together. */
  const ConcurrentLimit: nat := 3

  /** Milliseconds paused between slices. */
  const PauseMs: nat := 100

  /** `xs` cut into consecutive slices of `ConcurrentLimit` elements, the last one possibly
      shorter: `ceil(|xs| / 3)` slices whose concatenation is `xs`. */
  function Slices<T>(xs: seq<T>): (ss: seq<seq<T>>)
    ensures Concat(ss) == xs
    ensures |ss| == (|xs| + ConcurrentLimit - 1) / ConcurrentLimit
    ensures forall i :: 0 <= i < |ss| ==> 1 <= |ss[i]| <= ConcurrentLimit
    ensures forall i :: 0 <= i < |ss| - 1 ==> |ss[i]| == ConcurrentLimit
    decreases |xs|
  {
    if |xs| == 0 then []
    else if |xs| <= ConcurrentLimit then
      assert Concat([xs]) == xs + Concat([xs][1..]);
      [xs]
    else
      var rest := Slices(xs[ConcurrentLimit..]);
      var ss := [xs[..ConcurrentLimit]] + rest;
      assert ss[1..] == rest;
      assert xs == xs[..ConcurrentLimit] + xs[ConcurrentLimit..];
      ss
  }

  /** The work of one slice: its targets' results, in slice order. */
  function SliceWork<P, R>(work: P -> seq<R>): seq<P> -> seq<R> {
    s => FlatMap(work, s)
  }

  /** Running the slices one after another and concatenating their results gives the
      results of the targets in plan order. */
  lemma {:induction false} SlicedFlatMap<P, R>(work: P -> seq<R>, plan: seq<P>)
    ensures FlatMap(SliceWork(work), Slices(plan)) == FlatMap(work, plan)
  {
    ConcatFlatMap(work, Slices(plan));
  }

  lemma {:induction false} ConcatFlatMap<P, R>(work: P -> seq<R>, ss: seq<seq<P>>)
    ensures FlatMap(SliceWork(work), ss) == FlatMap(work, Concat(ss))
    decreases |ss|
  {
    if |ss| > 0 {
      ConcatFlatMap(work, ss[1..]);
      FlatMapAppend(work, ss[0], Concat(ss[1..]));
    }
  }

  /** The schedule loop: `for (i = 0; i < n; i += CONCURRENT_LIMIT)`, fetching
      `plan.slice(i, i + CONCURRENT_LIMIT)`, appending the flattened results and pausing
      unless the slice was the last. */
  method RunPlan<P, R>(plan: seq<P>, work: P -> seq<R>) returns (results: seq<R>, pauses: nat)
    ensures results == FlatMap(work, plan)
    ensures pauses == if |plan| == 0 then 0 else |Slices(plan)| - 1
  {
    var n := |plan|;
    results := [];
    pauses := 0;
    var i := 0;
    var k := 0;
    while i < n
      invariant i == ConcurrentLimit * k
      invariant i <= n || (k > 0 && i < n + ConcurrentLimit)
      invariant results == FlatMap(work, plan[..if i < n then i else n])
      invariant pauses == if i >= n && k > 0 then k - 1 else k
      decreases n - i
    {
      var end := if i + ConcurrentLimit < n then i + ConcurrentLimit else n;
      var slice := plan[i..end];
      var sliceResults := Map(work, slice);
      FlatMapIsConcatMap(work, slice);
      FlatMapAppend(work, plan[..i], slice);
      assert plan[..i] + slice == plan[..end];
      results := results + Concat(sliceResults);
      if i + ConcurrentLimit < n {
        pauses := pauses + 1;
      }
      i := i + ConcurrentLimit;
      k := k + 1;
    }
    assert plan[..n] == plan;
  }
}
