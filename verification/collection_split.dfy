/**
 * `Collection.compactMapSplit`: one pass over a collection that sends every
 * element either to the mapped output (when the transform yields a value) or
 * to the rest (when it yields nothing), keeping the original order in both.
 */
module CollectionSplit {
  import opened Wrappers

  /** The values the transform produced, in order. */
  function Accepted<T, U>(xs: seq<T>, transform: T -> Option<U>): seq<U>
    decreases |xs|
  {
    if |xs| == 0 then []
    else
      var last := transform(xs[|xs| - 1]);
      Accepted(xs[..|xs| - 1], transform) + (if last.Some? then [last.value] else [])
  }

  /** The elements the transform rejected, in order. */
  function Rejected<T, U>(xs: seq<T>, transform: T -> Option<U>): seq<T>
    decreases |xs|
  {
    if |xs| == 0 then []
    else
      var last := xs[|xs| - 1];
      Rejected(xs[..|xs| - 1], transform) + (if transform(last).None? then [last] else [])
  }

  /**
   * The split is a partition: every element lands in exactly one output, the
   * rest holds only rejected elements, and every mapped value is the image of
   * some element.
   */
  lemma {:induction false} SplitPartitions<T, U>(xs: seq<T>, transform: T -> Option<U>)
    ensures |Accepted(xs, transform)| + |Rejected(xs, transform)| == |xs|
    ensures forall i :: 0 <= i < |Rejected(xs, transform)| ==> transform(Rejected(xs, transform)[i]).None?
    ensures forall i :: 0 <= i < |Accepted(xs, transform)| ==>
      exists j :: 0 <= j < |xs| && transform(xs[j]) == Some(Accepted(xs, transform)[i])
    decreases |xs|
  {
    if |xs| > 0 {
      var init := xs[..|xs| - 1];
      SplitPartitions(init, transform);
      var acc := Accepted(xs, transform);
      forall i | 0 <= i < |acc|
        ensures exists j :: 0 <= j < |xs| && transform(xs[j]) == Some(acc[i])
      {
        if i < |Accepted(init, transform)| {
          var j :| 0 <= j < |init| && transform(init[j]) == Some(Accepted(init, transform)[i]);
          assert xs[j] == init[j];
        } else {
          assert transform(xs[|xs| - 1]) == Some(acc[i]);
        }
      }
    }
  }

  method CompactMapSplit<T, U>(xs: seq<T>, transform: T -> Option<U>) returns (filtered: seq<U>, rest: seq<T>)
    ensures filtered == Accepted(xs, transform)
    ensures rest == Rejected(xs, transform)
  {
    filtered := [];
    rest := [];
    var i := 0;
    while i < |xs|
      invariant 0 <= i <= |xs|
      invariant filtered == Accepted(xs[..i], transform)
      invariant rest == Rejected(xs[..i], transform)
    {
      assert xs[..i + 1][..i] == xs[..i];
      match transform(xs[i]) {
        case Some(value) =>
          filtered := filtered + [value];
        case None =>
          rest := rest + [xs[i]];
      }
      i := i + 1;
    }
    assert xs[..|xs|] == xs;
  }
}
