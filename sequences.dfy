/**
 * Picking items out of a sequence by index, shared by the scans of the query
 * layer and the conversion loop of the ingestion script.
 */
module Sequences {
  /** `[f(xs[i]) for i in idx]`. */
  function Project<S, T>(xs: seq<S>, idx: seq<nat>, f: S -> T): (out: seq<T>)
    requires forall k :: 0 <= k < |idx| ==> idx[k] < |xs|
    ensures |out| == |idx|
  {
    seq(|idx|, k requires 0 <= k < |idx| => f(xs[idx[k]]))
  }

  /** Appending an index appends its item. */
  lemma ProjectAppend<S, T>(xs: seq<S>, idx: seq<nat>, i: nat, f: S -> T)
    requires forall k :: 0 <= k < |idx| ==> idx[k] < |xs|
    requires i < |xs|
    ensures Project(xs, idx + [i], f) == Project(xs, idx, f) + [f(xs[i])]
  {
  }
}
