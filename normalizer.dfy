/**
 * The initial styles: before any play, output slot `i` is step `i`'s `start` style, as given
 * (possibly absent), built by mapping the indices 0 .. n-1 to their steps.
 */
module Normalizer {
  import opened Arrays
  import opened Steps

  /** The `start` of the step each index names, in index order. */
  function StartsAt(steps: seq<Step>, indices: seq<nat>): seq<StepStyle>
    requires forall k :: 0 <= k < |indices| ==> indices[k] < |steps|
  {
    if indices == [] then []
    else StartsAt(steps, indices[..|indices| - 1]) + [Initial(steps[indices[|indices| - 1]].start)]
  }

  /** `createArrayWithNumbers(n).map((_, index) => sequences[index].start)`. */
  function Normalize(steps: seq<Step>): seq<StepStyle>
  {
    StartsAt(steps, Range(|steps|))
  }

  /** Mapping indices to starts keeps their order: slot `k` is the start of step `indices[k]`. */
  lemma {:induction false} StartsAtIndex(steps: seq<Step>, indices: seq<nat>)
    requires forall k :: 0 <= k < |indices| ==> indices[k] < |steps|
    ensures |StartsAt(steps, indices)| == |indices|
    ensures forall k :: 0 <= k < |indices| ==> StartsAt(steps, indices)[k] == Initial(steps[indices[k]].start)
  {
    if indices != [] {
      StartsAtIndex(steps, indices[..|indices| - 1]);
    }
  }

  /** The initial styles have one slot per step, and slot `i` holds step `i`'s own start. */
  lemma NormalizeShape(steps: seq<Step>)
    ensures |Normalize(steps)| == |steps|
    ensures forall i :: 0 <= i < |steps| ==> Normalize(steps)[i] == Initial(steps[i].start)
  {
    StartsAtIndex(steps, Range(|steps|));
  }
}
