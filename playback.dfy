/**
 * The playback controller: `play(isPlay)` maps the steps, in forward or reverse order, to the
 * styles they get in this pass, consulting the identity registry for keyframed steps.
 */
module Playback {
  import opened Wrappers
  import opened Arrays
  import opened Steps
  import opened Timing
  import opened Identities

  /**
   * The style one step gets, given its offset in the pass and the registry entry read at its
   * position; `None` where that entry is missing, because reading its name then throws a TypeError.
   */
  function Render(step: Step, offset: real, ref: Option<Pair>, isPlay: bool): Option<StepStyle>
  {
    if IsKeyframed(step) then
      match ref
      case None => None
      case Some(names) =>
        Some(Animated(Animation(Duration(step), EaseType(step), offset, IterationCount(step),
          Direction(step), FillMode(step), if isPlay then names.forward else names.reverse)))
    else
      Some(Transitioned(WithoutTransition(if isPlay then End(step) else Start(step)),
        Transition(Duration(step), EaseType(step), offset)))
  }

  /** The style of position `k` in a pass over `order` with the registry `refs` read by position. */
  function At(order: seq<Step>, refs: seq<Option<Pair>>, isPlay: bool, k: nat): Option<StepStyle>
    requires k < |order|
  {
    Render(order[k], Offset(order, k), Lookup(refs, k), isPlay)
  }

  /** No position of the pass throws. */
  predicate Completes(order: seq<Step>, refs: seq<Option<Pair>>, isPlay: bool) {
    forall k :: 0 <= k < |order| ==> At(order, refs, isPlay, k).Some?
  }

  /** `order.map(...)` in `play`: the styles of a pass, or `None` when the pass throws. */
  function Mapped(order: seq<Step>, refs: seq<Option<Pair>>, isPlay: bool): (r: Option<seq<StepStyle>>)
    ensures r.Some? ==> |r.value| == |order|
  {
    if Completes(order, refs, isPlay) then
      Some(seq(|order|, k requires 0 <= k < |order| && At(order, refs, isPlay, k).Some? => At(order, refs, isPlay, k).value))
    else None
  }

  /**
   * The pass itself: a loop over `order` carrying the running total, which gives each step its
   * offset before adding the step's span.
   */
  method MapSteps(order: seq<Step>, refs: seq<Option<Pair>>, isPlay: bool) returns (r: Option<seq<StepStyle>>)
    ensures r == Mapped(order, refs, isPlay)
  {
    var totalDuration: real := 0.0;
    var styles: seq<StepStyle> := [];
    var k := 0;
    while k < |order|
      invariant 0 <= k <= |order|
      invariant totalDuration == Total(order[..k])
      invariant |styles| == k
      invariant forall j :: 0 <= j < k ==> At(order, refs, isPlay, j) == Some(styles[j])
    {
      var step := order[k];
      var delayDuration := if k == 0 then Delay(step) else totalDuration;
      assert delayDuration == Offset(order, k);
      assert order[..k + 1] == order[..k] + [step];
      totalDuration := Span(step) + totalDuration;
      var style;
      if IsKeyframed(step) {
        var ref := Lookup(refs, k);
        if ref.None? {
          assert !At(order, refs, isPlay, k).Some?;
          return None;
        }
        style := Animated(Animation(Duration(step), EaseType(step), delayDuration, IterationCount(step),
          Direction(step), FillMode(step), if isPlay then ref.value.forward else ref.value.reverse));
      } else {
        style := Transitioned(WithoutTransition(if isPlay then End(step) else Start(step)),
          Transition(Duration(step), EaseType(step), delayDuration));
      }
      styles := styles + [style];
      k := k + 1;
    }
    assert Completes(order, refs, isPlay);
    assert styles == Mapped(order, refs, isPlay).value;
    r := Some(styles);
  }

  /**
   * The outcome of `play(isPlay)` as written: forward, the steps against the registry; reverse,
   * the reversed steps against a reversed copy of the registry, and the result reversed back.
   */
  function PlayOutcome(steps: seq<Step>, names: seq<Option<Pair>>, isPlay: bool): (r: Option<seq<StepStyle>>)
    ensures r.Some? ==> |r.value| == |steps|
  {
    if isPlay then Mapped(steps, names, true)
    else
      match Mapped(Reverse(steps), Reverse(names), false)
      case None => None
      case Some(out) => Some(Reverse(out))
  }

  /** The registry copied to the steps' length, so that reversing it lines entry `i` up with step `i`. */
  function Padded(names: seq<Option<Pair>>, n: nat): (r: seq<Option<Pair>>)
    ensures |r| == if |names| < n then n else |names|
  {
    if |names| < n then names + Holes(n - |names|) else names
  }

  /** The reverse play the code evidently intends: the registry is reversed at the length of the steps. */
  function IntendedPlayOutcome(steps: seq<Step>, names: seq<Option<Pair>>, isPlay: bool): (r: Option<seq<StepStyle>>)
    ensures r.Some? ==> |r.value| == |steps|
  {
    if isPlay then Mapped(steps, names, true)
    else
      match Mapped(Reverse(steps), Reverse(Padded(names, |steps|)), false)
      case None => None
      case Some(out) => Some(Reverse(out))
  }

  /** Reading the registry at index `i` gives step `i`'s own entry, or nothing for a step without keyframes. */
  lemma LookupRegistry(steps: seq<Step>, base: nat, i: nat)
    requires i < |steps|
    ensures Lookup(Registry(steps, base), i) == Entry(steps, i, base)
  {
    RegistryAt(steps, base);
  }

  /**
   * Forward play always completes; a step without keyframes gets its `end` style with a transition
   * delayed by its offset, a keyframed one an animation with its offset, its duration and its forward name.
   */
  lemma ForwardPlay(steps: seq<Step>, base: nat)
    ensures PlayOutcome(steps, Registry(steps, base), true).Some?
    ensures forall i :: 0 <= i < |steps| && !IsKeyframed(steps[i]) ==>
      PlayOutcome(steps, Registry(steps, base), true).value[i] ==
        Transitioned(WithoutTransition(End(steps[i])), Transition(Duration(steps[i]), EaseType(steps[i]), Offset(steps, i)))
    ensures forall i :: 0 <= i < |steps| && IsKeyframed(steps[i]) ==>
      PlayOutcome(steps, Registry(steps, base), true).value[i] ==
        Animated(Animation(Duration(steps[i]), EaseType(steps[i]), Offset(steps, i), IterationCount(steps[i]),
          Direction(steps[i]), FillMode(steps[i]), Entry(steps, i, base).value.forward))
  {
    var names := Registry(steps, base);
    forall i | 0 <= i < |steps|
      ensures Lookup(names, i) == Entry(steps, i, base)
    {
      LookupRegistry(steps, base, i);
    }
    assert Completes(steps, names, true);
  }

  /**
   * Reverse play as intended always completes, and output index `i` is built from step `i`: a
   * step without keyframes gets its `start` style, a keyframed one its reverse name, each with the
   * offset of the reverse pass.
   */
  lemma IntendedReversePlay(steps: seq<Step>, base: nat)
    ensures IntendedPlayOutcome(steps, Registry(steps, base), false).Some?
    ensures forall i :: 0 <= i < |steps| && !IsKeyframed(steps[i]) ==>
      IntendedPlayOutcome(steps, Registry(steps, base), false).value[i] ==
        Transitioned(WithoutTransition(Start(steps[i])), Transition(Duration(steps[i]), EaseType(steps[i]), SuffixOffset(steps, i)))
    ensures forall i :: 0 <= i < |steps| && IsKeyframed(steps[i]) ==>
      IntendedPlayOutcome(steps, Registry(steps, base), false).value[i] ==
        Animated(Animation(Duration(steps[i]), EaseType(steps[i]), SuffixOffset(steps, i), IterationCount(steps[i]),
          Direction(steps[i]), FillMode(steps[i]), Entry(steps, i, base).value.reverse))
  {
    IntendedReverseAt(steps, base);
  }

  /** The intended reverse play, index by index, before the per-case reading of `Render`. */
  lemma IntendedReverseAt(steps: seq<Step>, base: nat)
    ensures IntendedPlayOutcome(steps, Registry(steps, base), false).Some?
    ensures forall i :: 0 <= i < |steps| ==>
      Some(IntendedPlayOutcome(steps, Registry(steps, base), false).value[i]) ==
        Render(steps[i], SuffixOffset(steps, i), Entry(steps, i, base), false)
  {
    var n := |steps|;
    var order, refs := Reverse(steps), Reverse(Padded(Registry(steps, base), n));
    forall p | 0 <= p < n
      ensures At(order, refs, false, p) == Render(steps[n - 1 - p], SuffixOffset(steps, n - 1 - p), Entry(steps, n - 1 - p, base), false)
    {
      ReversedPosition(steps, base, p);
    }
    assert Completes(order, refs, false);
    var out := Mapped(order, refs, false).value;
    forall i | 0 <= i < n
      ensures Some(Reverse(out)[i]) == Render(steps[i], SuffixOffset(steps, i), Entry(steps, i, base), false)
    {
      assert Reverse(out)[i] == out[n - 1 - i];
      assert n - 1 - (n - 1 - i) == i;
    }
  }

  /** Position `p` of the intended reverse pass is step `|steps| - 1 - p`, with that step's own registry entry. */
  lemma ReversedPosition(steps: seq<Step>, base: nat, p: nat)
    requires p < |steps|
    ensures var n := |steps|;
      At(Reverse(steps), Reverse(Padded(Registry(steps, base), n)), false, p) ==
        Render(steps[n - 1 - p], SuffixOffset(steps, n - 1 - p), Entry(steps, n - 1 - p, base), false)
  {
    var n := |steps|;
    var i := n - 1 - p;
    RegistryLength(steps, base);
    PaddedReversed(Registry(steps, base), n, p);
    LookupRegistry(steps, base, i);
    ReverseOffset(steps, i);
  }

  /** Position `p` of the padded registry reversed is index `n - 1 - p` of the registry. */
  lemma PaddedReversed(names: seq<Option<Pair>>, n: nat, p: nat)
    requires |names| <= n && p < n
    ensures Lookup(Reverse(Padded(names, n)), p) == Lookup(names, n - 1 - p)
  {
    var padded := Padded(names, n);
    assert Reverse(padded)[p] == padded[n - 1 - p];
  }

  /**
   * Reverse play as written: the registry is reversed at its own length, which is one past the
   * last keyframed step rather than the number of steps. The pass completes exactly when there is
   * no keyframed step or the last step is keyframed, and then it agrees with the intended one.
   */
  lemma ReversePlay(steps: seq<Step>, base: nat)
    ensures PlayOutcome(steps, Registry(steps, base), false).Some? <==> (Count(steps) == 0 || Extent(steps) == |steps|)
    ensures PlayOutcome(steps, Registry(steps, base), false).Some? ==>
      PlayOutcome(steps, Registry(steps, base), false) == IntendedPlayOutcome(steps, Registry(steps, base), false)
  {
    var n := |steps|;
    var names := Registry(steps, base);
    RegistryAt(steps, base);
    IntendedReverseAt(steps, base);
    if Extent(steps) == n {
      assert Padded(names, n) == names;
    } else if Count(steps) == 0 {
      ReverseWithoutKeyframes(steps, base);
    } else {
      ReverseThrows(steps, base);
    }
  }

  /** Without keyframed steps the registry is never read, so both reverse passes agree. */
  lemma ReverseWithoutKeyframes(steps: seq<Step>, base: nat)
    requires Count(steps) == 0
    ensures PlayOutcome(steps, Registry(steps, base), false) == IntendedPlayOutcome(steps, Registry(steps, base), false)
    ensures PlayOutcome(steps, Registry(steps, base), false).Some?
  {
    var n := |steps|;
    var order := Reverse(steps);
    var a, b := Reverse(Registry(steps, base)), Reverse(Padded(Registry(steps, base), n));
    forall p | 0 <= p < n
      ensures At(order, a, false, p) == At(order, b, false, p)
      ensures At(order, a, false, p).Some?
    {
      NoKeyframed(steps, n - 1 - p);
    }
    assert Completes(order, a, false) && Completes(order, b, false);
    assert Mapped(order, a, false).value == Mapped(order, b, false).value;
  }

  /** A step of a sequence with no keyframed step is not keyframed. */
  lemma {:induction false} NoKeyframed(steps: seq<Step>, i: nat)
    requires Count(steps) == 0 && i < |steps|
    ensures !IsKeyframed(steps[i])
  {
    var s := steps[..|steps| - 1];
    if i < |s| {
      assert s[i] == steps[i];
      NoKeyframed(s, i);
    }
  }

  /**
   * With a keyframed step and a last step without keyframes, the reversed registry is shorter
   * than the steps, and the first keyframed step reads a missing entry: the pass throws.
   */
  lemma ReverseThrows(steps: seq<Step>, base: nat)
    requires Count(steps) > 0 && Extent(steps) < |steps|
    ensures PlayOutcome(steps, Registry(steps, base), false).None?
  {
    var n, e := |steps|, Extent(steps);
    var names := Registry(steps, base);
    RegistryAt(steps, base);
    if e == 0 {
      CountZero(steps);
    }
    var k := FirstKeyframed(steps, e - 1);
    var p := n - 1 - k;
    var order, refs := Reverse(steps), Reverse(names);
    assert order[p] == steps[k];
    if p < e {
      assert refs[p] == names[e - 1 - p];
      assert e - 1 - p < k;
    }
    assert Lookup(refs, p).None?;
    assert !At(order, refs, false, p).Some?;
  }

  /** The first keyframed step, at or before the keyframed step `j`. */
  lemma {:induction false} FirstKeyframed(steps: seq<Step>, j: nat) returns (k: nat)
    requires j < |steps| && IsKeyframed(steps[j])
    ensures k <= j && IsKeyframed(steps[k])
    ensures forall i :: 0 <= i < k ==> !IsKeyframed(steps[i])
    decreases j
  {
    if i :| 0 <= i < j && IsKeyframed(steps[i]) {
      k := FirstKeyframed(steps, i);
    } else {
      k := j;
    }
  }

  /** A first step with keyframes followed by one without makes the as-written reverse play throw. */
  lemma ReverseCounterexample()
    ensures var plain := Step(None, None, None, None, None, None, None, None, None, None);
      var keyframed := plain.(keyframes := Some([]));
      PlayOutcome([keyframed, plain], Registry([keyframed, plain], 0), false).None?
  {
    var plain := Step(None, None, None, None, None, None, None, None, None, None);
    var keyframed := plain.(keyframes := Some([]));
    var steps := [keyframed, plain];
    assert steps[..1] == [keyframed] && [keyframed][..0] == [];
    assert Count(steps) == 1;
    assert Extent(steps) == 1;
    ReversePlay(steps, 0);
  }
}
