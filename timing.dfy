/**
 * The timing planner inside `play`: a pass over the steps in playback order with a running
 * total that starts at zero.
 */
module Timing {
  import opened Wrappers
  import opened Arrays
  import opened Steps

  /** The running total after a pass over `order`: each step adds `duration + delay - overlay`. */
  function Total(order: seq<Step>): real
  {
    if order == [] then 0.0 else Total(order[..|order| - 1]) + Span(order[|order| - 1])
  }

  /**
   * The delay offset of the step at position `k` of the pass: the first step waits its own
   * `delay`, every later one waits for the running total of the steps before it.
   */
  function Offset(order: seq<Step>, k: nat): real
    requires k < |order|
  {
    if k == 0 then Delay(order[0]) else Total(order[..k])
  }

  lemma {:induction false} TotalAppend(a: seq<Step>, b: seq<Step>)
    ensures Total(a + b) == Total(a) + Total(b)
  {
    if b == [] {
      assert a + b == a;
    } else {
      assert (a + b)[..|a + b| - 1] == a + b[..|b| - 1];
      TotalAppend(a, b[..|b| - 1]);
    }
  }

  /** The running total does not depend on the direction of the pass. */
  lemma {:induction false} TotalReverse(s: seq<Step>)
    ensures Total(Reverse(s)) == Total(s)
  {
    if s != [] {
      var last := s[|s| - 1];
      assert Reverse(s) == [last] + Reverse(s[..|s| - 1]);
      TotalAppend([last], Reverse(s[..|s| - 1]));
      TotalReverse(s[..|s| - 1]);
      assert [last][..0] == [];
    }
  }

  /** From one step to the next, the offset grows by exactly the earlier step's span. */
  lemma NextOffset(order: seq<Step>, k: nat)
    requires 0 < k && k + 1 < |order|
    ensures Offset(order, k + 1) == Offset(order, k) + Span(order[k])
  {
    assert order[..k + 1][..k] == order[..k];
  }

  /** The second step in playback order starts once the first one's duration and delay, less its overlay, have passed. */
  lemma SecondOffset(order: seq<Step>)
    requires 2 <= |order|
    ensures Offset(order, 1) == Duration(order[0]) + Delay(order[0]) - Overlay(order[0])
  {
    var first := order[..1];
    assert first[..0] == [] && first[0] == order[0];
    assert Total(first) == Total([]) + Span(order[0]);
  }

  /** The offset of a later step is the total of the spans of all steps before it in the pass. */
  lemma {:induction false} OffsetIsPrefixTotal(order: seq<Step>, k: nat, i: nat)
    requires 0 < k < |order| && i <= k
    ensures Offset(order, k) == Total(order[..i]) + Total(order[i..k])
  {
    assert order[..k] == order[..i] + order[i..k];
    TotalAppend(order[..i], order[i..k]);
  }

  /**
   * A later step's own `delay` never enters its own offset, but it is added to the running
   * total, so it shifts the step after it, and the final total, by the change.
   */
  lemma {:induction false} LaterDelayShiftsFollowing(order: seq<Step>, k: nat, d: real)
    requires 0 < k < |order|
    ensures var changed := order[k := order[k].(delay := Some(d))];
      && Offset(changed, k) == Offset(order, k)
      && (k + 1 < |order| ==> Offset(changed, k + 1) == Offset(order, k + 1) + d - Delay(order[k]))
      && Total(changed) == Total(order) + d - Delay(order[k])
  {
    var changed := order[k := order[k].(delay := Some(d))];
    assert changed[..k] == order[..k];
    assert changed[..k + 1] == order[..k] + [changed[k]];
    assert order[..k + 1] == order[..k] + [order[k]];
    TotalAppend(order[..k], [changed[k]]);
    TotalAppend(order[..k], [order[k]]);
    assert [changed[k]][..0] == [] && [order[k]][..0] == [];
    assert changed == changed[..k + 1] + changed[k + 1..];
    assert order == order[..k + 1] + order[k + 1..];
    assert changed[k + 1..] == order[k + 1..];
    TotalAppend(changed[..k + 1], changed[k + 1..]);
    TotalAppend(order[..k + 1], order[k + 1..]);
  }

  /** A step with only a `duration` set. */
  function Timed(duration: real, overlay: real): Step {
    Step(None, None, None, Some(duration), None, Some(overlay), None, None, None, None)
  }

  /** Durations 1 and 2 give offsets 0 and 1 and a total of 3; an overlay of 0.5 after a duration of 2 starts the next step at 1.5. */
  lemma WorkedExamples()
    ensures var back := [Timed(1.0, 0.0), Timed(2.0, 0.0)];
      Offset(back, 0) == 0.0 && Offset(back, 1) == 1.0 && Total(back) == 3.0
    ensures var overlapped := [Timed(2.0, 0.5), Timed(1.0, 0.0)];
      Offset(overlapped, 1) == 1.5
  {
    var back := [Timed(1.0, 0.0), Timed(2.0, 0.0)];
    assert back[..1] == [back[0]] && back[..1][..0] == [];
    var overlapped := [Timed(2.0, 0.5), Timed(1.0, 0.0)];
    assert overlapped[..1] == [overlapped[0]] && overlapped[..1][..0] == [];
  }

  /**
   * The offset a reverse pass gives step `i` of the declared order: the last step waits its own
   * `delay`, every other step waits for the total of all the steps declared after it.
   */
  function SuffixOffset(steps: seq<Step>, i: nat): real
    requires i < |steps|
  {
    if i == |steps| - 1 then Delay(steps[i]) else Total(steps[i + 1..])
  }

  /** Position `|steps| - 1 - i` of the reversed pass is step `i`, and its offset is the suffix total. */
  lemma ReverseOffset(steps: seq<Step>, i: nat)
    requires i < |steps|
    ensures Reverse(steps)[|steps| - 1 - i] == steps[i]
    ensures Offset(Reverse(steps), |steps| - 1 - i) == SuffixOffset(steps, i)
  {
    if i < |steps| - 1 {
      ReversePrefix(steps, i + 1);
      TotalReverse(steps[i + 1..]);
    }
  }

  /** The first steps of the reversed order are the last steps of the declared order, reversed. */
  lemma ReversePrefix(steps: seq<Step>, j: nat)
    requires j <= |steps|
    ensures Reverse(steps)[..|steps| - j] == Reverse(steps[j..])
  {
    var before, after := Reverse(steps)[..|steps| - j], steps[j..];
    forall q | 0 <= q < |steps| - j
      ensures before[q] == Reverse(after)[q]
    {
      assert Reverse(after)[q] == after[|after| - 1 - q];
    }
  }
}
