/**
 * The identity registry: for each keyframed step, a forward and a reverse animation name and the
 * `<style>` elements that hold their rule sets, kept in two sparse arrays indexed by step.
 */
module Identities {
  import opened Wrappers
  import opened Arrays
  import opened Steps
  import opened Dom

  /** A registry entry `{ forward, reverse }`: two names in `animationNamesRef`, or two tags in `styleTagRef`. */
  datatype Pair = Pair(forward: nat, reverse: nat)

  /** The number of keyframed steps. */
  function Count(steps: seq<Step>): (n: nat)
    ensures n <= |steps|
  {
    if steps == [] then 0
    else Count(steps[..|steps| - 1]) + (if IsKeyframed(steps[|steps| - 1]) then 1 else 0)
  }

  /** The number of keyframed steps before step `i`: how many name pairs were handed out before it. */
  function Rank(steps: seq<Step>, i: nat): nat
    requires i <= |steps|
  {
    Count(steps[..i])
  }

  /** One past the last keyframed step: the length a sparse array filled at the keyframed indices reaches. */
  function Extent(steps: seq<Step>): (n: nat)
    ensures n <= |steps|
    ensures forall j :: n <= j < |steps| ==> !IsKeyframed(steps[j])
    ensures n > 0 ==> IsKeyframed(steps[n - 1])
  {
    if steps == [] then 0
    else if IsKeyframed(steps[|steps| - 1]) then |steps|
    else Extent(steps[..|steps| - 1])
  }

  /** The entry that registry initialisation leaves at index `i`, when numbering starts at `base`. */
  function Entry(steps: seq<Step>, i: nat, base: nat): Option<Pair>
    requires i < |steps|
  {
    if IsKeyframed(steps[i]) then Some(Pair(base + 2 * Rank(steps, i), base + 2 * Rank(steps, i) + 1))
    else None
  }

  /**
   * The sparse array registry initialisation builds, step by step in index order: a keyframed
   * step writes its pair at its own index, which grows the array past any holes before it.
   */
  function Registry(steps: seq<Step>, base: nat): seq<Option<Pair>>
  {
    if steps == [] then []
    else
      var s, last := steps[..|steps| - 1], steps[|steps| - 1];
      if IsKeyframed(last) then Assign(Registry(s, base), |s|, Pair(base + 2 * Count(s), base + 2 * Count(s) + 1))
      else Registry(s, base)
  }

  /** The registry never reaches past the last step. */
  lemma {:induction false} RegistryLength(steps: seq<Step>, base: nat)
    ensures |Registry(steps, base)| <= |steps|
  {
    if steps != [] {
      RegistryLength(steps[..|steps| - 1], base);
    }
  }

  /** The keyframed steps occupy the first indices: none follows a step without keyframes. */
  predicate KeyframedPrefix(steps: seq<Step>) {
    forall i, j :: 0 <= i < j < |steps| && IsKeyframed(steps[j]) ==> IsKeyframed(steps[i])
  }

  /** Initialisation of the first `i + 1` steps counts step `i` when it is keyframed. */
  lemma CountNext(steps: seq<Step>, i: nat)
    requires i < |steps|
    ensures Count(steps[..i + 1]) == Count(steps[..i]) + if IsKeyframed(steps[i]) then 1 else 0
  {
    assert steps[..i + 1][..i] == steps[..i];
  }

  /** Initialisation of the first `i + 1` steps writes step `i`'s pair at index `i` exactly when it is keyframed. */
  lemma RegistryNext(steps: seq<Step>, i: nat, base: nat)
    requires i < |steps|
    ensures var s, c := steps[..i], Count(steps[..i]);
      Registry(steps[..i + 1], base) ==
        if IsKeyframed(steps[i]) then Assign(Registry(s, base), i, Pair(base + 2 * c, base + 2 * c + 1))
        else Registry(s, base)
  {
    assert steps[..i + 1][..i] == steps[..i];
  }

  /** Initialisation of the first `i + 1` steps inserts step `i`'s two rule sets after the others exactly when it is keyframed. */
  lemma MountCallsNext(steps: seq<Step>, i: nat, nameBase: nat, tagBase: nat)
    requires i < |steps|
    ensures var s, c, x := steps[..i], Count(steps[..i]), steps[i];
      MountCalls(steps[..i + 1], nameBase, tagBase) ==
        MountCalls(s, nameBase, tagBase) +
        if IsKeyframed(x) then
          [Insert(tagBase + 2 * c, nameBase + 2 * c, x.keyframes.value),
           Insert(tagBase + 2 * c + 1, nameBase + 2 * c + 1, Reverse(x.keyframes.value))]
        else []
  {
    assert steps[..i + 1][..i] == steps[..i];
  }

  /** Initialising a step without keyframes changes neither registry, nor the count, nor the calls. */
  lemma PlainStep(steps: seq<Step>, i: nat, nameBase: nat, tagBase: nat)
    requires i < |steps| && !IsKeyframed(steps[i])
    ensures Registry(steps[..i + 1], nameBase) == Registry(steps[..i], nameBase)
    ensures Registry(steps[..i + 1], tagBase) == Registry(steps[..i], tagBase)
    ensures Count(steps[..i + 1]) == Count(steps[..i])
    ensures MountCalls(steps[..i + 1], nameBase, tagBase) == MountCalls(steps[..i], nameBase, tagBase)
  {
    RegistryNext(steps, i, nameBase);
    RegistryNext(steps, i, tagBase);
    CountNext(steps, i);
    MountCallsNext(steps, i, nameBase, tagBase);
    assert MountCalls(steps[..i], nameBase, tagBase) + [] == MountCalls(steps[..i], nameBase, tagBase);
  }

  /**
   * Initialising a keyframed step writes the next two names and the next two tags at its index and
   * appends its two insertions to whatever calls came before.
   */
  lemma KeyframedStep(steps: seq<Step>, i: nat, nameBase: nat, tagBase: nat, prior: seq<SheetCall>)
    requires i < |steps| && IsKeyframed(steps[i])
    ensures var c, keyframes := Count(steps[..i]), steps[i].keyframes.value;
      Registry(steps[..i + 1], nameBase) == Assign(Registry(steps[..i], nameBase), i, Pair(nameBase + 2 * c, nameBase + 2 * c + 1)) &&
      Registry(steps[..i + 1], tagBase) == Assign(Registry(steps[..i], tagBase), i, Pair(tagBase + 2 * c, tagBase + 2 * c + 1)) &&
      Count(steps[..i + 1]) == c + 1 &&
      prior + MountCalls(steps[..i], nameBase, tagBase) + [Insert(tagBase + 2 * c, nameBase + 2 * c, keyframes)] +
        [Insert(tagBase + 2 * c + 1, nameBase + 2 * c + 1, Reverse(keyframes))] ==
      prior + MountCalls(steps[..i + 1], nameBase, tagBase)
  {
    RegistryNext(steps, i, nameBase);
    RegistryNext(steps, i, tagBase);
    CountNext(steps, i);
    MountCallsNext(steps, i, nameBase, tagBase);
  }

  /** Counting is monotone along the prefixes, and strictly so across a keyframed step. */
  lemma {:induction false} CountMono(steps: seq<Step>, i: nat, j: nat)
    requires i <= j <= |steps|
    ensures Rank(steps, i) <= Rank(steps, j)
    ensures i < j && IsKeyframed(steps[i]) ==> Rank(steps, i) + 1 <= Rank(steps, j)
  {
    if i < j {
      CountMono(steps, i, j - 1);
      assert steps[..j][..j - 1] == steps[..j - 1];
    }
  }

  /** When the first `k` steps are all keyframed, `k` pairs were handed out for them. */
  lemma {:induction false} CountFull(steps: seq<Step>, k: nat)
    requires k <= |steps|
    requires forall j :: 0 <= j < k ==> IsKeyframed(steps[j])
    ensures Rank(steps, k) == k
  {
    if k > 0 {
      CountFull(steps, k - 1);
      assert steps[..k][..k - 1] == steps[..k - 1];
    }
  }

  /**
   * What initialisation leaves in the registry: it reaches one past the last keyframed step, and
   * index `i` holds the pair numbered by the step's rank exactly when step `i` is keyframed.
   */
  lemma {:induction false} RegistryAt(steps: seq<Step>, base: nat)
    ensures |Registry(steps, base)| == Extent(steps)
    ensures forall i :: 0 <= i < Extent(steps) ==> Registry(steps, base)[i] == Entry(steps, i, base)
  {
    if steps != [] {
      var s, x := steps[..|steps| - 1], steps[|steps| - 1];
      assert steps == s + [x];
      RegistryAt(s, base);
      var r := Registry(s, base);
      forall i | 0 <= i < Extent(steps)
        ensures Registry(steps, base)[i] == Entry(steps, i, base)
      {
        if i == |s| {
          EntryLast(steps, base);
        } else {
          EntryPrefix(s, x, base, i);
          if IsKeyframed(x) && i >= |r| {
            assert !IsKeyframed(s[i]);
          }
        }
      }
    }
  }

  /** The last step's entry is numbered by the count of the steps before it. */
  lemma EntryLast(steps: seq<Step>, base: nat)
    requires steps != []
    ensures var s := steps[..|steps| - 1];
      Entry(steps, |s|, base) ==
        if IsKeyframed(steps[|s|]) then Some(Pair(base + 2 * Count(s), base + 2 * Count(s) + 1)) else None
  {
  }

  lemma EntryPrefix(s: seq<Step>, x: Step, base: nat, j: nat)
    requires j < |s|
    ensures Entry(s + [x], j, base) == Entry(s, j, base)
  {
    var t := s + [x];
    assert t[..j] == s[..j];
    assert t[j] == s[j];
  }

  /** An entry exists exactly at the indices whose step is keyframed, and the registry ends with one. */
  lemma RegistryDomain(steps: seq<Step>, base: nat)
    ensures |Registry(steps, base)| <= |steps|
    ensures forall i :: 0 <= i < |steps| ==> (Lookup(Registry(steps, base), i).Some? <==> IsKeyframed(steps[i]))
    ensures Registry(steps, base) != [] ==> Registry(steps, base)[|Registry(steps, base)| - 1].Some?
    ensures Registry(steps, base) == [] <==> Count(steps) == 0
  {
    RegistryAt(steps, base);
    if Extent(steps) > 0 {
      CountMono(steps, Extent(steps) - 1, |steps|);
      assert steps[..|steps|] == steps;
    } else {
      CountZero(steps);
    }
  }

  lemma {:induction false} CountZero(steps: seq<Step>)
    requires forall j :: 0 <= j < |steps| ==> !IsKeyframed(steps[j])
    ensures Count(steps) == 0
  {
    if steps != [] {
      CountZero(steps[..|steps| - 1]);
    }
  }

  /** Every name of the registry is fresh: at least `base`, below `base + 2 * Count`, the reverse right after the forward. */
  lemma TokensFresh(steps: seq<Step>, base: nat, i: nat)
    requires i < |steps| && IsKeyframed(steps[i])
    ensures base <= Entry(steps, i, base).value.forward
    ensures Entry(steps, i, base).value.reverse == Entry(steps, i, base).value.forward + 1
    ensures Entry(steps, i, base).value.reverse < base + 2 * Count(steps)
  {
    CountMono(steps, i, |steps|);
    assert steps[..|steps|] == steps;
  }

  /** No two steps share a name, and no step's forward name is its reverse name. */
  lemma TokensDistinct(steps: seq<Step>, base: nat, i: nat, j: nat)
    requires i < |steps| && j < |steps| && i != j
    requires IsKeyframed(steps[i]) && IsKeyframed(steps[j])
    ensures var a, b := Entry(steps, i, base).value, Entry(steps, j, base).value;
      a.forward != a.reverse && a.forward != b.forward && a.forward != b.reverse &&
      a.reverse != b.forward && a.reverse != b.reverse
  {
    if i < j { CountMono(steps, i, j); } else { CountMono(steps, j, i); }
  }

  /**
   * The rule-set calls of registry initialisation: per keyframed step, in index order, the forward
   * rule set from its keyframes, then the reverse one from the keyframes reversed.
   */
  function MountCalls(steps: seq<Step>, nameBase: nat, tagBase: nat): seq<SheetCall>
  {
    if steps == [] then []
    else
      var s, last := steps[..|steps| - 1], steps[|steps| - 1];
      var r := Count(s);
      MountCalls(s, nameBase, tagBase) +
      if IsKeyframed(last) then
        [Insert(tagBase + 2 * r, nameBase + 2 * r, last.keyframes.value),
         Insert(tagBase + 2 * r + 1, nameBase + 2 * r + 1, Reverse(last.keyframes.value))]
      else []
  }

  /**
   * Initialisation makes exactly one insertion pair per keyframed step: at positions 2r and 2r + 1
   * (r the step's rank) the forward rule set under its forward name and tag, then the reversed
   * keyframes under its reverse name and tag.
   */
  lemma MountCallsShape(steps: seq<Step>, nameBase: nat, tagBase: nat)
    ensures |MountCalls(steps, nameBase, tagBase)| == 2 * Count(steps)
    ensures forall i :: 0 <= i < |steps| && IsKeyframed(steps[i]) ==>
      var calls, n, t := MountCalls(steps, nameBase, tagBase), Entry(steps, i, nameBase).value, Entry(steps, i, tagBase).value;
      2 * Rank(steps, i) + 1 < |calls| &&
      calls[2 * Rank(steps, i)] == Insert(t.forward, n.forward, steps[i].keyframes.value) &&
      calls[2 * Rank(steps, i) + 1] == Insert(t.reverse, n.reverse, Reverse(steps[i].keyframes.value))
  {
    MountCallsLength(steps, nameBase, tagBase);
    forall i | 0 <= i < |steps| && IsKeyframed(steps[i]) {
      MountCallsAt(steps, nameBase, tagBase, i);
    }
  }

  /** Two insertions per keyframed step. */
  lemma {:induction false} MountCallsLength(steps: seq<Step>, nameBase: nat, tagBase: nat)
    ensures |MountCalls(steps, nameBase, tagBase)| == 2 * Count(steps)
  {
    if steps != [] {
      MountCallsLength(steps[..|steps| - 1], nameBase, tagBase);
    }
  }

  /** The insertion pair of keyframed step `i` sits at positions 2r and 2r + 1, r its rank. */
  lemma {:induction false} MountCallsAt(steps: seq<Step>, nameBase: nat, tagBase: nat, i: nat)
    requires i < |steps| && IsKeyframed(steps[i])
    ensures var calls, n, t := MountCalls(steps, nameBase, tagBase), Entry(steps, i, nameBase).value, Entry(steps, i, tagBase).value;
      2 * Rank(steps, i) + 1 < |calls| &&
      calls[2 * Rank(steps, i)] == Insert(t.forward, n.forward, steps[i].keyframes.value) &&
      calls[2 * Rank(steps, i) + 1] == Insert(t.reverse, n.reverse, Reverse(steps[i].keyframes.value))
  {
    var s := steps[..|steps| - 1];
    var prior, calls := MountCalls(s, nameBase, tagBase), MountCalls(steps, nameBase, tagBase);
    MountCallsLength(s, nameBase, tagBase);
    if i < |s| {
      MountCallsAt(s, nameBase, tagBase, i);
      EntryPrefix(s, steps[|steps| - 1], nameBase, i);
      EntryPrefix(s, steps[|steps| - 1], tagBase, i);
      assert steps == s + [steps[|steps| - 1]];
      assert steps[..i] == s[..i];
      assert calls[..|prior|] == prior;
    } else {
      EntryLast(steps, nameBase);
      EntryLast(steps, tagBase);
    }
  }

  /** The outcome of a teardown pass: the removals issued and whether it stopped with a TypeError. */
  datatype Run = Run(calls: seq<SheetCall>, thrown: bool)

  /**
   * Teardown as written: walk `Object.values(animationNames)` by its dense positions `i` and remove
   * each name pair through `styleTags[i]`; a missing `styleTags[i]` throws.
   */
  function Teardown(values: seq<Pair>, tags: seq<Option<Pair>>): Run
  {
    if values == [] then Run([], false)
    else
      var prev, i := Teardown(values[..|values| - 1], tags), |values| - 1;
      if prev.thrown then prev
      else match Lookup(tags, i)
        case None => Run(prev.calls, true)
        case Some(tag) =>
          Run(prev.calls + [Remove(tag.forward, values[i].forward), Remove(tag.reverse, values[i].reverse)], false)
  }

  /** The as-written teardown throws exactly when some dense position has no tag entry at that index. */
  lemma {:induction false} TeardownThrows(values: seq<Pair>, tags: seq<Option<Pair>>)
    ensures Teardown(values, tags).thrown <==> exists j :: 0 <= j < |values| && Lookup(tags, j).None?
  {
    if values != [] {
      var init := values[..|values| - 1];
      TeardownThrows(init, tags);
      if Teardown(init, tags).thrown {
        var j :| 0 <= j < |init| && Lookup(tags, j).None?;
        assert 0 <= j < |values|;
      }
    }
  }

  /** Once a prefix of the pass throws, the pass stops there: nothing after it changes the outcome. */
  lemma {:induction false} TeardownStops(values: seq<Pair>, tags: seq<Option<Pair>>, k: nat)
    requires k <= |values| && Teardown(values[..k], tags).thrown
    ensures Teardown(values, tags) == Teardown(values[..k], tags)
    decreases |values| - k
  {
    if k < |values| {
      var init := values[..|values| - 1];
      assert init[..k] == values[..k];
      TeardownStops(init, tags, k);
    } else {
      assert values[..k] == values;
    }
  }

  /** The removals one would issue by walking both registries index by index, skipping holes. */
  function Removals(names: seq<Option<Pair>>, tags: seq<Option<Pair>>): seq<SheetCall>
    requires |names| == |tags|
  {
    if names == [] then []
    else
      Removals(names[..|names| - 1], tags[..|tags| - 1]) +
      match (names[|names| - 1], tags[|tags| - 1])
      case (Some(n), Some(t)) => [Remove(t.forward, n.forward), Remove(t.reverse, n.reverse)]
      case _ => []
  }

  /** The removal that undoes each insertion, in insertion order. */
  function Matching(calls: seq<SheetCall>): seq<SheetCall>
  {
    if calls == [] then []
    else
      Matching(calls[..|calls| - 1]) +
      match calls[|calls| - 1]
      case Insert(tag, name, _) => [Remove(tag, name)]
      case Remove(_, _) => []
  }

  lemma {:induction false} MatchingAppend(a: seq<SheetCall>, b: seq<SheetCall>)
    ensures Matching(a + b) == Matching(a) + Matching(b)
  {
    if b == [] {
      assert a + b == a;
    } else {
      assert (a + b)[..|a + b| - 1] == a + b[..|b| - 1];
      MatchingAppend(a, b[..|b| - 1]);
    }
  }

  lemma MatchingPair(a: SheetCall, b: SheetCall)
    requires a.Insert? && b.Insert?
    ensures Matching([a, b]) == [Remove(a.tag, a.name), Remove(b.tag, b.name)]
  {
    assert [a][..0] == [];
    assert Matching([a]) == Matching([]) + [Remove(a.tag, a.name)];
    assert [a, b][..1] == [a];
    assert Matching([a, b]) == Matching([a]) + [Remove(b.tag, b.name)];
  }

  lemma {:induction false} RemovalsHoles(a: seq<Option<Pair>>, b: seq<Option<Pair>>, k: nat)
    requires |a| == |b|
    ensures Removals(a + Holes(k), b + Holes(k)) == Removals(a, b)
  {
    if k == 0 {
      assert a + Holes(k) == a && b + Holes(k) == b;
    } else {
      assert (a + Holes(k))[..|a| + k - 1] == a + Holes(k - 1);
      assert (b + Holes(k))[..|b| + k - 1] == b + Holes(k - 1);
      RemovalsHoles(a, b, k - 1);
    }
  }

  /**
   * Teardown by index (what the code evidently intends): for any steps, it issues exactly one
   * removal for each insertion of initialisation, with the same tag and name, in the same order.
   */
  lemma {:induction false} IntendedTeardownMatches(steps: seq<Step>, nameBase: nat, tagBase: nat)
    ensures |Registry(steps, nameBase)| == |Registry(steps, tagBase)|
    ensures Removals(Registry(steps, nameBase), Registry(steps, tagBase)) == Matching(MountCalls(steps, nameBase, tagBase))
  {
    RegistryAt(steps, nameBase);
    RegistryAt(steps, tagBase);
    if steps != [] {
      IntendedTeardownMatches(steps[..|steps| - 1], nameBase, tagBase);
      if IsKeyframed(steps[|steps| - 1]) {
        TeardownStepKeyframed(steps, nameBase, tagBase);
      } else {
        TeardownStepPlain(steps, nameBase, tagBase);
      }
    }
  }

  lemma TeardownStepPlain(steps: seq<Step>, nameBase: nat, tagBase: nat)
    requires steps != [] && !IsKeyframed(steps[|steps| - 1])
    requires var s := steps[..|steps| - 1];
      |Registry(s, nameBase)| == |Registry(s, tagBase)| &&
      Removals(Registry(s, nameBase), Registry(s, tagBase)) == Matching(MountCalls(s, nameBase, tagBase))
    ensures |Registry(steps, nameBase)| == |Registry(steps, tagBase)|
    ensures Removals(Registry(steps, nameBase), Registry(steps, tagBase)) == Matching(MountCalls(steps, nameBase, tagBase))
  {
    var s := steps[..|steps| - 1];
    assert MountCalls(steps, nameBase, tagBase) == MountCalls(s, nameBase, tagBase) + [];
    assert MountCalls(s, nameBase, tagBase) + [] == MountCalls(s, nameBase, tagBase);
  }

  lemma TeardownStepKeyframed(steps: seq<Step>, nameBase: nat, tagBase: nat)
    requires steps != [] && IsKeyframed(steps[|steps| - 1])
    requires var s := steps[..|steps| - 1];
      |Registry(s, nameBase)| == |Registry(s, tagBase)| &&
      Removals(Registry(s, nameBase), Registry(s, tagBase)) == Matching(MountCalls(s, nameBase, tagBase))
    ensures |Registry(steps, nameBase)| == |Registry(steps, tagBase)|
    ensures Removals(Registry(steps, nameBase), Registry(steps, tagBase)) == Matching(MountCalls(steps, nameBase, tagBase))
  {
    var s := steps[..|steps| - 1];
    var names, tags := Registry(s, nameBase), Registry(s, tagBase);
    var c := Count(s);
    var n, t := Pair(nameBase + 2 * c, nameBase + 2 * c + 1), Pair(tagBase + 2 * c, tagBase + 2 * c + 1);
    RegistryLast(steps, nameBase);
    RegistryLast(steps, tagBase);
    RemovalsGrow(names, tags, |s| - |names|, n, t);
    MatchingMountLast(steps, nameBase, tagBase);
  }

  /** A keyframed last step grows the registry past the holes before it by its own pair. */
  lemma RegistryLast(steps: seq<Step>, base: nat)
    requires steps != [] && IsKeyframed(steps[|steps| - 1])
    ensures var s := steps[..|steps| - 1]; var names, c := Registry(s, base), Count(s);
      |names| <= |s| &&
      Registry(steps, base) == names + Holes(|s| - |names|) + [Some(Pair(base + 2 * c, base + 2 * c + 1))]
  {
    var s := steps[..|steps| - 1];
    RegistryLength(s, base);
    AssignPastEnd(Registry(s, base), |s|, Pair(base + 2 * Count(s), base + 2 * Count(s) + 1));
  }

  /** A name pair and a tag pair written at the same index past both ends add their two removals. */
  lemma RemovalsGrow(names: seq<Option<Pair>>, tags: seq<Option<Pair>>, k: nat, n: Pair, t: Pair)
    requires |names| == |tags|
    ensures Removals(names + Holes(k) + [Some(n)], tags + Holes(k) + [Some(t)]) ==
      Removals(names, tags) + [Remove(t.forward, n.forward), Remove(t.reverse, n.reverse)]
  {
    var names', tags' := names + Holes(k) + [Some(n)], tags + Holes(k) + [Some(t)];
    assert names'[..|names'| - 1] == names + Holes(k);
    assert tags'[..|tags'| - 1] == tags + Holes(k);
    RemovalsHoles(names, tags, k);
  }

  /** Initialising one more keyframed step adds the removals of its forward and reverse rule sets to the matching list. */
  lemma MatchingMountLast(steps: seq<Step>, nameBase: nat, tagBase: nat)
    requires steps != [] && IsKeyframed(steps[|steps| - 1])
    ensures var s := steps[..|steps| - 1]; var c := Count(s);
      Matching(MountCalls(steps, nameBase, tagBase)) == Matching(MountCalls(s, nameBase, tagBase)) +
        [Remove(tagBase + 2 * c, nameBase + 2 * c), Remove(tagBase + 2 * c + 1, nameBase + 2 * c + 1)]
  {
    var s, x := steps[..|steps| - 1], steps[|steps| - 1];
    var c := Count(s);
    var inserted := [Insert(tagBase + 2 * c, nameBase + 2 * c, x.keyframes.value),
                     Insert(tagBase + 2 * c + 1, nameBase + 2 * c + 1, Reverse(x.keyframes.value))];
    assert MountCalls(steps, nameBase, tagBase) == MountCalls(s, nameBase, tagBase) + inserted;
    MatchingAppend(MountCalls(s, nameBase, tagBase), inserted);
    MatchingPair(inserted[0], inserted[1]);
    assert inserted == [inserted[0], inserted[1]];
  }

  /** Without holes, `Object.values` positions are the registry indices, so the as-written teardown is the by-index one. */
  lemma {:induction false} DenseTeardown(names: seq<Option<Pair>>, tags: seq<Option<Pair>>, k: nat)
    requires |names| == |tags| && k <= |names|
    requires forall j :: 0 <= j < |names| ==> names[j].Some? && tags[j].Some?
    ensures |Present(names[..k])| == k
    ensures Teardown(Present(names[..k]), tags) == Run(Removals(names[..k], tags[..k]), false)
  {
    if k > 0 {
      DenseTeardown(names, tags, k - 1);
      var n, t := names[k - 1], tags[k - 1];
      assert n.Some? && t.Some?;
      var prev := Present(names[..k - 1]);
      PresentNext(names, k - 1);
      assert Present(names[..k]) == prev + [n.value];
      RemovalsNext(names, tags, k - 1);
      TeardownSnoc(prev, n.value, tags);
    }
  }

  /** One more index adds the removals of the name and tag pairs found there, if both are present. */
  lemma RemovalsNext(names: seq<Option<Pair>>, tags: seq<Option<Pair>>, k: nat)
    requires |names| == |tags| && k < |names|
    ensures Removals(names[..k + 1], tags[..k + 1]) ==
      Removals(names[..k], tags[..k]) +
      match (names[k], tags[k])
      case (Some(n), Some(t)) => [Remove(t.forward, n.forward), Remove(t.reverse, n.reverse)]
      case _ => []
  {
    assert names[..k + 1][..k] == names[..k];
    assert tags[..k + 1][..k] == tags[..k];
  }

  /** One more name pair extends a pass that has not thrown by the removals through its tag entry. */
  lemma TeardownSnoc(values: seq<Pair>, x: Pair, tags: seq<Option<Pair>>)
    ensures Teardown(values + [x], tags) ==
      var prev := Teardown(values, tags);
      if prev.thrown then prev
      else match Lookup(tags, |values|)
        case None => Run(prev.calls, true)
        case Some(tag) => Run(prev.calls + [Remove(tag.forward, x.forward), Remove(tag.reverse, x.reverse)], false)
  {
    assert (values + [x])[..|values|] == values;
  }

  /** `Object.values` of the name registry has one entry per keyframed step. */
  lemma {:induction false} PresentRegistry(steps: seq<Step>, base: nat)
    ensures |Present(Registry(steps, base))| == Count(steps)
  {
    if steps != [] {
      var s, x := steps[..|steps| - 1], steps[|steps| - 1];
      assert steps == s + [x];
      PresentRegistry(s, base);
      RegistryAt(s, base);
      if IsKeyframed(x) {
        var names := Registry(s, base);
        var k := |s| - |names|;
        var v := Pair(base + 2 * Count(s), base + 2 * Count(s) + 1);
        var grown := names + Holes(k) + [Some(v)];
        AssignPastEnd(names, |s|, v);
        assert grown[..|grown| - 1] == names + Holes(k);
        PresentHoles(names, k);
      }
    }
  }

  /** If the keyframed steps are not a prefix, some step among the first `Count` is not keyframed. */
  lemma GapBeforeCount(steps: seq<Step>)
    requires !KeyframedPrefix(steps)
    ensures exists j :: 0 <= j < Count(steps) && !IsKeyframed(steps[j])
  {
    var c := Count(steps);
    if forall j :: 0 <= j < c ==> IsKeyframed(steps[j]) {
      CountFull(steps, c);
      assert steps[..|steps|] == steps;
      forall i, j | 0 <= i < j < |steps| && IsKeyframed(steps[j])
        ensures IsKeyframed(steps[i])
      {
        if j >= c {
          CountMono(steps, c, j);
          CountMono(steps, j, |steps|);
        }
      }
      assert false;
    }
  }

  /** A registry with no hole below its end belongs to steps whose keyframed ones form a prefix. */
  lemma PrefixDense(steps: seq<Step>, base: nat)
    requires KeyframedPrefix(steps)
    ensures forall j :: 0 <= j < |Registry(steps, base)| ==> Registry(steps, base)[j].Some?
  {
    RegistryAt(steps, base);
  }

  /**
   * Teardown as written, over the registries initialisation built: it throws exactly when the
   * keyframed steps are not a prefix; when they are, it issues exactly one removal per insertion.
   */
  lemma TeardownAsWritten(steps: seq<Step>, nameBase: nat, tagBase: nat)
    ensures Teardown(Present(Registry(steps, nameBase)), Registry(steps, tagBase)).thrown <==> !KeyframedPrefix(steps)
    ensures KeyframedPrefix(steps) ==>
      Teardown(Present(Registry(steps, nameBase)), Registry(steps, tagBase)).calls == Matching(MountCalls(steps, nameBase, tagBase))
  {
    if KeyframedPrefix(steps) {
      TeardownPrefix(steps, nameBase, tagBase);
    } else {
      TeardownGap(steps, nameBase, tagBase);
    }
  }

  lemma TeardownPrefix(steps: seq<Step>, nameBase: nat, tagBase: nat)
    requires KeyframedPrefix(steps)
    ensures Teardown(Present(Registry(steps, nameBase)), Registry(steps, tagBase)) == Run(Matching(MountCalls(steps, nameBase, tagBase)), false)
  {
    var names, tags := Registry(steps, nameBase), Registry(steps, tagBase);
    PrefixDense(steps, nameBase);
    PrefixDense(steps, tagBase);
    IntendedTeardownMatches(steps, nameBase, tagBase);
    DenseTeardown(names, tags, |names|);
    assert names[..|names|] == names && tags[..|tags|] == tags;
  }

  lemma TeardownGap(steps: seq<Step>, nameBase: nat, tagBase: nat)
    requires !KeyframedPrefix(steps)
    ensures Teardown(Present(Registry(steps, nameBase)), Registry(steps, tagBase)).thrown
  {
    var names, tags := Registry(steps, nameBase), Registry(steps, tagBase);
    GapBeforeCount(steps);
    var j :| 0 <= j < Count(steps) && !IsKeyframed(steps[j]);
    RegistryDomain(steps, tagBase);
    assert Lookup(tags, j).None?;
    PresentRegistry(steps, nameBase);
    TeardownThrows(Present(names), tags);
  }

  /** The index of the first step without keyframes, or the number of steps when every step has them. */
  function Leading(steps: seq<Step>): nat
  {
    if steps == [] then 0
    else
      var s := steps[..|steps| - 1];
      if Leading(s) < |s| then Leading(s)
      else if IsKeyframed(steps[|steps| - 1]) then |steps| else |s|
  }

  /** The steps before `Leading` are keyframed and the step at `Leading`, if any, is not. */
  lemma {:induction false} LeadingShape(steps: seq<Step>)
    ensures Leading(steps) <= |steps|
    ensures forall j :: 0 <= j < Leading(steps) ==> IsKeyframed(steps[j])
    ensures Leading(steps) < |steps| ==> !IsKeyframed(steps[Leading(steps)])
  {
    if steps != [] {
      var s := steps[..|steps| - 1];
      LeadingShape(s);
      assert forall j :: 0 <= j < |s| ==> s[j] == steps[j];
    }
  }

  /** Over keyframed first steps, initialising only them builds the first entries of the whole registry. */
  lemma RegistryPrefix(steps: seq<Step>, k: nat, base: nat)
    requires k <= |steps|
    requires forall j :: 0 <= j < k ==> IsKeyframed(steps[j])
    ensures k <= |Registry(steps, base)|
    ensures Registry(steps[..k], base) == Registry(steps, base)[..k]
  {
    var pre := steps[..k];
    var a, b := Registry(pre, base), Registry(steps, base);
    ExtentCovers(steps, k);
    ExtentCovers(pre, k);
    RegistryAt(steps, base);
    RegistryAt(pre, base);
    forall i | 0 <= i < k
      ensures a[i] == b[i]
    {
      EntryOfPrefix(steps, k, i, base);
    }
  }

  /** With keyframed first `k` steps, the registry reaches at least index `k - 1`. */
  lemma ExtentCovers(steps: seq<Step>, k: nat)
    requires k <= |steps|
    requires forall j :: 0 <= j < k ==> IsKeyframed(steps[j])
    ensures k <= Extent(steps)
  {
    if 0 < k {
      assert IsKeyframed(steps[k - 1]);
    }
  }

  /** A step's entry does not depend on the steps after it. */
  lemma EntryOfPrefix(steps: seq<Step>, k: nat, i: nat, base: nat)
    requires i < k <= |steps|
    ensures Entry(steps[..k], i, base) == Entry(steps, i, base)
  {
    assert steps[..k][..i] == steps[..i];
  }

  /** The as-written teardown reads `styleTags` only at the positions it walks. */
  lemma {:induction false} TeardownSameTags(values: seq<Pair>, tags: seq<Option<Pair>>, other: seq<Option<Pair>>)
    requires forall j :: 0 <= j < |values| ==> Lookup(tags, j) == Lookup(other, j)
    ensures Teardown(values, tags) == Teardown(values, other)
  {
    if values != [] {
      TeardownSameTags(values[..|values| - 1], tags, other);
    }
  }

  /** Initialising the first `k` steps issues the first calls of initialising them all. */
  lemma {:induction false} MountCallsPrefix(steps: seq<Step>, k: nat, nameBase: nat, tagBase: nat)
    requires k <= |steps|
    ensures MountCalls(steps[..k], nameBase, tagBase) <= MountCalls(steps, nameBase, tagBase)
    decreases |steps|
  {
    if k == |steps| {
      assert steps[..k] == steps;
    } else {
      var s := steps[..|steps| - 1];
      assert s[..k] == steps[..k];
      MountCallsPrefix(s, k, nameBase, tagBase);
      var p, q := MountCalls(steps[..k], nameBase, tagBase), MountCalls(s, nameBase, tagBase);
      assert MountCalls(steps, nameBase, tagBase)[..|p|] == q[..|p|] == p;
    }
  }

  /** The removals matching a prefix of the calls are a prefix of the removals matching them all. */
  lemma MatchingPrefix(a: seq<SheetCall>, b: seq<SheetCall>)
    requires a <= b
    ensures Matching(a) <= Matching(b)
  {
    assert b == a + b[|a|..];
    MatchingAppend(a, b[|a|..]);
  }

  /** Over keyframed first `g` steps, the first `g` dense positions remove exactly their rule sets. */
  lemma TeardownOfLeading(steps: seq<Step>, g: nat, nameBase: nat, tagBase: nat)
    requires g <= |steps|
    requires forall j :: 0 <= j < g ==> IsKeyframed(steps[j])
    ensures g <= |Present(Registry(steps, nameBase))|
    ensures Teardown(Present(Registry(steps, nameBase))[..g], Registry(steps, tagBase)) ==
      Run(Matching(MountCalls(steps[..g], nameBase, tagBase)), false)
  {
    var tags := Registry(steps, tagBase);
    var pre := steps[..g];
    var p := Present(Registry(pre, nameBase));
    LeadingValues(steps, g, nameBase);
    assert Teardown(p, Registry(pre, tagBase)) == Run(Matching(MountCalls(pre, nameBase, tagBase)), false) by {
      assert KeyframedPrefix(pre);
      TeardownPrefix(pre, nameBase, tagBase);
    }
    assert Teardown(p, Registry(pre, tagBase)) == Teardown(p, tags) by {
      RegistryPrefix(steps, g, tagBase);
      PresentRegistry(pre, nameBase);
      CountFull(steps, g);
      TeardownSameTags(p, Registry(pre, tagBase), tags);
    }
  }

  /** Over keyframed first `g` steps, the first `g` values of the name registry are those of initialising only them. */
  lemma LeadingValues(steps: seq<Step>, g: nat, base: nat)
    requires g <= |steps|
    requires forall j :: 0 <= j < g ==> IsKeyframed(steps[j])
    ensures g <= |Present(Registry(steps, base))|
    ensures Present(Registry(steps, base))[..g] == Present(Registry(steps[..g], base))
  {
    var names := Registry(steps, base);
    RegistryPrefix(steps, g, base);
    PresentRegistry(steps[..g], base);
    CountFull(steps, g);
    PresentPrefix(names, g);
    PrefixTake(Present(names[..g]), Present(names));
  }

  /**
   * When teardown as written throws, it has first removed, in insertion order, exactly the rule
   * sets of the steps before the first step without keyframes: a prefix of the matching removals.
   */
  lemma TeardownThrownCalls(steps: seq<Step>, nameBase: nat, tagBase: nat)
    requires !KeyframedPrefix(steps)
    ensures var r := Matching(MountCalls(steps[..Leading(steps)], nameBase, tagBase));
      Teardown(Present(Registry(steps, nameBase)), Registry(steps, tagBase)) == Run(r, true) &&
      r <= Matching(MountCalls(steps, nameBase, tagBase))
  {
    var g := Leading(steps);
    var values, tags := Present(Registry(steps, nameBase)), Registry(steps, tagBase);
    var r := Matching(MountCalls(steps[..g], nameBase, tagBase));
    assert g < |values| && Lookup(tags, g).None? && Teardown(values[..g], tags) == Run(r, false) by {
      LeadingShape(steps);
      GapBeforeCount(steps);
      var gap :| 0 <= gap < Count(steps) && !IsKeyframed(steps[gap]);
      assert g <= gap;
      PresentRegistry(steps, nameBase);
      TeardownOfLeading(steps, g, nameBase, tagBase);
      RegistryDomain(steps, tagBase);
    }
    assert Teardown(values[..g + 1], tags) == Run(r, true) by {
      assert values[..g + 1] == values[..g] + [values[g]];
      TeardownSnoc(values[..g], values[g], tags);
    }
    TeardownStops(values, tags, g + 1);
    assert r <= Matching(MountCalls(steps, nameBase, tagBase)) by {
      MountCallsPrefix(steps, g, nameBase, tagBase);
      MatchingPrefix(MountCalls(steps[..g], nameBase, tagBase), MountCalls(steps, nameBase, tagBase));
    }
  }

  /** Two name pairs with no name in common. */
  predicate Disjoint(p: Pair, q: Pair) {
    p.forward != q.forward && p.forward != q.reverse && p.reverse != q.forward && p.reverse != q.reverse
  }

  /**
   * A second initialisation that draws from the counter where the first one left it shares no
   * name with the first: names are never reused across mounts on one document.
   */
  lemma RegistriesDisjoint(first: seq<Step>, second: seq<Step>, base: nat)
    ensures var a, b := Registry(first, base), Registry(second, base + 2 * Count(first));
      forall i, j :: 0 <= i < |a| && 0 <= j < |b| && a[i].Some? && b[j].Some? ==> Disjoint(a[i].value, b[j].value)
  {
    var next := base + 2 * Count(first);
    var a, b := Registry(first, base), Registry(second, next);
    RegistryAt(first, base);
    RegistryAt(second, next);
    forall i, j | 0 <= i < |a| && 0 <= j < |b| && a[i].Some? && b[j].Some?
      ensures Disjoint(a[i].value, b[j].value)
    {
      TokensFresh(first, base, i);
      TokensFresh(second, next, j);
    }
  }

  /** A keyframe-less first step followed by a keyframed one makes the as-written teardown throw. */
  lemma TeardownCounterexample()
    ensures var plain := Step(None, None, None, None, None, None, None, None, None, None);
      var keyframed := plain.(keyframes := Some([]));
      Teardown(Present(Registry([plain, keyframed], 0)), Registry([plain, keyframed], 0)).thrown
  {
    var plain := Step(None, None, None, None, None, None, None, None, None, None);
    var keyframed := plain.(keyframes := Some([]));
    TeardownAsWritten([plain, keyframed], 0, 0);
  }
}
