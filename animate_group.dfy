/**
 * The hook itself: one instance per mounted component, holding the styles it renders, whether it
 * last played forward, and the two sparse registries its one-time initialisation fills.
 */
module Hook {
  import opened Wrappers
  import opened Arrays
  import opened Steps
  import opened Dom
  import opened Identities
  import opened Playback
  import opened Normalizer

  class AnimateGroup {
    /** `props.sequences`, as captured by the first render. */
    const sequences: seq<Step>
    /** The document the rule sets are inserted into. */
    const doc: Document
    /** The `styles` state: one entry per step. */
    var styles: seq<StepStyle>
    /** The `isPlaying` state. */
    var isPlaying: bool
    /** `animationNamesRef.current`. */
    var animationNames: seq<Option<Pair>>
    /** `styleTagRef.current`. */
    var styleTags: seq<Option<Pair>>
    /** Whether the mount effect has run. */
    var mounted: bool
    /** The name and tag counters when the mount effect ran. */
    ghost var nameBase: nat
    ghost var tagBase: nat

    ghost predicate Valid()
      reads this
    {
      |styles| == |sequences| &&
      (mounted ==> animationNames == Registry(sequences, nameBase) && styleTags == Registry(sequences, tagBase)) &&
      (!mounted ==> animationNames == [] && styleTags == [])
    }

    /** The first render: the styles start as the steps' starts, nothing plays, the registries are empty. */
    constructor (sequences: seq<Step>, doc: Document)
      ensures Valid()
      ensures this.sequences == sequences && this.doc == doc
      ensures styles == Normalize(sequences) && !isPlaying
      ensures !mounted && animationNames == [] && styleTags == []
    {
      this.sequences := sequences;
      this.doc := doc;
      styles := Normalize(sequences);
      isPlaying := false;
      animationNames := [];
      styleTags := [];
      mounted := false;
      nameBase, tagBase := 0, 0;
      new;
      NormalizeShape(sequences);
    }

    /**
     * The mount effect: for each keyframed step, in index order, a fresh forward name and a rule set
     * from its keyframes, then a fresh reverse name and a rule set from the keyframes reversed, both
     * recorded at the step's index. Its dependency list is empty, so a second call does nothing.
     */
    method Mount()
      requires Valid()
      modifies this`animationNames, this`styleTags, this`mounted, this`nameBase, this`tagBase, doc
      ensures Valid() && mounted
      ensures old(mounted) ==> unchanged(this) && unchanged(doc)
      ensures !old(mounted) ==>
        nameBase == old(doc.nextName) && tagBase == old(doc.nextTag) &&
        doc.nextName == nameBase + 2 * Count(sequences) && doc.nextTag == tagBase + 2 * Count(sequences) &&
        doc.log == old(doc.log) + MountCalls(sequences, nameBase, tagBase)
    {
      if mounted {
        return;
      }
      nameBase, tagBase := doc.nextName, doc.nextTag;
      var i := 0;
      while i < |sequences|
        invariant 0 <= i <= |sequences|
        invariant nameBase == old(doc.nextName) && tagBase == old(doc.nextTag)
        invariant animationNames == Registry(sequences[..i], nameBase)
        invariant styleTags == Registry(sequences[..i], tagBase)
        invariant doc.nextName == nameBase + 2 * Count(sequences[..i])
        invariant doc.nextTag == tagBase + 2 * Count(sequences[..i])
        invariant doc.log == old(doc.log) + MountCalls(sequences[..i], nameBase, tagBase)
      {
        RegisterStep(i, old(doc.log));
        i := i + 1;
      }
      assert sequences[..i] == sequences;
      mounted := true;
    }

    /**
     * The mount effect's callback for step `i`: nothing for a step without keyframes; otherwise a
     * fresh forward name and its rule set from the keyframes, then a fresh reverse name and its rule
     * set from the keyframes reversed, with both names and both tags recorded at index `i`. The
     * registries, the counters and the calls then are those of initialising one more step.
     */
    method RegisterStep(i: nat, ghost prior: seq<SheetCall>)
      requires i < |sequences|
      requires animationNames == Registry(sequences[..i], nameBase) && styleTags == Registry(sequences[..i], tagBase)
      requires doc.nextName == nameBase + 2 * Count(sequences[..i]) && doc.nextTag == tagBase + 2 * Count(sequences[..i])
      requires doc.log == prior + MountCalls(sequences[..i], nameBase, tagBase)
      modifies this`animationNames, this`styleTags, doc
      ensures animationNames == Registry(sequences[..i + 1], nameBase) && styleTags == Registry(sequences[..i + 1], tagBase)
      ensures doc.nextName == nameBase + 2 * Count(sequences[..i + 1]) && doc.nextTag == tagBase + 2 * Count(sequences[..i + 1])
      ensures doc.log == prior + MountCalls(sequences[..i + 1], nameBase, tagBase)
    {
      if sequences[i].keyframes.None? {
        PlainStep(sequences, i, nameBase, tagBase);
        return;
      }
      KeyframedStep(sequences, i, nameBase, tagBase, prior);
      var keyframes := sequences[i].keyframes.value;
      var forward := doc.CreateRandomName();
      var forwardTag := doc.CreateTag(forward, keyframes);
      var reverse := doc.CreateRandomName();
      var reverseTag := doc.CreateTag(reverse, Reverse(keyframes));
      animationNames := Assign(animationNames, i, Pair(forward, reverse));
      styleTags := Assign(styleTags, i, Pair(forwardTag, reverseTag));
    }

    /**
     * `play(isPlay)`: map the steps (reversed when playing backwards) to their styles against the
     * registry (reversed likewise), then store them, reversed back, and the direction. A missing
     * registry entry throws before any state is set.
     */
    method Play(isPlay: bool) returns (thrown: bool)
      requires Valid()
      modifies this`styles, this`isPlaying
      ensures Valid()
      ensures thrown <==> PlayOutcome(sequences, animationNames, isPlay).None?
      ensures !thrown ==> styles == PlayOutcome(sequences, animationNames, isPlay).value && isPlaying == isPlay
      ensures !thrown ==> |styles| == |sequences|
      ensures thrown ==> styles == old(styles) && isPlaying == old(isPlaying)
    {
      var order := if isPlay then sequences else Reverse(sequences);
      var refs := if isPlay then animationNames else Reverse(animationNames);
      var result := MapSteps(order, refs, isPlay);
      if result.None? {
        return true;
      }
      styles := if isPlay then result.value else Reverse(result.value);
      isPlaying := isPlay;
      thrown := false;
    }

    /**
     * The cleanup of the mount effect: walk the registered name pairs by their dense positions and
     * remove each pair's rule sets through the tag entry at that position; a missing one throws.
     */
    method Unmount() returns (thrown: bool)
      requires Valid() && mounted
      modifies doc`log
      ensures thrown == Teardown(Present(animationNames), styleTags).thrown
      ensures doc.log == old(doc.log) + Teardown(Present(animationNames), styleTags).calls
    {
      var values := Present(animationNames);
      var i := 0;
      while i < |values|
        invariant 0 <= i <= |values|
        invariant !Teardown(values[..i], styleTags).thrown
        invariant doc.log == old(doc.log) + Teardown(values[..i], styleTags).calls
      {
        assert values[..i + 1][..i] == values[..i];
        var tag := Lookup(styleTags, i);
        if tag.None? {
          TeardownStops(values, styleTags, i + 1);
          return true;
        }
        doc.DeleteRules(tag.value.forward, values[i].forward);
        doc.DeleteRules(tag.value.reverse, values[i].reverse);
        i := i + 1;
      }
      assert values[..i] == values;
      thrown := false;
    }
  }

  /**
   * One component's whole life on a document: render, mount, then unmount. The cleanup throws
   * exactly when a step without keyframes precedes a keyframed one. Otherwise every rule set
   * inserted at mount is removed exactly once, in insertion order; when it throws, only those of
   * the steps before the first step without keyframes are. Either way the document's counters
   * have moved past every name and tag the mount drew.
   */
  method Lifecycle(sequences: seq<Step>, doc: Document) returns (group: AnimateGroup, thrown: bool)
    modifies doc
    ensures fresh(group) && group.doc == doc && group.sequences == sequences && group.Valid() && group.mounted
    ensures group.animationNames == Registry(sequences, old(doc.nextName))
    ensures group.styleTags == Registry(sequences, old(doc.nextTag))
    ensures doc.nextName == old(doc.nextName) + 2 * Count(sequences)
    ensures doc.nextTag == old(doc.nextTag) + 2 * Count(sequences)
    ensures thrown <==> !KeyframedPrefix(sequences)
    ensures !thrown ==>
      var calls := MountCalls(sequences, old(doc.nextName), old(doc.nextTag));
      doc.log == old(doc.log) + calls + Matching(calls)
    ensures thrown ==>
      var calls := MountCalls(sequences, old(doc.nextName), old(doc.nextTag));
      var removed := Matching(MountCalls(sequences[..Leading(sequences)], old(doc.nextName), old(doc.nextTag)));
      doc.log == old(doc.log) + calls + removed && removed <= Matching(calls)
  {
    group := new AnimateGroup(sequences, doc);
    group.Mount();
    thrown := group.Unmount();
    TeardownAsWritten(sequences, group.nameBase, group.tagBase);
    if thrown {
      TeardownThrownCalls(sequences, group.nameBase, group.tagBase);
    }
  }

  /**
   * Two components mounted and unmounted one after the other on one document: the second draws
   * its names where the first left the counter, so no name of one is a name of the other.
   */
  method SharedDocument(first: seq<Step>, second: seq<Step>, doc: Document)
    returns (a: AnimateGroup, b: AnimateGroup, thrownA: bool, thrownB: bool)
    modifies doc
    ensures doc.nextName == old(doc.nextName) + 2 * (Count(first) + Count(second))
    ensures var x, y := a.animationNames, b.animationNames;
      forall i, j :: 0 <= i < |x| && 0 <= j < |y| && x[i].Some? && y[j].Some? ==> Disjoint(x[i].value, y[j].value)
  {
    ghost var base := doc.nextName;
    a, thrownA := Lifecycle(first, doc);
    assert a.animationNames == Registry(first, base);
    b, thrownB := Lifecycle(second, doc);
    assert a.animationNames == Registry(first, base);
    assert b.animationNames == Registry(second, base + 2 * Count(first));
    RegistriesDisjoint(first, second, base);
  }
}
