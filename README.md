# useAnimateGroup, modelled in Dafny

A model of `useAnimateGroup`, the React hook in react-simple-animate that plays a group of
animation steps one after another, forward or in reverse. The hook has four parts:

- **Normalizer.** The initial `styles` hold one slot per step, and slot `i` is step `i`'s `start`.
- **Identity registry.** The mount effect runs once. For each step whose `keyframes` is an array,
  it draws a fresh forward animation name and inserts a rule set built from the keyframes. It then
  draws a fresh reverse name and inserts a rule set built from the keyframes reversed. The names
  and the `<style>` tags are kept in two sparse arrays indexed by step. The cleanup removes these
  rule sets again.
- **Timing planner.** Inside `play`, each step waits for the running total of
  `duration + delay - overlay` over the steps before it. The first step waits only its own `delay`.
- **Playback controller.** `play(isPlay)` maps the steps, reversed when playing backwards, to a
  CSS `animation` (keyframed steps) or to their `end`/`start` style plus a `transition` (other steps).
  It then stores the styles and the direction.

Module layout:

- `Wrappers`: an `Option` type.
- `Arrays`: the JavaScript array operations the hook uses. Sparse arrays are `seq<Option<T>>`. A
  write past the end grows the array and leaves holes. `Object.values` drops the holes.
- `Steps`: the step record with its optional fields and their defaults, and the style values.
- `Timing`: running totals and delay offsets.
- `Normalizer`: the initial styles.
- `Dom`: a `Document` class standing for the name generator and the stylesheet. It hands out name
  and tag numbers from counters and records every insertion and removal in a ghost log.
- `Identities`: the registry that initialisation builds, the calls it issues, and both teardowns:
  the one written and the one intended.
- `Playback`: a pass over the steps (a loop carrying the running total), and the outcome of
  `play` in both directions.
- `Hook`: the class `AnimateGroup`, whose fields are the hook's state and refs. It has the methods
  `Mount`, `Play` and `Unmount`, and a `Lifecycle` method that renders, mounts and unmounts one
  component.

A JavaScript `TypeError` is modelled as an explicit outcome: `None` from a pass, `thrown` from a
method. It is raised by reading `.forward` or `.reverse` of a missing registry entry.

## Model

| member | source | states |
|---|---|---|
| Arrays.Range | src/useAnimateGroup.ts:27 | the index array has length n and holds i at position i |
| Arrays.Assign | src/useAnimateGroup.ts:45-47 | writing entry i makes it present and leaves every other index as it read before, so writing past the end grows the array to i + 1 with holes in the gap |
| Arrays.PresentDense | src/useAnimateGroup.ts:69 | on an array without holes, `Object.values` lists the entries at their own indices |
| Arrays.PresentHoles | src/useAnimateGroup.ts:69 | trailing holes add nothing to `Object.values` |
| Steps.WithoutTransition | src/useAnimateGroup.ts:108-111 | the step's own `transition` key is dropped, because the generated one overrides it; every other key is kept |
| Normalizer.NormalizeShape | src/useAnimateGroup.ts:27-29 | the initial styles have one slot per step, and slot i is step i's own `start` (possibly absent) |
| Normalizer.StartsAtIndex | src/useAnimateGroup.ts:27-29 | mapping an index list to starts keeps length and order |
| Timing.SecondOffset | src/useAnimateGroup.ts:95-98 | the second step's offset is the first step's duration + delay - overlay |
| Timing.NextOffset | src/useAnimateGroup.ts:95-98 | from one later step to the next, the offset grows by exactly the earlier step's span |
| Timing.OffsetIsPrefixTotal | src/useAnimateGroup.ts:95-98 | a later step's offset is the total span of all steps before it, split at any point |
| Timing.TotalAppend | src/useAnimateGroup.ts:97-98 | the running total of a concatenation is the sum of the totals |
| Timing.LaterDelayShiftsFollowing | src/useAnimateGroup.ts:95-98 | changing a later step's delay leaves its own offset alone and shifts the next offset and the final total by the change |
| Timing.WorkedExamples | src/useAnimateGroup.ts:77-98 | durations 1 and 2 give offsets 0 and 1 and a total of 3; duration 2 with overlay 0.5 starts the next step at 1.5 |
| Timing.TotalReverse | src/useAnimateGroup.ts:77-98 | the running total is the same in both playback directions |
| Timing.ReverseOffset | src/useAnimateGroup.ts:78-98 | in the reverse pass, step i sits at position n-1-i and waits for the total of the steps declared after it (the last step waits its own delay) |
| Timing.ReversePrefix | src/useAnimateGroup.ts:81 | the first positions of the reversed order are the last steps of the declared order, reversed |
| Identities.RegistryAt | src/useAnimateGroup.ts:40-48 | the registry reaches exactly one past the last keyframed step, and below that, index i holds step i's entry |
| Identities.RegistryDomain | src/useAnimateGroup.ts:40-48 | an entry is present at index i exactly when step i has keyframes; the registry is empty exactly when no step has |
| Identities.RegistryLength | src/useAnimateGroup.ts:45-47 | the registry never reaches past the last step |
| Identities.TokensFresh | src/useAnimateGroup.ts:50-57 | each step's names are drawn after the counter's value at mount, inside the block handed out at mount, and the reverse name comes right after the forward one |
| Identities.TokensDistinct | src/useAnimateGroup.ts:50-57 | no two names of the registry coincide |
| Identities.MountCallsShape | src/useAnimateGroup.ts:50-62 | initialisation issues two insertions per keyframed step and none for other steps: the forward keyframes under the forward name, then the reversed keyframes under the reverse name |
| Identities.CountNext | src/useAnimateGroup.ts:40-43 | one more step is counted exactly when it has keyframes |
| Identities.PlainStep | src/useAnimateGroup.ts:41-43 | a step without keyframes changes neither registry, nor the counters, nor the calls |
| Identities.KeyframedStep | src/useAnimateGroup.ts:45-62 | a keyframed step writes one name pair and one tag pair at its own index and appends its two insertions |
| Identities.PresentRegistry | src/useAnimateGroup.ts:69 | `Object.values` of the name registry has exactly one pair per keyframed step |
| Identities.TeardownThrows | src/useAnimateGroup.ts:69-71 | the cleanup as written throws exactly when some dense position has no tag entry at that same index |
| Identities.TeardownStops | src/useAnimateGroup.ts:69-71 | once the cleanup throws, the later pairs have no effect |
| Identities.DenseTeardown | src/useAnimateGroup.ts:69-71 | without holes, the cleanup as written removes exactly what the by-index walk removes |
| Identities.TeardownAsWritten | src/useAnimateGroup.ts:65-72 | the cleanup throws exactly when a step without keyframes precedes a keyframed one; otherwise it removes every inserted rule set exactly once, in insertion order |
| Identities.IntendedTeardownMatches | src/useAnimateGroup.ts:65-72 | walking both registries by index and skipping holes removes every inserted rule set exactly once, in insertion order, for every sequence of steps |
| Identities.TeardownCounterexample | src/useAnimateGroup.ts:69-71 | a plain step followed by a keyframed one makes the cleanup as written throw |
| Identities.TeardownThrownCalls | src/useAnimateGroup.ts:69-71 | when the cleanup as written throws, it has removed exactly the rule sets of the steps before the first plain step, in insertion order, which is a prefix of the matching removals |
| Identities.TeardownOfLeading | src/useAnimateGroup.ts:69-71 | over keyframed first steps, the cleanup's first dense positions remove exactly those steps' rule sets |
| Identities.LeadingShape | src/useAnimateGroup.ts:41-43 | every step before the first plain step is keyframed, and the step at that index is not |
| Identities.RegistriesDisjoint | src/useAnimateGroup.ts:50-57 | a second registry numbered from where the first left the counter shares no name with the first |
| Playback.Mapped | src/useAnimateGroup.ts:81-113 | a completed pass has one style per step |
| Playback.MapSteps | src/useAnimateGroup.ts:77-113 | the loop that carries the running total yields, at every position, the style built from that step's offset and its registry entry, or `None` when a keyframed step's entry is missing |
| Playback.PlayOutcome | src/useAnimateGroup.ts:78-115 | a play that completes yields one style per step |
| Playback.LookupRegistry | src/useAnimateGroup.ts:104-105 | reading the registry at index i gives step i's own entry |
| Playback.ForwardPlay | src/useAnimateGroup.ts:78-111 | forward play never throws; a plain step gets its `end` style with a transition delayed by its offset, and a keyframed step gets an animation with its offset and its forward name |
| Playback.ReversePlay | src/useAnimateGroup.ts:78-115 | reverse play as written completes exactly when no step has keyframes or the last step has, and then it equals the intended reverse play |
| Playback.ReverseThrows | src/useAnimateGroup.ts:80-105 | with a keyframed step and a plain last step, the first keyframed step reads a missing entry |
| Playback.ReverseWithoutKeyframes | src/useAnimateGroup.ts:80-111 | without keyframed steps, the registry is never read and reverse play completes |
| Playback.IntendedReversePlay | src/useAnimateGroup.ts:78-115 | reverse play with the registry aligned to the steps never throws; output slot i is built from step i: its `start` style or its reverse name, with the reverse pass's offset |
| Playback.IntendedReverseAt | src/useAnimateGroup.ts:78-115 | reversing, mapping and reversing back puts step i's own rendering at slot i |
| Playback.ReverseCounterexample | src/useAnimateGroup.ts:80-105 | a keyframed step followed by a plain one makes reverse play as written throw |
| Dom.Document.CreateRandomName | src/useAnimateGroup.ts:50-57 | returns the name counter and advances it by one |
| Dom.Document.CreateTag | src/useAnimateGroup.ts:51-62 | returns a fresh tag and logs the insertion of the given keyframes under the given name |
| Dom.Document.DeleteRules | src/useAnimateGroup.ts:70-71 | logs the removal of the name's rule set from the tag's sheet |
| Hook.AnimateGroup.constructor | src/useAnimateGroup.ts:26-37 | styles are the normalised starts, nothing is playing, and both registries are empty |
| Hook.AnimateGroup.Mount | src/useAnimateGroup.ts:39-74 | on the first call, both registries become the ones initialisation builds, and the counters advance by two per keyframed step; the log grows by exactly the insertions; a later call changes nothing |
| Hook.AnimateGroup.RegisterStep | src/useAnimateGroup.ts:40-62 | one iteration of the mount loop takes the registries, counters and log from those of the first i steps to those of the first i + 1 steps |
| Hook.AnimateGroup.Play | src/useAnimateGroup.ts:76-117 | throws exactly when the pass reads a missing entry, and then changes nothing; otherwise styles become the play outcome (one per step) and `isPlaying` becomes the requested direction |
| Hook.AnimateGroup.Unmount | src/useAnimateGroup.ts:65-72 | issues exactly the removals of the cleanup as written, and throws when it does |
| Hook.Lifecycle | src/useAnimateGroup.ts:26-74 | mount then unmount throws exactly when a plain step precedes a keyframed one. Otherwise the log gains the insertions followed by exactly one matching removal each. When it throws, the log gains the insertions followed by the removals of the steps before the first plain step, a prefix of the matching removals. Either way both counters advance by two per keyframed step, and the instance keeps the registries the mount built |
| Hook.SharedDocument | src/useAnimateGroup.ts:50-57 | two components mounted and unmounted in turn on one document share no animation name |

## Left out

- React scheduling is left out: `useState`, `useRef`, `useEffect` and `useCallback`, and re-renders. The state setters take effect at once. The effects run when the caller calls `Mount` and `Unmount`.
- `play` captures `sequences` from the first render. The model keeps the sequences fixed for the instance's life, so later prop changes are not modelled (the source ignores them too).
- `src/utils/createRandomName.ts` is not part of this model. Names are numbers drawn from a counter, which models "fresh and distinct" but not randomness.
- `src/logic/createTag.ts` and `src/logic/deleteRules.ts` are not part of this model. The DOM is a tag counter plus a ghost log of insertions and removals, and tags are numbers instead of elements with a `.sheet`.
- `src/utils/calculateTotalDuration.ts` and `src/utils/createArrayWithNumbers.ts` are not part of this model. They are modelled as `duration + delay - overlay` with an absent overlay counting as 0 (`Steps.Span`), and as `Arrays.Range`.
- `src/constants.ts` is not part of this model. The defaults are taken as duration 0.3, ease "linear", direction "normal" and fill mode "none", and no property depends on these values.
- CSS text is left out. The `transition` and `animation` strings are structured values (`Transition`, `Animation`) with the same fields in the same order. The fixed `all` and `running` words are implicit.
- Floating point is left out. Durations and delays are `real`, so totals are exact rather than IEEE sums.
- `keyframes.reverse()` reverses the caller's array in place (line 60). The model inserts a reversed copy and leaves the step unchanged, so the mutation's effect on a later mount of the same objects is not modelled.
- The model distinguishes `Array.isArray(keyframes)` only as present versus absent. A truthy non-array `keyframes` (skipped at mount, but taken as keyframed by `play`) is not modelled.
- An empty keyframe array counts as keyframed: `Array.isArray([])` holds, so `keyframes: []` takes both insertions at mount and an `animation` at play (`Steps.IsKeyframed`).
- The `?.sheet` no-op at teardown is never reached in the model. Initialisation always sets both tags of an entry, and the missing-entry case throws instead (see Findings).
- `Hook.AnimateGroup.Unmount` returns the exception as a flag. The removals issued before the throw stay in the log.
- The registry-entry guard `if (!animationNamesRef.current[i])` (line 45) is always taken, because the effect runs once on empty arrays. The model writes each entry fresh.

## Findings

| source | as written | input that shows it | evidently intended | confidence | as-written member | corrected member |
|---|---|---|---|---|---|---|
| src/useAnimateGroup.ts:80 | the reverse pass reverses a copy of the name registry at the registry's own length, which is one past the last keyframed step | steps `[keyframed, plain]`, then `play(false)`: position 1 of the reverse pass is step 0, which reads index 1 of a one-entry array, gets `undefined`, and throws reading `.reverse` | reverse the registry at the number of steps, so that step i reads its own entry | not executed | Playback.ReversePlay, Playback.ReverseCounterexample | Playback.IntendedReversePlay |
| src/useAnimateGroup.ts:69-71 | the cleanup numbers the name pairs by their dense `Object.values` positions but reads `styleTags` at those positions, which is sparse | steps `[plain, keyframed]`, mounted then unmounted: position 0 reads `styleTags[0]`, which is `undefined`, and throws reading `.forward` | walk both registries by the same index and skip holes | not executed | Identities.TeardownAsWritten, Identities.TeardownThrownCalls, Identities.TeardownCounterexample | Identities.IntendedTeardownMatches |

The class `Hook.AnimateGroup` follows the code as written. Each corrected definition is proved for
every sequence of steps. Where the as-written code completes, `Playback.ReversePlay` and
`Identities.TeardownAsWritten` prove that it agrees with the corrected definition: reverse play
when the last step is keyframed or no step is, and teardown when the keyframed steps come first.
