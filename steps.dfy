/**
 * The data model of an animation group: the caller's steps, with the defaults the hook applies
 * when it destructures them, and the per-step style values the hook produces.
 */
module Steps {
  import opened Wrappers

  /** A CSS style object, property name to value. */
  type Style = map<string, string>

  /** An animation name produced by the fresh-name generator. */
  type Token = nat

  /** A `<style>` element holding one inserted keyframes rule set. */
  type Tag = nat

  const DefaultDuration: real := 0.3
  const DefaultEaseType: string := "linear"
  const DefaultDirection: string := "normal"
  const DefaultFillMode: string := "none"
  const DefaultIterationCount: string := "1"

  /** The property a static step's transition is written to; it overrides a same-named property of the base style. */
  const TransitionProperty: string := "transition"

  /** One element of `sequences`; every field may be left undefined by the caller. */
  datatype Step = Step(
    start: Option<Style>,
    end: Option<Style>,
    keyframes: Option<seq<Style>>,
    duration: Option<real>,
    delay: Option<real>,
    overlay: Option<real>,
    iterationCount: Option<string>,
    easeType: Option<string>,
    direction: Option<string>,
    fillMode: Option<string>)

  /** The step carries a keyframe list (`Array.isArray(keyframes)`, and equally `keyframes` is truthy). */
  predicate IsKeyframed(s: Step) {
    s.keyframes.Some?
  }

  function Duration(s: Step): real { s.duration.GetOr(DefaultDuration) }
  function Delay(s: Step): real { s.delay.GetOr(0.0) }
  function Overlay(s: Step): real { s.overlay.GetOr(0.0) }
  function IterationCount(s: Step): string { s.iterationCount.GetOr(DefaultIterationCount) }
  function EaseType(s: Step): string { s.easeType.GetOr(DefaultEaseType) }
  function Direction(s: Step): string { s.direction.GetOr(DefaultDirection) }
  function FillMode(s: Step): string { s.fillMode.GetOr(DefaultFillMode) }
  function Start(s: Step): Style { s.start.GetOr(map[]) }
  function End(s: Step): Style { s.end.GetOr(map[]) }

  /** `calculateTotalDuration({duration, delay, overlay})`: how far a step moves the running total. */
  function Span(s: Step): real {
    Duration(s) + Delay(s) - Overlay(s)
  }

  /** The `transition` value `all <duration>s <easeType> <delay>s`. */
  datatype Transition = Transition(duration: real, easeType: string, delay: real)

  /** The `animation` shorthand of a keyframed step; its play state is always `running`. */
  datatype Animation = Animation(
    duration: real,
    easeType: string,
    delay: real,
    iterationCount: string,
    direction: string,
    fillMode: string,
    name: Token)

  /** One entry of the `styles` array. */
  datatype StepStyle =
    | Initial(start: Option<Style>)                       // before any play: the step's `start` as declared
    | Animated(animation: Animation)                      // `{ animation }`
    | Transitioned(style: Style, transition: Transition)  // `{ ...end, transition }` or `{ ...start, transition }`

  /** `{ ...style, transition }` keeps every property of `style` except a `transition` of its own. */
  function WithoutTransition(style: Style): (r: Style)
    ensures TransitionProperty !in r
    ensures forall p :: p in style && p != TransitionProperty ==> p in r && r[p] == style[p]
    ensures forall p :: p in r ==> p in style
  {
    style - {TransitionProperty}
  }
}
