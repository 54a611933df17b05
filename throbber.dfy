/** A brightness value that ramps up to 255 and back down to a minimum. */
module Throbber {
  import opened Primitives
  import opened Wrappers
  import Utils

  datatype Direction = Up | Down

  /** The fields of a throbber, as one value. */
  datatype ThrobberState = ThrobberState(brightness: U8, direction: Direction, step: I16, min: U8, once: bool)

  /** Every constructor builds the step from a `u8`. */
  predicate ValidState(s: ThrobberState) {
    0 <= s.step <= 255
  }

  /**
    One call of `next`: the new fields and the value returned. Going up, the
    brightness rises to at most 255 and the direction turns down exactly when
    it reaches 255. Going down, it falls to no less than `min`; on reaching
    `min` a once-only throbber returns nothing (the brightness has still been
    set to `min`), any other turns up again. Only a once-only throbber ever
    returns nothing.
   */
  function Step(s: ThrobberState): (r: (ThrobberState, Option<U8>))
    requires ValidState(s)
    ensures ValidState(r.0)
    ensures r.0.step == s.step && r.0.min == s.min && r.0.once == s.once
    ensures r.1.Some? ==> r.1.value == r.0.brightness
    ensures !s.once ==> r.1.Some?
    ensures s.direction == Up ==> r.0.brightness == Utils.Clip(s.brightness + s.step)
    ensures s.direction == Down ==> r.0.brightness == Utils.ClipMin(s.brightness - s.step, s.min)
    ensures s.direction == Up ==>
              && s.brightness <= r.0.brightness
              && r.1.Some?
              && (r.0.direction == Down <==> r.0.brightness == 255)
    ensures s.direction == Down ==>
              && s.min <= r.0.brightness
              && (r.0.brightness <= s.brightness || r.0.brightness == s.min)
              && (r.1.None? <==> s.once && r.0.brightness == s.min)
              && (r.1.Some? ==> (r.0.direction == Up <==> r.0.brightness == s.min))
  {
    match s.direction
    case Up =>
      var b := Utils.Clip(s.brightness + s.step);
      Utils.ClipCases(s.brightness + s.step);
      var s' := s.(brightness := b, direction := if b == 255 then Down else Up);
      (s', Some(b))
    case Down =>
      var b := Utils.ClipMin(s.brightness - s.step, s.min);
      Utils.ClipMinCases(s.brightness - s.step, s.min);
      if b <= s.min then
        if s.once then
          (s.(brightness := b), None)
        else
          (s.(brightness := b, direction := Up), Some(b))
      else
        (s.(brightness := b), Some(b))
  }

  /** The state after `k` calls of `next` that each returned a value. */
  function Run(s: ThrobberState, k: nat): (r: ThrobberState)
    requires ValidState(s)
    ensures ValidState(r)
    decreases k
  {
    if k == 0 || Step(s).1.None? then s else Run(Step(s).0, k - 1)
  }

  /** A throbber that is not once-only keeps running for ever. */
  lemma {:induction false} NeverEndsUnlessOnce(s: ThrobberState, k: nat)
    requires ValidState(s) && !s.once
    ensures !Run(s, k).once && Step(Run(s, k)).1.Some?
    decreases k
  {
    if k > 0 {
      NeverEndsUnlessOnce(Step(s).0, k - 1);
    }
  }

  /** The state `new_once` builds: brightness 0, going up, minimum 0, and (despite its name) not once-only. */
  function NewOnceState(step: U8): (s: ThrobberState)
    ensures ValidState(s) && !s.once
  {
    ThrobberState(0, Up, step, 0, false)
  }

  class Throbber {
    var brightness: U8
    var direction: Direction
    var step: I16
    var min: U8
    var once: bool

    ghost predicate Valid()
      reads this
    {
      ValidState(State())
    }

    function State(): ThrobberState
      reads this
    {
      ThrobberState(brightness, direction, step, min, once)
    }

    /** `Throbber::new`. */
    constructor (brightness: U8, direction: Direction, step: U8, min: U8, once: bool)
      ensures Valid()
      ensures State() == ThrobberState(brightness, direction, step, min, once)
    {
      this.brightness := brightness;
      this.direction := direction;
      this.step := step;
      this.min := min;
      this.once := once;
    }

    /** `Throbber::new_once`. */
    constructor NewOnce(step: U8)
      ensures Valid()
      ensures State() == NewOnceState(step)
    {
      brightness := 0;
      direction := Up;
      this.step := step;
      min := 0;
      once := false;
    }

    /** `Iterator::next`: advance one step and return the new brightness, if any. */
    method Next() returns (r: Option<U8>)
      requires Valid()
      modifies this
      ensures Valid()
      ensures (State(), r) == Step(old(State()))
    {
      match direction {
        case Up =>
          brightness := Utils.Clip(brightness + step);
          if brightness == 255 {
            direction := Down;
          }
        case Down =>
          brightness := Utils.ClipMin(brightness - step, min);
          if brightness <= min {
            if once {
              return None;
            }
            direction := Up;
          }
      }
      r := Some(brightness);
    }
  }
}
