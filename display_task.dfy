/**
  The display orchestrator: the state the display task keeps across its event
  loop, with one method per branch of the three-way wait — the animation
  ticker, a control message, the flush ticker. Writes to the LED string are
  recorded in the ghost `log`, in order.
 */
module DisplayTask {
  import opened Primitives
  import opened Wrappers
  import opened Configuration
  import Animations
  import Tracker
  import LedDriver

  /** The control messages the display task receives. */
  datatype DisplayState =
    | Stop
    | Start
    | Off
    | On
    | Torch(on: bool)
    | Brightness(level: U8)
    | Presence(message: Tracker.PresenceMessage)

  /** The brightness the task starts with. */
  const INITIAL_BRIGHTNESS: U8 := 128

  predicate AllWellFormed(queue: seq<Animations.Animation>) {
    forall i :: 0 <= i < |queue| ==> Animations.WellFormed(queue[i])
  }

  class Display {
    var running: bool
    var brightness: U8
    var current: Animations.Animation
    /** The pending animations, head first. */
    var queue: seq<Animations.Animation>
    /** The animation that takes over when the current one ends and nothing is pending. */
    const defaultAnimation: Animations.Animation
    const tracker: Tracker.Tracker
    /** Every write handed to the LED string, oldest first. */
    ghost var log: seq<LedDriver.LedWrite>

    ghost predicate Valid()
      reads this, tracker
    {
      && tracker.Valid()
      && tracker.capacity == MAX_SOULS_TRACKED
      && Animations.WellFormed(defaultAnimation)
      && Animations.WellFormed(current)
      && AllWellFormed(queue)
    }

    /** The state before the loop starts: running at brightness 128, showing (a copy of) the default, nothing pending, no peers. */
    constructor (defaultAnimation: Animations.Animation)
      requires Animations.WellFormed(defaultAnimation)
      ensures Valid() && fresh(tracker)
      ensures running && brightness == INITIAL_BRIGHTNESS
      ensures current == defaultAnimation && this.defaultAnimation == defaultAnimation
      ensures queue == [] && tracker.souls == map[] && log == []
    {
      this.defaultAnimation := defaultAnimation;
      assert Tracker.IsPowerOfTwo(2) && Tracker.IsPowerOfTwo(4) && Tracker.IsPowerOfTwo(8);
      tracker := new Tracker.Tracker(MAX_SOULS_TRACKED);
      running := true;
      brightness := INITIAL_BRIGHTNESS;
      current := defaultAnimation;
      queue := [];
      log := [];
    }

    /**
      The animation ticker fired. Stopped: nothing happens. Running: if the
      current animation yields a frame, exactly that frame is written at the
      current brightness and the animation keeps its advanced state; if it is
      exhausted, nothing is written and the head of the queue (or, with an
      empty queue, the default) becomes current.
     */
    method AnimationTick(now: Instant, draws: seq<U8>)
      requires Valid() && Animations.ValidDraws(draws)
      modifies this
      ensures Valid()
      ensures running == old(running) && brightness == old(brightness)
      ensures !old(running) ==> current == old(current) && queue == old(queue) && log == old(log)
      ensures old(running) ==>
                var (next, frame) := Animations.NextFrame(old(current), now, draws);
                match frame
                case Some(f) =>
                  current == next && queue == old(queue) && log == old(log) + [LedDriver.LedWrite(f, brightness)]
                case None =>
                  && log == old(log)
                  && (old(queue) == [] ==> current == defaultAnimation && queue == [])
                  && (old(queue) != [] ==> current == old(queue)[0] && queue == old(queue)[1..])
    {
      if running {
        var next, buffer := Animations.NextBuffer(current, now, draws);
        current := next;
        if buffer.Some? {
          log := log + [LedDriver.LedWrite(buffer.value, brightness)];
        } else {
          if |queue| > 0 {
            current := queue[0];
            queue := queue[1..];
          } else {
            current := defaultAnimation;
          }
        }
      }
    }

    /**
      A control message arrived. Stop and Start, On, Brightness and a torch
      switched off only set their flag or level; Off writes the all-off frame
      and stops; a torch switched on stops and writes an all-white frame at the
      current brightness; a presence message goes to the tracker. No message
      touches the current animation or the queue.
     */
    method Control(message: DisplayState)
      requires Valid()
      modifies this, tracker
      ensures Valid()
      ensures current == old(current) && queue == old(queue)
      ensures message.Brightness? ==> brightness == message.level
      ensures !message.Brightness? ==> brightness == old(brightness)
      ensures !message.Presence? ==> tracker.souls == old(tracker.souls)
      ensures match message
        case Stop => !running && log == old(log)
        case Start => running && log == old(log)
        case Off => !running && log == old(log) + [LedDriver.AllOff()]
        case On => running && log == old(log)
        case Torch(on) =>
          && running == !on
          && log == old(log) + (if on then [LedDriver.Torch(brightness)] else [])
        case Brightness(_) => running == old(running) && log == old(log)
        case Presence(m) =>
          && running == old(running) && log == old(log)
          && tracker.souls == Tracker.Insert(old(tracker.souls), MAX_SOULS_TRACKED, m).souls
    {
      match message {
        case Stop =>
          running := false;
        case Start =>
          running := true;
        case Off =>
          log := log + [LedDriver.AllOff()];
          running := false;
        case On =>
          running := true;
        case Brightness(b) =>
          brightness := b;
        case Torch(on) =>
          if on {
            running := false;
            log := log + [LedDriver.Torch(brightness)];
          } else {
            running := true;
          }
        case Presence(m) =>
          var _ := tracker.Update(m);
      }
    }

    /** The flush ticker fired: the tracker drops its stale entries and nothing else changes. */
    method FlushTick(now: Instant)
      requires Valid()
      modifies tracker
      ensures Valid()
      ensures tracker.souls == Tracker.Retain(old(tracker.souls), now)
    {
      tracker.Flush(now);
    }
  }
}
