/**
  The heartbeat task: pulse the first LED of the second string with the
  soul's configured colour, stepping a signed brightness up by 32 and
  resetting it each tick.
 */
module HeartbeatTask {
  import opened Primitives
  import Colour

  /** The loop's two variables: the i16 `brightness` and the flag `up`. */
  datatype Beat = Beat(brightness: I16, up: bool)

  /** The values before the first tick. */
  const START: Beat := Beat(128, false)

  /**
    One pass of the loop body. Going up, the brightness rises by 32 and wraps
    to 0, turning down, once it passes 128; going down, it falls by 32 and,
    below 128, resets to 0 and turns up. From any brightness in 0..=128 the
    result stays in 0..=128, and every step down yields 0.
   */
  function Step(s: Beat): (r: Beat)
    ensures 0 <= s.brightness <= 128 ==> 0 <= r.brightness <= 128
    ensures 0 <= s.brightness <= 128 && !s.up ==> r == Beat(0, true)
    ensures s.up ==> (r.up <==> s.brightness + 32 <= 128)
  {
    if s.up then
      if s.brightness + 32 > 128 then Beat(0, false) else Beat(s.brightness + 32, true)
    else
      if s.brightness - 32 < 128 then Beat(0, true) else Beat(s.brightness - 32, false)
  }

  /** The loop variables after `k` ticks; the brightness never leaves 0..=128, so `as u8` loses nothing. */
  function After(k: nat): (r: Beat)
    ensures 0 <= r.brightness <= 128
  {
    if k == 0 then START else Step(After(k - 1))
  }

  /** After the first tick the loop variables repeat with period 6. */
  lemma {:induction false} Periodic(k: nat)
    requires k >= 1
    ensures After(k + 6) == After(k)
  {
    if k == 1 {
      assert After(1) == Beat(0, true);
      assert After(2) == Beat(32, true);
      assert After(3) == Beat(64, true);
      assert After(4) == Beat(96, true);
      assert After(5) == Beat(128, true);
      assert After(6) == Beat(0, false);
      assert After(7) == Beat(0, true);
    } else {
      Periodic(k - 1);
      assert After(k + 6) == Step(After(k + 5));
    }
  }

  /** From the second tick on, the brightnesses run 32, 64, 96, 128, 0, 0 over and over. */
  lemma {:induction false} Cycle(k: nat)
    requires k >= 2
    ensures After(k).brightness == [32, 64, 96, 128, 0, 0][(k - 2) % 6]
    decreases k
  {
    if k < 8 {
      assert After(1) == Beat(0, true);
      assert After(2) == Beat(32, true);
      assert After(3) == Beat(64, true);
      assert After(4) == Beat(96, true);
      assert After(5) == Beat(128, true);
      assert After(6) == Beat(0, false);
      assert After(7) == Beat(0, true);
    } else {
      Periodic(k - 6);
      Cycle(k - 6);
      assert (k - 2) % 6 == (k - 8) % 6;
    }
  }

  /**
    What the task writes to pixel 0 in its first `ticks` passes: the full
    colour first, then the colour scaled by the brightness after each tick.
   */
  function Writes(colour: RGB8, ticks: nat): (w: seq<RGB8>)
    ensures |w| == ticks + 1
  {
    if ticks == 0 then [colour] else Writes(colour, ticks - 1) + [Colour.SetBrightness(After(ticks).brightness, colour)]
  }

  /** The first write is the full colour, and write `k` is the colour scaled by the brightness after `k` ticks. */
  lemma {:induction false} WritesAt(colour: RGB8, ticks: nat, k: nat)
    requires k <= ticks
    ensures Writes(colour, ticks)[k] == if k == 0 then colour else Colour.SetBrightness(After(k).brightness, colour)
    decreases ticks
  {
    if k < ticks {
      WritesAt(colour, ticks - 1, k);
    }
  }

  /** The loop of the heartbeat task, run for `ticks` passes; returns what it wrote to pixel 0, in order. */
  method Heartbeat(colour: RGB8, ticks: nat) returns (pixels: seq<RGB8>)
    ensures pixels == Writes(colour, ticks)
  {
    pixels := [colour];
    var brightness: I16 := 128;
    var up := false;
    var t := 0;
    while t < ticks
      invariant 0 <= t <= ticks
      invariant Beat(brightness, up) == After(t)
      invariant pixels == Writes(colour, t)
    {
      if up {
        brightness := brightness + 32;
        if brightness > 128 {
          brightness := 0;
          up := false;
        }
      } else {
        brightness := brightness - 32;
        if brightness < 128 {
          brightness := 0;
          up := true;
        }
      }
      pixels := pixels + [Colour.SetBrightness(AsU8(brightness), colour)];
      t := t + 1;
    }
  }
}
