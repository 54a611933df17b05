/**
  The animation engine: a closed set of two frame producers, Sparkle and
  Presence, each yielding frames of LED_STRING_SIZE pixels until it is
  exhausted, and each saying whether it may be interrupted.
 */
module Animations {
  import opened Primitives
  import opened Wrappers
  import opened Configuration
  import Colour
  import LedDriver
  import Tracker

  /** Flickers one colour until `expires`, if it has an expiry at all. */
  datatype SparkleAnimation = SparkleAnimation(colour: RGB8, expires: Option<Instant>)

  /** Shows the captured souls' colours, rotating by `index` each frame. */
  datatype PresenceAnimation = PresenceAnimation(souls: Tracker.VisibleSouls, index: nat)

  datatype Animation = Sparkle(sparkle: SparkleAnimation) | Presence(presence: PresenceAnimation)

  /**
    A presence animation that can run: its souls fit into the frame (the
    capacity of `VisibleSouls`, MAX_SOULS_TRACKED, does) and its index is a
    position of the frame.
   */
  predicate WellFormed(a: Animation) {
    a.Presence? ==> |a.presence.souls| <= LED_STRING_SIZE && a.presence.index < LED_STRING_SIZE
  }

  /** The random brightnesses one sparkle frame draws: one `rng.u8(0..255)` per pixel, so each is at most 254. */
  predicate ValidDraws(draws: seq<U8>) {
    |draws| == LED_STRING_SIZE && forall i :: 0 <= i < |draws| ==> draws[i] < 255
  }

  // ---------------------------------------------------------------- Sparkle

  /**
    `SparkleAnimation::new` at time `now`: with a time to live it expires
    `ttl` after `now` and cannot be interrupted; without one it never
    expires and can be.
   */
  function NewSparkle(colour: RGB8, ttl: Option<Duration>, now: Instant): (s: SparkleAnimation)
    ensures s.colour == colour
    ensures SparkleIsInterruptable(s) <==> ttl.None?
    ensures ttl.Some? ==> s.expires == Some(now + ttl.value)
  {
    SparkleAnimation(colour, if ttl.Some? then Some(now + ttl.value) else None)
  }

  /**
    `SparkleAnimation::is_interruptable`: a sparkle without an expiry may be
    interrupted; such a sparkle never finishes, and one with an expiry
    finishes at that instant.
   */
  predicate SparkleIsInterruptable(s: SparkleAnimation)
    ensures SparkleIsInterruptable(s) ==> forall now :: !SparkleDone(s, now)
    ensures !SparkleIsInterruptable(s) ==> SparkleDone(s, s.expires.value)
  {
    s.expires.None?
  }

  /** Whether the sparkle is done at `now`: the match at the top of its `next`. */
  predicate SparkleDone(s: SparkleAnimation, now: Instant)
    ensures SparkleDone(s, now) <==> s.expires.Some? && s.expires.value <= now
  {
    match s.expires
    case Some(exp) => !(now < exp)
    case None => false
  }

  /** The frame in which pixel `i` is the colour scaled by the `i`-th draw. */
  function SparkleFrame(colour: RGB8, draws: seq<U8>): (f: seq<RGB8>)
    requires ValidDraws(draws)
    ensures |f| == LED_STRING_SIZE
  {
    seq(LED_STRING_SIZE, i requires 0 <= i < LED_STRING_SIZE => Colour.SetBrightness(draws[i], colour))
  }

  /**
    The frame the sparkle yields at `now`: a frame exactly while it has no
    expiry or `now` is before it, and no pixel of that frame brighter in any
    channel than the sparkle's colour.
   */
  function SparkleNextFrame(s: SparkleAnimation, now: Instant, draws: seq<U8>): (r: Option<seq<RGB8>>)
    requires ValidDraws(draws)
    ensures r.Some? <==> s.expires.None? || now < s.expires.value
    ensures r.Some? ==> |r.value| == LED_STRING_SIZE
    ensures r.Some? ==> forall i :: 0 <= i < |r.value| ==> Colour.Dimmer(r.value[i], s.colour)
  {
    if SparkleDone(s, now) then None else Some(SparkleFrame(s.colour, draws))
  }

  /** `SparkleAnimation::next`: fill a fresh buffer pixel by pixel. */
  method SparkleNext(s: SparkleAnimation, now: Instant, draws: seq<U8>) returns (frame: Option<seq<RGB8>>)
    requires ValidDraws(draws)
    ensures frame == SparkleNextFrame(s, now, draws)
  {
    var done := match s.expires
      case Some(exp) => !(now < exp)
      case None => false;
    if !done {
      var buffer := new RGB8[LED_STRING_SIZE](_ => BLACK);
      var i := 0;
      while i < buffer.Length
        invariant 0 <= i <= buffer.Length
        invariant forall j :: 0 <= j < i ==> buffer[j] == Colour.SetBrightness(draws[j], s.colour)
      {
        buffer[i] := Colour.SetBrightness(draws[i], s.colour);
        i := i + 1;
      }
      assert buffer[..] == SparkleFrame(s.colour, draws);
      frame := Some(buffer[..]);
    } else {
      frame := None;
    }
  }

  // --------------------------------------------------------------- Presence

  /** `PresenceAnimation::new`: capture the souls and start at index 0. */
  function NewPresence(souls: Tracker.VisibleSouls): (p: PresenceAnimation)
    ensures p.souls == souls && p.index == 0
    ensures |souls| <= LED_STRING_SIZE ==> PresenceStep(p).1.Some? <==> |souls| > 0
  {
    PresenceAnimation(souls, 0)
  }

  /** The unrotated frame: soul `i`'s colour at position `i`, black after the last soul. */
  function PresenceLayout(souls: Tracker.VisibleSouls): (f: seq<RGB8>)
    requires |souls| <= LED_STRING_SIZE
    ensures |f| == LED_STRING_SIZE
  {
    seq(LED_STRING_SIZE, i requires 0 <= i < LED_STRING_SIZE => if i < |souls| then souls[i].colour else BLACK)
  }

  /** `rotate_right(k)` of a slice: the last `k` elements move to the front. */
  function RotateRight<T>(s: seq<T>, k: nat): (r: seq<T>)
    requires k <= |s|
    ensures |r| == |s|
    ensures multiset(r) == multiset(s)
  {
    assert s == s[..|s| - k] + s[|s| - k..];
    s[|s| - k..] + s[..|s| - k]
  }

  /** The position that element `i` of a sequence of length `n` moves to under `rotate_right(k)`. */
  function RotatedPosition(i: nat, k: nat, n: nat): (j: nat)
    requires i < n && k <= n
    ensures j < n
  {
    if i + k < n then i + k else i + k - n
  }

  /** After `rotate_right(k)`, position `j` holds the element that was `k` places before it, cyclically. */
  lemma RotateRightAt<T>(s: seq<T>, k: nat, j: nat)
    requires k <= |s| && j < |s|
    ensures RotateRight(s, k)[j] == s[if j < k then j + |s| - k else j - k]
  {
  }

  /** Element `i` moves `k` places to the right, wrapping around the end. */
  lemma RotateRightMoves<T>(s: seq<T>, k: nat, i: nat)
    requires k <= |s| && i < |s|
    ensures RotateRight(s, k)[RotatedPosition(i, k, |s|)] == s[i]
  {
  }

  lemma RotateRightZero<T>(s: seq<T>)
    ensures RotateRight(s, 0) == s
  {
  }

  /**
    One call of `PresenceAnimation::next`: nothing, and the same state, when no
    souls were captured; otherwise the layout rotated right by the index, with
    the index advanced by one modulo the frame length.
   */
  function PresenceStep(p: PresenceAnimation): (r: (PresenceAnimation, Option<seq<RGB8>>))
    requires |p.souls| <= LED_STRING_SIZE && p.index < LED_STRING_SIZE
    ensures r.0.souls == p.souls && r.0.index < LED_STRING_SIZE
    ensures r.1.None? <==> |p.souls| == 0
    ensures r.1.None? ==> r.0 == p
    ensures r.1.Some? ==> r.0.index == RotatedPosition(p.index, 1, LED_STRING_SIZE)
    ensures r.1.Some? ==> |r.1.value| == LED_STRING_SIZE
  {
    if |p.souls| == 0 then
      (p, None)
    else
      (p.(index := (p.index + 1) % LED_STRING_SIZE), Some(RotateRight(PresenceLayout(p.souls), p.index)))
  }

  /** `rotate_right` of an array, in place. */
  method RotateRightInPlace<T>(a: array<T>, k: nat)
    requires k <= a.Length
    modifies a
    ensures a[..] == RotateRight(old(a[..]), k)
  {
    var n := a.Length;
    var source := a[..];
    ghost var rotated := RotateRight(source, k);
    var j := 0;
    while j < n
      invariant 0 <= j <= n
      invariant forall m :: 0 <= m < j ==> a[m] == rotated[m]
    {
      RotateRightAt(source, k, j);
      a[j] := source[if j < k then j + n - k else j - k];
      j := j + 1;
    }
    assert a[..] == rotated;
  }

  /** `PresenceAnimation::next`: lay the colours out with a counter, rotate in place, advance the index. */
  method PresenceNext(p: PresenceAnimation) returns (next: PresenceAnimation, frame: Option<seq<RGB8>>)
    requires |p.souls| <= LED_STRING_SIZE && p.index < LED_STRING_SIZE
    ensures (next, frame) == PresenceStep(p)
  {
    if |p.souls| == 0 {
      return p, None;
    }
    var buffer := new RGB8[LED_STRING_SIZE](_ => BLACK);
    var idx := 0;
    while idx < |p.souls|
      invariant 0 <= idx <= |p.souls|
      invariant forall m :: 0 <= m < buffer.Length ==> buffer[m] == if m < idx then p.souls[m].colour else BLACK
    {
      buffer[idx] := p.souls[idx].colour;
      idx := idx + 1;
    }
    assert buffer[..] == PresenceLayout(p.souls);
    RotateRightInPlace(buffer, p.index);
    next := p.(index := (p.index + 1) % buffer.Length);
    frame := Some(buffer[..]);
  }

  /** The presence animation after `k` calls of `next`. */
  function PresenceRun(p: PresenceAnimation, k: nat): (r: PresenceAnimation)
    requires |p.souls| <= LED_STRING_SIZE && p.index < LED_STRING_SIZE
    ensures |r.souls| <= LED_STRING_SIZE && r.index < LED_STRING_SIZE
    decreases k
  {
    if k == 0 then p else PresenceRun(PresenceStep(p).0, k - 1)
  }

  /** Advancing the index once and then `k - 1` more times is advancing it `k` times. */
  lemma IndexAdvance(i: nat, k: nat)
    requires i < LED_STRING_SIZE && k > 0
    ensures (RotatedPosition(i, 1, LED_STRING_SIZE) + (k - 1)) % LED_STRING_SIZE == (i + k) % LED_STRING_SIZE
  {
    if i + 1 == 24 {
      assert (i + k) % 24 == (k - 1) % 24;
    }
  }

  /**
    `next` never changes the captured souls, leaves an empty animation as it
    is, and otherwise advances the index by one modulo the frame length per call.
   */
  lemma {:induction false} PresenceRunState(p: PresenceAnimation, k: nat)
    requires |p.souls| <= LED_STRING_SIZE && p.index < LED_STRING_SIZE
    ensures PresenceRun(p, k).souls == p.souls
    ensures |p.souls| == 0 ==> PresenceRun(p, k) == p
    ensures |p.souls| > 0 ==> PresenceRun(p, k).index == (p.index + k) % LED_STRING_SIZE
    decreases k
  {
    if k > 0 {
      var p' := PresenceStep(p).0;
      PresenceRunState(p', k - 1);
      if |p.souls| > 0 {
        IndexAdvance(p.index, k);
      }
    }
  }

  /**
    A presence animation yields no frame exactly when it captured no souls.
    Started by `new`, the frame of its call number `k` (counting from 0) is its
    first frame rotated right by `k` modulo the frame length.
   */
  lemma PresenceFrames(souls: Tracker.VisibleSouls, k: nat)
    requires |souls| <= MAX_SOULS_TRACKED
    ensures PresenceStep(PresenceRun(NewPresence(souls), k)).1.None? <==> |souls| == 0
    ensures |souls| > 0 ==>
              var first := PresenceStep(NewPresence(souls)).1.value;
              PresenceStep(PresenceRun(NewPresence(souls), k)).1 == Some(RotateRight(first, k % LED_STRING_SIZE))
  {
    var p0 := NewPresence(souls);
    var pk := PresenceRun(p0, k);
    PresenceRunState(p0, k);
    if |souls| > 0 {
      RotateRightZero(PresenceLayout(souls));
      assert PresenceStep(p0).1.value == PresenceLayout(souls);
      assert pk.souls == souls && pk.index == k % LED_STRING_SIZE;
    }
  }

  /**
    Where soul `i` appears: in a frame of a presence animation at index `index`,
    soul `i`'s colour stands at position (i + index) mod the frame length, and
    every position not reached by a soul is black.
   */
  lemma PresenceFrameAt(p: PresenceAnimation, i: nat)
    requires 0 < |p.souls| <= LED_STRING_SIZE && p.index < LED_STRING_SIZE && i < LED_STRING_SIZE
    ensures PresenceStep(p).1.Some?
    ensures PresenceStep(p).1.value[(i + p.index) % LED_STRING_SIZE] ==
              if i < |p.souls| then p.souls[i].colour else BLACK
  {
  }

  /** `PresenceAnimation::is_interruptable`: always, whatever the souls and the index. */
  predicate PresenceIsInterruptable(p: PresenceAnimation)
    ensures PresenceIsInterruptable(p)
  {
    true
  }

  // --------------------------------------------------------------- Dispatch

  /** `is_interruptable`: each variant answers for itself. */
  predicate IsInterruptable(a: Animation)
    ensures IsInterruptable(a) <==> !(a.Sparkle? && a.sparkle.expires.Some?)
  {
    match a
    case Sparkle(s) => SparkleIsInterruptable(s)
    case Presence(p) => PresenceIsInterruptable(p)
  }

  /**
    `next_buffer`: the variant's own `next`, with the animation's new state.
    Only a sparkle that has expired and a presence animation without souls
    yield nothing; a sparkle's state does not change.
   */
  function NextFrame(a: Animation, now: Instant, draws: seq<U8>): (r: (Animation, Option<seq<RGB8>>))
    requires WellFormed(a) && ValidDraws(draws)
    ensures WellFormed(r.0)
    ensures r.0.Sparkle? == a.Sparkle? && IsInterruptable(r.0) == IsInterruptable(a)
    ensures r.1.None? <==> (a.Sparkle? && SparkleDone(a.sparkle, now)) || (a.Presence? && |a.presence.souls| == 0)
    ensures r.1.Some? ==> |r.1.value| == LED_STRING_SIZE
    ensures a.Sparkle? ==> r.0 == a
    ensures a.Presence? ==> r.0.presence.souls == a.presence.souls
  {
    match a
    case Sparkle(s) => (a, SparkleNextFrame(s, now, draws))
    case Presence(p) =>
      var (p', frame) := PresenceStep(p);
      (Presence(p'), frame)
  }

  /** `next_buffer` over the two variants' methods. */
  method NextBuffer(a: Animation, now: Instant, draws: seq<U8>) returns (next: Animation, frame: Option<seq<RGB8>>)
    requires WellFormed(a) && ValidDraws(draws)
    ensures (next, frame) == NextFrame(a, now, draws)
  {
    match a {
      case Sparkle(s) =>
        frame := SparkleNext(s, now, draws);
        next := a;
      case Presence(p) =>
        var p';
        p', frame := PresenceNext(p);
        next := Presence(p');
    }
  }

  /** A sparkle may be interrupted exactly when it was built without a time to live; a presence animation always may. */
  lemma InterruptablePolicy(colour: RGB8, ttl: Option<Duration>, now: Instant, souls: Tracker.VisibleSouls)
    ensures IsInterruptable(Sparkle(NewSparkle(colour, ttl, now))) <==> ttl.None?
    ensures IsInterruptable(Presence(NewPresence(souls)))
  {
  }
}
