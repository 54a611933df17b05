# SoulStar badge firmware: LED patterns and presence tracking, in Dafny

This project models the real-time core of the SoulStar badge firmware and proves properties of the model. The badge listens for the beacons of nearby peer badges ("souls") and keeps the last presence message of each one in a bounded tracker. It drives a 24-LED ring with generated light patterns, and manual control messages can override the ring (stop, start, off, on, torch, brightness). A second string pulses a heartbeat on its first LED.

The modules follow the source files:

- `Utils` and `Colour` (pure): saturating `clip` / `clip_min` of an i16 into a byte range; `set_brightness`, which scales a pixel by `c * b / 255` per channel; `adjust_brightness_for_rssi`.
- `Throbber` (imperative): a class with the fields of `Throbber`, its two constructors, and `next` as a method. The method is specified by the pure function `Step` over the same fields.
- `Animations` (mixed): the closed sum `Animation = Sparkle | Presence`. The interruption policy and the dispatcher are pure functions. The sparkle's per-pixel loop, the presence animation's counter loop and its in-place `rotate_right` are methods over arrays, proved equal to the pure specification functions. Properties are proved about those functions.
- `Tracker` (imperative): a class whose `souls` map has capacity `S`. `Update` has the three outcomes of the bounded map's `insert`. `Flush` keeps only entries seen within the last 60 seconds.
- `DisplayTask` (imperative): a class holding `running`, `brightness`, the current animation, the pending queue and the tracker. It has one method per branch of the task's three-way wait: the animation tick, a control message, the flush tick. Each write to the LED string goes into a ghost `log`.
- `HeartbeatTask` (imperative): the task's loop as a method with a `while` loop. It returns the values written to pixel 0.
- `Primitives`, `Configuration`, `LedDriver`, `Wrappers`: fixed-width integers, RGB8 and time; the constants `LED_STRING_SIZE = 24` and `MAX_SOULS_TRACKED = 16`; the frames that `all_off` and `torch` hand to the LED sink; `Option`.

Modelling choices:

- Time is an explicit `now: Instant` parameter, in milliseconds since boot.
- A sparkle frame's randomness is an explicit `draws` parameter: 24 bytes, each at most 254, because `rng.u8(0..255)` excludes 255.
- Animations are values, as in the source, where they are `Clone` and are queued. Their `next` returns the new animation instead of updating it through `&mut self`.
- Rust integer widths are subset types (`U8`, `I8`, `I16`, `U32`). The casts and the wrap-around are written out: `AsU8`, `WrapI16`, and `TruncDiv` for Rust's truncating `/`. So every `ensures` over them also proves that nothing overflows (for example the i16 sums in `Throbber.Step`, and the 16-bit product in `set_brightness`).

Where the system's design description and the code disagree, the model follows the code:

- The design says an animation tick replaces an interruptable current animation as soon as something is pending. The code only dequeues when the current animation is exhausted (src/display_task.rs:72-82).
- The design says a new arrival or an eviction enqueues animations. No code in src/display_task.rs enqueues anything, so the queue only ever shrinks: `AnimationTick` leaves it as it was or drops its head.
- src/display_task.rs:113 and :123 use `tracker.update(..)` and `tracker.flush()` as awaitable `bool`s. In src/tracker.rs:21 and :32 both return nothing. Here `Update` returns the insert outcome (`Existing`, `New`, `Full`), which `Control` ignores, and `Flush` returns nothing.
- src/display_task.rs:76, :93 and :105 call `update_from_buffer`, `all_off` and `torch` without `.await`, although src/led_driver.rs:52, :63 and :71 declare all three `async fn`. As written, each of those calls only builds a future that is dropped unpolled, so nothing reaches the LEDs. The model treats every such call as a completed write: `AnimationTick` and `Control` append it to the ghost `log`.
- The LED driver types the tasks use, `LedDriver0` (src/display_task.rs:3) and `LedDriver1` with its `buffer` field and `update_string` method (src/heartbeat_task.rs:4, 11-12, 30-31), are not defined in src/led_driver.rs. The model records display writes as `LedWrite` values, and the heartbeat as the list of colours written to pixel 0.
- src/throbber.rs:3 imports `clip` and `clip_min` from `colour`. But `clip` in src/colour.rs:20 is private, and src/colour.rs has no `clip_min`. The model's `Throbber` uses `Utils.Clip` and `Utils.ClipMin` (src/utils.rs:3-22). `Colour.Clip` is proved equal to `Utils.Clip`.
- src/display_task.rs:72-74 matches only `Animation::Sparkle`. The model dispatches through `next_buffer` (src/animations.rs:45-50), which covers both variants.
- The flush horizon is the 60 seconds hard-coded at src/tracker.rs:33. The `TRACKER_FLUSH_AGE` constant (15 s) is unused.
- Sparkle brightnesses lie in 0..=254, not 0..=255.
- `Off` writes the all-black frame at brightness 0, as `all_off` does.

`PresenceMessage`, `SoulSummary` and `VisibleSouls` are not defined in the modelled files. Their fields come from the system's data model: address key, rssi, tx power, last seen, name, colour; and colour with tx loss. Of these, only `address`, `lastSeen` and `colour` influence the model.

## Model

| member | source | states |
|---|---|---|
| `Utils.Clip` | src/utils.rs:3-11 | The result is the byte nearest to `v`, and `v` itself when `0 <= v <= 255`. |
| `Utils.ClipMin` | src/utils.rs:14-22 | The result is in `min..=255`, is the value of that range nearest to `v`, and is `v` itself when `v` lies in the range. |
| `Utils.ClipCases` | src/utils.rs:4-10 | `clip` is 0 below 0, 255 above 255, and `v` otherwise. |
| `Utils.ClipMinCases` | src/utils.rs:15-21 | `clip_min` is `min` below `min`, 255 above 255, and `v` otherwise. |
| `Utils.ClipMinZeroIsClip` | src/utils.rs:3-22 | `clip_min(v, 0) == clip(v)` for every i16 `v`. |
| `Utils.ClipMonotone` | src/utils.rs:3-11 | `clip` is monotone non-decreasing. |
| `Utils.ClipMinMonotone` | src/utils.rs:14-22 | `clip_min` is monotone non-decreasing in `v`. |
| `Utils.TestVectors` | src/utils.rs:29-42 | The eight unit-test vectors of utils.rs hold. |
| `Colour.ScaleChannel` | src/colour.rs:11-14 | A channel is `floor(c * b / 255)`, so never above `c`. The u16 product (at most 65025) and the byte cast lose nothing. |
| `Colour.SetBrightness` | src/colour.rs:4-17 | Early returns included, every channel equals the general formula `floor(c * b / 255)`, and no channel exceeds the input's. |
| `Colour.SetBrightnessZeroIsBlack` | src/colour.rs:5-7 | Brightness 0 gives black. |
| `Colour.SetBrightnessFullIsIdentity` | src/colour.rs:8-10 | Brightness 255 gives the pixel unchanged. |
| `Colour.ScaleChannelMonotone` | src/colour.rs:12-14 | A channel is monotone non-decreasing in the brightness. |
| `Colour.SetBrightnessMonotone` | src/colour.rs:12-14 | A higher brightness never gives a dimmer channel. |
| `Colour.Clip` | src/colour.rs:20-28 | The private `clip` of colour.rs equals `utils::clip` for every i16. |
| `Colour.AdjustBrightnessForRssi` | src/colour.rs:31-35 | With the arithmetic done wide enough: black when rssi <= -100 dBm or brightness is 0, and never brighter than the colour in any channel. |
| `Colour.AdjustBrightnessForRssiAsWritten` | src/colour.rs:31-35 | The i16 computation as written (wrapping). It equals the wide one whenever `b * (rssi + 100) * 3` fits in i16. |
| `Colour.RssiOverflowCounterexample` | src/colour.rs:33-34 | At brightness 255 and -40 dBm, the as-written function gives black where the wide one gives brightness 180. |
| `Throbber.Step` | src/throbber.rs:76-96 | Up: `brightness := clip(b + step)`, never lower, still Some, and the direction turns down iff the result is 255. Down: `brightness := clip_min(b - step, min)`, in `min..=255` and never above the old brightness unless it is `min`. It returns nothing iff the throbber is once-only and reached `min`; otherwise it turns up iff it reached `min`. Only once-only throbbers ever return nothing. Step, min and once never change, and the i16 sums stay in range. |
| `Throbber.NeverEndsUnlessOnce` | src/throbber.rs:86-95 | A throbber that is not once-only returns a value on every call, for ever. |
| `Throbber.NewOnceState` | src/throbber.rs:43-51 | `new_once` builds a throbber that is not once-only, despite its name. |
| `Throbber.Throbber.constructor` | src/throbber.rs:32-40 | `new` stores its arguments, with the u8 step widened to i16. |
| `Throbber.Throbber.NewOnce` | src/throbber.rs:43-51 | `new_once` starts at brightness 0, going up, with minimum 0 and `once = false`. |
| `Throbber.Throbber.Next` | src/throbber.rs:76-96 | The new fields and the result are exactly those of `Step` applied to the old fields. |
| `LedDriver.DefaultBuffer` | src/led_driver.rs:64 | `LedBuffer::default()` is 24 pixels, all black. |
| `LedDriver.AllOff` | src/led_driver.rs:63-65 | `all_off` writes 24 black pixels at brightness 0. |
| `LedDriver.Torch` | src/led_driver.rs:71-75 | `torch` writes 24 white pixels at the given brightness. |
| `Animations.NewSparkle` | src/animations.rs:121-129 | A sparkle keeps its colour, expires `ttl` after creation, and is interruptable iff it was built without a `ttl`. |
| `Animations.SparkleIsInterruptable` | src/animations.rs:106-109 | A sparkle is interruptable iff it has no expiry. An interruptable sparkle is never done. One with an expiry is done at that instant. |
| `Animations.SparkleDone` | src/animations.rs:87-91 | A sparkle is done at `now` iff it has an expiry and `now` is not before it. |
| `Animations.SparkleNextFrame` | src/animations.rs:86-103 | A sparkle yields a frame iff it has no expiry or `now` is before it. The frame has 24 pixels, none brighter in any channel than the sparkle's colour. |
| `Animations.SparkleNext` | src/animations.rs:86-103 | The per-pixel loop equals `SparkleNextFrame`: pixel `i` is `set_brightness(draws[i], colour)` with `draws[i] <= 254`. |
| `Animations.RotateRight` | src/animations.rs:158 | `rotate_right(k)` keeps the length and is a permutation: it has the same multiset of elements. |
| `Animations.RotateRightAt` | src/animations.rs:158 | After `rotate_right(k)`, position `j` holds the element `k` places before it, cyclically. |
| `Animations.RotateRightMoves` | src/animations.rs:158 | `rotate_right(k)` moves element `i` to position `(i + k) mod n`. |
| `Animations.RotateRightInPlace` | src/animations.rs:158 | Rotating the array in place leaves it equal to the rotated old contents. |
| `Animations.NewPresence` | src/animations.rs:172-177 | `new` captures the souls and starts at index 0. Its first call of `next` yields a frame iff some soul was captured. |
| `Animations.PresenceStep` | src/animations.rs:147-161 | One call of `next` keeps the souls and leaves the index below 24. It yields nothing iff there are no souls, and then the state is unchanged. Otherwise the index advances by one, cyclically. The frame has 24 pixels. Where each soul's colour lands is stated by `PresenceFrameAt`. |
| `Animations.PresenceIsInterruptable` | src/animations.rs:164-168 | A presence animation is always interruptable. |
| `Animations.PresenceNext` | src/animations.rs:147-161 | The counter loop, the in-place rotation and the index update equal `PresenceStep`. That is: nothing, with the index unchanged, when no souls were captured; otherwise the layout (soul `i` at position `i`, black after) rotated right by `index`, and `index := (index + 1) mod 24`. |
| `Animations.PresenceRunState` | src/animations.rs:147-161 | `next` never changes the captured souls. It leaves an empty animation as it is, and otherwise advances the index by one mod 24 per call. |
| `Animations.PresenceFrames` | src/animations.rs:147-177 | Started by `new`, a presence animation yields no frame iff it captured no souls. Its `k`-th frame is its first frame rotated right by `k mod 24`. |
| `Animations.PresenceFrameAt` | src/animations.rs:151-158 | In a frame at index `index`, soul `i`'s colour is at position `(i + index) mod 24`, and positions no soul reaches are black. |
| `Animations.NextFrame` | src/animations.rs:45-50 | `next_buffer` yields nothing exactly for an expired sparkle or a presence animation without souls. A sparkle's state does not change, a presence animation keeps its souls, and the variant and its interruptability are preserved. |
| `Animations.NextBuffer` | src/animations.rs:45-50 | Dispatching to the variant's `next` method equals `NextFrame`. |
| `Animations.IsInterruptable` | src/animations.rs:30-35 | An animation is interruptable iff it is not a sparkle with an expiry. |
| `Animations.InterruptablePolicy` | src/animations.rs:30-35 | Via each variant's `is_interruptable` (src/animations.rs:106-109, 164-168): a sparkle is interruptable iff built without a `ttl`, and a presence animation always is. |
| `Tracker.Insert` | src/tracker.rs:21-28 | A key already present is overwritten (`Existing`) with the size unchanged. An absent key is added while the size is below the capacity (`New`, size + 1). Otherwise the map is unchanged (`Full`). No other entry changes, the size never exceeds the capacity, and entries stay keyed by their address. |
| `Tracker.Retain` | src/tracker.rs:32-45 | Flushing at `now` keeps exactly the entries with `last_seen > now - 60 s`, unchanged, and never adds any. |
| `Tracker.RetainIdempotent` | src/tracker.rs:34-44 | A second flush at the same instant removes nothing more. |
| `Tracker.RetainLater` | src/tracker.rs:34-44 | A later flush keeps a subset of what an earlier one keeps. |
| `Tracker.RetainBeforeHorizonKeepsAll` | src/tracker.rs:33-35 | Before 60 s of uptime, a flush keeps every entry. |
| `Tracker.CheckedHorizon` | src/tracker.rs:33 | `Instant::now() - 60 s` succeeds iff `now >= 60 s`. |
| `Tracker.FlushAsWritten` | src/tracker.rs:32-45 | `flush` as written fails iff `now < 60 s`. When it does not fail, it equals `Retain`. |
| `Tracker.FirstFlushTickFails` | src/tracker.rs:33 | The first flush tick, 10 s after a task start earlier than 50 s after boot, reaches the failing subtraction. |
| `Tracker.Tracker.constructor` | src/tracker.rs:14-18 | `new` yields an empty map of capacity `S`, a power of two. |
| `Tracker.Tracker.Update` | src/tracker.rs:21-29 | The new map and the outcome are those of `Insert`, and the size bound is kept. |
| `Tracker.Tracker.Flush` | src/tracker.rs:32-45 | The new map is `Retain` of the old one at `now`. |
| `DisplayTask.Display.constructor` | src/display_task.rs:53-59 | Starts running at brightness 128, with the default animation current, an empty queue, an empty tracker of capacity 16 and no writes. |
| `DisplayTask.Display.AnimationTick` | src/display_task.rs:66-84 | Stopped: nothing changes and nothing is written. Running, with a frame: exactly one write of (frame, brightness), and the animation advances. Running, exhausted: no write, and the queue's head is dequeued, or the default is used when the queue is empty. Never changes `running` or `brightness`. |
| `DisplayTask.Display.Control` | src/display_task.rs:86-120 | Stop/Start/On only set `running`. Off writes the all-off frame and stops. Torch(true) stops and writes white at the current brightness. Torch(false) runs with no write. Brightness(b) only sets `brightness`. Presence only updates the tracker. No message touches the current animation or the queue. |
| `DisplayTask.Display.FlushTick` | src/display_task.rs:122-127 | Only the tracker changes, to `Retain` of its old map. |
| `HeartbeatTask.Step` | src/heartbeat_task.rs:17-29 | The body adds 32 going up and resets past 128. The contract states that from 0..=128 the result stays in 0..=128, that every step down from there gives `(0, up)`, and that a step up stays up iff `brightness + 32 <= 128`. |
| `HeartbeatTask.After` | src/heartbeat_task.rs:13-29 | From `(128, false)`, the brightness stays in 0..=128 after every tick, so `as u8` is lossless. |
| `HeartbeatTask.Periodic` | src/heartbeat_task.rs:15-29 | After the first tick, `(brightness, up)` repeats with period 6. |
| `HeartbeatTask.Cycle` | src/heartbeat_task.rs:15-29 | From the second tick on, the brightnesses run 32, 64, 96, 128, 0, 0 repeatedly. |
| `HeartbeatTask.WritesAt` | src/heartbeat_task.rs:11-30 | The first write to pixel 0 is the full colour. Write `k` is `set_brightness(brightness after k ticks, colour)`. |
| `HeartbeatTask.Heartbeat` | src/heartbeat_task.rs:8-33 | The loop, run for `ticks` passes, writes exactly `Writes(colour, ticks)` to pixel 0. |

## Left out

- src/presence.rs: radio advertising and scanning over the `trouble_host` stack, which is a foreign library. The modelled files contain no beacon decoding and no identity-key derivation.
- src/main.rs: boot and peripheral setup, static cells and a demo loop.
- src/led_driver.rs hardware path: gamma correction, the `smart_leds` brightness pipeline and the RMT write (lines 52-58) are library and hardware calls. A write is recorded as the (frame, brightness) pair handed over. A failed write, which panics, is not modelled.
- src/configuration.rs: only `LED_STRING_SIZE` and `MAX_SOULS_TRACKED` are used. `TxPower` is a foreign type.
- Async and concurrency: `select3`, the channel, the tickers and `.await`. Each `select3` branch is a separate method, and the events come in any order the caller chooses.
- Randomness and clocks: the `fastrand` generator, its seeding from `Instant::now()`, and `Throbber::new_random`. Time and random bytes are parameters. So a sparkle carries no generator state, and the advance of that state from frame to frame is not modelled.
- Animations are modelled as values: `next` returns the updated animation instead of mutating it in place. The object identity of the cloned default animation is not modelled.
- Tracker map order: the bounded map's insertion order and its `retain` order are not modelled, only its contents. Nothing in the modelled files reads the order.
- Summaries: tracker.rs has no `summary()` and defines no `VisibleSouls`, so the snapshot that feeds a presence animation is a parameter of `NewPresence`.
- The display queue's capacity (`Queue<Animation, 10>`): nothing enqueues, so it is never reached.
- The heartbeat's other pixels and the `update_string` transfer: the heartbeat writes only pixel 0, and `soul_config::COLOUR` is a parameter.
- Logging (`defmt`, `log`) and the placeholder test at src/throbber.rs:102-105.
- `Colour.AdjustBrightnessForRssiAsWritten`: models release-build wrap-around. A debug build would panic on the same inputs instead.
- `Tracker.Tracker.Flush`: models the corrected horizon (see Findings). The panic of the as-written subtraction is modelled only in `Tracker.FlushAsWritten`.
- `DisplayTask.Display.FlushTick`: inherits the corrected horizon from `Tracker.Tracker.Flush`. So it does not fail on a flush tick before 60 s of uptime, as the code as written would.

## Findings

| source | as written | input that shows it | evidently intended | confidence | as-written member | corrected member |
|---|---|---|---|---|---|---|
| src/colour.rs:33 | `brightness * (rssi + 100) * 3` is computed in i16 and overflows once it exceeds 32767. That happens for ordinary signal strengths. | brightness 255, rssi -40 dBm: 45900 wraps to -19636, so the colour is scaled by 0 (black) | scale by `clip(45900 / 255) = 180`, with the product computed in a wider type | medium, not executed | `Colour.AdjustBrightnessForRssiAsWritten`, `Colour.RssiOverflowCounterexample` | `Colour.AdjustBrightnessForRssi` |
| src/tracker.rs:33 | `Instant::now() - Duration::from_secs(60)` cannot go below the epoch. The display task's flush ticker first fires 10 s after the task starts, long before 60 s of uptime. | the first flush tick, at `now = 10 s` | before 60 s of uptime, flush nothing instead of failing | medium, not executed (depends on the time library failing on an underflowing subtraction) | `Tracker.FlushAsWritten`, `Tracker.FirstFlushTickFails` | `Tracker.Retain`, `Tracker.RetainBeforeHorizonKeepsAll` |
