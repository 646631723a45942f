# LED ring animation engine

A Dafny model of the animation engine of voice-strip (`src/visual.py`): a ring
of 50 addressable pixels that is repainted on every frame with one of four
patterns (Solid, Rainbow, Breath, Loop), a frame counter that advances once
per frame, and a FIFO command queue through which other threads switch the
pattern and its palette.

- `animation.dfy`, module `Animation`: the values (`Color`, `AnimationType`,
  `Command`), the default palette, and the colour each pattern gives a pixel
  on a given frame. Loop is the index and weight arithmetic of `animate_loop`
  (`k = 60`), proved to stay between the two palette entries it blends, to
  show a palette entry exactly on every 60th frame, to repeat every
  `60 * len` frames, and to match an independent "segment" description
  (`frames / 60` picks the entry, `frames % 60` the weight). Breath is the
  first palette colour scaled by a brightness level in [0, 1]. For Rainbow
  the hue arithmetic (`K = 120`, `index / 50`, modulo 1) is modelled and the
  HSV-to-RGB conversion is a parameter.
- `engine.dfy`, module `Engine`: class `Visual` with the fields of the
  Python class: `pixels` (an array of colours), `animationType`,
  `animationColors`, `animationFrames` and the queue `q`. Each `animate_*`
  method paints the array in a loop. Each one is proved to give every pixel
  the colour its pattern function computes, or to raise the Python exception
  the source raises on an empty palette and leave the ring alone.
  `DrainCommands` is proved against `Drain`, a left fold of the queue into
  the pattern state, with "last command wins" as a lemma. `Tick` is one
  iteration of `run`'s loop. `Run` is the reset followed by the loop over a
  finite script of ticks. It is proved that the frame counter equals the
  number of frames drawn, that the loop stops at the first closed window, and
  that the final pattern is every command drained so far, in order; a
  closed window leaves that step's commands queued.

Behaviour of the source that the model keeps:

- An empty palette under Solid or Breath raises `IndexError` (`[0]`,
  src/visual.py:66 and 81). Under Loop it raises `ZeroDivisionError` (the
  modulo by `60 * 0`, src/visual.py:89). Nothing in `run` catches these, so
  the exception leaves `run` and the render loop ends. `Tick` returns
  `Crashed(fault)` for this case and `Run` stops there.
- The queue is drained with `while not q.empty()` by its only consumer. That
  is a correct "drain until empty", and the model treats it as one.
- Rainbow uses `K = 120` and `i / TOTAL_PIXELS`, as in the code.

## Model

| member | source | states |
|---|---|---|
| `Animation.CurrentIndex` | src/visual.py:87-90 | the index of the colour being faded out, `(frames mod 60*len) div 60`, is a valid palette index |
| `Animation.NextIndex` | src/visual.py:91 | the colour faded in is the next palette entry, wrapping from the last entry to the first, and is a valid index |
| `Animation.FadeStep` | src/visual.py:92 | the incoming colour's weight `v2` satisfies `0 <= v2 < 60`, so `v1 = 60 - v2` is in (0, 60] |
| `Animation.LoopColor` | src/visual.py:86-100 | in exact arithmetic, the Loop colour lies channel by channel between the current and the next palette entries |
| `Animation.MixChannelBetween` | src/visual.py:92-99 | in exact arithmetic, `floor((v1*a + v2*b) / 60)` with `v1 + v2 = 60` lies between `min(a, b)` and `max(a, b)` |
| `Animation.MixBetween` | src/visual.py:96-100 | in exact arithmetic, the blended colour lies between the two blended colours on all three channels |
| `Animation.MixAtZero` | src/visual.py:92-99 | with weight 0 on the incoming colour the blend is exactly the outgoing colour |
| `Animation.MixSame` | src/visual.py:92-99 | in exact arithmetic, blending a colour with itself gives that colour for every weight |
| `Animation.CyclePosition` | src/visual.py:88-89 | definition: the position `frames mod (60 * len)` inside one full cycle through the palette |
| `Animation.MixChannel` | src/visual.py:92-99 | definition: one channel of the blend, `floor(((60 - v2) * a + v2 * b) / 60)` in exact arithmetic |
| `Animation.Mix` | src/visual.py:96-100 | definition: the blend applied to the three channels of two colours |
| `Animation.BreathColor` | src/visual.py:79-81 | definition: each channel of a colour times the brightness level, rounded down |
| `Animation.Raises` | src/visual.py:64-102 | definition: rendering raises exactly when the kind is not Rainbow and the palette is empty |
| `Animation.PixelColor` | src/visual.py:138-145 | definition: the colour of one pixel under the pattern the type selects |
| `Engine.FaultFor` | src/visual.py:64-102 | definition: Loop raises `ZeroDivisionError` on an empty palette, Solid and Breath `IndexError` |
| `Engine.Drain` | src/visual.py:131-134 | definition: the pattern state after applying the pending commands head first, each replacing type and colours |
| `Engine.Sent` | src/visual.py:104-105 | definition: the commands the first `n` steps of a script submit, in order |
| `Animation.LoopBySegment` | src/visual.py:87-99 | the current index is `(frames div 60) mod len` and the weight is `frames mod 60`, so the Loop colour is the blend of entry `(frames div 60) mod len` and its successor |
| `Animation.LoopAtSegmentStart` | src/visual.py:89-99 | when `frames` is a multiple of 60 (frame 0 included) the Loop colour is exactly `colors[(frames div 60) mod len]` |
| `Animation.LoopPeriodic` | src/visual.py:88-91 | the Loop colour repeats with period `60 * len(colors)` |
| `Animation.LoopSingleColor` | src/visual.py:88-99 | in exact arithmetic, a one-colour palette shows that colour on every frame |
| `Animation.LoopInRange` | src/visual.py:92-100 | when every palette channel is in [0, 255], so is every Loop channel |
| `Animation.LoopDefaultFirstFrame` | src/visual.py:86-117 | frame 0 with the default palette red, green, blue is (255, 0, 0) |
| `Animation.LoopMidFadeExample` | src/visual.py:92-99 | halfway (frame 30) from red to green the colour is (127, 127, 0) |
| `Animation.BreathChannelBounds` | src/visual.py:79-81 | `floor(val * V)` lies in [0, val] for `val >= 0` and `V` in [0, 1] |
| `Animation.BreathDims` | src/visual.py:77-82 | Breath keeps each channel of an 8-bit base colour between 0 and the base value |
| `Animation.BreathExtremes` | src/visual.py:79-81 | brightness 1 gives the base colour and brightness 0 gives black |
| `Animation.BreathHalfWhite` | src/visual.py:78-81 | at brightness 1/2 (frame 0, where `sin` is 0) white breathes at (127, 127, 127) |
| `Animation.RainbowHue` | src/visual.py:69-74 | the hue `(index/50 + (frames mod 120)/120) mod 1` lies in [0, 1) |
| `Animation.RainbowHuePeriodic` | src/visual.py:69-72 | the Rainbow hue of each pixel repeats every 120 frames |
| `Animation.RainbowHueExamples` | src/visual.py:69-74 | pixel 0 has hue 0 on frame 0 and hue 1/2 on frame 60 |
| `Animation.PixelColorInRange` | src/visual.py:138-145 | every pattern yields 8-bit colours from an 8-bit palette (Rainbow when its conversion does), and Solid, Breath and Loop give all pixels the same colour |
| `Engine.DrainLastWins` | src/visual.py:131-134 | after draining a non-empty queue the type and colours are those of the last command enqueued |
| `Engine.DrainConcat` | src/visual.py:131-134 | draining two batches in turn is the same as draining them together in FIFO order |
| `Engine.DrainIdempotent` | src/visual.py:131-134 | draining an empty queue changes nothing, and the same command twice acts like once |
| `Engine.Visual.constructor` | src/visual.py:50-62 | a new engine has 50 white pixels, Loop over red, green and blue, frame 0 and an empty queue |
| `Engine.Visual.Reset` | src/visual.py:107-118 | `run` starts from a new ring of 50 white pixels, Loop, the default palette, frame 0 and a new empty queue |
| `Engine.Visual.AnimateSolid` | src/visual.py:64-66 | every pixel becomes `colors[0]`; on an empty palette it raises `IndexError` and leaves the pixels unchanged; the array is the same |
| `Engine.Visual.AnimateRainbow` | src/visual.py:68-75 | each pixel becomes the RGB of its Rainbow hue on the current frame |
| `Engine.Visual.AnimateBreath` | src/visual.py:77-84 | every pixel becomes `colors[0]` scaled by the brightness level; an empty palette raises `IndexError` with the pixels unchanged |
| `Engine.Visual.AnimateLoop` | src/visual.py:86-102 | every pixel becomes the Loop colour of the current frame; an empty palette raises `ZeroDivisionError` with the pixels unchanged |
| `Engine.Visual.SendCommand` | src/visual.py:104-105 | the command goes at the tail of the queue and nothing else changes |
| `Engine.Visual.SendAll` | src/visual.py:104-105 | submitting a batch of commands appends them to the queue in order and changes nothing else |
| `Engine.Visual.DrainCommands` | src/visual.py:131-134 | the queue ends empty; the pattern state is the FIFO fold of the pending commands, that is the last one if any, and unchanged if none; frames and pixels are untouched |
| `Engine.Visual.Animate` | src/visual.py:138-145 | the pattern selected by the current type is painted, or the exception for its empty palette is raised with the pixels unchanged |
| `Engine.Visual.Tick` | src/visual.py:120-152 | a closed window stops before any change; otherwise the queue is drained, the ring is painted, and the frame counter rises by exactly 1, unless painting raised, in which case the counter is unchanged |
| `Engine.Visual.Run` | src/visual.py:107-152 | after the reset, the frame counter equals the number of frames drawn; no step before the last one run closed the window; the loop ends only at the end of the script, on a closed window (the commands of that step still queued) or on a raising pattern; the pattern is the start-up pattern with every command drained so far applied in FIFO order; the ring shows the last frame drawn, or white if none was |

## Left out

- Pixel geometry (`Pixel.__init__`, src/visual.py:23-27) uses floating-point `cos`, `sin` and pi. A pixel is modelled by its colour alone, and the array never changes length.
- Drawing and timing are graphics I/O and wall-clock time: `Pixel.draw`, the display set-up, `fill`, `display.update`, `clock.tick` and `pygame.init`/`pygame.quit`. Event polling is reduced to a `quit` flag per tick.
- `hsv_to_rgb`, the `round(j * 255)` and the validation in `animate_rainbow` are float numerics inside a library. They are the parameter `hueToRgb` of `AnimateRainbow`, `Tick` and `Run`.
- The brightness `(sin(frames / 15) + 1) / 2` of `animate_breath` is the parameter `breathLevel`, a function of the frame counter with values in [0, 1]. `sin` is not computed.
- `ColorAdapter.validate_python` is a library validation. Colours are three-integer records here, so the validation always succeeds and is not modelled.
- `Animation.MixChannel` uses exact rational arithmetic for the float expression `floor(k1*c1[x] + k2*c2[x])`. In IEEE double arithmetic the source's value is one below the exact value for 20,466 of the 3,932,160 combinations of two 8-bit channels and 60 weights, never above it and never outside [0, 255]. It falls below `min(a, b)` only when `a == b`, and then often: 196 of the 256 channel values dip by one at some weight. `Animation.BreathColor` and `Animation.RainbowHue` likewise use exact reals in place of floats.
- `Animation.MixChannelBetween` holds of the exact blend. In the program it fails by one on a channel both entries share: in IEEE doubles `59/60*3 + 1/60*3` is `2.9999999999999996`, whose floor is 2, below `min(3, 3)`.
- `Animation.MixSame` holds of the exact blend. In the program blending a colour with itself can lose one on a channel: (3, 3, 3) blended with itself at weight 1 gives (2, 2, 2).
- `Animation.LoopSingleColor` holds of the exact blend. In the program a one-colour palette `[(3, 3, 3)]` shows (2, 2, 2) on frame 1, and `[(100, 100, 100)]` shows (99, 99, 99) on frames 5, 20, 40 and 55 of every 60. `LoopInRange`, `LoopAtSegmentStart` and `LoopPeriodic` hold of the float values too.
- `Animation.LoopColor` and `Animation.MixBetween` hold of the exact blend; in the program the lower bound can fail by one on a channel both entries share, as above.
- The thread safety of `queue.Queue` is about concurrency. The queue is a sequence with one owner. Commands from other threads are appended before a tick (`TickInput.sent`). A command put while a drain is running is not modelled.
- `run` loops until the window closes. `Run` follows it over a finite script of ticks.
- The module-level singleton `visual = Visual()` is not modelled.
- src/server.py is a thin tool wrapper and is not part of this model. Its `set_rainbow` calls `send_command` without the required `colors` argument, which would raise `TypeError`.
- src/main.py and server/src/main.py only start threads. bot/main.py is chat, speech and network transport. Neither is part of this model.
