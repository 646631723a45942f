/** Values and per-frame colour computations of the LED-ring animation engine
    (src/visual.py): colours, pattern kinds, commands, and the colour each
    pattern gives a pixel on a given frame. */
module Animation {

  /** Number of pixels on the ring. */
  const TotalPixels: nat := 50

  /** An RGB colour as the engine stores it: a triple of Python ints. Nothing
      clamps the channels, so they are unbounded here; `InRange` says when a
      colour is a valid 8-bit colour. */
  datatype Color = Color(r: int, g: int, b: int)

  const White := Color(255, 255, 255)
  const Red := Color(255, 0, 0)
  const Green := Color(0, 255, 0)
  const Blue := Color(0, 0, 255)

  /** The palette the engine starts with. */
  const DefaultPalette: seq<Color> := [Red, Green, Blue]

  predicate InRange(c: Color) {
    0 <= c.r <= 255 && 0 <= c.g <= 255 && 0 <= c.b <= 255
  }

  predicate AllInRange(colors: seq<Color>) {
    forall k :: 0 <= k < |colors| ==> InRange(colors[k])
  }

  function Min(a: int, b: int): int { if a <= b then a else b }
  function Max(a: int, b: int): int { if a <= b then b else a }

  /** Channel by channel, `c` lies between `a` and `b` (in either order). */
  predicate Between(c: Color, a: Color, b: Color) {
    Min(a.r, b.r) <= c.r <= Max(a.r, b.r) &&
    Min(a.g, b.g) <= c.g <= Max(a.g, b.g) &&
    Min(a.b, b.b) <= c.b <= Max(a.b, b.b)
  }

  /** The four pattern kinds. */
  datatype AnimationType = Solid | Rainbow | Breath | Loop

  /** A request to switch pattern: a kind and its palette. The pair
      (animation type, animation colours) of the engine has the same shape,
      so it is also used as the engine's pattern state. */
  datatype Command = Command(kind: AnimationType, colors: seq<Color>)

  // ---------------------------------------------------------------------
  // Integer arithmetic helpers

  /** A positive multiple of a positive number is at least that number. */
  lemma MulAtLeast(d: int, k: int)
    requires 0 < d && 1 <= k
    ensures d * k >= d
  {
    assert d * k == d * (k - 1) + d;
    assert d * (k - 1) >= 0;
  }

  /** Euclidean division is determined by quotient and remainder. */
  lemma DivModUnique(x: int, d: int, q: int, r: int)
    requires 0 < d && 0 <= r < d && x == d * q + r
    ensures x / d == q && x % d == r
  {
    var q', r' := x / d, x % d;
    assert d * q' + r' == d * q + r;
    if q' < q {
      assert d * (q - q') == d * q - d * q';
      MulAtLeast(d, q - q');
      assert false;
    } else if q < q' {
      assert d * (q' - q) == d * q' - d * q;
      MulAtLeast(d, q' - q);
      assert false;
    }
  }

  // ---------------------------------------------------------------------
  // Loop: a cyclic cross-fade through the palette, one colour per 60 frames

  /** Frames spent fading from one palette entry to the next. */
  const LoopFrames: nat := 60

  /** Position of `frames` inside one full cycle through a palette of `len`
      colours. */
  function CyclePosition(frames: nat, len: nat): nat
    requires len > 0
  {
    frames % (LoopFrames * len)
  }

  /** Index of the colour being faded out. */
  function CurrentIndex(frames: nat, len: nat): (i: nat)
    requires len > 0
    ensures i < len
  {
    var m := CyclePosition(frames, len);
    DivModUnique(LoopFrames * len, LoopFrames, len, 0);
    m / LoopFrames
  }

  /** Index of the colour being faded in: the one after `i`, wrapping round. */
  function NextIndex(i: nat, len: nat): (j: nat)
    requires i < len
    ensures j < len
    ensures j == if i == len - 1 then 0 else i + 1
  {
    (i + 1) % len
  }

  /** Weight (out of 60) of the colour being faded in. */
  function FadeStep(frames: nat, len: nat): (v2: nat)
    requires len > 0
    ensures v2 < LoopFrames
  {
    CyclePosition(frames, len) % LoopFrames
  }

  /** One channel of the weighted average of `a` (weight 60 - v2) and `b`
      (weight v2), rounded down. The source computes it with floats as
      floor((v1/60)*a + (v2/60)*b); this model uses the exact rational value.
      The double result is never above it and at most one below, and it can
      fall below min(a, b) when a == b (a = b = 3 at v2 = 1 gives 2). */
  function MixChannel(a: int, b: int, v2: nat): int
    requires v2 < LoopFrames
  {
    ((LoopFrames - v2) * a + v2 * b) / LoopFrames
  }

  function Mix(c1: Color, c2: Color, v2: nat): Color
    requires v2 < LoopFrames
  {
    Color(MixChannel(c1.r, c2.r, v2), MixChannel(c1.g, c2.g, v2), MixChannel(c1.b, c2.b, v2))
  }

  /** The weighted average never leaves the interval spanned by its inputs. */
  lemma MixChannelBetween(a: int, b: int, v2: nat)
    requires v2 < LoopFrames
    ensures Min(a, b) <= MixChannel(a, b, v2) <= Max(a, b)
  {
    var v1 := LoopFrames - v2;
    var s := v1 * a + v2 * b;
    assert v1 * a == LoopFrames * a - v2 * a;
    assert v2 * b == LoopFrames * b - v1 * b;
    if a <= b {
      MulNonNegative(v2, b - a);
      MulNonNegative(v1, b - a);
      assert LoopFrames * a <= s <= LoopFrames * b;
    } else {
      MulNonNegative(v2, a - b);
      MulNonNegative(v1, a - b);
      assert LoopFrames * b <= s <= LoopFrames * a;
    }
  }

  lemma MulNonNegative(x: int, y: int)
    requires 0 <= x && 0 <= y
    ensures x * y >= 0
  {
  }

  lemma MixBetween(c1: Color, c2: Color, v2: nat)
    requires v2 < LoopFrames
    ensures Between(Mix(c1, c2, v2), c1, c2)
  {
    MixChannelBetween(c1.r, c2.r, v2);
    MixChannelBetween(c1.g, c2.g, v2);
    MixChannelBetween(c1.b, c2.b, v2);
  }

  /** With weight 0 on the incoming colour the mix is the outgoing colour. */
  lemma MixAtZero(c1: Color, c2: Color)
    ensures Mix(c1, c2, 0) == c1
  {
    DivModUnique(LoopFrames * c1.r, LoopFrames, c1.r, 0);
    DivModUnique(LoopFrames * c1.g, LoopFrames, c1.g, 0);
    DivModUnique(LoopFrames * c1.b, LoopFrames, c1.b, 0);
  }

  /** Mixing a colour with itself gives that colour, whatever the weight. */
  lemma MixSame(c: Color, v2: nat)
    requires v2 < LoopFrames
    ensures Mix(c, c, v2) == c
  {
    MixChannelBetween(c.r, c.r, v2);
    MixChannelBetween(c.g, c.g, v2);
    MixChannelBetween(c.b, c.b, v2);
  }

  /** The colour every pixel takes on frame `frames` under the Loop pattern. */
  function LoopColor(frames: nat, colors: seq<Color>): (c: Color)
    requires |colors| > 0
    ensures Between(c, colors[CurrentIndex(frames, |colors|)],
                       colors[NextIndex(CurrentIndex(frames, |colors|), |colors|)])
  {
    var len := |colors|;
    var i := CurrentIndex(frames, len);
    var j := NextIndex(i, len);
    MixBetween(colors[i], colors[j], FadeStep(frames, len));
    Mix(colors[i], colors[j], FadeStep(frames, len))
  }

  /** Reference view of Loop: frame f lies in segment f / 60; that segment
      fades from palette entry (f / 60) mod len to the next entry, and the
      incoming colour's weight is f mod 60. */
  lemma {:induction false} LoopBySegment(frames: nat, colors: seq<Color>)
    requires |colors| > 0
    ensures CurrentIndex(frames, |colors|) == (frames / LoopFrames) % |colors|
    ensures FadeStep(frames, |colors|) == frames % LoopFrames
    ensures LoopColor(frames, colors) ==
            Mix(colors[(frames / LoopFrames) % |colors|],
                colors[((frames / LoopFrames) % |colors| + 1) % |colors|],
                frames % LoopFrames)
  {
    var len := |colors|;
    var s, t := frames / LoopFrames, frames % LoopFrames;
    var w, u := s / len, s % len;
    assert LoopFrames * s == LoopFrames * len * w + LoopFrames * u;
    assert frames == (LoopFrames * len) * w + (LoopFrames * u + t);
    assert LoopFrames * u + t < LoopFrames * len;
    DivModUnique(frames, LoopFrames * len, w, LoopFrames * u + t);
    DivModUnique(LoopFrames * u + t, LoopFrames, u, t);
  }

  /** On a segment boundary (frame 0, 60, 120, ...) Loop shows a palette
      entry exactly. */
  lemma LoopAtSegmentStart(frames: nat, colors: seq<Color>)
    requires |colors| > 0 && frames % LoopFrames == 0
    ensures LoopColor(frames, colors) == colors[(frames / LoopFrames) % |colors|]
  {
    LoopBySegment(frames, colors);
    var i := (frames / LoopFrames) % |colors|;
    MixAtZero(colors[i], colors[(i + 1) % |colors|]);
  }

  /** Loop repeats itself every 60 * len frames. */
  lemma LoopPeriodic(frames: nat, colors: seq<Color>)
    requires |colors| > 0
    ensures LoopColor(frames + LoopFrames * |colors|, colors) == LoopColor(frames, colors)
  {
    var len := |colors|;
    var s, t := frames / LoopFrames, frames % LoopFrames;
    DivModUnique(frames + LoopFrames * len, LoopFrames, s + len, t);
    DivModUnique(s + len, len, s / len + 1, s % len);
    LoopBySegment(frames, colors);
    LoopBySegment(frames + LoopFrames * len, colors);
  }

  /** A one-colour palette is held statically. */
  lemma LoopSingleColor(frames: nat, c: Color)
    ensures LoopColor(frames, [c]) == c
  {
    assert CurrentIndex(frames, 1) == 0;
    MixSame(c, FadeStep(frames, 1));
  }

  /** Loop never leaves 8-bit colours when the palette is 8-bit. */
  lemma LoopInRange(frames: nat, colors: seq<Color>)
    requires |colors| > 0 && AllInRange(colors)
    ensures InRange(LoopColor(frames, colors))
  {
    var i := CurrentIndex(frames, |colors|);
    assert InRange(colors[i]) && InRange(colors[NextIndex(i, |colors|)]);
  }

  /** Frame 0 of the default palette is pure red. */
  lemma LoopDefaultFirstFrame()
    ensures LoopColor(0, DefaultPalette) == Red
  {
    LoopAtSegmentStart(0, DefaultPalette);
  }

  /** Halfway from red to green both channels are floor(255 / 2). */
  lemma LoopMidFadeExample()
    ensures LoopColor(30, [Red, Green]) == Color(127, 127, 0)
  {
    LoopBySegment(30, [Red, Green]);
  }

  // ---------------------------------------------------------------------
  // Breath: the first palette colour scaled by a brightness level

  /** Each channel scaled by `level` and rounded down. In the source the
      level is (sin(frames / 15) + 1) / 2; here it is any value in [0, 1]. */
  function BreathColor(c: Color, level: real): Color
    requires 0.0 <= level <= 1.0
  {
    Color((c.r as real * level).Floor, (c.g as real * level).Floor, (c.b as real * level).Floor)
  }

  lemma BreathChannelBounds(val: int, level: real)
    requires 0 <= val && 0.0 <= level <= 1.0
    ensures 0 <= (val as real * level).Floor <= val
  {
    ScaleBounds(val as real, level);
  }

  lemma ScaleBounds(x: real, level: real)
    requires 0.0 <= x && 0.0 <= level <= 1.0
    ensures 0.0 <= x * level <= x
  {
    assert x * (1.0 - level) >= 0.0;
  }

  /** Breath dims an 8-bit colour: each channel stays in [0, its base value]. */
  lemma BreathDims(c: Color, level: real)
    requires InRange(c) && 0.0 <= level <= 1.0
    ensures Between(BreathColor(c, level), Color(0, 0, 0), c)
    ensures InRange(BreathColor(c, level))
  {
    BreathChannelBounds(c.r, level);
    BreathChannelBounds(c.g, level);
    BreathChannelBounds(c.b, level);
  }

  /** Full brightness gives the colour, zero brightness gives black. */
  lemma BreathExtremes(c: Color)
    ensures BreathColor(c, 1.0) == c
    ensures BreathColor(c, 0.0) == Color(0, 0, 0)
  {
  }

  /** On frame 0 the level is one half, so white breathes at 127. */
  lemma BreathHalfWhite()
    ensures BreathColor(White, 0.5) == Color(127, 127, 127)
  {
    assert 255.0 * 0.5 == 127.5;
  }

  // ---------------------------------------------------------------------
  // Rainbow: a hue sweep moving once round the ring every 120 frames

  const RainbowFrames: nat := 120

  /** Hue of pixel `index` on frame `frames`: index / 50 plus the sweep
      offset (frames mod 120) / 120, taken modulo 1. Exact rational
      arithmetic stands in for the source's floats. */
  function RainbowHue(frames: nat, index: nat): (h: real)
    ensures 0.0 <= h < 1.0
  {
    var x := index as real / TotalPixels as real + (frames % RainbowFrames) as real / RainbowFrames as real;
    x - x.Floor as real
  }

  lemma RainbowHuePeriodic(frames: nat, index: nat)
    ensures RainbowHue(frames + RainbowFrames, index) == RainbowHue(frames, index)
  {
    DivModUnique(frames + RainbowFrames, RainbowFrames, frames / RainbowFrames + 1, frames % RainbowFrames);
  }

  /** Pixel 0 starts at hue 0 (red) and is at hue one half (cyan) on frame 60. */
  lemma RainbowHueExamples()
    ensures RainbowHue(0, 0) == 0.0
    ensures RainbowHue(60, 0) == 0.5
  {
  }

  // ---------------------------------------------------------------------
  // Dispatch on the pattern kind

  /** Whether rendering `pattern` raises: every pattern but Rainbow reads the
      palette (index 0, or a modulo by its length) and fails on an empty one. */
  predicate Raises(pattern: Command) {
    pattern.kind != Rainbow && pattern.colors == []
  }

  /** The colour pixel `index` takes on frame `frames` under `pattern`, given
      the brightness level of Breath and the HSV-to-RGB conversion of Rainbow. */
  function PixelColor(pattern: Command, frames: nat, index: nat,
                      level: real, hueToRgb: real -> Color): Color
    requires !Raises(pattern) && 0.0 <= level <= 1.0
  {
    match pattern.kind
    case Solid => pattern.colors[0]
    case Rainbow => hueToRgb(RainbowHue(frames, index))
    case Breath => BreathColor(pattern.colors[0], level)
    case Loop => LoopColor(frames, pattern.colors)
  }

  /** Solid, Breath and Loop paint the whole ring one colour; every pattern
      keeps 8-bit colours 8-bit (Rainbow when its conversion does). */
  lemma PixelColorInRange(pattern: Command, frames: nat, index: nat,
                          level: real, hueToRgb: real -> Color)
    requires !Raises(pattern) && 0.0 <= level <= 1.0
    requires AllInRange(pattern.colors)
    requires forall h :: 0.0 <= h < 1.0 ==> InRange(hueToRgb(h))
    ensures InRange(PixelColor(pattern, frames, index, level, hueToRgb))
    ensures pattern.kind != Rainbow ==>
            PixelColor(pattern, frames, index, level, hueToRgb) == PixelColor(pattern, frames, 0, level, hueToRgb)
  {
    match pattern.kind
    case Solid =>
      assert InRange(pattern.colors[0]);
    case Rainbow =>
    case Breath =>
      assert InRange(pattern.colors[0]);
      BreathDims(pattern.colors[0], level);
    case Loop =>
      LoopInRange(frames, pattern.colors);
  }
}
