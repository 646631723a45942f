/** The animation engine object of src/visual.py: the pixel ring, the pattern
    state, the frame counter, the command queue, and the render loop that
    drains the queue, paints the ring and counts frames. */
module Engine {
  import opened Animation

  /** The Python exceptions a pattern can raise on an empty palette. */
  datatype Fault = IndexError | ZeroDivisionError

  /** The exception a pattern of kind `kind` raises on an empty palette:
      Loop divides by the palette length, the others index it. */
  function FaultFor(kind: AnimationType): Fault
  {
    if kind == Loop then ZeroDivisionError else IndexError
  }

  /** Outcome of painting the ring once. */
  datatype Status = Done | Raised(fault: Fault)

  /** Outcome of one iteration of the render loop: a frame was drawn, the
      window was closed, or an exception escaped and ended the loop. */
  datatype TickResult = Rendered | Quit | Crashed(fault: Fault)

  /** What happens before one iteration of the render loop: the commands
      other threads submitted since the previous one, and whether the window
      was closed. */
  datatype TickInput = TickInput(sent: seq<Command>, quit: bool)

  /** The pattern `run` starts from: Loop over red, green and blue. */
  const StartPattern := Command(Loop, DefaultPalette)

  /** Every command the first `n` steps of `script` send, in order. */
  function Sent(script: seq<TickInput>, n: nat): seq<Command>
    requires n <= |script|
  {
    if n == 0 then [] else Sent(script, n - 1) + script[n - 1].sent
  }

  /** The pattern state after draining `pending` in FIFO order into
      `current`: each command replaces the type and colours in turn. */
  function Drain(current: Command, pending: seq<Command>): Command
    decreases |pending|
  {
    if pending == [] then current else Drain(pending[0], pending[1..])
  }

  /** Last write wins: after a non-empty drain the state is the last command. */
  lemma {:induction false} DrainLastWins(current: Command, pending: seq<Command>)
    requires pending != []
    ensures Drain(current, pending) == pending[|pending| - 1]
    decreases |pending|
  {
    if |pending| > 1 {
      DrainLastWins(pending[0], pending[1..]);
    }
  }

  /** Draining two batches one after the other is draining them together. */
  lemma {:induction false} DrainConcat(current: Command, first: seq<Command>, second: seq<Command>)
    ensures Drain(current, first + second) == Drain(Drain(current, first), second)
    decreases |first|
  {
    if first != [] {
      var all := first + second;
      assert all[0] == first[0] && all[1..] == first[1..] + second;
      assert Drain(current, all) == Drain(first[0], first[1..] + second);
      DrainConcat(first[0], first[1..], second);
    } else {
      assert first + second == second;
    }
  }

  /** Draining nothing changes nothing; applying a command twice is the same
      as applying it once. */
  lemma DrainIdempotent(current: Command, cmd: Command)
    ensures Drain(current, []) == current
    ensures Drain(current, [cmd, cmd]) == Drain(current, [cmd])
  {
    DrainLastWins(current, [cmd, cmd]);
    DrainLastWins(current, [cmd]);
  }

  /** The engine. `pixels` holds the colour of each ring pixel (positions are
      not modelled); `q` is the command queue, head first. */
  class Visual {
    var pixels: array<Color>
    var animationType: AnimationType
    var animationColors: seq<Color>
    var animationFrames: nat
    var q: seq<Command>

    /** The ring always has its fixed number of pixels. */
    ghost predicate Valid()
      reads this
    {
      pixels.Length == TotalPixels
    }

    /** The pattern state, as a value. */
    function Pattern(): Command
      reads this
    {
      Command(animationType, animationColors)
    }

    /** The start-up state: a white ring, Loop over red, green and blue,
        frame 0, nothing queued. */
    ghost predicate IsDefault()
      reads this, pixels
    {
      Valid() &&
      (forall k :: 0 <= k < pixels.Length ==> pixels[k] == White) &&
      animationType == Loop && animationColors == DefaultPalette &&
      animationFrames == 0 && q == []
    }

    constructor ()
      ensures fresh(pixels) && IsDefault()
    {
      pixels := new Color[TotalPixels](_ => White);
      animationType := Loop;
      animationColors := DefaultPalette;
      animationFrames := 0;
      q := [];
    }

    /** The resets at the start of `run`: a new ring, the default pattern,
        frame 0 and a new, empty queue (commands sent earlier are dropped). */
    method Reset()
      modifies this
      ensures fresh(pixels) && IsDefault()
    {
      pixels := new Color[TotalPixels](_ => White);
      animationType := Loop;
      animationColors := DefaultPalette;
      animationFrames := 0;
      q := [];
    }

    /** Every pixel takes the first palette colour; on an empty palette the
        first pixel raises IndexError before anything is painted. */
    method AnimateSolid() returns (status: Status)
      modifies pixels
      ensures status == if pixels.Length > 0 && animationColors == [] then Raised(IndexError) else Done
      ensures status.Raised? ==> unchanged(pixels)
      ensures status.Done? ==> forall k :: 0 <= k < pixels.Length ==> pixels[k] == animationColors[0]
    {
      if pixels.Length > 0 && animationColors == [] {
        return Raised(IndexError);
      }
      for k := 0 to pixels.Length
        invariant forall p :: 0 <= p < k ==> pixels[p] == animationColors[0]
      {
        pixels[k] := animationColors[0];
      }
      status := Done;
    }

    /** Every pixel takes the Rainbow hue of its index, converted to RGB by
        `hueToRgb` (the HSV conversion and rounding of the source). */
    method AnimateRainbow(hueToRgb: real -> Color)
      modifies pixels
      ensures forall k :: 0 <= k < pixels.Length ==> pixels[k] == hueToRgb(RainbowHue(animationFrames, k))
    {
      for k := 0 to pixels.Length
        invariant forall p :: 0 <= p < k ==> pixels[p] == hueToRgb(RainbowHue(animationFrames, p))
      {
        pixels[k] := hueToRgb(RainbowHue(animationFrames, k));
      }
    }

    /** Every pixel takes the first palette colour scaled by `level`; the
        colour is computed before the loop, so an empty palette raises
        IndexError even on an empty ring. */
    method AnimateBreath(level: real) returns (status: Status)
      requires 0.0 <= level <= 1.0
      modifies pixels
      ensures status == if animationColors == [] then Raised(IndexError) else Done
      ensures status.Raised? ==> unchanged(pixels)
      ensures status.Done? ==>
              forall k :: 0 <= k < pixels.Length ==> pixels[k] == BreathColor(animationColors[0], level)
    {
      if animationColors == [] {
        return Raised(IndexError);
      }
      var c := BreathColor(animationColors[0], level);
      for k := 0 to pixels.Length
        invariant forall p :: 0 <= p < k ==> pixels[p] == c
      {
        pixels[k] := c;
      }
      status := Done;
    }

    /** Every pixel takes the Loop colour of the current frame; an empty
        palette makes the cycle length 0 and the modulo by it raises
        ZeroDivisionError. */
    method AnimateLoop() returns (status: Status)
      modifies pixels
      ensures status == if animationColors == [] then Raised(ZeroDivisionError) else Done
      ensures status.Raised? ==> unchanged(pixels)
      ensures status.Done? ==>
              forall k :: 0 <= k < pixels.Length ==> pixels[k] == LoopColor(animationFrames, animationColors)
    {
      if animationColors == [] {
        return Raised(ZeroDivisionError);
      }
      var len := |animationColors|;
      var i := CurrentIndex(animationFrames, len);
      var j := NextIndex(i, len);
      var c := Mix(animationColors[i], animationColors[j], FadeStep(animationFrames, len));
      for k := 0 to pixels.Length
        invariant forall p :: 0 <= p < k ==> pixels[p] == c
      {
        pixels[k] := c;
      }
      status := Done;
    }

    /** Puts a command at the tail of the queue. */
    method SendCommand(kind: AnimationType, colors: seq<Color>)
      modifies this`q
      ensures q == old(q) + [Command(kind, colors)]
    {
      q := q + [Command(kind, colors)];
    }

    /** Submits `cmds` one after the other, as the producer threads do
        between two iterations of the render loop. */
    method SendAll(cmds: seq<Command>)
      modifies this`q
      ensures q == old(q) + cmds
    {
      for c := 0 to |cmds|
        invariant q == old(q) + cmds[..c]
      {
        SendCommand(cmds[c].kind, cmds[c].colors);
        assert cmds[..c + 1] == cmds[..c] + [cmds[c]];
      }
      assert cmds[..|cmds|] == cmds;
    }

    /** Takes every queued command, head first, and applies it to the pattern
        state; the frame counter and the ring are left alone. */
    method DrainCommands()
      modifies this`q, this`animationType, this`animationColors
      ensures q == []
      ensures Pattern() == Drain(old(Pattern()), old(q))
      ensures old(q) != [] ==> Pattern() == old(q)[|old(q)| - 1]
      ensures old(q) == [] ==> Pattern() == old(Pattern())
    {
      while q != []
        invariant Drain(Pattern(), q) == Drain(old(Pattern()), old(q))
        decreases |q|
      {
        var cmd := q[0];
        q := q[1..];
        animationType := cmd.kind;
        animationColors := cmd.colors;
      }
      if old(q) != [] {
        DrainLastWins(old(Pattern()), old(q));
      }
    }

    /** Paints the ring with the active pattern (the dispatch in `run`). */
    method Animate(level: real, hueToRgb: real -> Color) returns (status: Status)
      requires Valid() && 0.0 <= level <= 1.0
      modifies pixels
      ensures status == if Raises(Pattern()) then Raised(FaultFor(animationType)) else Done
      ensures status.Raised? ==> unchanged(pixels)
      ensures status.Done? ==> forall k :: 0 <= k < pixels.Length ==>
                pixels[k] == PixelColor(Pattern(), animationFrames, k, level, hueToRgb)
    {
      match animationType
      case Solid =>
        status := AnimateSolid();
      case Rainbow =>
        AnimateRainbow(hueToRgb);
        status := Done;
      case Breath =>
        status := AnimateBreath(level);
      case Loop =>
        status := AnimateLoop();
    }

    /** One iteration of the render loop. A closed window ends the loop before
        anything else happens. Otherwise the queue is drained, the ring is
        painted with Breath's brightness for the current frame, and the frame
        counter goes up by exactly one; if painting raises, the exception
        leaves the loop before the counter moves. */
    method Tick(quit: bool, breathLevel: nat -> real, hueToRgb: real -> Color)
      returns (result: TickResult)
      requires Valid()
      requires forall f :: 0.0 <= breathLevel(f) <= 1.0
      modifies this, pixels
      ensures Valid() && pixels == old(pixels)
      ensures quit ==> result == Quit && unchanged(this, pixels)
      ensures !quit ==> q == [] && Pattern() == Drain(old(Pattern()), old(q))
      ensures !quit ==> result == if Raises(Pattern()) then Crashed(FaultFor(animationType)) else Rendered
      ensures result.Crashed? ==> animationFrames == old(animationFrames) && unchanged(pixels)
      ensures result == Rendered ==>
              animationFrames == old(animationFrames) + 1 &&
              forall k :: 0 <= k < pixels.Length ==>
                pixels[k] == PixelColor(Pattern(), old(animationFrames), k, breathLevel(old(animationFrames)), hueToRgb)
    {
      if quit {
        return Quit;
      }
      DrainCommands();
      var status := Animate(breathLevel(animationFrames), hueToRgb);
      if status.Raised? {
        return Crashed(status.fault);
      }
      animationFrames := animationFrames + 1;
      result := Rendered;
    }

    /** `run`: reset everything, then iterate the render loop over `script`,
        queueing each step's commands before its tick, until the window is
        closed, an exception escapes, or the script ends. `ticks` counts the
        frames drawn, and the frame counter equals it. No window close comes
        before the last step run; the pattern is the start-up pattern with
        every command drained so far applied in order; the ring shows the
        last frame drawn (white if none was). */
    method Run(script: seq<TickInput>, breathLevel: nat -> real, hueToRgb: real -> Color)
      returns (result: TickResult, ticks: nat)
      requires forall f :: 0.0 <= breathLevel(f) <= 1.0
      modifies this
      ensures Valid() && fresh(pixels)
      ensures animationFrames == ticks
      ensures result == Rendered ==> ticks == |script|
      ensures result != Rendered ==> ticks < |script|
      ensures forall t :: 0 <= t < ticks ==> !script[t].quit
      ensures result == Quit ==>
              script[ticks].quit && q == script[ticks].sent &&
              Pattern() == Drain(StartPattern, Sent(script, ticks))
      ensures result.Crashed? ==>
              !script[ticks].quit && q == [] &&
              Pattern() == Drain(StartPattern, Sent(script, ticks + 1)) &&
              Raises(Pattern()) && result.fault == FaultFor(animationType)
      ensures result == Rendered ==> q == [] && Pattern() == Drain(StartPattern, Sent(script, |script|))
      ensures ticks == 0 ==> forall k :: 0 <= k < pixels.Length ==> pixels[k] == White
      ensures ticks > 0 ==> !Raises(Drain(StartPattern, Sent(script, ticks)))
      ensures ticks > 0 ==> forall k :: 0 <= k < pixels.Length ==>
                pixels[k] == PixelColor(Drain(StartPattern, Sent(script, ticks)), ticks - 1, k,
                                        breathLevel(ticks - 1), hueToRgb)
    {
      Reset();
      result, ticks := Rendered, 0;
      while ticks < |script|
        invariant Valid() && fresh(pixels)
        invariant ticks <= |script|
        invariant animationFrames == ticks
        invariant forall t :: 0 <= t < ticks ==> !script[t].quit
        invariant q == [] && Pattern() == Drain(StartPattern, Sent(script, ticks))
        invariant ticks == 0 ==> forall k :: 0 <= k < pixels.Length ==> pixels[k] == White
        invariant ticks > 0 ==> !Raises(Pattern())
        invariant ticks > 0 ==> forall k :: 0 <= k < pixels.Length ==>
                    pixels[k] == PixelColor(Pattern(), ticks - 1, k, breathLevel(ticks - 1), hueToRgb)
        decreases |script| - ticks
      {
        var step := script[ticks];
        SendAll(step.sent);
        assert q == step.sent;
        assert Pattern() == Drain(StartPattern, Sent(script, ticks));
        assert Sent(script, ticks + 1) == Sent(script, ticks) + step.sent;
        DrainConcat(StartPattern, Sent(script, ticks), step.sent);
        var r := Tick(step.quit, breathLevel, hueToRgb);
        if r != Rendered {
          return r, ticks;
        }
        ticks := ticks + 1;
      }
    }
  }
}
