/**
 * One iteration of the firmware's main loop: read the accelerometer,
 * update the orientation, render the animation the orientation selects,
 * rotate its frame, pick the brightness scale, and advance only that
 * animation.
 */
module ControlLoop {
  import opened Pixels
  import opened Wrappers
  import opened Rotations
  import Rainbow
  import FromRaw
  import Life

  /** Which way the device is held. */
  datatype Orientation = YDown | XUp | YUp | XDown

  /** The orientation the loop starts in. */
  const InitialMode: Orientation := YDown

  /** The bytes of one accelerometer read: x, y, z as little-endian `i16`s. */
  type AccelBytes = s: seq<Byte> | |s| == 6 witness [0, 0, 0, 0, 0, 0]

  /** `unwrap_or_default`: a failed read gives all-zero bytes. */
  function BytesOrZero(read: Option<AccelBytes>): (b: AccelBytes)
    ensures read.None? ==> forall k :: 0 <= k < 6 ==> b[k] == 0
    ensures read.Some? ==> b == read.value
  {
    match read
    case Some(bytes) => bytes
    case None => [0, 0, 0, 0, 0, 0]
  }

  /** `i16::from_le_bytes([lo, hi])`: two's complement of `lo + 256 hi`. */
  function I16FromLe(lo: Byte, hi: Byte): (v: int)
    ensures -32768 <= v < 32768
    ensures (v + 65536) % 65536 == lo + 256 * hi
  {
    var u := lo + 256 * hi;
    if u < 32768 then u else u - 65536
  }

  /**
   * Divisor turning a raw reading into multiples of g: `64.0f32 / 0.004f32`.
   * `0.004f32` is slightly above 0.004, so the `f32` quotient is
   * 15999.9990234375 rather than 16000.
   */
  const Scale: real := 15999.9990234375

  /** The tilt threshold `0.9f32`, the `f32` nearest to 0.9. */
  const Threshold: real := 0.89999997615814208984375

  /**
   * Acceleration of a raw reading, in g: the quotient by `Scale`, taken
   * exactly. With the `f32` constants the ±0.9 g thresholds fall between
   * raw ±14399 and ±14400, so raw 14400 already counts as tilted.
   */
  function Accel(raw: int): (a: real)
    ensures a > Threshold <==> raw >= 14400
    ensures a < -Threshold <==> raw <= -14400
    ensures raw == 0 ==> a == 0.0
  {
    raw as real / Scale
  }

  /**
   * The x and y accelerations of a read: x from bytes 0 and 1, y from bytes
   * 2 and 3; a failed read reads as no acceleration at all.
   */
  function Reading(read: Option<AccelBytes>): (xy: (real, real))
    ensures read.None? ==> xy == (0.0, 0.0)
    ensures read.Some? ==> xy.0 == Accel(I16FromLe(read.value[0], read.value[1]))
    ensures read.Some? ==> xy.1 == Accel(I16FromLe(read.value[2], read.value[3]))
  {
    var b := BytesOrZero(read);
    (Accel(I16FromLe(b[0], b[1])), Accel(I16FromLe(b[2], b[3])))
  }

  /** An axis reading within the dead band `[-0.9, 0.9]`. */
  predicate Level(a: real) {
    -Threshold <= a <= Threshold
  }

  /**
   * The orientation update, in priority order: x above 0.9 is `XUp`, else
   * x below -0.9 is `XDown`, else y above 0.9 is `YUp`, else y below -0.9
   * is `YDown`; with no threshold crossed the previous mode is kept.
   */
  function UpdateMode(mode: Orientation, x: real, y: real): (m: Orientation)
    ensures m == XUp <==> x > Threshold || (mode == XUp && Level(x) && Level(y))
    ensures m == XDown <==> x < -Threshold || (mode == XDown && Level(x) && Level(y))
    ensures m == YUp <==> (Level(x) && y > Threshold) || (mode == YUp && Level(x) && Level(y))
    ensures m == YDown <==> (Level(x) && y < -Threshold) || (mode == YDown && Level(x) && Level(y))
  {
    if x > Threshold then XUp
    else if x < -Threshold then XDown
    else if y > Threshold then YUp
    else if y < -Threshold then YDown
    else mode
  }

  /**
   * Once a threshold is crossed the previous mode no longer matters, and
   * applying the same reading again changes nothing.
   */
  lemma UpdateModeStable(mode: Orientation, mode': Orientation, x: real, y: real)
    ensures UpdateMode(UpdateMode(mode, x, y), x, y) == UpdateMode(mode, x, y)
    ensures x > Threshold || x < -Threshold || y > Threshold || y < -Threshold ==> UpdateMode(mode, x, y) == UpdateMode(mode', x, y)
  {
  }

  /** The four animations the loop owns. */
  datatype Animations = Animations(
    rainbow: Rainbow.State,
    life: Life.State,
    rickRoll: FromRaw.State,
    badApple: FromRaw.State)

  /** Both players are usable (frames present, cursors in range). */
  predicate Valid(a: Animations) {
    FromRaw.Valid(a.rickRoll) && FromRaw.Valid(a.badApple)
  }

  /** The loop's state between iterations. */
  datatype Loop = Loop(mode: Orientation, anims: Animations)

  /** What one iteration hands to the LED driver: the frame and the brightness scale. */
  datatype Output = Output(frame: Frame, scale: Byte)

  /**
   * The rotation each orientation uses. Only the rainbow, shown with the
   * device in its resting orientation, is left unrotated.
   */
  function Rotation(mode: Orientation): (r: Rotations.Rotation)
    ensures r == Identity <==> mode == YDown
  {
    match mode
    case YDown => Identity
    case XUp => Quarter
    case YUp => Half
    case XDown => ThreeQuarters
  }

  /**
   * The brightness scale each orientation uses: only the rainbow, whose own
   * value is already 32, runs at full scale; the other animations are
   * dimmed to 40 or 25.
   */
  function Brightness(mode: Orientation): (b: Byte)
    ensures b == 255 <==> mode == YDown
    ensures mode != YDown ==> 25 <= b <= 40
  {
    match mode
    case YDown => 255
    case XUp => 40
    case YUp => 25
    case XDown => 25
  }

  /**
   * Opposite orientations are half a turn apart: turning the device from
   * `YDown` to `YUp`, or from `XUp` to `XDown`, turns the shown frame by 180
   * degrees relative to the other. The `YDown`/`YUp` half holds by
   * definition (`YDown` is unrotated and `Rotate180` is the half turn); the
   * `XUp`/`XDown` half is the composition law of `Rotations`.
   */
  lemma OppositeOrientations(f: Frame)
    ensures Apply(Rotation(YUp), f) == Rotate180(Apply(Rotation(YDown), f))
    ensures Apply(Rotation(XDown), f) == Rotate180(Apply(Rotation(XUp), f))
  {
    forall k | 0 <= k < 64
      ensures Apply(Identity, f)[k] == f[k]
    {
      IndexOfRowCol(k);
    }
    assert Apply(Identity, f) == f;
    QuarterThenHalfIsThreeQuarters(f);
  }

  /** The unrotated frame of the animation `mode` selects, in the current state. */
  function Selected(mode: Orientation, a: Animations, hsv2rgb: Hsv -> RGB): Frame
    requires Valid(a)
  {
    match mode
    case YDown => Rainbow.Render(a.rainbow, hsv2rgb)
    case XUp => Life.Render(a.life)
    case YUp => FromRaw.Render(a.rickRoll)
    case XDown => FromRaw.Render(a.badApple)
  }

  /**
   * Startup: a rainbow at hue 0, the Life board of the two random keys, and
   * the two players; each player panics on an unusable blob.
   */
  function Init(key1: U64, key2: U64, finish: (U64, U64, seq<nat>) -> U64,
                badApple: seq<Byte>, rickRoll: seq<Byte>): (r: Result<Loop, FromRaw.Error>)
    ensures r.Ok? <==> FromRaw.New(badApple).Ok? && FromRaw.New(rickRoll).Ok?
    ensures r.Ok? ==> r.value.mode == InitialMode && Valid(r.value.anims)
    ensures r.Ok? ==> r.value.anims.rainbow == Rainbow.Default
    ensures r.Ok? ==> r.value.anims.life == Life.New(key1, key2, finish)
    ensures r.Ok? ==> r.value.anims.badApple.frame == 0 && r.value.anims.badApple.data == badApple
    ensures r.Ok? ==> r.value.anims.rickRoll.frame == 0 && r.value.anims.rickRoll.data == rickRoll
  {
    match FromRaw.New(badApple)
    case Err(e) => Err(e)
    case Ok(ba) =>
      match FromRaw.New(rickRoll)
      case Err(e) => Err(e)
      case Ok(rr) => Ok(Loop(InitialMode, Animations(Rainbow.Default, Life.New(key1, key2, finish), rr, ba)))
  }

  /**
   * The state half of the dispatch: the animation `mode` selects takes one
   * step and the other three are left as they were.
   */
  function Advance(mode: Orientation, a: Animations): (r: Animations)
    requires Valid(a)
    ensures Valid(r)
    ensures r.rainbow == if mode == YDown then Rainbow.Next(a.rainbow) else a.rainbow
    ensures r.life == if mode == XUp then Life.Next(a.life) else a.life
    ensures r.rickRoll == if mode == YUp then FromRaw.Next(a.rickRoll) else a.rickRoll
    ensures r.badApple == if mode == XDown then FromRaw.Next(a.badApple) else a.badApple
  {
    match mode
    case YDown => a.(rainbow := Rainbow.Next(a.rainbow))
    case XUp => a.(life := Life.Next(a.life))
    case YUp => a.(rickRoll := FromRaw.Next(a.rickRoll))
    case XDown => a.(badApple := FromRaw.Next(a.badApple))
  }

  /**
   * The dispatch on the mode: the emitted frame is the selected animation's
   * render taken before it advances, rotated as the table says, with the
   * table's brightness; only the selected animation then takes a step, the
   * other three are left as they were.
   */
  function Dispatch(mode: Orientation, a: Animations, hsv2rgb: Hsv -> RGB): (r: (Animations, Output))
    requires Valid(a)
    ensures Valid(r.0)
    ensures r.1.frame == Apply(Rotation(mode), Selected(mode, a, hsv2rgb))
    ensures r.1.scale == Brightness(mode)
    ensures r.0.rainbow == if mode == YDown then Rainbow.Next(a.rainbow) else a.rainbow
    ensures r.0.life == if mode == XUp then Life.Next(a.life) else a.life
    ensures r.0.rickRoll == if mode == YUp then FromRaw.Next(a.rickRoll) else a.rickRoll
    ensures r.0.badApple == if mode == XDown then FromRaw.Next(a.badApple) else a.badApple
    ensures r.0 == Advance(mode, a)
  {
    match mode
    case YDown =>
      var frame := Rainbow.Render(a.rainbow, hsv2rgb);
      (a.(rainbow := Rainbow.Next(a.rainbow)), Output(frame, 255))
    case XUp =>
      var frame := Life.Render(a.life);
      (a.(life := Life.Next(a.life)), Output(Rotate90(frame), 40))
    case YUp =>
      var frame := FromRaw.Render(a.rickRoll);
      (a.(rickRoll := FromRaw.Next(a.rickRoll)), Output(Rotate180(frame), 25))
    case XDown =>
      var frame := FromRaw.Render(a.badApple);
      (a.(badApple := FromRaw.Next(a.badApple)), Output(Rotate270(frame), 25))
  }

  /** The loop state after one iteration: the updated mode and the advanced animations. */
  function StepState(st: Loop, read: Option<AccelBytes>): (r: Loop)
    requires Valid(st.anims)
    ensures Valid(r.anims)
  {
    var xy := Reading(read);
    var mode := UpdateMode(st.mode, xy.0, xy.1);
    Loop(mode, Advance(mode, st.anims))
  }

  /**
   * One loop iteration: read, update the mode, then dispatch on the new
   * mode. Every animation stays usable.
   */
  function Step(st: Loop, read: Option<AccelBytes>, hsv2rgb: Hsv -> RGB): (r: (Loop, Output))
    requires Valid(st.anims)
    ensures Valid(r.0.anims)
    ensures r.0.mode == UpdateMode(st.mode, Reading(read).0, Reading(read).1)
    ensures r.1.frame == Apply(Rotation(r.0.mode), Selected(r.0.mode, st.anims, hsv2rgb))
    ensures r.1.scale == Brightness(r.0.mode)
    ensures r.0.anims.rainbow == if r.0.mode == YDown then Rainbow.Next(st.anims.rainbow) else st.anims.rainbow
    ensures r.0.anims.life == if r.0.mode == XUp then Life.Next(st.anims.life) else st.anims.life
    ensures r.0.anims.rickRoll == if r.0.mode == YUp then FromRaw.Next(st.anims.rickRoll) else st.anims.rickRoll
    ensures r.0.anims.badApple == if r.0.mode == XDown then FromRaw.Next(st.anims.badApple) else st.anims.badApple
    ensures r.0 == StepState(st, read)
  {
    var xy := Reading(read);
    var mode := UpdateMode(st.mode, xy.0, xy.1);
    var d := Dispatch(mode, st.anims, hsv2rgb);
    (Loop(mode, d.0), d.1)
  }

  /** A failed read leaves the mode as it was. */
  lemma FailedReadKeepsMode(st: Loop, hsv2rgb: Hsv -> RGB)
    requires Valid(st.anims)
    ensures Step(st, None, hsv2rgb).0.mode == st.mode
  {
    assert Reading(None) == (0.0, 0.0);
  }

  /**
   * Tilting to x = 0.95 g (raw 15200, bytes 0x60 0x3B) selects `XUp`, and a
   * level reading afterwards keeps it.
   */
  lemma TiltThenLevel(st: Loop, hsv2rgb: Hsv -> RGB)
    requires Valid(st.anims)
    ensures Step(st, Some([0x60, 0x3B, 0, 0, 0, 0]), hsv2rgb).0.mode == XUp
    ensures Step(Step(st, Some([0x60, 0x3B, 0, 0, 0, 0]), hsv2rgb).0, Some([0, 0, 0, 0, 0, 0]), hsv2rgb).0.mode == XUp
  {
    assert I16FromLe(0x60, 0x3B) == 15200;
  }

  /**
   * The smallest tilt that counts: raw 14400 (bytes 0x40 0x38) switches a
   * level device to `XUp`, while raw 14399 (bytes 0x3F 0x38) keeps the mode.
   */
  lemma ThresholdReading(st: Loop, hsv2rgb: Hsv -> RGB)
    requires Valid(st.anims)
    ensures Step(st, Some([0x40, 0x38, 0, 0, 0, 0]), hsv2rgb).0.mode == XUp
    ensures Step(st, Some([0x3F, 0x38, 0, 0, 0, 0]), hsv2rgb).0.mode == st.mode
  {
    assert I16FromLe(0x40, 0x38) == 14400;
    assert I16FromLe(0x3F, 0x38) == 14399;
  }

  /**
   * With the rainbow selected at hue 0 and a failed read, the loop shows the
   * rainbow unrotated at full scale: pixel 0 is `hsv2rgb` of hue 0,
   * saturation 255, value 32.
   */
  lemma RainbowFirst(st: Loop, hsv2rgb: Hsv -> RGB)
    requires Valid(st.anims) && st.mode == YDown && st.anims.rainbow == Rainbow.Default
    ensures Step(st, None, hsv2rgb).1.scale == 255
    ensures Step(st, None, hsv2rgb).1.frame[0] == hsv2rgb(Hsv(0, 255, 32))
  {
    FailedReadKeepsMode(st, hsv2rgb);
    var raw := Rainbow.Render(Rainbow.Default, hsv2rgb);
    var out := Step(st, None, hsv2rgb).1;
    assert out.frame == Apply(Identity, raw);
    assert Source(Identity, Row(0), Col(0)) == 0;
    assert out.frame[0] == raw[0];
    assert raw[0] == hsv2rgb(Rainbow.PixelColour(Rainbow.Default, 0));
  }

  /**
   * Right after startup with the bundled assets and the device held level,
   * the first frame is the rainbow at hue 0, unrotated, at full scale.
   */
  lemma FirstFrame(key1: U64, key2: U64, finish: (U64, U64, seq<nat>) -> U64,
                   badApple: seq<Byte>, rickRoll: seq<Byte>, hsv2rgb: Hsv -> RGB)
    requires |badApple| == 1262400 && |rickRoll| == 36480
    ensures Init(key1, key2, finish, badApple, rickRoll).Ok?
    ensures var out := Step(Init(key1, key2, finish, badApple, rickRoll).value, None, hsv2rgb).1;
      out.scale == 255 && out.frame[0] == hsv2rgb(Hsv(0, 255, 32))
  {
    FromRaw.BundledAssetsAccepted(badApple, rickRoll);
    RainbowFirst(Init(key1, key2, finish, badApple, rickRoll).value, hsv2rgb);
  }

  /** The loop state after one iteration per read, in order. */
  function Run(st: Loop, samples: seq<Option<AccelBytes>>): (r: Loop)
    requires Valid(st.anims)
    ensures Valid(r.anims)
    decreases |samples|
  {
    if |samples| == 0 then st
    else StepState(Run(st, samples[..|samples| - 1]), samples[|samples| - 1])
  }

  /** The mode after each iteration of a run. */
  function Modes(st: Loop, samples: seq<Option<AccelBytes>>): (ms: seq<Orientation>)
    requires Valid(st.anims)
    ensures |ms| == |samples|
    decreases |samples|
  {
    if |samples| == 0 then []
    else Modes(st, samples[..|samples| - 1]) + [Run(st, samples).mode]
  }

  /**
   * An animation that is never selected during a run is frozen: its state
   * at the end is the state it had at the start.
   */
  lemma {:induction false} InactiveFrozen(st: Loop, samples: seq<Option<AccelBytes>>)
    requires Valid(st.anims)
    ensures YDown !in Modes(st, samples) ==> Run(st, samples).anims.rainbow == st.anims.rainbow
    ensures XUp !in Modes(st, samples) ==> Run(st, samples).anims.life == st.anims.life
    ensures YUp !in Modes(st, samples) ==> Run(st, samples).anims.rickRoll == st.anims.rickRoll
    ensures XDown !in Modes(st, samples) ==> Run(st, samples).anims.badApple == st.anims.badApple
  {
    if |samples| > 0 {
      var init := samples[..|samples| - 1];
      InactiveFrozen(st, init);
      var ms := Modes(st, samples);
      assert ms == Modes(st, init) + [Run(st, samples).mode];
      forall m | m !in ms
        ensures m !in Modes(st, init) && m != Run(st, samples).mode
      {
        assert ms[|ms| - 1] == Run(st, samples).mode;
      }
    }
  }

  /** A run of `n` failed samples. */
  function Idle(n: nat): (samples: seq<Option<AccelBytes>>)
    ensures |samples| == n
    ensures forall k :: 0 <= k < n ==> samples[k].None?
  {
    seq(n, _ => None)
  }

  /**
   * With the sensor failing, the mode never changes and the selected
   * animation advances once per iteration while the others stand still.
   */
  lemma {:induction false} IdleRun(st: Loop, n: nat)
    requires Valid(st.anims)
    ensures Run(st, Idle(n)).mode == st.mode
    ensures Run(st, Idle(n)).anims.rainbow ==
      if st.mode == YDown then Rainbow.Ticks(st.anims.rainbow, n) else st.anims.rainbow
    ensures Run(st, Idle(n)).anims.life ==
      if st.mode == XUp then Life.Ticks(st.anims.life, n) else st.anims.life
    ensures Run(st, Idle(n)).anims.rickRoll ==
      if st.mode == YUp then FromRaw.Ticks(st.anims.rickRoll, n) else st.anims.rickRoll
    ensures Run(st, Idle(n)).anims.badApple ==
      if st.mode == XDown then FromRaw.Ticks(st.anims.badApple, n) else st.anims.badApple
  {
    if n > 0 {
      IdleRun(st, n - 1);
      var prev := Run(st, Idle(n - 1));
      assert Idle(n)[..n - 1] == Idle(n - 1);
      assert Reading(None) == (0.0, 0.0);
      assert Run(st, Idle(n)) == Loop(st.mode, Advance(st.mode, prev.anims));
    }
  }
}
