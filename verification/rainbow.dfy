/**
 * The `Rainbow` animation: an 8-bit hue offset that advances by one each
 * tick and renders a diagonal gradient through the foreign `hsv2rgb`.
 */
module Rainbow {
  import opened Pixels
  import Arith

  /** `Rainbow { hue }`; the default state has hue 0. */
  datatype State = State(hue: Byte)

  const Default: State := State(0)

  /** Saturation and value the animation passes to `hsv2rgb`. */
  const Saturation: Byte := 255
  const Value: Byte := 32

  /** `u8::wrapping_add`. */
  function WrappingAdd(a: Byte, b: Byte): (r: Byte)
    ensures r == (a + b) % 256
    ensures a + b < 256 ==> r == a + b
  {
    if a + b < 256 then a + b else a + b - 256
  }

  /**
   * `u8` multiplication as compiled with overflow checks: it is only
   * defined when the product fits in a byte.
   */
  function CheckedMul(a: Byte, b: Byte): (r: Byte)
    requires a * b < 256
    ensures r == a * b
  {
    a * b
  }

  /** `Rainbow::next`: the hue steps forward by one, wrapping at 256. */
  function Next(s: State): (r: State)
    ensures r.hue == (s.hue + 1) % 256
    ensures s.hue < 255 ==> r.hue == s.hue + 1
    ensures s.hue == 255 ==> r.hue == 0
  {
    State(WrappingAdd(s.hue, 1))
  }

  /**
   * `Rainbow::to_list`, with `hsv2rgb` (foreign code) as a parameter.
   * Pixel `i` is the colour of hue `hue + 4 i` (mod 256) at full saturation
   * and value 32; `i as u8 * 4` never overflows because `i < 64`.
   */
  function Render(s: State, hsv2rgb: Hsv -> RGB): (f: Frame)
    ensures forall i :: 0 <= i < 64 ==> f[i] == hsv2rgb(Hsv((s.hue + 4 * i) % 256, Saturation, Value))
  {
    var f := seq(64, i requires 0 <= i < 64 => hsv2rgb(PixelColour(s, i)));
    assert |f| == 64;
    assert forall i :: 0 <= i < 64 ==> f[i] == hsv2rgb(PixelColour(s, i));
    f
  }

  /** The HSV colour of pixel `i`: `self.hue.wrapping_add(i as u8 * 4)`. */
  function PixelColour(s: State, i: nat): (c: Hsv)
    requires i < 64
    ensures c == Hsv((s.hue + 4 * i) % 256, Saturation, Value)
  {
    Hsv(WrappingAdd(s.hue, CheckedMul(i, 4)), Saturation, Value)
  }

  /** The state after `n` ticks. */
  function Ticks(s: State, n: nat): State
    decreases n
  {
    if n == 0 then s else Next(Ticks(s, n - 1))
  }

  /** After `n` ticks the hue has advanced by `n`, modulo 256. */
  lemma {:induction false} TicksHue(s: State, n: nat)
    ensures Ticks(s, n).hue == (s.hue + n) % 256
  {
    if n > 0 {
      var a := s.hue + (n - 1);
      var prev := Ticks(s, n - 1);
      TicksHue(s, n - 1);
      assert prev.hue == a % 256;
      assert Ticks(s, n).hue == (prev.hue + 1) % 256;
      Arith.ModSuccOfMod(a, 256);
      assert a + 1 == s.hue + n;
    }
  }

  /** The animation repeats every 256 ticks. */
  lemma {:induction false} TicksPeriod(s: State, n: nat)
    requires n % 256 == 0
    ensures Ticks(s, n) == s
  {
    TicksHue(s, n);
    Arith.ModUnique(s.hue + n, 256, n / 256, s.hue);
  }

  /**
   * After `n` ticks pixel `i` shows hue `hue + n + 4 i` (mod 256); from the
   * default state, pixel 0 shows hue `n mod 256`.
   */
  lemma {:induction false} RenderAfterTicks(s: State, n: nat, hsv2rgb: Hsv -> RGB, i: nat)
    requires i < 64
    ensures Render(Ticks(s, n), hsv2rgb)[i] == hsv2rgb(Hsv((s.hue + n + 4 * i) % 256, Saturation, Value))
  {
    var t := Ticks(s, n);
    HueAfter(s, n, 4 * i);
    assert Render(t, hsv2rgb)[i] == hsv2rgb(Hsv((t.hue + 4 * i) % 256, Saturation, Value));
  }

  /** The hue `d` steps past the hue after `n` ticks. */
  lemma {:induction false} HueAfter(s: State, n: nat, d: nat)
    ensures (Ticks(s, n).hue + d) % 256 == (s.hue + n + d) % 256
  {
    TicksHue(s, n);
    Arith.ModOfSum(s.hue + n, d, 256);
  }

  /**
   * The gradient moves by one pixel every four ticks: after four ticks,
   * pixel `i` shows what pixel `i + 1` showed before.
   */
  lemma {:induction false} GradientShifts(s: State, hsv2rgb: Hsv -> RGB, i: nat)
    requires i < 63
    ensures Render(Ticks(s, 4), hsv2rgb)[i] == Render(s, hsv2rgb)[i + 1]
  {
    var t := Ticks(s, 4);
    TicksHue(s, 4);
    Arith.ModOfSum(s.hue + 4, 4 * i, 256);
    assert Render(t, hsv2rgb)[i] == hsv2rgb(Hsv((t.hue + 4 * i) % 256, Saturation, Value));
  }
}
