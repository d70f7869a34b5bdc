/**
 * The `Squares` animation: a hollow square outline whose distance from the
 * edge, `frame`, bounces between 0 and 3, moving one step every 24 ticks.
 */
module Squares {
  import opened Pixels
  import Rotations
  import Arith

  /**
   * `Squares { frame, increment_counter, direction }`; `direction` true
   * means shrinking towards the edge, false growing towards the centre.
   */
  datatype State = State(frame: nat, counter: nat, direction: bool)

  /** `Squares::default()`. */
  const Default: State := State(0, 0, false)

  /** The ranges every reachable state keeps. */
  predicate Valid(s: State) {
    s.frame <= 3 && s.counter < 24
  }

  /**
   * `Squares::next`. The sub-tick counter advances modulo 24, and only when
   * it wraps to 0 does the radius move, by exactly one step, bouncing at 0
   * and 3. Each decrement happens on a positive `frame` (nat subtraction is
   * checked), so the `usize` never underflows.
   */
  function Next(s: State): (r: State)
    ensures r.counter == (s.counter + 1) % 24
    ensures r.counter != 0 ==> r.frame == s.frame && r.direction == s.direction
    ensures r.counter == 0 ==> r.frame == s.frame + 1 || r.frame + 1 == s.frame
    ensures Valid(s) ==> Valid(r)
  {
    var c := (s.counter + 1) % 24;
    if c != 0 then s.(counter := c)
    else if s.direction then
      if s.frame <= 0 then State(s.frame + 1, c, false) else State(s.frame - 1, c, true)
    else
      if s.frame >= 3 then State(s.frame - 1, c, true) else State(s.frame + 1, c, false)
  }

  /** The state after `n` ticks. */
  function Ticks(s: State, n: nat): State
    decreases n
  {
    if n == 0 then s else Next(Ticks(s, n - 1))
  }

  /** Radius after `k` wraps from the default state: 0, 1, 2, 3, 2, 1, 0, 1, ... */
  function Triangle(k: nat): (f: nat)
    ensures f <= 3
  {
    var t := k % 6;
    if t <= 3 then t else 6 - t
  }

  /** Closed form of the state reached from `Default` after `n` ticks. */
  function At(n: nat): State {
    var k := n / 24;
    State(Triangle(k), n % 24, k > 0 && (k % 6 == 0 || k % 6 >= 4))
  }

  /** One tick moves the closed form from `n` to `n + 1`. */
  lemma NextAt(n: nat)
    ensures Next(At(n)) == At(n + 1)
  {
    var k := n / 24;
    var c := n % 24;
    assert n == k * 24 + c;
    if c + 1 < 24 {
      Arith.ModUnique(n + 1, 24, k, c + 1);
    } else {
      Arith.ModUnique(n + 1, 24, k + 1, 0);
      Arith.ModSucc(k, 6);
    }
  }

  /** From `Default`, the state after `n` ticks is `At(n)`. */
  lemma {:induction false} TicksFromDefault(n: nat)
    ensures Ticks(Default, n) == At(n)
  {
    if n > 0 {
      TicksFromDefault(n - 1);
      NextAt(n - 1);
    }
  }

  /**
   * The radius after the `k`-th wrap of the counter follows the bounce
   * 0, 1, 2, 3, 2, 1, 0, 1, ...; after 72 ticks it has grown to 3 and at the
   * next wrap it starts shrinking.
   */
  lemma WrapRadius(k: nat)
    ensures Ticks(Default, 24 * k).frame == Triangle(k)
    ensures Ticks(Default, 24 * k).counter == 0
  {
    TicksFromDefault(24 * k);
    Arith.ModUnique(24 * k, 24, k, 0);
  }

  /**
   * 72 ticks (three wraps) grow the radius from 0 to 3, and the next wrap
   * starts shrinking it; the same holds at that phase of every later cycle.
   */
  lemma GrowsThenShrinks(n: nat)
    requires n % 144 == 72
    ensures Ticks(Default, n).frame == 3
    ensures Ticks(Default, n + 24).frame == 2
  {
    TicksFromDefault(n);
    TicksFromDefault(n + 24);
    var j := n / 144;
    assert n == 144 * j + 72;
    Arith.ModUnique(n, 24, 6 * j + 3, 0);
    Arith.ModUnique(n + 24, 24, 6 * j + 4, 0);
    Arith.ModUnique(6 * j + 3, 6, j, 3);
    Arith.ModUnique(6 * j + 4, 6, j, 4);
  }

  /**
   * The radius sequence repeats every 144 ticks; the whole state does too
   * once the first wrap has happened (before it, `direction` is still the
   * default's false, while at the same phase of later cycles it is true).
   */
  lemma Period(n: nat)
    ensures Ticks(Default, n + 144).frame == Ticks(Default, n).frame
    ensures n >= 24 <==> Ticks(Default, n + 144) == Ticks(Default, n)
  {
    TicksFromDefault(n);
    TicksFromDefault(n + 144);
    var k := n / 24;
    var c := n % 24;
    assert n == k * 24 + c;
    Arith.ModUnique(n + 144, 24, k + 6, c);
    Arith.ModUnique(k + 6, 6, k / 6 + 1, k % 6);
    if n < 24 {
      assert k == 0;
    } else {
      assert k > 0;
    }
  }

  /** Every state reached from `Default` is `Valid`. */
  lemma ReachableValid(n: nat)
    ensures Valid(Ticks(Default, n))
  {
    TicksFromDefault(n);
  }

  /**
   * The source's ring test: the cell is on a vertical side at `frame` or
   * `7 - frame` within the rows `frame ..= 7 - frame`, or on a horizontal
   * side likewise.
   */
  predicate OnRing(x: nat, y: nat, frame: nat)
    requires frame <= 7
  {
    || ((x == frame || x == 7 - frame) && frame <= y <= 7 - frame)
    || ((y == frame || y == 7 - frame) && frame <= x <= 7 - frame)
  }

  /** How many cells separate `(x, y)` from the nearest edge of the grid. */
  function EdgeDistance(x: nat, y: nat): int
    requires x < 8 && y < 8
  {
    Arith.Min(Arith.Min(x, 7 - x), Arith.Min(y, 7 - y))
  }

  /** The ring test holds exactly for the cells at distance `frame` from the edge. */
  lemma RingIsEdgeDistance(x: nat, y: nat, frame: nat)
    requires x < 8 && y < 8 && frame <= 7
    ensures OnRing(x, y, frame) <==> EdgeDistance(x, y) == frame
  {
  }

  /**
   * `Squares::to_list`: white on the ring at distance `frame` from the
   * edge, black elsewhere. `7 - frame` is computed, so `frame` must not
   * exceed 7.
   */
  function Render(s: State): (f: Frame)
    requires s.frame <= 7
    ensures forall k :: 0 <= k < 64 ==> f[k] == if EdgeDistance(Col(k), Row(k)) == s.frame then White else Black
  {
    var f := seq(64, k requires 0 <= k < 64 => if OnRing(Col(k), Row(k), s.frame) then White else Black);
    assert |f| == 64;
    assert forall k :: 0 <= k < 64 ==> OnRing(Col(k), Row(k), s.frame) == (EdgeDistance(Col(k), Row(k)) == s.frame);
    f
  }

  /** The outline is symmetric: a quarter turn leaves the rendered frame unchanged. */
  lemma RenderQuarterTurnInvariant(s: State)
    requires s.frame <= 7
    ensures Rotations.Rotate90(Render(s)) == Render(s)
  {
    var f := Render(s);
    forall k | 0 <= k < 64
      ensures Rotations.Rotate90(f)[k] == f[k]
    {
      var src := Rotations.Source(Rotations.Quarter, Row(k), Col(k));
      assert Row(src) == 7 - Col(k) && Col(src) == Row(k);
      assert EdgeDistance(Col(src), Row(src)) == EdgeDistance(Col(k), Row(k));
    }
  }
}
