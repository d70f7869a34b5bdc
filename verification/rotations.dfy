/**
 * The three grid rotations of the animation module.
 *
 * Each rotation is an index permutation of the flat 64-pixel buffer. The
 * firmware writes it as a scatter: the pixel at row `i`, column `j` is
 * copied to a fixed target index. Here the same rotation is also given as
 * a gather (`Apply`), and the scatter loop is proved to compute it.
 */
module Rotations {
  import opened Pixels

  /** The rotations used by the control loop; `Identity` is "no rotation". */
  datatype Rotation = Identity | Quarter | Half | ThreeQuarters

  /** Index the firmware writes the pixel at row `i`, column `j` to. */
  function Target(rot: Rotation, i: nat, j: nat): (k: nat)
    requires i < 8 && j < 8
    ensures k < 64
  {
    match rot
    case Identity => Index(i, j)
    case Quarter => Index(j, 7 - i)
    case Half => Index(7 - i, 7 - j)
    case ThreeQuarters => Index(7 - j, i)
  }

  /** Index of the pixel that lands at row `r`, column `c` of the result. */
  function Source(rot: Rotation, r: nat, c: nat): (k: nat)
    requires r < 8 && c < 8
    ensures k < 64
    ensures Target(rot, Row(k), Col(k)) == Index(r, c)
  {
    match rot
    case Identity => Index(r, c)
    case Quarter => Index(7 - c, r)
    case Half => Index(7 - r, 7 - c)
    case ThreeQuarters => Index(c, 7 - r)
  }

  /** The rotated buffer, pixel by pixel. */
  function Apply(rot: Rotation, data: Frame): Frame {
    seq(64, k requires 0 <= k < 64 => data[Source(rot, Row(k), Col(k))])
  }

  /** `rotate_90`: the pixel at row `i`, column `j` moves to row `j`, column `7 - i`. */
  function Rotate90(data: Frame): (r: Frame)
    ensures forall i, j :: 0 <= i < 8 && 0 <= j < 8 ==> r[Index(j, 7 - i)] == data[Index(i, j)]
  {
    GatherAtTargets(Quarter, data);
    Apply(Quarter, data)
  }

  /** `rotate_180`: the pixel at row `i`, column `j` moves to row `7 - i`, column `7 - j`. */
  function Rotate180(data: Frame): (r: Frame)
    ensures forall i, j :: 0 <= i < 8 && 0 <= j < 8 ==> r[Index(7 - i, 7 - j)] == data[Index(i, j)]
  {
    GatherAtTargets(Half, data);
    Apply(Half, data)
  }

  /** `rotate_270`: the pixel at row `i`, column `j` moves to row `7 - j`, column `i`. */
  function Rotate270(data: Frame): (r: Frame)
    ensures forall i, j :: 0 <= i < 8 && 0 <= j < 8 ==> r[Index(7 - j, i)] == data[Index(i, j)]
  {
    GatherAtTargets(ThreeQuarters, data);
    Apply(ThreeQuarters, data)
  }

  /** The gathered rotation holds every source pixel at the index the firmware writes it to. */
  lemma GatherAtTargets(rot: Rotation, data: Frame)
    ensures forall i, j :: 0 <= i < 8 && 0 <= j < 8 ==> Apply(rot, data)[Target(rot, i, j)] == data[Index(i, j)]
  {
    forall i, j | 0 <= i < 8 && 0 <= j < 8
      ensures Apply(rot, data)[Target(rot, i, j)] == data[Index(i, j)]
    {
      SourceOfTarget(rot, i, j);
    }
  }

  /**
   * The firmware's scatter loop: start from a black buffer and copy each
   * source pixel to its target index. The result is the rotation, and every
   * source pixel is found at its target.
   */
  method Scatter(rot: Rotation, data: Frame) returns (out: Frame)
    ensures out == Apply(rot, data)
    ensures forall i, j :: 0 <= i < 8 && 0 <= j < 8 ==> out[Target(rot, i, j)] == data[Index(i, j)]
  {
    out := seq(64, _ => Black);
    var i := 0;
    while i < 8
      invariant 0 <= i <= 8
      invariant Placed(rot, data, out, 8 * i)
    {
      var j := 0;
      while j < 8
        invariant 0 <= j <= 8
        invariant Placed(rot, data, out, 8 * i + j)
      {
        PlaceOne(rot, data, out, i, j);
        out := out[Target(rot, i, j) := data[Index(i, j)]];
        j := j + 1;
      }
      i := i + 1;
    }
    forall i, j | 0 <= i < 8 && 0 <= j < 8
      ensures out[Target(rot, i, j)] == data[Index(i, j)]
    {
      var p := Index(i, j);
    }
    ScatterIsGather(rot, data, out);
  }

  /** The first `n` source pixels, in flat order, are at their targets in `out`. */
  predicate Placed(rot: Rotation, data: Frame, out: Frame, n: nat)
    requires n <= 64
  {
    forall p :: 0 <= p < n ==> out[Target(rot, Row(p), Col(p))] == data[p]
  }

  /** One write of the scatter loop keeps every earlier write and places the next pixel. */
  lemma PlaceOne(rot: Rotation, data: Frame, out: Frame, i: nat, j: nat)
    requires i < 8 && j < 8
    requires Placed(rot, data, out, 8 * i + j)
    ensures Placed(rot, data, out[Target(rot, i, j) := data[Index(i, j)]], 8 * i + j + 1)
  {
    var out' := out[Target(rot, i, j) := data[Index(i, j)]];
    TargetsDistinct(rot, i, j);
    forall p | 0 <= p < 8 * i + j + 1
      ensures out'[Target(rot, Row(p), Col(p))] == data[p]
    {
      IndexOfRowCol(p);
    }
  }

  /** `Source` inverts `Target`: the pixel sent to a target is read back from there. */
  lemma SourceOfTarget(rot: Rotation, i: nat, j: nat)
    requires i < 8 && j < 8
    ensures Source(rot, Row(Target(rot, i, j)), Col(Target(rot, i, j))) == Index(i, j)
  {
  }

  /** Distinct source pixels have distinct targets, so no write of the scatter is overwritten. */
  lemma TargetsDistinct(rot: Rotation, i: nat, j: nat)
    requires i < 8 && j < 8
    ensures forall i', j' :: 0 <= i' < 8 && 0 <= j' < 8 && Target(rot, i', j') == Target(rot, i, j) ==> i' == i && j' == j
  {
    forall i', j' | 0 <= i' < 8 && 0 <= j' < 8 && Target(rot, i', j') == Target(rot, i, j)
      ensures i' == i && j' == j
    {
      SourceOfTarget(rot, i', j');
      SourceOfTarget(rot, i, j);
      assert Index(i', j') == Index(i, j);
    }
  }

  /** A frame that holds every source pixel at its target is the gathered rotation. */
  lemma ScatterIsGather(rot: Rotation, data: Frame, out: Frame)
    requires forall i, j :: 0 <= i < 8 && 0 <= j < 8 ==> out[Target(rot, i, j)] == data[Index(i, j)]
    ensures out == Apply(rot, data)
  {
    forall k | 0 <= k < 64
      ensures out[k] == Apply(rot, data)[k]
    {
      var s := Source(rot, Row(k), Col(k));
      IndexOfRowCol(k);
      IndexOfRowCol(s);
      assert out[Target(rot, Row(s), Col(s))] == data[Index(Row(s), Col(s))];
    }
  }

  /** Rotating a quarter turn twice is a half turn. */
  lemma QuarterTwiceIsHalf(data: Frame)
    ensures Rotate90(Rotate90(data)) == Rotate180(data)
  {
    forall k | 0 <= k < 64
      ensures Rotate90(Rotate90(data))[k] == Rotate180(data)[k]
    {
      IndexOfRowCol(k);
      var s := Source(Quarter, Row(k), Col(k));
      assert s == Index(7 - Col(k), Row(k));
      assert Source(Quarter, Row(s), Col(s)) == Source(Half, Row(k), Col(k));
    }
  }

  /** `rotate_270` undoes `rotate_90`. */
  lemma ThreeQuartersUndoesQuarter(data: Frame)
    ensures Rotate270(Rotate90(data)) == data
  {
    forall k | 0 <= k < 64
      ensures Rotate270(Rotate90(data))[k] == data[k]
    {
      IndexOfRowCol(k);
      var s := Source(ThreeQuarters, Row(k), Col(k));
      assert s == Index(Col(k), 7 - Row(k));
      assert Source(Quarter, Row(s), Col(s)) == Index(Row(k), Col(k));
    }
  }

  /** `rotate_90` undoes `rotate_270`. */
  lemma QuarterUndoesThreeQuarters(data: Frame)
    ensures Rotate90(Rotate270(data)) == data
  {
    forall k | 0 <= k < 64
      ensures Rotate90(Rotate270(data))[k] == data[k]
    {
      IndexOfRowCol(k);
      var s := Source(Quarter, Row(k), Col(k));
      assert s == Index(7 - Col(k), Row(k));
      assert Source(ThreeQuarters, Row(s), Col(s)) == Index(Row(k), Col(k));
    }
  }

  /** A half turn composed with a quarter turn is `rotate_270`. */
  lemma HalfThenQuarterIsThreeQuarters(data: Frame)
    ensures Rotate90(Rotate180(data)) == Rotate270(data)
  {
    forall k | 0 <= k < 64
      ensures Rotate90(Rotate180(data))[k] == Rotate270(data)[k]
    {
      HalfThenQuarterAt(data, k);
    }
  }

  /** The pixel-wise step of `HalfThenQuarterIsThreeQuarters`. */
  lemma HalfThenQuarterAt(data: Frame, k: nat)
    requires k < 64
    ensures Rotate90(Rotate180(data))[k] == Rotate270(data)[k]
  {
    IndexOfRowCol(k);
    var i, j := Col(k), 7 - Row(k);
    assert k == Index(7 - j, i);
    assert Rotate180(data)[Index(7 - i, 7 - j)] == data[Index(i, j)];
  }

  /** `rotate_180` is its own inverse. */
  lemma HalfTwiceIsIdentity(data: Frame)
    ensures Rotate180(Rotate180(data)) == data
  {
    forall k | 0 <= k < 64
      ensures Rotate180(Rotate180(data))[k] == data[k]
    {
      IndexOfRowCol(k);
      var s := Source(Half, Row(k), Col(k));
      assert s == Index(7 - Row(k), 7 - Col(k));
      assert Source(Half, Row(s), Col(s)) == Index(Row(k), Col(k));
    }
  }

  /** Four quarter turns give back the buffer. */
  lemma QuarterFourTimesIsIdentity(data: Frame)
    ensures Rotate90(Rotate90(Rotate90(Rotate90(data)))) == data
  {
    QuarterTwiceIsHalf(data);
    QuarterTwiceIsHalf(Rotate180(data));
    HalfTwiceIsIdentity(data);
  }

  /** A quarter turn followed by a half turn is `rotate_270`. */
  lemma QuarterThenHalfIsThreeQuarters(data: Frame)
    ensures Rotate180(Rotate90(data)) == Rotate270(data)
  {
    forall k | 0 <= k < 64
      ensures Rotate180(Rotate90(data))[k] == Rotate270(data)[k]
    {
      QuarterThenHalfAt(data, k);
    }
  }

  /** The pixel-wise step of `QuarterThenHalfIsThreeQuarters`. */
  lemma QuarterThenHalfAt(data: Frame, k: nat)
    requires k < 64
    ensures Rotate180(Rotate90(data))[k] == Rotate270(data)[k]
  {
    IndexOfRowCol(k);
    var i, j := Col(k), 7 - Row(k);
    assert k == Index(7 - j, i);
    assert Rotate90(data)[Index(j, 7 - i)] == data[Index(i, j)];
  }
}
