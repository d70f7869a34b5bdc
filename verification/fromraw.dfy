/**
 * The `FromRaw` animation: playback of a precomputed byte blob holding
 * 192 bytes (64 pixels of red, green, blue) per frame.
 */
module FromRaw {
  import opened Pixels
  import opened Wrappers
  import Arith

  /** `FromRaw { data, frame, num_frames }`. */
  datatype State = State(data: seq<Byte>, frame: nat, numFrames: nat)

  /** Why construction panics. */
  datatype Error =
    | LengthNotWholeFrames  // the length is not a multiple of 64 * 3
    | NoFrames              // the blob holds no frame at all

  /**
   * What every operation needs: at least one frame, a blob of exactly
   * `numFrames` frames, and a cursor inside it.
   */
  predicate Valid(s: State) {
    && 0 < s.numFrames
    && |s.data| == s.numFrames * 192
    && s.frame < s.numFrames
  }

  /** Byte offset of channel `k` of pixel `i` of frame `frame`. */
  function Offset(frame: nat, i: nat, k: nat): nat {
    frame * 192 + i * 3 + k
  }

  /**
   * `FromRaw::new` as written: it panics exactly when the length is not a
   * multiple of 192, so an empty blob is accepted with zero frames.
   */
  function NewAsWritten(data: seq<Byte>): (r: Result<State, Error>)
    ensures r.Err? <==> |data| % 192 != 0
    ensures r.Ok? ==> r.value.data == data && r.value.frame == 0 && r.value.numFrames * 192 == |data|
  {
    if |data| % 192 != 0 then Err(LengthNotWholeFrames)
    else Ok(State(data, 0, |data| / 64 / 3))
  }

  /**
   * The empty blob gets past `FromRaw::new` but yields a player with no
   * frame: `next` would then take a remainder by zero and `to_list` would
   * read byte 0 of an empty slice.
   */
  lemma EmptyBlobAccepted()
    ensures NewAsWritten([]).Ok?
    ensures NewAsWritten([]).value.numFrames == 0
    ensures !Valid(NewAsWritten([]).value)
  {
  }

  /**
   * The constructor with the check the player needs: it panics when the
   * length is not whole frames or when there is no frame; otherwise the
   * player starts at frame 0 of `len / 192` frames.
   */
  function New(data: seq<Byte>): (r: Result<State, Error>)
    ensures r.Ok? <==> |data| % 192 == 0 && |data| > 0
    ensures r.Ok? ==> Valid(r.value) && r.value.data == data && r.value.frame == 0
    ensures r.Ok? ==> r.value.numFrames == |data| / 192
  {
    match NewAsWritten(data)
    case Err(e) => Err(e)
    case Ok(s) => if s.numFrames == 0 then Err(NoFrames) else Ok(s)
  }

  /** Both bundled assets (1262400 and 36480 bytes) are accepted. */
  lemma BundledAssetsAccepted(badApple: seq<Byte>, rickRoll: seq<Byte>)
    requires |badApple| == 1262400 && |rickRoll| == 36480
    ensures New(badApple).Ok? && New(badApple).value.numFrames == 6575
    ensures New(rickRoll).Ok? && New(rickRoll).value.numFrames == 190
  {
  }

  /** A blob of 193 bytes is rejected. */
  lemma PartialFrameRejected(data: seq<Byte>)
    requires |data| == 193
    ensures New(data) == Err(LengthNotWholeFrames)
  {
  }

  /**
   * `FromRaw::next`: the cursor moves to the following frame, wrapping to
   * frame 0 after the last one. The remainder needs a non-zero frame count.
   */
  function Next(s: State): (r: State)
    requires 0 < s.numFrames
    ensures r.data == s.data && r.numFrames == s.numFrames
    ensures r.frame < r.numFrames
    ensures s.frame + 1 < s.numFrames ==> r.frame == s.frame + 1
    ensures s.frame + 1 == s.numFrames ==> r.frame == 0
    ensures Valid(s) ==> Valid(r)
  {
    s.(frame := (s.frame + 1) % s.numFrames)
  }

  /** Every byte `to_list` reads, at most `frame * 192 + 191`, is inside the blob. */
  lemma ReadsInBounds(s: State, i: nat, k: nat)
    requires Valid(s) && i < 64 && k < 3
    ensures Offset(s.frame, i, k) <= s.frame * 192 + 191
    ensures Offset(s.frame, i, k) < |s.data|
  {
  }

  /** The colour of pixel `i` of the current frame. */
  function Pixel(s: State, i: nat): RGB
    requires Valid(s) && i < 64
  {
    ReadsInBounds(s, i, 0);
    ReadsInBounds(s, i, 2);
    RGB(s.data[Offset(s.frame, i, 0)], s.data[Offset(s.frame, i, 1)], s.data[Offset(s.frame, i, 2)])
  }

  /**
   * `FromRaw::to_list`: pixel `i` is the three bytes at `frame * 192 + 3 i`,
   * taken as red, green and blue with no conversion.
   */
  function Render(s: State): (f: Frame)
    requires Valid(s)
    ensures forall i :: 0 <= i < 64 ==> f[i] == Pixel(s, i)
  {
    var f := seq(64, i requires 0 <= i < 64 => Pixel(s, i));
    assert |f| == 64;
    f
  }

  /** The state after `n` ticks. */
  function Ticks(s: State, n: nat): State
    requires 0 < s.numFrames
    ensures Ticks(s, n).numFrames == s.numFrames
    ensures Ticks(s, n).data == s.data
    ensures Valid(s) ==> Valid(Ticks(s, n))
    decreases n
  {
    if n == 0 then s else Next(Ticks(s, n - 1))
  }

  /** After `n` ticks the cursor has moved `n` frames forward, cyclically. */
  lemma {:induction false} TicksFrame(s: State, n: nat)
    requires Valid(s)
    ensures Ticks(s, n).frame == (s.frame + n) % s.numFrames
  {
    if n > 0 {
      var m := s.numFrames;
      var a := s.frame + (n - 1);
      var prev := Ticks(s, n - 1);
      TicksFrame(s, n - 1);
      assert prev.frame == a % m;
      assert Ticks(s, n).frame == (prev.frame + 1) % m;
      Arith.ModSuccOfMod(a, m);
      assert a + 1 == s.frame + n;
    }
  }

  /** `num_frames` ticks bring the player back to where it started. */
  lemma {:induction false} CycleReturns(s: State)
    requires Valid(s)
    ensures Ticks(s, s.numFrames) == s
  {
    var n := s.numFrames;
    var t := Ticks(s, n);
    TicksFrame(s, n);
    Arith.ModAddSelf(s.frame, n);
    assert t.frame == s.frame;
  }
}
