/**
 * The asset converter: centre-cropping a video frame to a square, and the
 * byte layout of the raw asset the `FromRaw` player reads back.
 */
module VideoToRaw {
  import opened Pixels
  import FromRaw
  import Arith

  /** A decoded frame of `|rows|` rows of `width` samples each (numpy shape `(h, w, ...)`). */
  datatype Image<T> = Image(width: nat, rows: seq<seq<T>>)

  /** Every row holds `width` samples. */
  predicate Rectangular<T>(img: Image<T>) {
    forall i :: 0 <= i < |img.rows| ==> |img.rows[i]| == img.width
  }

  /**
   * The slice `[(len - keep) // 2 : (len + keep) // 2]` that keeps `keep`
   * of `len` positions. It lies within bounds, has exactly `keep` positions,
   * and is centred: the margin after it exceeds the margin before it by 0 or 1.
   */
  function Window(len: nat, keep: nat): (w: (nat, nat))
    requires keep <= len
    ensures w.0 <= w.1 <= len
    ensures w.1 - w.0 == keep
    ensures (len - w.1) - w.0 == 0 || (len - w.1) - w.0 == 1
  {
    ((len - keep) / 2, (len + keep) / 2)
  }

  /** `frame[:, a:b]`. */
  function Columns<T>(img: Image<T>, a: nat, b: nat): (r: Image<T>)
    requires Rectangular(img) && a <= b <= img.width
    ensures Rectangular(r) && r.width == b - a && |r.rows| == |img.rows|
    ensures forall i, j :: 0 <= i < |r.rows| && 0 <= j < r.width ==> r.rows[i][j] == img.rows[i][a + j]
  {
    Image(b - a, seq(|img.rows|, i requires 0 <= i < |img.rows| => img.rows[i][a..b]))
  }

  /** `frame[a:b, :]`. */
  function RowRange<T>(img: Image<T>, a: nat, b: nat): (r: Image<T>)
    requires Rectangular(img) && a <= b <= |img.rows|
    ensures Rectangular(r) && r.width == img.width && |r.rows| == b - a
    ensures forall i, j :: 0 <= i < |r.rows| && 0 <= j < r.width ==> r.rows[i][j] == img.rows[a + i][j]
  {
    Image(img.width, img.rows[a..b])
  }

  /**
   * `crop_to_square`: a wide frame keeps all rows and its centre `h`
   * columns, a tall frame keeps its centre `w` rows and all columns, and a
   * square frame is returned as is. The result is a `min(h, w)` square.
   */
  function CropToSquare<T>(img: Image<T>): (r: Image<T>)
    requires Rectangular(img)
    ensures Rectangular(r)
    ensures |r.rows| == r.width == Arith.Min(|img.rows|, img.width)
    ensures img.width > |img.rows| ==>
      var a := Window(img.width, |img.rows|).0;
      forall i, j :: 0 <= i < |r.rows| && 0 <= j < r.width ==> r.rows[i][j] == img.rows[i][a + j]
    ensures |img.rows| > img.width ==>
      var a := Window(|img.rows|, img.width).0;
      forall i, j :: 0 <= i < |r.rows| && 0 <= j < r.width ==> r.rows[i][j] == img.rows[a + i][j]
    ensures |img.rows| == img.width ==> r == img
  {
    var h := |img.rows|;
    var w := img.width;
    if w > h then
      var win := Window(w, h);
      Columns(img, win.0, win.1)
    else if h > w then
      var win := Window(h, w);
      RowRange(img, win.0, win.1)
    else
      img
  }

  /** Cropping an already square frame changes nothing, so cropping twice is cropping once. */
  lemma CropIdempotent<T>(img: Image<T>)
    requires Rectangular(img)
    ensures CropToSquare(CropToSquare(img)) == CropToSquare(img)
  {
  }

  /** A resized 8x8 RGB frame (numpy shape `(8, 8, 3)`). */
  predicate IsTile(img: Image<RGB>) {
    img.width == 8 && |img.rows| == 8 && forall r :: 0 <= r < 8 ==> |img.rows[r]| == 8
  }

  /** Every frame of the sequence is a tile. */
  predicate AllTiles(frames: seq<Image<RGB>>) {
    forall f {:trigger frames[f]} :: 0 <= f < |frames| ==> IsTile(frames[f])
  }

  /** Channel `k` (red, green, blue) of a pixel. */
  function Channel(p: RGB, k: nat): Byte
    requires k < 3
  {
    if k == 0 then p.r else if k == 1 then p.g else p.b
  }

  /** Position of channel `k` of row `r`, column `c` within one frame's 192 bytes. */
  lemma TilePosition(r: nat, c: nat, k: nat)
    requires r < 8 && c < 8 && k < 3
    ensures (r * 8 + c) * 3 + k < 192
    ensures ((r * 8 + c) * 3 + k) / 24 == r
    ensures (((r * 8 + c) * 3 + k) % 24) / 3 == c
    ensures ((r * 8 + c) * 3 + k) % 3 == k
  {
  }

  /** The 192 bytes of one tile, rows then columns then channels. */
  function EncodeTile(t: Image<RGB>): (bytes: seq<Byte>)
    requires IsTile(t)
    ensures |bytes| == 192
    ensures forall r, c, k :: 0 <= r < 8 && 0 <= c < 8 && 0 <= k < 3 ==>
      bytes[(r * 8 + c) * 3 + k] == Channel(t.rows[r][c], k)
  {
    var bytes := seq(192, b requires 0 <= b < 192 => Channel(t.rows[b / 24][(b % 24) / 3], b % 3));
    assert |bytes| == 192;
    assert forall r, c, k :: 0 <= r < 8 && 0 <= c < 8 && 0 <= k < 3 ==>
      bytes[(r * 8 + c) * 3 + k] == Channel(t.rows[r][c], k) by {
      forall r, c, k | 0 <= r < 8 && 0 <= c < 8 && 0 <= k < 3
        ensures bytes[(r * 8 + c) * 3 + k] == Channel(t.rows[r][c], k)
      {
        TilePosition(r, c, k);
      }
    }
    bytes
  }

  /**
   * The raw asset: a memmap of shape `(frames, 8, 8, 3)` in C order, so
   * channel `k` of row `r`, column `c` of frame `f` is byte
   * `f * 192 + (r * 8 + c) * 3 + k`.
   */
  function Encode(frames: seq<Image<RGB>>): (blob: seq<Byte>)
    requires AllTiles(frames)
    ensures |blob| == |frames| * 192
    ensures forall f, r, c, k :: 0 <= f < |frames| && 0 <= r < 8 && 0 <= c < 8 && 0 <= k < 3 ==>
      blob[f * 192 + (r * 8 + c) * 3 + k] == Channel(frames[f].rows[r][c], k)
  {
    if |frames| == 0 then []
    else
      var init := Encode(frames[..|frames| - 1]);
      var last := EncodeTile(frames[|frames| - 1]);
      assert forall f, r, c, k :: 0 <= f < |frames| && 0 <= r < 8 && 0 <= c < 8 && 0 <= k < 3 ==>
        (init + last)[f * 192 + (r * 8 + c) * 3 + k] == Channel(frames[f].rows[r][c], k) by {
        forall f, r, c, k | 0 <= f < |frames| && 0 <= r < 8 && 0 <= c < 8 && 0 <= k < 3
          ensures (init + last)[f * 192 + (r * 8 + c) * 3 + k] == Channel(frames[f].rows[r][c], k)
        {
          TilePosition(r, c, k);
          var pos := (r * 8 + c) * 3 + k;
          if f < |frames| - 1 {
            assert frames[..|frames| - 1][f] == frames[f];
            assert f * 192 + pos < |init|;
            assert (init + last)[f * 192 + pos] == init[f * 192 + pos];
          } else {
            assert f * 192 + pos - |init| == pos;
            assert (init + last)[f * 192 + pos] == last[pos];
          }
        }
      }
      init + last
  }

  /**
   * Converter and player agree on the layout: an asset of one or more
   * tiles is accepted, has one frame per tile, and after `f` ticks the
   * player shows row `r`, column `c` of tile `f` at the pixel of row `r`,
   * column `c`.
   */
  lemma {:induction false} PlaybackRoundTrip(frames: seq<Image<RGB>>, f: nat, r: nat, c: nat)
    requires 0 < |frames|
    requires AllTiles(frames)
    requires f < |frames| && r < 8 && c < 8
    ensures FromRaw.New(Encode(frames)).Ok?
    ensures FromRaw.New(Encode(frames)).value.numFrames == |frames|
    ensures FromRaw.Render(FromRaw.Ticks(FromRaw.New(Encode(frames)).value, f))[Index(r, c)] == frames[f].rows[r][c]
  {
    var blob := Encode(frames);
    LengthInFrames(blob, |frames|);
    var s := FromRaw.New(blob).value;
    assert s.frame == 0 && s.numFrames == |frames| && s.data == blob && FromRaw.Valid(s);
    var t := FromRaw.Ticks(s, f);
    FromRaw.TicksFrame(s, f);
    Arith.ModUnique(f, |frames|, 0, f);
    assert t.frame == f && t.data == blob && FromRaw.Valid(t);
    ShowsTile(frames, t, r, c);
  }

  /** A player over an encoded asset shows the tile of its current frame. */
  lemma {:induction false} ShowsTile(frames: seq<Image<RGB>>, t: FromRaw.State, r: nat, c: nat)
    requires AllTiles(frames)
    requires FromRaw.Valid(t) && t.data == Encode(frames)
    requires r < 8 && c < 8
    ensures t.frame < |frames|
    ensures FromRaw.Render(t)[Index(r, c)] == frames[t.frame].rows[r][c]
  {
    var i := Index(r, c);
    EncodedChannel(frames, t.frame, r, c, 0);
    EncodedChannel(frames, t.frame, r, c, 1);
    EncodedChannel(frames, t.frame, r, c, 2);
    assert FromRaw.Pixel(t, i) == frames[t.frame].rows[r][c];
  }

  /** Channel `k` of row `r`, column `c` of tile `f` sits at `f * 192 + (8 r + c) * 3 + k`. */
  lemma EncodedChannel(frames: seq<Image<RGB>>, f: nat, r: nat, c: nat, k: nat)
    requires AllTiles(frames)
    requires f < |frames| && r < 8 && c < 8 && k < 3
    ensures Encode(frames)[f * 192 + Index(r, c) * 3 + k] == Channel(frames[f].rows[r][c], k)
  {
  }

  /** A blob of `n` whole frames has length divisible by 192 with quotient `n`. */
  lemma LengthInFrames(blob: seq<Byte>, n: nat)
    requires |blob| == n * 192
    ensures |blob| % 192 == 0 && |blob| / 192 == n
  {
  }
}
