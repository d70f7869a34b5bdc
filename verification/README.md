# LED-matrix badge animations, in Dafny

This project models the firmware of a small wearable badge: an 8×8 NeoPixel
matrix driven by an RP2040, with an LIS3DH accelerometer deciding which
animation plays. It covers:

- the three frame rotations (`rotate_90`, `rotate_180`, `rotate_270`), plus the identity used for `YDown`, that turn a
  64-pixel frame so the picture stays upright (module `Rotations`);
- the animations `Rainbow`, `FromRaw`, `Squares` and `Life`, each a small state
  with `next` (advance one tick) and `to_list` (render 64 pixels) (modules
  `Rainbow`, `FromRaw`, `Squares`, `Life`);
- one pass of the main loop: read the accelerometer, update the orientation
  mode with a ±0.9 g threshold and a dead band, render and advance only the
  animation selected by the mode, rotate it and choose its brightness (module
  `ControlLoop`);
- the offline converter's `crop_to_square` and the `.raw` asset layout it
  writes, proved to play back frame for frame through `FromRaw` (module
  `VideoToRaw`).

Shared pieces: `Pixels` (bytes, colours, frames of exactly 64 pixels, and
row-major `Index`/`Row`/`Col`), `Wrappers` (`Option`, `Result`) and `Arith`
(`Min` and small facts about Euclidean division).

Code the model cannot see is passed in as a parameter: the HSV-to-RGB
conversion of the `smart_leds` crate is `hsv2rgb: Hsv -> RGB`, and the
SipHash 2-4 (`core::hash::SipHasher`) `finish` of the seeded hasher is `finish: (U64, U64, seq<nat>) -> U64`,
applied to the keys and to everything hashed so far. An accelerometer read is
an `Option` of its six bytes (`None` for a failed read). The loop returns the
frame and the brightness scale instead of writing to the LEDs.

Behaviours of the code worth knowing:

- `FromRaw::new` (src/animations/mod.rs:87-96) accepts an empty blob. A blob
  with no frames would make `next` take a remainder by zero, so the model
  rejects it; see "## Findings".
- `Squares` holds every radius for exactly 24 ticks: it shows radius 3 from
  tick 72 to 95 and radius 2 from tick 96 on. After 144 ticks from the
  default state it is at radius 0, counter 0, direction "shrinking", not back
  at its default state. The whole state repeats every 144 ticks only from tick
  24 on (`Squares.Period`).
- `Life::to_list` lights pixel `i` when `data[i % 8][i / 8]` is alive, while
  `Life::new` seeds `data[i][j]` from the digest of one hasher that has by
  then been fed every index `0, 1, …, 8 * i + j` in turn. The board is
  therefore shown transposed with respect to the seeding order. `Life.Render`
  states the code's indexing.
- The tilt test compares an `f32` quotient with `0.9f32`. Because `0.004f32`
  is slightly above 0.004, the scale is 15999.9990234375, and raw ±14400
  (exactly ±0.9 g on paper) already counts as tilted (`ControlLoop.Accel`,
  `ControlLoop.ThresholdReading`).

## Model

| member | source | states |
|---|---|---|
| Rotations.Scatter | src/animations/mod.rs:13-47 | the rotation loops write source pixel (i, j) to its rotated position, and the frame they build equals the gather form `Apply` |
| Rotations.Rotate90 | src/animations/mod.rs:13-23 | `rotate_90` moves the pixel at row i, column j to row j, column 7 - i |
| Rotations.Rotate180 | src/animations/mod.rs:25-35 | `rotate_180` moves the pixel at row i, column j to row 7 - i, column 7 - j |
| Rotations.Rotate270 | src/animations/mod.rs:37-47 | `rotate_270` moves the pixel at row i, column j to row 7 - j, column i |
| Rotations.GatherAtTargets | src/animations/mod.rs:13-47 | the gathered rotation holds every source pixel at the index the firmware writes it to |
| Rotations.SourceOfTarget | src/animations/mod.rs:13-47 | reading back from the index a pixel is written to gives that pixel's own index |
| Rotations.TargetsDistinct | src/animations/mod.rs:13-47 | no two source pixels are written to the same index, so no write is overwritten |
| Rotations.ScatterIsGather | src/animations/mod.rs:13-47 | a frame holding every source pixel at its written index is the gathered rotation |
| Rotations.QuarterTwiceIsHalf | src/animations/mod.rs:13-35 | two quarter turns are the half turn |
| Rotations.QuarterThenHalfIsThreeQuarters | src/animations/mod.rs:13-47 | a quarter turn followed by a half turn is the three-quarter turn |
| Rotations.HalfThenQuarterIsThreeQuarters | src/animations/mod.rs:13-47 | a half turn followed by a quarter turn is the three-quarter turn |
| Rotations.ThreeQuartersUndoesQuarter | src/animations/mod.rs:13-47 | `rotate_270` undoes `rotate_90` on every frame |
| Rotations.QuarterUndoesThreeQuarters | src/animations/mod.rs:13-47 | `rotate_90` undoes `rotate_270` on every frame |
| Rotations.HalfTwiceIsIdentity | src/animations/mod.rs:25-35 | `rotate_180` is its own inverse |
| Rotations.QuarterFourTimesIsIdentity | src/animations/mod.rs:13-23 | four quarter turns give back the original frame |
| Rainbow.Next | src/animations/mod.rs:60-62 | the hue goes up by one and wraps from 255 to 0 |
| Rainbow.Render | src/animations/mod.rs:64-74 | pixel i has hue (hue + 4i) mod 256, saturation 255 and value 32, converted by the HSV conversion |
| Rainbow.TicksHue | src/animations/mod.rs:60-62 | after n ticks the hue is the start hue plus n, mod 256 |
| Rainbow.TicksPeriod | src/animations/mod.rs:60-62 | the rainbow returns to the same state after any multiple of 256 ticks |
| Rainbow.RenderAfterTicks | src/animations/mod.rs:59-74 | after n ticks pixel i has hue (hue + n + 4i) mod 256; from the default state pixel 0 shows hue n mod 256 |
| Rainbow.GradientShifts | src/animations/mod.rs:59-74 | after four ticks each pixel shows the colour the next pixel in flat order showed, so the gradient scrolls |
| FromRaw.NewAsWritten | src/animations/mod.rs:87-96 | the constructor as written: it rejects exactly the lengths that are not whole 192-byte frames and starts at frame 0 |
| FromRaw.EmptyBlobAccepted | src/animations/mod.rs:87-96 | the constructor as written accepts the empty blob with zero frames, a state no later `next` can use |
| FromRaw.New | src/animations/mod.rs:87-96 | a blob is accepted iff it is a positive whole number of frames; the state is then usable, starts at frame 0 and counts length / 192 frames |
| FromRaw.BundledAssetsAccepted | src/animations/mod.rs:76-96 | the bundled Bad Apple (1262400 bytes) and Rick Roll (36480 bytes) blobs hold 6575 and 190 frames |
| FromRaw.PartialFrameRejected | src/animations/mod.rs:88-90 | a blob with a partial frame (193 bytes) is rejected |
| FromRaw.Next | src/animations/mod.rs:100-102 | the frame index moves to the next frame, wraps from the last to 0, and stays within the frame count |
| FromRaw.ReadsInBounds | src/animations/mod.rs:104-115 | every byte `to_list` reads lies inside the current frame and inside the blob |
| FromRaw.Render | src/animations/mod.rs:104-115 | pixel i is bytes 3i, 3i+1 and 3i+2 of the current frame |
| FromRaw.Ticks | src/animations/mod.rs:100-102 | any number of ticks keeps the blob, the frame count and the state's usability |
| FromRaw.TicksFrame | src/animations/mod.rs:100-102 | after n ticks the frame index is the start index plus n, mod the frame count |
| FromRaw.CycleReturns | src/animations/mod.rs:100-102 | after as many ticks as there are frames, the player is back where it started |
| Squares.Next | src/animations/mod.rs:126-145 | the counter counts mod 24; the radius changes, by exactly one, only when the counter wraps; the radius stays in 0..3 |
| Squares.TicksFromDefault | src/animations/mod.rs:118-145 | after n ticks from the default state the radius is the triangle wave 0,1,2,3,2,1 of n / 24 and the counter is n mod 24 |
| Squares.WrapRadius | src/animations/mod.rs:126-145 | at each wrap of the counter the radius is the k-th value of the triangle wave |
| Squares.GrowsThenShrinks | src/animations/mod.rs:126-145 | the radius reaches 3, and 24 ticks later, at the next wrap, it is 2 |
| Squares.Period | src/animations/mod.rs:126-145 | the radius repeats every 144 ticks, and the whole state does so exactly from tick 24 on |
| Squares.ReachableValid | src/animations/mod.rs:126-145 | every state reached from the default has radius at most 3 and counter below 24 |
| Squares.RingIsEdgeDistance | src/animations/mod.rs:150-155 | the pixel test of `to_list` holds iff the pixel's distance to the nearest edge equals the radius |
| Squares.Render | src/animations/mod.rs:147-161 | pixel (x, y) is white iff it lies on the square ring at the current radius, black otherwise |
| Squares.RenderQuarterTurnInvariant | src/animations/mod.rs:147-161 | a quarter turn leaves every Squares frame unchanged |
| Life.New | src/animations/mod.rs:176-191 | cell (i, j) starts alive iff the hash of the indices 0..8i+j written so far is even; the counter starts at 0 |
| Life.Default | src/animations/mod.rs:169-191 | the default board is seeded with keys 0 and 0: cell (i, j) alive iff that hash of 0..8i+j is even, counter 0 |
| Life.CountNeighbors | src/animations/mod.rs:193-208 | the double loop counts the live cells among the eight wrap-around offsets around (x, y), at most 8 |
| Life.NeighbourCountIsLiveAdjacent | src/animations/mod.rs:193-208 | the count equals the number of live cells in the set of torus neighbours of (x, y), which excludes (x, y) itself |
| Life.CellsAreAdjacent | src/animations/mod.rs:195-201 | the eight cells visited are exactly the torus neighbours of (x, y) |
| Life.Generation | src/animations/mod.rs:217-224 | a live cell survives iff it has 2 or 3 live neighbours; a dead cell is born iff it has exactly 3 |
| Life.EmptyStaysEmpty | src/animations/mod.rs:217-224 | an empty board stays empty |
| Life.Next | src/animations/mod.rs:212-225 | the counter counts mod 24 and the board steps one generation exactly when the counter becomes 0 or 12 |
| Life.TicksGenerations | src/animations/mod.rs:212-225 | after n ticks the board has advanced by the number of multiples of 12 crossed by the counter |
| Life.TwelveTicksOneGeneration | src/animations/mod.rs:212-225 | every 12 ticks the board advances exactly one generation, from any state |
| Life.Render | src/animations/mod.rs:227-237 | pixel i is white iff cell data[i mod 8][i / 8] is alive, and black otherwise |
| Life.RenderRoundTrip | src/animations/mod.rs:227-237 | the rendered frame determines the board: reading it back gives the board |
| ControlLoop.BytesOrZero | src/main.rs:121 | a failed read becomes six zero bytes; a good read is kept |
| ControlLoop.I16FromLe | src/main.rs:122-123 | two little-endian bytes decode to the signed 16-bit value with the same bit pattern |
| ControlLoop.Accel | src/main.rs:117-126 | dividing by the `f32` scale 15999.9990234375, a raw reading passes the `0.9f32` threshold iff it is at least 14400, and passes -0.9 iff it is at most -14400 |
| ControlLoop.Reading | src/main.rs:121-123 | x comes from bytes 0-1 and y from bytes 2-3 of a read; a failed read gives acceleration (0, 0) |
| ControlLoop.UpdateMode | src/main.rs:126-134 | X beats Y; each mode is chosen iff its axis passes its threshold, or it was already the mode and both axes are in the dead band |
| ControlLoop.UpdateModeStable | src/main.rs:126-134 | updating twice with the same reading changes nothing more; a decisive reading fixes the mode whatever came before |
| ControlLoop.Init | src/main.rs:105-114 | start-up succeeds iff both blobs are accepted; then rainbow default, seeded Life, both players at frame 0 and mode YDown |
| ControlLoop.Rotation | src/main.rs:137-158 | the rotation of each mode; only YDown (the rainbow) is shown unrotated |
| ControlLoop.Brightness | src/main.rs:137-158 | the brightness scale of each mode; only YDown runs at 255, the others at 25 to 40 |
| ControlLoop.OppositeOrientations | src/main.rs:137-158 | opposite orientations (YDown/YUp, XUp/XDown) show frames half a turn apart |
| ControlLoop.Dispatch | src/main.rs:137-158 | for each mode: the selected animation's frame before it advances, rotated for the mode, at the mode's brightness; only that animation steps |
| ControlLoop.Advance | src/main.rs:137-158 | the state part of a pass: the animation the mode selects takes one `next`, and the other three are left exactly as they were |
| ControlLoop.Step | src/main.rs:119-158 | one pass updates the mode, renders the selected animation before advancing it, rotates it for the mode, sets its brightness, and leaves the other animations unchanged |
| ControlLoop.FailedReadKeepsMode | src/main.rs:121-134 | a failed read never changes the mode |
| ControlLoop.ThresholdReading | src/main.rs:121-126 | raw 14400 (bytes 0x40 0x38) already selects XUp, and raw 14399 keeps the mode |
| ControlLoop.TiltThenLevel | src/main.rs:121-134 | tilting to 0.95 g on X selects XUp, and a level reading afterwards keeps it |
| ControlLoop.RainbowFirst | src/main.rs:137-141 | with the rainbow selected at hue 0 and a failed read, pixel 0 is the colour of hue 0 at brightness 255 |
| ControlLoop.FirstFrame | src/main.rs:109-141 | with the bundled assets start-up succeeds and, on a failed first read, the first frame is rainbow frame 0 at brightness 255 |
| ControlLoop.Run | src/main.rs:119-161 | any number of passes keeps every animation usable; each pass changes the state exactly as `Step` does |
| ControlLoop.InactiveFrozen | src/main.rs:137-158 | an animation whose mode was never selected during a run is left exactly as it was |
| ControlLoop.IdleRun | src/main.rs:119-158 | n failed reads keep the mode and advance only the selected animation, by n ticks |
| VideoToRaw.Window | video_to_raw.py:12-14 | the centred slice lies inside the axis, keeps exactly the short side, and leaves equal margins or one more pixel on the far side |
| VideoToRaw.CropToSquare | video_to_raw.py:8-15 | the result is a square of side min(h, w) cut from the centre of the longer axis; a square frame is returned unchanged |
| VideoToRaw.CropIdempotent | video_to_raw.py:8-15 | cropping a cropped frame changes nothing |
| VideoToRaw.EncodeTile | video_to_raw.py:64-67 | an 8×8 tile is written as 192 bytes, channel k of pixel (r, c) at (8r + c)·3 + k |
| VideoToRaw.Encode | video_to_raw.py:37-67 | the blob holds 192 bytes per frame, frame f's channel k of pixel (r, c) at 192f + (8r + c)·3 + k |
| VideoToRaw.PlaybackRoundTrip | video_to_raw.py:37-67 | a converted video is accepted by the player, has one frame per tile, and after f ticks shows tile f's pixel (r, c) at pixel 8r + c |
| VideoToRaw.ShowsTile | src/animations/mod.rs:104-115 | a player over a converted blob shows, at pixel 8r + c, the tile pixel (r, c) of its current frame |

## Left out

- Hardware bring-up in src/main.rs (clocks, PIO, I2C, the NeoPixel driver and timers): board set-up with no logic to model.
- The LED write and the `brightness` scaling of src/main.rs:159-161: the loop returns the frame and the scale instead.
- The 1/24 s delay at src/main.rs:164: timing is not modelled.
- The HSV-to-RGB conversion of `smart_leds`: it is a parameter `hsv2rgb`, and `Rainbow.Render` states its result in terms of it.
- SipHash 2-4 (`core::hash::SipHasher`) and `Hash for usize`: `finish` is a parameter, and each `usize` written is one element of the sequence it receives.
- The ring-oscillator random keys for `Life::new`: the keys are parameters of `ControlLoop.Init`.
- The LIS3DH driver: a read is `None` or six bytes. The z axis is read but unused by the loop.
- ControlLoop.Accel: the quotient by the scale is taken exactly, using the `f32` values of the scale (15999.9990234375) and of the threshold (0.89999997615814208984375); the rounding of the `f32` division itself is not modelled. That rounding is at most half an `f32` step (about 3e-8 near 0.9), while the reading nearest a threshold, raw ±14400, lies about 8e-8 beyond it, so it cannot change a comparison; this argument is not proved.
- `usize` overflow of the Squares and Life counters and of `FromRaw`'s `frame + 1`: counters stay below 24 and frames below the frame count, so none can overflow; the model uses unbounded naturals.
- `FromRaw.Next`: it requires a positive frame count, because the source takes a remainder by that count; the zero case is the finding below.
- `Squares` is defined in the firmware but not used by the main loop; it is modelled on its own.
- The panic of `FromRaw::new` is an `Err` result; `ControlLoop.Init` fails instead of panicking. Because `Init` uses the corrected `FromRaw.New`, it also fails on an empty blob, where the firmware would start up and panic only later, in `to_list` or `next`; that case cannot arise, because the blobs' array types `&[u8; 1262400]` and `&[u8; 36480]` (src/animations/mod.rs:76, 78) fix their lengths.
- ControlLoop.Run: only finite runs are modelled; the firmware loops forever.
- The video converter's I/O (OpenCV capture, the ffmpeg pipe, memory-mapped output, progress messages) and its 8×8 area resize: the model starts from the 8×8 tiles the resize produces.
- The converter's frame count taken from the container metadata: the model writes exactly the tiles converted. If ffmpeg delivers fewer frames than the container reports, the tail of the memory-mapped file stays zero; if the `-r 24` resampling delivers more (a source below 24 fps), `buffer[i] = frame` raises `IndexError` once `i` reaches the frame count. Neither case is modelled.
- `video_viewer.py`: a preview tool, not part of the firmware.

## Findings

| source | as written | input that shows it | evidently intended | confidence | as-written member | corrected member |
|---|---|---|---|---|---|---|
| src/animations/mod.rs:88-95 | `new` only checks that the length is a multiple of 192, so an empty blob is accepted with `num_frames` 0 | the empty blob `&[]`: `new` succeeds, then `next` computes `(0 + 1) % 0` and `to_list` reads byte 0 of an empty slice | reject a blob that holds no frame, so that `next` and `to_list` are always defined | medium, not executed | FromRaw.EmptyBlobAccepted | FromRaw.New |
