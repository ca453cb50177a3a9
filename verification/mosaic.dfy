/**
 * The geometry of `thumbnail` in `CI/display.py`: the five downsampled camera
 * images are pasted, flipped or transposed, into a square mosaic with the
 * centre camera in the middle and the four others around it. Unfilled pixels
 * are NaN, modelled as `None`.
 *
 * With `ny`, `nx` the downsampled height and width of a camera image, the
 * mosaic has side `nx + 2 * ny`; every camera occupies a slice given by
 * `Region`, and `Source` says which pixel of the camera image lands at each
 * position of its slice.
 */
module Mosaic {
  import opened Wrappers
  import opened Grids
  import Calibration

  /** A camera's slice of the mosaic: first row, first column, height and width. */
  datatype Slice = Slice(row0: int, col0: int, height: int, width: int)

  predicate InSlice(s: Slice, r: int, c: int)
  {
    s.row0 <= r < s.row0 + s.height && s.col0 <= c < s.col0 + s.width
  }

  predicate IsCamera(cam: string)
  {
    cam in Calibration.Cameras
  }

  /** `ny, nx = 2048 // d, 3072 // d` for a positive downsampling `d`. */
  function Height(d: int): int
    requires d > 0
  {
    2048 / d
  }

  function Width(d: int): int
    requires d > 0
  {
    3072 / d
  }

  /** A camera image is at least as wide as it is high, at every downsampling. */
  lemma WiderThanHigh(d: int)
    requires d > 0
    ensures 0 <= Height(d) <= Width(d)
  {
    var h, w := 2048 / d, 3072 / d;
    assert h * d <= 2048;
    assert 3072 < (w + 1) * d;
    assert h * d < (w + 1) * d;
    assert h < w + 1;
  }

  /** The side of the square mosaic. */
  function Side(ny: int, nx: int): int
  {
    nx + 2 * ny
  }

  /** The first row of the centre camera's slice, `ny + (nx - ny) // 2`. */
  function CentreRow(ny: int, nx: int): int
    requires ny <= nx
  {
    ny + (nx - ny) / 2
  }

  /** Where each camera goes. */
  function Region(cam: string, ny: int, nx: int): (s: Slice)
    requires IsCamera(cam) && 0 <= ny <= nx
    ensures 0 <= s.row0 && s.row0 + s.height <= Side(ny, nx)
    ensures 0 <= s.col0 && s.col0 + s.width <= Side(ny, nx)
    ensures cam in {"CIS", "CIN", "CIC"} ==> s.height == ny && s.width == nx
    ensures cam in {"CIE", "CIW"} ==> s.height == nx && s.width == ny
  {
    if cam == "CIS" then Slice(0, ny, ny, nx)                 // bottom edge, CI/display.py:103
    else if cam == "CIE" then Slice(ny, 0, nx, ny)            // left edge, CI/display.py:105
    else if cam == "CIN" then Slice(ny + nx, ny, ny, nx)      // top edge, CI/display.py:107
    else if cam == "CIW" then Slice(ny, ny + nx, nx, ny)      // right edge, CI/display.py:109
    else Slice(CentreRow(ny, nx), ny, ny, nx)                 // centre, CI/display.py:111-112
  }

  /**
   * The pixel of the camera image shown at position (p, q) of the camera's
   * slice (CI/display.py:102-112): unchanged for CIS; for CIE the columns
   * reversed, then transposed; for CIN and CIC turned half a turn (rows and
   * columns both reversed); for CIW the rows reversed, then transposed.
   */
  function Source(cam: string, ny: int, nx: int, p: int, q: int): (ij: (int, int))
    requires IsCamera(cam) && 0 <= ny <= nx
    requires 0 <= p < Region(cam, ny, nx).height && 0 <= q < Region(cam, ny, nx).width
    ensures 0 <= ij.0 < ny && 0 <= ij.1 < nx
  {
    if cam == "CIS" then (p, q)
    else if cam == "CIE" then (q, nx - 1 - p)
    else if cam == "CIW" then (ny - 1 - q, p)
    else (ny - 1 - p, nx - 1 - q)
  }

  /** Where pixel (i, j) of the camera image lands within the camera's slice. */
  function Target(cam: string, ny: int, nx: int, i: int, j: int): (pq: (int, int))
    requires IsCamera(cam) && 0 <= ny <= nx
    requires 0 <= i < ny && 0 <= j < nx
    ensures 0 <= pq.0 < Region(cam, ny, nx).height && 0 <= pq.1 < Region(cam, ny, nx).width
  {
    if cam == "CIS" then (i, j)
    else if cam == "CIE" then (nx - 1 - j, i)
    else if cam == "CIW" then (j, ny - 1 - i)
    else (ny - 1 - i, nx - 1 - j)
  }

  /** Every pixel of a camera image is shown, where `Target` puts it. */
  lemma TargetThenSource(cam: string, ny: int, nx: int, i: int, j: int)
    requires IsCamera(cam) && 0 <= ny <= nx
    requires 0 <= i < ny && 0 <= j < nx
    ensures Source(cam, ny, nx, Target(cam, ny, nx, i, j).0, Target(cam, ny, nx, i, j).1) == (i, j)
  {
  }

  /** Every position of a slice shows one pixel, and no two positions show the same one. */
  lemma SourceThenTarget(cam: string, ny: int, nx: int, p: int, q: int)
    requires IsCamera(cam) && 0 <= ny <= nx
    requires 0 <= p < Region(cam, ny, nx).height && 0 <= q < Region(cam, ny, nx).width
    ensures Target(cam, ny, nx, Source(cam, ny, nx, p, q).0, Source(cam, ny, nx, p, q).1) == (p, q)
  {
  }

  /** The slices of two different cameras share no pixel. */
  lemma RegionsDisjoint(a: string, b: string, ny: int, nx: int, r: int, c: int)
    requires IsCamera(a) && IsCamera(b) && a != b && 0 <= ny <= nx
    ensures !(InSlice(Region(a, ny, nx), r, c) && InSlice(Region(b, ny, nx), r, c))
  {
  }

  /** A downsampled camera image has the shape its slice expects. */
  predicate Fits(D: Grid<real>, ny: int, nx: int)
  {
    D.Valid() && D.rows == ny && D.cols == nx
  }

  /** The square mosaic before any camera is pasted: NaN everywhere (CI/display.py:96). */
  function Blank(side: nat): (img: seq<seq<Option<real>>>)
    ensures |img| == side && forall r :: 0 <= r < side ==> |img[r]| == side
    ensures forall r, c :: 0 <= r < side && 0 <= c < side ==> img[r][c].None?
  {
    seq(side, r => seq(side, c => None))
  }

  /** The square arrays of the given side. */
  predicate Square(img: seq<seq<Option<real>>>, side: int)
  {
    |img| == side && forall r :: 0 <= r < |img| ==> |img[r]| == side
  }

  /** The value camera `cam` shows at mosaic position (r, c) of its slice. */
  function Shown(cam: string, D: Grid<real>, ny: int, nx: int, r: int, c: int): real
    requires IsCamera(cam) && 0 <= ny <= nx && Fits(D, ny, nx)
    requires InSlice(Region(cam, ny, nx), r, c)
  {
    var s := Region(cam, ny, nx);
    var ij := Source(cam, ny, nx, r - s.row0, c - s.col0);
    D.At(ij.0, ij.1)
  }

  /** One camera pasted, flipped as `Source` says, into its slice; the rest of the mosaic kept. */
  function Paste(img: seq<seq<Option<real>>>, cam: string, D: Grid<real>, ny: int, nx: int): (out: seq<seq<Option<real>>>)
    requires IsCamera(cam) && 0 <= ny <= nx && Fits(D, ny, nx)
    requires Square(img, Side(ny, nx))
    ensures Square(out, Side(ny, nx))
    ensures forall r, c :: 0 <= r < |img| && 0 <= c < |img| ==>
      out[r][c] == if InSlice(Region(cam, ny, nx), r, c) then Some(Shown(cam, D, ny, nx, r, c)) else img[r][c]
  {
    var side := Side(ny, nx);
    seq(side, r requires 0 <= r < side => seq(side, c requires 0 <= c < side =>
      if InSlice(Region(cam, ny, nx), r, c) then Some(Shown(cam, D, ny, nx, r, c)) else img[r][c]))
  }

  /** The loop over `cams`, pasting every camera present. */
  function PasteAll(img: seq<seq<Option<real>>>, frames: map<string, Grid<real>>, cams: seq<string>, ny: int, nx: int): (out: seq<seq<Option<real>>>)
    requires 0 <= ny <= nx && Square(img, Side(ny, nx))
    requires forall k :: 0 <= k < |cams| ==> IsCamera(cams[k])
    requires forall k :: 0 <= k < |cams| && cams[k] in frames ==> Fits(frames[cams[k]], ny, nx)
    ensures Square(out, Side(ny, nx))
    decreases |cams|
  {
    if cams == [] then img
    else
      var next := if cams[0] in frames then Paste(img, cams[0], frames[cams[0]], ny, nx) else img;
      PasteAll(next, frames, cams[1..], ny, nx)
  }

  /**
   * What the loop leaves at (r, c): the value shown by the camera whose slice
   * holds the position, if that camera is present, and the old value otherwise.
   */
  lemma {:induction false} PasteAllAt(img: seq<seq<Option<real>>>, frames: map<string, Grid<real>>, cams: seq<string>,
                                      ny: int, nx: int, r: int, c: int)
    requires 0 <= ny <= nx && Square(img, Side(ny, nx))
    requires forall k :: 0 <= k < |cams| ==> IsCamera(cams[k])
    requires forall k, l :: 0 <= k < l < |cams| ==> cams[k] != cams[l]
    requires forall k :: 0 <= k < |cams| && cams[k] in frames ==> Fits(frames[cams[k]], ny, nx)
    requires 0 <= r < Side(ny, nx) && 0 <= c < Side(ny, nx)
    ensures forall k :: 0 <= k < |cams| && cams[k] in frames && InSlice(Region(cams[k], ny, nx), r, c) ==>
      PasteAll(img, frames, cams, ny, nx)[r][c] == Some(Shown(cams[k], frames[cams[k]], ny, nx, r, c))
    ensures (forall k :: 0 <= k < |cams| && cams[k] in frames ==> !InSlice(Region(cams[k], ny, nx), r, c)) ==>
      PasteAll(img, frames, cams, ny, nx)[r][c] == img[r][c]
    decreases |cams|
  {
    if cams != [] {
      var next := if cams[0] in frames then Paste(img, cams[0], frames[cams[0]], ny, nx) else img;
      PasteAllAt(next, frames, cams[1..], ny, nx, r, c);
      forall k | 0 < k < |cams|
        ensures cams[k] == cams[1..][k - 1]
      {
      }
      if cams[0] in frames && InSlice(Region(cams[0], ny, nx), r, c) {
        forall k | 0 < k < |cams|
          ensures !InSlice(Region(cams[k], ny, nx), r, c)
        {
          RegionsDisjoint(cams[0], cams[k], ny, nx, r, c);
        }
      }
    }
  }

  /** The camera whose slice holds mosaic position (r, c), if any. */
  function Owner(ny: int, nx: int, r: int, c: int): (o: Option<string>)
    requires 0 <= ny <= nx
    ensures o.Some? ==> IsCamera(o.value) && InSlice(Region(o.value, ny, nx), r, c)
    ensures o.None? ==> forall cam :: IsCamera(cam) ==> !InSlice(Region(cam, ny, nx), r, c)
  {
    var cams := Calibration.Cameras;
    if InSlice(Region(cams[0], ny, nx), r, c) then Some(cams[0])
    else if InSlice(Region(cams[1], ny, nx), r, c) then Some(cams[1])
    else if InSlice(Region(cams[2], ny, nx), r, c) then Some(cams[2])
    else if InSlice(Region(cams[3], ny, nx), r, c) then Some(cams[3])
    else if InSlice(Region(cams[4], ny, nx), r, c) then Some(cams[4])
    else None
  }

  /** The failures of the mosaic step. */
  datatype LayoutError =
    | BadDownsampling(d: int)     // `2048 // 0`, or a negative array size
    | ShapeMismatch(cam: string)  // the image does not fit its slice

  /** The first camera, in camera order, whose image is present and does not fit. */
  function Misfit(frames: map<string, Grid<real>>, cams: seq<string>, ny: int, nx: int): (m: Option<string>)
    ensures m.None? <==> forall k :: 0 <= k < |cams| && cams[k] in frames ==> Fits(frames[cams[k]], ny, nx)
    ensures m.Some? ==> m.value in cams && m.value in frames && !Fits(frames[m.value], ny, nx)
    ensures m.Some? ==> exists k :: FirstMisfit(frames, cams, k, ny, nx) && cams[k] == m.value
    decreases |cams|
  {
    if cams == [] then None
    else if cams[0] in frames && !Fits(frames[cams[0]], ny, nx) then
      assert FirstMisfit(frames, cams, 0, ny, nx);
      Some(cams[0])
    else
      var rest := Misfit(frames, cams[1..], ny, nx);
      assert forall k :: 1 <= k < |cams| ==> cams[k] == cams[1..][k - 1];
      MisfitShift(frames, cams, ny, nx, rest);
      rest
  }

  /** `cams[k]` is the first camera of `cams` present in `frames` whose image does not fit. */
  predicate FirstMisfit(frames: map<string, Grid<real>>, cams: seq<string>, k: int, ny: int, nx: int)
  {
    && 0 <= k < |cams| && cams[k] in frames && !Fits(frames[cams[k]], ny, nx)
    && forall j :: 0 <= j < k && cams[j] in frames ==> Fits(frames[cams[j]], ny, nx)
  }

  /** A first misfit in the tail is the first misfit of the whole list once its head fits or is absent. */
  lemma MisfitShift(frames: map<string, Grid<real>>, cams: seq<string>, ny: int, nx: int, rest: Option<string>)
    requires cams != []
    requires cams[0] !in frames || Fits(frames[cams[0]], ny, nx)
    requires rest.Some? ==> exists k :: FirstMisfit(frames, cams[1..], k, ny, nx) && cams[1..][k] == rest.value
    ensures rest.Some? ==> exists k :: FirstMisfit(frames, cams, k, ny, nx) && cams[k] == rest.value
  {
    if rest.Some? {
      var k :| FirstMisfit(frames, cams[1..], k, ny, nx) && cams[1..][k] == rest.value;
      forall j | 0 < j <= k
        ensures cams[j] == cams[1..][j - 1]
      {
      }
      assert FirstMisfit(frames, cams, k + 1, ny, nx);
    }
  }

  /** The mosaic of the downsampled images `frames` at downsampling `d`. */
  function Layout(frames: map<string, Grid<real>>, d: int): (r: Result<Grid<Option<real>>, LayoutError>)
    ensures d <= 0 ==> r == Failure(BadDownsampling(d))
    ensures r.Success? ==> d > 0 && r.value.Valid() && r.value.rows == r.value.cols == Side(Height(d), Width(d))
    ensures d > 0 ==> (r.Success? <==> forall cam :: IsCamera(cam) && cam in frames ==> Fits(frames[cam], Height(d), Width(d)))
  {
    if d <= 0 then Failure(BadDownsampling(d))
    else
      var ny, nx := Height(d), Width(d);
      WiderThanHigh(d);
      var m := Misfit(frames, Calibration.Cameras, ny, nx);
      if m.Some? then Failure(ShapeMismatch(m.value))
      else
        var side := Side(ny, nx);
        Success(Grid(side, side, PasteAll(Blank(side), frames, Calibration.Cameras, ny, nx)))
  }

  /**
   * Every pixel of the mosaic: the value its owner shows when the owner is
   * present, NaN otherwise (the four corners, and the slices of absent cameras).
   */
  lemma LayoutPixel(frames: map<string, Grid<real>>, d: int, r: int, c: int)
    requires Layout(frames, d).Success?
    requires 0 <= r < Layout(frames, d).value.rows && 0 <= c < Layout(frames, d).value.cols
    ensures d > 0 && 0 <= Height(d) <= Width(d)
    ensures var o := Owner(Height(d), Width(d), r, c);
      Layout(frames, d).value.At(r, c) ==
        if o.Some? && o.value in frames then Some(Shown(o.value, frames[o.value], Height(d), Width(d), r, c)) else None
  {
    WiderThanHigh(d);
    var ny, nx := Height(d), Width(d);
    var cams := Calibration.Cameras;
    PasteAllAt(Blank(Side(ny, nx)), frames, cams, ny, nx, r, c);
    var o := Owner(ny, nx, r, c);
    if o.Some? && o.value in frames {
      var k :| 0 <= k < |cams| && cams[k] == o.value;
    } else if o.Some? {
      forall k | 0 <= k < |cams| && cams[k] in frames
        ensures !InSlice(Region(cams[k], ny, nx), r, c)
      {
        RegionsDisjoint(o.value, cams[k], ny, nx, r, c);
      }
    }
  }

  /**
   * Full-size images fit: a 2048 x 3072 camera image downsampled by a
   * positive divisor of 1024 has the shape its slice expects.
   */
  lemma FullFramesFit(data: Grid<real>, d: int, summary: Grid<real> -> real)
    requires data.Valid() && data.rows == 2048 && data.cols == 3072
    requires d > 0 && 1024 % d == 0
    ensures Downsample(data, d, summary).Success?
    ensures Fits(Downsample(data, d, summary).value, Height(d), Width(d))
  {
    FullDivides(d);
  }

  /** A divisor of 1024 divides both sides of a full image. */
  lemma FullDivides(d: int)
    requires d > 0 && 1024 % d == 0
    ensures 2048 % d == 0 && 3072 % d == 0
  {
    var k := 1024 / d;
    assert k * d == 1024;
    MultipleMod(2 * k, d);
    MultipleMod(3 * k, d);
    assert 2048 == (2 * k) * d && 3072 == (3 * k) * d;
  }

  /** A multiple of `d` leaves no remainder. */
  lemma MultipleMod(q: int, d: int)
    requires d > 0
    ensures (q * d) % d == 0
  {
    var x := q * d;
    var p := q - x / d;
    assert x == (x / d) * d + x % d;
    assert p * d == q * d - (x / d) * d;
    MulSign(p, d);
  }

  /** A non-zero multiple of `d` is at least `d` away from zero. */
  lemma MulSign(p: int, d: int)
    requires d > 0
    ensures p >= 1 ==> p * d >= d
    ensures p <= -1 ==> p * d <= -d
  {
  }

  // ---------------------------------------------------------------- thumbnail

  /** A colour limit: a value, or a percentile of all downsampled pixels (`'0.5%'`). */
  datatype Limit = Value(v: real) | Percent(p: real)

  /** How `thumbnail` fails before anything is drawn. */
  datatype ThumbnailError =
    | Unblockable(cam: string, refusal: BlockError)  // `block_view` refuses a camera image
    | NoPixels                                     // a percentile of no images at all
    | EmptyRange(vmin: real, vmax: real)           // the colour range is empty
    | Misplaced(layout: LayoutError)

  /** The mosaic and the colour limits it is drawn with. */
  datatype Thumb = Thumb(image: Grid<Option<real>>, vmin: real, vmax: real)

  /** A camera image with its offset subtracted from every pixel (CI/display.py:57). */
  function Offset(g: Grid<real>, o: real): (r: Grid<real>)
    requires g.Valid()
    ensures r.Valid() && r.rows == g.rows && r.cols == g.cols
    ensures forall i, j :: 0 <= i < g.rows && 0 <= j < g.cols ==> r.At(i, j) == g.At(i, j) - o
  {
    Pointwise(g, x => x - o)
  }

  /**
   * Every camera of `cams` present, in order, downsampled after subtracting
   * its offset (CI/display.py:53-57); the first refusal escapes.
   */
  function DownsampleAll(frames: map<string, Grid<real>>, cams: seq<string>, d: int,
                         summary: Grid<real> -> real, offset: string -> real): (r: Result<map<string, Grid<real>>, (string, BlockError)>)
    requires forall cam :: cam in frames ==> frames[cam].Valid()
    ensures r.Success? ==> forall cam :: cam in r.value <==> cam in cams && cam in frames
    ensures r.Success? ==> forall cam :: cam in r.value ==>
      Downsample(Offset(frames[cam], offset(cam)), d, summary) == Success(r.value[cam])
    ensures r.Failure? ==> (r.error.0 in cams && r.error.0 in frames
      && Downsample(Offset(frames[r.error.0], offset(r.error.0)), d, summary) == Failure(r.error.1))
    ensures r.Failure? ==> exists k :: FirstRefusal(frames, cams, k, d, summary, offset) && cams[k] == r.error.0
    ensures r.Success? <==> forall k :: 0 <= k < |cams| && cams[k] in frames ==>
      Downsample(Offset(frames[cams[k]], offset(cams[k])), d, summary).Success?
    ensures (exists cam :: cam in cams && cam in frames) && d <= 0 ==> r.Failure?
    decreases |cams|
  {
    if cams == [] then Success(map[])
    else
      var rest := DownsampleAll(frames, cams[1..], d, summary, offset);
      assert forall k :: 1 <= k < |cams| ==> cams[k] == cams[1..][k - 1];
      if cams[0] !in frames then
        RefusalShift(frames, cams, d, summary, offset, rest);
        rest
      else
        var D := Downsample(Offset(frames[cams[0]], offset(cams[0])), d, summary);
        if D.Failure? then
          assert FirstRefusal(frames, cams, 0, d, summary, offset);
          Failure((cams[0], D.error))
        else
          RefusalShift(frames, cams, d, summary, offset, rest);
          if rest.Failure? then rest
          else Success(rest.value[cams[0] := D.value])
  }

  /** `cams[k]` is the first camera of `cams` present in `frames` whose image cannot be downsampled. */
  predicate FirstRefusal(frames: map<string, Grid<real>>, cams: seq<string>, k: int, d: int,
                         summary: Grid<real> -> real, offset: string -> real)
    requires forall cam :: cam in frames ==> frames[cam].Valid()
  {
    && 0 <= k < |cams| && cams[k] in frames
    && Downsample(Offset(frames[cams[k]], offset(cams[k])), d, summary).Failure?
    && forall j :: 0 <= j < k && cams[j] in frames ==> Downsample(Offset(frames[cams[j]], offset(cams[j])), d, summary).Success?
  }

  /** A first refusal in the tail is the first refusal of the whole list once its head is known to pass. */
  lemma RefusalShift(frames: map<string, Grid<real>>, cams: seq<string>, d: int, summary: Grid<real> -> real,
                     offset: string -> real, rest: Result<map<string, Grid<real>>, (string, BlockError)>)
    requires forall cam :: cam in frames ==> frames[cam].Valid()
    requires cams != []
    requires cams[0] !in frames || Downsample(Offset(frames[cams[0]], offset(cams[0])), d, summary).Success?
    requires rest.Failure? ==> exists k :: FirstRefusal(frames, cams[1..], k, d, summary, offset) && cams[1..][k] == rest.error.0
    ensures rest.Failure? ==> exists k :: FirstRefusal(frames, cams, k, d, summary, offset) && cams[k] == rest.error.0
  {
    if rest.Failure? {
      var k :| FirstRefusal(frames, cams[1..], k, d, summary, offset) && cams[1..][k] == rest.error.0;
      forall j | 0 < j <= k
        ensures cams[j] == cams[1..][j - 1]
      {
      }
      assert FirstRefusal(frames, cams, k + 1, d, summary, offset);
    }
  }

  /** The pixels of an image, row by row. */
  function Flatten(g: Grid<real>): (xs: seq<real>)
    ensures g.Valid() ==> |xs| == g.rows * g.cols
    decreases |g.cells|
  {
    if g.cells == [] then []
    else
      var rest := Flatten(Grid(if g.rows > 0 then g.rows - 1 else 0, g.cols, g.cells[1..]));
      g.cells[0] + rest
  }

  /** Every downsampled pixel, camera after camera in camera order (CI/display.py:61). */
  function Pool(ds: map<string, Grid<real>>, cams: seq<string>): seq<real>
    decreases |cams|
  {
    if cams == [] then []
    else (if cams[0] in ds then Flatten(ds[cams[0]]) else []) + Pool(ds, cams[1..])
  }

  /** The value of a limit: a value is kept, a percentile is taken of the pool. */
  function LimitValue(lim: Limit, pool: seq<real>, percentile: (seq<real>, real) -> real): real
  {
    match lim
    case Value(v) => v
    case Percent(p) => percentile(pool, p)
  }

  /** The colour limits resolved against the pool of every downsampled pixel, in camera order. */
  function Limits(ds: map<string, Grid<real>>, vmin: Limit, vmax: Limit, percentile: (seq<real>, real) -> real): (real, real)
  {
    var pool := Pool(ds, Calibration.Cameras);
    (LimitValue(vmin, pool, percentile), LimitValue(vmax, pool, percentile))
  }

  /** A percentile limit is asked for but no camera image is present to take it from. */
  predicate NoPixelsFor(frames: map<string, Grid<real>>, vmin: Limit, vmax: Limit)
  {
    (vmin.Percent? || vmax.Percent?) && forall cam :: cam in frames ==> !IsCamera(cam)
  }

  /**
   * `thumbnail(data, ...)` up to the mosaic: downsample every camera present,
   * resolve the colour limits, refuse an empty colour range, lay out the
   * mosaic. Sigma clipping and the percentile are parameters (`offset`,
   * `percentile`); drawing is not modelled.
   */
  function Thumbnail(frames: map<string, Grid<real>>, d: int, summary: Grid<real> -> real, offset: string -> real,
                     vmin: Limit, vmax: Limit, percentile: (seq<real>, real) -> real): (r: Result<Thumb, ThumbnailError>)
    requires forall cam :: cam in frames ==> frames[cam].Valid()
    ensures r.Success? ==> r.value.vmin < r.value.vmax
    ensures r.Success? ==> DownsampleAll(frames, Calibration.Cameras, d, summary, offset).Success?
    ensures r.Success? ==> vmin.Value? ==> r.value.vmin == vmin.v
    ensures r.Success? ==> vmax.Value? ==> r.value.vmax == vmax.v
    ensures r.Success? ==>
      (r.value.vmin, r.value.vmax) == Limits(DownsampleAll(frames, Calibration.Cameras, d, summary, offset).value, vmin, vmax, percentile)
    ensures r.Success? ==> d > 0 && r.value.image.rows == r.value.image.cols == Side(Height(d), Width(d))
    ensures r.Success? ==>
      Layout(DownsampleAll(frames, Calibration.Cameras, d, summary, offset).value, d) == Success(r.value.image)
    // the first camera whose image cannot be downsampled stops everything
    ensures DownsampleAll(frames, Calibration.Cameras, d, summary, offset).Failure? ==>
      r == Failure(Unblockable(DownsampleAll(frames, Calibration.Cameras, d, summary, offset).error.0,
                               DownsampleAll(frames, Calibration.Cameras, d, summary, offset).error.1))
    ensures DownsampleAll(frames, Calibration.Cameras, d, summary, offset).Success? ==>
      (r == Failure(NoPixels) <==> NoPixelsFor(frames, vmin, vmax))
    // past those two, the colour range is empty exactly when the resolved vmin is not below vmax
    ensures DownsampleAll(frames, Calibration.Cameras, d, summary, offset).Success? && !NoPixelsFor(frames, vmin, vmax) ==>
      var lim := Limits(DownsampleAll(frames, Calibration.Cameras, d, summary, offset).value, vmin, vmax, percentile);
      (r == Failure(EmptyRange(lim.0, lim.1)) <==> lim.0 >= lim.1)
    ensures (DownsampleAll(frames, Calibration.Cameras, d, summary, offset).Success? && vmin.Value? && vmax.Value?
             && vmin.v >= vmax.v) ==> r == Failure(EmptyRange(vmin.v, vmax.v))
    // and with a non-empty range the thumbnail is drawn whenever the mosaic can be laid out
    ensures DownsampleAll(frames, Calibration.Cameras, d, summary, offset).Success? && !NoPixelsFor(frames, vmin, vmax)
            && Limits(DownsampleAll(frames, Calibration.Cameras, d, summary, offset).value, vmin, vmax, percentile).0
               < Limits(DownsampleAll(frames, Calibration.Cameras, d, summary, offset).value, vmin, vmax, percentile).1
            && Layout(DownsampleAll(frames, Calibration.Cameras, d, summary, offset).value, d).Success? ==>
      r.Success?
    ensures NoPixelsFor(frames, vmin, vmax) ==> r.Failure? && (r.error.NoPixels? || r.error.Unblockable?)
  {
    var ds := DownsampleAll(frames, Calibration.Cameras, d, summary, offset);
    if ds.Failure? then Failure(Unblockable(ds.error.0, ds.error.1))
    else
      NoneDownsampled(frames, d, summary, offset);
      if (vmin.Percent? || vmax.Percent?) && ds.value == map[] then Failure(NoPixels)
      else
        var lim := Limits(ds.value, vmin, vmax, percentile);
        if lim.0 >= lim.1 then Failure(EmptyRange(lim.0, lim.1))
        else
          var img := Layout(ds.value, d);
          if img.Failure? then Failure(Misplaced(img.error))
          else Success(Thumb(img.value, lim.0, lim.1))
  }

  /** The downsampled images are none at all exactly when no camera image is present. */
  lemma NoneDownsampled(frames: map<string, Grid<real>>, d: int, summary: Grid<real> -> real, offset: string -> real)
    requires forall cam :: cam in frames ==> frames[cam].Valid()
    requires DownsampleAll(frames, Calibration.Cameras, d, summary, offset).Success?
    ensures DownsampleAll(frames, Calibration.Cameras, d, summary, offset).value == map[]
        <==> forall cam :: cam in frames ==> !IsCamera(cam)
  {
    var ds := DownsampleAll(frames, Calibration.Cameras, d, summary, offset).value;
    if ds != map[] {
      var cam :| cam in ds;
      assert cam in frames && IsCamera(cam);
    }
  }

  /**
   * End to end: pixel (i, j) of a present camera's downsampled image, the
   * summary of block (i, j) of the offset-subtracted image, appears in the
   * thumbnail at the place the camera's flip puts it.
   */
  lemma ThumbnailPixel(frames: map<string, Grid<real>>, d: int, summary: Grid<real> -> real, offset: string -> real,
                       vmin: Limit, vmax: Limit, percentile: (seq<real>, real) -> real, cam: string, i: int, j: int)
    requires forall cam :: cam in frames ==> frames[cam].Valid()
    requires Thumbnail(frames, d, summary, offset, vmin, vmax, percentile).Success?
    requires IsCamera(cam) && cam in frames
    requires d > 0 && 0 <= i < Height(d) && 0 <= j < Width(d)
    ensures 0 <= Height(d) <= Width(d)
    ensures BlockView(Offset(frames[cam], offset(cam)), d, d).Success?
    ensures Placed(cam, Height(d), Width(d), i, j).0 < Thumbnail(frames, d, summary, offset, vmin, vmax, percentile).value.image.rows
    ensures Placed(cam, Height(d), Width(d), i, j).1 < Thumbnail(frames, d, summary, offset, vmin, vmax, percentile).value.image.cols
    ensures Thumbnail(frames, d, summary, offset, vmin, vmax, percentile).value.image
              .At(Placed(cam, Height(d), Width(d), i, j).0, Placed(cam, Height(d), Width(d), i, j).1)
         == Some(summary(BlockView(Offset(frames[cam], offset(cam)), d, d).value.At(i, j)))
  {
    WiderThanHigh(d);
    var ny, nx := Height(d), Width(d);
    var ds := DownsampleAll(frames, Calibration.Cameras, d, summary, offset);
    var image := Thumbnail(frames, d, summary, offset, vmin, vmax, percentile).value.image;
    assert Layout(ds.value, d) == Success(image);
    DownsampledAt(frames, d, summary, offset, cam, i, j);
    var D := ds.value[cam];
    ShownAtTarget(cam, D, ny, nx, i, j);
    var r, c := Placed(cam, ny, nx, i, j).0, Placed(cam, ny, nx, i, j).1;
    OwnerOfSlice(cam, ny, nx, r, c);
    LayoutPixel(ds.value, d, r, c);
    assert image.At(r, c) == Some(Shown(cam, D, ny, nx, r, c));
    assert D.At(i, j) == summary(BlockView(Offset(frames[cam], offset(cam)), d, d).value.At(i, j));
  }

  /** The mosaic position at which pixel (i, j) of a camera image is drawn. */
  function Placed(cam: string, ny: int, nx: int, i: int, j: int): (rc: (int, int))
    requires IsCamera(cam) && 0 <= ny <= nx
    requires 0 <= i < ny && 0 <= j < nx
    ensures InSlice(Region(cam, ny, nx), rc.0, rc.1)
    ensures 0 <= rc.0 < Side(ny, nx) && 0 <= rc.1 < Side(ny, nx)
  {
    var s, pq := Region(cam, ny, nx), Target(cam, ny, nx, i, j);
    (s.row0 + pq.0, s.col0 + pq.1)
  }

  /** Position (i, j) of a camera image shows, through the flip, pixel (i, j). */
  lemma ShownAtTarget(cam: string, D: Grid<real>, ny: int, nx: int, i: int, j: int)
    requires IsCamera(cam) && 0 <= ny <= nx && Fits(D, ny, nx)
    requires 0 <= i < ny && 0 <= j < nx
    ensures Shown(cam, D, ny, nx, Placed(cam, ny, nx, i, j).0, Placed(cam, ny, nx, i, j).1) == D.At(i, j)
  {
    TargetThenSource(cam, ny, nx, i, j);
  }

  /** A position inside a camera's slice is owned by that camera. */
  lemma OwnerOfSlice(cam: string, ny: int, nx: int, r: int, c: int)
    requires IsCamera(cam) && 0 <= ny <= nx && InSlice(Region(cam, ny, nx), r, c)
    ensures Owner(ny, nx, r, c) == Some(cam)
  {
    var o := Owner(ny, nx, r, c);
    if o.Some? && o.value != cam {
      RegionsDisjoint(o.value, cam, ny, nx, r, c);
    }
  }

  /** A downsampled pixel of a present camera summarises its block of the offset image. */
  lemma DownsampledAt(frames: map<string, Grid<real>>, d: int, summary: Grid<real> -> real, offset: string -> real,
                      cam: string, i: int, j: int)
    requires forall cam :: cam in frames ==> frames[cam].Valid()
    requires DownsampleAll(frames, Calibration.Cameras, d, summary, offset).Success?
    requires IsCamera(cam) && cam in frames && d > 0
    requires Fits(DownsampleAll(frames, Calibration.Cameras, d, summary, offset).value[cam], Height(d), Width(d))
    requires 0 <= i < Height(d) && 0 <= j < Width(d)
    ensures BlockView(Offset(frames[cam], offset(cam)), d, d).Success?
    ensures DownsampleAll(frames, Calibration.Cameras, d, summary, offset).value[cam].At(i, j)
         == summary(BlockView(Offset(frames[cam], offset(cam)), d, d).value.At(i, j))
  {
    var ds := DownsampleAll(frames, Calibration.Cameras, d, summary, offset).value;
    var g := Offset(frames[cam], offset(cam));
    assert Downsample(g, d, summary) == Success(ds[cam]);
  }
}
