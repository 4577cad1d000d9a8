/** The four pipeline stages: format normalisation (`Convert`), crop to a square
    (`Squarify`), flood-fill background erasure (`Filter`) and downscaling to the
    size budget (`Downscale`). Each stage is a method on the wand, proved equal to a
    function of the wand's state (`Converted`, `Squarified`, `Filtered`,
    `Downscaled`); the lemmas about those functions are in module Properties. */
module Operations {
  import opened Errors
  import opened Magick

  /** The serialised size, in bytes, that the downscaler aims for. */
  const Budget: nat := 128_000

  const Gif: string := "GIF"
  const Png: string := "PNG"

  const PartialCropMessage: string :=
    "If either the X or Y coordinate is or the size specified for the crop operation, all of them need to be present."
  const OutOfBoundsMessage: string :=
    "Invalid crop size, cropping would go outside the boundary of the image."
  const FloodFailedMessage: string := "Failed to flood paint image."

  // ---------------------------------------------------------------------------
  // Per-frame sweeps: "first frame, then every next frame" with early exit.
  // ---------------------------------------------------------------------------

  /** What a stage does to each frame. The fill takes one fuzz for the first frame
      and another for every later frame. */
  datatype FrameOp =
    | CropTo(region: Geometry, page: Geometry)
    | FillFrom(firstFuzz: real, laterFuzz: real)
    | ScaleBy(factor: Scale)

  /** A frame after one stage's work on it, and whether that work succeeded. */
  datatype Step = Step(frame: Frame, status: Result<()>)

  /** The frames after a sweep, its status, and where the cursor was left. */
  datatype Swept = Swept(frames: seq<Frame>, status: Result<()>, cursor: nat)

  /** Crop, then reset the page; a failing reset leaves the frame cropped. */
  function CropStep(lib: Library, f: Frame, region: Geometry, page: Geometry): (r: Step)
    ensures r.status.Err? ==> r.status.error.FromMagick?
    ensures lib.crop(f, region).Failed? ==> r.frame == f && r.status.Err?
    ensures lib.crop(f, region).Done? ==>
              r.frame.log == f.log + [Cropped(region)] &&
              r.frame.width == lib.crop(f, region).value.width && r.frame.height == lib.crop(f, region).value.height
    ensures r.status.Ok? ==> r.frame.page == page
    ensures r.status.Ok? <==> lib.crop(f, region).Done? && lib.resetPage(CropFrame(lib, f, region).value, page).Done?
    ensures lib.crop(f, region).Failed? ==> r.status == Err(FromMagick(lib.crop(f, region).error))
    ensures lib.crop(f, region).Done? && lib.resetPage(CropFrame(lib, f, region).value, page).Failed? ==>
              r.status == Err(FromMagick(lib.resetPage(CropFrame(lib, f, region).value, page).error)) &&
              r.frame.page == f.page
  {
    match CropFrame(lib, f, region)
    case Failed(e) => Step(f, Err(FromMagick(e)))
    case Done(g) =>
      match RepageFrame(lib, g, page)
      case Failed(e) => Step(g, Err(FromMagick(e)))
      case Done(h) => Step(h, Ok(()))
  }

  /** One flood fill from (0, 0), as `filter_frame` performs it. */
  function FillStep(lib: Library, f: Frame, fuzz: real): (r: Step)
    ensures r.status.Ok? <==> lib.floodFill(f, fuzz)
    ensures r.status.Ok? ==>
              r.frame.log == f.log + [FloodFilled(0, 0, fuzz)] &&
              r.frame.width == f.width && r.frame.height == f.height && r.frame.page == f.page
    ensures r.status.Err? ==> r.frame == f && r.status.error == FromMagick(MagickError(FloodFailedMessage))
  {
    if lib.floodFill(f, fuzz) then Step(FillFrame(f, fuzz), Ok(()))
    else Step(f, Err(FromMagick(MagickError(FloodFailedMessage))))
  }

  /** One scaling of a frame by the factor's ratio, as `scale_image` performs it. */
  function ScaleStep(lib: Library, f: Frame, factor: Scale): (r: Step)
    ensures r.status.Ok? <==> lib.scale(f, factor.Ratio()).Done?
    ensures r.status.Ok? ==>
              r.frame.log == f.log + [Scaled(factor)] && r.frame.page == f.page &&
              r.frame.width == lib.scale(f, factor.Ratio()).value.width &&
              r.frame.height == lib.scale(f, factor.Ratio()).value.height
    ensures r.status.Err? ==> r.frame == f && r.status.error == FromMagick(lib.scale(f, factor.Ratio()).error)
  {
    match ScaleFrame(lib, f, factor)
    case Failed(e) => Step(f, Err(FromMagick(e)))
    case Done(g) => Step(g, Ok(()))
  }

  /** The work done on the frame at index `k`. A fill uses the first fuzz on frame 0
      and the later fuzz on every other frame. */
  function Apply(lib: Library, op: FrameOp, k: nat, f: Frame): (r: Step)
    ensures r.status.Err? ==> r.status.error.FromMagick?
    ensures op.FillFrom? && r.status.Ok? ==>
              r.frame.log == f.log + [FloodFilled(0, 0, if k == 0 then op.firstFuzz else op.laterFuzz)]
  {
    match op
    case CropTo(region, page) => CropStep(lib, f, region, page)
    case FillFrom(first, later) => FillStep(lib, f, if k == 0 then first else later)
    case ScaleBy(factor) => ScaleStep(lib, f, factor)
  }

  /** Applies `op` to the frames from index `i` on, in order, stopping at the first
      failure; the cursor ends on the failing frame or on the last frame. */
  function Sweep(lib: Library, op: FrameOp, fs: seq<Frame>, i: nat): (r: Swept)
    requires 0 < |fs| && i <= |fs|
    ensures |r.frames| == |fs| && r.cursor < |fs|
    decreases |fs| - i
  {
    if i == |fs| then Swept(fs, Ok(()), |fs| - 1)
    else
      var step := Apply(lib, op, i, fs[i]);
      if step.status.Err? then Swept(fs[i := step.frame], step.status, i)
      else Sweep(lib, op, fs[i := step.frame], i + 1)
  }

  /** The index of the first frame at or after `i` whose work fails, or |fs|. */
  function FirstFailure(lib: Library, op: FrameOp, fs: seq<Frame>, i: nat): (j: nat)
    requires i <= |fs|
    ensures i <= j <= |fs|
    ensures forall k :: i <= k < j ==> Apply(lib, op, k, fs[k]).status.Ok?
    ensures j < |fs| ==> Apply(lib, op, j, fs[j]).status.Err?
    decreases |fs| - i
  {
    if i == |fs| || Apply(lib, op, i, fs[i]).status.Err? then i
    else FirstFailure(lib, op, fs, i + 1)
  }

  /** The wand after a sweep: new frames and cursor, same format. */
  function AfterSweep(s: WandState, sw: Swept): (t: WandState) {
    WandState(sw.frames, s.format, sw.cursor)
  }

  // ---------------------------------------------------------------------------
  // convert
  // ---------------------------------------------------------------------------

  /** The format decision: a GIF stays GIF, anything else becomes PNG unless no
      background is going to be erased. */
  function Converted(lib: Library, s: WandState, tolerance: real): (r: (WandState, Result<()>))
    ensures r.0.frames == s.frames && r.0.cursor == s.cursor
    ensures r.0.format == s.format || r.0.format == Png
    ensures r.1.Err? ==> r.0 == s && r.1.error.FromMagick?
  {
    if s.format != Gif && tolerance == 0.0 then (s, Ok(()))
    else if s.format != Gif then
      match lib.setFormat(s.frames, Png)
      case Done(_) => (s.(format := Png), Ok(()))
      case Failed(e) => (s, Err(FromMagick(e)))
    else (s, Ok(()))
  }

  method Convert(wand: Wand, tolerance: real) returns (r: Result<()>)
    requires wand.Valid()
    modifies wand
    ensures wand.Valid()
    ensures (wand.State(), r) == Converted(wand.lib, old(wand.State()), tolerance)
  {
    var format := wand.GetImageFormat();
    if format != Gif && tolerance == 0.0 {
      r := Ok(());
    } else if format != Gif {
      var c := wand.SetImageFormat(Png);
      if c.Failed? {
        return Err(FromMagick(c.error));
      }
      r := Ok(());
    } else {
      r := Ok(());
    }
  }

  // ---------------------------------------------------------------------------
  // squarify
  // ---------------------------------------------------------------------------

  /** The crop decided from the settings and the current frame's dimensions:
      nothing to do, or one square region shared by every frame. */
  datatype Plan = Skip | Region(size: int, x: int, y: int)

  /** 1 when a setting is given, 0 when it is not. */
  function Given(o: Option<int>): (c: nat) {
    if o.Some? then 1 else 0
  }

  /** Some but not all of the three crop settings are given. */
  predicate PartialCrop(x: Option<int>, y: Option<int>, size: Option<int>): (r: bool)
    ensures r <==> 1 <= Given(x) + Given(y) + Given(size) <= 2
  {
    (x.Some? || y.Some? || size.Some?) && !(x.Some? && y.Some? && size.Some?)
  }

  /** Integer division by two rounding toward zero, as on a machine integer. */
  function HalfTowardZero(a: int): (r: int)
    ensures 0 <= a ==> 0 <= 2 * r <= a < 2 * r + 2
    ensures a < 0 ==> 2 * r - 2 < a <= 2 * r <= 0
  {
    if a >= 0 then a / 2 else -((-a) / 2)
  }

  /** A signed size reinterpreted as an unsigned 64-bit one. */
  function AsUsize(n: int): (r: usize)
    ensures 0 <= n < 0x1_0000_0000_0000_0000 ==> r == n
    ensures (n - r) % 0x1_0000_0000_0000_0000 == 0
  {
    n % 0x1_0000_0000_0000_0000
  }

  /** The squarify decision. A region is only admitted when it does not reach past
      the right or bottom edge; nothing else about the explicit settings is checked. */
  function CropPlan(width: int, height: int, x: Option<int>, y: Option<int>, size: Option<int>): (r: Result<Plan>)
    ensures r.Err? ==> r.error.InvalidArgument?
    ensures r.Ok? && r.value.Region? ==> r.value.size <= width - r.value.x && r.value.size <= height - r.value.y
  {
    var any := x.Some? || y.Some? || size.Some?;
    if PartialCrop(x, y, size) then Err(InvalidArgument(PartialCropMessage))
    else if width == height && !any then Ok(Skip)
    else
      var smaller := if width <= height then width else height;
      var n := if size.Some? then size.value else smaller;
      var ox := if x.Some? then x.value else HalfTowardZero(width - n);
      var oy := if y.Some? then y.value else HalfTowardZero(height - n);
      if n > width - ox || n > height - oy then Err(InvalidArgument(OutOfBoundsMessage))
      else Ok(Region(n, ox, oy))
  }

  /** The per-frame work of a region: crop to it, then reset the page to
      `size x size + 0 + 0`. */
  function CropOp(n: int, x: int, y: int): (op: FrameOp)
    ensures op.CropTo? && op.page == Geometry(n, n, 0, 0)
    ensures op.region.x == x && op.region.y == y && op.region.width == op.region.height
    ensures 0 <= n < 0x1_0000_0000_0000_0000 ==> op.region.width == n
    ensures 0 <= op.region.width < 0x1_0000_0000_0000_0000 && (op.region.width - n) % 0x1_0000_0000_0000_0000 == 0
  {
    CropTo(Geometry(AsUsize(n), AsUsize(n), x, y), Geometry(n, n, 0, 0))
  }

  function Squarified(lib: Library, s: WandState, x: Option<int>, y: Option<int>, size: Option<int>): (r: (WandState, Result<()>))
    requires s.Valid()
    ensures r.0.Valid() && |r.0.frames| == |s.frames| && r.0.format == s.format
    ensures r.1.Err? && r.1.error.InvalidArgument? ==> r.0 == s
    ensures var plan := CropPlan(s.frames[s.cursor].width, s.frames[s.cursor].height, x, y, size);
            plan.Err? ==> r == (s, Err(plan.error))
    ensures var plan := CropPlan(s.frames[s.cursor].width, s.frames[s.cursor].height, x, y, size);
            plan.Ok? && r.1.Err? ==> r.1.error.FromMagick?
  {
    var current := s.frames[s.cursor];
    match CropPlan(current.width, current.height, x, y, size)
    case Err(e) => (s, Err(e))
    case Ok(Skip) => (s, Ok(()))
    case Ok(Region(n, ox, oy)) =>
      var sw := Sweep(lib, CropOp(n, ox, oy), s.frames, 0);
      assert sw.status.Err? ==> sw.status.error.FromMagick? by { SweepFailsFromMagick(lib, CropOp(n, ox, oy), s.frames, 0); }
      (AfterSweep(s, sw), sw.status)
  }

  /** A sweep only ever fails with a library error. */
  lemma {:induction false} SweepFailsFromMagick(lib: Library, op: FrameOp, fs: seq<Frame>, i: nat)
    requires 0 < |fs| && i <= |fs|
    ensures Sweep(lib, op, fs, i).status.Err? ==> Sweep(lib, op, fs, i).status.error.FromMagick?
    decreases |fs| - i
  {
    if i < |fs| && Apply(lib, op, i, fs[i]).status.Ok? {
      SweepFailsFromMagick(lib, op, fs[i := Apply(lib, op, i, fs[i]).frame], i + 1);
    }
  }

  /** Crops the frame under the cursor to the region and resets its page. */
  method CropCurrent(wand: Wand, n: int, x: int, y: int) returns (r: Result<()>)
    requires wand.Valid()
    modifies wand
    ensures wand.Valid()
    ensures var step := Apply(wand.lib, CropOp(n, x, y), old(wand.cursor), old(wand.frames[wand.cursor]));
            r == step.status && wand.State() == old(wand.State()).(frames := old(wand.frames)[old(wand.cursor) := step.frame])
  {
    var c := wand.CropImage(AsUsize(n), AsUsize(n), x, y);
    if c.Failed? {
      assert old(wand.frames)[wand.cursor := old(wand.frames[wand.cursor])] == old(wand.frames);
      return Err(FromMagick(c.error));
    }
    c := wand.ResetImagePage(Geometry(n, n, 0, 0));
    if c.Failed? {
      return Err(FromMagick(c.error));
    }
    r := Ok(());
  }

  /** Crops every frame, from the first, to the square region and resets its page. */
  method CropAll(wand: Wand, n: int, x: int, y: int) returns (r: Result<()>)
    requires wand.Valid()
    modifies wand
    ensures wand.Valid()
    ensures var sw := Sweep(wand.lib, CropOp(n, x, y), old(wand.frames), 0);
            wand.State() == AfterSweep(old(wand.State()), sw) && r == sw.status
  {
    ghost var op := CropOp(n, x, y);
    ghost var start := wand.frames;
    wand.SetFirstIterator();
    r := CropCurrent(wand, n, x, y);
    if r.Err? {
      return;
    }
    assert Sweep(wand.lib, op, start, 0) == Sweep(wand.lib, op, wand.frames, 1);
    var more := wand.NextImage();
    while more
      invariant wand.Valid() && |wand.frames| == |start| && wand.format == old(wand.format)
      invariant !more ==> wand.cursor + 1 == |wand.frames|
      invariant Sweep(wand.lib, op, wand.frames, if more then wand.cursor else wand.cursor + 1) == Sweep(wand.lib, op, start, 0)
      decreases |wand.frames| - wand.cursor, more
    {
      r := CropCurrent(wand, n, x, y);
      if r.Err? {
        return;
      }
      more := wand.NextImage();
    }
    r := Ok(());
  }

  method Squarify(wand: Wand, x: Option<int>, y: Option<int>, size: Option<int>) returns (r: Result<()>)
    requires wand.Valid()
    modifies wand
    ensures wand.Valid()
    ensures (wand.State(), r) == Squarified(wand.lib, old(wand.State()), x, y, size)
  {
    if PartialCrop(x, y, size) {
      return Err(InvalidArgument(PartialCropMessage));
    }
    var width := wand.GetImageWidth();
    var height := wand.GetImageHeight();
    var plan := CropPlan(width, height, x, y, size);
    if plan.Err? {
      return Err(plan.error);
    }
    if plan.value.Skip? {
      return Ok(());
    }
    r := CropAll(wand, plan.value.size, plan.value.x, plan.value.y);
  }

  // ---------------------------------------------------------------------------
  // filter
  // ---------------------------------------------------------------------------

  /** The flood-fill fuzz for a tolerance given in percent: that share of the
      16-bit channel range. */
  function FuzzOf(tolerance: real): (fuzz: real)
    ensures fuzz == tolerance / 100.0 * 65535.0
    ensures 0.0 <= tolerance <= 100.0 ==> 0.0 <= fuzz <= 65535.0
  {
    tolerance * (0.01 * 65535.0)
  }

  /** The erasure: nothing at zero tolerance; otherwise a flood fill of every frame
      in order, the first with the fuzz of the tolerance and every later one with
      the tolerance itself. */
  function Filtered(lib: Library, s: WandState, tolerance: real): (r: (WandState, Result<()>))
    requires s.Valid()
    ensures r.0.Valid() && |r.0.frames| == |s.frames| && r.0.format == s.format
    ensures r.1.Err? ==> r.1.error.FromMagick?
  {
    if tolerance == 0.0 then (s, Ok(()))
    else
      var sw := Sweep(lib, FillFrom(FuzzOf(tolerance), tolerance), s.frames, 0);
      assert sw.status.Err? ==> sw.status.error.FromMagick? by {
        SweepFailsFromMagick(lib, FillFrom(FuzzOf(tolerance), tolerance), s.frames, 0);
      }
      (AfterSweep(s, sw), sw.status)
  }

  method FilterFrame(wand: Wand, fuzz: real) returns (r: Result<()>)
    requires wand.Valid()
    modifies wand
    ensures wand.Valid()
    ensures r == FillStep(wand.lib, old(wand.frames[wand.cursor]), fuzz).status
    ensures wand.State() == old(wand.State()).(frames := old(wand.frames)[old(wand.cursor) := FillStep(wand.lib, old(wand.frames[wand.cursor]), fuzz).frame])
  {
    var ok := wand.FloodfillPaintImage(fuzz);
    if ok {
      r := Ok(());
    } else {
      assert old(wand.frames)[old(wand.cursor) := old(wand.frames[wand.cursor])] == old(wand.frames);
      r := Err(FromMagick(MagickError(FloodFailedMessage)));
    }
  }

  method Filter(wand: Wand, tolerance: real) returns (r: Result<()>)
    requires wand.Valid()
    modifies wand
    ensures wand.Valid()
    ensures (wand.State(), r) == Filtered(wand.lib, old(wand.State()), tolerance)
  {
    if tolerance == 0.0 {
      return Ok(());
    }
    var fuzz := tolerance * (0.01 * 65535.0);
    ghost var op := FillFrom(fuzz, tolerance);
    ghost var start := wand.frames;

    wand.SetFirstIterator();
    r := FilterFrame(wand, fuzz);
    if r.Err? {
      return;
    }
    assert Sweep(wand.lib, op, start, 0) == Sweep(wand.lib, op, wand.frames, 1);
    var more := wand.NextImage();
    while more
      invariant wand.Valid() && |wand.frames| == |start| && wand.format == old(wand.format)
      invariant !more ==> wand.cursor + 1 == |wand.frames|
      invariant more ==> 0 < wand.cursor
      invariant Sweep(wand.lib, op, wand.frames, if more then wand.cursor else wand.cursor + 1) == Sweep(wand.lib, op, start, 0)
      decreases |wand.frames| - wand.cursor, more
    {
      r := FilterFrame(wand, tolerance);
      if r.Err? {
        return;
      }
      more := wand.NextImage();
    }
    r := Ok(());
  }

  // ---------------------------------------------------------------------------
  // downscale
  // ---------------------------------------------------------------------------

  /** The scale factor for a serialised size: 0.95 below 256,000 bytes, 0.90 up to
      999,999 bytes, 0.50 from 1,000,000 bytes on. */
  function Bracket(size: nat): (s: Scale)
    ensures size > Budget ==> (s == Gentle <==> size < 256_000)
    ensures size > Budget ==> (s == Moderate <==> 256_000 <= size < 1_000_000)
    ensures size > Budget ==> (s == Halve <==> 1_000_000 <= size)
  {
    if 1 <= size <= 255_999 then Gentle
    else if 256_000 <= size <= 999_999 then Moderate
    else Halve
  }

  /** The serialised size of the wand, in its own format. */
  function BlobSize(lib: Library, s: WandState): (r: Result<nat>)
    ensures r.Ok? <==> lib.blob(s.frames, s.format).Done?
    ensures r.Ok? ==> r.value == lib.blob(s.frames, s.format).value
    ensures r.Err? ==> r.error == FromMagick(lib.blob(s.frames, s.format).error)
  {
    match lib.blob(s.frames, s.format)
    case Done(n) => Ok(n)
    case Failed(e) => Err(FromMagick(e))
  }

  /** The assumption under which the downscale loop ends: when an over-budget wand
      is scaled successfully, its serialised size strictly drops. */
  ghost predicate ShrinksOn(lib: Library, fs: seq<Frame>, format: string, factor: Scale) {
    0 < |fs| ==>
      var sw := Sweep(lib, ScaleBy(factor), fs, 0);
      lib.blob(fs, format).Done? && lib.blob(fs, format).value > Budget &&
      sw.status.Ok? && lib.blob(sw.frames, format).Done?
      ==> lib.blob(sw.frames, format).value < lib.blob(fs, format).value
  }

  ghost predicate Shrinks(lib: Library) {
    forall fs, format, factor :: ShrinksOn(lib, fs, format, factor)
  }

  /** The downscale loop from a wand of serialised size `size`: while over budget,
      scale every frame by the bracket's factor and measure again. */
  function ScaleUntil(lib: Library, s: WandState, size: nat): (r: (WandState, Result<()>))
    requires Shrinks(lib) && s.Valid() && lib.blob(s.frames, s.format) == Done(size)
    ensures r.0.Valid() && |r.0.frames| == |s.frames| && r.0.format == s.format
    ensures r.1.Err? ==> r.1.error.FromMagick?
    decreases size
  {
    if size <= Budget then (s, Ok(()))
    else
      var sw := Sweep(lib, ScaleBy(Bracket(size)), s.frames, 0);
      var next := AfterSweep(s, sw);
      if sw.status.Err? then
        assert sw.status.error.FromMagick? by { SweepFailsFromMagick(lib, ScaleBy(Bracket(size)), s.frames, 0); }
        (next, sw.status)
      else
        match lib.blob(next.frames, next.format)
        case Failed(e) => (next, Err(FromMagick(e)))
        case Done(size') =>
          assert ShrinksOn(lib, s.frames, s.format, Bracket(size));
          ScaleUntil(lib, next, size')
  }

  function Downscaled(lib: Library, s: WandState): (r: (WandState, Result<()>))
    requires Shrinks(lib) && s.Valid()
    ensures r.0.Valid() && |r.0.frames| == |s.frames| && r.0.format == s.format
    ensures r.1.Err? ==> r.1.error.FromMagick?
  {
    match lib.blob(s.frames, s.format)
    case Failed(e) => (s, Err(FromMagick(e)))
    case Done(size) => ScaleUntil(lib, s, size)
  }

  method SizeOf(wand: Wand) returns (r: Result<nat>)
    ensures r == BlobSize(wand.lib, wand.State())
  {
    var format := wand.GetImageFormat();
    var blob := wand.WriteImagesBlobLength(format);
    match blob
    case Done(n) => r := Ok(n);
    case Failed(e) => r := Err(FromMagick(e));
  }

  method ScaleCurrent(wand: Wand, scale: Scale) returns (r: Result<()>)
    requires wand.Valid()
    modifies wand
    ensures wand.Valid()
    ensures var step := Apply(wand.lib, ScaleBy(scale), old(wand.cursor), old(wand.frames[wand.cursor]));
            r == step.status && wand.State() == old(wand.State()).(frames := old(wand.frames)[old(wand.cursor) := step.frame])
  {
    var c := wand.ScaleImage(scale);
    if c.Failed? {
      assert old(wand.frames)[wand.cursor := old(wand.frames[wand.cursor])] == old(wand.frames);
      return Err(FromMagick(c.error));
    }
    r := Ok(());
  }

  /** One downscaling pass: every frame, from the first, scaled by `scale`. */
  method ScaleAll(wand: Wand, scale: Scale) returns (r: Result<()>)
    requires wand.Valid()
    modifies wand
    ensures wand.Valid()
    ensures var sw := Sweep(wand.lib, ScaleBy(scale), old(wand.frames), 0);
            wand.State() == AfterSweep(old(wand.State()), sw) && r == sw.status
  {
    ghost var op := ScaleBy(scale);
    ghost var start := wand.frames;
    wand.SetFirstIterator();
    r := ScaleCurrent(wand, scale);
    if r.Err? {
      return;
    }
    assert Sweep(wand.lib, op, start, 0) == Sweep(wand.lib, op, wand.frames, 1);
    var more := wand.NextImage();
    while more
      invariant wand.Valid() && |wand.frames| == |start| && wand.format == old(wand.format)
      invariant !more ==> wand.cursor + 1 == |wand.frames|
      invariant Sweep(wand.lib, op, wand.frames, if more then wand.cursor else wand.cursor + 1) == Sweep(wand.lib, op, start, 0)
      decreases |wand.frames| - wand.cursor, more
    {
      r := ScaleCurrent(wand, scale);
      if r.Err? {
        return;
      }
      more := wand.NextImage();
    }
    r := Ok(());
  }

  method Downscale(wand: Wand) returns (r: Result<()>)
    requires wand.Valid() && Shrinks(wand.lib)
    modifies wand
    ensures wand.Valid()
    ensures (wand.State(), r) == Downscaled(wand.lib, old(wand.State()))
  {
    var measured := SizeOf(wand);
    if measured.Err? {
      return Err(measured.error);
    }
    var size := measured.value;
    if size <= Budget {
      return Ok(());
    }
    while size > Budget
      invariant wand.Valid()
      invariant wand.lib.blob(wand.frames, wand.format) == Done(size)
      invariant ScaleUntil(wand.lib, wand.State(), size) == Downscaled(wand.lib, old(wand.State()))
      decreases size
    {
      var scale := Bracket(size);
      ghost var before := wand.State();
      r := ScaleAll(wand, scale);
      if r.Err? {
        return;
      }
      measured := SizeOf(wand);
      if measured.Err? {
        return Err(measured.error);
      }
      assert ShrinksOn(wand.lib, before.frames, before.format, scale);
      size := measured.value;
    }
    r := Ok(());
  }
}
