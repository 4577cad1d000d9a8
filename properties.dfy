/** What the four stages guarantee, stated over the functions that specify them. */
module Properties {
  import opened Errors
  import opened Magick
  import opened Operations

  // ---------------------------------------------------------------------------
  // Sweeps
  // ---------------------------------------------------------------------------

  /** The first failure from `i` on depends only on the frames from `i` on. */
  lemma FirstFailureFrom(lib: Library, op: FrameOp, fs: seq<Frame>, gs: seq<Frame>, i: nat)
    requires |fs| == |gs| && i <= |fs|
    requires forall k :: i <= k < |fs| ==> fs[k] == gs[k]
    ensures FirstFailure(lib, op, fs, i) == FirstFailure(lib, op, gs, i)
    decreases |fs| - i
  {
  }

  /** Which frames a sweep from `i` changes: every frame from `i` up to and including
      the first failing one gets the work, every other frame stays as it was. */
  lemma {:induction false} SweepFrames(lib: Library, op: FrameOp, fs: seq<Frame>, i: nat)
    requires 0 < |fs| && i <= |fs|
    ensures var r := Sweep(lib, op, fs, i);
            var j := FirstFailure(lib, op, fs, i);
            forall k :: 0 <= k < |fs| ==> r.frames[k] == if i <= k <= j then Apply(lib, op, k, fs[k]).frame else fs[k]
    decreases |fs| - i
  {
    if i < |fs| {
      var step := Apply(lib, op, i, fs[i]);
      if step.status.Ok? {
        var gs := fs[i := step.frame];
        SweepFrames(lib, op, gs, i + 1);
        FirstFailureFrom(lib, op, gs, fs, i + 1);
      }
    }
  }

  /** What a sweep from `i` reports: the first failure's status (or success), with
      the cursor on the failing frame (or the last frame). */
  lemma {:induction false} SweepStatus(lib: Library, op: FrameOp, fs: seq<Frame>, i: nat)
    requires 0 < |fs| && i <= |fs|
    ensures var r := Sweep(lib, op, fs, i);
            var j := FirstFailure(lib, op, fs, i);
            && r.status == (if j < |fs| then Apply(lib, op, j, fs[j]).status else Ok(()))
            && r.cursor == (if j < |fs| then j else |fs| - 1)
    decreases |fs| - i
  {
    if i < |fs| {
      var step := Apply(lib, op, i, fs[i]);
      if step.status.Ok? {
        var gs := fs[i := step.frame];
        SweepStatus(lib, op, gs, i + 1);
        FirstFailureFrom(lib, op, gs, fs, i + 1);
      }
    }
  }

  /** A sweep from `i` does the work on every frame from `i` up to and including the
      first failing one, leaves every other frame as it was, reports the first
      failure (or success), and leaves the cursor on the failing or the last frame. */
  lemma SweepOutcome(lib: Library, op: FrameOp, fs: seq<Frame>, i: nat)
    requires 0 < |fs| && i <= |fs|
    ensures var r := Sweep(lib, op, fs, i);
            var j := FirstFailure(lib, op, fs, i);
            && (forall k :: 0 <= k < |fs| ==> r.frames[k] == if i <= k <= j then Apply(lib, op, k, fs[k]).frame else fs[k])
            && r.status == (if j < |fs| then Apply(lib, op, j, fs[j]).status else Ok(()))
            && r.cursor == (if j < |fs| then j else |fs| - 1)
  {
    SweepFrames(lib, op, fs, i);
    SweepStatus(lib, op, fs, i);
  }

  /** A whole sweep succeeds exactly when the work succeeds on every frame, and then
      every frame holds the result of that work and the cursor is on the last frame. */
  lemma SweepSucceeds(lib: Library, op: FrameOp, fs: seq<Frame>)
    requires 0 < |fs|
    ensures var r := Sweep(lib, op, fs, 0);
            r.status.Ok? <==> forall k :: 0 <= k < |fs| ==> Apply(lib, op, k, fs[k]).status.Ok?
    ensures var r := Sweep(lib, op, fs, 0);
            r.status.Ok? ==>
              r.cursor == |fs| - 1 &&
              forall k :: 0 <= k < |fs| ==> r.frames[k] == Apply(lib, op, k, fs[k]).frame
  {
    SweepOutcome(lib, op, fs, 0);
  }

  /** A failed sweep stops on the failing frame: every earlier frame holds the result
      of the work, the failing one whatever the failed work left, and every later
      frame is untouched. */
  lemma SweepStops(lib: Library, op: FrameOp, fs: seq<Frame>)
    requires 0 < |fs|
    ensures var r := Sweep(lib, op, fs, 0);
            var j := r.cursor;
            r.status.Err? ==>
              && r.status == Apply(lib, op, j, fs[j]).status
              && r.frames[j] == Apply(lib, op, j, fs[j]).frame
              && (forall k :: 0 <= k < j ==> Apply(lib, op, k, fs[k]).status.Ok? && r.frames[k] == Apply(lib, op, k, fs[k]).frame)
              && (forall k :: j < k < |fs| ==> r.frames[k] == fs[k])
  {
    SweepOutcome(lib, op, fs, 0);
  }

  // ---------------------------------------------------------------------------
  // convert
  // ---------------------------------------------------------------------------

  /** A GIF is left as it is; anything else is left as it is at zero tolerance and
      otherwise becomes PNG unless the library refuses; frames are never touched. */
  lemma ConvertDecision(lib: Library, s: WandState, tolerance: real)
    ensures s.format == Gif ==> Converted(lib, s, tolerance) == (s, Ok(()))
    ensures s.format != Gif && tolerance == 0.0 ==> Converted(lib, s, tolerance) == (s, Ok(()))
    ensures s.format != Gif && tolerance != 0.0 ==>
              Converted(lib, s, tolerance) ==
                if lib.setFormat(s.frames, Png).Done? then (s.(format := Png), Ok(()))
                else (s, Err(FromMagick(lib.setFormat(s.frames, Png).error)))
  {
  }

  // ---------------------------------------------------------------------------
  // squarify
  // ---------------------------------------------------------------------------

  /** One or two of the three crop settings is an invalid argument, whatever the
      image, and the wand is left untouched. */
  lemma SquarifyRejectsPartialCrop(lib: Library, s: WandState, x: Option<int>, y: Option<int>, size: Option<int>)
    requires s.Valid() && PartialCrop(x, y, size)
    ensures Squarified(lib, s, x, y, size) == (s, Err(InvalidArgument(PartialCropMessage)))
    ensures forall width, height :: CropPlan(width, height, x, y, size) == Err(InvalidArgument(PartialCropMessage))
  {
  }

  /** A square image with no crop settings is left untouched. */
  lemma SquarifySkipsSquare(lib: Library, s: WandState)
    requires s.Valid() && s.frames[s.cursor].width == s.frames[s.cursor].height
    ensures Squarified(lib, s, None, None, None) == (s, Ok(()))
  {
  }

  /** Without crop settings, a non-square image gets the largest centred square:
      side min(width, height), offsets half the surplus rounded down, never
      negative and always within the image, so the bounds check never fires. */
  lemma AutoCropRegion(width: usize, height: usize)
    requires width != height
    ensures var m := if width <= height then width else height;
            CropPlan(width, height, None, None, None) == Ok(Region(m, (width - m) / 2, (height - m) / 2))
    ensures var m := if width <= height then width else height;
            0 <= (width - m) / 2 && (width - m) / 2 + m <= width &&
            0 <= (height - m) / 2 && (height - m) / 2 + m <= height
  {
  }

  /** With all three settings given, the bounds check fails exactly when the square
      reaches past the right or the bottom edge; otherwise the given region is used
      as it is. */
  lemma ExplicitCropBounds(width: int, height: int, x: int, y: int, size: int)
    ensures var r := CropPlan(width, height, Some(x), Some(y), Some(size));
            (r.Err? <==> size > width - x || size > height - y) &&
            (r.Err? ==> r.error == InvalidArgument(OutOfBoundsMessage)) &&
            (r.Ok? ==> r.value == Region(size, x, y))
  {
  }

  /** The bounds check is the only check: negative offsets and a size of zero or
      below pass it. */
  lemma BoundsCheckAdmitsNegatives(width: usize, height: usize, x: int, y: int, size: int)
    requires x <= 0 && y <= 0 && size <= 0
    ensures CropPlan(width, height, Some(x), Some(y), Some(size)) == Ok(Region(size, x, y))
  {
  }

  /** A crop beyond the edge is refused: (10, 10, 2000) on a 1000 x 1000 image. */
  lemma OversizedCropRejected(lib: Library, s: WandState)
    requires s.Valid() && s.frames[s.cursor].width == 1000 && s.frames[s.cursor].height == 1000
    ensures Squarified(lib, s, Some(10), Some(10), Some(2000)) == (s, Err(InvalidArgument(OutOfBoundsMessage)))
  {
  }

  /** On success, every frame was cropped with the same region and repaged to
      `size x size + 0 + 0`, and the cursor is on the last frame. */
  lemma SquarifyCropsEveryFrame(lib: Library, s: WandState, x: Option<int>, y: Option<int>, size: Option<int>, n: int, ox: int, oy: int)
    requires s.Valid()
    requires CropPlan(s.frames[s.cursor].width, s.frames[s.cursor].height, x, y, size) == Ok(Region(n, ox, oy))
    requires Squarified(lib, s, x, y, size).1.Ok?
    ensures var t := Squarified(lib, s, x, y, size).0;
            t.cursor == |s.frames| - 1 &&
            forall k :: 0 <= k < |s.frames| ==>
              t.frames[k].log == s.frames[k].log + [Cropped(Geometry(AsUsize(n), AsUsize(n), ox, oy))] &&
              t.frames[k].page == Geometry(n, n, 0, 0)
  {
    var op := CropOp(n, ox, oy);
    SweepSucceeds(lib, op, s.frames);
  }

  /** Every frame has the dimensions of the first one. */
  ghost predicate Uniform(fs: seq<Frame>) {
    0 < |fs| && forall k :: 0 <= k < |fs| ==> fs[k].width == fs[0].width && fs[k].height == fs[0].height
  }

  /** A successful crop to a non-empty region that lies inside the frame yields the
      region's size. (ImageMagick reads a zero width or height as "the whole page",
      so empty regions are not covered.) */
  ghost predicate CropExact(lib: Library) {
    forall f: Frame, g: Geometry ::
      0 < g.width && 0 < g.height &&
      0 <= g.x && 0 <= g.y && g.x + g.width <= f.width && g.y + g.height <= f.height && lib.crop(f, g).Done? ==>
        lib.crop(f, g).value.width == g.width && lib.crop(f, g).value.height == g.height
  }

  /** When the region lies inside the image (offsets not negative, size positive), frames
      share their dimensions and the library crops exactly, every frame comes out
      `size x size`. */
  lemma SquarifyMakesSquare(lib: Library, s: WandState, x: Option<int>, y: Option<int>, size: Option<int>, n: int, ox: int, oy: int)
    requires s.Valid() && Uniform(s.frames) && CropExact(lib)
    requires CropPlan(s.frames[s.cursor].width, s.frames[s.cursor].height, x, y, size) == Ok(Region(n, ox, oy))
    requires 0 < n && 0 <= ox && 0 <= oy
    requires Squarified(lib, s, x, y, size).1.Ok?
    ensures var t := Squarified(lib, s, x, y, size).0;
            forall k :: 0 <= k < |t.frames| ==> t.frames[k].width == n && t.frames[k].height == n
  {
    var op := CropOp(n, ox, oy);
    var fs := s.frames;
    var region := Geometry(AsUsize(n), AsUsize(n), ox, oy);
    SweepSucceeds(lib, op, fs);
    assert AsUsize(n) == n;
    forall k | 0 <= k < |fs|
      ensures Apply(lib, op, k, fs[k]).frame.width == n && Apply(lib, op, k, fs[k]).frame.height == n
    {
      assert Apply(lib, op, k, fs[k]).status.Ok?;
      assert lib.crop(fs[k], region).Done?;
    }
  }

  /** Without crop settings, uniform non-empty frames and an exact crop, squarify
      makes every frame min(width, height) on each side. */
  lemma AutoSquarifyMakesSquare(lib: Library, s: WandState)
    requires s.Valid() && Uniform(s.frames) && CropExact(lib)
    requires 0 < s.frames[s.cursor].width && 0 < s.frames[s.cursor].height
    requires Squarified(lib, s, None, None, None).1.Ok?
    ensures var w, h := s.frames[s.cursor].width, s.frames[s.cursor].height;
            var t := Squarified(lib, s, None, None, None).0;
            forall k :: 0 <= k < |t.frames| ==>
              t.frames[k].width == t.frames[k].height == if w <= h then w else h
  {
    var w, h := s.frames[s.cursor].width, s.frames[s.cursor].height;
    var m := if w <= h then w else h;
    if w != h {
      AutoCropRegion(w, h);
      SquarifyMakesSquare(lib, s, None, None, None, m, (w - m) / 2, (h - m) / 2);
    } else {
      assert forall k :: 0 <= k < |s.frames| ==> s.frames[k].width == s.frames[0].width && s.frames[k].height == s.frames[0].height;
    }
  }

  // ---------------------------------------------------------------------------
  // filter
  // ---------------------------------------------------------------------------

  /** At zero tolerance the wand is left untouched. */
  lemma FilterZeroIsNoop(lib: Library, s: WandState)
    requires s.Valid()
    ensures Filtered(lib, s, 0.0) == (s, Ok(()))
  {
  }

  /** The fuzz of 50 percent is 32767.5 and of 20 percent is 13107. */
  lemma FuzzExamples()
    ensures FuzzOf(50.0) == 32767.5 && FuzzOf(20.0) == 13107.0
  {
  }

  /** On success, the first frame was flood-filled from (0, 0) with the fuzz of the
      tolerance and every later frame with the tolerance itself. */
  lemma FilterPaintsEveryFrame(lib: Library, s: WandState, tolerance: real)
    requires s.Valid() && tolerance != 0.0
    requires Filtered(lib, s, tolerance).1.Ok?
    ensures var t := Filtered(lib, s, tolerance).0;
            t.frames[0] == FillFrame(s.frames[0], FuzzOf(tolerance)) &&
            forall k :: 0 < k < |s.frames| ==> t.frames[k] == FillFrame(s.frames[k], tolerance)
  {
    SweepSucceeds(lib, FillFrom(FuzzOf(tolerance), tolerance), s.frames);
  }

  /** A failing flood fill ends the stage with the flood-fill error; the frames before
      the failing one stay painted, the failing one and all after it are untouched,
      and the cursor is left on the failing frame. */
  lemma FilterStopsAtFailure(lib: Library, s: WandState, tolerance: real)
    requires s.Valid()
    requires Filtered(lib, s, tolerance).1.Err?
    ensures var (t, r) := Filtered(lib, s, tolerance);
            var j := t.cursor;
            && r == Err(FromMagick(MagickError(FloodFailedMessage)))
            && !lib.floodFill(s.frames[j], if j == 0 then FuzzOf(tolerance) else tolerance)
            && (forall k :: 0 <= k < j ==> t.frames[k] == FillFrame(s.frames[k], if k == 0 then FuzzOf(tolerance) else tolerance))
            && (forall k :: j <= k < |s.frames| ==> t.frames[k] == s.frames[k])
  {
    SweepStops(lib, FillFrom(FuzzOf(tolerance), tolerance), s.frames);
  }

  // ---------------------------------------------------------------------------
  // downscale
  // ---------------------------------------------------------------------------

  /** The bracket boundaries: 255,999 bytes is the last size scaled by 0.95,
      256,000 the first scaled by 0.90, 1,000,000 the first scaled by 0.50. */
  lemma BracketBoundaries()
    ensures Bracket(Budget + 1) == Gentle && Bracket(255_999) == Gentle
    ensures Bracket(256_000) == Moderate && Bracket(999_999) == Moderate
    ensures Bracket(1_000_000) == Halve
  {
  }

  /** A wand already within the budget is left untouched. */
  lemma DownscaleUnderBudgetIsNoop(lib: Library, s: WandState)
    requires Shrinks(lib) && s.Valid()
    requires lib.blob(s.frames, s.format).Done? && lib.blob(s.frames, s.format).value <= Budget
    ensures Downscaled(lib, s) == (s, Ok(()))
  {
  }

  /** When the loop ends normally, the serialised size is within the budget. */
  lemma {:induction false} ScaleUntilMeetsBudget(lib: Library, s: WandState, size: nat)
    requires Shrinks(lib) && s.Valid() && lib.blob(s.frames, s.format) == Done(size)
    ensures var r := ScaleUntil(lib, s, size);
            r.1.Ok? ==> lib.blob(r.0.frames, r.0.format).Done? && lib.blob(r.0.frames, r.0.format).value <= Budget
    decreases size
  {
    if size > Budget {
      var sw := Sweep(lib, ScaleBy(Bracket(size)), s.frames, 0);
      var next := AfterSweep(s, sw);
      if sw.status.Ok? {
        match lib.blob(next.frames, next.format)
        case Failed(_) =>
        case Done(size') =>
          assert ShrinksOn(lib, s.frames, s.format, Bracket(size));
          ScaleUntilMeetsBudget(lib, next, size');
      }
    }
  }

  lemma DownscaleMeetsBudget(lib: Library, s: WandState)
    requires Shrinks(lib) && s.Valid()
    ensures var r := Downscaled(lib, s);
            r.1.Ok? ==> lib.blob(r.0.frames, r.0.format).Done? && lib.blob(r.0.frames, r.0.format).value <= Budget
  {
    if lib.blob(s.frames, s.format).Done? {
      ScaleUntilMeetsBudget(lib, s, lib.blob(s.frames, s.format).value);
    }
  }

  /** Downscaling a wand that downscaling has already finished changes nothing. */
  lemma DownscaleIdempotent(lib: Library, s: WandState)
    requires Shrinks(lib) && s.Valid()
    requires Downscaled(lib, s).1.Ok?
    ensures Downscaled(lib, Downscaled(lib, s).0) == (Downscaled(lib, s).0, Ok(()))
  {
    DownscaleMeetsBudget(lib, s);
  }

  /** The log entries of a sequence of scaling passes. */
  function Scalings(ps: seq<Scale>): (log: seq<Edit>) {
    if ps == [] then [] else [Scaled(ps[0])] + Scalings(ps[1..])
  }

  /** `after` is `before` with the passes `ps` applied to every frame. */
  ghost predicate ScaledBy(before: seq<Frame>, after: seq<Frame>, ps: seq<Scale>) {
    |before| == |after| &&
    forall k :: 0 <= k < |before| ==> after[k].log == before[k].log + Scalings(ps)
  }

  /** A successful pass appends the same scaling to every frame's log. */
  lemma ScalePassLogs(lib: Library, fs: seq<Frame>, b: Scale)
    requires 0 < |fs| && Sweep(lib, ScaleBy(b), fs, 0).status.Ok?
    ensures ScaledBy(fs, Sweep(lib, ScaleBy(b), fs, 0).frames, [b])
  {
    var sw := Sweep(lib, ScaleBy(b), fs, 0);
    SweepSucceeds(lib, ScaleBy(b), fs);
    forall k | 0 <= k < |fs|
      ensures sw.frames[k].log == fs[k].log + Scalings([b])
    {
      assert Apply(lib, ScaleBy(b), k, fs[k]).status.Ok?;
      assert Scalings([b]) == [Scaled(b)];
    }
  }

  /** One pass followed by further passes. */
  lemma ScaledByThen(a: seq<Frame>, b: seq<Frame>, c: seq<Frame>, p: Scale, rest: seq<Scale>)
    requires ScaledBy(a, b, [p]) && ScaledBy(b, c, rest)
    ensures ScaledBy(a, c, [p] + rest)
  {
    assert ([p] + rest)[1..] == rest;
    assert Scalings([p] + rest) == [Scaled(p)] + Scalings(rest);
    assert Scalings([p]) == [Scaled(p)];
    forall k | 0 <= k < |a|
      ensures c[k].log == a[k].log + Scalings([p] + rest)
    {
      assert c[k].log == a[k].log + [Scaled(p)] + Scalings(rest);
    }
  }

  /** One pass of the downscale loop: the wand was over budget at `size`, every frame
      of `fs` was scaled by that size's bracket, giving `fs'`, and the new size
      `size'` is smaller. */
  ghost predicate Pass(lib: Library, fs: seq<Frame>, size: nat, fs': seq<Frame>, size': nat) {
    0 < |fs| && size > Budget &&
    var sw := Sweep(lib, ScaleBy(Bracket(size)), fs, 0);
    sw.status.Ok? && fs' == sw.frames && size' < size
  }

  /** The record of a downscale loop that ended normally: `frames[i]` are the frames
      before pass i and `sizes[i]` their serialised size, as measured; each pass
      picks its factor from the size measured just before it; the last size is
      within the budget. */
  ghost predicate ScaleTrace(lib: Library, format: string, frames: seq<seq<Frame>>, sizes: seq<nat>) {
    |frames| == |sizes| && 0 < |sizes| &&
    (forall i :: 0 <= i < |sizes| ==> lib.blob(frames[i], format) == Done(sizes[i])) &&
    (forall i :: 0 <= i < |sizes| - 1 ==> Pass(lib, frames[i], sizes[i], frames[i + 1], sizes[i + 1])) &&
    sizes[|sizes| - 1] <= Budget
  }

  /** The factors of the passes recorded by `sizes`: every size but the last was
      followed by a pass with its bracket. */
  function Factors(sizes: seq<nat>): (ps: seq<Scale>)
    requires 0 < |sizes|
    ensures |ps| == |sizes| - 1 && forall i :: 0 <= i < |ps| ==> ps[i] == Bracket(sizes[i])
  {
    seq(|sizes| - 1, i requires 0 <= i < |sizes| - 1 => Bracket(sizes[i]))
  }

  /** A pass in front of a recorded loop is a recorded loop. */
  lemma TraceCons(lib: Library, format: string, fs: seq<Frame>, size: nat, fr: seq<seq<Frame>>, sz: seq<nat>)
    requires ScaleTrace(lib, format, fr, sz)
    requires lib.blob(fs, format) == Done(size) && Pass(lib, fs, size, fr[0], sz[0])
    ensures ScaleTrace(lib, format, [fs] + fr, [size] + sz)
  {
    var frames := [fs] + fr;
    var sizes := [size] + sz;
    forall i | 0 <= i < |sizes| - 1
      ensures Pass(lib, frames[i], sizes[i], frames[i + 1], sizes[i + 1])
    {
      if i > 0 {
        assert frames[i] == fr[i - 1] && frames[i + 1] == fr[i];
        assert sizes[i] == sz[i - 1] && sizes[i + 1] == sz[i];
      }
    }
    forall i | 0 <= i < |sizes|
      ensures lib.blob(frames[i], format) == Done(sizes[i])
    {
      if i > 0 {
        assert frames[i] == fr[i - 1] && sizes[i] == sz[i - 1];
      }
    }
  }

  /** The first pass of a loop that ends normally, and the loop that follows it. */
  lemma ScaleUntilStep(lib: Library, s: WandState, size: nat)
    requires Shrinks(lib) && s.Valid() && lib.blob(s.frames, s.format) == Done(size) && size > Budget
    requires ScaleUntil(lib, s, size).1.Ok?
    ensures var next := AfterSweep(s, Sweep(lib, ScaleBy(Bracket(size)), s.frames, 0));
            next.Valid() && next.format == s.format && lib.blob(next.frames, next.format).Done? &&
            Pass(lib, s.frames, size, next.frames, lib.blob(next.frames, next.format).value) &&
            ScaleUntil(lib, next, lib.blob(next.frames, next.format).value) == ScaleUntil(lib, s, size)
  {
    assert ShrinksOn(lib, s.frames, s.format, Bracket(size));
  }

  /** A downscale loop that ends normally is a sequence of passes, each scaling by
      the bracket of the size measured just before it, with strictly falling sizes,
      from the starting frames and size to the final frames. */
  lemma {:induction false} ScaleUntilTrace(lib: Library, s: WandState, size: nat)
    requires Shrinks(lib) && s.Valid() && lib.blob(s.frames, s.format) == Done(size)
    requires ScaleUntil(lib, s, size).1.Ok?
    ensures exists frames, sizes :: ScaleTrace(lib, s.format, frames, sizes) &&
                                    frames[0] == s.frames && sizes[0] == size &&
                                    frames[|frames| - 1] == ScaleUntil(lib, s, size).0.frames
    decreases size
  {
    if size <= Budget {
      assert ScaleTrace(lib, s.format, [s.frames], [size]);
    } else {
      ScaleUntilStep(lib, s, size);
      var next := AfterSweep(s, Sweep(lib, ScaleBy(Bracket(size)), s.frames, 0));
      var size' := lib.blob(next.frames, next.format).value;
      ScaleUntilTrace(lib, next, size');
      var fr, sz :| ScaleTrace(lib, s.format, fr, sz) && fr[0] == next.frames && sz[0] == size' &&
                    fr[|fr| - 1] == ScaleUntil(lib, s, size).0.frames;
      TraceCons(lib, s.format, s.frames, size, fr, sz);
    }
  }

  /** Along a recorded loop, every frame's log gains exactly the passes' factors, in order. */
  lemma {:induction false} TraceScalesUniformly(lib: Library, format: string, frames: seq<seq<Frame>>, sizes: seq<nat>)
    requires ScaleTrace(lib, format, frames, sizes)
    ensures ScaledBy(frames[0], frames[|frames| - 1], Factors(sizes))
    decreases |sizes|
  {
    if |sizes| == 1 {
      assert Factors(sizes) == [];
      assert ScaledBy(frames[0], frames[0], []) by {
        forall k | 0 <= k < |frames[0]| ensures frames[0][k].log + Scalings([]) == frames[0][k].log {}
      }
    } else {
      var b := Bracket(sizes[0]);
      assert Pass(lib, frames[0], sizes[0], frames[1], sizes[1]);
      assert ScaleTrace(lib, format, frames[1..], sizes[1..]) by {
        forall i | 0 <= i < |sizes| - 2
          ensures Pass(lib, frames[1..][i], sizes[1..][i], frames[1..][i + 1], sizes[1..][i + 1])
        {
          assert Pass(lib, frames[i + 1], sizes[i + 1], frames[i + 2], sizes[i + 2]);
        }
      }
      TraceScalesUniformly(lib, format, frames[1..], sizes[1..]);
      ScalePassLogs(lib, frames[0], b);
      ScaledByThen(frames[0], frames[1], frames[|frames| - 1], b, Factors(sizes[1..]));
      assert Factors(sizes) == [b] + Factors(sizes[1..]);
    }
  }

  /** Every frame goes through the same passes, and pass i scales by the bracket of
      the size measured just before it: none when the wand starts within the budget,
      otherwise as many as the loop took. */
  lemma ScaleUntilScalesUniformly(lib: Library, s: WandState, size: nat)
    requires Shrinks(lib) && s.Valid() && lib.blob(s.frames, s.format) == Done(size)
    requires ScaleUntil(lib, s, size).1.Ok?
    ensures exists frames, sizes :: ScaleTrace(lib, s.format, frames, sizes) &&
                                    frames[0] == s.frames && sizes[0] == size &&
                                    ScaledBy(s.frames, ScaleUntil(lib, s, size).0.frames, Factors(sizes))
  {
    ScaleUntilTrace(lib, s, size);
    var frames, sizes :| ScaleTrace(lib, s.format, frames, sizes) && frames[0] == s.frames && sizes[0] == size &&
                         frames[|frames| - 1] == ScaleUntil(lib, s, size).0.frames;
    TraceScalesUniformly(lib, s.format, frames, sizes);
  }
}
