/** The four stages run in their fixed order, stopping at the first failure. */
module Pipeline {
  import opened Errors
  import opened Magick
  import opened Operations
  import Properties

  /** Convert, squarify, filter, downscale; the first failing stage's error is the
      result and no later stage runs. */
  function Processed(lib: Library, s: WandState, tolerance: real, x: Option<int>, y: Option<int>, size: Option<int>): (r: (WandState, Result<()>))
    requires Shrinks(lib) && s.Valid()
    ensures r.0.Valid() && |r.0.frames| == |s.frames|
    ensures r.1.Err? ==> r.1.error.FromMagick? || r.1.error.InvalidArgument?
  {
    var converted := Converted(lib, s, tolerance);
    if converted.1.Err? then converted
    else
      var squared := Squarified(lib, converted.0, x, y, size);
      if squared.1.Err? then squared
      else
        var filtered := Filtered(lib, squared.0, tolerance);
        if filtered.1.Err? then filtered
        else Downscaled(lib, filtered.0)
  }

  method Run(wand: Wand, tolerance: real, x: Option<int>, y: Option<int>, size: Option<int>) returns (r: Result<()>)
    requires wand.Valid() && Shrinks(wand.lib)
    modifies wand
    ensures wand.Valid()
    ensures (wand.State(), r) == Processed(wand.lib, old(wand.State()), tolerance, x, y, size)
  {
    r := Convert(wand, tolerance);
    if r.Err? {
      return;
    }
    r := Squarify(wand, x, y, size);
    if r.Err? {
      return;
    }
    r := Filter(wand, tolerance);
    if r.Err? {
      return;
    }
    r := Downscale(wand);
  }

  /** A run that succeeds ends within the size budget with as many frames as it began. */
  lemma PipelineMeetsBudget(lib: Library, s: WandState, tolerance: real, x: Option<int>, y: Option<int>, size: Option<int>)
    requires Shrinks(lib) && s.Valid()
    requires Processed(lib, s, tolerance, x, y, size).1.Ok?
    ensures var t := Processed(lib, s, tolerance, x, y, size).0;
            lib.blob(t.frames, t.format).Done? && lib.blob(t.frames, t.format).value <= Budget
  {
    var converted := Converted(lib, s, tolerance);
    var squared := Squarified(lib, converted.0, x, y, size);
    var filtered := Filtered(lib, squared.0, tolerance);
    Properties.DownscaleMeetsBudget(lib, filtered.0);
  }

  /** With one or two of the crop settings, the run fails before any frame is
      touched: with the invalid-argument error, or with the library's error if the
      format change was refused first. */
  lemma PipelineRejectsPartialCrop(lib: Library, s: WandState, tolerance: real, x: Option<int>, y: Option<int>, size: Option<int>)
    requires Shrinks(lib) && s.Valid() && PartialCrop(x, y, size)
    ensures var (t, r) := Processed(lib, s, tolerance, x, y, size);
            t.frames == s.frames &&
            (r == Err(InvalidArgument(PartialCropMessage)) || (r.Err? && r.error.FromMagick?))
  {
  }

  /** A square GIF with tolerance 20 and no crop settings: convert and squarify leave
      it alone, the first frame is filled with fuzz 13107 and every later frame with
      fuzz 20, and downscaling then works on the filled frames. */
  lemma SquareGifRun(lib: Library, s: WandState)
    requires Shrinks(lib) && s.Valid() && s.format == Gif
    requires s.frames[s.cursor].width == s.frames[s.cursor].height
    requires Filtered(lib, s, 20.0).1.Ok?
    ensures var t := Filtered(lib, s, 20.0).0;
            && Processed(lib, s, 20.0, None, None, None) == Downscaled(lib, t)
            && t.frames[0] == FillFrame(s.frames[0], 13107.0)
            && forall k :: 0 < k < |s.frames| ==> t.frames[k] == FillFrame(s.frames[k], 20.0)
  {
    Properties.ConvertDecision(lib, s, 20.0);
    Properties.SquarifySkipsSquare(lib, s);
    Properties.FuzzExamples();
    Properties.FilterPaintsEveryFrame(lib, s, 20.0);
  }
}
