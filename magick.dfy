/** The image buffer the pipeline works on (ImageMagick's wand), reduced to what the
    pipeline observes: a sequence of frames, a format tag and the "current frame"
    cursor. What the library does to pixels is not modelled; each frame keeps a log
    of the edits applied to it, and whether a library call succeeds, and what
    dimensions a crop or scale yields, is decided by a `Library` value supplied
    from outside. */
module Magick {
  import opened Errors

  /** A rectangle as ImageMagick geometry: `width x height + x + y`. */
  datatype Geometry = Geometry(width: int, height: int, x: int, y: int)

  /** A machine-sized unsigned integer, as image dimensions are. */
  type usize = n: nat | n < 0x1_0000_0000_0000_0000

  datatype Dims = Dims(width: usize, height: usize)

  /** The three scale factors the downscaler uses. */
  datatype Scale = Gentle | Moderate | Halve
  {
    /** The factor applied to both width and height. */
    function Ratio(): (r: real)
      ensures 0.0 < r < 1.0
    {
      match this
      case Gentle => 0.95
      case Moderate => 0.90
      case Halve => 0.50
    }
  }

  /** An edit recorded in a frame's log. */
  datatype Edit =
    | Cropped(region: Geometry)
    | FloodFilled(x: int, y: int, fuzz: real)
    | Scaled(factor: Scale)

  /** One frame: its dimensions, its page (virtual canvas) geometry and the edits
      applied to it so far. */
  datatype Frame = Frame(width: usize, height: usize, page: Geometry, log: seq<Edit>)

  /** The outcome of a library call. */
  datatype Reply<+T> = Done(value: T) | Failed(error: MagickError)

  /** The behaviour of the library calls the pipeline makes, left uninterpreted:
      `setFormat` is MagickSetImageFormat, `crop` MagickCropImage (yielding the new
      dimensions), `resetPage` MagickResetImagePage, `floodFill` the status of
      MagickFloodfillPaintImage (true for a nonzero status), `scale` the Kaiser
      rescale of both dimensions by the given ratio (yielding the new dimensions) and
      `blob` the length of the blob written in the given format. */
  datatype Library = Library(
    setFormat: (seq<Frame>, string) -> Reply<()>,
    crop: (Frame, Geometry) -> Reply<Dims>,
    resetPage: (Frame, Geometry) -> Reply<()>,
    floodFill: (Frame, real) -> bool,
    scale: (Frame, real) -> Reply<Dims>,
    blob: (seq<Frame>, string) -> Reply<nat>)

  /** The observable state of a wand. A wand that has read an image holds at least
      one frame and its cursor points at one of them. */
  datatype WandState = WandState(frames: seq<Frame>, format: string, cursor: nat)
  {
    predicate Valid() {
      0 < |frames| && cursor < |frames|
    }
  }

  /** The frame after a crop to `region`, with the dimensions the library reports. */
  function CropFrame(lib: Library, f: Frame, region: Geometry): (r: Reply<Frame>) {
    match lib.crop(f, region)
    case Done(d) => Done(f.(width := d.width, height := d.height, log := f.log + [Cropped(region)]))
    case Failed(e) => Failed(e)
  }

  /** The frame after its page geometry is reset to `page`. */
  function RepageFrame(lib: Library, f: Frame, page: Geometry): (r: Reply<Frame>) {
    match lib.resetPage(f, page)
    case Done(_) => Done(f.(page := page))
    case Failed(e) => Failed(e)
  }

  /** The frame after a flood fill seeded at its top-left pixel. */
  function FillFrame(f: Frame, fuzz: real): (g: Frame) {
    f.(log := f.log + [FloodFilled(0, 0, fuzz)])
  }

  /** The frame after both its dimensions are scaled by `factor`'s ratio. */
  function ScaleFrame(lib: Library, f: Frame, factor: Scale): (r: Reply<Frame>) {
    match lib.scale(f, factor.Ratio())
    case Done(d) => Done(f.(width := d.width, height := d.height, log := f.log + [Scaled(factor)]))
    case Failed(e) => Failed(e)
  }

  /** A wand: the frames and format it holds, its cursor, and the library behind it.
      Every per-frame call acts on the frame under the cursor. */
  class Wand {
    const lib: Library
    var frames: seq<Frame>
    var format: string
    var cursor: nat

    function State(): WandState
      reads this
    {
      WandState(frames, format, cursor)
    }

    predicate Valid()
      reads this
    {
      State().Valid()
    }

    constructor (lib: Library, s: WandState)
      requires s.Valid()
      ensures this.lib == lib && State() == s && Valid()
    {
      this.lib := lib;
      frames := s.frames;
      format := s.format;
      cursor := s.cursor;
    }

    method SetFirstIterator()
      requires Valid()
      modifies this
      ensures Valid() && State() == old(State()).(cursor := 0)
    {
      cursor := 0;
    }

    /** Moves to the next frame when there is one and reports whether it did.
        ImageMagick also keeps a "pending" flag: a call that finds no next frame
        sets it, and the call after that returns true without moving. The model
        leaves the flag out. Every loop in the pipeline starts with
        `SetFirstIterator`, which clears it, and stops at the first false. */
    method NextImage() returns (more: bool)
      requires Valid()
      modifies this
      ensures Valid()
      ensures more <==> old(cursor) + 1 < |frames|
      ensures State() == old(State()).(cursor := if more then old(cursor) + 1 else old(cursor))
    {
      more := cursor + 1 < |frames|;
      if more {
        cursor := cursor + 1;
      }
    }

    method GetImageWidth() returns (w: usize)
      requires Valid()
      ensures w == frames[cursor].width
    {
      w := frames[cursor].width;
    }

    method GetImageHeight() returns (h: usize)
      requires Valid()
      ensures h == frames[cursor].height
    {
      h := frames[cursor].height;
    }

    method GetImageFormat() returns (f: string)
      ensures f == format
    {
      f := format;
    }

    method SetImageFormat(f: string) returns (r: Reply<()>)
      requires Valid()
      modifies this
      ensures Valid() && r == lib.setFormat(old(frames), f)
      ensures State() == if r.Done? then old(State()).(format := f) else old(State())
    {
      r := lib.setFormat(frames, f);
      if r.Done? {
        format := f;
      }
    }

    method CropImage(width: usize, height: usize, x: int, y: int) returns (r: Reply<()>)
      requires Valid()
      modifies this
      ensures Valid()
      ensures match CropFrame(lib, old(frames[cursor]), Geometry(width, height, x, y))
              case Done(f) => r.Done? && State() == old(State()).(frames := old(frames)[old(cursor) := f])
              case Failed(e) => r == Failed(e) && State() == old(State())
    {
      var c := CropFrame(lib, frames[cursor], Geometry(width, height, x, y));
      match c
      case Done(f) =>
        frames := frames[cursor := f];
        r := Done(());
      case Failed(e) =>
        r := Failed(e);
    }

    method ResetImagePage(page: Geometry) returns (r: Reply<()>)
      requires Valid()
      modifies this
      ensures Valid()
      ensures match RepageFrame(lib, old(frames[cursor]), page)
              case Done(f) => r.Done? && State() == old(State()).(frames := old(frames)[old(cursor) := f])
              case Failed(e) => r == Failed(e) && State() == old(State())
    {
      var c := RepageFrame(lib, frames[cursor], page);
      match c
      case Done(f) =>
        frames := frames[cursor := f];
        r := Done(());
      case Failed(e) =>
        r := Failed(e);
    }

    /** The flood fill seeded at (0, 0); returns whether the library reported success.
        A failed fill leaves the frame as it was. */
    method FloodfillPaintImage(fuzz: real) returns (ok: bool)
      requires Valid()
      modifies this
      ensures Valid() && ok == lib.floodFill(old(frames[cursor]), fuzz)
      ensures State() == if ok then old(State()).(frames := old(frames)[old(cursor) := FillFrame(old(frames[cursor]), fuzz)])
                         else old(State())
    {
      ok := lib.floodFill(frames[cursor], fuzz);
      if ok {
        frames := frames[cursor := FillFrame(frames[cursor], fuzz)];
      }
    }

    method ScaleImage(factor: Scale) returns (r: Reply<()>)
      requires Valid()
      modifies this
      ensures Valid()
      ensures match ScaleFrame(lib, old(frames[cursor]), factor)
              case Done(f) => r.Done? && State() == old(State()).(frames := old(frames)[old(cursor) := f])
              case Failed(e) => r == Failed(e) && State() == old(State())
    {
      var c := ScaleFrame(lib, frames[cursor], factor);
      match c
      case Done(f) =>
        frames := frames[cursor := f];
        r := Done(());
      case Failed(e) =>
        r := Failed(e);
    }

    /** The length of the blob holding every frame, written in format `f`. */
    method WriteImagesBlobLength(f: string) returns (r: Reply<nat>)
      ensures r == lib.blob(frames, f)
    {
      r := lib.blob(frames, f);
    }
  }
}
