/// Model of package downsize (downsize.go): option defaulting, the three-way
/// encoder dispatch, and the width search that brings an image's encoding
/// under a target byte size.
///
/// The image, the JPEG/PNG/GIF encoders and the Lanczos resampler are one
/// abstract value, `Image`: its width and, for each encoder, a total and
/// deterministic function from a raster (the original, or the original
/// resized to a width) and the encoder's options to the encoded bytes or an
/// error message.
module Downsize {

  newtype byte = b: int | 0 <= b < 256

  datatype Option<T> = None | Some(value: T)

  datatype Result<T, E> = Ok(value: T) | Err(error: E)

  /** DefaultQuality is the JPEG quality filled in when none is given. */
  const DefaultQuality: int := 80

  /** The package's default output format (the variable defaultFormat). */
  const DefaultFormat: string := "jpeg"

  /** A resized result is accepted once it is at most this fraction below the target size. */
  const Accuracy: real := 0.05

  // ---------------------------------------------------------------------------
  // Options, as the caller and the package share them

  /** jpeg.Options: only the quality is read. */
  class JpegOptions {
    var quality: int

    constructor (quality: int)
      ensures this.quality == quality
    {
      this.quality := quality;
    }
  }

  /** gif.Options: the palette size stands for all of its fields. */
  class GifOptions {
    var numColors: int

    constructor (numColors: int)
      ensures this.numColors == numColors
    {
      this.numColors := numColors;
    }
  }

  /** The value an Options struct holds; nil option pointers are None. */
  datatype OptionValues = OptionValues(size: int, format: string, jpeg: Option<int>, gif: Option<int>)

  /** Options: the encoding parameters, a struct that setOptions and Encode update in place. */
  class Options {
    var size: int
    var format: string
    var jpegOptions: JpegOptions?
    var gifOptions: GifOptions?

    constructor (size: int, format: string, jpegOptions: JpegOptions?, gifOptions: GifOptions?)
      ensures this.size == size && this.format == format
      ensures this.jpegOptions == jpegOptions && this.gifOptions == gifOptions
    {
      this.size := size;
      this.format := format;
      this.jpegOptions := jpegOptions;
      this.gifOptions := gifOptions;
    }

    function Values(): OptionValues
      reads this, jpegOptions, gifOptions
    {
      OptionValues(size, format,
                   if jpegOptions == null then None else Some(jpegOptions.quality),
                   if gifOptions == null then None else Some(gifOptions.numColors))
    }
  }

  /** The values of the package's defaultOptions as declared. */
  const DefaultValues: OptionValues := OptionValues(0, DefaultFormat, Some(DefaultQuality), None)

  /** The package-level variables defaultJpegOptions and defaultOptions. They are
      never reassigned, but the objects they point to are shared and mutable. */
  class Package {
    const defaultJpegOptions: JpegOptions
    const defaultOptions: Options

    constructor ()
      ensures Pristine()
      ensures fresh(defaultJpegOptions) && fresh(defaultOptions)
    {
      var jpeg := new JpegOptions(DefaultQuality);
      defaultJpegOptions := jpeg;
      defaultOptions := new Options(0, DefaultFormat, jpeg, null);
    }

    /** The defaults still hold what their declarations give them. */
    predicate Pristine()
      reads defaultOptions, defaultJpegOptions
    {
      && defaultOptions.size == 0
      && defaultOptions.format == DefaultFormat
      && defaultOptions.jpegOptions == defaultJpegOptions
      && defaultOptions.gifOptions == null
      && defaultJpegOptions.quality == DefaultQuality
    }
  }

  /** The struct setOptions works on: the caller's, or the shared defaults for nil. */
  function Target(pkg: Package, o: Options?): Options
  {
    if o == null then pkg.defaultOptions else o
  }

  lemma PristineDefaults(pkg: Package)
    requires pkg.Pristine()
    ensures pkg.defaultOptions.Values() == DefaultValues
  {
  }

  /** The output format setOptions settles on. */
  function NormalizedFormat(format: string, hasGif: bool): string
  {
    if format != "" then format
    else if hasGif then "gif"
    else DefaultFormat
  }

  /** The options setOptions leaves behind, given the quality the shared default
      JpegOptions object currently holds. */
  function Normalize(v: OptionValues, defaultQuality: int): (r: OptionValues)
    ensures r.size == v.size && r.gif == v.gif
    ensures r.format != ""
    ensures v.format != "" ==> r.format == v.format
    ensures v.format == "" ==> (r.format == "gif" <==> v.gif.Some?) && (r.format == "gif" || r.format == "jpeg")
    ensures r.format == "jpeg" ==> r.jpeg.Some?
    ensures v.jpeg.Some? ==> r.jpeg == v.jpeg
    ensures r.jpeg != v.jpeg ==> r.format == "jpeg" && r.jpeg == Some(defaultQuality)
  {
    var format := NormalizedFormat(v.format, v.gif.Some?);
    v.(format := format,
       jpeg := if format == DefaultFormat && v.jpeg.None? then Some(defaultQuality) else v.jpeg)
  }

  lemma NormalizeIdempotent(v: OptionValues, q: int)
    ensures Normalize(Normalize(v, q), q) == Normalize(v, q)
  {
  }

  lemma NilOptionsAreDefaults()
    ensures var r := Normalize(DefaultValues, DefaultQuality);
      r == DefaultValues && r.format == "jpeg" && r.jpeg == Some(80)
  {
  }

  /** setOptions: normalises the caller's struct, or the shared defaults when o is nil,
      in place, and returns it. */
  method SetOptions(pkg: Package, o: Options?) returns (opts: Options)
    modifies Target(pkg, o)
    ensures opts == Target(pkg, o)
    ensures opts.size == old(opts.size) && opts.gifOptions == old(opts.gifOptions)
    ensures opts.format == NormalizedFormat(old(opts.format), old(opts.gifOptions) != null)
    ensures opts.jpegOptions ==
              if opts.format == DefaultFormat && old(opts.jpegOptions) == null
              then pkg.defaultJpegOptions else old(opts.jpegOptions)
    ensures opts.Values() == Normalize(old(opts.Values()), old(pkg.defaultJpegOptions.quality))
  {
    opts := pkg.defaultOptions;
    if o != null {
      opts := o;
    }
    if opts.format == "" {
      opts.format := DefaultFormat;
      if opts.gifOptions != null {
        opts.format := "gif";
      }
    }
    if opts.format == DefaultFormat && opts.jpegOptions == null {
      opts.jpegOptions := pkg.defaultJpegOptions;
    }
  }

  // ---------------------------------------------------------------------------
  // The image, the encoders and the format dispatch

  /** What is handed to an encoder: the decoded image, or it resized to a width
      (the height following the aspect ratio). */
  datatype Raster = Original | Resized(width: nat)

  /** An image as the core sees it: its width, and what each encoder produces for it. */
  datatype Image = Image(
    dx: nat,
    jpeg: (Raster, Option<int>) -> Result<seq<byte>, string>,
    png: Raster -> Result<seq<byte>, string>,
    gif: (Raster, Option<int>) -> Result<seq<byte>, string>)

  datatype EncodeError = UnknownFormat(format: string) | CodecFailure(message: string)

  predicate Supported(format: string)
  {
    format == "jpeg" || format == "png" || format == "gif"
  }

  function FromCodec(r: Result<seq<byte>, string>): Result<seq<byte>, EncodeError>
  {
    match r
    case Ok(bytes) => Ok(bytes)
    case Err(message) => Err(CodecFailure(message))
  }

  /** encode: the bytes the chosen encoder writes for the raster, or an error. */
  function EncodeWith(img: Image, raster: Raster, v: OptionValues): (r: Result<seq<byte>, EncodeError>)
    ensures !Supported(v.format) <==> r == Err(UnknownFormat(v.format))
    ensures r.Err? && r.error.CodecFailure? ==> Supported(v.format)
  {
    if v.format == "jpeg" then FromCodec(img.jpeg(raster, v.jpeg))
    else if v.format == "png" then FromCodec(img.png(raster))
    else if v.format == "gif" then FromCodec(img.gif(raster, v.gif))
    else Err(UnknownFormat(v.format))
  }

  // ---------------------------------------------------------------------------
  // The accuracy test

  /** The test `1 - newSize/size <= Accuracy`, in exact arithmetic. */
  predicate WithinAccuracy(newSize: int, size: int)
    requires size > 0
  {
    1.0 - (newSize as real) / (size as real) <= Accuracy
  }

  lemma AccuracyExact(newSize: int, size: int)
    requires size > 0
    ensures WithinAccuracy(newSize, size) <==> 20 * (size - newSize) <= size
  {
    var s := size as real;
    var n := newSize as real;
    ShortfallScaled(n, s);
    ShortfallBound(1.0 - n / s, n, s);
    assert (20 * (size - newSize)) as real == 20.0 * (s - n);
  }

  /** The shortfall `1 - n/s`, scaled back by s, is the byte difference s - n. */
  lemma ShortfallScaled(n: real, s: real)
    requires s > 0.0
    ensures (1.0 - n / s) * s == s - n
  {
    var q := n / s;
    assert q * s == n;
  }

  /** A shortfall d with d * s == s - n is within Accuracy exactly when 20 (s - n) <= s. */
  lemma ShortfallBound(d: real, n: real, s: real)
    requires s > 0.0 && d * s == s - n
    ensures d <= Accuracy <==> 20.0 * (s - n) <= s
  {
    ScalePreservesOrder(d, Accuracy, s);
  }

  lemma ScalePreservesOrder(a: real, b: real, s: real)
    requires s > 0.0
    ensures a <= b <==> a * s <= b * s
  {
  }

  // ---------------------------------------------------------------------------
  // The search, as a function of its inputs

  /** How Encode ends: the original encoding written as is, a resized encoding
      accepted by the accuracy test, the buffer left when the width range ran
      out, or an error. */
  datatype Exit =
    | Unresized(bytes: seq<byte>)
    | Accepted(bytes: seq<byte>)
    | Exhausted(bytes: seq<byte>)
    | Failed(error: EncodeError)

  /** The widths tried, in order, and how the call ended. */
  datatype Run = Run(probes: seq<nat>, exit: Exit)

  /** The size Encode aims for: a non-positive Size means the original size. */
  function TargetSize(size: int, originSize: nat): int
  {
    if size <= 0 then originSize else size
  }

  /** The loop of Encode from the range [lo, hi], `last` being in the buffer and
      `probes` the widths tried so far. */
  function Search(img: Image, v: OptionValues, target: int, lo: int, hi: int,
                  last: seq<byte>, probes: seq<nat>): Run
    requires target > 0 && 0 <= lo
    decreases hi - lo
  {
    if lo >= hi then Run(probes, Exhausted(last))
    else
      var w: nat := (lo + hi) / 2;
      match EncodeWith(img, Resized(w), v)
      case Err(e) => Run(probes + [w], Failed(e))
      case Ok(b) =>
        if |b| > target then Search(img, v, target, lo, w - 1, b, probes + [w])
        else if WithinAccuracy(|b|, target) then Run(probes + [w], Accepted(b))
        else Search(img, v, target, w + 1, hi, b, probes + [w])
  }

  /** Encode with already normalised options: encode at full width, then either
      write that or search the widths [0, dx]. */
  function EncodeRun(img: Image, v: OptionValues): Run
  {
    match EncodeWith(img, Original, v)
    case Err(e) => Run([], Failed(e))
    case Ok(origin) =>
      var target := TargetSize(v.size, |origin|);
      if |origin| <= target then Run([], Unresized(origin))
      else Search(img, v, target, 0, img.dx, origin, [])
  }

  /** Floor of the base-2 logarithm; 0 below 2. */
  function Log2(n: int): nat
  {
    if n < 2 then 0 else 1 + Log2(n / 2)
  }

  lemma {:induction false} Log2Monotone(m: int, n: int)
    requires m <= n
    ensures Log2(m) <= Log2(n)
    decreases n
  {
    if m >= 2 {
      Log2Monotone(m / 2, n / 2);
    }
  }

  /** Each step tries a width in [lo, hi) and at most Log2(hi - lo + 1) steps are taken. */
  lemma SearchProbes(img: Image, v: OptionValues, target: int, lo: int, hi: int,
                     last: seq<byte>, probes: seq<nat>)
    requires target > 0 && 0 <= lo
    ensures var r := Search(img, v, target, lo, hi, last, probes);
      && |probes| <= |r.probes|
      && r.probes[..|probes|] == probes
      && |r.probes| - |probes| <= Log2(hi - lo + 1)
      && forall i :: |probes| <= i < |r.probes| ==> lo <= r.probes[i] < hi
  {
    SearchTrace(img, v, target, lo, hi, last, probes);
    SearchSteps(img, v, target, lo, hi, last, probes);
  }

  /** The trace only grows, and each width it adds lies in [lo, hi). */
  lemma {:induction false} SearchTrace(img: Image, v: OptionValues, target: int, lo: int, hi: int,
                                       last: seq<byte>, probes: seq<nat>)
    requires target > 0 && 0 <= lo
    ensures var r := Search(img, v, target, lo, hi, last, probes);
      && |probes| <= |r.probes|
      && r.probes[..|probes|] == probes
      && forall i :: |probes| <= i < |r.probes| ==> lo <= r.probes[i] < hi
    decreases hi - lo
  {
    if lo < hi {
      var w: nat := (lo + hi) / 2;
      var next := probes + [w];
      match EncodeWith(img, Resized(w), v)
      case Err(_) =>
      case Ok(b) =>
        if |b| > target {
          SearchTrace(img, v, target, lo, w - 1, b, next);
          var r := Search(img, v, target, lo, w - 1, b, next);
          assert r.probes[..|probes|] == r.probes[..|next|][..|probes|];
        } else if !WithinAccuracy(|b|, target) {
          SearchTrace(img, v, target, w + 1, hi, b, next);
          var r := Search(img, v, target, w + 1, hi, b, next);
          assert r.probes[..|probes|] == r.probes[..|next|][..|probes|];
        }
    }
  }

  /** At most Log2(hi - lo + 1) widths are added: each step halves the range. */
  lemma {:induction false} SearchSteps(img: Image, v: OptionValues, target: int, lo: int, hi: int,
                                       last: seq<byte>, probes: seq<nat>)
    requires target > 0 && 0 <= lo
    ensures var r := Search(img, v, target, lo, hi, last, probes);
      |r.probes| - |probes| <= Log2(hi - lo + 1)
    decreases hi - lo
  {
    if lo < hi {
      var w: nat := (lo + hi) / 2;
      var next := probes + [w];
      assert Log2(hi - lo + 1) == 1 + Log2((hi - lo + 1) / 2);
      match EncodeWith(img, Resized(w), v)
      case Err(_) =>
      case Ok(b) =>
        if |b| > target {
          SearchSteps(img, v, target, lo, w - 1, b, next);
          Log2Monotone(w - lo, (hi - lo + 1) / 2);
        } else if !WithinAccuracy(|b|, target) {
          SearchSteps(img, v, target, w + 1, hi, b, next);
          Log2Monotone(hi - w, (hi - lo + 1) / 2);
        }
    }
  }

  /** An accepted result fits and passes the accuracy test. */
  lemma {:induction false} SearchAccepts(img: Image, v: OptionValues, target: int, lo: int, hi: int,
                                         last: seq<byte>, probes: seq<nat>)
    requires target > 0 && 0 <= lo
    ensures var r := Search(img, v, target, lo, hi, last, probes);
      r.exit.Accepted? ==> |r.exit.bytes| <= target && WithinAccuracy(|r.exit.bytes|, target)
    decreases hi - lo
  {
    if lo < hi {
      var w: nat := (lo + hi) / 2;
      match EncodeWith(img, Resized(w), v)
      case Err(_) =>
      case Ok(b) =>
        if |b| > target {
          SearchAccepts(img, v, target, lo, w - 1, b, probes + [w]);
        } else if !WithinAccuracy(|b|, target) {
          SearchAccepts(img, v, target, w + 1, hi, b, probes + [w]);
        }
    }
  }

  /** The search ends on the encode at the last width it tried: its error, or its
      bytes; with no width tried, the buffer it started with is left. */
  lemma {:induction false} SearchEndsOnLastProbe(img: Image, v: OptionValues, target: int, lo: int, hi: int,
                                                 last: seq<byte>, probes: seq<nat>)
    requires target > 0 && 0 <= lo
    ensures var r := Search(img, v, target, lo, hi, last, probes);
      && !r.exit.Unresized?
      && (|r.probes| <= |probes| ==> r.exit == Exhausted(last) && hi <= lo)
      && (|r.probes| > |probes| ==>
            var e := EncodeWith(img, Resized(r.probes[|r.probes| - 1]), v);
            if r.exit.Failed? then e == Err(r.exit.error) else e == Ok(r.exit.bytes))
    decreases hi - lo
  {
    if lo < hi {
      var w: nat := (lo + hi) / 2;
      match EncodeWith(img, Resized(w), v)
      case Err(_) =>
      case Ok(b) =>
        if |b| > target {
          SearchEndsOnLastProbe(img, v, target, lo, w - 1, b, probes + [w]);
          SearchTrace(img, v, target, lo, w - 1, b, probes + [w]);
        } else if !WithinAccuracy(|b|, target) {
          SearchEndsOnLastProbe(img, v, target, w + 1, hi, b, probes + [w]);
          SearchTrace(img, v, target, w + 1, hi, b, probes + [w]);
        }
    }
  }

  // ---------------------------------------------------------------------------
  // What Encode promises

  /** The original encoding is written unchanged, with no resize tried, exactly
      when it encodes and there is no limit or it already fits. */
  lemma UnresizedExactly(img: Image, v: OptionValues)
    ensures var r := EncodeRun(img, v);
      var origin := EncodeWith(img, Original, v);
      && (r.exit.Unresized? <==> origin.Ok? && (v.size <= 0 || |origin.value| <= v.size))
      && (r.exit.Unresized? ==> r.probes == [] && origin == Ok(r.exit.bytes))
  {
    var origin := EncodeWith(img, Original, v);
    if origin.Ok? {
      var target := TargetSize(v.size, |origin.value|);
      if |origin.value| > target {
        SearchEndsOnLastProbe(img, v, target, 0, img.dx, origin.value, []);
      }
    }
  }

  /** Without a limit the original encoding is always written. */
  lemma NoLimitWritesOriginal(img: Image, v: OptionValues)
    requires v.size <= 0
    ensures var origin := EncodeWith(img, Original, v);
      EncodeRun(img, v) == if origin.Ok? then Run([], Unresized(origin.value)) else Run([], Failed(origin.error))
  {
  }

  /** A format outside jpeg, png and gif fails before any encode or resize. */
  lemma UnknownFormatFails(img: Image, v: OptionValues)
    requires !Supported(v.format)
    ensures EncodeRun(img, v) == Run([], Failed(UnknownFormat(v.format)))
  {
  }

  /** Every width tried lies in [0, Dx), and at most Log2(Dx + 1) widths are tried. */
  lemma ProbesBounded(img: Image, v: OptionValues)
    ensures var r := EncodeRun(img, v);
      && |r.probes| <= Log2(img.dx + 1)
      && forall i :: 0 <= i < |r.probes| ==> r.probes[i] < img.dx
  {
    match EncodeWith(img, Original, v)
    case Err(_) =>
    case Ok(origin) =>
      var target := TargetSize(v.size, |origin|);
      if |origin| > target {
        SearchProbes(img, v, target, 0, img.dx, origin, []);
      }
  }

  /** A result accepted by the accuracy test lies in [Size - Size*Accuracy, Size]. */
  lemma AcceptedWithinBand(img: Image, v: OptionValues)
    ensures var r := EncodeRun(img, v);
      r.exit.Accepted? ==>
        var n := |r.exit.bytes|;
        && 0 < v.size
        && (v.size as real) - (v.size as real) * Accuracy <= n as real <= v.size as real
        && 20 * (v.size - n) <= v.size
  {
    match EncodeWith(img, Original, v)
    case Err(_) =>
    case Ok(origin) =>
      var target := TargetSize(v.size, |origin|);
      if |origin| > target {
        SearchAccepts(img, v, target, 0, img.dx, origin, []);
        var r := EncodeRun(img, v);
        if r.exit.Accepted? {
          AccuracyExact(|r.exit.bytes|, target);
        }
      }
  }

  /** What is written after a search was produced by the encode at the last width
      tried; only an image of width 0 leaves the original encoding in the buffer. */
  lemma ResultIsLastEncode(img: Image, v: OptionValues)
    ensures var r := EncodeRun(img, v);
      (r.exit.Accepted? || r.exit.Exhausted?) ==>
        if r.probes == [] then r.exit.Exhausted? && img.dx == 0 && EncodeWith(img, Original, v) == Ok(r.exit.bytes)
        else EncodeWith(img, Resized(r.probes[|r.probes| - 1]), v) == Ok(r.exit.bytes)
  {
    match EncodeWith(img, Original, v)
    case Err(_) =>
    case Ok(origin) =>
      var target := TargetSize(v.size, |origin|);
      if |origin| > target {
        SearchEndsOnLastProbe(img, v, target, 0, img.dx, origin, []);
      }
  }

  /** Any encode error, at full width or during the search, ends the call with that
      error: from the original encode if no width was tried, else from the last. */
  lemma ErrorsAbort(img: Image, v: OptionValues)
    ensures var r := EncodeRun(img, v);
      r.exit.Failed? ==>
        if r.probes == [] then EncodeWith(img, Original, v) == Err(r.exit.error)
        else EncodeWith(img, Resized(r.probes[|r.probes| - 1]), v) == Err(r.exit.error)
  {
    match EncodeWith(img, Original, v)
    case Err(_) =>
    case Ok(origin) =>
      var target := TargetSize(v.size, |origin|);
      if |origin| > target {
        SearchEndsOnLastProbe(img, v, target, 0, img.dx, origin, []);
      }
  }

  // ---------------------------------------------------------------------------
  // The search as its doc comment intends it

  /** The search as Encode's doc comment ("result size<=o.Size") intends it: the
      same widths are tried, but the last encoding that fitted is kept and is what
      is left when the range runs out. */
  function SearchKeepingFit(img: Image, v: OptionValues, target: int, lo: int, hi: int,
                            last: seq<byte>, fit: Option<seq<byte>>, probes: seq<nat>): Run
    requires target > 0 && 0 <= lo
    decreases hi - lo
  {
    if lo >= hi then Run(probes, Exhausted(if fit.Some? then fit.value else last))
    else
      var w: nat := (lo + hi) / 2;
      match EncodeWith(img, Resized(w), v)
      case Err(e) => Run(probes + [w], Failed(e))
      case Ok(b) =>
        if |b| > target then SearchKeepingFit(img, v, target, lo, w - 1, b, fit, probes + [w])
        else if WithinAccuracy(|b|, target) then Run(probes + [w], Accepted(b))
        else SearchKeepingFit(img, v, target, w + 1, hi, b, Some(b), probes + [w])
  }

  /** EncodeRun with the search that keeps the last fitting encoding. */
  function EncodeRunCorrected(img: Image, v: OptionValues): Run
  {
    match EncodeWith(img, Original, v)
    case Err(e) => Run([], Failed(e))
    case Ok(origin) =>
      var target := TargetSize(v.size, |origin|);
      if |origin| <= target then Run([], Unresized(origin))
      else SearchKeepingFit(img, v, target, 0, img.dx, origin, None, [])
  }

  /** The image resized to width w encodes within the target. */
  predicate FitsAt(img: Image, v: OptionValues, target: int, w: nat)
  {
    var e := EncodeWith(img, Resized(w), v);
    e.Ok? && |e.value| <= target
  }

  /** Keeping the fitting encoding changes no decision: the same widths are tried
      and only what an exhausted range leaves behind differs. */
  lemma {:induction false} KeepingFitSameDecisions(img: Image, v: OptionValues, target: int, lo: int, hi: int,
                                                   last: seq<byte>, fit: Option<seq<byte>>, probes: seq<nat>)
    requires target > 0 && 0 <= lo
    ensures var r := Search(img, v, target, lo, hi, last, probes);
      var c := SearchKeepingFit(img, v, target, lo, hi, last, fit, probes);
      && c.probes == r.probes
      && (c.exit.Exhausted? <==> r.exit.Exhausted?)
      && (!r.exit.Exhausted? ==> c.exit == r.exit)
    decreases hi - lo
  {
    if lo < hi {
      var w: nat := (lo + hi) / 2;
      match EncodeWith(img, Resized(w), v)
      case Err(_) =>
      case Ok(b) =>
        if |b| > target {
          KeepingFitSameDecisions(img, v, target, lo, w - 1, b, fit, probes + [w]);
        } else if !WithinAccuracy(|b|, target) {
          KeepingFitSameDecisions(img, v, target, w + 1, hi, b, Some(b), probes + [w]);
        }
    }
  }

  /** An exhausted range leaves an over-budget encoding only when no width tried fitted. */
  lemma {:induction false} KeepingFitStaysInBudget(img: Image, v: OptionValues, target: int, lo: int, hi: int,
                                                   last: seq<byte>, fit: Option<seq<byte>>, probes: seq<nat>)
    requires target > 0 && 0 <= lo
    requires fit.Some? ==> |fit.value| <= target
    ensures var c := SearchKeepingFit(img, v, target, lo, hi, last, fit, probes);
      c.exit.Exhausted? && |c.exit.bytes| > target ==>
        fit.None? && forall i :: |probes| <= i < |c.probes| ==> !FitsAt(img, v, target, c.probes[i])
    decreases hi - lo
  {
    if lo < hi {
      var w: nat := (lo + hi) / 2;
      var next := probes + [w];
      match EncodeWith(img, Resized(w), v)
      case Err(_) =>
      case Ok(b) =>
        if |b| > target {
          KeepingFitStaysInBudget(img, v, target, lo, w - 1, b, fit, next);
          KeepingFitSameDecisions(img, v, target, lo, w - 1, b, fit, next);
          SearchProbes(img, v, target, lo, w - 1, b, next);
          var c := SearchKeepingFit(img, v, target, lo, w - 1, b, fit, next);
          if c.exit.Exhausted? && |c.exit.bytes| > target {
            assert c.probes[|probes|] == c.probes[..|next|][|probes|] == w;
          }
        } else if !WithinAccuracy(|b|, target) {
          KeepingFitStaysInBudget(img, v, target, w + 1, hi, b, Some(b), next);
        }
    }
  }

  /** The corrected Encode tries the same widths, agrees with Encode except on an
      exhausted range, and then writes an over-budget encoding only when none of
      the widths it tried fitted. */
  lemma CorrectedRespectsBudget(img: Image, v: OptionValues)
    ensures var r := EncodeRun(img, v);
      var c := EncodeRunCorrected(img, v);
      && c.probes == r.probes
      && (!r.exit.Exhausted? ==> c.exit == r.exit)
      && (c.exit.Exhausted? && |c.exit.bytes| > v.size ==>
            forall i :: 0 <= i < |c.probes| ==> !FitsAt(img, v, v.size, c.probes[i]))
  {
    match EncodeWith(img, Original, v)
    case Err(_) =>
    case Ok(origin) =>
      var target := TargetSize(v.size, |origin|);
      if |origin| > target {
        KeepingFitSameDecisions(img, v, target, 0, img.dx, origin, None, []);
        KeepingFitStaysInBudget(img, v, target, 0, img.dx, origin, None, []);
      }
  }

  /** n zero bytes. */
  function Zeros(n: nat): (z: seq<byte>)
    ensures |z| == n
  {
    seq(n, _ => 0 as byte)
  }

  /** An image dx pixels wide whose every encoder gives originSize bytes at full
      width and perPixel bytes per pixel of width once resized. */
  function SampleImage(dx: nat, originSize: nat, perPixel: nat): Image
  {
    var enc: Raster -> Result<seq<byte>, string> :=
      (r: Raster) => Ok(Zeros(if r.Original? then originSize else perPixel * r.width));
    Image(dx, (r, q) => enc(r), enc, (r, g) => enc(r))
  }

  /** With sizes growing with width and a fitting width among those tried, Encode
      as written still writes an encoding over Size: width 2 (80 bytes) fits with
      room to spare, width 3 (120 bytes) does not, and the range is then empty. */
  lemma OverBudgetDespiteFit()
    ensures var img := SampleImage(4, 160, 40);
      var v := OptionValues(100, "jpeg", Some(DefaultQuality), None);
      var r := EncodeRun(img, v);
      && r == Run([2, 3], Exhausted(Zeros(120)))
      && FitsAt(img, v, 100, 2)
      && EncodeRunCorrected(img, v) == Run([2, 3], Exhausted(Zeros(80)))
  {
    var img := SampleImage(4, 160, 40);
    var v := OptionValues(100, "jpeg", Some(DefaultQuality), None);
    assert EncodeWith(img, Original, v) == Ok(Zeros(160));
    assert EncodeWith(img, Resized(2), v) == Ok(Zeros(80));
    assert EncodeWith(img, Resized(3), v) == Ok(Zeros(120));
    AccuracyExact(80, 100);
    assert Search(img, v, 100, 3, 4, Zeros(80), [2]) == Run([2, 3], Exhausted(Zeros(120)));
    assert SearchKeepingFit(img, v, 100, 3, 4, Zeros(80), Some(Zeros(80)), [2]) == Run([2, 3], Exhausted(Zeros(80)));
  }

  // ---------------------------------------------------------------------------
  // Byte buffers

  /** The scratch bytes.Buffer each encode writes into. */
  class Buffer {
    var data: seq<byte>

    constructor ()
      ensures data == []
    {
      data := [];
    }

    method Reset()
      modifies this
      ensures data == []
    {
      data := [];
    }

    method Write(bytes: seq<byte>)
      modifies this
      ensures data == old(data) + bytes
    {
      data := data + bytes;
    }

    function Len(): (n: nat)
      reads this
      ensures n == |data|
    {
      |data|
    }
  }

  /** The io.Writer the result is copied to. */
  class Sink {
    var written: seq<byte>

    constructor ()
      ensures written == []
    {
      written := [];
    }

    method Write(bytes: seq<byte>)
      modifies this
      ensures written == old(written) + bytes
    {
      written := written + bytes;
    }
  }

  // ---------------------------------------------------------------------------
  // Encode, as written

  /** The loop of Encode: binary search over widths [0, Dx], re-encoding into buf. */
  method SearchWidth(img: Image, v: OptionValues, target: int, buf: Buffer) returns (err: Option<EncodeError>)
    requires target > 0
    modifies buf
    ensures var r := Search(img, v, target, 0, img.dx, old(buf.data), []);
      if r.exit.Failed? then err == Some(r.exit.error) else err == None && buf.data == r.exit.bytes
  {
    var min, max := 0, img.dx;
    ghost var probes: seq<nat> := [];
    while min < max
      invariant 0 <= min
      invariant Search(img, v, target, min, max, buf.data, probes)
             == Search(img, v, target, 0, img.dx, old(buf.data), [])
      decreases max - min
    {
      ghost var before, lo, hi := buf.data, min, max;
      buf.Reset();
      var newWidth: nat := (min + max) / 2;
      var encoded := EncodeWith(img, Resized(newWidth), v);
      if encoded.Err? {
        return Some(encoded.error);
      }
      buf.Write(encoded.value);
      var newSize := buf.Len();
      if newSize > target {
        max := newWidth - 1;
      } else {
        var newAccur := 1.0 - (newSize as real) / (target as real);
        if newAccur <= Accuracy {
          // the source breaks out of the loop here and copies buf out
          return None;
        }
        min := newWidth + 1;
      }
      assert buf.data == encoded.value && newSize == |encoded.value|;
      assert lo < hi && newWidth == (lo + hi) / 2;
      assert Search(img, v, target, min, max, buf.data, probes + [newWidth])
          == Search(img, v, target, lo, hi, before, probes);
      probes := probes + [newWidth];
    }
    return None;
  }

  /** Encode: normalise the options, encode at full width, and either copy that
      out or search for a width whose encoding is within Accuracy below Size. */
  method Encode(w: Sink, img: Image, o: Options?, pkg: Package) returns (err: Option<EncodeError>)
    modifies w, Target(pkg, o)
    ensures var v := Normalize(old(Target(pkg, o).Values()), old(pkg.defaultJpegOptions.quality));
      var r := EncodeRun(img, v);
      if r.exit.Failed? then err == Some(r.exit.error) && w.written == old(w.written)
      else err == None && w.written == old(w.written) + r.exit.bytes
    ensures var v := Normalize(old(Target(pkg, o).Values()), old(pkg.defaultJpegOptions.quality));
      var origin := EncodeWith(img, Original, v);
      Target(pkg, o).Values() == if v.size <= 0 && origin.Ok? then v.(size := |origin.value|) else v
    ensures Target(pkg, o).jpegOptions ==
              if Target(pkg, o).format == DefaultFormat && old(Target(pkg, o).jpegOptions) == null
              then pkg.defaultJpegOptions else old(Target(pkg, o).jpegOptions)
    ensures Target(pkg, o).gifOptions == old(Target(pkg, o).gifOptions)
  {
    var buf := new Buffer();
    var opts := SetOptions(pkg, o);
    var v := opts.Values();
    var origin := EncodeWith(img, Original, v);
    if origin.Err? {
      return Some(origin.error);
    }
    buf.Write(origin.value);
    var originSize := buf.Len();
    if opts.size <= 0 {
      opts.size := originSize;
    }
    if originSize <= opts.size {
      w.Write(buf.data);
      return None;
    }
    err := SearchWidth(img, v, opts.size, buf);
    if err.Some? {
      return;
    }
    w.Write(buf.data);
  }

  /** The loop of the corrected Encode: as SearchWidth, but an encoding that fitted
      is kept and copied back into buf when the range runs out. */
  method SearchWidthKeepingFit(img: Image, v: OptionValues, target: int, buf: Buffer)
    returns (err: Option<EncodeError>)
    requires target > 0
    modifies buf
    ensures var r := SearchKeepingFit(img, v, target, 0, img.dx, old(buf.data), None, []);
      if r.exit.Failed? then err == Some(r.exit.error) else err == None && buf.data == r.exit.bytes
  {
    var min, max := 0, img.dx;
    var fit: Option<seq<byte>> := None;
    ghost var probes: seq<nat> := [];
    while min < max
      invariant 0 <= min
      invariant SearchKeepingFit(img, v, target, min, max, buf.data, fit, probes)
             == SearchKeepingFit(img, v, target, 0, img.dx, old(buf.data), None, [])
      decreases max - min
    {
      ghost var before, lo, hi, fitBefore := buf.data, min, max, fit;
      buf.Reset();
      var newWidth: nat := (min + max) / 2;
      var encoded := EncodeWith(img, Resized(newWidth), v);
      if encoded.Err? {
        return Some(encoded.error);
      }
      buf.Write(encoded.value);
      var newSize := buf.Len();
      if newSize > target {
        max := newWidth - 1;
      } else {
        var newAccur := 1.0 - (newSize as real) / (target as real);
        if newAccur <= Accuracy {
          return None;
        }
        min := newWidth + 1;
        fit := Some(buf.data);
      }
      assert buf.data == encoded.value && newSize == |encoded.value|;
      assert lo < hi && newWidth == (lo + hi) / 2;
      assert SearchKeepingFit(img, v, target, min, max, buf.data, fit, probes + [newWidth])
          == SearchKeepingFit(img, v, target, lo, hi, before, fitBefore, probes);
      probes := probes + [newWidth];
    }
    if fit.Some? {
      buf.Reset();
      buf.Write(fit.value);
    }
    return None;
  }

  /** setOptions with its JPEG default given its own object: a struct without JPEG
      options gets a fresh JpegOptions with the default quality, so no caller can
      reach, and change, the options later nil calls use. */
  method SetOptionsCorrected(pkg: Package, o: Options?) returns (opts: Options)
    modifies Target(pkg, o)
    ensures opts == Target(pkg, o)
    ensures opts.size == old(opts.size) && opts.gifOptions == old(opts.gifOptions)
    ensures opts.format == NormalizedFormat(old(opts.format), old(opts.gifOptions) != null)
    ensures if opts.format == DefaultFormat && old(opts.jpegOptions) == null
            then fresh(opts.jpegOptions) && opts.jpegOptions.quality == DefaultQuality
            else opts.jpegOptions == old(opts.jpegOptions)
    ensures opts.Values() == Normalize(old(opts.Values()), DefaultQuality)
  {
    opts := pkg.defaultOptions;
    if o != null {
      opts := o;
    }
    if opts.format == "" {
      opts.format := DefaultFormat;
      if opts.gifOptions != null {
        opts.format := "gif";
      }
    }
    if opts.format == DefaultFormat && opts.jpegOptions == null {
      opts.jpegOptions := new JpegOptions(DefaultQuality);
    }
  }

  /** Encode as intended: a nil Options leaves the shared defaults as they are (the
      target size is a local), missing JPEG options get their own object with the
      default quality, and an exhausted range writes the last encoding that fitted. */
  method EncodeCorrected(w: Sink, img: Image, o: Options?, pkg: Package) returns (err: Option<EncodeError>)
    modifies w, Target(pkg, o)
    ensures var v := Normalize(old(Target(pkg, o).Values()), DefaultQuality);
      var r := EncodeRunCorrected(img, v);
      if r.exit.Failed? then err == Some(r.exit.error) && w.written == old(w.written)
      else err == None && w.written == old(w.written) + r.exit.bytes
    ensures Target(pkg, o).Values() == Normalize(old(Target(pkg, o).Values()), DefaultQuality)
    ensures o == null && old(pkg.Pristine()) ==> pkg.Pristine()
  {
    var buf := new Buffer();
    var opts := SetOptionsCorrected(pkg, o);
    var v := opts.Values();
    var origin := EncodeWith(img, Original, v);
    if origin.Err? {
      return Some(origin.error);
    }
    buf.Write(origin.value);
    var originSize := buf.Len();
    var size := opts.size;
    if size <= 0 {
      size := originSize;
    }
    if originSize <= size {
      w.Write(buf.data);
      return None;
    }
    err := SearchWidthKeepingFit(img, v, size, buf);
    if err.Some? {
      return;
    }
    w.Write(buf.data);
  }

  /** Two Encode calls with nil options share one target: the first stores its
      image's 300-byte size into the defaults, so the second, whose image encodes
      to 500 bytes, is resized to 10 bytes instead of being written unchanged as it
      is with untouched defaults. */
  method NilCallsShareTarget() returns (first: seq<byte>, second: seq<byte>, alone: seq<byte>)
    ensures |first| == 300 && |second| == 10 && |alone| == 500
  {
    var imageA := SampleImage(2, 300, 10);
    var imageB := SampleImage(2, 500, 10);
    var pkg := new Package();
    var w1 := new Sink();
    var _ := Encode(w1, imageA, null, pkg);
    first := w1.written;
    assert pkg.defaultOptions.Values() == DefaultValues.(size := 300);
    var w2 := new Sink();
    var v := DefaultValues.(size := 300);
    assert EncodeWith(imageB, Original, v) == Ok(Zeros(500));
    assert EncodeWith(imageB, Resized(1), v) == Ok(Zeros(10));
    AccuracyExact(10, 300);
    assert EncodeRun(imageB, v) == Run([1], Exhausted(Zeros(10)));
    var _ := Encode(w2, imageB, null, pkg);
    second := w2.written;
    var untouched := new Package();
    var w3 := new Sink();
    var _ := Encode(w3, imageB, null, untouched);
    alone := w3.written;
  }

  /** A caller struct left without JPEG options receives the shared default
      object itself; raising its quality to 30 afterwards changes the quality every
      later nil call uses. With SetOptionsCorrected the same steps leave it at 80. */
  method SharedJpegOptionsLeak() returns (asWritten: Option<int>, corrected: Option<int>)
    ensures asWritten == Some(30) && corrected == Some(DefaultQuality)
  {
    var pkg := new Package();
    var mine := new Options(0, DefaultFormat, null, null);
    var opts := SetOptions(pkg, mine);
    opts.jpegOptions.quality := 30;
    var shared := SetOptions(pkg, null);
    asWritten := shared.Values().jpeg;

    var pkg2 := new Package();
    var mine2 := new Options(0, DefaultFormat, null, null);
    var opts2 := SetOptionsCorrected(pkg2, mine2);
    opts2.jpegOptions.quality := 30;
    var shared2 := SetOptionsCorrected(pkg2, null);
    corrected := shared2.Values().jpeg;
  }
}
