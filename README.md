# downsize, modelled in Dafny

`downsize` re-encodes a decoded image so that its encoding fits a byte budget.
`Encode` first encodes the image at full width. If there is no budget
(`Size <= 0`), or that encoding already fits, it writes the encoding unchanged.
Otherwise it binary-searches the width in `[0, Dx]`. Each step resizes the image,
re-encodes it into a scratch buffer and compares its length with `Size`:
- too big: the upper bound drops below the width;
- fits and within 5 % of `Size`: the step accepts it;
- fits with room to spare: the lower bound rises above the width.

When the range is exhausted, whatever the buffer holds is written.

The project has two modules, one per source file:

- `Downsize` (`downsize.dfy`, for `downsize.go`)
  - `Options`, `JpegOptions` and `GifOptions` are classes, because the source updates them in place.
  - The package variables `defaultOptions` and `defaultJpegOptions` are the `const` fields of a `Package` object. A nil `*Options` therefore aliases shared, mutable state (`Target`).
  - `SetOptions` is `setOptions`.
  - `EncodeWith` is the `encode` dispatch.
  - `Encode` is the imperative search, with a scratch `Buffer` and an output `Sink`.
  - Each method is proved against a function of its inputs:
    - `Normalize` specifies `setOptions` on values.
    - `Search` specifies the loop.
    - `EncodeRun` specifies the whole call: the widths tried and how the call ended.
  - The properties are lemmas about these functions.
- `Cli` (`cli.dfy`, for `cmd/downsize/main.go:20-76`)
  - The usage check.
  - The output-format choice.
  - The `Options` that `main` hands to `Encode`.

The image, the three codecs and the Lanczos resampler are one abstract value,
`Image`. It holds the width `Dx`. For each codec it holds a total, deterministic
function from a raster to encoded bytes or an error message. The raster is
`Original` or `Resized(width)`, and each codec also receives its options. No
property depends on what these functions compute, and no monotonicity in width
is assumed.

The float test `1 - float64(newSize)/float64(Size) <= Accuracy` is modelled with
Dafny's exact `real`, both in the method and in the specification.
`AccuracyExact` proves it equivalent to the integer test
`20 * (Size - newSize) <= Size`.

Go's `(min + max) / 2` truncates toward zero. Inside the loop `min >= 0` and
`max > min`, so the dividend is never negative and Dafny's division agrees.

The doc comment of `Encode` (downsize.go:67) says "result size<=o.Size". The code
does not keep that promise (see Findings). The model follows the code:
- `Encode` writes the last encoding made, which may be over `Size`.
- An image with `Dx == 0` whose original encoding does not fit is written unchanged, because no width is tried.

## Model

| member | source | states |
|---|---|---|
| `Downsize.Package.constructor` | downsize.go:28-38 | the defaults start as format "jpeg", size 0, no GIF options, and the shared JPEG options object with quality 80 (`Pristine`) |
| `Downsize.PristineDefaults` | downsize.go:34-38 | untouched defaults hold the values `(0, "jpeg", quality 80, no GIF options)` |
| `Downsize.Normalize` | downsize.go:50-65 | size and GIF options are kept; the format is never empty afterwards; a given format is kept; an empty one becomes "gif" exactly when GIF options are set, else "jpeg"; "jpeg" always ends with JPEG options; caller-supplied JPEG options are kept; JPEG options are filled in only for "jpeg" and then with the default quality |
| `Downsize.NormalizeIdempotent` | downsize.go:55-63 | normalising twice gives the same options as normalising once |
| `Downsize.NilOptionsAreDefaults` | downsize.go:50-54 | with nil options the result is format "jpeg" with JPEG quality 80, and the defaults are a fixed point |
| `Downsize.SetOptions` | downsize.go:50-65 | updates the caller's struct in place, or the shared `defaultOptions` when `o` is nil, and returns that same object; its values become `Normalize` of the old ones; missing JPEG options become the shared `defaultJpegOptions` object itself (aliasing), and non-nil JPEG options are kept as is |
| `Downsize.EncodeWith` | downsize.go:116-127 | a format outside {jpeg, png, gif} gives exactly `UnknownFormat(format)` and no bytes, and only such a format gives it; a codec error arises only for a supported format |
| `Downsize.AccuracyExact` | downsize.go:105-106 | the accuracy test `1 - newSize/Size <= 0.05` holds exactly when `20 * (Size - newSize) <= Size` |
| `Downsize.SearchProbes` | downsize.go:91-111 | each step tries a width in `[min, max)`; the trace extends the one before; at most `Log2(max - min + 1)` steps are taken |
| `Downsize.SearchAccepts` | downsize.go:101-108 | a result accepted by the loop's `break` fits the target and passes the accuracy test |
| `Downsize.SearchEndsOnLastProbe` | downsize.go:94-112 | the loop ends with the error or the bytes of the encode at the last width it tried; with no width tried, the buffer it started with is left and the range was empty |
| `Downsize.UnresizedExactly` | downsize.go:80-89 | the full-width encoding is written unchanged, with no width tried, if and only if it encodes and `Size <= 0` or it already fits |
| `Downsize.NoLimitWritesOriginal` | downsize.go:82-88 | with `Size <= 0` the outcome is the full-width encode, or its error |
| `Downsize.UnknownFormatFails` | downsize.go:75-79 | an unsupported format fails with `UnknownFormat` before any resize |
| `Downsize.ProbesBounded` | downsize.go:91-111 | every width tried lies in `[0, Dx)`, and at most `Log2(Dx + 1)` widths are tried |
| `Downsize.AcceptedWithinBand` | downsize.go:40-42 | an accepted resized result has size `n` with `Size - Size*Accuracy <= n <= Size` (so `Size > 0` and `20 * (Size - n) <= Size`) |
| `Downsize.ResultIsLastEncode` | downsize.go:94-113 | what is written after a search is the encoding at the last width tried; only when `Dx == 0` is no width tried, and the full-width encoding is written |
| `Downsize.ErrorsAbort` | downsize.go:77-100 | a failed call fails with the error of the full-width encode when no width was tried, else with the error of the encode at the last width tried |
| `Downsize.Buffer.Reset` | downsize.go:95 | the scratch buffer is empty after a reset |
| `Downsize.Buffer.Write` | downsize.go:98 | a codec writing into the scratch buffer appends exactly its encoded bytes |
| `Downsize.Buffer.Len` | downsize.go:101 | `buf.Len()` is the number of bytes the buffer holds |
| `Downsize.Sink.Write` | downsize.go:112 | copying to the writer appends exactly the buffer's bytes |
| `Downsize.SearchWidth` | downsize.go:91-111 | the loop returns the error, or leaves in the buffer the bytes, of `Search` from `[0, Dx]` and the full-width encoding |
| `Downsize.Encode` | downsize.go:70-114 | on error, returns the error of `EncodeRun` for the normalised options and writes nothing; otherwise writes exactly `EncodeRun`'s bytes; leaves the options struct (the shared defaults for nil) normalised, with `Size` replaced by the full-width size when it was `<= 0` and that encode succeeded |
| `Downsize.NilCallsShareTarget` | downsize.go:82-84 | two calls with nil options: the first writes its 300-byte image; the second image (500 bytes at full width) is resized to 10 bytes; with untouched defaults the same image is written at 500 bytes |
| `Downsize.OverBudgetDespiteFit` | downsize.go:101-112 | sizes growing with width, `Size` 100: widths 2 (80 bytes) then 3 (120 bytes) are tried, and `Encode` writes 120 bytes although width 2 fits; the corrected search writes the 80 bytes |
| `Downsize.KeepingFitSameDecisions` | downsize.go:94-111 | keeping the last fitting encoding changes no step of the search; only what an exhausted range leaves differs |
| `Downsize.KeepingFitStaysInBudget` | downsize.go:94-112 | with the fix, an exhausted range leaves an over-budget encoding only if no width tried fitted |
| `Downsize.CorrectedRespectsBudget` | downsize.go:67-114 | the corrected `Encode` tries the same widths and agrees with `Encode` except on an exhausted range; then it writes more than `Size` only when no width tried fitted |
| `Downsize.SearchWidthKeepingFit` | downsize.go:91-112 | the corrected loop implements `SearchKeepingFit` |
| `Downsize.SetOptionsCorrected` | downsize.go:50-65 | as `SetOptions`, except that missing JPEG options become a fresh object with quality 80, so the values are `Normalize` with the default quality whatever the shared object holds |
| `Downsize.EncodeCorrected` | downsize.go:70-114 | writes exactly `EncodeRunCorrected`'s bytes for options normalised with quality 80; leaves the options struct normalised with its `Size` untouched; a nil call leaves pristine defaults pristine |
| `Downsize.SharedJpegOptionsLeak` | downsize.go:61-63 | after `SetOptions` fills a caller struct and the caller sets its JPEG quality to 30, a nil call gets quality 30; with `SetOptionsCorrected` it gets 80 |
| `Cli.StartFor` | cmd/downsize/main.go:33-36 | usage is chosen exactly when `-i` or `-o` is empty, and otherwise main goes on with the two paths |
| `Cli.OptionsFor` | cmd/downsize/main.go:63-76 | `Size` is the `-s` flag and there are no GIF options; JPEG options are set exactly when `-q` is non-zero and the output format is "jpeg", and then carry `-q` |
| `Cli.EmptyFormatMeansDecoded` | cmd/downsize/main.go:63-66 | an empty `-f` makes the output format the decoded one |
| `Cli.JpgMeansJpeg` | cmd/downsize/main.go:68-70 | `-f=jpg` gives the same options as `-f=jpeg`, with format "jpeg" |
| `Cli.OtherFormatsPassThrough` | cmd/downsize/main.go:63-70 | any other non-empty `-f` is passed through, whatever was decoded |
| `Cli.EffectiveQuality` | cmd/downsize/main.go:74-76 | once `setOptions` has run, the JPEG quality used is `-q` when non-zero for jpeg output, and 80 when `-q` is 0 or the format came out empty; non-jpeg output has none |
| `Cli.DefaultFlagsBehaviour` | cmd/downsize/main.go:26-36 | with no flags, main prints usage; with only the paths, the target is 204800 bytes and a jpeg image gets quality 80 |
| `Cli.NewOptions` | cmd/downsize/main.go:63-76 | the struct built step by step holds exactly `OptionsFor`'s values |

## Findings

| source | as written | input that shows it | evidently intended | confidence | as-written member | corrected member |
|---|---|---|---|---|---|---|
| downsize.go:82-84 | with nil options, `opts` is the shared `defaultOptions`, and `opts.Size = originSize` stores the first image's size in it | `Encode(w, a, nil)` with `a` encoding to 300 bytes, then `Encode(w, b, nil)` with `b` encoding to 500 bytes at full width and 10 bytes resized: the second call resizes to 10 bytes instead of writing 500 | every nil call treats "no size" as "no limit"; the target is a local, and the defaults stay as declared | high; not executed | `Downsize.Encode`, `Downsize.NilCallsShareTarget` | `Downsize.EncodeCorrected` |
| downsize.go:101-112 | when the range runs out, the buffer holds the last encode, which may have been too big, and it is written | `Dx = 4`, `Size = 100`, full width 160 bytes, width `w` 40·w bytes: width 2 (80 bytes) fits with room, width 3 (120 bytes) is too big, and 120 bytes are written | "result size<=o.Size" (downsize.go:67): the last encoding that fitted is written when one did | medium; not executed | `Downsize.Encode`, `Downsize.OverBudgetDespiteFit` | `Downsize.EncodeCorrected`, `Downsize.CorrectedRespectsBudget` |
| downsize.go:61-63 | a caller struct without JPEG options receives the shared `defaultJpegOptions` pointer, so the caller can change the quality every later nil call uses | `o := &Options{Format: "jpeg"}`, `Encode(w, img, o)`, then `o.JpegOptions.Quality = 30`: a later `Encode(w, img2, nil)` encodes with quality 30 | the default quality is 80 for every call that gives no JPEG options | medium; not executed | `Downsize.SetOptions`, `Downsize.SharedJpegOptionsLeak` | `Downsize.SetOptionsCorrected`, `Downsize.EncodeCorrected` |

## Left out

- The JPEG, PNG and GIF codecs and `resize.Resize` with Lanczos3 are foreign library calls. They are the abstract functions of `Image`; the library's handling of width 0 and of the unchanged width is therefore not modelled. `resize.Resize` keeps the original size for width 0, so a search that ends on width 0 writes the full-width encoding again; the model treats `Resized(0)` as just another raster.
- The `sync.Pool` of buffers is a concurrency and allocation device. Each call uses a fresh, empty `Buffer`.
- Floating-point rounding in the accuracy test is not modelled: the test is exact in `real`, so results on the boundary of the 5 % band may differ from float64.
- Partial writes and write errors of `io.Copy`, and partial output a failing codec leaves in the scratch buffer, are not modelled: the sink receives the buffer's bytes in one append.
- `GifOptions` keeps only `NumColors`; its `Quantizer` and `Drawer` interfaces are not modelled.
- Go's `int` overflow in `min + max` is not modelled; widths are unbounded integers.
- Concurrent calls sharing `defaultOptions` (a data race with nil options) are not modelled.
- In cmd/downsize/main.go, the following are outside this model: flag parsing, the usage text, opening, creating and closing files, `image.Decode` with its format detection (the decoded format is a parameter), logging, and `log.Fatal` exits (main.go:20-31, 38-61, 78-80).
- `Cli.StartFor`: the model cannot observe that no file is opened. It states only that the usage decision depends on the two paths alone.
- downsize_test.go needs image files and real codecs. Its accuracy check is the property `AcceptedWithinBand`.
