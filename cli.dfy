/// Model of the option handling of the downsize command (cmd/downsize/main.go):
/// the required-path check, the choice of the output format, and the Options
/// handed to Downsize.Encode. Flag parsing, files, decoding and logging are not
/// part of this model; the decoded format is a parameter.
module Cli {
  import opened Downsize

  /** Default of the -s flag: the target size in bytes. */
  const DefaultSize: int := 204800

  /** The parsed flags -s, -f, -q, -i and -o. */
  datatype Flags = Flags(size: int, format: string, quality: int, infile: string, outfile: string)

  /** The flags when none is given on the command line. */
  const DefaultFlags: Flags := Flags(DefaultSize, "", DefaultQuality, "", "")

  /** What main does first: print the usage and return, or go on with the two files. */
  datatype Start = Usage | Open(infile: string, outfile: string)

  function StartFor(flags: Flags): (s: Start)
    ensures s == Usage <==> flags.infile == "" || flags.outfile == ""
    ensures s.Open? ==> s.infile == flags.infile && s.outfile == flags.outfile
  {
    if flags.infile == "" || flags.outfile == "" then Usage
    else Open(flags.infile, flags.outfile)
  }

  /** The output format: the decoded one when -f is empty, "jpeg" for -f=jpg, else -f as given. */
  function OutputFormat(formatFlag: string, decodedFormat: string): string
  {
    if formatFlag == "" then decodedFormat
    else if formatFlag == "jpg" then "jpeg"
    else formatFlag
  }

  /** The Options main passes to Encode, as values. */
  function OptionsFor(flags: Flags, decodedFormat: string): (v: OptionValues)
    ensures v.size == flags.size && v.gif.None?
    ensures v.jpeg.Some? <==> flags.quality != 0 && v.format == "jpeg"
    ensures v.jpeg.Some? ==> v.jpeg.value == flags.quality
  {
    var format := OutputFormat(flags.format, decodedFormat);
    OptionValues(flags.size, format,
                 if flags.quality != 0 && format == "jpeg" then Some(flags.quality) else None,
                 None)
  }

  /** An empty -f encodes in the decoded format. */
  lemma EmptyFormatMeansDecoded(flags: Flags, decodedFormat: string)
    requires flags.format == ""
    ensures OptionsFor(flags, decodedFormat).format == decodedFormat
  {
  }

  /** -f=jpg gives the same Options as -f=jpeg, whatever the image was decoded from. */
  lemma JpgMeansJpeg(flags: Flags, decodedFormat: string)
    ensures OptionsFor(flags.(format := "jpg"), decodedFormat) == OptionsFor(flags.(format := "jpeg"), decodedFormat)
    ensures OptionsFor(flags.(format := "jpg"), decodedFormat).format == "jpeg"
  {
  }

  /** Any other non-empty -f is passed on as given, and the decoded format is then not consulted. */
  lemma OtherFormatsPassThrough(flags: Flags, decoded1: string, decoded2: string)
    requires flags.format != "" && flags.format != "jpg"
    ensures OptionsFor(flags, decoded1).format == flags.format
    ensures OptionsFor(flags, decoded1) == OptionsFor(flags, decoded2)
  {
  }

  /** The JPEG quality Encode ends up using, once setOptions has filled in the
      defaults: -q when it is non-zero and the output is jpeg, else the default
      quality 80 whenever the output is jpeg; no JPEG options otherwise. */
  lemma EffectiveQuality(flags: Flags, decodedFormat: string)
    ensures var format := OutputFormat(flags.format, decodedFormat);
      var r := Normalize(OptionsFor(flags, decodedFormat), DefaultQuality);
      && r.size == flags.size
      && (r.format == "jpeg" <==> format == "jpeg" || format == "")
      && r.jpeg == if format == "jpeg" && flags.quality != 0 then Some(flags.quality)
                   else if format == "jpeg" || format == "" then Some(DefaultQuality)
                   else None
  {
  }

  /** With no flags at all, main prints the usage; with only the paths given, it
      asks Encode for 204800 bytes with JPEG quality 80 when the output is jpeg. */
  lemma DefaultFlagsBehaviour(infile: string, outfile: string, decodedFormat: string)
    requires infile != "" && outfile != ""
    ensures StartFor(DefaultFlags) == Usage
    ensures var v := OptionsFor(DefaultFlags.(infile := infile, outfile := outfile), decodedFormat);
      && v.size == 204800
      && (decodedFormat == "jpeg" ==> v.jpeg == Some(80))
  {
  }

  /** The Options struct main builds, field by field, for the flags and the decoded format. */
  method NewOptions(flags: Flags, decodedFormat: string) returns (opt: Options)
    ensures fresh(opt) && (opt.jpegOptions == null || fresh(opt.jpegOptions))
    ensures opt.Values() == OptionsFor(flags, decodedFormat)
  {
    var outFormat := flags.format;
    if flags.format == "" {
      outFormat := decodedFormat;
    }
    if flags.format == "jpg" {
      outFormat := "jpeg";
    }
    opt := new Options(flags.size, outFormat, null, null);
    if flags.quality != 0 && outFormat == "jpeg" {
      opt.jpegOptions := new JpegOptions(flags.quality);
    }
  }
}
