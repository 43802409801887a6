/** The argument list `convertVideo` hands to the encoder for one rendition and
    one settings snapshot, and a reader that takes the values back out of it. */
module EncodeArgs {
  import opened Optional
  import opened Strings
  import opened Settings
  import opened Video

  /** The bitrate table entry a video rendition uses. */
  function TierOf(quality: Quality): (t: VideoTier)
    requires !quality.Audio?
    ensures quality.Q1080p? <==> t == Tier1080p
    ensures quality.Q720p? <==> t == Tier720p
    ensures quality.Q480p? <==> t == Tier480p
  {
    match quality
    case Q1080p => Tier1080p
    case Q720p => Tier720p
    case Q480p => Tier480p
  }

  /** JavaScript's text for the number `n / 2`: an integer when `n` is even,
      otherwise the integer part followed by ".5" (with the sign in front,
      so -1 gives "-0.5"). */
  function HalvesToString(n: int): string {
    if n % 2 == 0 then IntToString(n / 2)
    else if n < 0 then "-" + NatToString(-n / 2) + ".5"
    else NatToString(n / 2) + ".5"
  }

  /** `${x}k` for a rate `x`. */
  function Kbps(text: string): (r: string)
    ensures r != [] && r[|r| - 1] == 'k'
  {
    text + "k"
  }

  /** H.264 with the medium preset at constant quality 23. */
  const CodecOptions: seq<string> := ["-c:v", "libx264", "-preset", "medium", "-crf", "23"]

  /** AAC audio at 128 kbit/s, and the index moved to the front for
      streaming. */
  const TrackOptions: seq<string> := ["-c:a", "aac", "-b:a", "128k", "-movflags", "+faststart"]

  /** The target bitrate, a peak of one and a half times it and a buffer of
      twice it. */
  function RateOptions(bitrate: int): (r: seq<string>)
    ensures |r| == 6 && Paired(r)
  {
    ["-b:v", Kbps(IntToString(bitrate)),
     "-maxrate", Kbps(HalvesToString(3 * bitrate)),
     "-bufsize", Kbps(IntToString(bitrate * 2))]
  }

  /** Scaling to `height` lines, the width following the aspect ratio. */
  function ScaleOptions(height: int): (r: seq<string>)
    ensures |r| == 2 && Paired(r)
  {
    ["-vf", "scale=-2:" + IntToString(height)]
  }

  /** An option name: `-` and at least one more character. */
  predicate IsFlag(s: string) {
    |s| > 1 && s[0] == '-'
  }

  /** Options as name/value pairs: an even count, a name at every even
      position. */
  predicate Paired(r: seq<string>) {
    |r| % 2 == 0 && forall k :: 0 <= k < |r| && k % 2 == 0 ==> IsFlag(r[k])
  }

  lemma PairedAppend(a: seq<string>, b: seq<string>)
    requires Paired(a) && Paired(b)
    ensures Paired(a + b)
  {
    forall k | 0 <= k < |a + b| && k % 2 == 0
      ensures IsFlag((a + b)[k])
    {
      if k >= |a| {
        assert (a + b)[k] == b[k - |a|];
      }
    }
  }

  lemma ConstantsPaired()
    ensures Paired(CodecOptions) && Paired(TrackOptions)
  {
    assert IsFlag(CodecOptions[0]) && IsFlag(CodecOptions[2]) && IsFlag(CodecOptions[4]);
    assert IsFlag(TrackOptions[0]) && IsFlag(TrackOptions[2]) && IsFlag(TrackOptions[4]);
  }

  /** The options between `-i <input> -y` and the output path. */
  function EncoderOptions(quality: Quality, settings: Settings): (r: seq<string>)
    ensures quality.Audio? ==> |r| == 5 && r[0] == "-vn" && Paired(r[1..])
    ensures !quality.Audio? ==> |r| == 20 && Paired(r)
  {
    if quality.Audio? then
      var r := ["-vn", "-c:a", "libmp3lame", "-b:a", Kbps(IntToString(settings.audioBitrate))];
      assert IsFlag(r[1]) && IsFlag(r[3]);
      r
    else
      var rate := RateOptions(settings.videoBitrates.Get(TierOf(quality)));
      var scale := ScaleOptions(quality.TargetHeight());
      ConstantsPaired();
      PairedAppend(CodecOptions, rate);
      PairedAppend(CodecOptions + rate, scale);
      PairedAppend(CodecOptions + rate + scale, TrackOptions);
      CodecOptions
      + RateOptions(settings.videoBitrates.Get(TierOf(quality)))
      + ScaleOptions(quality.TargetHeight())
      + TrackOptions
  }

  /** Builds the argument list by appending, as `convertVideo` pushes onto
      `args`. */
  method BuildArgs(inputPath: string, outputPath: string, quality: Quality, settings: Settings)
    returns (args: seq<string>)
    ensures args == ["-i", inputPath, "-y"] + EncoderOptions(quality, settings) + [outputPath]
    ensures |args| > 3 && args[..3] == ["-i", inputPath, "-y"] && args[|args| - 1] == outputPath
  {
    args := ["-i", inputPath, "-y"];
    if quality.Audio? {
      args := args + ["-vn", "-c:a", "libmp3lame", "-b:a", Kbps(IntToString(settings.audioBitrate))];
    } else {
      var height := quality.TargetHeight();
      var bitrate := settings.videoBitrates.Get(TierOf(quality));
      args := args + (CodecOptions + RateOptions(bitrate) + ScaleOptions(height) + TrackOptions);
    }
    args := args + [outputPath];
  }

  /** 10 to the power `k`. */
  function Pow10(k: nat): (p: nat)
    ensures p > 0
  {
    if k == 0 then 1 else 10 * Pow10(k - 1)
  }

  /** Reads a decimal without sign: digits, optionally a '.' and more digits. */
  function ParseUnsigned(s: string): Option<real> {
    var parts := Split(s, '.');
    if |parts| == 1 && parts[0] != [] && AllDigits(parts[0]) then
      Some(DigitsValue(parts[0]) as real)
    else if |parts| == 2 && parts[0] != [] && AllDigits(parts[0]) && parts[1] != [] && AllDigits(parts[1]) then
      Some(DigitsValue(parts[0]) as real + DigitsValue(parts[1]) as real / Pow10(|parts[1]|) as real)
    else None
  }

  /** Reads a decimal number as JavaScript writes one below 1e21. */
  function ParseDecimal(s: string): Option<real> {
    if s != [] && s[0] == '-' then
      match ParseUnsigned(s[1..])
      case Some(v) => Some(-v)
      case None => None
    else ParseUnsigned(s)
  }

  /** The rate in kbit/s a `<x>k` option value denotes. */
  function KbpsValue(v: string): Option<real> {
    if v != [] && v[|v| - 1] == 'k' then ParseDecimal(v[..|v| - 1]) else None
  }

  lemma SplitWithout(s: string, sep: char)
    requires sep !in s
    ensures Split(s, sep) == [s]
  {
    SplitJoin([s], sep);
  }

  lemma ParseUnsignedNat(n: nat)
    ensures ParseUnsigned(NatToString(n)) == Some(n as real)
  {
    var s := NatToString(n);
    assert '.' !in s by {
      assert forall i :: 0 <= i < |s| ==> IsDigit(s[i]);
    }
    SplitWithout(s, '.');
    NatToStringRoundTrip(n);
  }

  lemma ParseUnsignedHalf(n: nat)
    ensures ParseUnsigned(NatToString(n) + ".5") == Some(n as real + 0.5)
  {
    var s := NatToString(n);
    assert '.' !in s by {
      assert forall i :: 0 <= i < |s| ==> IsDigit(s[i]);
    }
    SplitJoin([s, "5"], '.');
    assert Join([s, "5"], '.') == s + ".5";
    NatToStringRoundTrip(n);
    assert DigitsValue("5") == 5;
  }

  lemma ParseDecimalNegated(s: string)
    requires s != [] && s[0] != '-'
    ensures ParseDecimal("-" + s) == (match ParseUnsigned(s) case Some(v) => Some(-v) case None => None)
  {
    assert ("-" + s)[1..] == s;
  }

  /** What IntToString writes reads back as the same number. */
  lemma IntToStringDecimal(i: int)
    ensures ParseDecimal(IntToString(i)) == Some(i as real)
  {
    if i < 0 {
      ParseUnsignedNat(-i);
      ParseDecimalNegated(NatToString(-i));
    } else {
      ParseUnsignedNat(i);
    }
  }

  /** What HalvesToString writes reads back as half its argument. */
  lemma HalvesToStringDecimal(n: int)
    ensures ParseDecimal(HalvesToString(n)) == Some(n as real / 2.0)
  {
    if n % 2 == 0 {
      IntToStringDecimal(n / 2);
    } else if n < 0 {
      ParseUnsignedHalf(-n / 2);
      assert "-" + NatToString(-n / 2) + ".5" == "-" + (NatToString(-n / 2) + ".5");
      ParseDecimalNegated(NatToString(-n / 2) + ".5");
    } else {
      ParseUnsignedHalf(n / 2);
      assert NatToString(n / 2)[0] != '-';
    }
  }

  lemma KbpsRoundTrip(text: string)
    ensures KbpsValue(Kbps(text)) == ParseDecimal(text)
  {
    assert Kbps(text)[..|text|] == text;
  }

  /** An audio extraction drops the video stream and encodes MP3 at the
      configured audio bitrate; nothing else is passed. */
  lemma AudioOptions(settings: Settings)
    ensures EncoderOptions(Audio, settings) == ["-vn", "-c:a", "libmp3lame", "-b:a", Kbps(IntToString(settings.audioBitrate))]
    ensures KbpsValue(EncoderOptions(Audio, settings)[4]) == Some(settings.audioBitrate as real)
  {
    KbpsRoundTrip(IntToString(settings.audioBitrate));
    IntToStringDecimal(settings.audioBitrate);
  }

  /** The three rate values read back as the bitrate, one and a half times
      it and twice it, each after its own flag. */
  lemma RateValues(bitrate: int)
    ensures var r := RateOptions(bitrate);
      && r[0] == "-b:v" && KbpsValue(r[1]) == Some(bitrate as real)
      && r[2] == "-maxrate" && KbpsValue(r[3]) == Some(1.5 * bitrate as real)
      && r[4] == "-bufsize" && KbpsValue(r[5]) == Some(2.0 * bitrate as real)
  {
    KbpsRoundTrip(IntToString(bitrate));
    IntToStringDecimal(bitrate);
    KbpsRoundTrip(HalvesToString(3 * bitrate));
    HalvesToStringDecimal(3 * bitrate);
    assert (3 * bitrate) as real / 2.0 == 1.5 * bitrate as real;
    KbpsRoundTrip(IntToString(bitrate * 2));
    IntToStringDecimal(bitrate * 2);
    assert (bitrate * 2) as real == 2.0 * bitrate as real;
  }

  /** The four groups of a concatenation can be read back by position. */
  lemma FourParts(a: seq<string>, b: seq<string>, c: seq<string>, d: seq<string>)
    ensures var s := a + b + c + d;
      && s[..|a|] == a
      && s[|a|..|a| + |b|] == b
      && s[|a| + |b|..|a| + |b| + |c|] == c
      && s[|a| + |b| + |c|..] == d
  {
  }

  /** A video rendition asks for H.264 at the tier's bitrate, allows peaks of
      one and a half times it with a buffer of twice it, scales to the tier's
      height keeping the aspect ratio, and encodes AAC audio at 128 kbit/s. */
  lemma VideoOptions(quality: Quality, settings: Settings, opts: seq<string>, bitrate: int)
    requires !quality.Audio?
    requires opts == EncoderOptions(quality, settings)
    requires bitrate == settings.videoBitrates.Get(TierOf(quality))
    ensures |opts| == 20
    ensures opts[..6] == CodecOptions
    ensures opts[6] == "-b:v" && KbpsValue(opts[7]) == Some(bitrate as real)
    ensures opts[8] == "-maxrate" && KbpsValue(opts[9]) == Some(1.5 * bitrate as real)
    ensures opts[10] == "-bufsize" && KbpsValue(opts[11]) == Some(2.0 * bitrate as real)
    ensures opts[12] == "-vf" && opts[13] == "scale=-2:" + IntToString(quality.TargetHeight())
    ensures opts[14..] == TrackOptions
  {
    var rates, scale := RateOptions(bitrate), ScaleOptions(quality.TargetHeight());
    FourParts(CodecOptions, rates, scale, TrackOptions);
    assert |CodecOptions| == 6;
    RateValues(bitrate);
    assert opts[7] == opts[6..12][1];
    assert opts[9] == opts[6..12][3];
    assert opts[11] == opts[6..12][5];
  }
}
