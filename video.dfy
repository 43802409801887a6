/** The conversion rules of `video.ts`: the four renditions, which of them a
    source of a given height is offered, how a file is recognised as a video,
    how an output file is named, how a duration is written, and how the
    probe's numbers are defaulted. */
module Video {
  import opened Optional
  import opened Strings
  import NodePath

  /** A rendition: three scaled video tiers and the audio-only extraction. */
  datatype Quality = Q1080p | Q720p | Q480p | Audio {

    /** The tag the interface and the file names use. */
    function Tag(): string {
      match this
      case Q1080p => "1080p"
      case Q720p => "720p"
      case Q480p => "480p"
      case Audio => "audio"
    }

    /** Position in the offered list: larger tiers first, audio last. */
    function Rank(): nat {
      match this
      case Q1080p => 0
      case Q720p => 1
      case Q480p => 2
      case Audio => 3
    }

    /** The height a video tier scales to. */
    function TargetHeight(): (h: int)
      requires !Audio?
      ensures Tag() == IntToString(h) + "p"
      ensures h == 1080 || h == 720 || h == 480
    {
      match this
      case Q1080p => assert NatToString(1080) == "1080"; 1080
      case Q720p => assert NatToString(720) == "720"; 720
      case Q480p => assert NatToString(480) == "480"; 480
    }
  }

  /** What the probe reports about a source file. */
  datatype VideoInfo = VideoInfo(
    path: string, name: string, size: int,
    width: int, height: int, duration: int, bitrate: int)

  /** A field of the inspector's JSON report: absent (or falsy: missing, null,
      "" or the number 0), or present with the number it parses to, if any. */
  datatype RawField = Absent | Present(parsed: Option<int>)

  /** `parseInt(x) || 0` / `parseFloat(x) || 0`: a field that is missing or
      does not parse becomes 0. */
  function NumberOrZero(f: RawField): (n: int)
    ensures f.Present? && f.parsed.Some? ==> n == f.parsed.value
    ensures f.Absent? || f.parsed.None? ==> n == 0
  {
    if f.Present? && f.parsed.Some? then f.parsed.value else 0
  }

  /** `stream.x || format.x`: the stream's field is used whenever present,
      even when it does not parse. */
  function StreamOrFormat(stream: RawField, format: RawField): (n: int)
    ensures stream.Present? ==> n == NumberOrZero(stream)
    ensures stream.Absent? ==> n == NumberOrZero(format)
  {
    NumberOrZero(if stream.Present? then stream else format)
  }

  /** The record `getVideoInfo` resolves with, once the inspector succeeded
      and the file size is known. */
  function ProbeResult(path: string, size: int,
                       streamWidth: RawField, streamHeight: RawField,
                       streamDuration: RawField, formatDuration: RawField,
                       streamBitrate: RawField, formatBitrate: RawField): (info: VideoInfo)
    ensures info.path == path && info.size == size
    ensures info.name == NodePath.Basename(path)
    ensures info.width == NumberOrZero(streamWidth)
    ensures info.height == NumberOrZero(streamHeight)
    ensures info.duration == StreamOrFormat(streamDuration, formatDuration)
    ensures info.bitrate == StreamOrFormat(streamBitrate, formatBitrate)
  {
    VideoInfo(path, NodePath.Basename(path), size,
      NumberOrZero(streamWidth), NumberOrZero(streamHeight),
      StreamOrFormat(streamDuration, formatDuration),
      StreamOrFormat(streamBitrate, formatBitrate))
  }

  /** `getAvailableQualities`: every tier no taller than the source, largest
      first, then audio. */
  method AvailableQualities(info: VideoInfo) returns (qualities: seq<Quality>)
    ensures Q1080p in qualities <==> info.height >= 1080
    ensures Q720p in qualities <==> info.height >= 720
    ensures Q480p in qualities <==> info.height >= 480
    ensures |qualities| > 0 && qualities[|qualities| - 1] == Audio
    ensures forall i, j :: 0 <= i < j < |qualities| ==> qualities[i].Rank() < qualities[j].Rank()
    ensures forall q :: q in qualities && !q.Audio? ==> q.TargetHeight() <= info.height
    ensures info.height < 480 ==> qualities == [Audio]
  {
    qualities := [];
    var height := info.height;
    if height >= 1080 {
      qualities := qualities + [Q1080p];
    }
    if height >= 720 {
      qualities := qualities + [Q720p];
    }
    if height >= 480 {
      qualities := qualities + [Q480p];
    }
    qualities := qualities + [Audio];
  }

  /** Offered lists are downward closed: a tier implies every smaller tier. */
  lemma OfferedDownwardClosed(info: VideoInfo, qualities: seq<Quality>, q: Quality, smaller: Quality)
    requires Q1080p in qualities <==> info.height >= 1080
    requires Q720p in qualities <==> info.height >= 720
    requires Q480p in qualities <==> info.height >= 480
    requires q in qualities && !q.Audio? && !smaller.Audio?
    requires q.Rank() < smaller.Rank()
    ensures smaller in qualities
  {
  }

  const VideoExtensions: seq<string> :=
    [".mp4", ".avi", ".mkv", ".mov", ".wmv", ".flv", ".webm", ".m4v", ".mpeg", ".mpg"]

  /** `isVideoFile`: the lower-cased extension is one of the ten. */
  function IsVideoFile(filename: string): (b: bool)
    ensures b ==> var ext := NodePath.Extname(filename); |ext| >= 4 && ext[0] == '.'
  {
    VideoExtensionsShape();
    Lower(NodePath.Extname(filename)) in VideoExtensions
  }

  /** `generateOutputFilename`: `<name>.mp3` for audio and
      `<name>_<tag>.mp4` otherwise, in the input's directory, where `<name>` is
      the input's base name without its extension. */
  function OutputFilename(inputPath: string, quality: Quality): (r: string)
    ensures |OutputSuffix(quality)| <= |r| && r[|r| - |OutputSuffix(quality)|..] == OutputSuffix(quality)
  {
    var dir := NodePath.Dirname(inputPath);
    var name := NodePath.BasenameWithout(inputPath, NodePath.Extname(inputPath));
    AppendAssoc(NodePath.JoinPrefix(dir), name, OutputSuffix(quality));
    NodePath.Join(dir, name + OutputSuffix(quality))
  }

  /** What follows the stem in an output file name. */
  function OutputSuffix(quality: Quality): string {
    TagSuffix(quality) + Container(quality)
  }

  /** `_<tag>` for a video rendition; nothing for audio. */
  function TagSuffix(quality: Quality): (r: string)
    ensures '/' !in r && '.' !in r
    ensures quality.Audio? <==> r == []
  {
    if quality.Audio? then "" else "_" + quality.Tag()
  }

  /** The output's extension: MP3 for audio, MP4 for video. */
  function Container(quality: Quality): (r: string)
    ensures |r| > 1 && r[0] == '.' && '.' !in r[1..] && '/' !in r
  {
    if quality.Audio? then ".mp3" else ".mp4"
  }

  /** Different renditions get different suffixes. */
  lemma OutputSuffixInjective(q1: Quality, q2: Quality)
    requires OutputSuffix(q1) == OutputSuffix(q2)
    ensures q1 == q2
  {
    assert |OutputSuffix(Audio)| == 4 && |OutputSuffix(Q1080p)| == 10;
    assert |OutputSuffix(Q720p)| == |OutputSuffix(Q480p)| == 9;
    assert OutputSuffix(Q720p)[1] == '7' && OutputSuffix(Q480p)[1] == '4';
  }

  /** The test ignores the case of the extension. */
  lemma IsVideoFileIgnoresCase(filename: string)
    ensures IsVideoFile(Lower(filename)) == IsVideoFile(filename)
  {
    NodePath.ExtnameLower(filename);
    LowerIdempotent(NodePath.Extname(filename));
  }

  /** A file `<stem><ext>` in any directory is a video exactly when its
      extension, lower-cased, is one of the ten. */
  lemma IsVideoFileOf(dir: string, stem: string, ext: string)
    requires dir == [] || dir[|dir| - 1] == '/'
    requires stem != [] && '/' !in stem
    requires |ext| > 1 && ext[0] == '.' && '.' !in ext[1..] && '/' !in ext
    ensures IsVideoFile(dir + stem + ext) <==> Lower(ext) in VideoExtensions
  {
    NodePath.ExtnameAppend(dir, stem, ext);
  }

  /** A name whose last component has no '.' (or only a leading one) is never
      a video. */
  lemma NoExtensionIsNotVideo(filename: string)
    requires NodePath.LastIndexOf(NodePath.Basename(filename), '.') <= 0
    ensures !IsVideoFile(filename)
  {
  }

  lemma IsVideoFileUpperCaseExample()
    ensures IsVideoFile("clip.MP4")
  {
    var ext := ".MP4";
    assert Lower(ext) == VideoExtensions[0];
    assert "" + "clip" + ext == "clip.MP4";
    IsVideoFileOf("", "clip", ext);
  }

  lemma IsVideoFileDotFileExample()
    ensures !IsVideoFile(".mp4")
  {
    NodePath.BasenameAppend("", ".mp4");
    NoExtensionIsNotVideo(".mp4");
  }

  /** The output file keeps the input's stem, directly followed by the
      rendition's suffix, as its last component. */
  lemma OutputFilenameBase(inputPath: string, quality: Quality)
    ensures NodePath.Basename(OutputFilename(inputPath, quality))
      == NodePath.BasenameWithout(inputPath, NodePath.Extname(inputPath)) + OutputSuffix(quality)
  {
    var name := NodePath.BasenameWithout(inputPath, NodePath.Extname(inputPath));
    NotInAppend(TagSuffix(quality), Container(quality), '/');
    NotInAppend(name, OutputSuffix(quality), '/');
    NodePath.BasenameAppend(NodePath.JoinPrefix(NodePath.Dirname(inputPath)), name + OutputSuffix(quality));
  }

  /** The output goes in the input's own directory. */
  lemma OutputInInputDirectory(inputPath: string, quality: Quality)
    requires var dir := NodePath.Dirname(inputPath);
      dir == "." || dir == "/" || (dir != [] && dir[|dir| - 1] != '/')
    ensures NodePath.Dirname(OutputFilename(inputPath, quality)) == NodePath.Dirname(inputPath)
  {
    var name := NodePath.BasenameWithout(inputPath, NodePath.Extname(inputPath));
    NotInAppend(TagSuffix(quality), Container(quality), '/');
    NotInAppend(name, OutputSuffix(quality), '/');
    NodePath.DirnameJoin(NodePath.Dirname(inputPath), name + OutputSuffix(quality));
  }

  /** Video renditions are `.mp4` files; the audio extraction is an `.mp3`
      file whenever the input's last component is not empty. */
  lemma OutputFilenameExtension(inputPath: string, quality: Quality)
    requires quality.Audio? ==> NodePath.Basename(inputPath) != []
    ensures NodePath.Extname(OutputFilename(inputPath, quality)) == (if quality.Audio? then ".mp3" else ".mp4")
  {
    var prefix := NodePath.JoinPrefix(NodePath.Dirname(inputPath));
    var name := NodePath.BasenameWithout(inputPath, NodePath.Extname(inputPath));
    var tag, ext := TagSuffix(quality), Container(quality);
    NotInAppend(name, tag, '/');
    AppendAssoc(name, tag, ext);
    AppendAssoc(prefix, name + tag, ext);
    NodePath.ExtnameAppend(prefix, name + tag, ext);
  }

  /** The four renditions of one input go to four different files. */
  lemma OutputFilenamesDistinct(inputPath: string, q1: Quality, q2: Quality)
    requires OutputFilename(inputPath, q1) == OutputFilename(inputPath, q2)
    ensures q1 == q2
  {
    var dir := NodePath.Dirname(inputPath);
    var name := NodePath.BasenameWithout(inputPath, NodePath.Extname(inputPath));
    NodePath.JoinInjective(dir, name + OutputSuffix(q1), name + OutputSuffix(q2));
    assert OutputSuffix(q1) == (name + OutputSuffix(q1))[|name|..];
    assert OutputSuffix(q2) == (name + OutputSuffix(q2))[|name|..];
    OutputSuffixInjective(q1, q2);
  }

  /** Converting a video never writes onto the input file's own name. */
  lemma OutputFilenameNotInput(inputPath: string, quality: Quality)
    requires IsVideoFile(inputPath)
    ensures NodePath.Basename(OutputFilename(inputPath, quality)) != NodePath.Basename(inputPath)
  {
    var ext := NodePath.Extname(inputPath);
    OutputFilenameBase(inputPath, quality);
    SuffixIsNotVideoExtension(quality, ext);
    NodePath.BasenameSplitsAtExtname(inputPath);
    CancelPrefix(NodePath.BasenameWithout(inputPath, ext), OutputSuffix(quality), ext);
  }

  lemma VideoExtensionsShape()
    ensures forall e :: e in VideoExtensions ==> |e| >= 4 && e[0] == '.' && e[3] != '3'
  {
  }

  /** No output suffix is a video extension in any letter case. */
  lemma SuffixIsNotVideoExtension(quality: Quality, ext: string)
    requires Lower(ext) in VideoExtensions
    ensures OutputSuffix(quality) != ext
  {
    VideoExtensionsShape();
    if quality.Audio? {
      assert Lower(".mp3")[3] == '3';
    } else {
      assert OutputSuffix(quality)[0] == '_';
      assert LowerChar(ext[0]) == '.';
    }
  }

  /** `formatDuration` for a whole number of seconds: minutes and seconds,
      with hours in front once there are sixty minutes or more. */
  function FormatDuration(seconds: nat): (r: string)
    ensures |r| >= 5 && r[|r| - 1] == 's'
  {
    var mins := seconds / 60;
    var secs := seconds % 60;
    if mins >= 60 then
      NatToString(mins / 60) + "h " + NatToString(mins % 60) + "m " + NatToString(secs) + "s"
    else
      NatToString(mins) + "m " + NatToString(secs) + "s"
  }

  /** Length of the run of digits at the start of `s`. */
  function DigitRun(s: string): (n: nat)
    ensures n <= |s| && AllDigits(s[..n])
    ensures n < |s| ==> !IsDigit(s[n])
  {
    if s == [] || !IsDigit(s[0]) then 0
    else
      var n := 1 + DigitRun(s[1..]);
      assert forall k :: 1 <= k < n ==> s[..n][k] == s[1..][..n - 1][k - 1];
      n
  }

  /** A number at the start of `s` and what follows it. */
  function ParseNumber(s: string): Option<(nat, string)> {
    var n := DigitRun(s);
    if n == 0 then None else Some((DigitsValue(s[..n]), s[n..]))
  }

  /** `s` without the leading `lit`, if it starts with it. */
  function StripPrefix(s: string, lit: string): Option<string> {
    if |lit| <= |s| && s[..|lit|] == lit then Some(s[|lit|..]) else None
  }

  /** Reads "<m>m <s>s" with s below 60. */
  function ParseMinutesSeconds(text: string): Option<(nat, nat)> {
    match ParseNumber(text)
    case None => None
    case Some((m, rest)) =>
      match StripPrefix(rest, "m ")
      case None => None
      case Some(rest2) =>
        match ParseNumber(rest2)
        case None => None
        case Some((s, rest3)) => if rest3 == "s" && s < 60 then Some((m, s)) else None
  }

  /** Reads the "<h>h " in front of a long-form duration. */
  function ParseHours(text: string): Option<(nat, string)> {
    match ParseNumber(text)
    case None => None
    case Some((h, rest)) =>
      match StripPrefix(rest, "h ")
      case None => None
      case Some(rest2) => Some((h, rest2))
  }

  /** The number of seconds in `h` hours, `m` minutes and `s` seconds. */
  function HmsSeconds(h: nat, m: nat, s: nat): nat {
    h * 3600 + m * 60 + s
  }

  /** Reads a text of the form FormatDuration writes back into seconds. */
  function ParseDuration(text: string): Option<nat> {
    var hours := ParseHours(text);
    if hours.Some? then
      var ms := ParseMinutesSeconds(hours.value.1);
      if ms.Some? && ms.value.0 < 60 then Some(HmsSeconds(hours.value.0, ms.value.0, ms.value.1)) else None
    else
      var ms := ParseMinutesSeconds(text);
      if ms.Some? then Some(ms.value.0 * 60 + ms.value.1) else None
  }

  lemma {:induction false} DigitRunOfNumber(d: string, rest: string)
    requires AllDigits(d)
    requires rest == [] || !IsDigit(rest[0])
    ensures DigitRun(d + rest) == |d|
    decreases |d|
  {
    if d != [] {
      assert (d + rest)[1..] == d[1..] + rest;
      DigitRunOfNumber(d[1..], rest);
    }
  }

  lemma StripPrefixOf(lit: string, rest: string)
    ensures StripPrefix(lit + rest, lit) == Some(rest)
  {
    assert (lit + rest)[..|lit|] == lit;
    assert (lit + rest)[|lit|..] == rest;
  }

  /** A run of digits followed by a non-digit reads back as its value. */
  lemma ParseNumberOf(d: string, rest: string)
    requires |d| > 0 && AllDigits(d)
    requires rest == [] || !IsDigit(rest[0])
    ensures ParseNumber(d + rest) == Some((DigitsValue(d), rest))
  {
    DigitRunOfNumber(d, rest);
    assert (d + rest)[..|d|] == d;
    assert (d + rest)[|d|..] == rest;
  }

  lemma ParseMinutesSecondsOf(ms: string, ss: string)
    requires |ms| > 0 && AllDigits(ms) && |ss| > 0 && AllDigits(ss)
    requires DigitsValue(ss) < 60
    ensures ParseMinutesSeconds(ms + "m " + ss + "s") == Some((DigitsValue(ms), DigitsValue(ss)))
  {
    var sText := ss + "s";
    AppendAssoc(ms + "m ", ss, "s");
    AppendAssoc(ms, "m ", sText);
    ParseNumberOf(ms, "m " + sText);
    StripPrefixOf("m ", sText);
    ParseNumberOf(ss, "s");
  }

  lemma ParseHoursOf(hs: string, rest: string)
    requires |hs| > 0 && AllDigits(hs)
    ensures ParseHours(hs + "h " + rest) == Some((DigitsValue(hs), rest))
  {
    AppendAssoc(hs, "h ", rest);
    ParseNumberOf(hs, "h " + rest);
    StripPrefixOf("h ", rest);
  }

  lemma LongFormSplit(hs: string, ms: string, ss: string)
    ensures hs + "h " + ms + "m " + ss + "s" == hs + "h " + (ms + "m " + ss + "s")
  {
    AppendAssoc(ms + "m ", ss, "s");
    AppendAssoc(ms, "m ", ss + "s");
    AppendAssoc(hs + "h " + ms + "m ", ss, "s");
    AppendAssoc(hs + "h " + ms, "m ", ss + "s");
    AppendAssoc(hs + "h ", ms, "m " + (ss + "s"));
  }

  lemma ParseLongForm(hs: string, ms: string, ss: string, h: nat, m: nat, s: nat)
    requires |hs| > 0 && AllDigits(hs) && |ms| > 0 && AllDigits(ms) && |ss| > 0 && AllDigits(ss)
    requires DigitsValue(hs) == h && DigitsValue(ms) == m && DigitsValue(ss) == s
    requires m < 60 && s < 60
    ensures ParseDuration(hs + "h " + ms + "m " + ss + "s") == Some(HmsSeconds(h, m, s))
  {
    var mText := ms + "m " + ss + "s";
    LongFormSplit(hs, ms, ss);
    ParseHoursOf(hs, mText);
    ParseMinutesSecondsOf(ms, ss);
    ParseDurationLong(hs + "h " + mText, DigitsValue(hs), mText, DigitsValue(ms), DigitsValue(ss));
  }

  lemma ParseDurationLong(text: string, h: nat, rest: string, m: nat, s: nat)
    requires ParseHours(text) == Some((h, rest))
    requires ParseMinutesSeconds(rest) == Some((m, s)) && m < 60
    ensures ParseDuration(text) == Some(HmsSeconds(h, m, s))
  {
  }

  lemma ParseDurationShort(text: string, m: nat, s: nat)
    requires ParseHours(text).None?
    requires ParseMinutesSeconds(text) == Some((m, s))
    ensures ParseDuration(text) == Some(m * 60 + s)
  {
  }

  lemma NoHoursBeforeMinutes(ms: string, rest: string)
    requires |ms| > 0 && AllDigits(ms)
    ensures ParseHours(ms + ("m " + rest)).None?
  {
    ParseNumberOf(ms, "m " + rest);
    assert ("m " + rest)[0] == 'm';
  }

  lemma ParseShortForm(ms: string, ss: string, m: nat, s: nat)
    requires |ms| > 0 && AllDigits(ms) && |ss| > 0 && AllDigits(ss)
    requires DigitsValue(ms) == m && DigitsValue(ss) == s && s < 60
    ensures ParseDuration(ms + "m " + ss + "s") == Some(m * 60 + s)
  {
    var rest := ss + "s";
    var text := ms + "m " + ss + "s";
    AppendAssoc(ms + "m ", ss, "s");
    AppendAssoc(ms, "m ", rest);
    NoHoursBeforeMinutes(ms, rest);
    ParseMinutesSecondsOf(ms, ss);
    ParseDurationShort(text, DigitsValue(ms), DigitsValue(ss));
  }

  lemma ParseLongFormOf(h: nat, m: nat, s: nat)
    requires m < 60 && s < 60
    ensures ParseDuration(NatToString(h) + "h " + NatToString(m) + "m " + NatToString(s) + "s")
      == Some(HmsSeconds(h, m, s))
  {
    NatToStringRoundTrip(h);
    NatToStringRoundTrip(m);
    NatToStringRoundTrip(s);
    ParseLongForm(NatToString(h), NatToString(m), NatToString(s), h, m, s);
  }

  lemma ParseShortFormOf(m: nat, s: nat)
    requires s < 60
    ensures ParseDuration(NatToString(m) + "m " + NatToString(s) + "s") == Some(m * 60 + s)
  {
    NatToStringRoundTrip(m);
    NatToStringRoundTrip(s);
    ParseShortForm(NatToString(m), NatToString(s), m, s);
  }

  /** The written duration reads back as the same number of seconds. */
  lemma FormatDurationRoundTrip(seconds: nat)
    ensures ParseDuration(FormatDuration(seconds)) == Some(seconds)
  {
    if seconds / 60 >= 60 {
      FormatDurationRoundTripLong(seconds);
    } else {
      FormatDurationRoundTripShort(seconds);
    }
  }

  lemma FormatDurationRoundTripLong(seconds: nat)
    requires seconds / 60 >= 60
    ensures ParseDuration(FormatDuration(seconds)) == Some(seconds)
  {
    var mins := seconds / 60;
    var h, m, s := mins / 60, mins % 60, seconds % 60;
    FormatDurationLongText(seconds, mins, h, m, s);
    HoursMinutesSeconds(seconds, mins, h, m, s);
    ParseWrittenLongForm(FormatDuration(seconds), h, m, s);
  }

  lemma ParseWrittenLongForm(text: string, h: nat, m: nat, s: nat)
    requires m < 60 && s < 60
    requires text == NatToString(h) + "h " + NatToString(m) + "m " + NatToString(s) + "s"
    ensures ParseDuration(text) == Some(HmsSeconds(h, m, s))
  {
    ParseLongFormOf(h, m, s);
  }

  lemma FormatDurationLongText(seconds: nat, mins: nat, h: nat, m: nat, s: nat)
    requires mins == seconds / 60 && s == seconds % 60
    requires h == mins / 60 && m == mins % 60 && mins >= 60
    ensures FormatDuration(seconds) == NatToString(h) + "h " + NatToString(m) + "m " + NatToString(s) + "s"
  {
  }

  /** A duration is its hours, minutes and seconds put back together. */
  lemma HoursMinutesSeconds(seconds: nat, mins: nat, h: nat, m: nat, s: nat)
    requires mins == seconds / 60 && s == seconds % 60
    requires h == mins / 60 && m == mins % 60
    ensures seconds == HmsSeconds(h, m, s)
  {
    assert seconds == mins * 60 + s;
    assert mins == h * 60 + m;
  }

  lemma FormatDurationRoundTripShort(seconds: nat)
    requires seconds / 60 < 60
    ensures ParseDuration(FormatDuration(seconds)) == Some(seconds)
  {
    var m, s := seconds / 60, seconds % 60;
    assert seconds == m * 60 + s;
    assert FormatDuration(seconds) == NatToString(m) + "m " + NatToString(s) + "s";
    ParseShortFormOf(m, s);
  }

  /** Hours are written exactly from one hour on. */
  lemma FormatDurationHasHours(seconds: nat)
    ensures 'h' in FormatDuration(seconds) <==> seconds >= 3600
  {
    var mins := seconds / 60;
    var secs := seconds % 60;
    assert 'h' !in NatToString(secs);
    assert 'h' !in NatToString(mins % 60);
    if mins >= 60 {
      var text := NatToString(mins / 60) + "h " + NatToString(mins % 60) + "m " + NatToString(secs) + "s";
      assert text[|NatToString(mins / 60)|] == 'h';
    } else {
      assert 'h' !in NatToString(mins);
    }
  }

  lemma FormatDurationExamples()
    ensures FormatDuration(59) == "0m 59s"
    ensures FormatDuration(3599) == "59m 59s"
    ensures FormatDuration(3661) == "1h 1m 1s"
  {
  }
}
