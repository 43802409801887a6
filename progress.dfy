/** The progress scanner inside `convertVideo`: it reads the encoder's
    diagnostic output chunk by chunk, keeps everything it has read, latches the
    total duration from the first `Duration: HH:MM:SS.ss` that gives a
    non-zero value, and from then on turns the first `time=HH:MM:SS.ss` of each
    chunk into a percentage capped at 100. Times are whole centiseconds, which
    is exact for the two-decimal stamps; percentages are exact rationals. */
module Progress {
  import opened Optional
  import opened Strings

  const DurationLabel: string := "Duration: "
  const TimeLabel: string := "time="

  /** Length of `HH:MM:SS.ss`. */
  const StampLength: nat := 11

  /** `(\d{2}):(\d{2}):(\d{2}\.\d{2})` matches at position `i` of `s`. */
  predicate IsStampAt(s: string, i: nat) {
    i + StampLength <= |s|
    && IsDigit(s[i]) && IsDigit(s[i + 1]) && s[i + 2] == ':'
    && IsDigit(s[i + 3]) && IsDigit(s[i + 4]) && s[i + 5] == ':'
    && IsDigit(s[i + 6]) && IsDigit(s[i + 7]) && s[i + 8] == '.'
    && IsDigit(s[i + 9]) && IsDigit(s[i + 10])
  }

  function TwoDigits(a: char, b: char): (n: nat)
    requires IsDigit(a) && IsDigit(b)
    ensures n < 100
  {
    10 * DigitValue(a) + DigitValue(b)
  }

  /** `hours * 3600 + minutes * 60 + seconds` of the stamp at `i`, in
      centiseconds. */
  function StampValueAt(s: string, i: nat): (n: nat)
    requires IsStampAt(s, i)
    ensures n % 100 == TwoDigits(s[i + 9], s[i + 10])
    ensures n / 100 == TwoDigits(s[i], s[i + 1]) * 3600
      + TwoDigits(s[i + 3], s[i + 4]) * 60 + TwoDigits(s[i + 6], s[i + 7])
  {
    TwoDigits(s[i], s[i + 1]) * 360000
    + TwoDigits(s[i + 3], s[i + 4]) * 6000
    + TwoDigits(s[i + 6], s[i + 7]) * 100
    + TwoDigits(s[i + 9], s[i + 10])
  }

  /** `marker` followed by a stamp starts at position `i` of `s`. */
  predicate MatchAt(s: string, marker: string, i: nat) {
    i + |marker| <= |s| && s[i..i + |marker|] == marker && IsStampAt(s, i + |marker|)
  }

  /** Where the leftmost match at or after `i` starts, if there is one. */
  function FindFrom(s: string, marker: string, i: nat): (r: Option<nat>)
    ensures r.Some? ==> i <= r.value && MatchAt(s, marker, r.value)
    ensures r.Some? ==> forall k :: i <= k < r.value ==> !MatchAt(s, marker, k)
    ensures r.None? ==> forall k :: i <= k ==> !MatchAt(s, marker, k)
    decreases |s| - i
  {
    if i + |marker| + StampLength > |s| then None
    else if MatchAt(s, marker, i) then Some(i)
    else FindFrom(s, marker, i + 1)
  }

  /** `s.match(/<marker>(\d{2}):(\d{2}):(\d{2}\.\d{2})/)`, read as a time: the
      leftmost match only. */
  function FindStamp(s: string, marker: string): (r: Option<nat>)
    ensures r.Some? <==> exists k :: MatchAt(s, marker, k)
    ensures forall i: nat :: IsLeftmost(s, marker, i) ==> r == Some(StampValueAt(s, i + |marker|))
  {
    match FindFrom(s, marker, 0)
    case Some(i) => LeftmostUnique(s, marker, i); Some(StampValueAt(s, i + |marker|))
    case None => None
  }

  /** The match at `i` is the leftmost one. */
  predicate IsLeftmost(s: string, marker: string, i: nat) {
    MatchAt(s, marker, i) && forall k :: 0 <= k < i ==> !MatchAt(s, marker, k)
  }

  lemma LeftmostUnique(s: string, marker: string, i: nat)
    requires IsLeftmost(s, marker, i)
    ensures forall j: nat :: IsLeftmost(s, marker, j) ==> j == i
  {
  }

  /** `Math.min(100, (time / duration) * 100)`. */
  function Percent(time: nat, duration: nat): (p: real)
    requires duration > 0
    ensures 0.0 <= p <= 100.0
    ensures p == 100.0 <==> time >= duration
    ensures time < duration ==> p * duration as real == 100.0 * time as real
  {
    var x := (time as real / duration as real) * 100.0;
    if x < 100.0 then x else 100.0
  }

  /** The scanner's state: the latched duration (0 while unknown) and every
      chunk read so far. */
  datatype ScanState = ScanState(duration: nat, errorOutput: string)

  /** What one chunk does to the state, and the progress it reports, if any. */
  function Step(state: ScanState, chunk: string): (r: (ScanState, Option<real>))
    ensures r.0.errorOutput == state.errorOutput + chunk
    ensures state.duration > 0 ==> r.0.duration == state.duration
    ensures r.1.Some? ==> r.0.duration > 0 && 0.0 <= r.1.value <= 100.0
    ensures r.1.Some? <==> r.0.duration > 0 && exists k :: MatchAt(chunk, TimeLabel, k)
  {
    var duration :=
      if state.duration == 0 && FindStamp(chunk, DurationLabel).Some?
      then FindStamp(chunk, DurationLabel).value
      else state.duration;
    var next := ScanState(duration, state.errorOutput + chunk);
    if duration > 0 && FindStamp(chunk, TimeLabel).Some?
    then (next, Some(Percent(FindStamp(chunk, TimeLabel).value, duration)))
    else (next, None)
  }

  /** The scanner over a sequence of chunks: the final state and every
      reported value, in order. */
  function Run(state: ScanState, chunks: seq<string>): (r: (ScanState, seq<real>))
    ensures |r.1| <= |chunks|
    decreases |chunks|
  {
    if chunks == [] then (state, [])
    else
      var (next, sample) := Step(state, chunks[0]);
      var (last, samples) := Run(next, chunks[1..]);
      (last, (if sample.Some? then [sample.value] else []) + samples)
  }

  /** All chunks glued together. */
  function Concat(chunks: seq<string>): string
    decreases |chunks|
  {
    if chunks == [] then [] else chunks[0] + Concat(chunks[1..])
  }

  /** The scanner attached to one encoder run. */
  class ProgressScanner {
    var duration: nat
    var errorOutput: string

    constructor ()
      ensures duration == 0 && errorOutput == []
    {
      duration := 0;
      errorOutput := [];
    }

    /** Handles one chunk of diagnostic output and returns the value passed
        to `onProgress`, if one is. */
    method Feed(chunk: string) returns (progress: Option<real>)
      modifies this
      ensures (ScanState(duration, errorOutput), progress)
        == Step(ScanState(old(duration), old(errorOutput)), chunk)
      ensures errorOutput == old(errorOutput) + chunk
      ensures old(duration) > 0 ==> duration == old(duration)
      ensures progress.Some? ==> duration > 0 && 0.0 <= progress.value <= 100.0
    {
      errorOutput := errorOutput + chunk;
      if duration == 0 {
        var durationMatch := FindStamp(chunk, DurationLabel);
        if durationMatch.Some? {
          duration := durationMatch.value;
        }
      }
      progress := None;
      if duration > 0 {
        var timeMatch := FindStamp(chunk, TimeLabel);
        if timeMatch.Some? {
          progress := Some(Percent(timeMatch.value, duration));
        }
      }
    }
  }

  /** Once a duration is latched it never changes, and every chunk is kept. */
  lemma {:induction false} RunKeepsDuration(state: ScanState, chunks: seq<string>)
    requires state.duration > 0
    ensures Run(state, chunks).0.duration == state.duration
    decreases |chunks|
  {
    if chunks != [] {
      RunKeepsDuration(Step(state, chunks[0]).0, chunks[1..]);
    }
  }

  lemma {:induction false} RunKeepsOutput(state: ScanState, chunks: seq<string>)
    ensures Run(state, chunks).0.errorOutput == state.errorOutput + Concat(chunks)
    decreases |chunks|
  {
    if chunks != [] {
      RunKeepsOutput(Step(state, chunks[0]).0, chunks[1..]);
      AppendAssoc(state.errorOutput, chunks[0], Concat(chunks[1..]));
    }
  }

  /** Every reported value lies in [0, 100]. */
  lemma {:induction false} RunSamplesBounded(state: ScanState, chunks: seq<string>)
    ensures forall k :: 0 <= k < |Run(state, chunks).1| ==> 0.0 <= Run(state, chunks).1[k] <= 100.0
    decreases |chunks|
  {
    if chunks != [] {
      RunSamplesBounded(Step(state, chunks[0]).0, chunks[1..]);
    }
  }

  /** A stream in which no chunk declares a non-zero duration reports
      nothing. */
  lemma {:induction false} NoDurationNoProgress(state: ScanState, chunks: seq<string>)
    requires state.duration == 0
    requires forall k :: 0 <= k < |chunks| ==>
      FindStamp(chunks[k], DurationLabel).None? || FindStamp(chunks[k], DurationLabel).value == 0
    ensures Run(state, chunks).1 == []
    ensures Run(state, chunks).0.duration == 0
    decreases |chunks|
  {
    if chunks != [] {
      assert FindStamp(chunks[0], DurationLabel).None? || FindStamp(chunks[0], DurationLabel).value == 0;
      NoDurationNoProgress(Step(state, chunks[0]).0, chunks[1..]);
    }
  }

  /** A duration of zero keeps the scanner looking: the first later chunk
      with a non-zero duration sets it. */
  lemma ZeroDurationKeepsLooking(state: ScanState, chunk: string)
    requires state.duration == 0
    ensures FindStamp(chunk, DurationLabel).Some? && FindStamp(chunk, DurationLabel).value > 0
      ==> Step(state, chunk).0.duration == FindStamp(chunk, DurationLabel).value
    ensures FindStamp(chunk, DurationLabel).None? ==> Step(state, chunk).0.duration == 0
  {
  }

  /** A duration and a time in the same chunk are taken in that order: the
      time is measured against the duration just read. */
  lemma SameChunkDurationFirst(state: ScanState, chunk: string)
    requires state.duration == 0
    requires FindStamp(chunk, DurationLabel).Some? && FindStamp(chunk, DurationLabel).value > 0
    requires FindStamp(chunk, TimeLabel).Some?
    ensures Step(state, chunk).1
      == Some(Percent(FindStamp(chunk, TimeLabel).value, FindStamp(chunk, DurationLabel).value))
  {
  }

  /** The stamp text for a time below 100 hours. */
  function StampText(centis: nat): (s: string)
    requires centis < 100 * 360000
    ensures |s| == StampLength
  {
    var t := centis / 100;
    var mins := t / 60;
    var h, m, sec, cs := mins / 60, mins % 60, t % 60, centis % 100;
    [DigitChar(h / 10), DigitChar(h % 10), ':',
     DigitChar(m / 10), DigitChar(m % 10), ':',
     DigitChar(sec / 10), DigitChar(sec % 10), '.',
     DigitChar(cs / 10), DigitChar(cs % 10)]
  }

  lemma DigitCharValue(d: nat)
    requires d < 10
    ensures DigitValue(DigitChar(d)) == d
  {
  }

  /** Two digits written from a number below 100 read back as it. */
  lemma TwoDigitsOf(x: nat)
    requires x < 100
    ensures IsDigit(DigitChar(x / 10)) && IsDigit(DigitChar(x % 10))
    ensures TwoDigits(DigitChar(x / 10), DigitChar(x % 10)) == x
  {
    DigitCharValue(x / 10);
    DigitCharValue(x % 10);
  }

  lemma StampArithmetic(centis: nat, t: nat, mins: nat, h: nat, m: nat, sec: nat, cs: nat)
    requires t == centis / 100 && cs == centis % 100
    requires mins == t / 60 && sec == t % 60
    requires h == mins / 60 && m == mins % 60
    ensures centis == h * 360000 + m * 6000 + sec * 100 + cs
  {
    assert centis == t * 100 + cs;
    assert t == mins * 60 + sec;
    assert mins == h * 60 + m;
  }

  /** A written stamp reads back as the time it was written from. */
  lemma StampRoundTrip(centis: nat)
    requires centis < 100 * 360000
    ensures IsStampAt(StampText(centis), 0)
    ensures StampValueAt(StampText(centis), 0) == centis
  {
    var s := StampText(centis);
    var t := centis / 100;
    var mins := t / 60;
    var h, m, sec, cs := mins / 60, mins % 60, t % 60, centis % 100;
    TwoDigitsOf(h);
    TwoDigitsOf(m);
    TwoDigitsOf(sec);
    TwoDigitsOf(cs);
    StampArithmetic(centis, t, mins, h, m, sec, cs);
  }

  /** Two digit characters are what their value writes back as. */
  lemma TwoDigitsChars(a: char, b: char)
    requires IsDigit(a) && IsDigit(b)
    ensures DigitChar(TwoDigits(a, b) / 10) == a && DigitChar(TwoDigits(a, b) % 10) == b
  {
  }

  lemma DivMod60(q: nat, r: nat)
    requires r < 60
    ensures (q * 60 + r) / 60 == q && (q * 60 + r) % 60 == r
  {
  }

  /** A stamp whose minutes and seconds are below 60 is written back, from
      the time it reads as, as the same text. */
  lemma StampReadBack(s: string, i: nat)
    requires IsStampAt(s, i)
    requires TwoDigits(s[i + 3], s[i + 4]) < 60 && TwoDigits(s[i + 6], s[i + 7]) < 60
    ensures StampValueAt(s, i) < 100 * 360000
    ensures StampText(StampValueAt(s, i)) == s[i..i + StampLength]
  {
    var n := StampValueAt(s, i);
    var h, m, sec := TwoDigits(s[i], s[i + 1]), TwoDigits(s[i + 3], s[i + 4]), TwoDigits(s[i + 6], s[i + 7]);
    var cs := TwoDigits(s[i + 9], s[i + 10]);
    var t := n / 100;
    assert t == (h * 60 + m) * 60 + sec;
    DivMod60(h * 60 + m, sec);
    DivMod60(h, m);
    assert t / 60 == h * 60 + m && t % 60 == sec;
    TwoDigitsChars(s[i], s[i + 1]);
    TwoDigitsChars(s[i + 3], s[i + 4]);
    TwoDigitsChars(s[i + 6], s[i + 7]);
    TwoDigitsChars(s[i + 9], s[i + 10]);
    assert StampText(n) == s[i..i + StampLength];
  }

  /** A chunk that starts with a marker and a written stamp reads as that
      stamp's time. */
  lemma FindStampAtStart(marker: string, centis: nat, rest: string)
    requires centis < 100 * 360000
    ensures FindStamp(marker + StampText(centis) + rest, marker) == Some(centis)
  {
    var s := marker + StampText(centis) + rest;
    StampRoundTrip(centis);
    assert s[..|marker|] == marker;
    assert forall k :: 0 <= k < StampLength ==> s[|marker| + k] == StampText(centis)[k];
    assert MatchAt(s, marker, 0);
  }

  /** After reading a duration, a chunk whose leftmost `time=` and stamp
      start at `i` reports that stamp's time as a share of the duration. */
  lemma TimeChunkReports(state: ScanState, chunk: string, i: nat)
    requires state.duration > 0
    requires IsLeftmost(chunk, TimeLabel, i)
    ensures Step(state, chunk).1 == Some(Percent(StampValueAt(chunk, i + |TimeLabel|), state.duration))
  {
  }

  /** A chunk that starts with `time=` and a written stamp reports that
      time as a share of the duration. */
  lemma TimeAtStartReports(state: ScanState, centis: nat, rest: string)
    requires state.duration > 0 && centis < 100 * 360000
    ensures Step(state, TimeLabel + StampText(centis) + rest).1 == Some(Percent(centis, state.duration))
  {
    FindStampAtStart(TimeLabel, centis, rest);
  }

  /** No match of `time=` starts inside text without a `t`. */
  lemma NoTimeBefore(prefix: string, chunk: string)
    requires 't' !in prefix && |prefix| <= |chunk| && chunk[..|prefix|] == prefix
    ensures forall k :: 0 <= k < |prefix| ==> !MatchAt(chunk, TimeLabel, k)
  {
    forall k | 0 <= k < |prefix|
      ensures !MatchAt(chunk, TimeLabel, k)
    {
      assert chunk[k] == prefix[k];
    }
  }

  /** A written time after text without a `t`, the shape of the encoder's
      status line, is reported against the latched duration. */
  lemma TimeAfterPrefixReports(state: ScanState, prefix: string, centis: nat, rest: string)
    requires state.duration > 0 && centis < 100 * 360000
    requires 't' !in prefix
    ensures Step(state, prefix + TimeLabel + StampText(centis) + rest).1 == Some(Percent(centis, state.duration))
  {
    var tail := TimeLabel + StampText(centis) + rest;
    var chunk := prefix + tail;
    assert chunk == prefix + TimeLabel + StampText(centis) + rest;
    StampRoundTrip(centis);
    assert chunk[..|prefix|] == prefix;
    assert chunk[|prefix|..] == tail;
    assert chunk[|prefix|..|prefix| + |TimeLabel|] == TimeLabel;
    assert forall k :: 0 <= k < StampLength ==> chunk[|prefix| + |TimeLabel| + k] == StampText(centis)[k];
    assert IsStampAt(chunk, |prefix| + |TimeLabel|);
    assert StampValueAt(chunk, |prefix| + |TimeLabel|) == StampValueAt(StampText(centis), 0);
    NoTimeBefore(prefix, chunk);
    TimeChunkReports(state, chunk, |prefix|);
  }

  /** The stamps the examples below write. */
  lemma StampTextExample()
    ensures StampText(10000) == "00:01:40.00"
    ensures StampText(5000) == "00:00:50.00"
  {
    assert DigitChar(0) == '0' && DigitChar(1) == '1' && DigitChar(4) == '4' && DigitChar(5) == '5';
  }

  /** With a duration of 1:40 a time of 0:50 reports 50, a time of 1:40
      reports 100, and a time of 2:00 is capped at 100. */
  lemma ProgressExample()
    ensures Step(ScanState(0, []), DurationLabel + StampText(10000) + "").0.duration == 10000
    ensures Step(ScanState(10000, []), TimeLabel + StampText(5000) + "").1 == Some(50.0)
    ensures Step(ScanState(10000, []), TimeLabel + StampText(10000) + "").1 == Some(100.0)
    ensures Step(ScanState(10000, []), TimeLabel + StampText(12000) + "").1 == Some(100.0)
  {
    FindStampAtStart(DurationLabel, 10000, "");
    TimeAtStartReports(ScanState(10000, []), 5000, "");
    TimeAtStartReports(ScanState(10000, []), 10000, "");
    TimeAtStartReports(ScanState(10000, []), 12000, "");
  }

  /** An encoder status line with frame and size counters before the time. */
  lemma StatusLineExample()
    ensures Step(ScanState(10000, []), "frame=  120 size=  512kB " + TimeLabel + StampText(5000) + " bitrate=").1
      == Some(50.0)
  {
    TimeAfterPrefixReports(ScanState(10000, []), "frame=  120 size=  512kB ", 5000, " bitrate=");
  }
}
