/** The settings store (`SettingsManager`): the interface language, one video
    bitrate per tier, and the audio bitrate, all in kbit/s. Reading and writing
    the YAML file is left out; the constructor receives what was parsed. */
module Settings {
  import opened Optional

  /** A language code. The interface offers "ru" and "en", but a loaded file
      can hold any string and nothing checks it. */
  type Language = string

  const Ru: Language := "ru"

  /** The keys of `videoBitrates`. */
  datatype VideoTier = Tier4k | Tier1080p | Tier720p | Tier480p

  datatype VideoBitrates = VideoBitrates(k4: int, p1080: int, p720: int, p480: int) {

    function Get(t: VideoTier): int {
      match t
      case Tier4k => k4
      case Tier1080p => p1080
      case Tier720p => p720
      case Tier480p => p480
    }

    /** The same table with the entry for `t` replaced by `v`. */
    function With(t: VideoTier, v: int): (r: VideoBitrates)
      ensures r.Get(t) == v
      ensures forall u :: u != t ==> r.Get(u) == Get(u)
    {
      match t
      case Tier4k => this.(k4 := v)
      case Tier1080p => this.(p1080 := v)
      case Tier720p => this.(p720 := v)
      case Tier480p => this.(p480 := v)
    }
  }

  /** The audio bitrates the interface offers. */
  predicate IsAudioBitrate(b: int) {
    b == 64 || b == 96 || b == 128 || b == 256 || b == 320
  }

  datatype Settings = Settings(language: Language, videoBitrates: VideoBitrates, audioBitrate: int)

  const DefaultSettings: Settings :=
    Settings(Ru, VideoBitrates(5000, 3000, 2000, 1000), 128)

  const MinVideoBitrate: int := 900
  const MaxVideoBitrate: int := 10000
  const VideoBitrateStep: int := 100

  /** `Math.round(b / 100) * 100` for an integer `b`: halves round up. */
  function RoundToStep(b: int): int {
    ((b + VideoBitrateStep / 2) / VideoBitrateStep) * VideoBitrateStep
  }

  /** The value `setVideoBitrate` stores for a requested bitrate `b`. */
  function ClampVideoBitrate(b: int): (r: int)
    ensures MinVideoBitrate <= r <= MaxVideoBitrate
    ensures r % VideoBitrateStep == 0
  {
    var rounded := RoundToStep(b);
    var capped := if rounded < MaxVideoBitrate then rounded else MaxVideoBitrate;
    if capped > MinVideoBitrate then capped else MinVideoBitrate
  }

  /** `validateVideoBitrate`: within bounds and a whole number of steps. */
  function ValidateVideoBitrate(v: int): (ok: bool)
    ensures ok <==> MinVideoBitrate <= v <= MaxVideoBitrate && v % VideoBitrateStep == 0
  {
    if v < MinVideoBitrate || v > MaxVideoBitrate then false
    else v % VideoBitrateStep == 0
  }

  /** The clamp sends a request to the nearest multiple of 100, halves
      upwards, and then into [900, 10000]. */
  lemma ClampIsNearestStep(b: int)
    ensures b < 850 ==> ClampVideoBitrate(b) == MinVideoBitrate
    ensures b >= 9950 ==> ClampVideoBitrate(b) == MaxVideoBitrate
    ensures 850 <= b < 9950 ==>
      var r := ClampVideoBitrate(b); r - 50 <= b < r + 50
  {
  }

  lemma ClampIdempotent(b: int)
    ensures ClampVideoBitrate(ClampVideoBitrate(b)) == ClampVideoBitrate(b)
  {
  }

  /** The values the validator accepts are exactly those the clamp keeps. */
  lemma ValidIffClampFixed(v: int)
    ensures ValidateVideoBitrate(v) <==> ClampVideoBitrate(v) == v
  {
  }

  /** Every stored value passes the validator. */
  lemma ClampIsValid(b: int)
    ensures ValidateVideoBitrate(ClampVideoBitrate(b))
  {
  }

  lemma ClampExamples()
    ensures ClampVideoBitrate(850) == 900
    ensures ClampVideoBitrate(10050) == 10000
    ensures ClampVideoBitrate(1050) == 1100
    ensures ClampVideoBitrate(1049) == 1000
  {
  }

  lemma DefaultsAreValid()
    ensures forall t :: ValidateVideoBitrate(DefaultSettings.videoBitrates.Get(t))
    ensures IsAudioBitrate(DefaultSettings.audioBitrate) && DefaultSettings.audioBitrate == 128
    ensures DefaultSettings.language == Ru
    ensures DefaultSettings.videoBitrates.Get(Tier4k) == 5000
    ensures DefaultSettings.videoBitrates.Get(Tier1080p) == 3000
    ensures DefaultSettings.videoBitrates.Get(Tier720p) == 2000
    ensures DefaultSettings.videoBitrates.Get(Tier480p) == 1000
  {
    forall t ensures ValidateVideoBitrate(DefaultSettings.videoBitrates.Get(t)) {
      match t
      case Tier4k =>
      case Tier1080p =>
      case Tier720p =>
      case Tier480p =>
    }
  }

  /** What a parsed settings file supplies; `None` is an absent key. */
  datatype PartialBitrates = PartialBitrates(k4: Option<int>, p1080: Option<int>, p720: Option<int>, p480: Option<int>)

  datatype PartialSettings = PartialSettings(
    language: Option<Language>,
    videoBitrates: Option<PartialBitrates>,
    audioBitrate: Option<int>)

  /** `x || fallback` for a number: 0 is falsy. */
  function OrNumber(x: Option<int>, fallback: int): (r: int)
    ensures x.Some? && x.value != 0 ==> r == x.value
    ensures x.None? || x.value == 0 ==> r == fallback
  {
    if x.Some? && x.value != 0 then x.value else fallback
  }

  /** `x || fallback` for a string: "" is falsy. */
  function OrText(x: Option<string>, fallback: string): (r: string)
    ensures x.Some? && x.value != "" ==> r == x.value
    ensures x.None? || x.value == "" ==> r == fallback
  {
    if x.Some? && x.value != "" then x.value else fallback
  }

  /** The bitrate the parsed file gives for tier `t`, if any. */
  function PartialGet(p: Option<PartialBitrates>, t: VideoTier): Option<int> {
    match p
    case None => None
    case Some(b) =>
      match t
      case Tier4k => b.k4
      case Tier1080p => b.p1080
      case Tier720p => b.p720
      case Tier480p => b.p480
  }

  /** `mergeWithDefaults`: each field from the file when present and truthy,
      otherwise from the defaults; no range check. */
  function MergeWithDefaults(parsed: PartialSettings): (s: Settings)
    ensures s.language == OrText(parsed.language, DefaultSettings.language)
    ensures forall t ::
      s.videoBitrates.Get(t) == OrNumber(PartialGet(parsed.videoBitrates, t), DefaultSettings.videoBitrates.Get(t))
    ensures s.audioBitrate == OrNumber(parsed.audioBitrate, DefaultSettings.audioBitrate)
  {
    var d := DefaultSettings;
    Settings(
      OrText(parsed.language, d.language),
      VideoBitrates(
        OrNumber(PartialGet(parsed.videoBitrates, Tier4k), d.videoBitrates.k4),
        OrNumber(PartialGet(parsed.videoBitrates, Tier1080p), d.videoBitrates.p1080),
        OrNumber(PartialGet(parsed.videoBitrates, Tier720p), d.videoBitrates.p720),
        OrNumber(PartialGet(parsed.videoBitrates, Tier480p), d.videoBitrates.p480)),
      OrNumber(parsed.audioBitrate, d.audioBitrate))
  }

  /** Settings written out in full, as a saved file holds them. */
  function AsPartial(s: Settings): PartialSettings {
    var b := s.videoBitrates;
    PartialSettings(Some(s.language), Some(PartialBitrates(Some(b.k4), Some(b.p1080), Some(b.p720), Some(b.p480))),
      Some(s.audioBitrate))
  }

  /** Settings whose every field is truthy come back unchanged from a save and
      a load. */
  lemma MergeRoundTrip(s: Settings)
    requires s.language != ""
    requires forall t :: s.videoBitrates.Get(t) != 0
    requires s.audioBitrate != 0
    ensures MergeWithDefaults(AsPartial(s)) == s
  {
    var m := MergeWithDefaults(AsPartial(s));
    assert m.videoBitrates.Get(Tier4k) == s.videoBitrates.Get(Tier4k);
    assert m.videoBitrates.Get(Tier1080p) == s.videoBitrates.Get(Tier1080p);
    assert m.videoBitrates.Get(Tier720p) == s.videoBitrates.Get(Tier720p);
    assert m.videoBitrates.Get(Tier480p) == s.videoBitrates.Get(Tier480p);
  }

  /** An empty file yields the defaults. */
  lemma MergeEmptyIsDefault()
    ensures MergeWithDefaults(PartialSettings(None, None, None)) == DefaultSettings
  {
  }

  /** A zero bitrate in the file falls back to the default, and an out-of-range
      one is kept. */
  lemma MergeKeepsOutOfRange(b: int)
    requires b != 0
    ensures var s := MergeWithDefaults(PartialSettings(None, Some(PartialBitrates(Some(b), Some(0), None, None)), None));
      s.videoBitrates.k4 == b && s.videoBitrates.p1080 == DefaultSettings.videoBitrates.p1080
  {
  }

  /** The settings store. Persisting after each change is left out. */
  class SettingsManager {
    var settings: Settings

    /** `loaded` is the parsed file, or None when there is no file or it could
        not be read or parsed. */
    constructor (loaded: Option<PartialSettings>)
      ensures settings == (if loaded.Some? then MergeWithDefaults(loaded.value) else DefaultSettings)
    {
      match loaded
      case Some(p) => settings := MergeWithDefaults(p);
      case None => settings := DefaultSettings;
    }

    /** `getSettings`: a copy of the current settings. */
    method GetSettings() returns (s: Settings)
      ensures s == settings
    {
      s := settings;
    }

    method SetLanguage(language: Language)
      modifies this
      ensures settings.language == language
      ensures settings.videoBitrates == old(settings.videoBitrates)
      ensures settings.audioBitrate == old(settings.audioBitrate)
    {
      settings := settings.(language := language);
    }

    /** Stores the clamped bitrate for `tier` and touches nothing else. */
    method SetVideoBitrate(tier: VideoTier, bitrate: int)
      modifies this
      ensures settings.videoBitrates.Get(tier) == ClampVideoBitrate(bitrate)
      ensures ValidateVideoBitrate(settings.videoBitrates.Get(tier))
      ensures forall u :: u != tier ==> settings.videoBitrates.Get(u) == old(settings.videoBitrates.Get(u))
      ensures settings.language == old(settings.language)
      ensures settings.audioBitrate == old(settings.audioBitrate)
    {
      ClampIsValid(bitrate);
      settings := settings.(videoBitrates := settings.videoBitrates.With(tier, ClampVideoBitrate(bitrate)));
    }

    method SetAudioBitrate(bitrate: int)
      requires IsAudioBitrate(bitrate)
      modifies this
      ensures settings.audioBitrate == bitrate
      ensures settings.language == old(settings.language)
      ensures settings.videoBitrates == old(settings.videoBitrates)
    {
      settings := settings.(audioBitrate := bitrate);
    }
  }
}
