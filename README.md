# video-converter in Dafny

This project models the logic of the video-converter command-line tool. The
tool takes a source video and drives an external encoder (ffmpeg) to produce
several renditions of it: 1080p, 720p and 480p MP4 files and an MP3 audio
extraction. The model covers three parts of it:

- **Conversion rules** (`src/video.ts`), in `video.dfy`, `encode_args.dfy`
  and `progress.dfy`. This covers:
  - which renditions a source of a given height is offered;
  - how a file is recognised as a video by its extension;
  - how an output file is named;
  - how a duration is written;
  - how the probe's numbers are defaulted;
  - the encoder argument list for one rendition and one settings snapshot;
  - the scanner that turns the encoder's diagnostic output into progress
    percentages.
- **The settings store** (`src/settings.ts`), in `settings.dfy`: the
  `SettingsManager` class with its bitrate clamp, validator,
  fill-in-defaults merge and the three setters.
- **The message catalogue** (`src/i18n.ts`), in `i18n.dfy`: the `I18n`
  class. Its `T` walks a tree of messages along a dotted key and falls back to
  the key itself on any miss, then fills in `{word}` placeholders.

Supporting modules:

- `strings.dfy`: decimal text of numbers as JavaScript writes it, ASCII case
  folding, and `split`/`join` on one character.
- `node_path.dfy`: the parts of Node's POSIX `path` module that the tool
  calls.
- `option.dfy`: an `Option` type.

State that the source changes in place is modelled as classes:
- `Settings.SettingsManager` holds the settings record.
- `Messages.I18n` holds the current language.
- `Progress.ProgressScanner` holds the latched duration and the collected
  diagnostic text.

Three methods are proved against a pure function:
- `Progress.ProgressScanner.Feed` against `Progress.Step`;
- `Messages.I18n.T` against `Messages.Translate`, with a loop invariant over
  the path still to walk;
- `EncodeArgs.BuildArgs`, the module-level method that builds the argument
  list by appending, against `EncodeArgs.EncoderOptions`.

The other methods (the setters and getters of `SettingsManager` and `I18n`)
state their new state directly. The properties are stated as lemmas about
the functions.

Units:
- Times are whole centiseconds. The stamps the encoder prints have two
  decimals, so this is exact.
- Progress percentages are exact rationals (`real`).
- Bitrates are integers in kbit/s.

Three behaviours of the code are easy to get wrong from a quick reading:
- **Rounding at 1050.** A requested video bitrate of 1050 is stored as 1100,
  because `Math.round` rounds halves up (`Settings.ClampExamples`).
- **Which duration is latched.** A `Duration:` line that reads as 0 does not
  stop the search: the scanner keeps looking until it reads a non-zero value
  (`Progress.ZeroDurationKeepsLooking`).
- **Progress is not monotonic.** Each value is capped at 100 and reported as
  computed, so a smaller `time=` later reports a smaller value. Values are
  never negative, because stamps are unsigned.

## Model

| member | source | states |
|---|---|---|
| Video.AvailableQualities | src/video.ts:83-93 | 1080p, 720p and 480p are each offered exactly when the source is at least that tall; audio is always offered and always last; the list is strictly ordered from the largest tier down, so nothing repeats; no offered tier is taller than the source; a source under 480 lines gets only audio |
| Video.OfferedDownwardClosed | src/video.ts:87-90 | if a tier is offered, every smaller video tier is offered too |
| Video.Quality.TargetHeight | src/video.ts:127 | a video rendition scales to the height its tag names (`1080p` to 1080, `720p` to 720, `480p` to 480) |
| Video.IsVideoFile | src/video.ts:27-30 | a file recognised as a video always has an extension of a '.' and at least three more characters |
| Video.IsVideoFileOf | src/video.ts:25-30 | a file `<stem><ext>` in any directory is a video exactly when its extension, lower-cased, is one of the ten listed |
| Video.IsVideoFileIgnoresCase | src/video.ts:27-30 | lower-casing a file name never changes whether it is a video |
| Video.NoExtensionIsNotVideo | src/video.ts:27-30 | a name whose last component has no extension (no '.', or only a leading one) is not a video |
| Video.IsVideoFileUpperCaseExample | src/video.ts:27-30 | `clip.MP4` is a video |
| Video.IsVideoFileDotFileExample | src/video.ts:27-30 | `.mp4` is a hidden file without an extension, so it is not a video |
| Video.OutputFilename | src/video.ts:198-207 | every output path ends with the rendition's suffix: `_<tag>.mp4` for video, `.mp3` for audio |
| Video.OutputInInputDirectory | src/video.ts:198-207 | the output goes in the input's own directory |
| Video.OutputFilenameBase | src/video.ts:198-207 | the output's last component is the input's name without its extension, followed by `_<tag>.mp4` or `.mp3` |
| Video.OutputFilenameExtension | src/video.ts:198-207 | video renditions get the extension `.mp4` and the audio extraction `.mp3` (when the input's last component is not empty) |
| Video.OutputFilenamesDistinct | src/video.ts:198-207 | the four renditions of one input go to four different paths |
| Video.OutputSuffixInjective | src/video.ts:202-206 | different renditions get different suffixes |
| Video.SuffixIsNotVideoExtension | src/video.ts:202-206 | no output suffix is a video extension in any letter case |
| Video.OutputFilenameNotInput | src/video.ts:198-207 | for a video input, the output's file name always differs from the input's |
| Video.FormatDuration | src/video.ts:104-113 | the text is never shorter than `0m 0s` and always ends with the seconds field's `s` |
| Video.FormatDurationRoundTrip | src/video.ts:104-113 | reading the written duration back as hours, minutes and seconds gives the original number of seconds, so the text is exact and minutes and seconds stay under 60 |
| Video.FormatDurationHasHours | src/video.ts:104-113 | an hours field is written exactly from 3600 seconds on |
| Video.FormatDurationExamples | src/video.ts:104-113 | 59 s is `0m 59s`, 3599 s is `59m 59s`, 3661 s is `1h 1m 1s` |
| Video.HoursMinutesSeconds | src/video.ts:105-109 | the hours, the remaining minutes and the remaining seconds add back up to the duration |
| Video.NumberOrZero | src/video.ts:71-74 | a probe field that is missing or does not parse becomes 0; otherwise its parsed value |
| Video.StreamOrFormat | src/video.ts:73-74 | the stream's field is used whenever it is present, even when it does not parse; otherwise the container's |
| Video.ProbeResult | src/video.ts:67-75 | the probe record keeps the path and size, takes the name from the path, and defaults every number as above |
| EncodeArgs.BuildArgs | src/video.ts:122-144 | the list starts with `-i <input> -y`, ends with the output path, and holds the rendition's options in between |
| EncodeArgs.EncoderOptions | src/video.ts:122-142 | audio passes `-vn` and then two option pairs; video passes ten option pairs; in each pair the name starts with `-` |
| EncodeArgs.AudioOptions | src/video.ts:124-125 | audio inserts exactly `-vn -c:a libmp3lame -b:a <audio bitrate>k`, and that value reads back as the configured audio bitrate |
| EncodeArgs.VideoOptions | src/video.ts:126-142 | a video rendition passes 20 options in order: H.264 with preset medium and CRF 23; `-b:v`, `-maxrate` and `-bufsize` with values that read back as the tier's bitrate, 1.5 times it and twice it; `-vf scale=-2:<height>`; AAC at 128k with fast start |
| EncodeArgs.TierOf | src/video.ts:128 | each video rendition reads its own entry of the bitrate table |
| EncodeArgs.RateValues | src/video.ts:134-136 | each rate flag is followed by a value that reads back as the bitrate, 1.5 times it and twice it |
| EncodeArgs.HalvesToStringDecimal | src/video.ts:135 | the text written for `bitrate * 1.5` is the decimal of exactly half of 3 × bitrate |
| EncodeArgs.IntToStringDecimal | src/video.ts:134 | the text written for an integer bitrate reads back as that integer |
| EncodeArgs.KbpsRoundTrip | src/video.ts:134-136 | appending `k` to a rate keeps its value readable |
| Progress.ProgressScanner.constructor | src/video.ts:148-149 | a scanner starts with no duration and no collected output |
| Progress.ProgressScanner.Feed | src/video.ts:151-176 | one chunk: appended to the collected output; latches the first match's duration only while none is known; then, if a duration is known, reports the first `time=` as a percentage capped at 100; a latched duration never changes |
| Progress.FindFrom | src/video.ts:156 | the match found is the leftmost one: it matches, and no earlier position does; when nothing is found no position matches |
| Progress.FindStamp | src/video.ts:166 | a time is read exactly when the chunk has a match somewhere, and the time read is the one at the leftmost match |
| Progress.StampValueAt | src/video.ts:158-161 | a stamp's last two digits are the hundredths; the rest is hours × 3600 + minutes × 60 + seconds |
| Progress.StampReadBack | src/video.ts:158-161 | a stamp with minutes and seconds below 60, read and written again, gives the same text |
| Progress.Step | src/video.ts:151-176 | one chunk is appended to the output; a latched duration is kept; a value is reported exactly when a duration is known and the chunk has a `time=` match, and it lies in [0, 100] |
| Progress.Run | src/video.ts:151-176 | a stream reports at most one value per chunk |
| Progress.Percent | src/video.ts:172 | the value lies in [0, 100]; it is 100 exactly when the time has reached the duration; below that it is time/duration × 100 |
| Progress.RunKeepsDuration | src/video.ts:155-163 | once a duration is latched, later `Duration:` lines are ignored over any number of chunks |
| Progress.RunKeepsOutput | src/video.ts:152-153 | the collected output is all chunks in order |
| Progress.RunSamplesBounded | src/video.ts:165-175 | every reported value lies in [0, 100] |
| Progress.NoDurationNoProgress | src/video.ts:155-175 | a stream that never declares a non-zero duration reports nothing and keeps the duration at 0 |
| Progress.ZeroDurationKeepsLooking | src/video.ts:155-163 | while the duration is 0, a chunk with a non-zero duration sets it, and a chunk with none leaves it 0 |
| Progress.SameChunkDurationFirst | src/video.ts:155-175 | while no duration is known, a chunk with a non-zero duration and a time is measured against the duration just read from that chunk |
| Progress.StampRoundTrip | src/video.ts:156-161 | a written `HH:MM:SS.ss` stamp reads back as the time it was written from |
| Progress.FindStampAtStart | src/video.ts:156-161 | a chunk that starts with a label and a stamp reads as that stamp's time |
| Progress.TimeChunkReports | src/video.ts:165-174 | with a duration known, a chunk whose leftmost `time=` match starts anywhere reports that stamp's time as a share of the duration |
| Progress.TimeAtStartReports | src/video.ts:165-174 | with a duration known, a chunk starting with `time=` and a written stamp reports that time's share of the duration |
| Progress.TimeAfterPrefixReports | src/video.ts:165-174 | the same holds when any text without a `t` comes before `time=` |
| Progress.StampTextExample | src/video.ts:156 | 10000 centiseconds is written `00:01:40.00` and 5000 `00:00:50.00` |
| Progress.ProgressExample | src/video.ts:151-176 | with `Duration: 00:01:40.00`, the times 0:50, 1:40 and 2:00 report 50, 100 and 100 |
| Progress.StatusLineExample | src/video.ts:165-174 | the encoder status line `frame=  120 size=  512kB time=00:00:50.00 bitrate=` against 1:40 reports 50 |
| Settings.ClampVideoBitrate | src/settings.ts:91 | the stored bitrate is in [900, 10000] and a multiple of 100 |
| Settings.ClampIsNearestStep | src/settings.ts:91 | below 850 the stored value is 900; from 9950 on it is 10000; in between it is the multiple of 100 nearest to the request, with halves going up |
| Settings.ClampIdempotent | src/settings.ts:91 | clamping a clamped value changes nothing |
| Settings.ValidIffClampFixed | src/settings.ts:90-104 | the validator accepts exactly the values that the clamp stores unchanged |
| Settings.ClampIsValid | src/settings.ts:90-104 | every stored video bitrate passes the validator |
| Settings.ClampExamples | src/settings.ts:91 | 850 → 900, 10050 → 10000, 1050 → 1100, 1049 → 1000 |
| Settings.ValidateVideoBitrate | src/settings.ts:101-104 | a value is accepted exactly when it lies in [900, 10000] and is a multiple of 100 |
| Settings.DefaultsAreValid | src/settings.ts:22-31 | the defaults are language `ru`, audio 128, and video 5000 (4K), 3000 (1080p), 2000 (720p) and 1000 (480p), each of which passes the validator |
| Settings.VideoBitrates.With | src/settings.ts:92 | replacing one tier's bitrate leaves the other three unchanged |
| Settings.OrNumber | src/settings.ts:60-65 | a loaded number is used when present and non-zero; otherwise the default |
| Settings.OrText | src/settings.ts:58 | a loaded language is used when present and non-empty; otherwise the default |
| Settings.MergeWithDefaults | src/settings.ts:56-67 | each field comes from the loaded file when present and truthy, otherwise from the defaults, with no range check |
| Settings.MergeRoundTrip | src/settings.ts:56-67 | settings whose every field is truthy come back unchanged from being written out in full and merged |
| Settings.MergeEmptyIsDefault | src/settings.ts:56-67 | an empty file yields the defaults |
| Settings.MergeKeepsOutOfRange | src/settings.ts:56-67 | a loaded out-of-range bitrate is kept, and a loaded 0 falls back to the default |
| Settings.SettingsManager.constructor | src/settings.ts:39-54 | the store starts from the merged file when one was loaded, otherwise from the defaults |
| Settings.SettingsManager.GetSettings | src/settings.ts:81-83 | returns the current settings |
| Settings.SettingsManager.SetLanguage | src/settings.ts:85-88 | sets the language and changes nothing else |
| Settings.SettingsManager.SetVideoBitrate | src/settings.ts:90-94 | stores the clamped bitrate for that tier, which always passes the validator; the other tiers, the language and the audio bitrate are unchanged |
| Settings.SettingsManager.SetAudioBitrate | src/settings.ts:96-99 | sets the audio bitrate and changes nothing else |
| Messages.I18n.constructor | src/i18n.ts:210-211 | the current language starts as `ru` |
| Messages.I18n.SetLanguage | src/i18n.ts:213-215 | the current language becomes the one given |
| Messages.I18n.GetLanguage | src/i18n.ts:217-219 | returns the language last set (`ru` before any call) |
| Messages.I18n.T | src/i18n.ts:221-244 | the loop that walks the key's segments gives what walking the whole path at once gives: the message, with placeholders filled in when parameters are given, or the key itself |
| Messages.Translate | src/i18n.ts:221-244 | a result other than the key itself comes only from a message (not a table) found along the key's full path |
| Messages.ResolveFrom | src/i18n.ts:225-231 | nothing is found below a missing value; a non-empty path can only be walked from a table that holds its first segment |
| Messages.ResolveAppend | src/i18n.ts:225-231 | walking a path in two parts is the same as walking it at once |
| Messages.TranslateJoinedKey | src/i18n.ts:221-244 | a message stored under segments without '.' is found under the key that joins them with '.', with or without parameters |
| Messages.MissingSegmentGivesKey | src/i18n.ts:225-231 | a missing segment, or a message reached while segments remain, gives back the key |
| Messages.SubtreeGivesKey | src/i18n.ts:233-235 | a key that names a table rather than a message gives back the key |
| Messages.UnknownLanguageGivesKey | src/i18n.ts:223-231 | with no table for the current language, every key comes back unchanged |
| Messages.OnlyCurrentLanguage | src/i18n.ts:223 | the result depends only on the current language's table; there is no fallback to another language |
| Messages.NoParamsGivesMessage | src/i18n.ts:243 | without parameters the stored message comes back exactly |
| Messages.WordRun | src/i18n.ts:238 | the placeholder name is the longest run of `[A-Za-z0-9_]` characters |
| Messages.SubstitutePlaceholder | src/i18n.ts:237-241 | a `{word}` at the front becomes the parameter when it is present and non-empty, and stays as written otherwise; the scan resumes right after the `}` |
| Messages.Substitute | src/i18n.ts:237-241 | a message without `{` is never changed |
| Messages.Replacement | src/i18n.ts:239-240 | a placeholder is never replaced by empty text |
| Messages.SubstituteOther | src/i18n.ts:238 | a character other than `{` is copied and the scan moves on by one |
| Messages.SubstituteLoneBrace | src/i18n.ts:238 | a `{` not followed by a word run closed by `}` is copied and the scan moves on by one |
| Messages.LoneBraceExample | src/i18n.ts:238 | `{a b}` and a lone `{` are kept as written, whatever the parameters |
| Messages.SubstituteEmpty | src/i18n.ts:237-241 | with an empty parameter map every placeholder is kept, so the message is unchanged |
| Messages.EmptyParamKeepsPlaceholder | src/i18n.ts:239 | an empty or missing parameter leaves `{word}` as written |
| Messages.NoRescanExample | src/i18n.ts:238 | text put in for a placeholder is not scanned again: `{a}` with a = `{b}` and b = `x` gives `{b}` |

## Left out

- Running the probe and the encoder: spawning processes, the `close`/`error` handlers, rejecting on a non-zero exit code, `statSync` of the input and output, `checkFfmpegInstalled`. `onProgress` is the value `Feed` returns.
- Video.ProbeResult: the inspector's JSON text and `parseInt`/`parseFloat` are not modelled. Each field arrives as absent, or present with the number it parses to (if any). The duration is a whole number, where `parseFloat` can give a fraction.
- `formatFileSize`: floating-point division and `toFixed`.
- Video.FormatDuration: takes whole seconds, where the callers pass fractional elapsed and remaining times. For a non-negative `x` the source's `Math.floor(x / 60)` and `Math.floor(x % 60)` are the whole-number quotient and remainder of `⌊x⌋` by 60, so the text written for `x` is the one written for `⌊x⌋`. Negative and non-finite inputs are not modelled.
- Video.IsVideoFileIgnoresCase: lower-casing is ASCII only. JavaScript's `toLowerCase` also maps non-ASCII letters; for example, the Kelvin sign U+212A becomes `k`, so `a.mKv` is a video in the source but not in the model.
- NodePath.Dirname: a path that starts with exactly two separators, such as `//a.mp4`, has the directory `//` in Node and `/` in the model.
- Video.OutputInInputDirectory: requires the input's directory not to end in a separator unless it is the root. That excludes only paths with doubled separators, such as `a//b.mp4`, whose directory is `a/`. For those the output `a/b_720p.mp4` has the directory `a`, in Node as in the model, so the directory is the same location but not the same text.
- Node's `path.join` normalises `.`, `..` and repeated separators inside the directory part. The model only glues the directory and the file name with one separator. Windows paths are not modelled.
- EncodeArgs.VideoOptions: states each option by its position in the list, not through a reader that searches the list for each flag.
- Numbers from 1e21 up, which JavaScript writes in exponent form, are not modelled in the decimal texts.
- Loading and saving the YAML settings file, creating its directory, and saving after every setter are file I/O. The constructor receives the parsed file, or nothing when there is none or it could not be read.
- Settings.SettingsManager.GetSettings: returns a value, so the source's shallow copy (which shares the nested `videoBitrates` object) and the sharing of `DEFAULT_SETTINGS` are not modelled.
- Settings.SettingsManager.SetVideoBitrate: takes whole-number requests. A fractional JavaScript number is not modelled.
- Settings.SettingsManager.SetAudioBitrate: requires one of the five offered bitrates, as the TypeScript parameter type does. Untyped callers are not modelled.
- Messages.I18n.constructor: the two message tables (Russian and English) are not transcribed. The class takes the catalogue as its argument.
- Messages.SubstitutePlaceholder: keys inherited from `Object.prototype` are not modelled. In the source, `{constructor}` in a message with parameters is replaced by a function's text. In the table walk such keys give back the key anyway, which the model does too.
- Interactive menus, the per-rendition conversion loop with its console output and ETA, the ffmpeg downloader, the global installer and the build script.
