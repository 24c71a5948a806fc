# Subtitle-to-narration timeline, modelled in Dafny

The tool reads an SRT subtitle file and synthesizes speech for every caption.
It then places each clip at the caption's own start time on one silent track,
and writes that track as an MP3 next to the subtitle file. This project models
the non-plumbing part of `srt_to_turkish_mp3.py` and proves properties of it:

- **Captions** (`captions.dfy`): `srt_to_segments`. Each parsed entry's
  `HH:MM:SS,mmm` start and end become integer milliseconds, and line breaks in
  the text become spaces. There is one segment per entry, in file order.
- **Timeline** (`timeline.dfy`): `build_full_timeline`. No captions give no
  track. Otherwise a silent canvas lasts the last caption's end plus 1000 ms.
  Blank captions are skipped without a synthesis request. Each clip is cut to
  its window only when it is longer than the window and the window exceeds
  500 ms. The clip is then mixed additively into the canvas at the caption's
  start. A failed synthesis aborts the whole assembly. The canvas is an
  `array<int>` updated in place by `OverlayInPlace`. The pure function `MixAll`
  specifies the loop.
- **Voices** (`voices.dfy`): the `VOICE_MAP` lookup with its `"alloy"` fallback.
- **Paths** (`paths.dfy`): the output path. It is the input's directory joined
  with `<base>.mp3`, following POSIX `os.path.dirname`, `basename`, `splitext`
  and `join`.
- **Pipeline** (`pipeline.dfy`): `process_file`. It resolves the voice, converts
  the entries and refuses an empty file. Then it assembles the track and
  derives the output path.
- **Wrappers** (`wrappers.dfy`): `Option` and `Result`.

Audio is modelled at 1 ms granularity. A track is a `seq<int>` with one
sample per millisecond, and silence is 0. Speech synthesis is the
parameter `synth: (string, string) -> Option<seq<int>>`, taking a text and a
provider voice. `None` stands for a failed provider call. "No synthesis
request for blank text" is stated extensionally:
`SynthesisOnlyForSpokenText` shows that the outcome does not depend on what
`synth` returns for blank texts.

Two details of the code shape the model:

- The canvas is sized from the last entry in file order (line 59). So a
  produced track lasts that entry's end plus 1000 ms for every input
  (`AssembledTrack`). If an earlier entry ends later, or a clip runs past the
  end of the canvas, the overflow is dropped (`Overlay` keeps the canvas
  length). Every caption fits, pad included, exactly when no caption ends after
  the last one; in particular when the ends never decrease (`CaptionsFitCanvas`).
- A caption is skipped when `text.strip()` is empty (line 63). `Strip` removes
  the characters Python's `str.isspace` accepts, Unicode spaces included, and
  `BlankIffStripsToNothing` shows this is the same as every character being
  whitespace (`IsBlank`).

## Model

| member | source | states |
|---|---|---|
| `Captions.ToMillis` | srt_to_turkish_mp3.py:31-32 | for a well-formed timestamp, the milliseconds part is `ms % 1000`, and `ms / 1000` is `hours*3600 + minutes*60 + seconds` |
| `Captions.FromMillisToMillis` | srt_to_turkish_mp3.py:31-32 | converting a well-formed timestamp to milliseconds and back gives the same timestamp |
| `Captions.ToMillisFromMillis` | srt_to_turkish_mp3.py:31-32 | every millisecond offset is the conversion of its own clock reading |
| `Captions.ToMillisInjective` | srt_to_turkish_mp3.py:31-32 | two distinct well-formed timestamps never convert to the same offset |
| `Captions.FlattenNewlines` | srt_to_turkish_mp3.py:33 | same length as the input; each `'\n'` becomes `' '` and every other character is kept; the result has no `'\n'` |
| `Captions.ToSegments` | srt_to_turkish_mp3.py:27-35 | one segment per entry, in input order; each segment's start and end are its entry's times in milliseconds; its text is the entry's text with each newline turned into a space, so it has the entry's length and no newline |
| `Captions.SrtToSegments` | srt_to_turkish_mp3.py:22-35 | one segment per entry, in input order; the start and end come from the same millisecond formula; the text is flattened, has unchanged length and contains no newline |
| `Timeline.StripStart` | srt_to_turkish_mp3.py:63 | the result is a suffix of the text; everything removed is whitespace; what remains is empty or starts with a non-whitespace character |
| `Timeline.StripEnd` | srt_to_turkish_mp3.py:63 | the result is a prefix of the text; everything removed is whitespace; what remains is empty or ends with a non-whitespace character |
| `Timeline.Strip` | srt_to_turkish_mp3.py:63 | `text.strip()` is never longer than the text, and is empty or starts and ends with a non-whitespace character |
| `Timeline.BlankIffStripsToNothing` | srt_to_turkish_mp3.py:63 | a caption is skipped (`text.strip()` empty) exactly when every character is Python whitespace (`IsBlank` over `IsSpace`) |
| `Timeline.PlacedClip` | srt_to_turkish_mp3.py:76-79 | the placed clip is a prefix of the synthesized clip and never longer; it is exactly the window length when the clip is longer than the window and the window exceeds 500 ms; otherwise it is the whole clip, in particular for windows of 500 ms or less |
| `Timeline.AddInto` | srt_to_turkish_mp3.py:82 | the sample-wise sum keeps the base length; each sample is the base sample plus the clip sample, or plus 0 past the clip's end |
| `Timeline.Overlay` | srt_to_turkish_mp3.py:82 | the canvas length is unchanged; positions before `pos` and from `pos + |clip|` on are unchanged; positions in between get the clip sample added |
| `Timeline.OverlayInPlace` | srt_to_turkish_mp3.py:82 | updating the canvas array in place leaves exactly `Overlay` of its old contents |
| `Timeline.BuildFullTimeline` | srt_to_turkish_mp3.py:51-84 | the loop's result equals `Assemble`; there is no track exactly for an empty list; a produced track lasts the last end plus 1000 ms |
| `Timeline.FailurePersists` | srt_to_turkish_mp3.py:67 | once a caption's synthesis fails, the captions after it cannot change the outcome, so the run aborts |
| `Timeline.MixAll` | srt_to_turkish_mp3.py:62-82 | the loop over the captions, as a function: on success the canvas length is unchanged; on failure the reported index is a caption whose synthesis was requested and failed |
| `Timeline.CaptionsFitCanvas` | srt_to_turkish_mp3.py:59 | every caption ends at least 1000 ms before the canvas does exactly when no caption ends after the last one in file order; in particular when the ends never decrease |
| `Timeline.Assemble` | srt_to_turkish_mp3.py:55-84 | no track exactly for an empty list; a track lasts `TotalDuration`, the last entry's end plus 1000 ms; a failure names a caption whose synthesis failed |
| `Timeline.MixAllSuperposition` | srt_to_turkish_mp3.py:59-82 | each resulting sample is the canvas sample plus the sum of every spoken caption's placed-clip sample covering that position |
| `Timeline.MixAllFailure` | srt_to_turkish_mp3.py:62-67 | the run fails exactly when some non-blank caption's synthesis fails, and it reports the first such caption |
| `Timeline.SynthesisOnlyForSpokenText` | srt_to_turkish_mp3.py:63-67 | the outcome depends only on the synthesizer's answers for non-blank captions, so blank ones trigger no synthesis |
| `Timeline.AllBlankKeepsCanvas` | srt_to_turkish_mp3.py:63-64 | captions that are all blank leave any canvas as it was, whatever the synthesizer would answer |
| `Timeline.BlankCaptionsGiveSilence` | srt_to_turkish_mp3.py:59-64 | a non-empty list of blank captions yields pure silence of the full duration |
| `Timeline.AssembledTrack` | srt_to_turkish_mp3.py:55-84 | a produced track lasts `segments[-1].end + 1000` ms, and every sample is the sum of the placed clips covering it, which is silence where none does |
| `Timeline.AssemblyOutcome` | srt_to_turkish_mp3.py:55-67 | a track is produced exactly when the list is non-empty and no spoken caption's synthesis fails; a failure names the first failing caption |
| `Timeline.LongClipInLongWindowIsCut` | srt_to_turkish_mp3.py:76-82 | a 3000 ms clip in the window `[0, 2000)` is cut to 2000 ms; the track is 3000 ms long and silent after 2000 ms |
| `Timeline.ShortWindowKeepsWholeClip` | srt_to_turkish_mp3.py:76-82 | a 900 ms clip in the 300 ms window `[1000, 1300)` is placed whole at 1000 ms; the track is 2300 ms long and silent elsewhere |
| `Timeline.OverlappingClipsAreSummed` | srt_to_turkish_mp3.py:82 | with two spoken captions, each sample is the sum of both placed clips' samples, so overlapping speech is mixed, not replaced |
| `Voices.ResolveVoice` | srt_to_turkish_mp3.py:15-18 | a known label gives its table entry; any other label gives `"alloy"`; the result is always one of the table's voices |
| `Voices.VoiceTable` | srt_to_turkish_mp3.py:91 | `"Kadın"` gives `"alloy"`, `"Erkek"` gives `"verse"`, and every other label gets the same voice as `"Kadın"` |
| `Paths.LastIndexOf` | srt_to_turkish_mp3.py:101-102 | the result is the last position holding the character, or -1 when there is none |
| `Paths.TrimTrailingSeps` | srt_to_turkish_mp3.py:101 | the result is a prefix that does not end in `/`; only `/` characters were removed |
| `Paths.Basename` | srt_to_turkish_mp3.py:102 | the final component is the suffix of the path that starts right after its last `/` (the whole path when there is none), and contains no `/` |
| `Paths.Dirname` | srt_to_turkish_mp3.py:101 | the directory part is a prefix of the path that, followed only by `/` characters, reaches the final component; it is empty exactly when the path has no `/`; it is all separators or does not end in one |
| `Paths.DirnameKeepsSeparatorHead` | srt_to_turkish_mp3.py:101 | a directory part made only of `/` keeps every separator before the final component (`"//a"` gives `"//"`), so with the ensures of `Dirname` the result is fixed for every path |
| `Paths.Join` | srt_to_turkish_mp3.py:103 | a name starting with `/` replaces the directory; otherwise the joined path ends with the name |
| `Paths.SplitExtRoot` | srt_to_turkish_mp3.py:102 | the root is a prefix of the name; it is cut at a dot after which no dot and no `/` follow; the name is kept whole exactly when no dot of its final component has a non-dot before it there |
| `Paths.PathInDir` | srt_to_turkish_mp3.py:103 | `<root>.mp3` joined to a directory ends in `.mp3` |
| `Paths.OutputPath` | srt_to_turkish_mp3.py:101-103 | the output path ends in `.mp3` |
| `Paths.JoinSplits` | srt_to_turkish_mp3.py:103 | joining a directory and a plain name can be split back into that directory and that name |
| `Paths.PathInDirSplits` | srt_to_turkish_mp3.py:103 | `<root>.mp3` joined to a directory splits back into that directory and `<root>.mp3` |
| `Paths.OutputPathLocation` | srt_to_turkish_mp3.py:101-103 | the output's directory is the input's directory, and its file name is the input's base name followed by `.mp3` |
| `Paths.ExtensionRoundTrip` | srt_to_turkish_mp3.py:102-103 | removing the extension from `<root>.mp3` gives back `root` when `root` contains a character other than a dot |
| `Paths.OutputKeepsBaseName` | srt_to_turkish_mp3.py:101-103 | removing the output's extension gives back the input's base name without its extension, whenever that extension-free name contains a character other than a dot |
| `Pipeline.ProcessFile` | srt_to_turkish_mp3.py:87-107 | fails with "no captions" exactly for an empty file; succeeds exactly when no spoken caption fails; on success returns, for writing to `OutputPath` of the input, a track equal to the assembled one, lasting the last entry's end plus 1000 ms |

## Left out

- SRT parsing by `pysrt.open` (line 26) is left out, together with its failures on missing or malformed files. The model starts from the parsed entries: each has hours, minutes, seconds and milliseconds fields (non-negative, as parsed from digits) and a text.
- The text-to-speech request `tts_to_wav_bytes` and the global client (lines 10, 38-48) are network I/O. They are the parameter `synth`. A failing call is `None`, and it aborts the run as the exception does. The exception's message is not modelled, only which caption failed.
- WAV decoding (`AudioSegment.from_file`, lines 70-73) and MP3 encoding and writing (`export`, line 106) are foreign codecs and file I/O. So are their errors and the silent overwrite of an existing file.
- Sample rates, channel counts and pydub's conversion between them are not modelled. Samples are integers at 1 ms granularity.
- Timeline.AddInto: uses unbounded integer addition, while pydub's `audioop.add` saturates at the sample width. Loud overlapping clips are therefore not clipped in the model.
- Timeline.OverlayInPlace: updates one canvas array in place, while pydub's `overlay` returns a new segment each time. The resulting samples are the same. No other reference to the old canvas exists.
- The progress `print` on line 66 and the one on line 105 are left out.
- The tkinter interface (`select_file`, `start_conversion` and the window setup, lines 113-168) is presentation and file-dialog plumbing.
- Paths.SplitExtRoot: only the POSIX `os.path` rules are modelled; Windows drive letters and `\` separators are not.
- Pipeline.ProcessFile: the second guard (line 98-99, no audio produced) is not a reachable error. Assembly yields no track only for an empty list, which line 94 already rejects, so the model asserts that the guard cannot fire.
- Running the pipeline twice gives the same track, since every model member is a deterministic function of its inputs. No separate lemma states this.
