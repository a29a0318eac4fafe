# Interview Analyzer transcription pipeline, in Dafny

The modelled program is a desktop tool. The user picks an audio or video file. The tool then:

1. extracts the audio of a video;
2. cuts the audio into fixed-length chunks (`split_audio`);
3. runs a speech recognizer on each chunk (`transcribe_chunks`);
4. joins the recognized segments into a transcript of lines `[start ~ end] text`, one line per segment;
5. deletes the temporary chunk files and the extracted audio.

This project models the bookkeeping in `app.py`:

- the chunk windows and chunk names;
- how segments are gathered, with the fallback segment;
- how files are classified by extension, and which files are chosen for deletion;
- how lines are rendered, joined and saved.

It proves the properties those steps promise.

`process_file` is modelled as a method that returns an outcome and a log of effects, in the order the source performs them. The effects are: extract audio, export a chunk, load the model, transcribe a chunk, remove a file. The media library, the speech model and the file system are represented as follows:

- `audioLength` is a function from path to duration in milliseconds. It stands for `len(AudioSegment.from_file(p))`.
- `recognize` is a function from path to a recognition result. It stands for `model.transcribe`.
- Media calls and file removals are entries in the effect log.

Modules:

- `Wrappers`: `Option`, used for dictionary keys that may be missing (`dict.get(key, default)`).
- `Decimal`: `str(n)` for naturals and the parser that reads it back.
- `Paths`:
  - `os.path.splitext`, following the rules of both `posixpath` and `ntpath` (separator `/`, or `\` with `/` as alternative);
  - ASCII `lower`;
  - `os.path.join`;
  - the two extension allow-lists and the classification.
- `Chunking`: `split_audio`, plus the partition properties (count, contiguity, cover, lengths, total) and the chunk names (distinct, always `.wav`).
- `Transcription`: `transcribe_chunks`. A result's segments are gathered unchanged. A result without `segments` gives the fallback `{start: 0, end: 0, text}`.
- `Transcript`:
  - line rendering;
  - the `"\n".join` shown in the result box;
  - `save_transcript`, which puts a newline after every line;
  - a line parser and Python's `split("\n")`, used as inverses to prove that the text reads back.
- `Pipeline`: `process_file`, i.e. selection, classification, splitting, transcription of each chunk, assembly and cleanup.

Timestamps are whole numbers of tenths of a second. With that, `format(t, ".1f")` is exactly the integer part, a dot, and the tenths digit.

In four places the model keeps behaviour one might not expect:

- **Chunk length of zero.** The chunk length is only parsed with `int(...)`, so zero and negative values reach `split_audio`.
  - Zero makes `range` raise. The run stops after any audio extraction, and nothing is cleaned up (`SplitFailed`).
  - A negative length gives an empty range, so there are no chunks and the transcript is empty.
- **Errors are not caught.** `process_file` catches no error; only the removals at app.py:213-221 are wrapped in `try`. Any other exception leaves the handler.
- **Timestamps are not shifted.** Segment times are chunk-local. The model keeps this, and `Transcription.GatheredAt` states it.
- **The line count counts segments.** The status text's "N Lines" (app.py:208) is `len(transcript_lines)`, the number of segments (`lineCount` in the model). When a segment's text holds a newline, the displayed text has more lines than that.

## Model

| member | source | states |
|---|---|---|
| Chunking.ChunkCount | app.py:22 | Defines the number of values of `range(0, D, L)`: `ceil(D / L)` for a positive `L`, and 0 for a negative `L`. A zero `L` makes `range` raise; the 0 this function gives there is never used (`SplitAudio` requires a non-zero length, and `ProcessFile` reports `SplitFailed`). |
| Chunking.WindowAt | app.py:22-23 | Defines window `i`: it starts at `i * L` and stops at `start + L`, clipped to the audio length `D`, as the slice `audio[start:start+L]` is. |
| Chunking.Windows | app.py:22-23 | Defines the list of all `ChunkCount` windows, window `i` at index `i`. |
| Chunking.ChunkPath | app.py:24 | Defines the name of chunk `i`: the input path, then `_chunk_`, then `str(i)`, then `.wav`. |
| Chunking.ChunkLengthMs | app.py:184 | The millisecond chunk length is positive exactly when the minutes are, and zero exactly when they are zero. |
| Chunking.SplitAudio | app.py:18-27 | Returns `ChunkCount` paths, in index order. Path `i` is `input + "_chunk_" + str(i) + ".wav"`. For a positive length, chunk `i` exports window `i` of the partition. A negative length gives no chunks. |
| Chunking.IndexBelowCount | app.py:22 | Index `i` is a chunk exactly when `i * L < D`, i.e. when its start is a value of `range(0, D, L)`. |
| Chunking.ChunkCountIsCeiling | app.py:22 | There are `ceil(D / L)` chunks: `n * L >= D`, and `(n - 1) * L < D`. There are none exactly when the audio is empty. |
| Chunking.WindowsContiguous | app.py:22-23 | The first window starts at 0. Each window starts where the previous one stops. No window is empty. The last one stops at the end of the audio. |
| Chunking.WindowsCover | app.py:22-23 | Every instant `t < D` lies in window `t / L`, and in no other window. |
| Chunking.WindowLengths | app.py:23 | Every chunk but the last is `L` long. The last is `D - (n - 1) * L` long, which lies in `(0, L]`: the remainder `D % L`, or `L` when the division is exact. |
| Chunking.LastWindowLength | app.py:23 | The length of the last window, as in `WindowLengths`, stated for window `n - 1` directly. |
| Chunking.TotalLengthIsAudioLength | app.py:22-23 | The chunk lengths add up to the audio length. |
| Chunking.ChunkPathsDistinct | app.py:24 | Different indices give different chunk paths. |
| Chunking.ChunkPathIsWav | app.py:24 | Whatever the input path, a chunk path has the extension `.wav` and is classified as audio. |
| Chunking.TwelveMinutesInFiveMinuteChunks | app.py:18-23 | Twelve minutes in five-minute chunks gives exactly the windows `[0, 300000)`, `[300000, 600000)` and `[600000, 720000)`. |
| Decimal.NatToString | app.py:24 | Defines `str(i)` for a natural `i`: its decimal digits, most significant first, without leading zeros. |
| Decimal.NatToStringShape | app.py:24 | `str(i)` is a non-empty string of digits, with no leading zero when it has two or more digits. |
| Decimal.DigitsValueOfNatToString | app.py:24 | Reading `str(i)` back as decimal digits gives `i`. |
| Decimal.NatToStringInjective | app.py:24 | Different numbers have different numerals. |
| Transcription.FallbackSegment | app.py:38-39 | Defines the segment appended for a result without `segments`: start 0, end 0, and the result's text, or `""` when it has none. |
| Transcription.Contribution | app.py:35-39 | Defines what one result adds: its `segments` list when the key is present, otherwise the fallback segment alone. |
| Transcription.Gathered | app.py:31-40 | Defines the gathered list of a sequence of results: their contributions, concatenated in order. |
| Transcription.TranscribeChunks | app.py:29-40 | The gathered list is each chunk's contribution, in chunk order. Its length is the sum of the segment counts, counting 1 for a result without segments. |
| Transcription.GatheredAt | app.py:35-39 | A result contributes its own segments unchanged, with no timestamp offset. A result without segments contributes exactly `{start: 0, end: 0, text: text or ""}`. This contribution sits between those of the results before it and after it. |
| Transcription.GatheredLength | app.py:36-39 | The number of gathered segments is the sum over results of (number of segments, or 1). |
| Transcription.GatheredAppend | app.py:191-196 | Gathering two batches separately and concatenating gives the same list as gathering them together. So calling once per chunk equals one call on all chunks. |
| Transcription.GatheredSnoc | app.py:32-39 | One more result appends exactly its contribution. |
| Transcript.RenderTenths | app.py:202 | Defines `format(t, ".1f")` for a time of `t` tenths: `str(t / 10)`, a dot, and the tenths digit. |
| Transcript.RenderLine | app.py:202 | Defines a line: `[`, start as `D.d`, ` ~ `, end as `D.d`, `] `, then the text. Missing keys read as 0, 0 and `""`. |
| Transcript.TranscriptLines | app.py:201-204 | Defines the list of lines, line `i` being the rendering of segment `i`. |
| Transcript.JoinLines | app.py:205 | Defines `"\n".join(lines)`: nothing for no lines, otherwise the lines with one newline between neighbours. |
| Transcript.AssembleText | app.py:201-205 | Defines the displayed transcript: the rendered lines of the segments, joined by newlines. |
| Transcript.Terminated | app.py:46-50 | Defines the text `save_transcript` writes for a list of lines: every line followed by a newline. |
| Transcript.SaveTranscript | app.py:42-50 | The written text is every segment's line followed by a newline. It equals the displayed transcript plus one final newline, and it is empty for no segments. |
| Transcript.TerminatedIsJoinedPlusNewline | app.py:46-50 | Putting a newline after every line gives the `"\n"`-joined lines plus one newline, or nothing for no lines. |
| Transcript.JoinSnoc | app.py:205 | For a non-empty list, joining one more line adds a newline and that line. |
| Transcript.ParseRenderedTenths | app.py:202 | A time rendered with one decimal reads back as the same number of tenths. The parse stops right after it. |
| Transcript.ParseAfterRenderedStart | app.py:202 | The part of a line after its start time reads back as the end time and the text. |
| Transcript.ParseRenderedLine | app.py:202 | Every line reads back as its segment's start, end and text. Missing keys read back as 0, 0 and "". |
| Transcript.RenderTenthsNoNewline | app.py:202 | A rendered time holds no newline. |
| Transcript.RenderLineNoNewline | app.py:202 | A line holds a newline only if the segment's text does. |
| Transcript.DigitPrefixOfNumeral | app.py:202 | A numeral followed by a non-digit is read as exactly that numeral. |
| Transcript.SplitNoNewline | app.py:205 | Text without a newline splits into itself alone. |
| Transcript.SplitAfterLine | app.py:205 | `(a + "\n" + b).split("\n")` is `[a]` followed by the pieces of `b`, when `a` holds no newline. |
| Transcript.SplitJoin | app.py:205 | Splitting the joined lines at newlines gives back exactly the lines, when there is at least one line and none holds a newline. |
| Transcript.TranscriptReadBack | app.py:201-205 | When there is at least one segment and no text holds a newline, the displayed text has one line per segment, in segment order, with no trailing newline, and line `i` reads back as segment `i`'s fields. |
| Transcript.SavedFileReadBack | app.py:45-50 | When there is at least one segment and no text holds a newline, the text written to the file splits into every segment's line followed by one empty piece after the final newline. |
| Transcript.SplitAppendEmptyLine | app.py:46-50 | When there is at least one line and no line holds a newline, the joined lines plus a final newline split into the lines and one empty piece. |
| Paths.LastIndex | app.py:160 | Defines `rfind` over a set of characters: the last index holding one of them, or -1 when there is none. |
| Paths.ExtensionStart | app.py:160 | Defines where `splitext` cuts: at the last dot, when it comes after the last separator and the last component has a non-dot character before it; otherwise nowhere. |
| Paths.Lower | app.py:160 | Defines `str.lower()` on ASCII: every upper-case letter is replaced by its lower-case one, and nothing else changes. |
| Paths.FileExt | app.py:160 | Defines `file_ext`: the lower-cased extension of the path. |
| Paths.TempAudioPath | app.py:172 | Defines the extracted-audio path: `temp_extracted.wav` joined to the temporary directory. |
| Paths.Classify | app.py:169-179 | A lower-cased extension is audio exactly when it is `.mp3`, `.wav` or `.m4a`, video exactly when it is `.mp4`, `.avi` or `.mov`, and unsupported otherwise. |
| Paths.Extension | app.py:160 | `splitext(p)[-1]` is a suffix of `p`. When it is not empty, it is a dot followed by neither dots nor separators. |
| Paths.ExtensionOfSuffix | app.py:160 | `p + name + "." + ext` has the extension `"." + ext`, whatever `p` is, when `ext` holds no dot, `/` or `\`, and `name` holds no `/` or `\` and has a character other than a dot. So `a..mp3` has `.mp3`. |
| Paths.ExtensionLower | app.py:160 | The extension of a lower-cased path is the lower-cased extension. |
| Paths.KindIgnoresCase | app.py:160 | Lower-casing a path changes neither its lower-cased extension nor its kind. |
| Paths.UpperCaseExtensionExample | app.py:160 | `talk.MP3` has the lower-cased extension `.mp3` and is audio. |
| Paths.LeadingDotExample | app.py:160 | A file named `.mp3` has no extension, so it is unsupported. |
| Paths.DirectoryDotExample | app.py:160 | Under `ntpath`, a dot in a directory is not an extension. Under `posixpath`, `\` is not a separator. |
| Paths.JoinPath | app.py:172 | `os.path.join` returns the name alone when it is absolute. Otherwise the result starts with the directory and ends with the name. Exactly one character, the flavor's separator, is put between them, and only when the directory is non-empty and does not already end in a separator. |
| Paths.TempAudioPathIsWav | app.py:172 | Whatever the temporary directory, the extracted-audio path has the extension `.wav` and is audio. |
| Paths.WavFileIsAudio | app.py:169 | A file `name.wav` in any directory has the extension `.wav` and is audio, when `name` holds no `/` or `\` and has a character other than a dot. So `a.b.wav` is audio, while `.wav` and `...wav` have no extension. |
| Paths.LastIndexIsLast | app.py:160 | No character after the index `rfind` finds is one that was searched for. |
| Paths.LastIndexLower | app.py:160 | Lower-casing does not move the last dot or separator. |
| Paths.NoExtensionWithoutInnerDot | app.py:160 | A last component made of leading dots (perhaps none) and then a name with no dot, `/` or `\` has no extension, whatever directory precedes it (empty, or ending in a separator). |
| Pipeline.AudioPathFor | app.py:169-179 | Defines `audio_path`: the file itself for an audio extension, the temporary `.wav` for a video extension, and none for anything else. |
| Pipeline.PrepEffects | app.py:169-179 | Defines the effects of preparing the audio: one extraction for a video, nothing otherwise. |
| Pipeline.PlannedChunks | app.py:18-27 | Defines the chunks `split_audio` exports for a positive length: chunk `i` is named `ChunkPath(audio, i)` and holds window `i`. |
| Pipeline.ChunksFor | app.py:18-27 | Defines the chunks of any length: the planned chunks for a positive length, none for a negative one. |
| Pipeline.ExportEffects | app.py:25 | Defines one export effect per chunk, in order. Its effects are exactly the exports of the given chunks. |
| Pipeline.TranscribeEffects | app.py:34 | Defines one transcription effect per path, in order. Its effects are exactly the transcriptions of the given paths. |
| Pipeline.RemoveEffects | app.py:212-221 | Defines one removal effect per path, in order. Its effects are exactly the removals of the given paths. |
| Pipeline.CompletedEffects | app.py:184-221 | Defines the effect log of a completed run: the preparation effects, the exports, the model load, one transcription per chunk, then the removals. |
| Pipeline.SelectAudio | app.py:168-179 | Audio extensions keep the file path. Video extensions map to `join(tempdir, "temp_extracted.wav")`, with one extraction effect. Anything else gives no audio and no effect. |
| Pipeline.CleanupTargets | app.py:212-221 | The targets are the chunk paths, in order, followed by the audio path exactly when the extension is not an audio one: membership and length are both fixed. |
| Pipeline.Cleanup | app.py:212-221 | The removal loop attempts exactly the cleanup targets, in order. Failures are ignored. |
| Pipeline.TranscribeEach | app.py:191-196 | Transcribing chunk by chunk and concatenating gives the gathered segments of all chunks. The recognizer is called on each chunk path in order. |
| Pipeline.TranscribeAudio | app.py:184-221 | After splitting, the run completes. Its transcript is the joined lines of the gathered segments, and its line count is their number. Its effects are the exports, then the model load, then one transcription per chunk, then the removals. |
| Pipeline.ProcessFile | app.py:153-221 | No selection or an unsupported extension: no effect at all. A zero chunk length stops after the extraction, without cleanup. Otherwise the run completes with the transcript, line count and effect log above. It never removes the selected file, and it removes every chunk it exported and the audio it extracted. |
| Pipeline.CompletedRunSafe | app.py:212-221 | In a completed run's effects, no removal targets the selected file. Every exported chunk and extracted audio is removed. |
| Pipeline.CompletedRunEffects | app.py:184-221 | In a completed run's effect log, the removals are exactly the given targets, the exports are exactly the chunks (each chunk exported, nothing else exported), and the extractions are exactly those of the classification step's effects `prep`. |
| Pipeline.TargetsCoverTemporaries | app.py:212-219 | Every exported chunk is a cleanup target, and so is the extracted audio of a video. |
| Pipeline.RemovedIsNotSelected | app.py:212-221 | No cleanup target is the selected file. A chunk path is longer than its input and ends in `.wav`. The extracted audio ends in `.wav`, which is not a video extension. |

## Left out

- **Media and speech libraries.** Audio extraction (`VideoFileClip`, `write_audiofile`), decoding and exporting (`AudioSegment.from_file`, `export`), `whisper.load_model`, `model.transcribe` and `torch.cuda` device selection are external calls.
  - They appear as parameters (`audioLength`, `recognize`) or as effects.
  - The device string is not modelled.
- **Recognition failures.** Decode failures and recognition failures raise exceptions in the source. The model does not produce these errors.
- **File-system effects.** The model records which files are written and removed, in order, but does not model the file system. In particular:
  - `os.remove` failures are ignored by the source, so the model attempts every removal unconditionally;
  - `os.makedirs(os.path.dirname(path))` and the file opening in `save_transcript` are not modelled. For a bare file name the directory name is `""`, and `os.makedirs("")` raises `FileNotFoundError`, so `save_transcript` writes nothing. `Transcript.SaveTranscript` models only the text a successful call passes to `write`. The file is opened in text mode, so on Windows each `"\n"` is stored as `"\r\n"`; this newline translation is not modelled, and `SavedFileReadBack` is about the text before it.
- **`delete_whisper_cache`** (app.py:52-56) is a directory removal with no logic to verify.
- **The GUI.** Widget setup, dialogs, status texts, `page.update`, the save handler and the cache-delete handler (app.py:58-151, 225-241) are UI glue. Note that `save_transcript` is not called by the GUI, whose save handler writes the result box text.
- **main.py** is only an entry point.
- **Console output.** The `print` calls (app.py:15, 33, 56) only log progress and are left out.
- **Chunk-length parsing.** `int(chunk_input.value)` is an input to `ProcessFile` as the integer `chunkMinutes`. Its parse errors are not modelled.
- **Floating point.** Timestamps are exact tenths, so the rounding of `format(x, ".1f")` for other floats is not modelled. The progress bar values (app.py:165, 188, 194, 197) are left out.
- **Paths.Lower:** folds ASCII letters only, not the whole of Unicode as `str.lower` does.
- **Paths.JoinPath:** does not model drive letters of `ntpath.join`. It follows the `posixpath` rule for absolute names.
- **Pipeline.ProcessFile:** a run in which the recognizer or the decoder raises is not modelled. In the model every such call returns.
