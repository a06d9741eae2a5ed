# SRT subtitles of an uploaded recording

`app.py` is a small Flask application. Its `/upload` handler does five things:

- saves the posted audio file under a name stamped with the local time;
- has a Whisper model transcribe it;
- writes the segments as a SubRip (`.srt`) file next to the upload;
- derives that file's path from the upload's path;
- sends the `.srt` back.

This project models the parts of the handler that are plain computation.

- **The SubRip writer** (`Srt.WriteSrt`). This is the `enumerate(segments, start=1)` loop, written as a loop over a growing string. It is proved equal to the pure encoding `Srt.Encode`. The encoding is the concatenation of one block per segment, in input order. Each block holds:
  - the 1-based index;
  - the timing line `HH:MM:SS,000 --> HH:MM:SS,000`;
  - the stripped text;
  - a blank line.

  Every segment gets a block, including one whose text is empty. The end time is written as given, even when it precedes the start time.
- **The timestamp expression** (`Timestamp.Format`). It uses Python's float `//`, float `%`, `int()` and sign-aware `:02` padding, all written out over exact reals.
  - Every field depends only on the whole seconds `⌊t⌋`: `Timestamp.Fields`.
  - The fields are a mixed-radix decomposition of `⌊t⌋`: `Timestamp.Decomposition`.
  - A reader recovers `⌊t⌋` from the text: `Timestamp.RoundTrip`.
- **`str.strip()`** (`Text.Strip`), with Python's whitespace set. Strip is characterised as the unique trim of its input.
- **The upload name, the upload path and the subtitle path**: `Paths.UploadName`, `Paths.Join` and `Paths.SrtPath`. They model `strftime("%Y%m%d_%H%M%S_") + file.filename`, `os.path.join` and `rsplit(".", 1)[0] + ".srt"`.
- **The handler with its I/O taken out** (`App.HandleUpload`). The clock reading, the client's file name and the transcriber's segments are parameters. The result is the two paths and the subtitle text.

A reader of the produced text, `Srt.ParseSrt`, is the partner of the writer. `Srt.SrtRoundTrip` proves that reading the written file gives one cue per segment. The cues are in input order and numbered 1, 2, …. Each carries its segment's whole-second start and end and its stripped text.

The handler transcribes and writes synchronously inside the request, with no job queue (app.py:26-36). It writes a block for every segment (app.py:29) and never compares `end` with `start`.

## Model

| member | source | states |
|---|---|---|
| Srt.Block | app.py:33-36 | The three writes of one iteration: index line, timing line, stripped text, blank line. `BlockRoundTrip` reads it back as the segment's cue; `IndexLineAt` places its index line. |
| Srt.TimingLine | app.py:34-35 | The two timestamps joined by ` --> `. `TimingLineRoundTrip` reads it back as `(⌊start⌋, ⌊end⌋)`. |
| Srt.Encode | app.py:28-36 | The file's content: the blocks numbered from 1 in input order. Pinned by `WriteSrt`, `BlockAt`, `PartialOutput` and `SrtRoundTrip`. |
| Srt.WriteSrt | app.py:28-36 | The text written by the loop, starting from an empty file, is `Encode(segments)`. |
| Srt.EncodeFromAppend | app.py:29-36 | Encoding `a + b` is encoding `a`, then encoding `b` numbered on from `first + |a|`. |
| Srt.AppendOne | app.py:29-36 | One more iteration appends exactly the block of the next segment, carrying the next index. |
| Srt.BlockAt | app.py:29-36 | Segment k (0-based) contributes `Block(k + 1, segs[k])`. It sits after the encoding of the k segments before it, whatever their texts, so indices are contiguous. |
| Srt.IndexLineAt | app.py:29-33 | At the offset where block k starts, the output holds the decimal rendering of k + 1 followed by a newline. |
| Srt.TimingLineRoundTrip | app.py:34-35 | The timing line has no line break. It reads back as `(⌊start⌋, ⌊end⌋)`. |
| Srt.ParseTimingLineOf | app.py:34-35 | A line made of two break-free timestamps around ` --> ` splits at the arrow. |
| Srt.ParseBlockOf | app.py:33-36 | An index line, a timing line, a text line and a blank line read back as one cue, followed by the rest of the input. |
| Srt.BlockRoundTrip | app.py:33-36 | A block whose stripped text is one line reads back as the cue of its segment, whatever follows it. |
| Srt.ParseEncodeFrom | app.py:29-36 | When every stripped text is one line, reading the blocks numbered from `first` yields exactly the cues of the segments numbered from `first`. |
| Srt.PartialOutput | app.py:29-36 | After the first i iterations the file holds `Encode(segs[..i])`, a prefix of the full file; the rest is the blocks of the remaining segments, numbered from i + 1. |
| Srt.SrtRoundTrip | app.py:29-36 | Reading the file yields one cue per segment, in order. Cue k has index k + 1, `⌊start⌋`, `⌊end⌋` and the stripped text. |
| Timestamp.FloorDiv | app.py:34-35 | Python's float `x // d` for a positive divisor. `FloorOfQuotient` relates it to the integer floor of `x`. |
| Timestamp.Mod | app.py:34-35 | Python's float `x % d`, i.e. `x - d * (x // d)`. `Fields` shows its integer part is `⌊x⌋ mod d` for the divisors used. |
| Timestamp.Int | app.py:34-35 | Python's `int()` on a float: truncation toward zero. Used on the three fields, whose values `Fields` gives. |
| Timestamp.Hours | app.py:34-35 | `int(t // 3600)`. `Fields` proves it equals `⌊t⌋ div 3600`. |
| Timestamp.Minutes | app.py:34-35 | `int((t % 3600) // 60)`. `Fields` proves it equals `(⌊t⌋ mod 3600) div 60`, `Decomposition` that it lies in 0..59. |
| Timestamp.Seconds | app.py:34-35 | `int(t % 60)`. `Fields` proves it equals `⌊t⌋ mod 60`, `Decomposition` that it lies in 0..59. |
| Timestamp.Format | app.py:34-35 | A timestamp is at least 12 characters long. |
| Timestamp.FloorOfQuotient | app.py:34-35 | Flooring a quotient by a positive whole divisor needs only the floor of the dividend. |
| Timestamp.Fields | app.py:34-35 | Hours, minutes and seconds, computed with Python's float `//`, `%` and `int()`, equal `⌊t⌋ div 3600`, `(⌊t⌋ mod 3600) div 60` and `⌊t⌋ mod 60`. |
| Timestamp.Decomposition | app.py:34-35 | Minutes and seconds lie in 0..59, and `h*3600 + m*60 + s == ⌊t⌋`. The hours are non-negative for non-negative t. |
| Timestamp.FormatDependsOnlyOnFloor | app.py:34-35 | Two times format alike if and only if they have the same whole seconds. |
| Timestamp.RoundTrip | app.py:34-35 | Parsing a formatted timestamp gives `⌊t⌋`, for every real t, including negative ones. |
| Timestamp.MinutesSecondsTwoDigits | app.py:34-35 | The minutes and seconds fields are exactly two digits holding `(⌊t⌋ mod 3600) div 60` and `⌊t⌋ mod 60`. The milliseconds are always `,000`. |
| Timestamp.HoursField | app.py:34-35 | A non-negative hour count is rendered with `max(2, its digit count)` digits, reading back as that count. |
| Timestamp.HoursNotTruncated | app.py:34-35 | For t ≥ 0 the hours field holds all of `⌊t⌋ div 3600`. It is never cut to two digits and has three or more from 360000 s on. |
| Timestamp.FormatNoSpaceOrBreak | app.py:34-35 | A timestamp contains neither a space nor a line break. |
| Decimal.Digits | app.py:33 | `str(n)` is a non-empty run of decimal digits. |
| Decimal.ValueOfDigits | app.py:33 | `str(n)` reads back as n. |
| Decimal.ZeroPad | app.py:34-35 | Zero padding gives digits only, `max(width, len(str(n)))` of them. |
| Decimal.ZeroPadValue | app.py:34-35 | Zero padding does not change the value. |
| Decimal.DigitsWidth | app.py:34-35 | `str(n)` has at most k digits if and only if n < 10^k. |
| Decimal.PadTwo | app.py:34-35 | `f"{n:02}"` has at least two characters, all digits when n ≥ 0. |
| Decimal.PadTwoRoundTrip | app.py:34-35 | `f"{n:02}"` reads back as n, whatever its sign. |
| Decimal.PadTwoSmall | app.py:34-35 | A value below 100 renders as exactly two digits. |
| Text.Strip | app.py:32 | The stripped text is no longer than the input, and it neither starts nor ends with whitespace. |
| Text.StripIsTrim | app.py:32 | The stripped text is a slice of the input with only whitespace outside it. |
| Text.TrimIsStrip | app.py:32 | Every such slice is the stripped text, so strip is the unique trim. |
| Text.StripIdempotent | app.py:32 | Stripping twice equals stripping once. |
| Paths.BeforeLast | app.py:25 | `rsplit(".", 1)[0]`: all before the last `.`, or the whole path. `SrtPathReplacesExtension`, `SrtPathNoExtension` and `BeforeLastUnderPrefix` pin both cases. |
| Paths.BeforeLastUnderPrefix | app.py:25 | With a dot-free prefix `dir`, cutting `dir + name` at its last `.` keeps `dir` and cuts `name` at its own last `.`. |
| Paths.SrtPath | app.py:25 | The subtitle path always ends in `.srt`. |
| Paths.LastIndexOf | app.py:25 | Gives the position of the last `.` (nothing after it is a `.`), or none when the path has no `.`. |
| Paths.SrtPathReplacesExtension | app.py:25 | `stem.ext` with a dot-free `ext` becomes `stem.srt`. Only the last extension is replaced. |
| Paths.SrtPathNoExtension | app.py:25 | A path without a `.` gets `.srt` appended whole. |
| Paths.SrtPathIdempotent | app.py:25 | Deriving the subtitle path of a subtitle path changes nothing. |
| Paths.SrtPathUnderPrefix | app.py:25 | A dot-free directory prefix is kept, so the extension replaced is the file name's own. |
| Paths.Join | app.py:22 | `os.path.join(a, b)` ends with b. |
| Paths.JoinBaseName | app.py:22 | Joining a non-empty directory and a slash-free name makes that name the last path component. |
| Paths.StampPrefix | app.py:21 | `strftime("%Y%m%d_%H%M%S_")` of the date and time. `StampPrefixRoundTrip` gives its layout and reads its fields back. |
| Paths.StampPrefixRoundTrip | app.py:21 | The stamp is 16 characters, all digits except two underscores, and its six fields read back as the date and time. |
| Paths.UploadName | app.py:21 | The client's file name is a suffix of the saved name. |
| Paths.UploadNameInjective | app.py:21 | Two uploads get the same name only if both the second and the client's file name agree. |
| Paths.UploadPath | app.py:22 | `os.path.join(UPLOAD_FOLDER, filename)`. `UploadPathInFolder` proves it is `uploads/<stamp><file name>`. |
| Paths.UploadPathInFolder | app.py:21-22 | The upload is saved at `uploads/<stamp><file name>`, never at an absolute client path. |
| Paths.UploadSrtPath | app.py:21-25 | The subtitle file is `uploads/<stamp>` followed by the client's file name with its last extension replaced by `.srt`. |
| App.HandleUpload | app.py:18-36 | An empty file name saves nothing. Otherwise the upload path, the subtitle path and the subtitle text are as above. |

## Left out

- Flask routing, `render_template`, `request.files`, `send_file` and the "no file" response text are HTTP. A missing `file` field makes app.py:19 raise a 400 error; that path is not modelled. An empty file name is modelled as `None`.
- `file.save`, `open(..., "w", encoding="utf-8")` and the writes are file I/O. The file's content is modelled as the string written; its UTF-8 encoding is not.
- `WhisperModel("tiny")` and `model.transcribe` are foreign calls. The segments are a parameter, and the model's own start, end and text values are taken as given.
- App.HandleUpload: does not model a failing transcriber. In app.py the segments come from a lazy iterator consumed inside the write loop (app.py:26-36). If transcription fails at app.py:26, the upload is already saved (app.py:23), no `.srt` file is written and the exception propagates. If it fails mid-loop, the file keeps the blocks already written and `send_file` (app.py:38) is never reached. The model takes a finished sequence of segments and always returns the full encoding. `Srt.PartialOutput` states what a file cut short after i segments holds.
- `datetime.now()` reads the clock; the date and time are a parameter.
- Times are exact reals. IEEE rounding of `t / 3600` and friends is not modelled, and neither are NaN or infinite times, for which `int()` raises.
- `ValidDateTime` accepts day 31 in every month. Only the rendering of the fields is modelled, and calendar validity does not affect it.
- StampPrefix: renders years below 1000 with four digits. Some C libraries' `%Y` does not pad them.
- Join: models the POSIX `os.path.join`. The Windows rules (drive letters, backslashes) are not modelled.
- Srt.ParseEncodeFrom: requires every stripped text to be one line, for the reason given for `Srt.SrtRoundTrip` on the next line.
- Srt.SrtRoundTrip: requires every stripped text to be one line. A text with an inner line break spans several lines of the file, and a line-based reader cannot tell it from the block structure.
- Python strings may hold lone surrogate code points; Dafny characters cannot.
