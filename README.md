# Pixtrono frame extraction in Dafny

This is a model of the frame-extraction core of Pixtrono's `app.py`. A user
posts a video URL and a field of timestamps. The handler then works in three
steps.

1. It splits the field into tokens and parses each one with
   `parse_time_str` (`[[h:]m:]s`).
2. For each time, in order, it opens the video, seeks to the frame showing at
   that time, and reads it. If that read fails, it tries up to four earlier
   frames.
3. It saves every frame it got as `frame_<milliseconds>ms.jpg` and records the
   path in `saved_images`.

The project has seven files:

| file | module | models |
|---|---|---|
| `wrappers.dfy` | `Wrappers` | `Option` and `Result` |
| `decimal.dfy` | `Decimal` | digit strings; Python's `str()` of an int; `int()` of a float, which truncates toward zero |
| `text.dfy` | `Text` | `str.strip()`, `str.split(c)`, `str.join` |
| `time_parse.dfy` | `TimeParse` | `float()` on one piece; `parse_time_str` |
| `batch.dfy` | `Batch` | `re.split(r"[,\\s]+", …)`, the blank-token filter, and the comprehension that parses every token |
| `frame_source.dfy` | `FrameSource` | the seek arithmetic; the capture as a class with a cursor; the retry loop; `read_frame_at` |
| `extraction.dfy` | `Extraction` | the file-name rule; the `saved_images` loop; the checks in `process` that come before it |

Modelling choices:

- Times, frame rates and frame counts are exact reals, so IEEE-754 rounding is
  not modelled.
- `int()` truncates toward zero, which matters for negative times.
- A video is a value. It records:
  - whether it opened;
  - the reported rate and frame count;
  - a map from each position that decodes to the frame it decodes to.
- Frames are an opaque type.
- Every image goes to the same directory, so a path is fixed by the time's
  whole milliseconds (`Extraction.ImagePath`). `Extraction.FileName` spells the
  name out, and `Extraction.SameNameIff` shows that two paths are equal exactly
  when their file names are.
- `str.strip()` and `float()` skip different white space. `strip()` removes
  every `str.isspace()` character; `float()` skips the same characters except
  the information separators U+001C–U+001F, which it refuses
  (`TimeParse.IsFloatSpace`).
- The directory of saved images is a map from path to frame. A path written
  twice holds the second frame.

Where the code and its own comment disagree, the model follows the code.

- Line 135 says the times are "separated by comma/space/newline".
- The pattern on line 136 is the raw string `r"[,\\s]+"`. It reaches the regular-expression engine as a class of three characters: a comma, a backslash and the letter `s`.
- So white space does not separate times.
  - `"1:00, 2:00"` still gives two times, because `x.strip()` on line 137 removes the space that the split leaves at the start of the second token (`Batch.ExampleCommaSpace`).
  - `"1:30s2:00"` also gives two times (`Batch.ExampleLetterS`).
  - `"1:00 2:00"` is one token, and that token is refused (`Batch.ExampleSpaceOnly`).

## Model

| member | source | states |
|---|---|---|
| TimeParse.ParseNumber | app.py:41 | `float(p)` on decimal literals; `ParseNumberIsLiteral` and `ParseNumberOfLiteral` prove that it accepts exactly the signed literals padded with the white space `float()` skips, which excludes U+001C–U+001F, with the value they denote |
| TimeParse.ParseNumberOfLiteral | app.py:41 | `float()` of white space it skips, a sign, whole digits, an optional point and fraction digits, and such white space is the signed sum of the whole part and the fraction |
| TimeParse.ParseNumberIsLiteral | app.py:41 | `float()` accepts a piece exactly when it splits that way, with padding free of U+001C–U+001F: the converse, so the two pin down `float()` on this grammar |
| TimeParse.ParseLiteralText | app.py:41 | a literal without padding reads as the value it denotes |
| TimeParse.ParseUnsignedOfLiteral | app.py:41 | digits, an optional point and digits read as the whole part plus the fraction |
| TimeParse.UnsignedIsLiteral | app.py:41 | an accepted unsigned literal is its digits before the first point, the point if any, and digits after it |
| TimeParse.SignedIsLiteral | app.py:41 | an accepted stripped piece is an optional sign followed by such an unsigned literal |
| TimeParse.FractionForm | app.py:41 | `a.b` reads as `a + b/10` |
| TimeParse.NegativeFractionForm | app.py:41 | ` -.b` reads as `-(b/10)`: leading white space, a sign and no whole part are accepted |
| TimeParse.ExampleFractions | app.py:41 | `float("1.5")` is 1.5 and `float(" -.5")` is -0.5 |
| TimeParse.ParsePiece | app.py:41 | one step of the comprehension: the value of `float(p)`, or a number error naming `p` when `float()` raises |
| TimeParse.ParseUnsignedShape | app.py:41 | an accepted unsigned literal is non-negative, non-empty and holds no `:` |
| TimeParse.ParseUnsignedDigits | app.py:41 | a non-empty digit string reads as its decimal value |
| TimeParse.ParseSignedShape | app.py:41 | an accepted signed literal is non-empty and holds no `:` |
| TimeParse.ParseNumberShape | app.py:41 | a piece `float()` accepts is never blank and never holds `:` |
| TimeParse.ParseNumberOfDigits | app.py:41 | `float()` of a digit string is its decimal value |
| TimeParse.ParseNumberOfNat | app.py:41 | `float(str(n))` gives back `n` for every natural `n` |
| TimeParse.ParseNumberPadded | app.py:41 | `float()` ignores white space around the literal: every `str.isspace()` character except U+001C–U+001F |
| TimeParse.InfoSeparatorRefused | app.py:41 | `float()` refuses a piece that starts with one of U+001C–U+001F, although `str.isspace()` holds of them |
| TimeParse.LiteralNoInfoSeparator | app.py:41 | a literal holds none of U+001C–U+001F |
| TimeParse.InfoSeparatorForm | app.py:41 | `m:<U+001C–U+001F>ab` is refused, naming its second piece |
| TimeParse.ExampleInfoSeparator | app.py:41 | `parse_time_str("1:\x1c30")` raises, naming `"\x1c30"` |
| TimeParse.TryMap | app.py:41 | the comprehension `[float(p) for p in parts]`: it succeeds exactly when every element does, with one value per element in order; otherwise it reports the first element that fails, and every element before that one succeeded |
| TimeParse.ParseTime | app.py:40-51 | `parse_time_str` itself: `ParseTimeAccepts` says when it succeeds, `ParseTimeOfParts` what it returns, and `ParseTimeCountError` and `ParseTimeNumberError` which error it raises |
| TimeParse.Combine | app.py:42-49 | `s`, `m*60+s` or `h*3600+m*60+s` for one, two or three components; `ParseTimeOfParts` ties it to the parse |
| TimeParse.ParseTimeAccepts | app.py:40-51 | `parse_time_str` succeeds exactly when every `:`-piece is a number and there are at most three pieces |
| TimeParse.ParseTimeCountError | app.py:41-51 | the too-many-components error is raised only after every piece parsed and when there are more than three pieces; it names the whole token, as the message on line 51 does |
| TimeParse.ParseTimeNumberError | app.py:41 | a number error names the first piece `float()` rejects |
| TimeParse.TryMapFirstBad | app.py:41 | a failed comprehension fails on its first bad piece, with a number error |
| TimeParse.TryMapPieces | app.py:41 | when every piece parses, the comprehension returns each piece's value at its index |
| TimeParse.TryMapValues | app.py:41 | the comprehension returns exactly the given values when each piece parses to its value |
| TimeParse.ParseTimeOfParts | app.py:40-49 | one, two or three pieces that parse to `vs`, joined with `:`, give `s`, `m*60+s` or `h*3600+m*60+s` |
| TimeParse.ParseTimeTooMany | app.py:50-51 | more than three pieces that all parse raise the count error, naming the token |
| TimeParse.ParseTimeFirstBadPiece | app.py:41 | the first piece `float()` rejects aborts the parse with that piece, whatever follows and however many pieces there are |
| TimeParse.ParseTimeTwo | app.py:44-46 | two pieces give `m*60+s` |
| TimeParse.ParseTimeThree | app.py:47-49 | three pieces give `h*3600+m*60+s` |
| TimeParse.ParseTimeFour | app.py:50-51 | four pieces that parse raise the count error, naming the token |
| TimeParse.ParseTimeBadSecond | app.py:41 | a bad second piece is reported even when the first parses |
| TimeParse.MinutesForm | app.py:44-46 | `m:ab` is `m` minutes and `ab` seconds |
| TimeParse.HoursForm | app.py:47-49 | `h:ab:cd` is `h` hours, `ab` minutes and `cd` seconds |
| TimeParse.NegativeMinutesForm | app.py:41-46 | in `-m:ab` the sign belongs to the minutes only: `-m*60+ab` |
| TimeParse.FourPartsForm | app.py:50-51 | four one-digit components raise the count error |
| TimeParse.BadSecondForm | app.py:41 | a bad second component is reported before the count is checked |
| TimeParse.EmptyMiddleForm | app.py:41 | the empty piece in `a::b` is refused by `float()` |
| TimeParse.ExampleMinutes | app.py:44-46 | `"1:30"` is 90 seconds |
| TimeParse.ExampleHours | app.py:47-49 | `"1:01:30"` is 3690 seconds |
| TimeParse.ExampleNegative | app.py:41-46 | `"-1:30"` is -30 seconds |
| TimeParse.ParseTimeErrorExamples | app.py:41-51 | `"1:2:3:4"` raises the count error naming `1:2:3:4`; `"1:x:3:4"` names `x`; `"1::2"` names the empty piece |
| Text.Strip | app.py:137 | `str.strip()`: `StripSpec`, `StripPadded`, `StripKeepsChar`, `StripAddsNothing`, `StripStartPrefix` and `StripEndSuffix` together say that it removes the white space at both ends and nothing else |
| Text.StripStartPrefix | app.py:137 | `lstrip()` removes a prefix of white space and keeps the rest as it was |
| Text.StripEndSuffix | app.py:137 | `rstrip()` removes a suffix of white space and keeps the rest as it was |
| Text.StripSpec | app.py:137 | `strip()` leaves nothing exactly when the string is all white space, and otherwise leaves no white space at either end |
| Text.StripPadded | app.py:137 | white space around a string does not change what `strip()` leaves |
| Text.StripKeepsChar | app.py:137 | `strip()` keeps every character that is not white space |
| Text.StripAddsNothing | app.py:137 | every character `strip()` leaves was in the string |
| Text.SplitOn | app.py:41 | `str.split(":")`: at least one piece, none holding `:`, and joining them with `:` gives the string back |
| Text.SplitOnJoin | app.py:41 | splitting pieces free of `:` after joining them gives the pieces back |
| Batch.SepRun | app.py:136 | the length of the separator run a string starts with: all separators, followed by a non-separator or the end |
| Batch.SplitBatch | app.py:136 | `re.split`: at least one piece; no piece holds a separator; only the first and last pieces can be empty; the first is non-empty when the string starts with a non-separator |
| Batch.GlueSplitBatch | app.py:136 | every string is its pieces glued back with the separator runs between them |
| Batch.SplitBatchGlue | app.py:136 | splitting undoes glueing: separator-free pieces (non-empty inside) around non-empty separator runs come back exactly |
| Batch.KeepTokens | app.py:137 | the filter keeps at most one token per piece |
| Batch.KeepTokensConcat | app.py:137 | the filter works piece by piece and keeps their order |
| Batch.KeepTokensBlank | app.py:137 | pieces that are all white space leave no token |
| Batch.KeepTokensNonBlank | app.py:137 | each non-blank piece gives one token, its `strip()`, at its own index |
| Batch.Tokens | app.py:136-137 | the stripped, non-blank pieces of the split, in order; `TokensShape` and `TokensOfGlue` give their shape and content |
| Batch.TokensShape | app.py:136-137 | every token is non-empty, has no white space at either end, and holds no separator |
| Batch.TokensOfGlue | app.py:136-137 | non-blank separator-free pieces glued with separator runs come back as their stripped selves, one token each, in order |
| Batch.TokensTwo | app.py:136-137 | two non-blank pieces around one separator run are two tokens |
| Batch.TokensOne | app.py:136-137 | a non-blank string without separators is one token |
| Batch.ParseBatch | app.py:136-140 | `custom_times`: it succeeds exactly when every token parses, with one time per token in token order; otherwise the error is that of the first token that fails |
| Batch.ParseBatchTwo | app.py:137 | two tokens that parse give the two times, in order |
| Batch.ParseBatchOneBad | app.py:137-140 | one token that fails refuses the batch with its error |
| Batch.ParseInnerSpace | app.py:41 | `float()` refuses two digits, a space and a digit |
| Batch.CommaSpaceTokens | app.py:136-137 | a token, a comma, a space and a token are two tokens |
| Batch.LetterSTokens | app.py:136 | the letter `s` separates two tokens |
| Batch.CommaSpaceForm | app.py:136-137 | `m:ab, n:cd` parses as two times |
| Batch.LetterSForm | app.py:136-137 | `m:ab` and `n:cd` joined by the letter `s` parse as two times |
| Batch.SpacedTimeForm | app.py:41 | `m:ab n:cd` as one timestamp names its bad middle piece `ab n` |
| Batch.SpaceOnlyForm | app.py:136-140 | a space alone does not separate times: `m:ab n:cd` is one token, and the batch is refused |
| Batch.ExampleCommaSpace | app.py:136-137 | `"1:00, 2:00"` gives 60 and 120 seconds |
| Batch.ExampleLetterS | app.py:136-137 | `"1:30s2:00"` gives 90 and 120 seconds |
| Batch.ExampleSpaceOnly | app.py:136-140 | `"1:00 2:00"` is refused, naming the piece `00 2` |
| FrameSource.TotalFrames | app.py:59 | `int()` of the reported frame count, truncated toward zero; `FrameIndex` and the seek lemmas use it |
| FrameSource.Duration | app.py:60 | the frame count over the rate; `SeekInside` and `SeekPastEnd` use that `duration * fps` is the frame count |
| FrameSource.Fps | app.py:58 | the rate used is the reported one when that is not 0, and 30 when it is; it is never 0 |
| FrameSource.EffectiveTime | app.py:60-62 | a time past a positive duration moves into `[0, duration)`: to `duration - 0.1` when the video lasts at least 0.1 s, and to 0 when it is shorter; any other time is kept |
| FrameSource.FrameIndex | app.py:63 | the index is at least 0 and at most `total - 1` when there are frames, and 0 when there are none; inside the range it is the truncated product of the time and the rate |
| FrameSource.SeekInside | app.py:58-63 | for a positive rate, a time inside the video is sought at the frame showing then: `idx <= t*fps < idx+1` |
| FrameSource.SeekPastEnd | app.py:58-63 | for a positive rate, a time past the end of a video at least 0.1 s long is sought at the frame showing 0.1 s before the end |
| FrameSource.SeekPastShortEnd | app.py:61-63 | a time past the end of a video shorter than 0.1 s is sought at position 0 |
| FrameSource.SeekNegative | app.py:61-63 | a negative time is sought at position 0 |
| FrameSource.ExampleClamp | app.py:58-63 | at 30 fps over 300 frames: 15 s gives frame 297; 9.95 s gives 298; -2 s gives 0 |
| FrameSource.ExampleZeroFps | app.py:58-63 | a reported rate of 0 is read as 30: 90 frames last 3 s; 5 s gives frame 87 |
| FrameSource.ExampleNoFrames | app.py:63 | a video that reports no frames is always sought at position 0 |
| FrameSource.ReadSpec | app.py:54-73 | what `read_frame_at` returns: nothing when the capture did not open, otherwise the frame near `FrameIndex`; `ReadSpecFound` gives its meaning and `ReadFrameAt` is proved to return it |
| FrameSource.FirstHit | app.py:64-71 | the first position from `idx - k` down to `idx - 4` that decodes, with every later-tried position above it failing; or none, when all of them fail |
| FrameSource.Positions | app.py:64-69 | the positions `idx, idx-1, …` in the order they are tried |
| FrameSource.Attempts | app.py:55-71 | at most five reads are made |
| FrameSource.ReadSpecFound | app.py:54-73 | a frame is returned exactly when the capture opened and one of `idx … idx-4` decodes; it is the frame at the last position read, and every earlier read failed; when none decodes, five reads are made |
| FrameSource.ExampleRetry | app.py:64-71 | when `idx` and `idx-1` fail and `idx-2` decodes, three reads are made and the frame at `idx-2` is returned |
| FrameSource.ExampleGiveUp | app.py:64-73 | a frame six positions back is never reached: five reads fail and nothing is returned |
| FrameSource.VideoCapture.constructor | app.py:55 | a fresh capture is at position 0, not released, with nothing read |
| FrameSource.VideoCapture.IsOpened | app.py:56 | reports whether the video opened |
| FrameSource.VideoCapture.Seek | app.py:64 | moves the cursor and changes nothing else |
| FrameSource.VideoCapture.Read | app.py:65 | succeeds exactly when the cursor's position decodes; then it returns that frame and advances the cursor; it logs the position |
| FrameSource.VideoCapture.Release | app.py:72 | marks the capture released |
| FrameSource.ReadNear | app.py:63-71 | drives the capture through the seek, the read and the retry loop: returns the frame at the first of `idx … idx-4` that decodes, and reads exactly the positions up to it; the cursor ends just past the frame read, or at `idx-4` when every read failed |
| FrameSource.ReadFrameAt | app.py:54-73 | `read_frame_at` returns what `ReadSpec` says, reads the positions `Attempts` lists, and releases the capture exactly when it opened |
| Extraction.Ms | app.py:149 | `int(t*1000)`, truncated toward zero; `SameMillisecond` and the name examples show the truncation |
| Extraction.PathOf | app.py:149 | the path `frames_dir / f"frame_{int(t*1000)}ms.jpg"`, determined by its milliseconds; `SameNameIff` ties it to the file name |
| Extraction.FileName | app.py:149 | the name `frame_<ms>ms.jpg`; `NameRoundTrip` reads the milliseconds back out of it |
| Extraction.NameRoundTrip | app.py:149 | the millisecond value can be read back out of the file name |
| Extraction.SameNameIff | app.py:149 | two times share a file name exactly when they agree in whole milliseconds, truncated toward zero, which is exactly when they share a path |
| Extraction.SameMillisecond | app.py:149 | two non-negative times inside the same millisecond share a name |
| Extraction.ExampleName | app.py:149 | 1.5 s is saved as `frame_1500ms.jpg` |
| Extraction.ExampleNegativeName | app.py:149 | -1.5 s is saved as `frame_-1500ms.jpg`: the sign is kept |
| Extraction.ExampleTruncatedName | app.py:149 | -0.0005 s is saved as `frame_0ms.jpg`: the value is truncated toward zero |
| Extraction.Outcomes | app.py:143 | one read result per time; `OutcomesAt` gives each |
| Extraction.OutcomesAt | app.py:143 | the i-th result is what `read_frame_at` returns for the i-th time |
| Extraction.SavedTimes | app.py:142-145 | the times whose read returned a frame, in order: no more than the times, with `SavedTimesConcat` and `SavedStep` fixing order and count and `SavedTimesFrom` and `SavedTimesKeeps` membership |
| Extraction.Names | app.py:149 | one path per time |
| Extraction.NamesAt | app.py:149 | the i-th path is the path of the i-th time |
| Extraction.NamesConcat | app.py:149-151 | the paths of two lists in turn are the paths of each, in order |
| Extraction.SavedPaths | app.py:149-151 | `saved_images` after the loop: the paths of the kept times; `SavedTimesConcat` and `SavedStep` fix its order and count (one path per successful read, appended in turn), `NamesAt` gives each path, and `Extract` is proved to build it |
| Extraction.Written | app.py:149-151 | the images on disk after the loop; `WrittenKeys`, `WrittenLast` and `WrittenUntouched` give every path's image, and `Extract` is proved to leave it |
| Extraction.SavedTimesConcat | app.py:142-151 | running the loop over two lists in turn keeps the times each keeps, in order |
| Extraction.SavedTimesFrom | app.py:142-151 | every kept time is a time whose read returned a frame, and the k-th kept time is no earlier than the k-th time |
| Extraction.SavedTimesKeeps | app.py:142-151 | every time whose read returned a frame is kept |
| Extraction.SavedTimesAllRead | app.py:142-151 | when every read returns a frame, every time is kept, in order |
| Extraction.SavedPathsNoneRead | app.py:142-151 | when no read returns a frame, `saved_images` stays empty and nothing is written |
| Extraction.WrittenKeys | app.py:149-151 | the files on disk after the loop are the earlier ones plus the paths in `saved_images` |
| Extraction.DuplicateName | app.py:149-151 | two times in the same millisecond whose reads succeed append the same path twice, and the image kept is the second frame |
| Extraction.WrittenLast | app.py:149-150 | the image at a path is the frame of the last time whose read succeeded and whose path it is |
| Extraction.WrittenUntouched | app.py:149-150 | a path that no successful time maps to is on disk after the loop exactly when it was before, with the same image |
| Extraction.Extract | app.py:142-151 | the loop leaves `saved_images` as the paths of the times whose read returned a frame, in order, and each saved path holding the frame of the last time written to it |
| Extraction.SavedStep | app.py:143-151 | one pass appends the time's path exactly when its read returned a frame |
| Extraction.WrittenStep | app.py:149-150 | one pass writes the frame read, if any, under the time's path |
| Extraction.ProcessSpec | app.py:113-140 | a request goes ahead exactly when the stripped URL and timestamps are both non-blank and the batch parses; it is refused for missing input exactly when either is blank |
| Extraction.Process | app.py:113-151 | a refused request writes nothing and reports its error; an accepted one returns what the loop saves and leaves what it writes |
| Decimal.NatToString | app.py:149 | `str(n)`: non-empty digits without a leading zero, whose value is `n` |
| Decimal.IntToString | app.py:149 | `str(i)`: non-empty, starting with `-` exactly when `i` is negative |
| Decimal.IntToStringRoundTrip | app.py:149 | reading `str(i)` back gives `i` |
| Decimal.Trunc | app.py:63 | `int(x)`: the integer between 0 and `x` that is less than 1 away from `x` |

## Left out

- Flask routing, form access, flash messages and redirects are web glue. So are session ids and directories, manifests and the served files (app.py:106-204). The model starts from the two text fields and a video already at hand.
- `download_video` (app.py:26-37) is left out: it runs `yt_dlp` as a subprocess and globs the file system. So is the choice between a local path and a download (app.py:126-130).
- The internals of OpenCV decoding are reduced to two things. A video has a reported rate and frame count, and a map of the positions that decode. Whether a failed `read()` moves the cursor is not observable in `read_frame_at`, because every retry seeks first.
- `blur_score_laplacian` (app.py:76-77) is a foreign floating-point call whose result is discarded (app.py:147-148). It has no part in the model.
- `save_image` (app.py:80-82) converts colour and encodes a JPEG. It is modelled only as storing the frame under its path.
- `make_pdf` and `make_ppt` (app.py:85-103) are left out: they are thin wrappers over fpdf and python-pptx.
- Deleting the downloaded video (app.py:153-158) is left out: it is file-system clean-up.
- IEEE-754 rounding is not modelled. Times, rates, durations and `t*1000` are exact reals.
- TimeParse.ParseNumber: `float()` is modelled on decimal literals only: a sign, digits, and an optional point and fraction, with surrounding white space. Exponents, `inf`, `nan`, underscores and non-ASCII digits are not modelled. A token that uses them is refused here but accepted by Python.
- FrameSource.Video: a reported rate or count that is NaN or infinite is not modelled. Neither is a decoder that fails at random.
