# Datamosh toolkit: frame encoding, naming and drop handling

This project models the parts of the datamosh toolkit that do the computing.
The toolkit has two windows. The Data→Video window (`app.py`) turns any file
into a lossless-layout MP4: each byte becomes one colour channel of one pixel.
The Tomato window (`glitch_hub/tomato_gui.py`) collects settings for the AVI
glitch engine and hands them to it as a command line. The parts modelled are:

- `FrameEncoder` (`frame_encoder.dfy`): `bytes_to_frames`. It cuts the payload
  into frames of `width * height * 3` bytes, pads the last frame with zeros,
  and returns one all-zero frame for an empty payload. The row-major RGB pixel
  layout is modelled as well. It is proved that reading the frames back gives
  the payload followed by zeros, less than one frame of them for a non-empty
  payload; that the encoding is unique; and that every pixel channel maps to
  exactly one payload offset.
- `DataToVideo` (`data_to_video.dfy`):
  - the aspect-ratio and base-width tables;
  - the height `max(1, round(base * hr / wr))`, with Python's round-half-even;
  - the estimated-duration line;
  - the `<stem>_datamosh.mp4` output name;
  - the Data→Video window's rule for picking a path out of a drag-and-drop string.
- `DropParser` (`drop_parser.dfy`): the brace-aware drop tokenizer
  `_parse_drop_paths`. It is written as a loop proved against a state-machine
  specification, and lemmas cover spaces, braced spans, unclosed braces and
  discarded prefixes.
- `TomatoGui` (`tomato_gui.dfy`):
  - `_compute_output_path`, whose name is proved injective in the settings;
  - the 1..12 slider clamps;
  - the engine command line of `_build_args`, proved to read back flag by flag;
  - the `TomatoApp` class, which holds the window's settings and selection.
- `DropFinding` (`drop_finding.dfy`): the Data→Video drop rule loses the tail of
  a braced path that contains a space. This module records that, and gives the
  intended rule.
- `Strings`, `Paths`, `Results`: Python's `str.strip`, `str.split`, `str(int)`,
  and the `PurePath` operations the core uses (`name`, `suffix`, `stem`,
  `with_name`, `with_suffix("")`), on POSIX path strings.

Height for 9:16 at base 512: 512·16/9 = 910.2, which `round` takes to 910
(`DataToVideo.Resolution9x16At512`).

## Model

| member | source | states |
|---|---|---|
| FrameEncoder.Zeros | app.py:44-45 | `bytes(n)`: exactly n bytes, all zero |
| FrameEncoder.FrameCount | app.py:42-50 | the number of frames: at least one, enough to hold the payload, and one fewer would not hold it |
| FrameEncoder.FrameCountUnique | app.py:42-50 | those three facts determine the frame count |
| FrameEncoder.Padded | app.py:43-45 | the payload read out to length n, with zeros past its end |
| FrameEncoder.PaddedPastEnd | app.py:43-45 | past the payload's end, the padded stream is the payload followed by zeros |
| FrameEncoder.AppendChunk | app.py:42-47 | the slice at `offset`, padded, is exactly one frame long, and it extends the padded stream by one frame |
| FrameEncoder.BytesToFrames | app.py:28-52 | fails exactly when the frame size is zero (`range` with step 0); otherwise returns the fewest frames, at least one, all of equal size, whose concatenation is the zero-padded payload |
| FrameEncoder.RoundTrip | app.py:29-34 | the concatenated frames are the payload then only zeros, and fewer than one frame of zeros for a non-empty payload |
| FrameEncoder.FrameBytes | app.py:42-47 | byte i of frame k is payload byte k·frameSize+i, or zero past the end |
| FrameEncoder.EncodingDeterministic | app.py:32-34 | two encodings of one payload at one frame size are equal |
| FrameEncoder.EmptyPayload | app.py:49-50 | an empty payload gives exactly one frame, all zero |
| FrameEncoder.Leftover | app.py:43-45 | the bytes that do not fill a whole frame: fewer than a frame, and no more than the payload |
| FrameEncoder.LastFrameStart | app.py:42-47 | where the last frame starts, in terms of the leftover bytes |
| FrameEncoder.LastFramePadding | app.py:44-45 | an unfilled last frame holds the payload's last leftover bytes, then zeros |
| FrameEncoder.LastFrameTail | app.py:43-45 | a last frame starting r bytes before the end holds those r bytes, then zeros |
| FrameEncoder.ExactMultipleNoPadding | app.py:44 | a payload that fills whole frames gets no padding: the last frame is its last frameSize bytes |
| FrameEncoder.PixelInFrame | app.py:46 | every (row, col, channel) of a height×width×3 image lies inside the frame |
| FrameEncoder.DecodeOffset | app.py:46 | a pixel's offset gives back its row, column and channel by division and remainder |
| FrameEncoder.EncodeOffset | app.py:46 | every offset is the offset of the coordinates it decodes to |
| FrameEncoder.PixelCoordinates | app.py:46 | offset and coordinates correspond one to one (both directions) |
| FrameEncoder.PixelLayout | app.py:29-34 | channel ch of pixel (row, col) of frame k is payload byte k·frameSize + row·width·3 + col·3 + ch, or zero past the end |
| FrameEncoder.Pixel | app.py:46 | numpy's `frame[row, col, ch]` after `reshape((height, width, 3))`: flat index (row·width + col)·3 + ch, inside the frame |
| FrameEncoder.PixelChannels | app.py:29-34 | a pixel's red, green and blue channels are three consecutive payload bytes, in that order |
| DataToVideo.RatioOf | app.py:178 | `ASPECT_RATIOS.get(aspect, (1, 1))`: both ratios positive, the table's entry or square |
| DataToVideo.RoundHalfEven | app.py:180 | Python's `round(n/d)`: within one half of n/d, and even at a tie |
| DataToVideo.NearestNeighbours | app.py:180 | two distinct nearest integers are adjacent, and n/d is a tie for both |
| DataToVideo.RoundHalfEvenUnique | app.py:180 | any integer that is nearest and obeys the tie rule is the rounded value |
| DataToVideo.CurrentResolution | app.py:176-181 | width is the base; height is at least 1; height is 1 exactly when base·hr/wr < 3/2; otherwise height is the half-even rounded base·hr/wr |
| DataToVideo.Resolution16x9At512 | app.py:176-181 | 16:9 at 512 is 512×288 |
| DataToVideo.Resolution1x1At256 | app.py:176-181 | 1:1 at 256 is 256×256 |
| DataToVideo.Resolution9x16At512 | app.py:176-181 | 9:16 at 512 is 512×910 |
| DataToVideo.Resolution4x3At1024 | app.py:176-181 | 4:3 at 1024 is 1024×768 |
| DataToVideo.UnknownAspectIsSquare | app.py:178-180 | an aspect name missing from the table gives a square frame |
| DataToVideo.MenuFramesNonEmpty | app.py:25 | every base width on the menu gives a non-empty frame |
| DataToVideo.DurationHint | app.py:189-201 | no estimate exactly when there is no file; a division by zero exactly when the base width is 0; otherwise the ceiling of size/frameSize, at least 1, with seconds = frames at 1 fps |
| DataToVideo.FrameSizeZero | app.py:195-197 | a frame at least one row high has no bytes exactly when its width is 0, the one case where the division raises |
| DataToVideo.HintMatchesEncoder | app.py:195-198 | the estimated frame count is the number of frames `bytes_to_frames` produces |
| DataToVideo.VideoNameValid | app.py:65 | a slash-free stem plus `_datamosh.mp4` is a name `with_name` accepts |
| DataToVideo.ConvertOutputPath | app.py:64-65 | succeeds exactly when the input has a name; same directory; name is the stem plus `_datamosh.mp4` |
| DataToVideo.ConvertOutputPathIs | app.py:64-65 | the output is directory + stem + `_datamosh.mp4` |
| DataToVideo.ConvertDotted | app.py:64-65 | `dir/stem.ext` gives `dir/stem_datamosh.mp4`; only the last suffix goes |
| DataToVideo.ConvertDotFile | app.py:64-65 | `dir/.rest` keeps its leading dot: `dir/.rest_datamosh.mp4` |
| DataToVideo.FirstDropPath | app.py:161-166 | no path exactly when the brace-stripped text is empty or starts with a space; otherwise the longest space-free prefix of that text |
| DropParser.RunPreservesClean | glitch_hub/tomato_gui.py:30-44 | the tokenizer never records an empty path or a path holding a brace |
| DropParser.Step | glitch_hub/tomato_gui.py:31-44 | one character: at most one path is added, and it is the non-empty path being read; a brace empties the path being read and sets whether a brace is open; any other character outside the space-outside-braces case is appended |
| DropParser.Run | glitch_hub/tomato_gui.py:30-44 | reading a string never loses a path already found |
| DropParser.Tokens | glitch_hub/tomato_gui.py:25-49 | the loop and the final flush; every path returned is non-empty and brace-free |
| DropParser.DropTokens | glitch_hub/tomato_gui.py:25-49 | the paths of the text with white space stripped from both ends, each non-empty and brace-free |
| DropParser.DropTokensOfStripped | glitch_hub/tomato_gui.py:227-228 | stripping the text before parsing, as `_on_drop` does, changes nothing |
| DropParser.ParseDropPaths | glitch_hub/tomato_gui.py:25-49 | the loop returns exactly the tokens of the stripped input, each non-empty and brace-free |
| DropParser.RunAppend | glitch_hub/tomato_gui.py:30 | reading a + b is reading a, then b |
| DropParser.RunKeepsPaths | glitch_hub/tomato_gui.py:36-41 | paths already found stay in front of everything found later |
| DropParser.RunAccumulates | glitch_hub/tomato_gui.py:39-44 | inside braces, or with no space, brace-free text joins the current path whole |
| DropParser.RunOutsideBraces | glitch_hub/tomato_gui.py:39-47 | outside braces, brace-free text yields its space-separated fields with empty ones dropped |
| DropParser.TokensWithoutBraces | glitch_hub/tomato_gui.py:25-49 | brace-free input parses as `[p for p in s.split(" ") if p]` |
| DropParser.TokensBraced | glitch_hub/tomato_gui.py:31-38 | a braced span is one path, spaces included, and parsing resumes after it from scratch |
| DropParser.OpenBraceDiscards | glitch_hub/tomato_gui.py:31-33 | `{` discards the path being read and keeps the paths already found |
| DropParser.UnclosedSpan | glitch_hub/tomato_gui.py:46-47 | an unclosed brace still yields its text as a path |
| DropParser.BracedThenPlain | glitch_hub/tomato_gui.py:31-42 | `{a b} c` gives `a b` and `c` |
| DropParser.PlainThenBraced | glitch_hub/tomato_gui.py:31-44 | `ab{cd}` gives just `cd` |
| TomatoGui.ClampPercent | glitch_hub/tomato_gui.py:59-63 | the percentage clamped into [0, 100], unchanged inside it |
| TomatoGui.ClampPercentIdempotentMonotone | glitch_hub/tomato_gui.py:59-63 | clamping twice is clamping once, and clamping keeps order |
| TomatoGui.OutputName | glitch_hub/tomato_gui.py:64 | the f-string: the stem, `-`, the mode, and an ending of `.avi` |
| TomatoGui.NameParts | glitch_hub/tomato_gui.py:64 | where the stem, the mode and `.avi` sit in a name built from them |
| TomatoGui.SettingsTail | glitch_hub/tomato_gui.py:64 | the part after `-f` ends in `.avi` |
| TomatoGui.MarkerSplit | glitch_hub/tomato_gui.py:64 | a marker that occurs in neither prefix splits two equal strings at the same place |
| TomatoGui.SettingsTailInjective | glitch_hub/tomato_gui.py:64 | `-f{c}-l{l}-a{p}.avi` determines c, l and p |
| TomatoGui.OutputNameInjective | glitch_hub/tomato_gui.py:64 | for one input and mode, different settings give different output names |
| TomatoGui.OutputNameValid | glitch_hub/tomato_gui.py:64-65 | the built name is one `with_name` accepts when the stem and mode hold no slash |
| TomatoGui.TailHasNoSlash | glitch_hub/tomato_gui.py:64 | the settings part of the name holds no slash |
| TomatoGui.ComputeOutputPath | glitch_hub/tomato_gui.py:52-65 | succeeds exactly when the input has a name and the mode no slash; same directory; name is stem-mode-fC-lL-aP.avi with P clamped |
| TomatoGui.OutputPercentInRange | glitch_hub/tomato_gui.py:59-64 | the percentage in the name is in [0, 100] |
| TomatoGui.MenuModesGiveOutput | glitch_hub/tomato_gui.py:16 | every mode on the menu gives an output path for any input that has a name |
| TomatoGui.Trunc | glitch_hub/tomato_gui.py:331 | `int(float)`: truncation toward zero |
| TomatoGui.TruncMonotone | glitch_hub/tomato_gui.py:331 | truncation keeps order |
| TomatoGui.ClampSlider | glitch_hub/tomato_gui.py:330-344 | a slider value becomes an integer in [1, 12]; values already in range truncate unchanged; values outside go to the nearer end |
| TomatoGui.ClampSliderKeeps | glitch_hub/tomato_gui.py:330-344 | an integer in [1, 12] is left as it is |
| TomatoGui.ClampSliderIdempotent | glitch_hub/tomato_gui.py:330-344 | clamping a clamped value changes nothing |
| TomatoGui.ClampSliderMonotone | glitch_hub/tomato_gui.py:330-344 | the clamp keeps order |
| TomatoGui.FlagValuePair | glitch_hub/tomato_gui.py:268-286 | a leading flag/value pair answers for its flag and defers to the rest for any other |
| TomatoGui.CliArgs | glitch_hub/tomato_gui.py:268-286 | the list: 12 arguments, or 14 with audio, starting `-i <path>` and with `-ff` second to last |
| TomatoGui.ArgsLayout | glitch_hub/tomato_gui.py:267-286 | 12 arguments, or 14 with audio: the ten settings in order, `-a 1` with audio, and `-ff` with 1 or 0 last |
| TomatoGui.ArgsRoundTrip | glitch_hub/tomato_gui.py:267-286 | reading the command line as flag/value pairs returns each setting under its flag, `-a` only with audio, and no other flag |
| TomatoGui.FlagsAfterSettings | glitch_hub/tomato_gui.py:280-285 | the optional `-a 1` then the `-ff` pair read back correctly |
| TomatoGui.IsAviSuffix | glitch_hub/tomato_gui.py:207 | `suffix.lower() == ".avi"` holds exactly for a dot followed by a, v, i in either case |
| TomatoGui.TomatoApp.constructor | glitch_hub/tomato_gui.py:85-90 | the initial settings: mode void, 4 and 4, aggressiveness 0.50, no audio, first frame on, nothing selected |
| TomatoGui.TomatoApp.OnCountChange | glitch_hub/tomato_gui.py:330-336 | the frame count becomes the clamped slider value, in [1, 12]; nothing else changes |
| TomatoGui.TomatoApp.OnLengthChange | glitch_hub/tomato_gui.py:338-344 | the length becomes the clamped slider value, in [1, 12]; nothing else changes |
| TomatoGui.TomatoApp.DefaultOutputPath | glitch_hub/tomato_gui.py:258-265 | the output path for the current settings, in the input's directory |
| TomatoGui.TomatoApp.BuildArgs | glitch_hub/tomato_gui.py:267-286 | the command line for the current settings, with the layout and read-back of `ArgsLayout` and `ArgsRoundTrip`; while both sliders are in range, the `-c` and `-n` values are numerals of 1 to 12 |
| TomatoGui.TomatoApp.SetSelectedPath | glitch_hub/tomato_gui.py:206-216 | a path whose suffix is `.avi` in any case is selected; anything else clears the selection |
| TomatoGui.TomatoApp.OnDrop | glitch_hub/tomato_gui.py:226-230 | with no parsed path nothing changes; otherwise the first parsed path goes through the `.avi` check |
| DropFinding.AsWrittenCutsBracedPath | app.py:161-166 | as written: dropping `{a b}` selects only `a` |
| DropFinding.AsWrittenExample | app.py:161-166 | `{/x/my file.bin}` selects `/x/my` |
| DropFinding.FirstDroppedPath | app.py:162 | the intended choice: the first path the Tomato parser finds after stripping white space, non-empty and brace-free, none only when there is no path |
| DropFinding.FixedKeepsBracedPath | app.py:162 | under the corrected rule a braced path is kept whole, spaces included |
| DropFinding.FixedAgreesWithoutBraces | app.py:164-166 | without braces, and with no white space at either end, the corrected rule gives the same answer as the rule as written |
| Strings.TrimStart | app.py:164 | removes exactly the longest leading run of stripped characters |
| Strings.TrimEnd | app.py:164 | removes exactly the longest trailing run of stripped characters |
| Strings.Trim | app.py:164 | `str.strip("{}")`: no stripped character at either end, and a string with kept characters at both ends is unchanged |
| Strings.Strip | glitch_hub/tomato_gui.py:30 | `str.strip()`: no white space at either end, and text without white space at its ends is unchanged |
| Strings.TrimEndAppend | glitch_hub/tomato_gui.py:30 | trailing white space is removed only after the last kept character |
| Strings.TrimIdempotent | glitch_hub/tomato_gui.py:227-230 | stripping twice is stripping once |
| Strings.Split | app.py:165 | `str.split(sep)`: at least one piece (its other properties are `SplitJoin`) |
| Strings.SplitJoin | app.py:165 | no piece holds the separator, and joining the pieces gives the text back |
| Strings.SplitFirstPiece | app.py:165 | the first piece is the longest separator-free prefix |
| Strings.SplitAfterPiece | app.py:165 | a separator-free piece, then a separator, splits off as the first piece |
| Strings.SplitWithoutSep | app.py:165 | text without the separator is a single piece |
| Strings.NonEmpty | glitch_hub/tomato_gui.py:36-47 | the non-empty pieces, no more of them than there were pieces |
| Strings.NonEmptyAppend | glitch_hub/tomato_gui.py:36-47 | filtering distributes over concatenation |
| Strings.DigitChar | glitch_hub/tomato_gui.py:64 | a digit character with the given value |
| Strings.NatToDecimal | glitch_hub/tomato_gui.py:64 | `str(n)`: digits only, denoting n, with no leading zero |
| Strings.IntToDecimal | glitch_hub/tomato_gui.py:274-276 | `str(i)`: a minus sign exactly for negatives, then the digits of the absolute value |
| Strings.IntToDecimalInjective | glitch_hub/tomato_gui.py:64 | different integers print differently |
| Paths.LastIndexOf | app.py:64 | `rfind`: the last occurrence, or -1 |
| Paths.Dir | app.py:65 | the directory part: a prefix of the path that is empty or ends in `/`, with no `/` after it |
| Paths.Name | app.py:65 | the final component, without a slash |
| Paths.DirName | app.py:65 | a path is its directory part followed by its name |
| Paths.DirNameOfJoin | app.py:65 | a directory part and a name put together come apart again |
| Paths.Suffix | app.py:64 | `.suffix`: an ending of the name that is empty or a dot, then at least one character with no further dot, and never the whole name |
| Paths.Stem | app.py:64 | `.stem`: a prefix of the name, non-empty when the name is |
| Paths.StemSuffix | app.py:64 | the name is the stem followed by the suffix; a suffix is a dot and at least one more character, with no further dot |
| Paths.LastIndexOfBefore | app.py:64 | the last `c` is the one before the `c`-free tail |
| Paths.StemOfDotted | app.py:64 | `stem.ext` has stem `stem` and suffix `.ext` |
| Paths.StemOfDotFile | app.py:64 | `.rest` has no suffix |
| Paths.WithName | glitch_hub/tomato_gui.py:65 | `with_name`: fails on an empty name or a bad new name; otherwise same directory, new name |
| Paths.WithoutSuffix | app.py:64 | `with_suffix("")`: fails on an empty name; otherwise same directory, name cut to its stem |

## Left out

- Tk, tkinterdnd2, message boxes, labels and the window layout: these are UI. The model keeps the values the callbacks compute, and `TomatoApp` keeps the Tk variables as fields.
- Writing the video (`ImageSequenceClip`, `write_videofile`), reading the file, and `exists()` / `stat()`: these are I/O. The payload and the file size are parameters, and a missing file is `None`.
- `numpy`'s `reshape`: a frame stays a flat byte sequence, and `FrameEncoder.Pixel` gives the `[row, col, ch]` view.
- The `fps` parameter of `convert_file_to_video` and any pixel scaling: only the default of 1 fps is modelled.
- Floating point:
  - `_current_resolution` divides the ratios as floats. The model rounds the exact rational base·hr/wr. Ties do arise off the menu (4:3 at base 2 is exactly 1.5). The float and exact results still agree for every base below 2^48: 3/4 and 9/16 are exact binary fractions, 1/1 is exact, and base·16/9 is never half-way between two integers.
  - `math.ceil(file_size / frame_size)` is taken exactly. For files past 2^53 bytes the float quotient can differ.
- `_on_kill_change`, the 0.30–1.00 aggressiveness clamp, is not modelled. So are `f"{agg:.2f}"` and `round(agg * 100)`. `TomatoGui.Aggressiveness` holds the text and the percentage those produce as given values.
- TomatoGui.TomatoApp.OnCountChange and TomatoGui.TomatoApp.OnLengthChange: the slider's string argument is taken as an already-parsed real. `float(value)` on a malformed string is not modelled.
- TomatoGui.TomatoApp.SetSelectedPath:
  - the "Input: …" / "No file selected" label text is modelled as an `Option` of the path;
  - the output-path label and `_update_run_state` are left out.
- TomatoGui.IsAviSuffix: `str.lower` is modelled on A to Z only. For the comparison with `.avi` that is enough: no other character lowers to a lone `a`, `v` or `i` (`İ` lowers to two characters).
- These methods are not modelled: `_refresh_output_hint`, `_update_run_state`, `_run`, `_on_export_to`, `_on_add_file`, `_build_ui`, `_set_slider_defaults`. They are file dialogs, button state, or calls into the engine (`tomato.main`), none of which is part of this model.
- Paths are POSIX strings that are already normalised. `PurePath`'s collapsing of repeated or trailing slashes and of `.` components is not modelled.
- DataToVideo.CurrentResolution: a negative base width cannot be expressed (the menu only offers positive ones). Base 0 is modelled; its division by zero shows up in `DurationHint`.
- Paths.Suffix: uses the rule of Python 3.11 and earlier, where a trailing dot gives no suffix.
- `glitch_hub/gui.py` and `glitch_hub/hub.py` (the launcher windows) are not part of this model.

## Findings

| source | as written | input that shows it | evidently intended | confidence | as-written member | corrected member |
|---|---|---|---|---|---|---|
| app.py:161-166 | strips braces from the ends of the drop text, then keeps what comes before its first space | dropping `/x/my file.bin`: Tk delivers `{/x/my file.bin}`, and the window selects `/x/my` | select the first dropped path whole, as the comment on line 162 says and as the Tomato window's tokenizer does | not executed | DropFinding.AsWrittenCutsBracedPath | DropFinding.FirstDroppedPath |
