# yapper transcription front end, modelled in Dafny

yapper is a small GTK tool. It runs `whisper-cpp-stream` on a chosen microphone and types each transcript line into the focused window with `wtype`. Most of `yapper.py` is GTK and subprocess glue. This project models its three pieces of sequential logic and proves properties about them:

- **The transcript filter and stream loop** (`transcribe_audio`). A raw line is kept only if something is left after `strip()` and none of `[`, `]`, `(`, `action`, `init:` occurs anywhere in the raw line. A kept line is forwarded as `line.strip()` to `type_text`. The loop ends at the first line read while the stop flag is set. `type_text` ignores text that is blank once stripped. (module `Transcript`, file `transcript.dfy`)
- **The capture-device parser** (`get_microphones`). Every stderr line that contains `Capture device #` contributes one name: the stripped line's text after its last `": "`, with `'` removed from both ends. If there is no such line, the list is `["No devices found"]`. (module `Devices`, file `devices.dfy`)
- **The start/stop flags** (`toggle_transcription`, `stopTranscribe`). The globals `is_transcribing` and `stop_flag`, and the stop callbacks scheduled on the 300 ms timer, are fields of the class `Session.Controller`. Starting a worker thread and joining it are ghost events. (module `Session`, file `session.dfy`)

Two support modules sit underneath:

- `PyStr` (`pystr.dfy`) models the Python string operations used: `str.strip()`, `str.strip("'")`, `sub in s`, and `s.split(": ")[-1]`.
- `Selection` (`selection.dfy`) defines order-preserving filter-and-map over a sequence. It also gives the positions it keeps, so each loop can be stated as "exactly the selected inputs, in input order".

Modelling choices:

- `strip()` removes exactly the characters for which Python's `str.isspace()` is true. These are written out as `PyStr.WHITESPACE`.
- `split(": ")[-1]` is "the text after the last occurrence of `": "`, or the whole string if there is none". `": "` cannot overlap itself, so this is the same as Python's left-to-right split.
- The `whisper-cpp-stream` stdout is given as a sequence of lines. The stop flag is given as one boolean per line: the flag's value when that line has been read, which is when line 50 tests it. Stderr is given already split into lines.

`yapper.py` has no sentence segmentation, delay queue, duplicate-word suppression, text normalisation or ellipsis filter: line 53 tests only the five markers, and line 54 only strips the line. The model has none of these either.

When Stop is clicked again before the 300 ms timer fires, a second stop callback is scheduled. `Controller.pendingStops` counts the callbacks. `DoubleStopThenStart` shows what follows: the first callback ends the session. A Start then begins a new one. The second callback, when it fires, joins the new worker and marks the new session stopped, even though that worker's stop flag is still false.

## Model

| member | source | states |
|---|---|---|
| PyStr.TrimLeft | yapper.py:53-54 | the result is the suffix left after removing leading characters of the set; everything removed is in the set; the result does not start with one |
| PyStr.TrimRight | yapper.py:53-54 | the result is the prefix left after removing trailing characters of the set; everything removed is in the set; the result does not end with one |
| PyStr.Strip | yapper.py:53-54 | definition of `str.strip()`: `Trim` over Python's whitespace set; its properties are those of `PyStr.Trim`, `PyStr.TrimEmptyIff` and `PyStr.TrimIdempotent` |
| PyStr.Trim | yapper.py:30 | `strip(chars)` returns an infix of the input; everything cut from either end is in the set; a non-empty result neither starts nor ends with a character of the set |
| PyStr.TrimEmptyIff | yapper.py:53 | `strip()` gives the empty string exactly when every character is whitespace |
| PyStr.TrimIdempotent | yapper.py:54 | stripping an already stripped string changes nothing |
| PyStr.TrimUnchanged | yapper.py:30 | a string that neither starts nor ends with a character of the set is its own strip |
| PyStr.Contains | yapper.py:53 | definition of `sub in s`: a match at the front or in the rest; characterised by `PyStr.ContainsIff` |
| PyStr.ContainsIff | yapper.py:53 | `sub in s` holds exactly when `sub` occurs at some position of `s` |
| PyStr.ContainsInfix | yapper.py:53 | `sub in pre + sub + post` always holds |
| PyStr.NotContainsWithoutFirst | yapper.py:53 | if the first character of `sub` never appears in `s`, then `sub` occurs nowhere in `s` |
| PyStr.LastPieceStart | yapper.py:30 | the last piece of `split(": ")` starts at 0 or just after an occurrence of `": "`, and no `": "` starts at or after it |
| PyStr.PieceStartOfTail | yapper.py:30 | in `p + ": " + r`, with no `": "` in `r`, the last piece starts right after the `": "` shown |
| PyStr.AfterLastSeparator | yapper.py:30 | `split(": ")[-1]` is a suffix of the input that contains no `": "`; it is either the whole input or directly preceded by a `": "` |
| PyStr.AfterLastSeparatorOfTail | yapper.py:30 | the last piece of `p + ": " + r` is `r` whenever `r` contains no `": "`, whatever `p` contains |
| Selection.Select | yapper.py:28-30 | the kept positions are in range, each satisfies the filter, they increase strictly, and every position that satisfies the filter is among them |
| Selection.FilterMap | yapper.py:27-30 | definition of the list a loop builds by appending `f(x)` for each accepted `x`; characterised by `Selection.FilterMapIsSelection`, `Selection.FilterMapEmptyIff` and `Selection.FilterMapStep` |
| Selection.FilterMapIsSelection | yapper.py:49-55 | filter-and-map has one entry per accepted element, in input order; entry `k` is the map of the `k`-th accepted element |
| Selection.FilterMapEmptyIff | yapper.py:31 | filter-and-map gives nothing exactly when no element is accepted |
| Selection.FilterMapStep | yapper.py:28-30 | one loop step appends the outcome of the next element to the result so far |
| Transcript.FirstStop | yapper.py:49-52 | the cut-off index is at most the number of lines; the flag is false before it, and true at it when it is in range |
| Transcript.TranscribeAudio | yapper.py:49-55 | the loop forwards exactly `Forwarded(lines, stops)`; it sends the interrupt from inside the loop exactly when some flag value is true |
| Transcript.IsTranscriptLine | yapper.py:53 | definition of the line filter: non-blank after `strip()` and none of the five markers in the raw line; characterised by `Transcript.IsTranscriptLineIff` |
| Transcript.KeptLines | yapper.py:53-55 | definition of the stripped transcript lines of a stream, in order; characterised by `Transcript.KeptLinesSpec` |
| Transcript.Forwarded | yapper.py:49-55 | definition of what the worker hands to `type_text`: the kept lines among those read before the first stop; characterised by `Transcript.ForwardedSpec` and `Transcript.StopCutsStream` |
| Transcript.IsTranscriptLineIff | yapper.py:53 | a line is forwarded exactly when it has a non-whitespace character and none of `[`, `]`, `(`, `action`, `init:` occurs at any position of the raw line |
| Transcript.MarkerRejects | yapper.py:53 | a marker anywhere in a line, including inside a longer word, rejects the line |
| Transcript.KeptWithoutMarkerStart | yapper.py:53 | a line with a non-whitespace character, and with no character that can start a marker, is kept |
| Transcript.LoneParenthesisKept | yapper.py:53 | a line that is only `)` plus spaces is kept; only the listed markers reject |
| Transcript.UppercaseMarkerKept | yapper.py:53 | `ACTION` is kept, because the match is case-sensitive |
| Transcript.MarkerInsideWordRejects | yapper.py:53 | `transaction` is rejected, because the match is substring containment |
| Transcript.StripOfContent | yapper.py:54 | a forwarded `line.strip()` has no whitespace at either end, and stripping it again changes nothing |
| Transcript.KeptLinesSpec | yapper.py:53-54 | the kept texts are the stripped transcript lines in input order; entry `k` is `strip` of the `k`-th transcript line, and each entry is stripped and non-empty |
| Transcript.ForwardedSpec | yapper.py:49-55 | only lines read before the first stop are forwarded; each transcript line among them is forwarded exactly once, stripped, and in reading order |
| Transcript.StopCutsStream | yapper.py:49-52 | lines at or after the first stop, and flag values after it, have no effect on what is forwarded |
| Transcript.FirstStopOfPrefix | yapper.py:50-52 | flags that are false before `k` and true at `k` stop the loop at line `k` |
| Transcript.TypeText | yapper.py:35-36 | `type_text` either does nothing or hands the text on unchanged |
| Transcript.TypeTextIgnoresBlank | yapper.py:35-36 | `type_text` does nothing exactly when the text is all whitespace |
| Transcript.ForwardedAreTyped | yapper.py:35-36 | the guard in `type_text` never drops a text that the worker forwarded |
| Devices.IsDeviceLine | yapper.py:29 | definition of a device line: `Capture device #` occurs in it; characterised by `Devices.IsDeviceLineIff` |
| Devices.DeviceName | yapper.py:30 | a device name never starts or ends with `'` and never contains `": "` |
| Devices.TrimKeepsSeparatorFree | yapper.py:30 | removing quotes from a piece that contains no `": "` cannot create one |
| Devices.TrimQuotes | yapper.py:30 | `strip("'")` of a quoted name gives the name, when the name neither starts nor ends with a quote |
| Devices.DeviceNameOfListing | yapper.py:30 | a line shaped like `Capture device #0: 'Built-in Audio'`, with a non-blank head and a quoted name that contains no `:`, yields exactly that name; a name that itself contains `": "` (`'HDA: Intel'`) keeps only its text after the last `": "`, which `PyStr.AfterLastSeparator` states |
| Devices.DeviceEntries | yapper.py:27-30 | definition of the names the loop collects, one per device line, in order; characterised by `Devices.DeviceEntriesSpec` and `Devices.NoDeviceEntriesIff` |
| Devices.GetMicrophones | yapper.py:26-31 | the list is never empty; it is the names of the device lines when there are any, and `["No devices found"]` when there are none |
| Devices.DeviceEntriesSpec | yapper.py:28-30 | one entry per line containing `Capture device #`, in input order; entry `k` is the name cut from the `k`-th such line |
| Devices.IsDeviceLineIff | yapper.py:29 | a line is a device line exactly when `Capture device #` occurs at some position in it |
| Devices.NoDeviceEntriesIff | yapper.py:31 | the placeholder is used exactly when no line contains `Capture device #` |
| Session.Controller.constructor | yapper.py:19-20 | at start-up nothing is transcribing, no stop is pending and no worker exists |
| Session.Controller.Toggle | yapper.py:72-89 | while transcribing: the stop flag is set and one more stop is scheduled. While not transcribing with a device selected: transcribing, a lowered stop flag, and a worker started for that device. With `mic_id == -1`: nothing changes. In phases, from any valid state: idle goes to recording when a device is selected and stays idle when none is; recording or stopping goes to stopping |
| Session.Controller.StopTranscribe | yapper.py:63-70 | the current worker is joined, the stop flag and `is_transcribing` become false, one scheduled stop is used up, and the callback asks not to repeat; from any valid state the session is then idle |
| Session.StartStopCycle | yapper.py:63-89 | Start, Stop and the timer callback go idle → recording → stopping → idle; one worker is started and joined; no stop is left pending |
| Session.DoubleStopThenStart | yapper.py:75-89 | two Stop clicks before the timer fires, then a Start, leave a second stop callback; it ends the new session and joins the new worker |

## Left out

- The GTK window, its placement by monitor geometry, the drop-down contents, the button labels and styles, and the CSS (yapper.py:91-158). These are UI glue.
- `get_model_path` and the model constants (yapper.py:10-16). They read the environment and build a path.
- Running `whisper-cpp-stream` and reading its output (yapper.py:25-26, 47-49). The model is given the output lines. `splitlines()` is not modelled.
- Sending SIGINT, and the `wait` in the worker's `finally` block (yapper.py:51, 59-61). `TranscribeAudio` reports only whether the loop sent the interrupt.
- The `wtype` shell command and its error message (yapper.py:38-41). `TypeText` stops at the text it would hand over. How the unescaped `"` behaves in the shell is foreign-process behaviour.
- The `except` branch that prints errors (yapper.py:56-57). It is I/O only.
- The worker thread, the `multiprocessing.Value` sharing, and the `GLib.idle_add` / `GLib.timeout_add` scheduling (yapper.py:55, 80, 85, 88-89). The thread start and the `join` are ghost events in `Session.Controller`. The worker's view of the stop flag is the `stops` sequence of `TranscribeAudio`.
- The worker's `finally` block setting `is_transcribing = False` (yapper.py:62). It races with the controller, and its only significance is that concurrency.
- `on_shutdown` (yapper.py:160-166). It runs once, at application exit, and is mostly process termination.
- Session.Controller.StopTranscribe: requires at least one scheduled stop, because in yapper only the timer calls it, once per Stop click.
- Session.Controller.StopTranscribe: does not model the wait caused by the `join` (yapper.py:65) when a second scheduled callback runs, as in `DoubleStopThenStart`. That callback joins the new worker, whose stop flag stays false, so the `join` waits until that worker's process ends; because the callback runs on the GTK main loop, the window does not respond until then. The model records only the join event.
