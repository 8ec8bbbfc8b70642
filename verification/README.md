# HEIC to JPEG converter — a verified model of its core

`heic_to_jpeg.py` is a small desktop tool. It scans an input folder tree for
HEIC images that have no JPEG yet in a flat output folder. It converts them one
at a time on a worker thread, and reports progress to a Tk window through a
message queue. This project models the parts of that file that carry logic, and
proves what they promise:

- **Discovery and the skip filter** (`_collect_heic_without_jpeg`), module
  `Discovery`:
  - the extension test is built on Python's `os.path.splitext` and
    `str.lower`;
  - the output path is built with `os.path.join`;
  - the scan is the nested loop over the walk, proved equal to a selection
    function `Collect`.
- **The conversion worker** (`conversion_worker`), module `Worker`:
  - it pushes tagged messages (`info`, `status`, `error`, `done`) onto the
    queue;
  - their exact sequence is a function of the walk, the snapshot of existing
    files, and two oracles: directory creation and the per-file converter.
- **The controller** (`start_conversion`, `poll_queue` and the browse
  buttons of `build_gui`), module `Controller`:
  - a `ConverterWindow` class holds the two folder fields, the status line, the
    log, the three button states and the queue;
  - the draining loop is proved against the fold `Drain`.
- Supporting modules:
  - `PyStr`: `str.isspace`, `str.strip`, `str.lower`, `str.rfind`, and the
    decimal text of an `int` in an f-string;
  - `PyPath`: POSIX `splitext`, `basename` and `join`;
  - `SeqFilter`: order-preserving select-and-map over sequences;
  - `Channel`: the message type and the FIFO queue.

Two behaviours of the code are worth stating up front, and the model keeps
both:

- After a failed `os.makedirs` the worker sends only an `error` message and
  returns without a `done` (`heic_to_jpeg.py:37-41`). Only a `done`
  re-enables the three buttons (`heic_to_jpeg.py:114-118`), so after such a
  failure the window stays disabled for good. `Controller.RunOutcome` states
  this outcome.
- The pre-filled folder fields use the application directory, which is the
  executable's directory when frozen (`heic_to_jpeg.py:63-66`). An empty
  output field, however, is replaced by `folder_jpeg` under the directory of
  the script file (`heic_to_jpeg.py:90-91`). The model keeps the two as
  separate parameters: `appDir` for the constructor and `scriptDir` for
  `StartConversion`.

A button's command runs only while the button is enabled, so the three
window operations require their button's flag. Because the Start button is
disabled from a launch until a `done` is handled, two workers never run at
once (`Controller.StartBlockedUntilDone`).

## Model

| member | source | states |
|---|---|---|
| PyStr.IsSpace | heic_to_jpeg.py:83-84 | the characters `str.strip` removes: every code point Python's `str.isspace` accepts |
| PyStr.Strip | heic_to_jpeg.py:83-84 | `strip()`: the field without its leading and trailing whitespace |
| PyStr.StripEmptyIff | heic_to_jpeg.py:83-85 | `strip()` of a field gives the empty text exactly when every character of the field is Python whitespace, so an all-blank input is rejected like an empty one |
| PyStr.StripTrimmed | heic_to_jpeg.py:83-84 | a non-empty stripped field is no longer than the field and neither starts nor ends with whitespace |
| PyStr.Lower | heic_to_jpeg.py:27 | `lower()`: a text of the same length with every ASCII capital replaced by its small letter |
| PyStr.LowerAt | heic_to_jpeg.py:27 | `lower()` works character by character: position `i` of the result is the lower-cased character `i` of the input |
| PyStr.RFind | heic_to_jpeg.py:27 | `rfind` of one character: the last index holding it, or -1; the result lies in `-1..len-1` |
| PyStr.RFindLast | heic_to_jpeg.py:27 | `rfind` returns an index holding the character, or -1, and no occurrence lies after it |
| PyStr.NatToString | heic_to_jpeg.py:45 | the f-string text of a count is a non-empty string of decimal digits without a leading zero (except for 0 itself) |
| PyStr.DecimalRoundTrip | heic_to_jpeg.py:45 | reading back the digits written for a count gives the count |
| PyStr.NatToStringInjective | heic_to_jpeg.py:55 | different counts give different texts, so the `done` text determines the count |
| PyPath.SplitExt | heic_to_jpeg.py:27 | `splitext` splits the name into a root and an extension that concatenate back to it; the extension is empty or starts with the only dot it contains and holds no separator |
| PyPath.Basename | heic_to_jpeg.py:49-51 | `basename`: the trailing part of a path after its last separator |
| PyPath.BasenameAfterLastSep | heic_to_jpeg.py:49 | `basename` is the text after the position `rfind('/')` reports |
| PyPath.BasenameHasNoSep | heic_to_jpeg.py:49-51 | a base name holds no separator, and a name without separators is its own base name |
| PyPath.Join | heic_to_jpeg.py:29-30 | `join` returns an absolute second part unchanged, and otherwise appends it, inserting a separator unless the first part is empty or ends in one |
| PyPath.JoinBasename | heic_to_jpeg.py:30 | joining a name without separators onto any folder gives a path whose base name is that name |
| PyPath.BasenameOfSuffix | heic_to_jpeg.py:30 | a path that ends in a separator followed by `b`, or is `b`, has base name `b` when `b` holds no separator |
| Discovery.IsHeic | heic_to_jpeg.py:27-28 | the extension test: the `splitext` extension of the file name, lower-cased, equals ".heic" |
| Discovery.OutputPath | heic_to_jpeg.py:30 | the output path: the output folder joined with the name's `splitext` root plus ".jpg" |
| Discovery.TaskOf | heic_to_jpeg.py:29-30 | the pair a kept file contributes: its root joined with its name, and its output path |
| Discovery.Keep | heic_to_jpeg.py:27-31 | a walked file is kept exactly when it passes the extension test and its output path is not in the snapshot of existing paths |
| Discovery.Collect | heic_to_jpeg.py:22-33 | the list `_collect_heic_without_jpeg` returns: the tasks of the kept files, in walk order |
| Discovery.CollectHeicWithoutJpeg | heic_to_jpeg.py:22-33 | the nested loops return exactly `Collect`: the tasks of the kept files, in walk order |
| Discovery.FlattenCount | heic_to_jpeg.py:25-26 | the scan visits as many files as the walk entries list |
| Discovery.FlattenHas | heic_to_jpeg.py:25-26 | every file listed by any walk entry is visited |
| Discovery.SelectedMembership | heic_to_jpeg.py:27-32 | a task is produced if and only if it is the task of a visited HEIC file whose output path does not exist |
| Discovery.SkipsExisting | heic_to_jpeg.py:31-32 | no produced task writes to a path that exists at scan time, and each comes from a visited HEIC file |
| Discovery.CollectsEveryMissing | heic_to_jpeg.py:25-32 | every HEIC file of the walk whose output path is missing yields its task |
| Discovery.CollectOrderAndCount | heic_to_jpeg.py:24-33 | the tasks come from strictly increasing walk positions, so they keep walk order and never outnumber the walked files |
| Discovery.RescanSkipsWritten | heic_to_jpeg.py:31-32 | a rescan after some JPEGs were written gives the first scan's tasks in the same order, minus those whose output now exists |
| Discovery.RescanAfterFullRunIsEmpty | heic_to_jpeg.py:31-32 | once every output of a scan exists, the same scan finds nothing to convert |
| Discovery.IsHeicIff | heic_to_jpeg.py:27-28 | a file name is selected exactly when it ends in ".heic" in any mix of case and some character before that ending is not a dot |
| Discovery.LowerHeicSpelling | heic_to_jpeg.py:27-28 | every upper/lower-case spelling of ".heic" lower-cases to ".heic" |
| Discovery.HeicExample | heic_to_jpeg.py:27-28 | a name that does not start with a dot and ends in a case spelling of ".heic" is selected |
| Discovery.SpellingExample | heic_to_jpeg.py:27-28 | "a" followed by any case spelling of ".heic" is selected |
| Discovery.ExtensionCaseExamples | heic_to_jpeg.py:27-28 | "a.heic", "a.HEIC" and "a.Heic" are all selected |
| Discovery.ExtensionAfterHeicExample | heic_to_jpeg.py:27-28 | "a.heic.bak" is not selected |
| Discovery.DotFileExamples | heic_to_jpeg.py:27-28 | the dot files ".heic" and "..heic" have no extension and are not selected |
| Discovery.HeicStem | heic_to_jpeg.py:30 | the `splitext` root of a selected name is the name minus its last five characters, with no separator |
| Discovery.OutputName | heic_to_jpeg.py:29-30 | the output path is the output folder joined with the name's last five characters replaced by ".jpg"; its base name is that file name, whatever sub-folder held the input |
| Discovery.OutputExample | heic_to_jpeg.py:30 | "photo.HEIC" becomes "out/photo.jpg" for output folder "out" |
| Discovery.FlatLayoutCollision | heic_to_jpeg.py:29-30 | two HEIC files with the same name in different sub-folders are both selected and both write to the same output path |
| Channel.MessageQueue.constructor | heic_to_jpeg.py:68 | a new queue is empty |
| Channel.MessageQueue.Put | heic_to_jpeg.py:45 | `put` adds the message at the back and leaves the rest as it was |
| Channel.MessageQueue.GetNowait | heic_to_jpeg.py:106 | `get_nowait` on an empty queue yields nothing (the `queue.Empty` case) and changes nothing; otherwise it removes and returns the front message |
| Worker.SetupErrorText | heic_to_jpeg.py:40 | the text of the setup `error`: "Failed to create output directory: " and the exception text |
| Worker.FoundText | heic_to_jpeg.py:45 | the text of the count `info`, with the task count in decimal |
| Worker.StatusText | heic_to_jpeg.py:49 | the text of a `status`: the 1-based index, the total and the input's base name |
| Worker.ConvertedText | heic_to_jpeg.py:51 | the text of a success `info`: "Converted: " and the output's base name |
| Worker.ConvertErrorText | heic_to_jpeg.py:53 | the text of a per-file `error`: the full input path and the exception text |
| Worker.DoneText | heic_to_jpeg.py:55 | the text of the `done`: the task count in decimal |
| Worker.ResultMessage | heic_to_jpeg.py:50-53 | the message after an attempt: an `info` naming the output when the conversion returned, an `error` naming the input when it raised |
| Worker.ConvertMessages | heic_to_jpeg.py:47-53 | the messages of the conversion loop over the tasks, in order: for each task its `status`, then its result message |
| Worker.WorkerMessages | heic_to_jpeg.py:36-55 | everything the worker puts on the queue: the setup `error` alone when `os.makedirs` raises, otherwise the count `info`, the loop's messages and the `done` |
| Worker.ConversionWorker | heic_to_jpeg.py:36-55 | the worker appends exactly `WorkerMessages` to the queue: one `error` if directory creation fails, otherwise the count, the per-task messages and `done` |
| Worker.ConvertEach | heic_to_jpeg.py:47-53 | the loop appends, for each task in order, its `status` and the message for its result |
| Worker.ConvertMessagesShape | heic_to_jpeg.py:47-53 | the loop emits two messages per task: at `2i` a `status` naming `(i+1/total)` and the input's base name, at `2i+1` the task's result |
| Worker.WorkerShape | heic_to_jpeg.py:37-55 | a failed directory creation yields exactly one `error`; otherwise exactly `2*total+2` messages: `info` with the count, a `status` and a result per task in order, and `done` with the count last |
| Worker.CountKindAppend | heic_to_jpeg.py:47-55 | counting messages of one kind distributes over concatenation |
| Worker.ConvertMessagesCounts | heic_to_jpeg.py:47-53 | a failing file does not stop the loop: one `status` per task, one `error` per failed task, one `info` per successful task, no `done` |
| Worker.FailedCountBound | heic_to_jpeg.py:47-53 | no more tasks fail than there are tasks |
| Worker.DoneReportsAttempts | heic_to_jpeg.py:55 | a run whose folder was created has exactly one `done`, it comes last, and its count is the number of attempts (the `status` messages), not of successes |
| Worker.SetupFailureIsSilentOtherwise | heic_to_jpeg.py:37-41 | after a failed directory creation there is one `error` and no `info`, `status` or `done` |
| Worker.SetupFailureSkipsDiscovery | heic_to_jpeg.py:37-43 | after a failed directory creation the messages do not depend on the tree, the existing files or the converter: discovery never runs |
| Controller.Apply | heic_to_jpeg.py:107-118 | the effect of one message: a `status`, `info` or `error` sets the status line and appends its text and a newline to the log; a `done` sets the status line and enables the three buttons |
| Controller.Drain | heic_to_jpeg.py:103-120 | the window after the drain loop has handled the queued messages front to back |
| Controller.LogText | heic_to_jpeg.py:107-113 | the text a drain appends to the log: the text and a newline of every message that is not a `done`, in order |
| Controller.StartBlockedUntilDone | heic_to_jpeg.py:94-118 | from a window with all buttons disabled, each button is enabled after a drain exactly when the drained messages hold a `done` |
| Controller.DrainLog | heic_to_jpeg.py:107-113 | polling appends to the log exactly the text and a newline of every non-`done` message, in queue order; earlier log text is kept |
| Controller.DrainStatus | heic_to_jpeg.py:107-115 | after polling, the status line shows the text of the last message handled, whatever its kind |
| Controller.DrainButtons | heic_to_jpeg.py:114-118 | a `done` enables all three buttons; without a `done` no button changes state |
| Controller.EnabledStays | heic_to_jpeg.py:114-118 | once all buttons are enabled, later messages never disable them |
| Controller.DrainConcat | heic_to_jpeg.py:103-121 | polling in several rounds gives the same window as one round over all the messages |
| Controller.StartDecision | heic_to_jpeg.py:83-92 | the decision `start_conversion` takes from the two fields: reject an empty or non-directory stripped input, otherwise launch on the stripped input and the stripped output, an empty output becoming `folder_jpeg` under the script directory |
| Controller.StartValidation | heic_to_jpeg.py:83-92 | a start is rejected exactly when the input field is all whitespace or its stripped text is not a folder; a launched worker gets a stripped, non-empty input folder, and a non-empty output that is the stripped field, or `folder_jpeg` joined onto the script directory when that field is blank |
| Controller.ConverterWindow.constructor | heic_to_jpeg.py:126-154 | the window starts with `folder_heic` and `folder_jpeg` under the application folder, status "Idle", an empty log, enabled buttons and an empty queue |
| Controller.ConverterWindow.BrowseInput | heic_to_jpeg.py:71-74 | callable only while its button is enabled; a chosen folder replaces the input field; a cancelled dialog changes nothing |
| Controller.ConverterWindow.BrowseOutput | heic_to_jpeg.py:76-79 | callable only while its button is enabled; a chosen folder replaces the output field; a cancelled dialog changes nothing |
| Controller.ConverterWindow.StartConversion | heic_to_jpeg.py:81-101 | callable only while the Start button is enabled; a rejected start changes neither the window nor the queue; a valid start writes a defaulted output back to its field, disables the three buttons and queues "Starting conversion..." |
| Controller.ConverterWindow.PollQueue | heic_to_jpeg.py:103-120 | one poll empties the queue and leaves the window as `Drain` of the old window over the old queue contents, folder fields untouched |
| Controller.RunOutcome | heic_to_jpeg.py:94-118 | after a valid start and a whole worker run, the buttons come back if and only if directory creation succeeded; the status ends on the `done` text or on the setup error |
| Controller.RunOnPass | heic_to_jpeg.py:114-118 | when the output folder was created, handling the run's messages ends with all buttons enabled and the status showing the `done` text with the task count |
| Controller.RunOnFail | heic_to_jpeg.py:37-41 | when the output folder cannot be created, handling the run's messages only sets the status to the setup error and logs two lines; the buttons keep their state |

## Left out

- Image decoding and encoding (PIL and pillow_heif, `heic_to_jpeg.py:7-19`): `convert_to_jpg` is an oracle returning success or a failure reason.
- The file system: `os.walk` is a given sequence of `(root, files)` entries; `os.path.exists` is a set of existing paths taken once, before the scan; `os.makedirs` is one outcome per run; `os.path.isdir` is a predicate. The walk order belongs to the operating system.
- A file written during the scan does not change the snapshot of existing paths, so the model cannot express a race with another process.
- Threads: the worker thread and the cross-thread `queue.Queue` are modelled as a sequence that the worker appends to and the poller drains, one after the other. Interleavings are covered only through `Controller.DrainConcat`.
- Tk: widget layout, the error dialog (the `Rejected` result stands for it), `root.after` rescheduling and `mainloop`. The folder dialog is a chosen string, with the empty string for a cancelled dialog.
- The computation of the application and script folders from `sys.frozen`, `sys.executable` and `__file__`: both are given strings.
- Exception texts are opaque reason strings.
- PyPath.Join: models POSIX `posixpath` only; Windows `ntpath` rules (drive letters, backslashes) are not modelled.
- PyStr.LowerAt: `str.lower` is modelled on ASCII letters only. This is exact for the comparison with ".heic", because no other character lower-cases to a single character in "heic". A name whose extension holds `İ` (U+0130) lower-cases to a longer text in Python and is rejected in both.
- Controller.ConverterWindow.PollQueue: message tags are a closed datatype, so a message with an unknown tag, which Python would silently ignore, cannot be expressed.
- Worker.ConversionWorker: the conversion loop lives in its own method, `ConvertEach`, called at the point where the loop stands in the source.
