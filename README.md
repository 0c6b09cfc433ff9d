# VD Master: the logic behind the Start and Stop buttons

VD Master is a Swing window (`VDMasterUI`) that downloads a video with
`yt-dlp` and can then convert the downloaded files with `ffmpeg`. This project
lifts the logic out of the window's event handlers and proves properties of it.
Everything that touches the GUI, the operating system or threads becomes an
input:

- **Start** (`onStart`) refuses to run while the download process is alive.
  It trims the URL and the save directory and rejects the form when either is
  empty. When "Need Conversion?" is ticked, it picks the format from the radio
  buttons in the order m4a, mp3, wav. It rejects the form when no format is
  selected or when the trimmed conversion directory is empty. Otherwise it
  hands `["yt-dlp", "-o", dir + sep + "%(title)s.%(ext)s", url]` to the OS.
- **The download thread** logs each line the downloader prints. It then logs
  either the read error or "Download finished." and, when conversion was
  requested, runs `convertFiles` on the save directory. The output reader is
  closed only after that; an exception from closing it is logged last, after
  "Download finished." and every conversion line, unless reading had already
  failed, in which case the read error alone is logged.
- **`convertFiles`** logs a start line. It then lists the directory, keeping
  the names that end in `.mp4`, `.mkv` or `.webm`. If the listing is null it
  stops there. Otherwise, one file at a time and in listing order, it runs
  `["ffmpeg", "-i", <absolute path>, destDir + sep + base + "." + ext]`, where
  `base` is the name without its last extension segment. It logs
  "Converted ..." or "Conversion error: ...", and finally logs
  "All conversions done.".
- **Stop** (`onStop`) calls `destroy()` on the download process only when it is
  alive. Otherwise it logs "No active process.".

Layout (one module per file):

- `wrappers.dfy`: `Option` and `Result`.
- `java_text.dfy` (module `JavaText`): `String.trim`, `endsWith` and
  `lastIndexOf(char)`.
- `commands.dfy` (module `Commands`): form validation, format choice, the
  downloader command, the file filter, base names, destinations and transcoder
  commands. All of these are pure functions.
- `transcript.dfy` (module `Transcript`): specification functions for what the
  download thread and `convertFiles` log and hand to the OS, with lemmas about
  them.
- `window.dfy` (module `Window`): the decision `onStart` makes, and the class
  `VdMaster`. The class holds `downloadAlive` (the code's
  `downloadProcess != null && downloadProcess.isAlive()`), the number of
  `destroy()` calls, the log (every text passed to `appendLog`, in order) and
  `issued` (every command list handed to `ProcessBuilder.start`, in order).
  Its methods are proved against the functions in `Transcript`.

Environment inputs:

- the path separator `sep` (`File.separator`);
- the message of the exception that starting the downloader throws, if any;
- the downloader's output lines and the read error, if any;
- the message of the exception that closing the output reader throws, if any;
- the directory listing (`None` where `listFiles` returns null);
- the absolute path of the listed directory;
- per file name, the message of the exception that starting or waiting for the
  transcoder throws.

Notes on the code's behaviour:

- `VDMasterUI` never looks at the transcoder's exit status: `waitFor()`'s
  result is dropped, so "Converted ..." is logged even when `ffmpeg` fails.
  Only an exception produces "Conversion error: ...".
- When `listFiles` returns null (for example, the directory does not exist),
  `convertFiles` returns right after its start line, without
  "All conversions done.". An existing directory with no matching files gives
  zero jobs and the closing line.
- `convertFiles` runs the conversions one after another on the download
  thread, each waited for before the next starts.
- After Stop, the read loop ends either at end of stream, and conversion then
  runs, or with an `IOException` (JDKs on Unix close the stream in
  `destroy()`), which logs "Error: ..." and skips conversion. Which one
  happens depends on the JDK and on timing; the `readError` input covers
  both. Stop only ever destroys the downloader, never a running `ffmpeg`.

## Model

| member | source | states |
|---|---|---|
| JavaText.Trim | VD_Master/src/VDMasterUI.java:153-154 | the trimmed text is empty exactly when every char is at or below U+0020, and otherwise starts and ends with a char above U+0020 |
| JavaText.TrimIsInfix | VD_Master/src/VDMasterUI.java:153-154 | the trimmed text is a contiguous piece of the input, and everything cut off before and after it is at or below U+0020 |
| JavaText.TrimIdempotent | VD_Master/src/VDMasterUI.java:153-154 | trimming an already trimmed field changes nothing |
| JavaText.EndsWithIff | VD_Master/src/VDMasterUI.java:218 | `endsWith` holds exactly when the name is some prefix followed by the suffix |
| JavaText.LastIndexOf | VD_Master/src/VDMasterUI.java:221 | -1 exactly when the char is absent; otherwise an index holding the char, with no later occurrence |
| Commands.ExtensionInjective | VD_Master/src/VDMasterUI.java:170-172 | the three formats have distinct extensions, none containing a '.' |
| Commands.SelectFormat | VD_Master/src/VDMasterUI.java:169-175 | precedence m4a, then mp3, then wav; no format exactly when no radio button is on |
| Commands.SelectFormatOfGroup | VD_Master/src/VDMasterUI.java:60-63 | with the button group's single selection, the chosen format is the selected one |
| Commands.Validate | VD_Master/src/VDMasterUI.java:153-184 | rejects with the URL/directory error exactly when the trimmed URL or save directory is empty; rejects with the format/directory error exactly when those are present, conversion is on, and the format or the trimmed conversion directory is missing; an accepted request carries the trimmed fields, and has a conversion part exactly when conversion is on |
| Commands.ValidateYieldsValid | VD_Master/src/VDMasterUI.java:153-184 | every accepted request has non-empty, trimmed URL, directory and conversion directory |
| Commands.ValidateFormOf | VD_Master/src/VDMasterUI.java:153-184 | every valid request is accepted back unchanged from the form that describes it |
| Commands.DialogMessage | VD_Master/src/VDMasterUI.java:156-178 | "URL and directory must be specified." exactly for the missing URL/directory dialog, "Select conversion format and directory." exactly for the missing format/directory dialog |
| Commands.DownloadCommand | VD_Master/src/VDMasterUI.java:160-164 | four tokens: yt-dlp, -o, dir + sep + the title/ext template, then the URL |
| Commands.DownloadCommandInjective | VD_Master/src/VDMasterUI.java:160-164 | the command determines the directory and the URL it was built from |
| Commands.FilterContainers | VD_Master/src/VDMasterUI.java:218 | every kept name ends in .mp4, .mkv or .webm and contains a '.' |
| Commands.FilterContainersCounts | VD_Master/src/VDMasterUI.java:218 | a name is kept exactly when it ends in a container extension, as many times as it is listed |
| Commands.FilterContainersAppend | VD_Master/src/VDMasterUI.java:218 | filtering preserves the listing order |
| Commands.BaseName | VD_Master/src/VDMasterUI.java:221 | the base is a proper prefix of the name, followed by a '.', with no '.' after that one |
| Commands.BaseNameSplit | VD_Master/src/VDMasterUI.java:221 | name == base + "." + the last segment, and that segment holds no '.' |
| Commands.BaseNameOfJoin | VD_Master/src/VDMasterUI.java:221 | stripping base + "." + ext (ext without '.') gives back base, whatever dots base holds |
| Commands.ContainerSplit | VD_Master/src/VDMasterUI.java:218-221 | every name the filter keeps has a '.', and the stripped segment is mp4, mkv or webm |
| Commands.Destination | VD_Master/src/VDMasterUI.java:226 | destDir + sep, then the base, then "." and the three-letter extension at the end |
| Commands.DestinationInjective | VD_Master/src/VDMasterUI.java:226 | different base names give different destination paths |
| Commands.SameBaseSameDestination | VD_Master/src/VDMasterUI.java:221-226 | "x.mp4" and "x.mkv" are given the same destination path |
| Commands.DestinationExample | VD_Master/src/VDMasterUI.java:221-226 | "movie.2024.mkv" converted to mp3 goes to destDir + sep + "movie.2024.mp3" |
| Commands.ConvertCommand | VD_Master/src/VDMasterUI.java:222-225 | the four tokens ffmpeg, -i, the source path, the destination path, with no overwrite flag |
| Commands.JobCommand | VD_Master/src/VDMasterUI.java:221-226 | ffmpeg, -i, the file's absolute path, then destDir + sep + base + "." + extension |
| Commands.JobDestinationsCollide | VD_Master/src/VDMasterUI.java:221-226 | two kept files get the same output path exactly when their base names are equal |
| Commands.DestinationDeterminesFormat | VD_Master/src/VDMasterUI.java:226 | the destination path determines the selected format |
| Transcript.ConversionStartLine | VD_Master/src/VDMasterUI.java:216 | "Starting conversion to " + extension + "...\n", which is neither a per-file line nor the closing line |
| Transcript.FileEntry | VD_Master/src/VDMasterUI.java:221-233 | the file's log line, ending in a newline |
| Transcript.FileEntryText | VD_Master/src/VDMasterUI.java:230-232 | "Conversion error: " + the exception's message when the run threw, otherwise "Converted " + base + "." + extension |
| Transcript.FileEntryIsError | VD_Master/src/VDMasterUI.java:227-233 | a file's line is an error line exactly when its run threw, and every file line starts with 'C' |
| Transcript.FileEntries | VD_Master/src/VDMasterUI.java:220-234 | one log line per file |
| Transcript.FileEntriesAt | VD_Master/src/VDMasterUI.java:220-234 | line i is file i's line, whatever happened to earlier files |
| Transcript.FailuresIsolated | VD_Master/src/VDMasterUI.java:227-233 | line i reports an error exactly when file i's run threw, so one failure neither stops nor taints later files |
| Transcript.JobCommands | VD_Master/src/VDMasterUI.java:220-229 | exactly one command per kept file |
| Transcript.JobCommandsAt | VD_Master/src/VDMasterUI.java:220-229 | command i is file i's transcoder command, in listing order |
| Transcript.ConvertLog | VD_Master/src/VDMasterUI.java:215-236 | starts with the conversion start line; only that line when the listing is null; otherwise two more lines than kept files, ending in "All conversions done." |
| Transcript.ConvertIssued | VD_Master/src/VDMasterUI.java:217-229 | no command when the listing is null, otherwise the per-file commands over the filtered listing |
| Transcript.DoneNotAFileEntry | VD_Master/src/VDMasterUI.java:230-235 | no per-file line can be mistaken for the closing line |
| Transcript.DoneLoggedOnce | VD_Master/src/VDMasterUI.java:216-235 | for an existing listing "All conversions done." is the last line and occurs nowhere before it; for a null listing it is never logged |
| Transcript.OutputEntries | VD_Master/src/VDMasterUI.java:196-199 | one log entry per output line, in order, with its newline |
| Transcript.ThreadLog | VD_Master/src/VDMasterUI.java:193-208 | the output lines come first; a read error is the last entry and skips conversion, and a failing close is then not logged; otherwise "Download finished." follows the output, an error from closing the reader is the very last entry, and without conversion nothing else is logged |
| Transcript.ThreadIssued | VD_Master/src/VDMasterUI.java:200-204 | a transcoder command is issued only when conversion was requested, reading did not fail and the listing exists, and then one per kept file |
| Transcript.ThreadIssuedTranscoderOnly | VD_Master/src/VDMasterUI.java:222-228 | every command the thread issues is ffmpeg -i on the absolute path of the matching kept file |
| Window.DecideStart | VD_Master/src/VDMasterUI.java:147-191 | refused exactly when a download is alive; rejected exactly when validation fails; launched exactly when validation passes and the OS starts the downloader; the command is the download command over the trimmed fields |
| Window.StartLog | VD_Master/src/VDMasterUI.java:149-211 | at most one entry ("Process already running...", "Starting download..." or "Failed to start: " + message); nothing exactly when the form is rejected |
| Window.StartIssued | VD_Master/src/VDMasterUI.java:186-190 | the downloader command is handed to the OS exactly when it is launched or its launch fails, never otherwise |
| Window.StartIssuesOnlyValidDownload | VD_Master/src/VDMasterUI.java:148-190 | Start hands a command to the OS exactly when no download is alive and every check passes, and then only the download command, with the non-empty trimmed URL last |
| Window.NoConversionUnlessRequested | VD_Master/src/VDMasterUI.java:166-204 | with conversion off, the run started by Start issues no transcoder command |
| Window.VdMaster.constructor | VD_Master/src/VDMasterUI.java:18 | no download process, empty log, nothing issued |
| Window.VdMaster.Start | VD_Master/src/VDMasterUI.java:147-213 | new state follows DecideStart: only "Process already running..." while alive; nothing on rejection; the download command issued and "Starting download..." or "Failed to start: ..." logged otherwise; alive only after a launch |
| Window.VdMaster.Stop | VD_Master/src/VDMasterUI.java:238-245 | destroy() is called and "Process stopped." logged only when the download is alive; otherwise "No active process." and nothing else changes |
| Window.VdMaster.DownloadExited | VD_Master/src/VDMasterUI.java:239 | after the process exits no download is alive |
| Window.VdMaster.LogOutput | VD_Master/src/VDMasterUI.java:196-199 | appends exactly the output entries |
| Window.VdMaster.RunDownload | VD_Master/src/VDMasterUI.java:193-208 | the thread's log and issued commands are ThreadLog and ThreadIssued, including the close error logged after convertFiles |
| Window.VdMaster.ConvertOne | VD_Master/src/VDMasterUI.java:221-233 | issues the file's command and appends its single line |
| Window.VdMaster.ConvertEach | VD_Master/src/VDMasterUI.java:220-234 | the loop appends FileEntries and issues JobCommands over the kept files |
| Window.VdMaster.ConvertFiles | VD_Master/src/VDMasterUI.java:215-236 | appends ConvertLog and issues ConvertIssued |

## Left out

- Window construction, layout, listeners, file choosers, the conversion panel
  toggle and `main` (lines 30-145, 251-253) are left out because they are user
  interface. The error dialogs of `onStart` appear only as the `Rejected`
  outcome and its `DialogMessage`.
- `ProcessBuilder.start`, `redirectErrorStream`, `inheritIO`, `waitFor` and
  reading the child's stream are left out because they are OS I/O. Their
  results are inputs: a launch error message, the output lines with an
  optional read error, and per-file exception messages. `ffmpeg`'s own output
  goes to the inherited console and is not part of the log.
- The background thread and `SwingUtilities.invokeLater` are left out because
  they are concurrency. `appendLog` is modelled as appending to a sequence in
  call order. The thread reads the `downloadProcess` field, and a later Start
  may replace that field; this race is not modelled.
- `File.listFiles`, `getAbsolutePath` and `File.separator` are left out
  because they are file-system calls. The listing, the absolute path of the
  listed directory and the separator are inputs. The file's absolute path is
  modelled as absDir + sep + name, without `File`'s normalisation of
  separators.
- Process exit is left out as a cause: it is an environment event,
  `DownloadExited`. `destroy()` only asks the process to end, so Stop leaves
  `downloadAlive` unchanged.
