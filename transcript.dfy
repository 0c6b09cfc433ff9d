/**
 * What the download thread and convertFiles append to the log and hand to
 * ProcessBuilder, as functions of the environment's answers: the lines the
 * downloader printed, whether reading them failed, the directory listing
 * (None where listFiles returns null) and, per file name, the message of
 * the exception that launching or waiting for the transcoder threw.
 */
module Transcript {
  import opened Wrappers
  import opened Commands

  const DownloadStartedLine: string := "Starting download...\n"
  const DownloadFinishedLine: string := "Download finished.\n"
  const DoneLine: string := "All conversions done.\n"

  /**
   * convertFiles' first line; it names the target extension and can be
   * mistaken neither for a per-file line nor for the closing line.
   */
  function ConversionStartLine(format: Format): (r: string)
    ensures |r| == 30 && r[23..26] == Extension(format)
    ensures r != DoneLine && !IsErrorEntry(r)
  {
    var r := "Starting conversion to " + Extension(format) + "...\n";
    assert r[0] == 'S' && ErrorPrefix[0] == 'C';
    r
  }

  const ErrorPrefix: string := "Conversion error: "

  predicate IsErrorEntry(e: string) {
    |ErrorPrefix| <= |e| && e[..|ErrorPrefix|] == ErrorPrefix
  }

  /**
   * The line for one file: "Converted <base>.<ext>" once the transcoder ran
   * and was waited for, whatever its exit status; the exception's message
   * when starting it or waiting for it threw. The outcomes are keyed by file
   * name: names in one directory listing are unique, so this loses nothing.
   */
  function FileEntry(name: string, format: Format, errors: map<string, string>): (r: string)
    requires '.' in name
    ensures |r| > 0 && r[|r| - 1] == '\n'
  {
    if name in errors then ErrorPrefix + errors[name] + "\n"
    else "Converted " + BaseName(name) + "." + Extension(format) + "\n"
  }

  /** A file's line reports an error exactly when its run threw. */
  lemma FileEntryIsError(name: string, format: Format, errors: map<string, string>)
    requires '.' in name
    ensures IsErrorEntry(FileEntry(name, format, errors)) <==> name in errors
    ensures FileEntry(name, format, errors)[0] == 'C'
  {
    var e := FileEntry(name, format, errors);
    if name !in errors {
      assert e[6] == 't' && ErrorPrefix[6] == 's';
    }
  }

  /**
   * A file's line carries the exception's message after "Conversion error: ",
   * or the converted file's base name and extension after "Converted ".
   */
  lemma FileEntryText(name: string, format: Format, errors: map<string, string>)
    requires '.' in name
    ensures var e := FileEntry(name, format, errors);
      && (name in errors ==>
            |e| == |ErrorPrefix| + |errors[name]| + 1 && e[..|ErrorPrefix|] == ErrorPrefix
            && e[|ErrorPrefix|..|e| - 1] == errors[name])
      && (name !in errors ==>
            |e| == 10 + |BaseName(name)| + 5 && e[..10] == "Converted "
            && e[10..|e| - 1] == BaseName(name) + "." + Extension(format))
  {
  }

  /** The lines of the conversion loop, one per file, in listing order. */
  function FileEntries(names: seq<string>, format: Format, errors: map<string, string>): (r: seq<string>)
    requires forall i :: 0 <= i < |names| ==> '.' in names[i]
    ensures |r| == |names|
  {
    if names == [] then []
    else [FileEntry(names[0], format, errors)] + FileEntries(names[1..], format, errors)
  }

  /** Line i of the loop belongs to file i: no file is skipped, whatever happened to earlier ones. */
  lemma {:induction false} FileEntriesAt(names: seq<string>, format: Format, errors: map<string, string>, i: nat)
    requires forall k :: 0 <= k < |names| ==> '.' in names[k]
    requires i < |names|
    ensures FileEntries(names, format, errors)[i] == FileEntry(names[i], format, errors)
  {
    if i > 0 {
      FileEntriesAt(names[1..], format, errors, i - 1);
    }
  }

  /**
   * A failure stays with its own file: line i is an error line exactly when
   * file i's run threw, so later files are still converted and reported.
   */
  lemma {:induction false} FailuresIsolated(names: seq<string>, format: Format, errors: map<string, string>)
    requires forall i :: 0 <= i < |names| ==> '.' in names[i]
    ensures forall i :: 0 <= i < |names| ==>
              (IsErrorEntry(FileEntries(names, format, errors)[i]) <==> names[i] in errors)
  {
    forall i | 0 <= i < |names|
      ensures IsErrorEntry(FileEntries(names, format, errors)[i]) <==> names[i] in errors
    {
      FileEntriesAt(names, format, errors, i);
      FileEntryIsError(names[i], format, errors);
    }
  }

  /** The transcoder commands, exactly one per file, in listing order. */
  function JobCommands(names: seq<string>, absDir: string, sep: string, format: Format, destDir: string)
    : (r: seq<seq<string>>)
    requires forall i :: 0 <= i < |names| ==> '.' in names[i]
    ensures |r| == |names|
  {
    if names == [] then []
    else [JobCommand(absDir, sep, names[0], format, destDir)] + JobCommands(names[1..], absDir, sep, format, destDir)
  }

  /** Command i is the transcoder run for file i: exactly one per file, in listing order. */
  lemma {:induction false} JobCommandsAt(names: seq<string>, absDir: string, sep: string, format: Format, destDir: string, i: nat)
    requires forall k :: 0 <= k < |names| ==> '.' in names[k]
    requires i < |names|
    ensures JobCommands(names, absDir, sep, format, destDir)[i] == JobCommand(absDir, sep, names[i], format, destDir)
  {
    if i > 0 {
      JobCommandsAt(names[1..], absDir, sep, format, destDir, i - 1);
    }
  }

  lemma {:induction false} FileEntriesAppend(a: seq<string>, b: seq<string>, format: Format, errors: map<string, string>)
    requires forall i :: 0 <= i < |a| ==> '.' in a[i]
    requires forall i :: 0 <= i < |b| ==> '.' in b[i]
    ensures forall i :: 0 <= i < |a + b| ==> '.' in (a + b)[i]
    ensures FileEntries(a + b, format, errors) == FileEntries(a, format, errors) + FileEntries(b, format, errors)
  {
    if a == [] {
      assert a + b == b;
    } else {
      assert (a + b)[1..] == a[1..] + b;
      FileEntriesAppend(a[1..], b, format, errors);
      assert (a + b)[0] == a[0];
    }
  }

  lemma {:induction false} JobCommandsAppend(a: seq<string>, b: seq<string>, absDir: string, sep: string, format: Format, destDir: string)
    requires forall i :: 0 <= i < |a| ==> '.' in a[i]
    requires forall i :: 0 <= i < |b| ==> '.' in b[i]
    ensures forall i :: 0 <= i < |a + b| ==> '.' in (a + b)[i]
    ensures JobCommands(a + b, absDir, sep, format, destDir)
         == JobCommands(a, absDir, sep, format, destDir) + JobCommands(b, absDir, sep, format, destDir)
  {
    if a == [] {
      assert a + b == b;
    } else {
      var head := [JobCommand(absDir, sep, a[0], format, destDir)];
      assert (a + b)[1..] == a[1..] + b;
      assert (a + b)[0] == a[0];
      JobCommandsAppend(a[1..], b, absDir, sep, format, destDir);
      calc {
        JobCommands(a + b, absDir, sep, format, destDir);
        head + JobCommands(a[1..] + b, absDir, sep, format, destDir);
        head + (JobCommands(a[1..], absDir, sep, format, destDir) + JobCommands(b, absDir, sep, format, destDir));
        { Regroup(head, JobCommands(a[1..], absDir, sep, format, destDir), JobCommands(b, absDir, sep, format, destDir)); }
        JobCommands(a, absDir, sep, format, destDir) + JobCommands(b, absDir, sep, format, destDir);
      }
    }
  }

  lemma Regroup<T>(a: seq<T>, b: seq<T>, c: seq<T>)
    ensures a + (b + c) == a + b + c
  {
  }

  /** One more file processed: its line follows the lines of the files before it. */
  lemma {:induction false} FileEntriesSnoc(files: seq<string>, i: nat, format: Format, errors: map<string, string>)
    requires i < |files|
    requires forall k :: 0 <= k < |files| ==> '.' in files[k]
    ensures FileEntries(files[..i + 1], format, errors)
         == FileEntries(files[..i], format, errors) + [FileEntry(files[i], format, errors)]
  {
    assert files[..i + 1] == files[..i] + [files[i]];
    FileEntriesAppend(files[..i], [files[i]], format, errors);
  }

  /** One more file processed: its command follows the commands of the files before it. */
  lemma {:induction false} JobCommandsSnoc(files: seq<string>, i: nat, absDir: string, sep: string, format: Format, destDir: string)
    requires i < |files|
    requires forall k :: 0 <= k < |files| ==> '.' in files[k]
    ensures JobCommands(files[..i + 1], absDir, sep, format, destDir)
         == JobCommands(files[..i], absDir, sep, format, destDir) + [JobCommand(absDir, sep, files[i], format, destDir)]
  {
    assert files[..i + 1] == files[..i] + [files[i]];
    JobCommandsAppend(files[..i], [files[i]], absDir, sep, format, destDir);
  }

  /**
   * Everything convertFiles logs: the start line; then, unless the listing
   * is null, one line per kept file and the closing line.
   */
  function ConvertLog(listing: Option<seq<string>>, format: Format, errors: map<string, string>): (r: seq<string>)
    ensures |r| >= 1 && r[0] == ConversionStartLine(format)
    ensures listing.None? ==> r == [ConversionStartLine(format)]
    ensures listing.Some? ==>
              && |r| == |FilterContainers(listing.value)| + 2
              && r[|r| - 1] == DoneLine
  {
    match listing
    case None => [ConversionStartLine(format)]
    case Some(names) =>
      [ConversionStartLine(format)] + FileEntries(FilterContainers(names), format, errors) + [DoneLine]
  }

  /** Every command convertFiles hands to ProcessBuilder; none when the listing is null. */
  function ConvertIssued(listing: Option<seq<string>>, absDir: string, sep: string, format: Format, destDir: string)
    : (r: seq<seq<string>>)
    ensures listing.None? ==> r == []
    ensures listing.Some? ==> r == JobCommands(FilterContainers(listing.value), absDir, sep, format, destDir)
  {
    match listing
    case None => []
    case Some(names) => JobCommands(FilterContainers(names), absDir, sep, format, destDir)
  }

  /** No per-file line is the closing line: each starts with 'C', the closing line with 'A'. */
  lemma {:induction false} DoneNotAFileEntry(names: seq<string>, format: Format, errors: map<string, string>)
    requires forall k :: 0 <= k < |names| ==> '.' in names[k]
    ensures DoneLine !in FileEntries(names, format, errors)
  {
    if names != [] {
      FileEntryIsError(names[0], format, errors);
      assert DoneLine[0] == 'A';
      DoneNotAFileEntry(names[1..], format, errors);
    }
  }

  /**
   * For an existing listing, "All conversions done." is the last line and
   * appears nowhere before it; for a null listing it does not appear at all.
   */
  lemma {:induction false} DoneLoggedOnce(listing: Option<seq<string>>, format: Format, errors: map<string, string>)
    ensures var r := ConvertLog(listing, format, errors);
      && (listing.None? ==> DoneLine !in r)
      && (listing.Some? ==> r[|r| - 1] == DoneLine && DoneLine !in r[..|r| - 1])
  {
    var start := ConversionStartLine(format);
    assert start != DoneLine by {
      assert start[0] == 'S' && DoneLine[0] == 'A';
    }
    if listing.Some? {
      var files := FilterContainers(listing.value);
      var r := ConvertLog(listing, format, errors);
      DoneNotAFileEntry(files, format, errors);
      assert r[..|r| - 1] == [start] + FileEntries(files, format, errors);
    }
  }

  /** The downloader's output, one log entry per line, newline restored. */
  function OutputEntries(lines: seq<string>): (r: seq<string>)
    ensures |r| == |lines|
    ensures forall i :: 0 <= i < |lines| ==> r[i] == lines[i] + "\n"
  {
    if lines == [] then [] else [lines[0] + "\n"] + OutputEntries(lines[1..])
  }

  lemma {:induction false} OutputEntriesAppend(a: seq<string>, b: seq<string>)
    ensures OutputEntries(a + b) == OutputEntries(a) + OutputEntries(b)
  {
  }

  /**
   * The download thread's log: the output lines, then either the read
   * error or "Download finished." followed, when conversion was requested,
   * by convertFiles' lines. The reader is closed only after convertFiles has
   * returned; an IOException from that close is logged last. When reading
   * already failed, a failing close is suppressed behind the read error.
   */
  function ThreadLog(request: Request, output: seq<string>, readError: Option<string>, closeError: Option<string>,
                     listing: Option<seq<string>>, errors: map<string, string>): (r: seq<string>)
    ensures |r| > |output| && r[..|output|] == OutputEntries(output)
    ensures readError.Some? ==> r == OutputEntries(output) + ["Error: " + readError.value + "\n"]
    ensures readError.None? ==> r[|output|] == DownloadFinishedLine
    ensures readError.None? && closeError.Some? ==> r[|r| - 1] == "Error: " + closeError.value + "\n"
    ensures readError.None? && request.conversion.None? ==>
              |r| == |output| + 1 + (if closeError.Some? then 1 else 0)
  {
    var lines := OutputEntries(output);
    if readError.Some? then
      lines + ["Error: " + readError.value + "\n"]
    else
      var conversion :=
        if request.conversion.None? then [] else ConvertLog(listing, request.conversion.value.format, errors);
      var closing := if closeError.Some? then ["Error: " + closeError.value + "\n"] else [];
      var r := lines + [DownloadFinishedLine] + conversion + closing;
      assert r[..|output|] == lines;
      r
  }

  /**
   * The transcoder commands the download thread issues: none unless
   * conversion was requested, reading the output did not fail and the
   * listing is not null; then one per kept file, in listing order.
   */
  function ThreadIssued(request: Request, readError: Option<string>, absDir: string, sep: string,
                        listing: Option<seq<string>>): (r: seq<seq<string>>)
    ensures r != [] ==> request.conversion.Some? && readError.None? && listing.Some?
    ensures request.conversion.Some? && readError.None? && listing.Some? ==>
              |r| == |FilterContainers(listing.value)|
  {
    if readError.None? && request.conversion.Some? then
      var c := request.conversion.value;
      ConvertIssued(listing, absDir, sep, c.format, c.destDir)
    else []
  }

  /**
   * Whatever the download thread hands to the OS is a transcoder run
   * ["ffmpeg", "-i", source, destination] on one of the kept files.
   */
  lemma {:induction false} ThreadIssuedTranscoderOnly(request: Request, readError: Option<string>, absDir: string,
                                                      sep: string, listing: Option<seq<string>>, i: nat)
    requires i < |ThreadIssued(request, readError, absDir, sep, listing)|
    ensures var r := ThreadIssued(request, readError, absDir, sep, listing);
      && listing.Some? && i < |FilterContainers(listing.value)|
      && |r[i]| == 4 && r[i][0] == "ffmpeg" && r[i][1] == "-i"
      && r[i][2] == absDir + sep + FilterContainers(listing.value)[i]
  {
    var files := FilterContainers(listing.value);
    var c := request.conversion.value;
    JobCommandsAt(files, absDir, sep, c.format, c.destDir, i);
  }
}
