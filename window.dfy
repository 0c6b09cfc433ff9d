/**
 * The window's handlers with the Swing and process calls lifted out:
 * the Start/Stop guard on the single download process, the download
 * thread's body and convertFiles' loop, over a log of appended texts and
 * the list of command lines handed to ProcessBuilder.
 */
module Window {
  import opened Wrappers
  import opened JavaText
  import opened Commands
  import opened Transcript

  const AlreadyRunningLine: string := "Process already running...\n"
  const StoppedLine: string := "Process stopped.\n"
  const NoProcessLine: string := "No active process.\n"

  /** What pressing Start leads to. */
  datatype StartOutcome =
    | AlreadyRunning                                   // a download is alive: nothing else happens
    | Rejected(reason: Rejection)                      // an error dialog; nothing is launched
    | LaunchFailed(command: seq<string>, message: string)  // ProcessBuilder.start threw
    | Launched(command: seq<string>, request: Request) // the download process is running

  /**
   * onStart's decision, given whether a download is alive, the form, the
   * separator and the exception message, if any, that starting the
   * downloader raises.
   */
  function DecideStart(alive: bool, form: Form, sep: string, launchError: Option<string>): (r: StartOutcome)
    ensures r.AlreadyRunning? <==> alive
    ensures r.Rejected? <==> !alive && Validate(form).Err?
    ensures r.Rejected? ==> Validate(form) == Err(r.reason)
    ensures r.Launched? <==> !alive && Validate(form).Ok? && launchError.None?
    ensures r.Launched? ==> r.request == Validate(form).value && ValidRequest(r.request)
    ensures r.LaunchFailed? ==> launchError == Some(r.message)
    ensures r.Launched? || r.LaunchFailed? ==>
              r.command == DownloadCommand(Trim(form.dirText), Trim(form.urlText), sep)
  {
    if alive then AlreadyRunning
    else
      match Validate(form)
      case Err(reason) => Rejected(reason)
      case Ok(req) =>
        var command := DownloadCommand(req.dir, req.url, sep);
        match launchError
        case Some(message) => LaunchFailed(command, message)
        case None =>
          ValidateYieldsValid(form);
          Launched(command, req)
  }

  /** The log entries onStart appends; a rejection shows a dialog and logs nothing. */
  function StartLog(outcome: StartOutcome): (r: seq<string>)
    ensures |r| <= 1
    ensures r == [] <==> outcome.Rejected?
  {
    match outcome
    case AlreadyRunning => [AlreadyRunningLine]
    case Rejected(_) => []
    case LaunchFailed(_, message) => ["Failed to start: " + message + "\n"]
    case Launched(_, _) => [DownloadStartedLine]
  }

  /** The command lines onStart hands to ProcessBuilder.start. */
  function StartIssued(outcome: StartOutcome): (r: seq<seq<string>>)
    ensures |r| <= 1
    ensures r != [] <==> outcome.Launched? || outcome.LaunchFailed?
    ensures r != [] ==> r[0] == outcome.command
  {
    if outcome.Launched? || outcome.LaunchFailed? then [outcome.command] else []
  }

  /**
   * Start hands a command to the OS exactly when no download is alive and
   * the form passes validation, and that command is the downloader's, with
   * the trimmed URL as its last token.
   */
  lemma {:induction false} StartIssuesOnlyValidDownload(alive: bool, form: Form, sep: string, launchError: Option<string>)
    ensures var issued := StartIssued(DecideStart(alive, form, sep, launchError));
      && (issued != [] <==> !alive && Trim(form.urlText) != [] && Trim(form.dirText) != []
                            && (form.convert ==> SelectFormat(form.m4a, form.mp3, form.wav).Some? && Trim(form.convDirText) != []))
      && (issued != [] ==> |issued| == 1 && issued[0] == DownloadCommand(Trim(form.dirText), Trim(form.urlText), sep))
      && (issued != [] ==> issued[0][3] == Trim(form.urlText) && issued[0][3] != [])
  {
  }

  /**
   * When the "Need Conversion?" box is off, no run of Start and of the
   * download thread it spawns ever hands a transcoder command to the OS.
   */
  lemma {:induction false} NoConversionUnlessRequested(form: Form, sep: string, readError: Option<string>,
                                                       absDir: string, listing: Option<seq<string>>)
    requires !form.convert
    ensures var d := DecideStart(false, form, sep, None);
      d.Launched? ==> ThreadIssued(d.request, readError, absDir, sep, listing) == []
  {
  }

  /** Regrouping appends to a log, stated once for any element type. */
  lemma Regroup3<T>(a: seq<T>, b: seq<T>, c: seq<T>)
    ensures a + b + c == a + (b + c)
  {
  }

  lemma Regroup4<T>(a: seq<T>, b: seq<T>, c: seq<T>, d: seq<T>)
    ensures a + b + c + d == a + (b + c + d)
  {
  }

  lemma Regroup5<T>(a: seq<T>, b: seq<T>, c: seq<T>, d: seq<T>, e: seq<T>)
    ensures a + b + c + d + e == a + (b + c + d + e)
  {
  }

  /**
   * The window's state: whether the download process is alive, how many
   * times destroy() was called on it, the log, and every command line handed
   * to ProcessBuilder.start, in order.
   */
  class VdMaster {
    var downloadAlive: bool
    var destroyRequests: nat
    var log: seq<string>
    var issued: seq<seq<string>>

    constructor ()
      ensures !downloadAlive && destroyRequests == 0 && log == [] && issued == []
    {
      downloadAlive := false;
      destroyRequests := 0;
      log := [];
      issued := [];
    }

    /** onStart: refuse while a download is alive, validate, then launch the downloader. */
    method Start(form: Form, sep: string, launchError: Option<string>) returns (outcome: StartOutcome)
      modifies this
      ensures outcome == DecideStart(old(downloadAlive), form, sep, launchError)
      ensures downloadAlive == (old(downloadAlive) || outcome.Launched?)
      ensures destroyRequests == old(destroyRequests)
      ensures log == old(log) + StartLog(outcome)
      ensures issued == old(issued) + StartIssued(outcome)
    {
      if downloadAlive {
        log := log + [AlreadyRunningLine];
        return AlreadyRunning;
      }
      var validated := Validate(form);
      if validated.Err? {
        return Rejected(validated.error);
      }
      var request := validated.value;
      var command := DownloadCommand(request.dir, request.url, sep);
      assert DecideStart(false, form, sep, launchError)
          == if launchError.Some? then LaunchFailed(command, launchError.value) else Launched(command, request);
      issued := issued + [command];
      match launchError {
        case Some(message) =>
          log := log + ["Failed to start: " + message + "\n"];
          outcome := LaunchFailed(command, message);
        case None =>
          downloadAlive := true;
          log := log + [DownloadStartedLine];
          outcome := Launched(command, request);
      }
    }

    /**
     * onStop: destroy the download process only when it is alive. destroy()
     * only asks the process to end; it stays alive until it exits.
     */
    method Stop()
      modifies this
      ensures downloadAlive == old(downloadAlive)
      ensures destroyRequests == old(destroyRequests) + (if old(downloadAlive) then 1 else 0)
      ensures log == old(log) + [if old(downloadAlive) then StoppedLine else NoProcessLine]
      ensures issued == old(issued)
    {
      if downloadAlive {
        destroyRequests := destroyRequests + 1;
        log := log + [StoppedLine];
      } else {
        log := log + [NoProcessLine];
      }
    }

    /** The download process has exited (on its own or after destroy()). */
    method DownloadExited()
      modifies this
      ensures !downloadAlive
      ensures destroyRequests == old(destroyRequests) && log == old(log) && issued == old(issued)
    {
      downloadAlive := false;
    }

    /** The thread's read loop: append every line the downloader printed, in order. */
    method LogOutput(output: seq<string>)
      modifies this
      ensures log == old(log) + OutputEntries(output)
      ensures issued == old(issued)
      ensures downloadAlive == old(downloadAlive) && destroyRequests == old(destroyRequests)
    {
      var i := 0;
      while i < |output|
        invariant 0 <= i <= |output|
        invariant log == old(log) + OutputEntries(output[..i])
        invariant issued == old(issued)
        invariant downloadAlive == old(downloadAlive) && destroyRequests == old(destroyRequests)
      {
        log := log + [output[i] + "\n"];
        assert output[..i + 1] == output[..i] + [output[i]];
        OutputEntriesAppend(output[..i], [output[i]]);
        i := i + 1;
      }
      assert output[..i] == output;
    }

    /**
     * The body of the thread Start spawns: log each output line, then the
     * read error, or "Download finished." and, when conversion was
     * requested, convertFiles over the save directory; closing the reader
     * afterwards may fail, and that error is logged last.
     */
    method RunDownload(request: Request, sep: string, output: seq<string>, readError: Option<string>,
                       closeError: Option<string>, absDir: string, listing: Option<seq<string>>,
                       errors: map<string, string>)
      modifies this
      ensures log == old(log) + ThreadLog(request, output, readError, closeError, listing, errors)
      ensures issued == old(issued) + ThreadIssued(request, readError, absDir, sep, listing)
      ensures downloadAlive == old(downloadAlive) && destroyRequests == old(destroyRequests)
    {
      LogOutput(output);
      ghost var lines := OutputEntries(output);
      if readError.Some? {
        log := log + ["Error: " + readError.value + "\n"];
        Regroup3(old(log), lines, ["Error: " + readError.value + "\n"]);
        return;
      }
      log := log + [DownloadFinishedLine];
      ghost var conversion: seq<string> := [];
      if request.conversion.Some? {
        var c := request.conversion.value;
        ConvertFiles(absDir, sep, c.format, c.destDir, listing, errors);
        conversion := ConvertLog(listing, c.format, errors);
      }
      var closing: seq<string> := [];
      if closeError.Some? {
        closing := ["Error: " + closeError.value + "\n"];
        log := log + closing;
      }
      Regroup5(old(log), lines, [DownloadFinishedLine], conversion, closing);
    }

    /**
     * One pass of convertFiles' loop: issue the transcoder command for the
     * file, then log "Converted <base>.<ext>" or the exception's message.
     */
    method ConvertOne(absDir: string, sep: string, name: string, format: Format, destDir: string,
                      errors: map<string, string>)
      requires '.' in name
      modifies this
      ensures log == old(log) + [FileEntry(name, format, errors)]
      ensures issued == old(issued) + [JobCommand(absDir, sep, name, format, destDir)]
      ensures downloadAlive == old(downloadAlive) && destroyRequests == old(destroyRequests)
    {
      var base := BaseName(name);
      issued := issued + [ConvertCommand(absDir + sep + name, Destination(destDir, sep, base, format))];
      if name in errors {
        log := log + ["Conversion error: " + errors[name] + "\n"];
      } else {
        log := log + ["Converted " + base + "." + Extension(format) + "\n"];
      }
    }

    /** convertFiles' for loop over the files the filter kept, in order. */
    method ConvertEach(absDir: string, sep: string, files: seq<string>, format: Format, destDir: string,
                       errors: map<string, string>)
      requires forall k :: 0 <= k < |files| ==> '.' in files[k]
      modifies this
      ensures log == old(log) + FileEntries(files, format, errors)
      ensures issued == old(issued) + JobCommands(files, absDir, sep, format, destDir)
      ensures downloadAlive == old(downloadAlive) && destroyRequests == old(destroyRequests)
    {
      var i := 0;
      while i < |files|
        invariant 0 <= i <= |files|
        invariant log == old(log) + FileEntries(files[..i], format, errors)
        invariant issued == old(issued) + JobCommands(files[..i], absDir, sep, format, destDir)
        invariant downloadAlive == old(downloadAlive) && destroyRequests == old(destroyRequests)
      {
        ConvertOne(absDir, sep, files[i], format, destDir, errors);
        FileEntriesSnoc(files, i, format, errors);
        JobCommandsSnoc(files, i, absDir, sep, format, destDir);
        i := i + 1;
      }
      assert files[..i] == files;
    }

    /**
     * convertFiles: over the filtered listing, in order, issue one transcoder
     * command per file and log its success or its exception, then log the
     * closing line; return right after the start line when the listing is
     * null. absDir is the absolute path of the listed directory.
     */
    method ConvertFiles(absDir: string, sep: string, format: Format, destDir: string,
                        listing: Option<seq<string>>, errors: map<string, string>)
      modifies this
      ensures log == old(log) + ConvertLog(listing, format, errors)
      ensures issued == old(issued) + ConvertIssued(listing, absDir, sep, format, destDir)
      ensures downloadAlive == old(downloadAlive) && destroyRequests == old(destroyRequests)
    {
      var start := ConversionStartLine(format);
      log := log + [start];
      if listing.None? {
        return;
      }
      var files := FilterContainers(listing.value);
      ConvertEach(absDir, sep, files, format, destDir, errors);
      log := log + [DoneLine];
      Regroup4(old(log), [start], FileEntries(files, format, errors), [DoneLine]);
    }
  }
}
