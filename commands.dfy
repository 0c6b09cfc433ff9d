/**
 * The pure part of VDMasterUI's handlers: validating the form when Start is
 * pressed, choosing the target format, building the downloader's argument
 * list, and deriving, for each downloaded file, the transcoder's argument
 * list and destination path.
 */
module Commands {
  import opened Wrappers
  import opened JavaText

  // ---------------------------------------------------------------------
  // Target format
  // ---------------------------------------------------------------------

  /** The three "Convert all to ..." radio buttons. */
  datatype Format = M4a | Mp3 | Wav

  /** The extension string the code hands to the transcoder's output name. */
  function Extension(f: Format): string {
    match f
    case M4a => "m4a"
    case Mp3 => "mp3"
    case Wav => "wav"
  }

  /**
   * Distinct formats give distinct extensions, none of which contains a '.';
   * DestinationDeterminesFormat rests on this.
   */
  lemma ExtensionInjective(f: Format, g: Format)
    ensures Extension(f) == Extension(g) ==> f == g
    ensures '.' !in Extension(f)
  {
  }

  /**
   * The format read off the radio buttons, checked in the order m4a, mp3,
   * wav; None (the code's null) when none is selected.
   */
  function SelectFormat(m4a: bool, mp3: bool, wav: bool): (r: Option<Format>)
    ensures r.None? <==> !m4a && !mp3 && !wav
    ensures r == Some(M4a) <==> m4a
    ensures r == Some(Mp3) <==> !m4a && mp3
    ensures r == Some(Wav) <==> !m4a && !mp3 && wav
  {
    if m4a then Some(M4a)
    else if mp3 then Some(Mp3)
    else if wav then Some(Wav)
    else None
  }

  /** The radio buttons that select exactly the format f. */
  function RadiosFor(f: Format): (bool, bool, bool) {
    (f == M4a, f == Mp3, f == Wav)
  }

  /**
   * Within a button group at most one radio is on, and then the precedence
   * order does not matter: the selected button's format is the one chosen.
   */
  lemma SelectFormatOfGroup(f: Format)
    ensures var (a, b, c) := RadiosFor(f); SelectFormat(a, b, c) == Some(f)
  {
  }

  // ---------------------------------------------------------------------
  // Validation of the form (onStart)
  // ---------------------------------------------------------------------

  /** The raw contents of the window's inputs when Start is pressed. */
  datatype Form = Form(
    urlText: string,
    dirText: string,
    convert: bool,
    m4a: bool,
    mp3: bool,
    wav: bool,
    convDirText: string)

  /** What a conversion needs: the format and the directory for converted files. */
  datatype Conversion = Conversion(format: Format, destDir: string)

  /**
   * An accepted request. conversion is None exactly when the
   * "Need Conversion?" box is off (the code's ext and convDir are null).
   */
  datatype Request = Request(url: string, dir: string, conversion: Option<Conversion>)

  /** The two error dialogs of onStart. */
  datatype Rejection = MissingUrlOrDirectory | MissingFormatOrDirectory

  /** The text each error dialog shows; the two dialogs are told apart by it. */
  function DialogMessage(rejection: Rejection): (r: string)
    ensures r != []
    ensures r == "URL and directory must be specified." <==> rejection == MissingUrlOrDirectory
    ensures r == "Select conversion format and directory." <==> rejection == MissingFormatOrDirectory
  {
    match rejection
    case MissingUrlOrDirectory => "URL and directory must be specified."
    case MissingFormatOrDirectory => "Select conversion format and directory."
  }

  /** A request of the kind validation produces: trimmed, non-empty fields. */
  predicate ValidRequest(req: Request) {
    && req.url != [] && Trim(req.url) == req.url
    && req.dir != [] && Trim(req.dir) == req.dir
    && (req.conversion.Some? ==>
          req.conversion.value.destDir != [] && Trim(req.conversion.value.destDir) == req.conversion.value.destDir)
  }

  /**
   * onStart's checks, in the code's order: first the trimmed URL and save
   * directory, then, when conversion is on, the format and the trimmed
   * conversion directory.
   */
  function Validate(f: Form): (r: Result<Request, Rejection>)
    ensures r == Err(MissingUrlOrDirectory) <==> Trim(f.urlText) == [] || Trim(f.dirText) == []
    ensures r == Err(MissingFormatOrDirectory) <==>
              && Trim(f.urlText) != [] && Trim(f.dirText) != [] && f.convert
              && (SelectFormat(f.m4a, f.mp3, f.wav).None? || Trim(f.convDirText) == [])
    ensures r.Ok? ==> r.value.url == Trim(f.urlText) && r.value.dir == Trim(f.dirText)
    ensures r.Ok? ==> (r.value.conversion.Some? <==> f.convert)
    ensures r.Ok? && f.convert ==>
              r.value.conversion == Some(Conversion(SelectFormat(f.m4a, f.mp3, f.wav).value, Trim(f.convDirText)))
  {
    var url := Trim(f.urlText);
    var dir := Trim(f.dirText);
    if url == [] || dir == [] then Err(MissingUrlOrDirectory)
    else if !f.convert then Ok(Request(url, dir, None))
    else
      var format := SelectFormat(f.m4a, f.mp3, f.wav);
      var convDir := Trim(f.convDirText);
      if format.None? || convDir == [] then Err(MissingFormatOrDirectory)
      else Ok(Request(url, dir, Some(Conversion(format.value, convDir))))
  }

  /** Every request validation accepts is trimmed and has no empty field. */
  lemma ValidateYieldsValid(f: Form)
    ensures Validate(f).Ok? ==> ValidRequest(Validate(f).value)
  {
  }

  /** A form filled in from a request, with the matching radio button on. */
  function FormOf(req: Request): Form {
    match req.conversion
    case None => Form(req.url, req.dir, false, false, false, false, "")
    case Some(c) =>
      var (a, b, d) := RadiosFor(c.format);
      Form(req.url, req.dir, true, a, b, d, c.destDir)
  }

  /** Validation accepts exactly the request a valid request's form describes. */
  lemma ValidateFormOf(req: Request)
    requires ValidRequest(req)
    ensures Validate(FormOf(req)) == Ok(req)
  {
  }

  // ---------------------------------------------------------------------
  // Download command
  // ---------------------------------------------------------------------

  /** The downloader's own title/extension substitution for the output file. */
  const OutputTemplate: string := "%(title)s.%(ext)s"

  /** The downloader's argument list: the tool, -o, the output template under dir, then the URL. */
  function DownloadCommand(dir: string, url: string, sep: string): (r: seq<string>)
    ensures |r| == 4 && r[0] == "yt-dlp" && r[1] == "-o" && r[3] == url
    ensures r[2] == dir + sep + OutputTemplate
  {
    ["yt-dlp", "-o", dir + sep + OutputTemplate, url]
  }

  /**
   * The command determines the directory and the URL it was built from, so
   * the downloader invocation a Start issues records the whole request.
   */
  lemma {:induction false} DownloadCommandInjective(dir1: string, url1: string, dir2: string, url2: string, sep: string)
    requires DownloadCommand(dir1, url1, sep) == DownloadCommand(dir2, url2, sep)
    ensures dir1 == dir2 && url1 == url2
  {
    var p1, p2 := dir1 + sep + OutputTemplate, dir2 + sep + OutputTemplate;
    assert p1 == p2;
    assert |dir1| == |dir2|;
    assert dir1 == p1[..|dir1|] == p2[..|dir2|] == dir2;
  }

  // ---------------------------------------------------------------------
  // Conversion jobs (convertFiles)
  // ---------------------------------------------------------------------

  /** The listFiles filter: names ending, case-sensitively, in .mp4, .mkv or .webm. */
  predicate IsContainerName(name: string) {
    EndsWith(name, ".mp4") || EndsWith(name, ".mkv") || EndsWith(name, ".webm")
  }

  /** The listing with the filter applied, in listing order. */
  function FilterContainers(names: seq<string>): (r: seq<string>)
    ensures |r| <= |names|
    ensures forall i :: 0 <= i < |r| ==> IsContainerName(r[i]) && '.' in r[i]
  {
    if names == [] then []
    else
      var rest := FilterContainers(names[1..]);
      assert names == [names[0]] + names[1..];
      if IsContainerName(names[0]) then
        ContainerSplit(names[0]);
        [names[0]] + rest
      else rest
  }

  /**
   * The filter keeps every occurrence of every container name and nothing
   * else: a name occurs in the result as often as in the listing when it ends
   * in a container extension, and not at all otherwise.
   */
  lemma {:induction false} FilterContainersCounts(names: seq<string>, x: string)
    ensures multiset(FilterContainers(names))[x] == if IsContainerName(x) then multiset(names)[x] else 0
  {
    if names != [] {
      FilterContainersCounts(names[1..], x);
      assert names == [names[0]] + names[1..];
    }
  }

  /** Filtering a listing piece by piece keeps the listing's order. */
  lemma {:induction false} FilterContainersAppend(a: seq<string>, b: seq<string>)
    ensures FilterContainers(a + b) == FilterContainers(a) + FilterContainers(b)
  {
    if a == [] {
      assert a + b == b;
    } else {
      assert (a + b)[1..] == a[1..] + b;
      FilterContainersAppend(a[1..], b);
    }
  }

  /**
   * substring(0, lastIndexOf('.')): the name with only its last extension
   * segment removed.
   */
  function BaseName(name: string): (r: string)
    requires '.' in name
    ensures |r| < |name| && name[..|r|] == r && name[|r|] == '.'
    ensures '.' !in name[|r| + 1..]
  {
    var k := LastIndexOf(name, '.');
    name[..k]
  }

  /** A name is its base name, a '.', and a last segment without '.'. */
  lemma BaseNameSplit(name: string)
    requires '.' in name
    ensures var b := BaseName(name); name == b + "." + name[|b| + 1..] && '.' !in name[|b| + 1..]
  {
  }

  /** Stripping the last segment of base + "." + ext gives back base, whatever dots base holds. */
  lemma {:induction false} BaseNameOfJoin(base: string, ext: string)
    requires '.' !in ext
    ensures '.' in base + "." + ext
    ensures BaseName(base + "." + ext) == base
  {
    var name := base + "." + ext;
    assert name[|base|] == '.';
    var k := LastIndexOf(name, '.');
    assert k >= |base|;
  }

  /**
   * Every name the filter keeps contains a '.', so the base name is defined,
   * and the segment it strips is one of the three container extensions.
   */
  lemma {:induction false} ContainerSplit(name: string)
    requires IsContainerName(name)
    ensures '.' in name
    ensures name[|BaseName(name)| + 1..] in {"mp4", "mkv", "webm"}
  {
    var ext :=
      if EndsWith(name, ".mp4") then "mp4"
      else if EndsWith(name, ".mkv") then "mkv"
      else "webm";
    var base := name[..|name| - |ext| - 1];
    assert name == base + "." + ext;
    BaseNameOfJoin(base, ext);
  }

  /**
   * destDir + separator + base + "." + ext: the directory part comes first,
   * the base in the middle, and the path ends in the format's extension.
   */
  function Destination(destDir: string, sep: string, base: string, format: Format): (r: string)
    ensures |r| == |destDir| + |sep| + |base| + 4
    ensures r[..|destDir| + |sep|] == destDir + sep
    ensures r[|destDir| + |sep|..|destDir| + |sep| + |base|] == base
    ensures r[|r| - 4..] == "." + Extension(format)
  {
    destDir + sep + base + "." + Extension(format)
  }

  /**
   * Files with different base names get different destinations;
   * JobDestinationsCollide rests on this.
   */
  lemma {:induction false} DestinationInjective(destDir: string, sep: string, b1: string, b2: string, format: Format)
    requires Destination(destDir, sep, b1, format) == Destination(destDir, sep, b2, format)
    ensures b1 == b2
  {
    var d1, d2 := Destination(destDir, sep, b1, format), Destination(destDir, sep, b2, format);
    var pre := |destDir + sep|;
    assert |b1| == |b2|;
    assert b1 == d1[pre..pre + |b1|] == d2[pre..pre + |b2|] == b2;
  }

  /**
   * Two listed files that differ only in their container extension share
   * one destination: "clip.mp4" and "clip.mkv" both become clip.<ext>.
   */
  lemma SameBaseSameDestination(destDir: string, sep: string, base: string, format: Format)
    ensures '.' in base + ".mp4" && '.' in base + ".mkv"
    ensures Destination(destDir, sep, BaseName(base + ".mp4"), format)
         == Destination(destDir, sep, BaseName(base + ".mkv"), format)
  {
    assert base + ".mp4" == base + "." + "mp4";
    assert base + ".mkv" == base + "." + "mkv";
    BaseNameOfJoin(base, "mp4");
    BaseNameOfJoin(base, "mkv");
  }

  /** "movie.2024.mkv" converted to mp3 lands at destDir + sep + "movie.2024.mp3". */
  lemma DestinationExample(destDir: string, sep: string)
    ensures '.' in "movie.2024.mkv"
    ensures Destination(destDir, sep, BaseName("movie.2024.mkv"), Mp3) == destDir + sep + "movie.2024.mp3"
  {
  }

  /** The transcoder's argument list for one file. */
  function ConvertCommand(source: string, dest: string): (r: seq<string>)
    ensures |r| == 4 && r[0] == "ffmpeg" && r[1] == "-i" && r[2] == source && r[3] == dest
  {
    ["ffmpeg", "-i", source, dest]
  }

  /**
   * The command for one listed file: its absolute path (the listed
   * directory's absolute path, the separator, the name) as input, and the
   * destination built from its base name.
   */
  function JobCommand(absDir: string, sep: string, name: string, format: Format, destDir: string): (r: seq<string>)
    requires '.' in name
    ensures |r| == 4 && r[0] == "ffmpeg" && r[1] == "-i" && r[2] == absDir + sep + name
    ensures r[3] == destDir + sep + BaseName(name) + "." + Extension(format)
  {
    ConvertCommand(absDir + sep + name, Destination(destDir, sep, BaseName(name), format))
  }

  /**
   * Two files of one batch are sent to the same output path exactly when
   * their base names agree; convertFiles does not check for this, so
   * "clip.mp4" and "clip.mkv" are both converted onto one path.
   */
  lemma {:induction false} JobDestinationsCollide(absDir: string, sep: string, n1: string, n2: string,
                                                  format: Format, destDir: string)
    requires '.' in n1 && '.' in n2
    ensures JobCommand(absDir, sep, n1, format, destDir)[3] == JobCommand(absDir, sep, n2, format, destDir)[3]
            <==> BaseName(n1) == BaseName(n2)
  {
    if JobCommand(absDir, sep, n1, format, destDir)[3] == JobCommand(absDir, sep, n2, format, destDir)[3] {
      DestinationInjective(destDir, sep, BaseName(n1), BaseName(n2), format);
    }
  }

  /** The destination path also tells which format was selected. */
  lemma {:induction false} DestinationDeterminesFormat(destDir: string, sep: string, base: string, f: Format, g: Format)
    requires Destination(destDir, sep, base, f) == Destination(destDir, sep, base, g)
    ensures f == g
  {
    var d1, d2 := Destination(destDir, sep, base, f), Destination(destDir, sep, base, g);
    var pre := |destDir + sep + base + "."|;
    assert Extension(f) == d1[pre..] == d2[pre..] == Extension(g);
    ExtensionInjective(f, g);
  }
}
