/** The batch converter `optimize_images` of optimize/main.py: which files of
    a directory listing are converted, under which output path and in which
    format, and the one outcome each conversion attempt reports.

    The image library is a parameter `codec` that says, for each job,
    whether opening and re-saving succeeded or which error it raised. The
    directory listing is a parameter too. */
module Optimize {
  import opened PyStr
  import opened PosixPath

  datatype Option<T> = None | Some(value: T)

  /** Python truthiness of an optional string argument: `None` and `""` are
      both false. */
  predicate Given(o: Option<string>) {
    o.Some? && o.value != ""
  }

  /** `OUTPUT_FORMAT_MAPPING`: the format names the image library expects. */
  const OutputFormatMapping: map<string, string> :=
    map["jpg" := "JPEG", "jpeg" := "JPEG", "png" := "PNG", "webp" := "WEBP"]

  /** Default of the `input_image_types` parameter. */
  const DefaultInputTypes: string := "jpg,png"

  /** A name `os.listdir` can return: non-empty, without a separator. */
  predicate ListdirName(n: string) {
    n != [] && Sep !in n
  }

  // ---------------------------------------------------------------------
  // Parsing the input types

  /** `[ext.strip().lower() for ext in input_image_types.split(",")]`. */
  function ParseInputTypes(inputImageTypes: string): seq<string> {
    var pieces := Split(inputImageTypes, ',');
    seq(|pieces|, k requires 0 <= k < |pieces| => Lower(Strip(pieces[k])))
  }

  /** What every parsed entry looks like: no comma, no upper-case letter, no
      whitespace at either end. */
  predicate NormalType(e: string) {
    && ',' !in e
    && NoUpper(e)
    && (e == [] || (!IsSpace(e[0]) && !IsSpace(e[|e| - 1])))
  }

  lemma StripKeepsOut(s: string, c: char)
    requires c !in s
    ensures c !in Strip(s)
  {
    var r := Strip(s);
    var i :| StrippedAt(s, r, i);
  }

  /** `lower()` of a string with no whitespace at its ends has none either. */
  lemma LowerKeepsEnds(t: string)
    requires t == [] || (!IsSpace(t[0]) && !IsSpace(t[|t| - 1]))
    ensures var e := Lower(t); e == [] || (!IsSpace(e[0]) && !IsSpace(e[|e| - 1]))
  {
    LowerFacts(t);
  }

  /** One entry per comma-separated piece, each entry in normal form. */
  lemma ParseInputTypesShape(inputImageTypes: string)
    ensures |ParseInputTypes(inputImageTypes)| == Count(inputImageTypes, ',') + 1
    ensures forall k :: 0 <= k < |ParseInputTypes(inputImageTypes)| ==>
              NormalType(ParseInputTypes(inputImageTypes)[k])
  {
    var pieces := Split(inputImageTypes, ',');
    var types := ParseInputTypes(inputImageTypes);
    forall k | 0 <= k < |types| ensures NormalType(types[k]) {
      var t := Strip(pieces[k]);
      StripKeepsOut(pieces[k], ',');
      LowerKeepsNonLetter(t, ',');
      LowerFacts(t);
      LowerKeepsEnds(t);
    }
  }

  /** A trailing comma adds one empty entry, which selects the files that
      have no extension. */
  lemma {:induction false} TrailingCommaAddsEmptyType(s: string)
    ensures ParseInputTypes(s + ",") == ParseInputTypes(s) + [""]
  {
    SplitAppendSep(s, ',');
    LowerAt("");
  }

  /** Splitting after appending a separator adds an empty last piece. */
  lemma {:induction false} SplitAppendSep(s: string, sep: char)
    ensures Split(s + [sep], sep) == Split(s, sep) + [""]
    decreases |s|
  {
    if s == [] {
      assert [sep][1..] == [];
    } else {
      assert (s + [sep])[1..] == s[1..] + [sep];
      SplitAppendSep(s[1..], sep);
    }
  }

  /** Parsing a comma-joined list of entries in normal form gives the list
      back. */
  lemma ParseOfJoinedTypes(types: seq<string>)
    requires |types| > 0
    requires forall k :: 0 <= k < |types| ==> NormalType(types[k])
    ensures ParseInputTypes(JoinWith(types, ',')) == types
  {
    SplitOfJoin(types, ',');
    forall k | 0 <= k < |types| ensures Lower(Strip(types[k])) == types[k] {
      StripFixpoint(types[k]);
      LowerOfLowercase(types[k]);
    }
  }

  // ---------------------------------------------------------------------
  // Per-file names and format

  /** `os.path.splitext(filename)[-1].lower().lstrip(".")`. */
  function InputExtension(filename: string): string {
    LStrip(Lower(SplitExt(filename).1), [ExtSep])
  }

  /** The extension is the lowercased text after the last dot that
      `splitext` splits at, or empty; it has no dot and no upper-case
      letter. */
  lemma InputExtensionShape(filename: string)
    ensures var raw := SplitExt(filename).1;
            InputExtension(filename) == if raw == "" then "" else Lower(raw[1..])
    ensures ExtSep !in InputExtension(filename) && NoUpper(InputExtension(filename))
  {
    var raw := SplitExt(filename).1;
    LowerFacts(raw);
    if raw != "" {
      var x := raw[1..];
      assert raw == [ExtSep] + x;
      LowerConcat([ExtSep], x);
      assert Lower([ExtSep]) == [ExtSep];
      LowerKeepsNonLetter(x, ExtSep);
      LowerFacts(x);
      var y := Lower(x);
      var r := LStrip([ExtSep] + y, [ExtSep]);
      assert ([ExtSep] + y)[0] == ExtSep;
      assert y != [] ==> ([ExtSep] + y)[1] == y[0] && y[0] != ExtSep;
      assert |r| == |y|;
      assert r == y;
    }
  }

  /** For a plain "root.ext" name the extension is the lowercased text after
      the dot. */
  lemma InputExtensionSimple(root: string, ext: string)
    requires root != [] && ExtSep !in root && Sep !in root
    requires ExtSep !in ext && Sep !in ext
    ensures SplitExt(root + [ExtSep] + ext).0 == root
    ensures InputExtension(root + [ExtSep] + ext) == Lower(ext)
  {
    SplitExtSimple(root, ext);
    InputExtensionShape(root + [ExtSep] + ext);
    assert ([ExtSep] + ext)[1..] == ext;
  }

  /** Without an output type, a plain "root.ext" name is written as the
      root, a dot and the lowercased extension. */
  lemma PlainNameOutput(root: string, ext: string)
    requires root != [] && ExtSep !in root && Sep !in root
    requires ExtSep !in ext && Sep !in ext
    ensures var n := root + [ExtSep] + ext;
            OutputFilename(n, OutputExtension(None, InputExtension(n))) == root + [ExtSep] + Lower(ext)
  {
    InputExtensionSimple(root, ext);
  }

  /** Line 45: the given output type, or else the file's own extension. */
  function OutputExtension(outputImageType: Option<string>, inputExt: string): string {
    if Given(outputImageType) then outputImageType.value else inputExt
  }

  /** Line 46: the root `splitext` leaves, a dot, and the output extension. */
  function OutputFilename(filename: string, outputExt: string): string {
    SplitExt(filename).0 + [ExtSep] + outputExt
  }

  /** Line 50: the table entry, or the uppercased extension. */
  function OutputFormat(outputExt: string): string {
    if outputExt in OutputFormatMapping then OutputFormatMapping[outputExt] else Upper(outputExt)
  }

  /** The table's entries, and two lookups that fall through it: the lookup
      is case-sensitive, so "JPG" is not mapped to "JPEG". */
  lemma OutputFormatExamples()
    ensures OutputFormat("jpg") == "JPEG" && OutputFormat("jpeg") == "JPEG"
    ensures OutputFormat("png") == "PNG" && OutputFormat("webp") == "WEBP"
    ensures OutputFormat("JPG") == "JPG" && OutputFormat("bmp") == "BMP"
  {
    UpperFacts("JPG");
    UpperAt("bmp");
  }

  /** Every format name is free of lower-case letters, and the table only
      matters for "jpg": every other extension maps to its uppercased form. */
  lemma OutputFormatIsUpper(outputExt: string)
    ensures NoLower(OutputFormat(outputExt))
    ensures outputExt != "jpg" ==> OutputFormat(outputExt) == Upper(outputExt)
    ensures OutputFormat("jpg") != Upper("jpg")
  {
    UpperFacts(outputExt);
    UpperOfKeys();
    if outputExt in OutputFormatMapping {
      assert outputExt == "jpg" || outputExt == "jpeg" || outputExt == "png" || outputExt == "webp";
    }
  }

  /** What `upper()` makes of the table's keys. */
  lemma UpperOfKeys()
    ensures Upper("jpg") == "JPG" && Upper("jpeg") == "JPEG"
    ensures Upper("png") == "PNG" && Upper("webp") == "WEBP"
  {
    UpperAt("jpg");
    UpperAt("jpeg");
    UpperAt("png");
    UpperAt("webp");
  }

  // ---------------------------------------------------------------------
  // Settings, jobs and the plan

  /** The parameters after lines 29-33: the parsed input types and the
      output folder with its default applied. */
  datatype Settings = Settings(
    folderPath: string,
    inputTypes: seq<string>,
    outputImageType: Option<string>,
    outputFolder: string)

  /** Lines 29-33. */
  function Resolve(folderPath: string, inputImageTypes: string,
                   outputImageType: Option<string>, outputFolder: Option<string>): (cfg: Settings)
    ensures cfg.folderPath == folderPath && cfg.outputImageType == outputImageType
    ensures cfg.inputTypes == ParseInputTypes(inputImageTypes)
    ensures cfg.outputFolder == if Given(outputFolder) then outputFolder.value else folderPath
  {
    Settings(folderPath, ParseInputTypes(inputImageTypes), outputImageType,
             if Given(outputFolder) then outputFolder.value else folderPath)
  }

  /** One conversion: read `inputPath`, write `outputPath` in `format`. */
  datatype Job = Job(inputPath: string, outputPath: string, format: string)

  /** Line 41: the file is converted when its extension is one of the types. */
  predicate Selected(cfg: Settings, filename: string) {
    InputExtension(filename) in cfg.inputTypes
  }

  /** Lines 42-50: the job for one selected file. */
  function JobFor(cfg: Settings, filename: string): Job {
    var outputExt := OutputExtension(cfg.outputImageType, InputExtension(filename));
    Job(Join(cfg.folderPath, filename),
        Join(cfg.outputFolder, OutputFilename(filename, outputExt)),
        OutputFormat(outputExt))
  }

  /** Line 41 as a test on names. */
  function SelectedBy(cfg: Settings): string -> bool {
    n => Selected(cfg, n)
  }

  /** Lines 42-50 as a map from names to jobs. */
  function JobsBy(cfg: Settings): string -> Job {
    n => JobFor(cfg, n)
  }

  /** `make(n)` for every name `n` of `names` that `keep` accepts, in the
      order of `names`. */
  function Collect<T>(names: seq<string>, keep: string -> bool, make: string -> T): seq<T> {
    if names == [] then []
    else
      var last := names[|names| - 1];
      Collect(names[..|names| - 1], keep, make) + (if keep(last) then [make(last)] else [])
  }

  /** The jobs lines 39-50 build for a listing, in listing order. */
  function Plan(cfg: Settings, names: seq<string>): seq<Job> {
    Collect(names, SelectedBy(cfg), JobsBy(cfg))
  }

  /** The positions of `xs` whose element satisfies `p`, in increasing
      order: exactly those positions. */
  function Positions<T>(xs: seq<T>, p: T -> bool): (ks: seq<nat>)
    ensures forall j :: 0 <= j < |ks| ==> ks[j] < |xs| && p(xs[ks[j]])
    ensures forall j, j' :: 0 <= j < j' < |ks| ==> ks[j] < ks[j']
    ensures forall k :: 0 <= k < |xs| && p(xs[k]) ==> k in ks
  {
    if xs == [] then []
    else
      var n := |xs| - 1;
      var prev := Positions(xs[..n], p);
      assert forall j :: 0 <= j < |prev| ==> xs[..n][prev[j]] == xs[prev[j]];
      prev + (if p(xs[n]) then [n] else [])
  }

  /** The positions in the listing of the names that are selected. */
  function SelectedIndices(cfg: Settings, names: seq<string>): (ks: seq<nat>)
    ensures forall j :: 0 <= j < |ks| ==> ks[j] < |names| && Selected(cfg, names[ks[j]])
    ensures forall j, j' :: 0 <= j < j' < |ks| ==> ks[j] < ks[j']
    ensures forall k :: 0 <= k < |names| && Selected(cfg, names[k]) ==> k in ks
  {
    Positions(names, SelectedBy(cfg))
  }

  /** One more name in the listing adds its job at the end, if selected. */
  lemma PlanAppend(cfg: Settings, names: seq<string>, n: string)
    ensures Plan(cfg, names + [n]) ==
            Plan(cfg, names) + (if Selected(cfg, n) then [JobFor(cfg, n)] else [])
  {
    assert (names + [n])[..|names|] == names;
  }

  /** `Collect` makes one element per accepted name, in order. */
  lemma {:induction false} CollectFollows<T>(names: seq<string>, keep: string -> bool, make: string -> T)
    ensures |Collect(names, keep, make)| == |Positions(names, keep)|
    ensures forall j :: 0 <= j < |Collect(names, keep, make)| ==>
              Collect(names, keep, make)[j] == make(names[Positions(names, keep)[j]])
  {
    if names != [] {
      var n := |names| - 1;
      CollectFollows(names[..n], keep, make);
      var ks := Positions(names[..n], keep);
      assert forall j :: 0 <= j < |ks| ==> names[..n][ks[j]] == names[ks[j]];
    }
  }

  /** The plan has one job per selected name, in listing order, and none for
      the other names. */
  lemma PlanFollowsListing(cfg: Settings, names: seq<string>)
    ensures |Plan(cfg, names)| == |SelectedIndices(cfg, names)|
    ensures forall j :: 0 <= j < |Plan(cfg, names)| ==>
              Plan(cfg, names)[j] == JobFor(cfg, names[SelectedIndices(cfg, names)[j]])
  {
    CollectFollows(names, SelectedBy(cfg), JobsBy(cfg));
  }

  /** Where a job reads and writes, for a name the listing can contain. */
  lemma JobPaths(cfg: Settings, filename: string)
    requires ListdirName(filename)
    ensures JobFor(cfg, filename).inputPath == AsDir(cfg.folderPath) + filename
    ensures JobFor(cfg, filename).outputPath ==
            AsDir(cfg.outputFolder) +
            OutputFilename(filename, OutputExtension(cfg.outputImageType, InputExtension(filename)))
  {
    SplitExtRoot(filename);
  }

  /** Without an output type, the output name is the root plus the original
      extension lowercased: "A.JPG" becomes "A.jpg", and a name with no
      extension gets a bare trailing dot. */
  lemma KeepsOwnExtension(outputImageType: Option<string>, filename: string)
    requires !Given(outputImageType)
    ensures var (root, raw) := SplitExt(filename);
            OutputFilename(filename, OutputExtension(outputImageType, InputExtension(filename))) ==
            if raw == "" then filename + "." else root + "." + Lower(raw[1..])
  {
    var (root, raw) := SplitExt(filename);
    var ext := InputExtension(filename);
    InputExtensionShape(filename);
    assert OutputExtension(outputImageType, ext) == ext;
    assert OutputFilename(filename, ext) == root + [ExtSep] + ext;
    if raw == "" {
      assert root == filename;
    }
  }

  /** With the default output folder and no output type, a file is
      rewritten in place exactly when it has an extension and that extension
      is already lowercase. */
  lemma InPlaceExactly(folderPath: string, inputImageTypes: string,
                       outputImageType: Option<string>, outputFolder: Option<string>,
                       filename: string)
    requires !Given(outputImageType) && !Given(outputFolder) && ListdirName(filename)
    ensures var job := JobFor(Resolve(folderPath, inputImageTypes, outputImageType, outputFolder), filename);
            var raw := SplitExt(filename).1;
            job.outputPath == job.inputPath <==> raw != "" && NoUpper(raw)
  {
    var cfg := Resolve(folderPath, inputImageTypes, outputImageType, outputFolder);
    var outName := OutputFilename(filename, OutputExtension(outputImageType, InputExtension(filename)));
    JobPaths(cfg, filename);
    SamePrefix(AsDir(folderPath), outName, filename);
    KeepsOwnName(outputImageType, filename);
  }

  /** Two strings with the same prefix are equal exactly when the rest is. */
  lemma SamePrefix(d: string, a: string, b: string)
    ensures d + a == d + b <==> a == b
  {
    if d + a == d + b {
      assert (d + a)[|d|..] == a && (d + b)[|d|..] == b;
    }
  }

  /** Without an output type, the output name is the input name exactly
      when the name has an extension and the extension is lowercase. */
  lemma KeepsOwnName(outputImageType: Option<string>, filename: string)
    requires !Given(outputImageType)
    ensures var raw := SplitExt(filename).1;
            OutputFilename(filename, OutputExtension(outputImageType, InputExtension(filename))) == filename
            <==> raw != "" && NoUpper(raw)
  {
    var (root, raw) := SplitExt(filename);
    KeepsOwnExtension(outputImageType, filename);
    RenamedIsSame(root, raw);
  }

  /** The renaming of `KeepsOwnExtension`, on a root and an extension that
      starts with a dot. */
  lemma RenamedIsSame(root: string, raw: string)
    requires raw == "" || raw[0] == ExtSep
    ensures (if raw == "" then root + raw + "." else root + "." + Lower(raw[1..])) == root + raw
            <==> raw != "" && NoUpper(raw)
  {
    if raw == "" {
      assert |root + raw + "."| == |root + raw| + 1;
    } else {
      var x := raw[1..];
      assert raw == [ExtSep] + x;
      assert root + raw == (root + [ExtSep]) + x;
      assert root + "." + Lower(x) == (root + [ExtSep]) + Lower(x);
      SamePrefix(root + [ExtSep], Lower(x), x);
      LowerFacts(x);
      if Lower(x) == x {
        assert forall i :: 1 <= i < |raw| ==> raw[i] == x[i - 1];
      }
      if NoUpper(raw) {
        assert forall i :: 0 <= i < |x| ==> x[i] == raw[i + 1];
        LowerOfLowercase(x);
      }
    }
  }

  /** A job overwrites its own input only when the output folder is the
      source folder (up to a trailing separator) and the output name is the
      input name, provided the output type contains no separator. */
  lemma InPlaceOnlyIf(cfg: Settings, filename: string)
    requires ListdirName(filename)
    requires Given(cfg.outputImageType) ==> Sep !in cfg.outputImageType.value
    requires JobFor(cfg, filename).outputPath == JobFor(cfg, filename).inputPath
    ensures AsDir(cfg.outputFolder) == AsDir(cfg.folderPath)
    ensures OutputFilename(filename, OutputExtension(cfg.outputImageType, InputExtension(filename))) == filename
  {
    var outExt := OutputExtension(cfg.outputImageType, InputExtension(filename));
    var outName := OutputFilename(filename, outExt);
    InputExtensionShape(filename);
    if !Given(cfg.outputImageType) {
      LowerKeepsNonLetter(SplitExt(filename).1, Sep);
      assert Sep !in InputExtension(filename);
    }
    assert Sep !in SplitExt(filename).0;
    assert Sep !in outName;
    JobPaths(cfg, filename);
    JoinDetermines(cfg.outputFolder, outName, cfg.folderPath, filename);
  }

  /** Every job reads from the source folder; every job writes into the
      given output folder, or into the source folder when none is given. */
  lemma OutputPathsInFolder(cfg: Settings, names: seq<string>)
    requires forall k :: 0 <= k < |names| ==> ListdirName(names[k])
    ensures forall j :: 0 <= j < |Plan(cfg, names)| ==>
              var job := Plan(cfg, names)[j];
              && |AsDir(cfg.folderPath)| < |job.inputPath|
              && job.inputPath[..|AsDir(cfg.folderPath)|] == AsDir(cfg.folderPath)
              && |AsDir(cfg.outputFolder)| < |job.outputPath|
              && job.outputPath[..|AsDir(cfg.outputFolder)|] == AsDir(cfg.outputFolder)
  {
    PlanFollowsListing(cfg, names);
    var ks := SelectedIndices(cfg, names);
    forall j | 0 <= j < |Plan(cfg, names)|
      ensures var job := Plan(cfg, names)[j];
              && |AsDir(cfg.folderPath)| < |job.inputPath|
              && job.inputPath[..|AsDir(cfg.folderPath)|] == AsDir(cfg.folderPath)
              && |AsDir(cfg.outputFolder)| < |job.outputPath|
              && job.outputPath[..|AsDir(cfg.outputFolder)|] == AsDir(cfg.outputFolder)
    {
      JobPaths(cfg, names[ks[j]]);
    }
  }

  /** Lines 32-33 with line 47: every output path lies in the given output
      folder, or in the source folder when no output folder (or an empty
      one) is given. */
  lemma OutputFolderOfPlan(folderPath: string, inputImageTypes: string,
                           outputImageType: Option<string>, outputFolder: Option<string>,
                           names: seq<string>)
    requires forall k :: 0 <= k < |names| ==> ListdirName(names[k])
    ensures var dir := AsDir(if Given(outputFolder) then outputFolder.value else folderPath);
            var plan := Plan(Resolve(folderPath, inputImageTypes, outputImageType, outputFolder), names);
            forall j :: 0 <= j < |plan| ==>
              |dir| < |plan[j].outputPath| && plan[j].outputPath[..|dir|] == dir
  {
    OutputPathsInFolder(Resolve(folderPath, inputImageTypes, outputImageType, outputFolder), names);
  }

  /** With an output type given, a job writes a name ending in "." and that
      type exactly as supplied, in the format the type maps to. */
  lemma GivenTypeJob(cfg: Settings, filename: string)
    requires Given(cfg.outputImageType)
    ensures var t := cfg.outputImageType.value;
            var job := JobFor(cfg, filename);
            && |t| < |job.outputPath|
            && job.outputPath[|job.outputPath| - |t| - 1..] == "." + t
            && job.format == OutputFormat(t)
  {
    var t := cfg.outputImageType.value;
    var root := SplitExt(filename).0;
    assert JobFor(cfg, filename).outputPath == Join(cfg.outputFolder, root + "." + t);
    assert JobFor(cfg, filename).format == OutputFormat(t);
    JoinedNameEndsWith(cfg.outputFolder, root, t);
  }

  lemma JoinedNameEndsWith(dir: string, root: string, t: string)
    ensures var path := Join(dir, root + "." + t);
            |t| < |path| && path[|path| - |t| - 1..] == "." + t
  {
    JoinEndsWithName(dir, root + "." + t);
  }

  /** With an output type given, every job of the plan writes a name ending
      in "." and that type exactly as supplied, whatever the input
      extension, and all jobs use the format the type maps to. */
  lemma GivenTypeVerbatim(cfg: Settings, names: seq<string>)
    requires Given(cfg.outputImageType)
    ensures var t := cfg.outputImageType.value;
            forall j :: 0 <= j < |Plan(cfg, names)| ==>
              var job := Plan(cfg, names)[j];
              && |t| < |job.outputPath|
              && job.outputPath[|job.outputPath| - |t| - 1..] == "." + t
              && job.format == OutputFormat(t)
  {
    PlanFollowsListing(cfg, names);
    var ks := SelectedIndices(cfg, names);
    forall j | 0 <= j < |Plan(cfg, names)| {
      GivenTypeJob(cfg, names[ks[j]]);
    }
  }

  /** Answering the prompts with empty text is the same as passing `None`:
      the `or None` of the command-line entry point changes nothing. */
  lemma {:induction false} EmptyAnswersAreAbsent(folderPath: string, inputImageTypes: string,
                                                 names: seq<string>)
    ensures Plan(Resolve(folderPath, inputImageTypes, Some(""), Some("")), names) ==
            Plan(Resolve(folderPath, inputImageTypes, None, None), names)
  {
    if names != [] {
      EmptyAnswersAreAbsent(folderPath, inputImageTypes, names[..|names| - 1]);
    }
  }

  // ---------------------------------------------------------------------
  // Outcomes

  /** What the image library did with one job. */
  datatype SaveResult = Saved | Raised(error: string)

  /** What the converter reports for one job (its two log lines). */
  datatype Outcome = Success(job: Job) | Failure(job: Job, error: string)

  /** Lines 52-58: one attempt, its exception turned into a Failure. */
  function Attempt(job: Job, codec: Job -> SaveResult): Outcome {
    match codec(job)
    case Saved => Success(job)
    case Raised(e) => Failure(job, e)
  }

  /** The outcomes of running the jobs in order: exactly one per job, a
      Success when the library saved it and a Failure carrying the
      library's error otherwise. */
  function RunAll(jobs: seq<Job>, codec: Job -> SaveResult): (outcomes: seq<Outcome>)
    ensures |outcomes| == |jobs|
    ensures forall i :: 0 <= i < |jobs| ==>
              && outcomes[i].job == jobs[i]
              && (outcomes[i].Success? <==> codec(jobs[i]) == Saved)
              && (outcomes[i].Failure? ==> codec(jobs[i]) == Raised(outcomes[i].error))
  {
    seq(|jobs|, i requires 0 <= i < |jobs| => Attempt(jobs[i], codec))
  }

  /** Running two job lists one after the other gives their outcome lists
      one after the other. */
  lemma RunAllAppend(jobs: seq<Job>, extra: seq<Job>, codec: Job -> SaveResult)
    ensures RunAll(jobs + extra, codec) == RunAll(jobs, codec) + RunAll(extra, codec)
  {
  }

  /** A failure is confined to its own job: changing what the library does
      with one job changes no outcome of any other job, before or after. */
  lemma FailureIsolated(jobs: seq<Job>, c1: Job -> SaveResult, c2: Job -> SaveResult, k: nat)
    requires k < |jobs|
    requires forall j :: j != jobs[k] ==> c1(j) == c2(j)
    ensures forall i :: 0 <= i < |jobs| && jobs[i] != jobs[k] ==>
              RunAll(jobs, c1)[i] == RunAll(jobs, c2)[i]
  {
  }

  /** Running one more job adds its outcome at the end. */
  lemma RunAllSnoc(jobs: seq<Job>, job: Job, codec: Job -> SaveResult)
    ensures RunAll(jobs + [job], codec) == RunAll(jobs, codec) + [Attempt(job, codec)]
  {
    RunAllAppend(jobs, [job], codec);
  }

  /** Lines 29-58: resolves the settings, then walks the listing and, for
      every selected file, builds its job and records the single outcome of
      converting it. */
  method OptimizeImages(folderPath: string, inputImageTypes: string,
                        outputImageType: Option<string>, outputFolder: Option<string>,
                        listing: seq<string>, codec: Job -> SaveResult)
    returns (outcomes: seq<Outcome>)
    ensures outcomes ==
            RunAll(Plan(Resolve(folderPath, inputImageTypes, outputImageType, outputFolder), listing), codec)
  {
    var cfg := Resolve(folderPath, inputImageTypes, outputImageType, outputFolder);
    // os.makedirs(cfg.outputFolder, exist_ok=True) is not modelled
    outcomes := ConvertListing(cfg, listing, codec);
  }

  /** Lines 40-50: the job for one listed name, if the name is selected. */
  method PrepareJob(cfg: Settings, filename: string) returns (job: Option<Job>)
    ensures job == if Selected(cfg, filename) then Some(JobFor(cfg, filename)) else None
  {
    var inputExt := InputExtension(filename);
    if inputExt in cfg.inputTypes {
      var inputPath := Join(cfg.folderPath, filename);
      var outputExt := OutputExtension(cfg.outputImageType, inputExt);
      var outputPath := Join(cfg.outputFolder, OutputFilename(filename, outputExt));
      var outputFormat := OutputFormat(outputExt);
      job := Some(Job(inputPath, outputPath, outputFormat));
    } else {
      job := None;
    }
  }

  /** Lines 39-58 once the settings are resolved: one outcome per job of the
      plan, in order. */
  method ConvertListing(cfg: Settings, listing: seq<string>, codec: Job -> SaveResult)
    returns (outcomes: seq<Outcome>)
    ensures outcomes == RunAll(Plan(cfg, listing), codec)
  {
    outcomes := [];
    for i := 0 to |listing|
      invariant outcomes == RunAll(Plan(cfg, listing[..i]), codec)
    {
      var filename := listing[i];
      assert listing[..i + 1] == listing[..i] + [filename];
      PlanAppend(cfg, listing[..i], filename);
      var job := PrepareJob(cfg, filename);
      if job.Some? {
        var outcome := Attempt(job.value, codec);
        RunAllSnoc(Plan(cfg, listing[..i]), job.value, codec);
        outcomes := outcomes + [outcome];
      }
    }
    assert listing[..|listing|] == listing;
  }
}
