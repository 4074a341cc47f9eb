# python-optimize-images in Dafny

`optimize_images` in `optimize/main.py` is a batch image converter. It:

- reads a folder listing;
- keeps the files whose extension is one of a comma-separated list of input types;
- for each kept file, works out an output path and an image-library format name;
- asks the image library (Pillow) to open the file and save it again with `optimize=True`;
- catches any exception raised while converting one file, so such an exception never stops the batch.

This project models that procedure and proves what it computes:

- which names are converted;
- the path each conversion reads from and writes to;
- the format each output is written in;
- that every job has exactly one outcome.

The model has four modules.

- `PyStr` (`pystr.dfy`) covers the Python string methods the function chains together:
  - `str.split` on one character, and `join` as its inverse;
  - `strip()`, using Python's full whitespace set;
  - `lstrip(chars)`;
  - `lower()` and `upper()`.
- `PosixPath` (`posixpath.dfy`) covers `os.path.splitext` and two-argument `os.path.join` as the POSIX `posixpath` module defines them.
- `Optimize` (`optimize.dfy`) covers the function itself:
  - the constant `OUTPUT_FORMAT_MAPPING`;
  - the parsing of the input types;
  - the per-file computations: extension, selection, output name, format;
  - the default output folder;
  - the plan of jobs for a listing;
  - the per-job outcomes.

  The loop itself is a method, `OptimizeImages`. It resolves the settings, then runs `ConvertListing`, which walks the listing with `PrepareJob`. `OptimizeImages` is proved to return exactly `RunAll(Plan(...))`, the outcomes of the specification functions.
- `Scenarios` (`scenarios.dfy`) works through concrete inputs:
  - the default types;
  - a trailing comma;
  - dot files;
  - `"A.JPG"`;
  - a failing first file.

Two things the program takes from outside become parameters:

- **The directory listing**: a sequence of names, each non-empty and without `/`.
- **The image library**: a function `codec: Job -> SaveResult`. For each job it says whether opening and saving worked (`Saved`) or which exception message it raised (`Raised(e)`).

The `Success` and `Failure` outcomes stand for the two log lines, `Optimized: …` and `Failed to process …: …`. The Python function returns `None`.

Three details of the code that the model keeps:

- **Path joining.** Both paths are built with `posixpath.join`:
  - an empty folder contributes nothing;
  - a folder that already ends in `/` gets no second `/`;
  - a name starting with `/` replaces the folder.
- **The input types.** They form a list whose entries may repeat or be empty. A trailing comma adds `""`, which selects the files without an extension.
- **The extension.** It is lowercased and has its leading dots stripped with `lstrip(".")`.

## Model

| member | source | states |
|---|---|---|
| PyStr.Strip | optimize/main.py:29 | `strip()` leaves a piece of the input with no whitespace at either end; before and after that piece there is only whitespace |
| PyStr.StripFixpoint | optimize/main.py:29 | a string with no whitespace at its ends is its own strip |
| PyStr.StripIdempotent | optimize/main.py:29 | stripping twice is stripping once |
| PyStr.LStrip | optimize/main.py:40 | `lstrip(chars)` removes only characters of `chars`, and what remains does not start with one of them |
| PyStr.LStripSuffix | optimize/main.py:40 | what `lstrip` leaves is a suffix of its input |
| PyStr.Lower | optimize/main.py:29 | `s.lower()` computed one character at a time with the ASCII case map; `LowerAt` and `LowerFacts` characterise it |
| PyStr.LowerAt | optimize/main.py:29 | `lower()` keeps the length and maps each character on its own |
| PyStr.LowerFacts | optimize/main.py:29 | after `lower()` there is no upper-case letter; non-letters are kept and upper-case letters become lower-case |
| PyStr.LowerOfLowercase | optimize/main.py:29 | a string without upper-case letters is unchanged by `lower()`, so `lower()` is idempotent |
| PyStr.LowerConcat | optimize/main.py:40 | `lower()` distributes over concatenation |
| PyStr.LowerKeepsNonLetter | optimize/main.py:40 | a non-letter such as `.` or `/` occurs in `lower(s)` exactly where it occurs in `s` |
| PyStr.Upper | optimize/main.py:50 | `s.upper()` computed one character at a time with the ASCII case map; `UpperAt` and `UpperFacts` characterise it |
| PyStr.UpperAt | optimize/main.py:50 | `upper()` keeps the length and maps each character on its own |
| PyStr.UpperFacts | optimize/main.py:50 | after `upper()` there is no lower-case letter, and a string without lower-case letters is unchanged |
| PyStr.Split | optimize/main.py:29 | `split(sep)` gives one piece more than there are separators, and no piece contains the separator |
| PyStr.JoinOfSplit | optimize/main.py:29 | joining the pieces of a split with the separator gives back the string |
| PyStr.SplitOfJoin | optimize/main.py:29 | splitting a join of separator-free parts gives back the parts |
| PosixPath.RFind | optimize/main.py:40 | the index of the last occurrence of a character, or -1 when there is none |
| PosixPath.RFindUnique | optimize/main.py:40 | any index holding the character with none after it is the index `RFind` returns |
| PosixPath.ExtStart | optimize/main.py:40 | where `splitext` splits: the last dot after the last `/`, provided a non-dot character of the last component comes before it, and otherwise the end of the name; its contract and `ExtStartFindsExtension` characterise it |
| PosixPath.SplitExt | optimize/main.py:40 | `splitext` splits the name into root + extension; the extension is empty, or is one dot followed by text with no dot and no separator |
| PosixPath.SplitExtFindsExtension | optimize/main.py:40 | the extension is non-empty exactly when the last path component has a non-dot character with a dot after it (so `.bashrc` and `..jpg` have none) |
| PosixPath.SplitExtAtLastDot | optimize/main.py:46 | when there is an extension, the root is exactly the text before the last dot and the extension is the rest |
| PosixPath.SplitExtSimple | optimize/main.py:40 | `root.ext`, with no dot or separator in `root` or `ext` and a non-empty `root`, splits into `root` and `.ext` |
| PosixPath.SplitExtRoot | optimize/main.py:46 | a non-empty name without separators keeps a non-empty root that starts with the name's first character |
| PosixPath.AsDir | optimize/main.py:42 | the folder as a prefix: it starts with the folder and is empty or ends in `/` |
| PosixPath.Join | optimize/main.py:42 | two-argument `posixpath.join`: `b` when it starts with `/`, and otherwise `AsDir(a) + b`; `JoinEndsWithName`, `JoinRelative` and `JoinDetermines` characterise it |
| PosixPath.JoinEndsWithName | optimize/main.py:47 | `join(a, b)` always ends with `b` |
| PosixPath.JoinRelative | optimize/main.py:42 | for a relative `b`, `join(a, b)` is the folder prefix followed by `b`, so it starts with `a` and ends with `b` |
| PosixPath.JoinDetermines | optimize/main.py:47 | two equal joins of separator-free names used the same name and the same folder, up to a trailing `/` |
| Optimize.ParseInputTypes | optimize/main.py:29 | the input types: each comma-separated piece, stripped and lowercased, in order; `ParseInputTypesShape` gives its shape and `ParseOfJoinedTypes` its inverse |
| Optimize.ParseInputTypesShape | optimize/main.py:29 | there is one input type per comma-separated piece (commas + 1); each has no comma, no upper-case letter and no whitespace at either end |
| Optimize.TrailingCommaAddsEmptyType | optimize/main.py:29 | a trailing comma appends exactly one empty type |
| Optimize.ParseOfJoinedTypes | optimize/main.py:29 | parsing the comma-join of normalised types gives them back |
| Optimize.InputExtension | optimize/main.py:40 | the extension `splitext` finds, lowercased, with its leading dots stripped; `InputExtensionShape` characterises it |
| Optimize.InputExtensionShape | optimize/main.py:40 | the input extension is `""` when `splitext` finds none, and otherwise the lowercased text after the split dot; it never contains a dot and has no upper-case letter |
| Optimize.InputExtensionSimple | optimize/main.py:40 | for a plain `root.ext` name the root is `root` and the input extension is `lower(ext)` |
| Optimize.OutputExtension | optimize/main.py:45 | the output type when it is given and non-empty, and otherwise the input extension; `KeepsOwnExtension` and `GivenTypeJob` use both branches |
| Optimize.OutputFilename | optimize/main.py:46 | the root `splitext` leaves, a dot, and the output extension; `KeepsOwnExtension`, `KeepsOwnName` and `PlainNameOutput` characterise it |
| Optimize.PlainNameOutput | optimize/main.py:45-46 | without an output type, a plain `root.ext` name is written as `root.` + `lower(ext)` |
| Optimize.OutputFormat | optimize/main.py:5-10 | `OUTPUT_FORMAT_MAPPING.get(ext, ext.upper())` over the four-entry table `OutputFormatMapping`; `OutputFormatExamples` and `OutputFormatIsUpper` characterise it |
| Optimize.OutputFormatExamples | optimize/main.py:5-10 | `jpg` and `jpeg` map to `JPEG`, `png` to `PNG`, `webp` to `WEBP`; `JPG` maps to `JPG` and `bmp` to `BMP` |
| Optimize.OutputFormatIsUpper | optimize/main.py:50 | no format name has a lower-case letter; every output extension except `jpg` maps to its uppercased form, and `jpg` does not |
| Optimize.UpperOfKeys | optimize/main.py:5-10 | the uppercased table keys are `JPG`, `JPEG`, `PNG` and `WEBP` |
| Optimize.Resolve | optimize/main.py:29-33 | the settings: the source folder and output type as given, the parsed input types, and the output folder given when it is non-empty, otherwise the source folder |
| Optimize.Selected | optimize/main.py:41 | a name is converted when its input extension is one of the input types; `SelectedIndices` and `PlanFollowsListing` use it |
| Optimize.JobFor | optimize/main.py:42-50 | the input path, output path and format of one selected name; `JobPaths`, `KeepsOwnExtension` and `GivenTypeJob` characterise it |
| Optimize.Collect | optimize/main.py:39-41 | `make(n)` for each name `n` that `keep` accepts, in the order of the names; `CollectFollows` characterises it |
| Optimize.Plan | optimize/main.py:39-50 | the jobs of the selected names in listing order; `PlanAppend` and `PlanFollowsListing` characterise it |
| Optimize.SelectedIndices | optimize/main.py:41 | the listing positions whose extension is an input type, in increasing order, and all of them |
| Optimize.PlanAppend | optimize/main.py:39-41 | one more listed name adds its job at the end of the plan exactly when it is selected |
| Optimize.PlanFollowsListing | optimize/main.py:39-50 | the plan has one job per selected name, in listing order, and no job for any other name |
| Optimize.JobPaths | optimize/main.py:42-47 | a job reads from the folder prefix + name and writes to the output-folder prefix + output name |
| Optimize.KeepsOwnExtension | optimize/main.py:45-46 | without an output type the output name is root + `.` + the lowercased original extension, or name + `.` when there is no extension |
| Optimize.KeepsOwnName | optimize/main.py:45-46 | without an output type, the output name equals the input name exactly when the name has an extension with no upper-case letter |
| Optimize.InPlaceExactly | optimize/main.py:32-47 | with neither output type nor output folder, a file is overwritten in place exactly when its extension exists and is already lowercase |
| Optimize.InPlaceOnlyIf | optimize/main.py:42-47 | for an output type without `/`, a job writes over its own input only if the output folder is the source folder (up to a trailing `/`) and the output name is the input name |
| Optimize.OutputPathsInFolder | optimize/main.py:42-47 | every job reads inside the source folder and writes inside the output folder |
| Optimize.OutputFolderOfPlan | optimize/main.py:32-47 | every output path lies in the given output folder, or in the source folder when the output folder is absent or empty |
| Optimize.GivenTypeJob | optimize/main.py:45-50 | with an output type `t`, a job's output path ends in `.` + `t` exactly as supplied, and its format is that of `t` |
| Optimize.GivenTypeVerbatim | optimize/main.py:45-50 | with an output type `t`, every job of the plan ends in `.` + `t` unchanged, whatever the input extension, and uses `t`'s format |
| Optimize.EmptyAnswersAreAbsent | optimize/main.py:63-67 | an empty output folder and an empty output type give the same plan as `None` |
| Optimize.Attempt | optimize/main.py:52-58 | one job's outcome: a Success when the library saved it, and a Failure with the exception's message otherwise; `RunAll`'s contract states it for every job |
| Optimize.RunAll | optimize/main.py:52-58 | one outcome per job, in job order: a Success exactly when the library saved it, and otherwise a Failure carrying the library's error |
| Optimize.RunAllAppend | optimize/main.py:52-58 | the outcomes of two job lists run one after the other are the two outcome lists concatenated |
| Optimize.RunAllSnoc | optimize/main.py:52-58 | running one more job adds exactly its outcome at the end; it is `RunAllAppend` with one job |
| Optimize.FailureIsolated | optimize/main.py:52-58 | changing what the library does with one job changes no other job's outcome, earlier or later |
| Optimize.OptimizeImages | optimize/main.py:29-58 | the outcomes are those of running the plan of the resolved settings over the listing |
| Optimize.PrepareJob | optimize/main.py:40-50 | a job exactly when the name is selected, and then the planned job for it |
| Optimize.ConvertListing | optimize/main.py:39-58 | the loop produces the outcomes of running the plan for the listing; the loop invariant is the plan of the names seen so far |
| Scenarios.DefaultTypes | optimize/main.py:15 | the default `"jpg,png"` parses to `jpg` and `png` |
| Scenarios.TrailingCommaTypes | optimize/main.py:29 | `"jpg,"` parses to `jpg` and the empty type |
| Scenarios.BareName | optimize/main.py:40-41 | `README` has the empty extension, and the input types `"jpg,"` select it |
| Scenarios.DotFile | optimize/main.py:40 | `.bashrc` has the empty extension |
| Scenarios.LeadingDots | optimize/main.py:40 | `..jpg` has the empty extension |
| Scenarios.UpperCaseExtension | optimize/main.py:40-46 | `A.JPG` splits into root `A` and extension `.JPG`, and its input extension is `jpg`; without an output type its output name is `A.jpg` |
| Scenarios.FirstFails | optimize/main.py:52-58 | when the library fails on the first of two jobs, the first is a Failure with that error and the second still succeeds |

## Left out

- Pillow's `Image.open` and `save` with `optimize=True` (lines 54-55) are foreign calls. They are the `codec` parameter. Pixel data and the round trip of an image through the encoder are not modelled.
- `os.listdir` (line 39) is the `listing` parameter. Its order is kept, whatever it is. Names are assumed non-empty and free of `/`, as a directory listing yields them.
- Names whose bytes are not valid UTF-8, which `os.listdir` decodes to lone surrogates such as `"\udcff.jpg"`, are not Dafny strings, so the listing cannot hold them. For such a name the `print` at line 56 or line 58 can raise `UnicodeEncodeError`. When the `print` of the `except` branch (line 58) raises, no `try` catches it, and the batch ends with the remaining files unprocessed. The model always records one outcome per job and goes on to the next.
- `os.makedirs(output_folder, exist_ok=True)` (line 36) is left out. So is the error it raises when the folder cannot be created, along with every other failure outside the per-file `try`, such as a missing source folder.
- `print` (lines 56, 58) is left out. The outcomes carry what the two lines report.
- The `input()` prompts of the `__main__` block (lines 61-69) are console I/O. Their `or None` defaulting appears only as `EmptyAnswersAreAbsent`. `or "jpg,png"` meets the function's own default `DefaultInputTypes`.
- `PyStr.Lower` and `PyStr.Upper` map only the ASCII letters. Python maps every Unicode letter, including ones that change length.
- The codec is a function of the job alone. The model does not capture effects between jobs through the filesystem, such as an output overwriting a file that a later job reads, or case-insensitive filesystems.
- Only exceptions derived from `Exception` are caught by the code. Per-file errors are modelled as such exceptions; a `KeyboardInterrupt` or `SystemExit` that would end the run is not modelled.
- A `with` block whose closing raises after the success line was printed would print both lines. The model records one outcome per job.
- `os.path.join` and `os.path.splitext` are modelled for POSIX paths only. Windows drive letters and `\` separators are not part of this model.
