# IFC fragments backend and batch converter, modelled in Dafny

This project models the two programs of the IFC-to-fragments pipeline.

- `backend/app.py` is the Flask API. The model covers:
  - the fragment-name mapper. It takes an IFC file's stem, turns spaces into `_`, drops `(` and `)`, and appends `.frag`;
  - the `/api/fragments` listing;
  - the `/api/ifc` listing, with its correlation of every IFC file to the fragment file of its mapped name;
  - the `/api/status` summary;
  - the lookup-or-404 of `/api/fragments/<filename>`.
- `backend/ifc_converter.js` is the Node converter. The model covers:
  - the case-insensitive `.ifc` selection of a directory's entries;
  - the output-name rule, which strips only a lower-case `.ifc`;
  - `convertFile` with its error path;
  - the sequential batch loop of `convertDirectory` and its success count;
  - the argument dispatch of `main` and its exit codes.

The two programs name fragment files differently. Take the example name `Building (v2) Plan.ifc`:

- The backend looks for `Building_v2_Plan.frag` beside `Building (v2) Plan.ifc`.
- The batch converter writes `Building (v2) Plan.frag`.

`Naming.OutputNameMatchesFragmentNameIff` proves that the two names agree exactly when the stem has no space and no parenthesis. `Naming.CorrelationFindsConverterOutput` proves that the backend's correlation finds the converter's output under the same condition. The converter also selects `A.IFC`, which the backend's case-sensitive `*.ifc` glob never lists.

Files:

- `wrappers.dfy` (`Wrappers`): `Option` and `Result`.
- `strings.dfy` (`Strings`): the string primitives both programs use:
  - suffix tests;
  - one-character `replace`;
  - `rfind`;
  - ASCII lower-casing;
  - `indexOf`.
- `app.dfy` (`App`): the backend.
  - A directory is a snapshot: a map from name to bytes, mtime and ctime, plus the order the operating system enumerates the names in.
  - A missing directory is the empty one, since `Path.glob` on it yields nothing.
  - The listings are methods with loops, proved against the functions `Glob`, `Correlate` and `CorrelateAll`.
- `converter.dfy` (`IfcConverter`): the converter.
  - The disk is a map from path to bytes.
  - The IFC importer is a function from input bytes to fragment bytes or an error message.
  - Creating the output directory and listing the input directory together form a `scan` function. It gives the entry names in listing order or the message of what was thrown.
- `naming.dfy` (`Naming`): the lemmas relating the two naming rules.

Sizes in megabytes are hundredths, written as natural numbers. `size / (1024 * 1024)` is an exact binary fraction, so Python's `round(x, 2)` is modelled as the nearest hundredth, the even one on a tie.

## Model

| member | source | states |
|---|---|---|
| App.Glob | backend/app.py:37 | `glob("*.frag")` / `glob("*.ifc")` yields exactly the directory's names ending in the suffix, case-sensitively, each once; its length is the number of such names |
| App.StemOfIfcName | backend/app.py:70 | for a name matched by `*.ifc`, `.stem` (`Stem`) is the name without its final `.ifc`, except the name `.ifc` itself, which is its own stem |
| App.StemOfAppended | backend/app.py:70 | any non-empty stem with `.ifc` appended is matched by `*.ifc` and gives back that stem |
| App.SubstituteChar | backend/app.py:70 | on one character the replace chain (`Substitute`) gives `_` for a space, nothing for `(` or `)`, and the character itself otherwise |
| App.SubstituteConcat | backend/app.py:70 | the replace chain (`Substitute`) works character by character: it distributes over concatenation |
| App.SubstituteIsClean | backend/app.py:70 | a mapped stem contains no space and no parenthesis |
| App.SubstituteFixedIff | backend/app.py:70 | the replace chain leaves a stem unchanged if and only if it has no space and no parenthesis |
| App.SubstituteIdempotent | backend/app.py:70 | mapping an already mapped stem changes nothing |
| App.SubstituteParenthesised | backend/app.py:70 | a stem `a (b) c` of clean words maps to `a_b_c` |
| App.FragmentNameShape | backend/app.py:70 | every mapped fragment name (`FragmentName`) has no space or parenthesis and ends in `.frag` |
| App.FragmentNameOfParenthesised | backend/app.py:70 | `a (b) c.ifc` maps to `a_b_c.frag`, as in `Building (v2) Plan.ifc` to `Building_v2_Plan.frag` |
| App.SizeMbRounds | backend/app.py:41 | `size_mb` (`SizeMb`) is within half a hundredth of the exact size in megabytes, the even hundredth on a tie |
| App.RoundedSumDiffersFromRoundedTotal | backend/app.py:50 | the total sums the rounded sizes: two files of 5243 bytes total 0.02 MB, while one file of 10486 bytes shows 0.01 MB |
| App.ListFragments | backend/app.py:32-51 | one entry per `*.frag` file, in glob order, no name twice, every matching file present; each entry holds that file's URL `/api/fragments/<name>`, rounded size, ctime and mtime; count is the number of matching files; the total is the sum of the entries' sizes |
| App.ServeFragment | backend/app.py:53-61 | 404 exactly when the name is not a file of the fragments directory, with an error that starts `Fragment file not found: ` and ends with the name; otherwise the file's bytes |
| App.ListedUrlIsServed | backend/app.py:44-61 | every URL the fragment listing hands out for a name without `%`, `?` or `#` is answered with that file's bytes |
| App.Correlate | backend/app.py:70-81 | an IFC entry has fragments exactly when its mapped name is a fragment file; only then does it carry that name and that file's rounded size, and otherwise both are null; its own name, size and mtime come from the IFC file |
| App.CorrelateAll | backend/app.py:66-81 | one entry per given name, in the same order and carrying those names |
| App.CorrelateAllAt | backend/app.py:68-81 | entry `i` is the correlation of the `i`-th name |
| App.ListIfcFiles | backend/app.py:63-87 | the entries carry the glob's names in order, so every `*.ifc` file appears once; they are the correlations of those names; count is the number of matching files; the total is the sum of the entries' sizes |
| App.CorrelatedFragmentIsListed | backend/app.py:70-80 | a fragment file reported by the IFC listing also appears in the fragment listing and is served |
| App.Status | backend/app.py:89-101 | the counts are the numbers of `*.ifc` and `*.frag` files; `conversion_complete` holds exactly when some file name ends in `.frag` |
| IfcConverter.IsIfcFileByChars | backend/ifc_converter.js:130 | an entry is selected (`IsIfcFile`) exactly when its last four characters are `.` followed by `i`, `f`, `c` in either case |
| IfcConverter.SelectionIgnoresCase | backend/ifc_converter.js:130 | `A.IFC`, `Model.Ifc` and `x.ifc` are all selected |
| IfcConverter.SelectionOfDoubleSuffix | backend/ifc_converter.js:130 | `A.IFC.ifc` is selected |
| IfcConverter.SelectionRejectsOthers | backend/ifc_converter.js:130 | `A.txt` and `ifc` are not selected |
| IfcConverter.SelectIfcFiles | backend/ifc_converter.js:129-131 | the selection holds exactly the selected entries and never more entries than the listing; it keeps every entry if and only if all are selected; a listing without repeated names gives a selection without repeated names |
| IfcConverter.SelectOne | backend/ifc_converter.js:130 | a one-entry listing keeps its entry exactly when it is selected |
| IfcConverter.SelectConcat | backend/ifc_converter.js:129-131 | selection keeps the listing order: the selection of two listings joined is the two selections joined |
| IfcConverter.BaseNameRoundTrip | backend/ifc_converter.js:142 | stripping `.ifc` (`BaseName`) undoes appending it to a non-empty stem |
| IfcConverter.OutputNameOfOtherNames | backend/ifc_converter.js:142-143 | the output name (`OutputName`) of a name without a lower-case `.ifc` ending keeps its whole name before `.frag` |
| IfcConverter.OutputNameExamples | backend/ifc_converter.js:142-143 | under `OutputName`, `x.ifc` gives `x.frag`, `A.IFC` gives `A.IFC.frag`, `Building (v2) Plan.ifc` gives `Building (v2) Plan.frag` |
| IfcConverter.OutputNamesCollide | backend/ifc_converter.js:141-146 | `s` and `s.ifc` give the same output name, so one batch can write the same fragment file twice |
| IfcConverter.OutputIsNeverAnInput | backend/ifc_converter.js:129-143 | no output path of a batch equals the input path of a selected entry |
| IfcConverter.ConvertFile | backend/ifc_converter.js:59-118 | success exactly when the input exists and the importer succeeds; a missing input fails with `Input file not found: <path>`; an importer error is passed through; a failure writes nothing; a success writes the importer's bytes to the output path and reports both sizes as read after the write |
| IfcConverter.InPlaceConversionSizes | backend/ifc_converter.js:93-96 | converting a file onto its own path reports the input size as the output size |
| IfcConverter.CountSuccesses | backend/ifc_converter.js:149 | the success count never exceeds the number of results; it equals it exactly when all succeeded, and is zero exactly when all failed |
| IfcConverter.CountSuccessesOne | backend/ifc_converter.js:149 | one record counts one exactly when it converted, and zero otherwise |
| IfcConverter.CountSuccessesConcat | backend/ifc_converter.js:149 | the count of two record lists joined is the sum of their counts; with `CountSuccessesOne`, `converted` is the number of converted records |
| IfcConverter.RunBatch | backend/ifc_converter.js:140-147 | one record per selected entry |
| IfcConverter.BatchRecordPaths | backend/ifc_converter.js:140-146 | record `i` names the `i`-th entry's input path and its derived output path |
| IfcConverter.ConvertFileReadsOnlyInput | backend/ifc_converter.js:63-110 | a conversion's outcome depends on the disk only through the input file |
| IfcConverter.BatchResultOfEachFile | backend/ifc_converter.js:140-147 | each entry's outcome in the batch is what converting it alone on the original disk gives |
| IfcConverter.BatchWritesOnlyOutputs | backend/ifc_converter.js:140-147 | a batch changes no path other than its entries' output paths |
| IfcConverter.BatchKeepsFiles | backend/ifc_converter.js:140-147 | a batch deletes no file: every path on the disk before is on the disk after |
| IfcConverter.BatchConvertedOutputsExist | backend/ifc_converter.js:140-147 | every record reported as converted names an output file that exists once the batch is done, even when a later entry of the batch writes the same path |
| IfcConverter.ConvertEach | backend/ifc_converter.js:140-147 | the loop's results and final disk are those of `RunBatch` |
| IfcConverter.ConvertDirectory | backend/ifc_converter.js:121-166 | fails exactly when creating or listing the directories throws, carrying that message; with no selected entry it reports success with nothing converted and writes nothing; otherwise it returns the batch records, the success count and the total; the disk afterwards is the original one when the scan fails or selects nothing, and otherwise the one the batch leaves (`BatchDisk`) |
| IfcConverter.FlagValue | backend/ifc_converter.js:198-214 | for a flag that is present, the value is the argument after its first occurrence, and undefined when that occurrence is last; for an absent flag it is `args[0]` (undefined for no arguments), since `indexOf` gives -1 |
| IfcConverter.Dispatch | backend/ifc_converter.js:170-222 | no arguments give usage; `--test` anywhere wins; then `--input` with `--output`; then `--input-dir` with `--output-dir`; anything else is invalid. Each case is an if-and-only-if |
| IfcConverter.ConvertArgs | backend/ifc_converter.js:203-209 | single-file mode succeeds exactly when both paths are given, the input exists and the importer succeeds; with both paths it is `convertFile` |
| IfcConverter.RunCli | backend/ifc_converter.js:170-222 | exit code 1 for usage and invalid arguments, with nothing written; test and directory mode exit 0 exactly when the directory scan succeeds; test mode leaves the disk the batch over the two test directories leaves, and directory mode the disk the batch over the two given directories leaves, or the disk unchanged when one is missing (`BatchDisk`); single-file mode exits 0 exactly when the conversion succeeds |
| Naming.OutputNameMatchesFragmentNameIff | backend/ifc_converter.js:142-143 | for a name ending in `.ifc`, the converter's output name equals the backend's mapped name (backend/app.py line 70) if and only if the stem has no space or parenthesis |
| Naming.CorrelationFindsConverterOutput | backend/app.py:70-78 | beside the converter's output alone, the backend reports fragments for an IFC file if and only if its stem has no space or parenthesis |
| Naming.UpperCaseIfcIsConvertedButNotListed | backend/ifc_converter.js:130 | `A.IFC` is converted to `A.IFC.frag`, but the backend's `*.ifc` glob (backend/app.py line 68) does not match it |
| Naming.ParenthesisedNamesDiverge | backend/ifc_converter.js:142-143 | for `a (b) c.ifc` the converter writes `a (b) c.frag` and the backend looks for `a_b_c.frag`; the two differ |
| Strings.ReplaceAllAt | backend/app.py:70 | `replace` of one character by another keeps the length and changes exactly the matching positions |
| Strings.DeleteAllMembers | backend/app.py:70 | `replace(c, '')` removes every `c`, and a character other than `c` occurs in the result if and only if it occurs in the input |
| Strings.DeleteOne | backend/app.py:70 | on one character, `replace(c, '')` gives nothing for `c` and the character itself otherwise |
| Strings.DeleteConcat | backend/app.py:70 | `replace(c, '')` distributes over concatenation, so with `DeleteOne` it fixes the result of every string, order included |
| Strings.RFindLast | backend/app.py:70 | `rfind` gives the last position of the character, or -1 when it does not occur |
| Strings.Lower | backend/ifc_converter.js:130 | lower-casing keeps the length and maps each character on its own |
| Strings.IndexOf | backend/ifc_converter.js:198-201 | `indexOf` gives -1 exactly when the value is absent, and otherwise its first position |
| Strings.DistinctCardinality | backend/app.py:92-93 | a sequence without repetitions has as many elements as its set, so the glob's length is the number of matching files |

## Left out

- The web framework is not modelled: Flask routing, CORS, `jsonify` and its serialisation, `send_file`'s headers and MIME type, and `app.run`.
- The `/health` endpoint and the `timestamp`/`status` fields of `/api/status` are left out: they return constants or the clock.
- `created` and `modified` are left out as ISO strings. They are the stat numbers, because `datetime.fromtimestamp(...).isoformat()` depends on the local time zone.
- Floating point is replaced by exact hundredths. `total_size_mb` is modelled as the exact sum of the entries' hundredths, while the code adds floats and rounds the sum again. For realistic totals these agree.
- The code totals the rounded sizes. A design that sums the raw byte sizes first would give a different total; `App.RoundedSumDiffersFromRoundedTotal` shows the two differ, and the model follows the code.
- A stat that fails during a listing is not modelled. In the code it raises, giving an HTTP 500; the directory is a snapshot here, so the model has no race between globbing and `stat`.
- `App.ServeFragment` treats the name as a bare key of the fragments directory. Flask's default converter admits no `/`, but the names `.` and `..` denote directories. In the code those pass `exists()` and then fail in `send_file`; the model answers 404. Sub-directories of the fragments directory are likewise not modelled.
- Directories whose names match `*.ifc` or `*.frag` are not modelled. The glob would list them and `stat` would report their size.
- `path.join` is modelled as `dir + "/" + name`, with no normalisation of `.`, `..`, repeated or trailing separators, or an empty directory.
- URL encoding is not modelled. The listing puts the raw name into the URL and Flask decodes the path before routing, so a name holding `%`, `?` or `#` is not served under the URL the listing gives; `App.ListedUrlIsServed` is stated only for names without them.
- `IfcConverter.OutputName`: an entry named exactly `.ifc` in the input directory `.` or the empty directory has the input path `.ifc`, and Node's `basename('.ifc', '.ifc')` is empty, so the code writes `<out>/.frag`. The model writes `<out>/.ifc.frag`. `Naming.CorrelationFindsConverterOutput` therefore does not speak for that one entry in those two directories.
- `toLowerCase` is modelled for ASCII letters only. No non-ASCII character lower-cases to `.`, `i`, `f` or `c` alone.
- The converter's I/O failures are reduced:
  - a failed write, or a read of a directory named like an IFC file, is not modelled;
  - `mkdirSync` and `readdirSync` are one `scan` result;
  - creating the output directory leaves no trace on the modelled disk.
- The IFC importer, its WASM configuration and its progress callback are a function parameter. The conversion itself is not modelled.
- The fields `compressionRatio` and `success` are not modelled: `success` is the constructor of the outcome. All console output is left out.
- The `main` function is modelled by its exit code:
  - `process.exit` is the returned exit code;
  - the usage text is left out with the rest of the console output;
  - the two test-mode directories, which are derived from the script's own location, are parameters.
- The module-loading step at the top of `ifc_converter.js` is left out. When the libraries are missing it exits before `main` runs.
- The repository's test scripts are not part of this model.
- `IfcConverter.RunBatch`: its own contract states only the record count. The paths, outcomes and writes of each record are stated by `BatchRecordPaths`, `BatchResultOfEachFile` and `BatchWritesOnlyOutputs`.
