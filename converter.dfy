/** The batch side of backend/ifc_converter.js: which directory entries a
    batch converts, the output name of each, the per-file conversion with
    its error path, the accumulation of per-file results and the command
    line dispatch of `main`.

    The IFC importer itself is an oracle from input bytes to fragment
    bytes or an error message. The disk is a map from path to bytes; the
    directory scan (`mkdirSync` of the output directory followed by
    `readdirSync` of the input directory) is an oracle too, giving the
    entry names in the order the system lists them, or the message of the
    error either call threw. */
module IfcConverter {
  import opened Strings
  import opened Wrappers

  /** Files by path; only their bytes matter to the converter. */
  type Disk = map<string, seq<bv8>>

  /** `new FRAGS.IfcImporter().process({bytes, ...})`: fragment bytes, or
      the message of what it threw. */
  type Importer = seq<bv8> -> Result<seq<bv8>>

  const IfcSuffix := ".ifc"
  const FragSuffix := ".frag"
  const NotFoundPrefix := "Input file not found: "
  /** What Node's file functions throw for an `undefined` path. */
  const InvalidPathMessage := "The \"path\" argument must be of type string or an instance of Buffer or URL. Received undefined"

  // ---------------------------------------------------------------------
  // Selection and naming

  /** `file.toLowerCase().endsWith('.ifc')` */
  predicate IsIfcFile(name: string) {
    EndsWith(Lower(name), IfcSuffix)
  }

  /** The selection test looks at the last four characters only and ignores
      the case of the three letters. */
  lemma IsIfcFileByChars(name: string)
    ensures IsIfcFile(name) <==>
      && |name| >= 4
      && name[|name| - 4] == '.'
      && (name[|name| - 3] == 'i' || name[|name| - 3] == 'I')
      && (name[|name| - 2] == 'f' || name[|name| - 2] == 'F')
      && (name[|name| - 1] == 'c' || name[|name| - 1] == 'C')
  {
  }

  /** Upper-case and mixed-case extensions are selected like lower-case ones. */
  lemma SelectionIgnoresCase()
    ensures IsIfcFile("A.IFC") && IsIfcFile("Model.Ifc") && IsIfcFile("x.ifc")
  {
    IsIfcFileByChars("A.IFC");
    IsIfcFileByChars("Model.Ifc");
    IsIfcFileByChars("x.ifc");
  }

  /** A name ending in `.IFC.ifc` is selected as well, beside `A.IFC`. */
  lemma SelectionOfDoubleSuffix()
    ensures IsIfcFile("A.IFC.ifc")
  {
    IsIfcFileByChars("A.IFC.ifc");
  }

  /** Other extensions, and `ifc` without its dot, are not selected. */
  lemma SelectionRejectsOthers()
    ensures !IsIfcFile("A.txt") && !IsIfcFile("ifc")
  {
    IsIfcFileByChars("A.txt");
    IsIfcFileByChars("ifc");
  }

  /** `readdirSync(inputDir).filter(file => file.toLowerCase().endsWith('.ifc'))`:
      exactly the selected entries, in directory order. */
  function SelectIfcFiles(entries: seq<string>): (r: seq<string>)
    ensures forall n :: n in r <==> n in entries && IsIfcFile(n)
    ensures |r| <= |entries|
    ensures |r| == |entries| <==> forall n :: n in entries ==> IsIfcFile(n)
    ensures NoDuplicates(entries) ==> NoDuplicates(r)
  {
    if entries == [] then []
    else
      var rest := SelectIfcFiles(entries[1..]);
      if IsIfcFile(entries[0]) then
        assert NoDuplicates(entries) ==> entries[0] !in entries[1..];
        [entries[0]] + rest
      else
        assert entries[0] in entries;
        rest
  }

  /** One entry is kept exactly when it is selected. */
  lemma SelectOne(name: string)
    ensures SelectIfcFiles([name]) == if IsIfcFile(name) then [name] else []
  {
    assert [name][1..] == [];
  }

  /** Selection looks at the first entry, then at the rest. */
  lemma SelectCons(name: string, rest: seq<string>)
    ensures SelectIfcFiles([name] + rest) == (if IsIfcFile(name) then [name] else []) + SelectIfcFiles(rest)
  {
    assert ([name] + rest)[1..] == rest;
  }

  /** One step of `SelectConcat`: putting an entry in front of the first
      listing keeps the two selections joined. */
  lemma SelectConcatStep(name: string, t: seq<string>, b: seq<string>)
    requires SelectIfcFiles(t + b) == SelectIfcFiles(t) + SelectIfcFiles(b)
    ensures SelectIfcFiles(([name] + t) + b) == SelectIfcFiles([name] + t) + SelectIfcFiles(b)
  {
    var head := if IsIfcFile(name) then [name] else [];
    ConcatAssoc([name], t, b);
    SelectCons(name, t + b);
    SelectCons(name, t);
    ConcatAssoc(head, SelectIfcFiles(t), SelectIfcFiles(b));
  }

  /** Selection keeps the listing order: it distributes over concatenation. */
  lemma {:induction false} SelectConcat(a: seq<string>, b: seq<string>)
    ensures SelectIfcFiles(a + b) == SelectIfcFiles(a) + SelectIfcFiles(b)
  {
    if a == [] {
      assert a + b == b;
    } else {
      TailOfConcat(a, b);
      SelectConcat(a[1..], b);
      SelectConcatStep(a[0], a[1..], b);
    }
  }

  /** `path.join(dir, name)` for a directory entry name. */
  function Join(dir: string, name: string): string {
    dir + "/" + name
  }

  /** `path.basename(path.join(dir, name), '.ifc')`: a trailing `.ifc`, in
      exactly that case, is removed, unless it is the whole name. */
  function BaseName(name: string): string {
    if EndsWith(name, IfcSuffix) && name != IfcSuffix then name[..|name| - 4] else name
  }

  /** The name of the fragment file written for an input entry. */
  function OutputName(name: string): string {
    BaseName(name) + FragSuffix
  }

  /** Removing `.ifc` undoes appending it. */
  lemma BaseNameRoundTrip(stem: string)
    requires stem != []
    ensures BaseName(stem + IfcSuffix) == stem
  {
  }

  /** A name without a trailing lower-case `.ifc` keeps all of itself. */
  lemma OutputNameOfOtherNames(name: string)
    requires !EndsWith(name, IfcSuffix)
    ensures OutputName(name) == name + FragSuffix
  {
  }

  lemma OutputNameExamples()
    ensures OutputName("x.ifc") == "x.frag"
    ensures OutputName("A.IFC") == "A.IFC.frag"
    ensures OutputName("Building (v2) Plan.ifc") == "Building (v2) Plan.frag"
  {
  }

  /** Two entries can share an output name: `A.IFC` and `A.IFC.ifc` are both
      selected and both give `A.IFC.frag`, so the later conversion
      overwrites the earlier one's fragment file. */
  lemma OutputNamesCollide(stem: string)
    requires stem != [] && !EndsWith(stem, IfcSuffix)
    ensures OutputName(stem) == OutputName(stem + IfcSuffix) == stem + FragSuffix
  {
  }

  /** No output path of a batch is the input path of a selected entry: the
      one ends in `g`, the other in `c` or `C`. */
  lemma OutputIsNeverAnInput(inputDir: string, outputDir: string, input: string, other: string)
    requires IsIfcFile(input)
    ensures Join(outputDir, OutputName(other)) != Join(inputDir, input)
  {
    IsIfcFileByChars(input);
    var out := Join(outputDir, OutputName(other));
    var inp := Join(inputDir, input);
    assert out[|out| - 1] == 'g';
    assert inp[|inp| - 1] == input[|input| - 1];
  }

  // ---------------------------------------------------------------------
  // convertFile

  /** What `convertFile` returns. */
  datatype FileOutcome =
    | Converted(inputSize: nat, outputSize: nat, outputPath: string)
    | Failed(error: string)

  datatype Conversion = Conversion(outcome: FileOutcome, disk: Disk)

  /** `convertFile(inputPath, outputPath)`: a missing input fails with a
      message naming it; otherwise the importer runs, and on success its
      bytes are written to the output path. The sizes are read after the
      write, as `statSync` does. */
  function ConvertFile(disk: Disk, inputPath: string, outputPath: string, importer: Importer): (c: Conversion)
    ensures c.outcome.Converted? <==> inputPath in disk && importer(disk[inputPath]).Ok?
    ensures inputPath !in disk ==>
      c.outcome.Failed? && NotFoundPrefix <= c.outcome.error && EndsWith(c.outcome.error, inputPath)
    ensures inputPath in disk && importer(disk[inputPath]).Err? ==>
      c.outcome == Failed(importer(disk[inputPath]).error)
    ensures c.outcome.Failed? ==> c.disk == disk
    ensures c.outcome.Converted? ==>
      && c.disk == disk[outputPath := importer(disk[inputPath]).value]
      && c.outcome.outputPath == outputPath
      && c.outcome.outputSize == |c.disk[outputPath]|
      && c.outcome.inputSize == |c.disk[inputPath]|
  {
    if inputPath !in disk then
      Conversion(Failed(NotFoundPrefix + inputPath), disk)
    else
      match importer(disk[inputPath])
      case Err(message) => Conversion(Failed(message), disk)
      case Ok(data) =>
        var written := disk[outputPath := data];
        Conversion(Converted(|written[inputPath]|, |written[outputPath]|, outputPath), written)
  }

  /** Converting a file onto itself reports the output's size as the input's. */
  lemma InPlaceConversionSizes(disk: Disk, path: string, importer: Importer)
    requires ConvertFile(disk, path, path, importer).outcome.Converted?
    ensures var o := ConvertFile(disk, path, path, importer).outcome;
      o.inputSize == o.outputSize == |importer(disk[path]).value|
  {
  }

  // ---------------------------------------------------------------------
  // convertDirectory

  /** One element of `results`: `{inputFile, outputFile, ...result}`. */
  datatype FileRecord = FileRecord(inputFile: string, outputFile: string, outcome: FileOutcome)

  /** What `convertDirectory` returns: `{success: true, converted: 0}`,
      `{success: true, converted, total, results}` or `{success: false, error}`. */
  datatype BatchOutcome =
    | NoIfcFiles
    | Batch(converted: nat, total: nat, results: seq<FileRecord>)
    | DirectoryFailed(error: string)
  {
    predicate Success() {
      !DirectoryFailed?
    }
  }

  /** `results.filter(r => r.success).length` */
  function CountSuccesses(results: seq<FileRecord>): (n: nat)
    ensures n <= |results|
    ensures n == |results| <==> forall i :: 0 <= i < |results| ==> results[i].outcome.Converted?
    ensures n == 0 <==> forall i :: 0 <= i < |results| ==> results[i].outcome.Failed?
  {
    if results == [] then 0
    else
      var rest := CountSuccesses(results[1..]);
      assert forall i :: 1 <= i < |results| ==> results[i] == results[1..][i - 1];
      (if results[0].outcome.Converted? then 1 else 0) + rest
  }

  /** A single record counts one exactly when it converted. */
  lemma CountSuccessesOne(record: FileRecord)
    ensures CountSuccesses([record]) == if record.outcome.Converted? then 1 else 0
  {
    assert [record][1..] == [];
  }

  /** The count of a concatenation is the sum of the counts, so with
      `CountSuccessesOne` it is the number of converted records. */
  lemma {:induction false} CountSuccessesConcat(a: seq<FileRecord>, b: seq<FileRecord>)
    ensures CountSuccesses(a + b) == CountSuccesses(a) + CountSuccesses(b)
  {
    if a == [] {
      assert a + b == b;
    } else {
      TailOfConcat(a, b);
      CountSuccessesConcat(a[1..], b);
    }
  }

  /** The records and the final disk of converting the selected entries one
      after another, each on the disk the previous ones left. */
  function RunBatch(disk: Disk, inputDir: string, outputDir: string, names: seq<string>, importer: Importer)
    : (r: (seq<FileRecord>, Disk))
    decreases |names|
    ensures |r.0| == |names|
  {
    if names == [] then ([], disk)
    else
      var inputFile := Join(inputDir, names[0]);
      var outputFile := Join(outputDir, OutputName(names[0]));
      var c := ConvertFile(disk, inputFile, outputFile, importer);
      var rest := RunBatch(c.disk, inputDir, outputDir, names[1..], importer);
      ([FileRecord(inputFile, outputFile, c.outcome)] + rest.0, rest.1)
  }

  /** One record per selected entry, in order, naming its input path and
      its derived output path. */
  lemma {:induction false} BatchRecordPaths(
    disk: Disk, inputDir: string, outputDir: string, names: seq<string>, importer: Importer)
    decreases |names|
    ensures var records := RunBatch(disk, inputDir, outputDir, names, importer).0;
      && |records| == |names|
      && forall i :: 0 <= i < |names| ==>
        && records[i].inputFile == Join(inputDir, names[i])
        && records[i].outputFile == Join(outputDir, OutputName(names[i]))
  {
    if names != [] {
      var c := ConvertFile(disk, Join(inputDir, names[0]), Join(outputDir, OutputName(names[0])), importer);
      BatchRecordPaths(c.disk, inputDir, outputDir, names[1..], importer);
    }
  }

  lemma RunBatchStep(disk: Disk, inputDir: string, outputDir: string, names: seq<string>, importer: Importer)
    requires names != []
    ensures
      var inputFile := Join(inputDir, names[0]);
      var outputFile := Join(outputDir, OutputName(names[0]));
      var c := ConvertFile(disk, inputFile, outputFile, importer);
      var rest := RunBatch(c.disk, inputDir, outputDir, names[1..], importer);
      RunBatch(disk, inputDir, outputDir, names, importer) == ([FileRecord(inputFile, outputFile, c.outcome)] + rest.0, rest.1)
  {
  }

  /** The outcome of a conversion depends on the disk only through the
      input file. */
  lemma ConvertFileReadsOnlyInput(disk: Disk, disk': Disk, inputPath: string, outputPath: string, importer: Importer)
    requires inputPath in disk <==> inputPath in disk'
    requires inputPath in disk ==> disk[inputPath] == disk'[inputPath]
    ensures ConvertFile(disk, inputPath, outputPath, importer).outcome
         == ConvertFile(disk', inputPath, outputPath, importer).outcome
  {
  }

  /** Each selected file's result depends only on its own input on the
      original disk: earlier outputs never overwrite a later input. */
  lemma {:induction false} BatchResultOfEachFile(
    disk: Disk, inputDir: string, outputDir: string, names: seq<string>, importer: Importer, i: nat)
    requires forall n :: n in names ==> IsIfcFile(n)
    requires i < |names|
    decreases |names|
    ensures var outcome := RunBatch(disk, inputDir, outputDir, names, importer).0[i].outcome;
      outcome == ConvertFile(disk, Join(inputDir, names[i]), Join(outputDir, OutputName(names[i])), importer).outcome
  {
    var inputFile := Join(inputDir, names[0]);
    var outputFile := Join(outputDir, OutputName(names[0]));
    var c := ConvertFile(disk, inputFile, outputFile, importer);
    if i > 0 {
      RunBatchStep(disk, inputDir, outputDir, names, importer);
      var rest := names[1..];
      assert names[i] in names;
      assert rest[i - 1] == names[i];
      BatchResultOfEachFile(c.disk, inputDir, outputDir, rest, importer, i - 1);
      var input := Join(inputDir, names[i]);
      OutputIsNeverAnInput(inputDir, outputDir, names[i], names[0]);
      ConvertFileReadsOnlyInput(c.disk, disk, input, Join(outputDir, OutputName(names[i])), importer);
    }
  }

  /** A batch writes nothing but the output paths of its entries. */
  lemma {:induction false} BatchWritesOnlyOutputs(
    disk: Disk, inputDir: string, outputDir: string, names: seq<string>, importer: Importer, path: string)
    requires forall n :: n in names ==> Join(outputDir, OutputName(n)) != path
    decreases |names|
    ensures var after := RunBatch(disk, inputDir, outputDir, names, importer).1;
      (path in after <==> path in disk) && (path in disk ==> after[path] == disk[path])
  {
    if names != [] {
      var c := ConvertFile(disk, Join(inputDir, names[0]), Join(outputDir, OutputName(names[0])), importer);
      assert names[0] in names;
      assert forall n :: n in names[1..] ==> n in names;
      BatchWritesOnlyOutputs(c.disk, inputDir, outputDir, names[1..], importer, path);
    }
  }

  /** A batch removes no file. */
  lemma {:induction false} BatchKeepsFiles(
    disk: Disk, inputDir: string, outputDir: string, names: seq<string>, importer: Importer, path: string)
    requires path in disk
    decreases |names|
    ensures path in RunBatch(disk, inputDir, outputDir, names, importer).1
  {
    if names != [] {
      var c := ConvertFile(disk, Join(inputDir, names[0]), Join(outputDir, OutputName(names[0])), importer);
      BatchKeepsFiles(c.disk, inputDir, outputDir, names[1..], importer, path);
    }
  }

  /** Every file a batch reports as converted exists at its output path
      afterwards. */
  lemma {:induction false} BatchConvertedOutputsExist(
    disk: Disk, inputDir: string, outputDir: string, names: seq<string>, importer: Importer, i: nat)
    requires i < |names|
    requires RunBatch(disk, inputDir, outputDir, names, importer).0[i].outcome.Converted?
    decreases |names|
    ensures var run := RunBatch(disk, inputDir, outputDir, names, importer);
      run.0[i].outputFile in run.1
  {
    var inputFile := Join(inputDir, names[0]);
    var outputFile := Join(outputDir, OutputName(names[0]));
    var c := ConvertFile(disk, inputFile, outputFile, importer);
    RunBatchStep(disk, inputDir, outputDir, names, importer);
    if i == 0 {
      BatchKeepsFiles(c.disk, inputDir, outputDir, names[1..], importer, outputFile);
    } else {
      BatchConvertedOutputsExist(c.disk, inputDir, outputDir, names[1..], importer, i - 1);
    }
  }

  /** The loop of `convertDirectory`: convert each selected file in turn
      and push its record onto `results`. */
  method ConvertEach(disk: Disk, inputDir: string, outputDir: string, ifcFiles: seq<string>, importer: Importer)
    returns (results: seq<FileRecord>, current: Disk)
    ensures (results, current) == RunBatch(disk, inputDir, outputDir, ifcFiles, importer)
  {
    results, current := [], disk;
    assert ifcFiles[0..] == ifcFiles;
    for k := 0 to |ifcFiles|
      invariant
        var run := RunBatch(disk, inputDir, outputDir, ifcFiles, importer);
        var rest := RunBatch(current, inputDir, outputDir, ifcFiles[k..], importer);
        run.0 == results + rest.0 && run.1 == rest.1
    {
      var inputFile := Join(inputDir, ifcFiles[k]);
      var outputFile := Join(outputDir, OutputName(ifcFiles[k]));
      var c := ConvertFile(current, inputFile, outputFile, importer);
      RunBatchStep(current, inputDir, outputDir, ifcFiles[k..], importer);
      assert ifcFiles[k..][0] == ifcFiles[k] && ifcFiles[k..][1..] == ifcFiles[k + 1..];
      ghost var tail := RunBatch(c.disk, inputDir, outputDir, ifcFiles[k + 1..], importer);
      assert results + [FileRecord(inputFile, outputFile, c.outcome)] + tail.0
          == results + ([FileRecord(inputFile, outputFile, c.outcome)] + tail.0);
      results := results + [FileRecord(inputFile, outputFile, c.outcome)];
      current := c.disk;
    }
    assert ifcFiles[|ifcFiles|..] == [];
    assert RunBatch(current, inputDir, outputDir, [], importer) == ([], current);
    assert results + [] == results;
  }

  /** The disk after `convertDirectory`: unchanged when the scan fails or
      selects nothing, otherwise what the batch over the selection leaves. */
  function BatchDisk(disk: Disk, scan: Result<seq<string>>, inputDir: string, outputDir: string, importer: Importer): Disk {
    if scan.Err? || SelectIfcFiles(scan.value) == [] then disk
    else RunBatch(disk, inputDir, outputDir, SelectIfcFiles(scan.value), importer).1
  }

  /** `convertDirectory(inputDir, outputDir)` given the outcome of scanning
      the input directory. */
  method ConvertDirectory(disk: Disk, scan: Result<seq<string>>, inputDir: string, outputDir: string, importer: Importer)
    returns (r: BatchOutcome, after: Disk)
    ensures r.Success() <==> scan.Ok?
    ensures scan.Err? ==> r == DirectoryFailed(scan.error) && after == disk
    ensures scan.Ok? && SelectIfcFiles(scan.value) == [] ==> r == NoIfcFiles && after == disk
    ensures scan.Ok? && SelectIfcFiles(scan.value) != [] ==>
      var selected := SelectIfcFiles(scan.value);
      var run := RunBatch(disk, inputDir, outputDir, selected, importer);
      && r == Batch(CountSuccesses(run.0), |selected|, run.0)
      && after == run.1
    ensures r.Batch? ==> r.converted <= r.total == |r.results|
    ensures after == BatchDisk(disk, scan, inputDir, outputDir, importer)
  {
    if scan.Err? {
      return DirectoryFailed(scan.error), disk;
    }
    var ifcFiles := SelectIfcFiles(scan.value);
    if |ifcFiles| == 0 {
      return NoIfcFiles, disk;
    }
    var results, current := ConvertEach(disk, inputDir, outputDir, ifcFiles, importer);
    var successful := CountSuccesses(results);
    r := Batch(successful, |results|, results);
    after := current;
  }

  // ---------------------------------------------------------------------
  // main

  datatype Command =
    | Usage
    | TestRun
    | SingleFile(input: Option<string>, output: Option<string>)
    | DirectoryRun(inputDir: Option<string>, outputDir: Option<string>)
    | InvalidArguments

  /** `args[args.indexOf(flag) + 1]`, `undefined` being `None`. For an
      absent flag `indexOf` is -1, so this reads `args[0]`; `main` only
      reads a flag's value after checking that the flag is present. */
  function FlagValue(args: seq<string>, flag: string): (r: Option<string>)
    ensures flag in args && r.Some? ==>
      exists i :: 0 <= i < |args| - 1 && args[i] == flag && flag !in args[..i] && r.value == args[i + 1]
    ensures flag in args ==> (r.None? <==> args[|args| - 1] == flag && flag !in args[..|args| - 1])
    ensures flag !in args ==> r == if args == [] then None else Some(args[0])
  {
    var i := IndexOf(args, flag);
    assert i >= 0 ==> flag !in args[..i];
    assert flag in args ==> i >= 0 && args[i] == flag;
    assert i >= 0 && args[|args| - 1] == flag && flag !in args[..|args| - 1] ==> i == |args| - 1;
    if i + 1 < |args| then Some(args[i + 1]) else None
  }

  /** How `main` reads its arguments: no arguments print the usage, `--test`
      anywhere wins, then `--input` with `--output`, then `--input-dir` with
      `--output-dir`; anything else is an error. */
  function Dispatch(args: seq<string>): (c: Command)
    ensures c == Usage <==> args == []
    ensures c == TestRun <==> "--test" in args
    ensures c.SingleFile? <==> "--test" !in args && "--input" in args && "--output" in args
    ensures c.DirectoryRun? <==>
      && "--test" !in args
      && !("--input" in args && "--output" in args)
      && "--input-dir" in args && "--output-dir" in args
    ensures c == InvalidArguments <==>
      && args != []
      && "--test" !in args
      && !("--input" in args && "--output" in args)
      && !("--input-dir" in args && "--output-dir" in args)
    ensures c.SingleFile? ==> c.input == FlagValue(args, "--input") && c.output == FlagValue(args, "--output")
    ensures c.DirectoryRun? ==> c.inputDir == FlagValue(args, "--input-dir") && c.outputDir == FlagValue(args, "--output-dir")
  {
    if |args| == 0 then Usage
    else if "--test" in args then TestRun
    else if IndexOf(args, "--input") != -1 && IndexOf(args, "--output") != -1 then
      SingleFile(FlagValue(args, "--input"), FlagValue(args, "--output"))
    else if IndexOf(args, "--input-dir") != -1 && IndexOf(args, "--output-dir") != -1 then
      DirectoryRun(FlagValue(args, "--input-dir"), FlagValue(args, "--output-dir"))
    else InvalidArguments
  }

  /** `convertFile(inputFile, outputFile)` where either may be `undefined`:
      `existsSync(undefined)` is false, and `writeFileSync(undefined, ...)`
      throws after the importer ran. */
  function ConvertArgs(disk: Disk, input: Option<string>, output: Option<string>, importer: Importer): (c: Conversion)
    ensures c.outcome.Converted? <==>
      input.Some? && output.Some? && input.value in disk && importer(disk[input.value]).Ok?
    ensures input.Some? && output.Some? ==> c == ConvertFile(disk, input.value, output.value, importer)
    ensures c.outcome.Failed? ==> c.disk == disk
  {
    match (input, output)
    case (None, _) => Conversion(Failed(NotFoundPrefix + "undefined"), disk)
    case (Some(inputPath), None) =>
      if inputPath !in disk then Conversion(Failed(NotFoundPrefix + inputPath), disk)
      else if importer(disk[inputPath]).Err? then Conversion(Failed(importer(disk[inputPath]).error), disk)
      else Conversion(Failed(InvalidPathMessage), disk)
    case (Some(inputPath), Some(outputPath)) => ConvertFile(disk, inputPath, outputPath, importer)
  }

  function OrEmpty(value: Option<string>): string {
    if value.Some? then value.value else ""
  }

  /** `main()`: the exit code and the disk afterwards. `scan(inputDir,
      outputDir)` is what creating the output directory and listing the
      input directory give; the test directories are fixed by the script's
      location. */
  method RunCli(
    args: seq<string>, disk: Disk, scan: (string, string) -> Result<seq<string>>, importer: Importer,
    testInputDir: string, testOutputDir: string)
    returns (exitCode: int, after: Disk)
    ensures exitCode == 0 || exitCode == 1
    ensures Dispatch(args) == Usage || Dispatch(args) == InvalidArguments ==> exitCode == 1 && after == disk
    ensures Dispatch(args) == TestRun ==> (exitCode == 0 <==> scan(testInputDir, testOutputDir).Ok?)
    ensures Dispatch(args).DirectoryRun? ==>
      var c := Dispatch(args);
      (exitCode == 0 <==> c.inputDir.Some? && c.outputDir.Some? && scan(c.inputDir.value, c.outputDir.value).Ok?)
    ensures Dispatch(args) == TestRun ==>
      after == BatchDisk(disk, scan(testInputDir, testOutputDir), testInputDir, testOutputDir, importer)
    ensures Dispatch(args).DirectoryRun? ==>
      var c := Dispatch(args);
      after == if c.inputDir.Some? && c.outputDir.Some?
               then BatchDisk(disk, scan(c.inputDir.value, c.outputDir.value), c.inputDir.value, c.outputDir.value, importer)
               else disk
    ensures Dispatch(args).SingleFile? ==>
      var c := Dispatch(args);
      && (exitCode == 0 <==> c.input.Some? && c.output.Some? && c.input.value in disk && importer(disk[c.input.value]).Ok?)
      && after == ConvertArgs(disk, c.input, c.output, importer).disk
  {
    var command := Dispatch(args);
    match command
    case Usage =>
      exitCode, after := 1, disk;
    case TestRun =>
      var result;
      result, after := ConvertDirectory(disk, scan(testInputDir, testOutputDir), testInputDir, testOutputDir, importer);
      exitCode := if result.Success() then 0 else 1;
    case SingleFile(input, output) =>
      var c := ConvertArgs(disk, input, output, importer);
      after := c.disk;
      exitCode := if c.outcome.Converted? then 0 else 1;
    case DirectoryRun(inputDir, outputDir) =>
      var listing := if inputDir.Some? && outputDir.Some? then scan(inputDir.value, outputDir.value)
                     else Err(InvalidPathMessage);
      var result;
      result, after := ConvertDirectory(disk, listing, OrEmpty(inputDir), OrEmpty(outputDir), importer);
      exitCode := if result.Success() then 0 else 1;
    case InvalidArguments =>
      exitCode, after := 1, disk;
  }
}
