/** The backend API of backend/app.py: the fragment-name mapper, the two
    directory listings (`/api/fragments`, `/api/ifc` with its correlation
    of every IFC file to a fragment file), the status summary
    (`/api/status`) and the lookup behind `/api/fragments/<filename>`.

    A directory is a snapshot: a map from file name to what `stat` and a
    read report, plus the order in which the operating system enumerates
    the names (the order `glob` yields them in). A directory that does
    not exist is the empty directory: `Path.glob` on it yields nothing. */
module App {
  import opened Strings
  import opened Wrappers

  /** One file as `stat` and `open` see it: its bytes (`st_size` is their
      number), `st_mtime` and `st_ctime`, the last two as opaque numbers. */
  datatype FileEntry = FileEntry(content: seq<bv8>, mtime: int, ctime: int) {
    function Size(): nat { |content| }
  }

  /** A directory: its files, and the enumeration order, which lists every
      file exactly once. */
  datatype RawDirectory = RawDirectory(files: map<string, FileEntry>, order: seq<string>) {
    predicate WellFormed() {
      NoDuplicates(order) && (set n | n in order) == files.Keys
    }
  }

  type Directory = d: RawDirectory | d.WellFormed() witness RawDirectory(map[], [])

  const IfcSuffix := ".ifc"
  const FragSuffix := ".frag"
  const FragmentRoute := "/api/fragments/"
  const NotFoundMessage := "Fragment file not found: "

  // ---------------------------------------------------------------------
  // Glob

  /** The names in `names` that match the pattern `"*" + suffix`, in order. */
  function Filter(names: seq<string>, suffix: string): (r: seq<string>)
    ensures forall n :: n in r <==> n in names && EndsWith(n, suffix)
    ensures NoDuplicates(names) ==> NoDuplicates(r)
  {
    if names == [] then []
    else
      var rest := Filter(names[1..], suffix);
      if EndsWith(names[0], suffix) then
        assert NoDuplicates(names) ==> names[0] !in names[1..];
        [names[0]] + rest
      else rest
  }

  /** The names of a directory matching `"*" + suffix` (case-sensitive). */
  function MatchingNames(d: Directory, suffix: string): set<string> {
    set n | n in d.files && EndsWith(n, suffix)
  }

  /** `d.glob("*" + suffix)`: every matching file once, in enumeration order. */
  function Glob(d: Directory, suffix: string): (r: seq<string>)
    ensures forall n :: n in r <==> n in d.files && EndsWith(n, suffix)
    ensures NoDuplicates(r)
    ensures |r| == |MatchingNames(d, suffix)|
  {
    var r := Filter(d.order, suffix);
    DistinctCardinality(r);
    assert (set n | n in r) == MatchingNames(d, suffix);
    r
  }

  // ---------------------------------------------------------------------
  // Name mapper (backend/app.py line 70)

  /** `Path(name).stem`: the name without its last suffix, where a suffix
      is a final `.` part that neither starts the name nor is empty. */
  function Stem(name: string): string {
    var i := RFind(name, '.');
    if 0 < i < |name| - 1 then name[..i] else name
  }

  /** `stem.replace(' ', '_').replace('(', '').replace(')', '')` */
  function Substitute(stem: string): string {
    DeleteAll(DeleteAll(ReplaceAll(stem, ' ', '_'), '('), ')')
  }

  /** The fragment file name the backend looks for beside an IFC file. */
  function FragmentName(ifcName: string): string {
    Substitute(Stem(ifcName)) + FragSuffix
  }

  predicate NoSpaceOrParen(s: string) {
    ' ' !in s && '(' !in s && ')' !in s
  }

  /** A name matched by `*.ifc` loses exactly its `.ifc`, except the name
      `.ifc` itself, whose only dot starts the name. */
  lemma StemOfIfcName(name: string)
    requires EndsWith(name, IfcSuffix)
    ensures Stem(name) == if name == IfcSuffix then name else name[..|name| - 4]
  {
    var i := RFind(name, '.');
    RFindLast(name, '.');
    assert name[|name| - 4] == '.';
    assert name[|name| - 3..] == "ifc";
    assert i == |name| - 4;
    if |name| == 4 {
      assert name == name[|name| - 4..];
    }
  }

  /** The substitution works character by character: it distributes over
      concatenation, and on one character it turns a space into `_`,
      deletes a parenthesis and keeps anything else. */
  lemma SubstituteConcat(a: string, b: string)
    ensures Substitute(a + b) == Substitute(a) + Substitute(b)
  {
    ReplaceConcat(a, b, ' ', '_');
    var ra, rb := ReplaceAll(a, ' ', '_'), ReplaceAll(b, ' ', '_');
    DeleteConcat(ra, rb, '(');
    DeleteConcat(DeleteAll(ra, '('), DeleteAll(rb, '('), ')');
  }

  lemma SubstituteChar(c: char)
    ensures Substitute([c]) == if c == ' ' then "_" else if c == '(' || c == ')' then "" else [c]
  {
    var c' := if c == ' ' then '_' else c;
    ReplaceAllAt([c], ' ', '_');
    assert ReplaceAll([c], ' ', '_') == [c'];
    DeleteOne(c', '(');
    if c' != '(' {
      DeleteOne(c', ')');
    }
  }

  /** The substituted stem holds no space and no parenthesis. */
  lemma SubstituteIsClean(stem: string)
    ensures NoSpaceOrParen(Substitute(stem))
  {
    var a := ReplaceAll(stem, ' ', '_');
    ReplaceAllAt(stem, ' ', '_');
    assert ' ' !in a;
    DeleteAllMembers(a, '(');
    DeleteAllMembers(DeleteAll(a, '('), ')');
  }

  /** A mapped name holds no space and no parenthesis and ends in `.frag`. */
  lemma FragmentNameShape(ifcName: string)
    ensures NoSpaceOrParen(FragmentName(ifcName))
    ensures EndsWith(FragmentName(ifcName), FragSuffix)
  {
    var s := Substitute(Stem(ifcName));
    SubstituteIsClean(Stem(ifcName));
    assert FragmentName(ifcName) == s + FragSuffix;
    assert (s + FragSuffix)[|s|..] == FragSuffix;
    forall k | 0 <= k < |s + FragSuffix|
      ensures (s + FragSuffix)[k] !in {' ', '(', ')'}
    {
      if k < |s| {
        assert (s + FragSuffix)[k] == s[k];
      }
    }
  }

  /** The substitution leaves a stem unchanged exactly when it holds no
      space and no parenthesis. */
  lemma SubstituteFixedIff(stem: string)
    ensures Substitute(stem) == stem <==> NoSpaceOrParen(stem)
  {
    SubstituteIsClean(stem);
    if NoSpaceOrParen(stem) {
      var a := ReplaceAll(stem, ' ', '_');
      ReplaceAllAt(stem, ' ', '_');
      assert a == stem;
      DeleteAbsent(stem, '(');
      DeleteAbsent(stem, ')');
    }
  }

  /** Substituting an already substituted stem changes nothing. */
  lemma SubstituteIdempotent(stem: string)
    ensures Substitute(Substitute(stem)) == Substitute(stem)
  {
    SubstituteIsClean(stem);
    SubstituteFixedIff(Substitute(stem));
  }

  /** A stem of the form `a (b) c` maps to `a_b_c`. */
  lemma SubstituteParenthesised(a: string, b: string, c: string)
    requires NoSpaceOrParen(a) && NoSpaceOrParen(b) && NoSpaceOrParen(c)
    ensures Substitute(a + " (" + b + ") " + c) == a + "_" + b + "_" + c
  {
    SubstituteFixedIff(a);
    SubstituteFixedIff(b);
    SubstituteFixedIff(c);
    assert Substitute(" (") == "_" by {
      SubstituteChar(' ');
      SubstituteChar('(');
      assert " (" == [' '] + ['('];
      SubstituteConcat([' '], ['(']);
    }
    assert Substitute(") ") == "_" by {
      SubstituteChar(')');
      SubstituteChar(' ');
      assert ") " == [')'] + [' '];
      SubstituteConcat([')'], [' ']);
    }
    SubstituteConcat(a, " (");
    SubstituteConcat(a + " (", b);
    SubstituteConcat(a + " (" + b, ") ");
    SubstituteConcat(a + " (" + b + ") ", c);
  }

  /** A stem with a suffix appended has that suffix matched by `*.ifc`
      and loses exactly it. */
  lemma StemOfAppended(stem: string)
    requires stem != []
    ensures EndsWith(stem + IfcSuffix, IfcSuffix)
    ensures Stem(stem + IfcSuffix) == stem
  {
    var name := stem + IfcSuffix;
    assert name[|name| - 4..] == IfcSuffix;
    StemOfIfcName(name);
    assert name[..|name| - 4] == stem;
  }

  /** A name shaped like the example `Building (v2) Plan.ifc` maps like
      it does, to `Building_v2_Plan.frag`, for any words in place of
      `Building`, `v2` and `Plan`. */
  lemma FragmentNameOfParenthesised(a: string, b: string, c: string)
    requires NoSpaceOrParen(a) && NoSpaceOrParen(b) && NoSpaceOrParen(c)
    ensures FragmentName(a + " (" + b + ") " + c + IfcSuffix) == a + "_" + b + "_" + c + FragSuffix
  {
    var stem := a + " (" + b + ") " + c;
    StemOfAppended(stem);
    SubstituteParenthesised(a, b, c);
  }

  // ---------------------------------------------------------------------
  // Sizes

  const BytesPerMb: nat := 1048576

  /** `round(size / (1024 * 1024), 2)`, in hundredths of a megabyte. The
      quotient is an exact double, and `round` takes the nearest hundredth,
      the even one on a tie. */
  function SizeMb(bytes: nat): nat {
    var q := (100 * bytes) / 1048576;
    var rem := (100 * bytes) % 1048576;
    if 2 * rem > 1048576 || (2 * rem == 1048576 && q % 2 == 1) then q + 1 else q
  }

  /** `SizeMb` is the nearest number of hundredths of a megabyte, the even
      one on a tie. */
  lemma SizeMbRounds(bytes: nat)
    ensures var h := SizeMb(bytes);
      && 2 * 1048576 * h <= 200 * bytes + 1048576
      && 200 * bytes <= 2 * 1048576 * h + 1048576
      && (200 * bytes + 1048576 == 2 * 1048576 * h ==> h % 2 == 0)
      && (200 * bytes == 2 * 1048576 * h + 1048576 ==> h % 2 == 0)
  {
  }

  function Sum(xs: seq<nat>): nat {
    if xs == [] then 0 else xs[0] + Sum(xs[1..])
  }

  /** The listings total the already rounded sizes, which can differ from
      the rounded total of the byte sizes. */
  lemma RoundedSumDiffersFromRoundedTotal()
    ensures Sum([SizeMb(5243), SizeMb(5243)]) == 2
    ensures SizeMb(5243 + 5243) == 1
  {
  }

  // ---------------------------------------------------------------------
  // GET /api/fragments

  datatype FragmentInfo = FragmentInfo(filename: string, sizeMb: nat, created: int, modified: int, url: string)

  datatype FragmentListing = FragmentListing(fragments: seq<FragmentInfo>, count: nat, totalSizeMb: nat)

  function FragmentSizes(fragments: seq<FragmentInfo>): seq<nat> {
    seq(|fragments|, i requires 0 <= i < |fragments| => fragments[i].sizeMb)
  }

  /** `list_fragments`: one entry per `*.frag` file, in glob order. */
  method ListFragments(fragmentsDir: Directory) returns (r: FragmentListing)
    ensures r.count == |r.fragments| == |MatchingNames(fragmentsDir, FragSuffix)|
    ensures forall i :: 0 <= i < |r.fragments| ==> r.fragments[i].filename == Glob(fragmentsDir, FragSuffix)[i]
    ensures forall i, j :: 0 <= i < j < |r.fragments| ==> r.fragments[i].filename != r.fragments[j].filename
    ensures forall n :: n in MatchingNames(fragmentsDir, FragSuffix) ==>
      exists i :: 0 <= i < |r.fragments| && r.fragments[i].filename == n
    ensures forall e :: e in r.fragments ==>
      && e.filename in MatchingNames(fragmentsDir, FragSuffix)
      && e.url == FragmentRoute + e.filename
      && e.sizeMb == SizeMb(fragmentsDir.files[e.filename].Size())
      && e.created == fragmentsDir.files[e.filename].ctime
      && e.modified == fragmentsDir.files[e.filename].mtime
    ensures r.totalSizeMb == Sum(FragmentSizes(r.fragments))
  {
    var names := Glob(fragmentsDir, FragSuffix);
    var fragments: seq<FragmentInfo> := [];
    for k := 0 to |names|
      invariant |fragments| == k
      invariant forall i :: 0 <= i < k ==>
        && fragments[i].filename == names[i]
        && fragments[i].url == FragmentRoute + names[i]
        && fragments[i].sizeMb == SizeMb(fragmentsDir.files[names[i]].Size())
        && fragments[i].created == fragmentsDir.files[names[i]].ctime
        && fragments[i].modified == fragmentsDir.files[names[i]].mtime
    {
      var entry := fragmentsDir.files[names[k]];
      fragments := fragments + [FragmentInfo(names[k], SizeMb(entry.Size()), entry.ctime, entry.mtime, FragmentRoute + names[k])];
    }
    forall n | n in MatchingNames(fragmentsDir, FragSuffix)
      ensures exists i :: 0 <= i < |fragments| && fragments[i].filename == n
    {
      var i :| 0 <= i < |names| && names[i] == n;
      assert fragments[i].filename == n;
    }
    r := FragmentListing(fragments, |fragments|, Sum(FragmentSizes(fragments)));
  }

  // ---------------------------------------------------------------------
  // GET /api/fragments/<filename>

  /** What the route answers: the file's bytes, or a 404 with an error. */
  datatype Response = FileBytes(content: seq<bv8>) | NotFound(error: string) {
    function StatusCode(): int {
      if NotFound? then 404 else 200
    }
  }

  /** `serve_fragment`: the bytes of the named file, or a 404 naming it. */
  function ServeFragment(fragmentsDir: Directory, filename: string): (r: Response)
    ensures r.NotFound? <==> filename !in fragmentsDir.files
    ensures r.NotFound? ==>
      r.StatusCode() == 404 && NotFoundMessage <= r.error && EndsWith(r.error, filename)
    ensures r.FileBytes? ==> r.content == fragmentsDir.files[filename].content
  {
    if filename !in fragmentsDir.files then NotFound(NotFoundMessage + filename)
    else FileBytes(fragmentsDir.files[filename].content)
  }

  /** Every URL the fragment listing hands out is served with that file's
      bytes, when the name has no character that a URL decodes or cuts
      (the listing does not percent-encode it). */
  lemma ListedUrlIsServed(fragmentsDir: Directory, name: string)
    requires name in Glob(fragmentsDir, FragSuffix)
    requires '%' !in name && '?' !in name && '#' !in name
    ensures var url := FragmentRoute + name;
      ServeFragment(fragmentsDir, url[|FragmentRoute|..]) == FileBytes(fragmentsDir.files[name].content)
  {
  }

  // ---------------------------------------------------------------------
  // GET /api/ifc

  datatype IfcInfo = IfcInfo(
    filename: string,
    sizeMb: nat,
    modified: int,
    hasFragments: bool,
    fragmentFile: Option<string>,
    fragmentSizeMb: Option<nat>)

  datatype IfcListing = IfcListing(ifcFiles: seq<IfcInfo>, count: nat, totalSizeMb: nat)

  function IfcSizes(files: seq<IfcInfo>): seq<nat> {
    seq(|files|, i requires 0 <= i < |files| => files[i].sizeMb)
  }

  function IfcNames(files: seq<IfcInfo>): seq<string> {
    seq(|files|, i requires 0 <= i < |files| => files[i].filename)
  }

  /** The entry `list_ifc_files` builds for one IFC file: the IFC file's own
      name, size and time, and the fragment file of its mapped name when
      one exists. */
  function Correlate(ifcName: string, ifc: FileEntry, fragments: map<string, FileEntry>): (e: IfcInfo)
    ensures e.filename == ifcName && e.sizeMb == SizeMb(ifc.Size()) && e.modified == ifc.mtime
    ensures e.hasFragments <==> FragmentName(ifcName) in fragments
    ensures e.fragmentFile.Some? <==> e.hasFragments
    ensures e.fragmentSizeMb.Some? <==> e.hasFragments
    ensures e.hasFragments ==>
      && e.fragmentFile.value == FragmentName(ifcName)
      && e.fragmentSizeMb.value == SizeMb(fragments[FragmentName(ifcName)].Size())
  {
    var fragmentName := FragmentName(ifcName);
    var found := fragmentName in fragments;
    IfcInfo(
      ifcName,
      SizeMb(ifc.Size()),
      ifc.mtime,
      found,
      if found then Some(fragmentName) else None,
      if found then Some(SizeMb(fragments[fragmentName].Size())) else None)
  }

  /** The correlated entries of `names`, in order. */
  function CorrelateAll(names: seq<string>, ifcFiles: map<string, FileEntry>, fragments: map<string, FileEntry>): (r: seq<IfcInfo>)
    requires forall n :: n in names ==> n in ifcFiles
    ensures |r| == |names|
    ensures IfcNames(r) == names
  {
    if names == [] then []
    else
      var last := names[|names| - 1];
      var init := CorrelateAll(names[..|names| - 1], ifcFiles, fragments);
      var r := init + [Correlate(last, ifcFiles[last], fragments)];
      assert IfcNames(r) == IfcNames(init) + [last];
      r
  }

  /** Entry `i` of the correlated entries is the correlation of `names[i]`. */
  lemma {:induction false} CorrelateAllAt(names: seq<string>, ifcFiles: map<string, FileEntry>, fragments: map<string, FileEntry>, i: int)
    requires forall n :: n in names ==> n in ifcFiles
    requires 0 <= i < |names|
    ensures CorrelateAll(names, ifcFiles, fragments)[i] == Correlate(names[i], ifcFiles[names[i]], fragments)
  {
    if i < |names| - 1 {
      var init := names[..|names| - 1];
      CorrelateAllAt(init, ifcFiles, fragments, i);
      assert init[i] == names[i];
    }
  }

  /** `list_ifc_files`: one entry per `*.ifc` file, in glob order (so
      every matching file once), each correlated with the fragment file of
      its mapped name. */
  method ListIfcFiles(ifcDir: Directory, fragmentsDir: Directory) returns (r: IfcListing)
    ensures IfcNames(r.ifcFiles) == Glob(ifcDir, IfcSuffix)
    ensures r.ifcFiles == CorrelateAll(Glob(ifcDir, IfcSuffix), ifcDir.files, fragmentsDir.files)
    ensures r.count == |r.ifcFiles| == |MatchingNames(ifcDir, IfcSuffix)|
    ensures r.totalSizeMb == Sum(IfcSizes(r.ifcFiles))
  {
    var names := Glob(ifcDir, IfcSuffix);
    var files: seq<IfcInfo> := [];
    for k := 0 to |names|
      invariant files == CorrelateAll(names[..k], ifcDir.files, fragmentsDir.files)
    {
      assert names[..k + 1][..k] == names[..k];
      files := files + [Correlate(names[k], ifcDir.files[names[k]], fragmentsDir.files)];
    }
    assert names[..|names|] == names;
    r := IfcListing(files, |files|, Sum(IfcSizes(files)));
  }

  /** A fragment file the IFC listing reports is also in the fragment
      listing, and its URL serves it. */
  lemma CorrelatedFragmentIsListed(fragmentsDir: Directory, ifcName: string)
    requires FragmentName(ifcName) in fragmentsDir.files
    ensures FragmentName(ifcName) in Glob(fragmentsDir, FragSuffix)
    ensures ServeFragment(fragmentsDir, FragmentName(ifcName)).FileBytes?
  {
  }

  // ---------------------------------------------------------------------
  // GET /api/status

  datatype StatusReport = StatusReport(ifcFiles: nat, fragmentFiles: nat, conversionComplete: bool)

  /** `get_status`: the number of `*.ifc` and `*.frag` files, and whether
      any fragment file exists at all. */
  function Status(ifcDir: Directory, fragmentsDir: Directory): (r: StatusReport)
    ensures r.ifcFiles == |MatchingNames(ifcDir, IfcSuffix)|
    ensures r.fragmentFiles == |MatchingNames(fragmentsDir, FragSuffix)|
    ensures r.conversionComplete <==> exists n :: n in fragmentsDir.files && EndsWith(n, FragSuffix)
  {
    var ifcCount := |Glob(ifcDir, IfcSuffix)|;
    var fragments := Glob(fragmentsDir, FragSuffix);
    assert |fragments| > 0 ==> fragments[0] in fragmentsDir.files;
    StatusReport(ifcCount, |fragments|, |fragments| > 0)
  }
}
