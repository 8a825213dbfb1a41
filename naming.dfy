/** The two name rules side by side: the backend looks for
    `FragmentName(name)` (spaces to `_`, parentheses dropped), while the
    batch converter writes `OutputName(name)` (spaces and parentheses
    kept, only a lower-case `.ifc` removed). The backend also lists only
    `*.ifc` in that exact case, while the converter takes any case. */
module Naming {
  import opened Strings
  import App
  import IfcConverter

  /** For a name ending in lower-case `.ifc`, the converter's output name is
      the name the backend looks for exactly when the stem has no space
      and no parenthesis. */
  lemma {:induction false} OutputNameMatchesFragmentNameIff(name: string)
    requires EndsWith(name, App.IfcSuffix)
    ensures IfcConverter.OutputName(name) == App.FragmentName(name) <==> App.NoSpaceOrParen(App.Stem(name))
  {
    var stem := App.Stem(name);
    App.StemOfIfcName(name);
    assert IfcConverter.BaseName(name) == stem;
    App.SubstituteFixedIff(stem);
    if IfcConverter.OutputName(name) == App.FragmentName(name) {
      SameSuffixCancels(stem, App.Substitute(stem), App.FragSuffix);
    }
  }

  /** A fragments directory holding just the converter's output for `name`:
      the backend's correlation finds it exactly when the stem has no
      space and no parenthesis. */
  lemma CorrelationFindsConverterOutput(name: string, ifc: App.FileEntry, output: App.FileEntry)
    requires EndsWith(name, App.IfcSuffix)
    ensures
      var outName := IfcConverter.OutputName(name);
      var fragmentsDir := App.RawDirectory(map[outName := output], [outName]);
      fragmentsDir.WellFormed() &&
      (App.Correlate(name, ifc, fragmentsDir.files).hasFragments <==> App.NoSpaceOrParen(App.Stem(name)))
  {
    var outName := IfcConverter.OutputName(name);
    var fragmentsDir := App.RawDirectory(map[outName := output], [outName]);
    assert (set n | n in [outName]) == {outName};
    OutputNameMatchesFragmentNameIff(name);
  }

  /** An upper-case `.IFC` file is converted, but the backend's `*.ifc`
      listing never shows it. */
  lemma UpperCaseIfcIsConvertedButNotListed()
    ensures IfcConverter.IsIfcFile("A.IFC")
    ensures !EndsWith("A.IFC", App.IfcSuffix)
    ensures IfcConverter.OutputName("A.IFC") == "A.IFC.frag"
  {
  }

  /** Names like the example name `Building (v2) Plan.ifc`: the
      converter writes `Building (v2) Plan.frag`, the backend looks for
      `Building_v2_Plan.frag`, and the two differ. */
  lemma {:induction false} ParenthesisedNamesDiverge(a: string, b: string, c: string)
    requires App.NoSpaceOrParen(a) && App.NoSpaceOrParen(b) && App.NoSpaceOrParen(c)
    ensures IfcConverter.OutputName(a + " (" + b + ") " + c + App.IfcSuffix) == a + " (" + b + ") " + c + App.FragSuffix
    ensures App.FragmentName(a + " (" + b + ") " + c + App.IfcSuffix) == a + "_" + b + "_" + c + App.FragSuffix
    ensures IfcConverter.OutputName(a + " (" + b + ") " + c + App.IfcSuffix) != App.FragmentName(a + " (" + b + ") " + c + App.IfcSuffix)
  {
    var stem := a + " (" + b + ") " + c;
    IfcConverter.BaseNameRoundTrip(stem);
    App.FragmentNameOfParenthesised(a, b, c);
    App.StemOfAppended(stem);
    assert stem[|a| + 1] == '(';
    assert !App.NoSpaceOrParen(stem);
    OutputNameMatchesFragmentNameIff(stem + App.IfcSuffix);
  }
}
