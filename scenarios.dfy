/** Concrete inputs and what the model gives for them: the default input types, a
    trailing comma, and the edge cases of the extension arithmetic. */
module Scenarios {
  import opened PyStr
  import opened PosixPath
  import opened Optimize

  /** The default input types parse to "jpg" and "png". */
  lemma DefaultTypes()
    ensures ParseInputTypes(DefaultInputTypes) == ["jpg", "png"]
  {
    assert JoinWith(["jpg", "png"], ',') == DefaultInputTypes;
    ParseOfJoinedTypes(["jpg", "png"]);
  }

  /** "jpg," parses to "jpg" and an empty type. */
  lemma TrailingCommaTypes()
    ensures ParseInputTypes("jpg,") == ["jpg", ""]
  {
    assert JoinWith(["jpg", ""], ',') == "jpg,";
    ParseOfJoinedTypes(["jpg", ""]);
  }

  /** A name without a dot has the empty extension, so "jpg," selects it. */
  lemma BareName(folderPath: string)
    ensures InputExtension("README") == ""
    ensures Selected(Resolve(folderPath, "jpg,", None, None), "README")
  {
    RFindUnique("README", Sep, -1);
    RFindUnique("README", ExtSep, -1);
    assert SplitExt("README").1 == "";
    TrailingCommaTypes();
  }

  /** A dot file has no extension: its only dot has nothing but dots before
      it. */
  lemma DotFile()
    ensures InputExtension(".bashrc") == ""
  {
    RFindUnique(".bashrc", Sep, -1);
    RFindUnique(".bashrc", ExtSep, 0);
    assert SplitExt(".bashrc").1 == "";
  }

  /** Nor does a name whose last dot has only dots before it. */
  lemma LeadingDots()
    ensures InputExtension("..jpg") == ""
  {
    RFindUnique("..jpg", Sep, -1);
    RFindUnique("..jpg", ExtSep, 1);
    assert "..jpg"[0..1] == ".";
    assert SplitExt("..jpg").1 == "";
  }

  /** "A.JPG" splits into "A" and ".JPG" and has extension "jpg"; without
      an output type it is written as "A.jpg". */
  lemma UpperCaseExtension()
    ensures SplitExt("A.JPG") == ("A", ".JPG")
    ensures InputExtension("A.JPG") == "jpg"
    ensures OutputFilename("A.JPG", OutputExtension(None, InputExtension("A.JPG"))) == "A.jpg"
  {
    UpperCaseSplit();
    ExtensionOfSplit("A.JPG", ".JPG");
    StrippedJpg();
    OwnExtensionOutput("A.JPG", "A", "jpg");
    DottedName();
  }

  /** "A", a dot and "jpg" spell "A.jpg". */
  lemma DottedName()
    ensures "A" + [ExtSep] + "jpg" == "A.jpg"
  {
  }

  /** `splitext` of "A.JPG" splits at its only dot. */
  lemma UpperCaseSplit()
    ensures SplitExt("A.JPG") == ("A", ".JPG")
  {
    RFindUnique("A.JPG", Sep, -1);
    RFindUnique("A.JPG", ExtSep, 1);
    assert "A.JPG"[0..1][0] != ExtSep;
    assert ExtStart("A.JPG") == 1;
    assert "A.JPG"[..1] == "A" && "A.JPG"[1..] == ".JPG";
  }

  /** ".JPG" lowercased and stripped of its dot is "jpg". */
  lemma StrippedJpg()
    ensures LStrip(Lower(".JPG"), [ExtSep]) == "jpg"
  {
    LowerAt(".JPG");
    assert Lower(".JPG") == ".jpg";
    assert |LStrip(".jpg", [ExtSep])| == 3;
    LStripSuffix(".jpg", [ExtSep]);
  }

  /** The input extension is computed from the text `splitext` splits off. */
  lemma ExtensionOfSplit(filename: string, raw: string)
    requires SplitExt(filename).1 == raw
    ensures InputExtension(filename) == LStrip(Lower(raw), [ExtSep])
  {
  }

  /** Without an output type, a name is written as its root, a dot and its
      input extension. */
  lemma OwnExtensionOutput(filename: string, root: string, ext: string)
    requires SplitExt(filename).0 == root && InputExtension(filename) == ext
    ensures OutputFilename(filename, OutputExtension(None, InputExtension(filename))) ==
            root + [ExtSep] + ext
  {
  }

  /** Two jobs where the library fails on the first: the first is reported
      as a Failure with the library's error and the second still succeeds. */
  lemma FirstFails(first: Job, second: Job, e: string)
    requires first != second
    ensures RunAll([first, second], j => if j == first then Raised(e) else Saved) ==
            [Failure(first, e), Success(second)]
  {
  }
}
