/** Worked examples of the argument rules, on concrete command lines. */
module CliExamples {
  import opened Text
  import opened Cli
  import opened Driver

  /** The extension test is containment, in any case: "a.IFC.bak" is a file name. */
  lemma MarkInsideName()
    ensures KindOf("a.IFC.bak") == FileName
  {
    assert IfcMarkAt("a.IFC.bak", 1);
  }

  lemma MarkAtEnd()
    ensures KindOf("model.ifc") == FileName
  {
    assert IfcMarkAt("model.ifc", 5);
  }

  /** An unknown flag falls through to the extension test and is rejected. */
  lemma UnknownFlagRejected()
    ensures KindOf("-z") == BadName
  {
    HasIfcMarkLength("-z");
  }

  lemma OtherExtensionRejected()
    ensures KindOf("model.xml") == BadName
  {
  }

  /** The output name of "model.ifc" is "model.xml"; "model.ifcxml" is its own output name. */
  lemma OutputNameExamples()
    ensures OutputName("model.ifc") == "model.xml"
    ensures OutputName("model.ifcxml") == "model.ifcxml"
  {
    OutputNameFixedPoint("model.ifcxml");
    assert "model.ifcxml"[9..] == "xml";
  }

  /**
   Only flags and no file: the line is accepted with nothing to process, and the
   whole run, whatever the files on disk, exits with EXIT_SUCCESS having printed
   and written nothing.
   */
  lemma FlagsWithoutFiles(env: Environment)
    ensures Classify(["IfcExtract", "-q"]) == Accepted([], QuietLevel)
    ensures Execute(["IfcExtract", "-q"], env) == Report(ExitSuccess, [], [], NoFailure)
  {
    AppendLevelFlag(["IfcExtract"], "-q");
    assert ["IfcExtract"] + ["-q"] == ["IfcExtract", "-q"];
  }

  /** Whichever of a bad name and a help flag comes first decides the outcome. */
  lemma BadNameBeforeHelp()
    ensures Classify(["IfcExtract", "model.xml", "-h"]) == ExtensionError("model.xml")
    ensures Classify(["IfcExtract", "-h", "model.xml"]) == Help
  {
    OtherExtensionRejected();
    FirstEndingArgumentWins(["IfcExtract", "model.xml", "-h"], 1);
    FirstEndingArgumentWins(["IfcExtract", "-h", "model.xml"], 1);
  }
}
