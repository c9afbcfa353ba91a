/** The driver of the content validator: the table of eight principles, the
    run that applies each principle's check to the docs root and tallies the
    passes, and the exit status derived from the tally (`validateDocumentation`). */
module Validator {
  import opened Text
  import opened DocTree
  import opened Checks

  datatype Option<T> = None | Some(value: T)

  datatype Principle = Principle(name: string, description: string, check: CheckId)

  const ContentAccuracyName := "Content Accuracy & Research-Based Approach"
  const ContentAccuracyDescription := "All content must be accurate, research-based, and cite sources where possible"
  const AcademicLanguageName := "Academic Language & Professional Communication"
  const AcademicLanguageDescription := "Use clear, professional academic language suitable for thesis/research paper"
  const StructureName := "Structured Documentation Format"
  const StructureDescription := "Structure everything in chapters/sections (8-10 chapter book style)"
  const VisualAidsName := "Visual Aids & Practical Examples"
  const VisualAidsDescription := "Include diagrams (Mermaid for architecture), code snippets, and practical examples"
  const AgenticFocusName := "Agentic AI Concepts Focus"
  const AgenticFocusDescription := "Prioritize agentic AI concepts: planning, tools, multi-agent, constitution-driven development"
  const SafetyEthicsName := "Safety & Ethics Standards"
  const SafetyEthicsDescription := "Avoid hallucinations, no harmful suggestions, transparent reasoning"
  const FormatCompatibilityName := "Output Format Compatibility"
  const FormatCompatibilityDescription := "Output format: Markdown compatible with Docusaurus (MDX if needed)"
  const ModularityName := "Modular & Extensible Documentation"
  const ModularityDescription := "Keep docs modular, versionable, and easy to extend"

  /** The `PRINCIPLES` table, in its order. */
  const Principles: seq<Principle> := [
    Principle(ContentAccuracyName, ContentAccuracyDescription, ContentAccuracy),
    Principle(AcademicLanguageName, AcademicLanguageDescription, AcademicLanguage),
    Principle(StructureName, StructureDescription, Structure),
    Principle(VisualAidsName, VisualAidsDescription, VisualAids),
    Principle(AgenticFocusName, AgenticFocusDescription, AgenticFocus),
    Principle(SafetyEthicsName, SafetyEthicsDescription, SafetyEthics),
    Principle(FormatCompatibilityName, FormatCompatibilityDescription, FormatCompatibility),
    Principle(ModularityName, ModularityDescription, Modularity)
  ]

  const DocsPath := "./docs"

  /** One principle's entry in the printed report: its status, name and message. */
  datatype ReportLine = ReportLine(name: string, passed: bool, message: string)

  /** What a run reports: the missing-root error, or the per-principle lines
      followed by the summary count. */
  datatype Report =
    | DocsMissing(error: string)
    | Validated(lines: seq<ReportLine>, passedCount: nat)

  /** `principle.check(docsPath)`. */
  method RunCheck(id: CheckId, root: seq<Entry>) returns (r: CheckResult)
    ensures r == Expected(id, root)
  {
    match id {
      case ContentAccuracy => r := ValidateContentAccuracy(root);
      case AcademicLanguage => r := ValidateAcademicLanguage(root);
      case Structure => r := ValidateStructure(root);
      case VisualAids => r := ValidateVisualAids(root);
      case AgenticFocus => r := ValidateAgenticFocus(root);
      case SafetyEthics => r := ValidateSafetyEthics(root);
      case FormatCompatibility => r := ValidateFormatCompatibility(root);
      case Modularity => r := ValidateModularity(root);
    }
  }

  /** The running `passedCount` over a prefix of the report. */
  function CountPassed(lines: seq<ReportLine>): nat {
    if lines == [] then 0
    else CountPassed(lines[..|lines| - 1]) + (if lines[|lines| - 1].passed then 1 else 0)
  }

  /** Reference definition: the positions of the report whose principle passed. */
  ghost function PassedIndices(lines: seq<ReportLine>): set<int> {
    set i | 0 <= i < |lines| && lines[i].passed
  }

  /** The tally is the number of passing lines, at most the number of lines,
      and reaches it exactly when every line passed. */
  lemma {:induction false} CountPassedIsPassingLines(lines: seq<ReportLine>)
    ensures CountPassed(lines) == |PassedIndices(lines)|
    ensures CountPassed(lines) <= |lines|
    ensures CountPassed(lines) == |lines| <==> forall i :: 0 <= i < |lines| ==> lines[i].passed
    decreases |lines|
  {
    if lines != [] {
      var n := |lines| - 1;
      var init := lines[..n];
      CountPassedIsPassingLines(init);
      forall i | 0 <= i < n ensures init[i] == lines[i] {
      }
      if lines[n].passed {
        assert PassedIndices(lines) == PassedIndices(init) + {n};
      } else {
        assert PassedIndices(lines) == PassedIndices(init);
      }
      assert n !in PassedIndices(init);
    }
  }

  ghost function ExpectedLine(p: Principle, root: seq<Entry>): ReportLine {
    var r := Expected(p.check, root);
    ReportLine(p.name, r.passed, r.message)
  }

  ghost predicate AllPrinciplesPass(root: seq<Entry>) {
    forall i :: 0 <= i < |Principles| ==> Expected(Principles[i].check, root).passed
  }

  /** The loop of `validateDocumentation`: run every principle's check in
      table order, record its line and keep the running `passedCount`. */
  method RunPrinciples(root: seq<Entry>) returns (lines: seq<ReportLine>, passedCount: nat)
    ensures |lines| == |Principles|
    ensures forall i :: 0 <= i < |Principles| ==> lines[i] == ExpectedLine(Principles[i], root)
    ensures passedCount == CountPassed(lines)
  {
    lines := [];
    passedCount := 0;
    for k := 0 to |Principles|
      invariant |lines| == k
      invariant forall i :: 0 <= i < k ==> lines[i] == ExpectedLine(Principles[i], root)
      invariant passedCount == CountPassed(lines)
    {
      var principle := Principles[k];
      var result := RunCheck(principle.check, root);
      var line := ReportLine(principle.name, result.passed, result.message);
      assert (lines + [line])[..k] == lines;
      lines := lines + [line];
      if result.passed {
        passedCount := passedCount + 1;
      }
    }
  }

  /** `validateDocumentation()`. `docs` is the docs root's listing, or `None`
      when `./docs` does not exist; `exitCode` is the process exit status. */
  method ValidateDocumentation(docs: Option<seq<Entry>>) returns (report: Report, exitCode: int)
    ensures docs.None? ==> report == DocsMissing("Documentation directory not found: ./docs") && exitCode == 0
    ensures docs.Some? ==>
      report.Validated? && |report.lines| == |Principles| &&
      forall i :: 0 <= i < |Principles| ==> report.lines[i] == ExpectedLine(Principles[i], docs.value)
    ensures docs.Some? ==>
      report.Validated? && report.passedCount == |PassedIndices(report.lines)| && report.passedCount <= |Principles|
    ensures docs.Some? ==>
      report.Validated? && exitCode == (if report.passedCount == |Principles| then 0 else 1)
    ensures docs.Some? ==> (exitCode == 0 <==> AllPrinciplesPass(docs.value))
  {
    match docs {
      case None =>
        report := DocsMissing("Documentation directory not found: " + DocsPath);
        exitCode := 0;
      case Some(root) =>
        var lines, passedCount := RunPrinciples(root);
        CountPassedIsPassingLines(lines);
        report := Validated(lines, passedCount);
        exitCode := if passedCount == |Principles| then 0 else 1;
    }
  }

  // ---------------------------------------------------------------------------
  // Whole-run consequences.

  /** The checks of the table, position by position. */
  lemma PrincipleChecks()
    ensures |Principles| == 8
    ensures Principles[0].check == ContentAccuracy && Principles[1].check == AcademicLanguage
    ensures Principles[2].check == Structure && Principles[3].check == VisualAids
    ensures Principles[4].check == AgenticFocus && Principles[5].check == SafetyEthics
    ensures Principles[6].check == FormatCompatibility && Principles[7].check == Modularity
  {
  }

  /** A run passes in full exactly when every individual check passes; the
      format check always does, so seven checks decide. */
  lemma AllPassIff(root: seq<Entry>)
    ensures AllPrinciplesPass(root) <==>
      Expected(ContentAccuracy, root).passed && Expected(AcademicLanguage, root).passed &&
      Expected(Structure, root).passed && Expected(VisualAids, root).passed &&
      Expected(AgenticFocus, root).passed && Expected(SafetyEthics, root).passed &&
      Expected(Modularity, root).passed
  {
    PrincipleChecks();
    assert Expected(FormatCompatibility, root).passed;
    if AllPrinciplesPass(root) {
      assert Expected(Principles[0].check, root).passed && Expected(Principles[1].check, root).passed;
      assert Expected(Principles[2].check, root).passed && Expected(Principles[3].check, root).passed;
      assert Expected(Principles[4].check, root).passed && Expected(Principles[5].check, root).passed;
      assert Expected(Principles[7].check, root).passed;
    } else {
      var i :| 0 <= i < |Principles| && !Expected(Principles[i].check, root).passed;
      assert i == 0 || i == 1 || i == 2 || i == 3 || i == 4 || i == 5 || i == 6 || i == 7;
    }
  }

  /** A docs root without Markdown files fails every content check, so the
      run can never exit with status 0. */
  lemma NoMarkdownFilesFailsRun(root: seq<Entry>)
    requires MarkdownFiles(root, []) == []
    ensures !Expected(ContentAccuracy, root).passed && !Expected(AcademicLanguage, root).passed
    ensures !Expected(VisualAids, root).passed
    ensures !Expected(AgenticFocus, root).passed && !Expected(SafetyEthics, root).passed
    ensures !AllPrinciplesPass(root)
  {
    var docs := MarkdownFiles(root, []);
    assert !SomeDocMentions(docs, CitationRule.keywords, false);
    assert !SomeDocHasCodeBlocks(docs);
    AllPassIff(root);
  }
}
