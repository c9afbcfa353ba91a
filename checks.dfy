/** The eight checks of the content validator. Each one takes the listing of
    the docs root and returns a pass/fail verdict with a message; the keyword
    and fence checks re-collect the Markdown files first, as the script does.
    `Expected` states, for every check, the verdict and message it must
    produce, in terms of the collected corpus and the root listing. */
module Checks {
  import opened Text
  import opened DocTree

  datatype CheckResult = CheckResult(passed: bool, message: string)

  /** The check each principle runs. */
  datatype CheckId =
    | ContentAccuracy
    | AcademicLanguage
    | Structure
    | VisualAids
    | AgenticFocus
    | SafetyEthics
    | FormatCompatibility
    | Modularity

  // ---------------------------------------------------------------------------
  // Keyword presence (citations, academic tone, agentic focus, safety/ethics).

  /** One keyword check: the substrings it looks for, whether it lower-cases
      the content first, and its two messages. */
  datatype KeywordRule = KeywordRule(keywords: seq<string>, ignoreCase: bool, found: string, missing: string)

  const CitationRule := KeywordRule(["cite", "reference", "source"], false,
    "Found citation references in content", "No citation references found in content")
  const AcademicRule := KeywordRule(["research", "study", "analysis", "methodology"], true,
    "Found academic language indicators", "No clear academic language indicators found")
  const AgenticRule := KeywordRule(["agent", "planning", "multi-agent", "tool"], true,
    "Found agentic AI concept references", "No clear agentic AI concept references found")
  const SafetyRule := KeywordRule(["safety", "ethics", "secure", "privacy"], true,
    "Found safety/ethics considerations", "No safety/ethics considerations found")

  /** The text a keyword check searches: the content, or its lower-case form. */
  function Scanned(content: string, ignoreCase: bool): string {
    if ignoreCase then ToLower(content) else content
  }

  /** The disjunction of `includes` tests over a check's keywords. */
  predicate MentionsAny(text: string, keywords: seq<string>) {
    exists k :: 0 <= k < |keywords| && Contains(text, keywords[k])
  }

  predicate SomeDocMentions(docs: seq<Doc>, keywords: seq<string>, ignoreCase: bool) {
    exists i :: 0 <= i < |docs| && MentionsAny(Scanned(docs[i].content, ignoreCase), keywords)
  }

  function KeywordVerdict(rule: KeywordRule, docs: seq<Doc>): CheckResult {
    var found := SomeDocMentions(docs, rule.keywords, rule.ignoreCase);
    CheckResult(found, if found then rule.found else rule.missing)
  }

  // ---------------------------------------------------------------------------
  // Visual aids.

  const Fence := "```"
  const DiagramKeywords := ["```mermaid", "mermaid"]

  /** Some file holds more than two fence delimiters. */
  predicate SomeDocHasCodeBlocks(docs: seq<Doc>) {
    exists i :: 0 <= i < |docs| && CountMatches(docs[i].content, Fence) > 2
  }

  // ---------------------------------------------------------------------------
  // Chapter directories (structure and modularity).

  predicate IsChapterDir(e: Entry) {
    e.Directory? && StartsWith(e.name, "chapter")
  }

  /** The `filter` of the root listing down to directories named `chapter…`. */
  function ChapterDirs(root: seq<Entry>): (r: seq<Entry>)
    ensures forall e :: e in r <==> e in root && IsChapterDir(e)
    ensures |r| <= |root|
  {
    if root == [] then []
    else
      var last := root[|root| - 1];
      ChapterDirs(root[..|root| - 1]) + (if IsChapterDir(last) then [last] else [])
  }

  /** Reference count of chapter directories: the positions in the listing that hold one. */
  ghost function ChapterIndices(root: seq<Entry>): set<int> {
    set i | 0 <= i < |root| && IsChapterDir(root[i])
  }

  /** The filter keeps one element per listed chapter directory. */
  lemma {:induction false} ChapterDirsCount(root: seq<Entry>)
    ensures |ChapterDirs(root)| == |ChapterIndices(root)|
    decreases |root|
  {
    if root != [] {
      var n := |root| - 1;
      ChapterDirsCount(root[..n]);
      ChapterIndicesSnoc(root);
    }
  }

  /** Extending the listing by one entry adds its position when it is a chapter directory. */
  lemma ChapterIndicesSnoc(root: seq<Entry>)
    requires root != []
    ensures var n := |root| - 1;
      ChapterIndices(root) == ChapterIndices(root[..n]) + (if IsChapterDir(root[n]) then {n} else {}) &&
      n !in ChapterIndices(root[..n])
  {
    var n := |root| - 1;
    var init := root[..n];
    forall i | 0 <= i < n ensures init[i] == root[i] {
    }
  }

  /** `fs.existsSync(path.join(docsPath, 'intro.md'))`: any entry of that name. */
  predicate HasIntro(root: seq<Entry>) {
    exists i :: 0 <= i < |root| && root[i].name == "intro.md"
  }

  /** A chapter "has multiple sections": its listing holds two entries or more. */
  predicate IsModularChapter(e: Entry) {
    e.Directory? && |e.entries| >= 2
  }

  ghost predicate AllChaptersModular(root: seq<Entry>) {
    forall i :: 0 <= i < |root| && IsChapterDir(root[i]) ==> IsModularChapter(root[i])
  }

  // ---------------------------------------------------------------------------
  // What every check returns.

  /** `validateStructure`: at least three chapter directories and an `intro.md`. */
  ghost function StructureVerdict(root: seq<Entry>): CheckResult {
    var chapters := |ChapterIndices(root)|;
    CheckResult(chapters >= 3 && HasIntro(root),
      "Found " + NatToString(chapters) + " chapter directories and intro: " + YesNo(HasIntro(root)))
  }

  /** `validateVisualAids`: some file has a diagram and some file has code blocks. */
  ghost function VisualAidsVerdict(docs: seq<Doc>): CheckResult {
    var diagrams := SomeDocMentions(docs, DiagramKeywords, false);
    var snippets := SomeDocHasCodeBlocks(docs);
    CheckResult(diagrams && snippets, "Diagrams: " + YesNo(diagrams) + ", Code snippets: " + YesNo(snippets))
  }

  /** `validateModularity`: some chapter directory exists and each has several sections. */
  ghost function ModularityVerdict(root: seq<Entry>): CheckResult {
    var chapters := |ChapterIndices(root)|;
    var all := AllChaptersModular(root);
    CheckResult(all && chapters > 0, "Chapter directories: " + NatToString(chapters) + ", All modular: " + BoolText(all))
  }

  /** The verdict and message each check must produce for the docs root. */
  ghost function Expected(id: CheckId, root: seq<Entry>): CheckResult {
    var docs := MarkdownFiles(root, []);
    match id
    case ContentAccuracy => KeywordVerdict(CitationRule, docs)
    case AcademicLanguage => KeywordVerdict(AcademicRule, docs)
    case Structure => StructureVerdict(root)
    case VisualAids => VisualAidsVerdict(docs)
    case AgenticFocus => KeywordVerdict(AgenticRule, docs)
    case SafetyEthics => KeywordVerdict(SafetyRule, docs)
    case FormatCompatibility => CheckResult(true, NatToString(|docs|) + " valid Markdown files found")
    case Modularity => ModularityVerdict(root)
  }

  // ---------------------------------------------------------------------------
  // The checks.

  /** The loop shared by the four keyword checks: read the files in order and
      stop at the first whose (possibly lower-cased) content includes a keyword. */
  method ValidateKeywords(root: seq<Entry>, rule: KeywordRule) returns (r: CheckResult)
    ensures r == KeywordVerdict(rule, MarkdownFiles(root, []))
  {
    var files := GetAllMarkdownFiles(root);
    var found := false;
    for i := 0 to |files|
      invariant !found
      invariant forall j :: 0 <= j < i ==> !MentionsAny(Scanned(files[j].content, rule.ignoreCase), rule.keywords)
    {
      var content := files[i].content;
      if MentionsAny(Scanned(content, rule.ignoreCase), rule.keywords) {
        found := true;
        break;
      }
    }
    r := CheckResult(found, if found then rule.found else rule.missing);
  }

  method ValidateContentAccuracy(root: seq<Entry>) returns (r: CheckResult)
    ensures r == Expected(ContentAccuracy, root)
  {
    r := ValidateKeywords(root, CitationRule);
  }

  method ValidateAcademicLanguage(root: seq<Entry>) returns (r: CheckResult)
    ensures r == Expected(AcademicLanguage, root)
  {
    r := ValidateKeywords(root, AcademicRule);
  }

  method ValidateAgenticFocus(root: seq<Entry>) returns (r: CheckResult)
    ensures r == Expected(AgenticFocus, root)
  {
    r := ValidateKeywords(root, AgenticRule);
  }

  method ValidateSafetyEthics(root: seq<Entry>) returns (r: CheckResult)
    ensures r == Expected(SafetyEthics, root)
  {
    r := ValidateKeywords(root, SafetyRule);
  }

  /** Passes when there are at least three chapter directories and an `intro.md`. */
  function ValidateStructure(root: seq<Entry>): (r: CheckResult)
    ensures r.passed <==> |ChapterIndices(root)| >= 3 && HasIntro(root)
    ensures r == Expected(Structure, root)
  {
    ChapterDirsCount(root);
    var chapterDirs := ChapterDirs(root);
    var hasIntro := HasIntro(root);
    CheckResult(|chapterDirs| >= 3 && hasIntro,
      "Found " + NatToString(|chapterDirs|) + " chapter directories and intro: " + YesNo(hasIntro))
  }

  /** The loop of `validateVisualAids`: scans every file (no early exit) for a
      diagram and for code blocks. */
  method ScanVisualAids(files: seq<Doc>) returns (hasDiagrams: bool, hasCodeSnippets: bool)
    ensures hasDiagrams == SomeDocMentions(files, DiagramKeywords, false)
    ensures hasCodeSnippets == SomeDocHasCodeBlocks(files)
  {
    hasDiagrams, hasCodeSnippets := false, false;
    for i := 0 to |files|
      invariant hasDiagrams <==> exists j :: 0 <= j < i && MentionsAny(files[j].content, DiagramKeywords)
      invariant hasCodeSnippets <==> exists j :: 0 <= j < i && CountMatches(files[j].content, Fence) > 2
    {
      var content := files[i].content;
      if MentionsAny(content, DiagramKeywords) {
        hasDiagrams := true;
      }
      if CountMatches(content, Fence) > 2 {
        hasCodeSnippets := true;
      }
    }
    if hasDiagrams {
      var j :| 0 <= j < |files| && MentionsAny(files[j].content, DiagramKeywords);
      assert Scanned(files[j].content, false) == files[j].content;
    }
  }

  method ValidateVisualAids(root: seq<Entry>) returns (r: CheckResult)
    ensures r == Expected(VisualAids, root)
  {
    var files := GetAllMarkdownFiles(root);
    var hasDiagrams, hasCodeSnippets := ScanVisualAids(files);
    r := CheckResult(hasDiagrams && hasCodeSnippets,
      "Diagrams: " + YesNo(hasDiagrams) + ", Code snippets: " + YesNo(hasCodeSnippets));
  }

  /** `typeof readFileSync(file, 'utf8') === 'string'`: read as UTF-8, every
      file's content is a string. */
  predicate IsText(content: string) {
    true
  }

  method ValidateFormatCompatibility(root: seq<Entry>) returns (r: CheckResult)
    ensures r.passed
    ensures r == Expected(FormatCompatibility, root)
  {
    var files := GetAllMarkdownFiles(root);
    var allValid := forall i | 0 <= i < |files| :: IsText(files[i].content);
    r := CheckResult(allValid,
      if allValid then NatToString(|files|) + " valid Markdown files found" else "Some files may not be valid Markdown");
  }

  /** Stops at the first chapter directory with fewer than two entries. */
  method ValidateModularity(root: seq<Entry>) returns (r: CheckResult)
    ensures r.passed <==>
      (exists i :: 0 <= i < |root| && IsChapterDir(root[i])) && AllChaptersModular(root)
    ensures r == Expected(Modularity, root)
  {
    var chapterDirs := ChapterDirs(root);
    var allChaptersModular := true;
    for k := 0 to |chapterDirs|
      invariant allChaptersModular
      invariant forall j :: 0 <= j < k ==> IsModularChapter(chapterDirs[j])
    {
      assert chapterDirs[k] in chapterDirs;
      if |chapterDirs[k].entries| < 2 {
        allChaptersModular := false;
        break;
      }
    }
    ChapterDirsCount(root);
    assert allChaptersModular <==> AllChaptersModular(root) by {
      if allChaptersModular {
        forall i | 0 <= i < |root| && IsChapterDir(root[i]) ensures IsModularChapter(root[i]) {
          assert root[i] in chapterDirs;
        }
      }
    }
    assert (exists i :: 0 <= i < |root| && IsChapterDir(root[i])) <==> |chapterDirs| > 0 by {
      if |chapterDirs| > 0 {
        assert chapterDirs[0] in root;
      }
      if exists i :: 0 <= i < |root| && IsChapterDir(root[i]) {
        var i :| 0 <= i < |root| && IsChapterDir(root[i]);
        assert root[i] in chapterDirs;
      }
    }
    r := CheckResult(allChaptersModular && |chapterDirs| > 0,
      "Chapter directories: " + NatToString(|chapterDirs|) + ", All modular: " + BoolText(allChaptersModular));
  }
}
