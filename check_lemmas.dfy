/** What the eight checks decide, stated over the documentation tree itself
    rather than over the collected corpus, and the quirks of their keyword
    lists and fence counting. */
module CheckLemmas {
  import opened Text
  import opened DocTree
  import opened Checks

  /** A keyword check passes exactly when some Markdown file of the tree, at
      any depth, includes one of the rule's keywords (after lower-casing when
      the rule ignores case); with no Markdown file it fails. */
  lemma KeywordCheckPassesIff(root: seq<Entry>, rule: KeywordRule)
    ensures KeywordVerdict(rule, MarkdownFiles(root, [])).passed <==>
      exists path, content :: IsMarkdownFileAt(root, path, content) &&
        MentionsAny(Scanned(content, rule.ignoreCase), rule.keywords)
    ensures MarkdownFiles(root, []) == [] ==> !KeywordVerdict(rule, MarkdownFiles(root, [])).passed
  {
    var docs := MarkdownFiles(root, []);
    if KeywordVerdict(rule, docs).passed {
      var i :| 0 <= i < |docs| && MentionsAny(Scanned(docs[i].content, rule.ignoreCase), rule.keywords);
      assert docs[i] == Doc(docs[i].path, docs[i].content);
      CollectedExactlyMarkdownFiles(root, docs[i].path, docs[i].content);
    }
    forall path, content | IsMarkdownFileAt(root, path, content) &&
        MentionsAny(Scanned(content, rule.ignoreCase), rule.keywords)
      ensures KeywordVerdict(rule, docs).passed
    {
      CollectedExactlyMarkdownFiles(root, path, content);
      var i :| 0 <= i < |docs| && docs[i] == Doc(path, content);
    }
  }

  /** The citation check is case-sensitive: it passes exactly when some
      Markdown file's content includes "cite", "reference" or "source". */
  lemma CitationCheckIff(root: seq<Entry>)
    ensures Expected(ContentAccuracy, root).passed <==>
      exists path, content :: IsMarkdownFileAt(root, path, content) &&
        (Contains(content, "cite") || Contains(content, "reference") || Contains(content, "source"))
  {
    KeywordCheckPassesIff(root, CitationRule);
    forall content: string
      ensures MentionsAny(Scanned(content, false), CitationRule.keywords) <==>
        Contains(content, "cite") || Contains(content, "reference") || Contains(content, "source")
    {
      var kws := CitationRule.keywords;
      assert kws[0] == "cite" && kws[1] == "reference" && kws[2] == "source";
      if Contains(content, "cite") || Contains(content, "reference") || Contains(content, "source") {
        if Contains(content, "cite") {
          assert Contains(content, kws[0]);
        } else if Contains(content, "reference") {
          assert Contains(content, kws[1]);
        } else {
          assert Contains(content, kws[2]);
        }
      }
    }
  }

  /** Two corpora that list the same files, whose contents agree up to the
      case of ASCII letters. */
  ghost predicate CaseVariants(d1: seq<Doc>, d2: seq<Doc>) {
    |d1| == |d2| &&
    forall i :: 0 <= i < |d1| ==> d1[i].path == d2[i].path && SameUpToCase(d1[i].content, d2[i].content)
  }

  /** The academic-language, agentic-focus and safety/ethics checks lower-case
      each file first, so changing the case of letters changes nothing. */
  lemma CaseInsensitiveChecksIgnoreCase(rule: KeywordRule, d1: seq<Doc>, d2: seq<Doc>)
    requires rule.ignoreCase && CaseVariants(d1, d2)
    ensures KeywordVerdict(rule, d1) == KeywordVerdict(rule, d2)
  {
    forall i | 0 <= i < |d1| ensures Scanned(d1[i].content, true) == Scanned(d2[i].content, true) {
      ToLowerEqualIff(d1[i].content, d2[i].content);
    }
  }

  /** Two listings with the same shape and names whose file contents agree
      up to the case of ASCII letters. */
  ghost predicate SameTreeUpToCase(a: seq<Entry>, b: seq<Entry>)
    decreases a
  {
    |a| == |b| && (a == [] || (SameEntryUpToCase(a[0], b[0]) && SameTreeUpToCase(a[1..], b[1..])))
  }

  ghost predicate SameEntryUpToCase(e1: Entry, e2: Entry)
    decreases e1
  {
    match e1
    case File(name, content) => e2.File? && e2.name == name && SameUpToCase(content, e2.content)
    case Directory(name, children) => e2.Directory? && e2.name == name && SameTreeUpToCase(children, e2.entries)
  }

  lemma CaseVariantsAppend(a1: seq<Doc>, b1: seq<Doc>, a2: seq<Doc>, b2: seq<Doc>)
    requires CaseVariants(a1, b1) && CaseVariants(a2, b2)
    ensures CaseVariants(a1 + a2, b1 + b2)
  {
    forall i | 0 <= i < |a1 + a2|
      ensures (a1 + a2)[i].path == (b1 + b2)[i].path && SameUpToCase((a1 + a2)[i].content, (b1 + b2)[i].content)
    {
      if i >= |a1| {
        assert (a1 + a2)[i] == a2[i - |a1|] && (b1 + b2)[i] == b2[i - |a1|];
      }
    }
  }

  /** Walking two case-variant listings collects case-variant corpora: the
      same paths, in the same order, with contents that differ only in case. */
  lemma {:induction false} WalkKeepsCaseVariants(a: seq<Entry>, b: seq<Entry>, current: Path)
    requires SameTreeUpToCase(a, b)
    ensures CaseVariants(MarkdownFiles(a, current), MarkdownFiles(b, current))
    decreases a
  {
    if a != [] {
      EntryKeepsCaseVariants(a[0], b[0], current);
      WalkKeepsCaseVariants(a[1..], b[1..], current);
      CaseVariantsAppend(EntryFiles(a[0], current), EntryFiles(b[0], current),
        MarkdownFiles(a[1..], current), MarkdownFiles(b[1..], current));
    }
  }

  lemma {:induction false} EntryKeepsCaseVariants(e1: Entry, e2: Entry, current: Path)
    requires SameEntryUpToCase(e1, e2)
    ensures CaseVariants(EntryFiles(e1, current), EntryFiles(e2, current))
    decreases e1
  {
    match e1
    case File(name, content) =>
    case Directory(name, children) =>
      WalkKeepsCaseVariants(children, e2.entries, current + [name]);
  }

  /** Over whole trees: changing the case of letters in file contents leaves
      the academic-language, agentic-focus and safety/ethics verdicts and
      messages unchanged. */
  lemma CaseInsensitiveTreesIgnoreCase(root1: seq<Entry>, root2: seq<Entry>)
    requires SameTreeUpToCase(root1, root2)
    ensures Expected(AcademicLanguage, root1) == Expected(AcademicLanguage, root2)
    ensures Expected(AgenticFocus, root1) == Expected(AgenticFocus, root2)
    ensures Expected(SafetyEthics, root1) == Expected(SafetyEthics, root2)
  {
    var d1, d2 := MarkdownFiles(root1, []), MarkdownFiles(root2, []);
    WalkKeepsCaseVariants(root1, root2, []);
    CaseInsensitiveChecksIgnoreCase(AcademicRule, d1, d2);
    CaseInsensitiveChecksIgnoreCase(AgenticRule, d1, d2);
    CaseInsensitiveChecksIgnoreCase(SafetyRule, d1, d2);
  }

  /** With lower-case keywords, whatever is found case-sensitively is also
      found after lower-casing. */
  lemma IgnoringCaseFindsMore(docs: seq<Doc>, keywords: seq<string>)
    requires forall k :: 0 <= k < |keywords| ==> IsLowerCase(keywords[k])
    ensures SomeDocMentions(docs, keywords, false) ==> SomeDocMentions(docs, keywords, true)
  {
    if SomeDocMentions(docs, keywords, false) {
      var i :| 0 <= i < |docs| && MentionsAny(Scanned(docs[i].content, false), keywords);
      var k :| 0 <= k < |keywords| && Contains(docs[i].content, keywords[k]);
      LowerCaseKeywordSurvives(docs[i].content, keywords[k]);
      assert MentionsAny(Scanned(docs[i].content, true), keywords);
    }
  }

  /** "```mermaid" contains "mermaid", so the first diagram test adds nothing. */
  lemma DiagramTagRedundant(text: string)
    ensures MentionsAny(text, DiagramKeywords) <==> Contains(text, "mermaid")
  {
    assert DiagramKeywords[1] == "mermaid";
    if Contains(text, DiagramKeywords[0]) {
      assert OccursAt("```mermaid", "mermaid", 3);
      ContainsIffOccurs("```mermaid", "mermaid");
      ContainsTransitive(text, "```mermaid", "mermaid");
    }
  }

  /** "multi-agent" contains "agent", so the agentic check is the same with
      only "agent", "planning" and "tool". */
  lemma MultiAgentRedundant(text: string)
    ensures MentionsAny(text, AgenticRule.keywords) <==> MentionsAny(text, ["agent", "planning", "tool"])
  {
    var short := ["agent", "planning", "tool"];
    var kws := AgenticRule.keywords;
    if MentionsAny(text, kws) {
      var k :| 0 <= k < |kws| && Contains(text, kws[k]);
      if k == 2 {
        assert OccursAt("multi-agent", "agent", 6);
        ContainsIffOccurs("multi-agent", "agent");
        ContainsTransitive(text, "multi-agent", "agent");
        assert Contains(text, short[0]);
      } else if k == 3 {
        assert Contains(text, short[2]);
      } else {
        assert Contains(text, short[k]);
      }
    }
    if MentionsAny(text, short) {
      var k :| 0 <= k < |short| && Contains(text, short[k]);
      if k == 2 {
        assert Contains(text, kws[3]);
      } else {
        assert Contains(text, kws[k]);
      }
    }
  }

  /** The visual-aids check passes exactly when some Markdown file mentions
      "mermaid" and some Markdown file, possibly another one, holds more than
      two fence delimiters. */
  lemma VisualAidsIff(root: seq<Entry>)
    ensures Expected(VisualAids, root).passed <==>
      (exists path, content :: IsMarkdownFileAt(root, path, content) && Contains(content, "mermaid")) &&
      (exists path, content :: IsMarkdownFileAt(root, path, content) && CountMatches(content, Fence) > 2)
  {
    var docs := MarkdownFiles(root, []);
    var diagramRule := KeywordRule(DiagramKeywords, false, "", "");
    KeywordCheckPassesIff(root, diagramRule);
    forall content: string ensures MentionsAny(Scanned(content, false), DiagramKeywords) <==> Contains(content, "mermaid") {
      DiagramTagRedundant(content);
    }
    if SomeDocHasCodeBlocks(docs) {
      var i :| 0 <= i < |docs| && CountMatches(docs[i].content, Fence) > 2;
      assert docs[i] == Doc(docs[i].path, docs[i].content);
      CollectedExactlyMarkdownFiles(root, docs[i].path, docs[i].content);
    }
    forall path, content | IsMarkdownFileAt(root, path, content) && CountMatches(content, Fence) > 2
      ensures SomeDocHasCodeBlocks(docs)
    {
      CollectedExactlyMarkdownFiles(root, path, content);
      var i :| 0 <= i < |docs| && docs[i] == Doc(path, content);
    }
  }

  /** Text without a backtick is skipped by the fence count. */
  lemma {:induction false} CountMatchesSkipsPlainText(t: string, s: string)
    requires forall i :: 0 <= i < |t| ==> t[i] != '`'
    ensures CountMatches(t + s, Fence) == CountMatches(s, Fence)
    decreases |t|
  {
    if t == [] {
      assert t + s == s;
    } else {
      CountMatchesSkipsPlainText(t[1..], s);
      assert (t + s)[1..] == t[1..] + s;
      if |t + s| >= 3 {
        assert (t + s)[..3][0] == t[0] != Fence[0];
      }
    }
  }

  /** One complete code block is two delimiters: a file whose content is a
      single fenced block with a backtick-free body counts exactly 2 matches of
      "```", which is not more than 2. */
  lemma SingleCodeBlockCountsTwo(body: string)
    requires forall i :: 0 <= i < |body| ==> body[i] != '`'
    ensures CountMatches(Fence + body + Fence, Fence) == 2
  {
    var tail := body + Fence;
    var none: string := [];
    calc {
      CountMatches(Fence + body + Fence, Fence);
      { assert Fence + body + Fence == Fence + tail; }
      CountMatches(Fence + tail, Fence);
      { CountMatchesLeading(Fence, tail); }
      1 + CountMatches(tail, Fence);
      { CountMatchesSkipsPlainText(body, Fence); }
      1 + CountMatches(Fence + none, Fence);
      { CountMatchesLeading(Fence, none); }
      2 + CountMatches(none, Fence);
    }
  }

  /** A corpus in which no file holds more than one pair of fences fails the
      visual-aids check and reports no code snippets, whatever its diagrams. */
  lemma AtMostOneFencePairFails(root: seq<Entry>)
    requires forall path, content :: IsMarkdownFileAt(root, path, content) ==> CountMatches(content, Fence) <= 2
    ensures !Expected(VisualAids, root).passed
  {
    VisualAidsIff(root);
  }

  /** With no chapter directory the modularity check fails, although its
      message reports that all chapters are modular. */
  lemma NoChaptersFailsModularity(root: seq<Entry>)
    requires forall i :: 0 <= i < |root| ==> !IsChapterDir(root[i])
    ensures !Expected(Modularity, root).passed
    ensures Expected(Modularity, root).message == "Chapter directories: 0, All modular: true"
  {
    assert ChapterIndices(root) == {};
    var verdict := ModularityVerdict(root);
    assert Expected(Modularity, root) == verdict;
    assert verdict.message == "Chapter directories: " + NatToString(0) + ", All modular: " + BoolText(true);
  }

  /** The structure and modularity checks look only at the root listing, so
      they pass for any contents once the listing has the right shape. */
  lemma StructureIgnoresContent(intro: string, a1: string, b1: string, a2: string, b2: string, a3: string, b3: string)
    ensures var root := [
        File("intro.md", intro),
        Directory("chapter-1", [File("index.md", a1), File("agents.md", b1)]),
        Directory("chapter-2", [File("index.md", a2), File("tools.md", b2)]),
        Directory("chapter-3", [File("index.md", a3), File("safety.md", b3)])];
      Expected(Structure, root).passed && Expected(Modularity, root).passed
  {
    var root := [
      File("intro.md", intro),
      Directory("chapter-1", [File("index.md", a1), File("agents.md", b1)]),
      Directory("chapter-2", [File("index.md", a2), File("tools.md", b2)]),
      Directory("chapter-3", [File("index.md", a3), File("safety.md", b3)])];
    assert root[0].name == "intro.md";
    assert StartsWith("chapter-1", "chapter") && StartsWith("chapter-2", "chapter") && StartsWith("chapter-3", "chapter");
    assert ChapterIndices(root) == {1, 2, 3};
  }

  /** A single page reading "Outcome metrics from our research study" passes
      the academic-language check on its own. */
  lemma ResearchSentencePasses()
    ensures Expected(AcademicLanguage, [File("intro.md", "Outcome metrics from our research study")]).passed
  {
    var content := "Outcome metrics from our research study";
    var root := [File("intro.md", content)];
    assert EndsWith("intro.md", ".md");
    var top: Path := [];
    assert top + ["intro.md"] == ["intro.md"];
    assert EntryFiles(root[0], top) == [Doc(["intro.md"], content)];
    assert root[1..] == [];
    assert MarkdownFiles(root, top) == [Doc(["intro.md"], content)];
    var lowered := ToLower(content);
    assert lowered[25..33] == "research";
    assert OccursAt(lowered, "research", 25);
    ContainsIffOccurs(lowered, "research");
    assert Contains(Scanned(content, true), AcademicRule.keywords[0]);
    assert MentionsAny(Scanned(MarkdownFiles(root, top)[0].content, AcademicRule.ignoreCase), AcademicRule.keywords);
    assert SomeDocMentions(MarkdownFiles(root, top), AcademicRule.keywords, AcademicRule.ignoreCase);
  }
}
