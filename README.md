# Content validator of the Agentic AI documentation site

This project models, in Dafny, the content validator that ships with the
documentation site: a Node script that walks the `./docs` tree, collects its
Markdown files (`.md`, `.mdx`), applies eight "constitutional principle"
checks to the tree and the file contents, prints a pass/fail line per
principle and a summary, and exits with status 0 only when every principle
passed.

The filesystem is replaced by an in-memory tree: a directory is the ordered
listing `readdirSync` returns, and each entry is either a file with its text
or a subdirectory (`DocTree.Entry`). The docs root is `Option<seq<Entry>>`;
`None` stands for a missing `./docs`.

- `text.dfy` (`Text`): `includes`, `startsWith`, `endsWith` and ASCII
  `toLowerCase`. Also the count of `/```/g` matches and the decimal text of
  the numbers that the messages interpolate. `includes`, `toLowerCase` and
  the decimal text each have a reference definition (`OccursAt`,
  `SameUpToCase`, `DecimalValue`) and lemmas that connect the two. The match
  count is tied to `includes` and bounded by the text length.
  `startsWith` and `endsWith` are plain definitions used by the checks.
- `doc_tree.dfy` (`DocTree`): the tree and `getAllMarkdownFiles`. A
  `Collector` class holds the shared `files` sequence that `walkDirectory`
  appends to. It is proved against the pure `MarkdownFiles`, and that function
  is proved to return exactly the Markdown files at any depth, in listing
  order.
- `checks.dfy` (`Checks`): the eight checks, with their keyword loops,
  fence scan and chapter loop. `Expected` gives each check's verdict and
  message.
- `check_lemmas.dfy` (`CheckLemmas`): what each check decides, stated over
  the tree, plus the quirks of the keyword lists and of fence counting.
- `validator.dfy` (`Validator`): the `PRINCIPLES` table, the run, the tally
  and the exit status.

Behaviour of the script that the model keeps:

- When `./docs` is missing, the script prints an error and returns without
  calling `process.exit`, so the exit status is 0 even though `./docs` is
  missing. `ValidateDocumentation` returns 0 in that case.
- The intro test is `existsSync(docs/intro.md)`, which accepts an entry of
  that name of any kind, a directory included (`HasIntro`).
- The modularity test counts every entry of a chapter directory, whether a
  file or a subdirectory, Markdown or not.
- The format check reads every file with `readFileSync(file, 'utf8')`, but its
  callback never inspects the text it reads: `typeof content === 'string'`
  always holds, so the check always passes.

## Model

| member | source | states |
|---|---|---|
| `Text.ContainsIffOccurs` | docusaurus-website-demo-main/docusaurus-website-demo-main/scripts/validate-content.js:59 | the `includes` scan holds exactly when the pattern occurs at some index of the text |
| `Text.ContainsTransitive` | docusaurus-website-demo-main/docusaurus-website-demo-main/scripts/validate-content.js:118 | a text that includes `t` includes every substring of `t` |
| `Text.ToLowerMakesLowerCase` | docusaurus-website-demo-main/docusaurus-website-demo-main/scripts/validate-content.js:79 | lower-casing keeps the length, leaves no upper-case letter and leaves lower-case text alone |
| `Text.ToLowerEqualIff` | docusaurus-website-demo-main/docusaurus-website-demo-main/scripts/validate-content.js:79-82 | two texts lower-case to the same text if and only if they agree position by position up to ASCII letter case |
| `Text.LowerCaseKeywordSurvives` | docusaurus-website-demo-main/docusaurus-website-demo-main/scripts/validate-content.js:79 | a lower-case keyword found in a text is still found in its lower-cased form |
| `Text.ShortTextContainsNothing` | docusaurus-website-demo-main/docusaurus-website-demo-main/scripts/validate-content.js:59 | a text shorter than the pattern never includes it |
| `Text.CountMatchesPositiveIff` | docusaurus-website-demo-main/docusaurus-website-demo-main/scripts/validate-content.js:122 | the global match count is positive exactly when the pattern occurs |
| `Text.CountMatchesBound` | docusaurus-website-demo-main/docusaurus-website-demo-main/scripts/validate-content.js:122 | matches do not overlap: count times pattern length is at most the text length |
| `Text.CountMatchesLeading` | docusaurus-website-demo-main/docusaurus-website-demo-main/scripts/validate-content.js:122 | a match at the start counts one and the scan resumes right after it |
| `Text.NatToStringIsDecimal` | docusaurus-website-demo-main/docusaurus-website-demo-main/scripts/validate-content.js:105 | the interpolated number is non-empty, all digits, has no leading zero and reads back as the number |
| `DocTree.MarkdownFilesAppend` | docusaurus-website-demo-main/docusaurus-website-demo-main/scripts/validate-content.js:223-232 | the walk follows the listing order: walking two listings in turn collects the first one's files, then the second one's |
| `DocTree.DocsUnder` | docusaurus-website-demo-main/docusaurus-website-demo-main/scripts/validate-content.js:224-228 | every collected path is strictly below the directory the walk starts in |
| `DocTree.DocsUnderEntry` | docusaurus-website-demo-main/docusaurus-website-demo-main/scripts/validate-content.js:224-230 | whatever one entry contributes lies under that entry's own name |
| `DocTree.FileAtCons` | docusaurus-website-demo-main/docusaurus-website-demo-main/scripts/validate-content.js:223 | a path leads to a file of a listing exactly when it leads there from the first entry or from the rest |
| `DocTree.InMarkdownFiles` | docusaurus-website-demo-main/docusaurus-website-demo-main/scripts/validate-content.js:220-233 | a walk from any directory collects a path and content if and only if the path reaches a file (not a directory) with that content whose name ends in `.md` or `.mdx` |
| `DocTree.InEntryFiles` | docusaurus-website-demo-main/docusaurus-website-demo-main/scripts/validate-content.js:227-231 | one entry contributes a file exactly when it is that Markdown file or a directory on the way to it |
| `DocTree.CollectedExactlyMarkdownFiles` | docusaurus-website-demo-main/docusaurus-website-demo-main/scripts/validate-content.js:217-237 | from the docs root: collected if and only if it is a Markdown file of the tree at any depth; other files are never included |
| `DocTree.Collector.constructor` | docusaurus-website-demo-main/docusaurus-website-demo-main/scripts/validate-content.js:218 | the shared `files` array starts empty |
| `DocTree.Collector.Walk` | docusaurus-website-demo-main/docusaurus-website-demo-main/scripts/validate-content.js:220-233 | `walkDirectory` appends exactly the pre-order Markdown files of the listing to `files`, keeping what was there |
| `DocTree.GetAllMarkdownFiles` | docusaurus-website-demo-main/docusaurus-website-demo-main/scripts/validate-content.js:217-237 | returns exactly the tree's Markdown files, in the order of the pure walk |
| `Checks.ChapterDirs` | docusaurus-website-demo-main/docusaurus-website-demo-main/scripts/validate-content.js:96-99 | the filter keeps exactly the root entries that are directories named `chapter…`, and no more entries than the root has |
| `Checks.ChapterDirsCount` | docusaurus-website-demo-main/docusaurus-website-demo-main/scripts/validate-content.js:96-99 | the filtered length equals the number of listing positions holding a chapter directory |
| `Checks.ChapterIndicesSnoc` | docusaurus-website-demo-main/docusaurus-website-demo-main/scripts/validate-content.js:96-99 | adding an entry to the listing adds its position to the chapter positions exactly when it is a chapter directory |
| `Checks.ValidateKeywords` | docusaurus-website-demo-main/docusaurus-website-demo-main/scripts/validate-content.js:57-63 | the loop with flag and `break` passes exactly when some collected file's (lower-cased when required) content includes a keyword, and picks the matching message |
| `Checks.ValidateContentAccuracy` | docusaurus-website-demo-main/docusaurus-website-demo-main/scripts/validate-content.js:53-69 | verdict and message of the case-sensitive citation check as `Expected` gives them |
| `Checks.ValidateAcademicLanguage` | docusaurus-website-demo-main/docusaurus-website-demo-main/scripts/validate-content.js:72-92 | verdict and message of the case-insensitive academic-tone check |
| `Checks.ValidateStructure` | docusaurus-website-demo-main/docusaurus-website-demo-main/scripts/validate-content.js:95-107 | passes if and only if at least 3 listing positions hold `chapter…` directories and an `intro.md` entry exists; the message reports that count and yes/no |
| `Checks.ScanVisualAids` | docusaurus-website-demo-main/docusaurus-website-demo-main/scripts/validate-content.js:115-125 | after the loop over every file, the diagram flag is set exactly when some file includes "```mermaid" or "mermaid", and the snippet flag exactly when some file has more than two "```" matches |
| `Checks.ValidateVisualAids` | docusaurus-website-demo-main/docusaurus-website-demo-main/scripts/validate-content.js:110-131 | the full scan sets each flag exactly when some file has a diagram tag or more than two fences; passes when both are set |
| `Checks.ValidateAgenticFocus` | docusaurus-website-demo-main/docusaurus-website-demo-main/scripts/validate-content.js:134-153 | verdict and message of the case-insensitive agentic-focus check |
| `Checks.ValidateSafetyEthics` | docusaurus-website-demo-main/docusaurus-website-demo-main/scripts/validate-content.js:156-175 | verdict and message of the case-insensitive safety/ethics check |
| `Checks.ValidateFormatCompatibility` | docusaurus-website-demo-main/docusaurus-website-demo-main/scripts/validate-content.js:178-190 | always passes, and reports the number of Markdown files found |
| `Checks.ValidateModularity` | docusaurus-website-demo-main/docusaurus-website-demo-main/scripts/validate-content.js:193-214 | passes if and only if some chapter directory exists and every one has 2 or more entries; the message reports the count and the `allChaptersModular` flag |
| `CheckLemmas.KeywordCheckPassesIff` | docusaurus-website-demo-main/docusaurus-website-demo-main/scripts/validate-content.js:54-63 | a keyword check passes if and only if some Markdown file at any depth includes one of its keywords; an empty corpus fails |
| `CheckLemmas.CitationCheckIff` | docusaurus-website-demo-main/docusaurus-website-demo-main/scripts/validate-content.js:53-68 | the citation check passes if and only if some Markdown file's content includes, case-sensitively, "cite", "reference" or "source" |
| `CheckLemmas.CaseInsensitiveChecksIgnoreCase` | docusaurus-website-demo-main/docusaurus-website-demo-main/scripts/validate-content.js:76-86 | for the lower-casing checks, two corpora listing the same paths whose contents differ only in letter case get the same verdict and message |
| `CheckLemmas.WalkKeepsCaseVariants` | docusaurus-website-demo-main/docusaurus-website-demo-main/scripts/validate-content.js:220-233 | walking two listings of the same shape and names, whose file contents differ only in letter case, collects the same paths in the same order with contents that differ only in case |
| `CheckLemmas.CaseInsensitiveTreesIgnoreCase` | docusaurus-website-demo-main/docusaurus-website-demo-main/scripts/validate-content.js:76-86 | two trees that differ only in the ASCII case of file contents get the same academic-language, agentic-focus and safety/ethics verdicts and messages |
| `CheckLemmas.IgnoringCaseFindsMore` | docusaurus-website-demo-main/docusaurus-website-demo-main/scripts/validate-content.js:79-82 | with lower-case keywords, a case-sensitive hit is also a hit after lower-casing |
| `CheckLemmas.DiagramTagRedundant` | docusaurus-website-demo-main/docusaurus-website-demo-main/scripts/validate-content.js:118 | testing for "```mermaid" or "mermaid" is the same as testing for "mermaid" alone |
| `CheckLemmas.MultiAgentRedundant` | docusaurus-website-demo-main/docusaurus-website-demo-main/scripts/validate-content.js:140-143 | the agentic disjunction equals the one without "multi-agent" |
| `CheckLemmas.VisualAidsIff` | docusaurus-website-demo-main/docusaurus-website-demo-main/scripts/validate-content.js:110-128 | passes if and only if some Markdown file contains "mermaid" and some, possibly different, Markdown file has more than 2 occurrences of "```" |
| `CheckLemmas.CountMatchesSkipsPlainText` | docusaurus-website-demo-main/docusaurus-website-demo-main/scripts/validate-content.js:122 | backtick-free text in front of a string adds no fence match |
| `CheckLemmas.SingleCodeBlockCountsTwo` | docusaurus-website-demo-main/docusaurus-website-demo-main/scripts/validate-content.js:122 | one fenced block with a backtick-free body counts exactly 2, which is not enough |
| `CheckLemmas.AtMostOneFencePairFails` | docusaurus-website-demo-main/docusaurus-website-demo-main/scripts/validate-content.js:122-128 | a tree whose Markdown files each hold at most 2 fences fails the visual-aids check |
| `CheckLemmas.NoChaptersFailsModularity` | docusaurus-website-demo-main/docusaurus-website-demo-main/scripts/validate-content.js:200-212 | with no chapter directory the check fails while its message says "All modular: true" |
| `CheckLemmas.StructureIgnoresContent` | docusaurus-website-demo-main/docusaurus-website-demo-main/scripts/validate-content.js:95-105 | `intro.md` plus three chapter directories of two files each pass structure and modularity whatever the files contain |
| `CheckLemmas.ResearchSentencePasses` | docusaurus-website-demo-main/docusaurus-website-demo-main/scripts/validate-content.js:76-85 | a lone page "Outcome metrics from our research study" passes the academic-language check |
| `Validator.RunCheck` | docusaurus-website-demo-main/docusaurus-website-demo-main/scripts/validate-content.js:253 | a principle's check returns the verdict and message `Expected` gives for its id |
| `Validator.CountPassedIsPassingLines` | docusaurus-website-demo-main/docusaurus-website-demo-main/scripts/validate-content.js:250-263 | the running tally equals the number of passing lines, is at most the number of lines, and reaches it if and only if every line passed |
| `Validator.RunPrinciples` | docusaurus-website-demo-main/docusaurus-website-demo-main/scripts/validate-content.js:250-263 | the loop yields one line per principle in table order, each with that principle's name and its check's expected verdict and message, and `passedCount` is the running count of passing lines |
| `Validator.ValidateDocumentation` | docusaurus-website-demo-main/docusaurus-website-demo-main/scripts/validate-content.js:240-274 | missing root: an error, no check, status 0. Otherwise one line per principle in table order, `passedCount` equal to the number of passing principles (so at most 8), and status 0 if and only if all 8 passed, else 1 |
| `Validator.PrincipleChecks` | docusaurus-website-demo-main/docusaurus-website-demo-main/scripts/validate-content.js:9-50 | helper for `AllPassIff`: the table has 8 principles and runs the checks in the listed order |
| `Validator.AllPassIff` | docusaurus-website-demo-main/docusaurus-website-demo-main/scripts/validate-content.js:267-269 | all principles pass exactly when the seven checks other than the always-passing format check pass |
| `Validator.NoMarkdownFilesFailsRun` | docusaurus-website-demo-main/docusaurus-website-demo-main/scripts/validate-content.js:53-175 | with no Markdown file every content check fails, so the run never exits with status 0 |

## Left out

- Filesystem access (`readdirSync`, `statSync`, `existsSync`, `readFileSync`): the tree is an input value. Symlinks, permission errors, read failures and a `./docs` that is a file rather than a directory are outside the model.
- Path strings: a collected path is the list of entry names below the docs root. The `./docs` prefix and `path.join` separators are not modelled.
- Re-reading: every content check re-collects the file list, as the script does, but a file's content is fixed by the tree, so reads between checks cannot differ.
- Console output and `process.exit`: the report is a list of (name, passed, message) records plus the tally, and the exit status is a returned integer. The status glyphs, the summary line and the closing banner text are not modelled.
- `toLowerCase` lower-cases only the ASCII letters A–Z. Other Unicode case mappings are not modelled.
- The regular-expression engine: `/```/g` is modelled only as a count of non-overlapping left-to-right occurrences of the literal.
- The React/TSX pages and components and `docusaurus.config.ts`: they are presentation and static framework configuration, with no validation logic.

