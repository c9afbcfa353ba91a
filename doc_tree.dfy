/** The documentation tree the validator reads, and the recursive collection
    of its Markdown files (`getAllMarkdownFiles` with its inner
    `walkDirectory`). A directory is the ordered listing that `readdirSync`
    returns; each entry is a file with its text or a subdirectory. */
module DocTree {
  import opened Text

  datatype Entry =
    | File(name: string, content: string)
    | Directory(name: string, entries: seq<Entry>)

  /** A path as the names of the entries leading to a file, below the docs root. */
  type Path = seq<string>

  /** A collected Markdown file: where it sits and what `readFileSync` returns for it. */
  datatype Doc = Doc(path: Path, content: string)

  predicate IsMarkdownName(name: string) {
    EndsWith(name, ".md") || EndsWith(name, ".mdx")
  }

  /** What a walk of `entries`, started at `current`, appends: the listing
      order, entering each subdirectory where it is listed. */
  function MarkdownFiles(entries: seq<Entry>, current: Path): seq<Doc>
    decreases entries
  {
    if entries == [] then [] else EntryFiles(entries[0], current) + MarkdownFiles(entries[1..], current)
  }

  /** What one listed entry under `current` contributes to the walk. */
  function EntryFiles(e: Entry, current: Path): seq<Doc>
    decreases e
  {
    match e
    case File(name, content) => if IsMarkdownName(name) then [Doc(current + [name], content)] else []
    case Directory(name, children) => MarkdownFiles(children, current + [name])
  }

  /** Reference definition of the tree's files: following `path` name by name
      from `entries` ends at a file (not a directory) holding `content`. */
  ghost predicate FileAt(entries: seq<Entry>, path: Path, content: string)
    decreases |path|, 1
  {
    exists i :: 0 <= i < |entries| && LeadsTo(entries[i], path, content)
  }

  /** Following `path` from the single entry `e`, whose name is the path's first step. */
  ghost predicate LeadsTo(e: Entry, path: Path, content: string)
    decreases |path|, 0
  {
    |path| > 0 && e.name == path[0] &&
    if |path| == 1 then e == File(path[0], content)
    else e.Directory? && FileAt(e.entries, path[1..], content)
  }

  ghost predicate IsMarkdownFileAt(root: seq<Entry>, path: Path, content: string) {
    |path| > 0 && IsMarkdownName(path[|path| - 1]) && FileAt(root, path, content)
  }

  /** The listing is walked in order: a walk of two listings one after the
      other collects the first listing's files, then the second's. */
  lemma {:induction false} MarkdownFilesAppend(a: seq<Entry>, b: seq<Entry>, current: Path)
    ensures MarkdownFiles(a + b, current) == MarkdownFiles(a, current) + MarkdownFiles(b, current)
    decreases a
  {
    if a == [] {
      assert a + b == b;
    } else {
      assert (a + b)[0] == a[0];
      assert (a + b)[1..] == a[1..] + b;
      MarkdownFilesAppend(a[1..], b, current);
    }
  }

  /** Every collected path lies strictly below the directory the walk started in. */
  lemma {:induction false} DocsUnder(entries: seq<Entry>, current: Path, d: Doc)
    requires d in MarkdownFiles(entries, current)
    ensures |d.path| > |current| && d.path[..|current|] == current
    decreases entries
  {
    if d in EntryFiles(entries[0], current) {
      DocsUnderEntry(entries[0], current, d);
      assert d.path[..|current|] == d.path[..|current| + 1][..|current|];
    } else {
      DocsUnder(entries[1..], current, d);
    }
  }

  lemma {:induction false} DocsUnderEntry(e: Entry, current: Path, d: Doc)
    requires d in EntryFiles(e, current)
    ensures |d.path| > |current| && d.path[..|current| + 1] == current + [e.name]
    decreases e
  {
    match e
    case File(name, content) =>
    case Directory(name, children) =>
      DocsUnder(children, current + [name], d);
  }

  /** `FileAt` over a non-empty listing: the first entry leads there, or the rest does. */
  lemma FileAtCons(entries: seq<Entry>, path: Path, content: string)
    requires entries != []
    ensures FileAt(entries, path, content) <==>
      LeadsTo(entries[0], path, content) || FileAt(entries[1..], path, content)
  {
    var rest := entries[1..];
    if FileAt(rest, path, content) {
      var j :| 0 <= j < |rest| && LeadsTo(rest[j], path, content);
      assert entries[j + 1] == rest[j];
    }
    if FileAt(entries, path, content) {
      var i :| 0 <= i < |entries| && LeadsTo(entries[i], path, content);
      if i > 0 {
        assert rest[i - 1] == entries[i];
      }
    }
  }

  lemma {:induction false} InMarkdownFiles(entries: seq<Entry>, current: Path, path: Path, content: string)
    ensures Doc(current + path, content) in MarkdownFiles(entries, current) <==>
      |path| > 0 && IsMarkdownName(path[|path| - 1]) && FileAt(entries, path, content)
    decreases entries
  {
    if entries != [] {
      FileAtCons(entries, path, content);
      InEntryFiles(entries[0], current, path, content);
      InMarkdownFiles(entries[1..], current, path, content);
    }
  }

  lemma {:induction false} InEntryFiles(e: Entry, current: Path, path: Path, content: string)
    ensures Doc(current + path, content) in EntryFiles(e, current) <==>
      |path| > 0 && IsMarkdownName(path[|path| - 1]) && LeadsTo(e, path, content)
    decreases e
  {
    var d := Doc(current + path, content);
    if d in EntryFiles(e, current) {
      DocsUnderEntry(e, current, d);
      assert |path| > 0;
      assert path[0] == (current + path)[|current|] == d.path[..|current| + 1][|current|] == e.name;
    }
    match e
    case File(name, c) =>
      if d in EntryFiles(e, current) {
        assert path == (current + path)[|current|..] == (current + [name])[|current|..] == [name];
      }
      if LeadsTo(e, path, content) {
        assert path == [name];
      }
    case Directory(name, children) =>
      if |path| > 0 && path[0] == name {
        assert current + path == (current + [name]) + path[1..];
        InMarkdownFiles(children, current + [name], path[1..], content);
        if |path| > 1 {
          assert path[1..][|path[1..]| - 1] == path[|path| - 1];
        }
      }
  }

  /** `getAllMarkdownFiles` returns exactly the Markdown files of the tree, at
      any depth: a path and content are collected if and only if that path
      leads to a file (never a directory) with that content whose name ends in
      `.md` or `.mdx`. */
  lemma CollectedExactlyMarkdownFiles(root: seq<Entry>, path: Path, content: string)
    ensures Doc(path, content) in MarkdownFiles(root, []) <==> IsMarkdownFileAt(root, path, content)
  {
    InMarkdownFiles(root, [], path, content);
    assert [] + path == path;
  }

  /** The collector of `getAllMarkdownFiles`: `walkDirectory` is a closure
      that appends to one shared `files` array as it recurses. */
  class Collector {
    var files: seq<Doc>

    constructor ()
      ensures files == []
    {
      files := [];
    }

    /** `walkDirectory(currentPath)`, given the listing under `currentPath`. */
    method Walk(entries: seq<Entry>, current: Path)
      modifies this
      ensures files == old(files) + MarkdownFiles(entries, current)
      decreases entries
    {
      var i := 0;
      while i < |entries|
        invariant 0 <= i <= |entries|
        invariant files == old(files) + MarkdownFiles(entries[..i], current)
        decreases |entries| - i
      {
        MarkdownFilesAppend(entries[..i], [entries[i]], current);
        assert entries[..i + 1] == entries[..i] + [entries[i]];
        assert MarkdownFiles([entries[i]], current) == EntryFiles(entries[i], current);
        match entries[i] {
          case Directory(name, children) =>
            Walk(children, current + [name]);
          case File(name, content) =>
            if IsMarkdownName(name) {
              files := files + [Doc(current + [name], content)];
            }
        }
        i := i + 1;
      }
      assert entries[..i] == entries;
    }
  }

  /** `getAllMarkdownFiles(docsPath)`, given the listing of the docs root. */
  method GetAllMarkdownFiles(root: seq<Entry>) returns (files: seq<Doc>)
    ensures files == MarkdownFiles(root, [])
  {
    var collector := new Collector();
    collector.Walk(root, []);
    files := collector.files;
  }
}
