/**
 * Path handling of the site generator: the directory constants, `File.join`
 * of a directory and a name, `File.basename` with a suffix, the output path
 * derived from a source path, and the entries that globbing `*.md` in the content directory
 * matches.
 */
module Paths {

  const ContentDir: string := "content"
  const TemplateDir: string := "templates"
  const OutputDir: string := "output"
  const DefaultTemplate: string := "default.html"
  const MarkdownSuffix: string := ".md"
  const HtmlSuffix: string := ".html"

  /** `File.join(dir, name)` for a directory without a trailing and a name without a leading separator. */
  function JoinPath(dir: string, name: string): string {
    dir + "/" + name
  }

  /** The path of a template file, `File.join(TEMPLATE_DIR, name)`. */
  function TemplatePath(name: string): string {
    JoinPath(TemplateDir, name)
  }

  /** The path with its trailing separators removed. */
  function StripTrailingSlashes(path: string): string {
    if path != [] && path[|path| - 1] == '/' then StripTrailingSlashes(path[..|path| - 1]) else path
  }

  /** The last component: the longest suffix without a separator. */
  function AfterLastSlash(path: string): string {
    if path == [] || path[|path| - 1] == '/' then []
    else AfterLastSlash(path[..|path| - 1]) + [path[|path| - 1]]
  }

  /** `File.basename(path)`: trailing separators are ignored, and a path of separators only is "/". */
  function Basename(path: string): string {
    var trimmed := StripTrailingSlashes(path);
    if trimmed == [] then (if path == [] then [] else "/")
    else AfterLastSlash(trimmed)
  }

  /** `File.basename(path, suffix)`: the suffix is removed only when something is left before it. */
  function BasenameWithout(path: string, suffix: string): string {
    var base := Basename(path);
    if |base| > |suffix| && base[|base| - |suffix|..] == suffix then base[..|base| - |suffix|]
    else base
  }

  /** The output file name: `index` is special-cased, every other stem gets `.html`. */
  function OutputFilename(stem: string): (name: string)
    ensures name == stem + HtmlSuffix
  {
    if stem == "index" then "index.html" else stem + HtmlSuffix
  }

  /**
   * Where `process_markdown_file` writes the page of the source at `path`:
   * the output directory joined with the stem followed by `.html`.  This is
   * the path `process_markdown_file` builds from `OutputFilename` of the
   * stem, since that name is the stem followed by `.html` (see its contract).
   */
  function OutputPath(path: string): string {
    JoinPath(OutputDir, BasenameWithout(path, MarkdownSuffix) + HtmlSuffix)
  }

  /** A directory entry name `*.md` matches: no separator, `.md` at the end, not hidden. */
  predicate IsGlobName(name: string) {
    && '/' !in name
    && |name| >= |MarkdownSuffix|
    && name[|name| - |MarkdownSuffix|..] == MarkdownSuffix
    && name[0] != '.'
  }

  /** The path names an entry that `Dir.glob(File.join(CONTENT_DIR, '*.md'))` reports. */
  predicate IsMarkdownEntry(path: string) {
    |path| > |ContentDir| + 1
    && path[..|ContentDir| + 1] == ContentDir + "/"
    && IsGlobName(path[|ContentDir| + 1..])
  }

  /** The path lies directly or indirectly under the output directory. */
  predicate InOutputDir(path: string) {
    |path| > |OutputDir| + 1 && path[..|OutputDir| + 1] == OutputDir + "/"
  }
}

/** Facts about the derived paths. */
module PathFacts {
  import opened Paths

  /** Only separators are removed, all of the trailing ones. */
  lemma {:induction false} StripTrailingSlashesFacts(path: string)
    ensures var r := StripTrailingSlashes(path);
      && r <= path
      && (r == [] || r[|r| - 1] != '/')
      && forall i :: |r| <= i < |path| ==> path[i] == '/'
    decreases |path|
  {
    if path != [] && path[|path| - 1] == '/' {
      StripTrailingSlashesFacts(path[..|path| - 1]);
    }
  }

  /** The last component is a separator-free suffix preceded by a separator, or the whole path. */
  lemma {:induction false} AfterLastSlashFacts(path: string)
    ensures var r := AfterLastSlash(path);
      && |r| <= |path| && r == path[|path| - |r|..]
      && '/' !in r
      && (|r| < |path| ==> path[|path| - |r| - 1] == '/')
    decreases |path|
  {
    if path != [] && path[|path| - 1] != '/' {
      var init := path[..|path| - 1];
      AfterLastSlashFacts(init);
      var r0 := AfterLastSlash(init);
      assert init[|init| - |r0|..] + [path[|path| - 1]] == path[|path| - |r0| - 1..];
    }
  }

  /** The last component of `dir/name` is name when name holds no separator. */
  lemma BasenameOfJoin(dir: string, name: string)
    requires name != [] && '/' !in name
    ensures Basename(JoinPath(dir, name)) == name
  {
    var path := JoinPath(dir, name);
    assert path[|path| - 1] == name[|name| - 1];
    assert StripTrailingSlashes(path) == path;
    var r := AfterLastSlash(path);
    AfterLastSlashFacts(path);
    assert path[|path| - |name|..] == name;
    assert path[|path| - |name| - 1] == '/';
    assert forall i :: |path| - |name| <= i < |path| ==> path[i] == name[i - (|path| - |name|)];
    assert forall i :: |path| - |r| <= i < |path| ==> path[i] == r[i - (|path| - |r|)];
    assert r == path[|path| - |r|..];
  }

  /** The `<stem>` of a globbed source `content/<stem>.md`. */
  function EntryStem(path: string): string
    requires IsMarkdownEntry(path)
  {
    var name := path[|ContentDir| + 1..];
    name[..|name| - |MarkdownSuffix|]
  }

  /** A globbed source `content/<stem>.md` is written to `output/<stem>.html`. */
  lemma OutputPathOfEntry(path: string)
    requires IsMarkdownEntry(path)
    ensures path == ContentDir + "/" + EntryStem(path) + MarkdownSuffix
    ensures OutputPath(path) == OutputDir + "/" + EntryStem(path) + HtmlSuffix
  {
    var name := path[|ContentDir| + 1..];
    var stem := EntryStem(path);
    assert path == path[..|ContentDir| + 1] + name;
    assert path == JoinPath(ContentDir, name);
    assert name == stem + name[|name| - |MarkdownSuffix|..];
    assert name == stem + MarkdownSuffix;
    BasenameOfJoin(ContentDir, name);
    assert name != MarkdownSuffix by {
      assert name[0] != MarkdownSuffix[0];
    }
    assert BasenameWithout(path, MarkdownSuffix) == stem;
  }

  /** Output paths live under the output directory. */
  lemma OutputPathInOutputDir(path: string)
    ensures InOutputDir(OutputPath(path))
  {
    var out := OutputPath(path);
    assert out[..|OutputDir| + 1] == OutputDir + "/";
  }

  /** Distinct sources of the one content directory never share an output path. */
  lemma OutputPathInjective(p1: string, p2: string)
    requires IsMarkdownEntry(p1) && IsMarkdownEntry(p2)
    requires OutputPath(p1) == OutputPath(p2)
    ensures p1 == p2
  {
    OutputPathOfEntry(p1);
    OutputPathOfEntry(p2);
    StemOfOutput(EntryStem(p1), EntryStem(p2));
  }

  /** The stem can be read back from an output path. */
  lemma StemOfOutput(s1: string, s2: string)
    requires OutputDir + "/" + s1 + HtmlSuffix == OutputDir + "/" + s2 + HtmlSuffix
    ensures s1 == s2
  {
    var o1, o2 := OutputDir + "/" + s1 + HtmlSuffix, OutputDir + "/" + s2 + HtmlSuffix;
    assert s1 == o1[|OutputDir| + 1..|o1| - |HtmlSuffix|];
    assert s2 == o2[|OutputDir| + 1..|o2| - |HtmlSuffix|];
  }

  /** A written page never lands on a source file or on the template. */
  lemma OutputsAreNotInputs(path: string)
    requires IsMarkdownEntry(path) || path == TemplatePath(DefaultTemplate)
    ensures !InOutputDir(path)
  {
    assert path[0] == 'c' || path[0] == 't';
  }

  /** `content/<stem>.md` goes to `output/<stem>.html` for any stem free of separators. */
  lemma SourceWithStem(stem: string)
    requires stem != [] && '/' !in stem && stem[0] != '.'
    ensures OutputPath(ContentDir + "/" + stem + MarkdownSuffix) == OutputDir + "/" + stem + HtmlSuffix
  {
    var name := stem + MarkdownSuffix;
    assert ContentDir + "/" + stem + MarkdownSuffix == JoinPath(ContentDir, name);
    assert BasenameWithout(JoinPath(ContentDir, name), MarkdownSuffix) == stem by {
      assert '/' !in name;
      BasenameOfJoin(ContentDir, name);
      assert name[..|name| - |MarkdownSuffix|] == stem;
      assert name[|name| - |MarkdownSuffix|..] == MarkdownSuffix;
    }
  }
}
