/**
 * The batch site generator (generator.rb).
 *
 * The filesystem is a `Site` object: `files` maps each regular file's path to
 * its contents, and `dirs` is the set of existing directories.  Kramdown's
 * markdown-to-HTML conversion is a parameter `render` about which nothing is
 * assumed.  `exit 1` becomes an `Err` outcome that ends the run.
 */
module Generator {
  import opened Title
  import opened Substitution
  import opened Paths
  import opened StringOrder
  import PathFacts

  const TitlePlaceholder: string := "{{title}}"
  const ContentPlaceholder: string := "{{content}}"

  /** The ways a run stops early. */
  datatype Failure =
    | MissingContentDirectory
    | NoMarkdownFiles
    | MissingTemplate(path: string)
    | Unreadable(path: string)

  datatype Result<T> = Ok(value: T) | Err(failure: Failure)

  /** The two substitutions of `process_markdown_file`: every `{{title}}`, then every `{{content}}` of that result. */
  function Fill(template: string, title: string, html: string): string {
    ReplaceAll(ReplaceAll(template, TitlePlaceholder, title), ContentPlaceholder, html)
  }

  /** The page written for a markdown source: a function of the source and the template only. */
  function Page(markdown: string, template: string, render: string -> string): string {
    Fill(template, ExtractTitle(markdown), render(markdown))
  }

  /** The sources `Dir.glob(File.join(CONTENT_DIR, '*.md'))` finds among the files. */
  function GlobSet(files: map<string, string>): set<string> {
    set p | p in files && IsMarkdownEntry(p)
  }

  /** paths is what `Dir.glob` returns: every matching file once, in sorted order. */
  ghost predicate IsListing(paths: seq<string>, files: map<string, string>) {
    && Ascending(paths)
    && forall p :: p in paths <==> p in files && IsMarkdownEntry(p)
  }

  /**
   * The files a run writes when it processes `paths` in order against
   * `template`: each source's page at its output path, a later write
   * replacing an earlier one at the same path.
   */
  function Outputs(files: map<string, string>, paths: seq<string>, template: string, render: string -> string)
    : map<string, string>
    requires forall p :: p in paths ==> p in files
  {
    if paths == [] then map[]
    else
      var last := paths[|paths| - 1];
      Outputs(files, paths[..|paths| - 1], template, render)[OutputPath(last) := Page(files[last], template, render)]
  }

  /** The filesystem the generator works on. */
  class Site {
    var files: map<string, string>
    var dirs: set<string>

    /** Loading the script: `FileUtils.mkdir_p(OUTPUT_DIR)` makes sure the output directory exists. */
    constructor (files0: map<string, string>, dirs0: set<string>)
      ensures files == files0
      ensures dirs == dirs0 + {OutputDir}
    {
      files := files0;
      dirs := dirs0 + {OutputDir};
    }

    /** `load_template`: the template's text, or a stop when the file is absent. */
    function LoadTemplate(name: string): (r: Result<string>)
      reads this
      ensures r.Ok? <==> TemplatePath(name) in files
      ensures r.Ok? ==> r.value == files[TemplatePath(name)]
      ensures r.Err? ==> r.failure == MissingTemplate(TemplatePath(name))
    {
      var path := TemplatePath(name);
      if path in files then Ok(files[path]) else Err(MissingTemplate(path))
    }

    /** `Dir.glob(File.join(CONTENT_DIR, '*.md'))`: the matching files, sorted. */
    method Glob() returns (paths: seq<string>)
      ensures IsListing(paths, files)
    {
      var remaining := GlobSet(files);
      paths := [];
      while remaining != {}
        invariant Ascending(paths)
        invariant forall p :: p in paths || p in remaining <==> p in files && IsMarkdownEntry(p)
        invariant forall p, q :: p in paths && q in remaining ==> Below(p, q)
        decreases remaining
      {
        LeastExists(remaining);
        var next :| next in remaining && forall q :: q in remaining && q != next ==> Below(next, q);
        forall p | p in paths ensures p != next {
          BelowIrreflexive(p);
        }
        paths := paths + [next];
        remaining := remaining - {next};
      }
    }

    /**
     * `process_markdown_file`: read the source, take its title, render it,
     * load the template, fill it, and write the page to the output path.
     */
    method ProcessMarkdownFile(path: string, render: string -> string) returns (r: Result<string>)
      modifies this
      ensures dirs == old(dirs)
      ensures path !in old(files) ==> r == Err(Unreadable(path)) && files == old(files)
      ensures path in old(files) && TemplatePath(DefaultTemplate) !in old(files) ==>
        r == Err(MissingTemplate(TemplatePath(DefaultTemplate))) && files == old(files)
      ensures path in old(files) && TemplatePath(DefaultTemplate) in old(files) ==>
        && r == Ok(OutputPath(path))
        && files == old(files)[OutputPath(path) := Page(old(files)[path], old(files)[TemplatePath(DefaultTemplate)], render)]
    {
      if path !in files {
        return Err(Unreadable(path));
      }
      var markdown := files[path];
      var title := ExtractTitle(markdown);
      var html := render(markdown);
      var template := LoadTemplate(DefaultTemplate);
      if template.Err? {
        return Err(template.failure);
      }
      var finalHtml := ReplaceAll(ReplaceAll(template.value, TitlePlaceholder, title), ContentPlaceholder, html);
      var outputPath := JoinPath(OutputDir, OutputFilename(BasenameWithout(path, MarkdownSuffix)));
      files := files[outputPath := finalHtml];
      r := Ok(outputPath);
    }

    /**
     * The loop of `generate_site`: process `paths` in order, stopping at the
     * first failure, and collect the output paths.
     */
    method ProcessAll(paths: seq<string>, render: string -> string) returns (r: Result<seq<string>>)
      requires forall p :: p in paths ==> p in files && !InOutputDir(p)
      modifies this
      ensures dirs == old(dirs)
      ensures paths != [] && TemplatePath(DefaultTemplate) !in old(files) ==>
        r == Err(MissingTemplate(TemplatePath(DefaultTemplate))) && files == old(files)
      ensures paths == [] ==> r == Ok([]) && files == old(files)
      ensures TemplatePath(DefaultTemplate) in old(files) ==>
        && r.Ok?
        && r.value == seq(|paths|, i requires 0 <= i < |paths| => OutputPath(paths[i]))
        && files == old(files) + Outputs(old(files), paths, old(files)[TemplatePath(DefaultTemplate)], render)
    {
      ghost var files0 := files;
      ghost var templatePath := TemplatePath(DefaultTemplate);
      ghost var template := if templatePath in files0 then files0[templatePath] else [];
      PathFacts.OutputsAreNotInputs(templatePath);
      var generated: seq<string> := [];
      var i := 0;
      while i < |paths|
        invariant 0 <= i <= |paths|
        invariant dirs == old(dirs)
        invariant i > 0 ==> templatePath in files0
        invariant generated == seq(i, j requires 0 <= j < i => OutputPath(paths[j]))
        invariant files == files0 + Outputs(files0, paths[..i], template, render)
      {
        var path := paths[i];
        OutputsKeepInputs(files0, paths[..i], template, render, path);
        OutputsKeepInputs(files0, paths[..i], template, render, templatePath);
        var written := ProcessMarkdownFile(path, render);
        if written.Err? {
          return Err(written.failure);
        }
        OutputsStep(files0, paths, i, template, render);
        OutputPathsSnoc(paths, i, generated);
        generated := generated + [written.value];
        i := i + 1;
      }
      assert paths[..i] == paths;
      r := Ok(generated);
    }

    /**
     * `generate_site`: stop when the content directory is missing or holds
     * no markdown file; otherwise process the files in glob order.
     * `markdownFiles` and the list in `r` are the source's `markdown_files`
     * and `generated_files`.
     */
    method GenerateSite(render: string -> string) returns (markdownFiles: seq<string>, r: Result<seq<string>>)
      modifies this
      ensures dirs == old(dirs)
      ensures ContentDir !in old(dirs) ==> r == Err(MissingContentDirectory) && files == old(files)
      ensures ContentDir in old(dirs) ==> IsListing(markdownFiles, old(files))
      ensures ContentDir in old(dirs) && markdownFiles == [] ==> r == Err(NoMarkdownFiles) && files == old(files)
      ensures ContentDir in old(dirs) && markdownFiles != [] && TemplatePath(DefaultTemplate) !in old(files) ==>
        r == Err(MissingTemplate(TemplatePath(DefaultTemplate))) && files == old(files)
      ensures ContentDir in old(dirs) && markdownFiles != [] && TemplatePath(DefaultTemplate) in old(files) ==>
        && r.Ok?
        && r.value == seq(|markdownFiles|, i requires 0 <= i < |markdownFiles| => OutputPath(markdownFiles[i]))
        && files == old(files) + Outputs(old(files), markdownFiles, old(files)[TemplatePath(DefaultTemplate)], render)
    {
      markdownFiles := [];
      if ContentDir !in dirs {
        return [], Err(MissingContentDirectory);
      }
      markdownFiles := Glob();
      if markdownFiles == [] {
        return markdownFiles, Err(NoMarkdownFiles);
      }
      forall p | p in markdownFiles ensures p in files && !InOutputDir(p) {
        PathFacts.OutputsAreNotInputs(p);
      }
      r := ProcessAll(markdownFiles, render);
    }
  }

  /** Extending the output paths of a prefix by one source. */
  lemma OutputPathsSnoc(paths: seq<string>, i: nat, generated: seq<string>)
    requires i < |paths|
    requires generated == seq(i, j requires 0 <= j < i => OutputPath(paths[j]))
    ensures generated + [OutputPath(paths[i])] == seq(i + 1, j requires 0 <= j < i + 1 => OutputPath(paths[j]))
  {
  }

  /** A run leaves every file outside the output directory as it was. */
  lemma OutputsKeepInputs(
    files: map<string, string>, paths: seq<string>, template: string, render: string -> string, k: string)
    requires forall p :: p in paths ==> p in files
    requires !InOutputDir(k)
    ensures k in files + Outputs(files, paths, template, render) <==> k in files
    ensures k in files ==> (files + Outputs(files, paths, template, render))[k] == files[k]
  {
    OutputsUnderOutputDir(files, paths, template, render);
  }

  /** Processing one more source adds its page to the written files. */
  lemma OutputsStep(files: map<string, string>, paths: seq<string>, i: nat, template: string, render: string -> string)
    requires i < |paths|
    requires forall p :: p in paths ==> p in files
    ensures (files + Outputs(files, paths[..i], template, render))[OutputPath(paths[i]) := Page(files[paths[i]], template, render)]
      == files + Outputs(files, paths[..i + 1], template, render)
  {
    var prefix := paths[..i + 1];
    assert prefix[..|prefix| - 1] == paths[..i] && prefix[|prefix| - 1] == paths[i];
    var page := Page(files[paths[i]], template, render);
    assert Outputs(files, prefix, template, render) == Outputs(files, paths[..i], template, render)[OutputPath(paths[i]) := page];
    UpdateAfterUnion(files, Outputs(files, paths[..i], template, render), OutputPath(paths[i]), page);
  }

  /** Updating a union is updating its right operand. */
  lemma UpdateAfterUnion(a: map<string, string>, b: map<string, string>, k: string, v: string)
    ensures (a + b)[k := v] == a + b[k := v]
  {
  }

  /** Every file a run writes lies under the output directory. */
  lemma {:induction false} OutputsUnderOutputDir(
    files: map<string, string>, paths: seq<string>, template: string, render: string -> string)
    requires forall p :: p in paths ==> p in files
    ensures forall k :: k in Outputs(files, paths, template, render) ==> InOutputDir(k)
    decreases |paths|
  {
    if paths != [] {
      OutputsUnderOutputDir(files, paths[..|paths| - 1], template, render);
      PathFacts.OutputPathInOutputDir(paths[|paths| - 1]);
    }
  }
}
