/** What the generator's runs promise, stated over the functions `Generator` is proved against. */
module GeneratorFacts {
  import opened Substitution
  import opened Paths
  import opened StringOrder
  import opened Generator
  import PathFacts

  /** A template without placeholders is written out as it is. */
  lemma FillWithoutPlaceholders(template: string, title: string, html: string)
    requires Free(template, TitlePlaceholder) && Free(template, ContentPlaceholder)
    ensures Fill(template, title, html) == template
  {
    ReplaceAllFree(template, TitlePlaceholder, title);
    ReplaceAllFree(template, ContentPlaceholder, html);
  }

  /** The title pass leaves `{{content}}`, and any text after it without `{`, untouched. */
  lemma TitlePassSkipsContent(c: string, title: string)
    requires '{' !in c
    ensures ReplaceAll(ContentPlaceholder + c, TitlePlaceholder, title) == ContentPlaceholder + c
  {
    var cp, tp := ContentPlaceholder, TitlePlaceholder;
    forall i | 0 <= i < |cp| ensures !OccursAt(cp + c, tp, i) {
      if i == 0 {
        MismatchAt(cp + c, tp, 0, 2);
      } else if i == 1 {
        MismatchAt(cp + c, tp, 1, 1);
      } else {
        MismatchAt(cp + c, tp, i, 0);
      }
    }
    ReplaceAllCopiesPrefix(cp, c, tp, title);
    ReplaceAllSkips(c, [], tp, title);
    assert c + [] == c;
  }

  /** One pass over `a`, the pattern, `b` and a rest the pass leaves alone. */
  lemma SlotPass(a: string, b: string, rest: string, pat: string, rep: string)
    requires pat != [] && pat[0] !in a && pat[0] !in b
    requires ReplaceAll(rest, pat, rep) == rest
    ensures ReplaceAll(a + pat + b + rest, pat, rep) == (a + rep + b) + rest
  {
    var y := b + rest;
    var x := pat + y;
    assert a + pat + b + rest == a + x;
    ReplaceAllSkips(a, x, pat, rep);
    ReplaceAllLeading(pat, y, rep);
    ReplaceAllSkips(b, rest, pat, rep);
    assert a + (rep + (b + rest)) == (a + rep + b) + rest;
  }

  /** The title pass over a template with one slot of each kind. */
  lemma TitlePass(a: string, b: string, c: string, title: string)
    requires '{' !in a && '{' !in b && '{' !in c
    ensures ReplaceAll(a + TitlePlaceholder + b + ContentPlaceholder + c, TitlePlaceholder, title)
      == (a + title + b) + (ContentPlaceholder + c)
  {
    var rest := ContentPlaceholder + c;
    assert TitlePlaceholder[0] == '{';
    TitlePassSkipsContent(c, title);
    SlotPass(a, b, rest, TitlePlaceholder, title);
    assert a + TitlePlaceholder + b + ContentPlaceholder + c == a + TitlePlaceholder + b + rest;
  }

  /** The content pass once the title is in place. */
  lemma ContentPass(front: string, c: string, html: string)
    requires '{' !in front && '{' !in c
    ensures ReplaceAll(front + (ContentPlaceholder + c), ContentPlaceholder, html) == front + html + c
  {
    ReplaceAllSkips(front, ContentPlaceholder + c, ContentPlaceholder, html);
    ReplaceAllLeading(ContentPlaceholder, c, html);
    ReplaceAllSkips(c, [], ContentPlaceholder, html);
    assert c + [] == c;
  }

  /** In a template free of `{` outside its two slots, the title and the HTML land in their slots. */
  lemma FillSimpleTemplate(a: string, b: string, c: string, title: string, html: string)
    requires '{' !in a && '{' !in b && '{' !in c && '{' !in title
    ensures Fill(a + TitlePlaceholder + b + ContentPlaceholder + c, title, html) == a + title + b + html + c
  {
    TitlePass(a, b, c, title);
    ContentPass(a + title + b, c, html);
  }

  /** The title pass runs first: a title that reads `{{content}}` is itself replaced by the HTML. */
  lemma TitleIsFilledFirst(html: string)
    ensures Fill(TitlePlaceholder, ContentPlaceholder, html) == html
  {
    ReplaceAllLeading(TitlePlaceholder, [], ContentPlaceholder);
    assert TitlePlaceholder + [] == TitlePlaceholder;
    ReplaceAllLeading(ContentPlaceholder, [], html);
    assert ContentPlaceholder + [] == ContentPlaceholder;
    assert html + [] == html;
  }

  /** HTML inserted by the content pass is not scanned again: a `{{title}}` in it stays. */
  lemma ContentIsNotRescanned(title: string)
    requires '{' !in title
    ensures Fill(ContentPlaceholder, title, TitlePlaceholder) == TitlePlaceholder
  {
    var cp, tp := ContentPlaceholder, TitlePlaceholder;
    TitlePassSkipsContent([], title);
    assert cp + [] == cp;
    ReplaceAllLeading(cp, [], tp);
    assert cp + [] == cp && tp + [] == tp;
  }

  /** Each source gets a page at its output path, and nothing else is written. */
  lemma {:induction false} OutputsDomain(
    files: map<string, string>, paths: seq<string>, template: string, render: string -> string)
    requires forall p :: p in paths ==> p in files
    ensures Outputs(files, paths, template, render).Keys == Image(OutputPath, paths)
    decreases |paths|
  {
    if paths != [] {
      var init := paths[..|paths| - 1];
      assert forall p :: p in init ==> p in paths;
      var last := paths[|paths| - 1];
      OutputsDomain(files, init, template, render);
      OutputsKeysStep(files, paths, template, render);
      ImageOfInit(OutputPath, paths);
    }
  }

  /** The last source adds its output path to the written paths. */
  lemma OutputsKeysStep(files: map<string, string>, paths: seq<string>, template: string, render: string -> string)
    requires forall p :: p in paths ==> p in files
    requires paths != []
    ensures Outputs(files, paths, template, render).Keys
      == Outputs(files, paths[..|paths| - 1], template, render).Keys + {OutputPath(paths[|paths| - 1])}
  {
  }

  /** The values `f` takes on the elements of xs. */
  function Image(f: string -> string, xs: seq<string>): set<string> {
    set x | x in xs :: f(x)
  }

  /** The image of a non-empty sequence is that of all but its last element, plus the last one's. */
  lemma ImageOfInit(f: string -> string, xs: seq<string>)
    requires xs != []
    ensures Image(f, xs) == Image(f, xs[..|xs| - 1]) + {f(xs[|xs| - 1])}
  {
    assert xs == xs[..|xs| - 1] + [xs[|xs| - 1]];
  }

  /** The page at a source's output path is that source's page: no two sources share an output. */
  lemma {:induction false} OutputsPage(
    files: map<string, string>, paths: seq<string>, template: string, render: string -> string, p: string)
    requires forall q :: q in paths ==> q in files && IsMarkdownEntry(q)
    requires p in paths
    ensures OutputPath(p) in Outputs(files, paths, template, render)
    ensures Outputs(files, paths, template, render)[OutputPath(p)] == Page(files[p], template, render)
    decreases |paths|
  {
    var init, last := paths[..|paths| - 1], paths[|paths| - 1];
    assert paths == init + [last];
    if OutputPath(p) == OutputPath(last) {
      PathFacts.OutputPathInjective(p, last);
    } else {
      assert p in init;
      assert forall q :: q in init ==> q in paths;
      OutputsPage(files, init, template, render, p);
    }
  }

  /** The outputs are a function of the sources' contents alone. */
  lemma {:induction false} OutputsDependOnSources(
    f1: map<string, string>, f2: map<string, string>, paths: seq<string>, template: string, render: string -> string)
    requires forall p :: p in paths ==> p in f1 && p in f2 && f1[p] == f2[p]
    ensures Outputs(f1, paths, template, render) == Outputs(f2, paths, template, render)
    decreases |paths|
  {
    if paths != [] {
      var init := paths[..|paths| - 1];
      assert forall p :: p in init ==> p in paths;
      OutputsDependOnSources(f1, f2, init, template, render);
    }
  }

  /**
   * Running the generator again on what a successful run left behind finds
   * the same sources in the same order, the same template, and writes
   * exactly the files that are already there.
   */
  lemma RunIsIdempotent(files: map<string, string>, paths: seq<string>, render: string -> string)
    requires IsListing(paths, files)
    requires TemplatePath(DefaultTemplate) in files
    ensures var template := files[TemplatePath(DefaultTemplate)];
      var after := files + Outputs(files, paths, template, render);
      && (forall again :: IsListing(again, after) ==> again == paths)
      && TemplatePath(DefaultTemplate) in after
      && after[TemplatePath(DefaultTemplate)] == template
      && after + Outputs(after, paths, template, render) == after
  {
    var templatePath := TemplatePath(DefaultTemplate);
    var template := files[templatePath];
    var outputs := Outputs(files, paths, template, render);
    var after := files + outputs;
    OutputsUnderOutputDir(files, paths, template, render);
    PathFacts.OutputsAreNotInputs(templatePath);
    forall p | p in paths ensures p in after && after[p] == files[p] {
      PathFacts.OutputsAreNotInputs(p);
    }
    assert IsListing(paths, after) by {
      forall p | p in after && IsMarkdownEntry(p) ensures p in files {
        PathFacts.OutputsAreNotInputs(p);
      }
    }
    forall again | IsListing(again, after) ensures again == paths {
      AscendingUnique(again, paths);
    }
    OutputsDependOnSources(after, files, paths, template, render);
    assert after + outputs == after;
  }
}
