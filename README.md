# RubyTranscribe: the static site generator and the transcription status rule

This project models two parts of RubyTranscribe. It then proves what they promise.

**The batch site generator (`generator.rb`).**
- `generate_site` stops when the `content` directory is missing or holds no `*.md` file.
- Otherwise it processes every markdown file in glob order.
- For each file it:
  - takes the title from the first level-1 heading, falling back to `My Static Site`;
  - renders the markdown to HTML;
  - loads `templates/default.html`, stopping when that file is missing;
  - replaces every `{{title}}` and then every `{{content}}`;
  - writes the page to `output/<stem>.html`, where the stem is the base name without `.md`.

The model has these modules:
- `Title`: `extract_title`. It gives the regular expression's meaning (leftmost match, then the greedy `\s+`) and an executable search proved to return exactly that match's capture.
- `Substitution`: `String#gsub` with a literal pattern. Its reference definition is split-and-join.
- `Paths`: the directory constants, `File.join`, `File.basename` with a suffix, the output file name and path, and the names `*.md` matches.
- `StringOrder`: the sorted order of `Dir.glob`.
- `Generator`: a class `Site` that holds the filesystem. `files` maps each regular file's path to its text, and `dirs` is the set of directories. The class's methods are `load_template`, `Dir.glob`, `process_markdown_file` and `generate_site`.
  - Each method is proved against the specification functions `Fill`, `Page` and `Outputs`.
  - `exit 1` becomes an `Err` outcome that ends the run.
  - `markdown_to_html` (Kramdown) is the parameter `render`, about which nothing is assumed.
- `GeneratorFacts`: lemmas about those functions. They cover substitution order, one page per source, the isolation of inputs from outputs, and the idempotence of a run.

**The transcription status rule (`app/models/transcription.rb`).**
- A record's status is either absent or exactly one of `pending`, `processing`, `completed` and `failed`.
- The controller's `create` sets the status to `pending`.
- Module: `Transcriptions`.

Four behaviours of the code are easy to miss:
- **The title is not trimmed.** Capture group 1 is returned as it is, so `# Hi  ` gives `Hi  `.
- **`\s+` can cross line breaks.** A bare `#` line followed by text takes that text as the title (`#\nText` gives `Text`).
- **Backtracking can leave a blank title.** `#` followed by two blanks at the end of the text gives a one-blank title.
- **`index` is not really a special case.** The branch for `index` yields the same name as the general case, so every stem `s` goes to `s.html`.

## Model

| member | source | states |
|---|---|---|
| Title.LineEnd | generator.rb:25 | `$` of the expression: the first line break at or after a position, or the end of the text |
| Title.MatchAt | generator.rb:25 | at a line start with `#` and a run of `\s`, the capture start is a match, no later capture start matches there, and no match at all is reported as none |
| Title.Search | generator.rb:25 | the first position from which a match starts, with no match starting before it; none only when no position matches |
| Title.ExtractTitle | generator.rb:24-27 | without a level-1 heading the title is `My Static Site`; otherwise it is the rest of the line of the leftmost, greediest match; never empty and never holds a line break |
| TitleFacts.LeftmostUnique | generator.rb:25 | the reported match is unique |
| TitleFacts.HeadingLineTitle | generator.rb:24-27 | a text whose first line starting with `#` is `# <title>` (title non-blank at its start) yields that title exactly |
| TitleFacts.LineEndIsFirstBreak | generator.rb:25 | the line end is characterised by the first line break |
| TitleFacts.HelloWorldTitle | generator.rb:24-27 | `# Hello World` as the first line gives `Hello World` |
| TitleFacts.SingleLineWithoutHeading | generator.rb:25-26 | a one-line text whose `#` is not followed by a blank gets the default title |
| TitleFacts.NoBlankAfterHash | generator.rb:25-26 | `#Title` has no match and falls back to the default title |
| TitleFacts.LevelTwoIgnored | generator.rb:25-26 | `## Title` has no match and falls back to the default title |
| TitleFacts.BareHashTakesNextLine | generator.rb:25-26 | `\s+` crosses the line break after a bare `#` |
| TitleFacts.TrailingBlanksKept | generator.rb:25-26 | trailing blanks stay in the title |
| TitleFacts.BlankTitleAtEnd | generator.rb:25-26 | `#` and two blanks at the end of the text give a one-blank title |
| Substitution.SplitJoin | generator.rb:38-40 | cutting at the pattern's occurrences and joining with the pattern gives the text back |
| Substitution.SplitPiecesFree | generator.rb:38-40 | the pieces between occurrences hold no occurrence |
| Substitution.ReplaceAllIsJoinOfSplit | generator.rb:38-40 | the replace-all scan equals joining those pieces with the replacement |
| Substitution.ReplaceAllFree | generator.rb:38-40 | a text without the pattern is left as it is |
| Substitution.ReplaceAllLeading | generator.rb:38-40 | an occurrence at the front is replaced and scanning resumes after it |
| Substitution.ReplaceAllCopiesPrefix | generator.rb:38-40 | a prefix where no occurrence starts is copied unchanged |
| Substitution.ReplaceAllSkips | generator.rb:38-40 | a prefix without the pattern's first character is copied unchanged |
| Substitution.ReplaceAllBySelf | generator.rb:38-40 | replacing the pattern by itself is the identity |
| Paths.OutputFilename | generator.rb:43 | the name is the stem followed by `.html`, for `index` as for every other stem |
| PathFacts.StripTrailingSlashesFacts | generator.rb:42 | `File.basename` drops exactly the trailing separators |
| PathFacts.AfterLastSlashFacts | generator.rb:42 | the base name is the part after the last separator and holds none |
| PathFacts.BasenameOfJoin | generator.rb:42 | the base name of `dir/name` is `name` |
| PathFacts.OutputPathOfEntry | generator.rb:42-44 | a glob entry `content/<stem>.md` goes to `output/<stem>.html` |
| PathFacts.SourceWithStem | generator.rb:42-44 | every separator-free, non-hidden stem's source goes to `output/<stem>.html` |
| PathFacts.OutputPathInOutputDir | generator.rb:44 | every output path lies under `output/` |
| PathFacts.OutputPathInjective | generator.rb:42-44 | two glob entries with the same output path are the same entry |
| PathFacts.OutputsAreNotInputs | generator.rb:12 | no source and not the template lies under `output/` |
| StringOrder.LeastExists | generator.rb:62 | every non-empty set of names has a least one in the sort order |
| StringOrder.AscendingUnique | generator.rb:62 | two sorted listings of the same names are equal |
| Generator.Site.constructor | generator.rb:9 | loading the script makes sure that `output` exists and leaves the files as they were |
| Generator.Site.LoadTemplate | generator.rb:11-18 | the template's text when `templates/<name>` exists, and otherwise a stop naming that path |
| Generator.Site.Glob | generator.rb:62 | every `*.md` file in `content` exactly once, in ascending order |
| Generator.Site.ProcessMarkdownFile | generator.rb:29-51 | an unreadable source or a missing template stops with the files unchanged; otherwise only the output path changes, receiving the filled template, and that path is returned |
| Generator.Site.ProcessAll | generator.rb:74-77 | a missing template stops at the first file with nothing written; otherwise the list holds each source's output path in order, and the files gain exactly the pages of `Outputs` |
| Generator.Site.GenerateSite | generator.rb:53-87 | a missing content directory, an empty listing, and a missing template each stop with the files unchanged; otherwise the sorted listing is processed in order, as `ProcessAll` states, and the directories stay the same |
| Generator.OutputsKeepInputs | generator.rb:46 | writing pages changes no file outside `output/` |
| Generator.OutputsStep | generator.rb:75-77 | processing one more source adds its page to what is written |
| Generator.OutputsUnderOutputDir | generator.rb:44-46 | a run writes only under `output/` |
| GeneratorFacts.FillWithoutPlaceholders | generator.rb:38-40 | a template without placeholders is written as it is |
| GeneratorFacts.TitlePassSkipsContent | generator.rb:39 | the `{{title}}` pass leaves `{{content}}` alone |
| GeneratorFacts.SlotPass | generator.rb:38-40 | one replace-all pass puts the replacement in the pattern's slot and copies the text around it |
| GeneratorFacts.TitlePass | generator.rb:38-39 | the title pass puts the title in its slot |
| GeneratorFacts.ContentPass | generator.rb:40 | the content pass puts the HTML in its slot |
| GeneratorFacts.FillSimpleTemplate | generator.rb:38-40 | in a template free of `{` outside its two slots, the title and the HTML land in their slots |
| GeneratorFacts.TitleIsFilledFirst | generator.rb:38-40 | a title reading `{{content}}` is itself replaced by the HTML, because the title pass runs first |
| GeneratorFacts.ContentIsNotRescanned | generator.rb:38-40 | a `{{title}}` inside the HTML stays, because the content pass runs last |
| GeneratorFacts.OutputsDomain | generator.rb:74-77 | the written paths are exactly the sources' output paths |
| GeneratorFacts.OutputsPage | generator.rb:42-46 | the page at a source's output path is that source's page, since no two sources share an output |
| GeneratorFacts.OutputsDependOnSources | generator.rb:29-46 | what a run writes depends only on the sources' texts |
| GeneratorFacts.RunIsIdempotent | generator.rb:53-87 | after a successful run, a second run finds the same listing and template and writes exactly what is already there |
| Transcriptions.WithStatus | app/models/transcription.rb:5-6 | after a status change the record is valid exactly when the new status is, and the other columns are kept |
| Transcriptions.Create | app/controllers/transcriptions_controller.rb:22-24 | a created record keeps the submitted title, has no text (only `title` and `audio_file` are permitted), has status `pending`, and passes validation |
| Transcriptions.StatusValidExactly | app/models/transcription.rb:6 | the accepted statuses are exactly the absent one and the four words |
| Transcriptions.NearMissesRejected | app/models/transcription.rb:6 | blank, capitalised, padded and unknown words fail |
| Transcriptions.ValidityIgnoresPreviousStatus | app/models/transcription.rb:5-6 | whether a change is accepted does not depend on the previous status, so `completed` may return to `pending` |

## Left out

- Generator.Fill: the replacement text is inserted literally. Ruby's `gsub` with a String replacement also interprets backslash sequences (`\0`, `\&`, `\\`, `\1`, ...), so a title or HTML containing backslashes is not modelled exactly.
- `markdown_to_html` (generator.rb:20-22): Kramdown is outside this model. It is the parameter `render`, a function of the markdown text.
- All `puts` output is left out: progress lines, the file list, error messages and the closing `index.html` notice (generator.rb:79-86). It changes no file.
- The filesystem is a map from path to text plus a set of directories. `File.read` fails only when the path is not in the map; the `Errno::ENOENT` Ruby raises becomes `Unreadable`. Read failures for other reasons (permissions, encodings) are not modelled. `File.write` always succeeds.
- `Dir.glob` is modelled as Ruby 3.0 and later sort it: in code-point order, listing regular files only. Directories named `*.md`, symbolic links and platform case folding are not modelled.
- `File.join` is modelled only for a separator-free directory and name, which is how generator.rb calls it. The collapsing of repeated separators is left out.
- `load_template` is called only with its default name. `Site.LoadTemplate` takes any name but the runs use `default.html`.
- The `__FILE__ == $PROGRAM_NAME` entry point (generator.rb:89-91) is just a call of `generate_site`.
- app.rb (the Sinatra front end), the controller's other actions, Active Storage's `has_one_attached` and the migration are not part of this model. They are framework declarations and web I/O.

