# md2puml section extraction, modelled in Dafny

md2puml is a command-line tool that reads a Markdown specification. It cuts out two
level-2 sections, "Data Model & Persistence" and "Primary Flows", and asks a
chat-completion service to turn them into a PlantUML diagram. This project models
the deterministic part of that pipeline and proves properties of it:

- `extractSection`, the line scan that finds one section.
- The driver step that combines the two sections with a blank line.
- The guard that stops with an error before any generation when both sections are
  missing.
- The trimming of the service's reply.

The model is pure, as the source is: datatypes, functions and lemmas.

The three files:

- `builtins.dfy` (module `Builtins`) models the JavaScript built-ins the extractor is
  built from: `split` on one character, `join`, `trim`, `startsWith`, `findIndex` and
  `filter(Boolean)`. It also proves their round trips (`split`/`join` both ways) and
  what `trim` keeps.
- `extractor.dfy` (module `Extractor`) models `extractSection`. The independent
  reference definition `IsSection` says which lines form the section. The lemmas
  show that the extracted text is the join of exactly those lines, and that such a
  section is unique. Further lemmas cover the shape of the result, where it ends,
  that it is a substring of the document, and some concrete documents.
- `driver.dfy` (module `Driver`) models the combine/guard/generate step of the
  top-level async function as a function from the document to an `Outcome` with an
  exit code. The generation service is a parameter `generate`.

Two things are not fixed by the model but passed in as parameters:

- ECMAScript's white-space set, used by `trim`, is the parameter `ws: char -> bool`.
  The concrete examples only require that it leaves visible ASCII characters alone
  and, where needed, that it contains the space.
- The document text is a parameter rather than the contents of a file.

Two details of the section boundaries follow the code exactly:

- Only a line that starts with exactly "## " ends a section. A level-1 heading
  "# Top", a deeper "### Sub" and an indented "  ## X" stay inside it
  (`Extractor.SubheadingsStayInside`).
- The start of a section is matched on the trimmed line, the end on the untrimmed
  line (`Extractor.IndentedHeadingMatches`).

## Model

| member | source | states |
|---|---|---|
| Builtins.Split | scripts/md2puml.js:39 | `markdown.split("\n")`: splitting gives one more piece than there are separators (so "" gives one empty line), and no piece contains the separator |
| Builtins.Join | scripts/md2puml.js:45 | `join`: the pieces with the separator between neighbours, [] giving ""; no contract of its own, it is characterised by `JoinSplit`, `SplitJoin`, `JoinAppend` and `JoinStartsWithFirst` |
| Builtins.JoinSplit | scripts/md2puml.js:39 | joining the pieces of a split with the same separator gives back the original text |
| Builtins.SplitJoin | scripts/md2puml.js:45 | splitting a join of separator-free pieces (at least one) gives back the pieces |
| Builtins.JoinSliceIsInfix | scripts/md2puml.js:45 | the join of a contiguous run of pieces occurs as a substring of the join of all pieces |
| Builtins.StartsWith | scripts/md2puml.js:43 | `startsWith`: the prefix is no longer than the string and equals its first characters; no contract of its own, `PrimaryFlowsBreaks` and `SubheadingBreaks` use it on concrete lines |
| Builtins.Trim | scripts/md2puml.js:40 | `line.trim()`: the result is no longer than the input and neither starts nor ends with white space |
| Builtins.TrimIsInfix | scripts/md2puml.js:40 | what `trim` keeps is an infix of the input, and everything it drops before and after is white space |
| Builtins.TrimUnchanged | scripts/md2puml.js:40 | a string with no white space at either end is its own trim |
| Builtins.FindIndex | scripts/md2puml.js:40 | `findIndex`: -1 exactly when no element satisfies the test; otherwise an index whose element satisfies it, with no earlier element satisfying it |
| Builtins.FilterNonEmpty | scripts/md2puml.js:73 | `filter(Boolean)` on strings: every kept string is non-empty, the kept strings are exactly the non-empty input strings with their multiplicities (as multisets), and nothing is kept exactly when every input string is empty |
| Builtins.FilterAppend | scripts/md2puml.js:73 | filtering keeps order: the filter of a concatenation is the concatenation of the filters |
| Builtins.JoinStartsWithFirst | scripts/md2puml.js:45 | a join begins with its first piece, so joining lines that start with the heading line gives non-empty text |
| Builtins.JoinAppend | scripts/md2puml.js:45 | joining two non-empty lists one after the other puts exactly one separator between their joins |
| Builtins.SplitWithoutSeparator | scripts/md2puml.js:39 | a text without the separator splits into itself alone |
| Builtins.SplitAfterPiece | scripts/md2puml.js:39 | a separator-free piece followed by the separator splits off as the first piece |
| Extractor.IsHeadingLine | scripts/md2puml.js:40 | the first `findIndex` test: the trimmed line equals "## " followed by the title; no contract of its own, see `ExactHeadingLine` and `IndentedHeadingMatches` |
| Extractor.IsSectionBreak | scripts/md2puml.js:43 | the second `findIndex` test: the untrimmed line starts with "## "; no contract of its own, see `SubheadingBreaks` and `IndentedHeadingMatches` |
| Extractor.HeadingIndex | scripts/md2puml.js:40-41 | -1 exactly when no line is the heading once trimmed; otherwise the index of the first heading line |
| Extractor.SectionEnd | scripts/md2puml.js:42-44 | the section end is after its start. No line strictly between them starts with "## ". The end is the line count or a line that starts with "## " |
| Extractor.ExtractSection | scripts/md2puml.js:38-46 | the result is "" exactly when the document has no heading line for the title |
| Extractor.ExtractSectionBounds | scripts/md2puml.js:38-46 | with the heading present, the result is the join of the lines s..e that form the section in the sense of `IsSection`, and splitting it gives those lines back |
| Extractor.SplitJoinSlice | scripts/md2puml.js:39-45 | a run of lines taken from a split document splits back into the same lines |
| Extractor.SectionIsUnique | scripts/md2puml.js:40 | at most one line range is the section for a title, so a later duplicate heading never starts one |
| Extractor.ExtractSectionIsTheSection | scripts/md2puml.js:38-46 | any line range that is the section is exactly what gets extracted (the converse of `ExtractSectionBounds`) |
| Extractor.SectionShape | scripts/md2puml.js:40-45 | the result's first line is the document's first heading line, and none of its later lines starts with "## " |
| Extractor.SectionEndsAtNextBreak | scripts/md2puml.js:42-44 | the result stops just before the first "## " line after the heading, or at the end of the document |
| Extractor.SectionIsSubstring | scripts/md2puml.js:39-45 | the extracted text, empty or not, is a substring of the document |
| Extractor.WholeDocumentSection | scripts/md2puml.js:39-45 | a heading on the first line with no later "## " line makes the section the whole document |
| Extractor.SectionFromFirstLine | scripts/md2puml.js:40-45 | a heading on the first line and the first later "## " line at index e make the section the first e lines |
| Extractor.ExactHeadingLine | scripts/md2puml.js:40 | the line "## " plus the title is that title's heading, unless '#' or the title's last character is white space |
| Extractor.IndentedHeadingMatches | scripts/md2puml.js:40-43 | "  ## Flows " opens the section "Flows", because the start test trims, but it is not a section break, because the end test does not |
| Extractor.PrimaryFlowsDocument | scripts/md2puml.js:39 | the example document splits into its four lines |
| Extractor.PrimaryFlowsBreaks | scripts/md2puml.js:43 | in the example, the text line does not start with "## " and the next heading does |
| Extractor.PrimaryFlowsExample | scripts/md2puml.js:38-46 | a heading, a text line, then another "## " heading: only the first two lines are extracted |
| Extractor.SubheadingDocument | scripts/md2puml.js:39 | the sub-heading example splits into its five lines |
| Extractor.SubheadingBreaks | scripts/md2puml.js:43 | "### Sub", "  ## X" and "# Top" do not start with "## "; "## Next" does |
| Extractor.SubheadingsStayInside | scripts/md2puml.js:38-46 | deeper, indented and level-1 headings do not end a section; only the next "## " line does |
| Driver.CombineSections | scripts/md2puml.js:72-74 | the combination is "" exactly when both sections are ""; both non-empty gives data model, blank line, flows; when one is empty it is the other alone |
| Driver.CombinedSections | scripts/md2puml.js:70-74 | the text handed to the generator is "" exactly when neither heading is in the document |
| Driver.Outcome.ExitCode | scripts/md2puml.js:76-89 | the exit status: 0 after the diagram is written, 1 after any handled failure; no contract of its own, `MissingSectionsSkipsGeneration` states it for missing sections |
| Driver.Run | scripts/md2puml.js:70-83 | the run fails with the missing-sections error exactly when neither heading is in the document. A written diagram is the generator's reply to the combined sections, trimmed. A generation failure carries the generator's error |
| Driver.MissingSectionsSkipsGeneration | scripts/md2puml.js:76-81 | with both headings missing, the outcome does not depend on the generator (it is never consulted), and the exit status is 1 |
| Driver.GeneratorInputIsTheSections | scripts/md2puml.js:70-74 | the generator's input is both sections joined by a blank line, or one section alone; it starts with the data-model section and ends with the flows section; each section is a substring of the document |
| Driver.CombineKeepsOrder | scripts/md2puml.js:72-74 | the combination starts with the data-model text and ends with the flows text |

## Left out

- Command-line parsing (scripts/md2puml.js:22-33): the `-f`/`-o` options and the "diagram.puml" default output path are not modelled.
- Loading `.env` (scripts/md2puml.js:17) is not modelled.
- File I/O: reading the input (scripts/md2puml.js:69) and writing the output (scripts/md2puml.js:84) are not modelled. The document is a parameter, and `Written` stands for the write.
- Console output and `process.exit` (scripts/md2puml.js:77-80, 85-88): the messages are not modelled. `Outcome.ExitCode` gives the status.
- Driver.Run: a failure to read or write a file is not among the outcomes, because file I/O is outside the model.
- generatePUML (scripts/md2puml.js:48-63): the prompt text, the model name, the temperature and the service call are not modelled. `generate` is a parameter that stands for the whole call on the combined sections. Only the `.trim()` of line 64 is modelled. A reply without content, which makes `.trim()` throw, counts as a `ServiceError`.
- The async wrapper and `await` (scripts/md2puml.js:67-90): the run is a single function application.
- ECMAScript's exact white-space set is the parameter `ws`, not a list of characters.
- JavaScript strings are UTF-16 code units, while Dafny characters are Unicode scalar values. The extractor only compares, prefixes and trims, so the two agree on the operations modelled. String lengths are not compared with the source's.
- `split` is modelled only for the one-character separator "\n" that the source uses. A "\r\n" line ending leaves a trailing '\r' on each line, as in the source.
