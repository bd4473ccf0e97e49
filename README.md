# ALPS Section 6 front-ends, modelled in Dafny

An ALPS document is a markdown template for planning software. Its sixth
section lists the features to build. Two front-ends read it.

- The Python pipeline (`src/parser.py`) works in three steps:
  - it cuts Section 6 out of the document by splitting on the horizontal-rule delimiter `"\n---\n"`;
  - it splits the section into subsection blocks on `"\n### "`, hands each block to a language model that extracts an `ALPSSubsection`, and keeps the blocks that succeed;
  - it validates the assembled `ALPSSection` into a list of issue strings and a validity flag.
- The Go command (`cmd/alps/main.go`) works in four steps:
  - it finds the first `## Section 6` heading and cuts the text up to the next `## ` heading;
  - it turns every `### N.N title` line into a feature, gathering the lines below it as the feature's raw text;
  - it makes one task per feature;
  - it writes the project as YAML, quoting names and descriptions with `escape`.

The project has four modules:

- `Strings` (`strings.dfy`) holds the text and sequence vocabulary both sides share:
  - Go's `TrimSpace` and Python's `strip`, each with its own white-space set;
  - left-to-right non-overlapping `split` and its inverse `Join`;
  - decimal digits;
  - `FilterMap`, which applies a partial operation in order and keeps its successes;
  - `Survivors`, the indices of the items on which that operation succeeded, in increasing order.
- `AlpsParser` (`parser.dfy`) is the Python pipeline. The language model becomes a function parameter `extract: string -> Option<Subsection>`. `parse_subsections` and `validate_section_6` are methods with loops, proved against the functions `SubsectionBlocks`, `FilterMap` and `Issues`.
- `Breakdown` (`breakdown.dfy`) covers the Go `extractSection6` string logic, `parseFeatures` and `generateTasks`:
  - the three regular expressions are written as hand-made predicates on lines;
  - `parseFeatures` is a loop with an optional current feature, proved against `FeaturesOf`, a definition by heading positions;
  - `generateTasks` fills a pre-sized array.
- `Yaml` (`yaml.dfy`) covers `escape` and `toYAML`:
  - `strings.Builder` is a class whose `WriteLine` appends to its text;
  - the nested writing loops are proved to produce the lines of `YamlLines`;
  - lemmas read ids back from those lines.

Where the code and its documentation differ, the model follows the code. The
`Raw` text of a Go feature is not a plain join of the lines under the heading.
The `current.Raw != ""` test drops empty lines that come before the first
non-empty one (`RawOf`, `DropLeadingEmpty`).

## Model

| member | source | states |
|---|---|---|
| Strings.Split | src/parser.py:154 | `str.split` and `strings.Split` with a non-empty separator: cuts at the leftmost occurrence and continues after it, so occurrences are taken left to right without overlap. There is always at least one part, and no part contains the separator. Used again at src/parser.py:193 and cmd/alps/main.go:175. |
| Strings.Strip | src/parser.py:161 | Python's `str.strip()`: the result is empty exactly when the text is all Python white space. Otherwise it neither starts nor ends with white space. `StripIsSlice` states that it is the stretch after the leading white space. |
| Strings.TrimSpace | cmd/alps/main.go:170 | Go's `strings.TrimSpace`: the result is empty exactly when the text is all Go white space. Otherwise it neither starts nor ends with white space. Also used at cmd/alps/main.go:185 and 208. |
| AlpsParser.Message | src/parser.py:157-164 | Defines the two error texts: "Document contains only N sections, Section 6 not found" with the part count, and "Section 6 content is empty". |
| AlpsParser.MessageNamesError | src/parser.py:157-164 | Different errors give different messages, so a short document's message determines the part count it reports. |
| AlpsParser.ExtractSection6 | src/parser.py:154-167 | Fails with the part count exactly when splitting on `"\n---\n"` gives fewer than six parts. Fails as empty exactly when the sixth part is blank. Otherwise returns the sixth part stripped, which is non-empty with no white space at either end. |
| AlpsParser.ExtractSection6Verbatim | src/parser.py:154-161 | The extracted section is a stretch of the document: it starts after the fifth delimiter and the sixth part's leading white space. |
| AlpsParser.SubsectionBlocksShape | src/parser.py:193-199 | The blocks are the stripped non-blank pieces after the first `"\n### "`, in source order. Each block is non-empty, already stripped and free of the delimiter. Every piece that was dropped is blank. |
| AlpsParser.SubsectionBlocks | src/parser.py:193-199 | Defined as the pieces after the first `"\n### "`, each stripped, with the empty ones dropped, in order. |
| AlpsParser.PreambleDiscarded | src/parser.py:193 | Any text before the first subsection delimiter can be removed without changing the blocks. |
| AlpsParser.ParseSubsections | src/parser.py:191-232 | The loop returns the extractor's results on the non-blank blocks, in block order, skipping the blocks whose extraction failed. |
| Strings.FilterMapAtSurvivors | src/parser.py:196-229 | Result j is the extractor's value on the j-th block that succeeded, and there are as many results as successful blocks. |
| Strings.FilterMapDropsFailure | src/parser.py:225-229 | A failing block contributes nothing, and the blocks before and after it are processed as if it were absent. |
| Strings.OneFailureLeavesTheRest | src/parser.py:196-232 | If exactly one of N extractions fails, the result holds the other N-1 values in their original order. |
| AlpsParser.CheckSectionLevel | src/parser.py:314-319 | Adds "Section 6 content is empty" when the content is blank, then "No subsections found in Section 6" when there are no subsections. |
| AlpsParser.CheckSubsection | src/parser.py:323-330 | Appends, in this order, the missing-number, missing-title and empty-content issues of one subsection to the list so far. |
| AlpsParser.CheckDuplicateNumbers | src/parser.py:333-335 | Appends "Duplicate subsection numbers found" exactly when some subsection number repeats. |
| AlpsParser.ValidateSection6 | src/parser.py:310-344 | Returns all the issues in the order the checks run, visiting every subsection. The flag is true exactly when the issue list is empty, and exactly when the section is well formed. |
| AlpsParser.NoIssuesIffWellFormed | src/parser.py:337 | The issue list is empty if and only if the section is well formed. Well formed means: non-blank content, at least one subsection, every subsection with a number, a title and non-blank content, and no repeated number. |
| AlpsParser.IssuesOfEmptyIff | src/parser.py:323-330 | A subsection raises no issue if and only if it has a number, a title and non-blank content. |
| AlpsParser.SectionIssuesOnce | src/parser.py:314-335 | The content-empty, no-subsections and duplicate-numbers issues each appear once when their condition holds and never otherwise. |
| AlpsParser.DistinctIffSetSameSize | src/parser.py:333-334 | The set of numbers is as large as the list exactly when no number repeats. This is the `len(numbers) != len(set(numbers))` test. |
| Breakdown.ExtractSection6 | cmd/alps/main.go:155-171 | Fails only with "section 6 not found", and only when no Section 6 heading is found. Otherwise it returns the trimmed text from that heading up to the section's end. `ExtractSection6NotFound` and `ExtractSection6Cuts` characterise both outcomes. |
| Breakdown.Section6StartIsFirst | cmd/alps/main.go:155-157 | The search returns the first position of the lower-cased text where a line starts with `##`, spaces, then `section 6` or `섹션 6`. It returns nothing exactly when there is no such position. |
| Breakdown.ExtractSection6NotFound | cmd/alps/main.go:155-160 | "section 6 not found" is returned exactly when no line of the lower-cased text is a Section 6 heading. |
| Breakdown.SectionLengthIs | cmd/alps/main.go:164-169 | The section ends at the first line after the heading's first two characters that starts with `## ` (with a space), or at the end of the text. |
| Breakdown.ExtractSection6Cuts | cmd/alps/main.go:161-170 | The result is the trimmed text from the first Section 6 heading up to the next line starting `## ` or the end. A `### ` line does not end it. |
| Breakdown.ExtractSection6StartsWithHeading | cmd/alps/main.go:161-170 | A successful result starts with the heading's `##`. |
| Breakdown.MatchFeatureHeading | cmd/alps/main.go:178 | The heading pattern `^### +([0-9]+\.[0-9]+) +(.+)$` applied to one line, returning the number and title groups. The three lemmas below characterise it. |
| Breakdown.MatchFeatureHeadingAccepts | cmd/alps/main.go:178 | Every line `###`, spaces, digits `.` digits, spaces, and a title not starting with a space, is accepted with that number and title. |
| Breakdown.BlankTitleAccepted | cmd/alps/main.go:178 | A line that ends in two or more spaces right after the number is also a heading. The last space is given back to the title group, which is `" "`. |
| Breakdown.MatchFeatureHeadingShape | cmd/alps/main.go:178 | Every accepted line has that layout. Its title is non-empty with no line break, and begins with a space only when it is the last space of the line. |
| Breakdown.NewFeature | cmd/alps/main.go:184-185 | Defines the feature a heading opens: id "F" plus the number without a leading "6.", the trimmed title as its name, no tasks and empty raw text. |
| Breakdown.FeatureIdOf | cmd/alps/main.go:184-185 | The id of a heading numbered 6.N is "FN"; any other number is kept whole after "F". |
| Breakdown.RawOfSnoc | cmd/alps/main.go:188-193 | Adding a line to a feature's raw text puts a line break before it, unless the text is still empty. |
| Breakdown.FeaturesOfSnocHeading | cmd/alps/main.go:180-186 | A heading line closes the current feature and opens a new one with the heading's id and trimmed name. |
| Breakdown.FeaturesOfSnocOther | cmd/alps/main.go:188-193 | Any other line extends the raw text of the last feature, and is ignored when there is no feature yet. |
| Breakdown.PreambleIgnored | cmd/alps/main.go:179-193 | Lines before the first heading change nothing. |
| Breakdown.FeaturesOf | cmd/alps/main.go:174-199 | One feature per heading line, in order. The j-th feature is opened by the j-th heading, and its raw text comes from the lines up to the next heading or the end. |
| Breakdown.ParseFeatures | cmd/alps/main.go:174-199 | The loop returns one feature per heading line, in order. Each feature's raw text comes from the lines up to the next heading. |
| Breakdown.TaskFor | cmd/alps/main.go:204-215 | Defines the task for position i: id `T{i+1}.1`, name "Implement " + the feature name, description the trimmed raw text, and the fixed defaults. |
| Breakdown.GenerateTasks | cmd/alps/main.go:201-218 | Returns exactly one task per feature. Task i has id `T{i+1}.1`, name "Implement " + the feature name, the trimmed raw text as description, 0 hours, "Medium", priority 1, "Not Started", and empty criteria and dependencies. |
| Breakdown.TaskIdReadsBack | cmd/alps/main.go:204 | A task id is "T", the decimal digits of the position, then ".1", and its digits read back as that position. |
| Breakdown.TaskIdsDistinct | cmd/alps/main.go:204 | Tasks for different positions have different ids. |
| Breakdown.TaskDescriptionTrimmed | cmd/alps/main.go:208 | A description is empty exactly when the raw text is all white space. Otherwise it has no white space at either end. |
| Yaml.Escape | cmd/alps/main.go:249-253 | Defines escaping as two replace-all passes: double quotes become `\"`, then line breaks become `\n`. |
| Yaml.EscapeIsPerCharacter | cmd/alps/main.go:249-253 | The two replacement passes are the same as escaping each character on its own. |
| Yaml.EscapeHasNoLineBreak | cmd/alps/main.go:249-253 | The escaped text has no line break. |
| Yaml.EscapeQuotesEscaped | cmd/alps/main.go:249-253 | Every double quote in the escaped text has a backslash just before it. |
| Yaml.EscapeRoundTrip | cmd/alps/main.go:249-253 | For text without backslashes, a YAML reader's decoding of `\n` and `\"` gives back the original. |
| Yaml.EscapeConfusesBackslash | cmd/alps/main.go:249-253 | A backslash followed by `n` and a line break are escaped the same way, so escaping is not reversible in general. |
| Yaml.YamlLines | cmd/alps/main.go:222-244 | Defines the document's lines: the header (with the empty line after `estimated_days`), then for each feature its head lines and each of its tasks' nine lines. |
| Yaml.Builder.constructor | cmd/alps/main.go:221 | A new builder holds no text. |
| Yaml.Builder.WriteLine | cmd/alps/main.go:222-243 | Appends the line and a line break to the text. Nothing else changes. |
| Yaml.WriteHeader | cmd/alps/main.go:222-228 | Writes the project header lines, the empty line and `features:`. |
| Yaml.WriteFeatureHead | cmd/alps/main.go:230-232 | Writes a feature's id, escaped name and `tasks:` lines. |
| Yaml.WriteTask | cmd/alps/main.go:234-243 | Writes a task's nine lines. Only name and description are escaped. |
| Yaml.WriteFeature | cmd/alps/main.go:229-245 | Writes a feature's lines, then those of each of its tasks in order. |
| Yaml.ToYaml | cmd/alps/main.go:220-247 | The returned text is the document's lines, each followed by a line break. |
| Yaml.YamlReadsBack | cmd/alps/main.go:220-247 | When the unescaped fields have no line break, splitting the output at line breaks gives back exactly the written lines. |
| Yaml.YamlFeatureIds | cmd/alps/main.go:229-230 | The `  - id:` lines of the output list the features' ids, one per feature, in order. |
| Yaml.YamlTaskIds | cmd/alps/main.go:229-234 | The `      - id:` lines list every task's id, feature by feature and task by task. |

## Left out

- Reading the document (`read_alps_document`, encodings, `os.ReadFile`) and writing results (`WriteFile`, JSON output). The decoded document is an input string, and the YAML is a returned string.
- The language model client, its prompts and its call (src/parser.py:71-88, 203-226). The model uses a deterministic function parameter `extract`, where `None` stands for a raised exception. A model that answers differently on each call is not captured.
- `async`/`await`: the per-block loop runs one block after another, and is modelled as a plain loop.
- The generic `except Exception` wrappers in `extract_section_6`, `parse_subsections` and `validate_section_6`. Nothing in the modelled string logic raises.
- `parse_document`. Its bare `return` at src/parser.py:266 leaves the rest of the function dead, so it returns nothing and assembles no `ALPSSection`. It is not modelled.
- Logging, `main`, `usage`, the command-line plumbing in `processCmd`, `time.Now`, the `__main__` demo and the unused `DependencyType` enum.
- `%.1f` formatting of `EstimatedDays`. The value is a whole number of tenths (`OneDecimal`), because floating point is not modelled.
- Breakdown.Lower: lowers ASCII letters only. Go's `ToLower` also lowers other scripts and can change byte lengths, yet the source applies offsets found in the lowered text to the original. The model assumes lowering keeps every position.
- General regular-expression engines. The three patterns are written out as predicates on lines (`Section6HeadingAt`, `LevelTwoHeadingAt`, `MatchFeatureHeading`).
- The Go `current *Feature` pointer is an `Option<Feature>` local. No other code shares it.
- Yaml.YamlReadsBack: requires that the id, dates, difficulty and status fields hold no line break. The source writes those fields without escaping, so a line break in them would split a YAML line.
- Yaml.EscapeRoundTrip: holds only for text without backslashes. `escape` leaves backslashes alone, and `EscapeConfusesBackslash` shows the clash.
- Yaml.Builder.WriteLine: the builder appends whole lines, because every `WriteString` in `toYAML` ends with a line break. `String()` is read as the `text` field.
