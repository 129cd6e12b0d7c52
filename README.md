# Translation to-do report, modelled in Dafny

`gen_todo_translation_report.py` writes a Markdown report for one target language
of the Fluent (`.ftl`) translation files of a project. The report has three parts:

- **append needed**: the keys that a source-language file has and the file of the
  same relative path in the target language lacks;
- **delete needed**: the same comparison the other way round;
- **may need edit**: every key whose value some commit of the git history rewrote
  in the source language, with its current source and target values.

This project models the logic behind the three parts and proves what each
step computes. The modules follow the script's own layers:

| module | what it models |
|---|---|
| `Wrappers` | `None`/`Some`, and the Python exceptions the script can raise on its own data (`IndexError`, `KeyError`) as an `Outcome` |
| `Text` | the `str` and `re` operations the script relies on: `strip` (built from its two halves `TrimLeft` and `TrimRight`), `split()`, `splitlines()`, `startswith`/`endswith`, `re.split` with a literal pattern, `sep.join` |
| `Fluent` | `FLUENT_PATTERN` and `findall` over a whole text, a single line, and their agreement; `extract_fluent` as a dictionary with insertion order (method `ExtractFluent`), and its tuple mode |
| `Changes` | `extract_fluent_strings`: the per-key old/new record built from the `-`/`+` lines of a diff (method `ExtractFluentStrings`) |
| `KeyDiff` | `get_file_paths` (method `GetFilePaths`) and `compare_keys` (method `CompareKeys`), the comparison behind "append needed" and "delete needed" |
| `History` | `print_edited_translations` without the printing, as written and corrected: reading both trees (method `LoadTranslations`), cutting every commit's diff into per-file segments, finding each segment's path, the rewritten keys (method `CollectEdits`) and the lookups (method `LookUpEdits`) |

Each loop of the script that updates a dictionary, a set or a list is a method
with a loop and its invariants. The method's `ensures` ties its result to a
specification function (`DictOf(FindAll(text))`, `Accumulate(lines)`,
`Difference(a, b)`, `HistoryEdits(commits, relPath)`, ...). The lemmas then state
what the script promises about those functions.

A language tree (one language's directory) is a map from the path of each of
its files, relative to the language directory, to the file's text. As in the
script, only the files `get_file_paths` lists, those ending in `.ftl`, are
compared or read into dictionaries (`KeyDiff.FluentFiles`); a file of the other
tree counts as existing whatever its name. A commit is its id and
the text `git diff-tree` printed for it. `os.path.relpath` is a parameter of the
history walk.

## Model

| member | source | states |
|---|---|---|
| `Fluent.MatchAt` | gen_todo_translation_report.py:6 | definition: the pattern tried where `^` matches; the key is the maximal `[\w-]` run, each `\s*` takes all whitespace including line breaks, the value runs to the next `'\n'`; the text after the match is shorter than the input |
| `Fluent.MatchSeparator` | gen_todo_translation_report.py:6 | definition: the part `\s*=\s*(?P<value>.*)` after the key |
| `Fluent.Scan` | gen_todo_translation_report.py:18 | definition: `findall` from a line start; after a match or a failed line it resumes after the next `'\n'` |
| `Fluent.FindAll` | gen_todo_translation_report.py:18 | definition: `FLUENT_PATTERN.findall(text)`, the groups of every match in text order |
| `Fluent.ParseLine` | gen_todo_translation_report.py:6 | definition: the pattern matched against a single line without `'\n'` |
| `Fluent.ParseSeparator` | gen_todo_translation_report.py:6 | definition: the part after the key on a single line |
| `Fluent.DictOf` | gen_todo_translation_report.py:17-21 | definition: the dictionary `result[k] = v` builds from the matches, in order |
| `Fluent.ExtractTuple` | gen_todo_translation_report.py:26-28 | definition: `extract_fluent(text, "tuple")`, the items of the dictionary or the sentinel |
| `Fluent.ParseLineMatches` | gen_todo_translation_report.py:6 | the pattern matches a single line exactly when the line is a key (a non-empty run of `[\w-]`), blanks, `=`, blanks and a value, in both directions |
| `Fluent.ParseLineComplete` | gen_todo_translation_report.py:6 | such a line is read back as exactly its key, and its value with the leading blanks removed |
| `Fluent.ParseLineSound` | gen_todo_translation_report.py:6 | every match on a line comes from such a layout of the matched key and value |
| `Fluent.ParseLineKey` | gen_todo_translation_report.py:6 | a match's key is a key and a prefix of the line; a line without `=` never matches |
| `Fluent.UnkeyedLineIgnored` | gen_todo_translation_report.py:6 | a line that does not start with a key character never matches |
| `Fluent.IndentedOrCommentIgnored` | gen_todo_translation_report.py:6 | indented lines and `#` comment lines never match |
| `Fluent.ValueTrimmed` | gen_todo_translation_report.py:6 | a value never starts with whitespace: all the blanks after `=` belong to the separator |
| `Fluent.HelloLine` | gen_todo_translation_report.py:6 | `hello = Hi` is read as key `hello`, value `Hi` |
| `Fluent.MatchRender` | gen_todo_translation_report.py:6 | at a line start, key, blanks, `=`, blanks and a final value are matched as that key and value, even when the blanks hold line breaks |
| `Fluent.MatchKey` | gen_todo_translation_report.py:6 | every match at a line start has a well-formed key |
| `Fluent.ScanKeys` | gen_todo_translation_report.py:18 | every key that `findall` reports is a well-formed key |
| `Fluent.MatchLine` | gen_todo_translation_report.py:6 | on a settled line followed by more text, the match is the line's own match and it ends where the line ends |
| `Fluent.ScanLine` | gen_todo_translation_report.py:18 | a settled line adds its own match (or nothing), and `findall` goes on at the next line |
| `Fluent.ScanLastLine` | gen_todo_translation_report.py:18 | the last line of a text adds exactly its own match |
| `Fluent.ScanLines` | gen_todo_translation_report.py:18 | when every line but the last is settled, `findall` on the joined lines yields the lines' own matches, in line order |
| `Fluent.FindAllByLines` | gen_todo_translation_report.py:18 | on a settled text, `findall` equals the line-by-line reading |
| `Fluent.ValueOnNextLine` | gen_todo_translation_report.py:6 | `title =` followed by the line `    Welcome` gives the value `Welcome`, while the line alone gives the empty value |
| `Fluent.Dict.PutFacts` | gen_todo_translation_report.py:21 | `result[k] = v` maps `k` to `v`, keeps every other key and its value, appends a new key and leaves a known key in its place, and keeps the key order valid |
| `Fluent.DictOfValid` | gen_todo_translation_report.py:17-21 | the dictionary built from the matches has distinct ordered keys, and it is empty exactly when there were no matches |
| `Fluent.ExtractFluent` | gen_todo_translation_report.py:16-25 | the loop over the matches returns the dictionary `DictOf(FindAll(text))` |
| `Fluent.DictKeysOfMatches` | gen_todo_translation_report.py:20-21 | a key is in the dictionary exactly when some match has that key |
| `Fluent.FluentKeysAreKeys` | gen_todo_translation_report.py:18-21 | every key of a file's dictionary is a well-formed key |
| `Fluent.DictKeys` | gen_todo_translation_report.py:20-21 | over line outcomes: a key is in the dictionary exactly when some line defines it |
| `Fluent.DictLastWins` | gen_todo_translation_report.py:20-21 | a key defined on several lines keeps the value of the last of them |
| `Fluent.DictFirstKey` | gen_todo_translation_report.py:20-21 | the first key in insertion order is the key of the first line that matched |
| `Fluent.FluentKeysOfLines` | gen_todo_translation_report.py:18-21 | on a settled text, the file's keys are exactly the keys of its matching lines |
| `Fluent.FluentLastWins` | gen_todo_translation_report.py:18-21 | on a settled text, each key's value is the value on the last line that defines it |
| `Fluent.AsTuple` | gen_todo_translation_report.py:26-28 | tuple mode yields the sentinel `((None, None),)` exactly when the dictionary is empty, and never an empty tuple |
| `Fluent.AsTupleItems` | gen_todo_translation_report.py:28 | a non-empty dictionary becomes its items, in insertion order |
| `Fluent.TupleSentinel` | gen_todo_translation_report.py:18-28 | tuple mode yields the sentinel exactly when `findall` finds nothing |
| `Fluent.TupleSentinelOfLines` | gen_todo_translation_report.py:18-28 | on a settled text, that happens exactly when no line matches |
| `Fluent.TupleFirst` | gen_todo_translation_report.py:18-28 | element 0 of the tuple is the first matching line's key, with the value that the last line defining that key gave it |
| `Fluent.TupleOfLine` | gen_todo_translation_report.py:26-28 | on one line, element 0 of the tuple is that line's match, or `(None, None)` |
| `Changes.LineEntry` | gen_todo_translation_report.py:38-39 | definition: element 0 of `extract_fluent(line[1:].strip(), "tuple")`, present when its key is not `None` |
| `Changes.Reading` | gen_todo_translation_report.py:37-39 | definition: the entry of a line starting with `-` or `+`, nothing for any other line |
| `Changes.Apply` | gen_todo_translation_report.py:39-53 | definition: one iteration of the scan: create an all-`None` record for a new key, then set the value and stripped line of the side the marker names |
| `Changes.Accumulate` | gen_todo_translation_report.py:33-54 | definition: the records after the scan has applied every line in order |
| `Changes.ReadLine` | gen_todo_translation_report.py:37-39 | the step that reads one diff line returns the entry of a marked line whose key is not `None`, and nothing otherwise |
| `Changes.ExtractFluentStrings` | gen_todo_translation_report.py:33-54 | the loop over `splitlines()` returns the records `Accumulate(SplitLines(diffText))` |
| `Changes.ApplyInTwoSteps` | gen_todo_translation_report.py:40-53 | one step first creates an all-`None` record for an unseen key, then sets the value and the stripped line of the side the marker names |
| `Changes.UnreadLineIgnored` | gen_todo_translation_report.py:37-39 | a line without a `-`/`+` marker, or one whose pair has no key, changes nothing |
| `Changes.ReplayKeys` | gen_todo_translation_report.py:39-47 | a key has a record exactly when some reading names it |
| `Changes.AccumulateKeys` | gen_todo_translation_report.py:36-47 | after the scan, a key has a record exactly when some marked line's pair names it |
| `Changes.ApplySide` | gen_todo_translation_report.py:48-53 | one line sets the side its marker names and leaves the other side of every record as it was |
| `Changes.ReplayLastWrite` | gen_todo_translation_report.py:48-53 | each side of a record holds the value and stripped line of the last reading that wrote it |
| `Changes.ReplayNoWrite` | gen_todo_translation_report.py:42-47 | a side that no reading wrote stays `None` in both fields |
| `Changes.MarkerWrites` | gen_todo_translation_report.py:48-51 | on a marked line, a side's marker is there exactly when the line writes that side |
| `Changes.TouchesWrites` | gen_todo_translation_report.py:37-51 | a line touches a key's side exactly when its reading names the key and its marker names the side |
| `Changes.LastTouchWins` | gen_todo_translation_report.py:36-53 | after the scan, each side of a key's record holds the value and stripped line of the last line with that side's marker naming the key |
| `Changes.NeverTouched` | gen_todo_translation_report.py:42-47 | a side that no line touched stays `None` in both fields |
| `Changes.LineEntryParses` | gen_todo_translation_report.py:38 | the pair of a diff line is the pattern's match on the line without its marker, stripped |
| `Changes.NoMatchNoEntry` | gen_todo_translation_report.py:38-39 | a marked line whose stripped remainder does not match has no entry |
| `Changes.AddedHeaderIgnored` | gen_todo_translation_report.py:37-39 | `+++ b/...` file headers never create or change a record |
| `Changes.PlusTextIgnored` | gen_todo_translation_report.py:38 | text starting with `+` never matches after stripping |
| `Changes.RemovedHeaderIgnored` | gen_todo_translation_report.py:37-39 | `--- a/...` and `--- /dev/null` file headers never create or change a record |
| `Changes.DashesTextIgnored` | gen_todo_translation_report.py:38 | text of the form `-- x...` never matches after stripping |
| `Changes.DashesIgnored` | gen_todo_translation_report.py:6 | a line `-- x...` whose `x` is neither blank nor `=` never matches |
| `Changes.DiffLineText` | gen_todo_translation_report.py:38 | the diff line `<marker>key = value` holds no line break, drops its marker to the `key = value` layout, and is its own strip |
| `Changes.RenderReads` | gen_todo_translation_report.py:38 | `key = value` with a trimmed value reads as that key and value |
| `Changes.DiffLineReads` | gen_todo_translation_report.py:37-38 | `-key = value` and `+key = value` are marked, name their side, read as that key and value, and are their own strip |
| `Changes.EditPair` | gen_todo_translation_report.py:40-53 | a removed line then an added line for the same key fill both sides of its record |
| `Changes.OneLineEdit` | gen_todo_translation_report.py:33-54 | `-key = old` then `+key = new` leaves the record with both values and both lines |
| `KeyDiff.FluentPaths` | gen_todo_translation_report.py:65-69 | definition: the walked paths that end in `.ftl`, in walk order |
| `KeyDiff.FluentFiles` | gen_todo_translation_report.py:97-98 | definition: the relative paths of a tree's files that `get_file_paths` lists, a subset of the tree's paths |
| `KeyDiff.Difference` | gen_todo_translation_report.py:72-88 | definition: for every `.ftl` file of A that B also has, A's keys minus B's keys |
| `KeyDiff.GetFilePaths` | gen_todo_translation_report.py:63-70 | the loop over the walk returns `FluentPaths(walked)` |
| `KeyDiff.FluentPathsMembers` | gen_todo_translation_report.py:67-69 | a path is kept exactly when it was walked and ends in `.ftl` |
| `KeyDiff.FluentPathsOrdered` | gen_todo_translation_report.py:65-69 | the kept paths are a subsequence of the walk, each ends in `.ftl`, and nothing is dropped exactly when every walked path ends in `.ftl` |
| `KeyDiff.FileKeys` | gen_todo_translation_report.py:78 | `set(extract_fluent(content).keys())` is the key set of the file's dictionary |
| `KeyDiff.CompareKeys` | gen_todo_translation_report.py:72-88 | the loop over A's files returns `Difference(a, b)` |
| `KeyDiff.DifferenceGrows` | gen_todo_translation_report.py:76-86 | taking one more file of A into account adds its entry when B has the file, and nothing otherwise |
| `KeyDiff.DifferenceByGrows` | gen_todo_translation_report.py:76-86 | the same step for any way of reading a file's keys |
| `KeyDiff.DifferenceDomain` | gen_todo_translation_report.py:79-86 | the result covers exactly the `.ftl` files of A whose relative path exists in B; A's other files are never looked at |
| `KeyDiff.DifferenceValues` | gen_todo_translation_report.py:86 | for a `.ftl` file both trees have, a key is listed exactly when A's file has it and B's file does not |
| `KeyDiff.SelfDifferenceEmpty` | gen_todo_translation_report.py:72-88 | a tree compared with itself lists each of its `.ftl` files, with no keys |
| `KeyDiff.AppendDeleteDisjoint` | gen_todo_translation_report.py:100-113 | "append needed" and "delete needed" cover the same files, the `.ftl` files both trees have, and never name the same key of a file |
| `KeyDiff.CoveredFileEmpty` | gen_todo_translation_report.py:86 | a `.ftl` file of A whose keys all occur in B's file gets an empty entry |
| `History.Segments` | gen_todo_translation_report.py:160 | definition: `re.split(r"diff --git", diff_output)[1:]` |
| `History.SegmentPath` | gen_todo_translation_report.py:163-164 | definition: `file_lines[0].split()[1][2:]`, `None` for the `IndexError`; a path implies the segment has a first line |
| `History.SegmentBody` | gen_todo_translation_report.py:167 | definition: `"\n".join(file_lines[1:])` |
| `History.Qualifies` | gen_todo_translation_report.py:170-174 | definition: both `old` and `new` are set and differ |
| `History.SegmentEdits` | gen_todo_translation_report.py:163-176 | definition: the edits one segment adds to `may_changed`, or its `IndexError` |
| `History.CommitEdits` | gen_todo_translation_report.py:155-176 | definition: the edits one commit adds; an empty diff adds nothing |
| `History.HistoryEdits` | gen_todo_translation_report.py:140-176 | definition: `may_changed` after every commit, or the first `IndexError` |
| `History.Translations` | gen_todo_translation_report.py:126-138 | definition: the dictionary of every `.ftl` file of a tree, under its relative path |
| `History.ReportOf` | gen_todo_translation_report.py:179-184 | definition: the lookups for one edit; `KeyError` when the source file or key is gone, `.get` on the target side |
| `History.ReportsAsWritten` | gen_todo_translation_report.py:178-185 | definition: the lookups for every edit as written, raising `KeyError` if any edit's source file or key is gone |
| `History.Reports` | gen_todo_translation_report.py:178-185 | definition: the lookups with the edits of deleted keys skipped |
| `History.EditedTranslationsAsWritten` | gen_todo_translation_report.py:118-185 | definition: `print_edited_translations` as written, without the printing: the lookups of `ReportsAsWritten` on the walk's edits, or the walk's exception |
| `History.EditedTranslations` | gen_todo_translation_report.py:118-185 | definition: the corrected `print_edited_translations` (lookups as in `Reports`, see "## Findings"): the walk as written, then the reports of the live edits |
| `History.GatherDone` | gen_todo_translation_report.py:142-176 | a run of steps completes exactly when every step does, and then holds the union of what they added |
| `History.GatherCrashAt` | gen_todo_translation_report.py:162-164 | the first step that raises decides the exception of the whole run |
| `History.GatherFault` | gen_todo_translation_report.py:142-176 | when every step that raises raises the same exception, so does the run |
| `History.SegmentsFacts` | gen_todo_translation_report.py:160 | there are no segments exactly when the diff has no `diff --git`, and no segment holds one |
| `History.PreambleDiscarded` | gen_todo_translation_report.py:160 | whatever precedes the first `diff --git` is dropped; the segments are the pieces after it |
| `History.SegmentCrash` | gen_todo_translation_report.py:163-164 | a segment raises `IndexError` exactly when it has no line or its first line has fewer than two words |
| `History.HeaderPath` | gen_todo_translation_report.py:163-164 | the header `a/<p> b/<q>` names the file `<q>` |
| `History.OtherFilesIgnored` | gen_todo_translation_report.py:166 | a segment for a file not ending in `.ftl` adds nothing |
| `History.BodyExcludesHeader` | gen_todo_translation_report.py:163-167 | the scan of a segment sees its lines after the header line, and only those |
| `History.QualifiedKeys` | gen_todo_translation_report.py:169-176 | the loop over the records returns `QualifiedEdits(changes, path, commit)` |
| `History.QualifiedEditsMembers` | gen_todo_translation_report.py:169-176 | a file adds `(path, key, commit)` exactly for the keys whose record has both values and they differ |
| `History.ScanSegment` | gen_todo_translation_report.py:163-176 | the loop body for one segment returns `SegmentEdits(fileDiff, commit, relPath)`, or its `IndexError` |
| `History.CollectEdits` | gen_todo_translation_report.py:142-176 | the loops over commits and segments return `HistoryEdits(commits, relPath)`: `may_changed`, or the first `IndexError` |
| `History.HistoryMembers` | gen_todo_translation_report.py:142-176 | the walk completes exactly when no commit raises, and then `may_changed` is the union of every commit's edits |
| `History.CommitRaisesIndexError` | gen_todo_translation_report.py:160-176 | a commit can raise only the `IndexError` of a segment header |
| `History.WalkRaisesIndexError` | gen_todo_translation_report.py:142-176 | the walk over the history can raise only `IndexError` |
| `History.EditsCarryCommit` | gen_todo_translation_report.py:176 | every edit of a segment is tagged with that segment's commit |
| `History.EditQualifies` | gen_todo_translation_report.py:169-174 | given the last `-` line and the last `+` line for a key, the key qualifies exactly when their values differ |
| `History.OneSidedNeverQualifies` | gen_todo_translation_report.py:170-173 | a key that was only ever removed, or only ever added, never qualifies |
| `History.RewriteQualifies` | gen_todo_translation_report.py:167-174 | `-key = old` then `+key = new` with `old != new` qualifies |
| `History.FileTranslations` | gen_todo_translation_report.py:129-131 | reading one file returns its key/value dictionary |
| `History.LoadTranslations` | gen_todo_translation_report.py:126-138 | the loop over a tree's files returns `Translations(tree)` |
| `History.TranslationsAt` | gen_todo_translation_report.py:126-138 | a file has a dictionary exactly when it is a `.ftl` file of the tree, and then its own dictionary under its relative path |
| `History.TranslationsGrow` | gen_todo_translation_report.py:126-131 | reading one more file adds its dictionary under its path and changes nothing else |
| `History.LookUpEdits` | gen_todo_translation_report.py:178-185 | the loop over `may_changed` returns `ReportsAsWritten(edits, source, target)` |
| `History.AsWrittenCrash` | gen_todo_translation_report.py:179 | the lookups raise `KeyError` exactly when some edit's file or key is gone from the source |
| `History.DeletedKeyCrashes` | gen_todo_translation_report.py:179 | a key rewritten in the past and deleted since stops the whole report with `KeyError` |
| `History.ReportsAgree` | gen_todo_translation_report.py:178-185 | whenever the lookups as written complete, they give the same reports as the corrected ones |
| `History.EditedTranslationsAgree` | gen_todo_translation_report.py:142-185 | the script as written raises `KeyError` exactly when the walk completes and one of its edits names a file or key gone from the source; when every edit is live, it ends exactly as the corrected report |
| `History.ReportsContents` | gen_todo_translation_report.py:179-184 | a report pairs a live edit with its current source value, and with its target value when the target file and key exist (`None` otherwise) |
| `Text.Strip` | gen_todo_translation_report.py:38 | definition: `str.strip()`; the result is no longer than the input and has no whitespace at either end |
| `Text.Tokens` | gen_todo_translation_report.py:164 | definition: `str.split()` with no argument |
| `Text.SplitLines` | gen_todo_translation_report.py:36 | definition: `str.splitlines()`, with `"\r\n"` as one boundary and no trailing empty line |
| `Text.SplitOn` | gen_todo_translation_report.py:160 | definition: `re.split` with a literal pattern |
| `Text.StripSplits` | gen_todo_translation_report.py:38 | `strip` removes whitespace at both ends and nothing else |
| `Text.StripBlank` | gen_todo_translation_report.py:38 | the strip is empty exactly when the string is all whitespace |
| `Text.StripAround` | gen_todo_translation_report.py:50 | whitespace around a string whose ends are not whitespace is exactly what `strip` removes |
| `Text.TokensAreWords` | gen_todo_translation_report.py:164 | every token of `split()` is a non-empty run of non-whitespace characters |
| `Text.TokensOfJoin` | gen_todo_translation_report.py:164 | joining non-empty whitespace-free words with spaces and splitting again gives the words back |
| `Text.SplitLinesHaveNoBreaks` | gen_todo_translation_report.py:36 | no line of `splitlines()` holds a line boundary |
| `Text.SplitLinesOfJoin` | gen_todo_translation_report.py:167 | joining break-free lines with `"\n"` and splitting them again gives the lines back |
| `Text.SplitOnJoin` | gen_todo_translation_report.py:160 | joining the pieces of `re.split` with the separator gives the text back |
| `Text.SplitOnPieces` | gen_todo_translation_report.py:160 | no piece holds the separator, and there is more than one piece exactly when the text holds it |

A line is *settled* when neither `\s*` of the pattern can run past its end. That
rules out a key followed only by blanks, with or without an `=`. `findall` on a
text whose lines are all settled, except perhaps the last, is the line-by-line
reading. A diff line is always a single line.

## Left out

- Running git, the process and the filesystem are not modelled. `git rev-list --all` and `git diff-tree` become a sequence of `(id, diff text)` commits. `os.walk` becomes the sequence of paths it produced. `open(...).read()`, `os.path.exists` and `os.path.join` become the map of a tree, from relative path to file text. `os.path.relpath` is a parameter of the history walk.
- The universal-newline translation that `open` applies when it reads a file is not modelled: a tree holds each file's text as read.
- `run_command`'s `stdout.strip()` is not modelled: a commit's diff text is taken as already stripped.
- All printing is left out: `log_changes`, `log_diff`, the headings, `commit[:7]` and the repository URL. So is the `any(len(v) != 0 ...)` check that only decides whether a heading is printed.
- `extract_fluent` with a `return_type` other than `"dict"` or `"tuple"` is left out. That branch builds a `ValueError` without raising it, returns `None`, and is never reached.
- The variable `current_key` of `extract_fluent_strings` is written but never read, so it is left out.
- `\w` is modelled as ASCII letters, digits and `_`. For `str` patterns Python also accepts non-ASCII letters and digits.
- The iteration order of `may_changed` and of the result dictionaries is not modelled: the model returns sets and maps. The order of the printed report therefore does not appear.
- `Fluent.FluentKeysOfLines`: stated for settled texts only. On other texts `findall` is still modelled exactly (`Fluent.Scan`), and `Fluent.ValueOnNextLine` shows how the two readings differ.
- `Fluent.FluentLastWins`: stated for settled texts only, for the same reason.
- `Fluent.TupleSentinelOfLines`: stated for settled texts only, for the same reason.
- `Fluent.TupleFirst`: stated for settled texts only, for the same reason.

## Findings

| source | as written | input that shows it | evidently intended | confidence | as-written member | corrected member |
|---|---|---|---|---|---|---|
| gen_todo_translation_report.py:179 | `source_lang_translations[relative_path][key]` raises `KeyError` when the file or the key no longer exists in the source tree | a commit that rewrote key `gone` of `menu.ftl`, with `gone` since deleted from the current `menu.ftl` | skip, or report as missing, the edits whose key no longer exists in the source | not executed | `History.ReportsAsWritten` (`History.DeletedKeyCrashes`, `History.AsWrittenCrash`, used by `History.EditedTranslationsAsWritten`) | `History.Reports` (`History.ReportsAgree`, `History.ReportsContents`, used by `History.EditedTranslations`; `History.EditedTranslationsAgree` relates the two pipelines) |
