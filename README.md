# Diff-restricted lint report — Dafny model

The linter runs golangci-lint over a Go code base and then prints only the
issues that fall on lines changed by a diff. To decide which lines changed,
it does three things:

1. It runs the diff command with `--name-only` and takes the changed paths.
2. It runs the diff command once per path and extracts the unified-diff hunk
   headers `@@ -a,b +c,d @@`.
3. It reads each header's new-file part `+c,d` as the closed range
   `[c, c+d]`.

The paths and their ranges form the *change set*. The change set is indexed
by path, and an issue is printed when its line lies in one of its file's
ranges.

This project models that core and proves what it computes.

| file | module | models |
|---|---|---|
| `results.dfy` | `Results` | The error and result types. `Collect` pins down the "concatenate per-item results, return the first error" pattern of the loops that can fail: the one in `findChangesByHunkHeader` and the two in `findChanges`. |
| `text.dfy` | `Text` | ASCII digits and decimal values; `strings.Split(s, "\n")` (with its inverse, `Join`); `strings.HasPrefix(line, "commit ")`. |
| `scan.dfy` | `Scan` | The two fixed regular expressions, `[+](\d+),(\d+)` and `@@[ \-+\d,]+@@`, each given by where its match ends at each position. `FindAll` is Go's `FindAll…(s, -1)`: leftmost, non-overlapping matches. It is characterised as the unique such list. |
| `hunks.dfy` | `Hunks` | `strconv.ParseInt(…, 10, 64)` on digit strings, 64-bit wrap-around addition, `findChangesByHunkHeader`, and the header extraction of `findHunkHeadersOfFile`. |
| `changeset.dfy` | `ChangeSet` | The line handling of `listChangedFiles`, `findChanges`, and `getChangesByFileName`. |
| `issuefilter.dfy` | `IssueFilter` | The filter loop at the end of `main`, and `main` from reading the issues onwards. |

Each operation that is a loop in the source is a method with loop
invariants. Its `ensures` ties the result to a function: `HeaderChanges`,
`ChangedFiles`, `FileRanges`, `ChangeSetOf`, `IndexOf`, `Selected` or
`Outcome`. The lemmas then prove what those functions mean.

The external commands are not run. Their outputs are inputs to the model:
- `listing: Result<string>` is what `<cmd> --no-commit-id --name-only` printed, or its failure.
- `diffOf: string -> Result<string>` is what `<cmd> -- <file>` printed for each file, or its failure.
- `issues: Result<seq<Issue>>` is the linter's decoded JSON report, or the error of reading it.

The source and its description disagree in three places. The model follows
the source each time:
- **Overlapping ranges.** The description says an issue is kept when at least
  one range covers its line. `main.go:58-62` instead prints the issue once for
  every range that covers it, so overlapping ranges print it more than once.
  `IssueFilter.OverlappingRangesPrintTwice` shows a concrete case, and
  `IssueFilter.SelectedWithoutOverlap` proves the two agree when no line of
  an issue lies in two ranges of its file.
- **Overflow.** The description treats a range's end as start plus length.
  `main.go:167` adds two `int64` values, which wraps around, so the end is
  below the start when the sum overflows. `Hunks.HeaderChangesSpec` proves
  the end is at least the start exactly when there is no overflow.
- **The empty path.** The description says a trailing empty path finds no
  hunks and is dropped. `main.go:184-188` keeps it, and `main.go:196` then
  runs `<cmd> -- ` with an empty argument, which diffs the whole tree.
  The model passes it to `diffOf("")` like any other path
  (`ChangeSet.TrailingNewlineGivesEmptyPath`). The entry is dropped only if
  that diff has no ranges.

## Model

| member | source | states |
|---|---|---|
| Text.Split | main.go:182 | `strings.Split(s, "\n")` always yields at least one piece; the empty text yields `[""]`. `JoinSplit`, `SplitNoNewline` and `SplitJoin` prove that the pieces are exactly the newline-free runs between newlines. |
| Text.CommitLinePrefix | main.go:185 | `strings.HasPrefix(line, "commit ")`, written `IsCommitLine`, holds exactly when the line is `commit ` followed by anything. |
| Text.JoinSplit | main.go:182 | Joining the pieces of `strings.Split(s, "\n")` with newlines gives `s` back: no text is lost or reordered. |
| Text.SplitNoNewline | main.go:182 | No piece of the split contains a newline. |
| Text.SplitJoin | main.go:182 | Splitting newline-free pieces that were joined recovers exactly those pieces. |
| Text.SplitTrailingNewline | main.go:182 | A trailing newline adds exactly one empty last piece. |
| Scan.Run | main.go:152 | A greedy `\d+` or `[ \-+\d,]+` run stays inside the text, consists of class characters and stops at the end of the text or at a character outside the class. |
| Scan.RunUnique | main.go:152 | A run with those three properties is the greedy run: there is only one. |
| Scan.PlusPairEnd | main.go:152 | A `[+](\d+),(\d+)` match found at a position ends inside the text, and the text there has the shape `+`, digits, comma (at the end of the first digit run), digits, no further digit. `PlusPairMatch` proves the converse. |
| Scan.HunkMarkerEnd | main.go:203 | A `@@[ \-+\d,]+@@` match found at a position ends inside the text, and the text there is `@@`, a non-empty run of `[ \-+\d,]`, and `@@`. `HunkMarkerMatch` proves the converse. |
| Scan.PlusPairMatch | main.go:152 | At a position, `[+](\d+),(\d+)` matches up to `e` exactly when the text there is `+`, digits, a comma (the end of the first digit run), digits, and no further digit. |
| Scan.HunkMarkerMatch | main.go:203 | At a position, `@@[ \-+\d,]+@@` matches up to `e` exactly when the text there is `@@`, a non-empty run of `[ \-+\d,]`, and `@@`. |
| Scan.Scan | main.go:153 | Every span found from a position is a real match starting at or after it. |
| Scan.ScanOrdered | main.go:153 | The matches found are in text order and do not overlap. |
| Scan.ScanSkip | main.go:153 | Positions where no match starts are skipped without changing the result. |
| Scan.ScanIsLeftmost | main.go:153 | The scan is leftmost: every position that starts a match is consumed by one of the matches found. |
| Scan.LeftmostScanUnique | main.go:153 | Any list of in-order, non-overlapping real matches that covers every match start is the scan's list. |
| Scan.FindAll | main.go:153 | Every span `FindAll…(s, -1)` returns starts inside the text and is a match of the pattern; `FindAllLeftmost` proves it is the leftmost, non-overlapping list (main.go:204 uses it too). |
| Scan.FindAllLeftmost | main.go:151-153 | `FindAll` is leftmost, in order and non-overlapping, and it is the only list with those properties. |
| Hunks.ParseInt64 | main.go:157-165 | A digit group parses to its decimal value exactly when that value is at most 2^63-1; otherwise it fails with a range error naming the digits. |
| Hunks.WrapAdd64 | main.go:167 | `start + amount` on `int64` gives a value in the signed 64-bit range that is congruent to the true sum modulo 2^64. |
| Hunks.WrapAddOverflow | main.go:167 | For two non-negative 64-bit values, the wrapped sum is at least the start exactly when the true sum does not overflow, and then it equals the true sum. |
| Hunks.Capture | main.go:151-153 | The two groups of a `[+](\d+),(\d+)` match are its digit strings: the matched text is `"+" + start + "," + amount`. |
| Hunks.PlusMatches | main.go:151-153 | `FindAllStringSubmatch` yields one submatch per leftmost match, in order, and each spells out its match's text. |
| Hunks.FindChangesByHunkHeader | main.go:150-171 | The loop returns the ranges of every match in order, or the first parse error, as `HeaderChanges` defines. |
| Hunks.RangesOfMatches | main.go:155-170 | The ranges of the matches are Ok exactly when every number fits in 64 bits; then there is one range `[start, start+amount]` per match, in order. |
| Hunks.HeaderChangesSpec | main.go:150-171 | A header's ranges are Ok exactly when all its captured numbers fit in 64 bits. Then there is one range per match, in order, running from start to the wrapped sum. A range ends before it starts exactly when start+amount overflows. |
| Hunks.NoPlusNoChanges | main.go:151-170 | A header without `+` gives no range and no error. |
| Hunks.NoMatchNoChanges | main.go:151-170 | A header where no match starts gives no range and no error. |
| Hunks.SinglePlusPair | main.go:151-153 | When a header's only `+` is followed by `c,d` and a non-digit, the header has exactly one submatch, with groups `c` and `d`. |
| Hunks.UsualHeader | main.go:150-171 | `@@ -a,b +c,d @@` with `c` and `d` in range gives exactly one range, `[c, c+d]` (wrapped). |
| Hunks.SingleLineHunk | main.go:167 | `@@ -1,1 +1,1 @@` gives the single range `[1, 2]`: the end is start plus count. |
| Hunks.OneLineHeader | main.go:152 | The short form `@@ -a +c @@` (count omitted) gives no range, because the pattern needs a comma. |
| Hunks.PlusWithoutComma | main.go:152 | In a text whose only `+` is followed by digits and then no comma, no match starts anywhere. |
| Hunks.HunkHeadersSpec | main.go:202-204 | Every extracted header starts and ends with `@@` around a non-empty interior of `[ \-+\d,]`. The headers come from non-overlapping, increasing spans of the diff, and they are the leftmost matches: every position where a marker starts lies inside one of them. |
| ChangeSet.ListChangedFiles | main.go:182-190 | The loop returns exactly `ChangedFiles(output)`: the split lines up to the first `commit ` line. |
| ChangeSet.ChangedFilesSpec | main.go:182-190 | The paths are a prefix of the output's lines, verbatim and in order. None starts with `commit `, and when the prefix is shorter than the output, the next line does start with `commit `. |
| ChangeSet.TrailingNewlineGivesEmptyPath | main.go:182-189 | Output that ends in a newline and has no `commit ` line yields all its lines plus one empty path. |
| ChangeSet.FindFileRanges | main.go:222-235 | The inner loop returns the ranges of every hunk header of a file, in header order, or the first parse error. |
| ChangeSet.FindChanges | main.go:209-247 | The loop returns `ChangeSetOf(listing, diffOf)`. It stops at the first failure and skips files without ranges. |
| ChangeSet.ChangeSetErrors | main.go:209-227 | The change set fails exactly when the listing fails, or when some file's diff or parse fails. The error is the first one in file order, and no partial change set is returned. |
| ChangeSet.ChangeSetShape | main.go:215-246 | A successful change set is the files with non-empty ranges, in file order, each entry holding exactly that file's ranges; every other file has no range. |
| ChangeSet.GetChangesByFileName | main.go:249-255 | The loop returns `IndexOf(changes)`, the map built entry by entry. |
| ChangeSet.IndexOfKeys | main.go:249-255 | The map's keys are exactly the paths of the change set. |
| ChangeSet.IndexOfLastWins | main.go:251-253 | The entry of a path is the last entry of the change set with that path. |
| ChangeSet.IndexOfValues | main.go:249-255 | Every value in the map is an entry of the change set, stored under its own path. |
| IssueFilter.SelectIssues | main.go:52-63 | The loop emits exactly `Selected(issues, index)`, in emission order. |
| IssueFilter.MatchCountPositive | main.go:58-62 | An issue's line is counted exactly when some range of its file contains it, and at most once per range. |
| IssueFilter.SelectedCount | main.go:52-63 | Each issue is emitted (times reported) × (ranges of its file containing its line) times; nothing else is emitted. |
| IssueFilter.SelectedMember | main.go:52-63 | An issue is emitted exactly when it was reported, its file has an entry, and a range of that entry contains its line. |
| IssueFilter.SelectedAppend | main.go:52-63 | The filter works issue by issue, so it keeps the issues' order. |
| IssueFilter.SelectedWithoutOverlap | main.go:52-63 | When no issue's line lies in two ranges of its file, the output is the issues that lie in some range, each once, in order. |
| IssueFilter.SelectedIdempotent | main.go:52-63 | Under the same condition, filtering the output again leaves it unchanged. |
| IssueFilter.OverlappingRangesPrintTwice | main.go:58-62 | `a.go:3` with ranges `[1,5]` and `[3,4]` is emitted twice. |
| IssueFilter.ScenarioFilter | main.go:52-63 | Issues `a.go:12`, `a.go:99` and `b.go:5` against the single range `[10, 15]` of `a.go` yield exactly `a.go:12`. |
| IssueFilter.SingleLineHunkFilter | main.go:58-62 | With the range `[1,2]`, lines 1 and 2 are emitted and line 3 is not. |
| IssueFilter.Run | main.go:41-63 | `main` fails with the issues' error first, then with the change set's error. Otherwise it emits `Selected` of the issues over the indexed change set. |
| IssueFilter.FilterSound | main.go:49-63 | Every emitted issue was reported and lies in a range of a change-set entry for its file. |
| IssueFilter.FilterComplete | main.go:49-63 | Every reported issue that lies in a range of the last change-set entry for its file is emitted. The index keeps that last entry, so repeated paths are covered. |

## Left out

- Running the commands is not modelled: the `sh -c` invocations, `cd`, the golangci-lint run (`Execute`) and reading the JSON report. Their outputs are inputs (`listing`, `diffOf`, `issues`). Whether a command fails is part of those inputs.
- `log.Panicln` becomes an `Err` result of `Run`. The panic itself and the process exit are outside the model.
- `printIssue` and the golangci-lint text printer are not modelled. The model returns the emitted issues in order instead of printing them.
- An issue is modelled by its path and line only. The other fields of golangci-lint's `result.Issue` pass through the filter unchanged and play no part in it.
- Command-line parsing (`go-arg`), the `GolangCILint` builder and its setters, and the default paths are configuration with no logic.
- The regular-expression engine is not modelled in general. The two fixed patterns are specified directly, together with Go's leftmost-first, non-overlapping `FindAll` order.
- Hunks.ParseInt64: only inputs made of ASCII digits are modelled, since those are the only strings the `(\d+)` groups can capture. Sign and syntax errors of `strconv.ParseInt` cannot occur.
- All of Go's `int` values are taken to be 64 bits wide, as on the platforms the tool targets. A 32-bit `int(...)` conversion is not modelled.
- Hunks.HeaderChangesSpec: a range's end is at least its start only when start+amount does not overflow 64 bits. The wrap-around of Go's `int64` addition is modelled as written.
- Empty paths: what `<cmd> -- ` prints for an empty path is part of `diffOf`. The model does not say that it diffs the whole tree.
