# Component size report, modelled in Dafny

The component library's CI measures each component's bundle size and posts
the changes on a merge request. This project models the data layer behind
that report, in `packages/components/scripts/component-size-report`:

- `Converter.ts`
  - `bytes2kilobytes`: rounds a byte count up to whole kilobytes.
  - `extractComponentSizes`: builds a report from the bundle analyser's
    stats records.
  - `report2artifact` / `artifact2report`: the line-oriented text artifact
    (`name total js css`) that carries a report from one pipeline run to the
    next.
- `buildCommentText.ts`: the comment marker, the comparison of a branch
  report with the master report (removed, new and changed components), and
  the Markdown table the comment shows, or the fixed message when nothing
  differs.

Modules:

- `Wrappers`: `Option`.
- `Text`: the JavaScript string primitives the code relies on, written out.
  These are `trim`, `split(/\s+/)`, `split("\n")`, `toLowerCase`, printing an
  integer in a template string, and `Number(...)` on a token.
- `Reports`: `ComponentSize` and `ComponentReport`. A report is a sequence of
  entries in key-insertion order. `Lookup` is own-property access. `Put` is
  property assignment or object spread: an existing key keeps its place and
  a new key goes at the end.
- `Converter`: `Converter.ts`.
  - `extractComponentSizes` is an imperative method with a loop. It is proved
    equal to a fold (`ExtractPrefix`), and the properties are proved about
    that fold.
  - The codec is written as recursive functions, like the source's `reduce`
    folds.
- `CommentText`: `buildCommentText.ts`, with its inner `formatSizeChange`
  and `formatComponentRow`.
  - Besides the text itself, the model has a reader for the Markdown table it
    emits (`ParseTable`).
  - The row and table lemmas state what a reader of the comment sees: which
    rows there are, in which order, and what each cell holds.

The extracted `total` follows `Converter.ts:146-151`. It is the byte sum
rounded up (`ceil((js + css) / 1024)`), not the sum of the two rounded
parts. `TotalBounds` and `SizeOf` prove that it lies between the larger part
and the sum of the parts.

## Model

| member | source | states |
|---|---|---|
| Reports.Names | packages/components/scripts/component-size-report/Converter.ts:13 | `Object.keys`: one key per entry, in entry order |
| Reports.Lookup | packages/components/scripts/component-size-report/Converter.ts:13 | own-property access: `undefined` exactly when the key is absent; a found value belongs to an entry under that key |
| Reports.Put | packages/components/scripts/component-size-report/Converter.ts:98-101 | assigning a key: the key list is unchanged if the key was present, otherwise the key is appended; the key reads the new value; keys stay unique |
| Reports.PutOther | packages/components/scripts/component-size-report/Converter.ts:98-110 | assigning one key leaves every other key reading what it read before |
| Reports.PutNew | packages/components/scripts/component-size-report/Converter.ts:148-152 | assigning a key the report lacks appends exactly one entry at the end |
| Reports.LookupEntry | packages/components/scripts/component-size-report/Converter.ts:13 | in a report without repeated keys, each entry is what its key reads |
| Reports.ReportExtensionality | packages/components/scripts/component-size-report/Converter.ts:13 | two duplicate-free reports with the same keys in the same order that read alike under every key are equal |
| Text.TrimEmptyIffAllSpace | packages/components/scripts/component-size-report/Converter.ts:67 | `trim()` gives `""` exactly when the text is all whitespace |
| Text.TokensAreWords | packages/components/scripts/component-size-report/Converter.ts:75 | `trim().split(/\s+/)` gives the whitespace-separated words of the line, and at least one for a non-blank line |
| Text.TokensOfUnwords | packages/components/scripts/component-size-report/Converter.ts:75 | splitting words joined by single spaces gives the words back |
| Text.Split | packages/components/scripts/component-size-report/Converter.ts:71 | `split("\n")` yields at least one part, and no part contains the separator |
| Text.SplitJoin | packages/components/scripts/component-size-report/Converter.ts:71 | splitting parts joined by the separator gives the parts back |
| Text.JoinSplit | packages/components/scripts/component-size-report/Converter.ts:71 | joining the parts of a split gives the text back |
| Text.Lower | packages/components/scripts/component-size-report/Converter.ts:136 | `toLowerCase` maps each character on its own and keeps the length |
| Text.LowerIdempotent | packages/components/scripts/component-size-report/Converter.ts:136-141 | lower-casing twice is lower-casing once |
| Text.ShowInt | packages/components/scripts/component-size-report/Converter.ts:54 | a printed integer is non-empty, holds no whitespace, and has only digits and `-` |
| Text.ParseShow | packages/components/scripts/component-size-report/Converter.ts:84 | `Number` reads back every integer printed by a template string |
| Converter.Bytes2Kilobytes | packages/components/scripts/component-size-report/Converter.ts:40-42 | the result `kb` is the ceiling: `bytes <= kb * 1024`, and `(kb - 1) * 1024 < bytes` when `kb > 0` |
| Converter.KilobytesAtMost | packages/components/scripts/component-size-report/Converter.ts:40-42 | `kb <= k` exactly when `bytes <= k * 1024` |
| Converter.KilobyteSteps | packages/components/scripts/component-size-report/Converter.ts:40-42 | 0 bytes is 0 KB, 1 to 1024 bytes is 1 KB, 1025 bytes is 2 KB |
| Converter.TotalBounds | packages/components/scripts/component-size-report/Converter.ts:146-151 | the rounded-up sum is at least each rounded part and at most their sum |
| Converter.ArtifactLines | packages/components/scripts/component-size-report/Converter.ts:51-54 | one `name total js css` line per entry, in report order |
| Converter.Report2ArtifactJoin | packages/components/scripts/component-size-report/Converter.ts:50-58 | an empty report gives `""`; otherwise the artifact is the entry lines joined by `\n`, with no newline at the end |
| Converter.Report2ArtifactLines | packages/components/scripts/component-size-report/Converter.ts:50-58 | splitting the artifact on `\n` gives exactly the entry lines |
| Converter.ArtifactLineNoNewline | packages/components/scripts/component-size-report/Converter.ts:54 | an entry line holds no newline when the name holds none |
| Converter.DecodeBlankIff | packages/components/scripts/component-size-report/Converter.ts:72-73 | a line is skipped as blank exactly when it is all whitespace |
| Converter.DecodeMalformedIff | packages/components/scripts/component-size-report/Converter.ts:75-81 | a non-blank line is skipped as malformed exactly when it has fewer than two tokens |
| Converter.DecodeInvalidIff | packages/components/scripts/component-size-report/Converter.ts:83-91 | a line with two or more tokens is skipped as invalid exactly when its second token is not a non-negative number |
| Converter.DecodeParsedShape | packages/components/scripts/component-size-report/Converter.ts:93-110 | the key is the first token and the total is the second; with four or more tokens whose third and fourth are numbers, those give js and css; otherwise js is the total and css is 0 |
| Converter.LegacyLineExample | packages/components/scripts/component-size-report/Converter.ts:105-110 | `"Foo 42"` decodes to `Foo` with js 42, css 0 and total 42 |
| Converter.DecodeLines | packages/components/scripts/component-size-report/Converter.ts:71-111 | folding lines into a report without repeated keys keeps its keys unique |
| Converter.Artifact2Report | packages/components/scripts/component-size-report/Converter.ts:66-112 | the decoded report has no repeated key |
| Converter.BlankArtifact | packages/components/scripts/component-size-report/Converter.ts:67-69 | an empty or whitespace-only artifact gives the empty report |
| Converter.Artifact2ReportIsFold | packages/components/scripts/component-size-report/Converter.ts:66-71 | the early return for a blank artifact agrees with folding over its lines |
| Converter.DecodeBlankLines | packages/components/scripts/component-size-report/Converter.ts:72-73 | lines that are all blank decode to the empty report |
| Converter.DecodeLinesAppend | packages/components/scripts/component-size-report/Converter.ts:71 | decoding two runs of lines is decoding the first, then continuing with the second |
| Converter.SkippedLineIsolated | packages/components/scripts/component-size-report/Converter.ts:72-91 | a blank, malformed or invalid line has no effect on the decoding of the lines around it |
| Converter.LaterLineWins | packages/components/scripts/component-size-report/Converter.ts:98-110 | when several lines set a key, the last of them decides its value |
| Converter.DecodedNames | packages/components/scripts/component-size-report/Converter.ts:71-111 | the decoded report holds a key exactly when the starting report does, or some line that parses sets it |
| Converter.DecodeArtifactLine | packages/components/scripts/component-size-report/Converter.ts:54 | the line written for an entry decodes to that entry, for a non-empty whitespace-free name and a non-negative total |
| Converter.DecodeArtifactLines | packages/components/scripts/component-size-report/Converter.ts:50-112 | decoding the written lines one by one rebuilds the report |
| Converter.RoundTrip | packages/components/scripts/component-size-report/Converter.ts:50-112 | `artifact2report(report2artifact(r)) == r` for every report with unique, non-empty, whitespace-free keys and non-negative totals |
| Converter.ArtifactNotBlank | packages/components/scripts/component-size-report/Converter.ts:67 | the artifact of a non-empty encodable report does not take the blank early return |
| Converter.MatchComponent | packages/components/scripts/component-size-report/Converter.ts:125-131 | a match captures a non-empty name without `/`, and the file name is `es/<name>/index.js` |
| Converter.MatchComponentComplete | packages/components/scripts/component-size-report/Converter.ts:125 | every `es/<name>/index.js` with such a name matches and captures `<name>` |
| Converter.ChunkIsNotComponent | packages/components/scripts/component-size-report/Converter.ts:125 | `es/Banner/Banner.chunk.js` does not match |
| Converter.CssSecondFormSubsumed | packages/components/scripts/component-size-report/Converter.ts:137-143 | the stylesheet test holds exactly when the lower-cased file name is `es/<lower name>/<lower name>.css`; the second alternative adds nothing |
| Converter.FirstCssIndex | packages/components/scripts/component-size-report/Converter.ts:137-143 | the index of the first record that passes the stylesheet test, with none before it, or the length when none passes |
| Converter.FindCssEntry | packages/components/scripts/component-size-report/Converter.ts:137-143 | `find` returns the first passing record, or nothing exactly when no record passes |
| Converter.SizeOf | packages/components/scripts/component-size-report/Converter.ts:145-152 | js and css are the rounded-up byte counts, and `max(js, css) <= total <= js + css` |
| Converter.MeasureComponent | packages/components/scripts/component-size-report/Converter.ts:132-152 | the sizes of one component: its own bytes, the bytes of its first stylesheet (0 if none), each rounded up, and the rounded-up sum |
| Converter.ExtractComponentSizes | packages/components/scripts/component-size-report/Converter.ts:121-156 | the loop builds the same report as the fold over the stats records, and keys are unique |
| Converter.ExtractedNames | packages/components/scripts/component-size-report/Converter.ts:125-131 | a component is a key exactly when some record is its `es/<name>/index.js` entry point, so empty stats give an empty report |
| Converter.ExtractedOrder | packages/components/scripts/component-size-report/Converter.ts:127-152 | the report's keys are the matched components without repeats, each at the position of its first entry-point record; a later record of the same component does not move it |
| Converter.ExtractedLastWins | packages/components/scripts/component-size-report/Converter.ts:148-152 | with several entry-point records for a component, the last gives its sizes; the stylesheet is the first matching record |
| CommentText.RemovedIff | packages/components/scripts/component-size-report/buildCommentText.ts:20-21 | a name is listed as removed exactly when master has it and the branch does not |
| CommentText.RemovedInMaster | packages/components/scripts/component-size-report/buildCommentText.ts:20-21 | every removed name is a master key |
| CommentText.ChangedIff | packages/components/scripts/component-size-report/buildCommentText.ts:22-33 | a branch entry is listed as changed exactly when master lacks its key or holds a size differing in total, js or css |
| CommentText.RemovedEmptyIff | packages/components/scripts/component-size-report/buildCommentText.ts:20-21 | nothing is removed exactly when every master key is in the branch |
| CommentText.ChangedEmptyIff | packages/components/scripts/component-size-report/buildCommentText.ts:22-33 | nothing is changed exactly when every branch entry has the same size in master |
| CommentText.EmptyMaster | packages/components/scripts/component-size-report/buildCommentText.ts:20-33 | against an empty master every branch entry is changed and nothing is removed |
| CommentText.EmptyBranch | packages/components/scripts/component-size-report/buildCommentText.ts:20-33 | an empty branch removes every master key, in master order, and changes nothing |
| CommentText.SingleUpdate | packages/components/scripts/component-size-report/buildCommentText.ts:20-33 | setting one key of master to a new size makes that entry the only change, with nothing removed |
| CommentText.FormatSizeChange | packages/components/scripts/component-size-report/buildCommentText.ts:35-50 | a new component is marked added; the annotation is empty exactly when the total is unchanged; otherwise it is the heart-break or green-heart mark with the absolute difference in Kb |
| CommentText.FormatComponentRowCells | packages/components/scripts/component-size-report/buildCommentText.ts:52-80 | the text of one component is its row cells written as pipe-delimited lines, one per cell pair |
| CommentText.RemovedRowReads | packages/components/scripts/component-size-report/buildCommentText.ts:58-62 | a removed component reads as exactly three rows from its master sizes: the total with the removal mark, then JS, then CSS, even when they are 0 |
| CommentText.PresentRowReads | packages/components/scripts/component-size-report/buildCommentText.ts:65-77 | a present component reads as its name (with the siren prefix when new) and total with its annotation, then a JS row exactly when js or css is positive, and a CSS row exactly when css is positive |
| CommentText.ParseRenderCells | packages/components/scripts/component-size-report/buildCommentText.ts:97-100 | the table text reads back as the cells it was written from, when no cell holds a pipe or a newline |
| CommentText.HeaderText | packages/components/scripts/component-size-report/buildCommentText.ts:98-99 | the table header is the two rows `Component/Size` and `--- /--- ` |
| CommentText.ChangedTableCells | packages/components/scripts/component-size-report/buildCommentText.ts:85-88 | the changed part of the table is the rows of the changed components, in branch order |
| CommentText.RemovedTableCells | packages/components/scripts/component-size-report/buildCommentText.ts:90-94 | the removed rows follow the text they start from, in master order |
| CommentText.HeadingsChanged | packages/components/scripts/component-size-report/buildCommentText.ts:85-88 | the changed rows list each changed component once, in branch order, marked when new |
| CommentText.HeadingsRemoved | packages/components/scripts/component-size-report/buildCommentText.ts:90-94 | the removed rows list each removed name once, in master order |
| CommentText.TableHeadings | packages/components/scripts/component-size-report/buildCommentText.ts:85-94 | the table lists the changed components first, then the removed ones |
| CommentText.CommentTable | packages/components/scripts/component-size-report/buildCommentText.ts:82-102 | when something differs, the comment is the marker line, the table, a blank line and the notice; the table reads back as its rows, and the rows list the changed components, then the removed ones |
| CommentText.CommentShape | packages/components/scripts/component-size-report/buildCommentText.ts:82-102 | both return paths have the same frame around the body: either the fixed message or the table |
| CommentText.CommentFraming | packages/components/scripts/component-size-report/buildCommentText.ts:82-102 | every comment starts with the marker and a newline, and ends with a blank line and the notice |
| CommentText.NoDifferencesIff | packages/components/scripts/component-size-report/buildCommentText.ts:20-83 | the comment is the fixed "No component size differences" message exactly when every master key is in the branch and every branch entry has the same size in master |
| CommentText.SelfComparisonIsQuiet | packages/components/scripts/component-size-report/buildCommentText.ts:82-83 | comparing a report with itself gives the fixed message |
| CommentText.ArtifactComparisonIsQuiet | packages/components/scripts/component-size-report/buildCommentText.ts:82-83 | comparing a report read back from its own artifact with the report gives the fixed message |

## Left out

- `index.ts` is not part of this model. It does file and network I/O, calls
  the GitLab client, parses JSON and exits the process.
- `console.warn` in `artifact2report`. It is replaced by `LineOutcome`, which
  says why each line was skipped (blank, malformed or invalid).
- JavaScript `Number` accepts more than the model does. Any token other than
  an optionally signed decimal integer reads as not-a-number here, while
  JavaScript also accepts hexadecimal, binary and octal literals (`0x`, `0b`,
  `0o`), exponent and fractional notation and `Infinity`. A line whose total
  is `Infinity` or `0x10` is accepted by the source but skipped here.
- Floating-point sizes and `NaN`. Stats sizes are natural numbers, so
  `parsedSize || 0` is the size itself. Report sizes are integers.
- Printing of numbers other than integers.
- Unicode. Whitespace is the ASCII part of `\s`, and `toLowerCase` is
  modelled on ASCII capitals only.
- JavaScript object key order for integer-like keys, which iterate first.
  Keys keep insertion order here. A key named `__proto__` is not special.
- Reports.Lookup, CommentText.Removed, CommentText.IsChanged: names that
  `Object.prototype` already defines (`toString`, `constructor`, `valueOf`,
  `hasOwnProperty`, ...) read as absent here, while the source's
  `branch[name]` and `master[component]` read the inherited member. So a
  master component `toString` that the branch lacks is listed as removed
  here but not by the source, and a new branch component `constructor` is
  marked added here while the source prints a `NaN` difference.
- The gzip, brotli and source fields of a stats record. The code does not
  read them.
- CommentText.CommentTable: requires that no name holds a pipe or a newline or equals a sub-row label. The comment text itself is modelled for every name.
- CommentText.TableHeadings: requires the same of the names, so that each name fills exactly one row heading.
- CommentText.HeadingsChanged: requires the same of the changed names.
- CommentText.HeadingsRemoved: requires the same of the removed names.
- CommentText.ParseRenderCells: reads back only cells without a pipe or a newline, because such a character would split the row.
- CommentText.RemovedRowReads: requires that the component name holds no pipe or newline.
- CommentText.PresentRowReads: requires that the component name holds no pipe or newline.
