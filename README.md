# Diff service and git status classifier

A model of the two services a code-review tool uses to turn `git` output into
a review document:

- **DiffService** (`services/diffService.js`) parses a unified diff into
  hunks ("chunks"). Each chunk keeps its `@@ -a,b +c,d @@` header verbatim
  and the lines recorded under it. Every recorded line has a type (added,
  removed or context) and old/new line numbers counted from the header's
  start numbers. The service also renders the chunks as rows with two
  number columns, wraps them in a fenced `diff` block, and validates file
  paths against traversal and sensitive directories.
- **GitStatusParser** (`services/gitStatusParser.js`) classifies a
  two-character porcelain status code. The first character is the index
  status and the second the working-tree status. The classifier looks both
  characters up in a priority table and a name table. It produces the
  primary action, a label, a description and four flags. From those it
  derives a CSS badge class, a markdown section header and a status message.
  It also checks codes for validity and enumerates all 64 valid codes.

The JavaScript built-ins the code relies on are stated once, in module
`JsText` (`js_text.dfy`):

- `split('\n')` (keeping the trailing empty piece), `join`, `startsWith` and
  `includes`;
- `substring`, `padStart`, `String(n)` and `parseInt` on digit runs;
- template interpolation of `null`, `undefined` and non-string values.

A JavaScript argument that may be missing or of the wrong type is a
`JsValue`.

`parseDiff`, `formatEnhancedDiff` and `getAllPossibleStatuses` loop while
they update local state. They are methods with loop invariants, each proved
equal to a specification function: a left fold over the lines, the rendered
text, and the enumeration. Everything else in the core is a function of its
arguments and is modelled as a Dafny function.

The hunk-header regular expression `/@@ -(\d+)(?:,\d+)? \+(\d+)(?:,\d+)? @@/`
is modelled as two parts:

- a deterministic matcher at one position (`MatchAt`);
- a leftmost search over positions (`MatchFrom`).

The matcher is proved sound: what it reports is the pattern, spelled out at
that index. It is also proved complete: every textual instance of the
pattern is found, at or before where it sits. Its digit runs are greedy,
which never loses a match, because a run of digits is always followed by `,`
or a space.

## Model

| member | source | states |
|---|---|---|
| `DiffService.ParseDiff` | services/diffService.js:12-63 | the loop returns exactly `Parsed(diff)`, the line-by-line scan of `diff.split('\n')` from no chunk and counters 0 |
| `DiffService.ParsedOfNoText` | services/diffService.js:13-15 | an empty string, `null`, `undefined` or a non-string gives `{ chunks: [] }` |
| `DiffService.MatchAtSound` | services/diffService.js:26 | a match reported at a position has digit-only captures and the pattern's text is a prefix there |
| `DiffService.MatchAtComplete` | services/diffService.js:26 | wherever the pattern's text starts, the matcher reports exactly those captures |
| `DiffService.MatchHeaderSound` | services/diffService.js:26-27 | `line.match` reports a well-formed instance of the pattern and no earlier position matches |
| `DiffService.MatchHeaderFinds` | services/diffService.js:26-27 | every instance of the pattern in a line is found, at or before its index |
| `DiffService.MalformedHeaderIgnored` | services/diffService.js:24-35 | an `@@` line the pattern rejects opens no chunk, records nothing and leaves both counters unchanged |
| `DiffService.HeaderStartsOfLeadingHeader` | services/diffService.js:24-29 | a line that starts with a well-formed header gives `parseInt` of exactly that header's two start numbers |
| `DiffService.StepKeepsInvariant` | services/diffService.js:24-59 | one pass of the loop body keeps every chunk well numbered and the counters at the open chunk's next numbers |
| `DiffService.TraceStep` | services/diffService.js:24-59 | one pass of the loop body adds to the chunks exactly the event of that line: a header, a recorded line, or nothing |
| `DiffService.ChunkHeadersAreHeaderLines` | services/diffService.js:23-60 | the chunk headers are exactly the valid header lines, in order and verbatim |
| `DiffService.ParsedChunkHeaders` | services/diffService.js:17-35 | the number of chunks is the number of valid header lines, and chunk k is headed by the k-th of them |
| `DiffService.ClassifyByFirstChar` | services/diffService.js:41-51 | `+` gives added, `-` removed, anything else (the empty line included) context |
| `DiffService.TraceOfParse` | services/diffService.js:23-60 | headers and recorded line texts, in order, are the input's events after the first valid header, with `---`/`+++` lines and rejected `@@` lines dropped |
| `DiffService.ParsedEmptyIff` | services/diffService.js:12-35 | there are no chunks exactly when the argument is not a non-empty string or has no valid header line |
| `DiffService.ParseLinesInvariant` | services/diffService.js:23-58 | after any prefix of lines every chunk is well numbered and the counters are the open chunk's start numbers plus the lines it has taken |
| `DiffService.ParsedWellNumbered` | services/diffService.js:37-58 | added lines carry only a new number, removed lines only an old one, context lines both, each the header's start plus the lines counted before it |
| `DiffService.NumbersConsecutive` | services/diffService.js:37-51 | within a chunk the old numbers handed out are `oldStart, oldStart+1, ...` and the new ones likewise from `newStart` |
| `DiffService.FormatEnhancedDiff` | services/diffService.js:70-95 | the nested loops build exactly `Formatted`: per chunk its header then one row per line, each ending in a newline |
| `DiffService.FormattedEmptyIff` | services/diffService.js:71-73 | the text is empty exactly when the argument is absent or has no chunks |
| `DiffService.FormattedLines` | services/diffService.js:77-91 | splitting the output at newlines gives back the headers and rows, then one empty piece; there are as many lines as chunks plus recorded lines |
| `DiffService.RenderedLinesCount` | services/diffService.js:77-91 | the rendering holds one header per chunk plus one row per recorded line |
| `DiffService.NumberFieldWidth` | services/diffService.js:81-82 | a missing number or 0 renders as three blanks; a non-zero number from -99 to 999 renders as its digits right-justified in three characters; any other number is rendered whole, in four or more characters |
| `DiffService.ReadNumberField` | services/diffService.js:81-82 | reading a number field back (blanks stripped, `parseInt`) gives the number, for a missing number or one from 1 to 999 |
| `DiffService.RowColumns` | services/diffService.js:81-90 | with numbers that fit, a row is old column, blank, new column, blank, the type marker, then the content without its first character |
| `DiffService.RowNoNewline` | services/diffService.js:84-90 | a row holds no newline when the line's text holds none, so each row is one output line |
| `DiffService.ReadRowText` | services/diffService.js:81-90 | a row can be read back into the line's type, its two numbers and its text |
| `DiffService.ParsedRowsReadBack` | services/diffService.js:36-90 | every row rendered from a parsed diff reads back as that line's type, numbers and text when its numbers are from 1 to 999 (a 0 renders blank) |
| `DiffService.RemovedRowExample` | services/diffService.js:87 | a removed line with old number 2 renders as `  2     -old line` |
| `DiffService.EnhancedDiffMarkdown` | services/diffService.js:102-118 | the section starts with the opening `diff` fence, ends with the closing fence and a blank line, and wraps the formatted text or the raw argument |
| `DiffService.MarkdownFallsBackIff` | services/diffService.js:104-112 | the raw argument is wrapped exactly when it has no valid header line, and the formatted text otherwise, which is then non-empty |
| `DiffService.FallbackFenceSharesLastLine` | services/diffService.js:111 | as written: raw text without a trailing newline leaves the closing fence on its last line |
| `DiffService.NotAValidDiffFallsBack` | services/diffService.js:111 | as written: `not a valid diff` gives the fence glued to the text, so no `\n` comes before the closing fence |
| `DiffService.EnhancedDiffMarkdownFenced` | services/diffService.js:107-112 | corrected: the closing fence always starts a line of its own |
| `DiffService.FencedFallback` | services/diffService.js:111 | corrected: raw text without a trailing newline is followed by `\n` before the closing fence |
| `DiffService.FencedAgreesOnTerminatedBody` | services/diffService.js:107-108 | the correction changes nothing when there are chunks, since the formatted text already ends in a newline |
| `DiffService.SomeIncludedIff` | services/diffService.js:137 | `patterns.some(p => s.includes(p))` holds exactly when one of the patterns occurs in `s` |
| `DiffService.IsValidFilePath` | services/diffService.js:125-138 | a path is valid exactly when it is a non-empty string, does not start with `/`, and contains none of `..`, `\`, `.env`, `.git/`, `node_modules/`, `.ssh/`, `.aws/` at any index |
| `JsText.Split` | services/diffService.js:17 | `split('\n')` gives at least one piece, no piece holds a newline, and joining the pieces with newlines gives the text back |
| `JsText.SplitJoin` | services/diffService.js:17 | splitting newline-free pieces joined with newlines gives the pieces back |
| `JsText.PadStart` | services/diffService.js:81-82 | the padded text has the larger of the two lengths, ends with the text and is filled before it |
| `JsText.DigitsValueOfNatToString` | services/diffService.js:28-29 | `parseInt(String(n)) == n` for a non-negative integer |
| `JsText.IncludesChar` | services/gitStatusParser.js:119-142 | `includes` of one character is membership |
| `GitStatusParser.Lookup` | services/gitStatusParser.js:69-70 | a known character gets its table entry, an unknown one the blank entry |
| `GitStatusParser.PriorityEntry` | services/gitStatusParser.js:9-18 | the priority table knows exactly `M A D R C U ?` and the blank |
| `GitStatusParser.ActionName` | services/gitStatusParser.js:21-30 | the name table knows exactly the same characters, and only the blank has the empty name |
| `GitStatusParser.WeightDeterminesEntry` | services/gitStatusParser.js:9-18 | the weights are distinct, so a weight names its table entry |
| `GitStatusParser.PrimaryAction` | services/gitStatusParser.js:68-74 | the primary action is one of the two entries, weighs at least as much as both, and is the index's on a tie |
| `GitStatusParser.PrimaryActionSymmetric` | services/gitStatusParser.js:68-74 | swapping the two characters does not change the primary action |
| `GitStatusParser.PrimaryDeletedIff` | services/gitStatusParser.js:68-74 | the primary action is `deleted` exactly when either character is `D` |
| `GitStatusParser.PrimaryConflictIff` | services/gitStatusParser.js:68-74 | without a `D`, the primary action is `conflict` exactly when either character is `U` |
| `GitStatusParser.Normalize` | services/gitStatusParser.js:39 | the normal form has length 2: the first two characters, or the code padded with blanks |
| `GitStatusParser.NormalizeValid` | services/gitStatusParser.js:39 | a two-character code is its own normal form |
| `GitStatusParser.Parse` | services/gitStatusParser.js:37-63 | the reported code has two characters, the index and the working-tree status; action, icon, colour and priority are the primary action of that pair; label and description are those of the pair, and the four flags those of the reported code |
| `GitStatusParser.ParsePair` | services/gitStatusParser.js:39-61 | a two-character code is parsed character by character into the primary action, label and description of that pair |
| `GitStatusParser.ParsePriorityInTable` | services/gitStatusParser.js:52-61 | the priority is one of 10, 9, 8, 7, 6, 5, 3, 1 |
| `GitStatusParser.DeletedIffPrimaryDeleted` | services/gitStatusParser.js:44-60 | `isDeleted` holds exactly when the primary action is `deleted` |
| `GitStatusParser.ConflictIsPrimary` | services/gitStatusParser.js:44-60 | a conflicted code without a deletion has the primary action `conflict`, and only such a code |
| `GitStatusParser.ParseAddedThenDeleted` | services/gitStatusParser.js:68-97 | `AD` is `deleted` with the label `Added→Deleted` |
| `GitStatusParser.ParseBothConflicted` | services/gitStatusParser.js:68-97 | `UU` is `conflict` with the label `Conflict` |
| `GitStatusParser.ParseUntracked` | services/gitStatusParser.js:68-97 | `??` is `untracked` with the label `Untracked` |
| `GitStatusParser.ParseBlank` | services/gitStatusParser.js:68-114 | the blank pair is `unchanged`, labelled `Modified` and described as `No changes` |
| `GitStatusParser.ShortCodeExamples` | services/gitStatusParser.js:39-45 | `''` reads as two blanks and `M` as `M `; `M ` and ` M` are both labelled `Modified` |
| `GitStatusParser.Label` | services/gitStatusParser.js:79-97 | a label is never empty |
| `GitStatusParser.LabelCases` | services/gitStatusParser.js:79-97 | the label is both names joined by `→`, one name, or `Modified`, according to which characters are named, non-blank and (for the second) different from the first |
| `GitStatusParser.Description` | services/gitStatusParser.js:102-114 | the description starts with `Staged: ` when the index character is not blank, with `Working: ` when only the working-tree one is not, and is `No changes` exactly for two blanks |
| `GitStatusParser.DescriptionCases` | services/gitStatusParser.js:102-114 | the description is `Staged: ...` and/or `Working: ...` for the non-blank characters, joined by `, `, or `No changes` |
| `GitStatusParser.UnknownCharDescribedUndefined` | services/gitStatusParser.js:106 | an unknown character is described as `undefined` |
| `GitStatusParser.IsDeleted` | services/gitStatusParser.js:119-121 | `includes('D')` is membership of `D` |
| `GitStatusParser.IsAdded` | services/gitStatusParser.js:126-128 | a code counts as added exactly when its first character's table entry is the addition or the copy |
| `GitStatusParser.IsModified` | services/gitStatusParser.js:133-135 | `includes('M') \|\| includes('R')` is membership of `M` or `R` |
| `GitStatusParser.HasConflict` | services/gitStatusParser.js:140-142 | `includes('U')` is membership of `U` |
| `GitStatusParser.BadgeClass` | services/gitStatusParser.js:147-156 | the badge is one of `deleted`, `conflict`, `added`, `modified` |
| `GitStatusParser.BadgePrecedence` | services/gitStatusParser.js:147-156 | each badge in terms of the normalised code: `D` first, then `U`, then an `A` or `C` in front, else `modified` |
| `GitStatusParser.ConditionsAsSection` | services/gitStatusParser.js:161-198 | the tests the header and the message make, in order, select the section of the precedence deleted > added > conflict > `R` in the raw code > `C` in the raw code > plain |
| `GitStatusParser.MarkdownHeader` | services/gitStatusParser.js:161-177 | the header follows the section precedence: the section's icon, the filename in backticks, and the section's tag |
| `GitStatusParser.StatusMessage` | services/gitStatusParser.js:182-198 | the message is the section's message, along the same precedence as the header |
| `GitStatusParser.HeaderCarriesSectionTag` | services/gitStatusParser.js:161-177 | the header starts with `### ` and ends with the tag of its section (none for the plain one) |
| `GitStatusParser.MessageIffNotPlain` | services/gitStatusParser.js:182-198 | the message is `null` exactly for the plain section |
| `GitStatusParser.PlainHeaderUntagged` | services/gitStatusParser.js:175-176 | the plain section's header is `### 📄` and the filename in backticks, with no tag |
| `GitStatusParser.CopiedSectionIff` | services/gitStatusParser.js:161-177 | among valid codes the copied section is reached exactly with `C` second and `M`, `?` or a blank first |
| `GitStatusParser.ShortCodesInvalid` | services/gitStatusParser.js:203-208 | `''` and one-character codes are not valid; a character and a blank are valid exactly when the character is |
| `GitStatusParser.IsValidStatus` | services/gitStatusParser.js:203-208 | a value is valid exactly when it is a two-character string whose characters both have a priority-table entry |
| `GitStatusParser.GetAllPossibleStatuses` | services/gitStatusParser.js:213-224 | the nested loops build exactly the 64 pairs in index-major order |
| `GitStatusParser.AllPairsAreTheValidCodes` | services/gitStatusParser.js:203-224 | a string is enumerated exactly when it is a valid code |
| `GitStatusParser.AllPairsDistinct` | services/gitStatusParser.js:213-224 | the enumeration has no repeats |

## Left out

- `generateEnhancedDiffMarkdown`'s `catch` branch and its `console.error` are left out. Nothing in the modelled code can throw: `parseDiff` guards its argument, and a `JsValue` cannot be a thrower such as an object with a throwing `toString`.
- Strings are sequences of Unicode code points. JavaScript strings are UTF-16 code units, which only matters for `length`, `slice` and `[i]` on text outside the basic plane. The status characters and the diff markers are all in the basic plane.
- `parseInt` is modelled on unbounded integers. Start numbers beyond 2^53 would lose precision in JavaScript, and their `String` form would change.
- An absent `parsedDiff` or `chunks` argument to `formatEnhancedDiff` is `None`. Other malformed objects (chunks that are not arrays, lines without fields) are not modelled.
- The classifier takes its status code as a `string`. JavaScript would coerce a non-string through `+ '  '` and then fail on `.includes` in the header and the message.
- `IsValidStatus` accepts strings, `null`, `undefined` and other wrapped values, and returns false for every non-string. An array-like object of length 2 would pass the JavaScript check.
- Icons are the code points of the table, with the variation selector `U+FE0F` where the source has one.
- `parse`'s `label` field is `labelText`, because `label` is a Dafny keyword.
- `runTests` prints to the console and is not part of this model.

## Findings

| source | as written | input that shows it | evidently intended | confidence | as-written member | corrected member |
|---|---|---|---|---|---|---|
| services/diffService.js:111 | the fallback wraps the raw argument as `` ```diff\n${diff}```\n\n ``, so text without a trailing newline shares its last line with the closing fence | `not a valid diff` gives `` ```diff\nnot a valid diff```\n\n ``; test/diffService.test.js:102-109 expects it to contain `` \n```\n\n `` | end the fenced body with a newline before the closing fence | not executed | `DiffService.NotAValidDiffFallsBack` | `DiffService.FencedFallback` |
