# format-markdown.js, modelled in Dafny

`format-markdown.js` is a one-shot script. It takes the content of a draft,
reformats the Markdown and writes the result into a new draft. This project
models the text-rewriting middle of the script (lines 4-106) as five stages.

1. **Protection** (lines 6-37)
   - Indented code blocks, then `## ` lines, `### ` lines and exact
     `* * *` lines are each replaced by a numbered marker `@@KIND_i@@`.
   - What each marker stands for is pushed onto one of four arrays.
   - The index is the array's length before the push.
2. **Standardisation** (lines 41-44)
   - `__x__` becomes `**x**`.
   - `*x*` becomes `_x_`.
   - A line that is exactly `---` becomes `* * *`.
   - A line-leading `* ` becomes `- `.
3. **Spacing** (lines 48-76)
   - A loop over the `\n`-separated lines carries a record of the previous
     line.
   - It copies every line to the output.
   - It inserts one empty line between two consecutive ordered-list lines
     (`\s*\d+\.`).
4. **Restoration** (lines 81-96)
   - For each kind and each index `i`, the first occurrence of marker `i` is
     replaced by the entry in canonical form:
     - `\n\n## X` for a level-2 heading;
     - `\n### X` for a level-3 heading;
     - `\n* * *\n` for a rule;
     - `\n<trimmed block>\n` for a code block.
5. **Cleanup** (lines 100-106)
   - A blank line is added after `# ` title lines.
   - Blank lines between `-` items are removed.
   - Runs of three or more `\n` are collapsed to two.
   - Leading white space is trimmed.

## Modules

| file | module | contents |
|---|---|---|
| `js_text.dfy` | `JsText` | JavaScript's `\s` and `\d`, runs of one character, `trim`, `trimStart`, `split('\n')`/`join('\n')`, `indexOf`, string `replace` (first occurrence) |
| `regex_lines.dfy` | `RegexLines` | a text cut into the lines that `^`, `$` and `.` of a multiline regex see (split at `\n`, `\r`, U+2028, U+2029) |
| `placeholders.dfy` | `Placeholders` | the marker strings, their injectivity, the canonical restored forms, the restore loop as a function |
| `line_blocks.dfy` | `LineBlocks` | the three line-anchored extractions (lines 19-37) and their round trip through restoration |
| `code_blocks.dfy` | `CodeBlocks` | the code-block regex of line 12 as written, its global replace and its round trip |
| `store.dfy` | `Store` | the four arrays as fields of a class; the extraction passes and restore loops as methods on it |
| `normalize.dfy` | `Normalize` | lines 41-44 |
| `spacing.dfy` | `Spacing` | the spacing loop of lines 48-76, as a method, a specification function, and lemmas |
| `cleanup.dfy` | `Cleanup` | lines 100-106 |
| `pipeline.dfy` | `Pipeline` | lines 6-106 in order, on a fresh store |

## How the code was read

The model follows the code as written, including where a regex does less
or more than its comment suggests.

- **Only one spacing rule.** Lines 62-64 hold the only rule that inserts a
  blank line: between two consecutive lines that both start with `\s*\d+\.`.
  - `indent` is computed (line 57) but never read, so indentation never
    decides whether a blank line is inserted.
  - The `isListItem` flag (line 55) only matters through that rule.
- **`\A` is a literal `A`.** A JavaScript regex has no `\A` anchor.
  - In line 12 the `\A` branch matches a literal letter `A`. A code block at
    the very start of the text is therefore not protected (`StartQuirk`).
  - An `A` directly before an indented line starts a match, and that `A` is
    swallowed into the replacement (`LetterAQuirk`).
- **The list-item guard can be bypassed.**
  - ` {4,}` can give back spaces. For a line indented by five or more
    spaces, the `(?![-+*] )` guard is then checked at a space, so an
    indented `- item` is taken as code (`ListItemQuirk`).
  - With exactly four spaces the guard holds.
- **`*a*` is not made italic.** The italic rule of line 42 needs at least two
  characters between the stars (`ItalicNeedsTwoCharacters`).
- **Bold stays on one line.** `.` never crosses a line terminator, so `__`
  pairs on different lines are left alone (`BoldStaysOnItsLine`).
- **The bullet rule is modelled per line.** In line 44, `^(\s*)` may run
  across terminators from a blank line. The `* ` it rewrites is still the
  first non-blank character of a line after only white space. So the rule is
  modelled per line, keeping the line's own indentation.

## Model

| member | source | states |
|---|---|---|
| JsText.LeadingSpace | format-markdown.js:50 | `line.search(/\S\|$/)`: the result is a prefix of white space, followed by a non-space character or the end |
| JsText.TrimStart | format-markdown.js:106 | the result is a suffix of the input; only white space is removed; it is empty or starts with a non-space |
| JsText.Trim | format-markdown.js:56 | the result is an infix with only white space cut on either side, and it neither starts nor ends with white space |
| JsText.Split | format-markdown.js:48 | `split('\n')` gives at least one part, and no part contains `\n` |
| JsText.JoinSplit | format-markdown.js:48-76 | `join('\n')` after `split('\n')` gives back the text |
| JsText.SplitJoin | format-markdown.js:48-76 | `split('\n')` after `join('\n')` of `\n`-free parts gives back the parts |
| JsText.IndexOfFrom | format-markdown.js:82 | the result is an occurrence at or after the start, and no earlier occurrence exists |
| JsText.ReplaceFirst | format-markdown.js:81-96 | with no occurrence the text is unchanged; otherwise exactly the first occurrence is replaced |
| JsText.ReplaceFirstAt | format-markdown.js:81-96 | the first occurrence is located by the absence of its first character before it |
| JsText.Run | format-markdown.js:12 | a run of one character, as ` {4,}` (line 12), `\n\n+` (line 102) and `\n{3,}` (line 104) see it: every character in it is that character, and the one after it, if any, is not |
| JsText.Decimal | format-markdown.js:13 | the index written in decimal is non-empty and all digits |
| RegexLines.Rows | format-markdown.js:19 | a text's regex lines: `\|rows\| >= 1`, bodies free of terminators, one terminator between lines and none after the last |
| RegexLines.TextOfRows | format-markdown.js:19 | joining the lines gives back the text |
| RegexLines.RowsOfText | format-markdown.js:19 | cutting a joined well-formed sequence of lines gives back that sequence |
| RegexLines.RowsOfMapLines | format-markdown.js:43-44 | a per-line rewrite that adds no terminators leaves the line structure and rewrites each body |
| RegexLines.LineEnd | format-markdown.js:19 | where `.*` stops: nothing before it is a terminator, and it is the end or a terminator |
| Placeholders.Marker | format-markdown.js:13-34 | a marker starts with `@@` |
| Placeholders.MarkerInjective | format-markdown.js:13-34 | equal markers have the same kind and the same index |
| Placeholders.SpliceMarker | format-markdown.js:82 | in a text with no `@` before a marker, `replace` substitutes exactly that marker |
| Placeholders.RestoredUpToChain | format-markdown.js:81-96 | the restore loop after n rounds is the n-th text of any chain that starts at the input and in which each round's replacement leads to the next text |
| LineBlocks.ScanRows | format-markdown.js:19-37 | the extraction keeps the number of lines |
| LineBlocks.ScanRowsNumbering | format-markdown.js:19-37 | the k-th matching line (in document order) becomes marker `base + k`; entry k holds its capture; every other line is untouched; the entry count equals the match count |
| LineBlocks.ScanRowsLast | format-markdown.js:19-37 | the effect of one more line: a non-matching line is copied; a matching one becomes the next marker and its capture is appended |
| LineBlocks.MatchCountMonotone | format-markdown.js:19-37 | a prefix has no more matches than the whole, and strictly fewer when a matching line follows it |
| LineBlocks.RestoreRoundTrip | format-markdown.js:19-91 | on text without `@`, extracting and then restoring one kind turns each matching line into its canonical form (`## X` into `\n\n## X`, `### X` into `\n### X`, `* * *` into `\n* * *\n`) and leaves every other line unchanged |
| LineBlocks.RestoreStep | format-markdown.js:81-91 | round n of the restore loop replaces exactly the n-th matching line's marker and nothing else |
| LineBlocks.PartialNone | format-markdown.js:81-91 | before any restore round the text is the extracted text |
| LineBlocks.PartialAll | format-markdown.js:81-91 | after all rounds every matching line is in canonical form |
| LineBlocks.PartialUnchangedElsewhere | format-markdown.js:81-91 | one restore round leaves every line but its own unchanged |
| LineBlocks.RestoreSteps | format-markdown.js:81-91 | every round of the restore loop leads from the lines with n entries restored to those with n + 1 |
| LineBlocks.RestoreRows | format-markdown.js:81-91 | running every round of the restore loop on the extracted lines gives the lines with every entry restored |
| CodeBlocks.CodeMatchAt | format-markdown.js:12 | a match at p covers a non-empty stretch after p, and the captured run starts with an admissible indented line |
| CodeBlocks.CodeMatcher | format-markdown.js:12 | every match the regex finds lies within the text and past its start |
| CodeBlocks.CodeScanAt | format-markdown.js:12-16 | one step of the global replace: a match is replaced by `\n\n@@CODE_BLOCK_i@@\n\n` and its capture is recorded; otherwise the character is kept |
| CodeBlocks.CapturedIndented | format-markdown.js:12 | every recorded block starts with a space or a tab |
| CodeBlocks.CodeScanNoMatch | format-markdown.js:12 | with no match from p on, the text is unchanged and nothing is recorded |
| CodeBlocks.CapturedIgnoresBase | format-markdown.js:13-14 | what is recorded does not depend on the array length before the pass |
| CodeBlocks.MixedNone | format-markdown.js:93-96 | before any restore round the text is the extracted text |
| CodeBlocks.MixedAll | format-markdown.js:93-96 | after all rounds every block is back in canonical form |
| CodeBlocks.CodeRestoreStep | format-markdown.js:93-96 | round n replaces exactly marker n, by the n-th recorded block trimmed |
| CodeBlocks.CodeRestoredUpTo | format-markdown.js:93-96 | after n rounds, exactly blocks 0..n-1 are back |
| CodeBlocks.MixedSteps | format-markdown.js:93-96 | every round of the restore loop leads from the text with blocks below n restored to the one with blocks below n + 1 |
| CodeBlocks.CodeRoundTrip | format-markdown.js:12-96 | on text without `@`, extracting code blocks and then restoring them puts `\n\n\n<trimmed block>\n\n\n` in the place of each match and leaves the rest |
| CodeBlocks.LetterAQuirk | format-markdown.js:12 | `A\tx` is caught: the `A` is consumed and `\tx` is recorded |
| CodeBlocks.StartQuirk | format-markdown.js:12 | an indented block at the very start is not caught |
| CodeBlocks.ListItemQuirk | format-markdown.js:12 | a `- ` item indented by four spaces is refused by the guard; one indented by five is accepted |
| Store.PlaceholderStore.constructor | format-markdown.js:6-9 | the four arrays start empty |
| Store.PlaceholderStore.Push | format-markdown.js:13-35 | the returned index is the length before the push; the value is appended; the other arrays are unchanged |
| Store.PlaceholderStore.ProtectCodeBlocks | format-markdown.js:12-16 | the new text and `codeBlocks` are those of the global replace; the other arrays are unchanged |
| Store.PlaceholderStore.ReplaceMatches | format-markdown.js:12-16 | the left-to-right replace loop computes the global replace for any matcher |
| Store.PlaceholderStore.ProtectLines | format-markdown.js:19-37 | the new text and array of one kind are those of the per-line extraction; the other arrays are unchanged |
| Store.PlaceholderStore.ReplaceRows | format-markdown.js:19-37 | the per-line loop computes the per-line extraction |
| Store.PlaceholderStore.Restore | format-markdown.js:81-96 | the `for` loop computes the restore function for all entries of a kind |
| Normalize.BoldClose | format-markdown.js:41 | the lazy `.*?__`: the first `__` on the same line, and none closer |
| Normalize.BoldPointwise | format-markdown.js:41 | line 41 keeps the length and changes only underscores of `__` pairs, each into `*` |
| Normalize.BoldCopies | format-markdown.js:41 | where no match starts, the replace copies the text |
| Normalize.BoldNoPair | format-markdown.js:41 | text without `__` is unchanged |
| Normalize.BoldWrapsAt | format-markdown.js:41 | at a `__` whose nearest `__` on the same line follows with no underscore between, the replace writes the text between in `**` and resumes after the closing pair |
| Normalize.BoldWraps | format-markdown.js:41 | `__x__` becomes `**x**` for every `x` on one line without an underscore |
| Normalize.BoldExample | format-markdown.js:41 | `__a__` becomes `**a**` |
| Normalize.BoldStaysOnItsLine | format-markdown.js:41 | `__a\nb__` is unchanged |
| Normalize.ItalicClose | format-markdown.js:42 | the lazy italic body: the first admissible closing `*` on the same line, and none closer |
| Normalize.ItalicPointwise | format-markdown.js:42 | line 42 keeps the length and changes only opening or closing stars, each into `_` |
| Normalize.ItalicKeepsDoubleStars | format-markdown.js:42 | a star next to another star is never rewritten, so `**bold**` is untouched |
| Normalize.ItalicKeepsLoneStars | format-markdown.js:42 | a star with white space (or an end) on both sides is never rewritten |
| Normalize.ItalicWrapsAt | format-markdown.js:42 | at an opening star whose nearest admissible closing star on the same line is at `e`, the replace writes the text between in `_` and resumes after `e` |
| Normalize.ItalicWraps | format-markdown.js:42 | `*x*` becomes `_x_` for every admissible body `x` |
| Normalize.ItalicExample | format-markdown.js:42 | `*ab*` becomes `_ab_` |
| Normalize.ItalicNeedsTwoCharacters | format-markdown.js:42 | `*a*` is unchanged |
| Normalize.BulletLine | format-markdown.js:44 | the length is kept, and only the first non-blank character can change |
| Normalize.BulletRewrites | format-markdown.js:44 | `<ws>* rest` becomes `<ws>- rest` with the white space kept, unless `rest` starts like a rule |
| Normalize.BulletOnlyStars | format-markdown.js:44 | a line without a leading `* ` is unchanged |
| Normalize.BulletKeepsRule | format-markdown.js:44 | an indented `* * *` line is unchanged |
| Normalize.HrSurvivesBullet | format-markdown.js:43-44 | a `---` line becomes `* * *` and stays so through the bullet rule |
| Normalize.HrBulletLines | format-markdown.js:43-44 | lines 43 and 44 together are one rewrite per line |
| Normalize.NormalizedLine | format-markdown.js:43-44 | the result has the same lines, each rewritten by both rules |
| Normalize.Standardize | format-markdown.js:41-44 | lines 41-44 are bold, then italic, then one per-line rewrite |
| Spacing.Clean | format-markdown.js:54 | the copy has the same length, with each U+00A0 replaced by a space and every other character kept |
| Spacing.DigitRun | format-markdown.js:62 | `\d+` takes the maximal run of digits |
| Spacing.Reformat | format-markdown.js:48-76 | the output is the spaced lines joined by `\n` |
| Spacing.SpaceLines | format-markdown.js:53-75 | the `for` loop computes the spacing function of the lines |
| Spacing.Visit | format-markdown.js:54-74 | one iteration appends an optional empty line and then the original line, and records the cleaned line's classification |
| Spacing.SpacedSnoc | format-markdown.js:53-75 | the spacing function grows by one iteration per line |
| Spacing.OrderedIsListItem | format-markdown.js:55-62 | an ordered line is a list item and not blank |
| Spacing.AddsBlankIsGap | format-markdown.js:62-68 | an empty line is inserted before line i if and only if i > 0 and lines i-1 and i both start with `\s*\d+\.` |
| Spacing.SpacedIsExpand | format-markdown.js:53-75 | the output is the input lines in order, each preceded by at most one inserted empty line |
| Spacing.EraseExpand | format-markdown.js:53-75 | deleting the inserted empty lines gives back exactly the input lines, unmodified |
| Spacing.MarkedNone | format-markdown.js:66-69 | no empty line is counted exactly when none is to be inserted |
| Spacing.ExpandLength | format-markdown.js:66-69 | n input lines give exactly n + (number of inserted empty lines) output lines, at most 2n; exactly n if and only if nothing is inserted, and then the output is the input |
| Spacing.NoGapFirst | format-markdown.js:51-66 | nothing is inserted before the first line |
| Spacing.SpacingIdentity | format-markdown.js:48-76 | when no two consecutive lines are both ordered, the text comes out unchanged |
| Spacing.SpacingPair | format-markdown.js:62-69 | two consecutive ordered lines get one empty line between them |
| Spacing.SpacingExample | format-markdown.js:62-69 | `1. a`, `2. b` becomes `1. a`, `` (empty), `2. b` |
| Spacing.CleanClassifiesAlike | format-markdown.js:54-57 | the U+00A0 replacement does not change whether a line is ordered, a list item or blank, nor its indent |
| Spacing.BlankIsAllSpace | format-markdown.js:56 | `trim() === ''` holds exactly when the line is all white space |
| Cleanup.TitleMatch | format-markdown.js:100 | a match ends at a `\n` at least two characters past its start, the `\n` where the blank line is added |
| Cleanup.TitleGapDrop | format-markdown.js:100 | line 100 only adds newlines |
| Cleanup.TitleGapIsSpread | format-markdown.js:100 | the global replace equals the reference that copies the text and doubles the `\n` that ends each title line the pattern matches, whatever the text |
| Cleanup.TitleExample | format-markdown.js:100 | `# T\nx` becomes `# T\n\nx` |
| Cleanup.ItemMatch | format-markdown.js:102 | a match ends in a run of at least two `\n`, and only `\n`, after the item line |
| Cleanup.ItemGap | format-markdown.js:102 | the part of a match after the first item's line starts at that line's end and covers at least two characters, all `\n` |
| Cleanup.ItemMatcher | format-markdown.js:102 | every match covers only newlines |
| Cleanup.TightDrop | format-markdown.js:102 | line 102 only removes newlines |
| Cleanup.ItemNested | format-markdown.js:102 | a match that starts inside another match starts its `\n` run no earlier, and ends with it or is the match at its end |
| Cleanup.TightIsKeep | format-markdown.js:102 | the global replace equals the reference that keeps exactly the characters lying strictly inside no match's `\n` run, whatever the text |
| Cleanup.TightExample | format-markdown.js:102 | `- a\n\n- b` becomes `- a\n- b` |
| Cleanup.CollapseFromShape | format-markdown.js:104 | after the collapse no three `\n` are consecutive, and a leading run of n newlines becomes min(n, 2) |
| Cleanup.CollapseNoTriple | format-markdown.js:104 | after line 104 the text contains no `\n\n\n` |
| Cleanup.CollapseKeeps | format-markdown.js:104 | a text without `\n\n\n` is unchanged |
| Cleanup.CollapseIdempotent | format-markdown.js:104 | collapsing twice is collapsing once |
| Cleanup.CollapseDrop | format-markdown.js:104 | line 104 only removes newlines |
| Cleanup.TidyShape | format-markdown.js:100-106 | the final text has no `\n\n\n` and does not start with white space |
| Cleanup.TidyKeepsText | format-markdown.js:100-104 | lines 100-104 change nothing but the newlines |
| Pipeline.ProtectAll | format-markdown.js:6-37 | on a fresh store the four passes leave the text and the four arrays of the extraction specification |
| Pipeline.ProtectHeadings | format-markdown.js:19-37 | the `##`, `###` and rule passes on empty arrays leave the text and arrays of the three per-line extractions applied in that order; `codeBlocks` is unchanged |
| Pipeline.RestoreAll | format-markdown.js:81-96 | the four restore loops in order compute the restoration specification |
| Pipeline.Format | format-markdown.js:6-106 | the script's result is the composition of the stage specifications; it has no `\n\n\n` and does not start with white space |

## Left out

- Host I/O (lines 2 and 110-122): reading `draft.content`, creating the draft, copying tags, loading the editor and `script.complete()` are calls into the host application. The model takes the content as a string and returns the new content.
- String `replace` with a string replacement is modelled as plain substitution. JavaScript interprets `$&`, `$$`, `` $` `` and `$'` in the replacement (lines 82, 86, 90, 95), so a heading containing `$&` would be altered by the real script.
- Text is a sequence of Unicode scalar values. JavaScript strings are UTF-16, so `.` and `[^\s*]` see the halves of a character outside the BMP separately; the model does not.
- A general regex engine is not modelled. Each regex is written out by hand as the character-level function it computes on this input.
- LineBlocks.RestoreRoundTrip: requires the text to contain no `@`. This is stronger than the real hazard: user text that already contains a marker such as `@@H2_HEADING_0@@` is taken for it by the restore loop. The script does not guard against this.
- CodeBlocks.CodeRoundTrip: requires the text to contain no `@`, for the same reason.
- There is no end-to-end round trip or idempotence lemma for the whole script, and the script is not idempotent. Restoring a code block trims it (line 94), so its first line loses its indentation and a second run no longer protects it. For `x\n\n    __a__\n` the first run gives `x\n\n__a__\n\n` and the second `x\n\n**a**\n\n`.
- No placeholder leakage is proved for the whole script. Markers are restored correctly per kind (`LineBlocks.RestoreRoundTrip`, `CodeBlocks.CodeRoundTrip`), but the stages in between are not shown to keep each marker intact. For example, line 44 cannot reach a marker that starts a line, but that is not proved.
- Spacing: `prev.indent` is computed (lines 57, 74) but never read. The model stores it and proves nothing about it.
- Spacing: line 66's `!prev.isBlank` check never decides anything, because an ordered previous line is never blank (`Spacing.OrderedIsListItem`). It is modelled as written.
- Code-block preservation through lines 41-44 is not proved for the whole script. The marker `@@CODE_BLOCK_i@@` contains no `__` and no `*`, and it stands on a line of its own, so neither emphasis rule can reach it; the argument is not written as a lemma.
