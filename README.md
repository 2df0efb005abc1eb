# A verified model of the markdown editor's core

This project models and proves the core logic of a React-based markdown editor. The editor has:

- an editing pane with a formatting toolbar;
- a live preview that draws mermaid diagrams;
- a linter;
- a file sidebar grouped by date;
- a client-side PDF export and a serverless PDF function;
- a login / sign-up form.

Each core source file is one Dafny module:

| module | source | what it holds |
|---|---|---|
| `MarkdownUtils` | src/utils/markdownUtils.js | the blank-line placeholder rewrite |
| `MarkdownLinter` | src/utils/markdownLinter.js | the heading and link rules, with the scan as a method over regex-match functions |
| `App` | src/App.js | the PDF page layout as a method over a jsPDF document class, and the save decision as a method over the application state |
| `RichEditor` | src/components/RichEditor.js | the formatting splice, the toolbar table, and an editor class for the change notification and value sync |
| `Sidebar` | src/components/Sidebar.js | the date grouping (the `reduce` as a loop over a map), the key and file orders, and the selection flag |
| `Preview` | src/components/Preview.js | the `p`/`code` component choice and a class for a diagram container's `innerHTML` |
| `GeneratePdf` | functions/generatePDF.js | the mermaid fence scan and replace loop, and the request handler |
| `Auth` | src/components/Auth.js | the friendly error texts, the form schema, and a class for the form state |

Two shared modules support them. `Wrappers` holds `Option`. `Text` models the JavaScript string operations the sources use:

- `split` and `join` on a character;
- `trim` over the JavaScript whitespace set;
- `indexOf` and `replace` with a string pattern;
- `String(n)`, `padStart`, and code-unit string order.

The external world enters as parameters: prompt answers, service outcomes, rasterisation results, the diagram renderer's answers, uuids, and so on.

Behaviour of the code worth knowing:

- **Blank lines.** `processMarkdown` replaces every whitespace-only line by `&nbsp;`, diagram fences included, and leaves every other line as it is.
- **Export order.** The PDF export places every paragraph first and then every diagram, whatever their order in the document.
- **Diagram renders are guarded by the ref.** A `MermaidDiagram` render writes its result only while the container ref is still set. `Preview` builds its `code` component afresh on every render, so React remounts the diagram each time: the old container's ref becomes null and its late result is dropped, while the new container gets its own render (`Preview.Remount`). Only within one mounted diagram whose `code` prop changed would a late render for the old code win (`Preview.OutOfOrderRenders`); in this application that prop does not change on a mounted diagram.
- **The url finding's column.** The empty-url finding is reported at `match.index + match[1].length + 3`. In the same 1-based columns as the text finding, that is the column of the `(`, one column before the url itself (`MarkdownLinter.ColumnsOnLine`).
- **A failed cleanup replaces twice.** In `processMermaidDiagrams` the svg is substituted before `fs.rmdir` runs. If `rmdir` throws, the `catch` also replaces the first remaining occurrence of the match with the error paragraph. With two identical fences, the first becomes the svg and the second the error paragraph. `GeneratePdf.Substitute` models this as its own outcome.
- **Export does not wait for diagrams.** The export reads whatever the preview holds at that moment.
- **Unescaped fallback.** The fallback `<pre>${code}</pre>` inserts the diagram source unescaped.

## Model

| member | source | states |
|---|---|---|
| Text.TrimStart | src/utils/markdownUtils.js:4 | the result is a suffix of the input, what was dropped is whitespace, and the result does not start with whitespace |
| Text.TrimEnd | src/utils/markdownUtils.js:4 | the result is a prefix of the input, what was dropped is whitespace, and the result does not end with whitespace |
| Text.TrimEmptyIffBlank | src/utils/markdownUtils.js:4 | `trim()` is empty exactly when every character is JavaScript whitespace |
| Text.Split | src/utils/markdownUtils.js:3 | `split` gives at least one piece, and no piece holds the separator |
| Text.JoinSplit | src/utils/markdownUtils.js:3-5 | joining the pieces of a split gives back the text |
| Text.SplitWithoutSeparator | src/utils/markdownUtils.js:3 | text without the separator splits into itself alone |
| Text.SplitAfterPiece | src/utils/markdownUtils.js:3 | splitting `a + sep + t` gives `a`, then the pieces of `t` |
| Text.SplitJoin | src/utils/markdownUtils.js:3-5 | splitting the join of separator-free pieces gives back those pieces |
| Text.IndexOfFrom | functions/generatePDF.js:29 | the result is the first occurrence at or after the start, or none exists |
| Text.ReplaceFirstAt | functions/generatePDF.js:29 | `replace` with a string pattern rewrites only the first occurrence and keeps the text around it |
| Text.DigitChar | src/components/Sidebar.js:7 | a decimal digit character with the given value |
| Text.NatToString | src/components/Sidebar.js:7 | `String(n)` is digits only, with no leading zero |
| Text.PadStart | src/components/Sidebar.js:7 | `padStart` reaches the width, ends with the input, and fills the rest with the pad character |
| Text.LexLessIrreflexive | src/components/Sidebar.js:17 | no key compares below itself |
| Text.LexLessTransitive | src/components/Sidebar.js:17 | the key order is transitive |
| Text.LexLessTotal | src/components/Sidebar.js:17 | any two different keys are ordered one way or the other |
| Text.LexLessAppend | src/components/Sidebar.js:17 | strings compare by an equal-length head first, then by the rest |
| MarkdownUtils.PlaceholderIsNotBlank | src/utils/markdownUtils.js:4 | `&nbsp;` is not whitespace-only and holds no newline |
| MarkdownUtils.ProcessedLines | src/utils/markdownUtils.js:1-6 | the output has as many lines as the input, in order; each blank line becomes `&nbsp;` and every other line is kept exactly |
| MarkdownUtils.NoBlankOutputLine | src/utils/markdownUtils.js:4 | no output line is whitespace-only |
| MarkdownUtils.EmptyDocument | src/utils/markdownUtils.js:3-4 | `""` becomes `&nbsp;` |
| MarkdownUtils.NoBlankLineUnchanged | src/utils/markdownUtils.js:2-5 | a document without blank lines is returned unchanged |
| MarkdownUtils.Idempotent | src/utils/markdownUtils.js:2-5 | rewriting twice equals rewriting once |
| MarkdownLinter.HashRun | src/utils/markdownLinter.js:8 | the run length of leading `#` characters, maximal |
| MarkdownLinter.MatchHeading | src/utils/markdownLinter.js:7-10 | `/^(#+)(.*)$/` matches exactly when the line starts with `#` and has no line terminator; the groups are the whole `#` run and the rest |
| MarkdownLinter.FirstFrom | src/utils/markdownLinter.js:30 | the first index holding a character, or the end |
| MarkdownLinter.LinkAt | src/utils/markdownLinter.js:30 | a match at a position is `[text](url)`, with a non-empty text free of `]` and a non-empty url free of `)` |
| MarkdownLinter.LinkScan | src/utils/markdownLinter.js:30 | on an occurrence of `[text](url)` the two searches stop at its `]` and its `)` |
| MarkdownLinter.LinkAtOf | src/utils/markdownLinter.js:30 | once the searches stop there, the match holds the text and the url between them |
| MarkdownLinter.LinkAtComplete | src/utils/markdownLinter.js:30 | every such occurrence is the match at its position |
| MarkdownLinter.Exec | src/utils/markdownLinter.js:30-32 | `exec` from `lastIndex` finds the leftmost match, or there is none |
| MarkdownLinter.LintMarkdown | src/utils/markdownLinter.js:1-53 | the result is, line by line, the heading finding and then each link's findings |
| MarkdownLinter.CheckLine | src/utils/markdownLinter.js:5-50 | one callback appends exactly the findings of its line, numbered `index + 1` |
| MarkdownLinter.CheckHeading | src/utils/markdownLinter.js:7-25 | the heading check appends the line's heading finding, or nothing |
| MarkdownLinter.CheckLinks | src/utils/markdownLinter.js:30-47 | the `exec` loop appends the findings of every match, in match order |
| MarkdownLinter.Advance | src/utils/markdownLinter.js:32-47 | each loop turn moves `lastIndex` strictly forward and consumes one match's findings |
| MarkdownLinter.LintPrefixStep | src/utils/markdownLinter.js:5-47 | the findings of one more line keep the findings numbered and ordered by line |
| MarkdownLinter.LintPrefixNumbered | src/utils/markdownLinter.js:5-47 | the findings of the first `n` lines name lines 1 to `n`, in order |
| MarkdownLinter.LintPrefixLines | src/utils/markdownLinter.js:5-47 | every finding's line is between 1 and the number of lines, and findings are ordered by line |
| MarkdownLinter.LintLinesAndOrder | src/utils/markdownLinter.js:3-52 | the same for a whole document |
| MarkdownLinter.LinkErrorsOnLine | src/utils/markdownLinter.js:33-46 | link findings carry their line's number and a link reason |
| MarkdownLinter.MatchErrorsOnLine | src/utils/markdownLinter.js:33-46 | one match's findings carry the line's number and a link reason |
| MarkdownLinter.LineErrorsOnLine | src/utils/markdownLinter.js:5-47 | all of a line's findings carry its number |
| MarkdownLinter.HeadingErrorFirst | src/utils/markdownLinter.js:7-47 | a line has at most one heading finding, and it is its first finding |
| MarkdownLinter.HeadingNeedsSpace | src/utils/markdownLinter.js:11-16 | a heading without a space after the `#` run is reported at the column after the run |
| MarkdownLinter.HeadingNeedsContent | src/utils/markdownLinter.js:17-22 | a space followed only by whitespace is reported two columns after the run |
| MarkdownLinter.WellFormedHeading | src/utils/markdownLinter.js:7-24 | a space and then real text gives no heading finding |
| MarkdownLinter.HashRunOfMatch | src/utils/markdownLinter.js:8-10 | the hashes group is the whole leading `#` run |
| MarkdownLinter.NoHeadingErrorWithTerminator | src/utils/markdownLinter.js:8 | a line with a CR or another line terminator never gets a heading finding |
| MarkdownLinter.LinksOrdered | src/utils/markdownLinter.js:30-32 | matches lie inside the line, in order, without overlap |
| MarkdownLinter.ColumnsOnLine | src/utils/markdownLinter.js:33-46 | in 1-based columns the text finding points at the `[` and the url finding at the `(`, one column before the url |
| MarkdownLinter.MatchErrorsColumns | src/utils/markdownLinter.js:33-46 | a blank text is reported at column `index + 1` and a blank url at column `index + text.length + 3`, each exactly when blank, text first |
| MarkdownLinter.ToolbarEmptyLinkNotReported | src/utils/markdownLinter.js:30 | `[](url)` is not a match at all |
| MarkdownLinter.BlankLinkText | src/utils/markdownLinter.js:33-39 | `[ ](u)` gives exactly one finding, at column 1 |
| App.Successful | src/App.js:139-159 | the diagrams kept all rasterise; each one that rasterises is kept as often as it occurs, and none that fails |
| App.SuccessfulComplete | src/App.js:139-159 | every diagram whose rasterisation succeeds is kept |
| App.SuccessfulAppend | src/App.js:139-159 | the kept diagrams stay in document order: those of a concatenation are those of the first part, then those of the second |
| App.PdfDocument.constructor | src/App.js:133 | a new document has one page and nothing drawn |
| App.PdfDocument.AddPage | src/App.js:151 | one more page, nothing else changes |
| App.PdfDocument.Text | src/App.js:174 | a text block is drawn on the current page |
| App.PdfDocument.AddImage | src/App.js:155 | an image is drawn on the current page |
| App.ExportPdf | src/App.js:131-183 | the two loops end with the page count and placements of the layout function `Export` |
| App.TextsPlaced | src/App.js:163-177 | each paragraph adds one block of its line count, 10 from the left, in order, after what was there |
| App.PlaceDiagramDrawn | src/App.js:146-156 | a successful diagram is drawn across the page width between the margins, with the raster's aspect ratio |
| App.DiagramsPlaced | src/App.js:136-161 | each successful diagram adds one image, in order, after what was there |
| App.TextsBeforeDiagrams | src/App.js:179-180 | the export holds every paragraph block first, then every successful diagram |
| App.FailedDiagramsSkipped | src/App.js:157-159 | a failed diagram changes neither the cursor nor the page count |
| App.BreakSound | src/App.js:150-172 | the overflow rule keeps the layout sound and adds at most one page |
| App.TextsSound | src/App.js:163-177 | the paragraphs keep every placement on an existing page and inside the margins |
| App.DiagramsSound | src/App.js:136-161 | the same for the diagrams, when the page is wider than its margins |
| App.ExportSound | src/App.js:131-183 | the whole export never draws on a missing page or across a margin when the block fits a page |
| App.FileNameToSave | src/App.js:102-106 | a chosen file name is never empty |
| App.FileNameChoice | src/App.js:102-106 | a save goes ahead exactly when no prompt is needed or the answer is non-empty; a prompted save uses the answer, any other the current file |
| App.SaveKeepsNamedFile | src/App.js:103 | "Save" of a named document never prompts and keeps its name; "Save as" always prompts |
| App.AppState.HandleSave | src/App.js:100-117 | the prompt count, the `saveDocument` call, the state updates and the alert of each outcome, including a failing list reload after a successful save |
| RichEditor.Splice | src/components/RichEditor.js:76-80 | the new document is the text before the selection, the prefix, the selected text, the suffix, and the rest |
| RichEditor.Unsplice | src/components/RichEditor.js:76-80 | cutting the prefix and suffix back out gives the old document |
| RichEditor.ReselectsOriginal | src/components/RichEditor.js:81 | the new selection spans exactly the originally selected text, between prefix and suffix |
| RichEditor.CaretBetweenAffixes | src/components/RichEditor.js:76-81 | with an empty selection, the caret lands between prefix and suffix |
| RichEditor.AffixShapes | src/components/RichEditor.js:89-94 | every button has a prefix; bold and italic wrap with the same marker; the list buttons only prefix |
| RichEditor.EmptyLinkNotLinted | src/components/RichEditor.js:91 | the link button on an empty selection writes `[](url)`, which the linter does not match |
| RichEditor.ClampedCaret | src/components/RichEditor.js:59-62 | the caret kept by the sync lies inside the new value and is unchanged when it fits |
| RichEditor.SyncCaretAsWritten | src/components/RichEditor.js:59-62 | the caret as written is accepted exactly when the old head fits the new value |
| RichEditor.ShorterValueThrows | src/components/RichEditor.js:59-62 | a caret at the end of `abc` does not fit the value `a` |
| RichEditor.ClampedAgreesWhenInRange | src/components/RichEditor.js:59-62 | whenever the code as written does not throw, the clamped caret is the same |
| RichEditor.Editor.constructor | src/components/RichEditor.js:16-19 | before mounting there is no view and nothing has been emitted |
| RichEditor.Editor.Mount | src/components/RichEditor.js:27-50 | the mount gives a view over `value` and marks the editor ready |
| RichEditor.Editor.HandleUpdate | src/components/RichEditor.js:21-25 | `onChange` gets the document exactly for updates that changed it |
| RichEditor.Editor.InsertMarkdown | src/components/RichEditor.js:72-84 | without a view nothing happens; otherwise the splice, the new selection, focus, and one `onChange` when the document changed |
| RichEditor.Editor.SyncValue | src/components/RichEditor.js:57-65 | when ready and `value` differs, the document becomes `value`, the caret is kept (clamped) and `onChange(value)` fires; otherwise nothing changes |
| RichEditor.PressButton | src/components/RichEditor.js:89-94 | a toolbar press on a mounted editor always reports the new document once |
| Sidebar.TwoDigitsBelow100 | src/components/Sidebar.js:7 | `padStart(2, '0')` of a number below 100 is its two digits |
| Sidebar.Digits | src/components/Sidebar.js:7 | a fixed-width digit field has exactly that width |
| Sidebar.DigitsOrder | src/components/Sidebar.js:17 | equal-width digit strings compare like their numbers |
| Sidebar.FourDigitYear | src/components/Sidebar.js:7 | a four-digit year prints as four digits |
| Sidebar.DigitsInjective | src/components/Sidebar.js:17 | equal-width digit strings are equal exactly when their numbers are |
| Sidebar.MonthDayOrder | src/components/Sidebar.js:17 | `-MM-DD` compares month first, then day |
| Sidebar.FieldOrder | src/components/Sidebar.js:17 | a key compares year, then month, then day |
| Sidebar.DigitsSameOrder | src/components/Sidebar.js:17 | digit strings of one width compare both ways like their numbers and have equal lengths |
| Sidebar.KeyFieldsOrder | src/components/Sidebar.js:17 | a key whose fields compare like numbers compares like those numbers, year first |
| Sidebar.YearFieldOrder | src/components/Sidebar.js:7 | four-digit years print as equal-length strings that compare like the years |
| Sidebar.PadFieldOrder | src/components/Sidebar.js:7 | padded fields below 100 compare like their numbers |
| Sidebar.DateKeyFieldsOrder | src/components/Sidebar.js:6-17 | a date key whose fields compare like the date's numbers compares like the dates |
| Sidebar.KeyOrderIsDateOrder | src/components/Sidebar.js:6-17 | one key sorts below another exactly when its date is earlier |
| Sidebar.FilesWithKey | src/components/Sidebar.js:8-11 | a group holds only files of its key, drawn from the list |
| Sidebar.GroupFiles | src/components/Sidebar.js:5-13 | the `reduce` yields the keys in first-seen order, and each key's group is its files in input order |
| Sidebar.GroupStep | src/components/Sidebar.js:8-11 | one file creates its group on first sight and is pushed onto it; other groups are untouched |
| Sidebar.KeyListed | src/components/Sidebar.js:8-10 | a key is listed exactly when some file has it |
| Sidebar.DistinctKeysDistinct | src/components/Sidebar.js:8-10 | no key is listed twice |
| Sidebar.TotalSizeSnoc | src/components/Sidebar.js:8-11 | one more file adds one to its key's group |
| Sidebar.CountDistinct | src/components/Sidebar.js:8-10 | a distinct key list names a key at most once |
| Sidebar.Partition | src/components/Sidebar.js:5-13 | the group sizes add up to the number of files |
| Sidebar.FileInItsGroup | src/components/Sidebar.js:6-11 | each file is in its key's group and in no other |
| Sidebar.InsertKeySorted | src/components/Sidebar.js:17 | inserting a key keeps the keys descending and adds exactly that key |
| Sidebar.SortKeysSorted | src/components/Sidebar.js:17 | the group order is strictly descending and a permutation of the keys |
| Sidebar.InsertFilePermutes | src/components/Sidebar.js:23 | inserting a file adds exactly that file |
| Sidebar.InsertFileSorted | src/components/Sidebar.js:23 | inserting keeps the files newest first |
| Sidebar.InsertFileStable | src/components/Sidebar.js:23 | inserting keeps files with equal timestamps in order, the new one last |
| Sidebar.SortFilesSorted | src/components/Sidebar.js:23 | the file sort is newest first, a permutation, and stable |
| Sidebar.Item | src/components/Sidebar.js:26-28 | an item is selected exactly when its name is the open file's name |
| Sidebar.ViewOrdered | src/components/Sidebar.js:17-35 | the groups are the distinct keys, descending; each lists its files sorted, with the open file marked |
| Preview.PreviewSource | src/components/Preview.js:44-67 | the rendered markdown has no blank line and equals the input when the input had none |
| Preview.RenderParagraph | src/components/Preview.js:52-57 | a paragraph starting with the text `&nbsp;` becomes an empty paragraph holding only `&nbsp;`; any other keeps its children, with the paragraph class |
| Preview.EmptyParagraphDropsRest | src/components/Preview.js:53-54 | whatever follows the placeholder is dropped |
| Preview.WordRun | src/components/Preview.js:59 | the greedy `\w+` takes the maximal run of word characters |
| Preview.FirstLanguageAt | src/components/Preview.js:59 | `exec` finds the leftmost position where `language-` is followed by a word character |
| Preview.LanguageCapture | src/components/Preview.js:59 | the capture is a non-empty word, missing exactly when the pattern matches nowhere; otherwise it is the whole word run after the leftmost `language-` match |
| Preview.RenderCode | src/components/Preview.js:58-64 | a code block is a diagram of its trimmed text exactly when the first language is `mermaid`; otherwise the code element keeps class and children |
| Preview.DiagramCodeTrimmed | src/components/Preview.js:61 | a diagram's source neither starts nor ends with whitespace |
| Preview.LeadingLanguage | src/components/Preview.js:59-60 | a class `language-` + word reports that whole word, so `language-mermaidjs` is not a diagram |
| Preview.PlaceholderHtml | src/components/Preview.js:21-23 | the placeholder is an empty div whose id is `mermaid-` followed by the uuid, which reads back from the text |
| Preview.PlaceholderInjective | src/components/Preview.js:21-23 | different uuids give different placeholders |
| Preview.FallbackHtml | src/components/Preview.js:31 | the fallback is the source verbatim between `<pre>` and `</pre>` |
| Preview.DiagramContainer.constructor | src/components/Preview.js:40 | the container starts attached and empty |
| Preview.DiagramContainer.Detach | src/components/Preview.js:16 | unmounting clears the ref and keeps the content |
| Preview.DiagramContainer.BeginRender | src/components/Preview.js:20-23 | with the ref set, the placeholder is written; otherwise nothing happens |
| Preview.DiagramContainer.CompleteRender | src/components/Preview.js:24-33 | the svg or the fallback is written, and only while the ref is set |
| Preview.RenderDiagram | src/components/Preview.js:19-37 | a detached container is untouched; an unmount mid-render leaves the placeholder; otherwise the svg or the fallback is shown |
| Preview.OutOfOrderRenders | src/components/Preview.js:18-38 | on one mounted container whose `code` changes, two renders finishing out of order leave the result that arrived last |
| Preview.Remount | src/components/Preview.js:15-41 | when `Preview` renders again mid-render, the old container is detached and keeps its placeholder, and the new container ends with the new svg or fallback whichever render answers last |
| GeneratePdf.FenceEnd | functions/generatePDF.js:13 | a fence opened at a position ends at the first closing marker after the opening line |
| GeneratePdf.NextFence | functions/generatePDF.js:13-17 | `exec` finds the leftmost fence at or after `lastIndex` |
| GeneratePdf.FenceShape | functions/generatePDF.js:13-18 | a match is the opening line, the source and the closing marker, and the source holds no closing marker |
| GeneratePdf.FencesOrdered | functions/generatePDF.js:13-17 | the matches are fences, left to right, without overlap |
| GeneratePdf.Substitute | functions/generatePDF.js:19-35 | one turn replaces the first occurrence of the match by the svg div, by the error paragraph, or, when cleanup fails after the svg replace, by the svg div and then the next occurrence by the error paragraph |
| GeneratePdf.ProcessMermaidDiagrams | functions/generatePDF.js:12-39 | the loop's result is the substitution of each match in turn, on the markdown rewritten so far |
| GeneratePdf.NoFenceUnchanged | functions/generatePDF.js:14-38 | markdown without a fence is returned unchanged |
| GeneratePdf.NoOpeningUnchanged | functions/generatePDF.js:13-17 | markdown without an opening line is returned unchanged |
| GeneratePdf.CopyOfFenceIsFence | functions/generatePDF.js:13 | any copy of a fence's text opens a fence |
| GeneratePdf.FirstReplacementInPlace | functions/generatePDF.js:29-34 | the first replacement lands on the first fence itself |
| GeneratePdf.SingleFence | functions/generatePDF.js:12-39 | with one fence, it is replaced where it stands and the rest is kept; after a failed cleanup the error paragraph then replaces the first remaining copy |
| GeneratePdf.UnescapeChar | functions/generatePDF.js:92 | an escaped character reads back as itself |
| GeneratePdf.EscapeRoundTrip | functions/generatePDF.js:92 | the string escape of `JSON.stringify` reads back as the original |
| GeneratePdf.ErrorBodyCarriesMessage | functions/generatePDF.js:88-93 | the 500 body is the fixed error member plus a `details` member that reads back as the message |
| GeneratePdf.Handler | functions/generatePDF.js:41-99 | non-POST gets 405 `Method Not Allowed`; a failed parse or a failed later step gets `Failure` with that step's own message; 200 exactly for a parsed body, a produced PDF and a clean close; `close` is called exactly when a browser was launched, and a throwing `close` rejects the handler with its message whatever the `try` or `catch` returned; the substituted markdown is what goes to the converter |
| GeneratePdf.Closing | functions/generatePDF.js:94-98 | with a launched browser the reply stands unless `close` throws, which rejects with `close`'s message |
| GeneratePdf.FailedPostReported | functions/generatePDF.js:88-93 | a POST failing at any step, with a clean close, gets 500 whose `details` reads back as the failing step's message, or no `details` when the exception had none |
| Auth.ErrorTextsDistinguish | src/components/Auth.js:38-51 | unknown messages get the default text, and the four known ones get four different texts |
| Auth.FirstLine | src/components/Auth.js:24 | the text before the first line terminator |
| Auth.PasswordRule | src/components/Auth.js:21-24 | a password is accepted exactly when it has 8 characters and its first line has a lowercase letter, an uppercase letter and a digit; empty and short ones get their own messages |
| Auth.FirstLineDecides | src/components/Auth.js:24 | only the text before the first line break counts for the pattern |
| Auth.ValidFormFields | src/components/Auth.js:19-25 | a submitted form has an email and a password of 8 characters with all three kinds of character |
| Auth.AuthForm.constructor | src/components/Auth.js:28-32 | the form starts in login mode with nothing shown |
| Auth.AuthForm.BeginSubmit | src/components/Auth.js:53-56 | loading is set, the message cleared, and the request sent in the submitting render's mode |
| Auth.AuthForm.FinishSubmit | src/components/Auth.js:57-79 | an error sets the mapped text; otherwise sign-up success or one `onLogin` call; loading ends |
| Auth.AuthForm.Submit | src/components/Auth.js:53-80 | nothing happens unless the schema accepts the form; otherwise the whole `onSubmit` |
| Auth.AuthForm.ReturnToLogin | src/components/Auth.js:102-105 | both the notice and sign-up mode are cleared |
| Auth.AuthForm.ToggleMode | src/components/Auth.js:189-192 | the mode flips and the message is cleared |
| Auth.AuthForm.ToggleShowPassword | src/components/Auth.js:82-84 | the visibility flag flips |
| Auth.View | src/components/Auth.js:90-198 | the notice shows exactly after a sign-up; the alert shows exactly for a message; each field's helper text is react-hook-form's message for it; the button is disabled exactly while loading; the title names the mode |
| Auth.ValidatedFieldsShown | src/components/Auth.js:19-25 | after validation a field shows a message exactly when the schema rejects it, the required message for an empty email, and no field message at all exactly when the form is valid |
| Auth.SettledButton | src/components/Auth.js:181-183 | after a submission the button is enabled and shows the mode |

## Left out

- Browser and service I/O enter as parameters or as records in the state:
  - `prompt`, `alert` and local storage;
  - `saveDocument`, `loadDocumentList` and the Supabase auth calls;
  - `pdf.save`, `html2canvas`, `mermaid.render`, `uuid`;
  - the temporary files, `npx mmdc` and the browser of the PDF function.
- Library internals are not modelled: jsPDF, CodeMirror beyond its document and main selection, react-markdown's parsing into components, `marked`, puppeteer, yup and react-hook-form.
- `pdf.splitTextToSize` becomes a given line count per paragraph. The page size becomes a given `Page`. jsPDF's floating point becomes exact reals.
- App.js handlers other than `handleSave` and `handleExportPDF` are not part of this model. That includes `handleFileSelect`, the session effects, and the markdown change handler.
- `App.ExportSound`: requires a page wider than its two side margins. On a narrower page a diagram's drawn width is negative.
- `Sidebar.FileEntry` carries each file's local calendar date as fields. The time-zone conversion of `new Date(updated_at)` and the `toLocaleDateString` / `toLocaleTimeString` display are left out.
- `Sidebar.KeyOrderIsDateOrder`: proved for four-digit years only. Other years give keys of other widths.
- Time comparator edge cases: `localeCompare` becomes code-unit order, and timestamps are integers, so an invalid date (`NaN` in the comparator) is not modelled.
- `Array.prototype.sort` sorts the group array in place; it is modelled as a stable functional insertion sort.
- Strings are sequences of Dafny characters. The source counts UTF-16 code units, which is the same for text without surrogate pairs.
- `RichEditor.Editor`: the view's `destroy` on unmount and `useImperativeHandle` (`getEditor`, `focus`) are left out. The selection is the main range only.
- `Preview.RenderParagraph`: compares the first child with the text `&nbsp;` as the component receives it. Whether react-markdown hands over the entity undecoded is library behaviour that is not modelled.
- `Preview.RenderDiagram`: models one unmount point per render and not unbounded interleavings. `Preview.Remount` models one re-render of `Preview` during a diagram render, not a series of them.
- `GeneratePdf.ProcessMermaidDiagrams`: the renderer is a function of the diagram source, so repeated sources get the same answer. Its answer is one of three outcomes: rendered, rendered but the cleanup failed, or failed earlier.
- `App.Throws`: a raster with no area is taken to fail. The canvas then encodes to `data:,`, and jsPDF's `getImageProperties` throws on that. This is browser and jsPDF behaviour outside this model, assumed rather than derived.
- Replacement text with `$` patterns: the svg and error texts are replaced as given, while `String.replace` would interpret `$&`, `$1` and similar patterns in them.
- `GeneratePdf.SingleFence`: the in-place result is stated for the first fence and for one-fence documents. For several fences the model keeps the code's first-occurrence replacement on the partly rewritten text, with no lemma that every fence is replaced where it stands.
- `GeneratePdf.EscapeChar`: lone surrogates, which `JSON.stringify` also escapes, are not representable here. The `JSON.parse` of the request body becomes a given result.
- `Auth.EmailError`: the result of yup's `email()` format check is a given boolean.
- `Auth.PasswordError`: assumes the field shows the first failing rule in declaration order (required, `min`, pattern).
- `Auth.View`: which field messages react-hook-form holds at a given moment (none before the first submit, then revalidation as the user types) is a parameter; `Auth.ValidatedFieldsShown` states them right after a validation.
- `handleMouseDownPassword` is left out; it only calls `preventDefault`.

## Findings

| source | as written | input that shows it | evidently intended | confidence | as-written member | corrected member |
|---|---|---|---|---|---|---|
| src/components/RichEditor.js:59-62 | the value sync dispatches the new document with the old caret `head`; CodeMirror rejects a selection outside the new document with a `RangeError` | caret at the end of the document `abc` (head 3), then the parent pushes the value `a` (for instance when opening a shorter file) | replace the document and keep the caret where it still fits, otherwise at the end of the new document | medium, not executed | RichEditor.SyncCaretAsWritten, RichEditor.ShorterValueThrows | RichEditor.ClampedCaret, RichEditor.Editor.SyncValue |
