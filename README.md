# notedown, modelled in Dafny

notedown converts between markdown documents and IPython/Jupyter notebooks.
This project models its core and proves properties of the model:

- the `MarkdownReader` in `notedown/notedown.py`:
  - `parse_blocks` cuts the text into code blocks and the text between them;
  - `process_code_block` applies the match policy, the input/output role, captions, the language and its magic;
  - `create_cells` and `to_notebook` assemble the cells;
  - `strip` clears outputs.
- the pure filters of `MarkdownWriter`:
  - the attribute strings and the fenced input and output blocks;
  - `dequote`;
  - the blank-line clean-up in `writes`.
- the choices `notedown/main.py` makes:
  - `ftdetect`;
  - the input and output formats;
  - the template;
  - the precode;
  - where the output goes.
- the first reader, `notedown.py` at the top of the repository:
  - its GitHub-flavoured code pattern and how `finditer` scans with it;
  - its alternating `parse_blocks`, `to_notebook` and `new_cell`.

The pattern of fenced code blocks (`fenced_regex`) and the old `gfm_regex` are modelled at the character level. Each is a function giving the match at a position, built from smaller scans (line ends, runs of a character, the first closing line), and lemmas state what the regular expression promises. The indented pattern is not written out. The reader's segmentation is stated over any list of non-empty, ordered, disjoint matches, which is what `finditer` yields. The scan of the fenced pattern (`Fences.ScanFenced`) produces one such list. It uses the corrected fenced matcher of the first finding below, so on a text like "````\ncode\n\n```\n" it reports no match where the pattern as written reports one.

Modules and files:

| File | Contents |
|---|---|
| `Wrappers.dfy` | `Option` and `Result` |
| `Strings.dfy` | Python string operations the code relies on: `strip`, `split`, `join`, `splitlines`, `list.remove`, `int()` and `str()` of integers |
| `Notebook.dfy` | attributes, cells and the exceptions that escape the reader |
| `Fences.dfy` | the fenced code pattern |
| `Segmenter.dfy` | `parse_blocks` and the block pre-processors |
| `Classifier.dfy` | `process_code_block`, `CodeMagician.magic` and `get_caption_comments` |
| `Assembler.dfy` | `create_code_cell`, `create_cells`, `to_notebook` and `strip`, the last as a class whose method updates its cells |
| `Writer.dfy` | the writer's filters and its clean-up |
| `Cli.dfy` | the decisions of `main` |
| `Legacy.dfy` | the first reader |

Outside code is handled as follows:
- Parsing and rendering of Pandoc attributes, `json.loads` and `json.dumps` are function parameters.
- Pandoc attributes are a record of id, classes and key/value pairs.
- The language that `set.pop()` picks is chosen nondeterministically, and every property is proved for any choice.
- Where the source mutates in place, the model is imperative and is proved against a specification function:
  - the list that `create_cells` builds;
  - the slot assignments of the old `parse_blocks`;
  - the caption loop;
  - the outputs that `strip` clears.

## Model

| member | source | states |
|---|---|---|
| Strings.LStrip | notedown/notedown.py:667 | the result is a suffix of the input; every character removed lies in the set, and the first one kept does not |
| Strings.RStrip | notedown/notedown.py:667 | the result is a prefix of the input; every character removed lies in the set, and the last one kept does not |
| Strings.StripChars | notedown/notedown.py:165 | `strip(chars)`; LStrip, RStrip and StripCharsNoop state it |
| Strings.Strip | notedown/notedown.py:187 | `strip()`; StripMeaning states it |
| Strings.StripMeaning | notedown/notedown.py:187 | `strip()` leaves no whitespace at either end and is idempotent |
| Strings.StripCharsNoop | notedown/notedown.py:165 | a string with no stripped character at either end is its own strip |
| Strings.Split | notedown/notedown.py:177 | `split` yields at least one piece, and no piece contains the separator |
| Strings.JoinSplit | notedown/main.py:257 | joining the pieces of a split with the separator gives back the string |
| Strings.SplitJoin | notedown/main.py:257 | splitting a join of separator-free pieces gives back the pieces |
| Strings.SplitAppend | notedown/notedown.py:177 | a separator between two strings splits them into their pieces, concatenated |
| Strings.PieceInSplit | notedown/notedown.py:177 | a separator-free stretch bounded by separators or the ends is one of the pieces |
| Strings.SplitLinesFirst | notedown/notedown.py:658 | a prefix free of line boundaries begins the first line of `splitlines` |
| Strings.SplitLines | notedown/notedown.py:658 | `splitlines()`; SplitLinesFirst states it |
| Strings.ShowInt | notedown/notedown.py:512 | `str()` of an integer; ParseShowInt states the round trip |
| Strings.ParseInt | notedown/notedown.py:310 | `int()` of a string; ParseShowInt and ParseSignedDigits state it |
| Strings.IndexOf | notedown/notedown.py:215 | the index of the first occurrence |
| Strings.RemoveFirst | notedown/notedown.py:215 | `list.remove` removes the first occurrence: the list is the elements before it followed by those after it, in order, so the multiset loses one copy |
| Strings.ShowNat | notedown/notedown.py:512 | `str` of a natural is a non-empty run of digits |
| Strings.ShowNatValue | notedown/notedown.py:512 | the digits of `str(n)` have the value `n` |
| Strings.ParseShowInt | notedown/notedown.py:310 | `int(str(n)) == n` for every integer, including negative ones |
| Strings.ParseSignedDigits | notedown/notedown.py:310 | `int()` of an optional minus sign and digits is their signed value |
| Fences.LineEndMeaning | notedown/notedown.py:81-82 | the line end is the first newline at or after the position, or the end of the text |
| Fences.RunLengthMeaning | notedown/notedown.py:79 | the run is the longest stretch of one character |
| Fences.OccursAtSlice | notedown/notedown.py:85 | a back-reference to the fence occurs at a position exactly when the slice there equals it |
| Fences.FindClose | notedown/notedown.py:83-85 | the lazy content group stops at a closing fence line followed by a newline |
| Fences.FindCloseMeaning | notedown/notedown.py:83-85 | the close found is the first line at or after the start that consists of the fence, and none means no such line exists |
| Fences.FindCloseAt | notedown/notedown.py:83-85 | the first closing line is the one found |
| Fences.DropBlanksIsLStrip | notedown/notedown.py:80 | skipping `[ \t]*` before the attributes is a left strip of blanks and tabs |
| Fences.TryFence | notedown/notedown.py:77-86 | a match with a fence of length k starts at the position, its fence is the text there, and it ends at a line start |
| Fences.TryFenceCloses | notedown/notedown.py:83-85 | the match ends on the first line after the opening line that consists of the fence |
| Fences.TryFenceGroups | notedown/notedown.py:80-84 | the groups are the attributes after the blanks on the opening line and the text strictly between the opening and closing lines |
| Fences.TryFenceMissing | notedown/notedown.py:77-86 | no match with this fence exactly when the opening line is the last line or no later line closes it |
| Fences.OpeningRun | notedown/notedown.py:78-79 | at a line start the fence run is at least three backticks or tildes, otherwise nothing |
| Fences.FencedAtAsWritten | notedown/notedown.py:77-86 | with backtracking into the fence, any fence of three characters or more up to the opening run may be used |
| Fences.AsWrittenLongestClosingFence | notedown/notedown.py:79 | backtracking picks the longest fence that is closed: no longer fence has a closing line |
| Fences.FencedAt | notedown/notedown.py:77-86 | a fenced match starts at the position, has a fence of three or more, and ends at a line start |
| Fences.FencedAtMeaning | notedown/notedown.py:77-86 | the corrected match uses exactly the full opening run, and any line starting with such a run is tried with it |
| Fences.AsWrittenAgreesWhenClosed | notedown/notedown.py:77-86 | where the full fence is closed, the pattern as written and the corrected pattern agree |
| Fences.ScanFencedOrdered | notedown/notedown.py:264 | the matches `finditer` reports lie inside the text, in order, without overlap |
| Fences.ScanFenced | notedown/notedown.py:264 | models `finditer` with the fenced pattern: tried at each line start, resuming where a match ends; its properties are ScanFencedOrdered and ScanFencedLeftmost |
| Fences.ScanFencedLeftmost | notedown/notedown.py:264 | each match reported is the one the matcher finds at its start, and no position before the first match, between two matches or after the last one opens a block |
| Fences.NoneInsideLine | notedown/notedown.py:79 | the pattern is anchored by `^` under MULTILINE: no block opens inside a line |
| Fences.TryLengths | notedown/notedown.py:79 | the greedy fence group backtracks from the whole opening run down to three characters; a match keeps its start and uses at most the run |
| Fences.LongerFenceCloses | notedown/notedown.py:79-85 | in "````\ncode\n\n```\n" no line closes the four-backtick fence, while the three-backtick line closes three |
| Fences.ShorterFenceClose | notedown/notedown.py:83-85 | in a `~~~~` block the first closing line is the `~~~~` line, not the `~~~` line before it |
| Fences.CloseInsideIsLine | notedown/notedown.py:83-85 | a closing line met inside written content is one of the content's lines |
| Fences.WrittenBlockReadsBack | notedown/notedown.py:465-470 | a block written as three backticks, attributes, the source and three backticks reads back as exactly those attributes and that source, provided no source line is the fence |
| Fences.ShorterFenceStaysContent | notedown/notedown.py:85 | a shorter fence line inside a longer fence is content |
| Fences.LongerFenceClosedByShorter | notedown/notedown.py:79-85 | with no closing four-backtick line, the pattern as written closes a four-backtick block at a three-backtick line and puts a backtick into the attributes |
| Segmenter.NewCodeBlock | notedown/notedown.py:147-154 | a code block holds the groups of its match over the prototype's defaults, with None for groups that took no part |
| Segmenter.DedentLines | notedown/notedown.py:175-178 | each line loses one leading copy of the indent if it has one, and no other line changes |
| Segmenter.DedentMeaning | notedown/notedown.py:175-178 | dedenting keeps the number of lines; indented lines lose one indent and other lines are unchanged |
| Segmenter.PreProcessCode | notedown/notedown.py:169-178 | only a block with a non-empty indent changes, and only its content, which becomes its dedented indented text |
| Segmenter.GapInside | notedown/notedown.py:269-271 | each text gap runs from the end of one match to the start of the next, inside the text |
| Segmenter.TextBlocks | notedown/notedown.py:277-278 | one stripped text block per gap, at the gap's start |
| Segmenter.CodeBlocks | notedown/notedown.py:274-275 | one pre-processed code block per match, at the match's start |
| Segmenter.SortByPosPermutes | notedown/notedown.py:289 | the stable sort is a permutation of text and code blocks |
| Segmenter.SortByPosSorted | notedown/notedown.py:289 | the sorted list is ordered by position |
| Segmenter.SortByPosTakesTurns | notedown/notedown.py:289 | when text and code positions take turns, the sort interleaves them, text first |
| Segmenter.TextAndCodeTakeTurns | notedown/notedown.py:269-289 | every code block lies between the text block before it and the one after it |
| Segmenter.KeepNonEmpty | notedown/notedown.py:293 | exactly the blocks with content are kept |
| Segmenter.ParseBlocks | notedown/notedown.py:250-295 | models `parse_blocks` over the matches; its properties are ParseBlocksOrder, ParseBlocksMembers and ParseBlocksText |
| Segmenter.SortByPos | notedown/notedown.py:289 | the stable sort by position as a merge, text first on ties; its properties are SortByPosPermutes, SortByPosSorted and SortByPosTakesTurns |
| Segmenter.ParseBlocksOrder | notedown/notedown.py:250-295 | `parse_blocks` is text, code, text, … in text order, with empty blocks dropped |
| Segmenter.ParseBlocksMembers | notedown/notedown.py:250-295 | a block is returned exactly when it has content and is one of the text or code blocks |
| Segmenter.ParseBlocksText | notedown/notedown.py:277-293 | every text block returned is a stripped gap, non-empty and without whitespace at its ends |
| Segmenter.GapsPartition | notedown/notedown.py:269-271 | gaps and matches from gap k onward tile the rest of the text |
| Segmenter.WholeTextPartition | notedown/notedown.py:269-271 | the gaps and the matches, concatenated in order, give back the whole text |
| Segmenter.ToMatches | notedown/notedown.py:264 | one match per fenced match, with the same span |
| Segmenter.FencedMatches | notedown/notedown.py:264 | the fenced matches are non-empty, ordered, disjoint and carry their groups together |
| Segmenter.FencedCodeBlocks | notedown/notedown.py:274-275 | a fenced match becomes a code block with its content, its raw text and its attributes, and with no indent |
| Classifier.DecideDemotes | notedown/notedown.py:196-208 | a block is demoted exactly when `fenced` meets an indented block, `strict` meets a block without `input`, or another policy other than `all` names a class the block lacks |
| Classifier.DemoteRawAsWritten | notedown/notedown.py:204-208 | demotion raises KeyError when there is no `raw` key, and gives a markdown block whose content is None when `raw` took no part in the match |
| Classifier.DemoteRawText | notedown/notedown.py:204-208 | the corrected demotion keeps the raw text of a fenced block and the indented text of an indented block; a missing key is still an error |
| Classifier.IndentedBlockLosesText | notedown/notedown.py:204-205 | under `strict`, an indented block becomes markdown with no content as written, and keeps its text when corrected |
| Classifier.MagicAddsOneLine | notedown/notedown.py:558-565 | the magic is one line, `%%R` for both R aliases and `%%` plus the alias otherwise, and the content's lines follow it unchanged |
| Classifier.ValidChoiceAfterRole | notedown/notedown.py:213-215 | removing the `input` class leaves the same languages to choose from |
| Classifier.WithCaption | notedown/notedown.py:219-226 | setting a caption never changes the classes |
| Classifier.Decide | notedown/notedown.py:196-208 | the match policy's verdict; DecideDemotes states when it demotes |
| Classifier.TakeRole | notedown/notedown.py:210-217 | the role and the classes left; SetRole and TakeRoleRemoves state them |
| Classifier.Magic | notedown/notedown.py:558-565 | `CodeMagician.magic`'s first line; MagicAddsOneLine states it |
| Classifier.LanguageOf | notedown/notedown.py:228-248 | python when no language is found; other languages get their magic line when magic is on |
| Classifier.KeptBlock | notedown/notedown.py:210-248 | the classification of a kept block; KeptRole, KeptClasses, KeptLanguage, KeptContent and KeptCaption state its parts |
| Classifier.ClassifyWith | notedown/notedown.py:189-248 | `process_code_block` for one language choice, with the corrected demotion; TextPassesThrough, PolicyDecides and the Kept lemmas state its cases |
| Classifier.FigLabel | notedown/notedown.py:660 | stripping `#` and spaces from a `## fig:` line leaves a label starting with `fig:` |
| Classifier.ProcessCodeBlock | notedown/notedown.py:189-248 | the method's result is the classification for the language it picked, and that language is a valid choice |
| Classifier.ProcessKept | notedown/notedown.py:210-248 | a kept block gets its role, caption, language and magic for a valid language choice |
| Classifier.SetRole | notedown/notedown.py:210-217 | `output` with `json` gives an output block; otherwise the block is input and one `input` class is removed |
| Classifier.SetCaption | notedown/notedown.py:219-226 | the caption comments override the id and the key `caption` when they are found |
| Classifier.PopLanguage | notedown/notedown.py:228-235 | the language is a class that is a known language, removed once, or none when there is no such class |
| Classifier.DemoteToMarkdown | notedown/notedown.py:204-208 | a demoted block is markdown holding its raw or indented text |
| Classifier.CaptionRunStops | notedown/notedown.py:663-667 | the caption lines are the leading lines that begin with `# ` and not with `##`, and the line after them does not |
| Classifier.CaptionComments | notedown/notedown.py:655-656 | there is an id and a caption exactly when the content starts with `## fig:` |
| Classifier.CaptionCommentsShape | notedown/notedown.py:655-672 | the id starts with `fig:` and the caption is enclosed in double quotes |
| Classifier.GetCaptionComments | notedown/notedown.py:641-672 | the method with its loop computes the id and caption of the specification |
| Classifier.CollectCaption | notedown/notedown.py:662-667 | the loop collects the cleaned leading caption lines and stops at the first other line |
| Classifier.TextPassesThrough | notedown/notedown.py:191-192 | a text block is returned unchanged |
| Classifier.PolicyDecides | notedown/notedown.py:196-208 | the result is markdown exactly when the policy demotes the block and a text is available, an error exactly when it demotes without a `raw` key, and code under `all` |
| Classifier.KeptRole | notedown/notedown.py:210-235 | the role is output exactly for `output` plus `json`; the classes lose exactly the language and the `input` marker |
| Classifier.KeptClasses | notedown/notedown.py:210-235 | the classes left are those after the role with the chosen language removed once |
| Classifier.TakeRoleRemoves | notedown/notedown.py:211-217 | the role step removes one `input` class and nothing else |
| Classifier.KeptLanguage | notedown/notedown.py:228-246 | the language is a known one, python when none was found, and otherwise a class the block carried |
| Classifier.KeptContent | notedown/notedown.py:240-246 | with magic on, a language other than python prefixes its magic; otherwise the content is unchanged |
| Classifier.KeptCaption | notedown/notedown.py:219-226 | with captions on and a `## fig:` header, the id becomes the figure label and the key `caption` is set to the quoted caption from the comments, every other key unchanged; otherwise id and keys are unchanged |
| Assembler.CodeCellFor | notedown/notedown.py:298-312 | a code cell has the content and no outputs; metadata is the attributes unless they are empty; the count is `int(n)` exactly when the attributes are non-empty and `n` is non-empty, None otherwise, and a non-numeric `n` raises ValueError |
| Assembler.CountReadsBack | notedown/notedown.py:306-310 | a count written as `str(n)` reads back as `n` |
| Assembler.CreateCells | notedown/notedown.py:330-351 | the loop builds the cells the fold over the blocks defines, or its first exception |
| Assembler.AssembleShapes | notedown/notedown.py:330-351 | the cells are one code cell per input block and one markdown cell per markdown block, in order, with the same sources |
| Assembler.AssembleAppend | notedown/notedown.py:333 | assembling two lists of blocks is assembling the first, then continuing with the second |
| Assembler.OutputFirstFails | notedown/notedown.py:338-340 | an output block with no cell before it raises IndexError |
| Assembler.OutputAfterMarkdownFails | notedown/notedown.py:338-349 | an output block after a markdown cell raises NotImplementedError |
| Assembler.OutputReplaces | notedown/notedown.py:338-341 | an output block after a code cell replaces that cell's outputs with the decoded JSON, or fails when it is not JSON |
| Assembler.ClassifyAll | notedown/notedown.py:363 | every block is classified in order, or the result is an error |
| Assembler.ClassifyAllFirstError | notedown/notedown.py:363 | the error is that of the first block that fails |
| Assembler.ProcessBlocks | notedown/notedown.py:363 | the loop classifies the blocks as the specification does, for the languages it picks |
| Assembler.ParsedBlockWellFormed | notedown/notedown.py:250-295 | every block `parse_blocks` returns satisfies what `process_code_block` needs |
| Assembler.AllBlocksWellFormed | notedown/notedown.py:358-361 | so does every block with the precode block in front |
| Assembler.Step | notedown/notedown.py:333-349 | one step of `create_cells`; StepShapes states the cells it adds |
| Assembler.StepShapes | notedown/notedown.py:333-349 | a step adds the cell a markdown or input item calls for, with its text; an output item adds no cell |
| Assembler.Assemble | notedown/notedown.py:330-351 | `create_cells` over the items; AssembleShapes, OutputFirstFails, OutputAfterMarkdownFails and OutputReplaces state it |
| Assembler.PrecodeBlock | notedown/notedown.py:162-166 | the precode as a code block with newlines stripped and no attributes; PrecodeOpens, PrecodeKept and PrecodeRejected state what becomes of it |
| Assembler.PrecodeDemoted | notedown/notedown.py:162-166 | under a policy other than `all` or `fenced` the precode block has no `raw` group and demoting it raises KeyError |
| Assembler.AllBlocks | notedown/notedown.py:358-361 | the precode block in front of the parsed blocks when it is not empty |
| Assembler.ToNotebook | notedown/notedown.py:353-369 | the notebook's cells are those of the blocks, with the precode block first when it is not empty |
| Assembler.PrecodeOpens | notedown/notedown.py:358-361 | under `all` or `fenced`, a non-empty precode becomes the first cell, with newlines stripped at its ends |
| Assembler.PrecodeRejected | notedown/notedown.py:162-166 | under any other policy the precode block, which has no `raw` key, makes the conversion raise KeyError |
| Assembler.PrecodeKept | notedown/notedown.py:162-166 | under `all` or `fenced` the precode block is an input code block |
| Assembler.FirstCell | notedown/notedown.py:333-336 | an input block first becomes the first cell |
| Assembler.Stripped | notedown/notedown.py:40-43 | a stripped code cell has no outputs and no count, and markdown cells are unchanged |
| Assembler.StripKeepsCells | notedown/notedown.py:38-43 | stripping keeps every cell's kind and source and is idempotent |
| Assembler.NotebookNode.Strip | notedown/notedown.py:38-43 | the method clears the outputs of the notebook's cells in place |
| Writer.RemoveIfPresent | notedown/notedown.py:496-499 | a class is removed once when present and the list is unchanged otherwise |
| Writer.OthersRemoveOne | notedown/notedown.py:496-499 | only one `python` and one `input` class are removed |
| Writer.InputRecord | notedown/notedown.py:507-513 | input attributes put `python` and `input` first, keep the other classes and the id, and set `n` when the count is given |
| Writer.WrittenAttributes | notedown/notedown.py:486-516 | stripping gives no record; otherwise the input, figure and other records have these classes, and a figure has no caption |
| Writer.AttributesText | notedown/notedown.py:490-491 | with outputs stripped the attributes are just `python` |
| Writer.InputRecordIdempotent | notedown/notedown.py:496-513 | writing input attributes twice gives the same record |
| Writer.OthersOfWritten | notedown/notedown.py:496-510 | the classes written after `python input` are exactly the other classes |
| Writer.CountRoundTrip | notedown/notedown.py:511-512 | a non-zero count written as `n` reads back as the same count |
| Writer.OutputBlock | notedown/notedown.py:472-476 | the output block is empty exactly when outputs are stripped |
| Writer.InputBlockReadsBack | notedown/notedown.py:465-470 | an input block reads back through the fenced pattern as its attributes and its source |
| Writer.StrippedInputReadsBack | notedown/notedown.py:465-470 | with outputs stripped, the input block reads back with attributes `python` and the cell's source |
| Writer.OutputBlockReadsBack | notedown/notedown.py:478-484 | an output block reads back as its `.json .output n=…` attributes and the dumped outputs |
| Writer.InputBlock | notedown/notedown.py:465-470 | `create_input_codeblock`; InputBlockReadsBack states that the reader gets it back |
| Writer.CountText | notedown/notedown.py:483 | `str(cell.execution_count)`; CountTextOneLine states that it holds no newline |
| Writer.CountTextOneLine | notedown/notedown.py:483 | the written count holds no newline, so it stays in the attribute line |
| Writer.OutputCodeBlock | notedown/notedown.py:478-484 | `create_output_codeblock`; OutputBlockReadsBack states that the reader gets it back |
| Writer.BlockReadsBack | notedown/notedown.py:465-484 | a fenced block of three backticks, attributes and source, followed by any text, reads back as exactly those attributes and that source, provided the attributes hold no newline and do not start with a backtick or blank, and no source line is the fence |
| Writer.Dequote | notedown/notedown.py:519-526 | a string that starts and ends with the same quote character, double or single, loses exactly those two characters; any other string is unchanged |
| Writer.DequoteQuoted | notedown/notedown.py:519-526 | dequoting a string enclosed in double or single quotes gives back the inside |
| Writer.CaptionDequoted | notedown/notedown.py:519-526 | dequoting a caption from the comments removes the quotes the reader added |
| Writer.LeadingCut | notedown/notedown.py:434 | `\A\s*\n` removes blank characters up to the last newline of the leading blank run |
| Writer.TidyAsWritten | notedown/notedown.py:433-434 | the clean-up as written removes only the leading blank lines, unless the body is blank and holds no newline |
| Writer.TrailingBlankLineKept | notedown/notedown.py:433-434 | as written, a blank line at the end survives, while the corrected clean-up removes it |
| Writer.BlankBodyKeepsSpaces | notedown/notedown.py:433-434 | as written, a blank body keeps what follows its last newline, while the corrected clean-up leaves nothing |
| Writer.BlankTail | notedown/notedown.py:433-434 | the trailing blank run starts at the first line start from which the rest is blank |
| Writer.TidyRemovesBlank | notedown/notedown.py:433-434 | the corrected clean-up removes only whitespace, from both ends |
| Writer.TidyNoLeadingBlankLine | notedown/notedown.py:433-434 | the result does not start with a blank line |
| Writer.TidyNoTrailingBlankLine | notedown/notedown.py:433-434 | no line of the result begins a blank remainder |
| Writer.Writes | notedown/notedown.py:426-436 | `writes` with the corrected clean-up returns a stretch of the rendered body with only whitespace removed before and after it, no blank line at its start and no line that begins a blank remainder |
| Cli.LastIndex | notedown/main.py:111 | the last occurrence, or -1 when there is none |
| Cli.SplitExt | notedown/main.py:111 | root and extension concatenate to the path; the extension is empty or a dot with no further dot or separator |
| Cli.SplitExtOfName | notedown/main.py:111 | a named stem followed by an extension splits into exactly those two |
| Cli.LastIndexIs | notedown/main.py:111 | a position with no later occurrence is the last index |
| Cli.Ftdetect | notedown/main.py:107-119 | markdown exactly for the six markdown extensions, notebook exactly for `.ipynb` |
| Cli.FtdetectByExtension | notedown/main.py:107-119 | a named file with a known extension is detected by it |
| Cli.FinalExtensionDecides | notedown/main.py:111-117 | only the final extension counts |
| Cli.ExtensionCaseMatters | notedown/main.py:112-119 | extensions are compared with their case |
| Cli.DotFileHasNoExtension | notedown/main.py:111-119 | a dot file and `-` have no format |
| Cli.InputFormat | notedown/main.py:269 | `--from`, else the detected format, else markdown |
| Cli.OutputFormat | notedown/main.py:270-273 | `--render` forces markdown; otherwise `--to`, else the detected format, else notebook |
| Cli.Template | notedown/main.py:247-252 | a given template wins; otherwise the outputs template under `--render` and the plain one otherwise |
| Cli.Precode | notedown/main.py:244-257 | the precode lines joined with newlines; PrecodeLines states it |
| Cli.PrecodeLines | notedown/main.py:244-257 | the precode's lines are the given lines, followed by the R loader under `--rmagic` |
| Cli.Destination | notedown/main.py:287-309 | `-o` with no name overwrites next to the input with the output format's extension, is an error without an input file, `-` is standard output, and any other name is a file |
| Cli.OverwriteDetected | notedown/main.py:287-292 | the file an overwrite writes is detected as the format written into it |
| Cli.StemHasName | notedown/main.py:111 | an input with an extension leaves a stem with a name |
| Legacy.RunLengthIs | notedown.py:23 | a maximal stretch is the run |
| Legacy.LineEndIs | notedown.py:24-26 | the first newline is the line end |
| Legacy.FindCloser | notedown.py:28-30 | the lazy content stops at a newline followed by a line of three or more backticks |
| Legacy.FindCloserFirst | notedown.py:28-30 | no closing line lies before the one found |
| Legacy.FindCloserIs | notedown.py:28-30 | the first closing line is the one found |
| Legacy.GfmAt | notedown.py:21-32 | a match at a position starts there and ends inside the text |
| Legacy.ClosedAt | notedown.py:24-31 | the options are the rest of the opening line and the content lies strictly between the opening line and the closer |
| Legacy.GfmAtIs | notedown.py:21-32 | the match when its opening run, line end, closer and trailing newlines are known |
| Legacy.OnlyBackticksOpen | notedown.py:22-23 | a match absorbs only newlines before three backticks at a line start |
| Legacy.GfmAtParts | notedown.py:21-32 | every match has an opening run of three or more, an opening line that ends before the text does, and a first closer |
| Legacy.ClosedAtMeaning | notedown.py:24-32 | the options hold no newline; the content runs to the first closer; the end follows the closing backticks and newlines |
| Legacy.ClosesAtAnyBacktickLine | notedown.py:27-30 | the content runs from after the opening line to the first line of three or more backticks |
| Legacy.AbsorbsNewlines | notedown.py:30-31 | the match ends after the closing backticks and every newline after them |
| Legacy.ShorterRunCloses | notedown.py:23-30 | a block opened by four backticks is closed by three |
| Legacy.Scan | notedown.py:84 | the scan's matches are ordered and disjoint |
| Legacy.GfmMatches | notedown.py:84 | `finditer` yields matches inside the text, in order, without overlap |
| Legacy.ScanFindsAttempts | notedown.py:84 | every match reported is the attempt at its start |
| Legacy.ScanLeftmost | notedown.py:84 | no attempt succeeds before the first match reported |
| Legacy.NoMatchAtEnd | notedown.py:21-32 | nothing matches at the end of the text |
| Legacy.MatchesAreLeftmost | notedown.py:84 | each match is the match at its start, the first is leftmost, and no match means no position matches |
| Legacy.MatchesSpan | notedown.py:84-89 | the matches are valid spans for the text limits |
| Legacy.TextPieces | notedown.py:88-99 | one markdown block per gap between matches |
| Legacy.CodePieces | notedown.py:93-96 | one code block per match, holding its options and content |
| Legacy.AlternateIs | notedown.py:101-105 | filling even slots with text blocks and odd slots with code blocks gives the alternation |
| Legacy.KeepContentMembers | notedown.py:107-108 | exactly the blocks with empty content are dropped |
| Legacy.FillSlots | notedown.py:101-105 | the slot assignment yields text, code, text, … |
| Legacy.DropEmpty | notedown.py:107-108 | the filter keeps the blocks with content, in order |
| Legacy.ParseBlocks | notedown.py:72-109 | the method computes the blocks of the specification |
| Legacy.NonEmpty | notedown.py:107-108 | the non-empty strings, in order |
| Legacy.KeepContentTexts | notedown.py:107-108 | dropping empty blocks drops exactly the empty texts and contents |
| Legacy.AlternateTexts | notedown.py:101-105 | the alternation's texts are the text blocks and its codes the code blocks, in order |
| Legacy.BlocksInOrder | notedown.py:72-109 | the markdown blocks are the non-empty gaps and the code blocks the non-empty match contents, each in text order |
| Legacy.GapsTileText | notedown.py:88-91 | the gaps and the matches tile the whole text |
| Legacy.Alternate | notedown.py:101-105 | text, code, text, … from the two lists; AlternateIs and AlternateTexts state it |
| Legacy.KeepContent | notedown.py:107-108 | the blocks with content; KeepContentMembers and KeepContentTexts state it |
| Legacy.Blocks | notedown.py:72-109 | `parse_blocks`; BlocksInOrder states it |
| Legacy.Cells | notedown.py:52-65 | one cell per block; CellsInputs states it |
| Legacy.BodyTrimmed | notedown.py:118-127 | the joined lines with surrounding newlines stripped neither start nor end with a newline |
| Legacy.ToNotebook | notedown.py:45-70 | one cell per block, in order |
| Legacy.AppendCells | notedown.py:52-65 | the loop appends a cell per block |
| Legacy.CellsInputs | notedown.py:53-59 | the code cells hold the code blocks' contents, with language python |
| Legacy.CodeCellsAreBlocks | notedown.py:45-70 | the notebook's code cells are the non-empty code contents of the text, in order, all python |
| Legacy.NewCell | notedown.py:111-131 | code or markdown by state, nothing when the joined lines are empty after stripping newlines, NotImplementedError for any other state |
| Legacy.NewCellTrimmed | notedown.py:118-127 | a cell never starts or ends with a newline |
| Legacy.NewCellKeepsLines | notedown.py:117-127 | newline-free lines whose first and last are non-empty come back as the cell's lines |

## Left out

- The regular-expression engine in general. Only the fenced pattern and the old GitHub pattern are modelled, by hand.
- The indented pattern. It is not written out: `parse_blocks` is stated over any non-empty, ordered, disjoint list of matches, and matches of the indented alternative carry `indent` and `icontent`.
- The combined fenced-or-indented pattern, the `old fenced` choice and a user-given pattern.
- Parsing and rendering of Pandoc attributes. These are function parameters; the empty string must parse to empty attributes where a lemma says so.
- JSON encoding and decoding of outputs. These are function parameters.
- The nbformat objects. They are reduced to the cell fields the reader and writer touch.
- The legacy reader's v3 worksheet and notebook wrapping. It is reduced to its list of cells.
- `run` (notebook execution), `Knitr`, `data2uri`, `write_resources`, `string2json` and `cast_unicode`. These are I/O, subprocesses or foreign libraries.
- The Jinja templates. The rendered body reaches `writes` as a parameter.
- `main`'s file and stream I/O, argument parsing, `--version`, `--examples`, `--debug`, `--run`, `--timeout`, the kernel argument and the legacy `cli()`. Only the choices `main` makes are modelled.
- Strings.ParseInt: does not accept the underscores and non-ASCII digits that Python's `int()` takes. Counts written by notedown never contain them.
- Cli.SplitExt: follows POSIX `os.path.splitext` with `/` as the only separator.
- Classifier.ProcessCodeBlock: `set.pop()` picks in an order fixed by string hashing. The model picks any language the block carries, and every property holds for each pick.
- Writer.Writes: the rendered body is a parameter, so only the clean-up applied to it is stated. The member follows the corrected clean-up (Tidy), not the one as written (TidyAsWritten): on "x\n\n" it gives "x\n" where `writes` keeps "x\n\n", and on " \n " it gives "" where `writes` gives " ". LeadingCut and TidyAsWritten state the clean-up as written.
- Fences.ScanFenced: uses the corrected matcher FencedAt, not FencedAtAsWritten. On "````\ncode\n\n```\n" it reports no match, while `finditer` reports one with fence "```", attributes "`" and content "code\n" (LongerFenceClosedByShorter). The two agree wherever the whole opening fence is closed (AsWrittenAgreesWhenClosed).
- Fences.ScanFencedOrdered: states ordering, and Fences.ScanFencedLeftmost the leftmost rule, for the corrected scan only.
- Segmenter.FencedMatches: built on Fences.ScanFenced, so it differs from `finditer` on the same inputs, such as "````\ncode\n\n```\n".
- Classifier.DemoteToMarkdown: uses the corrected demotion DemoteRawText. For an indented block whose `raw` group took no part in the match it gives markdown holding "\n" + the indented text + "\n", where the source gives a markdown block whose content is None (DemoteRawAsWritten, IndentedBlockLosesText).
- Classifier.ClassifyWith: demotes with DemoteRawText, so it differs from the source in the same way as DemoteToMarkdown for an indented block under `strict` or a language policy.
- Classifier.ProcessCodeBlock: built on ClassifyWith and differs in the same way.
- Assembler.ToNotebook: classifies with ClassifyWith, so it inherits that difference. When the matches come from Segmenter.FencedMatches it also inherits the fenced-scan difference.

## Findings

| source | as written | input that shows it | evidently intended | confidence | as-written member | corrected member |
|---|---|---|---|---|---|---|
| notedown/notedown.py:79-85 | the greedy fence group can backtrack, so a block opened by four backticks with no four-backtick closing line is closed at a three-backtick line, and the fourth backtick goes into the attributes | "````\ncode\n\n```\n" | the closing line repeats the whole opening fence, as the pattern's comment says | not executed | Fences.LongerFenceClosedByShorter | Fences.FencedAt |
| notedown/notedown.py:204-208 | demoting a block uses its `raw` group, which an indented match does not have, so under `strict` or a language policy an indented block becomes a markdown block whose content is None | an indented block `    x = 1` after a blank line, read with match `strict` | the block's text survives as markdown, as the `fenced` branch does with the indented text | not executed | Classifier.IndentedBlockLosesText | Classifier.DemoteRawText |
| notedown/notedown.py:433-434 | without the MULTILINE flag, `^\s*\Z` only matches at the start of the body, so blank lines at the end are kept | "x\n\n" | blank lines at both the start and the end are removed, as the comment above the call says | not executed | Writer.TrailingBlankLineKept | Writer.TidyNoTrailingBlankLine |
