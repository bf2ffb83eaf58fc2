# nbdocs Markdown pipeline in Dafny

nbdocs converts Jupyter notebooks to Markdown documentation. Before export,
each cell is marked and filtered according to the directive comments in its
source. After the nbconvert Markdown export, the text is repaired, split back
into cells and framed. This project models that pipeline, with these parts:

- **Flag grammar** (`flag_grammar.dfy`).
  - The alternation string `generate_flags_string` builds from flag names,
    with a hyphen alias for every name that contains `_`.
  - The line-anchored, multiline patterns `^\s*\#\s*(flags)\s*$` for
    `hide`, `hide_input`, `hide_output`, `collapse_output` and
    `output_code`.
  - Each pattern is a matcher that follows the backtracking order of
    Python's `re` engine. It is proved sound and complete against a declarative
    description of a flag line, and `search` and `sub("")` are built on it.
  - `re_tools.py` writes the tail of the pattern as `\s*\n*$` and `flags.py`
    writes it as `\s*$`. Both give the same matches, so one matcher models
    both files.
- **Fences** (`fences.dfy`).
  - The code-cell marker pattern ```` ^```(\w*\s*)\n###cell ```` and the
    substitution `md_process_cell_flag` makes with it.
  - The same substitution with the evidently intended pattern
    ```` ^```(\w*[^\S\n]*)\n###cell ````, which leaves closing fences in
    place (see "## Findings").
  - The fence-opener pattern ```` ```\w*\s*\n ```` that
    `check_code_cell_empty` deletes.
  - The (unused) `re_cell` comment pattern.
- **Notebook shapes** (`notebook.dfy`).
  - Cells and notebooks are objects whose fields the pipeline assigns in
    place.
  - `CellValue` is a snapshot of a cell's fields, with the closed cell and
    output kinds of `typing.py`.
- **Cell preprocessing** (`cell_process.dfy`). `process_markdown_cell` and
  `process_code_cell` are methods that change the cell object. Their
  statements run in the source's order: drop (empty or `hide`), then
  `hide_output`, then `hide_input`.
- **Post-export fix-up** (`splitting.dfy`, `process_md.dfy`,
  `plain_format.dfy`).
  - `split_md` and the `nb2md` split.
  - `separate_source_output`, `check_code_cell_empty` and `format_code_cell`
    with its open or collapsed `<details>` wrapper.
  - `format_md_cell` and `process_md_cells`, in both the current form and
    the earlier plain form of `flags.py` and `process.py`.
- **Notebook drivers** (`convert.dfy`, `clean.dfy`).
  - `MdConverter.preprocess_nb` loops over the cells, mutating them and
    rebuilding the cell list. A raw cell raises the dictionary lookup's
    `KeyError`.
  - `nb2md`, with the exporter as a parameter.
  - `nb_newer` and `filter_changed`, over a map of modification times.
  - `ClearExecutionCountPreprocessor` and `MetadataCleaner`.
- **Image links of the first package version** (`legacy_flags.dfy`,
  `image_links.dfy`, `markdown_images.dfy`, `paths.dfy`).
  - `generate_flags_pattern`, which grows its argument list, and the
    ungrouped `re_flags`.
  - `cell_check_flags`.
  - The image-link pattern and `correct_output_image_link`.
  - `correct_markdown_image_link`. It runs over a file-system value: the
    sets of files and directories, plus a log of copies. `mkdir` and
    `shutil.copy` may raise on that value.
  - The part of `pathlib` these use.

`text.dfy`, `seqs.dfy` and `wrappers.dfy` hold string, sequence and result
helpers.

Several source files are near-duplicates: `src/nbdocs/flags.py`,
`src/nbdocs/process.py`, `src/nbdocs/re_tools.py` and
`src/nbdocs/process_md.py`. The model defines each behaviour once. The table
cites the copy whose lines the member follows; where the copies agree, it
stands for all of them.

## Model

| member | source | states |
|---|---|---|
| FlagGrammar.GenerateFlagsString | src/nbdocs/re_tools.py:16-29 | the loop builds the `\|`-join of the flags in their order, followed by the `_`→`-` alias of each flag containing `_` |
| FlagGrammar.HyphenAliasesSpec | src/nbdocs/flags.py:40-44 | aliases contain no `_`; every flag with `_` has its alias in the list; every alias is the alias of such a flag |
| FlagGrammar.NoUnderscoreNoAliases | src/nbdocs/re_tools.py:25-29 | without `_` in any flag, the alternatives are exactly the flags |
| FlagGrammar.AlternationRoundTrip | src/nbdocs/re_tools.py:29 | for a non-empty list whose flags contain no `\|`, splitting the joined string on `\|` gives back the alternatives |
| FlagGrammar.GenerateFlagsStringPlain | tests/test_process_re.py:13-15 | `["flag1", "flag2"]` gives `flag1\|flag2` |
| FlagGrammar.GenerateFlagsStringAliases | tests/test_process_re.py:16-19 | `["flag_1", "flag_2"]` gives the alternatives `flag_1, flag_2, flag-1, flag-2`; the string contains `flag-1` and `flag-2` |
| FlagGrammar.GetFlagsRe | src/nbdocs/re_tools.py:32-43 | `get_flags_re`: the pattern for a flag list holds the alternatives of `generate_flags_string`; `HyphenAliasesSpec` and the `*Alternatives` lemmas state them |
| FlagGrammar.LastLineEnd | src/nbdocs/re_tools.py:42 | the position the greedy `\s*$` settles on is a line end within the range; none means the range holds no line end |
| FlagGrammar.TryAlternatives | src/nbdocs/re_tools.py:42 | the first alternative, in pattern order, that occurs at the position and is followed by whitespace up to a line end |
| FlagGrammar.TryNameFrom | src/nbdocs/re_tools.py:42 | the greedy `\s*` after `#`: a name start found from the right, with its alternative and line end |
| FlagGrammar.MatchAt | src/nbdocs/flags.py:57-58 | a match the matcher reports at a position is a flag line of the pattern starting there |
| FlagGrammar.MatchAtComplete | src/nbdocs/flags.py:57-58 | every flag line of the pattern is found by the matcher at its start |
| FlagGrammar.FindMatch | src/nbdocs/re_tools.py:42-43 | `search`: a found match is a flag line, found by `MatchAt` at its start |
| FlagGrammar.FindMatchStops | src/nbdocs/re_tools.py:42-43 | a position where a match starts stops the search there or earlier |
| FlagGrammar.FindMatchLeftmost | src/nbdocs/re_tools.py:42-43 | no position the search passes over starts a match; no result means no match anywhere |
| FlagGrammar.SearchIffFlagLine | src/nbdocs/re_tools.py:42-43 | `search` succeeds exactly when, from some line start, the text has whitespace, `#`, whitespace, an alternative and whitespace up to a line end |
| FlagGrammar.NoHashNoFlag | src/nbdocs/re_tools.py:42 | text without `#` holds no flag |
| FlagGrammar.AbsentAlternatives | src/nbdocs/re_tools.py:42 | text containing none of the alternatives holds no flag |
| FlagGrammar.SingleLineSearch | src/nbdocs/re_tools.py:42-43 | on one line, only a match at the start of the text counts |
| FlagGrammar.Search | src/nbdocs/re_tools.py:42-43 | `pattern.search(s) is not None`, the leftmost search from the start; `SearchIffFlagLine` states when it holds |
| FlagGrammar.Sub | src/nbdocs/flags.py:99 | `pattern.sub("", s)`, every match deleted; `SubFromLength` and `SubWithoutMatch` state what it returns |
| FlagGrammar.SubFromLength | src/nbdocs/flags.py:99 | `sub("")` returns the rest unchanged when no match follows, and is strictly shorter otherwise |
| FlagGrammar.SubWithoutMatch | src/nbdocs/process_md.py:79 | `sub("")` is the identity exactly on text without a match, and otherwise shortens it |
| FlagGrammar.HideAlternatives | src/nbdocs/re_tools.py:47 | `re_hide` accepts only `hide` |
| FlagGrammar.HideInputAlternatives | src/nbdocs/re_tools.py:48 | `re_hide_input` accepts `hide_input` and `hide-input` |
| FlagGrammar.HideOutputAlternatives | src/nbdocs/re_tools.py:49 | `re_hide_output` accepts `hide_output` and `hide-output` |
| FlagGrammar.CollapseAlternatives | src/nbdocs/re_tools.py:50 | `re_collapse` accepts `collapse_output` and `collapse-output` |
| FlagGrammar.OutputCodeAlternatives | src/nbdocs/re_tools.py:51 | `re_output_code` accepts `output_code` and `output-code` |
| FlagGrammar.FlagsAlternatives | src/nbdocs/re_tools.py:46 | `re_flags` accepts the three hide flags and their two hyphen aliases |
| FlagGrammar.HideExamples | tests/test_process_re.py:30-32 | `re_hide` finds `# hide` and `#hide` but not `# hide_input` |
| FlagGrammar.HideInputFindsSpaced | tests/test_process_re.py:34 | `re_hide_input` finds `# hide_input` |
| FlagGrammar.HideInputFindsTight | tests/test_process_re.py:35 | `re_hide_input` finds `#hide_input` |
| FlagGrammar.HideInputIgnoresHide | tests/test_process_re.py:36 | `re_hide_input` does not find `# hide` |
| FlagGrammar.HideOutputFindsSpaced | tests/test_process_re.py:38 | `re_hide_output` finds `# hide_output` |
| FlagGrammar.HideOutputFindsTight | tests/test_process_re.py:39 | `re_hide_output` finds `#hide_output` |
| FlagGrammar.HideOutputIgnoresOtherFlags | tests/test_process_re.py:40-41 | `re_hide_output` finds neither `# hide` nor `# hide_input` |
| FlagGrammar.FlagsExamples | tests/test_process_re.py:22-25 | `re_flags` does not find `hide`, and does find `hide\n #hide` |
| FlagGrammar.HideOutputSubExample | tests/test_process_re.py:43-44 | deleting the `hide_output` line of `#hide_output\nSome text` and left-stripping gives `Some text` |
| Fences.CodeCellFlagAt | src/nbdocs/re_tools.py:52 | a reported match starts with a fence at a line start and has the `###cell` marker right after a newline |
| Fences.CodeCellFlagAtSound | src/nbdocs/re_tools.py:52 | every match the matcher reports is a match of ```` ^```(\w*\s*)\n###cell ```` |
| Fences.CodeCellFlagAtComplete | src/nbdocs/flags.py:67 | every match of the pattern is found at its start, and it is the only one there |
| Fences.CodeCellOpenerAt | src/nbdocs/re_tools.py:52 | (intended pattern) a reported match is a match of `re_code_cell_flag` whose info string holds no line end |
| Fences.CodeCellOpenerAtIff | src/nbdocs/re_tools.py:52 | (intended pattern) the matcher reports exactly the matches of ```` ^```(\w*[^\S\n]*)\n###cell ```` |
| Fences.BlankAfterFenceNoOpener | src/nbdocs/process_md.py:22 | (intended pattern) a fence followed by a blank line, as a closing fence is, never matches |
| Fences.CellFlagSubFrom | src/nbdocs/flags.py:117 | the substitution, with either pattern, keeps the multiset of characters |
| Fences.MdProcessCellFlag | src/nbdocs/process_md.py:12-22 | `md_process_cell_flag` keeps the length and the multiset of characters of the text |
| Fences.MdProcessCellOpeners | src/nbdocs/process_md.py:12-22 | (intended pattern) the substitution keeps the length and the multiset of characters; its output is stated by `OpenerMovedThrough`, `ScanAtOpener`, `ClosingFenceKept` and `ClosingFenceStays` |
| Fences.CellFlagSubNoMarker | src/nbdocs/process.py:46-56 | text without `#` is returned unchanged |
| Fences.CellFlagSubNoFence | src/nbdocs/process_md.py:22 | a stretch with no fence at a line start is copied as it is, whatever follows it |
| Fences.ScanAtFlag | src/nbdocs/process_md.py:22 | at every match of ```` ^```(\w*\s*)\n###cell ````, whatever follows it, the substitution writes the marker line, the fence and the captured group, then carries on after the marker |
| Fences.ScanAtOpener | src/nbdocs/re_tools.py:52 | (intended pattern) the same at every match of ```` ^```(\w*[^\S\n]*)\n###cell ```` |
| Fences.MarkerScanAny | src/nbdocs/re_tools.py:52 | a fence opener at a line start with a word-and-whitespace info string, followed by the marker line, is rewritten with the marker in front, whatever follows |
| Fences.ScanThroughMarker | src/nbdocs/process_md.py:22 | when that opener is the first fence at a line start, the text before it is kept and the scan goes on after the marker |
| Fences.MarkerMovedThrough | src/nbdocs/process_md.py:12-22 | `md_process_cell_flag` on such a text with a backtick-free prefix: the prefix, the moved marker, then the substitution of the rest, which may hold further cells |
| Fences.OpenerMovedThrough | src/nbdocs/process_md.py:12-22 | (intended pattern) on the same texts, with the info string on the fence's line, the same result: the prefix, the moved marker, then the corrected substitution of the rest |
| Fences.RestCopied | src/nbdocs/process_md.py:22 | a remainder without `#` is copied unchanged |
| Fences.MarkerMoved | src/nbdocs/flags.py:107-117 | a single fenced cell with nothing marked after it: the marker moves in front of the fence; the info string and the text before it are kept |
| Fences.MarkerMovedRest | src/nbdocs/flags.py:117 | the same, with the text given by its pieces |
| Fences.ClosingFenceTaken | src/nbdocs/re_tools.py:52 | (as written) a closing fence, a blank line and the next marker are rewritten as the marker, the fence and the blank line: the fence moves into the next cell |
| Fences.ClosingFenceKept | src/nbdocs/re_tools.py:52 | (intended pattern) the closing fence, the blank line and the next marker are kept in place |
| Fences.BodyThenClosing | src/nbdocs/process_md.py:22 | a cell's code up to its closing fence is copied; the closing fence then moves (as written) or stays (intended) |
| Fences.ClosingFenceMoved | src/nbdocs/process_md.py:22 | (as written) on a code cell without output followed by another cell, the closing fence ends up after the second marker |
| Fences.ClosingFenceStays | src/nbdocs/process_md.py:22 | (intended pattern) on the same text only the opener's marker moves, and the first cell keeps its closing fence |
| Fences.MarkerMovedPlain | tests/test_process_md.py:10-12 | the no-tag example moves the marker in front of the fence |
| Fences.MarkerMovedTag | tests/test_process_md.py:18-20 | the language tag stays on the fence |
| Fences.MarkerMovedTagSpace | tests/test_process_re.py:60-63 | the tag and its trailing space stay on the fence |
| Fences.MarkerMovedAfterNewline | tests/test_process_md.py:22-24 | after a leading newline the marker moves too |
| Fences.FenceOpenerAt | src/nbdocs/re_tools.py:53 | a reported fence opener starts with a fence and ends with a newline |
| Fences.RemoveFenceOpenersFrom | src/nbdocs/re_tools.py:53 | deleting fence openers never lengthens the text |
| Fences.RemoveFenceOpeners | src/nbdocs/process_md.py:61 | `re_code_cell_marker.sub("", s)`; it is specified by `RemoveFenceOpenersFrom` and `RemoveFenceOpenersNoFence` |
| Fences.RemoveFenceOpenersNoFence | src/nbdocs/process_md.py:61 | text without a fence is left as it is |
| Fences.CellCommentAt | src/nbdocs/re_tools.py:54-56 | a reported `re_cell` match starts with `<!--` at a line start and ends with two newlines |
| Fences.CellNumberFrom | src/nbdocs/re_tools.py:55 | the cell-number part ends with two newlines |
| Notebook.CellTypeName | src/nbdocs/typing.py:57-80 | each cell kind has its own `cell_type` string |
| Notebook.Cell.constructor | src/nbdocs/typing.py:49-64 | a new cell holds the given field values |
| Notebook.Notebook.constructor | src/nbdocs/typing.py:84-89 | a new notebook holds the given cells and metadata, format 4.5 |
| CellProcess.MarkedMarkdown | src/nbdocs/flags.py:80 | the value `process_markdown_cell` gives a cell: the marker line in front of the source; `MarkedMarkdownSpec` states it |
| CellProcess.ProcessedCode | src/nbdocs/flags.py:84-104 | the value `process_code_cell` gives a cell, or None for a dropped one; the `ProcessedCode*` lemmas state its drop test, outputs, marker and source |
| CellProcess.ProcessMarkdownCell | src/nbdocs/flags.py:70-81 | the same cell comes back; its source is the marker line followed by the old source |
| CellProcess.ProcessCodeCell | src/nbdocs/process.py:22-43 | returns None exactly when the cell is dropped (the cell is then untouched); otherwise the same cell with the processed value |
| CellProcess.MarkedMarkdownSpec | src/nbdocs/process.py:18-19 | the new source is exactly `###cell\n` followed by the old one; nothing else changes |
| CellProcess.ProcessedCodeDropped | src/nbdocs/flags.py:95-96 | a code cell is dropped exactly when its source is empty or has a `hide` line |
| CellProcess.ProcessedCodeMarked | src/nbdocs/flags.py:100-104 | every kept cell's source starts with `###cell`; kind, metadata and count are kept |
| CellProcess.ProcessedCodeOutputs | src/nbdocs/flags.py:97-98 | outputs are emptied exactly when there is a `hide_output` line, and kept otherwise |
| CellProcess.ProcessedCodeSource | src/nbdocs/process.py:35-42 | after the `hide_output` step, a `hide_input` line makes the source exactly `###cell`, otherwise it is `###cell\n` plus that source |
| CellProcess.HiddenInputAndOutput | src/nbdocs/process.py:35-39 | with both flags the cell ends with the bare marker and no outputs |
| CellProcess.HideOutputKeepsLines | src/nbdocs/flags.py:97-99 | without an `output_code` line the `hide_output` step only left-strips; the flag line stays |
| CellProcess.UnflaggedCode | src/nbdocs/flags.py:102-104 | a non-empty cell without flags is kept whole behind the marker line |
| Splitting.SplitMd | src/nbdocs/flags.py:130 | `split_md`: the stripped non-blank pieces between markers; `SplitMdClean` and `SplitMdPieces` state them |
| Splitting.SplitMdClean | src/nbdocs/flags.py:130 | every piece is non-empty, has no leading or trailing whitespace and no `###cell` |
| Splitting.SplitMdPieces | src/nbdocs/process_md.py:35 | the pieces are the stripped non-blank parts of the split, in order; every non-blank part is kept |
| Splitting.SplitMdWithoutMarker | src/nbdocs/process.py:69 | text without the marker gives `[strip(md)]`, or nothing when blank |
| Splitting.SplitCells | src/nbdocs/convert.py:66 | the split step of `nb2md`: the non-empty pieces between `###cell\n` separators; `SplitCellsPieces` and `SplitCellsClean` state them |
| Splitting.SplitCellsPieces | src/nbdocs/convert.py:66 | the `nb2md` split keeps the parts in order and drops exactly the empty ones (whitespace-only parts stay) |
| Splitting.SplitCellsClean | src/nbdocs/convert.py:66 | no piece is empty and none holds `###cell\n` |
| Splitting.SplitCellsWithoutMarker | src/nbdocs/convert.py:66 | text without the separator is one cell, or none when empty |
| PlainFormat.FormatCodeCell | src/nbdocs/flags.py:133-142 | the separator in front of the cell; `FormatCodeCellRoundTrip` states that removing it gives the cell back |
| PlainFormat.FormatMdCell | src/nbdocs/flags.py:145-154 | the separator in front of the cell; `ProcessMdCellsUniform` states that both formatters agree |
| PlainFormat.ProcessMdCells | src/nbdocs/flags.py:157-166 | the number of cells is kept |
| PlainFormat.FormatCodeCellRoundTrip | src/nbdocs/process.py:72-81 | the result starts with the separator, and removing it gives the cell back |
| PlainFormat.ProcessMdCellsUniform | src/nbdocs/flags.py:142-166 | each cell, fenced or not, becomes the separator followed by the cell unchanged |
| ProcessMd.SeparateSourceOutput | src/nbdocs/process_md.py:38-49 | the cell split at its last closing fence; `SeparateRoundTrip` and `SeparateWithoutFence` state the two cases |
| ProcessMd.CheckCodeCellEmpty | src/nbdocs/process_md.py:52-62 | `check_code_cell_empty`; `CheckCodeCellEmptyIffBlank` states when it holds |
| ProcessMd.FormatCodeCell | src/nbdocs/process_md.py:65-84 | `format_code_cell`; `FormatCodeCellFrame`, `FormatCodeCellWrapper` and `FormattedCodeSpec` state its frame, wrapper and code |
| ProcessMd.FormatMdCell | src/nbdocs/process_md.py:87-96 | `format_md_cell`; `FormatMdCellSpec` states it |
| ProcessMd.ProcessMdCells | src/nbdocs/process_md.py:99-108 | the number of cells is kept |
| ProcessMd.SeparateRoundTrip | src/nbdocs/process_md.py:38-49 | with a closing fence: source + output == cell, the output holds no closing fence, and the source ends with one |
| ProcessMd.SeparateWithoutFence | src/nbdocs/process_md.py:47-49 | without a closing fence the output is the whole cell and the source is a lone fence line |
| ProcessMd.CheckCodeCellEmptyIffBlank | src/nbdocs/process_md.py:52-62 | a code cell is empty exactly when, with its fence openers deleted, it is all whitespace |
| ProcessMd.FramedEnds | src/nbdocs/process_md.py:83-84 | the frame starts with the separator and ends with the wrapper, the output and `</details>\n` |
| ProcessMd.FormatCodeCellFrame | src/nbdocs/process_md.py:65-84 | the result starts with the separator and ends with the cell's output and `</details>\n` |
| ProcessMd.FormatCodeCellWrapper | src/nbdocs/process_md.py:74-78 | the collapsed wrapper is used exactly when the source part has a `collapse_output` line |
| ProcessMd.FormattedCodeSpec | src/nbdocs/process_md.py:79-81 | with the flag, its lines are deleted and the code left-stripped; the code is dropped exactly when it is blank once fence openers are removed |
| ProcessMd.FormatMdCellSpec | src/nbdocs/process_md.py:87-96 | a markdown cell only gets the separator in front |
| ProcessMd.ProcessMdCellsSpec | src/nbdocs/process_md.py:99-108 | order kept; fenced cells are formatted as code and end with `</details>\n`; others get the separator only |
| Convert.Preprocessed | src/nbdocs/convert.py:54-59 | the new cell list of `preprocess_nb`, or the `KeyError` of the first raw cell; `PreprocessedFails` and `PreprocessedShape` state it |
| Convert.FirstRaw | src/nbdocs/convert.py:24-27 | the index of the first raw cell (the first failed lookup), or the number of cells |
| Convert.PreprocessCell | src/nbdocs/convert.py:56 | the lookup fails exactly for a raw cell; otherwise the processor's result, with the cell changed in place |
| Convert.PreprocessAt | src/nbdocs/convert.py:55-58 | one iteration: the cell is processed, and a comment cell and the kept cell are appended to the result list |
| Convert.PreprocessCells | src/nbdocs/convert.py:54-58 | the loop gives the specified list, or the `KeyError` of the first raw cell; the cells before it are processed in place |
| Convert.PreprocessNb | src/nbdocs/convert.py:43-60 | on success the same notebook, with its cell list replaced by the new one; on error the old list stays |
| Convert.Nb2Md | src/nbdocs/convert.py:62-67 | the pieces of the export of the preprocessed cells, split on `###cell\n` |
| Convert.PreprocessedFails | src/nbdocs/convert.py:24-27 | preprocessing fails exactly when the notebook has a raw cell |
| Convert.PreprocessedShape | src/nbdocs/convert.py:54-59 | the new list has two cells per kept cell, in order: a markdown comment cell naming the original index and type, then the processed cell; a cell is kept exactly when its processor returned one |
| Convert.FilterChanged | src/nbdocs/convert.py:95-107 | the result is the input filtered by `nb_newer` |
| Convert.FilterChangedFails | src/nbdocs/convert.py:107 | it fails exactly when `nb_newer` fails on some notebook |
| Convert.FilterChangedPieces | src/nbdocs/convert.py:106-107 | the result is an ordered sub-list holding exactly the notebooks `nb_newer` accepts |
| Convert.MdName | src/nbdocs/convert.py:91 | the Markdown name `nb_newer` compares with; `NbNewerSpec` states how it is formed |
| Convert.NbNewer | src/nbdocs/convert.py:89-92 | `nb_newer` on a file system given by its modification times; `NbNewerSpec`, `NbNewerEqualTimes` and `NbNewerMonotone` state it |
| Convert.NbNewerSpec | src/nbdocs/convert.py:89-92 | the Markdown name is formed in `docs_path`; the notebook counts as newer exactly when that file is missing or strictly older |
| Convert.NbNewerEqualTimes | src/nbdocs/convert.py:92 | equal modification times do not count as newer |
| Convert.NbNewerMonotone | src/nbdocs/convert.py:92 | a later notebook time keeps a newer notebook newer |
| Clean.ClearedOutput | src/nbdocs/clean.py:22-24 | an output with the `execution_count` key gets None; others are unchanged and do not gain the key |
| Clean.ClearedOutputs | src/nbdocs/clean.py:22-24 | every output is cleared, in order, with the count of outputs kept |
| Clean.ClearExecutionCount | src/nbdocs/clean.py:16-25 | the same cell comes back, with its value cleared |
| Clean.ClearExecutionCounts | src/nbdocs/clean.py:45 | the execution-count clearer's walk clears every cell |
| Clean.ClearedCells | src/nbdocs/clean.py:16-25 | every cell is cleared, in order |
| Clean.ClearedCell | src/nbdocs/clean.py:16-25 | the value `preprocess_cell` gives a cell; the `ClearedCell*` lemmas state what changes, that no count is left and that it is idempotent |
| Clean.ClearedCellSpec | src/nbdocs/clean.py:20-24 | non-code cells are unchanged; a code cell keeps its kind, source, metadata and outputs apart from their counts, and loses its count |
| Clean.ClearedCellCleared | src/nbdocs/clean.py:21-24 | no execution count is left |
| Clean.ClearedCellFixed | src/nbdocs/clean.py:20-24 | clearing changes a cell exactly when it still holds a count |
| Clean.ClearedCellIdempotent | src/nbdocs/clean.py:20-24 | clearing twice is clearing once |
| Clean.MetadataCleared | src/nbdocs/clean.py:43 | the metadata clearer changes only a cell's metadata |
| Clean.CleanedCell | src/nbdocs/clean.py:43-45 | the value `MetadataCleaner.__call__` gives a cell; `CleanedCounts` and `CleanedMetadata` state it |
| Clean.CleanedCells | src/nbdocs/clean.py:43-45 | every cell is cleaned, in order |
| Clean.MetadataCleaner.constructor | src/nbdocs/clean.py:33-35 | the cleaner holds the given metadata clearer |
| Clean.MetadataCleaner.ClearMetadata | src/nbdocs/clean.py:43 | the notebook's and every cell's metadata are cleared; the cell list stays |
| Clean.MetadataCleaner.Call | src/nbdocs/clean.py:37-46 | the metadata is cleared, then the counts too exactly when asked |
| Clean.CleanNb | src/nbdocs/clean.py:49-57 | a fresh cleaner's call on the notebook |
| Clean.CleanedCounts | src/nbdocs/clean.py:44-45 | without the flag, counts and outputs survive; with it, no count is left |
| Clean.CleanedMetadata | src/nbdocs/clean.py:43 | whatever the flag, the metadata is the clearer's and the source is kept |
| Clean.CleanExample | tests/test_clean.py:7-21 | counts of 1 survive the first clean without the flag and are gone after the second |
| LegacyFlags.GenerateFlagsPattern | nbdocs/process.py:18-30 | the argument list grows by the aliases, and the result is the `\|`-join of the grown list |
| LegacyFlags.AlternativesTwice | nbdocs/process.py:27-30 | running it twice on the same list appends the aliases once more |
| LegacyFlags.BranchesValue | nbdocs/process.py:8-15 | the alternation of `FLAGS` has the three hide flags then two aliases |
| LegacyFlags.HeadAtIff | nbdocs/process.py:34 | the greedy matcher for `^\s*\#\s*name` agrees with the pattern |
| LegacyFlags.CellCheckFlagsAsWritten | nbdocs/process.py:37-49 | `cell_check_flags` with the ungrouped `re_flags`; `GroupedImpliesAsWritten` and `UngroupedFlagsCode` compare it with the grouped pattern |
| LegacyFlags.CellCheckFlags | nbdocs/process.py:37-49 | (grouped pattern) a cell is flagged exactly when it is code and some line starts with whitespace, `#`, whitespace and a flag |
| LegacyFlags.GroupedImpliesAsWritten | nbdocs/process.py:33-34 | the pattern as written accepts everything the grouped one accepts |
| LegacyFlags.UngroupedFlagsCode | nbdocs/process.py:33-34 | `hide_input = True` is flagged by the pattern as written but not by the grouped one |
| LegacyFlags.NoHashNoHead | nbdocs/process.py:34 | without `#` no line holds a flag comment |
| LegacyFlags.OneLineHead | nbdocs/process.py:34 | on one line only the start can match |
| LegacyFlags.ReFlagsBareName | tests/test_process.py:19 | `hide` is not matched |
| LegacyFlags.ReFlagsSecondLine | tests/test_process.py:20 | `hide\n #hide` is matched |
| LegacyFlags.CellCheckFlagsHide | tests/test_process.py:28-30 | a code cell `# hide` is flagged |
| LegacyFlags.CellCheckFlagsBlocked | tests/test_process.py:32-36 | `# do hide` and `aaa # hide` are not flagged |
| LegacyFlags.CellCheckFlagsMarkdown | nbdocs/process.py:46-49 | non-code cells are never flagged |
| ImageLinks.GetImageLinkRe | nbdocs/process.py:52-63 | an empty name means any path |
| ImageLinks.LinkAt | nbdocs/process.py:63 | a reported match at a position is a match of the link pattern there |
| ImageLinks.LinkAtComplete | nbdocs/process.py:63 | wherever the pattern can match, the matcher finds a match |
| ImageLinks.FindLink | nbdocs/process.py:63 | `search`: a found match is the matcher's match at its start |
| ImageLinks.FindLinkStops | nbdocs/process.py:63 | a position holding a match stops the search there or earlier |
| ImageLinks.FindLinkLeftmost | nbdocs/process.py:63 | no position the search passes over holds a match |
| ImageLinks.FindLinkNone | nbdocs/process.py:63 | the search finds nothing exactly when the pattern matches nowhere |
| ImageLinks.NoBangNoLink | nbdocs/process.py:63 | text without `![` holds no link |
| ImageLinks.FindAll | nbdocs/process.py:94 | `finditer` yields only matches of the pattern, from the start on |
| ImageLinks.SubLinks | nbdocs/process.py:104 | `sub(r"\1(target)", s)` for a link pattern; `NoLinkUnchanged` and `OneLinkSub` state what it returns |
| ImageLinks.CorrectOutputImageLink | nbdocs/process.py:66-77 | `correct_output_image_link`; `OneLinkCorrected` and `OutputLinkExample` state what it returns |
| ImageLinks.NoLinkUnchanged | nbdocs/process.py:77 | without a match, `sub` returns the text unchanged and `finditer` yields nothing |
| ImageLinks.OneLinkSub | nbdocs/process.py:104 | on `![alt](name)`, replacing links to `name` gives `![alt](target)` |
| ImageLinks.OneLinkCorrected | nbdocs/process.py:77 | `correct_output_image_link` on `![alt](name)` gives `![alt](path/name)` |
| ImageLinks.OneLinkAny | nbdocs/process.py:61-63 | with any path allowed, `![alt](name)` is a single match whose path is `name` |
| ImageLinks.OutputLinkExample | tests/test_process_links.py:46-51 | `![jpg](output.jpg)` becomes `![jpg](images/output.jpg)` |
| ImageLinks.OutputLinkOtherName | tests/test_process_links.py:52-55 | a link to another name is unchanged |
| Paths.Parse | nbdocs/process.py:90-91 | `Path(s)` gives a well-formed path |
| Paths.Stem | nbdocs/process.py:100 | the stem followed by the suffix is the name |
| Paths.WithSuffix | src/nbdocs/convert.py:91 | fails exactly on a path without a name; otherwise it keeps the parent and the name is the stem plus the suffix |
| Paths.ChildParent | nbdocs/process.py:97 | the parent of `a / name` is `a`, and its name is `name` |
| Paths.ParseName | nbdocs/process.py:95-97 | a single component parses to a relative path with that name |
| MarkdownImages.MakeDirs | nbdocs/process.py:101 | `mkdir(parents=True, exist_ok=True)` only adds directories |
| MarkdownImages.MakeDirsFails | nbdocs/process.py:101 | on a tree it fails exactly when a file is in the way |
| MarkdownImages.MakeDirsValid | nbdocs/process.py:101 | otherwise the result is a tree in which the path is a directory |
| MarkdownImages.CopyFile | nbdocs/process.py:107 | `shutil.copy` adds the target file and logs the copy |
| MarkdownImages.CopyFileSpec | nbdocs/process.py:106-107 | on a tree, the copy succeeds exactly when the source is a file, the target is neither the source nor a directory, and the target's parent is a directory; the result is a tree with the target added |
| MarkdownImages.FixLink | nbdocs/process.py:96-109 | one link path: a successful step only adds files and directories |
| MarkdownImages.FixLinks | nbdocs/process.py:94-107 | the inner loop over a cell's link paths, stopping at the first exception; `FixLinksPreserves` and `FixLinksSkipped` state it |
| MarkdownImages.ImagesInCell | nbdocs/process.py:92-109 | one cell of the outer loop: only markdown cells are looked at; `ImagesInCellsShape` states it |
| MarkdownImages.LinkPaths | nbdocs/process.py:94-95 | one path group per match of the link pattern |
| MarkdownImages.ImagesInCells | nbdocs/process.py:92-93 | the number of cells is kept |
| MarkdownImages.FixCell | nbdocs/process.py:94-109 | the inner loop on a cell object sets its source, file system and exception as the specification does |
| MarkdownImages.FixOne | nbdocs/process.py:95-107 | one link on the cell object, as `FixLink` |
| MarkdownImages.FixCellAt | nbdocs/process.py:92-109 | only the given cell of the list changes |
| MarkdownImages.CorrectMarkdownImageLink | nbdocs/process.py:80-109 | the loops leave the cells, the file system and the exception the specification gives |
| MarkdownImages.FixLinkPreserves | nbdocs/process.py:101-107 | one link keeps the file system a tree and removes nothing |
| MarkdownImages.FixLinksPreserves | nbdocs/process.py:94-107 | so do all links of a cell |
| MarkdownImages.ImagesInCellsPreserves | nbdocs/process.py:92-107 | so does the whole notebook |
| MarkdownImages.FixLinksSkipped | nbdocs/process.py:96-98 | external links and links to missing files change nothing and copy nothing |
| MarkdownImages.ImagesInCellsShape | nbdocs/process.py:92-93 | only the sources of markdown cells change |
| MarkdownImages.ImagesInCellsNoMarkdown | nbdocs/process.py:92-93 | a notebook without markdown cells is unchanged and no file is touched |
| MarkdownImages.ImagesInCellsNoImageLinks | tests/test_process_links.py:76-80 | a notebook whose markdown cells hold no `![` (its images are code outputs) is unchanged, and no file is touched |
| MarkdownImages.OneLinkCell | nbdocs/process.py:94-107 | a cell `![alt](name)`: a skipped link leaves it; otherwise the image is copied and the link points at the copy |
| MarkdownImages.ExternalLinkKept | tests/test_process_links.py:70-72 | an `http` link is left as it is |
| MarkdownImages.MissingImageKept | tests/test_process_links.py:73-75 | a link to a missing file is left as it is |
| MarkdownImages.DogImageMoved | tests/test_process_links.py:64-69 | the test notebook's link becomes `images/markdown_image_files/dog.jpg`; a run without exception ends by copying `tests/test_nbs/dog.jpg` to the copy target of `{dest}/images/markdown_image_files/dog.jpg` (the directory itself is stated by `MakeDirsValid`) |

## Left out

- Input and output are not modelled: reading and writing notebooks, `convert2md`, `clean_nb_file` and the command-line apps. Only the transformations between reading and writing are modelled.
- The nbconvert Markdown exporter is a function parameter of `Nb2Md`. `ClearMetadataPreprocessor` is two function parameters: one for the notebook's metadata and one for a cell's.
- nbconvert's own preprocessor loop is modelled as a plain loop over the cells. Its resources dictionary is left out.
- `.process_cell` and `.cfg_tools`, which `src/nbdocs/convert.py` imports, are not part of this model. `MdConverter` dispatches to the `process_*_cell` functions of `flags.py` and `process.py`.
- `\w` is ASCII only: letters, digits and `_`. Python's Unicode word characters are not modelled. `\s` follows Python's `str.isspace`.
- `\d` in `re_cell` (`Fences.CellNumberFrom`, `Fences.SkipDigits`) is ASCII `0`-`9` only. Python's `\d` on `str` also matches other Unicode decimal digits; those are not modelled.
- `Notebook.CellValue` leaves out the cell `id` field of nbformat 4.5 cells. So the fresh id that `nbformat.new_markdown_cell` gives each comment cell in `preprocess_nb` is not modelled either.
- `Notebook.Valid` requires the cells of a notebook to be distinct objects. A notebook whose list holds the same cell object twice is not modelled.
- Modification times are integers, and the file system is a value. Timestamp precision and concurrent changes are not modelled.
- The message `correct_markdown_image_link` prints for a missing image is not modelled. The link is just left unchanged.
- `shutil.copy` is modelled only through its effect: the target file exists and the copy is logged. Permissions, file contents and metadata are not modelled.
- In `get_image_link_re(path)` the path is not escaped. The model treats `.` in it as a wildcard and every other character literally. Other regex metacharacters in image paths are not modelled, and neither are backslashes in the `sub` replacement template.
- `MarkdownImages.OneLinkCell`: the link is `![alt](name)` with no whitespace around or inside the parentheses. The pattern also allows whitespace there, and `sub` then drops it; that case is not stated.
- The greedy `.*` groups of the image-link pattern are modelled in backtracking order. Properties are proved on single-link texts only. The six-link count of the test text is not stated.
- `Fences.CellFlagSubFrom`: its contract states only that the characters are kept. Where the marker moves is stated by `Fences.ScanAtFlag` and `Fences.ScanAtOpener` at every match of the declarative patterns, whatever follows it, and by `Fences.CellFlagSubNoFence` between matches.
- `Fences.MdProcessCellFlag`: its contract states only the length and the characters. The whole output is stated for a backtick-free prefix and one fence opener by `Fences.MarkerMovedThrough`, which leaves the rest of the text to the scan. `Fences.MarkerMoved` states it outright only when no `#` follows the marker. The closing-fence case is stated by `Fences.ClosingFenceTaken`. Texts with several cells are covered by these lemmas together, not by one closed formula.
- `Fences.MdProcessCellOpeners`: its contract states only the length and the characters. Its output is stated by `Fences.OpenerMovedThrough` and `Fences.ScanThroughMarker` (for a backtick-free prefix and one fence opener), by `Fences.ScanAtOpener` and `Fences.MarkerScanAny` at each opener, and by `Fences.ClosingFenceKept` and `Fences.ClosingFenceStays` at a closing fence.
- `Fences.RemoveFenceOpenersFrom`: its contract states only that the text does not grow. The emptiness test built on it is stated by `ProcessMd.CheckCodeCellEmptyIffBlank`.
- `re_cell` (`src/nbdocs/re_tools.py:54-56`) is matched but never used by the source, so no substitution is built on it.

## Findings

| source | as written | input that shows it | evidently intended | confidence | as-written member | corrected member |
|---|---|---|---|---|---|---|
| nbdocs/process.py:33-34 | `re_flags` splices the alternation without a group, so only `hide` is anchored after `^\s*\#\s*`. The other branches match anywhere in the source. | the code line `hide_input = True` is flagged as hidden | the alternation in a group, `^\s*\#\s*(hide\|hide_input\|...)`. The later `src/nbdocs/flags.py:57` adds this group and also requires the flag to end the line (`\s*$`). The corrected member models only the group. | not executed; the later version of the file adds the group | LegacyFlags.UngroupedFlagsCode | LegacyFlags.CellCheckFlags |
| src/nbdocs/process_md.py:22 | `re_code_cell_flag` is ```` ^```(\w*\s*)\n###cell ````, and its `\s*` also spans line ends. So a closing fence, a blank line and the next cell's marker match too, and the closing fence moves into the next cell. | a code cell without output followed by another cell: ```` ```python\n###cell\nx\n```\n\n###cell\ny ```` becomes ```` ###cell\n```python\nx\n###cell\n```\n\ny ```` | ```` ^```(\w*[^\S\n]*)\n###cell ````: the info string stays on the fence's line, so only the marker right after a fence opener moves | not executed; medium, because `md_process_cell_flag` is called only by its tests | Fences.ClosingFenceMoved | Fences.ClosingFenceStays |
