# Educational-assistance list: store format, editor and document layout

The system keeps a list of record pairs in a plain-text store file. Each pair
holds a parent/guardian's details and a student's details. Two scripts use
the file:

- `auto-doc-parentstudent.py` is a console editor. It loads the store file
  and adds, edits or deletes entries in a menu loop. On exit it writes the
  file back and keeps the previous version as a one-generation backup.
- `docwriter.py` reads the same file with its own loader. It prints the
  entries into a document, four entries to a page, as 2×2 tables separated
  by page breaks.

The model, module by module:

- `Wrappers`: `Option`.
- `Text`: the parts of Python's `str` the scripts rely on, and the literal
  search the regular-expression scanners are built from:
  - `strip`, over every character `str.isspace` accepts;
  - `splitlines`, breaking at `'\n'` only;
  - `"\n".join`;
  - `Find`, the first position at which a literal pattern occurs.
- `Fields`:
  - A Python `dict[str, str]` is an insertion-ordered list of fields with
    unique keys.
  - `d[k] = v` is `Put`: an existing key keeps its position and takes the
    new value.
  - `AddLine` is the per-line rule both loaders apply inside a sub-block:
    skip a line without a colon; otherwise strip it, split it at the first
    colon and store the stripped key and value.
- `Store`:
  - The encoder of `save_to_txt`, as functions (`Encode`, `Block`) and as
    the imperative writing loop (`WriteEntries`).
  - The regular expressions of `load_entries`, as literal scanners
    (`HeaderMatch`, `MatchBlock`, `FindBlocks`, `SearchParent`,
    `SearchStudent`).
  - The decoder, also as functions and as imperative loops (`Decode`,
    `LoadEntries`).
  - The store/backup file pair, as a `Disk` object with two optional
    strings.
- `StoreLaws`:
  - The side conditions under which stored entries read back unchanged
    (`Storable`).
  - The round-trip `Decode(Some(Encode(es))) == es` and the lemmas it
    rests on.
- `Editor`:
  - The prompt-default rule of `get_input` and `collect_info`.
  - The way a typed entry number becomes a Python list index (`Select`).
  - The list edits of the menu, as an `EntryList` object whose methods
    append, replace in place and pop.
- `DocWriter`:
  - The second loader, proved to agree with the first on every input.
  - `format_entry_text`.
  - The table and page-break layout of `write_docx`, against an abstract
    `Document` whose only state is its sequence of items (tables of cells,
    page breaks).
  - Lemmas on the layout:
    - group count;
    - placement of every entry in exactly one cell, row-major;
    - occupancy of each table;
    - no trailing page break.

Differences from the source, all deliberate:

- A typed entry number that is not a number makes the source raise
  `ValueError`. The index is `number - 1`, so a number outside
  `-len + 1..len` (including `-len` itself) makes it raise `IndexError`.
  In both cases the program crashes without saving.
- The model returns the outcomes `NotANumber` and `OutOfRange` and leaves
  the list as it was.
- Edit and delete on an empty list print a message and change nothing. The
  model returns `NoEntries` for this.

## Model

| member | source | states |
|---|---|---|
| Fields.Put | auto-doc-parentstudent.py:67-67 | `d[k] = v`: a new key is appended at the end; unique keys stay unique |
| Fields.PutExisting | auto-doc-parentstudent.py:67-67 | overwriting a present key keeps the length and the key's position, and changes no other field |
| Fields.PutKeys | auto-doc-parentstudent.py:67-67 | the keys after `d[k] = v` are exactly the old keys plus `k` |
| Fields.Lookup | auto-doc-parentstudent.py:15-15 | `d.get(k)` is present iff `k` is a key, and then holds that key's value |
| Fields.AddLine | auto-doc-parentstudent.py:65-67 | definition of the per-line rule: a line without `:` is skipped, any other is stripped, split at its first colon, and its stripped key and value are assigned; SplitAtFirstColon, LineWithoutColon and AddLineSpaced are the properties about it |
| Fields.SplitAssign | auto-doc-parentstudent.py:66-67 | definition of `split(":", 1)` followed by the stripped assignment; SplitAssignAt is the property about it |
| Fields.FieldsFrom | auto-doc-parentstudent.py:64-67 | applying the lines of a sub-block in order keeps the keys unique |
| Fields.SplitAtFirstColon | auto-doc-parentstudent.py:65-67 | for a line `pre:post` with no colon in `pre`: the key is the stripped `pre` and the value the stripped `post`, further colons included |
| Fields.LineWithoutColon | auto-doc-parentstudent.py:65-65 | a line without a colon leaves the dict unchanged |
| Fields.AddLineSpaced | docwriter.py:24-27 | whitespace around a line does not change its effect on the dict |
| Fields.BlankLinesSkipped | docwriter.py:24-27 | whitespace-only lines leave the dict unchanged |
| Text.Trim | auto-doc-parentstudent.py:8-8 | `strip` over the whitespace of `str.isspace` never lengthens its input, and its result is empty or starts and ends with a non-space character |
| Text.TrimParts | auto-doc-parentstudent.py:8-8 | a string is the whitespace `strip` removes at its front, the stripped text, and the whitespace removed at its back |
| Text.SplitLines | auto-doc-parentstudent.py:64-64 | `splitlines` yields lines without a line break |
| Text.SplitJoin | auto-doc-parentstudent.py:64-64 | splitting lines that each end in a line break gives the lines back |
| Text.SplitJoinNl | docwriter.py:44-44 | splitting `"\n".join(ls)` gives `ls` back when no line holds a break and the last is non-empty |
| Store.Decimal | auto-doc-parentstudent.py:38-38 | the entry number is written as a non-empty run of decimal digits, starting with `0` only for zero |
| Store.DecimalValue | auto-doc-parentstudent.py:38-38 | the digits written for `n`, read back in base ten, denote `n` |
| Store.HeaderNumber | auto-doc-parentstudent.py:38-38 | the header line of entry `n` is `==== Entry #`, the digits of `n`, then ` ====` |
| Store.Block | auto-doc-parentstudent.py:38-45 | definition: the lines written for one entry; BlockWrites is the property about it |
| Store.EncodeFrom | auto-doc-parentstudent.py:37-45 | definition: the blocks of a list, numbered on from a given number; EncodeFromAppend and EncodeSnoc are the properties about it |
| Store.Encode | auto-doc-parentstudent.py:37-45 | definition: the blocks numbered from 1; WriteEntries and RoundTrip are the properties about it |
| Store.WriteFields | auto-doc-parentstudent.py:40-41 | the field loop appends one `  k: v` line per field, in insertion order |
| Store.BlockWrites | auto-doc-parentstudent.py:38-45 | a block is the header, the parent label and fields, a blank line, the student label and fields, and the separator, in that order |
| Store.WriteBlock | auto-doc-parentstudent.py:38-45 | writing one entry appends exactly its block |
| Store.WriteEntries | auto-doc-parentstudent.py:37-45 | the writing loop produces `Encode(entries)`, numbering entries from 1 |
| Store.HeaderMatch | auto-doc-parentstudent.py:56-56 | `==== Entry #\d+ ====\n` at the start of the text, with a non-empty greedy digit run; a match is non-empty and within the text; HeaderMatchAt is the property about it |
| Store.MatchBlock | auto-doc-parentstudent.py:56-56 | definition: a header, then the shortest text up to the first line feed and separator; a match ends within the text; MatchBlockAt is the property about it |
| Store.FindBlocks | auto-doc-parentstudent.py:56-56 | definition: leftmost non-greedy block scan, resuming after each match; FindWrittenBlocks, ScanBlock and SkipOutside are the properties about it |
| Store.SearchParent | auto-doc-parentstudent.py:58-58 | definition: the leftmost parent label that some later empty line and student label follow, with the group stopping at the first of them; ParentPresent, ParentMissing and ParentFound are the properties about it |
| Store.SearchStudent | auto-doc-parentstudent.py:59-59 | definition: everything after the first student label; StudentFound is the property about it |
| Store.Section | auto-doc-parentstudent.py:63-72 | definition: the dict its lines give, or `{}` when the search failed; ReadsBack is the property about it |
| Store.ParseBlock | auto-doc-parentstudent.py:57-74 | definition: the entry of one block; ParseBody is the property about it |
| Store.Decode | auto-doc-parentstudent.py:48-75 | a missing file gives no entries; otherwise one entry per matched block, each with unique keys |
| Store.ReadSection | auto-doc-parentstudent.py:63-67 | the line loop builds the dict that the per-line rule gives |
| Store.ReadBlock | auto-doc-parentstudent.py:57-73 | reading one block gives the parsed parent and student dicts |
| Store.ReadBlocks | auto-doc-parentstudent.py:57-74 | the block loop gives one entry per block, in order |
| Store.LoadEntries | auto-doc-parentstudent.py:48-75 | the loading loops compute `Decode(content)` |
| Store.Disk.SaveToTxt | auto-doc-parentstudent.py:31-45 | the backup becomes the previous store text, or empty with no store file; the store becomes the encoding |
| Store.SaveTwice | auto-doc-parentstudent.py:31-36 | after two saves the backup holds the first save's output |
| StoreLaws.Storable | auto-doc-parentstudent.py:40-44 | definition of the entries the line format carries: stripped keys and values without any `splitlines` boundary, colon-free unique keys, parent values not ending in the student label; RoundTrip is the property about it |
| StoreLaws.RoundTrip | auto-doc-parentstudent.py:31-75 | decoding the encoding of storable entries returns them unchanged |
| StoreLaws.FindWrittenBlocks | auto-doc-parentstudent.py:56-56 | the block scan finds exactly the written bodies, in file order |
| StoreLaws.SkipOutside | auto-doc-parentstudent.py:56-56 | text containing no `=` before a block is ignored by the block scan |
| StoreLaws.ScanBlock | auto-doc-parentstudent.py:56-56 | a framed block is found whatever its number, and scanning resumes after its separator |
| StoreLaws.MatchBlockAt | auto-doc-parentstudent.py:56-56 | the non-greedy match of a framed block captures exactly its body |
| StoreLaws.ParentFound | auto-doc-parentstudent.py:58-67 | the parent sub-block of a written body reads back as the parent dict |
| StoreLaws.ParentPresent | auto-doc-parentstudent.py:58-58 | with parent fields, the parent search stops at the blank line before the student label |
| StoreLaws.ParentMissing | auto-doc-parentstudent.py:58-58 | with no parent fields, the parent search fails |
| StoreLaws.StudentFound | auto-doc-parentstudent.py:59-59 | the student search captures the student field lines |
| StoreLaws.ReadsBack | auto-doc-parentstudent.py:64-67 | the field lines of a storable dict parse back to that dict |
| StoreLaws.ParseBody | auto-doc-parentstudent.py:57-73 | a written body parses back to its entry |
| StoreLaws.EncodeFromAppend | auto-doc-parentstudent.py:37-37 | encoding a concatenation continues the numbering across the two halves |
| StoreLaws.EncodeSnoc | auto-doc-parentstudent.py:37-37 | appending an entry appends its block, numbered one past the list length |
| Editor.GetInput | auto-doc-parentstudent.py:7-9 | a blank answer yields the default; any other yields the stripped answer, non-empty |
| Editor.DefaultFor | auto-doc-parentstudent.py:15-15 | the default is the existing dict's value for the field, or empty with no dict or no such key |
| Editor.Assign | auto-doc-parentstudent.py:12-16 | definition: the dict filled by assigning the values in field order; its keys are unique, and AssignKeys and AssignInOrder are the properties about it |
| Editor.Collected | auto-doc-parentstudent.py:11-17 | definition: the dict `collect_info` returns for the given answers; CollectedInOrder, CollectInfo and BlankAnswersKeep are the properties about it |
| Editor.AssignKeys | auto-doc-parentstudent.py:12-16 | the dict's keys are exactly the prompted fields |
| Editor.AssignInOrder | auto-doc-parentstudent.py:12-16 | with distinct fields, the dict lists the fields in prompt order, each with its value |
| Editor.CollectedInOrder | auto-doc-parentstudent.py:11-17 | `collect_info` returns the fields in list order, each with its answer or the default |
| Editor.CollectInfo | auto-doc-parentstudent.py:11-17 | the prompting loop builds the dict `Collected` describes |
| Editor.CollectedUnique | auto-doc-parentstudent.py:11-17 | the collected dict has unique keys |
| Editor.BlankAnswersKeep | auto-doc-parentstudent.py:113-114 | when the existing dict's keys are exactly the prompt list, in prompt order, editing with every answer blank leaves that dict unchanged |
| Editor.ParentFieldsDistinct | auto-doc-parentstudent.py:19-23 | there are twelve parent fields, all distinct |
| Editor.StudentFieldsDistinct | auto-doc-parentstudent.py:25-29 | there are twelve student fields, all distinct |
| Editor.NewEntry | auto-doc-parentstudent.py:101-102 | definition: the entry collected on add; NewEntryKeys is the property about it |
| Editor.EditedEntry | auto-doc-parentstudent.py:112-114 | definition: the entry re-collected on edit, with the old dicts as defaults; BlankAnswersKeep is the property about it |
| Editor.NewEntryKeys | auto-doc-parentstudent.py:101-102 | a new entry's dicts have exactly the parent and student field lists as keys |
| Editor.Select | auto-doc-parentstudent.py:106-111 | empty list, non-number and out-of-range number are told apart; a number is accepted iff `-len <= number-1 < len`, and the index is `number-1` taken modulo the length |
| Editor.SelectNumbers | auto-doc-parentstudent.py:111-112 | numbers 1..len pick position number-1; 0 and below pick from the end |
| Editor.Appended | auto-doc-parentstudent.py:103-103 | one entry more, at the end, earlier entries unchanged |
| Editor.Replaced | auto-doc-parentstudent.py:115-115 | same length, position `idx` replaced, every other entry unchanged |
| Editor.Removed | auto-doc-parentstudent.py:124-124 | one entry fewer: earlier entries unchanged, later entries shifted down, the removed entry the only one missing |
| Editor.AppendedUnique | auto-doc-parentstudent.py:103-103 | appending keeps every dict's keys unique |
| Editor.ReplacedUnique | auto-doc-parentstudent.py:115-115 | replacing keeps every dict's keys unique |
| Editor.RemovedUnique | auto-doc-parentstudent.py:124-124 | popping keeps every dict's keys unique |
| Editor.EntryList.constructor | auto-doc-parentstudent.py:88-88 | the list starts as the decoded store file |
| Editor.EntryList.Add | auto-doc-parentstudent.py:100-103 | the list becomes the old list with the collected entry appended |
| Editor.EntryList.Edit | auto-doc-parentstudent.py:105-115 | on an accepted number, only that position changes, to the re-collected entry defaulting to its old values; otherwise nothing changes |
| Editor.EntryList.Delete | auto-doc-parentstudent.py:117-124 | on an accepted number, that position is popped; otherwise nothing changes |
| Editor.EntryList.Save | auto-doc-parentstudent.py:133-134 | saving follows the backup policy, and storable entries read back unchanged from the new store |
| DocWriter.Decode | docwriter.py:11-34 | a missing file gives no entries; otherwise one entry per matched block |
| DocWriter.Section | docwriter.py:23-32 | definition: the dict from the stripped sub-block's lines, or `{}`; SectionAgrees is the property about it |
| DocWriter.ParseBlock | docwriter.py:19-33 | definition: the entry of one block in this loader; ParseBlockAgrees is the property about it |
| DocWriter.SpaceBefore | docwriter.py:24-24 | whitespace that `strip` removes in front does not change the parsed dict |
| DocWriter.SpaceAfter | docwriter.py:24-24 | whitespace that `strip` removes behind does not change the parsed dict |
| DocWriter.SectionAgrees | docwriter.py:23-32 | the extra `strip` before `splitlines` gives the same dict as the editor's loader |
| DocWriter.ParseBlockAgrees | docwriter.py:18-33 | each block parses to the same entry in both loaders |
| DocWriter.DecodeAgrees | docwriter.py:11-34 | the two loaders agree on every input |
| DocWriter.ReadSection | docwriter.py:24-27 | the line loop builds the dict the per-line rule gives on the stripped sub-block |
| DocWriter.ReadBlock | docwriter.py:19-33 | reading one block gives the parsed entry |
| DocWriter.LoadEntries | docwriter.py:11-34 | the loading loops compute this loader's decoding, which equals the editor's |
| DocWriter.FieldTextReadsBack | docwriter.py:39-39 | a cell line `k: v` with a colon-free, stripped key and a stripped value reads back, under the loaders' per-line rule, as `d[k] = v` |
| DocWriter.FieldTextsReadBack | docwriter.py:38-39 | the field lines of a cell, read back line by line, rebuild the dict they came from, in insertion order |
| DocWriter.EntryLines | docwriter.py:37-43 | 3 + parent + student lines: parent label, parent fields, an empty line, student label, student fields |
| DocWriter.EntryText | docwriter.py:36-44 | definition: the cell lines joined by line feeds; FormatEntryText, EntryTextLines and EntryTextEnd are the properties about it |
| DocWriter.FormatEntryText | docwriter.py:36-44 | the line-building loops yield those lines joined by line breaks |
| DocWriter.EntryTextLines | docwriter.py:36-44 | with single-line keys and values, splitting the text gives exactly those lines back |
| DocWriter.EntryTextEnd | docwriter.py:44-44 | when no key or value holds a line feed, the text is non-empty and does not end with a line break |
| DocWriter.Document.constructor | docwriter.py:47-47 | a new document is empty |
| DocWriter.Document.AddTable | docwriter.py:60-60 | appends one blank 2×2 table |
| DocWriter.Document.SetCell | docwriter.py:70-72 | fills one cell of the last table and nothing else |
| DocWriter.SetCellIn | docwriter.py:70-72 | the chosen cell holds the text; every other cell is unchanged |
| DocWriter.Document.AddPageBreak | docwriter.py:77-77 | appends one page break |
| DocWriter.CellFor | docwriter.py:66-69 | a cell is filled iff its index is below the entry count |
| DocWriter.GridAt | docwriter.py:63-69 | definition: the 2×2 table of the group starting at `i`; GridCells and GroupOccupied are the properties about it |
| DocWriter.GridCells | docwriter.py:64-69 | cell (row, col) of the group at `i` holds entry `i + 2*row + col`, or is blank past the end |
| DocWriter.FillStep | docwriter.py:64-72 | one inner-loop step fills at most the one cell with the next index |
| DocWriter.FillCell | docwriter.py:66-74 | the inner-loop body fills the table's next cell as the layout says |
| DocWriter.AddGroup | docwriter.py:60-74 | one outer-loop iteration appends the group's filled table |
| DocWriter.WriteDocx | docwriter.py:46-79 | the loops produce exactly `Layout` of the entries' texts |
| DocWriter.LayoutFrom | docwriter.py:59-77 | definition: the tables and page breaks from group `i` on, a break only when `i + 4 < n`; LayoutFromStep, LayoutFromLength and LayoutFromAt are the properties about it |
| DocWriter.Layout | docwriter.py:59-77 | definition: the whole document body; WriteDocx, LayoutShape, LayoutCounts and NoTrailingBreak are the properties about it |
| DocWriter.Groups | docwriter.py:59-59 | the group count is the ceiling of n/4 |
| DocWriter.LayoutShape | docwriter.py:59-77 | the document alternates tables and page breaks, 2·groups − 1 items, table p/2 holding the group at 2p |
| DocWriter.LayoutCounts | docwriter.py:59-77 | ceil(n/4) tables and ceil(n/4) − 1 page breaks, none with no entries |
| DocWriter.NoTrailingBreak | docwriter.py:76-77 | the document is empty iff there are no entries, and starts and ends with a table |
| DocWriter.GroupOccupied | docwriter.py:64-67 | the group at `i` fills min(4, n − i) cells |
| DocWriter.TableOccupancy | docwriter.py:59-67 | every table but the last has 4 filled cells; the last has n − 4·(groups − 1) |
| DocWriter.CellContents | docwriter.py:59-69 | table k's cell (row, col) shows entry 4k + 2·row + col, or is blank |
| DocWriter.SlotInjective | docwriter.py:66-66 | distinct (table, row, col) triples get distinct entry indices |
| DocWriter.SlotCovers | docwriter.py:59-66 | every entry index is some (table, row, col) triple's |
| DocWriter.EntryPlaced | docwriter.py:59-69 | every entry appears, with its formatted text, in the cell of its slot |
| DocWriter.Generate | docwriter.py:82-87 | no document when there are no entries; otherwise the layout of the loaded entries |

## Left out

- File I/O. The store and backup files are the two optional strings of
  `Store.Disk`.
  - `os.path.exists`, `open`, `read` and `write` are not modelled beyond
    that.
  - `doc.save` is not modelled; the document is the `Document` object.
- Console I/O:
  - `input` answers are parameters: a sequence of raw answers and an
    already-parsed entry number.
  - `print` and `display_entry` are not modelled.
  - The menu loop, choice 4 (view) and "Invalid choice" are not modelled.
  - The entry listing printed before edit and delete is not modelled.
- `int()` parsing: the entry number arrives as `Option<int>`, with `None`
  for text that is not a number.
- Exceptions: where the source crashes on `ValueError` or `IndexError`, the
  model returns a `Selection` outcome and keeps the list.
- Text.SplitLines: breaks at `'\n'` only. Python's `splitlines` also
  breaks at `'\r'`, `"\r\n"`, vertical tab, form feed, U+001C..U+001E,
  U+0085, U+2028 and U+2029 (`Text.IsOtherBreak`). On text holding any of
  these the model's loaders split differently from the source's.
- Text-mode reading turns `'\r'` and `"\r\n"` into `'\n'`; the store text
  is modelled as read unchanged.
- Store.HeaderMatch: `\d` accepts the ASCII digits `0`..`9` only. Python's
  `\d` on a `str` pattern also accepts every other Unicode decimal digit,
  so a header numbered with such digits is a block in the source and not
  in the model. The encoder writes ASCII digits only.
- python-docx:
  - page size, margins, font size, alignment, `autofit` and runs are not
    modelled;
  - a table is a 2×2 grid of optional cell texts.
- The general regular-expression engine: only the three patterns the
  loaders use are modelled, as literal scanners.
- Text encoding (`utf-8`): characters are Dafny `char`s.
- StoreLaws.RoundTrip is proved under side conditions (`Storable`), which
  are stricter than some inputs that would also round-trip:
  - keys and values are stripped;
  - they hold no character at which Python's `splitlines` breaks
    (`Text.NoLineBreak`), `'\r'` included;
  - keys hold no colon and are unique;
  - parent values do not end with the student label.
- StoreLaws.RoundTrip relies on the line-feed-only splitting and on
  unchanged file text. Under those conditions the encoding holds no line
  boundary but `'\n'`, so Python's splitting agrees with the model's on it.
  That agreement is an argument, not a proved lemma.
