/** The document generator: its own reader of the store file, the text it
    puts in one cell for an entry, and the page layout of the entries as
    2 x 2 tables of four entries a page. */
module DocWriter {
  import opened Wrappers
  import opened Text
  import opened Fields
  import Store
  import StoreLaws

  // ---------------------------------------------------------------------
  // The generator's `load_entries`: the same block and sub-block searches
  // as the editor's, but each sub-block is stripped before it is split
  // into lines.

  /** The dict filled from a sub-block, or `{}` when the search failed. */
  function Section(g: Option<string>): FieldMap
  {
    if g.Some? then FieldsFrom([], SplitLines(Trim(g.value))) else []
  }

  function ParseBlock(b: string): Entry
  {
    Entry(Section(Store.SearchParent(b)), Section(Store.SearchStudent(b)))
  }

  /** `load_entries`: one entry per block, in file order; a missing file
      (`None`) gives no entries. */
  function Decode(content: Option<string>): (es: seq<Entry>)
    ensures content.None? ==> es == []
    ensures content.Some? ==> |es| == |Store.FindBlocks(content.value)|
  {
    match content
    case None => []
    case Some(t) =>
      var bs := Store.FindBlocks(t);
      seq(|bs|, i requires 0 <= i < |bs| => ParseBlock(bs[i]))
  }

  /** Whitespace in front of a text adds no field: it is either whole
      blank lines, which are skipped, or the front of the first line,
      which is stripped. */
  lemma {:induction false} SpaceBefore(m: FieldMap, w: string, s: string)
    requires AllSpace(w)
    ensures FieldsFrom(m, SplitLines(w + s)) == FieldsFrom(m, SplitLines(s))
    decreases |w|
  {
    if w == [] {
      assert w + s == s;
    } else if LineEnd(w) < |w| {
      var j := LineEnd(w);
      var r := w[j + 1..];
      SplitHeadIn(w, s);
      AllSpaceSlice(w, 0, j);
      AllSpaceSlice(w, j + 1, |w|);
      FirstLineSkipped(m, w[..j], SplitLines(r + s));
      SpaceBefore(m, r, s);
    } else {
      LineEndFirst(w);
      NoNewlineBefore(w, |w|);
      assert w[..|w|] == w;
      if s == [] {
        assert w + s == w;
        SplitWhole(w);
        FirstLineSkipped(m, w, []);
      } else {
        SplitHeadAcross(w, s);
        var ls := SplitLines(s);
        assert w + ls[0] + [] == w + ls[0];
        AddLineSpaced(m, w, ls[0], []);
        FirstLineSame(m, w + ls[0], ls);
      }
    }
  }

  /** Whitespace after a text adds no field: it is either whole blank
      lines or the end of the last line, which is stripped. */
  lemma {:induction false} SpaceAfter(m: FieldMap, s: string, w: string)
    requires AllSpace(w)
    ensures FieldsFrom(m, SplitLines(s + w)) == FieldsFrom(m, SplitLines(s))
    decreases |s|
  {
    if s == [] {
      assert s + w == w;
      BlankLines(w);
      BlankLinesSkipped(m, SplitLines(w));
    } else if LineEnd(s) < |s| {
      var j := LineEnd(s);
      var r := s[j + 1..];
      SplitHeadIn(s, w);
      SplitParts(s, j, s[..j], r);
      LinesCons(m, SplitLines(s + w), s[..j], SplitLines(r + w));
      LinesCons(m, SplitLines(s), s[..j], SplitLines(r));
      SpaceAfter(AddLine(m, s[..j]), r, w);
    } else {
      SpaceAfterLine(m, s, w);
    }
  }

  /** The last line of a text, followed by whitespace. */
  lemma SpaceAfterLine(m: FieldMap, s: string, w: string)
    requires AllSpace(w) && s != [] && LineEnd(s) == |s|
    ensures FieldsFrom(m, SplitLines(s + w)) == FieldsFrom(m, SplitLines(s))
  {
    OneLine(s);
    if w == [] {
      assert s + w == s;
    } else {
      SplitHeadAcross(s, w);
      BlankLines(w);
      SpacedLastLine(m, s, SplitLines(w));
      assert FieldsFrom(m, SplitLines(s + w)) == AddLine(m, s);
    }
  }

  /** A text without a line feed is one line. */
  lemma OneLine(s: string)
    requires s != [] && LineEnd(s) == |s|
    ensures NoNewline(s) && SplitLines(s) == [s]
  {
    LineEndFirst(s);
    NoNewlineBefore(s, |s|);
    assert s[..|s|] == s;
    SplitWhole(s);
  }

  /** A last line `s` with the blank lines `ls` run into it. */
  lemma SpacedLastLine(m: FieldMap, s: string, ls: seq<string>)
    requires AllSpaceLines(ls) && ls != []
    ensures FieldsFrom(m, [s + ls[0]] + ls[1..]) == AddLine(m, s)
  {
    assert [] + s + ls[0] == s + ls[0];
    AddLineSpaced(m, [], s, ls[0]);
    LastLineSpaced(m, s + ls[0], s, ls);
    FieldsFromCons(m, [s]);
  }

  lemma LinesCons(m: FieldMap, ls: seq<string>, l: string, rest: seq<string>)
    requires ls == [l] + rest
    ensures FieldsFrom(m, ls) == FieldsFrom(AddLine(m, l), rest)
  {
    FieldsFromCons(m, ls);
    assert ls[1..] == rest;
  }

  /** A blank first line is skipped. */
  lemma FirstLineSkipped(m: FieldMap, l: string, ls: seq<string>)
    requires AllSpace(l)
    ensures FieldsFrom(m, [l] + ls) == FieldsFrom(m, ls)
  {
    FieldsFromCons(m, [l] + ls);
    assert ([l] + ls)[1..] == ls;
    BlankLineSkipped(m, l);
  }

  /** A first line that acts like the first of `ls`. */
  lemma FirstLineSame(m: FieldMap, l: string, ls: seq<string>)
    requires ls != [] && AddLine(m, l) == AddLine(m, ls[0])
    ensures FieldsFrom(m, [l] + ls[1..]) == FieldsFrom(m, ls)
  {
    FieldsFromCons(m, [l] + ls[1..]);
    assert ([l] + ls[1..])[1..] == ls[1..];
    FieldsFromCons(m, ls);
  }

  /** A last line `x` that acts like `l`, followed by blank lines. */
  lemma LastLineSpaced(m: FieldMap, x: string, l: string, ls: seq<string>)
    requires ls != [] && AllSpaceLines(ls) && AddLine(m, x) == AddLine(m, l)
    ensures FieldsFrom(m, [x] + ls[1..]) == FieldsFrom(m, [l])
  {
    FieldsFromCons(m, [x] + ls[1..]);
    assert ([x] + ls[1..])[1..] == ls[1..];
    FieldsFromCons(m, [l]);
    assert AllSpaceLines(ls[1..]) by {
      forall i | 0 <= i < |ls| - 1 ensures AllSpace(ls[1..][i]) {
        assert ls[1..][i] == ls[i + 1];
      }
    }
    BlankLinesSkipped(AddLine(m, x), ls[1..]);
  }

  /** Whitespace on both sides of a text adds no field. */
  lemma SpaceAround(m: FieldMap, u: string, t: string, v: string)
    requires AllSpace(u) && AllSpace(v)
    ensures FieldsFrom(m, SplitLines(u + (t + v))) == FieldsFrom(m, SplitLines(t))
  {
    SpaceBefore(m, u, t + v);
    SpaceAfter(m, t, v);
  }

  /** Stripping a sub-block first changes nothing: the two readers fill
      the same dict from it. */
  lemma SectionAgrees(g: Option<string>)
    ensures Section(g) == Store.Section(g)
  {
    if g.Some? {
      var u, v := TrimParts(g.value);
      SpaceAround([], u, Trim(g.value), v);
    }
  }

  lemma ParseBlockAgrees(b: string)
    ensures ParseBlock(b) == Store.ParseBlock(b)
  {
    SectionAgrees(Store.SearchParent(b));
    SectionAgrees(Store.SearchStudent(b));
  }

  /** The generator reads every store file exactly as the editor does. */
  lemma DecodeAgrees(content: Option<string>)
    ensures Decode(content) == Store.Decode(content)
  {
    if content.Some? {
      var bs := Store.FindBlocks(content.value);
      forall i | 0 <= i < |bs|
        ensures Decode(content)[i] == Store.Decode(content)[i]
      {
        ParseBlockAgrees(bs[i]);
      }
    }
  }

  /** The line loop for one sub-block, after `strip`. */
  method ReadSection(group: string) returns (m: FieldMap)
    ensures m == FieldsFrom([], SplitLines(Trim(group)))
  {
    var lines := SplitLines(Trim(group));
    m := [];
    var j := 0;
    while j < |lines|
      invariant 0 <= j <= |lines|
      invariant FieldsFrom(m, lines[j..]) == FieldsFrom([], lines)
    {
      assert FieldsFrom(m, lines[j..]) == FieldsFrom(AddLine(m, lines[j]), lines[j + 1..]) by {
        FieldsFromCons(m, lines[j..]);
        assert lines[j..][1..] == lines[j + 1..];
      }
      m := AddLine(m, lines[j]);
      j := j + 1;
    }
  }

  /** The body of the block loop: both sub-blocks are searched for, and
      each one found is read into its dict. */
  method ReadBlock(block: string) returns (e: Entry)
    ensures e == ParseBlock(block)
  {
    var parentBlock := Store.SearchParent(block);
    var studentBlock := Store.SearchStudent(block);
    var parent: FieldMap := [];
    var student: FieldMap := [];
    if parentBlock.Some? {
      parent := ReadSection(parentBlock.value);
    }
    if studentBlock.Some? {
      student := ReadSection(studentBlock.value);
    }
    e := Entry(parent, student);
  }

  lemma DecodeIs(t: string, es: seq<Entry>)
    requires |es| == |Store.FindBlocks(t)|
    requires forall j :: 0 <= j < |es| ==> es[j] == ParseBlock(Store.FindBlocks(t)[j])
    ensures es == Decode(Some(t))
  {
  }

  lemma ParsedSnoc(es: seq<Entry>, bs: seq<string>, e: Entry)
    requires |es| < |bs| && e == ParseBlock(bs[|es|])
    requires forall j :: 0 <= j < |es| ==> es[j] == ParseBlock(bs[j])
    ensures forall j :: 0 <= j <= |es| ==> (es + [e])[j] == ParseBlock(bs[j])
  {
  }

  /** `load_entries(filename)`, with the file's content passed in
      (`None` when the file does not exist). It returns what the editor's
      reader returns. */
  method LoadEntries(content: Option<string>) returns (entries: seq<Entry>)
    ensures entries == Decode(content)
    ensures entries == Store.Decode(content)
  {
    DecodeAgrees(content);
    if content.None? {
      return [];
    }
    var blocks := Store.FindBlocks(content.value);
    entries := [];
    var i := 0;
    while i < |blocks|
      invariant 0 <= i <= |blocks|
      invariant |entries| == i
      invariant forall j :: 0 <= j < i ==> entries[j] == ParseBlock(blocks[j])
    {
      var e := ReadBlock(blocks[i]);
      ParsedSnoc(entries, blocks, e);
      entries := entries + [e];
      i := i + 1;
    }
    DecodeIs(content.value, entries);
  }

  // ---------------------------------------------------------------------
  // `format_entry_text`: the text of one table cell.

  /** `f"{k}: {v}"`. */
  function FieldText(f: Field): (t: string)
    ensures |t| == |f.key| + 2 + |f.value| && t[|f.key|..|f.key| + 2] == ": "
    ensures t[..|f.key|] == f.key && t[|f.key| + 2..] == f.value
  {
    f.key + ": " + f.value
  }

  /** A cell line has the shape of a store field line without its indent:
      under the loaders' per-line rule it reads back as its field, provided
      the key is colon-free and key and value are stripped. */
  lemma FieldTextReadsBack(m: FieldMap, f: Field)
    requires ':' !in f.key && Trimmed(f.key) && Trimmed(f.value)
    ensures AddLine(m, FieldText(f)) == Put(m, f.key, f.value)
  {
    assert FieldText(f) == f.key + ":" + (" " + f.value);
    SplitAtFirstColon(m, f.key, " " + f.value);
    TrimmedIff(f.key);
    StoreLaws.SpacedTrim(f.value);
  }

  function FieldTexts(m: FieldMap): (ls: seq<string>)
    ensures |ls| == |m| && forall i :: 0 <= i < |m| ==> ls[i] == FieldText(m[i])
  {
    seq(|m|, i requires 0 <= i < |m| => FieldText(m[i]))
  }

  /** The field lines of a cell, read with the loaders' per-line rule,
      give back the dict they were made from. */
  lemma {:induction false} FieldTextsReadBack(acc: FieldMap, m: FieldMap)
    requires forall i :: 0 <= i < |m| ==> StoreLaws.StorableField(m[i])
    requires UniqueKeys(acc + m)
    ensures FieldsFrom(acc, FieldTexts(m)) == acc + m
    decreases |m|
  {
    if m != [] {
      FieldTextsStep(acc, m);
      assert forall i :: 0 <= i < |m[1..]| ==> StoreLaws.StorableField(m[1..][i]) by {
        forall i | 0 <= i < |m[1..]| ensures StoreLaws.StorableField(m[1..][i]) {
          assert m[1..][i] == m[i + 1];
        }
      }
      FieldTextsReadBack(acc + [m[0]], m[1..]);
    } else {
      assert acc + m == acc;
    }
  }

  /** Reading the first field line of `m` appends its first field. */
  lemma FieldTextsStep(acc: FieldMap, m: FieldMap)
    requires m != [] && StoreLaws.StorableField(m[0]) && UniqueKeys(acc + m)
    ensures FieldsFrom(acc, FieldTexts(m)) == FieldsFrom(acc + [m[0]], FieldTexts(m[1..]))
    ensures acc + [m[0]] + m[1..] == acc + m
  {
    assert FieldTexts(m)[1..] == FieldTexts(m[1..]);
    FieldsFromCons(acc, FieldTexts(m));
    FieldTextReadsBack(acc, m[0]);
    StoreLaws.FreshKey(acc, m);
  }

  /** The lines of a cell: the parent label, one line per parent field in
      insertion order, an empty line, the student label, one line per
      student field. */
  function EntryLines(parent: FieldMap, student: FieldMap): (ls: seq<string>)
    ensures |ls| == 3 + |parent| + |student|
    ensures ls[0] == Store.ParentLabel
    ensures forall i :: 0 <= i < |parent| ==> ls[1 + i] == FieldText(parent[i])
    ensures ls[1 + |parent|] == "" && ls[2 + |parent|] == Store.StudentLabel
    ensures forall i :: 0 <= i < |student| ==> ls[3 + |parent| + i] == FieldText(student[i])
  {
    [Store.ParentLabel] + FieldTexts(parent) + ["", Store.StudentLabel] + FieldTexts(student)
  }

  /** The cell text of an entry: its lines joined by line feeds. */
  function EntryText(e: Entry): string
  {
    JoinNl(EntryLines(e.parent, e.student))
  }

  lemma FieldTextsSnoc(m: FieldMap, i: nat)
    requires i < |m|
    ensures FieldTexts(m[..i + 1]) == FieldTexts(m[..i]) + [FieldText(m[i])]
  {
  }

  /** `format_entry_text(parent, student)`: the lines are collected in a
      list, which is then joined. */
  method FormatEntryText(parent: FieldMap, student: FieldMap) returns (text: string)
    ensures text == EntryText(Entry(parent, student))
  {
    var lines := [Store.ParentLabel];
    for i := 0 to |parent|
      invariant lines == [Store.ParentLabel] + FieldTexts(parent[..i])
    {
      FieldTextsSnoc(parent, i);
      lines := lines + [FieldText(parent[i])];
    }
    assert parent[..|parent|] == parent;
    lines := lines + [""];
    lines := lines + [Store.StudentLabel];
    var head := lines;
    for i := 0 to |student|
      invariant lines == head + FieldTexts(student[..i])
    {
      FieldTextsSnoc(student, i);
      lines := lines + [FieldText(student[i])];
    }
    assert student[..|student|] == student;
    assert lines == EntryLines(parent, student);
    text := JoinNl(lines);
  }

  /** Keys and values on one line each. */
  predicate OneLineFields(m: FieldMap) {
    forall i :: 0 <= i < |m| ==> NoNewline(m[i].key) && NoNewline(m[i].value)
  }

  lemma FieldTextOneLine(f: Field)
    requires NoNewline(f.key) && NoNewline(f.value)
    ensures NoNewline(FieldText(f))
  {
    var t := FieldText(f);
    forall j | 0 <= j < |t| ensures t[j] != '\n' {
      if j < |f.key| {
        assert t[j] == f.key[j];
      } else if j >= |f.key| + 2 {
        assert t[j] == f.value[j - |f.key| - 2];
      }
    }
  }

  lemma FieldTextsOneLine(m: FieldMap)
    requires OneLineFields(m)
    ensures AllNoNewline(FieldTexts(m))
  {
    forall i | 0 <= i < |m| ensures NoNewline(FieldTexts(m)[i]) {
      FieldTextOneLine(m[i]);
    }
  }

  lemma EntryLinesOneLine(parent: FieldMap, student: FieldMap)
    requires OneLineFields(parent) && OneLineFields(student)
    ensures AllNoNewline(EntryLines(parent, student))
    ensures EntryLines(parent, student)[2 + |parent| + |student|] != ""
  {
    FieldTextsOneLine(parent);
    FieldTextsOneLine(student);
    var a := [Store.ParentLabel] + FieldTexts(parent);
    var b := ["", Store.StudentLabel];
    assert AllNoNewline([Store.ParentLabel]) && AllNoNewline(b) by {
      LabelsOneLine();
    }
    AllNoNewlineAppend([Store.ParentLabel], FieldTexts(parent));
    AllNoNewlineAppend(a, b);
    AllNoNewlineAppend(a + b, FieldTexts(student));
    if student != [] {
      assert |FieldText(student[|student| - 1])| >= 2;
    }
  }

  lemma LabelsOneLine()
    ensures NoNewline(Store.ParentLabel) && NoNewline("") && NoNewline(Store.StudentLabel)
  {
  }

  /** When no key or value holds a line feed, splitting the cell text into
      lines gives back exactly the lines it was built from. */
  lemma EntryTextLines(e: Entry)
    requires OneLineFields(e.parent) && OneLineFields(e.student)
    ensures SplitLines(EntryText(e)) == EntryLines(e.parent, e.student)
  {
    EntryLinesOneLine(e.parent, e.student);
    SplitJoinNl(EntryLines(e.parent, e.student));
  }

  /** The cell text ends with its last line, not with a line feed. */
  lemma EntryTextEnd(e: Entry)
    requires OneLineFields(e.parent) && OneLineFields(e.student)
    ensures EntryText(e) != [] && EntryText(e)[|EntryText(e)| - 1] != '\n'
  {
    var ls := EntryLines(e.parent, e.student);
    EntryLinesOneLine(e.parent, e.student);
    JoinNlLast(ls);
    var l := ls[|ls| - 1];
    var t := EntryText(e);
    assert t[|t| - 1] == l[|l| - 1];
  }

  // ---------------------------------------------------------------------
  // `write_docx`: the document as a list of 2 x 2 tables and page breaks.

  /** A table cell: untouched, or holding one run of text. */
  datatype Cell = Blank | Filled(text: string)

  /** The cells of a table, row by row. */
  type Grid = seq<seq<Cell>>

  datatype Item = Table(cells: Grid) | PageBreak

  /** `doc.add_table(rows=2, cols=2)`. */
  const BlankGrid: Grid := [[Blank, Blank], [Blank, Blank]]

  /** `cell(row, col)` of the table receives `text`. */
  function SetCellIn(g: Grid, row: nat, col: nat, text: string): (r: Grid)
    requires row < |g| && col < |g[row]|
    ensures |r| == |g| && |r[row]| == |g[row]| && r[row][col] == Filled(text)
    ensures forall i, j :: 0 <= i < |g| && 0 <= j < |g[i]| && (i, j) != (row, col) ==>
              j < |r[i]| && r[i][j] == g[i][j]
  {
    g[row := g[row][col := Filled(text)]]
  }

  /** The document being built, one item after the other. */
  class Document {
    var items: seq<Item>

    constructor ()
      ensures items == []
    {
      items := [];
    }

    method AddTable()
      modifies this
      ensures items == old(items) + [Table(BlankGrid)]
    {
      items := items + [Table(BlankGrid)];
    }

    /** Writes `text` into a cell of the last table added. */
    method SetCell(row: nat, col: nat, text: string)
      requires items != [] && items[|items| - 1].Table?
      requires row < |items[|items| - 1].cells| && col < |items[|items| - 1].cells[row]|
      modifies this
      ensures items == old(items)[..|old(items)| - 1]
                       + [Table(SetCellIn(old(items)[|old(items)| - 1].cells, row, col, text))]
    {
      var last := items[|items| - 1].cells;
      items := items[..|items| - 1] + [Table(SetCellIn(last, row, col, text))];
    }

    method AddPageBreak()
      modifies this
      ensures items == old(items) + [PageBreak]
    {
      items := items + [PageBreak];
    }
  }

  /** The cell texts of the entries, in order. */
  function CellTexts(es: seq<Entry>): (ts: seq<string>)
    ensures |ts| == |es| && forall j :: 0 <= j < |es| ==> ts[j] == EntryText(es[j])
  {
    seq(|es|, j requires 0 <= j < |es| => EntryText(es[j]))
  }

  /** The cell for entry `idx`, given the cell texts: its text, or blank
      past the end. */
  function CellFor(ts: seq<string>, idx: nat): (c: Cell)
    ensures c.Filled? <==> idx < |ts|
  {
    if idx < |ts| then Filled(ts[idx]) else Blank
  }

  /** The grid of the group starting at `i` after its first `k` cells, in
      row-major order, have been visited. */
  function FilledUpTo(ts: seq<string>, i: nat, k: nat): (g: Grid)
    ensures |g| == 2 && |g[0]| == 2 && |g[1]| == 2
  {
    [[UpTo(ts, i, k, 0, 0), UpTo(ts, i, k, 0, 1)],
     [UpTo(ts, i, k, 1, 0), UpTo(ts, i, k, 1, 1)]]
  }

  function UpTo(ts: seq<string>, i: nat, k: nat, row: nat, col: nat): Cell
  {
    if row * 2 + col < k then CellFor(ts, i + row * 2 + col) else Blank
  }

  /** The table of the group starting at entry `i`: cell (row, col) holds
      entry `i + 2 * row + col`, or stays blank past the end. */
  function GridAt(ts: seq<string>, i: nat): (g: Grid)
    ensures |g| == 2 && |g[0]| == 2 && |g[1]| == 2
  {
    FilledUpTo(ts, i, 4)
  }

  /** Cell (row, col) of the group starting at `i` holds entry
      `i + 2 * row + col`, or stays blank past the end. */
  lemma GridCells(ts: seq<string>, i: nat, row: nat, col: nat)
    requires row < 2 && col < 2
    ensures GridAt(ts, i)[row][col] == CellFor(ts, i + 2 * row + col)
  {
  }

  /** Visiting one more cell. */
  lemma FillStep(ts: seq<string>, i: nat, row: nat, col: nat)
    requires row < 2 && col < 2
    ensures i + row * 2 + col < |ts| ==>
              FilledUpTo(ts, i, row * 2 + col + 1)
              == SetCellIn(FilledUpTo(ts, i, row * 2 + col), row, col, ts[i + row * 2 + col])
    ensures i + row * 2 + col >= |ts| ==>
              FilledUpTo(ts, i, row * 2 + col + 1) == FilledUpTo(ts, i, row * 2 + col)
  {
    var g := FilledUpTo(ts, i, row * 2 + col);
    var h := FilledUpTo(ts, i, row * 2 + col + 1);
    if i + row * 2 + col < |ts| {
      var r := SetCellIn(g, row, col, ts[i + row * 2 + col]);
      assert r[0] == h[0] && r[1] == h[1];
    } else {
      assert g[0] == h[0] && g[1] == h[1];
    }
  }

  /** The items from the group starting at entry `i` on: its table, a page
      break when more entries follow, then the later groups. */
  function LayoutFrom(ts: seq<string>, i: nat): seq<Item>
    decreases |ts| - i
  {
    if i >= |ts| then []
    else [Table(GridAt(ts, i))] + (if i + 4 < |ts| then [PageBreak] else []) + LayoutFrom(ts, i + 4)
  }

  /** The document `write_docx(entries)` saves. */
  function Layout(ts: seq<string>): seq<Item>
  {
    LayoutFrom(ts, 0)
  }

  lemma LayoutFromStep(ts: seq<string>, i: nat)
    requires i < |ts|
    ensures LayoutFrom(ts, i)
            == [Table(GridAt(ts, i))] + (if i + 4 < |ts| then [PageBreak] else []) + LayoutFrom(ts, i + 4)
  {
  }

  lemma LastReplaced(before: seq<Item>, x: Item)
    ensures var l := before + [x]; l != [] && l[..|l| - 1] == before && l[|l| - 1] == x
  {
    var l := before + [x];
    assert l[..|l| - 1] == before;
  }

  lemma Regroup(a: seq<Item>, b: seq<Item>, c: seq<Item>, d: seq<Item>)
    ensures a + b + c + d == a + (b + c + d)
  {
  }

  /** The body of the inner loop: entry `i + 2 * row + col`, if there is
      one, is formatted and written into cell (row, col) of the last
      table. */
  method FillCell(doc: Document, es: seq<Entry>, i: nat, row: nat, col: nat, ghost before: seq<Item>)
    requires row < 2 && col < 2
    requires doc.items == before + [Table(FilledUpTo(CellTexts(es), i, row * 2 + col))]
    modifies doc
    ensures doc.items == before + [Table(FilledUpTo(CellTexts(es), i, row * 2 + col + 1))]
  {
    ghost var ts := CellTexts(es);
    var idx := i + row * 2 + col;
    FillStep(ts, i, row, col);
    if idx < |es| {
      var text := FormatEntryText(es[idx].parent, es[idx].student);
      assert text == ts[idx];
      ghost var cur := FilledUpTo(ts, i, row * 2 + col);
      LastReplaced(before, Table(cur));
      assert doc.items[|doc.items| - 1].cells == cur;
      doc.SetCell(row, col, text);
      assert doc.items == before + [Table(SetCellIn(cur, row, col, text))];
    }
  }

  /** One pass of the outer loop without its page break: a new table, its
      cells filled row by row with the texts of entries `i` to `i + 3`. */
  method AddGroup(doc: Document, es: seq<Entry>, i: nat)
    modifies doc
    ensures doc.items == old(doc.items) + [Table(GridAt(CellTexts(es), i))]
  {
    ghost var ts := CellTexts(es);
    ghost var before := doc.items;
    doc.AddTable();
    assert FilledUpTo(ts, i, 0) == BlankGrid;
    for row := 0 to 2
      invariant doc.items == before + [Table(FilledUpTo(ts, i, row * 2))]
    {
      for col := 0 to 2
        invariant doc.items == before + [Table(FilledUpTo(ts, i, row * 2 + col))]
      {
        FillCell(doc, es, i, row, col, before);
      }
    }
  }

  /** `write_docx(entries)`: a stride-4 loop over the entries; each group
      adds a table, and a page break when more entries follow. */
  method WriteDocx(es: seq<Entry>) returns (doc: Document)
    ensures fresh(doc) && doc.items == Layout(CellTexts(es))
  {
    var ts := CellTexts(es);
    doc := new Document();
    var i := 0;
    while i < |es|
      invariant doc.items + LayoutFrom(ts, i) == Layout(ts)
      decreases |es| - i
    {
      LayoutFromStep(ts, i);
      var before := doc.items;
      AddGroup(doc, es, i);
      ghost var b: seq<Item> := if i + 4 < |es| then [PageBreak] else [];
      if i + 4 < |es| {
        doc.AddPageBreak();
      }
      assert doc.items == before + [Table(GridAt(ts, i))] + b;
      Regroup(before, [Table(GridAt(ts, i))], b, LayoutFrom(ts, i + 4));
      i := i + 4;
    }
  }

  // ---------------------------------------------------------------------
  // The layout arithmetic, stated over `Layout`.

  /** `ceil(n / 4)`: the number of groups of four. */
  function Groups(n: nat): (g: nat)
    ensures n == 0 ==> g == 0
    ensures n > 0 ==> 4 * (g - 1) < n <= 4 * g
  {
    (n + 3) / 4
  }

  lemma {:induction false} LayoutFromLength(ts: seq<string>, i: nat)
    ensures |LayoutFrom(ts, i)| == if i >= |ts| then 0 else 2 * Groups(|ts| - i) - 1
    decreases |ts| - i
  {
    if i < |ts| {
      LayoutFromStep(ts, i);
      LayoutFromLength(ts, i + 4);
      if i + 4 < |ts| {
        assert Groups(|ts| - i) == Groups(|ts| - (i + 4)) + 1;
      } else {
        assert Groups(|ts| - i) == 1;
      }
    }
  }

  lemma {:induction false} LayoutFromAt(ts: seq<string>, i: nat, p: nat)
    requires p < |LayoutFrom(ts, i)|
    ensures LayoutFrom(ts, i)[p] == if p % 2 == 0 then Table(GridAt(ts, i + 2 * p)) else PageBreak
    decreases |ts| - i
  {
    LayoutFromStep(ts, i);
    var rest := LayoutFrom(ts, i + 4);
    if i + 4 < |ts| {
      var l := [Table(GridAt(ts, i)), PageBreak] + rest;
      assert LayoutFrom(ts, i) == l;
      if p >= 2 {
        LayoutFromAt(ts, i + 4, p - 2);
        assert l[p] == rest[p - 2];
        assert (p - 2) % 2 == p % 2 && i + 4 + 2 * (p - 2) == i + 2 * p;
      } else if p == 1 {
        assert l[1] == PageBreak;
      } else {
        assert l[0] == Table(GridAt(ts, i + 2 * p));
      }
    } else {
      assert LayoutFrom(ts, i) == [Table(GridAt(ts, i))] + rest;
      assert rest == [];
      assert p == 0;
    }
  }

  /** The document alternates tables and page breaks: `ceil(n / 4)`
      tables, the one at position `2 * k` holding the group that starts at
      entry `4 * k`, with a break between each two of them. */
  lemma LayoutShape(ts: seq<string>)
    ensures |Layout(ts)| == if ts == [] then 0 else 2 * Groups(|ts|) - 1
    ensures forall p :: 0 <= p < |Layout(ts)| ==>
              Layout(ts)[p] == if p % 2 == 0 then Table(GridAt(ts, 2 * p)) else PageBreak
  {
    LayoutFromLength(ts, 0);
    forall p | 0 <= p < |Layout(ts)|
      ensures Layout(ts)[p] == if p % 2 == 0 then Table(GridAt(ts, 2 * p)) else PageBreak
    {
      LayoutFromAt(ts, 0, p);
    }
  }

  /** There is a document body iff there are entries; it starts and ends
      with a table, so no page break comes after the last group. */
  lemma NoTrailingBreak(ts: seq<string>)
    ensures Layout(ts) == [] <==> ts == []
    ensures Layout(ts) != [] ==> Layout(ts)[0].Table? && Layout(ts)[|Layout(ts)| - 1].Table?
  {
    LayoutShape(ts);
    if ts != [] {
      var p := |Layout(ts)| - 1;
      assert p % 2 == 0;
    }
  }

  function Tables(d: seq<Item>): nat
  {
    if d == [] then 0 else (if d[0].Table? then 1 else 0) + Tables(d[1..])
  }

  function Breaks(d: seq<Item>): nat
  {
    if d == [] then 0 else (if d[0].PageBreak? then 1 else 0) + Breaks(d[1..])
  }

  lemma {:induction false} CountsAppend(a: seq<Item>, b: seq<Item>)
    ensures Tables(a + b) == Tables(a) + Tables(b)
    ensures Breaks(a + b) == Breaks(a) + Breaks(b)
  {
    if a != [] {
      assert (a + b)[1..] == a[1..] + b;
      CountsAppend(a[1..], b);
    } else {
      assert a + b == b;
    }
  }

  lemma {:induction false} LayoutFromCounts(ts: seq<string>, i: nat)
    ensures Tables(LayoutFrom(ts, i)) == if i >= |ts| then 0 else Groups(|ts| - i)
    ensures Breaks(LayoutFrom(ts, i)) == if i >= |ts| then 0 else Groups(|ts| - i) - 1
    decreases |ts| - i
  {
    if i < |ts| {
      LayoutFromStep(ts, i);
      LayoutFromCounts(ts, i + 4);
      var b: seq<Item> := if i + 4 < |ts| then [PageBreak] else [];
      var rest := LayoutFrom(ts, i + 4);
      CountsAppend([Table(GridAt(ts, i))], b);
      CountsAppend([Table(GridAt(ts, i))] + b, rest);
      assert Tables(b) == 0 && Breaks(b) == |b| by {
        if b != [] {
          assert b[1..] == [];
        }
      }
      assert [Table(GridAt(ts, i))][1..] == [];
      if i + 4 < |ts| {
        assert Groups(|ts| - i) == Groups(|ts| - (i + 4)) + 1;
      } else {
        assert Groups(|ts| - i) == 1;
      }
    }
  }

  /** `n` entries give `ceil(n / 4)` tables and one page break fewer. */
  lemma LayoutCounts(ts: seq<string>)
    ensures Tables(Layout(ts)) == Groups(|ts|)
    ensures Breaks(Layout(ts)) == if ts == [] then 0 else Groups(|ts|) - 1
  {
    LayoutFromCounts(ts, 0);
  }

  /** How many cells of a 2 x 2 table hold text. */
  function Occupied(g: Grid): nat
    requires |g| == 2 && |g[0]| == 2 && |g[1]| == 2
  {
    Used(g[0][0]) + Used(g[0][1]) + Used(g[1][0]) + Used(g[1][1])
  }

  function Used(c: Cell): nat
  {
    if c.Filled? then 1 else 0
  }

  /** The group starting at `i` has `min(4, n - i)` filled cells. */
  lemma GroupOccupied(ts: seq<string>, i: nat)
    requires i < |ts|
    ensures Occupied(GridAt(ts, i)) == if i + 4 <= |ts| then 4 else |ts| - i
  {
    GridCells(ts, i, 0, 0);
    GridCells(ts, i, 0, 1);
    GridCells(ts, i, 1, 0);
    GridCells(ts, i, 1, 1);
  }

  /** Every table but the last is full; the last holds what is left. */
  lemma TableOccupancy(ts: seq<string>, k: nat)
    requires k < Groups(|ts|)
    ensures Occupied(GridAt(ts, 4 * k))
            == if k + 1 < Groups(|ts|) then 4 else |ts| - 4 * (Groups(|ts|) - 1)
  {
    GroupOccupied(ts, 4 * k);
  }

  /** The table of group `k` holds, in cell (row, col), the entry
      `4 * k + 2 * row + col`, or nothing past the end. */
  lemma CellContents(ts: seq<string>, k: nat, row: nat, col: nat)
    requires k < Groups(|ts|) && row < 2 && col < 2
    ensures 2 * k < |Layout(ts)| && Layout(ts)[2 * k] == Table(GridAt(ts, 4 * k))
    ensures Layout(ts)[2 * k].cells[row][col] == CellFor(ts, 4 * k + 2 * row + col)
  {
    LayoutShape(ts);
    assert (2 * k) % 2 == 0;
    GridCells(ts, 4 * k, row, col);
  }

  /** The entry number that goes to cell (row, col) of group `k`. */
  function Slot(k: nat, row: nat, col: nat): nat
  {
    4 * k + 2 * row + col
  }

  /** No two cells receive the same entry. */
  lemma SlotInjective(k: nat, row: nat, col: nat, k': nat, row': nat, col': nat)
    requires row < 2 && col < 2 && row' < 2 && col' < 2
    ensures Slot(k, row, col) == Slot(k', row', col') <==> k == k' && row == row' && col == col'
  {
  }

  /** Every entry number has a cell. */
  lemma SlotCovers(j: nat)
    ensures exists k: nat, row: nat, col: nat :: row < 2 && col < 2 && Slot(k, row, col) == j
  {
    var k, row, col := SlotFor(j);
  }

  /** The cell of entry `j`, counted off four at a time. */
  lemma {:induction false} SlotFor(j: nat) returns (k: nat, row: nat, col: nat)
    ensures row < 2 && col < 2 && Slot(k, row, col) == j
    decreases j
  {
    if j >= 4 {
      k, row, col := SlotFor(j - 4);
      k := k + 1;
    } else if j < 2 {
      k, row, col := 0, 0, j;
    } else {
      k, row, col := 0, 1, j - 2;
    }
  }

  /** Each entry appears, as its cell text, in its cell; so every entry is
      placed exactly once, in row-major order. */
  lemma EntryPlaced(es: seq<Entry>, k: nat, row: nat, col: nat)
    requires row < 2 && col < 2 && Slot(k, row, col) < |es|
    ensures k < Groups(|es|)
    ensures var d := Layout(CellTexts(es));
      2 * k < |d| && d[2 * k] == Table(GridAt(CellTexts(es), 4 * k))
      && d[2 * k].cells[row][col] == Filled(EntryText(es[Slot(k, row, col)]))
  {
    var ts := CellTexts(es);
    var j := Slot(k, row, col);
    assert k < Groups(|es|);
    CellContents(ts, k, row, col);
    assert CellFor(ts, 4 * k + 2 * row + col) == Filled(EntryText(es[j]));
  }

  /** `if __name__ == "__main__"`: read the store file and write the
      document, unless there are no entries, in which case nothing is
      written. */
  method Generate(content: Option<string>) returns (doc: Option<Document>)
    ensures doc.None? <==> Store.Decode(content) == []
    ensures doc.Some? ==> fresh(doc.value) && doc.value.items == Layout(CellTexts(Store.Decode(content)))
  {
    var entries := LoadEntries(content);
    if entries == [] {
      doc := None;
    } else {
      var d := WriteDocx(entries);
      doc := Some(d);
    }
  }
}
