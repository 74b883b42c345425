/** The store-file format of the editor script (auto-doc-parentstudent.py):
    the encoder `save_to_txt`, the decoder `load_entries`, and the
    single-generation backup made on every save. The decoder's regular
    expressions are modelled as the scanners they amount to. */
module Store {
  import opened Wrappers
  import opened Text
  import opened Fields

  const HeaderOpen := "==== Entry #"
  const HeaderTail := " ===="
  const HeaderClose := HeaderTail + "\n"
  const Separator := "--------------------------"
  const ParentLabel := "Parent/Guardian Information:"
  const StudentWord := "Student Information"
  const StudentLabel := StudentWord + ":"
  /** What ends a block: a line feed and the separator line. */
  const BlockEnd := "\n" + Separator
  /** What opens the parent sub-block. */
  const ParentHead := ParentLabel + "\n"
  /** What ends the parent sub-block: an empty line and the student label. */
  const ParentEnd := "\n\n" + StudentLabel
  /** What opens the student sub-block. */
  const StudentHead := StudentLabel + "\n"

  // ---------------------------------------------------------------------
  // Encoding

  predicate IsDigit(c: char) {
    '0' <= c <= '9'
  }

  function Digit(d: nat): (c: char)
    requires d < 10
    ensures IsDigit(c)
  {
    (('0' as int) + d) as char
  }

  /** `str(n)` for a natural number: decimal digits, with a leading zero
      only for zero itself. */
  function Decimal(n: nat): (s: string)
    ensures |s| > 0 && forall i :: 0 <= i < |s| ==> IsDigit(s[i])
    ensures s[0] == '0' <==> n == 0
  {
    if n < 10 then [Digit(n)] else Decimal(n / 10) + [Digit(n % 10)]
  }

  /** The number a run of decimal digits denotes, read from the left. */
  function DigitsValue(s: string): nat
    requires forall i :: 0 <= i < |s| ==> IsDigit(s[i])
  {
    if s == [] then 0
    else
      assert IsDigit(s[|s| - 1]);
      10 * DigitsValue(s[..|s| - 1]) + (s[|s| - 1] as int - '0' as int)
  }

  /** The digits written for `n` denote `n`. */
  lemma {:induction false} DecimalValue(n: nat)
    ensures DigitsValue(Decimal(n)) == n
  {
    if n >= 10 {
      var s := Decimal(n);
      assert s[..|s| - 1] == Decimal(n / 10);
      DecimalValue(n / 10);
    }
  }

  /** `f"==== Entry #{n} ===="`. */
  function HeaderLine(n: nat): string {
    HeaderOpen + Decimal(n) + HeaderTail
  }

  /** The digits between `==== Entry #` and ` ====` denote the entry's
      number. */
  lemma HeaderNumber(n: nat)
    ensures var h := HeaderLine(n);
      |HeaderOpen| < |h| - |HeaderTail|
      && h[..|HeaderOpen|] == HeaderOpen && h[|h| - |HeaderTail|..] == HeaderTail
      && h[|HeaderOpen|..|h| - |HeaderTail|] == Decimal(n)
      && DigitsValue(h[|HeaderOpen|..|h| - |HeaderTail|]) == n
  {
    var h := HeaderLine(n);
    assert h[|HeaderOpen|..|h| - |HeaderTail|] == Decimal(n);
    DecimalValue(n);
  }

  /** `f"  {k}: {v}"`, without its line feed. */
  function FieldLine(f: Field): string {
    "  " + f.key + ": " + f.value
  }

  function FieldLines(m: FieldMap): (ls: seq<string>)
    ensures |ls| == |m| && forall i :: 0 <= i < |m| ==> ls[i] == FieldLine(m[i])
  {
    seq(|m|, i requires 0 <= i < |m| => FieldLine(m[i]))
  }

  /** One line per field, in insertion order. */
  function FieldsText(m: FieldMap): string {
    JoinLines(FieldLines(m))
  }

  /** The lines between an entry's header and the empty line before its
      separator: the parent label and fields, an empty line, the student
      label and fields. */
  function BodyLines(e: Entry): seq<string> {
    [ParentLabel] + FieldLines(e.parent) + ["", StudentLabel] + FieldLines(e.student)
  }

  function Body(e: Entry): string {
    JoinLines(BodyLines(e))
  }

  /** The lines written for entry number `n`: the header, the body, an
      empty line, the separator and another empty line. */
  function BlockLines(n: nat, e: Entry): seq<string> {
    [HeaderLine(n)] + BodyLines(e) + ["", Separator, ""]
  }

  /** The text written for entry number `n`. */
  function Block(n: nat, e: Entry): string {
    JoinLines(BlockLines(n, e))
  }

  /** The blocks of `es`, numbered from `n` on. */
  function EncodeFrom(es: seq<Entry>, n: nat): string
  {
    if es == [] then "" else Block(n, es[0]) + EncodeFrom(es[1..], n + 1)
  }

  /** The full content `save_to_txt` writes: entries numbered 1..|es|. */
  function Encode(es: seq<Entry>): string {
    EncodeFrom(es, 1)
  }

  // ---------------------------------------------------------------------
  // Decoding

  /** Number of leading ASCII digits (what a greedy `\d+` consumes). */
  function DigitRun(s: string): (n: nat)
    ensures n <= |s| && (forall i :: 0 <= i < n ==> IsDigit(s[i]))
    ensures n < |s| ==> !IsDigit(s[n])
  {
    if s != [] && IsDigit(s[0]) then 1 + DigitRun(s[1..]) else 0
  }

  /** Length of a match of `==== Entry #\d+ ====\n` at the start of `s`. A
      shorter run of digits would be followed by a digit, not a space, so
      the longest run is the only candidate. */
  function HeaderMatch(s: string): (r: Option<nat>)
    ensures r.Some? ==> 0 < r.value <= |s|
  {
    if StartsWith(s, 0, HeaderOpen) then
      var d := DigitRun(s[|HeaderOpen|..]);
      if d > 0 && StartsWith(s, |HeaderOpen| + d, HeaderClose) then Some(|HeaderOpen| + d + |HeaderClose|)
      else None
    else None
  }

  /** The captured text of a block match and where scanning resumes. */
  datatype BlockMatch = BlockMatch(content: string, next: nat)

  /** A match of `==== Entry #\d+ ====\n(.*?)\n--------------------------`
      (with `.` matching line feeds) at the start of `s`: the group runs
      to the first separator after the header. */
  function MatchBlock(s: string): (r: Option<BlockMatch>)
    ensures r.Some? ==> 0 < r.value.next <= |s|
  {
    match HeaderMatch(s)
    case None => None
    case Some(h) =>
      match Find(s[h..], BlockEnd)
      case None => None
      case Some(j) => Some(BlockMatch(s[h..h + j], h + j + |BlockEnd|))
  }

  /** `re.findall` of the block pattern: try every position from the left;
      after a match, continue where it ended. */
  function FindBlocks(s: string): seq<string>
    decreases |s|
  {
    if s == [] then []
    else
      match MatchBlock(s)
      case Some(b) => [b.content] + FindBlocks(s[b.next..])
      case None => FindBlocks(s[1..])
  }

  /** `re.search` of `Parent/Guardian Information:\n(.*?)\n\nStudent Information:`:
      the leftmost label that is followed, somewhere after it, by an empty
      line and the student label; the group stops at the first such end. */
  function SearchParent(b: string): Option<string>
    decreases |b|
  {
    if b == [] then None
    else if StartsWith(b, 0, ParentHead) && Find(b[|ParentHead|..], ParentEnd).Some? then
      Some(b[|ParentHead|..][..Find(b[|ParentHead|..], ParentEnd).value])
    else SearchParent(b[1..])
  }

  /** `re.search` of `Student Information:\n(.*)`: everything after the
      first student label. */
  function SearchStudent(b: string): Option<string>
  {
    var j := Find(b, StudentHead);
    if j.Some? then Some(b[j.value + |StudentHead|..]) else None
  }

  /** The dict filled from a sub-block, or `{}` when the search failed. */
  function Section(g: Option<string>): FieldMap
  {
    if g.Some? then FieldsFrom([], SplitLines(g.value)) else []
  }

  function ParseBlock(b: string): Entry
  {
    Entry(Section(SearchParent(b)), Section(SearchStudent(b)))
  }

  /** `load_entries`: one entry per block, in file order; a missing file
      (`None`) gives no entries. Every dict it builds has unique keys. */
  function Decode(content: Option<string>): (es: seq<Entry>)
    ensures content.None? ==> es == []
    ensures content.Some? ==> |es| == |FindBlocks(content.value)|
    ensures forall i :: 0 <= i < |es| ==> UniqueKeys(es[i].parent) && UniqueKeys(es[i].student)
  {
    match content
    case None => []
    case Some(t) =>
      var bs := FindBlocks(t);
      seq(|bs|, i requires 0 <= i < |bs| => ParseBlock(bs[i]))
  }

  // ---------------------------------------------------------------------
  // The scripts' loops

  /** `for k, v in d.items(): f.write(f"  {k}: {v}\n")`. */
  method WriteFields(out: string, m: FieldMap) returns (res: string)
    ensures res == out + FieldsText(m)
  {
    res := out;
    var j := 0;
    while j < |m|
      invariant 0 <= j <= |m|
      invariant res == out + JoinLines(FieldLines(m[..j]))
    {
      JoinLinesSnoc(FieldLines(m[..j]), FieldLine(m[j]));
      assert FieldLines(m[..j + 1]) == FieldLines(m[..j]) + [FieldLine(m[j])];
      res := res + FieldLine(m[j]) + "\n";
      j := j + 1;
    }
    assert m[..j] == m;
  }

  lemma Assoc(a: string, b: string, c: string)
    ensures a + (b + c) == a + b + c
  {
  }

  /** `f"==== Entry #{n} ====\n"`. */
  function Header(n: nat): string {
    HeaderOpen + Decimal(n) + HeaderClose
  }

  /** A block around `body`: header, body, separator line, blank line. */
  function Framed(n: nat, body: string): string {
    Header(n) + body + BlockEnd + "\n\n"
  }

  lemma {:induction false} BlockIsFramed(n: nat, e: Entry)
    ensures Block(n, e) == Framed(n, Body(e))
  {
    var bl := BodyLines(e);
    JoinLinesAppend([HeaderLine(n)] + bl, ["", Separator, ""]);
    JoinLinesAppend([HeaderLine(n)], bl);
    assert [HeaderLine(n)][1..] == [];
    assert JoinLines([HeaderLine(n)]) == HeaderLine(n) + "\n";
    Assoc(HeaderOpen + Decimal(n), HeaderTail, "\n");
    assert ["", Separator, ""][1..] == [Separator, ""];
    assert [Separator, ""][1..] == [""];
    assert [""][1..] == [];
    assert JoinLines([""]) == "\n";
    assert JoinLines([Separator, ""]) == Separator + "\n" + "\n";
    assert JoinLines(["", Separator, ""]) == "\n" + (Separator + "\n" + "\n");
    Assoc("\n", Separator, "\n");
    Assoc("\n" + Separator, "\n", "\n");
  }

  /** A body as text: the parent label line, the parent field lines, an
      empty line, the student label line, the student field lines. */
  lemma {:induction false} BodyText(e: Entry)
    ensures Body(e) == ParentHead + FieldsText(e.parent) + "\n" + StudentHead + FieldsText(e.student)
  {
    JoinTwoSections(ParentLabel, FieldLines(e.parent), StudentLabel, FieldLines(e.student));
  }

  /** Two labelled groups of lines separated by an empty line, as text. */
  lemma {:induction false} JoinTwoSections(a: string, xs: seq<string>, b: string, ys: seq<string>)
    ensures JoinLines([a] + xs + ["", b] + ys)
         == (a + "\n") + JoinLines(xs) + "\n" + (b + "\n") + JoinLines(ys)
  {
    JoinLinesAppend([a] + xs + ["", b], ys);
    JoinLinesAppend([a] + xs, ["", b]);
    JoinLinesAppend([a], xs);
    assert [a][1..] == [];
    assert ["", b][1..] == [b];
    assert [b][1..] == [];
    assert JoinLines(["", b]) == "\n" + (b + "\n");
  }

  /** A block as the sequence of writes `save_to_txt` makes for it. */
  lemma BlockWrites(out: string, n: nat, e: Entry)
    ensures out + Block(n, e)
         == out + Header(n) + ParentHead + FieldsText(e.parent) + "\n" + StudentHead
            + FieldsText(e.student) + BlockEnd + "\n\n"
  {
    var h, p, s := Header(n), FieldsText(e.parent), FieldsText(e.student);
    var body := Body(e);
    var tail := BlockEnd + "\n\n";
    BlockIsFramed(n, e);
    BodyText(e);
    assert Block(n, e) == h + body + tail;
    Assoc(out, h + body, tail);
    Assoc(out, h, body);
    Assoc(out + h, ParentHead + p + "\n" + StudentHead, s);
    Assoc(out + h, ParentHead + p + "\n", StudentHead);
    Assoc(out + h, ParentHead + p, "\n");
    Assoc(out + h, ParentHead, p);
    Assoc(out + h + ParentHead + p + "\n" + StudentHead + s, BlockEnd, "\n\n");
  }

  lemma EncodeFromStep(out: string, es: seq<Entry>, i: nat)
    requires i < |es|
    ensures out + EncodeFrom(es[i..], i + 1) == (out + Block(i + 1, es[i])) + EncodeFrom(es[i + 1..], i + 2)
  {
    assert es[i..][1..] == es[i + 1..];
  }

  /** The writes made for one entry in `save_to_txt`. */
  method WriteBlock(out: string, n: nat, e: Entry) returns (res: string)
    ensures res == out + Block(n, e)
  {
    res := out + Header(n);
    res := res + ParentHead;
    res := WriteFields(res, e.parent);
    res := res + "\n" + StudentHead;
    res := WriteFields(res, e.student);
    res := res + BlockEnd + "\n\n";
    BlockWrites(out, n, e);
  }

  /** The block-writing loop of `save_to_txt`. */
  method WriteEntries(entries: seq<Entry>) returns (out: string)
    ensures out == Encode(entries)
  {
    out := "";
    var i := 0;
    while i < |entries|
      invariant 0 <= i <= |entries|
      invariant out + EncodeFrom(entries[i..], i + 1) == Encode(entries)
    {
      EncodeFromStep(out, entries, i);
      out := WriteBlock(out, i + 1, entries[i]);
      i := i + 1;
    }
  }

  /** Fills a dict from the lines of a sub-block. */
  method ReadSection(group: string) returns (m: FieldMap)
    ensures m == FieldsFrom([], SplitLines(group))
  {
    var lines := SplitLines(group);
    m := [];
    var j := 0;
    while j < |lines|
      invariant 0 <= j <= |lines|
      invariant FieldsFrom(m, lines[j..]) == FieldsFrom([], lines)
    {
      assert FieldsFrom(m, lines[j..]) == FieldsFrom(AddLine(m, lines[j]), lines[j + 1..]) by {
        FieldsFromCons(m, lines[j..]);
        assert lines[j..][1..] == lines[j + 1..];
      }
      m := AddLine(m, lines[j]);
      j := j + 1;
    }
  }

  /** The body of the block loop of `load_entries`: both sub-blocks are
      searched for, and each one found is read into its dict. */
  method ReadBlock(block: string) returns (e: Entry)
    ensures e == ParseBlock(block)
  {
    var parentBlock := SearchParent(block);
    var studentBlock := SearchStudent(block);
    var parent: FieldMap := [];
    var student: FieldMap := [];
    if parentBlock.Some? {
      parent := ReadSection(parentBlock.value);
    }
    if studentBlock.Some? {
      student := ReadSection(studentBlock.value);
    }
    e := Entry(parent, student);
  }

  lemma DecodeIs(t: string, es: seq<Entry>)
    requires |es| == |FindBlocks(t)|
    requires forall j :: 0 <= j < |es| ==> es[j] == ParseBlock(FindBlocks(t)[j])
    ensures es == Decode(Some(t))
  {
  }

  lemma ParsedSnoc(es: seq<Entry>, bs: seq<string>, e: Entry)
    requires |es| < |bs| && e == ParseBlock(bs[|es|])
    requires forall j :: 0 <= j < |es| ==> es[j] == ParseBlock(bs[j])
    ensures forall j :: 0 <= j <= |es| ==> (es + [e])[j] == ParseBlock(bs[j])
  {
  }

  /** The block loop of `load_entries`: one entry per block, in order. */
  method ReadBlocks(blocks: seq<string>) returns (entries: seq<Entry>)
    ensures |entries| == |blocks|
    ensures forall j :: 0 <= j < |blocks| ==> entries[j] == ParseBlock(blocks[j])
  {
    entries := [];
    var i := 0;
    while i < |blocks|
      invariant 0 <= i <= |blocks|
      invariant |entries| == i
      invariant forall j :: 0 <= j < i ==> entries[j] == ParseBlock(blocks[j])
    {
      var e := ReadBlock(blocks[i]);
      ParsedSnoc(entries, blocks, e);
      entries := entries + [e];
      i := i + 1;
    }
  }

  /** `load_entries(filename)`, with the file's content passed in
      (`None` when the file does not exist). */
  method LoadEntries(content: Option<string>) returns (entries: seq<Entry>)
    ensures entries == Decode(content)
  {
    if content.None? {
      return [];
    }
    var blocks := FindBlocks(content.value);
    entries := ReadBlocks(blocks);
    DecodeIs(content.value, entries);
  }

  /** The store file and the backup file, each absent (`None`) or holding
      its content. */
  class Disk {
    var store: Option<string>
    var backup: Option<string>

    constructor (store: Option<string>, backup: Option<string>)
      ensures this.store == store && this.backup == backup
    {
      this.store := store;
      this.backup := backup;
    }

    /** `save_to_txt(entries)`: the backup is truncated and receives the
        store's previous content (nothing when there was no store file);
        then the store is overwritten with the encoding of `entries`. */
    method SaveToTxt(entries: seq<Entry>)
      modifies this
      ensures backup == Some(old(store).GetOr(""))
      ensures store == Some(Encode(entries))
    {
      var copy := "";
      if store.Some? {
        copy := store.value;
      }
      backup := Some(copy);
      var out := WriteEntries(entries);
      store := Some(out);
    }
  }

  /** Two saves in a row: the backup then holds what the first one wrote. */
  method SaveTwice(disk: Disk, first: seq<Entry>, second: seq<Entry>)
    modifies disk
    ensures disk.backup == Some(Encode(first))
    ensures disk.store == Some(Encode(second))
  {
    disk.SaveToTxt(first);
    disk.SaveToTxt(second);
  }
}
