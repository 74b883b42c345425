/** What the store format guarantees: the decoder reads back exactly what
    the encoder wrote, for every list of entries whose keys and values fit
    the line format. */
module StoreLaws {
  import opened Wrappers
  import opened Text
  import opened Fields
  import opened Store

  /** A field the line format can carry: one line each, with no character
      at which Python's `splitlines` would break it (nor the carriage
      return that text-mode reading turns into a line feed), no surrounding
      white space (the decoder strips it), and no colon in the key (the
      decoder splits at the first one). */
  predicate StorableField(f: Field) {
    StorableKey(f.key) && StorableValue(f.value)
  }

  predicate StorableKey(k: string) {
    NoLineBreak(k) && ':' !in k && Trimmed(k)
  }

  predicate StorableValue(v: string) {
    NoLineBreak(v) && Trimmed(v)
  }

  predicate StorableMap(m: FieldMap) {
    UniqueKeys(m) && forall i :: 0 <= i < |m| ==> StorableField(m[i])
  }

  /** A parent value ending in the student label would end the parent
      sub-block early, when the student section is searched for. */
  predicate StorableEntry(e: Entry) {
    StorableMap(e.parent) && StorableMap(e.student)
    && forall i :: 0 <= i < |e.parent| ==> !EndsWith(e.parent[i].value, StudentLabel)
  }

  predicate Storable(es: seq<Entry>) {
    forall i :: 0 <= i < |es| ==> StorableEntry(es[i])
  }

  // ---------------------------------------------------------------------
  // Field lines

  lemma FieldLineShape(f: Field)
    requires StorableField(f)
    ensures NoNewline(FieldLine(f)) && |FieldLine(f)| >= 4 && FieldLine(f)[0] == ' '
  {
  }

  lemma FieldLinesShape(m: FieldMap)
    requires forall i :: 0 <= i < |m| ==> StorableField(m[i])
    ensures AllNoNewline(FieldLines(m))
    ensures forall i :: 0 <= i < |m| ==> LeadChar(FieldLines(m)[i]) == ' ' && FieldLines(m)[i] != ""
  {
    forall i | 0 <= i < |m| ensures NoNewline(FieldLines(m)[i]) {
      FieldLineShape(m[i]);
    }
  }

  /** Reading back one written field line is the assignment `d[k] = v`. */
  lemma ReadFieldLine(acc: FieldMap, f: Field)
    requires StorableField(f)
    ensures AddLine(acc, FieldLine(f)) == Put(acc, f.key, f.value)
  {
    FieldLineSplit(f);
    SplitAtFirstColon(acc, "  " + f.key, " " + f.value);
    IndentedTrim(f.key);
    SpacedTrim(f.value);
  }

  lemma FieldLineSplit(f: Field)
    ensures FieldLine(f) == ("  " + f.key) + ":" + (" " + f.value)
  {
  }

  lemma SpacedTrim(v: string)
    requires Trimmed(v)
    ensures Trim(" " + v) == v
  {
    assert " " + v == [' '] + v;
    TrimConsSpace(' ', v);
    TrimmedIff(v);
  }

  lemma IndentedTrim(k: string)
    requires Trimmed(k)
    ensures Trim("  " + k) == k
  {
    assert "  " + k == [' '] + ([' '] + k);
    TrimConsSpace(' ', [' '] + k);
    TrimConsSpace(' ', k);
    TrimmedIff(k);
  }

  /** Reading back the lines of a dict appends that dict. */
  lemma {:induction false} ReadFieldLines(acc: FieldMap, m: FieldMap)
    requires forall i :: 0 <= i < |m| ==> StorableField(m[i])
    requires UniqueKeys(acc + m)
    ensures FieldsFrom(acc, FieldLines(m)) == acc + m
    decreases |m|
  {
    if m != [] {
      var ls := FieldLines(m);
      var next := acc + [m[0]];
      assert FieldsFrom(acc, ls) == FieldsFrom(AddLine(acc, FieldLine(m[0])), FieldLines(m[1..])) by {
        FieldsFromCons(acc, ls);
        FieldLinesTail(m);
      }
      assert AddLine(acc, FieldLine(m[0])) == next by {
        ReadFieldLine(acc, m[0]);
        FreshKey(acc, m);
      }
      assert next + m[1..] == acc + m by {
        FreshKey(acc, m);
      }
      ReadFieldLines(next, m[1..]);
    } else {
      assert acc + m == acc;
    }
  }

  lemma FieldLinesTail(m: FieldMap)
    requires m != []
    ensures FieldLines(m)[0] == FieldLine(m[0])
    ensures FieldLines(m)[1..] == FieldLines(m[1..])
  {
  }

  /** The first key of `m` is new to `acc` when `acc + m` has unique keys. */
  lemma FreshKey(acc: FieldMap, m: FieldMap)
    requires m != [] && UniqueKeys(acc + m)
    ensures m[0].key !in Keys(acc)
    ensures Put(acc, m[0].key, m[0].value) == acc + [m[0]]
    ensures acc + [m[0]] + m[1..] == acc + m
  {
    assert (acc + m)[|acc|] == m[0];
    forall i | 0 <= i < |acc| ensures acc[i].key != m[0].key {
      assert (acc + m)[i] == acc[i];
    }
    assert acc + [m[0]] + m[1..] == acc + m;
  }

  /** No written field line of a storable parent dict ends with the
      student label. */
  lemma FieldLineNotStudentLabel(f: Field)
    requires !EndsWith(f.value, StudentLabel)
    ensures !EndsWith(FieldLine(f), StudentLabel)
  {
    StudentLabelShape();
    ColonSpaceNotLabel(f.key, f.value, StudentLabel);
  }

  /** The student label holds its only colon at its end and starts with a
      letter. */
  lemma StudentLabelShape()
    ensures |StudentLabel| >= 1 && StudentLabel[0] != ' '
    ensures ':' !in StudentLabel[..|StudentLabel| - 1]
  {
    assert StudentLabel[..|StudentLabel| - 1] == StudentWord;
  }

  /** A label whose only colon is its last character, and which does not
      start with a space, ends `  key: value` only if it ends `value`. */
  lemma ColonSpaceNotLabel(k: string, v: string, p: string)
    requires |p| >= 1 && p[0] != ' ' && ':' !in p[..|p| - 1]
    requires !EndsWith(v, p)
    ensures !EndsWith("  " + k + ": " + v, p)
  {
    var a := "  " + k;
    var l := a + ": " + v;
    assert |l| == |a| + 2 + |v|;
    assert l[|a|] == ':' && l[|a| + 1] == ' ';
    if |v| >= |p| {
      assert l[|l| - |p|..] == v[|v| - |p|..];
    } else if |l| >= |p| {
      var w := l[|l| - |p|..];
      if |v| == |p| - 1 {
        assert w[0] == l[|a| + 1];
      } else {
        var i := |p| - 2 - |v|;
        assert w[i] == l[|a|];
        assert p[..|p| - 1][i] == p[i];
      }
    }
  }

  // ---------------------------------------------------------------------
  // Sub-block searches

  /** The lines before the student label: the parent label, the parent
      fields and the empty line. */
  function ParentPart(e: Entry): seq<string> {
    [ParentLabel] + FieldLines(e.parent) + [""]
  }

  lemma {:induction false} BodyAfterParentPart(e: Entry)
    ensures Body(e) == JoinLines(ParentPart(e)) + (StudentHead + FieldsText(e.student))
  {
    var fp := FieldLines(e.parent);
    JoinLinesAppend([ParentLabel] + fp, [""]);
    JoinLinesAppend([ParentLabel], fp);
    assert [ParentLabel][1..] == [];
    assert [""][1..] == [];
    assert JoinLines(ParentPart(e)) == ParentHead + FieldsText(e.parent) + "\n";
    BodyText(e);
  }

  lemma ParentPartLines(e: Entry)
    requires StorableEntry(e)
    ensures AllNoNewline(ParentPart(e))
    ensures forall i :: 0 <= i < |ParentPart(e)| ==> !EndsWith(ParentPart(e)[i], StudentLabel)
  {
    var fp := FieldLines(e.parent);
    assert forall i :: 0 <= i < |fp| ==> NoNewline(fp[i]) && !EndsWith(fp[i], StudentLabel) by {
      FieldLinesShape(e.parent);
      forall i | 0 <= i < |fp| ensures !EndsWith(fp[i], StudentLabel) {
        FieldLineNotStudentLabel(e.parent[i]);
      }
    }
    ParentLabelLine();
    assert NoNewline("") && !EndsWith("", StudentLabel);
    FramedLines(ParentLabel, fp, "", StudentLabel);
  }

  lemma ParentLabelLine()
    ensures NoNewline(ParentLabel) && !EndsWith(ParentLabel, StudentLabel)
  {
    var w := ParentLabel[|ParentLabel| - |StudentLabel|..];
    assert w[0] == 'u' && StudentLabel[0] == 'S';
  }

  /** A line, some lines and another line, none with a line feed or
      ending in `p`. */
  lemma FramedLines(a: string, xs: seq<string>, b: string, p: string)
    requires NoNewline(a) && !EndsWith(a, p) && NoNewline(b) && !EndsWith(b, p)
    requires forall i :: 0 <= i < |xs| ==> NoNewline(xs[i]) && !EndsWith(xs[i], p)
    ensures var ls := [a] + xs + [b];
      AllNoNewline(ls) && forall i :: 0 <= i < |ls| ==> !EndsWith(ls[i], p)
  {
    var ls := [a] + xs + [b];
    forall i | 0 <= i < |ls| ensures NoNewline(ls[i]) && !EndsWith(ls[i], p) {
      if 0 < i < |ls| - 1 {
        assert ls[i] == xs[i - 1];
      }
    }
  }

  /** The student search finds the label the encoder wrote. */
  lemma StudentFound(e: Entry)
    requires StorableEntry(e)
    ensures SearchStudent(Body(e)) == Some(FieldsText(e.student))
  {
    var xs := ParentPart(e);
    var f := FieldsText(e.student);
    var x := JoinLines(xs);
    assert Body(e) == x + (StudentHead + f) by {
      BodyAfterParentPart(e);
    }
    assert Find(x + (StudentHead + f), StudentHead) == Some(|x|) by {
      ParentPartLines(e);
      StudentHeadAfterLines(xs, f);
    }
    StudentAt(x, f);
  }

  lemma StudentLabelOneLine()
    ensures NoNewline(StudentLabel)
  {
  }

  /** When the first student label is the one after `x`, the student
      sub-block is everything after it. */
  lemma StudentAt(x: string, f: string)
    requires Find(x + (StudentHead + f), StudentHead) == Some(|x|)
    ensures SearchStudent(x + (StudentHead + f)) == Some(f)
  {
    var b := x + (StudentHead + f);
    assert b[|x| + |StudentHead|..] == f by {
      AfterPrefix(x, StudentHead, f);
    }
    assert SearchStudent(b) == Some(b[|x| + |StudentHead|..]) by {
      SearchStudentAt(b, |x|);
    }
  }

  /** After lines none of which ends with the student label, the first
      student label is the one that follows them. */
  lemma StudentHeadAfterLines(xs: seq<string>, f: string)
    requires AllNoNewline(xs)
    requires forall i :: 0 <= i < |xs| ==> !EndsWith(xs[i], StudentLabel)
    ensures Find(JoinLines(xs) + (StudentHead + f), StudentHead) == Some(|JoinLines(xs)|)
  {
    StudentLabelOneLine();
    FindAfterLines(xs, StudentLabel, f);
  }

  lemma SearchStudentAt(b: string, j: nat)
    requires Find(b, StudentHead) == Some(j)
    ensures SearchStudent(b) == Some(b[j + |StudentHead|..])
  {
  }

  /** With no end marker at or after `m + 29`, no parent search from `m`
      on succeeds. */
  lemma SearchParentNone(b: string, m: nat)
    requires m <= |b|
    requires forall k :: m + |ParentHead| <= k ==> !StartsWith(b, k, ParentEnd)
    ensures SearchParent(b[m..]) == None
    decreases |b| - m
  {
    if m < |b| {
      if StartsWith(b[m..], 0, ParentHead) {
        forall j | 0 <= j ensures !StartsWith(b[m..][|ParentHead|..], j, ParentEnd) {
          assert b[m..][|ParentHead|..] == b[m + |ParentHead|..];
          StartsWithShift(b, m + |ParentHead|, j, ParentEnd);
        }
      }
      assert b[m..][1..] == b[m + 1..];
      SearchParentNone(b, m + 1);
    }
  }

  /** The lines after the parent label when the parent dict is empty. */
  function EmptyParentTail(e: Entry): seq<string> {
    ["", StudentLabel] + FieldLines(e.student)
  }

  lemma {:induction false} EmptyParentBody(e: Entry)
    requires e.parent == []
    ensures Body(e) == ParentHead + JoinLines(EmptyParentTail(e))
  {
    BodyText(e);
    JoinLinesAppend(["", StudentLabel], FieldLines(e.student));
    assert ["", StudentLabel][1..] == [StudentLabel];
    assert [StudentLabel][1..] == [];
    assert JoinLines(["", StudentLabel]) == "\n" + StudentHead;
    assert FieldsText(e.parent) == "";
  }

  lemma EmptyParentTailLines(e: Entry)
    requires StorableEntry(e)
    ensures NewlineNotFollowedBy(JoinLines(EmptyParentTail(e)), '\n')
  {
    var ls := EmptyParentTail(e);
    var fs := FieldLines(e.student);
    FieldLinesShape(e.student);
    forall i | 0 <= i < |ls| ensures NoNewline(ls[i]) && (i >= 1 ==> LeadChar(ls[i]) != '\n') {
      if i >= 2 {
        assert ls[i] == fs[i - 2];
      }
    }
    LinesNotFollowedBy(ls, '\n');
  }

  /** With no parent fields, the written text has no empty line followed
      by the student label after the parent label, so the search fails. */
  lemma ParentMissing(e: Entry)
    requires StorableEntry(e) && e.parent == []
    ensures SearchParent(Body(e)) == None
  {
    var b := Body(e);
    var t := JoinLines(EmptyParentTail(e));
    EmptyParentBody(e);
    EmptyParentTailLines(e);
    assert b[|ParentHead|..] == t;
    forall k | |ParentHead| <= k ensures !StartsWith(b, k, ParentEnd) {
      StartsWithShift(b, |ParentHead|, k - |ParentHead|, ParentEnd);
      if k - |ParentHead| < |t| - 1 {
        NotFollowedNoMatch(t, "", '\n', ParentEnd, k - |ParentHead|);
        assert t + "" == t;
      }
    }
    SearchParentNone(b, 0);
    assert b[0..] == b;
  }

  /** In lines whose line feeds are never doubled, followed by an empty
      line and the student label, the first end marker is where the last
      line ends. */
  lemma ParentEndAfterLines(f: string, t: string)
    requires NewlineNotFollowedBy(f, '\n') && |f| >= 1 && f[|f| - 1] == '\n'
    requires StartsWith(t, 0, "\n" + StudentLabel)
    ensures Find(f + t, ParentEnd) == Some(|f| - 1)
  {
    forall k | 0 <= k < |f| - 1 ensures !StartsWith(f + t, k, ParentEnd) {
      NotFollowedNoMatch(f, t, '\n', ParentEnd, k);
    }
    assert (f + t)[|f| - 1..|f| - 1 + |ParentEnd|] == [f[|f| - 1]] + t[..|ParentEnd| - 1];
    FindIs(f + t, ParentEnd, |f| - 1);
  }

  lemma BodyAroundParent(e: Entry)
    ensures Body(e) == ParentHead + (FieldsText(e.parent) + ("\n" + StudentHead + FieldsText(e.student)))
  {
    BodyText(e);
    Regroup(ParentHead, FieldsText(e.parent), "\n", StudentHead, FieldsText(e.student));
  }

  lemma Regroup(a: string, b: string, c: string, d: string, x: string)
    ensures a + b + c + d + x == a + (b + (c + d + x))
  {
  }

  /** A parent label at the start, with an end marker after it, is the
      leftmost match. */
  lemma ParentAtStart(b: string, j: nat)
    requires StartsWith(b, 0, ParentHead) && Find(b[|ParentHead|..], ParentEnd) == Some(j)
    ensures SearchParent(b) == Some(b[|ParentHead|..][..j])
  {
  }

  /** With parent fields, the search captures their lines up to the last
      line feed. */
  lemma ParentPresent(e: Entry)
    requires StorableEntry(e) && e.parent != []
    ensures |FieldsText(e.parent)| >= 1
    ensures SearchParent(Body(e)) == Some(FieldsText(e.parent)[..|FieldsText(e.parent)| - 1])
  {
    var fp := FieldLines(e.parent);
    var f := FieldsText(e.parent);
    var t := "\n" + StudentHead + FieldsText(e.student);
    FieldLinesShape(e.parent);
    LinesNotFollowedBy(fp, '\n');
    JoinLinesNonEmpty(fp);
    assert t[..|ParentEnd| - 1] == "\n" + StudentLabel;
    ParentEndAfterLines(f, t);
    var b := ParentHead + (f + t);
    assert b[|ParentHead|..] == f + t;
    ParentAtStart(b, |f| - 1);
    assert (f + t)[..|f| - 1] == f[..|f| - 1];
    BodyAroundParent(e);
  }

  /** The parent search recovers the parent dict the encoder wrote. */
  lemma ParentFound(e: Entry)
    requires StorableEntry(e)
    ensures Section(SearchParent(Body(e))) == e.parent
  {
    if e.parent == [] {
      assert SearchParent(Body(e)) == None by { ParentMissing(e); }
    } else {
      var f := FieldsText(e.parent);
      assert |f| >= 1 && SearchParent(Body(e)) == Some(f[..|f| - 1]) by { ParentPresent(e); }
      assert f[..|f| - 1] == JoinNl(FieldLines(e.parent)) by {
        JoinNlIsJoinLinesMinusLast(FieldLines(e.parent));
      }
      assert Section(Some(JoinNl(FieldLines(e.parent)))) == e.parent by {
        ReadsBackJoined(e.parent);
      }
    }
  }

  /** A sub-block that splits into the lines of a dict reads back as
      that dict. */
  lemma SectionOfLines(g: string, m: FieldMap)
    requires StorableMap(m) && SplitLines(g) == FieldLines(m)
    ensures Section(Some(g)) == m
  {
    ReadFieldLines([], m);
    assert [] + m == m;
  }

  /** The lines of a non-empty dict joined with a line feed between, as
      the parent pattern captures them, read back as that dict. */
  lemma ReadsBackJoined(m: FieldMap)
    requires StorableMap(m) && m != []
    ensures Section(Some(JoinNl(FieldLines(m)))) == m
  {
    assert SplitLines(JoinNl(FieldLines(m))) == FieldLines(m) by {
      FieldLinesShape(m);
      SplitJoinNl(FieldLines(m));
    }
    SectionOfLines(JoinNl(FieldLines(m)), m);
  }

  /** The lines of a dict read back as that dict. */
  lemma ReadsBack(m: FieldMap)
    requires StorableMap(m)
    ensures Section(Some(FieldsText(m))) == m
  {
    assert SplitLines(FieldsText(m)) == FieldLines(m) by {
      FieldLinesShape(m);
      SplitJoin(FieldLines(m));
    }
    SectionOfLines(FieldsText(m), m);
  }

  /** A written body parses back to its entry. */
  lemma ParseBody(e: Entry)
    requires StorableEntry(e)
    ensures ParseBlock(Body(e)) == e
  {
    ParentFound(e);
    StudentFound(e);
    ReadsBack(e.student);
  }

  // ---------------------------------------------------------------------
  // Blocks

  /** `\d+` stops at the first non-digit. */
  lemma {:induction false} DigitRunStops(d: string, t: string)
    requires forall i :: 0 <= i < |d| ==> IsDigit(d[i])
    requires t == [] || !IsDigit(t[0])
    ensures DigitRun(d + t) == |d|
    decreases |d|
  {
    if d != [] {
      assert (d + t)[1..] == d[1..] + t;
      DigitRunStops(d[1..], t);
    } else {
      assert d + t == t;
    }
  }

  /** The header pattern matches a written header, whatever its number. */
  lemma HeaderMatchAt(n: nat, rest: string)
    ensures HeaderMatch(Header(n) + rest) == Some(|Header(n)|)
  {
    var s := Header(n) + rest;
    var d := Decimal(n);
    assert s == HeaderOpen + (d + (HeaderClose + rest));
    assert s[|HeaderOpen|..] == d + (HeaderClose + rest);
    DigitRunStops(d, HeaderClose + rest);
    assert s[|HeaderOpen| + |d|..][..|HeaderClose|] == HeaderClose;
  }

  /** What the block scan needs of a body: no line feed is followed by
      the separator's dash, and the body ends with a line feed. */
  predicate BodyLike(b: string) {
    NewlineNotFollowedBy(b, '-') && |b| >= 1 && b[|b| - 1] == '\n'
  }

  /** Every written body has that shape. */
  lemma BodyShape(e: Entry)
    requires StorableEntry(e)
    ensures BodyLike(Body(e))
  {
    var ls := BodyLines(e);
    var fp, fs := FieldLines(e.parent), FieldLines(e.student);
    FieldLinesShape(e.parent);
    FieldLinesShape(e.student);
    var np := |fp|;
    forall i | 0 <= i < |ls| ensures NoNewline(ls[i]) && (i >= 1 ==> LeadChar(ls[i]) != '-') {
      if 1 <= i <= np {
        assert ls[i] == fp[i - 1];
      } else if i == np + 1 {
        assert ls[i] == "";
      } else if i == np + 2 {
        assert ls[i] == StudentLabel;
      } else if i > np + 2 {
        assert ls[i] == fs[i - np - 3];
      }
    }
    LinesNotFollowedBy(ls, '-');
    JoinLinesNonEmpty(ls);
  }

  /** The first separator after a body is the one the encoder wrote. */
  lemma SeparatorAfterBody(b: string, t: string)
    requires BodyLike(b) && StartsWith(t, 0, BlockEnd)
    ensures Find(b + t, BlockEnd) == Some(|b|)
  {
    forall k | 0 <= k < |b| - 1 ensures !StartsWith(b + t, k, BlockEnd) {
      NotFollowedNoMatch(b, t, '-', BlockEnd, k);
    }
    var k := |b| - 1;
    assert k + |BlockEnd| <= |b + t|;
    var w := (b + t)[k..k + |BlockEnd|];
    assert w[1] == t[0] == '\n' && BlockEnd[1] == '-';
    assert (b + t)[|b|..|b| + |BlockEnd|] == BlockEnd;
    FindIs(b + t, BlockEnd, |b|);
  }

  lemma FramedParts(n: nat, b: string, rest: string)
    ensures Framed(n, b) + rest == Header(n) + (b + (BlockEnd + ("\n\n" + rest)))
    ensures (Framed(n, b) + rest)[|Header(n)|..] == b + (BlockEnd + ("\n\n" + rest))
    ensures (Framed(n, b) + rest)[|Header(n)| + |b| + |BlockEnd|..] == "\n\n" + rest
  {
  }

  /** A written block is matched whole: the group is its body and the
      scan resumes at the two line feeds after the separator. */
  lemma MatchBlockAt(n: nat, b: string, rest: string)
    requires BodyLike(b)
    ensures MatchBlock(Framed(n, b) + rest) == Some(BlockMatch(b, |Header(n)| + |b| + |BlockEnd|))
  {
    FramedHeader(n, b, rest);
    FramedSeparator(n, b, rest);
    MatchAfterHeader(Framed(n, b) + rest, Header(n), b, BlockEnd + ("\n\n" + rest));
  }

  lemma FramedHeader(n: nat, b: string, rest: string)
    ensures HeaderMatch(Framed(n, b) + rest) == Some(|Header(n)|)
  {
    var u := BlockEnd + ("\n\n" + rest);
    assert Framed(n, b) + rest == Header(n) + (b + u) by {
      FramedParts(n, b, rest);
    }
    HeaderMatchAt(n, b + u);
  }

  lemma FramedSeparator(n: nat, b: string, rest: string)
    requires BodyLike(b)
    ensures Framed(n, b) + rest == Header(n) + (b + (BlockEnd + ("\n\n" + rest)))
    ensures Find(b + (BlockEnd + ("\n\n" + rest)), BlockEnd) == Some(|b|)
  {
    FramedParts(n, b, rest);
    StartsWithFront(BlockEnd, "\n\n" + rest);
    SeparatorAfterBody(b, BlockEnd + ("\n\n" + rest));
  }

  /** A header match followed by a body and the separator. */
  lemma MatchAfterHeader(s: string, hd: string, b: string, u: string)
    requires s == hd + (b + u) && HeaderMatch(s) == Some(|hd|) && Find(b + u, BlockEnd) == Some(|b|)
    ensures MatchBlock(s) == Some(BlockMatch(b, |hd| + |b| + |BlockEnd|))
  {
    assert s[|hd|..] == b + u;
    assert s[|hd|..|hd| + |b|] == b;
    MatchBlockFrom(s, |hd|, |b|);
  }

  lemma MatchBlockFrom(s: string, h: nat, j: nat)
    requires h <= |s| && HeaderMatch(s) == Some(h) && Find(s[h..], BlockEnd) == Some(j)
    ensures MatchBlock(s) == Some(BlockMatch(s[h..h + j], h + j + |BlockEnd|))
  {
  }

  /** Text with no `=` before a block is skipped. */
  lemma {:induction false} SkipOutside(x: string, s: string)
    requires '=' !in x
    ensures FindBlocks(x + s) == FindBlocks(s)
    decreases |x|
  {
    if x != [] {
      assert (x + s)[0] == x[0];
      assert HeaderMatch(x + s) == None;
      assert (x + s)[1..] == x[1..] + s;
      SkipOutside(x[1..], s);
    } else {
      assert x + s == s;
    }
  }

  /** The bodies of a list of entries. */
  function Bodies(es: seq<Entry>): (bs: seq<string>)
    ensures |bs| == |es| && forall i :: 0 <= i < |es| ==> bs[i] == Body(es[i])
  {
    seq(|es|, i requires 0 <= i < |es| => Body(es[i]))
  }

  /** After a written block, the scan continues with what follows it. */
  lemma ScanBlock(n: nat, b: string, r: string)
    requires BodyLike(b)
    ensures FindBlocks(Framed(n, b) + r) == [b] + FindBlocks(r)
  {
    var next := |Header(n)| + |b| + |BlockEnd|;
    var s := Framed(n, b) + r;
    assert FindBlocks(s) == [b] + FindBlocks(s[next..]) by {
      MatchBlockAt(n, b, r);
      ScanMatch(s, BlockMatch(b, next));
    }
    assert s[next..] == "\n\n" + r by {
      FramedParts(n, b, r);
    }
    assert FindBlocks("\n\n" + r) == FindBlocks(r) by {
      SkipOutside("\n\n", r);
    }
  }

  lemma ScanMatch(s: string, m: BlockMatch)
    requires MatchBlock(s) == Some(m)
    ensures FindBlocks(s) == [m.content] + FindBlocks(s[m.next..])
  {
  }

  /** The block scan finds the bodies of the written entries, in order. */
  lemma {:induction false} FindWrittenBlocks(es: seq<Entry>, n: nat)
    requires Storable(es)
    ensures FindBlocks(EncodeFrom(es, n)) == Bodies(es)
    decreases |es|
  {
    if es != [] {
      assert FindBlocks(EncodeFrom(es, n)) == [Body(es[0])] + FindBlocks(EncodeFrom(es[1..], n + 1)) by {
        ScanEntry(es, n);
      }
      assert FindBlocks(EncodeFrom(es[1..], n + 1)) == Bodies(es[1..]) by {
        StorableTail(es);
        FindWrittenBlocks(es[1..], n + 1);
      }
      BodiesCons(es);
    }
  }

  /** The first written block is found first, and the scan goes on with
      the blocks of the remaining entries. */
  lemma ScanEntry(es: seq<Entry>, n: nat)
    requires es != [] && StorableEntry(es[0])
    ensures FindBlocks(EncodeFrom(es, n)) == [Body(es[0])] + FindBlocks(EncodeFrom(es[1..], n + 1))
  {
    var r := EncodeFrom(es[1..], n + 1);
    var b := Body(es[0]);
    assert EncodeFrom(es, n) == Framed(n, b) + r by {
      BlockIsFramed(n, es[0]);
    }
    BodyShape(es[0]);
    ScanBlock(n, b, r);
  }

  lemma StorableTail(es: seq<Entry>)
    requires Storable(es) && es != []
    ensures Storable(es[1..])
  {
    forall i | 0 <= i < |es| - 1 ensures StorableEntry(es[1..][i]) {
      assert es[1..][i] == es[i + 1];
    }
  }

  lemma BodiesCons(es: seq<Entry>)
    requires es != []
    ensures Bodies(es) == [Body(es[0])] + Bodies(es[1..])
  {
  }

  /** Round trip: loading what `save_to_txt` wrote gives back the same
      entries, in the same order, with the same fields in the same order. */
  lemma RoundTrip(es: seq<Entry>)
    requires Storable(es)
    ensures Decode(Some(Encode(es))) == es
  {
    FindWrittenBlocks(es, 1);
    forall i | 0 <= i < |es| ensures ParseBlock(Body(es[i])) == es[i] {
      ParseBody(es[i]);
    }
  }

  /** The block for the entry at position `i` carries number `i + 1`:
      the blocks of a concatenation are the blocks of each part, the
      second part numbered on from the first. */
  lemma {:induction false} EncodeFromAppend(a: seq<Entry>, b: seq<Entry>, n: nat)
    ensures EncodeFrom(a + b, n) == EncodeFrom(a, n) + EncodeFrom(b, n + |a|)
    decreases |a|
  {
    if a == [] {
      assert a + b == b;
    } else {
      assert (a + b)[1..] == a[1..] + b;
      EncodeFromAppend(a[1..], b, n + 1);
    }
  }

  /** Appending an entry appends one block, numbered `|es| + 1`. */
  lemma EncodeSnoc(es: seq<Entry>, e: Entry)
    ensures Encode(es + [e]) == Encode(es) + Block(|es| + 1, e)
  {
    EncodeFromAppend(es, [e], 1);
    assert [e][1..] == [];
  }
}
