/** The editing rules of the menu loop in auto-doc-parentstudent.py: the
    prompt-default rule of `get_input`/`collect_info`, turning an entry
    number into a list position with Python's indexing, and the add, edit
    and delete mutations of the entry list. */
module Editor {
  import opened Wrappers
  import opened Text
  import opened Fields
  import opened Store
  import opened StoreLaws

  const ParentFields: seq<string> := [
    "Last Name", "First Name", "Middle Name", "Extension Name",
    "Address", "Sex", "Civil Status", "Date of Birth",
    "Contact Number", "Occupation", "Monthly Salary", "Relationship to Beneficiary"
  ]

  const StudentFields: seq<string> := [
    "Last Name", "First Name", "Middle Name", "Extension Name",
    "Address", "Date of Birth", "Sex", "Year Level",
    "Civil Status", "Contact Number", "Occupation", "Monthly Salary"
  ]

  predicate NoDup(xs: seq<string>) {
    forall i, j :: 0 <= i < j < |xs| ==> xs[i] != xs[j]
  }

  /** Strings told apart by their length or their first letter. */
  predicate Distinguishable(xs: seq<string>) {
    forall i, j :: 0 <= i < j < |xs| ==>
      |xs[i]| != |xs[j]| || (xs[i] != [] && xs[j] != [] && xs[i][0] != xs[j][0])
  }

  lemma DistinguishableNoDup(xs: seq<string>)
    requires Distinguishable(xs)
    ensures NoDup(xs)
  {
    forall i, j | 0 <= i < j < |xs| ensures xs[i] != xs[j] {
      if |xs[i]| == |xs[j]| {
        assert xs[i][0] != xs[j][0];
      }
    }
  }

  /** The parent prompt list names twelve distinct fields. */
  lemma ParentFieldsDistinct()
    ensures |ParentFields| == 12 && NoDup(ParentFields)
  {
    assert Distinguishable(ParentFields);
    DistinguishableNoDup(ParentFields);
  }

  /** The student prompt list names twelve distinct fields. */
  lemma StudentFieldsDistinct()
    ensures |StudentFields| == 12 && NoDup(StudentFields)
  {
    assert Distinguishable(StudentFields);
    DistinguishableNoDup(StudentFields);
  }

  // ---------------------------------------------------------------------
  // Prompts

  /** `get_input`: the stripped answer, or the default when the answer is
      blank. */
  function GetInput(raw: string, default: string): (r: string)
    ensures AllSpace(raw) ==> r == default
    ensures !AllSpace(raw) ==> r != [] && Trimmed(r) && r == Trim(raw)
  {
    TrimEmpty(raw);
    var inp := Trim(raw);
    if inp != [] then inp else default
  }

  /** `defaults.get(field, "") if defaults else ""`: no dict, or an empty
      one, gives the empty string. */
  function DefaultFor(defaults: Option<FieldMap>, field: string): (r: string)
    ensures defaults.None? ==> r == ""
    ensures defaults.Some? && field !in Keys(defaults.value) ==> r == ""
    ensures defaults.Some? && UniqueKeys(defaults.value) ==>
      forall i :: 0 <= i < |defaults.value| && defaults.value[i].key == field ==> r == defaults.value[i].value
  {
    if defaults.Some? && defaults.value != [] then Lookup(defaults.value, field).GetOr("") else ""
  }

  /** The value stored for one field: the answer, or the default. */
  function Answer(defaults: Option<FieldMap>, field: string, raw: string): string {
    GetInput(raw, DefaultFor(defaults, field))
  }

  /** The value of every prompt, in prompt order. */
  function Answers(fields: seq<string>, defaults: Option<FieldMap>, answers: seq<string>): (vs: seq<string>)
    requires |answers| == |fields|
    ensures |vs| == |fields| && forall i :: 0 <= i < |fields| ==> vs[i] == Answer(defaults, fields[i], answers[i])
  {
    seq(|fields|, i requires 0 <= i < |fields| => Answer(defaults, fields[i], answers[i]))
  }

  /** `data[field] = value` for each field in turn, starting from `{}`. */
  function Assign(fields: seq<string>, values: seq<string>): (r: FieldMap)
    requires |values| == |fields|
    ensures UniqueKeys(r)
    decreases |fields|
  {
    if fields == [] then []
    else
      var n := |fields| - 1;
      Put(Assign(fields[..n], values[..n]), fields[n], values[n])
  }

  /** The dict `collect_info` builds from one answer per field. */
  function Collected(fields: seq<string>, defaults: Option<FieldMap>, answers: seq<string>): FieldMap
    requires |answers| == |fields|
  {
    Assign(fields, Answers(fields, defaults, answers))
  }

  /** The fields and their values side by side. */
  function Zip(fields: seq<string>, values: seq<string>): (r: FieldMap)
    requires |values| == |fields|
    ensures |r| == |fields| && forall i :: 0 <= i < |r| ==> r[i] == Field(fields[i], values[i])
  {
    seq(|fields|, i requires 0 <= i < |fields| => Field(fields[i], values[i]))
  }

  /** The keys of the dict are the fields, whatever the values. */
  lemma {:induction false} AssignKeys(fields: seq<string>, values: seq<string>)
    requires |values| == |fields|
    ensures forall x :: x in Keys(Assign(fields, values)) <==> x in fields
    decreases |fields|
  {
    if fields != [] {
      var n := |fields| - 1;
      AssignKeys(fields[..n], values[..n]);
      PutKeys(Assign(fields[..n], values[..n]), fields[n], values[n]);
      assert fields == fields[..n] + [fields[n]];
    }
  }

  /** With distinct field names, the dict lists the fields in order, each
      with its own value. */
  lemma {:induction false} AssignInOrder(fields: seq<string>, values: seq<string>)
    requires |values| == |fields| && NoDup(fields)
    ensures Assign(fields, values) == Zip(fields, values)
    decreases |fields|
  {
    if fields != [] {
      var n := |fields| - 1;
      var prev := Assign(fields[..n], values[..n]);
      assert prev == Zip(fields[..n], values[..n]) by {
        assert NoDup(fields[..n]);
        AssignInOrder(fields[..n], values[..n]);
      }
      assert fields[n] !in Keys(prev) by {
        forall i | 0 <= i < n ensures Keys(prev)[i] != fields[n] {
          assert Keys(prev)[i] == fields[..n][i] == fields[i];
        }
      }
      ZipSnoc(fields, values);
    }
  }

  lemma ZipSnoc(fields: seq<string>, values: seq<string>)
    requires |values| == |fields| && fields != []
    ensures Zip(fields, values)
         == Zip(fields[..|fields| - 1], values[..|fields| - 1]) + [Field(fields[|fields| - 1], values[|fields| - 1])]
  {
  }

  /** `collect_info` with distinct field names: the keys are the field list
      in order, and each value is the answer, or the default for a blank
      answer. */
  lemma CollectedInOrder(fields: seq<string>, defaults: Option<FieldMap>, answers: seq<string>)
    requires |answers| == |fields| && NoDup(fields)
    ensures Keys(Collected(fields, defaults, answers)) == fields
    ensures forall i :: 0 <= i < |fields| ==>
      Collected(fields, defaults, answers)[i] == Field(fields[i], Answer(defaults, fields[i], answers[i]))
  {
    AssignInOrder(fields, Answers(fields, defaults, answers));
  }

  /** Editing an entry and leaving every answer blank keeps the dict, when
      its keys are the prompt list. */
  lemma BlankAnswersKeep(fields: seq<string>, d: FieldMap, answers: seq<string>)
    requires |answers| == |fields| && NoDup(fields) && Keys(d) == fields
    requires forall i :: 0 <= i < |answers| ==> AllSpace(answers[i])
    ensures Collected(fields, Some(d), answers) == d
  {
    CollectedInOrder(fields, Some(d), answers);
    assert UniqueKeys(d) by {
      forall i, j | 0 <= i < j < |d| ensures d[i].key != d[j].key {
        assert Keys(d)[i] == d[i].key && Keys(d)[j] == d[j].key;
      }
    }
    var r := Collected(fields, Some(d), answers);
    forall i | 0 <= i < |d| ensures r[i] == d[i] {
      assert Keys(d)[i] == d[i].key;
    }
  }

  /** The dict after one more field. */
  lemma CollectedSnoc(fields: seq<string>, defaults: Option<FieldMap>, answers: seq<string>, j: nat)
    requires |answers| == |fields| && j < |fields|
    ensures Collected(fields[..j + 1], defaults, answers[..j + 1])
         == Put(Collected(fields[..j], defaults, answers[..j]), fields[j], Answer(defaults, fields[j], answers[j]))
  {
    var fs, rs := fields[..j + 1], answers[..j + 1];
    var vs := Answers(fs, defaults, rs);
    assert fs[..j] == fields[..j] && rs[..j] == answers[..j];
    assert vs[..j] == Answers(fields[..j], defaults, answers[..j]) by {
      AnswersPrefix(fs, defaults, rs, j);
    }
    assert fs[j] == fields[j] && vs[j] == Answer(defaults, fields[j], answers[j]);
    AssignLast(fs, vs);
  }

  lemma AnswersPrefix(fields: seq<string>, defaults: Option<FieldMap>, answers: seq<string>, j: nat)
    requires |answers| == |fields| && j <= |fields|
    ensures Answers(fields, defaults, answers)[..j] == Answers(fields[..j], defaults, answers[..j])
  {
  }

  lemma AssignLast(fields: seq<string>, values: seq<string>)
    requires |values| == |fields| && fields != []
    ensures var n := |fields| - 1;
      Assign(fields, values) == Put(Assign(fields[..n], values[..n]), fields[n], values[n])
  {
  }

  /** `collect_info(info_type, fields, defaults)` with the answers to its
      prompts. */
  method CollectInfo(fields: seq<string>, defaults: Option<FieldMap>, answers: seq<string>)
    returns (data: FieldMap)
    requires |answers| == |fields|
    ensures data == Collected(fields, defaults, answers)
  {
    data := [];
    var j := 0;
    while j < |fields|
      invariant 0 <= j <= |fields|
      invariant data == Collected(fields[..j], defaults, answers[..j])
    {
      var default := DefaultFor(defaults, fields[j]);
      var value := GetInput(answers[j], default);
      assert Put(data, fields[j], value) == Collected(fields[..j + 1], defaults, answers[..j + 1]) by {
        CollectedSnoc(fields, defaults, answers, j);
      }
      data := Put(data, fields[j], value);
      j := j + 1;
    }
    assert fields[..j] == fields && answers[..j] == answers by {
      assert j == |fields|;
    }
  }

  // ---------------------------------------------------------------------
  // Entry numbers

  /** What the edit and delete commands make of an entry number: nothing
      to choose from, input that `int()` rejects, an index Python rejects,
      or the chosen position. */
  datatype Selection = NoEntries | NotANumber | OutOfRange | At(index: nat)

  /** `idx = int(...) - 1` followed by `entries[idx]`, on a list of `n`
      entries; the emptiness check comes first. */
  function Select(n: nat, number: Option<int>): (s: Selection)
    ensures s == NoEntries <==> n == 0
    ensures s == NotANumber <==> n > 0 && number.None?
    ensures s.At? <==> n > 0 && number.Some? && -(n as int) <= number.value - 1 < n
    ensures s.At? ==> s.index < n && s.index % n == (number.value - 1) % n
  {
    if n == 0 then NoEntries
    else
      match number
      case None => NotANumber
      case Some(k) =>
        var idx := k - 1;
        if -(n as int) <= idx < n then
          var j := if idx >= 0 then idx else n + idx;
          WrapIndex(idx, n);
          At(j)
        else OutOfRange
  }

  /** A negative Python index `x` names the same position as `x + n`. */
  lemma WrapIndex(x: int, n: nat)
    requires -(n as int) <= x < n
    ensures x < 0 ==> (x + n) % n == x % n
  {
    if x < 0 {
      assert (x + n) % n == x + n;
      assert x == n * (-1) + (x + n);
    }
  }

  /** Numbers 1..n choose the entries in order; 0 and below count back
      from the last one. */
  lemma SelectNumbers(n: nat, k: int)
    requires -(n as int) < k <= n
    ensures k >= 1 ==> Select(n, Some(k)) == At(k - 1)
    ensures k <= 0 ==> Select(n, Some(k)) == At((n as int) - 1 + k)
  {
  }

  /** `list.append(e)`: one more entry at the end. */
  function Appended(s: seq<Entry>, e: Entry): (r: seq<Entry>)
    ensures |r| == |s| + 1 && r[..|s|] == s && r[|s|] == e
  {
    s + [e]
  }

  /** `list[i] = e`: the entry at `i` is replaced and no other. */
  function Replaced(s: seq<Entry>, i: nat, e: Entry): (r: seq<Entry>)
    requires i < |s|
    ensures |r| == |s| && r[i] == e
    ensures forall j :: 0 <= j < |s| && j != i ==> r[j] == s[j]
  {
    s[i := e]
  }

  /** `list.pop(i)`: later entries move down by one. */
  function Removed(s: seq<Entry>, i: nat): (r: seq<Entry>)
    requires i < |s|
    ensures |r| == |s| - 1 && r[..i] == s[..i]
    ensures forall j :: i <= j < |r| ==> r[j] == s[j + 1]
    ensures multiset(r) + multiset{s[i]} == multiset(s)
  {
    assert s == s[..i] + [s[i]] + s[i + 1..];
    s[..i] + s[i + 1..]
  }

  /** Every dict of every entry has unique keys, as Python dicts do. */
  predicate AllUnique(es: seq<Entry>) {
    forall i :: 0 <= i < |es| ==> UniqueKeys(es[i].parent) && UniqueKeys(es[i].student)
  }

  lemma AppendedUnique(s: seq<Entry>, e: Entry)
    requires AllUnique(s) && UniqueKeys(e.parent) && UniqueKeys(e.student)
    ensures AllUnique(Appended(s, e))
  {
  }

  lemma ReplacedUnique(s: seq<Entry>, i: nat, e: Entry)
    requires i < |s| && AllUnique(s) && UniqueKeys(e.parent) && UniqueKeys(e.student)
    ensures AllUnique(Replaced(s, i, e))
  {
  }

  lemma RemovedUnique(s: seq<Entry>, i: nat)
    requires i < |s| && AllUnique(s)
    ensures AllUnique(Removed(s, i))
  {
    var r := Removed(s, i);
    forall j | 0 <= j < |r| ensures UniqueKeys(r[j].parent) && UniqueKeys(r[j].student) {
      if j < i {
        assert r[j] == r[..i][j] == s[..i][j] == s[j];
      }
    }
  }

  /** The dicts `collect_info` builds have unique keys. */
  lemma CollectedUnique(fields: seq<string>, defaults: Option<FieldMap>, answers: seq<string>)
    requires |answers| == |fields|
    ensures UniqueKeys(Collected(fields, defaults, answers))
  {
  }

  /** The entry that the add command builds from the answers to its
      prompts, with no defaults. */
  function NewEntry(parentAnswers: seq<string>, studentAnswers: seq<string>): Entry
    requires |parentAnswers| == |ParentFields| && |studentAnswers| == |StudentFields|
  {
    Entry(Collected(ParentFields, None, parentAnswers), Collected(StudentFields, None, studentAnswers))
  }

  /** The entry that the edit command builds, every prompt defaulting to
      the old entry's value. */
  function EditedEntry(previous: Entry, parentAnswers: seq<string>, studentAnswers: seq<string>): Entry
    requires |parentAnswers| == |ParentFields| && |studentAnswers| == |StudentFields|
  {
    Entry(Collected(ParentFields, Some(previous.parent), parentAnswers),
          Collected(StudentFields, Some(previous.student), studentAnswers))
  }

  /** An added entry has the prompt lists as keys, in order. */
  lemma NewEntryKeys(parentAnswers: seq<string>, studentAnswers: seq<string>)
    requires |parentAnswers| == |ParentFields| && |studentAnswers| == |StudentFields|
    ensures Keys(NewEntry(parentAnswers, studentAnswers).parent) == ParentFields
    ensures Keys(NewEntry(parentAnswers, studentAnswers).student) == StudentFields
  {
    ParentFieldsDistinct();
    StudentFieldsDistinct();
    CollectedInOrder(ParentFields, None, parentAnswers);
    CollectedInOrder(StudentFields, None, studentAnswers);
  }

  // ---------------------------------------------------------------------
  // The entry list

  /** The in-memory list `entries` of `main`. */
  class EntryList {
    var entries: seq<Entry>

    predicate Valid()
      reads this
    {
      AllUnique(entries)
    }

    /** `entries = load_entries(FILENAME)`. */
    constructor (content: Option<string>)
      ensures entries == Decode(content) && Valid()
    {
      var loaded := LoadEntries(content);
      entries := loaded;
    }

    /** Menu choice 1: one new entry at the end. */
    method Add(parentAnswers: seq<string>, studentAnswers: seq<string>)
      requires |parentAnswers| == |ParentFields| && |studentAnswers| == |StudentFields|
      modifies this
      ensures entries == Appended(old(entries), NewEntry(parentAnswers, studentAnswers))
      ensures old(Valid()) ==> Valid()
    {
      var parent := CollectInfo(ParentFields, None, parentAnswers);
      var student := CollectInfo(StudentFields, None, studentAnswers);
      assert Entry(parent, student) == NewEntry(parentAnswers, studentAnswers);
      if Valid() {
        CollectedUnique(ParentFields, None, parentAnswers);
        CollectedUnique(StudentFields, None, studentAnswers);
        AppendedUnique(entries, Entry(parent, student));
      }
      entries := entries + [Entry(parent, student)];
    }

    /** Menu choice 2: the chosen entry is replaced by the answers, each
        prompt defaulting to the old value; nothing else changes. */
    method Edit(number: Option<int>, parentAnswers: seq<string>, studentAnswers: seq<string>)
      returns (sel: Selection)
      requires |parentAnswers| == |ParentFields| && |studentAnswers| == |StudentFields|
      modifies this
      ensures sel == Select(|old(entries)|, number)
      ensures sel.At? ==> entries == Replaced(old(entries), sel.index,
        EditedEntry(old(entries)[sel.index], parentAnswers, studentAnswers))
      ensures !sel.At? ==> entries == old(entries)
      ensures old(Valid()) ==> Valid()
    {
      sel := Select(|entries|, number);
      if sel.At? {
        var pos := sel.index;
        var prev := entries[pos];
        var parent := CollectInfo(ParentFields, Some(prev.parent), parentAnswers);
        var student := CollectInfo(StudentFields, Some(prev.student), studentAnswers);
        assert Entry(parent, student) == EditedEntry(prev, parentAnswers, studentAnswers);
        if Valid() {
          CollectedUnique(ParentFields, Some(prev.parent), parentAnswers);
          CollectedUnique(StudentFields, Some(prev.student), studentAnswers);
          ReplacedUnique(entries, pos, Entry(parent, student));
        }
        entries := entries[pos := Entry(parent, student)];
      }
    }

    /** Menu choice 3: the chosen entry is removed. */
    method Delete(number: Option<int>) returns (sel: Selection)
      modifies this
      ensures sel == Select(|old(entries)|, number)
      ensures sel.At? ==> entries == Removed(old(entries), sel.index)
      ensures !sel.At? ==> entries == old(entries)
      ensures old(Valid()) ==> Valid()
    {
      sel := Select(|entries|, number);
      if sel.At? {
        if Valid() {
          RemovedUnique(entries, sel.index);
        }
        entries := entries[..sel.index] + entries[sel.index + 1..];
      }
    }

    /** Menu choice 5: `save_to_txt(entries)`. Storable entries are what a
        later start of the program loads again. */
    method Save(disk: Disk)
      modifies disk
      ensures disk.backup == Some(old(disk.store).GetOr(""))
      ensures disk.store == Some(Encode(entries))
      ensures Storable(entries) ==> Decode(disk.store) == entries
    {
      disk.SaveToTxt(entries);
      if Storable(entries) {
        RoundTrip(entries);
      }
    }
  }
}
