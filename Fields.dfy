/** The records both scripts work on. A Python dict of strings is an
    insertion-ordered list of (key, value) pairs with unique keys; an entry
    is the pair of a parent/guardian dict and a student dict. Also the rule,
    shared by both loaders, that turns one line of a sub-block into a dict
    assignment. */
module Fields {
  import opened Wrappers
  import opened Text

  datatype Field = Field(key: string, value: string)

  /** A Python `dict[str, str]`, in insertion order. */
  type FieldMap = seq<Field>

  /** One record pair `(parent, student)`. */
  datatype Entry = Entry(parent: FieldMap, student: FieldMap)

  function Keys(m: FieldMap): (ks: seq<string>)
    ensures |ks| == |m| && forall i :: 0 <= i < |m| ==> ks[i] == m[i].key
  {
    seq(|m|, i requires 0 <= i < |m| => m[i].key)
  }

  predicate UniqueKeys(m: FieldMap) {
    forall i, j :: 0 <= i < j < |m| ==> m[i].key != m[j].key
  }

  /** Position of the first field with key `k`, or `|m|`. */
  function KeyIndex(m: FieldMap, k: string): (i: nat)
    ensures i <= |m| && (forall j :: 0 <= j < i ==> m[j].key != k)
    ensures i < |m| ==> m[i].key == k
  {
    if m == [] || m[0].key == k then 0 else 1 + KeyIndex(m[1..], k)
  }

  /** `d[k] = v`: a key already present keeps its position and takes the
      new value; a new key is appended at the end. */
  function Put(m: FieldMap, k: string, v: string): (r: FieldMap)
    ensures k !in Keys(m) ==> r == m + [Field(k, v)]
    ensures UniqueKeys(m) ==> UniqueKeys(r)
  {
    var i := KeyIndex(m, k);
    if i < |m| then
      var r := m[i := Field(k, v)];
      assert Keys(r) == Keys(m);
      r
    else
      assert k !in Keys(m);
      var r := m + [Field(k, v)];
      assert Keys(r) == Keys(m) + [k];
      r
  }

  /** Overwriting keeps the length and the position of the key, and
      changes no other field. */
  lemma PutExisting(m: FieldMap, k: string, v: string)
    requires UniqueKeys(m) && k in Keys(m)
    ensures |Put(m, k, v)| == |m|
    ensures forall i :: 0 <= i < |m| ==>
              Put(m, k, v)[i] == if m[i].key == k then Field(k, v) else m[i]
  {
  }

  /** The keys after `d[k] = v` are the old keys and `k`. */
  lemma PutKeys(m: FieldMap, k: string, v: string)
    ensures forall x :: x in Keys(Put(m, k, v)) <==> x in Keys(m) || x == k
  {
    var r := Put(m, k, v);
    var i := KeyIndex(m, k);
    if i < |m| {
      assert Keys(r) == Keys(m);
    } else {
      assert Keys(r) == Keys(m) + [k];
    }
  }

  /** `d.get(k)`. */
  function Lookup(m: FieldMap, k: string): (r: Option<string>)
    ensures r.Some? <==> k in Keys(m)
    ensures r.Some? ==> exists i :: 0 <= i < |m| && m[i] == Field(k, r.value)
    ensures UniqueKeys(m) ==> forall i :: 0 <= i < |m| && m[i].key == k ==> r == Some(m[i].value)
  {
    var i := KeyIndex(m, k);
    assert k in Keys(m) ==> i < |m| by {
      if k in Keys(m) {
        var j :| 0 <= j < |m| && Keys(m)[j] == k;
        assert m[j].key == k;
      }
    }
    if i < |m| then Some(m[i].value) else None
  }

  /** How a loader treats one line of a sub-block: a line containing a colon
      is stripped and split on its first colon, and the stripped key and
      value are stored; any other line is skipped. */
  function AddLine(m: FieldMap, line: string): FieldMap
  {
    if ':' in line then
      TrimKeeps(line, ':');
      SplitAssign(m, Trim(line))
    else m
  }

  /** `k, v = t.split(":", 1)` followed by `d[k.strip()] = v.strip()`. */
  function SplitAssign(m: FieldMap, t: string): FieldMap
    requires ':' in t
  {
    var c := IndexOf(t, ':');
    IndexOfFound(t, ':');
    Put(m, Trim(t[..c]), Trim(t[c + 1..]))
  }

  /** The lines of a sub-block, applied in order to the dict built so far. */
  function FieldsFrom(m: FieldMap, lines: seq<string>): (r: FieldMap)
    ensures UniqueKeys(m) ==> UniqueKeys(r)
    decreases lines
  {
    if lines == [] then m
    else
      AddLineUnique(m, lines[0]);
      FieldsFrom(AddLine(m, lines[0]), lines[1..])
  }

  lemma FieldsFromCons(acc: FieldMap, ls: seq<string>)
    requires ls != []
    ensures FieldsFrom(acc, ls) == FieldsFrom(AddLine(acc, ls[0]), ls[1..])
  {
  }

  lemma AddLineUnique(m: FieldMap, line: string)
    ensures UniqueKeys(m) ==> UniqueKeys(AddLine(m, line))
  {
  }

  /** The key is the stripped text before the first colon and the value the
      stripped text after it, further colons included. */
  lemma SplitAtFirstColon(m: FieldMap, pre: string, post: string)
    requires ':' !in pre
    ensures AddLine(m, pre + ":" + post) == Put(m, Trim(pre), Trim(post))
  {
    var line := pre + ":" + post;
    assert line == pre + [':'] + post;
    assert ':' in line by { assert line[|pre|] == ':'; }
    var t := StripAround(pre, ':', post);
    assert ':' !in TrimLeft(pre) by {
      SuffixLacks(pre, TrimLeft(pre), ':');
    }
    SplitAssignAt(m, t, TrimLeft(pre), TrimRight(post));
    TrimOfTrimLeft(pre);
    TrimOfTrimRight(post);
  }

  /** `split(":", 1)` of `l + ":" + r`, when `l` has no colon. */
  lemma SplitAssignAt(m: FieldMap, t: string, l: string, r: string)
    requires t == l + [':'] + r && ':' !in l
    ensures ':' in t && SplitAssign(m, t) == Put(m, Trim(l), Trim(r))
  {
    SplitPieces(l, ':', r);
  }

  /** Splitting `l + [c] + r` at its first `c`, when `l` has none. */
  lemma SplitPieces(l: string, c: char, r: string)
    requires c !in l
    ensures var t := l + [c] + r;
      IndexOf(t, c) == |l| && t[..|l|] == l && t[|l| + 1..] == r
  {
    var t := l + [c] + r;
    assert t[|l|] == c;
    forall k | 0 <= k < |l| ensures t[k] != c {
      assert t[k] == l[k];
    }
    IndexOfIs(t, c, |l|);
  }

  /** `strip` of `pre + [c] + post`, for a non-space `c`, strips the left
      of `pre` and the right of `post`. */
  lemma StripAround(pre: string, c: char, post: string) returns (t: string)
    requires !IsSpace(c)
    ensures t == TrimLeft(pre) + [c] + TrimRight(post)
    ensures Trim(pre + [c] + post) == t
  {
    TrimLeftUpTo(pre, c, post);
    TrimRightFrom(TrimLeft(pre), c, post);
    t := TrimLeft(pre) + [c] + TrimRight(post);
  }

  lemma SuffixLacks(s: string, l: string, c: char)
    requires c !in s && |l| <= |s| && l == s[|s| - |l|..]
    ensures c !in l
  {
    forall i | 0 <= i < |l| ensures l[i] != c {
      assert l[i] == s[|s| - |l| + i];
    }
  }

  /** Two lines that agree on having a colon and on their stripped text
      have the same effect. */
  lemma AddLineSameTrim(m: FieldMap, a: string, b: string)
    requires (':' in a <==> ':' in b) && Trim(a) == Trim(b)
    ensures AddLine(m, a) == AddLine(m, b)
  {
  }

  /** Whitespace around a line does not change what it does to the dict. */
  lemma AddLineSpaced(m: FieldMap, u: string, l: string, v: string)
    requires AllSpace(u) && AllSpace(v)
    ensures AddLine(m, u + l + v) == AddLine(m, l)
  {
    assert ':' in u + l + v <==> ':' in l by {
      SpacedContains(u, l, v, ':');
    }
    assert Trim(u + l + v) == Trim(l) by {
      assert u + l + v == u + (l + v);
      TrimPrefixSpace(u, l + v);
      TrimSuffixSpace(l, v);
    }
    AddLineSameTrim(m, u + l + v, l);
  }

  /** A blank line is skipped. */
  lemma BlankLineSkipped(m: FieldMap, l: string)
    requires AllSpace(l)
    ensures AddLine(m, l) == m
  {
    assert ':' !in l by {
      assert !IsSpace(':');
      forall i | 0 <= i < |l| ensures l[i] != ':' {
        assert IsSpace(l[i]);
      }
    }
    LineWithoutColon(m, l);
  }

  /** Blank lines leave the dict as it was. */
  lemma {:induction false} BlankLinesSkipped(m: FieldMap, ls: seq<string>)
    requires AllSpaceLines(ls)
    ensures FieldsFrom(m, ls) == m
    decreases |ls|
  {
    if ls != [] {
      FieldsFromCons(m, ls);
      BlankLineSkipped(m, ls[0]);
      BlankLinesSkipped(m, ls[1..]);
    }
  }

  /** A line without a colon leaves the dict as it was. */
  lemma LineWithoutColon(m: FieldMap, line: string)
    requires ':' !in line
    ensures AddLine(m, line) == m
  {
  }
}
