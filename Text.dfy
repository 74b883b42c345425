/** String primitives that the two scripts take from Python's `str` and
    `re`: `strip`, `splitlines`, literal search, and the text made of
    newline-terminated lines that the store file consists of. `strip`
    removes every character Python counts as whitespace; lines are split
    at the line feed only. */
module Text {
  import opened Wrappers

  /** `str.isspace`: tab, line feed, vertical tab, form feed, carriage
      return, the four separators U+001C..U+001F, space, U+0085, no-break
      space, and the Unicode space and line/paragraph separators. */
  predicate IsSpace(c: char) {
    c == ' ' || '\t' <= c <= '\r' || '\U{1C}' <= c <= '\U{1F}'
    || c == '\U{85}' || c == '\U{A0}' || c == '\U{1680}'
    || '\U{2000}' <= c <= '\U{200A}' || c == '\U{2028}' || c == '\U{2029}'
    || c == '\U{202F}' || c == '\U{205F}' || c == '\U{3000}'
  }

  predicate AllSpace(s: string) {
    forall i :: 0 <= i < |s| ==> IsSpace(s[i])
  }

  /** Removes leading whitespace: what is dropped is all whitespace and what
      is kept is a suffix that starts with a non-space character. */
  function TrimLeft(s: string): (r: string)
    ensures |r| <= |s| && r == s[|s| - |r|..]
    ensures AllSpace(s[..|s| - |r|])
    ensures r == [] || !IsSpace(r[0])
  {
    if s != [] && IsSpace(s[0]) then
      var r := TrimLeft(s[1..]);
      TrimLeftStep(s, r);
      r
    else s
  }

  /** Removes trailing whitespace: what is dropped is all whitespace and
      what is kept is a prefix that ends with a non-space character. */
  function TrimRight(s: string): (r: string)
    ensures |r| <= |s| && r == s[..|r|]
    ensures AllSpace(s[|r|..])
    ensures r == [] || !IsSpace(r[|r| - 1])
  {
    if s != [] && IsSpace(s[|s| - 1]) then
      var r := TrimRight(s[..|s| - 1]);
      TrimRightStep(s, r);
      r
    else s
  }

  /** Dropping one more leading space. */
  lemma TrimLeftStep(s: string, r: string)
    requires s != [] && IsSpace(s[0])
    requires |r| <= |s| - 1 && r == s[1..][|s| - 1 - |r|..] && AllSpace(s[1..][..|s| - 1 - |r|])
    ensures r == s[|s| - |r|..] && AllSpace(s[..|s| - |r|])
  {
    var k := |s| - |r|;
    assert s[1..][k - 1..] == s[k..];
    forall i | 0 <= i < k ensures IsSpace(s[..k][i]) {
      if i > 0 {
        assert s[..k][i] == s[1..][..k - 1][i - 1];
      }
    }
  }

  /** Dropping one more trailing space. */
  lemma TrimRightStep(s: string, r: string)
    requires s != [] && IsSpace(s[|s| - 1])
    requires |r| <= |s| - 1 && r == s[..|s| - 1][..|r|] && AllSpace(s[..|s| - 1][|r|..])
    ensures r == s[..|r|] && AllSpace(s[|r|..])
  {
    var k := |r|;
    assert s[..|s| - 1][..k] == s[..k];
    forall i | 0 <= i < |s| - k ensures IsSpace(s[k..][i]) {
      if k + i < |s| - 1 {
        assert s[k..][i] == s[..|s| - 1][k..][i];
      }
    }
  }

  /** Python's `str.strip()`. */
  function Trim(s: string): (r: string)
    ensures |r| <= |s|
    ensures r == [] || (!IsSpace(r[0]) && !IsSpace(r[|r| - 1]))
  {
    TrimRight(TrimLeft(s))
  }

  /** A character that is not whitespace survives `strip`. */
  lemma TrimKeeps(s: string, c: char)
    requires c in s && !IsSpace(c)
    ensures c in Trim(s)
  {
    TrimLeftKeeps(s, c);
    TrimRightKeeps(TrimLeft(s), c);
  }

  lemma {:induction false} TrimLeftKeeps(s: string, c: char)
    requires c in s && !IsSpace(c)
    ensures c in TrimLeft(s)
  {
    if IsSpace(s[0]) {
      assert c in s[1..] by {
        var i :| 0 <= i < |s| && s[i] == c;
        assert i > 0 && s[1..][i - 1] == c;
      }
      TrimLeftKeeps(s[1..], c);
    }
  }

  lemma {:induction false} TrimRightKeeps(s: string, c: char)
    requires c in s && !IsSpace(c)
    ensures c in TrimRight(s)
  {
    if IsSpace(s[|s| - 1]) {
      assert c in s[..|s| - 1] by {
        var i :| 0 <= i < |s| && s[i] == c;
        assert i < |s| - 1 && s[..|s| - 1][i] == c;
      }
      TrimRightKeeps(s[..|s| - 1], c);
    }
  }

  /** Prepending a whitespace character does not change `strip`. */
  lemma TrimConsSpace(c: char, s: string)
    requires IsSpace(c)
    ensures Trim([c] + s) == Trim(s)
  {
    assert ([c] + s)[1..] == s;
  }

  /** Neither end is white space: what `strip` leaves alone. */
  predicate Trimmed(s: string) {
    s == [] || (!IsSpace(s[0]) && !IsSpace(s[|s| - 1]))
  }

  lemma TrimmedIff(s: string)
    ensures Trimmed(s) <==> Trim(s) == s
  {
  }

  /** `strip` gives the empty string exactly for blank text. */
  lemma TrimEmpty(s: string)
    ensures Trim(s) == [] <==> AllSpace(s)
  {
    var l := TrimLeft(s);
    var k := |s| - |l|;
    if AllSpace(s) {
      TrimLeftAllSpace(s);
    }
    if Trim(s) == [] {
      assert AllSpace(l[0..]);
      assert l == [];
      assert s[..k] == s;
    }
  }

  /** Appending a whitespace character does not change `strip`. */
  lemma TrimSnocSpace(s: string, c: char)
    requires IsSpace(c)
    ensures Trim(s + [c]) == Trim(s)
  {
    TrimLeftSnoc(s, c);
    if AllSpace(s) {
      TrimLeftAllSpace(s);
      assert TrimLeft([c]) == [];
    } else {
      var l := TrimLeft(s);
      assert (l + [c])[..|l + [c]| - 1] == l;
    }
  }

  lemma TrimLeftAllSpace(s: string)
    requires AllSpace(s)
    ensures TrimLeft(s) == []
  {
  }

  lemma AllSpaceCons(s: string)
    requires s != []
    ensures AllSpace(s) <==> IsSpace(s[0]) && AllSpace(s[1..])
  {
    if IsSpace(s[0]) && AllSpace(s[1..]) {
      forall i | 0 <= i < |s| ensures IsSpace(s[i]) {
        if i > 0 { assert s[i] == s[1..][i - 1]; }
      }
    }
  }

  lemma {:induction false} TrimLeftSnoc(s: string, c: char)
    ensures TrimLeft(s + [c]) == if AllSpace(s) then TrimLeft([c]) else TrimLeft(s) + [c]
  {
    if s == [] {
      assert s + [c] == [c];
    } else {
      assert (s + [c])[1..] == s[1..] + [c];
      if IsSpace(s[0]) {
        TrimLeftSnoc(s[1..], c);
        AllSpaceCons(s);
      } else {
        assert !AllSpace(s);
      }
    }
  }

  lemma TrimLeftIdempotent(s: string)
    ensures TrimLeft(TrimLeft(s)) == TrimLeft(s)
  {
  }

  lemma TrimRightIdempotent(s: string)
    ensures TrimRight(TrimRight(s)) == TrimRight(s)
  {
  }

  lemma {:induction false} TrimRightCons(c: char, s: string)
    ensures TrimRight([c] + s) == if AllSpace(s) then TrimRight([c]) else [c] + TrimRight(s)
  {
    if s == [] {
      assert [c] + s == [c];
    } else {
      var cs := [c] + s;
      assert cs[..|cs| - 1] == [c] + s[..|s| - 1];
      if IsSpace(s[|s| - 1]) {
        TrimRightCons(c, s[..|s| - 1]);
        assert AllSpace(s) <==> AllSpace(s[..|s| - 1]) by {
          if AllSpace(s[..|s| - 1]) {
            forall i | 0 <= i < |s| ensures IsSpace(s[i]) {
              if i < |s| - 1 { assert s[i] == s[..|s| - 1][i]; }
            }
          }
        }
      } else {
        assert !AllSpace(s);
      }
    }
  }

  /** Stripping either end first gives the same result. */
  lemma TrimOfTrimLeft(s: string)
    ensures Trim(TrimLeft(s)) == Trim(s)
  {
    TrimLeftIdempotent(s);
  }

  lemma TrimOfTrimRight(s: string)
    ensures Trim(TrimRight(s)) == Trim(s)
  {
    TrimLeftRightCommute(s);
    TrimRightIdempotent(TrimLeft(s));
  }

  lemma {:induction false} TrimLeftRightCommute(s: string)
    ensures TrimLeft(TrimRight(s)) == TrimRight(TrimLeft(s))
  {
    if s != [] {
      var c, y := s[0], s[1..];
      assert s == [c] + y;
      TrimRightCons(c, y);
      if IsSpace(c) {
        TrimLeftRightCommute(y);
        if AllSpace(y) {
          TrimLeftAllSpace(y);
          assert TrimRight(y) == [] by { TrimRightAllSpace(y); }
        } else {
          assert ([c] + TrimRight(y))[1..] == TrimRight(y);
        }
      }
    }
  }

  lemma {:induction false} TrimRightAllSpace(s: string)
    requires AllSpace(s)
    ensures TrimRight(s) == []
  {
    if s != [] {
      var p := s[..|s| - 1];
      assert AllSpace(p) by {
        forall i | 0 <= i < |p| ensures IsSpace(p[i]) {
          assert p[i] == s[i];
        }
      }
      TrimRightAllSpace(p);
    }
  }

  /** Leading whitespace stops at the first non-space character. */
  lemma {:induction false} TrimLeftUpTo(x: string, c: char, y: string)
    requires !IsSpace(c)
    ensures TrimLeft(x + [c] + y) == TrimLeft(x) + [c] + y
  {
    if x == [] {
      assert x + [c] + y == [c] + y;
    } else {
      assert (x + [c] + y)[1..] == x[1..] + [c] + y;
      if IsSpace(x[0]) { TrimLeftUpTo(x[1..], c, y); }
    }
  }

  /** Trailing whitespace stops at the last non-space character. */
  lemma {:induction false} TrimRightFrom(x: string, c: char, y: string)
    requires !IsSpace(c)
    ensures TrimRight(x + [c] + y) == x + [c] + TrimRight(y)
  {
    if y == [] {
      assert x + [c] + y == x + [c];
      assert (x + [c])[..|x + [c]| - 1] == x;
    } else {
      var s := x + [c] + y;
      assert s[..|s| - 1] == x + [c] + y[..|y| - 1];
      if IsSpace(y[|y| - 1]) { TrimRightFrom(x, c, y[..|y| - 1]); }
    }
  }

  /** `pat` occurs in `s` at position `k`. */
  predicate StartsWith(s: string, k: int, pat: string) {
    0 <= k && k + |pat| <= |s| && s[k..k + |pat|] == pat
  }

  lemma StartsWithShift(s: string, j: nat, k: int, pat: string)
    requires j <= |s|
    ensures StartsWith(s[j..], k, pat) <==> (k >= 0 && StartsWith(s, j + k, pat))
  {
    if k >= 0 && j + k + |pat| <= |s| {
      assert s[j..][k..k + |pat|] == s[j + k..j + k + |pat|];
    }
  }

  /** The leftmost occurrence of the literal `pat` in `s` (what a regular
      expression search for a fixed string, or a non-greedy `.*?` followed
      by that string, stops at). */
  function Find(s: string, pat: string): (r: Option<nat>)
    ensures r.Some? ==> StartsWith(s, r.value, pat)
    ensures r.Some? ==> forall k :: 0 <= k < r.value ==> !StartsWith(s, k, pat)
    ensures r.None? ==> forall k :: !StartsWith(s, k, pat)
  {
    FindFrom(s, pat, 0)
  }

  /** The leftmost occurrence of `pat` at or after position `i`. */
  function FindFrom(s: string, pat: string, i: nat): (r: Option<nat>)
    ensures r.Some? ==> i <= r.value && StartsWith(s, r.value, pat)
    ensures r.Some? ==> forall k :: i <= k < r.value ==> !StartsWith(s, k, pat)
    ensures r.None? ==> forall k :: i <= k ==> !StartsWith(s, k, pat)
    decreases |s| - i
  {
    if i + |pat| > |s| then None
    else if StartsWith(s, i, pat) then Some(i)
    else FindFrom(s, pat, i + 1)
  }

  /** An occurrence with none before it is the one `Find` returns. */
  lemma FindIs(s: string, pat: string, j: nat)
    requires StartsWith(s, j, pat)
    requires forall k :: 0 <= k < j ==> !StartsWith(s, k, pat)
    ensures Find(s, pat) == Some(j)
  {
  }

  lemma StartsWithFront(p: string, f: string)
    ensures StartsWith(p + f, 0, p)
  {
    assert (p + f)[..|p|] == p;
  }

  lemma AfterPrefix(x: string, p: string, f: string)
    ensures (x + (p + f))[|x| + |p|..] == f
  {
  }

  /** A text placed after `x` starts at `|x|`, and what follows it is the rest. */
  lemma StartsWithAt(x: string, p: string, f: string)
    ensures StartsWith(x + (p + f), |x|, p)
    ensures (x + (p + f))[|x| + |p|..] == f
  {
    assert (x + (p + f))[|x|..|x| + |p|] == p;
  }

  /** Below lines none of which ends with `p`, the first line `p` is the
      one that follows them. */
  lemma FindAfterLines(ls: seq<string>, p: string, f: string)
    requires AllNoNewline(ls) && NoNewline(p)
    requires forall i :: 0 <= i < |ls| ==> !EndsWith(ls[i], p)
    ensures Find(JoinLines(ls) + ((p + "\n") + f), p + "\n") == Some(|JoinLines(ls)|)
  {
    var x := JoinLines(ls);
    NoLineEndingWith(ls, (p + "\n") + f, p);
    StartsWithAt(x, p + "\n", f);
    FindIs(x + ((p + "\n") + f), p + "\n", |x|);
  }

  predicate EndsWith(s: string, pat: string) {
    StartsWith(s, |s| - |pat|, pat)
  }

  // ---------------------------------------------------------------------
  // Lines

  predicate NoNewline(s: string) {
    '\n' !in s
  }

  /** The characters other than the line feed at which Python's
      `splitlines` also breaks a line: carriage return, vertical tab, form
      feed, U+001C..U+001E, U+0085, and the line and paragraph separators. */
  predicate IsOtherBreak(c: char) {
    c == '\r' || c == '\U{0B}' || c == '\U{0C}' || '\U{1C}' <= c <= '\U{1E}'
    || c == '\U{85}' || c == '\U{2028}' || c == '\U{2029}'
  }

  /** No line boundary Python's `splitlines` knows: one line under the
      line-feed-only splitting of this model and under Python's as well. */
  predicate NoLineBreak(s: string) {
    NoNewline(s) && forall i :: 0 <= i < |s| ==> !IsOtherBreak(s[i])
  }

  predicate AllNoNewline(ls: seq<string>) {
    forall i :: 0 <= i < |ls| ==> NoNewline(ls[i])
  }

  lemma AllNoNewlineAppend(a: seq<string>, b: seq<string>)
    requires AllNoNewline(a) && AllNoNewline(b)
    ensures AllNoNewline(a + b)
  {
    forall i | 0 <= i < |a + b| ensures NoNewline((a + b)[i]) {
      if i >= |a| {
        assert (a + b)[i] == b[i - |a|];
      }
    }
  }

  /** Lines each followed by a line feed: the shape of text written with
      one `write(... + "\n")` per line. */
  function JoinLines(ls: seq<string>): string
  {
    if ls == [] then "" else ls[0] + "\n" + JoinLines(ls[1..])
  }

  lemma {:induction false} JoinLinesAppend(a: seq<string>, b: seq<string>)
    ensures JoinLines(a + b) == JoinLines(a) + JoinLines(b)
  {
    if a == [] {
      assert a + b == b;
    } else {
      assert (a + b)[1..] == a[1..] + b;
      JoinLinesAppend(a[1..], b);
    }
  }

  lemma JoinLinesSnoc(a: seq<string>, l: string)
    ensures JoinLines(a + [l]) == JoinLines(a) + l + "\n"
  {
    JoinLinesAppend(a, [l]);
    assert JoinLines([l]) == l + "\n" + JoinLines([]);
  }

  lemma JoinLinesNonEmpty(ls: seq<string>)
    requires ls != []
    ensures |JoinLines(ls)| > 0 && JoinLines(ls)[|JoinLines(ls)| - 1] == '\n'
  {
    JoinLinesSnoc(ls[..|ls| - 1], ls[|ls| - 1]);
    assert ls[..|ls| - 1] + [ls[|ls| - 1]] == ls;
  }

  /** Python's `str.join` with a line feed between. */
  function JoinNl(ls: seq<string>): string
  {
    if ls == [] then "" else if |ls| == 1 then ls[0] else ls[0] + "\n" + JoinNl(ls[1..])
  }

  /** Joined lines end with the last line. */
  lemma {:induction false} JoinNlLast(ls: seq<string>)
    requires ls != []
    ensures var t := JoinNl(ls); var l := ls[|ls| - 1];
      |l| <= |t| && t[|t| - |l|..] == l
  {
    if |ls| > 1 {
      JoinNlLast(ls[1..]);
      var t := JoinNl(ls[1..]);
      assert JoinNl(ls) == (ls[0] + "\n") + t;
    }
  }

  lemma {:induction false} JoinNlIsJoinLinesMinusLast(ls: seq<string>)
    requires ls != []
    ensures |JoinLines(ls)| >= 1
    ensures JoinNl(ls) == JoinLines(ls)[..|JoinLines(ls)| - 1]
  {
    if |ls| == 1 {
      assert JoinLines(ls) == ls[0] + "\n" + JoinLines([]);
    } else {
      JoinNlIsJoinLinesMinusLast(ls[1..]);
      var j := JoinLines(ls[1..]);
      assert JoinLines(ls) == ls[0] + "\n" + j;
      assert (ls[0] + "\n" + j)[..|ls[0] + "\n" + j| - 1] == ls[0] + "\n" + j[..|j| - 1];
    }
  }

  /** Position of the first `c` in `s`, or `|s|` when there is none (that
      nothing before it is `c` is `IndexOfFirst`). */
  function IndexOf(s: string, c: char): (i: nat)
    ensures i <= |s| && (i < |s| ==> s[i] == c)
  {
    IndexFrom(s, c, 0)
  }

  /** Position of the first `c` at or after `i`, or `|s|`. */
  function IndexFrom(s: string, c: char, i: nat): (r: nat)
    requires i <= |s|
    ensures i <= r <= |s| && (r < |s| ==> s[r] == c)
    decreases |s| - i
  {
    if i == |s| || s[i] == c then i else IndexFrom(s, c, i + 1)
  }

  lemma {:induction false} IndexFromFirst(s: string, c: char, i: nat)
    requires i <= |s|
    ensures forall k :: i <= k < IndexFrom(s, c, i) ==> s[k] != c
    decreases |s| - i
  {
    if i < |s| && s[i] != c {
      IndexFromFirst(s, c, i + 1);
    }
  }

  /** No `c` comes before the position found. */
  lemma IndexOfFirst(s: string, c: char)
    ensures forall k :: 0 <= k < IndexOf(s, c) ==> s[k] != c
  {
    IndexFromFirst(s, c, 0);
  }

  /** `c in s` exactly when the position found is inside `s`. */
  lemma IndexOfFound(s: string, c: char)
    ensures (c in s) <==> IndexOf(s, c) < |s|
  {
    IndexOfFirst(s, c);
  }

  lemma {:induction false} IndexFromIs(s: string, c: char, i: nat, j: nat)
    requires i <= j <= |s| && (forall k :: i <= k < j ==> s[k] != c) && (j < |s| ==> s[j] == c)
    ensures IndexFrom(s, c, i) == j
    decreases j - i
  {
    if i < j {
      IndexFromIs(s, c, i + 1, j);
    }
  }

  /** A position with no `c` before it and `c` (or the end) at it is the
      position of the first `c`. */
  lemma IndexOfIs(s: string, c: char, j: nat)
    requires j <= |s| && (forall k :: 0 <= k < j ==> s[k] != c) && (j < |s| ==> s[j] == c)
    ensures IndexOf(s, c) == j
  {
    IndexFromIs(s, c, 0, j);
  }

  /** Length of the first line: the position of the first line feed, or
      the whole string. */
  function LineEnd(s: string): (j: nat)
    ensures j <= |s| && (j < |s| ==> s[j] == '\n')
  {
    IndexOf(s, '\n')
  }

  lemma LineEndFirst(s: string)
    ensures forall k :: 0 <= k < LineEnd(s) ==> s[k] != '\n'
  {
    IndexOfFirst(s, '\n');
  }

  lemma LineEndIs(s: string, j: nat)
    requires j <= |s| && (forall k :: 0 <= k < j ==> s[k] != '\n') && (j < |s| ==> s[j] == '\n')
    ensures LineEnd(s) == j
  {
    IndexOfIs(s, '\n', j);
  }

  /** A text that starts with a line of `l` has no line feed before `|l|`. */
  lemma LineAtStart(s: string, l: string)
    requires NoNewline(l) && |l| <= |s| && s[..|l|] == l
    ensures forall k :: 0 <= k < |l| ==> s[k] != '\n'
  {
    forall k | 0 <= k < |l| ensures s[k] != '\n' {
      assert s[k] == l[k];
    }
  }

  lemma NoNewlineBefore(s: string, j: nat)
    requires j <= |s| && forall k :: 0 <= k < j ==> s[k] != '\n'
    ensures NoNewline(s[..j])
  {
    forall k | 0 <= k < j ensures s[..j][k] != '\n' {
      assert s[..j][k] == s[k];
    }
  }

  /** Python's `str.splitlines()` with the line feed as the only line
      boundary: a final line feed does not start an empty last line, and
      the empty string has no lines. */
  function SplitLines(s: string): (ls: seq<string>)
    ensures AllNoNewline(ls)
    decreases |s|
  {
    if s == [] then []
    else
      var j := LineEnd(s);
      LineEndFirst(s);
      NoNewlineBefore(s, j);
      [s[..j]] + (if j == |s| then [] else SplitLines(s[j + 1..]))
  }

  /** A line and a line feed, then more text: the line is the first of
      the lines. */
  lemma SplitCons(l: string, t: string)
    requires NoNewline(l)
    ensures SplitLines(l + "\n" + t) == [l] + SplitLines(t)
  {
    var s := l + "\n" + t;
    assert LineEnd(s) == |l| by {
      assert s[..|l|] == l;
      LineAtStart(s, l);
      LineEndIs(s, |l|);
    }
    assert s[..|l|] == l && s[|l| + 1..] == t;
  }

  /** A single non-empty line without a line feed is one line. */
  lemma SplitSingle(l: string)
    requires NoNewline(l) && l != ""
    ensures SplitLines(l) == [l]
  {
    assert LineEnd(l) == |l| by {
      assert l[..|l|] == l;
      LineAtStart(l, l);
      LineEndIs(l, |l|);
    }
    assert l[..|l|] == l;
  }

  /** The first line of `t` ends with a line feed at `j`. */
  lemma SplitParts(t: string, j: nat, a: string, b: string)
    requires t != [] && LineEnd(t) == j && j < |t| && t[..j] == a && t[j + 1..] == b
    ensures SplitLines(t) == [a] + SplitLines(b)
  {
  }

  /** `t` is a single line. */
  lemma SplitWhole(t: string)
    requires t != [] && LineEnd(t) == |t|
    ensures SplitLines(t) == [t]
  {
    assert t[..|t|] == t;
  }

  /** When `w` contains a line feed, the first line of `w + s` is the
      first line of `w`. */
  lemma SplitHeadIn(w: string, s: string)
    requires LineEnd(w) < |w|
    ensures SplitLines(w + s) == [w[..LineEnd(w)]] + SplitLines(w[LineEnd(w) + 1..] + s)
  {
    var j := LineEnd(w);
    var t := w + s;
    assert LineEnd(t) == j by {
      LineEndFirst(w);
      forall k | 0 <= k < j ensures t[k] != '\n' {
        assert t[k] == w[k];
      }
      assert t[j] == w[j];
      LineEndIs(t, j);
    }
    assert t[..j] == w[..j] && t[j + 1..] == w[j + 1..] + s;
    SplitParts(t, j, w[..j], w[j + 1..] + s);
  }

  /** When `w` has no line feed, it is glued to the front of the first line
      of `s`. */
  lemma SplitHeadAcross(w: string, s: string)
    requires NoNewline(w) && s != []
    ensures SplitLines(s) != []
    ensures SplitLines(w + s) == [w + SplitLines(s)[0]] + SplitLines(s)[1..]
  {
    var k := LineEnd(s);
    var t := w + s;
    assert LineEnd(t) == |w| + k by {
      LineEndAcross(w, s);
    }
    if k < |s| {
      assert t[..|w| + k] == w + s[..k] && t[|w| + k + 1..] == s[k + 1..];
      SplitParts(t, |w| + k, w + s[..k], s[k + 1..]);
      SplitParts(s, k, s[..k], s[k + 1..]);
    } else {
      SplitWhole(t);
      SplitWhole(s);
    }
  }

  lemma LineEndAcross(w: string, s: string)
    requires NoNewline(w)
    ensures LineEnd(w + s) == |w| + LineEnd(s)
  {
    var k := LineEnd(s);
    var t := w + s;
    LineEndFirst(s);
    forall i | 0 <= i < |w| + k ensures t[i] != '\n' {
      if i < |w| {
        assert t[i] == w[i] && w[i] in w;
      } else {
        assert t[i] == s[i - |w|];
      }
    }
    if |w| + k < |t| {
      assert t[|w| + k] == s[k];
    }
    LineEndIs(t, |w| + k);
  }

  /** Every line of blank text is blank. */
  lemma {:induction false} BlankLines(w: string)
    requires AllSpace(w)
    ensures AllSpaceLines(SplitLines(w))
    decreases |w|
  {
    if w != [] {
      var j := LineEnd(w);
      AllSpaceSlice(w, 0, j);
      if j < |w| {
        var r := w[j + 1..];
        AllSpaceSlice(w, j + 1, |w|);
        BlankLines(r);
        SplitParts(w, j, w[..j], r);
        AllSpaceLinesCons(w[..j], SplitLines(r));
      } else {
        assert w[..j] == w;
        SplitWhole(w);
      }
    }
  }

  predicate AllSpaceLines(ls: seq<string>) {
    forall i :: 0 <= i < |ls| ==> AllSpace(ls[i])
  }

  lemma AllSpaceSlice(w: string, a: nat, b: nat)
    requires AllSpace(w) && a <= b <= |w|
    ensures AllSpace(w[a..b])
  {
    forall i | 0 <= i < b - a ensures IsSpace(w[a..b][i]) {
      assert w[a..b][i] == w[a + i];
    }
  }

  lemma AllSpaceLinesCons(l: string, ls: seq<string>)
    requires AllSpace(l) && AllSpaceLines(ls)
    ensures AllSpaceLines([l] + ls)
  {
    forall i | 0 <= i < |[l] + ls| ensures AllSpace(([l] + ls)[i]) {
      if i > 0 {
        assert ([l] + ls)[i] == ls[i - 1];
      }
    }
  }

  /** A text is its stripped form with whitespace around it. */
  lemma TrimParts(s: string) returns (u: string, v: string)
    ensures AllSpace(u) && AllSpace(v) && s == u + (Trim(s) + v)
  {
    var a := TrimLeft(s);
    var t := TrimRight(a);
    u := s[..|s| - |a|];
    v := a[|t|..];
    SliceJoin(s, |s| - |a|);
    SliceJoin(a, |t|);
  }

  lemma SliceJoin(s: string, k: nat)
    requires k <= |s|
    ensures s == s[..k] + s[k..]
  {
  }

  /** `strip` ignores whitespace added at the front. */
  lemma {:induction false} TrimPrefixSpace(u: string, l: string)
    requires AllSpace(u)
    ensures Trim(u + l) == Trim(l)
    decreases |u|
  {
    if u != [] {
      AllSpaceCons(u);
      assert u + l == [u[0]] + (u[1..] + l);
      TrimConsSpace(u[0], u[1..] + l);
      TrimPrefixSpace(u[1..], l);
    } else {
      assert u + l == l;
    }
  }

  /** `strip` ignores whitespace added at the back. */
  lemma {:induction false} TrimSuffixSpace(l: string, u: string)
    requires AllSpace(u)
    ensures Trim(l + u) == Trim(l)
    decreases |u|
  {
    if u != [] {
      var v := u[..|u| - 1];
      assert AllSpace(v) by {
        forall i | 0 <= i < |v| ensures IsSpace(v[i]) {
          assert v[i] == u[i];
        }
      }
      assert l + u == (l + v) + [u[|u| - 1]];
      TrimSnocSpace(l + v, u[|u| - 1]);
      TrimSuffixSpace(l, v);
    } else {
      assert l + u == l;
    }
  }

  /** Whitespace holds no non-space character. */
  lemma SpacedContains(u: string, l: string, v: string, c: char)
    requires AllSpace(u) && AllSpace(v) && !IsSpace(c)
    ensures c in u + l + v <==> c in l
  {
    var t := u + l + v;
    if c in t {
      var i :| 0 <= i < |t| && t[i] == c;
      if |u| <= i < |u| + |l| {
        assert l[i - |u|] == c;
      }
    }
    if c in l {
      var i :| 0 <= i < |l| && l[i] == c;
      assert t[|u| + i] == c;
    }
  }

  /** Splitting newline-terminated lines gives the lines back. */
  lemma {:induction false} SplitJoin(ls: seq<string>)
    requires AllNoNewline(ls)
    ensures SplitLines(JoinLines(ls)) == ls
  {
    if ls != [] {
      assert JoinLines(ls) == ls[0] + "\n" + JoinLines(ls[1..]);
      SplitCons(ls[0], JoinLines(ls[1..]));
      SplitJoin(ls[1..]);
    }
  }

  /** Splitting lines joined with a line feed between gives them back,
      provided the last one is not empty. */
  lemma {:induction false} SplitJoinNl(ls: seq<string>)
    requires AllNoNewline(ls) && ls != [] && ls[|ls| - 1] != ""
    ensures SplitLines(JoinNl(ls)) == ls
  {
    if |ls| == 1 {
      assert JoinNl(ls) == ls[0];
      SplitSingle(ls[0]);
    } else {
      var t := JoinNl(ls[1..]);
      assert JoinNl(ls) == ls[0] + "\n" + t;
      SplitJoinNl(ls[1..]);
      SplitCons(ls[0], t);
    }
  }

  /** In text made of lines, an occurrence of `p` + line feed, where `p`
      has no line feed, ends at the end of one of the lines, so it cannot
      occur when no line ends with `p`. */
  lemma {:induction false} NoLineEndingWith(ls: seq<string>, t: string, p: string)
    requires AllNoNewline(ls) && NoNewline(p)
    requires forall i :: 0 <= i < |ls| ==> !EndsWith(ls[i], p)
    ensures forall k :: 0 <= k < |JoinLines(ls)| ==> !StartsWith(JoinLines(ls) + t, k, p + "\n")
  {
    if ls != [] {
      var l := ls[0];
      var rest := JoinLines(ls[1..]);
      var s := JoinLines(ls) + t;
      var q := p + "\n";
      assert JoinLines(ls) == l + "\n" + rest;
      assert s == l + "\n" + (rest + t);
      assert NoNewline(l) && !EndsWith(l, p);
      NoLineEndingWith(ls[1..], t, p);
      forall k | 0 <= k < |JoinLines(ls)| ensures !StartsWith(s, k, q) {
        if k + |q| <= |s| {
          var w := s[k..k + |q|];
          if k + |p| < |l| {
            assert w[|p|] == l[k + |p|] && l[k + |p|] in l;
            assert q[|p|] == '\n';
          } else if k + |p| > |l| && k <= |l| {
            assert w[|l| - k] == '\n';
            assert q[|l| - k] == p[|l| - k] && p[|l| - k] in p;
          } else if k + |p| == |l| {
            assert w[..|p|] == l[k..k + |p|];
            assert q[..|p|] == p;
          } else {
            var k' := k - |l| - 1;
            assert s[|l| + 1..] == rest + t;
            StartsWithShift(s, |l| + 1, k', q);
          }
        }
      }
    }
  }

  /** Every line feed, except possibly the last character, is followed by
      something other than `c`. */
  predicate NewlineNotFollowedBy(s: string, c: char) {
    forall k :: 0 <= k < |s| - 1 ==> s[k] == '\n' ==> s[k + 1] != c
  }

  /** The character that follows the line feed before line `l`: its first
      character, or the line feed that ends it when it is empty. */
  function LeadChar(l: string): char {
    if l == [] then '\n' else l[0]
  }

  lemma {:induction false} LinesNotFollowedBy(ls: seq<string>, c: char)
    requires AllNoNewline(ls)
    requires forall i :: 1 <= i < |ls| ==> LeadChar(ls[i]) != c
    ensures NewlineNotFollowedBy(JoinLines(ls), c)
  {
    if ls != [] {
      var l := ls[0];
      var rest := JoinLines(ls[1..]);
      var s := JoinLines(ls);
      assert s == l + "\n" + rest;
      assert NoNewline(l);
      LinesNotFollowedBy(ls[1..], c);
      forall k | 0 <= k < |s| - 1 ensures s[k] == '\n' ==> s[k + 1] != c {
        if k < |l| {
          assert s[k] == l[k] && l[k] in l;
        } else if k == |l| {
          assert ls[1..] != [];
          assert rest == ls[1] + "\n" + JoinLines(ls[2..]);
          assert s[k + 1] == rest[0] == LeadChar(ls[1]);
        } else {
          assert s[k] == rest[k - |l| - 1];
          assert s[k + 1] == rest[k - |l|];
        }
      }
    }
  }

  /** A pattern starting with a line feed and then `c` cannot occur before
      the last character of text whose line feeds are never followed by `c`. */
  lemma NotFollowedNoMatch(s: string, t: string, c: char, pat: string, k: int)
    requires NewlineNotFollowedBy(s, c)
    requires |pat| >= 2 && pat[0] == '\n' && pat[1] == c
    requires 0 <= k < |s| - 1
    ensures !StartsWith(s + t, k, pat)
  {
    if k + |pat| <= |s + t| {
      var w := (s + t)[k..k + |pat|];
      assert w[0] == s[k] && w[1] == s[k + 1];
    }
  }
}
