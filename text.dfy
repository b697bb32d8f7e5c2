/**
 * The Python string operations the exporter relies on, written out on
 * `seq<char>`: `str.replace` with a one-character pattern, `str.replace`
 * with a pattern and an empty replacement, `str.split(sep)` and
 * `str.rsplit(sep, 1)`.
 */
module Text {

  /** `s.replace(a, b)` for one-character `a` and `b`. */
  function ReplaceChar(s: string, a: char, b: char): (r: string)
    ensures |r| == |s|
    ensures forall i :: 0 <= i < |s| ==> r[i] == (if s[i] == a then b else s[i])
  {
    if s == [] then [] else [if s[0] == a then b else s[0]] + ReplaceChar(s[1..], a, b)
  }

  /** Replacing distributes over concatenation. */
  lemma ReplaceCharConcat(x: string, y: string, a: char, b: char)
    ensures ReplaceChar(x + y, a, b) == ReplaceChar(x, a, b) + ReplaceChar(y, a, b)
  {
    var l, r := ReplaceChar(x + y, a, b), ReplaceChar(x, a, b) + ReplaceChar(y, a, b);
    assert |l| == |r|;
    forall i | 0 <= i < |l| ensures l[i] == r[i] {
      if i < |x| { assert (x + y)[i] == x[i]; } else { assert (x + y)[i] == y[i - |x|]; }
    }
  }

  /** A string without `a` is left as it is. */
  lemma ReplaceCharAbsent(s: string, a: char, b: char)
    requires a !in s
    ensures ReplaceChar(s, a, b) == s
  {
    var r := ReplaceChar(s, a, b);
    forall i | 0 <= i < |s| ensures r[i] == s[i] { assert s[i] != a; }
  }

  /** `pat` occurs in `s` starting at index `i`. */
  predicate OccursAt(s: string, pat: string, i: int)
  {
    0 <= i && i + |pat| <= |s| && s[i..i + |pat|] == pat
  }

  /** `pat` occurs somewhere in `s`. */
  predicate Contains(s: string, pat: string)
  {
    exists i | 0 <= i <= |s| :: OccursAt(s, pat, i)
  }

  /**
   * `s.replace(pat, '')`: scan from the left and drop every
   * non-overlapping occurrence of `pat`, in one pass.
   */
  function RemoveAll(s: string, pat: string): (r: string)
    requires pat != []
    ensures |r| <= |s|
    decreases |s|
  {
    if |s| < |pat| then s
    else if s[..|pat|] == pat then RemoveAll(s[|pat|..], pat)
    else [s[0]] + RemoveAll(s[1..], pat)
  }

  /** A text without the pattern is left as it is. */
  lemma {:induction false} RemoveAllAbsent(s: string, pat: string)
    requires pat != []
    ensures !Contains(s, pat) ==> RemoveAll(s, pat) == s
    decreases |s|
  {
    if !Contains(s, pat) && |s| >= |pat| {
      assert !OccursAt(s, pat, 0);
      OccursInTail(s, pat);
      RemoveAllAbsent(s[1..], pat);
      assert [s[0]] + s[1..] == s;
    }
  }

  /**
   * The step that defines the left-to-right scan: when the first
   * occurrence of `pat` starts right after `x`, the text before it is
   * kept, the occurrence is dropped, and the scan goes on after it.
   * With the no-occurrence case, `RemoveAllAbsent`, this fixes the
   * result for every text.
   */
  lemma {:induction false} RemoveAllFirst(x: string, pat: string, y: string)
    requires pat != [] && !Contains(x + pat[..|pat| - 1], pat)
    ensures RemoveAll(x + pat + y, pat) == x + RemoveAll(y, pat)
    decreases |x|
  {
    if x == [] {
      assert x + pat + y == pat + y;
      RemoveAllDrop(pat, y);
    } else {
      RemoveAllKeepsFirst(x, pat, y);
      NoCopyInTail(x, pat);
      var rest := RemoveAll(y, pat);
      RemoveAllFirst(x[1..], pat, y);
      calc {
        RemoveAll(x + pat + y, pat);
        [x[0]] + RemoveAll(x[1..] + pat + y, pat);
        [x[0]] + (x[1..] + rest);
        ([x[0]] + x[1..]) + rest;
        { assert [x[0]] + x[1..] == x; }
        x + rest;
      }
    }
  }

  /** Before the first copy, the scan keeps the first character of `x`. */
  lemma RemoveAllKeepsFirst(x: string, pat: string, y: string)
    requires pat != [] && x != [] && !Contains(x + pat[..|pat| - 1], pat)
    ensures RemoveAll(x + pat + y, pat) == [x[0]] + RemoveAll(x[1..] + pat + y, pat)
  {
    var s := x + pat + y;
    NoEarlierCopy(x, pat, y);
    RemoveAllSkip(s, pat);
    assert s[0] == x[0] && s[1..] == x[1..] + pat + y;
  }

  /** Dropping the first character of `x` keeps `x + pat[..|pat| - 1]` free of `pat`. */
  lemma NoCopyInTail(x: string, pat: string)
    requires pat != [] && x != [] && !Contains(x + pat[..|pat| - 1], pat)
    ensures !Contains(x[1..] + pat[..|pat| - 1], pat)
  {
    var head := x + pat[..|pat| - 1];
    assert head[1..] == x[1..] + pat[..|pat| - 1];
    OccursInTail(head, pat);
  }

  /** A copy of `pat` at the start is dropped. */
  lemma RemoveAllDrop(pat: string, y: string)
    requires pat != []
    ensures RemoveAll(pat + y, pat) == RemoveAll(y, pat)
  {
    assert (pat + y)[..|pat|] == pat && (pat + y)[|pat|..] == y;
  }

  /** A text that does not start with `pat` keeps its first character. */
  lemma RemoveAllSkip(s: string, pat: string)
    requires pat != [] && |s| >= |pat| && s[..|pat|] != pat
    ensures RemoveAll(s, pat) == [s[0]] + RemoveAll(s[1..], pat)
  {
  }

  /** Without a copy of `pat` inside `x + pat[..|pat| - 1]`, a non-empty `x + pat + y` does not start with one. */
  lemma NoEarlierCopy(x: string, pat: string, y: string)
    requires pat != [] && x != [] && !Contains(x + pat[..|pat| - 1], pat)
    ensures (x + pat + y)[..|pat|] != pat
  {
    var head := x + pat[..|pat| - 1];
    assert (x + pat + y)[..|pat|] == head[0..|pat|];
    assert !OccursAt(head, pat, 0);
  }

  /** An occurrence in the tail of `s` is an occurrence in `s`. */
  lemma OccursInTail(s: string, pat: string)
    requires s != []
    ensures Contains(s[1..], pat) ==> Contains(s, pat)
  {
    if Contains(s[1..], pat) {
      var i :| 0 <= i <= |s[1..]| && OccursAt(s[1..], pat, i);
      assert s[i + 1..i + 1 + |pat|] == s[1..][i..i + |pat|];
      assert OccursAt(s, pat, i + 1);
    }
  }

  /**
   * Removing a pattern whose last character occurs nowhere else in it
   * strips exactly one trailing copy from a text that held no other copy.
   */
  lemma {:induction false} RemoveAllTrailing(x: string, pat: string)
    requires pat != [] && pat[|pat| - 1] !in pat[..|pat| - 1]
    requires !Contains(x, pat)
    ensures RemoveAll(x + pat, pat) == x
  {
    var s := x + pat;
    if x == [] {
      assert s == pat && s[..|pat|] == pat && s[|pat|..] == [];
    } else {
      if s[..|pat|] == pat {
        if |x| >= |pat| {
          assert x[0..|pat|] == s[..|pat|];
          assert OccursAt(x, pat, 0);
          assert false;
        } else {
          assert false;
        }
      }
      assert s[1..] == x[1..] + pat;
      OccursInTail(x, pat);
      RemoveAllTrailing(x[1..], pat);
    }
  }

  /** `s.split(sep)`: the pieces between separators, always at least one. */
  function Split(s: string, sep: char): (r: seq<string>)
    ensures |r| >= 1
    ensures forall i :: 0 <= i < |r| ==> sep !in r[i]
  {
    if s == [] then [[]]
    else
      var rest := Split(s[1..], sep);
      if s[0] == sep then [[]] + rest else [[s[0]] + rest[0]] + rest[1..]
  }

  /** `sep.join(parts)`, the inverse of `Split`. */
  function Join(parts: seq<string>, sep: char): string
  {
    if parts == [] then []
    else if |parts| == 1 then parts[0]
    else parts[0] + [sep] + Join(parts[1..], sep)
  }

  /** Joining the pieces of a split gives back the original text. */
  lemma {:induction false} SplitJoin(s: string, sep: char)
    ensures Join(Split(s, sep), sep) == s
  {
    if s != [] {
      var rest := Split(s[1..], sep);
      SplitJoin(s[1..], sep);
      if s[0] != sep && |rest| > 1 {
        assert Join(Split(s, sep), sep) == [s[0]] + rest[0] + [sep] + Join(rest[1..], sep);
      }
    }
  }

  /** A trailing separator adds exactly one empty piece. */
  lemma {:induction false} SplitTrailingSep(s: string, sep: char)
    ensures Split(s + [sep], sep) == Split(s, sep) + [[]]
  {
    if s == [] {
      assert [sep][1..] == [];
    } else {
      assert (s + [sep])[1..] == s[1..] + [sep];
      SplitTrailingSep(s[1..], sep);
    }
  }

  /** A text without the separator is a single piece. */
  lemma {:induction false} SplitNoSep(s: string, sep: char)
    requires sep !in s
    ensures Split(s, sep) == [s]
  {
    if s != [] {
      assert sep !in s[1..] by { assert forall c :: c in s[1..] ==> c in s; }
      SplitNoSep(s[1..], sep);
      assert [s[0]] + s[1..] == s;
    }
  }

  /** The text before the first separator is the first piece; the rest splits on its own. */
  lemma {:induction false} SplitAtSep(a: string, b: string, sep: char)
    requires sep !in a
    ensures Split(a + [sep] + b, sep) == [a] + Split(b, sep)
  {
    if a == [] {
      assert a + [sep] + b == [sep] + b;
      assert ([sep] + b)[1..] == b;
    } else {
      assert (a + [sep] + b)[0] == a[0] && (a + [sep] + b)[1..] == a[1..] + [sep] + b;
      assert sep !in a[1..] by { assert forall c :: c in a[1..] ==> c in a; }
      SplitAtSep(a[1..], b, sep);
      assert [a[0]] + a[1..] == a;
    }
  }

  /** A text is split at its last separator: the value after it holds no separator. */
  lemma RSplitOnceAt(k: string, v: string, sep: char)
    requires sep !in v
    ensures RSplitOnce(k + [sep] + v, sep) == [k, v]
  {
    var s := k + [sep] + v;
    assert s[|k|] == sep;
    var r := RSplitOnce(s, sep);
    assert |r[1]| == |v|;
    assert r[1] == s[|s| - |v|..] == v;
    assert r[0] == s[..|k|] == k;
  }

  /** The index of the last `c` in `s`, or -1 when there is none. */
  function LastIndex(s: string, c: char): (k: int)
    ensures -1 <= k < |s|
    ensures k == -1 <==> c !in s
    ensures 0 <= k ==> s[k] == c && c !in s[k + 1..]
  {
    if s == [] then -1
    else if s[|s| - 1] == c then |s| - 1
    else
      var k := LastIndex(s[..|s| - 1], c);
      assert s[..|s| - 1] + [s[|s| - 1]] == s;
      if 0 <= k then assert s[k + 1..] == s[..|s| - 1][k + 1..] + [s[|s| - 1]]; k
      else k
  }

  /**
   * `s.rsplit(sep, 1)`: `[s]` when `sep` does not occur, otherwise the
   * text before and the text after the LAST `sep`.
   */
  function RSplitOnce(s: string, sep: char): (r: seq<string>)
    ensures sep !in s ==> r == [s]
    ensures sep in s ==> |r| == 2 && r[0] + [sep] + r[1] == s && sep !in r[1]
  {
    var k := LastIndex(s, sep);
    if k < 0 then [s]
    else
      assert s[..k] + [sep] + s[k + 1..] == s;
      [s[..k], s[k + 1..]]
  }
}
