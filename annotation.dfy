/**
 * Which virtual machines are sampled, and how a machine's free-text
 * annotation becomes the key/value dictionary its labels are read from.
 */
module Annotation {
  import opened Wrappers
  import Text

  /** The power state a machine must be in to be sampled. */
  const PoweredOn: string := "poweredOn"

  /** The lead-in `^name:` that marks a machine as one to export. */
  const Marker: string := "name:"

  /**
   * The eligibility test: a non-empty annotation, powered on, and an
   * annotation that starts with the marker.
   */
  predicate Eligible(annotation: string, powerState: string)
  {
    annotation != [] && powerState == PoweredOn && Marker <= annotation
  }

  /**
   * The `ValueError` raised by `dict()` when element `index` of the pair
   * sequence does not have exactly two parts.
   */
  datatype ParseError = NotAPair(index: nat, length: nat)

  /** `filter(None, lines)`: the non-empty lines, in order. */
  function Filled(lines: seq<string>): (r: seq<string>)
    ensures |r| <= |lines|
    ensures forall l :: l in r <==> l in lines && l != []
  {
    if lines == [] then []
    else (if lines[0] == [] then [] else [lines[0]]) + Filled(lines[1..])
  }

  /** Filtering maps a concatenation to a concatenation. */
  lemma {:induction false} FilledConcat(a: seq<string>, b: seq<string>)
    ensures Filled(a + b) == Filled(a) + Filled(b)
  {
    if a == [] {
      assert a + b == b;
    } else {
      assert (a + b)[0] == a[0] && (a + b)[1..] == a[1..] + b;
      FilledConcat(a[1..], b);
      var h := if a[0] == [] then [] else [a[0]];
      calc {
        Filled(a + b);
        h + Filled(a[1..] + b);
        h + (Filled(a[1..]) + Filled(b));
        (h + Filled(a[1..])) + Filled(b);
      }
    }
  }

  /** `s.rsplit(':', 1) for s in lines`. */
  function Pieces(lines: seq<string>): (r: seq<seq<string>>)
    ensures |r| == |lines|
    ensures forall i :: 0 <= i < |lines| ==> r[i] == Text.RSplitOnce(lines[i], ':')
  {
    if lines == [] then [] else [Text.RSplitOnce(lines[0], ':')] + Pieces(lines[1..])
  }

  /**
   * `dict(pairs)`: insert the pairs from left to right, a later key
   * overwriting an earlier one; the first element that is not a pair
   * raises.
   */
  function DictOf(pairs: seq<seq<string>>): Result<map<string, string>, ParseError>
  {
    if pairs == [] then Success(map[])
    else
      var last := pairs[|pairs| - 1];
      match DictOf(pairs[..|pairs| - 1])
      case Failure(e) => Failure(e)
      case Success(m) =>
        if |last| != 2 then Failure(NotAPair(|pairs| - 1, |last|))
        else Success(m[last[0] := last[1]])
  }

  /** `dict()` fails exactly when some element is not a pair, and names the first one. */
  lemma {:induction false} DictOfFails(pairs: seq<seq<string>>)
    ensures DictOf(pairs).Failure? <==> exists i :: 0 <= i < |pairs| && |pairs[i]| != 2
    ensures DictOf(pairs).Failure? ==>
      var i := DictOf(pairs).error.index;
      i < |pairs| && |pairs[i]| != 2 && forall j :: 0 <= j < i ==> |pairs[j]| == 2
  {
    if pairs != [] {
      var init := pairs[..|pairs| - 1];
      DictOfFails(init);
      assert forall j :: 0 <= j < |init| ==> init[j] == pairs[j];
    }
  }

  /**
   * On success the keys are exactly the first parts of the pairs, and each
   * key holds the second part of the LAST pair with that key.
   */
  lemma {:induction false} DictOfContents(pairs: seq<seq<string>>)
    requires DictOf(pairs).Success?
    ensures forall i :: 0 <= i < |pairs| ==> |pairs[i]| == 2
    ensures forall k :: k in DictOf(pairs).value <==> exists i :: 0 <= i < |pairs| && pairs[i][0] == k
    ensures forall i :: 0 <= i < |pairs| && (forall j :: i < j < |pairs| ==> pairs[j][0] != pairs[i][0]) ==>
      DictOf(pairs).value[pairs[i][0]] == pairs[i][1]
  {
    if pairs != [] {
      var init := pairs[..|pairs| - 1];
      DictOfContents(init);
      assert forall j :: 0 <= j < |init| ==> init[j] == pairs[j];
    }
  }

  /** The annotation's lines, the empty ones dropped, each split at its last colon, into a dictionary. */
  function ParseLines(lines: seq<string>): Result<map<string, string>, ParseError>
  {
    DictOf(Pieces(Filled(lines)))
  }

  /** The annotation text parsed into its key/value dictionary. */
  function Parse(text: string): Result<map<string, string>, ParseError>
  {
    ParseLines(Text.Split(text, '\n'))
  }

  /** The key of a line: the text before its last colon. */
  function Key(line: string): string
  {
    Text.RSplitOnce(line, ':')[0]
  }

  /** Parsing fails exactly when some non-empty line has no colon. */
  lemma ParseFails(text: string)
    ensures Parse(text).Failure? <==> exists l :: l in Text.Split(text, '\n') && l != [] && ':' !in l
  {
    var filled := Filled(Text.Split(text, '\n'));
    var pairs := Pieces(filled);
    DictOfFails(pairs);
    if Parse(text).Failure? {
      var i :| 0 <= i < |pairs| && |pairs[i]| != 2;
      assert filled[i] in filled;
    } else {
      forall l | l in Text.Split(text, '\n') && l != [] ensures ':' in l {
        assert l in filled;
        var i :| 0 <= i < |filled| && filled[i] == l;
        assert |pairs[i]| == 2;
      }
    }
  }

  /**
   * A successful parse holds one key per non-empty line, the text before
   * that line's last colon, and no other key.
   */
  lemma ParseKeys(text: string)
    requires Parse(text).Success?
    ensures forall k :: k in Parse(text).value <==> exists l :: l in Text.Split(text, '\n') && l != [] && Key(l) == k
  {
    ParseKeysFromLines(text);
    ParseKeysOfLines(text);
  }

  /** Every key of the parse comes from a non-empty line. */
  lemma ParseKeysFromLines(text: string)
    requires Parse(text).Success?
    ensures forall k :: k in Parse(text).value ==> exists l :: l in Text.Split(text, '\n') && l != [] && Key(l) == k
  {
    var lines := Filled(Text.Split(text, '\n'));
    var pairs := Pieces(lines);
    DictOfContents(pairs);
    forall k | k in Parse(text).value ensures exists l :: l in Text.Split(text, '\n') && l != [] && Key(l) == k {
      var i :| 0 <= i < |pairs| && pairs[i][0] == k;
      assert lines[i] in lines;
    }
  }

  /** Every non-empty line gives a key of the parse. */
  lemma ParseKeysOfLines(text: string)
    requires Parse(text).Success?
    ensures forall l :: l in Text.Split(text, '\n') && l != [] ==> Key(l) in Parse(text).value
  {
    var lines := Filled(Text.Split(text, '\n'));
    var pairs := Pieces(lines);
    DictOfContents(pairs);
    forall l | l in Text.Split(text, '\n') && l != [] ensures Key(l) in Parse(text).value {
      assert l in lines;
      var i :| 0 <= i < |lines| && lines[i] == l;
      assert pairs[i][0] == Key(l);
    }
  }

  /**
   * Each key holds the text after the last colon of the LAST non-empty
   * line with that key: that line is the key, a colon, and the value.
   */
  lemma ParseLastLineWins(text: string, i: int)
    requires Parse(text).Success?
    requires 0 <= i < |Filled(Text.Split(text, '\n'))|
    requires var lines := Filled(Text.Split(text, '\n'));
      forall j :: i < j < |lines| ==> Key(lines[j]) != Key(lines[i])
    ensures var line := Filled(Text.Split(text, '\n'))[i];
      ':' in line && Key(line) in Parse(text).value && line == Key(line) + ":" + Parse(text).value[Key(line)]
  {
    var lines := Filled(Text.Split(text, '\n'));
    var pairs := Pieces(lines);
    DictOfContents(pairs);
    assert |pairs[i]| == 2;
    assert forall j :: i < j < |pairs| ==> pairs[j][0] != pairs[i][0] by {
      forall j | i < j < |pairs| ensures pairs[j][0] != pairs[i][0] {
        assert pairs[j][0] == Key(lines[j]);
      }
    }
  }

  /** No value of a successful parse holds a colon. */
  lemma ParseValuesHaveNoColon(text: string)
    requires Parse(text).Success?
    ensures forall k :: k in Parse(text).value ==> ':' !in Parse(text).value[k]
  {
    var lines := Filled(Text.Split(text, '\n'));
    var pairs := Pieces(lines);
    DictOfContents(pairs);
    var m := Parse(text).value;
    forall k | k in m ensures ':' !in m[k] {
      var i :| 0 <= i < |pairs| && pairs[i][0] == k;
      var last := LastWithKey(pairs, i);
      assert m[k] == pairs[last][1];
    }
  }

  /** The last index at or after `i` whose pair has the same key as pair `i`. */
  function LastWithKey(pairs: seq<seq<string>>, i: int): (r: int)
    requires 0 <= i < |pairs| && forall j :: 0 <= j < |pairs| ==> |pairs[j]| == 2
    ensures i <= r < |pairs| && pairs[r][0] == pairs[i][0]
    ensures forall j :: r < j < |pairs| ==> pairs[j][0] != pairs[i][0]
    decreases |pairs| - i
  {
    if exists j :: i < j < |pairs| && pairs[j][0] == pairs[i][0] then
      var j :| i < j < |pairs| && pairs[j][0] == pairs[i][0];
      LastWithKey(pairs, j)
    else i
  }

  /**
   * A one-line annotation `k:v` whose value has no colon parses to the
   * single key `k`, even when `k` holds colons itself: `name:web:server01`
   * gives the key `name:web` and the value `server01`.
   */
  lemma ParseOneLine(k: string, v: string)
    requires '\n' !in k && '\n' !in v && ':' !in v
    ensures Parse(k + ":" + v) == Success(map[k := v])
  {
    var line := k + ":" + v;
    assert line == k + [':'] + v;
    Text.SplitNoSep(line, '\n');
    Text.RSplitOnceAt(k, v, ':');
    var lines := [line];
    assert lines[1..] == [];
    assert Filled(lines) == lines;
    var pairs := Pieces(lines);
    assert pairs == [[k, v]] && pairs[..0] == [];
    assert DictOf(pairs) == Success(map[k := v]);
  }

  /**
   * A two-line annotation holds both pairs; when both lines have the same
   * key, the second value wins.
   */
  lemma ParseTwoLines(k1: string, v1: string, k2: string, v2: string)
    requires '\n' !in k1 && '\n' !in v1 && ':' !in v1
    requires '\n' !in k2 && '\n' !in v2 && ':' !in v2
    ensures Parse(k1 + ":" + v1 + "\n" + k2 + ":" + v2) == Success(map[k1 := v1][k2 := v2])
  {
    var first, second := k1 + ":" + v1, k2 + ":" + v2;
    assert first == k1 + [':'] + v1 && second == k2 + [':'] + v2;
    assert k1 + ":" + v1 + "\n" + k2 + ":" + v2 == first + ['\n'] + second;
    Text.SplitAtSep(first, second, '\n');
    Text.SplitNoSep(second, '\n');
    Text.RSplitOnceAt(k1, v1, ':');
    Text.RSplitOnceAt(k2, v2, ':');
    var lines := [first, second];
    assert lines[1..] == [second] && lines[1..][1..] == [];
    assert Filled(lines) == lines;
    var pairs := Pieces(lines);
    assert pairs == [[k1, v1], [k2, v2]];
    assert pairs[..1] == [[k1, v1]] && pairs[..1][..0] == [];
    assert DictOf(pairs[..1]) == Success(map[k1 := v1]);
    assert DictOf(pairs) == Success(map[k1 := v1][k2 := v2]);
  }

  /** An empty line contributes nothing, wherever it stands. */
  lemma EmptyLineIgnored(before: seq<string>, after: seq<string>)
    ensures ParseLines(before + [[]] + after) == ParseLines(before + after)
  {
    var blank: seq<string> := [[]];
    assert Filled(blank) == [] by {
      assert blank[1..] == [];
    }
    calc {
      Filled(before + [[]] + after);
      { FilledConcat(before + [[]], after); }
      Filled(before + [[]]) + Filled(after);
      { FilledConcat(before, [[]]); }
      Filled(before) + Filled([[]]) + Filled(after);
      Filled(before) + Filled(after);
      { FilledConcat(before, after); }
      Filled(before + after);
    }
  }

  /** A trailing newline leaves the parse as it is. */
  lemma TrailingNewlineIgnored(text: string)
    ensures Parse(text + "\n") == Parse(text)
  {
    Text.SplitTrailingSep(text, '\n');
    EmptyLineIgnored(Text.Split(text, '\n'), []);
    assert Text.Split(text, '\n') + [[]] + [] == Text.Split(text, '\n') + [[]];
    assert Text.Split(text, '\n') + [] == Text.Split(text, '\n');
  }
}
