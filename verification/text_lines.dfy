/** A file's text as a sequence of lines: Python's `str.splitlines()` for
    '\n'-terminated lines, and `'\n'.join(lines)`. */
module TextLines {

  /** `'\n' in line`. */
  predicate HasNewline(line: string)
  {
    '\n' in line
  }

  /** Index of the first '\n' in `s`, or `|s|` when there is none. */
  function FirstNewline(s: string): (i: nat)
    ensures i <= |s|
    ensures forall j :: 0 <= j < i ==> s[j] != '\n'
    ensures i < |s| ==> s[i] == '\n'
  {
    if |s| == 0 || s[0] == '\n' then 0 else 1 + FirstNewline(s[1..])
  }

  /** `s.splitlines()`: the pieces between '\n' characters, where a final
      '\n' ends the last line instead of opening an empty one, so the empty
      text has no lines at all. */
  function SplitLines(s: string): (lines: seq<string>)
    ensures |lines| == 0 <==> |s| == 0
    ensures forall k :: 0 <= k < |lines| ==> !HasNewline(lines[k])
    decreases |s|
  {
    if |s| == 0 then []
    else
      var i := FirstNewline(s);
      if i == |s| then [s] else [s[..i]] + SplitLines(s[i + 1..])
  }

  /** `'\n'.join(lines)`: the first line, then, when there are more, a '\n'
      and the join of the rest. */
  function JoinLines(lines: seq<string>): string
  {
    if |lines| == 0 then ""
    else if |lines| == 1 then lines[0]
    else lines[0] + "\n" + JoinLines(lines[1..])
  }

  /** Joining a first line before at least one more line puts a '\n'
      between it and the join of the rest. */
  lemma JoinLinesCons(first: string, rest: seq<string>)
    requires |rest| > 0
    ensures JoinLines([first] + rest) == first + "\n" + JoinLines(rest)
  {
    assert ([first] + rest)[1..] == rest;
  }

  /** The first '\n' of `a + "\n" + b` is the one after `a` when `a` has none. */
  lemma FirstNewlineAfter(a: string, b: string)
    requires !HasNewline(a)
    ensures FirstNewline(a + "\n" + b) == |a|
  {
    var s := a + "\n" + b;
    assert s[|a|] == '\n';
  }

  /** Splitting `a + "\n" + b` gives `a`, then the lines of `b`. */
  lemma SplitLinesAfter(a: string, b: string)
    requires !HasNewline(a)
    ensures SplitLines(a + "\n" + b) == [a] + SplitLines(b)
  {
    var s := a + "\n" + b;
    FirstNewlineAfter(a, b);
    assert s[..|a|] == a;
    assert s[|a| + 1..] == b;
  }

  /** Joining the lines of a text gives the text back, unless it ends with a
      '\n' that `splitlines` drops. */
  lemma {:induction false} JoinSplit(s: string)
    requires |s| == 0 || s[|s| - 1] != '\n'
    ensures JoinLines(SplitLines(s)) == s
    decreases |s|
  {
    if |s| > 0 {
      var i := FirstNewline(s);
      if i < |s| {
        var first, rest := s[..i], s[i + 1..];
        assert s == first + "\n" + rest;
        assert |rest| > 0 && rest[|rest| - 1] == s[|s| - 1];
        SplitLinesAfter(first, rest);
        JoinSplit(rest);
        JoinLinesCons(first, SplitLines(rest));
      }
    }
  }

  /** A text that ends in '\n' loses exactly that last '\n' when its lines
      are split and joined again. */
  lemma {:induction false} JoinSplitTrailing(s: string)
    requires |s| > 0 && s[|s| - 1] == '\n'
    ensures JoinLines(SplitLines(s)) == s[..|s| - 1]
    decreases |s|
  {
    var i := FirstNewline(s);
    var first, rest := s[..i], s[i + 1..];
    assert s == first + "\n" + rest;
    SplitLinesAfter(first, rest);
    if |rest| == 0 {
      assert SplitLines(s) == [first];
    } else {
      assert rest[|rest| - 1] == s[|s| - 1];
      JoinSplitTrailing(rest);
      JoinLinesCons(first, SplitLines(rest));
      assert s[..|s| - 1] == first + "\n" + rest[..|rest| - 1];
    }
  }

  /** The text without its last character when that character is a '\n'. */
  function DropFinalNewline(s: string): string
  {
    if |s| > 0 && s[|s| - 1] == '\n' then s[..|s| - 1] else s
  }

  /** Splitting a text into lines and joining them again gives the text with
      at most one final '\n' removed. */
  lemma JoinSplitAny(s: string)
    ensures JoinLines(SplitLines(s)) == DropFinalNewline(s)
  {
    if |s| > 0 && s[|s| - 1] == '\n' {
      JoinSplitTrailing(s);
    } else {
      JoinSplit(s);
    }
  }

  /** A line without '\n' has its first '\n' at its end. */
  lemma FirstNewlineAbsent(s: string)
    requires !HasNewline(s)
    ensures FirstNewline(s) == |s|
  {
  }

  /** Splitting joined lines gives them back, provided no line holds a '\n'
      and the last line is not empty (an empty last line would join into a
      trailing '\n', which `splitlines` drops). */
  lemma {:induction false} SplitJoin(lines: seq<string>)
    requires forall k :: 0 <= k < |lines| ==> !HasNewline(lines[k])
    requires |lines| == 0 || |lines[|lines| - 1]| > 0
    ensures SplitLines(JoinLines(lines)) == lines
  {
    if |lines| == 1 {
      FirstNewlineAbsent(lines[0]);
      assert SplitLines(lines[0]) == [lines[0]];
    } else if |lines| > 1 {
      var tail := lines[1..];
      var rest := JoinLines(tail);
      assert forall k :: 0 <= k < |tail| ==> !HasNewline(tail[k]) by {
        forall k | 0 <= k < |tail| ensures !HasNewline(tail[k]) {
          assert tail[k] == lines[k + 1];
        }
      }
      assert tail[|tail| - 1] == lines[|lines| - 1];
      SplitJoin(tail);
      SplitLinesAfter(lines[0], rest);
      assert JoinLines(lines) == lines[0] + "\n" + rest;
      assert lines == [lines[0]] + tail;
    }
  }
}
