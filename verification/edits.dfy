/** The text edits of a rename reply and their application, in the order
    given, to the lines of one file. */
module Edits {
  import opened Ranges
  import opened Results

  /** A server text edit: replace `range` with `newText`. */
  datatype TextEdit = TextEdit(range: LspRange, newText: string)

  /** One entry of a reply's `documentChanges`: either edits to one document
      or a resource operation (create, rename or delete a file), which has no
      `textDocument` entry. */
  datatype DocumentChange =
    | TextDocumentEdit(uri: string, edits: seq<TextEdit>)
    | ResourceOperation(kind: string)

  /** `s[0:n]` in Python, for a non-negative `n`. */
  function Prefix(s: string, n: nat): (p: string)
    ensures |p| == if n <= |s| then n else |s|
    ensures p == s[..|p|]
  {
    if n <= |s| then s[..n] else s
  }

  /** `s[n:]` in Python, for a non-negative `n`. */
  function Suffix(s: string, n: nat): (p: string)
    ensures |p| == if n <= |s| then |s| - n else 0
    ensures p == s[|s| - |p|..]
  {
    if n <= |s| then s[n..] else []
  }

  /** An offset into `line`, clamped to its end the way a Python slice does. */
  function Clamp(n: nat, line: string): nat
  {
    if n <= |line| then n else |line|
  }

  /** `line[0:start] + text + line[end:]`: the text before the clamped start
      is kept, `text` follows, then the text from the clamped end on. With
      both offsets inside the line and in order, the length moves by the
      difference between `text` and the replaced span; a start past the end
      offset repeats the characters between them. */
  function Splice(line: string, start: nat, end: nat, text: string): (r: string)
    ensures |r| == Clamp(start, line) + |text| + (|line| - Clamp(end, line))
    ensures start <= end <= |line| ==> |r| == |line| - (end - start) + |text|
    ensures r[..Clamp(start, line)] == line[..Clamp(start, line)]
    ensures r[Clamp(start, line)..Clamp(start, line) + |text|] == text
    ensures r[Clamp(start, line) + |text|..] == line[Clamp(end, line)..]
  {
    var r := Prefix(line, start) + text + Suffix(line, end);
    assert r[..|Prefix(line, start)|] == Prefix(line, start);
    assert r[|Prefix(line, start)|..|Prefix(line, start)| + |text|] == text;
    r
  }

  /** Two splices of one line, the later span first: the result is both
      spans replaced in the original line's offsets. */
  lemma SpliceDescending(s: string, a1: nat, a2: nat, ta: string, b1: nat, b2: nat, tb: string)
    requires a1 <= a2 <= b1 <= b2 <= |s|
    ensures Splice(Splice(s, b1, b2, tb), a1, a2, ta) == s[..a1] + ta + s[a2..b1] + tb + s[b2..]
  {
    var t := Splice(s, b1, b2, tb);
    assert t == s[..b1] + tb + s[b2..];
    assert t[..a1] == s[..a1];
    assert t[a2..] == s[a2..b1] + tb + s[b2..];
    var u := Splice(t, a1, a2, ta);
    assert u == t[..a1] + ta + t[a2..];
  }

  /** The line an edit writes to. */
  function TargetLine(e: TextEdit): nat
  {
    e.range.start.line
  }

  predicate SingleLine(e: TextEdit)
  {
    e.range.start.line == e.range.end.line
  }

  /** An edit goes through on a file of `lineCount` lines when it stays on one
      line and that line exists. */
  predicate Applicable(e: TextEdit, lineCount: nat)
  {
    SingleLine(e) && TargetLine(e) < lineCount
  }

  /** The exception an edit that is not applicable raises: the single-line
      assertion is checked before the line is indexed. */
  function EditError(e: TextEdit): Error
  {
    if !SingleLine(e) then MultiLineEdit else LineOutOfRange(TargetLine(e))
  }

  /** The edited line. */
  function SpliceEdit(line: string, e: TextEdit): string
  {
    Splice(line, e.range.start.character, e.range.end.character, e.newText)
  }

  /** Applies one edit: only the target line changes, to its splice. */
  function ApplyEdit(lines: seq<string>, e: TextEdit): (r: Result<seq<string>>)
    ensures r.Success? <==> Applicable(e, |lines|)
    ensures r.Failure? ==> r.error == EditError(e)
    ensures r.Success? ==> |r.value| == |lines|
    ensures r.Success? ==> r.value[TargetLine(e)] == SpliceEdit(lines[TargetLine(e)], e)
    ensures r.Success? ==> forall j :: 0 <= j < |lines| && j != TargetLine(e) ==> r.value[j] == lines[j]
  {
    if !SingleLine(e) then Failure(MultiLineEdit)
    else if TargetLine(e) >= |lines| then Failure(LineOutOfRange(TargetLine(e)))
    else Success(lines[TargetLine(e) := SpliceEdit(lines[TargetLine(e)], e)])
  }

  /** Line `j` is written by none of `edits`. */
  predicate Untouched(edits: seq<TextEdit>, j: nat)
  {
    forall i :: 0 <= i < |edits| ==> TargetLine(edits[i]) != j
  }

  predicate AllApplicable(edits: seq<TextEdit>, lineCount: nat)
  {
    forall i :: 0 <= i < |edits| ==> Applicable(edits[i], lineCount)
  }

  /** `k` is the first edit that does not go through. */
  predicate FirstBad(edits: seq<TextEdit>, lineCount: nat, k: int)
  {
    && 0 <= k < |edits|
    && !Applicable(edits[k], lineCount)
    && AllApplicable(edits[..k], lineCount)
  }

  /** An edit that goes through, followed by edits whose first bad one is
      `k`: the first bad one of the whole run is `k + 1`. */
  lemma FirstBadAfterGood(edits: seq<TextEdit>, lineCount: nat, k: int)
    requires |edits| > 0 && Applicable(edits[0], lineCount)
    requires FirstBad(edits[1..], lineCount, k)
    ensures FirstBad(edits, lineCount, k + 1)
  {
    assert edits[..k + 1] == [edits[0]] + edits[1..][..k];
  }

  /** Applies the edits one after another, in the order given, each to the
      lines the previous ones produced; the first edit that does not go
      through ends the fold with its exception. */
  function ApplyEdits(lines: seq<string>, edits: seq<TextEdit>): (r: Result<seq<string>>)
    ensures r.Success? <==> AllApplicable(edits, |lines|)
    ensures r.Success? ==> |r.value| == |lines|
    ensures r.Success? ==> forall j :: 0 <= j < |lines| && Untouched(edits, j) ==> r.value[j] == lines[j]
    ensures r.Failure? ==> exists k :: FirstBad(edits, |lines|, k) && r.error == EditError(edits[k])
    decreases |edits|
  {
    if |edits| == 0 then Success(lines)
    else
      match ApplyEdit(lines, edits[0])
      case Failure(err) =>
        assert FirstBad(edits, |lines|, 0);
        Failure(err)
      case Success(next) =>
        var r := ApplyEdits(next, edits[1..]);
        if r.Failure? then
          var k :| FirstBad(edits[1..], |lines|, k) && r.error == EditError(edits[1..][k]);
          FirstBadAfterGood(edits, |lines|, k);
          r
        else
          assert forall i :: 1 <= i < |edits| ==> edits[i] == edits[1..][i - 1];
          r
  }

  /** A change goes through when it is a document edit whose edits all do. */
  predicate ChangeApplicable(c: DocumentChange, lineCount: nat)
  {
    c.TextDocumentEdit? && AllApplicable(c.edits, lineCount)
  }

  /** `err` is the exception a change that does not go through raises: the
      failed `textDocument` assertion for a resource operation, otherwise the
      exception of its first edit that does not go through. */
  predicate ChangeError(c: DocumentChange, lineCount: nat, err: Error)
  {
    || (c.ResourceOperation? && err == NotTextDocumentEdit)
    || (c.TextDocumentEdit? && exists k :: 0 <= k < |c.edits| && FirstBad(c.edits, lineCount, k) && err == EditError(c.edits[k]))
  }

  /** `k` is the first change that does not go through. */
  predicate FirstBadChange(changes: seq<DocumentChange>, lineCount: nat, k: int)
  {
    && 0 <= k < |changes|
    && !ChangeApplicable(changes[k], lineCount)
    && forall i :: 0 <= i < k ==> ChangeApplicable(changes[i], lineCount)
  }

  /** A change that goes through, followed by changes whose first bad one is
      `k`: the first bad one of the whole run is `k + 1`. */
  lemma FirstBadChangeAfterGood(changes: seq<DocumentChange>, lineCount: nat, k: int)
    requires |changes| > 0 && ChangeApplicable(changes[0], lineCount)
    requires FirstBadChange(changes[1..], lineCount, k)
    ensures FirstBadChange(changes, lineCount, k + 1)
  {
    assert forall i :: 1 <= i <= k ==> changes[i] == changes[1..][i - 1];
  }

  /** Line `j` is written by no edit of any of `changes`. */
  predicate UntouchedByChanges(changes: seq<DocumentChange>, j: nat)
  {
    forall k :: 0 <= k < |changes| && changes[k].TextDocumentEdit? ==> Untouched(changes[k].edits, j)
  }

  /** Applies one change. Its `uri` is not consulted: the edits go to the
      lines at hand whichever document the change names. */
  function ApplyChange(lines: seq<string>, c: DocumentChange): (r: Result<seq<string>>)
    ensures r.Success? <==> ChangeApplicable(c, |lines|)
    ensures c.ResourceOperation? ==> r == Failure(NotTextDocumentEdit)
    ensures r.Failure? ==> ChangeError(c, |lines|, r.error)
    ensures r.Success? ==> |r.value| == |lines|
  {
    match c
    case ResourceOperation(_) => Failure(NotTextDocumentEdit)
    case TextDocumentEdit(_, edits) => ApplyEdits(lines, edits)
  }

  /** Applies every change, in order, to the same evolving lines. */
  function ApplyChanges(lines: seq<string>, changes: seq<DocumentChange>): (r: Result<seq<string>>)
    ensures r.Success? <==> forall k :: 0 <= k < |changes| ==> ChangeApplicable(changes[k], |lines|)
    ensures r.Success? ==> |r.value| == |lines|
    ensures r.Success? ==> forall j :: 0 <= j < |lines| && UntouchedByChanges(changes, j) ==> r.value[j] == lines[j]
    ensures r.Failure? ==> exists k :: FirstBadChange(changes, |lines|, k) && ChangeError(changes[k], |lines|, r.error)
    decreases |changes|
  {
    if |changes| == 0 then Success(lines)
    else
      match ApplyChange(lines, changes[0])
      case Failure(err) =>
        assert FirstBadChange(changes, |lines|, 0);
        Failure(err)
      case Success(next) =>
        var r := ApplyChanges(next, changes[1..]);
        if r.Failure? then
          var k :| FirstBadChange(changes[1..], |lines|, k) && ChangeError(changes[1..][k], |lines|, r.error);
          FirstBadChangeAfterGood(changes, |lines|, k);
          r
        else
          assert forall j :: 0 <= j < |lines| && UntouchedByChanges(changes, j) ==> r.value[j] == lines[j] by {
            forall j | 0 <= j < |lines| && UntouchedByChanges(changes, j)
              ensures r.value[j] == lines[j]
            {
              assert UntouchedByChanges(changes[1..], j) by {
                forall k | 0 <= k < |changes[1..]| && changes[1..][k].TextDocumentEdit?
                  ensures Untouched(changes[1..][k].edits, j)
                {
                  assert changes[1..][k] == changes[k + 1];
                }
              }
              assert Untouched(changes[0].edits, j);
            }
          }
          r
  }

  /** Every edit of every change, in order. */
  function AllEdits(changes: seq<DocumentChange>): seq<TextEdit>
  {
    if |changes| == 0 then []
    else (if changes[0].TextDocumentEdit? then changes[0].edits else []) + AllEdits(changes[1..])
  }

  /** Folding two runs of edits one after the other is folding their
      concatenation. */
  lemma {:induction false} ApplyEditsAppend(lines: seq<string>, a: seq<TextEdit>, b: seq<TextEdit>)
    ensures ApplyEdits(lines, a + b) ==
            match ApplyEdits(lines, a)
            case Failure(err) => Failure(err)
            case Success(mid) => ApplyEdits(mid, b)
    decreases |a|
  {
    if |a| == 0 {
      assert a + b == b;
    } else {
      assert (a + b)[0] == a[0];
      assert (a + b)[1..] == a[1..] + b;
      match ApplyEdit(lines, a[0])
      case Failure(_) =>
      case Success(next) =>
        ApplyEditsAppend(next, a[1..], b);
    }
  }

  /** When every change is a document edit, applying the changes is the
      left fold of all their edits, in order, over the same lines. */
  lemma {:induction false} ApplyChangesIsFoldOfAllEdits(lines: seq<string>, changes: seq<DocumentChange>)
    requires forall k :: 0 <= k < |changes| ==> changes[k].TextDocumentEdit?
    ensures ApplyChanges(lines, changes) == ApplyEdits(lines, AllEdits(changes))
    decreases |changes|
  {
    if |changes| > 0 {
      ApplyEditsAppend(lines, changes[0].edits, AllEdits(changes[1..]));
      match ApplyEdits(lines, changes[0].edits)
      case Failure(_) =>
      case Success(next) =>
        ApplyChangesIsFoldOfAllEdits(next, changes[1..]);
    }
  }

  /** Two edits on different lines can be applied in either order with the
      same outcome: both orders go through or neither does, and when they go
      through they give the same lines. */
  lemma DistinctLineEditsCommute(lines: seq<string>, e1: TextEdit, e2: TextEdit)
    requires TargetLine(e1) != TargetLine(e2)
    ensures ApplyEdits(lines, [e1, e2]).Success? <==> ApplyEdits(lines, [e2, e1]).Success?
    ensures ApplyEdits(lines, [e1, e2]).Success? ==> ApplyEdits(lines, [e1, e2]) == ApplyEdits(lines, [e2, e1])
  {
    assert [e1, e2][1..] == [e2];
    assert [e2, e1][1..] == [e1];
    if Applicable(e1, |lines|) && Applicable(e2, |lines|) {
      var l1, l2 := TargetLine(e1), TargetLine(e2);
      var a := lines[l1 := SpliceEdit(lines[l1], e1)][l2 := SpliceEdit(lines[l2], e2)];
      var b := lines[l2 := SpliceEdit(lines[l2], e2)][l1 := SpliceEdit(lines[l1], e1)];
      assert a == b;
      var m1 := lines[l1 := SpliceEdit(lines[l1], e1)];
      var m2 := lines[l2 := SpliceEdit(lines[l2], e2)];
      assert m1[l2] == lines[l2] && m2[l1] == lines[l1];
      assert ApplyEdit(lines, e1) == Success(m1);
      assert ApplyEdit(m1, e2) == Success(a);
      assert [e2][1..] == [];
      assert ApplyEdits(lines, [e1, e2]) == ApplyEdits(m1, [e2]);
      assert ApplyEdits(m1, [e2]) == ApplyEdits(a, []);
      assert ApplyEdit(lines, e2) == Success(m2);
      assert ApplyEdit(m2, e1) == Success(b);
      assert [e1][1..] == [];
      assert ApplyEdits(lines, [e2, e1]) == ApplyEdits(m2, [e1]);
      assert ApplyEdits(m2, [e1]) == ApplyEdits(b, []);
    }
  }

  /** The edits write pairwise different lines. */
  predicate DistinctTargets(edits: seq<TextEdit>)
  {
    forall i, j :: 0 <= i < j < |edits| ==> TargetLine(edits[i]) != TargetLine(edits[j])
  }

  /** When the edits write pairwise different lines, the fold is a pointwise
      rewrite: each edit's line becomes that edit's splice of the original
      line, whatever the order of the edits. */
  lemma {:induction false} DistinctLinesPointwise(lines: seq<string>, edits: seq<TextEdit>)
    requires AllApplicable(edits, |lines|)
    requires DistinctTargets(edits)
    ensures ApplyEdits(lines, edits).Success?
    ensures forall i :: 0 <= i < |edits| ==>
      ApplyEdits(lines, edits).value[TargetLine(edits[i])] == SpliceEdit(lines[TargetLine(edits[i])], edits[i])
    decreases |edits|
  {
    if |edits| > 0 {
      var next := ApplyEdit(lines, edits[0]).value;
      var rest := edits[1..];
      assert AllApplicable(rest, |next|);
      assert DistinctTargets(rest);
      DistinctLinesPointwise(next, rest);
      var r := ApplyEdits(lines, edits).value;
      assert r == ApplyEdits(next, rest).value;
      forall i | 0 <= i < |edits|
        ensures r[TargetLine(edits[i])] == SpliceEdit(lines[TargetLine(edits[i])], edits[i])
      {
        if i == 0 {
          assert Untouched(rest, TargetLine(edits[0]));
        } else {
          assert rest[i - 1] == edits[i];
        }
      }
    }
  }

  /** Two edits on one line, the first ending where or before the second
      starts, both given in the line's original offsets. Applied in
      descending order, the result is the original-offset rewrite: each span
      replaced and the text around them kept. */
  lemma SameLineDescending(lines: seq<string>, a: TextEdit, b: TextEdit)
    requires Applicable(a, |lines|) && Applicable(b, |lines|)
    requires TargetLine(a) == TargetLine(b)
    requires a.range.start.character <= a.range.end.character <= b.range.start.character
    requires b.range.start.character <= b.range.end.character <= |lines[TargetLine(a)]|
    ensures ApplyEdits(lines, [b, a]).Success?
    ensures
      var s := lines[TargetLine(a)];
      ApplyEdits(lines, [b, a]).value[TargetLine(a)] ==
        s[..a.range.start.character] + a.newText
        + s[a.range.end.character..b.range.start.character] + b.newText
        + s[b.range.end.character..]
  {
    var l := TargetLine(a);
    var s := lines[l];
    assert [b, a][1..] == [a];
    var mid := lines[l := SpliceEdit(s, b)];
    assert ApplyEdit(lines, b) == Success(mid);
    assert ApplyEdits(lines, [b, a]) == ApplyEdits(mid, [a]);
    SpliceDescending(s, a.range.start.character, a.range.end.character, a.newText,
                     b.range.start.character, b.range.end.character, b.newText);
  }

  /** The order given matters on one line: with `x = x` and both `x`
      renamed to `bb` by edits in ascending order, the second edit's
      original offsets land after the first has shifted the line, and the
      result is `bb =bbx` rather than `bb = bb`. */
  lemma SameLineAscendingShifts()
    ensures
      var a := TextEdit(LspRange(Position(0, 0), Position(0, 1)), "bb");
      var b := TextEdit(LspRange(Position(0, 4), Position(0, 5)), "bb");
      && ApplyEdits(["x = x"], [a, b]) == Success(["bb =bbx"])
      && ApplyEdits(["x = x"], [b, a]) == Success(["bb = bb"])
  {
    var a := TextEdit(LspRange(Position(0, 0), Position(0, 1)), "bb");
    var b := TextEdit(LspRange(Position(0, 4), Position(0, 5)), "bb");
    assert [a, b][1..] == [b];
    assert [b, a][1..] == [a];
    assert SpliceEdit("x = x", a) == "bb = x";
    assert SpliceEdit("bb = x", b) == "bb =bbx";
    assert SpliceEdit("x = x", b) == "x = bb";
    assert SpliceEdit("x = bb", a) == "bb = bb";
    assert ["x = x"][0 := "bb = x"] == ["bb = x"];
    assert ["x = x"][0 := "x = bb"] == ["x = bb"];
    assert ["bb = x"][0 := "bb =bbx"] == ["bb =bbx"];
    assert ["x = bb"][0 := "bb = bb"] == ["bb = bb"];
    assert ApplyEdit(["x = x"], a) == Success(["bb = x"]);
    assert ApplyEdits(["x = x"], [a, b]) == ApplyEdits(["bb = x"], [b]);
    assert ApplyEdit(["x = x"], b) == Success(["x = bb"]);
    assert ApplyEdits(["x = x"], [b, a]) == ApplyEdits(["x = bb"], [a]);
  }

  /** The loops of the rename as written: for each change, check it is a
      document edit; for each of its edits, check it stays on one line and
      rewrite that line in place. */
  method ApplyChangesInPlace(lines: seq<string>, changes: seq<DocumentChange>) returns (r: Result<seq<string>>)
    ensures r == ApplyChanges(lines, changes)
  {
    var current := lines;
    var c := 0;
    while c < |changes|
      invariant 0 <= c <= |changes|
      invariant |current| == |lines|
      invariant ApplyChanges(lines, changes) == ApplyChanges(current, changes[c..])
    {
      assert changes[c..][1..] == changes[c + 1..];
      if changes[c].ResourceOperation? {
        return Failure(NotTextDocumentEdit);
      }
      var edits := changes[c].edits;
      var before := current;
      var i := 0;
      while i < |edits|
        invariant 0 <= i <= |edits|
        invariant |current| == |lines|
        invariant ApplyEdits(before, edits) == ApplyEdits(current, edits[i..])
      {
        assert edits[i..][1..] == edits[i + 1..];
        var e := edits[i];
        if e.range.start.line != e.range.end.line {
          return Failure(MultiLineEdit);
        }
        var line := e.range.start.line;
        if line >= |current| {
          return Failure(LineOutOfRange(line));
        }
        current := current[line := SpliceEdit(current[line], e)];
        i := i + 1;
      }
      assert edits[i..] == [];
      c := c + 1;
    }
    assert changes[c..] == [];
    r := Success(current);
  }
}
