/** The two requests on a one-file workspace whose `a.py` reads
    `x = 1\ny = x`, with the identifiers `x`, `y`, `x` in query order. */
module Scenarios {
  import opened Ranges
  import opened Results
  import opened Store
  import opened TextLines
  import opened Edits
  import opened Analyzer

  function Span(line: nat, from: nat, to: nat): LspRange
  {
    LspRange(Position(line, from), Position(line, to))
  }

  function Ident(line: nat, from: nat, to: nat, text: string): Node
  {
    Node(ToTreeRange(Span(line, from, to)), text)
  }

  function SampleTree(): Tree
  {
    Tree("x = 1\ny = x", [Ident(0, 0, 1, "x"), Ident(1, 0, 1, "y"), Ident(1, 4, 5, "x")])
  }

  function SampleWorkspace(): Workspace
  {
    Workspace("/repo", map[Join("/repo", "a.py") := SampleTree()])
  }

  /** Asked from the second `x`, a server that points at line 0, columns
      0 to 1 leads to the first `x` node. */
  lemma DefinitionOfSecondX()
    ensures RequestDefinitionByLine(SampleWorkspace(), "a.py", 1, 4,
              Some([Location("file:///repo/a.py", Span(0, 0, 1))]))
         == Success(Some(Ident(0, 0, 1, "x")))
  {
    var ids := SampleTree().identifiers;
    assert PosEq(Span(0, 0, 1), ids[0].range);
    assert FirstMatch(ids, Span(0, 0, 1)) == Some(0);
  }

  /** A server range that no identifier has exactly, such as the whole of
      `y = x`, raises rather than picking an identifier inside it. */
  lemma DefinitionOfInexactRange()
    ensures RequestDefinitionByLine(SampleWorkspace(), "a.py", 1, 4,
              Some([Location("file:///repo/a.py", Span(1, 0, 5))]))
         == Failure(NoMatchingIdentifier)
  {
  }

  function RenameChanges(): seq<DocumentChange>
  {
    [TextDocumentEdit("file:///repo/a.py", [TextEdit(Span(0, 0, 1), "bb"), TextEdit(Span(1, 4, 5), "bb")])]
  }

  /** The sample text splits into its two lines. */
  lemma SampleLines()
    ensures SplitLines(SampleTree().text) == ["x = 1", "y = x"]
  {
    var before := ["x = 1", "y = x"];
    assert JoinLines(before) == "x = 1\ny = x";
    assert !HasNewline(before[0]) && !HasNewline(before[1]);
    SplitJoin(before);
  }

  /** The two edits, applied in order, rewrite one occurrence on each line. */
  lemma SampleEdits()
    ensures ApplyChanges(["x = 1", "y = x"], RenameChanges()) == Success(["bb = 1", "y = bb"])
  {
    var before := ["x = 1", "y = x"];
    var e0 := TextEdit(Span(0, 0, 1), "bb");
    var e1 := TextEdit(Span(1, 4, 5), "bb");
    assert SpliceEdit("x = 1", e0) == "bb = 1";
    assert SpliceEdit("y = x", e1) == "y = bb";
    var mid := before[0 := "bb = 1"];
    var after := mid[1 := "y = bb"];
    assert after == ["bb = 1", "y = bb"];
    assert ApplyEdit(before, e0) == Success(mid);
    assert ApplyEdit(mid, e1) == Success(after);
    assert [e0, e1][1..] == [e1];
    assert [e1][1..] == [];
    assert ApplyEdits(mid, [e1]) == ApplyEdits(after, []);
    assert ApplyEdits(before, [e0, e1]) == ApplyEdits(mid, [e1]);
    assert RenameChanges()[1..] == [];
  }

  /** The rewritten lines join into the expected text. */
  lemma SampleJoined()
    ensures JoinLines(["bb = 1", "y = bb"]) == "bb = 1\ny = bb"
  {
  }

  /** Renaming `x` to `bb` with one edit per occurrence rewrites `a.py` to
      `bb = 1\ny = bb` and reports success. */
  lemma RenameXToBb(parse: string -> Tree)
    requires parse("bb = 1\ny = bb").text == "bb = 1\ny = bb"
    ensures
      var out := RequestRename(SampleWorkspace(), "a.py", Some(WorkspaceEdit(Some(RenameChanges()))), parse);
      out.result == Success(true) && Text(out.ws, "a.py") == Success("bb = 1\ny = bb")
  {
    SampleLines();
    SampleEdits();
    SampleJoined();
    var out := RequestRename(SampleWorkspace(), "a.py", Some(WorkspaceEdit(Some(RenameChanges()))), parse);
    assert Get(out.ws, "a.py") == Success(parse("bb = 1\ny = bb"));
  }
}
