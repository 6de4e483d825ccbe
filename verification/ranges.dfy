/** The two coordinate systems the analyzer reconciles: the language server's
    line/character ranges and the syntax tree's row/column points. */
module Ranges {

  /** A language-server position: 0-based line and character. */
  datatype Position = Position(line: nat, character: nat)

  /** A language-server range `{start, end}`. */
  datatype LspRange = LspRange(start: Position, end: Position)

  /** A syntax-tree point: 0-based row and column. */
  datatype Point = Point(row: nat, column: nat)

  /** A syntax-tree range `{start_point, end_point}`. */
  datatype TreeRange = TreeRange(startPoint: Point, endPoint: Point)

  /** The tree range that denotes the same four numbers as `r`. */
  function ToTreeRange(r: LspRange): TreeRange
  {
    TreeRange(Point(r.start.line, r.start.character), Point(r.end.line, r.end.character))
  }

  /** The server range that denotes the same four numbers as `t`. */
  function ToLspRange(t: TreeRange): LspRange
  {
    LspRange(Position(t.startPoint.row, t.startPoint.column), Position(t.endPoint.row, t.endPoint.column))
  }

  /** The four coordinates of a range, in the order start line, start
      character, end line, end character. */
  function LspCoords(r: LspRange): (nat, nat, nat, nat)
  {
    (r.start.line, r.start.character, r.end.line, r.end.character)
  }

  function TreeCoords(t: TreeRange): (nat, nat, nat, nat)
  {
    (t.startPoint.row, t.startPoint.column, t.endPoint.row, t.endPoint.column)
  }

  /** Exact comparison of a server range with a tree range: the two ranges
      agree on every coordinate, which is the same as converting the server
      range into tree coordinates and comparing there. */
  predicate PosEq(l: LspRange, t: TreeRange)
    ensures PosEq(l, t) <==> ToTreeRange(l) == t
    ensures PosEq(l, t) <==> l == ToLspRange(t)
    ensures PosEq(l, t) <==> LspCoords(l) == TreeCoords(t)
  {
    && l.start.line == t.startPoint.row
    && l.end.line == t.endPoint.row
    && l.start.character == t.startPoint.column
    && l.end.character == t.endPoint.column
  }

  /** The two conversions are mutually inverse. */
  lemma ConversionRoundTrip(l: LspRange, t: TreeRange)
    ensures ToLspRange(ToTreeRange(l)) == l
    ensures ToTreeRange(ToLspRange(t)) == t
  {
  }

  /** Exact comparison is transitive through a tree range: two server
      ranges that match the same tree range are the same range. */
  lemma PosEqDeterminesRange(l1: LspRange, l2: LspRange, t: TreeRange)
    requires PosEq(l1, t) && PosEq(l2, t)
    ensures l1 == l2
  {
  }
}
