/** The two analyzer requests: finding the identifier node a definition
    reply points at, and applying a rename reply to the workspace. The
    language server's replies are inputs, and the parser is a function
    from text to tree. */
module Analyzer {
  import opened Ranges
  import opened Results
  import opened Store
  import opened TextLines
  import opened Edits

  /** One candidate of a definition reply. Only its range is consulted. */
  datatype Location = Location(uri: string, range: LspRange)

  /** A rename reply; `documentChanges` is `None` when the reply lacks that
      entry. */
  datatype WorkspaceEdit = WorkspaceEdit(documentChanges: Option<seq<DocumentChange>>)

  /** What a rename request leaves behind: the workspace after the call and
      the value it returned or the exception it raised. */
  datatype RenameOutcome = RenameOutcome(ws: Workspace, result: Result<bool>)

  /** `k` is the first identifier whose range is exactly `range`. */
  predicate IsFirstMatch(identifiers: seq<Node>, range: LspRange, k: int)
  {
    && 0 <= k < |identifiers|
    && PosEq(range, identifiers[k].range)
    && forall j :: 0 <= j < k ==> !PosEq(range, identifiers[j].range)
  }

  /** `next(filter(lambda ident: pos_eq(range, ident.range), identifiers))`,
      as an index: the first identifier, in query order, whose range equals
      `range` exactly, or `None` when there is no such identifier. */
  function FirstMatch(identifiers: seq<Node>, range: LspRange): (r: Option<nat>)
    ensures r.Some? ==> IsFirstMatch(identifiers, range, r.value)
    ensures r.None? <==> forall j :: 0 <= j < |identifiers| ==> !PosEq(range, identifiers[j].range)
    decreases |identifiers|
  {
    if |identifiers| == 0 then None
    else if PosEq(range, identifiers[0].range) then Some(0)
    else
      match FirstMatch(identifiers[1..], range)
      case None => None
      case Some(k) => Some(k + 1)
  }

  /** `request_definition_by_line(file, line, column)` given the server's
      reply. A missing reply gives `None` before the workspace is read. A
      file with no identifier at all has no capture list, whose lookup
      raises. An empty list of candidates raises the "no definition"
      exception. Otherwise only the first candidate is consulted: the result
      is the first identifier of the file whose range equals the
      candidate's, and when none does, `next()` raises instead of falling
      back to a nearby node. */
  function RequestDefinitionByLine(ws: Workspace, file: string, line: nat, column: nat,
                                   reply: Option<seq<Location>>): (r: Result<Option<Node>>)
    ensures reply.None? <==> r == Success(None)
    ensures reply.Some? && Get(ws, file).Failure? ==> r == Failure(FileNotInWorkspace(file))
    ensures r == Failure(NoIdentifierCaptures) <==>
      reply.Some? && Get(ws, file).Success? && |Get(ws, file).value.identifiers| == 0
    ensures r == Failure(NoDefinition(file, line, column)) <==>
      reply == Some([]) && Get(ws, file).Success? && |Get(ws, file).value.identifiers| > 0
    ensures r.Success? && r.value.Some? ==>
      && reply.Some? && |reply.value| > 0 && Get(ws, file).Success?
      && exists k :: IsFirstMatch(Get(ws, file).value.identifiers, reply.value[0].range, k)
                     && r.value.value == Get(ws, file).value.identifiers[k]
    ensures r == Failure(NoMatchingIdentifier) <==>
      && reply.Some? && |reply.value| > 0 && Get(ws, file).Success?
      && |Get(ws, file).value.identifiers| > 0
      && forall j :: 0 <= j < |Get(ws, file).value.identifiers| ==>
           !PosEq(reply.value[0].range, Get(ws, file).value.identifiers[j].range)
  {
    if reply.None? then Success(None)
    else
      match Get(ws, file)
      case Failure(err) => Failure(err)
      case Success(tree) =>
        if |tree.identifiers| == 0 then Failure(NoIdentifierCaptures)
        else if |reply.value| == 0 then Failure(NoDefinition(file, line, column))
        else
          match FirstMatch(tree.identifiers, reply.value[0].range)
          case None => Failure(NoMatchingIdentifier)
          case Some(k) => Success(Some(tree.identifiers[k]))
  }

  /** `request_definition(file, node)`: the definition request made at the
      start point of `node`. That position is what the "no definition"
      exception reports, and every other outcome is the same whatever the
      position. */
  function RequestDefinition(ws: Workspace, file: string, node: Node,
                             reply: Option<seq<Location>>): (r: Result<Option<Node>>)
    ensures reply == Some([]) && Get(ws, file).Success? && |Get(ws, file).value.identifiers| > 0 ==>
      r == Failure(NoDefinition(file, node.range.startPoint.row, node.range.startPoint.column))
    ensures forall line: nat, column: nat ::
      reply != Some([]) || Get(ws, file).Failure? || |Get(ws, file).value.identifiers| == 0 ==>
        r == RequestDefinitionByLine(ws, file, line, column, reply)
  {
    RequestDefinitionByLine(ws, file, node.range.startPoint.row, node.range.startPoint.column, reply)
  }

  /** Candidates after the first are never consulted: two non-empty replies
      that agree on the first candidate's range give the same result. */
  lemma DefinitionUsesFirstCandidateOnly(ws: Workspace, file: string, line: nat, column: nat,
                                         a: seq<Location>, b: seq<Location>)
    requires |a| > 0 && |b| > 0 && a[0].range == b[0].range
    ensures RequestDefinitionByLine(ws, file, line, column, Some(a))
         == RequestDefinitionByLine(ws, file, line, column, Some(b))
  {
  }

  /** Exactness: when the first candidate's range is exactly an identifier's
      range, and no earlier identifier has that range, the result is that
      identifier. */
  lemma DefinitionFindsExactNode(ws: Workspace, file: string, line: nat, column: nat,
                                 reply: seq<Location>, k: nat)
    requires Get(ws, file).Success?
    requires k < |Get(ws, file).value.identifiers|
    requires |reply| > 0
    requires reply[0].range == ToLspRange(Get(ws, file).value.identifiers[k].range)
    requires forall j :: 0 <= j < k ==>
      Get(ws, file).value.identifiers[j].range != Get(ws, file).value.identifiers[k].range
    ensures RequestDefinitionByLine(ws, file, line, column, Some(reply))
         == Success(Some(Get(ws, file).value.identifiers[k]))
  {
    var ids := Get(ws, file).value.identifiers;
    assert PosEq(reply[0].range, ids[k].range);
    assert FirstMatch(ids, reply[0].range).Some?;
  }

  /** The rename's edits applied to the lines of `text`. */
  function RenamedLines(text: string, changes: seq<DocumentChange>): Result<seq<string>>
  {
    ApplyChanges(SplitLines(text), changes)
  }

  /** `request_rename(file, node, new_name)` given the server's reply and the
      parser. A missing reply returns false. Otherwise the text of `file`'s
      tree is split into lines, every change's edits are applied to those
      lines in order, whatever document each change names, and only then is
      the parse of the rejoined lines stored under `file`. Any exception on
      the way leaves the workspace as it was. */
  function RequestRename(ws: Workspace, file: string, reply: Option<WorkspaceEdit>,
                         parse: string -> Tree): (out: RenameOutcome)
    ensures reply.None? ==> out == RenameOutcome(ws, Success(false))
    ensures out.result == Success(false) <==> reply.None?
    ensures out.result != Success(true) ==> out.ws == ws
    ensures reply.Some? && reply.value.documentChanges.None? ==> out.result == Failure(MissingDocumentChanges)
    ensures reply.Some? && reply.value.documentChanges.Some? && Get(ws, file).Failure? ==>
      out.result == Failure(FileNotInWorkspace(file))
    ensures reply.Some? && reply.value.documentChanges.Some? && Get(ws, file).Success?
            && RenamedLines(Get(ws, file).value.text, reply.value.documentChanges.value).Failure? ==>
      out.result == Failure(RenamedLines(Get(ws, file).value.text, reply.value.documentChanges.value).error)
    ensures out.result == Success(true) <==>
      && reply.Some? && reply.value.documentChanges.Some?
      && Get(ws, file).Success?
      && RenamedLines(Get(ws, file).value.text, reply.value.documentChanges.value).Success?
    ensures out.result == Success(true) ==>
      && out.ws.root == ws.root
      && out.ws.trees.Keys == ws.trees.Keys
      && Get(out.ws, file) ==
           Success(parse(JoinLines(RenamedLines(Get(ws, file).value.text, reply.value.documentChanges.value).value)))
      && forall other :: other != file ==> Get(out.ws, other) == Get(ws, other)
  {
    if reply.None? then RenameOutcome(ws, Success(false))
    else if reply.value.documentChanges.None? then RenameOutcome(ws, Failure(MissingDocumentChanges))
    else
      match Get(ws, file)
      case Failure(err) => RenameOutcome(ws, Failure(err))
      case Success(tree) =>
        match RenamedLines(tree.text, reply.value.documentChanges.value)
        case Failure(err) => RenameOutcome(ws, Failure(err))
        case Success(lines) =>
          var ws' := Set(ws, file, parse(JoinLines(lines)));
          assert forall other :: other != file ==> Get(ws', other) == Get(ws, other) by {
            forall other | other != file
              ensures Get(ws', other) == Get(ws, other)
            {
              GetOtherAfterSet(ws, file, other, parse(JoinLines(lines)));
            }
          }
          RenameOutcome(ws', Success(true))
  }

  /** An edit spanning several lines anywhere in the reply makes the rename
      raise, and the workspace is left as it was. */
  lemma RenameRejectsMultiLineEdit(ws: Workspace, file: string, changes: seq<DocumentChange>,
                                   parse: string -> Tree, c: nat, i: nat)
    requires c < |changes| && changes[c].TextDocumentEdit?
    requires i < |changes[c].edits| && !SingleLine(changes[c].edits[i])
    ensures RequestRename(ws, file, Some(WorkspaceEdit(Some(changes))), parse).result.Failure?
    ensures RequestRename(ws, file, Some(WorkspaceEdit(Some(changes))), parse).ws == ws
  {
  }

  /** `text(file)`: the text of the tree stored for `file`. */
  function Text(ws: Workspace, file: string): (r: Result<string>)
    ensures r.Success? <==> Get(ws, file).Success?
    ensures r.Success? ==> r.value == Get(ws, file).value.text
    ensures r.Failure? ==> r.error == FileNotInWorkspace(file)
  {
    match Get(ws, file)
    case Failure(err) => Failure(err)
    case Success(tree) => Success(tree.text)
  }

  /** After a rename that went through, with a parser whose root node keeps
      the rewritten text, the file reads back as the edited lines joined by
      '\n'. There are as many lines as before. Rejoining the lines before any
      edit gives the old text less one final '\n', so that newline is lost
      even where no edit applies. When no edit put a '\n' into a line and the
      last line is not empty, the file splits into exactly the edited lines,
      and every line no edit writes is identical to the line before. */
  lemma {:induction false} RenameReadBack(ws: Workspace, file: string, changes: seq<DocumentChange>,
                                          parse: string -> Tree)
    requires RequestRename(ws, file, Some(WorkspaceEdit(Some(changes))), parse).result == Success(true)
    requires var after := RenamedLines(Get(ws, file).value.text, changes).value;
             parse(JoinLines(after)).text == JoinLines(after)
    ensures
      var text := Get(ws, file).value.text;
      var before := SplitLines(text);
      var after := RenamedLines(text, changes).value;
      var ws' := RequestRename(ws, file, Some(WorkspaceEdit(Some(changes))), parse).ws;
      && Text(ws', file) == Success(JoinLines(after))
      && |after| == |before|
      && JoinLines(before) == DropFinalNewline(text)
      && ((forall k :: 0 <= k < |after| ==> !HasNewline(after[k])) && (|after| == 0 || |after[|after| - 1]| > 0) ==>
            && SplitLines(Text(ws', file).value) == after
            && forall j :: 0 <= j < |before| && UntouchedByChanges(changes, j) ==>
                 SplitLines(Text(ws', file).value)[j] == before[j])
  {
    var text := Get(ws, file).value.text;
    var after := RenamedLines(text, changes).value;
    JoinSplitAny(text);
    if (forall k :: 0 <= k < |after| ==> !HasNewline(after[k])) && (|after| == 0 || |after[|after| - 1]| > 0) {
      SplitJoin(after);
    }
  }

  /** A reply with an empty `documentChanges` still rewrites the file: it
      reads back as before, less one final '\n'. */
  lemma RenameWithoutEditsDropsFinalNewline(ws: Workspace, file: string, parse: string -> Tree)
    requires Get(ws, file).Success?
    requires parse(DropFinalNewline(Get(ws, file).value.text)).text == DropFinalNewline(Get(ws, file).value.text)
    ensures
      var out := RequestRename(ws, file, Some(WorkspaceEdit(Some([]))), parse);
      out.result == Success(true) && Text(out.ws, file) == Success(DropFinalNewline(Get(ws, file).value.text))
  {
    JoinSplitAny(Get(ws, file).value.text);
  }
}
