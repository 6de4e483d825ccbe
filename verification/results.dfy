/** Failure-carrying values shared by the analyzer model, and the exceptions
    the analyzer raises, one tag per distinct raise site. */
module Results {

  datatype Option<+T> = None | Some(value: T)

  datatype Result<+T> = Success(value: T) | Failure(error: Error)

  /** The ways an analyzer request can end in an exception. */
  datatype Error =
      /** `KeyError` from the workspace map: no tree is stored under `root/key`. */
    | FileNotInWorkspace(key: string)
      /** `KeyError` from `captures["element"]`: the query captured no
          identifier in the file, so the capture dictionary has no entry. */
    | NoIdentifierCaptures
      /** The server returned an empty candidate list, so the `for` falls into its `else`. */
    | NoDefinition(file: string, line: nat, column: nat)
      /** `StopIteration` from `next()`: no identifier has exactly the first candidate's range. */
    | NoMatchingIdentifier
      /** `KeyError`: the rename reply carries no `documentChanges` entry. */
    | MissingDocumentChanges
      /** Failed `assert "textDocument" in change`: the change is a resource operation. */
    | NotTextDocumentEdit
      /** Failed `assert start["line"] == end["line"]`: the edit spans several lines. */
    | MultiLineEdit
      /** `IndexError` from `new_lines[line]`: the edit names a line past the end of the file. */
    | LineOutOfRange(line: nat)
}
