# lsp_analyzer core, modelled in Dafny

`lsp_analyzer` places a language server next to a tree-sitter workspace.
It keeps one syntax tree per source file, keyed by the file's path under a
repository root. It answers two requests:

- **definition**: asks the server where the identifier at a line and column
  is defined. It then finds the identifier node in the file's tree whose
  range is exactly the server's range.
- **rename**: asks the server for a rename. It applies every returned text
  edit to the lines of the file's text, then stores the parse of the
  rewritten text back into the workspace.

This project models the pure logic between the calls into the server and the
parser:

- the exact range comparison `pos_eq`;
- how the definition request selects its result;
- the fold of single-line edits over a file's lines and its commit;
- the workspace map.

The server's replies are inputs of the model. The parser is a function
parameter `parse: string -> Tree`. A tree is its root node's text plus the
identifier nodes of the `(identifier)` query, in query order.

Modules, leaf first:

- `Results`: `Option`, `Result`, and one `Error` tag per place the code
  raises for a well-formed server reply. The tags include
  `NoIdentifierCaptures`, the `KeyError` from `captures["element"]`
  (main.py:50). The `KeyError`s that reading a field of a malformed reply
  would raise have no tag: the reply datatypes always carry those fields.
- `Ranges`: server ranges, tree ranges and `PosEq`.
- `Store`: the workspace map, path joining, and `ws[key]` /
  `ws[key] = tree`.
- `TextLines`: `splitlines` and `'\n'.join`, with both round trips.
- `Edits`: the splice, the edit fold and the change fold. Also contains the
  loop form of the fold, lemmas on ordering and commutation, and the fold
  over all edits.
- `Analyzer`: `request_definition_by_line`, `request_definition`,
  `request_rename` and `text`.
- `Scenarios`: both requests on the sample file `x = 1\ny = x`.

### Behaviour as written

The model follows the code in every case:

- **Only the first candidate counts.** The `for` body over the definition
  candidates always returns. So only the first candidate is consulted, and
  later candidates are never tried.
- **No silent miss.** An empty candidate list reaches the `for … else` and
  raises. A first candidate that matches no identifier exactly makes `next()`
  raise `StopIteration`.
- **A file without identifiers raises.** When the query captures nothing,
  `captures` has no `"element"` entry. So any reply other than `None`
  raises `KeyError` before the candidates are looked at, even an empty one.
- **The definition's `uri` is ignored too.** Only the first candidate's
  range is read, and it is matched against the identifiers of `file`. So a
  definition in another file resolves to whichever node of `file` has that
  range, or raises `StopIteration`. The target file's tree is never loaded
  (`Analyzer.DefinitionUsesFirstCandidateOnly`: the result depends on the
  first candidate's range alone).
- **No file-level fallback.** There is no whole-file sentinel result and no
  nearest-node fallback.
- **Edit order.** Edits are applied in the order the server gives them, each
  to the lines the earlier edits produced. They are not sorted in descending
  order. `Edits.SameLineAscendingShifts` shows that two ascending edits on one
  line, expressed in original offsets, corrupt the line. `Edits.SameLineDescending`
  shows that the descending order gives the original-offset rewrite.
- **The `uri` is ignored.** Each change's `uri` is read, but every edit goes
  to the lines of the file being renamed.
- **All-or-nothing commit.** The workspace is written once, after every edit
  has gone through (main.py:90). So any exception leaves the workspace as it
  was, for the whole rename and not only for one batch.
- **Return value.** The rename returns a boolean, not a count of files.
- **A final newline is lost.** `splitlines` does not produce an empty last
  line for a text that ends in '\n', and `'\n'.join` adds none back. So
  every successful rename drops one final '\n', even when the reply holds no
  changes at all (`Analyzer.RenameWithoutEditsDropsFinalNewline`,
  `TextLines.JoinSplitAny`).

## Model

| member | source | states |
|---|---|---|
| `Ranges.PosEq` | main.py:98-99 | holds exactly when start line = start row, end line = end row, start character = start column and end character = end column; equivalently the server range converted to tree coordinates is the tree range, or the tree range converted back is the server range |
| `Analyzer.FirstMatch` | main.py:53-54 | the index of the first identifier, in query order, whose range `pos_eq` matches; `None` exactly when no identifier matches |
| `Analyzer.RequestDefinitionByLine` | main.py:41-57 | `None` reply gives `None`, and only then; a file missing from the workspace raises `KeyError`; a stored file without identifiers raises the capture `KeyError`, and only then; with identifiers, an empty candidate list raises "no definition" for this file, line and column, and only then; a found node is the first exact match of the FIRST candidate's range; `StopIteration` exactly when identifiers exist and none matches that range |
| `Analyzer.RequestDefinition` | main.py:59-62 | the request is made at the node's start point, which the "no definition" error reports; for any reply other than an empty list, and for an empty list on a missing file or a file without identifiers, the result is the same as a request at any line and column |
| `Analyzer.DefinitionUsesFirstCandidateOnly` | main.py:51-55 | two non-empty replies whose first candidates have the same range give the same result |
| `Analyzer.DefinitionFindsExactNode` | main.py:51-55 | when the first candidate's range is exactly identifier k's range, and no earlier identifier has that range, the result is identifier k |
| `Store.Join` | main.py:21-25 | `root/key` is the root, one '/', then exactly `key` |
| `Store.JoinInjective` | main.py:21-25 | under one root, `root/k1 == root/k2` only when `k1 == k2` |
| `Store.Get` | main.py:20-22 | `ws[key]` succeeds exactly when `root/key` is stored, and otherwise raises the key error for `key` |
| `Store.Set` | main.py:24-26 | `ws[key] = tree` keeps the root, adds `root/key` to the stored paths and keeps every other path's tree |
| `Store.GetAfterSet` | main.py:20-26 | reading `ws[key]` right after `ws[key] = tree` yields `tree` |
| `Store.GetOtherAfterSet` | main.py:20-26 | after `ws[key] = tree`, `ws[other]` for any other key is what it was |
| `Store.SetSetSameKey` | main.py:24-26 | a second store under the same key overrides the first |
| `Store.SetKeepsPaths` | main.py:24-26 | storing under a key that already holds a tree keeps the set of paths |
| `TextLines.SplitLines` | main.py:74-75 | `splitlines` gives no lines exactly for the empty text, and no line holds a '\n' |
| `TextLines.SplitLinesAfter` | main.py:74-75 | `(a + "\n" + b).splitlines()` is `a` followed by the lines of `b`, when `a` has no '\n' |
| `TextLines.JoinLinesCons` | main.py:91 | `'\n'.join([first] + rest)` is `first`, a '\n', then the join of a non-empty `rest` |
| `TextLines.JoinSplit` | main.py:74-91 | `'\n'.join(s.splitlines()) == s` for every `s` that does not end in '\n' |
| `TextLines.JoinSplitTrailing` | main.py:74-91 | for `s` ending in '\n', `'\n'.join(s.splitlines())` is `s` without that last '\n' |
| `TextLines.JoinSplitAny` | main.py:74-91 | for every `s`, `'\n'.join(s.splitlines())` is `s` with one final '\n' removed if there is one |
| `TextLines.SplitJoin` | main.py:74-91 | `'\n'.join(lines).splitlines() == lines` when no line holds a '\n' and the last line is not empty |
| `Edits.Prefix` | main.py:87-88 | `line[0:n]` is the first `min(n, len(line))` characters of the line |
| `Edits.Suffix` | main.py:87-88 | `line[n:]` is the last `len(line) - n` characters, or empty when `n` is past the end |
| `Edits.Splice` | main.py:87-88 | `line[0:start] + text + line[end:]`: the text before the clamped start is kept, `text` follows, then the text from the clamped end; with `0 ≤ start ≤ end ≤ len(line)` the length is `len(line) − (end − start) + len(text)` |
| `Edits.SpliceDescending` | main.py:87-88 | splicing a later span and then an earlier one replaces both spans at their original offsets |
| `Edits.ApplyEdit` | main.py:81-88 | an edit goes through exactly when it is single-line and its line exists; a multi-line edit raises before the line is indexed; on success the line count is unchanged, the target line becomes its splice and every other line is identical |
| `Edits.ApplyEdits` | main.py:81-88 | the fold goes through exactly when every edit does; it keeps the line count and every line no edit targets; a failure carries the exception of the first edit that does not go through |
| `Edits.ApplyChange` | main.py:77-88 | a change goes through exactly when it is a document edit whose edits all do, and keeps the line count; a resource operation fails the `textDocument` assertion; a failing document edit raises the exception of its first edit that does not go through |
| `Edits.ApplyChanges` | main.py:77-88 | the change fold goes through exactly when every change does; it keeps the line count and every line no edit of any change targets; a failure carries the exception of the first change that does not go through, and within it of its first failing edit |
| `Edits.ApplyEditsAppend` | main.py:81-88 | folding `a + b` is folding `a`, then folding `b` from where `a` left off |
| `Edits.ApplyChangesIsFoldOfAllEdits` | main.py:77-88 | with only document edits, applying the changes is the left fold of all their edits, in order, over the same lines, whatever `uri` each change names |
| `Edits.DistinctLineEditsCommute` | main.py:81-88 | two edits on different lines go through in either order or in neither, and give the same lines |
| `Edits.DistinctLinesPointwise` | main.py:81-88 | edits on pairwise distinct lines rewrite each target line to that edit's splice of the original line |
| `Edits.SameLineDescending` | main.py:81-88 | two same-line edits applied later-span-first give the original-offset rewrite of the line |
| `Edits.SameLineAscendingShifts` | main.py:81-88 | applying same-line edits in ascending order, as given, turns `x = x` into `bb =bbx`; the descending order gives `bb = bb` |
| `Edits.ApplyChangesInPlace` | main.py:77-88 | the nested loops, which rewrite the lines in place, compute exactly the change fold, including which exception is raised |
| `Analyzer.RequestRename` | main.py:64-92 | false exactly for a `None` reply, and then the workspace is unchanged; a reply without `documentChanges` raises `KeyError` for it; a missing file raises the workspace `KeyError`; otherwise a failing edit raises the exception of the change fold over the file's lines; anything but true leaves the workspace unchanged; true exactly when the reply has `documentChanges`, the file is stored and every edit goes through; then the root and paths are kept, `file` holds the parse of the rejoined edited lines, and every other key reads as before |
| `Analyzer.RenameRejectsMultiLineEdit` | main.py:84-90 | a multi-line edit anywhere in the reply makes the rename raise with the workspace unchanged |
| `Analyzer.Text` | main.py:94-95 | `text(file)` succeeds exactly when the file is stored, and is its tree's text; otherwise it raises the workspace `KeyError` for `file` |
| `Analyzer.RenameReadBack` | main.py:73-95 | when the parse keeps the rewritten text as the root node's text, after a successful rename the file reads back as the edited lines joined by '\n'; the line count is unchanged; the original lines rejoined are the old text less one final '\n'; when no edit put a '\n' into a line and the last line is not empty, the file splits into exactly the edited lines, and untouched lines are identical |
| `Analyzer.RenameWithoutEditsDropsFinalNewline` | main.py:73-95 | when the parse keeps the rewritten text as the root node's text, a rename whose reply has an empty change list returns true, and the file then reads as its old text with one final '\n' removed |
| `Ranges.ConversionRoundTrip` | main.py:98-99 | converting a server range to tree coordinates and back, or the other way round, gives the range unchanged |
| `Ranges.PosEqDeterminesRange` | main.py:98-99 | at most one server range is `pos_eq` to a given tree range |
| `Scenarios.DefinitionOfSecondX` | main.py:112-114 | in `x = 1\ny = x`, a reply pointing at line 0, columns 0–1 resolves to the first `x` node |
| `Scenarios.DefinitionOfInexactRange` | main.py:112-114 | a reply covering all of `y = x` matches no identifier exactly and raises |
| `Scenarios.RenameXToBb` | main.py:116-118 | when the parse keeps the rewritten text as the root node's text, renaming both `x` to `bb` returns true and the file reads `bb = 1\ny = bb` |

## Left out

- Workspace construction (main.py:12-18): scanning the root with `rglob`,
  reading the files and parsing them are file-system I/O and foreign calls.
  The model starts from a given map.
- Server construction, `start_server` and the two requests (main.py:30-36,
  42-43, 67-70) are an external process. Their replies are inputs:
  `Option<seq<Location>>` for a definition and `Option<WorkspaceEdit>` for a
  rename.
- The tree-sitter parser and the `(identifier)` query (main.py:15, 46-49,
  90-91) are foreign calls. A tree is its text plus its ordered identifier
  list, and the parser is a parameter.
- `get_file_tree` (main.py:38-39) is `Store.Get` under another name and has no
  member of its own.
- Path semantics: `root/key` is modelled as `root + "/" + key`, which is
  injective in `key`. pathlib also collapses repeated separators and `.`
  parts, and lets an absolute key replace the root. These are not modelled.
- `splitlines` is modelled for '\n' only. The other line boundaries Python
  recognises ('\r', '\r\n', '\v', '\f', '\x1c'–'\x1e', '\x85', '\u2028',
  '\u2029') are ordinary characters here.
- Text is a sequence of characters. `decode`/`encode` are identity, and
  columns index characters. The difference between UTF-16 code units
  (server), code points (Python slices) and bytes (tree-sitter columns) is
  not modelled.
- Positions are natural numbers, as the server protocol defines them. So
  Python's negative-index behaviour for `new_lines[line]` and for slices
  cannot arise.
- `assert` statements are modelled as always active. Running Python with
  `-O` would remove the `textDocument` and single-line checks.
- Exception messages are not modelled, except that "no definition" carries
  the file, line and column it reports.
- The demo script (main.py:102-118) is driver code. The `Scenarios` lemmas
  restate its sample requests on a fixed sample file.
- Analyzer.RenameReadBack: assumes, as a requirement, that the parse of the
  rewritten text has that text as its root node's text. Tree-sitter does so
  only for text that does not start with whitespace: the root node begins
  after any leading padding. So the read-back is not promised for such text.
- Analyzer.RenameWithoutEditsDropsFinalNewline: assumes the same of the parse
  of the text less its final '\n', for the same reason.
- Scenarios.RenameXToBb: assumes the same of the parse of `bb = 1\ny = bb`,
  for the same reason.
- Leading whitespace: for a file that starts with blank lines or spaces, the
  root node's text omits them. `splitlines` then numbers lines differently
  from the server, and edits land on the wrong lines. The model applies edits
  to the stored tree text, as the code does, and does not model that
  mismatch between the tree text and the file on disk.
- `JoinLines` carries no contract of its own. Its properties are stated by
  `TextLines.JoinLinesCons` and the four round-trip lemmas `TextLines.JoinSplit`,
  `TextLines.JoinSplitTrailing`, `TextLines.JoinSplitAny` and `TextLines.SplitJoin`.
