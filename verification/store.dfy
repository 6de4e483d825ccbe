/** The workspace: a map from absolute file paths to syntax trees, addressed
    by keys relative to a fixed root. */
module Store {
  import opened Ranges
  import opened Results

  /** An identifier node as the tree query reports it: its range and text. */
  datatype Node = Node(range: TreeRange, text: string)

  /** A parsed file, seen through what the analyzer uses of it: the text of
      its root node and the identifier nodes the `(identifier)` query
      captures, in query order. */
  datatype Tree = Tree(text: string, identifiers: seq<Node>)

  /** The workspace root and the tree stored for each absolute path. */
  datatype Workspace = Workspace(root: string, trees: map<string, Tree>)

  /** The absolute path `root/key`. */
  function Join(root: string, key: string): (p: string)
    ensures |p| == |root| + 1 + |key|
    ensures p[..|root|] == root && p[|root|] == '/'
    ensures p[|root| + 1..] == key
  {
    root + "/" + key
  }

  /** Under one root, distinct keys name distinct paths. */
  lemma JoinInjective(root: string, k1: string, k2: string)
    requires Join(root, k1) == Join(root, k2)
    ensures k1 == k2
  {
  }

  /** `ws[key]`: the tree stored at `root/key`, or a `KeyError`. */
  function Get(ws: Workspace, key: string): (r: Result<Tree>)
    ensures r.Success? <==> Join(ws.root, key) in ws.trees
    ensures r.Success? ==> r.value == ws.trees[Join(ws.root, key)]
    ensures r.Failure? ==> r.error == FileNotInWorkspace(key)
  {
    var path := Join(ws.root, key);
    if path in ws.trees then Success(ws.trees[path]) else Failure(FileNotInWorkspace(key))
  }

  /** `ws[key] = tree`: stores `tree` at `root/key`; the root and every
      other path keep their contents. */
  function Set(ws: Workspace, key: string, tree: Tree): (ws': Workspace)
    ensures ws'.root == ws.root
    ensures ws'.trees.Keys == ws.trees.Keys + {Join(ws.root, key)}
    ensures forall p :: p in ws.trees && p != Join(ws.root, key) ==> ws'.trees[p] == ws.trees[p]
  {
    ws.(trees := ws.trees[Join(ws.root, key) := tree])
  }

  /** Reading a key right after storing under it yields the stored tree. */
  lemma GetAfterSet(ws: Workspace, key: string, tree: Tree)
    ensures Get(Set(ws, key, tree), key) == Success(tree)
  {
  }

  /** Storing under one key leaves every other key's lookup as it was. */
  lemma GetOtherAfterSet(ws: Workspace, key: string, other: string, tree: Tree)
    requires other != key
    ensures Get(Set(ws, key, tree), other) == Get(ws, other)
  {
  }

  /** Storing twice under one key keeps only the second tree. */
  lemma SetSetSameKey(ws: Workspace, key: string, t1: Tree, t2: Tree)
    ensures Set(Set(ws, key, t1), key, t2) == Set(ws, key, t2)
  {
  }

  /** Storing under a key that already holds a tree keeps the set of paths. */
  lemma SetKeepsPaths(ws: Workspace, key: string, tree: Tree)
    requires Get(ws, key).Success?
    ensures Set(ws, key, tree).trees.Keys == ws.trees.Keys
  {
  }
}
