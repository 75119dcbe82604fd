/**
 * The cached remote file tree as the file operator sees it through the
 * FileTreeNode interface: a node per known path, each with a type, a size
 * and a loading state.  A node is identified by its full path; the root is
 * the remote folder "/", whose path has no segments.
 */
module FileTree {

  /** A remote path as its list of segments ("/a/b" is ["a", "b"]). */
  type Path = seq<string>

  datatype FileType = Dir | File

  /**
   * The node states the file operator tests.  FileTreeNode has further
   * states of its own; they are all represented by OtherState.
   */
  datatype NodeState =
    | FolderContentsLoaded
    | FolderKnownContentsNot
    | FolderSpeculateIdle
    | OtherState

  datatype NodeData = NodeData(ftype: FileType, size: nat, state: NodeState)

  /** The tree: every known node, keyed by its full path. */
  type Tree = map<Path, NodeData>

  const RootPath: Path := []

  /** A fresh root node: a folder whose contents are not yet known. */
  const RootData: NodeData := NodeData(Dir, 0, FolderKnownContentsNot)

  function Parent(p: Path): (r: Path)
    requires p != []
    ensures |r| + 1 == |p| && r < p
  {
    p[..|p| - 1]
  }

  /** The root exists and is a folder, and every other node hangs under its parent. */
  ghost predicate ValidTree(t: Tree) {
    && RootPath in t
    && t[RootPath].ftype == Dir
    && forall p :: p in t && p != RootPath ==> Parent(p) in t
  }

  /** Every ancestor of a node of a valid tree is itself in the tree. */
  lemma {:induction false} AncestorsInTree(t: Tree, p: Path, j: nat)
    requires ValidTree(t) && p in t && j <= |p|
    ensures p[..j] in t
    decreases |p| - j
  {
    if j < |p| {
      assert Parent(p) in t;
      AncestorsInTree(t, Parent(p), j);
      assert Parent(p)[..j] == p[..j];
    } else {
      assert p[..j] == p;
    }
  }

  /** Attaching a node under a known parent keeps the tree well formed. */
  lemma AttachKeepsTree(t: Tree, p: Path, d: NodeData)
    requires ValidTree(t) && p != RootPath && Parent(p) in t
    ensures ValidTree(t[p := d])
  {
  }

  /**
   * getChildNodeWithName, repeated from depth k: descend through the
   * segments of path for as long as the next child exists.
   */
  function ClosestFrom(t: Tree, path: Path, k: nat): (r: Path)
    requires k <= |path| && path[..k] in t
    ensures k <= |r| <= |path| && r == path[..|r|] && r in t
    ensures |r| < |path| ==> path[..|r| + 1] !in t
    decreases |path| - k
  {
    if k < |path| && path[..k + 1] in t then ClosestFrom(t, path, k + 1) else path[..k]
  }

  /** getClosestNodeWithName: the node reached by walking path from the root. */
  function Closest(t: Tree, path: Path): (r: Path)
    requires RootPath in t
    ensures r in t && r <= path
  {
    assert path[..0] == RootPath;
    ClosestFrom(t, path, 0)
  }

  /** The closest node is the deepest ancestor of path that the tree knows. */
  lemma ClosestIsDeepest(t: Tree, path: Path)
    requires ValidTree(t)
    ensures forall j :: |Closest(t, path)| < j <= |path| ==> path[..j] !in t
  {
    var r := Closest(t, path);
    forall j | |r| < j <= |path|
      ensures path[..j] !in t
    {
      if path[..j] in t {
        assert path[..j][..|r| + 1] == path[..|r| + 1];
        AncestorsInTree(t, path[..j], |r| + 1);
      }
    }
  }

  /**
   * getNodeWithName finds path exactly when the closest known node is path
   * itself.
   */
  lemma ClosestIsExactIffKnown(t: Tree, path: Path)
    requires ValidTree(t)
    ensures path in t <==> Closest(t, path) == path
  {
    ClosestIsDeepest(t, path);
    assert path[..|path|] == path;
  }

  /** deleteFolderContentsData: the node's descendants are dropped and its contents become unknown. */
  function ClearContents(t: Tree, p: Path): (r: Tree)
    requires p in t
    ensures forall q :: q in r <==> q in t && !(p < q)
    ensures r[p] == t[p].(state := FolderKnownContentsNot)
    ensures forall q :: q in r && q != p ==> r[q] == t[q]
  {
    map q | q in t && !(p < q) :: if q == p then t[p].(state := FolderKnownContentsNot) else t[q]
  }

  /** The task flags kept after the descendants of p are dropped. */
  function Pruned(s: set<Path>, p: Path): (r: set<Path>)
  {
    set q | q in s && !(p < q)
  }

  /**
   * Clearing a folder keeps the tree well formed, keeps the folder itself
   * and every node outside it, and removes everything below it.
   */
  lemma ClearContentsKeepsTree(t: Tree, p: Path)
    requires ValidTree(t) && p in t
    ensures ValidTree(ClearContents(t, p))
    ensures p in ClearContents(t, p) && ClearContents(t, p)[p].state == FolderKnownContentsNot
    ensures forall q :: q in t && !(p <= q) ==> q in ClearContents(t, p) && ClearContents(t, p)[q] == t[q]
    ensures forall q :: q in ClearContents(t, p) ==> q in t && !(p < q)
  {
    var r := ClearContents(t, p);
    forall q | q in r && q != RootPath
      ensures Parent(q) in r
    {
      assert Parent(q) in t;
    }
  }

  /**
   * The node lsClosestNodeToParent re-lists: the parent of path if path is
   * known (path itself when it is the root), the closest known node otherwise.
   */
  function ParentTarget(t: Tree, path: Path): (r: Path)
    requires ValidTree(t)
    ensures r in t && r <= path
    ensures path in t && path != RootPath ==> |r| + 1 == |path|
  {
    if path in t then (if path == RootPath then path else Parent(path))
    else Closest(t, path)
  }

  /**
   * The folder re-listed after a confirmed change to path is the folder that
   * contains it: its parent if it is known, otherwise the deepest known
   * ancestor, below which nothing of path is known.
   */
  lemma ParentTargetIsContainingFolder(t: Tree, path: Path)
    requires ValidTree(t)
    ensures ParentTarget(t, path) in t && ParentTarget(t, path) <= path
    ensures path in t && path != RootPath ==> |ParentTarget(t, path)| + 1 == |path|
    ensures path == RootPath ==> ParentTarget(t, path) == RootPath
    ensures path !in t ==> forall j :: |ParentTarget(t, path)| < j <= |path| ==> path[..j] !in t
  {
    if path in t && path != RootPath {
      assert Parent(path) in t;
    }
    if path !in t {
      ClosestIsDeepest(t, path);
    }
  }

  /**
   * Renaming a/b to a/c inside a known folder a: the parents of the old and
   * the new name are both a, whether or not a/c is already known (say, as a
   * stub left by speculation).
   */
  lemma RenameRelistsContainingFolder(t: Tree, a: Path, b: string, c: string)
    requires ValidTree(t) && a + [b] in t
    ensures ParentTarget(t, a + [b]) == a
    ensures ParentTarget(t, a + [c]) == a
  {
    assert Parent(a + [b]) == a;
    assert a + [b] != RootPath;
    assert a in t;
    if a + [c] in t {
      assert Parent(a + [c]) == a;
    } else {
      var r := Closest(t, a + [c]);
      ClosestIsDeepest(t, a + [c]);
      assert (a + [c])[..|a|] == a;
      assert (a + [c])[..|a| + 1] == a + [c];
      assert |r| == |a|;
      assert r == (a + [c])[..|r|];
    }
  }
}
