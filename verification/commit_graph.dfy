/** Git as both prototypes use it for syncing: an append-only store of
    commits, each with a tree of files and a list of parents, named by
    refs. Commit ids are positions in the store, and every parent was
    stored before its child, so ancestry is decided by walking down. */
module CommitGraph {
  import opened Types

  /** The files of a yaks directory: path relative to it, and content. */
  type Tree = map<string, string>

  /** A commit: its tree, its parents and its message. */
  datatype Commit = Commit(tree: Tree, parents: seq<nat>, message: string)

  /** The commit store: commit `i` is `g[i]`. */
  type Graph = seq<Commit>

  /** Every parent of a commit was stored before it. */
  predicate WellFormed(g: Graph) {
    forall i, j :: 0 <= i < |g| && 0 <= j < |g[i].parents| ==> g[i].parents[j] < i
  }

  /** A ref is unset or names a stored commit. */
  predicate RefIn(g: Graph, r: Option<nat>) {
    r.None? || r.value < |g|
  }

  /** `git merge-base --is-ancestor a b`: `a` is `b` or is reached from `b`
      by following parent links. */
  function IsAncestor(g: Graph, a: nat, b: nat): (r: bool)
    requires WellFormed(g) && b < |g|
    ensures a == b ==> r
    ensures r ==> a <= b
    decreases b
  {
    a == b || exists j :: 0 <= j < |g[b].parents| && IsAncestor(g, a, g[b].parents[j])
  }

  /** Ancestry is transitive. */
  lemma {:induction false} AncestorTransitive(g: Graph, a: nat, b: nat, c: nat)
    requires WellFormed(g) && b < |g| && c < |g|
    requires IsAncestor(g, a, b) && IsAncestor(g, b, c)
    ensures IsAncestor(g, a, c)
    decreases c
  {
    if b != c {
      var j :| 0 <= j < |g[c].parents| && IsAncestor(g, b, g[c].parents[j]);
      AncestorTransitive(g, a, b, g[c].parents[j]);
    }
  }

  /** Ancestry is antisymmetric: two commits that are each other's
      ancestors are the same commit. */
  lemma AncestorAntisymmetric(g: Graph, a: nat, b: nat)
    requires WellFormed(g) && a < |g| && b < |g|
    requires IsAncestor(g, a, b) && IsAncestor(g, b, a)
    ensures a == b
  {
  }

  /** The tree a ref points at; an unset ref gives the empty tree. */
  function TreeOf(g: Graph, r: Option<nat>): Tree
    requires RefIn(g, r)
  {
    if r.Some? then g[r.value].tree else map[]
  }

  /** The parent list of a commit made on top of a ref: the ref's commit,
      or none when it is unset. */
  function ParentsOf(r: Option<nat>): (ps: seq<nat>)
    ensures |ps| <= 1
    ensures r.Some? ==> ps == [r.value]
    ensures r.None? ==> ps == []
  {
    if r.Some? then [r.value] else []
  }

  /** `git commit-tree`: store a new commit on top of existing ones. Its
      id is the previous size of the store. */
  function Append(g: Graph, tree: Tree, parents: seq<nat>, message: string): (g2: Graph)
    requires WellFormed(g) && forall j :: 0 <= j < |parents| ==> parents[j] < |g|
    ensures WellFormed(g2) && |g2| == |g| + 1 && g2[..|g|] == g
    ensures g2[|g|] == Commit(tree, parents, message)
  {
    g + [Commit(tree, parents, message)]
  }

  /** Storing a commit changes no ancestry among the older commits. */
  lemma {:induction false} AppendKeepsAncestry(g: Graph, c: Commit, a: nat, b: nat)
    requires WellFormed(g) && WellFormed(g + [c]) && b < |g|
    ensures IsAncestor(g + [c], a, b) == IsAncestor(g, a, b)
    decreases b
  {
    var g2 := g + [c];
    assert g2[b] == g[b];
    forall j | 0 <= j < |g[b].parents|
      ensures IsAncestor(g2, a, g[b].parents[j]) == IsAncestor(g, a, g[b].parents[j])
    {
      AppendKeepsAncestry(g, c, a, g[b].parents[j]);
    }
  }

  /** A new commit descends from each of its parents and from everything
      they descend from. */
  lemma NewCommitDescends(g: Graph, tree: Tree, parents: seq<nat>, message: string, j: nat, a: nat)
    requires WellFormed(g) && forall i :: 0 <= i < |parents| ==> parents[i] < |g|
    requires j < |parents| && IsAncestor(g, a, parents[j])
    ensures IsAncestor(Append(g, tree, parents, message), a, |g|)
  {
    var g2 := Append(g, tree, parents, message);
    assert g2 == g + [Commit(tree, parents, message)];
    AppendKeepsAncestry(g, Commit(tree, parents, message), a, parents[j]);
    assert g2[|g|].parents[j] == parents[j];
  }

  /** `mergeRemoteIntoLocal`'s overlay: the remote tree with the local
      files copied over it. */
  function Overlay(remote: Tree, local: Tree): (r: Tree)
    ensures r.Keys == remote.Keys + local.Keys
    ensures forall p :: p in local ==> r[p] == local[p]
    ensures forall p :: p in remote && p !in local ==> r[p] == remote[p]
  {
    remote + local
  }

  /** Overlaying the same local files again changes nothing, and a tree
      overlaid on itself is itself. */
  lemma OverlayIdempotent(remote: Tree, local: Tree)
    ensures Overlay(Overlay(remote, local), local) == Overlay(remote, local)
    ensures Overlay(local, local) == local
  {
  }

  /** The git state a sync reads and writes: the commit store, the local
      ref `refs/notes/yaks`, the tracking ref `refs/remotes/origin/yaks`,
      and the files of the yaks directory (None when it is missing). */
  datatype Repo = Repo(graph: Graph, local: Option<nat>, tracking: Option<nat>, work: Option<Tree>)

  predicate Consistent(s: Repo) {
    WellFormed(s.graph) && RefIn(s.graph, s.local) && RefIn(s.graph, s.tracking)
  }

  /** The extraction that ends a sync, followed by the deletion of the
      tracking ref: the yaks directory is emptied and refilled with the
      local ref's tree (left empty when the ref is unset). */
  function Extract(s: Repo): (r: Repo)
    requires Consistent(s)
    ensures Consistent(r) && r.graph == s.graph && r.local == s.local
    ensures r.tracking.None? && r.work == Some(TreeOf(s.graph, s.local))
    ensures s.local.None? ==> r.work == Some(map[])
  {
    s.(work := Some(TreeOf(s.graph, s.local)), tracking := None)
  }

  /** The outcome of a sync: the state left, whether a push was tried
      (its result is ignored), and the error. */
  datatype Synced = Synced(repo: Repo, pushed: bool, err: Option<string>)
}
