/** The Rust prototype's git adapter (adapters/git_adapter.rs): audit
    commits on `refs/notes/yaks` and its `sync`, which consults no ancestry
    and never merges. */
module RustSync {
  import opened Types
  import opened CommitGraph

  /** What the outside world answers during one sync: whether this is a
      repository with an origin remote, and what the fetch brought (None
      when it failed). */
  datatype World = World(isRepo: bool, hasOrigin: bool, fetched: Option<nat>)

  const NotRepository: string := "Error: not in a git repository"
  const NoOrigin: string := "Error: no origin remote configured"

  /** `yaks_path_has_content`: the yaks directory exists and has an entry. */
  predicate HasContent(work: Option<Tree>) {
    work.Some? && |work.value| > 0
  }

  /** `log_command`: outside a repository, or when the yaks directory is
      missing or empty, nothing happens; otherwise its files are committed
      on top of the local ref, which then names the new commit. */
  function LogCommand(s: Repo, isRepo: bool, message: string): (r: Repo)
    requires Consistent(s)
    ensures Consistent(r) && r.tracking == s.tracking && r.work == s.work
    ensures !isRepo || !HasContent(s.work) ==> r == s
    ensures isRepo && HasContent(s.work) ==>
      && r.graph == s.graph + [Commit(s.work.value, ParentsOf(s.local), message)]
      && r.local == Some(|s.graph|)
  {
    if !isRepo || !HasContent(s.work) then s
    else
      var g := Append(s.graph, s.work.value, ParentsOf(s.local), message);
      s.(graph := g, local := Some(|s.graph|))
  }

  /** The remote ref `sync` works with: the fetched one, or the tracking
      ref left from before when the fetch failed. */
  function Remote(s: Repo, w: World): Option<nat> {
    if w.fetched.Some? then w.fetched else s.tracking
  }

  /** `sync`: check the repository and the remote, fetch, then with a
      remote either log the directory as a commit (when it has content) or
      adopt the remote ref (when it has none); push when there is a local
      ref, extract it, and delete the tracking ref. */
  function Sync(s: Repo, w: World): (r: Synced)
    requires Consistent(s) && RefIn(s.graph, w.fetched)
    ensures !w.isRepo ==> r == Synced(s, false, Some(NotRepository))
    ensures w.isRepo && !w.hasOrigin ==> r == Synced(s, false, Some(NoOrigin))
    ensures w.isRepo && w.hasOrigin ==> r.err.None?
    ensures Consistent(r.repo)
    ensures s.graph <= r.repo.graph && |r.repo.graph| <= |s.graph| + 1
    ensures r.err.None? ==> r.repo.tracking.None? && r.repo.work == Some(TreeOf(r.repo.graph, r.repo.local))
    ensures r.err.None? ==> r.pushed == r.repo.local.Some?
  {
    if !w.isRepo then Synced(s, false, Some(NotRepository))
    else if !w.hasOrigin then Synced(s, false, Some(NoOrigin))
    else
      var s1 := s.(tracking := Remote(s, w));
      var s2 :=
        if HasContent(s1.work) && s1.tracking.Some? then LogCommand(s1, true, "sync")
        else if s1.tracking.Some? then s1.(local := s1.tracking)
        else s1;
      Synced(Extract(s2), s2.local.Some?, None)
  }

  /** With a remote and a non-empty directory, one commit of the directory
      is made on top of the local ref; the remote is not its parent and
      its tree is not consulted. */
  lemma SyncWithContent(s: Repo, w: World)
    requires Consistent(s) && RefIn(s.graph, w.fetched) && w.isRepo && w.hasOrigin
    requires Remote(s, w).Some? && HasContent(s.work)
    ensures var r := Sync(s, w);
      && r.repo.graph == s.graph + [Commit(s.work.value, ParentsOf(s.local), "sync")]
      && r.repo.local == Some(|s.graph|) && r.repo.work == s.work
  {
  }

  /** With a remote and an empty or missing directory, the local ref
      becomes the remote with no new commit, and the directory its tree. */
  lemma SyncWithoutContent(s: Repo, w: World)
    requires Consistent(s) && RefIn(s.graph, w.fetched) && w.isRepo && w.hasOrigin
    requires Remote(s, w).Some? && !HasContent(s.work)
    ensures var r := Sync(s, w);
      && r.repo.graph == s.graph && r.repo.local == Remote(s, w) && r.pushed
      && r.repo.work == Some(s.graph[Remote(s, w).value].tree)
  {
  }

  /** Without a remote no ref moves and no commit is made; the directory
      is replaced by the local ref's tree, so edits made since the last
      audit commit are discarded. */
  lemma SyncWithoutRemote(s: Repo, w: World)
    requires Consistent(s) && RefIn(s.graph, w.fetched) && w.isRepo && w.hasOrigin
    requires Remote(s, w).None?
    ensures var r := Sync(s, w);
      && r.repo.graph == s.graph && r.repo.local == s.local
      && r.repo.work == Some(TreeOf(s.graph, s.local))
  {
  }

  // ---------------------------------------------------------------------
  // Concrete consequences of the table
  // ---------------------------------------------------------------------

  /** A remote commit holding one file. */
  const RemoteTree: Tree := map["r" := "remote"]
  /** A working directory holding another. */
  const LocalTree: Tree := map["l" := "local"]
  /** A store with only the remote's commit, fetched, and no local ref. */
  const Fresh: Repo := Repo([Commit(RemoteTree, [], "remote")], None, None, Some(LocalTree))
  const Fetching: World := World(true, true, Some(0))

  /** With local content, the remote's commit ends up outside the local
      ref's history and its file is removed from the directory: what a
      later push sends forgets the remote. */
  lemma SyncForgetsRemote()
    ensures Consistent(Fresh) && RefIn(Fresh.graph, Fetching.fetched)
    ensures var r := Sync(Fresh, Fetching).repo;
      && r.local == Some(1)
      && !IsAncestor(r.graph, 0, 1)
      && r.work == Some(LocalTree) && "r" !in r.work.value
  {
    var r := Sync(Fresh, Fetching).repo;
    assert r.graph[1].parents == [];
  }

  /** Unlike the Go engine, a second sync right after a successful one
      commits again whenever the remote is still there and the local tree
      is not empty. */
  lemma SecondSyncCommitsAgain(s: Repo, w: World)
    requires Consistent(s) && RefIn(s.graph, w.fetched) && w.isRepo && w.hasOrigin
    requires w.fetched.Some?
    requires var r1 := Sync(s, w).repo; |TreeOf(r1.graph, r1.local)| > 0
    ensures var r1 := Sync(s, w).repo; var r2 := Sync(r1, w).repo;
      |r2.graph| == |r1.graph| + 1 && r2.local == Some(|r1.graph|)
  {
  }

  /** With no remote at all, syncing twice makes no commit either time. */
  lemma SyncWithoutRemoteIsQuiet(s: Repo, w: World)
    requires Consistent(s) && RefIn(s.graph, w.fetched) && w.fetched.None? && s.tracking.None?
    ensures var r1 := Sync(s, w).repo; var r2 := Sync(r1, w).repo;
      r2.graph == s.graph && r2.local == s.local
  {
  }
}
