/** The Go prototype's git adapter (adapters/git/sync.go): audit commits on
    `refs/notes/yaks` and the `sync` decision engine that reconciles the
    local ref with the ref fetched from origin. */
module GoSync {
  import opened Types
  import opened CommitGraph

  /** What the outside world answers during one sync: whether this is a
      repository with an origin remote, what the fetch brought (None when
      it failed), whether comparing the working tree failed, and the tree
      `git merge-tree` would produce (None when it fails). */
  datatype World = World(isRepo: bool, hasOrigin: bool, fetched: Option<nat>, compareFails: bool, merged: Option<Tree>)

  const NotRepository: string := "not in a git repository"
  const NoOrigin: string := "no origin remote configured"
  const MergeFailed: string := "ERROR: git merge-tree failed unexpectedly"

  // ---------------------------------------------------------------------
  // LogCommand
  // ---------------------------------------------------------------------

  /** `LogCommand`: outside a repository, or without a yaks directory,
      nothing happens; otherwise the directory's files are committed on top
      of the local ref, which then names the new commit. */
  function LogCommand(s: Repo, isRepo: bool, message: string): (r: Repo)
    requires Consistent(s)
    ensures Consistent(r) && r.tracking == s.tracking && r.work == s.work
    ensures !isRepo || s.work.None? ==> r == s
    ensures isRepo && s.work.Some? ==>
      && r.graph == s.graph + [Commit(s.work.value, ParentsOf(s.local), message)]
      && r.local == Some(|s.graph|)
  {
    if !isRepo then s
    else match s.work
      case None => s
      case Some(files) =>
        var g := Append(s.graph, files, ParentsOf(s.local), message);
        s.(graph := g, local := Some(|s.graph|))
  }

  /** Each audit commit descends from the previous local ref, so logging
      never drops history. */
  lemma LogCommandExtendsHistory(s: Repo, message: string)
    requires Consistent(s) && s.local.Some? && s.work.Some?
    ensures var r := LogCommand(s, true, message);
      IsAncestor(r.graph, s.local.value, r.local.value)
  {
    NewCommitDescends(s.graph, s.work.value, ParentsOf(s.local), message, 0, s.local.value);
  }

  // ---------------------------------------------------------------------
  // The decision
  // ---------------------------------------------------------------------

  /** `detectLocalChanges`: with no local ref, whether the yaks directory
      has any entry; with one, whether the directory differs from the ref's
      tree. A missing directory or a failed comparison is no change. */
  function LocalChanges(g: Graph, local: Option<nat>, work: Option<Tree>, compareFails: bool): (b: bool)
    requires RefIn(g, local)
    ensures b ==> work.Some?
    ensures local.None? ==> (b <==> work.Some? && !compareFails && |work.value| > 0)
    ensures local.Some? ==> (b <==> work.Some? && !compareFails && work.value != g[local.value].tree)
  {
    if work.None? || compareFails then false
    else if local.None? then |work.value| > 0
    else work.value != g[local.value].tree
  }

  /** The branches `Sync` can take. */
  datatype Decision =
    | OverlayCommit   // commit the local files over the remote tree, on top of the remote
    | LocalCommit     // commit the local files on top of the local ref
    | AdoptRemote     // no local ref yet: take the remote one
    | KeepLocal       // nothing to take from the remote
    | FastForward     // the local ref is behind: move it to the remote
    | MergeCommit     // the refs diverged: merge them
    | NoChange        // the refs agree

  /** The decision of `Sync` and `mergeLocalAndRemote`. */
  function Decide(g: Graph, local: Option<nat>, remote: Option<nat>, changes: bool): (d: Decision)
    requires WellFormed(g) && RefIn(g, local) && RefIn(g, remote)
    ensures d == OverlayCommit <==> changes && remote.Some?
    ensures d == LocalCommit <==> changes && remote.None?
    ensures d == AdoptRemote <==> !changes && local.None? && remote.Some?
    ensures d == NoChange <==> !changes && local == remote
    ensures d == KeepLocal <==>
      (!changes && local.Some? && (remote.None? || (remote != local && IsAncestor(g, remote.value, local.value))))
    ensures d == FastForward <==>
      (!changes && local.Some? && remote.Some? &&
       !IsAncestor(g, remote.value, local.value) && IsAncestor(g, local.value, remote.value))
    ensures d == MergeCommit <==>
      (!changes && local.Some? && remote.Some? &&
       !IsAncestor(g, remote.value, local.value) && !IsAncestor(g, local.value, remote.value))
  {
    if changes && remote.Some? then OverlayCommit
    else if changes then LocalCommit
    else if local.None? && remote.Some? then AdoptRemote
    else if local.Some? && remote.None? then KeepLocal
    else if local.Some? && remote.Some? && local != remote then
      if IsAncestor(g, remote.value, local.value) then KeepLocal
      else if IsAncestor(g, local.value, remote.value) then FastForward
      else MergeCommit
    else NoChange
  }

  // ---------------------------------------------------------------------
  // Sync
  // ---------------------------------------------------------------------

  /** The ref-moving part of `Sync`, once the fetch is done. */
  function Reconcile(s: Repo, d: Decision, merged: Option<Tree>): (r: Result<Repo, string>)
    requires Consistent(s)
    requires d == OverlayCommit || d == AdoptRemote || d == FastForward || d == MergeCommit ==> s.tracking.Some?
    requires d == OverlayCommit || d == LocalCommit ==> s.work.Some?
    requires d == MergeCommit ==> s.local.Some?
    ensures r.Ok? ==> Consistent(r.value) && r.value.tracking == s.tracking
    ensures r.Ok? ==> s.graph <= r.value.graph && |r.value.graph| <= |s.graph| + 1
    ensures r.Err? <==> d == MergeCommit && merged.None?
  {
    match d
    case OverlayCommit =>
      var t := Overlay(s.graph[s.tracking.value].tree, s.work.value);
      Ok(s.(graph := Append(s.graph, t, [s.tracking.value], "sync"), local := Some(|s.graph|), work := Some(t)))
    case LocalCommit => Ok(LogCommand(s, true, "sync"))
    case AdoptRemote => Ok(s.(local := s.tracking))
    case FastForward => Ok(s.(local := s.tracking))
    case MergeCommit =>
      if merged.None? then Err(MergeFailed)
      else Ok(s.(graph := Append(s.graph, merged.value, [s.local.value, s.tracking.value], "Merge yaks"),
                 local := Some(|s.graph|)))
    case KeepLocal => Ok(s)
    case NoChange => Ok(s)
  }

  /** `Sync`: check the repository and the remote, fetch, decide, move the
      refs, push when there is a local ref (ignoring the result), then
      extract the local ref into the yaks directory. */
  function Sync(s: Repo, w: World): (r: Synced)
    requires Consistent(s) && RefIn(s.graph, w.fetched)
    ensures !w.isRepo ==> r == Synced(s, false, Some(NotRepository))
    ensures w.isRepo && !w.hasOrigin ==> r == Synced(s, false, Some(NoOrigin))
    ensures Consistent(r.repo)
    ensures s.graph <= r.repo.graph && |r.repo.graph| <= |s.graph| + 1
    ensures r.err.None? ==> r.repo.tracking.None? && r.repo.work == Some(TreeOf(r.repo.graph, r.repo.local))
    ensures r.err.None? ==> r.pushed == r.repo.local.Some?
    ensures r.err.Some? && w.isRepo && w.hasOrigin ==>
      r.err == Some(MergeFailed) && r.repo.graph == s.graph && r.repo.local == s.local && r.repo.work == s.work
  {
    if !w.isRepo then Synced(s, false, Some(NotRepository))
    else if !w.hasOrigin then Synced(s, false, Some(NoOrigin))
    else
      var s1 := s.(tracking := if w.fetched.Some? then w.fetched else s.tracking);
      var d := Decide(s1.graph, s1.local, s1.tracking, LocalChanges(s1.graph, s1.local, s1.work, w.compareFails));
      match Reconcile(s1, d, w.merged)
      case Err(e) => Synced(s1, false, Some(e))
      case Ok(s2) => Synced(Extract(s2), s2.local.Some?, None)
  }

  /** The remote ref `Sync` works with: the fetched one, or the tracking
      ref left from before when the fetch failed. */
  function Remote(s: Repo, w: World): Option<nat> {
    if w.fetched.Some? then w.fetched else s.tracking
  }

  /** The branch `Sync` takes in a repository with an origin remote. */
  function Branch(s: Repo, w: World): Decision
    requires Consistent(s) && RefIn(s.graph, w.fetched)
  {
    Decide(s.graph, s.local, Remote(s, w), LocalChanges(s.graph, s.local, s.work, w.compareFails))
  }

  /** Local changes with a remote: one commit of the local files over the
      remote tree, whose only parent is the remote, becomes the local ref. */
  lemma SyncOverlay(s: Repo, w: World)
    requires Consistent(s) && RefIn(s.graph, w.fetched) && w.isRepo && w.hasOrigin
    requires Branch(s, w) == OverlayCommit
    ensures var r := Sync(s, w); var remote := Remote(s, w).value;
      && r.err.None?
      && r.repo.graph == s.graph + [Commit(Overlay(s.graph[remote].tree, s.work.value), [remote], "sync")]
      && r.repo.local == Some(|s.graph|)
  {
  }

  /** Local changes without a remote: one commit of the local files whose
      only parent is the previous local ref, if any. */
  lemma SyncLocalCommit(s: Repo, w: World)
    requires Consistent(s) && RefIn(s.graph, w.fetched) && w.isRepo && w.hasOrigin
    requires Branch(s, w) == LocalCommit
    ensures var r := Sync(s, w);
      && r.err.None?
      && r.repo.graph == s.graph + [Commit(s.work.value, ParentsOf(s.local), "sync")]
      && r.repo.local == Some(|s.graph|)
  {
  }

  /** Without local changes no commit is made except to merge diverged
      refs, and the local ref ends where the decision table says. */
  lemma SyncWithoutChanges(s: Repo, w: World)
    requires Consistent(s) && RefIn(s.graph, w.fetched) && w.isRepo && w.hasOrigin
    requires Branch(s, w) != OverlayCommit && Branch(s, w) != LocalCommit && Branch(s, w) != MergeCommit
    ensures var r := Sync(s, w);
      && r.err.None? && r.repo.graph == s.graph
      && r.repo.local == if Branch(s, w) in {AdoptRemote, FastForward} then Remote(s, w) else s.local
  {
  }

  /** Diverged refs: a merge commit with parents [local, remote], or the
      merge-tree error with nothing moved. */
  lemma SyncMerge(s: Repo, w: World)
    requires Consistent(s) && RefIn(s.graph, w.fetched) && w.isRepo && w.hasOrigin
    requires Branch(s, w) == MergeCommit
    ensures var r := Sync(s, w);
      && (w.merged.None? <==> r.err == Some(MergeFailed))
      && (w.merged.Some? ==>
            && r.repo.graph == s.graph + [Commit(w.merged.value, [s.local.value, Remote(s, w).value], "Merge yaks")]
            && r.repo.local == Some(|s.graph|))
  {
  }

  /** A successful sync never loses the remote's history: the remote ref
      is an ancestor of the new local ref. */
  lemma SyncKeepsRemote(s: Repo, w: World)
    requires Consistent(s) && RefIn(s.graph, w.fetched) && w.isRepo && w.hasOrigin
    requires Remote(s, w).Some? && Sync(s, w).err.None?
    ensures var r := Sync(s, w).repo;
      r.local.Some? && IsAncestor(r.graph, Remote(s, w).value, r.local.value)
  {
    var remote := Remote(s, w).value;
    var d := Branch(s, w);
    var r := Sync(s, w).repo;
    if d == OverlayCommit {
      var t := Overlay(s.graph[remote].tree, s.work.value);
      NewCommitDescends(s.graph, t, [remote], "sync", 0, remote);
    } else if d == MergeCommit {
      NewCommitDescends(s.graph, w.merged.value, [s.local.value, remote], "Merge yaks", 1, remote);
    }
  }

  /** Except for the overlay commit, which sits on top of the remote only,
      a successful sync keeps the old local ref in the new one's history. */
  lemma SyncKeepsLocal(s: Repo, w: World)
    requires Consistent(s) && RefIn(s.graph, w.fetched) && w.isRepo && w.hasOrigin
    requires s.local.Some? && Branch(s, w) != OverlayCommit && Sync(s, w).err.None?
    ensures var r := Sync(s, w).repo;
      r.local.Some? && IsAncestor(r.graph, s.local.value, r.local.value)
  {
    var d := Branch(s, w);
    var local := s.local.value;
    if d == LocalCommit {
      NewCommitDescends(s.graph, s.work.value, ParentsOf(s.local), "sync", 0, local);
    } else if d == MergeCommit {
      NewCommitDescends(s.graph, w.merged.value, [local, Remote(s, w).value], "Merge yaks", 0, local);
    }
  }

  /** Syncing again with no edit in between and the same answer from the
      remote makes no commit and moves no ref: the extraction left the
      yaks directory equal to the local ref's tree. */
  lemma SecondSyncIsQuiet(s: Repo, w: World)
    requires Consistent(s) && RefIn(s.graph, w.fetched) && Sync(s, w).err.None?
    requires w.fetched == Remote(s, w)
    ensures var r1 := Sync(s, w).repo; var r2 := Sync(r1, w);
      && r2.err.None? && r2.repo.graph == r1.graph && r2.repo.local == r1.local && r2.repo.work == r1.work
  {
    var r1 := Sync(s, w).repo;
    if w.isRepo && w.hasOrigin {
      assert !LocalChanges(r1.graph, r1.local, r1.work, w.compareFails);
      var remote := Remote(s, w);
      assert Remote(r1, w) == remote;
      if remote.Some? {
        SyncKeepsRemote(s, w);
      }
    }
  }

  /** An empty yaks directory with no local ref syncs to the remote ref
      unchanged: the local ref adopts it, no commit is made, and the
      directory becomes its tree. */
  lemma SyncAdoptsRemoteIntoEmpty(s: Repo, w: World)
    requires Consistent(s) && RefIn(s.graph, w.fetched) && w.isRepo && w.hasOrigin
    requires s.local.None? && Remote(s, w).Some? && (s.work.None? || s.work.value == map[])
    ensures var r := Sync(s, w);
      && r.err.None? && r.pushed && r.repo.graph == s.graph && r.repo.local == Remote(s, w)
      && r.repo.work == Some(s.graph[Remote(s, w).value].tree)
  {
  }
}
