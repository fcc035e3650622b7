/** The Go prototype's entry point (cmd/yx/main.go): where the yaks
    directory lives, the checks made before a command runs, and the
    start-up migration of legacy `done` marker files. */
module GoMain {
  import opened Types
  import opened Strings
  import opened YakStates
  import opened Yaks
  import opened TaskTree
  import GoRepository

  /** The work tree: `GIT_WORK_TREE` when set and non-empty, else the
      current directory; a relative value is taken below the current
      directory. `wd` is the (absolute) current directory. */
  function WorkTree(gitWorkTree: string, wd: string): (w: string)
    ensures gitWorkTree == "" ==> w == wd
    ensures gitWorkTree != "" && gitWorkTree[0] == '/' ==> w == gitWorkTree
    ensures gitWorkTree != "" && gitWorkTree[0] != '/' ==> w == wd + "/" + gitWorkTree
  {
    if gitWorkTree == "" then wd
    else if gitWorkTree[0] == '/' then gitWorkTree
    else wd + "/" + gitWorkTree
  }

  /** The yaks directory is `.yaks` directly inside the work tree. */
  function YaksPath(workTree: string): (p: string)
    ensures IsPrefix(workTree + "/", p) && p[|workTree| + 1..] == ".yaks"
  {
    workTree + "/" + ".yaks"
  }

  /** An absolute current directory gives an absolute yaks path. */
  lemma YaksPathAbsolute(gitWorkTree: string, wd: string)
    requires |wd| > 0 && wd[0] == '/'
    ensures YaksPath(WorkTree(gitWorkTree, wd))[0] == '/'
  {
  }

  /** `isGitIgnored`: an unreadable `.gitignore` (None) means not ignored;
      otherwise the text only has to contain ".yaks" somewhere. */
  function IsGitIgnored(gitignore: Option<string>): (b: bool)
    ensures b <==> gitignore.Some? && Contains(gitignore.value, ".yaks")
  {
    gitignore.Some? && Contains(gitignore.value, ".yaks")
  }

  /** The check is a substring test, so a line re-including `.yaks`
      (`!.yaks`) also passes it. */
  lemma NegatedEntryCountsAsIgnored()
    ensures IsGitIgnored(Some("!.yaks\n"))
  {
    assert OccursAt("!.yaks\n", ".yaks", 1);
  }

  /** What `main` does before handing the arguments to the CLI. */
  datatype Gate =
    | HelpOnly          // `--help` first: run the CLI without checks or migration
    | Refuse(message: string)   // print the message, exit 1
    | Proceed           // migrate, then run the CLI

  const NotARepository: string := "Error: not in a git repository"
  const NotIgnored: string := "Error: .yaks folder is not gitignored"

  /** The pre-command gating of `main`. `hasDotGit` is whether `.git`
      exists in the work tree; `isRepository` is the git adapter's answer;
      `gitignore` is the readable content of `.gitignore`, if any. With no
      arguments nothing is checked. */
  function Startup(args: seq<string>, hasDotGit: bool, isRepository: bool, gitignore: Option<string>): (g: Gate)
    ensures |args| > 0 && args[0] == "--help" ==> g == HelpOnly
    ensures |args| == 0 ==> g == Proceed
    ensures g.Refuse? <==>
      && |args| > 0 && args[0] != "--help"
      && (!hasDotGit || (isRepository && !IsGitIgnored(gitignore)))
    ensures g.Refuse? ==> g.message == (if !hasDotGit then NotARepository else NotIgnored)
  {
    if |args| > 0 && args[0] == "--help" then HelpOnly
    else if |args| > 0 && !hasDotGit then Refuse(NotARepository)
    else if |args| > 0 && isRepository && !IsGitIgnored(gitignore) then Refuse(NotIgnored)
    else Proceed
  }

  /** `migrateOldDoneFiles`: every directory holding a regular file named
      `done`, the base included and hidden directories included, gets a
      state file saying "done" (overwriting any other) and loses the
      marker. Nothing happens without a yaks directory; write errors are
      ignored. */
  function MigrateOldDoneFiles(m: Nodes): (r: Nodes)
    ensures r.Keys == m.Keys
    ensures "" !in m ==> r == m
    ensures "" in m ==> forall k :: k in m ==> r[k] == if m[k].doneMarker then Migrated(m[k]) else m[k]
  {
    if "" !in m then m
    else map k | k in m :: if m[k].doneMarker then Migrated(m[k]) else m[k]
  }

  /** After migration no marker is left, every directory that had one is
      listed as a done yak, and a second run changes nothing. */
  lemma MigrateOldDoneFilesEffect(m: Nodes)
    requires "" in m
    ensures var r := MigrateOldDoneFiles(m);
      && (forall k :: k in r ==> !r[k].doneMarker)
      && (forall k :: k in m && k != "" && m[k].doneMarker ==>
            k in GoRepository.Listed(r) && GoRepository.Load(r, k).state == Done)
      && MigrateOldDoneFiles(r) == r
  {
    ParseAsStr(Done);
    var r := MigrateOldDoneFiles(m);
    assert forall k :: k in r ==> MigrateOldDoneFiles(r)[k] == r[k];
  }

  /** Migration only rewrites state files, so the store stays a tree. */
  lemma MigrateKeepsValid(m: Nodes)
    requires Valid(m)
    ensures Valid(MigrateOldDoneFiles(m))
  {
    SameKeysValid(m, MigrateOldDoneFiles(m));
  }
}
