/** The Rust prototype's entry point (main.rs): the command line, where the
    yaks directory lives, the start-up migration, the precondition check
    and the dispatch to the application layer. */
module RustMain {
  import opened Types
  import opened Strings
  import opened YakStates
  import opened TaskTree
  import opened RustStorage
  import opened RustApp
  import Display
  import RustTerminal
  import GoMain

  // ---------------------------------------------------------------------
  // Arguments
  // ---------------------------------------------------------------------

  /** The subcommands, with their arguments as the parser hands them over:
      name words not yet joined, option values not yet parsed. */
  datatype Command =
    | AddCmd(words: seq<string>)
    | ListCmd(format: Option<string>, only: Option<string>)
    | DoneCmd(undo: bool, recursive: bool, words: seq<string>)
    | RmCmd(words: seq<string>)
    | PruneCmd
    | MoveCmd(oldName: string, newWords: seq<string>)
    | ContextCmd(show: bool, words: seq<string>)
    | SyncCmd
    | CompletionsCmd(cmd: Option<string>, flag: Option<string>)

  /** `parse_format`: "plain" and "raw" are plain, anything else (no
      value included) is markdown. */
  function ParseFormat(format: Option<string>): (f: Display.Format)
    ensures f == Display.Plain <==> format == Some("plain") || format == Some("raw")
  {
    match format
    case Some("plain") => Display.Plain
    case Some("raw") => Display.Plain
    case _ => Display.Markdown
  }

  /** `parse_filter`: "not-done" and "done" select those states, anything
      else shows all. */
  function ParseFilter(only: Option<string>): (f: Display.Filter)
    ensures f == Display.NotDone <==> only == Some("not-done")
    ensures f == Display.DoneOnly <==> only == Some("done")
  {
    match only
    case Some("not-done") => Display.NotDone
    case Some("done") => Display.DoneOnly
    case _ => Display.All
  }

  /** The option value that names a format, and the one that names a
      filter (none for all). */
  function FormatName(f: Display.Format): string {
    match f
    case Plain => "plain"
    case Markdown => "markdown"
  }

  function FilterName(f: Display.Filter): Option<string> {
    match f
    case All => None
    case NotDone => Some("not-done")
    case DoneOnly => Some("done")
  }

  /** Every format and filter can be asked for by name. */
  lemma ParseNames(f: Display.Format, filter: Display.Filter)
    ensures ParseFormat(Some(FormatName(f))) == f
    ensures ParseFilter(FilterName(filter)) == filter
  {
  }

  /** The name the commands act on: the words joined by single spaces;
      `add` takes no words to mean "read names from standard input". */
  function NameArg(words: seq<string>): (name: Option<string>)
    ensures name.None? <==> words == []
    ensures |words| == 1 ==> name == Some(words[0])
    ensures name.Some? ==> name.value == Join(words, " ")
  {
    if words == [] then None else Some(Join(words, " "))
  }

  // ---------------------------------------------------------------------
  // Paths
  // ---------------------------------------------------------------------

  /** `get_work_tree`: `GIT_WORK_TREE` as it is when it is set (even
      empty), else the current directory. */
  function WorkTree(gitWorkTree: Option<string>, cwd: string): (w: string)
    ensures gitWorkTree.Some? ==> w == gitWorkTree.value
    ensures gitWorkTree.None? ==> w == cwd
  {
    gitWorkTree.GetOr(cwd)
  }

  /** `PathBuf::join` with a relative component: a separator is added
      only when the base is non-empty and does not already end in one. */
  function JoinPath(base: string, name: string): (p: string)
    ensures |p| == |base| + |name| + (if base == "" || base[|base| - 1] == '/' then 0 else 1)
    ensures IsPrefix(base, p) && p[|p| - |name|..] == name
  {
    if base == "" || base[|base| - 1] == '/' then base + name else base + "/" + name
  }

  /** `get_yaks_path`: `.yaks` inside the work tree. */
  function YaksPath(workTree: string): (p: string)
    ensures |p| >= |workTree| + 5 && IsPrefix(workTree, p) && p[|p| - 5..] == ".yaks"
  {
    JoinPath(workTree, ".yaks")
  }

  /** For a non-empty work tree without a trailing separator both
      prototypes put the yaks directory in the same place; a work tree
      that is set but empty means the current directory here but not in
      the Go prototype, which falls back to the current directory. */
  lemma YaksPathAgreesWithGo(workTree: string, cwd: string)
    requires workTree != "" && workTree[|workTree| - 1] != '/'
    ensures YaksPath(workTree) == GoMain.YaksPath(workTree)
    ensures YaksPath(WorkTree(Some(""), cwd)) == ".yaks"
    ensures GoMain.WorkTree("", cwd) == cwd
  {
  }

  // ---------------------------------------------------------------------
  // Running a command
  // ---------------------------------------------------------------------

  /** What the command sees of the outside world: the answers of git
      for the precondition check, the order in which `list` walks the
      visible yak directories, the order in which the start-up migration
      walks every directory below the base (hidden ones included), the
      lines of standard input, the clock, whether `log_command` fails, and
      the error of the git adapter's `sync`, if any. */
  datatype Env = Env(
    isRepo: bool, ignored: Option<bool>, walk: seq<string>, dirs: seq<string>,
    stdin: seq<string>, now: int, logFails: bool, syncErr: Option<string>)

  /** What a run leaves: the store, the lines printed, and the error
      reported on standard error. */
  datatype Exit = Exit(store: Nodes, out: seq<string>, err: Option<AppError>)

  /** `main`: an error exits with 1, everything else with 0. */
  function ExitCode(e: Exit): (code: int)
    ensures code == 0 || code == 1
    ensures code == 0 <==> e.err.None?
  {
    if e.err.Some? then 1 else 0
  }

  /** The first line of the usage text printed without a subcommand. */
  const UsageHeader: string := "Usage: yx <command> [arguments]"

  /** Building the application runs `migrate_done_to_state` as written
      over the walk of every directory and drops its error: a failure
      stops the migration where it happened and keeps what was written.
      Nothing happens without a base directory; no name appears or
      disappears, only walked directories below the base change, and a
      change only writes the state "done". */
  function Startup(m: Nodes, dirs: seq<string>): (r: Nodes)
    ensures r.Keys == m.Keys && Visible(r) == Visible(m)
    ensures "" !in m ==> r == m
    ensures forall k :: k in m && (k !in dirs || k == "") ==> r[k] == m[k]
    ensures forall k :: k in m ==> && r[k].context == m[k].context && r[k].mtime == m[k].mtime
                                   && (r[k] == m[k] || r[k].stateFile == Some("done"))
  {
    MigrateDoneToState(m, dirs).store
  }

  /** Where no walked directory has a child named `done`, the start-up
      migration is the corrected one, which only looks at marker files;
      over a walk of every directory it then leaves no marker below the
      base. */
  lemma StartupAgrees(m: Nodes, dirs: seq<string>)
    requires forall k :: k in dirs && k in m && k != "" ==> DoneEntry(k) !in m
    ensures MigrateDoneToState(m, dirs).err.None?
    ensures "" in m ==> Startup(m, dirs) == MigrateMarkers(m, dirs)
    ensures "" in m && (forall k :: k in m && k != "" ==> k in dirs) ==>
      forall k :: k in m && k != "" ==> !Startup(m, dirs)[k].doneMarker
  {
    if "" in m {
      MigrateWalkAgrees(m, dirs);
      if forall k :: k in m && k != "" ==> k in dirs {
        MigrateMarkersClears(m, dirs);
      }
    }
  }

  function FromStep(s: Step, out: seq<string>): Exit {
    Exit(s.store, out, s.err)
  }

  /** The arm of `run`'s match for one command, on a store that has been
      migrated. */
  function Dispatch(m: Nodes, c: Command, env: Env): (r: Exit)
    requires IsWalk(m, env.walk)
    ensures c.ListCmd? ==> r.store == m && r.err.None? && |r.out| == 1
    ensures c.SyncCmd? ==> r == Exit(m, [], if env.syncErr.Some? then Some(SyncFailed(env.syncErr.value)) else None)
    ensures c.ContextCmd? && c.show ==> r.store == m
    ensures c.CompletionsCmd? ==> r.err.None? && r.store == m
    ensures c.CompletionsCmd? ==> forall k :: k in r.out <==>
      k in Visible(m) && Display.ShouldDisplay(ReadState(m[k]), CompletionFilter(c.cmd, c.flag))
    ensures c.PruneCmd? ==> forall k :: k in r.store ==> k in m && r.store[k] == m[k]
    ensures c.PruneCmd? && !env.logFails && DoneFlat(m) ==>
      r.err.None? && forall k :: k in Visible(r.store) ==> ReadState(r.store[k]) == Todo
  {
    match c
    case AddCmd(words) => AddExit(m, env, NameArg(words))
    case ListCmd(format, only) => ListExit(m, env, format, only)
    case DoneCmd(undo, recursive, words) => DoneExit(m, env, undo, recursive, Join(words, " "))
    case RmCmd(words) => RmExit(m, env, Join(words, " "))
    case PruneCmd => PruneExit(m, env)
    case MoveCmd(oldName, newWords) => MoveExit(m, env, oldName, Join(newWords, " "))
    case ContextCmd(show, words) => ContextExit(m, env, show, Join(words, " "))
    case SyncCmd =>
      Exit(m, [], if env.syncErr.Some? then Some(SyncFailed(env.syncErr.value)) else None)
    case CompletionsCmd(cmd, flag) => CompletionsExit(m, env, cmd, flag)
  }

  /** The `add` arm of the dispatch: without a name the prompt is printed
      and names are read from standard input. */
  function AddExit(m: Nodes, env: Env, name: Option<string>): (r: Exit)
    ensures name.None? ==> r.out == [AddPrompt]
    ensures name.Some? ==> r.out == []
  {
    FromStep(AddYak(m, name, env.stdin, env.now, env.logFails), if name.None? then [AddPrompt] else [])
  }

  /** The `move` arm of the dispatch. */
  function MoveExit(m: Nodes, env: Env, oldName: string, newName: string): (r: Exit)
    ensures r.out == []
  {
    FromStep(RenameYak(m, oldName, newName, env.now, env.logFails), [])
  }

  /** The `list` arm of the dispatch: one listing, nothing written. */
  function ListExit(m: Nodes, env: Env, format: Option<string>, only: Option<string>): (r: Exit)
    requires IsWalk(m, env.walk)
    ensures r.store == m && r.err.None? && |r.out| == 1
  {
    var listing := RustTerminal.FormatYakList(ListYaks(m, env.walk), ParseFormat(format), ParseFilter(only));
    Exit(m, [listing], None)
  }

  /** The `done` arm of the dispatch. */
  function DoneExit(m: Nodes, env: Env, undo: bool, recursive: bool, name: string): (r: Exit)
    ensures r.store.Keys <= m.Keys
  {
    FromStep(DoneYak(m, name, undo, recursive, env.logFails), [])
  }

  /** The `rm` arm of the dispatch. */
  function RmExit(m: Nodes, env: Env, name: string): (r: Exit)
    ensures r.store.Keys <= m.Keys
  {
    FromStep(RemoveYak(m, name, env.logFails), [])
  }

  /** The `context` arm of the dispatch: `--show` writes nothing. */
  function ContextExit(m: Nodes, env: Env, show: bool, name: string): (r: Exit)
    ensures show ==> r.store == m
    ensures r.store.Keys <= m.Keys
  {
    if show then
      match ShowContext(m, name)
      case Ok(view) => Exit(m, [view], None)
      case Err(e) => Exit(m, [], Some(e))
    else FromStep(EditContext(m, name, None, env.stdin, env.logFails), [])
  }

  /** The `prune` arm of the dispatch: `prune` as written, which stops at
      the first removal that fails. Only whole yaks disappear; where no
      done yak lies below another, nothing fails and no visible yak is
      left done. */
  function PruneExit(m: Nodes, env: Env): (r: Exit)
    requires IsWalk(m, env.walk)
    ensures r.out == []
    ensures forall k :: k in r.store ==> k in m && r.store[k] == m[k]
    ensures !env.logFails && DoneFlat(m) ==>
      r.err.None? && forall k :: k in Visible(r.store) ==> ReadState(r.store[k]) == Todo
  {
    var s := Prune(m, env.walk, env.logFails);
    assert !env.logFails && DoneFlat(m) ==> s.err.None? && forall k :: k in Visible(s.store) ==> ReadState(s.store[k]) == Todo by {
      if !env.logFails && DoneFlat(m) {
        PruneAgrees(m, env.walk);
      }
    }
    FromStep(s, [])
  }

  /** The `completions` arm of the dispatch. */
  function CompletionsExit(m: Nodes, env: Env, cmd: Option<string>, flag: Option<string>): (r: Exit)
    requires IsWalk(m, env.walk)
    ensures r.err.None? && r.store == m
    ensures forall k :: k in r.out <==>
      k in Visible(m) && Display.ShouldDisplay(ReadState(m[k]), CompletionFilter(cmd, flag))
  {
    CompletionsOfWalk(m, env.walk, cmd, flag);
    Exit(m, Completions(m, env.walk, cmd, flag), None)
  }

  /** What `Completions` offers over a walk is read off the visible yaks. */
  lemma CompletionsOfWalk(m: Nodes, walk: seq<string>, cmd: Option<string>, flag: Option<string>)
    requires IsWalk(m, walk)
    ensures forall k :: k in Completions(m, walk, cmd, flag) <==>
      k in Visible(m) && Display.ShouldDisplay(ReadState(m[k]), CompletionFilter(cmd, flag))
  {
  }

  /** `run` as written: without a subcommand print the usage and stop;
      otherwise build the application (migrating), check the
      preconditions, and only then look at the command, so `completions`
      is refused wherever the check fails. */
  function Run(m: Nodes, c: Option<Command>, env: Env): (r: Exit)
    requires IsWalk(m, env.walk)
    ensures c.None? ==> r == Exit(m, [UsageHeader], None)
    ensures c.Some? && CheckPreconditions(env.isRepo, env.ignored).Some? ==>
      r == Exit(Startup(m, env.dirs), [], CheckPreconditions(env.isRepo, env.ignored))
  {
    if c.None? then Exit(m, [UsageHeader], None)
    else
      var m1 := Startup(m, env.dirs);
      match CheckPreconditions(env.isRepo, env.ignored)
      case Some(e) => Exit(m1, [], Some(e))
      case None =>
        var r := DispatchMigrated(m1, c.value, env);
        r
  }

  /** Dispatch after the start-up migration; `completions` builds a
      second application, which migrates once more. */
  function DispatchMigrated(m: Nodes, c: Command, env: Env): (r: Exit)
    requires IsWalk(m, env.walk)
    ensures !c.CompletionsCmd? ==> r == Dispatch(m, c, env)
    ensures c.CompletionsCmd? ==> r == Dispatch(Startup(m, env.dirs), c, env)
  {
    var m1 := if c.CompletionsCmd? then Startup(m, env.dirs) else m;
    Dispatch(m1, c, env)
  }

  /** No command creates a name it was not given; this holds for the
      store's keys after every command but `add` and `move`. */
  lemma DispatchKeepsNames(m: Nodes, c: Command, env: Env)
    requires IsWalk(m, env.walk)
    ensures !c.AddCmd? && !c.MoveCmd? ==> Dispatch(m, c, env).store.Keys <= m.Keys
  {
  }

  /** `run` as evidently intended: `completions` skips the precondition
      check, every other command is unchanged. */
  function RunSkippingChecks(m: Nodes, c: Option<Command>, env: Env): (r: Exit)
    requires IsWalk(m, env.walk)
    ensures c.None? ==> r == Exit(m, [UsageHeader], None)
    ensures c.Some? && c.value.CompletionsCmd? ==> r.err.None?
  {
    if c.Some? && c.value.CompletionsCmd? then DispatchMigrated(Startup(m, env.dirs), c.value, env)
    else Run(m, c, env)
  }

  /** Both versions agree on every command but `completions`, and on
      `completions` too wherever the preconditions hold. */
  lemma RunSkippingChecksAgrees(m: Nodes, c: Option<Command>, env: Env)
    requires IsWalk(m, env.walk)
    requires c.None? || !c.value.CompletionsCmd? || CheckPreconditions(env.isRepo, env.ignored).None?
    ensures RunSkippingChecks(m, c, env) == Run(m, c, env)
  {
  }

  /** Outside a git repository `completions` fails with exit code 1 and
      prints nothing, although the command is meant to skip the check;
      the corrected run offers the migrated store's yaks that pass the
      filter and exits with 0. */
  lemma CompletionsOutsideRepository(m: Nodes, cmd: Option<string>, flag: Option<string>, env: Env)
    requires IsWalk(m, env.walk) && !env.isRepo
    ensures var r := Run(m, Some(CompletionsCmd(cmd, flag)), env);
      ExitCode(r) == 1 && r.out == [] && r.err == Some(Precondition(NotRepositoryMessage))
    ensures var r := RunSkippingChecks(m, Some(CompletionsCmd(cmd, flag)), env);
      var m2 := Startup(Startup(m, env.dirs), env.dirs);
      && ExitCode(r) == 0
      && forall k :: k in r.out <==> k in Visible(m2) && Display.ShouldDisplay(ReadState(m2[k]), CompletionFilter(cmd, flag))
  {
  }
}
