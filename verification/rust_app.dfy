/** The Rust prototype's application layer (app.rs): every command resolves
    its name through the store, performs its writes and then hands an audit
    message to git's `log_command`. Unlike the Go CLI, any failure, the
    audit log's included, is the command's error. */
module RustApp {
  import opened Types
  import opened Strings
  import opened YakStates
  import opened Yaks
  import opened TaskTree
  import opened RustStorage
  import Display

  /** Why a command failed. */
  datatype AppError =
    | Failed(cause: StoreError)     // the store refused, or the name is invalid or ambiguous
    | Missing(message: string)      // the name resolves to nothing
    | Precondition(message: string) // `check_preconditions` refused to go on
    | GitFailed                     // `git check-ignore` could not be run
    | LogFailed                     // `log_command` failed
    | SyncFailed(message: string)   // the git adapter's `sync` failed

  /** What a command leaves behind: the store (writes made before a failure
      are kept), the messages handed to `log_command`, and the error. */
  datatype Step = Step(store: Nodes, logged: seq<string>, err: Option<AppError>)

  const YakNotFound: string := "Yak not found"

  const NotRepositoryMessage: string :=
    "Error: not in a git repository\nyx must be run from within a git repository"

  const NotIgnoredMessage: string :=
    "Error: .yaks folder is not gitignored\nPlease add .yaks to your .gitignore file"

  /** The error of `show_context` and `edit_context` for a name that
      resolves to nothing. */
  function NotFoundMessage(name: string): string {
    "Error: yak '" + name + "' not found"
  }

  /** `log_command(msg)?` after the writes that left `m`. */
  function Log(m: Nodes, msg: string, logFails: bool): (r: Step)
    ensures r.store == m
    ensures r.err.None? <==> !logFails
    ensures r.logged == if logFails then [] else [msg]
  {
    if logFails then Step(m, [], Some(LogFailed)) else Step(m, [msg], None)
  }

  /** `find_yak(name)?.context(message)?`. */
  function Resolved(m: Nodes, name: string, message: string): (r: Result<string, AppError>)
    ensures r.Ok? <==> RustStorage.Lookup(m, name).Ok?
    ensures r.Ok? ==> r.value == RustStorage.Lookup(m, name).value && r.value in m
    ensures Find(m, name) == Ok(None) ==> r == Err(Missing(message))
    ensures Find(m, name).Err? ==> r == Err(Failed(StoreError.Lookup(Find(m, name).error)))
  {
    match Find(m, name)
    case Err(e) => Err(Failed(StoreError.Lookup(e)))
    case Ok(None) => Err(Missing(message))
    case Ok(Some(n)) => Ok(n)
  }

  /** Writes that change no names change no resolution. */
  lemma SameKeysSameFind(m: Nodes, r: Nodes, term: string)
    requires r.Keys == m.Keys
    ensures Find(r, term) == Find(m, term)
  {
    assert Visible(r) == Visible(m);
  }

  // ---------------------------------------------------------------------
  // check_preconditions
  // ---------------------------------------------------------------------

  /** `check_preconditions`: the work tree must be a git repository and
      `.yaks` must be gitignored. `ignored` is the answer of
      `git check-ignore`, None when git could not be run. */
  function CheckPreconditions(isRepo: bool, ignored: Option<bool>): (r: Option<AppError>)
    ensures r.None? <==> isRepo && ignored == Some(true)
    ensures !isRepo ==> r == Some(Precondition(NotRepositoryMessage))
    ensures isRepo && ignored == Some(false) ==> r == Some(Precondition(NotIgnoredMessage))
    ensures isRepo && ignored.None? ==> r == Some(GitFailed)
  {
    if !isRepo then Some(Precondition(NotRepositoryMessage))
    else match ignored
      case None => Some(GitFailed)
      case Some(false) => Some(Precondition(NotIgnoredMessage))
      case Some(true) => None
  }

  // ---------------------------------------------------------------------
  // list
  // ---------------------------------------------------------------------

  /** `walk` is an order in which `list` may visit the visible directories:
      each exactly once, and a directory before everything below it. */
  predicate IsWalk(m: Nodes, walk: seq<string>) {
    && (forall k :: k in walk ==> k in Visible(m))
    && (forall k :: k in Visible(m) ==> k in walk)
    && (forall i, j :: 0 <= i < j < |walk| ==> walk[i] != walk[j] && !Under(walk[i], walk[j]))
  }

  /** `list`: the yaks in the order the directory walk met them. */
  function ListYaks(m: Nodes, walk: seq<string>): (ys: seq<Yak>)
    ensures |ys| <= |walk|
    ensures forall y :: y in ys <==> y.name in walk && y.name in m && y == Load(m, y.name)
  {
    if |walk| == 0 then []
    else (if walk[0] in m then [Load(m, walk[0])] else []) + ListYaks(m, walk[1..])
  }

  /** Over a walk the listing holds exactly the store's yaks. */
  lemma ListYaksIsList(m: Nodes, walk: seq<string>)
    requires IsWalk(m, walk)
    ensures forall y :: y in ListYaks(m, walk) <==> y in List(m)
  {
    forall y | y in List(m) ensures y in ListYaks(m, walk) {
      assert y.name in Visible(m);
    }
  }

  // ---------------------------------------------------------------------
  // add
  // ---------------------------------------------------------------------

  const AddPrompt: string := "Enter yaks (empty line to finish):"

  /** The names typed at the prompt: the lines before the first one that is
      blank once trimmed. */
  function EnteredLines(lines: seq<string>): (es: seq<string>)
    ensures |es| <= |lines|
    ensures forall i :: 0 <= i < |es| ==> es[i] == lines[i] && Trim(lines[i]) != ""
    ensures |es| < |lines| ==> Trim(lines[|es|]) == ""
  {
    if |lines| == 0 || Trim(lines[0]) == "" then [] else [lines[0]] + EnteredLines(lines[1..])
  }

  /** The interactive loop of `add`: validate, add and log each entered
      line in turn; the first failure ends the command. */
  function AddLines(m: Nodes, lines: seq<string>, now: int, logFails: bool): (r: Step)
    ensures forall k :: k in m ==> k in r.store
    ensures r.err.None? ==> r.logged == AddMessages(EnteredLines(lines))
    decreases |lines|
  {
    if |lines| == 0 || Trim(lines[0]) == "" then Step(m, [], None)
    else
      match ValidateYakName(lines[0])
      case Err(msg) => Step(m, [], Some(Failed(InvalidName(msg))))
      case Ok(_) =>
        match Add(m, lines[0], now)
        case Err(e) => Step(m, [], Some(Failed(e)))
        case Ok(m1) =>
          var s := Log(m1, "add " + lines[0], logFails);
          if s.err.Some? then s
          else
            var rest := AddLines(m1, lines[1..], now, logFails);
            Step(rest.store, s.logged + rest.logged, rest.err)
  }

  /** One round of the loop on a valid, non-blank first line. */
  lemma AddLinesStep(m: Nodes, lines: seq<string>, now: int)
    requires |lines| > 0 && Trim(lines[0]) != "" && ValidName(lines[0])
    ensures Add(m, lines[0], now).Ok?
    ensures var m1 := Add(m, lines[0], now).value; var rest := AddLines(m1, lines[1..], now, false);
      && lines[0] in m1 && ReadState(m1[lines[0]]) == Todo
      && AddLines(m, lines, now, false) == Step(rest.store, ["add " + lines[0]] + rest.logged, rest.err)
    ensures EnteredLines(lines) == [lines[0]] + EnteredLines(lines[1..])
  {
    ParseAsStr(Todo);
  }

  lemma AllValidCons(x: string, xs: seq<string>)
    ensures AllValid([x] + xs) <==> ValidName(x) && AllValid(xs)
  {
    var s := [x] + xs;
    if ValidName(x) && AllValid(xs) {
      forall i | 0 <= i < |s| ensures ValidName(s[i]) {
        if i > 0 { assert s[i] == xs[i - 1]; }
      }
    }
    if AllValid(s) {
      assert s[0] == x;
      forall i | 0 <= i < |xs| ensures ValidName(xs[i]) {
        assert xs[i] == s[i + 1];
      }
    }
  }

  /** With a working audit log the loop succeeds exactly when every entered
      name is valid. */
  lemma {:induction false} AddLinesSucceeds(m: Nodes, lines: seq<string>, now: int)
    ensures AddLines(m, lines, now, false).err.None? <==> AllValid(EnteredLines(lines))
    decreases |lines|
  {
    if |lines| > 0 && Trim(lines[0]) != "" {
      AllValidCons(lines[0], EnteredLines(lines[1..]));
      assert EnteredLines(lines) == [lines[0]] + EnteredLines(lines[1..]);
      if ValidName(lines[0]) {
        AddLinesStep(m, lines, now);
        AddLinesSucceeds(Add(m, lines[0], now).value, lines[1..], now);
      }
    }
  }

  /** After a successful loop every entered name is a todo yak. */
  lemma {:induction false} AddLinesEnteredTodo(m: Nodes, lines: seq<string>, now: int, i: nat)
    requires AddLines(m, lines, now, false).err.None? && i < |EnteredLines(lines)|
    ensures var r := AddLines(m, lines, now, false).store;
      EnteredLines(lines)[i] in r && ReadState(r[EnteredLines(lines)[i]]) == Todo
    decreases |lines|
  {
    var es := EnteredLines(lines);
    assert lines[0] == es[0] && ValidName(lines[0]) by {
      if !ValidName(lines[0]) {
        AddLinesSucceeds(m, lines, now);
      }
    }
    AddLinesStep(m, lines, now);
    var m1 := Add(m, lines[0], now).value;
    var rest := AddLines(m1, lines[1..], now, false);
    assert rest.err.None? && AddLines(m, lines, now, false).store == rest.store;
    if i == 0 {
      AddLinesKeepsTodo(m1, lines[1..], now, lines[0]);
    } else {
      assert es[i] == EnteredLines(lines[1..])[i - 1];
      AddLinesEnteredTodo(m1, lines[1..], now, i - 1);
    }
  }

  /** Adding never turns a todo yak into a done one. */
  lemma {:induction false} AddLinesKeepsTodo(m: Nodes, lines: seq<string>, now: int, k: string)
    requires k in m && ReadState(m[k]) == Todo
    ensures ReadState(AddLines(m, lines, now, false).store[k]) == Todo
    decreases |lines|
  {
    if |lines| > 0 && Trim(lines[0]) != "" && ValidName(lines[0]) {
      var m1 := Add(m, lines[0], now).value;
      ParseAsStr(Todo);
      assert ReadState(m1[k]) == Todo;
      AddLinesKeepsTodo(m1, lines[1..], now, k);
    }
  }

  /** `add`: a named yak is added and logged; without a name the entered
      lines are. */
  function AddYak(m: Nodes, name: Option<string>, stdin: seq<string>, now: int, logFails: bool): (r: Step)
    ensures name.Some? ==> (r.err.None? <==> ValidName(name.value) && !logFails)
    ensures name.Some? && !ValidName(name.value) ==>
      r == Step(m, [], Some(Failed(InvalidName(InvalidNameMessage))))
    ensures name.Some? && ValidName(name.value) ==>
      && name.value in r.store
      && ReadState(r.store[name.value]) == Todo && ReadContext(r.store[name.value]) == ""
      && r.logged == (if logFails then [] else ["add " + name.value])
    ensures name.None? && r.err.None? ==> r.logged == AddMessages(EnteredLines(stdin))
  {
    match name
    case None => AddLines(m, stdin, now, logFails)
    case Some(n) =>
      match Add(m, n, now)
      case Err(e) => Step(m, [], Some(Failed(e)))
      case Ok(m1) =>
        ParseAsStr(Todo);
        Log(m1, "add " + n, logFails)
  }

  // ---------------------------------------------------------------------
  // done
  // ---------------------------------------------------------------------

  /** The state `done` writes: todo with `--undo`, done otherwise. */
  function Target(undo: bool): (s: YakState)
    ensures s == Done <==> !undo
  {
    if undo then Todo else Done
  }

  /** The audit message of `done`; `--recursive` wins over `--undo`. */
  function DoneMessage(name: string, undo: bool, recursive: bool): string {
    if recursive then "done --recursive " + name
    else if undo then "done --undo " + name
    else "done " + name
  }

  /** `done`: write the target state (recursively with `--recursive`, which
      skips the incomplete-children check), then resolve the name again to
      log it. Only a plain completion can be refused for its children. */
  function DoneYak(m: Nodes, name: string, undo: bool, recursive: bool, logFails: bool): (r: Step)
    ensures RustStorage.Lookup(m, name).Err? ==> r == Step(m, [], Some(Failed(RustStorage.Lookup(m, name).error)))
    ensures RustStorage.Lookup(m, name).Ok? ==> var n := RustStorage.Lookup(m, name).value;
      if !recursive && !undo && HasIncompleteChildren(m, n) then
        r == Step(m, [], Some(Failed(IncompleteChildren(n))))
      else
        && r.store.Keys == m.Keys
        && r.logged == (if logFails then [] else [DoneMessage(n, undo, recursive)])
        && (r.err.None? <==> !logFails)
    ensures RustStorage.Lookup(m, name).Ok? && !recursive && r.err != Some(Failed(IncompleteChildren(RustStorage.Lookup(m, name).value))) ==>
      var n := RustStorage.Lookup(m, name).value;
      && ReadState(r.store[n]) == Target(undo)
      && (forall k :: k in m && k != n ==> r.store[k] == m[k])
  {
    var written := if recursive then UpdateStateRecursive(m, name, Target(undo)) else UpdateState(m, name, Target(undo));
    match written
    case Err(e) => Step(m, [], Some(Failed(e)))
    case Ok(m1) =>
      SameKeysSameFind(m, m1, name);
      match Find(m1, name)
      case Err(e) => Step(m1, [], Some(Failed(StoreError.Lookup(e))))
      case Ok(found) => Log(m1, DoneMessage(found.GetOr(name), undo, recursive), logFails)
  }

  /** `done --recursive` writes the target state into the resolved yak and
      every directory below it, and nothing else. */
  lemma DoneRecursiveMarksSubtree(m: Nodes, name: string, undo: bool, logFails: bool)
    requires Valid(m) && RustStorage.Lookup(m, name).Ok?
    ensures var n := RustStorage.Lookup(m, name).value; var r := DoneYak(m, name, undo, true, logFails);
      && (forall k :: k in m && InSubtree(k, n) ==> ReadState(r.store[k]) == Target(undo))
      && (forall k :: k in m && !InSubtree(k, n) ==> r.store[k] == m[k])
  {
    UpdateStateRecursiveThenRead(m, name, Target(undo));
  }

  /** `done --undo --recursive` marks the subtree todo, yet logs the very
      message of `done --recursive`, which marks it done. */
  lemma UndoRecursiveLogsAsDone(m: Nodes, name: string)
    requires Valid(m) && RustStorage.Lookup(m, name).Ok?
    ensures DoneYak(m, name, true, true, false).logged == DoneYak(m, name, false, true, false).logged
    ensures var n := RustStorage.Lookup(m, name).value;
      && ReadState(DoneYak(m, name, true, true, false).store[n]) == Todo
      && ReadState(DoneYak(m, name, false, true, false).store[n]) == Done
  {
    DoneRecursiveMarksSubtree(m, name, true, false);
    DoneRecursiveMarksSubtree(m, name, false, false);
  }

  // ---------------------------------------------------------------------
  // rm, prune
  // ---------------------------------------------------------------------

  /** `remove`: resolve the name ("Yak not found" when nothing matches),
      delete the resolved yak's subtree and log the resolved name. */
  function RemoveYak(m: Nodes, name: string, logFails: bool): (r: Step)
    ensures RustStorage.Lookup(m, name).Err? ==> r.store == m && r.logged == [] && r.err.Some?
    ensures Find(m, name) == Ok(None) ==> r.err == Some(Missing(YakNotFound))
    ensures RustStorage.Lookup(m, name).Ok? ==> var n := RustStorage.Lookup(m, name).value;
      && (forall k :: k in r.store <==> k in m && !InSubtree(k, n))
      && r.logged == (if logFails then [] else ["rm " + n])
      && (r.err.None? <==> !logFails)
    ensures forall k :: k in r.store ==> k in m && r.store[k] == m[k]
  {
    match Resolved(m, name, YakNotFound)
    case Err(e) => Step(m, [], Some(e))
    case Ok(n) =>
      match Remove(m, name)
      case Err(e) => Step(m, [], Some(Failed(e)))
      case Ok(m1) => Log(m1, "rm " + n, logFails)
  }

  /** The names of the yaks the walk lists as done, in walk order. */
  function DoneNames(m: Nodes, walk: seq<string>): (ds: seq<string>)
    ensures |ds| <= |walk|
    ensures forall k :: k in ds <==> k in walk && k in m && ReadState(m[k]) == Done
    ensures (forall i, j :: 0 <= i < j < |walk| ==> walk[i] != walk[j]) ==>
      forall i, j :: 0 <= i < j < |ds| ==> ds[i] != ds[j]
  {
    if |walk| == 0 then []
    else
      var rest := DoneNames(m, walk[1..]);
      assert forall k :: k in rest ==> k in walk[1..];
      (if walk[0] in m && ReadState(m[walk[0]]) == Done then [walk[0]] else []) + rest
  }

  /** `remove` of each name in turn; the first failure ends the loop. */
  function RemoveAll(m: Nodes, names: seq<string>, logFails: bool): (r: Step)
    ensures r.err.None? ==> |r.logged| == |names|
    ensures forall k :: k in r.store ==> k in m && r.store[k] == m[k]
    decreases |names|
  {
    if |names| == 0 then Step(m, [], None)
    else
      var s := RemoveYak(m, names[0], logFails);
      if s.err.Some? then s
      else
        var rest := RemoveAll(s.store, names[1..], logFails);
        Step(rest.store, s.logged + rest.logged, rest.err)
  }

  /** `prune` as written: every yak listed as done goes through `remove`,
      which resolves the name again in the store left by the earlier
      removals. */
  function Prune(m: Nodes, walk: seq<string>, logFails: bool): (r: Step)
    ensures r.err.None? ==> |r.logged| == |DoneNames(m, walk)|
    ensures forall k :: k in r.store ==> k in m && r.store[k] == m[k]
  {
    RemoveAll(m, DoneNames(m, walk), logFails)
  }

  /** Exact removal of each name: a directory already removed with an
      ancestor is skipped, the others are deleted and logged. */
  function RemoveEachExact(m: Nodes, names: seq<string>, logFails: bool): (r: Step)
    ensures !logFails ==> r.err.None?
    ensures !logFails ==> forall k :: k in r.store <==> k in m && forall i :: 0 <= i < |names| ==> !InSubtree(k, names[i])
    ensures forall k :: k in r.store ==> k in m && r.store[k] == m[k]
    decreases |names|
  {
    if |names| == 0 then Step(m, [], None)
    else
      var m1 := RemoveSubtree(m, names[0]);
      var s := if names[0] in m then Log(m1, "rm " + names[0], logFails) else Step(m1, [], None);
      if s.err.Some? then s
      else
        var rest := RemoveEachExact(m1, names[1..], logFails);
        Step(rest.store, s.logged + rest.logged, rest.err)
  }

  /** `prune` as intended: every yak listed as done is removed with its
      subtree, and one already gone with its parent is no error. */
  function PruneExact(m: Nodes, walk: seq<string>, logFails: bool): (r: Step)
    ensures !logFails ==> r.err.None?
    ensures !logFails ==> forall k :: k in r.store <==> k in m && forall d :: d in DoneNames(m, walk) ==> !InSubtree(k, d)
    ensures forall k :: k in r.store ==> k in m && r.store[k] == m[k]
  {
    var ds := DoneNames(m, walk);
    var r := RemoveEachExact(m, ds, logFails);
    assert forall d :: d in ds <==> exists i :: 0 <= i < |ds| && ds[i] == d;
    r
  }

  /** After an exact prune over a walk no visible yak is done. */
  lemma PruneExactLeavesNoDone(m: Nodes, walk: seq<string>)
    requires IsWalk(m, walk)
    ensures var r := PruneExact(m, walk, false).store;
      forall k :: k in Visible(r) ==> ReadState(r[k]) == Todo
  {
    var r := PruneExact(m, walk, false).store;
    forall k | k in Visible(r) ensures ReadState(r[k]) == Todo {
      assert k in walk;
    }
  }

  /** An exact prune keeps every yak that is not at or below a done one. */
  lemma PruneExactKeepsTodo(m: Nodes, walk: seq<string>, k: string)
    requires IsWalk(m, walk) && k in m
    requires forall d :: d in Visible(m) && ReadState(m[d]) == Done ==> !InSubtree(k, d)
    ensures k in PruneExact(m, walk, false).store && PruneExact(m, walk, false).store[k] == m[k]
  {
    forall d | d in DoneNames(m, walk) ensures !InSubtree(k, d) {
      assert d in walk;
    }
  }

  /** No done visible yak lies below another done visible yak. */
  predicate DoneFlat(m: Nodes) {
    forall a, b :: a in Visible(m) && b in Visible(m) && Under(b, a) ==> ReadState(m[a]) != Done || ReadState(m[b]) != Done
  }

  /** Removing names that are all present and none at or below another:
      `remove` resolves each one to itself, so the loop as written is the
      exact one. */
  lemma {:induction false} RemoveAllAgrees(m: Nodes, names: seq<string>)
    requires forall i :: 0 <= i < |names| ==> names[i] in m && names[i] != ""
    requires forall i, j :: 0 <= i < |names| && 0 <= j < |names| && i != j ==> !InSubtree(names[j], names[i])
    ensures RemoveAll(m, names, false) == RemoveEachExact(m, names, false)
    decreases |names|
  {
    if |names| > 0 {
      var n := names[0];
      var m1 := RemoveSubtree(m, n);
      var s := RemoveYak(m, n, false);
      assert s.store == m1 by {
        assert s.store.Keys == m1.Keys;
      }
      var tail := names[1..];
      forall i | 0 <= i < |tail| ensures tail[i] in m1 {
        assert !InSubtree(names[i + 1], names[0]);
      }
      RemoveAllAgrees(m1, tail);
    }
  }

  /** On a store where no done yak lies below another, `prune` as written
      is the exact prune: nothing fails and no visible yak is left done. */
  lemma PruneAgrees(m: Nodes, walk: seq<string>)
    requires IsWalk(m, walk) && DoneFlat(m)
    ensures Prune(m, walk, false) == PruneExact(m, walk, false)
    ensures Prune(m, walk, false).err.None?
    ensures var r := Prune(m, walk, false).store;
      forall k :: k in Visible(r) ==> ReadState(r[k]) == Todo
  {
    var ds := DoneNames(m, walk);
    forall i, j | 0 <= i < |ds| && 0 <= j < |ds| && i != j ensures !InSubtree(ds[j], ds[i]) {
      assert ds[i] in ds && ds[j] in ds;
      assert ds[i] != ds[j] by {
        if i < j {} else {}
      }
    }
    forall i | 0 <= i < |ds| ensures ds[i] in m && ds[i] != "" {
      assert ds[i] in ds;
    }
    RemoveAllAgrees(m, ds);
    PruneExactLeavesNoDone(m, walk);
  }

  // The prune counterexample: a completed parent and child.
  const Top: string := "a"
  const Leaf: string := Top + "/" + "b"
  const BaseDir: Node := Node(None, None, false, 0)
  const DoneDir: Node := Node(Some("done"), Some(""), false, 0)
  const CompletedTree: Nodes := map["" := BaseDir, Top := DoneDir, Leaf := DoneDir]

  lemma CompletedTreeVisible()
    ensures Visible(CompletedTree) == {Top, Leaf}
  {
    assert Top == ['a'] && Leaf == ['a', '/', 'b'];
    assert !HiddenPath(Top) && !HiddenPath(Leaf);
    assert CompletedTree.Keys == {"", Top, Leaf};
  }

  /** The only walk of the completed tree: the parent, then the child. */
  lemma CompletedTreeWalk()
    ensures IsWalk(CompletedTree, [Top, Leaf])
  {
    CompletedTreeVisible();
    assert |Top| == 1 && |Leaf| == 3;
    assert !Under(Top, Leaf);
  }

  /** Both yaks of the completed tree are listed as done. */
  lemma CompletedTreeDone()
    ensures DoneNames(CompletedTree, [Top, Leaf]) == [Top, Leaf]
  {
    ParseAsStr(Done);
    var m := CompletedTree;
    assert ReadState(m[Top]) == Done && ReadState(m[Leaf]) == Done;
    assert [Top, Leaf][1..] == [Leaf];
    assert DoneNames(m, [Leaf]) == [Leaf];
  }

  /** Removing the parent leaves only the base directory. */
  lemma RemoveTop()
    ensures RemoveSubtree(CompletedTree, Top) == map["" := BaseDir]
    ensures RemoveYak(CompletedTree, Top, false) == Step(map["" := BaseDir], ["rm " + Top], None)
  {
    assert |Top| == 1 && |Leaf| == 3 && Leaf[..2] == Top + "/";
    var m1 := RemoveSubtree(CompletedTree, Top);
    assert m1.Keys == {""};
  }

  /** In the emptied store the child's name matches nothing. */
  lemma RemoveLeafAfterTop()
    ensures RemoveYak(map["" := BaseDir], Leaf, false) == Step(map["" := BaseDir], [], Some(Missing(YakNotFound)))
    ensures RemoveSubtree(map["" := BaseDir], Leaf) == map["" := BaseDir]
  {
    var m1: Nodes := map["" := BaseDir];
    assert |Leaf| == 3;
    assert Visible(m1) == {};
    assert Find(m1, Leaf) == Ok(None);
    assert RemoveSubtree(m1, Leaf).Keys == {""};
  }

  /** Pruning a completed parent and child: the walk lists the parent
      first, removing it deletes the child too, and `remove` of the child
      then finds nothing, so `prune` fails although nothing is left to do.
      The exact prune succeeds with the same store. */
  lemma PruneCompletedTreeFails()
    ensures IsWalk(CompletedTree, [Top, Leaf])
    ensures Prune(CompletedTree, [Top, Leaf], false) == Step(map["" := BaseDir], ["rm " + Top], Some(Missing(YakNotFound)))
    ensures PruneExact(CompletedTree, [Top, Leaf], false) == Step(map["" := BaseDir], ["rm " + Top], None)
  {
    CompletedTreeWalk();
    CompletedTreeDone();
    RemoveTop();
    RemoveLeafAfterTop();
    var m1: Nodes := map["" := BaseDir];
    assert [Top, Leaf][1..] == [Leaf];
    assert RemoveAll(m1, [Leaf], false) == Step(m1, [], Some(Missing(YakNotFound)));
    assert Top in CompletedTree && Leaf !in m1;
    assert RemoveEachExact(m1, [Leaf], false) == Step(m1, [], None);
  }

  // ---------------------------------------------------------------------
  // move
  // ---------------------------------------------------------------------

  /** `rename`: resolve the old name ("Yak not found" when nothing
      matches), let the store move it, then log the resolved old name and
      the new one. */
  function RenameYak(m: Nodes, from: string, to: string, now: int, logFails: bool): (r: Step)
    ensures RustStorage.Lookup(m, from).Err? ==> r.store == m && r.logged == [] && r.err.Some?
    ensures Find(m, from) == Ok(None) ==> r.err == Some(Missing(YakNotFound))
    ensures RustStorage.Lookup(m, from).Ok? && !ValidName(to) ==> r == Step(m, [], Some(Failed(InvalidName(InvalidNameMessage))))
    ensures r.err.None? ==> RustStorage.Lookup(m, from).Ok? && RustStorage.Lookup(m, from).value != "" && ValidName(to)
    ensures RustStorage.Lookup(m, from).Ok? && ValidName(to) ==>
      var n := RustStorage.Lookup(m, from).value;
      var m1 := EnsureParents(m, to, now);
      && (n == "" || RenameBlocked(m1, n, to) ==> r == Step(m1, [], Some(Failed(RenameFailed(n, to)))))
      && (n != "" && !RenameBlocked(m1, n, to) ==>
            && MovedFrom(m, r.store, n, to, now)
            && (r.err.None? <==> !logFails)
            && r.logged == (if logFails then [] else ["move " + n + " " + to]))
  {
    match Resolved(m, from, YakNotFound)
    case Err(e) => Step(m, [], Some(e))
    case Ok(n) =>
      var o := RustStorage.Rename(m, from, to, now);
      if o.err.Some? then Step(o.store, [], Some(Failed(o.err.value)))
      else Log(o.store, "move " + n + " " + to, logFails)
  }

  // ---------------------------------------------------------------------
  // context
  // ---------------------------------------------------------------------

  /** `show_context`: the resolved yak's name and context as
      `format_yak_with_context` shows them. */
  function ShowContext(m: Nodes, name: string): (r: Result<string, AppError>)
    ensures r.Ok? <==> RustStorage.Lookup(m, name).Ok?
    ensures Find(m, name) == Ok(None) ==> r == Err(Missing(NotFoundMessage(name)))
    ensures r.Ok? ==> var n := RustStorage.Lookup(m, name).value;
      IsPrefix(n, r.value) && Display.ContextOfView(r.value, n) == Some(ReadContext(m[n]))
  {
    match Resolved(m, name, NotFoundMessage(name))
    case Err(e) => Err(e)
    case Ok(n) =>
      match Get(m, n)
      case None => Err(Missing(NotFoundMessage(name)))
      case Some(y) =>
        Display.ContextViewRoundTrip(y.name, y.context);
        Ok(Display.ContextView(y.name, y.context))
  }

  /** The context read from standard input: each line followed by a
      newline. */
  function Terminated(lines: seq<string>): (s: string)
    ensures |s| >= |lines|
  {
    if |lines| == 0 then "" else lines[0] + "\n" + Terminated(lines[1..])
  }

  predicate NoNewline(line: string) {
    forall j :: 0 <= j < |line| ==> line[j] != '\n'
  }

  /** The index of the first newline of `s`, or `|s|` when there is none. */
  function FirstNewline(s: string): (i: nat)
    ensures i <= |s|
    ensures i < |s| ==> s[i] == '\n'
    ensures NoNewline(s[..i])
  {
    if |s| == 0 || s[0] == '\n' then 0
    else
      var i := 1 + FirstNewline(s[1..]);
      assert s[..i] == [s[0]] + s[1..][..i - 1];
      i
  }

  /** Splits text at its newlines; the inverse of `Terminated`. */
  function SplitLines(s: string): (ls: seq<string>)
    ensures forall i :: 0 <= i < |ls| ==> NoNewline(ls[i])
    decreases |s|
  {
    if |s| == 0 then []
    else
      var i := FirstNewline(s);
      if i == |s| then [s] else [s[..i]] + SplitLines(s[i + 1..])
  }

  lemma {:induction false} FirstNewlineAt(line: string, rest: string)
    requires NoNewline(line)
    ensures FirstNewline(line + "\n" + rest) == |line|
    decreases |line|
  {
    if |line| > 0 {
      assert (line + "\n" + rest)[1..] == line[1..] + "\n" + rest;
      FirstNewlineAt(line[1..], rest);
    }
  }

  /** The lines read from standard input come back out of the stored
      context. */
  lemma {:induction false} SplitTerminated(lines: seq<string>)
    requires forall i :: 0 <= i < |lines| ==> NoNewline(lines[i])
    ensures SplitLines(Terminated(lines)) == lines
    decreases |lines|
  {
    if |lines| > 0 {
      var rest := Terminated(lines[1..]);
      var s := Terminated(lines);
      assert s == lines[0] + "\n" + rest;
      FirstNewlineAt(lines[0], rest);
      assert s[..|lines[0]|] == lines[0];
      assert s[|lines[0]| + 1..] == rest;
      SplitTerminated(lines[1..]);
    }
  }

  /** `edit_context`: resolve the name, store the given context (or the
      lines read from standard input), then log the resolved name. */
  function EditContext(m: Nodes, name: string, context: Option<string>, stdin: seq<string>, logFails: bool): (r: Step)
    ensures RustStorage.Lookup(m, name).Err? ==> r.store == m && r.logged == [] && r.err.Some?
    ensures Find(m, name) == Ok(None) ==> r.err == Some(Missing(NotFoundMessage(name)))
    ensures RustStorage.Lookup(m, name).Ok? ==> var n := RustStorage.Lookup(m, name).value;
      && r.store.Keys == m.Keys
      && GetContext(r.store, name) == Ok(context.GetOr(Terminated(stdin)))
      && ReadState(r.store[n]) == ReadState(m[n])
      && (forall k :: k in m && k != n ==> r.store[k] == m[k])
      && r.logged == (if logFails then [] else ["context " + n])
      && (r.err.None? <==> !logFails)
  {
    match Resolved(m, name, NotFoundMessage(name))
    case Err(e) => Step(m, [], Some(e))
    case Ok(n) =>
      var content := context.GetOr(Terminated(stdin));
      match SetContext(m, n, content)
      case Err(e) => Step(m, [], Some(Failed(e)))
      case Ok(m1) =>
        SameKeysSameLookup(m, m1, name);
        Log(m1, "context " + n, logFails)
  }

  // ---------------------------------------------------------------------
  // completions
  // ---------------------------------------------------------------------

  /** Which yaks `completions` offers after `cmd` and `flag`. */
  function CompletionFilter(cmd: Option<string>, flag: Option<string>): (f: Display.Filter)
    ensures cmd != Some("done") <==> f == Display.All
    ensures cmd == Some("done") ==> (f == Display.DoneOnly <==> flag == Some("--undo"))
  {
    match (cmd, flag)
    case (Some("done"), Some("--undo")) => Display.DoneOnly
    case (Some("done"), _) => Display.NotDone
    case _ => Display.All
  }

  /** `completions`: the names of the listed yaks that pass the filter, in
      walk order. */
  function Completions(m: Nodes, walk: seq<string>, cmd: Option<string>, flag: Option<string>): (names: seq<string>)
    ensures |names| <= |walk|
    ensures forall k :: k in names <==>
      k in walk && k in m && Display.ShouldDisplay(ReadState(m[k]), CompletionFilter(cmd, flag))
  {
    if |walk| == 0 then []
    else
      var keep := walk[0] in m && Display.ShouldDisplay(ReadState(m[walk[0]]), CompletionFilter(cmd, flag));
      (if keep then [walk[0]] else []) + Completions(m, walk[1..], cmd, flag)
  }

  /** Over a walk, another command is offered every visible yak, and
      `done` and `done --undo` split them between them. */
  lemma CompletionsPartition(m: Nodes, walk: seq<string>, cmd: Option<string>, flag: Option<string>)
    requires IsWalk(m, walk)
    requires cmd != Some("done") && flag != Some("--undo")
    ensures forall k :: k in Completions(m, walk, cmd, flag) <==> k in Visible(m)
    ensures forall k :: k in Visible(m) ==>
      (k in Completions(m, walk, Some("done"), Some("--undo")) <==> k !in Completions(m, walk, Some("done"), flag))
  {
    forall k | k in Visible(m)
      ensures k in Completions(m, walk, Some("done"), Some("--undo")) <==> k !in Completions(m, walk, Some("done"), flag)
    {
      Display.FiltersPartition(ReadState(m[k]));
    }
  }
}
