/** The Rust prototype's `FilesystemStorage` (adapters/filesystem.rs): the
    same directory tree as the Go store, but listed with hidden directories
    pruned, every directory listed (a missing state file reads as todo),
    names resolved by exact path before fuzzy matching, and recursive
    completion walking child directories by exact path. */
module RustStorage {
  import opened Types
  import opened Strings
  import opened YakStates
  import opened Yaks
  import opened TaskTree
  import opened TreeWalk

  // ---------------------------------------------------------------------
  // Reading
  // ---------------------------------------------------------------------

  /** Some segment of the path starts with '.': the listing's `filter_entry`
      skips such a directory and everything below it. */
  predicate HiddenPath(k: string) {
    exists i :: 0 <= i < |k| && k[i] == '.' && (i == 0 || k[i - 1] == '/')
  }

  /** The names `list` walks: every directory below the base that is not
      in a hidden subtree. */
  function Visible(m: Nodes): (ns: set<string>)
    ensures forall k :: k in ns <==> k in m && k != "" && !HiddenPath(k)
  {
    set k | k in m && k != "" && !HiddenPath(k)
  }

  /** `read_state`: a missing state file reads as todo. */
  function ReadState(n: Node): (s: YakState)
    ensures s == Done <==> n.stateFile.Some? && Trim(n.stateFile.value) == "done"
  {
    if n.stateFile.Some? then Parse(n.stateFile.value) else Todo
  }

  /** `read_context`: a missing context file reads as "". */
  function ReadContext(n: Node): (c: string)
    ensures n.context.Some? ==> c == n.context.value
    ensures n.context.None? ==> c == ""
  {
    n.context.GetOr("")
  }

  function Load(m: Nodes, k: string): (y: Yak)
    requires k in m
    ensures y.name == k && y.mtime == m[k].mtime
    ensures y.state == ReadState(m[k]) && y.context == ReadContext(m[k])
  {
    Yak(k, ReadState(m[k]), ReadContext(m[k]), m[k].mtime)
  }

  /** `list`: one yak per visible directory, state-less ones included. */
  function List(m: Nodes): (ys: set<Yak>)
    ensures forall y :: y in ys ==> y.name in Visible(m) && y == Load(m, y.name)
    ensures forall k :: k in Visible(m) ==> Load(m, k) in ys
  {
    set k | k in Visible(m) :: Load(m, k)
  }

  /** The parent of a listed yak is listed too (or is the base), so the
      listing can always be drawn as a tree. */
  lemma VisibleClosed(m: Nodes, k: string)
    requires Valid(m) && k in Visible(m) && Parent(k).Some?
    ensures Parent(k).value in Visible(m)
  {
    var p := Parent(k).value;
    assert k == p + "/" + Basename(k);
    assert DirKey(k) == p;
    assert p != "" by {
      assert k[0] != '/';
    }
    assert IsPrefix(p, k) by {
      assert k[..|p|] == p;
    }
    if HiddenPath(p) {
      HiddenPrefix(p, k);
    }
  }

  /** A hidden directory hides everything below it. */
  lemma HiddenPrefix(p: string, k: string)
    requires IsPrefix(p, k) && HiddenPath(p)
    ensures HiddenPath(k)
  {
    var i :| 0 <= i < |p| && p[i] == '.' && (i == 0 || p[i - 1] == '/');
    assert k[i] == p[i];
    assert i == 0 || k[i - 1] == p[i - 1];
  }

  /** `get`: the directory at exactly this path, if it exists. */
  function Get(m: Nodes, name: string): (r: Option<Yak>)
    ensures r.Some? <==> name in m
    ensures r.Some? ==> r.value == Load(m, name)
  {
    if name in m then Some(Load(m, name)) else None
  }

  /** `find_yak`: an existing path (hidden, state-less or the base itself)
      is taken as it is; otherwise the visible names containing the term
      decide: none gives nothing, one gives it, more are ambiguous. */
  function Find(m: Nodes, term: string): (r: Result<Option<string>, FindError>)
    ensures term in m ==> r == Ok(Some(term))
    ensures term !in m ==>
      && (r == Ok(None) <==> MatchSet(term, Visible(m)) == {})
      && (r.Err? <==> |MatchSet(term, Visible(m))| >= 2)
      && (r.Err? ==> r.error == Ambiguous(term))
      && (r.Ok? && r.value.Some? ==> MatchSet(term, Visible(m)) == {r.value.value})
    ensures r.Ok? && r.value.Some? ==> r.value.value in m && Contains(r.value.value, term)
  {
    if term in m then
      ContainsSelf(term);
      Ok(Some(term))
    else
      match Resolve(term, Visible(m))
      case Ok(n) => Ok(Some(n))
      case Err(NotFound(_)) => Ok(None)
      case Err(e) => Err(e)
  }

  /** Resolution through `Find` and the lookup error the callers raise when
      nothing matched. */
  function Lookup(m: Nodes, term: string): (r: Result<string, StoreError>)
    ensures r.Ok? <==> Find(m, term).Ok? && Find(m, term).value.Some?
    ensures r.Ok? ==> r.value == Find(m, term).value.value
    ensures Find(m, term) == Ok(None) ==> r == Err(StoreError.Lookup(NotFound(term)))
    ensures Find(m, term).Err? ==> r == Err(StoreError.Lookup(Find(m, term).error))
    ensures r.Ok? ==> r.value in m
  {
    match Find(m, term)
    case Err(e) => Err(StoreError.Lookup(e))
    case Ok(None) => Err(StoreError.Lookup(NotFound(term)))
    case Ok(Some(n)) => Ok(n)
  }

  /** Exact paths first, then the same fuzzy rule as the Go store: on a
      name that is not a path, `Find` agrees with `Resolve` over the
      visible names, with "not found" reported as no match. */
  lemma FindIsResolve(m: Nodes, term: string)
    requires term !in m || term in Visible(m)
    ensures Resolve(term, Visible(m)).Ok? ==> Find(m, term) == Ok(Some(Resolve(term, Visible(m)).value))
    ensures Resolve(term, Visible(m)) == Err(NotFound(term)) <==> Find(m, term) == Ok(None)
    ensures Resolve(term, Visible(m)) == Err(Ambiguous(term)) <==> Find(m, term).Err?
  {
  }

  // ---------------------------------------------------------------------
  // Completion
  // ---------------------------------------------------------------------

  predicate NotDone(n: Node) {
    ReadState(n) != Done
  }

  /** `has_incomplete_children`: a missing directory has none; otherwise
      any child directory (hidden or state-less ones included) that does
      not read as done. */
  function HasIncompleteChildren(m: Nodes, name: string): (b: bool)
    ensures b <==> name in m && exists c :: c in Children(m, name) && ReadState(m[c]) != Done
  {
    if name !in m then false
    else
      ScanChildren(m, name, NotDone);
      AnyInOrder(m, ChildList(m, name), NotDone)
  }

  /** `update_state`: resolve the name, refuse to mark done while a child is
      not done, then write the state file. Marking todo is never refused. */
  function UpdateState(m: Nodes, term: string, state: YakState): (r: Result<Nodes, StoreError>)
    ensures Lookup(m, term).Err? ==> r == Err(Lookup(m, term).error)
    ensures Lookup(m, term).Ok? ==> var n := Lookup(m, term).value;
      && (r.Err? <==> state == Done && HasIncompleteChildren(m, n))
      && (r.Err? ==> r.error == IncompleteChildren(n))
      && (r.Ok? ==>
        && r.value.Keys == m.Keys
        && ReadState(r.value[n]) == state
        && r.value[n] == m[n].(stateFile := Some(AsStr(state)))
        && (forall k :: k in m && k != n ==> r.value[k] == m[k]))
  {
    var l := Lookup(m, term);
    if l.Err? then Err(l.error)
    else
      var n := l.value;
      if state == Done && HasIncompleteChildren(m, n) then Err(IncompleteChildren(n))
      else
        var w := m[n].(stateFile := Some(AsStr(state)));
        ReadWritten(m[n], state);
        var r := m[n := w];
        assert r.Keys == m.Keys && r[n] == w;
        Ok(r)
  }

  /** A state file written with `as_str` reads back as the state written. */
  lemma ReadWritten(n: Node, state: YakState)
    ensures ReadState(n.(stateFile := Some(AsStr(state)))) == state
  {
    ParseAsStr(state);
  }

  /** Marking todo succeeds whenever the name resolves. */
  lemma UndoNeverBlocked(m: Nodes, term: string)
    ensures UpdateState(m, term, Todo).Ok? <==> Lookup(m, term).Ok?
  {
  }

  /** `update_state_recursive`: resolve the name, then write the state into
      its directory and every directory below it, by exact path. */
  function UpdateStateRecursive(m: Nodes, term: string, state: YakState): (r: Result<Nodes, StoreError>)
    ensures Lookup(m, term).Err? ==> r == Err(Lookup(m, term).error)
    ensures Lookup(m, term).Ok? ==> r.Ok? && r.value.Keys == m.Keys
    ensures Lookup(m, term).Ok? && Valid(m) ==>
      WrittenFrom(m, r.value, SubtreeKeys(m, Lookup(m, term).value), Some(AsStr(state)))
  {
    match Lookup(m, term)
    case Err(e) => Err(e)
    case Ok(n) => Ok(WriteSubtree(m, n, Some(AsStr(state))))
  }

  /** After a recursive update every directory of the subtree reads as the
      new state and nothing outside it changed; after a recursive done the
      yak itself can be marked done without being refused. */
  lemma UpdateStateRecursiveThenRead(m: Nodes, term: string, state: YakState)
    requires Valid(m) && Lookup(m, term).Ok?
    ensures var n := Lookup(m, term).value;
      var r := UpdateStateRecursive(m, term, state).value;
      && (forall k :: k in m && InSubtree(k, n) ==> ReadState(r[k]) == state)
      && (forall k :: k in m && !InSubtree(k, n) ==> r[k] == m[k])
      && (state == Done ==> !HasIncompleteChildren(r, n) && UpdateState(r, n, Done).Ok?)
  {
    var n := Lookup(m, term).value;
    var r := UpdateStateRecursive(m, term, state).value;
    assert WrittenFrom(m, r, SubtreeKeys(m, n), Some(AsStr(state)));
    forall k | k in m && InSubtree(k, n) ensures ReadState(r[k]) == state {
      ReadWritten(m[k], state);
    }
    if state == Done {
      forall c | c in Children(r, n) ensures ReadState(r[c]) == Done {
        ChildInSubtree(c, c, n);
      }
      assert !HasIncompleteChildren(r, n);
      assert Find(r, n) == Ok(Some(n));
    }
  }

  // ---------------------------------------------------------------------
  // Writing
  // ---------------------------------------------------------------------

  /** `add`: validate the name, create its missing ancestors as todo yaks,
      create the base directory and the yak's own directory, then (re)write
      its state "todo" and an empty context. */
  function Add(m: Nodes, name: string, now: int): (r: Result<Nodes, StoreError>)
    ensures r.Err? <==> !ValidName(name)
    ensures r.Err? ==> r.error == InvalidName(InvalidNameMessage)
    ensures r.Ok? ==>
      && r.value.Keys == m.Keys + {""} + Ancestors(name) + {name}
      && r.value[name] == Fresh(if name in m then m[name] else EmptyDir(now))
      && (forall k :: k in m && k != name ==> r.value[k] == m[k])
      && (forall k :: k in Ancestors(name) && k !in m && k != name ==> r.value[k] == Fresh(EmptyDir(now)))
      && ("" !in m && "" !in Ancestors(name) && name != "" ==> r.value[""] == EmptyDir(now))
  {
    match ValidateYakName(name)
    case Err(msg) => Err(InvalidName(msg))
    case Ok(_) =>
      var m1 := EnsureParents(m, name, now);
      var m2 := CreateMissing(m1, {""}, EmptyDir(now));
      var m3 := CreateMissing(m2, {name}, EmptyDir(now));
      Ok(m3[name := Fresh(m3[name])])
  }

  lemma AddKeepsStoreValid(m: Nodes, name: string, now: int)
    requires Valid(m) && WellFormed(name) && Add(m, name, now).Ok?
    ensures Valid(Add(m, name, now).value)
  {
    AddKeepsValid(m, name, Add(m, name, now).value);
  }

  /** Unlike the Go store, the ancestors `add` creates are yaks of their
      own: each reads as todo with an empty context. The new yak is found
      by its exact name and reads as a fresh todo. */
  lemma AddThenGet(m: Nodes, name: string, now: int)
    requires Add(m, name, now).Ok?
    ensures var r := Add(m, name, now).value;
      && Find(r, name) == Ok(Some(name))
      && Get(r, name).Some? && Get(r, name).value.state == Todo && Get(r, name).value.context == ""
      && (forall a :: a in Ancestors(name) && a !in m ==>
            Get(r, a).Some? && Get(r, a).value.state == Todo && Get(r, a).value.context == "")
  {
    ParseAsStr(Todo);
    var r := Add(m, name, now).value;
    forall a | a in Ancestors(name) && a !in m
      ensures Get(r, a).Some? && Get(r, a).value.state == Todo && Get(r, a).value.context == ""
    {
      AncestorIsProper(name, a);
    }
  }

  lemma AncestorIsProper(name: string, a: string)
    requires a in Ancestors(name)
    ensures a != name
  {
  }

  /** `remove`: an existing path (even the base or a hidden directory) is
      deleted as it is; any other name is resolved first. */
  function Remove(m: Nodes, name: string): (r: Result<Nodes, StoreError>)
    ensures name in m ==> r.Ok? && forall k :: k in r.value <==> k in m && !InSubtree(k, name)
    ensures name !in m ==> (r.Err? <==> Lookup(m, name).Err?)
    ensures name !in m && r.Err? ==> r.error == Lookup(m, name).error
    ensures name !in m && r.Ok? ==> forall k :: k in r.value <==> k in m && !InSubtree(k, Lookup(m, name).value)
    ensures r.Ok? ==> forall k :: k in r.value ==> r.value[k] == m[k]
  {
    if name in m then Ok(RemoveSubtree(m, name))
    else
      match Lookup(m, name)
      case Err(e) => Err(e)
      case Ok(n) => Ok(RemoveSubtree(m, n))
  }

  lemma RemoveKeepsStoreValid(m: Nodes, name: string)
    requires Valid(m) && Remove(m, name).Ok?
    ensures Valid(Remove(m, name).value)
  {
    if name in m {
      RemoveKeepsValid(m, name);
    } else {
      RemoveKeepsValid(m, Lookup(m, name).value);
    }
  }

  /** Removing the empty name deletes the whole yaks directory: the empty
      path is the base directory, which exists. */
  lemma RemoveEmptyNameClears(m: Nodes)
    requires "" in m
    ensures Remove(m, "") == Ok(map[])
  {
  }

  /** `set_context`: write the resolved yak's context file. */
  function SetContext(m: Nodes, term: string, context: string): (r: Result<Nodes, StoreError>)
    ensures r.Err? <==> Lookup(m, term).Err?
    ensures r.Err? ==> r.error == Lookup(m, term).error
    ensures r.Ok? ==> var n := Lookup(m, term).value;
      && r.value.Keys == m.Keys
      && ReadContext(r.value[n]) == context
      && ReadState(r.value[n]) == ReadState(m[n])
      && (forall k :: k in m && k != n ==> r.value[k] == m[k])
  {
    match Lookup(m, term)
    case Err(e) => Err(e)
    case Ok(n) => Ok(m[n := m[n].(context := Some(context))])
  }

  /** `get_context`: the resolved yak's context, "" when it has none. */
  function GetContext(m: Nodes, term: string): (r: Result<string, StoreError>)
    ensures r.Err? <==> Lookup(m, term).Err?
    ensures r.Err? ==> r.error == Lookup(m, term).error
    ensures r.Ok? ==> r.value == ReadContext(m[Lookup(m, term).value])
  {
    match Lookup(m, term)
    case Err(e) => Err(e)
    case Ok(n) => Ok(ReadContext(m[n]))
  }

  /** Writing a context and reading it back through the same name gives
      the written text: a write changes no names, so the name resolves the
      same way. */
  lemma SetContextThenGet(m: Nodes, term: string, context: string)
    requires SetContext(m, term, context).Ok?
    ensures GetContext(SetContext(m, term, context).value, term) == Ok(context)
  {
    var r := SetContext(m, term, context).value;
    SameKeysSameLookup(m, r, term);
  }

  /** Resolution depends only on which directories exist. */
  lemma SameKeysSameLookup(m: Nodes, r: Nodes, term: string)
    requires r.Keys == m.Keys
    ensures Lookup(r, term) == Lookup(m, term)
  {
    assert Visible(r) == Visible(m);
  }

  /** `rename`: resolve the old name, validate the new one, create its
      missing ancestors, then rename the directory. Renaming the base
      directory into itself fails; a failing rename keeps the ancestors
      already created. */
  function Rename(m: Nodes, oldName: string, newName: string, now: int): (r: Outcome)
    ensures Lookup(m, oldName).Err? ==> r == Outcome(m, Some(Lookup(m, oldName).error))
    ensures Lookup(m, oldName).Ok? && !ValidName(newName) ==> r == Outcome(m, Some(InvalidName(InvalidNameMessage)))
    ensures Lookup(m, oldName) == Ok("") && ValidName(newName) ==> r.err == Some(RenameFailed("", newName))
    ensures r.err.None? ==> Lookup(m, oldName).Ok? && Lookup(m, oldName).value != "" && ValidName(newName)
    ensures Lookup(m, oldName).Ok? && ValidName(newName) ==>
      var n := Lookup(m, oldName).value;
      var m1 := EnsureParents(m, newName, now);
      && (r.err.Some? <==> n == "" || RenameBlocked(m1, n, newName))
      && (r.err.Some? ==> r == Outcome(m1, Some(RenameFailed(n, newName))))
      && (r.err.None? ==> MovedFrom(m, r.store, n, newName, now))
  {
    match Lookup(m, oldName)
    case Err(e) => Outcome(m, Some(e))
    case Ok(n) =>
      match ValidateYakName(newName)
      case Err(msg) => Outcome(m, Some(InvalidName(msg)))
      case Ok(_) =>
        var m1 := EnsureParents(m, newName, now);
        if n == "" then Outcome(m1, Some(RenameFailed(n, newName)))
        else
          MoveWithParents(m, n, newName, now);
          match TaskTree.Rename(m1, n, newName)
          case Err(e) => Outcome(m1, Some(e))
          case Ok(m2) => Outcome(m2, None)
  }

  lemma RenameKeepsStoreValid(m: Nodes, oldName: string, newName: string, now: int)
    requires Valid(m) && WellFormed(newName)
    ensures Valid(Rename(m, oldName, newName, now).store)
  {
    if Lookup(m, oldName).Ok? && ValidName(newName) {
      var n := Lookup(m, oldName).value;
      var m1 := EnsureParents(m, newName, now);
      assert "" in m;
      assert m1.Keys == m.Keys + Ancestors(newName);
      AncestorsClosed(newName);
      assert Valid(m1);
      if n != "" && TaskTree.Rename(m1, n, newName).Ok? {
        RenameKeepsValid(m1, n, newName);
      }
    }
  }

  // ---------------------------------------------------------------------
  // Migrating legacy `done` marker files
  // ---------------------------------------------------------------------

  /** The path of a `done` entry inside directory `k`. */
  function DoneEntry(k: string): string {
    k + "/done"
  }

  /** `migrate_done_file` as written: it asks whether an entry named `done`
      exists, which is also true of a child directory named `done`. For a
      marker file the state is written and the file removed; for a child
      directory the state is written and removing it as a file fails. */
  function MigrateDoneFile(m: Nodes, k: string): (r: Outcome)
    requires k in m
    ensures r.store.Keys == m.Keys
    ensures forall j :: j in m && j != k ==> r.store[j] == m[j]
    ensures r.err.Some? <==> !m[k].doneMarker && DoneEntry(k) in m
    ensures r.err.Some? ==> r.err == Some(RemoveFailed(DoneEntry(k))) && ReadState(r.store[k]) == Done
    ensures m[k].doneMarker ==> r.store[k] == Migrated(m[k])
  {
    ParseAsStr(Done);
    if m[k].doneMarker then Outcome(m[k := Migrated(m[k])], None)
    else if DoneEntry(k) in m then Outcome(m[k := m[k].(stateFile := Some("done"))], Some(RemoveFailed(DoneEntry(k))))
    else Outcome(m, None)
  }

  /** The walk of `migrate_done_to_state`: every directory below the base,
      in the order given (the platform's directory-reading order); the
      first failure stops it. Names that are not directories below the
      base are never produced by the walk and are skipped. */
  function MigrateWalk(m: Nodes, order: seq<string>): (r: Outcome)
    ensures r.store.Keys == m.Keys
    ensures forall j :: j in m && (j !in order || j == "") ==> r.store[j] == m[j]
    ensures forall j :: j in m ==> && r.store[j].context == m[j].context && r.store[j].mtime == m[j].mtime
                                   && (r.store[j] == m[j] || r.store[j].stateFile == Some("done"))
    decreases |order|
  {
    if |order| == 0 then Outcome(m, None)
    else if order[0] !in m || order[0] == "" then MigrateWalk(m, order[1..])
    else
      var o := MigrateDoneFile(m, order[0]);
      if o.err.Some? then o else MigrateWalk(o.store, order[1..])
  }

  /** `migrate_done_to_state` as written: nothing happens without a base
      directory. */
  function MigrateDoneToState(m: Nodes, order: seq<string>): (r: Outcome)
    ensures "" !in m ==> r == Outcome(m, None)
    ensures r.store.Keys == m.Keys
    ensures forall j :: j in m && (j !in order || j == "") ==> r.store[j] == m[j]
    ensures forall j :: j in m ==> && r.store[j].context == m[j].context && r.store[j].mtime == m[j].mtime
                                   && (r.store[j] == m[j] || r.store[j].stateFile == Some("done"))
  {
    if "" !in m then Outcome(m, None) else MigrateWalk(m, order)
  }

  /** `r` is `m` with the marker of every walked directory below the base
      migrated. */
  predicate MigratedFrom(m: Nodes, r: Nodes, order: seq<string>) {
    && r.Keys == m.Keys
    && forall k :: k in m ==> r[k] == if k in order && k != "" && m[k].doneMarker then Migrated(m[k]) else m[k]
  }

  /** The evidently intended migration: only a marker file counts. */
  function MigrateMarkers(m: Nodes, order: seq<string>): (r: Nodes)
    ensures MigratedFrom(m, r, order)
    decreases |order|
  {
    if |order| == 0 then m
    else
      var k := order[0];
      var m1 := if k in m && k != "" && m[k].doneMarker then m[k := Migrated(m[k])] else m;
      var r := MigrateMarkers(m1, order[1..]);
      assert forall j :: j in order <==> j == k || j in order[1..];
      r
  }

  /** The intended migration over a full walk leaves no marker below the
      base, and every directory that had one reads as done. Running it a
      second time changes nothing. */
  lemma MigrateMarkersClears(m: Nodes, order: seq<string>)
    requires forall k :: k in m && k != "" ==> k in order
    ensures var r := MigrateMarkers(m, order);
      && (forall k :: k in r && k != "" ==> !r[k].doneMarker)
      && (forall k :: k in m && k != "" && m[k].doneMarker ==> ReadState(r[k]) == Done)
      && MigrateMarkers(r, order) == r
  {
    ParseAsStr(Done);
    var r := MigrateMarkers(m, order);
    var r2 := MigrateMarkers(r, order);
    assert forall k :: k in r ==> r2[k] == r[k];
  }

  /** When no walked directory has a child named `done`, the migration as
      written is the intended one and does not fail. */
  lemma {:induction false} MigrateWalkAgrees(m: Nodes, order: seq<string>)
    requires forall k :: k in order && k in m && k != "" ==> DoneEntry(k) !in m
    ensures MigrateWalk(m, order) == Outcome(MigrateMarkers(m, order), None)
    decreases |order|
  {
    if |order| > 0 {
      var k := order[0];
      if k in m && k != "" {
        var o := MigrateDoneFile(m, k);
        assert o.store.Keys == m.Keys;
        forall j | j in order[1..] && j in o.store && j != ""
          ensures DoneEntry(j) !in o.store
        {
          assert j in order;
        }
        MigrateWalkAgrees(o.store, order[1..]);
        assert o.store == (if m[k].doneMarker then m[k := Migrated(m[k])] else m);
      } else {
        MigrateWalkAgrees(m, order[1..]);
      }
    }
  }

  // Names of the migration counterexample: a yak `a` with a child yak
  // named `done` (`yx add a/done`).
  const A: string := "a"
  const AD: string := A + "/" + "done"

  function DoneChildStore(): Nodes {
    map["" := EmptyDir(0), A := Fresh(EmptyDir(0)), AD := Fresh(EmptyDir(0))]
  }

  /** On a store where the todo yak `a` has a child yak `a/done`, the
      migration as written marks `a` done and then fails, stopping every
      later command's start-up migration at the same place; the intended
      migration leaves the store as it is. */
  lemma MigrateDoneChild()
    ensures ReadState(DoneChildStore()[A]) == Todo
    ensures var r := MigrateDoneToState(DoneChildStore(), [A, AD]);
      r.err == Some(RemoveFailed(AD)) && ReadState(r.store[A]) == Done
    ensures MigrateMarkers(DoneChildStore(), [A, AD]) == DoneChildStore()
  {
    ParseAsStr(Todo);
    var m := DoneChildStore();
    DoneChildFacts();
    assert MigrateWalk(m, [A, AD]) == MigrateDoneFile(m, A);
    NoMarkersNoMigration(m, [A, AD]);
  }

  lemma DoneChildFacts()
    ensures var m := DoneChildStore();
      && "" in m && A in m && A != "" && !m[A].doneMarker && DoneEntry(A) in m && DoneEntry(A) == AD
      && forall k :: k in m ==> !m[k].doneMarker
  {
    assert A + "/done" == A + "/" + "done";
  }

  /** Without marker files the intended migration changes nothing. */
  lemma NoMarkersNoMigration(m: Nodes, order: seq<string>)
    requires forall k :: k in m ==> !m[k].doneMarker
    ensures MigrateMarkers(m, order) == m
  {
    var r := MigrateMarkers(m, order);
    assert forall k :: k in m ==> r[k] == m[k];
  }
}
