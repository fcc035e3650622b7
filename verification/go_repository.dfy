/** The Go `filesystem.Repository`: yaks are directories holding a `state`
    file and a `context.md` file, over the abstract store of `TaskTree`. */
module GoRepository {
  import opened Types
  import opened Strings
  import opened YakStates
  import opened Yaks
  import opened TaskTree

  // ---------------------------------------------------------------------
  // Reading
  // ---------------------------------------------------------------------

  /** The names `List` reports: every directory below the base that holds a
      state file. Directories made by `mkdir -p` without one are skipped. */
  function Listed(m: Nodes): (ns: set<string>)
    ensures forall k :: k in ns <==> k in m && k != "" && m[k].stateFile.Some?
  {
    set k | k in m && k != "" && m[k].stateFile.Some?
  }

  /** `loadYak` on a directory with a state file: the trimmed state text
      decides the state, a missing context reads as "". */
  function Load(m: Nodes, k: string): (y: Yak)
    requires k in m && m[k].stateFile.Some?
    ensures y.name == k && y.mtime == m[k].mtime
    ensures y.state == Done <==> Trim(m[k].stateFile.value) == "done"
    ensures y.context == (if m[k].context.Some? then m[k].context.value else "")
  {
    Yak(k, Parse(m[k].stateFile.value), m[k].context.GetOr(""), m[k].mtime)
  }

  /** `List`: one loaded yak per listed directory. */
  function List(m: Nodes): (ys: set<Yak>)
    ensures forall y :: y in ys ==> y.name in Listed(m) && y == Load(m, y.name)
    ensures forall k :: k in Listed(m) ==> Load(m, k) in ys
  {
    set k | k in Listed(m) :: Load(m, k)
  }

  /** A missing yaks directory lists nothing. */
  lemma ListMissingBase(m: Nodes)
    requires Valid(m) && "" !in m
    ensures List(m) == {}
  {
    assert m == map[];
  }

  /** Names of distinct listed yaks differ, so a listing never repeats a name. */
  lemma ListNamesUnique(m: Nodes, a: Yak, b: Yak)
    requires a in List(m) && b in List(m) && a.name == b.name
    ensures a == b
  {
  }

  /** `Get`: resolve the term against the listed names, then load the yak. */
  function Get(m: Nodes, term: string): (r: Result<Yak, StoreError>)
    ensures r.Ok? ==> r.value.name in Listed(m) && Contains(r.value.name, term)
    ensures term in Listed(m) ==> r.Ok? && r.value.name == term
    ensures r.Ok? && term !in Listed(m) ==> MatchSet(term, Listed(m)) == {r.value.name}
    ensures r.Err? ==> r.error == Lookup(NotFound(term)) || r.error == Lookup(Ambiguous(term))
    ensures r.Err? <==> term !in Listed(m) && |MatchSet(term, Listed(m))| != 1
  {
    match Resolve(term, Listed(m))
    case Err(e) => Err(Lookup(e))
    case Ok(n) => Ok(Load(m, n))
  }

  // ---------------------------------------------------------------------
  // Writing
  // ---------------------------------------------------------------------

  /** `Add`: validate the name, `mkdir -p` the base, its missing ancestors and
      the yak itself, then (re)write state "todo" and an empty context. */
  function Add(m: Nodes, name: string, now: int): (r: Result<Nodes, StoreError>)
    ensures r.Err? <==> !ValidName(name)
    ensures r.Err? ==> r.error == InvalidName(InvalidNameMessage)
    ensures r.Ok? ==>
      && r.value.Keys == m.Keys + {""} + Ancestors(name) + {name}
      && r.value[name].stateFile == Some("todo") && r.value[name].context == Some("")
      && (forall k :: k in m && k != name ==> r.value[k] == m[k])
      && (forall k :: k in r.value && k !in m && k != name ==> r.value[k] == EmptyDir(now))
  {
    match ValidateYakName(name)
    case Err(msg) => Err(InvalidName(msg))
    case Ok(_) =>
      var dirs := CreateMissing(m, {""} + Ancestors(name) + {name}, EmptyDir(now));
      Ok(dirs[name := Fresh(dirs[name])])
  }

  lemma AddKeepsStoreValid(m: Nodes, name: string, now: int)
    requires Valid(m) && WellFormed(name) && Add(m, name, now).Ok?
    ensures Valid(Add(m, name, now).value)
  {
    AddKeepsValid(m, name, Add(m, name, now).value);
  }

  /** After `Add`, the listing gains exactly the new name (intermediate
      directories have no state file) and `Get` finds it as a fresh todo. */
  lemma AddThenList(m: Nodes, name: string, now: int)
    requires WellFormed(name) && ValidName(name)
    ensures Add(m, name, now).Ok?
    ensures Listed(Add(m, name, now).value) == Listed(m) + {name}
    ensures Get(Add(m, name, now).value, name).Ok?
    ensures Get(Add(m, name, now).value, name).value.state == Todo
    ensures Get(Add(m, name, now).value, name).value.context == ""
  {
    AddListed(m, name, now);
    ParseAsStr(Todo);
  }

  lemma AddListed(m: Nodes, name: string, now: int)
    requires WellFormed(name) && ValidName(name)
    ensures Add(m, name, now).Ok?
    ensures Listed(Add(m, name, now).value) == Listed(m) + {name}
  {
    var r := Add(m, name, now).value;
    forall k | k in r
      ensures k in Listed(r) <==> k in Listed(m) + {name}
    {
      if k !in m && k != name {
        assert r[k] == EmptyDir(now);
      }
    }
  }

  /** The resolved yak's node with one file rewritten; every other key is
      left as it was. */
  function WriteNode(m: Nodes, term: string, f: Node -> Node): (r: Result<Nodes, StoreError>)
    ensures r.Err? <==> Get(m, term).Err?
    ensures r.Err? ==> r.error == Get(m, term).error
    ensures r.Ok? ==> var n := Get(m, term).value.name;
      && r.value.Keys == m.Keys
      && r.value[n] == f(m[n])
      && (forall k :: k in m && k != n ==> r.value[k] == m[k])
  {
    match Get(m, term)
    case Err(e) => Err(e)
    case Ok(y) => Ok(m[y.name := f(m[y.name])])
  }

  /** `SetState`: write the state file of the resolved yak. */
  function SetState(m: Nodes, term: string, state: YakState): (r: Result<Nodes, StoreError>)
    ensures r.Err? <==> Get(m, term).Err?
    ensures r.Ok? ==> var n := Get(m, term).value.name;
      && r.value.Keys == m.Keys
      && r.value[n] == m[n].(stateFile := Some(AsStr(state)))
      && (forall k :: k in m && k != n ==> r.value[k] == m[k])
  {
    WriteNode(m, term, (n: Node) => n.(stateFile := Some(AsStr(state))))
  }

  /** What `SetState` writes is what `Get` then reads, and the set of listed
      yaks does not change. */
  lemma SetStateThenGet(m: Nodes, term: string, state: YakState)
    requires SetState(m, term, state).Ok?
    ensures var n := Get(m, term).value.name;
      var r := SetState(m, term, state).value;
      && Listed(r) == Listed(m)
      && Get(r, n) == Ok(Get(m, term).value.(state := state))
  {
    var y := Get(m, term).value;
    var n := y.name;
    var r := SetState(m, term, state).value;
    assert Listed(r) == Listed(m) by {
      forall k ensures k in Listed(r) <==> k in Listed(m) {
        if k in m && k != n { assert r[k] == m[k]; }
      }
    }
    assert n in Listed(r);
    assert Get(r, n) == Ok(Load(r, n));
    ParseAsStr(state);
    assert Load(r, n) == y.(state := state);
  }

  /** `SetContext`: write the context file of the resolved yak. */
  function SetContext(m: Nodes, term: string, context: string): (r: Result<Nodes, StoreError>)
    ensures r.Err? <==> Get(m, term).Err?
    ensures r.Ok? ==> var n := Get(m, term).value.name;
      && r.value.Keys == m.Keys
      && r.value[n] == m[n].(context := Some(context))
      && (forall k :: k in m && k != n ==> r.value[k] == m[k])
  {
    WriteNode(m, term, (n: Node) => n.(context := Some(context)))
  }

  lemma SetContextThenGet(m: Nodes, term: string, context: string)
    requires SetContext(m, term, context).Ok?
    ensures var n := Get(m, term).value.name;
      var r := SetContext(m, term, context).value;
      && Listed(r) == Listed(m)
      && Get(r, n) == Ok(Get(m, term).value.(context := context))
  {
    var r := SetContext(m, term, context).value;
    assert Listed(r) == Listed(m);
  }

  /** `Remove`: `rm -r` of the resolved yak's directory. */
  function Remove(m: Nodes, term: string): (r: Result<Nodes, StoreError>)
    ensures r.Err? <==> Get(m, term).Err?
    ensures r.Err? ==> r.error == Get(m, term).error
    ensures r.Ok? ==> var n := Get(m, term).value.name;
      && (forall k :: k in r.value <==> k in m && !AtOrUnder(k, n))
      && (forall k :: k in r.value ==> r.value[k] == m[k])
  {
    match Get(m, term)
    case Err(e) => Err(e)
    case Ok(y) => Ok(RemoveSubtree(m, y.name))
  }

  /** Removing a yak drops it and its listed descendants from the listing. */
  lemma RemoveThenList(m: Nodes, term: string)
    requires Valid(m) && Remove(m, term).Ok?
    ensures var n := Get(m, term).value.name;
      && Valid(Remove(m, term).value)
      && Listed(Remove(m, term).value) == set k | k in Listed(m) && !AtOrUnder(k, n)
  {
    var n := Get(m, term).value.name;
    RemoveKeepsValid(m, n);
  }

  /** `Move`: resolve the old name, validate the new one, create its missing
      ancestors, then rename the directory. A failing rename keeps the
      ancestors already created. */
  function Move(m: Nodes, oldName: string, newName: string, now: int): (r: Outcome)
    ensures Get(m, oldName).Err? ==> r == Outcome(m, Some(Get(m, oldName).error))
    ensures Get(m, oldName).Ok? && !ValidName(newName) ==> r == Outcome(m, Some(InvalidName(InvalidNameMessage)))
    ensures r.err.None? ==> Get(m, oldName).Ok? && ValidName(newName)
    ensures Get(m, oldName).Ok? && ValidName(newName) ==>
      var n := Get(m, oldName).value.name;
      var m1 := EnsureParents(m, newName, now);
      && (r.err.Some? <==> RenameBlocked(m1, n, newName))
      && (r.err.Some? ==> r == Outcome(m1, Some(RenameFailed(n, newName))))
      && (r.err.None? ==> MovedFrom(m, r.store, n, newName, now))
  {
    match Get(m, oldName)
    case Err(e) => Outcome(m, Some(e))
    case Ok(y) =>
      match ValidateYakName(newName)
      case Err(msg) => Outcome(m, Some(InvalidName(msg)))
      case Ok(_) =>
        var m1 := EnsureParents(m, newName, now);
        MoveWithParents(m, y.name, newName, now);
        match Rename(m1, y.name, newName)
        case Err(e) => Outcome(m1, Some(e))
        case Ok(m2) => Outcome(m2, None)
  }

  /** A successful move keeps the store a prefix-closed tree. */
  lemma MoveKeepsValid(m: Nodes, oldName: string, newName: string, now: int)
    requires Valid(m) && WellFormed(newName)
    ensures Valid(Move(m, oldName, newName, now).store)
  {
    var r := Move(m, oldName, newName, now);
    if Get(m, oldName).Ok? && ValidName(newName) {
      var n := Get(m, oldName).value.name;
      var m1 := EnsureParents(m, newName, now);
      assert "" in m;
      assert m1.Keys == m.Keys + {""} + Ancestors(newName);
      AncestorsClosed(newName);
      assert Valid(m1);
      if Rename(m1, n, newName).Ok? {
        RenameKeepsValid(m1, n, newName);
      }
    }
  }

  // ---------------------------------------------------------------------
  // Completion
  // ---------------------------------------------------------------------

  /** A directory whose state file says anything but "done" (after trimming). */
  predicate Incomplete(n: Node) {
    n.stateFile.Some? && Parse(n.stateFile.value) != Done
  }

  /** `HasIncompleteChildren`: some direct child has a state file that does
      not say done. Grandchildren and state-less children do not count. */
  function HasIncompleteChildren(m: Nodes, term: string): (r: Result<bool, StoreError>)
    ensures r.Err? <==> Get(m, term).Err?
    ensures r.Err? ==> r.error == Get(m, term).error
    ensures r.Ok? ==>
      (r.value <==> exists c :: c in Children(m, Get(m, term).value.name) && Incomplete(m[c]))
  {
    match Get(m, term)
    case Err(e) => Err(e)
    case Ok(y) =>
      ScanChildren(m, y.name, Incomplete);
      Ok(AnyInOrder(m, ChildList(m, y.name), Incomplete))
  }

  /** A yak with no child directories never has incomplete children. */
  lemma ChildlessIsComplete(m: Nodes, term: string)
    requires Get(m, term).Ok? && Children(m, Get(m, term).value.name) == {}
    ensures HasIncompleteChildren(m, term) == Ok(false)
  {
  }

  /** The trace of a recursive completion: the store, the names whose state
      was written (in order), and the error that stopped it, if any. */
  datatype Marked = Marked(store: Nodes, trace: seq<string>, err: Option<StoreError>)

  /** `r` is `m` with the state file of every name of `trace` set to "done". */
  predicate MarkedFrom(m: Nodes, r: Nodes, trace: seq<string>) {
    && r.Keys == m.Keys
    && (forall k :: k in trace ==> k in m)
    && (forall k :: k in m ==> r[k] == if k in trace then m[k].(stateFile := Some("done")) else m[k])
  }

  lemma MarkedFromCompose(a: Nodes, b: Nodes, c: Nodes, t1: seq<string>, t2: seq<string>)
    requires MarkedFrom(a, b, t1) && MarkedFrom(b, c, t2)
    ensures MarkedFrom(a, c, t1 + t2)
  {
  }

  /** Marking one yak: its children are longer names, the recursion bound
      shrinks, and only its state file changed. */
  lemma MarkStep(m: Nodes, n: string, len: nat)
    requires n in m && |n| >= len
    ensures var m1 := m[n := m[n].(stateFile := Some("done"))];
      && (forall i :: 0 <= i < |ChildList(m1, n)| ==> |ChildList(m1, n)[i]| >= |n| + 1)
      && Longer(m1, |n| + 1) < Longer(m, len)
      && MarkedFrom(m, m1, [n])
  {
    var m1 := m[n := m[n].(stateFile := Some("done"))];
    ChildrenLonger(m1, n);
    LongerShrinks(m, m1, len, n);
  }

  /** `MarkDoneRecursively` as written: resolve the term through `Get`, mark
      the yak done, then recurse on each child directory in `os.ReadDir`
      order, again through `Get`. A child path that is not itself a listed
      yak is resolved by substring, so it can land on an unrelated yak. The
      first error stops the walk; earlier writes stay. */
  function MarkDoneRecursively(m: Nodes, term: string): (r: Marked)
    ensures MarkedFrom(m, r.store, r.trace)
    decreases Longer(m, |term|), 0
  {
    match Get(m, term)
    case Err(e) => Marked(m, [], Some(e))
    case Ok(y) =>
      var n := y.name;
      ContainsLength(n, term);
      var m1 := m[n := m[n].(stateFile := Some("done"))];
      MarkStep(m, n, |term|);
      var rest := MarkChildren(m1, ChildList(m1, n), |n| + 1);
      MarkedFromCompose(m, m1, rest.store, [n], rest.trace);
      Marked(rest.store, [n] + rest.trace, rest.err)
  }

  /** An unresolvable term changes nothing; otherwise the resolved yak is
      the first one marked, before any of its children. */
  lemma MarkDoneRecursivelyStart(m: Nodes, term: string)
    ensures Get(m, term).Err? ==> MarkDoneRecursively(m, term) == Marked(m, [], Some(Get(m, term).error))
    ensures Get(m, term).Ok? ==>
      var r := MarkDoneRecursively(m, term);
      |r.trace| > 0 && r.trace[0] == Get(m, term).value.name
  {
  }

  /** The loop over child directories in `MarkDoneRecursively`. */
  function MarkChildren(m: Nodes, cs: seq<string>, len: nat): (r: Marked)
    requires forall i :: 0 <= i < |cs| ==> |cs[i]| >= len
    ensures MarkedFrom(m, r.store, r.trace)
    decreases Longer(m, len), 1, |cs|
  {
    if |cs| == 0 then Marked(m, [], None)
    else
      var first := MarkDoneRecursively(m, cs[0]);
      if first.err.Some? then first
      else
        assert Longer(first.store, len) == Longer(m, len);
        var rest := MarkChildren(first.store, cs[1..], len);
        MarkedFromCompose(m, first.store, rest.store, first.trace, rest.trace);
        Marked(rest.store, first.trace + rest.trace, rest.err)
  }

  /** The evidently intended recursive completion: mark the resolved yak and
      every directory below it done, by exact path. */
  function MarkDoneSubtree(m: Nodes, term: string): (r: Result<Nodes, StoreError>)
    ensures r.Err? <==> Get(m, term).Err?
    ensures r.Err? ==> r.error == Get(m, term).error
    ensures r.Ok? ==> var n := Get(m, term).value.name;
      && r.value.Keys == m.Keys
      && (forall k :: k in m && AtOrUnder(k, n) ==> r.value[k] == m[k].(stateFile := Some("done")))
      && (forall k :: k in m && !AtOrUnder(k, n) ==> r.value[k] == m[k])
  {
    match Get(m, term)
    case Err(e) => Err(e)
    case Ok(y) =>
      Ok(map k | k in m :: if AtOrUnder(k, y.name) then m[k].(stateFile := Some(AsStr(Done))) else m[k])
  }

  /** After the corrected completion every directory of the subtree is a
      listed, done yak, and nothing outside the subtree changed state. */
  lemma MarkDoneSubtreeAllDone(m: Nodes, term: string)
    requires MarkDoneSubtree(m, term).Ok?
    ensures var n := Get(m, term).value.name;
      var r := MarkDoneSubtree(m, term).value;
      && (forall k :: k in m && AtOrUnder(k, n) ==> k in Listed(r) && Get(r, k).Ok? && Get(r, k).value.state == Done)
      && (forall k :: k in Listed(m) && !AtOrUnder(k, n) ==> k in Listed(r) && Load(r, k) == Load(m, k))
  {
    ParseAsStr(Done);
  }

  // Names of the recursive-completion counterexample, built by joining
  // segments so that their directories follow from `DirKeyOfJoin`.
  const A: string := "a"
  const AB: string := A + "/" + "b"
  const XA: string := "xa"
  const XAB: string := XA + "/" + "b"

  /** The store of the counterexample: `add a`, `add a/b/c`, `rm a/b/c`,
      `add xa/b` leave `a/b` and `xa` as directories without a state file. */
  function StrayStore(): Nodes {
    map["" := EmptyDir(0), A := Fresh(EmptyDir(0)), AB := EmptyDir(0), XA := EmptyDir(0), XAB := Fresh(EmptyDir(0))]
  }

  /** `done --recursive a` marks `xa/b` done: the child path `a/b` is not a
      listed yak, and `xa/b` is the only listed name containing it. The
      corrected completion leaves `xa/b` alone. */
  lemma MarkDoneRecursivelyStrays()
    ensures !AtOrUnder(XAB, A)
    ensures XAB in MarkDoneRecursively(StrayStore(), A).trace
    ensures MarkDoneRecursively(StrayStore(), A).store[XAB].stateFile == Some("done")
    ensures MarkDoneSubtree(StrayStore(), A).Ok?
    ensures MarkDoneSubtree(StrayStore(), A).value[XAB] == StrayStore()[XAB]
  {
    StrayTop();
    StrayInner();
    StrayOutside();
  }

  function StrayMarked(): Nodes {
    StrayStore()[A := StrayStore()[A].(stateFile := Some("done"))]
  }

  /** The first step marks `a` and walks its only child path, `a/b`. */
  lemma StrayTop()
    ensures MarkDoneRecursively(StrayStore(), A).trace == [A] + MarkChildren(StrayMarked(), [AB], |A| + 1).trace
  {
    StrayListed(StrayStore());
    StrayChildren(StrayMarked());
    assert Get(StrayStore(), A).value.name == A;
    MarkDoneRecursivelyStart(StrayStore(), A);
  }

  /** Walking `a/b` resolves it to `xa/b`. */
  lemma StrayInner()
    ensures XAB in MarkChildren(StrayMarked(), [AB], |A| + 1).trace
  {
    StrayListed(StrayMarked());
    StrayResolve();
    assert Get(StrayMarked(), AB).value.name == XAB;
    MarkDoneRecursivelyStart(StrayMarked(), AB);
  }

  lemma StrayOutside()
    ensures !AtOrUnder(XAB, A)
    ensures MarkDoneSubtree(StrayStore(), A).Ok?
    ensures MarkDoneSubtree(StrayStore(), A).value[XAB] == StrayStore()[XAB]
  {
    StrayListed(StrayStore());
    assert XAB[0] != (A + "/")[0];
  }

  lemma StrayKeys(m: Nodes)
    requires m.Keys == StrayStore().Keys
    ensures forall c :: c in m <==> c == "" || c == A || c == AB || c == XA || c == XAB
    ensures |A| == 1 && |AB| == 3 && |XA| == 2 && |XAB| == 4
  {
  }

  lemma StrayListed(m: Nodes)
    requires m.Keys == StrayStore().Keys
    requires m[A].stateFile.Some? && m[XAB].stateFile.Some?
    requires m[""] == EmptyDir(0) && m[AB] == EmptyDir(0) && m[XA] == EmptyDir(0)
    ensures Listed(m) == {A, XAB}
  {
    StrayKeys(m);
  }

  lemma StrayChildren(m: Nodes)
    requires m.Keys == StrayStore().Keys
    ensures ChildList(m, A) == [AB]
  {
    StrayKeys(m);
    DirKeyOfJoin(A, "b");
    DirKeyOfJoin(XA, "b");
    TopLevelDirKey(A);
    TopLevelDirKey(XA);
    assert Children(m, A) == {AB};
    var cs := ChildList(m, A);
    assert |cs| == 1 && AB in cs;
  }

  lemma DirKeyOfJoin(p: string, b: string)
    requires '/' !in b
    ensures DirKey(p + "/" + b) == p
  {
    ParentOfJoin(p, b);
  }

  lemma TopLevelDirKey(n: string)
    requires '/' !in n
    ensures DirKey(n) == ""
  {
  }

  lemma StrayResolve()
    ensures Resolve(AB, {A, XAB}) == Ok(XAB)
  {
    assert XAB[1..4] == AB;
    assert OccursAt(XAB, AB, 1);
    assert !Contains(A, AB);
    assert MatchSet(AB, {A, XAB}) == {XAB};
  }
}
