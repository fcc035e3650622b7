/** The `.yaks` directory as an abstract map. Every directory under the base
    path is a key: its name relative to the base (`a/b`), with the base
    directory itself as the key "". The value records the files the program
    looks at inside that directory. The map is prefix-closed: the directory
    holding a key is itself a key. */
module TaskTree {
  import opened Types
  import opened Strings
  import opened YakStates
  import opened Yaks

  /** One directory: its `state` file, its `context.md` file, whether it holds
      a legacy `done` marker file, and its modification time. */
  datatype Node = Node(stateFile: Option<string>, context: Option<string>, doneMarker: bool, mtime: int)

  type Nodes = map<string, Node>

  datatype StoreError =
    | Lookup(cause: FindError)
    | InvalidName(message: string)
    | IncompleteChildren(name: string)
    | RenameFailed(from: string, to: string)
    | RemoveFailed(path: string)

  /** The store after an operation that may fail part-way: writes made before
      the failure are kept. */
  datatype Outcome = Outcome(store: Nodes, err: Option<StoreError>)

  /** A directory created by `mkdir -p`: no files inside. */
  function EmptyDir(now: int): Node {
    Node(None, None, false, now)
  }

  /** The directory holding `k`: its parent name, or the base directory. */
  function DirKey(k: string): string {
    match Parent(k)
    case None => ""
    case Some(p) => p
  }

  /** The base directory exists as soon as anything does, and every other
      key is a well-formed name whose directory is present. */
  predicate Valid(m: Nodes) {
    && (m == map[] || "" in m)
    && forall k :: k in m && k != "" ==> WellFormed(k) && DirKey(k) in m
  }

  /** `c` lies strictly below `k`. */
  predicate Under(c: string, k: string) {
    IsPrefix(k + "/", c)
  }

  /** `c` is `k` or lies below it; every key lies in the base's subtree. */
  predicate InSubtree(c: string, k: string) {
    c == k || k == "" || Under(c, k)
  }

  /** The direct subdirectories of `k`. */
  function Children(m: Nodes, k: string): (cs: set<string>)
    ensures forall c :: c in cs <==> c in m && c != "" && DirKey(c) == k
  {
    set c | c in m && c != "" && DirKey(c) == k
  }

  /** The proper '/'-prefixes of a name: the ancestors `mkdir -p` creates. */
  function Ancestors(name: string): (as_: set<string>)
    ensures forall a :: a in as_ <==> exists i :: 0 <= i < |name| && name[i] == '/' && a == name[..i]
  {
    set i | 0 <= i < |name| && name[i] == '/' :: name[..i]
  }

  /** Adds `node` for every key of `dirs` not yet present; existing keys are untouched. */
  function CreateMissing(m: Nodes, dirs: set<string>, node: Node): (r: Nodes)
    ensures r.Keys == m.Keys + dirs
    ensures forall k :: k in m ==> r[k] == m[k]
    ensures forall k :: k in dirs && k !in m ==> r[k] == node
  {
    map k | k in m.Keys + dirs :: if k in m then m[k] else node
  }

  /** Deletes `k` and everything below it (`rm -r`). */
  function RemoveSubtree(m: Nodes, k: string): (r: Nodes)
    ensures forall c :: c in r <==> c in m && !InSubtree(c, k)
    ensures forall c :: c in r ==> r[c] == m[c]
  {
    map c | c in m && !InSubtree(c, k) :: m[c]
  }

  // ---------------------------------------------------------------------
  // Path lemmas
  // ---------------------------------------------------------------------

  /** The parent of `x/r` is `x` when `r` is one segment, else `x/parent(r)`. */
  lemma ParentOfPrefixed(x: string, r: string)
    ensures '/' !in r ==> Parent(x + "/" + r) == Some(x)
    ensures '/' in r ==> Parent(r).Some? && Parent(x + "/" + r) == Some(x + "/" + Parent(r).value)
  {
    if '/' !in r {
      ParentOfJoin(x, r);
    } else {
      var p := Parent(r).value;
      var b := Basename(r);
      assert r == p + "/" + b;
      assert x + "/" + r == (x + "/" + p) + "/" + b;
      ParentOfJoin(x + "/" + p, b);
    }
  }

  /** A key strictly below `k` has its directory at `k` or below `k`. */
  lemma DirKeyUnder(c: string, k: string)
    requires Under(c, k)
    ensures DirKey(c) == k || Under(DirKey(c), k)
  {
    var r := c[|k| + 1..];
    assert c == k + "/" + r by { assert c[..|k| + 1] == k + "/"; }
    ParentOfPrefixed(k, r);
    if '/' in r {
      var p := Parent(r).value;
      assert DirKey(c) == k + "/" + p;
      assert (k + "/" + p)[..|k| + 1] == k + "/";
    }
  }

  lemma UnderTransitive(a: string, b: string, c: string)
    requires Under(a, b) && Under(b, c)
    ensures Under(a, c)
  {
    assert a[..|b| + 1] == b + "/";
    assert a[..|c| + 1] == a[..|b| + 1][..|c| + 1];
  }

  /** A key is strictly below its own directory. */
  lemma UnderDirKey(c: string)
    requires Parent(c).Some?
    ensures Under(c, DirKey(c))
  {
    var p := Parent(c).value;
    assert c == p + "/" + Basename(c);
    assert c[..|p| + 1] == p + "/";
  }

  /** If the directory of `c` lies in the subtree of `k`, so does `c`. */
  lemma InSubtreeOfDirKey(c: string, k: string)
    requires c != "" && InSubtree(DirKey(c), k)
    ensures InSubtree(c, k)
  {
    if k != "" {
      if Parent(c).Some? {
        UnderDirKey(c);
        if DirKey(c) != k {
          UnderTransitive(c, DirKey(c), k);
        }
      }
    }
  }

  /** Ancestors of a well-formed name are well-formed and closed under DirKey;
      the name's own directory is one of them (or the base). */
  lemma AncestorsClosed(name: string)
    requires WellFormed(name)
    ensures forall a :: a in Ancestors(name) ==> WellFormed(a) && (DirKey(a) == "" || DirKey(a) in Ancestors(name))
    ensures DirKey(name) == "" || DirKey(name) in Ancestors(name)
  {
    forall a | a in Ancestors(name)
      ensures WellFormed(a) && (DirKey(a) == "" || DirKey(a) in Ancestors(name))
    {
      var i :| 0 <= i < |name| && name[i] == '/' && a == name[..i];
      PrefixWellFormed(name, i);
      PrefixDirKey(name, i);
    }
    if Parent(name).Some? {
      var p := Parent(name).value;
      assert name == p + "/" + Basename(name);
      assert name[|p|] == '/' && name[..|p|] == p;
    }
  }

  lemma PrefixWellFormed(name: string, i: int)
    requires WellFormed(name) && 0 <= i < |name| && name[i] == '/'
    ensures WellFormed(name[..i])
  {
    var a := name[..i];
    assert i > 0;
    assert name[i - 1] != '/';
    forall j | 0 <= j < |a| - 1 && a[j] == '/' ensures a[j + 1] != '/' {
      assert name[j] == a[j] && name[j + 1] == a[j + 1];
    }
  }

  lemma PrefixDirKey(name: string, i: int)
    requires 0 <= i < |name| && name[i] == '/'
    ensures DirKey(name[..i]) == "" || DirKey(name[..i]) in Ancestors(name)
  {
    var a := name[..i];
    if Parent(a).Some? {
      var p := Parent(a).value;
      assert a == p + "/" + Basename(a);
      assert a[|p|] == '/' && a[..|p|] == p;
      assert name[|p|] == '/' && name[..|p|] == p;
    }
  }

  /** Creating the base, the missing ancestors and the name itself keeps the
      store prefix-closed. */
  lemma AddKeepsValid(m: Nodes, name: string, r: Nodes)
    requires Valid(m) && WellFormed(name)
    requires r.Keys == m.Keys + {""} + Ancestors(name) + {name}
    ensures Valid(r)
  {
    AncestorsClosed(name);
  }

  /** Deleting a subtree keeps the store prefix-closed. */
  lemma RemoveKeepsValid(m: Nodes, k: string)
    requires Valid(m)
    ensures Valid(RemoveSubtree(m, k))
  {
    var r := RemoveSubtree(m, k);
    if k != "" && "" in m {
      assert !Under("", k);
      assert "" in r;
    }
    forall c | c in r && c != ""
      ensures WellFormed(c) && DirKey(c) in r
    {
      if InSubtree(DirKey(c), k) {
        InSubtreeOfDirKey(c, k);
      }
    }
  }

  /** Rewriting a state or context inside existing directories keeps the keys,
      hence validity. */
  lemma SameKeysValid(m: Nodes, r: Nodes)
    requires Valid(m) && r.Keys == m.Keys
    ensures Valid(r)
  {
  }

  // ---------------------------------------------------------------------
  // Moving a subtree (os.Rename / fs::rename of a directory)
  // ---------------------------------------------------------------------

  /** Where key `c` of the subtree at `from` lands when it moves to `to`. */
  function Rebase(c: string, from: string, to: string): string
    requires AtOrUnder(c, from)
  {
    to + c[|from|..]
  }

  lemma RebaseInjective(from: string, to: string)
    ensures forall c1, c2 :: AtOrUnder(c1, from) && AtOrUnder(c2, from) && Rebase(c1, from, to) == Rebase(c2, from, to) ==> c1 == c2
  {
    forall c1, c2 | AtOrUnder(c1, from) && AtOrUnder(c2, from) && Rebase(c1, from, to) == Rebase(c2, from, to)
      ensures c1 == c2
    {
      assert c1[..|from|] == from && c2[..|from|] == from;
      assert c1[|from|..] == Rebase(c1, from, to)[|to|..];
      assert c1 == c1[..|from|] + c1[|from|..] && c2 == c2[..|from|] + c2[|from|..];
    }
  }

  /** A directory with no files and no subdirectories. */
  predicate IsEmptyDir(m: Nodes, k: string)
    requires k in m
  {
    m[k].stateFile.None? && m[k].context.None? && !m[k].doneMarker && Children(m, k) == {}
  }

  /** `c` is `from` itself or lies below it. */
  predicate AtOrUnder(c: string, from: string) {
    c == from || Under(c, from)
  }

  /** The subtree at `from` moved to `to`; `to` itself is replaced. */
  function MoveSubtree(m: Nodes, from: string, to: string): (r: Nodes)
  {
    var kept := map c | c in m && !AtOrUnder(c, from) && c != to :: m[c];
    RebaseInjective(from, to);
    var moved := map c | c in m && AtOrUnder(c, from) :: Rebase(c, from, to) := m[c];
    kept + moved
  }

  lemma RebaseAtOrUnder(c: string, from: string, to: string)
    requires AtOrUnder(c, from)
    ensures AtOrUnder(Rebase(c, from, to), to)
    ensures c != from ==> Under(Rebase(c, from, to), to)
  {
    if c != from {
      UnderSplit(c, from);
      assert Rebase(c, from, to) == to + "/" + c[|from| + 1..];
      assert (to + "/" + c[|from| + 1..])[..|to| + 1] == to + "/";
    }
  }

  /** What `MoveSubtree` does to each key: moved keys keep their contents at
      their new place, keys outside both subtrees keep theirs, and nothing
      else appears. */
  lemma MoveSubtreeFacts(m: Nodes, from: string, to: string)
    ensures forall c :: c in m && AtOrUnder(c, from) ==>
      Rebase(c, from, to) in MoveSubtree(m, from, to) && MoveSubtree(m, from, to)[Rebase(c, from, to)] == m[c]
    ensures forall k :: k in m && !AtOrUnder(k, from) && !AtOrUnder(k, to) ==>
      k in MoveSubtree(m, from, to) && MoveSubtree(m, from, to)[k] == m[k]
    ensures forall k :: k in MoveSubtree(m, from, to) ==>
      (k in m && !AtOrUnder(k, from) && k != to) || (exists c :: c in m && AtOrUnder(c, from) && Rebase(c, from, to) == k)
  {
    var r := MoveSubtree(m, from, to);
    RebaseInjective(from, to);
    var moved := map c | c in m && AtOrUnder(c, from) :: Rebase(c, from, to) := m[c];
    forall c | c in m && AtOrUnder(c, from)
      ensures Rebase(c, from, to) in r && r[Rebase(c, from, to)] == m[c]
    {
      assert Rebase(c, from, to) in moved;
    }
    forall k | k in m && !AtOrUnder(k, from) && !AtOrUnder(k, to)
      ensures k in r && r[k] == m[k]
    {
      forall c | c in m && AtOrUnder(c, from) ensures Rebase(c, from, to) != k {
        RebaseAtOrUnder(c, from, to);
      }
      assert k !in moved;
    }
  }

  /** `rename(from, to)` on directories: renaming onto itself does nothing,
      renaming into one's own subtree fails, and the target may only exist as
      an empty directory, which it replaces. On success every key of the old
      subtree reappears, with the same contents, at its place under `to`, and
      every key outside both subtrees is unchanged. */
  function Rename(m: Nodes, from: string, to: string): (r: Result<Nodes, StoreError>)
    requires from in m && from != ""
    ensures from == to ==> r == Ok(m)
    ensures r.Err? <==> from != to && (Under(to, from) || (to in m && !IsEmptyDir(m, to)))
    ensures r.Err? ==> r.error == RenameFailed(from, to)
    ensures r.Ok? && from != to ==>
      && (forall c :: c in m && AtOrUnder(c, from) ==> Rebase(c, from, to) in r.value && r.value[Rebase(c, from, to)] == m[c])
      && (forall k :: k in m && !AtOrUnder(k, from) && !AtOrUnder(k, to) ==> k in r.value && r.value[k] == m[k])
      && (forall k :: k in r.value ==> AtOrUnder(k, to) || (k in m && !AtOrUnder(k, from)))
  {
    if from == to then Ok(m)
    else if Under(to, from) then Err(RenameFailed(from, to))
    else if to in m && !IsEmptyDir(m, to) then Err(RenameFailed(from, to))
    else
      MoveSubtreeFacts(m, from, to);
      assert forall c :: c in m && AtOrUnder(c, from) ==> AtOrUnder(Rebase(c, from, to), to) by {
        forall c | c in m && AtOrUnder(c, from) ensures AtOrUnder(Rebase(c, from, to), to) {
          RebaseAtOrUnder(c, from, to);
        }
      }
      Ok(MoveSubtree(m, from, to))
  }

  lemma WellFormedJoin(x: string, y: string)
    requires WellFormed(x) && WellFormed(y)
    ensures WellFormed(x + "/" + y)
  {
    var n := x + "/" + y;
    forall i | 0 <= i < |n| - 1 && n[i] == '/' ensures n[i + 1] != '/' {
      if i < |x| - 1 {
        assert n[i] == x[i] && n[i + 1] == x[i + 1];
      } else if i > |x| {
        assert n[i] == y[i - |x| - 1] && n[i + 1] == y[i - |x|];
      }
    }
  }

  lemma WellFormedSuffix(x: string, y: string)
    requires WellFormed(x + "/" + y)
    ensures WellFormed(y)
  {
    var n := x + "/" + y;
    assert n[|n| - 1] != '/';
    assert |y| > 0;
    assert y[0] != '/' by { assert n[|x|] == '/' && n[|x| + 1] == y[0]; }
    assert y[|y| - 1] == n[|n| - 1];
    forall i | 0 <= i < |y| - 1 && y[i] == '/' ensures y[i + 1] != '/' {
      assert n[|x| + 1 + i] == y[i] && n[|x| + 2 + i] == y[i + 1];
    }
  }

  lemma UnderSplit(c: string, k: string)
    requires Under(c, k)
    ensures c == k + "/" + c[|k| + 1..]
    ensures c[|k|..] == "/" + c[|k| + 1..]
  {
    assert c[..|k| + 1] == k + "/";
  }

  /** A key strictly below `t` means `t` has a child in a valid store. */
  lemma {:induction false} BelowHasChild(m: Nodes, k: string, t: string)
    requires Valid(m) && k in m
    ensures Under(k, t) ==> t in m && Children(m, t) != {}
    decreases |k|
  {
    if Under(k, t) {
      UnderSplit(k, t);
      DirKeyUnder(k, t);
      var d := DirKey(k);
      if d == t {
        assert k in Children(m, t);
      } else {
        UnderDirKey(k);
        BelowHasChild(m, d, t);
      }
    }
  }

  /** A successful rename finds nothing below its target. */
  lemma NothingBelowTarget(m: Nodes, from: string, to: string)
    requires Valid(m) && from in m && from != "" && from != to
    requires Rename(m, from, to).Ok?
    ensures forall k :: k in m ==> !Under(k, to)
  {
    forall k | k in m ensures !Under(k, to) {
      BelowHasChild(m, k, to);
    }
  }

  /** Renaming keeps the store prefix-closed when the target's directory
      exists, which is what both programs ensure before renaming. */
  lemma RenameKeepsValid(m: Nodes, from: string, to: string)
    requires Valid(m) && from in m && from != ""
    requires WellFormed(to) && DirKey(to) in m
    requires Rename(m, from, to).Ok?
    ensures Valid(Rename(m, from, to).value)
  {
    if from != to {
      var r := Rename(m, from, to).value;
      assert "" in r by {
        assert !AtOrUnder("", from) && !AtOrUnder("", to);
      }
      MoveSubtreeFacts(m, from, to);
      NothingBelowTarget(m, from, to);
      forall k | k in r && k != ""
        ensures WellFormed(k) && DirKey(k) in r
      {
        if k == to {
          TargetKeyValid(m, from, to);
        } else if k in m && !AtOrUnder(k, from) && k != to {
          KeptKeyValid(m, from, to, k);
        } else {
          var c :| c in m && AtOrUnder(c, from) && Rebase(c, from, to) == k;
          MovedKeyValid(m, from, to, c);
        }
      }
    }
  }

  lemma TargetKeyValid(m: Nodes, from: string, to: string)
    requires Valid(m) && from in m && from != "" && from != to
    requires WellFormed(to) && DirKey(to) in m
    requires Rename(m, from, to).Ok?
    ensures DirKey(to) in Rename(m, from, to).value
  {
    var d := DirKey(to);
    MoveSubtreeFacts(m, from, to);
    if d == "" {
      assert !AtOrUnder("", from) && !AtOrUnder("", to);
    } else {
      UnderDirKey(to);
      assert !AtOrUnder(d, to);
      if Under(d, from) {
        UnderTransitive(to, d, from);
      }
    }
  }

  lemma KeptKeyValid(m: Nodes, from: string, to: string, k: string)
    requires Valid(m) && from in m && from != "" && from != to
    requires Rename(m, from, to).Ok?
    requires k in m && k != "" && !AtOrUnder(k, from) && !AtOrUnder(k, to)
    ensures WellFormed(k) && DirKey(k) in Rename(m, from, to).value
  {
    var d := DirKey(k);
    MoveSubtreeFacts(m, from, to);
    if d == "" {
      assert !AtOrUnder("", from) && !AtOrUnder("", to);
    } else {
      if AtOrUnder(d, from) {
        InSubtreeOfDirKey(k, from);
      }
      if AtOrUnder(d, to) {
        InSubtreeOfDirKey(k, to);
      }
    }
  }

  /** Moving a key strictly below `from` to the same place below `to` keeps
      it well-formed and moves its directory along with it. */
  lemma RebaseDirKey(c: string, from: string, to: string)
    requires Under(c, from) && WellFormed(c) && WellFormed(to)
    ensures WellFormed(Rebase(c, from, to))
    ensures AtOrUnder(DirKey(c), from)
    ensures DirKey(Rebase(c, from, to)) == Rebase(DirKey(c), from, to)
  {
    UnderSplit(c, from);
    var rest := c[|from| + 1..];
    assert Rebase(c, from, to) == to + "/" + rest;
    RebaseWellFormed(from, to, rest);
    if '/' in rest {
      JoinDirKeyNested(from, to, rest);
    } else {
      JoinDirKeyFlat(from, to, rest);
    }
  }

  lemma RebaseWellFormed(from: string, to: string, rest: string)
    requires WellFormed(from + "/" + rest) && WellFormed(to)
    ensures WellFormed(to + "/" + rest)
  {
    WellFormedSuffix(from, rest);
    WellFormedJoin(to, rest);
  }

  lemma JoinDirKeyFlat(from: string, to: string, rest: string)
    requires '/' !in rest
    ensures DirKey(from + "/" + rest) == from
    ensures DirKey(to + "/" + rest) == to
    ensures Rebase(from, from, to) == to
  {
    ParentOfJoin(from, rest);
    ParentOfJoin(to, rest);
    assert from[|from|..] == [];
    assert to + [] == to;
  }

  lemma JoinDirKeyNested(from: string, to: string, rest: string)
    requires '/' in rest
    ensures Under(DirKey(from + "/" + rest), from)
    ensures DirKey(to + "/" + rest) == to + DirKey(from + "/" + rest)[|from|..]
  {
    var pr := Parent(rest).value;
    DirKeyOfNested(from, rest);
    DirKeyOfNested(to, rest);
    PrefixedUnder(from, pr);
  }

  lemma DirKeyOfNested(x: string, r: string)
    requires '/' in r
    ensures Parent(r).Some? && DirKey(x + "/" + r) == x + "/" + Parent(r).value
  {
    ParentOfPrefixed(x, r);
  }

  lemma PrefixedUnder(x: string, y: string)
    ensures Under(x + "/" + y, x)
    ensures (x + "/" + y)[|x|..] == "/" + y
  {
    assert (x + "/" + y)[..|x| + 1] == x + "/";
  }

  /** The image of a key strictly below `from` is well-formed and its
      directory is present after the rename. */
  lemma MovedKeyValid(m: Nodes, from: string, to: string, c: string)
    requires Valid(m) && from in m && from != "" && from != to
    requires WellFormed(to)
    requires Rename(m, from, to).Ok?
    requires c in m && AtOrUnder(c, from) && Rebase(c, from, to) != to
    ensures WellFormed(Rebase(c, from, to)) && DirKey(Rebase(c, from, to)) in Rename(m, from, to).value
  {
    assert c != from;
    RebaseDirKey(c, from, to);
    var dc := DirKey(c);
    assert dc in m;
    MoveSubtreeFacts(m, from, to);
  }

  // ---------------------------------------------------------------------
  // Pieces shared by both stores
  // ---------------------------------------------------------------------

  /** A yak directory as `add` leaves it: state "todo", empty context. */
  function Fresh(n: Node): (r: Node)
    ensures r.stateFile == Some("todo") && r.context == Some("")
    ensures r.doneMarker == n.doneMarker && r.mtime == n.mtime
  {
    n.(stateFile := Some("todo"), context := Some(""))
  }

  /** A directory whose legacy `done` marker file has been migrated: its
      state file says "done" and the marker is gone. */
  function Migrated(n: Node): (r: Node)
    ensures r.stateFile == Some("done") && !r.doneMarker
    ensures r.context == n.context && r.mtime == n.mtime
  {
    n.(stateFile := Some("done"), doneMarker := false)
  }

  /** Go `ensureParentYaksExist` and Rust `ensure_parent_yaks`: every missing
      proper prefix of `name` becomes a yak with state "todo" and an empty
      context; existing ones are untouched. */
  function EnsureParents(m: Nodes, name: string, now: int): (r: Nodes)
    ensures r.Keys == m.Keys + Ancestors(name)
    ensures forall k :: k in m ==> r[k] == m[k]
    ensures forall k :: k in Ancestors(name) && k !in m ==> r[k] == Fresh(EmptyDir(now))
  {
    CreateMissing(m, Ancestors(name), Fresh(EmptyDir(now)))
  }

  /** What the rename of a move refuses, once the new name's ancestors
      exist: a different target inside the moved subtree, or one that is
      there and not an empty directory. */
  predicate RenameBlocked(m1: Nodes, n: string, to: string) {
    n != to && (Under(to, n) || (to in m1 && !IsEmptyDir(m1, to)))
  }

  /** `r` is `m` after a successful move of `n` to `to`: the moved subtree
      reappears under `to`, every key outside both subtrees is unchanged,
      each missing ancestor of `to` is a fresh empty yak, and nothing else
      appears. */
  predicate MovedFrom(m: Nodes, r: Nodes, n: string, to: string, now: int) {
    && (n != to ==> forall c :: c in m && AtOrUnder(c, n) ==> Rebase(c, n, to) in r && r[Rebase(c, n, to)] == m[c])
    && (forall k :: k in m && !AtOrUnder(k, n) && !AtOrUnder(k, to) ==> k in r && r[k] == m[k])
    && (forall k :: k in Ancestors(to) && k !in m ==> k in r && r[k] == Fresh(EmptyDir(now)))
    && (forall k :: k in r ==> AtOrUnder(k, to) || k in Ancestors(to) || (k in m && !AtOrUnder(k, n)))
  }

  /** An ancestor of `name` lies outside its subtree, and lies at or
      below `n` only when `name` itself lies below `n`. */
  lemma AncestorPlacement(a: string, name: string, n: string)
    requires a in Ancestors(name)
    ensures !AtOrUnder(a, name)
    ensures AtOrUnder(a, n) ==> Under(name, n)
  {
    var i :| 0 <= i < |name| && name[i] == '/' && a == name[..i];
    if a == n {
      assert name[..|n + "/"|] == n + "/";
    } else if Under(a, n) {
      assert name[..|n + "/"|] == a[..|n + "/"|];
    }
  }

  /** Creating the new name's ancestors and renaming: the rename fails
      exactly when it is blocked, and otherwise the store is `m` moved. */
  lemma MoveWithParents(m: Nodes, n: string, to: string, now: int)
    requires n in m && n != ""
    ensures var m1 := EnsureParents(m, to, now);
      && n in m1
      && (Rename(m1, n, to).Err? <==> RenameBlocked(m1, n, to))
      && (Rename(m1, n, to).Ok? ==> MovedFrom(m, Rename(m1, n, to).value, n, to, now))
  {
    var m1 := EnsureParents(m, to, now);
    var r := Rename(m1, n, to);
    if r.Ok? {
      var v := r.value;
      forall k | k in Ancestors(to) && k !in m ensures k in v && v[k] == Fresh(EmptyDir(now)) {
        AncestorPlacement(k, to, n);
      }
    }
  }

  /** The child directories of `n` in ascending name order. */
  function ChildList(m: Nodes, n: string): (cs: seq<string>)
    ensures forall c :: c in cs <==> c in Children(m, n)
    ensures forall i, j :: 0 <= i < j < |cs| ==> Less(cs[i], cs[j])
  {
    SortStrings(Children(m, n))
  }

  /** A scan over directories that stops at the first one satisfying `p`. */
  function AnyInOrder(m: Nodes, cs: seq<string>, p: Node -> bool): (b: bool)
    requires forall i :: 0 <= i < |cs| ==> cs[i] in m
    ensures b <==> exists i :: 0 <= i < |cs| && p(m[cs[i]])
  {
    if |cs| == 0 then false
    else if p(m[cs[0]]) then true
    else
      var b := AnyInOrder(m, cs[1..], p);
      assert forall i :: 1 <= i < |cs| ==> cs[i] == cs[1..][i - 1];
      b
  }

  /** Scanning the child list finds a child satisfying `p` exactly when one
      exists, whatever order the directory is read in. */
  lemma ScanChildren(m: Nodes, n: string, p: Node -> bool)
    ensures AnyInOrder(m, ChildList(m, n), p) <==> exists c :: c in Children(m, n) && p(m[c])
  {
    var cs := ChildList(m, n);
    if AnyInOrder(m, cs, p) {
      var i :| 0 <= i < |cs| && p(m[cs[i]]);
      assert cs[i] in Children(m, n);
    } else {
      forall c | c in Children(m, n) ensures !p(m[c]) {
        InSeq(cs, c);
      }
    }
  }

  lemma InSeq(cs: seq<string>, c: string)
    requires c in cs
    ensures exists i :: 0 <= i < |cs| && cs[i] == c
  {
  }

  /** Keys at least `len` characters long: a walk down the tree only ever
      reaches longer names, which bounds its recursion. */
  function Longer(m: Nodes, len: nat): set<string> {
    set k | k in m && |k| >= len
  }

  /** Children of a directory have longer names than it. */
  lemma ChildrenLonger(m: Nodes, n: string)
    ensures forall i :: 0 <= i < |ChildList(m, n)| ==> |ChildList(m, n)[i]| >= |n| + 1
  {
    var cs := ChildList(m, n);
    forall i | 0 <= i < |cs| ensures |cs[i]| >= |n| + 1 {
      assert cs[i] in Children(m, n);
      if n != "" {
        UnderDirKey(cs[i]);
      }
    }
  }

  lemma LongerShrinks(m: Nodes, m1: Nodes, len: nat, n: string)
    requires m1.Keys == m.Keys && n in m && |n| >= len
    ensures Longer(m1, |n| + 1) < Longer(m, len)
  {
    assert n in Longer(m, len) && n !in Longer(m1, |n| + 1);
  }
}
