/** Writing a state file into a directory and, recursively, into every
    directory below it: Rust `update_state_recursively`, which walks child
    directories by exact path. */
module TreeWalk {
  import opened Types
  import opened Strings
  import opened Yaks
  import opened TaskTree

  /** The keys of the subtree rooted at `n` (every key when `n` is the base). */
  function SubtreeKeys(m: Nodes, n: string): (s: set<string>)
    ensures forall k :: k in s <==> k in m && InSubtree(k, n)
  {
    set k | k in m && InSubtree(k, n)
  }

  /** The keys lying in the subtree of some directory of `cs`. */
  function BelowAny(m: Nodes, cs: seq<string>): (s: set<string>)
    ensures forall k :: k in s <==> k in m && exists i :: 0 <= i < |cs| && InSubtree(k, cs[i])
  {
    set k | k in m && exists i :: 0 <= i < |cs| && InSubtree(k, cs[i])
  }

  /** `r` is `m` with the state file of every key of `s` replaced by `v`. */
  predicate WrittenFrom(m: Nodes, r: Nodes, s: set<string>, v: Option<string>) {
    && r.Keys == m.Keys
    && (forall k :: k in m ==> r[k] == if k in s then m[k].(stateFile := v) else m[k])
  }

  /** Two rounds of writes of the same value are one round over the union. */
  lemma WrittenFromCompose(a: Nodes, b: Nodes, c: Nodes, s1: set<string>, s2: set<string>, v: Option<string>)
    requires WrittenFrom(a, b, s1, v) && WrittenFrom(b, c, s2, v)
    ensures WrittenFrom(a, c, s1 + s2, v)
  {
  }

  /** Write `v` into `n`, then walk each child directory in turn. */
  function WriteSubtree(m: Nodes, n: string, v: Option<string>): (r: Nodes)
    requires n in m
    ensures r.Keys == m.Keys
    ensures Valid(m) ==> WrittenFrom(m, r, SubtreeKeys(m, n), v)
    decreases Longer(m, |n|), 0
  {
    var m1 := m[n := m[n].(stateFile := v)];
    var cs := ChildList(m1, n);
    ChildrenLonger(m1, n);
    LongerShrinks(m, m1, |n|, n);
    var r := WriteChildren(m1, cs, v, |n| + 1);
    if Valid(m) then
      WriteSubtreeStep(m, m1, r, n, v);
      r
    else r
  }

  /** The loop over child directories of `WriteSubtree`. */
  function WriteChildren(m: Nodes, cs: seq<string>, v: Option<string>, len: nat): (r: Nodes)
    requires forall i :: 0 <= i < |cs| ==> cs[i] in m && |cs[i]| >= len
    ensures r.Keys == m.Keys
    ensures Valid(m) ==> WrittenFrom(m, r, BelowAny(m, cs), v)
    decreases Longer(m, len), 1, |cs|
  {
    if |cs| == 0 then
      assert BelowAny(m, cs) == {};
      m
    else
      var first := WriteSubtree(m, cs[0], v);
      assert Longer(first, len) == Longer(m, len);
      assert forall i :: 0 <= i < |cs[1..]| ==> cs[1..][i] == cs[i + 1];
      var rest := WriteChildren(first, cs[1..], v, len);
      if Valid(m) then
        WriteChildrenStep(m, first, rest, cs, v);
        rest
      else rest
  }

  lemma WriteSubtreeStep(m: Nodes, m1: Nodes, r: Nodes, n: string, v: Option<string>)
    requires Valid(m) && n in m && m1 == m[n := m[n].(stateFile := v)]
    requires Valid(m1) ==> WrittenFrom(m1, r, BelowAny(m1, ChildList(m1, n)), v)
    ensures WrittenFrom(m, r, SubtreeKeys(m, n), v)
  {
    SameKeysValid(m, m1);
    assert Children(m1, n) == Children(m, n);
    var cs := ChildList(m, n);
    assert BelowAny(m1, cs) == BelowAny(m, cs);
    assert WrittenFrom(m, m1, {n}, v);
    WrittenFromCompose(m, m1, r, {n}, BelowAny(m, cs), v);
    SubtreeSplit(m, n);
  }

  lemma WriteChildrenStep(m: Nodes, first: Nodes, rest: Nodes, cs: seq<string>, v: Option<string>)
    requires Valid(m) && |cs| > 0 && cs[0] in m
    requires WrittenFrom(m, first, SubtreeKeys(m, cs[0]), v)
    requires Valid(first) ==> WrittenFrom(first, rest, BelowAny(first, cs[1..]), v)
    ensures WrittenFrom(m, rest, BelowAny(m, cs), v)
  {
    SameKeysValid(m, first);
    assert BelowAny(first, cs[1..]) == BelowAny(m, cs[1..]);
    WrittenFromCompose(m, first, rest, SubtreeKeys(m, cs[0]), BelowAny(m, cs[1..]), v);
    BelowAnyCons(m, cs);
  }

  lemma BelowAnyCons(m: Nodes, cs: seq<string>)
    requires |cs| > 0
    ensures BelowAny(m, cs) == SubtreeKeys(m, cs[0]) + BelowAny(m, cs[1..])
  {
    forall k | k in BelowAny(m, cs) ensures k in SubtreeKeys(m, cs[0]) + BelowAny(m, cs[1..]) {
      var i :| 0 <= i < |cs| && InSubtree(k, cs[i]);
      if i > 0 {
        assert cs[1..][i - 1] == cs[i];
      }
    }
    forall k | k in BelowAny(m, cs[1..]) ensures k in BelowAny(m, cs) {
      var i :| 0 <= i < |cs[1..]| && InSubtree(k, cs[1..][i]);
      assert cs[1..][i] == cs[i + 1];
    }
  }

  /** A subtree is its root plus the subtrees of the root's children. */
  lemma SubtreeSplit(m: Nodes, n: string)
    requires Valid(m) && n in m
    ensures SubtreeKeys(m, n) == {n} + BelowAny(m, ChildList(m, n))
  {
    var cs := ChildList(m, n);
    forall k | k in SubtreeKeys(m, n) ensures k in {n} + BelowAny(m, cs) {
      SubtreeKeyBelow(m, n, cs, k);
    }
    forall k | k in BelowAny(m, cs) ensures k in SubtreeKeys(m, n) {
      BelowKeyInSubtree(m, n, cs, k);
    }
  }

  lemma SubtreeKeyBelow(m: Nodes, n: string, cs: seq<string>, k: string)
    requires Valid(m) && cs == ChildList(m, n) && k in m && InSubtree(k, n)
    ensures k == n || k in BelowAny(m, cs)
  {
    if k != n {
      var c := ChildOnPath(m, k, n);
      InSeq(cs, c);
      var i :| 0 <= i < |cs| && cs[i] == c;
      assert InSubtree(k, cs[i]);
    }
  }

  lemma BelowKeyInSubtree(m: Nodes, n: string, cs: seq<string>, k: string)
    requires cs == ChildList(m, n) && k in BelowAny(m, cs)
    ensures k in SubtreeKeys(m, n)
  {
    var i :| 0 <= i < |cs| && InSubtree(k, cs[i]);
    assert cs[i] in Children(m, n);
    ChildInSubtree(k, cs[i], n);
  }

  /** The subtree of a child lies in the subtree of its parent. */
  lemma ChildInSubtree(k: string, c: string, n: string)
    requires c != "" && DirKey(c) == n && InSubtree(k, c)
    ensures InSubtree(k, n)
  {
    InSubtreeOfDirKey(c, n);
    if k != c && n != "" {
      UnderTransitive(k, c, n);
    }
  }

  /** Every key strictly inside the subtree of `n` lies in the subtree of
      one of `n`'s children. */
  lemma {:induction false} ChildOnPath(m: Nodes, k: string, n: string) returns (c: string)
    requires Valid(m) && k in m && InSubtree(k, n) && k != n
    ensures c in Children(m, n) && InSubtree(k, c)
    decreases |k|
  {
    var d := DirKey(k);
    if d == n {
      c := k;
    } else {
      if n != "" {
        DirKeyUnder(k, n);
      }
      assert Parent(k).Some?;
      UnderDirKey(k);
      c := ChildOnPath(m, d, n);
      InSubtreeOfDirKey(k, c);
    }
  }
}
