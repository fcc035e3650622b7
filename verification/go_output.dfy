/** The Go prototype's listing (adapters/terminal/output.go): filter,
    sort done-first / oldest-first / by name, then draw the hierarchy
    pre-order from the top-level yaks down, skipping any yak whose parent
    was filtered out. */
module GoOutput {
  import opened Types
  import opened Strings
  import opened YakStates
  import opened Yaks
  import opened Display

  // ---------------------------------------------------------------------
  // Sorting (sortYaks)
  // ---------------------------------------------------------------------

  /** Done yaks sort before todo ones. */
  function Priority(y: Yak): (p: nat)
    ensures p == 0 <==> y.state == Done
  {
    if y.state == Done then 0 else 1
  }

  /** The `sort.Slice` comparator: priority, then modification time, then
      name. */
  predicate Before(a: Yak, b: Yak) {
    if Priority(a) != Priority(b) then Priority(a) < Priority(b)
    else if a.mtime != b.mtime then a.mtime < b.mtime
    else Less(a.name, b.name)
  }

  lemma BeforeIrreflexive(a: Yak)
    ensures !Before(a, a)
  {
    LessIrreflexive(a.name);
  }

  /** Being not later is transitive: the comparator is a strict weak order. */
  lemma NotBeforeTransitive(a: Yak, b: Yak, c: Yak)
    requires !Before(b, a) && !Before(c, b)
    ensures !Before(c, a)
  {
    if Priority(a) == Priority(b) == Priority(c) && a.mtime == b.mtime == c.mtime {
      LessTotal(a.name, b.name);
      LessTotal(b.name, c.name);
      if Less(c.name, a.name) {
        if a.name != b.name && b.name != c.name {
          LessTransitive(a.name, b.name, c.name);
          LessAsymmetric(a.name, c.name);
        }
      }
    }
  }

  /** Yaks with different names are always ordered one way or the other. */
  lemma BeforeTotal(a: Yak, b: Yak)
    requires a.name != b.name
    ensures Before(a, b) || Before(b, a)
  {
    LessTotal(a.name, b.name);
  }

  lemma BeforeAsymmetric(a: Yak, b: Yak)
    requires Before(a, b)
    ensures !Before(b, a)
  {
    if Priority(a) == Priority(b) && a.mtime == b.mtime {
      LessAsymmetric(a.name, b.name);
    }
  }

  /** No element is placed after one it should precede. */
  predicate Sorted(s: seq<Yak>) {
    forall i, j :: 0 <= i < j < |s| ==> !Before(s[j], s[i])
  }

  function Insert(y: Yak, s: seq<Yak>): (r: seq<Yak>)
    requires Sorted(s)
    ensures multiset(r) == multiset(s) + multiset{y}
    ensures Sorted(r)
  {
    if |s| == 0 then [y]
    else if Before(s[0], y) then
      var rest := Insert(y, s[1..]);
      assert s == [s[0]] + s[1..];
      BeforeAsymmetric(s[0], y);
      InsertHead(s[0], rest);
      [s[0]] + rest
    else
      PrependSorted(y, s);
      [y] + s
  }

  lemma InsertHead(h: Yak, rest: seq<Yak>)
    requires Sorted(rest)
    requires forall x :: x in multiset(rest) ==> !Before(x, h)
    ensures Sorted([h] + rest)
  {
    forall j | 0 < j < |[h] + rest| ensures !Before(([h] + rest)[j], h) {
      assert ([h] + rest)[j] == rest[j - 1];
      assert rest[j - 1] in multiset(rest);
    }
  }

  lemma PrependSorted(y: Yak, s: seq<Yak>)
    requires Sorted(s) && |s| > 0 && !Before(s[0], y)
    ensures Sorted([y] + s)
  {
    forall j | 0 <= j < |s| ensures !Before(s[j], y) {
      if j > 0 {
        NotBeforeTransitive(y, s[0], s[j]);
      }
    }
    forall i, j | 0 <= i < j < |[y] + s| ensures !Before(([y] + s)[j], ([y] + s)[i]) {
      if i > 0 {
        assert ([y] + s)[i] == s[i - 1] && ([y] + s)[j] == s[j - 1];
      } else {
        assert ([y] + s)[j] == s[j - 1];
      }
    }
  }

  /** `sortYaks`: a sorted permutation of its input. */
  function SortYaks(s: seq<Yak>): (r: seq<Yak>)
    ensures multiset(r) == multiset(s)
    ensures Sorted(r)
  {
    if |s| == 0 then []
    else
      assert s == [s[0]] + s[1..];
      Insert(s[0], SortYaks(s[1..]))
  }

  /** No two different yaks in the collection share a name (true of any
      listing, whose names are directory paths). */
  predicate UniqueNames(ms: multiset<Yak>) {
    forall x, y :: x in ms && y in ms && x.name == y.name ==> x == y
  }

  /** Two sorted arrangements of the same yaks are the same sequence when
      names are unique: the sort order is fully determined. */
  lemma {:induction false} SortedUnique(r1: seq<Yak>, r2: seq<Yak>)
    requires Sorted(r1) && Sorted(r2) && multiset(r1) == multiset(r2)
    requires UniqueNames(multiset(r1))
    ensures r1 == r2
    decreases |r1|
  {
    assert |r1| == |multiset(r1)| == |r2|;
    if |r1| > 0 {
      SortedUniqueStep(r1, r2);
      SortedUnique(r1[1..], r2[1..]);
      ConsEqual(r1, r2);
    }
  }

  /** The heads agree and the tails again meet the requirements. */
  lemma SortedUniqueStep(r1: seq<Yak>, r2: seq<Yak>)
    requires Sorted(r1) && Sorted(r2) && multiset(r1) == multiset(r2)
    requires UniqueNames(multiset(r1)) && |r1| > 0 && |r2| > 0
    ensures r1[0] == r2[0]
    ensures Sorted(r1[1..]) && Sorted(r2[1..]) && multiset(r1[1..]) == multiset(r2[1..])
    ensures UniqueNames(multiset(r1[1..]))
  {
    HeadsEqual(r1, r2);
    TailFacts(r1);
    TailFacts(r2);
  }

  lemma ConsEqual<T>(a: seq<T>, b: seq<T>)
    requires |a| > 0 && |b| > 0 && a[0] == b[0] && a[1..] == b[1..]
    ensures a == b
  {
    assert a == [a[0]] + a[1..];
    assert b == [b[0]] + b[1..];
  }

  lemma TailFacts(r: seq<Yak>)
    requires Sorted(r) && UniqueNames(multiset(r)) && |r| > 0
    ensures Sorted(r[1..]) && UniqueNames(multiset(r[1..]))
    ensures multiset(r[1..]) == multiset(r) - multiset{r[0]}
  {
    assert r == [r[0]] + r[1..];
  }

  lemma HeadsEqual(r1: seq<Yak>, r2: seq<Yak>)
    requires Sorted(r1) && Sorted(r2) && multiset(r1) == multiset(r2)
    requires UniqueNames(multiset(r1)) && |r1| > 0 && |r2| > 0
    ensures r1[0] == r2[0]
  {
    var a, b := r1[0], r2[0];
    if a != b {
      assert a in multiset(r2) && b in multiset(r1);
      var i :| 0 <= i < |r2| && r2[i] == a;
      var k :| 0 <= k < |r1| && r1[k] == b;
      assert !Before(a, b) && !Before(b, a);
      BeforeTotal(a, b);
    }
  }

  /** Sorting any arrangement of the same uniquely named yaks gives the
      same sequence. */
  lemma SortIgnoresInputOrder(s1: seq<Yak>, s2: seq<Yak>)
    requires multiset(s1) == multiset(s2) && UniqueNames(multiset(s1))
    ensures SortYaks(s1) == SortYaks(s2)
  {
    SortedUnique(SortYaks(s1), SortYaks(s2));
  }

  // ---------------------------------------------------------------------
  // Hierarchy (getChildren and displayDir)
  // ---------------------------------------------------------------------

  /** `filepath.Dir` of a well-formed name: its parent, or "." at the top. */
  function GoDir(name: string): (d: string)
    ensures '/' !in name ==> d == "."
    ensures '/' in name ==> d == Parent(name).value
  {
    match Parent(name)
    case None => "."
    case Some(p) => p
  }

  /** The test of `getChildren`: the top level ("") collects names whose
      directory is "."; any other parent collects names directly below it. */
  predicate ChildOfDir(y: Yak, parent: string) {
    (parent == "" && GoDir(y.name) == ".") || GoDir(y.name) == parent
  }

  /** `getChildren`: the yaks directly below `parent`, in sorted order. */
  function GetChildren(ys: seq<Yak>, parent: string): (cs: seq<Yak>)
    ensures |cs| <= |ys|
    ensures forall y :: y in cs <==> y in ys && ChildOfDir(y, parent)
  {
    if |ys| == 0 then []
    else
      var rest := GetChildren(ys[1..], parent);
      assert forall y :: y in ys <==> y == ys[0] || y in ys[1..];
      if ChildOfDir(ys[0], parent) then [ys[0]] + rest else rest
  }

  /** One drawn line before formatting: the yak and its indentation level. */
  datatype Entry = Entry(yak: Yak, depth: nat)

  /** The lines drawn so far and the names already drawn (`displayed`). */
  datatype Rendered = Rendered(entries: seq<Entry>, shown: set<string>)

  function Names(ys: seq<Yak>): set<string> {
    set y | y in ys :: y.name
  }

  function EntryNames(es: seq<Entry>): set<string> {
    set e | e in es :: e.yak.name
  }

  /** No name is drawn twice, nor one drawn before. */
  predicate FreshEntries(es: seq<Entry>, shown: set<string>) {
    && (forall i :: 0 <= i < |es| ==> es[i].yak.name !in shown)
    && (forall i, j :: 0 <= i < j < |es| ==> es[i].yak.name != es[j].yak.name)
  }

  /** The nearest earlier line that is one level shallower is entry `i`'s
      parent, and everything in between is at least as deep as `i`. */
  predicate HasParentBefore(es: seq<Entry>, i: int)
    requires 0 <= i < |es|
  {
    exists j :: 0 <= j < i && es[j].depth + 1 == es[i].depth && ChildOfDir(es[i].yak, es[j].yak.name)
      && forall k :: j < k < i ==> es[k].depth >= es[i].depth
  }

  /** Line `i` sits at level `d` or deeper; at level `d` it is a child of
      `parent`; deeper, it follows its parent's line. */
  predicate NestedAt(es: seq<Entry>, parent: string, d: nat, i: int)
    requires 0 <= i < |es|
  {
    && es[i].depth >= d
    && (es[i].depth == d ==> ChildOfDir(es[i].yak, parent))
    && (es[i].depth > d ==> HasParentBefore(es, i))
  }

  /** Pre-order nesting below `parent` at level `d`. */
  predicate Nested(es: seq<Entry>, parent: string, d: nat) {
    forall i :: 0 <= i < |es| ==> NestedAt(es, parent, d, i)
  }

  /** Every yak directly below a drawn yak has been drawn. */
  predicate ChildrenShown(es: seq<Entry>, ys: seq<Yak>, shown: set<string>) {
    forall i, y :: 0 <= i < |es| && y in ys && ChildOfDir(y, es[i].yak.name) ==> y.name in shown
  }

  /** `displayDir(parent, depth)`. */
  function DisplayDir(ys: seq<Yak>, parent: string, depth: nat, shown: set<string>): (r: Rendered)
    ensures shown <= r.shown && r.shown == shown + EntryNames(r.entries)
    ensures forall e :: e in r.entries ==> e.yak in ys
    ensures FreshEntries(r.entries, shown)
    ensures Nested(r.entries, parent, depth)
    ensures forall y :: y in ys && ChildOfDir(y, parent) ==> y.name in r.shown
    ensures ChildrenShown(r.entries, ys, r.shown)
    decreases Names(ys) - shown, 1, 0
  {
    var cs := GetChildren(ys, parent);
    DisplayList(ys, parent, cs, depth, shown)
  }

  /** The loop of `displayDir` over the children `cs`. */
  function DisplayList(ys: seq<Yak>, parent: string, cs: seq<Yak>, depth: nat, shown: set<string>): (r: Rendered)
    requires forall c :: c in cs ==> c in ys && ChildOfDir(c, parent)
    ensures shown <= r.shown && r.shown == shown + EntryNames(r.entries)
    ensures forall e :: e in r.entries ==> e.yak in ys
    ensures FreshEntries(r.entries, shown)
    ensures Nested(r.entries, parent, depth)
    ensures forall c :: c in cs ==> c.name in r.shown
    ensures ChildrenShown(r.entries, ys, r.shown)
    decreases Names(ys) - shown, 0, |cs|
  {
    if |cs| == 0 then Rendered([], shown)
    else if cs[0].name in shown then
      var r := DisplayList(ys, parent, cs[1..], depth, shown);
      assert forall c :: c in cs ==> c == cs[0] || c in cs[1..];
      r
    else
      var c := cs[0];
      assert c.name in Names(ys);
      var sub := DisplayDir(ys, c.name, depth + 1, shown + {c.name});
      var rest := DisplayList(ys, parent, cs[1..], depth, sub.shown);
      var es := [Entry(c, depth)] + sub.entries + rest.entries;
      DisplayListStep(ys, parent, cs, depth, shown, sub, rest);
      Rendered(es, rest.shown)
  }

  lemma DisplayListStep(ys: seq<Yak>, parent: string, cs: seq<Yak>, depth: nat, shown: set<string>, sub: Rendered, rest: Rendered)
    requires |cs| > 0 && cs[0] in ys && ChildOfDir(cs[0], parent) && cs[0].name !in shown
    requires forall c :: c in cs ==> c in ys && ChildOfDir(c, parent)
    requires shown + {cs[0].name} <= sub.shown && sub.shown == shown + {cs[0].name} + EntryNames(sub.entries)
    requires forall e :: e in sub.entries ==> e.yak in ys
    requires FreshEntries(sub.entries, shown + {cs[0].name})
    requires Nested(sub.entries, cs[0].name, depth + 1)
    requires forall y :: y in ys && ChildOfDir(y, cs[0].name) ==> y.name in sub.shown
    requires ChildrenShown(sub.entries, ys, sub.shown)
    requires sub.shown <= rest.shown && rest.shown == sub.shown + EntryNames(rest.entries)
    requires forall e :: e in rest.entries ==> e.yak in ys
    requires FreshEntries(rest.entries, sub.shown)
    requires Nested(rest.entries, parent, depth)
    requires forall c :: c in cs[1..] ==> c.name in rest.shown
    requires ChildrenShown(rest.entries, ys, rest.shown)
    ensures var es := [Entry(cs[0], depth)] + sub.entries + rest.entries;
      && shown <= rest.shown && rest.shown == shown + EntryNames(es)
      && (forall e :: e in es ==> e.yak in ys)
      && FreshEntries(es, shown)
      && Nested(es, parent, depth)
      && (forall c :: c in cs ==> c.name in rest.shown)
      && ChildrenShown(es, ys, rest.shown)
  {
    var head := [Entry(cs[0], depth)] + sub.entries;
    var es := head + rest.entries;
    NestedCons(cs[0], depth, sub.entries, parent);
    NestedAppend(head, rest.entries, parent, depth);
    FreshCons(cs[0], depth, sub.entries, shown);
    FreshAppend(head, rest.entries, shown, sub.shown);
    assert EntryNames(head) == {cs[0].name} + EntryNames(sub.entries);
    EntryNamesAppend(head, rest.entries);
    assert forall c :: c in cs ==> c == cs[0] || c in cs[1..];
    ChildrenShownAppend(head, rest.entries, ys, sub.shown, rest.shown, cs[0]);
  }

  lemma EntryNamesAppend(a: seq<Entry>, b: seq<Entry>)
    ensures EntryNames(a + b) == EntryNames(a) + EntryNames(b)
  {
    assert forall e :: e in a + b <==> e in a || e in b;
  }

  lemma ChildrenShownAppend(head: seq<Entry>, rest: seq<Entry>, ys: seq<Yak>, s1: set<string>, s2: set<string>, c: Yak)
    requires |head| > 0 && head[0].yak == c
    requires s1 <= s2
    requires forall y :: y in ys && ChildOfDir(y, c.name) ==> y.name in s1
    requires ChildrenShown(head[1..], ys, s1)
    requires ChildrenShown(rest, ys, s2)
    ensures ChildrenShown(head + rest, ys, s2)
  {
    var es := head + rest;
    forall i, y | 0 <= i < |es| && y in ys && ChildOfDir(y, es[i].yak.name) ensures y.name in s2 {
      if i == 0 {
      } else if i < |head| {
        assert es[i] == head[1..][i - 1];
      } else {
        assert es[i] == rest[i - |head|];
      }
    }
  }

  lemma FreshCons(c: Yak, d: nat, sub: seq<Entry>, shown: set<string>)
    requires c.name !in shown && FreshEntries(sub, shown + {c.name})
    ensures FreshEntries([Entry(c, d)] + sub, shown)
  {
    var es := [Entry(c, d)] + sub;
    forall i, j | 0 <= i < j < |es| ensures es[i].yak.name != es[j].yak.name {
      assert es[j] == sub[j - 1];
      if i > 0 { assert es[i] == sub[i - 1]; }
    }
    forall i | 0 <= i < |es| ensures es[i].yak.name !in shown {
      if i > 0 { assert es[i] == sub[i - 1]; }
    }
  }

  lemma FreshAppend(a: seq<Entry>, b: seq<Entry>, shown: set<string>, shown2: set<string>)
    requires FreshEntries(a, shown) && FreshEntries(b, shown2)
    requires shown2 == shown + EntryNames(a) || shown + EntryNames(a) <= shown2
    ensures FreshEntries(a + b, shown)
  {
    var es := a + b;
    forall i, j | 0 <= i < j < |es| ensures es[i].yak.name != es[j].yak.name {
      if j >= |a| {
        assert es[j] == b[j - |a|];
        if i >= |a| {
          assert es[i] == b[i - |a|];
        } else {
          assert es[i] == a[i] && a[i] in a;
        }
      } else {
        assert es[i] == a[i] && es[j] == a[j];
      }
    }
    forall i | 0 <= i < |es| ensures es[i].yak.name !in shown {
      if i >= |a| { assert es[i] == b[i - |a|]; } else { assert es[i] == a[i]; }
    }
  }

  lemma HasParentBeforeShift(pre: seq<Entry>, b: seq<Entry>, i: int)
    requires 0 <= i < |b| && HasParentBefore(b, i)
    ensures HasParentBefore(pre + b, i + |pre|)
  {
    var es := pre + b;
    var j :| 0 <= j < i && b[j].depth + 1 == b[i].depth && ChildOfDir(b[i].yak, b[j].yak.name)
      && forall k :: j < k < i ==> b[k].depth >= b[i].depth;
    assert es[j + |pre|] == b[j] && es[i + |pre|] == b[i];
    forall k | j + |pre| < k < i + |pre| ensures es[k].depth >= es[i + |pre|].depth {
      assert es[k] == b[k - |pre|];
    }
  }

  lemma HasParentBeforePrefix(a: seq<Entry>, post: seq<Entry>, i: int)
    requires 0 <= i < |a| && HasParentBefore(a, i)
    ensures HasParentBefore(a + post, i)
  {
    var es := a + post;
    var j :| 0 <= j < i && a[j].depth + 1 == a[i].depth && ChildOfDir(a[i].yak, a[j].yak.name)
      && forall k :: j < k < i ==> a[k].depth >= a[i].depth;
    assert es[j] == a[j] && es[i] == a[i];
    forall k | j < k < i ensures es[k].depth >= es[i].depth {
      assert es[k] == a[k];
    }
  }

  lemma NestedCons(c: Yak, d: nat, sub: seq<Entry>, parent: string)
    requires ChildOfDir(c, parent) && Nested(sub, c.name, d + 1)
    ensures Nested([Entry(c, d)] + sub, parent, d)
  {
    forall i | 0 <= i < |sub| + 1 ensures NestedAt([Entry(c, d)] + sub, parent, d, i) {
      if i > 0 {
        NestedConsAt(c, d, sub, parent, i);
      }
    }
  }

  lemma NestedConsAt(c: Yak, d: nat, sub: seq<Entry>, parent: string, i: int)
    requires 0 < i <= |sub| && Nested(sub, c.name, d + 1)
    ensures NestedAt([Entry(c, d)] + sub, parent, d, i)
  {
    var es := [Entry(c, d)] + sub;
    var e := sub[i - 1];
    assert es[i] == e;
    NestedAtOf(sub, c.name, d + 1, i - 1);
    if e.depth == d + 1 {
      NestedConsTop(c, d, sub, i);
    } else {
      assert HasParentBefore(sub, i - 1);
      HasParentBeforeShift([Entry(c, d)], sub, i - 1);
    }
    assert es[i].depth > d && HasParentBefore(es, i);
  }

  lemma NestedAtOf(es: seq<Entry>, parent: string, d: nat, i: int)
    requires Nested(es, parent, d) && 0 <= i < |es|
    ensures es[i].depth >= d
    ensures es[i].depth > d ==> HasParentBefore(es, i)
  {
    assert NestedAt(es, parent, d, i);
  }

  /** An entry of the sub-list at the top level below `c` has `c`'s line as
      its parent line. */
  lemma NestedConsTop(c: Yak, d: nat, sub: seq<Entry>, i: int)
    requires 0 < i <= |sub| && Nested(sub, c.name, d + 1) && sub[i - 1].depth == d + 1
    ensures HasParentBefore([Entry(c, d)] + sub, i)
  {
    var es := [Entry(c, d)] + sub;
    assert es[i] == sub[i - 1];
    forall k | 0 < k < i ensures es[k].depth >= es[i].depth {
      assert es[k] == sub[k - 1];
      assert NestedAt(sub, c.name, d + 1, k - 1);
    }
    assert NestedAt(sub, c.name, d + 1, i - 1);
    assert es[0].depth + 1 == es[i].depth && ChildOfDir(es[i].yak, es[0].yak.name);
  }

  lemma NestedAppend(a: seq<Entry>, b: seq<Entry>, parent: string, d: nat)
    requires Nested(a, parent, d) && Nested(b, parent, d)
    ensures Nested(a + b, parent, d)
  {
    forall i | 0 <= i < |a + b| ensures NestedAt(a + b, parent, d, i) {
      if i < |a| {
        assert NestedAt(a, parent, d, i);
        NestedAppendLeft(a, b, parent, d, i);
      } else {
        assert NestedAt(b, parent, d, i - |a|);
        NestedAppendRight(a, b, parent, d, i);
      }
    }
  }

  lemma NestedAppendLeft(a: seq<Entry>, b: seq<Entry>, parent: string, d: nat, i: int)
    requires 0 <= i < |a| && NestedAt(a, parent, d, i)
    ensures NestedAt(a + b, parent, d, i)
  {
    assert (a + b)[i] == a[i];
    if a[i].depth > d {
      HasParentBeforePrefix(a, b, i);
    }
  }

  lemma NestedAppendRight(a: seq<Entry>, b: seq<Entry>, parent: string, d: nat, i: int)
    requires |a| <= i < |a| + |b| && NestedAt(b, parent, d, i - |a|)
    ensures NestedAt(a + b, parent, d, i)
  {
    assert (a + b)[i] == b[i - |a|];
    if b[i - |a|].depth > d {
      HasParentBeforeShift(a, b, i - |a|);
    }
  }

  /** The drawing of `FormatYaks`: `displayDir("", 0)` over the sorted yaks. */
  function Render(ys: seq<Yak>): seq<Entry> {
    DisplayDir(ys, "", 0, {}).entries
  }

  /** Every drawn line is one of the yaks, no name is drawn twice, the
      lines nest in pre-order below the top level, every top-level yak is
      drawn, every yak directly below a drawn one is drawn, and every yak
      drawn below the top level has its parent drawn above it (so a yak
      whose parent was filtered out is never drawn). */
  lemma RenderFacts(ys: seq<Yak>)
    ensures var es := Render(ys);
      && (forall e :: e in es ==> e.yak in ys)
      && FreshEntries(es, {})
      && Nested(es, "", 0)
      && (forall y :: y in ys && ChildOfDir(y, "") ==> y.name in EntryNames(es))
      && ChildrenShown(es, ys, EntryNames(es))
      && (forall i :: 0 <= i < |es| && es[i].depth > 0 ==>
            exists j :: 0 <= j < i && ChildOfDir(es[i].yak, es[j].yak.name))
  {
    var es := Render(ys);
    forall i | 0 <= i < |es| && es[i].depth > 0
      ensures exists j :: 0 <= j < i && ChildOfDir(es[i].yak, es[j].yak.name)
    {
      assert NestedAt(es, "", 0, i);
    }
  }

  /** `formatYak` for the two formats the command line selects. */
  function FormatYak(y: Yak, depth: nat, f: Format): (line: string)
    ensures f == Plain ==> line == y.name
    ensures f == Markdown ==> ParseMarkdownLine(line) == Some((depth, y.state, Basename(y.name)))
    ensures f == Markdown ==> line != ""
  {
    ParseMarkdownLineOf(depth, y.state, Basename(y.name));
    match f
    case Plain => y.name
    case Markdown => MarkdownLine(depth, y.state, Basename(y.name))
  }

  /** The non-empty formatted lines, in drawing order. */
  function Lines(es: seq<Entry>, f: Format): (ls: seq<string>)
    ensures |ls| <= |es|
    ensures forall l :: l in ls ==> l != ""
  {
    if |es| == 0 then []
    else
      var line := FormatYak(es[0].yak, es[0].depth, f);
      if line != "" then [line] + Lines(es[1..], f) else Lines(es[1..], f)
  }

  /** In markdown every drawn yak gives exactly one line, and the i-th line
      reads back as the i-th entry's depth, state and base name. */
  lemma MarkdownLinesOnePerEntry(es: seq<Entry>)
    ensures |Lines(es, Markdown)| == |es|
    ensures forall i :: 0 <= i < |es| ==>
      ParseMarkdownLine(Lines(es, Markdown)[i]) == Some((es[i].depth, es[i].yak.state, Basename(es[i].yak.name)))
  {
    MarkdownLinesAre(es);
    forall i | 0 <= i < |es|
      ensures ParseMarkdownLine(Lines(es, Markdown)[i]) == Some((es[i].depth, es[i].yak.state, Basename(es[i].yak.name)))
    {
      ParseMarkdownLineOf(es[i].depth, es[i].yak.state, Basename(es[i].yak.name));
    }
  }

  /** In markdown the i-th line is the i-th entry's markdown line. */
  lemma {:induction false} MarkdownLinesAre(es: seq<Entry>)
    ensures |Lines(es, Markdown)| == |es|
    ensures forall i :: 0 <= i < |es| ==>
      Lines(es, Markdown)[i] == MarkdownLine(es[i].depth, es[i].yak.state, Basename(es[i].yak.name))
  {
    if |es| > 0 {
      var rest := es[1..];
      MarkdownLinesAre(rest);
      MarkdownLinesCons(es);
      var ls := Lines(es, Markdown);
      var lr := Lines(rest, Markdown);
      forall i | 0 <= i < |es|
        ensures ls[i] == MarkdownLine(es[i].depth, es[i].yak.state, Basename(es[i].yak.name))
      {
        if i > 0 {
          assert ls[i] == lr[i - 1] && es[i] == rest[i - 1];
        }
      }
    }
  }

  lemma MarkdownLinesCons(es: seq<Entry>)
    requires |es| > 0
    ensures Lines(es, Markdown) ==
      [MarkdownLine(es[0].depth, es[0].yak.state, Basename(es[0].yak.name))] + Lines(es[1..], Markdown)
  {
    var line := FormatYak(es[0].yak, es[0].depth, Markdown);
    assert line != "";
  }

  /** `FormatYaks`. The empty message depends only on the unfiltered
      input being empty. */
  function FormatYaks(yaks: seq<Yak>, f: Format, filter: Filter): (out: string)
    ensures |yaks| == 0 ==> out == EmptyListing(f)
  {
    if |yaks| == 0 then EmptyListing(f)
    else Join(Lines(Render(SortYaks(FilterYaks(yaks, filter))), f), "\n")
  }

  /** When the filter removes every yak the listing is empty text, not the
      "no yaks" message. */
  lemma FilteredOutIsBlank(yaks: seq<Yak>, f: Format, filter: Filter)
    requires |yaks| > 0 && forall y :: y in yaks ==> !ShouldDisplay(y.state, filter)
    ensures FormatYaks(yaks, f, filter) == ""
  {
    var fs := FilterYaks(yaks, filter);
    assert SortYaks(fs) == [];
    var r := DisplayDir([], "", 0, {});

  }
}
