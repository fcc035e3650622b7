/** The yak entity and its name domain: the forbidden-character rule, the
    exact-then-substring lookup, and path arithmetic on `/`-delimited names. */
module Yaks {
  import opened Types
  import opened Strings
  import opened YakStates

  /** A task. `mtime` is the modification time of its directory, as an
      abstract clock value. */
  datatype Yak = Yak(name: string, state: YakState, context: string, mtime: int)

  /** `Yak::new`: a fresh yak is Todo with empty context; the clock reading
      `now` stands for `SystemTime::now()`. */
  function New(name: string, now: int): (y: Yak)
    ensures y.name == name && y.mtime == now
    ensures y.state == Todo && y.context == ""
  {
    Yak(name, Todo, "", now)
  }

  function WithState(y: Yak, state: YakState): (r: Yak)
    ensures r.state == state
    ensures r.name == y.name && r.context == y.context && r.mtime == y.mtime
  {
    y.(state := state)
  }

  function WithContext(y: Yak, context: string): (r: Yak)
    ensures r.context == context
    ensures r.name == y.name && r.state == y.state && r.mtime == y.mtime
  {
    y.(context := context)
  }

  function WithMtime(y: Yak, mtime: int): (r: Yak)
    ensures r.mtime == mtime
    ensures r.name == y.name && r.state == y.state && r.context == y.context
  {
    y.(mtime := mtime)
  }

  /** The builder chain used when a yak is read from disk yields exactly the
      values read, whatever `new` put there first. */
  lemma BuilderChain(name: string, state: YakState, context: string, mtime: int, now: int)
    ensures WithMtime(WithContext(WithState(New(name, now), state), context), mtime)
         == Yak(name, state, context, mtime)
  {
  }

  // ---------------------------------------------------------------------
  // Path arithmetic (yak.rs)
  // ---------------------------------------------------------------------

  /** The last segment of a name: everything after the last '/', or the whole
      name when it has none. */
  function Basename(name: string): (b: string)
    ensures '/' !in b
    ensures IsSuffixOf(b, name)
    ensures |b| < |name| ==> name[|name| - |b| - 1] == '/'
    ensures '/' !in name ==> b == name
  {
    match LastIndexOf(name, '/')
    case None => name
    case Some(i) => name[i + 1..]
  }

  /** The number of '/' separators, i.e. how deep the yak is nested. */
  function Depth(name: string): nat {
    CountChar(name, '/')
  }

  /** The name without its last segment; None for a top-level name. */
  function Parent(name: string): (p: Option<string>)
    ensures p.None? <==> '/' !in name
    ensures p.Some? ==> name == p.value + "/" + Basename(name)
  {
    match LastIndexOf(name, '/')
    case None => None
    case Some(i) =>
      assert name == name[..i] + "/" + name[i + 1..];
      Some(name[..i])
  }

  /** `is_child_of`: for "" and "." it asks whether the name is top-level;
      otherwise whether the name is `parent/segment` with a single segment. */
  predicate IsChildOf(name: string, parent: string) {
    if parent == "" || parent == "." then '/' !in name
    else IsPrefix(parent + "/", name) && '/' !in name[|parent| + 1..]
  }

  /** The last '/' of `s` is at index `i` exactly when `s[i]` is '/' and none follows. */
  lemma LastSlashAt(s: string, i: nat)
    requires i < |s| && s[i] == '/' && '/' !in s[i + 1..]
    ensures LastIndexOf(s, '/') == Some(i)
  {
    var r := LastIndexOf(s, '/');
    assert s[i] in s[..];
  }

  /** Splitting a name at a single final segment. */
  lemma ParentOfJoin(p: string, b: string)
    requires '/' !in b
    ensures Parent(p + "/" + b) == Some(p)
    ensures Basename(p + "/" + b) == b
  {
    var n := p + "/" + b;
    assert n[|p| + 1..] == b;
    LastSlashAt(n, |p|);
    assert n[..|p|] == p;
  }

  /** For a real parent name, `is_child_of` holds exactly when `parent` is the
      name's parent; so every name is a child of its own parent. */
  lemma IsChildOfIffParent(name: string, parent: string)
    requires parent != "" && parent != "."
    ensures IsChildOf(name, parent) <==> Parent(name) == Some(parent)
  {
    if IsChildOf(name, parent) {
      var b := name[|parent| + 1..];
      assert name == parent + "/" + b by {
        assert name[..|parent| + 1] == parent + "/";
      }
      ParentOfJoin(parent, b);
    }
    if Parent(name) == Some(parent) {
      var b := Basename(name);
      assert name == parent + "/" + b;
      assert name[..|parent| + 1] == parent + "/";
      assert name[|parent| + 1..] == b;
    }
  }

  /** `is_child_of("")` and `is_child_of(".")` hold exactly for top-level names. */
  lemma IsChildOfRoot(name: string, root: string)
    requires root == "" || root == "."
    ensures IsChildOf(name, root) <==> Parent(name).None?
  {
  }

  /** A child is one level deeper than its parent. */
  lemma DepthOfChild(name: string)
    requires Parent(name).Some?
    ensures Depth(name) == Depth(Parent(name).value) + 1
  {
    var p := Parent(name).value;
    var b := Basename(name);
    assert name == p + ("/" + b);
    CountCharAppend(p, "/" + b, '/');
    CountCharAppend("/", b, '/');
    assert CountChar(b, '/') == 0;
    assert CountChar("/", '/') == 1;
  }

  /** A top-level name has depth zero. */
  lemma DepthOfTopLevel(name: string)
    requires Parent(name).None?
    ensures Depth(name) == 0
  {
  }

  /** A name as it appears on disk after path cleaning: non-empty segments
      separated by single '/' characters. */
  predicate WellFormed(name: string) {
    && |name| > 0
    && name[0] != '/'
    && name[|name| - 1] != '/'
    && forall i :: 0 <= i < |name| - 1 && name[i] == '/' ==> name[i + 1] != '/'
  }

  /** The parent of a well-formed name is well-formed and strictly shorter. */
  lemma ParentWellFormed(name: string)
    requires WellFormed(name) && Parent(name).Some?
    ensures WellFormed(Parent(name).value)
    ensures |Parent(name).value| < |name|
    ensures |Basename(name)| > 0
  {
    var p := Parent(name).value;
    var b := Basename(name);
    assert name == p + "/" + b;
    assert name[|p|] == '/';
    if |p| > 0 {
      assert name[|p| - 1] == p[|p| - 1];
      forall i | 0 <= i < |p| - 1 && p[i] == '/'
        ensures p[i + 1] != '/'
      {
        assert name[i] == p[i] && name[i + 1] == p[i + 1];
      }
    }
  }

  // ---------------------------------------------------------------------
  // Name validation (yak.go ValidateYakName)
  // ---------------------------------------------------------------------

  /** The characters a yak name may not contain: \ : * ? | < > " */
  predicate Forbidden(c: char) {
    c == '\\' || c == ':' || c == '*' || c == '?' || c == '|' || c == '<' || c == '>' || c == '"'
  }

  const InvalidNameMessage: string :=
    "Invalid yak name: contains forbidden characters (\\ : * ? | < > \")"

  predicate ValidName(name: string) {
    forall i :: 0 <= i < |name| ==> !Forbidden(name[i])
  }

  function ValidateYakName(name: string): (r: Result<(), string>)
    ensures r.Ok? <==> ValidName(name)
    ensures r.Err? ==> r.error == InvalidNameMessage
  {
    if exists i | 0 <= i < |name| :: Forbidden(name[i]) then Err(InvalidNameMessage)
    else Ok(())
  }

  /** Every name of `es` passes `ValidateYakName`. */
  predicate AllValid(es: seq<string>) {
    forall i :: 0 <= i < |es| ==> ValidName(es[i])
  }

  /** The audit messages of adding the names `es` in order, one per name. */
  function AddMessages(es: seq<string>): (ms: seq<string>)
    ensures |ms| == |es|
    ensures forall i :: 0 <= i < |es| ==> ms[i] == "add " + es[i]
  {
    if |es| == 0 then [] else ["add " + es[0]] + AddMessages(es[1..])
  }

  /** Validity is checked character by character, so it splits over
      concatenation; '/' and ' ' are allowed, which makes `a/b c` valid. */
  lemma ValidNameAppend(a: string, b: string)
    ensures ValidName(a + b) <==> ValidName(a) && ValidName(b)
  {
    if ValidName(a) && ValidName(b) {
      forall i | 0 <= i < |a + b| ensures !Forbidden((a + b)[i]) {
        if i >= |a| { assert (a + b)[i] == b[i - |a|]; }
      }
    }
    if ValidName(a + b) {
      forall i | 0 <= i < |b| ensures !Forbidden(b[i]) {
        assert (a + b)[|a| + i] == b[i];
      }
      forall i | 0 <= i < |a| ensures !Forbidden(a[i]) {
        assert (a + b)[i] == a[i];
      }
    }
  }

  lemma SlashAndSpaceAccepted()
    ensures ValidateYakName("a/b c").Ok?
    ensures ValidateYakName("a:b").Err?
  {
    assert "a:b"[1] == ':';
  }

  /** The parent of a valid name is valid. */
  lemma ValidParent(name: string)
    requires ValidName(name) && Parent(name).Some?
    ensures ValidName(Parent(name).value)
  {
    var p := Parent(name).value;
    assert name == p + ("/" + Basename(name));
    ValidNameAppend(p, "/" + Basename(name));
  }

  // ---------------------------------------------------------------------
  // Name resolution (yak.go FuzzyMatcher.FindYak)
  // ---------------------------------------------------------------------

  datatype FindError = NotFound(term: string) | Ambiguous(term: string)

  /** The listed names containing `term`, in listing order (duplicates kept). */
  function Matches(term: string, names: seq<string>): (ms: seq<string>)
    ensures |ms| <= |names|
    ensures forall n :: n in ms <==> n in names && Contains(n, term)
  {
    if |names| == 0 then []
    else (if Contains(names[0], term) then [names[0]] else []) + Matches(term, names[1..])
  }

  /** Exact match first, then a unique substring match. */
  function FindYak(term: string, names: seq<string>): (r: Result<string, FindError>)
    ensures term in names ==> r == Ok(term)
    ensures term !in names ==>
      && (r.Ok? <==> |Matches(term, names)| == 1)
      && (r.Ok? ==> r.value == Matches(term, names)[0])
      && (r == Err(NotFound(term)) <==> |Matches(term, names)| == 0)
      && (r == Err(Ambiguous(term)) <==> |Matches(term, names)| >= 2)
    ensures r.Ok? ==> r.value in names && Contains(r.value, term)
  {
    if term in names then
      ContainsSelf(term);
      Ok(term)
    else
      var ms := Matches(term, names);
      if |ms| == 0 then Err(NotFound(term))
      else if |ms| == 1 then
        assert ms[0] in ms;
        Ok(ms[0])
      else Err(Ambiguous(term))
  }

  /** The names of a set that contain `term`. */
  function MatchSet(term: string, names: set<string>): (ms: set<string>)
    ensures forall n :: n in ms <==> n in names && Contains(n, term)
  {
    set n | n in names && Contains(n, term)
  }

  lemma SingletonMember<T>(s: set<T>, a: T, b: T)
    requires |s| == 1 && a in s && b in s
    ensures a == b
  {
    if a != b {
      assert {a, b} <= s;
      assert |{a, b}| == 2;
      SubsetCard({a, b}, s);
    }
  }

  lemma SubsetCard<T>(a: set<T>, b: set<T>)
    requires a <= b
    ensures |a| <= |b|
  {
    assert b == a + (b - a);
  }

  /** Resolution against a set of distinct names: the order-free form of
      `FindYak` used by the stores, whose listings are sets. */
  function Resolve(term: string, names: set<string>): (r: Result<string, FindError>)
    ensures term in names ==> r == Ok(term)
    ensures term !in names ==>
      && (r.Ok? <==> |MatchSet(term, names)| == 1)
      && (r == Err(NotFound(term)) <==> MatchSet(term, names) == {})
      && (r == Err(Ambiguous(term)) <==> |MatchSet(term, names)| >= 2)
    ensures r.Ok? ==> r.value in names && Contains(r.value, term)
    ensures r.Ok? && term !in names ==> MatchSet(term, names) == {r.value}
  {
    if term in names then
      ContainsSelf(term);
      Ok(term)
    else
      var ms := MatchSet(term, names);
      if |ms| == 0 then Err(NotFound(term))
      else if |ms| == 1 then
        var m :| m in ms;
        forall x | x in ms ensures x == m { SingletonMember(ms, x, m); }
        assert ms == {m};
        Ok(m)
      else Err(Ambiguous(term))
  }

  predicate Distinct(s: seq<string>) {
    forall i, j :: 0 <= i < j < |s| ==> s[i] != s[j]
  }

  lemma {:induction false} MatchesCard(term: string, names: seq<string>)
    requires Distinct(names)
    ensures |Matches(term, names)| == |MatchSet(term, set n | n in names)|
  {
    if |names| == 0 {
      assert (set n | n in names) == {};
    } else {
      var h, rest := names[0], names[1..];
      var rs := set n | n in rest;
      DistinctTail(names);
      MatchesCard(term, rest);
      ElementsCons(names);
      MatchSetAdd(term, h, rs);
      if Contains(h, term) {
        assert Matches(term, names) == [h] + Matches(term, rest);
        assert |MatchSet(term, {h} + rs)| == |MatchSet(term, rs)| + 1;
      } else {
        assert Matches(term, names) == Matches(term, rest);
      }
    }
  }

  /** The tail of a list of distinct names is distinct and lacks the head. */
  lemma DistinctTail(names: seq<string>)
    requires Distinct(names) && |names| > 0
    ensures Distinct(names[1..]) && names[0] !in set n | n in names[1..]
  {
    var rest := names[1..];
    forall k | 0 <= k < |rest| ensures rest[k] != names[0] {
      assert rest[k] == names[k + 1];
    }
  }

  lemma ElementsCons(names: seq<string>)
    requires |names| > 0
    ensures (set n | n in names) == {names[0]} + set n | n in names[1..]
  {
    assert names == [names[0]] + names[1..];
  }

  lemma MatchSetAdd(term: string, x: string, s: set<string>)
    requires x !in s
    ensures Contains(x, term) ==> MatchSet(term, {x} + s) == {x} + MatchSet(term, s) && x !in MatchSet(term, s)
    ensures !Contains(x, term) ==> MatchSet(term, {x} + s) == MatchSet(term, s)
  {
  }

  /** With distinct names (as every directory listing has), `FindYak` depends
      only on the set of names: the listing order never changes the answer,
      and it agrees with `Resolve`. */
  lemma FindYakIsResolve(term: string, names: seq<string>)
    requires Distinct(names)
    ensures FindYak(term, names) == Resolve(term, set n | n in names)
  {
    var ns := set n | n in names;
    MatchesCard(term, names);
    var r := FindYak(term, names);
    var q := Resolve(term, ns);
    if term !in names && r.Ok? {
      assert r.value in MatchSet(term, ns);
      assert q.Ok?;
      assert MatchSet(term, ns) == {q.value};
    }
  }
}
