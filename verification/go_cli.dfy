/** The Go prototype's command layer (adapters/cli/cli.go): argument
    handling, the order of repository calls, exit codes, and the message
    handed to the command log after each successful write. The terminal,
    the editor, standard input and the git sync are parameters. */
module GoCli {
  import opened Types
  import opened Strings
  import opened YakStates
  import opened Yaks
  import opened TaskTree
  import opened Display
  import opened GoRepository
  import GoOutput

  /** What a run sees of the world besides the store: the clock, whether
      writing the command log fails, the lines on standard input, whether
      standard input is a terminal, the text the editor leaves behind (None
      when creating, editing or reading the temporary file fails) and
      whether `sync` fails, and the directories below the base in the order
      `filepath.WalkDir` meets them. */
  datatype Env = Env(now: int, logFails: bool, stdin: seq<string>, terminal: bool,
                     edited: Option<string>, syncFails: bool, walk: seq<string>)

  /** Standard output: the help text, the interactive prompt, or a line. */
  datatype Out = Help | Prompt | Line(text: string)

  /** Standard error. */
  datatype Diag =
    | Usage(text: string)
    | Failed(e: StoreError)
    | CannotComplete(name: string)
    | RemoveError(name: string, e: StoreError)
    | LogWarning
    | EditorFailed
    | SyncFailed

  /** The exit code, the store afterwards, the messages given to the command
      log, and what was printed. */
  datatype CliRun = CliRun(code: int, store: Nodes, logged: seq<string>, out: seq<Out>, diags: seq<Diag>)

  const NameRequired: string := "Error: yak name required"
  const NamesRequired: string := "Error: old and new names required"

  function Refused(m: Nodes, d: Diag): (r: CliRun)
    ensures r.code == 1 && r.store == m && r.logged == []
  {
    CliRun(1, m, [], [], [d])
  }

  /** A successful write followed by `LogCommand(msg)`; a failing log is
      only a warning. */
  function Logged(m: Nodes, msg: string, env: Env): (r: CliRun)
    ensures r.code == 0 && r.store == m && r.logged == [msg]
    ensures LogWarning in r.diags <==> env.logFails
  {
    CliRun(0, m, [msg], [], if env.logFails then [LogWarning] else [])
  }

  /** A write by name followed by `Get(name)` to log the resolved name; when
      the name no longer resolves nothing is logged. */
  function LogResolved(m: Nodes, term: string, verb: string, env: Env): (r: CliRun)
    ensures r.code == 0 && r.store == m
    ensures Get(m, term).Ok? ==> r.logged == [verb + Get(m, term).value.name]
    ensures Get(m, term).Err? ==> r.logged == []
  {
    match Get(m, term)
    case Ok(y) => Logged(m, verb + y.name, env)
    case Err(_) => CliRun(0, m, [], [], [])
  }

  /** Words after the command are joined with single spaces into a name. */
  function Words(args: seq<string>): string {
    Join(args, " ")
  }

  // ---------------------------------------------------------------------
  // add
  // ---------------------------------------------------------------------

  /** `cmdAdd` with arguments. */
  function AddNamed(m: Nodes, args: seq<string>, env: Env): (r: CliRun)
    requires |args| > 0
    ensures r.code == 0 <==> ValidName(Words(args))
    ensures r.code == 1 ==> r.store == m && r.logged == [] && r.diags == [Failed(InvalidName(InvalidNameMessage))]
    ensures r.code == 0 ==> r.store == Add(m, Words(args), env.now).value && r.logged == ["add " + Words(args)]
  {
    var name := Words(args);
    match Add(m, name, env.now)
    case Err(e) => Refused(m, Failed(e))
    case Ok(m2) => Logged(m2, "add " + name, env)
  }

  /** The lines typed before the first empty one. */
  function Entered(lines: seq<string>): (es: seq<string>)
    ensures |es| <= |lines|
    ensures forall e :: e in es ==> e != "" && e in lines
  {
    if |lines| == 0 || lines[0] == "" then [] else [lines[0]] + Entered(lines[1..])
  }

  /** Every name of `es` is accepted by `Add` and is a well-formed path. */
  predicate AllAddable(es: seq<string>) {
    AllValid(es) && forall i :: 0 <= i < |es| ==> WellFormed(es[i])
  }

  /** The loop of `addInteractive`: add each line until an empty one or the
      end of input; the first invalid name stops it with exit code 1, and
      the yaks added before it stay. */
  function AddLines(m: Nodes, lines: seq<string>, env: Env): (r: CliRun)
    ensures r.code == 0 || r.code == 1
    decreases |lines|
  {
    if |lines| == 0 || lines[0] == "" then CliRun(0, m, [], [], [])
    else
      match Add(m, lines[0], env.now)
      case Err(e) => CliRun(1, m, [], [], [Failed(e)])
      case Ok(m2) =>
        var rest := AddLines(m2, lines[1..], env);
        var warn := if env.logFails then [LogWarning] else [];
        CliRun(rest.code, rest.store, ["add " + lines[0]] + rest.logged, [], warn + rest.diags)
  }

  /** When every entered name is valid the loop exits 0 and logs one
      message per name. */
  lemma {:induction false} AddLinesLogs(m: Nodes, lines: seq<string>, env: Env)
    requires AllAddable(Entered(lines))
    ensures AddLines(m, lines, env).code == 0
    ensures AddLines(m, lines, env).logged == AddMessages(Entered(lines))
    decreases |lines|
  {
    if |lines| > 0 && lines[0] != "" {
      var es := Entered(lines);
      assert es == [lines[0]] + Entered(lines[1..]);
      AddStep(m, lines, env);
      var m2 := Add(m, lines[0], env.now).value;
      AddLinesLogs(m2, lines[1..], env);
      assert AddMessages(es) == ["add " + lines[0]] + AddMessages(Entered(lines[1..]));
    }
  }

  /** When every entered name is valid, every one is listed afterwards. */
  lemma {:induction false} AddLinesListed(m: Nodes, lines: seq<string>, env: Env)
    requires AllAddable(Entered(lines))
    ensures Listed(AddLines(m, lines, env).store) == Listed(m) + EnteredSet(lines)
    decreases |lines|
  {
    if |lines| > 0 && lines[0] != "" {
      AddStep(m, lines, env);
      var m2 := Add(m, lines[0], env.now).value;
      AddLinesListed(m2, lines[1..], env);
      var r := AddLines(m, lines, env).store;
      assert r == AddLines(m2, lines[1..], env).store;
      calc {
        Listed(r);
        Listed(m2) + EnteredSet(lines[1..]);
        Listed(m) + {lines[0]} + EnteredSet(lines[1..]);
        { assert Entered(lines) == [lines[0]] + Entered(lines[1..]); }
        Listed(m) + EnteredSet(lines);
      }
    }
  }

  /** One step of the loop on a valid first line. */
  lemma AddStep(m: Nodes, lines: seq<string>, env: Env)
    requires |lines| > 0 && lines[0] != "" && AllAddable(Entered(lines))
    ensures Add(m, lines[0], env.now).Ok?
    ensures Listed(Add(m, lines[0], env.now).value) == Listed(m) + {lines[0]}
    ensures AllAddable(Entered(lines[1..]))
    ensures var m2 := Add(m, lines[0], env.now).value; var rest := AddLines(m2, lines[1..], env);
      && AddLines(m, lines, env).store == rest.store
      && AddLines(m, lines, env).code == rest.code
      && AddLines(m, lines, env).logged == ["add " + lines[0]] + rest.logged
  {
    var es := Entered(lines);
    assert es == [lines[0]] + Entered(lines[1..]);
    assert es[0] == lines[0];
    AddListed(m, lines[0], env.now);
    forall i | 0 <= i < |Entered(lines[1..])|
      ensures ValidName(Entered(lines[1..])[i]) && WellFormed(Entered(lines[1..])[i])
    {
      assert Entered(lines[1..])[i] == es[i + 1];
    }
  }

  /** The first invalid name entered stops the loop with exit code 1. */
  lemma AddLinesStops(m: Nodes, lines: seq<string>, env: Env, i: nat)
    requires i < |Entered(lines)| && !ValidName(Entered(lines)[i])
    ensures AddLines(m, lines, env).code == 1
  {
    AddLinesCode(m, lines, env);
    EnteredCodeStops(lines, i);
  }

  /** The exit code of the loop, read off the lines alone: 1 when an
      invalid name is entered before the first empty line, else 0. */
  function EnteredCode(lines: seq<string>): (c: int)
    ensures c == 0 || c == 1
  {
    if |lines| == 0 || lines[0] == "" then 0
    else if !ValidName(lines[0]) then 1
    else EnteredCode(lines[1..])
  }

  /** The loop's exit code does not depend on the store it adds to. */
  lemma {:induction false} AddLinesCode(m: Nodes, lines: seq<string>, env: Env)
    ensures AddLines(m, lines, env).code == EnteredCode(lines)
    decreases |lines|
  {
    if |lines| > 0 && lines[0] != "" {
      var m2 := AddLinesUnfold(m, lines, env);
      if ValidName(lines[0]) {
        AddLinesCode(m2, lines[1..], env);
      }
    }
  }

  lemma {:induction false} EnteredCodeStops(lines: seq<string>, i: nat)
    requires i < |Entered(lines)| && !ValidName(Entered(lines)[i])
    ensures EnteredCode(lines) == 1
    decreases i
  {
    EnteredAt(lines, i);
    if i > 0 && ValidName(lines[0]) {
      EnteredCodeStops(lines[1..], i - 1);
    }
  }

  /** Entry `i` of what was entered is the first line, or entry `i - 1`
      of what the remaining lines enter. */
  lemma EnteredAt(lines: seq<string>, i: nat)
    requires i < |Entered(lines)|
    ensures |lines| > 0 && lines[0] != ""
    ensures i == 0 ==> Entered(lines)[i] == lines[0]
    ensures i > 0 ==> i - 1 < |Entered(lines[1..])| && Entered(lines)[i] == Entered(lines[1..])[i - 1]
  {
    assert Entered(lines) == [lines[0]] + Entered(lines[1..]);
  }

  lemma AddLinesUnfold(m: Nodes, lines: seq<string>, env: Env) returns (m2: Nodes)
    requires |lines| > 0 && lines[0] != ""
    ensures !ValidName(lines[0]) ==> AddLines(m, lines, env).code == 1
    ensures ValidName(lines[0]) ==> AddLines(m, lines, env).code == AddLines(m2, lines[1..], env).code
  {
    if ValidName(lines[0]) {
      m2 := Add(m, lines[0], env.now).value;
    } else {
      m2 := m;
    }
  }

  function EnteredSet(lines: seq<string>): (s: set<string>)
    ensures forall e :: e in s <==> e in Entered(lines)
  {
    set e | e in Entered(lines)
  }

  /** `cmdAdd`. */
  function CmdAdd(m: Nodes, args: seq<string>, env: Env): (r: CliRun)
    ensures |args| == 0 ==> |r.out| > 0 && r.out[0] == Prompt
    ensures r.code == 0 || r.code == 1
    ensures |args| > 0 && r.code == 1 ==> r.logged == []
  {
    if |args| == 0 then
      var r := AddLines(m, env.stdin, env);
      r.(out := [Prompt] + r.out)
    else AddNamed(m, args, env)
  }

  // ---------------------------------------------------------------------
  // list
  // ---------------------------------------------------------------------

  datatype ListOptions = ListOptions(format: Format, filter: Filter)

  /** A `--format` value: markdown (md) or plain (raw); others are ignored. */
  function FormatFlag(v: string, f: Format): Format {
    if v == "markdown" || v == "md" then Markdown
    else if v == "plain" || v == "raw" then Plain
    else f
  }

  /** An `--only` value: not-done or done; others are ignored. */
  function FilterFlag(v: string, fl: Filter): Filter {
    if v == "not-done" then NotDone
    else if v == "done" then DoneOnly
    else fl
  }

  predicate IsListFlag(a: string) {
    a == "--format" || a == "--only"
  }

  /** The flag loop of `cmdList`: a flag with a following word consumes
      it; a flag in last position and every other word are skipped. */
  function ParseListArgs(args: seq<string>, o: ListOptions): (r: ListOptions)
    ensures "--format" !in args ==> r.format == o.format
    ensures "--only" !in args ==> r.filter == o.filter
    decreases |args|
  {
    if |args| == 0 then o
    else if args[0] == "--format" && |args| > 1 then
      ParseListArgs(args[2..], o.(format := FormatFlag(args[1], o.format)))
    else if args[0] == "--only" && |args| > 1 then
      ParseListArgs(args[2..], o.(filter := FilterFlag(args[1], o.filter)))
    else
      ParseListArgs(args[1..], o)
  }

  /** The arguments parse without a flag in last position, so nothing
      appended afterwards is swallowed as a flag value. */
  predicate Closed(args: seq<string>)
    decreases |args|
  {
    if |args| == 0 then true
    else if IsListFlag(args[0]) then |args| > 1 && Closed(args[2..])
    else Closed(args[1..])
  }

  /** Parsing closed arguments and then more is parsing the more from where
      the first part left off. */
  lemma {:induction false} ParseAppend(a: seq<string>, b: seq<string>, o: ListOptions)
    requires Closed(a)
    ensures ParseListArgs(a + b, o) == ParseListArgs(b, ParseListArgs(a, o))
    decreases |a|
  {
    if |a| > 0 {
      if IsListFlag(a[0]) {
        assert (a + b)[2..] == a[2..] + b;
        assert (a + b)[1] == a[1];
        ParseAppend(a[2..], b, if a[0] == "--format" then o.(format := FormatFlag(a[1], o.format)) else o.(filter := FilterFlag(a[1], o.filter)));
      } else {
        assert (a + b)[1..] == a[1..] + b;
        ParseAppend(a[1..], b, o);
      }
    } else {
      assert a + b == b;
    }
  }

  /** The last `--format` or `--only` wins. */
  lemma LastFlagWins(a: seq<string>, v: string, o: ListOptions)
    requires Closed(a)
    ensures ParseListArgs(a + ["--format", v], o) == ParseListArgs(a, o).(format := FormatFlag(v, ParseListArgs(a, o).format))
    ensures ParseListArgs(a + ["--only", v], o) == ParseListArgs(a, o).(filter := FilterFlag(v, ParseListArgs(a, o).filter))
  {
    ParseAppend(a, ["--format", v], o);
    ParseAppend(a, ["--only", v], o);
    assert ["--format", v][2..] == [];
    assert ["--only", v][2..] == [];
  }

  /** A flag given no value swallows the next flag: `--format --only done`
      keeps both defaults. */
  lemma FlagSwallowsFlag()
    ensures ParseListArgs(["--format", "--only", "done"], ListOptions(Markdown, All)) == ListOptions(Markdown, All)
  {
    assert ["--format", "--only", "done"][2..] == ["done"];
    assert ["done"][1..] == [];
  }

  /** The listed yaks as a sequence, in byte order of their names. */
  function ListSeq(m: Nodes): (ys: seq<Yak>)
    ensures |ys| == |SortStrings(Listed(m))|
    ensures forall i :: 0 <= i < |ys| ==> ys[i] == Load(m, SortStrings(Listed(m))[i])
  {
    var names := SortStrings(Listed(m));
    seq(|names|, i requires 0 <= i < |names| => Load(m, names[i]))
  }

  /** The sequence holds every listed yak and no name twice. */
  lemma ListSeqContents(m: Nodes)
    ensures forall y :: y in ListSeq(m) <==> y in List(m)
    ensures GoOutput.UniqueNames(multiset(ListSeq(m)))
  {
    var ys := ListSeq(m);
    ListSeqMembers(m);
    forall x: Yak, y: Yak | x in multiset(ys) && y in multiset(ys) && x.name == y.name ensures x == y {
      assert x in ys && y in ys;
    }
  }

  /** The sequence holds exactly the listed yaks. */
  lemma ListSeqMembers(m: Nodes)
    ensures forall y :: y in ListSeq(m) <==> y in List(m)
  {
    var ys := ListSeq(m);
    var names := SortStrings(Listed(m));
    forall y | y in List(m) ensures y in ys {
      var i :| 0 <= i < |names| && names[i] == y.name;
      assert ys[i] == y;
    }
  }

  /** Filtering keeps names unique. */
  lemma FilterUnique(ys: seq<Yak>, fl: Filter)
    requires GoOutput.UniqueNames(multiset(ys))
    ensures GoOutput.UniqueNames(multiset(FilterYaks(ys, fl)))
  {
    var a := FilterYaks(ys, fl);
    forall x: Yak, y: Yak | x in multiset(a) && y in multiset(a) && x.name == y.name ensures x == y {
      assert x in multiset(ys) && y in multiset(ys);
    }
  }

  /** The listing does not depend on the order the walk produced the yaks:
      any arrangement of the same yaks prints the same text. */
  lemma ListingIgnoresWalkOrder(m: Nodes, ys: seq<Yak>, f: Format, fl: Filter)
    requires multiset(ys) == multiset(ListSeq(m))
    ensures GoOutput.FormatYaks(ys, f, fl) == GoOutput.FormatYaks(ListSeq(m), f, fl)
  {
    var zs := ListSeq(m);
    assert |ys| == |multiset(ys)| == |zs|;
    ListSeqContents(m);
    FilterPermutation(ys, zs, fl);
    FilterUnique(ys, fl);
    GoOutput.SortIgnoresInputOrder(FilterYaks(ys, fl), FilterYaks(zs, fl));
  }

  /** `cmdList`: the store is only read; nothing is printed for an empty
      text. */
  function CmdList(m: Nodes, args: seq<string>): (r: CliRun)
    ensures r.code == 0 && r.store == m && r.logged == [] && r.diags == []
    ensures forall o :: o in r.out ==> o.Line? && o.text != ""
  {
    var o := ParseListArgs(args, ListOptions(Markdown, All));
    var text := GoOutput.FormatYaks(ListSeq(m), o.format, o.filter);
    CliRun(0, m, [], if text != "" then [Line(text)] else [], [])
  }

  // ---------------------------------------------------------------------
  // done
  // ---------------------------------------------------------------------

  /** `done <name>`: refuse while a child is incomplete, otherwise write
      state done and log the resolved name. */
  function Complete(m: Nodes, term: string, env: Env): (r: CliRun)
    ensures r.code == 0 <==> Get(m, term).Ok? && HasIncompleteChildren(m, term) == Ok(false)
    ensures r.code == 1 ==> r.store == m && r.logged == []
    ensures HasIncompleteChildren(m, term) == Ok(true) ==> r.diags == [CannotComplete(Get(m, term).value.name)]
    ensures r.code == 0 ==> var n := Get(m, term).value.name;
      && r.store == SetState(m, term, Done).value
      && Get(r.store, n) == Ok(Load(m, n).(state := Done))
      && r.logged == ["done " + n]
  {
    match HasIncompleteChildren(m, term)
    case Err(e) => Refused(m, Failed(e))
    case Ok(incomplete) =>
      if incomplete then Refused(m, CannotComplete(Get(m, term).value.name))
      else
        SetStateThenGet(m, term, Done);
        var m2 := SetState(m, term, Done).value;
        LogResolved(m2, Get(m, term).value.name, "done ", env)
  }

  /** `done --undo <name>`: no check of the children. */
  function Undo(m: Nodes, term: string, env: Env): (r: CliRun)
    ensures r.code == 0 <==> Get(m, term).Ok?
    ensures r.code == 1 ==> r.store == m && r.logged == []
    ensures r.code == 0 ==> var n := Get(m, term).value.name;
      && Get(r.store, n) == Ok(Load(m, n).(state := Todo))
      && r.logged == ["done --undo " + n]
  {
    match SetState(m, term, Todo)
    case Err(e) => Refused(m, Failed(e))
    case Ok(m2) =>
      SetStateThenGet(m, term, Todo);
      LogResolved(m2, Get(m, term).value.name, "done --undo ", env)
  }

  /** `done --recursive <name>`: `MarkDoneRecursively` as written; when it
      stops with an error the command exits 1 and keeps whatever the walk
      had already written; otherwise the term is resolved again to log the
      name. */
  function CompleteAll(m: Nodes, term: string, env: Env): (r: CliRun)
    ensures var t := MarkDoneRecursively(m, term);
      && r.store == t.store
      && MarkedFrom(m, r.store, t.trace)
      && (r.code == 0 <==> t.err.None?)
      && (r.code == 1 ==> r.logged == [] && r.diags == [Failed(t.err.value)])
    ensures Get(m, term).Err? ==> r == Refused(m, Failed(Get(m, term).error))
    ensures Get(m, term).Ok? ==> var n := Get(m, term).value.name;
      n in r.store && r.store[n].stateFile == Some("done")
    ensures r.code == 0 && Get(r.store, term).Ok? ==> r.logged == ["done --recursive " + Get(r.store, term).value.name]
    ensures r.code == 0 || r.code == 1
  {
    MarkDoneRecursivelyStart(m, term);
    var t := MarkDoneRecursively(m, term);
    if t.err.Some? then CliRun(1, t.store, [], [], [Failed(t.err.value)])
    else LogResolved(t.store, term, "done --recursive ", env)
  }

  /** `cmdDone`. */
  function CmdDone(m: Nodes, args: seq<string>, env: Env): (r: CliRun)
    ensures |args| == 0 ==> r == Refused(m, Usage(NameRequired))
    ensures |args| == 1 && (args[0] == "--undo" || args[0] == "--recursive") ==> r == Refused(m, Usage(NameRequired))
    ensures |args| > 0 && args[0] != "--undo" && args[0] != "--recursive" ==> r == Complete(m, Words(args), env)
    ensures |args| > 1 && args[0] == "--undo" ==> r == Undo(m, Words(args[1..]), env)
    ensures |args| > 1 && args[0] == "--recursive" ==> r == CompleteAll(m, Words(args[1..]), env)
    ensures r.code == 0 || r.code == 1
  {
    if |args| == 0 then Refused(m, Usage(NameRequired))
    else if args[0] == "--undo" || args[0] == "--recursive" then
      if |args| < 2 then Refused(m, Usage(NameRequired))
      else if args[0] == "--undo" then Undo(m, Words(args[1..]), env)
      else CompleteAll(m, Words(args[1..]), env)
    else Complete(m, Words(args), env)
  }

  /** A refused completion never writes, and undoing is never refused for
      a yak that resolves. */
  lemma CompletionRefusalWritesNothing(m: Nodes, term: string, env: Env)
    requires Get(m, term).Ok?
    ensures HasIncompleteChildren(m, term) == Ok(true) ==> Complete(m, term, env).store == m
    ensures Undo(m, term, env).code == 0
  {
  }

  // ---------------------------------------------------------------------
  // rm, prune, move
  // ---------------------------------------------------------------------

  /** `cmdRemove`. */
  function CmdRemove(m: Nodes, args: seq<string>, env: Env): (r: CliRun)
    ensures |args| == 0 ==> r == Refused(m, Usage(NameRequired))
    ensures r.code == 0 <==> |args| > 0 && Get(m, Words(args)).Ok?
    ensures r.code == 1 ==> r.store == m && r.logged == []
    ensures r.code == 0 ==> var n := Get(m, Words(args)).value.name;
      && r.store == RemoveSubtree(m, n)
      && r.logged == ["rm " + n]
    ensures r.code == 0 || r.code == 1
  {
    if |args| == 0 then Refused(m, Usage(NameRequired))
    else
      var name := Words(args);
      match Get(m, name)
      case Err(e) => Refused(m, Failed(e))
      case Ok(y) =>
        match Remove(m, name)
        case Err(e) => Refused(m, Failed(e))
        case Ok(m2) =>
          assert m2 == RemoveSubtree(m, y.name);
          Logged(m2, "rm " + y.name, env)
  }

  /** The listed yaks in the order the directory walk met them: `List`
      as `cmdPrune` sees it. */
  function WalkList(m: Nodes, walk: seq<string>): (ys: seq<Yak>)
    ensures |ys| <= |walk|
    ensures forall y :: y in ys <==> y.name in walk && y.name in Listed(m) && y == Load(m, y.name)
    ensures (forall i, j :: 0 <= i < j < |walk| ==> walk[i] != walk[j]) ==>
      forall i, j :: 0 <= i < j < |ys| ==> ys[i].name != ys[j].name
  {
    if |walk| == 0 then []
    else
      var rest := WalkList(m, walk[1..]);
      assert forall y :: y in rest ==> y.name in walk[1..];
      (if walk[0] in Listed(m) then [Load(m, walk[0])] else []) + rest
  }

  /** The pruned store and the removals that failed. */
  datatype Pruned = Pruned(store: Nodes, failures: seq<Diag>)

  /** `cmdPrune` as written: each done yak of the listing taken before the
      loop is removed through `Remove`, which resolves the name again in
      the store the earlier removals left; a failure is printed and the
      loop goes on. */
  function PruneResolving(m: Nodes, ys: seq<Yak>): (r: Pruned)
    ensures r.store.Keys <= m.Keys
    ensures forall k :: k in r.store ==> r.store[k] == m[k]
    ensures |r.failures| <= |ys|
    ensures forall d :: d in r.failures ==> d.RemoveError? && exists i :: 0 <= i < |ys| && ys[i].state == Done && ys[i].name == d.name
  {
    if |ys| == 0 then Pruned(m, [])
    else if ys[0].state != Done then
      var rest := PruneResolving(m, ys[1..]);
      assert forall i :: 0 <= i < |ys[1..]| ==> ys[1..][i] == ys[i + 1];
      rest
    else
      match Remove(m, ys[0].name)
      case Err(e) =>
        var rest := PruneResolving(m, ys[1..]);
        assert forall i :: 0 <= i < |ys[1..]| ==> ys[1..][i] == ys[i + 1];
        Pruned(rest.store, [RemoveError(ys[0].name, e)] + rest.failures)
      case Ok(m2) =>
        var rest := PruneResolving(m2, ys[1..]);
        assert forall i :: 0 <= i < |ys[1..]| ==> ys[1..][i] == ys[i + 1];
        rest
  }

  /** Prune by exact path: each done yak's directory is removed with
      everything below it, and a directory already gone is no error. */
  function PruneExact(m: Nodes, ys: seq<Yak>): (r: Nodes)
    ensures forall k :: k in r <==> k in m && forall y :: y in ys && y.state == Done ==> !InSubtree(k, y.name)
    ensures forall k :: k in r ==> r[k] == m[k]
  {
    if |ys| == 0 then m
    else if ys[0].state != Done then PruneExact(m, ys[1..])
    else
      var r := PruneExact(RemoveSubtree(m, ys[0].name), ys[1..]);
      assert forall y :: y in ys <==> y == ys[0] || y in ys[1..];
      r
  }

  /** No done yak of the sequence lies at or below another one of it. */
  predicate DoneApart(ys: seq<Yak>) {
    forall i, j :: 0 <= i < |ys| && 0 <= j < |ys| && i != j && ys[i].state == Done && ys[j].state == Done ==>
      !InSubtree(ys[j].name, ys[i].name)
  }

  /** When every done yak of the listing is still listed and none lies below
      another, pruning as written removes exactly what the exact prune
      removes, and no removal fails. */
  lemma {:induction false} PruneResolvingAgrees(m: Nodes, ys: seq<Yak>)
    requires forall i :: 0 <= i < |ys| && ys[i].state == Done ==> ys[i].name in Listed(m)
    requires DoneApart(ys)
    ensures PruneResolving(m, ys) == Pruned(PruneExact(m, ys), [])
    decreases |ys|
  {
    if |ys| > 0 {
      var tail := ys[1..];
      assert forall i :: 0 <= i < |tail| ==> tail[i] == ys[i + 1];
      if ys[0].state != Done {
        PruneResolvingAgrees(m, tail);
      } else {
        var n := ys[0].name;
        var m2 := RemoveSubtree(m, n);
        assert Remove(m, n) == Ok(m2) by {
          var v := Remove(m, n).value;
          assert forall k :: k in v <==> k in m2;
        }
        forall i | 0 <= i < |tail| && tail[i].state == Done ensures tail[i].name in Listed(m2) {
          assert !InSubtree(ys[i + 1].name, ys[0].name);
        }
        PruneResolvingAgrees(m2, tail);
      }
    }
  }

  /** No done listed yak lies below another done listed yak. */
  predicate DoneFlat(m: Nodes) {
    forall a, b :: a in Listed(m) && b in Listed(m) && Under(b, a) ==> Load(m, a).state != Done || Load(m, b).state != Done
  }

  /** The walk meets every listed directory once. */
  predicate WalksListing(m: Nodes, walk: seq<string>) {
    && (forall k :: k in Listed(m) ==> k in walk)
    && (forall i, j :: 0 <= i < j < |walk| ==> walk[i] != walk[j])
  }

  /** A walk of a flat store gives a listing that prunes as intended. */
  lemma WalkListApart(m: Nodes, walk: seq<string>)
    requires WalksListing(m, walk) && DoneFlat(m)
    ensures DoneApart(WalkList(m, walk))
    ensures forall y :: y in WalkList(m, walk) <==> y in ListSeq(m)
  {
    var ys := WalkList(m, walk);
    forall i, j | 0 <= i < |ys| && 0 <= j < |ys| && i != j && ys[i].state == Done && ys[j].state == Done
      ensures !InSubtree(ys[j].name, ys[i].name)
    {
      assert ys[i] in ys && ys[j] in ys;
      assert ys[i].name != ys[j].name by {
        if i < j {} else {}
      }
    }
    ListSeqMembers(m);
  }

  /** Exact pruning depends only on which yaks are done, not on the order
      of the listing. */
  lemma PruneExactIgnoresOrder(m: Nodes, a: seq<Yak>, b: seq<Yak>)
    requires forall y :: y in a <==> y in b
    ensures PruneExact(m, a) == PruneExact(m, b)
  {
  }

  /** After pruning the listing by exact path no listed yak is done. */
  lemma PruneExactLeavesNoDone(m: Nodes)
    ensures var r := PruneExact(m, ListSeq(m));
      forall k :: k in Listed(r) ==> Load(r, k).state == Todo
  {
    var r := PruneExact(m, ListSeq(m));
    ListSeqContents(m);
    forall k | k in Listed(r) ensures Load(r, k).state == Todo {
      var y := Load(m, k);
      assert y in List(m);
      assert InSubtree(k, y.name);
    }
  }

  /** Every todo yak that was not below a done one survives pruning,
      unchanged. */
  lemma PruneExactKeepsTodo(m: Nodes, k: string)
    requires k in Listed(m)
    requires forall d :: d in Listed(m) && Load(m, d).state == Done ==> !InSubtree(k, d)
    ensures k in Listed(PruneExact(m, ListSeq(m)))
    ensures Load(PruneExact(m, ListSeq(m)), k) == Load(m, k)
  {
    var r := PruneExact(m, ListSeq(m));
    ListSeqMembers(m);
    forall y | y in ListSeq(m) && y.state == Done ensures !InSubtree(k, y.name) {
      assert y in List(m);
    }
    assert k in r && r[k] == m[k];
  }

  /** `cmdPrune`: the done yaks of the walk's listing go through
      `Remove` one by one; each failure is printed and the command still
      exits 0. Nothing is logged and nothing outside the removed subtrees
      changes. On a store where no done yak lies below another, nothing
      fails and no listed yak is left done. */
  function CmdPrune(m: Nodes, env: Env): (r: CliRun)
    ensures r.code == 0 && r.logged == [] && r.out == []
    ensures r.store.Keys <= m.Keys && forall k :: k in r.store ==> r.store[k] == m[k]
    ensures forall d :: d in r.diags ==> d.RemoveError? && d.name in Listed(m) && Load(m, d.name).state == Done
    ensures WalksListing(m, env.walk) && DoneFlat(m) ==>
      && r.diags == []
      && r.store == PruneExact(m, ListSeq(m))
      && forall k :: k in Listed(r.store) ==> Load(r.store, k).state == Todo
  {
    var ys := WalkList(m, env.walk);
    var p := PruneResolving(m, ys);
    PruneFailuresListed(m, ys, p);
    PruneFlat(m, env.walk);
    CliRun(0, p.store, [], [], p.failures)
  }

  /** A failed removal names a done yak of the store. */
  lemma PruneFailuresListed(m: Nodes, ys: seq<Yak>, p: Pruned)
    requires forall y :: y in ys ==> y.name in Listed(m) && y == Load(m, y.name)
    requires p == PruneResolving(m, ys)
    ensures forall d :: d in p.failures ==> d.RemoveError? && d.name in Listed(m) && Load(m, d.name).state == Done
  {
    forall d | d in p.failures ensures d.name in Listed(m) && Load(m, d.name).state == Done {
      var i :| 0 <= i < |ys| && ys[i].state == Done && ys[i].name == d.name;
      assert ys[i] in ys;
    }
  }

  /** On a flat store the walk's prune is the exact prune of the listing. */
  lemma PruneFlat(m: Nodes, walk: seq<string>)
    ensures WalksListing(m, walk) && DoneFlat(m) ==>
      var r := PruneResolving(m, WalkList(m, walk));
      && r == Pruned(PruneExact(m, ListSeq(m)), [])
      && forall k :: k in Listed(r.store) ==> Load(r.store, k).state == Todo
  {
    if WalksListing(m, walk) && DoneFlat(m) {
      var ys := WalkList(m, walk);
      WalkListApart(m, walk);
      forall i | 0 <= i < |ys| && ys[i].state == Done ensures ys[i].name in Listed(m) {
        assert ys[i] in ys;
      }
      PruneResolvingAgrees(m, ys);
      PruneExactIgnoresOrder(m, ys, ListSeq(m));
      PruneExactLeavesNoDone(m);
    }
  }

  // Names of the prune counterexample.
  const B: string := "b"
  const Q: string := "xa"
  const QB: string := Q + "/" + B
  const PB: string := A + "/" + B

  /** `a` and `a/b` done, `xa/b` todo (with `xa` a bare directory). */
  const DoneNode: Node := Node(Some("done"), Some(""), false, 0)
  const TodoNode: Node := Node(Some("todo"), Some(""), false, 0)

  function PruneStore(): Nodes {
    map["" := EmptyDir(0), A := DoneNode, PB := DoneNode, Q := EmptyDir(0), QB := TodoNode]
  }

  /** The listing of `PruneStore`, in walk order. */
  function PruneListing(): seq<Yak> {
    [Yak(A, Done, "", 0), Yak(PB, Done, "", 0), Yak(QB, Todo, "", 0)]
  }


  /** Pruning as written removes the todo yak `xa/b`: once `a` is gone with
      `a/b`, the name `a/b` resolves to `xa/b`, the only listed name
      containing it. Pruning by exact path keeps `xa/b`. */
  lemma PruneResolvingRemovesTodo()
    ensures Listed(PruneStore()) == {A, PB, QB}
    ensures PruneListing() == [Load(PruneStore(), A), Load(PruneStore(), PB), Load(PruneStore(), QB)]
    ensures Yak(QB, Todo, "", 0) in PruneListing()
    ensures QB !in PruneResolving(PruneStore(), PruneListing()).store
    ensures QB in PruneExact(PruneStore(), PruneListing())
  {
    PruneStates();
    PrunePaths();
    var ys := PruneListing();
    PruneFirstStep();
    PruneSecondStep();
    assert PruneResolving(PruneStore(), ys) == PruneResolving(RemoveSubtree(PruneStore(), A), ys[1..]);
  }

  /** Removing `a` leaves `xa/b` as the only listed yak. */
  lemma PruneFirstStep()
    ensures Remove(PruneStore(), A) == Ok(RemoveSubtree(PruneStore(), A))
    ensures Listed(RemoveSubtree(PruneStore(), A)) == {QB}
  {
    PruneFirstRemove();
    PruneFirstListed();
  }

  lemma PruneFirstRemove()
    ensures Remove(PruneStore(), A) == Ok(RemoveSubtree(PruneStore(), A))
  {
    var m := PruneStore();
    PruneListedFacts();
    assert Get(m, A).Ok? && Get(m, A).value.name == A;
    var m2 := Remove(m, A).value;
    var m1 := RemoveSubtree(m, A);
    assert forall k :: k in m2 <==> k in m1;
    assert m2 == m1;
  }

  lemma PruneFirstListed()
    ensures Listed(RemoveSubtree(PruneStore(), A)) == {QB}
  {
    var m := PruneStore();
    var m1 := RemoveSubtree(m, A);
    PruneFirstKeys();
    PruneNodes();
    assert m1[""] == m[""] && m1[Q] == m[Q] && m1[QB] == m[QB];
    assert m1[""].stateFile.None? && m1[Q].stateFile.None? && m1[QB].stateFile.Some?;
  }

  /** Removing `a` keeps the base, `xa` and `xa/b`. */
  lemma PruneFirstKeys()
    ensures RemoveSubtree(PruneStore(), A).Keys == {"", Q, QB}
  {
    PrunePaths();
    var m := PruneStore();
    assert m.Keys == {"", A, PB, Q, QB};
    assert !InSubtree("", A);
    assert !InSubtree(Q, A) by {
      assert Q[0] != (A + "/")[0];
    }
  }

  /** Then `a/b` resolves to `xa/b`, which is removed. */
  lemma PruneSecondStep()
    ensures var m1 := RemoveSubtree(PruneStore(), A);
      QB !in PruneResolving(m1, PruneListing()[1..]).store
  {
    var m1 := RemoveSubtree(PruneStore(), A);
    var ys := PruneListing();
    PruneFirstStep();
    PruneResolveB();
    assert Get(m1, PB) == Ok(Load(m1, QB));
    assert Remove(m1, PB) == Ok(RemoveSubtree(m1, QB));
    assert ys[1..][1..] == [ys[2]];
  }

  lemma PruneListedFacts()
    ensures Listed(PruneStore()) == {A, PB, QB}
  {
    var m := PruneStore();
    assert m.Keys == {"", A, PB, Q, QB};
    assert m[""].stateFile.None? && m[Q].stateFile.None?;
  }

  /** `PruneListing` is what `List` reads from `PruneStore`. */
  lemma PruneStates()
    ensures Listed(PruneStore()) == {A, PB, QB}
    ensures PruneListing() == [Load(PruneStore(), A), Load(PruneStore(), PB), Load(PruneStore(), QB)]
  {
    PruneListedFacts();
    PruneNodes();
    NodeStates();
    var m := PruneStore();
    LoadNode(m, A, DoneNode);
    LoadNode(m, PB, DoneNode);
    LoadNode(m, QB, TodoNode);
  }

  lemma LoadNode(m: Nodes, k: string, n: Node)
    requires k in m && m[k] == n && n.stateFile.Some? && n.context == Some("") && n.mtime == 0
    ensures Load(m, k) == Yak(k, Parse(n.stateFile.value), "", 0)
  {
  }

  lemma PruneNodes()
    ensures PruneStore()[A] == DoneNode && PruneStore()[PB] == DoneNode && PruneStore()[QB] == TodoNode
    ensures PruneStore()[""] == EmptyDir(0) && PruneStore()[Q] == EmptyDir(0)
  {
    assert |A| == 1 && |PB| == 3 && |Q| == 2 && |QB| == 4;
  }

  lemma NodeStates()
    ensures Parse(DoneNode.stateFile.value) == Done && Parse(TodoNode.stateFile.value) == Todo
  {
    ParseAsStr(Done);
    ParseAsStr(Todo);
  }

  lemma PrunePaths()
    ensures InSubtree(PB, A) && !InSubtree(QB, A) && !InSubtree(QB, PB)
  {
    assert QB[0] != (A + "/")[0];
    assert QB[0] != (PB + "/")[0];
  }

  lemma PruneResolveB()
    ensures Resolve(PB, {QB}) == Ok(QB)
  {
    assert QB[1..4] == PB;
    assert OccursAt(QB, PB, 1);
    assert MatchSet(PB, {QB}) == {QB};
  }

  /** A completed parent and child: `a` and `a/b`, both done. */
  function NestedStore(): Nodes {
    map["" := EmptyDir(0), A := DoneNode, PB := DoneNode]
  }

  /** Pruning a completed parent and child: removing `a` takes `a/b` with
      it, so the removal of `a/b` that follows finds nothing and is printed
      as a failure, although the command exits 0 and the exact prune
      reaches the same store without one. */
  lemma PruneNestedReportsChild()
    ensures var r := CmdPrune(NestedStore(), Env(0, false, [], false, None, false, [A, PB]));
      && r.code == 0
      && r.store == map["" := EmptyDir(0)]
      && r.diags == [RemoveError(PB, Lookup(NotFound(PB)))]
    ensures PruneExact(NestedStore(), [Yak(A, Done, "", 0), Yak(PB, Done, "", 0)]) == map["" := EmptyDir(0)]
  {
    NestedWalk();
    NestedResolving();
    NestedExact();
  }

  lemma NestedWalk()
    ensures WalkList(NestedStore(), [A, PB]) == [Yak(A, Done, "", 0), Yak(PB, Done, "", 0)]
  {
    var m := NestedStore();
    NestedFacts();
    assert [A, PB][1..] == [PB];
    assert WalkList(m, [PB]) == [Load(m, PB)];
  }

  lemma NestedResolving()
    ensures PruneResolving(NestedStore(), [Yak(A, Done, "", 0), Yak(PB, Done, "", 0)])
      == Pruned(map["" := EmptyDir(0)], [RemoveError(PB, Lookup(NotFound(PB)))])
  {
    var m := NestedStore();
    var ys := [Yak(A, Done, "", 0), Yak(PB, Done, "", 0)];
    NestedFacts();
    var m1: Nodes := map["" := EmptyDir(0)];
    assert Get(m, A).value.name == A;
    assert Remove(m, A) == Ok(m1);
    assert Listed(m1) == {};
    assert ys[1..] == [Yak(PB, Done, "", 0)];
    assert Remove(m1, PB) == Err(Lookup(NotFound(PB)));
    assert ys[1..][1..] == [];
    assert PruneResolving(m1, ys[1..]) == Pruned(m1, [RemoveError(PB, Lookup(NotFound(PB)))] + []);
    assert PruneResolving(m, ys) == PruneResolving(m1, ys[1..]);
  }

  lemma NestedExact()
    ensures PruneExact(NestedStore(), [Yak(A, Done, "", 0), Yak(PB, Done, "", 0)]) == map["" := EmptyDir(0)]
  {
    var ys := [Yak(A, Done, "", 0), Yak(PB, Done, "", 0)];
    var m1: Nodes := map["" := EmptyDir(0)];
    NestedFacts();
    assert ys[1..] == [Yak(PB, Done, "", 0)];
    assert RemoveSubtree(m1, PB) == m1;
  }

  lemma NestedFacts()
    ensures var m := NestedStore();
      && m.Keys == {"", A, PB} && Listed(m) == {A, PB}
      && Load(m, A) == Yak(A, Done, "", 0) && Load(m, PB) == Yak(PB, Done, "", 0)
      && RemoveSubtree(m, A) == map["" := EmptyDir(0)]
  {
    var m := NestedStore();
    NestedNodes();
    NodeStates();
    LoadNode(m, A, DoneNode);
    LoadNode(m, PB, DoneNode);
    NestedRemoveTop();
  }

  lemma NestedNodes()
    ensures var m := NestedStore();
      && m.Keys == {"", A, PB} && Listed(m) == {A, PB}
      && m[""] == EmptyDir(0) && m[A] == DoneNode && m[PB] == DoneNode
  {
    assert |A| == 1 && |PB| == 3;
  }

  lemma NestedRemoveTop()
    ensures RemoveSubtree(NestedStore(), A) == map["" := EmptyDir(0)]
  {
    var m := NestedStore();
    NestedNodes();
    PrunePaths();
    assert !InSubtree("", A);
    var v := RemoveSubtree(m, A);
    assert v.Keys == {""};
  }

  /** `cmdMove`: the first word is the old name, the rest the new one. */
  function CmdMove(m: Nodes, args: seq<string>, env: Env): (r: CliRun)
    ensures |args| < 2 ==> r == Refused(m, Usage(NamesRequired))
    ensures r.code == 0 <==> |args| >= 2 && Move(m, args[0], Words(args[1..]), env.now).err.None?
    ensures r.code == 0 ==> r.logged == ["move " + Get(m, args[0]).value.name + " " + Words(args[1..])]
    ensures r.code == 1 ==> r.logged == []
    ensures r.code == 0 || r.code == 1
  {
    if |args| < 2 then Refused(m, Usage(NamesRequired))
    else
      var from := args[0];
      var to := Words(args[1..]);
      match Get(m, from)
      case Err(e) => Refused(m, Failed(e))
      case Ok(y) =>
        var o := Move(m, from, to, env.now);
        if o.err.Some? then CliRun(1, o.store, [], [], [Failed(o.err.value)])
        else Logged(o.store, "move " + y.name + " " + to, env)
  }

  // ---------------------------------------------------------------------
  // context, sync, completions
  // ---------------------------------------------------------------------

  /** `cmdContext`. */
  function CmdContext(m: Nodes, args: seq<string>, env: Env): (r: CliRun)
    ensures |args| == 0 ==> r == Refused(m, Usage(NameRequired))
    ensures |args| > 0 && args[0] == "--show" ==> r.store == m && r.logged == []
    ensures |args| > 1 && args[0] == "--show" && Get(m, Words(args[1..])).Ok? ==>
      var y := Get(m, Words(args[1..])).value;
      r.code == 0 && r.out == [Line(ContextView(y.name, y.context))]
    ensures r.code == 1 ==> r.store == m && r.logged == []
    ensures r.code == 0 || r.code == 1
  {
    if |args| == 0 then Refused(m, Usage(NameRequired))
    else if args[0] == "--show" then
      if |args| < 2 then Refused(m, Usage(NameRequired))
      else
        match Get(m, Words(args[1..]))
        case Err(e) => Refused(m, Failed(e))
        case Ok(y) => CliRun(0, m, [], [Line(ContextView(y.name, y.context))], [])
    else
      var start := if args[0] == "--edit" then 1 else 0;
      if start >= |args| then Refused(m, Usage(NameRequired))
      else
        var name := Words(args[start..]);
        if env.terminal then EditContext(m, name, env)
        else PipeContext(m, name, env)
  }

  /** Editor mode: the resolved yak's context goes through the editor. */
  function EditContext(m: Nodes, term: string, env: Env): (r: CliRun)
    ensures r.code == 0 <==> Get(m, term).Ok? && env.edited.Some?
    ensures r.code == 1 ==> r.store == m && r.logged == []
    ensures r.code == 0 ==> r.store == SetContext(m, term, env.edited.value).value
  {
    match Get(m, term)
    case Err(e) => Refused(m, Failed(e))
    case Ok(y) =>
      match env.edited
      case None => Refused(m, EditorFailed)
      case Some(content) =>
        match SetContext(m, term, content)
        case Err(e) => Refused(m, Failed(e))
        case Ok(m2) => Logged(m2, "context " + y.name, env)
  }

  /** Pipe mode: the lines of standard input, joined with newlines, become
      the context, which `Get` then reads back. */
  function PipeContext(m: Nodes, term: string, env: Env): (r: CliRun)
    ensures r.code == 0 <==> Get(m, term).Ok?
    ensures r.code == 1 ==> r.store == m && r.logged == []
    ensures r.code == 0 ==> var n := Get(m, term).value.name;
      && Get(r.store, n) == Ok(Load(m, n).(context := Join(env.stdin, "\n")))
      && r.logged == ["context " + n]
  {
    var content := Join(env.stdin, "\n");
    match SetContext(m, term, content)
    case Err(e) => Refused(m, Failed(e))
    case Ok(m2) =>
      SetContextThenGet(m, term, content);
      LogResolved(m2, Get(m, term).value.name, "context ", env)
  }

  /** `cmdSync`: the exit code reports the sync's outcome. */
  function CmdSync(m: Nodes, env: Env): (r: CliRun)
    ensures r.code == 0 <==> !env.syncFails
    ensures r.store == m && r.logged == []
  {
    if env.syncFails then Refused(m, SyncFailed) else CliRun(0, m, [], [], [])
  }

  /** The yaks `completions` offers: for `done`, the ones not done, or the
      done ones after `--undo`; for anything else, all of them. */
  predicate Offered(cmd: string, flag: string, s: YakState) {
    if cmd == "done" then (if flag == "--undo" then s == Done else s != Done)
    else true
  }

  /** The names `completions` offers. */
  function OfferedNames(m: Nodes, cmd: string, flag: string): (ns: set<string>)
    ensures forall n :: n in ns <==> n in Listed(m) && Offered(cmd, flag, Load(m, n).state)
  {
    set n | n in Listed(m) && Offered(cmd, flag, Load(m, n).state)
  }

  function LinesOf(names: seq<string>): (out: seq<Out>)
    ensures forall n :: Line(n) in out <==> n in names
    ensures forall o :: o in out ==> o.Line?
  {
    if |names| == 0 then [] else [Line(names[0])] + LinesOf(names[1..])
  }

  /** `cmdCompletions`: one line per offered yak name. */
  function CmdCompletions(m: Nodes, args: seq<string>): (r: CliRun)
    ensures r.code == 0 && r.store == m && r.logged == [] && r.diags == []
    ensures forall n :: Line(n) in r.out <==>
      n in Listed(m) && Offered(if |args| > 0 then args[0] else "", if |args| > 1 then args[1] else "", Load(m, n).state)
    ensures forall o :: o in r.out ==> o.Line?
  {
    var cmd := if |args| > 0 then args[0] else "";
    var flag := if |args| > 1 then args[1] else "";
    CliRun(0, m, [], LinesOf(SortStrings(OfferedNames(m, cmd, flag))), [])
  }

  /** `done` completions and `done --undo` completions split the listed
      yaks between them. */
  lemma CompletionsPartition(m: Nodes, n: string)
    requires n in Listed(m)
    ensures (Line(n) in CmdCompletions(m, ["done"]).out) != (Line(n) in CmdCompletions(m, ["done", "--undo"]).out)
  {
  }

  // ---------------------------------------------------------------------
  // Dispatch
  // ---------------------------------------------------------------------

  predicate IsCommand(c: string) {
    c in {"add", "list", "ls", "done", "rm", "prune", "move", "mv", "context", "sync", "completions"}
  }

  /** `Run`: no arguments, `--help` and an unknown command all print the
      help and exit 0 without touching the store. The reading commands
      never write or log, and a failing command logs nothing, except that
      interactive `add` keeps the messages of the lines it added before the
      failing one. */
  function Run(m: Nodes, args: seq<string>, env: Env): (r: CliRun)
    ensures r.code == 0 || r.code == 1
    ensures |args| == 0 || args[0] == "--help" || !IsCommand(args[0]) ==> r == CliRun(0, m, [], [Help], [])
    ensures |args| > 0 && args[0] in {"list", "ls", "completions", "sync"} ==> r.store == m && r.logged == []
    ensures |args| > 0 && !(args[0] == "add" && |args| == 1) && r.code == 1 ==> r.logged == []
  {
    if |args| == 0 || args[0] == "--help" then CliRun(0, m, [], [Help], [])
    else
      var c := args[0];
      var rest := args[1..];
      if c == "add" then CmdAdd(m, rest, env)
      else if c == "list" || c == "ls" then CmdList(m, rest)
      else if c == "done" then CmdDone(m, rest, env)
      else if c == "rm" then CmdRemove(m, rest, env)
      else if c == "prune" then CmdPrune(m, env)
      else if c == "move" || c == "mv" then CmdMove(m, rest, env)
      else if c == "context" then CmdContext(m, rest, env)
      else if c == "sync" then CmdSync(m, env)
      else if c == "completions" then CmdCompletions(m, rest)
      else CliRun(0, m, [], [Help], [])
  }
}
