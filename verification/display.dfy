/** Text shared by the Go and Rust listings: the state filter, the output
    formats, the markdown line of one yak and the context view. Both
    prototypes write these byte for byte alike. */
module Display {
  import opened Types
  import opened Strings
  import opened YakStates
  import opened Yaks

  datatype Format = Markdown | Plain

  datatype Filter = All | NotDone | DoneOnly

  /** `shouldDisplay` / `should_display`. */
  predicate ShouldDisplay(s: YakState, f: Filter) {
    match f
    case All => true
    case NotDone => s != Done
    case DoneOnly => s == Done
  }

  /** The two state filters split the yaks between them. */
  lemma FiltersPartition(s: YakState)
    ensures ShouldDisplay(s, All)
    ensures ShouldDisplay(s, NotDone) != ShouldDisplay(s, DoneOnly)
  {
  }

  /** The yaks that pass the filter, in their original order. */
  function FilterYaks(ys: seq<Yak>, f: Filter): (r: seq<Yak>)
    ensures |r| <= |ys|
    ensures forall y :: y in r <==> y in ys && ShouldDisplay(y.state, f)
    ensures forall y :: multiset(r)[y] == if ShouldDisplay(y.state, f) then multiset(ys)[y] else 0
  {
    if |ys| == 0 then []
    else
      var h, t := ys[0], ys[1..];
      var rest := FilterYaks(t, f);
      assert multiset(ys) == multiset{h} + multiset(t) by { assert ys == [h] + t; }
      if ShouldDisplay(h.state, f) then
        assert multiset([h] + rest) == multiset{h} + multiset(rest);
        [h] + rest
      else rest
  }

  /** Filtering depends only on which yaks there are, not on their order:
      a permutation of the input filters to a permutation of the output. */
  lemma FilterPermutation(a: seq<Yak>, b: seq<Yak>, f: Filter)
    requires multiset(a) == multiset(b)
    ensures multiset(FilterYaks(a, f)) == multiset(FilterYaks(b, f))
  {
    assert forall y :: multiset(FilterYaks(a, f))[y] == multiset(FilterYaks(b, f))[y];
  }

  const NoYaksMessage: string := "You have no yaks. Are you done?"

  /** What an empty listing prints. */
  function EmptyListing(f: Format): (r: string)
    ensures r == "" <==> f == Plain
  {
    match f
    case Markdown => NoYaksMessage
    case Plain => ""
  }

  const Grey: string := "\U{1B}[90m"
  const Reset: string := "\U{1B}[0m"
  const DoneBox: string := "- [x] "
  const TodoBox: string := "- [ ] "

  /** Two spaces per level. */
  function Indent(depth: nat): (r: string)
    ensures |r| == 2 * depth
    ensures forall i :: 0 <= i < |r| ==> r[i] == ' '
  {
    if depth == 0 then "" else "  " + Indent(depth - 1)
  }

  /** One markdown line: indentation, a checkbox and the last segment of
      the name; a done line is wrapped in grey. */
  function MarkdownLine(depth: nat, s: YakState, base: string): (line: string)
    ensures |line| >= 2 * depth + |TodoBox| + |base|
  {
    if s == Done then Grey + Indent(depth) + DoneBox + base + Reset
    else Indent(depth) + TodoBox + base
  }

  /** Number of leading two-space indentation steps. */
  function CountIndent(line: string): (n: nat)
    ensures 2 * n <= |line|
  {
    if |line| >= 2 && line[0] == ' ' && line[1] == ' ' then 1 + CountIndent(line[2..]) else 0
  }

  /** Reads a markdown line back into depth, state and displayed name. */
  function ParseMarkdownLine(line: string): Option<(nat, YakState, string)> {
    if IsPrefix(Grey, line) && IsSuffixOf(Reset, line) && |line| >= |Grey| + |Reset| then
      var inner := line[|Grey|..|line| - |Reset|];
      var d := CountIndent(inner);
      var rest := inner[2 * d..];
      if IsPrefix(DoneBox, rest) then Some((d, Done, rest[|DoneBox|..])) else None
    else
      var d := CountIndent(line);
      var rest := line[2 * d..];
      if IsPrefix(TodoBox, rest) then Some((d, Todo, rest[|TodoBox|..])) else None
  }

  lemma {:induction false} CountIndentOf(depth: nat, rest: string)
    requires |rest| > 0 && rest[0] != ' '
    ensures CountIndent(Indent(depth) + rest) == depth
  {
    if depth > 0 {
      assert (Indent(depth) + rest)[2..] == Indent(depth - 1) + rest;
      CountIndentOf(depth - 1, rest);
    } else {
      assert Indent(depth) + rest == rest;
    }
  }

  /** A markdown line records its depth, state and name unambiguously. */
  lemma ParseMarkdownLineOf(depth: nat, s: YakState, base: string)
    ensures ParseMarkdownLine(MarkdownLine(depth, s, base)) == Some((depth, s, base))
  {
    var line := MarkdownLine(depth, s, base);
    if s == Done {
      var inner := Indent(depth) + DoneBox + base;
      assert line == Grey + inner + Reset;
      assert line[|Grey|..|line| - |Reset|] == inner;
      assert IsPrefix(Grey, line) && IsSuffixOf(Reset, line);
      assert inner == Indent(depth) + (DoneBox + base);
      CountIndentOf(depth, DoneBox + base);
      assert inner[2 * depth..] == DoneBox + base;
    } else {
      assert line == Indent(depth) + (TodoBox + base);
      CountIndentOf(depth, TodoBox + base);
      assert line[2 * depth..] == TodoBox + base;
      assert !IsPrefix(Grey, line) by {
        if depth > 0 { assert line[0] == ' '; } else { assert line[0] == '-'; }
      }
    }
  }

  /** `FormatYakWithContext` / `format_yak_with_context`: the name alone, or
      the name, a blank line and the context. */
  function ContextView(name: string, context: string): string {
    if context == "" then name else name + "\n\n" + context
  }

  /** Reads the context back out of a view, given the name it starts with. */
  function ContextOfView(view: string, name: string): Option<string> {
    if view == name then Some("")
    else if IsPrefix(name + "\n\n", view) then Some(view[|name| + 2..])
    else None
  }

  /** A view starts with the name and gives back the context it shows. */
  lemma ContextViewRoundTrip(name: string, context: string)
    ensures IsPrefix(name, ContextView(name, context))
    ensures ContextOfView(ContextView(name, context), name) == Some(context)
  {
    var v := ContextView(name, context);
    if context != "" {
      assert v == (name + "\n\n") + context;
      assert v[..|name|] == name;
      assert v[..|name| + 2] == name + "\n\n";
      assert v[|name| + 2..] == context;
    }
  }
}
