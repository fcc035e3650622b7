/** The Rust prototype's listing (adapters/terminal.rs): sort with a
    comparator that orders siblings done-first then oldest-first and
    everything else by name, keep the yaks the filter passes, and print one
    line per yak, indented by its depth. There is no tree walk: a yak whose
    parent was filtered out is still printed. */
module RustTerminal {
  import opened Types
  import opened Strings
  import opened YakStates
  import opened Yaks
  import opened Display

  /** `std::cmp::Ordering`. */
  datatype Order = LT | EQ | GT

  function Flip(o: Order): Order {
    match o
    case LT => GT
    case EQ => EQ
    case GT => LT
  }

  /** `String::cmp`: byte-wise order. */
  function CompareNames(a: string, b: string): (o: Order)
    ensures o == EQ <==> a == b
    ensures o == LT <==> Less(a, b)
  {
    if a == b then
      LessIrreflexive(a);
      EQ
    else if Less(a, b) then LT
    else
      LessTotal(a, b);
      GT
  }

  /** `SystemTime::cmp`. */
  function CompareTimes(a: int, b: int): (o: Order)
    ensures o == LT <==> a < b
    ensures o == EQ <==> a == b
  {
    if a < b then LT else if a == b then EQ else GT
  }

  /** The parent the comparator uses: "." for a top-level yak. */
  function ParentOrDot(name: string): (p: string)
    ensures '/' !in name ==> p == "."
    ensures '/' in name ==> Parent(name) == Some(p)
  {
    match Parent(name)
    case None => "."
    case Some(q) => q
  }

  /** The closure given to `sort_by`. */
  function Compare(a: Yak, b: Yak): Order {
    if ParentOrDot(a.name) != ParentOrDot(b.name) then CompareNames(a.name, b.name)
    else
      match (a.state, b.state)
      case (Done, Todo) => LT
      case (Todo, Done) => GT
      case _ => CompareTimes(a.mtime, b.mtime)
  }

  /** The comparator is antisymmetric: swapping the arguments flips the
      answer. */
  lemma CompareFlips(a: Yak, b: Yak)
    ensures Compare(b, a) == Flip(Compare(a, b))
  {
    if ParentOrDot(a.name) != ParentOrDot(b.name) && a.name != b.name && !Less(a.name, b.name) {
      LessTotal(a.name, b.name);
      LessAsymmetric(b.name, a.name);
    } else if ParentOrDot(a.name) != ParentOrDot(b.name) && Less(a.name, b.name) {
      LessAsymmetric(a.name, b.name);
    }
  }

  /** `a` may stay in front of `b`. */
  predicate Le(a: Yak, b: Yak) {
    Compare(b, a) != LT
  }

  /** Among siblings the comparator is a total preorder: done before todo,
      then older before newer. */
  lemma SiblingOrder(a: Yak, b: Yak, c: Yak)
    requires ParentOrDot(a.name) == ParentOrDot(b.name) == ParentOrDot(c.name)
    ensures Le(a, b) || Le(b, a)
    ensures Le(a, b) && Le(b, c) ==> Le(a, c)
    ensures Le(a, b) <==>
      (a.state == Done && b.state == Todo) || (a.state == b.state && a.mtime <= b.mtime)
  {
  }

  // ---------------------------------------------------------------------
  // The comparator is not an order
  // ---------------------------------------------------------------------

  const DoneSibling := Yak("a/y", Done, "", 5)
  const TodoSibling := Yak("a/b", Todo, "", 1)
  const Nephew := Yak("a/c/d", Todo, "", 1)

  lemma CycleFacts()
    ensures ParentOrDot(DoneSibling.name) == "a" && ParentOrDot(TodoSibling.name) == "a"
    ensures ParentOrDot(Nephew.name) == "a/c"
    ensures Less(TodoSibling.name, Nephew.name) && Less(Nephew.name, DoneSibling.name)
  {
    LastSlashAt(DoneSibling.name, 1);
    LastSlashAt(TodoSibling.name, 1);
    LastSlashAt(Nephew.name, 3);
  }

  /** Two siblings and a yak one level further down compare in a cycle, so
      `sort_by` gets no total order to sort by: a done sibling sorts before
      a todo sibling by state, the todo sibling before the nephew by name,
      and the nephew before the done sibling by name. */
  lemma CompareCycle()
    ensures Compare(DoneSibling, TodoSibling) == LT
    ensures Compare(TodoSibling, Nephew) == LT
    ensures Compare(Nephew, DoneSibling) == LT
  {
    CycleFacts();
  }

  // ---------------------------------------------------------------------
  // Sorting
  // ---------------------------------------------------------------------

  /** Neighbours are in order: no yak compares less than the one before it. */
  predicate Adjacent(s: seq<Yak>) {
    forall i :: 0 < i < |s| ==> Le(s[i - 1], s[i])
  }

  /** One step of a stable insertion sort: `x` moves left past every yak
      it compares less than. */
  function InsertRight(s: seq<Yak>, x: Yak): (r: seq<Yak>)
    ensures multiset(r) == multiset(s) + multiset{x}
    ensures |r| == |s| + 1
  {
    if |s| == 0 then [x]
    else
      var last := s[|s| - 1];
      assert s == s[..|s| - 1] + [last];
      if Compare(x, last) == LT then InsertRight(s[..|s| - 1], x) + [last]
      else s + [x]
  }

  /** Inserting into a list whose neighbours are in order keeps them in
      order, because the comparator is antisymmetric. The last yak is the
      inserted one or the old last one. */
  lemma {:induction false} InsertRightAdjacent(s: seq<Yak>, x: Yak)
    requires Adjacent(s)
    ensures Adjacent(InsertRight(s, x))
    ensures |s| > 0 ==> InsertRight(s, x)[|s|] in {x, s[|s| - 1]}
  {
    if |s| == 0 {
      assert InsertRight(s, x) == [x];
    } else {
      var last := s[|s| - 1];
      var init := s[..|s| - 1];
      if Compare(x, last) == LT {
        assert Adjacent(init) by { AdjacentPrefix(s, |s| - 1); }
        InsertRightAdjacent(init, x);
        var t := InsertRight(init, x);
        assert InsertRight(s, x) == t + [last];
        CompareFlips(x, last);
        if |init| > 0 {
          assert Le(init[|init| - 1], last);
          assert t[|init|] in {x, init[|init| - 1]};
        } else {
          assert t == [x];
        }
        AppendAdjacent(t, last);
      } else {
        assert InsertRight(s, x) == s + [x];
        AppendAdjacent(s, x);
      }
    }
  }

  /** A prefix of a list whose neighbours are in order has them in order. */
  lemma AdjacentPrefix(s: seq<Yak>, n: nat)
    requires Adjacent(s) && n <= |s|
    ensures Adjacent(s[..n])
  {
    forall i | 0 < i < n ensures Le(s[..n][i - 1], s[..n][i]) {
      assert s[..n][i - 1] == s[i - 1] && s[..n][i] == s[i];
    }
  }

  /** Appending a yak that the last one is in order with keeps neighbours
      in order. */
  lemma AppendAdjacent(t: seq<Yak>, y: Yak)
    requires Adjacent(t)
    requires |t| > 0 ==> Le(t[|t| - 1], y)
    ensures Adjacent(t + [y])
  {
    var r := t + [y];
    forall i | 0 < i < |r| ensures Le(r[i - 1], r[i]) {
      var a, b := r[i - 1], r[i];
      if i < |t| {
        assert a == t[i - 1] && b == t[i];
        assert Le(t[i - 1], t[i]);
      } else {
        assert a == t[|t| - 1] && b == y;
      }
    }
  }

  /** `sort_by` on the short lists a yak store holds: a stable insertion
      sort that inserts each yak, left to right, into the sorted prefix. */
  function SortBy(s: seq<Yak>): (r: seq<Yak>)
    ensures multiset(r) == multiset(s)
  {
    if |s| == 0 then []
    else
      assert s == s[..|s| - 1] + [s[|s| - 1]];
      InsertRight(SortBy(s[..|s| - 1]), s[|s| - 1])
  }

  /** Every neighbouring pair of the sorted list is in order. */
  lemma {:induction false} SortByAdjacent(s: seq<Yak>)
    ensures Adjacent(SortBy(s))
  {
    if |s| > 0 {
      SortByAdjacent(s[..|s| - 1]);
      InsertRightAdjacent(SortBy(s[..|s| - 1]), s[|s| - 1]);
    }
  }

  /** Yaks that all share one parent come out fully sorted. */
  lemma {:induction false} SiblingsSorted(r: seq<Yak>, p: string)
    requires Adjacent(r)
    requires forall i :: 0 <= i < |r| ==> ParentOrDot(r[i].name) == p
    ensures forall i, j :: 0 <= i < j < |r| ==> Le(r[i], r[j])
  {
    if |r| > 1 {
      var init := r[..|r| - 1];
      SiblingsSorted(init, p);
      forall i, j | 0 <= i < j < |r| ensures Le(r[i], r[j]) {
        if j == |r| - 1 && i < j - 1 {
          assert Le(init[i], init[j - 1]);
          SiblingOrder(r[i], r[j - 1], r[j]);
        } else if j < |r| - 1 {
          assert Le(init[i], init[j]);
        }
      }
    }
  }

  /** When every yak has the same parent the sort is a true sort: done
      yaks first, each group oldest first. */
  lemma SortSiblings(s: seq<Yak>, p: string)
    requires forall y :: y in s ==> ParentOrDot(y.name) == p
    ensures var r := SortBy(s); forall i, j :: 0 <= i < j < |r| ==> Le(r[i], r[j])
  {
    var r := SortBy(s);
    SortByAdjacent(s);
    forall i | 0 <= i < |r| ensures ParentOrDot(r[i].name) == p {
      assert r[i] in multiset(r);
    }
    SiblingsSorted(r, p);
  }

  /** The listing depends on the order the yaks were read in: two orders of
      the same three yaks sort differently. */
  lemma SortDependsOnInputOrder()
    ensures SortBy([DoneSibling, TodoSibling, Nephew]) == [DoneSibling, TodoSibling, Nephew]
    ensures SortBy([Nephew, DoneSibling, TodoSibling]) == [Nephew, DoneSibling, TodoSibling]
  {
    CompareCycle();
    CompareFlips(DoneSibling, TodoSibling);
    CompareFlips(TodoSibling, Nephew);
    CompareFlips(Nephew, DoneSibling);
    SortThree(DoneSibling, TodoSibling, Nephew);
    SortThree(Nephew, DoneSibling, TodoSibling);
  }

  /** Three yaks each of which may stay behind the one before it are
      left where they are. */
  lemma SortThree(a: Yak, b: Yak, c: Yak)
    requires Compare(b, a) != LT && Compare(c, b) != LT
    ensures SortBy([a, b, c]) == [a, b, c]
  {
    assert [a, b, c][..2] == [a, b];
    assert [a, b][..1] == [a];
    assert [a][..0] == [];
    assert SortBy([a]) == [a];
    assert InsertRight([a], b) == [a, b] by {
      assert [a] + [b] == [a, b];
    }
    assert SortBy([a, b]) == [a, b];
    assert InsertRight([a, b], c) == [a, b, c] by {
      assert [a, b] + [c] == [a, b, c];
    }
  }

  // ---------------------------------------------------------------------
  // Formatting
  // ---------------------------------------------------------------------

  /** `format_markdown_yak` / `format_plain_yak`. */
  function FormatYak(y: Yak, f: Format): (line: string)
    ensures f == Plain ==> line == y.name
    ensures f == Markdown ==> ParseMarkdownLine(line) == Some((Depth(y.name), y.state, Basename(y.name)))
  {
    ParseMarkdownLineOf(Depth(y.name), y.state, Basename(y.name));
    match f
    case Plain => y.name
    case Markdown => MarkdownLine(Depth(y.name), y.state, Basename(y.name))
  }

  /** One line per yak, in order. */
  function Lines(ys: seq<Yak>, f: Format): (ls: seq<string>)
    ensures |ls| == |ys|
    ensures forall i :: 0 <= i < |ys| ==> ls[i] == FormatYak(ys[i], f)
  {
    seq(|ys|, i requires 0 <= i < |ys| => FormatYak(ys[i], f))
  }

  /** The yaks listed: sorted, then filtered. */
  function Listed(yaks: seq<Yak>, filter: Filter): (r: seq<Yak>)
    ensures multiset(r) == multiset(FilterYaks(yaks, filter))
  {
    var sorted := SortBy(yaks);
    FilterPermutation(sorted, yaks, filter);
    FilterYaks(sorted, filter)
  }

  /** `format_yak_list`. */
  function FormatYakList(yaks: seq<Yak>, f: Format, filter: Filter): (out: string)
    ensures |yaks| == 0 ==> out == EmptyListing(f)
  {
    if |yaks| == 0 then EmptyListing(f)
    else Join(Lines(Listed(yaks, filter), f), "\n")
  }

  /** A non-empty store lists exactly the yaks that pass the filter, each
      once, and never the "no yaks" message, even when nothing passes. */
  lemma FormatYakListContents(yaks: seq<Yak>, f: Format, filter: Filter)
    requires |yaks| > 0
    ensures var ys := Listed(yaks, filter);
      && FormatYakList(yaks, f, filter) == Join(Lines(ys, f), "\n")
      && multiset(ys) == multiset(FilterYaks(yaks, filter))
      && (forall y :: y in ys <==> y in yaks && ShouldDisplay(y.state, filter))
      && (FilterYaks(yaks, filter) == [] ==> FormatYakList(yaks, f, filter) == "")
  {
    var ys := Listed(yaks, filter);
    forall y ensures y in ys <==> y in yaks && ShouldDisplay(y.state, filter) {
      assert y in ys <==> y in multiset(ys);
      assert y in FilterYaks(yaks, filter) <==> y in multiset(FilterYaks(yaks, filter));
    }
    if FilterYaks(yaks, filter) == [] {
      assert |ys| == |multiset(ys)|;
    }
  }

  /** `format_yak_with_context` is the shared context view. */
  lemma ContextViewShowsContext(y: Yak)
    ensures IsPrefix(y.name, ContextView(y.name, y.context))
    ensures ContextOfView(ContextView(y.name, y.context), y.name) == Some(y.context)
  {
    ContextViewRoundTrip(y.name, y.context);
  }
}
