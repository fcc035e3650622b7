/** The two states of a yak and their on-disk spelling (the `state` file of a
    yak directory holds `todo` or `done`). */
module YakStates {
  import opened Strings

  datatype YakState = Todo | Done

  /** `YakState::as_str`: the literal written to a `state` file. */
  function AsStr(s: YakState): (r: string)
    ensures r == "todo" || r == "done"
    ensures r == "done" <==> s == Done
  {
    match s
    case Todo => "todo"
    case Done => "done"
  }

  /** `YakState::from_str`. Parsing is total (its error type is uninhabited):
      the trimmed text `done` means Done and anything else means Todo. */
  function Parse(text: string): (r: YakState)
    ensures r == Done <==> Trim(text) == "done"
  {
    if Trim(text) == "done" then Done else Todo
  }

  /** `impl Display for YakState` writes `as_str`. */
  function Display(s: YakState): string {
    AsStr(s)
  }

  lemma TrimWord(w: string)
    requires w == "todo" || w == "done"
    ensures Trim(w) == w
  {
    assert w == [] + w + [];
    TrimPadded([], w, []);
  }

  /** Writing a state and reading it back gives the same state. */
  lemma ParseAsStr(s: YakState)
    ensures Parse(AsStr(s)) == s
  {
    TrimWord(AsStr(s));
  }

  /** What `Display` prints parses back to the state it came from, and it is
      the same text `as_str` writes. */
  lemma ParseDisplay(s: YakState)
    ensures Parse(Display(s)) == s
    ensures Display(s) == AsStr(s)
  {
    ParseAsStr(s);
  }

  /** Whitespace around the word is ignored: a state file containing
      `" done\n"` reads as Done. */
  lemma ParsePaddedDone(pre: string, post: string)
    requires forall i :: 0 <= i < |pre| ==> IsSpace(pre[i])
    requires forall i :: 0 <= i < |post| ==> IsSpace(post[i])
    ensures Parse(pre + "done" + post) == Done
  {
    TrimPadded(pre, "done", post);
  }

  lemma ParseDoneWithNewline()
    ensures Parse(" done\n") == Done
  {
    assert " done\n" == " " + "done" + "\n";
    ParsePaddedDone(" ", "\n");
  }
}
