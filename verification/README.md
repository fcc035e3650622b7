# yaks: a Dafny model of the Go and Rust prototypes

yaks (`yx`) is a command-line task tracker. Tasks ("yaks") are
directories below `.yaks` in a git work tree. Each directory holds a
`state` file (`todo` or `done`) and a `context.md` file. A yak named
`a/b` is the directory `.yaks/a/b`, so nesting is part of the name.
Every command records what it did as an audit commit on the git ref
`refs/notes/yaks`, and `sync` exchanges that ref with the `origin`
remote.

This project models the two prototypes, one in Go and one in Rust, and
proves properties of each:

- **Store.** The yaks directory is a map from relative paths to
  directory contents (`TaskTree.Nodes`; the key `""` is `.yaks` itself).
  The Go repository adapter (`GoRepository`) and the Rust filesystem
  adapter (`RustStorage`) are pure functions over that map. Each
  operation has a contract that states what it writes and what it leaves
  alone.
- **Names.** `Yaks` and `YakStates` model the domain types. This covers
  name validation, the parent/basename/depth helpers and the state
  parser. It also covers fuzzy lookup: an exact name first, then a unique
  substring match.
- **Listing.** `Display`, `GoOutput` and `RustTerminal` model the sort
  orders, the filters and the markdown and plain formats. Listing as a
  tree is modelled too.
- **Commands.** `GoCli`, `GoMain`, `RustApp` and `RustMain` model the
  command layers with their exit codes, audit messages and error
  messages.
- **Sync.** `CommitGraph` models the git commit store: append-only, with
  ids that are positions and parents that come before their children.
  `GoSync` models the Go engine's decision table: overlay commit, local
  commit, adopt, keep, fast-forward or merge. `RustSync` models the Rust
  engine, which never consults ancestry.

The clock, standard input, the editor, the directory walk order, git's
answers and the outcome of writing the audit log are all parameters of
the functions that need them.

## Model

| member | source | states |
|---|---|---|
| Yaks.New | prototypes/rust/src/domain/yak.rs:14-21 | a new yak has the given name and clock reading, state todo and an empty context |
| Yaks.WithState | prototypes/rust/src/domain/yak.rs:24-28 | the builder replaces the state and keeps name, context and time |
| Yaks.WithContext | prototypes/rust/src/domain/yak.rs:30-34 | the builder replaces the context and keeps name, state and time |
| Yaks.WithMtime | prototypes/rust/src/domain/yak.rs:36-40 | the builder replaces the time and keeps name, state and context |
| Yaks.BuilderChain | prototypes/rust/src/domain/yak.rs:14-40 | the chain used when loading a yak yields exactly the values read, whatever `new` put there |
| Yaks.Basename | prototypes/rust/src/domain/yak.rs:42-45 | the basename is the '/'-free suffix that follows the last '/', or the whole name when there is none |
| Yaks.Parent | prototypes/rust/src/domain/yak.rs:52-55 | a name has a parent exactly when it contains '/', and then the name is parent + "/" + basename |
| Yaks.IsChildOfIffParent | prototypes/rust/src/domain/yak.rs:57-64 | for a real parent name, `is_child_of` holds exactly when that name is the yak's parent |
| Yaks.IsChildOfRoot | prototypes/rust/src/domain/yak.rs:57-64 | `is_child_of("")` and `is_child_of(".")` hold exactly for top-level names |
| Yaks.DepthOfChild | prototypes/rust/src/domain/yak.rs:47-50 | a child's depth is its parent's depth plus one |
| Yaks.ValidateYakName | prototypes/go/internal/domain/yak.go:26-34 | a name is accepted exactly when it has none of the characters \ : * ? \| < > "; a rejected name gets the fixed message |
| Yaks.ValidNameAppend | prototypes/go/internal/domain/yak.go:26-34 | validity is per character, so a concatenation is valid exactly when both parts are |
| Yaks.SlashAndSpaceAccepted | prototypes/go/internal/domain/yak.go:26-34 | nesting '/' and spaces pass validation, ':' does not |
| Yaks.FindYak | prototypes/go/internal/domain/yak.go:91-115 | an exact name wins; otherwise one substring match is the answer, none is "not found" and two or more are "ambiguous" |
| Yaks.Resolve | prototypes/go/internal/domain/yak.go:91-115 | the same resolution over a set of names; a fuzzy success is the only name containing the term |
| Yaks.FindYakIsResolve | prototypes/go/internal/domain/yak.go:91-115 | over distinct names, lookup depends only on the set of names, never on listing order |
| YakStates.AsStr | prototypes/rust/src/domain/state.rs:21-29 | a state is written as "todo" or "done", and "done" exactly for Done |
| YakStates.Parse | prototypes/rust/src/domain/state.rs:10-19 | parsing is total: the text means Done exactly when it trims to "done" |
| YakStates.ParseAsStr | prototypes/rust/src/domain/state.rs:10-29 | writing a state and parsing it back gives the same state |
| YakStates.ParseDisplay | prototypes/rust/src/domain/state.rs:31-35 | the displayed text is the written text and parses back to the state |
| YakStates.ParsePaddedDone | prototypes/rust/src/domain/state.rs:10-19 | whitespace around "done" in a state file is ignored |
| TaskTree.EnsureParents | prototypes/go/internal/adapters/filesystem/repository.go:202-234 | every missing proper prefix of the name becomes a todo yak with empty context; existing directories are untouched |
| TaskTree.AddKeepsValid | prototypes/go/internal/adapters/filesystem/repository.go:26-47 | creating the base, the ancestors and the yak keeps every directory's parent present |
| TaskTree.RemoveSubtree | prototypes/go/internal/adapters/filesystem/repository.go:169-177 | `rm -r` keeps exactly the keys outside the subtree, with their contents |
| TaskTree.RemoveKeepsValid | prototypes/go/internal/adapters/filesystem/repository.go:169-177 | deleting a subtree keeps every remaining directory's parent present |
| TaskTree.Rename | prototypes/go/internal/adapters/filesystem/repository.go:180-199 | a directory rename fails exactly when the target is inside the source or a non-empty existing directory; on success the subtree reappears under the new name with its contents, and everything else is unchanged |
| TaskTree.RenameKeepsValid | prototypes/go/internal/adapters/filesystem/repository.go:180-199 | with the target's parent created first, a rename keeps every directory's parent present |
| TaskTree.AncestorPlacement | prototypes/go/internal/adapters/filesystem/repository.go:202-234 | an ancestor created for the new name lies outside its subtree, and lies in the moved subtree only when the new name does |
| TaskTree.MoveWithParents | prototypes/go/internal/adapters/filesystem/repository.go:180-234 | after the new name's ancestors are created, the rename fails exactly when it is blocked, and otherwise moves the subtree, keeps every other key and adds the ancestors as fresh empty yaks |
| TaskTree.ScanChildren | prototypes/go/internal/adapters/filesystem/repository.go:237-268 | scanning the child directories in any order finds one with a property exactly when one exists |
| TreeWalk.WriteSubtree | prototypes/rust/src/adapters/filesystem.rs:113-135 | the recursive state writer writes the value into every directory of the subtree and nowhere else |
| GoRepository.Listed | prototypes/go/internal/adapters/filesystem/repository.go:50-94 | the listed names are exactly the directories below the base that hold a state file |
| GoRepository.Load | prototypes/go/internal/adapters/filesystem/repository.go:113-144 | a loaded yak is Done exactly when its trimmed state text is "done"; a missing context reads as "" |
| GoRepository.List | prototypes/go/internal/adapters/filesystem/repository.go:50-94 | the listing holds one loaded yak per listed name and nothing else |
| GoRepository.ListMissingBase | prototypes/go/internal/adapters/filesystem/repository.go:50-94 | without a yaks directory the listing is empty |
| GoRepository.Get | prototypes/go/internal/adapters/filesystem/repository.go:97-110 | `Get` fails exactly when the term is not a listed name and has no unique substring match; a success is the exact name or the only match |
| GoRepository.Add | prototypes/go/internal/adapters/filesystem/repository.go:26-47 | `Add` fails exactly on an invalid name; it creates the base, the missing ancestors and the yak, writes todo and "" into the yak, and changes nothing else |
| GoRepository.AddThenList | prototypes/go/internal/adapters/filesystem/repository.go:26-47 | after `Add` the listing gains exactly the new name, and `Get` finds it as a fresh todo |
| GoRepository.SetState | prototypes/go/internal/adapters/filesystem/repository.go:147-155 | only the resolved yak's state file changes; an unresolvable term is an error |
| GoRepository.SetStateThenGet | prototypes/go/internal/adapters/filesystem/repository.go:147-155 | the state written is the state `Get` then reads, and the listing is unchanged |
| GoRepository.SetContext | prototypes/go/internal/adapters/filesystem/repository.go:158-166 | only the resolved yak's context file changes |
| GoRepository.SetContextThenGet | prototypes/go/internal/adapters/filesystem/repository.go:158-166 | the context written is the context `Get` then reads, and the listing is unchanged |
| GoRepository.Remove | prototypes/go/internal/adapters/filesystem/repository.go:169-177 | the resolved yak's whole subtree is deleted and nothing else |
| GoRepository.RemoveThenList | prototypes/go/internal/adapters/filesystem/repository.go:169-177 | after removal the listing is the old one minus the yak and its descendants |
| GoRepository.Move | prototypes/go/internal/adapters/filesystem/repository.go:180-199 | an unresolved old name or an invalid new name changes nothing; otherwise the move fails exactly when the new name is inside the old subtree or an existing non-empty directory, keeping the created ancestors; a success moves the subtree, leaves every key outside both subtrees unchanged and adds the missing ancestors as fresh empty yaks |
| GoRepository.MoveKeepsValid | prototypes/go/internal/adapters/filesystem/repository.go:180-199 | a move, failed or not, keeps the store a prefix-closed tree |
| GoRepository.HasIncompleteChildren | prototypes/go/internal/adapters/filesystem/repository.go:237-268 | true exactly when a direct child has a state file that does not say done; grandchildren and state-less children do not count |
| GoRepository.ChildlessIsComplete | prototypes/go/internal/adapters/filesystem/repository.go:237-268 | a yak with no child directories never has incomplete children |
| GoRepository.MarkDoneRecursively | prototypes/go/internal/adapters/filesystem/repository.go:271-301 | the recursive completion as written writes "done" into exactly the names it visits and changes nothing else |
| GoRepository.MarkDoneRecursivelyStart | prototypes/go/internal/adapters/filesystem/repository.go:271-301 | an unresolved term changes nothing; otherwise the resolved yak is marked first |
| GoRepository.MarkDoneSubtree | prototypes/go/internal/adapters/filesystem/repository.go:271-301 | the corrected completion marks exactly the resolved yak and every directory below it done |
| GoRepository.MarkDoneSubtreeAllDone | prototypes/go/internal/adapters/filesystem/repository.go:271-301 | afterwards every directory of the subtree is a listed done yak, and every yak outside it loads as before |
| GoRepository.MarkDoneRecursivelyStrays | prototypes/go/internal/adapters/filesystem/repository.go:271-301 | on a concrete store, `done --recursive a` marks `xa/b`, which is outside `a`'s subtree; the corrected completion does not |
| GoMain.WorkTree | prototypes/go/cmd/yx/main.go:16-29 | the work tree is GIT_WORK_TREE when set and non-empty (relative values taken below the current directory), else the current directory |
| GoMain.YaksPath | prototypes/go/cmd/yx/main.go:31 | the yaks directory is `.yaks` directly inside the work tree |
| GoMain.YaksPathAbsolute | prototypes/go/cmd/yx/main.go:16-31 | an absolute current directory gives an absolute yaks path |
| GoMain.IsGitIgnored | prototypes/go/cmd/yx/main.go:76-85 | `.yaks` counts as ignored exactly when `.gitignore` is readable and contains ".yaks" anywhere |
| GoMain.NegatedEntryCountsAsIgnored | prototypes/go/cmd/yx/main.go:76-85 | a re-including line `!.yaks` also passes the check |
| GoMain.Startup | prototypes/go/cmd/yx/main.go:35-62 | `--help` and no arguments skip the checks; a command is refused exactly when `.git` is missing, or git is present and `.yaks` is not ignored, with the matching message |
| GoMain.MigrateOldDoneFiles | prototypes/go/cmd/yx/main.go:87-106 | every directory with a legacy `done` marker gets state "done" and loses the marker; nothing else changes, and nothing at all without a yaks directory |
| GoMain.MigrateOldDoneFilesEffect | prototypes/go/cmd/yx/main.go:87-106 | afterwards no marker is left, every marked yak is listed as done, and a second run changes nothing |
| GoMain.MigrateKeepsValid | prototypes/go/cmd/yx/main.go:87-106 | migration keeps the store a prefix-closed tree |
| Display.FiltersPartition | prototypes/go/internal/adapters/terminal/output.go:78-87 | `all` shows every yak, and `not-done` and `done` split the yaks between them |
| Display.FilterYaks | prototypes/go/internal/adapters/terminal/output.go:39-45 | filtering keeps exactly the yaks the filter shows, with their multiplicities |
| Display.FilterPermutation | prototypes/go/internal/adapters/terminal/output.go:39-45 | a permutation of the input filters to a permutation of the output |
| Display.EmptyListing | prototypes/go/internal/adapters/terminal/output.go:32-37 | an empty store prints nothing in plain format and a message in markdown |
| Display.ParseMarkdownLineOf | prototypes/go/internal/adapters/terminal/output.go:133-148 | a markdown line can be read back into its depth, state and name |
| Display.ContextViewRoundTrip | prototypes/go/internal/adapters/terminal/output.go:151-159 | the context view starts with the name and gives back the context it shows |
| GoOutput.Priority | prototypes/go/internal/adapters/terminal/output.go:94-102 | done yaks have the lowest priority and sort first |
| GoOutput.NotBeforeTransitive | prototypes/go/internal/adapters/terminal/output.go:89-118 | the comparator of the Go sort is a strict weak order |
| GoOutput.BeforeTotal | prototypes/go/internal/adapters/terminal/output.go:89-118 | yaks with different names are always ordered one way or the other |
| GoOutput.SortYaks | prototypes/go/internal/adapters/terminal/output.go:89-118 | the sort yields a sorted permutation of its input |
| GoOutput.SortIgnoresInputOrder | prototypes/go/internal/adapters/terminal/output.go:89-118 | any arrangement of the same uniquely named yaks sorts to the same sequence |
| GoOutput.GetChildren | prototypes/go/internal/adapters/terminal/output.go:120-131 | the children of a parent are exactly the yaks whose directory is that parent, "." standing for the top |
| GoOutput.DisplayDir | prototypes/go/internal/adapters/terminal/output.go:54-73 | the tree walk draws no name twice, nests in pre-order, and draws every child of every drawn yak |
| GoOutput.RenderFacts | prototypes/go/internal/adapters/terminal/output.go:54-73 | the drawing holds only listed yaks, each once, every top-level yak, and every yak below the top after its parent |
| GoOutput.FormatYak | prototypes/go/internal/adapters/terminal/output.go:133-148 | the plain line is the full name; the markdown line reads back as depth, state and basename |
| GoOutput.MarkdownLinesOnePerEntry | prototypes/go/internal/adapters/terminal/output.go:133-148 | in markdown each drawn yak gives exactly one line, which reads back as that entry |
| GoOutput.FormatYaks | prototypes/go/internal/adapters/terminal/output.go:31-76 | an empty store prints the empty-listing text of the format |
| GoOutput.FilteredOutIsBlank | prototypes/go/internal/adapters/terminal/output.go:31-76 | when the filter hides every yak the output is empty, not the "no yaks" message |
| RustTerminal.CompareFlips | prototypes/rust/src/adapters/terminal.rs:19-34 | swapping the comparator's arguments flips its answer |
| RustTerminal.SiblingOrder | prototypes/rust/src/adapters/terminal.rs:19-34 | among siblings the comparator is a total preorder: done before todo, then older first |
| RustTerminal.CompareCycle | prototypes/rust/src/adapters/terminal.rs:19-34 | two siblings and a nephew compare in a cycle, so the comparator is not transitive |
| RustTerminal.SortBy | prototypes/rust/src/adapters/terminal.rs:19-34 | the stable sort returns a permutation of its input |
| RustTerminal.SortByAdjacent | prototypes/rust/src/adapters/terminal.rs:19-34 | after sorting no yak compares less than its left neighbour |
| RustTerminal.SortSiblings | prototypes/rust/src/adapters/terminal.rs:19-34 | yaks that all share a parent come out fully sorted |
| RustTerminal.SortDependsOnInputOrder | prototypes/rust/src/adapters/terminal.rs:19-34 | two orders of the same three yaks sort to different listings |
| RustTerminal.FormatYak | prototypes/rust/src/adapters/terminal.rs:36-49 | the plain line is the name; the markdown line reads back as depth, state and basename |
| RustTerminal.FormatYakList | prototypes/rust/src/adapters/terminal.rs:61-79 | an empty store prints the empty-listing text |
| RustTerminal.FormatYakListContents | prototypes/rust/src/adapters/terminal.rs:61-79 | a non-empty store lists exactly the yaks that pass the filter, one line each, and never the "no yaks" message |
| RustTerminal.ContextViewShowsContext | prototypes/rust/src/adapters/terminal.rs:81-87 | the context view gives back the yak's context |
| RustStorage.Visible | prototypes/rust/src/adapters/filesystem.rs:169-174 | the walk sees exactly the directories below the base with no segment starting with '.' |
| RustStorage.VisibleClosed | prototypes/rust/src/adapters/filesystem.rs:169-174 | the parent of a listed yak is listed too |
| RustStorage.ReadState | prototypes/rust/src/adapters/filesystem.rs:30-37 | a missing state file reads as todo; otherwise the text decides |
| RustStorage.ReadContext | prototypes/rust/src/adapters/filesystem.rs:39-42 | a missing context file reads as "" |
| RustStorage.List | prototypes/rust/src/adapters/filesystem.rs:162-196 | the listing holds one loaded yak per visible directory, state-less ones included |
| RustStorage.Get | prototypes/rust/src/adapters/filesystem.rs:198-214 | `get` finds a yak exactly when its directory exists, and loads it from that directory |
| RustStorage.Find | prototypes/rust/src/adapters/filesystem.rs:68-89 | an existing directory is taken as it is; otherwise one visible substring match is the answer, none is nothing, more are ambiguous |
| RustStorage.Lookup | prototypes/rust/src/adapters/filesystem.rs:281-286 | lookup succeeds exactly when `find_yak` finds a name; nothing found is a "not found" error |
| RustStorage.FindIsResolve | prototypes/rust/src/adapters/filesystem.rs:76-89 | on a name that is not a hidden path, Rust lookup agrees with the Go rule over the visible names |
| RustStorage.HasIncompleteChildren | prototypes/rust/src/adapters/filesystem.rs:91-111 | true exactly when the directory exists and some child directory does not read as done |
| RustStorage.UpdateState | prototypes/rust/src/adapters/filesystem.rs:216-229 | marking done is refused exactly when a child is incomplete; otherwise only the resolved yak's state file changes |
| RustStorage.UndoNeverBlocked | prototypes/rust/src/adapters/filesystem.rs:216-229 | marking todo succeeds exactly when the name resolves |
| RustStorage.UpdateStateRecursive | prototypes/rust/src/adapters/filesystem.rs:288-294 | the state is written into the resolved yak and every directory below it |
| RustStorage.UpdateStateRecursiveThenRead | prototypes/rust/src/adapters/filesystem.rs:113-135 | afterwards the subtree reads as the new state, the rest is unchanged, and a recursive done can no longer be refused |
| RustStorage.Add | prototypes/rust/src/adapters/filesystem.rs:148-160 | `add` fails exactly on an invalid name; it creates the missing ancestors as todo yaks, then the yak as a fresh todo |
| RustStorage.AddThenGet | prototypes/rust/src/adapters/filesystem.rs:148-160 | the new yak and every ancestor created are found and read as fresh todos |
| RustStorage.AddKeepsStoreValid | prototypes/rust/src/adapters/filesystem.rs:148-160 | adding keeps the store a prefix-closed tree |
| RustStorage.Remove | prototypes/rust/src/adapters/filesystem.rs:231-247 | an existing path is deleted as it is, another name is resolved first; exactly the subtree goes |
| RustStorage.RemoveKeepsStoreValid | prototypes/rust/src/adapters/filesystem.rs:231-247 | removal keeps the store a prefix-closed tree |
| RustStorage.RemoveEmptyNameClears | prototypes/rust/src/adapters/filesystem.rs:231-247 | removing the empty name deletes the whole yaks directory |
| RustStorage.SetContext | prototypes/rust/src/adapters/filesystem.rs:249-256 | only the resolved yak's context changes |
| RustStorage.GetContext | prototypes/rust/src/adapters/filesystem.rs:258-264 | the resolved yak's context, "" when it has none |
| RustStorage.SetContextThenGet | prototypes/rust/src/adapters/filesystem.rs:249-264 | a context written through a name is read back through the same name |
| RustStorage.Rename | prototypes/rust/src/adapters/filesystem.rs:266-279 | an unresolved old name or an invalid new name changes nothing; otherwise the rename fails exactly for the base or a blocked target, keeping the created ancestors; a success moves the subtree, leaves every key outside both subtrees unchanged and adds the missing ancestors as fresh empty yaks |
| RustStorage.RenameKeepsStoreValid | prototypes/rust/src/adapters/filesystem.rs:266-279 | a rename, failed or not, keeps the store a prefix-closed tree |
| RustStorage.MigrateDoneFile | prototypes/rust/src/adapters/filesystem.rs:137-144 | a marker file is migrated; a child directory named `done` also marks the yak done and then fails |
| RustStorage.MigrateDoneToState | prototypes/rust/src/adapters/filesystem.rs:296-311 | without a yaks directory nothing happens; no directory is created or deleted, only walked directories below the base change, and a change writes the state "done" and keeps the context |
| RustStorage.MigrateMarkers | prototypes/rust/src/adapters/filesystem.rs:296-311 | the corrected migration converts exactly the walked directories that hold a marker file |
| RustStorage.MigrateMarkersClears | prototypes/rust/src/adapters/filesystem.rs:296-311 | over a full walk no marker is left, every marked yak reads as done, and a second run changes nothing |
| RustStorage.MigrateWalkAgrees | prototypes/rust/src/adapters/filesystem.rs:137-144 | without a child directory named `done`, the migration as written equals the corrected one and does not fail |
| RustStorage.MigrateDoneChild | prototypes/rust/src/adapters/filesystem.rs:137-144 | with a child yak `a/done`, the migration as written marks `a` done and fails; the corrected one changes nothing |
| RustStorage.NoMarkersNoMigration | prototypes/rust/src/adapters/filesystem.rs:296-311 | without marker files the corrected migration changes nothing |
| RustApp.CheckPreconditions | prototypes/rust/src/app.rs:22-32 | commands proceed exactly in a git repository whose `.yaks` is ignored; each failure has its own error |
| RustApp.ListYaks | prototypes/rust/src/app.rs:54-57 | the listing holds exactly the loaded yaks of the walked directories |
| RustApp.ListYaksIsList | prototypes/rust/src/app.rs:54-57 | over a walk the listing is the storage listing |
| RustApp.EnteredLines | prototypes/rust/src/app.rs:34-52 | the names entered are the lines before the first blank one |
| RustApp.AddLines | prototypes/rust/src/app.rs:34-52 | the interactive loop loses no yak, and on success logs one message per entered name |
| RustApp.AddLinesSucceeds | prototypes/rust/src/app.rs:34-52 | with a working log the loop succeeds exactly when every entered name is valid |
| RustApp.AddLinesEnteredTodo | prototypes/rust/src/app.rs:34-52 | after a successful loop every entered name is a todo yak |
| RustApp.AddLinesKeepsTodo | prototypes/rust/src/app.rs:34-52 | adding never turns a todo yak into a done one |
| RustApp.AddYak | prototypes/rust/src/app.rs:34-52 | a named add fails exactly on an invalid name or a failing log; otherwise the yak is a fresh todo and is logged |
| RustApp.DoneYak | prototypes/rust/src/app.rs:59-87 | an unresolved name changes nothing; a plain done is refused exactly when a child is incomplete; otherwise only the target state is written and the resolved name is logged |
| RustApp.DoneRecursiveMarksSubtree | prototypes/rust/src/app.rs:59-87 | `--recursive` writes the target state into the whole subtree and nothing else |
| RustApp.UndoRecursiveLogsAsDone | prototypes/rust/src/app.rs:59-87 | `done --undo --recursive` marks the subtree todo but logs the same message as `done --recursive` |
| RustApp.RemoveYak | prototypes/rust/src/app.rs:89-98 | an unmatched name is "Yak not found"; otherwise exactly the resolved subtree is deleted and logged |
| RustApp.Prune | prototypes/rust/src/app.rs:100-113 | prune as written only deletes whole yaks, and on success logs one message per done yak |
| RustApp.PruneExact | prototypes/rust/src/app.rs:100-113 | the corrected prune keeps exactly the directories outside every done yak's subtree and does not fail |
| RustApp.PruneExactLeavesNoDone | prototypes/rust/src/app.rs:100-113 | after the corrected prune no visible yak is done |
| RustApp.PruneExactKeepsTodo | prototypes/rust/src/app.rs:100-113 | the corrected prune keeps, unchanged, every yak not at or below a done one |
| RustApp.PruneCompletedTreeFails | prototypes/rust/src/app.rs:100-113 | with a done parent and a done child, prune as written fails with "Yak not found"; the corrected prune succeeds with the same store |
| RustApp.RemoveAllAgrees | prototypes/rust/src/app.rs:89-113 | removing names that are present and none at or below another, the loop through `remove` is the exact removal |
| RustApp.PruneAgrees | prototypes/rust/src/app.rs:100-113 | where no done yak lies below another, prune as written is the corrected prune: it does not fail and leaves no visible yak done |
| RustApp.RenameYak | prototypes/rust/src/app.rs:115-125 | an unmatched old name is "Yak not found"; a blocked rename or the base fails with the created ancestors kept and nothing logged; otherwise the subtree is moved as the store promises and the resolved old name and the new one are logged |
| RustApp.ShowContext | prototypes/rust/src/app.rs:127-139 | the view starts with the resolved name and gives back its context; an unmatched name is the not-found message |
| RustApp.SplitTerminated | prototypes/rust/src/app.rs:141-161 | the lines read from standard input can be split back out of the stored context |
| RustApp.EditContext | prototypes/rust/src/app.rs:141-161 | only the resolved yak's context changes, to the given text or the newline-terminated input lines, and it is logged |
| RustApp.CompletionFilter | prototypes/rust/src/app.rs:167-184 | `done` offers the unfinished yaks, `done --undo` the finished ones, anything else all of them |
| RustApp.Completions | prototypes/rust/src/app.rs:167-184 | the completions are exactly the walked yaks that pass the filter |
| RustApp.CompletionsPartition | prototypes/rust/src/app.rs:167-184 | other commands are offered every visible yak, and `done` and `done --undo` split them |
| RustMain.ParseFormat | prototypes/rust/src/main.rs:70-75 | the format is plain exactly for "plain" or "raw"; anything else is markdown |
| RustMain.ParseFilter | prototypes/rust/src/main.rs:77-83 | "not-done" and "done" select those states; anything else shows all |
| RustMain.ParseNames | prototypes/rust/src/main.rs:70-83 | every format and every filter can be asked for by name |
| RustMain.NameArg | prototypes/rust/src/main.rs:130-135 | an `add` with no words reads names from standard input; otherwise the words joined with single spaces |
| RustMain.WorkTree | prototypes/rust/src/main.rs:60-64 | the work tree is GIT_WORK_TREE when set, even empty, else the current directory |
| RustMain.JoinPath | prototypes/rust/src/main.rs:66-68 | joining adds a separator only after a non-empty base not already ending in one |
| RustMain.YaksPath | prototypes/rust/src/main.rs:66-68 | the yaks directory is the work tree followed by `.yaks` |
| RustMain.YaksPathAgreesWithGo | prototypes/rust/src/main.rs:60-68 | for a plain non-empty work tree both prototypes agree on the yaks path; an empty one differs |
| RustMain.ExitCode | prototypes/rust/src/main.rs:189-194 | the exit code is 0 exactly when no error was reported, else 1 |
| RustMain.Startup | prototypes/rust/src/app.rs:13-20 | building the application runs the migration as written over every directory and drops its error; no directory is created or deleted, only walked directories below the base change, and only to the state "done" |
| RustMain.StartupAgrees | prototypes/rust/src/adapters/filesystem.rs:296-311 | without a child directory named `done`, start-up is the corrected migration and does not fail; over a walk of every directory it leaves no marker |
| RustMain.Dispatch | prototypes/rust/src/main.rs:129-183 | list, `context --show` and completions do not write; sync reports the adapter's error; completions print the visible yaks the filter shows; prune only deletes whole yaks, and where no done yak lies below another it does not fail and leaves no done yak |
| RustMain.PruneExit | prototypes/rust/src/main.rs:151-153 | the prune arm runs prune as written: it prints nothing and only deletes whole yaks; where no done yak lies below another it does not fail and leaves no visible yak done |
| RustMain.DispatchMigrated | prototypes/rust/src/main.rs:169-183 | completions builds a second application and so runs the start-up migration again |
| RustMain.DispatchKeepsNames | prototypes/rust/src/main.rs:129-183 | only add and move create names |
| RustMain.Run | prototypes/rust/src/main.rs:85-187 | no subcommand prints the usage; otherwise the start-up migration runs first, and a failed precondition check stops every command, completions included, keeping the migrated store |
| RustMain.RunSkippingChecks | prototypes/rust/src/main.rs:85-187 | the corrected run never fails completions |
| RustMain.RunSkippingChecksAgrees | prototypes/rust/src/main.rs:85-187 | the corrected run differs only for completions where the checks fail |
| RustMain.CompletionsOutsideRepository | prototypes/rust/src/main.rs:118-183 | outside a repository completions fails with exit code 1 and prints nothing; corrected, it prints the filtered yaks and exits with 0 |
| CommitGraph.IsAncestor | prototypes/go/internal/adapters/git/sync.go:315-346 | a commit is its own ancestor, and ancestors never come later in the store |
| CommitGraph.AncestorTransitive | prototypes/go/internal/adapters/git/sync.go:315-346 | ancestry is transitive |
| CommitGraph.Append | prototypes/go/internal/adapters/git/sync.go:42-105 | a new commit is stored after all the old ones, which are unchanged |
| CommitGraph.AppendKeepsAncestry | prototypes/go/internal/adapters/git/sync.go:42-105 | storing a commit changes no ancestry among the old ones |
| CommitGraph.NewCommitDescends | prototypes/go/internal/adapters/git/sync.go:126-171 | a new commit descends from its parents and their ancestors |
| CommitGraph.Overlay | prototypes/go/internal/adapters/git/sync.go:274-313 | the overlay holds every remote and local file, and local files win |
| CommitGraph.OverlayIdempotent | prototypes/go/internal/adapters/git/sync.go:274-313 | overlaying the same local files again changes nothing |
| CommitGraph.Extract | prototypes/go/internal/adapters/git/sync.go:369-397 | the yaks directory becomes the local ref's tree (empty without one) and the tracking ref is gone |
| GoSync.LogCommand | prototypes/go/internal/adapters/git/sync.go:42-105 | outside a repository or without a yaks directory nothing happens; otherwise one commit of the directory on top of the local ref, which then names it |
| GoSync.LogCommandExtendsHistory | prototypes/go/internal/adapters/git/sync.go:42-105 | each audit commit descends from the previous local ref |
| GoSync.LocalChanges | prototypes/go/internal/adapters/git/sync.go:219-272 | with no local ref, a change is a non-empty directory; otherwise a directory differing from the ref's tree; a missing directory or failed comparison is no change |
| GoSync.Decide | prototypes/go/internal/adapters/git/sync.go:108-201 | each branch is taken exactly under its condition on changes and ancestry |
| GoSync.Reconcile | prototypes/go/internal/adapters/git/sync.go:126-181 | moving the refs adds at most one commit, keeps the store consistent, and fails only on a failed merge |
| GoSync.Sync | prototypes/go/internal/adapters/git/sync.go:108-201 | sync fails outside a repository or without an origin, changing nothing; a failed merge leaves the commits, the local ref and the directory as they were; success adds at most one commit, clears the tracking ref, extracts the local ref and pushes when there is one |
| GoSync.SyncOverlay | prototypes/go/internal/adapters/git/sync.go:126-171 | local changes with a remote give one overlay commit whose only parent is the remote |
| GoSync.SyncLocalCommit | prototypes/go/internal/adapters/git/sync.go:172-176 | local changes without a remote give one commit on top of the local ref |
| GoSync.SyncWithoutChanges | prototypes/go/internal/adapters/git/sync.go:315-346 | without changes no commit is made except a merge, and the local ref ends where the branch says |
| GoSync.SyncMerge | prototypes/go/internal/adapters/git/sync.go:348-367 | diverged refs give a merge commit with parents local and remote, or the merge-tree error |
| GoSync.SyncKeepsRemote | prototypes/go/internal/adapters/git/sync.go:108-201 | after a successful sync the remote is an ancestor of the local ref |
| GoSync.SyncKeepsLocal | prototypes/go/internal/adapters/git/sync.go:108-201 | except for the overlay commit, the old local ref is an ancestor of the new one |
| GoSync.SecondSyncIsQuiet | prototypes/go/internal/adapters/git/sync.go:108-201 | a second sync with no edit and the same remote makes no commit and moves no ref |
| GoSync.SyncAdoptsRemoteIntoEmpty | prototypes/go/internal/adapters/git/sync.go:315-346 | an empty directory with no local ref adopts the remote ref without a commit |
| RustSync.LogCommand | prototypes/rust/src/adapters/git_adapter.rs:113-143 | outside a repository or with an empty or missing directory nothing happens; otherwise one commit on top of the local ref |
| RustSync.Sync | prototypes/rust/src/adapters/git_adapter.rs:145-179 | sync fails only outside a repository or without an origin, changing nothing; success adds at most one commit, extracts the local ref and pushes when there is one |
| RustSync.SyncWithContent | prototypes/rust/src/adapters/git_adapter.rs:159-167 | with a remote and content, the directory is committed on the local ref; the remote is not a parent |
| RustSync.SyncWithoutContent | prototypes/rust/src/adapters/git_adapter.rs:159-167 | with a remote and no content, the local ref becomes the remote without a commit |
| RustSync.SyncWithoutRemote | prototypes/rust/src/adapters/git_adapter.rs:145-179 | without a remote no ref moves and the directory is reset to the local ref's tree |
| RustSync.SyncForgetsRemote | prototypes/rust/src/adapters/git_adapter.rs:159-167 | with local content, the remote's commit is left out of the new history and its file is dropped |
| RustSync.SecondSyncCommitsAgain | prototypes/rust/src/adapters/git_adapter.rs:145-179 | a second sync with the remote still present commits again |
| RustSync.SyncWithoutRemoteIsQuiet | prototypes/rust/src/adapters/git_adapter.rs:145-179 | with no remote, syncing twice makes no commit |
| GoCli.AddNamed | prototypes/go/internal/adapters/cli/cli.go:101-117 | a named add exits 0 exactly for a valid name; it adds the yak and logs it, or changes nothing |
| GoCli.Entered | prototypes/go/internal/adapters/cli/cli.go:119-145 | the names entered are the non-empty lines before the first empty one |
| GoCli.AddLines | prototypes/go/internal/adapters/cli/cli.go:119-145 | the interactive loop exits with 0 or 1 |
| GoCli.AddLinesLogs | prototypes/go/internal/adapters/cli/cli.go:119-145 | with every name valid the loop exits 0 and logs one message per name |
| GoCli.AddLinesListed | prototypes/go/internal/adapters/cli/cli.go:119-145 | with every name valid every entered name is listed afterwards |
| GoCli.AddLinesStops | prototypes/go/internal/adapters/cli/cli.go:119-145 | an invalid entered name ends the loop with exit code 1 |
| GoCli.AddLinesCode | prototypes/go/internal/adapters/cli/cli.go:119-145 | the loop's exit code is decided by the lines alone: 1 exactly when an invalid name comes before the first empty line, whatever the store holds |
| GoCli.CmdAdd | prototypes/go/internal/adapters/cli/cli.go:101-117 | without arguments the prompt is shown; a failed named add logs nothing |
| GoCli.ParseListArgs | prototypes/go/internal/adapters/cli/cli.go:152-175 | a flag that is never given keeps its default |
| GoCli.LastFlagWins | prototypes/go/internal/adapters/cli/cli.go:152-175 | the last `--format` or `--only` decides |
| GoCli.FlagSwallowsFlag | prototypes/go/internal/adapters/cli/cli.go:152-175 | a flag without a value swallows the next flag |
| GoCli.ListingIgnoresWalkOrder | prototypes/go/internal/adapters/cli/cli.go:147-189 | the printed listing does not depend on the order the yaks were read |
| GoCli.CmdList | prototypes/go/internal/adapters/cli/cli.go:147-189 | listing exits 0, writes nothing, logs nothing and prints no empty line |
| GoCli.Complete | prototypes/go/internal/adapters/cli/cli.go:237-268 | `done` succeeds exactly when the yak resolves and has no incomplete child; success marks it done and logs it |
| GoCli.Undo | prototypes/go/internal/adapters/cli/cli.go:197-215 | `done --undo` succeeds exactly when the yak resolves; success marks it todo and logs it |
| GoCli.CompleteAll | prototypes/go/internal/adapters/cli/cli.go:217-235 | `done --recursive` fails with the store unchanged when the yak does not resolve; otherwise the resolved yak and every name the recursive walk reached are marked done, a failure part-way exits 1 keeping those writes and logs nothing, and success logs the name resolved again |
| GoCli.CmdDone | prototypes/go/internal/adapters/cli/cli.go:191-269 | a missing name is a usage error; otherwise the flag selects completion, undo or recursive completion as written |
| GoCli.CompletionRefusalWritesNothing | prototypes/go/internal/adapters/cli/cli.go:237-268 | a refused completion writes nothing, and undo is never refused for a resolving yak |
| GoCli.CmdRemove | prototypes/go/internal/adapters/cli/cli.go:271-296 | `rm` succeeds exactly when the name resolves; success deletes the subtree and logs it |
| GoCli.PruneResolving | prototypes/go/internal/adapters/cli/cli.go:298-314 | prune as written only deletes, and each reported failure names a done yak of the listing |
| GoCli.WalkList | prototypes/go/internal/adapters/filesystem/repository.go:50-95 | the walk's listing holds exactly the loaded yaks of the walked directories that have a state file, each once when the walk meets each directory once |
| GoCli.PruneExact | prototypes/go/internal/adapters/cli/cli.go:298-314 | the corrected prune keeps exactly the directories outside every done yak's subtree |
| GoCli.PruneExactIgnoresOrder | prototypes/go/internal/adapters/cli/cli.go:298-314 | the corrected prune does not depend on listing order |
| GoCli.PruneExactLeavesNoDone | prototypes/go/internal/adapters/cli/cli.go:298-314 | after the corrected prune no listed yak is done |
| GoCli.PruneExactKeepsTodo | prototypes/go/internal/adapters/cli/cli.go:298-314 | the corrected prune keeps every yak not below a done one, unchanged |
| GoCli.PruneResolvingAgrees | prototypes/go/internal/adapters/cli/cli.go:298-314 | when every done yak of the listing is still there and none lies below another, prune as written is the corrected prune and reports no failure |
| GoCli.PruneFlat | prototypes/go/internal/adapters/cli/cli.go:298-314 | where no done yak lies below another, the walk's prune is the corrected prune and leaves no listed yak done |
| GoCli.CmdPrune | prototypes/go/internal/adapters/cli/cli.go:298-314 | prune exits 0 and logs nothing; it removes only whole yaks, and every "Error removing" line names a done yak; where no done yak lies below another, nothing fails and no listed yak is left done |
| GoCli.PruneResolvingRemovesTodo | prototypes/go/internal/adapters/cli/cli.go:298-314 | on a concrete store prune as written deletes the todo yak `xa/b`; the corrected prune keeps it |
| GoCli.PruneNestedReportsChild | prototypes/go/internal/adapters/cli/cli.go:298-314 | with a done `a` and a done `a/b`, prune exits 0 but reports an error removing `a/b`, which went with `a`; the corrected prune reaches the same store without one |
| GoCli.CmdMove | prototypes/go/internal/adapters/cli/cli.go:316-342 | move needs two words; it exits 0 exactly when the store move succeeds, and logs the resolved old name and the new one |
| GoCli.CmdContext | prototypes/go/internal/adapters/cli/cli.go:344-460 | a missing name is a usage error; `--show` writes nothing and prints the context view |
| GoCli.EditContext | prototypes/go/internal/adapters/cli/cli.go:380-432 | editing succeeds exactly when the yak resolves and the editor round trip works, and stores the edited text |
| GoCli.PipeContext | prototypes/go/internal/adapters/cli/cli.go:433-457 | piped lines joined with newlines become the context and are logged |
| GoCli.CmdSync | prototypes/go/internal/adapters/cli/cli.go:462-468 | the exit code reports the sync's outcome, and the store is left to the sync engine |
| GoCli.OfferedNames | prototypes/go/internal/adapters/cli/cli.go:470-503 | the offered names are the listed yaks whose state the command and flag ask for |
| GoCli.CmdCompletions | prototypes/go/internal/adapters/cli/cli.go:470-503 | completions exit 0, write nothing and print exactly the offered names |
| GoCli.CompletionsPartition | prototypes/go/internal/adapters/cli/cli.go:470-503 | `done` and `done --undo` completions split the listed yaks |
| GoCli.Run | prototypes/go/internal/adapters/cli/cli.go:38-70 | help, no arguments and unknown commands exit 0 without writing; reading commands never write; a failed command logs nothing, except interactive add |

## Left out

- Output formats other than markdown and plain: Go's raw-path format and unknown format values (which Go ignores) are not modelled.
- The Rust usage text: only its first line is modelled.
- RustTerminal.SortBy: Rust's `sort_by` switches from insertion sort to driftsort above 20 elements. The model is the insertion sort for every length. The comparator facts (antisymmetry, the cycle) are independent of this.
- GoCli.CmdCompletions: the Go prototype prints completions in the order `filepath.Walk` visits directories. The model prints them in byte order of the full names, and the contract states only which names are printed, not their order.
- Errors while reading standard input, and carriage returns in typed lines, are not modelled.
- Editor I/O is one parameter: the text the editor leaves behind, or None when creating, editing or reading the temporary file fails.
- The sync commands of both command layers take the engine's outcome as a parameter (`syncFails`, `syncErr`). The engines themselves are `GoSync` and `RustSync`, over their own state.
- Path cleaning (`filepath.Join`, `PathBuf`) is not modelled. Store names are well-formed relative paths.
- Empty directories inside a commit tree are not represented: a `Tree` holds files only.
- Git plumbing failures other than `merge-tree` are not modelled. This covers commit-tree, update-ref, read-tree and tar extraction.
- The temporary git index, the environment variables set for it, and the unawaited tar child process are not modelled.
- Fetch and push are a parameter (what the fetch brought) and a flag (whether a push was tried); their results are ignored, as in both prototypes.
- The Rust `validate_yak_name` is not part of this model. Both stores use `Yaks.ValidateYakName`, which follows the Go function.
- I/O errors while listing or reading a store are not modelled.
- RustStorage.Find: the Rust store takes a term as an exact match when any path of that name exists, files included. The model knows only directories, so a term naming a file inside a yak directory (`a/state`, `a/context.md`, a `done` marker) or spelled with `.` or `..` components is not an exact match here; `find_yak` would return it, and the write or removal that follows would fail on a path that is not a directory.
- RustStorage.Get: for the same reason, `get` of such a file path finds a yak in the program (with state todo and the file's mtime) and nothing in the model.
- GoCli.CompleteAll: like `GoRepository.MarkDoneRecursively`, which it calls, its contract states which names were marked, not which ones the walk reaches.
- GoRepository.MarkDoneRecursively: the contract states only that the visited names are marked done. Where it strays is shown on a concrete store by `GoRepository.MarkDoneRecursivelyStrays`.
- GoCli.PruneResolving and RustApp.Prune: where a done yak lies below another, the as-written prunes state only that they delete whole yaks (and, for Go, which yaks a reported failure names). What they do there is shown on concrete stores by the counterexample lemmas.
- RustStorage.MigrateDoneToState: with a child directory named `done` the as-written migration states only which nodes may change and how. Its behaviour is related to the corrected migration by `RustStorage.MigrateWalkAgrees` and `RustStorage.MigrateDoneChild`.
- GoOutput.FormatYaks and RustTerminal.FormatYakList: the contracts state the empty case. The drawn lines are described by `GoOutput.RenderFacts`, `GoOutput.MarkdownLinesOnePerEntry` and `RustTerminal.FormatYakListContents`.
- RustMain.Dispatch: for add, done, rm, move and context editing, its contract is that of the `RustApp` member each command calls.
- Clock values are abstract integers; no time zone or resolution is modelled.

## Findings

| source | as written | input that shows it | evidently intended | confidence | as-written member | corrected member |
|---|---|---|---|---|---|---|
| prototypes/go/internal/adapters/filesystem/repository.go:271-301 | each child path is resolved again through fuzzy `Get` | `add a`, `add a/b/c`, `rm a/b/c`, `add xa/b`, then `done --recursive a`: the state-less path `a/b` resolves to `xa/b`, which is marked done | mark the yak and its subtree by exact path | not executed | GoRepository.MarkDoneRecursivelyStrays | GoRepository.MarkDoneSubtree |
| prototypes/go/internal/adapters/cli/cli.go:298-314 | each done yak is removed through fuzzy `Remove` after earlier removals | `a` and `a/b` done, `xa/b` todo: once `a` is gone, `a/b` resolves to `xa/b`, a todo yak, which is deleted | remove each done yak's subtree by exact path | not executed | GoCli.PruneResolvingRemovesTodo | GoCli.PruneExact |
| prototypes/rust/src/adapters/filesystem.rs:137-144 | any entry named `done` counts as a marker | `yx add a/done`: the migration marks `a` done, then fails to remove the directory as a file, and every later start-up stops at the same place | only a regular file named `done` is a marker | not executed | RustStorage.MigrateDoneChild | RustStorage.MigrateMarkers |
| prototypes/rust/src/app.rs:100-113 | each done yak is removed by name, failing when the name no longer resolves | a done yak `a` with a done child `a/b`: removing `a` deletes `a/b`, then `prune` fails with "Yak not found" | skip a yak already removed with its parent | not executed | RustApp.PruneCompletedTreeFails | RustApp.PruneExact |
| prototypes/rust/src/main.rs:118-183 | the precondition check runs before the match, so `completions` never skips it | `yx completions` outside a git repository exits with 1 and prints nothing | `completions` skips the check, as its comment says, so tab completion works anywhere | not executed | RustMain.CompletionsOutsideRepository | RustMain.RunSkippingChecks |

The Rust listing comparator is not transitive (`RustTerminal.CompareCycle`), so the listing depends on the order of the directory walk (`RustTerminal.SortDependsOnInputOrder`). The intended order is not evident from the code, so this is not a finding row.

The Rust sync never merges. With local content it commits on top of the local ref and drops the remote (`RustSync.SyncForgetsRemote`), and it commits again on every later sync (`RustSync.SecondSyncCommitsAgain`). The Go engine keeps the remote in the history (`GoSync.SyncKeepsRemote`) and a repeated sync is quiet (`GoSync.SecondSyncIsQuiet`).

In the Rust prototype, `done --undo --recursive` logs the same audit message as `done --recursive` (`RustApp.UndoRecursiveLogsAsDone`).

An empty `GIT_WORK_TREE` means the current directory in the Go prototype. The Rust prototype takes it literally, so the yaks directory becomes the relative path `.yaks` (`RustMain.YaksPathAgreesWithGo`).
