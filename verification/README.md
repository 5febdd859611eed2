# A verified model of wtree's core

wtree keeps several Git repositories together as one workspace. This project models the parts of it whose correctness
is hard to see by reading one function, and proves what they promise. `dafny verify dfyconfig.toml` checks everything.

Nothing of the model was extracted from the program; each module names the lines it follows. Loops, in-place updates and
objects with fields are written as methods and classes, and each is tied to a specification whose properties are then
proved as lemmas.

## What is modelled

**Bounded, redacting output** (`Bytes`, `Spans`, `WindowRender`, `RedactionSpec`, `RedactionTheorems`,
`RedactionGrammar`, `Scanner`, `Stream`, `StreamTheorems`). The output of a child process is kept as its first and last N bytes; a scanner
that sees one byte at a time records which offsets are secret, and only those offsets that no recorded span covers are
shown. The scanner is proved equal to two small automata running side by side, and these are characterised by a
grammar, on the text alone, of sensitive query values and URL userinfos (sections 3.1, 3.2 and 3.4 of RFC 3986). The size N
and the retained size are symbolic; the key cap is the program's. Output is a list of tokens, so a marker is never
confused with the same text in the stream.

**Conditional file replacement** (`AtomicReplace`). The writer exchanges its private temporary name with the
destination, inspects what it displaced, and removes it, swaps it back, or reports where it is. Between any two calls
anybody may replace the destination, and every call may fail.

**Moving a branch with its checkout** (`GitBranch`, `CheckoutPaths`). A branch is moved by compare-and-swap, its checkout is
materialised by the two-tree merge, and the move is undone only while ownership can be shown. Other processes may act
between any two Git calls; a ref update may take effect and be reported as failed. Several regimes are told apart:
anything may happen; nobody else writes the branch (`exclusive`); nobody else does anything (`quiet`). `Smooth` adds
that no call fails that could succeed; it is what rules out a protocol that merely gives up. In `Spoiled` one other
process waits until files have been written and then sets the branch back, and in `Lied` Git reports as failed what took
effect; these exhibit the runs that harm.

**Companion update** (`Companion`, `CompanionRun`). One workspace's branch and its state file change together or not at
all, or the entry says `rollback-incomplete` and a recovery record was attempted. A checkout that is missing, foreign,
detached, dirty or waiting for recovery is refused. A run over many workspaces settles each one, tells of each what
happened to it, and stops early only for a reason.

**Repository forests** (`Ordering`, `Forest`, `RepositoryOrder`, `Mounts`, `Placement`, `ProjectPaths`, `Discovery`,
`ClonePlan`, `ClonePlanTheorems`, `ClonePlanSteps`, `ClonePlanner`). Several separate algorithms compute orders, paths and acyclicity of
the same forest; they are proved to agree, to accept exactly the forests they should, and to make executable clone plans. Paths are
sequences of components, and letter case is folded for ASCII.

**Stable registry snapshot** (`RegistrySnapshot`). Two passes over the registry and all workspace files, while others
write.

## What holds only under a condition

- A sensitive query value is hidden completely if and only if no `@` inside it closes an authority
  (`ValueCoveredIff`). In `a://?auth=b@c` the `@` is taken for the end of a userinfo and `c` stays visible
  (`SomeValueIsCut`); the part before the `@` is always hidden (`ValueCoveredUpTo`).
- Normalising leaves a list of one span alone, so a lone span that ends before it starts is not dropped; the window
  renderer is wrong exactly when such a span begins inside the window after its start (`RedactWindow`). The
  scanner never records such a span (`KeptSpansAreSound`).
- Not every userinfo is hidden. It is hidden completely if and only if its authority is being read where it begins, or a
  sensitive value is being read there and goes on to its end (`UserinfoCoveredIff`). In `?a://b@` the scheme is not
  looked for, because a query key is being read, and `b` is shown (`SomeUserinfoIsMissed`).
- The last window is shown as the spans of the whole stream say if and only if no empty span lies at its left edge
  with nothing covered around it; otherwise exactly the marker of that span is missing in front (`TailKeptIff`,
  `KeptRenderingIff`). `?auth=&` with a last window of one byte is such a stream (`SomeMarkerIsMissing`).
- `FastForwardRef` returns a receipt if and only if the swap took effect and was acknowledged (`FastForwardRef`). When Git
  reports a failure after the ref has moved, the receipt is empty and the ref is at the new commit; such a run is given
  (`LostAcknowledgementHidesMove`).
- That a failed `FastForward` with the ref at the old commit left no files of the new commit behind is guaranteed if
  nobody else writes the branch (`FastForward`, `FailureAtSourceIsHarmless`). If somebody else may, it is not: for any two
  commits there is a run in which the branch is moved back by another process after the files have been written, and the
  failure hides them (`ForeignRollbackHidesResidue`); the companion update then reports `stale-generation` over files of
  the baseline (`ForwardAndPublish`).
- An undisturbed update that is canceled after the branch has moved takes the move back, unless an ignored file lies in
  the way of the old commit; then it is left `rollback-incomplete` (`UpdateWorkspace`).
- What discovery finds resolves back to the paths it was found at if and only if the names below the root are
  allowed in mounts and no two paths differ by letter case alone (`DiscoveryRoundTrip`). Directories `a` and `A` are
  discovered (`CaseAliasesAreDiscovered`) and never resolve (`CaseAliasesDoNotResolve`).
- A clone plan creates nothing twice. On a file system that ignores case this is so if and only if no two
  grouping directories differ by case alone (`CreatedOnceIgnoringCase`); an accepted manifest may have two that do
  (`GroupingsMayAlias`).
- The registry capture is the state of one instant of the call as long as no key comes back, during the call, to a value
  it has given up (`Read`, `DoubleCollect`). When values do come back, a call can succeed with a view that no instant ever
  held; such a run is given (`ReturningValuesDeceive`).

## Model

| member | source | states |
|---|---|---|
| `WindowRender.MergeInPlace` | internal/service/aggregate.go:535-549 | one turn of the merge inside the array: inverted spans are dropped, touching ones absorbed, unread input is untouched |
| `WindowRender.Normalize` | internal/service/aggregate.go:525-551 | for any span list the result reaches exactly the same offsets; unless it has one element it is sorted and strictly separated |
| `WindowRender.NormalFormIsUnique` | internal/service/aggregate.go:521-551 | a sorted, strictly separated list is determined by the offsets it reaches, so the result does not depend on the order, overlap or nesting of the input |
| `WindowRender.Sweep` | internal/service/aggregate.go:498-518 | the left-to-right sweep over separated spans gives the offset-by-offset rendering |
| `WindowRender.RedactWindow` | internal/service/aggregate.go:496-519 | rendering any non-empty window at any offset equals the offset-by-offset rendering, except exactly for a lone inverted span inside the window |
| `WindowRender.InvertedCells` | internal/service/aggregate.go:496-530 | what is shown for a lone inverted span differs from the reference exactly when it begins inside the window |
| `WindowRender.SameCells` | internal/service/aggregate.go:496-519 | a window depends only on which offsets around it are covered or touched |
| `WindowRender.CellsShowUncovered` | internal/service/aggregate.go:496-519 | the bytes a window shows are exactly its uncovered bytes, at their own offsets |
| `RedactionSpec.OnlyThePrefixMatters` | internal/service/aggregate.go:587-593 | state and spans depend only on the bytes read so far |
| `RedactionSpec.AfterIsSane` | internal/service/aggregate.go:553-741 | pending starts lie in the past, a pending value inside an authority starts after it, and no scheme is read while a key or value is |
| `RedactionSpec.AllEndsIncrease` | internal/service/aggregate.go:754-764 | span ends strictly increase in discovery order |
| `RedactionTheorems.SpansCharacterised` | internal/service/aggregate.go:595-752 | the recorded spans are exactly the whole values of sensitive keys read as keys and not cut, and the non-empty userinfos of URLs whose scheme is looked for |
| `RedactionTheorems.QueryMemory` | internal/service/aggregate.go:595-741 | whatever state the query automaton is in, the bytes before really are a key, or a sensitive key and the start of its value |
| `RedactionTheorems.LinkMemory` | internal/service/aggregate.go:595-664 | whatever state the link automaton is in, the bytes before really are that part of a scheme and authority |
| `RedactionTheorems.KeyIsReadIff` | internal/service/aggregate.go:640-657 | a key is being read exactly behind a `?` or `&` that opens one, within 64 bytes, before `=`, another opener, `#`, a quote, white space, or a closing `@` |
| `RedactionTheorems.UserinfoIsRecorded` | internal/service/aggregate.go:641-659 | the userinfo of a URL whose scheme is looked for is recorded as one span |
| `RedactionTheorems.ValueIsReadIff` | internal/service/aggregate.go:595-741 | a value is being read exactly behind a sensitive key read as one, before any end and any closing `@` |
| `RedactionTheorems.AuthorityIsReadIff` | internal/service/aggregate.go:595-664 | an authority is being read exactly behind a scheme that was looked for, before any byte that ends it |
| `RedactionTheorems.ClosesIff` | internal/service/aggregate.go:641-659 | an `@` closes an authority exactly when it ends the userinfo of a URL whose scheme was looked for |
| `RedactionTheorems.UserinfoCoveredIff` | internal/service/aggregate.go:595-664 | a userinfo is covered completely if and only if its authority is being read where it begins, or a sensitive value is being read there and goes on to its end |
| `RedactionTheorems.SomeUserinfoIsMissed` | internal/service/aggregate.go:595-640 | a concrete stream whose userinfo is not covered, because a query key is being read |
| `RedactionTheorems.CloseIsNeverCovered` | internal/service/aggregate.go:641-659 | the `@` that closes an authority is itself never covered: both automata start afresh there |
| `RedactionTheorems.ValueCoveredUpTo` | internal/service/aggregate.go:595-752 | every byte of a sensitive value before a closing `@` is covered |
| `RedactionTheorems.ValueCoveredIff` | internal/service/aggregate.go:595-752 | a sensitive value is covered completely if and only if no `@` in it closes an authority |
| `RedactionTheorems.SomeValueIsCut` | internal/service/aggregate.go:641-659 | a concrete stream in which part of a sensitive value is not covered |
| `RedactionTheorems.WithoutAtOnlyQueries` | internal/service/aggregate.go:595-741 | without `@`, state and spans are those of the three-state query automaton alone |
| `RedactionGrammar.StatesFollowGrammar` | internal/service/aggregate.go:595-741 | at every offset of every stream a key, a value from v on, or an authority from s on is being read exactly if a grammar says so that is defined on the text alone, without states |
| `RedactionGrammar.TurnsFollowGrammar` | internal/service/aggregate.go:595-741 | where a key begins, a scheme is looked for, or an `@` closes an authority, told by the same grammar |
| `RedactionGrammar.SpansFollowGrammar` | internal/service/aggregate.go:595-752 | the recorded spans of every stream, told on the text alone |
| `Bytes.EndsAsExpression` | internal/service/aggregate.go:441 | the scanner ends a sensitive value at the same bytes as the expression applied to complete output |
| `Bytes.KeysAsExpression` | internal/service/aggregate.go:441 | the scanner looks for the same sensitive keys as that expression |
| `Bytes.SchemeAsExpression` | internal/service/manifest_source.go:282 | the scanner's scheme letters and bytes are those of the expression for URLs |
| `Scanner.RedactionScanner.ConsumeAuthorityQuery` | internal/service/aggregate.go:691-725 | inside an authority the nested mode takes exactly the query automaton's step |
| `Scanner.RedactionScanner.LeaveAuthority` | internal/service/aggregate.go:727-741 | a slash or space ends the authority and hands an open query over unchanged |
| `Scanner.RedactionScanner.ConsumeByte` | internal/service/aggregate.go:595-664 | every byte in every mode is one step of the two automata and records exactly what that step completes |
| `Scanner.RedactionScanner.AddSpan` | internal/service/aggregate.go:754-764 | a span is kept for the first window exactly if it starts there, and always for the last; inverted spans are ignored |
| `Scanner.RedactionScanner.Prune` | internal/service/aggregate.go:766-772 | exactly the spans that reach past the cutoff remain |
| `Scanner.RedactionScanner.CompactTailSpans` | internal/service/aggregate.go:778-788 | the live spans are unchanged and the dead prefix becomes smaller than half the list |
| `Scanner.DeadAreDropped` | internal/service/aggregate.go:766-772 | because ends increase, dropping from the front drops exactly the spans that end at or before the cutoff |
| `Scanner.RedactionScanner.MemoryIsBounded` | internal/service/aggregate.go:766-788 | the backing list never exceeds 2N entries and the dead prefix never exceeds the live part |
| `Scanner.RedactionScanner.Consume` | internal/service/aggregate.go:587-593 | reading a chunk continues the same text byte by byte |
| `Scanner.RedactionScanner.Finish` | internal/service/aggregate.go:743-752 | the end of the stream completes an open value, outside or nested; without one it changes nothing |
| `Stream.BuffersFollow` | internal/service/aggregate.go:308-346 | head and tail buffers are the first and the last min(N, total) bytes of everything written, however it was cut up |
| `Stream.BoundedStream.Write` | internal/service/aggregate.go:280-289 | head, tail, total and scanner follow the text written so far |
| `Stream.ReconstructIsWhole` | internal/service/aggregate.go:464-471 | for totals up to 2N the two windows give back every byte written |
| `Stream.HeadSpansSuffice` | internal/service/aggregate.go:454-462 | the spans kept for the first window render it as all spans of the stream would |
| `Stream.TailSpansSuffice` | internal/service/aggregate.go:454-462 | the spans kept for the last window cover it as all spans of the stream do |
| `Stream.TailKeptIff` | internal/service/aggregate.go:766-776 | the last window shows what the spans of the whole stream say, except exactly for an empty span at its left edge with nothing covered around, whose marker is then missing in front |
| `Stream.KeptRenderingIff` | internal/service/aggregate.go:430-439 | the output is the one decided from the spans of the whole stream if and only if no such marker is missing |
| `Stream.KeptSpansAreSound` | internal/service/aggregate.go:754-764 | no kept span is inverted, so the exception of the renderer does not arise |
| `Stream.BoundedStream.TakeSnapshot` | internal/service/aggregate.go:454-462 | the snapshot is a function of the text alone |
| `Stream.RenderOutput` | internal/service/aggregate.go:430-439 | complete up to 2N bytes, and only then; otherwise both redacted windows, cut to the retained size around the separator, as the kept spans show them |
| `Stream.BoundedStream.Render` | internal/service/aggregate.go:301-306 | a stream of at most 2N bytes comes back complete, a longer one never does: it shows the two windows in order, exactly as the spans of the whole stream say, unless exactly a marker at the edge of the last window is missing; rendering again gives the same |
| `StreamTheorems.WindowsShowUncovered` | internal/service/aggregate.go:430-439 | the two windows of a long stream show exactly their uncovered bytes |
| `StreamTheorems.ShownIff` | internal/service/aggregate.go:430-519 | a byte of a long stream is shown if and only if it is uncovered and lies within the retained size, counted in tokens from the left edge of the first or the right edge of the last window |
| `StreamTheorems.ShownInOrder` | internal/service/aggregate.go:430-519 | what is shown keeps the order of the stream, the first window before the last |
| `StreamTheorems.CoveredIsNeverShown` | internal/service/aggregate.go:430-519 | no byte inside a recorded span is shown, wherever window edges and retained sizes fall |
| `StreamTheorems.SensitiveValueIsNeverShown` | internal/service/aggregate.go:430-788 | end to end: no byte of a sensitive value before a closing `@` reaches the output of a long stream |
| `StreamTheorems.UserinfoIsNeverShown` | internal/service/aggregate.go:430-788 | end to end: no byte of a userinfo that is being read, or that lies inside a sensitive value, reaches the output of a long stream |
| `StreamTheorems.UserinfoIsHiddenIff` | internal/service/aggregate.go:430-788 | a window that holds a whole userinfo hides all of it if and only if it is being read in that sense |
| `StreamTheorems.SomeMarkerIsMissing` | internal/service/aggregate.go:766-772 | a concrete stream whose output lacks the marker of an empty value at the edge of the last window |
| `StreamTheorems.ShownIsTrue` | internal/service/aggregate.go:430-519 | whatever is shown is a byte of the stream at its own offset |
| `StreamTheorems.OutputIsBounded` | internal/service/aggregate.go:430-439 | the output is complete exactly up to 2N bytes, and bounded above that |
| `StreamTheorems.OrdinaryStreamIsUnchanged` | internal/service/aggregate.go:430-439 | a long stream with nothing to hide is shown unchanged at both ends |
| `StreamTheorems.ChunksLeaveNoTrace` | internal/service/aggregate.go:280-346 | two streams that received the same bytes in different chunks have the same head, tail, total, state and live spans |
| `StreamTheorems.HeadListIsBounded` | internal/service/aggregate.go:754-764 | the list kept for the first window never exceeds N + 1 entries |
| `AtomicReplace.Directory.ValidateExpectedGeneration` | internal/fsutil/atomic.go:122-150 | success means the file under the private name has the expected identity, mode and bytes |
| `AtomicReplace.Directory.RemoveTemporary` | internal/fsutil/atomic_expected_linux.go:28-33 | only the named generation is ever removed |
| `AtomicReplace.Directory.ReplaceExpected` | internal/fsutil/atomic_expected_linux.go:20-61 | under every interference and failure: success is one exchange displacing exactly the expected generation; a plain failure left no trace; everything else is reported, with exactly what was exchanged and what is held. Undisturbed, it succeeds exactly if the destination holds the expected generation and otherwise restores it |
| `AtomicReplace.Directory.WriteExpected` | internal/fsutil/atomic.go:102-116 | the same for the whole write: whatever says completed has exchanged in the complete, flushed new file; success also flushed the directory after the last change; undisturbed it is a compare-and-swap of the new file, and the temporary name is gone |
| `AtomicReplace.Directory.Prepare` | internal/fsutil/atomic.go:310-365 | the temporary file has the requested mode and bytes before anything is exchanged |
| `AtomicReplace.DisplacedIsAccountedFor` | internal/fsutil/atomic_expected_linux.go:20-61 | conservation: a displaced generation was put back, or is held at the reported path, or is the expected one or the writer's own |
| `AtomicReplace.ReplacementExchanges` | internal/fsutil/atomic_expected_linux.go:20-61 | all the writer ever did to the destination: one exchange on success, none or one undone on a plain failure, one or two where an auxiliary path is reported |
| `GitBranch.MergeOfSource` | internal/git/aggregate.go:358-371 | on an untouched source the two-tree merge yields the target |
| `GitBranch.MergeRoundTrip` | internal/git/aggregate.go:358-371 | merging forward and back restores the tree, local additions included |
| `GitBranch.Checkout.WorktreeMatchesCommit` | internal/git/aggregate.go:391-409 | a positive answer in a quiet repository means index, files and untracked set are those of the commit |
| `GitBranch.Checkout.AssertIgnoredPathsDoNotCollide` | internal/git/aggregate.go:417-437 | a positive answer in a quiet repository means no ignored file lies in the way of the target |
| `CheckoutPaths.OverlapsAgree` | internal/git/aggregate.go:450-456 | the overlap test on the text of checkout paths is the one on components: one path is the other or lies below it, case ignored |
| `GitBranch.Checkout.MaterializeAttachedWorktree` | internal/git/aggregate.go:358-371 | files are written only after the source was seen; undisturbed success leaves index and files at the target |
| `GitBranch.Checkout.CleanupFailedTransition` | internal/git/aggregate.go:334-351 | the ref is moved back only by an exact compare-and-swap and only after the source was seen again |
| `GitBranch.Checkout.TransitionAttachedBranch` | internal/git/aggregate.go:302-332 | in every interleaving the ref writes are none, one forward, or forward and back, and each replaced exactly the commit it names; success implies the target was seen last |
| `GitBranch.Checkout.FastForward` | internal/git/aggregate.go:177-191 | the receipt is the move made; undisturbed it succeeds exactly if the branch is attached, clean, at the old commit, an ancestor and free of collisions, and otherwise changes nothing; if nobody else writes the branch, a failure with the ref at the old commit left no files behind |
| `GitBranch.Checkout.RestoreFastForward` | internal/git/aggregate.go:195-206 | the same in reverse from a receipt |
| `GitBranch.Checkout.ForwardAndBack` | internal/git/aggregate.go:177-206 | a forward move and its restore bring back ref and every part of the checkout |
| `GitBranch.Checkout.FastForwardRef` | internal/git/aggregate.go:211-269 | a receipt is returned exactly when the compare-and-swap took effect and was acknowledged; undisturbed success has an exact condition, and the error after it is a cancellation |
| `GitBranch.LostAcknowledgementHidesMove` | internal/git/aggregate.go:246-269 | a run of the ref-only fast-forward whose swap takes effect but is reported as failed: no receipt, and the ref at the new commit |
| `GitBranch.Checkout.RestoreFastForwardRef` | internal/git/aggregate.go:273-295 | the recorded move is undone by one exact compare-and-swap; undisturbed success has an exact condition |
| `GitBranch.FailureAtSourceIsHarmless` | internal/git/aggregate.go:302-351 | if nobody else writes the branch, a failed transition with the ref at the source never wrote files or saw the source afterwards |
| `GitBranch.ForeignRollbackHidesResidue` | internal/git/aggregate.go:302-332 | a run of the fast-forward in which another process moves the branch back after the files were written: it fails with the ref at the old commit and the files of the new one |
| `GitBranch.ForeignValuesSurvive` | internal/git/aggregate.go:302-356 | in every run of a transition's moves mixed with the writes of others, what each move replaced is taken from the trace, and is only ever the source or a commit that an earlier move put there |
| `Companion.Workspace.PublishHead` | internal/service/companion_update.go:1228-1265 | what is reported of a failed publication is what happened to the file, or uncertain |
| `Companion.Workspace.RestorePublishedState` | internal/service/companion_update.go:1267-1289 | success means the prior bytes are in place again, and never overwrites an uncertain outcome |
| `Companion.Workspace.Preflight` | internal/service/companion_update.go:1052-1100 | undisturbed the answer is the first obstacle in the order of the checks: invalid or stale record, missing or foreign checkout, detached HEAD, dirty checkout, recovery record, missing head, rewritten branch; with nobody else about, going on means there is none |
| `Companion.Workspace.AnswerIff` | internal/service/companion_update.go:1052-1100 | the exact condition of each answer: dirty is named before a recovery record, and that before the head |
| `Companion.Workspace.RefusalIff` | internal/service/companion_update.go:1101-1130 | without such an obstacle a workspace is refused exactly for an ignored file in the way of the move, or for having diverged |
| `Companion.Workspace.Forward` | internal/service/companion_update.go:1117-1129 | without a receipt the ref decides: at the old head nothing moved and, if nobody else writes the branch, no files were left; anywhere else a recovery record is attempted |
| `Companion.Workspace.TakeBack` | internal/service/companion_update.go:1132-1150 | moving back only ever undoes this run's own move, and succeeds only with the checkout seen at the old head |
| `Companion.Workspace.ForwardAndPublish` | internal/service/companion_update.go:1117-1165 | branch and record both at the baseline, or both as found with no file left behind, or rollback-incomplete with a recovery record; every move goes from the old head to the baseline or back |
| `Companion.Workspace.PublishUnchanged` | internal/service/companion_update.go:1166-1187 | the record alone follows the branch, or is as found, or rollback-incomplete |
| `Companion.Workspace.UpdateBranch` | internal/service/companion_update.go:1101-1190 | every move starts at a head strictly behind the baseline that contains the recorded head; a completed entry's head contains baseline and recorded head |
| `Companion.Workspace.UpdateWorkspace` | internal/service/companion_update.go:1052-1191 | the three endings of a workspace for every combination of failures, cancellation and foreign writes, with the moves made, the files left and the publications begun in each; a completed one in a quiet repository is clean at its head, attached and without recovery record; undisturbed the reason is exactly the first thing that keeps the branch from being brought to the target, and without one the workspace completes unless it is canceled |
| `Companion.Workspace.UpdateTwice` | internal/service/companion_update.go:1052-1191 | a second run with the same target moves no branch and reports the same head; undisturbed it completes too |
| `Companion.Workspace.UpdateAfterRollback` | internal/service/companion_update.go:1090-1093 | once a recovery record exists, the next run does not complete and leaves the record; rollback-incomplete attempts one |
| `CompanionRun.CanceledEntriesSettle` | internal/service/companion_update.go:923-939 | canceling gives one entry per selected workspace, in order, none completed |
| `CompanionRun.CanceledEntryAt` | internal/service/companion_update.go:923-939 | each selected workspace finds its own entry in its place: canceled if its record is readable, failed as invalid if not |
| `CompanionRun.SettledByCanceling` | internal/service/companion_update.go:883-915 | stopping anywhere and canceling the rest settles the whole run |
| `CompanionRun.TakeTurn` | internal/service/companion_update.go:876-916 | one turn skips exactly the unselected workspaces, begins nothing after a cancellation, and goes on only if nothing stopped the run |
| `CompanionRun.AllComplete` | internal/service/companion_update.go:876-920 | an undisturbed run completes every workspace that is as planned, clean, without recovery record, and can be brought to the target |
| `CompanionRun.ExecuteWorkspaces` | internal/service/companion_update.go:863-921 | one entry per selected workspace in plan order: before the stopping point it tells what happened to the workspace, after it that it was canceled, or invalid, and not touched; the run stops early only for a reason and always right after a rollback-incomplete workspace or failed output; it completes exactly if it was not stopped and every entry completed, and does so when nothing disturbs it and no workspace has an obstacle |
| `Ordering.SortedIsAscending` | internal/domain/project.go:208-218 | sorting distinct elements by a strict comparison lists the same elements ascending |
| `Ordering.AscendingIsUnique` | internal/domain/project.go:208-246 | a set has only one ascending list |
| `Ordering.LexIsByteOrder` | internal/domain/project.go:215 | one ID is less than another exactly if it is a proper beginning of it or has the smaller byte where they first differ |
| `Forest.IsAncestor` | internal/config/portable_manifest.go:777-784 | the walk up the parents ends, and answers whether the one is an ancestor of the other |
| `Forest.Visit` | internal/domain/project.go:179-198 | the depth-first visit reports a cycle exactly if the parent chain never reaches the top |
| `Forest.CheckHierarchy` | internal/domain/project.go:176-204 | the hierarchy check succeeds exactly on forests |
| `Forest.CyclesAreNotRooted` | internal/domain/project.go:180-182 | a repository that comes back to itself never reaches the top |
| `Forest.AncestorIsHigher` | internal/domain/project.go:80-87 | an ancestor has smaller depth |
| `RepositoryOrder.DepthOf` | internal/domain/project.go:266-279 | the memoised depth is the length of the parent chain |
| `RepositoryOrder.ComputeDepths` | internal/domain/project.go:260-284 | the depth map of the whole forest |
| `RepositoryOrder.ParentFirst` | internal/domain/project.go:208-218 | the list of all repositories by depth, then ID |
| `RepositoryOrder.ChildFirst` | internal/domain/project.go:236-246 | the list by falling depth and ID, which is the exact reverse of parent-first |
| `RepositoryOrder.ChildFirstIsParentFirstReversed` | internal/domain/project.go:208-246 | any child-first list is any parent-first list backwards |
| `RepositoryOrder.MetadataBase` | internal/domain/project.go:248-258 | the declared base, or a top-level repository, or none if there is none |
| `RepositoryOrder.MoveToFront` | internal/domain/project.go:225-229 | shifting in place moves one element to the front and keeps the order of the others |
| `RepositoryOrder.MetadataFirst` | internal/domain/project.go:222-233 | the parent-first list with the base taken to the front; for a top-level base that is the order by depth, base, ID |
| `RepositoryOrder.PortableRepositoryOrder` | internal/service/clone_plan.go:666-699 | fails exactly if some parent chain never reaches the top, and otherwise gives the metadata-first order without computing depths |
| `RepositoryOrder.OrdersAreUnique` | internal/service/clone_plan.go:666-707 | each order is one list only, so the layered and the depth-sorted computation agree |
| `RepositoryOrder.OrdersFollowBytes` | internal/domain/project.go:208-246 | in each order the place of any two repositories is decided by depth, then by the bytes of their IDs, reversed for child-first; a top-level base comes first in metadata-first order |
| `RepositoryOrder.OnlyATopLevelBaseMatters` | internal/service/clone_plan.go:682-690 | with a base that is not top-level the layered order is the parent-first one |
| `RepositoryOrder.AncestorsComeFirst` | internal/domain/project.go:207-233 | in both orders every repository comes after all its ancestors |
| `RepositoryOrder.StuckMeansUnrooted` | internal/service/clone_plan.go:679-681 | when nothing is ready, nothing that is left reaches the top |
| `Mounts.CaseFoldedPathEqual` | internal/pathutil/mount.go:193-204 | the component loop decides equality of the folded paths |
| `Mounts.CaseFoldedPathOverlap` | internal/pathutil/mount.go:208-219 | the component loop decides whether one folded path is the other or lies below it |
| `Mounts.OverlapUnderRoot` | internal/pathutil/mount.go:206-219 | a common root does not change what overlaps |
| `Mounts.RefusedComponents` | internal/pathutil/mount.go:109-122 | exactly what may not be a component of a mount: empty, `.`, `..`, a final dot or space, `.git` and device names in any case with or without extension, separators, reserved and control characters |
| `Mounts.ResolveMount` | internal/pathutil/mount.go:26-64 | an allowed mount resolves to root or parent joined with it, below the root; any other is refused |
| `Placement.Resolve` | internal/config/portable_manifest.go:247-271 | the memoised resolution gives the joined mounts, and fails exactly on cycles |
| `Placement.ResolveAll` | internal/config/portable_manifest.go:245-276 | all paths, or failure exactly if some parent chain never reaches the top |
| `Placement.CheckSeparation` | internal/config/portable_manifest.go:277-293 | comparing each pair once decides whether all overlapping pairs are ancestor and descendant |
| `Placement.CheckDeclarations` | internal/config/portable_manifest.go:200-243 | the phases of checks decide the declarative conditions, `.` only as the sole top-level mount included |
| `Placement.ValidateManifest` | internal/config/portable_manifest.go:186-295 | accepts exactly the well-declared, acyclic, separated manifests |
| `Placement.PlacementFollowsAncestry` | internal/config/portable_manifest.go:277-293 | in an accepted manifest a folded path lies at or below another exactly for descendants, and no two are equal |
| `Placement.DescendantLiesBelow` | internal/config/portable_manifest.go:262-267 | a descendant's path is strictly below its ancestor's |
| `Placement.Collect` | internal/domain/project.go:117-138 | the listed repositories by ID; refuses exactly repeated or empty IDs and bad mounts |
| `Placement.CheckProject` | internal/domain/project.go:139-204 | decides validity, with the base inferred from a sole top-level repository |
| `Placement.ValidateProject` | internal/domain/project.go:106-205 | succeeds exactly on valid projects and gives their forest |
| `ProjectPaths.PlaceOne` | internal/domain/project.go:46-75 | a repository is placed exactly if its mount is allowed and it overlaps only with ancestors and equals nobody |
| `ProjectPaths.PlaceAll` | internal/domain/project.go:44-77 | all are placed, parents first, exactly if the overridden mounts are allowed and separated |
| `ProjectPaths.EffectivePaths` | internal/domain/project.go:28-78 | succeeds exactly for valid projects, known overrides and placeable mounts, and returns the root joined with the mounts along each parent chain |
| `ProjectPaths.ManifestsAndProjectsAgree` | internal/domain/project.go:28-78 | the check of a manifest and the resolver of its project accept the same forests |
| `ProjectPaths.ResolvedPathsFollowAncestry` | internal/domain/project.go:66-72 | resolved paths overlap under folding exactly for ancestor and descendant, and no two are equal |
| `Discovery.LastContaining` | internal/discovery/discovery.go:92-99 | the backward scan finds the last earlier repository that contains the path |
| `Discovery.LastIsNearest` | internal/discovery/discovery.go:78-99 | in the order of depth that one is the nearest enclosing repository |
| `Discovery.AssignParents` | internal/discovery/discovery.go:86-108 | every path gets its nearest enclosing repository and the rest of the path as mount |
| `Discovery.Discover` | internal/discovery/discovery.go:78-140 | the discovered forest, ordered by depth and ID |
| `Discovery.PathIsRestored` | internal/discovery/discovery.go:88-108 | the mounts along the parent chain, joined under the root, are the original path |
| `Discovery.AncestorsEnclose` | internal/discovery/discovery.go:262-265 | ancestors are exactly the enclosing repositories |
| `Discovery.DiscoveredIsForest` | internal/discovery/discovery.go:100-106 | discovery gives a forest, and `.` only to a repository at the root, which is then the only one at the top |
| `Discovery.DiscoveryRoundTrip` | internal/domain/project.go:28-78 | the resolver accepts what was discovered exactly if names are allowed and no paths alias by case, and gives back every path |
| `Discovery.CaseAliasesAreDiscovered` | internal/discovery/discovery.go:86-108 | directories `a` and `A` below the root are discovered as two top-level repositories |
| `Discovery.CaseAliasesDoNotResolve` | internal/domain/project.go:66-72 | and never resolve |
| `ClonePlan.AddGroupings` | internal/service/clone_plan.go:724-735 | the missing directories of one mount are created outermost first and remembered |
| `ClonePlanTheorems.DoRepository` | internal/service/clone_plan.go:736-753 | after its parent has been verified, the steps of one repository each follow what they need, and end with it verified |
| `ClonePlan.ClonePlanActions` | internal/service/clone_plan.go:709-760 | the action list is the specified plan, numbered from 1 without gaps |
| `ClonePlanTheorems.ClonePlanIsExecutable` | internal/service/clone_plan.go:709-760 | every path is created once and inside something that exists; exactly the repositories and the directories their mounts pass through are created; every step follows what it needs, parents are verified before children are touched, and all repositories are verified |
| `ClonePlanSteps.StepsAreExact` | internal/service/clone_plan.go:709-760 | the plan has exactly the steps its repositories call for, the two manifest checks of the base and the four closing steps, each once, the closing ones last and in order |
| `ClonePlanner.PlanClone` | internal/service/clone_plan.go:360-393 | from manifest to actions: a plan exists exactly for accepted manifests; its order is the metadata-first one, its paths are the root joined with the mounts, and its numbered actions are exactly those steps and can be carried out in the sense above |
| `ClonePlanTheorems.GroupingsComeFirst` | internal/service/clone_plan.go:724-735 | each grouping directory is created before everything under it |
| `ClonePlanTheorems.GroupingIsNotRepository` | internal/config/portable_manifest.go:284-293 | a grouping directory is never a repository, even where case is ignored |
| `ClonePlanTheorems.CreatedOnceIgnoringCase` | internal/service/clone_plan.go:718-735 | where case is ignored nothing is created twice exactly if no two grouping directories alias |
| `ClonePlanTheorems.GroupingsMayAlias` | internal/service/clone_plan.go:718-735 | an accepted manifest whose plan, in its metadata-first order, creates two paths that are one where case is ignored |
| `RegistrySnapshot.DataDirectory.CaptureProject` | internal/service/clone_registry_facts.go:86-108 | the listing of a project and every file in it, each as seen during the call; it fails for a failed read or undecodable data, and conflicts for a change or a listed file that is missing |
| `RegistrySnapshot.DataDirectory.Capture` | internal/service/clone_registry_facts.go:64-108 | the first pass sees every key that the captured values themselves refer to |
| `RegistrySnapshot.DataDirectory.RevalidateAll` | internal/service/clone_registry_facts.go:115-130 | the second pass sees every captured value again, or something changed during the call or could not be read |
| `RegistrySnapshot.DoubleCollect` | internal/service/clone_registry_facts.go:110-130 | when no key comes back to a value it has given up, two equal collections around an instant are the state of that instant |
| `RegistrySnapshot.DoubleCollectInHindsight` | internal/service/clone_registry_facts.go:110-130 | the reading in hindsight: a view seen twice around an instant fails to be its state exactly when some captured value was given up at that instant and came back |
| `RegistrySnapshot.ReturningValuesDeceive` | internal/service/clone_registry_facts.go:63-141 | a run of the capture in which values come back: it succeeds, both passes see the same view, and no state of its history is that view |
| `RegistrySnapshot.DataDirectory.Read` | internal/service/clone_registry_facts.go:63-141 | the capture is exactly one state of registry, listings and files of the call, under that condition on the writers; if nothing changes during the call, every read works and everything decodes, it succeeds; a failure comes before a complete first pass and names a failed read or undecodable data, a conflict names a missing file or, after that pass, a change |

## Left out

- Process start, pipes, timers and termination around the output stream.
- The expressions applied to a short stream's visible output, and `credentialURLPattern`, which is not part of this model: `Complete` carries the raw bytes before them.
- Writing to a stream after it has been rendered.
- WindowRender.RedactWindow: the empty window is not described; it is only asked for non-empty windows of long streams.
- StreamTheorems.ChunksLeaveNoTrace: the dead prefix of the span list and unused key buffers are not compared, because nothing reads them.
- RedactionTheorems.SpansCharacterised: nothing is claimed about the regular expressions used elsewhere for the same purpose.
- 64-bit offsets and lengths: counters are unbounded.
- Capacity and sharing of Go slices; lists are values held in fields.
- AtomicReplace.Directory.ReplaceExpected: in-place edits of an open file, symbolic links, and the Windows and Darwin variants; the temporary name is private to the writer.
- What a flush does to the disk: it is a call that succeeds or fails, and when it last succeeded is kept.
- Git's subprocesses, environment, authentication, fetch, and the syntax of branch names and object IDs: Git is a state with a ref, HEAD, index, files and an ancestry relation.
- The owner and contents of recovery records: a workspace has one or has none.
- Companion.Workspace.PublishHead: the guard and the rename of the state file are one step here; in internal/store they are separate.
- The planning, the dry run, the fetch and the baseline stage before the first workspace of a companion update (internal/service/companion_update.go:712-862).
- CompanionRun.ExecuteWorkspaces: error kinds and messages of the result are not modelled, only which entries it has and whether it completed.
- Path and mount text below the level of components, UTF-8 validity of mounts, Unicode case folding, and symbolic links in paths: canonicalisation is the identity. The two mount validators coincide on components and are one predicate.
- Placement.ValidateManifest: versions, hooks, clone sources, branches, initial commits and the grammar of IDs beyond not being empty.
- Discovery.Discover: the walk of the file system, ignore patterns, submodules, and the derivation of IDs, which are given as distinct and non-empty; the sort by depth and ID is the one of the domain project.
- ClonePlanner.PlanClone: the checks of destination, data directory and registry, and the commits advertised by the remotes.
- ClonePlan.ClonePlanActions: the initial commits copied into an ignore check.
- RegistrySnapshot.DataDirectory.Read: the inspection of a single file while it is read is one observation that succeeds or fails; digests are left out.
- Clone execution, hook coordination, command parsing and printing.
