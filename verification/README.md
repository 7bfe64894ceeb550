# SimpWF in Dafny

SimpWF runs workflow definitions durably: a definition is a tree of nodes with groups and parallel
blocks, an instance is one database row whose cursor, counters and context are committed after every
node, and lean instances keep a history of context diffs that can be replayed and rolled back.
These files model the parts where that is subtle and prove what the rest of the system relies on.

| files | what they cover |
|---|---|
| `WorkflowTree`, `WorkflowGraph`, `ScopeRules`, `GraphBuilder` | the definition tree, its scope rules, the flattened graph and why links stay in their scope |
| `Kernel` | the cursor machine: entering a group, advancing past a finished node |
| `Worklist`, `Convergence`, `Interior`, `Nesting`, `Validation` | the walk over parallel branches, the parallel interior, nesting depth, and the whole validator |
| `BranchRuns`, `Completion`, `Joins`, `ParentRuns` | what the engine's branch and parent cursors do at run time, which blocks can be joined, and which execution a join finds, against what the validator promised |
| `Strings`, `ContextPath`, `ContextDiff`, `DiffRoundTrip` | context paths, diffs of contexts and their application |
| `History`, `HistoryRuns` | history rows, replay, anchors and rollback, over whole runs |
| `Checkpoint` | the commit-only retry against concurrent pause, resume, stop and re-lease |
| `Bulkhead`, `HttpRetry`, `KeySet`, `DefCache` | outbound admission and retries, the key set's refresh rate, the definition cache |
| `SchemaHoist`, `SchemaInfer` | hoisting of author definitions into a node schema, schema inference |

`Wrappers` holds `Option` and `Result`.

## How the model is built

Code that changes state is a method on mutable fields, with loops where the program has them, and is
proved equal to (or exactly characterised by) a function or a predicate; the lemmas are about those.
What comes from outside, such as executors, hooks, scripts, operators, the provider and the clock, is
an arbitrary choice in a run. Go's map iteration is an arbitrary choice of order, so every result
about such a loop holds for all orders.

A branch's frame starts with an empty stack and the convergence walk starts with the block's whole
group chain, so the two are related by `BranchRuns.Whole`, which puts the chain in front.
`Convergence.Converges` is the walk's verdict stated without the walk: no reachable cursor is a dead
end, an unknown node, an undefined key or the block itself, and some path reaches the join.
A branch run passes the join of a nested block only when it forked that block and the execution
became ready; which nested blocks do is a parameter `ready` of a run, and `Completion` closes it:
a block is joinable when all its branches have runs that join, given the blocks inside it that are.

Two modes of replay are told apart. `History.Value` is the plain fold of all visible rows;
`History.Reconstructed` is what a replay from the last anchor, limited in length, answers.

## Where the code differs from what it promises

* Acceptance does not promise that a block can be joined. The walk lets a branch pass any foreign
  parallel_end; the engine fails it there unless the branch itself forked the block that joins at it.
  `Completion.CrossedNeverJoins` is an accepted definition whose block is never joined,
  `BranchRuns.ConvergesExactly` and `Completion.JoinableExactly` say exactly when it is, and where runs
  stand is a part of the interior for the same reason (`Interior.OnBranchIsWhereRunsStand`). Where no
  branch enters a foreign join directly, every block can be joined (`Completion.AllBlocksJoinable`).
* A join is said to find the non-terminal execution. It finds the oldest one that is not completed, so
  after a block has failed and the instance was rolled back, each new fork of it is joined to the
  failed one: `Joins.JoinsAfterRollbackExactly`.
* A diff accepts any top-level key without `.`, `[` and `]`, but a nested path is parsed as
  `[A-Za-z0-9_]+` parts. A changed top-level key such as a dashed uuid that holds maps on both sides
  yields a diff that cannot be applied. `DiffRoundTrip.RoundTrip` states the exact condition
  (`PathSafe`), `DiffRoundTrip.DashedKeyIsLost` the failing family. Replay over such a row
  reports a gap, or that it is too deep, until the next anchor, and never a wrong context:
  `HistoryRuns.ReplayIsExactInRuns` is exact over runs, `HistoryRuns.CommitIsFaithful` for one row.
* An input delivery whose contexts cannot be diffed records an empty diff
  (internal/workflow/service/instance.go:2503-2511), and replay then silently keeps the old context:
  `HistoryRuns.DeliveryIsFaithful`, `HistoryRuns.DottedKeyIsForgotten`.
* Deliveries never write anchors, so they can take every anchor's turn and a log can become too deep
  to replay although anchors are configured: `HistoryRuns.DeliveriesCanStarveAnchors`. Replay answers
  within the limit only when at most that many rows follow the last anchor
  (`HistoryRuns.ReplayIsExactInRuns`), which always holds when no delivery takes an anchor's turn
  (`HistoryRuns.PunctualReplayIsExact`).
* `SupersedeAfter` leaves rows without an occurrence id behind. Alone it cuts the log exactly when
  there are none (`HistoryRuns.SupersedeCuts`); the service then appends an anchor
  (internal/workflow/service/instance.go:1700-1709), which hides them, so rollback as a whole needs
  no such condition, only a target that replay reaches (`HistoryRuns.RollbackRestores`).
* The comment at internal/workflow/engine/engine.go:1150-1153 says that input parks never take the
  status that debug mode implies. After a revision conflict they do:
  `Checkpoint.DebugInputParkTurnsPaused`, and exactly when in `Checkpoint.InputParkExactly`. A lease lost
  and claimed again under the same worker name is not fenced: `Checkpoint.SameNameReclaimCommits`,
  exactly in `Checkpoint.CommitsAfterLossExactly`. The comment at internal/workflow/engine/engine.go:968-970
  says that a conflict is never returned while the lease is held; a failed reload returns it:
  `Checkpoint.ErrorWritesNothing`, `Checkpoint.LeaseKeptExactly`.
* The key set is described as read at most once per TTL. It is twice, which is tight
  (`KeySet.TwoReadsHappen`), exactly for a re-read of keys that are not stale
  (`KeySet.SecondReadExactly`), and reads that fail are not limited at all
  (`KeySet.FailuresAreNotThrottled`).
* Author schemas may capture names the envelope defines, references below a property or definition
  named `$ref` are not rewritten, and references to the root of the schema, to its properties or into a
  definition lead elsewhere or nowhere in the envelope. `SchemaHoist.HoistingPreservesMeaning` is exact
  for all of them, `SchemaHoist.HoistingRepointsExactly` for the second;
  `SchemaHoist.RootReferencesAreRedirected` and `SchemaHoist.ReferencesIntoDefsAreLost` say where the
  last ones lead.

## Model

| member | source | states |
|---|---|---|
| `WorkflowGraph.ScopesAreSound` | internal/workflow/model/workflowcontent.go:167-214 | in every well-linked scope, at any depth, each link, key, branch target and group start is a node of the right scope, and each chain entry is a group located with the chain before it |
| `WorkflowGraph.AcceptedGraphIsScoped` | internal/workflow/model/workflowcontent.go:106-147 | once the scope checks pass, every link in the graph resolves, within its own scope and with that scope's group chain, and the start is at top level |
| `ScopeRules.LocatesExactly` | internal/workflow/engine/graph.go:23-33 | the flattened tree holds exactly the nodes of its outermost scope and the children of every group it holds, each with its group's id, keys and chain |
| `ScopeRules.ScopesAcceptedExactly` | internal/workflow/model/workflowcontent.go:106-214 | the checks made scope by scope accept exactly the definitions whose flattened tree satisfies the rules for links, keys, branch targets and joins, each stated once for all nodes |
| `GraphBuilder.Graph.constructor` | internal/workflow/engine/graph.go:17-36 | the recursive walk fills the three maps with exactly the nodes, scope keys and group chains of the tree |
| `GraphBuilder.Graph.Walk` | internal/workflow/engine/graph.go:23-33 | walking one scope adds exactly that scope's nodes, with their whole subtrees, to what the maps held |
| `GraphBuilder.Graph.KeyTarget` | internal/workflow/engine/graph.go:74-77 | looks a condition key up in the keys of the node's own scope, and nowhere else |
| `GraphBuilder.Graph.GroupStack` | internal/workflow/engine/graph.go:81-87 | the enclosing group chain of a known node, nothing for an unknown one |
| `Kernel.Frame.EnterGroup` | internal/workflow/kernel/machine.go:26-34 | pushes the group and points at its start, or changes nothing when there is none |
| `Kernel.Frame.Advance` | internal/workflow/kernel/machine.go:42-59 | a link is followed where it points and no group is left; without one, groups are left from the inside out, and reported in that order, to the first with a link of its own, which is followed there, or to the end, which is done; an unknown group stops it |
| `Kernel.ClimbLands` | internal/workflow/kernel/machine.go:42-59 | the same for the pure cursor and any floor, read off the positions of the stack |
| `Kernel.ClimbStaysOnChain` | internal/workflow/kernel/machine.go:42-59 | advancing from a node's own chain lands on the reached node's own chain |
| `Kernel.ClimbResolves` | internal/workflow/kernel/machine.go:42-59 | on a closed graph advancing never meets an unknown group or node |
| `Kernel.ClimbAboveBase` | internal/workflow/engine/fork.go:48 | a frame that starts with an empty stack moves exactly like one with the block's chain underneath that never pops below it |
| `Convergence.AdvanceWithin` | internal/workflow/model/parallel.go:185-202 | the walk's own pop loop lands where the cursor machine does: at the link, or at that of the innermost group above the floor that has one; it refuses exactly when there is none or the group is unknown |
| `Convergence.Expand` | internal/workflow/model/parallel.go:219-258 | accepts a cursor exactly when all its routes land, and pushes exactly its successors |
| `Convergence.WalkBranch` | internal/workflow/model/parallel.go:178-264 | terminates and accepts exactly when the reachable cursor graph, which ends at nodes that hide their routing, has no dead end, unknown node, undefined key or return to the start and reaches the join; adds exactly the parent edges of blocks met |
| `BranchRuns.RunsAreSafe` | internal/workflow/engine/engine.go:1011-1029 | in every run of a converging branch, whichever nested blocks become ready, the stack is the walk's without the base, the node is known, and traversal does not end before the join |
| `BranchRuns.WalksAreRuns` | internal/workflow/engine/branch.go:72-127 | every cursor on a path of the walk that enters each foreign join from the start of a block that becomes ready is reached by some run |
| `BranchRuns.UncleanIsUnsafe` | internal/workflow/model/parallel.go:188-264 | where the walk would report an error on such a path, a run really goes wrong |
| `BranchRuns.RunsAreSafeExactly` | internal/workflow/engine/join.go:232-255 | no run of a branch goes wrong before it joins or comes to a node that hides its routing, and one joins, if and only if every such path is without error and one of them reaches the join |
| `BranchRuns.ConvergesExactly` | internal/workflow/model/parallel.go:131-134 | an accepted branch has only safe runs, one of which joins, if and only if such a path reaches the join; a branch with only such runs is accepted if and only if the walk finds no error behind a join that no run passes |
| `BranchRuns.ConvergesAsRuns` | internal/workflow/model/parallel.go:131-134 | where no foreign join is entered directly and the blocks the branch starts become ready, a branch is accepted if and only if no run goes wrong, up to a node that hides its routing, and some run joins |
| `Nesting.WalkBlock` | internal/workflow/model/parallel.go:159-171 | accepts exactly when every branch of the block converges, in any order, and records exactly its nesting edges |
| `Nesting.WalkBlocks` | internal/workflow/model/parallel.go:135-157 | the same for all blocks: the parent map afterwards is exactly the nesting relation |
| `Nesting.ComputeDepth` | internal/workflow/model/parallel.go:408-432 | memoised depth is the length of the longest chain of parents; a node being visited means chains of any length |
| `Nesting.Pump` | internal/workflow/model/parallel.go:415-418 | a cycle of parents yields chains of every length |
| `Nesting.ValidateDepth` | internal/workflow/model/parallel.go:407-443 | accepts exactly when no chain of nested blocks is longer than the limit |
| `Nesting.BoundedIsAcyclic` | internal/workflow/model/parallel.go:405-443 | acceptance implies that no block is nested in itself through any chain |
| `Nesting.ForkLeavesEdge` | internal/workflow/engine/scope.go:93-103 | a block forked by a run of another block's branch is recorded as nested in it |
| `Interior.ExpandLeniently` | internal/workflow/model/parallel.go:307-375 | pushes exactly the walk's successors of a transparent node, skipping routes that do not land |
| `Interior.CollectBranch` | internal/workflow/model/parallel.go:307-375 | adds exactly the nodes on the branch before its join, visiting the walk's cursors |
| `Interior.ParallelInterior` | internal/workflow/model/parallel.go:274-305 | exactly the nodes on some branch of some block without starts and ends, whatever the iteration order |
| `Interior.OnBranchIsWhereRunsStand` | internal/workflow/model/parallel.go:266-273 | runs of an accepted branch stand exactly on the nodes of paths that enter each foreign join from the start of a block that becomes ready; all of these are on the branch, and they are all of the branch where no foreign join is entered directly and the blocks it starts become ready |
| `Validation.WalkIds` | internal/workflow/model/workflowcontent.go:150-163 | accepts exactly when no id of the subtree is repeated or already seen, and then has seen all of them |
| `Validation.ValidateParallelScope` | internal/workflow/model/parallel.go:33-80 | accepts exactly when, here and in every scope below, targets and joins are siblings, no two blocks share a join and every end has its start |
| `Validation.DepthAgrees` | internal/workflow/model/parallel.go:405-443 | chains of recorded parents are chains of nested blocks, so the depth check measures nesting |
| `Validation.ValidateWorkflow` | internal/workflow/model/workflowcontent.go:106-147 | the validator accepts exactly the definitions that follow all rules |
| `Validation.AcceptedBranchesAreSafe` | internal/workflow/engine/join.go:172-180 | in an accepted definition the engine's two unreachable branches are unreachable, up to a node that hides its routing, and a branch's stack is its node's chain without the block's |
| `Validation.AcceptedForksFit` | internal/workflow/engine/fork.go:23-26 | with equal limits the run-time depth check never refuses a fork |
| `Completion.JoinsExactly` | internal/workflow/engine/join.go:134-160 | an accepted branch has a run that joins if and only if the join is passable |
| `Completion.JoinableExactly` | internal/workflow/engine/join.go:232-255 | in an accepted definition the blocks that can become ready to join, each waiting for those its branches fork, are exactly those whose branches all have such paths, at every level of nesting |
| `Completion.AllBlocksJoinable` | internal/workflow/model/parallel.go:405-443 | in an accepted definition whose branches enter no foreign join directly, every block can be joined, within as many levels as the depth limit allows |
| `Completion.CrossedNeverJoins` | internal/workflow/model/parallel.go:178-264 | an accepted definition, for any ids and depth limit, one of whose blocks is never ready to join because a branch leads through another block's join |
| `Joins.JoinableExecution` | internal/workflow/engine/join.go:232-255 | finds the first execution of the owner, in the order of creation, that joins at the node and is not completed, or none exactly when there is none |
| `Joins.FindsActiveExactly` | internal/workflow/engine/join.go:227-231 | that is the active execution if and only if every earlier one that joined there was completed |
| `Joins.JoinsAfterRollbackExactly` | internal/workflow/service/instance.go:1576-1580 | after a rollback, in whatever follows, a join can ever find an active execution again if and only if every execution that joined there before was completed |
| `ParentRuns.Step` | internal/workflow/engine/engine.go:180-223 | on the mutable frame each outcome leads where it should: a failed call along the failure route, a condition along its key's target, a finished node along its link, into its group or to its block's join, a move to the node's own chain; a parked or failed node keeps its cursor |
| `ParentRuns.TransitionLeads` | internal/workflow/engine/engine.go:517-647 | the same for the pure cursor, with the position that advancing along a link reaches read off the stack |
| `ParentRuns.MovesLikeBranch` | internal/workflow/engine/engine.go:723-746 | at every node that is no boundary of a block the parent moves as a branch on the same frame does for the same outcome |
| `ParentRuns.CursorStaysPlaced` | internal/workflow/engine/engine.go:387-447 | in every run of an accepted definition, through entry, advance, keys, failure routes, fork, join, input recovery, failure, and rollback of a running or failed instance, the persisted cursor is on a known node with exactly its chain |
| `ParentRuns.Counters.Record` | internal/workflow/model/state.go:60-73 | counts one execution, or refuses at a limit and then changes nothing |
| `ParentRuns.CommitDecreases` | internal/workflow/engine/engine.go:180-223 | every commit uses up part of the budget of executions, group entries and parks |
| `ParentRuns.RunsAreBounded` | internal/workflow/engine/engine.go:299-302 | without inputs and parallel blocks, nesting depth d and M executions allow at most 2(d+1)(M+1) commits |
| `ContextPath.Parse` | pkg/contextpath/contextpath.go:38-62 | the loop over parts accepts exactly the well-formed paths and yields their segments |
| `ContextPath.ParsedKeys` | pkg/contextpath/contextpath.go:33-62 | a path of bare keys parses to exactly those keys |
| `ContextPath.ParsesExactly` | pkg/contextpath/contextpath.go:33-62 | a path parses if and only if each of its parts is a bare key, or one with a bracketed index that fits a machine integer |
| `ContextPath.PrintThenParse` | pkg/contextpath/contextpath.go:38-62 | printing keys and indices and parsing the result gives them back |
| `ContextPath.ParsedIsWellFormed` | pkg/contextpath/contextpath.go:38-62 | every parse result is a sequence of bare keys with at most one index behind each, and printing it parses to it again |
| `ContextPath.SetThenGet` | pkg/contextpath/contextpath.go:84-164 | after a successful write reading the same path gives the value |
| `ContextPath.SetFrames` | pkg/contextpath/contextpath.go:128-164 | a successful write changes no path that is neither a prefix nor an extension of the written one |
| `ContextPath.GetAlong` | pkg/contextpath/contextpath.go:84-111 | reading a path reads its parts one after the other: a key an object's field, an index an array's item |
| `ContextPath.SetSucceedsExactly` | pkg/contextpath/contextpath.go:128-164 | a write succeeds if and only if what stands on its way takes the next segment and an index in the part that is missing comes last |
| `ContextPath.SetElsewhereExactly` | pkg/contextpath/contextpath.go:140-150 | what a write leaves at every path that parts from its own: what was there; in an array the write created, null below its index; otherwise nothing |
| `ContextPath.SetAndGet` | pkg/contextpath/contextpath.go:73-126 | both laws for the exported operations, outside the env snapshot |
| `ContextDiff.Builder.DiffValue` | pkg/contextdiff/diff.go:59-103 | records below a path exactly the changes between two values, and succeeds exactly when every key of objects that meet at one path, changed or not, is a bare path key |
| `ContextDiff.DiffMaps` | pkg/contextdiff/diff.go:25-57 | succeeds exactly when all top-level keys are free of path syntax and every key of objects found at the same path below in both contexts is a bare path key, and then records exactly the changed places, each once |
| `ContextDiff.DiffableExactly` | pkg/contextdiff/diff.go:59-103 | the recursive check of keys is that condition on the two contexts, read with path reads |
| `ContextDiff.ChangeExactly` | pkg/contextdiff/diff.go:59-103 | a path is recorded exactly when objects meet all the way to it, do not meet at it, and the contexts read differently there |
| `ContextDiff.Apply` | pkg/contextdiff/diff.go:117-147 | deletes, then writes in ascending order, or fails at the first path that cannot be taken |
| `ContextDiff.ApplyDoes` | pkg/contextdiff/diff.go:117-147 | for any diff: set values prevail over deletions and over related values set before them, and unrelated paths read as before |
| `ContextDiff.DeleteExactly` | pkg/contextdiff/diff.go:203-233 | deleting succeeds if and only if the path reads something and ends in a key; the path and all below it then read nothing, unrelated paths what they did |
| `DiffRoundTrip.PutTakesChange` | pkg/contextdiff/diff.go:189-201 | writing one recorded change brings a half-updated context one place closer to the later one |
| `DiffRoundTrip.DropTakesChange` | pkg/contextdiff/diff.go:203-233 | the same for deleting one recorded path |
| `DiffRoundTrip.RoundTrip` | pkg/contextdiff/diff.go:117-147 | in any order of the set paths, applying a diff to the earlier context gives the later one if and only if maps changed only under bare path keys, and fails otherwise |
| `DiffRoundTrip.DiffRestores` | pkg/contextdiff/diff.go:25-147 | the same for the order the code uses |
| `DiffRoundTrip.DashedKeyIsLost` | pkg/contextdiff/diff.go:185-201 | whenever two contexts hold different maps under a dashed key and can be diffed, no diff that represents the change can be applied, in any order |
| `DiffRoundTrip.DashedKeyIsDiffable` | pkg/contextdiff/diff.go:41-57 | such contexts exist: adding a bare key under any dashed key has a diff |
| `DiffRoundTrip.PathsAreUnrelated` | pkg/contextdiff/diff.go:59-103 | no recorded path is a prefix of another |
| `DiffRoundTrip.EmptyIffEqual` | pkg/contextdiff/diff.go:236-239 | the diff is empty exactly when the contexts are equal |
| `History.HistoryStore.Append` | internal/workflow/repository/history.go:31-53 | adds one row at the end and changes nothing else |
| `History.HistoryStore.SupersedeAfter` | internal/workflow/repository/history.go:140-150 | marks exactly the rows from the target on that carry an occurrence id, and changes nothing else of any row |
| `History.HistoryStore.ReconstructBefore` | internal/workflow/repository/history.go:70-138 | replaying from the last anchor gives what the plain fold of all visible rows gives, a gap met within the limit, or too deep |
| `History.GapAnyway` | internal/workflow/repository/history.go:112-133 | a gap met within the limit is reported whatever rows follow |
| `HistoryRuns.HistoryForCommit` | internal/workflow/engine/engine.go:1108-1144 | yields an anchor of the end context exactly at an anchor's turn, otherwise a diff that represents the change, and fails exactly when none exists |
| `HistoryRuns.HistoryForDelivery` | internal/workflow/service/instance.go:2499-2520 | yields a diff that represents the change, or an empty one when none exists; never an anchor |
| `HistoryRuns.CommitIsFaithful` | internal/workflow/engine/engine.go:1108-1144 | after a commit replay gives the stored context exactly when the row is an anchor or the change is path-safe; otherwise it reports a gap |
| `HistoryRuns.DeliveryIsFaithful` | internal/workflow/service/instance.go:2499-2520 | after a delivery replay gives the stored context if and only if the delivery is safe; an undiffable one leaves the old context |
| `HistoryRuns.DottedKeyIsForgotten` | internal/workflow/service/instance.go:2503-2511 | a delivered dotted key disappears on replay |
| `HistoryRuns.ReplayIsShort` | internal/workflow/repository/history.go:112-133 | in a log with anchors on time, fewer than AnchorEvery rows follow the last one before any live row |
| `HistoryRuns.StepKeeps` | internal/workflow/service/instance.go:1695-1709 | commit, delivery, replaced context and rollback, without exception, leave a log whose live rows tell the contexts around them and whose superseded rows are covered by anchors; they keep anchors on time unless a delivery takes an anchor's turn, and any property of changes that their own change has |
| `HistoryRuns.ReplayIsExactInRuns` | internal/workflow/repository/history.go:70-138 | in every run, for every anchor interval and limit and through any number of rollbacks: where the rows read are recorded, reconstruction before a live occurrence succeeds if and only if at most ReplayMax rows follow the last anchor and maps changed in them only under bare path keys, and then gives exactly the context stored there, however the run went on |
| `HistoryRuns.RunsAreRecorded` | internal/workflow/service/instance.go:2499-2520 | all rows of a run are recorded when each of its deliveries has a diff or changes nothing, and all are safe when every change is |
| `HistoryRuns.PunctualReplayIsExact` | internal/workflow/repository/history.go:112-133 | when no delivery takes an anchor's turn and AnchorEvery is at most ReplayMax + 1, reconstruction is never too deep: it gives the stored context, or reports a gap exactly behind an unsafe change |
| `HistoryRuns.RollbackRestores` | internal/workflow/service/instance.go:1908-1932 | where the rows read are recorded, a rollback in a run whose target is within the replay limit and behind safe changes only restores the context stored before it and leaves exactly the superseded log with an anchor; any other one changes nothing |
| `HistoryRuns.SupersedeCuts` | internal/workflow/repository/history.go:140-150 | superseding alone cuts the visible log at the target if and only if every visible row from there on has an occurrence id |
| `HistoryRuns.DeliveriesCanStarveAnchors` | internal/workflow/service/instance.go:2499-2520 | for every replay limit and all turns of anchors some run of commits and deliveries that change nothing ends too deep to replay |
| `Checkpoint.InstanceRow.Update` | internal/workflow/repository/instance.go:796-861 | takes effect exactly at the expected revision under the worker's lease, and tells a lost lease from a conflict |
| `Checkpoint.InstanceRow.CheckpointAt` | internal/workflow/engine/engine.go:931-975 | the retry loop does what the protocol does under any interference, in at most three fenced writes, and commits at most once |
| `Checkpoint.CommitIsFenced` | internal/workflow/engine/engine.go:943-969 | a commit happens under the worker's lease, releases it, keeps the row's pause flag; terminal statuses pass unchanged, a park keeps its status when the first attempt commits and follows flag and debug mode when a retry does |
| `Checkpoint.ParkFollowsPauseFlag` | internal/workflow/engine/engine.go:936-942 | outside debug mode a park is committed paused exactly when the row's pause flag is set at the commit |
| `Checkpoint.DebugInputParkTurnsPaused` | internal/workflow/engine/engine.go:1150-1159 | in debug mode an input park that meets a conflict becomes paused with no pause requested |
| `Checkpoint.InputParkExactly` | internal/workflow/engine/engine.go:1150-1159 | an input park takes no status from debug mode if and only if debug is off, the row asks for a pause anyway, or the first attempt meets no conflict |
| `Checkpoint.ReturnReleases` | internal/workflow/engine/engine.go:967-975 | an error return committed nothing, a return without error leaves no row leased to the worker unless giving the lease back failed |
| `Checkpoint.ErrorWritesNothing` | internal/workflow/engine/engine.go:943-945 | an error return is the first update or reload that fails, and leaves the row exactly as control writes left it by then |
| `Checkpoint.NothingButTheLease` | internal/workflow/repository/instance.go:1101-1114 | a checkpoint that does not commit leaves status, pause flag and payload as control writes left them at some moment, and at most gives the worker's lease back |
| `Checkpoint.UncommittedStaysClaimable` | internal/workflow/engine/engine.go:967-975 | under pauses and resumes alone, the row then stays running with its payload and the flag of the last pause or resume, and any worker's claim takes it |
| `Checkpoint.LeaseKeptExactly` | internal/workflow/engine/engine.go:967-975 | under pauses and resumes alone, the row is still leased to the worker on return if and only if an error is returned, the conflict of a failed reload included, or giving the lease back failed |
| `Checkpoint.NeverAfterLeaseLost` | internal/workflow/engine/engine.go:932-935 | a worker that makes no new claim commits only if it held the lease at every moment until then |
| `Checkpoint.CommitsAfterLossExactly` | internal/workflow/repository/instance.go:838-861 | a commit implies that the lease was held throughout if and only if the worker name did not claim the row again on the way |
| `Checkpoint.SameNameReclaimCommits` | internal/workflow/repository/instance.go:838-861 | a lease lost and claimed back under the same name still takes the first transition's commit |
| `Checkpoint.CommitsExactlyWhenQuiet` | internal/workflow/engine/engine.go:936-975 | under pauses and resumes alone, the checkpoint commits if and only if some attempt's update follows its read with none in between |
| `Bulkhead.HTTPBulkhead.constructor` | internal/workflow/executor/httpbulkhead.go:45-60 | starts empty; caps that are not positive become the defaults |
| `Bulkhead.HTTPBulkhead.TryGlobal` | internal/workflow/executor/httpbulkhead.go:74-78 | takes a global token exactly when one is free |
| `Bulkhead.HTTPBulkhead.BucketFor` | internal/workflow/executor/httpbulkhead.go:98-111 | the caller gets its host's own bucket when there is one or room for one, and the shared one otherwise |
| `Bulkhead.HTTPBulkhead.TryBucket` | internal/workflow/executor/httpbulkhead.go:80-82 | takes a token of the caller's bucket exactly when one is free |
| `Bulkhead.HTTPBulkhead.GiveUp` | internal/workflow/executor/httpbulkhead.go:83-85 | an expired wait hands back the global token it holds and nothing else |
| `Bulkhead.HTTPBulkhead.ReleaseSlots` | internal/workflow/executor/httpbulkhead.go:87-93 | the first release returns both tokens, any later one changes nothing |
| `Bulkhead.StepKeepsInv` | internal/workflow/executor/httpbulkhead.go:73-111 | every step of any caller keeps each token held by exactly one caller, both caps, and every caller at the bucket its host is bound to |
| `Bulkhead.CapsHold` | internal/workflow/executor/httpbulkhead.go:31-44 | over every interleaving, calls in flight stay within the global cap and, per host, within the host cap |
| `Bulkhead.BindingIsFinal` | internal/workflow/executor/httpbulkhead.go:94-111 | a host's bucket, its own or the shared one, never changes once chosen |
| `Bulkhead.HostsMeetOnlyWhenFull` | internal/workflow/executor/httpbulkhead.go:94-111 | in every run, different hosts are in one bucket only when there is no more room, and then only in the shared one |
| `Bulkhead.ChoiceIsFinal` | internal/workflow/executor/httpbulkhead.go:98-111 | every later caller to a host, in any run, is sent to the bucket first chosen for it |
| `Bulkhead.ReleaseNeverWaits` | internal/workflow/executor/httpbulkhead.go:87-93 | each receive of a release finds a token |
| `Bulkhead.ReleaseHappensOnce` | internal/workflow/executor/httpbulkhead.go:87-93 | after any further run a repeated release has no effect |
| `Bulkhead.NothingLeaks` | internal/workflow/executor/httpbulkhead.go:73-93 | when all callers have left, no token is taken |
| `Bulkhead.NeverStuck` | internal/workflow/executor/httpbulkhead.go:67-72 | while anyone waits some caller can move without expiring, so the two waits cannot deadlock |
| `HttpRetry.Do` | internal/workflow/executor/http.go:140-168 | every path returns with no permit held after at most three round trips, and the answer is that of the last round trip; throttled answers are returned only when no retry was allowed, affordable or admitted |
| `KeySet.TtlKeySet.Refresh` | internal/workflow/auth/keyset.go:161-169 | under the lock, reads exactly when the keys are still stale |
| `KeySet.TtlKeySet.WantsReread` | internal/workflow/auth/keyset.go:179-197 | a search of the held keys: a token without a key id, or with a held one, never leads to a re-read; any other does unless the window is spent |
| `KeySet.TtlKeySet.Reread` | internal/workflow/auth/keyset.go:198-208 | under the lock, re-reads exactly when no re-read succeeded within the TTL |
| `KeySet.TtlKeySet.Replace` | internal/workflow/auth/keyset.go:212-224 | a failed read moves no stamp and keeps the keys |
| `KeySet.RunsKeepRate` | internal/workflow/auth/keyset.go:151-224 | in every order of passages through the lock, reads that forbid each other are a TTL apart |
| `KeySet.ReadsExactly` | internal/workflow/auth/keyset.go:151-208 | after any passages, an expiry passage reads if and only if no read succeeded within the TTL, and a re-read is made if and only if no re-read succeeded within it |
| `KeySet.AtMostTwoReadsPerWindow` | internal/workflow/auth/keyset.go:69-79 | any window of one TTL sees at most two successful reads, begun or answered, the second being a re-read for an unknown key, and the TTL is at least a minute |
| `KeySet.SecondReadExactly` | internal/workflow/auth/keyset.go:169-208 | after any passages, the next successful read comes within the TTL of an earlier one if and only if it is a re-read for an unknown key and the held keys are not stale when it is answered |
| `KeySet.TwoReadsHappen` | internal/workflow/auth/keyset.go:87-101 | two reads in one window do happen |
| `KeySet.FailuresAreNotThrottled` | internal/workflow/auth/keyset.go:157-169 | any number of failing reads can happen at one instant |
| `DefCache.Cache.constructor` | internal/workflow/defcache/defcache.go:35-40 | starts empty with room for at least one entry |
| `DefCache.Cache.GetOrCompute` | internal/workflow/defcache/defcache.go:47-80 | whatever calls take effect between the two look-ups, the call takes effect at once as one hit or one miss and returns the key's meaning, or nothing exactly when the key is absent and computing fails |
| `DefCache.Cache.Complete` | internal/workflow/defcache/defcache.go:55-80 | under the write lock: a second look, then the oldest key makes room, a failure stores nothing, and the keys held are the latest insertions |
| `DefCache.RunsAreBounded` | internal/workflow/defcache/defcache.go:20-31 | over any calls, hits and misses add up to the calls, and at most the cap of keys is held, none twice |
| `DefCache.CalledHolds` | internal/workflow/defcache/defcache.go:55-80 | a call leaves its key held unless its computation failed; nothing else comes in, and only the oldest key goes, when there was no room |
| `DefCache.KeyStaysHeld` | internal/workflow/defcache/defcache.go:8-13 | a stored key is held until as many others as the cap were stored after it |
| `SchemaHoist.HoistConfigDefs` | internal/workflow/model/nodeschema.go:288-300 | moves every author definition under its prefixed name and rewrites references in the schema and the definitions |
| `SchemaHoist.DefResolves` | internal/workflow/model/nodeschema.go:302-304 | a reference to a plain root definition resolves to that definition, or to nothing when there is none |
| `SchemaHoist.SharedDefsSurvive` | internal/workflow/model/nodeschema.go:231-234 | hoisting clashes with no shared definition and changes none |
| `SchemaHoist.RepointsExactly` | internal/workflow/model/nodeschema.go:305-324 | the rewriting walk repoints every reference to an own definition, at any depth, if and only if none stands below a key `$ref` whose value is not a string |
| `SchemaHoist.HoistingRepointsExactly` | internal/workflow/model/nodeschema.go:288-300 | the same for the whole schema and each definition, where the definition called `$ref` is not rewritten at all |
| `SchemaHoist.MeaningKept` | internal/workflow/model/nodeschema.go:305-324 | a schema that captures and shadows nothing unfolds equally before and after rewriting, to any depth of references |
| `SchemaHoist.HoistingPreservesMeaning` | internal/workflow/model/nodeschema.go:240-300 | for every author schema: it and each definition mean the same in the envelope if no undefined name is one the envelope defines, all own references are repointed and all other references dangle before and after; and only then, unless own names are also the envelope's or a reference leads somewhere in both |
| `SchemaHoist.BelowRefNothingIsRewritten` | internal/workflow/model/nodeschema.go:308-315 | a reference below a property named `$ref` resolves before hoisting and dangles after it |
| `SchemaHoist.RootReferencesAreRedirected` | internal/workflow/model/nodeschema.go:302-304 | references to the root, or to a property of it, are not rewritten and lead to the envelope, or to the node's property of that name or nothing |
| `SchemaHoist.ReferencesIntoDefsAreLost` | internal/workflow/model/nodeschema.go:308-315 | a reference to a place inside a definition is not rewritten: it leads into the author's definition before, and in the envelope into one of that name or nowhere |
| `SchemaInfer.InferType` | pkg/contextschema/schema.go:61-117 | with accumulators and deduplication, computes the inferred schema |
| `SchemaInfer.InferJSONSchema` | pkg/contextschema/schema.go:34-44 | the schema of an object with keys, and the unconstrained one for everything else |
| `SchemaInfer.ChoicesAreTheSchemas` | pkg/contextschema/schema.go:78-96 | deduplication and sorting keep exactly the item schemas, each once |
| `SchemaInfer.KeptAreTheFirst` | pkg/contextschema/schema.go:100-108 | the keys looked at are the first fifty in ascending order, or all when there are no more |
| `SchemaInfer.AcceptsExactlyTheShape` | pkg/contextschema/schema.go:61-117 | the inferred schema accepts a value if and only if it has the sample's shape, down to the depth cap and for the kept keys |
| `SchemaInfer.InferenceIsSound` | pkg/contextschema/schema.go:31-44 | every value validates against the schema inferred from it |

Preconditions of the form `WellParsed` and `FailureRoutesAllowed` are what parsing a node already
guarantees (internal/workflow/model/nodecontent.go): valid ids, a group start inside its group,
branches on a parallel start, failure routes only on calls, pollers and custom types.
Results about parent runs assume a tree without opaque nodes, as the engine has after materialization;
a branch run stops at such a node.

## Left out

- Node field checks, context mode and id syntax: ids are non-empty strings, and error texts are reduced to acceptance and refusal.
- `HistoryRuns.ReplayIsExactInRuns`: says nothing about replay over the row of a delivery that has no diff and yet changes the context, after which any answer is possible; what it does at once is `HistoryRuns.DeliveryIsFaithful`.
- Branch recovery: engine.go:406-414 restores the full ancestor chain, which differs from the branch's own stack, so branch moves do not include it.
- `ContextPath.SetThenGet`: contexts are trees of values, so writes in place through shared maps are not modelled; the code works on a deep clone. A huge array index is written without running out of memory. A write that fails may leave a container it created in the clone it was given.
- `ContextDiff.Apply`: deletes and writes nested maps as values; `deleteParsed` and `setPath` change the clone in place.
- `Convergence.WalkBranch`: visited cursors are a set of pairs, where the code joins node and stack into one string.
- `GraphBuilder.Graph.constructor`: the index of the model package (parallel.go:108-129) is not built a second time; each node carries its scope's keys.
- `Validation.ValidateParallelScope`: target checks and pairing of joins run as two passes over the scope; only acceptance is compared.
- `ParentRuns.RunsAreBounded`: recovery and operator writes are excluded; the join's counters, which do not reach the caller's total, are not modelled.
- History rows are in cursor order by position, not by timestamp and id; JSON bytes are decoded values compared structurally; the stored start of a commit is the instance's stored context; a crash between superseding and appending the anchor is not modelled.
- `Checkpoint.InstanceRow.Update`: the row is one atomic cell and a failed update is diagnosed in the same step; events, outbox and history rows written in the transaction are not modelled, nor are writers other than pause, resume, stop, claim and release.
- Fork and join transactions, branch rows and their status machine. `Joins` takes an execution's own status only.
- `Bulkhead.HTTPBulkhead.BucketFor`: host names are lowered as ASCII.
- `HttpRetry.Do`: the request, redirects, the length of the back-off and the clock; whether a wait is admitted or fits the budget is an input.
- `KeySet.AtMostTwoReadsPerWindow`: signatures and the parsed document; failed reads are not counted.
- `DefCache.Cache.GetOrCompute`: goroutines are calls that take effect under the lock, and a computation that succeeds gives the key's fixed meaning.
- `SchemaHoist.HoistingPreservesMeaning`: where a reference leads somewhere in both documents, because the author uses a name of the envelope or refers to the root, the two targets may happen to agree; only then is the condition not necessary. Maps are rewritten as values; array indices, anchors, percent-encoding and `$id` are not resolved, and the envelope's compile check is not modelled.
- `SchemaInfer.InferType`: the text a schema is sorted by is any injective encoding; numbers are one kind.
- TypeScript rendering, templates, hooks, scripts, executors, brokers and pollers, HTTP handlers, SQL, claims and permissions.
