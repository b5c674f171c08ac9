# Verified model of sbx_omnigent

sbx_omnigent runs coding agents in sandboxes and drives them through a pipeline. Nothing an
agent does can be trusted to be orderly: it may rewrite its git history, go silent, report
that it is done before its reply lands, or finish a turn it never started. The launcher's own
code is what keeps a run together, and this project models that code in Dafny and proves what
it guarantees over every input, every run and every interleaving.

| Component | Files | Modelled as |
|---|---|---|
| The hub and the node clones (`worktrees.py`) | `CommitGraph`, `Clones`, `HubSpec`, `HubSafety`, `HubTheorems`, `Worktrees` | commits are values named by their content; each git command is a function on one clone; each node operation is a method of `WorktreeManager` proved equal to a specification on the whole run; the agent is a step that leaves its clone in any state at all |
| The wait for a turn's end (`swarm_session.py`) | `Items`, `TurnSpec`, `TurnWait`, `TurnTheorems`, `TurnEndings` | the class `TurnWait` with the source's fields and handlers, proved equal step by step to a transition function; theorems tell its fields, its verdicts and its four clocks from the history of events |
| Posting a turn again | `Delivery` | methods over a script of attempts, on top of `TurnWait` |
| The plan gate | `Approval`, `PlanGate` | loops over the item store and its 200-item window |
| The event stream | `Sse` | a line parser with its serialiser and the text between them, and a delta buffer class |
| Waits for something to hold still | `Settle` | the session-idle and node-settle loops |
| Concurrent `sbx create` (`launcher.py`) | `CreateLock` | any number of threads, one atomic move at a time |
| Output trimming (`verify.py`) | `SalientTail` | Python slices with negative bounds included |
| Subtask ids (`pipeline.py`) | `ItemLines`, `SubtaskIds` | the item lines of a text, the cleaning and the search for a free name |
| The harvester (`agy.py`) | `Harvester` | the cadence and backoff loop |
| Mention neutralising (`worktrees.py`) | `MentionText`, `MentionShapes`, `MentionTheorems`, `SecondRun`, `Mentions`, `MentionsAgain` | the three regular expressions as left-to-right scans, the fence loop, and both run a second time |

`Text` and `Option` are shared helpers. Time is real seconds. The clock, the event queue, what a
poll of the server shows, the outcome of a content merge and the agent's moves are all
parameters, so each theorem holds for whatever they do; where a theorem needs a clock that does
not run backwards, or a wait that lasts as long as it was asked to, it says so.

## What the code does that its documentation does not say

Each of these is proved, with the exact condition or a concrete run.

- `commit_node` is also refused when edits were staged and then undone in the working tree:
  `git status` lists something, so the commit is attempted, and there is nothing to commit. When
  it succeeds for a clone, wherever its HEAD is, is `HubTheorems.CommitNodeSucceedsIff`. With HEAD
  off the node's branch it can succeed, report no change and leave the work behind: exactly when
  the work does not land on that branch (`HubTheorems.CommitNodePublishesTheBranch`).
- A hub branch moves anywhere but forward on exactly two events: a forced re-cut whose branch
  is stale and whose seed does not contain it, and an alias moved off its own history
  (`HubSafety.ForwardUnlessDiscarded`).
- The reply grace runs from when the wait for the idle edge began, not from when the edge
  arrived, so the reply has its full grace only if that wait took no time (`TurnTheorems.FullGraceIff`),
  and may have none of it (`TurnTheorems.GraceCanBeSpentOnArrival`). While it is pending, silence
  ends the turn well even when the turn's own deadline came first
  (`TurnTheorems.SilenceFiresTheLeastClock`).
- The silence clock is also restarted by an approval (`TurnTheorems.SilenceSinceApproval`). The
  cap of 25 is documented as the most prompts a turn answers, but bounds its rounds of approval:
  more than 25 prompts are answered exactly when one round overshoots
  (`TurnTheorems.CapPassedIff`). One round can answer any number above 25
  (`TurnTheorems.OneRoundCanPassTheCap`); one prompt a poll keeps the cap
  (`TurnTheorems.PromptsBounded`).
- The plan gate's baseline screens only items with string ids, and nothing when the first read
  failed (`PlanGate.QuietSessionReleasesIff`).
- The SSE parser strips every line end character from the end of a line and dispatches events
  with no data, so the round trip holds exactly for frames with one-line events whose lines do not
  end in one (`Sse.RoundTripIff`).
- `salient_tail` does drop text the plain tail keeps, and it can exceed its limit: it returns
  `limit - 13` characters exactly when room is left for the tail (`SalientTail.WithinBudgetIff`).
- `neutralize_mentions` run again can change its own output. On text with no backtick it does so
  exactly when two mentions run together, as in `@a@b`, and the same holds where every backtick is
  in a code span or comment that no mention touches (`MentionsAgain.SecondRunOnTextIff`). A stray
  backtick before a mention is worse: it pairs with the inserted one and leaves the mention live
  (`SecondRun.StrayTickFreesAMention`, `MentionsAgain.StrayBacktickChanges`).
- The gap between creates is skipped while the last completion stamp is not positive, so the
  stagger is kept by every interleaving exactly when the clock starts above zero
  (`CreateLock.AlwaysSpacedIff`).

## Model

| member | source | states |
|---|---|---|
| `CommitGraph.AncestorTrans` | sbx_omnigent/worktrees.py:1843-1861 | what `git merge-base --is-ancestor` answers composes: an ancestor's ancestor is an ancestor |
| `CommitGraph.AncestorAntisym` | sbx_omnigent/worktrees.py:1843-1861 | two commits that are each other's ancestor are one commit, so "behind" and "contains" cannot both hold of different tips |
| `CommitGraph.RelatedIffMeet` | sbx_omnigent/worktrees.py:1827-1841 | the recursive test for related histories, which the merge insists on, succeeds exactly when some commit lies behind both |
| `CommitGraph.RelatedForward` | sbx_omnigent/worktrees.py:1827-1841 | histories that meet still meet after either side moves forward |
| `HubSafety.ForwardUnlessDiscarded` | sbx_omnigent/worktrees.py:1702-1861 | for every state, event and branch: the event keeps the branch moving forward if and only if it is not one of the two discarding forced moves |
| `HubSafety.RunForward` | sbx_omnigent/worktrees.py:1702-1861 | over any run of arbitrary agents and host operations with no discarding event on a branch, the branch ends at a descendant of where it began |
| `HubSafety.NothingIsLost` | sbx_omnigent/worktrees.py:1712-1731 | a commit that was behind a hub branch at any point of a run is still behind it at every later point |
| `HubSafety.OtherUntouched` | sbx_omnigent/worktrees.py:1702-1777 | one event changes no hub branch but that of the node it works for |
| `HubSafety.OthersUntouched` | sbx_omnigent/worktrees.py:1702-1777 | over a run, a branch no event works for, base branches included, is neither created, moved nor removed |
| `HubTheorems.CommitNodeOnBranch` | sbx_omnigent/worktrees.py:1732-1841 | with HEAD on the branch and related histories, after any rewrite: refused exactly when there is nothing to commit after all or the work is a strict ancestor of the hub tip, and then the hub is unchanged; otherwise the hub shows exactly the agent's tree with both histories behind it, a merge is recorded only when the work lacks the tip, the tip is unchanged only when the work is the tip, and the clone matches and is not ahead |
| `HubTheorems.CommitNodeSucceedsIff` | sbx_omnigent/worktrees.py:1732-1841 | for every clone and every place its HEAD can be, told before the call: `commit_node` succeeds exactly when there is something to commit or nothing pending, the work is neither strictly behind the hub's tip nor unrelated to it, and the branch pushed is HEAD's or already has the tip behind it |
| `HubTheorems.CommitNodePublishesTheBranch` | sbx_omnigent/worktrees.py:1738-1777 | for every clone it succeeds on, told before the call: the branch published is what the work lands on when HEAD is on the branch and the branch as it was otherwise, and the hub then holds all of the clone exactly when HEAD was on the branch or the work lands on that branch already |
| `HubTheorems.CommitNodeAgain` | sbx_omnigent/worktrees.py:1738-1777 | committing again after a success that matches the hub changes nothing at all |
| `HubTheorems.CommitNodeOffBranchLosesWork` | sbx_omnigent/worktrees.py:1738-1777 | from a detached HEAD with edits the commit succeeds, no hub branch moves, and the clone is left ahead of the hub |
| `HubTheorems.MergeIntoJoins` | sbx_omnigent/worktrees.py:1973-2003 | a join that succeeds with HEAD on the target's branch has the source's tip, the old target tip and the target's HEAD behind the new tip; a merge commit of exactly HEAD and the source is recorded only when HEAD lacked the source, and shows the merged content |
| `HubTheorems.MergeRefusedIff` | sbx_omnigent/worktrees.py:1973-2003 | from HEAD on the branch and ahead of the hub, a join of related histories is refused exactly on something to join and a staged edit or a conflict, and then no hub branch moves |
| `HubTheorems.MergeMatchesHub` | sbx_omnigent/worktrees.py:1973-2003 | a join from a clean clone on its branch, whose files are the merged tree, leaves the clone matching the hub |
| `HubTheorems.CreateMatchesHub` | sbx_omnigent/worktrees.py:1280-1329 | a successful cut, fresh, resumed or replaced, is on its own branch, clean, and at the hub's tip |
| `HubTheorems.CreateCutsFrom` | sbx_omnigent/worktrees.py:1280-1329 | for every success, the commit the branch is at: its old tip when replacing a branch that has no seed or contains the seed's tip, the seed's tip in every other seeded case, the base branch's tip otherwise; and no other branch or clone is touched |
| `HubTheorems.CreateFailsIff` | sbx_omnigent/worktrees.py:1270-1329 | a cut fails exactly when the clone is there and may not be replaced, when its start is missing, or when an unforced push would not be a fast-forward; and then the hub is unchanged |
| `HubTheorems.CreateInheritsSeed` | sbx_omnigent/worktrees.py:1280-1329 | a successful seeded cut has the seed's tip behind the node's hub tip, in all of the fresh, resume and stale cases |
| `HubTheorems.ContractReachesChainEnd` | sbx_omnigent/worktrees.py:1248-1261 | a commit frozen on one branch is behind the last branch of any chain of seeded cuts, with arbitrary events between the cuts |
| `HubTheorems.LeftAlone` | sbx_omnigent/worktrees.py:1468-1501 | over a run of events that do not touch a node, its clone and its branch stay exactly as they were |
| `HubTheorems.ReseedLands` | sbx_omnigent/worktrees.py:1491-1501 | for every clone: a reseed fails exactly when the clone or the upstream is missing; otherwise HEAD is the upstream's tip, the index its tree, its files are in place, no other tracked file is left, untracked files are kept, and no hub branch moves |
| `HubTheorems.ReseedIsLateCut` | sbx_omnigent/worktrees.py:1468-1501 | a node cut early and reseeded after any run of its upstream has the same HEAD, branch, index and files as one cut only then, and its own hub branch is behind the upstream's |
| `HubTheorems.CommitOnTop` | sbx_omnigent/worktrees.py:1813-1825 | work on top of the hub's tip is published as it stands, with no merge commit |
| `HubTheorems.PrewarmPublishesLikeLateCut` | sbx_omnigent/worktrees.py:1468-1501 | whatever the agent adds on top, the pre-warmed node and the late cut both succeed and leave the same hub, no merge is recorded, and the upstream's tip is behind the result |
| `HubTheorems.DisposeLosesNothing` | sbx_omnigent/worktrees.py:1607-1634 | when the clone matches the hub, deleting it and cutting it again with no seed, or a seed the branch holds, restores HEAD, index and files and moves no hub branch |
| `HubTheorems.DisposeThenStaleRecut` | sbx_omnigent/worktrees.py:1300-1312 | that condition is needed: with a seed the branch lacks, the re-cut succeeds and replaces the branch by the seed |
| `HubTheorems.AliasThenCut` | sbx_omnigent/worktrees.py:1503-1532 | an alias fails exactly when its target is missing; otherwise a cut of the alias starts at the target's tip, whatever the name held before, and no other branch moves |
| `HubTheorems.AheadOrMatches` | sbx_omnigent/worktrees.py:1578-1634 | uncommitted edits do not make a clone ahead, and a clean clone matches the hub exactly when it is not ahead |
| `Worktrees.WorktreeManager.BranchContains` | sbx_omnigent/worktrees.py:1109-1144 | true exactly when both branches exist and the one's tip is an ancestor of the other's |
| `Worktrees.WorktreeManager.PushBranch` | sbx_omnigent/worktrees.py:1769-1776 | without force only a fast-forward or a new branch is taken; on refusal the whole state is as it was |
| `Worktrees.WorktreeManager.CreateNodeWorktree` | sbx_omnigent/worktrees.py:1235-1329 | the new state and the error are those of the specification `HubSpec.CreateNode`, whose properties are the rows above |
| `Worktrees.WorktreeManager.ReseedNodeWorktree` | sbx_omnigent/worktrees.py:1468-1501 | the new state and the error are those of `HubSpec.Reseed`; a missing upstream changes nothing |
| `Worktrees.WorktreeManager.CommitNode` | sbx_omnigent/worktrees.py:1702-1777 | the git steps in the source's order reach the state of `HubSpec.CommitNode`, and the result is true exactly when it succeeded and the hub's branch differs from what it was |
| `Worktrees.WorktreeManager.IntegrateRewrite` | sbx_omnigent/worktrees.py:1779-1841 | leaves the hub alone and makes the clone contain the hub's tip, or refuses a clone that is behind, has no commit or is unrelated |
| `Worktrees.WorktreeManager.MergeNodeInto` | sbx_omnigent/worktrees.py:1949-2003 | the new state and the error are those of `HubSpec.MergeInto`, a conflict's half-merged clone included |
| `Worktrees.WorktreeManager.NodeAheadOfHub` | sbx_omnigent/worktrees.py:1578-1605 | true exactly when HEAD and the hub's tip both exist and differ |
| `Worktrees.WorktreeManager.NodeMatchesHub` | sbx_omnigent/worktrees.py:1607-1634 | true exactly when the clone is clean and its HEAD is the hub's tip |
| `Worktrees.WorktreeManager.AliasNodeBranch` | sbx_omnigent/worktrees.py:1503-1532 | the alias becomes the target's tip, or nothing changes when the target is missing |
| `Worktrees.WorktreeManager.DisposeNodeWorktrees` | sbx_omnigent/worktrees.py:2116-2151 | exactly the named clones are gone, the hub is untouched, and the count is how many there were, repeats and missing names aside |
| `TurnTheorems.StateIsHistory` | sbx_omnigent/swarm_session.py:898-960 | at every point of every turn the wait's fields are facts of its history: completion, text, id and pending grace are told by the events seen; an id excludes a grace, a grace needs completion and no text, started means completion or text, the kept reply is the last text, and the next poll is due 120 s after the last wake |
| `TurnTheorems.EndsOkIff` | sbx_omnigent/swarm_session.py:2219-2313 | a turn ends well on exactly the wakes a declarative predicate on the history names, and returns the last text of the stream or the closing message the poll found |
| `TurnTheorems.TaggedTurnEnds` | sbx_omnigent/swarm_session.py:564-600 | once any status edge carried an id, a turn ends well only on an idle with an id, a stream that ended on an idle session, or a poll at least 120 s after the last wake that found a non-empty closing reply |
| `TurnTheorems.StartedMeansOutput` | sbx_omnigent/swarm_session.py:2289-2296 | a failed turn is reported as started exactly when a completion or a text arrived, carries the last text, and a stall verdict needs the watchdog and no output at all |
| `TurnTheorems.TimeoutOnlyPastDeadline` | sbx_omnigent/swarm_session.py:2055-2067 | a timeout is never raised before the deadline |
| `TurnTheorems.SilenceFiresTheLeastClock` | sbx_omnigent/swarm_session.py:2079-2134 | a silent wake acts on the armed clock that ran out, in every case of which clocks are armed, and none acts early |
| `TurnTheorems.WaitIsTheLeastClock` | sbx_omnigent/swarm_session.py:2079-2097 | every wait ends at the least of the clocks the history arms: past none of them nor the deadline, and equal to one of them |
| `TurnTheorems.ClassifyTable` | sbx_omnigent/swarm_session.py:2315-2373 | the documented table, row by row: open prompts whatever the status; else an idle session whose last item is an assistant message or a tool output; all else is work in progress |
| `TurnEndings.ReportedAndLostIff` | sbx_omnigent/swarm_session.py:2289-2404 | told from the history: a failure with a given text is reported on exactly the failed status edges with it, tagged or not, and the stream ends with it on a failed session with no reply pending; the stream is lost on exactly the ends with no reply pending that find the session neither idle nor failed |
| `TurnEndings.PolledFailuresIff` | sbx_omnigent/swarm_session.py:2136-2217 | told from the history: prompts end a turn on exactly the due polls that find some and do not approve them, as a loop exactly when 25 were answered; a turn is abandoned on exactly the due polls that find a dangling tool output 360 s after the last frame or approval |
| `TurnEndings.StalledAndTimedOutIff` | sbx_omnigent/swarm_session.py:2099-2134 | told from the history: a stall is called on exactly the silences that outlast the stall grace with no output; a turn times out on exactly the wakes past its deadline and the silences nothing else claims |
| `TurnEndings.GoesOnIff` | sbx_omnigent/swarm_session.py:2046-2076 | a turn goes on after exactly the wakes that no good end and none of these failures claims, so the verdict of every wake is told |
| `TurnTheorems.GraceRunsFromWaitStart` | sbx_omnigent/swarm_session.py:593-600 | a pending grace ends one grace after the clock reading taken before the wait for the last bare idle began |
| `TurnTheorems.FullGraceIff` | sbx_omnigent/swarm_session.py:593-600 | the reply has its full grace after the idle arrived exactly when the wait for that idle took no time and the deadline is no sooner |
| `TurnTheorems.GraceEndsTheTurn` | sbx_omnigent/swarm_session.py:2099-2116 | a silence that finds a reply pending ends the turn well, and comes no sooner than the grace or the deadline, whichever is first |
| `TurnTheorems.GraceCanBeSpentOnArrival` | sbx_omnigent/swarm_session.py:593-600 | a concrete timed run in which the idle arrives with no grace left and the turn ends at that instant with an empty reply |
| `TurnTheorems.StallClock` | sbx_omnigent/swarm_session.py:947-960 | while nothing has come out of a turn, the stall clock ends exactly one stall grace after it was last set, by the last frame or the start |
| `TurnTheorems.StallNeedsFullGrace` | sbx_omnigent/swarm_session.py:2117-2130 | a stall verdict comes at least the full stall grace after the start and after every frame, with no output seen |
| `TurnTheorems.SilenceSinceApproval` | sbx_omnigent/swarm_session.py:2189-2202 | every poll that answered prompts moves the silence clock up to at least the time it finished |
| `TurnTheorems.AbandonedNeedsFullSilence` | sbx_omnigent/swarm_session.py:2146-2165 | a turn is called abandoned at least 360 s after its start, after every frame and after every approval, and only on a poll that shows a dangling tool output |
| `TurnTheorems.PollsApart` | sbx_omnigent/swarm_session.py:947-960 | any two polls of a turn are at least 120 s apart |
| `TurnTheorems.PollsTakeTime` | sbx_omnigent/swarm_session.py:2166-2171 | every live silent wake is a poll, and n of them take at least 120·n seconds |
| `TurnTheorems.TurnTerminates` | sbx_omnigent/swarm_session.py:2046-2076 | a turn still running has had fewer polls than its budget over 120 s and otherwise only frames, so it is over within so many wakes more than its frames |
| `TurnTheorems.ApprovalRoundsCapped` | sbx_omnigent/swarm_session.py:2189-2217 | over any turn there are at most 25 rounds of approval, however many prompts each answers |
| `TurnTheorems.CapPassedIff` | sbx_omnigent/swarm_session.py:150-156 | a turn answers more than the documented 25 prompts exactly when some round starts below the cap and answers past it |
| `TurnTheorems.PromptsBounded` | sbx_omnigent/swarm_session.py:150-156 | if no poll answers more than m prompts, a turn answers fewer than 25 + m: one prompt a poll keeps the documented cap |
| `TurnTheorems.OneRoundCanPassTheCap` | sbx_omnigent/swarm_session.py:2189-2194 | for every number above 25 there is a live, well-timed turn whose one round answers that many prompts |
| `TurnWaits.TurnWait.FrameArrived` | sbx_omnigent/swarm_session.py:947-960 | a frame restarts the silence clock, and the stall clock while nothing has started |
| `TurnWaits.TurnWait.TurnWaitSeconds` | sbx_omnigent/swarm_session.py:2079-2097 | the least of the armed clocks, as the specification's `WaitFor` |
| `TurnWaits.TurnWait.OnIdleEdge` | sbx_omnigent/swarm_session.py:564-600 | agrees with the specification on state and verdict for every idle edge |
| `TurnWaits.TurnWait.OnStatusEdge` | sbx_omnigent/swarm_session.py:2275-2313 | agrees with the specification on state and verdict for every status edge |
| `TurnWaits.TurnWait.OnTurnEvent` | sbx_omnigent/swarm_session.py:2219-2272 | agrees with the specification on state and verdict for every event |
| `TurnWaits.TurnWait.ResolveOnStreamEnd` | sbx_omnigent/swarm_session.py:2389-2404 | a stream that ended is resolved by the status a snapshot shows, and is lost when that is neither idle nor failed |
| `TurnWaits.TurnWait.OnAsking` | sbx_omnigent/swarm_session.py:2173-2217 | agrees with the specification on open prompts: approve and go on, or end with the fault that names why |
| `TurnWaits.TurnWait.OnSettledCheck` | sbx_omnigent/swarm_session.py:2136-2171 | agrees with the specification on state and verdict for every poll |
| `TurnWaits.TurnWait.OnTurnSilence` | sbx_omnigent/swarm_session.py:2099-2134 | agrees with the specification on state and verdict for every silent wake |
| `TurnWaits.TurnWait.AwaitTerminal` | sbx_omnigent/swarm_session.py:1995-2076 | over any script of wakes a clock can produce, the loop stops at the first wake that has a verdict and returns it, knows what the specification knows until then, and never times out before the deadline |
| `Delivery.ConcludeIsFirst` | sbx_omnigent/swarm_session.py:1771-1789 | what a delivery concludes is the verdict of the first wake that has one |
| `Delivery.GoodIsReturned` | sbx_omnigent/swarm_session.py:1771-1789 | a turn that ends well returns the closing message the poll found, or the last text of its stream, or the stored reply exactly when that is empty |
| `Delivery.FailureIsReturned` | sbx_omnigent/swarm_session.py:1771-1789 | a turn that fails returns its fault and the last text, and counts as started exactly when a text or a completion came |
| `Delivery.SaidNothingIff` | sbx_omnigent/swarm_session.py:1706-1715 | told from the events: a delivery comes to nothing exactly when it ended well on a reply of spaces alone, or failed before any text or completion |
| `Delivery.UndecidedDeliveries` | sbx_omnigent/swarm_session.py:1739-1770 | which deliveries never got to a verdict: no subscription, a refused or late post, or a turn still going on |
| `Delivery.StallIsADroppedSubmit` | sbx_omnigent/swarm_session.py:1771-1789 | a stall verdict needs an armed watchdog and always leads to another delivery |
| `Delivery.DeliverOnce` | sbx_omnigent/swarm_session.py:1717-1789 | subscribes, posts and waits, with the outcome of the specification: a lost subscription, a failed post, a raised verdict, a failure, or a reply read from the store when the stream carried none |
| `Delivery.SendAndWait` | sbx_omnigent/swarm_session.py:1628-1715 | tries at most max(1, max_resubmits + 1) deliveries and posts no more often; one is followed by another exactly when it ended well on a blank reply or failed before any output and was not the last; a reply with anything but spaces in it ends the loop and is what the caller gets; and a stall never reaches the caller |
| `Approval.CollapseShape` | sbx_omnigent/swarm_session.py:380 | splitting and joining leaves the one word found between spaces, or a text with a space in it |
| `Approval.NormalisedIffOnly` | sbx_omnigent/swarm_session.py:359-380 | for every message and one-word phrase: it passes exactly when it is decoration, spaces, the phrase in any case, spaces, decoration, and nothing else |
| `Approval.AsTypedInChat` | sbx_omnigent/swarm_session.py:348-351 | the word passes in any case, with all the decoration around it, starred, quoted or exclaimed |
| `Approval.ProseIsNoApproval` | sbx_omnigent/swarm_session.py:359-380 | prose with the word in it, and the word with a question mark, do not pass |
| `Approval.CaseNeverMatters` | sbx_omnigent/swarm_session.py:380 | texts that differ in the case of ASCII letters compare alike |
| `PlanGate.ApprovalTurn` | sbx_omnigent/swarm_session.py:420-474 | returns the last unseen bare approval with the last non-empty assistant message before it, or nothing exactly when no such pair exists |
| `PlanGate.SeenAtBaseline` | sbx_omnigent/swarm_session.py:1345-1356 | on an append-only store with ids, an old item that a later 200-item window shows was in the first window too |
| `PlanGate.OnlyNewTurnsRelease` | sbx_omnigent/swarm_session.py:1313-1318 | then only a user message added after the baseline read releases the gate, and the plan returned is the last one said before it in the whole session |
| `PlanGate.NewApprovalReleases` | sbx_omnigent/swarm_session.py:454-474 | conversely: on a store that extends the first read with new ids, the last bare approval after it is decided on, with the last non-empty assistant message before it, when the 200 newest items hold both |
| `PlanGate.MovesIff` | sbx_omnigent/swarm_session.py:1377-1386 | a poll restarts the idle cap exactly when it shows an id that neither the first read nor any earlier poll did |
| `PlanGate.QuietSessionReleasesIff` | sbx_omnigent/swarm_session.py:1347-1356 | on a session nothing was added to, the gate releases exactly on what the baseline cannot screen: any bare message when the first read failed, otherwise only one without an id |
| `PlanGate.WaitForPlanDecision` | sbx_omnigent/swarm_session.py:1300-1391 | returns the decision of the first poll that holds one: on a store only added to, a message added after the first read, and a new approval is decided on by the first poll that shows it; every poll is made within an idle cap of the start or of news, and it gives up only a full cap after both |
| `Settle.WaitForSessionIdle` | sbx_omnigent/swarm_session.py:1393-1432 | true at exactly the first poll that ends a stretch of idle reads spanning the window, false only at a test past the deadline, and a failed read breaks the stretch |
| `Settle.WaitForNodeSettle` | sbx_omnigent/worktrees.py:1653-1700 | returns at exactly the first look that finds edits and the same tree as every look for a whole window, at a test past the deadline, or at once when there is no clone |
| `Sse.ParseSse` | sbx_omnigent/swarm_session.py:712-745 | the loop yields what the line-by-line specification does, the flush at the end included |
| `Sse.CommentsNeverMatter` | sbx_omnigent/swarm_session.py:725-745 | a comment line can be added or removed anywhere |
| `Sse.SplitsAtBlank` | sbx_omnigent/swarm_session.py:725-745 | parsing splits over every blank line |
| `Sse.ChompShape` | sbx_omnigent/swarm_session.py:728 | a line is taken without its newlines and the carriage returns before them, and nothing else |
| `Sse.FieldShape` | sbx_omnigent/swarm_session.py:737-739 | a field is what is before the first colon and its value what is behind it, less one space; a line with no colon is a field with no value |
| `Sse.OtherFieldsNeverMatter` | sbx_omnigent/swarm_session.py:740-743 | a line of any other field can be added or removed anywhere |
| `Sse.FlushedAtEnd` | sbx_omnigent/swarm_session.py:744-745 | what is pending at the end of the stream is dispatched as a blank line would have it |
| `Sse.LastEventIsFlushed` | sbx_omnigent/swarm_session.py:744-745 | a last event with neither data nor a blank line is not lost |
| `Sse.FrameParses` | sbx_omnigent/swarm_session.py:712-745 | a written frame parses to one frame, the same but for line ends at the end of its lines |
| `Sse.AllParse` | sbx_omnigent/swarm_session.py:712-745 | so does any list of frames, in order |
| `Sse.EventsAreOneLine` | sbx_omnigent/swarm_session.py:712-745 | whatever text arrives, no event parsed from it has a newline in it |
| `Sse.WireIsReceived` | sbx_omnigent/swarm_session.py:864-890 | lines sent one by one are the lines received |
| `Sse.RoundTripIff` | sbx_omnigent/swarm_session.py:712-745 | sending frames as text, splitting what arrives at newlines and parsing it gives the frames back exactly when every event is one line and no line of a frame ends in a carriage return or newline |
| `Sse.DeltaBuffer.DeltaEvent` | sbx_omnigent/swarm_session.py:528-545 | one chunk is neither lost nor repeated between the reply and the buffer; a reply comes only with a final chunk and is never empty, and a final chunk empties the buffer |
| `Sse.DeltaBuffer.ReadChunks` | sbx_omnigent/swarm_session.py:528-545 | over any stream the replies followed by the buffer are all the text that arrived, in order |
| `CreateLock.MoveKeepsSound` | sbx_omnigent/launcher.py:819-829 | every move of every thread keeps: only the owner is past the lock, the stamp is the last create's, and each create is spaced from the one before |
| `CreateLock.OneCreateAtATime` | sbx_omnigent/launcher.py:116-125 | in every interleaving at most one thread is creating, and it owns the lock |
| `CreateLock.CreatesAreSpaced` | sbx_omnigent/launcher.py:1181-1196 | in every interleaving creates do not overlap, failed ones included, and on a positive clock each starts its own launcher's stagger after every earlier one was stamped |
| `CreateLock.CurrentCreateIsSpaced` | sbx_omnigent/launcher.py:1181-1196 | the same of the create under way |
| `CreateLock.SleepsExactly` | sbx_omnigent/launcher.py:1190-1196 | in every interleaving a thread sleeps until exactly its stagger after the last completion stamp, and not at all when that is past or there is none |
| `CreateLock.OwnerCanFinish` | sbx_omnigent/launcher.py:819-829 | from any sound state the lock's owner can give it back with no other thread moving, and without the clock passing what is left of its gap |
| `CreateLock.LockIsNeverStuck` | sbx_omnigent/launcher.py:819-829 | so no interleaving leaves the lock held for good |
| `CreateLock.AlwaysSpacedIff` | sbx_omnigent/launcher.py:1190-1196 | every interleaving from a given clock keeps each create a full stagger after every one before it, if and only if that clock is above zero |
| `CreateLock.GapSkippedBeforeZero` | sbx_omnigent/launcher.py:1190-1191 | on every clock that is not positive, and for every gap, two threads can create one after the other in no time |
| `SalientTail.Trim` | sbx_omnigent/verify.py:149-201 | a text within the limit is returned; otherwise the result is the plain tail, or the last salient lines lost from it that fit half the budget, in reading order, with a note and what tail is left |
| `SalientTail.LongestFitIsLongest` | sbx_omnigent/verify.py:175-184 | what the loop lifts is the longest suffix of the salient lines that fits, not just one that cannot grow |
| `SalientTail.RescuedAre` | sbx_omnigent/verify.py:168-172 | the lines rescued are the salient ones among those of the text before the plain tail, as often as they occur |
| `SalientTail.SalientInOrder` | sbx_omnigent/verify.py:168-172 | and in their order |
| `SalientTail.LiftedLineAt` | sbx_omnigent/verify.py:183-201 | every lifted line stands whole behind the note, in reading order |
| `SalientTail.NoteTellsBoth` | sbx_omnigent/verify.py:186-192 | the note tells how many lines were lifted and how many were not |
| `Text.LinesAreKept` | sbx_omnigent/verify.py:170-171 | lines are split at the line ends alone: with them, they make up the text |
| `SalientTail.LiftedLength` | sbx_omnigent/verify.py:190-201 | the exact length of a lifted result, for every sign of the room left |
| `SalientTail.WithinBudgetIff` | sbx_omnigent/verify.py:190-201 | the limit is kept exactly when it is positive and nothing is lifted, or room is left for the tail; and then a lifted result is limit - 13 long |
| `SalientTail.EndsWithTheTextsEnd` | sbx_omnigent/verify.py:165-201 | the result ends with the end of the text, over a hundred characters less of it than the plain tail once lines are lifted |
| `SubtaskIds.CleanIsTidy` | sbx_omnigent/pipeline.py:215-216 | cleaning keeps every letter and digit in order, puts single dashes between them and none at the ends, and comes to nothing exactly when there are none |
| `SubtaskIds.CleanKeepsIff` | sbx_omnigent/pipeline.py:215-216 | cleaning leaves exactly the tidy ids as they are |
| `SubtaskIds.CandidatesDiffer` | sbx_omnigent/pipeline.py:218-220 | no two names tried for one base are the same, since different numbers are written differently |
| `SubtaskIds.CandidatesCount` | sbx_omnigent/pipeline.py:218-220 | the second name tried ends in 2 and each after it in the next number |
| `SubtaskIds.UniqueId` | sbx_omnigent/pipeline.py:218-220 | the search ends for every set of taken names, at the first free one, after trying at most one name more than are taken |
| `SubtaskIds.FreeNameIsKept` | sbx_omnigent/pipeline.py:216-220 | an id no earlier subtask has is kept as cleaned, and one that cleans to nothing is called after its position if that is free |
| `ItemLines.ItemIff` | sbx_omnigent/pipeline.py:57-60 | a line is an item exactly when it is blanks, a list marker, blanks, an id in brackets and a rest, and then its id and title are those of any such reading |
| `ItemLines.TitleShape` | sbx_omnigent/pipeline.py:216-224 | the title is what the rest of the line holds between its blanks, or the id when that is nothing |
| `ItemLines.StripShape` | sbx_omnigent/pipeline.py:214-224 | spaces are dropped at both ends and nowhere else |
| `ItemLines.CaseNeverMatters` | sbx_omnigent/pipeline.py:215 | ids that differ in the case of ASCII letters are the same id |
| `SubtaskIds.ParseSubtaskItems` | sbx_omnigent/pipeline.py:196-225 | for every text: one subtask an item line in input order, with ids that are pairwise distinct, non-empty, made of letters, digits and dashes, and each the first free name for its item among those before it |
| `Harvester.DoubleThenCap` | sbx_omnigent/agy.py:1366-1381 | capping at every doubling is capping once at the end |
| `Harvester.FailuresInARow` | sbx_omnigent/agy.py:1366-1382 | the count behind a pause is that of the failures in a row right before it |
| `Harvester.RunForever` | sbx_omnigent/agy.py:1351-1387 | over any outcomes, the pause after the k-th failure in a row is min(30·2^k, 600), a success pauses the interval and resets k, and exactly the cycles that fetched and installed a token are stamped, in order |
| `MentionTheorems.NeutralizeInserts` | sbx_omnigent/worktrees.py:257-267 | for every paragraph, only backticks are inserted |
| `MentionTheorems.UnchangedIff` | sbx_omnigent/worktrees.py:257-267 | for every paragraph, it is left as it is exactly when no piece of it outside comments and code spans holds a mention |
| `MentionShapes.MentionIff` | sbx_omnigent/worktrees.py:236-243 | a mention begins exactly where nothing guards it and an `@`, a handle of up to 39 characters and perhaps a team match, and the longest such match is the one taken |
| `MentionShapes.LeftAlone` | sbx_omnigent/worktrees.py:240 | behind a letter, a digit, an underscore, a dot, an `@`, a slash, a backtick or a backslash nothing is a mention |
| `MentionShapes.ProtectedIff` | sbx_omnigent/worktrees.py:249-254 | what is protected is exactly a comment up to its first end, or a run of backticks up to the next run of exactly as many |
| `SecondRun.ScanSplit` | sbx_omnigent/worktrees.py:247-267 | any paragraph is neutralised by wrapping what comes before its first comment or code span, keeping that, and going on behind it |
| `SecondRun.TicksCloseLocal` | sbx_omnigent/worktrees.py:252-254 | a code span ends where it did whatever follows it, as long as that does not start with a backtick |
| `SecondRun.InsertsClose` | sbx_omnigent/worktrees.py:252-254 | inserted backticks never complete a comment |
| `SecondRun.ScanTwice` | sbx_omnigent/worktrees.py:247-267 | where every backtick is in a code span or comment and no mention touches a code span, the second run finds every span of the first, and every mention it wrapped as a span, and searches what lies between piece by piece |
| `SecondRun.CalmUnlessTouching` | sbx_omnigent/worktrees.py:236-243 | those pieces hold a mention exactly right behind one the first run wrapped |
| `SecondRun.SecondRunChangesNothingIff` | sbx_omnigent/worktrees.py:287-289 | on such a paragraph, code spans and comments included, a second run changes nothing, and no mention is live in what the first returned, exactly when no mention is directly followed by another `@` and a letter or digit |
| `SecondRun.TickFreeIsOrderly` | sbx_omnigent/worktrees.py:287-289 | every paragraph with no backtick of its own is such a paragraph |
| `SecondRun.StrayTickFreesAMention` | sbx_omnigent/worktrees.py:257-267 | for every paragraph of one backtick and tick-free text with a mention in it and no comment: the first run leaves a mention live, and a second changes the text |
| `Mentions.NeutralizeMentions` | sbx_omnigent/worktrees.py:270-314 | the result is the text's division into paragraphs and fences, rendered: fences as they are, an unclosed one to the end, paragraphs neutralised |
| `Mentions.OpensIff` | sbx_omnigent/worktrees.py:245-247 | a line opens a fence exactly when it is at most three spaces, three or more of a mark, and a rest that does not go on with it |
| `Mentions.ClosesIff` | sbx_omnigent/worktrees.py:306-312 | a line closes a fence exactly when it is at most three spaces, at least as many of the same mark, and blanks |
| `Mentions.ProseAfterFence` | sbx_omnigent/worktrees.py:294-314 | for every fence with its close and every paragraph behind it, the fence comes out as it is and the paragraph neutralised |
| `Mentions.BlocksUnique` | sbx_omnigent/worktrees.py:291-313 | a text has only one division in which prose opens no fence and a fence ends at its first closing line |
| `Mentions.NeutralizedIsUnique` | sbx_omnigent/worktrees.py:291-314 | so that contract allows one result, and it is the text with backticks inserted |
| `Mentions.TextUnchangedIff` | sbx_omnigent/worktrees.py:270-314 | any text comes back as it was exactly when no paragraph of it holds a live mention; on the output of a first run, this says when a second changes nothing |
| `MentionsAgain.ScanMarked` | sbx_omnigent/worktrees.py:257-267 | the backticks of a run over such a paragraph are single, before an `@` and not behind a backtick, or right behind a letter, digit or underscore |
| `MentionsAgain.LinesStayPlain` | sbx_omnigent/worktrees.py:245-247 | so the lines of the paragraph stay lines, and none of them becomes a fence |
| `MentionsAgain.RedoneLines` | sbx_omnigent/worktrees.py:291-313 | the lines of a neutralised text are those of its blocks as they came out |
| `MentionsAgain.SecondRunOnTextIff` | sbx_omnigent/worktrees.py:287-289 | for every text whose paragraphs are such, fences and all: running `neutralize_mentions` again changes nothing exactly when no mention of a paragraph is directly followed by another `@` and a letter or digit |
| `MentionsAgain.SecondRunOnTickFreeTextIff` | sbx_omnigent/worktrees.py:287-289 | in particular for every text with no backtick of its own |
| `MentionsAgain.TouchingMentionsChange` | sbx_omnigent/worktrees.py:287-289 | the promise fails on the text `@a@b`, through the whole function twice |
| `MentionsAgain.StrayBacktickChanges` | sbx_omnigent/worktrees.py:257-267 | the text of a backtick, a space and `@f` comes out with its mention still live, and a second run changes it |

## Left out

- SecondRun.SecondRunChangesNothingIff: asks that every backtick of the paragraph is in a code span
  or comment and that no mention touches a code span. Outside that, `StrayTickFreesAMention` gives
  one family that fails, and `Mentions.TextUnchangedIff` on the first run's output says when the
  second changes nothing; it is not restated in terms of the input.
- TurnTheorems.CapPassedIff: counts prompts; which they are, and the ids already answered, are the
  number `answered` a wake carries.
- Settle.WaitForNodeSettle: sees only the samples taken; a change undone between two of them is
  invisible to the source as well.
- ItemLines.ItemIff: a numbered list marker is read in ASCII digits; the pattern also takes the
  decimal digits of other scripts.
- `_parse_subtasks_config`, which runs the same search over mapping entries with the fallback `x`.
- Approval.NormalisedIffOnly: upper-casing is modelled for ASCII letters, and phrases are single
  words, as the source's one phrase is.
- git failures other than a refusal of the command itself (I/O, hooks, a changed remote, a merge
  left in progress), tags, ignored files and submodules.
- An agent moving its clone in the middle of an operation, except before the final push
  (`RacedPush`).
- What a content merge comes to: any blend or clash is allowed for.
- The review, judge and publish worktrees, bundles and run state: they copy or read branches and
  would only add easy members.
- `wait_for_fresh_swap`, whose contract is its body.
- The reader thread, JSON decoding, HTTP and subprocess calls: their effects are the events,
  views and effects of the model.
- The pattern that marks a line as salient: any predicate on lines.
- Floating point: times are real numbers.
