# Marbles: a verified model of the tracker's core

Marbles keeps issues in an append-only, single-writer store. Issues form a dependency graph; plans are views
over it; people and agents claim issues for a limited time; exports of another tracker are imported into it.
This project models that core in Dafny and proves what its operations promise over all inputs, all runs and
all interleavings. Run `dafny verify dfyconfig.toml`.

How the modules fit together:

- **Graph, Ordered, Sorting, Wrappers, Domain**: edge sets, paths and acyclicity; ascending enumerations; one
  stable sort; the vocabulary. Ids, slugs and metadata strings are integers (only equality and order are used);
  `Refs` and `ImportText` work on real strings, and `PlanSpec` lets negative numbers stand for blank strings.
- **PlanTopo, PlanSchedule, PlanGantt, PlanPeak, PlanFrontier, PlanRuns**: the plan scheduler over arrays, as
  the source has it, the theory its numbers are checked against, and what an executor gets over whole runs.
- **PlanSpec, PlanStore, PlanCreate, PlanExecution, PlanExclusion**: validation of a spec by its colouring
  search, writing a plan into the store, loading it back, the round trip between the two, working a plan off in
  the store, and conflict groups over whole runs of the store.
- **Records, StoreSpec, StoreEffects, StoreInvariant, StoreTears, Store, StoreRestart, StoreRuns, StoreCalls,
  StoreTornRuns, OutboxRuns**: the record engine as a class with history, live index and trail; each store
  operation as a function on the visible state, and what it leaves in every field; one global invariant, and what
  is left of it inside a call; the class whose methods refine those functions through the engine; and properties
  of whole runs, which are what calling the class amounts to.
- **Reconnect**: the shared connection slot as a step relation over any number of threads.
- **WorkTime, WorkLaws**: business-hours deadlines and the laws they obey.
- **ImportSpec, ImportWrites, ImportRows, ImportEdges, ImportClosing, ImportBodies, Import, ImportText**: the importer phase
  by phase, its least-fixpoint closing order, and resumption after any write.
- **Report, Refs**: hierarchy views, the second readiness rule, and the reference parser and printer.

The global invariant (`StoreInvariant.Inv`): row ids match their keys; claim fields are all set or all absent;
an issue is closed iff it has a closing time; dependencies are acyclic with both ends live; issue parents are
live, project-local and form a forest; folder parents are live and acyclic; live audit events and outbox rows
pair off by number and issue, below the audit counter.

Results where the code does not keep what one would expect, each with its exact condition:

- A dial that panics leaves the connection slot wedged for good (src/postgres_store.rs:96,193-214):
  `Reconnect.Safety`, `PanicWedgesTheStore`, `OnePanicIsEnough`.
- A frontier keeps conflict groups exclusive in its own plan only, and `update` may move a running issue to
  another group or another plan (src/adapter.rs:980-998): `PlanExclusion.GroupsStayExclusiveIff` over runs of any
  calls, `FrontierStartsAcrossPlansIff`, and three witnesses.
- A call appends row by row with no transaction. `StoreTears.Between` survives every append; the pairing of
  events and outbox rows and the live parents may be cut (`CutIsSoundIff`). Repeating a cut drop repairs it
  (`DropResumes`); reviving an id that something still names as its parent can close a parent loop or cross
  projects, and nothing else can: `StoreTornRuns.TornRunsKeepBetweenIff`, `StoreTears.TornDropCanLoop`,
  `TornDropCanStray`.
- A deadline falls one working minute late for each seam between round-the-clock days it crosses:
  `WorkLaws.DeadlineCountsSeams`.

Where the code and its own comments differ, the model follows the code:

- `end_hour: 24` is described as round the clock, but crossing between two adjacent such days skips a minute
  (src/time.rs:98). `WorkLaws.SeamsBreakBothLaws` gives the exact condition.
- `touch` renews without the clamp `claim` applies and may also shorten a lease (src/adapter.rs:1250-1253), so
  claim exclusivity carries that exception: `StoreRuns.MayFree` lists everything that can end a claim early, and
  `StoreRuns.RenewalKeepsThePromiseIff` says exactly when a renewal keeps what was promised.
- `add_dep` returns success for an edge that is already there, and only after the cycle search.
- The importer does not rewrite `parent_id`, and needs a parent before its child in the file
  (`ImportSpec.Creatable`).

## Model

| member | source | states |
|---|---|---|
| `PlanTopo.Topo` | src/plan.rs:416-454 | succeeds iff the node graph is acyclic; the result places every dependency first and is the lexicographically least such order; the counters are naturals, so repeated dependencies never underflow |
| `PlanTopo.CountEdges` | src/plan.rs:417-432 | after the counting loop each counter is the number of dependency occurrences and the dependents lists are the exact transpose, duplicates included |
| `PlanTopo.Release` | src/plan.rs:440-445 | telling the dependents of a placed node keeps every counter equal to its unplaced occurrences and the ready set equal to the unplaced zeros |
| `PlanTopo.PopFirst` | src/plan.rs:434-439 | the pop takes the smallest index and removes only it |
| `PlanTopo.GreedyIsLeast` | src/plan.rs:433-446 | an order that always takes the smallest available node is lexicographically least among all dependency orders |
| `PlanTopo.OrderIsPermutation` | src/plan.rs:414-416 | a dependency order lists each node exactly once, after all of its dependencies |
| `PlanTopo.OrderedIsAcyclic` | src/plan.rs:447-453 | a complete order exists only for acyclic graphs |
| `PlanTopo.StuckIsCyclic` | src/plan.rs:447-452 | when nothing is available and a node is left over there is a cycle |
| `PlanTopo.Index` | src/plan.rs:420-425 | the id index points at a node with that id, the last one if ids repeat |
| `PlanTopo.AdjacencyKeepsOrder` | src/plan.rs:426-432 | the index graph lists exactly the dependencies on plan nodes, in their order and each as often as it is named, and drops the others |
| `PlanSchedule.EstimateOf` | src/plan.rs:76-87 | a duration is the metadata estimate if that is positive, and otherwise the default, raised to one minute |
| `PlanSchedule.LeastSchedule` | src/plan.rs:751-762 | the forward pass is at or below every feasible schedule, node by node along the order |
| `PlanSchedule.ForwardPassIsLeast` | src/plan.rs:751-762 | the forward pass is the pointwise least schedule respecting dependencies |
| `PlanSchedule.ChainFits` | src/plan.rs:753-762 | no dependency chain into a node outweighs its finish time |
| `PlanSchedule.LongestInto` | src/plan.rs:753-762 | some chain into each node weighs exactly its finish time |
| `PlanSchedule.TailFits` | src/plan.rs:764-773 | latest finish plus what follows on any chain fits in the makespan |
| `PlanSchedule.LongestOutOf` | src/plan.rs:764-773 | some chain out of each node fills the makespan exactly |
| `PlanSchedule.ThroughNode` | src/plan.rs:763-776 | a chain through a node weighs at most the makespan minus its slack |
| `PlanSchedule.LongestThrough` | src/plan.rs:763-776 | some chain through a node weighs exactly the makespan minus its slack |
| `PlanSchedule.SlackNonNegative` | src/plan.rs:774-776 | latest finish is never before finish, so the clamp at zero never acts |
| `PlanSchedule.SlackIsExact` | src/plan.rs:764-776 | slack is the makespan minus the longest dependency chain through the node |
| `PlanSchedule.SlackAbsorbsDelay` | src/plan.rs:751-776 | lengthening node i by x and recomputing gives exactly max(total, total - slack + x) |
| `PlanGantt.CriticalIffOnLongestChain` | src/plan.rs:777-779 | a node is critical iff some dependency chain through it is as long as the whole plan |
| `PlanGantt.Cards` | src/plan.rs:815-837 | each node is listed with its estimate and where that comes from, its start and finish times, its slack, and whether it is on a longest chain |
| `PlanGantt.ForwardPass` | src/plan.rs:751-762 | fills start and finish in place so that each start is the largest dependency finish, or 0 |
| `PlanGantt.BackwardPass` | src/plan.rs:764-773 | fills latest finish in place: the least latest start of the dependents, or the makespan |
| `PlanGantt.LastFinish` | src/plan.rs:763 | the makespan is attained and never exceeded, 0 for an empty plan |
| `PlanGantt.Slacks` | src/plan.rs:774-776 | each slack is latest finish minus finish, unclamped |
| `PlanGantt.LatestZeroSlack` | src/plan.rs:780-787 | the last of the zero-slack candidates with the latest finish, as `max_by_key` picks it |
| `PlanGantt.CriticalParent` | src/plan.rs:781-795 | a critical node that does not start at 0 has a critical dependency that finishes when it starts |
| `PlanGantt.CriticalChain` | src/plan.rs:777-796 | the reconstructed chain is a gap-free dependency chain of zero-slack nodes from minute 0 to the makespan |
| `PlanGantt.GapFreeWeight` | src/plan.rs:847-851 | a gap-free chain weighs its last finish minus its first start |
| `PlanGantt.SumMinutes` | src/plan.rs:847-851 | summing the critical ids through the index gives the weight of the chain when ids are distinct |
| `PlanGantt.CountRunning` | src/plan.rs:838-842 | counts exactly the nodes that are running now |
| `PlanGantt.RunPasses` | src/plan.rs:751-801 | one run of the passes gives the least schedule, exact slacks and a chain as heavy as the makespan |
| `PlanGantt.Chart` | src/plan.rs:736-856 | fails iff cyclic; otherwise the schedule is least, slacks exact, the node rows and critical flags right, critical minutes equal total minutes, and peak and running counts exact |
| `PlanPeak.Events` | src/plan.rs:802-807 | at every instant the pushed changes net to the number of intervals containing it |
| `PlanPeak.NetSort` | src/plan.rs:808 | sorting the events changes no net count |
| `PlanPeak.PrefixAt` | src/plan.rs:808-814 | the net count at any instant is the sum of a prefix of the sorted sweep |
| `PlanPeak.PrefixIsReached` | src/plan.rs:808-814 | every prefix sum of the sweep is reached at some instant, because ends sort before starts |
| `PlanPeak.Sweep` | src/plan.rs:809-814 | the maximum over all prefix sums |
| `PlanPeak.Peak` | src/plan.rs:802-814 | the peak is the largest number of half-open intervals sharing an instant: attained and never exceeded |
| `PlanFrontier.BusyGroups` | src/plan.rs:956-963 | maps exactly the groups with a node in progress, each to the last such node |
| `PlanFrontier.Triage` | src/plan.rs:966-1018 | splits the plan in dependency order into eligible nodes and nodes blocked with their first obstacle, the blocked ones listed in that order |
| `PlanFrontier.Consider` | src/plan.rs:1032-1057 | one candidate is turned away iff its group is busy or taken before it |
| `PlanFrontier.Choose` | src/plan.rs:1030-1058 | ready nodes stay in key order, and each candidate is ready or waiting with exactly its group reason |
| `PlanFrontier.FirstIsBest` | src/plan.rs:1019-1058 | with distinct ids the first candidate of a free group is its best-ordered eligible node |
| `PlanFrontier.ViewIsRight` | src/plan.rs:953-1066 | ready and blocked partition the plan and every reason given holds |
| `PlanFrontier.OfferedIsFirst` | src/plan.rs:966-1058 | a node is offered iff it is open, on no running lease, past its gate, waits on nothing open, and comes first in a group nothing runs in |
| `Domain.KeyOrdersBySooner` | src/plan.rs:1019-1029 | the sort key orders by priority, then creation, then plan key or id, then id |
| `PlanFrontier.Ready` | src/plan.rs:953-1066 | fails iff cyclic; lists each node once, blocked ones with the first reason that holds; ready nodes are the sooner first, by priority, then age, then key, then id, and are exactly the first startable node of each free group, all in the issues' own fields; every busy group names the last node running in it |
| `Sorting.SortOrders` | src/plan.rs:1019-1029 | the stable sort orders by any strict order |
| `Sorting.SortKeepsAll` | src/plan.rs:1019-1029 | and loses, adds and repeats nothing |
| `Sorting.SortIsStable` | src/plan.rs:1019-1029 | elements neither of which comes before the other stay in the order they had |
| `Sorting.SortKeepsDistinct` | src/plan.rs:1019-1029 | distinct elements stay distinct |
| `PlanRuns.DispatchKeepsExclusionIff` | src/plan.rs:950-963 | whatever happens to a plan between two looks at it, its groups stay exclusive iff every running node that no frontier let in, joined or regrouped, runs alone in its group |
| `PlanExclusion.StepFrees` | src/adapter.rs:784-1394 | no call but `update` makes any issue occupy a group it did not occupy |
| `PlanExclusion.StepKeepsExclusionIff` | src/adapter.rs:955-1023 | any call keeps groups exclusive, within one plan, within each plan or across all, iff it is no update that leaves its issue in progress where another already is: a check before the call |
| `PlanExclusion.GroupsStayExclusiveIff` | src/adapter.rs:955-1023 | over every run of any calls groups stay exclusive throughout iff every update, of status, plan and group together, finds its group free |
| `PlanExclusion.LoadedIsExclusiveIff` | src/plan.rs:522-555 | a loaded plan is exclusive iff its part of the store is |
| `PlanExclusion.FrontierStartsKeepExclusion` | src/plan.rs:1019-1058 | starting any nodes of one frontier one after another keeps the plan exclusive |
| `PlanExclusion.FrontierStartsAcrossPlansIff` | src/plan.rs:953-963 | across plans they do so iff nothing outside the plan is in progress in a group of a started node |
| `PlanExclusion.PlanPatchCanCollide` | src/adapter.rs:980-998 | a concrete patch of the plan key alone that puts two nodes of one group in progress |
| `PlanExclusion.GroupPatchCanCollide` | src/adapter.rs:980-998 | and one of the group key alone |
| `PlanExclusion.OtherPlanCanCollide` | src/plan.rs:953-963 | a concrete frontier that offers a node whose group is busy in another plan |
| `PlanRuns.SomethingIsEligible` | src/plan.rs:966-1018 | in a quiet acyclic plan with work left some node is eligible |
| `PlanRuns.BestOfGroup` | src/plan.rs:1019-1058 | every eligible node has a best eligible rival in its group |
| `PlanRuns.FrontierIsNotEmpty` | src/plan.rs:953-1066 | so the frontier is never empty while work is left |
| `PlanRuns.CloseAllKeepsQuiet` | src/plan.rs:953-1066 | closing a frontier leaves a quiet plan with exactly those nodes done |
| `PlanRuns.PlanFinishes` | src/plan.rs:953-1066 | closing whole frontiers finishes an n-node plan within n rounds, each node after its dependencies |
| `PlanExecution.LoadedIsQuiet` | src/plan.rs:522-555 | a plan loaded from a quiet store is quiet |
| `PlanExecution.OfferedMayClose` | src/adapter.rs:1369-1382 | an issue the frontier offers may be closed with evidence, then and later in the same round |
| `PlanExecution.CloseEachCloses` | src/adapter.rs:1330-1367 | closing a list of issues one by one closes exactly those and leaves every other row and all edges alone |
| `PlanExecution.NothingIsRefused` | src/adapter.rs:1369-1382 | no close of a round is refused |
| `PlanExecution.RoundAdvances` | src/plan.rs:953-1066 | load, take the frontier, close its issues in the store: what is left is strictly less, and still quiet |
| `PlanExecution.PlanFinishesInTheStore` | src/plan.rs:953-1066 | as many rounds through the store as the plan has unfinished issues finish it, and no close in any of them is refused |
| `PlanExecution.LeftWithinPlan` | src/plan.rs:522-555 | and that is at most one round per node of the loaded plan |
| `PlanSpec.CheckNodes` | src/plan.rs:191-210 | reports exactly the faults of single nodes and collects exactly the usable keys |
| `PlanSpec.CheckDeps` | src/plan.rs:211-222 | reports exactly the self and unknown dependencies |
| `PlanSpec.Visit` | src/plan.rs:227-250 | a visit blackens its key or reports a problem, names only keys that lie on a cycle, and keeps finished keys in dependency order until one is found |
| `PlanSpec.CheckCycles` | src/plan.rs:223-253 | a cycle is reported iff the key graph is cyclic |
| `PlanSpec.Validate` | src/plan.rs:180-259 | every fault is reported and nothing else; a cycle problem iff the spec graph is cyclic, and the key it names lies on a cycle; no problem iff the plan is sound |
| `PlanSpec.SoundParts` | src/plan.rs:191-222 | a sound plan has nodes, distinct keys, and only known dependencies on other nodes |
| `PlanStore.Gather` | src/plan.rs:523-531 | the members of the plan, each once, and the status of every listed issue |
| `PlanStore.Load` | src/plan.rs:522-555 | fails iff no issue carries the name, never for a cycle on a sound store; otherwise exactly the issues whose plan it is, the more urgent first, then the older, then by key and id, as stored |
| `PlanStore.LoadedIsAcyclic` | src/plan.rs:550-554 | a plan loaded from a sound store has no cycle |
| `PlanStore.Show` | src/plan.rs:485-515 | the view lists a dependency order and exactly the edges between plan nodes |
| `PlanStore.EligibleIsReady` | src/plan.rs:966-1018 | on a sound store a plan node is eligible iff the store itself would offer its issue |
| `PlanStore.FrontierIsReady` | src/plan.rs:950-1018 | whatever a plan offers is in the store's own `ready` |
| `PlanCreate.CreateNodes` | src/plan.rs:633-668 | one open issue per node and nothing else touched; stops only on an unknown project, leaving exactly the nodes before it |
| `PlanCreate.CreateEdges` | src/plan.rs:669-683 | adds exactly the spec's edges and is never refused |
| `PlanCreate.AllEdgesAreAcyclic` | src/plan.rs:669-683 | the spec's edges beside the store's stay acyclic |
| `PlanCreate.EdgeIsAccepted` | src/plan.rs:672-677 | at no point does an edge of a sound plan close a cycle |
| `PlanCreate.Create` | src/plan.rs:613-689 | succeeds iff the plan is sound, its name free and its projects known; then the store holds exactly the plan on top of what it held, every issue with the plan, key, group, estimate, project and priority its node asks for; a cycle is never met; an unknown project leaves exactly the nodes before it |
| `PlanCreate.NodesRoundTrip` | src/plan.rs:522-555 | loading a created plan gives one node per spec node, with its key, and no other |
| `PlanCreate.EdgesRoundTrip` | src/plan.rs:485-515 | and exactly the spec's edges, keys replaced by ids |
| `PlanCreate.SpecEdgesAreKeyEdges` | src/plan.rs:669-683 | an id edge stands for exactly one key edge |
| `PlanCreate.CreatedIsThere` | src/plan.rs:522-531 | a created plan can be loaded |
| `PlanCreate.CreateThenShow` | src/plan.rs:485-689 | create, load and show in one: whenever create succeeds, every node is there as asked and the view holds a node for every key and an edge for every dependency of the spec, and no other |
| `PlanCreate.WrittenAsAsked` | src/plan.rs:261-287 | what is written for a node, in the spec's own fields: default estimate of half an hour, at least one minute, the usual priority unless asked, open from the start |
| `PlanCreate.CreatedGroupsTakeTurns` | src/plan.rs:1030-1058 | no frontier of a created plan offers two nodes the spec put in one group |
| `Records.LatestDecides` | src/records.rs:157-165 | a key is a row iff its latest revision is not deleted, and holds that revision's data |
| `Records.ApplyConsistent` | src/records.rs:205-234 | every revision keeps the live index equal to the keys of the rows and numbers increasing |
| `Records.ApplyFacts` | src/records.rs:205-234 | a revision changes one record type only, and only extends its history |
| `Records.EveryRunReplays` | src/records.rs:365-405 | the trail of any run replays to a consistent log with one number per write |
| `Records.RunsExtend` | src/records.rs:205-258 | a longer run only extends every history |
| `Records.Engine.Append` | src/records.rs:205-259 | appends one revision with the next number, updates the row and live index, and writes the same line to the trail |
| `Records.Engine.Load` | src/records.rs:365-405 | replaying a trail line by line rebuilds the same history, live index and counter |
| `Records.Engine.Latest` | src/records.rs:157-165 | finds the last revision of a key, or that there is none |
| `Records.Engine.Current` | src/records.rs:262-264 | returns the row of the key, if it is one |
| `Records.Engine.Keys` | src/records.rs:275-280 | lists exactly the keys whose latest revision is live, each once, in key order |
| `Records.KeyOrderIsStrict` | src/records.rs:275-280 | key order, component by component, is a strict order |
| `Records.KeyOrderIsTotal` | src/records.rs:275-280 | and orders any two keys |
| `Records.KeyOrderLaw` | src/records.rs:275-280 | the first component in which two keys differ decides |
| `Records.Engine.CurrentVersion` | src/records.rs:291-303 | the number of the latest revision, tombstones included |
| `Records.Engine.CompareAndSwap` | src/records.rs:305-347 | writes iff the expectation matches; refuses without a trace, reporting the row, its version and whether it is deleted; an error iff the key was never written |
| `Store.Inner.Open` | src/adapter.rs:147-158 | a fresh store is sound and empty, durable iff asked, its audit counter at the engine's |
| `Store.Inner.Reopen` | src/adapter.rs:126-158 | replaying a store's trail gives back its rows and moves only the audit counter, up to the engine's; a sound state comes back sound, and one cut inside a call keeps what every append keeps |
| `StoreRestart.Restart` | src/adapter.rs:126-158 | a durable store opened again from its own trail is the store it was, its audit counter aside |
| `StoreRestart.WorkThenRestart` | src/adapter.rs:126-158 | open, ensure a project, create an issue, open again: exactly these are there |
| `StoreEffects.LogLaw` | src/adapter.rs:357-402 | one entry more, under the next number, due from the time it was made; nothing else changes |
| `StoreEffects.NewEntryIsDue` | src/adapter.rs:639-670 | a new entry is pending from the moment it was made |
| `StoreEffects.CreateVerdict` | src/adapter.rs:784-805 | a create is accepted iff its project is known, its parent live in it, and its id free |
| `StoreEffects.CreateLaw` | src/adapter.rs:806-861 | the new row field by field, and one entry |
| `StoreEffects.UpdateLaw` | src/adapter.rs:955-1023 | an updated row field by field: what the patch names is as it says, metadata key by key, the gate never earlier, and an extra entry iff the status changed |
| `StoreEffects.AddDepLaw` | src/adapter.rs:1051-1080 | a new edge stamps its child and makes one entry; one that is there changes nothing |
| `StoreEffects.AddDepRefusals` | src/adapter.rs:1051-1065 | which refusal an edge earns: itself, unknown child, unknown parent, cycle |
| `StoreEffects.RemoveDepLaw` | src/adapter.rs:1082-1090 | an edge that was there goes with one entry; otherwise nothing changes |
| `StoreEffects.ClaimLaw` | src/adapter.rs:1181-1243 | refused iff unknown or on someone else's running lease; otherwise the claim fields, one entry and nothing else |
| `StoreEffects.ClaimTtlLaw` | src/adapter.rs:1182-1201 | a lease is the smaller of what was asked or the default and the maximum; people's are counted in working time, at least a minute |
| `StoreEffects.TouchLaw` | src/adapter.rs:1245-1260 | only the holder's expiry moves, by the default of its kind |
| `StoreEffects.ReleaseLaw` | src/adapter.rs:1262-1270 | only the claim goes, with one entry |
| `StoreEffects.SweepLaw` | src/adapter.rs:1272-1309 | a lapsed agent lease is cleared with an expiry entry, a person's kept with an escalation, every other issue untouched, and no other entry made |
| `StoreEffects.EvidenceLaw` | src/adapter.rs:1341-1349 | old evidence stays in front, all new evidence is there, nothing else is, and nothing new twice |
| `StoreEffects.CloseLaw` | src/adapter.rs:1330-1367 | a closed row field by field, and one entry |
| `StoreEffects.MayCloseLaw` | src/adapter.rs:1311-1382 | evidence, and every dependency that is there closed |
| `StoreEffects.SupersedeLaw` | src/adapter.rs:1384-1394 | accepted iff both issues are known; closes the one, with both entries about it |
| `StoreEffects.RelabelLaw` | src/adapter.rs:1025-1049 | a label edit makes one entry iff it changes anything, and touches no other field |
| `StoreEffects.RemoteDepLaw` | src/adapter.rs:1092-1124 | a remote dependency stamps its child, with one entry |
| `StoreEffects.DropLaw` | src/adapter.rs:702-776 | exactly the project's issues, their edges, events and outbox rows go |
| `StoreEffects.ProjectLaw` | src/adapter.rs:490-506 | one more known project and nothing else |
| `StoreEffects.FolderLaw` | src/adapter.rs:527-574 | when a folder is accepted, and that it alone is filed anew |
| `StoreEffects.FilingLaw` | src/adapter.rs:582-606 | when a project may be filed, and that its filing alone changes |
| `StoreEffects.MarkLaw` | src/adapter.rs:672-700 | one undelivered row is delivered for good or put off, an attempt counted; nothing else changes |
| `StoreEffects.ListLaw` | src/adapter.rs:868-900 | listed by priority, then age, then id |
| `StoreEffects.WantedLaw` | src/adapter.rs:868-885 | open work or all, one project or any, one issue or any |
| `StoreEffects.ReadyLaw` | src/adapter.rs:902-953 | open, past its gate, on no running lease, every dependency there and closed |
| `StoreEffects.ViewLaw` | src/adapter.rs:255-270 | the row with its dependencies in order of id |
| `StoreEffects.UnknownIssueRefusals` | src/adapter.rs:955-1394 | every call about an unknown issue is refused with its id |
| `StoreEffects.CreateRefusals` | src/adapter.rs:784-805 | which refusal a create earns: project, parent, id, in that order |
| `StoreEffects.PlaceRefusals` | src/adapter.rs:527-606 | which refusal a folder or a filing earns |
| `StoreEffects.DefaultPolicyLaw` | src/types.rs:265-275 | the default lengths in seconds and hours |
| `Store.Inner.Write` | src/adapter.rs:201-209 | an append changes the visible state by its row, and only into a state that keeps `StoreTears.Between` |
| `Store.SpellsAppend` | src/adapter.rs:203-213 | one appended revision changes the visible state by exactly that row |
| `Store.Inner.LogEvent` | src/adapter.rs:357-402 | writes the event and, for a live issue, its outbound twin under one number never used before in either history, undelivered, untried and due at once |
| `Store.Inner.Reachable` | src/adapter.rs:416-438 | the worklist terminates and returns true iff a dependency path exists |
| `Store.Inner.Successors` | src/adapter.rs:423-433 | finds the target or exactly the direct dependencies |
| `Store.Inner.Create` | src/adapter.rs:784-861 | does what StoreSpec.Create says, errors included, and keeps the invariant |
| `Store.Inner.Update` | src/adapter.rs:955-1023 | does what StoreSpec.Update says, metadata patches key by key, and keeps the invariant |
| `Store.Inner.AddDep` | src/adapter.rs:1051-1080 | adds the edge iff it closes no cycle and both ends are live; otherwise changes nothing |
| `Store.Inner.RemoveDep` | src/adapter.rs:1082-1090 | removes and logs the edge iff it was there |
| `Store.Inner.ComputeClaimTtl` | src/adapter.rs:1182-1201 | agent and human lease lengths, both clamped to the policy maximum |
| `Store.Inner.SwapIssue` | src/adapter.rs:342-355 | under the lock the swap against the version just read always applies |
| `Store.Inner.Claim` | src/adapter.rs:1181-1243 | takes or renews a claim unless someone else holds a live one, whom the refusal names |
| `Store.Inner.Touch` | src/adapter.rs:1245-1260 | renews the caller's own claim, unclamped |
| `Store.Inner.Release` | src/adapter.rs:1262-1270 | clears the claim fields of a known issue |
| `Store.Inner.Sweep` | src/adapter.rs:1272-1309 | clears exactly the lapsed claims that are not a person's, leaves people's as they are, makes one entry for each, and lists both kinds |
| `Store.Inner.CheckBlockers` | src/adapter.rs:1311-1328 | finds an open dependency iff there is one |
| `Store.Inner.CloseUnchecked` | src/adapter.rs:1330-1367 | closes, drops the claim and merges evidence without repeats |
| `Store.Inner.Close` | src/adapter.rs:1369-1382 | goes through iff there is evidence and no open dependency; a refusal names one and changes nothing |
| `Store.Inner.Supersede` | src/adapter.rs:1384-1394 | closes in favour of a known replacement, blockers or not, and records the label edit |
| `Store.Inner.Relabel` | src/adapter.rs:1025-1049 | a label edit of a known issue rewrites its row and logs, iff it changes anything |
| `Store.Inner.AddRemoteDep` | src/adapter.rs:1092-1124 | a remote dependency stamps a known child and logs |
| `Store.Inner.EnsureProject` | src/adapter.rs:490-506 | the project is known afterwards and nothing else changes |
| `Store.Inner.EnsureFolder` | src/adapter.rs:527-574 | refuses exactly an unknown parent or a loop, and otherwise files the folder |
| `Store.Inner.IsAncestor` | src/adapter.rs:541-557 | the walk up terminates and is true iff the folder lies on the parent chain |
| `Store.Inner.SetProjectFolder` | src/adapter.rs:582-606 | files or unfiles a known project under a known folder |
| `Store.Inner.PendingEvents` | src/adapter.rs:639-670 | the first undelivered rows whose time has come in ascending order, up to the limit |
| `Store.Inner.MarkDelivered` | src/adapter.rs:672-685 | freezes an undelivered row and leaves a delivered one alone |
| `Store.Inner.MarkFailed` | src/adapter.rs:687-700 | postpones an undelivered row and leaves a delivered one alone |
| `Store.Inner.DropProject` | src/adapter.rs:702-776 | removes the project with its issues, edges both ways, events and outbox rows, and nothing else; returns how many issues went |
| `Store.Inner.Get` | src/adapter.rs:244-325 | the stored row with its dependencies in id order |
| `Store.Inner.List` | src/adapter.rs:868-900 | exactly the wanted issues, by project, status and id filter, each once, by priority, age and id |
| `Store.Inner.Ready` | src/adapter.rs:902-953 | exactly the issues that may be picked up, each once, in list order |
| `Store.Inner.IssueIsReady` | src/adapter.rs:905-944 | open, past its gate, unclaimed and with every dependency live and terminal |
| `StoreInvariant.CreateKeeps` | src/adapter.rs:784-861 | create keeps every part of the invariant |
| `StoreInvariant.UpdateKeeps` | src/adapter.rs:955-1023 | update keeps it |
| `StoreInvariant.AddDepKeeps` | src/adapter.rs:1051-1080 | add_dep keeps edges acyclic with both ends live |
| `StoreInvariant.AddDepEffect` | src/adapter.rs:1051-1080 | when add_dep is accepted, and the one edge it then adds |
| `StoreInvariant.RemoveDepKeeps` | src/adapter.rs:1082-1090 | remove_dep keeps it |
| `StoreInvariant.ClaimKeeps` | src/adapter.rs:1212-1228 | claim keeps the claim fields together |
| `StoreInvariant.TouchKeeps` | src/adapter.rs:1245-1260 | touch keeps it |
| `StoreInvariant.ReleaseKeeps` | src/adapter.rs:1262-1270 | release clears the claim fields together |
| `StoreInvariant.SweepKeeps` | src/adapter.rs:1272-1309 | sweep keeps it |
| `StoreInvariant.SweepLeaves` | src/adapter.rs:1272-1309 | sweep touches only the issues on its list |
| `StoreInvariant.CloseKeeps` | src/adapter.rs:1330-1367 | closing keeps it |
| `StoreInvariant.SupersedeKeeps` | src/adapter.rs:1384-1394 | supersede keeps it |
| `StoreInvariant.RelabelKeeps` | src/adapter.rs:1025-1049 | label edits keep it |
| `StoreInvariant.RemoteDepKeeps` | src/adapter.rs:1092-1124 | remote dependencies keep it |
| `StoreInvariant.FolderKeeps` | src/adapter.rs:527-574 | ensure_folder keeps folder parents live and acyclic |
| `StoreInvariant.DropKeeps` | src/adapter.rs:702-776 | drop_project leaves no edge, parent, event or outbox row dangling |
| `StoreInvariant.MarksKeep` | src/adapter.rs:672-700 | outbox marks keep the pairing with audit events |
| `StoreInvariant.ReopenKeeps` | src/adapter.rs:147-158 | reopening keeps it |
| `StoreInvariant.InsertKeeps` | src/adapter.rs:793-805 | a new row under a live parent of its project keeps the parent forest |
| `StoreTears.SoundIffWhole` | src/adapter.rs:201-209 | the invariant holds iff what every append keeps does, every event has its outbox row and every parent is live |
| `StoreTears.LogSteps` | src/adapter.rs:365-399 | both appends of an audit entry keep what every append keeps |
| `StoreTears.TearInsideLog` | src/adapter.rs:365-399 | cut between its two appends, exactly the newest event lacks its outbox row |
| `StoreTears.CutIsBetween` | src/adapter.rs:702-776 | every state inside a project drop keeps what every append keeps |
| `StoreTears.CutIsSoundIff` | src/adapter.rs:719-773 | a drop cut short is sound iff every event whose outbox row is gone is gone too and no child outlives its parent |
| `StoreTears.DropResumes` | src/adapter.rs:702-776 | reopened after any cut and asked again, the drop ends where it would have ended |
| `StoreTears.CreateOnTornIff` | src/adapter.rs:793-861 | on a store reopened from a cut, create keeps what every append keeps iff the new parent does not lie below the new id and every issue that still names the id is in the new project |
| `StoreTears.TornDropCanLoop` | src/adapter.rs:770-805 | a concrete cut drop after which creating a removed parent anew under its child closes a loop |
| `StoreTears.TornDropCanStray` | src/adapter.rs:770-805 | and one in another project leaves a child under a parent of that project |
| `StoreTornRuns.StepKeepsBetweenIff` | src/adapter.rs:784-1394 | on a store reopened from a cut, any call keeps what every append keeps iff it is no create that does not fit |
| `StoreTornRuns.TornRunsKeepBetweenIff` | src/adapter.rs:784-1394 | and any run of any calls iff every create in it fits |
| `StoreTornRuns.SoundCreatesFit` | src/adapter.rs:784-861 | on a sound store every create fits |
| `StoreRuns.StepKeeps` | src/adapter.rs:90-103 | any operation, forced closes, supersede, label edits and remote dependencies included, keeps the invariant |
| `StoreCalls.Call` | src/adapter.rs:90-103 | one call of the class, refusals included, is one step of the runs below |
| `StoreCalls.CallAll` | src/adapter.rs:90-103 | a list of calls on the class is a run, so whatever holds of every run holds of it |
| `StoreRuns.RefusalChangesNothing` | src/adapter.rs:955-1382 | a refused call leaves the store as it was |
| `StoreRuns.EveryReachableStateIsSound` | src/adapter.rs:90-103 | so it holds in every state of every run from a sound state, with reopens between calls |
| `StoreRuns.EveryRunFromEmptyIsSound` | src/adapter.rs:147-158 | and of every run from the empty store |
| `StoreRuns.AuditNumbersOnlyGrow` | src/adapter.rs:220-223 | the audit counter never goes back |
| `StoreRuns.AuditNumbersAreNotReused` | src/adapter.rs:147-158 | a number whose event is gone never comes back |
| `StoreRuns.AuditNumbersKeepTheirEvent` | src/adapter.rs:220-223 | a number in use at two points of a run names the same event at both |
| `StoreRuns.DeliveredStaysDelivered` | src/adapter.rs:672-700 | a delivered outbox row stays as it is or disappears, and is never pending again |
| `OutboxRuns.StepPosts` | src/adapter.rs:357-402 | no call but a mark of its own number rewrites an outbox row, and every new row is untried and due |
| `OutboxRuns.DeliveredOnlyByMark` | src/adapter.rs:672-685 | over every run a row is delivered only by a mark of its number made after it was written |
| `OutboxRuns.EntryStaysDue` | src/adapter.rs:639-670 | until it is marked or its issue goes, an entry is due from the time it was made |
| `OutboxRuns.LogThenPoll` | src/adapter.rs:357-402 | what was just logged is handed out, unless as many older rows are due as were asked for |
| `StoreRuns.StepHolds` | src/adapter.rs:1181-1309 | a live claim survives every step that does not free it |
| `StoreRuns.SweepsSparePeople` | src/adapter.rs:1294-1307 | no run of sweeps ever ends a person's claim |
| `StoreRuns.ClaimOutlives` | src/adapter.rs:1181-1309 | and so every run of such steps |
| `StoreRuns.ClaimsAreExclusive` | src/adapter.rs:1181-1243 | until its expiry nobody else's claim succeeds, unless the issue was freed in between |
| `StoreRuns.ExclusiveExactlyUntilExpiry` | src/adapter.rs:1205-1211 | a claim keeps every other claimant out exactly until it expires |
| `StoreRuns.RenewalKeepsThePromiseIff` | src/adapter.rs:1245-1260 | a lease promised until e survives the holder's own heartbeat or renewal iff the new lease reaches e |
| `StoreRuns.TouchCanShortenALease` | src/adapter.rs:1245-1260 | a concrete run in which a heartbeat shortens a long lease |
| `StoreRuns.DefaultHumanClaimIsClamped` | src/adapter.rs:1182-1201 | by default the seven-day clamp always binds a human claim, and a heartbeat outlasts it |
| `Reconnect.NextKeepsInv` | src/postgres_store.rs:174-229 | every event, a panicking dial included, keeps the protocol invariant |
| `Reconnect.RunKeepsInv` | src/postgres_store.rs:174-229 | and so every interleaving of any number of callers |
| `Reconnect.Safety` | src/postgres_store.rs:159-229 | the flag is up iff a thread is replacing the connection or a dial has panicked; never two threads replacing; no dial under the lock; operations never overlap; at most two runs and one COMMIT per call, runs that panic included; all idle means lock free, and flag down iff no dial has panicked |
| `Reconnect.LostConnectionIsReplaced` | src/postgres_store.rs:206-229 | over every run: lost before COMMIT, the client is dropped and the call dials again, or gives up the second time; after any other outcome the client is back in the slot |
| `Reconnect.OutcomesLaw` | src/postgres_store.rs:322-345 | every way a run may end is among the events, save a success without connection or COMMIT and a COMMIT outside a transaction |
| `Reconnect.LostHandleNeverServes` | src/postgres_store.rs:206-221 | a handle lost before COMMIT is never in the slot or in use again |
| `Reconnect.LostOperationIsRunAgain` | src/postgres_store.rs:206-221 | after a loss and a working dial the operation runs again, on a handle never used before |
| `Reconnect.DecideOutcome` | src/postgres_store.rs:185-199 | a caller leaves while a replacement is under way, takes the stored client, or dials with the mutex free |
| `Reconnect.DialOutcome` | src/postgres_store.rs:195-217 | a dial brings a new handle or none; its owner puts the flag down and runs, or gives up |
| `Reconnect.PanicWedgesTheStore` | src/postgres_store.rs:193-214 | after a dial panics the flag stays up, nobody dials or runs again, and every caller returns having run nothing |
| `Reconnect.OnePanicIsEnough` | src/postgres_store.rs:193-214 | a concrete run of one call that ends all idle with the flag up |
| `Reconnect.StoredClientIsNeverOverwritten` | src/postgres_store.rs:174-229 | a stored client is only ever taken, never replaced by another |
| `Reconnect.DeadHandlesStayOut` | src/postgres_store.rs:206-221 | a handle dropped as dead is never stored or used again |
| `Reconnect.CallersFailFast` | src/postgres_store.rs:185-187 | a caller arriving while a dial is under way finds the lock free or about to be freed, and returns at once |
| `Reconnect.EmptySlotIsRedialedIff` | src/postgres_store.rs:188-199 | with the slot empty and nobody busy the next caller dials iff no dial has panicked |
| `Reconnect.AmbiguousCommitIsNotRetried` | src/postgres_store.rs:322-345 | a failure after COMMIT was attempted ends the call and puts the client back |
| `WorkTime.WorkingInstantOrAfter` | src/time.rs:41-63 | the day walk terminates at the resume point |
| `WorkTime.ResumeIsFirst` | src/time.rs:40-63 | nothing before the resume point is working time |
| `WorkTime.ComputeDeadline` | src/time.rs:88-100 | the walk terminates and returns the modelled deadline, for any minutes and offset |
| `WorkTime.FreshDay` | src/time.rs:92-98 | a day walk that runs out of minutes resumes on a day with minutes left |
| `WorkLaws.WorkingHours` | src/time.rs:41-63 | a second is working time iff it lies within the hours of some working day |
| `WorkLaws.Calendar` | src/time.rs:41-63 | day 0 is a Thursday and weekdays follow one another |
| `WorkLaws.DeadlineIsLeast` | src/time.rs:87-100 | from a whole minute the deadline is the least instant with exactly that much working time |
| `WorkLaws.ExcessUnderAMinute` | src/time.rs:87-100 | from any second the excess is under a minute |
| `WorkLaws.DeadlinesCompose` | src/time.rs:88-100 | waiting a and then b minutes of working time is waiting a + b, for a >= 0 and b >= 1 |
| `WorkLaws.ComposeInUtc` | src/time.rs:87-100 | the same in UTC, as `deadline` is called: deadlines compose |
| `WorkLaws.ExcessInUtc` | src/time.rs:87-100 | in UTC the excess is under a minute |
| `WorkLaws.LeastInUtc` | src/time.rs:87-100 | in UTC a deadline from a whole minute is the least instant with exactly the working time asked for |
| `WorkLaws.FinishGrants` | src/time.rs:88-100 | the walk from a working instant grants the minutes asked plus one per seam crossed, within a minute, and ends on working time |
| `WorkLaws.DeadlineCountsSeams` | src/time.rs:87-100 | on every week and for every call, the working time up to the deadline is the minutes asked plus one per seam crossed: exactly from a whole minute, within a minute otherwise |
| `WorkLaws.ExactIffNoSeamCrossed` | src/time.rs:87-100 | a call from a whole minute grants exactly what was asked iff it crosses no seam |
| `WorkLaws.SeamsBreakBothLaws` | src/time.rs:65-100 | both laws hold for every call iff no two adjacent working days run round the clock |
| `WorkLaws.SeamLosesAMinute` | src/time.rs:98 | across such a seam one minute is lost |
| `WorkLaws.DefaultHumanSpan` | src/time.rs:102-106 | under the default week and policy a human lease runs between 7 days 8 hours and 10 days 59 seconds |
| `WorkLaws.DefaultHumanSpanIsTight` | src/time.rs:102-106 | and both bounds are met |
| `ImportText.RewriteIsIdempotent` | src/jsonl.rs:154-159 | rewriting an id that has been rewritten changes nothing |
| `ImportText.RewriteCollides` | src/jsonl.rs:154-159 | two ids collide under a rewrite iff one has the old prefix and the other the new one with the same tail |
| `ImportText.RewriteLaw` | src/jsonl.rs:154-159 | exactly an old prefix before a dash-free tail is replaced |
| `ImportText.StatusTable` | src/jsonl.rs:91-103 | every name and alias of a status, and no other |
| `ImportText.OwnStatusesSurvive` | src/jsonl.rs:91-103 | the status table maps every status name of the tracker to itself |
| `ImportRows.FindConflicts` | src/jsonl.rs:188-216 | fails on an unreadable row; otherwise lists exactly the ids held by issues that are not the import's own |
| `ImportRows.CreateRows` | src/jsonl.rs:221-265 | creates the missing rows as open, in file order, iff each can be created at its turn |
| `ImportRows.CreateVerdict` | src/jsonl.rs:223-265 | a row is accepted iff its time parses, the project exists and its parent is there by then, in the project |
| `ImportEdges.LinkStep` | src/jsonl.rs:292-296 | an edge between known issues is refused only if the edges together are cyclic |
| `ImportEdges.MissingTarget` | src/jsonl.rs:294 | an edge to an unknown issue is a not-found, counted as missing |
| `ImportEdges.LinkRows` | src/jsonl.rs:267-298 | ends with exactly the edges the rows ask for, or with a cycle among them |
| `ImportClosing.TakeTurn` | src/jsonl.rs:315-361 | one row of a round closes, waits on an open dependency, sets a status or does nothing, as its status and the current one say |
| `ImportClosing.CloseIsForced` | src/jsonl.rs:333-346 | `close` lets a row through only when every set closed under the rule contains it |
| `ImportClosing.Round` | src/jsonl.rs:312-366 | a round with progress has fewer rows left; one without leaves only rows waiting on an open dependency |
| `ImportClosing.RoundsEnd` | src/jsonl.rs:363-367 | when a round moves nothing, the closed rows are the least fixpoint |
| `ImportClosing.AllRounds` | src/jsonl.rs:300-367 | the rounds terminate at the least fixpoint of "to be closed and all blockers closed" |
| `ImportClosing.CloseLeft` | src/jsonl.rs:368-391 | closes exactly the rows left over |
| `ImportSpec.ClosingIgnoresFileOrder` | src/jsonl.rs:300-302 | two orders of the same rows close the same set in order and leave the same rows over |
| `ImportSpec.LandingIgnoresFileOrder` | src/jsonl.rs:161-391 | and with distinct ids land the same ids, statuses and edges |
| `ImportSpec.LeftoversAreHeldOpen` | src/jsonl.rs:368-371 | a row is left over iff a dependency path through rows to be closed leads from it to an issue that stays open |
| `ImportSpec.ResumeIsClean` | src/jsonl.rs:194-202 | an import that goes through also goes through from any state it may be stopped in |
| `ImportSpec.ResumeLandsTheSame` | src/jsonl.rs:194-202 | and lands the same state |
| `ImportSpec.LandingIsUnique` | src/jsonl.rs:161-391 | the landed ids, statuses and edges are determined by the start and the rows |
| `ImportSpec.FinalLaw` | src/jsonl.rs:300-391 | ids being distinct, a row ends closed if the file says so, and otherwise where the file says unless it had left the open state |
| `ImportSpec.EdgesLaw` | src/jsonl.rs:267-298 | the edges afterwards: those there were and every blocking entry that leads to another known issue |
| `ImportSpec.ConflictLaw` | src/jsonl.rs:188-216 | no conflict iff every id in use is held by this importer's copy in this project |
| `ImportBodies.BodiesAfter` | src/jsonl.rs:221-391 | after any number of writes old issues keep their place, priority, goal flag, date and metadata, and new ones carry their row's |
| `Import.WriteRows` | src/jsonl.rs:221-391 | goes through iff rows can be created and edges are acyclic; every prefix of its writes can be resumed from; the report counts created, present, renamed, linked and missing exactly |
| `Import.Run` | src/jsonl.rs:161-395 | nothing written on an unreadable row, a conflict or a dry run; otherwise goes through iff clean, landing the promised state with the least fixpoint closed in order, its counts right; every write comes from a row of the file and keeps bodies; cycle errors only on cycles |
| `Import.ResumeEndsTheSame` | src/jsonl.rs:194-202 | a resume after any number of writes ends with the same ids, statuses and edges |
| `Import.RerunChangesNothing` | src/jsonl.rs:11-15 | a second run changes no id, status or edge |
| `Report.ReadyRulesAgree` | src/report.rs:329-345 | on every sound state the report's rule accepts exactly the non-goal part of the store's `ready` |
| `Report.RulesPartExactly` | src/report.rs:336-338 | whatever the rows, the report never accepts more than the store, and rejects a non-goal the store would offer iff it carries a claim without an expiry |
| `Report.RulesCanPart` | src/report.rs:336-338 | a concrete state, which a sound store is never in, where the store offers and the report does not |
| `Report.DescendantIds` | src/report.rs:63-81 | the worklist terminates, on any listing and any parent links, with exactly the root and everything under it |
| `Report.SubtreesApart` | src/report.rs:123-161 | nothing sits under two children of one issue |
| `Report.ForestStep` | src/report.rs:151-157 | appending a child's lines keeps each issue once, under its parent, at its level, siblings in order |
| `Report.Walk` | src/report.rs:137-158 | the recursion terminates on a forest and prints the subtree: each issue once, depth first |
| `Report.TreeLines` | src/report.rs:123-161 | the tree of a known root, nothing for an unknown one, siblings the more urgent first |
| `Report.ListingIsForest` | src/adapter.rs:793-805 | any listing of a sound store is a forest, so the printing ends |
| `Report.TreesAreProjectLocal` | src/adapter.rs:793-805 | on a full listing everything above an issue is live and in its project |
| `Report.TreeMatchesDescendants` | src/report.rs:63-161 | the printing shows exactly the descendants, each once |
| `Refs.ParseOfDisplay` | src/refs.rs:58-127 | printing then parsing returns every valid reference |
| `Refs.DisplayOfParse` | src/refs.rs:58-127 | parsing then printing returns every accepted string, and only valid references are produced |
| `Refs.AcceptedStrings` | src/refs.rs:58-104 | the accepted strings are exactly the scheme and four valid segments |
| `Refs.DisplayIsInjective` | src/refs.rs:9-12 | the display form is a normal form |
| `Refs.EmptyStoreIdMeansBareScheme` | src/refs.rs:69-98 | the empty-store-id error is given for the bare scheme only; the last check never fires |
| `Refs.SplitJoin` | src/refs.rs:75 | splitting at slashes undoes joining slash-free parts |
| `Refs.SegmentLaw` | src/refs.rs:132-146 | ASCII letters, digits, dash, dot and underscore, and no directory name |
| `Refs.WhitespaceLaw` | src/refs.rs:58-75 | white space is the twenty-five code points Unicode names |
| `Refs.PathRefusals` | src/refs.rs:75-98 | which refusal a path earns: empty, missing, extra, then invalid segments |
| `Refs.DisplayLaw` | src/refs.rs:106-127 | the scheme, then store, company, project and issue, a slash between each two |

## Left out

- ImportSpec.Landed: speaks of ids, statuses and edges; evidence and timestamps of an interrupted and an uninterrupted import may differ, because a resume can close in order what the first run would have forced.
- Import.Run: stops between store calls only; what a stop inside one call leaves of the store is in `StoreTears`.
- PlanExclusion.GroupsStayExclusiveIff: is about status, not claims, because `claim` never sets a node in progress.
- StoreRuns.ClaimsAreExclusive: allows the holder's own heartbeat or renewal to end a claim early, because `touch` is not bound by the lease it renews.
- Report.Walk: needs a forest, because on a parent cycle the source recurses without end; `Report.ListingIsForest` shows the store never holds one.
- Titles, descriptions, labels, external references, risk and acceptance metadata beyond validation: carried along without being looked at.
- Store.Inner.EnsureProject: a project is a slug; its root, prefix and creation time are not looked at by any modelled operation.
- Store.Inner.EnsureFolder: a folder is a slug and a parent; names and the refusals of empty slugs and names are left out.
- Store.Inner.DropProject: remote dependency rows are not part of the visible state, so their removal is not stated.
- Store.Inner.Get: the counts of open dependencies and dependents beside the row are left out.
- Store.Inner.Update: title, description and notes are carried along; metadata is the keys plans use.
- Store.Inner.Relabel: whether the edit changes anything is a parameter, since labels are not modelled.
- Store.Inner.AddRemoteDep: the remote row itself, its freshness and signature are left out.
- StoreRuns.EveryReachableStateIsSound: reopens fall between calls; from a store reopened inside a call, `StoreTornRuns` promises `Between` instead of the whole invariant, and the methods of `Store.Inner` are not proved from there.
- Store.Inner.Supersede: the content of the label and of the evidence note is a parameter.
- PlanGantt.Cards: title and repository of a node are carried along and left out.
- PlanFrontier.Ready: the detail texts beside the reasons are left out.
- PlanStore.Show: the lists of repositories and groups and the order of edges within a node are left out.
- `history` and `stats`: listings over modelled state.
- Name trimming, empty-string checks and prefix derivation in `ensure_project`, `ensure_folder` and `create`: a slug is an opaque name.
- Random id suffixes: the id the loop settles on is a parameter that is not in use yet.
- Clocks: every time is a parameter; runs with a decreasing clock are covered too.
- Week settings outside `ValidWeek` (no working day, start at or after end): the source loops or panics on them.
- 64-bit overflow of times, minutes and counters: integers are unbounded.
- JSON and TOML parsing, timestamp parsing, `memory:` targets and skipped rows of an export: rows arrive parsed, and a row that cannot be read says so.
- `gantt_scoped` filtering and rendering of charts, trees and views as text.
- Recovery of a poisoned mutex: the lock is simply free again, as the source makes it.
- SQL, migrations, HTTP, authentication, signatures, canvas sync and metrics.
- Burndown and progress percentages: floating point.
