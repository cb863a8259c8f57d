# The coordination and audit kernel of salient-core, in Dafny

A fleet of agents delegates work to one another, asks its operator for permission, and leaves an audit
trail. This project models the kernel that keeps that safe and proves what it is for:

* **Delegation.** The search for wait-for cycles (`DelegationGraph`, `CycleEnumeration`, `CycleOrder`,
  `Rotations`), what adding edges does to the graph (`DelegationSafety`), the registry of calls in flight
  (`BusRegistry`), every interleaving of calls (`DelegationProtocol`), one call from registration to exit
  (`AskAgent`), and the governor that asks the operator about repeated calls (`Redispatch`).
* **Tool schemas.** Inlining references into a flat schema: when it is refused (`SchemaCycles`), that it
  preserves meaning (`SchemaMeaning`, over the semantics in `JsonSchema`, which follows sections 8.2.3.1,
  8.2.4 and 10 of JSON Schema Core 2020-12), and the closing check (`ToolSchema`).
* **State with a simpler shadow.** The store's cache beside a database that may fail (`Transactions`,
  `StoreCoherence`, `ContextStore`), event retention (`EventRetention`), the event hub's queues beside the
  published history (`Subscription`, `EventHub`, over whole runs in `HubRuns`), the token ledger (`BudgetLedger`)
  and the operator's inbox (`QuestionInbox`).
* **Small concurrent protocols.** Hook replay (`HookReplay`) and credential revocation (`CodexGateway`).
* **Audit.** The mirror's writer (`AuditMirror`) and the cross-check of a reconstructed turn
  (`Reconstruction`).
* **Two scanners.** The context slicer (`ContextSlicer`) and the flag scanner (`FlagScanner`).

A component that updates its own fields is a class here whose methods are proved against a value-level
specification, usually a `Step` relation; what holds over whole runs is proved about that relation. Code
without an `await`, or under one lock, is one atomic step; everything a component cannot control (answers,
faults, clocks, cancellations, what the solver of ties would choose) is an input.

`dafny verify dfyconfig.toml` checks everything.

## What turned out not to hold

Each of these is a theorem, with the condition under which the promise is met.

* Every call passes a cycle check, yet with the shipped limits a fleet of 67 agents can reach a wait-for loop
  by growing a chain at its head; up to 66 none can (`DelegationProtocol.ShippedLimit`). For all limits,
  `DelegationProtocol.LoopFreeExactly` says when; a fan-out let through can close a loop exactly in fleets too
  large for the bound (`DelegationProtocol.FanOutsExactExactly`).
* `all_cycles` is documented to rotate each cycle so that its least name leads; it lists the rotation it met
  (`CycleEnumeration.NotAlwaysCanonical`). A cycle through the first caller, or through any agent that no earlier
  caller reaches, is led by that agent (`CycleOrder.FirstToReachLeads`); any other by the node its walk entered it
  at (`CycleEnumeration.CanonicalExactly`).
* A cancellation that lands on the drain of the echo pump after a reply is swallowed
  (`AskAgent.CancellationIsLostExactlyInDrain`, `AskAgent.ACancellationIsLost`).
* An answer "yes N" is meant to be worth N redispatches; with a threshold above the default 2 it lets
  `threshold - 2` more through (`Redispatch.YesNIsWorthExactly`, `Redispatch.YesNRun`).
* A keyword beside a `$ref` replaces the target's (`SchemaMeaning.ClashExactly`); a `default` beside a `$ref` is
  kept (`ToolSchema.KeywordsThatSurvive`, `ToolSchema.DefaultCanSurvive`), and a field called `title` beside one
  is lost (`ToolSchema.FieldNamesBesideReference`, `ToolSchema.ATitleFieldCanBeLost`).
* Flat and acyclic schemas can be refused by the closing check, a text that names `$ref` and a root with both
  `$ref` and `$defs` among them (`ToolSchema.ATextIsRefused`, `ToolSchema.RootReferencesAreRefused`);
  `ToolSchema.CleanToolSchemaExactly` says of every schema which of the three results it gets.
* Cache and database are meant to stay equal while the store is open, yet a commit that raises after it took
  effect leaves the write in the database and not in the cache (`StoreCoherence.AnInterruptSplitsThem`); they part
  exactly then, if the write changed anything (`StoreCoherence.StepAgreesExactly`,
  `StoreCoherence.RunAgreesExactly`). Nothing rejected is ever flushed (`StoreCoherence.DiskIsReplayOfLanded`).
* The job-key sweep deletes any key starting with `job_`, not only `job_<digits>`: it is as safe as documented
  exactly when every such key in the store is a job number (`StoreCoherence.SweepIsSafeExactly`,
  `StoreCoherence.SweepDeletesNotes`).
* A mirror write reports success though another correlation, or another operation, holds the tool-use id
  (`AuditMirror.SuccessMeansPresentExactly`, `AuditMirror.SuccessCanLeaveNoRow`).
* Catalogs dropped by issue and close can still schedule calls, and no revoke can reach them
  (`CodexGateway.OrphansAreNeverRevoked`, `CodexGateway.SupersededStillSchedules`,
  `CodexGateway.ClosedStillSchedules`).
* The 500-row load limit can hide lost denies and raise false alarms: exactly when what lies past it differs
  (`Reconstruction.LimitExactly`, `Reconstruction.FewDeniesExactly`, `Reconstruction.LimitHidesLostDenies`,
  `Reconstruction.LimitRaisesFalseAlarms`, `Reconstruction.OrderAtTheLimitRaisesFalseAlarms`).
* Pruning can drop the question that was just answered (`QuestionInbox.JustAnsweredSurvivesExactly`,
  `QuestionInbox.NewestAnswerCanBePruned`), and loading the inbox a second time repeats every question
  (`QuestionInbox.HydratingTwiceBreaksOrder`).

## Model

| member | source | states |
|---|---|---|
| DelegationGraph.BuildAdjacency | src/salient_core/coord/delegation_graph.py:41-52 | every caller maps to the targets of its calls, in call order and with repeats; nobody else has an entry |
| DelegationGraph.WalkMeetsOpen | src/salient_core/coord/delegation_graph.py:84-117 | any route from the target to the caller that the search has not seen passes a node still waiting in the queue |
| DelegationGraph.RoutesAreLong | src/salient_core/coord/delegation_graph.py:84-117 | while the search stands at a level, every route to the caller is longer than that level: the reason the first hit is a shortest route |
| DelegationGraph.VisitKeepsSearching | src/salient_core/coord/delegation_graph.py:113-116 | marking, parenting and queueing one new node keeps the breadth-first invariant |
| DelegationGraph.Reconstruct | src/salient_core/coord/delegation_graph.py:101-112 | following the recorded parents back yields an existing route of exactly the recorded length |
| DelegationGraph.Expand | src/salient_core/coord/delegation_graph.py:99-116 | expanding one node either finds a shortest route closed by the proposed call, or settles the node |
| DelegationGraph.FindCycle | src/salient_core/coord/delegation_graph.py:55-117 | a path is returned if and only if the shortest route from target to caller has at most `max_depth + 1` existing edges (or caller is target); it is such a shortest route, closed by the proposed edge |
| DelegationGraph.FindCyclesForEdges | src/salient_core/coord/delegation_graph.py:178-210 | every proposed target gets its own exact verdict against the one unmutated snapshot |
| Rotations.LeastAt | src/salient_core/coord/delegation_graph.py:135-141 | the place chosen to lead the canonical form holds a least name |
| Rotations.CanonicalIsKey | src/salient_core/coord/delegation_graph.py:135-141 | two simple cycles have the same canonical form if and only if one is a rotation of the other |
| CycleEnumeration.BackEdgeClosesCycle | src/salient_core/coord/delegation_graph.py:145-152 | a call from the end of a simple walk back onto it closes a simple cycle |
| CycleEnumeration.EveryCycleIsBackEdge | src/salient_core/coord/delegation_graph.py:143-164 | every simple cycle is met as a back edge of a walk from one of its nodes |
| CycleEnumeration.KeyMeansListed | src/salient_core/coord/delegation_graph.py:149-152 | the set of canonical keys is an exact test: a key has been seen if and only if a rotation of the loop is listed |
| CycleEnumeration.ExploredSettles | src/salient_core/coord/delegation_graph.py:143-160 | walking on from a simple walk keeps one list per cycle and lists every loop that any simple extension of the walk closes |
| CycleEnumeration.EveryCycleIsListed | src/salient_core/coord/delegation_graph.py:120-166 | one search from every agent that places calls lists every simple cycle exactly once up to rotation |
| CycleEnumeration.CanonicalExactly | src/salient_core/coord/delegation_graph.py:120-152 | whichever walk lists it, a loop is in the promised canonical form if and only if no name on it comes before the node at which the walk entered it |
| CycleOrder.ListedInTurn | src/salient_core/coord/delegation_graph.py:143-166 | what is listed in the turn of an agent holds only agents it reaches, and is led by that agent if it holds it |
| CycleOrder.NotAfterItsTurn | src/salient_core/coord/delegation_graph.py:149-166 | after the turn of an agent no cycle through it is added any more |
| CycleOrder.FirstToReachLeads | src/salient_core/coord/delegation_graph.py:120-166 | every listed cycle through an agent that no earlier caller reaches is led by that agent, and so canonical if and only if its name is the least on it |
| CycleOrder.FirstCallerLeadsItsCycles | src/salient_core/coord/delegation_graph.py:120-166 | in particular the agent that placed the first call leads every listed cycle it is on |
| CycleEnumeration.FirstCallerLeads | src/salient_core/coord/delegation_graph.py:120-166 | of two agents that call each other the one that called first leads the list, so it is canonical if and only if its name is the lesser |
| CycleEnumeration.NotAlwaysCanonical | src/salient_core/coord/delegation_graph.py:120-166 | the input `[b -> a, a -> b]` lists `[b, a, b]` |
| CycleEnumeration.CycleSearch.RecordLoop | src/salient_core/coord/delegation_graph.py:147-152 | a loop is recorded, closed by the node it was entered at, exactly when no rotation of it is listed yet |
| CycleEnumeration.CycleSearch.Dfs | src/salient_core/coord/delegation_graph.py:143-160 | the shared stack is restored, and the list is what the search from the end of the stack is specified to list, in order; it terminates on the nodes not on the stack |
| CycleEnumeration.CycleSearch.Follow | src/salient_core/coord/delegation_graph.py:145-160 | following one call either records the loop it closes or lists all that lies beyond its target |
| CycleEnumeration.AllCycles | src/salient_core/coord/delegation_graph.py:120-166 | sound, complete and duplicate-free: only simple cycles of existing edges, every simple cycle up to rotation, no two results rotations of each other; and exactly the lists, in the order, that starting from the agents in the order of their first call finds |
| DelegationSafety.FanOutKeepsAcyclic | src/salient_core/coord/delegation_graph.py:178-210 | checking each fan-out target alone is enough: if the graph is acyclic and no target alone reaches the owner, adding all the edges at once keeps it acyclic |
| DelegationSafety.UnsafeTargetClosesLoop | src/salient_core/coord/delegation_graph.py:178-210 | and it is necessary: one target with a route back spoils the whole fan-out |
| DelegationSafety.SimpleRoute | src/salient_core/coord/delegation_graph.py:55-117 | a route can be cut to one without repeated nodes that is no longer |
| DelegationSafety.FoundCycleIsSimple | src/salient_core/coord/delegation_graph.py:101-112 | the path returned is a simple cycle of the graph extended by the proposed call |
| DelegationSafety.BoundIsHarmless | src/salient_core/coord/delegation_graph.py:55-117 | with at most `max_depth + 2` agents that place calls (or just one) the depth bound hides nothing |
| DelegationSafety.FanOutVerdictIsExact | src/salient_core/coord/delegation_graph.py:178-210 | on such fleets the separate verdicts on several targets are right about all of them at once: none finds a path if and only if the owner can call every target at the same time without closing a loop |
| DelegationSafety.FoundCycleIsListed | src/salient_core/coord/delegation_graph.py:55-166 | a cycle found for one call is among those `all_cycles` lists for the extended graph |
| DelegationSafety.SearchesAgree | src/salient_core/coord/delegation_graph.py:55-166 | on such fleets `find_cycle` finds a path if and only if `all_cycles` of the extended graph lists a cycle through the proposed call |
| BusRegistry.DepthExactly | src/salient_core/daemon/_questions.py:510-519 | the depth of a caller is 0 if no call in flight targets it; otherwise every such call lies strictly above, and one exactly one level above |
| BusRegistry.BusCalls.CallDepth | src/salient_core/daemon/_questions.py:510-519 | the loop computes that depth |
| BusRegistry.BusCalls.AdmissionRefuses | src/salient_core/daemon/_questions.py:521-543 | refused exactly when the registry is full or the call would be too deep, with the depth spelled out |
| BusRegistry.BusCalls.Register | src/salient_core/daemon/_questions.py:460-508 | one new row with a fresh id, one level below the deepest call that targets the caller, and nothing else changed |
| BusRegistry.BusCalls.Resolve | src/salient_core/daemon/_questions.py:595-600 | one step of the protocol: that row and no other is gone; idempotent |
| BusRegistry.BusCalls.TryAsk | src/salient_core/bus/_delegation.py:508-575 | cycle check, admission and registration as one section: which of the three replies is given, nothing changed by a refusal, and one step of the protocol otherwise |
| BusRegistry.BusCalls.TryFanOut | src/salient_core/bus/_delegation.py:1331-1387 | the fan-out is refused whole, naming every target whose loop the search sees, if there is one, and otherwise registers only the parent row, in one step of the protocol |
| DelegationProtocol.ShippedAdmission | src/salient_core/daemon/_questions.py:521-543 | with the shipped limits a call is admitted if and only if fewer than 256 are in flight and its depth is at most 8 |
| DelegationProtocol.LadderDepth | src/salient_core/daemon/_questions.py:510-543 | a ladder of calls, each placed by the target of the one before, has depths 0, 1, 2, ...: nine are admitted, the tenth is not |
| DelegationProtocol.RegistryStaysWellNumbered | src/salient_core/daemon/_questions.py:460-600 | in every run ids are distinct and in the order of registration, and no depth exceeds what admission allows |
| DelegationProtocol.ResolveTakesOne | src/salient_core/daemon/_questions.py:595-600 | so a resolve takes out one row and keeps the others in their order |
| DelegationProtocol.AskClosesNothing | src/salient_core/bus/_delegation.py:516-575 | a call let through closes no loop when few agents place calls, when the registry has few places, or when no agent that is being called may call |
| DelegationProtocol.StepKeepsSafe | src/salient_core/bus/_delegation.py:516-575 | under any of these three guards, registering after a passed check, and resolving at any time, keep the wait-for graph acyclic |
| DelegationProtocol.GuardedRunsAreSafe | src/salient_core/bus/_delegation.py:516-575 | under any of them, the graph stays acyclic over every interleaving of any number of calls |
| DelegationProtocol.SomeAgentCanRun | src/salient_core/bus/_delegation.py:508-522 | in an acyclic graph with calls in flight some waiting agent is held up by nobody who waits |
| DelegationProtocol.ChainStep | src/salient_core/bus/_delegation.py:522-575 | a chain can be grown at its head by calls that pass every check, at constant registry depth |
| DelegationProtocol.ClosingStep | src/salient_core/bus/_delegation.py:522-575 | once the chain has `max_depth + 2` calls, the call that closes it into a loop passes every check |
| DelegationProtocol.FanOutVerdictPastTheBound | src/salient_core/coord/delegation_graph.py:178-210 | on that chain a fan-out from its end to its beginning is let through although it closes a loop in an acyclic graph |
| DelegationProtocol.FanOutsExactExactly | src/salient_core/coord/delegation_graph.py:178-210 | for all fleets and bounds: the fan-out check is right about every acyclic graph of the fleet's calls if and only if at most `max_depth + 2` agents (or one) place calls |
| DelegationProtocol.UnguardedRunsCanLoop | src/salient_core/bus/_delegation.py:516-575 | without any of the guards there is a run that ends in a wait-for loop |
| DelegationProtocol.LoopFreeExactly | src/salient_core/bus/_delegation.py:516-575 | for all limits: no run ever contains a loop if and only if at most `max_depth + 2` agents place calls, or at most `max_depth + 2` calls fit, or nested calls are refused outright |
| DelegationProtocol.ShippedLimit | src/salient_core/bus/_delegation.py:516-575 | with the shipped constants (64, 8, 256): 66 agents are safe and 67 are not |
| DelegationProtocol.GuardedRunsNeverDeadlock | src/salient_core/bus/_delegation.py:508-522 | no guarded run deadlocks: while calls are in flight some waiting agent is held up by nobody who waits |
| AskAgent.RedispatchPhase | src/salient_core/bus/_delegation.py:592-659 | exactly the awaits, credits and exit that the flags, the count and the answer call for: the gate is asked exactly when neither flag exempts the call and the count is at the threshold |
| AskAgent.CreditsExactly | src/salient_core/bus/_delegation.py:637-659 | N redispatches are granted if and only if the gate was asked, the answer allows and says "yes N" with N above 1; one is spent if and only if it was an edit or a plain yes |
| AskAgent.AwaitOperator | src/salient_core/bus/_delegation.py:628-649 | each way the wait can end has its exit: passed on, refused, timed out, cancelled, or failed |
| AskAgent.StartTarget | src/salient_core/bus/_delegation.py:681-692 | starting the target: an ordinary failure, or an agent that does not register, ends in an error text; only a cancellation is raised |
| AskAgent.StartPhase | src/salient_core/bus/_delegation.py:661-731 | a target that is not running is started exactly when the operator or a trust bypass allows it, right after that answer; an unknown target ends the call |
| AskAgent.GatePhase | src/salient_core/bus/_delegation.py:733-779 | the delegation gate and the re-fetch of the runner: what is awaited and which exit follows from each answer |
| AskAgent.SetUp | src/salient_core/bus/_delegation.py:592-865 | each gate is reached exactly when everything before it went through |
| AskAgent.Dispatch | src/salient_core/bus/_delegation.py:780-1089 | the submission, the wait and the cleanup: the exact actions and the exit, for every outcome |
| AskAgent.Submitted | src/salient_core/bus/_delegation.py:866-902 | the id of the submitted job is kept, the redispatch counter moves exactly when the flag does not skip it, and the pump starts exactly when the caller has a pane |
| AskAgent.AwaitReply | src/salient_core/bus/_delegation.py:957-1006 | the exit for every way the wait, the job and the drain of the echo pump can end, and what the cleanup finds |
| AskAgent.JoinPump | src/salient_core/bus/_delegation.py:1008-1039 | joining the echo pump: a cancellation of the call is remembered, one of the pump alone is not taken for it |
| AskAgent.ReapChild | src/salient_core/bus/_delegation.py:1040-1078 | a stop is spawned if and only if a child was submitted and neither replied nor was detached; it is awaited unless the call is being cancelled, and only a cancellation of that wait changes the exit |
| AskAgent.Cleanup | src/salient_core/bus/_delegation.py:1008-1089 | the call is resolved exactly once, last, and a cancellation deferred by the cleanup is raised after it |
| AskAgent.Run | src/salient_core/bus/_delegation.py:569-1089 | a whole call does exactly the actions, in order, and takes exactly the exit that its environment determines |
| AskAgent.SubmittedExactly | src/salient_core/bus/_delegation.py:592-902 | a child is submitted if and only if every gate the call needs was passed, the target is configured, up and still running, the provenance entry was not cancelled, and the runner took the job |
| AskAgent.GatesAskedExactly | src/salient_core/bus/_delegation.py:592-779 | each gate is awaited if and only if it is needed and everything before it was passed |
| AskAgent.GatesComeBeforeSubmit | src/salient_core/bus/_delegation.py:592-902 | every gate comes before the submission |
| AskAgent.EverythingInOrder | src/salient_core/bus/_delegation.py:569-1089 | whatever happens, a call does things in one order and nothing twice: registration, gates, submission, wait, pump, unsubscribing, stop of the child, resolve |
| AskAgent.WaitsExactly | src/salient_core/bus/_delegation.py:866-1078 | after the submission the pump is started, drained or joined, the reply awaited, the subscription ended and the stop awaited exactly when there is something to start, drain, join, await or end |
| AskAgent.StartFollowsItsGate | src/salient_core/bus/_delegation.py:694-731 | the start comes right after the operator said anything but no |
| AskAgent.RepliesExactly | src/salient_core/bus/_delegation.py:957-1006 | the reply is returned if and only if the job was submitted and answered without an error and the drain of a running pump did not fail |
| AskAgent.CancelledExactly | src/salient_core/bus/_delegation.py:569-1089 | the call ends cancelled if and only if an await of the set-up, the reply, the join of a remaining pump or the wait for the stop was cancelled |
| AskAgent.RaisesExactly | src/salient_core/bus/_delegation.py:569-1089 | it raises an error if and only if a gate failed unexpectedly, the runner did not take the job, or reply or drain failed and no cancellation followed |
| AskAgent.CancellationIsLostExactlyInDrain | src/salient_core/bus/_delegation.py:994-1006 | a call asked to cancel ends cancelled, except if and only if it submitted, the answer is in hand, an echo pump is running and the cancellation lands on its drain; then the reply is returned |
| AskAgent.ACancellationIsLost | src/salient_core/bus/_delegation.py:994-1006 | an ordinary call to a running target to which that happens |
| AskAgent.ExitsAreClean | src/salient_core/bus/_delegation.py:866-1089 | on every exit: registered first, resolved once and last, one counter move exactly for a counted submission |
| AskAgent.StopsExactly | src/salient_core/bus/_delegation.py:1040-1078 | a child is stopped if and only if it was submitted, has not replied and was not detached |
| Redispatch.CountAfterCall | src/salient_core/bus/_delegation.py:592-659 | a whole call moves the counter to what the answer makes of it, if there is one, and by one more if it is dispatched and counted |
| Redispatch.AsksExactly | src/salient_core/bus/_delegation.py:603-606 | the operator is asked if and only if neither flag exempts the call and the counter has reached the threshold less one |
| Redispatch.FirstDispatchesAreFree | src/salient_core/policy/safeguards.py:343-355 | from a fresh counter exactly `threshold - 1` dispatches pass before the operator is asked |
| Redispatch.PlainYesRearms | src/salient_core/daemon/_questions.py:764-773 | after a plain yes, or an edit, the very next governed call asks again |
| Redispatch.YesNReopensExactly | src/salient_core/daemon/_questions.py:774-787 | after "yes N" a governed call asks if and only if at least `N + threshold - 2` calls, the approved one among them, have been dispatched |
| Redispatch.YesNIsWorthExactly | src/salient_core/daemon/_questions.py:774-787 | so the promised N dispatches pass if and only if the threshold is the default 2 |
| Redispatch.YesNRun | src/salient_core/daemon/_questions.py:764-787 | for every N and threshold there is a run in which just that many calls are dispatched: "yes 2" lets three through under threshold 3 |
| Redispatch.Governor.constructor | src/salient_core/policy/safeguards.py:343-384 | all counters start at 0; the threshold is at least 2, and 2 when missing or no number |
| Redispatch.Governor.Check | src/salient_core/daemon/_questions.py:737-752 | the count of that pair, forgotten if it was left alone for longer than the idle limit; no other pair is touched |
| Redispatch.Governor.IncrementCount | src/salient_core/daemon/_questions.py:754-762 | one more for that pair and no other |
| Redispatch.Governor.Spend | src/salient_core/daemon/_questions.py:764-773 | that pair is put right below the threshold, no other is touched |
| Redispatch.Governor.Grant | src/salient_core/daemon/_questions.py:774-787 | that pair gets a credit of N - 1, or is spent for N up to 1; no other is touched |
| JsonSchema.FollowingShrinks | src/salient_core/bus/_common.py:109-125 | following a definition not yet on the stack shrinks the termination measure |
| SchemaInliner.Resolve | src/salient_core/bus/_common.py:111-137 | the inliner, branch by branch, with a measure that proves it terminates on every finite schema |
| SchemaInliner.ResolveEach | src/salient_core/bus/_common.py:120-137 | exactly the fields that are not skipped survive, under their own names |
| SchemaCycles.RefusesExactly | src/salient_core/bus/_common.py:113-119 | a subtree is refused if and only if a chain of references from it comes back to a definition being inlined or to one of its own |
| SchemaCycles.RecursiveExactly | src/salient_core/bus/_common.py:113-119 | a schema is refused as recursive if and only if a chain of references starting in it names a definition twice |
| SchemaMeaning.DataUnchanged | src/salient_core/bus/_common.py:136-137 | data without objects (`enum`, `const`, `required`, bounds) passes through unchanged |
| SchemaMeaning.MeaningKept | src/salient_core/bus/_common.py:111-137 | every cleaned subtree means what the subtree meant, under any stack of definitions being inlined |
| SchemaMeaning.KeywordKept | src/salient_core/bus/_common.py:124-137 | each keyword of a cleaned object judges every instance as before |
| SchemaMeaning.MergedBySides | src/salient_core/bus/_common.py:119-123 | target keywords and sibling keywords merged into one object mean what both meant |
| SchemaMeaning.ReferenceKept | src/salient_core/bus/_common.py:112-123 | inlining a reference and merging its siblings preserves meaning |
| SchemaMeaning.CleaningPreservesMeaning | src/salient_core/bus/_common.py:88-146 | the cleaned schema, read without any definitions, accepts exactly the instances the original accepts, for any reading of the plain keywords, when references resolve, siblings do not clash and data keywords hold no objects |
| SchemaMeaning.ReferenceMeansBoth | src/salient_core/bus/_common.py:112-123 | what a reference with keywords beside it means is the cleaned target and the cleaned siblings, each on its own; what the inliner makes of it is the two merged |
| SchemaMeaning.MergedExactly | src/salient_core/bus/_common.py:119-123 | the merge means the siblings, the target keywords no sibling overwrites, and `additionalProperties` over all the names now declared |
| SchemaMeaning.BothExactly | src/salient_core/bus/_common.py:119-123 | target and siblings together mean that, the overwritten keywords, and each `additionalProperties` over its own names |
| SchemaMeaning.ClashExactly | src/salient_core/bus/_common.py:119-123 | whatever keywords clash, the verdict on an instance is kept if and only if what survives the merge implies what it overwrote, and the merged `additionalProperties` says what the two separate ones said |
| SchemaMeaning.OneClash | src/salient_core/bus/_common.py:119-123 | with a single clashing keyword: if and only if the sibling implies the target |
| ToolSchema.LoudExactly | src/salient_core/bus/_common.py:111-142 | what the inliner makes of a schema mentions `$ref` or `$defs` if and only if a name or text that is reached, kept and not overwritten beside a `$ref` does |
| ToolSchema.CleanToolSchemaExactly | src/salient_core/bus/_common.py:88-146 | any schema, exactly: recursive if and only if a chain of references names a definition twice; refused by the closing check if and only if not recursive but loud; otherwise the result mentions no reference and, where the inliner is supported, means the same |
| ToolSchema.QuietSchemasAreCleaned | src/salient_core/bus/_common.py:139-146 | a simple sufficient condition: a schema and definitions that mention references only where they are followed never trip the closing check |
| ToolSchema.ATextIsRefused | src/salient_core/bus/_common.py:139-146 | `{"description": "$ref"}` is refused |
| ToolSchema.NestedDefinitionsAreRefused | src/salient_core/bus/_common.py:119-146 | `{"items": {"$ref": "A", "$defs": {}}, "$defs": {"A": {}}}` is refused |
| ToolSchema.UnreachedDefinitionsAreIgnored | src/salient_core/bus/_common.py:109-146 | `{"$defs": {"A": {"description": "$ref"}}}` is cleaned to the empty schema |
| ToolSchema.RootReferencesAreRefused | src/salient_core/bus/_common.py:119-146 | a root that carries both `$ref` and `$defs` is never accepted, recursive or not |
| ToolSchema.KeywordsThatSurvive | src/salient_core/bus/_common.py:119-134 | `title` never survives as a keyword; `default` survives exactly when it stands beside a `$ref` somewhere along the chain; without a `$ref` all property names survive |
| ToolSchema.FieldNamesBesideReference | src/salient_core/bus/_common.py:93-134 | beside a `$ref` the property names all survive if and only if none is `$ref`, `$defs`, `title` or `default`; below a field called `properties` all names survive |
| ToolSchema.ATitleFieldCanBeLost | src/salient_core/bus/_common.py:93-134 | `{"$ref": "A", "properties": {"title": null}}` loses its field |
| ToolSchema.AcyclicRootIsRefused | src/salient_core/bus/_common.py:119-146 | a root that refers to an empty model is not recursive, and refused |
| ToolSchema.DefaultCanSurvive | src/salient_core/bus/_common.py:119-123 | `{"$ref": "A", "default": null}` with `A` defined keeps its `default` although every one is promised to be dropped |
| Subscription.PushKeepsSuffix | src/salient_core/daemon/_event_hub.py:147-164 | drop-oldest keeps the queue a suffix of what was published |
| Subscription.TakeKeepsSuffix | src/salient_core/daemon/_event_hub.py:147-164 | a consumer receives the oldest event its queue still holds |
| Subscription.PushKeepsTables | src/salient_core/daemon/_event_hub.py:147-160 | the streak and the start time measure the publishes since the last progress |
| Subscription.RunKeepsInv | src/salient_core/daemon/_event_hub.py:136-173 | in every run: the queue is a bounded contiguous suffix of the publications, each event is received, queued or dropped exactly once, and received plus queue is the whole history if it never was full |
| Subscription.EvictedExactly | src/salient_core/daemon/_event_hub.py:165-184 | evicted if and only if, since its last progress, its free places were used up and `evict_after` more events published, the first of them at least the floor ago |
| Subscription.EvictedSeesTheNotice | src/salient_core/daemon/_event_hub.py:186-220 | an evicted consumer finds exactly one sentinel and nothing else |
| EventHub.Hub.constructor | src/salient_core/daemon/_event_hub.py:71-103 | sizes and thresholds are clamped to their minimum; nothing published, no subscriber, sentinel numbers start below 0 |
| EventHub.Hub.Subscribe | src/salient_core/daemon/_event_hub.py:105-128 | the snapshot ends with the last event published and the queue starts there: no gap |
| EventHub.Hub.Unsubscribe | src/salient_core/daemon/_event_hub.py:130-134 | the subscriber is gone from all three tables and no other is affected |
| EventHub.Hub.Receive | src/salient_core/daemon/_event_hub.py:147-164 | one frame is taken, the oldest, from that queue only |
| EventHub.Hub.Publish | src/salient_core/daemon/_event_hub.py:136-173 | one step of the hub: each subscriber takes exactly one step of its machine, others none; eviction notices carry fresh, pairwise different, decreasing numbers |
| EventHub.Hub.DeliverToAll | src/salient_core/daemon/_event_hub.py:140-173 | the loop over the subscribers there were at its start |
| EventHub.Hub.Remember | src/salient_core/daemon/_event_hub.py:137-139 | the ring holds the last events published |
| EventHub.Hub.Offer | src/salient_core/daemon/_event_hub.py:147-164 | drop the oldest and count, or clear the trouble state; then append |
| EventHub.Hub.Drop | src/salient_core/daemon/_event_hub.py:130-134 | out of the subscribers and of both tables |
| EventHub.Hub.DeliverTo | src/salient_core/daemon/_event_hub.py:140-173 | one turn of the loop is one step of that subscriber's machine |
| EventHub.Hub.Evict | src/salient_core/daemon/_event_hub.py:186-220 | subscription and tables cleared, queue drained, one sentinel with the next number, which is negative |
| EventHub.OneMore | src/salient_core/daemon/_event_hub.py:140-173 | one more delivery keeps what the loop promises about all subscribers |
| HubRuns.QueueFollowsItsMachine | src/salient_core/daemon/_event_hub.py:105-220 | in every run of the hub, with any number of other subscribers coming and going, a queue is from its subscription on what its own machine makes of the events, until its consumer leaves |
| HubRuns.LiveQueueIsRecent | src/salient_core/daemon/_event_hub.py:105-173 | so a consumer that is still subscribed has in its queue the last events sent since it subscribed, in order and no more than its places |
| HubRuns.NoticesStayApart | src/salient_core/daemon/_event_hub.py:186-220 | in every run the notices waiting to be read are alone in their queues, have negative numbers and no two the same |
| HubRuns.NumbersAreNeverReused | src/salient_core/daemon/_event_hub.py:186-220 | over a whole run no two evictions share a number, read or not, and every publish numbers its notices below all earlier ones |
| HubRuns.NothingAfterLeaving | src/salient_core/daemon/_event_hub.py:130-134 | in every run a queue whose consumer left or was evicted receives nothing more: it only gets shorter from the front |
| HubRuns.LeavingExactly | src/salient_core/daemon/_event_hub.py:130-134 | leaving keeps what is queued and changes no other subscriber |
| StoreCoherence.TransactIsAtomic | src/salient_core/bus/_context_store.py:560-607 | whatever fails (a statement, a commit before or after it took effect, a rollback by a database error or by anything else), the tables have all of the operation or none, and a later transaction starts from them or is refused |
| StoreCoherence.DirtyConnectionsFlush | src/salient_core/bus/_context_store.py:560-607 | why the rollback and the dropped connection are there: without them the next commit flushes what was rejected, unless the open-transaction guard refuses it |
| StoreCoherence.GuardHoldsTheFlush | src/salient_core/bus/_context_store.py:583-607 | why the guard is there: a rollback that is itself interrupted leaves the rejected statements pending, and the next transaction is refused |
| StoreCoherence.OnceDirtyAlwaysRefused | src/salient_core/bus/_context_store.py:583-607 | from then on every operation is refused and nothing changes, for good |
| StoreCoherence.StepKeepsUnbroken | src/salient_core/bus/_context_store.py:622-678 | every operation, however it ends, leaves the store so, with the tables changed exactly if its commit took effect |
| StoreCoherence.StepAgreesExactly | src/salient_core/bus/_context_store.py:593-678 | cache and tables stay equal if and only if the operation does not raise after its commit took effect, or had no effect on what is cached |
| StoreCoherence.AnInterruptSplitsThem | src/salient_core/bus/_context_store.py:589-607 | a write interrupted right after its commit: in the database, not in the cache, and back after a restart |
| StoreCoherence.RunAgreesExactly | src/salient_core/bus/_context_store.py:560-678 | in any run on an open store cache and tables agree if and only if the operations that took effect and those that returned come to the same |
| StoreCoherence.DiskIsReplayOfLanded | src/salient_core/bus/_context_store.py:560-678 | whatever fails in a run, the database holds exactly the operations whose commit took effect, in order: nothing rejected is ever flushed later |
| StoreCoherence.CacheIsReplayOfReturned | src/salient_core/bus/_context_store.py:560-678 | while there is a connection the cache holds exactly the operations that returned |
| StoreCoherence.DiskIsReplayOfAccepted | src/salient_core/bus/_context_store.py:560-678 | unless some operation raises after its commit took effect, the database holds exactly the operations that returned while there was a connection, and the cache agrees with it throughout |
| StoreCoherence.LastPutWins | src/salient_core/bus/_context_store.py:560-678 | in every run, at each place, the database holds what the last operation that took effect there put, and with a connection the cache holds what the last one that returned put |
| StoreCoherence.SweepDeletesNotes | src/salient_core/bus/_context_store.py:729-742 | a key such as `job_notes` does not survive the sweep, which is documented to remove only `job_<digits>` |
| StoreCoherence.SweepKeepsExactly | src/salient_core/bus/_context_store.py:729-742 | a key survives the sweep, with its entry, if and only if it does not begin with the four characters `job_`; nothing else is touched, and the cache is swept of the same keys |
| StoreCoherence.SweepIsSafeExactly | src/salient_core/bus/_context_store.py:729-742 | only job numbers go if and only if every stored key that starts with `job_` is one |
| ContextStore.ReadContext | src/salient_core/bus/_context_store.py:548-555 | the loop reads the whole table into the cache |
| ContextStore.ReadMeta | src/salient_core/bus/_context_store.py:556-558 | likewise for the singletons, without their timestamps |
| ContextStore.Store.constructor | src/salient_core/bus/_context_store.py:241-330 | a new store over any database starts with cache and tables equal |
| ContextStore.Store.Hydrate | src/salient_core/bus/_context_store.py:548-558 | the caches are what the tables say |
| ContextStore.Store.Close | src/salient_core/bus/_context_store.py:703-707 | the connection is gone and the tables are untouched |
| ContextStore.Store.Txn | src/salient_core/bus/_context_store.py:560-607 | begin, statements, commit, rollback and dropping the connection, step by step, are the transaction of the specification, for every fault |
| ContextStore.Store.Commit | src/salient_core/bus/_context_store.py:592-592 | if it takes effect, what the connection sees becomes the tables; it may raise either way |
| ContextStore.Store.Record | src/salient_core/bus/_context_store.py:744-790 | one statement on a table that is not cached: done, counted as a database error, or raised on |
| ContextStore.Store.Write | src/salient_core/bus/_context_store.py:651-663 | commit first, cache second |
| ContextStore.Store.Delete | src/salient_core/bus/_context_store.py:670-678 | likewise, and whether the key was there |
| ContextStore.Store.MetaSet | src/salient_core/bus/_context_store.py:622-636 | likewise for a singleton |
| ContextStore.Store.MetaDelete | src/salient_core/bus/_context_store.py:638-649 | likewise, and whether it was there |
| ContextStore.Store.GcStaleJobKeys | src/salient_core/bus/_context_store.py:729-742 | one step: from the cache go exactly the keys that begin with `job_`, if it returned and there is a connection; every other entry stays as it is |
| ContextStore.Store.RecordEvent | src/salient_core/bus/_context_store.py:744-805 | one insert and a sweep every interval, each one step of a store run; database errors are swallowed, anything else is raised, and nothing else is touched |
| ContextStore.Store.CountInsert | src/salient_core/bus/_context_store.py:797-805 | the counter and the sweep after an insert, for every way the sweep can end; an interrupted sweep leaves the counter as it stands |
| ContextStore.Store.PruneEvents | src/salient_core/bus/_context_store.py:496-546 | one step: all agents trimmed or none, and what that does to the counts |
| ContextStore.Store.RecordAuditMirror | src/salient_core/bus/_context_store.py:1110-1175 | one step; the answer is false exactly when a database is attached and the write met a database error; anything else is raised; what the mirror then holds |
| EventRetention.SelectOldest | src/salient_core/bus/_context_store.py:530-538 | the rows selected are of that agent, of that number, and none newer than one that stays |
| EventRetention.Trim | src/salient_core/bus/_context_store.py:519-541 | every agent is left with `min(count, cap)` rows, none older than a removed one; agents within the cap keep all |
| EventRetention.CallKeepsBound | src/salient_core/bus/_context_store.py:794-805 | one call, with each of its transactions ending in any way, keeps the bound |
| EventRetention.GrowthIsBounded | src/salient_core/bus/_context_store.py:794-805 | over every run no agent exceeds the cap plus the counter, plus one interval per sweep that failed and one per insert or sweep that an interrupt kept from being counted since the last sweep that took effect: `cap + interval - 1` while nothing fails |
| EventRetention.CapIsKept | src/salient_core/bus/_context_store.py:496-546 | and in every run an agent has at least `cap` rows, or all it ever had: a sweep takes nothing within the cap |
| EventRetention.KeptUntilInterval | src/salient_core/bus/_context_store.py:797-805 | until `interval` calls have been made since the last sweep every row is kept |
| EventRetention.NoCapKeepsAll | src/salient_core/bus/_context_store.py:516-519 | with the cap off no row is ever removed |
| AuditMirror.MaxSeqIsCount | src/salient_core/bus/_context_store.py:1141-1145 | MAX+1 over a well-kept correlation is its number of rows plus one |
| AuditMirror.InsertKeeps | src/salient_core/bus/_context_store.py:1139-1167 | one insert keeps numbering and uniqueness |
| AuditMirror.RunsKeepMirror | src/salient_core/bus/_context_store.py:1139-1167 | however calls interleave, every correlation is numbered 1..k in insertion order and no tool call has two rows |
| AuditMirror.TableIsFirstCalls | src/salient_core/bus/_context_store.py:1110-1167 | after any run the table holds, in order and as they were made up to their numbers, exactly the calls without a tool-use id and the first call with each id |
| AuditMirror.LoadOrderIsInsertionOrder | src/salient_core/bus/_context_store.py:1280-1290 | insertion order is the one order of the rows that is sorted by `seq` |
| AuditMirror.SuccessMeansPresentExactly | src/salient_core/bus/_context_store.py:1122-1131 | a successful call leaves a row in its own correlation and of its own operation if and only if its tool-use id was not taken by another correlation or for another operation |
| AuditMirror.SuccessCanLeaveNoRow | src/salient_core/bus/_context_store.py:1122-1131 | two correlations record one id: the second call succeeds and its correlation stays empty |
| HookReplay.StepKeeps | src/salient_core/daemon/_policy_hook_adapter.py:80-132 | every step keeps the capacity, the outcomes and everything known so far |
| HookReplay.RunKeeps | src/salient_core/daemon/_policy_hook_adapter.py:99-112 | the table never exceeds its capacity, and every entry that is ready has an outcome |
| HookReplay.NothingForgotten | src/salient_core/daemon/_policy_hook_adapter.py:92-112 | no id is ever forgotten and its fingerprint never changes |
| HookReplay.OneOwner | src/salient_core/daemon/_policy_hook_adapter.py:80-112 | in every interleaving an id has at most one owner; a later call waits if it is the same invocation and is rejected otherwise |
| HookReplay.ReservesExactly | src/salient_core/daemon/_policy_hook_adapter.py:80-112 | in every state: a usable id becomes owner if and only if it is new and there is room, and waits if and only if it is known for the same invocation; an id of blanks, or none, is rejected |
| HookReplay.AnswerIsTheVerdict | src/salient_core/daemon/_policy_hook_adapter.py:92-132 | in every run a waiter hears the verdict of the last completion of its id, and a refusal if there was none |
| HookReplay.FailingRefuses | src/salient_core/daemon/_policy_hook_adapter.py:124-132 | an owner that fails without having completed leaves a refusal for everyone who wakes up afterwards, unless somebody completes it after all |
| HookReplay.AnswersAgreeExactly | src/salient_core/daemon/_policy_hook_adapter.py:92-132 | in every run two answers on one id agree if and only if the last completion of that id between them, if there is one, carries the first answer's verdict |
| HookReplay.WaitersAgree | src/salient_core/daemon/_runner_factory.py:745-845 | so when the owner completes at most once and fails only afterwards, as both hooks do, all waiters on an id get one and the same outcome |
| HookReplay.CompletingTwiceSplitsWaiters | src/salient_core/daemon/_policy_hook_adapter.py:114-122 | the cache alone does not enforce that: a driver that completed twice could give two waiters different outcomes |
| HookReplay.HookReplayCache.Reserve | src/salient_core/daemon/_policy_hook_adapter.py:80-112 | one step of the protocol: rejected, waiting or owner |
| HookReplay.HookReplayCache.Wake | src/salient_core/daemon/_policy_hook_adapter.py:96-102 | a waiter that wakes up reads the outcome |
| HookReplay.HookReplayCache.Complete | src/salient_core/daemon/_policy_hook_adapter.py:114-122 | one step of the protocol |
| HookReplay.HookReplayCache.Fail | src/salient_core/daemon/_policy_hook_adapter.py:124-132 | one step of the protocol; nothing if already settled |
| CodexGateway.StepKeepsCover | src/salient_core/codex_mcp.py:356-367 | from its snapshot on, a revoke has every unfinished call of its catalog in hand |
| CodexGateway.KeepsInv | src/salient_core/codex_mcp.py:313-541 | every atomic section keeps: one live catalog per owner, no live one revoked, every call pending or finished |
| CodexGateway.RunKeeps | src/salient_core/codex_mcp.py:313-541 | all of that holds after every step of every run |
| CodexGateway.RevokeIsFinal | src/salient_core/codex_mcp.py:342-367 | in every interleaving, once revoke has returned every call the catalog ever scheduled has finished or been cancelled, and none has been scheduled since the flag was set |
| CodexGateway.RevokeTwiceIsNothing | src/salient_core/codex_mcp.py:342-357 | in every run, revoking a token again changes nothing until it is issued anew |
| CodexGateway.OrphansAreNeverRevoked | src/salient_core/codex_mcp.py:335-339 | a catalog dropped without the flag can never be revoked afterwards |
| CodexGateway.OrphansKeepScheduling | src/salient_core/codex_mcp.py:335-506 | so in every run a dispatch that still holds it schedules its call, whatever was revoked in between |
| CodexGateway.WhoOrphans | src/salient_core/codex_mcp.py:387-396 | a token disappears by a revoke, with the flag set, or by issue or close, without it |
| CodexGateway.TokensExactly | src/salient_core/codex_mcp.py:313-396 | a token keeps its catalog, and disappears exactly by its own revoke, by an issue to the same owner, or by close |
| CodexGateway.PendingUntilDiscarded | src/salient_core/codex_mcp.py:494-541 | in every run a scheduled call is pending exactly until its dispatch discards it |
| CodexGateway.CloseFinishesCalls | src/salient_core/codex_mcp.py:387-396 | once close has returned every call that a live catalog had scheduled before has finished or been cancelled |
| CodexGateway.FinishedExactly | src/salient_core/codex_mcp.py:342-396 | a step finishes only the call that ends by itself, or one that a revoke or close has in hand |
| CodexGateway.SupersededStillSchedules | src/salient_core/codex_mcp.py:335-340 | a run in which a call is scheduled on a catalog that a newer one superseded, after its token was revoked |
| CodexGateway.ClosedStillSchedules | src/salient_core/codex_mcp.py:387-410 | a run in which a call is scheduled on a catalog after `close` has returned |
| CodexGateway.WithoutOwner | src/salient_core/codex_mcp.py:335-339 | the loop drops exactly the catalogs of that owner |
| CodexGateway.CodexMcpGateway.Issue | src/salient_core/codex_mcp.py:313-340 | one step; at most one catalog per owner afterwards |
| CodexGateway.CodexMcpGateway.Retire | src/salient_core/codex_mcp.py:356-364 | the locked section of revoke is one step |
| CodexGateway.CodexMcpGateway.CancelPending | src/salient_core/codex_mcp.py:365-367 | the cancelling loop is a run of single steps, one snapshot and one cancellation for each call then pending, and leaves them all finished |
| CodexGateway.CodexMcpGateway.Schedule | src/salient_core/codex_mcp.py:494-506 | the locked section of dispatch is one step |
| CodexGateway.CodexMcpGateway.Discard | src/salient_core/codex_mcp.py:538-541 | the cleanup of dispatch is one step |
| CodexGateway.CodexMcpGateway.Revoke | src/salient_core/codex_mcp.py:342-367 | undisturbed, revoke is a run of steps from its own to its return that leaves the token gone, the flag set and all its calls finished; an unknown token changes nothing |
| Reconstruction.OldFormExactly | src/salient_core/coord/reconstruct.py:63-74 | an id in the current four-part form is never taken for a legacy one; one in the old form always is |
| Reconstruction.LegacyExactly | src/salient_core/coord/reconstruct.py:62-74 | an id is taken for a legacy one if and only if two colons cut it into three parts of which the middle one is a number |
| Reconstruction.GapsCoverShortfall | src/salient_core/coord/reconstruct.py:196-205 | the gaps cover the multiset difference key by key, one gap per missing deny |
| Reconstruction.GapsArePicked | src/salient_core/coord/reconstruct.py:200-205 | the gaps are authoritative rows in their order, none taken twice |
| Reconstruction.BuildReconstruction | src/salient_core/coord/reconstruct.py:173-220 | the strong check is used if and only if there are denies and each has a nonempty id; both counts, the gaps, and `complete` if and only if found, clean and not legacy |
| Reconstruction.PickGaps | src/salient_core/coord/reconstruct.py:200-205 | the loop takes the first rows of each missing key |
| Reconstruction.CleanIsEqual | src/salient_core/coord/reconstruct.py:192-195 | no missing and no orphan if and only if the two multisets of keys are equal |
| Reconstruction.OneDenyOneRow | src/salient_core/coord/reconstruct.py:77-110 | a mirror row answers a deny if and only if the ids agree under the strong check, agent and tool under the weak one |
| Reconstruction.ShadowedDeniesCount | src/salient_core/coord/reconstruct.py:45-52 | authoritative rows mirrored one for one by enforced or shadowed denies, in any mix, are clean under both checks |
| Reconstruction.BlocksCountForNothing | src/salient_core/coord/reconstruct.py:54-60 | a safeguard block, budget park or authorization latch changes no count, wherever it stands |
| Reconstruction.StrongIsExact | src/salient_core/coord/reconstruct.py:181-195 | with unique ids on both sides the strong check is clean if and only if the two id sets are equal |
| Reconstruction.StrongImpliesWeak | src/salient_core/coord/reconstruct.py:181-195 | a clean strong check implies a clean weak check when twins agree on agent and tool |
| Reconstruction.WeakMissesASwap | src/salient_core/coord/reconstruct.py:77-100 | a dropped deny and a spurious one of the same agent and tool cancel under the weak check and not under the strong one |
| Reconstruction.LimitExactly | src/salient_core/coord/reconstruct.py:112-120 | under one check, the loaded verdict is the full one if and only if the rows past the limit agree, or neither is clean; a clean verdict on either side is right exactly when they agree |
| Reconstruction.VerdictUnderLimitExactly | src/salient_core/coord/reconstruct.py:112-220 | the same when the limit changes which check is used, provided loaded twins agree on agent and tool |
| Reconstruction.FewDeniesExactly | src/salient_core/coord/reconstruct.py:112-120 | with at most 500 denies the verdict is right if and only if the mirror has no deny past its first 500 rows, or it is not clean anyway; always, with both within the limit |
| Reconstruction.LimitHidesLostDenies | src/salient_core/coord/reconstruct.py:112-120 | past 500 denies a mirror that lost the rest looks whole |
| Reconstruction.LimitRaisesFalseAlarms | src/salient_core/coord/reconstruct.py:112-120 | 500 perfectly mirrored denies after one block row are reported as incomplete |
| Reconstruction.OrderAtTheLimitRaisesFalseAlarms | src/salient_core/coord/reconstruct.py:112-120 | 501 perfectly mirrored denies are, too, if the two sides put the last two in different orders |
| Reconstruction.RecordedDeniesAreClean | src/salient_core/coord/reconstruct.py:178-220 | joined with the writer: if every authoritative deny was recorded under the correlation, with any replays, and with rows of other kinds, other correlations or no id in between, the strong verdict is clean |
| Reconstruction.CleanMeansRecorded | src/salient_core/coord/reconstruct.py:178-220 | whatever calls there were, under a clean strong verdict every authoritative deny was recorded, as a deny and under this correlation |
| Reconstruction.CleanExactlyWhenRecorded | src/salient_core/coord/reconstruct.py:178-220 | so through the writer the strong verdict is clean if and only if every authoritative deny was recorded |
| ContextSlicer.Slice | src/salient_core/bus/_context.py:293-312 | each line at most once, in strictly increasing order across blocks; exactly the union of the clamped windows of the first `max_matches` matches; no empty block; the match count |
| ContextSlicer.PrintWindow | src/salient_core/bus/_context.py:300-308 | the inner loop prints the lines of one window that are not out yet |
| ContextSlicer.CountedAreFirst | src/salient_core/bus/_context.py:293-299 | the matches that count are as many as there are, up to `max_matches` |
| ContextSlicer.EarlierMatchesCount | src/salient_core/bus/_context.py:293-299 | and they are the first: a match before one that counts counts |
| ContextSlicer.PrintedExactly | src/salient_core/bus/_context.py:300-308 | a line is printed if and only if a counted match is at most `after` lines above it or `before` lines below it |
| ContextSlicer.NewLinesAreLater | src/salient_core/bus/_context.py:300-308 | windows slide forward: what a match adds lies behind everything already out |
| ContextSlicer.DashedMatchExactly | src/salient_core/bus/_context.py:302-308 | a counted match keeps `-` if and only if an earlier counted match reached it with its trailing context |
| ContextSlicer.OneMoreMatch | src/salient_core/bus/_context.py:348-367 | one more match keeps the promise about what has been printed (the loop of `context_section` is the same) |
| FlagScanner.FlagsAllSafe | src/salient_core/codex.py:294-323 | the loop accepts exactly the recursive language of safe argument lists |
| FlagScanner.ConcatenationExactly | src/salient_core/codex.py:294-323 | after an accepted list, `a + b` is accepted if and only if `a` has a `--` in option position or `b` is accepted |
| FlagScanner.AcceptedConcatenate | src/salient_core/codex.py:294-323 | acceptance is closed under concatenation |
| FlagScanner.MissingFlagIsRefused | src/salient_core/codex.py:302-322 | a long flag, or a single short one, that is not in the table refuses the list, with or without a value, after any accepted list without a terminator |
| FlagScanner.KnownFlagPasses | src/salient_core/codex.py:302-316 | a flag in the table passes, and one that takes a value takes what follows the `=`, or else the next token, which has to be there |
| FlagScanner.GluedLettersExactly | src/salient_core/codex.py:317-321 | several letters behind one dash that are not in the table as they stand pass if and only if the first is a flag with a value, or all are valueless flags |
| FlagScanner.PositionalsPass | src/salient_core/codex.py:302-310 | what does not begin with a dash, or is just one, is passed over; `--` lets everything after it through |
| FlagScanner.PartsOfToken | src/salient_core/codex.py:311-312 | a token is its flag part and, after the first `=`, its value |
| FlagScanner.TerminatedByDashes | src/salient_core/codex.py:302-310 | options end only at a `--` |
| FlagScanner.DashesTerminate | src/salient_core/codex.py:302-310 | and they end at every `--` behind an accepted list |
| FlagScanner.UnknownFlagIsRefused | src/salient_core/codex.py:310-322 | after an accepted list without a terminator, a token whose flag part is not in the table refuses the list unless it has several letters behind one dash, of which the first is a flag with a value or all are valueless flags |
| FlagScanner.BundleIsItsFlags | src/salient_core/codex.py:317-321 | a bundle of valueless short flags is worth exactly its flags one by one |
| BudgetLedger.SpentWithNew | src/salient_core/daemon/_budget.py:100-109 | a new entry adds its tokens to the sums of its agent and to no other |
| BudgetLedger.LedgerIsFirstCharges | src/salient_core/daemon/_budget.py:90-98 | after any run the ledger holds exactly the first charge of every turn |
| BudgetLedger.OrderDoesNotMatter | src/salient_core/daemon/_budget.py:79-98 | two runs with the same first charges give the same ledger |
| BudgetLedger.SpendNeverFalls | src/salient_core/daemon/_budget.py:90-109 | spend never decreases |
| BudgetLedger.RestoreUndoesSnapshot | src/salient_core/daemon/_budget.py:111-134 | restoring a snapshot gives the ledger back, in whatever order it lists the rows |
| BudgetLedger.OneRowPerEntry | src/salient_core/daemon/_budget.py:111-120 | a listing has exactly one row for every entry |
| BudgetLedger.BadRowsOnlyDropThemselves | src/salient_core/daemon/_budget.py:122-134 | malformed rows only drop themselves |
| BudgetLedger.VerdictExactly | src/salient_core/daemon/_budget.py:153-195 | without a positive ceiling there is no verdict; with one, OVER begins at the ceiling and WARN at the given part of it, or at four fifths if that is not above 0 and at most 1 |
| BudgetLedger.VerdictIsMonotone | src/salient_core/daemon/_budget.py:153-195 | more spend never gets a milder verdict |
| BudgetLedger.OverIsForGood | src/salient_core/daemon/_budget.py:153-195 | over a fixed ceiling stays over through charges, replays, new epochs and a restart |
| BudgetLedger.Ledger.ChargeTurn | src/salient_core/daemon/_budget.py:90-98 | true exactly for a new turn; every sum grows by exactly its tokens |
| BudgetLedger.Ledger.SpentForAgents | src/salient_core/daemon/_budget.py:100-109 | the loop computes the sum over those agents |
| BudgetLedger.Ledger.Snapshot | src/salient_core/daemon/_budget.py:111-120 | every entry is listed exactly once |
| BudgetLedger.Ledger.FromSnapshot | src/salient_core/daemon/_budget.py:121-134 | the loop restores the rows, later ones overriding, bad ones skipped |
| QuestionInbox.PruneKeepsExactly | src/salient_core/coord/questions.py:199-209 | pruning keeps every unanswered question and exactly the last `max_answered` answered ones, or all if there are fewer, in the order they were asked |
| QuestionInbox.JustAnsweredSurvivesExactly | src/salient_core/coord/questions.py:199-209 | the question just answered survives if and only if at most `max_answered` questions from it to the end are answered |
| QuestionInbox.NewestAnswerCanBePruned | src/salient_core/coord/questions.py:199-209 | a run in which the newest answer is the one that is gone at once |
| QuestionInbox.HydrateKeepsOrderExactly | src/salient_core/coord/questions.py:77-102 | loading the pending rows keeps the ids in order if and only if nothing is loaded, or the list was empty or ended below the first row loaded |
| QuestionInbox.HydratingTwiceBreaksOrder | src/salient_core/coord/questions.py:77-102 | so loading twice lists every row twice |
| QuestionInbox.HydratedIdsAreFresh | src/salient_core/coord/questions.py:96-102 | after loading the next id is above every id the store ever held, and does not skip any |
| QuestionInbox.StepOnOne | src/salient_core/coord/questions.py:104-304 | what one operation can do to one question: nothing, a first answer, which is the one given, or removal once answered |
| QuestionInbox.AddedIsListed | src/salient_core/coord/questions.py:104-183 | what is asked is what is listed: agent, kind and text, open, under the next id, behind all the others |
| QuestionInbox.RunKeepsOrder | src/salient_core/coord/questions.py:104-183 | in every run the ids in the list are strictly increasing and below the next one |
| QuestionInbox.AnswersNeverChange | src/salient_core/coord/questions.py:228-304 | from any moment on, an answered question keeps its answer while it is listed, and one that is gone stays gone |
| QuestionInbox.OpenQuestionsStay | src/salient_core/coord/questions.py:199-304 | an open question stays, word for word, until an event names it |
| QuestionInbox.ResolvedAtMostOnce | src/salient_core/coord/questions.py:264-304 | a question is resolved at most once, so `expire` publishes at most once for it |
| QuestionInbox.Questions.Hydrate | src/salient_core/coord/questions.py:77-102 | the pending rows in order after what is there already, and the next id above every persisted one; nothing without a store |
| QuestionInbox.Questions.Add | src/salient_core/coord/questions.py:104-183 | one new open question at the end with the next id |
| QuestionInbox.Questions.MarkAnswered | src/salient_core/coord/questions.py:282-304 | one step: answered if it was open, then pruned |
| QuestionInbox.Questions.Expire | src/salient_core/coord/questions.py:264-280 | the future is dropped, and it is published exactly if this resolved it |
| QuestionInbox.Questions.Clear | src/salient_core/coord/questions.py:228-262 | exactly the listed ids that were open are cleared, once each |
| QuestionInbox.Questions.PruneAnswered | src/salient_core/coord/questions.py:199-209 | the walk computes what pruning is specified to keep |

## Left out

- BusRegistry.BusCalls.Register: previews, timestamps, futures, states and correlation ids of a row are not
  modelled.
- The bus cancel cascade, stall detection, substitute routing, trust resolution and the answer parser.
- AskAgent.Run: texts shown to the operator and the echo pump's output are not modelled, only the exits they
  can cause; unsubscribing and creating the stop task are taken not to raise.
- Redispatch.YesNReopensExactly: calls of one pair follow one another, as an agent that waits for each reply
  places them, and the idle limit, off by default, does not strike between them; the canonical target of a call
  and the number in the answer are inputs.
- SchemaMeaning.CleaningPreservesMeaning: `prefixItems` and `patternProperties`, which change what their
  neighbours cover, are outside its precondition; so are the property names beside a `$ref` that
  `ToolSchema.FieldNamesBesideReference` shows to be lost.
- SchemaInliner.Resolve: a `$ref` that is not a string is read as the empty name, and definitions are taken to be
  objects; which name the cycle error reports is dropped.
- Pydantic validation and the wording of its errors.
- EventHub.Hub.Publish: all subscribers of one publish see the same two clock readings; copying of frames, and
  the timestamp and text of a sentinel, are not modelled.
- ContextStore.Store.Txn: SQLite itself is a pair of table values with failure inputs; a connection without an
  open transaction is taken to have nothing pending.
- EventRetention.SelectOldest: which of several rows with equal timestamps goes first is left open.
- Schema migrations, jobs, prompt versions, the other audit tables, and health reporting beyond a counter.
- HookReplay.HookReplayCache.Reserve: white space is the ASCII blank, tab and line ends; a fingerprint is the
  canonical invocation itself; the texts of refusals are one constant.
- CodexGateway.CloseFinishesCalls: `close` is an event of the protocol and not a method.
- CodexGateway.CodexMcpGateway.Schedule: tool lookup, deadlines and the HTTP server around it; cancelling a
  future is taken to finish it.
- Reconstruction.BuildReconstruction: the usage totals, the killswitch time window and the merged, sorted chain.
- Reconstruction.LegacyExactly: digits are the ASCII ones.
- ContextSlicer.Slice: whether a line matches is an input (a regular expression or a substring); line splitting,
  number padding and the head, tail and line-range tools, which are plain slices.
- FlagScanner.FlagsAllSafe: the tables of the individual programs and the splitting of the command line.
- BudgetLedger.Ledger.Snapshot: the rows come in some order rather than sorted; the warn fraction is a real.
- QuestionInbox.Questions.MarkAnswered: who answered and the answering job are not kept; the store's own write
  is a parameter of hydration only; ids of unpersisted notes may be issued again after a restart.
- The skin policy, scope evaluation, safeguards, knowledge graph, scheduler, vendor clients, subprocess control,
  web pages and prompts.
