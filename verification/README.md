# Konf: a Dafny model of the workflow pipeline, the durable stores, the glob matcher and the capability lattice

Konf validates a YAML workflow, compiles it to an intermediate form, and runs it with a concurrent
scheduler over tool calls; beside it stand a timer scheduler, an event journal and a log of spawn
intents, all in one embedded key-value store. This project models that logic and proves what it
promises. Wherever a main result rests on what a function computes, a law says it on the YAML block, the
values, the events or the rows, without that function. `dafny verify dfyconfig.toml` checks everything.

**The workflow pipeline.** `Schema`, `Validator`, `DependencyGraph`, `Compiler`, `Workflow`,
`Routing`, `Template` and `ExprEval` follow the parser, the intermediate form and the evaluators.
Both depth-first searches (path-based in the schema validator, three-colour in the workflow) are
methods proved exact against reachability and cycles in `Graphs`. `CompiledRouting` says where control
goes from a YAML node, `TemplateMeaning` what its inputs resolve to, `ExprLaws` what a condition's
operators, literals and references compute. `TaskLoop` is the loop of one spawned task, and `InlineFlow`
says from the steps alone where it may go on by itself. `Executor` is the executor as a transition
system: task turns, sends on the bounded first-in-first-out channel, receipts, joins, and one position of the scan over reachable nodes are single events, so every
interleaving is a sequence of events; tool answers and condition values are chosen by the environment.
`ExecutorLoop` is the main loop as a class over the source's variables, each arm proved to take one of
those events. `ExecutorSafety` proves what holds over all runs, `ExecutorMeaning` which runs end well and
which steps they start, `ExecutorTermination` when they all end, and `ExecutorCapacity` settles how much
room is needed.

**The durable stores.** In `Journal`, `Scheduler` and `RunnerIntents` each table is a field of a class,
each committed transaction a method whose effect is a function of the tables. Time is an argument.
`JournalSweep`, `JournalLookups`, `JournalRecovery`, `SchedulerRuns`, `RunnerRuns`, `RunnerOutcomes` and
`RunnerReplays` prove properties of whole runs: a crash is an event that forgets what is in memory.
`InlineRunner` is the runner and its registry.

**The rest.** `Glob` is the guard's matcher with its two cursors; `Capabilities` is the two separately
written coverage checks; `Strings` holds the string searches the parsers lean on.

Results worth knowing before reading the table:

* What ends is decided by one graph: a to b when a jumps to b on error, or a's edges can single b out
  and b waits for at most one dependency. For every workflow, all its tasks end in every environment
  if and only if that graph has no cycle (`TaskLoop.TasksEndIff`). The schema validator guarantees it;
  the workflow's own validation ignores error jumps and is enough where there are none
  (`TaskLoop.OwnValidationMissesErrorLoops` is the smallest workflow that slips through).
* "Nothing startable is left behind" holds for all workflows of n steps if and only if
  `max_concurrent_nodes` is at least n (`ExecutorCapacity.EnoughRoomIff`), because a finished task
  keeps its place until it is joined. The safety results hold for unvalidated workflows too.
* A step reads only its recorded dependencies when its inputs come from `with`. Inputs that come from
  `return` do so if and only if the nodes they name were recorded (`Templates.ReturnReadsRecordedIff`).
* The glob matcher is exact on a text, for all patterns, if and only if the text holds no `*`.
* The journal's comments say a sweep deletes rows whose `valid_to` is before now; the code also deletes
  those equal to now, truncated to microseconds. The instant from which a sweep is invisible follows
  the code. The comments also call ids monotonic; they fall back when the newest row is swept.
* A cancelled timer can come back, and a cancelled run is replayed after a restart. Both are stated
  with the exact condition over every continuation: the timer when the poll loop still holds it, the
  run unless an outcome was already handed to the blocking pool, which commits it all the same.
* A sweep can turn an ended run into a zombie, change `recent` and the lookup by idempotency key; a
  collection of intents can delete one that was reopened meanwhile. Each with its exact condition.
* The comment on the replay counter says it bounds crash loops. Spawning again rewrites the intent with
  count 0, so restarts are unbounded; the limit means ten replays in a row that never got that far.

## Model

| member | source | states |
|---|---|---|
| Validator.Dfs | crates/konflux-substrate/src/parser/validator.rs:195-257 | from any state of the walk: success leaves the path as it was with everything visited reachable and settled, and a reported path ends in a real cycle |
| Validator.CheckReachabilityAndCycles | crates/konflux-substrate/src/parser/validator.rs:177-193 | accepts if and only if the then/catch graph is acyclic and the first node reaches every node; a reported cycle path ends in a cycle and a reported orphan is truly unreachable |
| Validator.NodeCheckExact | crates/konflux-substrate/src/parser/validator.rs:49-144 | the first-complaint-wins node check passes if and only if every target is a node and every tool is covered by a capability |
| Validator.NodeOkIff | crates/konflux-substrate/src/parser/validator.rs:49-144 | on the YAML node: a node passes if and only if each `then` and `catch` target is a node and each tool its `do`, pipe and catch branches name is covered, where no declared capability means no restriction |
| CompiledRouting.FlowEdgeIff | crates/konflux-substrate/src/parser/validator.rs:195-257 | the graph the validator searches has an edge exactly where a `then` block or a `catch` names a node |
| Validator.CheckTerminals | crates/konflux-substrate/src/parser/validator.rs:169-175 | succeeds exactly when some node has a `return` |
| Validator.Validate | crates/konflux-substrate/src/parser/validator.rs:27-47 | accepts if and only if the schema is well formed, said without the algorithm |
| Workflows.DfsDetectCycle | crates/konflux-substrate/src/workflow.rs:344-374 | the colour map always says where the walk is; the search either finishes its node and restores the path, or returns a path ending in a cycle |
| Workflows.DetectCycles | crates/konflux-substrate/src/workflow.rs:308-342 | reports a cycle if and only if the step edges have one, also away from the entry |
| Workflows.ValidateWorkflow | crates/konflux-substrate/src/workflow.rs:267-306 | accepts exactly the workflows with a known entry, known edge and dependency targets, a returning step and no cycle |
| CompiledRouting.StepEdgeIff | crates/konflux-substrate/src/workflow.rs:308-342 | the graph the workflow's own validation searches has an edge exactly where the last step with an id has one |
| DependencyGraph.ExtractFromString | crates/konflux-substrate/src/parser/graph.rs:76-95 | the scanning loop returns the root of each `{{ }}` in order, as the recursive reading of the text does |
| TemplateMeaning.ReferencesOfText | crates/konflux-substrate/src/parser/graph.rs:76-95 | from a text with any number of `{{ }}` holes exactly the roots of the holes are extracted, in order; the root of a dotted path with blanks around it is its first part (`TemplateMeaning.RootIs`) |
| DependencyGraph.Build | crates/konflux-substrate/src/parser/graph.rs:15-46 | every node has an entry, holding exactly the other nodes its `with` block names |
| TemplateMeaning.DependenciesIff | crates/konflux-substrate/src/parser/graph.rs:15-74 | a node depends on exactly the other nodes that some text anywhere inside its `with` block refers to |
| Compiler.PushBranchEdges | crates/konflux-substrate/src/parser/compiler.rs:106-123 | the loop emits one edge per branch with a target, in order, with the branch position as priority |
| Compiler.ChooseOnError | crates/konflux-substrate/src/parser/compiler.rs:127-155 | the loop over catch branches lets the first matching one decide, and keeps failing by default |
| CompiledRouting.CatchGives | crates/konflux-substrate/src/parser/compiler.rs:127-155 | in both forms of `catch`: the compiled error action is that of the first branch that reacts, whatever follows it: jump, skip, fall back to its value, or fail; `Fail` when none does |
| Compiler.EdgeTargetsAreSuccessors | crates/konflux-substrate/src/parser/compiler.rs:80-125 | compiled step edges lead only where the schema's `then` leads |
| Compiler.GotoIsSuccessor | crates/konflux-substrate/src/parser/compiler.rs:127-155 | the compiled error jump leads only where the schema's `catch` leads |
| Compiler.CompilationPreservesWellFormedness | crates/konflux-substrate/src/parser/compiler.rs:18-53 | an accepted schema, however its dependencies are ordered, compiles to a workflow that the workflow's own validation accepts |
| Compiler.Compile | crates/konflux-substrate/src/parser/compiler.rs:18-53 | a result has one step per node, in order, which is what that node compiles to with its data dependencies, and is well formed when the schema was accepted; it fails only on an empty schema or a node with a malformed duration |
| Compiler.CompiledFields | crates/konflux-substrate/src/parser/compiler.rs:55-240 | a node does not compile if and only if a duration it writes is malformed; otherwise tool, timeout, retry, repeat and join are as written or by default |
| Compiler.CompiledInputs | crates/konflux-substrate/src/parser/compiler.rs:69-78 | the inputs are those of the `with` object, key by key in order, or the `return` of a node without tool |
| CompiledRouting.PlainNodeGives | crates/konflux-substrate/src/parser/compiler.rs:80-105 | compiled and evaluated, on every valuation: no `then` gives `Return`, `then: b` exactly the step b, a list exactly its targets in order and `Return` when empty; a `return` puts `Return` in front |
| CompiledRouting.ConditionalNodeGives | crates/konflux-substrate/src/parser/compiler.rs:80-125 | any conditional block, with or without `return`, gives what reading it from the top gives: the default targets passed and the first branch whose condition holds, or `Return`, or no result at the first condition that does not evaluate |
| CompiledRouting.EdgesAreMentions | crates/konflux-substrate/src/parser/compiler.rs:80-125 | a node has a compiled edge to a step if and only if its `then` block names it; the targets the validator walks are the same (`CompiledRouting.ThenTargetsAreMentions`) |
| Routing.EvaluateEdgesTargets | crates/konflux-substrate/src/executor.rs:718-767 | the loop over priority-sorted edges computes the collected targets, `Return` when there are none, and stops at the first condition that holds or fails to evaluate |
| CompiledRouting.EdgesGive | crates/konflux-substrate/src/executor.rs:718-767 | edges in walking order give the unconditional targets before the first condition that holds, with its target last, all of them and otherwise `Return` when none holds, or no result when one does not evaluate |
| CompiledRouting.SortIsStable | crates/konflux-substrate/src/executor.rs:727-728 | the sort orders by priority, keeps every edge, and keeps those of equal priority as they were |
| CompiledRouting.ConditionText | crates/konflux-substrate/src/executor.rs:735-743 | blanks and one pair of braces around a condition do not matter |
| Routing.TargetsAreEdges | crates/konflux-substrate/src/executor.rs:718-767 | evaluation yields at least one target, and every step target is an edge of the step |
| Routing.RoutingKeepsMeaningIff | crates/konflux-substrate/src/executor.rs:718-767 | compiling and evaluating a conditional block takes exactly the branch the source means, on every valuation, if and only if no branch can be taken after the first unconditional one |
| Routing.CompiledNodeRoutes | crates/konflux-substrate/src/parser/compiler.rs:106-123 | for a node without `return` whose last branch alone may lack a condition: exactly the first branch that holds, else the unconditional one, else `Return` |
| TaskLoop.RunTask | crates/konflux-substrate/src/executor.rs:306-467 | in a workflow with no cycle of inline moves the task loop ends in every environment; its trace of turns follows the routing, and it ends at the first turn that goes nowhere, well unless that turn was cancelled, failed under `Fail` or a jump to a missing step, or met a condition that did not evaluate, announcing the step targets of a success in order and nothing after an error |
| TaskLoop.AdvanceIs | crates/konflux-substrate/src/executor.rs:391-460 | one turn, for every step and outcome: it repeats exactly while the until-condition is false and iterations remain, goes on where an error jump or a single target with at most one dependency leads, and else ends as above; `Skip` and `Fallback` end well and announce nothing |
| TaskLoop.AdvanceDescends | crates/konflux-substrate/src/executor.rs:306-467 | a task that goes on moves to a step earlier in the order that guides it, or repeats its step with one iteration less to go |
| TaskLoop.TaskIsBounded | crates/konflux-substrate/src/executor.rs:306-467 | in such a workflow, whatever the tools answer, a task visits no step twice and executes at most the sum of max(1, repeat.max) over the steps |
| TaskLoop.CompiledWorkflowIsGuided | crates/konflux-substrate/src/parser/validator.rs:195-257 | what the validator proved acyclic orders the steps so that every move a task of the compiled workflow can make by itself descends |
| InlineFlow.MayFollowIff | crates/konflux-substrate/src/executor.rs:718-767 | the edges of a step can come out as one given target alone, for some condition values, if and only if it is the only unconditional edge's or that of a condition no earlier edge forestalls |
| TaskLoop.TasksEndIff | crates/konflux-substrate/src/executor.rs:306-467 | for every workflow, validated or not: every task ends in every environment if and only if the graph of error jumps and of single targets with at most one dependency has no cycle |
| TaskLoop.CycleNeverEnds | crates/konflux-substrate/src/executor.rs:391-460 | for every cycle of that graph, one environment in which a task has still not finished after n moves, for every n |
| TaskLoop.AcceptedIsInlineAcyclic | crates/konflux-substrate/src/parser/validator.rs:195-257 | what the schema validator accepts compiles to a workflow without such a cycle, so all its tasks end |
| TaskLoop.ValidWithoutJumpsEnds | crates/konflux-substrate/src/workflow.rs:267-306 | the workflow's own validation is enough when step ids are distinct and no step jumps on error |
| Executor.CanRun | crates/konflux-substrate/src/executor.rs:263-279 | the counting loop answers: without dependencies or under a lenient join always, under `All` if and only if every dependency is completed, under `Any` if some is, under a quorum if at least that many positions are |
| Executor.MayRunStays | crates/konflux-substrate/src/executor.rs:263-279 | a step that may run may run for good: completing more never takes it back |
| ExecutorLoop.MainLoop.constructor | crates/konflux-substrate/src/executor.rs:123-160 | the loop starts in the initial state: the entry reachable, started and spawned |
| ExecutorLoop.MainLoop.OnMessage | crates/konflux-substrate/src/executor.rs:210-245 | receiving a message is one receive event followed by scan events, and ends the scan |
| ExecutorLoop.MainLoop.OnJoin | crates/konflux-substrate/src/executor.rs:173-209 | joining a task is the join event: step budget, failure, and the check whether to leave |
| ExecutorSafety.StepKeeps | crates/konflux-substrate/src/executor.rs:163-252 | for every workflow, validated or not, every event keeps: one task per started step, each spawn counted once as received, in flight or still to send, join conditions met |
| ExecutorSafety.RunKeeps | crates/konflux-substrate/src/executor.rs:163-252 | so does every interleaving |
| ExecutorSafety.LeavingIsQuiescent | crates/konflux-substrate/src/executor.rs:163-252 | for every workflow with a known entry, if the loop leaves, every task has announced itself exactly once and is joined, the channel is empty, no step started two tasks, started steps met their join condition, and with room for every step nothing reachable can still start |
| ExecutorMeaning.CompletedFromStart | crates/konflux-substrate/src/executor.rs:306-467 | after any run, completed is the workflow input and exactly what some turn recorded: the loop variable and the step's own output or error, nothing on an error jump or a cancelled turn |
| ExecutorMeaning.StartsAfterDependencies | crates/konflux-substrate/src/executor.rs:263-279 | over every run: a step that joins on all is started only after each of its dependencies was recorded by a turn of that run, or is the workflow input |
| ExecutorMeaning.EndsWellIff | crates/konflux-substrate/src/executor.rs:163-252 | a run that has ended left normally if and only if nothing cancelled it, no turn in it failed its task, and its executions are within `max_steps`; else it aborted |
| ExecutorMeaning.StartedIff | crates/konflux-substrate/src/executor.rs:163-252 | what a run that leaves with room for every step has started: the entry, and exactly the steps some turn announced whose join policy the recorded outputs meet |
| ExecutorMeaning.NeverTooMany | crates/konflux-substrate/src/executor.rs:210-245 | at no time are there more unjoined tasks than `max_concurrent_nodes`, the entry's aside |
| ExecutorMeaning.ChannelIsFifo | crates/konflux-substrate/src/executor.rs:130-160 | the channel never holds more than its size, and what was sent is what was received, in order, followed by what it holds |
| ExecutorTermination.StepLowers | crates/konflux-substrate/src/executor.rs:163-252 | where an order guides the tasks, every event lowers one measure of the remaining work |
| ExecutorTermination.RunsAreBounded | crates/konflux-substrate/src/executor.rs:163-252 | no run is longer than the measure it starts from |
| ExecutorTermination.NoDeadlock | crates/konflux-substrate/src/executor.rs:163-252 | until the loop has left, some task, send, join, receipt or scan other than a cancellation can happen, in every workflow and also with a channel of size one |
| ExecutorTermination.StuckHasEnded | crates/konflux-substrate/src/executor.rs:163-252 | in every workflow with a known entry, a run that cannot go on has left the loop or aborted |
| ExecutorTermination.InlineAcyclicTerminates | crates/konflux-substrate/src/executor.rs:117-261 | with a known entry and no cycle of inline moves, all runs of the workflow share one length bound, whatever the interleaving and the tools |
| ExecutorTermination.ReachedCycleRunsOn | crates/konflux-substrate/src/executor.rs:306-467 | with a cycle the entry can reach inline there are runs of the executor longer than any n |
| ExecutorTermination.AcceptedWorkflowsTerminate | crates/konflux-substrate/src/executor.rs:117-261 | so it is for the compiled workflow of every accepted schema |
| ExecutorTermination.AcceptedWorkflowsLeaveQuiescent | crates/konflux-substrate/src/executor.rs:163-252 | and what a run of an accepted schema leaves behind is drained, and quiescent with room for every node |
| ExecutorCapacity.TooLittleRoom | crates/konflux-substrate/src/executor.rs:210-245 | for every n above 1 and every smaller capacity, a run of a chain of n steps that leaves normally with a reachable, startable step never started |
| ExecutorCapacity.EnoughRoomIff | crates/konflux-substrate/src/executor.rs:214-250 | every workflow of n steps with a known entry, or every one its own validation accepts, is left quiescent, whatever the other settings, if and only if `max_concurrent_nodes` is at least n |
| ExprEval.FollowFields | crates/konflux-substrate/src/expr.rs:196-229 | the walk over the parts of a reference computes the recursive lookup, with its two kinds of error |
| ExprEval.EvalIsMeaning | crates/konflux-substrate/src/expr.rs:68-136 | on every text whatever, the string-splitting evaluator computes the meaning of the tree the text stands for: both operands evaluated, leftmost error first |
| ExprEval.ParsePrint | crates/konflux-substrate/src/expr.rs:68-136 | printing a tree of logical operators, comparisons, negations, keyword tests and words, with the evaluator's own grouping, and parsing it gives the tree back |
| ExprEval.EvaluatePrint | crates/konflux-substrate/src/expr.rs:53-166 | evaluating the printed text of such a tree gives the tree's meaning |
| ExprLaws.Grouping | crates/konflux-substrate/src/expr.rs:68-121 | of two operators in a row the one that comes later in the order or, and, ==, !=, >=, <=, >, < binds tighter; equal logical operators group to the left, equal comparisons to the right |
| ExprLaws.Connectives | crates/konflux-substrate/src/expr.rs:68-127 | or, and and not are the connectives over the truth of their operands, which is stated kind by kind |
| ExprLaws.ErrorsPass | crates/konflux-substrate/src/expr.rs:68-121 | an error in an operand is the result of every operator, the left one's first; nothing is short-circuited |
| ExprLaws.EqualityIff | crates/konflux-substrate/src/expr.rs:282-303 | `==` is equality on booleans, integers, strings and null, closeness on floats and false on all else; `!=` is its complement on all values |
| ExprLaws.OrderIff | crates/konflux-substrate/src/expr.rs:305-340 | the four comparisons are the order of the numbers the operands stand for: integers, floats and numeric strings, mixed too |
| ExprLaws.OrderNeedsNumbers | crates/konflux-substrate/src/expr.rs:90-121 | on operands with values only they can fail, and do if and only if an operand is no number |
| ExprLaws.EvaluateIntegers | crates/konflux-substrate/src/expr.rs:53-136 | for all 64-bit integers, evaluating the written comparison gives how the integers compare |
| ExprLaws.ReferenceMeans | crates/konflux-substrate/src/expr.rs:196-229 | a dotted reference evaluates to v if and only if its parts lead from the context to v, each a field of the one before |
| ExprLaws.KeywordTexts | crates/konflux-substrate/src/expr.rs:122-166 | evaluating a word followed by `exists` is true exactly for a value other than null, by `is empty` exactly for null and empty strings, lists and maps, an error staying one; `!` before a word negates its truth |
| Templates.ResolveInputs | crates/konflux-substrate/src/template.rs:83-93 | an error is that of the first input that fails; without one the result has exactly the input keys, each with the value of its last input; what each value is, `TemplateMeaning` says |
| TemplateMeaning.ReferenceGives | crates/konflux-substrate/src/template.rs:96-126 | whatever the compiler takes for a reference resolves to v if and only if a chain of values leads from its root variable to v, each a named member of the one before; else to the error naming the path |
| TemplateMeaning.BareTextIff | crates/konflux-substrate/src/template.rs:49-80 | inside a value exactly the texts that are one dotted path of identifiers in braces, blanks around it, are bare references |
| TemplateMeaning.JsonMeans | crates/konflux-substrate/src/template.rs:128-165 | a value inside an input resolves to r if and only if r is the value with each bare reference replaced by its referent, type kept, each other template by its rendering, and every other leaf, key and position as it was |
| TemplateMeaning.InputGives | crates/konflux-substrate/src/template.rs:96-165 | what a compiled input resolves to is stated on the YAML value, and there is no other result |
| TemplateMeaning.WithGives | crates/konflux-substrate/src/template.rs:83-93 | the inputs of a `with` object are exactly its keys, each with what its last value gives |
| TemplateMeaning.WithFailsIff | crates/konflux-substrate/src/template.rs:83-93 | and fail if and only if some value gives nothing |
| Templates.FollowPath | crates/konflux-substrate/src/template.rs:115-126 | the walk over the parts of a path computes the recursive lookup, nothing once a part is missing |
| Templates.PureRefRoot | crates/konflux-substrate/src/template.rs:49-80 | the root of a bare reference is the one root the dependency graph extracts from the same string |
| Templates.CompiledRefRoot | crates/konflux-substrate/src/parser/compiler.rs:246-267 | so is the root of what the compiler takes for a reference |
| Templates.ExprReadsReferences | crates/konflux-substrate/src/template.rs:96-165 | what a compiled input resolves to, errors included, depends only on the roots extracted from it |
| Templates.StepReadsRecordedDependencies | crates/konflux-substrate/src/parser/compiler.rs:35-41 | when a step's `with` object holds only bare references, any two states that agree on `depends_on`, its own output and what is not a node give it the same inputs or the same error |
| Templates.ConcurrentWriteIsUnseen | crates/konflux-substrate/src/template.rs:83-165 | an output some other, undeclared node writes meanwhile cannot change what the step is given |
| Templates.ReturnReadsRecordedIff | crates/konflux-substrate/src/parser/compiler.rs:75-88 | a step whose input is a `return` of bare references reads only its recorded dependencies if and only if every other node it refers to was recorded, which only `with` does |
| Glob.GlobMatches | crates/konf-runtime/src/guard.rs:234-267 | the two-cursor loop terminates; true only if the recursive definition matches, and exactly then when the text has no `*` |
| Glob.MatchesIff | crates/konf-runtime/src/guard.rs:234-267 | the recursive definition matches exactly the texts that can be cut into one piece per pattern character: any for `*`, one character for `?`, else that character |
| Glob.Soundness | crates/konf-runtime/src/guard.rs:234-267 | a reported match is a match, for all texts |
| Glob.Completeness | crates/konf-runtime/src/guard.rs:234-267 | returning only to the last star loses nothing on a text without `*` |
| Glob.LiteralStarFails | crates/konf-runtime/src/guard.rs:245-248 | for every text with a `*`, a pattern that matches it and is refused |
| Glob.ExactIffNoStarInText | crates/konf-runtime/src/guard.rs:234-267 | a text is matched exactly, whatever the pattern, if and only if it holds no `*` |
| Capabilities.AttenuateExact | crates/konflux-substrate/src/envelope.rs:139-155 | accepts if and only if the child grants no tool name the parent does not |
| Capabilities.CapMatchesIff | crates/konflux-substrate/src/envelope.rs:84-93 | a pattern grants every name if it is `*`, what goes on after `prefix:` if it is `prefix:*`, and itself otherwise |
| Capabilities.CoversIsMatches | crates/konf-runtime/src/scope.rs:101-149 | the hand-written prefix comparison of the scope check is the envelope's matcher |
| Capabilities.ChecksAgree | crates/konf-runtime/src/scope.rs:101-149 | the two checks accept the same pattern lists and otherwise refuse the same pattern |
| Capabilities.ChildScopeExact | crates/konf-runtime/src/scope.rs:82-149 | a child scope is accepted if and only if nothing is amplified, and what it allows its parent allows |
| Capabilities.ChainsOnlyAttenuate | crates/konf-runtime/src/scope.rs:101-149 | along a derivation chain of any length, what either access check allows the last scope, both allow every ancestor |
| Journal.RedbJournal.Append | crates/konf-runtime/src/journal/redb.rs:191-256 | the row goes in under the highest id plus one, and the four indexes stay exact images of the log |
| Journal.RedbJournal.QueryByRun | crates/konf-runtime/src/journal/redb.rs:258-295 | through the index, in any order, sorted and filtered: exactly the ascending filtered scan of the log |
| Journal.RedbJournal.QueryBySession | crates/konf-runtime/src/journal/redb.rs:297-356 | exactly the first `limit` of the filtered scan newest first: expired rows take no place |
| Journal.RedbJournal.Query | crates/konf-runtime/src/journal/redb.rs:460-498 | exactly the newest `limit` matching rows of the scan |
| Journal.RedbJournal.Aggregate | crates/konf-runtime/src/journal/redb.rs:500-552 | the count is the length of the unlimited query, the time that of its latest row, `WindowSum` an error |
| Journal.RedbJournal.DeleteExpired | crates/konf-runtime/src/journal/redb.rs:606-702 | removes exactly the due rows, from the log and every index, and returns how many |
| Journal.ScanExact | crates/konf-runtime/src/journal/redb.rs:460-498 | the reference scan is ascending and holds exactly the stored rows that match |
| Journal.AppendedIsFound | crates/konf-runtime/src/journal/redb.rs:191-256 | an appended entry is found with all it was written with, times in microseconds, exactly by the scans whose every filter it meets and that come before its expiry |
| JournalSweep.SweepIsInvisible | crates/konf-runtime/src/journal/redb.rs:606-702 | later than the sweep, every scan, limited or not, that leaves expired rows out is what it would have been without it |
| JournalSweep.SweepInvisibleIff | crates/konf-runtime/src/journal/redb.rs:606-640 | for all logs and filters, if and only if the clock has passed the sweep's instant truncated to microseconds |
| JournalSweep.SweepsLeaveNoTrace | crates/konf-runtime/src/journal/redb.rs:606-702 | over any run of appends and sweeps, later scans find row for row what they would have found had no sweep run |
| JournalSweep.NextIdAfterSweep | crates/konf-runtime/src/journal/redb.rs:197-213 | the next id falls back exactly when the newest row was swept, so ids are not monotonic |
| JournalLookups.RecentExact | crates/konf-runtime/src/journal/redb.rs:358-384 | the newest rows come out as exactly the unexpired ones with fewer than `limit` rows after them |
| JournalLookups.RecentUnchangedIff | crates/konf-runtime/src/journal/redb.rs:358-384 | once the clock has passed a sweep, `recent` is what it would have been without it if and only if no unexpired row moved up under the limit |
| JournalLookups.ByKeyIff | crates/konf-runtime/src/journal/redb.rs:554-603 | the lookup by idempotency key gives a row if and only if it is the newest one under the key and has not expired |
| JournalLookups.ByKeyUnchangedIff | crates/konf-runtime/src/journal/redb.rs:554-603 | after a sweep that lookup is what it was, unless the newest row under the key was swept and the newest one left has not expired |
| Journal.RedbJournal.GetByIdempotencyKey | crates/konf-runtime/src/journal/redb.rs:554-603 | whatever order the index gives, the newest row under the key decides, and an expired one gives nothing |
| JournalRecovery.ScanRuns | crates/konf-runtime/src/journal/redb.rs:394-432 | one pass finds every started run with the session and namespace of its first start, and every ended run |
| JournalRecovery.ZombieIff | crates/konf-runtime/src/journal/redb.rs:394-432 | a zombie is a run some row starts and no row completes, fails or cancels |
| JournalRecovery.FailureIs | crates/konf-runtime/src/journal/redb.rs:430-447 | what it gets is a failure that never expires, under the session and namespace of its first start |
| JournalRecovery.ReconcileZombies | crates/konf-runtime/src/journal/redb.rs:386-458 | appends one failure per zombie in some order; run to the end it returns their number and leaves none, stopped it has done a first part |
| JournalRecovery.SweepKeepsZombiesIff | crates/konf-runtime/src/journal/redb.rs:386-458 | a sweep leaves the zombies as they are if and only if every ended run keeps an end or loses all its starts, and every other started run keeps a start |
| JournalRecovery.LastingLifecyclesSurvive | crates/konf-runtime/src/journal/redb.rs:386-458 | which holds when no row that starts or ends a run carries an expiry |
| JournalRecovery.ZombiesAfter | crates/konf-runtime/src/journal/redb.rs:386-458 | after a pass, whole or partial, exactly the runs it handled are zombies no more |
| JournalRecovery.PassesCompose | crates/konf-runtime/src/journal/redb.rs:386-458 | a second pass continues where the first stopped: the two are one |
| JournalRecovery.BootsAreOnePass | crates/konf-runtime/src/journal/redb.rs:386-458 | any number of boots, each stopping where it may, does what one uninterrupted boot would |
| JournalRecovery.EachZombieFailsOnce | crates/konf-runtime/src/journal/redb.rs:386-458 | once a boot gets through, each zombie has exactly one failure row in total and every old row is as it was |
| Scheduler.InsertAgreesIff | crates/konf-runtime/src/scheduler.rs:449-483 | inserting keeps the two tables in agreement if and only if the id is not stored at another time |
| Scheduler.RescheduleAgreesIff | crates/konf-runtime/src/scheduler.rs:619-671 | rescheduling from a remembered time keeps agreement if and only if the id is gone, still there, or already where it is going |
| Scheduler.RescheduleMoves | crates/konf-runtime/src/scheduler.rs:619-671 | rescheduling moves the record from its old time to the new one in both tables, or takes it out, and touches nothing else; so stated too for storing (`Scheduler.InsertStores`) and cancelling (`Scheduler.CancelRemoves`) |
| Scheduler.RedbScheduler.ScheduleFixed | crates/konf-runtime/src/scheduler.rs:281-295 | accepted exactly within the delay bounds with a workflow and a namespace, and then stored one delay from now |
| Scheduler.RedbScheduler.ScheduleCron | crates/konf-runtime/src/scheduler.rs:298-312 | accepted exactly when the expression has a next instant, and then stored there |
| Scheduler.RedbScheduler.Cancel | crates/konf-runtime/src/scheduler.rs:315-343 | removes the id from both tables, and says whether it was there |
| Scheduler.RedbScheduler.CollectDue | crates/konf-runtime/src/scheduler.rs:497-519 | exactly the timers due, in key order |
| Scheduler.RedbScheduler.Tick | crates/konf-runtime/src/scheduler.rs:486-519 | every due timer is handled once, in order, each at its own reading of the clock |
| Scheduler.TickLeavesTheRest | crates/konf-runtime/src/scheduler.rs:486-541 | a timer that is not due, or whose workflow is missing, is where it was with its record; nothing new appears |
| Scheduler.TickMovesDue | crates/konf-runtime/src/scheduler.rs:598-671 | a due one-shot timer is gone, a fixed one is at its delay after it was handled, strictly after the tick thanks to the lower bound, a cron one is gone or later |
| Scheduler.TickClearsBacklog | crates/konf-runtime/src/scheduler.rs:486-671 | after a tick no stored timer is due if and only if every due timer's workflow is registered, and the tables agree |
| SchedulerRuns.StepKeeps | crates/konf-runtime/src/scheduler.rs:315-343 | scheduling, cancelling, collecting, skipping, firing, rescheduling and crashing each keep the tables in agreement and held timers unmoved or gone |
| SchedulerRuns.NoTimerIsLost | crates/konf-runtime/src/scheduler.rs:523-671 | after any run, a timer is stored as it was scheduled unless it was cancelled or was fired with no next time, crashes between firing and rescheduling included |
| SchedulerRuns.CancelledStaysIff | crates/konf-runtime/src/scheduler.rs:315-343 | a timer no longer stored stays away over every continuation in which the clock does not go back if and only if the poll loop is not holding it with a mode that can still fire |
| SchedulerRuns.CancelledTimerReturns | crates/konf-runtime/src/scheduler.rs:636-665 | for every timer with a next fire time, a run in which it is cancelled after it was fired and then put back by its rescheduling |
| RunnerIntents.InsertExactIff | crates/konf-runtime/src/runner_intents.rs:218-245 | insert-or-replace keeps the namespace index exact if and only if a replaced run keeps its namespace |
| RunnerIntents.RunnerIntentStore.MarkTerminal | crates/konf-runtime/src/runner_intents.rs:248-259 | sets the outcome and nothing else, and does nothing for an unknown run |
| RunnerIntents.RunnerIntentStore.ListUnterminated | crates/konf-runtime/src/runner_intents.rs:281-300 | every intent without an outcome, each once, oldest first |
| RunnerIntents.RunnerIntentStore.Gc | crates/konf-runtime/src/runner_intents.rs:335-385 | drops exactly the terminal intents before the cutoff, from both tables |
| RunnerRuns.StepKeeps | crates/konf-tool-runner/src/runners/inline.rs:94-263 | every spawn, start, return, read, handed-over write, commit, abort, late commit, replay, collection step and crash keeps the log, the tasks and the replay list consistent |
| RunnerRuns.IntentsAreAtLeastOnce | crates/konf-tool-runner/src/runners/inline.rs:94-263 | after any run, a persisted run can still be replayed, or an invocation of it returned, or the replay limit failed it; what is stored is the request and authority it was persisted with; the namespace index is exact |
| RunnerOutcomes.OutcomesAreReported | crates/konf-tool-runner/src/runners/inline.rs:94-263 | after any run, aborts, crashes and lost updates included, every stored outcome was returned by an invocation of that very run, or is the limit's own on a run it gave up on |
| RunnerReplays.CollectionKeepsOpenIff | crates/konf-runtime/src/runner_intents.rs:335-385 | with anything but a crash between its two passes, collecting never deletes an intent without an outcome if and only if no victim is waiting for a replay below the limit |
| RunnerReplays.ReplayIsCertainIff | crates/konf-init/src/lib.rs:290-325 | whatever happens until the next listing, it holds a run, if and only if the intent is open and no task, write on its way, pending replay or pending deletion is left to change that |
| RunnerReplays.CancelledIsReplayedIff | crates/konf-tool-runner/src/registry.rs:223-241 | aborting a task makes its run certain to be replayed if and only if the intent is open, no outcome was handed to the blocking pool, nothing else works for the run and no collection is about to delete it |
| RunnerReplays.RestartsAreUnbounded | crates/konf-tool-runner/src/runners/inline.rs:243-261 | for every n, a run of the system in which one run is started n + 1 times, a crash between any two, and is still open and never given up on |
| RunnerReplays.LimitIsTenStalls | crates/konf-tool-runner/src/runners/inline.rs:243-261 | a run is given up on exactly at its eleventh replay in a row since it was last put to work |
| InlineRunners.FirstOutcomeWins | crates/konf-tool-runner/src/registry.rs:197-221 | the first outcome reported for a run is the one it keeps, whatever late start, racing cancel or finishing task comes after |
| InlineRunners.RunRegistry.Cancel | crates/konf-tool-runner/src/registry.rs:223-241 | the hook is taken at most once, and a finished run keeps its outcome |
| InlineRunners.InlineRunner.SpawnWithId | crates/konf-tool-runner/src/runners/inline.rs:94-203 | a missing workflow leaves no trace; otherwise the intent is persisted anew with count 0 and the slot is pending with a hook |
| InlineRunners.InlineRunner.Replay | crates/konf-tool-runner/src/runners/inline.rs:211-263 | over the limit a stored intent is failed, a missing one left; with the workflow missing the raised count stays; in neither case is a slot or hook made; else the run is spawned again under its id with a pending slot and a hook |

## Left out

- Templates.ReturnReadsRecordedIff: strings with anything around or beside one bare reference are outside it, as in `with`; what the template library reads for them is not modelled.
- Templates.StepReadsRecordedDependencies: takes rendering of one bare reference to look only at that reference's root; the template library itself is a parameter.
- ExprEval.EvaluatePrint: words may hold blanks but no operator between blanks, and do not begin with `!` or `=`; a quoted operator is split by the code and is outside the printed grammar.
- ExprLaws.OrderIff: the code compares integers as 64-bit floats, so neighbours beyond 2^53 compare equal there; numbers are exact here, in `ExprLaws.EvaluateIntegers` too.
- TaskLoop.TasksEndIff: conditions are free per cleaned text, so two texts that exclude each other by their meaning are not seen as such, and a tool may fail at any time.
- ExecutorTermination.ReachedCycleRunsOn: cycles the entry's own task reaches; for one that only a spawned step reaches, `TaskLoop.CycleNeverEnds` speaks of that step's task alone.
- Executor.CanRun: the compiler never sets a join policy, so compiled steps always wait for all dependencies; the other policies are covered for hand-built workflows.
- Scheduler.RedbScheduler.ScheduleCron: the cron library is a parameter, a parse error and an exhausted expression are the same `None`.
- Scheduler.TickClearsBacklog: for a clock past the epoch that does not go back, a cron library whose answers are strictly later, and stored fixed delays within the bounds scheduling enforces.
- JournalRecovery.ReconcileZombies: nothing else appends between its scan and its appends, as at startup.
- RunnerReplays.CollectionKeepsOpenIff: one collection at a time; nothing in the repository runs one outside its tests.
- RunnerRuns.IntentsAreAtLeastOnce: every write to the intent log succeeds; the code goes on without durability when one fails.
- Executor tasks: retries, timeouts, hooks, streaming events, outputs other than which keys are written, and task panics (which end the loop) are not modelled.
- The `else` arm of the main `select!` is unreachable while the loop holds a sender of its own channel, and is not modelled.
- Scan order over reachable nodes: a hash set's, so any order is allowed.
- Compiled credentials, grants, stream settings and pipe steps are dropped; duration parsing is a parameter; a node's `join` setting is ignored by the compiler and so here.
- Alphanumeric characters of references are ASCII letters and digits; the compiler's test also takes other alphabets.
- JSON numbers are integers; expression floats are reals, without rounding, infinities or not-a-number, and reading one from text is a parameter.
- Raw JSON values inside expression contexts: contexts are built by conversion, which never leaves one.
- Journal, scheduler and intent tables: storage errors, serialization and 64-bit overflow of ids and instants; a commit is atomic and encoding the identity.
- Scheduler list, length and shutdown; what a fired workflow does.
- The registry's shared slots are records in a map: waiting for a run and its wake-ups, and slots still held after being replaced, are not modelled.
- Intent listing by namespace prefix, parent ids, and the trace carried by a replayed run.
- Scope bindings, limits and depth checks at start, guard predicates other than the glob, and everything around servers, authentication, configuration and model calls.
