# Verified model of the workflow engines and protocols

This Dafny project models the parts of the repository that schedule, evaluate and communicate, and
proves what they promise.

- **Graphs.** `Digraph.dfy` is the theory of walks, cycles and topological orders. `Kahn.dfy` is
  Kahn's loop over an ordered multigraph, shared by both engines. `WorkflowGraph.dfy` is the mutable
  DAG with mirrored adjacency and rollback.
- **The planner-driven engine.** `WorkflowState.dfy` is the node status machine with its history,
  `ModuleRuns.dfy` the retry loop, `Executor.dfy` the ready-node scheduler, `Merging.dfy` and
  `Dataflow.dfy` converters and confluence, `Plans.dfy` building a graph from a plan, and
  `Controller.dfy` the inner loop and the replan loop.
- **The DSL engine.** `StaticSpec.dfy`, `DagRun.dfy` and `StaticRun.dfy` are static execution and
  nested workflows; `DynamicRun.dfy` is router-driven execution. The older static-only copy in
  `src/agents-workflow/core/executor.py` (lines 85-150 and 272-317) runs the same loops, so the
  static results apply to it as well.
- **Protocols.** `Reporter.dfy` is the output reporter and `RequestReply.dfy` the request/reply
  table, both as state machines over every interleaving of their atomic steps; `Presence.dfy` is the
  presence table.
- **Small cores.** `RollingWindow.dfy`, `Chunking.dfy`, `SanitizeName.dfy`.

How the program's entities appear:

- A Python set is represented by its elements in iteration order; each mutation may reorder it
  (`SetAdd` and `SetDiscard` promise the elements and nothing about order), and between mutations
  the order is fixed. A dict is a key sequence together with a map.
- User code (modules, leaves, converters, the router, the sends of the reporter) is an arbitrary
  function parameter. Where it may answer differently each time, the function also takes the position
  of the call: the attempt number of a node, the index of a router call, the position in the history.
  A node id is started at most once per state, so this covers stateful modules too.
- The replan loop and the router loop have no bound in the code. The model runs them for any given
  finite number of rounds, so each result covers every prefix of every run.
- A lock makes the method that holds it one atomic step. Exceptions are returned as outcome values.
- Numbers, times and averages are real numbers; rounding is not modelled.
- `ghost` fields record history (status changes, announcements, calls with their clock readings) so
  that contracts can speak about whole runs.

Three places where the code does less than one might expect, and what holds instead:

- A draining `stop` processes everything put ahead of the sentinel, but an item whose producer passed
  the stop check earlier may land behind it and is then never processed
  (`Reporter.LateItemIsStranded`). A stop is sure to lose nothing exactly when no producer is between
  its stop check and its put at that moment (`Reporter.DrainSafeExactly`).
- The order in which a plan lists its edges can matter: an edge listed twice with different converters
  keeps the one listed last (`Plans.LaterListingWins`). Exactly the plans without such a pair get the
  same converters in every order (`Plans.ConverterOrderFree`).
- `_RollingWindow.record` reads the clock before it takes the lock. With readings out of lock order an
  expired sample can hide behind a live one (`RollingWindows.HiddenSampleCounts`), and a sample can be
  evicted that the next call would still count (`RollingWindows.EvictedSampleMisses`). The deque is the
  filtered history after a call exactly when neither happens (`RollingWindows.ExactWhen`); readings in
  lock order suffice (`RollingWindows.ExactInOrder`), and whatever the order, no sample is lost that is
  live by every reading made (`RollingWindows.NothingLiveIsLost`).

## Model

| member | source | states |
|---|---|---|
| `Kahn.OrderCorrect` | src/libs/agent-workflows/agent_workflows/dag.py:93-118 | Kahn's loop returns a complete order exactly when the graph has no closed walk, and the order then lists every node once with every edge pointing forward; holds for child lists with repetitions too |
| `Kahn.LeftoverExact` | src/libs/agents-dsl-workflow/agent_dsl_workflow/executor.py:836-851 | the nodes the loop leaves out are exactly those with a positive final in-degree, and exactly those on a cycle or downstream of one |
| `Kahn.OrderIsFifo` | src/libs/agent-workflows/agent_workflows/dag.py:100-113 | the order begins with the nodes without parents in table order, and of two nodes the one whose last parent comes first comes first |
| `Kahn.RunQueue` | src/libs/agents-dsl-workflow/agent_dsl_workflow/executor.py:836-845 | the imperative queue loop of both engines computes the functional run that the two lemmas above are about |
| `Kahn.RelaxChildren` | src/libs/agent-workflows/agent_workflows/dag.py:110-113 | the inner loop lowers the degree of each listed child and queues it when the degree reaches zero |
| `Kahn.RelaxQueue` | src/libs/agent-workflows/agent_workflows/dag.py:110-113 | a child is queued exactly once, by the decrement that uses up its last incoming edge, however often it is listed |
| `Digraph.EdgeClosesCycle` | src/libs/agent-workflows/agent_workflows/dag.py:51-58 | adding an edge to an acyclic graph keeps it acyclic exactly when its head does not already reach its tail |
| `Digraph.NoSourceMeansCycle` | src/libs/agent-workflows/agent_workflows/dag.py:115-116 | if every leftover node has a leftover parent, each of them is fed by a real cycle (the counting argument behind cycle detection) |
| `WorkflowGraphs.WorkflowGraph.AddNode` | src/libs/agent-workflows/agent_workflows/dag.py:22-29 | refuses an existing id and changes nothing, else appends the node without edges; mirrors and acyclicity are kept |
| `WorkflowGraphs.WorkflowGraph.RemoveNode` | src/libs/agent-workflows/agent_workflows/dag.py:31-44 | refuses an unknown id, else removes exactly the node and the edges touching it; no set removal can raise; mirrors and acyclicity are kept |
| `WorkflowGraphs.WorkflowGraph.AddEdge` | src/libs/agent-workflows/agent_workflows/dag.py:46-58 | refuses unknown ends; rejects exactly the edges whose head already reaches their tail and then restores the previous edge set exactly; otherwise adds that one edge; mirrors and acyclicity are kept |
| `WorkflowGraphs.AddThenDiscard` | src/libs/agent-workflows/agent_workflows/dag.py:54-58 | rollback restores the edge set because it only fires for an edge that was absent before |
| `WorkflowGraphs.WorkflowGraph.RemoveEdge` | src/libs/agent-workflows/agent_workflows/dag.py:60-63 | removes exactly that edge, also when an end is not a node, and keeps mirrors and acyclicity |
| `WorkflowGraphs.WorkflowGraph.GetTopologicalOrder` | src/libs/agent-workflows/agent_workflows/dag.py:93-118 | succeeds exactly on acyclic graphs, with an order that lists every node once and puts every edge forward, fixed by the graph |
| `WorkflowGraphs.MirrorInDegree` | src/libs/agent-workflows/agent_workflows/dag.py:95-98 | the size of the reverse-adjacency set is the in-degree that Kahn's loop needs |
| `WorkflowGraphs.WorkflowGraph.GetParents` | src/libs/agent-workflows/agent_workflows/dag.py:71-73 | a copy of exactly the parents, in no promised order; raises on an unknown node |
| `WorkflowGraphs.WorkflowGraph.GetChildren` | src/libs/agent-workflows/agent_workflows/dag.py:67-69 | a copy of exactly the children; raises on an unknown node |
| `WorkflowGraphs.WorkflowGraph.GetReadyNodes` | src/libs/agent-workflows/agent_workflows/dag.py:120-136 | raises exactly when some node has no record; else lists the pending nodes whose parents are all completed |
| `WorkflowGraphs.ScanReady` | src/libs/agent-workflows/agent_workflows/dag.py:120-136 | the scan over the nodes, including the case where a record is missing |
| `WorkflowGraphs.WorkflowGraph.IsComplete` | src/libs/agent-workflows/agent_workflows/dag.py:138-142 | true exactly when every node is completed; raises only when a record is missing |
| `WorkflowStates.WorkflowState.InitializeNode` | src/libs/agent-workflows/agent_workflows/state.py:43-56 | refuses a known id, else adds a pending record and nothing else |
| `WorkflowStates.WorkflowState.MarkNodeRunning` | src/libs/agent-workflows/agent_workflows/state.py:58-65 | raises on an unknown id; else status, attempts and execution order change together, and the recorded history grows by one start |
| `WorkflowStates.WorkflowState.MarkNodeCompleted` | src/libs/agent-workflows/agent_workflows/state.py:67-73 | raises on an unknown id; else only status and output of that node change |
| `WorkflowStates.WorkflowState.MarkNodeFailed` | src/libs/agent-workflows/agent_workflows/state.py:75-81 | raises on an unknown id; else only status and error of that node change |
| `WorkflowStates.StartedOnce` | src/libs/agent-workflows/agent_workflows/state.py:58-65 | in a legal history no node is started twice, so the execution order has no duplicates |
| `WorkflowStates.LegalRecords` | src/libs/agent-workflows/agent_workflows/state.py:43-65 | in a legal history every node has at most one attempt, and pending means exactly never started |
| `WorkflowStates.EndedIsFinal` | src/libs/agent-workflows/agent_workflows/state.py:67-81 | completed and failed are final over any continuation of the history |
| `WorkflowStates.ParentsCompletedAtStart` | src/libs/agent-workflows/agent_workflows/executor.py:39-44 | every parent demanded when a node was started was completed at that moment and stays completed |
| `ModuleRuns.Execute` | src/libs/agent-workflows/agent_workflows/abstract.py:24-65 | attempts stop at the first good one; failure is reported only after all max_retries + 1 attempts; it is a payload when tolerated and an exception otherwise; a non-dict input raises before any attempt |
| `Executor.WorkflowExecutor.Execute` | src/libs/agent-workflows/agent_workflows/executor.py:12-36 | terminates; on a fresh state it refines the topological run: all succeed gives the order itself, tolerated failures give exactly the nodes with no failing proper ancestor in that order, and an untolerated failure stops the run there; on any state, only pending graph nodes are run, each after its parents completed and with its module's verdict, and each outcome has its reason: all completed, every pending node has a failed (or left running) proper ancestor, a node that failed untolerated in this run, or a graph node without record |
| `Executor.FinishesExactly` | src/libs/agent-workflows/agent_workflows/executor.py:12-36 | from any records that know the graph, the run finishes if and only if every graph node is completed already, or pending with a module that succeeds within its attempts on the input it has |
| `Executor.WorkflowExecutor.ExecuteNode` | src/libs/agent-workflows/agent_workflows/executor.py:39-69 | runs one pending node whose parents are completed; only its record changes, and the exception escapes exactly for untolerated failures |
| `Executor.WorkflowExecutor.SelectFirstReady` | src/libs/agent-workflows/agent_workflows/executor.py:78-86 | the node run next is the first ready node of the recomputed topological order |
| `Executor.WorkflowExecutor.InitializeState` | src/libs/agent-workflows/agent_workflows/executor.py:72-76 | unknown graph nodes get an empty-dict input, known records are untouched |
| `Executor.Advance` | src/libs/agent-workflows/agent_workflows/executor.py:20-36 | when position j is the first ready one, everything between the last run node and j is blocked by a failure, so running j extends the blocked-free run by exactly one |
| `Executor.NoneReady` | src/libs/agent-workflows/agent_workflows/executor.py:27-32 | when nothing is ready, exactly the nodes without a failing proper ancestor have been run |
| `Executor.StuckRefines` | src/libs/agent-workflows/agent_workflows/executor.py:27-32 | the run gets stuck only when some module fails |
| `Executor.NoneReadyIsStuck` | src/libs/agent-workflows/agent_workflows/executor.py:27-32 | on any records, when nothing is ready in an incomplete graph, every pending node has a proper ancestor that is failed or was left running |
| `Executor.BlockedByRunFailure` | src/libs/agent-workflows/agent_workflows/executor.py:20-36 | a node left out because of some failing ancestor has a failing ancestor that was actually run: failures that never got to run block nothing of their own |
| `Executor.WorkflowExecutor.TrackedPass` | src/libs/agent-workflows/agent_workflows/executor.py:20-36 | one turn of the loop: it keeps the run in step with the topological order, sets the workflow status for the way it ended, and strictly reduces the pending nodes when it ran one |
| `Merging.PrepareNodeInput` | src/libs/agent-workflows/agent_workflows/controller.py:141-176 | a node without parents keeps its input; otherwise the merge loop raises exactly when some parent's output, converted where the edge has a converter, threw or is no dict, and else gives exactly the contributed keys, each with the value of the last contributing parent in the given order |
| `Merging.MergeRaises` | src/libs/agent-workflows/agent_workflows/controller.py:148-172 | the merge raises if and only if some parent's converted output threw or is not a dict |
| `Merging.ConverterApplied` | src/libs/agent-workflows/agent_workflows/controller.py:156-174 | with one parent and a converter on its edge, the input is what the converter returns |
| `Merging.MergeIsUnion` | src/libs/agent-workflows/agent_workflows/controller.py:148-176 | when contributions agree on shared keys, the merge in any order is their union |
| `Merging.LastContributorWins` | src/libs/agent-workflows/agent_workflows/controller.py:148-176 | for any list of parents: a key is in the merged input exactly if some parent contributes it, with the value of the last contributing one; a parent contributes what its edge's converter makes of its output, or the output itself without a converter, or nothing without output |
| `Dataflow.SameInput` | src/libs/agent-workflows/agent_workflows/controller.py:141-176 | equal parent outputs with agreeing contributions give equal inputs, whatever the two merge orders were |
| `Dataflow.Confluent` | src/libs/agent-workflows/agent_workflows/controller.py:107-176 | two runs of a graph from the same records, complete or not, give every node that both have run the same input, verdict and output, however ready nodes were chosen and parents were ordered, if contributions agree on shared keys in one of them |
| `Dataflow.SolvableNeverFails` | src/libs/agent-workflows/agent_workflows/controller.py:107-176 | if some run completes the graph with agreeing contributions, no run of it fails a node, and every node it runs has that run's input and output |
| `Dataflow.SolvableNeverRaises` | src/libs/agent-workflows/agent_workflows/controller.py:141-176 | under the same condition preparing an input raises in no merge order |
| `Controller.SolvableCompletes` | src/libs/agent-workflows/agent_workflows/controller.py:107-135 | if some records complete the graph from where it starts, with agreeing contributions, the inner loop must complete it, with the same inputs and outputs; this holds for replans too |
| `Plans.ValidatePlan` | src/libs/agent-workflows/agent_workflows/planner.py:134-167 | accepts exactly the plans whose modules are registered, whose edge ends are plan nodes and whose converter texts mention def convert |
| `Plans.BuildGraph` | src/libs/agent-workflows/agent_workflows/controller.py:63-101 | building succeeds exactly when the plan's modules and edge ends are known, its ids are distinct, its converters compile and its whole edge set is acyclic; the graph then has exactly the plan's nodes, edges and modules |
| `Plans.BuildEdges` | src/libs/agent-workflows/agent_workflows/controller.py:88-99 | adding edges one by one fails exactly when the whole edge set is cyclic or an edge does not fit |
| `Plans.EdgeOrderIrrelevant` | src/libs/agent-workflows/agent_workflows/controller.py:88-93 | the order in which a plan lists its edges decides neither whether the plan builds nor its edge set |
| `Plans.ConverterOrderFree` | src/libs/agent-workflows/agent_workflows/controller.py:88-99 | the listing order cannot change the converter table if and only if listings of one edge never bring different converters |
| `Plans.LaterListingWins` | src/libs/agent-workflows/agent_workflows/controller.py:95-99 | an edge listed twice with different converters: the two listing orders give different tables |
| `Plans.TablesExact` | src/libs/agent-workflows/agent_workflows/controller.py:75-86 | every plan node gets its own input and the registered module it names |
| `Plans.ConverterOfEdge` | src/libs/agent-workflows/agent_workflows/controller.py:95-99 | an edge has its own converter unless a later listing of the same edge brings another |
| `Plans.NoConverter` | src/libs/agent-workflows/agent_workflows/controller.py:95-99 | an edge whose listings bring no converter has none, whatever earlier plans had |
| `Controller.ProgressOrFailure` | src/libs/agent-workflows/agent_workflows/controller.py:112-122 | while the graph is incomplete, some node is ready, or some node has failed and every pending node has a failed proper ancestor; so without failures some node is ready |
| `Controller.WorkflowController.ExecuteWithConverters` | src/libs/agent-workflows/agent_workflows/controller.py:107-135 | the inner loop terminates; what it ran satisfies the dataflow equations and nothing else changed; 'Workflow stuck' means some graph node has failed and every pending one has a failed proper ancestor, a converter exception that merging completed parents in some order raises, a node exception that a node run in this loop failed without being tolerated; every start demands the parents in the graph in force |
| `Controller.WorkflowController.TakeTurn` | src/libs/agent-workflows/agent_workflows/controller.py:112-135 | every pass that runs a node strictly reduces the pending nodes of the graph and keeps the loop invariant |
| `Controller.WorkflowController.RunRound` | src/libs/agent-workflows/agent_workflows/controller.py:29-59 | one replan round: a build error escapes and leaves the records and the history unchanged; otherwise the history is only extended, by starts under this plan's graph, and the round ends for one of the reasons of the inner loop |
| `Controller.WorkflowController.Run` | src/libs/agent-workflows/agent_workflows/controller.py:21-61 | over any sequence of plans on one state: no duplicates in the execution order, at most one attempt per node, a legal status history; the run falls into one round per built plan, without gaps; each start lies in the round whose own graph has the node and demands its parents there; each round satisfies its plan's dataflow equations as far as it got; escape exactly on an unbuildable plan |
| `Controller.EndedIsSettled` | src/libs/agent-workflows/agent_workflows/controller.py:21-61 | at the end of any run, every node that completed or failed was settled in one of the rounds by that round's plan, and the final records still bear it out |
| `Controller.PassKeeps` | src/libs/agent-workflows/agent_workflows/controller.py:124-135 | running one node keeps every node run before settled, leaves no node running and shrinks the pending set |
| `StaticSpecs.LoadSpec` | src/libs/agents-dsl-workflow/agent_dsl_workflow/executor.py:796-819 | accepts exactly the specs with distinct node ids, known ends and no self-loop; a cycle error names a self-loop, a spec error a duplicate id or an unknown end |
| `StaticSpecs.ComputeInDegrees` | src/libs/agents-dsl-workflow/agent_dsl_workflow/executor.py:826-834 | the in-degree table counts repeated children with multiplicity |
| `StaticSpecs.TopologicalSort` | src/libs/agents-dsl-workflow/agent_dsl_workflow/executor.py:825-853 | succeeds exactly on acyclic graphs with a topological order of all nodes, else reports the cycle ids, of which there is at least one |
| `StaticSpecs.CycleIdsExact` | src/libs/agents-dsl-workflow/agent_dsl_workflow/executor.py:847-851 | the ids named by the cycle error are exactly the nodes on a cycle or reachable from one |
| `StaticSpecs.CycleIdsInOrder` | src/libs/agents-dsl-workflow/agent_dsl_workflow/executor.py:847-851 | they are named once each, in node order |
| `StaticSpecs.BuildParentMap` | src/libs/agents-dsl-workflow/agent_dsl_workflow/executor.py:855-860 | the parent map lists each node's parents in dict order, each as often as it lists the node as a child |
| `StaticSpecs.ParentsExact` | src/libs/agents-dsl-workflow/agent_dsl_workflow/executor.py:855-860 | a node's parent list holds exactly the nodes with an edge to it |
| `DagRuns.AlongIsMeaning` | src/libs/agents-dsl-workflow/agent_dsl_workflow/executor.py:303-308 | along any topological order the loop raises the error of the first failing node, and otherwise stores exactly what the recursive evaluator gives |
| `DagRuns.OutputsAreThere` | src/libs/agents-dsl-workflow/agent_dsl_workflow/executor.py:303-334 | along a topological order every error of the loop was raised by running some node: the missing-output error never arises |
| `DagRuns.OrderDoesNotMatter` | src/agents-workflow/core/executor.py:108-127 | every topological order gives the same output map, or a failure for both |
| `DagRuns.UniqueSolution` | src/libs/agents-dsl-workflow/agent_dsl_workflow/executor.py:303-334 | a map satisfies the dataflow equations exactly when it holds every node's recursive meaning |
| `DagRuns.SolutionIsMeaning` | src/libs/agents-dsl-workflow/agent_dsl_workflow/executor.py:314-334 | any solution of the dataflow equations agrees with the recursive evaluator at every node |
| `StaticRuns.MeaningIsUniqueSolution` | src/libs/agents-dsl-workflow/agent_dsl_workflow/executor.py:289-334 | static execution returns a map exactly when that map is the unique solution of the dataflow equations |
| `StaticRuns.ExecuteStatic` | src/libs/agents-dsl-workflow/agent_dsl_workflow/executor.py:276-312 | terminates whenever the references from loadable workflow to loadable workflow that can be followed from the spec are well-founded, whatever else the library holds; returns or raises exactly what the denotation says, and never the 'outputs not yet available' error |
| `StaticRuns.RunInOrder` | src/libs/agents-dsl-workflow/agent_dsl_workflow/executor.py:303-312 | the execution loop over the sorted nodes equals the sequential reference run |
| `StaticRuns.RunNode` | src/libs/agents-dsl-workflow/agent_dsl_workflow/executor.py:490-525 | a leaf's exception names the node and its None becomes an empty dict; a workflow node gives the whole output map of its sub-workflow on the wrapped input, with the engine's error translation |
| `StaticRuns.LeafMeaning` | src/libs/agents-dsl-workflow/agent_dsl_workflow/executor.py:490-507 | a leaf's answer is its output, None becomes an empty dict, an exception becomes an error that names the node |
| `StaticRuns.SubWorkflowMeaning` | src/libs/agents-dsl-workflow/agent_dsl_workflow/executor.py:664-732 | a workflow node succeeds exactly when its sub-workflow does on the input (under the key data when that is no dict), and then gives its whole output map; a spec error escapes, every other error and a missing or refused sub-workflow names the node |
| `StaticRuns.ResolveInput` | src/libs/agents-dsl-workflow/agent_dsl_workflow/executor.py:314-334 | a root gets the initial input, an only parent passes its output on bare, several parents give the list of their outputs with repetitions; it fails exactly when an output is missing |
| `StaticRuns.LoopIsMeaning` | src/libs/agents-dsl-workflow/agent_dsl_workflow/executor.py:289-312 | running along the sorted order is the denotation, and every error it raises was raised by running some node, so none is the loop's own missing-output error |
| `StaticRuns.NothingMissing` | src/libs/agents-dsl-workflow/agent_dsl_workflow/executor.py:314-334 | no run, however deeply nested, ends with the missing-output error |
| `StaticRuns.RankingIrrelevant` | src/libs/agents-dsl-workflow/agent_dsl_workflow/executor.py:664-732 | the meaning of nested workflows does not depend on which ranking shows their references well-founded |
| `DynamicRuns.ExecuteDynamic` | src/libs/agents-dsl-workflow/agent_dsl_workflow/executor.py:336-400 | against any router: each batch is the list of steps its reply carries, non-empty and valid as a whole; the history is their concatenation, cut short only by a failing node, each step run on the input it asks for; outputs are the latest results; and the last reply itself explains how the run ended, so the run ends without a result only on None, an empty dict or an empty list of steps |
| `DynamicRuns.RunBatch` | src/libs/agents-dsl-workflow/agent_dsl_workflow/executor.py:366-381 | the steps of a batch run in order, each on the input it asks for (an empty dict when it gives none, wrapped when it is no dict), until one raises; None leaves an empty dict |
| `DynamicRuns.LatestExact` | src/libs/agents-dsl-workflow/agent_dsl_workflow/executor.py:377-381 | outputs has a key exactly for each id in the history, holding the result of its last run |
| `DynamicRuns.DynamicSafety` | src/libs/agents-dsl-workflow/agent_dsl_workflow/executor.py:336-400 | in every such run the router node never appears in the history, every id there is a known node, and the keys of outputs are exactly the ids in the history |
| `DynamicRuns.ValidateBatch` | src/libs/agents-dsl-workflow/agent_dsl_workflow/executor.py:455-484 | accepts exactly the batches whose every step names a known node other than the router by a non-empty string |
| `DynamicRuns.ReadStep` | src/libs/agents-dsl-workflow/agent_dsl_workflow/executor.py:366-375 | a valid step is run as the node it names, on its input entry, on an empty dict when it has none, or on that entry under the key data when it is no dict |
| `DynamicRuns.ParseMeaning` | src/libs/agents-dsl-workflow/agent_dsl_workflow/executor.py:411-453 | a reply is read as a non-empty list of steps if and only if it is that list, or a dict whose only entry is that list under one of the five recognised keys; as done if and only if it is None, an empty dict or carries an empty list; as a final answer if and only if it is a dict of several keys; everything else is refused |
| `DynamicRuns.FirstList` | src/libs/agents-dsl-workflow/agent_dsl_workflow/executor.py:434-438 | unwrapping finds a list under a recognised key exactly when there is one |
| `Reporter.RunKeepsInv` | src/libs/agents-sdk/core/exchange_reporter.py:54-188 | the invariant (logs agree with the queue in FIFO order, counter, retry discipline, one sentinel) holds in every interleaving |
| `Reporter.Configured` | src/libs/agents-sdk/core/exchange_reporter.py:21-37 | in every run the queue bound and the number of attempts are the configured ones, less than one attempt counting as one |
| `Reporter.CheckDecides` | src/libs/agents-sdk/core/exchange_reporter.py:64-68 | a submission after a stop is dropped without effect; before it, its item goes on to be put |
| `Reporter.PutOrReject` | src/libs/agents-sdk/core/exchange_reporter.py:70-80 | an item is queued at the end exactly when the bound leaves room (a bound of zero or less always does), and given up exactly when it does not |
| `Reporter.StopBegins` | src/libs/agents-sdk/core/exchange_reporter.py:94-104 | a draining stop goes straight on to the sentinel, any other starts by emptying the queue |
| `Reporter.Conservation` | src/libs/agents-sdk/core/exchange_reporter.py:54-188 | in every interleaving each accepted entry is exactly once processed, in hand, discarded or queued; the unfinished count is queue length plus entries in hand; every processed item had 1 to retry_attempts sends (as configured, at least one), stopping at the first success; a bounded queue stays within max_queue_size |
| `Reporter.DrainProcessesAllAhead` | src/libs/agents-sdk/core/exchange_reporter.py:89-128 | after a draining stop the worker has processed exactly the items put ahead of the sentinel, once each and in order; what was put behind it is still queued |
| `Reporter.StopSettlesAllAhead` | src/libs/agents-sdk/core/exchange_reporter.py:89-128 | after any stop, draining or not, once the worker has exited everything put ahead of the sentinel was processed or discarded, exactly once; what is queued was put behind it |
| `Reporter.StopperEmpties` | src/libs/agents-sdk/core/exchange_reporter.py:96-104 | the stopper of a non-draining stop, left alone, discards exactly what is in the queue, in order, and acknowledges each entry before it goes on to the sentinel |
| `Reporter.EmptyBeforeSentinel` | src/libs/agents-sdk/core/exchange_reporter.py:97-104 | a non-draining stop goes on to the sentinel only from an empty queue |
| `Reporter.DrainSafeExactly` | src/libs/agents-sdk/core/exchange_reporter.py:64-128 | a draining stop can leave no item unprocessed if and only if no producer is between its stop check and its put when the stop is called |
| `Reporter.DrainWithNoneWaiting` | src/libs/agents-sdk/core/exchange_reporter.py:89-128 | if no producer is between check and put at the stop, the worker exits with an empty queue, having processed every accepted item in order |
| `Reporter.WaitingItemCanStrand` | src/libs/agents-sdk/core/exchange_reporter.py:64-128 | from every reachable state with a producer between check and put, some interleaving strands its item |
| `Reporter.NoDeadlock` | src/libs/agents-sdk/core/exchange_reporter.py:89-128 | after a stop some worker or stopper step is enabled until the worker has exited, whatever the queue bound |
| `Reporter.StepUsesWork` | src/libs/agents-sdk/core/exchange_reporter.py:89-128 | after a stop every step but a refused submission uses up a bounded amount of work, so the stop completes |
| `Reporter.StopCompletes` | src/libs/agents-sdk/core/exchange_reporter.py:89-128 | from a stopped state at most Work(s) steps besides refused submissions can follow, and a run that no worker or stopper step can continue has let the worker exit |
| `Reporter.LateItemIsStranded` | src/libs/agents-sdk/core/exchange_reporter.py:64-71 | a concrete run: a producer that passed the stop check puts its item behind the sentinel, where it is accepted and never processed |
| `Reporter.ProcessItem` | src/libs/agents-sdk/core/exchange_reporter.py:130-188 | the retry loop sends 1 to retry_attempts times, stopping at the first success |
| `RequestReply.RunKeepsInv` | src/libs/agents-sdk/core/p2p.py:196-228 | the invariant tying pending ids, futures, calls and received replies holds in every interleaving |
| `RequestReply.PendingIsInFlight` | src/libs/agents-sdk/core/p2p.py:219-228 | in every interleaving the pending ids are exactly those of the calls in flight, one call per id |
| `RequestReply.ReturnsFirstReply` | src/libs/agents-sdk/core/p2p.py:367-376 | a call that returns gets the first reply with its own id received while it was pending |
| `RequestReply.ReplyIsReturned` | src/libs/agents-sdk/core/p2p.py:223-228 | in every interleaving a call in flight whose future is resolved can finish, and then returns exactly that reply |
| `RequestReply.ReplyResolves` | src/libs/agents-sdk/core/p2p.py:367-374 | the first message with a waiting call's internal id resolves that call's future, and no other |
| `RequestReply.RaisedHasReason` | src/libs/agents-sdk/core/p2p.py:216-228 | in every interleaving a call raises only if the run contains its abort, its timeout, or a begin that found its id pending |
| `RequestReply.BeginsInFlight` | src/libs/agents-sdk/core/p2p.py:216-223 | a new call is refused exactly if its internal id is pending; otherwise it waits under its own id |
| `RequestReply.WhatIsPossible` | src/libs/agents-sdk/core/p2p.py:219-228 | in every interleaving a call in flight can be aborted, can time out exactly while its future waits, and can finish exactly when its future is done; messages are always accepted |
| `RequestReply.DoneIsFinal` | src/libs/agents-sdk/core/p2p.py:372-374 | a done future is never resolved again, and an ended call never changes |
| `Presence.PeerTable.OnPresence` | src/libs/agents-sdk/core/p2p.py:344-356 | after any sequence of announcements a mesh is listed for a subject exactly when the last event for the pair was a join; no duplicates, no empty rows, the agent itself never listed; a join updates the data of its own row unless the new data is empty, and no other row changes |
| `Presence.PeerTable.Register` | src/libs/agents-sdk/core/p2p.py:457-464 | adds the mesh once and keeps earlier data when the new data is empty |
| `Presence.PeerTable.Unregister` | src/libs/agents-sdk/core/p2p.py:466-474 | removes the mesh, and the row when its last mesh is gone |
| `Presence.PeerTable.TargetMeshIds` | src/libs/agents-sdk/core/p2p.py:477-481 | exactly the meshes where the subject was last seen joining, or every registered mesh when there is none |
| `RollingWindows.RollingWindow.Record` | src/libs/agents-sdk/core/builtin_metrics.py:37-41 | the deque is what the calls so far leave; it is the filtered full history exactly when no expired sample hides behind a live one in what the eviction finds and no evicted sample is live again by this reading; always so with readings in lock order |
| `RollingWindows.RollingWindow.Average` | src/libs/agents-sdk/core/builtin_metrics.py:43-49 | the mean of the deque, or 0; the deque is the filtered full history under exactly the same condition, and always with readings in lock order |
| `RollingWindows.RollingWindow.Evict` | src/libs/agents-sdk/core/builtin_metrics.py:51-54 | pops exactly the expired prefix: no live sample goes, and the first one left is live |
| `RollingWindows.ExactWhen` | src/libs/agents-sdk/core/builtin_metrics.py:37-54 | after any call the deque equals the filtered full history if and only if no expired sample sits behind a live one in what the eviction finds and no sample evicted before is live again by this reading |
| `RollingWindows.ExactWhenLatest` | src/libs/agents-sdk/core/builtin_metrics.py:37-54 | for a call whose reading is the greatest so far, the deque the call finds alone decides |
| `RollingWindows.ExactInOrder` | src/libs/agents-sdk/core/builtin_metrics.py:37-54 | with clock readings in lock order every call leaves exactly the filtered full history |
| `RollingWindows.EvictedHadExpired` | src/libs/agents-sdk/core/builtin_metrics.py:51-54 | evicted samples and deque together are the full history, and every evicted sample had expired by a reading some call really made |
| `RollingWindows.HiddenSampleCounts` | src/libs/agents-sdk/core/builtin_metrics.py:37-49 | an out-of-order run in which an expired sample hides behind a live one and spoils the average |
| `RollingWindows.EvictedSampleMisses` | src/libs/agents-sdk/core/builtin_metrics.py:43-54 | an out-of-order run in which a late reading evicts what the next call would still count |
| `RollingWindows.NothingLiveIsLost` | src/libs/agents-sdk/core/builtin_metrics.py:37-54 | whatever the order of clock readings, for every cutoff not below that of the greatest reading made, the live samples of the deque are exactly the live samples of the full history, in order |
| `RollingWindows.MeanBounds` | src/libs/agents-sdk/core/builtin_metrics.py:49 | the average lies between any lower and upper bound of the samples |
| `RollingWindows.MeanAddsUp` | src/libs/agents-sdk/core/builtin_metrics.py:49 | the average is the value of a single sample, and average times count adds up over concatenation |
| `Chunking.Chunk` | src/libs/agents-addons/agent_addons/rag.py:211-219 | terminates for every size and overlap and yields the windows of the reference definition |
| `Chunking.ChunksRebuild` | src/libs/agents-addons/agent_addons/rag.py:211-219 | the first step characters of each chunk of a long text rebuild the text; a short text is its own chunk |
| `Chunking.ChunkAt` | src/libs/agents-addons/agent_addons/rag.py:211-219 | chunk k of a long text starts k steps in, a step being the size less the overlap but at least one; it is size characters long unless the text ends first; there is a chunk for every step before that end |
| `Chunking.ChunksCover` | src/libs/agents-addons/agent_addons/rag.py:211-219 | every substring of at most overlap + 1 characters (of at most size when the overlap is not smaller) lies wholly inside one chunk |
| `SanitizeName.CleanIsLabel` | src/deployer/core/k8s_workflow.py:411-416 | the result is always a label: 1 to 63 lower-case letters, digits and hyphens, no leading, trailing or doubled hyphen |
| `SanitizeName.CleanSpells` | src/deployer/core/k8s_workflow.py:411-416 | the result spells the letters and digits of the lowered name in order, with one hyphen exactly where something else stood between two of them, or workflow when there are none, cut after 63 characters and without a hyphen at the cut |
| `SanitizeName.SanitizeIdempotent` | src/deployer/core/k8s_workflow.py:411-416 | sanitizing twice is sanitizing once |

## Left out

- HTTP, NATS, Redis, MongoDB and Kubernetes calls, LLM prompting and JSON parsing: their results are arbitrary values here.
- The bodies of policies, agents and modules, and the compilation of converter code: foreign code, represented by arbitrary functions; a compile failure is a case of `ConverterCode`.
- Modules that change the shared `WorkflowState` while they run, or that write to its global context: the scheduler alone changes node records.
- Missing or ill-typed keys in plans, specs and node definitions: these only select an early error; the model starts from records whose fields are present.
- Mixed nesting: a dynamic workflow stored as a sub-workflow of a static one, whose termination the code does not bound.
- Termination of the replan loop and of dynamic routing: the code gives no bound.
- Specs from which a circular chain of sub-workflow references between loadable workflows can be followed: unless an earlier node fails, the code recurses without limit, and no result is stated for them. Circular workflows that cannot be reached, or that the loader refuses, are allowed.
- Exact exception texts, logging, tracing, timestamps, UUIDs and the global context of a run.
- `get_root_nodes`, `get_leaf_nodes` and the status getters: list comprehensions that would only add easy members.
- `flush`, `start` and join timeouts of the reporter: waiting and thread management.
- Mesh connection management, sends and custom events of the peer manager: I/O.
- The data field of a presence row over whole runs: its update rule is stated per event, on `Presence.PeerTable.OnPresence`.
- `_assemble_context`: a prefix-packing loop that would only add an easy member.
- Case folding in `_sanitize_name`: `lower` is any function that leaves labels unchanged.
- Rate limiter, backlog, autoscaler, load balancer, metrics registry, plan cache, CRUD and API routes: shallow field copying or I/O.
