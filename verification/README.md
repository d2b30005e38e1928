# Job ordering service: graph store, topological sort and command order

The service accepts a job: a list of tasks, each with a name, a shell command
and the names of the tasks it requires. It builds a directed graph with one
vertex per task name and one edge from every task to every task it requires.
A depth-first topological sort lists every requirement before the task that
needs it, or reports a cycle. The sorted names are then replaced by their
commands. The result is answered as JSON or, when the `mode` query parameter
says `bash`, as a bash script with one command per line.

The repository holds two copies of this core:

- the older one, under `graph/` and `job/`, is modelled as the `Legacy` release;
- the current one, under `pkg/`, is modelled as the `Current` release.

The two differ only in how errors are wrapped, so each operation is defined
once and takes a `Release` parameter:

- `Vertex` returns a bare not-found error in the older copy. The current copy
  wraps it with the vertex name.
- The cycle error is bare in the older copy. The current copy wraps it with the
  name of the vertex that closes the cycle.

Modules, in dependency order:

- `Basics`: options, the element set of a sequence, distinctness.
- `Errors`: the five sentinel errors, wrapping, and `errors.Is`.
- `Graphs`: the store itself: `NewGraph`, `AddVertex`, `Vertex` (here `Lookup`), `AddEdge` and its existence check.
- `Paths`: paths and cycles over the stored edges.
- `TopoSort`: `TopologicalSort` and `processTask`, with their correctness theorems.
- `Jobs`: tasks and commands.
- `Builder`: `populateGraph`.
- `Materialize`: `generateCommandOrder`.
- `Mode`: `writeBash`'s script text and `getJobModeWriter`'s choice of writer.
- `Pipeline`: the three ordering steps of the handler put together.
- `Scenarios`: the repository's own test fixtures, restated and proved.

Go's map iteration order is unspecified. The sort therefore takes it as
parameters:

- `vertexOrder` is the order of `range g.Vertices`;
- `edgeOrder(n)` is the order of `range g.Edges` while vertex `n` is processed.

The theorems hold for every pair of orders that lists each key exactly as the
maps hold them (`Enumerates`, `EnumeratesEdges`). The `visited` map is the
set of names already emitted, so the model carries only the emitted list.
`processing` is passed down the recursion.

`AddEdge` stores an edge under the key `from + "-" + to`. This key is not
injective: the edges ("a-b", "c") and ("a", "b-c") share the key "a-b-c", and
the second overwrites the first. The model keeps the key as written.
Theorems about stored edges hold for every input. Theorems about each
declared requirement assume that no task name contains '-'. The scenario
`Scenarios.CollisionHidesDeclaredCycle` shows a declared cycle, a-b → c → a-b,
that the service orders without an error, because a later edge overwrote
one of the cycle's edges.
`Scenarios.DashedSelfRequirementIsOrdered` does the same for a task that
requires itself.

## Model

| member | source | states |
|---|---|---|
| Errors.Message | pkg/graph/graph.go:81 | the rendered error text starts with the sentinel's own text, whatever the wrapping |
| Errors.Is | graph/graph_test.go:49 | none (a predicate): `errors.Is` follows the `%w` chain down to the sentinel, so the model compares the sentinel an error carries; see Errors.NotFoundError and Errors.CycleError |
| Errors.NotFoundError | pkg/graph/graph.go:79-84 | a lookup failure is the vertex-not-found sentinel; it is wrapped with the missing name exactly in the current release |
| Errors.CycleError | pkg/graph/graph.go:59-61 | a cycle failure is the cycle sentinel; it is wrapped with the closing vertex's name exactly in the current release |
| Errors.UnregisteredError | pkg/graph/graph.go:111-116 | the existence check's failure is the not-found sentinel wrapped with the vertex name, in both releases |
| Errors.TaskMissingError | pkg/job/handler.go:129-133 | a request task absent from the sorted names is the task-does-not-exist sentinel wrapped with the task name |
| Graphs.NewGraph | pkg/graph/graph.go:16-21 | a new store has no vertices and no edges |
| Graphs.AddVertex | pkg/graph/graph.go:86-89 | the name becomes a key whose vertex carries that name; other vertices and all edges are untouched; the count grows by one exactly for a new name |
| Graphs.Lookup | pkg/graph/graph.go:79-84 | succeeds exactly for a stored name, returning the stored vertex; otherwise the release's not-found error for that name |
| Graphs.CheckRegistered | pkg/graph/graph.go:111-116 | passes exactly when the vertex's name is stored; otherwise the wrapped not-found error naming it |
| Graphs.AddEdge | pkg/graph/graph.go:92-109 | a missing endpoint gives the not-defined error; an unregistered `from`, then `to`, gives the not-found error; each failure leaves the store as it was; success stores the edge under "from-to", keeps every other edge and every vertex |
| Graphs.EdgeKey | pkg/graph/graph.go:106 | none: the `"%s-%s"` key; see Graphs.EdgeKeyInjective and Graphs.EdgeKeyCollision |
| Graphs.AddEdgeIdempotent | graph/graph.go:106-108 | adding the same edge twice leaves the store as one addition does |
| Graphs.AddEdgeKeepsCountOnRepeat | pkg/graph/graph.go:105-107 | re-adding an edge whose key is stored does not change the edge count |
| Graphs.EdgeKeyCollision | pkg/graph/graph.go:105-107 | the keys of ("a-b","c") and ("a","b-c") coincide and the second edge replaces the first |
| Graphs.EdgeKeyInjective | pkg/graph/graph.go:106 | when neither source name contains '-', equal keys mean equal endpoints |
| Graphs.AddTwoVertices | graph/graph_test.go:124-157 | after adding v1 and v2 the store has two vertices with those names; v1 is found; v3 gives the bare not-found error of the older copy |
| Paths.ReachesExtend | pkg/graph/graph.go:57-58 | following an edge out of a reachable vertex reaches its target |
| Paths.BackEdgeClosesCycle | pkg/graph/graph.go:59-61 | an edge back to a vertex that reaches its source closes a cycle through that vertex |
| Paths.SelfLoopIsCycle | job/handler_test.go:84-103 | an edge from a vertex to itself is a cycle |
| Paths.CycleVertexIsRegistered | pkg/graph/graph.go:97-103 | in a store whose edges join stored vertices, a vertex on a cycle is stored |
| Paths.RankedGraphIsAcyclic | pkg/graph/graph.go:36-51 | edges that always lower a rank form no cycle |
| TopoSort.ProcessTask | pkg/graph/graph.go:55-76 | on success the emitted list extends the old one, holds the vertex, and adds only names outside `processing`; a failure is the cycle error |
| TopoSort.ScanEdges | pkg/graph/graph.go:57-69 | on success the target of every scanned edge out of the vertex has been emitted |
| TopoSort.SortRoots | pkg/graph/graph.go:42-49 | on success every stored vertex met in the range has been emitted |
| TopoSort.TopologicalSort | pkg/graph/graph.go:37-51 | on success only graph names are emitted and every stored vertex is among them; a failure is the cycle error |
| TopoSort.EmptyGraphSortsToEmpty | graph/graph.go:36-50 | a store without vertices sorts to the empty list |
| TopoSort.ProcessTaskOrdered | pkg/graph/graph.go:63-74 | a vertex is emitted only after the targets of all its edges |
| TopoSort.TopologicalSortOrdersVertices | pkg/graph/graph.go:37-51 | a successful sort lists every stored vertex exactly once and puts every stored edge's target before its source, for every iteration order |
| TopoSort.OrderedExcludesCycles | pkg/graph/graph.go:71-74 | no emitted vertex lies on a cycle |
| TopoSort.TopologicalSortFailsOnlyOnCycle | pkg/graph/graph.go:59-61 | a failure names a vertex that really lies on a cycle, in the release's error format |
| TopoSort.TopologicalSortSucceedsIffAcyclic | pkg/graph/graph.go:36-76 | for every iteration order, the sort succeeds exactly when the stored edges form no cycle |
| TopoSort.ProcessTaskFailsFromCycleVertex | graph/graph_test.go:93-104 | processing that starts from a vertex on a cycle always fails |
| Builder.DependencyListContents | pkg/job/handler.go:99-100 | the flattened requirement list holds exactly the (task, required) pairs of the request |
| Builder.AddDependency | pkg/job/handler.go:101-111 | one requirement: an unknown task name, then an unknown required name, gives the release's not-found error and changes nothing; otherwise the edge task → required is stored and nothing else changes |
| Builder.AddTaskVertices | pkg/job/handler.go:94-96 | after the first loop the stored names are the old ones plus every task name, each with its own vertex; edges are untouched |
| Builder.AddRequiredEdges | pkg/job/handler.go:100-111 | the inner loop over one task's requirements leaves the vertices as they are, keeps the store valid, and fails only with the not-found error; Builder.AddRequiredEdgesInOrder equates it with the flat pass |
| Builder.AddDependencyEdges | pkg/job/handler.go:99-112 | the outer loop over the tasks leaves the vertices as they are, keeps the store valid, and fails only with the not-found error; Builder.AddDependencyEdgesInOrder equates it with the flat pass |
| Builder.PopulateGraph | pkg/job/handler.go:92-115 | vertices for all task names are added even when an edge fails; any failure is the not-found error |
| Builder.AddDependencyEdgesInOrder | job/handler.go:48-62 | the nested loops add the requirement pairs in request order |
| Builder.AddEdgesInOrderSucceedsIff | job/handler.go:50-60 | the edge loop succeeds exactly when every pair's endpoints are stored |
| Builder.AddEdgesInOrderFailsAt | job/handler.go:54-57 | the loop stops with the error of the first unresolved pair |
| Builder.FindUnresolved | pkg/job/handler.go:99-112 | the index of the first pair with an unknown name, or the length when every pair resolves |
| Builder.PopulateGraphSucceedsIff | pkg/job/handler.go:92-115 | building succeeds exactly when every required name is stored or is a task name |
| Builder.PopulateGraphReportsFirstUnknown | pkg/job/handler.go:105-108 | a failure reports the release's not-found error for the first unknown required name in request order; every earlier one is known |
| Builder.PopulateGraphKeepsEarlierEdges | job/handler.go:54-60 | on failure the edges of all pairs before the failing one are stored, as the loop leaves them |
| Builder.PopulateGraphOverlaysRequirements | pkg/job/handler.go:99-112 | on success the vertices are unchanged, the stored keys are the old ones plus the declared pairs' keys, and each declared key holds the edge of a declared pair with that key |
| Builder.PopulateFreshGraph | job/handler_test.go:69-131 | on a fresh store the vertex names are exactly the task names; on success every declared pair's key is stored and every stored edge is a declared pair |
| Builder.PopulateFreshGraphWithoutDashes | job/handler_test.go:104-131 | with dash-free task names, each declared pair is stored as its own edge |
| Jobs.CommandFor | pkg/job/handler.go:134 | none: the response line built from a task's name and command; see Materialize.GenerateCommandOrderAligns |
| Materialize.Positions | pkg/job/handler.go:123-127 | the map's keys are the sorted names and each maps to its last index |
| Materialize.PositionsAtLastIndex | job/handler.go:73-76 | a name maps to index k exactly when k is its last occurrence |
| Materialize.WriteTasks | pkg/job/handler.go:129-135 | the buffer keeps its length; success exactly when every task name has a position; failure is the task-does-not-exist error |
| Materialize.GenerateCommandOrder | pkg/job/handler.go:118-137 | a length mismatch gives the bare buffer-size error and an untouched buffer; success exactly when the lengths agree and every task name is sorted |
| Materialize.GenerateCommandOrderPlacesTasks | pkg/job/handler.go:129-135 | on success each slot holds the command of the last task named by that sorted name at its last position, and is untouched otherwise |
| Materialize.GenerateCommandOrderAligns | job/handler.go:78-84 | for distinct sorted names equal to the task names, slot k holds the command of the last task named `sorted[k]` |
| Materialize.GenerateCommandOrderStopsAtMissing | pkg/job/handler.go:130-133 | the error names the first task missing from the sorted names, and the buffer is as the earlier tasks left it |
| Mode.ScriptLines | job/mode.go:15-25 | the array holds the header first, then each command's text in order |
| Mode.Join | job/mode.go:27 | a non-empty join starts with its first part; Mode.SplitJoin and Mode.JoinSplit state that splitting undoes it |
| Mode.BashScript | job/mode.go:14-27 | the script starts with the bash header |
| Mode.SplitJoin | job/mode.go:27 | splitting a join at its separator returns the parts, when no part holds the separator |
| Mode.JoinSplit | job/mode.go:27 | joining the pieces of a split at the same separator returns the string |
| Mode.BashScriptLines | job/mode.go:14-27 | read back line by line, the script is the header followed by each command's text, for commands without a newline |
| Mode.EmptyScriptIsHeader | pkg/job/mode_test.go:41-46 | no commands give exactly the header |
| Mode.TwoCommandScript | pkg/job/mode_test.go:47-57 | two commands give the header and their texts joined by newlines |
| Mode.Lower | job/mode.go:54 | lower-casing keeps the length, lowers each ASCII letter A–Z and leaves every other character unchanged |
| Mode.ChooseWriter | job/mode.go:52-60 | none: the bash writer when the lowered mode is "bash", the JSON writer otherwise; see Mode.ChooseWriterIsBashIff |
| Mode.ChooseWriterIsBashIff | job/mode.go:52-60 | the bash writer is chosen exactly for the sixteen letter-case spellings of "bash"; every other mode gets the JSON writer |
| Mode.ChooseWriterExamples | job/mode.go:54-59 | "bash", "BASH" and "Bash" choose bash; "", "json" and "bash " choose JSON |
| Pipeline.CommandOrder | pkg/job/handler.go:64-80 | the ordering can fail only with the not-found, cycle or task-does-not-exist error |
| Pipeline.ZeroBuffer | pkg/job/handler.go:77 | the buffer has one slot per sorted name |
| Pipeline.CommandOrderSucceedsIff | pkg/job/handler.go:64-80 | for every iteration order, the ordering succeeds exactly when every required name is a task and the built graph has no cycle; an unknown name gives the not-found error, otherwise the cycle error |
| Pipeline.CommandOrderFollowsSort | pkg/job/handler.go:77-80 | a successful ordering is the sort's output with each name replaced by its task's command |
| Pipeline.CommandOrderIsTopological | job/handler.go:107-123 | a successful ordering has one command per distinct task name, each the last such task's command, and puts every stored edge's target first |
| Pipeline.CommandOrderRespectsRequirements | pkg/job/handler.go:99-112 | with dash-free names, every declared requirement comes before the task that declares it |
| Pipeline.SelfRequirementFails | job/handler_test.go:84-103 | with dash-free names, a task that requires itself makes the ordering fail with the cycle error |
| Scenarios.AddEdgeCases | graph/graph_test.go:159-191 | the four `AddEdge` cases: nil from, nil to, unregistered vertices, and the stored "from-to" edge |
| Scenarios.ChainBuiltThroughStore | graph/graph_test.go:17-28 | the chain fixture is what the store builds from its vertex and edge lists |
| Scenarios.ChainOrderIsUnique | graph/graph_test.go:17-28 | the only dependency-first listing of the chain is v4, v3, v2, v1 |
| Scenarios.ChainSortsInReverse | graph/graph_test.go:17-28 | the chain sorts to v4, v3, v2, v1 for every iteration order |
| Scenarios.ChainProcessedFromFirst | graph/graph_test.go:81-92 | processing the chain from v1 emits v4, v3, v2, v1 |
| Scenarios.TwoCycleBuiltThroughStore | graph/graph_test.go:29-39 | the two-vertex cycle fixture is what the store builds |
| Scenarios.TwoCycleFailsToSort | graph/graph_test.go:29-39 | the two-vertex cycle fails to sort with the cycle error |
| Scenarios.ThreeCycleBuiltThroughStore | graph/graph_test.go:93-104 | the three-vertex cycle fixture is what the store builds |
| Scenarios.ThreeCycleFailsFromFirst | graph/graph_test.go:93-104 | processing the three-vertex cycle from v1 fails with the cycle error |
| Scenarios.SingleTaskBuild | job/handler_test.go:69-83 | one task without requirements builds one vertex and no edges |
| Scenarios.SelfRequirementBuild | job/handler_test.go:84-103 | a self-requiring task builds without an error and stores the edge "task1-task1" |
| Scenarios.ChainBuild | job/handler_test.go:104-131 | the three-task chain builds the vertices and the two edges the test expects |
| Scenarios.SelfRequirementNamesTask | pkg/graph/graph.go:59-61 | in the current release the self-requiring task fails with the cycle error naming "task1" |
| Scenarios.CollidingBuild | pkg/graph/graph.go:105-107 | four tasks whose declared edges collide build a graph with the edges a → b-c and c → a-b |
| Scenarios.CollidedGraphIsAcyclic | pkg/graph/graph.go:105-107 | the collided graph has no cycle |
| Scenarios.CollisionHidesDeclaredCycle | pkg/job/handler.go:92-115 | the declared cycle a-b → c → a-b is ordered without an error, and "c" does not come before "a-b" |
| Scenarios.DashedSelfBuild | pkg/graph/graph.go:105-107 | the tasks a-a (requiring itself), a (requiring a-a-a) and a-a-a build with no error to the single edge a → a-a-a, the self edge overwritten under the key "a-a-a-a" |
| Scenarios.DashedSelfRequirementIsOrdered | job/handler_test.go:84-103 | that request, whose task a-a requires itself, is ordered without an error for every map order |

## Left out

- HTTP handling (`Handle`, `HandleJob`, `HandleError`), request reading, JSON encoding and decoding, `writeJSON`, logging, configuration, the server and `main`: these are I/O around the core. `Pipeline` models the ordering steps of the handler.
- The legacy `HandleJob` stops the process with `log.Fatalf` on every error. The model gives the same errors as values, as the current `Handle` returns them.
- `w.WriteHeader` and `w.Write` in `writeBash`: the model stops at the string handed to `Write`. The write error path is I/O.
- The `Graph` interface and the mock graphs in job/handler_test.go:47-68: `populateGraph` is modelled against the concrete store only.
- Pointer identity: vertices and edges are values, so two `*Vertex` with the same name are not told apart. `Valid` states that each stored vertex carries its own key's name, and `AddVertex` and `populateGraph` keep that invariant.
- The capacity hint of the current `NewGraph(verticesNum)` affects allocation only. The older graph/graph.go:15 `NewGraph()` takes no argument, while job/handler.go:107 and graph/graph_test.go pass one. The model has one `NewGraph` without a hint.
- Go's recursion depth and stack size: processTask's recursion is modelled without a depth bound.
- `processing` is not reset when the sort returns an error. An error ends the whole sort, so this has no visible effect.
- Mode.Lower: lowers only the ASCII letters A–Z, where Go's `strings.ToLower` lowers every Unicode capital ("É" becomes "é" in Go and stays "É" here). `Mode.ChooseWriter` is still exact, because no non-ASCII character lowers to 'b', 'a', 's' or 'h'.
- Errors.Message: only the sentinel prefix of the text is stated. The definition renders each Go format, trailing space of `"%w, Name: %s "` included, but nothing is proved about the detail part.
- Both source copies define `Command` with the same JSON field. The struct field is `Command` in the older copy and `Script` in the current one. The model calls it `script`. pkg/job/mode.go is not part of this model, so `Mode` follows job/mode.go, and the current tests in pkg/job/mode_test.go are restated against it.
- Graphs.EdgeKeyInjective: holds only when the source name contains no '-', because the key "from-to" collides otherwise.
- Builder.PopulateFreshGraphWithoutDashes: states each declared pair as its own stored edge only for dash-free task names, because of the same key collision.
- Pipeline.CommandOrderRespectsRequirements: proved only for dash-free task names. `Scenarios.CollisionHidesDeclaredCycle` shows that it fails otherwise.
- Pipeline.SelfRequirementFails: proved only for dash-free task names and when every required name is a task. An unknown name fails earlier with the not-found error. The dash-free restriction is necessary: `Scenarios.DashedSelfRequirementIsOrdered` orders a request whose task "a-a" requires itself without an error, because the edge of ("a", "a-a-a") overwrites the self edge under the shared key "a-a-a-a".
- Scenarios.TwoCycleFailsToSort: states the cycle sentinel without the vertex it names. Which vertex that is depends on the iteration order.
- Scenarios.ChainProcessedFromFirst: the test passes fresh `visited` and `processing` maps, so the model starts from an empty emitted list and an empty processing set.
