/** The error values of the ordering engine and the two releases of the
    code base that differ only in how they wrap them.

    Go errors are compared with `errors.Is`, which follows the `%w` chain
    down to a package-level sentinel. An error here is either the bare
    sentinel or the sentinel wrapped by one `fmt.Errorf` with a detail
    naming the offending vertex or task. */
module Errors {

  /** The two copies of the engine: `graph/` + `job/` (Legacy) and `pkg/` (Current). */
  datatype Release = Legacy | Current

  /** The package-level sentinel errors of both releases. */
  datatype Sentinel =
    | VertexNotFound
    | GraphCycle
    | VertexIsNotDefined
    | CommandBufferSize
    | RequestTaskDoesNotExist

  /** The `fmt.Errorf` format a wrapped error was built with. */
  datatype Detail =
    | VertexDetail   // "%w, Vertex: %s"       (lookup of an unknown vertex, Current)
    | NameDetail     // "%w, Name: %s "        (edge endpoint not registered)
    | CycleDetail    // "%w. Cycle vertex %s"  (back edge, Current)
    | TaskDetail     // "%w, task: %s"         (task absent from the sorted names)

  datatype Error =
    | Bare(sentinel: Sentinel)
    | Wrapped(sentinel: Sentinel, detail: Detail, subject: string)

  /** Success value or error, as Go's `(T, error)` pairs. */
  datatype Result<+T> = Ok(value: T) | Err(error: Error)

  /** `errors.Is(e, s)`: the wrapping chain of `e` ends in sentinel `s`. */
  predicate Is(e: Error, s: Sentinel)
  {
    e.sentinel == s
  }

  /** The text the sentinel was created with by `errors.New`. */
  function Text(s: Sentinel): string
  {
    match s
    case VertexNotFound => "vertex not found"
    case GraphCycle => "there is cycle in the graph"
    case VertexIsNotDefined => "vertex is not defined"
    case CommandBufferSize => "sorted tasks are more than the passed buffer size"
    case RequestTaskDoesNotExist => "request task does not exist in the sorted ones"
  }

  /** `e.Error()`: the sentinel text followed by the formatted detail. */
  function Message(e: Error): (m: string)
    ensures Text(e.sentinel) <= m
  {
    match e
    case Bare(s) => Text(s)
    case Wrapped(s, VertexDetail, n) => Text(s) + ", Vertex: " + n
    case Wrapped(s, NameDetail, n) => Text(s) + ", Name: " + n + " "
    case Wrapped(s, CycleDetail, n) => Text(s) + ". Cycle vertex " + n
    case Wrapped(s, TaskDetail, n) => Text(s) + ", task: " + n
  }

  /** The error `Vertex(name)` returns for a name that is not registered. */
  function NotFoundError(rel: Release, name: string): (e: Error)
    ensures Is(e, VertexNotFound)
    ensures rel == Current <==> e.Wrapped?
    ensures e.Wrapped? ==> e.subject == name
  {
    match rel
    case Legacy => Bare(VertexNotFound)
    case Current => Wrapped(VertexNotFound, VertexDetail, name)
  }

  /** The error `processTask` returns when an edge reaches a vertex in progress. */
  function CycleError(rel: Release, name: string): (e: Error)
    ensures Is(e, GraphCycle)
    ensures rel == Current <==> e.Wrapped?
    ensures e.Wrapped? ==> e.subject == name
  {
    match rel
    case Legacy => Bare(GraphCycle)
    case Current => Wrapped(GraphCycle, CycleDetail, name)
  }

  /** The error `validateVertexExistence` returns (same in both releases). */
  function UnregisteredError(name: string): (e: Error)
    ensures Is(e, VertexNotFound) && e.Wrapped? && e.subject == name
  {
    Wrapped(VertexNotFound, NameDetail, name)
  }

  /** The error `generateCommandOrder` returns for a task missing from the order. */
  function TaskMissingError(name: string): (e: Error)
    ensures Is(e, RequestTaskDoesNotExist) && e.Wrapped? && e.subject == name
  {
    Wrapped(RequestTaskDoesNotExist, TaskDetail, name)
  }

}
