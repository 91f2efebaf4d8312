# runsv orchestrator, modelled in Dafny

`runsv` keeps a registry of named services and a dependency graph between them.
From the graph it computes a start plan in which every dependency comes before
its dependents. It starts the services one at a time in that order and stops
them one at a time in the reverse order. Each starting service receives the
clients of the services it depends on.

This project models that core (`index.js`) and proves properties of the model.

- **`Services.dfy`**: the shape of a service entity and `isValidService`.
  A JavaScript property is `Missing`, a plain value (truthy or not), or a function.
- **`Errors.dfy`**: the errors a caller can receive.
- **`DepGraph.dfy`**: the part of the `dependency-graph` package that the orchestrator uses.
  - `addNode`, `addDependency` and `overallOrder`, on a graph value (node sequence plus edge set).
  - `overallOrder` is modelled as a schedule that repeatedly places the first pending node that depends on no pending node.
  - When no pending node is ready, it walks dependencies to a cycle and reports it.
  - The plan is proved to be a topological order, and the function is proved to fail exactly when the graph has a cycle.
  - `dependenciesOf` is a parameter. Its specification is `DependencyQuery`: every direct dependency is listed, and only nodes the service reaches.
- **`Runsv.dfy`**: the orchestrator object `RunSV`.
  - The `services` Map is held as a `map` plus a `names` sequence, which keeps the Map's insertion order. `dependencies` holds the graph.
  - `addService`, `getService`, `listServices`, `getClients`, `init` and `stop` are methods.
  - The loops of `addService` are specified by the functions `Register` and `Wire`.
  - The walks of `init` and `stop` are specified by the predicate `StopsAtFirstError`.
  - A service's `start` and `stop` are oracles: functions from name to the error, if any, the service completes with.
  - The start walk records a trace of `start` calls together with the clients argument each call received.
- **`Scenarios.dfy`**: the situations in `test/index.js`, worked through the model.

Behaviour follows `index.js` as written, in particular:

- **Registration stops at a known name.** The first loop of `addService` ends at the first entity whose name is already registered (`break`).
  - Entities after it are neither validated nor stored.
  - Their edges are still attempted. The graph then refuses an edge to a name that was never added (`BreakLeavesLaterDependencyOut`).
  - Skipping such an entity and going on to the next one may have been meant. The model keeps the `break`.
- **`stop` throws a cycle.** `stop` does not catch the graph's cycle error, so it is thrown out of the call (`Completion.Thrown`). `init` hands the same error to its callback.
- **`init`, not `start`.** The start walk is named `init` in `index.js`. The tests call `start`, `startPlan` and `stopPlan`, and none of these is defined in `index.js`.

## Model

| member | source | states |
|---|---|---|
| Services.Validate | index.js:9-16 | No error exactly when the entity has a non-empty name and callable `start` and `stop`. A missing name gives the name error, and every other error carries the service's name. A missing or falsy `start` is reported before anything about `stop`. |
| DepGraph.AddNode | index.js:32 | Adding a node that is already present changes nothing. Otherwise the node is appended and the edges are unchanged. Well-formedness is kept. |
| DepGraph.AddDependency | index.js:35 | Succeeds exactly when both ends are nodes, and then adds just that edge. Otherwise it fails naming the first missing end, `from` before `to`. Well-formedness is kept. |
| DepGraph.FindCycle | index.js:62-67 | When every pending node depends on a pending node, the dependency walk from any pending node yields a cycle made of pending nodes. |
| DepGraph.Schedule | index.js:63 | Either a sequence that is a permutation of placed plus pending and puts every dependency before its dependents, or a cycle among the pending nodes. |
| DepGraph.OverallOrder | index.js:63 | A success is a topological order: every node exactly once, dependencies first. A failure is a cycle error whose path runs through nodes of the graph. |
| DepGraph.CycleRulesOutOrder | index.js:62-67 | A cycle among the graph's nodes rules out every topological order. |
| DepGraph.PlanExistsIffNoCycle | index.js:61-67 | The plan succeeds exactly when some topological order exists. It fails exactly when the graph has a cycle. |
| DepGraph.Reverse | index.js:91 | Same length, with element i taken from position length-1-i. |
| DepGraph.StopPlanDependentsFirst | index.js:91 | The reversed plan holds every node exactly once and puts every service before each service it depends on. |
| DepGraph.PlanMeansNoSelfLoop | index.js:62-67 | When a plan exists, no node depends on itself. |
| DepGraph.QueryEmptyIffNoDependencies | index.js:78-79 | With a plan, `dependenciesOf(n)` is empty exactly when n has no outgoing edge, whether it lists direct or transitive dependencies. |
| Runsv.RegisterKeepsEntries | index.js:28-31 | First registration wins: no entry already present is overwritten. |
| Runsv.RegisterAppendsNames | index.js:26-33 | The names of exactly the first `stored` entities are appended to the insertion order, and nothing else is. |
| Runsv.RegisterStoresEach | index.js:26-33 | Each stored entity is valid, was not registered before, and is stored under its name. |
| Runsv.RegisterAddsNothingElse | index.js:26-33 | Every registered name was either there before or belongs to one of the stored entities. |
| Runsv.RegisterStopsWhere | index.js:26-30 | The loop ends in one of three ways: after the last entity with no error, at the first invalid entity with that entity's validation error, or at the first valid entity whose name is already registered. |
| Runsv.RegistryAdd | index.js:31-32 | Storing a valid entity under a new name keeps the registry invariant. |
| Runsv.RegisterKeepsRegistry | index.js:26-33 | The loop keeps the registry invariant: names are distinct, names and keys agree, and every entry is valid under its own name. |
| Runsv.WireAddsEdges | index.js:34-36 | Adds the edges from the service to its dependencies in order. It adds all of them exactly when the service and every dependency are nodes. Otherwise it stops at the first refused edge with the graph's error, and the edges added before it stay. Nodes are unchanged and well-formedness is kept. |
| Runsv.BreakLeavesLaterDependencyOut | index.js:26-36 | In a state where the registered names are the graph's nodes, a service that is already registered stops the first loop at once: a new dependency given with it is not stored, and its edge is refused with the graph's missing-node error for that dependency, leaving the graph unchanged. |
| Runsv.WalkIsDetermined | index.js:69-85 | The plan and the outcomes leave exactly one walk that meets the description. |
| Runsv.PlanDependenciesRegistered | index.js:77-80 | Every name that `dependenciesOf` reports for a planned service is registered, so the nested `getClients` call cannot fail. |
| Runsv.PlanNamesRegistered | index.js:73-77 | Every name of a plan over the registered names is registered and non-empty, so the `!name` end test and the service lookup of both walks only ever meet the end of the plan. |
| Runsv.StartArgumentOfDependencies | index.js:78-83 | With a plan, `start` gets `null` exactly when the service has no dependencies. Otherwise the argument holds the client of every direct dependency that defines `getClient`. |
| Runsv.RunSV.constructor | index.js:18-22 | An empty registry and an empty graph, satisfying the invariant. |
| Runsv.RunSV.AddService | index.js:24-37 | The names and services become what the registration loop leaves. An invalid entity is raised, and no edge is added. Otherwise the graph becomes what the edge loop leaves, with its error raised. The invariant is kept. |
| Runsv.RunSV.AddEach | index.js:26-33 | The first loop's new state is exactly as `Register` describes, including its validation error, and it adds nodes but no edges. |
| Runsv.RunSV.WireEach | index.js:34-36 | The second loop's new graph and error are exactly as `Wire` describes, and the registry is untouched. |
| Runsv.RunSV.GetService | index.js:38-41 | An empty name is refused. Otherwise the result is the stored descriptor, which carries that name and is valid, or nothing when the name is not registered. |
| Runsv.RunSV.ListServices | index.js:42-44 | Every registered name, each exactly once. |
| Runsv.RunSV.GetClients | index.js:45-56 | The request defaults to all registered names. It succeeds exactly when every requested name is registered, and the result is then their clients. Otherwise it fails at the first unregistered name. |
| Runsv.RunSV.Init | index.js:57-86 | A cycle goes to the callback and nothing is started. Otherwise the services are started in plan order up to the first failure, whose error goes to the callback. Each start receives `null` or the clients of what `dependenciesOf` reports. |
| Runsv.RunSV.StartInOrder | index.js:69-85 | Given a plan of registered, non-empty names, starts it in order up to and including the first failure. The trace records the same services, and each one's clients argument. |
| Runsv.RunSV.Stop | index.js:87-104 | A cycle is thrown and nothing is stopped. Otherwise the services are stopped in reverse plan order up to the first failure, whose error goes to the callback. |
| Runsv.RunSV.StopInOrder | index.js:93-103 | Given an order of registered, non-empty names, stops it up to and including the first failure, and reports that failure or none. |
| Scenarios.Svc | test/index.js:6-22 | The test helper's service is valid and carries its name. |
| Scenarios.RegisterDependentAndDependency | test/index.js:151-154 | `addService(b, a)` on an empty registry stores b and then a. |
| Scenarios.WireDependentAndDependency | test/index.js:153-154 | It then adds the single edge b -> a. |
| Scenarios.OnlyPlanOfDependency | test/index.js:162-164 | a, b is the only possible start plan when b depends on a. |
| Scenarios.DependencyFirstIsPlan | test/index.js:162-164 | a, b is a start plan when b depends on a. |
| Scenarios.DependencyStartsFirst | test/index.js:162-164 | The plan is a, b. |
| Scenarios.DependentStopsFirst | test/index.js:165-167 | The stop order is b, a. |
| Scenarios.OnlyDependencyReached | test/index.js:151-154 | With b depending on a, the only node b reaches is a. |
| Scenarios.NothingListedForDependency | test/index.js:168-175 | Whatever `dependenciesOf` returns within its specification, it lists nothing for a. |
| Scenarios.DependencyListedForDependent | test/index.js:168-175 | It lists a for b, and never b itself. |
| Scenarios.StartArguments | test/index.js:168-175 | So a's `start` gets `null` and b's gets exactly the client of a. |
| Scenarios.ClientsOfDependency | test/index.js:172 | Requesting a list that holds a but not b yields exactly a's client. |
| Scenarios.ClientsOfRequested | test/index.js:73-101 | With a, b and c registered, the default request (all names) yields the three clients, and the request a, c yields exactly those two. |
| Scenarios.ClientsSkipServiceWithoutClient | test/index.js:102-121 | A registered service without `getClient` is left out of the result. |
| Scenarios.LoneServicePlan | test/index.js:24-49 | A single service is the whole start plan and the whole stop plan. |
| Scenarios.LoneServiceRuns | test/index.js:24-49 | When its `start` or `stop` succeeds, the walk visits it and reports no error. |
| Scenarios.LoneServiceFails | test/index.js:236-279 | When its `start` or `stop` fails with an error, the walk visits it and reports exactly that error. |
| Scenarios.RegisterSelfDependency | test/index.js:178-182 | `addService(a, a)` stores a once: the second a hits the `break`. |
| Scenarios.SelfDependencyIsCycle | test/index.js:178-187 | The edge a -> a is still added, and the plan fails with a cycle. |
| Scenarios.RegisterThreeCalls | test/index.js:195-200 | Of the three calls, the first stores a and b, the second stores c and stops at a, and the third stores nothing. |
| Scenarios.WireThreeCalls | test/index.js:198-200 | The three calls add a -> b, c -> a and b -> c. |
| Scenarios.ThreeServiceCycle | test/index.js:188-205 | Those edges leave no plan: the start fails with a cycle. |

## Left out

- Events: `RunSV` inherits from `EventEmitter`, but `index.js` emits no event, so there is nothing of it to model.
- Asynchrony: callbacks, deferred values, `isAsync` and the promise facade.
  - Each `start`/`stop` completion is the value of an oracle.
  - The continuation `next` becomes a loop.
- The adapters under `examples/` and `lib/util.js`.
- The `dependency-graph` package itself:
  - Only the behaviour the orchestrator relies on is modelled.
  - Its tie-break between ready nodes and the text of its cycle message are not claimed. The model's cycle is a path, not the library's message.
  - `dependenciesOf` is a parameter constrained by `DependencyQuery`, not an implementation.
- Runtime failures:
  - Assertion messages are modelled as error values, not text.
  - A non-function `getClient` is not modelled: `getClient` is either absent or yields a client.
  - The `TypeError` that `getClients` raises on an unregistered name is the `UnknownService` error.
- Names are strings, and a falsy name is the empty string. Non-string names are not modelled.
- A missing callback (`assert(callback)` in `init` and `stop`) is not modelled: the result is always returned.
- `Runsv.RunSV.Init`, `Runsv.RunSV.Stop`: both require the registry invariant. Under it every planned name is registered and non-empty (`Runsv.PlanNamesRegistered`). So the walks never meet the falsy-name end test at index.js:74 and index.js:98 before the end of the plan. They also never meet the `TypeError` that the lookups at index.js:77 and index.js:101 would raise for an unregistered name. `StartInOrder` and `StopInOrder` accept only such plans, and these two cases are not modelled.
- Completion values: an oracle's `None` stands for every falsy value a service passes to its callback (`undefined`, `null`, `0`, `''`), all of which index.js:70 and index.js:95 treat as success. `Some(e)` stands for any truthy value, which is handed on unchanged.
- Synchronous throws: an exception thrown directly by a service's `start`, `stop` or `getClient` (index.js:52, index.js:80-82, index.js:101) would escape `init`, `stop` or `getClients`. It is not modelled: each service completes only through its callback, and `getClient` only yields a client.
