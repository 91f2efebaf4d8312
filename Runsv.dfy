/**
 * The orchestrator of index.js: a registry of services by name, the
 * dependency graph over those names, and the start and stop walks that
 * drive every service, one at a time, in plan order.
 */
module Runsv {
  import opened Wrappers
  import opened Errors
  import opened Services
  import opened DepGraph

  // ---------------------------------------------------------------------------
  // Registration (the first loop of `addService`)

  /**
   * The registry invariant: `names` lists every key once, in insertion order,
   * and every key holds a valid descriptor carrying that name.
   */
  ghost predicate Registry(names: seq<string>, services: map<string, Descriptor>) {
    && Distinct(names)
    && (forall n :: n in services <==> n in names)
    && forall n :: n in services ==> services[n].name == n && IsValid(services[n])
  }

  /** Where the registration walk left the registry, how many entities it stored, and why it stopped. */
  datatype Registration = Registration(
    names: seq<string>,
    services: map<string, Descriptor>,
    stored: nat,
    failure: Option<ValidationError>)

  /**
   * Walk the entities in order: validate each one, stop at the first name that
   * is already registered, otherwise store it under its name.
   */
  function Register(names: seq<string>, services: map<string, Descriptor>, entities: seq<Descriptor>): Registration
    decreases |entities|
  {
    if entities == [] then Registration(names, services, 0, None)
    else
      var s := entities[0];
      match Validate(s)
      case Some(e) => Registration(names, services, 0, Some(e))
      case None =>
        if s.name in services then Registration(names, services, 0, None)
        else
          var r := Register(names + [s.name], services[s.name := s], entities[1..]);
          r.(stored := r.stored + 1)
  }

  /** First registration wins: no entry that was already there is overwritten. */
  lemma {:induction false} RegisterKeepsEntries(names: seq<string>, services: map<string, Descriptor>, entities: seq<Descriptor>)
    decreases |entities|
    ensures var r := Register(names, services, entities);
      forall n :: n in services ==> n in r.services && r.services[n] == services[n]
  {
    if entities != [] && Validate(entities[0]).None? && entities[0].name !in services {
      var s := entities[0];
      RegisterKeepsEntries(names + [s.name], services[s.name := s], entities[1..]);
    }
  }

  /** The names the entities carry, in order. */
  function NamesOf(entities: seq<Descriptor>): (r: seq<string>)
    ensures |r| == |entities| && forall i :: 0 <= i < |entities| ==> r[i] == entities[i].name
  {
    if entities == [] then [] else [entities[0].name] + NamesOf(entities[1..])
  }

  /** The names of exactly the first `stored` entities are appended to the insertion order. */
  lemma {:induction false} RegisterAppendsNames(names: seq<string>, services: map<string, Descriptor>, entities: seq<Descriptor>)
    decreases |entities|
    ensures var r := Register(names, services, entities);
      r.stored <= |entities| && r.names == names + NamesOf(entities[..r.stored])
  {
    if entities != [] && Validate(entities[0]).None? && entities[0].name !in services {
      var s := entities[0];
      var rest := entities[1..];
      RegisterAppendsNames(names + [s.name], services[s.name := s], rest);
      var r' := Register(names + [s.name], services[s.name := s], rest);
      var k := r'.stored;
      assert Register(names, services, entities) == r'.(stored := k + 1);
      assert entities[..k + 1] == [s] + rest[..k];
      assert NamesOf([s] + rest[..k]) == [s.name] + NamesOf(rest[..k]);
      assert r'.names == names + ([s.name] + NamesOf(rest[..k]));
    } else {
      assert NamesOf(entities[..0]) == [];
    }
  }

  /** Each stored entity is valid, was not registered before, and is stored under its name. */
  lemma {:induction false} RegisterStoresEach(names: seq<string>, services: map<string, Descriptor>, entities: seq<Descriptor>)
    decreases |entities|
    ensures var r := Register(names, services, entities);
      forall i :: 0 <= i < r.stored && i < |entities| ==>
        && IsValid(entities[i]) && entities[i].name !in services
        && entities[i].name in r.services && r.services[entities[i].name] == entities[i]
  {
    if entities != [] && Validate(entities[0]).None? && entities[0].name !in services {
      var s := entities[0];
      var rest := entities[1..];
      RegisterStoresEach(names + [s.name], services[s.name := s], rest);
      RegisterKeepsEntries(names + [s.name], services[s.name := s], rest);
      assert forall i :: 0 <= i < |rest| ==> rest[i] == entities[i + 1];
    }
  }

  /** Nothing but the stored entities is added to the registry. */
  lemma {:induction false} RegisterAddsNothingElse(names: seq<string>, services: map<string, Descriptor>, entities: seq<Descriptor>)
    decreases |entities|
    ensures var r := Register(names, services, entities);
      r.stored <= |entities| &&
      forall n :: n in r.services ==> n in services || n in NamesOf(entities[..r.stored])
  {
    if entities != [] && Validate(entities[0]).None? && entities[0].name !in services {
      var s := entities[0];
      var rest := entities[1..];
      RegisterAddsNothingElse(names + [s.name], services[s.name := s], rest);
      var r' := Register(names + [s.name], services[s.name := s], rest);
      assert entities[..r'.stored + 1] == [s] + rest[..r'.stored];
      assert NamesOf([s] + rest[..r'.stored]) == [s.name] + NamesOf(rest[..r'.stored]);
    }
  }

  /** The walk ends after the last entity, at the first invalid one, or at the first name already registered. */
  lemma {:induction false} RegisterStopsWhere(names: seq<string>, services: map<string, Descriptor>, entities: seq<Descriptor>)
    decreases |entities|
    ensures var r := Register(names, services, entities);
      && r.stored <= |entities|
      && (r.stored == |entities| ==> r.failure.None?)
      && (r.stored < |entities| && r.failure.Some? ==> r.failure == Validate(entities[r.stored]))
      && (r.stored < |entities| && r.failure.None? ==>
            IsValid(entities[r.stored]) && entities[r.stored].name in r.services)
  {
    if entities != [] && Validate(entities[0]).None? && entities[0].name !in services {
      var s := entities[0];
      var names', services', rest := names + [s.name], services[s.name := s], entities[1..];
      RegisterStopsWhere(names', services', rest);
      var r' := Register(names', services', rest);
      assert r'.stored < |rest| ==> entities[r'.stored + 1] == rest[r'.stored];
    } else if entities != [] && Validate(entities[0]).None? {
      RegisterKeepsEntries(names, services, entities);
    }
  }

  lemma RegistryAdd(names: seq<string>, services: map<string, Descriptor>, s: Descriptor)
    requires Registry(names, services) && IsValid(s) && s.name !in services
    ensures Registry(names + [s.name], services[s.name := s])
  {
  }

  /** Registration keeps the registry invariant. */
  lemma {:induction false} RegisterKeepsRegistry(names: seq<string>, services: map<string, Descriptor>, entities: seq<Descriptor>)
    decreases |entities|
    requires Registry(names, services)
    ensures var r := Register(names, services, entities); Registry(r.names, r.services)
  {
    if entities != [] && Validate(entities[0]).None? && entities[0].name !in services {
      var s := entities[0];
      RegistryAdd(names, services, s);
      RegisterKeepsRegistry(names + [s.name], services[s.name := s], entities[1..]);
    }
  }

  // ---------------------------------------------------------------------------
  // Wiring (the second loop of `addService`)

  /** How far the edge loop got before the graph refused an edge, if it did. */
  datatype Wiring = Wiring(graph: Graph, wired: nat, failure: Option<Error>)

  /** Add the edge `from -> d.name` for each dependency in turn, stopping at the first the graph refuses. */
  function Wire(g: Graph, from: string, deps: seq<Descriptor>): Wiring
    decreases |deps|
  {
    if deps == [] then Wiring(g, 0, None)
    else match AddDependency(g, from, deps[0].name)
      case Err(e) => Wiring(g, 0, Some(e))
      case Ok(g') =>
        var w := Wire(g', from, deps[1..]);
        w.(wired := w.wired + 1)
  }

  /**
   * The edge loop adds `from -> d.name` for the dependencies in order and for
   * every one of them exactly when both ends are registered; otherwise it stops
   * at the first refused edge with the graph's error, keeping the edges added so far.
   */
  lemma {:induction false} WireAddsEdges(g: Graph, from: string, deps: seq<Descriptor>)
    decreases |deps|
    ensures var w := Wire(g, from, deps);
      && w.wired <= |deps| && w.graph.nodes == g.nodes
      && w.graph.edges == g.edges + (set i | 0 <= i < w.wired :: (from, deps[i].name))
      && (w.failure.None? <==> w.wired == |deps|)
      && (w.failure.None? <==> (deps == [] || from in g.nodes) && forall i :: 0 <= i < |deps| ==> deps[i].name in g.nodes)
      && (w.failure.Some? ==> w.failure == Some(NoSuchNode(if from in g.nodes then deps[w.wired].name else from)))
      && (WellFormed(g) ==> WellFormed(w.graph))
  {
    if deps != [] && AddDependency(g, from, deps[0].name).Ok? {
      var g' := AddDependency(g, from, deps[0].name).value;
      WireAddsEdges(g', from, deps[1..]);
      var rest := deps[1..];
      var w := Wire(g', from, rest);
      assert forall i :: 0 <= i < |rest| ==> rest[i] == deps[i + 1];
      var all := set i | 0 <= i < w.wired + 1 :: (from, deps[i].name);
      var later := set i | 0 <= i < w.wired :: (from, rest[i].name);
      assert all == {(from, deps[0].name)} + later by {
        forall e | e in all ensures e in {(from, deps[0].name)} + later {
          var i :| 0 <= i < w.wired + 1 && e == (from, deps[i].name);
          if i > 0 {
            assert e == (from, rest[i - 1].name);
          }
        }
      }
    }
  }

  /**
   * The `break`: once the service itself is already registered, a dependency
   * that is not is neither validated nor stored, and the graph then refuses its edge.
   */
  lemma BreakLeavesLaterDependencyOut(g: Graph, services: map<string, Descriptor>, service: Descriptor, dep: Descriptor)
    requires forall n :: n in services <==> n in g.nodes
    requires Validate(service).None? && service.name in services && dep.name !in g.nodes
    ensures var r := Register(g.nodes, services, [service, dep]);
      r.names == g.nodes && r.services == services && r.stored == 0 && r.failure.None?
    ensures Wire(g, service.name, [dep]) == Wiring(g, 0, Some(NoSuchNode(dep.name)))
  {
  }

  // ---------------------------------------------------------------------------
  // Clients handed to a starting service

  /** The clients of the requested registered names whose services define `getClient`. */
  function ClientsOf(services: map<string, Descriptor>, requested: seq<string>): map<string, Client> {
    map n | n in requested && n in services && services[n].getClient.Some? :: services[n].getClient.value
  }

  /** Position `i` holds the first requested name that is not registered. */
  ghost predicate FirstUnknown(requested: seq<string>, services: map<string, Descriptor>, i: int) {
    && 0 <= i < |requested| && requested[i] !in services
    && forall k :: 0 <= k < i ==> requested[k] in services
  }

  // ---------------------------------------------------------------------------
  // The sequential walks

  /**
   * A walk over `plan` that visits names in order, stops right after the first
   * name whose outcome is an error, and reports that very error, or no error
   * once every name was visited.
   */
  ghost predicate StopsAtFirstError(plan: seq<string>, outcome: string -> Option<Error>, visited: seq<string>, result: Option<Error>) {
    && |visited| <= |plan| && visited == plan[..|visited|]
    && (forall k :: 0 <= k < |visited| - 1 ==> outcome(visited[k]).None?)
    && match result
       case None => visited == plan && forall k :: 0 <= k < |plan| ==> outcome(plan[k]).None?
       case Some(_) => visited != [] && outcome(visited[|visited| - 1]) == result
  }

  /** None of the first `i` names of the plan has an error outcome. */
  ghost predicate NoneFailed(plan: seq<string>, outcome: string -> Option<Error>, i: nat) {
    forall k :: 0 <= k < i && k < |plan| ==> outcome(plan[k]).None?
  }

  /** A walk that reaches a failing name after only successes stops there with its error. */
  lemma WalkStopsAt(plan: seq<string>, outcome: string -> Option<Error>, i: nat)
    requires i < |plan| && NoneFailed(plan, outcome, i) && outcome(plan[i]).Some?
    ensures StopsAtFirstError(plan, outcome, plan[..i + 1], outcome(plan[i]))
  {
  }

  /** A walk that meets no failure visits the whole plan and reports no error. */
  lemma WalkCompletes(plan: seq<string>, outcome: string -> Option<Error>)
    requires NoneFailed(plan, outcome, |plan|)
    ensures StopsAtFirstError(plan, outcome, plan, None)
  {
    assert plan[..|plan|] == plan;
  }

  /** The walk's description leaves nothing open: given the plan and the outcomes there is one walk. */
  lemma WalkIsDetermined(plan: seq<string>, outcome: string -> Option<Error>,
                         v1: seq<string>, r1: Option<Error>, v2: seq<string>, r2: Option<Error>)
    requires StopsAtFirstError(plan, outcome, v1, r1)
    requires StopsAtFirstError(plan, outcome, v2, r2)
    ensures v1 == v2 && r1 == r2
  {
  }

  /** One call of a service's `start`: which service, and the clients argument it received. */
  datatype StartCall = StartCall(service: string, clients: Option<map<string, Client>>)

  function Started(trace: seq<StartCall>): (r: seq<string>)
    ensures |r| == |trace| && forall i :: 0 <= i < |trace| ==> r[i] == trace[i].service
  {
    if trace == [] then [] else [trace[0].service] + Started(trace[1..])
  }

  /** The argument `start` receives: no argument without dependencies, else their clients. */
  function StartArgument(services: map<string, Descriptor>, deps: seq<string>): Option<map<string, Client>> {
    if deps == [] then None else Some(ClientsOf(services, deps))
  }

  /** Each recorded `start` call received the argument its dependencies call for. */
  ghost predicate ArgumentsGiven(trace: seq<StartCall>, services: map<string, Descriptor>, dependenciesOf: string -> seq<string>) {
    forall i :: 0 <= i < |trace| ==> trace[i].clients == StartArgument(services, dependenciesOf(trace[i].service))
  }

  predicate AllIn(names: seq<string>, services: map<string, Descriptor>) {
    forall i :: 0 <= i < |names| ==> names[i] in services
  }

  /** Every dependency `dependenciesOf` reports for a planned name is a registered service. */
  lemma PlanDependenciesRegistered(g: Graph, q: string -> seq<string>, plan: seq<string>, services: map<string, Descriptor>)
    requires IsTopologicalOrder(g, plan) && DependencyQuery(g, q)
    requires forall n :: n in services <==> n in g.nodes
    ensures forall k :: 0 <= k < |plan| ==> AllIn(q(plan[k]), services)
  {
    forall k | 0 <= k < |plan| ensures AllIn(q(plan[k]), services) {
      assert plan[k] in multiset(g.nodes) by {
        assert plan[k] in multiset(plan);
      }
    }
  }

  /**
   * Every name of a plan over the registered names is registered, and none is
   * empty: the falsy-name end test and the lookup of the walks meet only the end of the plan.
   */
  lemma PlanNamesRegistered(g: Graph, plan: seq<string>, services: map<string, Descriptor>)
    requires multiset(plan) == multiset(g.nodes) && Registry(g.nodes, services)
    ensures AllIn(plan, services) && "" !in plan
  {
    forall k | 0 <= k < |plan| ensures plan[k] in services && plan[k] != "" {
      assert plan[k] in multiset(plan);
      assert IsValid(services[plan[k]]);
    }
  }

  /**
   * With a start plan, a service's `start` receives no argument exactly when it
   * has no dependencies, and otherwise the client of every direct dependency
   * that defines `getClient`.
   */
  lemma StartArgumentOfDependencies(g: Graph, q: string -> seq<string>, services: map<string, Descriptor>, n: string)
    requires DependencyQuery(g, q) && OverallOrder(g).Ok? && n in g.nodes
    ensures StartArgument(services, q(n)).None? <==> forall d :: (n, d) !in g.edges
    ensures forall d :: (n, d) in g.edges && d in services && services[d].getClient.Some? ==>
      && StartArgument(services, q(n)).Some?
      && d in StartArgument(services, q(n)).value
      && StartArgument(services, q(n)).value[d] == services[d].getClient.value
  {
    QueryEmptyIffNoDependencies(g, q, n);
    PlanMeansNoSelfLoop(g, n);
  }

  /** How `stop` ends: by throwing out of the call, or through its callback. */
  datatype Completion = Thrown(exception: Error) | Called(error: Option<Error>)

  // ---------------------------------------------------------------------------
  // The orchestrator object

  class RunSV {
    /** The `services` Map, by name. */
    var services: map<string, Descriptor>
    /** The keys of that Map in insertion order, as a JavaScript Map keeps them. */
    var names: seq<string>
    /** The `dependencies` graph; its nodes are exactly the registered names. */
    var dependencies: Graph

    ghost predicate Valid()
      reads this
    {
      Registry(names, services) && dependencies.nodes == names && WellFormed(dependencies)
    }

    constructor ()
      ensures Valid()
      ensures services == map[] && names == [] && dependencies == Graph([], {})
    {
      services, names, dependencies := map[], [], Graph([], {});
    }

    /**
     * `addService(service, ...dependencies)`. A validation failure or a refused
     * edge is raised to the caller as `thrown`; what was stored before that stays.
     */
    method AddService(service: Descriptor, deps: seq<Descriptor>) returns (thrown: Option<Error>)
      requires Valid()
      modifies this
      ensures Valid()
      ensures var reg := Register(old(names), old(services), [service] + deps);
        && names == reg.names && services == reg.services
        && if reg.failure.Some? then
             thrown == Some(Invalid(reg.failure.value)) && dependencies == Graph(reg.names, old(dependencies).edges)
           else
             var w := Wire(Graph(reg.names, old(dependencies).edges), service.name, deps);
             dependencies == w.graph && thrown == w.failure
    {
      var invalid := AddEach([service] + deps);
      if invalid.Some? {
        return Some(Invalid(invalid.value));
      }
      thrown := WireEach(service.name, deps);
    }

    /** The first loop of `addService`: register the entities until one is invalid or already known. */
    method AddEach(entities: seq<Descriptor>) returns (invalid: Option<ValidationError>)
      requires Valid()
      modifies this
      ensures Valid()
      ensures var reg := Register(old(names), old(services), entities);
        && names == reg.names && services == reg.services && invalid == reg.failure
        && dependencies == Graph(reg.names, old(dependencies).edges)
    {
      ghost var full := Register(names, services, entities);
      RegisterKeepsRegistry(names, services, entities);
      var i := 0;
      while i < |entities|
        invariant 0 <= i <= |entities| && Valid()
        invariant dependencies.edges == old(dependencies).edges
        invariant var tail := Register(names, services, entities[i..]); full == tail.(stored := tail.stored + i)
      {
        var s := entities[i];
        assert entities[i..][0] == s && entities[i..][1..] == entities[i + 1..];
        invalid := Validate(s);
        if invalid.Some? {
          return;
        }
        if s.name in services {
          break;
        }
        RegistryAdd(names, services, s);
        services := services[s.name := s];
        names := names + [s.name];
        dependencies := AddNode(dependencies, s.name);
        i := i + 1;
      }
      return None;
    }

    /** The second loop of `addService`: add an edge from `from` to each dependency, in order. */
    method WireEach(from: string, deps: seq<Descriptor>) returns (refused: Option<Error>)
      requires Valid()
      modifies this
      ensures Valid()
      ensures var w := Wire(old(dependencies), from, deps);
        && names == old(names) && services == old(services)
        && dependencies == w.graph && refused == w.failure
    {
      ghost var wiring := Wire(dependencies, from, deps);
      var j := 0;
      while j < |deps|
        invariant 0 <= j <= |deps| && Valid()
        invariant names == old(names) && services == old(services)
        invariant var tail := Wire(dependencies, from, deps[j..]); wiring == tail.(wired := tail.wired + j)
      {
        assert deps[j..][0] == deps[j] && deps[j..][1..] == deps[j + 1..];
        var added := AddDependency(dependencies, from, deps[j].name);
        if added.Err? {
          return Some(added.error);
        }
        dependencies := added.value;
        j := j + 1;
      }
      return None;
    }

    /** `getService(name)`: the stored descriptor, or nothing; an empty name is refused. */
    function GetService(name: string): (r: Result<Option<Descriptor>, Error>)
      reads this
      requires Valid()
      ensures r.Err? <==> name == ""
      ensures r.Err? ==> r.error == NameMissing
      ensures r.Ok? ==> (r.value.Some? <==> name in names)
      ensures r.Ok? && r.value.Some? ==> r.value.value == services[name] && r.value.value.name == name && IsValid(r.value.value)
    {
      if name == "" then Err(NameMissing)
      else if name in services then Ok(Some(services[name]))
      else Ok(None)
    }

    /** `listServices()`: every registered name exactly once. */
    function ListServices(): (r: seq<string>)
      reads this
      requires Valid()
      ensures Distinct(r)
      ensures forall n :: n in r <==> n in services
    {
      names
    }

    /**
     * `getClients(...only)`: the clients of the requested names (all registered
     * names when none are requested), skipping services without `getClient`.
     * Asking for a name that is not registered fails at the first such name.
     */
    method GetClients(only: seq<string>) returns (r: Result<map<string, Client>, Error>)
      ensures var requested := if |only| > 0 then only else names;
        && (r.Ok? <==> AllIn(requested, services))
        && (r.Ok? ==> r.value == ClientsOf(services, requested))
        && (r.Err? ==> exists i :: FirstUnknown(requested, services, i) && r.error == UnknownService(requested[i]))
    {
      var requested := if |only| > 0 then only else names;
      var ret := map[];
      var i := 0;
      while i < |requested|
        invariant 0 <= i <= |requested|
        invariant forall k :: 0 <= k < i ==> requested[k] in services
        invariant ret == ClientsOf(services, requested[..i])
      {
        var n := requested[i];
        if n !in services {
          assert FirstUnknown(requested, services, i);
          return Err(UnknownService(n));
        }
        if services[n].getClient.Some? {
          ret := ret[n := services[n].getClient.value];
        }
        assert requested[..i + 1] == requested[..i] + [n];
        i := i + 1;
      }
      assert requested[..i] == requested;
      return Ok(ret);
    }

    /**
     * `init(callback)`, the start walk. `dependenciesOf` is the graph's query;
     * `start` gives the error, if any, each service's `start` completes with.
     * A cycle is handed to the callback and no service is started.
     */
    method Init(dependenciesOf: string -> seq<string>, start: string -> Option<Error>)
      returns (done: Option<Error>, trace: seq<StartCall>)
      requires Valid()
      requires DependencyQuery(dependencies, dependenciesOf)
      ensures match OverallOrder(dependencies)
        case Err(e) => done == Some(e) && trace == []
        case Ok(plan) =>
          && StopsAtFirstError(plan, start, Started(trace), done)
          && forall i :: 0 <= i < |trace| ==>
               trace[i].clients == StartArgument(services, dependenciesOf(trace[i].service))
    {
      var order := OverallOrder(dependencies);
      if order.Err? {
        return Some(order.error), [];
      }
      PlanDependenciesRegistered(dependencies, dependenciesOf, order.value, services);
      PlanNamesRegistered(dependencies, order.value, services);
      done, trace := StartInOrder(order.value, dependenciesOf, start);
    }

    /**
     * The `next` continuation of `init`: start the planned services one after
     * another, each with the clients of its dependencies or with no argument
     * when it has none, until one of them fails.
     */
    method StartInOrder(plan: seq<string>, dependenciesOf: string -> seq<string>, start: string -> Option<Error>)
      returns (done: Option<Error>, trace: seq<StartCall>)
      requires AllIn(plan, services) && "" !in plan
      requires forall k :: 0 <= k < |plan| ==> AllIn(dependenciesOf(plan[k]), services)
      ensures StopsAtFirstError(plan, start, Started(trace), done)
      ensures forall i :: 0 <= i < |trace| ==>
        trace[i].clients == StartArgument(services, dependenciesOf(trace[i].service))
    {
      trace := [];
      var i := 0;
      while i < |plan|
        invariant 0 <= i <= |plan| && Started(trace) == plan[..i]
        invariant NoneFailed(plan, start, i)
        invariant ArgumentsGiven(trace, services, dependenciesOf)
      {
        var name := plan[i];
        var deps := dependenciesOf(name);
        var clients: Option<map<string, Client>> := None;
        if |deps| > 0 {
          var got := GetClients(deps);
          clients := Some(got.value);
        }
        trace := trace + [StartCall(name, clients)];
        assert Started(trace) == plan[..i + 1];
        var failed := start(name);
        if failed.Some? {
          WalkStopsAt(plan, start, i);
          return failed, trace;
        }
        i := i + 1;
      }
      WalkCompletes(plan, start);
      return None, trace;
    }

    /**
     * `stop(callback)`, the stop walk over the reversed plan. `stop` gives the
     * error, if any, each service's `stop` completes with. Unlike `init`, a
     * cycle is thrown out of the call instead of reaching the callback.
     */
    method Stop(stop: string -> Option<Error>) returns (outcome: Completion, trace: seq<string>)
      requires Valid()
      ensures match OverallOrder(dependencies)
        case Err(e) => outcome == Thrown(e) && trace == []
        case Ok(plan) => outcome.Called? && StopsAtFirstError(Reverse(plan), stop, trace, outcome.error)
    {
      var order := OverallOrder(dependencies);
      if order.Err? {
        return Thrown(order.error), [];
      }
      ReversePreservesElements(order.value);
      PlanNamesRegistered(dependencies, Reverse(order.value), services);
      var failed;
      failed, trace := StopInOrder(Reverse(order.value), stop);
      outcome := Called(failed);
    }

    /** The `next` continuation of `stop`: stop the services one after another until one of them fails. */
    method StopInOrder(plan: seq<string>, stop: string -> Option<Error>) returns (done: Option<Error>, trace: seq<string>)
      requires AllIn(plan, services) && "" !in plan
      ensures StopsAtFirstError(plan, stop, trace, done)
    {
      trace := [];
      var i := 0;
      while i < |plan|
        invariant 0 <= i <= |plan| && trace == plan[..i]
        invariant NoneFailed(plan, stop, i)
      {
        var s := plan[i];
        trace := trace + [s];
        var failed := stop(s);
        if failed.Some? {
          WalkStopsAt(plan, stop, i);
          return failed, trace;
        }
        i := i + 1;
      }
      WalkCompletes(plan, stop);
      return None, trace;
    }
  }
}
