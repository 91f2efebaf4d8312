/**
 * The situations the repository's own tests set up, worked through the model:
 * which names get registered, which edges get added, and what the plan is.
 */
module Scenarios {
  import opened Wrappers
  import opened Errors
  import opened Services
  import opened DepGraph
  import opened Runsv

  /** A well-formed service with a client, as the tests build them. */
  function Svc(name: string, handle: nat): (s: Descriptor)
    requires name != ""
    ensures Validate(s).None? && s.name == name
  {
    Descriptor(name, Callable, Callable, Some(Client(handle)))
  }

  // `addService(b, a)` on an empty orchestrator.

  /** Both b and a are registered, in that order. */
  lemma RegisterDependentAndDependency(b: Descriptor, a: Descriptor)
    requires b == Svc("b", 1) && a == Svc("a", 0)
    ensures Register([], map[], [b, a]) == Registration(["b", "a"], map["b" := b, "a" := a], 2, None)
  {
    assert [b, a][1..] == [a];
    var m1 := map["b" := b];
    assert Register(["b"], m1, [a]) == Registration(["b", "a"], m1["a" := a], 1, None) by {
      assert [a][1..] == [];
    }
    assert [] + ["b"] == ["b"] && map[]["b" := b] == m1;
  }

  /** The edge loop then makes b depend on a. */
  lemma WireDependentAndDependency(a: Descriptor)
    requires a == Svc("a", 0)
    ensures Wire(Graph(["b", "a"], {}), "b", [a]) == Wiring(Graph(["b", "a"], {("b", "a")}), 1, None)
  {
    assert [a][1..] == [];
  }

  /** With b depending on a, a before b is the only start plan there is. */
  lemma OnlyPlanOfDependency(order: seq<string>)
    requires IsTopologicalOrder(Graph(["b", "a"], {("b", "a")}), order)
    ensures order == ["a", "b"]
  {
    assert |order| == |multiset(order)| == 2;
    assert "a" in multiset(order) && "b" in multiset(order);
    var i, j := IndexOf(order, "a"), IndexOf(order, "b");
    assert (order[j], order[i]) in {("b", "a")};
  }

  /** The plan a, b is a start plan for b depending on a. */
  lemma DependencyFirstIsPlan()
    ensures IsTopologicalOrder(Graph(["b", "a"], {("b", "a")}), ["a", "b"])
  {
    assert multiset(["a", "b"]) == multiset(["b", "a"]);
  }

  /** a starts before b. */
  lemma DependencyStartsFirst(g: Graph)
    requires g == Graph(["b", "a"], {("b", "a")})
    ensures OverallOrder(g) == Ok(["a", "b"])
  {
    DependencyFirstIsPlan();
    PlanExistsIffNoCycle(g);
    OnlyPlanOfDependency(OverallOrder(g).value);
  }

  /** b stops before a. */
  lemma DependentStopsFirst()
    ensures Reverse(["a", "b"]) == ["b", "a"]
  {
  }

  /** In `b -> a`, b reaches only a, so it never lists itself among its dependencies. */
  lemma OnlyDependencyReached(g: Graph, d: string)
    requires g == Graph(["b", "a"], {("b", "a")}) && Reachable(g, "b", d)
    ensures d == "a"
  {
    var p :| IsPath(g, p) && p[0] == "b" && p[|p| - 1] == d;
    assert (p[|p| - 2], p[|p| - 1]) in g.edges;
  }

  /** Whatever `dependenciesOf` lists within its specification, it lists nothing for a ... */
  lemma NothingListedForDependency(g: Graph, q: string -> seq<string>)
    requires g == Graph(["b", "a"], {("b", "a")}) && DependencyQuery(g, q)
    ensures q("a") == []
  {
    DependencyStartsFirst(g);
    QueryEmptyIffNoDependencies(g, q, "a");
  }

  /** ... and just a for b. */
  lemma DependencyListedForDependent(g: Graph, q: string -> seq<string>)
    requires g == Graph(["b", "a"], {("b", "a")}) && DependencyQuery(g, q)
    ensures "a" in q("b") && "b" !in q("b")
  {
    if "b" in q("b") {
      OnlyDependencyReached(g, "b");
    }
  }

  /** So a starts with no argument, and b with the client of a. */
  lemma StartArguments(g: Graph, q: string -> seq<string>, a: Descriptor, b: Descriptor)
    requires g == Graph(["b", "a"], {("b", "a")}) && DependencyQuery(g, q)
    requires a == Svc("a", 0) && b == Svc("b", 1)
    ensures StartArgument(map["b" := b, "a" := a], q("a")) == None
    ensures StartArgument(map["b" := b, "a" := a], q("b")) == Some(map["a" := Client(0)])
  {
    NothingListedForDependency(g, q);
    DependencyListedForDependent(g, q);
    ClientsOfDependency(q("b"), a, b);
  }

  lemma ClientsOfDependency(deps: seq<string>, a: Descriptor, b: Descriptor)
    requires a == Svc("a", 0) && b == Svc("b", 1)
    requires "a" in deps && "b" !in deps
    ensures ClientsOf(map["b" := b, "a" := a], deps) == map["a" := Client(0)]
  {
  }

  // `getClients(...only)` over services a, b and c.

  /** With no names given all clients are returned, and with a and c just those two. */
  lemma ClientsOfRequested(a: Descriptor, b: Descriptor, c: Descriptor)
    requires a == Svc("a", 0) && b == Svc("b", 1) && c == Svc("c", 2)
    ensures var services := map["a" := a, "b" := b, "c" := c];
      && ClientsOf(services, ["a", "b", "c"]) == map["a" := Client(0), "b" := Client(1), "c" := Client(2)]
      && ClientsOf(services, ["a", "c"]) == map["a" := Client(0), "c" := Client(2)]
  {
  }

  /** A registered service without `getClient` contributes nothing. */
  lemma ClientsSkipServiceWithoutClient(a: Descriptor, c: Descriptor)
    requires a == Svc("a", 0) && c == Descriptor("c", Callable, Callable, None)
    ensures ClientsOf(map["a" := a, "c" := c], ["a", "c"]) == map["a" := Client(0)]
  {
  }

  // A single service.

  /** A lone service is the whole start plan and the whole stop plan. */
  lemma LoneServicePlan(g: Graph, name: string)
    requires g == Graph([name], {})
    ensures OverallOrder(g) == Ok([name]) && Reverse([name]) == [name]
  {
    assert IsTopologicalOrder(g, [name]);
    PlanExistsIffNoCycle(g);
    var v := OverallOrder(g).value;
    assert |v| == |multiset(v)| == 1;
    assert v[0] in multiset(v);
    assert v == [v[0]];
  }

  /** Its `start` or `stop` completing without error completes the walk without error. */
  lemma LoneServiceRuns(name: string, outcome: string -> Option<Error>, visited: seq<string>, result: Option<Error>)
    requires outcome(name).None? && StopsAtFirstError([name], outcome, visited, result)
    ensures visited == [name] && result.None?
  {
  }

  /** Its `start` or `stop` failing with e makes the walk report exactly e. */
  lemma LoneServiceFails(name: string, outcome: string -> Option<Error>, e: Error, visited: seq<string>, result: Option<Error>)
    requires outcome(name) == Some(e) && StopsAtFirstError([name], outcome, visited, result)
    ensures visited == [name] && result == Some(e)
  {
    assert [name][0] == name && [name][..1] == [name];
  }

  // `addService(a, a)`.

  /** The second a hits the `break`: a is registered once. */
  lemma RegisterSelfDependency(a: Descriptor)
    requires a == Svc("a", 0)
    ensures Register([], map[], [a, a]) == Registration(["a"], map["a" := a], 1, None)
  {
    assert [a, a][1..] == [a];
    assert [] + ["a"] == ["a"];
  }

  /** The edge a -> a is added all the same, and it leaves no plan. */
  lemma SelfDependencyIsCycle(a: Descriptor)
    requires a == Svc("a", 0)
    ensures Wire(Graph(["a"], {}), "a", [a]) == Wiring(Graph(["a"], {("a", "a")}), 1, None)
    ensures OverallOrder(Graph(["a"], {("a", "a")})).Err?
  {
    assert [a][1..] == [];
    var g := Graph(["a"], {("a", "a")});
    assert DependencyIn(g, "a", ["a"]) == Some(0);
    assert FirstReady(g, ["a"], 0).None?;
  }

  // `addService(a, b)`, `addService(c, a)`, `addService(b, c)`.

  /** The second and third calls stop registering at a known name. */
  lemma RegisterThreeCalls(a: Descriptor, b: Descriptor, c: Descriptor)
    requires a == Svc("a", 0) && b == Svc("b", 1) && c == Svc("c", 2)
    ensures Register([], map[], [a, b]) == Registration(["a", "b"], map["a" := a, "b" := b], 2, None)
    ensures var m := map["a" := a, "b" := b];
      Register(["a", "b"], m, [c, a]) == Registration(["a", "b", "c"], m["c" := c], 1, None)
    ensures var m := map["a" := a, "b" := b, "c" := c];
      Register(["a", "b", "c"], m, [b, c]) == Registration(["a", "b", "c"], m, 0, None)
  {
    assert [a, b][1..] == [b] && [c, a][1..] == [a];
    var m1 := map["a" := a];
    assert Register(["a"], m1, [b]) == Registration(["a", "b"], m1["b" := b], 1, None) by {
      assert [b][1..] == [];
    }
    assert [] + ["a"] == ["a"] && map[]["a" := a] == m1;
    assert ["a", "b"] + ["c"] == ["a", "b", "c"];
  }

  /** The three edge loops add a -> b, c -> a and b -> c. */
  lemma WireThreeCalls(a: Descriptor, b: Descriptor, c: Descriptor)
    requires a == Svc("a", 0) && b == Svc("b", 1) && c == Svc("c", 2)
    ensures Wire(Graph(["a", "b"], {}), "a", [b]).graph == Graph(["a", "b"], {("a", "b")})
    ensures Wire(Graph(["a", "b", "c"], {("a", "b")}), "c", [a]).graph
         == Graph(["a", "b", "c"], {("a", "b"), ("c", "a")})
    ensures Wire(Graph(["a", "b", "c"], {("a", "b"), ("c", "a")}), "b", [c]).graph
         == Graph(["a", "b", "c"], {("a", "b"), ("c", "a"), ("b", "c")})
  {
    assert [a][1..] == [] && [b][1..] == [] && [c][1..] == [];
  }

  /** Those edges close a cycle, so there is no plan. */
  lemma ThreeServiceCycle(g: Graph)
    requires g == Graph(["a", "b", "c"], {("a", "b"), ("c", "a"), ("b", "c")})
    ensures OverallOrder(g).Err?
  {
    var c := ["a", "b", "c", "a"];
    assert IsCycle(g, c);
    if OverallOrder(g).Ok? {
      CycleRulesOutOrder(g, c, OverallOrder(g).value);
    }
  }
}
