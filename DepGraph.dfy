/**
 * A model of the `dependency-graph` package as the orchestrator uses it: a
 * node sequence in insertion order and a set of edges, where the edge (a, b)
 * says that a depends on b, so b has to come first.
 */
module DepGraph {
  import opened Wrappers
  import opened Errors

  datatype Graph = Graph(nodes: seq<string>, edges: set<(string, string)>)

  ghost predicate Distinct<T>(s: seq<T>) {
    forall i, j :: 0 <= i < j < |s| ==> s[i] != s[j]
  }

  /** Nodes are unique and every edge joins two nodes. */
  ghost predicate WellFormed(g: Graph) {
    Distinct(g.nodes) && forall e :: e in g.edges ==> e.0 in g.nodes && e.1 in g.nodes
  }

  /** `addNode`: adds a node once; adding a node that is already there changes nothing. */
  function AddNode(g: Graph, n: string): (r: Graph)
    ensures n in g.nodes ==> r == g
    ensures n !in g.nodes ==> r.nodes == g.nodes + [n] && r.edges == g.edges
    ensures WellFormed(g) ==> WellFormed(r)
  {
    if n in g.nodes then g else Graph(g.nodes + [n], g.edges)
  }

  /** `addDependency(from, to)`: fails when either end is not a node, checking `from` first. */
  function AddDependency(g: Graph, from: string, to: string): (r: Result<Graph, Error>)
    ensures r.Ok? <==> from in g.nodes && to in g.nodes
    ensures r.Ok? ==> r.value.nodes == g.nodes && r.value.edges == g.edges + {(from, to)}
    ensures r.Err? ==> r.error == NoSuchNode(if from in g.nodes then to else from)
    ensures r.Ok? && WellFormed(g) ==> WellFormed(r.value)
  {
    if from !in g.nodes then Err(NoSuchNode(from))
    else if to !in g.nodes then Err(NoSuchNode(to))
    else Ok(Graph(g.nodes, g.edges + {(from, to)}))
  }

  /** Every dependency of a listed name is listed before it. */
  ghost predicate RespectsEdges(g: Graph, order: seq<string>) {
    forall i, j :: 0 <= i < |order| && 0 <= j < |order| && (order[i], order[j]) in g.edges ==> j < i
  }

  /** A start plan: each node exactly once, each dependency before its dependents. */
  ghost predicate IsTopologicalOrder(g: Graph, order: seq<string>) {
    multiset(order) == multiset(g.nodes) && RespectsEdges(g, order)
  }

  /** A path of edges that ends where it starts. */
  ghost predicate IsCycle(g: Graph, c: seq<string>) {
    |c| >= 2 && c[0] == c[|c| - 1] && forall k :: 0 <= k < |c| - 1 ==> (c[k], c[k + 1]) in g.edges
  }

  /** A path of at least one edge. */
  ghost predicate IsPath(g: Graph, p: seq<string>) {
    |p| >= 2 && forall k :: 0 <= k < |p| - 1 ==> (p[k], p[k + 1]) in g.edges
  }

  ghost predicate Reachable(g: Graph, a: string, b: string) {
    exists p :: IsPath(g, p) && p[0] == a && p[|p| - 1] == b
  }

  /**
   * What the orchestrator relies on of `dependenciesOf(n)`: it names only nodes
   * that n reaches, and it names every direct dependency of n other than n itself.
   * Whether it stops at direct dependencies or returns all transitive ones is left open.
   */
  ghost predicate DependencyQuery(g: Graph, q: string -> seq<string>) {
    forall n :: n in g.nodes ==>
      (forall d :: d in q(n) ==> d in g.nodes && Reachable(g, n, d)) &&
      (forall d :: d != n && (n, d) in g.edges ==> d in q(n))
  }

  /** The first position in `pending` that `n` depends on. */
  function DependencyIn(g: Graph, n: string, pending: seq<string>): (k: Option<nat>)
    ensures k.Some? ==> k.value < |pending| && (n, pending[k.value]) in g.edges
    ensures k.None? ==> forall j :: 0 <= j < |pending| ==> (n, pending[j]) !in g.edges
  {
    if pending == [] then None
    else if (n, pending[0]) in g.edges then Some(0)
    else match DependencyIn(g, n, pending[1..])
      case None => None
      case Some(k) => Some(k + 1)
  }

  /** The first position at or after `i` whose name depends on nothing still pending. */
  function FirstReady(g: Graph, pending: seq<string>, i: nat): (r: Option<nat>)
    requires i <= |pending|
    ensures r.Some? ==> i <= r.value < |pending| && DependencyIn(g, pending[r.value], pending).None?
    ensures r.None? ==> forall k :: i <= k < |pending| ==> DependencyIn(g, pending[k], pending).Some?
    decreases |pending| - i
  {
    if i == |pending| then None
    else if DependencyIn(g, pending[i], pending).None? then Some(i)
    else FirstReady(g, pending, i + 1)
  }

  function IndexOf<T(==)>(s: seq<T>, x: T): (k: nat)
    requires x in s
    ensures k < |s| && s[k] == x
  {
    if s[0] == x then 0 else 1 + IndexOf(s[1..], x)
  }

  /**
   * When every pending name depends on another pending name, follow those
   * dependencies from the end of `path` until a name repeats; the repeated
   * stretch is a cycle.
   */
  function FindCycle(g: Graph, pending: seq<string>, path: seq<string>): (c: seq<string>)
    requires AllBlocked(g, pending)
    requires WalkIn(g, pending, path)
    ensures IsCycle(g, c)
    ensures Within(c, pending)
    decreases (set x | x in pending) - (set x | x in path)
  {
    var last := path[|path| - 1];
    var at := IndexOf(pending, last);
    var next := pending[DependencyIn(g, pending[at], pending).value];
    if next in path then
      var k := IndexOf(path, next);
      CycleOfPath(g, pending, path, k, next);
      path[k..] + [next]
    else
      TerminationStep(pending, path, next);
      ExtendWalk(g, pending, path, next);
      FindCycle(g, pending, path + [next])
  }

  /** Every pending name depends on some pending name. */
  ghost predicate AllBlocked(g: Graph, pending: seq<string>) {
    forall k :: 0 <= k < |pending| ==> DependencyIn(g, pending[k], pending).Some?
  }

  /** Every element of `c` is one of `pending`. */
  ghost predicate Within(c: seq<string>, pending: seq<string>) {
    forall k :: 0 <= k < |c| ==> c[k] in pending
  }

  /** A nonempty walk along dependency edges that stays among the pending names. */
  ghost predicate WalkIn(g: Graph, pending: seq<string>, path: seq<string>) {
    && |path| > 0 && Within(path, pending)
    && forall k :: 0 <= k < |path| - 1 ==> (path[k], path[k + 1]) in g.edges
  }

  lemma ExtendWalk(g: Graph, pending: seq<string>, path: seq<string>, next: string)
    requires WalkIn(g, pending, path) && next in pending && (path[|path| - 1], next) in g.edges
    ensures WalkIn(g, pending, path + [next])
  {
    var p2 := path + [next];
    forall k | 0 <= k < |p2| - 1 ensures (p2[k], p2[k + 1]) in g.edges {
      if k < |path| - 1 {
        assert p2[k] == path[k] && p2[k + 1] == path[k + 1];
      }
    }
  }

  lemma CycleOfPath(g: Graph, pending: seq<string>, path: seq<string>, k: nat, next: string)
    requires WalkIn(g, pending, path)
    requires k < |path| && path[k] == next
    requires (path[|path| - 1], next) in g.edges
    ensures IsCycle(g, path[k..] + [next])
    ensures Within(path[k..] + [next], pending)
  {
    var c := path[k..] + [next];
    forall j | 0 <= j < |c| - 1 ensures (c[j], c[j + 1]) in g.edges {
      if j < |c| - 2 {
        assert c[j] == path[k + j] && c[j + 1] == path[k + j + 1];
      }
    }
    forall j | 0 <= j < |c| ensures c[j] in pending {
      if j < |c| - 1 {
        assert c[j] == path[k + j];
      }
    }
  }

  lemma TerminationStep(pending: seq<string>, path: seq<string>, next: string)
    requires next in pending && next !in path
    ensures (set x | x in pending) - (set x | x in path + [next]) < (set x | x in pending) - (set x | x in path)
  {
    assert (set x | x in path + [next]) == (set x | x in path) + {next};
    assert next in (set x | x in pending) - (set x | x in path);
  }

  /** No placed name depends on a pending one. */
  ghost predicate NoEdgeInto(g: Graph, placed: seq<string>, pending: seq<string>) {
    forall a, k :: 0 <= a < |placed| && 0 <= k < |pending| ==> (placed[a], pending[k]) !in g.edges
  }

  /** The pending names once the one at position i has been placed. */
  function Without(pending: seq<string>, i: nat): (rest: seq<string>)
    requires i < |pending|
    ensures |rest| == |pending| - 1
    ensures forall k :: 0 <= k < |rest| ==> rest[k] == pending[if k < i then k else k + 1]
    ensures multiset(rest) + multiset{pending[i]} == multiset(pending)
    ensures forall x :: x in rest ==> x in pending
  {
    assert pending == pending[..i] + [pending[i]] + pending[i + 1..];
    pending[..i] + pending[i + 1..]
  }

  /** Placing a ready name keeps both invariants of Schedule. */
  lemma PlaceReady(g: Graph, pending: seq<string>, placed: seq<string>, i: nat)
    requires i < |pending| && DependencyIn(g, pending[i], pending).None?
    requires RespectsEdges(g, placed)
    requires NoEdgeInto(g, placed, pending)
    ensures RespectsEdges(g, placed + [pending[i]])
    ensures NoEdgeInto(g, placed + [pending[i]], Without(pending, i))
  {
    var now := placed + [pending[i]];
    forall a, b | 0 <= a <= b < |now| ensures (now[a], now[b]) !in g.edges {
      if b < |placed| {
        assert now[a] == placed[a] && now[b] == placed[b];
      } else if a < |placed| {
        assert now[a] == placed[a] && now[b] == pending[i];
      }
    }
  }

  /**
   * Repeatedly move the first pending name that depends on no pending name to
   * the end of `placed`; if no pending name is ready, report a cycle among them.
   */
  function Schedule(g: Graph, pending: seq<string>, placed: seq<string>): (r: Result<seq<string>, seq<string>>)
    requires RespectsEdges(g, placed)
    requires NoEdgeInto(g, placed, pending)
    ensures r.Ok? ==> multiset(r.value) == multiset(placed + pending) && RespectsEdges(g, r.value)
    ensures r.Err? ==> IsCycle(g, r.error) && Within(r.error, pending)
    decreases |pending|
  {
    if pending == [] then Ok(placed)
    else match FirstReady(g, pending, 0)
      case Some(i) =>
        PlaceReady(g, pending, placed, i);
        var r := Schedule(g, Without(pending, i), placed + [pending[i]]);
        PlacedSameElements(pending, placed, i);
        WithinWithout(r, pending, i);
        r
      case None =>
        assert WalkIn(g, pending, [pending[0]]);
        Err(FindCycle(g, pending, [pending[0]]))
  }

  lemma PlacedSameElements(pending: seq<string>, placed: seq<string>, i: nat)
    requires i < |pending|
    ensures multiset(placed + [pending[i]] + Without(pending, i)) == multiset(placed + pending)
  {
  }

  lemma WithinWithout(r: Result<seq<string>, seq<string>>, pending: seq<string>, i: nat)
    requires i < |pending|
    requires r.Err? ==> Within(r.error, Without(pending, i))
    ensures r.Err? ==> Within(r.error, pending)
  {
  }

  /** `overallOrder()`: a start plan, or the cycle that makes one impossible. */
  function OverallOrder(g: Graph): (r: Result<seq<string>, Error>)
    ensures r.Ok? ==> IsTopologicalOrder(g, r.value)
    ensures r.Err? ==> r.error.CycleFound? && IsCycle(g, r.error.cycle)
    ensures r.Err? ==> forall k :: 0 <= k < |r.error.cycle| ==> r.error.cycle[k] in g.nodes
  {
    match Schedule(g, g.nodes, [])
      case Ok(order) => Ok(order)
      case Err(c) => Err(CycleFound(c))
  }

  /** The stop plan: a sequence read from its end. */
  function Reverse<T>(s: seq<T>): (r: seq<T>)
    ensures |r| == |s| && forall i :: 0 <= i < |s| ==> r[i] == s[|s| - 1 - i]
  {
    if s == [] then [] else Reverse(s[1..]) + [s[0]]
  }

  // ---------------------------------------------------------------------------
  // Properties of the plan

  lemma {:induction false} DescendsAlongPath(g: Graph, c: seq<string>, order: seq<string>, m: nat)
    requires 1 <= m < |c|
    requires forall k :: 0 <= k < |c| - 1 ==> (c[k], c[k + 1]) in g.edges
    requires forall k :: 0 <= k < |c| ==> c[k] in order
    requires RespectsEdges(g, order)
    ensures IndexOf(order, c[m]) < IndexOf(order, c[0])
  {
    var i, j := IndexOf(order, c[m - 1]), IndexOf(order, c[m]);
    assert (order[i], order[j]) in g.edges;
    if m > 1 {
      DescendsAlongPath(g, c, order, m - 1);
    }
  }

  /** A cycle among the nodes rules out every start plan. */
  lemma CycleRulesOutOrder(g: Graph, c: seq<string>, order: seq<string>)
    requires IsCycle(g, c)
    requires forall k :: 0 <= k < |c| ==> c[k] in g.nodes
    ensures !IsTopologicalOrder(g, order)
  {
    if IsTopologicalOrder(g, order) {
      forall k | 0 <= k < |c| ensures c[k] in order {
        assert c[k] in multiset(g.nodes);
      }
      DescendsAlongPath(g, c, order, |c| - 1);
    }
  }

  /** `overallOrder()` succeeds exactly when the graph has a start plan at all. */
  lemma PlanExistsIffNoCycle(g: Graph)
    ensures OverallOrder(g).Ok? <==> exists order :: IsTopologicalOrder(g, order)
    ensures OverallOrder(g).Err? <==> exists c :: IsCycle(g, c) && forall k :: 0 <= k < |c| ==> c[k] in g.nodes
  {
    match OverallOrder(g)
    case Ok(order) =>
      assert IsTopologicalOrder(g, order);
      forall c | IsCycle(g, c) && forall k :: 0 <= k < |c| ==> c[k] in g.nodes
        ensures false
      {
        CycleRulesOutOrder(g, c, order);
      }
    case Err(e) =>
      assert IsCycle(g, e.cycle);
      forall order ensures !IsTopologicalOrder(g, order) {
        CycleRulesOutOrder(g, e.cycle, order);
      }
  }

  lemma {:induction false} ReversePreservesElements<T>(s: seq<T>)
    ensures multiset(Reverse(s)) == multiset(s)
  {
    if s != [] {
      ReversePreservesElements(s[1..]);
      assert s == [s[0]] + s[1..];
    }
  }

  /** In the stop plan every service comes before each service it depends on. */
  lemma StopPlanDependentsFirst(g: Graph, plan: seq<string>)
    requires IsTopologicalOrder(g, plan)
    ensures multiset(Reverse(plan)) == multiset(g.nodes)
    ensures forall i, j :: 0 <= i < |plan| && 0 <= j < |plan| && (Reverse(plan)[i], Reverse(plan)[j]) in g.edges ==> i < j
  {
    ReversePreservesElements(plan);
    var r := Reverse(plan);
    forall i, j | 0 <= i < |plan| && 0 <= j < |plan| && (r[i], r[j]) in g.edges ensures i < j {
      assert (plan[|plan| - 1 - i], plan[|plan| - 1 - j]) in g.edges;
    }
  }

  /** A graph with a start plan has no node that depends on itself. */
  lemma PlanMeansNoSelfLoop(g: Graph, n: string)
    requires OverallOrder(g).Ok? && n in g.nodes
    ensures (n, n) !in g.edges
  {
    var order := OverallOrder(g).value;
    assert n in multiset(order);
    var i := IndexOf(order, n);
    assert order[i] == n;
  }

  /**
   * Whatever `dependenciesOf` returns within its specification, it is empty
   * exactly for a node without dependencies once the graph has a plan.
   */
  lemma QueryEmptyIffNoDependencies(g: Graph, q: string -> seq<string>, n: string)
    requires DependencyQuery(g, q) && n in g.nodes
    requires OverallOrder(g).Ok?
    ensures q(n) == [] <==> forall d :: (n, d) !in g.edges
  {
    PlanMeansNoSelfLoop(g, n);
    if q(n) != [] {
      var d := q(n)[0];
      assert Reachable(g, n, d);
      var p :| IsPath(g, p) && p[0] == n && p[|p| - 1] == d;
      assert (n, p[1]) in g.edges;
    }
  }
}
