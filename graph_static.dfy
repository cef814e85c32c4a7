/** The deterministic task graphs of src/graph-static.c: the recursive Fibonacci task tree and
    multi-phase fork-join. */
module GraphStatic {
  import opened Common

  // ---------------------------------------------------------------------------------------------
  // Fibonacci.
  // ---------------------------------------------------------------------------------------------

  /** `_fibonacci_add_tasks` stops when the task is a leaf: below 2 or at the sequential cutoff. */
  predicate FibLeaf(n: nat, cutoff: nat) {
    n < 2 || n <= cutoff
  }

  /** Number of vertices `_fibonacci_add_tasks(n, cutoff, ...)` adds. */
  function FibAdded(n: nat, cutoff: nat): nat {
    if FibLeaf(n, cutoff) then 0 else 2 + FibAdded(n - 1, cutoff) + FibAdded(n - 2, cutoff)
  }

  /** The edges `_fibonacci_add_tasks(n, cutoff, myid, g)` appends when `g` has `base` vertices:
      two new tasks linked to `myid`, then the sub-trees of `n-1` and `n-2` under them. */
  function FibEdges(n: nat, cutoff: nat, myid: nat, base: nat): seq<Edge> {
    if FibLeaf(n, cutoff) then []
    else
      [Edge(base, myid), Edge(base + 1, myid)]
      + FibEdges(n - 1, cutoff, base, base + 2)
      + FibEdges(n - 2, cutoff, base + 1, base + 2 + FibAdded(n - 1, cutoff))
  }

  /** The recursive step of the generator: each call creates two tasks and links them to its own. */
  method FibonacciAddTasks(n: nat, cutoff: nat, myid: nat, g: IGraph)
    requires myid < g.n
    modifies g
    ensures g.n == old(g.n) + FibAdded(n, cutoff)
    ensures g.edges == old(g.edges) + FibEdges(n, cutoff, myid, old(g.n))
    decreases n
  {
    if FibLeaf(n, cutoff) {
      return;
    }
    var lastid := g.n;
    g.AddVertices(2);
    g.AddEdge(lastid, myid);
    g.AddEdge(lastid + 1, myid);
    ghost var top := [Edge(lastid, myid), Edge(lastid + 1, myid)];
    ghost var e0 := g.edges;
    assert e0 == old(g.edges) + top;
    FibonacciAddTasks(n - 1, cutoff, lastid, g);
    ghost var left := FibEdges(n - 1, cutoff, lastid, lastid + 2);
    ghost var e1 := g.edges;
    FibonacciAddTasks(n - 2, cutoff, lastid + 1, g);
    ghost var right := FibEdges(n - 2, cutoff, lastid + 1, lastid + 2 + FibAdded(n - 1, cutoff));
    SplitEdges(old(g.edges), top, left, right);
  }

  lemma SplitEdges(es: seq<Edge>, top: seq<Edge>, left: seq<Edge>, right: seq<Edge>)
    ensures es + top + left + right == es + (top + left + right)
  {
  }

  /** The call appends one edge per vertex it adds. */
  lemma {:induction false} FibEdgesCount(n: nat, cutoff: nat, myid: nat, base: nat)
    ensures |FibEdges(n, cutoff, myid, base)| == FibAdded(n, cutoff)
    decreases n
  {
    if !FibLeaf(n, cutoff) {
      FibEdgesCount(n - 1, cutoff, base, base + 2);
      FibEdgesCount(n - 2, cutoff, base + 1, base + 2 + FibAdded(n - 1, cutoff));
    }
  }

  /** Every appended edge leaves a vertex the call added and enters a smaller id: `myid` or
      another added vertex. */
  lemma {:induction false} FibEdgesRange(n: nat, cutoff: nat, myid: nat, base: nat)
    requires myid < base
    ensures forall e | e in FibEdges(n, cutoff, myid, base) ::
      base <= e.src < base + FibAdded(n, cutoff) && e.dst < e.src && (e.dst == myid || base <= e.dst)
    decreases n
  {
    if !FibLeaf(n, cutoff) {
      FibEdgesRange(n - 1, cutoff, base, base + 2);
      FibEdgesRange(n - 2, cutoff, base + 1, base + 2 + FibAdded(n - 1, cutoff));
    }
  }

  /** Each vertex the call adds has exactly one outgoing edge, to the task that spawned it; no
      other vertex gets one. */
  lemma {:induction false} FibEdgesOutDegree(n: nat, cutoff: nat, myid: nat, base: nat, v: nat)
    ensures OutDegree(FibEdges(n, cutoff, myid, base), v) ==
      (if base <= v < base + FibAdded(n, cutoff) then 1 else 0)
    decreases n
  {
    if !FibLeaf(n, cutoff) {
      var a := FibAdded(n - 1, cutoff);
      var top := [Edge(base, myid), Edge(base + 1, myid)];
      var left := FibEdges(n - 1, cutoff, base, base + 2);
      var right := FibEdges(n - 2, cutoff, base + 1, base + 2 + a);
      var b := FibAdded(n - 2, cutoff);
      assert FibEdges(n, cutoff, myid, base) == top + left + right;
      assert FibAdded(n, cutoff) == 2 + a + b;
      assert OutDegree(left, v) == (if base + 2 <= v < base + 2 + a then 1 else 0) by {
        FibEdgesOutDegree(n - 1, cutoff, base, base + 2, v);
      }
      assert OutDegree(right, v) == (if base + 2 + a <= v < base + 2 + a + b then 1 else 0) by {
        FibEdgesOutDegree(n - 2, cutoff, base + 1, base + 2 + a, v);
      }
      OutDegreeAppend(top + left, right, v);
      OutDegreeAppend(top, left, v);
      OutDegreeTwo(Edge(base, myid), Edge(base + 1, myid), v);
    }
  }

  lemma OutDegreeTwo(a: Edge, b: Edge, v: nat)
    ensures OutDegree([a, b], v) == (if a.src == v then 1 else 0) + (if b.src == v then 1 else 0)
  {
    assert [a, b][1..] == [b];
    assert [a, b][1..][1..] == [];
  }

  /** `ggen_generate_fibonacci(n, cutoff)`: `GGEN_EINVAL` and no graph when `cutoff > n`,
      otherwise the task tree of `fibo(n)` grown from the single root task 0. */
  method GenerateFibonacci(n: nat, cutoff: nat) returns (g: IGraph?, err: ErrorCode)
    ensures cutoff > n <==> g == null
    ensures cutoff > n ==> err == EInval
    ensures g != null ==>
      err == Success && fresh(g) && g.n == 1 + FibAdded(n, cutoff) && g.edges == FibEdges(n, cutoff, 0, 1)
  {
    if cutoff > n {
      return null, EInval;
    }
    g := new IGraph(1);
    FibonacciAddTasks(n, cutoff, 0, g);
    err := Success;
  }

  /** The Fibonacci graph is a tree rooted at task 0: |E| = |V| - 1, every other task has exactly
      one outgoing edge (to the task that spawned it) and edges go from higher to lower ids. */
  lemma FibonacciIsTree(n: nat, cutoff: nat)
    ensures var es := FibEdges(n, cutoff, 0, 1);
      && |es| == FibAdded(n, cutoff)
      && Backward(es) && WellFormed(Digraph(1 + FibAdded(n, cutoff), es))
      && OutDegree(es, 0) == 0
      && forall v | 0 < v < 1 + FibAdded(n, cutoff) :: OutDegree(es, v) == 1
  {
    FibEdgesCount(n, cutoff, 0, 1);
    FibEdgesRange(n, cutoff, 0, 1);
    forall v | 0 <= v < 1 + FibAdded(n, cutoff) ensures OutDegree(FibEdges(n, cutoff, 0, 1), v) == (if v == 0 then 0 else 1) {
      FibEdgesOutDegree(n, cutoff, 0, 1, v);
    }
  }

  // ---------------------------------------------------------------------------------------------
  // Fork-join.
  // ---------------------------------------------------------------------------------------------

  /** The first `i` forks of a phase: `source -> source+j` and `source+j -> sink` for j = 1 .. i. */
  function ForkEdges(source: nat, sink: nat, i: nat): seq<Edge> {
    if i == 0 then [] else ForkEdges(source, sink, i - 1) + [Edge(source, source + i), Edge(source + i, sink)]
  }

  /** The source of phase `k`, which is the join of phase `k - 1`: `k (diameter + 1)`. */
  function PhaseSource(k: nat, diameter: nat): nat {
    if k == 0 then 0 else PhaseSource(k - 1, diameter) + diameter + 1
  }

  lemma {:induction false} PhaseSourceIsProduct(k: nat, diameter: nat)
    ensures PhaseSource(k, diameter) == k * (diameter + 1)
  {
    if k > 0 {
      PhaseSourceIsProduct(k - 1, diameter);
      assert k * (diameter + 1) == (k - 1) * (diameter + 1) + diameter + 1;
    }
  }

  /** The edges of the first `p` phases, in the order the generator adds them. */
  function ForkJoinEdges(p: nat, diameter: nat): seq<Edge> {
    if p == 0 then []
    else ForkJoinEdges(p - 1, diameter) + ForkEdges(PhaseSource(p - 1, diameter), PhaseSource(p, diameter), diameter)
  }

  lemma ForkJoinEdgesStep(k: nat, diameter: nat)
    ensures ForkJoinEdges(k + 1, diameter) ==
      ForkJoinEdges(k, diameter) + ForkEdges(PhaseSource(k, diameter), PhaseSource(k, diameter) + diameter + 1, diameter)
  {
  }

  /** Phase sources increase with the phase. */
  lemma {:induction false} PhaseSourceMono(k: nat, p: nat, diameter: nat)
    requires k <= p
    ensures PhaseSource(k, diameter) <= PhaseSource(p, diameter)
    decreases p
  {
    if k < p {
      PhaseSourceMono(k, p - 1, diameter);
    }
  }

  /** `ggen_generate_forkjoin(phases, diameter)`: one source, then per phase `diameter` forks and
      a join, the join of a phase being the source of the next. */
  method GenerateForkJoin(phases: nat, diameter: nat) returns (g: IGraph)
    ensures fresh(g)
    ensures g.n == 1 + (diameter + 1) * phases
    ensures g.edges == ForkJoinEdges(phases, diameter)
  {
    var numvertices := 1 + (diameter + 1) * phases;
    PhaseSourceIsProduct(phases, diameter);
    g := new IGraph(numvertices);
    var edges := new nat[4 * diameter];
    var source := 0;
    ghost var k := 0;
    while source < numvertices - 1
      invariant k <= phases && source == PhaseSource(k, diameter)
      invariant g.n == numvertices && g.edges == ForkJoinEdges(k, diameter)
      decreases numvertices - 1 - source
    {
      PhaseSourceMono(k + 1, phases, diameter);
      var sink := source + diameter + 1;
      AddPhase(g, edges, source, sink, diameter);
      ForkJoinEdgesStep(k, diameter);
      source := source + diameter + 1;
      k := k + 1;
    }
    assert k == phases by {
      if k < phases {
        PhaseSourceMono(k + 1, phases, diameter);
      }
    }
  }

  /** One iteration of the phase loop: fill the edge vector, then add its edges to the graph. */
  method AddPhase(g: IGraph, edges: array<nat>, source: nat, sink: nat, diameter: nat)
    requires edges.Length == 4 * diameter && source + diameter < sink < g.n
    modifies g, edges
    ensures g.n == old(g.n) && g.edges == old(g.edges) + ForkEdges(source, sink, diameter)
  {
    FillPhase(edges, source, sink, diameter);
    ForkEdgesFacts(source, sink, diameter);
    g.AddEdges(Pairs(edges[..]));
  }

  /** The inner loop: the edge vector of one phase. */
  method FillPhase(edges: array<nat>, source: nat, sink: nat, diameter: nat)
    requires edges.Length == 4 * diameter
    modifies edges
    ensures Pairs(edges[..]) == ForkEdges(source, sink, diameter)
  {
    for i := 0 to diameter
      invariant Pairs(edges[..4 * i]) == ForkEdges(source, sink, i)
    {
      PutFork(edges, i, source, sink);
    }
    assert edges[..] == edges[..4 * diameter];
  }

  /** One step of that loop: the four cells of fork i hold its two edges. */
  method PutFork(edges: array<nat>, i: nat, source: nat, sink: nat)
    requires 4 * i + 3 < edges.Length
    modifies edges
    ensures Pairs(edges[..4 * (i + 1)])
         == Pairs(old(edges[..4 * i])) + [Edge(source, source + i + 1), Edge(source + i + 1, sink)]
  {
    var b := 4 * i;
    ghost var pre := edges[..b];
    edges[b] := source;
    edges[b + 1] := source + i + 1;
    edges[b + 2] := source + i + 1;
    edges[b + 3] := sink;
    ForkCells(pre, i, edges[..b + 4], source, source + i + 1, sink);
  }

  /** The cells of one fork, after the cells of k forks, add its two edges. */
  lemma ForkCells(pre: seq<nat>, k: nat, cells: seq<nat>, source: nat, v: nat, sink: nat)
    requires |pre| == 4 * k && cells == pre + [source, v, v, sink]
    ensures Pairs(cells) == Pairs(pre) + [Edge(source, v), Edge(v, sink)]
  {
    var mid := pre + [source, v];
    assert |pre| % 2 == 0 by {
      assert |pre| == 2 * (2 * k);
    }
    PairsSnoc(pre, source, v);
    assert |mid| % 2 == 0 by {
      assert |mid| == 2 * (2 * k + 1);
    }
    assert cells == mid + [v, sink];
    PairsSnoc(mid, v, sink);
  }

  /** One phase: `2 i` edges, each going up, between `source` and `sink`. */
  lemma {:induction false} ForkEdgesFacts(source: nat, sink: nat, i: nat)
    requires source + i < sink
    ensures |ForkEdges(source, sink, i)| == 2 * i
    ensures forall e | e in ForkEdges(source, sink, i) :: source <= e.src < e.dst <= sink
  {
    if i > 0 {
      ForkEdgesFacts(source, sink, i - 1);
    }
  }

  /** Both edges of every fork of the phase are present. */
  lemma {:induction false} ForkEdgesForks(source: nat, sink: nat, i: nat)
    ensures forall v | source < v <= source + i ::
      Edge(source, v) in ForkEdges(source, sink, i) && Edge(v, sink) in ForkEdges(source, sink, i)
  {
    if i > 0 {
      ForkEdgesForks(source, sink, i - 1);
    }
  }

  /** The fork-join graph has `2 diameter phases` edges. */
  lemma {:induction false} ForkJoinCount(p: nat, diameter: nat)
    ensures |ForkJoinEdges(p, diameter)| == 2 * diameter * p
  {
    if p > 0 {
      ForkJoinCount(p - 1, diameter);
      ForkEdgesFacts(PhaseSource(p - 1, diameter), PhaseSource(p, diameter), diameter);
      assert 2 * diameter * p == 2 * diameter * (p - 1) + 2 * diameter;
    }
  }

  /** Every edge goes from a lower to a higher id, and no id exceeds the last join. */
  lemma {:induction false} ForkJoinRange(p: nat, diameter: nat)
    ensures Forward(ForkJoinEdges(p, diameter))
    ensures forall e | e in ForkJoinEdges(p, diameter) :: e.dst <= PhaseSource(p, diameter)
  {
    if p > 0 {
      ForkJoinRange(p - 1, diameter);
      ForkEdgesFacts(PhaseSource(p - 1, diameter), PhaseSource(p, diameter), diameter);
      assert PhaseSource(p - 1, diameter) <= PhaseSource(p, diameter);
    }
  }

  /** In phase `k`, fork `j` has an edge from the phase's source and an edge to its join. */
  lemma {:induction false} ForkJoinFork(p: nat, diameter: nat, k: nat, j: nat)
    requires k < p && 1 <= j <= diameter
    ensures Edge(PhaseSource(k, diameter), PhaseSource(k, diameter) + j) in ForkJoinEdges(p, diameter)
    ensures Edge(PhaseSource(k, diameter) + j, PhaseSource(k + 1, diameter)) in ForkJoinEdges(p, diameter)
  {
    if k == p - 1 {
      ForkEdgesForks(PhaseSource(k, diameter), PhaseSource(p, diameter), diameter);
    } else {
      ForkJoinFork(p - 1, diameter, k, j);
    }
  }

  /** The generated graph is well formed and acyclic. */
  lemma ForkJoinWellFormed(p: nat, diameter: nat)
    ensures WellFormed(Digraph(1 + (diameter + 1) * p, ForkJoinEdges(p, diameter)))
    ensures Forward(ForkJoinEdges(p, diameter))
  {
    ForkJoinRange(p, diameter);
    PhaseSourceIsProduct(p, diameter);
  }
}
