/** The longest path of src/graph-analysis.c: relax the vertices in topological order, then
    follow the predecessor links back from the vertex with the largest length. */
module GraphAnalysis {
  import opened Common

  /** What `igraph_topological_sorting` promises of its output: distinct vertex ids, and an
      edge between two listed vertices always goes to the later one. */
  ghost predicate TopoOrder(n: nat, es: seq<Edge>, topo: seq<nat>) {
    Distinct(topo)
    && (forall k | 0 <= k < |topo| :: topo[k] < n)
    && forall a, b | 0 <= a < |topo| && 0 <= b < |topo| && Edge(topo[a], topo[b]) in es :: a < b
  }

  /** A complete topological order lists every vertex. */
  lemma Permutation(n: nat, es: seq<Edge>, topo: seq<nat>)
    requires TopoOrder(n, es, topo) && |topo| == n
    ensures forall v: nat | v < n :: v in topo
  {
    CoversAll(topo, n);
  }

  /** Every edge leaving a processed vertex ends at a vertex at least one longer. */
  ghost predicate Relaxed(es: seq<Edge>, lengths: seq<nat>, done: seq<nat>) {
    forall e | e in es && e.src in done :: e.src < |lengths| && e.dst < |lengths|
      && lengths[e.src] + 1 <= lengths[e.dst]
  }

  /** `preds[t]` is −1 with length 0, or a processed vertex with an edge into t whose length
      is one less. */
  ghost predicate Linked(es: seq<Edge>, lengths: seq<nat>, preds: seq<int>, done: seq<nat>) {
    |preds| == |lengths|
    && forall t | 0 <= t < |lengths| ::
      (preds[t] == -1 ==> lengths[t] == 0)
      && (preds[t] != -1 ==>
            (0 <= preds[t] < |lengths| && preds[t] as nat in done
             && Edge(preds[t] as nat, t) in es && lengths[t] == lengths[preds[t]] + 1))
  }

  /** `maxv` is −1 while every length is 0, and otherwise a vertex of maximal, positive length. */
  ghost predicate Maximal(lengths: seq<nat>, maxv: int) {
    (maxv == -1 ==> forall t | 0 <= t < |lengths| :: lengths[t] == 0)
    && (maxv != -1 ==>
          (0 <= maxv < |lengths| && 1 <= lengths[maxv]
           && forall t | 0 <= t < |lengths| :: lengths[t] <= lengths[maxv]))
  }

  /** An edge out of the i-th vertex of a complete order ends at a vertex after it. */
  lemma Later(n: nat, es: seq<Edge>, topo: seq<nat>, i: nat, t: nat)
    requires TopoOrder(n, es, topo) && |topo| == n && i < n && t < n && Edge(topo[i], t) in es
    ensures t in topo && t !in topo[..i + 1] && IndexOf(topo, t) > i
  {
    Permutation(n, es, topo);
    var b := IndexOf(topo, t);
    assert Edge(topo[i], topo[b]) in es;
    forall a | 0 <= a <= i
      ensures topo[a] != t
    {
      assert a != b;
    }
  }

  /** Relaxing the edge f→t for an unprocessed t keeps the predecessor links. */
  lemma LinkedUpdate(es: seq<Edge>, lengths: seq<nat>, preds: seq<int>, done: seq<nat>, f: nat, t: nat)
    requires Linked(es, lengths, preds, done) && f < |lengths| && t < |lengths|
    requires f in done && t !in done && Edge(f, t) in es
    ensures Linked(es, lengths[t := lengths[f] + 1], preds[t := f], done)
  {
  }

  /** The `maxv` test after an edge into t sets its length to x. */
  lemma MaximalUpdate(lengths: seq<nat>, maxv: int, t: nat, x: nat)
    requires Maximal(lengths, maxv) && t < |lengths| && 1 <= x && lengths[t] <= x
    ensures Maximal(lengths[t := x], if maxv == -1 || x > lengths[t := x][maxv] then t else maxv)
  {
  }

  /** One pass of the inner loop: relax the edge f→t, where f is the vertex being processed
      and t is not processed yet, and update `maxv`. Only t's length and predecessor change,
      and t ends at least one longer than f. */
  method RelaxEdge(es: seq<Edge>, ghost done: seq<nat>, f: nat, t: nat, lengths: array<nat>,
                   preds: array<int>, maxv0: int) returns (maxv: int)
    requires lengths.Length == preds.Length && f < lengths.Length && t < lengths.Length
    requires f in done && t !in done && Edge(f, t) in es
    requires Linked(es, lengths[..], preds[..], done) && Maximal(lengths[..], maxv0)
    modifies lengths, preds
    ensures Linked(es, lengths[..], preds[..], done) && Maximal(lengths[..], maxv)
    ensures lengths[..] == old(lengths[..])[t := lengths[t]]
    ensures old(lengths[t]) <= lengths[t] && old(lengths[f]) + 1 <= lengths[t]
  {
    ghost var lengths0, preds0 := lengths[..], preds[..];
    if lengths[t] < lengths[f] + 1 {
      lengths[t] := lengths[f] + 1;
      preds[t] := f;
      assert lengths[..] == lengths0[t := lengths0[f] + 1];
      assert preds[..] == preds0[t := f];
      LinkedUpdate(es, lengths0, preds0, done, f, t);
    }
    MaximalUpdate(lengths0, maxv0, t, lengths[t]);
    assert lengths[..] == lengths0[t := lengths[t]];
    maxv := maxv0;
    if maxv == -1 || lengths[t] > lengths[maxv] {
      maxv := t;
    }
  }

  /** Lengths only grow, and the processed ones stay as they were. */
  ghost predicate Grown(before: seq<nat>, lengths: seq<nat>, done: seq<nat>) {
    |before| == |lengths|
    && (forall x | 0 <= x < |lengths| :: before[x] <= lengths[x])
    && forall x | x in done :: x < |lengths| && lengths[x] == before[x]
  }

  /** The first j out-neighbours of f are at least one longer than f. */
  ghost predicate Covered(lengths: seq<nat>, f: nat, ns: seq<nat>, j: nat) {
    f < |lengths| && j <= |ns|
    && forall k | 0 <= k < j :: ns[k] < |lengths| && lengths[f] + 1 <= lengths[ns[k]]
  }

  lemma InnerStep(before: seq<nat>, lengths: seq<nat>, done: seq<nat>, f: nat, ns: seq<nat>, j: nat,
                  x: nat)
    requires Grown(before, lengths, done) && Covered(lengths, f, ns, j) && j < |ns|
    requires f in done && ns[j] < |lengths| && ns[j] !in done
    requires lengths[ns[j]] <= x && lengths[f] + 1 <= x
    ensures Grown(before, lengths[ns[j] := x], done) && Covered(lengths[ns[j] := x], f, ns, j + 1)
  {
  }

  /** Edges out of vertices processed earlier stay relaxed while lengths grow. */
  lemma RelaxedGrown(es: seq<Edge>, before: seq<nat>, lengths: seq<nat>, old_done: seq<nat>,
                     done: seq<nat>)
    requires Relaxed(es, before, old_done) && Grown(before, lengths, done)
    requires forall x | x in old_done :: x in done
    ensures Relaxed(es, lengths, old_done)
  {
  }

  /** Once every out-neighbour of f is covered, f joins the relaxed vertices. */
  lemma CoveredRelaxed(es: seq<Edge>, lengths: seq<nat>, done: seq<nat>, f: nat, ns: seq<nat>)
    requires forall e | e in es :: e.src < |lengths| && e.dst < |lengths|
    requires Relaxed(es, lengths, done) && Covered(lengths, f, ns, |ns|)
    requires forall w :: w in ns <==> Edge(f, w) in es
    ensures Relaxed(es, lengths, done + [f])
  {
    forall e | e in es && e.src == f
      ensures lengths[e.src] + 1 <= lengths[e.dst]
    {
      assert e.dst in ns;
    }
  }

  /** The inner loop: relax every out-edge of `f = topo[i]` and keep `maxv` on a longest vertex. */
  method RelaxFrom(es: seq<Edge>, topo: seq<nat>, i: nat, lengths: array<nat>, preds: array<int>,
                   maxv0: int) returns (maxv: int)
    requires |topo| == lengths.Length == preds.Length && i < |topo|
    requires forall e | e in es :: e.src < |topo| && e.dst < |topo|
    requires TopoOrder(|topo|, es, topo)
    requires Relaxed(es, lengths[..], topo[..i]) && Linked(es, lengths[..], preds[..], topo[..i])
    requires Maximal(lengths[..], maxv0)
    modifies lengths, preds
    ensures Relaxed(es, lengths[..], topo[..i + 1]) && Linked(es, lengths[..], preds[..], topo[..i + 1])
    ensures Maximal(lengths[..], maxv)
  {
    ghost var n := |topo|;
    ghost var done := topo[..i + 1];
    ghost var before := lengths[..];
    assert done == topo[..i] + [topo[i]];
    var f := topo[i];
    var ns := IgraphOutNeighbors(es, f);
    maxv := maxv0;
    assert forall k | 0 <= k < |ns| :: ns[k] in ns;
    for j := 0 to |ns|
      invariant forall k | 0 <= k < |ns| :: ns[k] < n && Edge(f, ns[k]) in es
      invariant Grown(before, lengths[..], done) && Covered(lengths[..], f, ns, j)
      invariant Linked(es, lengths[..], preds[..], done)
      invariant Maximal(lengths[..], maxv)
    {
      Later(n, es, topo, i, ns[j]);
      ghost var lengths0 := lengths[..];
      maxv := RelaxEdge(es, done, f, ns[j], lengths, preds, maxv);
      InnerStep(before, lengths0, done, f, ns, j, lengths[ns[j]]);
    }
    RelaxedGrown(es, before, lengths[..], topo[..i], done);
    CoveredRelaxed(es, lengths[..], topo[..i], f, ns);
  }

  /** `igraph_vector_reverse`. */
  function Reverse(s: seq<nat>): (r: seq<nat>)
    ensures |r| == |s|
  {
    if s == [] then [] else [s[|s| - 1]] + Reverse(s[..|s| - 1])
  }

  /** A relaxed length bounds the edge count of every path ending at that vertex. */
  lemma {:induction false} PathBound(g: Digraph, lengths: seq<nat>, topo: seq<nat>, p: seq<nat>)
    requires |lengths| == g.n && Relaxed(g.edges, lengths, topo)
    requires forall v: nat | v < g.n :: v in topo
    requires IsPath(g, p) && |p| >= 1
    ensures |p| - 1 <= lengths[p[|p| - 1]]
  {
    if |p| > 1 {
      var init := p[..|p| - 1];
      PathBound(g, lengths, topo, init);
      assert Edge(p[|p| - 2], p[|p| - 1]) in g.edges;
    }
  }

  /** What the C function promises for a DAG: no path when there is no edge, and otherwise a
      path of the graph that no path of the graph is longer than. */
  ghost predicate Longest(g: Digraph, r: seq<nat>) {
    (g.edges == [] ==> r == [])
    && (g.edges != [] ==> 2 <= |r| && IsPath(g, r) && forall p | IsPath(g, p) :: |p| <= |r|)
  }

  lemma PathCons(g: Digraph, x: nat, p: seq<nat>)
    requires IsPath(g, p) && p != [] && x < g.n && Edge(x, p[0]) in g.edges
    ensures IsPath(g, [x] + p)
  {
    assert forall k | 0 < k < |p| + 1 :: ([x] + p)[k] == p[k - 1];
  }

  /** The vertices stored so far by the last loop, in walk order reversed: a path of the
      graph ending at `maxv0`, whose first vertex links back to `maxv`. */
  ghost predicate Trail(g: Digraph, ls: seq<nat>, ps: seq<int>, built: seq<nat>, maxv: int, maxv0: int) {
    (built == [] ==> maxv == maxv0)
    && (built != [] ==>
          (IsPath(g, built) && built[|built| - 1] == maxv0 && built[0] < |ls| && built[0] < |ps|
           && 0 <= maxv0 < |ls| && |built| - 1 + ls[built[0]] == ls[maxv0] && maxv == ps[built[0]]))
  }

  /** Storing the current vertex x extends the trail to its predecessor, which comes earlier
      in the order. */
  lemma TrailStep(g: Digraph, topo: seq<nat>, ls: seq<nat>, ps: seq<int>, built: seq<nat>, x: nat,
                  maxv0: int)
    requires |topo| == g.n == |ls| && WellFormed(g) && TopoOrder(g.n, g.edges, topo)
    requires Linked(g.edges, ls, ps, topo) && x < g.n && (built == [] ==> 0 <= maxv0 < g.n)
    requires Trail(g, ls, ps, built, x, maxv0)
    ensures Trail(g, ls, ps, [x] + built, ps[x], maxv0)
    ensures ps[x] != -1 ==>
              (0 <= ps[x] < g.n && x in topo && ps[x] as nat in topo
               && IndexOf(topo, ps[x] as nat) < IndexOf(topo, x))
  {
    if built != [] {
      PathCons(g, x, built);
    } else {
      assert IsPath(g, [x]);
    }
    if ps[x] != -1 {
      InOrder(g.n, g.edges, topo, ps[x] as nat);
      Later(g.n, g.edges, topo, IndexOf(topo, ps[x] as nat), x);
    }
  }

  /** A complete order lists x. */
  lemma InOrder(n: nat, es: seq<Edge>, topo: seq<nat>, x: nat)
    requires TopoOrder(n, es, topo) && |topo| == n && x < n
    ensures x in topo
  {
    Permutation(n, es, topo);
  }

  /** `VECTOR(out)[f] = x`. */
  method Store(out: array<nat>, f: nat, x: nat)
    requires f < out.Length
    modifies out
    ensures out[..f + 1] == old(out[..f]) + [x]
  {
    out[f] := x;
    assert out[..f + 1] == out[..f] + [x];
  }

  lemma ReverseSnoc(s: seq<nat>, x: nat)
    ensures Reverse(s + [x]) == [x] + Reverse(s)
  {
    assert (s + [x])[..|s|] == s;
  }

  /** The last loop and the final reverse: walk `preds` back from `maxv`, storing each vertex,
      then reverse. The result is a path of the graph with `lengths[maxv]` edges ending at
      `maxv`, or empty when `maxv` is −1. */
  method Backtrack(g: Digraph, topo: seq<nat>, lengths: array<nat>, preds: array<int>, maxv0: int)
    returns (path: seq<nat>)
    requires |topo| == g.n == lengths.Length && WellFormed(g) && TopoOrder(g.n, g.edges, topo)
    requires Linked(g.edges, lengths[..], preds[..], topo) && (maxv0 == -1 || 0 <= maxv0 < g.n)
    ensures maxv0 == -1 ==> path == []
    ensures maxv0 != -1 ==> IsPath(g, path) && |path| == lengths[maxv0] + 1 && path[|path| - 1] == maxv0
  {
    var v := g.n;
    var out := new nat[v];
    var f := 0;
    var maxv := maxv0;
    ghost var built: seq<nat> := [];
    ghost var ls, ps := lengths[..], preds[..];
    if maxv != -1 {
      InOrder(g.n, g.edges, topo, maxv);
    }
    while maxv != -1
      invariant 0 <= f <= v && Reverse(out[..f]) == built && |built| == f
      invariant maxv == -1 || (0 <= maxv < v && maxv in topo)
      invariant maxv != -1 ==> f + IndexOf(topo, maxv) + 1 <= v
      invariant Trail(g, ls, ps, built, maxv, maxv0)
      decreases if maxv == -1 then 0 else IndexOf(topo, maxv) + 1
    {
      ghost var x: nat := maxv;
      Store(out, f, maxv);
      ReverseSnoc(out[..f], maxv);
      f := f + 1;
      TrailStep(g, topo, ls, ps, built, x, maxv0);
      built := [x] + built;
      maxv := preds[maxv];
    }
    path := Reverse(out[..f]);
  }

  /** `ggen_analyze_longest_path(g)`, given the order `igraph_topological_sorting` returns. NULL
      for a NULL graph and for an order that misses a vertex (the graph has a cycle). */
  method LongestPath(g: IGraph?, topo: seq<nat>) returns (res: Option<seq<nat>>)
    requires g != null ==> WellFormed(g.Value()) && TopoOrder(g.n, g.edges, topo)
    ensures g == null ==> res == None
    ensures g != null && |topo| != g.n ==> res == None
    ensures g != null && |topo| == g.n ==> res.Some? && Longest(g.Value(), res.value)
  {
    if g == null {
      return None;
    }
    var v := g.n;
    if |topo| != v {
      return None;
    }
    var lengths := new nat[v](_ => 0);
    var preds := new int[v](_ => -1);
    var maxv := -1;
    for i := 0 to v
      invariant Relaxed(g.edges, lengths[..], topo[..i])
      invariant Linked(g.edges, lengths[..], preds[..], topo[..i])
      invariant Maximal(lengths[..], maxv)
    {
      maxv := RelaxFrom(g.edges, topo, i, lengths, preds, maxv);
    }
    assert topo[..v] == topo;
    var path := Backtrack(g.Value(), topo, lengths, preds, maxv);
    res := Some(path);
    LongestFromRelaxed(g.Value(), topo, lengths[..], preds[..], maxv, path);
  }

  /** Once every vertex is relaxed, the walk back from `maxv` is a longest path. */
  lemma LongestFromRelaxed(g: Digraph, topo: seq<nat>, lengths: seq<nat>, preds: seq<int>, maxv: int,
                           path: seq<nat>)
    requires |topo| == g.n == |lengths| && WellFormed(g) && TopoOrder(g.n, g.edges, topo)
    requires Relaxed(g.edges, lengths, topo) && Linked(g.edges, lengths, preds, topo)
    requires Maximal(lengths, maxv)
    requires maxv == -1 ==> path == []
    requires maxv != -1 ==> IsPath(g, path) && |path| == lengths[maxv] + 1
    ensures Longest(g, path)
  {
    Permutation(g.n, g.edges, topo);
    if g.edges != [] {
      var e := g.edges[0];
      assert e in g.edges && e.src < g.n && e.src in topo;
      forall p | IsPath(g, p)
        ensures |p| <= |path|
      {
        if |p| >= 1 {
          PathBound(g, lengths, topo, p);
        }
      }
    }
  }

  /** Along a path over edges that all go up, ids rise by at least one per step. */
  lemma {:induction false} RisingPath(g: Digraph, p: seq<nat>)
    requires Forward(g.edges) && IsPath(g, p) && |p| >= 1
    ensures p[0] + |p| - 1 <= p[|p| - 1]
  {
    if |p| > 1 {
      RisingPath(g, p[..|p| - 1]);
      assert Edge(p[|p| - 2], p[|p| - 1]) in g.edges;
    }
  }

  /** Along a path over edges that all go down, ids fall by at least one per step. */
  lemma {:induction false} FallingPath(g: Digraph, p: seq<nat>)
    requires Backward(g.edges) && IsPath(g, p) && |p| >= 1
    ensures p[|p| - 1] + |p| - 1 <= p[0]
  {
    if |p| > 1 {
      FallingPath(g, p[..|p| - 1]);
      assert Edge(p[|p| - 2], p[|p| - 1]) in g.edges;
    }
  }

  /** The complete citation DAG on 10 vertices has a longest path through all 10 vertices. */
  lemma CitationExample(r: seq<nat>)
    requires Longest(Digraph(10, Citation(10)), r)
    ensures |r| == 10
  {
    var g := Digraph(10, Citation(10));
    CitationEdges(10);
    assert Edge(1, 0) in g.edges;
    var down := seq(10, k requires 0 <= k < 10 => 9 - k);
    assert forall k | 0 <= k < 9 :: Edge(down[k], down[k + 1]) in g.edges;
    assert IsPath(g, down);
    assert Backward(g.edges);
    FallingPath(g, r);
  }

  /** On 10 vertices with 0→1, 1→2 and 0→2, the longest path has 3 vertices. */
  lemma SmallExample(r: seq<nat>)
    requires Longest(Digraph(10, [Edge(0, 1), Edge(1, 2), Edge(0, 2)]), r)
    ensures |r| == 3
  {
    var g := Digraph(10, [Edge(0, 1), Edge(1, 2), Edge(0, 2)]);
    assert IsPath(g, [0, 1, 2]);
    RisingPath(g, r);
    assert Edge(r[|r| - 2], r[|r| - 1]) in g.edges;
  }
}
