/** The Hopcroft-Karp matching of src/bipartite-matching.c. The graph is assumed balanced: its
    first n/2 vertices form the left side, the others the right side, and every edge joins the
    two sides. `pair` and `layer` have n+1 entries; index n is the NIL vertex and the value n
    means "unmatched" in `pair` and "unreached" in `layer`. */
module BipartiteMatching {
  import opened Common
  import VectorUtils

  predicate Left(n: nat, v: nat) {
    v < n / 2
  }

  /** Every edge joins the first half of the vertices to the second half. */
  ghost predicate Halves(g: Digraph) {
    WellFormed(g) && forall e | e in g.edges :: Left(g.n, e.src) != Left(g.n, e.dst)
  }

  ghost predicate Adjacent(es: seq<Edge>, a: nat, b: nat) {
    Edge(a, b) in es || Edge(b, a) in es
  }

  /** Vertex v is matched to a partner on the other side, joined to it by an edge, that is
      matched back to v. */
  ghost predicate Partnered(n: nat, es: seq<Edge>, p: seq<nat>, v: nat)
    requires |p| == n + 1 && v < n
  {
    p[v] < n && p[p[v]] == v && Left(n, v) != Left(n, p[v]) && Adjacent(es, v, p[v])
  }

  /** Every matched vertex other than `o` is partnered, and NIL stays unmatched. */
  ghost predicate MutualExcept(n: nat, es: seq<Edge>, p: seq<nat>, o: nat) {
    |p| == n + 1 && p[n] == n
    && forall v: nat | v < n :: p[v] <= n && (v != o && p[v] != n ==> Partnered(n, es, p, v))
  }

  ghost predicate Mutual(n: nat, es: seq<Edge>, p: seq<nat>) {
    MutualExcept(n, es, p, n)
  }

  ghost predicate LayersBounded(n: nat, l: seq<nat>) {
    |l| == n + 1 && forall v: nat | v <= n :: l[v] <= n
  }

  /** A vertex matched before is still matched. */
  ghost predicate StayMatched(n: nat, p0: seq<nat>, p: seq<nat>)
    requires |p0| == n + 1 && |p| == n + 1
  {
    forall v: nat | v < n :: p0[v] != n ==> p[v] != n
  }

  /** Layers only change to n, and only at vertices whose layer was above `li`. */
  ghost predicate LayerGrowth(n: nat, l0: seq<nat>, l: seq<nat>, li: nat)
    requires |l0| == n + 1 && |l| == n + 1
  {
    forall v: nat | v <= n :: l[v] == l0[v] || (l0[v] > li && l[v] == n)
  }

  /** `dfs(i)` changes layers only at vertices whose layer was at least that of i, to n. */
  ghost predicate LayerFrame(n: nat, l0: seq<nat>, l: seq<nat>, li: nat)
    requires |l0| == n + 1 && |l| == n + 1
  {
    forall v: nat | v <= n :: l[v] == l0[v] || (l0[v] >= li && l[v] == n)
  }

  /** `dfs(i)` re-pairs only vertices of i's side at its layer or above, and vertices of the
      other side that were free or paired to such a vertex above it. */
  ghost predicate PairFrame(n: nat, p0: seq<nat>, l0: seq<nat>, p: seq<nat>, i: nat)
    requires |p0| == n + 1 && |l0| == n + 1 && |p| == n + 1 && i <= n
  {
    forall v: nat | v < n && p[v] != p0[v] ::
      (Left(n, v) == Left(n, i) && l0[v] >= l0[i])
      || (Left(n, v) != Left(n, i) && (p0[v] == n || (p0[v] < n && l0[p0[v]] > l0[i])))
  }

  // ---------------------------------------------------------------------------------------
  // Counting the vertices that bfs has reached

  /** Left vertices and NIL with a finite layer. */
  ghost function Reached(n: nat, l: seq<nat>): set<nat>
    requires |l| == n + 1
  {
    set v: nat | v <= n && (v < n / 2 || v == n) && l[v] < n
  }

  /** At most n/2 + 1 vertices can be reached, n/2 when a left vertex or NIL is unreached. */
  lemma ReachedCard(n: nat, l: seq<nat>, w: nat)
    requires |l| == n + 1 && w <= n && (w < n / 2 || w == n) && l[w] == n
    ensures |Reached(n, l)| <= n / 2
  {
    var sides := Range(n / 2) + {n};
    assert n !in Range(n / 2);
    assert |sides| == n / 2 + 1;
    assert w in sides && w !in Reached(n, l);
    SubsetCard(Reached(n, l), sides - {w});
  }

  /** The layers bfs gives, while it runs: layers are bounded by the number of reached
      vertices, and a left vertex has layer 0 exactly when it is free. */
  ghost predicate BfsState(n: nat, p: seq<nat>, l0: seq<nat>, l: seq<nat>)
    requires |p| == n + 1 && |l0| == n + 1
  {
    LayersBounded(n, l)
    && (forall v: nat | v in Reached(n, l) :: l[v] < |Reached(n, l)|)
    && (forall v: nat | n / 2 <= v < n :: l[v] == l0[v])
    && (forall v: nat | v < n / 2 :: l[v] == 0 <==> p[v] == n)
  }

  lemma ReachedAtMost(n: nat, l: seq<nat>)
    requires |l| == n + 1
    ensures |Reached(n, l)| <= n / 2 + 1
  {
    var sides := Range(n / 2) + {n};
    assert n !in Range(n / 2);
    SubsetCard(Reached(n, l), sides);
  }

  /** After the first loop of bfs and `layer[n] = n`, the bfs state holds with the queued
      free left vertices reached. */
  lemma BfsStart(n: nat, p: seq<nat>, l0: seq<nat>, l: seq<nat>, q: seq<nat>)
    requires |p| == n + 1 && |l0| == n + 1 && |l| == n + 1 && LayersBounded(n, l0)
    requires forall v: nat | v < n / 2 :: l[v] == if p[v] == n then 0 else n
    requires forall v: nat | n / 2 <= v < n :: l[v] == l0[v]
    requires l[n] == n
    requires forall k | 0 <= k < |q| :: q[k] < n / 2 && p[q[k]] == n
    ensures BfsState(n, p, l0, l)
    ensures forall k | 0 <= k < |q| :: q[k] in Reached(n, l)
  {
    forall v: nat | v in Reached(n, l)
      ensures l[v] < |Reached(n, l)|
    {
      assert |Reached(n, l)| != 0;
    }
  }

  /** The first loop of bfs: free left vertices get layer 0 and are queued in order, matched
      ones get n. */
  method InitLayers(n: nat, pair: array<nat>, layer: array<nat>) returns (q: seq<nat>)
    requires pair.Length == n + 1 && layer.Length == n + 1 && pair != layer
    modifies layer
    ensures forall v: nat | v < n / 2 :: layer[v] == if pair[v] == n then 0 else n
    ensures forall v: nat | n / 2 <= v <= n :: layer[v] == old(layer[v])
    ensures forall k | 0 <= k < |q| :: q[k] < n / 2 && pair[q[k]] == n
  {
    q := [];
    for i := 0 to n / 2
      invariant forall v: nat | v < i :: layer[v] == if pair[v] == n then 0 else n
      invariant forall v: nat | i <= v <= n :: layer[v] == old(layer[v])
      invariant forall k | 0 <= k < |q| :: q[k] < i && pair[q[k]] == n
    {
      if pair[i] == n {
        layer[i] := 0;
        q := q + [i];
      } else {
        layer[i] := n;
      }
    }
  }

  /** Giving an unreached left vertex or NIL the layer after a reached left vertex i keeps
      the bfs state and reaches exactly one more vertex. */
  lemma BfsStep(n: nat, p: seq<nat>, l0: seq<nat>, l: seq<nat>, i: nat, w: nat)
    requires |p| == n + 1 && |l0| == n + 1 && BfsState(n, p, l0, l)
    requires i < n / 2 && i in Reached(n, l) && w <= n && (w < n / 2 || w == n) && l[w] == n
    ensures BfsState(n, p, l0, l[w := l[i] + 1])
    ensures Reached(n, l[w := l[i] + 1]) == Reached(n, l) + {w} && w !in Reached(n, l)
  {
    ReachedCard(n, l, w);
    var l1 := l[w := l[i] + 1];
    assert l[i] + 1 < n;
    assert Reached(n, l1) == Reached(n, l) + {w};
  }

  /** One neighbour j of the popped left vertex i: the vertex j is matched to (or NIL) gets
      layer[i] + 1 if it was unreached. */
  method Visit(g: Digraph, pair: array<nat>, layer: array<nat>, i: nat, j: nat,
               ghost l0: seq<nat>) returns (w: nat, grown: bool)
    requires Halves(g) && pair != layer && pair.Length == g.n + 1 && |l0| == g.n + 1
    requires Mutual(g.n, g.edges, pair[..]) && Adjacent(g.edges, i, j)
    requires i < g.n / 2 && BfsState(g.n, pair[..], l0, layer[..]) && i in Reached(g.n, layer[..])
    modifies layer
    ensures BfsState(g.n, pair[..], l0, layer[..])
    ensures Reached(g.n, layer[..]) == Reached(g.n, old(layer[..])) + (if grown then {w} else {})
    ensures grown ==> w !in Reached(g.n, old(layer[..]))
  {
    var n := g.n;
    assert j < n && !Left(n, j);
    w := pair[j];
    grown := layer[w] == n;
    if grown {
      assert w < n / 2 || w == n by {
        if w != n {
          assert Partnered(n, g.edges, pair[..], j);
        }
      }
      ghost var before := layer[..];
      BfsStep(n, pair[..], l0, before, i, w);
      layer[w] := layer[i] + 1;
      assert layer[..] == before[w := before[i] + 1];
    }
  }

  /** The inner loop of bfs on a popped left vertex i: for each neighbour, the vertex it is
      matched to (or NIL) gets layer[i] + 1 and is queued if it was unreached. */
  method Explore(g: Digraph, pair: array<nat>, layer: array<nat>, i: nat, ghost l0: seq<nat>)
    returns (pushed: seq<nat>)
    requires Halves(g) && pair != layer && pair.Length == g.n + 1 && |l0| == g.n + 1
    requires Mutual(g.n, g.edges, pair[..])
    requires i < g.n / 2 && BfsState(g.n, pair[..], l0, layer[..]) && i in Reached(g.n, layer[..])
    modifies layer
    ensures BfsState(g.n, pair[..], l0, layer[..])
    ensures Reached(g.n, old(layer[..])) <= Reached(g.n, layer[..])
    ensures |Reached(g.n, layer[..])| == |Reached(g.n, old(layer[..]))| + |pushed|
    ensures forall k | 0 <= k < |pushed| :: pushed[k] in Reached(g.n, layer[..])
  {
    var nbrs := IgraphNeighbors(g.edges, i);
    forall k | 0 <= k < |nbrs|
      ensures Adjacent(g.edges, i, nbrs[k])
    {
      assert nbrs[k] in nbrs;
    }
    pushed := VisitAll(g, pair, layer, i, nbrs, l0);
  }

  /** The loop of `Explore` over the neighbours `nbrs` of i. */
  method VisitAll(g: Digraph, pair: array<nat>, layer: array<nat>, i: nat, nbrs: seq<nat>,
                  ghost l0: seq<nat>) returns (pushed: seq<nat>)
    requires Halves(g) && pair != layer && pair.Length == g.n + 1 && |l0| == g.n + 1
    requires Mutual(g.n, g.edges, pair[..]) && forall k | 0 <= k < |nbrs| :: Adjacent(g.edges, i, nbrs[k])
    requires i < g.n / 2 && BfsState(g.n, pair[..], l0, layer[..]) && i in Reached(g.n, layer[..])
    modifies layer
    ensures BfsState(g.n, pair[..], l0, layer[..])
    ensures Reached(g.n, old(layer[..])) <= Reached(g.n, layer[..])
    ensures |Reached(g.n, layer[..])| == |Reached(g.n, old(layer[..]))| + |pushed|
    ensures forall k | 0 <= k < |pushed| :: pushed[k] in Reached(g.n, layer[..])
  {
    var n := g.n;
    pushed := [];
    ghost var reached := Reached(n, layer[..]);
    for k := 0 to |nbrs|
      invariant BfsState(n, pair[..], l0, layer[..]) && reached == Reached(n, layer[..])
      invariant Reached(n, old(layer[..])) <= reached && i in reached
      invariant |reached| == |Reached(n, old(layer[..]))| + |pushed|
      invariant forall t | 0 <= t < |pushed| :: pushed[t] in reached
    {
      var w, grown := Visit(g, pair, layer, i, nbrs[k], l0);
      if grown {
        reached := reached + {w};
        pushed := pushed + [w];
      }
    }
  }

  /** The queue loop of bfs: pop a vertex; unless it is NIL, explore its neighbours and queue
      the newly reached vertices. */
  method Drain(g: Digraph, pair: array<nat>, layer: array<nat>, q0: seq<nat>, ghost l0: seq<nat>)
    requires Halves(g) && pair != layer && pair.Length == g.n + 1 && |l0| == g.n + 1
    requires Mutual(g.n, g.edges, pair[..]) && BfsState(g.n, pair[..], l0, layer[..])
    requires forall k | 0 <= k < |q0| :: q0[k] in Reached(g.n, layer[..])
    modifies layer
    ensures BfsState(g.n, pair[..], l0, layer[..])
  {
    var n := g.n;
    var q := q0;
    ghost var reached := Reached(n, layer[..]);
    while q != []
      invariant BfsState(n, pair[..], l0, layer[..]) && reached == Reached(n, layer[..])
      invariant forall k | 0 <= k < |q| :: q[k] in reached
      decreases n / 2 + 1 - |reached|, |q|
    {
      ReachedAtMost(n, layer[..]);
      var i := q[0];
      q := q[1..];
      if i != n {
        var pushed := Explore(g, pair, layer, i, l0);
        q := q + pushed;
        reached := Reached(n, layer[..]);
      }
    }
  }

  /** `bfs(g, pair, layer)`: layer the graph from the free left vertices along alternating
      paths; report whether NIL, the end of an augmenting path, was reached. */
  method Bfs(g: Digraph, pair: array<nat>, layer: array<nat>) returns (found: bool)
    requires Halves(g) && pair != layer && pair.Length == g.n + 1 && layer.Length == g.n + 1
    requires Mutual(g.n, g.edges, pair[..]) && LayersBounded(g.n, layer[..])
    modifies layer
    ensures LayersBounded(g.n, layer[..])
    ensures forall v: nat | g.n / 2 <= v < g.n :: layer[v] == old(layer[v])
    ensures forall v: nat | v < g.n / 2 :: layer[v] == 0 <==> pair[v] == g.n
    ensures found <==> layer[g.n] != g.n
  {
    var n := g.n;
    ghost var l0 := layer[..];
    var q := InitLayers(n, pair, layer);
    layer[n] := n;
    BfsStart(n, pair[..], l0, layer[..], q);
    Drain(g, pair, layer, q, l0);
    found := layer[n] != n;
  }

  // ---------------------------------------------------------------------------------------
  // Augmenting along a layered path

  lemma GrowthCompose(n: nat, l0: seq<nat>, lt: seq<nat>, l: seq<nat>, li: nat, lp: nat)
    requires |l0| == n + 1 && |lt| == n + 1 && |l| == n + 1 && lp == li + 1
    requires LayerGrowth(n, l0, lt, li) && LayerFrame(n, lt, l, lp)
    ensures LayerGrowth(n, l0, l, li)
  {
  }

  /** The facts about the pairing before and after dfs on p, the partner of i's neighbour j. */
  ghost predicate Nested(n: nat, es: seq<Edge>, p0: seq<nat>, lt: seq<nat>, ph: seq<nat>, p: nat)
    requires |p0| == n + 1 && |lt| == n + 1 && |ph| == n + 1 && p <= n
  {
    if p < n then
      MutualExcept(n, es, ph, p0[p]) && PairFrame(n, p0, lt, ph, p) && StayMatched(n, p0, ph)
      && ph[p] != p0[p]
    else ph == p0
  }

  ghost predicate StepSetting(g: Digraph, i: nat, j: nat, p0: seq<nat>, l0: seq<nat>,
                              lt: seq<nat>, ph: seq<nat>)
  {
    Halves(g) && i < g.n && j < g.n && Adjacent(g.edges, i, j)
    && |p0| == g.n + 1 && |l0| == g.n + 1 && |lt| == g.n + 1 && |ph| == g.n + 1
    && Mutual(g.n, g.edges, p0) && p0[j] <= g.n
    && LayerGrowth(g.n, l0, lt, l0[i]) && lt[i] == l0[i] && lt[p0[j]] == l0[i] + 1
    && Nested(g.n, g.edges, p0, lt, ph, p0[j])
  }

  /** The sides of i, its neighbour j and j's old partner, and what the nested call left
      alone. */
  lemma StepBasics(g: Digraph, i: nat, j: nat, p0: seq<nat>, l0: seq<nat>, lt: seq<nat>,
                   ph: seq<nat>)
    requires StepSetting(g, i, j, p0, l0, lt, ph)
    ensures Left(g.n, i) != Left(g.n, j)
    ensures p0[j] < g.n ==> Left(g.n, p0[j]) == Left(g.n, i) && p0[p0[j]] == j
    ensures ph[i] == p0[i] && ph[j] == p0[j] && j != p0[i]
  {
    var n := g.n;
    var p := p0[j];
    if Edge(i, j) in g.edges {
      assert Left(n, i) != Left(n, j);
    } else {
      assert Edge(j, i) in g.edges;
    }
    if p < n {
      assert Partnered(n, g.edges, p0, j);
    }
    if p0[i] != n {
      assert Partnered(n, g.edges, p0, i);
    }
  }

  /** Re-pairing i with j after the nested call keeps every vertex but i's old partner
      partnered. */
  lemma StepMutual(g: Digraph, i: nat, j: nat, p0: seq<nat>, l0: seq<nat>, lt: seq<nat>,
                   ph: seq<nat>)
    requires StepSetting(g, i, j, p0, l0, lt, ph)
    ensures MutualExcept(g.n, g.edges, ph[j := i][i := j], p0[i])
  {
    var n := g.n;
    var p := p0[j];
    var o := p0[i];
    var q: seq<nat> := ph[j := i][i := j];
    StepBasics(g, i, j, p0, l0, lt, ph);
    forall v: nat | v < n
      ensures q[v] <= n && (v != o && q[v] != n ==> Partnered(n, g.edges, q, v))
    {
      if v != i && v != j {
        if p < n {
          assert MutualExcept(n, g.edges, ph, j);
          if v != o && q[v] != n {
            assert Partnered(n, g.edges, ph, v);
          }
        } else {
          if v != o && q[v] != n {
            assert Partnered(n, g.edges, p0, v);
          }
        }
      }
    }
  }

  /** Re-pairing i with j after the nested call stays inside dfs(i)'s frame and keeps matched
      vertices matched. */
  lemma StepFrame(g: Digraph, i: nat, j: nat, p0: seq<nat>, l0: seq<nat>, lt: seq<nat>,
                  ph: seq<nat>)
    requires StepSetting(g, i, j, p0, l0, lt, ph)
    ensures PairFrame(g.n, p0, l0, ph[j := i][i := j], i)
    ensures StayMatched(g.n, p0, ph[j := i][i := j])
  {
    var n := g.n;
    var p := p0[j];
    var q := ph[j := i][i := j];
    StepBasics(g, i, j, p0, l0, lt, ph);
    forall v: nat | v < n && q[v] != p0[v]
      ensures (Left(n, v) == Left(n, i) && l0[v] >= l0[i])
              || (Left(n, v) != Left(n, i) && (p0[v] == n || l0[p0[v]] > l0[i]))
    {
      if v != i && v != j {
        assert p < n && ph[v] != p0[v];
        if p0[v] != n {
          assert lt[p0[v]] == l0[p0[v]] || l0[p0[v]] > l0[i];
        }
      }
    }
  }

  /** `dfs(g, i, pair, layer)`: look for an augmenting path from i that climbs the layers one
      at a time; on success flip the matching along it, on failure mark i unreached. */
  method Dfs(g: Digraph, i: nat, pair: array<nat>, layer: array<nat>) returns (ok: bool)
    requires Halves(g) && pair != layer && pair.Length == g.n + 1 && layer.Length == g.n + 1
    requires i <= g.n && Mutual(g.n, g.edges, pair[..]) && LayersBounded(g.n, layer[..])
    modifies pair, layer
    decreases g.n - layer[i]
    ensures LayersBounded(g.n, layer[..]) && LayerFrame(g.n, old(layer[..]), layer[..], old(layer[i]))
    ensures i == g.n ==> ok && pair[..] == old(pair[..]) && layer[..] == old(layer[..])
    ensures !ok ==> pair[..] == old(pair[..])
    ensures !ok && i < g.n ==> layer[i] == g.n
    ensures ok && i < g.n ==> MutualExcept(g.n, g.edges, pair[..], old(pair[i]))
                              && PairFrame(g.n, old(pair[..]), old(layer[..]), pair[..], i)
                              && StayMatched(g.n, old(pair[..]), pair[..])
                              && pair[i] != old(pair[i])
  {
    var n := g.n;
    if i == n {
      return true;
    }
    ghost var p0 := pair[..];
    ghost var l0 := layer[..];
    var nbrs := IgraphNeighbors(g.edges, i);
    var k := 0;
    while k < |nbrs|
      invariant pair[..] == p0 && LayersBounded(n, layer[..])
      invariant LayerGrowth(n, l0, layer[..], l0[i])
    {
      var j := nbrs[k];
      assert Edge(i, j) in g.edges || Edge(j, i) in g.edges;
      var p := pair[j];
      if layer[p] == layer[i] + 1 {
        ghost var lt := layer[..];
        ok := Dfs(g, p, pair, layer);
        GrowthCompose(n, l0, lt, layer[..], l0[i], lt[p]);
        if ok {
          ghost var ph := pair[..];
          assert StepSetting(g, i, j, p0, l0, lt, ph);
          pair[j] := i;
          pair[i] := j;
          assert pair[..] == ph[j := i][i := j];
          StepMutual(g, i, j, p0, l0, lt, ph);
          StepFrame(g, i, j, p0, l0, lt, ph);
          StepBasics(g, i, j, p0, l0, lt, ph);
          return true;
        }
      }
      k := k + 1;
    }
    layer[i] := n;
    return false;
  }

  // ---------------------------------------------------------------------------------------
  // The driver

  ghost function Free(n: nat, p: seq<nat>): set<nat>
    requires |p| == n + 1
  {
    set v: nat | v < n && p[v] == n
  }

  /** One phase: dfs from every free vertex, left and right, in index order. */
  method Phase(g: Digraph, pair: array<nat>, layer: array<nat>) returns (augmented: bool)
    requires Halves(g) && pair != layer && pair.Length == g.n + 1 && layer.Length == g.n + 1
    requires Mutual(g.n, g.edges, pair[..]) && LayersBounded(g.n, layer[..])
    modifies pair, layer
    ensures Mutual(g.n, g.edges, pair[..]) && LayersBounded(g.n, layer[..])
    ensures Free(g.n, pair[..]) <= Free(g.n, old(pair[..]))
    ensures augmented ==> Free(g.n, pair[..]) < Free(g.n, old(pair[..]))
    ensures !augmented ==> pair[..] == old(pair[..])
  {
    var n := g.n;
    ghost var f0 := Free(n, pair[..]);
    augmented := false;
    for i := 0 to n
      invariant Mutual(n, g.edges, pair[..]) && LayersBounded(n, layer[..])
      invariant Free(n, pair[..]) <= f0
      invariant augmented ==> Free(n, pair[..]) < f0
      invariant !augmented ==> pair[..] == old(pair[..])
    {
      if pair[i] == n {
        ghost var before := pair[..];
        var r := Dfs(g, i, pair, layer);
        if r {
          assert i in Free(n, before) && i !in Free(n, pair[..]);
          augmented := true;
        }
      }
    }
  }

  /** Index of the first copy of e in es, -1 if there is none. */
  function EdgeIndex(es: seq<Edge>, e: Edge): (r: int)
    ensures -1 <= r < |es|
    ensures r == -1 <==> e !in es
    ensures r >= 0 ==> es[r] == e
  {
    if es == [] then -1
    else if es[0] == e then 0
    else
      var r := EdgeIndex(es[1..], e);
      assert es == [es[0]] + es[1..];
      if r == -1 then -1 else r + 1
  }

  /** `igraph_get_eid(g, &eid, a, b, 0, 0)` on a directed graph: an edge a → b when there is
      one, otherwise an edge b → a, otherwise -1 (error = 0). Among parallel copies the model
      takes the one with the lowest id. */
  function FindEid(es: seq<Edge>, a: nat, b: nat): (r: int)
    ensures -1 <= r < |es|
    ensures Edge(a, b) in es ==> r >= 0 && es[r] == Edge(a, b)
    ensures Edge(a, b) !in es ==> (r == -1 <==> Edge(b, a) !in es) && (r >= 0 ==> es[r] == Edge(b, a))
  {
    var r := EdgeIndex(es, Edge(a, b));
    if r >= 0 then r else EdgeIndex(es, Edge(b, a))
  }

  /** An edge a → b is preferred to an earlier edge b → a. */
  lemma FindEidExample()
    ensures FindEid([Edge(1, 0), Edge(0, 1)], 0, 1) == 1
    ensures FindEid([Edge(1, 0)], 0, 1) == 0
    ensures FindEid([Edge(1, 0)], 0, 2) == -1
  {
  }

  /** The edge ids name edges no two of which share an endpoint. */
  ghost predicate IsMatching(g: Digraph, ids: seq<int>) {
    (forall k | 0 <= k < |ids| :: 0 <= ids[k] < |g.edges|)
    && forall k1, k2 | 0 <= k1 < k2 < |ids| ::
         var e1 := g.edges[ids[k1]];
         var e2 := g.edges[ids[k2]];
         e1.src != e2.src && e1.src != e2.dst && e1.dst != e2.src && e1.dst != e2.dst
  }

  /** Edges between distinct left vertices and their partners form a matching. */
  lemma MatchingFromPairs(g: Digraph, p: seq<nat>, owners: seq<nat>, ids: seq<int>)
    requires Mutual(g.n, g.edges, p) && |owners| == |ids|
    requires forall k1, k2 | 0 <= k1 < k2 < |owners| :: owners[k1] < owners[k2]
    requires forall k | 0 <= k < |owners| :: owners[k] < g.n / 2 && p[owners[k]] != g.n
    requires forall k | 0 <= k < |ids| :: 0 <= ids[k] < |g.edges|
                                          && (g.edges[ids[k]] == Edge(owners[k], p[owners[k]])
                                              || g.edges[ids[k]] == Edge(p[owners[k]], owners[k]))
    ensures IsMatching(g, ids)
  {
    var n := g.n;
    forall k1, k2 | 0 <= k1 < k2 < |ids|
      ensures var e1 := g.edges[ids[k1]];
              var e2 := g.edges[ids[k2]];
              e1.src != e2.src && e1.src != e2.dst && e1.dst != e2.src && e1.dst != e2.dst
    {
      var a, b := owners[k1], owners[k2];
      assert Partnered(n, g.edges, p, a) && Partnered(n, g.edges, p, b);
      assert a < b;
    }
  }

  /** The final loop: one edge id per matched left vertex, in vertex order. */
  method Convert(g: Digraph, pair: array<nat>, res: VectorUtils.Vector)
    requires pair.Length == g.n + 1 && Mutual(g.n, g.edges, pair[..])
    modifies res
    ensures |old(res.elems)| <= |res.elems| <= |old(res.elems)| + g.n / 2
    ensures res.elems[..|old(res.elems)|] == old(res.elems)
    ensures IsMatching(g, res.elems[|old(res.elems)|..])
  {
    var n := g.n;
    ghost var e0 := res.elems;
    ghost var owners: seq<nat> := [];
    var added: seq<int> := [];
    for i := 0 to n / 2
      invariant res.elems == e0 + added && |owners| == |added| <= i
      invariant forall k1, k2 | 0 <= k1 < k2 < |owners| :: owners[k1] < owners[k2]
      invariant forall k | 0 <= k < |owners| :: owners[k] < i && pair[owners[k]] != n
      invariant forall k | 0 <= k < |added| :: 0 <= added[k] < |g.edges|
                  && (g.edges[added[k]] == Edge(owners[k], pair[owners[k]])
                      || g.edges[added[k]] == Edge(pair[owners[k]], owners[k]))
    {
      if pair[i] != n {
        assert Partnered(n, g.edges, pair[..], i);
        var eid := FindEid(g.edges, i, pair[i]);
        res.elems := res.elems + [eid];
        added := added + [eid];
        owners := owners + [i];
      }
    }
    assert res.elems[|e0|..] == added;
    MatchingFromPairs(g, pair[..], owners, added);
  }

  /** `bipartite_maximum_matching(g, res)`: 1 without touching `res` for a missing argument
      or an odd vertex count; otherwise repeat phases while bfs finds an augmenting path, then
      append the edge ids of the matching to `res` and return 0. */
  method MaximumMatching(g: IGraph?, res: VectorUtils.Vector?) returns (err: int)
    requires g != null && g.n % 2 == 0 ==> Halves(g.Value())
    modifies res
    ensures g == null || res == null || g.n % 2 == 1 ==> err == 1 && (res != null ==> res.elems == old(res.elems))
    ensures g != null && res != null && g.n % 2 == 0 ==>
              (err == 0 && |old(res.elems)| <= |res.elems| <= |old(res.elems)| + g.n / 2
               && res.elems[..|old(res.elems)|] == old(res.elems)
               && IsMatching(g.Value(), res.elems[|old(res.elems)|..]))
  {
    if g == null || res == null {
      return 1;
    }
    var n := g.n;
    if n % 2 == 1 {
      return 1;
    }
    var gv := g.Value();
    var pair := new nat[n + 1](_ => n);
    var layer := new nat[n + 1](_ => 0);
    var found := Bfs(gv, pair, layer);
    while found
      invariant Mutual(n, gv.edges, pair[..]) && LayersBounded(n, layer[..])
      invariant res.elems == old(res.elems)
      decreases Free(n, pair[..]), if found then 1 else 0
    {
      var augmented := Phase(gv, pair, layer);
      if augmented {
        found := Bfs(gv, pair, layer);
      } else {
        found := false;
      }
    }
    Convert(gv, pair, res);
    err := 0;
  }
}
