/** The random generators of src/graph-generation.c. The GSL random number generator is an
    input: `None` is a NULL generator and `Some(d)` holds the values it would draw. Every
    generator fills an adjacency matrix and hands it to `igraph_adjacency`. */
module GraphGeneration {
  import opened Common

  /** `n*(n-1)/2`, the number of unordered pairs of distinct vertices. */
  function MaxEdges(n: nat): nat
  {
    if n == 0 then 0 else n * (n - 1) / 2
  }

  /** The complete citation graph has one edge per unordered pair. */
  lemma {:induction false} CitationSize(n: nat)
    ensures |Citation(n)| == MaxEdges(n)
  {
    if n > 1 {
      CitationSize(n - 1);
      assert n * (n - 1) == (n - 1) * (n - 2) + 2 * (n - 1);
    }
  }

  /** tests/erdos_gnm.c: on 10 vertices 100 edges are refused, and 45 edges give the complete
      citation graph with its 45 edges. */
  lemma GnmExamples()
    ensures 100 > MaxEdges(10) && MaxEdges(10) == 45 && |Citation(10)| == 45
  {
    CitationSize(10);
  }

  // ---------------------------------------------------------------------------------------
  // igraph_adjacency

  /** The edges of row i up to column j, in column order. */
  function AdjRow(m: array2<bool>, i: nat, j: nat): seq<Edge>
    reads m
    requires i < m.Length0 && j <= m.Length1
  {
    if j == 0 then [] else AdjRow(m, i, j - 1) + (if m[i, j - 1] then [Edge(i, j - 1)] else [])
  }

  /** The edges of the first i rows, row after row. */
  function AdjRows(m: array2<bool>, i: nat): seq<Edge>
    reads m
    requires i <= m.Length0
  {
    if i == 0 then [] else AdjRows(m, i - 1) + AdjRow(m, i - 1, m.Length1)
  }

  /** `igraph_adjacency(g, m, IGRAPH_ADJ_DIRECTED)` on a 0/1 square matrix: one edge i→j per
      set cell, in row-major order. */
  function Adjacency(m: array2<bool>): Digraph
    reads m
    requires m.Length0 == m.Length1
  {
    Digraph(m.Length0, AdjRows(m, m.Length0))
  }

  /** e comes before f in row-major order. */
  predicate RowMajor(e: Edge, f: Edge) {
    e.src < f.src || (e.src == f.src && e.dst < f.dst)
  }

  ghost predicate Ascending(s: seq<Edge>) {
    forall p, q | 0 <= p < q < |s| :: RowMajor(s[p], s[q])
  }

  lemma AscendingAppend(a: seq<Edge>, b: seq<Edge>)
    requires Ascending(a) && Ascending(b)
    requires forall x, y | x in a && y in b :: RowMajor(x, y)
    ensures Ascending(a + b)
  {
    forall p, q | 0 <= p < q < |a + b|
      ensures RowMajor((a + b)[p], (a + b)[q])
    {
      if p < |a| && q >= |a| {
        assert (a + b)[p] in a && (a + b)[q] in b;
      }
    }
  }

  lemma {:induction false} AdjRowFacts(m: array2<bool>, i: nat, j: nat)
    requires i < m.Length0 && j <= m.Length1
    ensures forall e | e in AdjRow(m, i, j) :: e.src == i && e.dst < j
    ensures forall b: nat :: Edge(i, b) in AdjRow(m, i, j) <==> b < j && m[i, b]
    ensures Ascending(AdjRow(m, i, j))
  {
    if j > 0 {
      AdjRowFacts(m, i, j - 1);
      var last: seq<Edge> := if m[i, j - 1] then [Edge(i, j - 1)] else [];
      AscendingAppend(AdjRow(m, i, j - 1), last);
    }
  }

  lemma {:induction false} AdjRowsFacts(m: array2<bool>, i: nat)
    requires i <= m.Length0
    ensures forall e | e in AdjRows(m, i) :: e.src < i && e.dst < m.Length1
    ensures forall a: nat, b: nat :: Edge(a, b) in AdjRows(m, i) <==> a < i && b < m.Length1 && m[a, b]
    ensures Ascending(AdjRows(m, i))
  {
    if i > 0 {
      AdjRowsFacts(m, i - 1);
      AdjRowFacts(m, i - 1, m.Length1);
      AscendingAppend(AdjRows(m, i - 1), AdjRow(m, i - 1, m.Length1));
    }
  }

  /** The graph has exactly the edges i→j of the set cells, each once. */
  lemma AdjacencyEdges(m: array2<bool>)
    requires m.Length0 == m.Length1
    ensures WellFormed(Adjacency(m)) && Distinct(Adjacency(m).edges)
    ensures forall a: nat, b: nat :: Edge(a, b) in Adjacency(m).edges <==> a < m.Length0 && b < m.Length0 && m[a, b]
  {
    AdjRowsFacts(m, m.Length0);
    var es := Adjacency(m).edges;
    forall p, q | 0 <= p < q < |es|
      ensures es[p] != es[q]
    {
      assert RowMajor(es[p], es[q]);
    }
  }

  /** The double loop that sets every cell (i, j) of the matrix to `cell(i, j)`. */
  method Fill(m: array2<bool>, cell: (nat, nat) -> bool)
    modifies m
    ensures forall i, j | 0 <= i < m.Length0 && 0 <= j < m.Length1 :: m[i, j] == cell(i, j)
  {
    for i := 0 to m.Length0
      invariant forall a, b | 0 <= a < i && 0 <= b < m.Length1 :: m[a, b] == cell(a, b)
    {
      for j := 0 to m.Length1
        invariant forall a, b | 0 <= a < i && 0 <= b < m.Length1 :: m[a, b] == cell(a, b)
        invariant forall b | 0 <= b < j :: m[i, b] == cell(i, b)
      {
        m[i, j] := cell(i, j);
      }
    }
  }

  // ---------------------------------------------------------------------------------------
  // G(n, M)

  /** The forward pairs (i < j) among the draws, as edges. */
  function ForwardDraws(draws: seq<(nat, nat)>): set<Edge>
  {
    if draws == [] then {}
    else
      var d := draws[|draws| - 1];
      ForwardDraws(draws[..|draws| - 1]) + (if d.0 < d.1 then {Edge(d.0, d.1)} else {})
  }

  /** What a G(n,M) graph is: n vertices, edges that go up, no edge twice, at most m edges
      all drawn, and exactly m unless the draws hold fewer distinct forward pairs. */
  ghost predicate GnmGraph(g: Digraph, n: nat, m: nat, draws: seq<(nat, nat)>) {
    g.n == n && WellFormed(g) && Forward(g.edges) && Distinct(g.edges)
    && (forall e | e in g.edges :: e in ForwardDraws(draws))
    && |g.edges| <= m
    && (|g.edges| == m || forall e :: e in g.edges <==> e in ForwardDraws(draws))
  }

  /** One draw of the G(n,M) loop: the pair (i, j) is set when it goes up and is not set yet. */
  method DrawStep(adj: array2<bool>, i: nat, j: nat, ghost chosen: set<Edge>)
    returns (took: bool, ghost after: set<Edge>)
    requires i < adj.Length0 && j < adj.Length1
    requires forall a, b | 0 <= a < adj.Length0 && 0 <= b < adj.Length1 :: adj[a, b] <==> Edge(a, b) in chosen
    modifies adj
    ensures forall a, b | 0 <= a < adj.Length0 && 0 <= b < adj.Length1 :: adj[a, b] <==> Edge(a, b) in after
    ensures after == chosen + (if i < j then {Edge(i, j)} else {})
    ensures |after| == |chosen| + (if took then 1 else 0)
  {
    took := false;
    after := chosen;
    if i < j && !adj[i, j] {
      adj[i, j] := true;
      after := chosen + {Edge(i, j)};
      took := true;
    }
  }

  /** The loop of `ggen_generate_erdos_gnm`: draw pairs until m distinct forward pairs are
      set in the matrix, here stopping as well when the draws run out. */
  method DrawEdges(adj: array2<bool>, m: nat, draws: seq<(nat, nat)>) returns (ghost chosen: set<Edge>)
    requires adj.Length0 == adj.Length1
    requires forall a, b | 0 <= a < adj.Length0 && 0 <= b < adj.Length1 :: !adj[a, b]
    requires forall k | 0 <= k < |draws| :: draws[k].0 < adj.Length0 && draws[k].1 < adj.Length0
    modifies adj
    ensures forall a, b | 0 <= a < adj.Length0 && 0 <= b < adj.Length1 :: adj[a, b] <==> Edge(a, b) in chosen
    ensures forall e | e in chosen :: e.src < e.dst < adj.Length0 && e in ForwardDraws(draws)
    ensures |chosen| <= m && (|chosen| == m || chosen == ForwardDraws(draws))
  {
    var added := 0;
    var k := 0;
    chosen := {};
    while added < m && k < |draws|
      invariant k <= |draws| && added == |chosen| <= m
      invariant forall a, b | 0 <= a < adj.Length0 && 0 <= b < adj.Length1 :: adj[a, b] <==> Edge(a, b) in chosen
      invariant chosen <= ForwardDraws(draws[..k])
      invariant added < m ==> chosen == ForwardDraws(draws[..k])
    {
      assert draws[..k + 1][..k] == draws[..k];
      var took;
      took, chosen := DrawStep(adj, draws[k].0, draws[k].1, chosen);
      if took {
        added := added + 1;
      }
      k := k + 1;
    }
    if k == |draws| {
      assert draws[..k] == draws;
    }
    ForwardDrawsMono(draws, k);
    ForwardDrawsUp(draws, adj.Length0);
  }

  lemma {:induction false} ForwardDrawsUp(draws: seq<(nat, nat)>, n: nat)
    requires forall k | 0 <= k < |draws| :: draws[k].0 < n && draws[k].1 < n
    ensures forall e | e in ForwardDraws(draws) :: e.src < e.dst < n
  {
    if draws != [] {
      ForwardDrawsUp(draws[..|draws| - 1], n);
    }
  }

  lemma {:induction false} ForwardDrawsMono(draws: seq<(nat, nat)>, k: nat)
    requires k <= |draws|
    ensures ForwardDraws(draws[..k]) <= ForwardDraws(draws)
  {
    if k < |draws| {
      assert draws[..|draws| - 1][..k] == draws[..k];
      ForwardDrawsMono(draws[..|draws| - 1], k);
    } else {
      assert draws[..k] == draws;
    }
  }

  /** `ggen_generate_erdos_gnm(r, n, m)`. */
  method GenerateGnm(r: Option<seq<(nat, nat)>>, n: nat, m: nat) returns (g: Option<Digraph>)
    requires r.Some? ==> forall k | 0 <= k < |r.value| :: r.value[k].0 < n && r.value[k].1 < n
    ensures r.None? || m > MaxEdges(n) ==> g.None?
    ensures r.Some? && m <= MaxEdges(n) ==> g.Some?
    ensures r.Some? && m <= MaxEdges(n) && (m == 0 || n <= 1) ==> g == Some(Digraph(n, []))
    ensures r.Some? && m <= MaxEdges(n) && !(m == 0 || n <= 1) && m == MaxEdges(n)
      ==> g == Some(Digraph(n, Citation(n)))
    ensures r.Some? && m < MaxEdges(n) && !(m == 0 || n <= 1) ==> GnmGraph(g.value, n, m, r.value)
  {
    if r.None? {
      return None;
    }
    if m > MaxEdges(n) {
      return None;
    }
    if m == 0 || n <= 1 {
      return Some(Digraph(n, []));
    }
    if m == MaxEdges(n) {
      return Some(Digraph(n, Citation(n)));
    }
    var adj := new bool[n, n]((i, j) => false);
    ghost var chosen := DrawEdges(adj, m, r.value);
    AdjacencyEdges(adj);
    g := Some(Adjacency(adj));
    ghost var es := g.value.edges;
    assert forall e | e in es :: e in chosen;
    forall e | e in chosen
      ensures e in es
    {
      assert adj[e.src, e.dst];
    }
    assert (set e | e in es) == chosen;
    DistinctCard(es);
  }

  // ---------------------------------------------------------------------------------------
  // G(n, p)

  /** `ggen_generate_erdos_gnp(r, n, p)`; `coin(i, j)` is the Bernoulli draw for cell (i, j). */
  method GenerateGnp(r: Option<(nat, nat) -> bool>, n: nat, p: real) returns (g: Option<Digraph>)
    ensures r.None? || p < 0.0 || p > 1.0 ==> g.None?
    ensures r.Some? && 0.0 <= p <= 1.0 ==> g.Some? && g.value.n == n && WellFormed(g.value)
    ensures r.Some? && p == 0.0 ==> g == Some(Digraph(n, []))
    ensures r.Some? && p == 1.0 ==> g == Some(Digraph(n, Citation(n)))
    ensures r.Some? && 0.0 < p < 1.0 ==>
      (Distinct(g.value.edges)
       && forall a: nat, b: nat :: Edge(a, b) in g.value.edges <==> a < b < n && r.value(a, b))
  {
    if r.None? {
      return None;
    }
    if p < 0.0 || p > 1.0 {
      return None;
    }
    if p == 0.0 {
      return Some(Digraph(n, []));
    }
    if p == 1.0 {
      CitationEdges(n);
      return Some(Digraph(n, Citation(n)));
    }
    var coin := r.value;
    var m := new bool[n, n];
    Fill(m, (i: nat, j: nat) => if i < j then coin(i, j) else false);
    AdjacencyEdges(m);
    g := Some(Adjacency(m));
  }

  /** Every G(n,p) edge goes up, so the graph is acyclic. */
  lemma GnpForward(g: Digraph, n: nat, coin: (nat, nat) -> bool)
    requires forall a: nat, b: nat :: Edge(a, b) in g.edges <==> a < b < n && coin(a, b)
    ensures Forward(g.edges)
  {
    forall e | e in g.edges
      ensures e.src < e.dst
    {
      assert Edge(e.src, e.dst) == e;
    }
  }

  // ---------------------------------------------------------------------------------------
  // Layer by layer

  /** `ggen_generate_erdos_lbl(r, n, p, nbl)`: `layers` holds the layer drawn for each vertex
      and `coin(i, j)` the Bernoulli draw for cell (i, j). */
  method GenerateLayered(r: Option<(seq<nat>, (nat, nat) -> bool)>, n: nat, p: real, nbl: nat)
    returns (g: Option<Digraph>)
    requires r.Some? && 0 < nbl <= n ==>
      |r.value.0| == n && forall i | 0 <= i < n :: r.value.0[i] < nbl
    ensures r.None? || p < 0.0 || p > 1.0 || nbl > n || nbl == 0 ==> g.None?
    ensures r.Some? && 0.0 <= p <= 1.0 && 0 < nbl <= n ==> g.Some? && g.value.n == n && WellFormed(g.value)
    ensures r.Some? && 0 < nbl <= n && p == 0.0 ==> g == Some(Digraph(n, []))
    ensures r.Some? && 0 < nbl <= n && p == 1.0 && nbl == n ==> g == Some(Digraph(n, Citation(n)))
    ensures r.Some? && 0 < nbl <= n && 0.0 < p <= 1.0 && !(p == 1.0 && nbl == n) ==>
      (Distinct(g.value.edges)
       && forall a: nat, b: nat :: Edge(a, b) in g.value.edges <==>
            (a < n && b < n && r.value.0[a] < r.value.0[b] && r.value.1(a, b)))
  {
    if r.None? {
      return None;
    }
    if p < 0.0 || p > 1.0 {
      return None;
    }
    if nbl > n || nbl == 0 {
      return None;
    }
    if p == 0.0 {
      return Some(Digraph(n, []));
    }
    if p == 1.0 && nbl == n {
      CitationEdges(n);
      return Some(Digraph(n, Citation(n)));
    }
    var layers, coin := r.value.0, r.value.1;
    var m := new bool[n, n];
    Fill(m, (i: nat, j: nat) => if i < |layers| && j < |layers| && layers[i] < layers[j] then coin(i, j) else false);
    AdjacencyEdges(m);
    g := Some(Adjacency(m));
  }

  /** Layer-by-layer edges go to a strictly higher layer, so every path climbs the layers
      and the graph is acyclic. */
  lemma {:induction false} LayeredPath(g: Digraph, layers: seq<nat>, coin: (nat, nat) -> bool, p: seq<nat>)
    requires |layers| == g.n
    requires forall a: nat, b: nat :: Edge(a, b) in g.edges <==>
      a < g.n && b < g.n && layers[a] < layers[b] && coin(a, b)
    requires IsPath(g, p) && |p| >= 1
    ensures layers[p[0]] + |p| - 1 <= layers[p[|p| - 1]]
  {
    if |p| > 1 {
      LayeredPath(g, layers, coin, p[..|p| - 1]);
      assert Edge(p[|p| - 2], p[|p| - 1]) in g.edges;
    }
  }

  // ---------------------------------------------------------------------------------------
  // Fan-in / fan-out

  /** The argument checks of `ggen_generate_fifo(r, n, od, id)`: it refuses a NULL generator
      and degrees that are 0 or above n. */
  function FifoAccepts(hasRng: bool, n: nat, od: nat, id: nat): (ok: bool)
    ensures ok ==> 1 <= od <= n && 1 <= id <= n
  {
    hasRng && !(id == 0 || od == 0 || od > n || id > n)
  }

  /** The refusals and the accepted call of tests/fifo.c. */
  lemma FifoExamples()
    ensures !FifoAccepts(false, 10, 2, 2) && !FifoAccepts(true, 10, 0, 5) && !FifoAccepts(true, 10, 30, 5)
    ensures !FifoAccepts(true, 10, 5, 0) && !FifoAccepts(true, 10, 5, 30) && FifoAccepts(true, 10, 2, 2)
  {
  }

  // ---------------------------------------------------------------------------------------
  // Random orders

  /** What `gsl_ran_shuffle` of `0 .. n-1` yields. */
  ghost predicate IsPermutation(s: seq<nat>, n: nat) {
    |s| == n && Distinct(s) && forall k | 0 <= k < |s| :: s[k] < n
  }

  /** The position of vertex a in the order s. */
  ghost function Pos(s: seq<nat>, n: nat, a: nat): (r: nat)
    requires IsPermutation(s, n) && a < n
    ensures r < n && s[r] == a
  {
    CoversAll(s, n);
    IndexOf(s, a)
  }

  /** a comes before b in every order. */
  ghost predicate Precedes(orders: seq<seq<nat>>, n: nat, a: nat, b: nat)
    requires forall k | 0 <= k < |orders| :: IsPermutation(orders[k], n)
    requires a < n && b < n
  {
    forall k | 0 <= k < |orders| :: Pos(orders[k], n, a) < Pos(orders[k], n, b)
  }

  /** The loop that inverts the orders: `index[k, v]` becomes the position of v in order k. */
  method IndexOrders(perms: seq<seq<nat>>, n: nat, index: array2<nat>)
    requires index.Length0 == |perms| && index.Length1 == n
    requires forall k | 0 <= k < |perms| :: IsPermutation(perms[k], n)
    modifies index
    ensures forall k, v | 0 <= k < |perms| && 0 <= v < n :: index[k, v] == Pos(perms[k], n, v)
  {
    for i := 0 to |perms|
      invariant forall k, v | 0 <= k < i && 0 <= v < n :: index[k, v] == Pos(perms[k], n, v)
    {
      var perm := perms[i];
      for j := 0 to n
        invariant forall k, v | 0 <= k < i && 0 <= v < n :: index[k, v] == Pos(perms[k], n, v)
        invariant forall q | 0 <= q < j :: index[i, perm[q]] == q
      {
        index[i, perm[j]] := j;
      }
      forall v | 0 <= v < n
        ensures index[i, v] == Pos(perm, n, v)
      {
        var q := Pos(perm, n, v);
        assert perm[q] == v;
      }
    }
  }

  /** How many of the first k orders put a before b. */
  ghost function Votes(index: array2<nat>, a: nat, b: nat, k: nat): (r: nat)
    reads index
    requires k <= index.Length0 && a < index.Length1 && b < index.Length1
    ensures r <= k
  {
    if k == 0 then 0 else Votes(index, a, b, k - 1) + (if index[k - 1, a] < index[k - 1, b] then 1 else 0)
  }

  /** All k orders vote for (a, b) exactly when each of them puts a before b. */
  lemma {:induction false} VotesAll(index: array2<nat>, a: nat, b: nat, k: nat)
    requires k <= index.Length0 && a < index.Length1 && b < index.Length1
    ensures Votes(index, a, b, k) == k <==> forall q | 0 <= q < k :: index[q, a] < index[q, b]
  {
    if k > 0 {
      VotesAll(index, a, b, k - 1);
    }
  }

  /** The innermost loop for one cell: count the orders that put a before b. */
  method TallyCell(index: array2<nat>, validity: array2<nat>, a: nat, b: nat)
    requires index != validity
    requires a < validity.Length0 && b < validity.Length1 && a < index.Length1 && b < index.Length1
    requires validity[a, b] == 0
    modifies validity
    ensures forall x, y | 0 <= x < validity.Length0 && 0 <= y < validity.Length1 ::
      validity[x, y] == if x == a && y == b then Votes(index, a, b, index.Length0) else old(validity[x, y])
  {
    for k := 0 to index.Length0
      invariant forall x, y | 0 <= x < validity.Length0 && 0 <= y < validity.Length1 ::
        validity[x, y] == if x == a && y == b then Votes(index, a, b, k) else old(validity[x, y])
    {
      if index[k, a] < index[k, b] {
        validity[a, b] := validity[a, b] + 1;
      }
    }
  }

  /** The loop that fills `edge_validity`: each cell counts the orders putting its row before
      its column. */
  method Tally(index: array2<nat>, validity: array2<nat>)
    requires index != validity && validity.Length0 == validity.Length1 == index.Length1
    requires forall x, y | 0 <= x < validity.Length0 && 0 <= y < validity.Length1 :: validity[x, y] == 0
    modifies validity
    ensures forall x, y | 0 <= x < validity.Length0 && 0 <= y < validity.Length1 ::
      validity[x, y] == Votes(index, x, y, index.Length0)
  {
    var n := validity.Length0;
    for i := 0 to n
      invariant forall x, y | 0 <= x < i && 0 <= y < n :: validity[x, y] == Votes(index, x, y, index.Length0)
      invariant forall x, y | i <= x < n && 0 <= y < n :: validity[x, y] == 0
    {
      for j := 0 to n
        invariant forall x, y | 0 <= x < i && 0 <= y < n :: validity[x, y] == Votes(index, x, y, index.Length0)
        invariant forall y | 0 <= y < j :: validity[i, y] == Votes(index, i, y, index.Length0)
        invariant forall x, y | i <= x < n && 0 <= y < n && (x > i || y >= j) :: validity[x, y] == 0
      {
        TallyCell(index, validity, i, j);
      }
    }
  }

  /** The last double loop: a cell becomes an edge when every order voted for it. */
  method Select(validity: array2<nat>, orders: nat, m: array2<bool>)
    requires m.Length0 == validity.Length0 && m.Length1 == validity.Length1
    modifies m
    ensures forall x, y | 0 <= x < m.Length0 && 0 <= y < m.Length1 :: m[x, y] == (validity[x, y] == orders)
  {
    for i := 0 to m.Length0
      invariant forall x, y | 0 <= x < i && 0 <= y < m.Length1 :: m[x, y] == (validity[x, y] == orders)
    {
      for j := 0 to m.Length1
        invariant forall x, y | 0 <= x < i && 0 <= y < m.Length1 :: m[x, y] == (validity[x, y] == orders)
        invariant forall y | 0 <= y < j :: m[i, y] == (validity[i, y] == orders)
      {
        m[i, j] := validity[i, j] == orders;
      }
    }
  }

  /** `ggen_generate_random_orders(r, n, orders)`: `r` holds the shuffled orders of 0 .. n-1.
      The edge a→b exists exactly when a comes before b in every order. */
  method GenerateRandomOrders(r: Option<seq<seq<nat>>>, n: nat, orders: nat) returns (g: Option<Digraph>)
    requires r.Some? ==> |r.value| == orders && forall k | 0 <= k < orders :: IsPermutation(r.value[k], n)
    ensures r.None? || orders == 0 ==> g.None?
    ensures r.Some? && orders > 0 ==>
      (g.Some? && g.value.n == n && WellFormed(g.value) && Distinct(g.value.edges)
       && forall a: nat, b: nat :: Edge(a, b) in g.value.edges <==> a < n && b < n && Precedes(r.value, n, a, b))
  {
    if r.None? {
      return None;
    }
    if orders == 0 {
      return None;
    }
    var perms := r.value;
    var m := new bool[n, n]((i, j) => false);
    var validity := new nat[n, n]((i, j) => 0);
    var index := new nat[orders, n];
    IndexOrders(perms, n, index);
    Tally(index, validity);
    Select(validity, orders, m);
    AdjacencyEdges(m);
    g := Some(Adjacency(m));
    forall a: nat, b: nat | a < n && b < n
      ensures m[a, b] <==> Precedes(perms, n, a, b)
    {
      assert m[a, b] == (validity[a, b] == orders);
      assert validity[a, b] == Votes(index, a, b, orders);
      VotesAll(index, a, b, orders);
      PrecedesByIndex(perms, n, index, a, b);
    }
  }

  /** Reading positions from the index table is reading them from the orders. */
  lemma PrecedesByIndex(perms: seq<seq<nat>>, n: nat, index: array2<nat>, a: nat, b: nat)
    requires forall k | 0 <= k < |perms| :: IsPermutation(perms[k], n)
    requires index.Length0 == |perms| && index.Length1 == n && a < n && b < n
    requires forall k, v | 0 <= k < |perms| && 0 <= v < n :: index[k, v] == Pos(perms[k], n, v)
    ensures (forall q | 0 <= q < |perms| :: index[q, a] < index[q, b]) <==> Precedes(perms, n, a, b)
  {
  }

  /** Along a path of a random-orders graph, positions in any one order rise, so the graph has
      no cycle and no self-loop. */
  lemma {:induction false} OrdersPath(g: Digraph, perms: seq<seq<nat>>, k: nat, p: seq<nat>)
    requires k < |perms| && forall q | 0 <= q < |perms| :: IsPermutation(perms[q], g.n)
    requires forall a: nat, b: nat :: Edge(a, b) in g.edges <==> a < g.n && b < g.n && Precedes(perms, g.n, a, b)
    requires IsPath(g, p) && |p| >= 1
    ensures Pos(perms[k], g.n, p[0]) + |p| - 1 <= Pos(perms[k], g.n, p[|p| - 1])
  {
    if |p| > 1 {
      OrdersPath(g, perms, k, p[..|p| - 1]);
      assert Edge(p[|p| - 2], p[|p| - 1]) in g.edges;
    }
  }
}
