/** Shared vocabulary: an optional value and the igraph-style directed graph used by the C library. */
module Common {

  datatype Option<T> = None | Some(value: T)

  /** A directed edge of an igraph graph, from `src` to `dst`. */
  datatype Edge = Edge(src: nat, dst: nat)

  /** An igraph_t: vertices 0 .. n-1 and an edge list in edge-id order (multi-edges allowed). */
  datatype Digraph = Digraph(n: nat, edges: seq<Edge>)

  /** Every edge joins two existing vertices. */
  ghost predicate WellFormed(g: Digraph) {
    forall e | e in g.edges :: e.src < g.n && e.dst < g.n
  }

  /** Number of edges entering `v`. */
  function InDegree(es: seq<Edge>, v: nat): (d: nat)
    ensures d <= |es|
  {
    if es == [] then 0 else (if es[0].dst == v then 1 else 0) + InDegree(es[1..], v)
  }

  /** Number of edges leaving `v`. */
  function OutDegree(es: seq<Edge>, v: nat): (d: nat)
    ensures d <= |es|
  {
    if es == [] then 0 else (if es[0].src == v then 1 else 0) + OutDegree(es[1..], v)
  }

  /** Targets of the edges leaving `v`, one per edge, in edge order: Boost's
      `adjacent_vertices` on list storage. */
  function OutNeighbors(es: seq<Edge>, v: nat): (r: seq<nat>)
    ensures forall w :: w in r <==> Edge(v, w) in es
  {
    if es == [] then []
    else (if es[0].src == v then [es[0].dst] else []) + OutNeighbors(es[1..], v)
  }

  /** Sources of the edges entering `w`, one per edge, in edge order: Boost's `in_edges` on list
      storage. */
  function InNeighbors(es: seq<Edge>, w: nat): (r: seq<nat>)
    ensures forall p :: p in r <==> Edge(p, w) in es
  {
    if es == [] then [] else (if es[0].dst == w then [es[0].src] else []) + InNeighbors(es[1..], w)
  }

  /** `igraph_neighbors(g, v, IGRAPH_OUT)`, the list `igraph_vs_adj` iterates: one entry per
      out-edge, sorted by vertex id. */
  function IgraphOutNeighbors(es: seq<Edge>, v: nat): (r: seq<nat>)
    ensures Sorted(r) && multiset(r) == multiset(OutNeighbors(es, v))
    ensures forall w :: w in r <==> Edge(v, w) in es
  {
    SortSeqFacts(OutNeighbors(es, v));
    SameMembers(SortSeq(OutNeighbors(es, v)), OutNeighbors(es, v));
    SortSeq(OutNeighbors(es, v))
  }

  /** `igraph_neighbors(g, v, IGRAPH_ALL)`: the out- and in-neighbours merged and sorted by
      vertex id, so that a self-loop is listed twice. */
  function IgraphNeighbors(es: seq<Edge>, v: nat): (r: seq<nat>)
    ensures Sorted(r) && multiset(r) == multiset(OutNeighbors(es, v)) + multiset(InNeighbors(es, v))
    ensures forall w :: w in r <==> Edge(v, w) in es || Edge(w, v) in es
  {
    SortSeqFacts(OutNeighbors(es, v) + InNeighbors(es, v));
    SameMembers(SortSeq(OutNeighbors(es, v) + InNeighbors(es, v)), OutNeighbors(es, v) + InNeighbors(es, v));
    SortSeq(OutNeighbors(es, v) + InNeighbors(es, v))
  }

  /** Two sequences with the same multiset have the same members. */
  lemma SameMembers(a: seq<nat>, b: seq<nat>)
    requires multiset(a) == multiset(b)
    ensures forall x :: x in a <==> x in b
  {
    assert forall x :: x in a <==> x in multiset(a);
    assert forall x :: x in b <==> x in multiset(b);
  }

  // ---------------------------------------------------------------------------------------
  // igraph_vector_sort

  ghost predicate Sorted(s: seq<nat>) {
    forall i, j | 0 <= i < j < |s| :: s[i] <= s[j]
  }

  function Insert(x: nat, s: seq<nat>): seq<nat>
  {
    if s == [] then [x] else if x <= s[0] then [x] + s else [s[0]] + Insert(x, s[1..])
  }

  /** The order `igraph_vector_sort` leaves: ascending, by insertion. */
  function SortSeq(s: seq<nat>): seq<nat>
  {
    if s == [] then [] else Insert(s[0], SortSeq(s[1..]))
  }

  lemma {:induction false} InsertMultiset(x: nat, s: seq<nat>)
    ensures multiset(Insert(x, s)) == multiset(s) + multiset{x}
  {
    if s != [] && x > s[0] {
      InsertMultiset(x, s[1..]);
      assert s == [s[0]] + s[1..];
    }
  }

  lemma {:induction false} InsertSorted(x: nat, s: seq<nat>)
    requires Sorted(s)
    ensures Sorted(Insert(x, s))
    ensures Insert(x, s)[0] == x || (s != [] && Insert(x, s)[0] == s[0])
  {
    if s != [] && x > s[0] {
      InsertSorted(x, s[1..]);
      var r := Insert(x, s[1..]);
      assert s[0] <= r[0];
      assert forall k | 0 <= k < |r| :: r[0] <= r[k];
    }
  }

  /** Sorting gives an ascending permutation. */
  lemma {:induction false} SortSeqFacts(s: seq<nat>)
    ensures Sorted(SortSeq(s)) && multiset(SortSeq(s)) == multiset(s)
  {
    if s != [] {
      SortSeqFacts(s[1..]);
      InsertSorted(s[0], SortSeq(s[1..]));
      InsertMultiset(s[0], SortSeq(s[1..]));
      assert s == [s[0]] + s[1..];
    }
  }

  /** Sorting an ascending sequence changes nothing. */
  lemma {:induction false} SortSeqSorted(s: seq<nat>)
    requires Sorted(s)
    ensures SortSeq(s) == s
  {
    if s != [] {
      SortSeqSorted(s[1..]);
    }
  }

  // ---------------------------------------------------------------------------------------
  // Removing values from a sequence

  /** The elements of s equal to none of del, in order. */
  function Without(s: seq<nat>, del: seq<nat>): (r: seq<nat>)
    ensures |r| <= |s|
  {
    if s == [] then [] else (if s[0] in del then [] else [s[0]]) + Without(s[1..], del)
  }

  /** A survivor is an element of s equal to no removed value. */
  lemma {:induction false} WithoutMembers(s: seq<nat>, del: seq<nat>)
    ensures forall x :: x in Without(s, del) <==> x in s && x !in del
  {
    if s != [] {
      WithoutMembers(s[1..], del);
      assert s == [s[0]] + s[1..];
    }
  }

  /** Dropping values from a sequence without repetition leaves a sequence without repetition. */
  lemma {:induction false} WithoutDistinct(s: seq<nat>, del: seq<nat>)
    requires Distinct(s)
    ensures Distinct(Without(s, del))
  {
    if s != [] {
      WithoutDistinct(s[1..], del);
      WithoutMembers(s[1..], del);
      assert s[0] !in s[1..] by {
        assert forall j | 0 < j < |s| :: s[0] != s[j];
      }
    }
  }

  lemma {:induction false} WithoutAppend(a: seq<nat>, b: seq<nat>, del: seq<nat>)
    ensures Without(a + b, del) == Without(a, del) + Without(b, del)
  {
    if a != [] {
      assert (a + b)[1..] == a[1..] + b;
      WithoutAppend(a[1..], b, del);
    } else {
      assert a + b == b;
    }
  }

  /** Removing xs and then ys is removing both. */
  lemma {:induction false} WithoutTwice(s: seq<nat>, xs: seq<nat>, ys: seq<nat>)
    ensures Without(Without(s, xs), ys) == Without(s, xs + ys)
  {
    if s != [] {
      WithoutTwice(s[1..], xs, ys);
      var head: seq<nat> := if s[0] in xs then [] else [s[0]];
      WithoutAppend(head, Without(s[1..], xs), ys);
    }
  }

  lemma {:induction false} WithoutNone(s: seq<nat>)
    ensures Without(s, []) == s
  {
    if s != [] {
      WithoutNone(s[1..]);
    }
  }

  /** `p` is a path of `g`: consecutive vertices are joined by an edge. */
  ghost predicate IsPath(g: Digraph, p: seq<nat>) {
    (forall k | 0 <= k < |p| :: p[k] < g.n)
    && forall k | 0 <= k < |p| - 1 :: Edge(p[k], p[k + 1]) in g.edges
  }

  /** Every edge goes from a smaller id to a larger id, so the graph is acyclic. */
  ghost predicate Forward(es: seq<Edge>) {
    forall e | e in es :: e.src < e.dst
  }

  /** Every edge goes from a larger id to a smaller id, so the graph is acyclic. */
  ghost predicate Backward(es: seq<Edge>) {
    forall e | e in es :: e.dst < e.src
  }

  /** No id appears twice. */
  ghost predicate Distinct<T>(s: seq<T>) {
    forall i, j | 0 <= i < j < |s| :: s[i] != s[j]
  }

  /** `v` has in-degree 0 exactly when no edge enters it. */
  lemma {:induction false} InDegreeZero(es: seq<Edge>, v: nat)
    ensures InDegree(es, v) == 0 <==> forall e | e in es :: e.dst != v
  {
    if es != [] {
      InDegreeZero(es[1..], v);
      assert forall e | e in es :: e == es[0] || e in es[1..];
    }
  }

  /** `v` has out-degree 0 exactly when no edge leaves it. */
  lemma {:induction false} OutDegreeZero(es: seq<Edge>, v: nat)
    ensures OutDegree(es, v) == 0 <==> forall e | e in es :: e.src != v
  {
    if es != [] {
      OutDegreeZero(es[1..], v);
      assert forall e | e in es :: e == es[0] || e in es[1..];
    }
  }

  lemma {:induction false} OutDegreeAppend(a: seq<Edge>, b: seq<Edge>, v: nat)
    ensures OutDegree(a + b, v) == OutDegree(a, v) + OutDegree(b, v)
  {
    if a != [] {
      assert (a + b)[0] == a[0] && (a + b)[1..] == a[1..] + b;
      OutDegreeAppend(a[1..], b, v);
    } else {
      assert a + b == b;
    }
  }

  lemma {:induction false} InDegreeAppend(a: seq<Edge>, b: seq<Edge>, v: nat)
    ensures InDegree(a + b, v) == InDegree(a, v) + InDegree(b, v)
  {
    if a != [] {
      assert (a + b)[0] == a[0] && (a + b)[1..] == a[1..] + b;
      InDegreeAppend(a[1..], b, v);
    } else {
      assert a + b == b;
    }
  }

  /** The edges an igraph edge vector `(from0, to0, from1, to1, ...)` stands for. */
  function Pairs(xs: seq<nat>): (r: seq<Edge>)
    ensures |r| == |xs| / 2
  {
    if |xs| < 2 then [] else [Edge(xs[0], xs[1])] + Pairs(xs[2..])
  }

  lemma {:induction false} PairsAppend(xs: seq<nat>, ys: seq<nat>)
    requires |xs| % 2 == 0
    ensures Pairs(xs + ys) == Pairs(xs) + Pairs(ys)
  {
    if xs == [] {
      assert xs + ys == ys;
    } else {
      assert (xs + ys)[2..] == xs[2..] + ys;
      PairsAppend(xs[2..], ys);
    }
  }

  /** Two more cells make one more edge. */
  lemma PairsSnoc(xs: seq<nat>, a: nat, b: nat)
    requires |xs| % 2 == 0
    ensures Pairs(xs + [a, b]) == Pairs(xs) + [Edge(a, b)]
  {
    PairsAppend(xs, [a, b]);
    assert [a, b][2..] == [];
  }

  /** The id a kept vertex `v` gets once the vertices in `del` are removed: igraph keeps the
      remaining vertices in order, so it is the number of kept vertices below `v`. */
  function Kept(del: set<nat>, v: nat): (r: nat)
    ensures r <= v
  {
    if v == 0 then 0 else Kept(del, v - 1) + (if v - 1 in del then 0 else 1)
  }

  /** The edges that touch no removed vertex, renumbered, in their old order. */
  function KeptEdges(es: seq<Edge>, del: set<nat>): seq<Edge>
  {
    if es == [] then []
    else (if es[0].src !in del && es[0].dst !in del
          then [Edge(Kept(del, es[0].src), Kept(del, es[0].dst))] else [])
         + KeptEdges(es[1..], del)
  }

  /** `igraph_delete_vertices(g, del)`: the removed vertices and their incident edges go. */
  function Deleted(g: Digraph, del: set<nat>): Digraph
  {
    Digraph(Kept(del, g.n), KeptEdges(g.edges, del))
  }

  /** The ids 0 .. n-1. */
  function Range(n: nat): (r: set<nat>)
    ensures |r| == n && forall v: nat :: v in r <==> v < n
  {
    if n == 0 then {}
    else
      var r0 := Range(n - 1);
      assert n - 1 !in r0;
      r0 + {n - 1}
  }

  /** A subset has at most as many elements as the set around it. */
  lemma SubsetCard(a: set<nat>, b: set<nat>)
    requires a <= b
    ensures |a| <= |b|
  {
    assert b == a + (b - a);
    assert a * (b - a) == {};
  }

  /** A sequence without repetition has as many elements as its set. */
  lemma {:induction false} DistinctCard<T>(s: seq<T>)
    requires Distinct(s)
    ensures |set k | k in s| == |s|
  {
    if s != [] {
      var init := s[..|s| - 1];
      DistinctCard(init);
      assert s == init + [s[|s| - 1]];
      assert forall k :: k in s <==> k in init || k == s[|s| - 1];
      assert (set k | k in s) == (set k | k in init) + {s[|s| - 1]};
      assert s[|s| - 1] !in init;
    }
  }

  /** n distinct ids below n are all of them. */
  lemma CoversAll(s: seq<nat>, n: nat)
    requires Distinct(s) && |s| == n && forall k | 0 <= k < |s| :: s[k] < n
    ensures forall v: nat | v < n :: v in s
  {
    var inS := set k: nat | k in s;
    var all := Range(n);
    DistinctCard(s);
    assert inS == set k | k in s;
    assert inS + all == all;
    assert inS * all == inS;
    assert |all - inS| == 0;
    assert all - inS == {};
    forall v: nat | v < n
      ensures v in s
    {
      assert v in all;
    }
  }

  /** The position of `x` in `s`. */
  function IndexOf(s: seq<nat>, x: nat): (r: nat)
    requires x in s
    ensures r < |s| && s[r] == x
  {
    if s[0] == x then 0 else 1 + IndexOf(s[1..], x)
  }

  /** In a sequence without repetition, the position of `s[k]` is k. */
  lemma IndexOfDistinct(s: seq<nat>, k: nat)
    requires Distinct(s) && k < |s|
    ensures IndexOf(s, s[k]) == k
  {
  }

  /** `igraph_full_citation(g, n, directed)`: every vertex points to every smaller one. */
  function Citation(n: nat): seq<Edge>
  {
    if n == 0 then [] else Citation(n - 1) + seq(n - 1, j requires 0 <= j < n - 1 => Edge(n - 1, j))
  }

  lemma {:induction false} CitationEdges(n: nat)
    ensures forall a: nat, b: nat :: Edge(a, b) in Citation(n) <==> b < a < n
  {
    if n > 0 {
      CitationEdges(n - 1);
      var row := seq(n - 1, j requires 0 <= j < n - 1 => Edge(n - 1, j));
      forall a: nat, b: nat
        ensures Edge(a, b) in row <==> a == n - 1 && b < n - 1
      {
        if a == n - 1 && b < n - 1 {
          assert row[b] == Edge(a, b);
        }
      }
    }
  }

  /** The ggen_error_type_t codes. */
  datatype ErrorCode = Success | Failure | IgraphError | GslError | EInval | ENoMem

  /** An igraph_t that the C code grows in place; only the calls the library makes are modelled. */
  class IGraph {
    var n: nat
    var edges: seq<Edge>

    function Value(): Digraph
      reads this
    {
      Digraph(n, edges)
    }

    /** `igraph_empty(g, n, IGRAPH_DIRECTED)`. */
    constructor (n: nat)
      ensures this.n == n && edges == []
    {
      this.n := n;
      edges := [];
    }

    /** `igraph_add_vertices(g, k, NULL)`: new ids `n .. n+k-1`. */
    method AddVertices(k: nat)
      modifies this
      ensures n == old(n) + k && edges == old(edges)
    {
      n := n + k;
    }

    /** `igraph_add_edge(g, a, b)`, with vertex ids the graph has. */
    method AddEdge(a: nat, b: nat)
      requires a < n && b < n
      modifies this
      ensures n == old(n) && edges == old(edges) + [Edge(a, b)]
    {
      edges := edges + [Edge(a, b)];
    }

    /** `igraph_delete_vertices(g, del)`. */
    method DeleteVertices(del: set<nat>)
      modifies this
      ensures Value() == Deleted(old(Value()), del)
    {
      n, edges := Kept(del, n), KeptEdges(edges, del);
    }

    /** `igraph_add_edges(g, es, NULL)`, with vertex ids the graph has. */
    method AddEdges(es: seq<Edge>)
      requires forall e | e in es :: e.src < n && e.dst < n
      modifies this
      ensures n == old(n) && edges == old(edges) + es
    {
      edges := edges + es;
    }
  }
}
