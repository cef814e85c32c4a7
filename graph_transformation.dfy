/** The graph transformations of src/graph-transformation.c: add a new vertex linked to every
    source (or every sink), or delete every source (or every sink). */
module GraphTransform {
  import opened Common

  /** `enum ggen_transform_t`. */
  datatype Transform = TransformSource | TransformSink

  /** The end of an edge that the degree counts: its head for sources (IGRAPH_IN), its tail for
      sinks (IGRAPH_OUT). */
  function End(e: Edge, t: Transform): nat
  {
    if t == TransformSource then e.dst else e.src
  }

  /** The degree `igraph_degree(g, &degrees, igraph_vss_all(), mode, 0)` computes: in-degree to
      find sources, out-degree for sinks. The last argument, `loops = 0`, leaves self-loops
      uncounted. */
  function Degree(es: seq<Edge>, t: Transform, v: nat): nat
  {
    if es == [] then 0
    else (if es[0].src != es[0].dst && End(es[0], t) == v then 1 else 0) + Degree(es[1..], t, v)
  }

  /** A vertex has degree 0 exactly when every edge ending (starting) at it is a self-loop. */
  lemma {:induction false} DegreeZero(es: seq<Edge>, t: Transform, v: nat)
    ensures Degree(es, t, v) == 0 <==> forall e | e in es :: End(e, t) == v ==> e.src == e.dst
  {
    if es != [] {
      DegreeZero(es[1..], t, v);
      assert forall e | e in es :: e == es[0] || e in es[1..];
    }
  }

  /** Some edge from another vertex enters (SOURCE) or leaves (SINK) v. */
  ghost predicate Attached(es: seq<Edge>, t: Transform, v: nat) {
    exists e | e in es :: End(e, t) == v && e.src != e.dst
  }

  lemma {:induction false} DegreeAppend(a: seq<Edge>, b: seq<Edge>, t: Transform, v: nat)
    ensures Degree(a + b, t, v) == Degree(a, t, v) + Degree(b, t, v)
  {
    if a != [] {
      assert (a + b)[0] == a[0] && (a + b)[1..] == a[1..] + b;
      DegreeAppend(a[1..], b, t, v);
    } else {
      assert a + b == b;
    }
  }

  /** The vertices below k of degree 0, ascending. */
  function TargetsUpTo(g: Digraph, t: Transform, k: nat): (r: seq<nat>)
    ensures |r| <= k
  {
    if k == 0 then []
    else TargetsUpTo(g, t, k - 1) + (if Degree(g.edges, t, k - 1) == 0 then [k - 1] else [])
  }

  /** The sources (SOURCE) or sinks (SINK) of g, ascending. */
  function Targets(g: Digraph, t: Transform): seq<nat>
  {
    TargetsUpTo(g, t, g.n)
  }

  /** The targets are exactly the vertices below k of degree 0, in strictly increasing order. */
  lemma {:induction false} TargetsUpToMembers(g: Digraph, t: Transform, k: nat)
    ensures forall v: nat :: v in TargetsUpTo(g, t, k) <==> v < k && Degree(g.edges, t, v) == 0
    ensures forall i, j | 0 <= i < j < |TargetsUpTo(g, t, k)| ::
      TargetsUpTo(g, t, k)[i] < TargetsUpTo(g, t, k)[j]
  {
    if k > 0 {
      TargetsUpToMembers(g, t, k - 1);
      var prev := TargetsUpTo(g, t, k - 1);
      var last: seq<nat> := if Degree(g.edges, t, k - 1) == 0 then [k - 1] else [];
      assert TargetsUpTo(g, t, k) == prev + last;
      assert forall v :: v in prev + last <==> v in prev || v in last;
      assert forall i | 0 <= i < |prev| :: prev[i] in prev;
    }
  }

  /** So the targets are exactly the vertices below k that no edge from another vertex enters
      (SOURCE) or leaves (SINK): a vertex whose only such edges are self-loops is a target. */
  lemma TargetsUpToNoEdge(g: Digraph, t: Transform, k: nat)
    ensures forall v: nat :: v in TargetsUpTo(g, t, k) <==>
      v < k && forall e | e in g.edges :: End(e, t) == v ==> e.src == e.dst
  {
    TargetsUpToMembers(g, t, k);
    forall v: nat
      ensures Degree(g.edges, t, v) == 0 <==> forall e | e in g.edges :: End(e, t) == v ==> e.src == e.dst
    {
      DegreeZero(g.edges, t, v);
    }
  }

  /** The edges that join the new vertex `nv` to each target: from it for SOURCE, to it for SINK. */
  function Links(ts: seq<nat>, t: Transform, nv: nat): seq<Edge>
  {
    seq(|ts|, i requires 0 <= i < |ts| =>
      if t == TransformSource then Edge(nv, ts[i]) else Edge(ts[i], nv))
  }

  lemma LinksSnoc(ts: seq<nat>, v: nat, t: Transform, nv: nat)
    ensures Links(ts + [v], t, nv)
         == Links(ts, t, nv) + [if t == TransformSource then Edge(nv, v) else Edge(v, nv)]
  {
  }

  /** `ggen_transform_add` on a graph: one new vertex and a link to every target, or no change
      when there is no target. */
  function Added(g: Digraph, t: Transform): Digraph
  {
    var ts := Targets(g, t);
    if ts == [] then g else Digraph(g.n + 1, g.edges + Links(ts, t, g.n))
  }

  /** The targets as a set, the argument `igraph_delete_vertices` receives. */
  function TargetSet(g: Digraph, t: Transform): set<nat>
  {
    set v | v in Targets(g, t)
  }

  /** `ggen_transform_delete` on a graph: every target and its incident edges removed, in one
      pass, or no change when there is no target. */
  function Removed(g: Digraph, t: Transform): Digraph
  {
    var ts := Targets(g, t);
    if ts == [] then g else Deleted(g, TargetSet(g, t))
  }

  /** The first loop of both transformations: the targets, ascending, in the first `ssize`
      cells of a fresh array of `vcount` cells. */
  method CollectTargets(g: IGraph, t: Transform) returns (vertices: array<nat>, ssize: nat)
    ensures fresh(vertices) && ssize <= vertices.Length
    ensures vertices[..ssize] == Targets(g.Value(), t)
  {
    var vcount := g.n;
    vertices := new nat[vcount];
    ssize := 0;
    for i := 0 to vcount
      invariant ssize <= i && vertices[..ssize] == TargetsUpTo(g.Value(), t, i)
    {
      if Degree(g.edges, t, i) == 0 {
        ghost var before := vertices[..ssize];
        vertices[ssize] := i;
        ssize := ssize + 1;
        assert vertices[..ssize] == before + [i];
      }
    }
  }

  /** The second loop of `ggen_transform_add`: the edge vector joining `nv` to the first `ssize`
      vertices. */
  method LinkVector(vertices: array<nat>, ssize: nat, t: Transform, nv: nat) returns (edges: array<nat>)
    requires ssize <= vertices.Length
    ensures fresh(edges) && Pairs(edges[..]) == Links(vertices[..ssize], t, nv)
  {
    edges := new nat[ssize * 2];
    for i := 0 to ssize
      invariant Pairs(edges[..2 * i]) == Links(vertices[..i], t, nv)
    {
      PutLink(edges, i, vertices[i], t, nv);
      assert vertices[..i + 1] == vertices[..i] + [vertices[i]];
      LinksSnoc(vertices[..i], vertices[i], t, nv);
    }
    assert edges[..2 * ssize] == edges[..];
  }

  /** One step of that loop: the pair of cells i of the edge vector gets the link of v. */
  method PutLink(edges: array<nat>, i: nat, v: nat, t: Transform, nv: nat)
    requires 2 * i + 1 < edges.Length
    modifies edges
    ensures Pairs(edges[..2 * i + 2])
         == Pairs(old(edges[..2 * i])) + [if t == TransformSource then Edge(nv, v) else Edge(v, nv)]
  {
    var b := 2 * i;
    ghost var pre := edges[..b];
    if t == TransformSource {
      edges[b] := nv;
      edges[b + 1] := v;
    } else {
      edges[b] := v;
      edges[b + 1] := nv;
    }
    assert edges[..b + 2] == pre + [edges[b], edges[b + 1]];
    PairsSnoc(pre, edges[b], edges[b + 1]);
  }

  /** `ggen_transform_add(g, t)`: collect the targets, then add the vertex and the links. A NULL
      graph is refused with 1. */
  method TransformAdd(g: IGraph?, t: Transform) returns (err: int)
    modifies g
    ensures g == null ==> err == 1
    ensures g != null ==> err == 0 && g.Value() == Added(old(g.Value()), t)
  {
    if g == null {
      return 1;
    }
    ghost var g0 := g.Value();
    var vcount := g.n;
    var vertices, ssize := CollectTargets(g, t);
    if ssize > 0 {
      TargetsUpToMembers(g0, t, vcount);
      g.AddVertices(1);
      var edges := LinkVector(vertices, ssize, t, vcount);
      ghost var links := Links(Targets(g0, t), t, vcount);
      forall i | 0 <= i < |links|
        ensures links[i].src < g.n && links[i].dst < g.n
      {
        assert Targets(g0, t)[i] in Targets(g0, t);
      }
      g.AddEdges(Pairs(edges[..]));
    }
    err := 0;
  }

  /** `ggen_transform_delete(g, t)`: collect the targets, then delete them all at once. A NULL
      graph is refused with 1. */
  method TransformDelete(g: IGraph?, t: Transform) returns (err: int)
    modifies g
    ensures g == null ==> err == 1
    ensures g != null ==> err == 0 && g.Value() == Removed(old(g.Value()), t)
  {
    if g == null {
      return 1;
    }
    ghost var g0 := g.Value();
    var vertices, ssize := CollectTargets(g, t);
    if ssize > 0 {
      var kept := vertices[..ssize];
      g.DeleteVertices(set v | v in kept);
      assert (set v | v in kept) == TargetSet(g0, t);
    }
    err := 0;
  }

  /** After an addition with at least one target, the new vertex is the only source (SOURCE)
      or the only sink (SINK): every other vertex has an edge from (to) another vertex. The
      graph stays well formed. */
  lemma AddedUnique(g: Digraph, t: Transform)
    requires WellFormed(g) && Targets(g, t) != []
    ensures WellFormed(Added(g, t)) && Added(g, t).n == g.n + 1
    ensures forall v: nat | v < g.n + 1 :: Degree(Added(g, t).edges, t, v) == 0 <==> v == g.n
    ensures forall v: nat | v < g.n :: Attached(Added(g, t).edges, t, v)
  {
    var ts := Targets(g, t);
    var links := Links(ts, t, g.n);
    TargetsUpToMembers(g, t, g.n);
    forall i | 0 <= i < |ts|
      ensures links[i].src <= g.n && links[i].dst <= g.n && ts[i] < g.n
    {
      assert ts[i] in ts;
    }
    forall v: nat | v < g.n + 1
      ensures Degree(g.edges + links, t, v) == 0 <==> v == g.n
    {
      DegreeAppend(g.edges, links, t, v);
      DegreeZero(g.edges, t, v);
      DegreeZero(links, t, v);
      if v < g.n && Degree(g.edges, t, v) == 0 {
        assert v in ts;
        var i :| 0 <= i < |ts| && ts[i] == v;
        assert links[i] in links;
      }
    }
    forall v: nat | v < g.n
      ensures Attached(g.edges + links, t, v)
    {
      DegreeZero(g.edges + links, t, v);
    }
  }

  /** Every removed vertex had degree 0 and every kept vertex keeps its relative order: the
      graph has |targets| fewer vertices. */
  lemma {:induction false} KeptCount(g: Digraph, t: Transform, k: nat)
    requires k <= g.n
    ensures Kept(TargetSet(g, t), k) + |TargetsUpTo(g, t, k)| == k
  {
    if k > 0 {
      KeptCount(g, t, k - 1);
      TargetsUpToMembers(g, t, g.n);
    }
  }

  lemma {:induction false} KeptMonotone(del: set<nat>, u: nat, v: nat)
    requires u < v && u !in del
    ensures Kept(del, u) < Kept(del, v)
  {
    if v > u + 1 {
      KeptMonotone(del, u, v - 1);
    }
  }

  /** An edge survives a deletion, renumbered, exactly when neither endpoint is deleted. */
  lemma {:induction false} KeptEdgesExactly(es: seq<Edge>, del: set<nat>)
    ensures forall e | e in es && e.src !in del && e.dst !in del ::
      Edge(Kept(del, e.src), Kept(del, e.dst)) in KeptEdges(es, del)
    ensures forall f | f in KeptEdges(es, del) :: exists e | e in es ::
      e.src !in del && e.dst !in del && f == Edge(Kept(del, e.src), Kept(del, e.dst))
  {
    if es != [] {
      KeptEdgesExactly(es[1..], del);
      assert forall e | e in es :: e == es[0] || e in es[1..];
    }
  }

  /** Deleting every source (sink) removes exactly those vertices and their edges; what is left
      is well formed. */
  lemma RemovedShape(g: Digraph, t: Transform)
    requires WellFormed(g)
    ensures Removed(g, t).n == g.n - |Targets(g, t)|
    ensures WellFormed(Removed(g, t))
  {
    KeptCount(g, t, g.n);
    var del := TargetSet(g, t);
    if Targets(g, t) != [] {
      KeptEdgesExactly(g.edges, del);
      forall f | f in KeptEdges(g.edges, del)
        ensures f.src < Kept(del, g.n) && f.dst < Kept(del, g.n)
      {
        var e :| e in g.edges && e.src !in del && e.dst !in del
                 && f == Edge(Kept(del, e.src), Kept(del, e.dst));
        KeptMonotone(del, e.src, g.n);
        KeptMonotone(del, e.dst, g.n);
      }
    }
  }

  /** On 0→1, 0→2, 1→2, 3→1, deleting the sources 0 and 3 leaves 2 vertices and the edge 1→2,
      renumbered 0→1. */
  lemma DeleteSourcesExample()
    ensures Removed(Digraph(4, [Edge(0, 1), Edge(0, 2), Edge(1, 2), Edge(3, 1)]), TransformSource)
         == Digraph(2, [Edge(0, 1)])
  {
    var g := Digraph(4, [Edge(0, 1), Edge(0, 2), Edge(1, 2), Edge(3, 1)]);
    assert Targets(g, TransformSource) == [0, 3];
    var del := set v | v in [0, 3];
    assert del == {0, 3};
    assert Kept(del, 1) == 0 && Kept(del, 2) == 1 && Kept(del, 4) == 2;
  }

  /** On 0→1, 0→2, 1→2, 1→3, deleting the sinks 2 and 3 leaves 2 vertices and the edge 0→1. */
  lemma DeleteSinksExample()
    ensures Removed(Digraph(4, [Edge(0, 1), Edge(0, 2), Edge(1, 2), Edge(1, 3)]), TransformSink)
         == Digraph(2, [Edge(0, 1)])
  {
    var g := Digraph(4, [Edge(0, 1), Edge(0, 2), Edge(1, 2), Edge(1, 3)]);
    assert Targets(g, TransformSink) == [2, 3];
    var del := set v | v in [2, 3];
    assert del == {2, 3};
    assert Kept(del, 2) == 2 && Kept(del, 3) == 2 && Kept(del, 4) == 2;
  }

  /** A vertex whose only in-edge is a self-loop is a source: on the loop 0→0, adding gives the
      new vertex 1 and the edge 1→0, and deleting removes vertex 0 with its loop. */
  lemma SelfLoopExample()
    ensures Added(Digraph(1, [Edge(0, 0)]), TransformSource) == Digraph(2, [Edge(0, 0), Edge(1, 0)])
    ensures Removed(Digraph(1, [Edge(0, 0)]), TransformSource) == Digraph(0, [])
  {
    var g := Digraph(1, [Edge(0, 0)]);
    assert Targets(g, TransformSource) == [0];
    var del := set v | v in [0];
    assert del == {0};
    assert Kept(del, 1) == 0;
  }
}
