/** The Boost graph of src/ggen.hpp: `adjacency_list<listS, listS, bidirectionalS, ...>`. With
    list storage a vertex descriptor stays valid until its own vertex is removed and nothing is
    renumbered, so a vertex is an opaque id kept in a list, in insertion order. The dynamic
    property `node_id` names the vertices. */
module BoostGraph {
  import opened Common

  /** A graph value: the vertex list, in iteration order, and the edge list, in insertion order
      (the out-edges and in-edges of a vertex are listed in that same order). */
  datatype BGraph = BGraph(vs: seq<nat>, es: seq<Edge>)

  /** No descriptor is listed twice and every edge joins two listed vertices. */
  ghost predicate Valid(g: BGraph) {
    Distinct(g.vs) && forall e | e in g.es :: e.src in g.vs && e.dst in g.vs
  }

  /** The edges that touch no vertex of del, in order. */
  function Untouched(es: seq<Edge>, del: seq<nat>): (r: seq<Edge>)
    ensures |r| <= |es|
  {
    if es == [] then []
    else (if es[0].src in del || es[0].dst in del then [] else [es[0]]) + Untouched(es[1..], del)
  }

  lemma {:induction false} UntouchedMembers(es: seq<Edge>, del: seq<nat>)
    ensures forall e :: e in Untouched(es, del) <==> e in es && e.src !in del && e.dst !in del
  {
    if es != [] {
      UntouchedMembers(es[1..], del);
      assert es == [es[0]] + es[1..];
    }
  }

  lemma {:induction false} UntouchedAppend(a: seq<Edge>, b: seq<Edge>, del: seq<nat>)
    ensures Untouched(a + b, del) == Untouched(a, del) + Untouched(b, del)
  {
    if a != [] {
      assert (a + b)[1..] == a[1..] + b;
      UntouchedAppend(a[1..], b, del);
    } else {
      assert a + b == b;
    }
  }

  /** Clearing the vertices of del and then v is clearing `del + [v]`. */
  lemma {:induction false} UntouchedTwice(es: seq<Edge>, del: seq<nat>, v: nat)
    ensures Untouched(Untouched(es, del), [v]) == Untouched(es, del + [v])
  {
    if es != [] {
      UntouchedTwice(es[1..], del, v);
      var head: seq<Edge> := if es[0].src in del || es[0].dst in del then [] else [es[0]];
      UntouchedAppend(head, Untouched(es[1..], del), [v]);
    }
  }

  lemma {:induction false} UntouchedNone(es: seq<Edge>)
    ensures Untouched(es, []) == es
  {
    if es != [] {
      UntouchedNone(es[1..]);
    }
  }

  /** A mutable `Graph` with its `node_id` property map. `next` stands for the allocator: every
      descriptor handed out so far is below it. */
  class Graph {
    var vs: seq<nat>
    var es: seq<Edge>
    var nodeId: map<nat, string>
    var next: nat

    function Value(): BGraph
      reads this
    {
      BGraph(vs, es)
    }

    ghost predicate Inv()
      reads this
    {
      Valid(Value()) && forall u | u in vs :: u < next
    }

    /** An empty graph. */
    constructor ()
      ensures Inv() && vs == [] && es == [] && nodeId == map[]
    {
      vs, es, nodeId, next := [], [], map[], 0;
    }

    /** `add_vertex(g)`: a fresh descriptor at the end of the vertex list. */
    method AddVertex() returns (v: nat)
      requires Inv()
      modifies this
      ensures Inv() && v !in old(vs) && vs == old(vs) + [v]
      ensures es == old(es) && nodeId == old(nodeId)
    {
      v := next;
      assert v !in vs;
      vs := vs + [v];
      next := next + 1;
    }

    /** `add_edge(a, b, g)`: parallel edges are allowed (list storage). */
    method AddEdge(a: nat, b: nat)
      requires Inv() && a in vs && b in vs
      modifies this
      ensures Inv() && vs == old(vs) && es == old(es) + [Edge(a, b)] && nodeId == old(nodeId)
    {
      es := es + [Edge(a, b)];
    }

    /** `put("node_id", dp, v, name)`. */
    method PutNodeId(v: nat, name: string)
      modifies this
      ensures nodeId == old(nodeId)[v := name] && vs == old(vs) && es == old(es) && next == old(next)
    {
      nodeId := nodeId[v := name];
    }

    /** `clear_vertex(v, g)`: every edge into or out of v goes. */
    method ClearVertex(v: nat)
      requires Inv()
      modifies this
      ensures Inv() && vs == old(vs) && es == Untouched(old(es), [v]) && nodeId == old(nodeId)
      ensures forall e | e in es :: e.src != v && e.dst != v
    {
      UntouchedMembers(es, [v]);
      es := Untouched(es, [v]);
    }

    /** `remove_vertex(v, g)`, which Boost allows only on a vertex without edges. The other
        descriptors stay as they were. */
    method RemoveVertex(v: nat)
      requires Inv() && v in vs && forall e | e in es :: e.src != v && e.dst != v
      modifies this
      ensures Inv() && vs == Without(old(vs), [v]) && es == old(es) && nodeId == old(nodeId)
    {
      WithoutMembers(vs, [v]);
      WithoutDistinct(vs, [v]);
      vs := Without(vs, [v]);
    }
  }

  /** The `ggen_rvm_stupid` result: `save(key, value)` stores `map[key] = value`. */
  class VertexMap {
    var entries: map<nat, string>

    constructor ()
      ensures entries == map[]
    {
      entries := map[];
    }

    method Save(key: nat, value: string)
      modifies this
      ensures entries == old(entries)[key := value]
    {
      entries := entries[key := value];
    }
  }

  /** The `ggen_rp_stupid` result: `save(path)` appends a path. */
  class PathList {
    var paths: seq<seq<nat>>

    constructor ()
      ensures paths == []
    {
      paths := [];
    }

    method Save(path: seq<nat>)
      modifies this
      ensures paths == old(paths) + [path]
    {
      paths := paths + [path];
    }
  }

  /** The `ggen_rvs_stupid` result: `save(set)` appends a vertex set. */
  class SetList {
    var sets: seq<set<nat>>

    constructor ()
      ensures sets == []
    {
      sets := [];
    }

    method Save(s: set<nat>)
      modifies this
      ensures sets == old(sets) + [s]
    {
      sets := sets + [s];
    }
  }
}
