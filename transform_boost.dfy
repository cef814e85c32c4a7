/** The Boost transformations of src/graph-transformation.cpp: give a graph a single source (or
    sink) by adding a dummy vertex when it has several, or remove every source (or sink) the
    graph had on entry. */
module TransformBoost {
  import opened Common
  import opened BoostGraph
  import GT = GraphTransform

  /** Boost's `in_degree` (SOURCE) or `out_degree` (SINK), which count a self-loop. */
  function Degree(es: seq<Edge>, t: GT.Transform, v: nat): nat
  {
    if t == GT.TransformSource then InDegree(es, v) else OutDegree(es, v)
  }

  /** The vertices of vs whose in-degree (SOURCE) or out-degree (SINK) is 0, in list order. */
  function Targets(vs: seq<nat>, es: seq<Edge>, t: GT.Transform): (r: seq<nat>)
    ensures |r| <= |vs|
  {
    if vs == [] then []
    else
      Targets(vs[..|vs| - 1], es, t)
      + (if Degree(es, t, vs[|vs| - 1]) == 0 then [vs[|vs| - 1]] else [])
  }

  /** The targets are exactly the listed vertices of degree 0, in list order, each once. */
  lemma {:induction false} TargetsMembers(vs: seq<nat>, es: seq<Edge>, t: GT.Transform)
    requires Distinct(vs)
    ensures forall v :: v in Targets(vs, es, t) <==> v in vs && Degree(es, t, v) == 0
    ensures Distinct(Targets(vs, es, t))
  {
    if vs != [] {
      var init := vs[..|vs| - 1];
      var last := vs[|vs| - 1];
      TargetsMembers(init, es, t);
      assert vs == init + [last];
      assert last !in init by {
        assert forall j | 0 <= j < |init| :: init[j] == vs[j];
      }
      var prev := Targets(init, es, t);
      var tail: seq<nat> := if Degree(es, t, last) == 0 then [last] else [];
      assert Targets(vs, es, t) == prev + tail;
    }
  }

  /** The first loop of each function: walk the vertex list and keep the degree-0 vertices. */
  method CollectTargets(g: Graph, t: GT.Transform) returns (ts: seq<nat>)
    ensures ts == Targets(g.vs, g.es, t)
  {
    var vs := g.vs;
    ts := [];
    for i := 0 to |vs|
      invariant ts == Targets(vs[..i], g.es, t)
    {
      assert vs[..i + 1][..i] == vs[..i];
      if (t == GT.TransformSource && InDegree(g.es, vs[i]) == 0)
         || (t == GT.TransformSink && OutDegree(g.es, vs[i]) == 0) {
        ts := ts + [vs[i]];
      }
    }
    assert vs[..|vs|] == vs;
  }

  /** Both dummy functions: with more than one target, add a vertex named `name` and link it
      to every target, from it for SOURCE and to it for SINK; otherwise change nothing. */
  method AddDummy(g: Graph, t: GT.Transform, name: string)
    requires g.Inv()
    modifies g
    ensures g.Inv()
    ensures |Targets(old(g.vs), old(g.es), t)| <= 1 ==>
      g.vs == old(g.vs) && g.es == old(g.es) && g.nodeId == old(g.nodeId)
    ensures |Targets(old(g.vs), old(g.es), t)| > 1 ==>
      (|g.vs| == |old(g.vs)| + 1 && g.vs[..|old(g.vs)|] == old(g.vs)
       && g.vs[|old(g.vs)|] !in old(g.vs)
       && g.es == old(g.es) + GT.Links(Targets(old(g.vs), old(g.es), t), t, g.vs[|old(g.vs)|])
       && g.nodeId == old(g.nodeId)[g.vs[|old(g.vs)|] := name])
  {
    var ts := CollectTargets(g, t);
    if |ts| > 1 {
      TargetsListed(g.Value(), t, g.next);
      var v := g.AddVertex();
      g.PutNodeId(v, name);
      LinkTargets(g, ts, t, v);
    }
  }

  /** The second loop of the dummy functions: one edge between v and each vertex of ts. */
  method LinkTargets(g: Graph, ts: seq<nat>, t: GT.Transform, v: nat)
    requires g.Inv() && v in g.vs && forall k | 0 <= k < |ts| :: ts[k] in g.vs
    modifies g
    ensures g.Inv() && g.vs == old(g.vs) && g.nodeId == old(g.nodeId)
    ensures g.es == old(g.es) + GT.Links(ts, t, v)
  {
    for i := 0 to |ts|
      invariant g.Inv() && g.vs == old(g.vs) && g.nodeId == old(g.nodeId)
      invariant g.es == old(g.es) + GT.Links(ts[..i], t, v)
    {
      assert ts[..i + 1] == ts[..i] + [ts[i]];
      GT.LinksSnoc(ts[..i], ts[i], t, v);
      if t == GT.TransformSource {
        g.AddEdge(v, ts[i]);
      } else {
        g.AddEdge(ts[i], v);
      }
    }
    assert ts[..|ts|] == ts;
  }

  /** `add_dummy_source(g, dp, name)`. */
  method AddDummySource(g: Graph, name: string)
    requires g.Inv()
    modifies g
    ensures g.Inv()
    ensures |Targets(old(g.vs), old(g.es), GT.TransformSource)| <= 1 ==>
      g.vs == old(g.vs) && g.es == old(g.es) && g.nodeId == old(g.nodeId)
    ensures |Targets(old(g.vs), old(g.es), GT.TransformSource)| > 1 ==>
      (|g.vs| == |old(g.vs)| + 1 && g.vs[..|old(g.vs)|] == old(g.vs)
       && g.vs[|old(g.vs)|] !in old(g.vs)
       && g.es == old(g.es) + GT.Links(Targets(old(g.vs), old(g.es), GT.TransformSource),
                                       GT.TransformSource, g.vs[|old(g.vs)|])
       && g.nodeId == old(g.nodeId)[g.vs[|old(g.vs)|] := name])
  {
    AddDummy(g, GT.TransformSource, name);
  }

  /** `add_dummy_sink(g, dp, name)`. */
  method AddDummySink(g: Graph, name: string)
    requires g.Inv()
    modifies g
    ensures g.Inv()
    ensures |Targets(old(g.vs), old(g.es), GT.TransformSink)| <= 1 ==>
      g.vs == old(g.vs) && g.es == old(g.es) && g.nodeId == old(g.nodeId)
    ensures |Targets(old(g.vs), old(g.es), GT.TransformSink)| > 1 ==>
      (|g.vs| == |old(g.vs)| + 1 && g.vs[..|old(g.vs)|] == old(g.vs)
       && g.vs[|old(g.vs)|] !in old(g.vs)
       && g.es == old(g.es) + GT.Links(Targets(old(g.vs), old(g.es), GT.TransformSink),
                                       GT.TransformSink, g.vs[|old(g.vs)|])
       && g.nodeId == old(g.nodeId)[g.vs[|old(g.vs)|] := name])
  {
    AddDummy(g, GT.TransformSink, name);
  }

  /** The targets of a valid graph are listed vertices, none of them a fresh id. */
  lemma TargetsListed(g: BGraph, t: GT.Transform, nv: nat)
    requires Valid(g) && nv !in g.vs
    ensures forall i | 0 <= i < |Targets(g.vs, g.es, t)| ::
      Targets(g.vs, g.es, t)[i] in g.vs && Targets(g.vs, g.es, t)[i] != nv
  {
    TargetsMembers(g.vs, g.es, t);
    var ts := Targets(g.vs, g.es, t);
    assert forall i | 0 <= i < |ts| :: ts[i] in ts;
  }

  /** Linking the dummy vertex: it has degree 0, and every other listed vertex has not. */
  lemma DummyDegree(g: BGraph, t: GT.Transform, nv: nat, v: nat)
    requires Valid(g) && nv !in g.vs && v in g.vs + [nv]
    ensures Degree(g.es + GT.Links(Targets(g.vs, g.es, t), t, nv), t, v) == 0 <==> v == nv
  {
    var ts := Targets(g.vs, g.es, t);
    var links := GT.Links(ts, t, nv);
    TargetsListed(g, t, nv);
    if t == GT.TransformSource {
      InDegreeAppend(g.es, links, v);
      InDegreeZero(g.es, v);
      InDegreeZero(links, v);
    } else {
      OutDegreeAppend(g.es, links, v);
      OutDegreeZero(g.es, v);
      OutDegreeZero(links, v);
    }
    if v != nv && Degree(g.es, t, v) == 0 {
      TargetsMembers(g.vs, g.es, t);
      var i :| 0 <= i < |ts| && ts[i] == v;
      assert links[i] in links;
    }
  }

  /** Linking the dummy vertex keeps the graph valid. */
  lemma DummyValid(g: BGraph, t: GT.Transform, nv: nat)
    requires Valid(g) && nv !in g.vs
    ensures Valid(BGraph(g.vs + [nv], g.es + GT.Links(Targets(g.vs, g.es, t), t, nv)))
  {
    var links := GT.Links(Targets(g.vs, g.es, t), t, nv);
    var vs := g.vs + [nv];
    TargetsListed(g, t, nv);
    assert Distinct(vs) by {
      assert forall j | 0 <= j < |g.vs| :: vs[j] == g.vs[j] && g.vs[j] in g.vs;
    }
    assert forall i | 0 <= i < |links| :: links[i].src in vs && links[i].dst in vs;
  }

  /** After the dummy vertex nv is linked to every target of a valid graph, nv is its only
      target: the graph has a single source (SOURCE) or a single sink (SINK). */
  lemma DummyOnlyTarget(g: BGraph, t: GT.Transform, nv: nat)
    requires Valid(g) && nv !in g.vs
    ensures Targets(g.vs + [nv], g.es + GT.Links(Targets(g.vs, g.es, t), t, nv), t) == [nv]
  {
    var es := g.es + GT.Links(Targets(g.vs, g.es, t), t, nv);
    forall v | v in g.vs
      ensures v !in Targets(g.vs, es, t)
    {
      DummyDegree(g, t, nv, v);
      TargetsMembers(g.vs, es, t);
    }
    assert Targets(g.vs, es, t) == [] by {
      if Targets(g.vs, es, t) != [] {
        assert Targets(g.vs, es, t)[0] in Targets(g.vs, es, t);
        TargetsMembers(g.vs, es, t);
      }
    }
    DummyDegree(g, t, nv, nv);
    assert (g.vs + [nv])[..|g.vs|] == g.vs;
  }

  /** The k-th target is a listed vertex that does not occur before position k. */
  lemma TargetAt(vs: seq<nat>, es: seq<Edge>, t: GT.Transform, k: nat)
    requires Distinct(vs) && k < |Targets(vs, es, t)|
    ensures Targets(vs, es, t)[k] in vs && Targets(vs, es, t)[k] !in Targets(vs, es, t)[..k]
    ensures Targets(vs, es, t)[..k + 1] == Targets(vs, es, t)[..k] + [Targets(vs, es, t)[k]]
  {
    var ts := Targets(vs, es, t);
    TargetsMembers(vs, es, t);
    assert ts[k] in ts;
  }

  /** One step of the removal loop: clear and remove v, which is still listed. */
  method RemoveOne(g: Graph, ghost vs0: seq<nat>, ghost es0: seq<Edge>, ghost done: seq<nat>, v: nat)
    requires g.Inv() && g.vs == Without(vs0, done) && g.es == Untouched(es0, done)
    requires v in vs0 && v !in done
    modifies g
    ensures g.Inv() && g.nodeId == old(g.nodeId)
    ensures g.vs == Without(vs0, done + [v]) && g.es == Untouched(es0, done + [v])
  {
    WithoutMembers(vs0, done);
    WithoutTwice(vs0, done, [v]);
    UntouchedTwice(es0, done, v);
    g.ClearVertex(v);
    g.RemoveVertex(v);
  }

  /** Both removal functions: collect the targets first, then clear and remove each one; a
      vertex that only becomes a target during the removals stays. */
  method RemoveTargets(g: Graph, t: GT.Transform)
    requires g.Inv()
    modifies g
    ensures g.Inv()
    ensures g.vs == Without(old(g.vs), Targets(old(g.vs), old(g.es), t))
    ensures g.es == Untouched(old(g.es), Targets(old(g.vs), old(g.es), t))
    ensures g.nodeId == old(g.nodeId)
  {
    ghost var vs0, es0 := g.vs, g.es;
    var ts := CollectTargets(g, t);
    WithoutNone(vs0);
    UntouchedNone(es0);
    for i := 0 to |ts|
      invariant g.Inv() && g.nodeId == old(g.nodeId)
      invariant g.vs == Without(vs0, ts[..i]) && g.es == Untouched(es0, ts[..i])
    {
      TargetAt(vs0, es0, t, i);
      RemoveOne(g, vs0, es0, ts[..i], ts[i]);
    }
    assert ts[..|ts|] == ts;
  }

  /** `remove_sources(g)`. */
  method RemoveSources(g: Graph)
    requires g.Inv()
    modifies g
    ensures g.Inv()
    ensures g.vs == Without(old(g.vs), Targets(old(g.vs), old(g.es), GT.TransformSource))
    ensures g.es == Untouched(old(g.es), Targets(old(g.vs), old(g.es), GT.TransformSource))
    ensures g.nodeId == old(g.nodeId)
  {
    RemoveTargets(g, GT.TransformSource);
  }

  /** `remove_sinks(g)`. */
  method RemoveSinks(g: Graph)
    requires g.Inv()
    modifies g
    ensures g.Inv()
    ensures g.vs == Without(old(g.vs), Targets(old(g.vs), old(g.es), GT.TransformSink))
    ensures g.es == Untouched(old(g.es), Targets(old(g.vs), old(g.es), GT.TransformSink))
    ensures g.nodeId == old(g.nodeId)
  {
    RemoveTargets(g, GT.TransformSink);
  }

  /** What a removal leaves: exactly the vertices that had positive degree on entry, still in
      list order, and exactly the edges between two of them; the result is a valid graph. */
  lemma RemovedExactly(g: BGraph, t: GT.Transform)
    requires Valid(g)
    ensures forall v :: v in Without(g.vs, Targets(g.vs, g.es, t)) <==>
      v in g.vs && Degree(g.es, t, v) != 0
    ensures forall e :: e in Untouched(g.es, Targets(g.vs, g.es, t)) <==>
      e in g.es && Degree(g.es, t, e.src) != 0 && Degree(g.es, t, e.dst) != 0
    ensures Valid(BGraph(Without(g.vs, Targets(g.vs, g.es, t)), Untouched(g.es, Targets(g.vs, g.es, t))))
  {
    var ts := Targets(g.vs, g.es, t);
    TargetsMembers(g.vs, g.es, t);
    WithoutMembers(g.vs, ts);
    UntouchedMembers(g.es, ts);
    WithoutDistinct(g.vs, ts);
  }

  /** On the chain 0→1→2, removing the sources removes only 0: vertex 1 is left as the new
      source, with the edge 1→2. */
  lemma ChainSourcesExample()
    ensures Without([0, 1, 2], Targets([0, 1, 2], [Edge(0, 1), Edge(1, 2)], GT.TransformSource)) == [1, 2]
    ensures Untouched([Edge(0, 1), Edge(1, 2)],
                      Targets([0, 1, 2], [Edge(0, 1), Edge(1, 2)], GT.TransformSource)) == [Edge(1, 2)]
  {
    var vs: seq<nat> := [0, 1, 2];
    var es := [Edge(0, 1), Edge(1, 2)];
    assert vs[..2] == [0, 1] && vs[..2][..1] == [0] && [0][..0] == [];
    assert Targets(vs, es, GT.TransformSource) == [0];
  }

  /** Removing the sinks of the same chain removes only 2. */
  lemma ChainSinksExample()
    ensures Without([0, 1, 2], Targets([0, 1, 2], [Edge(0, 1), Edge(1, 2)], GT.TransformSink)) == [0, 1]
  {
    var vs: seq<nat> := [0, 1, 2];
    var es := [Edge(0, 1), Edge(1, 2)];
    assert vs[..2] == [0, 1] && vs[..2][..1] == [0] && [0][..0] == [];
    assert Targets(vs, es, GT.TransformSink) == [2];
  }
}
