/** The Boost analyses of src/graph-analysis.cpp: degree maps, the vertices per layer, the
    longest path, the branch-and-bound search for an independent set and the maximal paths.
    The graph is read only; every analysis hands what it finds to a result saver. */
module AnalysisBoost {
  import opened Common
  import opened BoostGraph

  // ---------------------------------------------------------------------------------------
  // lexical_cast<std::string> of a degree

  function Digit(d: nat): char
    requires d < 10
  {
    ('0' as int + d) as char
  }

  /** The decimal form of n, without leading zeros. */
  function Decimal(n: nat): (s: string)
    ensures |s| >= 1
  {
    if n < 10 then [Digit(n)] else Decimal(n / 10) + [Digit(n % 10)]
  }

  ghost predicate IsDigits(s: string) {
    forall k | 0 <= k < |s| :: '0' <= s[k] <= '9'
  }

  /** The value of a string of decimal digits. */
  function Parse(s: string): nat
    requires IsDigits(s)
  {
    if s == [] then 0 else Parse(s[..|s| - 1]) * 10 + (s[|s| - 1] as int - '0' as int)
  }

  /** The decimal form of n is a string of digits, with no leading zero unless n is 0, that
      reads back as n. */
  lemma {:induction false} DecimalRoundTrip(n: nat)
    ensures IsDigits(Decimal(n)) && Parse(Decimal(n)) == n
    ensures Decimal(n)[0] == '0' <==> n == 0
  {
    if n >= 10 {
      DecimalRoundTrip(n / 10);
      var s := Decimal(n);
      assert s[..|s| - 1] == Decimal(n / 10);
    }
  }

  // ---------------------------------------------------------------------------------------
  // out_degree, in_degree

  datatype Direction = In | Out

  function Degree(es: seq<Edge>, d: Direction, v: nat): nat
  {
    if d == In then InDegree(es, v) else OutDegree(es, v)
  }

  /** The entries the degree analyses save: each listed vertex with its degree as a string. */
  function DegreeStrings(vs: seq<nat>, es: seq<Edge>, d: Direction): map<nat, string>
  {
    if vs == [] then map[]
    else DegreeStrings(vs[..|vs| - 1], es, d)[vs[|vs| - 1] := Decimal(Degree(es, d, vs[|vs| - 1]))]
  }

  /** The degree map has exactly one entry per vertex, and that entry reads back as the
      vertex's degree. */
  lemma {:induction false} DegreeStringsFacts(vs: seq<nat>, es: seq<Edge>, d: Direction)
    ensures forall v :: v in DegreeStrings(vs, es, d) <==> v in vs
    ensures forall v | v in vs ::
      IsDigits(DegreeStrings(vs, es, d)[v]) && Parse(DegreeStrings(vs, es, d)[v]) == Degree(es, d, v)
  {
    if vs != [] {
      var init := vs[..|vs| - 1];
      DegreeStringsFacts(init, es, d);
      DecimalRoundTrip(Degree(es, d, vs[|vs| - 1]));
      assert vs == init + [vs[|vs| - 1]];
    }
  }

  lemma UpdateUnion(a: map<nat, string>, b: map<nat, string>, k: nat, v: string)
    ensures (a + b)[k := v] == a + b[k := v]
  {
  }

  /** The loop of both degree analyses: save every vertex with its degree. */
  method SaveDegrees(g: BGraph, d: Direction, r: VertexMap)
    modifies r
    ensures r.entries == old(r.entries) + DegreeStrings(g.vs, g.es, d)
  {
    var vs := g.vs;
    for i := 0 to |vs|
      invariant r.entries == old(r.entries) + DegreeStrings(vs[..i], g.es, d)
    {
      ghost var m := DegreeStrings(vs[..i], g.es, d);
      r.Save(vs[i], Decimal(if d == In then InDegree(g.es, vs[i]) else OutDegree(g.es, vs[i])));
      assert vs[..i + 1][..i] == vs[..i];
      UpdateUnion(old(r.entries), m, vs[i], Decimal(Degree(g.es, d, vs[i])));
    }
    assert vs[..|vs|] == vs;
  }

  /** `out_degree(r, g, properties)`. */
  method OutDegreeMap(g: BGraph, r: VertexMap)
    modifies r
    ensures r.entries == old(r.entries) + DegreeStrings(g.vs, g.es, Out)
  {
    SaveDegrees(g, Out, r);
  }

  /** `in_degree(r, g, properties)`. */
  method InDegreeMap(g: BGraph, r: VertexMap)
    modifies r
    ensures r.entries == old(r.entries) + DegreeStrings(g.vs, g.es, In)
  {
    SaveDegrees(g, In, r);
  }

  // ---------------------------------------------------------------------------------------
  // nodes_per_layer

  /** Every predecessor of w is in done. */
  ghost predicate Ready(es: seq<Edge>, w: nat, done: set<nat>) {
    forall p | Edge(p, w) in es :: p in done
  }

  /** The vertices of in-degree 0. */
  ghost function Sources(g: BGraph): set<nat> {
    set v | v in g.vs && InDegree(g.es, v) == 0
  }

  /** The successors of the current layer whose predecessors are all visited or current. */
  ghost function NextLayer(es: seq<Edge>, visited: set<nat>, cur: set<nat>): set<nat> {
    NextFrom(es, cur, visited + cur)
  }

  /** The successors of the vertices of srcs whose predecessors are all in done. */
  ghost function NextFrom(es: seq<Edge>, srcs: set<nat>, done: set<nat>): set<nat> {
    set e | e in es && e.src in srcs && Ready(es, e.dst, done) :: e.dst
  }

  ghost function Union(ls: seq<set<nat>>): set<nat> {
    if ls == [] then {} else Union(ls[..|ls| - 1]) + ls[|ls| - 1]
  }

  /** The layers saved so far: the sources first, then each layer the successors of the one
      before, every one non-empty. */
  ghost predicate LayerPrefix(g: BGraph, ls: seq<set<nat>>) {
    (ls != [] ==> ls[0] == Sources(g))
    && (forall k | 0 <= k < |ls| :: ls[k] != {})
    && forall k | 0 <= k < |ls| - 1 :: ls[k + 1] == NextLayer(g.es, Union(ls[..k]), ls[k])
  }

  /** The layer that follows ls. */
  ghost function Upcoming(g: BGraph, ls: seq<set<nat>>): set<nat> {
    if ls == [] then Sources(g) else NextLayer(g.es, Union(ls[..|ls| - 1]), ls[|ls| - 1])
  }

  /** What `nodes_per_layer` saves: the layers up to the first empty one. */
  ghost predicate Layering(g: BGraph, ls: seq<set<nat>>) {
    LayerPrefix(g, ls) && Upcoming(g, ls) == {}
  }

  /** The facts behind the layers: no layer meets an earlier one, and each vertex of a layer
      (and of the upcoming one) has every predecessor in an earlier layer. */
  ghost predicate LayerShape(g: BGraph, ls: seq<set<nat>>) {
    var V, C := Union(ls), Upcoming(g, ls);
    (forall u | u in V :: u in g.vs && Ready(g.es, u, V))
    && (forall u | u in C :: u in g.vs && Ready(g.es, u, V))
    && V * C == {}
  }

  lemma ReadyGrows(es: seq<Edge>, w: nat, a: set<nat>, b: set<nat>)
    requires Ready(es, w, a) && a <= b
    ensures Ready(es, w, b)
  {
  }

  lemma SourcesShape(g: BGraph)
    requires Valid(g)
    ensures LayerShape(g, [])
  {
    forall u | u in Sources(g)
      ensures Ready(g.es, u, {})
    {
      InDegreeZero(g.es, u);
    }
  }

  lemma LayerShapeStep(g: BGraph, ls: seq<set<nat>>, ls2: seq<set<nat>>)
    requires Valid(g) && LayerShape(g, ls) && ls2 == ls + [Upcoming(g, ls)]
    ensures LayerShape(g, ls2)
  {
    var V, L := Union(ls), Upcoming(g, ls);
    assert ls2[..|ls2| - 1] == ls;
    assert Union(ls2) == V + L;
    var C := NextLayer(g.es, V, L);
    assert Upcoming(g, ls2) == C;
    forall u | u in V + L
      ensures Ready(g.es, u, V + L)
    {
      ReadyGrows(g.es, u, V, V + L);
    }
    forall u | u in C
      ensures u !in V + L && u in g.vs
    {
      assert C == NextFrom(g.es, L, V + L);
      var e :| e in g.es && e.src in L && Ready(g.es, e.dst, V + L) && e.dst == u;
      assert Edge(e.src, u) == e;
      assert u in V + L ==> Ready(g.es, u, V);
      assert e.src in L && (u in V + L ==> e.src in V);
      assert e.src !in V by {
        assert e.src in V ==> e.src in V * L;
      }
      assert u in g.vs;
    }
  }

  /** Every prefix of the layers is itself a prefix, which the next layer follows. */
  lemma PrefixTake(g: BGraph, ls: seq<set<nat>>, k: nat)
    requires LayerPrefix(g, ls) && k < |ls|
    ensures LayerPrefix(g, ls[..k]) && ls[k] == Upcoming(g, ls[..k])
  {
    var init := ls[..k];
    forall j | 0 <= j < |init| - 1
      ensures init[j + 1] == NextLayer(g.es, Union(init[..j]), init[j])
    {
      assert init[..j] == ls[..j];
    }
    if k > 0 {
      assert init[..k - 1] == ls[..k - 1];
    }
  }

  lemma {:induction false} LayerShapeHolds(g: BGraph, ls: seq<set<nat>>)
    requires Valid(g) && LayerPrefix(g, ls)
    ensures LayerShape(g, ls)
  {
    if ls == [] {
      SourcesShape(g);
    } else {
      var init := ls[..|ls| - 1];
      PrefixTake(g, ls, |ls| - 1);
      LayerShapeHolds(g, init);
      assert ls == init + [ls[|ls| - 1]];
      LayerShapeStep(g, init, ls);
    }
  }

  /** Each later layer starts from the successors of the one before. */
  lemma NextFromHasSource(es: seq<Edge>, srcs: set<nat>, done: set<nat>, u: nat)
    requires u in NextFrom(es, srcs, done)
    ensures exists p :: p in srcs && Edge(p, u) in es
  {
    var e :| e in es && e.src in srcs && Ready(es, e.dst, done) && e.dst == u;
    assert Edge(e.src, u) == e;
  }

  lemma {:induction false} UnionMembers(ls: seq<set<nat>>)
    ensures forall x :: x in Union(ls) <==> exists i :: 0 <= i < |ls| && x in ls[i]
  {
    if ls != [] {
      var init := ls[..|ls| - 1];
      UnionMembers(init);
      assert Union(ls) == Union(init) + ls[|ls| - 1];
      forall x | x in Union(ls)
        ensures exists i :: 0 <= i < |ls| && x in ls[i]
      {
        if x !in ls[|ls| - 1] {
          var i :| 0 <= i < |init| && x in init[i];
          assert x in ls[i];
        }
      }
      forall x, i | 0 <= i < |ls| && x in ls[i]
        ensures x in Union(ls)
      {
        if i < |ls| - 1 {
          assert x in init[i];
        }
      }
    }
  }

  /** Every vertex of layer k is listed and has all its predecessors in the layers before k,
      none of which it belongs to. */
  lemma LayerReady(g: BGraph, ls: seq<set<nat>>)
    requires Valid(g) && LayerPrefix(g, ls)
    ensures forall k | 0 <= k < |ls| ::
      Union(ls[..k]) * ls[k] == {}
      && forall u | u in ls[k] :: u in g.vs && Ready(g.es, u, Union(ls[..k]))
  {
    forall k | 0 <= k < |ls|
      ensures Union(ls[..k]) * ls[k] == {}
      ensures forall u | u in ls[k] :: u in g.vs && Ready(g.es, u, Union(ls[..k]))
    {
      PrefixTake(g, ls, k);
      LayerShapeHolds(g, ls[..k]);
    }
  }

  /** No vertex is saved in two layers. */
  lemma LayersDisjoint(g: BGraph, ls: seq<set<nat>>)
    requires Valid(g) && LayerPrefix(g, ls)
    ensures forall i, j | 0 <= i < j < |ls| :: ls[i] * ls[j] == {}
  {
    LayerReady(g, ls);
    forall i, j | 0 <= i < j < |ls|
      ensures ls[i] * ls[j] == {}
    {
      UnionMembers(ls[..j]);
      assert ls[..j][i] == ls[i];
      assert ls[i] <= Union(ls[..j]);
    }
  }

  /** Every vertex of `layer` has a predecessor in `prev`. */
  ghost predicate Fed(es: seq<Edge>, prev: set<nat>, layer: set<nat>) {
    forall u | u in layer :: exists p :: p in prev && Edge(p, u) in es
  }

  /** Past the first layer, every vertex has a predecessor in the layer just before. */
  lemma LayersFed(g: BGraph, ls: seq<set<nat>>)
    requires LayerPrefix(g, ls)
    ensures forall k | 0 <= k < |ls| - 1 :: Fed(g.es, ls[k], ls[k + 1])
  {
    forall k | 0 <= k < |ls| - 1
      ensures Fed(g.es, ls[k], ls[k + 1])
    {
      var layer, prev := ls[k + 1], ls[k];
      forall u | u in layer
        ensures exists p :: p in prev && Edge(p, u) in g.es
      {
        NextFromHasSource(g.es, ls[k], Union(ls[..k]) + ls[k], u);
      }
    }
  }

  /** The successors among ns whose predecessors are all in done. */
  ghost function ReadyIn(es: seq<Edge>, ns: seq<nat>, done: set<nat>): set<nat> {
    if ns == [] then {}
    else ReadyIn(es, ns[..|ns| - 1], done) + (if Ready(es, ns[|ns| - 1], done) then {ns[|ns| - 1]} else {})
  }

  lemma {:induction false} ReadyInMembers(es: seq<Edge>, ns: seq<nat>, done: set<nat>)
    ensures forall w :: w in ReadyIn(es, ns, done) <==> w in ns && Ready(es, w, done)
  {
    if ns != [] {
      ReadyInMembers(es, ns[..|ns| - 1], done);
      assert ns == ns[..|ns| - 1] + [ns[|ns| - 1]];
    }
  }

  /** Scanning the out-neighbours of c finds the successors of c that are ready. */
  lemma ScanComplete(es: seq<Edge>, c: nat, done: set<nat>)
    ensures ReadyIn(es, OutNeighbors(es, c), done) == NextFrom(es, {c}, done)
  {
    ReadyInMembers(es, OutNeighbors(es, c), done);
    forall w | w in NextFrom(es, {c}, done)
      ensures w in ReadyIn(es, OutNeighbors(es, c), done)
    {
      var e :| e in es && e.src in {c} && Ready(es, e.dst, done) && e.dst == w;
      assert Edge(c, w) == e;
    }
    forall w | w in ReadyIn(es, OutNeighbors(es, c), done)
      ensures w in NextFrom(es, {c}, done)
    {
      assert Edge(c, w) in es;
    }
  }

  lemma NextFromAdd(es: seq<Edge>, srcs: set<nat>, c: nat, done: set<nat>)
    ensures NextFrom(es, srcs + {c}, done) == NextFrom(es, srcs, done) + NextFrom(es, {c}, done)
  {
    forall w | w in NextFrom(es, srcs + {c}, done)
      ensures w in NextFrom(es, srcs, done) + NextFrom(es, {c}, done)
    {
      var e :| e in es && e.src in srcs + {c} && Ready(es, e.dst, done) && e.dst == w;
      if e.src == c {
        assert w in NextFrom(es, {c}, done);
      } else {
        assert w in NextFrom(es, srcs, done);
      }
    }
  }

  /** The first loop: the vertices of in-degree 0. */
  method CollectSources(g: BGraph) returns (src: set<nat>)
    ensures src == Sources(g)
  {
    var vs := g.vs;
    src := {};
    for i := 0 to |vs|
      invariant src == set v | v in vs[..i] && InDegree(g.es, v) == 0
    {
      assert vs[..i + 1] == vs[..i] + [vs[i]];
      if InDegree(g.es, vs[i]) == 0 {
        src := src + {vs[i]};
      }
    }
    assert vs[..|vs|] == vs;
  }

  /** The innermost loop: whether every vertex of ps is visited or current, stopping at the
      first that is neither. */
  method AllSeen(ps: seq<nat>, visited: set<nat>, cur: set<nat>) returns (v: bool)
    ensures v <==> forall k | 0 <= k < |ps| :: ps[k] in visited || ps[k] in cur
  {
    v := true;
    var k := 0;
    while k < |ps|
      invariant k <= |ps| && forall j | 0 <= j < k :: ps[j] in visited || ps[j] in cur
    {
      if ps[k] !in visited && ps[k] !in cur {
        v := false;
        break;
      }
      k := k + 1;
    }
  }

  /** The loop over the out-edges of c: each successor whose predecessors are all visited or
      current joins next. */
  method ScanSuccessors(es: seq<Edge>, c: nat, visited: set<nat>, cur: set<nat>, next0: set<nat>)
    returns (next: set<nat>)
    ensures next == next0 + NextFrom(es, {c}, visited + cur)
  {
    var succs := OutNeighbors(es, c);
    next := next0;
    for j := 0 to |succs|
      invariant next == next0 + ReadyIn(es, succs[..j], visited + cur)
    {
      var suc := succs[j];
      var preds := InNeighbors(es, suc);
      var ok := AllSeen(preds, visited, cur);
      assert ok <==> Ready(es, suc, visited + cur) by {
        assert forall k | 0 <= k < |preds| :: Edge(preds[k], suc) in es by {
          assert forall k | 0 <= k < |preds| :: preds[k] in preds;
        }
        if !ok {
          var k :| 0 <= k < |preds| && preds[k] !in visited && preds[k] !in cur;
          assert Edge(preds[k], suc) in es;
        }
      }
      assert succs[..j + 1][..j] == succs[..j];
      if ok {
        next := next + {suc};
      }
    }
    assert succs[..|succs|] == succs;
    ScanComplete(es, c, visited + cur);
  }

  /** One pass of the main loop over the current layer: visit each of its vertices and gather
      the next layer. */
  method ProcessLayer(es: seq<Edge>, cur: set<nat>, visited0: set<nat>, next0: set<nat>)
    returns (layer: set<nat>, visited: set<nat>, next: set<nat>)
    ensures layer == cur && visited == visited0 + cur
    ensures next == next0 + NextLayer(es, visited0, cur)
  {
    layer, visited, next := {}, visited0, next0;
    var rest := cur;
    while rest != {}
      invariant rest <= cur && layer == cur - rest && visited == visited0 + (cur - rest)
      invariant next == next0 + NextFrom(es, cur - rest, visited0 + cur)
      decreases |rest|
    {
      var c :| c in rest;
      NextFromAdd(es, cur - rest, c, visited0 + cur);
      assert cur - (rest - {c}) == (cur - rest) + {c};
      rest := rest - {c};
      layer := layer + {c};
      visited := visited + {c};
      assert visited + cur == visited0 + cur;
      next := ScanSuccessors(es, c, visited, cur, next);
    }
  }

  /** The main loop adds a non-empty layer disjoint from the visited vertices, all listed. */
  lemma Shrinks(all: set<nat>, visited: set<nat>, cur: set<nat>)
    requires cur != {} && cur <= all && visited * cur == {}
    ensures |all - (visited + cur)| < |all - visited|
  {
    var rest := all - (visited + cur);
    forall y
      ensures y in all - visited <==> y in rest + cur
    {
      if y in cur {
        assert y !in visited by {
          assert y in visited ==> y in visited * cur;
        }
      }
    }
    assert all - visited == rest + cur;
    assert rest * cur == {};
  }

  ghost function Listed(g: BGraph): set<nat> {
    set v | v in g.vs
  }

  /** One turn of the main loop: the layers stay a prefix and fewer listed vertices remain
      unvisited. */
  lemma LayerProgress(g: BGraph, ls: seq<set<nat>>)
    requires Valid(g) && LayerPrefix(g, ls) && Upcoming(g, ls) != {}
    ensures LayerPrefix(g, ls + [Upcoming(g, ls)])
    ensures Union(ls + [Upcoming(g, ls)]) == Union(ls) + Upcoming(g, ls)
    ensures Upcoming(g, ls + [Upcoming(g, ls)]) == NextLayer(g.es, Union(ls), Upcoming(g, ls))
    ensures |Listed(g) - Union(ls + [Upcoming(g, ls)])| < |Listed(g) - Union(ls)|
  {
    LayerShapeHolds(g, ls);
    PrefixStep(g, ls);
    Shrinks(Listed(g), Union(ls), Upcoming(g, ls));
  }

  /** Adding the upcoming layer extends a prefix. */
  lemma PrefixStep(g: BGraph, ls: seq<set<nat>>)
    requires LayerPrefix(g, ls) && Upcoming(g, ls) != {}
    ensures LayerPrefix(g, ls + [Upcoming(g, ls)])
    ensures Union(ls + [Upcoming(g, ls)]) == Union(ls) + Upcoming(g, ls)
    ensures Upcoming(g, ls + [Upcoming(g, ls)]) == NextLayer(g.es, Union(ls), Upcoming(g, ls))
  {
    var ls2 := ls + [Upcoming(g, ls)];
    assert ls2[..|ls|] == ls;
    forall k | 0 <= k < |ls2| - 1
      ensures ls2[k + 1] == NextLayer(g.es, Union(ls2[..k]), ls2[k])
    {
      if k < |ls| - 1 {
        assert ls2[..k] == ls[..k];
      } else {
        assert ls2[..k] == ls[..|ls| - 1];
      }
    }
  }

  lemma SnocAssoc<T>(a: seq<T>, b: seq<T>, x: T)
    ensures a + (b + [x]) == (a + b) + [x]
  {
  }

  /** One turn of the main loop of `nodes_per_layer`: save the current layer, then move on to
      the next one. */
  method LayerTurn(g: BGraph, r: SetList, cur: set<nat>, visited: set<nat>, ghost ls: seq<set<nat>>)
    returns (cur': set<nat>, visited': set<nat>, ghost ls': seq<set<nat>>)
    requires Valid(g) && LayerPrefix(g, ls) && cur == Upcoming(g, ls) && visited == Union(ls) && cur != {}
    modifies r
    ensures ls' == ls + [cur] && r.sets == old(r.sets) + [cur]
    ensures LayerPrefix(g, ls') && cur' == Upcoming(g, ls') && visited' == Union(ls')
    ensures |Listed(g) - visited'| < |Listed(g) - visited|
  {
    var layer, next;
    layer, visited', next := ProcessLayer(g.es, cur, visited, {});
    r.Save(layer);
    ls' := ls + [cur];
    cur' := next;
    LayerProgressTo(g, ls, ls', visited', cur');
    LayerShrinks(g, ls, ls');
  }

  lemma LayerProgressTo(g: BGraph, ls: seq<set<nat>>, ls': seq<set<nat>>, visited': set<nat>,
                        next: set<nat>)
    requires Valid(g) && LayerPrefix(g, ls) && Upcoming(g, ls) != {}
    requires ls' == ls + [Upcoming(g, ls)] && visited' == Union(ls) + Upcoming(g, ls)
    requires next == {} + NextLayer(g.es, Union(ls), Upcoming(g, ls))
    ensures LayerPrefix(g, ls') && next == Upcoming(g, ls') && visited' == Union(ls')
  {
    LayerProgress(g, ls);
  }

  lemma LayerShrinks(g: BGraph, ls: seq<set<nat>>, ls': seq<set<nat>>)
    requires Valid(g) && LayerPrefix(g, ls) && Upcoming(g, ls) != {} && ls' == ls + [Upcoming(g, ls)]
    ensures |Listed(g) - Union(ls')| < |Listed(g) - Union(ls)|
  {
    LayerProgress(g, ls);
  }

  /** `nodes_per_layer(r, g, properties)`: save the sources as the first layer, then each
      layer of successors whose predecessors are all visited, up to the first empty one. */
  method NodesPerLayer(g: BGraph, r: SetList)
    requires Valid(g)
    modifies r
    ensures |r.sets| >= |old(r.sets)| && r.sets[..|old(r.sets)|] == old(r.sets)
    ensures Layering(g, r.sets[|old(r.sets)|..])
  {
    var src := CollectSources(g);
    var cur, visited: set<nat> := src, {};
    ghost var ls: seq<set<nat>> := [];
    while cur != {}
      invariant LayerPrefix(g, ls) && cur == Upcoming(g, ls) && visited == Union(ls)
      invariant r.sets == old(r.sets) + ls
      decreases |Listed(g) - visited|
    {
      ghost var ls0 := ls;
      cur, visited, ls := LayerTurn(g, r, cur, visited, ls);
      SnocAssoc(old(r.sets), ls0, ls[|ls| - 1]);
    }
    assert r.sets[|old(r.sets)|..] == ls;
  }

  // ---------------------------------------------------------------------------------------
  // longest_path

  /** The order in which the main loop of `longest_path` visits the vertices: the reverse of
      the list `topological_sort` writes. Every vertex once, and an edge always goes to a
      later vertex. */
  ghost predicate TopoOrder(g: BGraph, topo: seq<nat>) {
    Distinct(topo)
    && (forall v :: v in topo <==> v in g.vs)
    && forall a, b | 0 <= a < |topo| && 0 <= b < |topo| && Edge(topo[a], topo[b]) in g.es :: a < b
  }

  /** p is a path of g: listed vertices, consecutive ones joined by an edge. */
  ghost predicate IsPath(g: BGraph, p: seq<nat>) {
    (forall k | 0 <= k < |p| :: p[k] in g.vs)
    && forall k | 0 <= k < |p| - 1 :: Edge(p[k], p[k + 1]) in g.es
  }

  /** Every vertex has a length, and every edge out of a processed vertex ends at a vertex at
      least one longer. */
  ghost predicate Relaxed(es: seq<Edge>, lpath: map<nat, nat>, done: seq<nat>) {
    forall e | e in es && e.src in done :: e.src in lpath && e.dst in lpath
      && lpath[e.src] + 1 <= lpath[e.dst]
  }

  /** A vertex with an entry in pmap has a processed predecessor there, one shorter; a vertex
      without one has length 0. */
  ghost predicate Linked(es: seq<Edge>, lpath: map<nat, nat>, pmap: map<nat, nat>, done: seq<nat>) {
    (forall w | w in pmap :: w in lpath && pmap[w] in lpath && pmap[w] in done
       && Edge(pmap[w], w) in es && lpath[w] == lpath[pmap[w]] + 1)
    && forall w | w in lpath && w !in pmap :: lpath[w] == 0
  }

  /** maxv has the largest length. */
  ghost predicate Maximal(lpath: map<nat, nat>, maxv: nat) {
    maxv in lpath && forall x | x in lpath :: lpath[x] <= lpath[maxv]
  }

  /** An edge out of the i-th vertex ends at a later vertex. */
  lemma Later(g: BGraph, topo: seq<nat>, i: nat, w: nat)
    requires TopoOrder(g, topo) && i < |topo| && Edge(topo[i], w) in g.es && w in g.vs
    ensures w in topo && w !in topo[..i + 1] && IndexOf(topo, w) > i
  {
    var b := IndexOf(topo, w);
    assert Edge(topo[i], topo[b]) in g.es;
    forall a | 0 <= a <= i
      ensures topo[a] != w
    {
      assert a != b;
    }
  }

  /** One pass of the innermost loop: relax the edge f→w, where f is being processed and w is
      not processed yet, then move maxv to w if w is now longer. */
  method RelaxEdge(es: seq<Edge>, ghost done: seq<nat>, f: nat, w: nat, lpath0: map<nat, nat>,
                   pmap0: map<nat, nat>, maxv0: nat) returns (lpath: map<nat, nat>, pmap: map<nat, nat>, maxv: nat)
    requires f in lpath0 && w in lpath0 && f in done && w !in done && Edge(f, w) in es
    requires Linked(es, lpath0, pmap0, done) && Maximal(lpath0, maxv0)
    ensures Linked(es, lpath, pmap, done) && Maximal(lpath, maxv)
    ensures w in lpath && lpath == lpath0[w := lpath[w]]
    ensures lpath0[w] <= lpath[w] && lpath0[f] + 1 <= lpath[w]
  {
    lpath, pmap := lpath0, pmap0;
    if lpath[w] < lpath[f] + 1 {
      lpath := lpath[w := lpath[f] + 1];
      pmap := pmap[w := f];
    }
    maxv := maxv0;
    if lpath[w] > lpath[maxv] {
      maxv := w;
    }
  }

  /** Lengths only grow, and those of processed vertices stay as they were. */
  ghost predicate Grown(before: map<nat, nat>, lpath: map<nat, nat>, done: seq<nat>) {
    before.Keys == lpath.Keys
    && (forall x | x in lpath :: before[x] <= lpath[x])
    && forall x | x in done && x in lpath :: lpath[x] == before[x]
  }

  /** The first j out-neighbours of f are at least one longer than f. */
  ghost predicate Covered(lpath: map<nat, nat>, f: nat, ns: seq<nat>, j: nat) {
    f in lpath && j <= |ns| && forall k | 0 <= k < j :: ns[k] in lpath && lpath[f] + 1 <= lpath[ns[k]]
  }

  lemma InnerStep(before: map<nat, nat>, lpath: map<nat, nat>, done: seq<nat>, f: nat, ns: seq<nat>,
                  j: nat, x: nat)
    requires Grown(before, lpath, done) && Covered(lpath, f, ns, j) && j < |ns|
    requires f in done && ns[j] in lpath && ns[j] !in done
    requires lpath[ns[j]] <= x && lpath[f] + 1 <= x
    ensures Grown(before, lpath[ns[j] := x], done) && Covered(lpath[ns[j] := x], f, ns, j + 1)
  {
  }

  lemma RelaxedGrown(es: seq<Edge>, before: map<nat, nat>, lpath: map<nat, nat>, old_done: seq<nat>,
                     done: seq<nat>)
    requires Relaxed(es, before, old_done) && Grown(before, lpath, done)
    requires forall x | x in old_done :: x in done
    ensures Relaxed(es, lpath, old_done)
  {
  }

  lemma CoveredRelaxed(es: seq<Edge>, lpath: map<nat, nat>, done: seq<nat>, f: nat, ns: seq<nat>)
    requires Relaxed(es, lpath, done) && Covered(lpath, f, ns, |ns|)
    requires forall w :: w in ns <==> Edge(f, w) in es
    ensures Relaxed(es, lpath, done + [f])
  {
    forall e | e in es && e.src == f
      ensures e.dst in lpath && lpath[e.src] + 1 <= lpath[e.dst]
    {
      assert e.dst in ns;
    }
  }

  /** The loop over the out-edges of the i-th vertex f: relax each and keep maxv longest. */
  method RelaxFrom(g: BGraph, topo: seq<nat>, i: nat, lpath0: map<nat, nat>, pmap0: map<nat, nat>,
                   maxv0: nat) returns (lpath: map<nat, nat>, pmap: map<nat, nat>, maxv: nat)
    requires Valid(g) && TopoOrder(g, topo) && i < |topo| && lpath0.Keys == Listed(g)
    requires Relaxed(g.es, lpath0, topo[..i]) && Linked(g.es, lpath0, pmap0, topo[..i])
    requires Maximal(lpath0, maxv0)
    ensures lpath.Keys == Listed(g)
    ensures Relaxed(g.es, lpath, topo[..i + 1]) && Linked(g.es, lpath, pmap, topo[..i + 1])
    ensures Maximal(lpath, maxv)
  {
    ghost var done := topo[..i + 1];
    assert done == topo[..i] + [topo[i]];
    var f := topo[i];
    assert f in g.vs;
    var ns := OutNeighbors(g.es, f);
    lpath, pmap, maxv := lpath0, pmap0, maxv0;
    assert forall k | 0 <= k < |ns| :: ns[k] in ns;
    for j := 0 to |ns|
      invariant forall k | 0 <= k < |ns| :: ns[k] in g.vs && Edge(f, ns[k]) in g.es
      invariant Grown(lpath0, lpath, done) && Covered(lpath, f, ns, j)
      invariant Linked(g.es, lpath, pmap, done) && Maximal(lpath, maxv)
    {
      Later(g, topo, i, ns[j]);
      ghost var lpath1 := lpath;
      lpath, pmap, maxv := RelaxEdge(g.es, done, f, ns[j], lpath, pmap, maxv);
      InnerStep(lpath0, lpath1, done, f, ns, j, lpath[ns[j]]);
    }
    RelaxedGrown(g.es, lpath0, lpath, topo[..i], done);
    CoveredRelaxed(g.es, lpath, topo[..i], f, ns);
  }

  /** Once every vertex is processed, a path has at most as many edges as the length of the
      vertex it ends at. */
  lemma {:induction false} PathBound(g: BGraph, lpath: map<nat, nat>, topo: seq<nat>, p: seq<nat>)
    requires TopoOrder(g, topo) && Relaxed(g.es, lpath, topo) && lpath.Keys == Listed(g)
    requires IsPath(g, p) && |p| >= 1
    ensures |p| - 1 <= lpath[p[|p| - 1]]
  {
    if |p| > 1 {
      var q := p[..|p| - 1];
      assert IsPath(g, q) by {
        assert forall k | 0 <= k < |q| :: q[k] == p[k];
      }
      PathBound(g, lpath, topo, q);
      assert Edge(p[|p| - 2], p[|p| - 1]) in g.es;
    }
  }

  /** The walk back through pmap from maxv: a path of the graph with as many edges as the
      length of maxv, starting at a vertex without a predecessor entry. */
  method Backtrack(g: BGraph, lpath: map<nat, nat>, pmap: map<nat, nat>, ghost done: seq<nat>,
                   maxv: nat) returns (path: seq<nat>)
    requires Valid(g) && lpath.Keys == Listed(g) && Linked(g.es, lpath, pmap, done) && maxv in lpath
    ensures IsPath(g, path) && |path| >= 1 && path[|path| - 1] == maxv
    ensures |path| - 1 == lpath[maxv] && path[0] !in pmap
  {
    path := [maxv];
    var m := maxv;
    while m in pmap
      invariant m in lpath && IsPath(g, path) && |path| >= 1 && path[0] == m
      invariant path[|path| - 1] == maxv && |path| - 1 + lpath[m] == lpath[maxv]
      decreases lpath[m]
    {
      var s := pmap[m];
      assert s in g.vs;
      path := [s] + path;
      m := s;
    }
  }

  /** p is as long as a path of g can be, and starts at a vertex without in-edges. */
  ghost predicate Longest(g: BGraph, p: seq<nat>) {
    IsPath(g, p) && |p| >= 1
    && (forall e | e in g.es :: e.dst != p[0])
    && forall q | IsPath(g, q) :: |q| <= |p|
  }

  /** The first loop of `longest_path`: length 0 for every vertex. */
  method ZeroLengths(g: BGraph) returns (lpath: map<nat, nat>)
    ensures lpath.Keys == Listed(g) && forall v | v in lpath :: lpath[v] == 0
  {
    lpath := map[];
    for k := 0 to |g.vs|
      invariant lpath.Keys == set v | v in g.vs[..k]
      invariant forall v | v in lpath :: lpath[v] == 0
    {
      assert g.vs[..k + 1] == g.vs[..k] + [g.vs[k]];
      lpath := lpath[g.vs[k] := 0];
    }
    assert g.vs[..|g.vs|] == g.vs;
  }

  /** The path read back after the main loop is a longest one. */
  lemma BacktrackLongest(g: BGraph, topo: seq<nat>, lpath: map<nat, nat>, pmap: map<nat, nat>,
                         maxv: nat, path: seq<nat>)
    requires Valid(g) && TopoOrder(g, topo) && lpath.Keys == Listed(g)
    requires Relaxed(g.es, lpath, topo) && Linked(g.es, lpath, pmap, topo) && Maximal(lpath, maxv)
    requires IsPath(g, path) && |path| >= 1 && path[|path| - 1] == maxv
    requires |path| - 1 == lpath[maxv] && path[0] !in pmap
    ensures Longest(g, path)
  {
    forall e | e in g.es
      ensures e.dst != path[0]
    {
      assert e.src in topo;
    }
    forall q | IsPath(g, q)
      ensures |q| <= |path|
    {
      if |q| >= 1 {
        PathBound(g, lpath, topo, q);
      }
    }
  }

  /** The computation of `longest_path`: every vertex starts at length 0, the vertices are
      processed in topological order relaxing their out-edges, and the path is read back from
      the longest vertex. The topological order is a parameter; the source reads its first
      vertex before the loop, so the graph must not be empty. */
  method FindLongestPath(g: BGraph, topo: seq<nat>) returns (path: seq<nat>)
    requires Valid(g) && TopoOrder(g, topo) && g.vs != []
    ensures Longest(g, path)
  {
    var lpath := ZeroLengths(g);
    assert g.vs[0] in topo;
    var pmap: map<nat, nat> := map[];
    var maxv := topo[0];
    for i := 0 to |topo|
      invariant lpath.Keys == Listed(g)
      invariant Relaxed(g.es, lpath, topo[..i]) && Linked(g.es, lpath, pmap, topo[..i])
      invariant Maximal(lpath, maxv)
    {
      lpath, pmap, maxv := RelaxFrom(g, topo, i, lpath, pmap, maxv);
    }
    assert topo[..|topo|] == topo;
    path := Backtrack(g, lpath, pmap, topo, maxv);
    BacktrackLongest(g, topo, lpath, pmap, maxv, path);
  }

  /** `longest_path`: the path found is saved in the result. */
  method LongestPath(g: BGraph, topo: seq<nat>, r: PathList)
    requires Valid(g) && TopoOrder(g, topo) && g.vs != []
    modifies r
    ensures |r.paths| == |old(r.paths)| + 1 && r.paths[..|old(r.paths)|] == old(r.paths)
    ensures Longest(g, r.paths[|old(r.paths)|])
  {
    var path := FindLongestPath(g, topo);
    r.Save(path);
  }

  // ---------------------------------------------------------------------------------------
  // max_i_s_rec

  /** The vertices joined to c by an edge, either way (the graph taken as undirected). */
  ghost function Adjacent(es: seq<Edge>, c: nat): set<nat> {
    (set e | e in es && e.dst == c :: e.src) + (set e | e in es && e.src == c :: e.dst)
  }

  /** No edge joins two distinct vertices of s. */
  ghost predicate Independent(es: seq<Edge>, s: set<nat>) {
    forall e | e in es && e.src != e.dst :: !(e.src in s && e.dst in s)
  }

  /** No edge joins a vertex of current to a distinct vertex of allowed. */
  ghost predicate Compatible(es: seq<Edge>, current: set<nat>, allowed: set<nat>) {
    forall e | e in es && e.src != e.dst ::
      !(e.src in current && e.dst in allowed) && !(e.dst in current && e.src in allowed)
  }

  /** `allowed.begin()`: the first element of a `std::set` of descriptors, in an order (by
      address) that is not modelled. */
  ghost function Pick(allowed: set<nat>): (c: nat)
    requires allowed != {}
    ensures c in allowed
  {
    var c :| c in allowed; c
  }

  /** `max_i_s_rec(g, max, current, allowed)` with the replacement of `*max` reaching the
      caller, as intended: the set `*max` holds on return. The search stops when current and
      allowed together cannot beat best; with nothing allowed it keeps current if larger;
      otherwise it branches on the first allowed vertex c, first taking c (and dropping its
      neighbours from allowed), then leaving it out. Every call shrinks allowed. The result is
      best, or a larger superset of current within current and allowed. */
  ghost function Search(es: seq<Edge>, best: set<nat>, current: set<nat>, allowed: set<nat>): (r: set<nat>)
    ensures r == best || (|best| < |r| && current <= r && r <= current + allowed)
    decreases allowed
  {
    if |current| + |allowed| <= |best| then best
    else if allowed == {} then (if |best| < |current| then current else best)
    else
      var c := Pick(allowed);
      var rest := allowed - {c};
      var first := Search(es, best, current + {c}, rest - Adjacent(es, c));
      Search(es, first, current, rest)
  }

  /** Started from an independent best and an independent current that no allowed vertex is
      joined to, the search ends with an independent set. */
  lemma {:induction false} SearchIndependent(es: seq<Edge>, best: set<nat>, current: set<nat>,
                                             allowed: set<nat>)
    requires Independent(es, best) && Independent(es, current) && Compatible(es, current, allowed)
    ensures Independent(es, Search(es, best, current, allowed))
    decreases allowed
  {
    if |current| + |allowed| <= |best| || allowed == {} {
    } else {
      var c := Pick(allowed);
      var rest := allowed - {c};
      var a2 := rest - Adjacent(es, c);
      assert Compatible(es, current + {c}, a2) by {
        forall e | e in es && e.src != e.dst
          ensures !(e.src in current + {c} && e.dst in a2) && !(e.dst in current + {c} && e.src in a2)
        {
          if e.src == c {
            assert e.dst in Adjacent(es, c);
          }
          if e.dst == c {
            assert e.src in Adjacent(es, c);
          }
        }
      }
      SearchIndependent(es, best, current + {c}, a2);
      SearchIndependent(es, Search(es, best, current + {c}, a2), current, rest);
    }
  }

  /** No independent set between current and current + allowed is larger than the result:
      the pruning only cuts branches that cannot beat best. */
  lemma {:induction false} SearchOptimal(es: seq<Edge>, best: set<nat>, current: set<nat>,
                                         allowed: set<nat>, s: set<nat>)
    requires Independent(es, s) && current <= s && s <= current + allowed
    ensures |s| <= |Search(es, best, current, allowed)|
    decreases allowed
  {
    if |current| + |allowed| <= |best| {
      SubsetCard(s, current + allowed);
    } else if allowed == {} {
      assert s == current;
    } else {
      var c := Pick(allowed);
      var rest := allowed - {c};
      var a2 := rest - Adjacent(es, c);
      var first := Search(es, best, current + {c}, a2);
      if c in s {
        forall x | x in s && x !in current + {c}
          ensures x in a2
        {
          forall e | e in es
            ensures !((e.dst == c && e.src == x) || (e.src == c && e.dst == x))
          {
            assert x != c;
          }
        }
        SearchOptimal(es, best, current + {c}, a2, s);
      } else {
        SearchOptimal(es, first, current, rest, s);
      }
    }
  }

  /** `max_independent_set` with the intended update: the search from an empty best and an
      empty current over every vertex. */
  ghost function MaxIndependentSet(g: BGraph): set<nat> {
    Search(g.es, {}, {}, Listed(g))
  }

  /** The intended result is a maximum independent set of the graph. */
  lemma MaxIndependentSetMaximum(g: BGraph)
    ensures Independent(g.es, MaxIndependentSet(g)) && MaxIndependentSet(g) <= Listed(g)
    ensures forall s | s <= Listed(g) && Independent(g.es, s) :: |s| <= |MaxIndependentSet(g)|
  {
    SearchIndependent(g.es, {}, {}, Listed(g));
    forall s | s <= Listed(g) && Independent(g.es, s)
      ensures |s| <= |MaxIndependentSet(g)|
    {
      SearchOptimal(g.es, {}, {}, Listed(g), s);
    }
  }

  /** The caller's set object `*max` as the source leaves it: its elements and whether it has
      been deleted. */
  datatype MaxBox = MaxBox(elems: set<nat>, deleted: bool)

  /** `max_i_s_rec` as written: `delete max; max = new ...` deletes the caller's set and
      rebinds only the callee's copy of the pointer, so the caller's set never gains an
      element (its contents after the deletion are modelled as unchanged). */
  ghost function SearchAsWritten(es: seq<Edge>, max: MaxBox, current: set<nat>, allowed: set<nat>): (r: MaxBox)
    ensures r.elems == max.elems && (max.deleted ==> r.deleted)
    decreases allowed
  {
    if |current| + |allowed| <= |max.elems| then max
    else if allowed == {} then (if |max.elems| < |current| then max.(deleted := true) else max)
    else
      var c := Pick(allowed);
      var rest := allowed - {c};
      var first := SearchAsWritten(es, max, current + {c}, rest - Adjacent(es, c));
      SearchAsWritten(es, first, current, rest)
  }

  /** The code as written deletes the caller's set exactly when the intended search would
      have improved on it, and leaves its elements as they were. */
  lemma {:induction false} AsWrittenOutcome(es: seq<Edge>, best: set<nat>, deleted: bool,
                                            current: set<nat>, allowed: set<nat>)
    ensures SearchAsWritten(es, MaxBox(best, deleted), current, allowed)
         == MaxBox(best, deleted || Search(es, best, current, allowed) != best)
    decreases allowed
  {
    if |current| + |allowed| <= |best| || allowed == {} {
    } else {
      var c := Pick(allowed);
      var rest := allowed - {c};
      var a2 := rest - Adjacent(es, c);
      var first := Search(es, best, current + {c}, a2);
      AsWrittenOutcome(es, best, deleted, current + {c}, a2);
      AsWrittenOutcome(es, best, deleted || first != best, current, rest);
    }
  }

  /** On every graph with a vertex, `max_independent_set` as written deletes its set before
      saving it: the set it passes to `save` is deleted and still empty. */
  lemma AsWrittenDeletesResult(g: BGraph)
    requires g.vs != []
    ensures SearchAsWritten(g.es, MaxBox({}, false), {}, Listed(g)) == MaxBox({}, true)
  {
    MaxIndependentSetMaximum(g);
    assert Independent(g.es, {g.vs[0]});
    assert |{g.vs[0]}| <= |MaxIndependentSet(g)|;
    AsWrittenOutcome(g.es, {}, false, {}, Listed(g));
  }

  // ---------------------------------------------------------------------------------------
  // maximal_paths

  /** An edge goes forward in a topological order. */
  lemma Ahead(g: BGraph, topo: seq<nat>, v: nat, w: nat)
    requires Valid(g) && TopoOrder(g, topo) && v in g.vs && Edge(v, w) in g.es
    ensures v in topo && w in topo && IndexOf(topo, v) < IndexOf(topo, w)
  {
    Later(g, topo, IndexOf(topo, v), w);
  }

  /** q is a path of g that ends at a vertex without out-edges. */
  ghost predicate SinkPath(g: BGraph, q: seq<nat>) {
    |q| >= 1 && IsPath(g, q) && forall e | e in g.es :: e.src != q[|q| - 1]
  }

  /** `maximal_paths_internal(r, g, properties, prefix, v)`: the paths it saves, in order.
      A vertex without out-edges ends the path; otherwise the path goes on along each
      out-edge in turn. The graph is acyclic (a topological order exists), which is what
      makes the recursion end. */
  function SinkPathsFrom(g: BGraph, ghost topo: seq<nat>, prefix: seq<nat>, v: nat): (ps: seq<seq<nat>>)
    requires Valid(g) && TopoOrder(g, topo) && v in g.vs
    ensures ps != []
    decreases |topo| - IndexOf(topo, v), 1
  {
    if OutDegree(g.es, v) == 0 then [prefix + [v]]
    else
      OutDegreeZero(g.es, v);
      SinkPathsVia(g, topo, prefix + [v], v, OutNeighbors(g.es, v))
  }

  /** The loop over the out-edges of v: the paths saved by the recursive calls, one after the
      other. */
  function SinkPathsVia(g: BGraph, ghost topo: seq<nat>, prefix: seq<nat>, v: nat, ns: seq<nat>): (ps: seq<seq<nat>>)
    requires Valid(g) && TopoOrder(g, topo) && v in g.vs && forall w | w in ns :: Edge(v, w) in g.es
    ensures ns != [] ==> ps != []
    decreases |topo| - IndexOf(topo, v), 0, |ns|
  {
    if ns == [] then []
    else
      Ahead(g, topo, v, ns[0]);
      SinkPathsFrom(g, topo, prefix, ns[0]) + SinkPathsVia(g, topo, prefix, v, ns[1..])
  }

  /** Every saved path is the prefix followed by a path from v to a vertex without
      out-edges. */
  lemma {:induction false} SinkPathsFromSound(g: BGraph, topo: seq<nat>, prefix: seq<nat>, v: nat, p: seq<nat>)
    requires Valid(g) && TopoOrder(g, topo) && v in g.vs && p in SinkPathsFrom(g, topo, prefix, v)
    ensures |p| > |prefix| && p[..|prefix|] == prefix && p[|prefix|] == v && SinkPath(g, p[|prefix|..])
    decreases |topo| - IndexOf(topo, v), 1
  {
    OutDegreeZero(g.es, v);
    if OutDegree(g.es, v) == 0 {
      assert p == prefix + [v];
      assert p[|prefix|..] == [v];
    } else {
      var pre := prefix + [v];
      SinkPathsViaSound(g, topo, pre, v, OutNeighbors(g.es, v), p);
      var q := p[|pre|..];
      SinkCons(g, v, q);
      SliceAfter(p, prefix, v);
    }
  }

  /** An edge into the start of a path to a sink gives a longer path to that sink. */
  lemma SinkCons(g: BGraph, v: nat, q: seq<nat>)
    requires SinkPath(g, q) && v in g.vs && Edge(v, q[0]) in g.es
    ensures SinkPath(g, [v] + q)
  {
    assert forall k | 1 <= k < |q| + 1 :: ([v] + q)[k] == q[k - 1];
  }

  lemma SliceAfter(p: seq<nat>, prefix: seq<nat>, v: nat)
    requires |p| > |prefix| + 1 && p[..|prefix| + 1] == prefix + [v]
    ensures p[..|prefix|] == prefix && p[|prefix|] == v && p[|prefix|..] == [v] + p[|prefix| + 1..]
  {
    assert p[..|prefix|] == p[..|prefix| + 1][..|prefix|];
  }

  lemma {:induction false} SinkPathsViaSound(g: BGraph, topo: seq<nat>, prefix: seq<nat>, v: nat, ns: seq<nat>,
                                             p: seq<nat>)
    requires Valid(g) && TopoOrder(g, topo) && v in g.vs && forall w | w in ns :: Edge(v, w) in g.es
    requires p in SinkPathsVia(g, topo, prefix, v, ns)
    ensures |p| > |prefix| && p[..|prefix|] == prefix && p[|prefix|] in ns && SinkPath(g, p[|prefix|..])
    decreases |topo| - IndexOf(topo, v), 0, |ns|
  {
    Ahead(g, topo, v, ns[0]);
    if p in SinkPathsFrom(g, topo, prefix, ns[0]) {
      SinkPathsFromSound(g, topo, prefix, ns[0], p);
    } else {
      SinkPathsViaSound(g, topo, prefix, v, ns[1..], p);
    }
  }

  /** Every path from v to a vertex without out-edges is saved, after the prefix. */
  lemma {:induction false} SinkPathsFromComplete(g: BGraph, topo: seq<nat>, prefix: seq<nat>, v: nat, q: seq<nat>)
    requires Valid(g) && TopoOrder(g, topo) && v in g.vs && SinkPath(g, q) && q[0] == v
    ensures prefix + q in SinkPathsFrom(g, topo, prefix, v)
    decreases |topo| - IndexOf(topo, v), 1
  {
    OutDegreeZero(g.es, v);
    if OutDegree(g.es, v) == 0 {
      SinkAtSink(g, q);
    } else {
      assert q[|q| - 1] != v;
      SinkTail(g, q);
      SinkPathsViaComplete(g, topo, prefix + [v], v, OutNeighbors(g.es, v), q[1..]);
      assert prefix + [v] + q[1..] == prefix + q;
    }
  }

  /** A path to a sink that starts at a vertex without out-edges is that vertex alone. */
  lemma SinkAtSink(g: BGraph, q: seq<nat>)
    requires SinkPath(g, q) && forall e | e in g.es :: e.src != q[0]
    ensures q == [q[0]]
  {
    FirstEdge(g, q);
  }

  lemma FirstEdge(g: BGraph, q: seq<nat>)
    requires IsPath(g, q)
    ensures |q| > 1 ==> Edge(q[0], q[1]) in g.es
  {
  }

  /** A path to a sink of more than one vertex is an edge followed by a shorter path to a
      sink. */
  lemma SinkTail(g: BGraph, q: seq<nat>)
    requires SinkPath(g, q) && |q| > 1
    ensures Edge(q[0], q[1]) in g.es && SinkPath(g, q[1..]) && q[1..][0] == q[1]
  {
    var rest := q[1..];
    assert forall k | 0 <= k < |rest| :: rest[k] == q[k + 1];
  }

  lemma {:induction false} SinkPathsViaComplete(g: BGraph, topo: seq<nat>, prefix: seq<nat>, v: nat, ns: seq<nat>,
                                                q: seq<nat>)
    requires Valid(g) && TopoOrder(g, topo) && v in g.vs && forall w | w in ns :: Edge(v, w) in g.es
    requires SinkPath(g, q) && q[0] in ns
    ensures prefix + q in SinkPathsVia(g, topo, prefix, v, ns)
    decreases |topo| - IndexOf(topo, v), 0, |ns|
  {
    Ahead(g, topo, v, ns[0]);
    if q[0] == ns[0] {
      SinkPathsFromComplete(g, topo, prefix, ns[0], q);
    } else {
      SinkPathsViaComplete(g, topo, prefix, v, ns[1..], q);
    }
  }

  /** The paths `maximal_paths` saves while scanning the first k vertices: those of
      `maximal_paths_internal` from each vertex without in-edges, in vertex order. */
  function FromSources(g: BGraph, ghost topo: seq<nat>, k: nat): seq<seq<nat>>
    requires Valid(g) && TopoOrder(g, topo) && k <= |g.vs|
  {
    if k == 0 then []
    else FromSources(g, topo, k - 1)
         + (if InDegree(g.es, g.vs[k - 1]) == 0 then SinkPathsFrom(g, topo, [], g.vs[k - 1]) else [])
  }

  /** A path from one of the first k vertices, which has no in-edges, to a vertex without
      out-edges. */
  ghost predicate SourceSinkPath(g: BGraph, k: nat, p: seq<nat>)
    requires k <= |g.vs|
  {
    SinkPath(g, p) && p[0] in g.vs[..k] && forall e | e in g.es :: e.dst != p[0]
  }

  lemma {:induction false} FromSourcesMembers(g: BGraph, topo: seq<nat>, k: nat)
    requires Valid(g) && TopoOrder(g, topo) && k <= |g.vs|
    ensures forall p :: p in FromSources(g, topo, k) <==> SourceSinkPath(g, k, p)
  {
    if k > 0 {
      FromSourcesMembers(g, topo, k - 1);
      var v := g.vs[k - 1];
      InDegreeZero(g.es, v);
      assert g.vs[..k] == g.vs[..k - 1] + [v];
      forall p
        ensures p in FromSources(g, topo, k) <==> SourceSinkPath(g, k, p)
      {
        if p in SinkPathsFrom(g, topo, [], v) {
          SinkPathsFromSound(g, topo, [], v, p);
          assert p[0..] == p;
        }
        if SinkPath(g, p) && p[0] == v && InDegree(g.es, v) == 0 {
          SinkPathsFromComplete(g, topo, [], v, p);
          assert [] + p == p;
        }
      }
    }
  }

  /** `maximal_paths` saves exactly the paths from a vertex without in-edges to a vertex
      without out-edges. */
  lemma MaximalPathsExactly(g: BGraph, topo: seq<nat>)
    requires Valid(g) && TopoOrder(g, topo)
    ensures forall p :: p in FromSources(g, topo, |g.vs|) <==>
      SinkPath(g, p) && forall e | e in g.es :: e.dst != p[0]
  {
    FromSourcesMembers(g, topo, |g.vs|);
    assert g.vs[..|g.vs|] == g.vs;
    forall p | SinkPath(g, p)
      ensures p[0] in g.vs
    {
    }
  }

  lemma ConcatAssoc<T>(a: seq<T>, b: seq<T>, c: seq<T>)
    ensures a + (b + c) == (a + b) + c
  {
  }

  /** Saves the paths of ps one by one. */
  method SaveAll(r: PathList, ps: seq<seq<nat>>)
    modifies r
    ensures r.paths == old(r.paths) + ps
  {
    for k := 0 to |ps|
      invariant r.paths == old(r.paths) + ps[..k]
    {
      assert ps[..k + 1] == ps[..k] + [ps[k]];
      r.Save(ps[k]);
    }
    assert ps[..|ps|] == ps;
  }

  /** `maximal_paths`: the recursion from every vertex without in-edges, in vertex order. */
  method MaximalPaths(g: BGraph, ghost topo: seq<nat>, r: PathList)
    requires Valid(g) && TopoOrder(g, topo)
    modifies r
    ensures r.paths == old(r.paths) + FromSources(g, topo, |g.vs|)
  {
    for i := 0 to |g.vs|
      invariant r.paths == old(r.paths) + FromSources(g, topo, i)
    {
      if InDegree(g.es, g.vs[i]) == 0 {
        var ps := SinkPathsFrom(g, topo, [], g.vs[i]);
        SaveAll(r, ps);
        ConcatAssoc(old(r.paths), FromSources(g, topo, i), ps);
      }
    }
  }
}
