/**
  Single-source shortest paths by Bellman-Ford: initialisation, edge
  relaxation with parent tracking, V passes over the edge list, the
  negative-cycle check, and the parent walk that lists a route.

  Vertices are referred to by their position in the vertex list; the C
  program's vertex pointers become these positions.
 */
module BellmanFord {
  import opened Costs

  datatype Option<T> = None | Some(value: T)

  datatype Vertex = Vertex(name: string)

  /** A directed, weighted edge between the vertices at positions `src` and `dest`. */
  datatype Edge = Edge(src: nat, dest: nat, weight: int)

  datatype Graph = Graph(vertices: seq<Vertex>, edges: seq<Edge>)

  /** The distances from the source and the parent of every vertex on its best route so far. */
  datatype DistMap = DistMap(distances: seq<Cost>, parents: seq<Option<nat>>)

  /** Result of a run: status 1 when no edge can still be relaxed, 0 otherwise. */
  datatype Outcome = Outcome(status: int, result: DistMap)

  /** Every edge joins two vertices of the graph. */
  predicate ValidGraph(g: Graph) {
    forall j :: 0 <= j < |g.edges| ==> g.edges[j].src < |g.vertices| && g.edges[j].dest < |g.vertices|
  }

  /** The map has one distance and one parent per vertex. */
  predicate Fits(g: Graph, m: DistMap) {
    |m.distances| == |g.vertices| && |m.parents| == |g.vertices|
  }

  /** No distance of `a` is above the one in `b`. */
  predicate Below(a: DistMap, b: DistMap)
    requires |a.distances| == |b.distances|
  {
    forall v :: 0 <= v < |a.distances| ==> Le(a.distances[v], b.distances[v])
  }

  // ---------------------------------------------------------------------------
  // lookups

  /** `getVertexIndex`: the first position of `needle` among the first `count` entries, or -1. */
  method GetVertexIndex<T(==)>(haystack: seq<T>, needle: T, count: nat) returns (index: int)
    requires count <= |haystack|
    ensures -1 <= index < count
    ensures 0 <= index ==> haystack[index] == needle
    ensures 0 <= index ==> forall k :: 0 <= k < index ==> haystack[k] != needle
    ensures index == -1 <==> forall k :: 0 <= k < count ==> haystack[k] != needle
  {
    var i := 0;
    while i < count
      invariant 0 <= i <= count
      invariant forall k :: 0 <= k < i ==> haystack[k] != needle
    {
      if haystack[i] == needle {
        return i;
      }
      i := i + 1;
    }
    return -1;
  }

  /**
    `getVertexByName`: the first of the first `count` vertices called `name`,
    if any. The C returns a pointer to that vertex record; here it is the
    record's position, which is what an `Edge` holds.
   */
  method GetVertexByName(vertices: seq<Vertex>, name: string, count: nat) returns (found: Option<nat>)
    requires count <= |vertices|
    ensures found.Some? ==> found.value < count && vertices[found.value].name == name
    ensures found.Some? ==> forall k :: 0 <= k < found.value ==> vertices[k].name != name
    ensures found.None? <==> forall k :: 0 <= k < count ==> vertices[k].name != name
  {
    var i := 0;
    while i < count
      invariant 0 <= i <= count
      invariant forall k :: 0 <= k < i ==> vertices[k].name != name
    {
      if vertices[i].name == name {
        return Some(i);
      }
      i := i + 1;
    }
    return None;
  }

  // ---------------------------------------------------------------------------
  // walks

  /** `w` is a walk of graph edges leading from vertex `s` to vertex `v`. */
  ghost predicate IsWalk(g: Graph, s: nat, v: nat, w: seq<Edge>)
    decreases |w|
  {
    if |w| == 0 then v == s
    else
      var e := w[|w| - 1];
      e in g.edges && e.dest == v && IsWalk(g, s, e.src, w[..|w| - 1])
  }

  function WalkWeight(w: seq<Edge>): int
    decreases |w|
  {
    if |w| == 0 then 0 else WalkWeight(w[..|w| - 1]) + w[|w| - 1].weight
  }

  /** Every finite distance is the weight of some walk from `src`. */
  ghost predicate Sound(g: Graph, src: nat, m: DistMap) {
    forall v :: 0 <= v < |m.distances| && m.distances[v].Fin? ==>
      exists w :: IsWalk(g, src, v, w) && WalkWeight(w) == m.distances[v].v
  }

  /**
    Every parent is the start of an edge into its child, and the child's
    distance is at least the parent's distance plus that edge's weight.
   */
  ghost predicate Justified(g: Graph, m: DistMap)
    requires ValidGraph(g) && Fits(g, m)
  {
    forall v :: 0 <= v < |m.parents| && m.parents[v].Some? ==>
      && m.distances[v].Fin?
      && exists j :: 0 <= j < |g.edges| && g.edges[j].src == m.parents[v].value && g.edges[j].dest == v
                     && Le(Add(m.distances[g.edges[j].src], g.edges[j].weight), m.distances[v])
  }

  /** What holds of the map throughout a run from `src`. */
  ghost predicate Invariant(g: Graph, src: nat, m: DistMap) {
    && ValidGraph(g) && Fits(g, m) && src < |g.vertices|
    && Le(m.distances[src], Fin(0))
    && Sound(g, src, m)
    && Justified(g, m)
  }

  // ---------------------------------------------------------------------------
  // initialisation and relaxation

  /** `initSingleSource`: every vertex unreached and without parent, except the source at distance 0. */
  function InitSingleSource(vertexCount: nat, src: nat): (m: DistMap)
    requires src < vertexCount
    ensures |m.distances| == vertexCount && |m.parents| == vertexCount
    ensures m.distances[src] == Fin(0)
    ensures forall v :: 0 <= v < vertexCount && v != src ==> m.distances[v].Inf?
    ensures forall v :: 0 <= v < vertexCount ==> m.parents[v].None?
  {
    DistMap(seq(vertexCount, v => if v == src then Fin(0) else Inf), seq(vertexCount, v => None))
  }

  /** Edge `j` offers its destination a strictly shorter distance. */
  predicate Improves(g: Graph, m: DistMap, j: nat)
    requires ValidGraph(g) && Fits(g, m) && j < |g.edges|
  {
    var e := g.edges[j];
    Lt(Add(m.distances[e.src], e.weight), m.distances[e.dest])
  }

  /** `relax` of edge `j`; what it does is stated by `RelaxSpec`. */
  function Relax(g: Graph, m: DistMap, j: nat): (r: DistMap)
    requires ValidGraph(g) && Fits(g, m) && j < |g.edges|
    ensures Fits(g, r)
  {
    var e := g.edges[j];
    if Improves(g, m, j) then
      DistMap(m.distances[e.dest := Add(m.distances[e.src], e.weight)], m.parents[e.dest := Some(e.src)])
    else
      m
  }

  /**
    Relaxing edge `j`: the destination takes the smaller of its distance and
    the source's distance plus the weight, and the source becomes its parent
    exactly when that is strictly smaller. No other vertex changes, and no
    distance goes up.
   */
  lemma RelaxSpec(g: Graph, m: DistMap, j: nat)
    requires ValidGraph(g) && Fits(g, m) && j < |g.edges|
    ensures var r := Relax(g, m, j);
            forall v :: 0 <= v < |g.vertices| && v != g.edges[j].dest ==>
              r.distances[v] == m.distances[v] && r.parents[v] == m.parents[v]
    ensures var r := Relax(g, m, j);
            var e := g.edges[j];
            r.distances[e.dest] == Min(m.distances[e.dest], Add(m.distances[e.src], e.weight))
    ensures var r := Relax(g, m, j);
            var e := g.edges[j];
            r.parents[e.dest] == if Improves(g, m, j) then Some(e.src) else m.parents[e.dest]
    ensures Below(Relax(g, m, j), m)
  {
  }

  /** One pass of the relaxation loop, from edge `j` to the last edge. */
  function RelaxFrom(g: Graph, m: DistMap, j: nat): (r: DistMap)
    requires ValidGraph(g) && Fits(g, m) && j <= |g.edges|
    ensures Fits(g, r)
    decreases |g.edges| - j
  {
    if j == |g.edges| then m
    else RelaxFrom(g, Relax(g, m, j), j + 1)
  }

  function Pass(g: Graph, m: DistMap): (r: DistMap)
    requires ValidGraph(g) && Fits(g, m)
    ensures Fits(g, r)
  {
    RelaxFrom(g, m, 0)
  }

  /** `count` passes over all edges. */
  function Passes(g: Graph, m: DistMap, count: nat): (r: DistMap)
    requires ValidGraph(g) && Fits(g, m)
    ensures Fits(g, r)
    decreases count
  {
    if count == 0 then m
    else Passes(g, Pass(g, m), count - 1)
  }

  /** Distances never go up during a pass. */
  lemma {:induction false} RelaxFromBelow(g: Graph, m: DistMap, j: nat)
    requires ValidGraph(g) && Fits(g, m) && j <= |g.edges|
    ensures Below(RelaxFrom(g, m, j), m)
    decreases |g.edges| - j
  {
    if j < |g.edges| {
      var m' := Relax(g, m, j);
      RelaxSpec(g, m, j);
      RelaxFromBelow(g, m', j + 1);
      BelowTransitive(RelaxFrom(g, m', j + 1), m', m);
    } else {
      BelowReflexive(m);
    }
  }

  /** Distances never go up over any number of passes. */
  lemma {:induction false} PassesBelow(g: Graph, m: DistMap, count: nat)
    requires ValidGraph(g) && Fits(g, m)
    ensures Below(Passes(g, m, count), m)
    decreases count
  {
    if count > 0 {
      var m' := Pass(g, m);
      RelaxFromBelow(g, m, 0);
      PassesBelow(g, m', count - 1);
      BelowTransitive(Passes(g, m', count - 1), m', m);
    } else {
      BelowReflexive(m);
    }
  }

  lemma BelowReflexive(a: DistMap)
    ensures Below(a, a)
  {
  }

  lemma BelowTransitive(a: DistMap, b: DistMap, c: DistMap)
    requires |a.distances| == |b.distances| == |c.distances|
    requires Below(a, b) && Below(b, c)
    ensures Below(a, c)
  {
    forall v | 0 <= v < |a.distances|
      ensures Le(a.distances[v], c.distances[v])
    {
      LeTransitive(a.distances[v], b.distances[v], c.distances[v]);
    }
  }

  // ---------------------------------------------------------------------------
  // the negative-cycle check and the whole run

  /** No edge can still be relaxed. */
  predicate Settled(g: Graph, m: DistMap)
    requires ValidGraph(g) && Fits(g, m)
  {
    forall j :: 0 <= j < |g.edges| ==> !Improves(g, m, j)
  }

  /** The check loop from edge `j` on: 0 at the first edge that still improves, else 1. */
  function CheckFrom(g: Graph, m: DistMap, j: nat): (status: int)
    requires ValidGraph(g) && Fits(g, m) && j <= |g.edges|
    ensures status == 0 || status == 1
    ensures status == 1 <==> forall k :: j <= k < |g.edges| ==> !Improves(g, m, k)
    decreases |g.edges| - j
  {
    if j == |g.edges| then 1
    else if Improves(g, m, j) then 0
    else CheckFrom(g, m, j + 1)
  }

  /**
    `bellmanFord`: initialise for `src`, make one pass over the edges per
    vertex, then report 1 exactly when no edge can still be relaxed.
   */
  function BellmanFord(g: Graph, src: nat): (o: Outcome)
    requires ValidGraph(g) && src < |g.vertices|
    ensures Fits(g, o.result)
    ensures o.status == 0 || o.status == 1
    ensures o.status == 1 <==> Settled(g, o.result)
  {
    var m := Passes(g, InitSingleSource(|g.vertices|, src), |g.vertices|);
    Outcome(CheckFrom(g, m, 0), m)
  }

  // ---------------------------------------------------------------------------
  // the invariant is kept

  lemma InitKeepsInvariant(g: Graph, src: nat)
    requires ValidGraph(g) && src < |g.vertices|
    ensures Invariant(g, src, InitSingleSource(|g.vertices|, src))
  {
    var m := InitSingleSource(|g.vertices|, src);
    assert IsWalk(g, src, src, []) && WalkWeight([]) == 0;
  }

  lemma AddMonotone(a: Cost, b: Cost, w: int)
    requires Le(a, b)
    ensures Le(Add(a, w), Add(b, w))
  {
  }

  /** Extending a walk to `u` by an edge out of `u` gives a walk to that edge's end. */
  lemma WalkExtend(g: Graph, s: nat, w: seq<Edge>, e: Edge)
    requires IsWalk(g, s, e.src, w) && e in g.edges
    ensures IsWalk(g, s, e.dest, w + [e])
    ensures WalkWeight(w + [e]) == WalkWeight(w) + e.weight
  {
    assert (w + [e])[..|w|] == w;
  }

  lemma RelaxKeepsSound(g: Graph, src: nat, m: DistMap, j: nat)
    requires Invariant(g, src, m) && j < |g.edges|
    ensures Sound(g, src, Relax(g, m, j))
  {
    var r := Relax(g, m, j);
    var e := g.edges[j];
    RelaxSpec(g, m, j);
    if Improves(g, m, j) {
      forall v | 0 <= v < |r.distances| && r.distances[v].Fin?
        ensures exists w :: IsWalk(g, src, v, w) && WalkWeight(w) == r.distances[v].v
      {
        if v == e.dest {
          var w :| IsWalk(g, src, e.src, w) && WalkWeight(w) == m.distances[e.src].v;
          WalkExtend(g, src, w, e);
        } else {
          assert m.distances[v] == r.distances[v];
        }
      }
    }
  }

  lemma RelaxKeepsJustified(g: Graph, src: nat, m: DistMap, j: nat)
    requires Invariant(g, src, m) && j < |g.edges|
    ensures Justified(g, Relax(g, m, j))
  {
    var r := Relax(g, m, j);
    var e := g.edges[j];
    RelaxSpec(g, m, j);
    if Improves(g, m, j) {
      forall v | 0 <= v < |r.parents| && r.parents[v].Some?
        ensures r.distances[v].Fin?
        ensures exists i :: 0 <= i < |g.edges| && g.edges[i].src == r.parents[v].value && g.edges[i].dest == v
                            && Le(Add(r.distances[g.edges[i].src], g.edges[i].weight), r.distances[v])
      {
        if v == e.dest {
          AddMonotone(r.distances[e.src], m.distances[e.src], e.weight);
          assert Le(Add(r.distances[e.src], e.weight), r.distances[v]);
        } else {
          var i :| 0 <= i < |g.edges| && g.edges[i].src == m.parents[v].value && g.edges[i].dest == v
                   && Le(Add(m.distances[g.edges[i].src], g.edges[i].weight), m.distances[v]);
          var u := g.edges[i].src;
          AddMonotone(r.distances[u], m.distances[u], g.edges[i].weight);
          LeTransitive(Add(r.distances[u], g.edges[i].weight), Add(m.distances[u], g.edges[i].weight), m.distances[v]);
        }
      }
    }
  }

  /** Relaxing one edge keeps the invariant. */
  lemma RelaxKeepsInvariant(g: Graph, src: nat, m: DistMap, j: nat)
    requires Invariant(g, src, m) && j < |g.edges|
    ensures Invariant(g, src, Relax(g, m, j))
  {
    RelaxKeepsSound(g, src, m, j);
    RelaxKeepsJustified(g, src, m, j);
    RelaxSpec(g, m, j);
    var r := Relax(g, m, j);
    LeTransitive(r.distances[src], m.distances[src], Fin(0));
  }

  lemma {:induction false} RelaxFromKeepsInvariant(g: Graph, src: nat, m: DistMap, j: nat)
    requires Invariant(g, src, m) && j <= |g.edges|
    ensures Invariant(g, src, RelaxFrom(g, m, j))
    decreases |g.edges| - j
  {
    if j < |g.edges| {
      RelaxKeepsInvariant(g, src, m, j);
      RelaxFromKeepsInvariant(g, src, Relax(g, m, j), j + 1);
    }
  }

  lemma {:induction false} PassesKeepInvariant(g: Graph, src: nat, m: DistMap, count: nat)
    requires Invariant(g, src, m)
    ensures Invariant(g, src, Passes(g, m, count))
    decreases count
  {
    if count > 0 {
      RelaxFromKeepsInvariant(g, src, m, 0);
      PassesKeepInvariant(g, src, Pass(g, m), count - 1);
    }
  }

  /**
    After a run, every finite distance is realised by a walk from the source
    and every parent link is an edge that justifies its child's distance.
   */
  lemma BellmanFordInvariant(g: Graph, src: nat)
    requires ValidGraph(g) && src < |g.vertices|
    ensures Invariant(g, src, BellmanFord(g, src).result)
    ensures Below(BellmanFord(g, src).result, InitSingleSource(|g.vertices|, src))
  {
    InitKeepsInvariant(g, src);
    PassesBelow(g, InitSingleSource(|g.vertices|, src), |g.vertices|);
    PassesKeepInvariant(g, src, InitSingleSource(|g.vertices|, src), |g.vertices|);
  }

  // ---------------------------------------------------------------------------
  // correctness on status 1

  /** In a settled map, no walk from `s` to `v` beats `v`'s distance measured from `s`'s. */
  lemma {:induction false} SettledWalkBound(g: Graph, m: DistMap, s: nat, v: nat, w: seq<Edge>)
    requires ValidGraph(g) && Fits(g, m) && Settled(g, m)
    requires s < |g.vertices| && v < |g.vertices|
    requires IsWalk(g, s, v, w)
    ensures Le(m.distances[v], Add(m.distances[s], WalkWeight(w)))
    decreases |w|
  {
    if |w| > 0 {
      var e := w[|w| - 1];
      var j :| 0 <= j < |g.edges| && g.edges[j] == e;
      assert !Improves(g, m, j);
      SettledWalkBound(g, m, s, e.src, w[..|w| - 1]);
      var before := Add(m.distances[s], WalkWeight(w[..|w| - 1]));
      AddMonotone(m.distances[e.src], before, e.weight);
      LeTransitive(m.distances[v], Add(m.distances[e.src], e.weight), Add(before, e.weight));
    }
  }

  /**
    On status 1 the distances are the shortest walk weights: no walk from
    the source is shorter, every finite distance is the weight of a walk,
    and a vertex is at infinity exactly when no walk reaches it.
   */
  lemma ShortestOnSuccess(g: Graph, src: nat, v: nat, w: seq<Edge>)
    requires ValidGraph(g) && src < |g.vertices| && v < |g.vertices|
    requires BellmanFord(g, src).status == 1
    ensures var d := BellmanFord(g, src).result.distances;
            IsWalk(g, src, v, w) ==> d[v].Fin? && d[v].v <= WalkWeight(w)
    ensures var d := BellmanFord(g, src).result.distances;
            d[v].Fin? ==> exists w' :: IsWalk(g, src, v, w') && WalkWeight(w') == d[v].v
  {
    var m := BellmanFord(g, src).result;
    BellmanFordInvariant(g, src);
    if IsWalk(g, src, v, w) {
      SettledWalkBound(g, m, src, v, w);
      AddMonotone(m.distances[src], Fin(0), WalkWeight(w));
      LeTransitive(m.distances[v], Add(m.distances[src], WalkWeight(w)), Fin(WalkWeight(w)));
    }
  }

  /** On status 1 every cycle through a vertex reachable from the source weighs at least 0. */
  lemma NoNegativeCycleOnSuccess(g: Graph, src: nat, v: nat, reach: seq<Edge>, cycle: seq<Edge>)
    requires ValidGraph(g) && src < |g.vertices| && v < |g.vertices|
    requires BellmanFord(g, src).status == 1
    requires IsWalk(g, src, v, reach) && IsWalk(g, v, v, cycle)
    ensures WalkWeight(cycle) >= 0
  {
    var m := BellmanFord(g, src).result;
    ShortestOnSuccess(g, src, v, reach);
    SettledWalkBound(g, m, v, v, cycle);
  }

  /** A settled map is left unchanged by further passes. */
  lemma {:induction false} SettledRelaxFrom(g: Graph, m: DistMap, j: nat)
    requires ValidGraph(g) && Fits(g, m) && Settled(g, m) && j <= |g.edges|
    ensures RelaxFrom(g, m, j) == m
    decreases |g.edges| - j
  {
    if j < |g.edges| {
      assert !Improves(g, m, j);
      SettledRelaxFrom(g, m, j + 1);
    }
  }

  lemma {:induction false} SettledPasses(g: Graph, m: DistMap, count: nat)
    requires ValidGraph(g) && Fits(g, m) && Settled(g, m)
    ensures Passes(g, m, count) == m
    decreases count
  {
    if count > 0 {
      SettledRelaxFrom(g, m, 0);
      SettledPasses(g, m, count - 1);
    }
  }

  // ---------------------------------------------------------------------------
  // status 1 when no negative cycle is reachable

  /** No cycle through a vertex reachable from `src` has negative weight. */
  ghost predicate NoNegativeCycle(g: Graph, src: nat) {
    forall v, reach, cycle :: IsWalk(g, src, v, reach) && IsWalk(g, v, v, cycle) ==> WalkWeight(cycle) >= 0
  }

  /** The vertex a walk from `s` stands on after its first `i` edges. */
  function WalkVertex(s: nat, w: seq<Edge>, i: nat): nat
    requires i <= |w|
  {
    if i == 0 then s else w[i - 1].dest
  }

  /** Every vertex a walk stands on is a vertex of the graph. */
  lemma {:induction false} WalkInGraph(g: Graph, s: nat, v: nat, w: seq<Edge>)
    requires ValidGraph(g) && s < |g.vertices| && IsWalk(g, s, v, w)
    ensures v < |g.vertices|
    ensures forall i :: 0 <= i <= |w| ==> WalkVertex(s, w, i) < |g.vertices|
    decreases |w|
  {
    if |w| > 0 {
      var e := w[|w| - 1];
      var w' := w[..|w| - 1];
      WalkInGraph(g, s, e.src, w');
      var j :| 0 <= j < |g.edges| && g.edges[j] == e;
      forall i | 0 <= i <= |w|
        ensures WalkVertex(s, w, i) < |g.vertices|
      {
        if i < |w| {
          assert WalkVertex(s, w, i) == WalkVertex(s, w', i);
        }
      }
    }
  }

  /** The weight of two walks one after the other is the sum of their weights. */
  lemma {:induction false} WalkWeightAppend(a: seq<Edge>, b: seq<Edge>)
    ensures WalkWeight(a + b) == WalkWeight(a) + WalkWeight(b)
    decreases |b|
  {
    if |b| > 0 {
      var b' := b[..|b| - 1];
      assert (a + b)[..|a + b| - 1] == a + b';
      WalkWeightAppend(a, b');
    } else {
      assert a + b == a;
    }
  }

  /** A walk from `s` to `x` followed by a walk from `x` to `v` is a walk from `s` to `v`. */
  lemma {:induction false} WalkAppend(g: Graph, s: nat, x: nat, v: nat, a: seq<Edge>, b: seq<Edge>)
    requires IsWalk(g, s, x, a) && IsWalk(g, x, v, b)
    ensures IsWalk(g, s, v, a + b)
    decreases |b|
  {
    if |b| > 0 {
      var b' := b[..|b| - 1];
      assert (a + b)[..|a + b| - 1] == a + b';
      WalkAppend(g, s, x, b[|b| - 1].src, a, b');
    } else {
      assert a + b == a;
    }
  }

  /** Cut after `i` edges, a walk is a walk to the vertex it stands on there and a walk on from it. */
  lemma {:induction false} WalkSplit(g: Graph, s: nat, v: nat, w: seq<Edge>, i: nat)
    requires IsWalk(g, s, v, w) && i <= |w|
    ensures IsWalk(g, s, WalkVertex(s, w, i), w[..i])
    ensures IsWalk(g, WalkVertex(s, w, i), v, w[i..])
    decreases |w|
  {
    if i == |w| {
      assert w[..i] == w && w[i..] == [];
    } else {
      var w' := w[..|w| - 1];
      var e := w[|w| - 1];
      WalkSplit(g, s, e.src, w', i);
      assert w'[..i] == w[..i];
      assert WalkVertex(s, w', i) == WalkVertex(s, w, i);
      assert w[i..] == w'[i..] + [e];
      assert (w'[i..] + [e])[..|w'[i..] + [e]| - 1] == w'[i..];
    }
  }

  /** A walk of at least |V| edges stands on some vertex twice. */
  lemma RepeatedVertex(g: Graph, s: nat, v: nat, w: seq<Edge>) returns (i: nat, j: nat)
    requires ValidGraph(g) && s < |g.vertices| && IsWalk(g, s, v, w) && |w| >= |g.vertices|
    ensures i < j <= |w| && WalkVertex(s, w, i) == WalkVertex(s, w, j)
  {
    WalkInGraph(g, s, v, w);
    var t := seq(|w| + 1, k requires 0 <= k <= |w| => WalkVertex(s, w, k));
    assert !Distinct(t) by {
      if Distinct(t) {
        DistinctBounded(t, |g.vertices|);
      }
    }
    i, j :| 0 <= i < j < |t| && t[i] == t[j];
  }

  /** A walk cut at `i` and `j`: the three pieces weigh, together, what the walk weighs. */
  lemma WalkWeightThree(w: seq<Edge>, i: nat, j: nat)
    requires i <= j <= |w|
    ensures WalkWeight(w) == WalkWeight(w[..i]) + WalkWeight(w[i..j]) + WalkWeight(w[j..])
  {
    WalkWeightAppend(w[..j], w[j..]);
    WalkWeightAppend(w[..i], w[i..j]);
    assert w[..j] + w[j..] == w;
    assert w[..i] + w[i..j] == w[..j];
  }

  /**
    A walk cut at its `i`-th and `j`-th vertex, the same vertex `x`: a walk
    to `x`, a cycle through `x`, and a walk from `x` on.
   */
  lemma WalkThree(g: Graph, s: nat, v: nat, w: seq<Edge>, i: nat, j: nat)
    requires IsWalk(g, s, v, w)
    requires i < j <= |w| && WalkVertex(s, w, i) == WalkVertex(s, w, j)
    ensures var x := WalkVertex(s, w, i);
            IsWalk(g, s, x, w[..i]) && IsWalk(g, x, x, w[i..j]) && IsWalk(g, x, v, w[j..])
  {
    var x := WalkVertex(s, w, i);
    WalkSplit(g, s, v, w, j);
    WalkSplit(g, s, x, w[..j], i);
    assert w[..j][..i] == w[..i] && w[..j][i..] == w[i..j];
    assert WalkVertex(s, w[..j], i) == x;
  }

  /**
    Cutting out the cycle between the `i`-th and the `j`-th vertex of a walk
    from `src` (the same vertex) leaves a shorter walk to the same end that
    is no heavier, when no negative cycle is reachable from `src`.
   */
  lemma CutCycle(g: Graph, src: nat, v: nat, w: seq<Edge>, i: nat, j: nat) returns (cut: seq<Edge>)
    requires NoNegativeCycle(g, src) && IsWalk(g, src, v, w)
    requires i < j <= |w| && WalkVertex(src, w, i) == WalkVertex(src, w, j)
    ensures IsWalk(g, src, v, cut) && |cut| < |w| && WalkWeight(cut) <= WalkWeight(w)
  {
    var x := WalkVertex(src, w, i);
    WalkThree(g, src, v, w, i, j);
    assert WalkWeight(w[i..j]) >= 0;
    cut := w[..i] + w[j..];
    WalkAppend(g, src, x, v, w[..i], w[j..]);
    WalkWeightAppend(w[..i], w[j..]);
    WalkWeightThree(w, i, j);
  }

  /**
    Without a negative cycle reachable from `src`, every walk from `src` can
    be shortened to fewer than |V| edges without getting heavier.
   */
  lemma {:induction false} ShortWalk(g: Graph, src: nat, v: nat, w: seq<Edge>) returns (short: seq<Edge>)
    requires ValidGraph(g) && src < |g.vertices| && NoNegativeCycle(g, src)
    requires IsWalk(g, src, v, w)
    ensures IsWalk(g, src, v, short) && |short| < |g.vertices| && WalkWeight(short) <= WalkWeight(w)
    decreases |w|
  {
    if |w| < |g.vertices| {
      short := w;
    } else {
      var i, j := RepeatedVertex(g, src, v, w);
      var cut := CutCycle(g, src, v, w, i, j);
      short := ShortWalk(g, src, v, cut);
    }
  }

  /** Every walk from `src` of at most `k` edges weighs no less than its end's distance. */
  ghost predicate BoundsWalks(g: Graph, src: nat, m: DistMap, k: nat) {
    forall v: nat, w: seq<Edge> :: IsWalk(g, src, v, w) && |w| <= k && v < |m.distances| ==> Le(m.distances[v], Fin(WalkWeight(w)))
  }

  /** The start state bounds the empty walk. */
  lemma InitBoundsWalks(g: Graph, src: nat)
    requires src < |g.vertices|
    ensures BoundsWalks(g, src, InitSingleSource(|g.vertices|, src), 0)
  {
    var m := InitSingleSource(|g.vertices|, src);
    forall v: nat, w: seq<Edge> | IsWalk(g, src, v, w) && |w| <= 0 && v < |m.distances|
      ensures Le(m.distances[v], Fin(WalkWeight(w)))
    {
      assert v == src && WalkWeight(w) == 0;
    }
  }

  /**
    A pass from edge `j` on leaves the end of every edge `i` from `j` on no
    further than that edge's start before the pass plus its weight.
   */
  lemma {:induction false} RelaxFromCoversEdge(g: Graph, m: DistMap, j: nat, i: nat)
    requires ValidGraph(g) && Fits(g, m) && j <= i < |g.edges|
    ensures var e := g.edges[i];
            Le(RelaxFrom(g, m, j).distances[e.dest], Add(m.distances[e.src], e.weight))
    decreases |g.edges| - j
  {
    var e := g.edges[i];
    var m' := Relax(g, m, j);
    RelaxSpec(g, m, j);
    var r := RelaxFrom(g, m', j + 1);
    if j == i {
      RelaxFromBelow(g, m', j + 1);
      LeTransitive(r.distances[e.dest], m'.distances[e.dest], Add(m.distances[e.src], e.weight));
    } else {
      RelaxFromCoversEdge(g, m', j + 1, i);
      AddMonotone(m'.distances[e.src], m.distances[e.src], e.weight);
      LeTransitive(r.distances[e.dest], Add(m'.distances[e.src], e.weight), Add(m.distances[e.src], e.weight));
    }
  }

  /** A pass makes the distances bound walks one edge longer. */
  lemma PassExtendsBound(g: Graph, src: nat, m: DistMap, k: nat)
    requires ValidGraph(g) && Fits(g, m) && BoundsWalks(g, src, m, k)
    ensures BoundsWalks(g, src, Pass(g, m), k + 1)
  {
    var r := Pass(g, m);
    RelaxFromBelow(g, m, 0);
    forall v: nat, w: seq<Edge> | IsWalk(g, src, v, w) && |w| <= k + 1 && v < |r.distances|
      ensures Le(r.distances[v], Fin(WalkWeight(w)))
    {
      if |w| <= k {
        LeTransitive(r.distances[v], m.distances[v], Fin(WalkWeight(w)));
      } else {
        var e := w[|w| - 1];
        var w' := w[..|w| - 1];
        var i :| 0 <= i < |g.edges| && g.edges[i] == e;
        assert Le(m.distances[e.src], Fin(WalkWeight(w')));
        RelaxFromCoversEdge(g, m, 0, i);
        AddMonotone(m.distances[e.src], Fin(WalkWeight(w')), e.weight);
        LeTransitive(r.distances[v], Add(m.distances[e.src], e.weight), Fin(WalkWeight(w)));
      }
    }
  }

  /** After `count` more passes the distances bound walks `count` edges longer. */
  lemma {:induction false} PassesExtendBound(g: Graph, src: nat, m: DistMap, k: nat, count: nat)
    requires ValidGraph(g) && Fits(g, m) && BoundsWalks(g, src, m, k)
    ensures BoundsWalks(g, src, Passes(g, m, count), k + count)
    decreases count
  {
    if count > 0 {
      PassExtendsBound(g, src, m, k);
      PassesExtendBound(g, src, Pass(g, m), k + 1, count - 1);
    }
  }

  /** A distance that bounds the walks of at most `k` edges bounds this one. */
  lemma BoundsWalk(g: Graph, src: nat, m: DistMap, k: nat, v: nat, w: seq<Edge>)
    requires BoundsWalks(g, src, m, k) && IsWalk(g, src, v, w) && |w| <= k && v < |m.distances|
    ensures Le(m.distances[v], Fin(WalkWeight(w)))
  {
  }

  /**
    When every finite distance is the weight of a walk, the distances bound
    every walk of at most |V| edges, and no negative cycle is reachable, edge
    `j` cannot be relaxed.
   */
  lemma BoundedEdgeSettled(g: Graph, src: nat, m: DistMap, j: nat)
    requires ValidGraph(g) && Fits(g, m) && src < |g.vertices| && j < |g.edges|
    requires Sound(g, src, m) && BoundsWalks(g, src, m, |g.vertices|) && NoNegativeCycle(g, src)
    ensures !Improves(g, m, j)
  {
    var e := g.edges[j];
    if m.distances[e.src].Fin? {
      var wu :| IsWalk(g, src, e.src, wu) && WalkWeight(wu) == m.distances[e.src].v;
      var short := ShortWalk(g, src, e.src, wu);
      WalkExtend(g, src, short, e);
      BoundsWalk(g, src, m, |g.vertices|, e.dest, short + [e]);
      assert WalkWeight(short + [e]) <= m.distances[e.src].v + e.weight;
    }
  }

  /**
    The other half of `bellmanFord`'s result: when no negative cycle is
    reachable from the source, the |V| passes leave no edge that can still
    be relaxed, and the status is 1.
   */
  lemma SuccessWithoutNegativeCycle(g: Graph, src: nat)
    requires ValidGraph(g) && src < |g.vertices|
    requires NoNegativeCycle(g, src)
    ensures BellmanFord(g, src).status == 1
  {
    var init := InitSingleSource(|g.vertices|, src);
    var m := BellmanFord(g, src).result;
    InitBoundsWalks(g, src);
    PassesExtendBound(g, src, init, 0, |g.vertices|);
    BellmanFordInvariant(g, src);
    forall j | 0 <= j < |g.edges|
      ensures !Improves(g, m, j)
    {
      BoundedEdgeSettled(g, src, m, j);
    }
  }

  /** `bellmanFord` returns 1 exactly when no negative cycle is reachable from the source. */
  lemma StatusOneIffNoNegativeCycle(g: Graph, src: nat)
    requires ValidGraph(g) && src < |g.vertices|
    ensures BellmanFord(g, src).status == 1 <==> NoNegativeCycle(g, src)
  {
    if BellmanFord(g, src).status == 1 {
      forall v, reach, cycle | IsWalk(g, src, v, reach) && IsWalk(g, v, v, cycle)
        ensures WalkWeight(cycle) >= 0
      {
        WalkInGraph(g, src, v, reach);
        NoNegativeCycleOnSuccess(g, src, v, reach, cycle);
      }
    } else if NoNegativeCycle(g, src) {
      SuccessWithoutNegativeCycle(g, src);
    }
  }

  // ---------------------------------------------------------------------------
  // routes

  /** Every parent is a vertex. */
  predicate ParentsInRange(m: DistMap) {
    forall v :: 0 <= v < |m.parents| && m.parents[v].Some? ==> m.parents[v].value < |m.parents|
  }

  /** The parent of the vertex at position `k` of `r` is the vertex after it. */
  predicate ParentLinkAt(m: DistMap, r: seq<nat>, k: nat)
    requires k + 1 < |r|
  {
    r[k] < |m.parents| && m.parents[r[k]] == Some(r[k + 1])
  }

  /** `r` follows parent links from its first vertex to `src`, meeting `src` only at the end. */
  predicate IsParentChain(m: DistMap, src: nat, r: seq<nat>) {
    && 2 <= |r|
    && r[|r| - 1] == src
    && IsParentPath(m, r)
    && (forall k :: 1 <= k < |r| - 1 ==> r[k] != src)
  }

  /** A vertex whose parent starts a chain, and is not `src`, starts a chain one longer. */
  lemma ChainCons(m: DistMap, src: nat, iter: nat, rest: seq<nat>)
    requires IsParentChain(m, src, rest) && iter < |m.parents| && m.parents[iter] == Some(rest[0]) && rest[0] != src
    ensures IsParentChain(m, src, [iter] + rest)
  {
    var r := [iter] + rest;
    forall k | 0 <= k < |r| - 1
      ensures ParentLinkAt(m, r, k)
    {
      if k > 0 {
        assert ParentLinkAt(m, rest, k - 1);
        assert r[k] == rest[k - 1] && r[k + 1] == rest[k];
      }
    }
    assert forall k :: 1 <= k < |r| - 1 ==> r[k] == rest[k - 1];
  }

  /**
    The walk of `viewPath` from `iter`: list the vertex, step to its parent,
    and stop once the parent is `src`. A missing parent ends the walk with
    None, and so does running out of `fuel` steps.
   */
  function RouteFrom(m: DistMap, src: nat, iter: nat, fuel: nat): (r: Option<seq<nat>>)
    requires ParentsInRange(m) && iter < |m.parents|
    ensures r.Some? ==> IsParentChain(m, src, r.value) && r.value[0] == iter && |r.value| <= fuel + 1
    decreases fuel
  {
    if fuel == 0 then None
    else
      match m.parents[iter]
      case None => None
      case Some(p) =>
        if p == src then Some([iter, src])
        else
          match RouteFrom(m, src, p, fuel - 1)
          case None => None
          case Some(rest) =>
            ChainCons(m, src, iter, rest);
            Some([iter] + rest)
  }

  /** The route from `dest` back to `src`, allowing one step per vertex. */
  function Route(m: DistMap, src: nat, dest: nat): (r: Option<seq<nat>>)
    requires ParentsInRange(m) && dest < |m.parents|
    ensures r.Some? ==> IsParentChain(m, src, r.value) && r.value[0] == dest && |r.value| <= |m.parents| + 1
  {
    RouteFrom(m, src, dest, |m.parents|)
  }

  /** Conversely, a parent chain short enough for the fuel is exactly what the walk returns. */
  lemma {:induction false} ChainIsRouteFrom(m: DistMap, src: nat, iter: nat, fuel: nat, r: seq<nat>)
    requires ParentsInRange(m) && iter < |m.parents|
    requires IsParentChain(m, src, r) && r[0] == iter && |r| <= fuel + 1
    ensures RouteFrom(m, src, iter, fuel) == Some(r)
    decreases fuel
  {
    assert ParentLinkAt(m, r, 0);
    if r[1] == src {
      assert |r| == 2;
      assert r == [iter, src];
    } else {
      var rest := r[1..];
      assert IsParentChain(m, src, rest) by {
        forall k | 0 <= k < |rest| - 1
          ensures ParentLinkAt(m, rest, k)
        {
          assert ParentLinkAt(m, r, k + 1);
          assert rest[k] == r[k + 1] && rest[k + 1] == r[k + 2];
        }
        forall k | 1 <= k < |rest| - 1
          ensures rest[k] != src
        {
          assert rest[k] == r[k + 1];
        }
      }
      ChainIsRouteFrom(m, src, r[1], fuel - 1, rest);
      assert [iter] + rest == r;
    }
  }

  /** The route to `dest` is exactly the parent chain from `dest` to `src`, when one of at most |V| steps exists. */
  lemma RouteIsTheChain(m: DistMap, src: nat, dest: nat, r: seq<nat>)
    requires ParentsInRange(m) && dest < |m.parents|
    ensures Route(m, src, dest) == Some(r) <==> IsParentChain(m, src, r) && r[0] == dest && |r| <= |m.parents| + 1
  {
    if IsParentChain(m, src, r) && r[0] == dest && |r| <= |m.parents| + 1 {
      ChainIsRouteFrom(m, src, dest, |m.parents|, r);
    }
  }

  /** Some edge of `g` goes from `u` to `v`. */
  ghost predicate HasEdge(g: Graph, u: nat, v: nat) {
    exists j :: 0 <= j < |g.edges| && g.edges[j].src == u && g.edges[j].dest == v
  }

  /** Every parent link is an edge of the graph into the child. */
  ghost predicate ParentsAreEdges(g: Graph, m: DistMap) {
    && ParentsInRange(m)
    && forall v :: 0 <= v < |m.parents| && m.parents[v].Some? ==> HasEdge(g, m.parents[v].value, v)
  }

  /** Justified parent links are edges, and so are in range. */
  lemma JustifiedParentsAreEdges(g: Graph, m: DistMap)
    requires ValidGraph(g) && Fits(g, m) && Justified(g, m)
    ensures ParentsAreEdges(g, m)
  {
    forall v | 0 <= v < |m.parents| && m.parents[v].Some?
      ensures m.parents[v].value < |m.parents|
      ensures HasEdge(g, m.parents[v].value, v)
    {
      var j :| 0 <= j < |g.edges| && g.edges[j].src == m.parents[v].value && g.edges[j].dest == v
               && Le(Add(m.distances[g.edges[j].src], g.edges[j].weight), m.distances[v]);
    }
  }

  /**
    Read backwards, a route is a walk of graph edges from the source to the
    destination: every step from a vertex to its parent goes back along an
    edge into that vertex. The parents of a run are justified
    (`BellmanFordInvariant`), so this holds of every route of a run.
   */
  lemma RouteFollowsEdges(g: Graph, m: DistMap, src: nat, dest: nat)
    requires ParentsAreEdges(g, m) && dest < |m.parents|
    ensures Route(m, src, dest).Some? ==>
              var r := Route(m, src, dest).value;
              forall k :: 0 <= k < |r| - 1 ==> HasEdge(g, r[k + 1], r[k])
  {
    var route := Route(m, src, dest);
    if route.Some? {
      ChainFollowsEdges(g, m, src, route.value);
    }
  }

  lemma ChainFollowsEdges(g: Graph, m: DistMap, src: nat, r: seq<nat>)
    requires ParentsAreEdges(g, m) && IsParentChain(m, src, r)
    ensures forall k :: 0 <= k < |r| - 1 ==> HasEdge(g, r[k + 1], r[k])
  {
    forall k | 0 <= k < |r| - 1
      ensures HasEdge(g, r[k + 1], r[k])
    {
      var v := r[k];
      assert ParentLinkAt(m, r, k);
      assert m.parents[v].Some?;
    }
  }

  // ---------------------------------------------------------------------------
  // on status 1 every route reaches the source

  /** Every vertex of `t` but the last has the next one as its parent. */
  predicate IsParentPath(m: DistMap, t: seq<nat>) {
    forall k :: 0 <= k < |t| - 1 ==> ParentLinkAt(m, t, k)
  }

  /** Parent links that lead from a vertex back to itself. */
  predicate IsParentCycle(m: DistMap, c: seq<nat>) {
    2 <= |c| && c[|c| - 1] == c[0] && IsParentPath(m, c)
  }

  /** No vertex occurs twice in `t`. */
  predicate Distinct(t: seq<nat>) {
    forall a, b :: 0 <= a < b < |t| ==> t[a] != t[b]
  }

  /** Some edge from the parent of `x` into `x` could still shorten the distance of `x`. */
  ghost predicate Slack(g: Graph, m: DistMap, x: nat)
    requires ValidGraph(g) && Fits(g, m)
  {
    && x < |m.parents| && m.parents[x].Some?
    && exists j :: 0 <= j < |g.edges| && g.edges[j].src == m.parents[x].value && g.edges[j].dest == x
                   && Improves(g, m, j)
  }

  /** Every vertex other than the source that has a finite distance has a parent. */
  predicate Parented(src: nat, m: DistMap)
    requires |m.distances| == |m.parents|
  {
    forall v :: 0 <= v < |m.parents| && v != src && m.distances[v].Fin? ==> m.parents[v].Some?
  }

  /** Every cycle of parent links holds a slack link. */
  ghost predicate CyclesSlack(g: Graph, m: DistMap)
    requires ValidGraph(g) && Fits(g, m)
  {
    forall c :: IsParentCycle(m, c) ==> exists k :: 0 <= k < |c| - 1 && Slack(g, m, c[k])
  }

  /**
    What a run keeps of the parent links. A link that closes a cycle is set
    by a strict improvement of its parent's child, and that improvement
    makes the link into the improved vertex slack; later relaxations only
    lower the distances that slack is measured from.
   */
  ghost predicate ParentsKept(g: Graph, src: nat, m: DistMap)
    requires ValidGraph(g) && Fits(g, m)
  {
    Parented(src, m) && CyclesSlack(g, m)
  }

  lemma InitKeepsParents(g: Graph, src: nat)
    requires ValidGraph(g) && src < |g.vertices|
    ensures ParentsKept(g, src, InitSingleSource(|g.vertices|, src))
  {
    var m := InitSingleSource(|g.vertices|, src);
    forall c
      ensures !IsParentCycle(m, c)
    {
      if 2 <= |c| {
        assert !ParentLinkAt(m, c, 0);
      }
    }
  }

  /** After edge `j` improves its destination, the link from any child of that destination is slack. */
  lemma ChildOfImprovedIsSlack(g: Graph, m: DistMap, j: nat, x: nat)
    requires ValidGraph(g) && Fits(g, m) && Justified(g, m)
    requires j < |g.edges| && Improves(g, m, j)
    requires x < |g.vertices| && Relax(g, m, j).parents[x] == Some(g.edges[j].dest)
    ensures Slack(g, Relax(g, m, j), x)
  {
    var r := Relax(g, m, j);
    var e := g.edges[j];
    RelaxSpec(g, m, j);
    if x == e.dest {
      assert e.src == e.dest && Improves(g, r, j);
    } else {
      var i :| 0 <= i < |g.edges| && g.edges[i].src == e.dest && g.edges[i].dest == x
               && Le(Add(m.distances[e.dest], g.edges[i].weight), m.distances[x]);
      assert Improves(g, r, i);
    }
  }

  /** A slack link into a vertex that edge `j` does not touch stays slack. */
  lemma SlackKept(g: Graph, m: DistMap, j: nat, x: nat)
    requires ValidGraph(g) && Fits(g, m) && j < |g.edges|
    requires Slack(g, m, x) && x != g.edges[j].dest
    ensures Slack(g, Relax(g, m, j), x)
  {
    var r := Relax(g, m, j);
    RelaxSpec(g, m, j);
    var p := m.parents[x].value;
    var i :| 0 <= i < |g.edges| && g.edges[i].src == p && g.edges[i].dest == x && Improves(g, m, i);
    AddMonotone(r.distances[p], m.distances[p], g.edges[i].weight);
    assert Improves(g, r, i);
  }

  /** A cycle of parent links after an improving relaxation holds a slack link. */
  lemma CycleAfterRelaxIsSlack(g: Graph, m: DistMap, j: nat, c: seq<nat>)
    requires ValidGraph(g) && Fits(g, m) && Justified(g, m) && CyclesSlack(g, m)
    requires j < |g.edges| && Improves(g, m, j)
    requires IsParentCycle(Relax(g, m, j), c)
    ensures exists k :: 0 <= k < |c| - 1 && Slack(g, Relax(g, m, j), c[k])
  {
    var r := Relax(g, m, j);
    var v := g.edges[j].dest;
    RelaxSpec(g, m, j);
    if i :| 0 <= i < |c| - 1 && c[i] == v {
      var k := if i > 0 then i - 1 else |c| - 2;
      assert ParentLinkAt(r, c, k);
      ChildOfImprovedIsSlack(g, m, j, c[k]);
    } else {
      forall k | 0 <= k < |c| - 1
        ensures ParentLinkAt(m, c, k)
      {
        assert ParentLinkAt(r, c, k);
      }
      assert IsParentCycle(m, c);
      var k :| 0 <= k < |c| - 1 && Slack(g, m, c[k]);
      SlackKept(g, m, j, c[k]);
    }
  }

  lemma RelaxKeepsParents(g: Graph, src: nat, m: DistMap, j: nat)
    requires ValidGraph(g) && Fits(g, m) && Justified(g, m) && ParentsKept(g, src, m) && j < |g.edges|
    ensures ParentsKept(g, src, Relax(g, m, j))
  {
    var r := Relax(g, m, j);
    RelaxSpec(g, m, j);
    if Improves(g, m, j) {
      forall c | IsParentCycle(r, c)
        ensures exists k :: 0 <= k < |c| - 1 && Slack(g, r, c[k])
      {
        CycleAfterRelaxIsSlack(g, m, j, c);
      }
    }
  }

  lemma {:induction false} RelaxFromKeepsParents(g: Graph, src: nat, m: DistMap, j: nat)
    requires Invariant(g, src, m) && ParentsKept(g, src, m) && j <= |g.edges|
    ensures ParentsKept(g, src, RelaxFrom(g, m, j))
    decreases |g.edges| - j
  {
    if j < |g.edges| {
      RelaxKeepsInvariant(g, src, m, j);
      RelaxKeepsParents(g, src, m, j);
      RelaxFromKeepsParents(g, src, Relax(g, m, j), j + 1);
    }
  }

  lemma {:induction false} PassesKeepParents(g: Graph, src: nat, m: DistMap, count: nat)
    requires Invariant(g, src, m) && ParentsKept(g, src, m)
    ensures ParentsKept(g, src, Passes(g, m, count))
    decreases count
  {
    if count > 0 {
      var m' := Pass(g, m);
      RelaxFromKeepsInvariant(g, src, m, 0);
      RelaxFromKeepsParents(g, src, m, 0);
      PassesKeepParents(g, src, m', count - 1);
      assert Passes(g, m, count) == Passes(g, m', count - 1);
    }
  }

  /** A distinct sequence of vertices below `n` has at most `n` entries. */
  lemma {:induction false} DistinctBounded(t: seq<nat>, n: nat)
    requires Distinct(t) && forall k :: 0 <= k < |t| ==> t[k] < n
    ensures |t| <= n
    decreases n
  {
    if |t| > 0 {
      assert t[0] < n;
      if i :| 0 <= i < |t| && t[i] == n - 1 {
        var t' := t[..i] + t[i + 1..];
        assert forall k :: 0 <= k < |t'| ==> t'[k] == if k < i then t[k] else t[k + 1];
        DistinctBounded(t', n - 1);
      } else {
        DistinctBounded(t, n - 1);
      }
    }
  }

  /** If the parent of the last vertex of a parent path is already on it, the path closes a cycle. */
  lemma ClosingCycle(m: DistMap, t: seq<nat>, i: nat, p: nat)
    requires IsParentPath(m, t) && i < |t|
    requires t[|t| - 1] < |m.parents| && m.parents[t[|t| - 1]] == Some(p)
    ensures t[i] == p ==> IsParentCycle(m, t[i..] + [p])
  {
    var c := t[i..] + [p];
    forall k | 0 <= k < |c| - 1
      ensures ParentLinkAt(m, c, k)
    {
      if i + k + 1 < |t| {
        assert ParentLinkAt(m, t, i + k);
      }
    }
  }

  /** Every parent is a vertex with a finite distance. */
  predicate ParentsReached(m: DistMap)
    requires |m.distances| == |m.parents|
  {
    forall v :: 0 <= v < |m.parents| && m.parents[v].Some? ==>
      m.parents[v].value < |m.parents| && m.distances[m.parents[v].value].Fin?
  }

  /** A justified parent is reached: the edge into its child leads to a finite distance only from one. */
  lemma JustifiedParentsReached(g: Graph, m: DistMap)
    requires ValidGraph(g) && Fits(g, m) && Justified(g, m)
    ensures ParentsReached(m)
  {
    forall v | 0 <= v < |m.parents| && m.parents[v].Some?
      ensures m.parents[v].value < |m.parents| && m.distances[m.parents[v].value].Fin?
    {
      var p := m.parents[v].value;
      var j :| 0 <= j < |g.edges| && g.edges[j].src == p && g.edges[j].dest == v
               && Le(Add(m.distances[p], g.edges[j].weight), m.distances[v]);
    }
  }

  /** With no cycle of parent links, the parent of the last vertex of a distinct parent path extends it. */
  lemma FreshParent(m: DistMap, t: seq<nat>, p: nat)
    requires forall c :: !IsParentCycle(m, c)
    requires 1 <= |t| && IsParentPath(m, t) && Distinct(t)
    requires t[|t| - 1] < |m.parents| && m.parents[t[|t| - 1]] == Some(p)
    ensures IsParentPath(m, t + [p]) && Distinct(t + [p])
  {
    forall i | 0 <= i < |t|
      ensures t[i] != p
    {
      ClosingCycle(m, t, i, p);
    }
    var t' := t + [p];
    forall k | 0 <= k < |t'| - 1
      ensures ParentLinkAt(m, t', k)
    {
      if k < |t| - 1 {
        assert ParentLinkAt(m, t, k);
      }
    }
  }

  /**
    With no cycle of parent links, the walk from the last vertex of a
    distinct parent path reaches the source: every vertex on the way has a
    finite distance and so a parent, and each new vertex is fresh, so the
    fuel outlasts the vertices.
   */
  lemma {:induction false} RouteFromReaches(src: nat, m: DistMap, t: seq<nat>, fuel: nat)
    requires |m.distances| == |m.parents| && Parented(src, m) && ParentsReached(m) && ParentsInRange(m)
    requires forall c :: !IsParentCycle(m, c)
    requires 1 <= |t| && IsParentPath(m, t) && Distinct(t)
    requires forall k :: 0 <= k < |t| ==> t[k] < |m.parents|
    requires t[|t| - 1] != src && m.distances[t[|t| - 1]].Fin?
    requires |t| + fuel > |m.parents|
    ensures RouteFrom(m, src, t[|t| - 1], fuel).Some?
    decreases fuel
  {
    var x := t[|t| - 1];
    DistinctBounded(t, |m.parents|);
    var p := m.parents[x].value;
    if p != src {
      FreshParent(m, t, p);
      RouteFromReaches(src, m, t + [p], fuel - 1);
    }
  }

  /**
    On status 1 the walk of `viewPath` ends: from a vertex other than the
    source it reaches the source exactly when the vertex has a finite
    distance, and otherwise the vertex has no parent to step to.
   */
  lemma RouteOnSuccess(g: Graph, src: nat, v: nat)
    requires ValidGraph(g) && src < |g.vertices| && v < |g.vertices|
    requires BellmanFord(g, src).status == 1
    ensures ParentsInRange(BellmanFord(g, src).result)
    ensures var m := BellmanFord(g, src).result;
            v != src ==> (Route(m, src, v).Some? <==> m.distances[v].Fin?)
    ensures var m := BellmanFord(g, src).result;
            v != src && m.distances[v].Inf? ==> m.parents[v].None?
  {
    var m := BellmanFord(g, src).result;
    var init := InitSingleSource(|g.vertices|, src);
    BellmanFordInvariant(g, src);
    JustifiedParentsAreEdges(g, m);
    InitKeepsInvariant(g, src);
    InitKeepsParents(g, src);
    PassesKeepParents(g, src, init, |g.vertices|);
    if v != src && m.distances[v].Fin? {
      assert forall x :: 0 <= x < |m.parents| ==> !Slack(g, m, x);
      JustifiedParentsReached(g, m);
      RouteFromReaches(src, m, [v], |m.parents|);
    }
  }

  /** `viewAllPaths` from vertex `i` on: the route to every vertex but the source, in vertex order. */
  function RoutesFrom(m: DistMap, src: nat, i: nat): (r: seq<(nat, Option<seq<nat>>)>)
    requires ParentsInRange(m) && i <= |m.parents|
    ensures forall k :: 0 <= k < |r| ==> i <= r[k].0 < |m.parents| && r[k].0 != src
    ensures forall k :: 0 <= k < |r| ==> r[k].1 == Route(m, src, r[k].0)
    ensures forall k, l :: 0 <= k < l < |r| ==> r[k].0 < r[l].0
    ensures forall v :: i <= v < |m.parents| && v != src ==> (v, Route(m, src, v)) in r
    decreases |m.parents| - i
  {
    if i == |m.parents| then []
    else if i == src then RoutesFrom(m, src, i + 1)
    else [(i, Route(m, src, i))] + RoutesFrom(m, src, i + 1)
  }

  function AllRoutes(m: DistMap, src: nat): (r: seq<(nat, Option<seq<nat>>)>)
    requires ParentsInRange(m)
    ensures forall k :: 0 <= k < |r| ==> r[k].0 < |m.parents| && r[k].0 != src
    ensures forall k :: 0 <= k < |r| ==> r[k].1 == Route(m, src, r[k].0)
    ensures forall k, l :: 0 <= k < l < |r| ==> r[k].0 < r[l].0
    ensures forall v :: 0 <= v < |m.parents| && v != src ==> (v, Route(m, src, v)) in r
  {
    RoutesFrom(m, src, 0)
  }

  // ---------------------------------------------------------------------------
  // documented run

  /** The documented input: eight vertices named 0 to 7 and sixteen edges, listed edge by edge. */
  predicate IsSampleGraph(g: Graph) {
    && g.vertices == [Vertex("0"), Vertex("1"), Vertex("2"), Vertex("3"), Vertex("4"), Vertex("5"), Vertex("6"), Vertex("7")]
    && |g.edges| == 16
    && g.edges[0] == Edge(0, 1, 5)
    && g.edges[1] == Edge(0, 4, 9)
    && g.edges[2] == Edge(0, 7, 8)
    && g.edges[3] == Edge(1, 2, 12)
    && g.edges[4] == Edge(1, 3, 15)
    && g.edges[5] == Edge(1, 7, 4)
    && g.edges[6] == Edge(2, 3, 3)
    && g.edges[7] == Edge(2, 6, 11)
    && g.edges[8] == Edge(3, 6, 9)
    && g.edges[9] == Edge(4, 5, 4)
    && g.edges[10] == Edge(4, 6, 20)
    && g.edges[11] == Edge(4, 7, 5)
    && g.edges[12] == Edge(5, 2, 1)
    && g.edges[13] == Edge(5, 6, 13)
    && g.edges[14] == Edge(7, 5, 6)
    && g.edges[15] == Edge(7, 2, 7)
  }

  /** The start state from vertex 0: only the source is at distance 0. */
  const SampleStart :=
    DistMap([Fin(0), Inf, Inf, Inf, Inf, Inf, Inf, Inf],
            [None, None, None, None, None, None, None, None])

  lemma SampleInit()
    ensures InitSingleSource(8, 0) == SampleStart
  {
    var m := InitSingleSource(8, 0);
    assert m.distances == SampleStart.distances;
    assert m.parents == SampleStart.parents;
  }

  /** After the first two edges of the first pass. */
  const SampleAfterTwoEdges :=
    DistMap([Fin(0), Fin(5), Inf, Inf, Fin(9), Inf, Inf, Inf],
            [None, Some(0), None, None, Some(0), None, None, None])

  /** After the first four edges of the first pass. */
  const SampleAfterFourEdges :=
    DistMap([Fin(0), Fin(5), Fin(17), Inf, Fin(9), Inf, Inf, Fin(8)],
            [None, Some(0), Some(1), None, Some(0), None, None, Some(0)])

  /** After the first eight edges of the first pass. */
  const SampleAfterEightEdges :=
    DistMap([Fin(0), Fin(5), Fin(17), Fin(20), Fin(9), Inf, Fin(28), Fin(8)],
            [None, Some(0), Some(1), Some(1), Some(0), None, Some(2), Some(0)])

  /** After the first twelve edges of the first pass. */
  const SampleAfterTwelveEdges :=
    DistMap([Fin(0), Fin(5), Fin(17), Fin(20), Fin(9), Fin(13), Fin(28), Fin(8)],
            [None, Some(0), Some(1), Some(1), Some(0), Some(4), Some(2), Some(0)])

  /** After the first pass. */
  const SampleAfterOnePass :=
    DistMap([Fin(0), Fin(5), Fin(14), Fin(20), Fin(9), Fin(13), Fin(26), Fin(8)],
            [None, Some(0), Some(5), Some(1), Some(0), Some(4), Some(5), Some(0)])

  /** The documented distances and parents, reached after the first eight edges of the second pass. */
  const SampleResult :=
    DistMap([Fin(0), Fin(5), Fin(14), Fin(17), Fin(9), Fin(13), Fin(25), Fin(8)],
            [None, Some(0), Some(5), Some(2), Some(0), Some(4), Some(2), Some(0)])

  lemma RelaxFromUnfold(g: Graph, m: DistMap, j: nat)
    requires ValidGraph(g) && Fits(g, m) && j < |g.edges|
    ensures RelaxFrom(g, m, j) == RelaxFrom(g, Relax(g, m, j), j + 1)
  {
  }

  /** Pass 1 of the documented run over edges 0 and 1. */
  lemma SamplePass1a(g: Graph)
    requires IsSampleGraph(g)
    ensures ValidGraph(g) && RelaxFrom(g, SampleStart, 0) == RelaxFrom(g, SampleAfterTwoEdges, 2)
  {
    assert ValidGraph(g);
    var s0 := SampleStart;
    var s1 := DistMap([Fin(0), Fin(5), Inf, Inf, Inf, Inf, Inf, Inf],
                [None, Some(0), None, None, None, None, None, None]);
    var s2 := SampleAfterTwoEdges;
    assert Relax(g, s0, 0) == s1;
    RelaxFromUnfold(g, s0, 0);
    assert Relax(g, s1, 1) == s2;
    RelaxFromUnfold(g, s1, 1);
  }

  /** Pass 1 of the documented run over edges 2 and 3. */
  lemma SamplePass1a2(g: Graph)
    requires IsSampleGraph(g)
    ensures ValidGraph(g) && RelaxFrom(g, SampleAfterTwoEdges, 2) == RelaxFrom(g, SampleAfterFourEdges, 4)
  {
    assert ValidGraph(g);
    var s2 := SampleAfterTwoEdges;
    var s3 := DistMap([Fin(0), Fin(5), Inf, Inf, Fin(9), Inf, Inf, Fin(8)],
                [None, Some(0), None, None, Some(0), None, None, Some(0)]);
    var s4 := SampleAfterFourEdges;
    assert Relax(g, s2, 2) == s3;
    RelaxFromUnfold(g, s2, 2);
    assert Relax(g, s3, 3) == s4;
    RelaxFromUnfold(g, s3, 3);
  }

  /** Pass 1 of the documented run over edges 4 to 7, one edge at a time. */
  lemma SamplePass1b(g: Graph)
    requires IsSampleGraph(g)
    ensures ValidGraph(g) && RelaxFrom(g, SampleAfterFourEdges, 4) == RelaxFrom(g, SampleAfterEightEdges, 8)
  {
    assert ValidGraph(g);
    var s4 := SampleAfterFourEdges;
    // edges 5 and 6 improve nothing: the state after edge 4 stays
    var s5 := DistMap([Fin(0), Fin(5), Fin(17), Fin(20), Fin(9), Inf, Inf, Fin(8)],
                [None, Some(0), Some(1), Some(1), Some(0), None, None, Some(0)]);
    var s8 := SampleAfterEightEdges;
    assert Relax(g, s4, 4) == s5;
    RelaxFromUnfold(g, s4, 4);
    assert Relax(g, s5, 5) == s5;
    RelaxFromUnfold(g, s5, 5);
    assert Relax(g, s5, 6) == s5;
    RelaxFromUnfold(g, s5, 6);
    assert Relax(g, s5, 7) == s8;
    RelaxFromUnfold(g, s5, 7);
  }

  /** Pass 1 of the documented run over edges 8 to 11, one edge at a time. */
  lemma SamplePass1c(g: Graph)
    requires IsSampleGraph(g)
    ensures ValidGraph(g) && RelaxFrom(g, SampleAfterEightEdges, 8) == RelaxFrom(g, SampleAfterTwelveEdges, 12)
  {
    assert ValidGraph(g);
    var s8 := SampleAfterEightEdges;
    var s9 := DistMap([Fin(0), Fin(5), Fin(17), Fin(20), Fin(9), Inf, Fin(28), Fin(8)],
                [None, Some(0), Some(1), Some(1), Some(0), None, Some(2), Some(0)]);
    var s10 := SampleAfterTwelveEdges;
    assert Relax(g, s8, 8) == s9;
    RelaxFromUnfold(g, s8, 8);
    assert Relax(g, s9, 9) == s10;
    RelaxFromUnfold(g, s9, 9);
    assert Relax(g, s10, 10) == s10;
    RelaxFromUnfold(g, s10, 10);
    assert Relax(g, s10, 11) == s10;
    RelaxFromUnfold(g, s10, 11);
  }

  /** Pass 1 of the documented run over edges 12 to 15, one edge at a time. */
  lemma SamplePass1d(g: Graph)
    requires IsSampleGraph(g)
    ensures ValidGraph(g) && RelaxFrom(g, SampleAfterTwelveEdges, 12) == SampleAfterOnePass
  {
    assert ValidGraph(g);
    var s12 := SampleAfterTwelveEdges;
    var s13 := DistMap([Fin(0), Fin(5), Fin(14), Fin(20), Fin(9), Fin(13), Fin(28), Fin(8)],
                 [None, Some(0), Some(5), Some(1), Some(0), Some(4), Some(2), Some(0)]);
    var s14 := SampleAfterOnePass;
    assert Relax(g, s12, 12) == s13;
    RelaxFromUnfold(g, s12, 12);
    assert Relax(g, s13, 13) == s14;
    RelaxFromUnfold(g, s13, 13);
    assert Relax(g, s14, 14) == s14;
    RelaxFromUnfold(g, s14, 14);
    assert Relax(g, s14, 15) == s14;
    RelaxFromUnfold(g, s14, 15);
    assert RelaxFrom(g, s14, 16) == s14;
  }

  /** Pass 2 of the documented run over edges 0 to 3: nothing improves. */
  lemma SamplePass2a(g: Graph)
    requires IsSampleGraph(g)
    ensures ValidGraph(g) && RelaxFrom(g, SampleAfterOnePass, 0) == RelaxFrom(g, SampleAfterOnePass, 4)
  {
    assert ValidGraph(g);
    var s := SampleAfterOnePass;
    assert Relax(g, s, 0) == s;
    RelaxFromUnfold(g, s, 0);
    assert Relax(g, s, 1) == s;
    RelaxFromUnfold(g, s, 1);
    assert Relax(g, s, 2) == s;
    RelaxFromUnfold(g, s, 2);
    assert Relax(g, s, 3) == s;
    RelaxFromUnfold(g, s, 3);
  }

  /** Pass 2 of the documented run over edges 4 to 7: edges 6 and 7 improve vertices 3 and 6. */
  lemma SamplePass2b(g: Graph)
    requires IsSampleGraph(g)
    ensures ValidGraph(g) && RelaxFrom(g, SampleAfterOnePass, 4) == RelaxFrom(g, SampleResult, 8)
  {
    assert ValidGraph(g);
    var s4 := SampleAfterOnePass;
    var s7 := DistMap([Fin(0), Fin(5), Fin(14), Fin(17), Fin(9), Fin(13), Fin(26), Fin(8)],
                [None, Some(0), Some(5), Some(2), Some(0), Some(4), Some(5), Some(0)]);
    var s8 := SampleResult;
    assert Relax(g, s4, 4) == s4;
    RelaxFromUnfold(g, s4, 4);
    assert Relax(g, s4, 5) == s4;
    RelaxFromUnfold(g, s4, 5);
    assert Relax(g, s4, 6) == s7;
    RelaxFromUnfold(g, s4, 6);
    assert Relax(g, s7, 7) == s8;
    RelaxFromUnfold(g, s7, 7);
  }

  /** Pass 2 of the documented run over edges 8 to 11: nothing improves. */
  lemma SamplePass2c(g: Graph)
    requires IsSampleGraph(g)
    ensures ValidGraph(g) && RelaxFrom(g, SampleResult, 8) == RelaxFrom(g, SampleResult, 12)
  {
    assert ValidGraph(g);
    var s := SampleResult;
    assert Relax(g, s, 8) == s;
    RelaxFromUnfold(g, s, 8);
    assert Relax(g, s, 9) == s;
    RelaxFromUnfold(g, s, 9);
    assert Relax(g, s, 10) == s;
    RelaxFromUnfold(g, s, 10);
    assert Relax(g, s, 11) == s;
    RelaxFromUnfold(g, s, 11);
  }

  /** Pass 2 of the documented run over edges 12 to 15: nothing improves. */
  lemma SamplePass2d(g: Graph)
    requires IsSampleGraph(g)
    ensures ValidGraph(g) && RelaxFrom(g, SampleResult, 12) == SampleResult
  {
    assert ValidGraph(g);
    var s := SampleResult;
    assert Relax(g, s, 12) == s;
    RelaxFromUnfold(g, s, 12);
    assert Relax(g, s, 13) == s;
    RelaxFromUnfold(g, s, 13);
    assert Relax(g, s, 14) == s;
    RelaxFromUnfold(g, s, 14);
    assert Relax(g, s, 15) == s;
    RelaxFromUnfold(g, s, 15);
    assert RelaxFrom(g, s, 16) == s;
  }

  /** Every edge of the documented graph is settled by the documented distances. */
  lemma SampleSettled(g: Graph)
    requires IsSampleGraph(g)
    ensures ValidGraph(g) && Fits(g, SampleResult) && Settled(g, SampleResult)
  {
    assert ValidGraph(g);
    forall j | 0 <= j < |g.edges|
      ensures !Improves(g, SampleResult, j)
    {
      assert j in {0, 1, 2, 3, 4, 5, 6, 7, 8, 9, 10, 11, 12, 13, 14, 15};
    }
  }

  /** The documented run from vertex 0: status 1 with the documented distances and parents. */
  lemma SampleRun(g: Graph)
    requires IsSampleGraph(g)
    ensures ValidGraph(g)
    ensures BellmanFord(g, 0) == Outcome(1, SampleResult)
  {
    SampleInit();
    SamplePass1a(g);
    SamplePass1a2(g);
    SamplePass1b(g);
    SamplePass1c(g);
    SamplePass1d(g);
    SamplePass2a(g);
    SamplePass2b(g);
    SamplePass2c(g);
    SamplePass2d(g);
    SampleSettled(g);
    SettledPasses(g, SampleResult, 6);
    var init := InitSingleSource(8, 0);
    assert Pass(g, init) == SampleAfterOnePass;
    assert Pass(g, SampleAfterOnePass) == SampleResult;
    assert Passes(g, init, 8) == Passes(g, SampleAfterOnePass, 7);
    assert Passes(g, SampleAfterOnePass, 7) == Passes(g, SampleResult, 6);
  }

  /** The parent links of the documented result, listed vertex by vertex. */
  predicate IsSampleParents(m: DistMap) {
    && |m.parents| == 8
    && m.parents[0] == None
    && m.parents[1] == Some(0)
    && m.parents[2] == Some(5)
    && m.parents[3] == Some(2)
    && m.parents[4] == Some(0)
    && m.parents[5] == Some(4)
    && m.parents[6] == Some(2)
    && m.parents[7] == Some(0)
  }

  lemma SampleResultParents()
    ensures IsSampleParents(SampleResult)
  {
  }

  /**
    The documented routes, read from the destination back to vertex 0. The
    parent links are those of the documented result (`SampleResultParents`).
   */
  lemma SampleRoutes(m: DistMap)
    requires IsSampleParents(m)
    ensures ParentsInRange(m)
    ensures Route(m, 0, 1) == Some([1, 0])
    ensures Route(m, 0, 2) == Some([2, 5, 4, 0])
    ensures Route(m, 0, 3) == Some([3, 2, 5, 4, 0])
    ensures Route(m, 0, 4) == Some([4, 0])
    ensures Route(m, 0, 5) == Some([5, 4, 0])
    ensures Route(m, 0, 6) == Some([6, 2, 5, 4, 0])
    ensures Route(m, 0, 7) == Some([7, 0])
  {
    assert ParentsInRange(m) by {
      forall v | 0 <= v < |m.parents| && m.parents[v].Some?
        ensures m.parents[v].value < |m.parents|
      {
        assert v in {0, 1, 2, 3, 4, 5, 6, 7};
      }
    }
    SampleShortRoutes(m);
    SampleLongRoutes(m);
  }

  lemma SampleShortRoutes(m: DistMap)
    requires IsSampleParents(m) && ParentsInRange(m)
    ensures Route(m, 0, 1) == Some([1, 0])
    ensures Route(m, 0, 4) == Some([4, 0])
    ensures Route(m, 0, 5) == Some([5, 4, 0])
    ensures Route(m, 0, 7) == Some([7, 0])
  {
    RouteIsTheChain(m, 0, 1, [1, 0]);
    RouteIsTheChain(m, 0, 4, [4, 0]);
    RouteIsTheChain(m, 0, 5, [5, 4, 0]);
    RouteIsTheChain(m, 0, 7, [7, 0]);
  }

  lemma SampleLongRoutes(m: DistMap)
    requires IsSampleParents(m) && ParentsInRange(m)
    ensures Route(m, 0, 2) == Some([2, 5, 4, 0])
    ensures Route(m, 0, 3) == Some([3, 2, 5, 4, 0])
    ensures Route(m, 0, 6) == Some([6, 2, 5, 4, 0])
  {
    RouteIsTheChain(m, 0, 2, [2, 5, 4, 0]);
    RouteIsTheChain(m, 0, 3, [3, 2, 5, 4, 0]);
    RouteIsTheChain(m, 0, 6, [6, 2, 5, 4, 0]);
  }
}
