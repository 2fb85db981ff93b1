/** The undirected point graph of `Graph.cs`.

    A vertex is a point and an insertion index; vertex equality, hashing and
    ordering use the index only, so the graph's two dictionaries are keyed by
    index here. `vertices` maps each vertex to its adjacency set, `edges` maps it
    to its outgoing edges (target vertex and the curve that leads there), and
    `data` gives each vertex its point. */
module Graphs {
  import opened Wrappers

  /** A 3D point, compared exactly. */
  datatype Point3d = Point3d(x: real, y: real, z: real)

  /** A curve between two points. `shape` stands for the geometry between the
      end points; `forward` flips when the parameter direction is reversed. */
  datatype Curve3d = Curve3d(startPoint: Point3d, endPoint: Point3d, shape: int, forward: bool)

  /** `Clone()` followed by `GetReverseParameterCurve()`: the same curve run backwards. */
  function Reversed(c: Curve3d): (r: Curve3d)
    ensures r.startPoint == c.endPoint && r.endPoint == c.startPoint
    ensures r != c
  {
    c.(startPoint := c.endPoint, endPoint := c.startPoint, forward := !c.forward)
  }

  lemma ReversedTwice(c: Curve3d)
    ensures Reversed(Reversed(c)) == c
  {
  }

  // ---------------------------------------------------------------------------
  // GraphVertex

  datatype GraphVertex = GraphVertex(data: Point3d, index: int)

  /** `GraphVertex.Equals(IGraphVertex)`: same index. Equal vertices hash
      alike, as `GetHashCode` must. */
  predicate VertexEquals(a: GraphVertex, b: GraphVertex)
    ensures VertexEquals(a, b) ==> HashCode(a) == HashCode(b)
  {
    a.index == b.index
  }

  /** `GraphVertex.GetHashCode`. */
  function HashCode(a: GraphVertex): int
  {
    a.index
  }

  /** `GraphVertex.CompareTo(IGraphVertex)`: 0 when equal, else -1 or 1 by index. */
  function CompareTo(a: GraphVertex, b: GraphVertex): (r: int)
    ensures r == -1 || r == 0 || r == 1
    ensures r == 0 <==> VertexEquals(a, b)
    ensures r < 0 <==> a.index < b.index
  {
    if VertexEquals(a, b) then 0 else if a.index < b.index then -1 else 1
  }

  /** Equality, hashing and ordering agree, and the ordering is a total order. */
  lemma VertexOrderLaws(a: GraphVertex, b: GraphVertex, c: GraphVertex)
    ensures VertexEquals(a, b) ==> HashCode(a) == HashCode(b)
    ensures CompareTo(a, b) == -CompareTo(b, a)
    ensures CompareTo(a, b) <= 0 && CompareTo(b, c) <= 0 ==> CompareTo(a, c) <= 0
    ensures VertexEquals(a, b) && !VertexEquals(b, c) ==> !VertexEquals(a, c)
  {
  }

  /** What `Equals(object)` and `CompareTo(object)` may be given. */
  datatype Obj = NullObj | VertexObj(v: GraphVertex) | OtherObj

  /** `GraphVertex.Equals(object)`: false for null and for non-vertices.
      It agrees with `CompareTo(object)`: equal exactly when that compares 0. */
  predicate EqualsObject(a: GraphVertex, obj: Obj)
    ensures EqualsObject(a, obj) <==> CompareToObject(a, obj) == Success(0)
  {
    obj.VertexObj? && VertexEquals(a, obj.v)
  }

  datatype GraphError =
    | NotInGraph   // ArgumentException: source or target not in the graph
    | NotAVertex   // ArgumentException from CompareTo(object)
    | OutOfRange   // ArgumentOutOfRangeException: index into an empty list

  /** `GraphVertex.CompareTo(object)`: 1 for null, throws for a non-vertex. */
  function CompareToObject(a: GraphVertex, obj: Obj): (r: Result<int, GraphError>)
    ensures obj.NullObj? ==> r == Success(1)
    ensures obj.OtherObj? ==> r == Failure(NotAVertex)
    ensures obj.VertexObj? ==> r.Success? && (r.value == 0 <==> VertexEquals(a, obj.v))
  {
    match obj
    case NullObj => Success(1)
    case OtherObj => Failure(NotAVertex)
    case VertexObj(v) => Success(CompareTo(a, v))
  }

  /** A `GraphEdge`: the vertex it leads to and the curve leading there. */
  datatype GraphEdge = GraphEdge(targetVertex: GraphVertex, targetEdge: Curve3d)

  // ---------------------------------------------------------------------------
  // The abstract state of a graph and its invariant

  datatype GraphState = GraphState(
    vertices: map<int, set<int>>,
    edges: map<int, set<GraphEdge>>,
    data: map<int, Point3d>,
    insertCount: nat)

  /** The vertex with index `i`. */
  function VertexAt(g: GraphState, i: int): GraphVertex
    requires i in g.data
  {
    GraphVertex(g.data[i], i)
  }

  /** `v` is one of the graph's vertices. */
  predicate IsVertex(g: GraphState, v: GraphVertex)
  {
    v.index in g.data && g.data[v.index] == v.data
  }

  /** `b` is in the adjacency set of `a`. */
  predicate Adjacent(g: GraphState, a: int, b: int)
  {
    a in g.vertices && b in g.vertices[a]
  }

  /** Both tables and the points have the same vertices. */
  ghost predicate SameKeys(g: GraphState)
  {
    g.vertices.Keys == g.edges.Keys && g.edges.Keys == g.data.Keys
  }

  /** Every index is below the insertion counter. */
  ghost predicate IndicesBelow(g: GraphState)
  {
    forall i | i in g.data :: 0 <= i < g.insertCount
  }

  /** No two vertices hold the same point. */
  ghost predicate DistinctData(g: GraphState)
  {
    forall i, j | i in g.data && j in g.data && g.data[i] == g.data[j] :: i == j
  }

  /** Adjacency is symmetric and refers only to vertices of the graph. */
  ghost predicate Symmetric(g: GraphState)
  {
    forall i, j | i in g.vertices && j in g.vertices[i] :: j in g.vertices && i in g.vertices[j]
  }

  /** Each edge leads to an adjacent vertex of the graph, along a curve from the
      source's point to the target's point. */
  ghost predicate EdgesSound(g: GraphState)
    requires SameKeys(g)
  {
    forall i, e | i in g.edges && e in g.edges[i] ::
      && IsVertex(g, e.targetVertex)
      && e.targetVertex.index in g.vertices[i]
      && e.targetEdge.startPoint == g.data[i]
      && e.targetEdge.endPoint == e.targetVertex.data
  }

  /** Each adjacency has an edge. */
  ghost predicate EdgesComplete(g: GraphState)
    requires SameKeys(g)
  {
    forall i, j | i in g.vertices && j in g.vertices[i] :: HasEdgeToIndex(g, i, j)
  }

  /** Some edge of vertex `i` leads to the vertex with index `j`. */
  ghost predicate HasEdgeToIndex(g: GraphState, i: int, j: int)
    requires i in g.edges
  {
    exists e :: e in g.edges[i] && e.targetVertex.index == j
  }

  /** The invariant every operation of the graph keeps. */
  ghost predicate Inv(g: GraphState)
  {
    && SameKeys(g) && IndicesBelow(g) && DistinctData(g) && Symmetric(g)
    && EdgesSound(g) && EdgesComplete(g)
  }

  /** The state of a new graph. */
  function EmptyGraph(): (g: GraphState)
    ensures Inv(g)
  {
    GraphState(map[], map[], map[], 0)
  }

  /** The vertex holding `pt`, if any. */
  ghost function Find(g: GraphState, pt: Point3d): (r: Option<int>)
    ensures r.Some? ==> r.value in g.data && g.data[r.value] == pt
    ensures r.None? ==> forall i | i in g.data :: g.data[i] != pt
  {
    if exists i :: i in g.data && g.data[i] == pt
    then Some(var i :| i in g.data && g.data[i] == pt; i)
    else None
  }

  /** The state after `AddVertex(pt)` and the vertex it returns. */
  ghost function AddVertexSpec(g: GraphState, pt: Point3d): (GraphState, GraphVertex)
  {
    match Find(g, pt)
    case Some(i) => (g, VertexAt(g, i))
    case None =>
      var i := g.insertCount;
      (GraphState(g.vertices[i := {}], g.edges[i := {}], g.data[i := pt], i + 1), GraphVertex(pt, i))
  }

  /** `c` recorded from `a` to `b`, and reversed from `b` to `a`. */
  function Link(g: GraphState, a: GraphVertex, b: GraphVertex, c: Curve3d): GraphState
    requires a.index in g.vertices && a.index in g.edges
    requires b.index in g.vertices && b.index in g.edges
  {
    var g1 := g.(vertices := g.vertices[a.index := g.vertices[a.index] + {b.index}],
                 edges := g.edges[a.index := g.edges[a.index] + {GraphEdge(b, c)}]);
    g1.(vertices := g1.vertices[b.index := g1.vertices[b.index] + {a.index}],
        edges := g1.edges[b.index := g1.edges[b.index] + {GraphEdge(a, Reversed(c))}])
  }

  /** The state after `AddEdge(c)`. */
  ghost function AddEdgeSpec(g: GraphState, c: Curve3d): GraphState
    requires Inv(g)
  {
    AddVertexLemma(g, c.startPoint);
    var (g1, start) := AddVertexSpec(g, c.startPoint);
    AddVertexLemma(g1, c.endPoint);
    var (g2, end) := AddVertexSpec(g1, c.endPoint);
    Link(g2, start, end, c)
  }

  /** The state after `RemoveVertex(pt)`. */
  ghost function RemoveVertexSpec(g: GraphState, pt: Point3d): GraphState
  {
    match Find(g, pt)
    case None => g
    case Some(k) =>
      GraphState(
        map i | i in g.vertices && i != k :: g.vertices[i] - {k},
        map i | i in g.edges && i != k :: (set e | e in g.edges[i] && e.targetVertex.index != k),
        g.data - {k},
        g.insertCount)
  }

  // ---------------------------------------------------------------------------
  // What the operations promise

  /** `AddVertex(pt)`: an existing vertex with that point is returned and nothing
      changes; otherwise exactly one vertex is added, with the next index and
      no neighbours and no edges. The invariant is kept. */
  lemma AddVertexLemma(g: GraphState, pt: Point3d)
    requires Inv(g)
    ensures var (g', v) := AddVertexSpec(g, pt);
      && Inv(g')
      && IsVertex(g', v) && v.data == pt
      && (forall i | i in g.data :: i in g'.data && g'.data[i] == g.data[i])
      && (forall i | i in g.edges :: i in g'.edges && g'.edges[i] == g.edges[i])
      && ((exists i :: i in g.data && g.data[i] == pt) ==> g' == g)
      && ((forall i | i in g.data :: g.data[i] != pt) ==>
            && v.index == g.insertCount && g'.insertCount == g.insertCount + 1
            && g'.data == g.data[v.index := pt]
            && g'.vertices == g.vertices[v.index := {}]
            && g'.edges == g.edges[v.index := {}])
  {
    var (g', v) := AddVertexSpec(g, pt);
    if Find(g, pt).None? {
      var i := g.insertCount;
      assert i !in g.data;
      assert SameKeys(g');
      forall x, j | x in g'.vertices && j in g'.vertices[x]
        ensures j in g'.vertices && x in g'.vertices[j]
      {
        assert x != i && x in g.vertices && j in g.vertices[x];
      }
      forall x, e | x in g'.edges && e in g'.edges[x]
        ensures && IsVertex(g', e.targetVertex)
                && e.targetVertex.index in g'.vertices[x]
                && e.targetEdge.startPoint == g'.data[x]
                && e.targetEdge.endPoint == e.targetVertex.data
      {
        assert x != i && e in g.edges[x];
      }
      assert EdgesSound(g');
      forall x, j | x in g'.vertices && j in g'.vertices[x]
        ensures HasEdgeToIndex(g', x, j)
      {
        assert x != i && HasEdgeToIndex(g, x, j);
        var e :| e in g.edges[x] && e.targetVertex.index == j;
        assert e in g'.edges[x];
      }
    }
  }

  /** What `Link` adds to each table. */
  lemma LinkShape(g: GraphState, a: GraphVertex, b: GraphVertex, c: Curve3d)
    requires a.index in g.vertices && a.index in g.edges
    requires b.index in g.vertices && b.index in g.edges
    ensures var g' := Link(g, a, b, c);
      && g'.data == g.data && g'.insertCount == g.insertCount
      && g'.vertices.Keys == g.vertices.Keys && g'.edges.Keys == g.edges.Keys
      && (forall x | x in g.vertices :: g'.vertices[x] ==
            g.vertices[x] + (if x == a.index then {b.index} else {}) + (if x == b.index then {a.index} else {}))
      && (forall x | x in g.edges :: g'.edges[x] ==
            g.edges[x] + (if x == a.index then {GraphEdge(b, c)} else {})
                       + (if x == b.index then {GraphEdge(a, Reversed(c))} else {}))
  {
  }

  /** Edges and adjacency of two linked vertices, and the invariant afterwards. */
  lemma LinkLemma(g: GraphState, a: GraphVertex, b: GraphVertex, c: Curve3d)
    requires Inv(g) && IsVertex(g, a) && IsVertex(g, b)
    requires c.startPoint == a.data && c.endPoint == b.data
    ensures var g' := Link(g, a, b, c);
      && Inv(g')
      && g'.data == g.data && g'.insertCount == g.insertCount
      && (forall x | x in g.edges :: g.edges[x] <= g'.edges[x])
      && b.index in g'.vertices[a.index] && a.index in g'.vertices[b.index]
      && GraphEdge(b, c) in g'.edges[a.index]
      && GraphEdge(a, Reversed(c)) in g'.edges[b.index]
  {
    var g' := Link(g, a, b, c);
    LinkShape(g, a, b, c);
    assert SameKeys(g');
    forall i, j | i in g'.vertices && j in g'.vertices[i]
      ensures j in g'.vertices && i in g'.vertices[j]
    {
      if j !in g.vertices[i] {
        assert (i == a.index && j == b.index) || (i == b.index && j == a.index);
      }
    }
    forall i, e | i in g'.edges && e in g'.edges[i]
      ensures && IsVertex(g', e.targetVertex)
              && e.targetVertex.index in g'.vertices[i]
              && e.targetEdge.startPoint == g'.data[i]
              && e.targetEdge.endPoint == e.targetVertex.data
    {
      if e !in g.edges[i] {
        assert (i == a.index && e == GraphEdge(b, c)) || (i == b.index && e == GraphEdge(a, Reversed(c)));
      }
    }
    assert EdgesSound(g');
    forall i, j | i in g'.vertices && j in g'.vertices[i]
      ensures HasEdgeToIndex(g', i, j)
    {
      if i == b.index && j == a.index {
        assert GraphEdge(a, Reversed(c)) in g'.edges[i];
      } else if i == a.index && j == b.index {
        assert GraphEdge(b, c) in g'.edges[i];
      } else {
        assert j in g.vertices[i];
        assert HasEdgeToIndex(g, i, j);
        var e :| e in g.edges[i] && e.targetVertex.index == j;
        assert e in g'.edges[i];
      }
    }
  }

  /** `AddEdge(c)`: both end points become vertices, each is adjacent to the
      other, the start has an edge to the end carrying `c` and the end has an
      edge to the start carrying `c` reversed. Existing vertices stay. */
  lemma AddEdgeLemma(g: GraphState, c: Curve3d)
    requires Inv(g)
    ensures var g' := AddEdgeSpec(g, c);
      && Inv(g')
      && (forall i | i in g.data :: i in g'.data && g'.data[i] == g.data[i])
      && (forall i | i in g.edges :: g.edges[i] <= g'.edges[i])
      && (exists s, t :: && s in g'.data && g'.data[s] == c.startPoint
                         && t in g'.data && g'.data[t] == c.endPoint
                         && t in g'.vertices[s] && s in g'.vertices[t]
                         && GraphEdge(VertexAt(g', t), c) in g'.edges[s]
                         && GraphEdge(VertexAt(g', s), Reversed(c)) in g'.edges[t])
  {
    AddVertexLemma(g, c.startPoint);
    var (g1, start) := AddVertexSpec(g, c.startPoint);
    AddVertexLemma(g1, c.endPoint);
    var (g2, end) := AddVertexSpec(g1, c.endPoint);
    assert IsVertex(g2, start);
    LinkLemma(g2, start, end, c);
    var g' := Link(g2, start, end, c);
    assert g' == AddEdgeSpec(g, c);
    assert VertexAt(g', end.index) == end && VertexAt(g', start.index) == start;
    assert start.index in g'.data && g'.data[start.index] == c.startPoint;
    assert end.index in g'.data && g'.data[end.index] == c.endPoint;
  }

  /** `RemoveVertex(pt)`: afterwards no vertex holds `pt`, no adjacency set and
      no edge refers to the removed vertex, the other vertices and their points
      remain, and the invariant is kept. Without such a vertex nothing changes. */
  lemma RemoveVertexLemma(g: GraphState, pt: Point3d)
    requires Inv(g)
    ensures var g' := RemoveVertexSpec(g, pt);
      && Inv(g')
      && (forall i | i in g'.data :: g'.data[i] != pt)
      && (forall i | i in g.data && g.data[i] != pt :: i in g'.data && g'.data[i] == g.data[i])
      && ((forall i | i in g.data :: g.data[i] != pt) ==> g' == g)
  {
    match Find(g, pt)
    case None =>
    case Some(k) =>
      var g' := RemoveVertexSpec(g, pt);
      assert SameKeys(g');
      forall x, j | x in g'.vertices && j in g'.vertices[x]
        ensures j in g'.vertices && x in g'.vertices[j]
      {
        assert j in g.vertices[x] && j in g.vertices && x in g.vertices[j];
      }
      forall x, e | x in g'.edges && e in g'.edges[x]
        ensures && IsVertex(g', e.targetVertex)
                && e.targetVertex.index in g'.vertices[x]
                && e.targetEdge.startPoint == g'.data[x]
                && e.targetEdge.endPoint == e.targetVertex.data
      {
        assert e in g.edges[x] && e.targetVertex.index != k;
      }
      assert EdgesSound(g');
      forall x, j | x in g'.vertices && j in g'.vertices[x]
        ensures HasEdgeToIndex(g', x, j)
      {
        assert j in g.vertices[x] && j != k;
        assert HasEdgeToIndex(g, x, j);
        var e :| e in g.edges[x] && e.targetVertex.index == j;
        assert e in g'.edges[x];
      }
  }

  /** `RemoveEdge(c)` removes both end points, with all their edges. */
  lemma RemoveEdgeLemma(g: GraphState, c: Curve3d)
    requires Inv(g)
    ensures var g' := RemoveVertexSpec(RemoveVertexSpec(g, c.startPoint), c.endPoint);
      && Inv(g')
      && (forall i | i in g'.data :: g'.data[i] != c.startPoint && g'.data[i] != c.endPoint)
      && (forall i | i in g.data && g.data[i] != c.startPoint && g.data[i] != c.endPoint ::
            i in g'.data && g'.data[i] == g.data[i])
  {
    RemoveVertexLemma(g, c.startPoint);
    RemoveVertexLemma(RemoveVertexSpec(g, c.startPoint), c.endPoint);
  }

  /** Some edge of `source` leads to `dest`. */
  predicate HasEdgeTo(g: GraphState, source: GraphVertex, dest: GraphVertex)
    requires source.index in g.edges
  {
    exists e :: e in g.edges[source.index] && e.targetVertex == dest
  }

  /** For vertices of the graph, having an edge is being adjacent, in both directions. */
  lemma HasEdgeIsAdjacency(g: GraphState, a: GraphVertex, b: GraphVertex)
    requires Inv(g) && IsVertex(g, a) && IsVertex(g, b)
    ensures HasEdgeTo(g, a, b) <==> Adjacent(g, a.index, b.index)
    ensures HasEdgeTo(g, a, b) <==> HasEdgeTo(g, b, a)
  {
    if Adjacent(g, a.index, b.index) {
      var e :| e in g.edges[a.index] && e.targetVertex.index == b.index;
      assert e.targetVertex == b;
      var e' :| e' in g.edges[b.index] && e'.targetVertex.index == a.index;
      assert e'.targetVertex == a;
    }
    if HasEdgeTo(g, b, a) {
      var e :| e in g.edges[b.index] && e.targetVertex == a;
      assert Adjacent(g, b.index, a.index);
    }
  }

  /** The position after `i` in `list` read as a closed path. */
  function Next<T>(list: seq<T>, i: nat): (r: nat)
    requires i < |list|
    ensures r < |list|
    ensures i + 1 < |list| ==> r == i + 1
    ensures i + 1 == |list| ==> r == 0
  {
    if i + 1 < |list| then i + 1 else 0
  }

  /** The curves gathered from the first `bound` pairs of `list` read as a
      closed path, pair `m` being `list[m]` followed by `list[Next(list, m)]`:
      those vertices are in `g`, `curves[j]` is the curve of an edge of pair
      `pairs[j]`, the pairs are increasing, and every pair left out has no edge. */
  ghost predicate Collected(g: GraphState, list: seq<GraphVertex>, bound: nat, curves: seq<Curve3d>, pairs: seq<int>)
  {
    && bound <= |list| && |curves| == |pairs|
    && (forall m | 0 <= m < bound :: list[m].index in g.vertices && list[m].index in g.edges)
    && (forall j | 0 <= j < |pairs| :: 0 <= pairs[j] < bound)
    && (forall j, j' | 0 <= j < j' < |pairs| :: pairs[j] < pairs[j'])
    && (forall j | 0 <= j < |pairs| ::
          GraphEdge(list[Next(list, pairs[j])], curves[j]) in g.edges[list[pairs[j]].index])
    && (forall m | 0 <= m < bound && m !in pairs :: !HasEdgeTo(g, list[m], list[Next(list, m)]))
  }

  /** A pair with an edge contributes that edge's curve. */
  lemma CollectedTake(g: GraphState, list: seq<GraphVertex>, i: nat, curves: seq<Curve3d>, pairs: seq<int>, c: Curve3d)
    requires Collected(g, list, i, curves, pairs) && i < |list|
    requires list[i].index in g.vertices && list[i].index in g.edges
    requires GraphEdge(list[Next(list, i)], c) in g.edges[list[i].index]
    ensures Collected(g, list, i + 1, curves + [c], pairs + [i])
  {
    var cs, ps := curves + [c], pairs + [i];
    forall m | 0 <= m < i + 1 && m !in ps
      ensures !HasEdgeTo(g, list[m], list[Next(list, m)])
    {
      assert m != i && m !in pairs;
    }
    forall j | 0 <= j < |ps|
      ensures GraphEdge(list[Next(list, ps[j])], cs[j]) in g.edges[list[ps[j]].index]
    {
      if j < |pairs| {
        assert ps[j] == pairs[j] && cs[j] == curves[j];
      }
    }
  }

  /** A pair without an edge contributes nothing. */
  lemma CollectedSkip(g: GraphState, list: seq<GraphVertex>, i: nat, curves: seq<Curve3d>, pairs: seq<int>)
    requires Collected(g, list, i, curves, pairs) && i < |list|
    requires list[i].index in g.vertices && list[i].index in g.edges
    requires !HasEdgeTo(g, list[i], list[Next(list, i)])
    ensures Collected(g, list, i + 1, curves, pairs)
  {
  }

  /** A strictly increasing sequence of naturals below `bound` is no longer
      than `bound`. */
  lemma {:induction false} IncreasingBound(pairs: seq<int>, bound: nat)
    requires forall j | 0 <= j < |pairs| :: 0 <= pairs[j] < bound
    requires forall j, j' | 0 <= j < j' < |pairs| :: pairs[j] < pairs[j']
    ensures |pairs| <= bound
  {
    if pairs != [] {
      var last := |pairs| - 1;
      var init := pairs[..last];
      assert forall j | 0 <= j < |init| :: init[j] == pairs[j] && pairs[j] < pairs[last];
      IncreasingBound(init, pairs[last]);
    }
  }

  /** Every pair contributes at most one curve, so the curves gathered from
      the first `bound` pairs are at most `bound`. */
  lemma CollectedBound(g: GraphState, list: seq<GraphVertex>, bound: nat, curves: seq<Curve3d>, pairs: seq<int>)
    requires Collected(g, list, bound, curves, pairs)
    ensures |curves| <= bound <= |list|
  {
    IncreasingBound(pairs, bound);
  }

  /** The adjacency table without vertex `k`, and without `k` in any adjacency set. */
  method WithoutAdjacency(v0: map<int, set<int>>, k: int) returns (adjacency: map<int, set<int>>)
    ensures adjacency == map i | i in v0 && i != k :: v0[i] - {k}
  {
    adjacency := v0 - {k};
    var keys := adjacency.Keys;
    while keys != {}
      invariant adjacency.Keys == v0.Keys - {k}
      invariant keys <= adjacency.Keys
      invariant forall i | i in adjacency :: adjacency[i] == if i in keys then v0[i] else v0[i] - {k}
      decreases keys
    {
      var i := Pick(keys);
      adjacency := adjacency[i := adjacency[i] - {k}];
      keys := keys - {i};
    }
  }

  /** The edge table without vertex `k`, and without any edge leading to `k`. */
  method WithoutEdgesTo(e0: map<int, set<GraphEdge>>, k: int) returns (outgoing: map<int, set<GraphEdge>>)
    ensures outgoing == map i | i in e0 && i != k :: (set e | e in e0[i] && e.targetVertex.index != k)
  {
    outgoing := e0 - {k};
    var keys := outgoing.Keys;
    while keys != {}
      invariant outgoing.Keys == e0.Keys - {k}
      invariant keys <= outgoing.Keys
      invariant forall i | i in outgoing ::
        outgoing[i] == if i in keys then e0[i] else (set e | e in e0[i] && e.targetVertex.index != k)
      decreases keys
    {
      var i := Pick(keys);
      outgoing := outgoing[i := set e | e in outgoing[i] && e.targetVertex.index != k];
      keys := keys - {i};
    }
  }

  // ---------------------------------------------------------------------------
  // The Graph class

  class Graph {
    var vertices: map<int, set<int>>
    var edges: map<int, set<GraphEdge>>
    var data: map<int, Point3d>
    /** The insertion counter; it never decreases, so removed indices are not reused. */
    var insertCount: nat

    function State(): GraphState
      reads this
    {
      GraphState(vertices, edges, data, insertCount)
    }

    ghost predicate Valid()
      reads this
    {
      Inv(State())
    }

    /** A new graph is empty and its counter starts at 0. */
    constructor ()
      ensures Valid() && State() == EmptyGraph()
    {
      vertices, edges, data, insertCount := map[], map[], map[], 0;
    }

    /** `ContainKeyData(pt)`: look for a vertex holding `pt`. */
    method ContainKeyData(pt: Point3d) returns (found: bool, key: int)
      requires Valid()
      ensures found <==> exists i :: i in data && data[i] == pt
      ensures found ==> Find(State(), pt) == Some(key)
    {
      var keys := vertices.Keys;
      while keys != {}
        invariant keys <= vertices.Keys
        invariant forall i | i in vertices.Keys - keys :: data[i] != pt
        decreases keys
      {
        var k := Pick(keys);
        if data[k] == pt {
          return true, k;
        }
        keys := keys - {k};
      }
      return false, 0;
    }

    /** `AddVertex(pt)`. */
    method AddVertex(pt: Point3d) returns (vertex: GraphVertex)
      requires Valid()
      modifies this
      ensures Valid()
      ensures (State(), vertex) == AddVertexSpec(old(State()), pt)
    {
      AddVertexLemma(State(), pt);
      var found, key := ContainKeyData(pt);
      if found {
        return GraphVertex(data[key], key);
      }
      vertex := GraphVertex(pt, insertCount);
      insertCount := insertCount + 1;
      vertices := vertices[vertex.index := {}];
      edges := edges[vertex.index := {}];
      data := data[vertex.index := pt];
    }

    /** `AddEdge(curve)`. */
    method AddEdge(curve: Curve3d)
      requires Valid()
      modifies this
      ensures Valid()
      ensures State() == AddEdgeSpec(old(State()), curve)
    {
      ghost var g0 := State();
      var start := AddVertex(curve.startPoint);
      ghost var g1 := State();
      var end := AddVertex(curve.endPoint);
      ghost var g2 := State();
      assert (g1, start) == AddVertexSpec(g0, curve.startPoint) && (g2, end) == AddVertexSpec(g1, curve.endPoint);
      assert AddEdgeSpec(g0, curve) == Link(g2, start, end, curve);
      LinkLemma(g2, start, end, curve);
      Connect(start, end, curve);
    }

    /** The body of `AddEdge` after both end points are vertices: records
        the edge from `start` and the reversed edge from `end`. */
    method Connect(start: GraphVertex, end: GraphVertex, curve: Curve3d)
      requires start.index in vertices && start.index in edges
      requires end.index in vertices && end.index in edges
      modifies this
      ensures State() == Link(old(State()), start, end, curve)
    {
      vertices := vertices[start.index := vertices[start.index] + {end.index}];
      edges := edges[start.index := edges[start.index] + {GraphEdge(end, curve)}];
      var reversed := Reversed(curve);
      vertices := vertices[end.index := vertices[end.index] + {start.index}];
      edges := edges[end.index := edges[end.index] + {GraphEdge(start, reversed)}];
    }

    /** `RemoveVertex(pt)`: the vertex holding `pt` leaves both tables and every
        adjacency set and edge set that refers to it. */
    method RemoveVertex(pt: Point3d)
      requires Valid()
      modifies this
      ensures Valid()
      ensures State() == RemoveVertexSpec(old(State()), pt)
    {
      RemoveVertexLemma(State(), pt);
      var found, k := ContainKeyData(pt);
      if !found {
        return;
      }
      var adjacency := WithoutAdjacency(vertices, k);
      var outgoing := WithoutEdgesTo(edges, k);
      vertices, edges, data := adjacency, outgoing, data - {k};
    }
    /** `RemoveEdge(curve)`: removes both end-point vertices, not only the edge. */
    method RemoveEdge(curve: Curve3d)
      requires Valid()
      modifies this
      ensures Valid()
      ensures State() == RemoveVertexSpec(RemoveVertexSpec(old(State()), curve.startPoint), curve.endPoint)
    {
      RemoveVertex(curve.startPoint);
      RemoveVertex(curve.endPoint);
    }

    /** `HasEdge(source, dest)`: throws unless both are vertices; otherwise true
        iff an edge of `source` leads to `dest`. */
    method HasEdge(source: GraphVertex, dest: GraphVertex) returns (r: Result<bool, GraphError>)
      requires Valid()
      ensures r.Failure? <==> source.index !in vertices || dest.index !in vertices
      ensures r.Failure? ==> r.error == NotInGraph
      ensures r.Success? ==> r.value == HasEdgeTo(State(), source, dest)
    {
      var edge := GetEdge(source, dest);
      match edge
      case Failure(err) => return Failure(err);
      case Success(e) => return Success(e.Some?);
    }

    /** `GetEdge(source, dest)`: throws unless both are vertices; otherwise an
        edge of `source` that leads to `dest`, or null when there is none. */
    method GetEdge(source: GraphVertex, dest: GraphVertex) returns (r: Result<Option<GraphEdge>, GraphError>)
      requires Valid()
      ensures r.Failure? <==> source.index !in vertices || dest.index !in vertices
      ensures r.Failure? ==> r.error == NotInGraph
      ensures r.Success? && r.value.Some? ==>
        r.value.value in edges[source.index] && r.value.value.targetVertex == dest
      ensures r.Success? ==> (r.value.None? <==> !HasEdgeTo(State(), source, dest))
    {
      if source.index !in vertices || dest.index !in vertices {
        return Failure(NotInGraph);
      }
      var items := edges[source.index];
      while items != {}
        invariant items <= edges[source.index]
        invariant forall e | e in edges[source.index] - items :: e.targetVertex != dest
        decreases items
      {
        var item := Pick(items);
        if item.targetVertex == dest {
          return Success(Some(item));
        }
        items := items - {item};
      }
      return Success(None);
    }

    /** `GetCurves(list)`: for each consecutive pair of `list`, and for the
        closing pair (last, first), the curve of an edge between them if there is
        one, in order; `pairs` tells which pairs contributed. Throws when `list`
        is empty or holds a vertex that is not in the graph. */
    method GetCurves(list: seq<GraphVertex>) returns (r: Result<seq<Curve3d>, GraphError>, ghost pairs: seq<int>)
      requires Valid()
      ensures r.Failure? <==> |list| == 0 || exists i :: 0 <= i < |list| && list[i].index !in vertices
      ensures r.Failure? ==> r.error == (if |list| == 0 then OutOfRange else NotInGraph)
      ensures r.Success? ==> Collected(State(), list, |list|, r.value, pairs)
      ensures r.Success? ==> |r.value| <= |list|
    {
      ghost var g := State();
      var curves: seq<Curve3d> := [];
      pairs := [];
      var n := |list|;
      if n == 0 {
        // the loop does not run and `graphVertices[-1]` throws
        return Failure(OutOfRange), pairs;
      }
      var i := 0;
      while i < n - 1
        invariant 0 <= i <= n - 1 && Collected(g, list, i, curves, pairs)
      {
        var edge := GetEdge(list[i], list[i + 1]);
        if edge.Failure? {
          ghost var w := if list[i].index !in vertices then i else i + 1;
          assert list[w].index !in vertices;
          return Failure(edge.error), pairs;
        }
        if edge.value.Some? {
          CollectedTake(g, list, i, curves, pairs, edge.value.value.targetEdge);
          curves := curves + [edge.value.value.targetEdge];
          pairs := pairs + [i];
        } else {
          CollectedSkip(g, list, i, curves, pairs);
        }
        i := i + 1;
      }
      var lastedge := GetEdge(list[n - 1], list[0]);
      if lastedge.Failure? {
        ghost var w := if list[n - 1].index !in vertices then n - 1 else 0;
        assert list[w].index !in vertices;
        return Failure(lastedge.error), pairs;
      }
      if lastedge.value.Some? {
        CollectedTake(g, list, n - 1, curves, pairs, lastedge.value.value.targetEdge);
        curves := curves + [lastedge.value.value.targetEdge];
        pairs := pairs + [n - 1];
      } else {
        CollectedSkip(g, list, n - 1, curves, pairs);
      }
      CollectedBound(g, list, n, curves, pairs);
      return Success(curves), pairs;
    }
  }
}
