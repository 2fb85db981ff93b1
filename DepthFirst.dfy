/** The cycle enumeration of `DepthFirst` in `Graph.cs`: a depth-first search
    from every vertex that records each simple cycle once, rotated so that its
    smallest-index vertex comes first, and skips a cycle when it or its reversal
    is already recorded. */
module Cycles {
  import opened Wrappers
  import opened Graphs

  // ---------------------------------------------------------------------------
  // Rotation and reversal of vertex lists

  /** The position of the first vertex with the smallest index: `lst.IndexOf(lst.Min())`. */
  function MinPos(lst: seq<GraphVertex>): (k: nat)
    requires |lst| > 0
    ensures k < |lst|
    ensures forall i | 0 <= i < |lst| :: lst[k].index <= lst[i].index
    ensures forall i | 0 <= i < k :: lst[i].index != lst[k].index
  {
    if |lst| == 1 then 0
    else
      var k := MinPos(lst[1..]);
      if lst[0].index <= lst[1 + k].index then 0 else 1 + k
  }

  /** Where element `i` of `lst` rotated left by `k` comes from. */
  function Shift(n: nat, k: nat, i: nat): (j: nat)
    requires k < n && i < n
    ensures j < n
  {
    if i + k < n then i + k else i + k - n
  }

  /** `lst` rotated left by `k`: `lst.Skip(k).Concat(lst.Take(k))`. */
  function Rotated(lst: seq<GraphVertex>, k: nat): (r: seq<GraphVertex>)
    requires k < |lst|
    ensures |r| == |lst|
    ensures forall i | 0 <= i < |r| :: r[i] == lst[Shift(|lst|, k, i)]
    ensures multiset(r) == multiset(lst)
  {
    assert lst == lst[..k] + lst[k..];
    lst[k..] + lst[..k]
  }

  /** `RotateToSmallest(lst)`: a rotation of `lst` whose first vertex has the
      smallest index. */
  function RotateToSmallest(lst: seq<GraphVertex>): (r: seq<GraphVertex>)
    requires |lst| > 0
    ensures |r| == |lst| && multiset(r) == multiset(lst)
    ensures exists k :: 0 <= k < |lst| && r == Rotated(lst, k)
    ensures forall i | 0 <= i < |lst| :: r[0].index <= lst[i].index
  {
    Rotated(lst, MinPos(lst))
  }

  function Reverse(lst: seq<GraphVertex>): (r: seq<GraphVertex>)
    ensures |r| == |lst|
    ensures forall i | 0 <= i < |lst| :: r[i] == lst[|lst| - 1 - i]
  {
    if lst == [] then [] else Reverse(lst[1..]) + [lst[0]]
  }

  /** `Invert(lst)`: the reversed list, rotated to its smallest vertex. */
  function Invert(lst: seq<GraphVertex>): (r: seq<GraphVertex>)
    requires |lst| > 0
    ensures |r| == |lst|
    ensures exists k :: 0 <= k < |lst| && r == Rotated(Reverse(lst), k)
    ensures forall i | 0 <= i < |lst| :: r[0].index <= lst[i].index
  {
    var rev := Reverse(lst);
    assert forall i | 0 <= i < |lst| :: lst[i] == rev[|lst| - 1 - i];
    RotateToSmallest(rev)
  }

  // ---------------------------------------------------------------------------
  // Paths and cycles of a graph

  /** No two vertices of `p` have the same index. */
  predicate DistinctIndices(p: seq<GraphVertex>)
  {
    forall i, j | 0 <= i < j < |p| :: p[i].index != p[j].index
  }

  /** Every vertex of `p` is a vertex of `g`. */
  predicate AllVertices(g: GraphState, p: seq<GraphVertex>)
  {
    forall i | 0 <= i < |p| :: IsVertex(g, p[i])
  }

  /** The path `visited` of the search: distinct vertices of `g`, each
      adjacent to the next. */
  predicate IsPath(g: GraphState, p: seq<GraphVertex>)
  {
    && |p| > 0 && AllVertices(g, p) && DistinctIndices(p)
    && forall i | 0 <= i < |p| - 1 :: Adjacent(g, p[i].index, p[i + 1].index)
  }

  /** `c` read as a closed path: each vertex is adjacent to the next, and the
      last to the first. */
  predicate CyclicallyAdjacent(g: GraphState, c: seq<GraphVertex>)
  {
    forall i | 0 <= i < |c| :: Adjacent(g, c[i].index, c[Next(c, i)].index)
  }

  /** A cycle as it is recorded: at least three distinct vertices of `g`,
      cyclically adjacent, starting at the vertex with the smallest index. */
  predicate WellFormedCycle(g: GraphState, c: seq<GraphVertex>)
  {
    && |c| >= 3 && AllVertices(g, c) && DistinctIndices(c)
    && CyclicallyAdjacent(g, c)
    && forall i | 0 <= i < |c| :: c[0].index <= c[i].index
  }

  /** Indices of distinct vertices drawn from a set are at most as many as the set. */
  lemma {:induction false} DistinctBound(p: seq<GraphVertex>, keys: set<int>)
    requires DistinctIndices(p)
    requires forall i | 0 <= i < |p| :: p[i].index in keys
    ensures |p| <= |keys|
    decreases |p|
  {
    if |p| > 0 {
      var last := p[|p| - 1];
      DistinctBound(p[..|p| - 1], keys - {last.index});
    }
  }

  /** A rotation keeps the vertices, their distinctness and cyclic adjacency. */
  lemma RotatedCycle(g: GraphState, c: seq<GraphVertex>, k: nat)
    requires k < |c|
    requires AllVertices(g, c) && DistinctIndices(c) && CyclicallyAdjacent(g, c)
    ensures var r := Rotated(c, k);
      AllVertices(g, r) && DistinctIndices(r) && CyclicallyAdjacent(g, r)
  {
    var r := Rotated(c, k);
    var n := |c|;
    forall i | 0 <= i < n
      ensures Adjacent(g, r[i].index, r[Next(r, i)].index)
    {
      var j := Shift(n, k, i);
      assert Adjacent(g, c[j].index, c[Next(c, j)].index);
      assert Shift(n, k, Next(r, i)) == Next(c, j);
    }
  }

  /** Reversal keeps the vertices and their distinctness, and cyclic adjacency
      when adjacency is symmetric. */
  lemma ReversedCycle(g: GraphState, c: seq<GraphVertex>)
    requires Inv(g)
    requires AllVertices(g, c) && DistinctIndices(c) && CyclicallyAdjacent(g, c)
    ensures var r := Reverse(c);
      AllVertices(g, r) && DistinctIndices(r) && CyclicallyAdjacent(g, r)
  {
    var r := Reverse(c);
    var n := |c|;
    forall i | 0 <= i < n
      ensures Adjacent(g, r[i].index, r[Next(r, i)].index)
    {
      var j := n - 1 - Next(r, i);
      assert Next(c, j) == n - 1 - i;
      assert Adjacent(g, c[j].index, c[Next(c, j)].index);
    }
  }

  /** Rotating a cycle to its smallest vertex makes it well-formed. */
  lemma CanonicalCycle(g: GraphState, c: seq<GraphVertex>)
    requires |c| >= 3 && AllVertices(g, c) && DistinctIndices(c) && CyclicallyAdjacent(g, c)
    ensures WellFormedCycle(g, RotateToSmallest(c))
  {
    var k := MinPos(c);
    RotatedCycle(g, c, k);
    var r := RotateToSmallest(c);
    forall i | 0 <= i < |r|
      ensures r[0].index <= r[i].index
    {
      assert r[i] == c[Shift(|c|, k, i)];
    }
  }

  /** A closed search path is cyclically adjacent. */
  lemma ClosedPath(g: GraphState, p: seq<GraphVertex>)
    requires Inv(g) && IsPath(g, p)
    requires Adjacent(g, p[0].index, p[|p| - 1].index)
    ensures CyclicallyAdjacent(g, p)
  {
    var n := |p|;
    forall i | 0 <= i < n
      ensures Adjacent(g, p[i].index, p[Next(p, i)].index)
    {
      if i == n - 1 {
        assert Adjacent(g, p[0].index, p[n - 1].index);
      }
    }
  }

  /** The rotated and the inverted form of a closed search path are well-formed cycles. */
  lemma ClosedPathCycles(g: GraphState, p: seq<GraphVertex>)
    requires Inv(g) && IsPath(g, p) && |p| > 2
    requires Adjacent(g, p[0].index, p[|p| - 1].index)
    ensures WellFormedCycle(g, RotateToSmallest(p))
    ensures WellFormedCycle(g, Invert(RotateToSmallest(p)))
  {
    ClosedPath(g, p);
    CanonicalCycle(g, p);
    var cur := RotateToSmallest(p);
    ReversedCycle(g, cur);
    CanonicalCycle(g, Reverse(cur));
  }

  /** The search path extended by an unvisited neighbour of its head is a longer path. */
  lemma ExtendPath(g: GraphState, visited: seq<GraphVertex>, next: int)
    requires Inv(g) && IsPath(g, visited)
    requires next in g.vertices[visited[0].index]
    requires forall m | 0 <= m < |visited| :: visited[m].index != next
    ensures next in g.data
    ensures IsPath(g, [VertexAt(g, next)] + visited)
    ensures |visited| < |g.data|
  {
    var sub := [VertexAt(g, next)] + visited;
    assert Adjacent(g, sub[0].index, sub[1].index);
    forall i | 0 <= i < |sub| - 1
      ensures Adjacent(g, sub[i].index, sub[i + 1].index)
    {
      if i > 0 {
        assert sub[i] == visited[i - 1] && sub[i + 1] == visited[i];
      }
    }
    DistinctBound(sub, g.data.Keys);
  }

  // ---------------------------------------------------------------------------
  // Comparing recorded cycles

  /** What `DepthFirst.Equals(a, b)` compares: the same length, the same first
      vertex, and vertices with equal indices after it. */
  predicate SameCycle(a: seq<GraphVertex>, b: seq<GraphVertex>)
    requires |a| > 0 && |b| > 0
  {
    a[0] == b[0] && |a| == |b| && forall i | 1 <= i < |a| :: VertexEquals(a[i], b[i])
  }

  /** On vertices of one graph, `SameCycle` is plain equality. */
  lemma SameCycleIsEquality(g: GraphState, a: seq<GraphVertex>, b: seq<GraphVertex>)
    requires |a| > 0 && |b| > 0 && AllVertices(g, a) && AllVertices(g, b)
    ensures SameCycle(a, b) <==> a == b
  {
    if SameCycle(a, b) {
      forall i | 0 <= i < |a|
        ensures a[i] == b[i]
      {
        if i > 0 {
          assert IsVertex(g, a[i]) && IsVertex(g, b[i]);
        }
      }
    }
  }

  /** The recorded cycles: each has at least three vertices, and no cycle equals
      an earlier one or an earlier one's inversion. */
  predicate Distinct(cycles: seq<seq<GraphVertex>>)
  {
    && (forall i | 0 <= i < |cycles| :: |cycles[i]| >= 3)
    && forall i, j | 0 <= i < j < |cycles| ::
         !SameCycle(cycles[i], cycles[j]) && !SameCycle(cycles[i], Invert(cycles[j]))
  }

  /** `Equals(a, b)` of `DepthFirst`. */
  method ListEquals(a: seq<GraphVertex>, b: seq<GraphVertex>) returns (ret: bool)
    requires |a| > 0 && |b| > 0
    ensures ret <==> SameCycle(a, b)
  {
    ret := a[0] == b[0] && |a| == |b|;
    var i := 1;
    while ret && i < |a|
      invariant 1 <= i <= |a| || !ret
      invariant ret ==> |a| == |b| && a[0] == b[0] && forall m | 1 <= m < i :: VertexEquals(a[m], b[m])
      invariant !ret ==> !SameCycle(a, b)
      decreases |a| - i
    {
      if !VertexEquals(a[i], b[i]) {
        ret := false;
      }
      i := i + 1;
    }
  }

  /** The well-formed cycles of `g` among those recorded from position `from` on. */
  predicate CyclesOf(g: GraphState, cycles: seq<seq<GraphVertex>>, from: nat)
  {
    forall i | from <= i < |cycles| :: WellFormedCycle(g, cycles[i])
  }

  // ---------------------------------------------------------------------------
  // What the search finds

  /** `c` is a simple cycle of `g`: three or more distinct vertices of `g`,
      each adjacent to the next and the last to the first. */
  predicate SimpleCycle(g: GraphState, c: seq<GraphVertex>)
  {
    |c| >= 3 && AllVertices(g, c) && DistinctIndices(c) && CyclicallyAdjacent(g, c)
  }

  /** The search path `visited` can grow into the simple cycle `c`: it is a
      tail of `c`, so prepending the vertices before it gives `c`. */
  predicate Closes(g: GraphState, visited: seq<GraphVertex>, c: seq<GraphVertex>)
  {
    SimpleCycle(g, c) && 0 < |visited| <= |c| && c[|c| - |visited|..] == visited
  }

  /** The neighbour of `visited[0]` that leads the search on toward `c`: the
      vertex just before the tail, or the last vertex of `c` when the tail is
      all of `c` and the path closes. */
  function Toward(c: seq<GraphVertex>, len: nat): int
    requires 0 < len <= |c|
  {
    if len < |c| then c[|c| - len - 1].index else c[|c| - 1].index
  }

  /** Some recorded cycle is `SameCycle` as `c` rotated to its smallest
      vertex, or as the inversion of that. */
  ghost predicate Found(cycles: seq<seq<GraphVertex>>, c: seq<GraphVertex>)
    requires |c| > 0
  {
    exists i | 0 <= i < |cycles| :: |cycles[i]| > 0 &&
      (SameCycle(cycles[i], RotateToSmallest(c)) || SameCycle(cycles[i], Invert(RotateToSmallest(c))))
  }

  /** Every simple cycle that the path `visited` grows into through one of
      the neighbours in `done` is found. */
  ghost predicate Covered(g: GraphState, visited: seq<GraphVertex>, cycles: seq<seq<GraphVertex>>, done: set<int>)
  {
    forall c: seq<GraphVertex> | Closes(g, visited, c) && Toward(c, |visited|) in done :: Found(cycles, c)
  }

  class DepthFirst {
    /** `Curve3ds`: the cycles recorded so far. */
    var curve3ds: seq<seq<GraphVertex>>

    constructor ()
      ensures curve3ds == []
    {
      curve3ds := [];
    }

    /** `IsNew(path)`: no recorded cycle is `SameCycle` as `path`. */
    method IsNew(path: seq<GraphVertex>) returns (ret: bool)
      requires |path| > 0
      requires forall i | 0 <= i < |curve3ds| :: |curve3ds[i]| > 0
      ensures ret <==> forall i | 0 <= i < |curve3ds| :: !SameCycle(curve3ds[i], path)
    {
      ret := true;
      var i := 0;
      while i < |curve3ds|
        invariant 0 <= i <= |curve3ds|
        invariant forall m | 0 <= m < i :: !SameCycle(curve3ds[m], path)
      {
        var same := ListEquals(curve3ds[i], path);
        if same {
          ret := false;
          break;
        }
        i := i + 1;
      }
    }

    /** `FindAll(graph)`: a search from every vertex. The recorded cycles stay
        distinct, earlier ones are kept, each newly recorded one is a
        well-formed cycle of the graph, and every simple cycle of the graph is
        found, up to rotation and reversal. */
    method FindAll(g: GraphState)
      requires Inv(g) && Distinct(curve3ds)
      modifies this
      ensures Distinct(curve3ds)
      ensures old(curve3ds) <= curve3ds
      ensures CyclesOf(g, curve3ds, |old(curve3ds)|)
      ensures forall c: seq<GraphVertex> | SimpleCycle(g, c) :: Found(curve3ds, c)
    {
      var keys := g.vertices.Keys;
      ghost var done: set<int> := {};
      while keys != {}
        invariant Distinct(curve3ds)
        invariant old(curve3ds) <= curve3ds
        invariant CyclesOf(g, curve3ds, |old(curve3ds)|)
        invariant keys + done == g.vertices.Keys
        invariant forall c: seq<GraphVertex> | SimpleCycle(g, c) && c[|c| - 1].index in done :: Found(curve3ds, c)
        decreases keys
      {
        var item := Pick(keys);
        ghost var before := curve3ds;
        Dfs(g, [VertexAt(g, item)]);
        FoundFromGrows(g, before, curve3ds, done);
        FromVertex(g, item, curve3ds, done);
        keys := keys - {item};
        done := done + {item};
      }
      forall c: seq<GraphVertex> | SimpleCycle(g, c)
        ensures Found(curve3ds, c)
      {
        assert IsVertex(g, c[|c| - 1]);
      }
    }

    /** `Dfs(graph, visited)`: extend the path at its most recent vertex
        `visited[0]` through each of its neighbours in turn. Every simple cycle
        the path grows into is found. */
    method Dfs(g: GraphState, visited: seq<GraphVertex>)
      requires Inv(g) && IsPath(g, visited) && Distinct(curve3ds)
      modifies this
      ensures Distinct(curve3ds)
      ensures old(curve3ds) <= curve3ds
      ensures CyclesOf(g, curve3ds, |old(curve3ds)|)
      ensures forall c: seq<GraphVertex> | Closes(g, visited, c) :: Found(curve3ds, c)
      decreases |g.data| - |visited|, 1
    {
      var startNode := visited[0];
      var adjlist := g.vertices[startNode.index];
      ghost var done: set<int> := {};
      while adjlist != {}
        invariant adjlist + done == g.vertices[startNode.index]
        invariant Distinct(curve3ds)
        invariant old(curve3ds) <= curve3ds
        invariant CyclesOf(g, curve3ds, |old(curve3ds)|)
        invariant Covered(g, visited, curve3ds, done)
        decreases adjlist
      {
        var next := Pick(adjlist);
        Visit(g, visited, next, done);
        adjlist := adjlist - {next};
        done := done + {next};
      }
      CoveredAll(g, visited, curve3ds);
    }

    /** One pass of the loop of `Dfs`, for the neighbour `next` of `visited[0]`:
        an unvisited neighbour extends the path and searches on; the neighbour
        `visited[^1]` closes a path of three or more vertices, and the closed
        path is recorded; any other neighbour is skipped. Afterwards the cycles
        the path grows into through `next` are found as well. */
    method Visit(g: GraphState, visited: seq<GraphVertex>, next: int, ghost done: set<int>)
      requires Inv(g) && IsPath(g, visited) && Distinct(curve3ds)
      requires next in g.vertices[visited[0].index]
      requires Covered(g, visited, curve3ds, done)
      modifies this
      ensures Distinct(curve3ds)
      ensures old(curve3ds) <= curve3ds
      ensures CyclesOf(g, curve3ds, |old(curve3ds)|)
      ensures Covered(g, visited, curve3ds, done + {next})
      decreases |g.data| - |visited|, 0
    {
      assert next in g.data;
      var nextNode := VertexAt(g, next);
      ghost var before := curve3ds;
      if !exists m | 0 <= m < |visited| :: visited[m].index == next {
        ExtendPath(g, visited, next);
        Dfs(g, [nextNode] + visited);
        CoveredGrows(g, visited, before, curve3ds, done);
        CoveredDescend(g, visited, next, curve3ds, done);
      } else if |visited| > 2 && VertexEquals(nextNode, visited[|visited| - 1]) {
        Record(g, visited);
        CoveredGrows(g, visited, before, curve3ds, done);
        CoveredClose(g, visited, curve3ds, done);
      } else {
        CoveredSkip(g, visited, next, curve3ds, done);
      }
    }

    /** The closing branch of `Dfs`: `visited` closes into a cycle; its rotation
        to the smallest vertex is recorded unless it or its inversion is
        `SameCycle` as a recorded cycle. */
    method Record(g: GraphState, visited: seq<GraphVertex>)
      requires Inv(g) && IsPath(g, visited) && |visited| > 2
      requires Adjacent(g, visited[0].index, visited[|visited| - 1].index)
      requires Distinct(curve3ds)
      modifies this
      ensures Distinct(curve3ds)
      ensures old(curve3ds) <= curve3ds && Found(curve3ds, visited)
      ensures var cur := RotateToSmallest(visited);
        && WellFormedCycle(g, cur)
        && if (forall i | 0 <= i < |old(curve3ds)| ::
                 !SameCycle(old(curve3ds)[i], cur) && !SameCycle(old(curve3ds)[i], Invert(cur)))
           then curve3ds == old(curve3ds) + [cur]
           else curve3ds == old(curve3ds)
    {
      ClosedPathCycles(g, visited);
      var cur := RotateToSmallest(visited);
      var inv := Invert(cur);
      var curNew := IsNew(cur);
      var invNew := IsNew(inv);
      ghost var before := curve3ds;
      if curNew && invNew {
        RecordKeepsDistinct(curve3ds, cur);
        curve3ds := curve3ds + [cur];
      }
      RecordFinds(before, curve3ds, visited);
    }
  }

  /** After the closing branch, the closed path is found: either it was just
      recorded, or a recorded cycle is `SameCycle` as it or its inversion. */
  lemma RecordFinds(cycles: seq<seq<GraphVertex>>, cycles': seq<seq<GraphVertex>>, visited: seq<GraphVertex>)
    requires |visited| > 0 && forall i | 0 <= i < |cycles| :: |cycles[i]| > 0
    requires var cur := RotateToSmallest(visited);
      if (forall i | 0 <= i < |cycles| :: !SameCycle(cycles[i], cur) && !SameCycle(cycles[i], Invert(cur)))
      then cycles' == cycles + [cur]
      else cycles' == cycles
    ensures Found(cycles', visited)
  {
    var cur := RotateToSmallest(visited);
    if cycles' == cycles + [cur] {
      assert SameCycle(cycles'[|cycles|], cur);
    }
  }

  /** Recording a cycle that `IsNew` accepted for itself and its inversion
      keeps the recorded cycles distinct. */
  lemma RecordKeepsDistinct(cycles: seq<seq<GraphVertex>>, cur: seq<GraphVertex>)
    requires Distinct(cycles) && |cur| >= 3
    requires forall i | 0 <= i < |cycles| :: !SameCycle(cycles[i], cur)
    requires forall i | 0 <= i < |cycles| :: !SameCycle(cycles[i], Invert(cur))
    ensures Distinct(cycles + [cur])
  {
    var c' := cycles + [cur];
    forall i, j | 0 <= i < j < |c'|
      ensures !SameCycle(c'[i], c'[j]) && !SameCycle(c'[i], Invert(c'[j]))
    {
      if j == |cycles| {
        assert c'[j] == cur && c'[i] == cycles[i];
      } else {
        assert c'[j] == cycles[j] && c'[i] == cycles[i];
      }
    }
  }

  /** The inversion of a list of vertices of `g` has only vertices of `g`. */
  lemma InvertVertices(g: GraphState, c: seq<GraphVertex>)
    requires |c| > 0 && AllVertices(g, c)
    ensures AllVertices(g, Invert(c))
  {
    var r := Reverse(c);
    forall m | 0 <= m < |r|
      ensures IsVertex(g, r[m])
    {
      assert r[m] == c[|c| - 1 - m];
    }
    var inv := Invert(c);
    var k :| 0 <= k < |c| && inv == Rotated(r, k);
    forall m | 0 <= m < |inv|
      ensures IsVertex(g, inv[m])
    {
      assert inv[m] == r[Shift(|r|, k, m)];
    }
  }

  /** Recorded cycles of one graph are pairwise different sequences, and none
      is the inversion of another. */
  lemma DistinctCyclesDiffer(g: GraphState, cycles: seq<seq<GraphVertex>>, i: nat, j: nat)
    requires Distinct(cycles) && CyclesOf(g, cycles, 0)
    requires 0 <= i < j < |cycles|
    ensures cycles[i] != cycles[j]
    ensures cycles[i] != Invert(cycles[j])
  {
    var a, b := cycles[i], cycles[j];
    assert WellFormedCycle(g, a) && WellFormedCycle(g, b);
    assert !SameCycle(a, b) && !SameCycle(a, Invert(b));
    InvertVertices(g, b);
    SameCycleIsEquality(g, a, b);
    SameCycleIsEquality(g, a, Invert(b));
  }

  /** A cycle found stays found when more cycles are recorded. */
  lemma FoundGrows(cycles: seq<seq<GraphVertex>>, cycles': seq<seq<GraphVertex>>, c: seq<GraphVertex>)
    requires |c| > 0 && cycles <= cycles' && Found(cycles, c)
    ensures Found(cycles', c)
  {
    var i :| 0 <= i < |cycles| && |cycles[i]| > 0 &&
      (SameCycle(cycles[i], RotateToSmallest(c)) || SameCycle(cycles[i], Invert(RotateToSmallest(c))));
    assert cycles'[i] == cycles[i];
  }

  /** What is covered stays covered when more cycles are recorded. */
  lemma CoveredGrows(g: GraphState, visited: seq<GraphVertex>, cycles: seq<seq<GraphVertex>>,
                     cycles': seq<seq<GraphVertex>>, done: set<int>)
    requires cycles <= cycles' && Covered(g, visited, cycles, done)
    ensures Covered(g, visited, cycles', done)
  {
    forall c: seq<GraphVertex> | Closes(g, visited, c) && Toward(c, |visited|) in done
      ensures Found(cycles', c)
    {
      FoundGrows(cycles, cycles', c);
    }
  }

  /** An unvisited neighbour `n`: the cycles the path grows into through `n`
      are those the search from `[n] + visited` finds. */
  lemma CoveredDescend(g: GraphState, visited: seq<GraphVertex>, n: int, cycles: seq<seq<GraphVertex>>, done: set<int>)
    requires n in g.data && forall m | 0 <= m < |visited| :: visited[m].index != n
    requires Covered(g, visited, cycles, done)
    requires forall c: seq<GraphVertex> | Closes(g, [VertexAt(g, n)] + visited, c) :: Found(cycles, c)
    ensures Covered(g, visited, cycles, done + {n})
  {
    forall c: seq<GraphVertex> | Closes(g, visited, c) && Toward(c, |visited|) in done + {n}
      ensures Found(cycles, c)
    {
      if Toward(c, |visited|) !in done {
        var p := |c| - |visited|;
        assert p > 0;
        assert c[p - 1].index == n && IsVertex(g, c[p - 1]);
        assert c[p - 1..] == [VertexAt(g, n)] + visited by {
          assert c[p - 1..] == [c[p - 1]] + c[p..];
        }
      }
    }
  }

  /** The neighbour that closes the path into a cycle: the only cycle the path
      grows into through it is the path itself. */
  lemma CoveredClose(g: GraphState, visited: seq<GraphVertex>, cycles: seq<seq<GraphVertex>>, done: set<int>)
    requires |visited| > 2 && Found(cycles, visited)
    requires Covered(g, visited, cycles, done)
    ensures Covered(g, visited, cycles, done + {visited[|visited| - 1].index})
  {
    var n := visited[|visited| - 1].index;
    forall c: seq<GraphVertex> | Closes(g, visited, c) && Toward(c, |visited|) in done + {n}
      ensures Found(cycles, c)
    {
      if Toward(c, |visited|) !in done {
        assert c == visited;
      }
    }
  }

  /** A visited neighbour that does not close the path leads to no cycle. */
  lemma CoveredSkip(g: GraphState, visited: seq<GraphVertex>, n: int, cycles: seq<seq<GraphVertex>>, done: set<int>)
    requires exists m | 0 <= m < |visited| :: visited[m].index == n
    requires !(|visited| > 2 && n == visited[|visited| - 1].index)
    requires Covered(g, visited, cycles, done)
    ensures Covered(g, visited, cycles, done + {n})
  {
  }

  /** Once every neighbour of `visited[0]` is done, every cycle the path grows
      into is found. */
  lemma CoveredAll(g: GraphState, visited: seq<GraphVertex>, cycles: seq<seq<GraphVertex>>)
    requires Inv(g) && |visited| > 0 && visited[0].index in g.vertices
    requires Covered(g, visited, cycles, g.vertices[visited[0].index])
    ensures forall c: seq<GraphVertex> | Closes(g, visited, c) :: Found(cycles, c)
  {
    forall c: seq<GraphVertex> | Closes(g, visited, c)
      ensures Found(cycles, c)
    {
      var p := |c| - |visited|;
      assert c[p] == visited[0];
      var q := if p > 0 then p - 1 else |c| - 1;
      assert Next(c, q) == p;
      assert Adjacent(g, c[q].index, c[p].index);
      assert Toward(c, |visited|) == c[q].index;
    }
  }

  /** The search from the single vertex `item` finds every simple cycle that
      ends at `item`. */
  lemma FromVertex(g: GraphState, item: int, cycles: seq<seq<GraphVertex>>, done: set<int>)
    requires item in g.data
    requires forall c: seq<GraphVertex> | SimpleCycle(g, c) && c[|c| - 1].index in done :: Found(cycles, c)
    requires forall c: seq<GraphVertex> | Closes(g, [VertexAt(g, item)], c) :: Found(cycles, c)
    ensures forall c: seq<GraphVertex> | SimpleCycle(g, c) && c[|c| - 1].index in done + {item} :: Found(cycles, c)
  {
    forall c: seq<GraphVertex> | SimpleCycle(g, c) && c[|c| - 1].index == item
      ensures Found(cycles, c)
    {
      assert IsVertex(g, c[|c| - 1]);
      assert c[|c| - 1..] == [VertexAt(g, item)];
    }
  }

  /** Cycles found from the vertices in `done` stay found when more cycles are recorded. */
  lemma FoundFromGrows(g: GraphState, cycles: seq<seq<GraphVertex>>, cycles': seq<seq<GraphVertex>>, done: set<int>)
    requires cycles <= cycles'
    requires forall c: seq<GraphVertex> | SimpleCycle(g, c) && c[|c| - 1].index in done :: Found(cycles, c)
    ensures forall c: seq<GraphVertex> | SimpleCycle(g, c) && c[|c| - 1].index in done :: Found(cycles', c)
  {
    forall c: seq<GraphVertex> | SimpleCycle(g, c) && c[|c| - 1].index in done
      ensures Found(cycles', c)
    {
      FoundGrows(cycles, cycles', c);
    }
  }
}
