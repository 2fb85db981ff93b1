/** The root controller of the quadtree: it owns the current root node,
    grows the root until it contains an entity being inserted, and delegates
    everything else to the root. */
module QuadTrees {
  import opened Wrappers
  import opened Geometry
  import opened Nodes
  import opened Batches

  /** The exceptions the growth step throws, in the order it checks them. */
  datatype Failure =
    | NewRootSizeWrong  // `newRoot.Insert(oldRoot)` returned null
    | SizeMismatch      // the returned node does not equal the old root
    | NoSlot            // no child slot of the returned node's parent matches the old root
    | ZeroDepth         // the returned node has depth 0

  /** How one growth step ends: the old root went into quadrant `q` of the
      new root and its subtree moved `depth` levels down; or the returned
      node had no parent and insertion stops; or an exception. */
  datatype Step = Grown(q: Quadrant, depth: int) | Detach | Broken(why: Failure)

  /** How `Insert(ent)` ends: the entity was stored, or the growth step
      returned early without storing it, or an exception was thrown. */
  datatype Outcome = Inserted | Dropped | Failed(why: Failure)

  /** The decision of the growth step, given what `newRoot.Insert(oldRoot)`
      did: the checks for a null result, for a result that does not equal the
      old root, for a null parent, for a parent slot holding it, and for
      depth 0, in the order the step makes them. */
  function Predict(how: Placement, newBound: Rect, oldBound: Rect): (s: Step)
    ensures s.Grown? ==> how.Child? && how.bound == oldBound && how.link == InSlot(s.q) && s.depth == how.depth != 0
    ensures s == Detach ==> (how.Kept? && newBound == oldBound) || (how.Child? && how.bound == oldBound && how.link == Detached)
    ensures s == Broken(NoSlot) ==> how.Child? && how.bound == oldBound && how.link == ParentOnly
    ensures s == Broken(ZeroDepth) ==> how.Child? && how.bound == oldBound && how.link.InSlot? && how.depth == 0
    ensures how.Rejected? <==> s == Broken(NewRootSizeWrong)
  {
    match how
    case Rejected => Broken(NewRootSizeWrong)
    case Kept => if newBound != oldBound then Broken(SizeMismatch) else Detach
    case Child(b, d, link) =>
      if b != oldBound then Broken(SizeMismatch)
      else
        match link
        case Detached => Detach
        case ParentOnly => Broken(NoSlot)
        case InSlot(q) => if d == 0 then Broken(ZeroDepth) else Grown(q, d)
  }

  /** What a node insertion that splits the new root once returns for the
      old root: a depth-1 child, in the quadrant of the new bound that the
      old bound fills. */
  function StandardPlacement(newBound: Rect, oldBound: Rect): Placement
  {
    if QuadrantOf(newBound, RightTop) == oldBound then Child(oldBound, 1, InSlot(RightTop))
    else if QuadrantOf(newBound, RightBottom) == oldBound then Child(oldBound, 1, InSlot(RightBottom))
    else if QuadrantOf(newBound, LeftBottom) == oldBound then Child(oldBound, 1, InSlot(LeftBottom))
    else if QuadrantOf(newBound, LeftTop) == oldBound then Child(oldBound, 1, InSlot(LeftTop))
    else Rejected
  }

  /** The four quadrants of a rectangle with area are different rectangles. */
  lemma QuadrantsDiffer(r: Rect, p: Quadrant, q: Quadrant)
    requires HasArea(r) && p != q
    ensures QuadrantOf(r, p) != QuadrantOf(r, q)
  {
    assert r.Width() / 2 < r.Width() && r.Height() / 2 < r.Height();
  }

  /** With the standard placement, a growth step never throws: the old root
      goes into the quadrant opposite the growth direction, one level down. */
  lemma StandardGrowth(root: Rect, e: Rect)
    requires HasArea(root)
    ensures var n := GrowBound(root, e);
      Predict(StandardPlacement(n, root), n, root) == Grown(Opposite(Direction(root, e)), 1)
  {
    var n := GrowBound(root, e);
    var q := Opposite(Direction(root, e));
    GrowKeepsOldQuadrant(root, e);
    assert HasArea(n);
    forall p | p != q
      ensures QuadrantOf(n, p) != root
    {
      QuadrantsDiffer(n, p, q);
    }
  }

  /** Every call of the node insertion behaves like `StandardPlacement`. */
  ghost predicate Standard(place: (Rect, Rect) -> Placement)
  {
    place == StandardPlacement
  }

  /** Under the standard placement every growth step of a root with area grows. */
  lemma StandardStepGrows(place: (Rect, Rect) -> Placement, root: Rect, e: Rect)
    requires HasArea(root)
    ensures var n := GrowBound(root, e); Standard(place) ==> Predict(place(n, root), n, root).Grown?
  {
    if Standard(place) {
      StandardGrowth(root, e);
    }
  }

  /** The positions `idx` of `ents` hold the entities `picked`, in order. */
  predicate Picks(ents: seq<Entity>, idx: seq<nat>, picked: seq<Entity>)
  {
    |idx| == |picked| && forall j | 0 <= j < |idx| :: idx[j] < |ents| && ents[idx[j]] == picked[j]
  }

  /** Recording one more position records the entity at it. */
  lemma PicksSnoc(ents: seq<Entity>, idx: seq<nat>, picked: seq<Entity>, i: nat)
    requires Picks(ents, idx, picked) && i < |ents|
    ensures Picks(ents, idx + [i], picked + [ents[i]])
  {
  }

  /** Every entity of `ents` can be inserted below a root with bound `b`:
      growth makes progress, or no growth is needed. */
  predicate Fits(b: Rect, ents: seq<Entity>)
  {
    HasArea(b) || forall e | e in ents :: b.Contains(e.rect)
  }

  /** A bound that contains a fitting bound, and keeps its area, fits. */
  lemma FitsGrow(b: Rect, b': Rect, ents: seq<Entity>)
    requires Fits(b, ents) && b'.Contains(b) && (HasArea(b) ==> HasArea(b'))
    ensures Fits(b', ents)
  {
  }

  /** The entities of `batch` whose insertion outcome, `outs[k]` for
      `batch[k]`, is `Inserted`. */
  function Accepted(batch: seq<Entity>, outs: seq<Outcome>): (r: seq<Entity>)
    requires |outs| <= |batch|
    ensures |r| <= |outs|
  {
    if outs == [] then []
    else Accepted(batch, outs[..|outs| - 1]) + (if outs[|outs| - 1] == Inserted then [batch[|outs| - 1]] else [])
  }

  /** When every outcome accepted its entity, the accepted entities are
      the batch so far. */
  lemma {:induction false} AllAccepted(batch: seq<Entity>, outs: seq<Outcome>)
    requires |outs| <= |batch| && |Accepted(batch, outs)| == |outs|
    ensures Accepted(batch, outs) == batch[..|outs|]
  {
    if outs != [] {
      AllAccepted(batch, outs[..|outs| - 1]);
      TakeSnoc(batch, |outs| - 1);
    }
  }

  /** A batch whose every insertion accepted its entity stored exactly the
      entities of the batch. */
  lemma WholeBatch(ents: seq<Entity>, outs: seq<Outcome>)
    requires |outs| == |BatchOrder(ents)| && |Accepted(BatchOrder(ents), outs)| == |outs|
    ensures multiset(Accepted(BatchOrder(ents), outs)) == multiset(ents)
  {
    BatchPermutes(ents);
    AllAccepted(BatchOrder(ents), outs);
    assert BatchOrder(ents)[..|outs|] == BatchOrder(ents);
  }

  /** One more outcome accepts at most the next entity of the batch. */
  lemma AcceptedSnoc(batch: seq<Entity>, outs: seq<Outcome>, o: Outcome)
    requires |outs| < |batch|
    ensures Accepted(batch, outs + [o]) == Accepted(batch, outs) + (if o == Inserted then [batch[|outs|]] else [])
  {
    assert (outs + [o])[..|outs|] == outs;
  }

  /** `stored` holds what `start` held and the accepted entities of `batch`. */
  ghost predicate Tracked(start: seq<Entity>, stored: seq<Entity>, batch: seq<Entity>, outs: seq<Outcome>)
  {
    |outs| <= |batch| && multiset(stored) == multiset(start) + multiset(Accepted(batch, outs))
  }

  /** One more insertion keeps the record of what was accepted. */
  lemma TrackedSnoc(start: seq<Entity>, s1: seq<Entity>, s2: seq<Entity>, batch: seq<Entity>, outs: seq<Outcome>, o: Outcome)
    requires Tracked(start, s1, batch, outs) && |outs| < |batch|
    requires o == Inserted ==> multiset(s2) == multiset(s1) + multiset{batch[|outs|]}
    requires o != Inserted ==> s2 == s1
    ensures Tracked(start, s2, batch, outs + [o])
  {
    AcceptedSnoc(batch, outs, o);
  }

  /** No insertion recorded in `outs` threw. */
  ghost predicate Clean(outs: seq<Outcome>)
  {
    forall k | 0 <= k < |outs| :: !outs[k].Failed?
  }

  /** Only the last insertion recorded in `outs` may have thrown. */
  ghost predicate Halts(outs: seq<Outcome>)
  {
    forall k | 0 <= k < |outs| - 1 :: !outs[k].Failed?
  }

  /** One more outcome after clean ones: only it may have thrown. */
  lemma CleanSnoc(outs: seq<Outcome>, o: Outcome)
    requires Clean(outs)
    ensures Halts(outs + [o]) && (!o.Failed? ==> Clean(outs + [o]))
  {
  }

  /** Slot `q` of `p` holds a node that equals the node `target`. */
  predicate Holds(nodes: seq<Node>, p: Handle, q: Quadrant, target: Handle)
    requires p < |nodes| && target < |nodes|
  {
    nodes[p].Slot(q).Some? && nodes[p].Slot(q).value < |nodes| && nodes[target].Equals(nodes[nodes[p].Slot(q).value])
  }

  /** The arena after `newRoot.Insert(oldRoot)` and `oldRoot.Parent = par`. */
  function Reparented(nodes: seq<Node>, root: Handle, nb: Rect, how: Placement, par: Option<Handle>): (r: seq<Node>)
    requires root < |nodes|
    ensures |r| == |NewRootInsert(nodes, nb, how).0|
  {
    var ns := NewRootInsert(nodes, nb, how).0;
    ns[root := ns[root].(parent := par)]
  }

  /** The arena of a growth step that also put the old root into slot `q` of
      the new root `|nodes|`, before the old tree moves down. */
  function Rewired(nodes: seq<Node>, root: Handle, nb: Rect, how: Placement, q: Quadrant): (r: seq<Node>)
    requires root < |nodes|
    ensures |r| == |NewRootInsert(nodes, nb, how).0|
  {
    var ns := Reparented(nodes, root, nb, how, Some(|nodes|));
    ns[|nodes| := ns[|nodes|].WithSlot(q, Some(root))]
  }

  /** The arena and the root a growth step leaves, by how it ends: the
      arena with the new records only, when the node insertion returned null
      or a node that does not equal the old root; with the old root's parent
      null, when the step stops; with the old root's parent the new root,
      when no slot holds the old root, and with the old root in slot `q`
      too, when the depth is 0; and after a step that grows, with every node
      of the old tree moved down and the new root as the root. */
  function GrowResult(nodes: seq<Node>, ghost rank: seq<nat>, root: Handle, nb: Rect, how: Placement): (r: (seq<Node>, Handle))
    requires Ranked(nodes, rank) && root < |nodes|
    ensures |r.0| == |nodes| + (if how.Child? then 2 else 1)
    ensures r.1 == |nodes| <==> Predict(how, nb, nodes[root].bound).Grown?
    ensures r.1 != |nodes| ==> r.1 == root
  {
    match Predict(how, nb, nodes[root].bound)
    case Grown(q, d) => (VisitAll(Rewired(nodes, root, nb, how, q), Order(nodes, rank, root), ShiftBy(d)).0, |nodes|)
    case Detach => (Reparented(nodes, root, nb, how, None), root)
    case Broken(why) =>
      if why == NoSlot then (Reparented(nodes, root, nb, how, Some(|nodes|)), root)
      else if why == ZeroDepth then (Rewired(nodes, root, nb, how, how.link.q), root)
      else (NewRootInsert(nodes, nb, how).0, root)
  }

  /** The new root's slot that holds a node equal to the old root is the one
      where the node insertion put the returned node. */
  lemma SlotsOfNewRoot(nodes: seq<Node>, root: Handle, nb: Rect, how: Placement)
    requires root < |nodes| && how.Child? && how.bound == nodes[root].bound
    ensures var ns := Reparented(nodes, root, nb, how, Some(|nodes|));
      forall s :: Holds(ns, |nodes|, s, root) <==> how.link == InSlot(s)
  {
    var ns1 := NewRootInsert(nodes, nb, how).0;
    var ns := Reparented(nodes, root, nb, how, Some(|nodes|));
    assert ns1[root] == nodes[root] by {
      assert ns1[..|nodes|][root] == ns1[root];
    }
    forall s ensures Holds(ns, |nodes|, s, root) <==> how.link == InSlot(s) {
      assert ns[|nodes|].Slot(s) == if how.link == InSlot(s) then Some(|nodes| + 1) else None;
    }
  }

  /** Setting the old root's parent keeps the arena ranked and the old tree
      as it was. */
  lemma ReparentedKeeps(nodes: seq<Node>, rank: seq<nat>, root: Handle, nb: Rect, how: Placement, par: Option<Handle>)
    requires Ranked(nodes, rank) && root < |nodes| && IsTree(nodes, rank, root)
    ensures var (r, rk) := (Reparented(nodes, root, nb, how, par), NewRootRank(rank, root, how));
      && Ranked(r, rk) && IsTree(r, rk, root)
      && Order(r, rk, root) == Order(nodes, rank, root) && Contents(r, rk, root) == Contents(nodes, rank, root)
      && r[root] == nodes[root].(parent := par) && forall k | 0 <= k < |r| && k != root :: r[k] == NewRootInsert(nodes, nb, how).0[k]
  {
    var ns := NewRootInsert(nodes, nb, how).0;
    var r, rk := Reparented(nodes, root, nb, how, par), NewRootRank(rank, root, how);
    NewRootInsertKeeps(nodes, rank, root, nb, how);
    assert ns[root] == nodes[root] by {
      assert ns[..|nodes|][root] == ns[root];
    }
    assert forall k | 0 <= k < |ns| :: SameShape(r[k], ns[k]) && r[k].entities == ns[k].entities;
    assert Ranked(r, rk);
    ArenaFrame(ns, rk, r, rk, root);
  }

  /** The rewired arena is ranked, the old tree keeps its traversal and its
      contents in it, and the new root's only child is the old root. */
  lemma RewiredKeeps(nodes: seq<Node>, rank: seq<nat>, root: Handle, nb: Rect, how: Placement, q: Quadrant)
    requires Ranked(nodes, rank) && root < |nodes| && IsTree(nodes, rank, root)
    requires how.Child? && how.link == InSlot(q)
    ensures var (r, rk) := (Rewired(nodes, root, nb, how, q), NewRootRank(rank, root, how));
      && Ranked(r, rk) && IsTree(r, rk, root)
      && Order(r, rk, root) == Order(nodes, rank, root) && Contents(r, rk, root) == Contents(nodes, rank, root)
      && r[|nodes|] == NewNode(nb, None, 0).WithSlot(q, Some(root))
      && r[root] == nodes[root].(parent := Some(|nodes|))
      && forall k | 0 <= k < |nodes| && k != root :: r[k] == nodes[k]
  {
    var ns := NewRootInsert(nodes, nb, how).0;
    var ns2 := Reparented(nodes, root, nb, how, Some(|nodes|));
    var r, rk := Rewired(nodes, root, nb, how, q), NewRootRank(rank, root, how);
    ReparentedKeeps(nodes, rank, root, nb, how, Some(|nodes|));
    assert forall k | 0 <= k < |nodes| :: ns[k] == nodes[k] by {
      forall k | 0 <= k < |nodes| ensures ns[k] == nodes[k] {
        assert ns[..|nodes|][k] == ns[k];
      }
    }
    assert rk[root] == rank[root] by {
      assert rk[..|rank|][root] == rk[root];
    }
    assert Ranked(r, rk) by {
      forall g: Handle, s: Quadrant | g < |r| && r[g].Slot(s).Some?
        ensures r[g].Slot(s).value < |r| && rk[r[g].Slot(s).value] < rk[g]
      {
        if g == |nodes| && s == q {
          assert r[g].Slot(s).value == root;
        } else {
          assert r[g].Slot(s) == ns2[g].Slot(s);
        }
      }
    }
    assert forall k | 0 <= k < |nodes| :: SameShape(r[k], nodes[k]) && r[k].entities == nodes[k].entities;
    ArenaFrame(nodes, rank, r, rk, root);
  }

  /** A growth step keeps the arena ranked and the root a tree, and stores
      what it stored. A step that grows makes the node `|nodes|` the root:
      it has the grown bound, depth 0, no parent, nothing stored and the old
      root as its only child, and its traversal is itself followed by the
      old tree. Any other step leaves the root and its traversal as they were. */
  lemma GrowKeeps(nodes: seq<Node>, rank: seq<nat>, root: Handle, nb: Rect, how: Placement)
    requires Ranked(nodes, rank) && root < |nodes| && IsTree(nodes, rank, root)
    ensures var (ns, r) := GrowResult(nodes, rank, root, nb, how);
      var (rk, step) := (NewRootRank(rank, root, how), Predict(how, nb, nodes[root].bound));
      && Ranked(ns, rk) && r < |ns| && IsTree(ns, rk, r) && Contents(ns, rk, r) == Contents(nodes, rank, root)
      && (step.Grown? ==>
           && r == |nodes| && ns[r] == NewNode(nb, None, 0).WithSlot(step.q, Some(root))
           && Order(ns, rk, r) == [r] + Order(nodes, rank, root))
      && (!step.Grown? ==> r == root && Order(ns, rk, r) == Order(nodes, rank, root))
  {
    var step := Predict(how, nb, nodes[root].bound);
    match step
    case Grown(q, d) =>
      RewiredKeeps(nodes, rank, root, nb, how, q);
      ShiftUnder(Rewired(nodes, root, nb, how, q), NewRootRank(rank, root, how), root, |nodes|, q, d);
    case Detach =>
      ReparentedKeeps(nodes, rank, root, nb, how, None);
    case Broken(why) =>
      if why == NoSlot {
        ReparentedKeeps(nodes, rank, root, nb, how, Some(|nodes|));
      } else if why == ZeroDepth {
        RewiredKeeps(nodes, rank, root, nb, how, how.link.q);
      } else {
        NewRootInsertKeeps(nodes, rank, root, nb, how);
      }
  }

  /** A growth step changes no record of the old tree but for the depth,
      which grows by the step's depth when the step grows, and the old
      root's parent, which is then the new root. */
  lemma GrowMoves(nodes: seq<Node>, rank: seq<nat>, root: Handle, nb: Rect, how: Placement)
    requires Ranked(nodes, rank) && root < |nodes| && IsTree(nodes, rank, root)
    ensures var (ns, r) := GrowResult(nodes, rank, root, nb, how);
      var (o, step) := (Order(nodes, rank, root), Predict(how, nb, nodes[root].bound));
      var d := if step.Grown? then step.depth else 0;
      && |nodes| <= |ns|
      && (forall j | 0 < j < |o| :: ns[o[j]] == nodes[o[j]].(depth := nodes[o[j]].depth + d))
      && ns[root] == nodes[root].(depth := nodes[root].depth + d, parent := ns[root].parent)
      && (step.Grown? ==> ns[root].parent == Some(r))
  {
    match Predict(how, nb, nodes[root].bound)
    case Grown(q, d) => GrowMovesGrown(nodes, rank, root, nb, how, q, d);
    case Detach => GrowMovesOther(nodes, rank, root, nb, how);
    case Broken(_) => GrowMovesOther(nodes, rank, root, nb, how);
  }

  /** The root's handle occurs only at the head of its traversal order. */
  lemma RootOnlyFirst(nodes: seq<Node>, rank: seq<nat>, root: Handle)
    requires Ranked(nodes, rank) && root < |nodes| && IsTree(nodes, rank, root)
    ensures var o := Order(nodes, rank, root); forall j | 0 < j < |o| :: o[j] != root
  {
    var o := Order(nodes, rank, root);
    assert o[0] == root && o[0] !in o[1..];
    forall j | 0 < j < |o| ensures o[j] != root {
      assert o[j] == o[1..][j - 1];
    }
  }

  /** `GrowMoves` when the old root was linked below the new one. */
  lemma GrowMovesGrown(nodes: seq<Node>, rank: seq<nat>, root: Handle, nb: Rect, how: Placement, q: Quadrant, d: int)
    requires Ranked(nodes, rank) && root < |nodes| && IsTree(nodes, rank, root)
    requires Predict(how, nb, nodes[root].bound) == Grown(q, d)
    ensures var (ns, r) := GrowResult(nodes, rank, root, nb, how);
      var o := Order(nodes, rank, root);
      && |nodes| <= |ns|
      && (forall j | 0 < j < |o| :: ns[o[j]] == nodes[o[j]].(depth := nodes[o[j]].depth + d))
      && ns[root] == nodes[root].(depth := nodes[root].depth + d, parent := Some(r))
  {
    ShiftedRewired(nodes, rank, root, nb, how, q, d);
  }

  /** Shifting the old tree after the new root was linked above it changes
      its records only by depth, besides the old root's parent link. */
  lemma ShiftedRewired(nodes: seq<Node>, rank: seq<nat>, root: Handle, nb: Rect, how: Placement, q: Quadrant, d: int)
    requires Ranked(nodes, rank) && root < |nodes| && IsTree(nodes, rank, root)
    requires how.Child? && how.link == InSlot(q)
    ensures var o := Order(nodes, rank, root);
      var after := VisitAll(Rewired(nodes, root, nb, how, q), o, ShiftBy(d)).0;
      && |nodes| <= |after|
      && (forall j | 0 < j < |o| :: after[o[j]] == nodes[o[j]].(depth := nodes[o[j]].depth + d))
      && after[root] == nodes[root].(depth := nodes[root].depth + d, parent := Some(|nodes|))
  {
    RewiredKeeps(nodes, rank, root, nb, how, q);
    ShiftedArena(nodes, rank, Rewired(nodes, root, nb, how, q), root, d);
  }

  /** Shifting the depths of the old tree inside an arena `r` that agrees
      with `nodes` except at the old root. */
  lemma ShiftedArena(nodes: seq<Node>, rank: seq<nat>, r: seq<Node>, root: Handle, d: int)
    requires Ranked(nodes, rank) && root < |nodes| && IsTree(nodes, rank, root)
    requires |nodes| <= |r| && forall k | 0 <= k < |nodes| && k != root :: r[k] == nodes[k]
    ensures var o := Order(nodes, rank, root);
      var after := VisitAll(r, o, ShiftBy(d)).0;
      && |nodes| <= |after|
      && (forall j | 0 < j < |o| :: after[o[j]] == nodes[o[j]].(depth := nodes[o[j]].depth + d))
      && after[root] == r[root].(depth := r[root].depth + d)
  {
    var o := Order(nodes, rank, root);
    RootOnlyFirst(nodes, rank, root);
    ShiftAll(r, o, d);
    assert o[0] == root;
    forall j | 0 < j < |o| ensures o[j] != root && o[j] < |nodes| && r[o[j]] == nodes[o[j]] {
    }
  }

  /** `GrowMoves` when growth gave up: old records change at most in the root's parent. */
  lemma GrowMovesOther(nodes: seq<Node>, rank: seq<nat>, root: Handle, nb: Rect, how: Placement)
    requires Ranked(nodes, rank) && root < |nodes| && IsTree(nodes, rank, root)
    requires !Predict(how, nb, nodes[root].bound).Grown?
    ensures var (ns, r) := GrowResult(nodes, rank, root, nb, how);
      var o := Order(nodes, rank, root);
      && |nodes| <= |ns|
      && (forall j | 0 < j < |o| :: ns[o[j]] == nodes[o[j]])
      && ns[root] == nodes[root].(parent := ns[root].parent)
  {
    RootOnlyFirst(nodes, rank, root);
    var ns1 := NewRootInsert(nodes, nb, how).0;
    assert forall k | 0 <= k < |nodes| :: ns1[k] == nodes[k] by {
      forall k | 0 <= k < |nodes| ensures ns1[k] == nodes[k] {
        assert ns1[..|nodes|][k] == ns1[k];
      }
    }
    if Predict(how, nb, nodes[root].bound) == Broken(ZeroDepth) {
      RewiredKeeps(nodes, rank, root, nb, how, how.link.q);
    }
  }

  /** The arena work of one growth step, on the arena `nodes` with root
      `root`, the grown bound `nb` and the node insertion `how`. It checks, in
      the source's order, the returned node, its equality with the old root,
      its parent, the slot that holds it and its depth. The step ends as
      `Predict` says, with the arena and root that `GrowResult` gives. */
  method GrowArena(nodes: seq<Node>, ghost rank: seq<nat>, root: Handle, nb: Rect, how: Placement)
    returns (arena: seq<Node>, top: Handle, step: Step)
    requires Ranked(nodes, rank) && root < |nodes| && IsTree(nodes, rank, root)
    ensures step == Predict(how, nb, nodes[root].bound)
    ensures (arena, top) == GrowResult(nodes, rank, root, nb, how)
  {
    var ob := nodes[root].bound;
    ghost var rk := NewRootRank(rank, root, how);
    var ns, ins := NewRootInsert(nodes, nb, how).0, NewRootInsert(nodes, nb, how).1;
    if ins.None? {
      return ns, root, Broken(NewRootSizeWrong);
    }
    var i := ins.value;
    if !ns[i].Equals(ns[root]) {
      return ns, root, Broken(SizeMismatch);
    }
    var insPar := ns[i].parent;
    ns := ns[root := ns[root].(parent := insPar)];
    if insPar.None? {
      return ns, root, Detach;
    }
    var p := insPar.value;
    SlotsOfNewRoot(nodes, root, nb, how);
    var q;
    if Holds(ns, p, RightTop, root) {
      q := RightTop;
    } else if Holds(ns, p, RightBottom, root) {
      q := RightBottom;
    } else if Holds(ns, p, LeftBottom, root) {
      q := LeftBottom;
    } else if Holds(ns, p, LeftTop, root) {
      q := LeftTop;
    } else {
      return ns, root, Broken(NoSlot);
    }
    ns := ns[p := ns[p].WithSlot(q, Some(root))];
    var depth := ns[i].depth;
    if depth == 0 {
      return ns, root, Broken(ZeroDepth);
    }
    RewiredKeeps(nodes, rank, root, nb, how, q);
    assert Predict(how, nb, ob) == Grown(q, depth);
    assert ns == Rewired(nodes, root, nb, how, q);
    var stopped;
    ns, stopped := Nodes.ForEach(ns, rk, root, ShiftBy(depth));
    return ns, |nodes|, Grown(q, depth);
  }

  /** The root controller. The arena `nodes` holds every node created so
      far; `root` is the handle of the current root node. */
  class QuadTree {
    var nodes: seq<Node>
    var root: Handle
    ghost var rank: seq<nat>
    /** The entities handed to `Insert(ent)` so far, in call order. */
    ghost var issued: seq<Entity>

    /** The arena is acyclic and the root is a tree in it. */
    ghost predicate Valid()
      reads this
    {
      Ranked(nodes, rank) && root < |nodes| && IsTree(nodes, rank, root)
    }

    /** The root's bound. */
    function Bound(): Rect
      reads this
      requires Valid()
    {
      nodes[root].bound
    }

    /** The nodes of the tree, in traversal order. */
    ghost function Tree(): seq<Handle>
      reads this
      requires Valid()
    {
      Order(nodes, rank, root)
    }

    /** The entities stored in the tree, in traversal order. */
    ghost function Stored(): seq<Entity>
      reads this
      requires Valid()
    {
      Contents(nodes, rank, root)
    }

    /** `new QuadTree(rect)`: a depth-0 root without parent, children or entities. */
    constructor (rect: Rect)
      ensures Valid() && Stored() == [] && nodes[root] == NewNode(rect, None, 0) && issued == []
    {
      var n0, r0 := NewArena(rect);
      nodes, root, rank := n0, 0, r0;
      issued := [];
    }

    /** `Count`: how many entities the tree stores. */
    function Count(): (n: nat)
      reads this
      requires Valid()
      ensures n == |Stored()|
    {
      CountSubTree(nodes, rank, root)
    }

    /** One pass of the growth loop of `Insert(ent)`, with the bound twice
        as wide and as high toward the entity and the node insertion that
        `place` describes: it ends as `Predict` says and leaves the arena and
        the root `GrowResult` gives. */
    method GrowStep(ent: Entity, place: (Rect, Rect) -> Placement) returns (step: Step)
      requires Valid()
      modifies this
      ensures var (nb, ob) := (GrowBound(old(Bound()), ent.rect), old(Bound()));
        && step == Predict(place(nb, ob), nb, ob)
        && (nodes, root) == GrowResult(old(nodes), old(rank), old(root), nb, place(nb, ob))
        && rank == NewRootRank(old(rank), old(root), place(nb, ob))
      ensures issued == old(issued)
    {
      var ob := nodes[root].bound;
      var nb := GrowBound(ob, ent.rect);
      var how := place(nb, ob);
      var ns, r;
      ns, r, step := GrowArena(nodes, rank, root, nb, how);
      nodes, rank, root := ns, NewRootRank(rank, root, how), r;
    }

    /** `Insert(ent)`: grows the root until it contains the entity, then
        stores the entity. A growth step that stops leaves the entity out;
        one that throws ends the insertion with its failure. Either way the
        tree keeps what it stored. */
    method Insert(ent: Entity, place: (Rect, Rect) -> Placement) returns (outcome: Outcome)
      requires Valid() && (HasArea(Bound()) || Bound().Contains(ent.rect))
      modifies this
      ensures Valid() && Bound().Contains(old(Bound())) && (HasArea(old(Bound())) ==> HasArea(Bound()))
      ensures outcome == Inserted ==>
        Bound().Contains(ent.rect) && multiset(Stored()) == multiset(old(Stored())) + multiset{ent}
      ensures outcome != Inserted ==> Stored() == old(Stored())
      ensures Standard(place) ==> outcome == Inserted
      ensures issued == old(issued) + [ent]
    {
      issued := issued + [ent];
      while !nodes[root].Contains(ent)
        invariant Valid() && Stored() == old(Stored()) && issued == old(issued) + [ent]
        invariant Bound().Contains(old(Bound())) && (HasArea(old(Bound())) ==> HasArea(Bound()))
        invariant HasArea(Bound()) || Bound().Contains(ent.rect)
        decreases Excess(Bound(), ent.rect)
      {
        ghost var n0, rk0, r0, ob := nodes, rank, root, Bound();
        ghost var nb := GrowBound(ob, ent.rect);
        StandardStepGrows(place, ob, ent.rect);
        GrowProgress(ob, ent.rect);
        GrowContainsOld(ob, ent.rect);
        GrowKeeps(n0, rk0, r0, nb, place(nb, ob));
        var step := GrowStep(ent, place);
        if !step.Grown? {
          GrowMoves(n0, rk0, r0, nb, place(nb, ob));
          outcome := if step == Detach then Dropped else Failed(step.why);
          return;
        }
      }
      InsertEntityAdds(nodes, rank, root, ent);
      nodes := InsertEntity(nodes, root, ent);
      outcome := Inserted;
    }

    /** `Insert(ents)`: inserts the entities that are not points, then the
        points. An insertion that throws ends the batch; one that stops goes
        on with the next entity. `outcomes[k]` is how the insertion of
        `BatchOrder(ents)[k]` ended. */
    method InsertAll(ents: seq<Entity>, place: (Rect, Rect) -> Placement) returns (outcomes: seq<Outcome>)
      requires Valid() && Fits(Bound(), ents)
      modifies this
      ensures Valid() && Bound().Contains(old(Bound()))
      ensures |BatchOrder(ents)| == |ents| && |outcomes| <= |ents|
      ensures forall k | 0 <= k < |outcomes| - 1 :: !outcomes[k].Failed?
      ensures |outcomes| < |ents| ==> |outcomes| > 0 && outcomes[|outcomes| - 1].Failed?
      ensures multiset(Stored()) == multiset(old(Stored())) + multiset(Accepted(BatchOrder(ents), outcomes))
      ensures Standard(place) ==>
        |outcomes| == |ents| && multiset(Stored()) == multiset(old(Stored())) + multiset(ents)
      ensures issued == old(issued) + BatchOrder(ents)[..|outcomes|]
    {
      ghost var std, b0 := Standard(place), Bound();
      BatchPermutes(ents);
      var pointEntityNum, stopped;
      outcomes, pointEntityNum, stopped := InsertShapes(ents, place, b0, std);
      if !stopped {
        outcomes := InsertPoints(ents, pointEntityNum, place, b0, old(Stored()), std, outcomes, old(issued));
      }
      if std {
        WholeBatch(ents, outcomes);
      }
    }

    /** The tree is valid, its bound contains `b0` and every entity of
        `ents` fits below it. */
    ghost predicate Spans(b0: Rect, ents: seq<Entity>)
      reads this
    {
      Valid() && Bound().Contains(b0) && Fits(Bound(), ents)
    }

    /** The tree is valid and holds what it held at `start` and the entities
        of `batch` accepted so far; when `all` holds, every entity so far was
        accepted. */
    ghost predicate Records(start: seq<Entity>, batch: seq<Entity>, outs: seq<Outcome>, all: bool)
      reads this
    {
      Valid() && Tracked(start, Stored(), batch, outs) && (all ==> |Accepted(batch, outs)| == |outs|)
    }

    /** The entities handed to `Insert(ent)` since the trace was `trace0`
        are the first `n` of `batch`, in order. */
    ghost predicate Issued(trace0: seq<Entity>, batch: seq<Entity>, n: nat)
      reads this
    {
      n <= |batch| && issued == trace0 + batch[..n]
    }

    /** One insertion of a batch, recorded. */
    method InsertNext(ent: Entity, ents: seq<Entity>, place: (Rect, Rect) -> Placement,
                      ghost b0: Rect, ghost start: seq<Entity>, ghost batch: seq<Entity>, outs: seq<Outcome>, ghost std: bool,
                      ghost trace0: seq<Entity>)
      returns (o: Outcome)
      requires Spans(b0, ents) && ent in ents && (std ==> Standard(place))
      requires Records(start, batch, outs, std) && |outs| < |batch| && batch[|outs|] == ent
      requires Issued(trace0, batch, |outs|)
      modifies this
      ensures Spans(b0, ents) && Records(start, batch, outs + [o], std)
      ensures std ==> o == Inserted
      ensures Clean(outs) ==> Halts(outs + [o]) && (!o.Failed? ==> Clean(outs + [o]))
      ensures issued == old(issued) + [ent] && Issued(trace0, batch, |outs| + 1)
    {
      ghost var s1, b1 := Stored(), Bound();
      o := Insert(ent, place);
      TakeSnoc(batch, |outs|);
      FitsGrow(b1, Bound(), ents);
      TrackedSnoc(start, s1, Stored(), batch, outs, o);
      if Clean(outs) {
        CleanSnoc(outs, o);
      }
    }

    /** The state of the first pass of `Insert(ents)` after the first `i`
        entities: what the tree holds and the trace record the shapes among
        them, in order, none of whose insertions threw, and `idx` holds the
        positions of the points among them. */
    ghost predicate ShapePass(b0: Rect, ents: seq<Entity>, start: seq<Entity>, trace0: seq<Entity>, std: bool,
                              i: nat, outs: seq<Outcome>, idx: seq<nat>)
      reads this
    {
      i <= |ents| && Spans(b0, ents) && Records(start, BatchOrder(ents), outs, std)
      && Picks(ents, idx, PointsTo(ents, i)) && |outs| == |NonPointsTo(ents, i)|
      && Clean(outs) && Issued(trace0, BatchOrder(ents), |outs|)
    }

    /** A pass of `Insert(ents)` stopped at an insertion that threw: what the
        tree holds and the trace record the insertions up to that one, and only
        that one threw. The standard node insertion never gets here. */
    ghost predicate Stops(b0: Rect, ents: seq<Entity>, start: seq<Entity>, trace0: seq<Entity>, std: bool,
                          outs: seq<Outcome>)
      reads this
    {
      Spans(b0, ents) && Records(start, BatchOrder(ents), outs, std) && Halts(outs)
      && |outs| > 0 && outs[|outs| - 1].Failed? && Issued(trace0, BatchOrder(ents), |outs|) && !std
    }

    /** Passing over a point records its position. */
    lemma SkipPoint(b0: Rect, ents: seq<Entity>, start: seq<Entity>, trace0: seq<Entity>, std: bool,
                    i: nat, outs: seq<Outcome>, idx: seq<nat>)
      requires ShapePass(b0, ents, start, trace0, std, i, outs, idx) && i < |ents| && ents[i].isPoint
      ensures ShapePass(b0, ents, start, trace0, std, i + 1, outs, idx + [i])
    {
      PicksSnoc(ents, idx, PointsTo(ents, i), i);
    }

    /** The insertion of the entity at position `i` of a batch, which is
        not a point, recorded. */
    method InsertShape(ents: seq<Entity>, i: nat, place: (Rect, Rect) -> Placement,
                       ghost b0: Rect, ghost start: seq<Entity>, ghost std: bool, outs: seq<Outcome>,
                       ghost idx: seq<nat>, ghost trace0: seq<Entity>)
      returns (o: Outcome)
      requires ShapePass(b0, ents, start, trace0, std, i, outs, idx) && (std ==> Standard(place))
      requires i < |ents| && !ents[i].isPoint
      modifies this
      ensures issued == old(issued) + [ents[i]]
      ensures o.Failed? ==> Stops(b0, ents, start, trace0, std, outs + [o])
      ensures !o.Failed? ==> ShapePass(b0, ents, start, trace0, std, i + 1, outs + [o], idx)
    {
      NextShape(ents, i);
      o := InsertNext(ents[i], ents, place, b0, start, BatchOrder(ents), outs, std, trace0);
    }

    /** The first pass of `Insert(ents)`: inserts the entities that are not
        points, in order, and records the positions of the points. Stops at
        the first insertion that throws. */
    method InsertShapes(ents: seq<Entity>, place: (Rect, Rect) -> Placement, ghost b0: Rect, ghost std: bool)
      returns (outcomes: seq<Outcome>, pointEntityNum: seq<nat>, stopped: bool)
      requires Spans(b0, ents) && (std ==> Standard(place))
      modifies this
      ensures Spans(b0, ents) && Records(old(Stored()), BatchOrder(ents), outcomes, std)
      ensures Halts(outcomes)
      ensures stopped <==> |outcomes| > 0 && outcomes[|outcomes| - 1].Failed?
      ensures !stopped ==> |outcomes| == |NonPointsTo(ents, |ents|)| && Picks(ents, pointEntityNum, PointsTo(ents, |ents|))
      ensures std ==> !stopped
      ensures issued == old(issued) + BatchOrder(ents)[..|outcomes|]
    {
      ghost var s0 := Stored();
      pointEntityNum, outcomes, stopped := [], [], false;
      var i: nat := 0;
      while i < |ents| && !stopped
        invariant !stopped ==> ShapePass(b0, ents, s0, old(issued), std, i, outcomes, pointEntityNum)
        invariant stopped ==> Stops(b0, ents, s0, old(issued), std, outcomes)
        decreases |ents| - i
      {
        if ents[i].isPoint {
          SkipPoint(b0, ents, s0, old(issued), std, i, outcomes, pointEntityNum);
          pointEntityNum := pointEntityNum + [i];
        } else {
          var o := InsertShape(ents, i, place, b0, s0, std, outcomes, pointEntityNum, old(issued));
          outcomes := outcomes + [o];
          stopped := o.Failed?;
        }
        i := i + 1;
      }
      if !stopped {
        assert ShapePass(b0, ents, s0, old(issued), std, |ents|, outcomes, pointEntityNum);
      }
    }

    /** The state of the second pass of `Insert(ents)` after the first `j`
        points: what the tree holds and the trace record the shapes and
        those points, in order, none of whose insertions threw. */
    ghost predicate PointPass(b0: Rect, ents: seq<Entity>, start: seq<Entity>, trace0: seq<Entity>, std: bool,
                              idx: seq<nat>, j: nat, outs: seq<Outcome>)
      reads this
    {
      j <= |idx| && Spans(b0, ents) && Records(start, BatchOrder(ents), outs, std)
      && Picks(ents, idx, PointsTo(ents, |ents|)) && |outs| == |NonPointsTo(ents, |ents|)| + j
      && Clean(outs) && Issued(trace0, BatchOrder(ents), |outs|)
    }

    /** The insertion of the `j`-th point of a batch, recorded. */
    method InsertPoint(ents: seq<Entity>, pointEntityNum: seq<nat>, j: nat, place: (Rect, Rect) -> Placement,
                       ghost b0: Rect, ghost start: seq<Entity>, ghost std: bool, outs: seq<Outcome>,
                       ghost trace0: seq<Entity>)
      returns (o: Outcome)
      requires PointPass(b0, ents, start, trace0, std, pointEntityNum, j, outs) && (std ==> Standard(place))
      requires j < |pointEntityNum|
      modifies this
      ensures Spans(b0, ents) && Records(start, BatchOrder(ents), outs + [o], std) && Halts(outs + [o])
      ensures issued == old(issued) + [BatchOrder(ents)[|outs|]] && Issued(trace0, BatchOrder(ents), |outs| + 1)
      ensures std ==> o == Inserted
      ensures !o.Failed? ==> PointPass(b0, ents, start, trace0, std, pointEntityNum, j + 1, outs + [o])
    {
      var ent := ents[pointEntityNum[j]];
      NextPoint(ents, j);
      o := InsertNext(ent, ents, place, b0, start, BatchOrder(ents), outs, std, trace0);
    }

    /** The second pass of `Insert(ents)`: inserts the points, in order,
        after the `outcomes0` of the first pass. Stops at the first insertion
        that throws. */
    method InsertPoints(ents: seq<Entity>, pointEntityNum: seq<nat>, place: (Rect, Rect) -> Placement,
                        ghost b0: Rect, ghost start: seq<Entity>, ghost std: bool, outcomes0: seq<Outcome>,
                        ghost trace0: seq<Entity>)
      returns (outcomes: seq<Outcome>)
      requires Spans(b0, ents) && Records(start, BatchOrder(ents), outcomes0, std) && (std ==> Standard(place))
      requires Picks(ents, pointEntityNum, PointsTo(ents, |ents|)) && |outcomes0| == |NonPointsTo(ents, |ents|)|
      requires Clean(outcomes0) && issued == trace0 + BatchOrder(ents)[..|outcomes0|]
      modifies this
      ensures Spans(b0, ents) && Records(start, BatchOrder(ents), outcomes, std)
      ensures |outcomes0| <= |outcomes| <= |BatchOrder(ents)|
      ensures Halts(outcomes)
      ensures |outcomes| < |BatchOrder(ents)| ==> |outcomes| > 0 && outcomes[|outcomes| - 1].Failed?
      ensures std ==> |outcomes| == |BatchOrder(ents)|
      ensures issued == trace0 + BatchOrder(ents)[..|outcomes|]
    {
      outcomes := outcomes0;
      var j: nat := 0;
      while j < |pointEntityNum|
        invariant PointPass(b0, ents, start, trace0, std, pointEntityNum, j, outcomes)
      {
        var o := InsertPoint(ents, pointEntityNum, j, place, b0, start, std, outcomes, trace0);
        outcomes := outcomes + [o];
        if o.Failed? {
          return;
        }
        j := j + 1;
      }
    }

    /** `Query(rect, mode)`: the stored entities that `rect` selects under
        `mode`, in traversal order. */
    method Query(rect: Rect, mode: SelectMode := IntersectsWith) returns (results: seq<Entity>)
      requires Valid()
      ensures results == Selected(Stored(), rect, mode)
      ensures forall e :: e in results <==> e in Stored() && Selects(rect, mode, e)
    {
      results := Nodes.Query(nodes, rank, root, rect, mode, []);
      forall e ensures e in results <==> e in Stored() && Selects(rect, mode, e) {
        SelectedExactly(Stored(), rect, mode, e);
      }
    }

    /** `Remove(rect)`: drops every stored entity that `rect` selects under
        `mode`, and nothing else; the tree keeps its nodes. */
    method RemoveRegion(rect: Rect, mode: SelectMode)
      requires Valid()
      modifies this
      ensures Valid() && root == old(root) && Tree() == old(Tree())
      ensures nodes == RemoveSelected(old(nodes), old(Tree()), rect, mode)
      ensures Stored() == Unselected(old(Stored()), rect, mode)
      ensures forall e :: e in Stored() <==> e in old(Stored()) && !Selects(rect, mode, e)
      ensures issued == old(issued)
    {
      ghost var s0 := Stored();
      RemoveSelectedFilters(nodes, rank, root, rect, mode);
      nodes := RemoveSelected(nodes, Order(nodes, rank, root), rect, mode);
      forall e ensures e in Stored() <==> e in s0 && !Selects(rect, mode, e) {
        UnselectedExactly(s0, rect, mode, e);
      }
    }

    /** `Remove(ent)`: takes one copy of `ent` out of the tree, when it
        holds one; the tree keeps its nodes. */
    method Remove(ent: Entity)
      requires Valid()
      modifies this
      ensures Valid() && root == old(root) && Tree() == old(Tree())
      ensures Stored() == RemoveFirst(old(Stored()), ent)
      ensures ent in old(Stored()) ==> multiset(Stored()) == multiset(old(Stored())) - multiset{ent}
      ensures ent !in old(Stored()) ==> Stored() == old(Stored())
      ensures issued == old(issued)
    {
      ghost var s0 := Stored();
      RemoveEntityRemoves(nodes, rank, root, ent);
      nodes := RemoveEntity(nodes, Order(nodes, rank, root), ent);
      if ent in s0 {
        RemoveFirstOne(s0, ent);
      }
    }

    /** `ForEach(action)`: runs the callback on the nodes of the tree in
        traversal order until it asks to stop. The tree keeps its nodes and
        what it stores. */
    method ForEach(action: QTAction)
      requires Valid()
      modifies this
      ensures Valid() && root == old(root) && Tree() == old(Tree()) && Stored() == old(Stored())
      ensures nodes == VisitAll(old(nodes), old(Tree()), action).0
      ensures issued == old(issued)
    {
      VisitKeeps(nodes, rank, root, action);
      var stopped;
      nodes, stopped := Nodes.ForEach(nodes, rank, root, action);
    }
  }
}
