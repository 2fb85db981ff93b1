/** The quadtree's nodes, as far as the root controller relies on them.

    The nodes live in an arena: a sequence of node records, where a handle is
    a position in the sequence. A node's parent and its four child slots hold
    handles, so "the old root object itself" is its handle, and rewriting a
    link is updating the record at a handle. A ghost rank, which strictly
    decreases from a node to each of its children, keeps the arena acyclic.

    The node's own algorithms (splitting on insertion, the descent of a query,
    neighbour search) are not part of this model: an entity given to a node is
    stored in that node's bucket, and queries and removals visit the whole
    subtree in pre-order (the node, then its left-top, right-top, left-bottom
    and right-bottom subtrees). */
module Nodes {
  import opened Wrappers
  import opened Geometry

  /** The position of a node in the arena. */
  type Handle = nat

  /** `QuadTreeNode`: its bound, its depth, its parent, its four child slots
      and its bucket of entities. */
  datatype Node = Node(
    bound: Rect,
    depth: int,
    parent: Option<Handle>,
    leftTop: Option<Handle>,
    rightTop: Option<Handle>,
    leftBottom: Option<Handle>,
    rightBottom: Option<Handle>,
    entities: seq<Entity>)
  {
    /** The child in slot `q`. */
    function Slot(q: Quadrant): Option<Handle>
    {
      match q
      case LeftTop => leftTop
      case RightTop => rightTop
      case LeftBottom => leftBottom
      case RightBottom => rightBottom
    }

    /** This node with slot `q` pointing at `c`. */
    function WithSlot(q: Quadrant, c: Option<Handle>): (n: Node)
      ensures n.Slot(q) == c && forall p | p != q :: n.Slot(p) == Slot(p)
      ensures n.bound == bound && n.depth == depth && n.parent == parent && n.entities == entities
    {
      match q
      case LeftTop => this.(leftTop := c)
      case RightTop => this.(rightTop := c)
      case LeftBottom => this.(leftBottom := c)
      case RightBottom => this.(rightBottom := c)
    }

    /** `Contains(ent)`: the bound contains the entity's rectangle, which is
        when the entity sticks out of it by nothing. */
    predicate Contains(ent: Entity)
      ensures Contains(ent) <==> Excess(bound, ent.rect) == 0
    {
      bound.Contains(ent.rect)
    }

    /** Node equality as the growth step uses it: the same bound. */
    predicate Equals(other: Node)
    {
      bound == other.bound
    }
  }

  /** `new QuadTreeNode(rect, parent, depth)`: no children and an empty bucket. */
  function NewNode(rect: Rect, parent: Option<Handle>, depth: int): (n: Node)
    ensures n.bound == rect && n.parent == parent && n.depth == depth
    ensures n.entities == [] && forall q :: n.Slot(q) == None
  {
    Node(rect, depth, parent, None, None, None, None, [])
  }

  /** Every child slot of the arena names a node of the arena of smaller rank. */
  ghost predicate Ranked(nodes: seq<Node>, rank: seq<nat>)
  {
    && |rank| == |nodes|
    && forall h: Handle, q: Quadrant | h < |nodes| && nodes[h].Slot(q).Some? ::
         nodes[h].Slot(q).value < |nodes| && rank[nodes[h].Slot(q).value] < rank[h]
  }

  /** Two records with the same children. */
  predicate SameShape(a: Node, b: Node)
  {
    a.leftTop == b.leftTop && a.rightTop == b.rightTop && a.leftBottom == b.leftBottom && a.rightBottom == b.rightBottom
  }

  /** Every handle of `order` names a node of an arena of `n` nodes. */
  predicate Within(order: seq<Handle>, n: nat)
  {
    forall i | 0 <= i < |order| :: order[i] < n
  }

  /** `nodes'` gives the nodes `order` the children `nodes` gives them. */
  predicate ShapeOn(nodes: seq<Node>, nodes': seq<Node>, order: seq<Handle>)
  {
    Within(order, |nodes|) && Within(order, |nodes'|)
    && forall i | 0 <= i < |order| :: SameShape(nodes'[order[i]], nodes[order[i]])
  }

  /** `nodes'` gives the nodes `order` the buckets `nodes` gives them. */
  predicate BucketsOn(nodes: seq<Node>, nodes': seq<Node>, order: seq<Handle>)
  {
    Within(order, |nodes|) && Within(order, |nodes'|)
    && forall i | 0 <= i < |order| :: nodes'[order[i]].entities == nodes[order[i]].entities
  }

  /** No handle occurs twice in `s`. */
  predicate NoDup(s: seq<Handle>)
  {
    s == [] || (s[0] !in s[1..] && NoDup(s[1..]))
  }

  /** The nodes of the subtree at `h` in the order a depth-first traversal
      visits them: the node, then its left-top, right-top, left-bottom and
      right-bottom subtrees. */
  function Order(nodes: seq<Node>, ghost rank: seq<nat>, h: Handle): (r: seq<Handle>)
    requires Ranked(nodes, rank) && h < |nodes|
    ensures |r| > 0 && r[0] == h && Within(r, |nodes|)
    decreases rank[h], 1
  {
    [h] + SlotOrder(nodes, rank, h, LeftTop) + SlotOrder(nodes, rank, h, RightTop)
      + SlotOrder(nodes, rank, h, LeftBottom) + SlotOrder(nodes, rank, h, RightBottom)
  }

  /** The traversal of the subtree under slot `q` of `h`. */
  function SlotOrder(nodes: seq<Node>, ghost rank: seq<nat>, h: Handle, q: Quadrant): (r: seq<Handle>)
    requires Ranked(nodes, rank) && h < |nodes|
    ensures Within(r, |nodes|)
    decreases rank[h], 0
  {
    match nodes[h].Slot(q)
    case None => []
    case Some(c) => Order(nodes, rank, c)
  }

  /** The subtree at `h` is a tree: the traversal meets no node twice. */
  ghost predicate IsTree(nodes: seq<Node>, rank: seq<nat>, h: Handle)
    requires Ranked(nodes, rank) && h < |nodes|
  {
    NoDup(Order(nodes, rank, h))
  }

  /** The buckets of the nodes `order`, one after the other. */
  function Buckets(nodes: seq<Node>, order: seq<Handle>): (r: seq<Entity>)
    requires Within(order, |nodes|)
  {
    if order == [] then [] else nodes[order[0]].entities + Buckets(nodes, order[1..])
  }

  lemma {:induction false} BucketsAppend(nodes: seq<Node>, a: seq<Handle>, b: seq<Handle>)
    requires Within(a, |nodes|) && Within(b, |nodes|)
    ensures Within(a + b, |nodes|)
    ensures Buckets(nodes, a + b) == Buckets(nodes, a) + Buckets(nodes, b)
    decreases |a|
  {
    if a == [] {
      assert a + b == b;
    } else {
      assert (a + b)[0] == a[0] && (a + b)[1..] == a[1..] + b;
      BucketsAppend(nodes, a[1..], b);
    }
  }

  /** The buckets of a prefix of `order` grow by one bucket at a time. */
  lemma BucketsSnoc(nodes: seq<Node>, order: seq<Handle>, i: nat)
    requires Within(order, |nodes|) && i < |order|
    ensures Within(order[..i], |nodes|) && Within(order[..i + 1], |nodes|)
    ensures Buckets(nodes, order[..i + 1]) == Buckets(nodes, order[..i]) + nodes[order[i]].entities
  {
    var p, last := order[..i], [order[i]];
    assert Within(p, |nodes|) by {
      forall k | 0 <= k < |p| ensures p[k] < |nodes| {
        assert p[k] == order[k];
      }
    }
    assert Buckets(nodes, last) == nodes[order[i]].entities by {
      assert last[1..] == [];
    }
    BucketsAppend(nodes, p, last);
    assert order[..i + 1] == p + last by {
      assert |order[..i + 1]| == |p + last|;
      forall k | 0 <= k <= i ensures order[..i + 1][k] == (p + last)[k] {
        if k < i {
          assert (p + last)[k] == p[k];
        }
      }
    }
  }

  /** The entities stored in the subtree at `h`, in traversal order. */
  ghost function Contents(nodes: seq<Node>, rank: seq<nat>, h: Handle): seq<Entity>
    requires Ranked(nodes, rank) && h < |nodes|
  {
    Buckets(nodes, Order(nodes, rank, h))
  }

  /** The entities stored under slot `q` of `h`. */
  ghost function SlotContents(nodes: seq<Node>, rank: seq<nat>, h: Handle, q: Quadrant): seq<Entity>
    requires Ranked(nodes, rank) && h < |nodes|
  {
    Buckets(nodes, SlotOrder(nodes, rank, h, q))
  }

  /** The subtree stores the node's bucket followed by what its four slots store. */
  lemma ContentsUnfold(nodes: seq<Node>, rank: seq<nat>, h: Handle)
    requires Ranked(nodes, rank) && h < |nodes|
    ensures Contents(nodes, rank, h) == nodes[h].entities + SlotContents(nodes, rank, h, LeftTop)
      + SlotContents(nodes, rank, h, RightTop) + SlotContents(nodes, rank, h, LeftBottom)
      + SlotContents(nodes, rank, h, RightBottom)
  {
    var o1, o2, o3, o4 := SlotOrder(nodes, rank, h, LeftTop), SlotOrder(nodes, rank, h, RightTop),
      SlotOrder(nodes, rank, h, LeftBottom), SlotOrder(nodes, rank, h, RightBottom);
    var p1 := [h] + o1;
    var p2 := p1 + o2;
    var p3 := p2 + o3;
    assert Order(nodes, rank, h) == p3 + o4;
    assert Buckets(nodes, [h]) == nodes[h].entities;
    BucketsAppend(nodes, [h], o1);
    BucketsAppend(nodes, p1, o2);
    BucketsAppend(nodes, p2, o3);
    BucketsAppend(nodes, p3, o4);
  }

  /** `CountSubTree`: how many entities the subtree at `h` stores. */
  function CountSubTree(nodes: seq<Node>, ghost rank: seq<nat>, h: Handle): (n: nat)
    requires Ranked(nodes, rank) && h < |nodes|
    ensures n == |Contents(nodes, rank, h)|
    decreases rank[h], 1
  {
    ContentsUnfold(nodes, rank, h);
    |nodes[h].entities| + SlotCount(nodes, rank, h, LeftTop) + SlotCount(nodes, rank, h, RightTop)
      + SlotCount(nodes, rank, h, LeftBottom) + SlotCount(nodes, rank, h, RightBottom)
  }

  /** How many entities are stored under slot `q` of `h`. */
  function SlotCount(nodes: seq<Node>, ghost rank: seq<nat>, h: Handle, q: Quadrant): (n: nat)
    requires Ranked(nodes, rank) && h < |nodes|
    ensures n == |SlotContents(nodes, rank, h, q)|
    decreases rank[h], 0
  {
    match nodes[h].Slot(q)
    case None => 0
    case Some(c) => CountSubTree(nodes, rank, c)
  }

  // ---------------------------------------------------------------------------
  // What a subtree depends on

  /** The traversal of a subtree depends only on the children of its own
      nodes: another arena that agrees with this one there has the same one. */
  lemma {:induction false} OrderFrame(nodes: seq<Node>, rank: seq<nat>, nodes': seq<Node>, rank': seq<nat>, h: Handle)
    requires Ranked(nodes, rank) && Ranked(nodes', rank') && h < |nodes|
    requires ShapeOn(nodes, nodes', Order(nodes, rank, h))
    ensures Order(nodes', rank', h) == Order(nodes, rank, h)
    decreases rank[h]
  {
    var o := Order(nodes, rank, h);
    assert SameShape(nodes'[o[0]], nodes[o[0]]);
    forall q: Quadrant
      ensures SlotOrder(nodes', rank', h, q) == SlotOrder(nodes, rank, h, q)
    {
      assert nodes'[h].Slot(q) == nodes[h].Slot(q);
      if nodes[h].Slot(q).Some? {
        var c := nodes[h].Slot(q).value;
        var lo, hi := SlotSpan(nodes, rank, h, q);
        ShapeOnSlice(nodes, nodes', o, lo, hi);
        OrderFrame(nodes, rank, nodes', rank', c);
      }
    }
  }

  /** Where the traversal of a slot's subtree lies inside the node's. */
  lemma SlotSpan(nodes: seq<Node>, rank: seq<nat>, h: Handle, q: Quadrant) returns (lo: nat, hi: nat)
    requires Ranked(nodes, rank) && h < |nodes|
    ensures 1 <= lo <= hi <= |Order(nodes, rank, h)|
    ensures Order(nodes, rank, h)[lo..hi] == SlotOrder(nodes, rank, h, q)
  {
    var o1, o2, o3, o4 := SlotOrder(nodes, rank, h, LeftTop), SlotOrder(nodes, rank, h, RightTop),
      SlotOrder(nodes, rank, h, LeftBottom), SlotOrder(nodes, rank, h, RightBottom);
    var o := Order(nodes, rank, h);
    var p1 := [h] + o1;
    var p2 := p1 + o2;
    var p3 := p2 + o3;
    assert o == p3 + o4;
    match q {
      case LeftTop => lo, hi := 1, |p1|; assert o[lo..hi] == p3[lo..hi] == p2[lo..hi] == p1[lo..hi];
      case RightTop => lo, hi := |p1|, |p2|; assert o[lo..hi] == p3[lo..hi] == p2[lo..hi];
      case LeftBottom => lo, hi := |p2|, |p3|; assert o[lo..hi] == p3[lo..hi];
      case RightBottom => lo, hi := |p3|, |o|;
    }
  }

  /** Agreement on `order` is agreement on every slice of it. */
  lemma ShapeOnSlice(nodes: seq<Node>, nodes': seq<Node>, o: seq<Handle>, lo: nat, hi: nat)
    requires ShapeOn(nodes, nodes', o) && lo <= hi <= |o|
    ensures ShapeOn(nodes, nodes', o[lo..hi])
  {
    forall i | 0 <= i < hi - lo ensures o[lo..hi][i] == o[lo + i] && o[lo + i] < |nodes| && o[lo + i] < |nodes'| {
    }
  }

  /** The buckets of the nodes `order` depend only on those nodes' buckets. */
  lemma {:induction false} BucketsFrame(nodes: seq<Node>, nodes': seq<Node>, order: seq<Handle>)
    requires BucketsOn(nodes, nodes', order)
    ensures Buckets(nodes', order) == Buckets(nodes, order)
    decreases |order|
  {
    if order != [] {
      BucketsFrame(nodes, nodes', order[1..]);
    }
  }

  /** A subtree whose nodes kept their children and buckets stores what it
      stored and is a tree when it was one. */
  lemma SubtreeFrame(nodes: seq<Node>, rank: seq<nat>, nodes': seq<Node>, rank': seq<nat>, h: Handle)
    requires Ranked(nodes, rank) && Ranked(nodes', rank') && h < |nodes| <= |nodes'|
    requires ShapeOn(nodes, nodes', Order(nodes, rank, h)) && BucketsOn(nodes, nodes', Order(nodes, rank, h))
    ensures Order(nodes', rank', h) == Order(nodes, rank, h)
    ensures Contents(nodes', rank', h) == Contents(nodes, rank, h)
    ensures IsTree(nodes', rank', h) == IsTree(nodes, rank, h)
  {
    OrderFrame(nodes, rank, nodes', rank', h);
    BucketsFrame(nodes, nodes', Order(nodes, rank, h));
  }

  // ---------------------------------------------------------------------------
  // The node operations the controller calls

  /** `node.Insert(ent)` for an entity the node contains: the node stores it
      in its own bucket and returns itself. The subtree then stores one more
      copy of it, after the node's earlier entities and before its children's. */
  function InsertEntity(nodes: seq<Node>, h: Handle, ent: Entity): (r: seq<Node>)
    requires h < |nodes|
    ensures |r| == |nodes| && r[h].entities == nodes[h].entities + [ent]
    ensures SameShape(r[h], nodes[h]) && r[h].bound == nodes[h].bound
    ensures forall k | 0 <= k < |nodes| && k != h :: r[k] == nodes[k]
  {
    nodes[h := nodes[h].(entities := nodes[h].entities + [ent])]
  }

  /** A stored entity goes into the subtree's contents: one more copy of it,
      and nothing else changes. */
  lemma InsertEntityAdds(nodes: seq<Node>, rank: seq<nat>, h: Handle, ent: Entity)
    requires Ranked(nodes, rank) && h < |nodes| && IsTree(nodes, rank, h)
    ensures Ranked(InsertEntity(nodes, h, ent), rank)
    ensures Order(InsertEntity(nodes, h, ent), rank, h) == Order(nodes, rank, h)
    ensures IsTree(InsertEntity(nodes, h, ent), rank, h)
    ensures Contents(InsertEntity(nodes, h, ent), rank, h)
      == nodes[h].entities + [ent] + Contents(nodes, rank, h)[|nodes[h].entities|..]
    ensures multiset(Contents(InsertEntity(nodes, h, ent), rank, h)) == multiset(Contents(nodes, rank, h)) + multiset{ent}
  {
    var r := InsertEntity(nodes, h, ent);
    var o := Order(nodes, rank, h);
    assert Ranked(r, rank) by {
      forall g: Handle, q: Quadrant | g < |r| ensures r[g].Slot(q) == nodes[g].Slot(q) {
        assert SameShape(r[g], nodes[g]);
      }
    }
    assert ShapeOn(nodes, r, o) by {
      forall i | 0 <= i < |o| ensures SameShape(r[o[i]], nodes[o[i]]) {
      }
    }
    OrderFrame(nodes, rank, r, rank, h);
    assert o == [h] + o[1..];
    BucketsAppend(nodes, [h], o[1..]);
    BucketsAppend(r, [h], o[1..]);
    assert Buckets(nodes, [h]) == nodes[h].entities + Buckets(nodes, []);
    assert Buckets(r, [h]) == r[h].entities + Buckets(r, []);
    assert o[0] !in o[1..];
    assert BucketsOn(nodes, r, o[1..]) by {
      forall i | 0 <= i < |o[1..]| ensures r[o[1..][i]].entities == nodes[o[1..][i]].entities {
        assert o[1..][i] in o[1..];
      }
    }
    BucketsFrame(nodes, r, o[1..]);
    var rest := Buckets(nodes, o[1..]);
    assert Contents(nodes, rank, h) == nodes[h].entities + rest;
    assert Contents(nodes, rank, h)[|nodes[h].entities|..] == rest;
    assert Contents(r, rank, h) == nodes[h].entities + [ent] + rest;
  }

  /** `node.Query(rect, results)`: appends to `results` the entities of the
      subtree that `rect` selects under `mode`, node by node in traversal
      order. */
  method Query(nodes: seq<Node>, ghost rank: seq<nat>, h: Handle, rect: Rect, mode: SelectMode, results: seq<Entity>)
    returns (out: seq<Entity>)
    requires Ranked(nodes, rank) && h < |nodes|
    ensures out == results + Selected(Contents(nodes, rank, h), rect, mode)
  {
    var order := Order(nodes, rank, h);
    out := results;
    var i := 0;
    while i < |order|
      invariant 0 <= i <= |order| && Within(order[..i], |nodes|)
      invariant out == results + Selected(Buckets(nodes, order[..i]), rect, mode)
    {
      SelectedSnoc(nodes, order, i, rect, mode);
      out := out + Selected(nodes[order[i]].entities, rect, mode);
      i := i + 1;
    }
    assert order[..i] == order;
  }

  /** Selecting from one more bucket selects from it after the others. */
  lemma SelectedSnoc(nodes: seq<Node>, order: seq<Handle>, i: nat, rect: Rect, mode: SelectMode)
    requires Within(order, |nodes|) && i < |order|
    ensures Within(order[..i + 1], |nodes|)
    ensures Selected(Buckets(nodes, order[..i + 1]), rect, mode)
      == Selected(Buckets(nodes, order[..i]), rect, mode) + Selected(nodes[order[i]].entities, rect, mode)
  {
    BucketsSnoc(nodes, order, i);
    SelectedAppend(Buckets(nodes, order[..i]), nodes[order[i]].entities, rect, mode);
  }

  /** `node.Remove(rect)`: every bucket of the subtree loses the entities that
      `rect` selects under `mode`; all other nodes stay as they were. */
  function RemoveSelected(nodes: seq<Node>, order: seq<Handle>, rect: Rect, mode: SelectMode): (r: seq<Node>)
    ensures |r| == |nodes|
    ensures forall k | 0 <= k < |nodes| ::
      r[k] == if k in order then nodes[k].(entities := Unselected(nodes[k].entities, rect, mode)) else nodes[k]
  {
    seq(|nodes|, k requires 0 <= k < |nodes| =>
      if k in order then nodes[k].(entities := Unselected(nodes[k].entities, rect, mode)) else nodes[k])
  }

  /** Filtering the buckets of `order` filters their concatenation. */
  lemma {:induction false} BucketsUnselected(nodes: seq<Node>, order: seq<Handle>, all: seq<Handle>, rect: Rect, mode: SelectMode)
    requires Within(order, |nodes|) && Within(all, |nodes|)
    requires forall i | 0 <= i < |order| :: order[i] in all
    ensures Buckets(RemoveSelected(nodes, all, rect, mode), order) == Unselected(Buckets(nodes, order), rect, mode)
    decreases |order|
  {
    if order != [] {
      BucketsUnselected(nodes, order[1..], all, rect, mode);
      UnselectedAppend(nodes[order[0]].entities, Buckets(nodes, order[1..]), rect, mode);
    }
  }

  /** Removing by region from the subtree at `h` filters its contents and
      keeps its shape. */
  lemma RemoveSelectedFilters(nodes: seq<Node>, rank: seq<nat>, h: Handle, rect: Rect, mode: SelectMode)
    requires Ranked(nodes, rank) && h < |nodes|
    ensures var r := RemoveSelected(nodes, Order(nodes, rank, h), rect, mode);
      && Ranked(r, rank) && Order(r, rank, h) == Order(nodes, rank, h)
      && Contents(r, rank, h) == Unselected(Contents(nodes, rank, h), rect, mode)
  {
    var o := Order(nodes, rank, h);
    var r := RemoveSelected(nodes, o, rect, mode);
    assert forall k | 0 <= k < |r| :: SameShape(r[k], nodes[k]);
    Reshelved(nodes, r, rank, h);
    assert Contents(r, rank, h) == Buckets(r, o);
    BucketsUnselected(nodes, o, o, rect, mode);
  }

  /** An arena that changes only buckets is ranked like the old one and
      traverses every subtree in the same order. */
  lemma Reshelved(nodes: seq<Node>, r: seq<Node>, rank: seq<nat>, h: Handle)
    requires Ranked(nodes, rank) && h < |nodes| && |r| == |nodes|
    requires forall k | 0 <= k < |nodes| :: SameShape(r[k], nodes[k])
    ensures Ranked(r, rank) && Order(r, rank, h) == Order(nodes, rank, h)
  {
    var o := Order(nodes, rank, h);
    assert Ranked(r, rank) by {
      forall g: Handle, q: Quadrant | g < |r| ensures r[g].Slot(q) == nodes[g].Slot(q) {
        assert SameShape(r[g], nodes[g]);
      }
    }
    assert ShapeOn(nodes, r, o) by {
      forall i | 0 <= i < |o| ensures SameShape(r[o[i]], nodes[o[i]]) {
      }
    }
    OrderFrame(nodes, rank, r, rank, h);
  }

  /** The position in `order` of the first node whose bucket holds `ent`. */
  function FirstHolder(nodes: seq<Node>, order: seq<Handle>, ent: Entity): (i: Option<nat>)
    requires Within(order, |nodes|)
    ensures i.Some? ==>
      && i.value < |order| && ent in nodes[order[i.value]].entities
      && forall j | 0 <= j < i.value :: ent !in nodes[order[j]].entities
    ensures i.None? ==> forall j | 0 <= j < |order| :: ent !in nodes[order[j]].entities
  {
    if order == [] then None
    else if ent in nodes[order[0]].entities then Some(0)
    else
      match FirstHolder(nodes, order[1..], ent)
      case None => None
      case Some(j) => Some(j + 1)
  }

  /** `node.Remove(ent)`: the first node of the subtree, in traversal order,
      whose bucket holds `ent` loses its first copy of it; nothing changes when
      no bucket holds it. */
  function RemoveEntity(nodes: seq<Node>, order: seq<Handle>, ent: Entity): (r: seq<Node>)
    requires Within(order, |nodes|)
    ensures |r| == |nodes| && forall k | 0 <= k < |nodes| :: SameShape(r[k], nodes[k])
  {
    match FirstHolder(nodes, order, ent)
    case None => nodes
    case Some(i) =>
      var k := order[i];
      nodes[k := nodes[k].(entities := RemoveFirst(nodes[k].entities, ent))]
  }

  /** Taking `ent` from the first bucket that holds it takes the first copy
      of `ent` out of the concatenated buckets, when no node repeats. */
  lemma {:induction false} BucketsRemoveFirst(nodes: seq<Node>, order: seq<Handle>, ent: Entity)
    requires Within(order, |nodes|)
    requires NoDup(order)
    ensures Buckets(RemoveEntity(nodes, order, ent), order) == RemoveFirst(Buckets(nodes, order), ent)
    decreases |order|
  {
    if order != [] {
      var rest := order[1..];
      assert Within(rest, |nodes|) by {
        forall i | 0 <= i < |rest| ensures rest[i] < |nodes| {
          assert rest[i] == order[i + 1];
        }
      }
      if ent in nodes[order[0]].entities {
        RemoveFromHead(nodes, order, ent);
      } else {
        BucketsRemoveFirst(nodes, rest, ent);
        SkipHead(nodes, order, ent);
        TailStep(nodes, RemoveEntity(nodes, order, ent), order, ent);
      }
    }
  }

  /** `BucketsRemoveFirst` when the first node holds `ent`. */
  lemma RemoveFromHead(nodes: seq<Node>, order: seq<Handle>, ent: Entity)
    requires order != [] && Within(order, |nodes|) && Within(order[1..], |nodes|) && NoDup(order)
    requires ent in nodes[order[0]].entities
    ensures Buckets(RemoveEntity(nodes, order, ent), order) == RemoveFirst(Buckets(nodes, order), ent)
  {
    var r := RemoveEntity(nodes, order, ent);
    var b0, rest := nodes[order[0]].entities, order[1..];
    RemoveFirstAppend(b0, Buckets(nodes, rest), ent);
    assert BucketsOn(nodes, r, rest) by {
      forall i | 0 <= i < |rest| ensures r[rest[i]].entities == nodes[rest[i]].entities {
        assert rest[i] in rest;
      }
    }
    BucketsFrame(nodes, r, rest);
  }

  /** When the first node does not hold `ent`, removing it along `order`
      removes it along the rest of the order, and leaves the first node. */
  lemma SkipHead(nodes: seq<Node>, order: seq<Handle>, ent: Entity)
    requires order != [] && Within(order, |nodes|) && Within(order[1..], |nodes|) && NoDup(order)
    requires ent !in nodes[order[0]].entities
    ensures RemoveEntity(nodes, order, ent) == RemoveEntity(nodes, order[1..], ent)
    ensures RemoveEntity(nodes, order, ent)[order[0]].entities == nodes[order[0]].entities
  {
    var rest := order[1..];
    match FirstHolder(nodes, rest, ent)
    case None =>
    case Some(j) =>
      assert FirstHolder(nodes, order, ent) == Some(j + 1);
      assert order[j + 1] == rest[j] && rest[j] in rest;
  }

  /** An arena `r` that keeps the first bucket of `order`, which lacks
      `ent`, and takes the first `ent` out of the other buckets, takes the
      first `ent` out of all of them. */
  lemma TailStep(nodes: seq<Node>, r: seq<Node>, order: seq<Handle>, ent: Entity)
    requires order != [] && Within(order, |nodes|) && Within(order[1..], |nodes|) && |r| == |nodes|
    requires r[order[0]].entities == nodes[order[0]].entities && ent !in nodes[order[0]].entities
    requires Buckets(r, order[1..]) == RemoveFirst(Buckets(nodes, order[1..]), ent)
    ensures Buckets(r, order) == RemoveFirst(Buckets(nodes, order), ent)
  {
    BucketsHead(nodes, order);
    BucketsHead(r, order);
    RemoveFirstAppend(nodes[order[0]].entities, Buckets(nodes, order[1..]), ent);
  }

  /** `Buckets` of a non-empty order. */
  lemma BucketsHead(nodes: seq<Node>, order: seq<Handle>)
    requires order != [] && Within(order, |nodes|)
    ensures Buckets(nodes, order) == nodes[order[0]].entities + Buckets(nodes, order[1..])
  {
  }

  /** No holder means no bucket, and so not their concatenation, holds `ent`. */
  lemma {:induction false} HolderAbsent(nodes: seq<Node>, order: seq<Handle>, ent: Entity)
    requires Within(order, |nodes|)
    ensures FirstHolder(nodes, order, ent).None? <==> ent !in Buckets(nodes, order)
    decreases |order|
  {
    if order != [] {
      HolderAbsent(nodes, order[1..], ent);
    }
  }

  /** Removing an entity from the subtree at `h` removes its first stored
      copy from the contents and keeps the shape. */
  lemma RemoveEntityRemoves(nodes: seq<Node>, rank: seq<nat>, h: Handle, ent: Entity)
    requires Ranked(nodes, rank) && h < |nodes| && IsTree(nodes, rank, h)
    ensures var r := RemoveEntity(nodes, Order(nodes, rank, h), ent);
      && Ranked(r, rank) && Order(r, rank, h) == Order(nodes, rank, h)
      && Contents(r, rank, h) == RemoveFirst(Contents(nodes, rank, h), ent)
  {
    var o := Order(nodes, rank, h);
    var r := RemoveEntity(nodes, o, ent);
    Reshelved(nodes, r, rank, h);
    BucketsRemoveFirst(nodes, o, ent);
  }

  // ---------------------------------------------------------------------------
  // Traversal

  /** The callback of `ForEach`: it sees a node and returns the node as it
      leaves it together with "stop the traversal". */
  type QTAction = Node -> (Node, bool)

  /** The record the callback leaves at a node: what it returned, with the
      node's children and bucket, which the callback does not restructure. */
  function Visited(n: Node, result: Node): (v: Node)
    ensures SameShape(v, n) && v.entities == n.entities
    ensures v.bound == result.bound && v.depth == result.depth && v.parent == result.parent
  {
    result.(leftTop := n.leftTop, rightTop := n.rightTop, leftBottom := n.leftBottom,
            rightBottom := n.rightBottom, entities := n.entities)
  }

  /** What `ForEach` does to the nodes `order`: the callback runs on each in
      turn, and the traversal ends right after the first call that asks to
      stop. Also says whether it was stopped. */
  function VisitAll(nodes: seq<Node>, order: seq<Handle>, action: QTAction): (r: (seq<Node>, bool))
    requires Within(order, |nodes|)
    ensures |r.0| == |nodes| && forall k | 0 <= k < |nodes| :: SameShape(r.0[k], nodes[k]) && r.0[k].entities == nodes[k].entities
    ensures forall k | 0 <= k < |nodes| && k !in order :: r.0[k] == nodes[k]
    decreases |order|
  {
    if order == [] then (nodes, false)
    else
      var k := order[0];
      var (n, stop) := action(nodes[k]);
      var next := nodes[k := Visited(nodes[k], n)];
      if stop then (next, true) else VisitAll(next, order[1..], action)
  }

  /** `node.ForEach(action)`: runs the callback on the nodes of the subtree
      in traversal order until it asks to stop; returns whether it did. */
  method ForEach(nodes: seq<Node>, ghost rank: seq<nat>, h: Handle, action: QTAction)
    returns (after: seq<Node>, stopped: bool)
    requires Ranked(nodes, rank) && h < |nodes|
    ensures (after, stopped) == VisitAll(nodes, Order(nodes, rank, h), action)
  {
    var order := Order(nodes, rank, h);
    after, stopped := nodes, false;
    var i := 0;
    while i < |order| && !stopped
      invariant 0 <= i <= |order| && |after| == |nodes|
      invariant stopped ==> (after, stopped) == VisitAll(nodes, order, action)
      invariant !stopped ==> VisitAll(after, order[i..], action) == VisitAll(nodes, order, action)
      decreases |order| - i
    {
      assert order[i..][0] == order[i] && order[i..][1..] == order[i + 1..];
      var k := order[i];
      var (n, stop) := action(after[k]);
      after := after[k := Visited(after[k], n)];
      stopped := stop;
      i := i + 1;
    }
    if !stopped {
      assert order[i..] == [];
    }
  }

  /** The callback of the root growth: `node.Depth += d`, never stopping. */
  function ShiftBy(d: int): QTAction
  {
    (n: Node) => (n.(depth := n.depth + d), false)
  }

  /** A traversal with `ShiftBy(d)` that meets no node twice raises the depth
      of every node it meets by exactly `d`, is never stopped, and changes
      nothing else. */
  lemma {:induction false} ShiftAll(nodes: seq<Node>, order: seq<Handle>, d: int)
    requires Within(order, |nodes|)
    requires NoDup(order)
    ensures !VisitAll(nodes, order, ShiftBy(d)).1
    ensures forall k | 0 <= k < |nodes| ::
      VisitAll(nodes, order, ShiftBy(d)).0[k] == if k in order then nodes[k].(depth := nodes[k].depth + d) else nodes[k]
    decreases |order|
  {
    if order != [] {
      var k := order[0];
      var next := nodes[k := nodes[k].(depth := nodes[k].depth + d)];
      assert ShiftBy(d)(nodes[k]) == (nodes[k].(depth := nodes[k].depth + d), false);
      assert Visited(nodes[k], nodes[k].(depth := nodes[k].depth + d)) == nodes[k].(depth := nodes[k].depth + d);
      assert Within(order[1..], |next|) by {
        forall i | 0 <= i < |order[1..]| ensures order[1..][i] < |next| {
          assert order[1..][i] == order[i + 1];
        }
      }
      ShiftAll(next, order[1..], d);
    }
  }

  /** Moving the subtree at `h` down `d` levels with `ForEach` changes the
      depth of its nodes and nothing else: the arena stays ranked and the
      subtree keeps its traversal and its contents. */
  lemma ShiftSubtree(nodes: seq<Node>, rank: seq<nat>, h: Handle, d: int)
    requires Ranked(nodes, rank) && h < |nodes| && IsTree(nodes, rank, h)
    ensures var (after, stopped) := VisitAll(nodes, Order(nodes, rank, h), ShiftBy(d));
      && !stopped && Ranked(after, rank)
      && Order(after, rank, h) == Order(nodes, rank, h) && Contents(after, rank, h) == Contents(nodes, rank, h)
      && forall k | 0 <= k < |nodes| ::
           after[k] == if k in Order(nodes, rank, h) then nodes[k].(depth := nodes[k].depth + d) else nodes[k]
  {
    var o := Order(nodes, rank, h);
    var after := VisitAll(nodes, o, ShiftBy(d)).0;
    ShiftAll(nodes, o, d);
    assert Ranked(after, rank) by {
      forall g: Handle, q: Quadrant | g < |after| ensures after[g].Slot(q) == nodes[g].Slot(q) {
      }
    }
    assert ShapeOn(nodes, after, o) && BucketsOn(nodes, after, o);
    SubtreeFrame(nodes, rank, after, rank, h);
  }

  /** Any callback leaves the subtree's shape and contents as they were,
      since it cannot restructure a node or its bucket. */
  lemma VisitKeeps(nodes: seq<Node>, rank: seq<nat>, h: Handle, action: QTAction)
    requires Ranked(nodes, rank) && h < |nodes|
    ensures var after := VisitAll(nodes, Order(nodes, rank, h), action).0;
      && Ranked(after, rank) && Order(after, rank, h) == Order(nodes, rank, h)
      && Contents(after, rank, h) == Contents(nodes, rank, h) && IsTree(after, rank, h) == IsTree(nodes, rank, h)
  {
    var after := VisitAll(nodes, Order(nodes, rank, h), action).0;
    assert Ranked(after, rank) by {
      forall g: Handle, q: Quadrant | g < |after| ensures after[g].Slot(q) == nodes[g].Slot(q) {
        assert SameShape(after[g], nodes[g]);
      }
    }
    ArenaFrame(nodes, rank, after, rank, h);
  }

  // ---------------------------------------------------------------------------
  // Inserting a node into a fresh root

  /** Where the node returned for an inserted node is attached. */
  datatype Link =
    | Detached             // its parent is null
    | ParentOnly           // its parent is the new root, but it sits in none of the slots
    | InSlot(q: Quadrant)  // its parent is the new root, and it sits in slot `q`

  /** What `newRoot.Insert(oldRoot)` does: return null, return the new root
      itself, or return a new node with the given bound and depth, attached
      as `link` says. */
  datatype Placement = Rejected | Kept | Child(bound: Rect, depth: int, link: Link)

  /** `newRoot.Insert(oldRoot)` on a fresh root with bound `nb`, appended to
      the arena at handle `|nodes|`: the root records itself, and a `Child`
      placement appends the returned node after it, with no children and an
      empty bucket, its parent the new root unless it is detached, and in
      slot `q` of the new root when the link says `InSlot(q)`. Also returns
      the handle of the returned node, if any. */
  function NewRootInsert(nodes: seq<Node>, nb: Rect, how: Placement): (r: (seq<Node>, Option<Handle>))
    ensures |r.0| == |nodes| + (if how.Child? then 2 else 1) && r.0[..|nodes|] == nodes
    ensures how.Rejected? <==> r.1.None?
    ensures r.1.Some? ==> |nodes| <= r.1.value < |r.0|
    ensures r.1.Some? && r.0[r.1.value].parent.Some? ==> r.0[r.1.value].parent.value == |nodes|
  {
    var n := |nodes|;
    match how
    case Rejected => (nodes + [NewNode(nb, None, 0)], None)
    case Kept => (nodes + [NewNode(nb, None, 0)], Some(n))
    case Child(b, d, link) =>
      var top := NewNode(nb, None, 0);
      var top' := if link.InSlot? then top.WithSlot(link.q, Some(n + 1)) else top;
      (nodes + [top', NewNode(b, if link.Detached? then None else Some(n), d)], Some(n + 1))
  }

  /** The ranks that keep the arena acyclic after `NewRootInsert` above the
      root `h`: the new root ranks above `h`, the returned node lowest. */
  function NewRootRank(rank: seq<nat>, h: Handle, how: Placement): (r: seq<nat>)
    requires h < |rank|
    ensures |r| == |rank| + (if how.Child? then 2 else 1) && r[..|rank|] == rank
    ensures r[|rank|] == rank[h] + 1
  {
    if how.Child? then rank + [rank[h] + 1, 0] else rank + [rank[h] + 1]
  }

  /** The new records of `NewRootInsert` keep the arena ranked, and the old
      root's subtree keeps its traversal and its entities. */
  lemma NewRootInsertKeeps(nodes: seq<Node>, rank: seq<nat>, h: Handle, nb: Rect, how: Placement)
    requires Ranked(nodes, rank) && h < |nodes|
    ensures var (r, rk) := (NewRootInsert(nodes, nb, how).0, NewRootRank(rank, h, how));
      && Ranked(r, rk) && Order(r, rk, h) == Order(nodes, rank, h) && Contents(r, rk, h) == Contents(nodes, rank, h)
  {
    var r, rk := NewRootInsert(nodes, nb, how).0, NewRootRank(rank, h, how);
    var o := Order(nodes, rank, h);
    assert forall k | 0 <= k < |nodes| :: r[k] == nodes[k] by {
      forall k | 0 <= k < |nodes| ensures r[k] == nodes[k] {
        assert r[..|nodes|][k] == r[k];
      }
    }
    assert Ranked(r, rk);
    SubtreeFrame(nodes, rank, r, rk, h);
  }

  /** Records that keep their children and buckets keep every subtree's
      traversal, contents and tree shape, in a longer arena too. */
  lemma ArenaFrame(nodes: seq<Node>, rank: seq<nat>, ns: seq<Node>, rk: seq<nat>, h: Handle)
    requires Ranked(nodes, rank) && Ranked(ns, rk) && h < |nodes| <= |ns|
    requires forall k | 0 <= k < |nodes| :: SameShape(ns[k], nodes[k]) && ns[k].entities == nodes[k].entities
    ensures Order(ns, rk, h) == Order(nodes, rank, h) && Contents(ns, rk, h) == Contents(nodes, rank, h)
    ensures IsTree(ns, rk, h) == IsTree(nodes, rank, h)
  {
    var o := Order(nodes, rank, h);
    assert ShapeOn(nodes, ns, o) && BucketsOn(nodes, ns, o);
    SubtreeFrame(nodes, rank, ns, rk, h);
  }

  /** A node whose only child is `c`, in slot `q`, is traversed before the
      subtree of `c`, and stores its own bucket before that subtree's. */
  lemma SingleChild(nodes: seq<Node>, rank: seq<nat>, p: Handle, q: Quadrant, c: Handle)
    requires Ranked(nodes, rank) && p < |nodes|
    requires nodes[p].Slot(q) == Some(c) && forall s | s != q :: nodes[p].Slot(s).None?
    ensures Order(nodes, rank, p) == [p] + Order(nodes, rank, c)
    ensures Contents(nodes, rank, p) == nodes[p].entities + Contents(nodes, rank, c)
  {
    var o1, o2, o3, o4 := SlotOrder(nodes, rank, p, LeftTop), SlotOrder(nodes, rank, p, RightTop),
      SlotOrder(nodes, rank, p, LeftBottom), SlotOrder(nodes, rank, p, RightBottom);
    var oc := Order(nodes, rank, c);
    match q {
      case LeftTop => assert o1 == oc && o2 == o3 == o4 == [];
      case RightTop => assert o2 == oc && o1 == o3 == o4 == [];
      case LeftBottom => assert o3 == oc && o1 == o2 == o4 == [];
      case RightBottom => assert o4 == oc && o1 == o2 == o3 == [];
    }
    assert Order(nodes, rank, p) == [p] + oc;
    BucketsAppend(nodes, [p], oc);
    assert Buckets(nodes, [p]) == nodes[p].entities + Buckets(nodes, []);
  }

  /** A node outside the tree at `h` whose only child is `h` is the root of
      a tree one node larger. */
  lemma RootOver(nodes: seq<Node>, rank: seq<nat>, n: Handle, q: Quadrant, h: Handle)
    requires Ranked(nodes, rank) && n < |nodes| && h < |nodes| && IsTree(nodes, rank, h)
    requires n !in Order(nodes, rank, h)
    requires nodes[n].Slot(q) == Some(h) && forall s | s != q :: nodes[n].Slot(s).None?
    ensures IsTree(nodes, rank, n) && Order(nodes, rank, n) == [n] + Order(nodes, rank, h)
    ensures Contents(nodes, rank, n) == nodes[n].entities + Contents(nodes, rank, h)
  {
    SingleChild(nodes, rank, n, q, h);
    var o := Order(nodes, rank, h);
    assert ([n] + o)[0] == n && ([n] + o)[1..] == o;
  }

  /** The end of a growth step on the arena: the subtree at `h` moves `d`
      levels down, and the node `n` outside it, whose only child is `h`,
      becomes the root of a tree of one more node storing the same entities
      after those of `n`. */
  lemma ShiftUnder(nodes: seq<Node>, rank: seq<nat>, h: Handle, n: Handle, q: Quadrant, d: int)
    requires Ranked(nodes, rank) && h < |nodes| && IsTree(nodes, rank, h)
    requires n < |nodes| && Within(Order(nodes, rank, h), n)
    requires nodes[n].Slot(q) == Some(h) && forall s | s != q :: nodes[n].Slot(s).None?
    ensures var o, after := Order(nodes, rank, h), VisitAll(nodes, Order(nodes, rank, h), ShiftBy(d)).0;
      && Ranked(after, rank) && after[n] == nodes[n] && IsTree(after, rank, n)
      && Order(after, rank, n) == [n] + o && Contents(after, rank, n) == nodes[n].entities + Contents(nodes, rank, h)
      && forall j | 0 <= j < |o| :: after[o[j]] == nodes[o[j]].(depth := nodes[o[j]].depth + d)
  {
    var o := Order(nodes, rank, h);
    var after := VisitAll(nodes, o, ShiftBy(d)).0;
    assert n !in o by {
      forall j | 0 <= j < |o| ensures o[j] != n {
      }
    }
    ShiftSubtree(nodes, rank, h, d);
    assert after[n] == nodes[n] && Order(after, rank, h) == o;
    RootOver(after, rank, n, q, h);
    forall j | 0 <= j < |o| ensures after[o[j]] == nodes[o[j]].(depth := nodes[o[j]].depth + d) {
      assert o[j] in o;
    }
  }

  /** An arena of one node without children is a tree that stores that
      node's bucket. */
  lemma LoneNode(nodes: seq<Node>, rank: seq<nat>)
    requires |nodes| == |rank| == 1 && forall q :: nodes[0].Slot(q).None?
    ensures Ranked(nodes, rank) && Order(nodes, rank, 0) == [0]
    ensures IsTree(nodes, rank, 0) && Contents(nodes, rank, 0) == nodes[0].entities
  {
    assert Ranked(nodes, rank);
    forall q ensures SlotOrder(nodes, rank, 0, q) == [] {
    }
    assert Order(nodes, rank, 0) == [0];
    assert Buckets(nodes, [0]) == nodes[0].entities + Buckets(nodes, []);
  }

  /** The arena of a new tree: one depth-0 node with bound `rect`, no
      parent, no children and an empty bucket, which is a tree storing nothing. */
  method NewArena(rect: Rect) returns (nodes: seq<Node>, ghost rank: seq<nat>)
    ensures |nodes| == 1 && nodes[0] == NewNode(rect, None, 0)
    ensures Ranked(nodes, rank) && IsTree(nodes, rank, 0) && Contents(nodes, rank, 0) == []
  {
    nodes, rank := [NewNode(rect, None, 0)], [0];
    LoneNode(nodes, rank);
  }
}
